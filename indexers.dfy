/** The secondary-index key functions of the blog module. Each maps the handle
    the store passes it to no key, a key, or a state error (`errors.ErrState`). */
module Indexers {
  import opened Bytes
  import opened Records

  /** The `([]byte, error)` pair an indexer returns: `(nil, nil)`, `(key, nil)`
      or `(nil, ErrState)`. */
  datatype IndexResult = NoKey | Key(bytes: seq<Byte>) | StateError

  /** Encodes a creation time for the time-ordered index; a time before the
      epoch is refused. */
  function EncodeCreatedAt(t: UnixTime): (r: Option<seq<Byte>>)
    ensures r.None? <==> t < 0
    ensures r.Some? ==> |r.value| == Uint64Width && FromBigEndian(r.value) == t
  {
    if t < 0 then None else Some(EncodeUint64(t))
  }

  /** Blogs by owner: the blog's `Owner` address. */
  function BlogUserIdIndexer(h: Handle): (r: IndexResult)
    ensures NoValue(h) ==> r == NoKey
    ensures !NoValue(h) && !Holds(h, BlogKind) ==> r == StateError
    ensures Holds(h, BlogKind) ==> r == Key(h.payload.value.owner)
  {
    match Extract(h, BlogKind)
    case NotPresent => NoKey
    case WrongKind => StateError
    case Found(blog) => Key(blog.owner)
  }

  /** Articles by blog: the article's `BlogID`. */
  function ArticleBlogIdIndexer(h: Handle): (r: IndexResult)
    ensures NoValue(h) ==> r == NoKey
    ensures !NoValue(h) && !Holds(h, ArticleKind) ==> r == StateError
    ensures Holds(h, ArticleKind) ==> r == Key(h.payload.value.blogId)
  {
    match Extract(h, ArticleKind)
    case NotPresent => NoKey
    case WrongKind => StateError
    case Found(article) => Key(article.blogId)
  }

  /** Articles by creation time: the 8-byte big-endian creation time followed by
      the article's own `ID`. A creation time before the epoch is a state error. */
  function BlogTimedIndexer(h: Handle): (r: IndexResult)
    ensures NoValue(h) ==> r == NoKey
    ensures !NoValue(h) && !Holds(h, ArticleKind) ==> r == StateError
    ensures Holds(h, ArticleKind) ==> (r.StateError? <==> h.payload.value.createdAt < 0)
    ensures r.Key? ==>
              && Holds(h, ArticleKind)
              && |r.bytes| == Uint64Width + |h.payload.value.id|
              && FromBigEndian(r.bytes[..Uint64Width]) == h.payload.value.createdAt
              && r.bytes[Uint64Width..] == h.payload.value.id
  {
    match Extract(h, ArticleKind)
    case NotPresent => NoKey
    case WrongKind => StateError
    case Found(article) =>
      match EncodeCreatedAt(article.createdAt)
      case None => StateError
      case Some(createdAt) =>
        assert (createdAt + article.id)[..Uint64Width] == createdAt;
        Key(createdAt + article.id)
  }

  /** Comments by article: the comment's `ArticleID`. */
  function CommentArticleIdIndexer(h: Handle): (r: IndexResult)
    ensures NoValue(h) ==> r == NoKey
    ensures !NoValue(h) && !Holds(h, CommentKind) ==> r == StateError
    ensures Holds(h, CommentKind) ==> r == Key(h.payload.value.articleId)
  {
    match Extract(h, CommentKind)
    case NotPresent => NoKey
    case WrongKind => StateError
    case Found(comment) => Key(comment.articleId)
  }

  /** Comments by author: the comment's `Owner` address. */
  function CommentUserIdIndexer(h: Handle): (r: IndexResult)
    ensures NoValue(h) ==> r == NoKey
    ensures !NoValue(h) && !Holds(h, CommentKind) ==> r == StateError
    ensures Holds(h, CommentKind) ==> r == Key(h.payload.value.owner)
  {
    match Extract(h, CommentKind)
    case NotPresent => NoKey
    case WrongKind => StateError
    case Found(comment) => Key(comment.owner)
  }

  /** Comments by article and author: the comment's `ArticleID` followed by its
      `Owner`. The comment's own `ID` and content play no part. */
  function ArticleUserIndexer(h: Handle): (r: IndexResult)
    ensures NoValue(h) ==> r == NoKey
    ensures !NoValue(h) && !Holds(h, CommentKind) ==> r == StateError
    ensures Holds(h, CommentKind) ==>
              && r.Key?
              && |r.bytes| == |h.payload.value.articleId| + |h.payload.value.owner|
              && r.bytes[..|h.payload.value.articleId|] == h.payload.value.articleId
              && r.bytes[|h.payload.value.articleId|..] == h.payload.value.owner
  {
    match Extract(h, CommentKind)
    case NotPresent => NoKey
    case WrongKind => StateError
    case Found(comment) =>
      assert (comment.articleId + comment.owner)[..|comment.articleId|] == comment.articleId;
      Key(comment.articleId + comment.owner)
  }

  /** Likes by article: the like's `ArticleID`. */
  function LikeArticleIdIndexer(h: Handle): (r: IndexResult)
    ensures NoValue(h) ==> r == NoKey
    ensures !NoValue(h) && !Holds(h, LikeKind) ==> r == StateError
    ensures Holds(h, LikeKind) ==> r == Key(h.payload.value.articleId)
  {
    match Extract(h, LikeKind)
    case NotPresent => NoKey
    case WrongKind => StateError
    case Found(like) => Key(like.articleId)
  }

  /** The seven indexers, enumerated so the shared lemmas can quantify over them. */
  datatype IndexerName =
    | BlogUserId | ArticleBlogId | BlogTimed | CommentArticleId
    | CommentUserId | ArticleUser | LikeArticleId

  /** The record type each indexer is written against. */
  function ExpectedKind(ix: IndexerName): Kind
  {
    match ix
    case BlogUserId => BlogKind
    case ArticleBlogId | BlogTimed => ArticleKind
    case CommentArticleId | CommentUserId | ArticleUser => CommentKind
    case LikeArticleId => LikeKind
  }

  function Apply(ix: IndexerName, h: Handle): IndexResult
  {
    match ix
    case BlogUserId => BlogUserIdIndexer(h)
    case ArticleBlogId => ArticleBlogIdIndexer(h)
    case BlogTimed => BlogTimedIndexer(h)
    case CommentArticleId => CommentArticleIdIndexer(h)
    case CommentUserId => CommentUserIdIndexer(h)
    case ArticleUser => ArticleUserIndexer(h)
    case LikeArticleId => LikeArticleIdIndexer(h)
  }
}
