/** The case tables of x/blog/bucket_test.go, one lemma per test function.
    Where a table uses the wall clock (`time.Now()`) or a fresh address, the
    lemma takes that value as a parameter and holds for every choice of it. */
module BucketCases {
  import opened Bytes
  import opened Records
  import opened Indexers
  import IndexerLemmas

  /** The zero values `new(Blog)` and `new(User)` the tables use as records of
      the wrong type. */
  const EmptyBlog: Entity := Blog([], [], 0)

  lemma BlogUserIdCases(now: UnixTime)
    ensures var userId := EncodeUint64(1);
      && BlogUserIdIndexer(Present(Some(Blog(EncodeUint64(1), userId, now)))) == Key(userId)
      && BlogUserIdIndexer(Absent) == NoKey
      && BlogUserIdIndexer(Present(Some(User))) == StateError
  {
  }

  lemma ArticleBlogIdCases(now: UnixTime, future: UnixTime)
    ensures var blogId := EncodeUint64(1);
      && ArticleBlogIdIndexer(Present(Some(Article(EncodeUint64(1), blogId, now, future)))) == Key(blogId)
      && ArticleBlogIdIndexer(Absent) == NoKey
      && ArticleBlogIdIndexer(Present(Some(EmptyBlog))) == StateError
  {
  }

  /** Creation time `Unix(1)` and `ID` `SequenceID(1)` give the 16-byte key
      `{0,0,0,0,0,0,0,1, 0,0,0,0,0,0,0,1}`; creation time `Unix(-1)` is refused. */
  lemma BlogTimedCases()
    ensures var now, future, blogId := 1, 1 + 3600, EncodeUint64(1);
      && BlogTimedIndexer(Present(Some(Article(EncodeUint64(1), blogId, now, future))))
         == Key([0, 0, 0, 0, 0, 0, 0, 1, 0, 0, 0, 0, 0, 0, 0, 1])
      && BlogTimedIndexer(Absent) == NoKey
      && BlogTimedIndexer(Present(Some(EmptyBlog))) == StateError
      && BlogTimedIndexer(Present(None)) == NoKey
      && BlogTimedIndexer(Present(Some(Article(EncodeUint64(1), blogId, -1, future)))) == StateError
  {
    EncodeUint64One();
    IndexerLemmas.TimedKeyShape(Article(EncodeUint64(1), EncodeUint64(1), 1, 1 + 3600));
    assert EncodeUint64(1) + EncodeUint64(1) == [0, 0, 0, 0, 0, 0, 0, 1, 0, 0, 0, 0, 0, 0, 0, 1];
  }

  lemma CommentArticleIdCases(now: UnixTime, owner: Address)
    ensures var articleId := EncodeUint64(1);
      && CommentArticleIdIndexer(Present(Some(Comment(EncodeUint64(1), articleId, owner, now)))) == Key(articleId)
      && CommentArticleIdIndexer(Absent) == NoKey
      && CommentArticleIdIndexer(Present(Some(EmptyBlog))) == StateError
  {
  }

  lemma CommentUserIdCases(now: UnixTime, owner: Address)
    ensures
      && CommentUserIdIndexer(Present(Some(Comment(EncodeUint64(1), EncodeUint64(1), owner, now)))) == Key(owner)
      && CommentUserIdIndexer(Absent) == NoKey
      && CommentUserIdIndexer(Present(Some(EmptyBlog))) == StateError
  {
  }

  /** Comments 1 and 2 differ in `ID` (and, in the source, in content) but share
      article `SequenceID(1)` and the author, so both map to
      `{0,0,0,0,0,0,0,1} ++ owner`. */
  lemma ArticleUserCases(now: UnixTime, owner: Address)
    ensures var expected := Key([0, 0, 0, 0, 0, 0, 0, 1] + owner);
      && ArticleUserIndexer(Present(Some(Comment(EncodeUint64(1), EncodeUint64(1), owner, now)))) == expected
      && ArticleUserIndexer(Present(Some(Comment(EncodeUint64(2), EncodeUint64(1), owner, now)))) == expected
      && ArticleUserIndexer(Absent) == NoKey
      && ArticleUserIndexer(Present(Some(EmptyBlog))) == StateError
  {
    EncodeUint64One();
    IndexerLemmas.ArticleUserKeyIgnoresOtherFields(
      Comment(EncodeUint64(1), EncodeUint64(1), owner, now), Comment(EncodeUint64(2), EncodeUint64(1), owner, now));
    var k := ArticleUserIndexer(Present(Some(Comment(EncodeUint64(1), EncodeUint64(1), owner, now)))).bytes;
    assert k == k[..Uint64Width] + k[Uint64Width..];
  }

  lemma LikeArticleIdCases(now: UnixTime, owner: Address)
    ensures var articleId := EncodeUint64(1);
      && LikeArticleIdIndexer(Present(Some(Like(EncodeUint64(1), articleId, owner, now)))) == Key(articleId)
      && LikeArticleIdIndexer(Absent) == NoKey
      && LikeArticleIdIndexer(Present(Some(EmptyBlog))) == StateError
  {
  }
}
