/** What the indexers promise together: the error taxonomy shared by all seven,
    the order the time-ordered index keeps, and the grouping done by the
    comment compound index. */
module IndexerLemmas {
  import opened Bytes
  import opened Records
  import opened Indexers

  /** No object yields no key and no error, whichever indexer is asked. */
  lemma AbsentHasNoKey(ix: IndexerName)
    ensures Apply(ix, Absent) == NoKey
  {
  }

  /** An object whose value is nil is treated like no object: no key and no
      error, whichever indexer is asked. */
  lemma NilValueResult(ix: IndexerName)
    ensures Apply(ix, Present(None)) == NoKey
  {
  }

  /** For a present record, an indexer fails exactly when the record is not of
      the type it expects or, for the time-ordered index, predates the epoch;
      otherwise it returns a key. */
  lemma StateErrorExactly(ix: IndexerName, e: Entity)
    ensures Apply(ix, Present(Some(e))) != NoKey
    ensures Apply(ix, Present(Some(e))).StateError? <==>
      KindOf(e) != ExpectedKind(ix) || (ix == BlogTimed && e.createdAt < 0)
  {
  }

  /** The time-ordered key of an article with a valid creation time is the
      encoded time followed by the article's `ID`. */
  lemma TimedKeyShape(a: Entity)
    requires a.Article? && a.createdAt >= 0
    ensures BlogTimedIndexer(Present(Some(a))) == Key(EncodeUint64(a.createdAt) + a.id)
  {
    var k := BlogTimedIndexer(Present(Some(a))).bytes;
    EncodeUint64Decodes(k[..Uint64Width]);
    assert k == k[..Uint64Width] + k[Uint64Width..];
  }

  /** Time-ordered keys sort by creation time first and by article `ID` among
      articles created in the same second. */
  lemma TimedKeyOrder(a1: Entity, a2: Entity)
    requires a1.Article? && a1.createdAt >= 0
    requires a2.Article? && a2.createdAt >= 0
    ensures LexLess(BlogTimedIndexer(Present(Some(a1))).bytes, BlogTimedIndexer(Present(Some(a2))).bytes) <==>
      a1.createdAt < a2.createdAt || (a1.createdAt == a2.createdAt && LexLess(a1.id, a2.id))
  {
    TimedKeyShape(a1);
    TimedKeyShape(a2);
    var t1, t2 := EncodeUint64(a1.createdAt), EncodeUint64(a2.createdAt);
    LexLessConcat(t1, a1.id, t2, a2.id);
    EncodeUint64Order(a1.createdAt, a2.createdAt);
    assert t1 == t2 <==> a1.createdAt == a2.createdAt;
  }

  /** Two articles share a time-ordered key exactly when they share creation
      time and `ID`: the trailing `ID` breaks ties between articles created in
      the same second. */
  lemma TimedKeyInjective(a1: Entity, a2: Entity)
    requires a1.Article? && a1.createdAt >= 0
    requires a2.Article? && a2.createdAt >= 0
    ensures BlogTimedIndexer(Present(Some(a1))) == BlogTimedIndexer(Present(Some(a2))) <==>
      a1.createdAt == a2.createdAt && a1.id == a2.id
  {
  }

  /** The compound comment key reads only the article and the author: comments
      that differ in `ID`, content or creation time but share both collide. */
  lemma ArticleUserKeyIgnoresOtherFields(c1: Entity, c2: Entity)
    requires c1.Comment? && c2.Comment?
    requires c1.articleId == c2.articleId && c1.owner == c2.owner
    ensures ArticleUserIndexer(Present(Some(c1))) == ArticleUserIndexer(Present(Some(c2)))
  {
  }

  /** With article identifiers of one width, the compound key groups comments
      exactly by (article, author). */
  lemma ArticleUserKeyGroups(c1: Entity, c2: Entity)
    requires c1.Comment? && c2.Comment?
    requires |c1.articleId| == |c2.articleId|
    ensures ArticleUserIndexer(Present(Some(c1))) == ArticleUserIndexer(Present(Some(c2))) <==>
      c1.articleId == c2.articleId && c1.owner == c2.owner
  {
  }

  /** The compound key is the by-article key followed by the by-author key, so
      a prefix scan of the compound index by article finds that article's
      comments; on an absent or mistyped handle the three indexers agree. */
  lemma ArticleUserKeyExtendsArticleKey(h: Handle)
    ensures ArticleUserIndexer(h).Key? <==> CommentArticleIdIndexer(h).Key?
    ensures ArticleUserIndexer(h).Key? ==>
              ArticleUserIndexer(h).bytes == CommentArticleIdIndexer(h).bytes + CommentUserIdIndexer(h).bytes
    ensures !ArticleUserIndexer(h).Key? ==>
              ArticleUserIndexer(h) == CommentArticleIdIndexer(h) == CommentUserIdIndexer(h)
  {
  }
}
