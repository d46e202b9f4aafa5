# Blog secondary-index keys

A model of the secondary-index key functions of the `x/blog` module of a weave
application. The store calls each indexer with the object being written (or
none). The indexer returns one of three results:

- no key;
- a key under which the store files a back-reference to the record;
- a state error (`errors.ErrState`), which aborts the state transition.

The seven indexers are:

| indexer | record | key |
|---|---|---|
| `blogUserIDIndexer` | Blog | `Owner` |
| `articleBlogIDIndexer` | Article | `BlogID` |
| `blogTimedIndexer` | Article | 8-byte big-endian `CreatedAt` followed by `ID` |
| `commentArticleIDIndexer` | Comment | `ArticleID` |
| `commentUserIDIndexer` | Comment | `Owner` |
| `articleUserIndexer` | Comment | `ArticleID` followed by `Owner` |
| `likeArticleIDIndexer` | Like | `ArticleID` |

The Go implementations are not part of this model. Their behaviour is taken
from the case tables in `x/blog/bucket_test.go`, which give concrete records,
byte-exact expected keys and expected error kinds.

Files:

- `bytes.dfy` (module `Bytes`): the 8-byte big-endian encoder
  (`weavetest.SequenceID` and the timestamp encoding), its decoder, and
  byte-wise key order (`bytes.Compare`). It proves the round trips and that the
  encoding preserves numeric order.
- `records.dfy` (module `Records`): the records as indexing sees them, the
  handle the store passes, and the typed extraction every indexer shares.
- `indexers.dfy` (module `Indexers`): the seven indexers and the creation-time
  encoder, plus an enumeration of the indexers by name.
- `indexer_lemmas.dfy` (module `IndexerLemmas`): the error rules every indexer
  shares, the order of the time-ordered index, and how the compound comment
  index groups comments.
- `bucket_cases.dfy` (module `BucketCases`): each case table of the test file
  as a lemma over the model.

Decisions where the test file leaves the behaviour open:

- An object whose value is nil (`orm.NewSimpleObj(nil, nil)`) is pinned only
  for `blogTimedIndexer`, which returns no key and no error. The Go source of
  the other six is not part of this model. The model gives all seven one shared
  extraction step, and in that step a nil value means "no record", as no object
  does. So every indexer returns no key and no error for a nil value. This
  follows the one pinned case and the design rule that a missing value is
  never an error.
- The timed key puts the creation time first and the article `ID` second. The
  one test vector has time 1 and `ID` 1, so it cannot tell the two orders
  apart. The comment at `x/blog/bucket_test.go:143` names the fields the key
  uses, but not their order. The time-first order comes from the design of the
  index alone: it exists to sort articles by creation time.
- A creation time is valid when it is not negative, so the epoch itself
  (time 0) is accepted. The test pins only `Unix(1)` as valid and `Unix(-1)` as
  invalid.
- Addresses and identifiers are copied unchanged, even when empty.

## Model

| member | source | states |
|---|---|---|
| Bytes.EncodeUint64 | x/blog/bucket_test.go:17 | a sequence identifier is 8 bytes whose big-endian value is the number |
| Bytes.EncodeUint64Decodes | x/blog/bucket_test.go:307 | every 8-byte string decodes to a uint64 whose encoding is that same string (the other half of the round trip) |
| Bytes.EncodeUint64Order | x/blog/bucket_test.go:143-144 | `a < b` exactly when `SequenceID(a)` sorts before `SequenceID(b)` under byte comparison, in both directions |
| Bytes.BigEndianOrder | x/blog/bucket_test.go:143-144 | for any width, big-endian encoding preserves and reflects numeric order |
| Bytes.LexLessConcat | x/blog/bucket_test.go:144 | in a key built from a fixed-width head and a tail, the heads decide the order, and the tails decide only when the heads are equal |
| Bytes.EncodeUint64One | x/blog/bucket_test.go:289-307 | `SequenceID(1)` is exactly `{0,0,0,0,0,0,0,1}` |
| Records.Extract | x/blog/bucket_test.go:37-46 | no object or a nil value means "not present", not an error; a record of another type is a type mismatch; otherwise the typed record is returned |
| Indexers.EncodeCreatedAt | x/blog/bucket_test.go:113-114 | a creation time is refused exactly when it is before the epoch; otherwise it is 8 bytes that decode to the time |
| Indexers.BlogUserIdIndexer | x/blog/bucket_test.go:27-47 | no object or a nil value gives no key; a non-Blog gives ErrState; a Blog gives its `Owner` verbatim |
| Indexers.ArticleBlogIdIndexer | x/blog/bucket_test.go:78-98 | no object or a nil value gives no key; a non-Article gives ErrState; an Article gives its `BlogID` verbatim |
| Indexers.BlogTimedIndexer | x/blog/bucket_test.go:146-176 | no object or a nil value gives no key; a record of another type gives ErrState; an Article gives ErrState exactly when its creation time is negative; a key is 8 bytes decoding to the creation time followed by the article `ID` |
| Indexers.CommentArticleIdIndexer | x/blog/bucket_test.go:204-224 | no object or a nil value gives no key; a non-Comment gives ErrState; a Comment gives its `ArticleID` verbatim |
| Indexers.CommentUserIdIndexer | x/blog/bucket_test.go:251-271 | no object or a nil value gives no key; a non-Comment gives ErrState; a Comment gives its `Owner` verbatim |
| Indexers.ArticleUserIndexer | x/blog/bucket_test.go:307-334 | no object or a nil value gives no key; a non-Comment gives ErrState; a Comment always gives a key that splits into its `ArticleID` and then its `Owner` |
| Indexers.LikeArticleIdIndexer | x/blog/bucket_test.go:360-380 | no object or a nil value gives no key; a non-Like gives ErrState; a Like gives its `ArticleID` verbatim |
| IndexerLemmas.AbsentHasNoKey | x/blog/bucket_test.go:37-41 | every one of the seven indexers returns no key and no error when there is no object |
| IndexerLemmas.NilValueResult | x/blog/bucket_test.go:166-170 | an object whose value is nil gives no key and no error, for every one of the seven indexers |
| IndexerLemmas.StateErrorExactly | x/blog/bucket_test.go:161-175 | for a present record, every indexer fails exactly when the record has the wrong type or (timed index only) a negative creation time, and returns a key otherwise |
| IndexerLemmas.TimedKeyShape | x/blog/bucket_test.go:143-155 | the timed key of an article with a valid time is `SequenceID(CreatedAt) ++ ID` |
| IndexerLemmas.TimedKeyOrder | x/blog/bucket_test.go:143-144 | timed keys sort by creation time, and by article `ID` within the same second, in both directions |
| IndexerLemmas.TimedKeyInjective | x/blog/bucket_test.go:143-144 | two articles get the same timed key exactly when they share creation time and `ID` |
| IndexerLemmas.ArticleUserKeyIgnoresOtherFields | x/blog/bucket_test.go:289-323 | two comments with the same article and author get the same compound key, whatever their `ID`, content or time |
| IndexerLemmas.ArticleUserKeyGroups | x/blog/bucket_test.go:307-323 | when article identifiers have one width, two comments share a compound key exactly when they share article and author |
| IndexerLemmas.ArticleUserKeyExtendsArticleKey | x/blog/bucket_test.go:307 | the compound key is the by-article key followed by the by-author key; for no object or the wrong type, all three comment indexers return the same result |
| BucketCases.BlogUserIdCases | x/blog/bucket_test.go:14-59 | the three cases of the blog-by-owner table, for any `now` |
| BucketCases.ArticleBlogIdCases | x/blog/bucket_test.go:60-110 | the three cases of the article-by-blog table, for any `now` and `future` |
| BucketCases.BlogTimedCases | x/blog/bucket_test.go:112-188 | the five cases of the timed table, including the 16-byte key `{0,…,0,1,0,…,0,1}` and the refusal of `Unix(-1)` |
| BucketCases.CommentArticleIdCases | x/blog/bucket_test.go:190-236 | the three cases of the comment-by-article table, for any time and author |
| BucketCases.CommentUserIdCases | x/blog/bucket_test.go:238-283 | the three cases of the comment-by-author table, for any time and author |
| BucketCases.ArticleUserCases | x/blog/bucket_test.go:285-346 | both comments of the compound table map to `{0,0,0,0,0,0,0,1} ++ owner`; no object and a Blog give no key and ErrState |
| BucketCases.LikeArticleIdCases | x/blog/bucket_test.go:348-392 | the three cases of the like-by-article table, for any time and author |

## Left out

- The weave object-mapping layer (`orm.Object`, `orm.NewSimpleObj`, bucket and index registration, index maintenance and queries). It is a foreign library and appears here only as the `Handle` datatype.
- A Go typed nil pointer as the value (for example `(*Article)(nil)`). The type assertion succeeds and the Go code would then dereference nil. The tables never build such an object.
- Go returns `(nil, nil)` both for no object and for a record whose indexed field is nil. The model keeps these apart, as `NoKey` and `Key([])`.
- The wall clock (`time.Now()`) and duration arithmetic (`now.Add(time.Hour)`). Times are whole seconds, passed in as parameters.
- Address derivation (`weavetest.NewCondition().Address()`). An address is an opaque byte string.
- The `errors` package and its wrapping and `Is` matching. Every failure is the single `StateError` result.
- Fields that are never indexed (metadata and schema, title, content, comment and like counts). Also left out is the protobuf serialisation of the records.
- The Go test runner (`t.Run` loops, `assert.Equal`). Each case table is a lemma instead.
