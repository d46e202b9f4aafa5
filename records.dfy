/** The blog module's records, as far as indexing sees them, and the typed
    extraction every indexer performs on the handle the store passes it. */
module Records {
  import opened Bytes

  datatype Option<+T> = None | Some(value: T)

  /** Go's `int64`. */
  type Int64 = x: int | -0x8000_0000_0000_0000 <= x < 0x8000_0000_0000_0000

  /** `weave.UnixTime`: seconds since the epoch; a negative value predates it. */
  type UnixTime = Int64

  /** A weave address: an opaque byte string, never inspected. */
  type Address = seq<Byte>

  /** The stored records. Identifiers (`id`, `blogId`, `articleId`) are the
      byte strings the records hold, normally `EncodeUint64` of a sequence
      number. Titles, contents, counters and metadata are never indexed and are
      not represented. */
  datatype Entity =
    | Blog(id: seq<Byte>, owner: Address, createdAt: UnixTime)
    | Article(id: seq<Byte>, blogId: seq<Byte>, createdAt: UnixTime, deleteAt: UnixTime)
    | Comment(id: seq<Byte>, articleId: seq<Byte>, owner: Address, createdAt: UnixTime)
    | Like(id: seq<Byte>, articleId: seq<Byte>, owner: Address, createdAt: UnixTime)
    | User

  /** The Go type of a record, which a type assertion checks. */
  datatype Kind = BlogKind | ArticleKind | CommentKind | LikeKind | UserKind

  function KindOf(e: Entity): Kind
  {
    match e
    case Blog(_, _, _) => BlogKind
    case Article(_, _, _, _) => ArticleKind
    case Comment(_, _, _, _) => CommentKind
    case Like(_, _, _, _) => LikeKind
    case User => UserKind
  }

  /** What the store hands an indexer: no object at all (a nil `orm.Object`),
      or an object whose value may itself be nil. */
  datatype Handle = Absent | Present(payload: Option<Entity>)

  /** The handle carries no record: no object, or an object whose value is nil. */
  predicate NoValue(h: Handle)
  {
    h.Absent? || h.payload.None?
  }

  /** The handle carries a record of the given kind. */
  predicate Holds(h: Handle, kind: Kind)
  {
    h.Present? && h.payload.Some? && KindOf(h.payload.value) == kind
  }

  datatype Extracted = NotPresent | WrongKind | Found(entity: Entity)

  /** The typed extraction shared by every indexer: a handle without a record
      (no object, or a nil value) is "not present", which is not an error; a
      record of another type is a type mismatch. */
  function Extract(h: Handle, kind: Kind): (r: Extracted)
    ensures r.NotPresent? <==> NoValue(h)
    ensures r.WrongKind? <==> !NoValue(h) && !Holds(h, kind)
    ensures r.Found? <==> Holds(h, kind)
    ensures r.Found? ==> r.entity == h.payload.value && KindOf(r.entity) == kind
  {
    match h
    case Absent => NotPresent
    case Present(None) => NotPresent
    case Present(Some(e)) => if KindOf(e) == kind then Found(e) else WrongKind
  }
}
