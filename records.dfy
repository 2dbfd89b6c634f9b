/**
 * The documents of the three collections (Tag, Item, Device), the outcome
 * codes the handlers answer with, and how the persistence layer answers a
 * write. Together with `Tables` this is the data model.
 */
module Records {
  import opened Tables

  /** The HTTP status a handler answers with: 200, 201, 204, 400, 404 and 500. */
  datatype Status = Ok | Created | NoContent | BadRequest | NotFound | InternalError

  /** How the persistence layer answers a `save`: the document was stored, the
      save reported an error (a validator or the store refused it), or the
      callback got neither an error nor a document. */
  datatype SaveReply = Saved | SaveFailed | SavedNothing

  /** The three states of a tag. `Unknown` is also the state of a freshly
      created tag, whose type was never set. */
  datatype TagType = Unknown | ItemBound | Mode

  /** The spelling of a tag type in a request body and in the stored document. */
  function TypeName(t: TagType): (s: string) {
    match t
    case Unknown => "unknown"
    case ItemBound => "item"
    case Mode => "mode"
  }

  /** The tag schema's enumeration check on a `type` string. */
  function ParseType(s: string): (r: Option<TagType>)
    ensures r.Some? <==> s in {"unknown", "item", "mode"}
    ensures r.Some? ==> TypeName(r.value) == s
  {
    if s == "unknown" then Some(Unknown)
    else if s == "item" then Some(ItemBound)
    else if s == "mode" then Some(Mode)
    else None
  }

  /** Every type is spelled in a way the enumeration check accepts back. */
  lemma ParseTypeName(t: TagType)
    ensures ParseType(TypeName(t)) == Some(t)
  {
    match t
    case Unknown =>
    case ItemBound =>
    case Mode =>
  }

  /** A tag: the physical identifier it was created for, its state, and the
      item it is bound to, if any. */
  datatype Tag = Tag(uid: string, kind: TagType, item: Option<Id>)

  /** The tag invariant: a tag refers to an item exactly when it is in the
      `item` state, so an `unknown` or `mode` tag never holds an item. */
  predicate Consistent(t: Tag) {
    t.kind == ItemBound <==> t.item.Some?
  }

  /** An item: name, optional description, and an amount that starts unset. */
  datatype Item = Item(name: string, description: Option<string>, amount: Option<int>)

  /** A device as administrators and the device itself see it. */
  datatype Device = Device(
    deviceId: string,
    name: string,
    description: string,
    serialNumber: string,
    ipAddress: string,
    version: string,
    allowed: bool)

  /** The whole persistent state: the three collections and the next id the
      store hands out. */
  datatype Db = Db(tags: Table<Tag>, items: Table<Item>, devices: Table<Device>, nextId: Id)
  {
    /** The tables are well formed and `nextId` is fresh for tags and items. */
    ghost predicate Valid() {
      && tags.Valid() && items.Valid() && devices.Valid()
      && (forall id :: id in tags.rows ==> id < nextId)
      && (forall id :: id in items.rows ==> id < nextId)
    }
  }

  /** What a handler answers, and the state it leaves behind. */
  datatype Reply<T> = Reply(status: Status, db: Db, doc: Option<Entry<T>>)

  /** Every stored tag satisfies the tag invariant. */
  ghost predicate AllConsistent(tags: Table<Tag>) {
    forall id :: id in tags.rows ==> Consistent(tags.rows[id])
  }

  /** No two stored tags carry the same physical identifier. */
  ghost predicate UidsUnique(tags: Table<Tag>) {
    forall a, b :: a in tags.rows && b in tags.rows && tags.rows[a].uid == tags.rows[b].uid ==> a == b
  }

  /** Some stored tag carries `uid`. */
  ghost predicate HasUid(tags: Table<Tag>, uid: string) {
    exists id :: id in tags.rows && tags.rows[id].uid == uid
  }
}
