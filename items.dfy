/**
 * The item routes: list, get by id, create, update, and delete, whose
 * deletion is followed by a second, separate write that releases the tag
 * bound to the deleted item.
 */
module ItemRoutes {
  import opened Tables
  import opened Records
  import opened Queries
  import opened Database

  /** The body of a create or update request. */
  datatype ItemBody = ItemBody(name: string, description: Option<string>, amount: Option<int>)

  /** The filter `{item: id}` of the cascade. */
  function ReferencesItem(item: Id): (p: Tag -> bool) {
    (t: Tag) => t.item == Some(item)
  }

  /** The cascade's change to a tag: type `unknown`, item reference unset. */
  function Released(t: Tag): (u: Tag)
    ensures u.uid == t.uid && u.kind == Unknown && u.item.None? && Consistent(u)
  {
    t.(kind := Unknown, item := None)
  }

  /** The cascade write: a single-document update (no multi option) of the
      first tag in natural order that references `item`. */
  function ReleaseTag(tags: Table<Tag>, item: Id): (r: Table<Tag>)
    requires tags.Valid()
    ensures r.Valid() && r.order == tags.order && r.rows.Keys == tags.rows.Keys
    // every tag is either untouched or a tag of `item` that was released
    ensures forall id :: id in tags.rows ==>
      r.rows[id] == tags.rows[id] || (tags.rows[id].item == Some(item) && r.rows[id] == Released(tags.rows[id]))
    // at most one tag is rewritten
    ensures forall a, b :: a in tags.rows && b in tags.rows && r.rows[a] != tags.rows[a] && r.rows[b] != tags.rows[b] ==> a == b
    // the one rewritten is the first referencing tag; with none, nothing changes
    ensures match tags.FirstWhere(ReferencesItem(item))
      case None => r == tags
      case Some(id) => r.rows[id] == Released(tags.rows[id])
  {
    match tags.FirstWhere(ReferencesItem(item))
    case None => tags
    case Some(id) => tags.Put(id, Released(tags.rows[id]))
  }

  /** POST /items: a new item with the body's name and description; the
      amount stays unset whatever the body says. */
  function CreateItemStep(db: Db, body: ItemBody, save: SaveReply): (r: Reply<Item>)
    requires db.Valid()
    ensures r.db.Valid()
    ensures r.status == Created <==> save == Saved
    ensures r.status == Created ==>
      var item := Item(body.name, body.description, None);
      && db.nextId !in db.items.rows
      && r.doc == Some(Entry(db.nextId, item))
      && r.db == db.(items := db.items.Insert(db.nextId, item), nextId := db.nextId + 1)
    ensures r.status == BadRequest <==> save == SaveFailed
    ensures r.status == InternalError <==> save == SavedNothing
    ensures r.status != Created ==> r.db == db && r.doc == None
  {
    match save
    case SaveFailed => Reply(BadRequest, db, None)
    case SavedNothing => Reply(InternalError, db, None)
    case Saved =>
      var item := Item(body.name, body.description, None);
      Reply(Created, db.(items := db.items.Insert(db.nextId, item), nextId := db.nextId + 1), Some(Entry(db.nextId, item)))
  }

  /** PUT /items/{id}: name, description and amount are all replaced and the
      post-update record is answered. `fails` is the store rejecting the
      update, its validators included. */
  function UpdateItemStep(db: Db, id: Id, body: ItemBody, fails: bool): (r: Reply<Item>)
    requires db.Valid()
    ensures r.db.Valid()
    ensures r.status == Ok <==> !fails && id in db.items.rows
    ensures r.status == Ok ==>
      var item := Item(body.name, body.description, body.amount);
      && r.doc == Some(Entry(id, item))
      && r.db == db.(items := db.items.Put(id, item))
    ensures r.status == NotFound <==> !fails && id !in db.items.rows
    ensures r.status == BadRequest <==> fails
    ensures r.status != Ok ==> r.db == db && r.doc == None
  {
    if fails then Reply(BadRequest, db, None)
    else if id !in db.items.rows then Reply(NotFound, db, None)
    else
      var item := Item(body.name, body.description, body.amount);
      Reply(Ok, db.(items := db.items.Put(id, item)), Some(Entry(id, item)))
  }

  /** DELETE /items/{id}: the item is removed and 204 answered; then, as a
      separate write whose failure is only logged, its tag is released. */
  function DeleteItemStep(db: Db, id: Id, removeFails: bool, cascadeFails: bool): (r: Reply<Item>)
    requires db.Valid()
    ensures r.db.Valid() && r.doc == None
    ensures r.status == NoContent <==> !removeFails && id in db.items.rows
    ensures r.status == NoContent ==>
      && r.db.items == db.items.Remove(id)
      && r.db.tags == (if cascadeFails then db.tags else ReleaseTag(db.tags, id))
      && r.db.devices == db.devices && r.db.nextId == db.nextId
    ensures r.status == NotFound <==> !removeFails && id !in db.items.rows
    ensures r.status == BadRequest <==> removeFails
    ensures r.status != NoContent ==> r.db == db
  {
    if removeFails then Reply(BadRequest, db, None)
    else if id !in db.items.rows then Reply(NotFound, db, None)
    else
      var tags := if cascadeFails then db.tags else ReleaseTag(db.tags, id);
      Reply(NoContent, db.(items := db.items.Remove(id), tags := tags), None)
  }

  // ----- Properties of the cascade -----

  /** When at most one tag references the item, no tag references it after the cascade. */
  lemma ReleaseClearsSoleReference(tags: Table<Tag>, item: Id)
    requires tags.Valid()
    requires forall a, b :: a in tags.rows && b in tags.rows && tags.rows[a].item == Some(item) && tags.rows[b].item == Some(item) ==> a == b
    ensures forall id :: id in tags.rows ==> ReleaseTag(tags, item).rows[id].item != Some(item)
  {
    var r := ReleaseTag(tags, item);
    match tags.FirstWhere(ReferencesItem(item))
    case None =>
    case Some(hit) =>
      assert tags.rows[hit].item == Some(item);
  }

  /** Without the multi option, a second tag that references the item keeps
      its stale reference. */
  lemma ReleaseLeavesSecondReference(tags: Table<Tag>, item: Id, a: Id, b: Id)
    requires tags.Valid() && a in tags.rows && b in tags.rows && a != b
    requires tags.rows[a].item == Some(item) && tags.rows[b].item == Some(item)
    ensures exists id :: id in tags.rows && ReleaseTag(tags, item).rows[id].item == Some(item)
  {
    var r := ReleaseTag(tags, item);
    if r.rows[a] == tags.rows[a] {
      assert r.rows[a].item == Some(item);
    } else {
      assert r.rows[b] == tags.rows[b];
      assert r.rows[b].item == Some(item);
    }
  }

  /** The cascade keeps the tag invariant and never touches a uid. */
  lemma ReleaseKeepsInvariants(tags: Table<Tag>, item: Id)
    requires tags.Valid()
    ensures AllConsistent(tags) ==> AllConsistent(ReleaseTag(tags, item))
    ensures UidsUnique(tags) ==> UidsUnique(ReleaseTag(tags, item))
  {
    var r := ReleaseTag(tags, item);
    assert forall id :: id in r.rows ==> id in tags.rows && r.rows[id].uid == tags.rows[id].uid;
  }

  /** The answer to a delete does not depend on whether the cascade succeeds. */
  lemma DeleteItemStatusIgnoresCascade(db: Db, id: Id, removeFails: bool)
    requires db.Valid()
    ensures DeleteItemStep(db, id, removeFails, true).status == DeleteItemStep(db, id, removeFails, false).status
    ensures DeleteItemStep(db, id, removeFails, true).db.items == DeleteItemStep(db, id, removeFails, false).db.items
  {
  }

  /** Deleting an item keeps both tag invariants, whether or not the cascade succeeds. */
  lemma DeleteItemKeepsInvariants(db: Db, id: Id, removeFails: bool, cascadeFails: bool)
    requires db.Valid() && AllConsistent(db.tags) && UidsUnique(db.tags)
    ensures AllConsistent(DeleteItemStep(db, id, removeFails, cascadeFails).db.tags)
    ensures UidsUnique(DeleteItemStep(db, id, removeFails, cascadeFails).db.tags)
  {
    ReleaseKeepsInvariants(db.tags, id);
  }

  // ----- The handlers -----

  /** GET /items: the stored items in natural order, after `skip`. */
  method ListItems(store: Store, skip: Option<int>, findFails: bool) returns (status: Status, docs: seq<Entry<Item>>)
    requires store.Valid()
    ensures status == Ok <==> !findFails && ParseSkip(skip).Some?
    ensures status != Ok ==> status == BadRequest && docs == []
    ensures status == Ok ==> docs == store.items.Listing(ParseSkip(skip).value)
  {
    var cursor := ParseSkip(skip);
    if cursor.None? || findFails {
      return BadRequest, [];
    }
    status, docs := Ok, store.items.Listing(cursor.value);
  }

  /** GET /items/{id}. */
  method GetItem(store: Store, id: Id, findFails: bool) returns (status: Status, doc: Option<Entry<Item>>)
    requires store.Valid()
    ensures status == Ok <==> !findFails && id in store.items.rows
    ensures status == Ok ==> doc == Some(Entry(id, store.items.rows[id]))
    ensures status == NotFound <==> !findFails && id !in store.items.rows
    ensures status != Ok ==> doc == None && (status == BadRequest <==> findFails)
  {
    if findFails {
      return BadRequest, None;
    }
    if id !in store.items.rows {
      return NotFound, None;
    }
    status, doc := Ok, Some(Entry(id, store.items.rows[id]));
  }

  /** POST /items. */
  method CreateItem(store: Store, body: ItemBody, save: SaveReply) returns (status: Status, doc: Option<Entry<Item>>)
    requires store.Valid()
    modifies store
    ensures store.Valid()
    ensures var r := CreateItemStep(old(store.Snapshot()), body, save);
      store.Snapshot() == r.db && status == r.status && doc == r.doc
  {
    var item := Item(body.name, body.description, None);
    if save == SaveFailed {
      return BadRequest, None;
    } else if save == SavedNothing {
      return InternalError, None;
    }
    var id := store.FreshId();
    store.items := store.items.Insert(id, item);
    status, doc := Created, Some(Entry(id, item));
  }

  /** PUT /items/{id}. */
  method UpdateItem(store: Store, id: Id, body: ItemBody, fails: bool) returns (status: Status, doc: Option<Entry<Item>>)
    requires store.Valid()
    modifies store
    ensures store.Valid()
    ensures var r := UpdateItemStep(old(store.Snapshot()), id, body, fails);
      store.Snapshot() == r.db && status == r.status && doc == r.doc
  {
    if fails {
      return BadRequest, None;
    }
    if id !in store.items.rows {
      return NotFound, None;
    }
    var item := Item(body.name, body.description, body.amount);
    store.items := store.items.Put(id, item);
    status, doc := Ok, Some(Entry(id, item));
  }

  /** The cascade write `Tag.update({item: item}, {type: 'unknown', $unset: {item: true}})`. */
  method ReleaseTagOf(store: Store, item: Id)
    requires store.Valid()
    modifies store`tags
    ensures store.Valid()
    ensures store.tags == ReleaseTag(old(store.tags), item)
  {
    var tags := store.tags;
    var hit := tags.FirstWhere(ReferencesItem(item));
    if hit.Some? {
      store.tags := tags.Put(hit.value, Released(tags.rows[hit.value]));
    }
  }

  /** DELETE /items/{id}: remove the item, then release its tag. */
  method DeleteItem(store: Store, id: Id, removeFails: bool, cascadeFails: bool) returns (status: Status)
    requires store.Valid()
    modifies store
    ensures store.Valid()
    ensures var r := DeleteItemStep(old(store.Snapshot()), id, removeFails, cascadeFails);
      store.Snapshot() == r.db && status == r.status
  {
    if removeFails {
      return BadRequest;
    }
    if id !in store.items.rows {
      return NotFound;
    }
    ghost var db := store.Snapshot();
    store.items := store.items.Remove(id);
    assert store.Snapshot() == db.(items := db.items.Remove(id));
    if !cascadeFails {
      ReleaseTagOf(store, id);
    }
    assert store.Snapshot() == DeleteItemStep(db, id, removeFails, cascadeFails).db;
    status := NoContent;
  }
}
