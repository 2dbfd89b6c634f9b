/**
 * The tag routes: list, get by id, find-or-create by physical identifier,
 * update of the state, delete. Each state-changing route is specified by a
 * step function on the store's snapshot; the lemmas below relate steps.
 */
module TagRoutes {
  import opened Tables
  import opened Records
  import opened Queries
  import opened Database

  /** The `findOne` filter `{uid: uid}`. */
  function UidIs(uid: string): (p: Tag -> bool) {
    (t: Tag) => t.uid == uid
  }

  /** The tag a first lookup of `uid` creates: only its uid is set. */
  function NewTag(uid: string): (t: Tag)
    ensures t.uid == uid && t.kind == Unknown && t.item.None? && Consistent(t)
  {
    Tag(uid, Unknown, None)
  }

  /** The body of an update request: the raw `type` string and the `item` id, if given. */
  datatype TagBody = TagBody(kind: string, item: Option<Id>)

  /** A request that itself keeps the tag invariant: it names type `item`
      exactly when it supplies an item. */
  predicate RespectsInvariant(body: TagBody) {
    body.kind == "item" <==> body.item.Some?
  }

  /** GET /tags/uid/{uid}. A hit answers the stored tag; a miss saves a new tag. */
  function LookupUid(db: Db, uid: string, findFails: bool, save: SaveReply): (r: Reply<Tag>)
    requires db.Valid()
    ensures r.db.Valid()
    ensures r.status == Ok <==> !findFails && HasUid(db.tags, uid)
    ensures r.status == Ok ==>
      && r.db == db && r.doc.Some?
      && r.doc.value.id in db.tags.rows
      && r.doc.value.value == db.tags.rows[r.doc.value.id]
      && r.doc.value.value.uid == uid
    ensures r.status == Created <==> !findFails && !HasUid(db.tags, uid) && save == Saved
    ensures r.status == Created ==>
      && db.nextId !in db.tags.rows
      && r.doc == Some(Entry(db.nextId, NewTag(uid)))
      && r.db == db.(tags := db.tags.Insert(db.nextId, NewTag(uid)), nextId := db.nextId + 1)
    ensures r.status == BadRequest <==> findFails || (!HasUid(db.tags, uid) && save == SaveFailed)
    ensures r.status == InternalError <==> !findFails && !HasUid(db.tags, uid) && save == SavedNothing
    ensures r.status !in {Ok, Created} ==> r.db == db && r.doc == None
  {
    if findFails then Reply(BadRequest, db, None)
    else
      match db.tags.FirstWhere(UidIs(uid))
      case Some(id) => Reply(Ok, db, Some(Entry(id, db.tags.rows[id])))
      case None =>
        match save
        case SaveFailed => Reply(BadRequest, db, None)
        case SavedNothing => Reply(InternalError, db, None)
        case Saved =>
          var id := db.nextId;
          Reply(Created, db.(tags := db.tags.Insert(id, NewTag(uid)), nextId := id + 1), Some(Entry(id, NewTag(uid))))
  }

  /** PUT /tags/{id}. The stored tag takes the request's type and item as they
      are; a type outside the enumeration fails the save. */
  function UpdateTagStep(db: Db, id: Id, body: TagBody, findFails: bool, save: SaveReply): (r: Reply<Tag>)
    requires db.Valid()
    ensures r.db.Valid()
    ensures r.status == Ok <==> !findFails && id in db.tags.rows && ParseType(body.kind).Some? && save == Saved
    ensures r.status == Ok ==>
      var t := Tag(db.tags.rows[id].uid, ParseType(body.kind).value, body.item);
      && r.doc == Some(Entry(id, t))
      && r.db == db.(tags := db.tags.Put(id, t))
    ensures r.status == NotFound <==> !findFails && id !in db.tags.rows
    ensures r.status == BadRequest <==>
      findFails || (id in db.tags.rows && (ParseType(body.kind).None? || save == SaveFailed))
    ensures r.status == InternalError <==>
      !findFails && id in db.tags.rows && ParseType(body.kind).Some? && save == SavedNothing
    ensures r.status != Ok ==> r.db == db && r.doc == None
  {
    if findFails then Reply(BadRequest, db, None)
    else if id !in db.tags.rows then Reply(NotFound, db, None)
    else
      match ParseType(body.kind)
      case None => Reply(BadRequest, db, None)
      case Some(k) =>
        var t := db.tags.rows[id].(kind := k, item := body.item);
        match save
        case SaveFailed => Reply(BadRequest, db, None)
        case SavedNothing => Reply(InternalError, db, None)
        case Saved => Reply(Ok, db.(tags := db.tags.Put(id, t)), Some(Entry(id, t)))
  }

  /** DELETE /tags/{id}. */
  function DeleteTagStep(db: Db, id: Id, fails: bool): (r: Reply<Tag>)
    requires db.Valid()
    ensures r.db.Valid() && r.doc == None
    ensures r.status == NoContent <==> !fails && id in db.tags.rows
    ensures r.status == NoContent ==> r.db == db.(tags := db.tags.Remove(id))
    ensures r.status == NotFound <==> !fails && id !in db.tags.rows
    ensures r.status == BadRequest <==> fails
    ensures r.status != NoContent ==> r.db == db
  {
    if fails then Reply(BadRequest, db, None)
    else if id !in db.tags.rows then Reply(NotFound, db, None)
    else Reply(NoContent, db.(tags := db.tags.Remove(id)), None)
  }

  // ----- Properties relating steps -----

  /** Looking up a uid again finds the tag the first lookup answered or created:
      200, with the same id and document, and nothing stored. */
  lemma LookupUidIdempotent(db: Db, uid: string, save: SaveReply, save': SaveReply)
    requires db.Valid()
    requires LookupUid(db, uid, false, save).status in {Ok, Created}
    ensures
      var r := LookupUid(db, uid, false, save);
      var r' := LookupUid(r.db, uid, false, save');
      r'.status == Ok && r'.db == r.db && r'.doc == r.doc
  {
    var r := LookupUid(db, uid, false, save);
    if r.status == Created {
      FirstWhereInsert(db.tags, UidIs(uid), db.nextId, NewTag(uid));
    }
  }

  /** A lookup never breaks the tag invariant, and never stores a second tag
      for a uid that is already stored. */
  lemma LookupUidKeepsInvariants(db: Db, uid: string, findFails: bool, save: SaveReply)
    requires db.Valid() && AllConsistent(db.tags) && UidsUnique(db.tags)
    ensures AllConsistent(LookupUid(db, uid, findFails, save).db.tags)
    ensures UidsUnique(LookupUid(db, uid, findFails, save).db.tags)
  {
    var r := LookupUid(db, uid, findFails, save);
    if r.status == Created {
      assert forall x :: x in db.tags.rows ==> db.tags.rows[x].uid != uid;
    }
  }

  /** An update whose request keeps the tag invariant leaves every stored tag
      consistent. */
  lemma UpdateTagKeepsConsistency(db: Db, id: Id, body: TagBody, findFails: bool, save: SaveReply)
    requires db.Valid() && AllConsistent(db.tags) && RespectsInvariant(body)
    ensures AllConsistent(UpdateTagStep(db, id, body, findFails, save).db.tags)
  {
    var r := UpdateTagStep(db, id, body, findFails, save);
    if r.status == Ok {
      var k := ParseType(body.kind).value;
      assert k == ItemBound <==> body.kind == "item" by { ParseTypeName(k); }
    }
  }

  /** The route copies the request verbatim: a saved update naming type `item`
      without an item stores an inconsistent tag. */
  lemma UpdateTagCanBreakConsistency(db: Db, id: Id)
    requires db.Valid() && id in db.tags.rows
    ensures
      var r := UpdateTagStep(db, id, TagBody("item", None), false, Saved);
      r.status == Ok && !Consistent(r.db.tags.rows[id])
  {
  }

  /** An update never changes a uid, so uids stay unique. */
  lemma UpdateTagKeepsUids(db: Db, id: Id, body: TagBody, findFails: bool, save: SaveReply)
    requires db.Valid() && UidsUnique(db.tags)
    ensures UidsUnique(UpdateTagStep(db, id, body, findFails, save).db.tags)
  {
    var r := UpdateTagStep(db, id, body, findFails, save);
    if r.status == Ok {
      assert forall x :: x in r.db.tags.rows ==> x in db.tags.rows && r.db.tags.rows[x].uid == db.tags.rows[x].uid;
    }
  }

  /** A deletion keeps both tag invariants, and removes only the tag named. */
  lemma DeleteTagKeepsInvariants(db: Db, id: Id, fails: bool)
    requires db.Valid() && AllConsistent(db.tags) && UidsUnique(db.tags)
    ensures var r := DeleteTagStep(db, id, fails);
      && AllConsistent(r.db.tags) && UidsUnique(r.db.tags)
      && (forall x :: x in db.tags.rows && x != id ==> x in r.db.tags.rows && r.db.tags.rows[x] == db.tags.rows[x])
  {
  }

  // ----- The handlers -----

  /** GET /tags: the stored tags in natural order, after `skip`. */
  method ListTags(store: Store, skip: Option<int>, findFails: bool) returns (status: Status, docs: seq<Entry<Tag>>)
    requires store.Valid()
    ensures status == Ok <==> !findFails && ParseSkip(skip).Some?
    ensures status != Ok ==> status == BadRequest && docs == []
    ensures status == Ok ==> docs == store.tags.Listing(ParseSkip(skip).value)
  {
    var cursor := ParseSkip(skip);
    if cursor.None? || findFails {
      return BadRequest, [];
    }
    status, docs := Ok, store.tags.Listing(cursor.value);
  }

  /** GET /tags/{id}. */
  method GetTag(store: Store, id: Id, findFails: bool) returns (status: Status, doc: Option<Entry<Tag>>)
    requires store.Valid()
    ensures status == Ok <==> !findFails && id in store.tags.rows
    ensures status == Ok ==> doc == Some(Entry(id, store.tags.rows[id]))
    ensures status == NotFound <==> !findFails && id !in store.tags.rows
    ensures status != Ok ==> doc == None && (status == BadRequest <==> findFails)
  {
    if findFails {
      return BadRequest, None;
    }
    if id !in store.tags.rows {
      return NotFound, None;
    }
    status, doc := Ok, Some(Entry(id, store.tags.rows[id]));
  }

  /** GET /tags/uid/{uid}: find the tag by uid, or create it. */
  method FindOrCreateByUid(store: Store, uid: string, findFails: bool, save: SaveReply)
    returns (status: Status, doc: Option<Entry<Tag>>)
    requires store.Valid()
    modifies store
    ensures store.Valid()
    ensures var r := LookupUid(old(store.Snapshot()), uid, findFails, save);
      store.Snapshot() == r.db && status == r.status && doc == r.doc
  {
    if findFails {
      return BadRequest, None;
    }
    var found := store.tags.FirstWhere(UidIs(uid));
    if found.Some? {
      return Ok, Some(Entry(found.value, store.tags.rows[found.value]));
    }
    var newTag := NewTag(uid);
    if save == SaveFailed {
      return BadRequest, None;
    } else if save == SavedNothing {
      return InternalError, None;
    }
    var id := store.FreshId();
    store.tags := store.tags.Insert(id, newTag);
    status, doc := Created, Some(Entry(id, newTag));
  }

  /** PUT /tags/{id}: overwrite the tag's type and item, then save. */
  method UpdateTag(store: Store, id: Id, body: TagBody, findFails: bool, save: SaveReply)
    returns (status: Status, doc: Option<Entry<Tag>>)
    requires store.Valid()
    modifies store
    ensures store.Valid()
    ensures var r := UpdateTagStep(old(store.Snapshot()), id, body, findFails, save);
      store.Snapshot() == r.db && status == r.status && doc == r.doc
  {
    if findFails {
      return BadRequest, None;
    }
    if id !in store.tags.rows {
      return NotFound, None;
    }
    var tag := store.tags.rows[id];
    var kind := ParseType(body.kind);
    if kind.None? {
      return BadRequest, None;
    }
    tag := tag.(kind := kind.value, item := body.item);
    if save == SaveFailed {
      return BadRequest, None;
    } else if save == SavedNothing {
      return InternalError, None;
    }
    store.tags := store.tags.Put(id, tag);
    status, doc := Ok, Some(Entry(id, tag));
  }

  /** DELETE /tags/{id}. */
  method DeleteTag(store: Store, id: Id, fails: bool) returns (status: Status)
    requires store.Valid()
    modifies store
    ensures store.Valid()
    ensures var r := DeleteTagStep(old(store.Snapshot()), id, fails);
      store.Snapshot() == r.db && status == r.status
  {
    if fails {
      return BadRequest;
    }
    if id !in store.tags.rows {
      return NotFound;
    }
    store.tags := store.tags.Remove(id);
    status := NoContent;
  }
}
