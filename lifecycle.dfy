/**
 * The tag lifecycle across requests: any sequence of state-changing requests
 * keeps the tag invariants as long as each tag update itself respects them,
 * and the bind-then-delete scenario releases the tag.
 */
module Lifecycle {
  import opened Tables
  import opened Records
  import opened TagRoutes
  import opened ItemRoutes
  import opened DeviceRoutes

  /** A state-changing request together with how the store answers it. */
  datatype Request =
    | LookupTag(uid: string, findFails: bool, save: SaveReply)
    | UpdateTagRequest(tagId: Id, tagBody: TagBody, findFails: bool, save: SaveReply)
    | DeleteTagRequest(tagId: Id, fails: bool)
    | CreateItemRequest(itemBody: ItemBody, save: SaveReply)
    | UpdateItemRequest(itemId: Id, itemBody: ItemBody, fails: bool)
    | DeleteItemRequest(itemId: Id, removeFails: bool, cascadeFails: bool)
    | UpdateDeviceRequest(deviceId: Id, allowed: bool, fails: bool)
    | DeleteDeviceRequest(deviceId: Id, fails: bool)

  /** The state a request leaves behind. */
  function Step(db: Db, req: Request): (r: Db)
    requires db.Valid()
    ensures r.Valid() && r.nextId >= db.nextId
    ensures forall id :: id in r.tags.rows && id !in db.tags.rows ==> id >= db.nextId
    ensures forall id :: id in r.items.rows && id !in db.items.rows ==> id >= db.nextId
  {
    match req
    case LookupTag(uid, findFails, save) => LookupUid(db, uid, findFails, save).db
    case UpdateTagRequest(id, body, findFails, save) => UpdateTagStep(db, id, body, findFails, save).db
    case DeleteTagRequest(id, fails) => DeleteTagStep(db, id, fails).db
    case CreateItemRequest(body, save) => CreateItemStep(db, body, save).db
    case UpdateItemRequest(id, body, fails) => UpdateItemStep(db, id, body, fails).db
    case DeleteItemRequest(id, removeFails, cascadeFails) => DeleteItemStep(db, id, removeFails, cascadeFails).db
    case UpdateDeviceRequest(id, allowed, fails) => UpdateDeviceStep(db, id, allowed, fails).db
    case DeleteDeviceRequest(id, fails) => DeleteDeviceStep(db, id, fails).db
  }

  /** The state after handling `reqs` one after the other. A tag or item
      stored by the run has an id at or above the counter it started from, so
      no id handed out before is handed out again. */
  function Run(db: Db, reqs: seq<Request>): (r: Db)
    requires db.Valid()
    ensures r.Valid()
    ensures r.nextId >= db.nextId
    ensures forall id :: id in r.tags.rows && id !in db.tags.rows ==> id >= db.nextId
    ensures forall id :: id in r.items.rows && id !in db.items.rows ==> id >= db.nextId
    decreases |reqs|
  {
    if reqs == [] then db else Run(Step(db, reqs[0]), reqs[1..])
  }

  /** Handling `a` and then `b` is handling their concatenation. */
  lemma {:induction false} RunAppend(db: Db, a: seq<Request>, b: seq<Request>)
    requires db.Valid()
    ensures Run(db, a + b) == Run(Run(db, a), b)
    decreases |a|
  {
    if a == [] {
      assert a + b == b;
    } else {
      var next := Step(db, a[0]);
      assert (a + b)[0] == a[0] && (a + b)[1..] == a[1..] + b;
      assert Run(db, a + b) == Run(next, a[1..] + b);
      RunAppend(next, a[1..], b);
    }
  }

  /** Between any two points of a run, every tag or item stored in between has
      an id at or above the counter at the earlier point: an id the counter has
      passed is never handed out again, even after its document was deleted. */
  lemma RunPrefixFresh(db: Db, reqs: seq<Request>, i: nat, j: nat)
    requires db.Valid() && i <= j <= |reqs|
    ensures var early, late := Run(db, reqs[..i]), Run(db, reqs[..j]);
      && late.nextId >= early.nextId
      && (forall id :: id in late.tags.rows && id !in early.tags.rows ==> id >= early.nextId)
      && (forall id :: id in late.items.rows && id !in early.items.rows ==> id >= early.nextId)
  {
    assert reqs[..j] == reqs[..i] + reqs[i..j];
    RunAppend(db, reqs[..i], reqs[i..j]);
  }

  /** The request keeps the tag invariant itself (only tag updates can break it). */
  predicate Respects(req: Request) {
    req.UpdateTagRequest? ==> RespectsInvariant(req.tagBody)
  }

  /** One request keeps both tag invariants. */
  lemma StepKeepsTagInvariants(db: Db, req: Request)
    requires db.Valid() && AllConsistent(db.tags) && UidsUnique(db.tags) && Respects(req)
    ensures AllConsistent(Step(db, req).tags) && UidsUnique(Step(db, req).tags)
  {
    match req
    case LookupTag(uid, findFails, save) =>
      LookupUidKeepsInvariants(db, uid, findFails, save);
    case UpdateTagRequest(id, body, findFails, save) =>
      UpdateTagKeepsConsistency(db, id, body, findFails, save);
      UpdateTagKeepsUids(db, id, body, findFails, save);
    case DeleteTagRequest(id, fails) =>
      DeleteTagKeepsInvariants(db, id, fails);
    case DeleteItemRequest(id, removeFails, cascadeFails) =>
      DeleteItemKeepsInvariants(db, id, removeFails, cascadeFails);
    case CreateItemRequest(_, _) =>
    case UpdateItemRequest(_, _, _) =>
    case UpdateDeviceRequest(_, _, _) =>
    case DeleteDeviceRequest(_, _) =>
  }

  /** At all times every tag satisfies the invariant and no uid is stored
      twice, provided every tag update sent respects the invariant. */
  lemma {:induction false} RunKeepsTagInvariants(db: Db, reqs: seq<Request>)
    requires db.Valid() && AllConsistent(db.tags) && UidsUnique(db.tags)
    requires forall i :: 0 <= i < |reqs| ==> Respects(reqs[i])
    ensures AllConsistent(Run(db, reqs).tags) && UidsUnique(Run(db, reqs).tags)
    decreases |reqs|
  {
    if reqs != [] {
      StepKeepsTagInvariants(db, reqs[0]);
      var rest := reqs[1..];
      assert forall i :: 0 <= i < |rest| ==> Respects(rest[i]) by {
        forall i | 0 <= i < |rest| ensures Respects(rest[i]) {
          assert rest[i] == reqs[i + 1];
        }
      }
      RunKeepsTagInvariants(Step(db, reqs[0]), rest);
    }
  }

  /** Create an item (201, id I), look up an unseen uid (201, tag T), bind T
      to I (200), delete I (204): T is back to type `unknown` with no item. */
  lemma BindThenDeleteReleases(db: Db, name: string, uid: string)
    requires db.Valid() && !HasUid(db.tags, uid)
    requires forall id :: id in db.tags.rows ==> db.tags.rows[id].item != Some(db.nextId)
    ensures
      var itemId, tagId := db.nextId, db.nextId + 1;
      var c := CreateItemStep(db, ItemBody(name, None, None), Saved);
      var l := LookupUid(c.db, uid, false, Saved);
      var u := UpdateTagStep(l.db, tagId, TagBody("item", Some(itemId)), false, Saved);
      var d := DeleteItemStep(u.db, itemId, false, false);
      && c.status == Created && c.doc.Some? && c.doc.value.id == itemId
      && l.status == Created && l.doc.Some? && l.doc.value.id == tagId
      && u.status == Ok && u.db.tags.rows[tagId] == Tag(uid, ItemBound, Some(itemId))
      && d.status == NoContent
      && tagId in d.db.tags.rows && d.db.tags.rows[tagId] == Tag(uid, Unknown, None)
  {
    var itemId, tagId := db.nextId, db.nextId + 1;
    var c := CreateItemStep(db, ItemBody(name, None, None), Saved);
    assert c.status == Created && c.db.tags == db.tags && c.db.nextId == tagId;
    assert itemId in c.db.items.rows;
    var l := LookupUid(c.db, uid, false, Saved);
    assert l.status == Created && l.db.items == c.db.items;
    var bound := Tag(uid, ItemBound, Some(itemId));
    var u := UpdateTagStep(l.db, tagId, TagBody("item", Some(itemId)), false, Saved);
    assert u.status == Ok && u.db.items == c.db.items;
    assert u.db.tags == l.db.tags.Put(tagId, bound);
    var tags := u.db.tags;
    forall other | other in tags.rows && other != tagId
      ensures !ReferencesItem(itemId)(tags.rows[other])
    {
      assert tags.rows[other] == db.tags.rows[other];
    }
    FirstWhereSole(tags, ReferencesItem(itemId), tagId);
    assert ReleaseTag(tags, itemId).rows[tagId] == Released(bound);
  }
}
