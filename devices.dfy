/**
 * The device routes, all behind the administrator role: list, get by id,
 * the update of the `allowed` gate, and delete. Devices are never created
 * here.
 */
module DeviceRoutes {
  import opened Tables
  import opened Records
  import opened Queries
  import opened Database

  /** The update `{allowed: allowed}`: the gate changes and nothing else does. */
  function WithAllowed(d: Device, allowed: bool): (r: Device)
    ensures r.allowed == allowed
    ensures r.deviceId == d.deviceId && r.name == d.name && r.description == d.description
    ensures r.serialNumber == d.serialNumber && r.ipAddress == d.ipAddress && r.version == d.version
  {
    d.(allowed := allowed)
  }

  /** PUT /devices/{id}. `fails` is the store rejecting the update, its
      validators (the cast of `allowed`) included. */
  function UpdateDeviceStep(db: Db, id: Id, allowed: bool, fails: bool): (r: Reply<Device>)
    requires db.Valid()
    ensures r.db.Valid()
    ensures r.status == Ok <==> !fails && id in db.devices.rows
    ensures r.status == Ok ==>
      var d := WithAllowed(db.devices.rows[id], allowed);
      && r.doc == Some(Entry(id, d))
      && r.db == db.(devices := db.devices.Put(id, d))
    ensures r.status == NotFound <==> !fails && id !in db.devices.rows
    ensures r.status == BadRequest <==> fails
    ensures r.status != Ok ==> r.db == db && r.doc == None
  {
    if fails then Reply(BadRequest, db, None)
    else if id !in db.devices.rows then Reply(NotFound, db, None)
    else
      var d := WithAllowed(db.devices.rows[id], allowed);
      Reply(Ok, db.(devices := db.devices.Put(id, d)), Some(Entry(id, d)))
  }

  /** DELETE /devices/{id}. */
  function DeleteDeviceStep(db: Db, id: Id, fails: bool): (r: Reply<Device>)
    requires db.Valid()
    ensures r.db.Valid() && r.doc == None
    ensures r.status == NoContent <==> !fails && id in db.devices.rows
    ensures r.status == NoContent ==> r.db == db.(devices := db.devices.Remove(id))
    ensures r.status == NotFound <==> !fails && id !in db.devices.rows
    ensures r.status == BadRequest <==> fails
    ensures r.status != NoContent ==> r.db == db
  {
    if fails then Reply(BadRequest, db, None)
    else if id !in db.devices.rows then Reply(NotFound, db, None)
    else Reply(NoContent, db.(devices := db.devices.Remove(id)), None)
  }

  /** An update of the gate touches only that one device's `allowed`: every
      other device and every other field keeps its value. */
  lemma UpdateDeviceTouchesOnlyAllowed(db: Db, id: Id, allowed: bool, fails: bool)
    requires db.Valid()
    ensures var r := UpdateDeviceStep(db, id, allowed, fails);
      && r.db.devices.rows.Keys == db.devices.rows.Keys
      && forall x :: x in db.devices.rows ==>
           r.db.devices.rows[x] == (if x == id && r.status == Ok then db.devices.rows[x].(allowed := allowed) else db.devices.rows[x])
  {
  }

  // ----- The handlers -----

  /** GET /devices. The route passes the query library's `query` rather than
      its `search` to the store, so the search term never filters. */
  method ListDevices(store: Store, skip: Option<int>, search: Option<string>, findFails: bool)
    returns (status: Status, docs: seq<Entry<Device>>)
    requires store.Valid()
    ensures status == Ok <==> !findFails && ParseSkip(skip).Some?
    ensures status != Ok ==> status == BadRequest && docs == []
    ensures status == Ok ==> docs == store.devices.Listing(ParseSkip(skip).value)
  {
    var cursor := ParseSkip(skip);
    if cursor.None? || findFails {
      return BadRequest, [];
    }
    status, docs := Ok, store.devices.Listing(cursor.value);
  }

  /** GET /devices/{id}. */
  method GetDevice(store: Store, id: Id, findFails: bool) returns (status: Status, doc: Option<Entry<Device>>)
    requires store.Valid()
    ensures status == Ok <==> !findFails && id in store.devices.rows
    ensures status == Ok ==> doc == Some(Entry(id, store.devices.rows[id]))
    ensures status == NotFound <==> !findFails && id !in store.devices.rows
    ensures status != Ok ==> doc == None && (status == BadRequest <==> findFails)
  {
    if findFails {
      return BadRequest, None;
    }
    if id !in store.devices.rows {
      return NotFound, None;
    }
    status, doc := Ok, Some(Entry(id, store.devices.rows[id]));
  }

  /** PUT /devices/{id}: `findByIdAndUpdate` with `{allowed}` only. */
  method UpdateDevice(store: Store, id: Id, allowed: bool, fails: bool) returns (status: Status, doc: Option<Entry<Device>>)
    requires store.Valid()
    modifies store`devices
    ensures store.Valid()
    ensures var r := UpdateDeviceStep(old(store.Snapshot()), id, allowed, fails);
      store.Snapshot() == r.db && status == r.status && doc == r.doc
  {
    if fails {
      return BadRequest, None;
    }
    if id !in store.devices.rows {
      return NotFound, None;
    }
    var device := store.devices.rows[id].(allowed := allowed);
    store.devices := store.devices.Put(id, device);
    status, doc := Ok, Some(Entry(id, device));
  }

  /** DELETE /devices/{id}. */
  method DeleteDevice(store: Store, id: Id, fails: bool) returns (status: Status)
    requires store.Valid()
    modifies store`devices
    ensures store.Valid()
    ensures var r := DeleteDeviceStep(old(store.Snapshot()), id, fails);
      store.Snapshot() == r.db && status == r.status
  {
    if fails {
      return BadRequest;
    }
    if id !in store.devices.rows {
      return NotFound;
    }
    store.devices := store.devices.Remove(id);
    status := NoContent;
  }
}
