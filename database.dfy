/**
 * The persistence layer the route handlers share: one object holding the
 * Tag, Item and Device collections and the id generator. Handlers receive it
 * as a parameter and update its fields in place.
 */
module Database {
  import opened Tables
  import opened Records

  class Store {
    var tags: Table<Tag>
    var items: Table<Item>
    var devices: Table<Device>
    var nextId: Id

    /** The current state as a value. */
    function Snapshot(): (db: Db)
      reads this
    {
      Db(tags, items, devices, nextId)
    }

    ghost predicate Valid()
      reads this
    {
      Snapshot().Valid()
    }

    /** A store with no tags and no items. Devices register through code that
        is not part of this model, so the device collection is given. */
    constructor (registered: Table<Device>)
      requires registered.Valid()
      ensures Valid()
      ensures Snapshot() == Db(EmptyTable(), EmptyTable(), registered, 0)
    {
      tags := EmptyTable();
      items := EmptyTable();
      devices := registered;
      nextId := 0;
    }

    /** Hands out an id no stored tag or item uses. */
    method FreshId() returns (id: Id)
      requires Valid()
      modifies this`nextId
      ensures Valid()
      ensures id == old(nextId) && nextId == id + 1
      ensures id !in tags.rows && id !in items.rows
    {
      id := nextId;
      nextId := nextId + 1;
    }
  }
}
