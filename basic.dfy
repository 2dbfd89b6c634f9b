/**
 * The self-report path of a basic device: an action dispatch that knows one
 * action, `info`, which overwrites the device document's serial number and
 * version and saves it. A failed save is only logged: nothing reaches the
 * caller.
 */
module DeviceActions {
  import opened Tables
  import opened Records
  import opened Database
  import DeviceRoutes

  /** The data a device reports about itself. */
  datatype Report = Report(serialNumber: string, version: string)

  /** A device with its reported serial number and version; every other field kept. */
  function Reported(d: Device, data: Report): (r: Device)
    ensures r.serialNumber == data.serialNumber && r.version == data.version
    ensures r.deviceId == d.deviceId && r.name == d.name && r.description == d.description
    ensures r.ipAddress == d.ipAddress && r.allowed == d.allowed
  {
    d.(serialNumber := data.serialNumber, version := data.version)
  }

  /** What the save of a reported document writes: the two modified fields of
      the stored device, when the save succeeds and the device is still stored. */
  function SaveReport(devices: Table<Device>, id: Id, data: Report, saveFails: bool): (r: Table<Device>)
    requires devices.Valid()
    ensures r.Valid() && r.rows.Keys == devices.rows.Keys
    ensures forall x :: x in devices.rows && x != id ==> r.rows[x] == devices.rows[x]
    ensures id in devices.rows ==>
      r.rows[id] == if saveFails then devices.rows[id] else Reported(devices.rows[id], data)
  {
    if !saveFails && id in devices.rows then devices.Put(id, Reported(devices.rows[id], data))
    else devices
  }

  /** A device document loaded in memory, whose fields the action assigns. */
  class DeviceDoc {
    const id: Id
    var deviceId: string
    var name: string
    var description: string
    var serialNumber: string
    var ipAddress: string
    var version: string
    var allowed: bool

    /** The document's fields as a value. */
    function Value(): (d: Device)
      reads this
    {
      Device(deviceId, name, description, serialNumber, ipAddress, version, allowed)
    }

    constructor (id: Id, d: Device)
      ensures this.id == id && Value() == d
    {
      this.id := id;
      deviceId := d.deviceId;
      name := d.name;
      description := d.description;
      serialNumber := d.serialNumber;
      ipAddress := d.ipAddress;
      version := d.version;
      allowed := d.allowed;
    }
  }

  /** `info`: assign the two reported fields on the document, then save it. */
  method Info(store: Store, device: DeviceDoc, data: Report, saveFails: bool)
    requires store.Valid()
    modifies device, store`devices
    ensures store.Valid()
    ensures device.Value() == Reported(old(device.Value()), data)
    ensures store.Snapshot() == old(store.Snapshot()).(devices := SaveReport(old(store.devices), device.id, data, saveFails))
  {
    device.serialNumber := data.serialNumber;
    device.version := data.version;
    if !saveFails && device.id in store.devices.rows {
      store.devices := store.devices.Put(device.id, Reported(store.devices.rows[device.id], data));
    }
  }

  /** `actions`: dispatch on the action type; any type but `info` does nothing. */
  method Actions(store: Store, actionType: string, device: DeviceDoc, data: Report, saveFails: bool)
    requires store.Valid()
    modifies device, store`devices
    ensures store.Valid()
    ensures actionType == "info" ==>
      && device.Value() == Reported(old(device.Value()), data)
      && store.Snapshot() == old(store.Snapshot()).(devices := SaveReport(old(store.devices), device.id, data, saveFails))
    ensures actionType != "info" ==>
      device.Value() == old(device.Value()) && store.Snapshot() == old(store.Snapshot())
  {
    if actionType == "info" {
      Info(store, device, data, saveFails);
    }
  }

  /** A device's self-report and an administrator's gate update touch disjoint
      fields, so their order does not matter. */
  lemma ReportCommutesWithAllowed(d: Device, data: Report, allowed: bool)
    ensures Reported(DeviceRoutes.WithAllowed(d, allowed), data) == DeviceRoutes.WithAllowed(Reported(d, data), allowed)
  {
  }
}
