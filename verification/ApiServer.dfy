/** The handlers that change devices and registers: first the database, then the list in memory. */
module ApiServer {
  import opened Wrappers
  import opened DeviceModels
  import opened DeviceTables
  import opened DeviceDatabase
  import opened DeviceCache

  // The registers of one device, as the database returns them; the order is left open.
  method LoadRegisters(registers: Registers, device: int) returns (configs: seq<RegisterConfig>)
    ensures IsLoadOf(registers, device, configs)
  {
    configs := [];
    var rest := registers.Keys;
    while rest != {}
      invariant rest <= registers.Keys
      invariant forall i, j | 0 <= i < j < |configs| :: configs[i].id != configs[j].id
      invariant forall i | 0 <= i < |configs| :: IsConfigIn(registers, device, configs[i]) && configs[i].id !in rest
      invariant forall id | id in registers && registers[id].deviceId == device :: id in rest || HasConfig(configs, id)
      decreases |rest|
    {
      ghost var some := Member(rest);
      var id :| id in rest;
      if registers[id].deviceId == device {
        ConfigAdded(configs, ConfigOf(id, registers[id]));
        configs := configs + [ConfigOf(id, registers[id])];
      }
      rest := rest - {id};
    }
  }

  lemma ConfigAdded(configs: seq<RegisterConfig>, c: RegisterConfig)
    ensures forall id :: HasConfig(configs, id) || id == c.id ==> HasConfig(configs + [c], id)
  {
    var more := configs + [c];
    assert more[|configs|] == c;
    forall id | HasConfig(configs, id)
      ensures HasConfig(more, id)
    {
      var i :| 0 <= i < |configs| && configs[i].id == id;
      assert more[i].id == id;
    }
  }

  method LoadDevices(db: Database) returns (loaded: DeviceCache.Devices)
    ensures Agrees(db, loaded)
    ensures forall id | id in loaded :: loaded[id].status == NO_STATUS
  {
    hide IsLoadOf;
    loaded := map[];
    var rest := db.devices.Keys;
    while rest != {}
      invariant rest <= db.devices.Keys
      invariant loaded.Keys == db.devices.Keys - rest
      invariant forall id | id in loaded :: AgreesOn(db, loaded, id) && loaded[id].status == NO_STATUS
      decreases |rest|
    {
      ghost var some := Member(rest);
      var id :| id in rest;
      var registers := LoadRegisters(db.registers, id);
      ghost var before := loaded;
      loaded := loaded[id := DeviceInfo(db.devices[id], registers, NO_STATUS)];
      rest := rest - {id};
      forall e | e in loaded
        ensures AgreesOn(db, loaded, e) && loaded[e].status == NO_STATUS
      {
        assert e != id ==> AgreesOn(db, before, e);
      }
    }
  }

  class Sync {
    const db: Store
    const list: DeviceList

    constructor (db: Store, list: DeviceList)
      ensures this.db == db && this.list == list
    {
      this.db := db;
      this.list := list;
    }

    // Database and list went through `op`; `ok` says whether it was carried out.
    twostate predicate Done(op: SyncOp, ok: bool)
      requires Constraints(old(db.State()))
      reads db, db.hmi, list
    {
      ConstraintsGivePositiveIds(old(db.State()));
      Synced(old(db.State()), old(list.devices), op, db.State(), list.devices, ok)
    }

    method AddDevice(row: DeviceRow) returns (ok: bool)
      requires Constraints(db.State())
      modifies db, list
      ensures Done(SyncOp.AddDevice(row), ok)
    {
      ok := db.InsertDevice(row);
      if ok {
        var devices := LoadDevices(db.State());
        list.Reset(devices);
      }
    }

    // The handler answers "not found" when the list does not have the device.
    method UpdateDevice(id: int, row: DeviceRow) returns (ok: bool)
      requires Constraints(db.State())
      modifies db, list
      ensures Done(SyncOp.ChangeDevice(id, row), ok)
    {
      if id !in list.devices {
        return false;
      }
      ok := db.UpdateDevice(id, row);
      if ok {
        var _ := list.Update(id, list.devices[id].(row := row));
      }
    }

    // False also stands for the exception thrown when the list does not have the device.
    method DeleteDevice(id: int) returns (ok: bool)
      requires Constraints(db.State())
      modifies db, list
      ensures Done(SyncOp.RemoveDevice(id), ok)
    {
      db.DeleteDevice(id);
      ok := list.Remove(id);
    }

    method ReloadRegisters(device: int)
      requires device in list.devices
      modifies list
      ensures exists configs :: IsLoadOf(db.registers, device, configs)
                && list.devices == old(list.devices)[device := old(list.devices)[device].(registers := configs)]
    {
      var configs := LoadRegisters(db.registers, device);
      var _ := list.Update(device, list.devices[device].(registers := configs));
    }

    // False also stands for the exception thrown when the list does not have the device. Of the
    // statements of the insertion the first `left` go through.
    method AddRegister(row: RegisterRow, left: nat) returns (ok: bool)
      requires Constraints(db.State())
      modifies db, list
      ensures Done(SyncOp.AddRegister(row, left), ok)
    {
      hide Constraints, IsLoadOf, RegisterInserted;
      ghost var before := db.State();
      var outcome := db.InsertRegister(row, left);
      ok := outcome.Stored? && row.deviceId in list.devices;
      if ok {
        ReloadRegisters(row.deviceId);
        assert IsOwner(before, old(list.devices), SyncOp.AddRegister(row, left), row.deviceId);
      }
    }

    lemma FoundTruly(id: int)
      requires Constraints(db.State())
      ensures Agrees(db.State(), list.devices) ==> (Listed(list.devices, id) <==> id in db.registers)
    {
      if Agrees(db.State(), list.devices) {
        ListedIffStored(db.State(), list.devices, id);
      }
    }

    method UpdateRegister(id: int, row: RegisterRow) returns (ok: bool)
      requires Constraints(db.State()) && WellOwned(list.devices)
      modifies db, list
      ensures Done(SyncOp.ChangeRegister(id, row), ok)
      ensures ok && old(Agrees(db.State(), list.devices)) ==> id in old(db.registers)
    {
      hide Constraints, IsLoadOf, RegisterUpdated, ConfigOf;
      ghost var before := db.State();
      FoundTruly(id);
      var found, existing := list.FindByRegisterId(id);
      if !found {
        return false;
      }
      ghost var d, i :| Holds(list.devices, d, i) && list.devices[d].registers[i] == existing && existing.id == id;
      var outcome := db.UpdateRegister(id, row);
      ok := outcome.Stored?;
      if ok {
        ReloadRegisters(existing.deviceId);
        assert IsOwner(before, old(list.devices), SyncOp.ChangeRegister(id, row), d);
      }
    }

    method DeleteRegister(id: int) returns (ok: bool)
      requires Constraints(db.State()) && WellOwned(list.devices)
      modifies db, list
      ensures Done(SyncOp.RemoveRegister(id), ok)
      ensures old(Agrees(db.State(), list.devices)) ==> (ok <==> id in old(db.registers))
    {
      hide Constraints, IsLoadOf, RegisterDeleted, ConfigOf;
      ghost var before := db.State();
      FoundTruly(id);
      var found, existing := list.FindByRegisterId(id);
      if !found {
        return false;
      }
      ghost var d, i :| Holds(list.devices, d, i) && list.devices[d].registers[i] == existing && existing.id == id;
      db.DeleteRegister(id);
      ReloadRegisters(existing.deviceId);
      assert IsOwner(before, old(list.devices), SyncOp.RemoveRegister(id), d);
      ok := true;
    }
  }
}
