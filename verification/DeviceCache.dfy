/** The list of devices kept in memory, and the operations that change database and list together:
    when the list holds what the database would load. */
module DeviceCache {
  import opened Wrappers
  import opened DeviceModels
  import opened DeviceTables

  datatype PollState = NotPolled | PollOk | PollError

  datatype Status = Status(state: PollState, lastPoll: int, durationMs: int, consecutiveErrors: int, lastError: string)

  const NO_STATUS: Status := Status(NotPolled, 0, 0, 0, "")

  datatype DeviceInfo = DeviceInfo(row: DeviceRow, registers: seq<RegisterConfig>, status: Status)

  type Devices = map<int, DeviceInfo>

  // ---------------------------------------------------------------- loading

  function ConfigOf(id: int, row: RegisterRow): (config: RegisterConfig)
    ensures config.id == id && config.deviceId == row.deviceId && config.tagName == row.tagName
    ensures config.localAddress == row.localAddress && config.unifiedAddress == row.unifiedAddress
    ensures config.regType == Coil <==> row.typeText == CoilText
    ensures config.regType == DiscreteInput <==> row.typeText == DiscreteInputText
    ensures config.regType == HoldingRegister <==> row.typeText == HoldingRegisterText
    ensures config.regType == InputRegister <==> row.typeText == InputRegisterText
    ensures config.readOnly == row.readOnly && config.length == row.length && config.isSigned == row.isSigned
    ensures config.scale == row.scale && config.byteOrder == row.byteOrder
    ensures config.displayName == row.displayName && config.unit == row.unit
    ensures config.minValue == row.minValue && config.maxValue == row.maxValue && config.bitLabels == row.bitLabels
  {
    RegisterConfig(id, row.deviceId, row.tagName, row.localAddress, row.unifiedAddress, ParseType(row.typeText),
                   row.readOnly, row.length, row.isSigned, row.scale, row.byteOrder, row.displayName, row.unit,
                   row.minValue, row.maxValue, row.bitLabels)
  }

  predicate IsConfigIn(registers: Registers, device: int, config: RegisterConfig) {
    && config.id in registers && registers[config.id].deviceId == device
    && config == ConfigOf(config.id, registers[config.id])
  }

  // Some of the device's registers, each once and as stored.
  ghost predicate IsPartOf(registers: Registers, device: int, configs: seq<RegisterConfig>) {
    && (forall i, j | 0 <= i < j < |configs| :: configs[i].id != configs[j].id)
    && (forall i | 0 <= i < |configs| :: IsConfigIn(registers, device, configs[i]))
  }

  /** `configs` is what loading a device's registers returns: all of them, each once. */
  ghost predicate IsLoadOf(registers: Registers, device: int, configs: seq<RegisterConfig>) {
    && IsPartOf(registers, device, configs)
    && (forall id | id in registers && registers[id].deviceId == device :: HasConfig(configs, id))
  }

  ghost predicate HasConfig(configs: seq<RegisterConfig>, id: int) {
    exists i :: 0 <= i < |configs| && configs[i].id == id
  }

  ghost predicate AgreesOn(db: Database, list: Devices, id: int)
    requires id in list && id in db.devices
  {
    list[id].row == db.devices[id] && IsLoadOf(db.registers, id, list[id].registers)
  }

  /** The list holds exactly the devices of the database, each as the database would load it. */
  ghost predicate Agrees(db: Database, list: Devices) {
    && list.Keys == db.devices.Keys
    && forall id | id in list :: AgreesOn(db, list, id)
  }

  /** The weaker relation that always holds: the devices and every listed register are as stored, but
      a device may have registers the list does not know. */
  ghost predicate Reflects(db: Database, list: Devices) {
    && list.Keys == db.devices.Keys
    && forall id | id in list :: list[id].row == db.devices[id] && IsPartOf(db.registers, id, list[id].registers)
  }

  // Every listed register names the device it is listed under.
  ghost predicate WellOwned(list: Devices) {
    forall d, i | Holds(list, d, i) :: list[d].registers[i].deviceId == d
  }

  lemma AgreesIffReflects(db: Database, list: Devices)
    ensures Agrees(db, list) <==> Reflects(db, list) && forall id | id in list :: AgreesOn(db, list, id)
  {
    hide IsPartOf;
    if Agrees(db, list) {
      forall id | id in list
        ensures list[id].row == db.devices[id] && IsPartOf(db.registers, id, list[id].registers)
      {
        assert AgreesOn(db, list, id);
      }
    }
  }

  // ---------------------------------------------------------------- lookups

  predicate Holds(list: Devices, device: int, i: int) {
    device in list && 0 <= i < |list[device].registers|
  }

  /** With unique addresses a lookup by address has one answer, whatever order it searches in. */
  lemma LookupIsUnambiguous(db: Database, list: Devices, d: int, i: int, e: int, j: int)
    requires Constraints(db) && Reflects(db, list)
    requires Holds(list, d, i) && Holds(list, e, j)
    requires list[d].registers[i].unifiedAddress == list[e].registers[j].unifiedAddress >= 0
    ensures d == e && i == j
  {
    var a, b := list[d].registers[i], list[e].registers[j];
    assert IsConfigIn(db.registers, d, a) && IsConfigIn(db.registers, e, b);
  }

  // ---------------------------------------------------------------- the list

  datatype WriteRequest = WriteRequest(
    config: RegisterConfig,
    rawValues: seq<Word>,
    coilValues: seq<bool>,
    retryCount: int)

  type Writes = map<int, seq<WriteRequest>>

  function PendingIn(writes: Writes, id: int): seq<WriteRequest> {
    if id in writes then writes[id] else []
  }

  class DeviceList {
    var devices: Devices
    var writes: Writes

    constructor ()
      ensures devices == map[] && writes == map[]
    {
      devices := map[];
      writes := map[];
    }

    // Loading the devices anew also discards the pending writes.
    method Reset(loaded: Devices)
      modifies this
      ensures devices == loaded && writes == map[]
    {
      devices := loaded;
      writes := map[];
    }

    // The writes waiting for a device.
    function Pending(id: int): seq<WriteRequest>
      reads this
    {
      PendingIn(writes, id)
    }

    method EnqueueWrite(id: int, req: WriteRequest)
      modifies this`writes
      ensures Pending(id) == old(Pending(id)) + [req]
      ensures forall other | other != id :: Pending(other) == old(Pending(other))
    {
      writes := writes[id := Pending(id) + [req]];
    }

    method TakeWrites(id: int) returns (taken: seq<WriteRequest>)
      modifies this`writes
      ensures taken == old(Pending(id)) && Pending(id) == []
      ensures forall other | other != id :: Pending(other) == old(Pending(other))
    {
      taken := Pending(id);
      writes := writes - {id};
    }

    // False stands for the exception the code throws when the id is not in the list.
    method UpdateStatus(id: int, status: Status) returns (found: bool)
      modifies this`devices
      ensures found <==> id in old(devices)
      ensures devices == if found then old(devices)[id := old(devices)[id].(status := status)] else old(devices)
    {
      if id !in devices {
        return false;
      }
      devices := devices[id := devices[id].(status := status)];
      return true;
    }

    method Update(id: int, device: DeviceInfo) returns (found: bool)
      modifies this`devices
      ensures found <==> id in old(devices)
      ensures devices == if found then old(devices)[id := device] else old(devices)
    {
      if id !in devices {
        return false;
      }
      devices := devices[id := device];
      return true;
    }

    method Remove(id: int) returns (found: bool)
      modifies this`devices
      ensures found <==> id in old(devices)
      ensures devices == old(devices) - {id}
    {
      found := id in devices;
      devices := devices - {id};
    }

    method FindByRegisterId(id: int) returns (found: bool, config: RegisterConfig)
      ensures found ==> exists d, i :: Holds(devices, d, i) && devices[d].registers[i] == config && config.id == id
      ensures !found ==> forall d, i | Holds(devices, d, i) :: devices[d].registers[i].id != id
    {
      found, config := Search((c: RegisterConfig) => c.id == id);
    }

    method FindByUnifiedAddress(address: int) returns (found: bool, config: RegisterConfig)
      ensures found ==> exists d, i :: Holds(devices, d, i) &&
                         devices[d].registers[i] == config && config.unifiedAddress == address
      ensures !found ==> forall d, i | Holds(devices, d, i) :: devices[d].registers[i].unifiedAddress != address
    {
      found, config := Search((c: RegisterConfig) => c.unifiedAddress == address);
    }

    // The two nested loops of both lookups; the order of the devices is left open.
    method Search(wanted: RegisterConfig -> bool) returns (found: bool, config: RegisterConfig)
      ensures found ==> exists d, i :: Holds(devices, d, i) && devices[d].registers[i] == config && wanted(config)
      ensures !found ==> forall d, i | Holds(devices, d, i) :: !wanted(devices[d].registers[i])
    {
      config := ConfigOf(-1, RegisterRow(-1, "", "", 0, -1, OtherText, false, 1, "",
                                              1.0, false, 0.0, 0.0, Default, ""));
      var rest := devices.Keys;
      while rest != {}
        invariant rest <= devices.Keys
        invariant forall d, i | Holds(devices, d, i) && d !in rest :: !wanted(devices[d].registers[i])
        decreases |rest|
      {
        ghost var some := Member(rest);
        var d :| d in rest;
        var regs := devices[d].registers;
        var i := 0;
        while i < |regs|
          invariant 0 <= i <= |regs|
          invariant forall k | 0 <= k < i :: !wanted(regs[k])
        {
          if wanted(regs[i]) {
            assert Holds(devices, d, i);
            return true, regs[i];
          }
          i := i + 1;
        }
        rest := rest - {d};
      }
      found := false;
    }

    predicate IsEnabled(id: int)
      reads this
    {
      id !in devices || devices[id].row.enabled
    }
  }

  // ---------------------------------------------------------------- database and list together

  datatype SyncOp =
    | AddDevice(device: DeviceRow)
    | ChangeDevice(id: int, device: DeviceRow)
    | RemoveDevice(id: int)
    | AddRegister(register: RegisterRow, statements: nat)
    | ChangeRegister(id: int, register: RegisterRow)
    | RemoveRegister(id: int)

  // How the database ends up, and whether the list is brought up to date afterwards; a device that is
  // not in the list makes its update throw, which stands for false.
  ghost function DbAfter(db: Database, list: Devices, op: SyncOp): (Database, bool)
    requires PositiveIds(db.registers)
  {
    match op
    case AddDevice(row) => DeviceInserted(db, row)
    case ChangeDevice(id, row) => if id in list then DeviceUpdated(db, id, row) else (db, false)
    case RemoveDevice(id) => (DeviceDeleted(db, id), id in list)
    case AddRegister(row, statements) =>
      var (db', outcome) := RegisterInserted(db, row, statements);
      (db', outcome.Stored? && row.deviceId in list)
    case ChangeRegister(id, row) =>
      if !Listed(list, id) then (db, false)
      else
        var (db', outcome) := RegisterUpdated(db, id, row);
        (db', outcome.Stored?)
    case RemoveRegister(id) => if Listed(list, id) then (RegisterDeleted(db, id), true) else (db, false)
  }

  // The register is found in the list.
  ghost predicate Listed(list: Devices, id: int) {
    exists d, i :: Holds(list, d, i) && list[d].registers[i].id == id
  }

  // The device whose registers are reloaded.
  ghost predicate IsOwner(db: Database, list: Devices, op: SyncOp, device: int) {
    match op
    case AddRegister(row, _) => device == row.deviceId
    case ChangeRegister(id, _) => exists i :: Holds(list, device, i) && list[device].registers[i].id == id
    case RemoveRegister(id) => exists i :: Holds(list, device, i) && list[device].registers[i].id == id
    case _ => false
  }

  // What the list becomes when the database step went through.
  ghost predicate ListAfter(db: Database, list: Devices, op: SyncOp, db': Database, list': Devices) {
    match op
    case AddDevice(_) =>
      list'.Keys == db'.devices.Keys
      && forall id | id in list' :: AgreesOn(db', list', id) && list'[id].status == NO_STATUS
    case ChangeDevice(id, row) => id in list && list' == list[id := list[id].(row := row)]
    case RemoveDevice(id) => list' == list - {id}
    case _ =>
      exists d, configs ::
        IsOwner(db, list, op, d) && d in list && IsLoadOf(db'.registers, d, configs)
        && list' == list[d := list[d].(registers := configs)]
  }

  /** One operation on database and list. */
  ghost predicate Synced(db: Database, list: Devices, op: SyncOp, db': Database, list': Devices, ok: bool)
    requires PositiveIds(db.registers)
  {
    && (db', ok) == DbAfter(db, list, op)
    && (if ok then ListAfter(db, list, op, db', list') else list' == list)
  }

  /** What database and list end up with, whatever the operation: an update of a device needs it in the
      list; a deletion reaches the database in any case; a register is changed or deleted only if the list
      has it, and a new one is reported only if the list has its device. */
  lemma SyncMeans(db: Database, list: Devices, op: SyncOp, db': Database, list': Devices, ok: bool)
    requires Constraints(db) && PositiveIds(db.registers) && Synced(db, list, op, db', list', ok)
    ensures op.AddDevice? && ok ==>
              && db'.deviceSeq in db'.devices && db'.devices[db'.deviceSeq] == op.device
              && list'.Keys == db'.devices.Keys
              && (forall d | d in list' :: list'[d].row == db'.devices[d] && list'[d].status == NO_STATUS)
    ensures op.ChangeDevice? && ok ==> op.id in list && list' == list[op.id := list[op.id].(row := op.device)]
    ensures op.ChangeDevice? && ok && op.id in db.devices ==> op.id in db'.devices && db'.devices[op.id] == op.device
    ensures op.RemoveDevice? ==> op.id !in db'.devices && (ok <==> op.id in list) && list' == list - {op.id}
    ensures op.AddRegister? && ok ==>
              && op.register.deviceId in list
              && db'.registerSeq !in db.registers && db'.registerSeq in db'.registers
              && var row := db'.registers[db'.registerSeq];
                 row == op.register.(unifiedAddress := row.unifiedAddress)
    ensures op.ChangeRegister? && ok ==> Listed(list, op.id)
    ensures op.ChangeRegister? && ok && op.id in db.registers ==>
              && op.id in db'.registers
              && var was, row := db.registers[op.id], db'.registers[op.id];
                 row == op.register.(deviceId := was.deviceId, unifiedAddress := row.unifiedAddress)
    ensures op.RemoveRegister? && ok ==> Listed(list, op.id) && op.id !in db'.registers
    ensures op.RemoveRegister? && !ok ==> !Listed(list, op.id) && db' == db
    ensures !ok ==> list' == list
  {
    hide AddressTaken, IsNextAuto, IsOwner, Listed, IsLoadOf;
    NewIdIsFree(db);
    if op.RemoveDevice? && !ok {
      assert list - {op.id} == list;
    }
  }

  // The operation leaves a row without an address, and the list is not told.
  ghost predicate RunsOut(db: Database, op: SyncOp) {
    op.AddRegister? && LeavesRow(db, op.register, op.statements)
  }

  ghost predicate LeavesRowOn(db: Database, op: SyncOp, device: int) {
    RunsOut(db, op) && device == op.register.deviceId
  }

  // The device is loaded anew.
  ghost predicate Reloads(db: Database, list: Devices, op: SyncOp, ok: bool, device: int) {
    ok && (op.AddDevice? || IsOwner(db, list, op, device))
  }

  // The device has the same registers in both.
  predicate SameOn(a: Registers, b: Registers, d: int) {
    && (forall id | id in a && a[id].deviceId == d :: id in b && b[id] == a[id])
    && (forall id | id in b && b[id].deviceId == d :: id in a && a[id] == b[id])
  }

  predicate SameButOn(a: Registers, b: Registers, d: int) {
    && (forall id | id in a && a[id].deviceId != d :: id in b && b[id] == a[id])
    && (forall id | id in b && b[id].deviceId != d :: id in a && a[id] == b[id])
  }

  lemma SameOnOthers(a: Registers, b: Registers, d: int, e: int)
    requires SameButOn(a, b, d) && e != d
    ensures SameOn(a, b, e)
  {
  }

  lemma SameLoads(a: Registers, b: Registers, device: int, configs: seq<RegisterConfig>)
    requires SameOn(a, b, device)
    ensures IsPartOf(a, device, configs) <==> IsPartOf(b, device, configs)
    ensures IsLoadOf(a, device, configs) <==> IsLoadOf(b, device, configs)
  {
    forall i | 0 <= i < |configs|
      ensures IsConfigIn(a, device, configs[i]) <==> IsConfigIn(b, device, configs[i])
    {
    }
  }

  lemma OwnerIsInDatabase(db: Database, list: Devices, id: int, d: int, i: int)
    requires Reflects(db, list) && Holds(list, d, i) && list[d].registers[i].id == id
    ensures id in db.registers && db.registers[id].deviceId == d
  {
    assert IsConfigIn(db.registers, d, list[d].registers[i]);
  }

  // A register operation changes the registers of one device only.
  lemma RegisterStepIsLocal(db: Database, list: Devices, op: SyncOp, d: int)
    requires Constraints(db) && Reflects(db, list) && PositiveIds(db.registers)
    requires op.AddRegister? || op.ChangeRegister? || op.RemoveRegister?
    requires IsOwner(db, list, op, d)
    ensures DbAfter(db, list, op).0.devices == db.devices
    ensures SameButOn(db.registers, DbAfter(db, list, op).0.registers, d)
  {
    hide AddressTaken, IsPartOf, IsNextAuto, RegisterInserted, RegisterUpdated, Constraints, Reflects;
    match op
    case AddRegister(row, statements) =>
      InsertedIsOneOfThree(db, row, statements);
    case ChangeRegister(id, row) =>
      var i :| Holds(list, d, i) && list[d].registers[i].id == id;
      OwnerIsInDatabase(db, list, id, d, i);
      UpdatedIsLocal(db, id, row);
    case RemoveRegister(id) =>
      var i :| Holds(list, d, i) && list[d].registers[i].id == id;
      OwnerIsInDatabase(db, list, id, d, i);
  }

  lemma UpdateKeepsDevices(db: Database, id: int, row: RegisterRow)
    requires PositiveIds(db.registers)
    ensures RegisterUpdated(db, id, row).0.devices == db.devices
  {
  }

  lemma UpdatedIsLocal(db: Database, id: int, row: RegisterRow)
    requires PositiveIds(db.registers) && id in db.registers
    ensures RegisterUpdated(db, id, row).0.devices == db.devices
    ensures SameButOn(db.registers, RegisterUpdated(db, id, row).0.registers, db.registers[id].deviceId)
  {
    hide AddressTaken, IsNextAuto, PositiveIds;
  }

  /** Under agreement the handlers' answer that there is no such register is truthful. */
  lemma ListedIffStored(db: Database, list: Devices, id: int)
    requires Constraints(db) && Agrees(db, list)
    ensures Listed(list, id) <==> id in db.registers
  {
    AgreesIffReflects(db, list);
    if Listed(list, id) {
      var d, i :| Holds(list, d, i) && list[d].registers[i].id == id;
      OwnerIsInDatabase(db, list, id, d, i);
    }
    if id in db.registers {
      var d := db.registers[id].deviceId;
      assert RegisterOk(id, db.registers[id], db.registerSeq, db.devices.Keys);
      assert AgreesOn(db, list, d);
      assert HasConfig(list[d].registers, id);
      var i :| 0 <= i < |list[d].registers| && list[d].registers[i].id == id;
      assert Holds(list, d, i);
    }
  }

  // A device of the list after an operation: still as stored, and whether all of it is there.
  ghost predicate StepsTo(db: Database, list: Devices, op: SyncOp, db': Database, list': Devices, ok: bool, e: int)
    requires e in list'
  {
    && e in db'.devices && list'[e].row == db'.devices[e] && IsPartOf(db'.registers, e, list'[e].registers)
    && (IsLoadOf(db'.registers, e, list'[e].registers) <==>
          || Reloads(db, list, op, ok, e)
          || (e in list && IsLoadOf(db.registers, e, list[e].registers) && !LeavesRowOn(db, op, e)))
  }

  lemma DeviceSteps(db: Database, list: Devices, op: SyncOp, db': Database, list': Devices, ok: bool, e: int)
    requires Constraints(db) && Reflects(db, list) && PositiveIds(db.registers)
    requires op.AddDevice? || op.ChangeDevice? || op.RemoveDevice?
    requires Synced(db, list, op, db', list', ok) && e in list'
    ensures StepsTo(db, list, op, db', list', ok, e)
  {
    hide Constraints, PositiveIds, IsPartOf, IsLoadOf, CodeTaken;
    match op
    case AddDevice(_) =>
      if ok {
        assert AgreesOn(db', list', e);
        LoadIsPart(db'.registers, e, list'[e].registers);
      }
    case ChangeDevice(id, row) =>
    case RemoveDevice(id) =>
      SameLoads(db.registers, db'.registers, e, list[e].registers);
  }

  lemma RegisterReloads(db: Database, list: Devices, op: SyncOp, db': Database, list': Devices, e: int)
    requires Constraints(db) && Reflects(db, list) && PositiveIds(db.registers)
    requires op.AddRegister? || op.ChangeRegister? || op.RemoveRegister?
    requires Synced(db, list, op, db', list', true) && e in list'
    ensures StepsTo(db, list, op, db', list', true, e)
  {
    hide Constraints, IsPartOf, PositiveIds, SameButOn, SameOn, DbAfter;
    var d, configs :| IsOwner(db, list, op, d) && d in list && IsLoadOf(db'.registers, d, configs)
                      && list' == list[d := list[d].(registers := configs)];
    RegisterStepIsLocal(db, list, op, d);
    OneOwner(db, list, op, d, e);
    if e != d {
      SameOnOthers(db.registers, db'.registers, d, e);
      SameLoads(db.registers, db'.registers, e, list[e].registers);
    }
    if op.AddRegister? {
      AddedElsewhere(db, list, op, db');
    }
  }

  lemma LoadIsPart(registers: Registers, device: int, configs: seq<RegisterConfig>)
    ensures IsLoadOf(registers, device, configs) ==> IsPartOf(registers, device, configs)
  {
  }

  lemma OneOwner(db: Database, list: Devices, op: SyncOp, d: int, e: int)
    requires Reflects(db, list) && IsOwner(db, list, op, d)
    ensures IsOwner(db, list, op, e) <==> e == d
  {
    if (op.ChangeRegister? || op.RemoveRegister?) && IsOwner(db, list, op, e) {
      var i :| Holds(list, d, i) && list[d].registers[i].id == op.id;
      var j :| Holds(list, e, j) && list[e].registers[j].id == op.id;
      OwnerIsInDatabase(db, list, op.id, d, i);
      OwnerIsInDatabase(db, list, op.id, e, j);
    }
  }

  lemma AddedElsewhere(db: Database, list: Devices, op: SyncOp, db': Database)
    requires Constraints(db) && PositiveIds(db.registers) && op.AddRegister? && (db', true) == DbAfter(db, list, op)
    ensures !LeavesRow(db, op.register, op.statements)
  {
    InsertedIsOneOfThree(db, op.register, op.statements);
  }

  lemma RefusedSteps(db: Database, list: Devices, op: SyncOp, db': Database, e: int)
    requires Constraints(db) && Reflects(db, list) && PositiveIds(db.registers)
    requires op.AddRegister? || op.ChangeRegister? || op.RemoveRegister?
    requires Synced(db, list, op, db', list, false) && e in list
    ensures StepsTo(db, list, op, db', list, false, e)
  {
    hide Constraints, IsPartOf, IsLoadOf, RegisterInserted, RegisterUpdated;
    if op.AddRegister? {
      InsertedIsOneOfThree(db, op.register, op.statements);
      var id := db.registerSeq + 1;
      if LeavesRowOn(db, op, e) {
        LeftOut(db.registers, db'.registers, id, e, list[e].registers);
      } else if LeavesRow(db, op.register, op.statements) {
        SameLoads(db.registers, db'.registers, e, list[e].registers);
      }
    } else {
      RefusedChangesNothing(db, list, op);
    }
  }

  lemma RefusedChangesNothing(db: Database, list: Devices, op: SyncOp)
    requires PositiveIds(db.registers) && (op.ChangeRegister? || op.RemoveRegister?) && !DbAfter(db, list, op).1
    ensures DbAfter(db, list, op).0 == db
  {
  }

  // A row that is added keeps what is listed a part, and no longer all.
  lemma LeftOut(a: Registers, b: Registers, id: int, device: int, configs: seq<RegisterConfig>)
    requires IsPartOf(a, device, configs) && id !in a && id in b && b == a[id := b[id]] && b[id].deviceId == device
    ensures IsPartOf(b, device, configs) && !IsLoadOf(b, device, configs)
  {
    forall i | 0 <= i < |configs|
      ensures IsConfigIn(b, device, configs[i]) && configs[i].id != id
    {
      assert IsConfigIn(a, device, configs[i]);
    }
    assert !HasConfig(configs, id);
  }

  /** Every operation keeps the devices and the listed registers as stored. Afterwards a device is
      listed completely exactly if it was loaded anew, or was complete before and no row without an
      address was left behind on it: so adding any device, or a successful register operation on this
      one, repairs what was missing. */
  lemma SyncSteps(db: Database, list: Devices, op: SyncOp, db': Database, list': Devices, ok: bool)
    requires Constraints(db) && Reflects(db, list)
    requires PositiveIds(db.registers) && Synced(db, list, op, db', list', ok)
    ensures Reflects(db', list')
    ensures forall e | e in list' ::
              AgreesOn(db', list', e) <==>
                || Reloads(db, list, op, ok, e)
                || (e in list && AgreesOn(db, list, e) && !LeavesRowOn(db, op, e))
  {
    hide Constraints, IsPartOf, Reloads, LeavesRowOn, IsLoadOf;
    forall e | e in list'
      ensures StepsTo(db, list, op, db', list', ok, e)
    {
      if op.AddDevice? || op.ChangeDevice? || op.RemoveDevice? {
        DeviceSteps(db, list, op, db', list', ok, e);
      } else if ok {
        RegisterReloads(db, list, op, db', list', e);
      } else {
        RefusedSteps(db, list, op, db', e);
      }
    }
    SameDevices(db, list, op, db', list', ok);
  }

  // Whatever became of the database, a listed register names its device.
  lemma SyncKeepsOwned(db: Database, list: Devices, op: SyncOp, db': Database, list': Devices, ok: bool)
    requires PositiveIds(db.registers) && WellOwned(list) && Synced(db, list, op, db', list', ok)
    ensures WellOwned(list')
  {
    hide DbAfter, HasConfig;
    forall e, i | Holds(list', e, i)
      ensures list'[e].registers[i].deviceId == e
    {
      assert e in list && Holds(list, e, i) ==> list[e].registers[i].deviceId == e;
      if ok {
        LoadedOwned(db, list, op, db', list', e, i);
      }
    }
  }

  lemma LoadedOwned(db: Database, list: Devices, op: SyncOp, db': Database, list': Devices, e: int, i: int)
    requires ListAfter(db, list, op, db', list') && WellOwned(list) && Holds(list', e, i)
    ensures list'[e].registers[i].deviceId == e
  {
    match op
    case AddDevice(_) =>
      assert AgreesOn(db', list', e);
      assert IsConfigIn(db'.registers, e, list'[e].registers[i]);
    case ChangeDevice(id, row) =>
      assert Holds(list, e, i);
    case RemoveDevice(id) =>
      assert Holds(list, e, i);
    case _ =>
      var d, configs :| IsOwner(db, list, op, d) && d in list && IsLoadOf(db'.registers, d, configs)
                        && list' == list[d := list[d].(registers := configs)];
      if e == d {
        assert IsConfigIn(db'.registers, d, configs[i]);
      } else {
        assert Holds(list, e, i);
      }
  }

  lemma SameDevices(db: Database, list: Devices, op: SyncOp, db': Database, list': Devices, ok: bool)
    requires Constraints(db) && Reflects(db, list)
    requires PositiveIds(db.registers) && Synced(db, list, op, db', list', ok)
    ensures list'.Keys == db'.devices.Keys
  {
    hide Constraints, IsPartOf, IsLoadOf, RegisterInserted, RegisterUpdated;
    if op.AddRegister? {
      InsertedIsOneOfThree(db, op.register, op.statements);
    } else if op.ChangeRegister? {
      UpdateKeepsDevices(db, op.id, op.register);
    }
  }

  /** The list keeps agreeing with the database through every operation, successful or refused, but
      for one: a register without an address is inserted and then gets none, because 4999 is taken or a
      statement fails. */
  lemma SyncKeepsAgreement(db: Database, list: Devices, op: SyncOp, db': Database, list': Devices, ok: bool)
    requires Constraints(db) && Agrees(db, list)
    requires PositiveIds(db.registers) && Synced(db, list, op, db', list', ok)
    ensures Agrees(db', list') <==> !RunsOut(db, op)
  {
    hide Constraints, IsPartOf, IsLoadOf, AgreesOn;
    AgreesIffReflects(db, list);
    AgreesIffReflects(db', list');
    SyncSteps(db, list, op, db', list', ok);
    if RunsOut(db, op) {
      InsertedIsOneOfThree(db, op.register, op.statements);
      assert op.register.deviceId in list' && LeavesRowOn(db, op, op.register.deviceId);
    }
  }
}
