/** Device, register and tag tables: their constraints, the operations on single rows, and the
    assignment of unified addresses. */
module DeviceTables {
  import opened Wrappers
  import opened DeviceModels
  import opened HmiStore

  // First address of the range that is never assigned automatically.
  const MANUAL_MIN: int := 5000

  // The texts the type column may hold, and all others.
  datatype TypeText =
    | CoilText
    | DiscreteInputText
    | HoldingRegisterText
    | InputRegisterText
    | WordRegisterText
    | BitRegisterText
    | OtherText

  function ParseType(text: TypeText): RegisterType {
    match text
    case CoilText => Coil
    case DiscreteInputText => DiscreteInput
    case HoldingRegisterText => HoldingRegister
    case InputRegisterText => InputRegister
    case _ => Unknown
  }

  function PrintType(t: RegisterType): TypeText {
    match t
    case Coil => CoilText
    case DiscreteInput => DiscreteInputText
    case HoldingRegister => HoldingRegisterText
    case InputRegister => InputRegisterText
    case Unknown => OtherText
  }

  // The column check still allows two older texts that are no longer understood.
  predicate IsLegacy(text: TypeText) {
    text.WordRegisterText? || text.BitRegisterText?
  }

  datatype AccessText = InheritText | ReadText | ReadWriteText | OtherAccess

  datatype DeviceRow = DeviceRow(
    code: string,
    name: string,
    displayName: string,
    connection: Connection,
    polling: Polling,
    enabled: bool)

  datatype RegisterRow = RegisterRow(
    deviceId: int,
    tagName: string,
    displayName: string,
    localAddress: int,
    unifiedAddress: int,
    typeText: TypeText,
    readOnly: bool,
    length: int,
    unit: string,
    scale: real,
    isSigned: bool,
    minValue: real,
    maxValue: real,
    byteOrder: ByteOrder,
    bitLabels: string)

  datatype TagRow = TagRow(
    name: string,
    registerId: int,
    unit: string,
    minValue: Option<real>,
    maxValue: Option<real>,
    decimals: Option<int>,
    access: AccessText,
    createdAt: string,
    updatedAt: string)

  type Devices = map<int, DeviceRow>
  type Registers = map<int, RegisterRow>
  type Tags = map<string, TagRow>

  datatype Database = Database(
    devices: Devices,
    deviceSeq: nat,
    registers: Registers,
    registerSeq: nat,
    tags: Tags,
    hmi: Hmi)

  // ---------------------------------------------------------------- constraints

  predicate CodesUnique(devices: Devices) {
    forall a, b | a in devices && b in devices && a != b :: devices[a].code != devices[b].code
  }

  predicate DeviceOk(id: int, row: DeviceRow, seqNo: nat) {
    0 < id <= seqNo && !row.connection.protocol.UnknownProtocol?
  }

  predicate DevicesOk(devices: Devices, seqNo: nat) {
    && CodesUnique(devices)
    && forall id | id in devices :: DeviceOk(id, devices[id], seqNo)
  }

  predicate UnifiedUnique(registers: Registers) {
    forall a, b | a in registers && b in registers && a != b && registers[a].unifiedAddress >= 0
      :: registers[a].unifiedAddress != registers[b].unifiedAddress
  }

  predicate RegisterOk(id: int, row: RegisterRow, seqNo: nat, devices: set<int>) {
    0 < id <= seqNo && row.deviceId in devices && !row.typeText.OtherText?
  }

  predicate RegistersOk(registers: Registers, seqNo: nat, devices: set<int>) {
    && UnifiedUnique(registers)
    && forall id | id in registers :: RegisterOk(id, registers[id], seqNo, devices)
  }

  predicate TagOk(row: TagRow, registers: set<int>) {
    row.registerId in registers && !row.access.OtherAccess?
  }

  predicate TagsOk(tags: Tags, registers: set<int>) {
    forall id | id in tags :: TagOk(tags[id], registers)
  }

  /** The declared constraints: unique device codes, unique non-negative unified addresses, column
      checks, ids no larger than the sequences, and no dangling device or register reference. */
  predicate Constraints(db: Database) {
    && DevicesOk(db.devices, db.deviceSeq)
    && RegistersOk(db.registers, db.registerSeq, db.devices.Keys)
    && TagsOk(db.tags, db.registers.Keys)
  }

  // ---------------------------------------------------------------- devices

  predicate CodeTaken(devices: Devices, code: string, except: int) {
    exists id | id in devices :: id != except && devices[id].code == code
  }

  function DeviceInserted(db: Database, row: DeviceRow): (Database, bool) {
    if row.connection.protocol.UnknownProtocol? || CodeTaken(db.devices, row.code, 0) then (db, false)
    else
      var id := db.deviceSeq + 1;
      (db.(devices := db.devices[id := row], deviceSeq := id), true)
  }

  // An update of an id without a row changes nothing and succeeds.
  function DeviceUpdated(db: Database, id: int, row: DeviceRow): (Database, bool) {
    if id !in db.devices then (db, true)
    else if row.connection.protocol.UnknownProtocol? || CodeTaken(db.devices, row.code, id) then (db, false)
    else (db.(devices := db.devices[id := row]), true)
  }

  // Deleting rows takes the rows that refer to them along.
  function TagsOn(tags: Tags, registers: set<int>): (r: Tags)
    ensures forall id :: id in r <==> id in tags && tags[id].registerId in registers
    ensures forall id | id in r :: r[id] == tags[id]
  {
    map id | id in tags && tags[id].registerId in registers :: tags[id]
  }

  function RegistersOf(registers: Registers, devices: set<int>): (r: Registers)
    ensures forall id :: id in r <==> id in registers && registers[id].deviceId in devices
    ensures forall id | id in r :: r[id] == registers[id]
  {
    map id | id in registers && registers[id].deviceId in devices :: registers[id]
  }

  function DeviceDeleted(db: Database, id: int): Database {
    var devices := db.devices - {id};
    var registers := RegistersOf(db.registers, devices.Keys);
    db.(devices := devices, registers := registers, tags := TagsOn(db.tags, registers.Keys))
  }

  // ---------------------------------------------------------------- unified addresses

  predicate AddressTaken(registers: Registers, address: int, except: int) {
    exists id | id in registers :: id != except && registers[id].unifiedAddress == address
  }

  predicate InAutoRange(address: int) {
    0 <= address < MANUAL_MIN
  }

  // COALESCE(MAX(unified_register_id), 0) + 1 over the automatic range.
  ghost predicate IsNextAuto(registers: Registers, n: int) {
    && n >= 1
    && (forall id | id in registers && InAutoRange(registers[id].unifiedAddress) :: registers[id].unifiedAddress < n)
    && (n == 1 || (InAutoRange(n - 1) && AddressTaken(registers, n - 1, 0)))
  }

  predicate PositiveIds(registers: Registers) {
    forall id | id in registers :: id > 0
  }

  lemma NextAutoIsUnique(registers: Registers, m: int, n: int)
    requires IsNextAuto(registers, m) && IsNextAuto(registers, n)
    ensures m == n
  {
  }

  lemma {:induction false} NextAutoExists(registers: Registers)
    requires PositiveIds(registers)
    ensures exists n :: IsNextAuto(registers, n)
    decreases |registers|
  {
    if registers == map[] {
      assert IsNextAuto(registers, 1);
    } else {
      var id := Member(registers.Keys);
      var rest := registers - {id};
      assert rest.Keys == registers.Keys - {id};
      NextAutoExists(rest);
      var n :| IsNextAuto(rest, n);
      NextAutoGrows(registers, id, n);
    }
  }

  lemma NextAutoGrows(registers: Registers, id: int, n: int)
    requires PositiveIds(registers) && id in registers && IsNextAuto(registers - {id}, n)
    ensures exists m :: IsNextAuto(registers, m)
  {
    var rest := registers - {id};
    var a := registers[id].unifiedAddress;
    var m := if InAutoRange(a) && a + 1 > n then a + 1 else n;
    assert forall x | x in registers :: x == id || x in rest;
    if m == n && n != 1 {
      var x :| x in rest && rest[x].unifiedAddress == n - 1;
      assert x in registers && registers[x].unifiedAddress == n - 1;
    }
    assert IsNextAuto(registers, m);
  }

  ghost function NextAuto(registers: Registers): (n: int)
    requires PositiveIds(registers)
    ensures IsNextAuto(registers, n)
  {
    NextAutoExists(registers);
    var n :| IsNextAuto(registers, n);
    n
  }

  // ---------------------------------------------------------------- registers

  datatype RegisterOutcome =
    | Stored(id: int, unifiedAddress: int)
    | Refused     // nothing was stored
    | Exhausted   // no automatic address is left
    | Failed      // a later statement did not go through

  // Registers come in with the id of their device; a missing device violates the foreign key. The row
  // is inserted before its automatic address is queried and set; `statements` of these go through.
  ghost function RegisterInserted(db: Database, row: RegisterRow, statements: nat): (Database, RegisterOutcome)
    requires PositiveIds(db.registers)
  {
    if statements == 0 || row.deviceId !in db.devices || row.typeText.OtherText?
       || (row.unifiedAddress >= 0 && AddressTaken(db.registers, row.unifiedAddress, 0)) then (db, Refused)
    else
      var id := db.registerSeq + 1;
      var added := db.(registers := db.registers[id := row], registerSeq := id);
      if row.unifiedAddress >= 0 then (added, Stored(id, row.unifiedAddress))
      else if statements == 1 then (added, Failed)
      else
        var n := NextAuto(added.registers);
        if n >= MANUAL_MIN then (added, Exhausted)
        else if statements == 2 then (added, Failed)
        else (db.(registers := db.registers[id := row.(unifiedAddress := n)], registerSeq := id), Stored(id, n))
  }

  ghost function RegisterUpdated(db: Database, id: int, row: RegisterRow): (Database, RegisterOutcome)
    requires PositiveIds(db.registers)
  {
    var address := if row.unifiedAddress < 0 then NextAuto(db.registers) else row.unifiedAddress;
    if row.unifiedAddress < 0 && address >= MANUAL_MIN then (db, Exhausted)
    else if id !in db.registers then (db, Stored(id, address))
    else if row.typeText.OtherText? || AddressTaken(db.registers, address, id) then (db, Refused)
    else
      var stored := row.(deviceId := db.registers[id].deviceId, unifiedAddress := address);
      (db.(registers := db.registers[id := stored]), Stored(id, address))
  }

  function RegisterDeleted(db: Database, id: int): Database {
    var registers := db.registers - {id};
    db.(registers := registers, tags := TagsOn(db.tags, registers.Keys))
  }

  // ---------------------------------------------------------------- tags

  function TagInserted(db: Database, id: string, row: TagRow): (Database, bool) {
    if id in db.tags || !TagOk(row, db.registers.Keys) then (db, false)
    else (db.(tags := db.tags[id := row]), true)
  }

  // Keeps the creation time.
  function TagUpdated(db: Database, id: string, row: TagRow): (Database, bool) {
    if id !in db.tags || !TagOk(row, db.registers.Keys) then (db, false)
    else (db.(tags := db.tags[id := row.(createdAt := db.tags[id].createdAt)]), true)
  }

  function TagDeleted(db: Database, id: string): (Database, bool) {
    if id !in db.tags then (db, false) else (db.(tags := db.tags - {id}), true)
  }

  // Devices, registers, tags and HMI are emptied; the id sequences go on.
  function FactoryState(db: Database): Database {
    Database(map[], db.deviceSeq, map[], db.registerSeq, map[], Hmi(None, map[]))
  }

  // ---------------------------------------------------------------- what that means

  // All devices but one are the same.
  ghost predicate OtherDevicesKept(before: Devices, after: Devices, id: int) {
    && (forall d | d in before && d != id :: d in after && after[d] == before[d])
    && (forall d | d in after && d != id :: d in before)
  }

  ghost predicate OtherRegistersKept(before: Registers, after: Registers, id: int) {
    && (forall r | r in before && r != id :: r in after && after[r] == before[r])
    && (forall r | r in after && r != id :: r in before)
  }

  ghost predicate OtherTagsKept(before: Tags, after: Tags, id: string) {
    && (forall t | t in before && t != id :: t in after && after[t] == before[t])
    && (forall t | t in after && t != id :: t in before)
  }

  /** A device goes through exactly if its protocol is known and no other device has its code; nothing
      but its row changes, and a new one is given the next id. */
  lemma DeviceChangesMean(db: Database, id: int, row: DeviceRow)
    requires Constraints(db)
    ensures var (db', ok) := DeviceInserted(db, row);
            && (ok <==>
                  && !row.connection.protocol.UnknownProtocol?
                  && forall d | d in db.devices :: db.devices[d].code != row.code)
            && (!ok ==> db' == db)
            && (ok ==>
                  var added := db.deviceSeq + 1;
                  && added !in db.devices && added in db'.devices && db'.devices[added] == row
                  && OtherDevicesKept(db.devices, db'.devices, added)
                  && db' == db.(devices := db'.devices, deviceSeq := added))
    ensures var (db', ok) := DeviceUpdated(db, id, row);
            && (ok <==> id in db.devices ==>
                  && !row.connection.protocol.UnknownProtocol?
                  && forall d | d in db.devices && d != id :: db.devices[d].code != row.code)
            && (!ok || id !in db.devices ==> db' == db)
            && (ok && id in db.devices ==>
                  && id in db'.devices && db'.devices[id] == row
                  && OtherDevicesKept(db.devices, db'.devices, id)
                  && db' == db.(devices := db'.devices))
  {
    assert forall d | d in db.devices :: DeviceOk(d, db.devices[d], db.deviceSeq);
  }

  /** Deleting a device takes its registers and their tags along, and nothing else. */
  lemma DeviceDeletedMeans(db: Database, id: int)
    requires Constraints(db)
    ensures var db' := DeviceDeleted(db, id);
            && id !in db'.devices && OtherDevicesKept(db.devices, db'.devices, id)
            && (forall r :: r in db'.registers <==> r in db.registers && db.registers[r].deviceId != id)
            && (forall r | r in db'.registers :: db'.registers[r] == db.registers[r])
            && (forall t :: t in db'.tags <==>
                  t in db.tags && db.tags[t].registerId in db.registers
                  && db.registers[db.tags[t].registerId].deviceId != id)
            && (forall t | t in db'.tags :: db'.tags[t] == db.tags[t])
            && db'.deviceSeq == db.deviceSeq && db'.registerSeq == db.registerSeq && db'.hmi == db.hmi
  {
    assert forall r | r in db.registers :: RegisterOk(r, db.registers[r], db.registerSeq, db.devices.Keys);
    assert forall t | t in db.tags :: TagOk(db.tags[t], db.registers.Keys);
  }

  /** Deleting a register takes its tags along, and nothing else. */
  lemma RegisterDeletedMeans(db: Database, id: int)
    requires Constraints(db)
    ensures var db' := RegisterDeleted(db, id);
            && id !in db'.registers && OtherRegistersKept(db.registers, db'.registers, id)
            && (forall t :: t in db'.tags <==> t in db.tags && db.tags[t].registerId != id)
            && (forall t | t in db'.tags :: db'.tags[t] == db.tags[t])
            && db' == db.(registers := db'.registers, tags := db'.tags)
  {
    assert forall t | t in db.tags :: TagOk(db.tags[t], db.registers.Keys);
  }

  /** With an address given, an insert goes through exactly if the device is there, the type is allowed
      and no register has the address; an update exactly if the type is allowed and no other register
      has it. The row is then stored as given, an updated one on the device it was on. */
  lemma GivenAddressMeans(db: Database, id: int, row: RegisterRow, statements: nat)
    requires Constraints(db) && row.unifiedAddress >= 0
    ensures PositiveIds(db.registers)
    ensures var (db', outcome) := RegisterInserted(db, row, statements);
            && (outcome.Stored? <==>
                  && statements > 0 && row.deviceId in db.devices && !row.typeText.OtherText?
                  && forall r | r in db.registers :: db.registers[r].unifiedAddress != row.unifiedAddress)
            && (!outcome.Stored? ==> db' == db)
            && (outcome.Stored? ==>
                  var added := db.registerSeq + 1;
                  && outcome == Stored(added, row.unifiedAddress)
                  && added !in db.registers && added in db'.registers && db'.registers[added] == row
                  && OtherRegistersKept(db.registers, db'.registers, added)
                  && db' == db.(registers := db'.registers, registerSeq := added))
    ensures var (db', outcome) := RegisterUpdated(db, id, row);
            && (outcome.Stored? <==> id in db.registers ==>
                  && !row.typeText.OtherText?
                  && forall r | r in db.registers && r != id :: db.registers[r].unifiedAddress != row.unifiedAddress)
            && (outcome.Stored? ==> outcome == Stored(id, row.unifiedAddress))
            && (!outcome.Stored? || id !in db.registers ==> db' == db)
            && (outcome.Stored? && id in db.registers ==>
                  && id in db'.registers && db'.registers[id] == row.(deviceId := db.registers[id].deviceId)
                  && OtherRegistersKept(db.registers, db'.registers, id)
                  && db' == db.(registers := db'.registers))
  {
    ConstraintsGivePositiveIds(db);
    NewIdIsFree(db);
  }

  /** A tag goes through exactly if its register is there and its access allowed, a new one only under a
      new id; an update keeps the creation time. */
  lemma TagChangesMean(db: Database, id: string, row: TagRow)
    ensures var (db', ok) := TagInserted(db, id, row);
            && (ok <==> id !in db.tags && row.registerId in db.registers && !row.access.OtherAccess?)
            && (!ok ==> db' == db)
            && (ok ==> id in db'.tags && db'.tags[id] == row && OtherTagsKept(db.tags, db'.tags, id)
                       && db' == db.(tags := db'.tags))
    ensures var (db', ok) := TagUpdated(db, id, row);
            && (ok <==> id in db.tags && row.registerId in db.registers && !row.access.OtherAccess?)
            && (!ok ==> db' == db)
            && (ok ==> id in db'.tags && db'.tags[id] == row.(createdAt := db.tags[id].createdAt)
                       && OtherTagsKept(db.tags, db'.tags, id) && db' == db.(tags := db'.tags))
    ensures var (db', ok) := TagDeleted(db, id);
            && (ok <==> id in db.tags)
            && id !in db'.tags && OtherTagsKept(db.tags, db'.tags, id) && db' == db.(tags := db'.tags)
  {
  }

  // ---------------------------------------------------------------- what the operations keep

  lemma ConstraintsGivePositiveIds(db: Database)
    requires Constraints(db)
    ensures PositiveIds(db.registers)
  {
    forall id | id in db.registers
      ensures id > 0
    {
      assert RegisterOk(id, db.registers[id], db.registerSeq, db.devices.Keys);
    }
  }

  lemma DeviceInsertedKeeps(db: Database, row: DeviceRow)
    requires Constraints(db)
    ensures Constraints(DeviceInserted(db, row).0)
  {
    var (db', ok) := DeviceInserted(db, row);
    if ok {
      var id := db.deviceSeq + 1;
      forall a | a in db.devices
        ensures a != id && DeviceOk(a, db'.devices[a], db'.deviceSeq) && db.devices[a].code != row.code
      {
        assert DeviceOk(a, db.devices[a], db.deviceSeq);
      }
      forall r | r in db.registers
        ensures RegisterOk(r, db'.registers[r], db'.registerSeq, db'.devices.Keys)
      {
        assert RegisterOk(r, db.registers[r], db.registerSeq, db.devices.Keys);
      }
    }
  }

  lemma DeviceUpdatedKeeps(db: Database, id: int, row: DeviceRow)
    requires Constraints(db)
    ensures Constraints(DeviceUpdated(db, id, row).0)
  {
    var (db', ok) := DeviceUpdated(db, id, row);
    if ok && id in db.devices {
      forall a | a in db'.devices
        ensures DeviceOk(a, db'.devices[a], db'.deviceSeq)
      {
        assert DeviceOk(a, db.devices[a], db.deviceSeq);
      }
      assert db'.devices.Keys == db.devices.Keys;
    }
  }

  lemma RegistersOfKeeps(registers: Registers, seqNo: nat, devices: set<int>, fewer: set<int>)
    requires RegistersOk(registers, seqNo, devices)
    ensures RegistersOk(RegistersOf(registers, fewer), seqNo, fewer)
  {
    var kept := RegistersOf(registers, fewer);
    forall r | r in kept
      ensures RegisterOk(r, kept[r], seqNo, fewer)
    {
      assert RegisterOk(r, registers[r], seqNo, devices);
    }
  }

  lemma TagsOnKeeps(tags: Tags, registers: set<int>, fewer: set<int>)
    requires TagsOk(tags, registers)
    ensures TagsOk(TagsOn(tags, fewer), fewer)
  {
    var kept := TagsOn(tags, fewer);
    forall t | t in kept
      ensures TagOk(kept[t], fewer)
    {
      assert TagOk(tags[t], registers);
    }
  }

  lemma DeviceDeletedKeeps(db: Database, id: int)
    requires Constraints(db)
    ensures Constraints(DeviceDeleted(db, id))
  {
    var devices := db.devices - {id};
    forall a | a in devices
      ensures DeviceOk(a, devices[a], db.deviceSeq)
    {
      assert DeviceOk(a, db.devices[a], db.deviceSeq);
    }
    RegistersOfKeeps(db.registers, db.registerSeq, db.devices.Keys, devices.Keys);
    TagsOnKeeps(db.tags, db.registers.Keys, RegistersOf(db.registers, devices.Keys).Keys);
  }

  // One register row added or replaced by a row that fits.
  lemma RegisterStoredKeeps(db: Database, id: int, row: RegisterRow, seqNo: nat)
    requires Constraints(db) && db.registerSeq <= seqNo
    requires RegisterOk(id, row, seqNo, db.devices.Keys)
    requires row.unifiedAddress >= 0 ==> !AddressTaken(db.registers, row.unifiedAddress, id)
    ensures Constraints(db.(registers := db.registers[id := row], registerSeq := seqNo))
  {
    var registers := db.registers[id := row];
    forall r | r in registers
      ensures RegisterOk(r, registers[r], seqNo, db.devices.Keys)
    {
      assert r != id ==> RegisterOk(r, db.registers[r], db.registerSeq, db.devices.Keys);
    }
    forall a, b | a in registers && b in registers && a != b && registers[a].unifiedAddress >= 0
      ensures registers[a].unifiedAddress != registers[b].unifiedAddress
    {
    }
    forall t | t in db.tags
      ensures TagOk(db.tags[t], registers.Keys)
    {
      assert TagOk(db.tags[t], db.registers.Keys);
    }
  }

  lemma NextAutoIsFree(registers: Registers)
    requires PositiveIds(registers) && NextAuto(registers) < MANUAL_MIN
    ensures forall except :: !AddressTaken(registers, NextAuto(registers), except)
  {
    var n := NextAuto(registers);
    assert InAutoRange(n);
    forall id | id in registers
      ensures registers[id].unifiedAddress != n
    {
      assert InAutoRange(registers[id].unifiedAddress) ==> registers[id].unifiedAddress < n;
    }
  }

  lemma RegisterInsertedKeeps(db: Database, row: RegisterRow, statements: nat)
    requires Constraints(db)
    ensures PositiveIds(db.registers) && Constraints(RegisterInserted(db, row, statements).0)
  {
    ConstraintsGivePositiveIds(db);
    var (db', outcome) := RegisterInserted(db, row, statements);
    var id := db.registerSeq + 1;
    if outcome != Refused {
      NewIdIsFree(db);
      RegisterStoredKeeps(db, id, row, id);
      if row.unifiedAddress < 0 && outcome.Stored? {
        AddingUnassigned(db.registers, id, row);
        NextAutoIsFree(db.registers);
        RegisterStoredKeeps(db, id, row.(unifiedAddress := outcome.unifiedAddress), id);
      }
    }
  }

  lemma NewIdIsFree(db: Database)
    requires Constraints(db)
    ensures db.registerSeq + 1 !in db.registers && 0 !in db.registers
    ensures forall a :: AddressTaken(db.registers, a, db.registerSeq + 1) <==> AddressTaken(db.registers, a, 0)
  {
    assert forall id | id in db.registers :: RegisterOk(id, db.registers[id], db.registerSeq, db.devices.Keys);
  }

  lemma AddingUnassigned(registers: Registers, id: int, row: RegisterRow)
    requires PositiveIds(registers) && id > 0 && id !in registers && row.unifiedAddress < 0
    ensures PositiveIds(registers[id := row]) && NextAuto(registers[id := row]) == NextAuto(registers)
  {
    var more := registers[id := row];
    var n := NextAuto(registers);
    if n != 1 {
      var x :| x in registers && registers[x].unifiedAddress == n - 1;
      assert x in more && more[x].unifiedAddress == n - 1;
    }
    assert IsNextAuto(more, n);
    NextAutoIsUnique(more, n, NextAuto(more));
  }

  lemma RegisterUpdatedKeeps(db: Database, id: int, row: RegisterRow)
    requires Constraints(db)
    ensures PositiveIds(db.registers) && Constraints(RegisterUpdated(db, id, row).0)
  {
    ConstraintsGivePositiveIds(db);
    var (db', outcome) := RegisterUpdated(db, id, row);
    if outcome.Stored? && id in db.registers {
      assert RegisterOk(id, db.registers[id], db.registerSeq, db.devices.Keys);
      var stored := row.(deviceId := db.registers[id].deviceId, unifiedAddress := outcome.unifiedAddress);
      RegisterStoredKeeps(db, id, stored, db.registerSeq);
    }
  }

  lemma RegisterDeletedKeeps(db: Database, id: int)
    requires Constraints(db)
    ensures Constraints(RegisterDeleted(db, id))
  {
    var registers := db.registers - {id};
    forall r | r in registers
      ensures RegisterOk(r, registers[r], db.registerSeq, db.devices.Keys)
    {
      assert RegisterOk(r, db.registers[r], db.registerSeq, db.devices.Keys);
    }
    TagsOnKeeps(db.tags, db.registers.Keys, registers.Keys);
  }

  lemma TagChangesKeep(db: Database, id: string, row: TagRow)
    requires Constraints(db)
    ensures Constraints(TagInserted(db, id, row).0)
    ensures Constraints(TagUpdated(db, id, row).0)
    ensures Constraints(TagDeleted(db, id).0)
  {
    assert forall t | t in db.tags :: TagOk(db.tags[t], db.registers.Keys);
  }

  /** Automatic assignment: the new address is in 1..4999 and above every address already in the
      automatic range. It fails exactly when 4999 is taken or a statement does not go through, and then
      a row without an address stays behind. */
  lemma AutoAssignment(db: Database, row: RegisterRow, statements: nat)
    requires Constraints(db) && statements > 0
    requires row.deviceId in db.devices && !row.typeText.OtherText? && row.unifiedAddress < 0
    ensures PositiveIds(db.registers)
    ensures var (db', outcome) := RegisterInserted(db, row, statements);
            var id := db.registerSeq + 1;
            && id !in db.registers && id in db'.registers
            && (outcome == Exhausted <==> statements >= 2 && AddressTaken(db.registers, 4999, 0))
            && (outcome.Stored? <==> statements >= 3 && !AddressTaken(db.registers, 4999, 0))
            && (!outcome.Stored? ==> db' == db.(registers := db.registers[id := row], registerSeq := id))
            && (outcome.Stored? ==>
                  && outcome == Stored(id, db'.registers[id].unifiedAddress)
                  && 1 <= db'.registers[id].unifiedAddress <= 4999
                  && db'.registers == db.registers[id := row.(unifiedAddress := db'.registers[id].unifiedAddress)]
                  && forall r | r in db.registers && 0 <= db.registers[r].unifiedAddress < 5000
                       :: db.registers[r].unifiedAddress < db'.registers[id].unifiedAddress)
  {
    ConstraintsGivePositiveIds(db);
    NewIdIsFree(db);
    AddingUnassigned(db.registers, db.registerSeq + 1, row);
    NextAutoReachesTheEnd(db.registers);
  }

  /** Asking for an automatic address again, on an update: it fails exactly when 4999 is taken, even by
      the same register, and then nothing changes. Otherwise the new address is in 1..4999 and above
      every address of the automatic range, the register's own included. */
  lemma AutoReassignment(db: Database, id: int, row: RegisterRow)
    requires Constraints(db) && id in db.registers
    requires !row.typeText.OtherText? && row.unifiedAddress < 0
    ensures PositiveIds(db.registers)
    ensures var (db', outcome) := RegisterUpdated(db, id, row);
            && id in db'.registers
            && (outcome == Exhausted <==> AddressTaken(db.registers, 4999, 0))
            && (outcome == Exhausted ==> db' == db)
            && (outcome != Exhausted ==>
                  && outcome == Stored(id, db'.registers[id].unifiedAddress)
                  && 1 <= db'.registers[id].unifiedAddress <= 4999
                  && (forall r | r in db.registers && 0 <= db.registers[r].unifiedAddress < 5000
                        :: db.registers[r].unifiedAddress < db'.registers[id].unifiedAddress)
                  && var stored := row.(deviceId := db.registers[id].deviceId,
                                        unifiedAddress := db'.registers[id].unifiedAddress);
                     db' == db.(registers := db.registers[id := stored]))
  {
    ConstraintsGivePositiveIds(db);
    NextAutoReachesTheEnd(db.registers);
    if NextAuto(db.registers) < MANUAL_MIN {
      NextAutoIsFree(db.registers);
    }
  }

  // Inserting this register leaves a row without an address behind.
  predicate LeavesRow(db: Database, row: RegisterRow, statements: nat) {
    && row.deviceId in db.devices && !row.typeText.OtherText? && row.unifiedAddress < 0
    && statements > 0 && (statements < 3 || AddressTaken(db.registers, MANUAL_MIN - 1, 0))
  }

  lemma InsertedIsOneOfThree(db: Database, row: RegisterRow, statements: nat)
    requires Constraints(db)
    ensures PositiveIds(db.registers)
    ensures var (db', outcome) := RegisterInserted(db, row, statements);
            var id := db.registerSeq + 1;
            && id !in db.registers && db'.devices == db.devices
            && (LeavesRow(db, row, statements) ==> !outcome.Stored? && db'.registers == db.registers[id := row])
            && (outcome.Stored? ==>
                  row.deviceId in db.devices
                  && db'.registers == db.registers[id := row.(unifiedAddress := outcome.unifiedAddress)])
            && (!LeavesRow(db, row, statements) && !outcome.Stored? ==> db' == db)
  {
    ConstraintsGivePositiveIds(db);
    NewIdIsFree(db);
    if row.deviceId in db.devices && !row.typeText.OtherText? && row.unifiedAddress < 0 && statements > 0 {
      AutoAssignment(db, row, statements);
    }
  }

  lemma NextAutoReachesTheEnd(registers: Registers)
    requires PositiveIds(registers)
    ensures NextAuto(registers) >= MANUAL_MIN <==> AddressTaken(registers, MANUAL_MIN - 1, 0)
  {
    var n := NextAuto(registers);
    if AddressTaken(registers, MANUAL_MIN - 1, 0) {
      var x :| x in registers && registers[x].unifiedAddress == MANUAL_MIN - 1;
      assert InAutoRange(registers[x].unifiedAddress);
    }
  }

  /** The query of the code. */
  method QueryNextAuto(registers: Registers) returns (n: int)
    requires PositiveIds(registers)
    ensures n == NextAuto(registers)
  {
    var top := 0;
    var rest := registers.Keys;
    while rest != {}
      invariant rest <= registers.Keys
      invariant InAutoRange(top)
      invariant forall id | id in registers && id !in rest && InAutoRange(registers[id].unifiedAddress)
                  :: registers[id].unifiedAddress <= top
      invariant top == 0 || AddressTaken(registers, top, 0)
      decreases |rest|
    {
      ghost var some := Member(rest);
      var id :| id in rest;
      var a := registers[id].unifiedAddress;
      if InAutoRange(a) && a > top {
        top := a;
      }
      rest := rest - {id};
    }
    n := top + 1;
    assert IsNextAuto(registers, n);
    NextAutoIsUnique(registers, n, NextAuto(registers));
  }
}
