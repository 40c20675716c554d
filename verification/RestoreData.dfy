/** Restoring devices, registers, tags and HMI from a backup: every id is reassigned, and tags find
    their register again by its unified address. */
module RestoreData {
  import opened Wrappers
  import opened HmiStore
  import opened DeviceTables

  // A device as the backup holds it, under its old id. A backup without a poll mode reads as Auto.
  datatype DeviceRecord = DeviceRecord(oldId: int, row: DeviceRow)

  // A tag as the backup holds it: its register is given by unified address. Id and times of `row`
  // are not part of the backup.
  datatype TagRecord = TagRecord(id: string, unifiedAddress: Option<int>, row: TagRow)

  // Registers carry the old id of their device.
  datatype Backup = Backup(
    devices: seq<DeviceRecord>,
    registers: seq<RegisterRow>,
    hmi: HmiBackup,
    tags: seq<TagRecord>)

  type IdMap = map<int, int>

  // ---------------------------------------------------------------- devices and registers

  function InsertDevices(db: Database, records: seq<DeviceRecord>): Option<(Database, IdMap)> {
    if records == [] then Some((db, map[]))
    else
      var before := InsertDevices(db, records[..|records| - 1]);
      var r := records[|records| - 1];
      if before.None? then None
      else
        var (added, ok) := DeviceInserted(before.value.0, r.row);
        if !ok then None else Some((added, before.value.1[r.oldId := added.deviceSeq]))
  }

  predicate RowFits(db: Database, row: RegisterRow) {
    && row.deviceId in db.devices && !row.typeText.OtherText?
    && (row.unifiedAddress >= 0 ==> !AddressTaken(db.registers, row.unifiedAddress, 0))
  }

  // A register of a device that is not in the backup is skipped.
  function InsertRegisters(db: Database, idMap: IdMap, records: seq<RegisterRow>): Option<Database> {
    if records == [] then Some(db)
    else
      var before := InsertRegisters(db, idMap, records[..|records| - 1]);
      var r := records[|records| - 1];
      if before.None? || r.deviceId !in idMap then before
      else
        var row := r.(deviceId := idMap[r.deviceId]);
        if !RowFits(before.value, row) then None
        else
          var id := before.value.registerSeq + 1;
          Some(before.value.(registers := before.value.registers[id := row], registerSeq := id))
  }

  // ---------------------------------------------------------------- registers by unified address

  /** The lookup table from unified address to register id. */
  ghost predicate IsIndex(registers: Registers, index: IdMap) {
    && (forall u | u in index :: Points(registers, index, u))
    && (forall id | id in registers :: Indexed(registers, index, id))
  }

  predicate Points(registers: Registers, index: IdMap, u: int)
    requires u in index
  {
    u >= 0 && index[u] in registers && registers[index[u]].unifiedAddress == u
  }

  predicate Indexed(registers: Registers, index: IdMap, id: int)
    requires id in registers
  {
    registers[id].unifiedAddress >= 0 ==> registers[id].unifiedAddress in index
  }

  lemma IndexIsUnique(registers: Registers, a: IdMap, b: IdMap)
    requires UnifiedUnique(registers) && IsIndex(registers, a) && IsIndex(registers, b)
    ensures a == b
  {
    forall u
      ensures u in a <==> u in b
      ensures u in a && u in b ==> a[u] == b[u]
    {
      if u in a {
        assert Points(registers, a, u) && Indexed(registers, b, a[u]);
      }
      if u in b {
        assert Points(registers, b, u) && Indexed(registers, a, b[u]);
      }
      if u in a && u in b {
        assert Points(registers, a, u) && Points(registers, b, u);
      }
    }
  }

  function Addresses(registers: Registers): set<int> {
    set id | id in registers && registers[id].unifiedAddress >= 0 :: registers[id].unifiedAddress
  }

  ghost function IdAt(registers: Registers, u: int): (id: int)
    requires u in Addresses(registers)
    ensures id in registers && registers[id].unifiedAddress == u >= 0
  {
    var id :| id in registers && registers[id].unifiedAddress == u;
    id
  }

  ghost function Index(registers: Registers): (index: IdMap)
    ensures IsIndex(registers, index)
  {
    map u | u in Addresses(registers) :: IdAt(registers, u)
  }

  // ---------------------------------------------------------------- tags

  // The tags whose register's address exists again, on the register that has it now.
  ghost function Relinked(tags: Tags, was: Registers, index: IdMap): (r: Tags)
    requires TagsOk(tags, was.Keys)
    ensures forall t :: t in r <==> t in tags && was[tags[t].registerId].unifiedAddress in index
  {
    assert forall t | t in tags :: TagOk(tags[t], was.Keys);
    map t | t in tags && was[tags[t].registerId].unifiedAddress in index
      :: tags[t].(registerId := index[was[tags[t].registerId].unifiedAddress])
  }

  function TagOf(r: TagRecord, registerId: int, now: string): TagRow {
    r.row.(registerId := registerId, createdAt := now, updatedAt := now)
  }

  // Tags without an id or without a register are dropped; a repeated id or a bad access fails.
  function InsertTags(index: IdMap, records: seq<TagRecord>, now: string): Option<Tags> {
    if records == [] then Some(map[])
    else
      var before := InsertTags(index, records[..|records| - 1], now);
      var r := records[|records| - 1];
      if before.None? || r.id == "" || r.unifiedAddress.None? || r.unifiedAddress.value !in index then before
      else if r.id in before.value || r.row.access.OtherAccess? then None
      else Some(before.value[r.id := TagOf(r, index[r.unifiedAddress.value], now)])
  }

  // ---------------------------------------------------------------- the whole restore

  function Cleared(db: Database): Database {
    db.(devices := map[], registers := map[], tags := map[])
  }

  ghost function DevicesRestored(db: Database, backup: Backup): Option<Database> {
    var devices := InsertDevices(Cleared(db), backup.devices);
    if devices.None? then None else InsertRegisters(devices.value.0, devices.value.1, backup.registers)
  }

  ghost function HmiRestored(db: Database, backup: Backup, now: string): Option<Database> {
    var (hmi, result) := Restored(db.hmi, backup.hmi);
    var tags := InsertTags(Index(db.registers), backup.tags, now);
    if result != Ok || tags.None? then None else Some(db.(hmi := hmi, tags := tags.value))
  }

  /** Devices with their registers, HMI with its tags, or both. Tags are re-linked when devices are
      restored without HMI. A failure leaves the database as it was. */
  ghost function RestoredAll(db: Database, backup: Backup, devices: bool, hmi: bool, now: string): (Database, bool)
    requires TagsOk(db.tags, db.registers.Keys)
  {
    var first := if devices then DevicesRestored(db, backup) else Some(db);
    if first.None? then (db, false)
    else if hmi then
      var second := HmiRestored(first.value, backup, now);
      if second.None? then (db, false) else (second.value, true)
    else if devices then
      (first.value.(tags := Relinked(db.tags, db.registers, Index(first.value.registers))), true)
    else (db, true)
  }

  // ---------------------------------------------------------------- what a restore keeps

  lemma {:induction false} InsertDevicesKeeps(db: Database, records: seq<DeviceRecord>)
    requires Constraints(db)
    ensures InsertDevices(db, records).Some? ==>
              var (db', idMap) := InsertDevices(db, records).value;
              && Constraints(db')
              && db' == db.(devices := db'.devices, deviceSeq := db'.deviceSeq)
              && forall o | o in idMap :: idMap[o] in db'.devices
    decreases |records|
  {
    hide Constraints, DeviceInserted;
    if records != [] {
      var init := records[..|records| - 1];
      InsertDevicesKeeps(db, init);
      if InsertDevices(db, init).Some? {
        var before := InsertDevices(db, init).value.0;
        DeviceInsertedKeeps(before, records[|records| - 1].row);
        DeviceInsertedShape(before, records[|records| - 1].row);
      }
    }
  }

  lemma DeviceInsertedShape(db: Database, row: DeviceRow)
    ensures DeviceInserted(db, row).1 ==>
              DeviceInserted(db, row).0 == db.(devices := db.devices[db.deviceSeq + 1 := row],
                                               deviceSeq := db.deviceSeq + 1)
  {
  }

  lemma {:induction false} InsertRegistersKeeps(db: Database, idMap: IdMap, records: seq<RegisterRow>)
    requires Constraints(db)
    ensures InsertRegisters(db, idMap, records).Some? ==>
              var db' := InsertRegisters(db, idMap, records).value;
              && Constraints(db')
              && db' == db.(registers := db'.registers, registerSeq := db'.registerSeq)
    decreases |records|
  {
    hide Constraints, AddressTaken;
    if records != [] {
      var init, r := records[..|records| - 1], records[|records| - 1];
      InsertRegistersKeeps(db, idMap, init);
      if InsertRegisters(db, idMap, init).Some? && r.deviceId in idMap {
        var before := InsertRegisters(db, idMap, init).value;
        var row := r.(deviceId := idMap[r.deviceId]);
        if RowFits(before, row) {
          NewIdIsFree(before);
          RegisterStoredKeeps(before, before.registerSeq + 1, row, before.registerSeq + 1);
        }
      }
    }
  }

  lemma ClearedKeeps(db: Database)
    requires Constraints(db)
    ensures Constraints(Cleared(db))
  {
  }

  lemma RelinkedKeeps(tags: Tags, was: Registers, registers: Registers)
    requires TagsOk(tags, was.Keys)
    ensures TagsOk(Relinked(tags, was, Index(registers)), registers.Keys)
  {
    var index := Index(registers);
    var r := Relinked(tags, was, index);
    forall t | t in r
      ensures TagOk(r[t], registers.Keys)
    {
      assert TagOk(tags[t], was.Keys);
      assert Points(registers, index, was[tags[t].registerId].unifiedAddress);
    }
  }

  lemma {:induction false} InsertTagsKeeps(registers: Registers, records: seq<TagRecord>, now: string)
    ensures InsertTags(Index(registers), records, now).Some? ==>
              TagsOk(InsertTags(Index(registers), records, now).value, registers.Keys)
    decreases |records|
  {
    if records != [] {
      var init, r, index := records[..|records| - 1], records[|records| - 1], Index(registers);
      InsertTagsKeeps(registers, init, now);
      if InsertTags(index, records, now).Some? {
        var before, after := InsertTags(index, init, now).value, InsertTags(index, records, now).value;
        forall t | t in after
          ensures TagOk(after[t], registers.Keys)
        {
          assert t in before ==> TagOk(before[t], registers.Keys);
          assert forall u | u in index :: Points(registers, index, u);
        }
      }
    }
  }

  /** Whatever the backup holds, a restore keeps every constraint: codes and addresses unique, every
      register on a device, every tag on a register. It keeps the HMI invariant too. */
  lemma RestoreKeepsConstraints(db: Database, backup: Backup, devices: bool, hmi: bool, now: string)
    requires Constraints(db)
    ensures Constraints(RestoredAll(db, backup, devices, hmi, now).0)
    ensures Inv(db.hmi) ==> Inv(RestoredAll(db, backup, devices, hmi, now).0.hmi)
  {
    hide Constraints, InsertDevices, InsertRegisters, InsertTags, Inv, Restored, Relinked, TagsOk;
    ConstraintsIncludeTags(db);
    ClearedKeeps(db);
    DevicesRestoredKeeps(db, backup);
    var first := if devices then DevicesRestored(db, backup) else Some(db);
    if first.Some? {
      if hmi {
        InsertTagsKeeps(first.value.registers, backup.tags, now);
        assert Step(db.hmi, Restore(backup.hmi)) == Restored(db.hmi, backup.hmi);
        if Inv(db.hmi) {
          StepKeepsInvariant(db.hmi, Restore(backup.hmi));
        }
        if HmiRestored(first.value, backup, now).Some? {
          OtherTags(first.value, HmiRestored(first.value, backup, now).value);
        }
      } else if devices {
        RelinkedKeeps(db.tags, db.registers, first.value.registers);
        OtherTags(first.value, RestoredAll(db, backup, devices, hmi, now).0);
      }
    }
  }

  lemma ConstraintsIncludeTags(db: Database)
    requires Constraints(db)
    ensures TagsOk(db.tags, db.registers.Keys)
  {
  }

  lemma OtherTags(db: Database, other: Database)
    requires Constraints(db) && TagsOk(other.tags, other.registers.Keys)
    requires other == db.(tags := other.tags, hmi := other.hmi)
    ensures Constraints(other)
  {
  }

  lemma DevicesRestoredKeeps(db: Database, backup: Backup)
    requires Constraints(db)
    ensures DevicesRestored(db, backup).Some? ==>
              var db' := DevicesRestored(db, backup).value;
              Constraints(db') && db'.hmi == db.hmi
  {
    hide Constraints, InsertDevices, InsertRegisters;
    ClearedKeeps(db);
    InsertDevicesKeeps(Cleared(db), backup.devices);
    var devices := InsertDevices(Cleared(db), backup.devices);
    if devices.Some? {
      InsertRegistersKeeps(devices.value.0, devices.value.1, backup.registers);
    }
  }

  // ---------------------------------------------------------------- conservation of tags

  // Is there a register with the unified address of the tag's register?
  predicate FindsRegister(tag: TagRow, was: Registers, registers: Registers)
    requires tag.registerId in was
  {
    var u := was[tag.registerId].unifiedAddress;
    u >= 0 && AddressTaken(registers, u, 0)
  }

  // A tag is kept exactly when its register's unified address exists again; it then sits on the
  // register that has the address now and is otherwise unchanged.
  ghost predicate ConservedTag(tags: Tags, was: Registers, kept: Tags, registers: Registers, t: string)
    requires t in tags
  {
    && tags[t].registerId in was
    && (t in kept <==> FindsRegister(tags[t], was, registers))
    && (t in kept ==>
          && kept[t] == tags[t].(registerId := kept[t].registerId)
          && kept[t].registerId in registers
          && registers[kept[t].registerId].unifiedAddress == was[tags[t].registerId].unifiedAddress)
  }

  /** Every tag is conserved, and kept and dropped tags add up to the original ones. */
  ghost predicate Conserved(tags: Tags, was: Registers, kept: Tags, registers: Registers) {
    && (forall t | t in tags :: ConservedTag(tags, was, kept, registers, t))
    && kept.Keys <= tags.Keys
    && |kept| + |tags.Keys - kept.Keys| == |tags|
  }

  lemma PartsAddUp(tags: Tags, kept: Tags)
    requires kept.Keys <= tags.Keys
    ensures |kept| + |tags.Keys - kept.Keys| == |tags|
  {
    assert tags.Keys == kept.Keys + (tags.Keys - kept.Keys);
  }

  lemma RelinkOne(tags: Tags, was: Registers, registers: Registers, t: string)
    requires TagsOk(tags, was.Keys) && PositiveIds(registers) && t in tags
    ensures ConservedTag(tags, was, Relinked(tags, was, Index(registers)), registers, t)
  {
    hide AddressTaken, PositiveIds, IsIndex;
    var index := Index(registers);
    assert TagOk(tags[t], was.Keys);
    var u := was[tags[t].registerId].unifiedAddress;
    AddressIndexed(registers, u);
    if u in index {
      IndexPoints(registers, u);
    }
  }

  lemma IndexPoints(registers: Registers, u: int)
    requires u in Index(registers)
    ensures Points(registers, Index(registers), u)
  {
  }

  lemma RelinkConserves(tags: Tags, was: Registers, registers: Registers)
    requires TagsOk(tags, was.Keys) && PositiveIds(registers)
    ensures Conserved(tags, was, Relinked(tags, was, Index(registers)), registers)
  {
    hide ConservedTag, TagsOk, PositiveIds;
    var kept := Relinked(tags, was, Index(registers));
    forall t | t in tags
      ensures ConservedTag(tags, was, kept, registers, t)
    {
      RelinkOne(tags, was, registers, t);
    }
    PartsAddUp(tags, kept);
  }

  /** Restoring devices without HMI conserves the tags. */
  lemma TagsAreConserved(db: Database, backup: Backup, now: string)
    requires Constraints(db)
    requires RestoredAll(db, backup, true, false, now).1
    ensures TagsOk(db.tags, db.registers.Keys)
    ensures var db' := RestoredAll(db, backup, true, false, now).0;
            Conserved(db.tags, db.registers, db'.tags, db'.registers)
  {
    hide InsertDevices, InsertRegisters, Constraints, TagsOk, Relinked, Conserved;
    ConstraintsIncludeTags(db);
    DevicesRestoredKeeps(db, backup);
    ConstraintsGivePositiveIds(DevicesRestored(db, backup).value);
    RelinkConserves(db.tags, db.registers, DevicesRestored(db, backup).value.registers);
  }

  lemma AddressIndexed(registers: Registers, u: int)
    requires PositiveIds(registers)
    ensures u in Index(registers) <==> u >= 0 && AddressTaken(registers, u, 0)
  {
    var index := Index(registers);
    if u in index {
      assert Points(registers, index, u);
    }
    if u >= 0 && AddressTaken(registers, u, 0) {
      var id :| id in registers && registers[id].unifiedAddress == u;
      assert Indexed(registers, index, id);
    }
  }
}
