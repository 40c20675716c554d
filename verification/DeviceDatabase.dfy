/** The device database as the code runs it: single statements with their constraints, and the
    restore as one transaction any statement of which may fail. */
module DeviceDatabase {
  import opened Wrappers
  import opened HmiListing
  import opened HmiStore
  import opened HmiTables
  import opened DeviceTables
  import opened RestoreData
  import opened RestoreLaws

  // A tag remembered with the unified address of its register.
  datatype TagSnapshot = TagSnapshot(id: string, unifiedAddress: int, row: TagRow)

  // The kept tags, every tag once.
  ghost predicate Snapshots(kept: seq<TagSnapshot>, tags: Tags, was: Registers) {
    && (forall i, j | 0 <= i < j < |kept| :: kept[i].id != kept[j].id)
    && (forall i | 0 <= i < |kept| :: SnapshotOf(kept[i], tags, was))
    && (forall t | t in tags :: HasSnapshot(kept, t))
  }

  ghost predicate HasSnapshot(kept: seq<TagSnapshot>, t: string) {
    exists i :: 0 <= i < |kept| && kept[i].id == t
  }

  lemma HasSnapshotGrows(kept: seq<TagSnapshot>, s: TagSnapshot, t: string)
    ensures HasSnapshot(kept + [s], t) <==> HasSnapshot(kept, t) || s.id == t
  {
    var more := kept + [s];
    if HasSnapshot(kept, t) {
      var i :| 0 <= i < |kept| && kept[i].id == t;
      assert more[i].id == t;
    }
    assert more[|kept|] == s;
  }

  predicate SnapshotOf(s: TagSnapshot, tags: Tags, was: Registers) {
    && s.id in tags && s.row == tags[s.id]
    && s.row.registerId in was && s.unifiedAddress == was[s.row.registerId].unifiedAddress
  }

  // A tag is back on the register of its address, or gone.
  predicate TagDone(s: TagSnapshot, index: IdMap, tags: Tags) {
    if s.unifiedAddress in index then s.id in tags && tags[s.id] == s.row.(registerId := index[s.unifiedAddress])
    else s.id !in tags
  }

  lemma OtherTagDone(s: TagSnapshot, index: IdMap, tags: Tags, id: string, row: TagRow)
    requires TagDone(s, index, tags) && s.id != id
    ensures TagDone(s, index, tags[id := row])
  {
  }

  lemma TagRelinked(s: TagSnapshot, index: IdMap, tags: Tags)
    requires s.unifiedAddress in index
    ensures TagDone(s, index, tags[s.id := s.row.(registerId := index[s.unifiedAddress])])
  {
  }

  lemma TagDropped(s: TagSnapshot, oldTags: Tags, was: Registers, index: IdMap, tags: Tags)
    requires SnapshotOf(s, oldTags, was) && s.id !in tags
    ensures s.id in oldTags
    ensures s.unifiedAddress !in index ==> TagDone(s, index, tags)
  {
  }

  class Store {
    var devices: Devices
    var deviceSeq: nat
    var registers: Registers
    var registerSeq: nat
    var tags: Tags
    const hmi: Tables

    constructor (statements: nat)
      ensures State() == Database(map[], 0, map[], 0, map[], Hmi(None, map[]))
      ensures fresh(hmi)
    {
      devices, deviceSeq, registers, registerSeq, tags := map[], 0, map[], 0, map[];
      hmi := new Tables(statements);
    }

    function State(): Database
      reads this, hmi
    {
      Database(devices, deviceSeq, registers, registerSeq, tags, hmi.State())
    }

    // ---------------------------------------------------------------- single rows

    method InsertDevice(row: DeviceRow) returns (ok: bool)
      modifies this`devices, this`deviceSeq
      ensures (State(), ok) == DeviceInserted(old(State()), row)
    {
      if row.connection.protocol.UnknownProtocol? || CodeTaken(devices, row.code, 0) {
        return false;
      }
      deviceSeq := deviceSeq + 1;
      devices := devices[deviceSeq := row];
      return true;
    }

    method UpdateDevice(id: int, row: DeviceRow) returns (ok: bool)
      modifies this
      ensures (State(), ok) == DeviceUpdated(old(State()), id, row)
    {
      if id in devices {
        if row.connection.protocol.UnknownProtocol? || CodeTaken(devices, row.code, id) {
          return false;
        }
        devices := devices[id := row];
      }
      return true;
    }

    method DeleteDevice(id: int)
      modifies this
      ensures State() == DeviceDeleted(old(State()), id)
    {
      devices := devices - {id};
      registers := RegistersOf(registers, devices.Keys);
      tags := TagsOn(tags, registers.Keys);
    }

    /** Inserts the row first, then queries and sets an address if it has none. The three statements
        are no transaction: only the first `left` of them go through. */
    method InsertRegister(row: RegisterRow, left: nat) returns (outcome: RegisterOutcome)
      requires Constraints(State())
      modifies this
      ensures PositiveIds(old(registers))
      ensures (State(), outcome) == RegisterInserted(old(State()), row, left)
    {
      ConstraintsGivePositiveIds(State());
      NewIdIsFree(State());
      if left == 0 || row.deviceId !in devices || row.typeText.OtherText?
         || (row.unifiedAddress >= 0 && AddressTaken(registers, row.unifiedAddress, 0)) {
        return Refused;
      }
      ghost var registers0 := registers;
      registerSeq := registerSeq + 1;
      var id := registerSeq;
      registers := registers[id := row];
      if row.unifiedAddress >= 0 {
        return Stored(id, row.unifiedAddress);
      }
      if left == 1 {
        return Failed;
      }
      var newUnifiedId := QueryNextAuto(registers);
      if newUnifiedId >= MANUAL_MIN {
        return Exhausted;
      }
      if left == 2 {
        return Failed;
      }
      registers := registers[id := row.(unifiedAddress := newUnifiedId)];
      assert registers == registers0[id := row.(unifiedAddress := newUnifiedId)];
      return Stored(id, newUnifiedId);
    }

    method UpdateRegister(id: int, row: RegisterRow) returns (outcome: RegisterOutcome)
      requires Constraints(State())
      modifies this
      ensures PositiveIds(old(registers))
      ensures (State(), outcome) == RegisterUpdated(old(State()), id, row)
    {
      ConstraintsGivePositiveIds(State());
      var address := row.unifiedAddress;
      if address < 0 {
        address := QueryNextAuto(registers);
        if address >= MANUAL_MIN {
          return Exhausted;
        }
      }
      if id in registers {
        if row.typeText.OtherText? || AddressTaken(registers, address, id) {
          return Refused;
        }
        registers := registers[id := row.(deviceId := registers[id].deviceId, unifiedAddress := address)];
      }
      return Stored(id, address);
    }

    method DeleteRegister(id: int)
      modifies this
      ensures State() == RegisterDeleted(old(State()), id)
    {
      registers := registers - {id};
      tags := TagsOn(tags, registers.Keys);
    }

    // ---------------------------------------------------------------- restore

    // Every row of the query "unified_register_id, id" with an assigned address.
    method BuildIndex() returns (index: IdMap)
      requires UnifiedUnique(registers)
      ensures index == Index(registers)
    {
      index := map[];
      var rest := registers.Keys;
      while rest != {}
        invariant rest <= registers.Keys
        invariant forall u | u in index :: Points(registers, index, u)
        invariant forall id | id in registers && id !in rest :: Indexed(registers, index, id)
        decreases |rest|
      {
        ghost var some := Member(rest);
        var id :| id in rest;
        if registers[id].unifiedAddress >= 0 {
          index := index[registers[id].unifiedAddress := id];
        }
        rest := rest - {id};
      }
      IndexIsUnique(registers, index, Index(registers));
    }

    method SnapshotTags() returns (kept: seq<TagSnapshot>)
      requires TagsOk(tags, registers.Keys)
      ensures Snapshots(kept, tags, registers)
    {
      hide HasSnapshot;
      kept := [];
      var rest := tags.Keys;
      while rest != {}
        invariant rest <= tags.Keys
        invariant forall i, j | 0 <= i < j < |kept| :: kept[i].id != kept[j].id
        invariant forall i | 0 <= i < |kept| :: SnapshotOf(kept[i], tags, registers) && kept[i].id !in rest
        invariant forall t | t in tags && t !in rest :: HasSnapshot(kept, t)
        decreases |rest|
      {
        var t :| t in rest;
        assert TagOk(tags[t], registers.Keys);
        var s := TagSnapshot(t, registers[tags[t].registerId].unifiedAddress, tags[t]);
        forall x: string
          ensures HasSnapshot(kept + [s], x) <==> HasSnapshot(kept, x) || s.id == x
        {
          HasSnapshotGrows(kept, s, x);
        }
        kept := kept + [s];
        rest := rest - {t};
      }
    }

    method RestoreDevices(records: seq<DeviceRecord>) returns (ok: bool, idMap: IdMap)
      modifies this`devices, this`deviceSeq, hmi`statements
      ensures ok ==> InsertDevices(old(State()), records) == Some((State(), idMap))
      ensures !ok ==> hmi.statements == 0 || InsertDevices(old(State()), records).None?
    {
      hide CodeTaken;
      ghost var db := State();
      idMap := map[];
      var i := 0;
      while i < |records|
        invariant 0 <= i <= |records|
        invariant InsertDevices(db, records[..i]) == Some((State(), idMap))
      {
        assert records[..i + 1][..i] == records[..i];
        ok := hmi.Execute();
        if !ok {
          return;
        }
        ok := InsertDevice(records[i].row);
        if !ok {
          FailedDeviceStops(db, records, i + 1);
          return;
        }
        idMap := idMap[records[i].oldId := deviceSeq];
        i := i + 1;
      }
      assert records[..i] == records;
      ok := true;
    }

    method RestoreRegisters(idMap: IdMap, records: seq<RegisterRow>) returns (ok: bool)
      modifies this`registers, this`registerSeq, hmi`statements
      ensures ok ==> InsertRegisters(old(State()), idMap, records) == Some(State())
      ensures !ok ==> hmi.statements == 0 || InsertRegisters(old(State()), idMap, records).None?
    {
      hide AddressTaken;
      ghost var db := State();
      var i := 0;
      while i < |records|
        invariant 0 <= i <= |records|
        invariant InsertRegisters(db, idMap, records[..i]) == Some(State())
      {
        assert records[..i + 1][..i] == records[..i];
        if records[i].deviceId in idMap {
          var row := records[i].(deviceId := idMap[records[i].deviceId]);
          ok := hmi.Execute();
          if !ok {
            return;
          }
          if !RowFits(State(), row) {
            FailedRegisterStops(db, idMap, records, i + 1);
            ok := false;
            return;
          }
          registerSeq := registerSeq + 1;
          registers := registers[registerSeq := row];
        }
        i := i + 1;
      }
      assert records[..i] == records;
      ok := true;
    }

    // Puts the remembered tags back on the registers that have their addresses now.
    method RelinkTags(kept: seq<TagSnapshot>, index: IdMap, ghost oldTags: Tags, ghost was: Registers)
      returns (ok: bool, dropped: seq<string>)
      requires tags == map[] && TagsOk(oldTags, was.Keys) && Snapshots(kept, oldTags, was)
      requires forall u | u in index :: u >= 0
      modifies this`tags, hmi`statements
      ensures ok ==> tags == Relinked(oldTags, was, index)
      ensures ok ==> |dropped| + |tags| == |kept|
      ensures !ok ==> hmi.statements == 0
    {
      hide TagDone, SnapshotOf, Relinked, HasSnapshot, TagsOk;
      dropped := [];
      var i := 0;
      while i < |kept|
        invariant 0 <= i <= |kept|
        invariant forall k | 0 <= k < i :: TagDone(kept[k], index, tags)
        invariant forall k | i <= k < |kept| :: kept[k].id !in tags
        invariant forall t | t in tags :: t in oldTags
        invariant |dropped| + |tags| == i
      {
        var s := kept[i];
        TagDropped(s, oldTags, was, index, tags);
        if s.unifiedAddress < 0 || s.unifiedAddress !in index {
          dropped := dropped + [s.id];
        } else {
          ok := hmi.Execute();
          if !ok {
            return;
          }
          var row := s.row.(registerId := index[s.unifiedAddress]);
          forall k | 0 <= k < i
            ensures TagDone(kept[k], index, tags[s.id := row])
          {
            OtherTagDone(kept[k], index, tags, s.id, row);
          }
          TagRelinked(s, index, tags);
          tags := tags[s.id := row];
        }
        i := i + 1;
      }
      RelinkedRowByRow(kept, oldTags, was, index, tags);
      ok := true;
    }

    method RestoreTags(index: IdMap, records: seq<TagRecord>, now: string) returns (ok: bool)
      requires tags == map[]
      modifies this`tags, hmi`statements
      ensures ok ==> InsertTags(index, records, now) == Some(tags)
      ensures !ok ==> hmi.statements == 0 || InsertTags(index, records, now).None?
    {
      var i := 0;
      while i < |records|
        invariant 0 <= i <= |records|
        invariant InsertTags(index, records[..i], now) == Some(tags)
      {
        assert records[..i + 1][..i] == records[..i];
        var r := records[i];
        if r.id != "" && r.unifiedAddress.Some? && r.unifiedAddress.value in index {
          ok := hmi.Execute();
          if !ok {
            return;
          }
          if r.id in tags || r.row.access.OtherAccess? {
            FailedTagStops(index, records, now, i + 1);
            ok := false;
            return;
          }
          tags := tags[r.id := TagOf(r, index[r.unifiedAddress.value], now)];
        }
        i := i + 1;
      }
      assert records[..i] == records;
      ok := true;
    }

    method RollbackTo(devices0: Devices, deviceSeq0: nat, registers0: Registers, registerSeq0: nat, tags0: Tags,
                      row0: Option<Project>, screens0: Screens)
      modifies this, hmi
      ensures State() == Database(devices0, deviceSeq0, registers0, registerSeq0, tags0, Hmi(row0, screens0))
      ensures hmi.statements == old(hmi.statements)
    {
      devices, deviceSeq, registers, registerSeq, tags := devices0, deviceSeq0, registers0, registerSeq0, tags0;
      hmi.Rollback(row0, screens0);
    }

    // "DELETE FROM devices", which takes registers and tags along, and the rows of the backup.
    method ReplaceDevices(backup: Backup) returns (ok: bool)
      modifies this, hmi`statements
      ensures ok ==> DevicesRestored(old(State()), backup) == Some(State())
      ensures !ok ==> hmi.statements == 0 || DevicesRestored(old(State()), backup).None?
      ensures tags == map[] || !ok
    {
      hide InsertDevices, InsertRegisters;
      ghost var db := State();
      ok := hmi.Execute();
      if !ok {
        return;
      }
      devices, registers, tags := map[], map[], map[];
      assert State() == Cleared(db);
      var idMap: IdMap;
      ok, idMap := RestoreDevices(backup.devices);
      if !ok {
        return;
      }
      ok := RestoreRegisters(idMap, backup.registers);
    }

    /** Empties everything, or nothing if a statement fails. */
    method FactoryReset() returns (ok: bool)
      modifies this, hmi
      ensures State() == if ok then FactoryState(old(State())) else old(State())
      ensures ok ==> devices == map[] && registers == map[] && tags == map[] && hmi.row == None && hmi.screens == map[]
      ensures deviceSeq == old(deviceSeq) && registerSeq == old(registerSeq)
      ensures !ok ==> hmi.statements == 0
    {
      var devices0, deviceSeq0, registers0, registerSeq0, tags0 := devices, deviceSeq, registers, registerSeq, tags;
      var row0, screens0 := hmi.row, hmi.screens;
      ok := hmi.Execute();
      if ok {
        devices, registers, tags := map[], map[], map[];
        ok := hmi.Execute();
      }
      if ok {
        hmi.Rollback(row0, map[]);
        ok := hmi.Execute();
      }
      if ok {
        hmi.Rollback(None, map[]);
      } else {
        RollbackTo(devices0, deviceSeq0, registers0, registerSeq0, tags0, row0, screens0);
      }
    }

    // The part of the restore that replaces devices, registers and, unless HMI follows, tags.
    method RestoreDevicePart(backup: Backup, relinkTags: bool) returns (ok: bool)
      requires Constraints(State())
      modifies this, hmi`statements
      ensures TagsOk(old(tags), old(registers).Keys)
      ensures ok ==>
                && DevicesRestored(old(State()), backup).Some?
                && var r := DevicesRestored(old(State()), backup).value;
                   State() == if relinkTags then r.(tags := Relinked(old(tags), old(registers), Index(r.registers)))
                               else r
      ensures ok ==> Constraints(DevicesRestored(old(State()), backup).value)
      ensures !ok ==> hmi.statements == 0 || DevicesRestored(old(State()), backup).None?
    {
      hide Constraints, DevicesRestored, TagsOk, Relinked, Snapshots, Index, IsIndex;
      ghost var db := State();
      ConstraintsIncludeTags(db);
      DevicesRestoredKeeps(db, backup);
      var kept := [];
      if relinkTags {
        ok := hmi.Execute();
        if !ok {
          return;
        }
        kept := SnapshotTags();
      }
      ok := ReplaceDevices(backup);
      if ok && relinkTags {
        IncludesUnified(State());
        var index := BuildIndex();
        var dropped: seq<string>;
        IndexNonNegative(registers);
        ok, dropped := RelinkTags(kept, index, db.tags, db.registers);
      }
    }

    // The part that replaces project, screens and tags.
    method RestoreHmiPart(backup: Backup, now: string) returns (ok: bool)
      requires UnifiedUnique(registers)
      modifies this`tags, hmi
      ensures ok ==> HmiRestored(old(State()), backup, now) == Some(State())
      ensures !ok ==> hmi.statements == 0 || HmiRestored(old(State()), backup, now).None?
    {
      hide InsertTags, Restored;
      var index := BuildIndex();
      ok := hmi.Execute();
      if !ok {
        return;
      }
      tags := map[];
      var result := hmi.RestoreHmi(backup.hmi);
      if result != Ok {
        return false;
      }
      ok := RestoreTags(index, backup.tags, now);
    }

    /** Devices, HMI or both from a backup, all or nothing: exactly when the backup meets the constraints,
        as long as no statement fails. */
    method RestoreAll(backup: Backup, restoreDevices: bool, restoreHmi: bool, now: string) returns (ok: bool)
      requires Constraints(State())
      modifies this, hmi
      ensures TagsOk(old(tags), old(registers).Keys)
      ensures ok ==> (State(), true) == RestoredAll(old(State()), backup, restoreDevices, restoreHmi, now)
      ensures !ok ==> State() == old(State())
      ensures !ok ==> hmi.statements == 0 || !RestoredAll(old(State()), backup, restoreDevices, restoreHmi, now).1
      ensures ok ==> Restorable(old(State()), backup, restoreDevices, restoreHmi)
      ensures ok ==> RestoredTo(old(State()), backup, restoreDevices, restoreHmi, now, State())
      ensures !ok ==> hmi.statements == 0 || !Restorable(old(State()), backup, restoreDevices, restoreHmi)
    {
      hide Restorable, RestoredTo;
      RestoreGives(State(), backup, restoreDevices, restoreHmi, now);
      hide Constraints, DevicesRestored, HmiRestored, Relinked, TagsOk;
      ghost var db := State();
      ConstraintsIncludeTags(db);
      var devices0, deviceSeq0, registers0, registerSeq0, tags0 := devices, deviceSeq, registers, registerSeq, tags;
      var row0, screens0 := hmi.row, hmi.screens;
      if restoreDevices {
        ok := RestoreDevicePart(backup, !restoreHmi);
        if !ok {
          RollbackTo(devices0, deviceSeq0, registers0, registerSeq0, tags0, row0, screens0);
          return;
        }
      }
      if restoreHmi {
        IncludesUnified(if restoreDevices then DevicesRestored(db, backup).value else db);
        ok := RestoreHmiPart(backup, now);
        if !ok {
          RollbackTo(devices0, deviceSeq0, registers0, registerSeq0, tags0, row0, screens0);
          return;
        }
      }
      ok := true;
    }
  }

  lemma IncludesUnified(db: Database)
    requires Constraints(db)
    ensures UnifiedUnique(db.registers)
  {
  }

  lemma IndexNonNegative(registers: Registers)
    ensures forall u | u in Index(registers) :: u >= 0
  {
    assert forall u | u in Index(registers) :: Points(registers, Index(registers), u);
  }

  lemma RelinkedRowByRow(kept: seq<TagSnapshot>, oldTags: Tags, was: Registers, index: IdMap, tags: Tags)
    requires TagsOk(oldTags, was.Keys) && Snapshots(kept, oldTags, was)
    requires forall k | 0 <= k < |kept| :: TagDone(kept[k], index, tags)
    requires forall t | t in tags :: t in oldTags
    ensures tags == Relinked(oldTags, was, index)
  {
    var r := Relinked(oldTags, was, index);
    forall t
      ensures t in tags <==> t in r
      ensures t in r ==> tags[t] == r[t]
    {
      if t in oldTags {
        assert HasSnapshot(kept, t);
        var k :| 0 <= k < |kept| && kept[k].id == t;
        assert SnapshotOf(kept[k], oldTags, was) && TagDone(kept[k], index, tags);
      }
    }
  }

  lemma {:induction false} FailedDeviceStops(db: Database, records: seq<DeviceRecord>, k: nat)
    requires k <= |records| && InsertDevices(db, records[..k]).None?
    ensures InsertDevices(db, records).None?
    decreases |records|
  {
    if k == |records| {
      assert records[..k] == records;
    } else {
      assert records[..|records| - 1][..k] == records[..k];
      FailedDeviceStops(db, records[..|records| - 1], k);
    }
  }

  lemma {:induction false} FailedRegisterStops(db: Database, idMap: IdMap, records: seq<RegisterRow>, k: nat)
    requires k <= |records| && InsertRegisters(db, idMap, records[..k]).None?
    ensures InsertRegisters(db, idMap, records).None?
    decreases |records|
  {
    if k == |records| {
      assert records[..k] == records;
    } else {
      assert records[..|records| - 1][..k] == records[..k];
      FailedRegisterStops(db, idMap, records[..|records| - 1], k);
    }
  }

  lemma {:induction false} FailedTagStops(index: IdMap, records: seq<TagRecord>, now: string, k: nat)
    requires k <= |records| && InsertTags(index, records[..k], now).None?
    ensures InsertTags(index, records, now).None?
    decreases |records|
  {
    if k == |records| {
      assert records[..k] == records;
    } else {
      assert records[..|records| - 1][..k] == records[..k];
      FailedTagStops(index, records[..|records| - 1], now, k);
    }
  }
}
