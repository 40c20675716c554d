/** What restoring any backup gives, record by record: which records fit, and the rows that are there
    afterwards. */
module RestoreLaws {
  import opened Wrappers
  import opened HmiStore
  import opened DeviceTables
  import opened RestoreData

  // ---------------------------------------------------------------- tags

  // The record has an id and the address of a register.
  predicate Resolves(known: set<int>, r: TagRecord) {
    r.id != "" && r.unifiedAddress.Some? && r.unifiedAddress.value in known
  }

  // The resolvable records repeat no id and have an access the column allows.
  ghost predicate TagsFit(known: set<int>, records: seq<TagRecord>) {
    && (forall i | 0 <= i < |records| && Resolves(known, records[i]) :: !records[i].row.access.OtherAccess?)
    && (forall i, j | 0 <= i < j < |records| && Resolves(known, records[i]) && Resolves(known, records[j]) ::
          records[i].id != records[j].id)
  }

  // On the register with the address of the record, otherwise as recorded, with new times.
  ghost predicate TagOfRecord(registers: Registers, r: TagRecord, now: string, tags: Tags) {
    && r.id in tags
    && var t := tags[r.id];
       && t.registerId in registers && r.unifiedAddress == Some(registers[t.registerId].unifiedAddress)
       && t == r.row.(registerId := t.registerId, createdAt := now, updatedAt := now)
  }

  ghost predicate GivesTag(known: set<int>, records: seq<TagRecord>, id: string) {
    exists i :: 0 <= i < |records| && Resolves(known, records[i]) && records[i].id == id
  }

  /** A tag for each resolvable record, and no other. */
  ghost predicate TagsReplaced(registers: Registers, records: seq<TagRecord>, now: string, tags: Tags) {
    && (forall id :: id in tags <==> GivesTag(Addresses(registers), records, id))
    && (forall i | 0 <= i < |records| && Resolves(Addresses(registers), records[i]) ::
          TagOfRecord(registers, records[i], now, tags))
  }

  lemma AddressInIndex(registers: Registers, u: int)
    ensures u in Index(registers) <==> u in Addresses(registers)
    ensures u in Index(registers) ==>
              Index(registers)[u] in registers && registers[Index(registers)[u]].unifiedAddress == u
  {
  }

  lemma {:induction false} TagsRestored(registers: Registers, records: seq<TagRecord>, now: string)
    ensures InsertTags(Index(registers), records, now).Some? <==> TagsFit(Addresses(registers), records)
    ensures InsertTags(Index(registers), records, now).Some? ==>
              TagsReplaced(registers, records, now, InsertTags(Index(registers), records, now).value)
    decreases |records|
  {
    hide TagsFit, TagsReplaced, Index, Addresses;
    if records == [] {
      NoTagRecords(registers, now);
    } else {
      var n := |records| - 1;
      TagsRestored(registers, records[..n], now);
      TagsFitNext(Addresses(registers), records);
      if records[n].unifiedAddress.Some? {
        AddressInIndex(registers, records[n].unifiedAddress.value);
      }
      if InsertTags(Index(registers), records[..n], now).Some? {
        NextTagRecord(registers, records, now, InsertTags(Index(registers), records[..n], now).value);
      }
    }
  }

  lemma NoTagRecords(registers: Registers, now: string)
    ensures TagsFit(Addresses(registers), []) && TagsReplaced(registers, [], now, map[])
  {
  }

  lemma GivesTagNext(known: set<int>, records: seq<TagRecord>, id: string)
    requires records != []
    ensures GivesTag(known, records, id)
       <==> || GivesTag(known, records[..|records| - 1], id)
            || (Resolves(known, records[|records| - 1]) && records[|records| - 1].id == id)
  {
    var n := |records| - 1;
    if GivesTag(known, records, id) {
      var i :| 0 <= i < |records| && Resolves(known, records[i]) && records[i].id == id;
      assert i < n ==> records[..n][i] == records[i];
    }
    if GivesTag(known, records[..n], id) {
      var i :| 0 <= i < n && Resolves(known, records[..n][i]) && records[..n][i].id == id;
      assert records[i] == records[..n][i];
    }
  }

  lemma TagsFitNext(known: set<int>, records: seq<TagRecord>)
    requires records != []
    ensures var n, r := |records| - 1, records[|records| - 1];
            TagsFit(known, records) <==>
              && TagsFit(known, records[..n])
              && (Resolves(known, r) ==> !r.row.access.OtherAccess? && !GivesTag(known, records[..n], r.id))
  {
    hide Resolves;
    var n, r := |records| - 1, records[|records| - 1];
    if TagsFit(known, records) {
      forall i | 0 <= i < n
        ensures records[..n][i] == records[i]
      {
      }
    }
    if TagsFit(known, records[..n]) && (Resolves(known, r) ==> !GivesTag(known, records[..n], r.id)) {
      forall i, j | 0 <= i < j < |records| && Resolves(known, records[i]) && Resolves(known, records[j])
        ensures records[i].id != records[j].id
      {
        assert records[..n][i] == records[i];
        assert j < n ==> records[..n][j] == records[j];
      }
      forall i | 0 <= i < n && Resolves(known, records[i])
        ensures !records[i].row.access.OtherAccess?
      {
        assert records[..n][i] == records[i];
      }
    }
  }

  lemma NextTagRecord(registers: Registers, records: seq<TagRecord>, now: string, before: Tags)
    requires records != [] && TagsReplaced(registers, records[..|records| - 1], now, before)
    ensures var r := records[|records| - 1];
            && (!Resolves(Addresses(registers), r) ==> TagsReplaced(registers, records, now, before))
            && (r.id in before <==> GivesTag(Addresses(registers), records[..|records| - 1], r.id))
            && (Resolves(Addresses(registers), r) && r.id !in before ==>
                  forall id | id in registers && r.unifiedAddress == Some(registers[id].unifiedAddress) ::
                    TagsReplaced(registers, records, now, before[r.id := TagOf(r, id, now)]))
  {
    hide Addresses, Resolves, GivesTag, TagOfRecord;
    var n, r := |records| - 1, records[|records| - 1];
    forall id
      ensures GivesTag(Addresses(registers), records, id) <==>
                GivesTag(Addresses(registers), records[..n], id) || (Resolves(Addresses(registers), r) && r.id == id)
    {
      GivesTagNext(Addresses(registers), records, id);
    }
    forall i | 0 <= i < n && Resolves(Addresses(registers), records[i])
      ensures records[i].id in before && TagOfRecord(registers, records[i], now, before)
    {
      assert records[..n][i] == records[i];
      TagIsThere(registers, records[i], now, before);
    }
    forall id | id in registers && r.unifiedAddress == Some(registers[id].unifiedAddress) && r.id !in before
      ensures TagOfRecord(registers, r, now, before[r.id := TagOf(r, id, now)])
      ensures forall i | 0 <= i < n && Resolves(Addresses(registers), records[i]) ::
                TagOfRecord(registers, records[i], now, before[r.id := TagOf(r, id, now)])
    {
      TagIsThere(registers, r, now, before[r.id := TagOf(r, id, now)]);
      NewTag(registers, r, id, now, before);
      forall i | 0 <= i < n && Resolves(Addresses(registers), records[i])
        ensures TagOfRecord(registers, records[i], now, before[r.id := TagOf(r, id, now)])
      {
        TagStays(registers, records[i], now, before, r.id, TagOf(r, id, now));
      }
    }
  }

  lemma TagIsThere(registers: Registers, r: TagRecord, now: string, tags: Tags)
    ensures TagOfRecord(registers, r, now, tags) ==> r.id in tags
  {
  }

  lemma NewTag(registers: Registers, r: TagRecord, id: int, now: string, before: Tags)
    requires id in registers && r.unifiedAddress == Some(registers[id].unifiedAddress)
    ensures TagOfRecord(registers, r, now, before[r.id := TagOf(r, id, now)])
  {
  }

  lemma TagStays(registers: Registers, r: TagRecord, now: string, before: Tags, id: string, row: TagRow)
    requires TagOfRecord(registers, r, now, before) && id !in before
    ensures TagOfRecord(registers, r, now, before[id := row])
  {
  }

  // ---------------------------------------------------------------- devices

  // Known protocols, and no code twice.
  ghost predicate DevicesFit(records: seq<DeviceRecord>) {
    && (forall i | 0 <= i < |records| :: !records[i].row.connection.protocol.UnknownProtocol?)
    && (forall i, j | 0 <= i < j < |records| :: records[i].row.code != records[j].row.code)
  }

  /** The devices of the records, in order, under the ids after `base`. */
  ghost predicate DevicesReplaced(base: nat, records: seq<DeviceRecord>, devices: Devices) {
    && (forall id | id in devices :: base < id <= base + |records|)
    && (forall i: nat | i < |records| :: DeviceOf(base, records, i, devices))
  }

  predicate DeviceOf(base: nat, records: seq<DeviceRecord>, i: nat, devices: Devices)
    requires i < |records|
  {
    base + 1 + i in devices && devices[base + 1 + i] == records[i].row
  }

  // Record i is the last one with this old id.
  ghost predicate IsLast(records: seq<DeviceRecord>, former: int, i: nat) {
    i < |records| && records[i].oldId == former && forall j | i < j < |records| :: records[j].oldId != former
  }

  // Each old id is given the new id of its last record.
  ghost predicate MapsIds(base: nat, records: seq<DeviceRecord>, idMap: IdMap) {
    && (forall o | o in idMap :: HasDevice(records, o))
    && (forall o, i | IsLast(records, o, i) :: o in idMap && idMap[o] == base + 1 + i)
  }

  ghost predicate HasDevice(records: seq<DeviceRecord>, o: int) {
    exists i :: IsLast(records, o, i)
  }

  lemma {:induction false} DevicesGiven(db: Database, records: seq<DeviceRecord>)
    requires db.devices == map[]
    ensures InsertDevices(db, records).Some? <==> DevicesFit(records)
    ensures InsertDevices(db, records).Some? ==>
              var (db', idMap) := InsertDevices(db, records).value;
              && db' == db.(devices := db'.devices, deviceSeq := db.deviceSeq + |records|)
              && DevicesReplaced(db.deviceSeq, records, db'.devices)
              && MapsIds(db.deviceSeq, records, idMap)
    decreases |records|
  {
    hide DevicesFit, DevicesReplaced, MapsIds, CodeTaken;
    if records == [] {
      NoDevices(db.deviceSeq);
    } else {
      var n := |records| - 1;
      DevicesGiven(db, records[..n]);
      if InsertDevices(db, records[..n]).Some? {
        var (before, idMap) := InsertDevices(db, records[..n]).value;
        DeviceFitsNext(db.deviceSeq, records, before.devices);
        NextDeviceGiven(db.deviceSeq, records, before.devices);
        NextIdGiven(db.deviceSeq, records, idMap);
      } else {
        FitsOnlyIfBefore(records);
      }
    }
  }

  lemma NoDevices(base: nat)
    ensures DevicesFit([]) && DevicesReplaced(base, [], map[]) && MapsIds(base, [], map[])
  {
  }

  lemma FitsOnlyIfBefore(records: seq<DeviceRecord>)
    requires records != [] && !DevicesFit(records[..|records| - 1])
    ensures !DevicesFit(records)
  {
    assert forall i | 0 <= i < |records| - 1 :: records[..|records| - 1][i] == records[i];
  }

  lemma DeviceFitsNext(base: nat, records: seq<DeviceRecord>, before: Devices)
    requires records != []
    requires DevicesFit(records[..|records| - 1]) && DevicesReplaced(base, records[..|records| - 1], before)
    ensures DevicesFit(records)
       <==> && !records[|records| - 1].row.connection.protocol.UnknownProtocol?
            && !CodeTaken(before, records[|records| - 1].row.code, 0)
  {
    var n, r := |records| - 1, records[|records| - 1];
    assert forall i | 0 <= i < n :: records[..n][i] == records[i];
    if CodeTaken(before, r.row.code, 0) {
      var id :| id in before && id != 0 && before[id].code == r.row.code;
      assert DeviceOf(base, records[..n], id - base - 1, before);
      assert records[id - base - 1].row.code == records[n].row.code;
    } else {
      forall i | 0 <= i < n
        ensures records[i].row.code != records[n].row.code
      {
        assert DeviceOf(base, records[..n], i, before);
      }
    }
  }

  lemma NextDeviceGiven(base: nat, records: seq<DeviceRecord>, before: Devices)
    requires records != [] && DevicesReplaced(base, records[..|records| - 1], before)
    ensures DevicesReplaced(base, records, before[base + |records| := records[|records| - 1].row])
  {
    var n, after := |records| - 1, before[base + |records| := records[|records| - 1].row];
    forall i: nat | i < |records|
      ensures DeviceOf(base, records, i, after)
    {
      assert i < n ==> DeviceOf(base, records[..n], i, before);
    }
  }

  lemma IsLastNext(records: seq<DeviceRecord>, o: int, i: nat)
    requires records != []
    ensures IsLast(records, o, i)
         == var n := |records| - 1;
            if i < n then IsLast(records[..n], o, i) && records[n].oldId != o
            else i == n && records[n].oldId == o
  {
    var n := |records| - 1;
    if i < n {
      assert forall j | 0 <= j < n :: records[..n][j] == records[j];
    }
  }

  lemma NextIdGiven(base: nat, records: seq<DeviceRecord>, idMap: IdMap)
    requires records != [] && MapsIds(base, records[..|records| - 1], idMap)
    ensures MapsIds(base, records, idMap[records[|records| - 1].oldId := base + |records|])
  {
    hide IsLast;
    var n, after := |records| - 1, idMap[records[|records| - 1].oldId := base + |records|];
    forall o, i | IsLast(records, o, i)
      ensures o in after && after[o] == base + 1 + i
    {
      IsLastNext(records, o, i);
    }
    forall o | o in after
      ensures HasDevice(records, o)
    {
      if o == records[n].oldId {
        IsLastNext(records, o, n);
        assert IsLast(records, o, n);
      } else {
        assert HasDevice(records[..n], o);
        var i :| IsLast(records[..n], o, i);
        IsLastBounded(records[..n], o, i);
        IsLastNext(records, o, i);
        assert IsLast(records, o, i);
      }
    }
  }

  lemma IsLastBounded(records: seq<DeviceRecord>, o: int, i: nat)
    requires IsLast(records, o, i)
    ensures i < |records|
  {
  }

  // ---------------------------------------------------------------- registers

  // The record's device is in the backup.
  ghost predicate Owned(devices: seq<DeviceRecord>, r: RegisterRow) {
    HasDevice(devices, r.deviceId)
  }

  // How many of the first k records have a device.
  ghost function OwnedBefore(devices: seq<DeviceRecord>, records: seq<RegisterRow>, k: nat): nat
    requires k <= |records|
  {
    if k == 0 then 0 else OwnedBefore(devices, records, k - 1) + if Owned(devices, records[k - 1]) then 1 else 0
  }

  // Of the records with a device: a type the column allows, and no assigned address twice.
  ghost predicate RegistersFit(devices: seq<DeviceRecord>, records: seq<RegisterRow>) {
    && (forall k | 0 <= k < |records| && Owned(devices, records[k]) :: !records[k].typeText.OtherText?)
    && (forall k, l | 0 <= k < l < |records| && Owned(devices, records[k]) && Owned(devices, records[l])
                      && records[k].unifiedAddress >= 0 ::
          records[k].unifiedAddress != records[l].unifiedAddress)
  }

  ghost function NewId(base: nat, devices: seq<DeviceRecord>, records: seq<RegisterRow>, k: nat): int
    requires k <= |records|
  {
    base + 1 + OwnedBefore(devices, records, k)
  }

  // Record k on the new id of its device, otherwise as recorded, under the next id.
  ghost predicate RegisterOf(deviceBase: nat, base: nat, devices: seq<DeviceRecord>, records: seq<RegisterRow>, k: nat,
                             registers: Registers)
    requires k < |records|
  {
    var id := NewId(base, devices, records, k);
    && id in registers && registers[id] == records[k].(deviceId := registers[id].deviceId)
    && forall i: nat | IsLast(devices, records[k].deviceId, i) :: registers[id].deviceId == deviceBase + 1 + i
  }

  ghost predicate FromRecord(base: nat, devices: seq<DeviceRecord>, records: seq<RegisterRow>, id: int) {
    exists k: nat :: k < |records| && Owned(devices, records[k]) && id == NewId(base, devices, records, k)
  }

  /** A register for each record with a device, in order, and no other. */
  ghost predicate RegistersReplaced(deviceBase: nat, base: nat, devices: seq<DeviceRecord>, records: seq<RegisterRow>,
                                    registers: Registers)
  {
    && (forall k: nat | k < |records| && Owned(devices, records[k]) ::
          RegisterOf(deviceBase, base, devices, records, k, registers))
    && (forall id | id in registers :: FromRecord(base, devices, records, id))
  }

  lemma {:induction false} RegistersGiven(db: Database, deviceBase: nat, devices: seq<DeviceRecord>, idMap: IdMap,
                                          records: seq<RegisterRow>)
    requires db.registers == map[] && MapsIds(deviceBase, devices, idMap)
    requires DevicesReplaced(deviceBase, devices, db.devices)
    ensures InsertRegisters(db, idMap, records).Some? <==> RegistersFit(devices, records)
    ensures InsertRegisters(db, idMap, records).Some? ==>
              var db' := InsertRegisters(db, idMap, records).value;
              && db' == db.(registers := db'.registers,
                            registerSeq := db.registerSeq + OwnedBefore(devices, records, |records|))
              && RegistersReplaced(deviceBase, db.registerSeq, devices, records, db'.registers)
    decreases |records|
  {
    hide RegistersFit, RegistersReplaced, MapsIds, DevicesReplaced, AddressTaken, OwnedBefore, Owned, RowFits;
    if records == [] {
      NoRegisters(deviceBase, db.registerSeq, devices);
    } else {
      var n := |records| - 1;
      RegistersGiven(db, deviceBase, devices, idMap, records[..n]);
      OwnedNext(devices, records);
      OwnerMapped(deviceBase, devices, idMap, records[n], db.devices);
      if InsertRegisters(db, idMap, records[..n]).Some? {
        var before := InsertRegisters(db, idMap, records[..n]).value;
        RegisterFitsNext(deviceBase, devices, records, before, db.registerSeq, idMap);
        if Owned(devices, records[n]) {
          RegisterAdded(deviceBase, db.registerSeq, devices, records, before.registers, idMap[records[n].deviceId]);
        } else {
          RegisterSkipped(deviceBase, db.registerSeq, devices, records, before.registers);
        }
      } else {
        RegistersFitOnlyIfBefore(devices, records);
      }
    }
  }

  lemma NoRegisters(deviceBase: nat, base: nat, devices: seq<DeviceRecord>)
    ensures RegistersFit(devices, []) && RegistersReplaced(deviceBase, base, devices, [], map[])
    ensures OwnedBefore(devices, [], 0) == 0
  {
  }

  lemma OwnedNext(devices: seq<DeviceRecord>, records: seq<RegisterRow>)
    requires records != []
    ensures OwnedBefore(devices, records, |records|)
         == OwnedBefore(devices, records[..|records| - 1], |records| - 1)
            + if Owned(devices, records[|records| - 1]) then 1 else 0
  {
    OwnedSame(devices, records, |records| - 1);
  }

  lemma {:induction false} OwnedSame(devices: seq<DeviceRecord>, records: seq<RegisterRow>, k: nat)
    requires k < |records|
    ensures OwnedBefore(devices, records[..|records| - 1], k) == OwnedBefore(devices, records, k)
  {
    hide Owned;
    if k > 0 {
      OwnedSame(devices, records, k - 1);
    }
  }

  // A record's device has a new id exactly if it is in the backup.
  lemma OwnerMapped(deviceBase: nat, devices: seq<DeviceRecord>, idMap: IdMap, r: RegisterRow, rows: Devices)
    requires MapsIds(deviceBase, devices, idMap) && DevicesReplaced(deviceBase, devices, rows)
    ensures Owned(devices, r) <==> r.deviceId in idMap
    ensures Owned(devices, r) ==> idMap[r.deviceId] in rows && GoesTo(deviceBase, devices, r, idMap[r.deviceId])
  {
    hide IsLast;
    if Owned(devices, r) {
      var i: nat :| IsLast(devices, r.deviceId, i);
      IsLastBounded(devices, r.deviceId, i);
      assert DeviceOf(deviceBase, devices, i, rows);
    }
  }

  // The new id of the record's device.
  ghost predicate GoesTo(deviceBase: nat, devices: seq<DeviceRecord>, r: RegisterRow, newId: int) {
    forall i: nat | IsLast(devices, r.deviceId, i) :: newId == deviceBase + 1 + i
  }

  lemma RegistersFitOnlyIfBefore(devices: seq<DeviceRecord>, records: seq<RegisterRow>)
    requires records != [] && !RegistersFit(devices, records[..|records| - 1])
    ensures !RegistersFit(devices, records)
  {
    hide Owned;
    assert forall k | 0 <= k < |records| - 1 :: records[..|records| - 1][k] == records[k];
  }

  lemma RegisterFitsNext(deviceBase: nat, devices: seq<DeviceRecord>, records: seq<RegisterRow>, before: Database,
                         base: nat, idMap: IdMap)
    requires records != [] && RegistersFit(devices, records[..|records| - 1])
    requires RegistersReplaced(deviceBase, base, devices, records[..|records| - 1], before.registers)
    requires var r := records[|records| - 1];
             && (Owned(devices, r) <==> r.deviceId in idMap)
             && (Owned(devices, r) ==> idMap[r.deviceId] in before.devices)
    ensures RegistersFit(devices, records) <==>
              var r := records[|records| - 1];
              r.deviceId in idMap ==> RowFits(before, r.(deviceId := idMap[r.deviceId]))
  {
    hide Owned, AddressTaken, RegistersReplaced, AddressGiven, RegistersFit;
    var n, r := |records| - 1, records[|records| - 1];
    TakenIff(deviceBase, base, devices, records[..n], before.registers, r.unifiedAddress);
    FitsNext(devices, records);
  }

  ghost predicate AddressGiven(devices: seq<DeviceRecord>, records: seq<RegisterRow>, u: int) {
    exists k: nat :: k < |records| && Owned(devices, records[k]) && records[k].unifiedAddress == u
  }

  lemma FitsNext(devices: seq<DeviceRecord>, records: seq<RegisterRow>)
    requires records != [] && RegistersFit(devices, records[..|records| - 1])
    ensures RegistersFit(devices, records) <==>
              var r := records[|records| - 1];
              Owned(devices, r) ==>
                && !r.typeText.OtherText?
                && (r.unifiedAddress >= 0 ==> !AddressGiven(devices, records[..|records| - 1], r.unifiedAddress))
  {
    hide Owned;
    var n, r := |records| - 1, records[|records| - 1];
    assert forall k | 0 <= k < n :: records[..n][k] == records[k];
    if Owned(devices, r) ==> r.unifiedAddress >= 0 ==> !AddressGiven(devices, records[..n], r.unifiedAddress) {
      forall k, l | 0 <= k < l < |records| && Owned(devices, records[k]) && Owned(devices, records[l])
                    && records[k].unifiedAddress >= 0
        ensures records[k].unifiedAddress != records[l].unifiedAddress
      {
        assert records[..n][k] == records[k];
      }
    }
  }

  // The addresses of the registers are those of the records.
  lemma TakenIff(deviceBase: nat, base: nat, devices: seq<DeviceRecord>, records: seq<RegisterRow>,
                 registers: Registers, u: int)
    requires RegistersReplaced(deviceBase, base, devices, records, registers)
    ensures AddressTaken(registers, u, 0) <==> AddressGiven(devices, records, u)
  {
    hide Owned, NewId, RegisterOf;
    if AddressTaken(registers, u, 0) {
      var id :| id in registers && id != 0 && registers[id].unifiedAddress == u;
      assert FromRecord(base, devices, records, id);
      var k: nat :| k < |records| && Owned(devices, records[k]) && id == NewId(base, devices, records, k);
      RegisterAddress(deviceBase, base, devices, records, k, registers);
    }
    if AddressGiven(devices, records, u) {
      var k: nat :| k < |records| && Owned(devices, records[k]) && records[k].unifiedAddress == u;
      RegisterAddress(deviceBase, base, devices, records, k, registers);
    }
  }

  lemma RegisterAddress(deviceBase: nat, base: nat, devices: seq<DeviceRecord>, records: seq<RegisterRow>, k: nat,
                        registers: Registers)
    requires k < |records|
    ensures RegisterOf(deviceBase, base, devices, records, k, registers) ==>
              var id := NewId(base, devices, records, k);
              id > 0 && id in registers && registers[id].unifiedAddress == records[k].unifiedAddress
  {
    hide IsLast;
  }

  // A record's register is still there among one more.
  lemma RegisterStays(deviceBase: nat, base: nat, devices: seq<DeviceRecord>, records: seq<RegisterRow>, k: nat,
                      before: Registers, after: Registers)
    requires k < |records| - 1 && RegisterOf(deviceBase, base, devices, records[..|records| - 1], k, before)
    requires forall id | id in before :: id in after && after[id] == before[id]
    ensures RegisterOf(deviceBase, base, devices, records, k, after)
  {
    hide IsLast, OwnedBefore;
    OwnedSame(devices, records, k);
  }

  lemma RegisterSkipped(deviceBase: nat, base: nat, devices: seq<DeviceRecord>, records: seq<RegisterRow>,
                        before: Registers)
    requires records != [] && RegistersReplaced(deviceBase, base, devices, records[..|records| - 1], before)
    requires !Owned(devices, records[|records| - 1])
    ensures RegistersReplaced(deviceBase, base, devices, records, before)
  {
    hide Owned, RegisterOf, FromRecord;
    var n := |records| - 1;
    forall k: nat | k < |records| && Owned(devices, records[k])
      ensures RegisterOf(deviceBase, base, devices, records, k, before)
    {
      assert records[..n][k] == records[k];
      RegisterStays(deviceBase, base, devices, records, k, before, before);
    }
    forall x | x in before
      ensures FromRecord(base, devices, records, x)
    {
      StillFrom(base, devices, records, x);
    }
  }

  lemma StillFrom(base: nat, devices: seq<DeviceRecord>, records: seq<RegisterRow>, x: int)
    requires records != [] && FromRecord(base, devices, records[..|records| - 1], x)
    ensures FromRecord(base, devices, records, x)
    ensures x < NewId(base, devices, records, |records| - 1)
  {
    hide OwnedBefore, Owned;
    var init := records[..|records| - 1];
    var k: nat :| k < |init| && Owned(devices, init[k]) && x == NewId(base, devices, init, k);
    OwnedSame(devices, records, k);
    assert records[k] == init[k];
    OwnedGrows(devices, records, k, |init|);
    assert x == NewId(base, devices, records, k);
  }

  lemma RegisterAdded(deviceBase: nat, base: nat, devices: seq<DeviceRecord>, records: seq<RegisterRow>,
                      before: Registers, newId: int)
    requires records != [] && RegistersReplaced(deviceBase, base, devices, records[..|records| - 1], before)
    requires Owned(devices, records[|records| - 1]) && GoesTo(deviceBase, devices, records[|records| - 1], newId)
    ensures var n := |records| - 1;
            var id := base + OwnedBefore(devices, records[..n], n) + 1;
            RegistersReplaced(deviceBase, base, devices, records, before[id := records[n].(deviceId := newId)])
  {
    hide OwnedBefore, Owned, RegisterOf, FromRecord, GoesTo;
    var n := |records| - 1;
    var id := base + OwnedBefore(devices, records[..n], n) + 1;
    var after := before[id := records[n].(deviceId := newId)];
    OwnedSame(devices, records, n);
    assert id == NewId(base, devices, records, n);
    hide NewId;
    forall x | x in before
      ensures x != id && FromRecord(base, devices, records, x)
    {
      StillFrom(base, devices, records, x);
    }
    forall k: nat | k < n && Owned(devices, records[k])
      ensures RegisterOf(deviceBase, base, devices, records, k, after)
    {
      assert records[..n][k] == records[k];
      RegisterStays(deviceBase, base, devices, records, k, before, after);
    }
    LastRegister(deviceBase, base, devices, records, after, newId);
  }

  lemma LastRegister(deviceBase: nat, base: nat, devices: seq<DeviceRecord>, records: seq<RegisterRow>,
                     after: Registers, newId: int)
    requires records != [] && Owned(devices, records[|records| - 1])
    requires GoesTo(deviceBase, devices, records[|records| - 1], newId)
    requires var id := NewId(base, devices, records, |records| - 1);
             id in after && after[id] == records[|records| - 1].(deviceId := newId)
    ensures RegisterOf(deviceBase, base, devices, records, |records| - 1, after)
    ensures FromRecord(base, devices, records, NewId(base, devices, records, |records| - 1))
  {
    hide IsLast, Owned, NewId;
  }

  // Each record with a device has its own number.
  lemma {:induction false} OwnedGrows(devices: seq<DeviceRecord>, records: seq<RegisterRow>, k: nat, n: nat)
    requires k < n <= |records| && Owned(devices, records[k])
    ensures OwnedBefore(devices, records, k) < OwnedBefore(devices, records, n)
  {
    hide Owned;
    if k < n - 1 {
      OwnedGrows(devices, records, k, n - 1);
    }
  }

  // ---------------------------------------------------------------- the whole restore

  // The addresses that the registers have once devices are restored, if they are.
  ghost function KnownAddresses(db: Database, backup: Backup, devices: bool): set<int> {
    if devices then
      set k | 0 <= k < |backup.registers| && Owned(backup.devices, backup.registers[k])
              && backup.registers[k].unifiedAddress >= 0 :: backup.registers[k].unifiedAddress
    else Addresses(db.registers)
  }

  /** The backup meets the constraints, as far as it is restored. */
  ghost predicate Restorable(db: Database, backup: Backup, devices: bool, hmi: bool) {
    && (devices ==> DevicesFit(backup.devices) && RegistersFit(backup.devices, backup.registers))
    && (hmi ==> IdsDistinct(backup.hmi.screens) && TagsFit(KnownAddresses(db, backup, devices), backup.tags))
  }

  /** What is restored is the backup's, under fresh ids; the rest is as it was, and tags that are not
      restored stay with the addresses of their registers. */
  ghost predicate RestoredTo(db: Database, backup: Backup, devices: bool, hmi: bool, now: string, db': Database) {
    && (if devices then
          && DevicesReplaced(db.deviceSeq, backup.devices, db'.devices)
          && db'.deviceSeq == db.deviceSeq + |backup.devices|
          && RegistersReplaced(db.deviceSeq, db.registerSeq, backup.devices, backup.registers, db'.registers)
          && db'.registerSeq
             == db.registerSeq + OwnedBefore(backup.devices, backup.registers, |backup.registers|)
        else
          && db'.devices == db.devices && db'.deviceSeq == db.deviceSeq
          && db'.registers == db.registers && db'.registerSeq == db.registerSeq)
    && (if hmi then
          && HmiReplaced(backup.hmi, db'.hmi)
          && TagsReplaced(db'.registers, backup.tags, now, db'.tags)
        else
          && db'.hmi == db.hmi
          && if devices then Conserved(db.tags, db.registers, db'.tags, db'.registers) else db'.tags == db.tags)
  }

  lemma DevicePartGiven(db: Database, backup: Backup)
    ensures DevicesRestored(db, backup).Some?
       <==> DevicesFit(backup.devices) && RegistersFit(backup.devices, backup.registers)
    ensures DevicesRestored(db, backup).Some? ==>
              var db' := DevicesRestored(db, backup).value;
              && DevicesReplaced(db.deviceSeq, backup.devices, db'.devices)
              && RegistersReplaced(db.deviceSeq, db.registerSeq, backup.devices, backup.registers, db'.registers)
              && db' == Database(db'.devices, db.deviceSeq + |backup.devices|, db'.registers,
                                 db.registerSeq + OwnedBefore(backup.devices, backup.registers, |backup.registers|),
                                 map[], db.hmi)
  {
    hide InsertDevices, InsertRegisters, DevicesFit, RegistersFit, DevicesReplaced, RegistersReplaced, MapsIds,
         OwnedBefore;
    DevicesGiven(Cleared(db), backup.devices);
    var devices := InsertDevices(Cleared(db), backup.devices);
    if devices.Some? {
      RegistersGiven(devices.value.0, db.deviceSeq, backup.devices, devices.value.1, backup.registers);
    }
  }

  lemma SameAddresses(db: Database, backup: Backup, registers: Registers)
    requires PositiveIds(registers)
    requires RegistersReplaced(db.deviceSeq, db.registerSeq, backup.devices, backup.registers, registers)
    ensures Addresses(registers) == KnownAddresses(db, backup, true)
  {
    hide Owned, RegistersReplaced;
    forall u
      ensures u in Addresses(registers) <==> u in KnownAddresses(db, backup, true)
    {
      TakenIff(db.deviceSeq, db.registerSeq, backup.devices, backup.registers, registers, u);
      if u in Addresses(registers) {
        var id := IdAt(registers, u);
        assert AddressTaken(registers, u, 0);
      }
    }
  }

  /** For every backup and every choice of parts: a restore goes through exactly when the backup meets
      the constraints, and then restores it. */
  lemma RestoreGives(db: Database, backup: Backup, devices: bool, hmi: bool, now: string)
    requires Constraints(db)
    ensures TagsOk(db.tags, db.registers.Keys)
    ensures var (db', ok) := RestoredAll(db, backup, devices, hmi, now);
            && (ok <==> Restorable(db, backup, devices, hmi))
            && (ok ==> RestoredTo(db, backup, devices, hmi, now, db'))
            && (!ok ==> db' == db)
  {
    hide Constraints, DevicesRestored, DevicesFit, RegistersFit, DevicesReplaced, RegistersReplaced, OwnedBefore,
         IdsDistinct, TagsFit, HmiReplaced, TagsReplaced, InsertTags, Restored, Relinked, TagsOk, Conserved, Index,
         Addresses, KnownAddresses;
    ConstraintsIncludeTags(db);
    var first := if devices then DevicesRestored(db, backup) else Some(db);
    if devices {
      DevicePartGiven(db, backup);
      DevicesRestoredKeeps(db, backup);
    }
    if first.Some? {
      ConstraintsGivePositiveIds(first.value);
      if devices {
        SameAddresses(db, backup, first.value.registers);
      }
      RestoreMeans(db.hmi, backup.hmi);
      TagsRestored(first.value.registers, backup.tags, now);
      NotDevices(db, backup);
      if devices && !hmi {
        RelinkConserves(db.tags, db.registers, first.value.registers);
      }
    }
  }

  lemma NotDevices(db: Database, backup: Backup)
    ensures KnownAddresses(db, backup, false) == Addresses(db.registers)
  {
  }
}
