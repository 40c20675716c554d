/** Writing a backup of devices, registers, HMI and tags. Queries list rows in an order that does
    not matter, except for screens. */
module BackupManager {
  import opened Wrappers
  import opened DeviceModels
  import opened HmiListing
  import opened HmiStore
  import opened DeviceTables
  import opened RestoreData

  // ---------------------------------------------------------------- listings

  // Every key once, in some order: what a query without further conditions returns.
  ghost predicate Lists<K(!new)>(order: seq<K>, keys: set<K>) {
    && (forall i, j | 0 <= i < j < |order| :: order[i] != order[j])
    && (forall i | 0 <= i < |order| :: order[i] in keys)
    && (forall k | k in keys :: k in order)
  }

  lemma PrefixOfListing<K(!new)>(order: seq<K>, keys: set<K>, k: nat)
    requires Lists(order, keys) && k < |order|
    ensures order[k] !in order[..k] && order[..k + 1] == order[..k] + [order[k]]
  {
  }

  // ---------------------------------------------------------------- the printed records

  // The poll mode is not written; a restore reads it as Auto.
  function WithoutMode(row: DeviceRow): DeviceRow {
    row.(polling := row.polling.(mode := Auto))
  }

  function PrintedDevice(db: Database, id: int): DeviceRecord
    requires id in db.devices
  {
    DeviceRecord(id, WithoutMode(db.devices[id]))
  }

  // The type text is printed from what it was read as.
  function PrintedRegister(db: Database, id: int): RegisterRow
    requires id in db.registers
  {
    db.registers[id].(typeText := PrintType(ParseType(db.registers[id].typeText)))
  }

  function PrintedScreen(screens: Screens, id: string): ScreenRecord
    requires id in screens
  {
    var s := screens[id];
    ScreenRecord(id, s.title, s.content, s.revision, s.updatedAt, s.updatedBy)
  }

  // A tag's register is written as its unified address.
  function PrintedTag(db: Database, id: string): TagRecord
    requires id in db.tags
  {
    var tag := db.tags[id];
    var u := if tag.registerId in db.registers then db.registers[tag.registerId].unifiedAddress else -1;
    TagRecord(id, Some(u), tag.(registerId := -1, createdAt := "", updatedAt := ""))
  }

  ghost predicate PrintsDevices(db: Database, order: seq<int>, records: seq<DeviceRecord>) {
    && Lists(order, db.devices.Keys) && |records| == |order|
    && forall i | 0 <= i < |order| :: records[i] == PrintedDevice(db, order[i])
  }

  ghost predicate PrintsRegisters(db: Database, order: seq<int>, records: seq<RegisterRow>) {
    && Lists(order, db.registers.Keys) && |records| == |order|
    && forall i | 0 <= i < |order| :: records[i] == PrintedRegister(db, order[i])
  }

  ghost predicate PrintsScreens(screens: Screens, listing: seq<string>, records: seq<ScreenRecord>) {
    && IsListing(screens, listing) && |records| == |listing|
    && forall i | 0 <= i < |listing| :: records[i] == PrintedScreen(screens, listing[i])
  }

  ghost predicate PrintsTags(db: Database, order: seq<string>, records: seq<TagRecord>) {
    && Lists(order, db.tags.Keys) && |records| == |order|
    && forall i | 0 <= i < |order| :: records[i] == PrintedTag(db, order[i])
  }

  // The orders in which the queries list the rows; only that of the screens is fixed.
  datatype Orders = Orders(devices: seq<int>, registers: seq<int>, screens: seq<string>, tags: seq<string>)

  ghost predicate IsBackup(db: Database, orders: Orders, backup: Backup) {
    && PrintsDevices(db, orders.devices, backup.devices)
    && PrintsRegisters(db, orders.registers, backup.registers)
    && PrintsScreens(db.hmi.screens, orders.screens, backup.hmi.screens)
    && backup.hmi.project == ProjectOf(db.hmi)
    && PrintsTags(db, orders.tags, backup.tags)
  }

  // ---------------------------------------------------------------- writing the backup

  // Ids of the registers of one device.
  ghost function RegistersOn(db: Database, device: int): set<int> {
    set id | id in db.registers && db.registers[id].deviceId == device
  }

  ghost function RegistersAmong(db: Database, devices: seq<int>): set<int> {
    set id | id in db.registers && db.registers[id].deviceId in devices
  }

  /** What loading the devices returns: every device once, each with every register of its own once. */
  ghost predicate IsLoad(db: Database, order: seq<int>, registersOf: seq<seq<int>>) {
    && Lists(order, db.devices.Keys) && |registersOf| == |order|
    && forall i | 0 <= i < |order| :: Lists(registersOf[i], RegistersOn(db, order[i]))
  }

  function Flatten(parts: seq<seq<int>>): seq<int> {
    if parts == [] then [] else Flatten(parts[..|parts| - 1]) + parts[|parts| - 1]
  }

  lemma {:induction false} FlattenLists(db: Database, order: seq<int>, registersOf: seq<seq<int>>, k: nat)
    requires IsLoad(db, order, registersOf) && k <= |order|
    ensures Lists(Flatten(registersOf[..k]), RegistersAmong(db, order[..k]))
    decreases k
  {
    hide Lists;
    if k == 0 {
      assert registersOf[..0] == [] && order[..0] == [];
      NothingListed(RegistersAmong(db, []));
    } else {
      FlattenLists(db, order, registersOf, k - 1);
      assert registersOf[..k][..k - 1] == registersOf[..k - 1];
      PrefixOfListing(order, db.devices.Keys, k - 1);
      var x, y := RegistersAmong(db, order[..k - 1]), RegistersOn(db, order[k - 1]);
      JoinLists(Flatten(registersOf[..k - 1]), registersOf[k - 1], x, y);
      assert RegistersAmong(db, order[..k]) == x + y;
    }
  }

  lemma NothingListed(keys: set<int>)
    requires keys == {}
    ensures Lists([], keys)
  {
  }

  lemma JoinLists<K(!new)>(a: seq<K>, b: seq<K>, x: set<K>, y: set<K>)
    requires Lists(a, x) && Lists(b, y) && forall k | k in x :: k !in y
    ensures Lists(a + b, x + y)
  {
    var c := a + b;
    forall i, j | 0 <= i < j < |c|
      ensures c[i] != c[j]
    {
      if i < |a| {
        assert a[i] in x;
      }
      if j >= |a| {
        assert b[j - |a|] in y;
      }
    }
  }

  lemma AllRegistersListed(db: Database, order: seq<int>, registersOf: seq<seq<int>>)
    requires Constraints(db) && IsLoad(db, order, registersOf)
    ensures Lists(Flatten(registersOf), db.registers.Keys)
  {
    FlattenLists(db, order, registersOf, |order|);
    assert registersOf[..|order|] == registersOf && order[..|order|] == order;
    forall id | id in db.registers
      ensures db.registers[id].deviceId in order
    {
      assert RegisterOk(id, db.registers[id], db.registerSeq, db.devices.Keys);
    }
    assert RegistersAmong(db, order) == db.registers.Keys;
  }

  method BuildDevices(db: Database, order: seq<int>) returns (arr: seq<DeviceRecord>)
    requires Lists(order, db.devices.Keys)
    ensures PrintsDevices(db, order, arr)
  {
    arr := [];
    for i := 0 to |order|
      invariant |arr| == i
      invariant forall k | 0 <= k < i :: arr[k] == PrintedDevice(db, order[k])
    {
      var d := db.devices[order[i]];
      var row := DeviceRow(d.code, d.name, d.displayName, d.connection,
                           Polling(Auto, d.polling.intervalMs, d.polling.retryCount), d.enabled);
      arr := arr + [DeviceRecord(order[i], row)];
    }
  }

  method BuildRegisters(db: Database, order: seq<int>, registersOf: seq<seq<int>>) returns (arr: seq<RegisterRow>)
    requires Constraints(db) && IsLoad(db, order, registersOf)
    ensures PrintsRegisters(db, Flatten(registersOf), arr)
  {
    hide PrintedRegister, Constraints;
    ghost var all := Flatten(registersOf);
    AllRegistersListed(db, order, registersOf);
    arr := [];
    for i := 0 to |order|
      invariant |arr| == |Flatten(registersOf[..i])|
      invariant forall k | 0 <= k < |arr| :: Flatten(registersOf[..i])[k] in db.registers
      invariant forall k | 0 <= k < |arr| :: arr[k] == PrintedRegister(db, Flatten(registersOf[..i])[k])
    {
      assert registersOf[..i + 1][..i] == registersOf[..i];
      ghost var before := Flatten(registersOf[..i]);
      for j := 0 to |registersOf[i]|
        invariant |arr| == |before| + j
        invariant forall k | 0 <= k < |arr| :: (before + registersOf[i][..j])[k] in db.registers
        invariant forall k | 0 <= k < |arr| :: arr[k] == PrintedRegister(db, (before + registersOf[i][..j])[k])
      {
        var f := registersOf[i][j];
        assert before + registersOf[i][..j + 1] == before + registersOf[i][..j] + [f];
        arr := arr + [PrintedRegister(db, f)];
      }
      assert registersOf[i][..|registersOf[i]|] == registersOf[i];
    }
    assert registersOf[..|order|] == registersOf;
  }

  ghost predicate GivesAddresses(db: Database, unified: map<int, int>) {
    && (forall id :: id in unified <==> id in db.registers)
    && (forall id | id in unified :: unified[id] == db.registers[id].unifiedAddress)
  }

  // The unified address of every loaded register, by register id.
  method UnifiedById(db: Database, order: seq<int>, registersOf: seq<seq<int>>) returns (unified: map<int, int>)
    requires Constraints(db) && IsLoad(db, order, registersOf)
    ensures GivesAddresses(db, unified)
  {
    unified := map[];
    for i := 0 to |order|
      invariant forall id | id in unified :: id in db.registers && unified[id] == db.registers[id].unifiedAddress
      invariant forall id | id in db.registers && db.registers[id].deviceId in order[..i] :: id in unified
    {
      ghost var before := unified;
      for j := 0 to |registersOf[i]|
        invariant forall id | id in before :: id in unified
        invariant forall id | id in unified :: id in db.registers && unified[id] == db.registers[id].unifiedAddress
        invariant forall k | 0 <= k < j :: registersOf[i][k] in unified
      {
        var f := registersOf[i][j];
        unified := unified[f := db.registers[f].unifiedAddress];
      }
      PrefixOfListing(order, db.devices.Keys, i);
      forall id | id in RegistersOn(db, order[i])
        ensures id in unified
      {
        var k :| 0 <= k < |registersOf[i]| && registersOf[i][k] == id;
      }
    }
    assert order[..|order|] == order;
    forall id: int
      ensures id in unified <==> id in db.registers
    {
      if id in db.registers {
        assert RegisterOk(id, db.registers[id], db.registerSeq, db.devices.Keys);
        assert db.registers[id].deviceId in order;
      }
    }
  }

  method BuildScreens(screens: Screens, listing: seq<string>) returns (arr: seq<ScreenRecord>)
    requires IsListing(screens, listing)
    ensures PrintsScreens(screens, listing, arr)
  {
    arr := [];
    for i := 0 to |listing|
      invariant |arr| == i
      invariant forall k | 0 <= k < i :: arr[k] == PrintedScreen(screens, listing[k])
    {
      var full := screens[listing[i]];
      arr := arr + [ScreenRecord(listing[i], full.title, full.content, full.revision, full.updatedAt, full.updatedBy)];
    }
  }

  method BuildTags(db: Database, unified: map<int, int>, order: seq<string>) returns (arr: seq<TagRecord>)
    requires GivesAddresses(db, unified)
    requires Lists(order, db.tags.Keys)
    ensures PrintsTags(db, order, arr)
  {
    arr := [];
    for i := 0 to |order|
      invariant |arr| == i
      invariant forall k | 0 <= k < i :: arr[k] == PrintedTag(db, order[k])
    {
      var t := db.tags[order[i]];
      var u := if t.registerId in unified then unified[t.registerId] else -1;
      arr := arr + [TagRecord(order[i], Some(u),
                              TagRow(t.name, -1, t.unit, t.minValue, t.maxValue, t.decimals, t.access, "", ""))];
    }
  }

  /** The whole backup, from the rows in the orders the queries list them. */
  method BuildAll(db: Database, order: seq<int>, registersOf: seq<seq<int>>, listing: seq<string>,
                  tagOrder: seq<string>)
    returns (backup: Backup)
    requires Constraints(db) && IsLoad(db, order, registersOf)
    requires IsListing(db.hmi.screens, listing) && Lists(tagOrder, db.tags.Keys)
    ensures IsBackup(db, Orders(order, Flatten(registersOf), listing, tagOrder), backup)
  {
    hide Constraints, IsLoad, Lists, PrintsDevices, PrintsRegisters, PrintsScreens, PrintsTags, IsListing;
    assert Lists(order, db.devices.Keys) by {
      LoadListsDevices(db, order, registersOf);
    }
    var devices := BuildDevices(db, order);
    var registers := BuildRegisters(db, order, registersOf);
    var screens := BuildScreens(db.hmi.screens, listing);
    var unified := UnifiedById(db, order, registersOf);
    var tags := BuildTags(db, unified, tagOrder);
    backup := Backup(devices, registers, HmiBackup(ProjectOf(db.hmi), screens), tags);
  }

  lemma LoadListsDevices(db: Database, order: seq<int>, registersOf: seq<seq<int>>)
    requires IsLoad(db, order, registersOf)
    ensures Lists(order, db.devices.Keys)
  {
  }
}
