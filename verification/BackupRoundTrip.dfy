/** What restoring a backup gives: the same database up to a renaming of device and register ids. */
module BackupRoundTrip {
  import opened Wrappers
  import opened HmiListing
  import opened HmiStore
  import opened DeviceTables
  import opened RestoreData
  import opened BackupManager

  // ---------------------------------------------------------------- devices come back

  lemma {:induction false} DevicesComeBack(db: Database, order: seq<int>, records: seq<DeviceRecord>,
                                           start: Database, k: nat)
    requires Constraints(db) && PrintsDevices(db, order, records) && start.devices == map[] && k <= |order|
    ensures var r := InsertDevices(start, records[..k]);
            && r.Some?
            && r.value.0 == start.(devices := r.value.0.devices, deviceSeq := start.deviceSeq + k)
            && DevicesAt(db, order, start.deviceSeq, k, r.value.0.devices, r.value.1)
    decreases k
  {
    hide Constraints, DevicesAt;
    if k == 0 {
      assert records[..0] == [];
      NoDevicesAt(db, order, start.deviceSeq);
    } else {
      DevicesComeBack(db, order, records, start, k - 1);
      assert records[..k][..k - 1] == records[..k - 1];
      assert records[k - 1] == PrintedDevice(db, order[k - 1]);
      hide InsertDevices, DeviceInserted, Lists;
      InsertDevicesStep(start, records[..k]);
      var before := InsertDevices(start, records[..k - 1]).value;
      NextDeviceFits(db, order, start.deviceSeq, k - 1, before.0, before.1);
      NextDeviceAt(db, order, start.deviceSeq, k - 1, before.0, before.1);
      DeviceInsertedShape(before.0, WithoutMode(db.devices[order[k - 1]]));
    }
  }

  lemma InsertDevicesStep(db: Database, records: seq<DeviceRecord>)
    requires records != [] && InsertDevices(db, records[..|records| - 1]).Some?
    ensures var before := InsertDevices(db, records[..|records| - 1]).value;
            var r := records[|records| - 1];
            DeviceInserted(before.0, r.row).1 ==>
              var added := DeviceInserted(before.0, r.row).0;
              InsertDevices(db, records) == Some((added, before.1[r.oldId := added.deviceSeq]))
  {
  }

  lemma NoDevicesAt(db: Database, order: seq<int>, base: nat)
    requires Lists(order, db.devices.Keys)
    ensures DevicesAt(db, order, base, 0, map[], map[])
  {
  }

  // The first k listed devices have the ids after `base`, in order.
  ghost predicate DevicesAt(db: Database, order: seq<int>, base: nat, k: nat, devices: Devices, idMap: IdMap)
    requires Lists(order, db.devices.Keys) && k <= |order|
  {
    RowsAt(db, order, base, k, devices) && IdsAt(order, base, k, idMap)
  }

  ghost predicate RowsAt(db: Database, order: seq<int>, base: nat, k: nat, devices: Devices)
    requires Lists(order, db.devices.Keys) && k <= |order|
  {
    && (forall id | id in devices ::
          base < id <= base + k && devices[id] == WithoutMode(db.devices[order[id - base - 1]]))
    && (forall id | base < id <= base + k :: id in devices)
  }

  ghost predicate IdsAt(order: seq<int>, base: nat, k: nat, idMap: IdMap)
    requires k <= |order|
  {
    && (forall o | o in idMap :: base < idMap[o] <= base + k && order[idMap[o] - base - 1] == o)
    && (forall i | 0 <= i < k :: order[i] in idMap && idMap[order[i]] == base + 1 + i)
  }

  lemma NextDeviceFits(db: Database, order: seq<int>, base: nat, k: nat, before: Database, idMap: IdMap)
    requires Constraints(db) && Lists(order, db.devices.Keys) && k < |order|
    requires DevicesAt(db, order, base, k, before.devices, idMap)
    ensures DeviceInserted(before, WithoutMode(db.devices[order[k]])).1
  {
    assert DeviceOk(order[k], db.devices[order[k]], db.deviceSeq);
    forall id | id in before.devices
      ensures before.devices[id].code != db.devices[order[k]].code
    {
      assert order[id - base - 1] != order[k];
    }
  }

  lemma NextDeviceAt(db: Database, order: seq<int>, base: nat, k: nat, before: Database, idMap: IdMap)
    requires Lists(order, db.devices.Keys) && k < |order| && before.deviceSeq == base + k
    requires DevicesAt(db, order, base, k, before.devices, idMap)
    ensures DevicesAt(db, order, base, k + 1,
                      before.devices[base + k + 1 := WithoutMode(db.devices[order[k]])],
                      idMap[order[k] := base + k + 1])
  {
    hide IdsAt, RowsAt;
    NextRowAt(db, order, base, k, before.devices);
    NextIdAt(order, base, k, idMap);
  }

  lemma NextRowAt(db: Database, order: seq<int>, base: nat, k: nat, devices: Devices)
    requires Lists(order, db.devices.Keys) && k < |order| && RowsAt(db, order, base, k, devices)
    ensures RowsAt(db, order, base, k + 1, devices[base + k + 1 := WithoutMode(db.devices[order[k]])])
  {
  }

  lemma NextIdAt(order: seq<int>, base: nat, k: nat, idMap: IdMap)
    requires k < |order| && IdsAt(order, base, k, idMap)
    requires forall i | 0 <= i < k :: order[i] != order[k]
    ensures IdsAt(order, base, k + 1, idMap[order[k] := base + k + 1])
  {
  }

  // ---------------------------------------------------------------- registers come back

  // The first k listed registers have the ids after `base`, in order, on the renamed devices.
  ghost predicate RegistersAt(db: Database, order: seq<int>, idMap: IdMap, base: nat, k: nat, registers: Registers)
    requires Lists(order, db.registers.Keys) && k <= |order|
  {
    && (forall id | id in registers ::
          base < id <= base + k && Renamed(db, idMap, order[id - base - 1], registers[id]))
    && (forall id | base < id <= base + k :: id in registers)
  }

  predicate Renamed(db: Database, idMap: IdMap, o: int, row: RegisterRow) {
    && o in db.registers && db.registers[o].deviceId in idMap
    && row == db.registers[o].(deviceId := idMap[db.registers[o].deviceId])
  }

  ghost predicate Maps(idMap: IdMap, from: set<int>, to: set<int>) {
    forall o | o in from :: o in idMap && idMap[o] in to
  }

  ghost predicate NoLegacy(db: Database) {
    forall id | id in db.registers :: !IsLegacy(db.registers[id].typeText)
  }

  lemma {:induction false} RegistersComeBack(db: Database, order: seq<int>, records: seq<RegisterRow>, idMap: IdMap,
                                             start: Database, k: nat)
    requires Constraints(db) && NoLegacy(db) && PrintsRegisters(db, order, records)
    requires start.registers == map[] && Maps(idMap, db.devices.Keys, start.devices.Keys) && k <= |order|
    ensures var r := InsertRegisters(start, idMap, records[..k]);
            && r.Some?
            && r.value == start.(registers := r.value.registers, registerSeq := start.registerSeq + k)
            && RegistersAt(db, order, idMap, start.registerSeq, k, r.value.registers)
    decreases k
  {
    hide Constraints, NoLegacy, Maps, RegistersAt, RowFits, PrintedRegister;
    if k == 0 {
      assert records[..0] == [];
      NothingAt(db, order, idMap, start.registerSeq);
    } else {
      RegistersComeBack(db, order, records, idMap, start, k - 1);
      assert records[..k][..k - 1] == records[..k - 1];
      assert records[k - 1] == PrintedRegister(db, order[k - 1]);
      hide InsertRegisters, Lists, PositiveIds;
      InsertRegistersStep(start, idMap, records[..k]);
      var before := InsertRegisters(start, idMap, records[..k - 1]).value;
      NextRegisterFits(db, order, idMap, start.registerSeq, k - 1, before);
      NextRegisterAt(db, order, idMap, start.registerSeq, k - 1, before.registers);
    }
  }

  lemma InsertRegistersStep(db: Database, idMap: IdMap, records: seq<RegisterRow>)
    requires records != [] && InsertRegisters(db, idMap, records[..|records| - 1]).Some?
    ensures var before := InsertRegisters(db, idMap, records[..|records| - 1]).value;
            var r := records[|records| - 1];
            r.deviceId in idMap && RowFits(before, r.(deviceId := idMap[r.deviceId])) ==>
              var id := before.registerSeq + 1;
              InsertRegisters(db, idMap, records)
              == Some(before.(registers := before.registers[id := r.(deviceId := idMap[r.deviceId])],
                       registerSeq := id))
  {
  }

  lemma NothingAt(db: Database, order: seq<int>, idMap: IdMap, base: nat)
    requires Lists(order, db.registers.Keys)
    ensures RegistersAt(db, order, idMap, base, 0, map[])
  {
  }

  lemma NextRegisterFits(db: Database, order: seq<int>, idMap: IdMap, base: nat, k: nat, before: Database)
    requires Constraints(db) && NoLegacy(db) && Lists(order, db.registers.Keys) && k < |order|
    requires Maps(idMap, db.devices.Keys, before.devices.Keys)
    requires RegistersAt(db, order, idMap, base, k, before.registers)
    ensures PrintedRegister(db, order[k]).deviceId == db.registers[order[k]].deviceId
    ensures db.registers[order[k]].deviceId in idMap
    ensures Renamed(db, idMap, order[k],
                    PrintedRegister(db, order[k]).(deviceId := idMap[db.registers[order[k]].deviceId]))
    ensures RowFits(before, PrintedRegister(db, order[k]).(deviceId := idMap[db.registers[order[k]].deviceId]))
  {
    assert RegisterOk(order[k], db.registers[order[k]], db.registerSeq, db.devices.Keys);
    assert !IsLegacy(db.registers[order[k]].typeText);
    forall id | id in before.registers && db.registers[order[k]].unifiedAddress >= 0
      ensures before.registers[id].unifiedAddress != db.registers[order[k]].unifiedAddress
    {
      assert Renamed(db, idMap, order[id - base - 1], before.registers[id]);
      assert order[id - base - 1] != order[k];
    }
  }

  lemma NextRegisterAt(db: Database, order: seq<int>, idMap: IdMap, base: nat, k: nat, registers: Registers)
    requires Lists(order, db.registers.Keys) && k < |order|
    requires RegistersAt(db, order, idMap, base, k, registers)
    ensures forall row | Renamed(db, idMap, order[k], row) ::
              RegistersAt(db, order, idMap, base, k + 1, registers[base + k + 1 := row])
  {
  }

  /** One register of an older type makes the restore fail: it is printed as "unknown". */
  lemma {:induction false} LegacyStopsRegisters(db: Database, order: seq<int>, records: seq<RegisterRow>, idMap: IdMap,
                                                start: Database, i: nat, k: nat)
    requires Constraints(db) && PrintsRegisters(db, order, records) && i < k <= |order|
    requires IsLegacy(db.registers[order[i]].typeText)
    requires Maps(idMap, db.devices.Keys, start.devices.Keys)
    ensures InsertRegisters(start, idMap, records[..k]).None?
    decreases k
  {
    hide InsertRegisters, RowFits;
    assert records[..k][..k - 1] == records[..k - 1];
    if i == k - 1 {
      assert RegisterOk(order[i], db.registers[order[i]], db.registerSeq, db.devices.Keys);
      hide Constraints, Lists;
      UnfitRowStops(start, idMap, records[..k]);
    } else {
      LegacyStopsRegisters(db, order, records, idMap, start, i, k - 1);
      OnceStopped(start, idMap, records[..k]);
    }
  }

  lemma UnfitRowStops(db: Database, idMap: IdMap, records: seq<RegisterRow>)
    requires records != [] && records[|records| - 1].deviceId in idMap && records[|records| - 1].typeText.OtherText?
    ensures InsertRegisters(db, idMap, records).None?
  {
  }

  lemma OnceStopped(db: Database, idMap: IdMap, records: seq<RegisterRow>)
    requires records != [] && InsertRegisters(db, idMap, records[..|records| - 1]).None?
    ensures InsertRegisters(db, idMap, records).None?
  {
  }

  // ---------------------------------------------------------------- screens and project come back

  lemma {:induction false} PrintedIds(screens: Screens, listing: seq<string>, records: seq<ScreenRecord>, k: nat)
    requires PrintsScreens(screens, listing, records) && "" !in screens && k <= |listing|
    ensures RecordIds(records[..k]) == listing[..k]
    decreases k
  {
    hide Before, Ascending;
    if k > 0 {
      PrintedIds(screens, listing, records, k - 1);
      assert records[..k][..k - 1] == records[..k - 1];
      assert listing[k - 1] in screens;
      assert listing[..k] == listing[..k - 1] + [listing[k - 1]];
    }
  }

  // The first k records restore the first k listed screens, numbered.
  ghost predicate ScreensAt(screens: Screens, listing: seq<string>, k: nat, restored: Screens)
    requires Covers(screens, listing) && k <= |listing|
  {
    && |restored| == k
    && (forall id | id in restored ::
          0 <= restored[id].sortOrder < k && listing[restored[id].sortOrder] == id)
    && (forall i | 0 <= i < k :: listing[i] in restored && restored[listing[i]] == screens[listing[i]].(sortOrder := i))
  }

  lemma {:induction false} ScreensComeBack(screens: Screens, listing: seq<string>, records: seq<ScreenRecord>, k: nat)
    requires PrintsScreens(screens, listing, records) && "" !in screens && k <= |listing|
    ensures RestoredScreens(records[..k]).Some?
    ensures ScreensAt(screens, listing, k, RestoredScreens(records[..k]).value)
    decreases k
  {
    hide ScreensAt, Before, Ascending;
    if k == 0 {
      assert records[..0] == [];
      NoScreensAt(screens, listing);
    } else {
      ScreensComeBack(screens, listing, records, k - 1);
      assert records[..k][..k - 1] == records[..k - 1];
      assert listing[k - 1] in screens && records[k - 1] == PrintedScreen(screens, listing[k - 1]);
      ListingIsDistinct(screens, listing);
      hide IsListing, Covers;
      NextScreenAt(screens, listing, k - 1, RestoredScreens(records[..k - 1]).value);
    }
  }

  lemma NoScreensAt(screens: Screens, listing: seq<string>)
    requires Covers(screens, listing)
    ensures ScreensAt(screens, listing, 0, map[])
  {
  }

  lemma NextScreenIsNew(screens: Screens, listing: seq<string>, k: nat, before: Screens)
    requires Covers(screens, listing) && Distinct(listing) && k < |listing| && ScreensAt(screens, listing, k, before)
    ensures listing[k] !in before
  {
    assert forall id | id in before :: id != listing[k];
  }

  lemma NextScreenAt(screens: Screens, listing: seq<string>, k: nat, before: Screens)
    requires Covers(screens, listing) && Distinct(listing) && k < |listing| && ScreensAt(screens, listing, k, before)
    ensures listing[k] !in before && |before| == k
    ensures ScreensAt(screens, listing, k + 1, before[listing[k] := screens[listing[k]].(sortOrder := k)])
  {
    NextScreenIsNew(screens, listing, k, before);
    ScreenAdded(screens, listing, k, before, screens[listing[k]].(sortOrder := k));
  }

  lemma ScreenAdded(screens: Screens, listing: seq<string>, k: nat, before: Screens, row: Screen)
    requires Covers(screens, listing) && k < |listing| && ScreensAt(screens, listing, k, before)
    requires listing[k] !in before && row == screens[listing[k]].(sortOrder := k)
    ensures ScreensAt(screens, listing, k + 1, before[listing[k] := row])
  {
    hide Covers;
  }

  // Same screens, with their places in the listing as sort orders.
  ghost predicate SameScreens(screens: Screens, listing: seq<string>, restored: Screens) {
    && restored.Keys == screens.Keys
    && forall i | 0 <= i < |listing| ::
         listing[i] in screens && listing[i] in restored && restored[listing[i]] == screens[listing[i]].(sortOrder := i)
  }

  lemma AllScreensAt(screens: Screens, listing: seq<string>, restored: Screens)
    requires Covers(screens, listing) && ScreensAt(screens, listing, |listing|, restored)
    ensures restored.Keys == screens.Keys && SameScreens(screens, listing, restored)
  {
    forall id
      ensures id in restored <==> id in screens
    {
      assert id in screens ==> id in listing;
    }
  }

  /** Restoring the printed HMI gives the same project, the same screens and the same listing. */
  lemma HmiComesBack(h: Hmi, target: Hmi, listing: seq<string>, backup: HmiBackup)
    requires Inv(h) && PrintsScreens(h.screens, listing, backup.screens) && backup.project == ProjectOf(h)
    ensures var (r, result) := Restored(target, backup);
            && result == Ok
            && ProjectOf(r) == ProjectOf(h)
            && SameScreens(h.screens, listing, r.screens)
            && IsListing(r.screens, listing)
  {
    hide RestoredScreens, RecordIds, Before, Ascending, ScreensAt, SameScreens, SortsDistinct;
    ScreensComeBack(h.screens, listing, backup.screens, |listing|);
    PrintedIds(h.screens, listing, backup.screens, |listing|);
    assert backup.screens[..|listing|] == backup.screens && listing[..|listing|] == listing;
    RestoredIsListed(backup.screens);
    var r := RestoredScreens(backup.screens).value;
    AllScreensAt(h.screens, listing, r);
    MembersAreKeys(h.screens, listing, ProjectOf(h).startScreen);
    ListingCounts(h.screens, listing);
  }

  // ---------------------------------------------------------------- tags come back

  // A tag comes back exactly when it has an id and its register has an address.
  predicate Addressed(db: Database, t: string)
    requires t in db.tags
  {
    t != "" && db.tags[t].registerId in db.registers && db.registers[db.tags[t].registerId].unifiedAddress >= 0
  }

  // On the register with the same unified address, with new times.
  ghost predicate TagAt(db: Database, index: IdMap, now: string, t: string, row: TagRow)
    requires t in db.tags
  {
    && Addressed(db, t)
    && db.registers[db.tags[t].registerId].unifiedAddress in index
    && row == db.tags[t].(registerId := index[db.registers[db.tags[t].registerId].unifiedAddress],
                          createdAt := now, updatedAt := now)
  }

  ghost predicate TagsAt(db: Database, order: seq<string>, index: IdMap, now: string, k: nat, tags: Tags)
    requires Lists(order, db.tags.Keys) && k <= |order|
  {
    && (forall t | t in tags :: t in order[..k] && t in db.tags && TagAt(db, index, now, t, tags[t]))
    && (forall i | 0 <= i < k && Addressed(db, order[i]) :: order[i] in tags)
  }

  // The index finds every assigned address of the database and nothing below zero.
  ghost predicate IndexCovers(db: Database, index: IdMap) {
    && (forall u | u in index :: u >= 0)
    && forall id | id in db.registers && db.registers[id].unifiedAddress >= 0
         :: db.registers[id].unifiedAddress in index
  }

  lemma {:induction false} TagsComeBack(db: Database, order: seq<string>, records: seq<TagRecord>, index: IdMap,
                                        now: string, k: nat)
    requires Constraints(db) && PrintsTags(db, order, records) && IndexCovers(db, index) && k <= |order|
    ensures var r := InsertTags(index, records[..k], now);
            r.Some? && TagsAt(db, order, index, now, k, r.value)
    decreases k
  {
    hide Constraints, IndexCovers, TagAt, Addressed;
    if k == 0 {
      assert records[..0] == [] && order[..0] == [];
    } else {
      TagsComeBack(db, order, records, index, now, k - 1);
      assert records[..k][..k - 1] == records[..k - 1];
      PrefixOfListing(order, db.tags.Keys, k - 1);
      PrintedTagGoes(db, index, now, order[k - 1]);
      hide InsertTags, TagsAt, Lists, PrintedTag;
      InsertTagsStep(index, records[..k], now);
      NextTagAt(db, order, index, now, k - 1, InsertTags(index, records[..k - 1], now).value);
    }
  }

  lemma InsertTagsStep(index: IdMap, records: seq<TagRecord>, now: string)
    requires records != [] && InsertTags(index, records[..|records| - 1], now).Some?
    ensures var before, r := InsertTags(index, records[..|records| - 1], now).value, records[|records| - 1];
            InsertTags(index, records, now)
            == if r.id == "" || r.unifiedAddress.None? || r.unifiedAddress.value !in index then Some(before)
               else if r.id in before || r.row.access.OtherAccess? then None
               else Some(before[r.id := TagOf(r, index[r.unifiedAddress.value], now)])
  {
  }

  lemma NextTagAt(db: Database, order: seq<string>, index: IdMap, now: string, k: nat, tags: Tags)
    requires Lists(order, db.tags.Keys) && k < |order| && TagsAt(db, order, index, now, k, tags)
    ensures order[k] !in tags && order[k] in db.tags
    ensures !Addressed(db, order[k]) ==> TagsAt(db, order, index, now, k + 1, tags)
    ensures forall row | Addressed(db, order[k]) && TagAt(db, index, now, order[k], row) ::
              TagsAt(db, order, index, now, k + 1, tags[order[k] := row])
  {
    hide Addressed, TagAt;
    PrefixOfListing(order, db.tags.Keys, k);
  }

  lemma PrintedTagGoes(db: Database, index: IdMap, now: string, t: string)
    requires Constraints(db) && IndexCovers(db, index) && t in db.tags
    ensures var r := PrintedTag(db, t);
            && r.unifiedAddress.Some? && !r.row.access.OtherAccess? && r.id == t
            && (t != "" && r.unifiedAddress.value in index <==> Addressed(db, t))
            && (Addressed(db, t) ==> TagAt(db, index, now, t, TagOf(r, index[r.unifiedAddress.value], now)))
  {
    assert TagOk(db.tags[t], db.registers.Keys);
  }

  // ---------------------------------------------------------------- the isomorphism

  /** One-to-one from `from` onto `to`. */
  ghost predicate IsRenaming(m: IdMap, from: set<int>, to: set<int>) {
    && m.Keys == from
    && (forall o | o in m :: m[o] in to)
    && (forall a, b | a in m && b in m && a != b :: m[a] != m[b])
    && (forall x | x in to :: exists o :: o in m && m[o] == x)
  }

  /** `r` is the database `db` with device and register ids renamed by `f` and `g`: rows unchanged
      but for the poll mode, registers on the renamed devices, tags on the renamed registers, same
      project, same screens in the same listing. */
  ghost predicate Isomorphic(db: Database, r: Database, f: IdMap, g: IdMap, listing: seq<string>, now: string) {
    && SameDevices(db, r, f)
    && SameRegisters(db, r, f, g)
    && SameTags(db, r, g, now)
    && ProjectOf(r.hmi) == ProjectOf(db.hmi)
    && SameScreens(db.hmi.screens, listing, r.hmi.screens)
    && IsListing(r.hmi.screens, listing)
  }

  ghost predicate SameDevices(db: Database, r: Database, f: IdMap) {
    && IsRenaming(f, db.devices.Keys, r.devices.Keys)
    && forall o | o in db.devices :: r.devices[f[o]] == WithoutMode(db.devices[o])
  }

  ghost predicate SameRegisters(db: Database, r: Database, f: IdMap, g: IdMap) {
    && IsRenaming(g, db.registers.Keys, r.registers.Keys)
    && forall o | o in db.registers :: Renamed(db, f, o, r.registers[g[o]])
  }

  ghost predicate SameTags(db: Database, r: Database, g: IdMap, now: string) {
    && (forall t :: t in r.tags <==> t in db.tags && Addressed(db, t))
    && (forall t | t in r.tags ::
          && db.tags[t].registerId in g
          && r.tags[t] == db.tags[t].(registerId := g[db.tags[t].registerId], createdAt := now, updatedAt := now))
  }

  lemma DeviceAt(db: Database, order: seq<int>, base: nat, devices: Devices, f: IdMap, o: int)
    requires Lists(order, db.devices.Keys) && DevicesAt(db, order, base, |order|, devices, f)
    ensures o in f <==> o in db.devices
    ensures o in f ==>
              && base < f[o] <= base + |order| && order[f[o] - base - 1] == o
              && f[o] in devices && devices[f[o]] == WithoutMode(db.devices[o])
  {
    if o in db.devices {
      var i := PlaceOfKey(order, db.devices.Keys, o);
    }
  }

  lemma DeviceFrom(db: Database, order: seq<int>, base: nat, devices: Devices, f: IdMap, x: int) returns (o: int)
    requires Lists(order, db.devices.Keys) && DevicesAt(db, order, base, |order|, devices, f) && x in devices
    ensures o in f && f[o] == x
  {
    o := order[x - base - 1];
  }

  lemma DevicesRenamed(db: Database, order: seq<int>, base: nat, r: Database, f: IdMap)
    requires Lists(order, db.devices.Keys) && DevicesAt(db, order, base, |order|, r.devices, f)
    ensures SameDevices(db, r, f)
  {
    hide DevicesAt, Lists;
    forall x | x in r.devices
      ensures exists o :: o in f && f[o] == x
    {
      var o := DeviceFrom(db, order, base, r.devices, f, x);
    }
    forall o
      ensures o in f <==> o in db.devices
      ensures o in f ==> base < f[o] <= base + |order| && order[f[o] - base - 1] == o
      ensures o in f ==> f[o] in r.devices && r.devices[f[o]] == WithoutMode(db.devices[o])
    {
      DeviceAt(db, order, base, r.devices, f, o);
    }
  }

  ghost function Place(order: seq<int>, o: int): (i: nat)
    requires o in order
    ensures i < |order| && order[i] == o
  {
    var i :| 0 <= i < |order| && order[i] == o;
    i
  }

  ghost function Numbering(order: seq<int>, keys: set<int>, base: nat): (g: IdMap)
    requires Lists(order, keys)
    ensures g.Keys == keys
    ensures forall i | 0 <= i < |order| :: order[i] in g && g[order[i]] == base + 1 + i
  {
    map o | o in keys :: base + 1 + Place(order, o)
  }

  lemma RegistersRenamed(db: Database, order: seq<int>, base: nat, r: Database, f: IdMap)
    requires Lists(order, db.registers.Keys) && RegistersAt(db, order, f, base, |order|, r.registers)
    ensures SameRegisters(db, r, f, Numbering(order, db.registers.Keys, base))
  {
    hide Renamed, Numbering;
    var g := Numbering(order, db.registers.Keys, base);
    forall o | o in g
      ensures exists i :: 0 <= i < |order| && order[i] == o && g[o] == base + 1 + i
    {
      var i :| 0 <= i < |order| && order[i] == o;
    }
    forall x | x in r.registers
      ensures exists o :: o in g && g[o] == x
    {
      assert order[x - base - 1] in g;
    }
  }

  lemma TagsRenamed(db: Database, order: seq<string>, r: Database, f: IdMap, g: IdMap, now: string)
    requires Constraints(db) && UnifiedUnique(r.registers) && SameRegisters(db, r, f, g)
    requires Lists(order, db.tags.Keys) && TagsAt(db, order, Index(r.registers), now, |order|, r.tags)
    ensures SameTags(db, r, g, now)
  {
    hide Constraints, Index, IsIndex, UnifiedUnique, SameRegisters;
    assert order[..|order|] == order;
    forall t | t in r.tags
      ensures db.tags[t].registerId in g
      ensures r.tags[t] == db.tags[t].(registerId := g[db.tags[t].registerId], createdAt := now, updatedAt := now)
    {
      assert TagAt(db, Index(r.registers), now, t, r.tags[t]);
      SameAddressSameRegister(db, r, f, g, db.tags[t].registerId);
    }
  }

  // The index of the restored registers agrees with the renaming.
  lemma SameAddressSameRegister(db: Database, r: Database, f: IdMap, g: IdMap, o: int)
    requires UnifiedUnique(r.registers) && SameRegisters(db, r, f, g)
    requires o in db.registers && db.registers[o].unifiedAddress in Index(r.registers)
    ensures o in g && Index(r.registers)[db.registers[o].unifiedAddress] == g[o]
  {
    var u := db.registers[o].unifiedAddress;
    assert Renamed(db, f, o, r.registers[g[o]]);
    assert Points(r.registers, Index(r.registers), u);
  }

  lemma IndexOfRenamedCovers(db: Database, r: Database, f: IdMap, g: IdMap)
    requires SameRegisters(db, r, f, g)
    ensures IndexCovers(db, Index(r.registers))
  {
    var index := Index(r.registers);
    forall u | u in index
      ensures u >= 0
    {
      assert Points(r.registers, index, u);
    }
    forall id | id in db.registers && db.registers[id].unifiedAddress >= 0
      ensures db.registers[id].unifiedAddress in index
    {
      assert Renamed(db, f, id, r.registers[g[id]]);
      assert Indexed(r.registers, index, g[id]);
    }
  }

  lemma MapsDevices(db: Database, start: Database, f: IdMap)
    requires SameDevices(db, start, f)
    ensures Maps(f, db.devices.Keys, start.devices.Keys)
  {
  }

  // The registers after the restore of devices, before that of HMI.
  lemma DevicesRestoredRenamed(db: Database, orders: Orders, backup: Backup, target: Database)
    returns (f: IdMap, g: IdMap)
    requires Constraints(db) && IsBackup(db, orders, backup) && Constraints(target)
    ensures DevicesRestored(target, backup).Some? <==> NoLegacy(db)
    ensures NoLegacy(db) ==>
              var r := DevicesRestored(target, backup).value;
              SameDevices(db, r, f) && SameRegisters(db, r, f, g) && Constraints(r)
  {
    hide Constraints, InsertDevices, InsertRegisters, PrintsScreens, PrintsTags, DevicesAt, RegistersAt, SameDevices,
      SameRegisters, Maps, Lists;
    var start := Cleared(target);
    DevicesRestoredKeeps(target, backup);
    DevicesComeBack(db, orders.devices, backup.devices, start, |orders.devices|);
    assert backup.devices[..|orders.devices|] == backup.devices;
    var (added, idMap) := InsertDevices(start, backup.devices).value;
    f, g := idMap, map[];
    DevicesRenamed(db, orders.devices, start.deviceSeq, added, f);
    MapsDevices(db, added, f);
    assert backup.registers[..|orders.registers|] == backup.registers;
    if NoLegacy(db) {
      RegistersComeBack(db, orders.registers, backup.registers, f, added, |orders.registers|);
      var r := InsertRegisters(added, f, backup.registers).value;
      g := Numbering(orders.registers, db.registers.Keys, added.registerSeq);
      RegistersRenamed(db, orders.registers, added.registerSeq, r, f);
      OnlyDevicesMatter(db, added, r, f);
    } else {
      var id :| id in db.registers && IsLegacy(db.registers[id].typeText);
      var i := PlaceOfKey(orders.registers, db.registers.Keys, id);
      LegacyStopsRegisters(db, orders.registers, backup.registers, f, added, i, |orders.registers|);
    }
  }

  lemma OnlyDevicesMatter(db: Database, a: Database, b: Database, f: IdMap)
    requires SameDevices(db, a, f) && a.devices == b.devices
    ensures SameDevices(db, b, f)
  {
  }

  lemma PlaceOfKey(order: seq<int>, keys: set<int>, k: int) returns (i: nat)
    requires Lists(order, keys) && k in keys
    ensures i < |order| && order[i] == k
  {
    i :| 0 <= i < |order| && order[i] == k;
  }

  /** Backup and full restore, into any database that meets the constraints: it succeeds exactly
      when no register has one of the two older types, and then gives the backed-up database up to a
      renaming of the ids. A tag is lost exactly when its register has no unified address (or when
      it has no id). */
  lemma BackupThenRestore(db: Database, orders: Orders, backup: Backup, target: Database, now: string)
    returns (f: IdMap, g: IdMap)
    requires Constraints(db) && Inv(db.hmi) && IsBackup(db, orders, backup) && Constraints(target)
    ensures TagsOk(target.tags, target.registers.Keys)
    ensures RestoredAll(target, backup, true, true, now).1 <==> NoLegacy(db)
    ensures NoLegacy(db) ==> Isomorphic(db, RestoredAll(target, backup, true, true, now).0, f, g, orders.screens, now)
  {
    hide Constraints, DevicesRestored, InsertTags, PrintsDevices, PrintsRegisters, PrintsScreens, PrintsTags, Inv,
      SameDevices, SameRegisters, SameTags, TagsAt, TagsOk, Restored, SameScreens, IsListing, Lists, IndexCovers, Index,
      IsIndex, UnifiedUnique;
    ConstraintsIncludeTags(target);
    f, g := DevicesRestoredRenamed(db, orders, backup, target);
    if NoLegacy(db) {
      var first := DevicesRestored(target, backup).value;
      HmiComesBack(db.hmi, first.hmi, orders.screens, backup.hmi);
      IndexOfRenamedCovers(db, first, f, g);
      TagsComeBackWhole(db, orders, backup, Index(first.registers), now);
      var r := HmiRestored(first, backup, now).value;
      OnlyDevicesMatter(db, first, r, f);
      OnlyRegistersMatter(db, first, r, f, g);
      ConstraintsIncludeUnified(first);
      TagsRenamed(db, orders.tags, r, f, g, now);
    }
  }

  lemma TagsComeBackWhole(db: Database, orders: Orders, backup: Backup, index: IdMap, now: string)
    requires Constraints(db) && IsBackup(db, orders, backup) && IndexCovers(db, index)
    ensures Lists(orders.tags, db.tags.Keys)
    ensures InsertTags(index, backup.tags, now).Some?
    ensures TagsAt(db, orders.tags, index, now, |orders.tags|, InsertTags(index, backup.tags, now).value)
  {
    hide Constraints, IndexCovers, InsertTags, TagsAt;
    TagsComeBack(db, orders.tags, backup.tags, index, now, |orders.tags|);
    assert backup.tags[..|orders.tags|] == backup.tags;
  }

  lemma OnlyRegistersMatter(db: Database, a: Database, b: Database, f: IdMap, g: IdMap)
    requires SameRegisters(db, a, f, g) && a.registers == b.registers
    ensures SameRegisters(db, b, f, g)
  {
  }

  lemma ConstraintsIncludeUnified(db: Database)
    requires Constraints(db)
    ensures UnifiedUnique(db.registers)
  {
  }
}
