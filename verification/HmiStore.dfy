/** HMI project and screens: what each operation of the database does to them, and what holds over
    every run of operations. */
module HmiStore {
  import opened Wrappers
  import opened HmiListing

  // No start screen is the empty text, as the database reads a null column.
  datatype Project = Project(name: string, startScreen: string, revision: int)

  // The single project row may not exist yet; it then reads as the empty project.
  datatype Hmi = Hmi(row: Option<Project>, screens: Screens)

  function ProjectOf(h: Hmi): Project {
    if h.row.Some? then h.row.value else Project("", "", 0)
  }

  datatype ProjectUpdate = ProjectUpdate(
    revision: int,
    name: Option<string>,
    startScreen: Option<string>,
    order: Option<seq<string>>)

  datatype ScreenRecord = ScreenRecord(
    id: string,
    title: string,
    content: string,
    revision: int,
    updatedAt: string,
    updatedBy: string)

  datatype HmiBackup = HmiBackup(project: Project, screens: seq<ScreenRecord>)

  datatype OpResult =
    | Ok
    | NotFound
    | RevisionMismatch
    | DuplicateId
    | TooManyScreens
    | InvalidStartScreen
    | InvalidOrder
    | StartScreenProtected
    | Error

  datatype Op =
    | Insert(id: string, title: string, content: string, author: string, now: string, maxScreens: int)
    | UpdateScreen(id: string, newTitle: Option<string>, content: string, author: string, now: string, revision: int)
    | Delete(id: string)
    | UpdateProject(update: ProjectUpdate)
    | Restore(backup: HmiBackup)
    | Reset

  // ---------------------------------------------------------------- what each operation does

  ghost function Inserted(h: Hmi, op: Op): (Hmi, OpResult)
    requires op.Insert?
  {
    if |h.screens| >= op.maxScreens then (h, TooManyScreens)
    else if op.id in h.screens then (h, DuplicateId)
    else
      var p := ProjectOf(h);
      var start := if |h.screens| == 0 then op.id else p.startScreen;
      (Hmi(Some(Project(p.name, start, p.revision + 1)),
           h.screens[op.id := Screen(op.title, op.content, 1, TopSort(h.screens) + 1, op.now, op.author)]), Ok)
  }

  function ScreenUpdated(h: Hmi, op: Op): (Hmi, OpResult)
    requires op.UpdateScreen?
  {
    if op.id !in h.screens then (h, NotFound)
    else if h.screens[op.id].revision != op.revision then (h, RevisionMismatch)
    else
      var s := h.screens[op.id];
      var title := if op.newTitle.Some? then op.newTitle.value else s.title;
      (h.(screens := h.screens[op.id := Screen(title, op.content, s.revision + 1, s.sortOrder, op.now, op.author)]), Ok)
  }

  function Deleted(h: Hmi, op: Op): (Hmi, OpResult)
    requires op.Delete?
  {
    var p := ProjectOf(h);
    if op.id !in h.screens then (h, NotFound)
    else if p.startScreen == op.id && |h.screens| > 1 then (h, StartScreenProtected)
    else
      var start := if p.startScreen == op.id then "" else p.startScreen;
      (Hmi(Some(Project(p.name, start, p.revision + 1)), h.screens - {op.id}), Ok)
  }

  function Position(order: seq<string>, id: string): (i: nat)
    requires id in order
    ensures i < |order| && order[i] == id
  {
    if order[0] == id then 0 else 1 + Position(order[1..], id)
  }

  function Reordered(screens: Screens, order: seq<string>): (r: Screens)
    requires Covers(screens, order)
    ensures r.Keys == screens.Keys
  {
    map id | id in screens :: screens[id].(sortOrder := Position(order, id))
  }

  predicate StartAllowed(screens: Screens, start: string) {
    if start == "" then screens == map[] else start in screens
  }

  // The checks of a project update, after the one of its revision.
  function UpdateVerdict(screens: Screens, u: ProjectUpdate): OpResult {
    if u.startScreen.Some? && !StartAllowed(screens, u.startScreen.value) then InvalidStartScreen
    else if u.order.Some? && !(Distinct(u.order.value) && Covers(screens, u.order.value)) then InvalidOrder
    else Ok
  }

  function ProjectUpdated(h: Hmi, op: Op): (Hmi, OpResult)
    requires op.UpdateProject?
  {
    var u, p := op.update, ProjectOf(h);
    if p.revision != u.revision then (h, RevisionMismatch)
    else if UpdateVerdict(h.screens, u) != Ok then (h, UpdateVerdict(h.screens, u))
    else
      (Hmi(Some(Project(if u.name.Some? then u.name.value else p.name,
                        if u.startScreen.Some? then u.startScreen.value else p.startScreen,
                        p.revision + 1)),
           if u.order.Some? then Reordered(h.screens, u.order.value) else h.screens), Ok)
  }

  // Records without an id are skipped; a repeated id violates the primary key.
  function RestoredScreens(records: seq<ScreenRecord>): Option<Screens> {
    if records == [] then Some(map[])
    else
      var before := RestoredScreens(records[..|records| - 1]);
      var r := records[|records| - 1];
      if before.None? || r.id == "" then before
      else if r.id in before.value then None
      else Some(before.value[r.id := Screen(r.title, r.content, r.revision, |before.value|, r.updatedAt, r.updatedBy)])
  }

  function RecordIds(records: seq<ScreenRecord>): seq<string> {
    if records == [] then []
    else
      var before := RecordIds(records[..|records| - 1]);
      if records[|records| - 1].id == "" then before else before + [records[|records| - 1].id]
  }

  function RestoredStart(ids: seq<string>, given: string): string {
    if given != "" && given in ids then given else if ids == [] then "" else ids[0]
  }

  function Restored(h: Hmi, backup: HmiBackup): (Hmi, OpResult) {
    var screens := RestoredScreens(backup.screens);
    if screens.None? then (h, Error)
    else
      var start := RestoredStart(RecordIds(backup.screens), backup.project.startScreen);
      (Hmi(Some(Project(backup.project.name, start, backup.project.revision)), screens.value), Ok)
  }

  ghost function Step(h: Hmi, op: Op): (Hmi, OpResult) {
    match op
    case Insert(_, _, _, _, _, _) => Inserted(h, op)
    case UpdateScreen(_, _, _, _, _, _) => ScreenUpdated(h, op)
    case Delete(_) => Deleted(h, op)
    case UpdateProject(_) => ProjectUpdated(h, op)
    case Restore(backup) => Restored(h, backup)
    case Reset => (Hmi(None, map[]), Ok)
  }

  // ---------------------------------------------------------------- what that means

  // All screens but one are the same.
  ghost predicate OthersKept(before: Screens, after: Screens, id: string) {
    && (forall x | x in before && x != id :: x in after && after[x] == before[x])
    && (forall x | x in after && x != id :: x in before)
  }

  // A new screen at revision 1 behind all others; the first one becomes the start screen.
  ghost predicate ScreenAdded(h: Hmi, op: Op, h': Hmi)
    requires op.Insert?
  {
    && op.id !in h.screens && |h.screens| < op.maxScreens
    && OthersKept(h.screens, h'.screens, op.id) && op.id in h'.screens
    && h'.row.Some? && h'.row.value.name == ProjectOf(h).name
    && h'.row.value.revision == ProjectOf(h).revision + 1
    && h'.row.value.startScreen == (if h.screens == map[] then op.id else ProjectOf(h).startScreen)
    && (h.row.None? ==> h'.row.value.name == "" && h'.row.value.revision == 1)
    && var s := h'.screens[op.id];
       && s.title == op.title && s.content == op.content && s.revision == 1
       && s.updatedAt == op.now && s.updatedBy == op.author
       && (h.screens == map[] ==> s.sortOrder == 0)
       && (forall x | x in h.screens :: h.screens[x].sortOrder < s.sortOrder)
  }

  // A start screen goes only as the last screen.
  ghost predicate ScreenRemoved(h: Hmi, id: string, h': Hmi) {
    && id in h.screens && id !in h'.screens && OthersKept(h.screens, h'.screens, id)
    && h'.row.Some? && h'.row.value.name == ProjectOf(h).name
    && h'.row.value.revision == ProjectOf(h).revision + 1
    && if ProjectOf(h).startScreen == id then h'.row.value.startScreen == "" && h'.screens == map[]
       else h'.row.value.startScreen == ProjectOf(h).startScreen
  }

  // New content, the new title if there is one, the next revision; nothing else.
  ghost predicate ScreenReplaced(h: Hmi, op: Op, h': Hmi)
    requires op.UpdateScreen?
  {
    && h'.row == h.row && OthersKept(h.screens, h'.screens, op.id)
    && op.id in h.screens && op.id in h'.screens && h.screens[op.id].revision == op.revision
    && var was, s := h.screens[op.id], h'.screens[op.id];
       && s.content == op.content && s.revision == was.revision + 1 && s.sortOrder == was.sortOrder
       && s.title == (if op.newTitle.Some? then op.newTitle.value else was.title)
       && s.updatedAt == op.now && s.updatedBy == op.author
  }

  // What is given replaces what there was; an order gives the places of all screens.
  ghost predicate ProjectChanged(h: Hmi, u: ProjectUpdate, h': Hmi) {
    && u.revision == ProjectOf(h).revision
    && h'.row.Some? && h'.row.value.revision == u.revision + 1
    && h'.row.value.name == (if u.name.Some? then u.name.value else ProjectOf(h).name)
    && h'.row.value.startScreen == (if u.startScreen.Some? then u.startScreen.value else ProjectOf(h).startScreen)
    && (u.startScreen.Some? ==>
          if u.startScreen.value == "" then h.screens == map[] else u.startScreen.value in h.screens)
    && (u.order.None? ==> h'.screens == h.screens)
    && (u.order.Some? ==>
          && h'.screens.Keys == h.screens.Keys
          && (forall x | x in h.screens :: x in u.order.value)
          && forall i | 0 <= i < |u.order.value| ::
               var x := u.order.value[i];
               x in h.screens && h'.screens[x] == h.screens[x].(sortOrder := i))
  }

  // The screens with an id that come before record k.
  function Numbered(records: seq<ScreenRecord>, k: nat): nat
    requires k <= |records|
  {
    if k == 0 then 0 else Numbered(records, k - 1) + if records[k - 1].id != "" then 1 else 0
  }

  // No id is given twice.
  ghost predicate IdsDistinct(records: seq<ScreenRecord>) {
    forall i, j | 0 <= i < j < |records| && records[i].id != "" :: records[i].id != records[j].id
  }

  // One screen for each record with an id.
  ghost predicate ScreensFor(records: seq<ScreenRecord>, screens: Screens) {
    && |screens| == Numbered(records, |records|)
    && (forall x | x in screens :: x != "" && NamedIn(records, x))
    && (forall i | 0 <= i < |records| && records[i].id != "" :: ScreenOf(records, i, screens))
  }

  ghost predicate NamedIn(records: seq<ScreenRecord>, x: string) {
    exists i :: 0 <= i < |records| && records[i].id == x
  }

  /** Project and screens of a backup: one screen for each record with an id, in the order of the
      records; the given start screen if it is among them, else the first of them. */
  ghost predicate HmiReplaced(backup: HmiBackup, h': Hmi) {
    var records := backup.screens;
    && h'.row.Some? && h'.row.value.name == backup.project.name
    && h'.row.value.revision == backup.project.revision
    && ScreensFor(records, h'.screens)
    && if backup.project.startScreen in h'.screens then h'.row.value.startScreen == backup.project.startScreen
       else if h'.screens == map[] then h'.row.value.startScreen == ""
       else h'.row.value.startScreen in h'.screens && h'.screens[h'.row.value.startScreen].sortOrder == 0
  }

  // The screen of record i: its fields, placed after those of the records before it.
  ghost predicate ScreenOf(records: seq<ScreenRecord>, i: nat, screens: Screens)
    requires i < |records|
  {
    var r := records[i];
    && r.id in screens
    && var s := screens[r.id];
       && s.title == r.title && s.content == r.content && s.revision == r.revision
       && s.updatedAt == r.updatedAt && s.updatedBy == r.updatedBy
       && s.sortOrder == Numbered(records, i)
  }

  /** Every operation that goes through does what it says to project and screens. */
  lemma StepMeans(h: Hmi, op: Op)
    ensures var (h', result) := Step(h, op);
            result == Ok ==>
              match op
              case Insert(_, _, _, _, _, _) => ScreenAdded(h, op, h')
              case UpdateScreen(_, _, _, _, _, _) => ScreenReplaced(h, op, h')
              case Delete(id) => ScreenRemoved(h, id, h')
              case UpdateProject(u) => ProjectChanged(h, u, h')
              case Restore(backup) => HmiReplaced(backup, h')
              case Reset => h'.row.None? && h'.screens == map[]
  {
    match op
    case Insert(_, _, _, _, _, _) => InsertMeans(h, op);
    case UpdateScreen(_, _, _, _, _, _) =>
    case Delete(id) => DeleteMeans(h, op);
    case UpdateProject(u) => UpdateMeans(h, op);
    case Restore(backup) => RestoreMeans(h, backup);
    case Reset =>
  }

  lemma InsertMeans(h: Hmi, op: Op)
    requires op.Insert?
    ensures Inserted(h, op).1 == Ok ==> ScreenAdded(h, op, Inserted(h, op).0)
  {
    assert IsTopSort(h.screens, TopSort(h.screens));
    assert |h.screens| == 0 <==> h.screens == map[];
  }

  lemma DeleteMeans(h: Hmi, op: Op)
    requires op.Delete?
    ensures Deleted(h, op).1 == Ok ==> ScreenRemoved(h, op.id, Deleted(h, op).0)
  {
    if op.id in h.screens {
      var rest := h.screens - {op.id};
      assert rest.Keys == h.screens.Keys - {op.id};
      assert |rest| == |h.screens| - 1;
    }
  }

  lemma UpdateMeans(h: Hmi, op: Op)
    requires op.UpdateProject?
    ensures ProjectUpdated(h, op).1 == Ok ==> ProjectChanged(h, op.update, ProjectUpdated(h, op).0)
  {
    if ProjectUpdated(h, op).1 == Ok && op.update.order.Some? {
      var order := op.update.order.value;
      forall i | 0 <= i < |order|
        ensures order[i] in h.screens
        ensures ProjectUpdated(h, op).0.screens[order[i]] == h.screens[order[i]].(sortOrder := i)
      {
        assert Position(order, order[i]) == i;
      }
    }
  }

  /** A restore of the HMI goes through exactly when no screen is given twice. */
  lemma RestoreMeans(h: Hmi, backup: HmiBackup)
    ensures Restored(h, backup).1 == Ok <==> IdsDistinct(backup.screens)
    ensures Restored(h, backup).1 == Ok ==> HmiReplaced(backup, Restored(h, backup).0)
  {
    var records := backup.screens;
    ScreensOfRecords(records);
    if RestoredScreens(records).Some? {
      RestoredScreensLaws(records);
      var ids, s := RecordIds(records), RestoredScreens(records).value;
      assert forall x | x in s :: x in ids;
      assert ids == [] <==> s == map[] by {
        assert ids != [] ==> ids[0] in s;
      }
    }
  }

  lemma {:induction false} ScreensOfRecords(records: seq<ScreenRecord>)
    ensures RestoredScreens(records).Some? <==> IdsDistinct(records)
    ensures RestoredScreens(records).Some? ==> ScreensFor(records, RestoredScreens(records).value)
    decreases |records|
  {
    hide ScreensFor, IdsDistinct;
    if records == [] {
      NoRecords();
    } else {
      var n := |records| - 1;
      ScreensOfRecords(records[..n]);
      DistinctUpTo(records);
      if RestoredScreens(records[..n]).Some? {
        OneMoreScreen(records, RestoredScreens(records[..n]).value);
      }
    }
  }

  lemma NoRecords()
    ensures IdsDistinct([]) && ScreensFor([], map[])
  {
  }

  lemma OneMoreScreen(records: seq<ScreenRecord>, before: Screens)
    requires records != [] && ScreensFor(records[..|records| - 1], before)
    ensures var n, r := |records| - 1, records[|records| - 1];
            && (r.id != "" ==> (r.id in before <==> exists i :: 0 <= i < n && records[i].id == r.id))
            && (r.id == "" ==> ScreensFor(records, before))
            && (r.id != "" && r.id !in before ==>
                  ScreensFor(records, before[r.id := Screen(r.title, r.content, r.revision, |before|,
                                                            r.updatedAt, r.updatedBy)]))
  {
    hide ScreensFor;
    var r := records[|records| - 1];
    if r.id == "" {
      RecordSkipped(records, before);
    } else {
      GivenBefore(records, before);
      if r.id !in before {
        RecordAdded(records, before);
      }
    }
  }

  lemma GivenBefore(records: seq<ScreenRecord>, before: Screens)
    requires records != [] && records[|records| - 1].id != "" && ScreensFor(records[..|records| - 1], before)
    ensures records[|records| - 1].id in before
       <==> exists i :: 0 <= i < |records| - 1 && records[i].id == records[|records| - 1].id
  {
    hide Numbered;
    var n, x := |records| - 1, records[|records| - 1].id;
    if x in before {
      assert NamedIn(records[..n], x);
      var i :| 0 <= i < n && records[..n][i].id == x;
      assert records[i].id == x;
    }
    if i :| 0 <= i < n && records[i].id == x {
      assert ScreenOf(records[..n], i, before);
    }
  }

  lemma RecordSkipped(records: seq<ScreenRecord>, before: Screens)
    requires records != [] && records[|records| - 1].id == "" && ScreensFor(records[..|records| - 1], before)
    ensures ScreensFor(records, before)
  {
    NamesStay(records);
    StillThere(records, before);
    NumberedNext(records);
    hide Numbered, ScreenOf, NamedIn;
  }

  lemma RecordAdded(records: seq<ScreenRecord>, before: Screens)
    requires records != [] && records[|records| - 1].id != "" && ScreensFor(records[..|records| - 1], before)
    requires records[|records| - 1].id !in before
    ensures var r := records[|records| - 1];
            ScreensFor(records, before[r.id := Screen(r.title, r.content, r.revision, |before|,
                                                      r.updatedAt, r.updatedBy)])
  {
    var n, r := |records| - 1, records[|records| - 1];
    var row := Screen(r.title, r.content, r.revision, |before|, r.updatedAt, r.updatedBy);
    NamesStay(records);
    StillThere(records, before);
    NumberedNext(records);
    LastScreen(records, before);
    hide Numbered, NamedIn, ScreenOf;
    forall i | 0 <= i < n && records[i].id != ""
      ensures ScreenOf(records, i, before[r.id := row])
    {
      ScreenStays(records, i, before, r.id, row);
    }
  }

  lemma LastScreen(records: seq<ScreenRecord>, before: Screens)
    requires records != [] && |before| == Numbered(records, |records| - 1)
    ensures var n, r := |records| - 1, records[|records| - 1];
            ScreenOf(records, n, before[r.id := Screen(r.title, r.content, r.revision, |before|,
                                                       r.updatedAt, r.updatedBy)])
  {
    hide Numbered;
  }

  lemma ScreenStays(records: seq<ScreenRecord>, i: nat, before: Screens, id: string, row: Screen)
    requires i < |records| && ScreenOf(records, i, before) && id !in before
    ensures ScreenOf(records, i, before[id := row])
  {
  }

  lemma NumberedNext(records: seq<ScreenRecord>)
    requires records != []
    ensures var n := |records| - 1;
            Numbered(records, n + 1) == Numbered(records, n) + if records[n].id != "" then 1 else 0
    ensures Numbered(records[..|records| - 1], |records| - 1) == Numbered(records, |records| - 1)
  {
    SameNumber(records, |records| - 1);
  }

  lemma NamesStay(records: seq<ScreenRecord>)
    requires records != []
    ensures forall x | NamedIn(records[..|records| - 1], x) :: NamedIn(records, x)
    ensures NamedIn(records, records[|records| - 1].id)
  {
    forall x | NamedIn(records[..|records| - 1], x)
      ensures NamedIn(records, x)
    {
      var i :| 0 <= i < |records| - 1 && records[..|records| - 1][i].id == x;
      assert records[i].id == x;
    }
  }

  // What holds of the screens of the first records holds of them among one more.
  lemma StillThere(records: seq<ScreenRecord>, before: Screens)
    requires records != [] && ScreensFor(records[..|records| - 1], before)
    ensures forall i | 0 <= i < |records| - 1 && records[i].id != "" :: ScreenOf(records, i, before)
  {
    SameNumbers(records);
    hide Numbered;
    forall i | 0 <= i < |records| - 1 && records[i].id != ""
      ensures ScreenOf(records, i, before)
    {
      assert ScreenOf(records[..|records| - 1], i, before);
    }
  }

  lemma SameNumbers(records: seq<ScreenRecord>)
    requires records != []
    ensures forall k | 0 <= k < |records| :: Numbered(records[..|records| - 1], k) == Numbered(records, k)
  {
    forall k | 0 <= k < |records|
      ensures Numbered(records[..|records| - 1], k) == Numbered(records, k)
    {
      SameNumber(records, k);
    }
  }

  lemma {:induction false} SameNumber(records: seq<ScreenRecord>, k: nat)
    requires k < |records|
    ensures Numbered(records[..|records| - 1], k) == Numbered(records, k)
  {
    if k > 0 {
      SameNumber(records, k - 1);
    }
  }

  // One more record repeats no id if the others do not and it is new among them.
  lemma DistinctUpTo(records: seq<ScreenRecord>)
    requires records != []
    ensures var n := |records| - 1;
            IdsDistinct(records) <==>
              && IdsDistinct(records[..n])
              && (records[n].id != "" ==> forall i | 0 <= i < n :: records[i].id != records[n].id)
  {
    var n := |records| - 1;
    if IdsDistinct(records) {
      forall i, j | 0 <= i < j < n && records[..n][i].id != ""
        ensures records[..n][i].id != records[..n][j].id
      {
        assert records[i].id != records[j].id;
      }
    } else {
      var i, j :| 0 <= i < j < |records| && records[i].id != "" && records[i].id == records[j].id;
      if j < n {
        assert records[..n][i].id == records[..n][j].id;
      }
    }
  }

  // ---------------------------------------------------------------- when an operation goes through

  /** What an operation has to meet: room and a new id; an existing screen at the revision the caller has
      seen; no start screen while there are others; a start screen there is, and an order of all screens
      that names no screen twice; no record given twice. */
  ghost predicate Acceptable(h: Hmi, op: Op) {
    match op
    case Insert(id, _, _, _, _, maxScreens) => |h.screens| < maxScreens && id !in h.screens
    case UpdateScreen(id, _, _, _, _, revision) => id in h.screens && h.screens[id].revision == revision
    case Delete(id) => id in h.screens && (ProjectOf(h).startScreen == id ==> |h.screens| == 1)
    case UpdateProject(u) =>
      && u.revision == ProjectOf(h).revision
      && (u.startScreen.Some? ==>
            if u.startScreen.value == "" then h.screens == map[] else u.startScreen.value in h.screens)
      && (u.order.Some? ==>
            |u.order.value| == |h.screens| && forall x | x in h.screens :: x in u.order.value)
    case Restore(backup) => IdsDistinct(backup.screens)
    case Reset => true
  }

  /** An operation goes through exactly if it is acceptable, and a refusal names its first reason. */
  lemma AcceptedIff(h: Hmi, op: Op)
    ensures var result := Step(h, op).1;
            && (result == Ok <==> Acceptable(h, op))
            && (result == TooManyScreens <==> op.Insert? && |h.screens| >= op.maxScreens)
            && (result == StartScreenProtected <==>
                  op.Delete? && op.id in h.screens && op.id == ProjectOf(h).startScreen && |h.screens| > 1)
            && (op.UpdateProject? && op.update.revision != ProjectOf(h).revision ==> result == RevisionMismatch)
            && (op.UpdateScreen? || op.Delete? ==> (result == NotFound <==> op.id !in h.screens))
  {
    match op
    case Delete(id) =>
      assert id in h.screens ==> |h.screens| > 0;
    case UpdateProject(u) =>
      if u.order.Some? {
        FullOrderIff(h.screens, u.order.value);
      }
    case Restore(backup) =>
      RestoreMeans(h, backup);
    case _ =>
  }

  // A list of all screens as long as there are screens names each of them once.
  lemma FullOrderIff(screens: Screens, order: seq<string>)
    ensures Distinct(order) && Covers(screens, order)
       <==> |order| == |screens| && forall x | x in screens :: x in order
  {
    var named := NamesOf(order);
    NamesCount(order);
    if |order| == |screens| && forall x | x in screens :: x in order {
      assert screens.Keys <= named;
      SubsetOfSameSize(screens.Keys, named);
    }
    if Covers(screens, order) {
      assert named == screens.Keys;
    }
  }

  ghost function NamesOf(order: seq<string>): set<string> {
    set x | x in order
  }

  lemma {:induction false} NamesCount(order: seq<string>)
    ensures |NamesOf(order)| <= |order|
    ensures |NamesOf(order)| == |order| <==> Distinct(order)
  {
    if order != [] {
      hide Distinct;
      var before, last := order[..|order| - 1], order[|order| - 1];
      NamesCount(before);
      DistinctByLast(order);
      assert order == before + [last];
      assert NamesOf(order) == NamesOf(before) + {last};
      assert last in before ==> NamesOf(order) == NamesOf(before);
    }
  }

  lemma DistinctByLast(order: seq<string>)
    requires order != []
    ensures var n := |order| - 1; Distinct(order) <==> Distinct(order[..n]) && order[n] !in order[..n]
  {
    var before, last := order[..|order| - 1], order[|order| - 1];
    if last in before {
      var i :| 0 <= i < |before| && before[i] == last;
      assert order[i] == last;
    }
    if !Distinct(before) {
      var i, j :| 0 <= i < j < |before| && before[i] == before[j];
      assert order[i] == order[j];
    }
  }

  lemma SubsetOfSameSize(a: set<string>, b: set<string>)
    requires a <= b && |b| <= |a|
    ensures a == b
  {
    var rest := b - a;
    assert b == a + rest;
    assert |rest| == 0;
  }

  /** A refused operation leaves project and screens as they were. */
  lemma RefusedChangesNothing(h: Hmi, op: Op)
    ensures Step(h, op).1 != Ok ==> Step(h, op).0 == h
  {
  }

  // ---------------------------------------------------------------- the invariant

  predicate SortsDistinct(screens: Screens) {
    forall a, b | a in screens && b in screens && a != b :: screens[a].sortOrder != screens[b].sortOrder
  }

  /** The start screen is empty exactly when there are no screens and otherwise names one of them;
      no two screens have the same sort order; every screen has an id. */
  predicate Inv(h: Hmi) {
    && StartAllowed(h.screens, ProjectOf(h).startScreen)
    && SortsDistinct(h.screens)
    && "" !in h.screens
  }

  lemma PositionsDistinct(screens: Screens, order: seq<string>)
    requires Covers(screens, order)
    ensures SortsDistinct(Reordered(screens, order))
  {
    forall a, b | a in screens && b in screens && a != b
      ensures Position(order, a) != Position(order, b)
    {
    }
  }

  lemma {:induction false} RestoredScreensLaws(records: seq<ScreenRecord>)
    ensures RestoredScreens(records).Some? <==> Distinct(RecordIds(records))
    ensures "" !in RecordIds(records)
    ensures RestoredScreens(records).Some? ==>
              var s, ids := RestoredScreens(records).value, RecordIds(records);
              && |s| == |ids| && Covers(s, ids)
              && forall i | 0 <= i < |ids| :: s[ids[i]].sortOrder == i
    decreases |records|
  {
    if records != [] {
      var init, r := records[..|records| - 1], records[|records| - 1];
      RestoredScreensLaws(init);
      var ids, ids' := RecordIds(init), RecordIds(records);
      if r.id != "" {
        assert ids' == ids + [r.id];
        if Distinct(ids') {
          assert Distinct(ids) by {
            forall i, j | 0 <= i < j < |ids|
              ensures ids[i] != ids[j]
            {
              assert ids'[i] != ids'[j];
            }
          }
          assert r.id !in ids by {
            forall i | 0 <= i < |ids|
              ensures ids[i] != r.id
            {
              assert ids'[i] != ids'[|ids|];
            }
          }
        }
      }
    }
  }

  lemma RestoredIsListed(records: seq<ScreenRecord>)
    requires RestoredScreens(records).Some?
    ensures IsListing(RestoredScreens(records).value, RecordIds(records))
    ensures SortsDistinct(RestoredScreens(records).value) && "" !in RestoredScreens(records).value
  {
    RestoredScreensLaws(records);
    var s, ids := RestoredScreens(records).value, RecordIds(records);
    forall i, j | 0 <= i < j < |ids|
      ensures Before(s, ids[i], ids[j])
    {
      assert s[ids[i]].sortOrder == i && s[ids[j]].sortOrder == j;
    }
    forall a, b | a in s && b in s && a != b
      ensures s[a].sortOrder != s[b].sortOrder
    {
      var i :| 0 <= i < |ids| && ids[i] == a;
      var j :| 0 <= j < |ids| && ids[j] == b;
    }
  }

  // Does the operation bring in a screen without an id?
  predicate NamesItsScreen(op: Op) {
    op.Insert? ==> op.id != ""
  }

  /** Every operation keeps the invariant, but a successful insert keeps it only for an id that is
      not empty: the callers' id check is exactly what the store relies on. */
  lemma StepKeepsInvariant(h: Hmi, op: Op)
    requires Inv(h)
    ensures Inv(Step(h, op).0) <==> Step(h, op).1 != Ok || NamesItsScreen(op)
  {
    var h' := Step(h, op).0;
    match op
    case Insert(id, _, _, _, _, _) =>
      if Step(h, op).1 == Ok {
        assert id in h'.screens;
        assert |h.screens| == 0 <==> h.screens == map[];
      }
    case UpdateScreen(_, _, _, _, _, _) =>
    case Delete(id) =>
      if Step(h, op).1 == Ok {
        DeleteKeepsInvariant(h, id);
      }
    case UpdateProject(u) =>
      if Step(h, op).1 == Ok && u.order.Some? {
        PositionsDistinct(h.screens, u.order.value);
      }
    case Restore(backup) =>
      if Step(h, op).1 == Ok {
        RestoredIsListed(backup.screens);
        RestoredScreensLaws(backup.screens);
      }
    case Reset =>
  }

  lemma DeleteKeepsInvariant(h: Hmi, id: string)
    requires Inv(h) && Step(h, Delete(id)).1 == Ok
    ensures Inv(Step(h, Delete(id)).0)
  {
    var rest := h.screens - {id};
    assert rest.Keys == h.screens.Keys - {id};
    assert |rest| == |h.screens| - 1;
  }

  // ---------------------------------------------------------------- runs

  ghost function After(h: Hmi, ops: seq<Op>): Hmi {
    if ops == [] then h else Step(After(h, ops[..|ops| - 1]), ops[|ops| - 1]).0
  }

  // The result of operation k of a run.
  ghost function Outcome(h: Hmi, ops: seq<Op>, k: nat): OpResult
    requires k < |ops|
  {
    Step(After(h, ops[..k]), ops[k]).1
  }

  lemma AfterOneMore(h: Hmi, ops: seq<Op>, k: nat)
    requires k < |ops|
    ensures After(h, ops[..k + 1]) == Step(After(h, ops[..k]), ops[k]).0
  {
    assert ops[..k + 1][..k] == ops[..k];
  }

  lemma {:induction false} AfterSplits(h: Hmi, a: seq<Op>, b: seq<Op>)
    ensures After(h, a + b) == After(After(h, a), b)
    decreases |b|
  {
    if b == [] {
      assert a + b == a;
    } else {
      AfterSplits(h, a, b[..|b| - 1]);
      assert (a + b)[..|a + b| - 1] == a + b[..|b| - 1];
    }
  }

  ghost predicate ScreensNamed(ops: seq<Op>) {
    forall k | 0 <= k < |ops| :: NamesItsScreen(ops[k])
  }

  /** Over every run of inserts, updates, deletes, restores and resets. */
  lemma {:induction false} InvariantOverRuns(h: Hmi, ops: seq<Op>)
    requires Inv(h) && ScreensNamed(ops)
    ensures Inv(After(h, ops))
    decreases |ops|
  {
    if ops != [] {
      var init := ops[..|ops| - 1];
      InvariantOverRuns(h, init);
      assert NamesItsScreen(ops[|ops| - 1]);
      StepKeepsInvariant(After(h, init), ops[|ops| - 1]);
    }
  }

  // ---------------------------------------------------------------- the store as an ordered list

  /** What a client sees: the listed ids, the start screen and the project revision. */
  datatype Book = Book(listing: seq<string>, project: Project)

  ghost predicate IsView(h: Hmi, b: Book) {
    IsListing(h.screens, b.listing) && ProjectOf(h) == b.project
  }

  function Without(listing: seq<string>, id: string): seq<string> {
    if listing == [] then []
    else if listing[0] == id then listing[1..]
    else [listing[0]] + Without(listing[1..], id)
  }

  // The same operations on the ordered list. Screen updates do not show.
  function BookStep(b: Book, op: Op): (Book, OpResult)
    requires !op.UpdateScreen?
  {
    var p, n := b.project, |b.listing|;
    match op
    case Insert(id, _, _, _, _, maxScreens) =>
      if n >= maxScreens then (b, TooManyScreens)
      else if id in b.listing then (b, DuplicateId)
      else (Book(b.listing + [id], Project(p.name, if n == 0 then id else p.startScreen, p.revision + 1)), Ok)
    case Delete(id) =>
      if id !in b.listing then (b, NotFound)
      else if id == p.startScreen && n > 1 then (b, StartScreenProtected)
      else (Book(Without(b.listing, id),
                 Project(p.name, if id == p.startScreen then "" else p.startScreen, p.revision + 1)), Ok)
    case UpdateProject(u) =>
      if u.revision != p.revision then (b, RevisionMismatch)
      else if u.startScreen.Some? && !(if u.startScreen.value == "" then n == 0 else u.startScreen.value in b.listing)
      then (b, InvalidStartScreen)
      else if u.order.Some? && multiset(u.order.value) != multiset(b.listing) then (b, InvalidOrder)
      else (Book(if u.order.Some? then u.order.value else b.listing,
                 Project(if u.name.Some? then u.name.value else p.name,
                         if u.startScreen.Some? then u.startScreen.value else p.startScreen, p.revision + 1)), Ok)
    case Restore(backup) =>
      var ids := RecordIds(backup.screens);
      if !Distinct(ids) then (b, Error)
      else (Book(ids, Project(backup.project.name, RestoredStart(ids, backup.project.startScreen),
                               backup.project.revision)), Ok)
    case Reset =>
      (Book([], Project("", "", 0)), Ok)
  }

  lemma {:induction false} ListingCounts(screens: Screens, listing: seq<string>)
    requires IsListing(screens, listing)
    ensures |listing| == |screens|
    decreases |listing|
  {
    if listing == [] {
      assert screens == map[];
    } else {
      TailIsListing(screens, listing);
      var rest := screens - {listing[0]};
      assert rest.Keys == screens.Keys - {listing[0]};
      ListingCounts(rest, listing[1..]);
    }
  }

  ghost predicate Follows(h: Hmi, b: Book, op: Op)
    requires !op.UpdateScreen?
  {
    IsView(Step(h, op).0, BookStep(b, op).0) && Step(h, op).1 == BookStep(b, op).1
  }

  /** The tables with their sort orders behave as the ordered list: same results, same listing,
      same project, for every operation. An inserted screen is listed last, an accepted order is
      the listing, a delete keeps the order of the others. */
  lemma StoreRefinesBook(h: Hmi, b: Book, op: Op)
    requires IsView(h, b) && !op.UpdateScreen?
    ensures IsView(Step(h, op).0, BookStep(b, op).0)
    ensures Step(h, op).1 == BookStep(b, op).1
  {
    assert Follows(h, b, op) by {
      hide *;
      match op
      case Insert(_, _, _, _, _, _) => InsertFollows(h, b, op);
      case Delete(_) => DeleteFollows(h, b, op);
      case UpdateProject(_) => ProjectUpdateFollows(h, b, op);
      case Restore(_) => RestoreFollows(h, b, op);
      case Reset => ResetFollows(h, b);
    }
  }

  lemma InsertFollows(h: Hmi, b: Book, op: Op)
    requires IsView(h, b) && op.Insert?
    ensures Follows(h, b, op)
  {
    hide IsListing;
    ListingCounts(h.screens, b.listing);
    MembersAreKeys(h.screens, b.listing, op.id);
    if Step(h, op).1 == Ok {
      InsertLandsLast(h.screens, b.listing, op.id, Step(h, op).0.screens[op.id]);
    }
  }

  lemma DeleteFollows(h: Hmi, b: Book, op: Op)
    requires IsView(h, b) && op.Delete?
    ensures Follows(h, b, op)
  {
    hide IsListing, Without;
    ListingCounts(h.screens, b.listing);
    MembersAreKeys(h.screens, b.listing, op.id);
    if Step(h, op).1 == Ok {
      DeleteKeepsOrder(h.screens, b.listing, op.id);
    }
  }

  lemma ProjectUpdateFollows(h: Hmi, b: Book, op: Op)
    requires IsView(h, b) && op.UpdateProject?
    ensures Follows(h, b, op)
  {
    hide IsListing, Covers, Distinct, Reordered;
    ListingCounts(h.screens, b.listing);
    var u := op.update;
    if u.startScreen.Some? {
      MembersAreKeys(h.screens, b.listing, u.startScreen.value);
      assert |h.screens| == 0 <==> h.screens == map[];
    }
    if u.order.Some? {
      PermutationIff(h.screens, b.listing, u.order.value);
      if Distinct(u.order.value) && Covers(h.screens, u.order.value) {
        AcceptedOrderIsListing(h.screens, u.order.value);
      }
    }
  }

  lemma RestoreFollows(h: Hmi, b: Book, op: Op)
    requires IsView(h, b) && op.Restore?
    ensures Follows(h, b, op)
  {
    hide IsListing, RestoredScreens, RecordIds, Distinct, RestoredStart;
    RestoredScreensLaws(op.backup.screens);
    if RestoredScreens(op.backup.screens).Some? {
      RestoredIsListed(op.backup.screens);
    }
  }

  lemma ResetFollows(h: Hmi, b: Book)
    requires IsView(h, b)
    ensures Follows(h, b, Reset)
  {
    NothingListed();
  }

  lemma NothingListed()
    ensures IsListing(map[], [])
  {
  }

  lemma MembersAreKeys(screens: Screens, listing: seq<string>, id: string)
    requires IsListing(screens, listing)
    ensures id in listing <==> id in screens
  {
  }

  lemma InsertLandsLast(screens: Screens, listing: seq<string>, id: string, s: Screen)
    requires IsListing(screens, listing) && id !in screens && s.sortOrder == TopSort(screens) + 1
    ensures IsListing(screens[id := s], listing + [id])
  {
    var more, ids := screens[id := s], listing + [id];
    forall i, j | 0 <= i < j < |ids|
      ensures Before(more, ids[i], ids[j])
    {
      if j < |listing| {
        assert Before(screens, listing[i], listing[j]);
      }
    }
    forall x | x in more
      ensures x in ids
    {
      if x != id {
        assert x in listing;
      }
    }
  }

  lemma AcceptedOrderIsListing(screens: Screens, order: seq<string>)
    requires Distinct(order) && Covers(screens, order)
    ensures IsListing(Reordered(screens, order), order)
  {
    var r := Reordered(screens, order);
    forall i, j | 0 <= i < j < |order|
      ensures Before(r, order[i], order[j])
    {
      PositionOfMember(order, i);
      PositionOfMember(order, j);
    }
  }

  lemma PositionOfMember(order: seq<string>, i: nat)
    requires Distinct(order) && i < |order|
    ensures Position(order, order[i]) == i
  {
  }

  lemma {:induction false} WithoutIsRest(listing: seq<string>, id: string)
    requires Distinct(listing) && id in listing
    ensures Without(listing, id) == listing[..Position(listing, id)] + listing[Position(listing, id) + 1..]
    decreases |listing|
  {
    if listing[0] != id {
      assert id in listing[1..];
      WithoutIsRest(listing[1..], id);
    }
  }

  lemma DeleteKeepsOrder(screens: Screens, listing: seq<string>, id: string)
    requires IsListing(screens, listing) && id in screens
    ensures IsListing(screens - {id}, Without(listing, id))
  {
    hide Before;
    ListingIsDistinct(screens, listing);
    assert id in listing;
    WithoutIsRest(listing, id);
    var k := Position(listing, id);
    CutListing(screens, listing, k);
  }

  // A listing without its k-th entry lists the others.
  lemma CutListing(screens: Screens, listing: seq<string>, k: nat)
    requires IsListing(screens, listing) && Distinct(listing) && k < |listing|
    ensures IsListing(screens - {listing[k]}, listing[..k] + listing[k + 1..])
  {
    hide Before, TextLess;
    var rest, ids := screens - {listing[k]}, listing[..k] + listing[k + 1..];
    forall i | 0 <= i < |ids|
      ensures ids[i] in rest && ids[i] == listing[if i < k then i else i + 1]
    {
      assert listing[if i < k then i else i + 1] != listing[k];
    }
    forall i, j | 0 <= i < j < |ids|
      ensures Before(rest, ids[i], ids[j])
    {
      assert Before(screens, listing[if i < k then i else i + 1], listing[if j < k then j else j + 1]);
      BeforeStays(screens, listing[k], ids[i], ids[j]);
    }
    forall x | x in rest
      ensures x in ids
    {
      var i :| 0 <= i < |listing| && listing[i] == x;
      assert ids[if i < k then i else i - 1] == x;
    }
  }

  lemma BeforeStays(screens: Screens, id: string, a: string, b: string)
    requires a in screens && b in screens && a != id && b != id
    ensures Before(screens - {id}, a, b) == Before(screens, a, b)
  {
  }

  /** Screen updates are invisible to the project and to the listing. */
  lemma ScreenUpdateKeepsView(h: Hmi, b: Book, op: Op)
    requires IsView(h, b) && op.UpdateScreen?
    ensures IsView(Step(h, op).0, b)
  {
    var h' := Step(h, op).0;
    forall i, j | 0 <= i < j < |b.listing|
      ensures Before(h'.screens, b.listing[i], b.listing[j])
    {
      assert Before(h.screens, b.listing[i], b.listing[j]);
    }
  }

  // ---------------------------------------------------------------- optimistic locking

  predicate KeepsHistory(op: Op) {
    !op.Restore? && !op.Reset?
  }

  predicate ChangesProject(op: Op) {
    op.Insert? || op.Delete? || op.UpdateProject?
  }

  ghost predicate HistoryKept(ops: seq<Op>) {
    forall k | 0 <= k < |ops| :: KeepsHistory(ops[k])
  }

  // How many project-changing operations of the run were carried out.
  ghost function ProjectChanges(h: Hmi, ops: seq<Op>): nat {
    if ops == [] then 0
    else
      var n := |ops| - 1;
      ProjectChanges(h, ops[..n])
      + if ChangesProject(ops[n]) && Step(After(h, ops[..n]), ops[n]).1 == Ok then 1 else 0
  }

  lemma ProjectRevisionStep(h: Hmi, op: Op)
    requires KeepsHistory(op)
    ensures ProjectOf(Step(h, op).0).revision
         == ProjectOf(h).revision + if ChangesProject(op) && Step(h, op).1 == Ok then 1 else 0
  {
  }

  /** The project revision counts the successful project changes, and nothing else moves it. */
  lemma {:induction false} ProjectRevisionCounts(h: Hmi, ops: seq<Op>)
    requires HistoryKept(ops)
    ensures ProjectOf(After(h, ops)).revision == ProjectOf(h).revision + ProjectChanges(h, ops)
    decreases |ops|
  {
    hide Step, ProjectOf, ChangesProject, KeepsHistory;
    if ops != [] {
      assert KeepsHistory(ops[|ops| - 1]);
      ProjectRevisionCounts(h, ops[..|ops| - 1]);
      ProjectRevisionStep(After(h, ops[..|ops| - 1]), ops[|ops| - 1]);
    }
  }

  /** Of two project updates from the same base revision at most one is carried out. */
  lemma StaleProjectUpdateRefused(h: Hmi, ops: seq<Op>, i: nat, j: nat)
    requires i < j < |ops| && HistoryKept(ops[i + 1..j])
    requires ops[i].UpdateProject? && ops[j].UpdateProject?
    requires ops[i].update.revision == ops[j].update.revision
    ensures !(Outcome(h, ops, i) == Ok && Outcome(h, ops, j) == Ok)
  {
    hide After, ProjectChanges, HistoryKept;
    var done := ops[..i + 1];
    AfterOneMore(h, ops, i);
    AfterSplits(h, done, ops[i + 1..j]);
    assert done + ops[i + 1..j] == ops[..j];
    ProjectRevisionCounts(After(h, done), ops[i + 1..j]);
  }

  // Operation k does not end the lifetime of the screen.
  ghost predicate SparesAt(h: Hmi, ops: seq<Op>, id: string, k: nat)
    requires k < |ops|
  {
    KeepsHistory(ops[k]) && (ops[k] == Delete(id) ==> Outcome(h, ops, k) != Ok)
  }

  ghost predicate Spares(h: Hmi, ops: seq<Op>, id: string) {
    forall k | 0 <= k < |ops| :: SparesAt(h, ops, id, k)
  }

  ghost function ScreenChanges(h: Hmi, ops: seq<Op>, id: string): nat {
    if ops == [] then 0
    else
      var n := |ops| - 1;
      ScreenChanges(h, ops[..n], id)
      + if ops[n].UpdateScreen? && ops[n].id == id && Step(After(h, ops[..n]), ops[n]).1 == Ok then 1 else 0
  }

  lemma ScreenRevisionStep(h: Hmi, op: Op, id: string)
    requires id in h.screens && KeepsHistory(op) && (op == Delete(id) ==> Step(h, op).1 != Ok)
    ensures id in Step(h, op).0.screens
    ensures Step(h, op).0.screens[id].revision
         == h.screens[id].revision + if op.UpdateScreen? && op.id == id && Step(h, op).1 == Ok then 1 else 0
  {
    hide TopSort;
  }

  /** While a screen lives, its revision counts its successful updates. */
  lemma {:induction false} ScreenRevisionCounts(h: Hmi, ops: seq<Op>, id: string)
    requires id in h.screens && Spares(h, ops, id)
    ensures id in After(h, ops).screens
    ensures After(h, ops).screens[id].revision == h.screens[id].revision + ScreenChanges(h, ops, id)
    decreases |ops|
  {
    if ops != [] {
      var n := |ops| - 1;
      var init := ops[..n];
      assert SparesAt(h, ops, id, n);
      forall k | 0 <= k < n
        ensures SparesAt(h, init, id, k)
      {
        assert SparesAt(h, ops, id, k);
        assert init[..k] == ops[..k];
      }
      ScreenRevisionCounts(h, init, id);
      hide Step;
      ScreenRevisionStep(After(h, init), ops[n], id);
    }
  }

  /** Of two updates of a screen from the same base revision, within one lifetime of the screen,
      at most one is carried out. */
  lemma StaleScreenUpdateRefused(h: Hmi, ops: seq<Op>, i: nat, j: nat)
    requires i < j < |ops|
    requires ops[i].UpdateScreen? && ops[j].UpdateScreen? && ops[i].id == ops[j].id
    requires ops[i].revision == ops[j].revision
    requires Spares(After(h, ops[..i + 1]), ops[i + 1..j], ops[i].id)
    ensures !(Outcome(h, ops, i) == Ok && Outcome(h, ops, j) == Ok)
  {
    hide After, ScreenChanges, Spares;
    var done := ops[..i + 1];
    AfterOneMore(h, ops, i);
    AfterSplits(h, done, ops[i + 1..j]);
    assert done + ops[i + 1..j] == ops[..j];
    if Outcome(h, ops, i) == Ok {
      ScreenRevisionCounts(After(h, done), ops[i + 1..j], ops[i].id);
    }
  }

  // Update, delete, insert again, update: both updates from revision 1.
  function TwoLifetimes(id: string, maxScreens: int): seq<Op> {
    [UpdateScreen(id, None, "first", "", "", 1), Delete(id), Insert(id, "", "", "", "", maxScreens),
     UpdateScreen(id, None, "second", "", "", 1)]
  }

  /** Across two lifetimes both may be: a screen that is deleted and inserted again starts over at
      revision 1, so a writer that still holds revision 1 of the first overwrites the second. */
  lemma LifetimesShareRevisions(h: Hmi, id: string, maxScreens: int)
    requires id in h.screens && h.screens[id].revision == 1
    requires ProjectOf(h).startScreen != id && |h.screens| <= maxScreens
    ensures Outcome(h, TwoLifetimes(id, maxScreens), 0) == Ok
    ensures Outcome(h, TwoLifetimes(id, maxScreens), 3) == Ok
  {
    var ops := TwoLifetimes(id, maxScreens);
    AfterOneMore(h, ops, 0);
    AfterOneMore(h, ops, 1);
    AfterOneMore(h, ops, 2);
    assert After(h, ops[..0]) == h;
    hide After, Step;
    var h1, h2, h3 := After(h, ops[..1]), After(h, ops[..2]), After(h, ops[..3]);
    UpdateGoesThrough(h, id, "first");
    DeleteGoesThrough(h1, id);
    InsertGoesThrough(h2, id, maxScreens);
    UpdateGoesThrough(h3, id, "second");
  }

  lemma UpdateGoesThrough(h: Hmi, id: string, content: string)
    requires id in h.screens && h.screens[id].revision == 1
    ensures var (h', result) := Step(h, UpdateScreen(id, None, content, "", "", 1));
            && result == Ok && id in h'.screens && |h'.screens| == |h.screens| && ProjectOf(h') == ProjectOf(h)
  {
    assert Step(h, UpdateScreen(id, None, content, "", "", 1)).0.screens.Keys == h.screens.Keys;
  }

  lemma DeleteGoesThrough(h: Hmi, id: string)
    requires id in h.screens && ProjectOf(h).startScreen != id
    ensures var (h', result) := Step(h, Delete(id));
            result == Ok && id !in h'.screens && |h'.screens| == |h.screens| - 1
  {
    assert Step(h, Delete(id)).0.screens.Keys == h.screens.Keys - {id};
  }

  lemma InsertGoesThrough(h: Hmi, id: string, maxScreens: int)
    requires id !in h.screens && |h.screens| < maxScreens
    ensures var (h', result) := Step(h, Insert(id, "", "", "", "", maxScreens));
            result == Ok && id in h'.screens && h'.screens[id].revision == 1
  {
    hide TopSort;
  }
}
