/** The HMI operations as the database code runs them: statement by statement inside a
    transaction, any statement of which may fail. */
module HmiTables {
  import opened Wrappers
  import opened HmiListing
  import opened HmiStore

  class Tables {
    var row: Option<Project>
    var screens: Screens
    // How many more statements the database carries out before one fails.
    var statements: nat

    constructor (statements: nat)
      ensures State() == Hmi(None, map[]) && this.statements == statements
    {
      row := None;
      screens := map[];
      this.statements := statements;
    }

    function State(): Hmi
      reads this
    {
      Hmi(row, screens)
    }

    method Execute() returns (ok: bool)
      modifies this`statements
      ensures ok <==> old(statements) > 0
      ensures statements == if ok then old(statements) - 1 else 0
    {
      ok := statements > 0;
      if ok {
        statements := statements - 1;
      }
    }

    method Rollback(row0: Option<Project>, screens0: Screens)
      modifies this`row, this`screens
      ensures row == row0 && screens == screens0
    {
      row := row0;
      screens := screens0;
    }

    // "INSERT OR IGNORE" of the single project row, then reading it back.
    method EnsureProjectRow() returns (ok: bool, project: Project)
      modifies this`row, this`statements
      ensures !ok ==> statements == 0
      ensures ok ==> row == Some(project) && project == old(ProjectOf(State()))
      ensures statements <= old(statements)
    {
      project := Project("", "", 0);
      ok := Execute();
      if !ok {
        return;
      }
      if row.None? {
        row := Some(project);
      }
      ok := Execute();
      if ok {
        project := row.value;
      }
    }

    // "UPDATE hmi_project SET revision = revision + 1", then reading it back.
    method BumpRevision() returns (ok: bool, revision: int)
      requires row.Some?
      modifies this`row, this`statements
      ensures !ok ==> statements == 0
      ensures ok ==> row == Some(old(row).value.(revision := old(row).value.revision + 1))
                     && revision == row.value.revision
    {
      revision := 0;
      ok := Execute();
      if !ok {
        return;
      }
      row := Some(row.value.(revision := row.value.revision + 1));
      ok := Execute();
      revision := row.value.revision;
    }

    // ---------------------------------------------------------------- screens

    /** Adds a screen at the end; the first one becomes the start screen. */
    method InsertScreen(op: Op) returns (result: OpResult, project: Project)
      requires op.Insert?
      modifies this
      ensures result != Error ==> (State(), result) == Step(old(State()), op)
      ensures result == Error ==> State() == old(State()) && statements == 0
      ensures result == Ok ==> project == ProjectOf(State())
      ensures result == Ok ==> ScreenAdded(old(State()), op, State())
      ensures result != Ok ==> State() == old(State())
    {
      hide TopSort, IsTopSort, Deleted, ScreenUpdated, ProjectUpdated, Restored, ScreenAdded;
      StepMeans(State(), op);
      var row0, screens0 := row, screens;
      var ok: bool;
      ok, project := EnsureProjectRow();
      var current := project;
      if !ok { Rollback(row0, screens0); return Error, current; }

      ok := Execute();
      if !ok { Rollback(row0, screens0); return Error, current; }
      var count := |screens|;
      var maxSortOrder := QueryTopSort(screens);
      if count >= op.maxScreens { Rollback(row0, screens0); return TooManyScreens, current; }

      ok := Execute();
      if !ok { Rollback(row0, screens0); return Error, current; }
      if op.id in screens { Rollback(row0, screens0); return DuplicateId, current; }

      ok := Execute();
      if !ok { Rollback(row0, screens0); return Error, current; }
      screens := screens[op.id := Screen(op.title, op.content, 1, maxSortOrder + 1, op.now, op.author)];

      var startScreen := current.startScreen;
      if count == 0 {
        startScreen := op.id;
        ok := Execute();
        if !ok { Rollback(row0, screens0); return Error, current; }
        row := Some(row.value.(startScreen := startScreen));
      }

      var newRevision: int;
      ok, newRevision := BumpRevision();
      if !ok { Rollback(row0, screens0); return Error, current; }
      return Ok, Project(current.name, startScreen, newRevision);
    }

    /** Replaces a screen's content if the caller has seen its latest revision. */
    method UpdateScreen(op: Op) returns (result: OpResult, current: Screen)
      requires op.UpdateScreen?
      modifies this
      ensures result != Error ==> (State(), result) == Step(old(State()), op)
      ensures result == Error ==> State() == old(State()) && statements == 0
      ensures result == Ok ==> current == screens[op.id].(content := "", sortOrder := 0)
      ensures result == RevisionMismatch ==> current == screens[op.id].(content := "", sortOrder := 0)
      ensures result == Ok ==>
                && op.id in old(screens) && old(screens)[op.id].revision == op.revision
                && row == old(row) && screens.Keys == old(screens).Keys
                && (forall id | id in screens && id != op.id :: screens[id] == old(screens)[id])
                && var was, s := old(screens)[op.id], screens[op.id];
                   && s.content == op.content && s.revision == was.revision + 1 && s.sortOrder == was.sortOrder
                   && s.title == (if op.newTitle.Some? then op.newTitle.value else was.title)
                   && s.updatedAt == op.now && s.updatedBy == op.author
      ensures result != Ok ==> State() == old(State())
    {
      hide IsTopSort, TopSort, Inserted, Deleted, ProjectUpdated, Restored;
      var row0, screens0 := row, screens;
      current := Screen("", "", 0, 0, "", "");
      var ok := Execute();
      if !ok { return Error, current; }
      if op.id !in screens { return NotFound, current; }
      var have := screens[op.id];
      current := Screen(have.title, "", have.revision, 0, have.updatedAt, have.updatedBy);
      if current.revision != op.revision { return RevisionMismatch, current; }

      ok := Execute();
      if !ok { Rollback(row0, screens0); return Error, current; }
      var title := if op.newTitle.Some? then op.newTitle.value else current.title;
      screens := screens[op.id := have.(title := title, content := op.content, revision := have.revision + 1,
                                        updatedAt := op.now, updatedBy := op.author)];
      return Ok, Screen(title, "", op.revision + 1, 0, op.now, op.author);
    }

    /** Removes a screen; the start screen only when it is the last one. */
    method DeleteScreen(op: Op) returns (result: OpResult, project: Project)
      requires op.Delete?
      modifies this
      ensures result != Error ==> (State(), result) == Step(old(State()), op)
      ensures result == Error ==> State() == old(State()) && statements == 0
      ensures result == Ok ==> project == ProjectOf(State())
      ensures result == Ok ==> ScreenRemoved(old(State()), op.id, State())
      ensures result != Ok ==> State() == old(State())
    {
      hide TopSort, IsTopSort, Inserted, ScreenUpdated, ProjectUpdated, Restored, ScreenRemoved;
      StepMeans(State(), op);
      var row0, screens0 := row, screens;
      var ok: bool;
      ok, project := EnsureProjectRow();
      var current := project;
      if !ok { Rollback(row0, screens0); return Error, current; }

      ok := Execute();
      if !ok { Rollback(row0, screens0); return Error, current; }
      if op.id !in screens { Rollback(row0, screens0); return NotFound, current; }

      ok := Execute();
      if !ok { Rollback(row0, screens0); return Error, current; }
      var count := |screens|;

      var startScreen := current.startScreen;
      if startScreen == op.id {
        if count > 1 { Rollback(row0, screens0); return StartScreenProtected, current; }
        startScreen := "";
        ok := Execute();
        if !ok { Rollback(row0, screens0); return Error, current; }
        row := Some(row.value.(startScreen := ""));
      }

      ok := Execute();
      if !ok { Rollback(row0, screens0); return Error, current; }
      screens := screens - {op.id};

      var newRevision: int;
      ok, newRevision := BumpRevision();
      if !ok { Rollback(row0, screens0); return Error, current; }
      return Ok, Project(current.name, startScreen, newRevision);
    }

    // ---------------------------------------------------------------- project

    // One "UPDATE hmi_screens SET sort_order=? WHERE id=?" for each id of the new order.
    method Reorder(order: seq<string>) returns (ok: bool)
      requires Distinct(order) && Covers(screens, order)
      modifies this`screens, this`statements
      ensures !ok ==> statements == 0
      ensures ok ==> screens == Reordered(old(screens), order)
    {
      ghost var screens0 := screens;
      var i := 0;
      while i < |order|
        invariant 0 <= i <= |order|
        invariant screens.Keys == screens0.Keys
        invariant forall k | 0 <= k < i :: screens[order[k]] == screens0[order[k]].(sortOrder := k)
        invariant forall k | i <= k < |order| :: screens[order[k]] == screens0[order[k]]
      {
        ok := Execute();
        if !ok { return; }
        screens := screens[order[i] := screens[order[i]].(sortOrder := i)];
        i := i + 1;
      }
      ReorderedRowByRow(screens0, screens, order);
      ok := true;
    }

    // The new start screen must exist, or be none while there is no screen; the new order must be
    // a permutation of the existing ids.
    method CheckUpdate(u: ProjectUpdate) returns (ok: bool, verdict: OpResult)
      modifies this`statements
      ensures !ok ==> statements == 0
      ensures ok ==> verdict == UpdateVerdict(screens, u)
    {
      hide IsListing, Distinct, Covers;
      verdict := Ok;
      ok := Execute();
      if !ok { return; }
      var ids := QueryIds(screens);
      ListingCounts(screens, ids);
      if u.startScreen.Some? {
        MembersAreKeys(screens, ids, u.startScreen.value);
        if u.startScreen.value == "" {
          assert |screens| == 0 <==> screens == map[];
          if ids != [] { return ok, InvalidStartScreen; }
        } else if u.startScreen.value !in ids {
          return ok, InvalidStartScreen;
        }
      }
      if u.order.Some? {
        PermutationIff(screens, ids, u.order.value);
        if multiset(u.order.value) != multiset(ids) { return ok, InvalidOrder; }
      }
    }

    method ApplyUpdate(u: ProjectUpdate) returns (ok: bool)
      requires row.Some?
      requires u.order.Some? ==> Distinct(u.order.value) && Covers(screens, u.order.value)
      modifies this
      ensures !ok ==> statements == 0
      ensures ok ==> row == Some(Project(if u.name.Some? then u.name.value else old(row).value.name,
                                         if u.startScreen.Some? then u.startScreen.value
                                         else old(row).value.startScreen,
                                         old(row).value.revision))
      ensures ok ==> screens == if u.order.Some? then Reordered(old(screens), u.order.value) else old(screens)
    {
      hide Distinct, Covers;
      ok := true;
      if u.name.Some? {
        ok := Execute();
        if !ok { return; }
        row := Some(row.value.(name := u.name.value));
      }
      if u.startScreen.Some? {
        ok := Execute();
        if !ok { return; }
        row := Some(row.value.(startScreen := u.startScreen.value));
      }
      if u.order.Some? {
        ok := Reorder(u.order.value);
      }
    }

    /** Changes any of name, start screen and order if the caller has seen the latest revision. */
    method UpdateProject(u: ProjectUpdate) returns (result: OpResult, project: Project)
      modifies this
      ensures result != Error ==> (State(), result) == Step(old(State()), Op.UpdateProject(u))
      ensures result == Error ==> State() == old(State()) && statements == 0
      ensures result == Ok || result == RevisionMismatch ==> project == ProjectOf(State())
      ensures result == Ok ==> ProjectChanged(old(State()), u, State())
      ensures result != Ok ==> State() == old(State())
    {
      hide Distinct, Covers, Reordered, ProjectChanged;
      StepMeans(State(), Op.UpdateProject(u));
      var row0, screens0 := row, screens;
      var ok: bool;
      ok, project := EnsureProjectRow();
      var current := project;
      if !ok { Rollback(row0, screens0); return Error, current; }
      if current.revision != u.revision { Rollback(row0, screens0); return RevisionMismatch, current; }

      var verdict: OpResult;
      ok, verdict := CheckUpdate(u);
      if !ok { Rollback(row0, screens0); return Error, current; }
      if verdict != Ok { Rollback(row0, screens0); return verdict, current; }

      ok := ApplyUpdate(u);
      if !ok { Rollback(row0, screens0); return Error, current; }
      var newRevision: int;
      ok, newRevision := BumpRevision();
      if !ok { Rollback(row0, screens0); return Error, current; }
      return Ok, Project(if u.name.Some? then u.name.value else current.name,
                         if u.startScreen.Some? then u.startScreen.value else current.startScreen, newRevision);
    }

    // ---------------------------------------------------------------- restore

    // One insert for each record with an id; the sort order counts them.
    method InsertRecords(records: seq<ScreenRecord>) returns (ok: bool, restoredIds: seq<string>)
      requires screens == map[]
      modifies this`screens, this`statements
      ensures ok ==> RestoredScreens(records) == Some(screens) && restoredIds == RecordIds(records)
      ensures !ok ==> statements == 0 || RestoredScreens(records).None?
    {
      restoredIds := [];
      var i := 0;
      while i < |records|
        invariant 0 <= i <= |records|
        invariant RestoredScreens(records[..i]) == Some(screens)
        invariant restoredIds == RecordIds(records[..i])
      {
        var r := records[i];
        assert records[..i + 1][..i] == records[..i];
        if r.id != "" {
          ok := Execute();
          if !ok { return; }
          if r.id in screens {
            DuplicateRejectsAll(records, i + 1);
            ok := false;
            return;
          }
          RestoredScreensLaws(records[..i]);
          var sortOrder := |restoredIds|;
          screens := screens[r.id := Screen(r.title, r.content, r.revision, sortOrder, r.updatedAt, r.updatedBy)];
          restoredIds := restoredIds + [r.id];
        }
        i := i + 1;
      }
      assert records[..i] == records;
      ok := true;
    }

    /** Replaces project and screens by those of a backup, screens in the order of the backup. */
    method RestoreHmi(backup: HmiBackup) returns (result: OpResult)
      modifies this
      ensures result == Ok ==> (State(), Ok) == Step(old(State()), Restore(backup))
      ensures result == Error ==> State() == old(State())
      ensures result == Error ==> statements == 0 || Step(old(State()), Restore(backup)).1 == Error
      ensures result == Ok || result == Error
      ensures result == Ok ==> HmiReplaced(backup, State())
    {
      hide RestoredScreens, RecordIds, HmiReplaced;
      StepMeans(State(), Restore(backup));
      var row0, screens0 := row, screens;
      var ok := Execute();
      if !ok { return Error; }
      screens := map[];
      ok := Execute();
      if !ok { Rollback(row0, screens0); return Error; }
      row := None;

      var restoredIds: seq<string>;
      ok, restoredIds := InsertRecords(backup.screens);
      if !ok { Rollback(row0, screens0); return Error; }

      var startScreen := backup.project.startScreen;
      if startScreen != "" && startScreen !in restoredIds {
        startScreen := if restoredIds == [] then "" else restoredIds[0];
      }
      if startScreen == "" && restoredIds != [] {
        startScreen := restoredIds[0];
      }
      ok := Execute();
      if !ok { Rollback(row0, screens0); return Error; }
      row := Some(Project(backup.project.name, startScreen, backup.project.revision));
      return Ok;
    }
  }

  lemma ReorderedRowByRow(before: Screens, after: Screens, order: seq<string>)
    requires Distinct(order) && Covers(before, order) && after.Keys == before.Keys
    requires forall k | 0 <= k < |order| :: after[order[k]] == before[order[k]].(sortOrder := k)
    ensures after == Reordered(before, order)
  {
    forall id | id in before
      ensures after[id] == before[id].(sortOrder := Position(order, id))
    {
      var k := Position(order, id);
      assert order[k] == id;
    }
  }

  lemma {:induction false} DuplicateRejectsAll(records: seq<ScreenRecord>, k: nat)
    requires k <= |records| && RestoredScreens(records[..k]).None?
    ensures RestoredScreens(records).None?
    decreases |records|
  {
    if k == |records| {
      assert records[..k] == records;
    } else {
      var init := records[..|records| - 1];
      assert init[..k] == records[..k];
      DuplicateRejectsAll(init, k);
    }
  }
}
