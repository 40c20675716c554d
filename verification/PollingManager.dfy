/** Request handlers, start and stop of polling, and the polling threads, in every interleaving.
    Handlers run one at a time; each polling thread works on devices it was given at the start. */
module PollingManager {
  import opened Wrappers
  import opened DeviceModels
  import opened DeviceTables
  import opened DatabaseRuns
  import opened DeviceCache

  // What the handler thread is doing.
  datatype Phase =
    | Idle
    | Handling(op: SyncOp)       // a change that passed the check that polling is off
    | Replacing(replace: DbOp)   // a restore or factory reset that passed it
    | Starting(todo: set<int>)   // devices still to be handed to a polling thread
    | Stopping

  datatype World = World(
    db: Database,
    list: DeviceCache.Devices,
    running: bool,
    workers: set<int>,           // devices some polling thread has and has not finished with
    phase: Phase)

  datatype Event =
    | Request(op: SyncOp)
    | RequestReplace(replace: DbOp)
    | Perform
    | StartRequest
    | Spawn(id: int)
    | StartDone
    | StopRequest
    | Exit(id: int)
    | StopDone
    | Report(id: int, status: Status)

  // The devices of the list that are not disabled.
  function Enabled(list: DeviceCache.Devices): (ids: set<int>)
    ensures forall id :: id in ids <==> id in list && list[id].row.enabled
  {
    set id | id in list && list[id].row.enabled
  }

  predicate Replaces(op: DbOp) {
    op.RestoreFrom? || op.FactoryReset?
  }

  /** One atomic step. Handlers that change configuration are turned away while polling runs. */
  ghost predicate Next(w: World, e: Event, w': World) {
    && Constraints(w.db)
    && match e
       case Request(op) =>
         w.phase == Idle && w' == if w.running then w else w.(phase := Handling(op))
       case RequestReplace(op) =>
         w.phase == Idle && Replaces(op) && w' == if w.running then w else w.(phase := Replacing(op))
       case Perform =>
         || (w.phase.Handling? && PositiveIds(w.db.registers)
             && w' == w.(db := w'.db, list := w'.list, phase := Idle)
             && exists ok :: Synced(w.db, w.list, w.phase.op, w'.db, w'.list, ok))
         || (w.phase.Replacing? && w' == w.(db := DbStep(w.db, w.phase.replace), phase := Idle))
       case StartRequest =>
         w.phase == Idle && w' == if w.running then w else w.(phase := Starting(Enabled(w.list)))
       case Spawn(id) =>
         && w.phase.Starting? && id in w.phase.todo
         && w' == w.(workers := w.workers + {id}, phase := Starting(w.phase.todo - {id}))
       case StartDone =>
         w.phase == Starting({}) && w' == w.(running := true, phase := Idle)
       case StopRequest =>
         w.phase == Idle && w' == if w.running then w.(phase := Stopping) else w
       case Exit(id) =>
         id in w.workers && w' == w.(workers := w.workers - {id})
       case StopDone =>
         w.phase == Stopping && w.workers == {} && w' == w.(running := false, phase := Idle)
       case Report(id, status) =>
         id in w.workers && w' == w.(list := Reported(w.list, id, status))
  }

  // What updateStatus does; without the device it throws and nothing changes.
  function Reported(list: DeviceCache.Devices, id: int, status: Status): DeviceCache.Devices {
    if id in list then list[id := list[id].(status := status)] else list
  }

  /** No polling thread has a device the list has lost, and none runs while a handler changes
      configuration. */
  ghost predicate Safe(w: World) {
    && Constraints(w.db)
    && w.workers <= w.list.Keys
    && (w.phase.Starting? ==> !w.running && w.phase.todo <= w.list.Keys)
    && (w.phase == Stopping ==> w.running)
    && (w.phase.Handling? || w.phase.Replacing? ==> !w.running)
    && (w.workers != {} ==> w.running || w.phase.Starting?)
  }

  lemma SyncedKeepsConstraints(db: Database, list: DeviceCache.Devices, op: SyncOp)
    requires Constraints(db)
    ensures PositiveIds(db.registers) && Constraints(DbAfter(db, list, op).0)
  {
    hide Constraints, RegisterInserted, RegisterUpdated;
    ConstraintsGivePositiveIds(db);
    match op
    case AddDevice(row) => DeviceInsertedKeeps(db, row);
    case ChangeDevice(id, row) => DeviceUpdatedKeeps(db, id, row);
    case RemoveDevice(id) => DeviceDeletedKeeps(db, id);
    case AddRegister(row, statements) => RegisterInsertedKeeps(db, row, statements);
    case ChangeRegister(id, row) => RegisterUpdatedKeeps(db, id, row);
    case RemoveRegister(id) => RegisterDeletedKeeps(db, id);
  }

  lemma NextKeepsSafe(w: World, e: Event, w': World)
    requires Safe(w) && Next(w, e, w')
    ensures Safe(w')
  {
    hide Constraints, DbStep, Synced;
    if e.Perform? {
      if w.phase.Handling? {
        PerformIsConstrained(w, w');
      } else {
        DbStepKeeps(w.db, w.phase.replace);
      }
    }
  }

  lemma PerformIsConstrained(w: World, w': World)
    requires Constraints(w.db) && w.phase.Handling? && Next(w, Perform, w')
    ensures Constraints(w'.db)
  {
    hide Constraints, DbAfter, ListAfter;
    SyncedKeepsConstraints(w.db, w.list, w.phase.op);
  }

  /** A run: worlds linked by steps. */
  ghost predicate IsRun(worlds: seq<World>, events: seq<Event>) {
    && |worlds| == |events| + 1
    && Safe(worlds[0])
    && forall i | 0 <= i < |events| :: Next(worlds[i], events[i], worlds[i + 1])
  }

  lemma {:induction false} RunsAreSafe(worlds: seq<World>, events: seq<Event>, i: nat)
    requires IsRun(worlds, events) && i <= |events|
    ensures Safe(worlds[i])
  {
    hide Next;
    if i > 0 {
      RunsAreSafe(worlds, events, i - 1);
      NextKeepsSafe(worlds[i - 1], events[i - 1], worlds[i]);
    }
  }

  /** In every run, whenever a polling thread reports a status its device is in the list, so the
      report never throws and puts it there; and no configuration changes while a polling thread is alive. */
  lemma ReportsNeverThrow(worlds: seq<World>, events: seq<Event>, i: nat)
    requires IsRun(worlds, events) && i < |events|
    ensures events[i].Report? ==>
              && events[i].id in worlds[i].list
              && var was, now := worlds[i].list, worlds[i + 1].list;
                 now == was[events[i].id := was[events[i].id].(status := events[i].status)]
    ensures events[i].Perform? ==> worlds[i].workers == {}
  {
    RunsAreSafe(worlds, events, i);
    assert Next(worlds[i], events[i], worlds[i + 1]);
  }

  // Neither a restore nor a factory reset, which replace the database under the list.
  ghost predicate Mild(w: World, e: Event) {
    e.Perform? ==> w.phase.Handling?
  }

  // Nor a register left behind without an address.
  ghost predicate Gentle(w: World, e: Event) {
    Mild(w, e) && (e.Perform? ==> !RunsOut(w.db, w.phase.op))
  }

  lemma NextKeepsAgreement(w: World, e: Event, w': World)
    requires Constraints(w.db) && Agrees(w.db, w.list) && Next(w, e, w') && Gentle(w, e)
    ensures Agrees(w'.db, w'.list)
  {
    hide Constraints, Synced, RunsOut;
    if e.Perform? {
      var ok :| Synced(w.db, w.list, w.phase.op, w'.db, w'.list, ok);
      SyncKeepsAgreement(w.db, w.list, w.phase.op, w'.db, w'.list, ok);
    } else if e.Report? {
      ReportKeepsAgreement(w.db, w.list, e.id, e.status);
    }
  }

  lemma NextReflects(w: World, e: Event, w': World)
    requires Constraints(w.db) && Reflects(w.db, w.list) && Next(w, e, w') && Mild(w, e)
    ensures Reflects(w'.db, w'.list)
  {
    hide Constraints, Synced, IsPartOf;
    if e.Perform? {
      var ok :| Synced(w.db, w.list, w.phase.op, w'.db, w'.list, ok);
      SyncSteps(w.db, w.list, w.phase.op, w'.db, w'.list, ok);
    }
  }

  lemma NextKeepsOwned(w: World, e: Event, w': World)
    requires WellOwned(w.list) && Next(w, e, w')
    ensures WellOwned(w'.list)
  {
    hide Constraints, Synced, DbStep;
    if e.Perform? {
      if w.phase.Handling? {
        var ok :| Synced(w.db, w.list, w.phase.op, w'.db, w'.list, ok);
        SyncKeepsOwned(w.db, w.list, w.phase.op, w'.db, w'.list, ok);
      }
    } else if e.Report? {
      assert forall d, i | Holds(w'.list, d, i) :: Holds(w.list, d, i);
    }
  }

  /** In every run, restores and resets included, each listed register names the device it is listed
      under, which is all the handlers rely on; and without them the devices and the listed registers
      are as stored, registers left behind or not. */
  lemma {:induction false} RunsReflect(worlds: seq<World>, events: seq<Event>, i: nat)
    requires IsRun(worlds, events) && i <= |events|
    ensures WellOwned(worlds[0].list) ==> WellOwned(worlds[i].list)
    ensures Reflects(worlds[0].db, worlds[0].list) && (forall k | 0 <= k < i :: Mild(worlds[k], events[k]))
        ==> Reflects(worlds[i].db, worlds[i].list)
  {
    hide Next, Mild, Reflects, WellOwned, Constraints;
    if i > 0 {
      RunsReflect(worlds, events, i - 1);
      NextIsConstrained(worlds[i - 1], events[i - 1], worlds[i]);
      if WellOwned(worlds[i - 1].list) {
        NextKeepsOwned(worlds[i - 1], events[i - 1], worlds[i]);
      }
      if Reflects(worlds[i - 1].db, worlds[i - 1].list) && Mild(worlds[i - 1], events[i - 1]) {
        NextReflects(worlds[i - 1], events[i - 1], worlds[i]);
      }
    }
  }

  lemma NextIsConstrained(w: World, e: Event, w': World)
    requires Next(w, e, w')
    ensures Constraints(w.db)
  {
  }

  lemma ReportKeepsAgreement(db: Database, list: DeviceCache.Devices, id: int, status: Status)
    requires Agrees(db, list)
    ensures Agrees(db, Reported(list, id, status))
  {
    var list' := Reported(list, id, status);
    forall e | e in list'
      ensures AgreesOn(db, list', e)
    {
      assert AgreesOn(db, list, e);
    }
  }

  /** In every run without restore, factory reset or address exhaustion, list and database agree all
      along, whatever the polling threads report in between. */
  lemma {:induction false} RunsKeepAgreement(worlds: seq<World>, events: seq<Event>, i: nat)
    requires IsRun(worlds, events) && i <= |events| && Agrees(worlds[0].db, worlds[0].list)
    requires forall k | 0 <= k < i :: Gentle(worlds[k], events[k])
    ensures Agrees(worlds[i].db, worlds[i].list)
  {
    hide Next, Gentle, Agrees, Constraints;
    if i > 0 {
      RunsKeepAgreement(worlds, events, i - 1);
      NextIsConstrained(worlds[i - 1], events[i - 1], worlds[i]);
      NextKeepsAgreement(worlds[i - 1], events[i - 1], worlds[i]);
    }
  }

  // ---------------------------------------------------------------- what the threads are given

  predicate NoRepeats(ids: seq<int>) {
    forall i, j | 0 <= i < j < |ids| :: ids[i] != ids[j]
  }

  /** Splits the enabled devices: one thread for all serial ones, one thread for each other one;
      every enabled device goes to one thread only. */
  method Assign(list: DeviceCache.Devices) returns (serial: seq<int>, tcp: seq<int>)
    ensures forall id :: id in serial <==>
              id in list && list[id].row.enabled && list[id].row.connection.connType == Serial
    ensures forall id :: id in tcp <==>
              id in list && list[id].row.enabled && list[id].row.connection.connType == TcpIp
    ensures NoRepeats(serial) && NoRepeats(tcp)
  {
    serial, tcp := [], [];
    var rest := list.Keys;
    while rest != {}
      invariant rest <= list.Keys
      invariant forall id :: id in serial <==>
                  id in list && id !in rest && list[id].row.enabled && list[id].row.connection.connType == Serial
      invariant forall id :: id in tcp <==>
                  id in list && id !in rest && list[id].row.enabled && list[id].row.connection.connType == TcpIp
      invariant NoRepeats(serial) && NoRepeats(tcp)
      decreases |rest|
    {
      ghost var some := Member(rest);
      var id :| id in rest;
      rest := rest - {id};
      if list[id].row.enabled {
        if list[id].row.connection.connType == Serial {
          serial := serial + [id];
        } else {
          tcp := tcp + [id];
        }
      }
    }
  }
}
