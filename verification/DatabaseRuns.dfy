/** Every database reachable by any run of operations meets its constraints. */
module DatabaseRuns {
  import opened Wrappers
  import opened HmiStore
  import opened DeviceTables
  import opened RestoreData

  datatype DbOp =
    | InsertDevice(device: DeviceRow)
    | UpdateDevice(id: int, device: DeviceRow)
    | DeleteDevice(id: int)
    | InsertRegister(register: RegisterRow, statements: nat)
    | UpdateRegister(id: int, register: RegisterRow)
    | DeleteRegister(id: int)
    | InsertTag(tagId: string, tag: TagRow)
    | UpdateTag(tagId: string, tag: TagRow)
    | DeleteTag(tagId: string)
    | ChangeHmi(op: Op)
    | RestoreFrom(backup: Backup, devices: bool, hmi: bool, now: string)
    | FactoryReset

  ghost function DbStep(db: Database, op: DbOp): Database
    requires Constraints(db)
  {
    ConstraintsGivePositiveIds(db);
    ConstraintsIncludeTags(db);
    match op
    case InsertDevice(row) => DeviceInserted(db, row).0
    case UpdateDevice(id, row) => DeviceUpdated(db, id, row).0
    case DeleteDevice(id) => DeviceDeleted(db, id)
    case InsertRegister(row, statements) => RegisterInserted(db, row, statements).0
    case UpdateRegister(id, row) => RegisterUpdated(db, id, row).0
    case DeleteRegister(id) => RegisterDeleted(db, id)
    case InsertTag(id, row) => TagInserted(db, id, row).0
    case UpdateTag(id, row) => TagUpdated(db, id, row).0
    case DeleteTag(id) => TagDeleted(db, id).0
    case ChangeHmi(op) => db.(hmi := Step(db.hmi, op).0)
    case RestoreFrom(backup, devices, hmi, now) => RestoredAll(db, backup, devices, hmi, now).0
    case FactoryReset => FactoryState(db)
  }

  // Inserted screens have an id.
  predicate IdsGiven(op: DbOp) {
    op.ChangeHmi? ==> NamesItsScreen(op.op)
  }

  lemma DbStepKeeps(db: Database, op: DbOp)
    requires Constraints(db)
    ensures Constraints(DbStep(db, op))
    ensures Inv(db.hmi) && IdsGiven(op) ==> Inv(DbStep(db, op).hmi)
  {
    ConstraintsGivePositiveIds(db);
    ConstraintsIncludeTags(db);
    hide Constraints, Inv, RestoredAll, RegisterInserted, RegisterUpdated, Step, PositiveIds;
    hide DeviceInserted, DeviceUpdated, DeviceDeleted, RegisterDeleted, TagInserted, TagUpdated, TagDeleted;
    match op
    case InsertDevice(row) =>
      DeviceInsertedKeeps(db, row);
      DeviceChangesKeepHmi(db, 0, row);
    case UpdateDevice(id, row) =>
      DeviceUpdatedKeeps(db, id, row);
      DeviceChangesKeepHmi(db, id, row);
    case DeleteDevice(id) =>
      DeviceDeletedKeeps(db, id);
      RemovalsKeepHmi(db, id);
    case InsertRegister(row, statements) =>
      RegisterInsertedKeeps(db, row, statements);
      RegisterChangesKeepHmi(db, 0, row, statements);
    case UpdateRegister(id, row) =>
      RegisterUpdatedKeeps(db, id, row);
      RegisterChangesKeepHmi(db, id, row, 0);
    case DeleteRegister(id) =>
      RegisterDeletedKeeps(db, id);
      RemovalsKeepHmi(db, id);
    case InsertTag(id, row) =>
      TagChangesKeep(db, id, row);
      TagChangesKeepHmi(db, id, row);
    case UpdateTag(id, row) =>
      TagChangesKeep(db, id, row);
      TagChangesKeepHmi(db, id, row);
    case DeleteTag(id) =>
      TagDeletedKeeps(db, id);
      TagRemovalKeepsHmi(db, id);
    case ChangeHmi(op) =>
      OtherTags(db, db.(hmi := Step(db.hmi, op).0));
      if Inv(db.hmi) {
        StepKeepsInvariant(db.hmi, op);
      }
    case RestoreFrom(backup, devices, hmi, now) => RestoreKeepsConstraints(db, backup, devices, hmi, now);
    case FactoryReset =>
      FactoryStateKeeps(db);
  }

  lemma DeviceChangesKeepHmi(db: Database, id: int, row: DeviceRow)
    ensures DeviceInserted(db, row).0.hmi == db.hmi
    ensures DeviceUpdated(db, id, row).0.hmi == db.hmi
  {
  }

  lemma RemovalsKeepHmi(db: Database, id: int)
    ensures DeviceDeleted(db, id).hmi == db.hmi
    ensures RegisterDeleted(db, id).hmi == db.hmi
  {
  }

  lemma TagChangesKeepHmi(db: Database, id: string, row: TagRow)
    ensures TagInserted(db, id, row).0.hmi == db.hmi
    ensures TagUpdated(db, id, row).0.hmi == db.hmi
  {
  }

  lemma TagRemovalKeepsHmi(db: Database, id: string)
    ensures TagDeleted(db, id).0.hmi == db.hmi
  {
  }

  lemma RegisterChangesKeepHmi(db: Database, id: int, row: RegisterRow, statements: nat)
    requires PositiveIds(db.registers)
    ensures RegisterInserted(db, row, statements).0.hmi == db.hmi
    ensures RegisterUpdated(db, id, row).0.hmi == db.hmi
  {
  }

  lemma TagDeletedKeeps(db: Database, id: string)
    requires Constraints(db)
    ensures Constraints(TagDeleted(db, id).0)
  {
    assert forall t | t in db.tags :: TagOk(db.tags[t], db.registers.Keys);
  }

  lemma FactoryStateKeeps(db: Database)
    ensures Constraints(FactoryState(db)) && Inv(FactoryState(db).hmi)
  {
  }

  ghost function AfterAll(db: Database, ops: seq<DbOp>): (r: Database)
    requires Constraints(db)
    ensures Constraints(r)
    ensures Inv(db.hmi) && (forall k | 0 <= k < |ops| :: IdsGiven(ops[k])) ==> Inv(r.hmi)
    decreases |ops|
  {
    if ops == [] then db
    else
      var before := AfterAll(db, ops[..|ops| - 1]);
      DbStepKeeps(before, ops[|ops| - 1]);
      DbStep(before, ops[|ops| - 1])
  }

  /** In every reachable database non-negative unified addresses are pairwise distinct, every tag
      names an existing register and every register an existing device. */
  lemma ReachableDatabase(ops: seq<DbOp>)
    ensures Constraints(Database(map[], 0, map[], 0, map[], Hmi(None, map[])))
    ensures var db := AfterAll(Database(map[], 0, map[], 0, map[], Hmi(None, map[])), ops);
            && (forall a, b | a in db.registers && b in db.registers && a != b && db.registers[a].unifiedAddress >= 0
                  :: db.registers[a].unifiedAddress != db.registers[b].unifiedAddress)
            && (forall t | t in db.tags :: db.tags[t].registerId in db.registers)
            && (forall id | id in db.registers :: db.registers[id].deviceId in db.devices)
  {
    var db := AfterAll(Database(map[], 0, map[], 0, map[], Hmi(None, map[])), ops);
    forall t | t in db.tags
      ensures db.tags[t].registerId in db.registers
    {
      assert TagOk(db.tags[t], db.registers.Keys);
    }
    forall id | id in db.registers
      ensures db.registers[id].deviceId in db.devices
    {
      assert RegisterOk(id, db.registers[id], db.registerSeq, db.devices.Keys);
    }
  }
}
