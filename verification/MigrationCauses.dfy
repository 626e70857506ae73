/** When a call of the migrator succeeds, and what its error and its effects say about the world. */
module MigrationCauses {
  import opened Common
  import opened MigrationSpec

  // ----- Up -----

  /** The migration works and its record is written without an error. */
  ghost predicate CanApply(id: string, table: map<string, int>, world: World) {
    world.upOk(id) && world.record(id) == Done && id !in table
  }

  ghost predicate AllCanApply(order: seq<string>, applied: set<string>, table: map<string, int>, world: World) {
    forall id :: id in order && id !in applied ==> CanApply(id, table, world)
  }

  /** The error names the migration that could not be applied, and says which part of it failed. */
  ghost predicate UpBlames(e: Error, id: string, table: map<string, int>, world: World) {
    match e
    case UpFailed(x) => x == id && !world.upOk(id)
    case RecordFailed(x) => x == id && world.upOk(id) && (world.record(id) != Done || id in table)
    case _ => false
  }

  /** The last function run is that of the migration blamed.  A record that was written although an
      error was reported is there. */
  ghost predicate FailedAt(id: string, order: seq<string>, applied: set<string>, db: Db, r: Result, world: World) {
    && r.error.Some? && UpBlames(r.error.value, id, db.table, world)
    && id in order && id !in applied
    && |r.db.trace| > |db.trace| && r.db.trace[|r.db.trace| - 1] == RanUp(id)
    && (r.error.value.RecordFailed? && world.record(id) == Lost ==> id in r.db.table)
  }

  ghost predicate SomeBlamed(order: seq<string>, applied: set<string>, db: Db, r: Result, world: World) {
    exists id :: FailedAt(id, order, applied, db, r, world)
  }

  lemma AllCanApplySplits(id: string, rest: seq<string>, applied: set<string>, table: map<string, int>, now: int, world: World)
    requires id !in rest && id !in applied && CanApply(id, table, world)
    ensures AllCanApply([id] + rest, applied, table, world) <==> AllCanApply(rest, applied, table[id := now], world)
  {
    if AllCanApply(rest, applied, table[id := now], world) {
      forall x | x in [id] + rest && x !in applied ensures CanApply(x, table, world) {
        if x != id { assert CanApply(x, table[id := now], world); }
      }
    }
    if AllCanApply([id] + rest, applied, table, world) {
      forall x | x in rest && x !in applied ensures CanApply(x, table[id := now], world) {
        assert x in [id] + rest;
      }
    }
  }

  lemma {:induction false} UpLoopSucceedsIff(order: seq<string>, applied: set<string>, db: Db, world: World)
    requires Distinct(order)
    ensures var r := UpLoop(order, applied, db, world);
      && (r.error.None? <==> AllCanApply(order, applied, db.table, world))
      && |r.db.trace| >= |db.trace|
      && (r.error.Some? ==> SomeBlamed(order, applied, db, r, world))
    decreases |order|
  {
    if order != [] {
      var id, rest := order[0], order[1..];
      var r := UpLoop(order, applied, db, world);
      assert order == [id] + rest;
      if id in applied {
        UpLoopSucceedsIff(rest, applied, db, world);
        if r.error.Some? {
          var x :| FailedAt(x, rest, applied, db, r, world);
          assert FailedAt(x, order, applied, db, r, world);
        }
      } else if CanApply(id, db.table, world) {
        var next := Db(db.table[id := world.now(id)], db.trace + [RanUp(id)]);
        UpLoopSucceedsIff(rest, applied, next, world);
        AllCanApplySplits(id, rest, applied, db.table, world.now(id), world);
        if r.error.Some? {
          var x :| FailedAt(x, rest, applied, next, r, world);
          assert x != id && FailedAt(x, order, applied, db, r, world);
        }
      } else {
        assert FailedAt(id, order, applied, db, r, world);
        assert id in order;
      }
    }
  }

  /** Up succeeds exactly when the table is there, its rows are read without an error, and every
      registered migration without a row that arrived works, is recorded and was not recorded
      before.  Each error says which of that went wrong. */
  lemma UpSucceedsIff(order: seq<string>, rows: seq<string>, db: Db, world: World)
    requires Distinct(order)
    ensures var r, arriving := Up(order, rows, db, world), Arriving(rows, world.fetch);
      && (r.error.None? <==>
            world.ensureOk && !world.fetch.QueryFails? && !ScanBreaks(rows, world.fetch) &&
            forall id :: id in order && id !in arriving ==>
              world.upOk(id) && world.record(id) == Done && id !in db.table)
      && (r.error == Some(EnsureFailed) <==> !world.ensureOk)
      && (r.error == Some(QueryFailed) <==> world.ensureOk && world.fetch.QueryFails?)
      && (r.error == Some(ScanFailed) <==> world.ensureOk && ScanBreaks(rows, world.fetch))
      && (r.error.Some? && r.error.value !in {EnsureFailed, QueryFailed, ScanFailed} ==>
            SomeBlamed(order, (set x | x in arriving), db, r, world))
  {
    var applied := set x | x in Arriving(rows, world.fetch);
    UpLoopSucceedsIff(order, applied, db, world);
    assert AllCanApply(order, applied, db.table, world) <==>
      forall id :: id in order && id !in applied ==> CanApply(id, db.table, world);
  }

  /** A record that Up leaves behind belongs to a migration that was pending and worked. */
  lemma {:induction false} UpLoopRecordsWorking(order: seq<string>, applied: set<string>, db: Db, world: World)
    ensures forall id :: id in UpLoop(order, applied, db, world).db.table && id !in db.table ==>
              id in order && id !in applied && world.upOk(id) && world.record(id) != Refused
    decreases |order|
  {
    if order != [] {
      var id := order[0];
      UpLoopRecordsWorking(order[1..], applied, db, world);
      UpLoopRecordsWorking(order[1..], applied, Db(db.table[id := world.now(id)], db.trace + [RanUp(id)]), world);
    }
  }

  lemma UpRecordsWorking(order: seq<string>, rows: seq<string>, db: Db, world: World)
    ensures forall id :: id in Up(order, rows, db, world).db.table && id !in db.table ==>
              id in order && id !in Arriving(rows, world.fetch) && world.upOk(id) && world.record(id) != Refused
  {
    UpLoopRecordsWorking(order, (set x | x in Arriving(rows, world.fetch)), db, world);
  }

  // ----- Down, DownTo, Reset -----

  /** The migration is known, can be undone, is undone, and its record is removed without an error. */
  ghost predicate CanRollBack(id: string, registered: map<string, Migration>, world: World) {
    id in registered && registered[id].hasDown && world.downOk(id) && world.remove(id) == Done
  }

  ghost predicate DownBlames(e: Error, id: string, registered: map<string, Migration>, world: World) {
    match e
    case NotRegistered(x) => x == id && id !in registered
    case NoDown(x) => x == id && id in registered && !registered[id].hasDown
    case DownFailed(x) => x == id && id in registered && registered[id].hasDown && !world.downOk(id)
    case RemoveFailed(x) =>
      x == id && id in registered && registered[id].hasDown && world.downOk(id) && world.remove(id) != Done
    case _ => false
  }

  /** The k-th is the first that cannot be rolled back, and the error says why. */
  ghost predicate FirstBlamed(k: int, e: Error, ids: seq<string>, registered: map<string, Migration>, world: World) {
    && 0 <= k < |ids| && DownBlames(e, ids[k], registered, world)
    && forall j :: 0 <= j < k ==> CanRollBack(ids[j], registered, world)
  }

  /** Rolling back a list succeeds exactly when all of it can be rolled back; otherwise the error is
      about the first that cannot.  A record whose removal was carried out is gone, error or not. */
  lemma {:induction false} RollBackSucceedsIff(ids: seq<string>, registered: map<string, Migration>, db: Db, world: World)
    ensures var r := RollBack(ids, registered, db, world);
      && (r.error.None? <==> forall id :: id in ids ==> CanRollBack(id, registered, world))
      && (r.error.Some? ==> exists k :: FirstBlamed(k, r.error.value, ids, registered, world))
      && (forall id :: r.error == Some(RemoveFailed(id)) && world.remove(id) == Lost ==> id !in r.db.table)
    decreases |ids|
  {
    if ids != [] {
      var r, first, rest := RollBack(ids, registered, db, world), RollBackOne(ids[0], registered, db, world), ids[1..];
      assert ids == [ids[0]] + rest;
      if first.error.Some? {
        assert ids[0] in ids && !CanRollBack(ids[0], registered, world);
        assert FirstBlamed(0, r.error.value, ids, registered, world);
      } else {
        RollBackSucceedsIff(rest, registered, first.db, world);
        if r.error.Some? {
          var k :| FirstBlamed(k, r.error.value, rest, registered, world);
          assert forall j :: 0 < j <= k ==> ids[j] == rest[j - 1];
          assert FirstBlamed(k + 1, r.error.value, ids, registered, world);
        }
      }
    }
  }

  /** The function run by an event is the down function of a registered migration of the list. */
  ghost predicate IsDownOf(event: Event, ids: seq<string>, registered: map<string, Migration>) {
    event.RanDown? && event.id in ids && event.id in registered && registered[event.id].hasDown
  }

  /** Down functions are run only where they exist, and a record is removed only after its down
      function has worked. */
  ghost predicate RunsExisting(ids: seq<string>, registered: map<string, Migration>, db: Db, r: Result, world: World) {
    && |db.trace| <= |r.db.trace| && r.db.trace[..|db.trace|] == db.trace
    && (forall k :: |db.trace| <= k < |r.db.trace| ==> IsDownOf(r.db.trace[k], ids, registered))
    && (forall id :: id in db.table && id !in r.db.table ==>
          IsDownOf(RanDown(id), ids, registered) && world.downOk(id) && world.remove(id) != Refused)
  }

  lemma {:induction false} RollBackRunsExisting(ids: seq<string>, registered: map<string, Migration>, db: Db, world: World)
    ensures RunsExisting(ids, registered, db, RollBack(ids, registered, db, world), world)
    decreases |ids|
  {
    if ids != [] {
      var first, rest := RollBackOne(ids[0], registered, db, world), ids[1..];
      assert ids == [ids[0]] + rest;
      if first.error.None? {
        RollBackRunsExisting(rest, registered, first.db, world);
      }
    }
  }

  /** So it is for Down, DownTo and Reset, whatever fails. */
  lemma RollBacksRunExisting(target: string, registered: map<string, Migration>, rows: seq<string>, db: Db, world: World)
    ensures RunsExisting(rows, registered, db, Down(registered, rows, db, world), world)
    ensures RunsExisting(rows, registered, db, DownTo(target, registered, rows, db, world), world)
    ensures RunsExisting(rows, registered, db, Reset(registered, rows, db, world), world)
  {
    var arriving := Arriving(rows, world.fetch);
    ArrivingIsPrefix(rows, world.fetch);
    if arriving != [] {
      RollBackSingle(rows[0], registered, db, world);
      RollBackRunsExisting([rows[0]], registered, db, world);
    }
    RollBackRunsExisting(arriving, registered, db, world);
    RollBackRunsExisting(arriving[..IndexOf(arriving, target)], registered, db, world);
  }

  lemma RollBackSingle(id: string, registered: map<string, Migration>, db: Db, world: World)
    ensures RollBack([id], registered, db, world) == RollBackOne(id, registered, db, world)
  {
    var r := RollBackOne(id, registered, db, world);
    assert [id][1..] == [];
  }

  /** Down succeeds exactly when the newest row arrives and its migration can be rolled back. */
  lemma DownSucceedsIff(registered: map<string, Migration>, rows: seq<string>, db: Db, world: World)
    ensures var r, arriving := Down(registered, rows, db, world), Arriving(rows, world.fetch);
      && (r.error.None? <==> world.ensureOk && arriving != [] && CanRollBack(rows[0], registered, world))
      && (r.error == Some(EnsureFailed) <==> !world.ensureOk)
      && (r.error == Some(NothingToRollBack) <==> world.ensureOk && arriving == [])
      && (world.ensureOk && arriving != [] && r.error.Some? ==> DownBlames(r.error.value, rows[0], registered, world))
      && (r.db != db ==> arriving != [] && IsDownOf(RanDown(rows[0]), rows, registered))
  {
    if Arriving(rows, world.fetch) != [] {
      RollBackSingle(rows[0], registered, db, world);
      RollBackSucceedsIff([rows[0]], registered, db, world);
      assert rows[0] in [rows[0]];
    }
  }

  ghost predicate NewerCanRollBack(n: int, target: string, rows: seq<string>, registered: map<string, Migration>, world: World) {
    && 0 <= n < |rows| && rows[n] == target
    && forall j :: 0 <= j < n ==> CanRollBack(rows[j], registered, world)
  }

  /** DownTo succeeds exactly when the row of the target arrives and everything newer can be rolled back. */
  lemma DownToSucceedsIff(target: string, registered: map<string, Migration>, rows: seq<string>, db: Db, world: World)
    requires Distinct(rows)
    ensures var r, arriving := DownTo(target, registered, rows, db, world), Arriving(rows, world.fetch);
      && (r.error.None? <==>
            world.ensureOk && exists n :: NewerCanRollBack(n, target, arriving, registered, world))
      && (r.error == Some(EnsureFailed) <==> !world.ensureOk)
      && (r.error == Some(QueryFailed) <==> world.ensureOk && world.fetch.QueryFails?)
      && (r.error in {Some(ScanFailed), Some(TargetMissing)} <==>
            world.ensureOk && !world.fetch.QueryFails? && target !in arriving)
      && (r.error == Some(ScanFailed) ==> ScanBreaks(rows, world.fetch))
      && (r.error == Some(TargetMissing) ==> !ScanBreaks(rows, world.fetch))
  {
    var arriving := Arriving(rows, world.fetch);
    if target in arriving {
      ArrivingIsPrefix(rows, world.fetch);
      var n := IndexOf(arriving, target);
      RollBackSucceedsIff(arriving[..n], registered, db, world);
      forall m | 0 <= m < |arriving| && arriving[m] == target ensures m == n {}
      assert (forall id :: id in arriving[..n] ==> CanRollBack(id, registered, world)) <==>
        NewerCanRollBack(n, target, arriving, registered, world);
    }
  }

  /** Reset succeeds exactly when the rows are read without an error and all that arrived can be rolled back. */
  lemma ResetSucceedsIff(registered: map<string, Migration>, rows: seq<string>, db: Db, world: World)
    ensures var r, arriving := Reset(registered, rows, db, world), Arriving(rows, world.fetch);
      && (r.error.None? <==>
            world.ensureOk && !world.fetch.QueryFails? && !ScanBreaks(rows, world.fetch) &&
            forall id :: id in arriving ==> CanRollBack(id, registered, world))
      && (r.error == Some(EnsureFailed) <==> !world.ensureOk)
      && (r.error == Some(QueryFailed) <==> world.ensureOk && world.fetch.QueryFails?)
      && (r.error == Some(ScanFailed) <==> world.ensureOk && ScanBreaks(rows, world.fetch))
  {
    RollBackSucceedsIff(Arriving(rows, world.fetch), registered, db, world);
  }
}
