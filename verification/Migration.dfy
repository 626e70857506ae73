/** What the migrator does to the record table and which migration functions it runs, with every
    database call able to fail. */
module MigrationSpec {
  import opened Common

  datatype Migration = Migration(id: string, hasDown: bool, comment: string)

  datatype Event = RanUp(id: string) | RanDown(id: string)

  /** The record table, from id (its primary key) to applied_at, and the functions run so far. */
  datatype Db = Db(table: map<string, int>, trace: seq<Event>)

  datatype Error =
    | EnsureFailed
    | QueryFailed
    | ScanFailed
    | NothingToRollBack
    | TargetMissing
    | NotRegistered(id: string)
    | NoDown(id: string)
    | UpFailed(id: string)
    | RecordFailed(id: string)
    | DownFailed(id: string)
    | RemoveFailed(id: string)

  /** How reading the rows of one query goes: the query fails, scanning row n fails, the rows end
      early after n of them (rows.Err is not consulted), or all rows arrive. */
  datatype Fetch = QueryFails | ScanFails(n: nat) | Cut(n: nat) | Whole

  /** What becomes of a statement: it is carried out, it is refused, or it is carried out and an
      error is reported all the same (the connection breaks after the commit, say). */
  datatype Answer = Done | Refused | Lost

  /** The outside world during one call: each database call, migration function and clock reading. */
  datatype World = World(
    ensureOk: bool,
    fetch: Fetch,
    upOk: string -> bool,
    record: string -> Answer,
    downOk: string -> bool,
    remove: string -> Answer,
    now: string -> int)

  datatype Result = Result(db: Db, error: Option<Error>)

  ghost predicate Enumerates(order: seq<string>, names: set<string>) {
    && Distinct(order)
    && (forall id :: id in order <==> id in names)
  }

  /** The rows that arrive before the read ends or fails. */
  function Arriving(rows: seq<string>, fetch: Fetch): seq<string> {
    match fetch
    case QueryFails => []
    case ScanFails(n) => if n < |rows| then rows[..n] else rows
    case Cut(n) => if n < |rows| then rows[..n] else rows
    case Whole => rows
  }

  predicate ScanBreaks(rows: seq<string>, fetch: Fetch) {
    fetch.ScanFails? && fetch.n < |rows|
  }

  // ----- Up -----

  /** The loop over the registered migrations, in the order the map yields them. */
  function UpLoop(order: seq<string>, applied: set<string>, db: Db, world: World): Result {
    if order == [] then Result(db, None)
    else
      var id := order[0];
      if id in applied then UpLoop(order[1..], applied, db, world)
      else
        var ran := db.(trace := db.trace + [RanUp(id)]);
        if !world.upOk(id) then Result(ran, Some(UpFailed(id)))
        else if world.record(id).Refused? || id in db.table then Result(ran, Some(RecordFailed(id)))
        else
          var next := ran.(table := db.table[id := world.now(id)]);
          if world.record(id).Lost? then Result(next, Some(RecordFailed(id)))
          else UpLoop(order[1..], applied, next, world)
  }

  /** `rows` is the order in which the table yields its ids. */
  function Up(order: seq<string>, rows: seq<string>, db: Db, world: World): Result {
    if !world.ensureOk then Result(db, Some(EnsureFailed))
    else if world.fetch.QueryFails? then Result(db, Some(QueryFailed))
    else if ScanBreaks(rows, world.fetch) then Result(db, Some(ScanFailed))
    else UpLoop(order, (set id | id in Arriving(rows, world.fetch)), db, world)
  }

  function Ups(ids: seq<string>): seq<Event> {
    seq(|ids|, i requires 0 <= i < |ids| => RanUp(ids[i]))
  }

  function Downs(ids: seq<string>): seq<Event> {
    seq(|ids|, i requires 0 <= i < |ids| => RanDown(ids[i]))
  }

  /** Of the migrations started, those whose record was written: all, or all but a last one whose
      failure was reported. */
  ghost predicate Recorded(started: seq<string>, error: Option<Error>, recorded: seq<string>) {
    recorded == started || (error.Some? && started != [] && recorded == started[..|started| - 1])
  }

  ghost predicate Records(before: map<string, int>, recorded: seq<string>, after: map<string, int>, now: string -> int) {
    && (forall id :: id in after <==> id in before || id in recorded)
    && (forall id :: id in recorded ==> id !in before && id in after && after[id] == now(id))
    && (forall id :: id in before ==> id in after && after[id] == before[id])
  }

  ghost predicate Distinct(ids: seq<string>) {
    forall i, j :: 0 <= i < j < |ids| ==> ids[i] != ids[j]
  }

  /** What an Up loop started, and what of it was recorded. */
  ghost predicate UpOutcome(
      order: seq<string>, applied: set<string>, before: Db, started: seq<string>, recorded: seq<string>,
      r: Result, now: string -> int)
  {
    && r.db.trace == before.trace + Ups(started)
    && Distinct(started)
    && (forall id :: id in started ==> id in order && id !in applied)
    && Recorded(started, r.error, recorded)
    && Records(before.table, recorded, r.db.table, now)
    && (if r.error.None? then forall id :: id in order && id !in applied ==> id in started else started != [])
  }

  lemma UpOutcomeGrows(
      id: string, now: string -> int, rest: seq<string>, applied: set<string>, db: Db, next: Db,
      later: seq<string>, recorded: seq<string>, r: Result)
    requires id !in rest && id !in applied && id !in db.table
    requires next == Db(db.table[id := now(id)], db.trace + [RanUp(id)])
    requires UpOutcome(rest, applied, next, later, recorded, r, now)
    ensures UpOutcome([id] + rest, applied, db, [id] + later, [id] + recorded, r, now)
  {
    var started := [id] + later;
    assert Ups(started) == [RanUp(id)] + Ups(later);
    assert Distinct(started) by {
      assert forall j :: 0 <= j < |later| ==> later[j] in later;
    }
    assert later != [] ==> started[..|started| - 1] == [id] + later[..|later| - 1];
    assert Records(db.table, [id] + recorded, r.db.table, now) by {
      assert id in next.table;
    }
  }

  lemma {:induction false} UpLoopOutcome(order: seq<string>, applied: set<string>, db: Db, world: World)
    returns (started: seq<string>, recorded: seq<string>)
    requires Distinct(order)
    ensures UpOutcome(order, applied, db, started, recorded, UpLoop(order, applied, db, world), world.now)
    decreases |order|
  {
    if order == [] {
      assert Ups([]) == [];
      return [], [];
    }
    var id, rest := order[0], order[1..];
    assert order == [id] + rest;
    if id in applied {
      started, recorded := UpLoopOutcome(rest, applied, db, world);
      return;
    }
    assert Ups([id]) == [RanUp(id)];
    if !world.upOk(id) || world.record(id).Refused? || id in db.table {
      return [id], [];
    }
    var next := Db(db.table[id := world.now(id)], db.trace + [RanUp(id)]);
    if world.record(id).Lost? {
      return [id], [id];
    }
    var later, laterRecorded := UpLoopOutcome(rest, applied, next, world);
    UpOutcomeGrows(id, world.now, rest, applied, db, next, later, laterRecorded, UpLoop(rest, applied, next, world));
    return [id] + later, [id] + laterRecorded;
  }

  /** Up, for every map order and every failure: what it starts is registered, each at most once,
      and all of it but possibly the last is recorded afresh; when the rows were read whole nothing
      recorded is run again; on success exactly the pending ones ran and all are recorded. */
  lemma UpSafety(registered: set<string>, order: seq<string>, rows: seq<string>, db: Db, world: World)
    returns (started: seq<string>)
    requires Enumerates(order, registered) && Enumerates(rows, db.table.Keys)
    ensures var r := Up(order, rows, db, world);
      && r.db.trace == db.trace + Ups(started)
      && Distinct(started)
      && (forall id :: id in started ==> id in registered && id !in Arriving(rows, world.fetch))
      && (forall i :: 0 <= i < |started| - 1 ==> started[i] in r.db.table && started[i] !in db.table)
      && (forall id :: id in db.table ==> id in r.db.table && r.db.table[id] == db.table[id])
      && (forall id :: id in r.db.table ==> id in db.table || (id in started && r.db.table[id] == world.now(id)))
      && (!world.fetch.Cut? ==> forall id :: id in started ==> id !in db.table)
      && (r.error.None? ==>
            r.db.table.Keys == db.table.Keys + registered &&
            forall id :: id in started <==> id in registered && id !in db.table)
  {
    var applied := set id | id in Arriving(rows, world.fetch);
    var r := Up(order, rows, db, world);
    if !world.ensureOk || world.fetch.QueryFails? || ScanBreaks(rows, world.fetch) {
      started := [];
      assert Ups([]) == [];
    } else {
      var recorded;
      started, recorded := UpLoopOutcome(order, applied, db, world);
      ArrivingIsPrefix(rows, world.fetch);
      UpRecorded(order, applied, db, started, recorded, r, world.now);
    }
  }

  lemma ArrivingIsPrefix(rows: seq<string>, fetch: Fetch)
    ensures Arriving(rows, fetch) <= rows
    ensures (fetch.Cut? || fetch.ScanFails?) && fetch.n <= |rows| ==> |Arriving(rows, fetch)| == fetch.n
    ensures !fetch.Cut? && !fetch.QueryFails? && !ScanBreaks(rows, fetch) ==> Arriving(rows, fetch) == rows
  {
  }

  lemma UpRecorded(
      order: seq<string>, applied: set<string>, db: Db, started: seq<string>, recorded: seq<string>,
      r: Result, now: string -> int)
    requires UpOutcome(order, applied, db, started, recorded, r, now)
    ensures forall i :: 0 <= i < |started| - 1 ==> started[i] in r.db.table && started[i] !in db.table
    ensures forall id :: id in r.db.table ==> id in db.table || (id in started && r.db.table[id] == now(id))
    ensures r.error.None? ==> forall id :: id in started ==> id !in db.table && id in r.db.table
  {
    assert forall id :: id in recorded ==> id in started;
    forall i | 0 <= i < |started| - 1 ensures started[i] in r.db.table && started[i] !in db.table {
      assert recorded[i] == started[i];
    }
  }

  ghost predicate RunsRecorded(db: Db, r: Result) {
    exists k :: |db.trace| <= k < |r.db.trace| && r.db.trace[k].RanUp? && r.db.trace[k].id in db.table
  }

  /** Some order and some behaviour of the world, the reading of the rows being given, lead Up to
      run a recorded migration. */
  ghost predicate MayRunRecorded(registered: set<string>, rows: seq<string>, db: Db, fetch: Fetch) {
    exists order, world: World ::
      Enumerates(order, registered) && world.fetch == fetch && RunsRecorded(db, Up(order, rows, db, world))
  }

  /** A recorded migration can be run again exactly when the rows are silently cut short before
      the id of a registered one. */
  lemma RerunIff(registered: set<string>, order: seq<string>, rows: seq<string>, db: Db, fetch: Fetch)
    requires Enumerates(order, registered) && Enumerates(rows, db.table.Keys)
    ensures MayRunRecorded(registered, rows, db, fetch) <==>
      fetch.Cut? && exists id :: id in registered && id in db.table && id !in Arriving(rows, fetch)
  {
    if MayRunRecorded(registered, rows, db, fetch) {
      var o, world: World :| Enumerates(o, registered) && world.fetch == fetch && RunsRecorded(db, Up(o, rows, db, world));
      RerunNeedsCut(registered, o, rows, db, world);
    }
    if fetch.Cut? && exists id :: id in registered && id in db.table && id !in Arriving(rows, fetch) {
      var id :| id in registered && id in db.table && id !in Arriving(rows, fetch);
      var k :| 0 <= k < |order| && order[k] == id;
      RerunFirst(registered, order, k, rows, db, fetch);
    }
  }

  lemma RerunNeedsCut(registered: set<string>, order: seq<string>, rows: seq<string>, db: Db, world: World)
    requires Enumerates(order, registered) && Enumerates(rows, db.table.Keys)
    requires RunsRecorded(db, Up(order, rows, db, world))
    ensures world.fetch.Cut? && exists id :: id in registered && id in db.table && id !in Arriving(rows, world.fetch)
  {
    var started := UpSafety(registered, order, rows, db, world);
    var r := Up(order, rows, db, world);
    var k :| |db.trace| <= k < |r.db.trace| && r.db.trace[k].RanUp? && r.db.trace[k].id in db.table;
    var id := started[k - |db.trace|];
    assert r.db.trace[k] == Ups(started)[k - |db.trace|] == RanUp(id);
    assert id in started;
  }

  /** With the missed migration first in the map order, it is run again at once. */
  lemma RerunFirst(registered: set<string>, order: seq<string>, k: nat, rows: seq<string>, db: Db, fetch: Fetch)
    requires Enumerates(order, registered) && fetch.Cut? && k < |order|
    requires order[k] in db.table && order[k] !in Arriving(rows, fetch)
    ensures MayRunRecorded(registered, rows, db, fetch)
  {
    var id := order[k];
    var front := [id] + order[..k] + order[k + 1..];
    assert Enumerates(front, registered) by {
      assert order == order[..k] + [id] + order[k + 1..];
    }
    var world := World(true, fetch, _ => true, _ => Done, _ => true, _ => Done, _ => 0);
    var r := Up(front, rows, db, world);
    assert front[0] == id;
    assert r.db.trace == db.trace + [RanUp(id)];
    assert r.db.trace[|db.trace|] == RanUp(id);
    assert RunsRecorded(db, r);
  }

  lemma HasAnElement(s: seq<string>)
    requires s != []
    ensures exists x :: x in s
  {
    assert s[0] in s;
  }

  /** After a successful Up, another one with the same migrations runs nothing and records nothing,
      if its own rows are not cut short. */
  lemma SecondUpRunsNothing(
      registered: set<string>, order: seq<string>, rows: seq<string>, db: Db, world: World,
      order2: seq<string>, rows2: seq<string>, world2: World)
    requires Enumerates(order, registered) && Enumerates(rows, db.table.Keys)
    requires Up(order, rows, db, world).error.None?
    requires Enumerates(order2, registered) && Enumerates(rows2, Up(order, rows, db, world).db.table.Keys)
    requires !world2.fetch.Cut?
    ensures Up(order2, rows2, Up(order, rows, db, world).db, world2).db == Up(order, rows, db, world).db
  {
    var started := UpSafety(registered, order, rows, db, world);
    var after := Up(order, rows, db, world).db;
    var r := Up(order2, rows2, after, world2);
    var started2 := UpSafety(registered, order2, rows2, after, world2);
    if started2 != [] {
      HasAnElement(started2);
      assert false;
    }
    assert Ups([]) == [];
    assert r.db.trace == after.trace;
    assert r.db.table.Keys == after.table.Keys;
  }

  // ----- Down, DownTo, Reset -----

  /** `rows` is an answer to a query for all ids ordered by applied_at, newest first. */
  ghost predicate Descending(table: map<string, int>, rows: seq<string>) {
    && Enumerates(rows, table.Keys)
    && forall i, j :: 0 <= i < j < |rows| && rows[i] in table && rows[j] in table ==> table[rows[i]] >= table[rows[j]]
  }

  function RollBackOne(id: string, registered: map<string, Migration>, db: Db, world: World): Result {
    if id !in registered then Result(db, Some(NotRegistered(id)))
    else if !registered[id].hasDown then Result(db, Some(NoDown(id)))
    else
      var ran := db.(trace := db.trace + [RanDown(id)]);
      if !world.downOk(id) then Result(ran, Some(DownFailed(id)))
      else
        match world.remove(id)
        case Refused => Result(ran, Some(RemoveFailed(id)))
        case Lost => Result(ran.(table := db.table - {id}), Some(RemoveFailed(id)))
        case Done => Result(ran.(table := db.table - {id}), None)
  }

  function RollBack(ids: seq<string>, registered: map<string, Migration>, db: Db, world: World): Result {
    if ids == [] then Result(db, None)
    else
      var r := RollBackOne(ids[0], registered, db, world);
      if r.error.Some? then r else RollBack(ids[1..], registered, r.db, world)
  }

  /** The query takes one row; that it fails and that there is none look the same. */
  function Down(registered: map<string, Migration>, rows: seq<string>, db: Db, world: World): Result {
    if !world.ensureOk then Result(db, Some(EnsureFailed))
    else if Arriving(rows, world.fetch) == [] then Result(db, Some(NothingToRollBack))
    else RollBackOne(rows[0], registered, db, world)
  }

  function IndexOf(ids: seq<string>, id: string): (n: nat)
    ensures n <= |ids| && (n < |ids| <==> id in ids)
    ensures id !in ids[..n] && (n < |ids| ==> ids[n] == id)
  {
    if ids == [] || ids[0] == id then 0
    else
      assert ids == [ids[0]] + ids[1..];
      1 + IndexOf(ids[1..], id)
  }

  function DownTo(target: string, registered: map<string, Migration>, rows: seq<string>, db: Db, world: World): Result {
    var arriving := Arriving(rows, world.fetch);
    if !world.ensureOk then Result(db, Some(EnsureFailed))
    else if world.fetch.QueryFails? then Result(db, Some(QueryFailed))
    else if target in arriving then RollBack(arriving[..IndexOf(arriving, target)], registered, db, world)
    else if ScanBreaks(rows, world.fetch) then Result(db, Some(ScanFailed))
    else Result(db, Some(TargetMissing))
  }

  function Reset(registered: map<string, Migration>, rows: seq<string>, db: Db, world: World): Result {
    if !world.ensureOk then Result(db, Some(EnsureFailed))
    else if world.fetch.QueryFails? then Result(db, Some(QueryFailed))
    else if ScanBreaks(rows, world.fetch) then Result(db, Some(ScanFailed))
    else RollBack(Arriving(rows, world.fetch), registered, db, world)
  }

  /** Of the first n rows, the newest `removed` are gone and every other record is as it was; the
      down functions run are those of the removed rows and at most the next one. */
  ghost predicate RollBackOutcome(rows: seq<string>, n: nat, removed: nat, before: Db, r: Result) {
    && removed <= n <= |rows|
    && r.db.table == before.table - Newest(rows, removed)
    && if r.error.None? then removed == n && r.db.trace == before.trace + Downs(rows[..n])
       else r.db.trace == before.trace + Downs(rows[..removed]) ||
            (removed < n && r.db.trace == before.trace + Downs(rows[..removed + 1]))
  }

  function Newest(rows: seq<string>, n: nat): set<string>
    requires n <= |rows|
  {
    set id | id in rows[..n]
  }

  lemma RollBackIsOutcome(rows: seq<string>, n: nat, registered: map<string, Migration>, db: Db, world: World)
    returns (removed: nat)
    requires n <= |rows|
    ensures RollBackOutcome(rows, n, removed, db, RollBack(rows[..n], registered, db, world))
    decreases n
  {
    if n == 0 {
      assert Downs(rows[..0]) == [];
      return 0;
    }
    var id, rest := rows[0], rows[1..];
    RollBackFirst(n, registered, rows, db, world);
    var r := RollBackOne(id, registered, db, world);
    assert Downs(rows[..1]) == [RanDown(id)];
    if r.error.Some? {
      assert Downs(rows[..0]) == [] && rows[..1] == [id];
      return if r.db.table == db.table then 0 else 1;
    }
    var later := RollBackIsOutcome(rest, n - 1, registered, r.db, world);
    removed := later + 1;
    RemovedNext(rows, later, db.table);
    DownsNext(rows, later);
    DownsNext(rows, n - 1);
    if later + 1 < n { DownsNext(rows, later + 1); }
  }

  lemma RemovedNext(rows: seq<string>, k: nat, table: map<string, int>)
    requires k < |rows|
    ensures table - Newest(rows, k + 1) == (table - {rows[0]}) - Newest(rows[1..], k)
  {
    assert rows[..k + 1] == [rows[0]] + rows[1..][..k];
  }

  lemma DownsNext(rows: seq<string>, k: nat)
    requires k < |rows|
    ensures Downs(rows[..k + 1]) == [RanDown(rows[0])] + Downs(rows[1..][..k])
  {
  }

  lemma RemainderKeys(table: map<string, int>, rows: seq<string>, removed: nat)
    requires Enumerates(rows, table.Keys) && removed <= |rows|
    ensures forall id :: id in table - Newest(rows, removed) <==> id in rows[removed..]
  {
    assert rows == rows[..removed] + rows[removed..];
    forall id | id in rows[removed..] ensures id !in rows[..removed] {
      var j :| removed <= j < |rows| && rows[j] == id;
    }
  }

  /** What is left after removing the newest rows is the oldest ones: an initial segment of the
      order in which they were applied. */
  lemma RemainderIsOldest(table: map<string, int>, rows: seq<string>, removed: nat)
    requires Descending(table, rows) && removed <= |rows|
    ensures var left := table - Newest(rows, removed);
      && (forall id :: id in left <==> id in rows[removed..])
      && (forall id :: id in left ==> left[id] == table[id])
      && (forall kept, gone :: kept in left && gone in table && gone !in left ==> table[kept] <= table[gone])
  {
    var left := table - Newest(rows, removed);
    RemainderKeys(table, rows, removed);
    forall kept, gone | kept in left && gone in table && gone !in left ensures table[kept] <= table[gone] {
      var j :| removed <= j < |rows| && rows[j] == kept;
      assert gone in rows[..removed];
      var i :| 0 <= i < removed && rows[i] == gone;
    }
  }

  /** Reset, whatever fails: the down functions run are those of the records removed, newest
      first, and at most one more. */
  lemma ResetSafety(registered: map<string, Migration>, rows: seq<string>, db: Db, world: World)
    returns (n: nat, removed: nat)
    ensures var r := Reset(registered, rows, db, world);
      && RollBackOutcome(rows, n, removed, db, Result(r.db, if n == 0 then None else r.error))
      && (r.error.None? ==> n == |Arriving(rows, world.fetch)|)
  {
    var arriving := Arriving(rows, world.fetch);
    ArrivingIsPrefix(rows, world.fetch);
    if !world.ensureOk || world.fetch.QueryFails? || ScanBreaks(rows, world.fetch) {
      n, removed := 0, 0;
      assert Downs(rows[..0]) == [];
    } else {
      n := |arriving|;
      assert arriving == rows[..n];
      removed := RollBackIsOutcome(rows, n, registered, db, world);
    }
  }

  /** A Reset that reports success has removed every record exactly when all rows arrived; when
      the rows were cut short, the oldest records stay behind. */
  lemma ResetEmptiesIff(registered: map<string, Migration>, rows: seq<string>, db: Db, world: World)
    requires Descending(db.table, rows) && Reset(registered, rows, db, world).error.None?
    ensures Reset(registered, rows, db, world).db.table == map[] <==> |Arriving(rows, world.fetch)| == |rows|
  {
    var n, removed := ResetSafety(registered, rows, db, world);
    RemainderIsOldest(db.table, rows, removed);
    ArrivingIsPrefix(rows, world.fetch);
    var left := db.table - Newest(rows, removed);
    if n < |rows| {
      assert rows[n] in rows[n..];
      assert rows[n] in left;
    } else {
      assert rows[n..] == [];
      assert left == map[];
    }
  }

  /** DownTo, whatever fails: likewise, and the record of the target is never removed. */
  lemma DownToSafety(target: string, registered: map<string, Migration>, rows: seq<string>, db: Db, world: World)
    returns (n: nat, removed: nat)
    requires Descending(db.table, rows)
    ensures var r := DownTo(target, registered, rows, db, world);
      && RollBackOutcome(rows, n, removed, db, Result(r.db, if n == 0 then None else r.error))
      && (target in db.table ==> target in r.db.table)
      && (r.error.None? ==> n < |rows| && rows[n] == target)
  {
    var arriving := Arriving(rows, world.fetch);
    ArrivingIsPrefix(rows, world.fetch);
    if !world.ensureOk || world.fetch.QueryFails? || target !in arriving {
      n, removed := 0, 0;
      assert Downs(rows[..0]) == [];
    } else {
      n := IndexOf(arriving, target);
      assert arriving[..n] == rows[..n];
      removed := RollBackIsOutcome(rows, n, registered, db, world);
      assert rows[..n] == rows[..removed] + rows[removed..n];
    }
  }

  /** Down undoes an Up that ran one migration, if the clock then read later than all records. */
  lemma DownUndoesUp(
      id: string, registered: map<string, Migration>, order: seq<string>, rows: seq<string>, db: Db, world: World,
      rows2: seq<string>, world2: World)
    requires Enumerates(order, registered.Keys) && Enumerates(rows, db.table.Keys)
    requires forall x :: x in registered && x !in db.table <==> x == id
    requires forall x :: x in db.table ==> db.table[x] < world.now(id)
    requires Up(order, rows, db, world).error.None? && Descending(Up(order, rows, db, world).db.table, rows2)
    requires world2.ensureOk && world2.fetch.Whole?
    requires Down(registered, rows2, Up(order, rows, db, world).db, world2).error.None?
    ensures Down(registered, rows2, Up(order, rows, db, world).db, world2).db ==
      Db(db.table, db.trace + [RanUp(id)] + [RanDown(id)])
  {
    var started := UpSafety(registered.Keys, order, rows, db, world);
    var after := Up(order, rows, db, world).db;
    OnlyOne(started, id);
    assert Ups(started) == [RanUp(id)];
    assert id in after.table && after.table[id] == world.now(id);
    var j :| 0 <= j < |rows2| && rows2[j] == id;
    assert rows2[0] in after.table;
    assert rows2[0] == id;
    assert after.table - {id} == db.table;
  }

  lemma OnlyOne(s: seq<string>, x: string)
    requires Distinct(s) && forall y :: y in s <==> y == x
    ensures s == [x]
  {
    assert x in s;
    ElementIs(s, 0, x);
    if |s| > 1 { ElementIs(s, 1, x); }
  }

  lemma ElementIs(s: seq<string>, k: nat, x: string)
    requires k < |s| && forall y :: y in s ==> y == x
    ensures s[k] == x
  {
    assert s[k] in s;
  }

  // ----- DownTo and Reset as repeated Down -----

  ghost predicate DistinctTimes(table: map<string, int>) {
    forall a, b :: a in table && b in table && table[a] == table[b] ==> a == b
  }

  /** Down n times, stopping at the first error; answers[i] is the answer to the i-th query. */
  function RepeatDown(n: nat, registered: map<string, Migration>, answers: seq<seq<string>>, db: Db, world: World): Result
    requires |answers| == n
  {
    if n == 0 then Result(db, None)
    else
      var r := Down(registered, answers[0], db, world);
      if r.error.Some? then r else RepeatDown(n - 1, registered, answers[1..], r.db, world)
  }

  /** Each answer is a correct one for the table it is asked of. */
  ghost predicate Answers(n: nat, registered: map<string, Migration>, answers: seq<seq<string>>, db: Db, world: World)
    requires |answers| == n
  {
    n > 0 ==>
      && Descending(db.table, answers[0])
      && var r := Down(registered, answers[0], db, world);
         r.error.None? ==> Answers(n - 1, registered, answers[1..], r.db, world)
  }

  /** With distinct times the newest record is one and the same in every answer. */
  lemma NewestIsUnique(table: map<string, int>, a: seq<string>, b: seq<string>)
    requires Descending(table, a) && Descending(table, b) && DistinctTimes(table) && a != []
    ensures b != [] && a[0] == b[0]
  {
    assert a[0] in table;
    var j :| 0 <= j < |b| && b[j] == a[0];
    assert b[0] in table;
    var i :| 0 <= i < |a| && a[i] == b[0];
  }

  lemma WithoutNewest(table: map<string, int>, rows: seq<string>)
    requires Descending(table, rows) && rows != []
    ensures Descending(table - {rows[0]}, rows[1..])
  {
    assert rows == [rows[0]] + rows[1..];
  }

  lemma DownIsRollBackOne(registered: map<string, Migration>, rows: seq<string>, answer: seq<string>, db: Db, world: World)
    requires rows != [] && answer != [] && rows[0] == answer[0] && world.ensureOk && world.fetch.Whole?
    ensures var r := RollBackOne(rows[0], registered, db, world);
      Down(registered, answer, db, world) == r && (r.error.None? ==> r.db.table == db.table - {rows[0]})
  {
  }

  /** Rolling back the n newest records is running Down n times. */
  lemma {:induction false} RollBackIsRepeatedDown(
      n: nat, registered: map<string, Migration>, rows: seq<string>, answers: seq<seq<string>>, db: Db, world: World)
    requires Descending(db.table, rows) && DistinctTimes(db.table) && n <= |rows| && |answers| == n
    requires world.ensureOk && world.fetch.Whole?
    requires Answers(n, registered, answers, db, world)
    ensures RepeatDown(n, registered, answers, db, world) == RollBack(rows[..n], registered, db, world)
    decreases n
  {
    if n > 0 {
      NewestIsUnique(db.table, rows, answers[0]);
      var r := Down(registered, answers[0], db, world);
      DownIsRollBackOne(registered, rows, answers[0], db, world);
      RollBackFirst(n, registered, rows, db, world);
      if r.error.None? {
        WithoutNewest(db.table, rows);
        RollBackIsRepeatedDown(n - 1, registered, rows[1..], answers[1..], r.db, world);
      }
    }
  }

  lemma RollBackFirst(n: nat, registered: map<string, Migration>, rows: seq<string>, db: Db, world: World)
    requires 0 < n <= |rows|
    ensures var r := RollBackOne(rows[0], registered, db, world);
      RollBack(rows[..n], registered, db, world) ==
        if r.error.Some? then r else RollBack(rows[1..][..n - 1], registered, r.db, world)
  {
    assert rows[..n][0] == rows[0] && rows[..n][1..] == rows[1..][..n - 1];
  }

  /** With distinct times and rows that arrive, Reset is Down once for every record, and DownTo is
      Down once for every record newer than the target, with the same functions run, the same
      records left and the same error. */
  lemma RefinesRepeatedDown(
      target: string, registered: map<string, Migration>, rows: seq<string>, answers: seq<seq<string>>, db: Db, world: World)
    requires Descending(db.table, rows) && DistinctTimes(db.table)
    requires world.ensureOk && world.fetch.Whole?
    ensures |answers| == |rows| && Answers(|rows|, registered, answers, db, world) ==>
      Reset(registered, rows, db, world) == RepeatDown(|rows|, registered, answers, db, world)
    ensures target in db.table && |answers| == IndexOf(rows, target) && Answers(|answers|, registered, answers, db, world) ==>
      DownTo(target, registered, rows, db, world) == RepeatDown(|answers|, registered, answers, db, world)
  {
    if |answers| == |rows| && Answers(|rows|, registered, answers, db, world) {
      RollBackIsRepeatedDown(|rows|, registered, rows, answers, db, world);
      assert rows[..|rows|] == rows;
    }
    if target in db.table && |answers| == IndexOf(rows, target) && Answers(|answers|, registered, answers, db, world) {
      RollBackIsRepeatedDown(|answers|, registered, rows, answers, db, world);
    }
  }
}
