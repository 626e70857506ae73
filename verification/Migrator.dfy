/** The migrator object and its database, changed step by step. */
module Migrator {
  import opened Common
  import opened MigrationSpec

  /** The record table, and a ghost record of the migration functions run. */
  class Database {
    var table: map<string, int>
    ghost var trace: seq<Event>

    ghost function State(): Db
      reads this
    {
      Db(table, trace)
    }

    constructor ()
      ensures State() == Db(map[], [])
    {
      table := map[];
      trace := [];
    }

    /** INSERT of a record: always refused when the id is taken, and possibly otherwise; a record
        may be written although an error is reported. */
    method Record(id: string, now: int, answer: Answer) returns (ok: bool)
      modifies this
      ensures ok == (answer.Done? && id !in old(table))
      ensures State() ==
        if answer.Refused? || id in old(table) then old(State()) else old(State()).(table := old(table)[id := now])
    {
      if id in table {
        return false;
      }
      if !answer.Refused? {
        table := table[id := now];
      }
      return answer.Done?;
    }

    /** DELETE of a record, with the same three answers. */
    method Remove(id: string, answer: Answer) returns (ok: bool)
      modifies this
      ensures ok == answer.Done?
      ensures State() == if answer.Refused? then old(State()) else old(State()).(table := old(table) - {id})
    {
      if !answer.Refused? {
        table := table - {id};
      }
      return answer.Done?;
    }

    /** Calls a migration function. */
    method Run(ghost event: Event, works: bool) returns (ok: bool)
      modifies this
      ensures ok == works
      ensures State() == old(State()).(trace := old(trace) + [event])
    {
      trace := trace + [event];
      ok := works;
    }
  }

  class Migrator {
    const db: Database
    var migrations: map<string, Migration>

    constructor (db: Database)
      ensures this.db == db && migrations == map[]
    {
      this.db := db;
      migrations := map[];
    }

    method Add(migration: Migration)
      modifies this
      ensures migrations == old(migrations)[migration.id := migration]
    {
      migrations := migrations[migration.id := migration];
    }

    /** `order` is how the map of migrations is iterated, `rows` how the table yields its ids. */
    method Up(order: seq<string>, rows: seq<string>, world: World) returns (error: Option<Error>)
      requires Enumerates(order, migrations.Keys) && Enumerates(rows, db.table.Keys)
      modifies db
      ensures Result(db.State(), error) == MigrationSpec.Up(order, rows, old(db.State()), world)
    {
      if !world.ensureOk {
        return Some(EnsureFailed);
      }
      var applied: set<string>;
      error, applied := GetAppliedMigrations(rows, world.fetch);
      if error.Some? {
        return;
      }
      for i := 0 to |order|
        invariant error.None?
        invariant UpLoop(order, applied, old(db.State()), world) == UpLoop(order[i..], applied, db.State(), world)
      {
        var id := order[i];
        assert order[i..][0] == id && order[i..][1..] == order[i + 1..];
        if id !in applied {
          var ran := db.Run(RanUp(id), world.upOk(id));
          if !ran {
            return Some(UpFailed(id));
          }
          var recorded := db.Record(id, world.now(id), world.record(id));
          if !recorded {
            return Some(RecordFailed(id));
          }
        }
      }
    }

    /** Reads ids until the rows end, without asking why they ended. */
    method GetAppliedMigrations(rows: seq<string>, fetch: Fetch) returns (error: Option<Error>, applied: set<string>)
      ensures error == if fetch.QueryFails? then Some(QueryFailed)
                       else if ScanBreaks(rows, fetch) then Some(ScanFailed) else None
      ensures error.None? ==> applied == set id | id in Arriving(rows, fetch)
    {
      applied := {};
      if fetch.QueryFails? {
        return Some(QueryFailed), applied;
      }
      for i := 0 to |rows|
        invariant applied == set id | id in rows[..i]
        invariant fetch.ScanFails? || fetch.Cut? ==> i <= fetch.n
      {
        if fetch.Cut? && i == fetch.n {
          return None, applied;
        }
        if fetch.ScanFails? && i == fetch.n {
          return Some(ScanFailed), applied;
        }
        applied := applied + {rows[i]};
        assert rows[..i + 1] == rows[..i] + [rows[i]];
      }
      assert rows[..|rows|] == rows;
      return None, applied;
    }

    method Down(rows: seq<string>, world: World) returns (error: Option<Error>)
      requires Descending(db.table, rows)
      modifies db
      ensures Result(db.State(), error) == MigrationSpec.Down(migrations, rows, old(db.State()), world)
    {
      if !world.ensureOk {
        return Some(EnsureFailed);
      }
      if Arriving(rows, world.fetch) == [] {
        return Some(NothingToRollBack);
      }
      error := RollBackOne(rows[0], world);
    }

    method RollBackOne(id: string, world: World) returns (error: Option<Error>)
      modifies db
      ensures Result(db.State(), error) == MigrationSpec.RollBackOne(id, migrations, old(db.State()), world)
    {
      if id !in migrations {
        return Some(NotRegistered(id));
      }
      if !migrations[id].hasDown {
        return Some(NoDown(id));
      }
      var ran := db.Run(RanDown(id), world.downOk(id));
      if !ran {
        return Some(DownFailed(id));
      }
      var removed := db.Remove(id, world.remove(id));
      if !removed {
        return Some(RemoveFailed(id));
      }
      return None;
    }

    /** The loop DownTo and Reset share. */
    method RollBackAll(toRollback: seq<string>, world: World) returns (error: Option<Error>)
      modifies db
      ensures Result(db.State(), error) == RollBack(toRollback, migrations, old(db.State()), world)
    {
      for i := 0 to |toRollback|
        invariant RollBack(toRollback, migrations, old(db.State()), world) ==
          RollBack(toRollback[i..], migrations, db.State(), world)
      {
        assert toRollback[i..][1..] == toRollback[i + 1..];
        error := RollBackOne(toRollback[i], world);
        if error.Some? {
          return;
        }
      }
      return None;
    }

    method DownTo(target: string, rows: seq<string>, world: World) returns (error: Option<Error>)
      requires Descending(db.table, rows)
      modifies db
      ensures Result(db.State(), error) == MigrationSpec.DownTo(target, migrations, rows, old(db.State()), world)
    {
      if !world.ensureOk {
        return Some(EnsureFailed);
      }
      if world.fetch.QueryFails? {
        return Some(QueryFailed);
      }
      var arriving := Arriving(rows, world.fetch);
      var toRollback: seq<string> := [];
      for i := 0 to |arriving|
        invariant toRollback == arriving[..i] && target !in toRollback
      {
        if arriving[i] == target {
          FirstIndex(arriving, target, i);
          error := RollBackAll(toRollback, world);
          return;
        }
        toRollback := toRollback + [arriving[i]];
      }
      assert arriving[..|arriving|] == arriving;
      return if ScanBreaks(rows, world.fetch) then Some(ScanFailed) else Some(TargetMissing);
    }

    method Reset(rows: seq<string>, world: World) returns (error: Option<Error>)
      requires Descending(db.table, rows)
      modifies db
      ensures Result(db.State(), error) == MigrationSpec.Reset(migrations, rows, old(db.State()), world)
    {
      if !world.ensureOk {
        return Some(EnsureFailed);
      }
      if world.fetch.QueryFails? {
        return Some(QueryFailed);
      }
      if ScanBreaks(rows, world.fetch) {
        return Some(ScanFailed);
      }
      var arriving := Arriving(rows, world.fetch);
      var toRollback: seq<string> := [];
      for i := 0 to |arriving|
        invariant toRollback == arriving[..i]
      {
        toRollback := toRollback + [arriving[i]];
      }
      assert arriving[..|arriving|] == arriving;
      error := RollBackAll(toRollback, world);
    }
  }

  lemma {:induction false} FirstIndex(ids: seq<string>, id: string, i: nat)
    requires i < |ids| && ids[i] == id && id !in ids[..i]
    ensures IndexOf(ids, id) == i
  {
    assert i > 0 ==> ids[0] in ids[..i];
    if i > 0 {
      assert ids[1..][..i - 1] == ids[..i][1..];
      FirstIndex(ids[1..], id, i - 1);
    }
  }
}
