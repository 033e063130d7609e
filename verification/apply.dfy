/** `RunMigrationsOnDb`: read the current version, collect and annotate the
    migrations, plan the run and apply the plan one migration at a time,
    each successful migration adding one event to the ledger in its own
    transaction (`FinalizeMigration`).

    Running a script (`runSQLMigration`, `runGoMigration`) is an input: a
    `Runner` says whether the script succeeds in the given direction. The
    database clock is an input too: the run starts at `now`, the seed row of
    a freshly created ledger carries `now`, and the `k`-th unit of the plan
    is finalized at `now + 1 + k`. */
module Apply {
  import opened Wrappers
  import opened Model
  import opened Paths
  import opened Naming
  import opened Discovery
  import opened Ledger
  import opened Planner

  /** Whether the script of a migration succeeds when run in a direction. */
  type Runner = (Migration, Direction) -> bool

  /** `FinalizeMigration`: the ledger event recording that version `v` was
      migrated in `direction`, at time `tstamp`. */
  function FinalizeMigration(direction: Direction, v: int, tstamp: int): (row: Row)
    ensures row.version == v && row.tstamp == tstamp
    ensures row.applied <==> direction == Up
  {
    Row(v, direction.Flag(), tstamp)
  }

  /** A finalized up-migration at the head of the ledger makes its version
      the current one, whatever came before. */
  lemma FinalizedUpIsCurrent(v: int, tstamp: int, rows: seq<Row>)
    ensures EnsureDBVersion(Rows([FinalizeMigration(Up, v, tstamp)] + rows)) == Success(v)
  {
    assert HeadAt([FinalizeMigration(Up, v, tstamp)] + rows, 0);
  }

  /** The loop dispatches on the extension of the script's path; a unit with
      any other extension runs nothing, records nothing and counts as done. */
  predicate Runnable(m: Migration) {
    IsMigrationExt(Ext(m.source))
  }

  /** The ledger events of running `units` from time `start` in order, all
      successfully: one per runnable unit, newest first. */
  function Records(units: seq<Migration>, direction: Direction, start: int): (r: seq<Row>)
    ensures |r| <= |units|
    ensures forall j :: 0 <= j < |r| ==> r[j].applied == direction.Flag() && start <= r[j].tstamp < start + |units|
    ensures forall j, j' :: 0 <= j < j' < |r| ==> r[j].tstamp > r[j'].tstamp
    decreases |units|
  {
    if |units| == 0 then []
    else
      var rest := Records(units[1..], direction, start + 1);
      rest + (if Runnable(units[0]) then [FinalizeMigration(direction, units[0].version, start)] else [])
  }

  /** When every unit is runnable, the `j`-th newest event records the
      `j`-th unit from the end of the plan. */
  lemma {:induction false} RecordsAllRunnable(units: seq<Migration>, direction: Direction, start: int)
    requires forall k :: 0 <= k < |units| ==> Runnable(units[k])
    ensures |Records(units, direction, start)| == |units|
    ensures forall j :: 0 <= j < |units| ==>
      Records(units, direction, start)[j] == FinalizeMigration(direction, units[|units| - 1 - j].version, start + |units| - 1 - j)
    decreases |units|
  {
    if |units| > 0 {
      RecordsAllRunnable(units[1..], direction, start + 1);
    }
  }

  /** The events are exactly the finalizations of the runnable units, the
      `k`-th unit of the plan finalized at `start + k`. */
  lemma {:induction false} RecordsAreFinalizations(units: seq<Migration>, direction: Direction, start: int)
    ensures forall k :: 0 <= k < |units| && Runnable(units[k]) ==>
      FinalizeMigration(direction, units[k].version, start + k) in Records(units, direction, start)
    ensures forall row :: row in Records(units, direction, start) ==>
      exists k :: 0 <= k < |units| && Runnable(units[k]) && row == FinalizeMigration(direction, units[k].version, start + k)
    decreases |units|
  {
    if |units| > 0 {
      var tail := units[1..];
      RecordsAreFinalizations(tail, direction, start + 1);
      assert forall k :: 1 <= k < |units| ==> units[k] == tail[k - 1];
      forall row | row in Records(units, direction, start)
        ensures exists k :: 0 <= k < |units| && Runnable(units[k]) && row == FinalizeMigration(direction, units[k].version, start + k)
      {
        if row in Records(tail, direction, start + 1) {
          var k' :| 0 <= k' < |tail| && Runnable(tail[k']) && row == FinalizeMigration(direction, tail[k'].version, start + 1 + k');
          assert units[k' + 1] == tail[k'];
        } else {
          assert row == FinalizeMigration(direction, units[0].version, start);
        }
      }
    }
  }

  /** How far the apply loop got: the number of units it finished and the
      version whose script failed, if one did. */
  datatype Progress = Progress(completed: nat, failed: Option<int>)

  /** The apply loop: runs the units in plan order and stops at the first
      runnable unit whose script fails. The units before it are done; the
      failing one is rolled back. */
  function ApplyPlan(units: seq<Migration>, direction: Direction, run: Runner): (a: Progress)
    ensures a.completed <= |units|
    ensures a.failed.None? <==> a.completed == |units|
    ensures forall k :: 0 <= k < a.completed && Runnable(units[k]) ==> run(units[k], direction)
    ensures a.failed.Some? ==>
      && Runnable(units[a.completed])
      && !run(units[a.completed], direction)
      && a.failed.value == units[a.completed].version
    decreases |units|
  {
    if |units| == 0 then Progress(0, None)
    else
      var m := units[0];
      if Runnable(m) && !run(m, direction) then Progress(0, Some(m.version))
      else
        var rest := ApplyPlan(units[1..], direction, run);
        assert forall k :: 1 <= k < |units| ==> units[k] == units[1..][k - 1];
        Progress(rest.completed + 1, rest.failed)
  }

  /** The run succeeds exactly when every runnable unit's script succeeds. */
  lemma ApplyPlanSucceeds(units: seq<Migration>, direction: Direction, run: Runner)
    ensures ApplyPlan(units, direction, run).failed.None? <==>
      forall k :: 0 <= k < |units| && Runnable(units[k]) ==> run(units[k], direction)
  {
    var a := ApplyPlan(units, direction, run);
    if a.failed.Some? {
      assert Runnable(units[a.completed]) && !run(units[a.completed], direction);
    }
  }

  /** The outcome of a run: the error it returns, if any, and the ledger it leaves. */
  datatype RunResult = RunResult(error: Option<Error>, ledger: History)

  /** Applying a plan on top of the ledger `rows`: the rows stay, below
      the events of the finalized units; the run fails exactly when a
      runnable unit's script fails, naming the first such unit and leaving
      the events of the units before it; otherwise every unit is finalized. */
  function Execute(rows: seq<Row>, p: MigrationPlan, run: Runner, start: int): (r: RunResult)
    ensures r.ledger.Rows? && |rows| <= |r.ledger.rows|
    ensures r.ledger.rows[|r.ledger.rows| - |rows|..] == rows
    ensures forall j :: 0 <= j < |r.ledger.rows| - |rows| ==> r.ledger.rows[j].tstamp >= start
    ensures r.error.None? <==> forall k :: 0 <= k < |p.units| && Runnable(p.units[k]) ==> run(p.units[k], p.direction)
    ensures r.error.None? ==> r.ledger.rows == Records(p.units, p.direction, start) + rows
    ensures r.error.Some? ==> exists k :: 0 <= k < |p.units| && r.error.value == MigrationFailed(p.units[k].version)
                                          && Runnable(p.units[k]) && !run(p.units[k], p.direction)
                                          && (forall i :: 0 <= i < k && Runnable(p.units[i]) ==> run(p.units[i], p.direction))
                                          && r.ledger.rows == Records(p.units[..k], p.direction, start) + rows
    ensures PlanOutcome(r, p, run, rows, start)
  {
    var a := ApplyPlan(p.units, p.direction, run);
    ApplyPlanSucceeds(p.units, p.direction, run);
    assert a.failed.None? ==> p.units[..a.completed] == p.units;
    var error := if a.failed.Some? then Some(MigrationFailed(a.failed.value)) else None;
    var recorded := Records(p.units[..a.completed], p.direction, start);
    assert (recorded + rows)[|recorded|..] == rows;
    RunResult(error, Rows(recorded + rows))
  }

  /** The plan a run executes, when the run gets as far as planning: it
      does whenever it reads a version and collects its migrations. */
  function PlanOf(h: History, walk: seq<FileEntry>, target: int, now: int): (p: Option<MigrationPlan>)
    ensures p.Some? <==> EnsureDBVersion(h).Success? && CollectMigrations(walk).Success?
  {
    match EnsureDBVersion(h)
    case Failure(_) => None
    case Success(current) =>
      match CollectMigrations(walk)
      case Failure(_) => None
      case Success(ms) =>
        match GetMigrationsStatus(ms, Bootstrap(h, now))
        case Failure(_) => None
        case Success(status) => Some(Plan(status, current, target))
  }

  /** What a run that executed the plan `p` on top of the ledger `rows`
      reports: no error exactly when every runnable unit's script succeeds,
      and then the events of every unit; otherwise the first runnable unit
      whose script fails, and the events of the units before it. */
  ghost predicate PlanOutcome(r: RunResult, p: MigrationPlan, run: Runner, rows: seq<Row>, start: int) {
    && (r.error.None? <==> forall k :: 0 <= k < |p.units| && Runnable(p.units[k]) ==> run(p.units[k], p.direction))
    && (r.error.None? ==> r.ledger == Rows(Records(p.units, p.direction, start) + rows))
    && (r.error.Some? ==> exists k :: 0 <= k < |p.units| && r.error.value == MigrationFailed(p.units[k].version)
                                      && Runnable(p.units[k]) && !run(p.units[k], p.direction)
                                      && (forall i :: 0 <= i < k && Runnable(p.units[i]) ==> run(p.units[i], p.direction))
                                      && r.ledger == Rows(Records(p.units[..k], p.direction, start) + rows))
  }

  /** `RunMigrationsOnDb`. A failure to read the current version leaves the
      ledger as it was; every later outcome leaves the bootstrapped ledger with
      new events on top, one per finalized unit; the run returns no error
      exactly when every runnable planned script succeeds, and then every
      planned unit is finalized; otherwise it names the first runnable
      planned unit whose script fails and finalizes the units before it. */
  function RunMigrationsOnDb(h: History, walk: seq<FileEntry>, target: int, run: Runner, now: int): (r: RunResult)
    ensures EnsureDBVersion(h).Failure? ==> r == RunResult(Some(EnsureDBVersion(h).error), h)
    ensures EnsureDBVersion(h).Success? && CollectMigrations(walk).Failure? ==>
      r == RunResult(Some(CollectMigrations(walk).error), Bootstrap(h, now))
    ensures EnsureDBVersion(h).Success? ==>
      && Bootstrap(h, now).Rows?
      && r.ledger.Rows?
      && |Bootstrap(h, now).rows| <= |r.ledger.rows|
      && r.ledger.rows[|r.ledger.rows| - |Bootstrap(h, now).rows|..] == Bootstrap(h, now).rows
      && forall j :: 0 <= j < |r.ledger.rows| - |Bootstrap(h, now).rows| ==> r.ledger.rows[j].tstamp > now
    ensures PlanOf(h, walk, target, now).Some? ==>
      PlanOutcome(r, PlanOf(h, walk, target, now).value, run, Bootstrap(h, now).rows, now + 1)
  {
    match EnsureDBVersion(h)
    case Failure(e) => RunResult(Some(e), h)
    case Success(current) =>
      var db := Bootstrap(h, now);
      assert db.Rows?;
      assert CollectMigrations(walk).Success? ==>
        PlanOf(h, walk, target, now) == Some(Plan(GetMigrationsStatus(CollectMigrations(walk).value, db).value, current, target));
      RunFrom(db, current, walk, target, run, now)
  }

  /** The part of a run after the version `current` is read from the
      bootstrapped ledger `db`: collect, annotate, plan and apply. */
  function RunFrom(db: History, current: int, walk: seq<FileEntry>, target: int, run: Runner, now: int): (r: RunResult)
    requires db.Rows?
    ensures CollectMigrations(walk).Failure? ==> r == RunResult(Some(CollectMigrations(walk).error), db)
    ensures && r.ledger.Rows?
            && |db.rows| <= |r.ledger.rows|
            && r.ledger.rows[|r.ledger.rows| - |db.rows|..] == db.rows
            && forall j :: 0 <= j < |r.ledger.rows| - |db.rows| ==> r.ledger.rows[j].tstamp > now
    ensures CollectMigrations(walk).Success? ==>
      PlanOutcome(r, Plan(GetMigrationsStatus(CollectMigrations(walk).value, db).value, current, target), run, db.rows, now + 1)
  {
    match CollectMigrations(walk)
    case Failure(e) => RunResult(Some(e), db)
    case Success(ms) =>
      match GetMigrationsStatus(ms, db)
      case Failure(e) => RunResult(Some(e), db)
      case Success(status) => Execute(db.rows, Plan(status, current, target), run, now + 1)
  }
}
