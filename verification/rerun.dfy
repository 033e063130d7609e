/** Re-running an up-migration. Once `RunMigrationsOnDb` has brought every
    migration up to a target without error, running it again towards the
    same target plans nothing, returns no error and leaves the ledger as it
    is: the events the first run added make each planned migration applied
    and make the newest of them the current version. */
module Rerun {
  import opened Wrappers
  import opened Model
  import opened Paths
  import opened Naming
  import opened Discovery
  import opened Ledger
  import opened Planner
  import opened Apply

  /** Every walk entry that names a migration has no trailing separator.
      `filepath.Walk` produces such paths for every entry below its root;
      only the root itself keeps the spelling it was given, and a root
      written with a trailing separator is excluded only when its own last
      element is named like a migration. */
  predicate PlainPaths(walk: seq<FileEntry>) {
    forall j :: 0 <= j < |walk| && NumericComponent(walk[j].path).Success? ==>
      |walk[j].path| > 0 && walk[j].path[|walk[j].path| - 1] != Sep
  }

  /** A walk from a root configured with a trailing separator meets
      `PlainPaths`: the root's last element is not named like a migration. */
  lemma RootWithTrailingSeparator()
    ensures PlainPaths([FileEntry("/srv/m/", true), FileEntry("/srv/m/1_init.sql", false)])
  {
    var root := "/srv/m/";
    assert root[..|root| - 1] == "/srv/m";
    assert LastSep("/srv/m") == 4;
    assert Base(root) == "m";
    assert ExtUpTo("m", 0) == "";
    assert NumericComponent(root) == Failure(NotMigrationFile);
    var script := "/srv/m/1_init.sql";
    assert |script| > 0 && script[|script| - 1] == 'l';
    var walk := [FileEntry(root, true), FileEntry(script, false)];
    assert walk[0].path == root && walk[1].path == script;
  }

  /** Every migration discovered in such a walk has a script the apply loop runs. */
  lemma CollectedAreRunnable(walk: seq<FileEntry>)
    requires PlainPaths(walk)
    ensures forall i :: 0 <= i < |ValidMigrations(walk)| ==> Runnable(ValidMigrations(walk)[i])
  {
    var ms := ValidMigrations(walk);
    forall i | 0 <= i < |ms| ensures Runnable(ms[i]) {
      var j :| 0 <= j < |walk| && walk[j].path == ms[i].source;
      assert NumericComponent(walk[j].path).Success?;
      PlainEntryRunnable(walk, j);
    }
  }

  /** A walk entry named like a migration keeps its extension on the full path. */
  lemma PlainEntryRunnable(walk: seq<FileEntry>, j: int)
    requires PlainPaths(walk)
    requires 0 <= j < |walk| && NumericComponent(walk[j].path).Success?
    ensures IsMigrationExt(Ext(walk[j].path))
  {
    ExtOfBase(walk[j].path);
  }

  /** The events of an up-run over strictly ascending, runnable units:
      all applies, newer than `start - 1`, one per unit, the newest for the
      last unit. */
  lemma UpRecords(units: seq<Migration>, start: int)
    requires forall k :: 0 <= k < |units| ==> Runnable(units[k])
    requires StrictlyOrdered(units, Up)
    ensures var recent := Records(units, Up, start);
      && |recent| == |units|
      && (forall a :: 0 <= a < |recent| ==> recent[a].applied && recent[a].tstamp >= start)
      && (forall a, b :: 0 <= a < b < |recent| ==> recent[a].version != recent[b].version)
      && (forall k :: 0 <= k < |units| ==> recent[|units| - 1 - k].version == units[k].version)
      && (forall a :: 0 <= a < |recent| ==> recent[a].version in VersionsOf(units))
  {
    var recent := Records(units, Up, start);
    RecordsAllRunnable(units, Up, start);
    forall a | 0 <= a < |recent| ensures recent[a].version in VersionsOf(units) {
      assert recent[a].version == units[|units| - 1 - a].version;
    }
    forall a, b | 0 <= a < b < |recent| ensures recent[a].version != recent[b].version {
      assert StrictlyPrecedes(units[|units| - 1 - b], units[|units| - 1 - a], Up);
    }
  }

  /** The status read back after an up-run whose events `recent` cover
      exactly the planned versions: each planned migration is applied and
      every other migration keeps the status it had. */
  lemma StatusAfterUpRun(ms: seq<Migration>, units: seq<Migration>, recent: seq<Row>, past: seq<Row>, start: int)
    requires DistinctVersions(ms)
    requires forall i :: 0 <= i < |ms| ==> ms[i].tstamp == ZeroTime
    requires start > ZeroTime
    requires forall b :: 0 <= b < |past| ==> past[b].tstamp < start
    requires |recent| == |units|
    requires forall a :: 0 <= a < |recent| ==> recent[a].applied && recent[a].tstamp >= start
    requires forall a, b :: 0 <= a < b < |recent| ==> recent[a].version != recent[b].version
    requires forall k :: 0 <= k < |units| ==> recent[|units| - 1 - k].version == units[k].version
    requires forall a :: 0 <= a < |recent| ==> recent[a].version in VersionsOf(units)
    ensures AfterRun(GetMigrationsStatus(ms, Rows(past)).value, GetMigrationsStatus(ms, Rows(recent + past)).value,
                     VersionsOf(units), true)
  {
    var before := GetMigrationsStatus(ms, Rows(past)).value;
    var after := GetMigrationsStatus(ms, Rows(recent + past)).value;
    StatusAfterNewerRows(ms, recent, past);
    forall i | 0 <= i < |ms|
      ensures after[i].isApplied == if before[i].version in VersionsOf(units) then true else before[i].isApplied
    {
      assert before[i].version == ms[i].version;
      if ms[i].version in VersionsOf(units) {
        var k :| 0 <= k < |units| && units[k].version == ms[i].version;
        assert recent[|units| - 1 - k].version == ms[i].version;
        assert after[i].isApplied == recent[|units| - 1 - k].applied;
      } else {
        assert forall a :: 0 <= a < |recent| ==> recent[a].version != ms[i].version;
      }
    }
  }

  /** The units planned from a status annotation of runnable migrations are runnable. */
  lemma PlannedAreRunnable(ms: seq<Migration>, status: seq<Migration>, current: int, target: int)
    requires forall i :: 0 <= i < |ms| ==> Runnable(ms[i])
    requires |status| == |ms| && forall i :: 0 <= i < |ms| ==> status[i].source == ms[i].source
    ensures forall k :: 0 <= k < |Plan(status, current, target).units| ==> Runnable(Plan(status, current, target).units[k])
  {
    var p := Plan(status, current, target);
    forall k | 0 <= k < |p.units| ensures Runnable(p.units[k]) {
      var i :| 0 <= i < |status| && status[i] == p.units[k];
      assert status[i].source == ms[i].source;
    }
  }

  /** What an up-run over a walk whose migrations collect leaves behind:
      the plan goes up, its units are runnable and strictly ascending, and
      when the run returns no error the ledger is the bootstrapped one below
      one event per unit. */
  lemma UpRunLedger(h: History, walk: seq<FileEntry>, target: int, run: Runner, now: int)
    requires PlainPaths(walk)
    requires EnsureDBVersion(h).Success? && EnsureDBVersion(h).value <= target
    requires CollectMigrations(walk).Success?
    ensures Bootstrap(h, now).Rows?
    ensures var p := Plan(GetMigrationsStatus(CollectMigrations(walk).value, Rows(Bootstrap(h, now).rows)).value,
                          EnsureDBVersion(h).value, target);
      && p.direction == Up
      && (forall k :: 0 <= k < |p.units| ==> Runnable(p.units[k]))
      && StrictlyOrdered(p.units, Up)
      && (RunMigrationsOnDb(h, walk, target, run, now).error.None? ==>
            RunMigrationsOnDb(h, walk, target, run, now).ledger == Rows(Records(p.units, Up, now + 1) + Bootstrap(h, now).rows))
  {
    var current := EnsureDBVersion(h).value;
    RunReachesPlan(h, walk, target, run, now);
    var db := Bootstrap(h, now);
    var ms := CollectMigrations(walk).value;
    var status := GetMigrationsStatus(ms, Rows(db.rows)).value;
    var p := Plan(status, current, target);
    CollectedAreRunnable(walk);
    PlannedAreRunnable(ms, status, current, target);
    assert DistinctVersions(status);
    PlanStrictlyOrdered(status, current, target);
  }

  /** A run that reads a version and collects its migrations gets as far as
      executing its plan over the bootstrapped ledger. */
  lemma RunReachesPlan(h: History, walk: seq<FileEntry>, target: int, run: Runner, now: int)
    requires EnsureDBVersion(h).Success?
    requires CollectMigrations(walk).Success?
    ensures Bootstrap(h, now).Rows?
    ensures GetMigrationsStatus(CollectMigrations(walk).value, Rows(Bootstrap(h, now).rows)).Success?
    ensures RunMigrationsOnDb(h, walk, target, run, now)
         == Execute(Bootstrap(h, now).rows,
                    Plan(GetMigrationsStatus(CollectMigrations(walk).value, Rows(Bootstrap(h, now).rows)).value,
                         EnsureDBVersion(h).value, target),
                    run, now + 1)
  {
    assert Rows(Bootstrap(h, now).rows) == Bootstrap(h, now);
  }

  /** Applies on top of a ledger make the newest of them the current version. */
  lemma CurrentAfterApplies(recent: seq<Row>, past: seq<Row>)
    requires |recent| > 0 && recent[0].applied
    ensures EnsureDBVersion(Rows(recent + past)) == Success(recent[0].version)
  {
    assert recent + past == [FinalizeMigration(Up, recent[0].version, recent[0].tstamp)] + (recent[1..] + past);
    FinalizedUpIsCurrent(recent[0].version, recent[0].tstamp, recent[1..] + past);
  }

  /** A run over a ledger whose plan is empty returns no error and adds nothing. */
  lemma EmptyPlanRun(rows: seq<Row>, walk: seq<FileEntry>, target: int, run: Runner, now: int)
    requires CollectMigrations(walk).Success? && EnsureDBVersion(Rows(rows)).Success?
    requires Plan(GetMigrationsStatus(CollectMigrations(walk).value, Rows(rows)).value,
                  EnsureDBVersion(Rows(rows)).value, target).units == []
    ensures RunMigrationsOnDb(Rows(rows), walk, target, run, now) == RunResult(None, Rows(rows))
  {
    var p := Plan(GetMigrationsStatus(CollectMigrations(walk).value, Rows(rows)).value,
                  EnsureDBVersion(Rows(rows)).value, target);
    assert RunMigrationsOnDb(Rows(rows), walk, target, run, now) == Execute(rows, p, run, now + 1);
    assert [] + rows == rows;
  }

  /** The version read back after an up-run stays at or below the target:
      it is the newest planned version, or the old one when nothing ran. */
  lemma CurrentAfterUpRun(units: seq<Migration>, past: seq<Row>, current: int, target: int, start: int)
    requires EnsureDBVersion(Rows(past)) == Success(current) && current <= target
    requires forall k :: 0 <= k < |units| ==> Runnable(units[k]) && units[k].version <= target
    ensures EnsureDBVersion(Rows(Records(units, Up, start) + past)).Success?
    ensures EnsureDBVersion(Rows(Records(units, Up, start) + past)).value <= target
  {
    var recent := Records(units, Up, start);
    RecordsAllRunnable(units, Up, start);
    if |recent| == 0 {
      assert recent + past == past;
    } else {
      CurrentAfterApplies(recent, past);
    }
  }

  /** Re-planning over the ledger an up-run left: the events of the run on
      top of the ledger `past` make every planned migration applied and keep
      the current version at or below the target, so nothing is left to plan. */
  lemma ReplanAfterUpRun(ms: seq<Migration>, past: seq<Row>, current: int, target: int, start: int)
    requires DistinctVersions(ms)
    requires forall i :: 0 <= i < |ms| ==> ms[i].tstamp == ZeroTime
    requires EnsureDBVersion(Rows(past)) == Success(current) && current <= target
    requires start > ZeroTime && forall b :: 0 <= b < |past| ==> past[b].tstamp < start
    requires var p := Plan(GetMigrationsStatus(ms, Rows(past)).value, current, target);
      (forall k :: 0 <= k < |p.units| ==> Runnable(p.units[k])) && StrictlyOrdered(p.units, Up)
    ensures var p := Plan(GetMigrationsStatus(ms, Rows(past)).value, current, target);
      var ledger := Records(p.units, Up, start) + past;
      && EnsureDBVersion(Rows(ledger)).Success?
      && Plan(GetMigrationsStatus(ms, Rows(ledger)).value, EnsureDBVersion(Rows(ledger)).value, target).units == []
  {
    var status := GetMigrationsStatus(ms, Rows(past)).value;
    var p := Plan(status, current, target);
    assert p.direction == Up && p.direction.Flag();
    var recent := Records(p.units, Up, start);
    UpRecords(p.units, start);
    StatusAfterUpRun(ms, p.units, recent, past, start);
    forall k | 0 <= k < |p.units| ensures p.units[k].version <= target {
      assert Needed(p.units[k], Up, target);
    }
    CurrentAfterUpRun(p.units, past, current, target, start);
    var after := GetMigrationsStatus(ms, Rows(recent + past)).value;
    var current' := EnsureDBVersion(Rows(recent + past)).value;
    assert AfterRun(status, after, VersionsOf(p.units), p.direction.Flag());
    ReplanAfterRunIsEmpty(status, after, current, target, current');
  }

  /** The bootstrapped ledger and the collected migrations an up-run starts
      from: the ledger reports the version read at the start and holds no
      event newer than the start, and the migrations are distinct and fresh. */
  lemma RunInputs(h: History, walk: seq<FileEntry>, now: int)
    requires EnsureDBVersion(h).Success?
    requires h.Rows? ==> forall j :: 0 <= j < |h.rows| ==> h.rows[j].tstamp <= now
    requires CollectMigrations(walk).Success?
    ensures Bootstrap(h, now).Rows?
    ensures EnsureDBVersion(Rows(Bootstrap(h, now).rows)) == EnsureDBVersion(h)
    ensures forall b :: 0 <= b < |Bootstrap(h, now).rows| ==> Bootstrap(h, now).rows[b].tstamp < now + 1
    ensures DistinctVersions(CollectMigrations(walk).value)
    ensures forall i :: 0 <= i < |CollectMigrations(walk).value| ==> CollectMigrations(walk).value[i].tstamp == ZeroTime
  {
    if h.TableMissing? {
      BootstrapAgrees(h, now);
    }
  }

  /** Over the ledger an up-run leaves, the version still reads back and
      planning to the same target finds nothing to do. */
  lemma UpLedgerReplansEmpty(h: History, walk: seq<FileEntry>, target: int, now: int)
    requires PlainPaths(walk)
    requires EnsureDBVersion(h).Success? && EnsureDBVersion(h).value <= target
    requires CollectMigrations(walk).Success?
    requires now >= ZeroTime
    requires h.Rows? ==> forall j :: 0 <= j < |h.rows| ==> h.rows[j].tstamp <= now
    ensures Bootstrap(h, now).Rows?
    ensures var p := Plan(GetMigrationsStatus(CollectMigrations(walk).value, Rows(Bootstrap(h, now).rows)).value,
                          EnsureDBVersion(h).value, target);
      var rows := Records(p.units, Up, now + 1) + Bootstrap(h, now).rows;
      && EnsureDBVersion(Rows(rows)).Success?
      && Plan(GetMigrationsStatus(CollectMigrations(walk).value, Rows(rows)).value,
              EnsureDBVersion(Rows(rows)).value, target).units == []
  {
    RunInputs(h, walk, now);
    CollectedAreRunnable(walk);
    ReplanOverRunnable(CollectMigrations(walk).value, Bootstrap(h, now).rows, EnsureDBVersion(h).value, target, now + 1);
  }

  /** `ReplanAfterUpRun` for migrations that are all runnable: the units
      the plan picks then meet its requirements. */
  lemma ReplanOverRunnable(ms: seq<Migration>, past: seq<Row>, current: int, target: int, start: int)
    requires forall i :: 0 <= i < |ms| ==> Runnable(ms[i])
    requires DistinctVersions(ms)
    requires forall i :: 0 <= i < |ms| ==> ms[i].tstamp == ZeroTime
    requires EnsureDBVersion(Rows(past)) == Success(current) && current <= target
    requires start > ZeroTime && forall b :: 0 <= b < |past| ==> past[b].tstamp < start
    ensures var p := Plan(GetMigrationsStatus(ms, Rows(past)).value, current, target);
      var ledger := Records(p.units, Up, start) + past;
      && EnsureDBVersion(Rows(ledger)).Success?
      && Plan(GetMigrationsStatus(ms, Rows(ledger)).value, EnsureDBVersion(Rows(ledger)).value, target).units == []
  {
    var status := GetMigrationsStatus(ms, Rows(past)).value;
    PlannedAreRunnable(ms, status, current, target);
    assert DistinctVersions(status);
    PlanStrictlyOrdered(status, current, target);
    ReplanAfterUpRun(ms, past, current, target, start);
  }

  /** A run over the ledger a successful up-run leaves, towards the same
      target, at any later time and with any scripts, plans nothing and
      leaves that ledger as it is. */
  lemma RerunOverUpLedger(h: History, walk: seq<FileEntry>, target: int, now: int, run': Runner, later: int)
    requires PlainPaths(walk)
    requires EnsureDBVersion(h).Success? && EnsureDBVersion(h).value <= target
    requires CollectMigrations(walk).Success?
    requires now >= ZeroTime
    requires h.Rows? ==> forall j :: 0 <= j < |h.rows| ==> h.rows[j].tstamp <= now
    ensures Bootstrap(h, now).Rows?
    ensures var p := Plan(GetMigrationsStatus(CollectMigrations(walk).value, Rows(Bootstrap(h, now).rows)).value,
                          EnsureDBVersion(h).value, target);
      var ledger := Rows(Records(p.units, Up, now + 1) + Bootstrap(h, now).rows);
      RunMigrationsOnDb(ledger, walk, target, run', later) == RunResult(None, ledger)
  {
    UpLedgerReplansEmpty(h, walk, target, now);
    var p := Plan(GetMigrationsStatus(CollectMigrations(walk).value, Rows(Bootstrap(h, now).rows)).value,
                  EnsureDBVersion(h).value, target);
    EmptyPlanRun(Records(p.units, Up, now + 1) + Bootstrap(h, now).rows, walk, target, run', later);
  }

  /** An up-run that finishes without error is idempotent: run again
      towards the same target, at any later time and with any scripts, it
      plans nothing, returns no error and leaves the ledger unchanged. The
      clock assumption is that the run starts no earlier than every event
      already in the ledger. */
  lemma UpRunIsIdempotent(h: History, walk: seq<FileEntry>, target: int, run: Runner, now: int, run': Runner, later: int)
    requires PlainPaths(walk)
    requires EnsureDBVersion(h).Success? && EnsureDBVersion(h).value <= target
    requires CollectMigrations(walk).Success?
    requires now >= ZeroTime
    requires h.Rows? ==> forall j :: 0 <= j < |h.rows| ==> h.rows[j].tstamp <= now
    ensures var first := RunMigrationsOnDb(h, walk, target, run, now);
      first.error.None? ==> RunMigrationsOnDb(first.ledger, walk, target, run', later) == RunResult(None, first.ledger)
  {
    var first := RunMigrationsOnDb(h, walk, target, run, now);
    if first.error.None? {
      UpRunLedger(h, walk, target, run, now);
      RerunOverUpLedger(h, walk, target, now, run', later);
    }
  }


  /** The two example scripts are SQL files the apply loop runs. */
  lemma ExampleScriptsRunnable()
    ensures IsMigrationExt(Ext("1_setup.sql")) && IsMigrationExt(Ext("2_one.sql"))
  {
    ExtOfTyped("1_setup", "sql");
    ExtOfTyped("2_one", "sql");
    assert "1_setup" + "." + "sql" == "1_setup.sql";
    assert "2_one" + "." + "sql" == "2_one.sql";
  }

  /** Reverting version 2 then version 1 from time 4 records two events, newest first. */
  lemma RevertsOfPair(a: Migration, b: Migration)
    requires a.version == 2 && b.version == 1 && Runnable(a) && Runnable(b)
    ensures Records([a, b], Down, 4) == [Row(1, false, 5), Row(2, false, 4)]
  {
    assert [a, b][1..] == [b];
    assert [b][1..] == [];
  }

  /** Two migrations whose versions the two newest rows name take their
      status from those rows. */
  lemma StatusOfPair(ms: seq<Migration>, recent: seq<Row>, past: seq<Row>, a0: int, a1: int)
    requires |ms| == 2 && ms[0].version != ms[1].version
    requires |recent| == 2 && recent[0].version != recent[1].version
    requires 0 <= a0 < 2 && 0 <= a1 < 2
    requires recent[a0].version == ms[0].version && recent[a1].version == ms[1].version
    requires forall a, b :: 0 <= a < 2 && 0 <= b < |past| ==> past[b].tstamp < recent[a].tstamp
    requires forall i, a :: 0 <= i < 2 && 0 <= a < 2 ==> ms[i].tstamp < recent[a].tstamp
    ensures GetMigrationsStatus(ms, Rows(recent + past)) == Success([
      ms[0].(isApplied := recent[a0].applied, tstamp := recent[a0].tstamp),
      ms[1].(isApplied := recent[a1].applied, tstamp := recent[a1].tstamp)])
  {
    StatusAfterNewerRows(ms, recent, past);
    var after := GetMigrationsStatus(ms, Rows(recent + past)).value;
    assert |after| == 2 && after == [after[0], after[1]];
  }

  /** The example ledger before the down-run: versions 1 and 2 applied over
      the seed, 2 current. */
  lemma PairLedgerBefore(ms: seq<Migration>, past: seq<Row>)
    requires ms == [Fresh(1, "1_setup.sql"), Fresh(2, "2_one.sql")]
    requires past == [Row(2, true, 3), Row(1, true, 2), Row(0, true, 1)]
    ensures EnsureDBVersion(Rows(past)) == Success(2)
    ensures GetMigrationsStatus(ms, Rows(past))
         == Success([ms[0].(isApplied := true, tstamp := 2), ms[1].(isApplied := true, tstamp := 3)])
  {
    assert HeadAt(past, 0);
    assert past == past[..2] + past[2..];
    StatusOfPair(ms, past[..2], past[2..], 1, 0);
  }

  /** The example ledger after both reverts: the seed is current again. */
  lemma PairLedgerAfterCurrent(ledger: seq<Row>)
    requires |ledger| == 5 && ledger[0] == Row(1, false, 5) && ledger[1] == Row(2, false, 4)
    requires ledger[2] == Row(2, true, 3) && ledger[3] == Row(1, true, 2) && ledger[4] == Row(0, true, 1)
    ensures EnsureDBVersion(Rows(ledger)) == Success(0)
  {
    assert IsFirstOccurrence(ledger, 0) && IsFirstOccurrence(ledger, 1);
    assert ledger[1].version == ledger[2].version && ledger[0].version == ledger[3].version;
    assert HeadAt(ledger, 4);
  }

  /** The example ledger after both reverts: neither migration is applied. */
  lemma PairLedgerAfterStatus(ms: seq<Migration>, ledger: seq<Row>)
    requires ms == [Fresh(1, "1_setup.sql"), Fresh(2, "2_one.sql")]
    requires |ledger| == 5 && ledger[0] == Row(1, false, 5) && ledger[1] == Row(2, false, 4)
    requires ledger[2] == Row(2, true, 3) && ledger[3] == Row(1, true, 2) && ledger[4] == Row(0, true, 1)
    ensures GetMigrationsStatus(ms, Rows(ledger))
         == Success([ms[0].(tstamp := 5), ms[1].(tstamp := 4)])
  {
    assert ledger == ledger[..2] + ledger[2..];
    StatusOfPair(ms, ledger[..2], ledger[2..], 0, 1);
  }

  /** Running the example ledger down to 1 plans version 2 then version 1,
      and the apply loop records their two reverts from time 4. */
  lemma DownRunOfPair(ms: seq<Migration>, past: seq<Row>)
    requires ms == [Fresh(1, "1_setup.sql"), Fresh(2, "2_one.sql")]
    requires past == [Row(2, true, 3), Row(1, true, 2), Row(0, true, 1)]
    ensures var status := GetMigrationsStatus(ms, Rows(past)).value;
      var down := Plan(status, EnsureDBVersion(Rows(past)).value, 1);
      && down == MigrationPlan(Down, [status[1], status[0]])
      && Records(down.units, Down, 4) == [Row(1, false, 5), Row(2, false, 4)]
  {
    PairLedgerBefore(ms, past);
    ExampleScriptsRunnable();
    var status := GetMigrationsStatus(ms, Rows(past)).value;
    SelectPair(status[0], status[1], Down, 1);
    SortPair(status[0], status[1], Down);
    RevertsOfPair(status[1], status[0]);
  }

  /** Over the ledger the two reverts leave, the seed is current, neither
      migration is applied, and running to 1 plans version 1 going up. */
  lemma RerunAfterReverts(ms: seq<Migration>, recent: seq<Row>, past: seq<Row>)
    requires ms == [Fresh(1, "1_setup.sql"), Fresh(2, "2_one.sql")]
    requires recent == [Row(1, false, 5), Row(2, false, 4)]
    requires past == [Row(2, true, 3), Row(1, true, 2), Row(0, true, 1)]
    ensures var status' := GetMigrationsStatus(ms, Rows(recent + past)).value;
      && EnsureDBVersion(Rows(recent + past)) == Success(0)
      && !status'[0].isApplied && !status'[1].isApplied
      && Plan(status', 0, 1) == MigrationPlan(Up, [status'[0]])
      && status'[0].version == 1
  {
    var ledger := recent + past;
    assert |ledger| == 5 && ledger[0] == Row(1, false, 5) && ledger[1] == Row(2, false, 4);
    assert ledger[2] == Row(2, true, 3) && ledger[3] == Row(1, true, 2) && ledger[4] == Row(0, true, 1);
    PairLedgerAfterCurrent(ledger);
    PairLedgerAfterStatus(ms, ledger);
    var status' := GetMigrationsStatus(ms, Rows(ledger)).value;
    SelectPair(status'[0], status'[1], Up, 1);
    SortSingle(status'[0], Up);
  }

  /** A down-run reverts the target version too. With versions 1 and 2
      applied over the seed and 2 current, running down to 1 plans 2 then
      1; the ledger those two reverts leave reports the seed 0 as current
      and both migrations not applied, so running to 1 again plans
      version 1, going up. */
  lemma DownThenRerun(ms: seq<Migration>, past: seq<Row>)
    requires ms == [Fresh(1, "1_setup.sql"), Fresh(2, "2_one.sql")]
    requires past == [Row(2, true, 3), Row(1, true, 2), Row(0, true, 1)]
    ensures var status := GetMigrationsStatus(ms, Rows(past)).value;
      var down := Plan(status, EnsureDBVersion(Rows(past)).value, 1);
      var ledger := Records(down.units, Down, 4) + past;
      var status' := GetMigrationsStatus(ms, Rows(ledger)).value;
      && down == MigrationPlan(Down, [status[1], status[0]])
      && ledger == [Row(1, false, 5), Row(2, false, 4)] + past
      && EnsureDBVersion(Rows(ledger)) == Success(0)
      && !status'[0].isApplied && !status'[1].isApplied
      && Plan(status', EnsureDBVersion(Rows(ledger)).value, 1) == MigrationPlan(Up, [status'[0]])
      && status'[0].version == 1
  {
    DownRunOfPair(ms, past);
    var status := GetMigrationsStatus(ms, Rows(past)).value;
    var down := Plan(status, EnsureDBVersion(Rows(past)).value, 1);
    RerunAfterReverts(ms, Records(down.units, Down, 4), past);
  }
}
