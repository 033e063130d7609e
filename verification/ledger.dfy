/** Reading the version ledger (`goose_db_version`): the current version of
    the database (`EnsureDBVersion`) and the applied state of each migration
    (`getMigrationsStatus`). The dialect's history query is an input: the
    ledger rows it returns, newest first, or the signal that the table does
    not exist yet. */
module Ledger {
  import opened Wrappers
  import opened Model

  /** The outcome of the dialect's history query. */
  datatype History = TableMissing | QueryError | Rows(rows: seq<Row>)

  /** Row `k` is the newest event for its version in a newest-first history. */
  predicate IsFirstOccurrence(rows: seq<Row>, k: int)
    requires 0 <= k < |rows|
  {
    forall j :: 0 <= j < k ==> rows[j].version != rows[k].version
  }

  /** Row `k` decides the current version: it is the newest event of its
      version, it applies that version, and every newer version's newest
      event is a revert. */
  ghost predicate HeadAt(rows: seq<Row>, k: int) {
    && 0 <= k < |rows|
    && IsFirstOccurrence(rows, k)
    && rows[k].applied
    && forall j :: 0 <= j < k && IsFirstOccurrence(rows, j) ==> !rows[j].applied
  }

  /** Versions of the rows before position `i`. */
  function SeenVersions(rows: seq<Row>, i: int): set<int>
    requires 0 <= i <= |rows|
  {
    set j | 0 <= j < i :: rows[j].version
  }

  /** The newest-first walk of `EnsureDBVersion` from position `i`, where
      `toSkip` holds every version already met (all of them reverted). */
  function FindHead(rows: seq<Row>, i: int, toSkip: set<int>): (r: Result<int, Error>)
    requires 0 <= i <= |rows|
    requires toSkip == SeenVersions(rows, i)
    requires forall j :: 0 <= j < i && IsFirstOccurrence(rows, j) ==> !rows[j].applied
    ensures r.Success? ==> exists k :: i <= k < |rows| && HeadAt(rows, k) && r.value == rows[k].version
    ensures r.Success? ==> forall k :: HeadAt(rows, k) ==> r.value == rows[k].version
    ensures r.Failure? <==> forall k :: 0 <= k < |rows| && IsFirstOccurrence(rows, k) ==> !rows[k].applied
    ensures r.Failure? ==> r.error == LedgerCorrupt
    decreases |rows| - i
  {
    if i == |rows| then Failure(LedgerCorrupt)
    else
      var row := rows[i];
      assert SeenVersions(rows, i + 1) == toSkip + {row.version};
      if row.version in toSkip then
        assert !IsFirstOccurrence(rows, i);
        FindHead(rows, i + 1, toSkip)
      else
        assert IsFirstOccurrence(rows, i);
        if row.applied then
          assert HeadAt(rows, i);
          Success(row.version)
        else FindHead(rows, i + 1, toSkip + {row.version})
  }

  /** `EnsureDBVersion`: the current version of the database. A missing
      table yields 0 (and is created and seeded, see `Bootstrap`); otherwise
      the version of the first row, newest first, that is the newest event
      of its version and applies it. A history without such a row is
      corrupt (the source panics). */
  function EnsureDBVersion(h: History): (r: Result<int, Error>)
    ensures h.TableMissing? ==> r == Success(0)
    ensures h.QueryError? ==> r == Failure(QueryFailed)
    ensures h.Rows? ==> (r.Success? <==> exists k :: HeadAt(h.rows, k))
    ensures h.Rows? && r.Success? ==> exists k :: HeadAt(h.rows, k) && r.value == h.rows[k].version
    ensures h.Rows? && r.Success? ==> forall k :: HeadAt(h.rows, k) ==> r.value == h.rows[k].version
    ensures h.Rows? && r.Failure? ==> r.error == LedgerCorrupt
  {
    match h
    case TableMissing => Success(0)
    case QueryError => Failure(QueryFailed)
    case Rows(rows) =>
      assert SeenVersions(rows, 0) == {};
      FindHead(rows, 0, {})
  }

  /** `createVersionTable`: the ledger a missing table is replaced by, holding
      the single seed row that applies version 0. */
  function Bootstrap(h: History, now: int): (b: History)
    ensures h.TableMissing? ==> b == Rows([Row(0, true, now)])
    ensures !h.TableMissing? ==> b == h
  {
    if h.TableMissing? then Rows([Row(0, true, now)]) else h
  }

  /** The seeded ledger reports the same current version, 0, as the bootstrap did. */
  lemma BootstrapAgrees(h: History, now: int)
    requires h.TableMissing?
    ensures EnsureDBVersion(Bootstrap(h, now)) == EnsureDBVersion(h) == Success(0)
  {
    assert HeadAt(Bootstrap(h, now).rows, 0);
  }

  /** Row `k` is the winning event for version `v` when the scan starts from
      timestamp `t0`: strictly newer than `t0` and than every earlier row of
      `v` in scan order, and at least as new as every later one. */
  ghost predicate IsLatest(rows: seq<Row>, v: int, t0: int, k: int) {
    && 0 <= k < |rows|
    && rows[k].version == v
    && rows[k].tstamp > t0
    && (forall j :: 0 <= j < k && rows[j].version == v ==> rows[j].tstamp < rows[k].tstamp)
    && (forall j :: k < j < |rows| && rows[j].version == v ==> rows[j].tstamp <= rows[k].tstamp)
  }

  /** No row of version `v` is newer than `t0`. */
  ghost predicate NoNewerRow(rows: seq<Row>, v: int, t0: int) {
    forall j :: 0 <= j < |rows| && rows[j].version == v ==> rows[j].tstamp <= t0
  }

  /** One step of the status scan: a row of the migration's version whose
      timestamp is strictly after the migration's replaces its state. */
  function Absorb(m: Migration, row: Row): Migration {
    if row.version == m.version && row.tstamp > m.tstamp then m.(isApplied := row.applied, tstamp := row.tstamp)
    else m
  }

  /** The status scan for one migration, over the rows in query order. */
  function Resolve(m: Migration, rows: seq<Row>): (r: Migration)
    ensures r.version == m.version && r.source == m.source
    ensures NoNewerRow(rows, m.version, m.tstamp) ==> r == m
    ensures forall k :: IsLatest(rows, m.version, m.tstamp, k) ==>
      r == m.(isApplied := rows[k].applied, tstamp := rows[k].tstamp)
    ensures r == m || exists j :: 0 <= j < |rows| && rows[j].version == m.version && r.tstamp == rows[j].tstamp > m.tstamp
  {
    if |rows| == 0 then m
    else
      var prefix := rows[..|rows| - 1];
      var row := rows[|rows| - 1];
      assert rows == prefix + [row];
      var prev := Resolve(m, prefix);
      AbsorbStep(m, prefix, row, prev);
      Absorb(prev, row)
  }

  /** The inductive step of `Resolve`: absorbing one more row keeps the
      state of the winning row of the longer scan. */
  lemma AbsorbStep(m: Migration, prefix: seq<Row>, row: Row, prev: Migration)
    requires prev.version == m.version && prev.source == m.source
    requires NoNewerRow(prefix, m.version, m.tstamp) ==> prev == m
    requires forall k :: IsLatest(prefix, m.version, m.tstamp, k) ==>
      prev == m.(isApplied := prefix[k].applied, tstamp := prefix[k].tstamp)
    requires prev == m || exists j :: 0 <= j < |prefix| && prefix[j].version == m.version && prev.tstamp == prefix[j].tstamp > m.tstamp
    ensures var r := Absorb(prev, row);
      && r.version == m.version && r.source == m.source
      && (NoNewerRow(prefix + [row], m.version, m.tstamp) ==> r == m)
      && (forall k :: IsLatest(prefix + [row], m.version, m.tstamp, k) ==>
            r == m.(isApplied := (prefix + [row])[k].applied, tstamp := (prefix + [row])[k].tstamp))
      && (r == m || exists j :: 0 <= j < |prefix + [row]| && (prefix + [row])[j].version == m.version
                                 && r.tstamp == (prefix + [row])[j].tstamp > m.tstamp)
  {
    var rows := prefix + [row];
    var v, t0 := m.version, m.tstamp;
    var r := Absorb(prev, row);
    assert rows[|prefix|] == row;
    assert NoNewerRow(rows, v, t0) ==> r == m by {
      if NoNewerRow(rows, v, t0) {
        NoNewerInPrefix(prefix, row, v, t0);
      }
    }
    forall k | IsLatest(rows, v, t0, k)
      ensures r == m.(isApplied := rows[k].applied, tstamp := rows[k].tstamp)
    {
      if k < |prefix| {
        LatestInPrefix(prefix, row, v, t0, k);
      } else if prev != m {
        var j :| 0 <= j < |prefix| && prefix[j].version == v && prev.tstamp == prefix[j].tstamp > t0;
        LatestLastIsNewest(prefix, row, v, t0, j);
      }
    }
    assert r == m || exists j :: 0 <= j < |rows| && rows[j].version == v && r.tstamp == rows[j].tstamp > t0 by {
      if r != m {
        if r == prev {
          var j :| 0 <= j < |prefix| && prefix[j].version == v && prev.tstamp == prefix[j].tstamp > t0;
          assert rows[j] == prefix[j];
        } else {
          assert rows[|prefix|] == row;
        }
      }
    }
  }

  /** No newer row in a history means none in its prefix. */
  lemma NoNewerInPrefix(prefix: seq<Row>, row: Row, v: int, t0: int)
    requires NoNewerRow(prefix + [row], v, t0)
    ensures NoNewerRow(prefix, v, t0)
    ensures row.version == v ==> row.tstamp <= t0
  {
    var rows := prefix + [row];
    forall j | 0 <= j < |prefix| && prefix[j].version == v ensures prefix[j].tstamp <= t0 {
      assert rows[j] == prefix[j];
    }
    assert rows[|prefix|] == row;
  }

  /** A winning row inside the prefix wins the prefix too, and the appended
      row is no newer than it. */
  lemma LatestInPrefix(prefix: seq<Row>, row: Row, v: int, t0: int, k: int)
    requires 0 <= k < |prefix|
    requires IsLatest(prefix + [row], v, t0, k)
    ensures IsLatest(prefix, v, t0, k)
    ensures row.version == v ==> row.tstamp <= prefix[k].tstamp
  {
    var rows := prefix + [row];
    assert rows[k] == prefix[k];
    forall j | 0 <= j < k && prefix[j].version == v ensures prefix[j].tstamp < prefix[k].tstamp {
      assert rows[j] == prefix[j];
    }
    forall j | k < j < |prefix| && prefix[j].version == v ensures prefix[j].tstamp <= prefix[k].tstamp {
      assert rows[j] == prefix[j];
    }
    assert rows[|prefix|] == row;
  }

  /** When the appended row wins, it is newer than every prefix row of its version. */
  lemma LatestLastIsNewest(prefix: seq<Row>, row: Row, v: int, t0: int, j: int)
    requires IsLatest(prefix + [row], v, t0, |prefix|)
    requires 0 <= j < |prefix| && prefix[j].version == v
    ensures row.version == v && prefix[j].tstamp < row.tstamp
  {
    var rows := prefix + [row];
    assert rows[j] == prefix[j];
    assert rows[|prefix|] == row;
  }

  /** Whenever some row of `v` is newer than `t0`, a winning row exists. */
  lemma {:induction false} LatestExists(rows: seq<Row>, v: int, t0: int, j: int)
    requires 0 <= j < |rows| && rows[j].version == v && rows[j].tstamp > t0
    ensures exists k :: IsLatest(rows, v, t0, k)
    decreases |rows|
  {
    var prefix := rows[..|rows| - 1];
    var last := rows[|rows| - 1];
    if j == |rows| - 1 {
      if exists i :: 0 <= i < |prefix| && prefix[i].version == v && prefix[i].tstamp >= last.tstamp {
        var i :| 0 <= i < |prefix| && prefix[i].version == v && prefix[i].tstamp >= last.tstamp;
        LatestExists(prefix, v, t0, i);
        var k :| IsLatest(prefix, v, t0, k);
        assert IsLatest(rows, v, t0, k);
      } else {
        assert IsLatest(rows, v, t0, |rows| - 1);
      }
    } else {
      LatestExists(prefix, v, t0, j);
      var k :| IsLatest(prefix, v, t0, k);
      if last.version == v && last.tstamp > rows[k].tstamp {
        assert IsLatest(rows, v, t0, |rows| - 1);
      } else {
        assert IsLatest(rows, v, t0, k);
      }
    }
  }

  /** Position `i` is the one the version map keeps for its version: the
      source builds the map in order, so the last migration of a version wins. */
  predicate IsMapped(ms: seq<Migration>, i: int)
    requires 0 <= i < |ms|
  {
    forall j :: i < j < |ms| ==> ms[j].version != ms[i].version
  }

  /** The state `getMigrationsStatus` gives the migration at position `i`. */
  function StatusOf(ms: seq<Migration>, i: int, rows: seq<Row>): Migration
    requires 0 <= i < |ms|
  {
    var reset := ms[i].(isApplied := false);
    if IsMapped(ms, i) then Resolve(reset, rows) else reset
  }

  /** `getMigrationsStatus`: every migration starts as not applied and takes
      the state of the strictly newest ledger row of its version (the first
      such row in scan order on a tie); a missing table leaves every
      migration not applied. */
  function GetMigrationsStatus(ms: seq<Migration>, h: History): (r: Result<seq<Migration>, Error>)
    ensures h.QueryError? <==> r.Failure?
    ensures r.Failure? ==> r.error == QueryFailed
    ensures r.Success? ==> |r.value| == |ms|
    ensures r.Success? ==> forall i :: 0 <= i < |ms| ==>
      r.value[i].version == ms[i].version && r.value[i].source == ms[i].source
    ensures h.TableMissing? ==> forall i :: 0 <= i < |ms| ==> r.value[i] == ms[i].(isApplied := false)
    ensures h.Rows? ==> forall i :: 0 <= i < |ms| && NoNewerRow(h.rows, ms[i].version, ms[i].tstamp) ==>
      r.value[i] == ms[i].(isApplied := false)
    ensures h.Rows? ==> forall i :: 0 <= i < |ms| && !IsMapped(ms, i) ==> r.value[i] == ms[i].(isApplied := false)
    ensures h.Rows? ==> forall i, k :: 0 <= i < |ms| && IsMapped(ms, i) && IsLatest(h.rows, ms[i].version, ms[i].tstamp, k) ==>
      r.value[i] == ms[i].(isApplied := h.rows[k].applied, tstamp := h.rows[k].tstamp)
  {
    match h
    case QueryError => Failure(QueryFailed)
    case TableMissing => Success(seq(|ms|, i requires 0 <= i < |ms| => ms[i].(isApplied := false)))
    case Rows(rows) => Success(seq(|ms|, i requires 0 <= i < |ms| => StatusOf(ms, i, rows)))
  }

  /** The rows of a history whose version is in `vs`, in the same order. */
  function RowsFor(rows: seq<Row>, vs: set<int>): (r: seq<Row>)
    ensures forall j :: 0 <= j < |r| ==> r[j] in rows && r[j].version in vs
    ensures forall row :: row in rows && row.version in vs ==> row in r
  {
    if |rows| == 0 then []
    else RowsFor(rows[..|rows| - 1], vs) + (if rows[|rows| - 1].version in vs then [rows[|rows| - 1]] else [])
  }

  /** The status scan of a migration sees only rows of its own version. */
  lemma {:induction false} ResolveOnlyOwnRows(m: Migration, rows: seq<Row>, vs: set<int>)
    requires m.version in vs
    ensures Resolve(m, rows) == Resolve(m, RowsFor(rows, vs))
    decreases |rows|
  {
    if |rows| > 0 {
      var prefix := rows[..|rows| - 1];
      var row := rows[|rows| - 1];
      ResolveOnlyOwnRows(m, prefix, vs);
      var filtered := RowsFor(prefix, vs);
      if row.version in vs {
        assert RowsFor(rows, vs) == filtered + [row];
        assert (filtered + [row])[..|filtered|] == filtered;
      } else {
        assert RowsFor(rows, vs) == filtered;
      }
    }
  }

  /** Ledger rows of versions that no migration on disk declares do not
      affect any migration's status. */
  lemma StatusIgnoresForeignRows(ms: seq<Migration>, rows: seq<Row>)
    ensures GetMigrationsStatus(ms, Rows(rows)) == GetMigrationsStatus(ms, Rows(RowsFor(rows, VersionsOf(ms))))
  {
    var vs := VersionsOf(ms);
    forall i | 0 <= i < |ms|
      ensures StatusOf(ms, i, rows) == StatusOf(ms, i, RowsFor(rows, vs))
    {
      assert ms[i].version in vs;
      ResolveOnlyOwnRows(ms[i].(isApplied := false), rows, vs);
    }
    var a := GetMigrationsStatus(ms, Rows(rows)).value;
    var b := GetMigrationsStatus(ms, Rows(RowsFor(rows, vs))).value;
    assert forall i :: 0 <= i < |ms| ==> a[i] == StatusOf(ms, i, rows) && b[i] == StatusOf(ms, i, RowsFor(rows, vs));
    assert a == b;
  }

  /** Filtering a history distributes over concatenation. */
  lemma {:induction false} RowsForAppend(a: seq<Row>, b: seq<Row>, vs: set<int>)
    ensures RowsFor(a + b, vs) == RowsFor(a, vs) + RowsFor(b, vs)
    decreases |b|
  {
    if |b| == 0 {
      assert a + b == a;
    } else {
      var b' := b[..|b| - 1];
      assert (a + b)[..|a + b| - 1] == a + b';
      assert (a + b)[|a + b| - 1] == b[|b| - 1];
      RowsForAppend(a, b', vs);
    }
  }

  /** A history without rows of the versions in `vs` filters to nothing. */
  lemma {:induction false} RowsForNone(rows: seq<Row>, vs: set<int>)
    requires forall j :: 0 <= j < |rows| ==> rows[j].version !in vs
    ensures RowsFor(rows, vs) == []
    decreases |rows|
  {
    if |rows| > 0 {
      RowsForNone(rows[..|rows| - 1], vs);
    }
  }

  /** Rows prepended to a history, each newer than every older row and than
      every migration's timestamp, and at most one per version, decide the
      status of their own versions and leave every other migration's status
      as the older history had it. */
  lemma StatusAfterNewerRows(ms: seq<Migration>, recent: seq<Row>, past: seq<Row>)
    requires DistinctVersions(ms)
    requires forall a, b :: 0 <= a < b < |recent| ==> recent[a].version != recent[b].version
    requires forall a, b :: 0 <= a < |recent| && 0 <= b < |past| ==> past[b].tstamp < recent[a].tstamp
    requires forall i, a :: 0 <= i < |ms| && 0 <= a < |recent| ==> ms[i].tstamp < recent[a].tstamp
    ensures var after := GetMigrationsStatus(ms, Rows(recent + past)).value;
      forall i, a :: 0 <= i < |ms| && 0 <= a < |recent| && recent[a].version == ms[i].version ==>
        after[i] == ms[i].(isApplied := recent[a].applied, tstamp := recent[a].tstamp)
    ensures var before := GetMigrationsStatus(ms, Rows(past)).value;
      var after := GetMigrationsStatus(ms, Rows(recent + past)).value;
      forall i :: 0 <= i < |ms| && (forall a :: 0 <= a < |recent| ==> recent[a].version != ms[i].version) ==>
        after[i] == before[i]
  {
    forall i, a | 0 <= i < |ms| && 0 <= a < |recent| && recent[a].version == ms[i].version
      ensures GetMigrationsStatus(ms, Rows(recent + past)).value[i]
           == ms[i].(isApplied := recent[a].applied, tstamp := recent[a].tstamp)
    {
      NewerRowWins(ms, recent, past, i, a);
    }
    forall i | 0 <= i < |ms| && (forall a :: 0 <= a < |recent| ==> recent[a].version != ms[i].version)
      ensures GetMigrationsStatus(ms, Rows(recent + past)).value[i] == GetMigrationsStatus(ms, Rows(past)).value[i]
    {
      OlderRowsDecide(ms, recent, past, i);
    }
  }

  /** The newer row of a migration's version decides its status. */
  lemma NewerRowWins(ms: seq<Migration>, recent: seq<Row>, past: seq<Row>, i: int, a: int)
    requires DistinctVersions(ms)
    requires forall a, b :: 0 <= a < b < |recent| ==> recent[a].version != recent[b].version
    requires forall a, b :: 0 <= a < |recent| && 0 <= b < |past| ==> past[b].tstamp < recent[a].tstamp
    requires 0 <= i < |ms| && 0 <= a < |recent| && recent[a].version == ms[i].version
    requires ms[i].tstamp < recent[a].tstamp
    ensures GetMigrationsStatus(ms, Rows(recent + past)).value[i]
         == ms[i].(isApplied := recent[a].applied, tstamp := recent[a].tstamp)
  {
    var rows := recent + past;
    assert IsMapped(ms, i);
    assert rows[a] == recent[a];
    forall j | 0 <= j < |recent| && j != a ensures rows[j].version != ms[i].version {
      assert rows[j] == recent[j];
    }
    forall j | |recent| <= j < |rows| ensures rows[j].tstamp < rows[a].tstamp {
      assert rows[j] == past[j - |recent|];
    }
    assert IsLatest(rows, ms[i].version, ms[i].tstamp, a);
  }

  /** A migration without a newer row keeps the status the older rows give it. */
  lemma OlderRowsDecide(ms: seq<Migration>, recent: seq<Row>, past: seq<Row>, i: int)
    requires 0 <= i < |ms|
    requires forall a :: 0 <= a < |recent| ==> recent[a].version != ms[i].version
    ensures GetMigrationsStatus(ms, Rows(recent + past)).value[i] == GetMigrationsStatus(ms, Rows(past)).value[i]
  {
    var rows := recent + past;
    var vs := {ms[i].version};
    var reset := ms[i].(isApplied := false);
    ResolveOnlyOwnRows(reset, rows, vs);
    ResolveOnlyOwnRows(reset, past, vs);
    RowsForAppend(recent, past, vs);
    RowsForNone(recent, vs);
    assert RowsFor(rows, vs) == RowsFor(past, vs);
  }
}
