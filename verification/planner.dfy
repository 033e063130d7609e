/** The planner inside `RunMigrationsOnDb`: the direction of a run, the
    migrations it needs, and the order it runs them in (`migrationSorter`
    sorted ascending for up, `sort.Reverse` of it for down). */
module Planner {
  import opened Model

  /** Migration `m` has work to do in a run towards `target`: going up, a
      not yet applied migration at or below the target; going down, an
      applied migration at or above it (the target itself included). */
  predicate Needed(m: Migration, direction: Direction, target: int) {
    if direction == Up then m.version <= target && !m.isApplied
    else m.version >= target && m.isApplied
  }

  /** The migrations with work to do, in their original order. */
  function Select(ms: seq<Migration>, direction: Direction, target: int): (r: seq<Migration>)
    ensures forall m :: multiset(r)[m] == if Needed(m, direction, target) then multiset(ms)[m] else 0
    ensures forall i :: 0 <= i < |r| ==> Needed(r[i], direction, target)
  {
    if |ms| == 0 then []
    else
      var prefix := ms[..|ms| - 1];
      var m := ms[|ms| - 1];
      assert ms == prefix + [m];
      var rest := Select(prefix, direction, target);
      if Needed(m, direction, target) then rest + [m] else rest
  }

  /** Selecting keeps versions distinct. */
  lemma {:induction false} SelectKeepsDistinct(ms: seq<Migration>, direction: Direction, target: int)
    requires DistinctVersions(ms)
    ensures DistinctVersions(Select(ms, direction, target))
    decreases |ms|
  {
    if |ms| > 0 {
      var prefix := ms[..|ms| - 1];
      var m := ms[|ms| - 1];
      SelectKeepsDistinct(prefix, direction, target);
      var rest := Select(prefix, direction, target);
      forall x | x in rest ensures x.version != m.version {
        assert x in multiset(rest);
        assert x in prefix;
      }
    }
  }

  /** `a` may run before `b`: ascending versions going up, descending going down. */
  predicate Precedes(a: Migration, b: Migration, direction: Direction) {
    if direction == Up then a.version <= b.version else a.version >= b.version
  }

  predicate Ordered(s: seq<Migration>, direction: Direction) {
    forall i, j :: 0 <= i < j < |s| ==> Precedes(s[i], s[j], direction)
  }

  /** `a` runs strictly before `b`: strictly ascending going up, strictly descending going down. */
  predicate StrictlyPrecedes(a: Migration, b: Migration, direction: Direction) {
    if direction == Up then a.version < b.version else a.version > b.version
  }

  predicate StrictlyOrdered(s: seq<Migration>, direction: Direction) {
    forall i, j :: 0 <= i < j < |s| ==> StrictlyPrecedes(s[i], s[j], direction)
  }

  function Insert(m: Migration, s: seq<Migration>, direction: Direction): (r: seq<Migration>)
    requires Ordered(s, direction)
    ensures Ordered(r, direction)
    ensures multiset(r) == multiset(s) + multiset{m}
  {
    if |s| == 0 then [m]
    else if Precedes(m, s[0], direction) then
      InsertInFront(m, s, direction);
      [m] + s
    else
      var tail := Insert(m, s[1..], direction);
      InsertBehindHead(m, s, tail, direction);
      [s[0]] + tail
  }

  /** A migration that may run before the head of an ordered sequence goes in front of it. */
  lemma InsertInFront(m: Migration, s: seq<Migration>, direction: Direction)
    requires Ordered(s, direction) && |s| > 0 && Precedes(m, s[0], direction)
    ensures Ordered([m] + s, direction)
    ensures multiset([m] + s) == multiset(s) + multiset{m}
  {
    forall j | 0 <= j < |s| ensures Precedes(m, s[j], direction) {
      if j > 0 {
        assert Precedes(s[0], s[j], direction);
      }
    }
    PrependOrdered(m, s, direction);
  }

  /** A migration that may not run before the head goes into the tail, behind the head. */
  lemma InsertBehindHead(m: Migration, s: seq<Migration>, tail: seq<Migration>, direction: Direction)
    requires Ordered(s, direction) && |s| > 0 && !Precedes(m, s[0], direction)
    requires Ordered(tail, direction) && multiset(tail) == multiset(s[1..]) + multiset{m}
    ensures Ordered([s[0]] + tail, direction)
    ensures multiset([s[0]] + tail) == multiset(s) + multiset{m}
  {
    assert s == [s[0]] + s[1..];
    forall j | 0 <= j < |tail| ensures Precedes(s[0], tail[j], direction) {
      assert tail[j] in multiset(s[1..]) + multiset{m};
      if tail[j] != m {
        assert tail[j] in s[1..];
        var i :| 0 <= i < |s[1..]| && s[1..][i] == tail[j];
        assert s[i + 1] == tail[j];
      }
    }
    PrependOrdered(s[0], tail, direction);
  }

  /** A migration that may run before every element of an ordered sequence extends it in front. */
  lemma PrependOrdered(x: Migration, s: seq<Migration>, direction: Direction)
    requires Ordered(s, direction)
    requires forall j :: 0 <= j < |s| ==> Precedes(x, s[j], direction)
    ensures Ordered([x] + s, direction)
  {
    var r := [x] + s;
    forall i, j | 0 <= i < j < |r| ensures Precedes(r[i], r[j], direction) {
      assert r[j] == s[j - 1];
      if i > 0 {
        assert r[i] == s[i - 1];
      }
    }
  }

  /** Inserting a migration whose version is new into a strictly ordered sequence keeps it strictly ordered. */
  lemma {:induction false} InsertKeepsStrict(m: Migration, s: seq<Migration>, direction: Direction)
    requires StrictlyOrdered(s, direction)
    requires forall x :: x in s ==> x.version != m.version
    ensures StrictlyOrdered(Insert(m, s, direction), direction)
    decreases |s|
  {
    if |s| > 0 && !Precedes(m, s[0], direction) {
      InsertKeepsStrict(m, s[1..], direction);
      var tail := Insert(m, s[1..], direction);
      forall x | x in tail ensures StrictlyPrecedes(s[0], x, direction) {
        assert x in multiset(tail);
      }
    }
  }

  /** The sort of `migrationSorter` in the run's direction. */
  function Sort(s: seq<Migration>, direction: Direction): (r: seq<Migration>)
    ensures Ordered(r, direction)
    ensures multiset(r) == multiset(s)
  {
    if |s| == 0 then []
    else
      assert s == [s[0]] + s[1..];
      Insert(s[0], Sort(s[1..], direction), direction)
  }

  /** Sorting migrations with distinct versions orders them strictly. */
  lemma {:induction false} SortDistinctIsStrict(s: seq<Migration>, direction: Direction)
    requires DistinctVersions(s)
    ensures StrictlyOrdered(Sort(s, direction), direction)
    decreases |s|
  {
    if |s| > 0 {
      var rest := Sort(s[1..], direction);
      SortDistinctIsStrict(s[1..], direction);
      forall x | x in rest ensures x.version != s[0].version {
        assert x in multiset(s[1..]);
      }
      InsertKeepsStrict(s[0], rest, direction);
    }
  }

  /** The work-list of a run. */
  datatype MigrationPlan = MigrationPlan(direction: Direction, units: seq<Migration>)

  /** The planner of `RunMigrationsOnDb`: up exactly when the target is not
      below the current version; exactly the needed migrations, each as often
      as it occurs in `ms`; ascending going up, descending going down, and
      strictly so when versions are distinct. */
  function Plan(ms: seq<Migration>, current: int, target: int): (p: MigrationPlan)
    ensures p.direction == Up <==> target >= current
    ensures forall m :: multiset(p.units)[m] == if Needed(m, p.direction, target) then multiset(ms)[m] else 0
    ensures forall i :: 0 <= i < |p.units| ==> Needed(p.units[i], p.direction, target) && p.units[i] in ms
    ensures Ordered(p.units, p.direction)
  {
    var direction := if target < current then Down else Up;
    var selected := Select(ms, direction, target);
    var units := Sort(selected, direction);
    assert forall i :: 0 <= i < |units| ==> units[i] in multiset(selected);
    MigrationPlan(direction, units)
  }

  /** With distinct versions (as discovery guarantees) the plan is strictly
      ascending going up and strictly descending going down. */
  lemma PlanStrictlyOrdered(ms: seq<Migration>, current: int, target: int)
    requires DistinctVersions(ms)
    ensures StrictlyOrdered(Plan(ms, current, target).units, Plan(ms, current, target).direction)
  {
    var direction := Plan(ms, current, target).direction;
    SelectKeepsDistinct(ms, direction, target);
    SortDistinctIsStrict(Select(ms, direction, target), direction);
  }

  /** `after` is `before` once every migration whose version is in `ran`
      carries the applied flag `flag`; versions and all other flags are kept. */
  ghost predicate AfterRun(before: seq<Migration>, after: seq<Migration>, ran: set<int>, flag: bool) {
    && |after| == |before|
    && forall i :: 0 <= i < |before| ==>
         && after[i].version == before[i].version
         && after[i].isApplied == if before[i].version in ran then flag else before[i].isApplied
  }

  /** Re-planning after a run: once every planned unit carries the flag of
      the run's direction, planning again towards the same target in the same
      direction finds nothing to do. */
  lemma ReplanAfterRunIsEmpty(before: seq<Migration>, after: seq<Migration>, current: int, target: int, current': int)
    requires (target >= current) == (target >= current')
    requires var p := Plan(before, current, target); AfterRun(before, after, VersionsOf(p.units), p.direction.Flag())
    ensures Plan(after, current', target).units == []
  {
    var p := Plan(before, current, target);
    var q := Plan(after, current', target);
    assert q.direction == p.direction;
    forall i | 0 <= i < |after| ensures !Needed(after[i], q.direction, target) {
      if Needed(before[i], p.direction, target) {
        NeededIsPlanned(before, current, target, i);
      }
    }
    NothingNeededPlansNothing(after, current', target);
  }

  /** A needed migration's version is among the planned versions. */
  lemma NeededIsPlanned(ms: seq<Migration>, current: int, target: int, i: int)
    requires 0 <= i < |ms| && Needed(ms[i], Plan(ms, current, target).direction, target)
    ensures ms[i].version in VersionsOf(Plan(ms, current, target).units)
  {
    var p := Plan(ms, current, target);
    assert ms[i] in multiset(p.units);
    var k :| 0 <= k < |p.units| && p.units[k] == ms[i];
  }

  /** When no migration is needed, the plan is empty. */
  lemma NothingNeededPlansNothing(ms: seq<Migration>, current: int, target: int)
    requires forall i :: 0 <= i < |ms| ==> !Needed(ms[i], Plan(ms, current, target).direction, target)
    ensures Plan(ms, current, target).units == []
  {
    var q := Plan(ms, current, target);
    forall m ensures multiset(q.units)[m] == 0 {
      if m in ms {
        var i :| 0 <= i < |ms| && ms[i] == m;
      }
    }
    assert multiset(q.units) == multiset{};
    assert |q.units| == |multiset(q.units)|;
  }

  /** The missing-middle scenario: versions 1 and 3 are applied, version 2
      has just appeared on disk; running to target 3 (the current version)
      plans version 2 alone, going up. */
  lemma MissingMiddle()
    ensures var ms := [
        Migration(1, true, 2, "1_setup.sql"),
        Migration(2, false, ZeroTime, "2_one.sql"),
        Migration(3, true, 3, "3_two.sql")];
      Plan(ms, 3, 3) == MigrationPlan(Up, [ms[1]])
  {
    var ms := [
        Migration(1, true, 2, "1_setup.sql"),
        Migration(2, false, ZeroTime, "2_one.sql"),
        Migration(3, true, 3, "3_two.sql")];
    assert ms[..2][..1] == [ms[0]];
    assert Select(ms[..2][..1], Up, 3) == [];
    assert Select(ms[..2], Up, 3) == [ms[1]];
    assert Select(ms, Up, 3) == [ms[1]];
  }

  /** Selecting from two migrations keeps the needed ones in order. */
  lemma SelectPair(a: Migration, b: Migration, direction: Direction, target: int)
    ensures Select([a, b], direction, target)
         == (if Needed(a, direction, target) then [a] else []) + (if Needed(b, direction, target) then [b] else [])
  {
    SelectSnoc([], a, direction, target);
    assert [] + [a] == [a];
    SelectSnoc([a], b, direction, target);
    assert [a] + [b] == [a, b];
  }

  /** Selecting from a sequence extended by one migration extends the selection by it when it is needed. */
  lemma SelectSnoc(ms: seq<Migration>, m: Migration, direction: Direction, target: int)
    ensures Select(ms + [m], direction, target)
         == Select(ms, direction, target) + (if Needed(m, direction, target) then [m] else [])
  {
    assert (ms + [m])[..|ms|] == ms;
  }

  lemma SortSingle(a: Migration, direction: Direction)
    ensures Sort([a], direction) == [a]
  {
    assert [a][1..] == [];
  }

  /** Two migrations sort into the order `Precedes` puts them in. */
  lemma SortPair(a: Migration, b: Migration, direction: Direction)
    ensures Sort([a, b], direction) == if Precedes(a, b, direction) then [a, b] else [b, a]
  {
    assert [a, b][1..] == [b];
    SortSingle(b, direction);
    assert Insert(a, [], direction) == [a];
  }
}
