/** Discovery of migration scripts in a directory walk, and the two
    helpers that pick a version out of the migrations directory. The walk
    itself (`filepath.Walk`) is an input: the entries it visits, in order.

    The scans are written once over an arbitrary name parser and then
    instantiated with `NumericComponent`; keeping the parser abstract keeps
    the proofs about the scans independent of how names are parsed. */
module Discovery {
  import opened Wrappers
  import opened Model
  import opened Naming

  type Parser = string -> Result<int, Error>

  /** A migration as discovery creates it: not applied, zero timestamp. */
  function Fresh(version: int, source: string): Migration {
    Migration(version, false, ZeroTime, source)
  }

  /** The positions of the walk entries whose name `parse` accepts: each
      such position once, in increasing order. */
  function AcceptedIndices(walk: seq<FileEntry>, parse: Parser): (idx: seq<int>)
    ensures forall i :: 0 <= i < |idx| ==> 0 <= idx[i] < |walk| && parse(walk[idx[i]].path).Success?
    ensures forall i1, i2 :: 0 <= i1 < i2 < |idx| ==> idx[i1] < idx[i2]
    ensures forall j :: 0 <= j < |walk| && parse(walk[j].path).Success? ==> j in idx
  {
    if |walk| == 0 then []
    else
      var prefix := AcceptedIndices(walk[..|walk| - 1], parse);
      assert forall i :: 0 <= i < |prefix| ==> walk[..|walk| - 1][prefix[i]] == walk[prefix[i]];
      if parse(walk[|walk| - 1].path).Success? then prefix + [|walk| - 1] else prefix
  }

  /** Every walk entry whose name `parse` accepts, in walk order
      (`AcceptedInWalkOrder`). */
  function ValidMigrationsBy(walk: seq<FileEntry>, parse: Parser): (ms: seq<Migration>)
    ensures |ms| <= |walk|
    ensures forall i :: 0 <= i < |ms| ==>
      && parse(ms[i].source) == Success(ms[i].version)
      && ms[i] == Fresh(ms[i].version, ms[i].source)
    ensures forall i :: 0 <= i < |ms| ==> exists j :: 0 <= j < |walk| && walk[j].path == ms[i].source
    ensures forall j :: 0 <= j < |walk| && parse(walk[j].path).Success? ==>
      Fresh(parse(walk[j].path).value, walk[j].path) in ms
  {
    if |walk| == 0 then []
    else
      var prefix := ValidMigrationsBy(walk[..|walk| - 1], parse);
      var e := walk[|walk| - 1];
      match parse(e.path)
      case Success(v) => prefix + [Fresh(v, e.path)]
      case Failure(_) => prefix
  }

  /** Every walk entry whose name declares a version, in walk order, as a
      fresh migration, one per such entry. Like the source, this does not
      look at whether the entry is a directory. */
  function ValidMigrations(walk: seq<FileEntry>): (ms: seq<Migration>)
    ensures forall i :: 0 <= i < |ms| ==>
      && NumericComponent(ms[i].source) == Success(ms[i].version)
      && !ms[i].isApplied
      && ms[i].tstamp == ZeroTime
    ensures forall i :: 0 <= i < |ms| ==> exists j :: 0 <= j < |walk| && walk[j].path == ms[i].source
    ensures forall j :: 0 <= j < |walk| && NumericComponent(walk[j].path).Success? ==>
      Fresh(NumericComponent(walk[j].path).value, walk[j].path) in ms
  {
    ValidMigrationsBy(walk, NumericComponent)
  }

  /** The accepted entries in walk order, each once: the `i`-th migration
      comes from the `i`-th accepted position of the walk. */
  lemma {:induction false} AcceptedInWalkOrder(walk: seq<FileEntry>, parse: Parser)
    ensures var ms := ValidMigrationsBy(walk, parse);
      var idx := AcceptedIndices(walk, parse);
      && |ms| == |idx|
      && forall i :: 0 <= i < |ms| ==> ms[i] == Fresh(parse(walk[idx[i]].path).value, walk[idx[i]].path)
    decreases |walk|
  {
    if |walk| > 0 {
      var front := walk[..|walk| - 1];
      var e := walk[|walk| - 1];
      AcceptedInWalkOrder(front, parse);
      ValidMigrationsStep(walk, parse);
      var before := ValidMigrationsBy(front, parse);
      var ms := ValidMigrationsBy(walk, parse);
      var idx0 := AcceptedIndices(front, parse);
      var idx := AcceptedIndices(walk, parse);
      assert idx == idx0 + (if parse(e.path).Success? then [|walk| - 1] else []);
      assert ms == before + (if parse(e.path).Success? then [Fresh(parse(e.path).value, e.path)] else []);
      forall i | 0 <= i < |ms|
        ensures ms[i] == Fresh(parse(walk[idx[i]].path).value, walk[idx[i]].path)
      {
        if i < |before| {
          assert ms[i] == before[i] && idx[i] == idx0[i];
          assert front[idx0[i]] == walk[idx0[i]];
        }
      }
    }
  }

  /** No two entries of the walk declare the same version. */
  ghost predicate DistinctDeclared(walk: seq<FileEntry>, parse: Parser) {
    forall j1, j2 :: 0 <= j1 < j2 < |walk| && parse(walk[j1].path).Success? && parse(walk[j2].path).Success? ==>
      parse(walk[j1].path).value != parse(walk[j2].path).value
  }

  /** The accepted entries have distinct versions exactly when no two
      entries of the walk declare the same version. */
  lemma DistinctExactlyWhenDeclaredDistinct(walk: seq<FileEntry>, parse: Parser)
    ensures DistinctVersions(ValidMigrationsBy(walk, parse)) <==> DistinctDeclared(walk, parse)
  {
    AcceptedInWalkOrder(walk, parse);
    var ms := ValidMigrationsBy(walk, parse);
    var idx := AcceptedIndices(walk, parse);
    if DistinctVersions(ms) {
      DeclaredDistinctFromIndices(walk, parse, ms, idx);
    }
    if DistinctDeclared(walk, parse) {
      forall i1, i2 | 0 <= i1 < i2 < |ms| ensures ms[i1].version != ms[i2].version {
        assert idx[i1] < idx[i2];
      }
    }
  }

  /** Distinct versions at the accepted positions mean distinct declarations. */
  lemma DeclaredDistinctFromIndices(walk: seq<FileEntry>, parse: Parser, ms: seq<Migration>, idx: seq<int>)
    requires DistinctVersions(ms)
    requires |ms| == |idx|
    requires forall i :: 0 <= i < |idx| ==> 0 <= idx[i] < |walk| && parse(walk[idx[i]].path) == Success(ms[i].version)
    requires forall j :: 0 <= j < |walk| && parse(walk[j].path).Success? ==> j in idx
    ensures DistinctDeclared(walk, parse)
  {
    forall j1, j2 | 0 <= j1 < j2 < |walk| && parse(walk[j1].path).Success? && parse(walk[j2].path).Success?
      ensures parse(walk[j1].path).value != parse(walk[j2].path).value
    {
      var i1 :| 0 <= i1 < |idx| && idx[i1] == j1;
      var i2 :| 0 <= i2 < |idx| && idx[i2] == j2;
      assert ms[i1].version != ms[i2].version by {
        if i1 < i2 {
        } else {
          assert i2 < i1;
        }
      }
    }
  }

  /** Position of the first migration with version `v`, or -1. */
  function IndexOfVersion(ms: seq<Migration>, v: int): (i: int)
    ensures -1 <= i < |ms|
    ensures i >= 0 ==> ms[i].version == v
    ensures forall j :: 0 <= j < |ms| && (i < 0 || j < i) ==> ms[j].version != v
  {
    if |ms| == 0 then -1
    else if ms[0].version == v then 0
    else
      var k := IndexOfVersion(ms[1..], v);
      if k < 0 then -1 else k + 1
  }

  /** `e` names two distinct positions of `ms` that declare the same version. */
  ghost predicate NamesDuplicate(ms: seq<Migration>, e: Error) {
    && e.DuplicateVersion?
    && exists i, j ::
         && 0 <= i < j < |ms|
         && ms[i].version == e.version && ms[j].version == e.version
         && ms[i].source == e.first && ms[j].source == e.second
  }

  /** A duplicate found in a prefix is still a duplicate of the whole. */
  lemma DuplicateExtends(ms: seq<Migration>, tail: seq<Migration>, e: Error)
    requires NamesDuplicate(ms, e)
    ensures NamesDuplicate(ms + tail, e)
    ensures !DistinctVersions(ms + tail)
  {
    var i, j :| 0 <= i < j < |ms|
      && ms[i].version == e.version && ms[j].version == e.version
      && ms[i].source == e.first && ms[j].source == e.second;
    assert (ms + tail)[i] == ms[i] && (ms + tail)[j] == ms[j];
  }

  /** The accepted entries of a walk extend those of its prefix by at most the last entry. */
  lemma ValidMigrationsStep(walk: seq<FileEntry>, parse: Parser)
    requires |walk| > 0
    ensures var e := walk[|walk| - 1];
      ValidMigrationsBy(walk, parse) == ValidMigrationsBy(walk[..|walk| - 1], parse)
        + (if parse(e.path).Success? then [Fresh(parse(e.path).value, e.path)] else [])
  {
  }

  /** The discovery loop over an arbitrary parser: the accepted entries, or
      the first duplicate version met in walk order. */
  function CollectBy(walk: seq<FileEntry>, parse: Parser): (r: Result<seq<Migration>, Error>)
    ensures r.Success? <==> DistinctVersions(ValidMigrationsBy(walk, parse))
    ensures r.Success? ==> r.value == ValidMigrationsBy(walk, parse)
    ensures r.Failure? ==> NamesDuplicate(ValidMigrationsBy(walk, parse), r.error)
  {
    if |walk| == 0 then Success([])
    else
      var prefix := walk[..|walk| - 1];
      var name := walk[|walk| - 1].path;
      ValidMigrationsStep(walk, parse);
      var tail := if parse(name).Success? then [Fresh(parse(name).value, name)] else [];
      match CollectBy(prefix, parse)
      case Failure(e) =>
        DuplicateExtends(ValidMigrationsBy(prefix, parse), tail, e);
        Failure(e)
      case Success(ms) =>
        match parse(name)
        case Failure(_) => Success(ms)
        case Success(v) =>
          var i := IndexOfVersion(ms, v);
          var all := ms + [Fresh(v, name)];
          if i >= 0 then
            assert all[i].version == all[|ms|].version;
            Failure(DuplicateVersion(v, ms[i].source, name))
          else Success(all)
  }

  /** `CollectMigrations`: the migrations the walk declares, with distinct
      versions, or the first duplicate version, which aborts discovery. */
  function CollectMigrations(walk: seq<FileEntry>): (r: Result<seq<Migration>, Error>)
    ensures r.Success? <==> DistinctVersions(ValidMigrations(walk))
    ensures r.Success? ==> r.value == ValidMigrations(walk) && DistinctVersions(r.value)
    ensures r.Failure? ==> NamesDuplicate(ValidMigrations(walk), r.error)
  {
    CollectBy(walk, NumericComponent)
  }

  /** Discovery succeeds exactly when no two entries of the walk declare
      the same version. */
  lemma CollectSucceedsExactlyWhenDeclaredDistinct(walk: seq<FileEntry>)
    ensures CollectMigrations(walk).Success? <==> DistinctDeclared(walk, NumericComponent)
  {
    DistinctExactlyWhenDeclaredDistinct(walk, NumericComponent);
  }

  /** The version a single walk entry contributes: none for a directory or an unparsable name. */
  function EntryVersion(e: FileEntry, parse: Parser): (vs: set<int>)
    ensures forall v :: v in vs <==> !e.isDir && parse(e.path) == Success(v)
  {
    if e.isDir then {}
    else
      match parse(e.path)
      case Success(v) => {v}
      case Failure(_) => {}
  }

  /** Versions declared by the regular files of the walk. */
  function FileVersionsBy(walk: seq<FileEntry>, parse: Parser): (vs: set<int>)
    ensures forall v :: v in vs ==> exists j :: 0 <= j < |walk| && v in EntryVersion(walk[j], parse)
    ensures forall j :: 0 <= j < |walk| ==> EntryVersion(walk[j], parse) <= vs
  {
    if |walk| == 0 then {}
    else FileVersionsBy(walk[..|walk| - 1], parse) + EntryVersion(walk[|walk| - 1], parse)
  }

  /** The `j`-th walk entry is a regular file (not a directory) whose name declares version `v`. */
  predicate IsFileVersion(walk: seq<FileEntry>, j: int, v: int) {
    0 <= j < |walk| && !walk[j].isDir && NumericComponent(walk[j].path) == Success(v)
  }

  /** Versions declared by the regular files (not directories) of the walk. */
  function FileVersions(walk: seq<FileEntry>): (vs: set<int>)
    ensures forall v :: v in vs <==> exists j :: IsFileVersion(walk, j, v)
  {
    var vs := FileVersionsBy(walk, NumericComponent);
    assert forall v :: v in vs ==> exists j :: IsFileVersion(walk, j, v) by {
      forall v | v in vs ensures exists j :: IsFileVersion(walk, j, v) {
        var j :| 0 <= j < |walk| && v in EntryVersion(walk[j], NumericComponent);
        assert IsFileVersion(walk, j, v);
      }
    }
    assert forall j, v :: IsFileVersion(walk, j, v) ==> v in EntryVersion(walk[j], NumericComponent);
    vs
  }

  /** State of the scan in `GetPreviousDBVersion`. */
  datatype PreviousScan = PreviousScan(previous: int, sawGiven: bool)

  /** The scan of `GetPreviousDBVersion`: the greatest version below `version`
      (-1 when there is none) and whether `version` itself was seen. */
  function ScanPrevious(walk: seq<FileEntry>, parse: Parser, version: int): (s: PreviousScan)
    requires forall name :: parse(name).Success? ==> parse(name).value > 0
    ensures s.sawGiven <==> version in FileVersionsBy(walk, parse)
    ensures s.previous == -1 <==> forall v :: v in FileVersionsBy(walk, parse) ==> v >= version
    ensures s.previous != -1 ==>
      && s.previous in FileVersionsBy(walk, parse)
      && s.previous < version
      && forall v :: v in FileVersionsBy(walk, parse) && v < version ==> v <= s.previous
  {
    if |walk| == 0 then PreviousScan(-1, false)
    else
      var s := ScanPrevious(walk[..|walk| - 1], parse, version);
      var e := walk[|walk| - 1];
      if e.isDir then s
      else
        match parse(e.path)
        case Failure(_) => s
        case Success(v) =>
          PreviousScan(if v > s.previous && v < version then v else s.previous, s.sawGiven || v == version)
  }

  /** `GetPreviousDBVersion`: the greatest version strictly below `version`;
      0 when there is none but `version` exists; otherwise `NoPreviousVersion`. */
  function GetPreviousDBVersion(walk: seq<FileEntry>, version: int): (r: Result<int, Error>)
    ensures r.Success? <==> exists j, v :: IsFileVersion(walk, j, v) && v <= version
    ensures r.Failure? ==> r.error == NoPreviousVersion
    ensures r.Success? && r.value != 0 ==>
      && r.value < version
      && (exists j :: IsFileVersion(walk, j, r.value))
      && forall j, v :: IsFileVersion(walk, j, v) && v < version ==> v <= r.value
    ensures r == Success(0) ==>
      && (exists j :: IsFileVersion(walk, j, version))
      && forall j, v :: IsFileVersion(walk, j, v) ==> v >= version
  {
    var vs := FileVersions(walk);
    var s := ScanPrevious(walk, NumericComponent, version);
    if s.previous == -1 then
      if s.sawGiven then Success(0) else Failure(NoPreviousVersion)
    else Success(s.previous)
  }

  /** The scan of `GetMostRecentDBVersion`: the greatest version, or -1. */
  function ScanMostRecent(walk: seq<FileEntry>, parse: Parser): (v: int)
    requires forall name :: parse(name).Success? ==> parse(name).value > 0
    ensures v == -1 <==> FileVersionsBy(walk, parse) == {}
    ensures v != -1 ==> v in FileVersionsBy(walk, parse) && forall w :: w in FileVersionsBy(walk, parse) ==> w <= v
  {
    if |walk| == 0 then -1
    else
      var best := ScanMostRecent(walk[..|walk| - 1], parse);
      var e := walk[|walk| - 1];
      if e.isDir then best
      else
        match parse(e.path)
        case Failure(_) => best
        case Success(v) => if v > best then v else best
  }

  /** `GetMostRecentDBVersion`: the greatest version in the directory, or an error when there is none. */
  function GetMostRecentDBVersion(walk: seq<FileEntry>): (r: Result<int, Error>)
    ensures r.Failure? <==> forall j, v :: !IsFileVersion(walk, j, v)
    ensures r.Failure? ==> r.error == NoValidVersion
    ensures r.Success? ==> exists j :: IsFileVersion(walk, j, r.value)
    ensures r.Success? ==> forall j, v :: IsFileVersion(walk, j, v) ==> v <= r.value
  {
    var vs := FileVersions(walk);
    var v := ScanMostRecent(walk, NumericComponent);
    if v == -1 then Failure(NoValidVersion) else Success(v)
  }
}
