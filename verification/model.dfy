/** The values the migration engine works on: discovered migrations,
    ledger rows (the `goose_db_version` table), directory-walk entries,
    the migration direction and the engine's errors. */
module Model {

  /** Range of Go's `int64`, the type of every migration version. */
  const MinInt64: int := -0x8000_0000_0000_0000
  const MaxInt64: int := 0x7FFF_FFFF_FFFF_FFFF

  /** Largest `uint64`, the bound `strconv` checks while it accumulates digits. */
  const MaxUint64: int := 0xFFFF_FFFF_FFFF_FFFF

  /** Go's zero `time.Time`, the timestamp a freshly collected migration carries. */
  const ZeroTime: int := 0

  /** `Direction` is a Go `bool`: `DirectionUp` is `true`, `DirectionDown` is `false`. */
  datatype Direction = Down | Up {
    function Flag(): bool {
      this == Up
    }
  }

  /** `Direction.String`: "up" for the direction whose flag is set, "down" otherwise. */
  function DirectionName(d: Direction): (s: string)
    ensures s == "up" <==> d.Flag()
    ensures s == "down" <==> !d.Flag()
  {
    if d == Up then "up" else "down"
  }

  /** A migration script found on disk, annotated with its ledger state. */
  datatype Migration = Migration(version: int, isApplied: bool, tstamp: int, source: string)

  /** One ledger event: `applied` is true for an apply, false for a revert. */
  datatype Row = Row(version: int, applied: bool, tstamp: int)

  /** One entry produced by walking the migrations directory. */
  datatype FileEntry = FileEntry(path: string, isDir: bool)

  datatype Error =
    | NotMigrationFile
    | NoSeparator
    | SyntaxError
    | RangeError
    | NonPositiveVersion
    | DuplicateVersion(version: int, first: string, second: string)
    | QueryFailed
    | LedgerCorrupt
    | NoPreviousVersion
    | NoValidVersion
    | BadMigrationType
    | MigrationFailed(version: int)

  /** No two migrations share a version. */
  predicate DistinctVersions(ms: seq<Migration>) {
    forall i, j :: 0 <= i < j < |ms| ==> ms[i].version != ms[j].version
  }

  /** Versions of a sequence of migrations. */
  function VersionsOf(ms: seq<Migration>): set<int> {
    set i | 0 <= i < |ms| :: ms[i].version
  }
}
