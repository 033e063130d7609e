# goose migration engine, modelled in Dafny

This project models the core of goose, a schema-migration tool written in
Go: `lib/goose/migrate.go` and the pure parts of `lib/goose/dbconf.go`.

- **Discovery.** Migration scripts named `<version>_<description>.go|.sql`
  are found by walking the migrations directory. `NumericComponent` parses
  the version out of a name. `CollectMigrations` aborts on a duplicate
  version.
- **Ledger.** The `goose_db_version` table is an append-only log of
  apply/revert events. `EnsureDBVersion` reads the current version from
  it. A missing table is created with a seed row for version 0.
  `getMigrationsStatus` marks each migration applied or not from the
  newest event of its version.
- **Planner.** `RunMigrationsOnDb` goes up when the target is not below
  the current version and down otherwise. It selects the migrations with
  work to do and sorts them, ascending going up and descending going down.
- **Apply loop.** Each migration's script runs in plan order. A successful
  script is finalized by one ledger event. The first failing script stops
  the run.
- **Configuration.** `findDBConf` searches upwards for `dbconf.yaml` or
  `dbconf.yml`. `newDBDriver` supplies the per-driver defaults. `IsValid`
  checks a driver. `NewDBConf` resolves the migrations directory and
  applies the `import` and `dialect` overrides.

The model is pure:

- The directory walk is a sequence of entries.
- The ledger query result is a `History`: a missing table, a query error,
  or the rows newest first.
- Whether a script succeeds is a `Runner`, a function of the migration and
  the direction.
- The database clock is a number. A run starting at `now` seeds a fresh
  ledger at `now` and finalizes the `k`-th planned migration at
  `now + 1 + k`.
- The configuration host is a `Host` record of oracles: file existence,
  the YAML reader, environment expansion, the Postgres URL parser and the
  dialect lookup.

Files:

- `wrappers.dfy` holds `Option` and `Result`.
- `paths.dfy` models `filepath.Base`, `Ext`, `Join`, `Dir` and `IsAbs` on
  `/`-separated paths.
- `model.dfy` holds the entities.
- `naming.dfy`, `discovery.dfy`, `ledger.dfy`, `planner.dfy`, `apply.dfy`
  and `dbconf.dfy` follow the source's functions.
- `rerun.dfy` proves the main end-to-end property: an up-run that succeeds
  is idempotent. Running it again towards the same target plans nothing,
  returns no error and leaves the ledger unchanged.

Some behaviours of the code as written, proved here:

- A down-run includes the target version itself (`Version >= target`).
  After running down to version T, the ledger the reverts leave reports T
  as not applied, and running to T again plans T going up
  (`Rerun.DownThenRerun`).
- A run whose target equals the current version is not necessarily empty.
  A migration that appears below the current version without a ledger
  event is planned (`Planner.MissingMiddle`).
- Some tests expect behaviour the code does not have. The model follows
  the code:
  - `TestFindDBConf_confDir` and `TestFindDBConf_deepDir` in
    `lib/goose/dbconf_test.go` expect a `db/dbconf.yaml` below the start
    directory to be found. `findDBConf` only looks in the start directory
    and its ancestors, so the model does the same.
  - `TestNewDBConf_driverDefaults` expects success without an `open` key,
    and a driver name matched without regard to case. `NewDBConf` fails
    when `open` is missing (`MissingKey`). `newDBDriver` compares names
    exactly.
  - `TestNewDBConf_default` expects success from environment variables
    alone, without a configuration file. `NewDBConf` reads no environment
    defaults and fails when `findDBConf` finds no file (`ConfNotFound`).
  - `TestNewDBConf_driverImport` expects the driver
    `github.com/myfork/mysql` to become `mysql` with the MySQL dialect.
    `newDBDriver` keeps an unknown name as it is, without import path or
    dialect, so without overrides `NewDBConf` rejects the driver
    (`InvalidDriver`).

## Model

| member | source | states |
|---|---|---|
| Model.DirectionName | lib/goose/migrate.go:25-31 | a direction prints as "up" exactly when its boolean is true (`DirectionUp`) and as "down" otherwise |
| Naming.ParseInt | lib/goose/migrate.go:195 | `strconv.ParseInt(s, 10, 64)`: succeeds exactly on an optional `+` or `-` followed by at least one decimal digit whose signed value lies in int64, returning that value; the digits are scanned left to right, so a leading digit run past the uint64 maximum is a range error even when other text follows; any other malformed text is a syntax error, and a well-formed numeral outside int64 a range error |
| Naming.NumeralThenText | lib/goose/migrate.go:195 | digits followed by a non-digit are a syntax error while their value is at most the uint64 maximum, and a range error once it exceeds it |
| Naming.FormatThenParse | lib/goose/migrate.go:195 | the parse reads back every int64 value written in decimal, also behind a `+` when non-negative, and rejects every value outside int64 with a range error |
| Naming.IndexOf | lib/goose/migrate.go:190 | `strings.Index` for `_`: -1 or the position of the first occurrence, with no occurrence before it |
| Naming.NumericComponent | lib/goose/migrate.go:183-201 | a version is returned only for a base name with extension `.go` or `.sql`, and it is positive and within int64; any other extension is rejected as not a migration file, and a `.go` or `.sql` name without `_` as having no separator; with `_`, the text before the first `_` decides: its parse error is returned, a parsed value at or below zero is rejected as non-positive, and a positive one is the version |
| Naming.CreateMigration | lib/goose/migrate.go:398-406 | fails exactly when the migration type is neither `go` nor `sql`; on success, for a digit timestamp and a description without a separator, the created path's last element is `<timestamp>_<name>.<type>` and its extension is `.<type>` |
| Naming.CreatedVersionIsTimestamp | lib/goose/migrate.go:403-406 | the path `CreateMigration` builds parses back, through `NumericComponent`, to the timestamp's value when positive |
| Naming.CreateThenParse | lib/goose/migrate.go:398-406 | round trip of naming: the created file's version is the timestamp's decimal value; a zero timestamp is rejected as non-positive, one beyond int64 as out of range |
| Discovery.ValidMigrations | lib/goose/migrate.go:159-174 | the accepted walk entries are exactly those whose name declares a version, each as a not-applied migration with zero timestamp and its walk path as source |
| Discovery.AcceptedInWalkOrder | lib/goose/migrate.go:159-174 | the discovered migrations are one per accepted walk entry, in walk order: the `i`-th is built from the `i`-th accepted entry's path and parsed version |
| Discovery.DistinctExactlyWhenDeclaredDistinct | lib/goose/migrate.go:159-176 | the discovered migrations have distinct versions exactly when no two walk entries declare the same version |
| Discovery.CollectSucceedsExactlyWhenDeclaredDistinct | lib/goose/migrate.go:155-177 | discovery succeeds exactly when no two walk entries declare the same version |
| Discovery.CollectBy | lib/goose/migrate.go:159-176 | the discovery loop succeeds exactly when the accepted entries have distinct versions; otherwise the error names two entries sharing a version |
| Discovery.CollectMigrations | lib/goose/migrate.go:155-177 | succeeds with the accepted migrations, pairwise distinct in version, exactly when no version is declared twice; a duplicate aborts with both sources named |
| Discovery.FileVersions | lib/goose/migrate.go:380-386 | the version set of a walk is exactly the versions of its non-directory entries whose names parse |
| Discovery.ScanPrevious | lib/goose/migrate.go:340-354 | the scan finds the greatest version strictly below the given one (or -1 when none) and whether the given version itself occurs |
| Discovery.GetPreviousDBVersion | lib/goose/migrate.go:336-368 | over the regular files of the walk whose names declare a version: succeeds exactly when the given version or an earlier one is declared; returns the greatest earlier version, or 0 when only the given version is declared; otherwise fails with `NoPreviousVersion` |
| Discovery.ScanMostRecent | lib/goose/migrate.go:375-389 | the scan yields -1 exactly for an empty version set, otherwise its maximum |
| Discovery.GetMostRecentDBVersion | lib/goose/migrate.go:372-396 | fails with `NoValidVersion` exactly when no regular file of the walk declares a version; otherwise returns a declared version that no other declared version exceeds |
| Ledger.FindHead | lib/goose/migrate.go:261-291 | the newest-first walk with a skip list returns the version of the first row that is its version's newest event and applies it; fails as corrupt exactly when no version's newest event is an apply |
| Ledger.EnsureDBVersion | lib/goose/migrate.go:247-292 | a missing table gives version 0; a query error fails; otherwise success exactly when some row heads the ledger, and the result is that row's version |
| Ledger.Bootstrap | lib/goose/migrate.go:296-317 | a missing table is replaced by a ledger holding only the seed row applying version 0; an existing ledger is left alone |
| Ledger.BootstrapAgrees | lib/goose/migrate.go:250-251 | the seeded ledger reports version 0, the same current version the missing table did |
| Ledger.Resolve | lib/goose/migrate.go:223-240 | a migration takes the applied flag and timestamp of the strictly newest row of its version (the first on a tie); without a newer row it is unchanged; version and source never change |
| Ledger.LatestExists | lib/goose/migrate.go:233-239 | whenever some row of a version is newer than the migration's timestamp, a winning row exists |
| Ledger.GetMigrationsStatus | lib/goose/migrate.go:203-243 | fails exactly on a query error; a missing table marks every migration not applied; otherwise each migration is reset to not applied and then takes the state of its winning row, versions and sources kept |
| Ledger.StatusIgnoresForeignRows | lib/goose/migrate.go:229-232 | ledger rows of versions no migration declares do not affect any status |
| Ledger.StatusAfterNewerRows | lib/goose/migrate.go:223-240 | newer rows, at most one per version, decide the status of their versions; every other migration keeps the status the older ledger gave it |
| Planner.Select | lib/goose/migrate.go:100-118 | the selection holds exactly the needed migrations, each as often as in the input: up, not applied and at or below the target; down, applied and at or above the target |
| Planner.SelectKeepsDistinct | lib/goose/migrate.go:100-118 | selecting from migrations with distinct versions keeps them distinct |
| Planner.Insert | lib/goose/migrate.go:61-66 | inserting into an ordered sequence keeps it ordered and adds exactly the inserted migration |
| Planner.Sort | lib/goose/migrate.go:128-133 | the sort by `migrationSorter`, plain or reversed, returns an ordered permutation of its input |
| Planner.SortDistinctIsStrict | lib/goose/migrate.go:128-133 | with distinct versions the sorted plan is strictly ascending going up and strictly descending going down |
| Planner.Plan | lib/goose/migrate.go:95-133 | the direction is up exactly when the target is not below the current version; the units are exactly the needed migrations, as a permutation, ordered for the direction |
| Planner.PlanStrictlyOrdered | lib/goose/migrate.go:95-133 | the plan over distinct versions is strictly ordered in its direction |
| Planner.ReplanAfterRunIsEmpty | lib/goose/migrate.go:100-118 | once every planned migration carries its direction's flag, planning again towards the same target in the same direction finds nothing |
| Planner.MissingMiddle | lib/goose/migrate_test.go:220-281 | with versions 1 and 3 applied and version 2 new, running to target 3 at current version 3 plans version 2 alone, going up |
| Apply.FinalizeMigration | lib/goose/migrate.go:422-431 | the event records the version, the time, and an applied flag equal to the direction |
| Apply.FinalizedUpIsCurrent | lib/goose/migrate.go:422-431 | a finalized up-migration at the head of the ledger becomes the current version, whatever the older events |
| Apply.Records | lib/goose/migrate.go:135-148 | a fully successful loop adds at most one event per unit, each with the run's flag, timestamps within the run's window and strictly decreasing newest first |
| Apply.RecordsAllRunnable | lib/goose/migrate.go:135-148 | when every unit is runnable, there is one event per unit, the newest recording the last unit |
| Apply.RecordsAreFinalizations | lib/goose/migrate.go:135-148 | the added events are exactly the finalizations of the runnable units, the `k`-th unit at the run's start plus `k` |
| Apply.ApplyPlan | lib/goose/migrate.go:135-150 | the loop completes a prefix of the plan whose runnable scripts all succeeded; it stops only at a runnable unit whose script fails, naming its version, and completes the whole plan otherwise |
| Apply.ApplyPlanSucceeds | lib/goose/migrate.go:135-150 | the loop fails exactly when some runnable unit's script fails |
| Apply.Execute | lib/goose/migrate.go:135-150 | applying a plan only appends events newer than the start above the existing rows; without error it leaves the events of every unit; it errs exactly when a runnable script fails, naming the first failing runnable unit, all runnable units before it having succeeded, and leaving exactly the events of the units before it |
| Apply.PlanOf | lib/goose/migrate.go:79-133 | a run gets as far as planning exactly when it reads the current version and collects its migrations |
| Apply.RunFrom | lib/goose/migrate.go:86-150 | after the version is read: a duplicate version leaves the ledger as it was; otherwise the ledger only grows by events newer than the start, and the run reports the outcome of executing the plan built from the annotated migrations |
| Apply.RunMigrationsOnDb | lib/goose/migrate.go:79-151 | a failing version read leaves the ledger as it was; a duplicate version leaves the bootstrapped ledger; otherwise the ledger only grows by events newer than the start; once planned, the run errs exactly when a planned runnable script fails, and then names the first such unit and leaves the bootstrapped ledger topped by the events of the units before it; without error it leaves the events of every planned unit |
| Rerun.RootWithTrailingSeparator | lib/goose/dbconf.go:76-77 | a walk from a configured directory written with a trailing separator satisfies the path condition the run lemmas require |
| Rerun.PlainEntryRunnable | lib/goose/migrate.go:136-141 | a walk entry named like a migration, without a trailing separator, has a `.go` or `.sql` extension on its full path, which the apply loop switches on |
| Rerun.CollectedAreRunnable | lib/goose/migrate.go:136-141 | every migration discovered in a walk whose migration-named entries carry no trailing separator has a `.go` or `.sql` script, so the apply loop runs it |
| Rerun.UpRunLedger | lib/goose/migrate.go:79-151 | an up-run whose migrations collect plans runnable, strictly ascending migrations; when it returns no error it leaves the bootstrapped ledger topped by exactly the apply events of those migrations |
| Rerun.StatusAfterUpRun | lib/goose/migrate.go:223-240 | after an up-run the status marks exactly the planned versions applied and keeps every other migration's status |
| Rerun.CurrentAfterUpRun | lib/goose/migrate.go:259-285 | after an up-run over units at or below the target, the ledger still yields a current version, and it is at or below the target |
| Rerun.ReplanAfterUpRun | lib/goose/migrate.go:95-118 | after a successful up-run, planning again towards the same target finds nothing |
| Rerun.RerunOverUpLedger | lib/goose/migrate.go:79-151 | running again over the ledger a successful up-run leaves, towards the same target, at any later time and with any scripts, returns no error and leaves that ledger unchanged |
| Rerun.DownThenRerun | lib/goose/migrate.go:79-151 | with versions 1 and 2 applied over the seed and 2 current, a down-run to 1 plans 2 then 1 and records their two reverts; the ledger this leaves reads back the seed 0 as current and both migrations as not applied, and running to 1 again plans version 1 alone, going up |
| Rerun.UpRunIsIdempotent | lib/goose/migrate.go:79-151 | a successful up-run run again towards the same target, later and with any scripts, returns no error and leaves the ledger unchanged |
| DbConf.NewDBDriver | lib/goose/dbconf.go:130-161 | the defaults are valid exactly for the five known names; the open string is kept; `redshift` becomes `postgres` with the Redshift dialect; each known name gets its import path and dialect |
| DbConf.DirOfRender | lib/goose/dbconf.go:50-55 | `filepath.Dir` of a directory is its parent, and the root is its own parent, which ends the search |
| DbConf.Search | lib/goose/dbconf.go:40-58 | the search returns "" exactly when no directory from the start up to the root has a configuration file; otherwise the nearest such directory's `dbconf.yaml`, else its `dbconf.yml` |
| DbConf.FindDBConf | lib/goose/dbconf.go:34-59 | "" exactly when no ancestor directory has a configuration file; otherwise an existing file |
| DbConf.MigrationsDir | lib/goose/dbconf.go:67-81 | `migrations` next to the configuration file unless configured; a configured absolute path is kept, a relative one joined to the file's directory; absolute whenever that directory is |
| DbConf.OpenString | lib/goose/dbconf.go:95-102 | for the `postgres` driver, an open string the URL parser translates to non-empty text becomes that translation; every other open string is kept |
| DbConf.BuiltDriver | lib/goose/dbconf.go:87-114 | the driver built from an environment's keys has the default name of its expanded driver and the translated open string |
| DbConf.Override | lib/goose/dbconf.go:106-114 | the import path and dialect are replaced exactly when configured; name and open string are kept |
| DbConf.NewDBConf | lib/goose/dbconf.go:62-125 | fails with not-found, read failure, or a missing `driver` or `open` key exactly in those situations; once the file is read and both keys are present, it succeeds exactly when the driver built from them is valid, with that driver, and otherwise fails naming that driver as invalid; on success the configuration is valid, its migrations directory is absolute, and its driver carries the defaults of its expanded name except for the overrides; a driver without defaults passes only when both overrides are configured |

## Left out

- Database I/O: opening connections, transactions, the dialects' SQL, and the `parseTime` option for MySQL. The history query is an input, newest first. `OpenDBFromDBConf` and `GetDBVersion` are wrappers around I/O and are not modelled.
- Running scripts: `runSQLMigration` (`lib/goose/migration_sql.go` is not part of this model) and `runGoMigration` are a `Runner` oracle. A script that succeeds is taken to commit exactly one `FinalizeMigration` event. A script that fails commits none.
- Errors of `createVersionTable` and of `FinalizeMigration`'s insert or commit: the seed row and each finalization are taken to succeed.
- `log.Fatal` on a duplicate version in `CollectMigrations` is a `Failure` naming both files, and the `panic` in `EnsureDBVersion` is `Failure(LedgerCorrupt)`. Neither stops a process.
- Errors returned by the directory walk, and the `ErrTableDoesNotExist` distinction between dialects, beyond the `History` cases.
- Naming.CreateMigration: the last element and extension of the created path are stated only for a digit timestamp and a description without a separator. A description containing `/` makes `filepath.Join` nest the file in sub-directories.
- Templates: `CreateMigration`'s template expansion and `writeTemplateToFile`. The time is given as the already formatted `20060102150405` digit string.
- YAML parsing, `os.ExpandEnv`, `pq.ParseURL` and `dialectByName` are `Host` oracles. `filepath.Abs` and the working directory are replaced by an absolute start directory given as components. `filepath.Clean` normalisation is not modelled.
- Printing and logging.
- The command-line tool, the Go migration driver template and the Redshift setup script.
- Planner.Sort: Go's `sort.Sort` is not stable. The model is a stable insertion sort. Both give the same order whenever versions are distinct, which discovery guarantees.
- Naming.ParseInt: versions are unbounded integers. Only the parse enforces the int64 range; no arithmetic on versions wraps.
- Apply.RunMigrationsOnDb: the clock is modelled as `now` for the seed row and `now + 1 + k` for the `k`-th finalization. A real clock only promises non-decreasing times.
- Discovery.CollectMigrations: the duplicate-version error names the two walk paths. The source's fatal log message joins the migrations directory in front of the second path once more; log text is not modelled.
- Rerun.UpRunLedger: requires that no walk entry named like a migration ends with a separator. `filepath.Walk` can produce that only for a root that is itself named like a migration and written with a trailing separator; such a root's script would not be run, because `filepath.Ext` of the full path is empty.
- Rerun.RerunOverUpLedger: requires the same path condition as `Rerun.UpRunLedger`, for the same reason.
- Rerun.UpRunIsIdempotent: requires the same path condition as `Rerun.UpRunLedger`, for the same reason. It states idempotence for up-runs only. Down-runs are not idempotent as written (`Rerun.DownThenRerun`).
