/** Locating and reading the database configuration (`dbconf.go`): the
    search for `dbconf.yaml`/`dbconf.yml` from a directory up to the root,
    the driver defaults of `newDBDriver`, the `IsValid` check, and the way
    `NewDBConf` resolves the migrations directory and applies the import and
    dialect overrides.

    The host is an input: which files exist, what the YAML file holds (a
    flat map from dotted keys such as `development.driver` to values, or
    nothing when it cannot be read), environment expansion, the Postgres
    URL parser and the dialect lookup by name. A directory is an absolute
    path given as its components, the root being the empty sequence; its
    parent drops the last component, which is what `filepath.Dir` does on
    the rendered path (see `DirOfRender`). */
module DbConf {
  import opened Wrappers
  import opened Paths

  datatype Dialect = PostgresDialect | RedshiftDialect | MySqlDialect | Sqlite3Dialect

  /** `DBDriver`; a nil `Dialect` is `None`. */
  datatype DBDriver = DBDriver(name: string, openStr: string, importPath: string, dialect: Option<Dialect>)

  datatype DBConf = DBConf(migrationsDir: string, env: string, driver: DBDriver)

  datatype ConfError =
    | ConfNotFound
    | ReadFailed
    | MissingKey(key: string)
    | InvalidDriver(driver: DBDriver)

  const PqImport: string := "github.com/lib/pq"
  const MyMySqlImport: string := "github.com/ziutek/mymysql/godrv"
  const MySqlImport: string := "github.com/go-sql-driver/mysql"
  const Sqlite3Import: string := "github.com/mattn/go-sqlite3"

  /** `DBDriver.IsValid`: an import path and a dialect are both known. */
  predicate IsValid(d: DBDriver) {
    |d.importPath| > 0 && d.dialect.Some?
  }

  /** The driver names `newDBDriver` has defaults for (compared exactly, case included). */
  predicate IsKnownDriver(name: string) {
    name == "postgres" || name == "redshift" || name == "mymysql" || name == "mysql" || name == "sqlite3"
  }

  /** `newDBDriver`: known names get their import path and dialect, and
      `redshift` is renamed `postgres` with the Redshift dialect; any other
      name keeps an empty import and no dialect. The open string is kept,
      and the defaults are valid exactly for the known names. */
  function NewDBDriver(name: string, open: string): (d: DBDriver)
    ensures IsValid(d) <==> IsKnownDriver(name)
    ensures d.openStr == open
    ensures d.name == if name == "redshift" then "postgres" else name
    ensures IsKnownDriver(name) <==> d.dialect.Some?
    ensures IsKnownDriver(name) <==> d.importPath != ""
    ensures name == "postgres" ==> d.importPath == PqImport && d.dialect == Some(PostgresDialect)
    ensures name == "redshift" ==> d.importPath == PqImport && d.dialect == Some(RedshiftDialect)
    ensures name == "mymysql" ==> d.importPath == MyMySqlImport && d.dialect == Some(MySqlDialect)
    ensures name == "mysql" ==> d.importPath == MySqlImport && d.dialect == Some(MySqlDialect)
    ensures name == "sqlite3" ==> d.importPath == Sqlite3Import && d.dialect == Some(Sqlite3Dialect)
  {
    var d := DBDriver(name, open, "", None);
    if name == "postgres" then d.(importPath := PqImport, dialect := Some(PostgresDialect))
    else if name == "redshift" then d.(name := "postgres", importPath := PqImport, dialect := Some(RedshiftDialect))
    else if name == "mymysql" then d.(importPath := MyMySqlImport, dialect := Some(MySqlDialect))
    else if name == "mysql" then d.(importPath := MySqlImport, dialect := Some(MySqlDialect))
    else if name == "sqlite3" then d.(importPath := Sqlite3Import, dialect := Some(Sqlite3Dialect))
    else d
  }

  // ----- findDBConf -----

  /** The path of an absolute directory given by its components. */
  function Render(dir: seq<string>): (p: string)
    ensures IsAbs(p)
    ensures |dir| > 0 && |dir[|dir| - 1]| > 0 ==> p[|p| - 1] == dir[|dir| - 1][|dir[|dir| - 1]| - 1]
  {
    if |dir| == 0 then [Sep]
    else Join(Render(dir[..|dir| - 1]), dir[|dir| - 1])
  }

  /** Components are proper directory names: non-empty and separator-free. */
  predicate ProperComponents(dir: seq<string>) {
    forall i :: 0 <= i < |dir| ==> |dir[i]| > 0 && NoSep(dir[i])
  }

  /** `filepath.Dir` of a rendered directory is its parent, and the root is
      its own parent, which is where the search stops. */
  lemma DirOfRender(dir: seq<string>)
    requires ProperComponents(dir)
    ensures Dir(Render(dir)) == Render(if |dir| == 0 then dir else dir[..|dir| - 1])
  {
    if |dir| > 0 {
      var parent := dir[..|dir| - 1];
      var c := dir[|dir| - 1];
      var q := Render(parent);
      var p := Render(dir);
      if |parent| == 0 {
        assert p == [Sep] + c;
        assert LastSep(p) == 0 by { LastSepAfter(p, 0); }
      } else {
        assert ProperComponents(parent);
        assert q[|q| - 1] != Sep;
        assert p == q + [Sep] + c;
        assert LastSep(p) == |q| by { LastSepAfter(p, |q|); }
        assert p[..|q|] == q;
      }
    }
  }

  /** When position `i` holds the only separator from `i` on, it is the last one. */
  lemma {:induction false} LastSepAfter(p: string, i: nat)
    requires i < |p| && p[i] == Sep
    requires forall j :: i < j < |p| ==> p[j] != Sep
    ensures LastSep(p) == i
    decreases |p|
  {
    if |p| - 1 != i {
      LastSepAfter(p[..|p| - 1], i);
    }
  }

  const YamlName: string := "dbconf.yaml"
  const YmlName: string := "dbconf.yml"

  /** Where the search looks for a configuration file in `dir`. */
  function Candidate(dir: seq<string>, name: string): string {
    Join(Render(dir), name)
  }

  /** Some configuration file exists in `dir`. */
  predicate HasConf(dir: seq<string>, isFile: string -> bool) {
    isFile(Candidate(dir, YamlName)) || isFile(Candidate(dir, YmlName))
  }

  /** The search from `start[..depth]` upwards: the `dbconf.yaml` of the
      nearest directory that has a configuration file, else its
      `dbconf.yml`; "" when no directory up to the root has one. */
  function Search(start: seq<string>, depth: nat, isFile: string -> bool): (path: string)
    requires depth <= |start|
    ensures path == "" <==> forall k :: 0 <= k <= depth ==> !HasConf(start[..k], isFile)
    ensures path != "" ==> exists k ::
      && 0 <= k <= depth
      && HasConf(start[..k], isFile)
      && path == (if isFile(Candidate(start[..k], YamlName)) then Candidate(start[..k], YamlName) else Candidate(start[..k], YmlName))
      && forall k' :: k < k' <= depth ==> !HasConf(start[..k'], isFile)
    decreases depth
  {
    var dir := start[..depth];
    var yaml := Candidate(dir, YamlName);
    var yml := Candidate(dir, YmlName);
    if isFile(yaml) then yaml
    else if isFile(yml) then yml
    else if depth == 0 then ""
    else Search(start, depth - 1, isFile)
  }

  /** `findDBConf`, from an absolute start directory. */
  function FindDBConf(start: seq<string>, isFile: string -> bool): (path: string)
    ensures path == "" <==> forall k :: 0 <= k <= |start| ==> !HasConf(start[..k], isFile)
    ensures path != "" ==> isFile(path)
  {
    Search(start, |start|, isFile)
  }

  // ----- NewDBConf -----

  /** The library services `NewDBConf` calls. */
  datatype Host = Host(
    isFile: string -> bool,
    read: string -> Option<map<string, string>>,
    expandEnv: string -> string,
    parseUrl: string -> Option<string>,
    dialectByName: string -> Option<Dialect>)

  function Lookup(f: map<string, string>, key: string): Option<string> {
    if key in f then Some(f[key]) else None
  }

  /** The migrations directory: `migrations` next to the configuration file
      unless `migrationsDir` is configured, which is taken as it is when
      absolute and relative to the configuration file's directory otherwise;
      so it is absolute whenever that directory is. */
  function MigrationsDir(confDir: string, configured: Option<string>): (dir: string)
    ensures IsAbs(confDir) ==> IsAbs(dir)
    ensures configured.None? ==> dir == Join(confDir, "migrations")
    ensures configured.Some? && IsAbs(configured.value) ==> dir == configured.value
    ensures configured.Some? && !IsAbs(configured.value) ==> dir == Join(confDir, configured.value)
  {
    match configured
    case None => Join(confDir, "migrations")
    case Some(md) => if IsAbs(md) then md else Join(confDir, md)
  }

  /** The open string: for the `postgres` driver, a URL the parser accepts
      is replaced by its non-empty translation. */
  function OpenString(driver: string, open: string, parseUrl: string -> Option<string>): (s: string)
    ensures driver == "postgres" && parseUrl(open).Some? && parseUrl(open).value != "" ==> s == parseUrl(open).value
    ensures !(driver == "postgres" && parseUrl(open).Some? && parseUrl(open).value != "") ==> s == open
    ensures s != open ==> driver == "postgres" && parseUrl(open) == Some(s)
  {
    if driver == "postgres" then
      match parseUrl(open)
      case Some(u) => if u != "" then u else open
      case None => open
    else open
  }

  /** The configured overrides: an `import` replaces the import path, a
      `dialect` replaces the dialect by its looked-up value. */
  function Override(d: DBDriver, imprt: Option<string>, dialect: Option<string>, dialectByName: string -> Option<Dialect>): (r: DBDriver)
    ensures r.name == d.name && r.openStr == d.openStr
    ensures r.importPath == if imprt.Some? then imprt.value else d.importPath
    ensures r.dialect == if dialect.Some? then dialectByName(dialect.value) else d.dialect
  {
    var withImport := if imprt.Some? then d.(importPath := imprt.value) else d;
    if dialect.Some? then withImport.(dialect := dialectByName(dialect.value)) else withImport
  }

  /** A configuration file found by the search is an absolute path. */
  lemma FoundIsAbs(start: seq<string>, isFile: string -> bool)
    requires FindDBConf(start, isFile) != ""
    ensures IsAbs(FindDBConf(start, isFile))
  {
    var k :| 0 <= k <= |start| && FindDBConf(start, isFile) in {Candidate(start[..k], YamlName), Candidate(start[..k], YmlName)};
  }

  /** The keys `NewDBConf` reads for one environment are distinct. */
  lemma KeysDiffer(env: string)
    ensures env + ".driver" != env + ".open"
  {
    assert (env + ".driver")[|env| + 1] == 'd';
    assert (env + ".open")[|env| + 1] == 'o';
  }

  /** The directory of an absolute path is absolute. */
  lemma DirOfAbs(p: string)
    requires IsAbs(p)
    ensures IsAbs(Dir(p))
  {
  }

  /** The driver `NewDBConf` builds from a configuration holding both the
      `driver` and the `open` key of `env`: the defaults of the expanded
      driver name, the translated open string, then the overrides. */
  function BuiltDriver(f: map<string, string>, env: string, host: Host): (d: DBDriver)
    requires env + ".driver" in f && env + ".open" in f
    ensures d.name == NewDBDriver(host.expandEnv(f[env + ".driver"]), "").name
    ensures d.openStr == OpenString(host.expandEnv(f[env + ".driver"]), host.expandEnv(f[env + ".open"]), host.parseUrl)
  {
    var drv := host.expandEnv(f[env + ".driver"]);
    var open := OpenString(drv, host.expandEnv(f[env + ".open"]), host.parseUrl);
    Override(NewDBDriver(drv, open), Lookup(f, env + ".import"), Lookup(f, env + ".dialect"), host.dialectByName)
  }

  /** `NewDBConf`: find the configuration file, read it, resolve the
      migrations directory, build the driver from the environment's
      `driver` and `open` values, apply the overrides and check the result.
      On success the migrations directory is absolute, the driver carries
      the defaults of its (expanded) name except for the configured
      overrides, and a name without defaults has passed only because both
      overrides were configured. */
  function NewDBConf(start: seq<string>, env: string, host: Host): (r: Result<DBConf, ConfError>)
    ensures r == Failure(ConfNotFound) <==> FindDBConf(start, host.isFile) == ""
    ensures r == Failure(ReadFailed) <==> FindDBConf(start, host.isFile) != "" && host.read(FindDBConf(start, host.isFile)).None?
    ensures r == Failure(MissingKey(env + ".driver")) <==>
      && FindDBConf(start, host.isFile) != ""
      && host.read(FindDBConf(start, host.isFile)).Some?
      && env + ".driver" !in host.read(FindDBConf(start, host.isFile)).value
    ensures r == Failure(MissingKey(env + ".open")) <==>
      && FindDBConf(start, host.isFile) != ""
      && host.read(FindDBConf(start, host.isFile)).Some?
      && env + ".driver" in host.read(FindDBConf(start, host.isFile)).value
      && env + ".open" !in host.read(FindDBConf(start, host.isFile)).value
    ensures r.Failure? && r.error.InvalidDriver? ==> !IsValid(r.error.driver)
    ensures
      var cfg := FindDBConf(start, host.isFile);
      cfg != "" && host.read(cfg).Some? && env + ".driver" in host.read(cfg).value && env + ".open" in host.read(cfg).value ==>
        var d := BuiltDriver(host.read(cfg).value, env, host);
        && (r.Success? <==> IsValid(d))
        && (r.Success? ==> r.value.driver == d)
        && (r.Failure? ==> r.error == InvalidDriver(d))
    ensures r.Success? ==>
      var cfg := FindDBConf(start, host.isFile);
      var f := host.read(cfg).value;
      && cfg != "" && host.isFile(cfg)
      && r.value.env == env
      && r.value.migrationsDir == MigrationsDir(Dir(cfg), Lookup(f, env + ".migrationsDir"))
      && IsAbs(r.value.migrationsDir)
      && IsValid(r.value.driver)
      && env + ".driver" in f && env + ".open" in f
    ensures r.Success? ==>
      var f := host.read(FindDBConf(start, host.isFile)).value;
      var drv := host.expandEnv(f[env + ".driver"]);
      var defaults := NewDBDriver(drv, "");
      && r.value.driver.name == defaults.name
      && r.value.driver.openStr == OpenString(drv, host.expandEnv(f[env + ".open"]), host.parseUrl)
      && r.value.driver.importPath == (if env + ".import" in f then f[env + ".import"] else defaults.importPath)
      && r.value.driver.dialect == (if env + ".dialect" in f then host.dialectByName(f[env + ".dialect"]) else defaults.dialect)
      && (!IsKnownDriver(drv) ==>
            && env + ".import" in f && f[env + ".import"] != ""
            && env + ".dialect" in f && host.dialectByName(f[env + ".dialect"]).Some?)
  {
    KeysDiffer(env);
    var cfg := FindDBConf(start, host.isFile);
    if cfg == "" then Failure(ConfNotFound)
    else
      match host.read(cfg)
      case None => Failure(ReadFailed)
      case Some(f) =>
        FoundIsAbs(start, host.isFile);
        DirOfAbs(cfg);
        var migrationsDir := MigrationsDir(Dir(cfg), Lookup(f, env + ".migrationsDir"));
        if env + ".driver" !in f then Failure(MissingKey(env + ".driver"))
        else if env + ".open" !in f then Failure(MissingKey(env + ".open"))
        else
          var d := BuiltDriver(f, env, host);
          if !IsValid(d) then Failure(InvalidDriver(d))
          else Success(DBConf(migrationsDir, env, d))
  }
}
