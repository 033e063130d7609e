/** Migration file names: `<version>_<description>.<go|sql>`.
    `NumericComponent` reads the version back out of a path and
    `CreateMigration` builds the path of a new migration. */
module Naming {
  import opened Wrappers
  import opened Paths
  import opened Model

  predicate IsDigit(c: char) {
    '0' <= c <= '9'
  }

  predicate AllDigits(s: string) {
    forall i :: 0 <= i < |s| ==> IsDigit(s[i])
  }

  /** Value of a decimal digit string, most significant digit first. */
  function DecimalValue(ds: string): nat
    requires AllDigits(ds)
  {
    if |ds| == 0 then 0
    else DecimalValue(ds[..|ds| - 1]) * 10 + (ds[|ds| - 1] as int - '0' as int)
  }

  /** The text after an optional leading `+` or `-`. */
  function Unsigned(s: string): (u: string)
    requires |s| > 0
    ensures |u| == |s| || |u| == |s| - 1
  {
    if s[0] == '+' || s[0] == '-' then s[1..] else s
  }

  /** The syntax `strconv.ParseInt` accepts in base 10: an optional sign
      followed by at least one decimal digit. */
  predicate IsIntSyntax(s: string) {
    |s| > 0 && |Unsigned(s)| > 0 && AllDigits(Unsigned(s))
  }

  /** The integer a well-formed numeral denotes, before any range check. */
  function SignedValue(s: string): int
    requires IsIntSyntax(s)
  {
    var magnitude: int := DecimalValue(Unsigned(s));
    if s[0] == '-' then -magnitude else magnitude
  }

  /** The longest run of decimal digits at the front of `s`. */
  function LeadingDigits(s: string): (p: string)
    ensures |p| <= |s| && p == s[..|p|] && AllDigits(p)
    ensures |p| < |s| ==> !IsDigit(s[|p|])
  {
    if |s| == 0 || !IsDigit(s[0]) then []
    else [s[0]] + LeadingDigits(s[1..])
  }

  /** `strconv.ParseInt(s, 10, 64)`. After an optional sign, `ParseUint`
      reads the digits left to right and reports a range error as soon as
      the value read so far passes the `uint64` maximum, before it meets any
      non-digit; so a text is a syntax error exactly when it is not an
      optional sign followed by at least one digit and its leading digit run
      stays within `uint64`. A well-formed numeral outside `int64` is a
      range error; otherwise the result is the numeral's value. */
  function ParseInt(s: string): (r: Result<int, Error>)
    ensures r.Success? || r == Failure(SyntaxError) || r == Failure(RangeError)
    ensures r == Failure(SyntaxError) <==>
      !IsIntSyntax(s) && (|s| == 0 || DecimalValue(LeadingDigits(Unsigned(s))) <= MaxUint64)
    ensures r.Success? <==> IsIntSyntax(s) && MinInt64 <= SignedValue(s) <= MaxInt64
    ensures r.Success? ==> r.value == SignedValue(s) && MinInt64 <= r.value <= MaxInt64
    ensures r.Success? && IsDigit(s[0]) ==> AllDigits(s) && r.value == DecimalValue(s)
  {
    if |s| == 0 then Failure(SyntaxError)
    else
      var u := Unsigned(s);
      var lead := LeadingDigits(u);
      assert IsIntSyntax(s) <==> |u| > 0 && |lead| == |u| by {
        if |u| > 0 && AllDigits(u) && |lead| < |u| {
          assert IsDigit(u[|lead|]);
        }
      }
      assert |lead| == |u| ==> lead == u;
      if DecimalValue(lead) > MaxUint64 then Failure(RangeError)
      else if |u| == 0 || |lead| < |u| then Failure(SyntaxError)
      else
        var n := SignedValue(s);
        if n < MinInt64 || n > MaxInt64 then Failure(RangeError) else Success(n)
  }

  /** The leading digit run of digits followed by a non-digit is those digits. */
  lemma LeadingDigitsOfDigits(ds: string, tail: string)
    requires AllDigits(ds)
    requires |tail| == 0 || !IsDigit(tail[0])
    ensures LeadingDigits(ds + tail) == ds
  {
    var s := ds + tail;
    assert s[..|ds|] == ds;
  }

  /** Decimal digits of `n`, most significant first, without leading zeros. */
  function Digits(n: nat): (ds: string)
    ensures |ds| > 0 && AllDigits(ds) && DecimalValue(ds) == n
    decreases n
  {
    var last := ['0' + (n % 10) as char];
    if n < 10 then last
    else
      var front := Digits(n / 10);
      var ds := front + last;
      assert ds[..|ds| - 1] == front;
      ds
  }

  /** `strconv.FormatInt(n, 10)`: a minus sign for negative values, then the
      digits of the magnitude. */
  function FormatInt(n: int): string {
    if n < 0 then "-" + Digits(-n) else Digits(n)
  }

  /** `ParseInt` reads back every value `FormatInt` writes, with or without
      a `+` in front of a non-negative one, and rejects exactly the values
      outside `int64` with a range error. */
  lemma {:induction false} FormatThenParse(n: int)
    ensures MinInt64 <= n <= MaxInt64 ==> ParseInt(FormatInt(n)) == Success(n)
    ensures n >= 0 && n <= MaxInt64 ==> ParseInt("+" + FormatInt(n)) == Success(n)
    ensures (n < MinInt64 || n > MaxInt64) ==> ParseInt(FormatInt(n)) == Failure(RangeError)
  {
    var s := FormatInt(n);
    if n < 0 {
      assert Unsigned(s) == Digits(-n);
    } else {
      assert Unsigned(s) == Digits(n) by { assert IsDigit(Digits(n)[0]); }
      assert Unsigned("+" + s) == Digits(n);
    }
    assert IsIntSyntax(s) && SignedValue(s) == n;
  }

  /** Digits followed by other text: a syntax error while the digits stay
      within `uint64`, and a range error once they exceed it, whatever
      follows. */
  lemma NumeralThenText(n: nat, tail: string)
    requires |tail| > 0 && !IsDigit(tail[0])
    ensures n <= MaxUint64 ==> ParseInt(FormatInt(n) + tail) == Failure(SyntaxError)
    ensures n > MaxUint64 ==> ParseInt(FormatInt(n) + tail) == Failure(RangeError)
  {
    var s := FormatInt(n) + tail;
    assert IsDigit(Digits(n)[0]);
    assert s[0] == Digits(n)[0];
    assert Unsigned(s) == s;
    LeadingDigitsOfDigits(Digits(n), tail);
    assert !AllDigits(s) by { assert !IsDigit(s[|Digits(n)|]); }
  }


  /** `strings.Index` for a single character: the first position of `c`, or -1. */
  function IndexOf(s: string, c: char): (i: int)
    ensures -1 <= i < |s|
    ensures i >= 0 ==> s[i] == c
    ensures forall j :: 0 <= j < |s| && (i < 0 || j < i) ==> s[j] != c
  {
    if |s| == 0 then -1
    else if s[0] == c then 0
    else
      var k := IndexOf(s[1..], c);
      if k < 0 then -1 else k + 1
  }

  /** The two extensions the engine runs: Go code and SQL scripts. */
  predicate IsMigrationExt(ext: string) {
    ext == ".go" || ext == ".sql"
  }

  /** The version a migration file name declares. A name qualifies when its
      last element has extension `.go` or `.sql` and contains `_`; the text
      before the first `_` must parse as a positive `int64`. */
  function NumericComponent(name: string): (r: Result<int, Error>)
    ensures r.Success? ==> 0 < r.value <= MaxInt64
    ensures r.Success? ==> IsMigrationExt(Ext(Base(name)))
    ensures !IsMigrationExt(Ext(Base(name))) ==> r == Failure(NotMigrationFile)
    ensures IsMigrationExt(Ext(Base(name))) && IndexOf(Base(name), '_') < 0 ==> r == Failure(NoSeparator)
    ensures IsMigrationExt(Ext(Base(name))) && IndexOf(Base(name), '_') >= 0 ==>
      var parsed := ParseInt(Base(name)[..IndexOf(Base(name), '_')]);
      && (parsed.Failure? ==> r == parsed)
      && (parsed.Success? && parsed.value <= 0 ==> r == Failure(NonPositiveVersion))
      && (parsed.Success? && parsed.value > 0 ==> r == parsed)
  {
    var base := Base(name);
    var ext := Ext(base);
    if !IsMigrationExt(ext) then Failure(NotMigrationFile)
    else
      var idx := IndexOf(base, '_');
      if idx < 0 then Failure(NoSeparator)
      else
        Positive(ParseInt(base[..idx]))
  }

  /** A parsed version, rejected when it is not greater than zero. */
  function Positive(parsed: Result<int, Error>): Result<int, Error> {
    match parsed
    case Failure(e) => Failure(e)
    case Success(n) => if n <= 0 then Failure(NonPositiveVersion) else Success(n)
  }

  /** The file name `<timestamp>_<name>.<type>` under `dir`, for type `go` or `sql`.
      Template expansion and the write to disk are not part of this model;
      `timestamp` is the already formatted `20060102150405`-layout text.
      For a description without a separator, the created path's last
      element is exactly that file name, so the description is kept, and
      the path's extension is the type. */
  function CreateMigration(name: string, migrationType: string, dir: string, timestamp: string): (r: Result<string, Error>)
    ensures r.Failure? <==> !(migrationType == "go" || migrationType == "sql")
    ensures r.Failure? ==> r.error == BadMigrationType
    ensures r.Success? && NoSep(name) && AllDigits(timestamp) ==>
      && Base(r.value) == timestamp + "_" + name + "." + migrationType
      && Ext(r.value) == "." + migrationType
  {
    if migrationType != "go" && migrationType != "sql" then Failure(BadMigrationType)
    else
      var f := timestamp + "_" + name + "." + migrationType;
      var p := Join(dir, f);
      assert NoSep(name) && AllDigits(timestamp) ==> Base(p) == f && Ext(p) == "." + migrationType by {
        if NoSep(name) && AllDigits(timestamp) {
          CreatedNameNoSep(name, migrationType, timestamp);
          BaseOfJoin(dir, f);
          ExtOfTyped(timestamp + "_" + name, migrationType);
          assert p[|p| - 1] == f[|f| - 1];
          ExtOfBase(p);
        }
      }
      Success(p)
  }

  /** A separator-free suffix does not move the last separator. */
  lemma {:induction false} LastSepOfSepFreeSuffix(x: string, f: string)
    requires NoSep(f)
    ensures LastSep(x + f) == LastSep(x)
    decreases |f|
  {
    if |f| > 0 {
      var g := f[..|f| - 1];
      assert (x + f)[..|x + f| - 1] == x + g;
      LastSepOfSepFreeSuffix(x, g);
    } else {
      assert x + f == x;
    }
  }

  /** The last element of `Join(dir, f)` is `f` when `f` is a non-empty element. */
  lemma BaseOfJoin(dir: string, f: string)
    requires |f| > 0 && NoSep(f)
    ensures Base(Join(dir, f)) == f
  {
    var p := Join(dir, f);
    var x := if dir == "" then "" else if dir[|dir| - 1] == Sep then dir else dir + [Sep];
    assert p == x + f;
    assert TrimTrailingSeps(p) == p;
    LastSepOfSepFreeSuffix(x, f);
    assert LastSep(p) == |x| - 1;
  }

  /** Scanning leftwards from `k` finds the dot at `d` when nothing after `d`
      is a dot or a separator. */
  lemma {:induction false} ExtScan(f: string, d: nat, k: nat)
    requires d < k <= |f| && f[d] == '.'
    requires forall j :: d < j < |f| ==> f[j] != '.' && f[j] != Sep
    ensures ExtUpTo(f, k) == f[d..]
    decreases k
  {
    if k - 1 != d {
      ExtScan(f, d, k - 1);
    }
  }

  lemma CreatedNameNoSep(name: string, migrationType: string, timestamp: string)
    requires migrationType == "go" || migrationType == "sql"
    requires NoSep(name)
    requires AllDigits(timestamp)
    ensures NoSep(timestamp + "_" + name + "." + migrationType)
  {
    var a := timestamp + "_" + name;
    var f := a + "." + migrationType;
    forall i | 0 <= i < |f| ensures f[i] != Sep {
      if i < |timestamp| {
        assert f[i] == timestamp[i];
      } else if i == |timestamp| {
      } else if i < |a| {
        assert f[i] == name[i - |timestamp| - 1];
      } else if i > |a| {
        assert f[i] == migrationType[i - |a| - 1];
      }
    }
  }

  /** The first `_` of `<timestamp>_<rest>` ends the timestamp. */
  lemma UnderscoreAfterDigits(timestamp: string, rest: string)
    requires AllDigits(timestamp)
    ensures IndexOf(timestamp + "_" + rest, '_') == |timestamp|
    ensures (timestamp + "_" + rest)[..|timestamp|] == timestamp
  {
    var f := timestamp + "_" + rest;
    assert f[|timestamp|] == '_';
    assert f[..|timestamp|] == timestamp;
  }

  /** The extension of `<a>.<type>` is `.<type>`. */
  lemma ExtOfTyped(a: string, migrationType: string)
    requires migrationType == "go" || migrationType == "sql"
    ensures Ext(a + "." + migrationType) == "." + migrationType
    ensures IsMigrationExt(Ext(a + "." + migrationType))
  {
    var f := a + "." + migrationType;
    assert forall j :: |a| < j < |f| ==> f[j] == migrationType[j - |a| - 1];
    ExtScan(f, |a|, |f|);
    assert f[|a|..] == "." + migrationType;
    if migrationType == "go" {
      assert "." + migrationType == ".go";
    } else {
      assert "." + migrationType == ".sql";
    }
  }

  /** A non-empty digit string parses to its decimal value, unless that value exceeds `int64`. */
  lemma ParseDigits(digits: string)
    requires |digits| > 0 && AllDigits(digits)
    ensures ParseInt(digits)
         == if DecimalValue(digits) > MaxInt64 then Failure(RangeError) else Success(DecimalValue(digits) as int)
  {
    assert IsDigit(digits[0]);
  }

  /** The version of a created migration is whatever its timestamp parses to, if positive. */
  lemma CreatedVersionIsTimestamp(name: string, migrationType: string, dir: string, timestamp: string)
    requires migrationType == "go" || migrationType == "sql"
    requires NoSep(name)
    requires AllDigits(timestamp)
    ensures CreateMigration(name, migrationType, dir, timestamp).Success?
    ensures NumericComponent(CreateMigration(name, migrationType, dir, timestamp).value)
         == Positive(ParseInt(timestamp))
  {
    var rest := name + "." + migrationType;
    var f := timestamp + "_" + rest;
    assert f == timestamp + "_" + name + "." + migrationType;
    assert Base(CreateMigration(name, migrationType, dir, timestamp).value) == f;
    ExtOfTyped(timestamp + "_" + name, migrationType);
    UnderscoreAfterDigits(timestamp, rest);
  }

  /** Round trip: the version read back from the path `CreateMigration`
      builds is the value of its timestamp; a zero timestamp is rejected as
      non-positive and one beyond `int64` as out of range. */
  lemma CreateThenParse(name: string, migrationType: string, dir: string, timestamp: string)
    requires migrationType == "go" || migrationType == "sql"
    requires NoSep(name)
    requires |timestamp| > 0 && AllDigits(timestamp)
    ensures CreateMigration(name, migrationType, dir, timestamp).Success?
    ensures var v := DecimalValue(timestamp) as int;
      NumericComponent(CreateMigration(name, migrationType, dir, timestamp).value)
      == if v == 0 then Failure(NonPositiveVersion)
         else if v > MaxInt64 then Failure(RangeError)
         else Success(v)
  {
    CreatedVersionIsTimestamp(name, migrationType, dir, timestamp);
    ParseDigits(timestamp);
  }
}
