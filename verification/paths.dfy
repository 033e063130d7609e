/** Slash-separated path helpers with the behaviour of Go's `path/filepath`
    on a Unix host: `Base`, `Ext`, `Dir`, `Join` and `IsAbs`.
    `filepath.Clean` normalisation (collapsing `.`, `..` and repeated
    separators) is not part of this model. */
module Paths {

  const Sep: char := '/'

  predicate NoSep(s: string) {
    forall i :: 0 <= i < |s| ==> s[i] != Sep
  }

  /** Index of the last separator in `p`, or -1 when there is none. */
  function LastSep(p: string): (i: int)
    ensures -1 <= i < |p|
    ensures i >= 0 ==> p[i] == Sep
    ensures forall j :: i < j < |p| ==> p[j] != Sep
  {
    if |p| == 0 then -1
    else if p[|p| - 1] == Sep then |p| - 1
    else LastSep(p[..|p| - 1])
  }

  /** `p` without its trailing separators. */
  function TrimTrailingSeps(p: string): (q: string)
    ensures |q| <= |p| && q == p[..|q|]
    ensures |q| == 0 || q[|q| - 1] != Sep
  {
    if |p| > 0 && p[|p| - 1] == Sep then TrimTrailingSeps(p[..|p| - 1]) else p
  }

  /** Last element of `p`: "." for the empty path, "/" for a path of separators only. */
  function Base(p: string): string {
    if p == "" then "."
    else
      var q := TrimTrailingSeps(p);
      if q == "" then [Sep] else q[LastSep(q) + 1..]
  }

  /** Extension search from position `n` leftwards, stopping at a separator. */
  function ExtUpTo(p: string, n: nat): (e: string)
    requires n <= |p|
    requires forall j :: n <= j < |p| ==> p[j] != Sep
    ensures e == "" || e[0] == '.'
  {
    if n == 0 || p[n - 1] == Sep then ""
    else if p[n - 1] == '.' then p[n - 1..]
    else ExtUpTo(p, n - 1)
  }

  /** Suffix of `p` from the final dot of its last element, or "" when that element has no dot. */
  function Ext(p: string): string {
    ExtUpTo(p, |p|)
  }

  /** Joins a directory and a name with exactly one separator between them;
      an empty directory contributes nothing. */
  function Join(dir: string, name: string): string {
    if dir == "" then name
    else if dir[|dir| - 1] == Sep then dir + name
    else dir + [Sep] + name
  }

  /** All but the last element of `p`: "." without a separator, "/" when
      the only separator is the leading one. */
  function Dir(p: string): string {
    var i := LastSep(p);
    if i < 0 then "."
    else if i == 0 then [Sep]
    else p[..i]
  }

  /** The extension search gives the same answer on the last element `b`
      of a path `p`, which starts at `s`, as on the whole path, from any
      position inside that element. */
  lemma {:induction false} ExtUpToSuffix(p: string, b: string, s: nat, n: nat)
    requires s <= n <= |p| && |b| == |p| - s
    requires forall j :: 0 <= j < |b| ==> b[j] == p[s + j]
    requires s == 0 || p[s - 1] == Sep
    requires forall j :: s <= j < |p| ==> p[j] != Sep
    ensures ExtUpTo(b, n - s) == ExtUpTo(p, n)
    decreases n
  {
    if n == s {
      assert ExtUpTo(b, 0) == "";
      assert ExtUpTo(p, n) == "";
    } else {
      assert b[n - 1 - s] == p[n - 1];
      if p[n - 1] == '.' {
        assert ExtUpTo(p, n) == p[n - 1..];
        assert ExtUpTo(b, n - s) == b[n - 1 - s..];
        assert b[n - 1 - s..] == p[n - 1..] by {
          var x, y := b[n - 1 - s..], p[n - 1..];
          forall j | 0 <= j < |y| ensures x[j] == y[j] {
            assert x[j] == b[n - 1 - s + j] && y[j] == p[n - 1 + j];
          }
        }
      } else {
        ExtUpToSuffix(p, b, s, n - 1);
        assert ExtUpTo(p, n) == ExtUpTo(p, n - 1);
        assert ExtUpTo(b, n - s) == ExtUpTo(b, n - 1 - s);
      }
    }
  }

  /** For a path without a trailing separator, the extension of its last
      element is the extension of the whole path. */
  lemma ExtOfBase(p: string)
    requires |p| > 0 && p[|p| - 1] != Sep
    ensures Ext(Base(p)) == Ext(p)
  {
    var s := LastSep(p) + 1;
    assert Base(p) == p[s..];
    ExtUpToSuffix(p, p[s..], s, |p|);
  }

  predicate IsAbs(p: string) {
    |p| > 0 && p[0] == Sep
  }
}
