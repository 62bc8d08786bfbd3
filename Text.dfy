/**
 * The string rules of the view model: the .NET string primitives it uses
 * (`LastIndexOf(char)`, `Substring(start, length)`, `int.ToString()`), the
 * "prefix before the last dot" rule that names a release folder and the
 * export default, and the version string `v{Major}.{Minor}.{Build}`.
 */
module Text {
  import opened Wrappers

  // ---------------------------------------------------------------------------
  // .NET string primitives

  /** `s.LastIndexOf(c)`: the index of the last occurrence of `c`, or -1. */
  function LastIndexOf(s: string, c: char): (r: int)
    ensures -1 <= r < |s|
    ensures r == -1 <==> c !in s
    ensures 0 <= r ==> s[r] == c && forall k :: r < k < |s| ==> s[k] != c
  {
    LastIndexBelow(s, c, |s|)
  }

  /** The last index below `n` that holds `c`, or -1. */
  function LastIndexBelow(s: string, c: char, n: nat): (r: int)
    requires n <= |s|
    ensures -1 <= r < n
    ensures r == -1 <==> forall k :: 0 <= k < n ==> s[k] != c
    ensures 0 <= r ==> s[r] == c && forall k :: r < k < n ==> s[k] != c
  {
    if n == 0 then -1 else if s[n - 1] == c then n - 1 else LastIndexBelow(s, c, n - 1)
  }

  /** The index of the first occurrence of `c`, or -1. */
  function IndexOf(s: string, c: char): (r: int)
    ensures -1 <= r < |s|
    ensures r == -1 <==> c !in s
    ensures 0 <= r ==> s[r] == c && c !in s[..r]
  {
    if |s| == 0 then -1
    else if s[0] == c then 0
    else
      var r := IndexOf(s[1..], c);
      assert s == [s[0]] + s[1..];
      if r < 0 then -1 else r + 1
  }

  /** `s` cut at the first occurrence of `c`; None when there is none. */
  function SplitAt(s: string, c: char): (r: Option<(string, string)>)
    ensures r.Some? <==> c in s
    ensures r.Some? ==> s == r.value.0 + [c] + r.value.1 && c !in r.value.0
  {
    var i := IndexOf(s, c);
    if i < 0 then None
    else
      assert s == s[..i] + [c] + s[i + 1..];
      Some((s[..i], s[i + 1..]))
  }

  /**
   * `s.Substring(start, length)`: fails (ArgumentOutOfRangeException) unless
   * `start` and `length` are non-negative and the range lies inside `s`.
   */
  function Substring(s: string, start: int, length: int): (r: Option<string>)
    ensures r.Some? <==> 0 <= start && 0 <= length && start + length <= |s|
    ensures r.Some? ==> |r.value| == length && forall i :: 0 <= i < length ==> r.value[i] == s[start + i]
  {
    if 0 <= start && 0 <= length && start + length <= |s| then Some(s[start..start + length])
    else None
  }

  // ---------------------------------------------------------------------------
  // The folder and export-name rule

  /** `stem` is what is left of `name` once its last dot and everything after it are cut. */
  predicate IsStemOf(stem: string, name: string) {
    |stem| < |name| && name[..|stem|] == stem && name[|stem|] == '.' &&
    forall k :: |stem| < k < |name| ==> name[k] != '.'
  }

  /**
   * `name.Substring(0, name.LastIndexOf('.'))`: without a dot `LastIndexOf`
   * gives -1 and `Substring(0, -1)` throws; otherwise the result is the prefix
   * before the last dot (empty when the only dot is the first character).
   */
  function StemBeforeLastDot(name: string): (r: Option<string>)
    ensures r.Some? <==> '.' in name
    ensures r.Some? ==> IsStemOf(r.value, name)
  {
    Substring(name, 0, LastIndexOf(name, '.'))
  }

  /** A name has at most one stem. */
  lemma StemUnique(a: string, b: string, name: string)
    requires IsStemOf(a, name) && IsStemOf(b, name)
    ensures a == b
  {
  }

  /** Cutting the extension from `stem.ext`, where `ext` has no dot, gives back `stem`. */
  lemma StemOfDottedName(stem: string, ext: string)
    requires '.' !in ext
    ensures StemBeforeLastDot(stem + "." + ext) == Some(stem)
  {
    var name := stem + "." + ext;
    assert name[..|stem|] == stem;
    assert forall k :: |stem| < k < |name| ==> name[k] == ext[k - |stem| - 1];
    assert IsStemOf(stem, name);
    StemUnique(StemBeforeLastDot(name).value, stem, name);
  }

  // ---------------------------------------------------------------------------
  // Decimal rendering of integers (`int.ToString()` in an interpolated string)

  predicate IsDigit(c: char) {
    '0' <= c <= '9'
  }

  predicate AllDigits(s: string) {
    forall i :: 0 <= i < |s| ==> IsDigit(s[i])
  }

  function DigitChar(d: nat): (c: char)
    requires d < 10
  {
    (48 + d) as char
  }

  /** The value of a string of decimal digits. */
  function DigitsValue(s: string): nat
    requires AllDigits(s)
  {
    if s == [] then 0 else DigitsValue(s[..|s| - 1]) * 10 + (s[|s| - 1] as int - 48)
  }

  /** The shortest decimal representation of `n`. */
  function NatToString(n: nat): (s: string)
    ensures |s| >= 1 && AllDigits(s)
    ensures |s| > 1 ==> s[0] != '0'
  {
    if n < 10 then [DigitChar(n)] else NatToString(n / 10) + [DigitChar(n % 10)]
  }

  /** `i.ToString()` for the invariant culture: a minus sign before the digits of a negative value. */
  function IntToString(i: int): (s: string)
    ensures |s| >= 1 && (s[0] == '-' <==> i < 0)
    ensures i < 0 ==> |s| >= 2 && AllDigits(s[1..]) && (|s| > 2 ==> s[1] != '0')
    ensures i >= 0 ==> AllDigits(s) && (|s| > 1 ==> s[0] != '0')
  {
    if i < 0 then "-" + NatToString(-i) else NatToString(i)
  }

  /** Reads back a string made by `IntToString`. */
  function ParseInt(s: string): Option<int> {
    if |s| > 1 && s[0] == '-' && AllDigits(s[1..]) then Some(-(DigitsValue(s[1..]) as int))
    else if |s| > 0 && AllDigits(s) then Some(DigitsValue(s))
    else None
  }

  lemma {:induction false} NatToStringValue(n: nat)
    ensures DigitsValue(NatToString(n)) == n
  {
    if n >= 10 {
      NatToStringValue(n / 10);
      var s := NatToString(n);
      assert s[..|s| - 1] == NatToString(n / 10);
    }
  }

  /** Rendering an integer and reading it back gives the integer. */
  lemma IntToStringRoundTrip(i: int)
    ensures ParseInt(IntToString(i)) == Some(i)
  {
    if i < 0 {
      NatToStringValue(-i);
      assert IntToString(i)[1..] == NatToString(-i);
    } else {
      NatToStringValue(i);
    }
  }

  lemma IntToStringHasNoDot(i: int)
    ensures '.' !in IntToString(i)
  {
    var s := IntToString(i);
    if i < 0 {
      assert forall k :: 1 <= k < |s| ==> s[k] == NatToString(-i)[k - 1];
    }
  }

  // ---------------------------------------------------------------------------
  // Version strings

  /** `$"v{Major}.{Minor}.{Build}"`. */
  function VersionString(major: int, minor: int, build: int): (s: string)
    ensures |s| >= 6 && s[0] == 'v'
  {
    "v" + IntToString(major) + "." + IntToString(minor) + "." + IntToString(build)
  }

  /** The inverse of `VersionString`: splits `v<int>.<int>.<int>` at its dots. */
  function ParseVersion(s: string): Option<(int, int, int)> {
    if |s| == 0 || s[0] != 'v' then None
    else
      var first :- SplitAt(s[1..], '.');
      var second :- SplitAt(first.1, '.');
      var major :- ParseInt(first.0);
      var minor :- ParseInt(second.0);
      var build :- ParseInt(second.1);
      Some((major, minor, build))
  }

  /** `x.y`, where `x` has no dot, splits at its first dot into `x` and `y`. */
  lemma SplitAfterPrefix(x: string, y: string)
    requires '.' !in x
    ensures SplitAt(x + "." + y, '.') == Some((x, y))
  {
    var s := x + "." + y;
    assert s[|x|] == '.';
    assert IndexOf(s, '.') == |x| by {
      assert forall k :: 0 <= k < |x| ==> s[k] == x[k];
    }
    assert s[..|x|] == x;
    assert s[|x| + 1..] == y;
  }

  /** The version string determines the three numbers it was made from. */
  lemma ParseVersionOfVersionString(major: int, minor: int, build: int)
    ensures ParseVersion(VersionString(major, minor, build)) == Some((major, minor, build))
  {
    var a, b, c := IntToString(major), IntToString(minor), IntToString(build);
    IntToStringHasNoDot(major);
    IntToStringHasNoDot(minor);
    IntToStringRoundTrip(major);
    IntToStringRoundTrip(minor);
    IntToStringRoundTrip(build);
    var s := VersionString(major, minor, build);
    assert s[1..] == a + "." + (b + "." + c);
    SplitAfterPrefix(a, b + "." + c);
    SplitAfterPrefix(b, c);
  }

  /** Two releases get the same version string exactly when their numbers agree. */
  lemma VersionStringInjective(a1: int, b1: int, c1: int, a2: int, b2: int, c2: int)
    requires VersionString(a1, b1, c1) == VersionString(a2, b2, c2)
    ensures a1 == a2 && b1 == b2 && c1 == c2
  {
    ParseVersionOfVersionString(a1, b1, c1);
    ParseVersionOfVersionString(a2, b2, c2);
  }
}
