/** Two pieces of Python's standard library that the choice of an output file
    name relies on: `posixpath.join` with two arguments, and `str` of a
    non-negative `int`. */
module Paths {

  /** posixpath.join(a, b): an absolute `b` discards `a`; otherwise `b` is
      appended to `a`, with one '/' in between unless `a` is empty or already
      ends in '/'. */
  function Join(a: string, b: string): (p: string)
    ensures |p| >= |b|
  {
    if |b| > 0 && b[0] == '/' then b
    else if a == [] || a[|a| - 1] == '/' then a + b
    else a + "/" + b
  }

  /** The joined path ends with `b`; an absolute `b` is the whole path, and
      otherwise the path starts with `a`. */
  lemma JoinShape(a: string, b: string)
    ensures Join(a, b)[|Join(a, b)| - |b|..] == b
    ensures |b| > 0 && b[0] == '/' ==> Join(a, b) == b
    ensures (|b| == 0 || b[0] != '/') ==> |Join(a, b)| >= |a| && Join(a, b)[..|a|] == a
  {
  }

  function Digit(d: nat): (c: char)
    requires d < 10
    ensures '0' <= c <= '9'
  {
    (d + '0' as int) as char
  }

  /** str(n) for a non-negative integer: its decimal digits, most significant
      first, without leading zeros. */
  function DecimalString(n: nat): (s: string)
    ensures |s| >= 1
  {
    if n < 10 then [Digit(n)] else DecimalString(n / 10) + [Digit(n % 10)]
  }

  /** int(s) for a string of decimal digits. */
  function DecimalValue(s: string): (n: int)
    requires forall i :: 0 <= i < |s| ==> '0' <= s[i] <= '9'
    ensures n >= 0
  {
    if s == [] then 0
    else 10 * DecimalValue(s[..|s| - 1]) + (s[|s| - 1] as int - '0' as int)
  }

  /** str(n) is made of digits only, and reading it back gives n, so
      different counters give different suffixes. */
  lemma {:induction false} DecimalStringRoundTrip(n: nat)
    ensures forall i :: 0 <= i < |DecimalString(n)| ==> '0' <= DecimalString(n)[i] <= '9'
    ensures DecimalValue(DecimalString(n)) == n
  {
    if n >= 10 {
      DecimalStringRoundTrip(n / 10);
      var s := DecimalString(n);
      var prefix := DecimalString(n / 10);
      assert s == prefix + [Digit(n % 10)];
      assert s[..|s| - 1] == prefix;
    }
  }

  function Pow10(m: nat): (p: nat)
    ensures p >= 1
  {
    if m == 0 then 1 else 10 * Pow10(m - 1)
  }

  /** A number of at least 10^m has more than m decimal digits. */
  lemma {:induction false} DecimalStringLength(n: nat, m: nat)
    requires n >= Pow10(m)
    ensures |DecimalString(n)| > m
  {
    if m > 0 {
      assert n / 10 >= Pow10(m - 1);
      DecimalStringLength(n / 10, m - 1);
    }
  }
}
