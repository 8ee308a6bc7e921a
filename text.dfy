/**
 * String primitives the viewer relies on: digit tests, leftmost pattern search
 * (the JavaScript regular-expression `match` and `String.replace` with a string
 * pattern), ASCII case mapping, decimal rendering and lexicographic comparison.
 */
module Text {
  import opened Wrappers

  /** `\d` of a JavaScript regular expression: an ASCII decimal digit. */
  predicate IsDigit(c: char) {
    '0' <= c <= '9'
  }

  predicate AllDigits(s: string) {
    forall i :: 0 <= i < |s| ==> IsDigit(s[i])
  }

  /** Exactly ten characters of the shape `\d{4}-\d{2}-\d{2}`. */
  predicate IsDateShape(s: string) {
    && |s| == 10
    && IsDigit(s[0]) && IsDigit(s[1]) && IsDigit(s[2]) && IsDigit(s[3])
    && s[4] == '-'
    && IsDigit(s[5]) && IsDigit(s[6])
    && s[7] == '-'
    && IsDigit(s[8]) && IsDigit(s[9])
  }

  /** The `n` characters of `s` from position `i` exist and satisfy `p`. */
  predicate MatchesAt(s: string, i: nat, n: nat, p: string -> bool) {
    i + n <= |s| && p(s[i..i + n])
  }

  /**
   * The leftmost position at or after `from` where the `n` characters of `s`
   * satisfy `p`. This is how a regular expression without the global flag
   * finds its match: it is tried at each position from the left in turn.
   */
  function FindWindowFrom(s: string, n: nat, p: string -> bool, from: nat): (r: Option<nat>)
    ensures r.Some? ==> from <= r.value && MatchesAt(s, r.value, n, p)
    ensures r.Some? ==> forall i: nat :: from <= i < r.value ==> !MatchesAt(s, i, n, p)
    ensures r.None? ==> forall i: nat :: from <= i ==> !MatchesAt(s, i, n, p)
    decreases |s| + 1 - from
  {
    if from + n > |s| then None
    else if p(s[from..from + n]) then Some(from)
    else FindWindowFrom(s, n, p, from + 1)
  }

  /** The leftmost length-`n` window of `s` that satisfies `p`. */
  function FindWindow(s: string, n: nat, p: string -> bool): (r: Option<nat>)
    ensures r.Some? ==> MatchesAt(s, r.value, n, p)
    ensures r.Some? ==> forall i: nat :: i < r.value ==> !MatchesAt(s, i, n, p)
    ensures r.None? ==> forall i: nat :: !MatchesAt(s, i, n, p)
  {
    FindWindowFrom(s, n, p, 0)
  }

  /** `t` occurs in `s` at position `i`. */
  predicate OccursAt(s: string, i: nat, t: string) {
    i + |t| <= |s| && s[i..i + |t|] == t
  }

  /** `s.indexOf(t)`, with `None` for -1. */
  function IndexOf(s: string, t: string): (r: Option<nat>)
    ensures r.Some? ==> OccursAt(s, r.value, t)
    ensures r.Some? ==> forall i: nat :: i < r.value ==> !OccursAt(s, i, t)
    ensures r.None? ==> forall i: nat :: !OccursAt(s, i, t)
  {
    var r := FindWindow(s, |t|, w => w == t);
    assert forall i: nat :: OccursAt(s, i, t) <==> MatchesAt(s, i, |t|, w => w == t);
    r
  }

  /** `s.includes(t)`. */
  predicate Contains(s: string, t: string)
  {
    IndexOf(s, t).Some?
  }

  /** `s.replace(t, rep)` with a string pattern: only the leftmost occurrence is replaced. */
  function ReplaceFirst(s: string, t: string, rep: string): (r: string)
    ensures !Contains(s, t) ==> r == s
    ensures Contains(s, t) ==> exists i: nat :: OccursAt(s, i, t) && r == s[..i] + rep + s[i + |t|..]
                                   && forall j: nat :: j < i ==> !OccursAt(s, j, t)
  {
    match IndexOf(s, t)
    case None => s
    case Some(i) => s[..i] + rep + s[i + |t|..]
  }

  /** Lower-casing both strings keeps an occurrence where it was. */
  lemma LowerKeepsContains(s: string, t: string)
    requires Contains(s, t)
    ensures Contains(Lower(s), Lower(t))
  {
    var i := IndexOf(s, t).value;
    assert s[i..i + |t|] == t;
    assert forall k :: 0 <= k < |t| ==> Lower(s)[i + k] == AsciiLower(t[k]);
    assert Lower(s)[i..i + |t|] == Lower(t);
    assert OccursAt(Lower(s), i, Lower(t));
  }

  function AsciiLower(c: char): char {
    if 'A' <= c <= 'Z' then (c as int - 'A' as int + 'a' as int) as char else c
  }

  function AsciiUpper(c: char): char {
    if 'a' <= c <= 'z' then (c as int - 'a' as int + 'A' as int) as char else c
  }

  /** `s.toLowerCase()` on the ASCII letters. */
  function Lower(s: string): (r: string)
    ensures |r| == |s|
    ensures forall i :: 0 <= i < |s| ==> r[i] == AsciiLower(s[i])
    ensures forall i :: 0 <= i < |s| ==> !('A' <= r[i] <= 'Z')
  {
    seq(|s|, i requires 0 <= i < |s| => AsciiLower(s[i]))
  }

  function DigitValue(c: char): nat
    requires IsDigit(c)
  {
    c as int - '0' as int
  }

  function DigitChar(d: nat): char
    requires d < 10
  {
    (d + '0' as int) as char
  }

  /** The number a run of decimal digits denotes. */
  function DigitsValue(s: string): nat
    requires AllDigits(s)
  {
    if |s| == 0 then 0 else DigitsValue(s[..|s| - 1]) * 10 + DigitValue(s[|s| - 1])
  }

  /** Decimal rendering of `n` without leading zeros, as `String(n)` does. */
  function NatToString(n: nat): string
  {
    (if n < 10 then "" else NatToString(n / 10)) + [DigitChar(n % 10)]
  }

  /** NatToString yields digits only, starts with a zero only for 0 itself, and reads back as `n`. */
  lemma {:induction false} NatToStringRoundTrip(n: nat)
    ensures |NatToString(n)| > 0 && AllDigits(NatToString(n))
    ensures NatToString(n)[0] == '0' ==> n == 0
    ensures DigitsValue(NatToString(n)) == n
  {
    var s := NatToString(n);
    if n >= 10 {
      NatToStringRoundTrip(n / 10);
      assert s[..|s| - 1] == NatToString(n / 10);
    } else {
      assert s[..|s| - 1] == "";
    }
  }

  function Sign(x: int): int {
    if x < 0 then -1 else if x > 0 then 1 else 0
  }

  /**
   * Code-point lexicographic comparison: -1, 0 or 1. It stands in for
   * `localeCompare`, whose collation the model does not reproduce.
   */
  function StrCompare(a: string, b: string): (r: int)
    ensures -1 <= r <= 1
  {
    if |a| == 0 && |b| == 0 then 0
    else if |a| == 0 then -1
    else if |b| == 0 then 1
    else if a[0] < b[0] then -1
    else if a[0] > b[0] then 1
    else StrCompare(a[1..], b[1..])
  }

  /** Swapping the operands negates the comparison, and 0 means equal strings. */
  lemma {:induction false} StrCompareAntisymmetric(a: string, b: string)
    ensures StrCompare(a, b) == -StrCompare(b, a)
    ensures StrCompare(a, b) == 0 <==> a == b
  {
    if |a| > 0 && |b| > 0 && a[0] == b[0] {
      StrCompareAntisymmetric(a[1..], b[1..]);
      assert a == [a[0]] + a[1..] && b == [b[0]] + b[1..];
    }
  }

  /** Comparing two concatenations whose first parts have equal lengths. */
  lemma {:induction false} StrCompareAppend(a1: string, a2: string, b1: string, b2: string)
    requires |a1| == |b1|
    ensures StrCompare(a1 + a2, b1 + b2) == if a1 == b1 then StrCompare(a2, b2) else StrCompare(a1, b1)
  {
    if |a1| > 0 {
      assert (a1 + a2)[1..] == a1[1..] + a2;
      assert (b1 + b2)[1..] == b1[1..] + b2;
      StrCompareAppend(a1[1..], a2, b1[1..], b2);
      StrCompareAntisymmetric(a1[1..], b1[1..]);
      if a1[0] == b1[0] && a1[1..] == b1[1..] {
        assert a1 == b1 by { assert a1 == [a1[0]] + a1[1..] && b1 == [b1[0]] + b1[1..]; }
      }
    } else {
      assert a1 + a2 == a2 && b1 + b2 == b2;
    }
  }

  /** On digit strings of equal length, lexicographic order is numeric order. */
  lemma {:induction false} DigitsCompare(a: string, b: string)
    requires |a| == |b| && AllDigits(a) && AllDigits(b)
    ensures StrCompare(a, b) == Sign(DigitsValue(a) - DigitsValue(b))
  {
    if |a| == 0 {
      assert a == b;
    } else {
      var k := |a| - 1;
      var a1, b1 := a[..k], b[..k];
      assert a == a1 + [a[k]] && b == b1 + [b[k]];
      StrCompareAppend(a1, [a[k]], b1, [b[k]]);
      DigitsCompare(a1, b1);
      StrCompareAntisymmetric(a1, b1);
      assert StrCompare([a[k]], [b[k]]) == Sign(DigitValue(a[k]) - DigitValue(b[k])) by {
        assert [a[k]][1..] == [] && [b[k]][1..] == [];
      }
    }
  }
}
