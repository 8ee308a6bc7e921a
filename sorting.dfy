/**
 * `Array.prototype.sort` with a comparator, modelled as a stable insertion
 * sort. A comparator returns a number whose sign orders its two operands
 * (positive: the first goes after the second). For a comparator that is a
 * total preorder every stable sort gives this result; for one that is not,
 * the result of the JavaScript engine is implementation-defined and only the
 * permutation property below carries over.
 */
module Sorting {

  /**
   * Inserts `x` into `t` just after the rightmost element that does not
   * compare greater than `x`, as one pass of insertion sort does.
   */
  function Insert<T>(t: seq<T>, x: T, cmp: (T, T) -> int): (r: seq<T>)
    ensures |r| == |t| + 1
  {
    if |t| == 0 then [x]
    else if cmp(t[|t| - 1], x) > 0 then Insert(t[..|t| - 1], x, cmp) + [t[|t| - 1]]
    else t + [x]
  }

  /** The sorted result: the elements of `s`, inserted one after another from the left. */
  function InsertionSort<T>(s: seq<T>, cmp: (T, T) -> int): (r: seq<T>)
    ensures |r| == |s|
  {
    if |s| == 0 then []
    else Insert(InsertionSort(s[..|s| - 1], cmp), s[|s| - 1], cmp)
  }

  /** Insert adds `x` and loses nothing. */
  lemma {:induction false} InsertPermutes<T>(t: seq<T>, x: T, cmp: (T, T) -> int)
    ensures multiset(Insert(t, x, cmp)) == multiset(t) + multiset{x}
  {
    if |t| > 0 {
      var init := t[..|t| - 1];
      assert t == init + [t[|t| - 1]];
      InsertPermutes(init, x, cmp);
    }
  }

  /** The sorted result is a permutation of the input. */
  lemma {:induction false} SortPermutes<T>(s: seq<T>, cmp: (T, T) -> int)
    ensures multiset(InsertionSort(s, cmp)) == multiset(s)
  {
    if |s| > 0 {
      var init := s[..|s| - 1];
      assert s == init + [s[|s| - 1]];
      SortPermutes(init, cmp);
      InsertPermutes(InsertionSort(init, cmp), s[|s| - 1], cmp);
    }
  }

  /** Swapping the operands flips a positive comparison to a negative one. */
  ghost predicate Antisymmetric<T(!new)>(cmp: (T, T) -> int) {
    forall a, b :: cmp(a, b) > 0 ==> cmp(b, a) < 0
  }

  /** No element compares greater than the one after it. */
  ghost predicate LocallySorted<T>(s: seq<T>, cmp: (T, T) -> int) {
    forall i :: 0 < i < |s| ==> cmp(s[i - 1], s[i]) <= 0
  }

  lemma {:induction false} InsertLast<T>(t: seq<T>, x: T, cmp: (T, T) -> int)
    ensures var r := Insert(t, x, cmp);
            r[|r| - 1] == x || (|t| > 0 && r[|r| - 1] == t[|t| - 1] && cmp(t[|t| - 1], x) > 0)
  {
  }

  lemma {:induction false} InsertKeepsOrder<T(!new)>(t: seq<T>, x: T, cmp: (T, T) -> int)
    requires Antisymmetric(cmp)
    requires LocallySorted(t, cmp)
    ensures LocallySorted(Insert(t, x, cmp), cmp)
  {
    if |t| > 0 && cmp(t[|t| - 1], x) > 0 {
      var init := t[..|t| - 1];
      var last := t[|t| - 1];
      assert LocallySorted(init, cmp) by {
        forall i | 0 < i < |init| ensures cmp(init[i - 1], init[i]) <= 0 {
          assert init[i - 1] == t[i - 1] && init[i] == t[i];
        }
      }
      InsertKeepsOrder(init, x, cmp);
      var ri := Insert(init, x, cmp);
      InsertLast(init, x, cmp);
      assert cmp(ri[|ri| - 1], last) <= 0 by {
        if ri[|ri| - 1] == x {
          assert cmp(last, x) > 0;
        } else {
          assert |init| > 0 && ri[|ri| - 1] == t[|t| - 2];
        }
      }
      var r := ri + [last];
      assert Insert(t, x, cmp) == r;
      forall i | 0 < i < |r| ensures cmp(r[i - 1], r[i]) <= 0 {
        if i < |ri| {
          assert r[i - 1] == ri[i - 1] && r[i] == ri[i];
        }
      }
    }
  }

  /** With an antisymmetric comparator, no element of the result compares greater than its successor. */
  lemma {:induction false} InsertionSortLocallySorted<T(!new)>(s: seq<T>, cmp: (T, T) -> int)
    requires Antisymmetric(cmp)
    ensures LocallySorted(InsertionSort(s, cmp), cmp)
  {
    if |s| > 0 {
      InsertionSortLocallySorted(s[..|s| - 1], cmp);
      InsertKeepsOrder(InsertionSort(s[..|s| - 1], cmp), s[|s| - 1], cmp);
    }
  }

  /** Sorting a list that is already in order leaves it as it is. */
  lemma {:induction false} SortedIsFixed<T>(s: seq<T>, cmp: (T, T) -> int)
    requires LocallySorted(s, cmp)
    ensures InsertionSort(s, cmp) == s
  {
    if |s| > 0 {
      var init := s[..|s| - 1];
      assert LocallySorted(init, cmp) by {
        forall i | 0 < i < |init| ensures cmp(init[i - 1], init[i]) <= 0 {
          assert init[i - 1] == s[i - 1] && init[i] == s[i];
        }
      }
      SortedIsFixed(init, cmp);
      assert s == init + [s[|s| - 1]];
      if |init| > 0 {
        assert cmp(init[|init| - 1], s[|s| - 1]) <= 0;
      }
    }
  }

  /** Sorting twice gives what sorting once gives. */
  lemma SortIdempotent<T(!new)>(s: seq<T>, cmp: (T, T) -> int)
    requires Antisymmetric(cmp)
    ensures InsertionSort(InsertionSort(s, cmp), cmp) == InsertionSort(s, cmp)
  {
    InsertionSortLocallySorted(s, cmp);
    SortedIsFixed(InsertionSort(s, cmp), cmp);
  }

  /**
   * If every pair that the comparator does not put out of order has
   * non-increasing ranks, a locally sorted list has non-increasing ranks
   * throughout.
   */
  lemma {:induction false} RanksNonIncreasing<T>(s: seq<T>, cmp: (T, T) -> int, rank: T -> int)
    requires LocallySorted(s, cmp)
    requires forall i :: 0 < i < |s| && cmp(s[i - 1], s[i]) <= 0 ==> rank(s[i]) <= rank(s[i - 1])
    ensures forall i, j :: 0 <= i < j < |s| ==> rank(s[j]) <= rank(s[i])
  {
    if |s| > 1 {
      var init := s[..|s| - 1];
      assert LocallySorted(init, cmp) by {
        forall i | 0 < i < |init| ensures cmp(init[i - 1], init[i]) <= 0 {
          assert init[i - 1] == s[i - 1] && init[i] == s[i];
        }
      }
      forall i | 0 < i < |init| && cmp(init[i - 1], init[i]) <= 0 ensures rank(init[i]) <= rank(init[i - 1]) {
        assert init[i - 1] == s[i - 1] && init[i] == s[i];
      }
      RanksNonIncreasing(init, cmp, rank);
      forall i, j | 0 <= i < j < |s| ensures rank(s[j]) <= rank(s[i]) {
        if j < |s| - 1 {
          assert s[i] == init[i] && s[j] == init[j];
        } else if i < |s| - 2 {
          assert s[i] == init[i] && s[|s| - 2] == init[|s| - 2];
        }
      }
    }
  }

  /**
   * Where Insert puts `x`: after position `j - 1`, when the element there does
   * not compare greater than `x` and every element from `j` on does.
   */
  lemma {:induction false} InsertPosition<T>(t: seq<T>, j: nat, x: T, cmp: (T, T) -> int)
    requires j <= |t|
    requires j == 0 || cmp(t[j - 1], x) <= 0
    requires forall k :: j <= k < |t| ==> cmp(t[k], x) > 0
    ensures Insert(t, x, cmp) == t[..j] + [x] + t[j..]
  {
    if j < |t| {
      var init := t[..|t| - 1];
      assert init[..j] == t[..j];
      InsertPosition(init, j, x, cmp);
      assert init[j..] + [t[|t| - 1]] == t[j..];
    }
  }

  /** The array after the shifting loop: `t[..j]`, then `x`, then the shifted rest of `t`. */
  lemma ShiftedLayout<T>(b: seq<T>, t: seq<T>, x: T, j: nat)
    requires j <= |t| < |b|
    requires forall k :: 0 <= k < j ==> b[k] == t[k]
    requires b[j] == x
    requires forall k :: j < k <= |t| ==> b[k] == t[k - 1]
    ensures b[..|t| + 1] == t[..j] + [x] + t[j..]
  {
    var r := t[..j] + [x] + t[j..];
    forall k | 0 <= k <= |t| ensures b[k] == r[k] {
      if k > j {
        assert r[k] == t[k - 1];
      }
    }
  }

  /** Inserts `a[i]` into the sorted prefix `a[..i]` by shifting greater elements one place right. */
  method InsertInPlace<T>(a: array<T>, i: nat, cmp: (T, T) -> int)
    requires i < a.Length
    modifies a
    ensures a[..i + 1] == Insert(old(a[..i]), old(a[i]), cmp)
    ensures forall k :: i < k < a.Length ==> a[k] == old(a[k])
  {
    var x := a[i];
    ghost var t := a[..i];
    var j := i;
    while j > 0 && cmp(a[j - 1], x) > 0
      invariant 0 <= j <= i
      invariant forall k :: 0 <= k < j ==> a[k] == t[k]
      invariant forall k :: j < k <= i ==> a[k] == t[k - 1]
      invariant forall k :: i < k < a.Length ==> a[k] == old(a[k])
      invariant forall k :: j <= k < i ==> cmp(t[k], x) > 0
    {
      a[j] := a[j - 1];
      j := j - 1;
    }
    InsertPosition(t, j, x, cmp);
    a[j] := x;
    ShiftedLayout(a[..], t, x, j);
  }

  /** `array.sort(cmp)`: the array ends up holding InsertionSort of what it held. */
  method SortInPlace<T>(a: array<T>, cmp: (T, T) -> int)
    modifies a
    ensures a[..] == InsertionSort(old(a[..]), cmp)
  {
    ghost var orig := a[..];
    var i := 0;
    while i < a.Length
      invariant 0 <= i <= a.Length
      invariant a[..i] == InsertionSort(orig[..i], cmp)
      invariant forall k :: i <= k < a.Length ==> a[k] == orig[k]
    {
      InsertInPlace(a, i, cmp);
      assert orig[..i + 1][..i] == orig[..i];
      i := i + 1;
    }
    assert orig[..a.Length] == orig;
  }

  /** Copies a list into an array, sorts it in place and reads it back. */
  method SortedCopy<T>(s: seq<T>, cmp: (T, T) -> int) returns (r: seq<T>)
    ensures r == InsertionSort(s, cmp)
  {
    var a := new T[|s|](i requires 0 <= i < |s| => s[i]);
    assert a[..] == s;
    SortInPlace(a, cmp);
    r := a[..];
  }
}
