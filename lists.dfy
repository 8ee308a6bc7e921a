/** `Array.prototype.filter`: the elements that pass a test, in their original order. */
module Lists {

  function Filter<T>(s: seq<T>, p: T -> bool): (r: seq<T>)
    ensures |r| <= |s|
    ensures forall i :: 0 <= i < |r| ==> r[i] in s && p(r[i])
    ensures forall i :: 0 <= i < |s| && p(s[i]) ==> s[i] in r
  {
    if |s| == 0 then []
    else
      var init := s[..|s| - 1];
      var rest := Filter(init, p);
      assert forall i :: 0 <= i < |rest| ==> rest[i] in s;
      assert forall i :: 0 <= i < |s| - 1 ==> s[i] == init[i];
      rest + (if p(s[|s| - 1]) then [s[|s| - 1]] else [])
  }

  /** Filtering one more element from the right. */
  lemma FilterSnoc<T>(s: seq<T>, x: T, p: T -> bool)
    ensures Filter(s + [x], p) == Filter(s, p) + (if p(x) then [x] else [])
  {
    assert (s + [x])[..|s|] == s;
  }

  /** `Array.prototype.map`: `f` applied to each element, in order. */
  function Map<T, U>(s: seq<T>, f: T -> U): (r: seq<U>)
    ensures |r| == |s|
    ensures forall i :: 0 <= i < |s| ==> r[i] == f(s[i])
  {
    seq(|s|, i requires 0 <= i < |s| => f(s[i]))
  }

  /** Mapping a concatenation maps each part. */
  lemma MapAppend<T, U>(a: seq<T>, b: seq<T>, f: T -> U)
    ensures Map(a + b, f) == Map(a, f) + Map(b, f)
  {
    assert forall i :: 0 <= i < |b| ==> (a + b)[|a| + i] == b[i];
  }

  /** Everything passes: the list comes back unchanged. */
  lemma {:induction false} FilterAll<T>(s: seq<T>, p: T -> bool)
    requires forall i :: 0 <= i < |s| ==> p(s[i])
    ensures Filter(s, p) == s
  {
    if |s| > 0 {
      var init := s[..|s| - 1];
      assert forall i :: 0 <= i < |init| ==> init[i] == s[i];
      FilterAll(init, p);
      assert s == init + [s[|s| - 1]];
    }
  }

  /** `i` is strictly increasing and below `n`. */
  ghost predicate IsIndexChain(idx: seq<nat>, n: nat) {
    && (forall k :: 0 <= k < |idx| ==> idx[k] < n)
    && (forall k, l :: 0 <= k < l < |idx| ==> idx[k] < idx[l])
  }

  /**
   * The result is a subsequence of the input: its elements sit at strictly
   * increasing positions of `s`, so their relative order is kept, and those
   * positions are exactly the ones whose element passes.
   */
  lemma {:induction false} FilterKeepsOrder<T>(s: seq<T>, p: T -> bool) returns (idx: seq<nat>)
    ensures |idx| == |Filter(s, p)| && IsIndexChain(idx, |s|)
    ensures forall k :: 0 <= k < |idx| ==> idx[k] < |s| && Filter(s, p)[k] == s[idx[k]]
    ensures forall i :: 0 <= i < |s| ==> (p(s[i]) <==> i in idx)
  {
    if |s| == 0 {
      idx := [];
    } else {
      var n := |s| - 1;
      var init := s[..n];
      var prev := FilterKeepsOrder(init, p);
      var r := Filter(s, p);
      var ri := Filter(init, p);
      if p(s[n]) {
        idx := prev + [n];
        assert r == ri + [s[n]];
        forall k | 0 <= k < |idx| ensures idx[k] < |s| && r[k] == s[idx[k]] {
          if k < |prev| {
            assert r[k] == ri[k];
          }
        }
        PassingPositionsStep(s, p, prev);
      } else {
        idx := prev;
        assert r == ri;
        PassingPositionsStep(s, p, prev);
      }
    }
  }

  /** The passing positions of `s` once its last element is looked at. */
  lemma PassingPositionsStep<T>(s: seq<T>, p: T -> bool, prev: seq<nat>)
    requires |s| > 0 && IsIndexChain(prev, |s| - 1)
    requires forall i :: 0 <= i < |s| - 1 ==> (p(s[..|s| - 1][i]) <==> i in prev)
    ensures var idx := if p(s[|s| - 1]) then prev + [|s| - 1] else prev;
            forall i :: 0 <= i < |s| ==> (p(s[i]) <==> i in idx)
  {
    var n := |s| - 1;
    var idx := if p(s[n]) then prev + [n] else prev;
    forall i | 0 <= i < |s| ensures p(s[i]) <==> i in idx {
      if i < n {
        assert s[i] == s[..n][i];
        assert i in idx <==> i in prev;
      } else {
        assert n !in prev;
      }
    }
  }

  /** The number of elements of `s` that pass `p`. */
  function Count<T>(s: seq<T>, p: T -> bool): nat {
    if |s| == 0 then 0 else Count(s[..|s| - 1], p) + (if p(s[|s| - 1]) then 1 else 0)
  }

  /**
   * The filter keeps each passing element as often as it occurs and drops
   * every other; its length is the number of passing elements.
   */
  lemma FilterCounts<T>(s: seq<T>, p: T -> bool)
    ensures |Filter(s, p)| == Count(s, p)
    ensures forall x :: multiset(Filter(s, p))[x] == if p(x) then multiset(s)[x] else 0
  {
    FilterLength(s, p);
    FilterMultiplicity(s, p);
  }

  lemma {:induction false} FilterLength<T>(s: seq<T>, p: T -> bool)
    ensures |Filter(s, p)| == Count(s, p)
  {
    if |s| > 0 {
      FilterLength(s[..|s| - 1], p);
    }
  }

  lemma {:induction false} FilterMultiplicity<T>(s: seq<T>, p: T -> bool)
    ensures forall x :: multiset(Filter(s, p))[x] == if p(x) then multiset(s)[x] else 0
  {
    if |s| > 0 {
      var init, last := s[..|s| - 1], s[|s| - 1];
      FilterMultiplicity(init, p);
      assert s == init + [last];
      var tail := if p(last) then [last] else [];
      assert Filter(s, p) == Filter(init, p) + tail;
      assert multiset(s) == multiset(init) + multiset{last};
      assert multiset(Filter(s, p)) == multiset(Filter(init, p)) + multiset(tail);
    }
  }

  /** No two elements of `s` share a key. */
  ghost predicate DistinctKeys<T, K>(s: seq<T>, key: T -> K) {
    forall i, j :: 0 <= i < j < |s| ==> key(s[i]) != key(s[j])
  }

  /** Filtering, then mapping in a way that keeps keys, repeats no key. */
  lemma FilterMapKeepsDistinct<T, U, K>(s: seq<T>, p: T -> bool, f: T -> U, keyT: T -> K, keyU: U -> K)
    requires DistinctKeys(s, keyT)
    requires forall x :: keyU(f(x)) == keyT(x)
    ensures DistinctKeys(Map(Filter(s, p), f), keyU)
  {
    var r := Map(Filter(s, p), f);
    var idx := FilterKeepsOrder(s, p);
    forall i, j | 0 <= i < j < |r| ensures keyU(r[i]) != keyU(r[j]) {
      assert keyU(r[i]) == keyT(s[idx[i]]) && keyU(r[j]) == keyT(s[idx[j]]);
    }
  }

  lemma {:induction false} DistinctCountsOnce<T, K>(s: seq<T>, key: T -> K, x: T)
    requires DistinctKeys(s, key)
    ensures multiset(s)[x] <= 1
  {
    if |s| > 0 {
      var init := s[..|s| - 1];
      assert s == init + [s[|s| - 1]];
      DistinctCountsOnce(init, key, x);
      if x == s[|s| - 1] {
        forall k | 0 <= k < |init| ensures init[k] != x {
          assert key(s[k]) != key(s[|s| - 1]);
        }
        assert x !in multiset(init);
      }
    }
  }

  lemma TwiceCountsTwice<T>(s: seq<T>, i: nat, j: nat)
    requires i < j < |s| && s[i] == s[j]
    ensures multiset(s)[s[i]] >= 2
  {
    assert s == s[..j] + [s[j]] + s[j + 1..];
    assert s[i] in s[..j];
  }

  /** A reordering of a list without repeated keys has none either. */
  lemma PermutationKeepsDistinct<T, K>(t: seq<T>, r: seq<T>, key: T -> K)
    requires DistinctKeys(t, key) && multiset(r) == multiset(t)
    ensures DistinctKeys(r, key)
  {
    forall i, j | 0 <= i < j < |r| ensures key(r[i]) != key(r[j]) {
      if r[i] == r[j] {
        TwiceCountsTwice(r, i, j);
        DistinctCountsOnce(t, key, r[i]);
      } else {
        assert r[i] in multiset(t) && r[j] in multiset(t);
        var a :| 0 <= a < |t| && t[a] == r[i];
        var b :| 0 <= b < |t| && t[b] == r[j];
        assert a != b;
        if a > b {
          assert key(t[b]) != key(t[a]);
        }
      }
    }
  }
}
