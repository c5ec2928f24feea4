/** Finite matchings and permutations, represented as sequences of indices, and sums over them. */
module Permutations {

  /** The distinct elements of a sequence. */
  function Elements<T>(s: seq<T>): set<T> {
    set x | x in s
  }

  ghost predicate Distinct<T>(s: seq<T>) {
    forall i, j :: 0 <= i < j < |s| ==> s[i] != s[j]
  }

  /** `s` is a permutation of 0, 1, ..., n - 1. */
  ghost predicate IsPermutation(s: seq<int>, n: nat) {
    && |s| == n
    && (forall i :: 0 <= i < n ==> 0 <= s[i] < n)
    && Distinct(s)
  }

  /** Each row i is sent to column b[i], or to no column when b[i] is -1; no column is used twice. */
  ghost predicate IsMatching(b: seq<int>, columns: nat) {
    && (forall i :: 0 <= i < |b| ==> -1 <= b[i] < columns)
    && (forall i, j :: 0 <= i < j < |b| && b[i] != -1 ==> b[i] != b[j])
  }

  /** The number of rows that a matching sends to a column. */
  function Size(b: seq<int>): nat {
    if b == [] then 0 else (if b[0] == -1 then 0 else 1) + Size(b[1..])
  }

  function Range(lo: int, hi: int): (r: set<int>)
    ensures forall k :: k in r <==> lo <= k < hi
    decreases hi - lo
  {
    if hi <= lo then {} else Range(lo, hi - 1) + {hi - 1}
  }

  lemma {:induction false} RangeSize(lo: int, hi: int)
    requires lo <= hi
    ensures |Range(lo, hi)| == hi - lo
    decreases hi - lo
  {
    if lo == hi {
      assert Range(lo, hi) == {};
    } else {
      RangeSize(lo, hi - 1);
      assert Range(lo, hi) == Range(lo, hi - 1) + {hi - 1};
    }
  }

  lemma {:induction false} ElementsSize<T>(s: seq<T>)
    ensures |Elements(s)| <= |s|
    ensures Distinct(s) ==> |Elements(s)| == |s|
  {
    if s == [] {
      assert Elements(s) == {};
    } else {
      var rest := s[1..];
      ElementsSize(rest);
      assert Elements(s) == Elements(rest) + {s[0]};
      if Distinct(s) {
        assert s[0] !in rest by {
          assert forall k :: 0 <= k < |rest| ==> rest[k] == s[k + 1];
        }
      }
    }
  }

  lemma SubsetSize<T>(a: set<T>, b: set<T>)
    requires a <= b
    ensures |a| <= |b|
    ensures |a| == |b| ==> a == b
  {
    assert b == a + (b - a);
  }

  /** A sequence that takes every value of a range and one more value is longer than the range. */
  lemma Crowded(s: seq<int>, lo: int, hi: int, extra: int)
    requires lo <= hi
    requires forall k :: lo <= k < hi ==> k in s
    requires extra in s && !(lo <= extra < hi)
    ensures hi - lo < |s|
  {
    RangeSize(lo, hi);
    ElementsSize(s);
    SubsetSize(Range(lo, hi) + {extra}, Elements(s));
  }

  /** A sequence of distinct values drawn from a range is no longer than the range. */
  lemma Pigeonhole(s: seq<int>, lo: int, hi: int)
    requires lo <= hi
    requires forall i :: 0 <= i < |s| ==> lo <= s[i] < hi
    requires Distinct(s)
    ensures |s| <= hi - lo
    ensures |s| == hi - lo ==> forall k :: lo <= k < hi ==> k in s
  {
    RangeSize(lo, hi);
    ElementsSize(s);
    SubsetSize(Elements(s), Range(lo, hi));
    if |s| == hi - lo {
      forall k | lo <= k < hi
        ensures k in s
      {
        assert k in Range(lo, hi) && k in Elements(s);
      }
    }
  }

  /** A permutation takes every value. */
  lemma PermutationCovers(s: seq<int>, n: nat)
    requires IsPermutation(s, n)
    ensures forall k :: 0 <= k < n ==> k in s
  {
    Pigeonhole(s, 0, n);
  }

  // ---------- sums ----------

  function Sum(s: seq<real>): real {
    if s == [] then 0.0 else s[0] + Sum(s[1..])
  }

  lemma SumTail(s: seq<real>, k: nat)
    requires k < |s|
    ensures Sum(s[k..]) == s[k] + Sum(s[k + 1..])
  {
    assert s[k..][1..] == s[k + 1..];
  }

  lemma {:induction false} SumAppend(s: seq<real>, t: seq<real>)
    ensures Sum(s + t) == Sum(s) + Sum(t)
  {
    if s == [] {
      assert s + t == t;
    } else {
      SumAppend(s[1..], t);
      assert (s + t)[1..] == s[1..] + t;
    }
  }

  lemma {:induction false} SumMonotone(s: seq<real>, t: seq<real>)
    requires |s| == |t|
    requires forall i :: 0 <= i < |s| ==> s[i] <= t[i]
    ensures Sum(s) <= Sum(t)
  {
    if s != [] {
      SumMonotone(s[1..], t[1..]);
    }
  }

  lemma {:induction false} SumPlus(s: seq<real>, t: seq<real>, both: seq<real>)
    requires |s| == |t| == |both|
    requires forall i :: 0 <= i < |s| ==> both[i] == s[i] + t[i]
    ensures Sum(both) == Sum(s) + Sum(t)
  {
    if s != [] {
      SumPlus(s[1..], t[1..], both[1..]);
    }
  }

  lemma {:induction false} SumSplit(s: seq<real>, k: nat)
    requires k <= |s|
    ensures Sum(s) == Sum(s[..k]) + Sum(s[k..])
  {
    SumAppend(s[..k], s[k..]);
    assert s == s[..k] + s[k..];
  }

  lemma {:induction false} SumWithout(s: seq<real>, k: nat)
    requires k < |s|
    ensures Sum(s) == s[k] + Sum(s[..k] + s[k + 1..])
  {
    SumSplit(s, k);
    assert s[k..][1..] == s[k + 1..];
    SumAppend(s[..k], s[k + 1..]);
  }

  /** The values of `v` in the order that `perm` visits them. */
  function Visit(v: seq<real>, perm: seq<int>): (r: seq<real>)
    requires forall i :: 0 <= i < |perm| ==> 0 <= perm[i] < |v|
    ensures |r| == |perm|
    ensures forall i :: 0 <= i < |r| ==> r[i] == v[perm[i]]
  {
    seq(|perm|, i requires 0 <= i < |perm| => v[perm[i]])
  }

  lemma WithoutTopIsPermutation(perm: seq<int>, n: nat, k: nat)
    requires IsPermutation(perm, n)
    requires k < n && perm[k] == n - 1
    ensures IsPermutation(perm[..k] + perm[k + 1..], n - 1)
  {
    var rest := perm[..k] + perm[k + 1..];
    forall i | 0 <= i < n - 1
      ensures 0 <= rest[i] < n - 1
    {
      var i' := if i < k then i else i + 1;
      assert rest[i] == perm[i'] && perm[i'] != perm[k];
    }
  }

  /** Leaving out the visit to the last term visits the others. */
  lemma VisitWithoutTop(v: seq<real>, perm: seq<int>, k: nat)
    requires IsPermutation(perm, |v|)
    requires k < |v| && perm[k] == |v| - 1
    ensures IsPermutation(perm[..k] + perm[k + 1..], |v| - 1)
    ensures Sum(Visit(v, perm)) == v[|v| - 1] + Sum(Visit(v[..|v| - 1], perm[..k] + perm[k + 1..]))
  {
    var rest, visited := perm[..k] + perm[k + 1..], Visit(v, perm);
    WithoutTopIsPermutation(perm, |v|, k);
    SumWithout(visited, k);
    assert visited[..k] + visited[k + 1..] == Visit(v[..|v| - 1], rest);
  }

  lemma {:induction false} SumLast(v: seq<real>)
    requires v != []
    ensures Sum(v) == v[|v| - 1] + Sum(v[..|v| - 1])
  {
    var n := |v|;
    SumWithout(v, n - 1);
    assert v[..n - 1] + v[n..] == v[..n - 1];
  }

  /** A sum does not depend on the order in which a permutation visits its terms. */
  lemma {:induction false} SumVisit(v: seq<real>, perm: seq<int>)
    requires IsPermutation(perm, |v|)
    ensures Sum(Visit(v, perm)) == Sum(v)
  {
    var n := |v|;
    if n == 0 {
      assert Visit(v, perm) == v;
    } else {
      PermutationCovers(perm, n);
      assert n - 1 in perm;
      var k :| 0 <= k < n && perm[k] == n - 1;
      VisitWithoutTop(v, perm, k);
      SumVisit(v[..n - 1], perm[..k] + perm[k + 1..]);
      SumLast(v);
    }
  }

  // ---------- completing a matching ----------

  lemma SizeTail(b: seq<int>, k: nat)
    requires k < |b|
    ensures Size(b[k..]) == Size(b[k + 1..]) + if b[k] == -1 then 0 else 1
  {
    assert b[k..][1..] == b[k + 1..];
  }

  lemma {:induction false} SizeUpdate(b: seq<int>, i: nat, j: int)
    requires i < |b| && b[i] == -1 && j != -1
    ensures Size(b[i := j]) == Size(b) + 1
  {
    if i > 0 {
      assert b[i := j][1..] == b[1..][i - 1 := j];
      SizeUpdate(b[1..], i - 1, j);
    } else {
      assert b[i := j][1..] == b[1..];
    }
  }

  lemma {:induction false} SizeBounds(b: seq<int>)
    ensures Size(b) <= |b|
    ensures Size(b) == |b| <==> forall i :: 0 <= i < |b| ==> b[i] != -1
  {
    if b != [] {
      SizeBounds(b[1..]);
      assert forall i :: 1 <= i < |b| ==> b[i] == b[1..][i - 1];
    }
  }

  /** Some column is free when a square matching leaves a row unmatched. */
  lemma FreeColumn(b: seq<int>, i: nat) returns (j: nat)
    requires IsMatching(b, |b|)
    requires i < |b| && b[i] == -1
    ensures j < |b| && j !in b
  {
    if forall k :: 0 <= k < |b| ==> k in b {
      Crowded(b, 0, |b|, -1);
      assert false;
    }
    j :| 0 <= j < |b| && j !in b;
  }

  /** Every square matching extends to a permutation. */
  lemma {:induction false} Complete(b: seq<int>) returns (perm: seq<int>)
    requires IsMatching(b, |b|)
    ensures IsPermutation(perm, |b|)
    ensures forall i :: 0 <= i < |b| && b[i] != -1 ==> perm[i] == b[i]
    decreases |b| - Size(b)
  {
    SizeBounds(b);
    if i :| 0 <= i < |b| && b[i] == -1 {
      var j := FreeColumn(b, i);
      SizeUpdate(b, i, j);
      SizeBounds(b[i := j]);
      perm := Complete(b[i := j]);
    } else {
      perm := b;
    }
  }
}
