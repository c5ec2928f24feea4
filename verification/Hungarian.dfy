/**
 The assignment solver of the tracker: row-by-row shortest augmenting paths with dual potentials.

 Rows and columns of the padded square matrix are numbered from 1, as in the solver's arrays;
 slot 0 of `p` holds the row that the current phase is inserting, and p[j] == 0 says that
 column j is free.
 */
module Hungarian {
  import opened Permutations

  type Matrix = seq<seq<real>>

  /** The cost of a cell that the padding adds. */
  const PAD: real := 1000000.0
  /** The initial value of `minv` and `delta`, meant to exceed every reduced cost. */
  const SENTINEL: real := 1000000000.0

  function Columns(c: Matrix): nat {
    if c == [] then 0 else |c[0]|
  }

  function Min(a: nat, b: nat): nat { if a < b then a else b }
  function Max(a: nat, b: nat): nat { if a < b then b else a }

  function Dim(c: Matrix): nat { Max(|c|, Columns(c)) }

  ghost predicate Rectangular(c: Matrix) {
    forall i :: 0 <= i < |c| ==> |c[i]| == Columns(c)
  }

  ghost predicate CostsBelow(c: Matrix, B: real) {
    forall i, j :: 0 <= i < |c| && 0 <= j < |c[i]| ==> 0.0 <= c[i][j] < B
  }

  /** Costs for which no reduced cost reaches the sentinel. */
  ghost predicate Admissible(c: Matrix) {
    CostsBelow(c, SENTINEL / 2.0)
  }

  ghost predicate Square(c: Matrix, dim: nat) {
    |c| == dim && forall i :: 0 <= i < dim ==> |c[i]| == dim
  }

  /** `sq` is `c` padded to a square. */
  ghost predicate IsPadded(c: Matrix, sq: Matrix) {
    && Rectangular(c)
    && Square(sq, Dim(c))
    && forall i, j :: 0 <= i < Dim(c) && 0 <= j < Dim(c) ==>
         sq[i][j] == if i < |c| && j < Columns(c) then c[i][j] else PAD
  }

  // ---------- what the solver is for ----------

  function Chosen(sq: Matrix, perm: seq<int>): (r: seq<real>)
    requires Square(sq, |perm|)
    requires forall i :: 0 <= i < |perm| ==> 0 <= perm[i] < |perm|
    ensures |r| == |perm|
    ensures forall i :: 0 <= i < |r| ==> r[i] == sq[i][perm[i]]
  {
    seq(|perm|, i requires 0 <= i < |perm| => sq[i][perm[i]])
  }

  /** No permutation of the padded square is cheaper than `perm`. */
  ghost predicate Cheapest(sq: Matrix, perm: seq<int>) {
    && Square(sq, |perm|)
    && IsPermutation(perm, |perm|)
    && forall other :: IsPermutation(other, |perm|) ==> Sum(Chosen(sq, perm)) <= Sum(Chosen(sq, other))
  }

  /** Row potentials `u` and column potentials `v` that certify `perm`. */
  ghost predicate Certified(sq: Matrix, perm: seq<int>, u: seq<real>, v: seq<real>) {
    var dim := |perm|;
    && Square(sq, dim) && IsPermutation(perm, dim)
    && |u| == |v| == dim
    && (forall i, j :: 0 <= i < dim && 0 <= j < dim ==> u[i] + v[j] <= sq[i][j])
    && (forall i :: 0 <= i < dim ==> u[i] + v[perm[i]] == sq[i][perm[i]])
  }

  /** Weak duality: potentials that are feasible everywhere and tight on `perm` prove it cheapest. */
  lemma CertifiedIsCheapest(sq: Matrix, perm: seq<int>, u: seq<real>, v: seq<real>)
    requires Certified(sq, perm, u, v)
    ensures Cheapest(sq, perm)
  {
    var dim := |perm|;
    forall other | IsPermutation(other, dim)
      ensures Sum(Chosen(sq, perm)) <= Sum(Chosen(sq, other))
    {
      var mine, bound := Visit(v, perm), Visit(v, other);
      SumVisit(v, perm);
      SumVisit(v, other);
      SumPlus(u, mine, Chosen(sq, perm));
      var floor := seq(dim, i requires 0 <= i < dim => u[i] + bound[i]);
      SumPlus(u, bound, floor);
      SumMonotone(floor, Chosen(sq, other));
    }
  }

  /** The part of a permutation of the padded square that lies in the real matrix. */
  function ReadOut(perm: seq<int>, n: nat, m: nat): (r: seq<int>)
    requires n <= |perm|
    ensures |r| == n
    ensures forall i :: 0 <= i < n ==> r[i] == if perm[i] < m then perm[i] else -1
  {
    seq(n, i requires 0 <= i < n => if perm[i] < m then perm[i] else -1)
  }

  /** The costs that a matching pays, row by row; an unmatched row pays `fee`. */
  function Paid(c: Matrix, b: seq<int>, fee: real): (r: seq<real>)
    requires Rectangular(c) && |b| == |c| && IsMatching(b, Columns(c))
    ensures |r| == |b|
    ensures forall i :: 0 <= i < |b| ==> r[i] == if b[i] == -1 then fee else c[i][b[i]]
  {
    seq(|b|, i requires 0 <= i < |b| => if b[i] == -1 then fee else c[i][b[i]])
  }

  /** The total cost of the pairs of a matching. */
  function TotalCost(c: Matrix, b: seq<int>): real
    requires Rectangular(c) && |b| == |c| && IsMatching(b, Columns(c))
  {
    Sum(Paid(c, b, 0.0))
  }

  // ---------- the size of a matching ----------

  /** The columns that some row is sent to. */
  function Targets(b: seq<int>): (r: set<int>)
    ensures forall j :: j in r <==> j != -1 && j in b
  {
    Elements(b) - {-1}
  }

  lemma MatchingTail(b: seq<int>, columns: nat)
    requires b != [] && IsMatching(b, columns)
    ensures IsMatching(b[1..], columns)
    ensures b[0] != -1 ==> b[0] !in b[1..]
  {
    assert forall k :: 0 <= k < |b| - 1 ==> b[1..][k] == b[k + 1];
  }

  lemma {:induction false} TargetsSize(b: seq<int>, columns: nat)
    requires IsMatching(b, columns)
    ensures |Targets(b)| == Size(b)
  {
    if b == [] {
      assert Targets(b) == {};
    } else {
      MatchingTail(b, columns);
      TargetsSize(b[1..], columns);
      TargetsStep(b);
    }
  }

  lemma TargetsStep(b: seq<int>)
    requires b != [] && (b[0] != -1 ==> b[0] !in b[1..])
    ensures |Targets(b)| == |Targets(b[1..])| + if b[0] == -1 then 0 else 1
  {
    assert b == [b[0]] + b[1..];
    if b[0] == -1 {
      assert Targets(b) == Targets(b[1..]);
    } else {
      assert Targets(b) == Targets(b[1..]) + {b[0]};
    }
  }

  /** A matching is no larger than its columns, and uses every column when it is as large. */
  lemma {:induction false} SizeAtMostColumns(b: seq<int>, columns: nat)
    requires IsMatching(b, columns)
    ensures Size(b) <= columns
    ensures Size(b) == columns <==> forall j :: 0 <= j < columns ==> j in b
  {
    TargetsSize(b, columns);
    RangeSize(0, columns);
    SubsetSize(Targets(b), Range(0, columns));
    if forall j :: 0 <= j < columns ==> j in b {
      assert Targets(b) == Range(0, columns);
    } else {
      var j :| 0 <= j < columns && j !in b;
      assert j in Range(0, columns) && j !in Targets(b);
    }
  }

  /** The read-out of a permutation is a matching that leaves exactly max(0, n - m) rows unmatched. */
  lemma ReadOutSize(perm: seq<int>, n: nat, m: nat)
    requires IsPermutation(perm, Max(n, m))
    ensures IsMatching(ReadOut(perm, n, m), m)
    ensures Size(ReadOut(perm, n, m)) == Min(n, m)
  {
    var a := ReadOut(perm, n, m);
    if n <= m {
      SizeBounds(a);
    } else {
      forall j | 0 <= j < m
        ensures j in a
      {
        PermutationCovers(perm, n);
        assert j in perm;
        var i :| 0 <= i < n && perm[i] == j;
        assert a[i] == j;
      }
      SizeAtMostColumns(a, m);
    }
  }

  // ---------- padded cost and real cost ----------

  /** The fees of the unmatched rows. */
  function Fees(b: seq<int>, fee: real): (r: seq<real>)
    ensures |r| == |b|
    ensures forall i :: 0 <= i < |b| ==> r[i] == if b[i] == -1 then fee else 0.0
  {
    seq(|b|, i requires 0 <= i < |b| => if b[i] == -1 then fee else 0.0)
  }

  lemma {:induction false} SumFees(b: seq<int>, fee: real)
    ensures Sum(Fees(b, fee)) == fee * (|b| - Size(b)) as real
  {
    if b != [] {
      SumFees(b[1..], fee);
      assert Fees(b, fee)[1..] == Fees(b[1..], fee);
      if b[0] == -1 {
        FeeStep(fee, |b| - 1 - Size(b[1..]));
      }
    }
  }

  lemma {:induction false} SumPaid(c: Matrix, b: seq<int>, fee: real)
    requires Rectangular(c) && |b| == |c| && IsMatching(b, Columns(c))
    ensures Sum(Paid(c, b, fee)) == TotalCost(c, b) + fee * (|b| - Size(b)) as real
  {
    SumPlus(Paid(c, b, 0.0), Fees(b, fee), Paid(c, b, fee));
    SumFees(b, fee);
  }

  lemma FeeStep(fee: real, count: int)
    ensures fee * (count + 1) as real == fee * count as real + fee
  {
  }

  lemma {:induction false} SumConstant(s: seq<real>, x: real)
    requires forall i :: 0 <= i < |s| ==> s[i] == x
    ensures Sum(s) == x * |s| as real
  {
    if s != [] {
      SumConstant(s[1..], x);
      FeeStep(x, |s| - 1);
    }
  }

  /** What a matching costs when every row of the square that it leaves unmatched pays the padding. */
  function PenalisedCost(c: Matrix, b: seq<int>): real
    requires Rectangular(c) && |b| == |c| && IsMatching(b, Columns(c))
  {
    TotalCost(c, b) + PAD * (Dim(c) - Size(b)) as real
  }

  lemma {:induction false} PenalisedCostAsSum(c: Matrix, b: seq<int>, rest: seq<real>)
    requires Rectangular(c) && |b| == |c| && IsMatching(b, Columns(c))
    requires |rest| == Dim(c) - |c| && forall i :: 0 <= i < |rest| ==> rest[i] == PAD
    ensures Sum(Paid(c, b, PAD) + rest) == PenalisedCost(c, b)
  {
    SumPaid(c, b, PAD);
    SumConstant(rest, PAD);
    SumAppend(Paid(c, b, PAD), rest);
    assert (|b| - Size(b)) as real + |rest| as real == (Dim(c) - Size(b)) as real;
  }

  /** A permutation of the padded square costs what its read-out costs with the padding paid. */
  lemma PaddedCost(c: Matrix, sq: Matrix, perm: seq<int>)
    requires IsPadded(c, sq) && IsPermutation(perm, Dim(c))
    ensures IsMatching(ReadOut(perm, |c|, Columns(c)), Columns(c))
    ensures Sum(Chosen(sq, perm)) == PenalisedCost(c, ReadOut(perm, |c|, Columns(c)))
  {
    var a := ReadOut(perm, |c|, Columns(c));
    ReadOutSize(perm, |c|, Columns(c));
    var rest := seq(Dim(c) - |c|, _ => PAD);
    PenalisedCostAsSum(c, a, rest);
    assert Chosen(sq, perm) == Paid(c, a, PAD) + rest;
  }

  /** Costs of cells that could take the place of padding are no dearer than the padding. */
  ghost predicate Replaceable(c: Matrix, b: seq<int>)
    requires Rectangular(c)
  {
    || Size(b) == Min(|c|, Columns(c))
    || forall i, j :: 0 <= i < |c| && 0 <= j < Columns(c) ==> c[i][j] <= PAD
  }

  /** When a matching of the largest size leaves a row unmatched, a completion sends that row to the padding. */
  lemma {:induction false} UnmatchedGoesToPadding(b: seq<int>, m: nat, perm: seq<int>, i: nat)
    requires IsMatching(b, m) && Size(b) == Min(|b|, m) && i < |b| && b[i] == -1
    requires |b| <= |perm| && IsPermutation(perm, |perm|)
    requires forall k :: 0 <= k < |b| && b[k] != -1 ==> perm[k] == b[k]
    ensures m <= perm[i]
  {
    SizeBounds(b);
    SizeAtMostColumns(b, m);
    assert perm[i] !in b;
  }

  /** Every matching can be completed to a permutation of the square at no more than its penalised cost. */
  lemma Completion(c: Matrix, sq: Matrix, b: seq<int>) returns (perm: seq<int>)
    requires IsPadded(c, sq)
    requires |b| == |c| && IsMatching(b, Columns(c)) && Replaceable(c, b)
    ensures IsPermutation(perm, Dim(c))
    ensures Sum(Chosen(sq, perm)) <= PenalisedCost(c, b)
  {
    var dim, m := Dim(c), Columns(c);
    perm := Complete(b + seq(dim - |b|, _ => -1));
    var rest := seq(dim - |c|, _ => PAD);
    var paid := Paid(c, b, PAD) + rest;
    forall i | 0 <= i < dim
      ensures Chosen(sq, perm)[i] <= paid[i]
    {
      if i < |b| && b[i] == -1 && perm[i] < m && Size(b) == Min(|c|, m) {
        UnmatchedGoesToPadding(b, m, perm, i);
        assert false;
      }
    }
    SumMonotone(Chosen(sq, perm), paid);
    PenalisedCostAsSum(c, b, rest);
  }

  /** The read-out of a cheapest permutation has the least penalised cost among the matchings. */
  lemma CheapestIsBest(c: Matrix, sq: Matrix, perm: seq<int>, b: seq<int>)
    requires IsPadded(c, sq) && |perm| == Dim(c) && Cheapest(sq, perm)
    requires |b| == |c| && IsMatching(b, Columns(c)) && Replaceable(c, b)
    ensures IsMatching(ReadOut(perm, |c|, Columns(c)), Columns(c))
    ensures PenalisedCost(c, ReadOut(perm, |c|, Columns(c))) <= PenalisedCost(c, b)
  {
    PaddedCost(c, sq, perm);
    var other := Completion(c, sq, b);
  }

  /** `a` is a matching of the largest size, and the cheapest of those. */
  ghost predicate Optimal(c: Matrix, a: seq<int>) {
    && Rectangular(c)
    && |a| == |c| && IsMatching(a, Columns(c))
    && Size(a) == Min(|c|, Columns(c))
    && forall b :: |b| == |c| && IsMatching(b, Columns(c)) && Size(b) == Size(a) ==>
         TotalCost(c, a) <= TotalCost(c, b)
  }

  lemma CheapestIsOptimal(c: Matrix, sq: Matrix, perm: seq<int>)
    requires IsPadded(c, sq) && |perm| == Dim(c) && Cheapest(sq, perm)
    ensures Optimal(c, ReadOut(perm, |c|, Columns(c)))
  {
    var a := ReadOut(perm, |c|, Columns(c));
    ReadOutSize(perm, |c|, Columns(c));
    forall b | |b| == |c| && IsMatching(b, Columns(c)) && Size(b) == Size(a)
      ensures TotalCost(c, a) <= TotalCost(c, b)
    {
      CheapestIsBest(c, sq, perm, b);
    }
  }
}
