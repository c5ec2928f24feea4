/**
 Gated association of detections (rows) and tracks (columns): a pair out of the gate costs
 as much as the solver's padding, and pairs that the solver forms out of the gate are dropped.
 */
module Association {
  import opened Permutations
  import opened Hungarian

  /** MAX_ASSOC_DIST */
  const GATE: real := 2.0

  /** Every cost is a distance inside the gate, or the padding. */
  ghost predicate IsGated(cost: Matrix) {
    && Rectangular(cost)
    && forall i, j :: 0 <= i < |cost| && 0 <= j < Columns(cost) ==>
         0.0 <= cost[i][j] < GATE || cost[i][j] == PAD
  }

  /** The pairs of an assignment that pass the gate. */
  function Accepted(cost: Matrix, a: seq<int>): (r: seq<int>)
    requires Rectangular(cost) && |a| == |cost| && IsMatching(a, Columns(cost))
    ensures |r| == |a| && IsMatching(r, Columns(cost))
    ensures forall i :: 0 <= i < |a| ==> r[i] == if a[i] != -1 && cost[i][a[i]] < GATE then a[i] else -1
  {
    seq(|a|, i requires 0 <= i < |a| => if a[i] != -1 && cost[i][a[i]] < GATE then a[i] else -1)
  }

  /** A one-to-one matching of pairs inside the gate. */
  ghost predicate IsGatedMatching(cost: Matrix, b: seq<int>) {
    && Rectangular(cost) && |b| == |cost| && IsMatching(b, Columns(cost))
    && forall i :: 0 <= i < |b| && b[i] != -1 ==> cost[i][b[i]] < GATE
  }

  /** `a` has the most pairs of all gated matchings, and the least total distance among those. */
  ghost predicate LexicographicallyBest(cost: Matrix, a: seq<int>) {
    && IsGatedMatching(cost, a)
    && forall b :: IsGatedMatching(cost, b) ==>
         && Size(b) <= Size(a)
         && (Size(b) == Size(a) ==> TotalCost(cost, a) <= TotalCost(cost, b))
  }

  lemma {:induction false} GatedCostBounds(cost: Matrix, b: seq<int>, k: nat)
    requires IsGated(cost) && IsGatedMatching(cost, b) && k <= |b|
    ensures 0.0 <= Sum(Paid(cost, b, 0.0)[k..]) <= GATE * Size(b[k..]) as real
    ensures Size(b[k..]) > 0 ==> Sum(Paid(cost, b, 0.0)[k..]) < GATE * Size(b[k..]) as real
    decreases |b| - k
  {
    if k < |b| {
      GatedCostBounds(cost, b, k + 1);
      SizeTail(b, k);
      SumTail(Paid(cost, b, 0.0), k);
      FeeStep(GATE, Size(b[k + 1..]));
    }
  }

  /** Dropping the pairs outside the gate does not change the penalised cost. */
  lemma AcceptedCost(cost: Matrix, a: seq<int>)
    requires IsGated(cost) && |a| == |cost| && IsMatching(a, Columns(cost))
    ensures PenalisedCost(cost, Accepted(cost, a)) == PenalisedCost(cost, a)
  {
    var rest := seq(Dim(cost) - |cost|, _ => PAD);
    PenalisedCostAsSum(cost, a, rest);
    PenalisedCostAsSum(cost, Accepted(cost, a), rest);
    assert Paid(cost, a, PAD) == Paid(cost, Accepted(cost, a), PAD);
  }

  /** The padding outweighs any total distance of up to 500000 pairs. */
  lemma PenaltyOrder(dim: nat, more: nat, fewer: nat, costMore: real, costFewer: real)
    requires fewer <= dim && more <= dim && GATE * more as real <= PAD && 0.0 <= costFewer
    requires more > 0 ==> costMore < GATE * more as real
    requires costMore + PAD * (dim - more) as real >= costFewer + PAD * (dim - fewer) as real
    ensures more <= fewer
  {
    assert fewer < more ==> PAD * (dim - fewer) as real >= PAD * (dim - more + 1) as real;
  }

  /**
   When no more than 500000 pairs can form, the gated read-out of a cheapest assignment is
   lexicographically best: as many pairs in the gate as possible, at the least total distance.
   */
  lemma GatedOptimum(cost: Matrix, sq: Matrix, perm: seq<int>)
    requires IsGated(cost) && IsPadded(cost, sq) && |perm| == Dim(cost) && Cheapest(sq, perm)
    requires GATE * Min(|cost|, Columns(cost)) as real <= PAD
    ensures IsMatching(ReadOut(perm, |cost|, Columns(cost)), Columns(cost))
    ensures LexicographicallyBest(cost, Accepted(cost, ReadOut(perm, |cost|, Columns(cost))))
  {
    ReadOutSize(perm, |cost|, Columns(cost));
    var a := ReadOut(perm, |cost|, Columns(cost));
    var g := Accepted(cost, a);
    forall b | IsGatedMatching(cost, b)
      ensures Size(b) <= Size(g)
      ensures Size(b) == Size(g) ==> TotalCost(cost, g) <= TotalCost(cost, b)
    {
      CheapestIsBest(cost, sq, perm, b);
      AcceptedCost(cost, a);
      GatedCostBounds(cost, b, 0);
      GatedCostBounds(cost, g, 0);
      assert b[0..] == b && g[0..] == g;
      assert Paid(cost, b, 0.0)[0..] == Paid(cost, b, 0.0) && Paid(cost, g, 0.0)[0..] == Paid(cost, g, 0.0);
      SizeBounds(b);
      SizeBounds(g);
      SizeAtMostColumns(b, Columns(cost));
      PenaltyOrder(Dim(cost), Size(b), Size(g), TotalCost(cost, b), TotalCost(cost, g));
    }
  }
}
