/** Greedy suppression of overlapping detections. */
module Suppression {
  import opened Overlap
  import opened Lists

  datatype Position = Position(x: real, y: real)
  /** Extent of a detection; only the first two entries enter the overlap. */
  datatype Size = Size(lx: real, ly: real, lz: real, cz: real)

  /** Boxes clash when they overlap above the threshold. */
  function Clashes(threshold: real): Test {
    (a: Rect, b: Rect) => IoU(a, b) > threshold
  }

  function Boxes(dets: seq<Position>, sizes: seq<Size>): (r: seq<Rect>)
    requires |dets| <= |sizes|
    ensures |r| == |dets|
    ensures forall i :: 0 <= i < |r| ==> r[i] == Rect(dets[i].x, dets[i].y, sizes[i].lx, sizes[i].ly)
  {
    seq(|dets|, i requires 0 <= i < |dets| => Rect(dets[i].x, dets[i].y, sizes[i].lx, sizes[i].ly))
  }

  /** Box i is kept when no box kept before it clashes with it. */
  ghost predicate Kept(test: Test, boxes: seq<Rect>, i: nat)
    requires i < |boxes|
  {
    forall k: nat :: k < i && Kept(test, boxes, k) ==> !test(boxes[k], boxes[i])
  }

  /** The kept boxes before n, in order. */
  ghost function KeepList(test: Test, boxes: seq<Rect>, n: nat): seq<int>
    requires n <= |boxes|
  {
    if n == 0 then []
    else KeepList(test, boxes, n - 1) + if Kept(test, boxes, n - 1) then [n - 1] else []
  }

  function Pick<T>(items: seq<T>, indices: seq<int>): (r: seq<T>)
    requires forall k :: 0 <= k < |indices| ==> 0 <= indices[k] < |items|
    ensures |r| == |indices|
    ensures forall k :: 0 <= k < |r| ==> r[k] == items[indices[k]]
  {
    seq(|indices|, k requires 0 <= k < |indices| => items[indices[k]])
  }

  lemma {:induction false} KeepListIsIncreasing(test: Test, boxes: seq<Rect>, n: nat)
    requires n <= |boxes|
    ensures forall k :: 0 <= k < |KeepList(test, boxes, n)| ==> 0 <= KeepList(test, boxes, n)[k] < n
    ensures forall k, l :: 0 <= k < l < |KeepList(test, boxes, n)| ==>
              KeepList(test, boxes, n)[k] < KeepList(test, boxes, n)[l]
    ensures forall i: nat :: i < n ==> (i in KeepList(test, boxes, n) <==> Kept(test, boxes, i))
  {
    if n > 0 {
      KeepListIsIncreasing(test, boxes, n - 1);
    }
  }

  /**
   The result of the suppression is an order-preserving selection, with no clash
   between its members, and maximal: each box left out clashes with an earlier kept one.
   */
  lemma {:induction false} SelectionIsMaximal(test: Test, boxes: seq<Rect>)
    ensures var keep := KeepList(test, boxes, |boxes|);
            && (forall k :: 0 <= k < |keep| ==> 0 <= keep[k] < |boxes|)
            && (forall k, l :: 0 <= k < l < |keep| ==> keep[k] < keep[l] && !test(boxes[keep[k]], boxes[keep[l]]))
            && (forall i: nat :: i < |boxes| && i !in keep ==>
                  exists k :: 0 <= k < |keep| && keep[k] < i && test(boxes[keep[k]], boxes[i]))
  {
    var keep := KeepList(test, boxes, |boxes|);
    KeepListIsIncreasing(test, boxes, |boxes|);
    forall k, l | 0 <= k < l < |keep|
      ensures !test(boxes[keep[k]], boxes[keep[l]])
    {
      assert keep[k] in keep && keep[l] in keep;
      assert Kept(test, boxes, keep[k]) && Kept(test, boxes, keep[l]);
    }
    forall i: nat | i < |boxes| && i !in keep
      ensures exists k :: 0 <= k < |keep| && keep[k] < i && test(boxes[keep[k]], boxes[i])
    {
      var j: nat :| j < i && Kept(test, boxes, j) && test(boxes[j], boxes[i]);
      assert j in keep;
      var k :| 0 <= k < |keep| && keep[k] == j;
    }
  }

  function UpTo(n: nat): (r: seq<int>)
    ensures |r| == n && forall k :: 0 <= k < n ==> r[k] == k
  {
    seq(n, k => k)
  }

  lemma {:induction false} NothingToSuppress(test: Test, boxes: seq<Rect>, n: nat)
    requires n <= |boxes|
    requires forall k, l :: 0 <= k < l < |boxes| ==> !test(boxes[k], boxes[l])
    ensures KeepList(test, boxes, n) == UpTo(n)
  {
    if n > 0 {
      NothingToSuppress(test, boxes, n - 1);
    }
  }

  /** A second run keeps everything that the first run kept. */
  lemma {:induction false} SuppressionIsIdempotent(test: Test, boxes: seq<Rect>)
    ensures var keep := KeepList(test, boxes, |boxes|);
            && (forall k :: 0 <= k < |keep| ==> 0 <= keep[k] < |boxes|)
            && KeepList(test, Pick(boxes, keep), |keep|) == UpTo(|keep|)
  {
    SelectionIsMaximal(test, boxes);
    NothingToSuppress(test, Pick(boxes, KeepList(test, boxes, |boxes|)), |KeepList(test, boxes, |boxes|)|);
  }

  /** Some kept box before `bound` clashes with box j. */
  ghost predicate Struck(test: Test, boxes: seq<Rect>, bound: nat, j: nat)
    requires bound <= |boxes| && j < |boxes|
  {
    exists k: nat :: k < bound && Kept(test, boxes, k) && test(boxes[k], boxes[j])
  }

  /** The flags of the boxes from `lo` to `hi` say whether a kept box before `bound` clashes with them. */
  ghost predicate FlagsStruck(test: Test, boxes: seq<Rect>, bound: nat, removed: seq<bool>, lo: int, hi: int)
    requires bound <= |boxes| == |removed|
  {
    forall l: nat :: lo <= l < hi && l < |boxes| ==> (removed[l] <==> Struck(test, boxes, bound, l))
  }

  /** Striking out box j when the kept box i clashes with it. */
  lemma {:induction false} FlagStep(test: Test, boxes: seq<Rect>, i: nat, removed: seq<bool>, j: nat)
    requires i < j < |boxes| == |removed| && Kept(test, boxes, i)
    requires FlagsStruck(test, boxes, i + 1, removed, i + 1, j) && FlagsStruck(test, boxes, i, removed, j, |boxes|)
    ensures var removed' := if test(boxes[i], boxes[j]) then removed[j := true] else removed;
            && FlagsStruck(test, boxes, i + 1, removed', i + 1, j + 1)
            && FlagsStruck(test, boxes, i, removed', j + 1, |boxes|)
  {
    StruckStep(test, boxes, i, j);
  }

  method IsClash(dets: seq<Position>, sizes: seq<Size>, threshold: real, i: nat, j: nat) returns (hit: bool)
    requires |dets| <= |sizes| && i < |dets| && j < |dets|
    ensures hit <==> Clashes(threshold)(Boxes(dets, sizes)[i], Boxes(dets, sizes)[j])
  {
    var iou := IoU(Rect(dets[i].x, dets[i].y, sizes[i].lx, sizes[i].ly),
                   Rect(dets[j].x, dets[j].y, sizes[j].lx, sizes[j].ly));
    hit := iou > threshold;
  }

  /** The inner loop: box i, which is kept, strikes out the later boxes that it overlaps above the threshold. */
  method StrikeOut(dets: seq<Position>, sizes: seq<Size>, threshold: real, i: nat, removed: array<bool>,
                   ghost test: Test, ghost boxes: seq<Rect>)
    requires |dets| <= |sizes| && test == Clashes(threshold) && boxes == Boxes(dets, sizes)
    requires i < |dets| == removed.Length && Kept(test, boxes, i)
    requires FlagsStruck(test, boxes, i, removed[..], i + 1, |dets|)
    modifies removed
    ensures FlagsStruck(test, boxes, i + 1, removed[..], i + 1, |dets|)
  {
    var j := i + 1;
    while j < |dets|
      invariant i + 1 <= j <= |dets|
      invariant FlagsStruck(test, boxes, i + 1, removed[..], i + 1, j)
      invariant FlagsStruck(test, boxes, i, removed[..], j, |dets|)
    {
      FlagStep(test, boxes, i, removed[..], j);
      if !removed[j] {
        var hit := IsClash(dets, sizes, threshold, i, j);
        if hit {
          removed[j] := true;
        }
      }
      j := j + 1;
    }
  }

  /** The outer loop: the indices that are kept. */
  method Select(dets: seq<Position>, sizes: seq<Size>, threshold: real) returns (keep: seq<int>)
    requires |dets| <= |sizes|
    ensures keep == KeepList(Clashes(threshold), Boxes(dets, sizes), |dets|)
  {
    ghost var test, boxes := Clashes(threshold), Boxes(dets, sizes);
    var n := |dets|;
    var removed := new bool[n](_ => false);
    keep := [];
    var i := 0;
    while i < n
      invariant 0 <= i <= n
      invariant keep == KeepList(test, boxes, i)
      invariant FlagsStruck(test, boxes, i, removed[..], i, n)
    {
      KeepNext(test, boxes, i, removed[..]);
      if !removed[i] {
        keep := keep + [i];
        StrikeOut(dets, sizes, threshold, i, removed, test, boxes);
      }
      i := i + 1;
    }
  }

  function BoxAt(dets: seq<Position>, sizes: seq<Size>, i: int): Rect
    requires 0 <= i < |dets| <= |sizes|
  {
    Rect(dets[i].x, dets[i].y, sizes[i].lx, sizes[i].ly)
  }

  /** Box i has more than the share t of the union in common with no earlier kept box. */
  ghost predicate IsClear(dets: seq<Position>, sizes: seq<Size>, t: real, keep: seq<int>, i: int)
    requires 0 <= i < |dets| <= |sizes|
  {
    forall k :: k in keep && 0 <= k < i ==> !Exceeds(BoxAt(dets, sizes, k), BoxAt(dets, sizes, i), t)
  }

  /** The greedy selection, by areas: exactly the boxes that are clear of the earlier kept ones, in order. */
  ghost predicate IsGreedy(dets: seq<Position>, sizes: seq<Size>, t: real, keep: seq<int>)
    requires |dets| <= |sizes|
  {
    && Ascending(keep) && (forall k :: k in keep ==> 0 <= k < |dets|)
    && forall i :: 0 <= i < |dets| ==> (i in keep <==> IsClear(dets, sizes, t, keep, i))
  }

  lemma {:induction false} KeptIffClear(dets: seq<Position>, sizes: seq<Size>, t: real, keep: seq<int>, i: nat)
    requires |dets| <= |sizes| && i < |dets|
    requires forall k: nat :: k < |dets| ==> (k in keep <==> Kept(Clashes(t), Boxes(dets, sizes), k))
    ensures Kept(Clashes(t), Boxes(dets, sizes), i) <==> IsClear(dets, sizes, t, keep, i)
  {
    forall k | 0 <= k < i
      ensures Clashes(t)(Boxes(dets, sizes)[k], Boxes(dets, sizes)[i]) <==>
              Exceeds(BoxAt(dets, sizes, k), BoxAt(dets, sizes, i), t)
    {
      IoUAbove(BoxAt(dets, sizes, k), BoxAt(dets, sizes, i), t);
    }
  }

  lemma {:induction false} KeepListIsGreedy(dets: seq<Position>, sizes: seq<Size>, t: real)
    requires |dets| <= |sizes|
    ensures IsGreedy(dets, sizes, t, KeepList(Clashes(t), Boxes(dets, sizes), |dets|))
  {
    var keep := KeepList(Clashes(t), Boxes(dets, sizes), |dets|);
    KeepListIsIncreasing(Clashes(t), Boxes(dets, sizes), |dets|);
    forall i: nat | i < |dets|
      ensures i in keep <==> IsClear(dets, sizes, t, keep, i)
    {
      KeptIffClear(dets, sizes, t, keep, i);
    }
  }

  /** The suppression: rewrites both vectors to the kept entries. */
  method ApplyNMS(dets: seq<Position>, sizes: seq<Size>, threshold: real)
    returns (dets': seq<Position>, sizes': seq<Size>, keep: seq<int>)
    requires |dets| <= |sizes|
    ensures keep == KeepList(Clashes(threshold), Boxes(dets, sizes), |dets|)
    ensures forall k :: 0 <= k < |keep| ==> 0 <= keep[k] < |dets|
    ensures IsGreedy(dets, sizes, threshold, keep)
    ensures dets' == Pick(dets, keep) && sizes' == Pick(sizes, keep)
  {
    keep := Select(dets, sizes, threshold);
    KeepListIsIncreasing(Clashes(threshold), Boxes(dets, sizes), |dets|);
    KeepListIsGreedy(dets, sizes, threshold);
    dets', sizes' := [], [];
    var k := 0;
    while k < |keep|
      invariant 0 <= k <= |keep|
      invariant dets' == Pick(dets, keep[..k]) && sizes' == Pick(sizes, keep[..k])
    {
      PickNext(dets, keep, k);
      PickNext(sizes, keep, k);
      dets', sizes' := dets' + [dets[keep[k]]], sizes' + [sizes[keep[k]]];
      k := k + 1;
    }
    assert keep[..k] == keep;
  }

  /** The flag of box i says whether it is kept; a box that is not kept changes no flag. */
  lemma KeepNext(test: Test, boxes: seq<Rect>, i: nat, removed: seq<bool>)
    requires i < |boxes| == |removed| && FlagsStruck(test, boxes, i, removed, i, |boxes|)
    ensures removed[i] <==> !Kept(test, boxes, i)
    ensures KeepList(test, boxes, i + 1) == KeepList(test, boxes, i) + if removed[i] then [] else [i]
    ensures FlagsStruck(test, boxes, i, removed, i + 1, |boxes|)
    ensures removed[i] ==> FlagsStruck(test, boxes, i + 1, removed, i + 1, |boxes|)
  {
    StruckOrKept(test, boxes, i);
  }

  lemma PickNext<T>(items: seq<T>, indices: seq<int>, k: nat)
    requires k < |indices| && forall l :: 0 <= l < |indices| ==> 0 <= indices[l] < |items|
    ensures Pick(items, indices[..k + 1]) == Pick(items, indices[..k]) + [items[indices[k]]]
  {
  }

  /** A box is kept unless a kept box strikes it, and a box that is not kept strikes none. */
  lemma {:induction false} StruckOrKept(test: Test, boxes: seq<Rect>, i: nat)
    requires i < |boxes|
    ensures Struck(test, boxes, i, i) <==> !Kept(test, boxes, i)
    ensures !Kept(test, boxes, i) ==>
              forall l: nat :: l < |boxes| ==> (Struck(test, boxes, i, l) <==> Struck(test, boxes, i + 1, l))
  {
    forall l: nat | l < |boxes| && !Kept(test, boxes, i)
      ensures Struck(test, boxes, i, l) <==> Struck(test, boxes, i + 1, l)
    {
      StruckStep(test, boxes, i, l);
    }
  }

  lemma StruckStep(test: Test, boxes: seq<Rect>, i: nat, j: nat)
    requires i < |boxes| && j < |boxes|
    ensures Struck(test, boxes, i + 1, j) <==>
            Struck(test, boxes, i, j) || (Kept(test, boxes, i) && test(boxes[i], boxes[j]))
  {
    if Struck(test, boxes, i + 1, j) {
      var k: nat :| k < i + 1 && Kept(test, boxes, k) && test(boxes[k], boxes[j]);
      assert k < i ==> Struck(test, boxes, i, j);
    }
  }
}
