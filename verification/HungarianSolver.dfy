/**
 `Hungarian::Solve` step by step: the scan and the dual shift of one search iteration, the
 search of one phase, the augmenting walk back along `way`, and the loop over the rows.
 */
module HungarianSolver {
  import opened Permutations
  import opened Hungarian

  // ---------- the state between the phases ----------

  /** The reduced cost of row r and column j, both counted from 1. */
  function Slack(c: Matrix, u: seq<real>, v: seq<real>, r: int, j: int): real
    requires Square(c, |c|) && |u| == |v| == |c| + 1
    requires 1 <= r <= |c| && 1 <= j <= |c|
  {
    c[r - 1][j - 1] - u[r] - v[j]
  }

  /** Dual feasibility, with the signs that the solver keeps. */
  ghost predicate Feasible(c: Matrix, u: seq<real>, v: seq<real>) {
    && Square(c, |c|) && |u| == |v| == |c| + 1
    && (forall r, j :: 1 <= r <= |c| && 1 <= j <= |c| ==> Slack(c, u, v, r, j) >= 0.0)
    && (forall r :: 1 <= r <= |c| ==> u[r] >= 0.0)
    && (forall j :: 1 <= j <= |c| ==> v[j] <= 0.0)
  }

  /** Row r has a column other than `hole`. */
  ghost predicate Placed(p: seq<int>, r: int, hole: int) {
    exists j :: 0 <= j < |p| && j != hole && p[j] == r
  }

  /** Apart from the column `hole`, the slots of `p` hold each of the rows 1..i exactly once, or no row. */
  ghost predicate Holds(p: seq<int>, i: int, hole: int) {
    && 0 <= i < |p| && 0 <= hole < |p|
    && (forall j :: 0 <= j < |p| && j != hole ==> 0 <= p[j] <= i)
    && (forall j, k :: 0 <= j < k < |p| && j != hole && k != hole && p[j] != 0 ==> p[j] != p[k])
    && (forall r :: 1 <= r <= i ==> Placed(p, r, hole))
  }

  /** Apart from `hole`, matched columns are tight (complementary slackness) and free columns have v == 0. */
  ghost predicate Tight(c: Matrix, u: seq<real>, v: seq<real>, p: seq<int>, hole: int)
    requires Square(c, |c|) && |u| == |v| == |p| == |c| + 1
    requires forall j :: 0 <= j <= |c| && j != hole ==> 0 <= p[j] <= |c|
  {
    forall j :: 1 <= j <= |c| && j != hole ==>
      if p[j] == 0 then v[j] == 0.0 else Slack(c, u, v, p[j], j) == 0.0
  }

  ghost predicate Matched(c: Matrix, u: seq<real>, v: seq<real>, p: seq<int>, i: int, hole: int) {
    && Feasible(c, u, v) && |p| == |c| + 1
    && Holds(p, i, hole) && Tight(c, u, v, p, hole)
  }

  /** While fewer rows are matched than there are columns, some column is free. */
  lemma FreeColumnExists(c: Matrix, u: seq<real>, v: seq<real>, p: seq<int>, i: int) returns (f: nat)
    requires Matched(c, u, v, p, i, 0) && i < |c|
    ensures 1 <= f <= |c| && p[f] == 0
  {
    if forall j :: 1 <= j <= |c| ==> p[j] != 0 {
      Pigeonhole(p[1..], 1, i + 1);
      assert false;
    }
    f :| 1 <= f <= |c| && p[f] == 0;
  }

  /**
   With costs below B, a free column bounds every potential by B, so that every reduced
   cost is below 2B.
   */
  lemma PotentialBounds(c: Matrix, u: seq<real>, v: seq<real>, p: seq<int>, i: int, f: int, B: real)
    requires Matched(c, u, v, p, i, 0) && CostsBelow(c, B)
    requires 1 <= f <= |c| && p[f] == 0
    ensures forall r :: 1 <= r <= |c| ==> 0.0 <= u[r] < B
    ensures forall j :: 1 <= j <= |c| ==> -B < v[j] <= 0.0
    ensures forall r, j :: 1 <= r <= |c| && 1 <= j <= |c| ==> 0.0 <= Slack(c, u, v, r, j) < 2.0 * B
  {
    assert 0.0 <= c[0][0] < B;
    forall r | 1 <= r <= |c|
      ensures 0.0 <= u[r] < B
    {
      assert Slack(c, u, v, r, f) >= 0.0;
    }
    forall j | 1 <= j <= |c|
      ensures -B < v[j] <= 0.0
    {
      if p[j] != 0 {
        assert Slack(c, u, v, p[j], j) == 0.0;
      }
    }
  }

  // ---------- the state of one search ----------

  /** Columns enter the alternating tree in the order of `tree`; `used` marks them. */
  ghost predicate Marks(used: seq<bool>, tree: seq<int>) {
    && (forall j :: 0 <= j < |used| ==> (used[j] <==> j in tree))
    && (forall k :: 0 <= k < |tree| ==> 0 <= tree[k] < |used|)
    && Distinct(tree)
  }

  /** `way` sends the k-th column of the tree to an earlier one, whose row it is tight with. */
  ghost predicate Linked(c: Matrix, u: seq<real>, v: seq<real>, p: seq<int>, way: seq<int>, tree: seq<int>, k: int)
    requires Square(c, |c|) && |u| == |v| == |p| == |way| == |c| + 1
    requires forall l :: 0 <= l < |tree| ==> 0 <= tree[l] <= |c|
    requires 0 <= k < |tree|
  {
    var j := tree[k];
    && 1 <= j && 0 <= way[j] <= |c|
    && way[j] in tree[..k]
    && 1 <= p[way[j]] <= |c|
    && Slack(c, u, v, p[way[j]], j) == 0.0
  }

  /** The tree of columns grown from slot 0. */
  ghost predicate IsTree(c: Matrix, u: seq<real>, v: seq<real>, p: seq<int>, way: seq<int>, tree: seq<int>) {
    && Square(c, |c|) && |u| == |v| == |p| == |way| == |c| + 1
    && Distinct(tree)
    && (forall k :: 0 <= k < |tree| ==> 0 <= tree[k] <= |c|)
    && (tree != [] ==> tree[0] == 0)
    && (forall k {:trigger Linked(c, u, v, p, way, tree, k)} :: 1 <= k < |tree| ==> Linked(c, u, v, p, way, tree, k))
  }

  /** Column j outside the tree knows its least reduced cost from the tree, and where it comes from. */
  ghost predicate Reached(c: Matrix, u: seq<real>, v: seq<real>, p: seq<int>, way: seq<int>, minv: seq<real>,
                          tree: seq<int>, j: int)
    requires Square(c, |c|) && |u| == |v| == |p| == |way| == |minv| == |c| + 1
    requires 1 <= j <= |c|
    requires forall k :: 0 <= k < |tree| ==> 0 <= tree[k] <= |c| && 1 <= p[tree[k]] <= |c|
  {
    && way[j] in tree
    && minv[j] == Slack(c, u, v, p[way[j]], j)
    && forall k :: 0 <= k < |tree| ==> minv[j] <= Slack(c, u, v, p[tree[k]], j)
  }

  /** The invariant of the search: i is the row being inserted, sitting in slot 0. */
  ghost predicate Searching(c: Matrix, u: seq<real>, v: seq<real>, p: seq<int>, way: seq<int>, minv: seq<real>,
                            used: seq<bool>, i: int, tree: seq<int>) {
    && 1 <= i <= |c|
    && Matched(c, u, v, p, i - 1, 0) && p[0] == i
    && |way| == |minv| == |used| == |c| + 1
    && Marks(used, tree)
    && IsTree(c, u, v, p, way, tree)
    && (forall k :: 0 <= k < |tree| ==> 1 <= p[tree[k]] <= i)
    && (tree == [] ==> forall j :: 1 <= j <= |c| ==> minv[j] == SENTINEL)
    && (tree != [] ==> forall j {:trigger Reached(c, u, v, p, way, minv, tree, j)} ::
          1 <= j <= |c| && j !in tree ==> Reached(c, u, v, p, way, minv, tree, j))
  }

  // ---------- one search iteration ----------

  /** What the scan leaves in `minv` and `way`: unused columns take the row of j0 when it is cheaper. */
  ghost predicate Scanned(c: Matrix, u: seq<real>, v: seq<real>, row: int, j0: int, used: seq<bool>,
                          way: seq<int>, minv: seq<real>, way': seq<int>, minv': seq<real>)
    requires Square(c, |c|) && |u| == |v| == |c| + 1 && 1 <= row <= |c|
    requires |used| == |way| == |minv| == |way'| == |minv'| == |c| + 1
  {
    forall j :: 0 <= j <= |c| ==>
      if 1 <= j && !used[j] && Slack(c, u, v, row, j) < minv[j]
      then minv'[j] == Slack(c, u, v, row, j) && way'[j] == j0
      else minv'[j] == minv[j] && way'[j] == way[j]
  }

  /** Column k is marked, lies before column `bound`, and holds row r. */
  ghost predicate Touched(p: seq<int>, used: seq<bool>, bound: int, r: int) {
    exists k :: 0 <= k < bound && k < |p| && k < |used| && used[k] && p[k] == r
  }

  /** What the dual shift leaves: tree rows gain delta, tree columns lose it, `minv` follows the others. */
  ghost predicate Shifted(p: seq<int>, used: seq<bool>, delta: real, bound: int,
                          u: seq<real>, v: seq<real>, minv: seq<real>,
                          u': seq<real>, v': seq<real>, minv': seq<real>)
    requires |p| == |used| == |u| == |v| == |minv| == |u'| == |v'| == |minv'|
  {
    && (forall r :: 0 <= r < |u| ==> u'[r] == u[r] + if Touched(p, used, bound, r) then delta else 0.0)
    && (forall j :: 0 <= j < |v| ==> v'[j] == v[j] - if j < bound && used[j] then delta else 0.0)
    && (forall j :: 0 <= j < |v| ==> minv'[j] == minv[j] - if j < bound && !used[j] then delta else 0.0)
  }

  lemma MarkNext(used: seq<bool>, tree: seq<int>, j0: int)
    requires Marks(used, tree) && 0 <= j0 < |used| && j0 !in tree
    ensures Marks(used[j0 := true], tree + [j0])
  {
  }

  lemma TreeNext(c: Matrix, u: seq<real>, v: seq<real>, p: seq<int>, way: seq<int>, tree: seq<int>,
                 j0: int, way': seq<int>)
    requires IsTree(c, u, v, p, way, tree) && |way'| == |way|
    requires 0 <= j0 <= |c| && j0 !in tree
    requires forall j :: 0 <= j <= |c| && (j in tree || j == j0) ==> way'[j] == way[j]
    requires tree == [] ==> j0 == 0
    requires tree != [] ==>
      1 <= j0 && way[j0] in tree && 1 <= p[way[j0]] <= |c| && Slack(c, u, v, p[way[j0]], j0) == 0.0
    ensures IsTree(c, u, v, p, way', tree + [j0])
  {
    var tree' := tree + [j0];
    forall k | 1 <= k < |tree'|
      ensures Linked(c, u, v, p, way', tree', k)
    {
      assert tree'[..k] == tree[..k];
      if k == |tree| {
        assert tree[..k] == tree;
      } else {
        assert Linked(c, u, v, p, way, tree, k);
        assert tree[k] in tree;
      }
    }
  }

  lemma ReachedNext(c: Matrix, u: seq<real>, v: seq<real>, p: seq<int>, way: seq<int>, minv: seq<real>,
                    tree: seq<int>, j0: int, way': seq<int>, minv': seq<real>, j: int)
    requires Square(c, |c|) && |u| == |v| == |p| == |way| == |minv| == |way'| == |minv'| == |c| + 1
    requires 1 <= j <= |c|
    requires forall k :: 0 <= k < |tree| ==> 0 <= tree[k] <= |c| && 1 <= p[tree[k]] <= |c|
    requires 0 <= j0 <= |c| && 1 <= p[j0] <= |c|
    requires if tree == [] then Slack(c, u, v, p[j0], j) < minv[j] else Reached(c, u, v, p, way, minv, tree, j)
    requires if Slack(c, u, v, p[j0], j) < minv[j]
             then minv'[j] == Slack(c, u, v, p[j0], j) && way'[j] == j0
             else minv'[j] == minv[j] && way'[j] == way[j]
    ensures Reached(c, u, v, p, way', minv', tree + [j0], j)
  {
    var tree' := tree + [j0];
    assert tree'[|tree|] == j0;
  }

  /** After the scan, column j0 belongs to the tree. */
  lemma AfterScan(c: Matrix, u: seq<real>, v: seq<real>, p: seq<int>, way: seq<int>, minv: seq<real>,
                  used: seq<bool>, i: int, tree: seq<int>, j0: int, way': seq<int>, minv': seq<real>)
    requires Searching(c, u, v, p, way, minv, used, i, tree)
    requires 0 <= j0 <= |c| && j0 !in tree && 1 <= p[j0] <= i
    requires if tree == [] then j0 == 0 else 1 <= j0 && minv[j0] == 0.0
    requires |way'| == |minv'| == |c| + 1
    requires Scanned(c, u, v, p[j0], j0, used[j0 := true], way, minv, way', minv')
    requires tree == [] ==> forall j :: 1 <= j <= |c| ==> Slack(c, u, v, p[j0], j) < SENTINEL
    ensures Searching(c, u, v, p, way', minv', used[j0 := true], i, tree + [j0])
  {
    var used', tree' := used[j0 := true], tree + [j0];
    MarkNext(used, tree, j0);
    if tree != [] {
      assert Reached(c, u, v, p, way, minv, tree, j0);
    }
    assert forall j :: 0 <= j <= |c| && (j in tree || j == j0) ==> used'[j];
    TreeNext(c, u, v, p, way, tree, j0, way');
    forall j | 1 <= j <= |c| && j !in tree'
      ensures Reached(c, u, v, p, way', minv', tree', j)
    {
      assert j !in tree && !used'[j];
      ReachedNext(c, u, v, p, way, minv, tree, j0, way', minv', j);
    }
  }

  /** Row r sits in a column of the tree. */
  ghost predicate InTree(p: seq<int>, tree: seq<int>, r: int) {
    exists k :: 0 <= k < |tree| && 0 <= tree[k] < |p| && p[tree[k]] == r
  }

  lemma TouchedIffInTree(p: seq<int>, used: seq<bool>, tree: seq<int>, r: int)
    requires Marks(used, tree) && |p| == |used|
    ensures Touched(p, used, |used|, r) <==> InTree(p, tree, r)
  {
    if Touched(p, used, |used|, r) {
      var j :| 0 <= j < |p| && used[j] && p[j] == r;
      assert j in tree;
      var k :| 0 <= k < |tree| && tree[k] == j;
      assert p[tree[k]] == r;
    }
    if InTree(p, tree, r) {
      var k :| 0 <= k < |tree| && p[tree[k]] == r;
      assert used[tree[k]];
    }
  }

  /** A matched column is in the tree exactly when its row is. */
  lemma TreeRows(p: seq<int>, i: int, tree: seq<int>, j: int)
    requires 1 <= i && Holds(p, i - 1, 0) && p[0] == i && 1 <= j < |p| && p[j] != 0
    requires forall k :: 0 <= k < |tree| ==> 0 <= tree[k] < |p|
    ensures InTree(p, tree, p[j]) <==> j in tree
  {
    if InTree(p, tree, p[j]) {
      var k :| 0 <= k < |tree| && p[tree[k]] == p[j];
      assert tree[k] == j;
    }
    if j in tree {
      var k :| 0 <= k < |tree| && tree[k] == j;
      assert p[tree[k]] == p[j];
    }
  }

  /** The potentials after a shift by delta along the tree. */
  ghost predicate ShiftedAlong(p: seq<int>, tree: seq<int>, delta: real,
                               u: seq<real>, v: seq<real>, u': seq<real>, v': seq<real>) {
    && |p| == |u| == |v| == |u'| == |v'|
    && (forall r :: 0 <= r < |u| ==> u'[r] == u[r] + if InTree(p, tree, r) then delta else 0.0)
    && (forall j :: 0 <= j < |v| ==> v'[j] == v[j] - if j in tree then delta else 0.0)
  }

  lemma ShiftKeepsFeasible(c: Matrix, u: seq<real>, v: seq<real>, p: seq<int>, tree: seq<int>, delta: real,
                           u': seq<real>, v': seq<real>)
    requires Feasible(c, u, v) && |p| == |c| + 1 && 0.0 <= delta
    requires ShiftedAlong(p, tree, delta, u, v, u', v')
    requires forall r, j :: 1 <= r <= |c| && 1 <= j <= |c| && InTree(p, tree, r) && j !in tree ==>
      delta <= Slack(c, u, v, r, j)
    ensures Feasible(c, u', v')
  {
    forall r, j | 1 <= r <= |c| && 1 <= j <= |c|
      ensures Slack(c, u', v', r, j) >= 0.0
    {
      assert Slack(c, u, v, r, j) >= 0.0;
    }
  }

  lemma ShiftKeepsTight(c: Matrix, u: seq<real>, v: seq<real>, p: seq<int>, i: int, tree: seq<int>, delta: real,
                        u': seq<real>, v': seq<real>)
    requires Square(c, |c|) && |u| == |v| == |p| == |c| + 1
    requires 1 <= i <= |c| && Holds(p, i - 1, 0) && p[0] == i && Tight(c, u, v, p, 0)
    requires ShiftedAlong(p, tree, delta, u, v, u', v')
    requires forall k :: 0 <= k < |tree| ==> 0 <= tree[k] <= |c| && p[tree[k]] != 0
    ensures Tight(c, u', v', p, 0)
  {
    forall j | 1 <= j <= |c|
      ensures if p[j] == 0 then v'[j] == 0.0 else Slack(c, u', v', p[j], j) == 0.0
    {
      if p[j] == 0 {
        assert j !in tree;
      } else {
        TreeRows(p, i, tree, j);
      }
    }
  }

  lemma ShiftKeepsTree(c: Matrix, u: seq<real>, v: seq<real>, p: seq<int>, way: seq<int>, tree: seq<int>,
                       delta: real, u': seq<real>, v': seq<real>)
    requires IsTree(c, u, v, p, way, tree)
    requires ShiftedAlong(p, tree, delta, u, v, u', v')
    ensures IsTree(c, u', v', p, way, tree)
  {
    forall k | 1 <= k < |tree|
      ensures Linked(c, u', v', p, way, tree, k)
    {
      assert Linked(c, u, v, p, way, tree, k);
      var l :| 0 <= l < k && tree[l] == way[tree[k]];
      assert InTree(p, tree, p[tree[l]]);
    }
  }

  lemma ShiftKeepsReached(c: Matrix, u: seq<real>, v: seq<real>, p: seq<int>, way: seq<int>, minv: seq<real>,
                          tree: seq<int>, delta: real, u': seq<real>, v': seq<real>, minv': seq<real>, j: int)
    requires Square(c, |c|) && |u| == |v| == |p| == |way| == |minv| == |minv'| == |c| + 1
    requires 1 <= j <= |c| && j !in tree
    requires forall k :: 0 <= k < |tree| ==> 0 <= tree[k] <= |c| && 1 <= p[tree[k]] <= |c|
    requires Reached(c, u, v, p, way, minv, tree, j)
    requires ShiftedAlong(p, tree, delta, u, v, u', v') && minv'[j] == minv[j] - delta
    ensures Reached(c, u', v', p, way, minv', tree, j)
  {
    forall k | 0 <= k < |tree|
      ensures Slack(c, u', v', p[tree[k]], j) == Slack(c, u, v, p[tree[k]], j) - delta
    {
      assert InTree(p, tree, p[tree[k]]);
    }
    var l :| 0 <= l < |tree| && tree[l] == way[j];
    assert Slack(c, u', v', p[tree[l]], j) == Slack(c, u, v, p[tree[l]], j) - delta;
  }

  /** The dual shift keeps feasibility, the matching, the tree and what is known of the other columns. */
  lemma AfterShift(c: Matrix, u: seq<real>, v: seq<real>, p: seq<int>, way: seq<int>, minv: seq<real>,
                   used: seq<bool>, i: int, tree: seq<int>, delta: real, j1: int,
                   u': seq<real>, v': seq<real>, minv': seq<real>)
    requires Searching(c, u, v, p, way, minv, used, i, tree) && tree != []
    requires 1 <= j1 <= |c| && !used[j1] && delta == minv[j1]
    requires |u'| == |v'| == |minv'| == |c| + 1
    requires Shifted(p, used, delta, |used|, u, v, minv, u', v', minv')
    requires 0.0 <= delta
    requires forall j :: 1 <= j <= |c| && !used[j] ==> delta <= minv[j]
    ensures Searching(c, u', v', p, way, minv', used, i, tree)
    ensures j1 !in tree && minv'[j1] == 0.0
  {
    forall r ensures Touched(p, used, |used|, r) <==> InTree(p, tree, r) {
      TouchedIffInTree(p, used, tree, r);
    }
    assert ShiftedAlong(p, tree, delta, u, v, u', v');
    forall r, j | 1 <= r <= |c| && 1 <= j <= |c| && InTree(p, tree, r) && j !in tree
      ensures delta <= Slack(c, u, v, r, j)
    {
      assert Reached(c, u, v, p, way, minv, tree, j);
    }
    ShiftKeepsFeasible(c, u, v, p, tree, delta, u', v');
    ShiftKeepsTight(c, u, v, p, i, tree, delta, u', v');
    ShiftKeepsTree(c, u, v, p, way, tree, delta, u', v');
    forall j | 1 <= j <= |c| && j !in tree
      ensures Reached(c, u', v', p, way, minv', tree, j)
    {
      assert minv'[j] == minv[j] - delta;
      ShiftKeepsReached(c, u, v, p, way, minv, tree, delta, u', v', minv', j);
    }
  }

  /** The first inner loop: relaxes the unused columns from column j0 and picks the nearest one. */
  method Scan(c: Matrix, u: array<real>, v: array<real>, p: array<int>, way: array<int>, minv: array<real>,
              used: array<bool>, j0: int, ghost f: int) returns (delta: real, j1: int)
    requires Square(c, |c|)
    requires u.Length == v.Length == p.Length == way.Length == minv.Length == used.Length == |c| + 1
    requires way != p && minv != u && minv != v
    requires 0 <= j0 <= |c| && 1 <= p[j0] <= |c|
    requires 1 <= f <= |c| && !used[f] && Slack(c, u[..], v[..], p[j0], f) < SENTINEL
    modifies way, minv
    ensures Scanned(c, u[..], v[..], p[j0], j0, used[..], old(way[..]), old(minv[..]), way[..], minv[..])
    ensures 1 <= j1 <= |c| && !used[j1] && delta == minv[j1]
    ensures forall j :: 1 <= j <= |c| && !used[j] ==> delta <= minv[j]
  {
    var i0 := p[j0];
    j1 := 0;
    delta := SENTINEL;
    var j := 1;
    while j <= |c|
      invariant 1 <= j <= |c| + 1
      invariant forall k :: 0 <= k <= |c| ==>
        if 1 <= k < j && !used[k] && Slack(c, u[..], v[..], i0, k) < old(minv[k])
        then minv[k] == Slack(c, u[..], v[..], i0, k) && way[k] == j0
        else minv[k] == old(minv[k]) && way[k] == old(way[k])
      invariant forall k :: 1 <= k < j && !used[k] ==> delta <= minv[k]
      invariant if j1 == 0 then delta == SENTINEL else 1 <= j1 < j && !used[j1] && delta == minv[j1] && delta < SENTINEL
    {
      if !used[j] {
        var cur := c[i0 - 1][j - 1] - u[i0] - v[j];
        if cur < minv[j] {
          minv[j] := cur;
          way[j] := j0;
        }
        if minv[j] < delta {
          delta := minv[j];
          j1 := j;
        }
      }
      j := j + 1;
    }
    assert minv[f] <= Slack(c, u[..], v[..], i0, f);
  }

  /** The second inner loop: shifts the potentials of the tree by delta. */
  method Shift(u: array<real>, v: array<real>, p: array<int>, minv: array<real>, used: array<bool>, delta: real)
    requires u.Length == v.Length == p.Length == minv.Length == used.Length
    requires u != v && u != minv && v != minv
    requires forall j :: 0 <= j < p.Length && used[j] ==> 1 <= p[j] < p.Length
    requires forall j, k :: 0 <= j < k < p.Length && used[j] && used[k] ==> p[j] != p[k]
    modifies u, v, minv
    ensures Shifted(p[..], used[..], delta, used.Length, old(u[..]), old(v[..]), old(minv[..]), u[..], v[..], minv[..])
  {
    var j := 0;
    while j < p.Length
      invariant 0 <= j <= p.Length
      invariant Shifted(p[..], used[..], delta, j, old(u[..]), old(v[..]), old(minv[..]), u[..], v[..], minv[..])
    {
      assert used[j] ==> !Touched(p[..], used[..], j, p[j]);
      assert forall r :: Touched(p[..], used[..], j + 1, r) <==>
               Touched(p[..], used[..], j, r) || (used[j] && p[j] == r) by {
        TouchedStep(p[..], used[..], j);
      }
      if used[j] {
        u[p[j]] := u[p[j]] + delta;
        v[j] := v[j] - delta;
      } else {
        minv[j] := minv[j] - delta;
      }
      j := j + 1;
    }
  }

  lemma TouchedStep(p: seq<int>, used: seq<bool>, j: nat)
    requires j < |p| == |used|
    ensures forall r :: Touched(p, used, j + 1, r) <==> Touched(p, used, j, r) || (used[j] && p[j] == r)
  {
    if used[j] {
      assert Touched(p, used, j + 1, p[j]);
    }
  }

  /** While a column f is free, no reduced cost of an admissible matrix reaches the sentinel. */
  lemma BeforeScan(c: Matrix, u: seq<real>, v: seq<real>, p: seq<int>, way: seq<int>, minv: seq<real>,
                   used: seq<bool>, i: int, tree: seq<int>, j0: int, f: int)
    requires Searching(c, u, v, p, way, minv, used, i, tree) && Admissible(c)
    requires 0 <= j0 <= |c| && p[j0] != 0 && 1 <= f <= |c| && p[f] == 0
    ensures 1 <= p[j0] <= i && f != j0 && !used[f]
    ensures forall j :: 1 <= j <= |c| ==> Slack(c, u, v, p[j0], j) < SENTINEL
  {
    PotentialBounds(c, u, v, p, i - 1, f, SENTINEL / 2.0);
  }

  /** The columns of the tree hold distinct rows, and the nearest column outside it is no nearer than 0. */
  lemma BeforeShift(c: Matrix, u: seq<real>, v: seq<real>, p: seq<int>, way: seq<int>, minv: seq<real>,
                    used: seq<bool>, i: int, tree: seq<int>, j1: int)
    requires Searching(c, u, v, p, way, minv, used, i, tree) && tree != []
    requires 1 <= j1 <= |c| && !used[j1]
    ensures forall j :: 0 <= j <= |c| && used[j] ==> 1 <= p[j] <= |c|
    ensures forall j, k :: 0 <= j < k <= |c| && used[j] && used[k] ==> p[j] != p[k]
    ensures 0.0 <= minv[j1]
  {
    assert Reached(c, u, v, p, way, minv, tree, j1);
    forall j | 0 <= j <= |c| && used[j]
      ensures 1 <= p[j] <= i
    {
      var k :| 0 <= k < |tree| && tree[k] == j;
    }
  }

  /** Marks column j0 and scans from it: the column joins the tree. */
  method Join(c: Matrix, u: array<real>, v: array<real>, p: array<int>, way: array<int>, minv: array<real>,
              used: array<bool>, ghost i: int, j0: int, ghost tree: seq<int>, ghost f: int)
    returns (delta: real, j1: int)
    requires Square(c, |c|) && Admissible(c)
    requires u.Length == v.Length == p.Length == way.Length == minv.Length == used.Length == |c| + 1
    requires way != p && minv != u && minv != v
    requires Searching(c, u[..], v[..], p[..], way[..], minv[..], used[..], i, tree)
    requires 0 <= j0 <= |c| && j0 !in tree && p[j0] != 0
    requires if tree == [] then j0 == 0 else 1 <= j0 && minv[j0] == 0.0
    requires 1 <= f <= |c| && p[f] == 0
    modifies way, minv, used
    ensures Searching(c, u[..], v[..], p[..], way[..], minv[..], used[..], i, tree + [j0])
    ensures 1 <= j1 <= |c| && !used[j1] && delta == minv[j1]
    ensures forall j :: 1 <= j <= |c| && !used[j] ==> delta <= minv[j]
  {
    ghost var way0, minv0, used0 := way[..], minv[..], used[..];
    BeforeScan(c, u[..], v[..], p[..], way0, minv0, used0, i, tree, j0, f);
    used[j0] := true;
    assert used[..] == used0[j0 := true];
    delta, j1 := Scan(c, u, v, p, way, minv, used, j0, f);
    AfterScan(c, u[..], v[..], p[..], way0, minv0, used0, i, tree, j0, way[..], minv[..]);
  }

  /** Shifts the potentials so that the nearest column becomes tight with the tree. */
  method Tighten(c: Matrix, u: array<real>, v: array<real>, p: array<int>, ghost way: array<int>, minv: array<real>,
                 used: array<bool>, delta: real, ghost i: int, ghost tree: seq<int>, ghost j1: int)
    requires Square(c, |c|)
    requires u.Length == v.Length == p.Length == way.Length == minv.Length == used.Length == |c| + 1
    requires u != v && minv != u && minv != v
    requires Searching(c, u[..], v[..], p[..], way[..], minv[..], used[..], i, tree) && tree != []
    requires 1 <= j1 <= |c| && !used[j1] && delta == minv[j1]
    requires forall j :: 1 <= j <= |c| && !used[j] ==> delta <= minv[j]
    modifies u, v, minv
    ensures Searching(c, u[..], v[..], p[..], way[..], minv[..], used[..], i, tree)
    ensures j1 !in tree && minv[j1] == 0.0
  {
    ghost var u0, v0, p0, way0, minv0, used0 := u[..], v[..], p[..], way[..], minv[..], used[..];
    BeforeShift(c, u0, v0, p0, way0, minv0, used0, i, tree, j1);
    Shift(u, v, p, minv, used, delta);
    AfterShift(c, u0, v0, p0, way0, minv0, used0, i, tree, delta, j1, u[..], v[..], minv[..]);
  }

  /** A column outside the tree is still to be used, so the search cannot go on for ever. */
  lemma TreeFits(used: seq<bool>, tree: seq<int>, j0: int)
    requires Marks(used, tree) && 0 <= j0 < |used| && j0 !in tree
    ensures |tree| < |used|
  {
    Pigeonhole(tree, 0, |used|);
  }

  /** The column that the search stops at extends the tree. */
  lemma Arrived(c: Matrix, u: seq<real>, v: seq<real>, p: seq<int>, way: seq<int>, minv: seq<real>,
                used: seq<bool>, i: int, tree: seq<int>, j0: int)
    requires Searching(c, u, v, p, way, minv, used, i, tree) && tree != []
    requires 1 <= j0 <= |c| && j0 !in tree && minv[j0] == 0.0
    ensures IsTree(c, u, v, p, way, tree + [j0])
  {
    assert Reached(c, u, v, p, way, minv, tree, j0);
    TreeNext(c, u, v, p, way, tree, j0, way);
  }

  /**
   The first do-while loop of a phase: grows the tree from the row i in slot 0 until it
   reaches a free column, which it returns. The potentials stay feasible, the rows matched
   so far stay matched and tight, and `way` leads from the free column back to slot 0.
   */
  method Search(c: Matrix, u: array<real>, v: array<real>, p: array<int>, way: array<int>, ghost i: int)
    returns (j0: int, ghost tree: seq<int>)
    requires Square(c, |c|) && Admissible(c)
    requires u.Length == v.Length == p.Length == way.Length == |c| + 1
    requires way != p && u != v
    requires 1 <= i <= |c| && p[0] == i && Matched(c, u[..], v[..], p[..], i - 1, 0)
    modifies u, v, way
    ensures Matched(c, u[..], v[..], p[..], i - 1, 0)
    ensures 1 <= j0 <= |c| && p[j0] == 0
    ensures tree != [] && j0 !in tree && IsTree(c, u[..], v[..], p[..], way[..], tree + [j0])
  {
    var dim := |c|;
    var minv := new real[dim + 1](_ => SENTINEL);
    var used := new bool[dim + 1](_ => false);
    j0 := 0;
    tree := [];
    ghost var f := FreeColumnExists(c, u[..], v[..], p[..], i - 1);
    while true
      invariant fresh(minv) && fresh(used) && minv.Length == used.Length == dim + 1
      invariant Searching(c, u[..], v[..], p[..], way[..], minv[..], used[..], i, tree)
      invariant 0 <= j0 <= dim && j0 !in tree && p[j0] != 0
      invariant if tree == [] then j0 == 0 else 1 <= j0 && minv[j0] == 0.0
      decreases dim + 1 - |tree|
    {
      TreeFits(used[..], tree, j0);
      var delta, j1 := Join(c, u, v, p, way, minv, used, i, j0, tree, f);
      tree := tree + [j0];
      Tighten(c, u, v, p, way, minv, used, delta, i, tree, j1);
      j0 := j1;
      if p[j0] == 0 {
        break;
      }
    }
    Arrived(c, u[..], v[..], p[..], way[..], minv[..], used[..], i, tree, j0);
  }

  // ---------- the augmenting walk ----------

  /** Filling the hole with the row of another column moves the hole to that column. */
  lemma HoleMoves(c: Matrix, u: seq<real>, v: seq<real>, p: seq<int>, i: int, h: int, h': int)
    requires Matched(c, u, v, p, i, h) && 1 <= h <= |c| && 0 <= h' <= |c| && h' != h
    requires 1 <= p[h'] <= |c| && Slack(c, u, v, p[h'], h) == 0.0
    ensures Matched(c, u, v, p[h := p[h']], i, h')
  {
    var q := p[h := p[h']];
    forall r | 1 <= r <= i
      ensures Placed(q, r, h')
    {
      assert Placed(p, r, h);
      var j :| 0 <= j < |p| && j != h && p[j] == r;
      assert q[if j == h' then h else j] == r;
    }
  }

  /** Row i sits in slot 0, so a free column can serve as the hole. */
  lemma HoleOpens(c: Matrix, u: seq<real>, v: seq<real>, p: seq<int>, i: int, f: int)
    requires 1 <= i <= |c| && Matched(c, u, v, p, i - 1, 0) && p[0] == i
    requires 1 <= f <= |c| && p[f] == 0
    ensures Matched(c, u, v, p, i, f)
  {
    forall r | 1 <= r <= i
      ensures Placed(p, r, f)
    {
      if r < i {
        assert Placed(p, r, 0);
      } else {
        assert p[0] == r;
      }
    }
  }

  /**
   The second do-while loop of a phase: walks from the free column back along `way`, moving
   each row one column on. Row i is matched and no other row loses its place.
   */
  method Augment(ghost c: Matrix, ghost u: seq<real>, ghost v: seq<real>, p: array<int>, way: array<int>,
                 ghost i: int, f: int, ghost tree: seq<int>)
    requires 1 <= i <= |c| == p.Length - 1 && way.Length == p.Length && way != p
    requires Matched(c, u, v, p[..], i - 1, 0) && p[0] == i
    requires 1 <= f <= |c| && p[f] == 0
    requires tree != [] && f !in tree && IsTree(c, u, v, p[..], way[..], tree + [f])
    modifies p
    ensures Matched(c, u, v, p[..], i, 0)
  {
    ghost var q, path := p[..], tree + [f];
    HoleOpens(c, u, v, p[..], i, f);
    var j0 := f;
    ghost var t := |tree|;
    while true
      invariant 1 <= t < |path| && path[t] == j0 && 1 <= j0 <= |c|
      invariant Matched(c, u, v, p[..], i, j0)
      invariant forall k :: 0 <= k < t ==> p[path[k]] == q[path[k]]
      decreases t
    {
      assert Linked(c, u, v, q, way[..], path, t);
      var j1 := way[j0];
      ghost var s :| 0 <= s < t && path[s] == j1;
      HoleMoves(c, u, v, p[..], i, j0, j1);
      p[j0] := p[j1];
      t := s;
      j0 := j1;
      if j0 == 0 {
        break;
      }
    }
  }

  // ---------- the solver ----------

  /** Lines up the real matrix in the top left corner of a square of padding. */
  method Pad(c: Matrix) returns (sq: Matrix)
    requires Rectangular(c)
    ensures IsPadded(c, sq)
  {
    var n, m, dim := |c|, Columns(c), Dim(c);
    sq := seq(dim, _ => seq(dim, _ => PAD));
    var i := 0;
    while i < n
      invariant 0 <= i <= n
      invariant Square(sq, dim)
      invariant forall r, j :: 0 <= r < dim && 0 <= j < dim ==> sq[r][j] == if r < i && j < m then c[r][j] else PAD
    {
      var row := sq[i];
      var j := 0;
      while j < m
        invariant 0 <= j <= m
        invariant |row| == dim
        invariant forall k :: 0 <= k < dim ==> row[k] == if k < j then c[i][k] else PAD
      {
        row := row[j := c[i][j]];
        j := j + 1;
      }
      sq := sq[i := row];
      i := i + 1;
    }
  }

  /** All rows are matched: no column is free, and each row has exactly one column. */
  lemma AllMatched(p: seq<int>, dim: nat)
    requires |p| == dim + 1 && Holds(p, dim, 0)
    ensures forall j :: 1 <= j <= dim ==> 1 <= p[j] <= dim
  {
    forall r | 1 <= r <= dim
      ensures r in p[1..]
    {
      assert Placed(p, r, 0);
      var j :| 0 <= j < |p| && j != 0 && p[j] == r;
      assert p[1..][j - 1] == r;
    }
    forall j | 1 <= j <= dim
      ensures p[j] != 0
    {
      if p[j] == 0 {
        assert p[1..][j - 1] == 0;
        Crowded(p[1..], 1, dim + 1, 0);
        assert false;
      }
    }
  }

  /** The column, counted from 0, that holds row r, counted from 0. */
  ghost function ColumnOf(p: seq<int>, r: int): (j: int)
    requires Placed(p, r + 1, 0)
    ensures 0 <= j < |p| - 1 && p[j + 1] == r + 1
  {
    var k :| 0 <= k < |p| && k != 0 && p[k] == r + 1;
    k - 1
  }

  /** The permutation from rows to columns that a complete matching stands for. */
  ghost function RowsToColumns(p: seq<int>, dim: nat): (perm: seq<int>)
    requires |p| == dim + 1 && Holds(p, dim, 0)
    ensures IsPermutation(perm, dim)
    ensures forall r :: 0 <= r < dim ==> p[perm[r] + 1] == r + 1
  {
    assert forall r :: 1 <= r <= dim ==> Placed(p, r, 0);
    seq(dim, r requires 0 <= r < dim && Placed(p, r + 1, 0) => ColumnOf(p, r))
  }

  /** What the solver leaves behind as a proof of its answer. */
  datatype Certificate = Certificate(square: Matrix, perm: seq<int>, rows: seq<real>, columns: seq<real>)

  /**
   The answer is the read-out of a permutation of the padded square that feasible potentials
   certify as a cheapest one.
   */
  ghost predicate Proves(w: Certificate, c: Matrix, assignment: seq<int>) {
    && IsPadded(c, w.square) && |w.perm| == Dim(c)
    && Certified(w.square, w.perm, w.rows, w.columns)
    && assignment == ReadOut(w.perm, |c|, Columns(c))
  }

  lemma FinalFeasible(c: Matrix, u: seq<real>, v: seq<real>, rows: seq<real>, columns: seq<real>)
    requires Feasible(c, u, v) && rows == u[1..] && columns == v[1..]
    ensures forall i, j :: 0 <= i < |c| && 0 <= j < |c| ==> rows[i] + columns[j] <= c[i][j]
  {
    forall i, j | 0 <= i < |c| && 0 <= j < |c|
      ensures rows[i] + columns[j] <= c[i][j]
    {
      assert Slack(c, u, v, i + 1, j + 1) >= 0.0;
    }
  }

  lemma FinalTight(c: Matrix, u: seq<real>, v: seq<real>, p: seq<int>, perm: seq<int>,
                   rows: seq<real>, columns: seq<real>)
    requires Square(c, |c|) && |u| == |v| == |p| == |c| + 1
    requires Holds(p, |c|, 0) && Tight(c, u, v, p, 0)
    requires perm == RowsToColumns(p, |c|) && rows == u[1..] && columns == v[1..]
    ensures forall i :: 0 <= i < |c| ==> rows[i] + columns[perm[i]] == c[i][perm[i]]
  {
    forall i | 0 <= i < |c|
      ensures rows[i] + columns[perm[i]] == c[i][perm[i]]
    {
      assert p[perm[i] + 1] == i + 1;
      assert Slack(c, u, v, i + 1, perm[i] + 1) == 0.0;
    }
  }

  /** The final potentials certify the final matching. */
  lemma Certify(c: Matrix, sq: Matrix, u: seq<real>, v: seq<real>, p: seq<int>) returns (w: Certificate)
    requires IsPadded(c, sq) && Matched(sq, u, v, p, |sq|, 0)
    ensures w == Certificate(sq, RowsToColumns(p, |sq|), u[1..], v[1..])
    ensures Proves(w, c, ReadOut(w.perm, |c|, Columns(c)))
  {
    w := Certificate(sq, RowsToColumns(p, |sq|), u[1..], v[1..]);
    FinalFeasible(sq, u, v, w.rows, w.columns);
    FinalTight(sq, u, v, p, w.perm, w.rows, w.columns);
  }

  lemma ProvenIsOptimal(w: Certificate, c: Matrix, assignment: seq<int>)
    requires Proves(w, c, assignment)
    ensures Cheapest(w.square, w.perm) && Optimal(c, assignment)
  {
    CertifiedIsCheapest(w.square, w.perm, w.rows, w.columns);
    CheapestIsOptimal(c, w.square, w.perm);
  }

  /** The last loop: reads the columns of the real rows out of `p`. */
  method Read(p: array<int>, n: nat, m: nat) returns (assignment: seq<int>)
    requires p.Length == Max(n, m) + 1 && Holds(p[..], Max(n, m), 0)
    ensures assignment == ReadOut(RowsToColumns(p[..], Max(n, m)), n, m)
  {
    var dim := Max(n, m);
    ghost var perm := RowsToColumns(p[..], dim);
    AllMatched(p[..], dim);
    assignment := seq(n, _ => -1);
    var j := 1;
    while j <= dim
      invariant 1 <= j <= dim + 1 && |assignment| == n
      invariant forall r :: 0 <= r < n ==>
        assignment[r] == if perm[r] < j - 1 && perm[r] < m then perm[r] else -1
    {
      assert forall r :: 0 <= r < dim && perm[r] == j - 1 ==> p[j] == r + 1;
      assert perm[p[j] - 1] == j - 1;
      if p[j] <= n && j <= m {
        assignment := assignment[p[j] - 1 := j - 1];
      }
      j := j + 1;
    }
  }

  /** Slot 0 is not a column: writing it changes nothing about the matching. */
  lemma SlotZero(c: Matrix, u: seq<real>, v: seq<real>, p: seq<int>, i: int, row: int)
    requires Matched(c, u, v, p, i, 0)
    ensures Matched(c, u, v, p[0 := row], i, 0)
  {
    var q := p[0 := row];
    forall r | 1 <= r <= i
      ensures Placed(q, r, 0)
    {
      assert Placed(p, r, 0);
      var j :| 0 <= j < |p| && j != 0 && p[j] == r;
      assert q[j] == r;
    }
  }

  /** The loop over the rows: each phase matches one more row and keeps the earlier ones matched. */
  method MatchRows(cost: Matrix) returns (p: array<int>, ghost u: seq<real>, ghost v: seq<real>)
    requires Square(cost, |cost|) && Admissible(cost)
    ensures Matched(cost, u, v, p[..], |cost|, 0)
  {
    var dim := |cost|;
    var rows, columns := new real[dim + 1](_ => 0.0), new real[dim + 1](_ => 0.0);
    p := new int[dim + 1](_ => 0);
    var way := new int[dim + 1](_ => 0);
    var i := 1;
    while i <= dim
      invariant 1 <= i <= dim + 1
      invariant Matched(cost, rows[..], columns[..], p[..], i - 1, 0)
    {
      SlotZero(cost, rows[..], columns[..], p[..], i - 1, i);
      ghost var q := p[..];
      p[0] := i;
      assert p[..] == q[0 := i];
      var j0, tree := Search(cost, rows, columns, p, way, i);
      Augment(cost, rows[..], columns[..], p, way, i, j0, tree);
      i := i + 1;
    }
    u, v := rows[..], columns[..];
  }

  lemma PaddedIsAdmissible(c: Matrix, sq: Matrix)
    requires IsPadded(c, sq) && Admissible(c)
    ensures Admissible(sq)
  {
  }

  /**
   The whole solver. Its answer is a matching of the largest size, cheapest among those,
   together with the dual certificate that the phases build.
   */
  method Solve(costMatrix: Matrix) returns (assignment: seq<int>, ghost w: Certificate)
    requires Rectangular(costMatrix) && Admissible(costMatrix)
    ensures Proves(w, costMatrix, assignment)
    ensures Optimal(costMatrix, assignment)
  {
    var n := |costMatrix|;
    if n == 0 {
      assignment, w := [], Certificate([], [], [], []);
    } else {
      var m := |costMatrix[0]|;
      var cost := Pad(costMatrix);
      PaddedIsAdmissible(costMatrix, cost);
      var p, u, v := MatchRows(cost);
      w := Certify(costMatrix, cost, u, v, p[..]);
      assignment := Read(p, n, m);
    }
    ProvenIsOptimal(w, costMatrix, assignment);
  }
}
