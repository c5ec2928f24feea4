/** The clustering loop: queue-driven expansion with visited and clustered flags, and the extents of the clusters. */
module DbscanClustering {
  import opened DensityReach
  import opened SmallMatrices
  import opened DetectedObjects
  import opened Lists

  /** The largest finite value of a 32-bit float. */
  const FLT_MAX: real := 340282346638528859811704183484516925440.0

  datatype Point = Point(x: real, y: real, z: real)
  datatype Span = Span(lo: real, hi: real)
  datatype Extent = Extent(x: Span, y: Span, z: Span)

  predicate Finite(v: real) { -FLT_MAX <= v <= FLT_MAX }

  predicate FinitePoint(p: Point) { Finite(p.x) && Finite(p.y) && Finite(p.z) }

  // ---------- extents ----------

  /** The least and the greatest of the values, or the start values when there are none. */
  ghost predicate TightSpan(s: Span, values: set<real>) {
    if values == {} then s == Span(FLT_MAX, -FLT_MAX)
    else s.lo in values && s.hi in values && forall v :: v in values ==> s.lo <= v <= s.hi
  }

  function Widened(s: Span, v: real): Span {
    Span(if v < s.lo then v else s.lo, if v > s.hi then v else s.hi)
  }

  lemma WidenedIsTight(s: Span, values: set<real>, v: real)
    requires TightSpan(s, values) && Finite(v) && forall w :: w in values ==> Finite(w)
    ensures TightSpan(Widened(s, v), values + {v})
  {
  }

  ghost predicate TightExtent(b: Extent, points: seq<Point>, cluster: set<int>)
    requires forall i :: i in cluster ==> 0 <= i < |points|
  {
    && TightSpan(b.x, set i | i in cluster :: points[i].x)
    && TightSpan(b.y, set i | i in cluster :: points[i].y)
    && TightSpan(b.z, set i | i in cluster :: points[i].z)
  }

  const EMPTY_EXTENT := Extent(Span(FLT_MAX, -FLT_MAX), Span(FLT_MAX, -FLT_MAX), Span(FLT_MAX, -FLT_MAX))

  lemma GrowExtent(b: Extent, points: seq<Point>, cluster: set<int>, i: int)
    requires forall k :: 0 <= k < |points| ==> FinitePoint(points[k])
    requires forall k :: k in cluster ==> 0 <= k < |points|
    requires 0 <= i < |points| && TightExtent(b, points, cluster)
    ensures TightExtent(Extent(Widened(b.x, points[i].x), Widened(b.y, points[i].y), Widened(b.z, points[i].z)),
                     points, cluster + {i})
  {
    var xs := set k | k in cluster :: points[k].x;
    var ys := set k | k in cluster :: points[k].y;
    var zs := set k | k in cluster :: points[k].z;
    assert (set k | k in cluster + {i} :: points[k].x) == xs + {points[i].x};
    assert (set k | k in cluster + {i} :: points[k].y) == ys + {points[i].y};
    assert (set k | k in cluster + {i} :: points[k].z) == zs + {points[i].z};
    WidenedIsTight(b.x, xs, points[i].x);
    WidenedIsTight(b.y, ys, points[i].y);
    WidenedIsTight(b.z, zs, points[i].z);
  }

  // ---------- detections ----------

  function Length(s: Span): real { s.hi - s.lo }
  function Middle(s: Span): real { (s.lo + s.hi) / 2.0 }

  /** Neither ground, nor a thin plate in the air, nor too tall or flat, nor the vehicle itself, nor too wide. */
  predicate Kept(b: Extent) {
    var lx, ly, lz := Length(b.x), Length(b.y), Length(b.z);
    && !(-10.0 < Middle(b.x) < 10.0 && b.z.hi < -0.3)
    && !(lz <= 0.25 && b.z.lo > 0.7)
    && !(lz > 4.0 || lz < 0.1)
    && !(b.x.hi < 3.0 && b.x.lo > -2.0 && b.y.hi < 1.0 && b.y.lo > -1.0)
    && !(lx > 13.0 || ly > 13.0 || (lx > 2.8 && ly > 2.8))
  }

  function Detected(b: Extent): Detection {
Detection(Vec2(b.x.lo, b.y.lo + Length(b.y) * 0.5),
              Box(Middle(b.x), Middle(b.y), Middle(b.z), Length(b.x), Length(b.y), Length(b.z)))
  }

  /** The detections of the extents that are kept, in order. */
  function Detections(extents: seq<Extent>): seq<Detection> {
    if extents == [] then []
    else
      var last := extents[|extents| - 1];
      Detections(extents[..|extents| - 1]) + if Kept(last) then [Detected(last)] else []
  }

  // ---------- the loop invariants ----------

  /** Visited core points have their neighbours in a cluster, and clustered points are visited. */
  ghost predicate Settled(nb: Neighbours, visited: seq<bool>, clustered: seq<bool>) {
    && |visited| == |clustered| == |nb|
    && (forall y :: 0 <= y < |nb| && clustered[y] ==> visited[y])
    && (forall c, y {:trigger CoreNeighbour(nb, c, y)} ::
          CoreNeighbour(nb, c, y) && visited[c] ==> 0 <= y < |nb| && clustered[y])
  }

  /** While the queue is not empty, neighbours of visited core points may still be waiting in it. */
  ghost predicate Settling(nb: Neighbours, visited: seq<bool>, clustered: seq<bool>, q: seq<int>) {
    && |visited| == |clustered| == |nb|
    && (forall y :: 0 <= y < |nb| && clustered[y] ==> visited[y])
    && (forall c, y {:trigger CoreNeighbour(nb, c, y)} ::
          CoreNeighbour(nb, c, y) && visited[c] ==> 0 <= y < |nb| && (clustered[y] || y in q))
  }

  /** The flags agree with the clusters so far and the one being grown. */
  ghost predicate Flags(clustered: seq<bool>, clusters: seq<set<int>>, grown: set<int>) {
    && (forall y :: 0 <= y < |clustered| ==> (clustered[y] <==> InSome(clusters, y) || y in grown))
    && (forall y :: InSome(clusters, y) || y in grown ==> 0 <= y < |clustered|)
    && (forall y :: y in grown ==> !InSome(clusters, y))
  }

  ghost predicate AllNear(nb: Neighbours, seed: int, ys: seq<int>) {
    forall y :: y in ys ==> 0 <= y < |nb| && Near(nb, seed, y)
  }

  lemma SettledIsClosed(nb: Neighbours, visited: seq<bool>, clustered: seq<bool>)
    requires Settled(nb, visited, clustered)
    ensures Closed(nb, visited)
  {
    forall c, y | CoreNeighbour(nb, c, y) && visited[c]
      ensures 0 <= y < |nb| && visited[y]
    {
      assert clustered[y];
    }
  }

  /** The points connected to an unvisited core point are unvisited, and so in no cluster. */
  lemma FreshComponent(nb: Neighbours, visited: seq<bool>, clustered: seq<bool>, seed: int, c: int)
    requires IsNeighbourhood(nb) && Settled(nb, visited, clustered)
    requires Core(nb, seed) && !visited[seed] && Connected(nb, seed, c) && Core(nb, c)
    ensures !visited[c] && !clustered[c]
  {
    SettledIsClosed(nb, visited, clustered);
    ConnectedIsSymmetric(nb, seed, c);
    if visited[c] {
      ClosedUnderConnected(nb, visited, c, seed);
    }
  }

  /** When the queue has run empty, the grown set is a whole cluster of its seed. */
  lemma GrowthIsComplete(nb: Neighbours, visited: seq<bool>, clustered: seq<bool>, clusters: seq<set<int>>,
                         seed: int, grown: set<int>, visited': seq<bool>, clustered': seq<bool>)
    requires IsNeighbourhood(nb) && Settled(nb, visited, clustered) && Flags(clustered, clusters, {})
    requires Core(nb, seed) && !visited[seed]
    requires Settled(nb, visited', clustered') && visited'[seed] && Flags(clustered', clusters, grown)
    requires forall y :: y in grown ==> 0 <= y < |nb| && Near(nb, seed, y)
    ensures GrownFrom(nb, grown, seed)
  {
    SettledIsClosed(nb, visited', clustered');
    forall c | Core(nb, c) && Connected(nb, seed, c)
      ensures c in grown
    {
      FreshComponent(nb, visited, clustered, seed, c);
      ClosedUnderConnected(nb, visited', seed, c);
      assert CoreNeighbour(nb, c, c) && clustered'[c];
    }
    ConnectedToItself(nb, seed);
  }

  /** Visiting a core point and queueing its neighbours. */
  lemma VisitStep(nb: Neighbours, visited: seq<bool>, clustered: seq<bool>, curr: int, rest: seq<int>, pushed: seq<int>)
    requires IsNeighbourhood(nb) && 0 <= curr < |nb| && Settling(nb, visited, clustered, [curr] + rest)
    requires if !visited[curr] && Core(nb, curr) then pushed == nb[curr] else pushed == []
    ensures Settling(nb, visited[curr := true], clustered[curr := true], rest + pushed)
  {
    var visited', clustered' := visited[curr := true], clustered[curr := true];
    forall y | 0 <= y < |nb| && clustered'[y]
      ensures visited'[y]
    {
      assert y == curr || clustered[y];
    }
    forall c, y | CoreNeighbour(nb, c, y) && visited'[c]
      ensures 0 <= y < |nb| && (clustered'[y] || y in rest + pushed)
    {
      if visited[c] {
        assert clustered[y] || y in [curr] + rest;
      } else {
        assert c == curr && y in pushed;
      }
    }
  }

  /** The neighbours of a visited core point that is connected to the seed are near the seed. */
  lemma QueueStaysNear(nb: Neighbours, seed: int, curr: int, rest: seq<int>, pushed: seq<int>)
    requires IsNeighbourhood(nb) && Core(nb, seed)
    requires AllNear(nb, seed, [curr] + rest)
    requires pushed == [] || (Core(nb, curr) && pushed == nb[curr])
    ensures 0 <= curr < |nb| && Near(nb, seed, curr)
    ensures AllNear(nb, seed, rest + pushed)
  {
    assert curr in [curr] + rest;
    if pushed != [] {
      var b :| Connected(nb, seed, b) && CoreNeighbour(nb, b, curr);
      ConnectedExtends(nb, seed, b, curr);
    }
    forall y | y in rest + pushed
      ensures 0 <= y < |nb| && Near(nb, seed, y)
    {
      if y in rest {
        assert y in [curr] + rest;
      }
    }
  }

  /** The invariant of the queue loop that grows the cluster of `seed`. */
  ghost predicate Growing(points: seq<Point>, nb: Neighbours, clusters: seq<set<int>>, seed: int,
                          visited: seq<bool>, clustered: seq<bool>, q: seq<int>, extent: Extent, grown: set<int>) {
    && |points| == |nb|
    && Settling(nb, visited, clustered, q) && Flags(clustered, clusters, grown)
    && AllNear(nb, seed, q)
    && (forall y :: y in grown ==> 0 <= y < |nb| && Near(nb, seed, y))
    && TightExtent(extent, points, grown)
  }

  function Enclosing(b: Extent, p: Point): Extent {
    Extent(Widened(b.x, p.x), Widened(b.y, p.y), Widened(b.z, p.z))
  }

  lemma FlagStep(clustered: seq<bool>, clusters: seq<set<int>>, grown: set<int>, curr: int)
    requires Flags(clustered, clusters, grown) && 0 <= curr < |clustered|
    ensures Flags(clustered[curr := true], clusters, if clustered[curr] then grown else grown + {curr})
  {
  }

  /** Handling the point at the front of the queue keeps the invariant. */
  lemma GrowthStep(points: seq<Point>, nb: Neighbours, clusters: seq<set<int>>, seed: int, visited: seq<bool>,
                   clustered: seq<bool>, curr: int, rest: seq<int>, pushed: seq<int>, extent: Extent, grown: set<int>)
    requires IsNeighbourhood(nb) && Core(nb, seed) && forall k :: 0 <= k < |points| ==> FinitePoint(points[k])
    requires Growing(points, nb, clusters, seed, visited, clustered, [curr] + rest, extent, grown)
    requires 0 <= curr < |nb| && pushed == if !visited[curr] && Core(nb, curr) then nb[curr] else []
    ensures Growing(points, nb, clusters, seed, visited[curr := true], clustered[curr := true], rest + pushed,
                    if clustered[curr] then extent else Enclosing(extent, points[curr]),
                    if clustered[curr] then grown else grown + {curr})
  {
    VisitStep(nb, visited, clustered, curr, rest, pushed);
    FlagStep(clustered, clusters, grown, curr);
    QueueStaysNear(nb, seed, curr, rest, pushed);
    if !clustered[curr] {
      GrowExtent(extent, points, grown, curr);
    }
  }

  lemma StartOfGrowth(nb: Neighbours, visited: seq<bool>, clustered: seq<bool>, seed: int)
    requires IsNeighbourhood(nb) && Settled(nb, visited, clustered) && Core(nb, seed)
    ensures Settling(nb, visited[seed := true], clustered, nb[seed])
    ensures AllNear(nb, seed, nb[seed])
  {
    ConnectedToItself(nb, seed);
    forall c, y | CoreNeighbour(nb, c, y) && visited[seed := true][c]
      ensures 0 <= y < |nb| && (clustered[y] || y in nb[seed])
    {
    }
    forall y | y in nb[seed]
      ensures 0 <= y < |nb| && Near(nb, seed, y)
    {
      assert CoreNeighbour(nb, seed, y);
    }
  }

  // ---------- the loops ----------

  /** The points not visited yet. */
  ghost function Unvisited(visited: seq<bool>): set<int> {
    set k | 0 <= k < |visited| && !visited[k]
  }

  /** The points before place i are visited. */
  ghost predicate VisitedBefore(visited: seq<bool>, i: int) {
    i <= |visited| && forall k :: 0 <= k < i ==> visited[k]
  }

  lemma StillVisited(visited: seq<bool>, later: seq<bool>, i: int)
    requires |visited| == |later| && Unvisited(later) <= Unvisited(visited)
    requires VisitedBefore(visited, i)
    ensures VisitedBefore(later, i)
  {
    forall k | 0 <= k < i
      ensures later[k]
    {
      assert k !in Unvisited(visited);
    }
  }

  /** Visits a point for the first time: a core point sends its neighbours to the queue. */
  method Visit(nb: Neighbours, visited: array<bool>, curr: int, q: seq<int>) returns (q': seq<int>)
    requires |nb| == visited.Length && 0 <= curr < |nb|
    modifies visited
    ensures visited[..] == old(visited[..])[curr := true]
    ensures q' == q + if !old(visited[curr]) && Core(nb, curr) then nb[curr] else []
    ensures if old(visited[curr]) then Unvisited(visited[..]) == Unvisited(old(visited[..])) && q' == q
            else Unvisited(visited[..]) < Unvisited(old(visited[..]))
  {
    q' := q;
    if !visited[curr] {
      assert curr in Unvisited(visited[..]);
      visited[curr] := true;
      if |nb[curr]| >= MIN_PTS {
        q' := q' + nb[curr];
      }
    }
    assert visited[..] == old(visited[..])[curr := true];
  }

  /** Takes a point into the cluster, unless a cluster has it already. */
  method Take(points: seq<Point>, clustered: array<bool>, curr: int, hasPoint: bool, extent: Extent,
              ghost grown: set<int>)
    returns (hasPoint': bool, extent': Extent, ghost grown': set<int>)
    requires |points| == clustered.Length && 0 <= curr < |points|
    modifies clustered
    ensures clustered[..] == old(clustered[..])[curr := true]
    ensures hasPoint' == (hasPoint || !old(clustered[curr]))
    ensures extent' == if old(clustered[curr]) then extent else Enclosing(extent, points[curr])
    ensures grown' == if old(clustered[curr]) then grown else grown + {curr}
  {
    hasPoint', extent', grown' := hasPoint, extent, grown;
    if !clustered[curr] {
      extent' := Enclosing(extent, points[curr]);
      clustered[curr] := true;
      grown' := grown + {curr};
      hasPoint' := true;
    }
    assert clustered[..] == old(clustered[..])[curr := true];
  }

  /**
   The queue loop: grows one cluster from the neighbours of an unvisited core point, flagging
   the points that it takes and accumulating their extent.
   */
  method Expand(points: seq<Point>, nb: Neighbours, visited: array<bool>, clustered: array<bool>, seed: int,
                ghost clusters: seq<set<int>>) returns (hasPoint: bool, extent: Extent, ghost grown: set<int>)
    requires |points| == |nb| == visited.Length == clustered.Length && visited != clustered
    requires IsNeighbourhood(nb) && forall k :: 0 <= k < |points| ==> FinitePoint(points[k])
    requires Core(nb, seed)
    requires Growing(points, nb, clusters, seed, visited[..], clustered[..], nb[seed], EMPTY_EXTENT, {})
    modifies visited, clustered
    ensures Growing(points, nb, clusters, seed, visited[..], clustered[..], [], extent, grown)
    ensures hasPoint <==> grown != {}
    ensures Unvisited(visited[..]) <= Unvisited(old(visited[..]))
  {
    var q := nb[seed];
    hasPoint, extent, grown := false, EMPTY_EXTENT, {};
    while |q| > 0
      invariant Growing(points, nb, clusters, seed, visited[..], clustered[..], q, extent, grown)
      invariant hasPoint <==> grown != {}
      invariant Unvisited(visited[..]) <= Unvisited(old(visited[..]))
      decreases Unvisited(visited[..]), |q|
    {
      var curr := q[0];
      assert q == [curr] + q[1..] && curr in q;
      q := q[1..];
      ghost var pushed := if !visited[curr] && Core(nb, curr) then nb[curr] else [];
      GrowthStep(points, nb, clusters, seed, visited[..], clustered[..], curr, q, pushed, extent, grown);
      q := Visit(nb, visited, curr, q);
      hasPoint, extent, grown := Take(points, clustered, curr, hasPoint, extent, grown);
    }
    assert q == [];
  }

  ghost predicate ExtentOf(b: Extent, points: seq<Point>, cluster: set<int>) {
    (forall y :: y in cluster ==> 0 <= y < |points|) && TightExtent(b, points, cluster)
  }

  ghost predicate TightExtents(extents: seq<Extent>, points: seq<Point>, clusters: seq<set<int>>) {
    && |extents| == |clusters|
    && forall k {:trigger ExtentOf(extents[k], points, clusters[k])} ::
         0 <= k < |clusters| ==> ExtentOf(extents[k], points, clusters[k])
  }

  lemma AddExtent(extents: seq<Extent>, points: seq<Point>, clusters: seq<set<int>>, extent: Extent, grown: set<int>)
    requires TightExtents(extents, points, clusters) && ExtentOf(extent, points, grown)
    ensures TightExtents(extents + [extent], points, clusters + [grown])
  {
    forall k | 0 <= k < |clusters| + 1
      ensures ExtentOf((extents + [extent])[k], points, (clusters + [grown])[k])
    {
      assert k < |clusters| ==> ExtentOf(extents[k], points, clusters[k]);
    }
  }

  lemma AddGrown(nb: Neighbours, clusters: seq<set<int>>, seeds: seq<int>, grown: set<int>, seed: int)
    requires AllGrown(nb, clusters, seeds) && GrownFrom(nb, grown, seed)
    requires forall y :: y in grown ==> !InSome(clusters, y)
    ensures AllGrown(nb, clusters + [grown], seeds + [seed])
  {
    var all, from := clusters + [grown], seeds + [seed];
    forall k | 0 <= k < |all|
      ensures GrownFrom(nb, all[k], from[k])
    {
      assert k < |clusters| ==> GrownFrom(nb, clusters[k], seeds[k]);
    }
    AddDisjoint(clusters, grown);
  }

  lemma AddDisjoint(clusters: seq<set<int>>, grown: set<int>)
    requires Disjoint(clusters) && forall y :: y in grown ==> !InSome(clusters, y)
    ensures Disjoint(clusters + [grown])
  {
    var all := clusters + [grown];
    forall k, l, x | 0 <= k < l < |all| && x in all[k]
      ensures x !in all[l]
    {
      assert x in clusters[k] && InSome(clusters, x);
    }
  }

  lemma AddFlags(clustered: seq<bool>, clusters: seq<set<int>>, grown: set<int>)
    requires Flags(clustered, clusters, grown)
    ensures Flags(clustered, clusters + [grown], {})
  {
    forall y ensures InSome(clusters + [grown], y) <==> InSome(clusters, y) || y in grown {
      InSomeAppend(clusters, grown, y);
    }
  }

  lemma InSomeAppend(clusters: seq<set<int>>, grown: set<int>, y: int)
    ensures InSome(clusters + [grown], y) <==> InSome(clusters, y) || y in grown
  {
    var all := clusters + [grown];
    if InSome(clusters, y) {
      var k :| 0 <= k < |clusters| && y in clusters[k];
      assert y in all[k];
    }
    if y in grown {
      assert y in all[|clusters|];
    }
  }

  /** The queue is empty: what was settling is settled, and the grown set is a cluster. */
  lemma ExpandedIsCluster(points: seq<Point>, nb: Neighbours, visited: seq<bool>, clustered: seq<bool>,
                          clusters: seq<set<int>>, seed: int,
                          visited': seq<bool>, clustered': seq<bool>, extent: Extent, grown: set<int>)
    requires IsNeighbourhood(nb) && Settled(nb, visited, clustered) && Flags(clustered, clusters, {})
    requires Core(nb, seed) && !visited[seed]
    requires Growing(points, nb, clusters, seed, visited', clustered', [], extent, grown) && visited'[seed]
    ensures Settled(nb, visited', clustered') && GrownFrom(nb, grown, seed)
  {
    forall c, y | CoreNeighbour(nb, c, y) && visited'[c]
      ensures 0 <= y < |nb| && clustered'[y]
    {
      assert clustered'[y] || y in [];
    }
    GrowthIsComplete(nb, visited, clustered, clusters, seed, grown, visited', clustered');
  }

  lemma EverythingClustered(nb: Neighbours, clusters: seq<set<int>>, visited: seq<bool>, clustered: seq<bool>)
    requires Settled(nb, visited, clustered) && Flags(clustered, clusters, {})
    requires VisitedBefore(visited, |nb|)
    ensures forall c, y {:trigger CoreNeighbour(nb, c, y)} :: CoreNeighbour(nb, c, y) ==> InSome(clusters, y)
  {
    forall c, y | CoreNeighbour(nb, c, y)
      ensures InSome(clusters, y)
    {
      assert clustered[y];
    }
  }

  /** Visiting a point that is not core settles nothing new. */
  lemma NoiseStep(nb: Neighbours, visited: seq<bool>, clustered: seq<bool>, i: int)
    requires Settled(nb, visited, clustered) && 0 <= i < |nb| && !Core(nb, i)
    ensures Settled(nb, visited[i := true], clustered)
  {
    forall c, y | CoreNeighbour(nb, c, y) && visited[i := true][c]
      ensures 0 <= y < |nb| && clustered[y]
    {
      assert visited[c];
    }
  }

  lemma AddLatest(nb: Neighbours, visited: seq<bool>, clustered: seq<bool>, clusters: seq<set<int>>, grown: set<int>)
    requires Settled(nb, visited, clustered) && Flags(clustered, clusters, {}) && EarliestWins(nb, clusters)
    requires forall y :: y in grown ==> !InSome(clusters, y)
    ensures EarliestWins(nb, clusters + [grown])
  {
    forall c, y | CoreNeighbour(nb, c, y) && InSome(clusters, c)
      ensures InSome(clusters, y)
    {
      assert clustered[y];
    }
    var all := clusters + [grown];
    forall k, l, c, y | 0 <= k < l < |all| && c in all[k] && y in all[l]
      ensures !CoreNeighbour(nb, c, y)
    {
      assert c in clusters[k] && InSome(clusters, c);
    }
  }

  /** The invariant of the loop over the points. */
  ghost predicate Clustered(points: seq<Point>, nb: Neighbours, visited: seq<bool>, clustered: seq<bool>,
                            clusters: seq<set<int>>, seeds: seq<int>, extents: seq<Extent>) {
    && Settled(nb, visited, clustered) && Flags(clustered, clusters, {})
    && AllGrown(nb, clusters, seeds) && EarliestWins(nb, clusters) && TightExtents(extents, points, clusters)
  }

  lemma AddCluster(points: seq<Point>, nb: Neighbours, visited: seq<bool>, clustered: seq<bool>,
                   clusters: seq<set<int>>, seeds: seq<int>, extents: seq<Extent>, seed: int,
                   visited': seq<bool>, clustered': seq<bool>, extent: Extent, grown: set<int>)
    requires IsNeighbourhood(nb) && Clustered(points, nb, visited, clustered, clusters, seeds, extents)
    requires Core(nb, seed) && !visited[seed] && forall k :: 0 <= k < seed ==> visited[k]
    requires Growing(points, nb, clusters, seed, visited', clustered', [], extent, grown) && visited'[seed]
    ensures Clustered(points, nb, visited', clustered', clusters + [grown], seeds + [seed], extents + [extent])
    ensures grown != {} && forall c :: c in grown && Core(nb, c) ==> seed <= c
  {
    ExpandedIsCluster(points, nb, visited, clustered, clusters, seed, visited', clustered', extent, grown);
    forall c | c in grown && Core(nb, c)
      ensures seed <= c
    {
      CoreOfCluster(nb, grown, seed, c);
      FreshComponent(nb, visited, clustered, seed, c);
    }
    AddGrown(nb, clusters, seeds, grown, seed);
    AddLatest(nb, visited, clustered, clusters, grown);
    AddFlags(clustered', clusters, grown);
    AddExtent(extents, points, clusters, extent, grown);
    assert seed in grown;
  }

  /** A point that was not visited when the loop reached it: noise, or the start of a cluster. */
  method Start(points: seq<Point>, nb: Neighbours, visited: array<bool>, clustered: array<bool>, i: int,
               ghost clusters: seq<set<int>>, ghost seeds: seq<int>, ghost extents: seq<Extent>)
    returns (found: bool, extent: Extent, ghost grown: set<int>)
    requires |points| == |nb| == visited.Length == clustered.Length && visited != clustered
    requires IsNeighbourhood(nb) && forall k :: 0 <= k < |points| ==> FinitePoint(points[k])
    requires Clustered(points, nb, visited[..], clustered[..], clusters, seeds, extents)
    requires 0 <= i < |nb| && !visited[i] && VisitedBefore(visited[..], i)
    modifies visited, clustered
    ensures if found then
              Clustered(points, nb, visited[..], clustered[..], clusters + [grown], seeds + [i], extents + [extent])
            else
              Clustered(points, nb, visited[..], clustered[..], clusters, seeds, extents)
    ensures found == Core(nb, i)
    ensures found ==> forall c :: c in grown && Core(nb, c) ==> i <= c
    ensures VisitedBefore(visited[..], i + 1)
  {
    ghost var visited0, clustered0 := visited[..], clustered[..];
    visited[i] := true;
    assert visited[..] == visited0[i := true];
    found, extent, grown := false, EMPTY_EXTENT, {};
    if |nb[i]| < MIN_PTS {
      NoiseStep(nb, visited0, clustered0, i);
    } else {
      StartOfGrowth(nb, visited0, clustered0, i);
      found, extent, grown := Expand(points, nb, visited, clustered, i, clusters);
      StillVisited(visited0[i := true], visited[..], i + 1);
      AddCluster(points, nb, visited0, clustered0, clusters, seeds, extents, i,
                 visited[..], clustered[..], extent, grown);
    }
  }

  // ---------- boxes and points ----------

  /** The box of the cluster: it holds every point, and a point lies on each of its six faces. */
  ghost predicate Encloses(points: seq<Point>, cluster: set<int>, b: Box) {
    && (forall i :: i in cluster ==> 0 <= i < |points|)
    && (forall i :: i in cluster ==> b.cx - b.lx / 2.0 <= points[i].x <= b.cx + b.lx / 2.0)
    && (forall i :: i in cluster ==> b.cy - b.ly / 2.0 <= points[i].y <= b.cy + b.ly / 2.0)
    && (forall i :: i in cluster ==> b.cz - b.lz / 2.0 <= points[i].z <= b.cz + b.lz / 2.0)
    && (exists i :: i in cluster && points[i].x == b.cx - b.lx / 2.0)
    && (exists i :: i in cluster && points[i].x == b.cx + b.lx / 2.0)
    && (exists i :: i in cluster && points[i].y == b.cy - b.ly / 2.0)
    && (exists i :: i in cluster && points[i].y == b.cy + b.ly / 2.0)
    && (exists i :: i in cluster && points[i].z == b.cz - b.lz / 2.0)
    && (exists i :: i in cluster && points[i].z == b.cz + b.lz / 2.0)
  }

  /** Ground, a thin plate in the air, too tall or flat, the vehicle itself, or too wide. */
  ghost predicate Discarded(points: seq<Point>, cluster: set<int>, b: Box)
    requires forall i :: i in cluster ==> 0 <= i < |points|
  {
    || (-10.0 < b.cx < 10.0 && forall i :: i in cluster ==> points[i].z < -0.3)
    || (b.lz <= 0.25 && forall i :: i in cluster ==> points[i].z > 0.7)
    || b.lz > 4.0 || b.lz < 0.1
    || (forall i :: i in cluster ==> -2.0 < points[i].x < 3.0 && -1.0 < points[i].y < 1.0)
    || b.lx > 13.0 || b.ly > 13.0 || (b.lx > 2.8 && b.ly > 2.8)
  }

  /** The detection of a cluster: its box, and the middle of its rear edge as the reference point. */
  ghost predicate Yields(points: seq<Point>, cluster: set<int>, d: Detection) {
    && Encloses(points, cluster, d.box) && !Discarded(points, cluster, d.box)
    && d.pos.a0 == d.box.cx - d.box.lx / 2.0 && d.pos.a1 == d.box.cy
  }

  /** Detection k is that of cluster `of[k]`, in the order of the clusters; the other clusters yield none. */
  ghost predicate AreDetections(points: seq<Point>, clusters: seq<set<int>>, detections: seq<Detection>, of: seq<int>) {
    && |of| == |detections| && Ascending(of)
    && (forall k :: 0 <= k < |of| ==> 0 <= of[k] < |clusters|)
    && (forall k {:trigger Yields(points, clusters[of[k]], detections[k])} ::
          0 <= k < |of| ==> Yields(points, clusters[of[k]], detections[k]))
    && (forall c, d {:trigger Yields(points, clusters[c], d)} ::
          0 <= c < |clusters| && c !in of ==> !Yields(points, clusters[c], d))
  }

  lemma TightBounds(s: Span, values: set<real>)
    requires TightSpan(s, values) && values != {}
    ensures s.lo == Middle(s) - Length(s) / 2.0 && s.hi == Middle(s) + Length(s) / 2.0
    ensures s.lo in values && s.hi in values && forall v :: v in values ==> s.lo <= v <= s.hi
  {
  }

  /** One axis of a box: the points of the cluster lie between the bounds and reach them. */
  lemma {:induction false} SpanOfPoints(s: Span, at: seq<real>, cluster: set<int>, i: int)
    requires i in cluster && forall k :: k in cluster ==> 0 <= k < |at|
    requires TightSpan(s, set k | k in cluster :: at[k])
    ensures forall k :: k in cluster ==> Middle(s) - Length(s) / 2.0 <= at[k] <= Middle(s) + Length(s) / 2.0
    ensures exists k :: k in cluster && at[k] == Middle(s) - Length(s) / 2.0
    ensures exists k :: k in cluster && at[k] == Middle(s) + Length(s) / 2.0
  {
    var values := set k | k in cluster :: at[k];
    assert at[i] in values;
    TightBounds(s, values);
    assert forall k :: k in cluster ==> at[k] in values;
  }

  function Xs(points: seq<Point>): (r: seq<real>)
    ensures |r| == |points| && forall k :: 0 <= k < |r| ==> r[k] == points[k].x
  {
    seq(|points|, k requires 0 <= k < |points| => points[k].x)
  }

  function Ys(points: seq<Point>): (r: seq<real>)
    ensures |r| == |points| && forall k :: 0 <= k < |r| ==> r[k] == points[k].y
  {
    seq(|points|, k requires 0 <= k < |points| => points[k].y)
  }

  function Zs(points: seq<Point>): (r: seq<real>)
    ensures |r| == |points| && forall k :: 0 <= k < |r| ==> r[k] == points[k].z
  {
    seq(|points|, k requires 0 <= k < |points| => points[k].z)
  }

  lemma {:induction false} DetectedEncloses(e: Extent, points: seq<Point>, cluster: set<int>, i: int)
    requires ExtentOf(e, points, cluster) && i in cluster
    ensures Encloses(points, cluster, Detected(e).box)
  {
    var xs, ys, zs := Xs(points), Ys(points), Zs(points);
    assert (set k | k in cluster :: points[k].x) == set k | k in cluster :: xs[k];
    assert (set k | k in cluster :: points[k].y) == set k | k in cluster :: ys[k];
    assert (set k | k in cluster :: points[k].z) == set k | k in cluster :: zs[k];
    SpanOfPoints(e.x, xs, cluster, i);
    SpanOfPoints(e.y, ys, cluster, i);
    SpanOfPoints(e.z, zs, cluster, i);
    assert forall k :: k in cluster ==> points[k].x == xs[k] && points[k].y == ys[k] && points[k].z == zs[k];
  }

  /** An extent passes the size filter exactly when the points of its cluster do. */
  lemma {:induction false} KeptIffNotDiscarded(e: Extent, points: seq<Point>, cluster: set<int>, i: int)
    requires ExtentOf(e, points, cluster) && i in cluster
    ensures Kept(e) <==> !Discarded(points, cluster, Detected(e).box)
  {
    DetectedEncloses(e, points, cluster, i);
  }

  lemma {:induction false} EnclosingIsUnique(points: seq<Point>, cluster: set<int>, b: Box, b': Box)
    requires Encloses(points, cluster, b) && Encloses(points, cluster, b')
    ensures b == b'
  {
  }

  // ---------- the detections of a partition ----------

  /** The places of the extents that are kept, in order. */
  function KeptPlaces(extents: seq<Extent>): seq<int> {
    if extents == [] then []
    else
      var n := |extents| - 1;
      KeptPlaces(extents[..n]) + if Kept(extents[n]) then [n] else []
  }

  /** Detection i is that of the i-th kept extent. */
  ghost predicate ArePlaces(extents: seq<Extent>, places: seq<int>, detections: seq<Detection>) {
    && |detections| == |places| && Ascending(places)
    && (forall i :: 0 <= i < |places| ==>
          0 <= places[i] < |extents| && Kept(extents[places[i]]) && detections[i] == Detected(extents[places[i]]))
    && (forall k :: 0 <= k < |extents| && Kept(extents[k]) ==> k in places)
  }

  lemma PlacesNext(extents: seq<Extent>, places: seq<int>, detections: seq<Detection>, last: Extent)
    requires ArePlaces(extents, places, detections)
    ensures if Kept(last) then ArePlaces(extents + [last], places + [|extents|], detections + [Detected(last)])
            else ArePlaces(extents + [last], places, detections)
  {
  }

  lemma {:induction false} DetectionsAreKept(extents: seq<Extent>)
    ensures ArePlaces(extents, KeptPlaces(extents), Detections(extents))
  {
    if extents != [] {
      var front, last := extents[..|extents| - 1], extents[|extents| - 1];
      assert extents == front + [last];
      DetectionsAreKept(front);
      PlacesNext(front, KeptPlaces(front), Detections(front), last);
    }
  }

  lemma {:induction false} DetectedIsYielded(e: Extent, points: seq<Point>, cluster: set<int>, i: int)
    requires ExtentOf(e, points, cluster) && i in cluster
    ensures Kept(e) ==> Yields(points, cluster, Detected(e))
    ensures !Kept(e) ==> forall d :: !Yields(points, cluster, d)
  {
    DetectedEncloses(e, points, cluster, i);
    KeptIffNotDiscarded(e, points, cluster, i);
    TightBounds(e.y, set k | k in cluster :: points[k].y) by {
      assert points[i].y in set k | k in cluster :: points[k].y;
    }
    forall d | Yields(points, cluster, d) && !Kept(e)
      ensures false
    {
      EnclosingIsUnique(points, cluster, d.box, Detected(e).box);
    }
  }

  /** The detections of tight extents are those of the clusters. */
  lemma {:induction false} DetectionsOfClusters(points: seq<Point>, nb: Neighbours, clusters: seq<set<int>>,
                                                extents: seq<Extent>)
    requires Canonical(nb, clusters) && TightExtents(extents, points, clusters)
    ensures AreDetections(points, clusters, Detections(extents), KeptPlaces(extents))
  {
    DetectionsAreKept(extents);
    var of := KeptPlaces(extents);
    forall c | 0 <= c < |clusters|
      ensures Kept(extents[c]) ==> Yields(points, clusters[c], Detected(extents[c]))
      ensures !Kept(extents[c]) ==> forall d :: !Yields(points, clusters[c], d)
    {
      assert HasCore(nb, clusters[c]) && ExtentOf(extents[c], points, clusters[c]);
      var i :| i in clusters[c] && Core(nb, i);
      DetectedIsYielded(extents[c], points, clusters[c], i);
    }
  }

  /** What the contract of the clustering says determines the detections. */
  lemma {:induction false} DetectionsAreDetermined(points: seq<Point>, nb: Neighbours,
                                                   clusters: seq<set<int>>, ds: seq<Detection>, of: seq<int>,
                                                   clusters': seq<set<int>>, ds': seq<Detection>, of': seq<int>)
    requires Canonical(nb, clusters) && AreDetections(points, clusters, ds, of)
    requires Canonical(nb, clusters') && AreDetections(points, clusters', ds', of')
    ensures ds == ds'
  {
    CanonicalIsUnique(nb, clusters, clusters');
    forall c ensures c in of <==> c in of' {
      if k :| 0 <= k < |of| && of[k] == c {
        assert Yields(points, clusters[c], ds[k]);
      }
      if k :| 0 <= k < |of'| && of'[k] == c {
        assert Yields(points, clusters[c], ds'[k]);
      }
    }
    AscendingIsUnique(of, of');
    forall k | 0 <= k < |of|
      ensures ds[k] == ds'[k]
    {
      assert Yields(points, clusters[of[k]], ds[k]) && Yields(points, clusters[of[k]], ds'[k]);
      EnclosingIsUnique(points, clusters[of[k]], ds[k].box, ds'[k].box);
    }
  }

  // ---------- the whole clustering ----------

  /** What has been grown when all points are visited. */
  lemma AllVisited(points: seq<Point>, nb: Neighbours, visited: seq<bool>, clustered: seq<bool>,
                   clusters: seq<set<int>>, seeds: seq<int>, extents: seq<Extent>)
    requires IsNeighbourhood(nb) && Clustered(points, nb, visited, clustered, clusters, seeds, extents)
    requires LedBy(nb, clusters, seeds, |nb|) && VisitedBefore(visited, |nb|)
    ensures Canonical(nb, clusters) && TightExtents(extents, points, clusters)
  {
    EverythingClustered(nb, clusters, visited, clustered);
    GrownIsCanonical(nb, clusters, seeds, |nb|);
  }

  lemma {:induction false} DetectionsAppend(extents: seq<Extent>, extent: Extent)
    ensures Detections(extents + [extent]) == Detections(extents) + if Kept(extent) then [Detected(extent)] else []
  {
    assert (extents + [extent])[..|extents|] == extents;
  }

  /**
   The whole clustering. The clusters that it grows are the density partition of the cloud in
   the order of their least core points, a contested border point going to the earliest; each
   cluster that the size filter lets through yields the detection with its bounding box.
   */
  method Clustering(points: seq<Point>, nb: Neighbours) returns (detections: seq<Detection>)
    requires |points| == |nb| && IsNeighbourhood(nb)
    requires forall k :: 0 <= k < |points| ==> FinitePoint(points[k])
    ensures exists clusters, of :: Canonical(nb, clusters) && AreDetections(points, clusters, detections, of)
  {
    var n := |points|;
    var visited, clustered := new bool[n](_ => false), new bool[n](_ => false);
    detections := [];
    ghost var clusters, seeds, extents := [], [], [];
    var i := 0;
    while i < n
      invariant 0 <= i <= n
      invariant Clustered(points, nb, visited[..], clustered[..], clusters, seeds, extents)
      invariant LedBy(nb, clusters, seeds, i)
      invariant detections == Detections(extents)
      invariant VisitedBefore(visited[..], i)
    {
      if !visited[i] {
        var found, extent, grown := Start(points, nb, visited, clustered, i, clusters, seeds, extents);
        if found {
          DetectionsAppend(extents, extent);
          LedByNext(nb, clusters, seeds, i, grown);
          clusters, seeds, extents := clusters + [grown], seeds + [i], extents + [extent];
          if Kept(extent) {
            detections := detections + [Detected(extent)];
          }
        }
      }
      i := i + 1;
    }
    AllVisited(points, nb, visited[..], clustered[..], clusters, seeds, extents);
    DetectionsOfClusters(points, nb, clusters, extents);
  }
}
