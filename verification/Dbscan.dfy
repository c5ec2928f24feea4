/**
 Density clustering of the point cloud. The radius search is a parameter: `nb[i]` lists the
 points within eps of point i, itself among them.
 */
module DensityReach {
  /** minPts */
  const MIN_PTS := 7

  type Neighbours = seq<seq<int>>

  /** The radius search is reflexive and symmetric. */
  ghost predicate IsNeighbourhood(nb: Neighbours) {
    && (forall i, y :: 0 <= i < |nb| && y in nb[i] ==> 0 <= y < |nb|)
    && (forall i :: 0 <= i < |nb| ==> i in nb[i])
    && (forall i, j :: 0 <= i < |nb| && 0 <= j < |nb| && j in nb[i] ==> i in nb[j])
  }

  predicate Core(nb: Neighbours, i: int) {
    0 <= i < |nb| && |nb[i]| >= MIN_PTS
  }

  /** y lies within eps of the core point c. */
  predicate CoreNeighbour(nb: Neighbours, c: int, y: int) {
    Core(nb, c) && y in nb[c]
  }

  /** A walk through core points, each within eps of the next. */
  ghost predicate CorePath(nb: Neighbours, path: seq<int>) {
    && path != []
    && (forall k :: 0 <= k < |path| ==> Core(nb, path[k]))
    && (forall k :: 0 <= k < |path| - 1 ==> path[k + 1] in nb[path[k]])
  }

  ghost predicate Joins(nb: Neighbours, path: seq<int>, p: int, q: int) {
    CorePath(nb, path) && path[0] == p && path[|path| - 1] == q
  }

  /** p and q are connected through core points. */
  ghost predicate Connected(nb: Neighbours, p: int, q: int) {
    exists path :: Joins(nb, path, p, q)
  }

  /** y lies within eps of a core point that is connected to the core point p. */
  ghost predicate Near(nb: Neighbours, p: int, y: int) {
    exists c :: Connected(nb, p, c) && CoreNeighbour(nb, c, y)
  }

  lemma ConnectedToItself(nb: Neighbours, p: int)
    requires Core(nb, p)
    ensures Connected(nb, p, p)
  {
    assert Joins(nb, [p], p, p);
  }

  lemma ConnectedExtends(nb: Neighbours, p: int, q: int, r: int)
    requires Connected(nb, p, q) && Core(nb, r) && 0 <= q < |nb| && r in nb[q]
    ensures Connected(nb, p, r)
  {
    var path :| Joins(nb, path, p, q);
    assert Joins(nb, path + [r], p, r);
  }

  lemma {:induction false} PathReverses(nb: Neighbours, path: seq<int>, p: int, q: int) returns (back: seq<int>)
    requires IsNeighbourhood(nb) && Joins(nb, path, p, q)
    ensures Joins(nb, back, q, p)
    decreases |path|
  {
    if |path| == 1 {
      back := path;
    } else {
      var before := path[|path| - 2];
      assert Joins(nb, path[..|path| - 1], p, before);
      var rest := PathReverses(nb, path[..|path| - 1], p, before);
      back := [q] + rest;
    }
  }

  lemma ConnectedIsSymmetric(nb: Neighbours, p: int, q: int)
    requires IsNeighbourhood(nb) && Connected(nb, p, q)
    ensures Connected(nb, q, p)
  {
    var path :| Joins(nb, path, p, q);
    var back := PathReverses(nb, path, p, q);
  }

  lemma ConnectedIsTransitive(nb: Neighbours, p: int, q: int, r: int)
    requires Connected(nb, p, q) && Connected(nb, q, r)
    ensures Connected(nb, p, r)
  {
    var first :| Joins(nb, first, p, q);
    var second :| Joins(nb, second, q, r);
    assert Joins(nb, first + second[1..], p, r);
  }

  /** A set that contains, with each core point, all its neighbours. */
  ghost predicate Closed(nb: Neighbours, visited: seq<bool>) {
    && |visited| == |nb|
    && forall c, y {:trigger CoreNeighbour(nb, c, y)} ::
         CoreNeighbour(nb, c, y) && visited[c] ==> 0 <= y < |nb| && visited[y]
  }

  lemma {:induction false} ClosedAlongPath(nb: Neighbours, visited: seq<bool>, path: seq<int>, p: int, q: int)
    requires Closed(nb, visited) && Joins(nb, path, p, q) && visited[p]
    ensures visited[q]
    decreases |path|
  {
    if |path| > 1 {
      assert Joins(nb, path[1..], path[1], q);
      assert CoreNeighbour(nb, path[0], path[1]);
      ClosedAlongPath(nb, visited, path[1..], path[1], q);
    }
  }

  lemma ClosedUnderConnected(nb: Neighbours, visited: seq<bool>, p: int, q: int)
    requires Closed(nb, visited) && Connected(nb, p, q) && 0 <= p < |nb| && visited[p]
    ensures 0 <= q < |nb| && visited[q]
  {
    var path :| Joins(nb, path, p, q);
    ClosedAlongPath(nb, visited, path, p, q);
  }

  // ---------- clusters ----------

  ghost predicate InSome(clusters: seq<set<int>>, x: int) {
    exists k :: 0 <= k < |clusters| && x in clusters[k]
  }

  ghost predicate Together(clusters: seq<set<int>>, p: int, q: int) {
    exists k :: 0 <= k < |clusters| && p in clusters[k] && q in clusters[k]
  }

  ghost predicate Disjoint(clusters: seq<set<int>>) {
    forall k, l, x :: 0 <= k < l < |clusters| && x in clusters[k] ==> x !in clusters[l]
  }

  /** y lies within eps of some core point. */
  ghost predicate NearCore(nb: Neighbours, y: int) {
    exists c :: CoreNeighbour(nb, c, y)
  }

  /** y lies within eps of a core point of the cluster. */
  ghost predicate Reaches(nb: Neighbours, cluster: set<int>, y: int) {
    exists c :: c in cluster && CoreNeighbour(nb, c, y)
  }

  /** The density partition: what the clusters have to be. */
  ghost predicate IsDensityPartition(nb: Neighbours, clusters: seq<set<int>>) {
    && Disjoint(clusters)
    && (forall y :: InSome(clusters, y) <==> NearCore(nb, y))
    && (forall p, q {:trigger Together(clusters, p, q)} {:trigger Connected(nb, p, q)} ::
          Core(nb, p) && Core(nb, q) ==> (Together(clusters, p, q) <==> Connected(nb, p, q)))
    && (forall k, y {:trigger Reaches(nb, clusters[k], y)} ::
          0 <= k < |clusters| && y in clusters[k] ==> Reaches(nb, clusters[k], y))
  }

  /** Cluster k was grown from the core point `seed`. */
  ghost predicate GrownFrom(nb: Neighbours, cluster: set<int>, seed: int) {
    && Core(nb, seed) && seed in cluster
    && (forall y :: y in cluster ==> 0 <= y < |nb| && Near(nb, seed, y))
    && (forall c :: Core(nb, c) && Connected(nb, seed, c) ==> c in cluster)
  }

  /** Core points of a cluster are connected to its seed. */
  lemma CoreOfCluster(nb: Neighbours, cluster: set<int>, seed: int, c: int)
    requires GrownFrom(nb, cluster, seed) && c in cluster && Core(nb, c)
    ensures Connected(nb, seed, c)
  {
    var b :| Connected(nb, seed, b) && CoreNeighbour(nb, b, c);
    ConnectedExtends(nb, seed, b, c);
  }

  ghost predicate AllGrown(nb: Neighbours, clusters: seq<set<int>>, seeds: seq<int>) {
    && |seeds| == |clusters| && Disjoint(clusters)
    && forall k {:trigger GrownFrom(nb, clusters[k], seeds[k])} ::
         0 <= k < |clusters| ==> GrownFrom(nb, clusters[k], seeds[k])
  }

  lemma TogetherMeansConnected(nb: Neighbours, clusters: seq<set<int>>, seeds: seq<int>, p: int, q: int)
    requires IsNeighbourhood(nb) && AllGrown(nb, clusters, seeds) && Core(nb, p) && Core(nb, q)
    requires Together(clusters, p, q)
    ensures Connected(nb, p, q)
  {
    var k :| 0 <= k < |clusters| && p in clusters[k] && q in clusters[k];
    assert GrownFrom(nb, clusters[k], seeds[k]);
    CoreOfCluster(nb, clusters[k], seeds[k], p);
    CoreOfCluster(nb, clusters[k], seeds[k], q);
    ConnectedIsSymmetric(nb, seeds[k], p);
    ConnectedIsTransitive(nb, p, seeds[k], q);
  }

  lemma ConnectedMeansTogether(nb: Neighbours, clusters: seq<set<int>>, seeds: seq<int>, p: int, q: int)
    requires AllGrown(nb, clusters, seeds) && Core(nb, p) && Core(nb, q)
    requires Connected(nb, p, q) && InSome(clusters, p)
    ensures Together(clusters, p, q)
  {
    var k :| 0 <= k < |clusters| && p in clusters[k];
    assert GrownFrom(nb, clusters[k], seeds[k]);
    CoreOfCluster(nb, clusters[k], seeds[k], p);
    ConnectedIsTransitive(nb, seeds[k], p, q);
  }

  lemma MemberHasCore(nb: Neighbours, clusters: seq<set<int>>, seeds: seq<int>, k: int, y: int) returns (c: int)
    requires AllGrown(nb, clusters, seeds) && 0 <= k < |clusters| && y in clusters[k]
    ensures c in clusters[k] && CoreNeighbour(nb, c, y)
  {
    assert GrownFrom(nb, clusters[k], seeds[k]);
    c :| Connected(nb, seeds[k], c) && CoreNeighbour(nb, c, y);
  }

  lemma TogetherIffConnected(nb: Neighbours, clusters: seq<set<int>>, seeds: seq<int>, p: int, q: int)
    requires IsNeighbourhood(nb) && AllGrown(nb, clusters, seeds) && Core(nb, p) && Core(nb, q)
    requires InSome(clusters, p)
    ensures Together(clusters, p, q) <==> Connected(nb, p, q)
  {
    if Together(clusters, p, q) {
      TogetherMeansConnected(nb, clusters, seeds, p, q);
    }
    if Connected(nb, p, q) {
      ConnectedMeansTogether(nb, clusters, seeds, p, q);
    }
  }

  /** Clusters grown from seeds that cover every core neighbourhood are the density partition. */
  lemma GrownIsPartition(nb: Neighbours, clusters: seq<set<int>>, seeds: seq<int>)
    requires IsNeighbourhood(nb) && AllGrown(nb, clusters, seeds)
    requires forall c, y {:trigger CoreNeighbour(nb, c, y)} :: CoreNeighbour(nb, c, y) ==> InSome(clusters, y)
    ensures IsDensityPartition(nb, clusters)
  {
    forall k, y | 0 <= k < |clusters| && y in clusters[k]
      ensures Reaches(nb, clusters[k], y)
    {
      var c := MemberHasCore(nb, clusters, seeds, k, y);
    }
    forall p, q | Core(nb, p) && Core(nb, q)
      ensures Together(clusters, p, q) <==> Connected(nb, p, q)
    {
      assert CoreNeighbour(nb, p, p);
      TogetherIffConnected(nb, clusters, seeds, p, q);
    }
  }

  // ---------- the order of the clusters ----------

  /** A point that cores of several clusters reach belongs to the earliest of them. */
  ghost predicate EarliestWins(nb: Neighbours, clusters: seq<set<int>>) {
    forall k, l, c, y {:trigger clusters[k], clusters[l], CoreNeighbour(nb, c, y)} ::
      0 <= k < l < |clusters| && c in clusters[k] && y in clusters[l] ==> !CoreNeighbour(nb, c, y)
  }

  /** The cluster has a core point before c. */
  ghost predicate StartsBefore(nb: Neighbours, cluster: set<int>, c: int) {
    exists s :: s in cluster && Core(nb, s) && s < c
  }

  /** Clusters come in the order of their least core points. */
  ghost predicate InOrder(nb: Neighbours, clusters: seq<set<int>>) {
    forall k, l, c {:trigger clusters[l], StartsBefore(nb, clusters[k], c)} ::
      0 <= k < l < |clusters| && c in clusters[l] && Core(nb, c) ==> StartsBefore(nb, clusters[k], c)
  }

  ghost predicate HasCore(nb: Neighbours, cluster: set<int>) {
    exists c :: c in cluster && Core(nb, c)
  }

  /** The density partition in order, with contested border points in the earliest cluster. */
  ghost predicate Canonical(nb: Neighbours, clusters: seq<set<int>>) {
    && IsDensityPartition(nb, clusters) && EarliestWins(nb, clusters) && InOrder(nb, clusters)
    && forall k :: 0 <= k < |clusters| ==> HasCore(nb, clusters[k])
  }

  /** The seeds ascend below i, and each is the least core point of its cluster. */
  ghost predicate LedBy(nb: Neighbours, clusters: seq<set<int>>, seeds: seq<int>, i: int) {
    && |seeds| == |clusters|
    && (forall k, l :: 0 <= k < l < |seeds| ==> seeds[k] < seeds[l])
    && (forall k :: 0 <= k < |seeds| ==> seeds[k] < i)
    && (forall k, c :: 0 <= k < |clusters| && c in clusters[k] && Core(nb, c) ==> seeds[k] <= c)
  }

  lemma LedByNext(nb: Neighbours, clusters: seq<set<int>>, seeds: seq<int>, i: int, grown: set<int>)
    requires LedBy(nb, clusters, seeds, i) && forall c :: c in grown && Core(nb, c) ==> i <= c
    ensures LedBy(nb, clusters + [grown], seeds + [i], i + 1)
  {
  }

  /** Clusters led by ascending seeds are in order. */
  lemma LedIsInOrder(nb: Neighbours, clusters: seq<set<int>>, seeds: seq<int>, n: int)
    requires AllGrown(nb, clusters, seeds) && LedBy(nb, clusters, seeds, n)
    ensures InOrder(nb, clusters)
  {
    forall k, l, c | 0 <= k < l < |clusters| && c in clusters[l] && Core(nb, c)
      ensures StartsBefore(nb, clusters[k], c)
    {
      assert GrownFrom(nb, clusters[k], seeds[k]);
      assert seeds[k] < seeds[l] <= c;
    }
  }

  /** Growing every cluster from its least core point, in order, gives the canonical partition. */
  lemma GrownIsCanonical(nb: Neighbours, clusters: seq<set<int>>, seeds: seq<int>, n: int)
    requires IsNeighbourhood(nb) && AllGrown(nb, clusters, seeds) && LedBy(nb, clusters, seeds, n)
    requires EarliestWins(nb, clusters)
    requires forall c, y {:trigger CoreNeighbour(nb, c, y)} :: CoreNeighbour(nb, c, y) ==> InSome(clusters, y)
    ensures Canonical(nb, clusters)
  {
    GrownIsPartition(nb, clusters, seeds);
    LedIsInOrder(nb, clusters, seeds, n);
    forall k | 0 <= k < |clusters|
      ensures HasCore(nb, clusters[k])
    {
      assert GrownFrom(nb, clusters[k], seeds[k]);
    }
  }

  lemma {:induction false} LeastCore(nb: Neighbours, cluster: set<int>, c: int) returns (s: int)
    requires c in cluster && Core(nb, c)
    ensures s in cluster && Core(nb, s) && forall d :: d in cluster && Core(nb, d) ==> s <= d
    decreases c
  {
    if d :| d in cluster && Core(nb, d) && d < c {
      s := LeastCore(nb, cluster, d);
    } else {
      s := c;
    }
  }

  /** The partitions agree on the clusters before k. */
  ghost predicate AgreeBefore(a: seq<set<int>>, b: seq<set<int>>, k: nat) {
    k <= |a| && k <= |b| && forall i :: 0 <= i < k ==> a[i] == b[i]
  }

  /** A point of a cluster from k on is in a cluster from k on of the other partition. */
  lemma FoundLater(nb: Neighbours, a: seq<set<int>>, b: seq<set<int>>, k: nat, l: nat, y: int) returns (j: nat)
    requires IsDensityPartition(nb, a) && IsDensityPartition(nb, b) && AgreeBefore(a, b, k)
    requires k <= l < |a| && y in a[l]
    ensures k <= j < |b| && y in b[j]
  {
    assert InSome(a, y) && NearCore(nb, y);
    j :| 0 <= j < |b| && y in b[j];
  }

  /** The least core point of a cluster is the least of all core points from that cluster on. */
  lemma LeastOfRest(nb: Neighbours, a: seq<set<int>>, k: nat, s: int, l: nat, c: int)
    requires InOrder(nb, a) && k <= l < |a| && c in a[l] && Core(nb, c)
    requires forall d :: d in a[k] && Core(nb, d) ==> s <= d
    ensures s <= c
  {
    assert k < l ==> StartsBefore(nb, a[k], c);
  }

  /** The least core point of cluster k of one partition is in cluster k of the other. */
  lemma SharedCore(nb: Neighbours, a: seq<set<int>>, b: seq<set<int>>, k: nat) returns (s: int)
    requires Canonical(nb, a) && Canonical(nb, b) && AgreeBefore(a, b, k) && k < |a|
    ensures k < |b| && s in a[k] && s in b[k] && Core(nb, s)
  {
    assert HasCore(nb, a[k]);
    var c :| c in a[k] && Core(nb, c);
    s := LeastCore(nb, a[k], c);
    var j := FoundLater(nb, a, b, k, k, s);
    if k < j {
      assert StartsBefore(nb, b[k], s);
      var s' :| s' in b[k] && Core(nb, s') && s' < s;
      var i := FoundLater(nb, b, a, k, k, s');
      LeastOfRest(nb, a, k, s, i, s');
    }
  }

  /** Clusters k of the two partitions have their core points in common. */
  lemma CoresAgree(nb: Neighbours, a: seq<set<int>>, b: seq<set<int>>, k: nat, s: int, c: int)
    requires IsDensityPartition(nb, a) && IsDensityPartition(nb, b) && k < |a| && k < |b|
    requires s in a[k] && s in b[k] && Core(nb, s) && c in a[k] && Core(nb, c)
    ensures c in b[k]
  {
    assert Together(a, s, c) && Together(b, s, c);
    var j :| 0 <= j < |b| && s in b[j] && c in b[j];
    assert j == k;
  }

  lemma ClusterIncluded(nb: Neighbours, a: seq<set<int>>, b: seq<set<int>>, k: nat, s: int)
    requires Canonical(nb, a) && Canonical(nb, b) && AgreeBefore(a, b, k) && k < |a| && k < |b|
    requires s in a[k] && s in b[k] && Core(nb, s)
    ensures a[k] <= b[k]
  {
    forall y | y in a[k]
      ensures y in b[k]
    {
      assert Reaches(nb, a[k], y);
      var c :| c in a[k] && CoreNeighbour(nb, c, y);
      CoresAgree(nb, a, b, k, s, c);
      var j := FoundLater(nb, a, b, k, k, y);
    }
  }

  lemma {:induction false} AgreeFrom(nb: Neighbours, a: seq<set<int>>, b: seq<set<int>>, k: nat)
    requires Canonical(nb, a) && Canonical(nb, b) && AgreeBefore(a, b, k)
    ensures a == b
    decreases |a| - k
  {
    if k < |a| {
      var s := SharedCore(nb, a, b, k);
      ClusterIncluded(nb, a, b, k, s);
      ClusterIncluded(nb, b, a, k, s);
      AgreeFrom(nb, a, b, k + 1);
    } else if k < |b| {
      var s := SharedCore(nb, b, a, k);
      assert false;
    }
  }

  /** There is only one canonical partition of a cloud. */
  lemma CanonicalIsUnique(nb: Neighbours, a: seq<set<int>>, b: seq<set<int>>)
    requires Canonical(nb, a) && Canonical(nb, b)
    ensures a == b
  {
    AgreeFrom(nb, a, b, 0);
  }

  // ---------- the order of the neighbour lists ----------

  /** The radius search found the same neighbours, in any order. */
  ghost predicate SameNeighbours(nb: Neighbours, nb': Neighbours) {
    && |nb| == |nb'|
    && forall i :: 0 <= i < |nb| ==> multiset(nb[i]) == multiset(nb'[i])
  }

  lemma SameCoreNeighbours(nb: Neighbours, nb': Neighbours, i: int, y: int)
    requires SameNeighbours(nb, nb')
    ensures Core(nb, i) == Core(nb', i) && CoreNeighbour(nb, i, y) == CoreNeighbour(nb', i, y)
  {
    if 0 <= i < |nb| {
      assert |multiset(nb[i])| == |multiset(nb'[i])|;
      assert y in multiset(nb[i]) <==> y in multiset(nb'[i]);
    }
  }

  lemma SameConnected(nb: Neighbours, nb': Neighbours, p: int, q: int)
    requires SameNeighbours(nb, nb') && Connected(nb, p, q)
    ensures Connected(nb', p, q)
  {
    var path :| Joins(nb, path, p, q);
    forall k | 0 <= k < |path|
      ensures Core(nb', path[k]) && (k < |path| - 1 ==> path[k + 1] in nb'[path[k]])
    {
      SameCoreNeighbours(nb, nb', path[k], if k < |path| - 1 then path[k + 1] else 0);
    }
    assert Joins(nb', path, p, q);
  }

  /** The canonical partition does not depend on the order in which the radius search lists neighbours. */
  lemma ListOrderDoesNotMatter(nb: Neighbours, nb': Neighbours, clusters: seq<set<int>>)
    requires SameNeighbours(nb, nb') && Canonical(nb, clusters)
    ensures Canonical(nb', clusters)
  {
    forall i ensures Core(nb, i) == Core(nb', i) {
      SameCoreNeighbours(nb, nb', i, 0);
    }
    forall i, y ensures CoreNeighbour(nb, i, y) == CoreNeighbour(nb', i, y) {
      SameCoreNeighbours(nb, nb', i, y);
    }
    forall p, q
      ensures Connected(nb, p, q) <==> Connected(nb', p, q)
    {
      if Connected(nb, p, q) { SameConnected(nb, nb', p, q); }
      if Connected(nb', p, q) { SameConnected(nb', nb, p, q); }
    }
    forall k | 0 <= k < |clusters|
      ensures HasCore(nb', clusters[k])
    {
      assert HasCore(nb, clusters[k]);
    }
    forall k, l, c | 0 <= k < l < |clusters| && c in clusters[l] && Core(nb', c)
      ensures StartsBefore(nb', clusters[k], c)
    {
      assert StartsBefore(nb, clusters[k], c);
    }
    forall k, y | 0 <= k < |clusters| && y in clusters[k]
      ensures Reaches(nb', clusters[k], y)
    {
      assert Reaches(nb, clusters[k], y);
      var c :| c in clusters[k] && CoreNeighbour(nb, c, y);
      assert CoreNeighbour(nb', c, y);
    }
  }
}
