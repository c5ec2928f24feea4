/** From the point cloud to what is published: the clustering feeds the tracker. */
module LidarPipeline {
  import opened Permutations
  import opened DensityReach
  import opened DetectedObjects
  import opened Lists
  import opened DbscanClustering
  import opened TrackTable
  import opened TrackLaws
  import opened TrackerContract
  import opened LidarTracking
  import opened Association

  // ---------- boxes and clusters ----------

  /** The box is the exact box of cluster c, which passes the size filter. */
  ghost predicate BoxesCluster(points: seq<Point>, clusters: seq<set<int>>, c: int, box: Box) {
    && 0 <= c < |clusters|
    && Encloses(points, clusters[c], box) && !Discarded(points, clusters[c], box)
  }

  /** Track k boxes cluster `of[k]`, and no two tracks box the same cluster. */
  ghost predicate BoxClusters(points: seq<Point>, clusters: seq<set<int>>, tracks: seq<Track>, of: seq<int>) {
    && |of| == |tracks| && Distinct(of)
    && forall k {:trigger BoxesCluster(points, clusters, of[k], tracks[k].box)} ::
         0 <= k < |of| ==> BoxesCluster(points, clusters, of[k], tracks[k].box)
  }

  // ---------- tracks and detections ----------

  /** A detection that the track serves. */
  ghost function DetectionOf(p: Progress, tr: Track): (i: int)
    requires exists i :: IsSlotOf(p.table.tracks, p.slots, i, tr)
    ensures IsSlotOf(p.table.tracks, p.slots, i, tr)
  {
    var i :| IsSlotOf(p.table.tracks, p.slots, i, tr);
    i
  }

  /** The published tracks serve different detections, and carry their boxes. */
  lemma PublishedServe(norm: Norm, t: Table, f: Frame, a: seq<int>) returns (served: seq<int>)
    requires Allowed(t, f, a)
    ensures var pub := PublishedTracks(Advance(norm, t, f, a));
            && |served| == |pub| && Distinct(served)
            && forall k :: 0 <= k < |pub| ==>
                 0 <= served[k] < |f.detections| && pub[k].box == f.detections[served[k]].box && pub[k].missed == 0
  {
    PublishedMatchDetections(norm, t, f, a);
    var p, pub := Processed(norm, t, f, a), PublishedTracks(Advance(norm, t, f, a));
    forall k | 0 <= k < |pub|
      ensures exists i :: IsSlotOf(p.table.tracks, p.slots, i, pub[k])
    {
      assert pub[k] in pub;
    }
    served := seq(|pub|, k requires 0 <= k < |pub| => DetectionOf(p, pub[k]));
    forall k | 0 <= k < |pub|
      ensures IsSlotOf(p.table.tracks, p.slots, served[k], pub[k])
      ensures PublishedFor(p.table.tracks, p.slots[served[k]], pub, f.detections[served[k]], f.now)
    {
      assert served[k] == DetectionOf(p, pub[k]);
    }
  }

  /**
   Every published box holds all the points of a cluster of the density partition and is reached
   by them on all six sides; the cluster passes the size filter, and none is published twice.
   */
  lemma PublishedAreClusters(points: seq<Point>, clusters: seq<set<int>>, from: seq<int>,
                             norm: Norm, t: Table, f: Frame, a: seq<int>) returns (of: seq<int>)
    requires AreDetections(points, clusters, f.detections, from) && Allowed(t, f, a)
    ensures BoxClusters(points, clusters, PublishedTracks(Advance(norm, t, f, a)), of)
  {
    var pub := PublishedTracks(Advance(norm, t, f, a));
    var served := PublishedServe(norm, t, f, a);
    of := seq(|pub|, k requires 0 <= k < |pub| => from[served[k]]);
    forall k | 0 <= k < |pub|
      ensures BoxesCluster(points, clusters, of[k], pub[k].box)
    {
      assert Yields(points, clusters[from[served[k]]], f.detections[served[k]]);
    }
  }

  /** The frame takes the table to t', for a best assignment of its detections to the predicted tracks. */
  ghost predicate IsTrackedBy(norm: Norm, t: Table, f: Frame, t': Table) {
    exists cost, g ::
      AreDistances(norm, f, t.tracks, cost) && LexicographicallyBest(cost, g) && Tracked(norm, t, f, g, t')
  }

  /** What is published are boxes of different clusters of the density partition. */
  ghost predicate PublishesClusters(points: seq<Point>, nb: Neighbours, published: seq<Track>) {
    exists clusters, of :: Canonical(nb, clusters) && BoxClusters(points, clusters, published, of)
  }

  /** The detections are those of the density partition. */
  ghost predicate AreOfPartition(points: seq<Point>, nb: Neighbours, detections: seq<Detection>) {
    exists clusters, from :: Canonical(nb, clusters) && AreDetections(points, clusters, detections, from)
  }

  lemma PublishedFromPartition(points: seq<Point>, nb: Neighbours, norm: Norm, t: Table, f: Frame, a: seq<int>)
    requires AreOfPartition(points, nb, f.detections) && Allowed(t, f, a)
    ensures PublishesClusters(points, nb, PublishedTracks(Advance(norm, t, f, a)))
  {
    var clusters, from :| Canonical(nb, clusters) && AreDetections(points, clusters, f.detections, from);
    var of := PublishedAreClusters(points, clusters, from, norm, t, f, a);
  }

  /**
   The whole callback: clusters the cloud and tracks the detections. What it publishes are
   boxes of different clusters of the density partition, of which there is only one; and the
   detections of that partition take the table to the next one.
   */
  method OnCloud(node: LidarKalmanNode, points: seq<Point>, nb: Neighbours, now: real, clock: int -> real)
    returns (published: seq<Track>, ghost frame: Frame)
    requires node.Valid() && |points| == |nb| && IsNeighbourhood(nb)
    requires forall k :: 0 <= k < |points| ==> FinitePoint(points[k])
    modifies node
    ensures node.Valid() && PublishesClusters(points, nb, published)
    ensures frame.now == now && AreOfPartition(points, nb, frame.detections)
    ensures IsTrackedBy(node.norm, old(node.Contents()), frame, node.Contents())
    ensures exists places :: IsSelection(node.tracks, Fresh, places, published)
  {
    ghost var before := node.Contents();
    var detections := Clustering(points, nb);
    var input := Frame(detections, now, seq(|detections|, k => clock(k)));
    frame := input;
    var assignment;
    published, assignment := node.Callback(input);
    PublishedFromPartition(points, nb, node.norm, before, input, assignment);
  }
}
