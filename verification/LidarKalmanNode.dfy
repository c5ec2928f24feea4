/** The tracker node: its methods update the track table in place, in the order of the callback. */
module LidarTracking {
  import opened Permutations
  import opened Hungarian
  import opened HungarianSolver
  import opened Association
  import opened SmallMatrices
  import opened DetectedObjects
  import opened TrackTable
  import opened TrackLaws
  import opened TrackerContract
  import opened Lists
  import Kalman

  class LidarKalmanNode {
    var tracks: seq<Track>
    var nextId: int
    const norm: Norm

    constructor (norm: Norm)
      ensures Valid() && Contents() == Table([], 0) && this.norm == norm
    {
      this.norm := norm;
      tracks, nextId := [], 0;
    }

    function Contents(): Table
      reads this
    {
      Table(tracks, nextId)
    }

    ghost predicate Valid()
      reads this
    {
      TrackTable.Valid(Contents())
    }

    /** Round robin over the 256 ids, from `nextId` on. */
    method AllocateTrackID() returns (id: int)
      requires DistinctIds(tracks) && 0 <= nextId < IDS
      modifies this`nextId
      ensures id == FreshId(tracks, old(nextId))
      ensures if id < 0 then |tracks| == 256
              else IsFirstFree(tracks, old(nextId), id)
      ensures nextId == if id < 0 then old(nextId) else (id + 1) % IDS
    {
      ghost var from := nextId;
      var used := LiveIds(tracks);
      var i := 0;
      while i < IDS
        invariant 0 <= i <= IDS
        invariant FreshId(tracks, nextId) == Probe(used, nextId, i)
      {
        var candidate := (nextId + i) % IDS;
        if candidate !in used {
          AllocatesFirstFree(tracks, from);
          nextId := (candidate + 1) % IDS;
          return candidate;
        }
        i := i + 1;
      }
      AllocatesFirstFree(tracks, from);
      return -1;
    }

    method Prediction(tr: Track, dt: real) returns (r: Track)
      ensures r == tr.(state := Kalman.Predict(tr.state, dt))
      ensures Kalman.Healthy(tr.state.P) ==> r == tr.(state := Kalman.AxisPrediction(tr.state, dt))
    {
      if Kalman.Healthy(tr.state.P) {
        Kalman.PredictIsAxisWise(tr.state, dt);
      }
      var F := Kalman.Transition(dt);
      r := tr;
      r := r.(state := r.state.(x := Apply4(F, r.state.x)));
      r := r.(state := r.state.(P := AddMat4(Mul44(Mul44(F, r.state.P), Transpose4(F)), Kalman.Q)));
    }

    /** `clock` is the reading of the node's clock at the time of the update. */
    method KalmanUpdate(tr: Track, det: Detection, clock: real) returns (r: Track)
      requires Kalman.Healthy(tr.state.P)
      ensures forall now :: r.(lastTime := now, missed := 0, tracked := tr.tracked + 1, updated := true) ==
                            MatchedWith(norm, tr, det, clock, now)
      ensures var e := Kalman.TimeSince(clock, tr.lastTime);
              var v := Kalman.ImpliedVelocity(Kalman.Weight(tr.state.P), det.pos.a0 - tr.state.x.a0,
                                              det.pos.a1 - tr.state.x.a1, e);
              r == tr.(state := Kalman.AxisUpdate(tr.state, det.pos, e), box := det.box, score := 0.0,
                       vel := norm(v.a0, v.a1))
    {
      Kalman.UpdateIsAxisWise(tr.state, det.pos, clock - tr.lastTime);
      Kalman.CorrectRefines(tr.state.P);
      var y := Sub2(det.pos, Apply24(Kalman.H, tr.state.x));
      var K := Kalman.Gain(tr.state.P);
      var before := tr.state;
      r := tr;
      r := r.(state := r.state.(x := Add4(r.state.x, Apply42(K, y))));
      r := r.(state := r.state.(P := Mul44(SubMat4(Scalar4(1.0), Mul42x24(K, Kalman.H)), r.state.P)));
      var dt := clock - tr.lastTime;
      if dt <= 0.0 {
        dt := 0.01;
      }
      var vx, vy := (r.state.x.a0 - before.x.a0) / dt, (r.state.x.a1 - before.x.a1) / dt;
      var x := r.state.x.(a2 := 0.7 * r.state.x.a2 + 0.3 * vx, a3 := 0.7 * r.state.x.a3 + 0.3 * vy);
      r := r.(state := r.state.(x := x), box := det.box, score := 0.0, vel := norm(vx, vy));
    }

    /** The first loop of the callback: predicts every track and counts a miss against it. */
    method AgeTracks(now: real)
      modifies this`tracks
      ensures tracks == AgedAll(old(tracks), now)
    {
      ghost var before := tracks;
      var j := 0;
      while j < |tracks|
        invariant 0 <= j <= |tracks| == |before|
        invariant forall k :: 0 <= k < |tracks| ==> tracks[k] == if k < j then Aged(before[k], now) else before[k]
      {
        var dt := now - tracks[j].lastTime;
        if dt <= 0.0 {
          dt := 0.01;
        }
        var tr := Prediction(tracks[j], dt);
        tracks := tracks[j := tr.(missed := tr.missed + 1, updated := false)];
        j := j + 1;
      }
    }

    /** The cost matrix: distances inside the gate, 1e6 elsewhere. */
    method BuildCosts(detections: seq<Detection>) returns (cost: Matrix)
      ensures cost == Costs(norm, detections, tracks)
    {
      var N, M := |detections|, |tracks|;
      cost := seq(N, _ => seq(M, _ => PAD));
      var i := 0;
      while i < N
        invariant 0 <= i <= N == |cost|
        invariant forall r :: 0 <= r < N ==> |cost[r]| == M
        invariant forall r :: 0 <= r < i ==> cost[r] == Costs(norm, detections, tracks)[r]
        invariant forall r :: i <= r < N ==> cost[r] == seq(M, _ => PAD)
      {
        var row := cost[i];
        var j := 0;
        while j < M
          invariant 0 <= j <= M == |row|
          invariant forall k :: 0 <= k < M ==> row[k] == if k < j then PairCost(norm, detections[i], tracks[k]) else PAD
        {
          var d := norm(detections[i].pos.a0 - tracks[j].state.x.a0, detections[i].pos.a1 - tracks[j].state.x.a1);
          if d < GATE {
            row := row[j := d];
          }
          j := j + 1;
        }
        assert row == Costs(norm, detections, tracks)[i];
        cost := cost[i := row];
        i := i + 1;
      }
    }

    /** Runs the solver when there is something to match. */
    method Associate(cost: Matrix, M: nat) returns (assignment: seq<int>)
      requires IsGated(cost) && (forall i :: 0 <= i < |cost| ==> |cost[i]| == M) && M <= IDS
      ensures |assignment| == |cost| && IsMatching(assignment, M)
      ensures Fits(cost, assignment, M) && LexicographicallyBest(cost, Accepted(cost, assignment))
    {
      if |cost| > 0 && M > 0 {
        ghost var w;
        assignment, w := Solve(cost);
        ProvenIsOptimal(w, cost, assignment);
        GatedOptimum(cost, w.square, w.perm);
      } else {
        assignment := seq(|cost|, _ => -1);
        NothingToMatch(cost, M);
      }
    }

    /** The first of the two loops over the costs. */
    method ResetCosts()
      modifies this`tracks
      ensures |tracks| == |old(tracks)|
      ensures forall k :: 0 <= k < |tracks| ==> tracks[k] == old(tracks)[k].(cost := 1000000.0)
    {
      ghost var before := tracks;
      var k := 0;
      while k < |tracks|
        invariant 0 <= k <= |tracks| == |before|
        invariant forall l :: 0 <= l < |tracks| ==> tracks[l] == if l < k then before[l].(cost := PAD) else before[l]
      {
        tracks := tracks[k := tracks[k].(cost := PAD)];
        k := k + 1;
      }
    }

    /** The accepted pairs leave their cost with the track; the other tracks get 1e6. */
    method RecordCosts(cost: Matrix, assignment: seq<int>)
      requires Fits(cost, assignment, |tracks|)
      modifies this`tracks
      ensures Fits(cost, Accepted(cost, assignment), |old(tracks)|)
      ensures tracks == Costed(cost, Accepted(cost, assignment), old(tracks), |assignment|)
    {
      ghost var before, g := tracks, Accepted(cost, assignment);
      ResetCosts();
      assert tracks == Costed(cost, g, before, 0);
      var i := 0;
      while i < |assignment|
        invariant 0 <= i <= |assignment|
        invariant tracks == Costed(cost, g, before, i)
      {
        CostedNext(cost, g, before, i);
        var j := assignment[i];
        if j != -1 && j < |tracks| && cost[i][j] < GATE {
          tracks := tracks[j := tracks[j].(cost := cost[i][j])];
        }
        i := i + 1;
      }
    }

    /** One detection: updates the track that accepts it, or creates a new track. */
    method HandleDetection(frame: Frame, i: nat, j: int, accepted: bool, ghost before: Table, ghost g: seq<int>)
      requires Handling(norm, before, frame, g, i, Contents()) && i < |g|
      requires g[i] == if accepted then j else -1
      requires accepted ==> j != -1
      modifies this
      ensures Handling(norm, before, frame, g, i + 1, Contents())
    {
      ghost var next := HandleNext(norm, before, frame, g, i, Contents());
      var d := frame.detections[i];
      if accepted {
        var tr := KalmanUpdate(tracks[j], d, frame.clocks[i]);
        tracks := tracks[j := tr.(lastTime := frame.now, missed := 0, tracked := tr.tracked + 1, updated := true)];
      } else {
        var id := AllocateTrackID();
        if id >= 0 {
          tracks := tracks + [Created(id, d, frame.now)];
        }
      }
      assert Contents() == next;
    }

    /** The loop over the detections. */
    method HandleDetections(frame: Frame, cost: Matrix, assignment: seq<int>, ghost g: seq<int>)
      requires Fits(cost, assignment, |tracks|) && g == Accepted(cost, assignment)
      requires Handling(norm, Contents(), frame, g, 0, Contents())
      modifies this
      ensures Handling(norm, old(Contents()), frame, g, |g|, Contents())
    {
      ghost var before := Contents();
      var i := 0;
      while i < |frame.detections|
        invariant 0 <= i <= |frame.detections| == |g|
        invariant Handling(norm, before, frame, g, i, Contents())
      {
        var j := assignment[i];
        var accepted := j != -1 && cost[i][j] < GATE;
        HandleDetection(frame, i, j, accepted, before, g);
        i := i + 1;
      }
    }

    /** The publishing loop: skips the tracks that the filter holds back. */
    method Publish() returns (published: seq<Track>)
      ensures published == PublishedTracks(Contents())
    {
      published := [];
      ghost var all := PublishedTracks(Contents());
      assert tracks[0..] == tracks;
      var k := 0;
      while k < |tracks|
        invariant 0 <= k <= |tracks|
        invariant all == published + Filter(Published, tracks[k..])
      {
        FilterTail(Published, tracks, k, published);
        if !(tracks[k].missed > 0 && tracks[k].cost > PUBLISH_COST) {
          published := published + [tracks[k]];
        }
        k := k + 1;
      }
    }

    /**
     One point cloud: the table becomes what `Advance` says, for an assignment that accepts as
     many pairs inside the gate as possible at the least total distance; what is published are
     the tracks that the filter lets through. The last two clauses say the same of the tracks
     before and after, field by field.
     */
    method Callback(frame: Frame) returns (published: seq<Track>, assignment: seq<int>)
      requires Valid() && frame.Valid()
      modifies this
      ensures Valid() && Allowed(old(Contents()), frame, assignment)
      ensures Contents() == Advance(norm, old(Contents()), frame, assignment)
      ensures LexicographicallyBest(Costs(norm, frame.detections, AgedAll(old(tracks), frame.now)),
                                    Gated(norm, old(Contents()), frame, assignment))
      ensures published == PublishedTracks(Contents())
      ensures exists cost, g :: AreDistances(norm, frame, old(tracks), cost) && LexicographicallyBest(cost, g) &&
                Tracked(norm, old(Contents()), frame, g, Contents())
      ensures exists places :: IsSelection(tracks, Fresh, places, published)
    {
      ghost var before := Contents();
      AtMostAllIds(tracks);
      AgeTracks(frame.now);
      var cost := BuildCosts(frame.detections);
      assignment := Associate(cost, |tracks|);
      RecordCosts(cost, assignment);
      assert Contents() == Prepared(norm, before, frame, assignment);
      HandleDetections(frame, cost, assignment, Gated(norm, before, frame, assignment));
      AdvanceKeepsValid(norm, before, frame, assignment);
      AdvanceAfterHandling(norm, before, frame, assignment, Contents());
      tracks := Filter(Survives, tracks);
      published := Publish();
      CostsAreDistances(norm, before, frame);
      AdvanceIsTracked(norm, before, frame, assignment);
      ghost var places := FreshIsPublished(norm, before, frame, assignment);
    }
  }

  lemma FilterTail(keep: Track -> bool, tracks: seq<Track>, k: nat, done: seq<Track>)
    requires k < |tracks|
    ensures done + Filter(keep, tracks[k..]) ==
            (if keep(tracks[k]) then done + [tracks[k]] else done) + Filter(keep, tracks[k + 1..])
  {
    assert tracks[k..][1..] == tracks[k + 1..];
    var rest := Filter(keep, tracks[k + 1..]);
    assert done + ([tracks[k]] + rest) == done + [tracks[k]] + rest;
    assert done + ([] + rest) == done + rest;
  }

  /** Recording the cost of one more accepted pair. */
  lemma CostedNext(cost: Matrix, g: seq<int>, tracks: seq<Track>, k: nat)
    requires Fits(cost, g, |tracks|) && k < |g|
    ensures var costed := Costed(cost, g, tracks, k);
            Costed(cost, g, tracks, k + 1) ==
            if g[k] == -1 then costed else costed[g[k] := costed[g[k]].(cost := cost[k][g[k]])]
  {
  }

  /** Erasure completes the callback. */
  lemma AdvanceAfterHandling(norm: Norm, t: Table, f: Frame, a: seq<int>, now: Table)
    requires Allowed(t, f, a)
    requires Handling(norm, Prepared(norm, t, f, a), f, Gated(norm, t, f, a), |a|, now)
    ensures Advance(norm, t, f, a) == Table(Filter(Survives, now.tracks), now.nextId)
  {
  }

  /** With no detections or no tracks the empty assignment is the only one. */
  lemma NothingToMatch(cost: Matrix, M: nat)
    requires IsGated(cost) && forall i :: 0 <= i < |cost| ==> |cost[i]| == M
    requires |cost| == 0 || M == 0
    ensures IsMatching(seq(|cost|, _ => -1), M)
    ensures LexicographicallyBest(cost, Accepted(cost, seq(|cost|, _ => -1)))
  {
    var none := seq(|cost|, _ => -1);
    assert Accepted(cost, none) == none;
    forall b | IsGatedMatching(cost, b)
      ensures b == none
    {
    }
  }
}
