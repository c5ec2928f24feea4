/** What one callback does to the track table, stated field by field on the tracks before and after it. */
module TrackerContract {
  import opened Permutations
  import opened Hungarian
  import opened Association
  import opened SmallMatrices
  import opened DetectedObjects
  import opened Lists
  import opened TrackTable
  import opened TrackLaws
  import Kalman

  /** The state that a track is predicted to have at a time. */
  function StateAt(tr: Track, now: real): Kalman.State {
    Kalman.AxisPrediction(tr.state, Kalman.TimeSince(now, tr.lastTime))
  }

  /** How far a detection lies from where a track is predicted to be. */
  function DistanceAt(norm: Norm, d: Detection, tr: Track, now: real): real {
    norm(d.pos.a0 - StateAt(tr, now).x.a0, d.pos.a1 - StateAt(tr, now).x.a1)
  }

  /** The association costs: distances below 2, and 1e6 for all other pairs. */
  ghost predicate AreDistances(norm: Norm, f: Frame, tracks: seq<Track>, cost: Matrix) {
    && |cost| == |f.detections|
    && (forall i :: 0 <= i < |cost| ==> |cost[i]| == |tracks|)
    && forall i, j :: 0 <= i < |cost| && 0 <= j < |tracks| ==>
         var d := DistanceAt(norm, f.detections[i], tracks[j], f.now);
         cost[i][j] == if d < 2.0 then d else 1000000.0
  }

  /** r is the track after a match: predicted to the frame, then corrected by the detection. */
  ghost predicate IsMatched(norm: Norm, tr: Track, d: Detection, clock: real, now: real, r: Track) {
    var p, e := StateAt(tr, now), Kalman.TimeSince(clock, tr.lastTime);
    && Kalman.AxisOf(p.P).a > 0.0
    && var v := Kalman.ImpliedVelocity(Kalman.Weight(p.P), d.pos.a0 - p.x.a0, d.pos.a1 - p.x.a1, e);
       r == Track(tr.id, Kalman.AxisUpdate(p, d.pos, e), d.box, now, 0, 0.0, tr.tracked + 1, true,
                  norm(v.a0, v.a1), DistanceAt(norm, d, tr, now))
  }

  /** r is the track after a miss: predicted only, and one miss older. */
  ghost predicate IsMissed(tr: Track, now: real, r: Track) {
    r == Track(tr.id, StateAt(tr, now), tr.box, tr.lastTime, tr.missed + 1, tr.score, tr.tracked, false, tr.vel,
               1000000.0)
  }

  /** r is a track that starts with a detection: at its position, at rest, with covariance 100 I. */
  ghost predicate IsStarted(d: Detection, now: real, r: Track) {
    && 0 <= r.id < 256
    && r == Track(r.id, Kalman.State(Vec4(d.pos.a0, d.pos.a1, 0.0, 0.0), Kalman.Block(100.0, 0.0, 100.0)),
                  d.box, now, 0, 0.0, 1, true, 0.0, 1000000.0)
  }

  // ---------- the three fates ----------

  lemma AgedIsPredicted(tr: Track, now: real)
    requires Kalman.Healthy(tr.state.P)
    ensures Aged(tr, now) == tr.(state := StateAt(tr, now), missed := tr.missed + 1, updated := false)
  {
    Kalman.PredictIsAxisWise(tr.state, Kalman.Elapsed(now - tr.lastTime));
  }

  lemma CostsAreDistances(norm: Norm, t: Table, f: Frame)
    requires AllHealthy(t.tracks)
    ensures AreDistances(norm, f, t.tracks, Costs(norm, f.detections, AgedAll(t.tracks, f.now)))
  {
    forall i, j | 0 <= i < |f.detections| && 0 <= j < |t.tracks|
      ensures PairCost(norm, f.detections[i], Aged(t.tracks[j], f.now)) ==
              (var d := DistanceAt(norm, f.detections[i], t.tracks[j], f.now); if d < 2.0 then d else 1000000.0)
    {
      AgedIsPredicted(t.tracks[j], f.now);
    }
  }

  /** An accepted track when its detection comes up: predicted, with its distance recorded. */
  lemma PreparedMatch(norm: Norm, t: Table, f: Frame, a: seq<int>, i: nat)
    requires Allowed(t, f, a) && i < |a| && Gated(norm, t, f, a)[i] != -1
    ensures var j := Gated(norm, t, f, a)[i];
            && Kalman.Healthy(t.tracks[j].state.P)
            && Prepared(norm, t, f, a).tracks[j] ==
               Aged(t.tracks[j], f.now).(cost := DistanceAt(norm, f.detections[i], t.tracks[j], f.now))
  {
    var aged, g := AgedAll(t.tracks, f.now), Gated(norm, t, f, a);
    var cost, j := Costs(norm, f.detections, aged), g[i];
    CostAfterMeans(cost, g, |aged|, j, |g|);
    CostsAreDistances(norm, t, f);
    assert cost[i][j] < GATE;
  }

  lemma AgedStaysHealthy(tr: Track, now: real)
    requires Kalman.Healthy(tr.state.P)
    ensures Kalman.Healthy(Aged(tr, now).state.P)
  {
    AgedKeepsHealthy([tr], now);
    assert AgedAll([tr], now)[0] == Aged(tr, now);
  }

  /** The correction of a predicted track is what a match has to make of the track. */
  lemma CorrectedIsMatched(norm: Norm, tr: Track, d: Detection, clock: real, now: real)
    requires Kalman.Healthy(tr.state.P)
    ensures Kalman.Healthy(Aged(tr, now).state.P)
    ensures IsMatched(norm, tr, d, clock, now,
                      MatchedWith(norm, Aged(tr, now).(cost := DistanceAt(norm, d, tr, now)), d, clock, now))
  {
    AgedStaysHealthy(tr, now);
    AgedIsPredicted(tr, now);
    MatchedIsUpdated(norm, Aged(tr, now).(cost := DistanceAt(norm, d, tr, now)), d, clock, now);
  }

  /** A matched track is in the table afterwards, predicted and then corrected by its detection. */
  lemma MatchedIsCorrected(norm: Norm, t: Table, f: Frame, a: seq<int>, i: nat) returns (r: Track)
    requires Allowed(t, f, a) && i < |a| && Gated(norm, t, f, a)[i] != -1
    ensures r in Advance(norm, t, f, a).tracks
    ensures IsMatched(norm, t.tracks[Gated(norm, t, f, a)[i]], f.detections[i], f.clocks[i], f.now, r)
  {
    CallbackServes(norm, t, f, a);
    var p, g, t0 := Processed(norm, t, f, a), Gated(norm, t, f, a), Prepared(norm, t, f, a);
    var j := g[i];
    assert Serves(norm, t0, f, g, p, i);
    r := p.table.tracks[j];
    PreparedMatch(norm, t, f, a, i);
    CorrectedIsMatched(norm, t.tracks[j], f.detections[i], f.clocks[i], f.now);
    assert Survives(r);
  }

  /** A track that is not matched stays, predicted only, unless it has missed 10 callbacks before. */
  lemma MissedIsPredicted(norm: Norm, t: Table, f: Frame, a: seq<int>, j: nat) returns (r: Track)
    requires Allowed(t, f, a) && j < |t.tracks| && j !in Gated(norm, t, f, a) && t.tracks[j].missed < 10
    ensures r in Advance(norm, t, f, a).tracks && IsMissed(t.tracks[j], f.now, r)
  {
    UnmatchedAges(norm, t, f, a, j);
    AgedIsPredicted(t.tracks[j], f.now);
    r := Aged(t.tracks[j], f.now).(cost := PAD);
  }

  /** A detection without a match starts a track with a new id, unless all 256 ids are live by then. */
  lemma UnmatchedStarts(norm: Norm, t: Table, f: Frame, a: seq<int>, i: nat) returns (r: Track)
    requires Allowed(t, f, a) && i < |a| && Gated(norm, t, f, a)[i] == -1
    requires |t.tracks| + Unmatched(Gated(norm, t, f, a), i) < 256
    ensures r in Advance(norm, t, f, a).tracks && IsStarted(f.detections[i], f.now, r)
    ensures forall j :: 0 <= j < |t.tracks| ==> t.tracks[j].id != r.id
  {
    CallbackServes(norm, t, f, a);
    var p, g, t0 := Processed(norm, t, f, a), Gated(norm, t, f, a), Prepared(norm, t, f, a);
    assert Serves(norm, t0, f, g, p, i);
    r := p.table.tracks[p.slots[i]];
    assert Survives(r);
    forall j | 0 <= j < |t.tracks|
      ensures t.tracks[j].id != r.id
    {
      PreparedTrack(norm, t, f, a, j);
      assert p.table.tracks[j].id == t.tracks[j].id;
    }
  }

  // ---------- the whole callback ----------

  /** Detection i has corrected its track, or started one, or was refused because the table is full. */
  ghost predicate IsServed(norm: Norm, t: Table, f: Frame, g: seq<int>, t': Table, i: int)
    requires f.Valid() && |g| == |f.detections| && IsMatching(g, |t.tracks|) && 0 <= i < |g|
  {
    if g[i] != -1 then
      exists r :: r in t'.tracks && IsMatched(norm, t.tracks[g[i]], f.detections[i], f.clocks[i], f.now, r)
    else
      |t.tracks| + Unmatched(g, i) < 256 ==>
        exists r :: r in t'.tracks && IsStarted(f.detections[i], f.now, r) && Absent(t, r.id)
  }

  /** An old track without a detection is predicted only, and leaves after its 11th miss. */
  ghost predicate IsLeftAlone(t: Table, f: Frame, t': Table, j: int)
    requires 0 <= j < |t.tracks|
  {
    if t.tracks[j].missed < 10 then exists r :: r in t'.tracks && IsMissed(t.tracks[j], f.now, r)
    else Absent(t', t.tracks[j].id)
  }

  /** Every track of the new table is an old one, matched or missed, or was started by a detection. */
  ghost predicate HasOrigin(norm: Norm, t: Table, f: Frame, g: seq<int>, r: Track)
    requires f.Valid() && |g| == |f.detections| && IsMatching(g, |t.tracks|)
  {
    || (exists i :: 0 <= i < |g| && g[i] != -1 &&
          IsMatched(norm, t.tracks[g[i]], f.detections[i], f.clocks[i], f.now, r))
    || (exists i :: 0 <= i < |g| && g[i] == -1 && IsStarted(f.detections[i], f.now, r))
    || (exists j :: 0 <= j < |t.tracks| && j !in g && IsMissed(t.tracks[j], f.now, r))
  }

  /** What a callback makes of a table, for the accepted pairs `g`. */
  ghost predicate Tracked(norm: Norm, t: Table, f: Frame, g: seq<int>, t': Table) {
    && f.Valid() && |g| == |f.detections| && IsMatching(g, |t.tracks|)
    && (forall i {:trigger IsServed(norm, t, f, g, t', i)} :: 0 <= i < |g| ==> IsServed(norm, t, f, g, t', i))
    && (forall j {:trigger IsLeftAlone(t, f, t', j)} :: 0 <= j < |t.tracks| && j !in g ==> IsLeftAlone(t, f, t', j))
    && (forall r :: r in t'.tracks ==> HasOrigin(norm, t, f, g, r))
  }

  lemma DetectionIsServed(norm: Norm, t: Table, f: Frame, a: seq<int>, i: nat)
    requires Allowed(t, f, a) && i < |a|
    ensures IsServed(norm, t, f, Gated(norm, t, f, a), Advance(norm, t, f, a), i)
  {
    if Gated(norm, t, f, a)[i] != -1 {
      var r := MatchedIsCorrected(norm, t, f, a, i);
    } else if |t.tracks| + Unmatched(Gated(norm, t, f, a), i) < 256 {
      var r := UnmatchedStarts(norm, t, f, a, i);
    }
  }

  lemma TrackIsLeftAlone(norm: Norm, t: Table, f: Frame, a: seq<int>, j: nat)
    requires Allowed(t, f, a) && j < |t.tracks| && j !in Gated(norm, t, f, a)
    ensures IsLeftAlone(t, f, Advance(norm, t, f, a), j)
  {
    if t.tracks[j].missed < 10 {
      var r := MissedIsPredicted(norm, t, f, a, j);
    } else {
      UnmatchedLeaves(norm, t, f, a, j);
    }
  }

  lemma TrackHasOrigin(norm: Norm, t: Table, f: Frame, a: seq<int>, r: Track)
    requires Allowed(t, f, a) && r in Advance(norm, t, f, a).tracks
    ensures HasOrigin(norm, t, f, Gated(norm, t, f, a), r)
  {
    CallbackServes(norm, t, f, a);
    var p, g, t0 := Processed(norm, t, f, a), Gated(norm, t, f, a), Prepared(norm, t, f, a);
    var s :| 0 <= s < |p.table.tracks| && p.table.tracks[s] == r;
    SlotState(norm, t, f, a, s);
    if s in p.slots {
      var i :| 0 <= i < |p.slots| && p.slots[i] == s;
      assert Serves(norm, t0, f, g, p, i);
      if g[i] != -1 {
        PreparedMatch(norm, t, f, a, i);
        CorrectedIsMatched(norm, t.tracks[g[i]], f.detections[i], f.clocks[i], f.now);
      } else {
        assert IsStarted(f.detections[i], f.now, r);
      }
    } else {
      AgedIsPredicted(t.tracks[s], f.now);
      assert IsMissed(t.tracks[s], f.now, r);
    }
  }

  /**
   The callback: accepted detections correct the predicted tracks, the other tracks are predicted
   only, the other detections start tracks, and nothing else is in the table afterwards.
   */
  lemma AdvanceIsTracked(norm: Norm, t: Table, f: Frame, a: seq<int>)
    requires Allowed(t, f, a)
    ensures Tracked(norm, t, f, Gated(norm, t, f, a), Advance(norm, t, f, a))
  {
    var g, t' := Gated(norm, t, f, a), Advance(norm, t, f, a);
    forall i | 0 <= i < |g|
      ensures IsServed(norm, t, f, g, t', i)
    {
      DetectionIsServed(norm, t, f, a, i);
    }
    forall j | 0 <= j < |t.tracks| && j !in g
      ensures IsLeftAlone(t, f, t', j)
    {
      TrackIsLeftAlone(norm, t, f, a, j);
    }
    forall r | r in t'.tracks
      ensures HasOrigin(norm, t, f, g, r)
    {
      TrackHasOrigin(norm, t, f, a, r);
    }
  }

  // ---------- what is published ----------

  predicate Fresh(tr: Track) { tr.missed == 0 }

  lemma {:induction false} FilterAppend(keep: Track -> bool, tracks: seq<Track>, tr: Track)
    ensures Filter(keep, tracks + [tr]) == Filter(keep, tracks) + if keep(tr) then [tr] else []
  {
    if tracks == [] {
      assert [] + [tr] == [tr] && [tr][1..] == [];
    } else {
      assert (tracks + [tr])[1..] == tracks[1..] + [tr];
      FilterAppend(keep, tracks[1..], tr);
    }
  }

  /** A filter selects in order, for any test that decides the same. */
  lemma {:induction false} FilterSelects(keep: Track -> bool, test: Track -> bool, tracks: seq<Track>)
    returns (places: seq<int>)
    requires forall tr :: tr in tracks ==> (keep(tr) <==> test(tr))
    ensures IsSelection(tracks, test, places, Filter(keep, tracks))
  {
    places := [];
    if tracks != [] {
      var front, last := tracks[..|tracks| - 1], tracks[|tracks| - 1];
      assert tracks == front + [last] && last in tracks;
      places := FilterSelects(keep, test, front);
      FilterAppend(keep, front, last);
      SelectionAppend(front, test, places, Filter(keep, front), last);
      if test(last) {
        places := places + [|front|];
      }
    }
  }

  lemma OriginIsPublished(norm: Norm, t: Table, f: Frame, g: seq<int>, r: Track)
    requires f.Valid() && |g| == |f.detections| && IsMatching(g, |t.tracks|) && HasOrigin(norm, t, f, g, r)
    requires Valid(t)
    ensures Published(r) <==> Fresh(r)
  {
  }

  /** What is published are the tracks that served a detection in this callback, in the order of the table. */
  lemma FreshIsPublished(norm: Norm, t: Table, f: Frame, a: seq<int>) returns (places: seq<int>)
    requires Allowed(t, f, a)
    ensures var t' := Advance(norm, t, f, a); IsSelection(t'.tracks, Fresh, places, PublishedTracks(t'))
  {
    var t' := Advance(norm, t, f, a);
    forall r | r in t'.tracks
      ensures Published(r) <==> Fresh(r)
    {
      TrackHasOrigin(norm, t, f, a, r);
      OriginIsPublished(norm, t, f, Gated(norm, t, f, a), r);
    }
    places := FilterSelects(Published, Fresh, t'.tracks);
  }

  // ---------- whole runs ----------

  /** The covariance of the track is that of a filter run from 100 I. */
  ghost predicate IsFilterRun(tr: Track) {
    exists events :: IsRunOf(tr.state.P, events)
  }

  ghost predicate IsRunOf(P: Mat4, events: seq<Kalman.Event>) {
    P == Kalman.AxisRun(Kalman.Axis(100.0, 0.0, 100.0), events).Matrix()
  }

  lemma {:induction false} RunIsGood(P: Mat4, events: seq<Kalman.Event>)
    requires IsRunOf(P, events)
    ensures Kalman.AxisOf(P).a > 0.0
    ensures Kalman.AxisOf(P) == Kalman.AxisRun(Kalman.Axis(100.0, 0.0, 100.0), events)
  {
  }

  lemma RunWaits(P: Mat4, events: seq<Kalman.Event>, dt: real, P': Mat4) returns (events': seq<Kalman.Event>)
    requires IsRunOf(P, events) && dt > 0.0 && P' == Kalman.AxisOf(P).Predicted(dt).Matrix()
    ensures IsRunOf(P', events')
  {
    events' := events + [Kalman.Wait(dt)];
    RunIsGood(P, events);
    Kalman.AxisRunAppend(Kalman.Axis(100.0, 0.0, 100.0), events, Kalman.Wait(dt));
  }

  lemma RunMatches(P: Mat4, events: seq<Kalman.Event>, z: Vec2, P': Mat4) returns (events': seq<Kalman.Event>)
    requires IsRunOf(P, events) && Kalman.AxisOf(P).a > 0.0 && P' == Kalman.AxisOf(P).Corrected().Matrix()
    ensures IsRunOf(P', events')
  {
    events' := events + [Kalman.Match(z, 0.0)];
    RunIsGood(P, events);
    Kalman.AxisRunAppend(Kalman.Axis(100.0, 0.0, 100.0), events, Kalman.Match(z, 0.0));
  }

  lemma MatchedIsFilterRun(norm: Norm, tr: Track, d: Detection, clock: real, now: real, r: Track)
    requires IsFilterRun(tr) && IsMatched(norm, tr, d, clock, now, r)
    ensures IsFilterRun(r)
  {
    var events := PredictedIsFilterRun(tr, now);
    var p := StateAt(tr, now);
    Kalman.AxisWiseCovariance(p, 0.0, d.pos, Kalman.TimeSince(clock, tr.lastTime));
    var events' := RunMatches(p.P, events, d.pos, r.state.P);
  }

  lemma PredictedIsFilterRun(tr: Track, now: real) returns (events: seq<Kalman.Event>)
    requires IsFilterRun(tr)
    ensures IsRunOf(StateAt(tr, now).P, events)
  {
    var before :| IsRunOf(tr.state.P, before);
    var dt := Kalman.TimeSince(now, tr.lastTime);
    RunIsGood(tr.state.P, before);
    Kalman.AxisWiseCovariance(tr.state, dt, Vec2(0.0, 0.0), 1.0);
    events := RunWaits(tr.state.P, before, dt, StateAt(tr, now).P);
  }

  lemma OriginIsFilterRun(norm: Norm, t: Table, f: Frame, g: seq<int>, r: Track)
    requires f.Valid() && |g| == |f.detections| && IsMatching(g, |t.tracks|) && HasOrigin(norm, t, f, g, r)
    requires forall tr :: tr in t.tracks ==> IsFilterRun(tr)
    ensures IsFilterRun(r)
  {
    if i :| 0 <= i < |g| && g[i] != -1 && IsMatched(norm, t.tracks[g[i]], f.detections[i], f.clocks[i], f.now, r) {
      MatchedIsFilterRun(norm, t.tracks[g[i]], f.detections[i], f.clocks[i], f.now, r);
    } else if i :| 0 <= i < |g| && g[i] == -1 && IsStarted(f.detections[i], f.now, r) {
      assert IsRunOf(r.state.P, []);
    } else {
      var j :| 0 <= j < |t.tracks| && j !in g && IsMissed(t.tracks[j], f.now, r);
      var events := PredictedIsFilterRun(t.tracks[j], f.now);
    }
  }

  lemma {:induction false} FilterRunsGoOn(norm: Norm, t: Table, steps: seq<Step>)
    requires Valid(t) && CanRun(norm, t, steps) && forall tr :: tr in t.tracks ==> IsFilterRun(tr)
    ensures forall tr :: tr in Run(norm, t, steps).tracks ==> IsFilterRun(tr)
    decreases |steps|
  {
    if steps != [] {
      var f, a := steps[0].frame, steps[0].assignment;
      AdvanceKeepsValid(norm, t, f, a);
      AdvanceIsTracked(norm, t, f, a);
      forall r | r in Advance(norm, t, f, a).tracks
        ensures IsFilterRun(r)
      {
        OriginIsFilterRun(norm, t, f, Gated(norm, t, f, a), r);
      }
      FilterRunsGoOn(norm, Advance(norm, t, f, a), steps[1..]);
    }
  }

  /** Over every run of callbacks, the covariance of every track is that of a filter run from 100 I. */
  lemma {:induction false} TracksAreFilterRuns(norm: Norm, steps: seq<Step>)
    requires CanRun(norm, Table([], 0), steps)
    ensures forall tr :: tr in Run(norm, Table([], 0), steps).tracks ==> IsFilterRun(tr)
  {
    FilterRunsGoOn(norm, Table([], 0), steps);
  }
}
