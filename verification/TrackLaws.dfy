/** What one callback guarantees about the track table, and what whole runs of callbacks guarantee. */
module TrackLaws {
  import opened Permutations
  import opened Hungarian
  import opened Association
  import opened SmallMatrices
  import opened DetectedObjects
  import opened TrackTable
  import Kalman

  // ---------- the loop over the detections ----------

  /** How many of the first k detections are matched to no track. */
  function Unmatched(g: seq<int>, k: nat): nat
    requires k <= |g|
  {
    if k == 0 then 0 else Unmatched(g, k - 1) + if g[k - 1] == -1 then 1 else 0
  }

  /** The size of a table after a number of detections without a match. */
  function Grown(size: nat, unmatched: nat): nat {
    if size + unmatched < 256 then size + unmatched else 256
  }

  /** Slot `slots[i]` of the table serves detection i: its matched track, or a new one, or none. */
  ghost predicate Serves(norm: Norm, t: Table, f: Frame, g: seq<int>, p: Progress, i: int)
    requires f.Valid() && |g| == |f.detections| && IsMatching(g, |t.tracks|) && AllHealthy(t.tracks)
    requires 0 <= i < |p.slots| <= |g|
  {
    var s, d := p.slots[i], f.detections[i];
    if g[i] != -1 then
      && s == g[i] < |p.table.tracks|
      && p.table.tracks[s] == MatchedWith(norm, t.tracks[s], d, f.clocks[i], f.now)
    else if s == -1 then
      |p.table.tracks| == IDS && |t.tracks| + Unmatched(g, i) >= 256
    else
      && s == |t.tracks| + Unmatched(g, i) < |p.table.tracks|
      && p.table.tracks[s] == Created(p.table.tracks[s].id, d, f.now)
  }

  /** The loop invariant: every detection so far is served, every other old track is as it was, ids stay distinct. */
  ghost predicate Serving(norm: Norm, t: Table, f: Frame, g: seq<int>, p: Progress)
    requires f.Valid() && |g| == |f.detections| && IsMatching(g, |t.tracks|) && AllHealthy(t.tracks)
  {
    && |p.slots| <= |g| && |t.tracks| <= |p.table.tracks|
    && |p.table.tracks| == Grown(|t.tracks|, Unmatched(g, |p.slots|))
    && DistinctIds(p.table.tracks) && 0 <= p.table.nextId < IDS
    && IsMatching(p.slots, |p.table.tracks|)
    && (forall i {:trigger Serves(norm, t, f, g, p, i)} :: 0 <= i < |p.slots| ==> Serves(norm, t, f, g, p, i))
    && (forall s :: |t.tracks| <= s < |p.table.tracks| ==> s in p.slots)
    && (forall j :: 0 <= j < |t.tracks| ==> p.table.tracks[j].id == t.tracks[j].id)
    && (forall j :: 0 <= j < |t.tracks| && j !in g[..|p.slots|] ==> p.table.tracks[j] == t.tracks[j])
  }

  lemma MatchStep(norm: Norm, t: Table, f: Frame, g: seq<int>, p: Progress)
    requires f.Valid() && |g| == |f.detections| && IsMatching(g, |t.tracks|) && AllHealthy(t.tracks)
    requires Serving(norm, t, f, g, p) && |p.slots| < |g| && g[|p.slots|] != -1
    ensures Kalman.Healthy(p.table.tracks[g[|p.slots|]].state.P)
    ensures var k := |p.slots|; Serving(norm, t, f, g, Handle(norm, p, f.detections[k], g[k], f.clocks[k], f.now))
  {
    var k := |p.slots|;
    var j := g[k];
    assert p.table.tracks[j] == t.tracks[j];
    var p' := Handle(norm, p, f.detections[k], j, f.clocks[k], f.now);
    assert g[..k + 1] == g[..k] + [j];
    forall i | 0 <= i < |p'.slots|
      ensures Serves(norm, t, f, g, p', i)
    {
      assert i < k ==> Serves(norm, t, f, g, p, i);
    }
    forall i | 0 <= i < k
      ensures p'.slots[i] != j
    {
      assert Serves(norm, t, f, g, p, i);
    }
    forall s | |t.tracks| <= s < |p'.table.tracks|
      ensures s in p'.slots
    {
      assert s in p.slots;
    }
  }

  lemma RefuseStep(norm: Norm, t: Table, f: Frame, g: seq<int>, p: Progress)
    requires f.Valid() && |g| == |f.detections| && IsMatching(g, |t.tracks|) && AllHealthy(t.tracks)
    requires Serving(norm, t, f, g, p) && |p.slots| < |g| && g[|p.slots|] == -1
    requires |p.table.tracks| == IDS
    ensures Serving(norm, t, f, g, Progress(p.table, p.slots + [-1]))
  {
    var k := |p.slots|;
    var p' := Progress(p.table, p.slots + [-1]);
    assert g[..k + 1] == g[..k] + [-1];
    forall i | 0 <= i < |p'.slots|
      ensures Serves(norm, t, f, g, p', i)
    {
      assert i < k ==> Serves(norm, t, f, g, p, i);
    }
    forall s | |t.tracks| <= s < |p'.table.tracks|
      ensures s in p'.slots
    {
      assert s in p.slots;
    }
  }

  lemma CreateStep(norm: Norm, t: Table, f: Frame, g: seq<int>, p: Progress, id: int)
    requires f.Valid() && |g| == |f.detections| && IsMatching(g, |t.tracks|) && AllHealthy(t.tracks)
    requires Serving(norm, t, f, g, p) && |p.slots| < |g| && g[|p.slots|] == -1
    requires 0 <= id < IDS && |p.table.tracks| < IDS
    requires forall k :: 0 <= k < |p.table.tracks| ==> p.table.tracks[k].id != id
    ensures var d := f.detections[|p.slots|];
            Serving(norm, t, f, g, Progress(Table(p.table.tracks + [Created(id, d, f.now)], (id + 1) % IDS),
                                            p.slots + [|p.table.tracks|]))
  {
    var k := |p.slots|;
    var tracks := p.table.tracks;
    var p' := Progress(Table(tracks + [Created(id, f.detections[k], f.now)], (id + 1) % IDS), p.slots + [|tracks|]);
    assert g[..k + 1] == g[..k] + [-1];
    forall i | 0 <= i < |p'.slots|
      ensures Serves(norm, t, f, g, p', i)
    {
      assert i < k ==> Serves(norm, t, f, g, p, i);
    }
    forall s | |t.tracks| <= s < |p'.table.tracks|
      ensures s in p'.slots
    {
      assert if s < |tracks| then s in p.slots else p'.slots[k] == s;
    }
  }

  lemma HandleServes(norm: Norm, t: Table, f: Frame, g: seq<int>, p: Progress)
    requires f.Valid() && |g| == |f.detections| && IsMatching(g, |t.tracks|) && AllHealthy(t.tracks)
    requires Serving(norm, t, f, g, p) && |p.slots| < |g|
    ensures g[|p.slots|] != -1 ==> Kalman.Healthy(p.table.tracks[g[|p.slots|]].state.P)
    ensures var k := |p.slots|; Serving(norm, t, f, g, Handle(norm, p, f.detections[k], g[k], f.clocks[k], f.now))
  {
    if g[|p.slots|] != -1 {
      MatchStep(norm, t, f, g, p);
    } else {
      var id := FreshId(p.table.tracks, p.table.nextId);
      FreshIdIsFirstFree(p.table.tracks, p.table.nextId);
      if id < 0 {
        RefuseStep(norm, t, f, g, p);
      } else {
        CreateStep(norm, t, f, g, p, id);
      }
    }
  }

  lemma {:induction false} LoopServes(norm: Norm, t: Table, f: Frame, g: seq<int>, k: nat)
    requires f.Valid() && |g| == |f.detections| && IsMatching(g, |t.tracks|) && AllHealthy(t.tracks) && k <= |g|
    requires DistinctIds(t.tracks) && 0 <= t.nextId < IDS
    ensures Serving(norm, t, f, g, HandleAll(norm, t, f, g, k))
  {
    if k == 0 {
      AtMostAllIds(t.tracks);
    } else {
      LoopServes(norm, t, f, g, k - 1);
      HandleServes(norm, t, f, g, HandleAll(norm, t, f, g, k - 1));
    }
  }

  /** `now` is the table after the first k detections of a frame, which starts with the table `t`. */
  ghost predicate Handling(norm: Norm, t: Table, f: Frame, g: seq<int>, k: nat, now: Table) {
    && f.Valid() && |g| == |f.detections| && IsMatching(g, |t.tracks|) && AllHealthy(t.tracks) && k <= |g|
    && DistinctIds(t.tracks) && 0 <= t.nextId < IDS
    && now == HandleAll(norm, t, f, g, k).table
  }

  /** The table after one more detection. */
  lemma HandleNext(norm: Norm, t: Table, f: Frame, g: seq<int>, k: nat, now: Table) returns (next: Table)
    requires Handling(norm, t, f, g, k, now) && k < |g|
    ensures -1 <= g[k] < |now.tracks| && AllHealthy(now.tracks) && DistinctIds(now.tracks) && 0 <= now.nextId < IDS
    ensures Handling(norm, t, f, g, k + 1, next)
    ensures next == if g[k] != -1 then
                      var tr := MatchedWith(norm, now.tracks[g[k]], f.detections[k], f.clocks[k], f.now);
                      now.(tracks := now.tracks[g[k] := tr])
                    else
                      var id := FreshId(now.tracks, now.nextId);
                      if id < 0 then now
                      else Table(now.tracks + [Created(id, f.detections[k], f.now)], (id + 1) % IDS)
  {
    LoopServes(norm, t, f, g, k);
    next := HandleAll(norm, t, f, g, k + 1).table;
  }

  // ---------- one callback ----------

  /** What a callback needs of its arguments: a clock reading per detection and a one-to-one assignment. */
  ghost predicate Allowed(t: Table, f: Frame, a: seq<int>) {
    Valid(t) && f.Valid() && |a| == |f.detections| && IsMatching(a, |t.tracks|)
  }

  /** The table when the loop over the detections starts. */
  function Prepared(norm: Norm, t: Table, f: Frame, a: seq<int>): (t': Table)
    requires Allowed(t, f, a)
    ensures |t'.tracks| == |t.tracks| && t'.nextId == t.nextId
    ensures DistinctIds(t'.tracks) && AllHealthy(t'.tracks)
    ensures Processed(norm, t, f, a) == HandleAll(norm, t', f, Gated(norm, t, f, a), |a|)
  {
    AgedKeepsHealthy(t.tracks, f.now);
    var g := Gated(norm, t, f, a);
    var aged := AgedAll(t.tracks, f.now);
    Table(Costed(Costs(norm, f.detections, aged), g, aged, |g|), t.nextId)
  }

  lemma PreparedTrack(norm: Norm, t: Table, f: Frame, a: seq<int>, j: nat)
    requires Allowed(t, f, a) && j < |t.tracks|
    ensures var tr, aged, g := Prepared(norm, t, f, a).tracks[j], Aged(t.tracks[j], f.now), Gated(norm, t, f, a);
            && tr == aged.(cost := tr.cost)
            && (j !in g ==> tr.cost == PAD)
            && (j in g ==> tr.cost < GATE)
  {
    var aged, g := AgedAll(t.tracks, f.now), Gated(norm, t, f, a);
    CostAfterMeans(Costs(norm, f.detections, aged), g, |aged|, j, |g|);
    if j in g {
      var i :| 0 <= i < |g| && g[i] == j;
      assert Costs(norm, f.detections, aged)[i][j] < GATE;
    }
  }

  lemma CallbackServes(norm: Norm, t: Table, f: Frame, a: seq<int>)
    requires Allowed(t, f, a)
    ensures Serving(norm, Prepared(norm, t, f, a), f, Gated(norm, t, f, a), Processed(norm, t, f, a))
    ensures |Processed(norm, t, f, a).slots| == |a|
  {
    LoopServes(norm, Prepared(norm, t, f, a), f, Gated(norm, t, f, a), |a|);
  }

  /** An old track serves a detection exactly when the gated assignment matches it. */
  lemma OldSlot(norm: Norm, t: Table, f: Frame, a: seq<int>, s: nat)
    requires Allowed(t, f, a) && s < |t.tracks|
    ensures s in Processed(norm, t, f, a).slots <==> s in Gated(norm, t, f, a)
  {
    CallbackServes(norm, t, f, a);
    var p, g, t0 := Processed(norm, t, f, a), Gated(norm, t, f, a), Prepared(norm, t, f, a);
    if s in p.slots {
      var i :| 0 <= i < |p.slots| && p.slots[i] == s;
      assert Serves(norm, t0, f, g, p, i);
      assert g[i] == s;
    }
    if s in g {
      var i :| 0 <= i < |g| && g[i] == s;
      assert Serves(norm, t0, f, g, p, i);
      assert p.slots[i] == s;
    }
  }

  /** The slots that serve no detection hold the old tracks that missed; the others hold fresh ones. */
  lemma SlotState(norm: Norm, t: Table, f: Frame, a: seq<int>, s: nat)
    requires Allowed(t, f, a) && s < |Processed(norm, t, f, a).table.tracks|
    ensures var p := Processed(norm, t, f, a);
            if s in p.slots then
              p.table.tracks[s].missed == 0 && p.table.tracks[s].updated && p.table.tracks[s].cost <= PAD
            else
              && s < |t.tracks| && s !in Gated(norm, t, f, a)
              && p.table.tracks[s] == Aged(t.tracks[s], f.now).(cost := PAD)
  {
    CallbackServes(norm, t, f, a);
    var p, g, t0 := Processed(norm, t, f, a), Gated(norm, t, f, a), Prepared(norm, t, f, a);
    if s in p.slots {
      var i :| 0 <= i < |p.slots| && p.slots[i] == s;
      assert Serves(norm, t0, f, g, p, i);
      if s < |t.tracks| {
        PreparedTrack(norm, t, f, a, s);
      }
    } else {
      OldSlot(norm, t, f, a, s);
      assert g[..|p.slots|] == g;
      PreparedTrack(norm, t, f, a, s);
    }
  }

  lemma DistinctCons(tr: Track, tracks: seq<Track>)
    requires DistinctIds(tracks) && 0 <= tr.id < IDS
    requires forall k :: 0 <= k < |tracks| ==> tracks[k].id != tr.id
    ensures DistinctIds([tr] + tracks)
  {
  }

  lemma {:induction false} FilterKeepsDistinct(keep: Track -> bool, tracks: seq<Track>)
    requires DistinctIds(tracks)
    ensures DistinctIds(Filter(keep, tracks))
  {
    if tracks != [] {
      var rest := Filter(keep, tracks[1..]);
      FilterKeepsDistinct(keep, tracks[1..]);
      forall k | 0 <= k < |rest|
        ensures rest[k].id != tracks[0].id
      {
        assert rest[k] in tracks[1..];
      }
      DistinctCons(tracks[0], rest);
      assert [] + rest == rest;
    }
  }

  /** The table invariant is kept by every callback. */
  lemma AdvanceKeepsValid(norm: Norm, t: Table, f: Frame, a: seq<int>)
    requires Allowed(t, f, a)
    ensures Valid(Advance(norm, t, f, a)) && |Advance(norm, t, f, a).tracks| <= IDS
  {
    CallbackServes(norm, t, f, a);
    var tracks := Processed(norm, t, f, a).table.tracks;
    forall s | 0 <= s < |tracks|
      ensures 0 <= tracks[s].missed
    {
      SlotState(norm, t, f, a, s);
    }
    ErasureKeepsValid(tracks, Processed(norm, t, f, a).table.nextId);
  }

  lemma {:induction false} ErasureKeepsValid(tracks: seq<Track>, nextId: int)
    requires DistinctIds(tracks) && AllHealthy(tracks) && 0 <= nextId < IDS
    requires forall s :: 0 <= s < |tracks| ==> 0 <= tracks[s].missed
    ensures Valid(Table(Filter(Survives, tracks), nextId)) && |Filter(Survives, tracks)| <= IDS
  {
    var kept := Filter(Survives, tracks);
    FilterKeepsDistinct(Survives, tracks);
    AtMostAllIds(kept);
    forall k | 0 <= k < |kept|
      ensures Kalman.Healthy(kept[k].state.P) && 0 <= kept[k].missed <= MAX_MISSED
    {
      assert kept[k] in kept;
      var s :| 0 <= s < |tracks| && tracks[s] == kept[k];
    }
  }

  /** A matched track stays, fresh. */
  lemma MatchedStays(norm: Norm, t: Table, f: Frame, a: seq<int>, j: nat)
    requires Allowed(t, f, a) && j < |t.tracks| && j in Gated(norm, t, f, a)
    ensures exists tr :: tr in Advance(norm, t, f, a).tracks && tr.id == t.tracks[j].id && tr.missed == 0
  {
    CallbackServes(norm, t, f, a);
    OldSlot(norm, t, f, a, j);
    SlotState(norm, t, f, a, j);
    var tr := Processed(norm, t, f, a).table.tracks[j];
    assert Survives(tr);
    assert tr in Advance(norm, t, f, a).tracks && tr.id == t.tracks[j].id;
  }

  /** An unmatched track stays, older by one miss, when it has missed fewer than 10 callbacks. */
  lemma UnmatchedAges(norm: Norm, t: Table, f: Frame, a: seq<int>, j: nat)
    requires Allowed(t, f, a) && j < |t.tracks| && j !in Gated(norm, t, f, a)
    requires t.tracks[j].missed < MAX_MISSED
    ensures Aged(t.tracks[j], f.now).(cost := PAD) in Advance(norm, t, f, a).tracks
  {
    CallbackServes(norm, t, f, a);
    OldSlot(norm, t, f, a, j);
    SlotState(norm, t, f, a, j);
    assert Survives(Processed(norm, t, f, a).table.tracks[j]);
  }

  /** An unmatched track that has missed 10 callbacks is erased, and its id is not given away in the same callback. */
  lemma UnmatchedLeaves(norm: Norm, t: Table, f: Frame, a: seq<int>, j: nat)
    requires Allowed(t, f, a) && j < |t.tracks| && j !in Gated(norm, t, f, a)
    requires t.tracks[j].missed == MAX_MISSED
    ensures forall tr :: tr in Advance(norm, t, f, a).tracks ==> tr.id != t.tracks[j].id
  {
    CallbackServes(norm, t, f, a);
    OldSlot(norm, t, f, a, j);
    SlotState(norm, t, f, a, j);
    ErasedIdIsGone(Processed(norm, t, f, a).table.tracks, j);
  }

  lemma {:induction false} ErasedIdIsGone(tracks: seq<Track>, j: nat)
    requires DistinctIds(tracks) && j < |tracks| && !Survives(tracks[j])
    ensures forall tr :: tr in Filter(Survives, tracks) ==> tr.id != tracks[j].id
  {
    forall tr | tr in Filter(Survives, tracks)
      ensures tr.id != tracks[j].id
    {
      var s :| 0 <= s < |tracks| && tracks[s] == tr;
      assert s != j;
    }
  }

  // ---------- publication ----------

  function PublishedTracks(t: Table): seq<Track> {
    Filter(Published, t.tracks)
  }

  /** A slot's track is published after erasure exactly when it serves a detection. */
  lemma PublishedIffServes(norm: Norm, t: Table, f: Frame, a: seq<int>, s: nat)
    requires Allowed(t, f, a) && s < |Processed(norm, t, f, a).table.tracks|
    ensures var p, pub := Processed(norm, t, f, a), PublishedTracks(Advance(norm, t, f, a));
            p.table.tracks[s] in pub <==> s in p.slots
  {
    CallbackServes(norm, t, f, a);
    SlotState(norm, t, f, a, s);
    var tracks := Processed(norm, t, f, a).table.tracks;
    assert tracks[s] in tracks;
  }

  /** The track in slot s is published for detection d: it has its box, its time and no miss. */
  ghost predicate PublishedFor(tracks: seq<Track>, s: int, pub: seq<Track>, d: Detection, now: real) {
    && 0 <= s < |tracks| && tracks[s] in pub
    && tracks[s].box == d.box && tracks[s].missed == 0 && tracks[s].lastTime == now
  }

  /** The track is in slot `slots[i]`, which serves detection i. */
  ghost predicate IsSlotOf(tracks: seq<Track>, slots: seq<int>, i: int, tr: Track) {
    0 <= i < |slots| && 0 <= slots[i] < |tracks| && tracks[slots[i]] == tr
  }

  lemma DetectionIsPublished(norm: Norm, t: Table, f: Frame, a: seq<int>, i: nat)
    requires Allowed(t, f, a) && i < |a|
    ensures var p, pub := Processed(norm, t, f, a), PublishedTracks(Advance(norm, t, f, a));
            && |p.slots| == |a|
            && if p.slots[i] == -1 then |p.table.tracks| == IDS
               else PublishedFor(p.table.tracks, p.slots[i], pub, f.detections[i], f.now)
  {
    CallbackServes(norm, t, f, a);
    var p := Processed(norm, t, f, a);
    assert Serves(norm, Prepared(norm, t, f, a), f, Gated(norm, t, f, a), p, i);
    if p.slots[i] != -1 {
      PublishedIffServes(norm, t, f, a, p.slots[i]);
    }
  }

  lemma PublishedIsDetected(norm: Norm, t: Table, f: Frame, a: seq<int>, tr: Track) returns (i: nat)
    requires Allowed(t, f, a) && tr in PublishedTracks(Advance(norm, t, f, a))
    ensures var p := Processed(norm, t, f, a);
            i < |p.slots| && 0 <= p.slots[i] < |p.table.tracks| && p.table.tracks[p.slots[i]] == tr
  {
    CallbackServes(norm, t, f, a);
    var p := Processed(norm, t, f, a);
    var s :| 0 <= s < |p.table.tracks| && p.table.tracks[s] == tr;
    PublishedIffServes(norm, t, f, a, s);
    i :| 0 <= i < |p.slots| && p.slots[i] == s;
  }

  lemma PublishedDistinct(norm: Norm, t: Table, f: Frame, a: seq<int>)
    requires Allowed(t, f, a)
    ensures DistinctIds(PublishedTracks(Advance(norm, t, f, a)))
  {
    AdvanceKeepsValid(norm, t, f, a);
    FilterKeepsDistinct(Published, Advance(norm, t, f, a).tracks);
  }

  /** The tracks that serve a detection. */
  function ServedTracks(tracks: seq<Track>, slots: seq<int>): set<Track>
    requires IsMatching(slots, |tracks|)
  {
    if slots == [] then {}
    else
      MatchingTail(slots, |tracks|);
      (if slots[0] == -1 then {} else {tracks[slots[0]]}) + ServedTracks(tracks, slots[1..])
  }

  lemma {:induction false} InServedTracks(tracks: seq<Track>, slots: seq<int>, tr: Track)
    requires IsMatching(slots, |tracks|)
    ensures tr in ServedTracks(tracks, slots) <==> exists i :: IsSlotOf(tracks, slots, i, tr)
  {
    if slots != [] {
      var rest := slots[1..];
      MatchingTail(slots, |tracks|);
      InServedTracks(tracks, rest, tr);
      if i :| IsSlotOf(tracks, rest, i, tr) {
        assert IsSlotOf(tracks, slots, i + 1, tr);
      }
      if slots[0] != -1 && tr == tracks[slots[0]] {
        assert IsSlotOf(tracks, slots, 0, tr);
      }
      if i :| IsSlotOf(tracks, slots, i, tr) {
        assert i > 0 ==> IsSlotOf(tracks, rest, i - 1, tr);
      }
    }
  }

  lemma {:induction false} ServedTracksSize(tracks: seq<Track>, slots: seq<int>)
    requires DistinctIds(tracks) && IsMatching(slots, |tracks|)
    ensures |ServedTracks(tracks, slots)| == Size(slots)
  {
    if slots != [] {
      var s, rest := slots[0], slots[1..];
      MatchingTail(slots, |tracks|);
      ServedTracksSize(tracks, rest);
      if s != -1 {
        InServedTracks(tracks, rest, tracks[s]);
        assert tracks[s] !in ServedTracks(tracks, rest);
      }
    }
  }

  lemma PublishedIffServed(norm: Norm, t: Table, f: Frame, a: seq<int>, tr: Track)
    requires Allowed(t, f, a)
    ensures IsMatching(Processed(norm, t, f, a).slots, |Processed(norm, t, f, a).table.tracks|)
    ensures tr in PublishedTracks(Advance(norm, t, f, a)) <==>
            tr in ServedTracks(Processed(norm, t, f, a).table.tracks, Processed(norm, t, f, a).slots)
  {
    CallbackServes(norm, t, f, a);
    var p, pub := Processed(norm, t, f, a), PublishedTracks(Advance(norm, t, f, a));
    InServedTracks(p.table.tracks, p.slots, tr);
    if tr in pub {
      var i := PublishedIsDetected(norm, t, f, a, tr);
      assert IsSlotOf(p.table.tracks, p.slots, i, tr);
    }
    if tr in ServedTracks(p.table.tracks, p.slots) {
      var i :| IsSlotOf(p.table.tracks, p.slots, i, tr);
      PublishedIffServes(norm, t, f, a, p.slots[i]);
    }
  }

  lemma {:induction false} CountServed(pub: seq<Track>, tracks: seq<Track>, slots: seq<int>)
    requires DistinctIds(pub) && DistinctIds(tracks) && IsMatching(slots, |tracks|)
    requires forall tr :: tr in pub <==> tr in ServedTracks(tracks, slots)
    ensures |pub| == Size(slots)
  {
    assert Elements(pub) == ServedTracks(tracks, slots);
    ElementsSize(pub);
    ServedTracksSize(tracks, slots);
  }

  /** As many tracks are published as detections are served. */
  lemma PublishedCount(norm: Norm, t: Table, f: Frame, a: seq<int>)
    requires Allowed(t, f, a)
    ensures DistinctIds(PublishedTracks(Advance(norm, t, f, a)))
    ensures |PublishedTracks(Advance(norm, t, f, a))| == Size(Processed(norm, t, f, a).slots)
  {
    CallbackServes(norm, t, f, a);
    PublishedDistinct(norm, t, f, a);
    var p, pub := Processed(norm, t, f, a), PublishedTracks(Advance(norm, t, f, a));
    forall tr ensures tr in pub <==> tr in ServedTracks(p.table.tracks, p.slots) {
      PublishedIffServed(norm, t, f, a, tr);
    }
    CountServed(pub, p.table.tracks, p.slots);
  }

  /**
   The published tracks are the detections' tracks, one for one: each detection has a published
   track of its own, with its box and no miss, unless it was refused because all 256 ids are
   live; every published track is the track of a detection; and no track is published twice, so
   that there are as many as there are detections that were not refused.
   */
  lemma PublishedMatchDetections(norm: Norm, t: Table, f: Frame, a: seq<int>)
    requires Allowed(t, f, a)
    ensures var p, pub := Processed(norm, t, f, a), PublishedTracks(Advance(norm, t, f, a));
            && |p.slots| == |f.detections| && IsMatching(p.slots, |p.table.tracks|) && DistinctIds(p.table.tracks)
            && (forall i :: 0 <= i < |p.slots| ==>
                  if p.slots[i] == -1 then |p.table.tracks| == IDS
                  else PublishedFor(p.table.tracks, p.slots[i], pub, f.detections[i], f.now))
            && (forall tr :: tr in pub ==> exists i :: IsSlotOf(p.table.tracks, p.slots, i, tr))
            && DistinctIds(pub) && |pub| == Size(p.slots)
  {
    CallbackServes(norm, t, f, a);
    PublishedCount(norm, t, f, a);
    var p, pub := Processed(norm, t, f, a), PublishedTracks(Advance(norm, t, f, a));
    forall i | 0 <= i < |p.slots|
      ensures if p.slots[i] == -1 then |p.table.tracks| == IDS
              else PublishedFor(p.table.tracks, p.slots[i], pub, f.detections[i], f.now)
    {
      DetectionIsPublished(norm, t, f, a, i);
    }
    forall tr | tr in pub
      ensures exists i :: IsSlotOf(p.table.tracks, p.slots, i, tr)
    {
      var i := PublishedIsDetected(norm, t, f, a, tr);
      assert IsSlotOf(p.table.tracks, p.slots, i, tr);
    }
  }

  // ---------- whole runs ----------

  datatype Step = Step(frame: Frame, assignment: seq<int>)

  /** The steps can be taken one after the other from `t`. */
  ghost predicate CanRun(norm: Norm, t: Table, steps: seq<Step>)
    requires Valid(t)
    decreases |steps|
  {
    steps == [] ||
    (Allowed(t, steps[0].frame, steps[0].assignment) &&
     (AdvanceKeepsValid(norm, t, steps[0].frame, steps[0].assignment);
      CanRun(norm, Advance(norm, t, steps[0].frame, steps[0].assignment), steps[1..])))
  }

  ghost function Run(norm: Norm, t: Table, steps: seq<Step>): (t': Table)
    requires Valid(t) && CanRun(norm, t, steps)
    ensures Valid(t') && |t'.tracks| <= IDS
    decreases |steps|
  {
    AtMostAllIds(t.tracks);
    if steps == [] then t
    else
      AdvanceKeepsValid(norm, t, steps[0].frame, steps[0].assignment);
      Run(norm, Advance(norm, t, steps[0].frame, steps[0].assignment), steps[1..])
  }

  ghost predicate Holds(t: Table, id: int, missed: int) {
    exists tr :: tr in t.tracks && tr.id == id && tr.missed == missed
  }

  ghost predicate Absent(t: Table, id: int) {
    forall tr :: tr in t.tracks ==> tr.id != id
  }

  /** The callback matches no detection to the track with this id. */
  ghost predicate Passes(norm: Norm, t: Table, step: Step, id: int)
    requires Allowed(t, step.frame, step.assignment)
  {
    forall j :: 0 <= j < |t.tracks| && t.tracks[j].id == id ==> j !in Gated(norm, t, step.frame, step.assignment)
  }

  /** No callback of the run matches the track with this id. */
  ghost predicate PassesAll(norm: Norm, t: Table, steps: seq<Step>, id: int)
    requires Valid(t) && CanRun(norm, t, steps)
    decreases |steps|
  {
    steps == [] ||
    (Passes(norm, t, steps[0], id) &&
     (AdvanceKeepsValid(norm, t, steps[0].frame, steps[0].assignment);
      PassesAll(norm, Advance(norm, t, steps[0].frame, steps[0].assignment), steps[1..], id)))
  }

  lemma PassedOver(norm: Norm, t: Table, step: Step, id: int, missed: int)
    requires Allowed(t, step.frame, step.assignment) && Passes(norm, t, step, id) && Holds(t, id, missed)
    ensures var t' := Advance(norm, t, step.frame, step.assignment);
            if missed < MAX_MISSED then Holds(t', id, missed + 1) else Absent(t', id)
  {
    var tr :| tr in t.tracks && tr.id == id && tr.missed == missed;
    var j :| 0 <= j < |t.tracks| && t.tracks[j] == tr;
    if missed < MAX_MISSED {
      UnmatchedAges(norm, t, step.frame, step.assignment, j);
      assert Aged(tr, step.frame.now).(cost := PAD).missed == missed + 1;
    } else {
      UnmatchedLeaves(norm, t, step.frame, step.assignment, j);
    }
  }

  /**
   A track that was matched in one callback survives exactly 10 callbacks without a match: it
   is still there, counting them, after any 10 or fewer, and it is erased by the 11th.
   */
  lemma {:induction false} Lifetime(norm: Norm, t: Table, steps: seq<Step>, id: int, missed: nat)
    requires Valid(t) && CanRun(norm, t, steps) && PassesAll(norm, t, steps, id)
    requires Holds(t, id, missed)
    ensures missed + |steps| <= MAX_MISSED ==> Holds(Run(norm, t, steps), id, missed + |steps|)
    ensures missed + |steps| == MAX_MISSED + 1 ==> Absent(Run(norm, t, steps), id)
    decreases |steps|
  {
    if steps != [] {
      var t' := Advance(norm, t, steps[0].frame, steps[0].assignment);
      AdvanceKeepsValid(norm, t, steps[0].frame, steps[0].assignment);
      PassedOver(norm, t, steps[0], id, missed);
      if missed < MAX_MISSED {
        Lifetime(norm, t', steps[1..], id, missed + 1);
      }
    }
  }

  /** Along every run from an empty table, all covariances stay positive definite and the ids stay distinct. */
  lemma {:induction false} RunStaysValid(norm: Norm, steps: seq<Step>)
    requires CanRun(norm, Table([], 0), steps)
    ensures var t := Run(norm, Table([], 0), steps);
            && |t.tracks| <= IDS && DistinctIds(t.tracks) && 0 <= t.nextId < IDS
            && forall k :: 0 <= k < |t.tracks| ==>
                 0 <= t.tracks[k].missed <= MAX_MISSED && Det(Kalman.Innovation(t.tracks[k].state.P)) > 0.0
  {
    var t := Run(norm, Table([], 0), steps);
    forall k | 0 <= k < |t.tracks|
      ensures Det(Kalman.Innovation(t.tracks[k].state.P)) > 0.0
    {
      Kalman.InnovationForm(t.tracks[k].state.P);
    }
  }
}
