/** The track table of the tracker on values: id allocation, and what one callback does to the table. */
module TrackTable {
  import opened Permutations
  import opened Hungarian
  import opened Association
  import opened SmallMatrices
  import opened DetectedObjects
  import Kalman

  /** The number of track ids. */
  const IDS := 256
  /** MAX_MISSED */
  const MAX_MISSED := 10
  /** The publish filter lets through a track that missed only when its cost is at most this. */
  const PUBLISH_COST: real := 10.0

  datatype Track = Track(id: int, state: Kalman.State, box: Box, lastTime: real, missed: int, score: real,
                         tracked: int, updated: bool, vel: real, cost: real)

  /** One callback: the detections, the time of the frame, and the clock reading of each measurement update. */
  datatype Frame = Frame(detections: seq<Detection>, now: real, clocks: seq<real>) {
    predicate Valid() { |clocks| == |detections| }
  }

  /** The Euclidean norm is a parameter; only its sign is ever used. */
  type Norm = f: (real, real) -> real | forall x, y :: f(x, y) >= 0.0 witness (x: real, y: real) => 0.0

  datatype Table = Table(tracks: seq<Track>, nextId: int)

  // ---------- id allocation ----------

  function LiveIds(tracks: seq<Track>): (r: set<int>)
    ensures forall id :: id in r <==> exists k :: 0 <= k < |tracks| && tracks[k].id == id
  {
    set k | 0 <= k < |tracks| :: tracks[k].id
  }

  /** The id at place k of the cyclic order that starts at `from`. */
  function Candidate(from: int, k: int): int {
    (from + k) % IDS
  }

  /** The first id that is not live, probing from `from` and starting `i` places on; -1 when there is none. */
  function Probe(live: set<int>, from: int, i: nat): int
    requires i <= IDS
    decreases IDS - i
  {
    if i == IDS then -1
    else if Candidate(from, i) !in live then Candidate(from, i)
    else Probe(live, from, i + 1)
  }

  /** The place of an id in the cyclic order, and the id at a place, are inverses. */
  lemma CandidateAt(from: int, k: int)
    requires 0 <= from < IDS && 0 <= k < IDS
    ensures Candidate(from, (k - from) % IDS) == k
    ensures 0 <= Candidate(from, k) < IDS && (Candidate(from, k) - from) % IDS == k
  {
  }

  /** All the ids of the cyclic order that starts at `from` are live before place `i`. */
  ghost predicate LiveBefore(live: set<int>, from: int, i: int) {
    forall k :: 0 <= k < i ==> Candidate(from, k) in live
  }

  /** The probe finds the cyclically first free id, and fails only when all ids are live. */
  lemma {:induction false} ProbeIsFirstFree(live: set<int>, from: int, i: nat)
    requires i <= IDS && 0 <= from < IDS && LiveBefore(live, from, i)
    ensures var id := Probe(live, from, i);
            if id == -1 then forall k :: 0 <= k < IDS ==> k in live
            else id !in live && 0 <= id < IDS && LiveBefore(live, from, (id - from) % IDS)
    decreases IDS - i
  {
    if i == IDS {
      forall k | 0 <= k < IDS
        ensures k in live
      {
        CandidateAt(from, k);
        assert Candidate(from, (k - from) % IDS) in live;
      }
    } else if Candidate(from, i) !in live {
      CandidateAt(from, i);
    } else {
      ProbeIsFirstFree(live, from, i + 1);
    }
  }

  // ---------- prediction, measurement update, creation ----------

  /** What the start of a callback does to every track. */
  function Aged(tr: Track, now: real): Track {
    tr.(state := Kalman.Predict(tr.state, Kalman.Elapsed(now - tr.lastTime)), missed := tr.missed + 1, updated := false)
  }

  function AgedAll(tracks: seq<Track>, now: real): (r: seq<Track>)
    ensures |r| == |tracks|
    ensures forall j :: 0 <= j < |r| ==> r[j] == Aged(tracks[j], now)
  {
    seq(|tracks|, j requires 0 <= j < |tracks| => Aged(tracks[j], now))
  }

  function Distance(norm: Norm, d: Detection, tr: Track): (r: real)
    ensures 0.0 <= r
  {
    norm(d.pos.a0 - tr.state.x.a0, d.pos.a1 - tr.state.x.a1)
  }

  /** The association cost of a pair: its distance inside the gate, the padding outside. */
  function PairCost(norm: Norm, d: Detection, tr: Track): real {
    if Distance(norm, d, tr) < GATE then Distance(norm, d, tr) else PAD
  }

  function Costs(norm: Norm, detections: seq<Detection>, tracks: seq<Track>): (c: Matrix)
    ensures |c| == |detections|
    ensures forall i :: 0 <= i < |c| ==> |c[i]| == |tracks|
    ensures forall i, j :: 0 <= i < |c| && 0 <= j < |tracks| ==> c[i][j] == PairCost(norm, detections[i], tracks[j])
  {
    seq(|detections|, i requires 0 <= i < |detections| =>
      seq(|tracks|, j requires 0 <= j < |tracks| => PairCost(norm, detections[i], tracks[j])))
  }

  /** A track after the measurement update with a detection, and the bookkeeping of the match. */
  function MatchedWith(norm: Norm, tr: Track, d: Detection, clock: real, now: real): Track
    requires Kalman.Healthy(tr.state.P)
  {
    Kalman.CorrectRefines(tr.state.P);
    var corrected := Kalman.Correct(tr.state, d.pos);
    var v := Kalman.Velocity(tr.state, corrected, Kalman.Elapsed(clock - tr.lastTime));
    tr.(state := Kalman.Update(tr.state, d.pos, clock - tr.lastTime), box := d.box, score := 0.0,
        vel := norm(v.a0, v.a1), lastTime := now, missed := 0, tracked := tr.tracked + 1, updated := true)
  }

  /**
   What a measurement does to a track that was predicted to the time of the frame, field by field;
   only the cost is left open.
   */
  ghost predicate IsUpdated(norm: Norm, tr: Track, d: Detection, clock: real, now: real, r: Track)
    requires Kalman.Healthy(tr.state.P)
  {
    var e := Kalman.TimeSince(clock, tr.lastTime);
    var dx, dy := d.pos.a0 - tr.state.x.a0, d.pos.a1 - tr.state.x.a1;
    var v := Kalman.ImpliedVelocity(Kalman.Weight(tr.state.P), dx, dy, e);
    r == Track(tr.id, Kalman.AxisUpdate(tr.state, d.pos, e), d.box, now, 0, 0.0, tr.tracked + 1, true,
               norm(v.a0, v.a1), r.cost)
  }

  lemma MatchedIsUpdated(norm: Norm, tr: Track, d: Detection, clock: real, now: real)
    requires Kalman.Healthy(tr.state.P)
    ensures IsUpdated(norm, tr, d, clock, now, MatchedWith(norm, tr, d, clock, now))
    ensures MatchedWith(norm, tr, d, clock, now).cost == tr.cost
  {
    Kalman.UpdateIsAxisWise(tr.state, d.pos, clock - tr.lastTime);
  }

  function Created(id: int, d: Detection, now: real): Track {
    Track(id, Kalman.Initial(d.pos), d.box, now, 0, 0.0, 1, true, 0.0, PAD)
  }

  // ---------- the table invariant ----------

  ghost predicate DistinctIds(tracks: seq<Track>) {
    && (forall k :: 0 <= k < |tracks| ==> 0 <= tracks[k].id < IDS)
    && (forall k, l :: 0 <= k < l < |tracks| ==> tracks[k].id != tracks[l].id)
  }

  ghost predicate AllHealthy(tracks: seq<Track>) {
    forall k :: 0 <= k < |tracks| ==> Kalman.Healthy(tracks[k].state.P)
  }

  /** What holds of the table between callbacks. */
  ghost predicate Valid(t: Table) {
    && DistinctIds(t.tracks) && AllHealthy(t.tracks)
    && 0 <= t.nextId < IDS
    && (forall k :: 0 <= k < |t.tracks| ==> 0 <= t.tracks[k].missed <= MAX_MISSED)
  }

  /** Distinct ids bound the table, and a full table has every id live. */
  lemma AtMostAllIds(tracks: seq<Track>)
    requires DistinctIds(tracks)
    ensures |tracks| <= IDS
    ensures (forall id :: 0 <= id < IDS ==> id in LiveIds(tracks)) ==> |tracks| == IDS
  {
    var ids := seq(|tracks|, k requires 0 <= k < |tracks| => tracks[k].id);
    Pigeonhole(ids, 0, IDS);
    if forall id :: 0 <= id < IDS ==> id in LiveIds(tracks) {
      forall id | 0 <= id < IDS
        ensures id in ids
      {
        assert id in LiveIds(tracks);
        var k :| 0 <= k < |tracks| && tracks[k].id == id;
        assert ids[k] == id;
      }
      Crowded(ids + [-1], 0, IDS, -1);
    }
  }

  /** The id that a new track gets, or -1. */
  function FreshId(tracks: seq<Track>, nextId: int): int {
    Probe(LiveIds(tracks), nextId, 0)
  }

  /** Allocation fails only when the table holds all 256 ids; otherwise it takes the first free id from `nextId` on. */
  lemma FreshIdIsFirstFree(tracks: seq<Track>, nextId: int)
    requires DistinctIds(tracks) && 0 <= nextId < IDS
    ensures var id := FreshId(tracks, nextId);
            if id < 0 then |tracks| == IDS
            else
              && id < IDS && |tracks| < IDS
              && (forall k :: 0 <= k < |tracks| ==> tracks[k].id != id)
              && LiveBefore(LiveIds(tracks), nextId, (id - nextId) % IDS)
  {
    var live := LiveIds(tracks);
    var id := FreshId(tracks, nextId);
    ProbeIsFirstFree(live, nextId, 0);
    AtMostAllIds(tracks);
    if id >= 0 {
      assert forall k :: 0 <= k < |tracks| ==> tracks[k].id in live;
      Pigeonhole(seq(|tracks|, k requires 0 <= k < |tracks| => tracks[k].id) + [id], 0, IDS);
    }
  }

  ghost predicate HasId(tracks: seq<Track>, id: int) {
    exists k :: 0 <= k < |tracks| && tracks[k].id == id
  }

  /** How far an id lies ahead of another one, going round from 255 to 0. */
  function Ahead(from: int, id: int): int {
    if id >= from then id - from else id - from + 256
  }

  /** `id` is free, and no free id lies less far ahead of `from`. */
  ghost predicate IsFirstFree(tracks: seq<Track>, from: int, id: int) {
    && 0 <= id < 256 && !HasId(tracks, id)
    && forall c :: 0 <= c < 256 && !HasId(tracks, c) ==> Ahead(from, id) <= Ahead(from, c)
  }

  lemma AheadIsCandidate(from: int, id: int)
    requires 0 <= from < IDS && 0 <= id < IDS
    ensures 0 <= Ahead(from, id) < IDS && Candidate(from, Ahead(from, id)) == id
    ensures (id - from) % IDS == Ahead(from, id)
  {
  }

  /** Allocation fails only on a full table; otherwise it takes the free id that lies least far ahead. */
  lemma AllocatesFirstFree(tracks: seq<Track>, nextId: int)
    requires DistinctIds(tracks) && 0 <= nextId < IDS
    ensures var id := FreshId(tracks, nextId);
            if id < 0 then |tracks| == 256 else IsFirstFree(tracks, nextId, id)
  {
    var id, live := FreshId(tracks, nextId), LiveIds(tracks);
    FreshIdIsFirstFree(tracks, nextId);
    if id >= 0 {
      AheadIsCandidate(nextId, id);
      forall c | 0 <= c < 256 && !HasId(tracks, c)
        ensures Ahead(nextId, id) <= Ahead(nextId, c)
      {
        AheadIsCandidate(nextId, c);
        assert c !in live;
        assert Ahead(nextId, c) < Ahead(nextId, id) ==> Candidate(nextId, Ahead(nextId, c)) in live;
      }
    }
  }

  // ---------- the loop over the detections ----------

  /** The table inside the loop over the detections, and the slot of the table that serves each one so far. */
  datatype Progress = Progress(table: Table, slots: seq<int>)

  /** Detection d, with the track that the accepted assignment gives it (-1 for none), is worked into the table. */
  function Handle(norm: Norm, p: Progress, d: Detection, j: int, clock: real, now: real): Progress
    requires -1 <= j < |p.table.tracks|
    requires j != -1 ==> Kalman.Healthy(p.table.tracks[j].state.P)
  {
    var t := p.table;
    if j != -1 then
      Progress(t.(tracks := t.tracks[j := MatchedWith(norm, t.tracks[j], d, clock, now)]), p.slots + [j])
    else
      var id := FreshId(t.tracks, t.nextId);
      if id < 0 then Progress(t, p.slots + [-1])
      else Progress(Table(t.tracks + [Created(id, d, now)], (id + 1) % IDS), p.slots + [|t.tracks|])
  }

  /** Every row of the costs has a cell for each of the m tracks, and `g` assigns them one-to-one. */
  ghost predicate Fits(cost: Matrix, g: seq<int>, m: nat) {
    && |g| == |cost| && IsMatching(g, m)
    && forall i :: 0 <= i < |cost| ==> |cost[i]| == m
  }

  /** The cost that track j has after the accepted pairs of the first k detections were recorded. */
  function CostAfter(cost: Matrix, g: seq<int>, m: nat, j: nat, k: nat): real
    requires Fits(cost, g, m) && j < m && k <= |g|
  {
    if k == 0 then PAD
    else if g[k - 1] == j then cost[k - 1][j]
    else CostAfter(cost, g, m, j, k - 1)
  }

  lemma {:induction false} CostAfterMeans(cost: Matrix, g: seq<int>, m: nat, j: nat, k: nat)
    requires Fits(cost, g, m) && j < m && k <= |g|
    ensures forall i :: 0 <= i < k && g[i] == j ==> CostAfter(cost, g, m, j, k) == cost[i][j]
    ensures (forall i :: 0 <= i < k ==> g[i] != j) ==> CostAfter(cost, g, m, j, k) == PAD
  {
    if k > 0 {
      CostAfterMeans(cost, g, m, j, k - 1);
    }
  }

  /** The tracks with the costs of the first k accepted pairs recorded. */
  function Costed(cost: Matrix, g: seq<int>, tracks: seq<Track>, k: nat): (r: seq<Track>)
    requires Fits(cost, g, |tracks|) && k <= |g|
    ensures |r| == |tracks|
    ensures forall j :: 0 <= j < |r| ==> r[j] == tracks[j].(cost := CostAfter(cost, g, |tracks|, j, k))
  {
    seq(|tracks|, j requires 0 <= j < |tracks| => tracks[j].(cost := CostAfter(cost, g, |tracks|, j, k)))
  }

  /** The first k detections worked into the table. */
  function HandleAll(norm: Norm, t: Table, f: Frame, g: seq<int>, k: nat): (p: Progress)
    requires f.Valid() && |g| == |f.detections| && IsMatching(g, |t.tracks|) && AllHealthy(t.tracks) && k <= |g|
    ensures |p.slots| == k && |t.tracks| <= |p.table.tracks|
    ensures AllHealthy(p.table.tracks)
  {
    if k == 0 then Progress(t, [])
    else
      var p := HandleAll(norm, t, f, g, k - 1);
      HandleKeepsHealthy(norm, p, f.detections[k - 1], g[k - 1], f.clocks[k - 1], f.now);
      Handle(norm, p, f.detections[k - 1], g[k - 1], f.clocks[k - 1], f.now)
  }

  lemma HandleKeepsHealthy(norm: Norm, p: Progress, d: Detection, j: int, clock: real, now: real)
    requires -1 <= j < |p.table.tracks| && AllHealthy(p.table.tracks)
    ensures AllHealthy(Handle(norm, p, d, j, clock, now).table.tracks)
  {
    if j != -1 {
      MatchKeepsHealthy(norm, p.table.tracks[j], d, clock, now);
    }
  }

  lemma MatchKeepsHealthy(norm: Norm, tr: Track, d: Detection, clock: real, now: real)
    requires Kalman.Healthy(tr.state.P)
    ensures Kalman.Healthy(MatchedWith(norm, tr, d, clock, now).state.P)
  {
    var next := Kalman.Step(tr.state, Kalman.Match(d.pos, clock - tr.lastTime));
    assert MatchedWith(norm, tr, d, clock, now).state == next;
  }

  lemma AgedKeepsHealthy(tracks: seq<Track>, now: real)
    requires AllHealthy(tracks)
    ensures AllHealthy(AgedAll(tracks, now))
  {
    forall k | 0 <= k < |tracks|
      ensures Kalman.Healthy(AgedAll(tracks, now)[k].state.P)
    {
      var next := Kalman.Step(tracks[k].state, Kalman.Wait(now - tracks[k].lastTime));
      assert Aged(tracks[k], now).state == next;
    }
  }

  // ---------- erasure and publication ----------

  predicate Survives(tr: Track) { tr.missed <= MAX_MISSED }
  predicate Published(tr: Track) { !(tr.missed > 0 && tr.cost > PUBLISH_COST) }

  function Filter(keep: Track -> bool, tracks: seq<Track>): (r: seq<Track>)
    ensures forall tr :: tr in r <==> tr in tracks && keep(tr)
  {
    if tracks == [] then []
    else (if keep(tracks[0]) then [tracks[0]] else []) + Filter(keep, tracks[1..])
  }

  // ---------- one callback ----------

  /** Aging, association and the loop over the detections, for the raw assignment `a` of the solver. */
  function Processed(norm: Norm, t: Table, f: Frame, a: seq<int>): (p: Progress)
    requires Valid(t) && f.Valid() && |a| == |f.detections| && IsMatching(a, |t.tracks|)
  {
    AgedKeepsHealthy(t.tracks, f.now);
    var aged := AgedAll(t.tracks, f.now);
    var cost := Costs(norm, f.detections, aged);
    var g := Gated(norm, t, f, a);
    HandleAll(norm, Table(Costed(cost, g, aged, |g|), t.nextId), f, g, |g|)
  }

  /** The accepted pairs of the raw assignment `a`. */
  function Gated(norm: Norm, t: Table, f: Frame, a: seq<int>): (g: seq<int>)
    requires |a| == |f.detections| && IsMatching(a, |t.tracks|)
    ensures |g| == |a| && IsMatching(g, |t.tracks|)
    ensures Fits(Costs(norm, f.detections, AgedAll(t.tracks, f.now)), g, |t.tracks|)
  {
    Accepted(Costs(norm, f.detections, AgedAll(t.tracks, f.now)), a)
  }

  function Advance(norm: Norm, t: Table, f: Frame, a: seq<int>): Table
    requires Valid(t) && f.Valid() && |a| == |f.detections| && IsMatching(a, |t.tracks|)
  {
    var t' := Processed(norm, t, f, a).table;
    t'.(tracks := Filter(Survives, t'.tracks))
  }
}
