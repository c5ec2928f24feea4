/** The fusion node: three object callbacks over shared lists and check flags, with the camera as main sensor. */
module SF2 {
  import opened Overlap
  import opened SensorFusion
  import opened Lists

  const RADAR_ANCHOR: real := 1.0

  /** Length and width that the camera assumes for an object type. */
  function Anchor(kind: int): (real, real) {
    if kind == 1 then (3.6, 1.4)
    else if kind == 2 then (7.0, 2.0)
    else if kind == 3 then (2.0, 1.0)
    else if kind == 4 then (0.7, 0.7)
    else (0.0, 0.0)
  }

  /** Ids are 8 bits wide; a lidar object is numbered by its place in the message. */
  function LidarObj(m: LidarMsg, place: nat, draw: real): Obj {
    var id := place % 256;
    Obj(m.x, m.y, m.vx, m.vy, m.kind, id, m.length, m.width, CONF_BASE + draw * 0.1, (0, 0), (id, id), (0, 0))
  }

  /** The camera measures the near end of an object; its centre lies half a length further. */
  function CameraObj(m: CameraMsg, draw: real): Obj {
    var (length, width) := Anchor(m.kind);
    Obj(m.x + length / 2.0, m.y, 0.0, 0.0, m.kind, m.id, length, width, CONF_BASE + draw * 0.1,
        (m.id, m.id), (0, 0), (0, 0))
  }

  /** Radar ids and types are cut to 8 bits; a missing size is replaced by an anchor. */
  function RadarObj(m: RadarMsg, draw: real): Obj {
    var id := m.id % 256;
    Obj(m.x, m.y, m.vx, m.vy, m.kind % 256, id, if m.length > 0.0 then m.length else RADAR_ANCHOR,
        if m.width > 0.0 then m.width else RADAR_ANCHOR, CONF_BASE - 0.1 + draw * 0.1, (0, 0), (0, 0), (id, id))
  }

  function LidarObjs(msg: seq<LidarMsg>, draws: seq<real>): (r: seq<Obj>)
    requires AreDraws(draws, |msg|)
    ensures |r| == |msg| && AllAlive(r)
    ensures forall k :: 0 <= k < |msg| ==> r[k] == LidarObj(msg[k], k, draws[k])
  {
    seq(|msg|, k requires 0 <= k < |msg| => LidarObj(msg[k], k, draws[k]))
  }

  function CameraObjs(msg: seq<CameraMsg>, draws: seq<real>): (r: seq<Obj>)
    requires AreDraws(draws, |msg|)
    ensures |r| == |msg|
    ensures forall k :: 0 <= k < |msg| ==> r[k] == CameraObj(msg[k], draws[k])
  {
    seq(|msg|, k requires 0 <= k < |msg| => CameraObj(msg[k], draws[k]))
  }

  /** Radar tracks at the origin are empty slots and are skipped. */
  function RadarObjs(msg: seq<RadarMsg>, draws: seq<real>): (r: seq<Obj>)
    requires AreDraws(draws, |msg|)
    ensures AllAlive(r) && |r| <= |msg|
  {
    if msg == [] then []
    else
      var n := |msg| - 1;
      RadarObjs(msg[..n], draws[..n]) + if msg[n].x == 0.0 && msg[n].y == 0.0 then [] else [RadarObj(msg[n], draws[n])]
  }

  /** Fused objects at the origin are not published. */
  function Visible(objs: seq<Obj>): seq<Obj> {
    if objs == [] then []
    else
      var n := |objs| - 1;
      Visible(objs[..n]) + if objs[n].x == 0.0 && objs[n].y == 0.0 then [] else [objs[n]]
  }

  // ---------- the objects of a message, field by field ----------

  /** The object of the lidar message's entry k. */
  ghost predicate IsLidarObj(m: LidarMsg, k: int, o: Obj) {
    && o.x == m.x && o.y == m.y && o.vx == m.vx && o.vy == m.vy && o.kind == m.kind
    && o.length == m.length && o.width == m.width
    && o.id == k % 256 && o.usedLidar == (k % 256, k % 256) && o.usedCamera == o.usedRadar == (0, 0)
    && 0.9 <= o.confidence <= 1.0
  }

  /** The object of a camera message's entry: at rest, with the size of its type, half a length further away. */
  ghost predicate IsCameraObj(m: CameraMsg, o: Obj) {
    && o.x == m.x + o.length / 2.0 && o.y == m.y && o.vx == 0.0 && o.vy == 0.0 && o.kind == m.kind && o.id == m.id
    && (m.kind == 1 ==> o.length == 3.6 && o.width == 1.4) && (m.kind == 2 ==> o.length == 7.0 && o.width == 2.0)
    && (m.kind == 3 ==> o.length == 2.0 && o.width == 1.0) && (m.kind == 4 ==> o.length == 0.7 && o.width == 0.7)
    && (m.kind < 1 || m.kind > 4 ==> o.length == 0.0 && o.width == 0.0)
    && o.usedCamera == (m.id, m.id) && o.usedLidar == o.usedRadar == (0, 0)
    && 0.9 <= o.confidence <= 1.0
  }

  /** The object of a radar message's entry: sizes that are not positive count as 1. */
  ghost predicate IsRadarObj(m: RadarMsg, o: Obj) {
    && o.x == m.x && o.y == m.y && o.vx == m.vx && o.vy == m.vy && o.kind == m.kind % 256
    && o.length == (if m.length > 0.0 then m.length else 1.0) && o.width == (if m.width > 0.0 then m.width else 1.0)
    && o.id == m.id % 256 && o.usedRadar == (m.id % 256, m.id % 256) && o.usedCamera == o.usedLidar == (0, 0)
    && 0.8 <= o.confidence <= 0.9
  }

  ghost predicate AreLidarObjs(msg: seq<LidarMsg>, objs: seq<Obj>) {
    |objs| == |msg| && forall k :: 0 <= k < |msg| ==> IsLidarObj(msg[k], k, objs[k])
  }

  ghost predicate AreCameraObjs(msg: seq<CameraMsg>, objs: seq<Obj>) {
    |objs| == |msg| && forall k :: 0 <= k < |msg| ==> IsCameraObj(msg[k], objs[k])
  }

  predicate IsSlot(m: RadarMsg) { m.x != 0.0 || m.y != 0.0 }

  /** The radar objects are those of the entries away from the origin, in order; they stand at the given places. */
  ghost predicate AreRadarObjs(msg: seq<RadarMsg>, objs: seq<Obj>, places: seq<int>) {
    && |places| == |objs| && Ascending(places)
    && (forall k :: 0 <= k < |places| ==>
          0 <= places[k] < |msg| && IsSlot(msg[places[k]]) && IsRadarObj(msg[places[k]], objs[k]))
    && (forall i :: 0 <= i < |msg| && IsSlot(msg[i]) ==> i in places)
  }

  predicate AwayFromOrigin(o: Obj) { o.x != 0.0 || o.y != 0.0 }

  lemma RadarObjsNext(msg: seq<RadarMsg>, objs: seq<Obj>, places: seq<int>, m: RadarMsg, draw: real)
    requires AreRadarObjs(msg, objs, places) && 0.0 <= draw <= 1.0
    ensures if IsSlot(m) then AreRadarObjs(msg + [m], objs + [RadarObj(m, draw)], places + [|msg|])
            else AreRadarObjs(msg + [m], objs, places)
  {
  }

  lemma {:induction false} RadarObjsAreRead(msg: seq<RadarMsg>, draws: seq<real>) returns (places: seq<int>)
    requires AreDraws(draws, |msg|)
    ensures AreRadarObjs(msg, RadarObjs(msg, draws), places)
  {
    places := [];
    if msg != [] {
      var n := |msg| - 1;
      assert msg == msg[..n] + [msg[n]];
      places := RadarObjsAreRead(msg[..n], draws[..n]);
      RadarObjsNext(msg[..n], RadarObjs(msg[..n], draws[..n]), places, msg[n], draws[n]);
      if IsSlot(msg[n]) {
        places := places + [n];
      }
    }
  }

  /** What is published are the objects away from the origin, in order. */
  lemma {:induction false} VisibleIsSelection(objs: seq<Obj>) returns (places: seq<int>)
    ensures IsSelection(objs, AwayFromOrigin, places, Visible(objs))
  {
    places := [];
    if objs != [] {
      var n := |objs| - 1;
      assert objs == objs[..n] + [objs[n]];
      places := VisibleIsSelection(objs[..n]);
      SelectionAppend(objs[..n], AwayFromOrigin, places, Visible(objs[..n]), objs[n]);
      if AwayFromOrigin(objs[n]) {
        places := places + [n];
      }
    }
  }

  class SF2Publisher {
    var lidars: seq<Obj>
    var cams: seq<Obj>
    var radars: seq<Obj>
    var lidarCheck: bool
    var camCheck: bool
    var radarCheck: bool

    constructor ()
      ensures Valid() && !lidarCheck && lidars == cams == radars == []
    {
      lidars, cams, radars := [], [], [];
      lidarCheck, camCheck, radarCheck := false, false, false;
    }

    /** No radar object is ever consumed for good, and no lidar object before the fusion that its list waits for. */
    ghost predicate Valid()
      reads this
    {
      AllAlive(radars) && (lidarCheck ==> AllAlive(lidars))
    }

    method CallbackLidarObj(msg: seq<LidarMsg>, draws: seq<real>)
      requires Valid() && AreDraws(draws, |msg|)
      modifies this`lidars, this`lidarCheck
      ensures Valid() && lidarCheck && lidars == LidarObjs(msg, draws)
      ensures AreLidarObjs(msg, lidars)
    {
      lidars := [];
      var li := 0;
      while li < |msg|
        invariant 0 <= li <= |msg| && lidars == LidarObjs(msg, draws)[..li]
      {
        lidars := lidars + [LidarObj(msg[li], li, draws[li])];
        li := li + 1;
      }
      lidarCheck := true;
    }

    method CallbackRadarObj(msg: seq<RadarMsg>, draws: seq<real>)
      requires Valid() && AreDraws(draws, |msg|)
      modifies this`radars, this`radarCheck
      ensures Valid() && radarCheck && radars == RadarObjs(msg, draws)
      ensures exists places :: AreRadarObjs(msg, radars, places)
    {
      radars := [];
      var k := 0;
      while k < |msg|
        invariant 0 <= k <= |msg| && radars == RadarObjs(msg[..k], draws[..k])
      {
        assert msg[..k + 1][..k] == msg[..k] && draws[..k + 1][..k] == draws[..k];
        if !(msg[k].x == 0.0 && msg[k].y == 0.0) {
          radars := radars + [RadarObj(msg[k], draws[k])];
        }
        k := k + 1;
      }
      assert msg[..k] == msg && draws[..k] == draws;
      radarCheck := true;
      ghost var places := RadarObjsAreRead(msg, draws);
    }

    method ReadCamera(msg: seq<CameraMsg>, draws: seq<real>)
      requires AreDraws(draws, |msg|)
      modifies this`cams
      ensures cams == CameraObjs(msg, draws) && AreCameraObjs(msg, cams)
    {
      cams := [];
      var k := 0;
      while k < |msg|
        invariant 0 <= k <= |msg| && cams == CameraObjs(msg, draws)[..k]
      {
        cams := cams + [CameraObj(msg[k], draws[k])];
        k := k + 1;
      }
    }

    /**
     A camera message replaces the camera list and, when a lidar list waits, fuses: the fusion
     starts on unconsumed lidar and radar lists. `fuseDraws` are the draws of the fusion.
     */
    method CallbackCameraObj(msg: seq<CameraMsg>, draws: seq<real>, fuseDraws: seq<real>) returns (published: seq<Obj>)
      requires Valid() && AreDraws(draws, |msg|) && AreDraws(fuseDraws, |msg|)
      modifies this
      ensures Valid() && radars == old(radars)
      ensures !old(lidarCheck) ==> cams == CameraObjs(msg, draws) && lidars == old(lidars) && published == []
      ensures !old(lidarCheck) ==> AreCameraObjs(msg, cams)
      ensures old(lidarCheck) ==>
        var p := FuseAll(OVERLAPS, old(lidars), old(radars), CameraObjs(msg, draws), fuseDraws, |msg|);
        && AllAlive(old(lidars)) && AllAlive(old(radars))
        && cams == p.fused && lidars == p.lidars && published == Visible(p.fused)
        && !camCheck && !lidarCheck && !radarCheck
      ensures old(lidarCheck) ==> exists cs, lidarOf, radarOf ::
        AreCameraObjs(msg, cs) && IsFusion(old(lidars), old(radars), cs, fuseDraws, cams, lidarOf, radarOf)
      ensures old(lidarCheck) ==> exists places :: IsSelection(cams, AwayFromOrigin, places, published)
    {
      ReadCamera(msg, draws);
      camCheck := true;
      published := [];
      if lidarCheck {
        published := Fusion(fuseDraws);
      }
    }

    /** The first lidar object that is not consumed and overlaps the camera object, or -1. */
    method FindLidar(cam: Obj) returns (j: int)
      ensures j == FirstFree(OVERLAPS, lidars, cam, 0)
    {
      j := 0;
      while j < |lidars|
        invariant 0 <= j <= |lidars|
        invariant FirstFree(OVERLAPS, lidars, cam, 0) == FirstFree(OVERLAPS, lidars, cam, j)
      {
        if lidars[j].confidence != 0.0 {
          var iou := IoU(RectOf(lidars[j]), RectOf(cam));
          if iou >= MIN_OVERLAP {
            return;
          }
        }
        j := j + 1;
      }
      j := -1;
    }

    /** The first candidate that is not consumed and overlaps the fused object, or -1. */
    method FindRadar(candidates: seq<Obj>, obj: Obj) returns (j: int)
      ensures j == FirstFree(OVERLAPS, candidates, obj, 0)
    {
      j := 0;
      while j < |candidates|
        invariant 0 <= j <= |candidates|
        invariant FirstFree(OVERLAPS, candidates, obj, 0) == FirstFree(OVERLAPS, candidates, obj, j)
      {
        if candidates[j].confidence != 0.0 {
          var iou := IoU(RectOf(obj), RectOf(candidates[j]));
          IoUIsSymmetric(RectOf(obj), RectOf(candidates[j]));
          if iou >= MIN_OVERLAP {
            return;
          }
        }
        j := j + 1;
      }
      j := -1;
    }

    /** One camera object: takes what it overlaps from the lidar list and from the radar candidates. */
    method FuseOne(cam: Obj, candidates: seq<Obj>, draw: real, ghost p: Progress)
      returns (obj: Obj, candidates': seq<Obj>)
      requires p.lidars == lidars && p.radars == candidates
      modifies this`lidars
      ensures var p' := Fuse(OVERLAPS, p, cam, draw);
              p'.lidars == lidars && p'.radars == candidates' && p'.fused == p.fused + [obj]
      ensures exists l, r :: -1 <= l < |old(lidars)| && -1 <= r < |candidates| &&
                lidars == Consume(old(lidars), l) && candidates' == Consume(candidates, r) &&
                IsFused(cam, draw, old(lidars), l, candidates, r, obj)
    {
      ghost var before := lidars;
      obj, candidates' := cam, candidates;
      var l := FindLidar(obj);
      if l != -1 {
        obj := obj.(usedLidar := lidars[l].usedLidar);
        lidars := lidars[l := lidars[l].(confidence := 0.0)];
      }
      obj := obj.(confidence := CONF_BASE + draw * 0.1);
      var r := FindRadar(candidates, obj);
      if r != -1 {
        candidates' := candidates[r := candidates[r].(confidence := 0.0)];
        obj := obj.(usedRadar := candidates[r].usedRadar, vx := candidates[r].vx, vy := candidates[r].vy);
      }
      assert IsFused(cam, draw, before, l, candidates, r, obj);
    }

    /** The objects that are published: all but those at the origin. */
    method Publish(fused: seq<Obj>) returns (published: seq<Obj>)
      ensures published == Visible(fused)
    {
      published := [];
      var k := 0;
      while k < |fused|
        invariant 0 <= k <= |fused| && published == Visible(fused[..k])
      {
        assert fused[..k + 1][..k] == fused[..k];
        if !(fused[k].x == 0.0 && fused[k].y == 0.0) {
          published := published + [fused[k]];
        }
        k := k + 1;
      }
      assert fused[..k] == fused;
    }

    /** The loop over the camera objects: consumes lidar objects for good and radar objects of a copy of their list. */
    method FuseCameras(draws: seq<real>) returns (fused: seq<Obj>)
      requires |draws| == |cams|
      modifies this`lidars, this`cams
      ensures var p := FuseAll(OVERLAPS, old(lidars), radars, old(cams), draws, |draws|);
              cams == p.fused == fused && lidars == p.lidars
    {
      var candidates := radars;
      fused := [];
      ghost var before, scan, sources := lidars, radars, cams;
      ghost var p := Progress(before, scan, [], [], []);
      var i := 0;
      while i < |cams|
        invariant 0 <= i <= |cams| == |sources| == |draws|
        invariant p == FuseAll(OVERLAPS, before, scan, sources, draws, i)
        invariant p.lidars == lidars && p.radars == candidates && p.fused == fused && |fused| == i
        invariant forall k :: 0 <= k < |cams| ==> cams[k] == if k < i then fused[k] else sources[k]
      {
        var obj, rest := FuseOne(cams[i], candidates, draws[i], p);
        p := Fuse(OVERLAPS, p, sources[i], draws[i]);
        candidates := rest;
        cams := cams[i := obj];
        fused := fused + [obj];
        i := i + 1;
      }
      assert cams == fused;
    }

    /** The fusion: every lidar and radar object is still to be consumed when it starts. */
    method Fusion(draws: seq<real>) returns (published: seq<Obj>)
      requires AllAlive(lidars) && AllAlive(radars) && |draws| == |cams|
      modifies this`lidars, this`cams, this`camCheck, this`lidarCheck, this`radarCheck
      ensures !camCheck && !lidarCheck && !radarCheck
      ensures var p := FuseAll(OVERLAPS, old(lidars), old(radars), old(cams), draws, |old(cams)|);
              cams == p.fused && lidars == p.lidars && published == Visible(p.fused)
      ensures exists lidarOf, radarOf ::
                IsFusion(old(lidars), old(radars), old(cams), draws, cams, lidarOf, radarOf)
      ensures exists places :: IsSelection(cams, AwayFromOrigin, places, published)
    {
      FuseAllIsFusion(lidars, radars, cams, draws);
      var fused := FuseCameras(draws);
      published := Publish(fused);
      ghost var places := VisibleIsSelection(cams);
      camCheck, lidarCheck, radarCheck := false, false, false;
    }
  }
}
