/**
 Sensor fusion with the camera as the main sensor: each camera object consumes the first
 lidar object, and the first radar object, that overlaps it and is not consumed yet. A
 consumed object is marked by confidence 0.
 */
module SensorFusion {
  import opened Permutations
  import opened Overlap

  const MIN_OVERLAP: real := 0.1
  const CONF_BASE: real := 0.9

  /** The fields of an object that the fusion reads or writes; a pair holds a first and a second id. */
  datatype Obj = Obj(x: real, y: real, vx: real, vy: real, kind: int, id: int, length: real, width: real,
                     confidence: real, usedCamera: (int, int), usedLidar: (int, int), usedRadar: (int, int))

  datatype LidarMsg = LidarMsg(x: real, y: real, vx: real, vy: real, kind: int, length: real, width: real)
  datatype CameraMsg = CameraMsg(x: real, y: real, kind: int, id: int)
  datatype RadarMsg = RadarMsg(x: real, y: real, vx: real, vy: real, kind: int, id: int, length: real, width: real)

  /** The width of an object lies along x and its length along y. */
  function RectOf(o: Obj): Rect { Rect(o.x, o.y, o.width, o.length) }

  /** The test of the fusion: an overlap of at least a tenth. */
  const OVERLAPS: Test := (a: Rect, b: Rect) => IoU(a, b) >= MIN_OVERLAP

  /** The random part of a confidence is a draw from [0, 1]. */
  predicate AreDraws(draws: seq<real>, n: nat) {
    |draws| == n && forall k :: 0 <= k < n ==> 0.0 <= draws[k] <= 1.0
  }

  // ---------- greedy consumption ----------

  ghost predicate IsFree(test: Test, o: Obj, target: Obj) {
    o.confidence != 0.0 && test(RectOf(o), RectOf(target))
  }

  /** The first object from place k on that is not consumed and overlaps the target; -1 when there is none. */
  ghost function FirstFree(test: Test, objs: seq<Obj>, target: Obj, k: nat): (j: int)
    requires k <= |objs|
    ensures j == -1 || k <= j < |objs|
    ensures j != -1 ==> IsFree(test, objs[j], target) && forall l :: k <= l < j ==> !IsFree(test, objs[l], target)
    ensures j == -1 ==> forall l :: k <= l < |objs| ==> !IsFree(test, objs[l], target)
    decreases |objs| - k
  {
    if k == |objs| then -1
    else if IsFree(test, objs[k], target) then k
    else FirstFree(test, objs, target, k + 1)
  }

  function Consume(objs: seq<Obj>, j: int): (r: seq<Obj>)
    requires -1 <= j < |objs|
    ensures |r| == |objs|
  {
    if j == -1 then objs else objs[j := objs[j].(confidence := 0.0)]
  }

  function WithLidar(cam: Obj, lidars: seq<Obj>, j: int): Obj
    requires -1 <= j < |lidars|
  {
    if j == -1 then cam else cam.(usedLidar := lidars[j].usedLidar)
  }

  function WithRadar(cam: Obj, radars: seq<Obj>, j: int): Obj
    requires -1 <= j < |radars|
  {
    if j == -1 then cam
    else cam.(usedRadar := radars[j].usedRadar, vx := radars[j].vx, vy := radars[j].vy)
  }

  /** The lists while the camera objects are fused one after the other, and what each one consumed. */
  datatype Progress = Progress(lidars: seq<Obj>, radars: seq<Obj>, fused: seq<Obj>,
                               lidarOf: seq<int>, radarOf: seq<int>)

  ghost function Fuse(test: Test, p: Progress, cam: Obj, draw: real): Progress {
    var l := FirstFree(test, p.lidars, cam, 0);
    var obj := WithLidar(cam, p.lidars, l).(confidence := CONF_BASE + draw * 0.1);
    var r := FirstFree(test, p.radars, obj, 0);
    Progress(Consume(p.lidars, l), Consume(p.radars, r), p.fused + [WithRadar(obj, p.radars, r)],
             p.lidarOf + [l], p.radarOf + [r])
  }

  ghost function FuseAll(test: Test, lidars: seq<Obj>, radars: seq<Obj>, cams: seq<Obj>, draws: seq<real>,
                         k: nat): (p: Progress)
    requires k <= |cams| == |draws|
    ensures |p.fused| == |p.lidarOf| == |p.radarOf| == k
  {
    if k == 0 then Progress(lidars, radars, [], [], [])
    else Fuse(test, FuseAll(test, lidars, radars, cams, draws, k - 1), cams[k - 1], draws[k - 1])
  }

  // ---------- what the fusion guarantees ----------

  /** The objects are as they were, but those listed in `taken` are consumed. */
  ghost predicate Marked(objs: seq<Obj>, before: seq<Obj>, taken: seq<int>) {
    && |objs| == |before|
    && forall j :: 0 <= j < |objs| ==> objs[j] == if j in taken then before[j].(confidence := 0.0) else before[j]
  }

  /** The i-th choice is the first object that passes the test and was not chosen before; -1 when there is none. */
  ghost predicate FirstChoice(test: Test, objs: seq<Obj>, target: Rect, chosen: seq<int>, i: int)
    requires 0 <= i < |chosen|
  {
    var j := chosen[i];
    && (j == -1 || (0 <= j < |objs| && j !in chosen[..i] && test(RectOf(objs[j]), target)))
    && forall l :: 0 <= l < |objs| && (j == -1 || l < j) && test(RectOf(objs[l]), target) ==> l in chosen[..i]
  }

  ghost predicate AllAlive(objs: seq<Obj>) {
    forall j :: 0 <= j < |objs| ==> objs[j].confidence > 0.0
  }

  /**
   The fused object, field by field: what the camera measured, the ids of the lidar object it
   took, and the ids and the velocity of the radar object it took.
   */
  ghost predicate IsFused(cam: Obj, draw: real, lidars: seq<Obj>, l: int, radars: seq<Obj>, r: int, fused: Obj)
    requires -1 <= l < |lidars| && -1 <= r < |radars|
  {
    && fused.x == cam.x && fused.y == cam.y && fused.length == cam.length && fused.width == cam.width
    && fused.kind == cam.kind && fused.id == cam.id && fused.usedCamera == cam.usedCamera
    && fused.usedLidar == (if l == -1 then cam.usedLidar else lidars[l].usedLidar)
    && fused.usedRadar == (if r == -1 then cam.usedRadar else radars[r].usedRadar)
    && fused.vx == (if r == -1 then cam.vx else radars[r].vx)
    && fused.vy == (if r == -1 then cam.vy else radars[r].vy)
    && fused.confidence == 0.9 + draw * 0.1 && (0.0 <= draw <= 1.0 ==> 0.9 <= fused.confidence <= 1.0)
  }

  /** One sensor's side of the fusion: the choices so far are first choices, one-to-one, and mark what they took. */
  ghost predicate Choosing(test: Test, now: seq<Obj>, before: seq<Obj>, cams: seq<Obj>, chosen: seq<int>) {
    && |chosen| <= |cams| && IsMatching(chosen, |before|) && Marked(now, before, chosen)
    && forall i {:trigger FirstChoice(test, before, RectOf(cams[i]), chosen, i)} :: 0 <= i < |chosen| ==>
         FirstChoice(test, before, RectOf(cams[i]), chosen, i)
  }

  /** The fused objects are the camera objects, in order, with what they took from the lists. */
  ghost predicate AllFused(lidars: seq<Obj>, radars: seq<Obj>, cams: seq<Obj>, draws: seq<real>,
                           fused: seq<Obj>, lidarOf: seq<int>, radarOf: seq<int>) {
    && |fused| == |lidarOf| == |radarOf| <= |cams| == |draws|
    && (forall i :: 0 <= i < |fused| ==> -1 <= lidarOf[i] < |lidars| && -1 <= radarOf[i] < |radars|)
    && forall i {:trigger IsFused(cams[i], draws[i], lidars, lidarOf[i], radars, radarOf[i], fused[i])} ::
         0 <= i < |fused| ==> IsFused(cams[i], draws[i], lidars, lidarOf[i], radars, radarOf[i], fused[i])
  }

  lemma AllFusedStep(lidars: seq<Obj>, radars: seq<Obj>, cams: seq<Obj>, draws: seq<real>,
                     fused: seq<Obj>, lidarOf: seq<int>, radarOf: seq<int>, l: int, r: int, o: Obj)
    requires AllFused(lidars, radars, cams, draws, fused, lidarOf, radarOf) && |fused| < |cams|
    requires -1 <= l < |lidars| && -1 <= r < |radars|
    requires IsFused(cams[|fused|], draws[|fused|], lidars, l, radars, r, o)
    ensures AllFused(lidars, radars, cams, draws, fused + [o], lidarOf + [l], radarOf + [r])
  {
    var fused', lidarOf', radarOf' := fused + [o], lidarOf + [l], radarOf + [r];
    forall i | 0 <= i < |fused'|
      ensures -1 <= lidarOf'[i] < |lidars| && -1 <= radarOf'[i] < |radars|
      ensures IsFused(cams[i], draws[i], lidars, lidarOf'[i], radars, radarOf'[i], fused'[i])
    {
      assert i < |fused| ==> IsFused(cams[i], draws[i], lidars, lidarOf[i], radars, radarOf[i], fused[i]);
    }
  }

  /** The first |p.fused| camera objects are fused one-to-one, in order. */
  ghost predicate Fusing(test: Test, lidars: seq<Obj>, radars: seq<Obj>, cams: seq<Obj>, draws: seq<real>,
                         p: Progress) {
    var k := |p.fused|;
    && k <= |cams| == |draws| && |p.lidarOf| == |p.radarOf| == k
    && Choosing(test, p.lidars, lidars, cams, p.lidarOf)
    && Choosing(test, p.radars, radars, cams, p.radarOf)
    && AllFused(lidars, radars, cams, draws, p.fused, p.lidarOf, p.radarOf)
  }

  /** Choosing the first free object of a marked list is the next first choice. */
  lemma {:induction false} NextChoice(test: Test, objs: seq<Obj>, before: seq<Obj>, taken: seq<int>, target: Obj)
    requires AllAlive(before) && Marked(objs, before, taken) && IsMatching(taken, |before|)
    ensures var j := FirstFree(test, objs, target, 0);
            && IsMatching(taken + [j], |before|)
            && Marked(Consume(objs, j), before, taken + [j])
            && FirstChoice(test, before, RectOf(target), taken + [j], |taken|)
            && (j != -1 ==> objs[j] == before[j])
  {
    var j := FirstFree(test, objs, target, 0);
    assert (taken + [j])[..|taken|] == taken;
    forall l | 0 <= l < |objs|
      ensures RectOf(objs[l]) == RectOf(before[l])
      ensures objs[l].confidence == 0.0 <==> l in taken
    {
    }
  }

  lemma EarlierChoice(test: Test, objs: seq<Obj>, target: Rect, chosen: seq<int>, j: int, i: int)
    requires 0 <= i < |chosen| && FirstChoice(test, objs, target, chosen, i)
    ensures FirstChoice(test, objs, target, chosen + [j], i)
  {
    assert (chosen + [j])[..i] == chosen[..i];
  }

  /** One more choice by one sensor, for a target in the place of the next camera object. */
  lemma {:induction false} ChoosingStep(test: Test, now: seq<Obj>, before: seq<Obj>, cams: seq<Obj>,
                                        chosen: seq<int>, target: Obj)
    requires AllAlive(before) && Choosing(test, now, before, cams, chosen) && |chosen| < |cams|
    requires RectOf(target) == RectOf(cams[|chosen|])
    ensures var j := FirstFree(test, now, target, 0);
            Choosing(test, Consume(now, j), before, cams, chosen + [j]) && (j != -1 ==> now[j] == before[j])
  {
    var j := FirstFree(test, now, target, 0);
    NextChoice(test, now, before, chosen, target);
    forall i | 0 <= i < |chosen| + 1
      ensures FirstChoice(test, before, RectOf(cams[i]), chosen + [j], i)
    {
      if i < |chosen| {
        EarlierChoice(test, before, RectOf(cams[i]), chosen, j, i);
      }
    }
  }

  /** What the fusion makes of a camera object, when it takes objects that were not consumed before. */
  lemma FusedFields(cam: Obj, draw: real, lidars: seq<Obj>, lidarsNow: seq<Obj>, l: int,
                    radars: seq<Obj>, radarsNow: seq<Obj>, r: int)
    requires -1 <= l < |lidars| == |lidarsNow| && (l != -1 ==> lidarsNow[l] == lidars[l])
    requires -1 <= r < |radars| == |radarsNow| && (r != -1 ==> radarsNow[r] == radars[r])
    ensures var obj := WithLidar(cam, lidarsNow, l).(confidence := CONF_BASE + draw * 0.1);
            IsFused(cam, draw, lidars, l, radars, r, WithRadar(obj, radarsNow, r))
  {
  }

  lemma FieldsStep(lidars: seq<Obj>, radars: seq<Obj>, cams: seq<Obj>, draws: seq<real>, p: Progress, l: int, r: int)
    requires |p.fused| < |cams| && AllFused(lidars, radars, cams, draws, p.fused, p.lidarOf, p.radarOf)
    requires -1 <= l < |lidars| == |p.lidars| && (l != -1 ==> p.lidars[l] == lidars[l])
    requires -1 <= r < |radars| == |p.radars| && (r != -1 ==> p.radars[r] == radars[r])
    ensures var obj := WithLidar(cams[|p.fused|], p.lidars, l).(confidence := CONF_BASE + draws[|p.fused|] * 0.1);
            AllFused(lidars, radars, cams, draws, p.fused + [WithRadar(obj, p.radars, r)],
                     p.lidarOf + [l], p.radarOf + [r])
  {
    var k := |p.fused|;
    var obj := WithLidar(cams[k], p.lidars, l).(confidence := CONF_BASE + draws[k] * 0.1);
    FusedFields(cams[k], draws[k], lidars, p.lidars, l, radars, p.radars, r);
    AllFusedStep(lidars, radars, cams, draws, p.fused, p.lidarOf, p.radarOf, l, r, WithRadar(obj, p.radars, r));
  }

  lemma FuseStep(test: Test, lidars: seq<Obj>, radars: seq<Obj>, cams: seq<Obj>, draws: seq<real>, p: Progress)
    requires AllAlive(lidars) && AllAlive(radars)
    requires Fusing(test, lidars, radars, cams, draws, p) && |p.fused| < |cams|
    ensures Fusing(test, lidars, radars, cams, draws, Fuse(test, p, cams[|p.fused|], draws[|p.fused|]))
  {
    var k := |p.fused|;
    var l := FirstFree(test, p.lidars, cams[k], 0);
    var obj := WithLidar(cams[k], p.lidars, l).(confidence := CONF_BASE + draws[k] * 0.1);
    var r := FirstFree(test, p.radars, obj, 0);
    var p' := Fuse(test, p, cams[k], draws[k]);
    assert Choosing(test, p'.lidars, lidars, cams, p'.lidarOf) by {
      ChoosingStep(test, p.lidars, lidars, cams, p.lidarOf, cams[k]);
    }
    assert Choosing(test, p'.radars, radars, cams, p'.radarOf) by {
      ChoosingStep(test, p.radars, radars, cams, p.radarOf, obj);
    }
    assert AllFused(lidars, radars, cams, draws, p'.fused, p'.lidarOf, p'.radarOf) by {
      ChoosingStep(test, p.lidars, lidars, cams, p.lidarOf, cams[k]);
      ChoosingStep(test, p.radars, radars, cams, p.radarOf, obj);
      FieldsStep(lidars, radars, cams, draws, p, l, r);
    }
  }

  /**
   Started on unconsumed lists, the fusion is one-to-one: each camera object takes the first
   overlapping lidar object, and the first overlapping radar object, that no earlier camera
   object took, and each fused object is its camera object with the ids and the velocity it took.
   */
  lemma {:induction false} FusionIsOneToOne(test: Test, lidars: seq<Obj>, radars: seq<Obj>, cams: seq<Obj>,
                                            draws: seq<real>, k: nat)
    requires k <= |cams| == |draws| && AllAlive(lidars) && AllAlive(radars)
    ensures Fusing(test, lidars, radars, cams, draws, FuseAll(test, lidars, radars, cams, draws, k))
  {
    if k > 0 {
      FusionIsOneToOne(test, lidars, radars, cams, draws, k - 1);
      FuseStep(test, lidars, radars, cams, draws, FuseAll(test, lidars, radars, cams, draws, k - 1));
    }
  }

  /** The fused list has the camera objects' number, order, positions, sizes and ids. */
  lemma {:induction false} FusionKeepsCameraObjects(test: Test, lidars: seq<Obj>, radars: seq<Obj>, cams: seq<Obj>,
                                                    draws: seq<real>)
    requires |cams| == |draws| && AllAlive(lidars) && AllAlive(radars)
    ensures var fused := FuseAll(test, lidars, radars, cams, draws, |cams|).fused;
            && |fused| == |cams|
            && forall i :: 0 <= i < |cams| ==>
                 && fused[i].x == cams[i].x && fused[i].y == cams[i].y
                 && fused[i].length == cams[i].length && fused[i].width == cams[i].width
                 && fused[i].id == cams[i].id && fused[i].kind == cams[i].kind
                 && fused[i].usedCamera == cams[i].usedCamera
  {
    FusionIsOneToOne(test, lidars, radars, cams, draws, |cams|);
    var p := FuseAll(test, lidars, radars, cams, draws, |cams|);
    forall i | 0 <= i < |cams|
      ensures IsFused(cams[i], draws[i], lidars, p.lidarOf[i], radars, p.radarOf[i], p.fused[i])
    {
    }
  }

  /** Nothing that could be fused is left over: a camera object without a lidar match overlaps consumed objects only. */
  lemma {:induction false} FusionIsMaximal(test: Test, lidars: seq<Obj>, radars: seq<Obj>, cams: seq<Obj>,
                                           draws: seq<real>, i: nat, j: nat)
    requires |cams| == |draws| && AllAlive(lidars) && AllAlive(radars) && i < |cams|
    ensures var p := FuseAll(test, lidars, radars, cams, draws, |cams|);
            && (p.lidarOf[i] == -1 && j < |lidars| && test(RectOf(lidars[j]), RectOf(cams[i])) ==> j in p.lidarOf[..i])
            && (p.radarOf[i] == -1 && j < |radars| && test(RectOf(radars[j]), RectOf(cams[i])) ==> j in p.radarOf[..i])
  {
    var p := FuseAll(test, lidars, radars, cams, draws, |cams|);
    FusionIsOneToOne(test, lidars, radars, cams, draws, |cams|);
    assert FirstChoice(test, lidars, RectOf(cams[i]), p.lidarOf, i);
    assert FirstChoice(test, radars, RectOf(cams[i]), p.radarOf, i);
  }

  // ---------- the overlap test, by areas ----------

  /** The objects have at least a tenth of their union in common; widths lie along x and lengths along y. */
  predicate ObjectsOverlap(a: Obj, b: Obj) {
    var w := Extent(Max(a.x - a.width / 2.0, b.x - b.width / 2.0), Min(a.x + a.width / 2.0, b.x + b.width / 2.0));
    var h := Extent(Max(a.y - a.length / 2.0, b.y - b.length / 2.0), Min(a.y + a.length / 2.0, b.y + b.length / 2.0));
    var u := Product(a.width, a.length) + Product(b.width, b.length) - Product(w, h);
    u > 0.0 && Product(w, h) >= 0.1 * u
  }

  lemma OverlapsByArea(a: Obj, b: Obj)
    ensures OVERLAPS(RectOf(a), RectOf(b)) <==> ObjectsOverlap(a, b)
  {
    IoUAtLeast(RectOf(a), RectOf(b), 0.1);
  }

  /** The i-th choice is the first object that overlaps the camera object and was not chosen before; -1 for none. */
  ghost predicate TakesFirst(objs: seq<Obj>, cam: Obj, chosen: seq<int>, i: int)
    requires 0 <= i < |chosen|
  {
    var j := chosen[i];
    && (j == -1 || (0 <= j < |objs| && j !in chosen[..i] && ObjectsOverlap(objs[j], cam)))
    && forall l :: 0 <= l < |objs| && (j == -1 || l < j) && ObjectsOverlap(objs[l], cam) ==> l in chosen[..i]
  }

  lemma FirstChoiceByArea(objs: seq<Obj>, cam: Obj, chosen: seq<int>, i: int)
    requires 0 <= i < |chosen| && FirstChoice(OVERLAPS, objs, RectOf(cam), chosen, i)
    ensures TakesFirst(objs, cam, chosen, i)
  {
    forall j | 0 <= j < |objs|
      ensures OVERLAPS(RectOf(objs[j]), RectOf(cam)) <==> ObjectsOverlap(objs[j], cam)
    {
      OverlapsByArea(objs[j], cam);
    }
  }

  /**
   The fusion of a list of camera objects, stated on the objects alone: who takes what, one-to-one,
   and what each fused object carries.
   */
  ghost predicate IsFusion(lidars: seq<Obj>, radars: seq<Obj>, cams: seq<Obj>, draws: seq<real>, fused: seq<Obj>,
                           lidarOf: seq<int>, radarOf: seq<int>) {
    && |fused| == |cams| == |lidarOf| == |radarOf|
    && IsMatching(lidarOf, |lidars|) && IsMatching(radarOf, |radars|)
    && AllFused(lidars, radars, cams, draws, fused, lidarOf, radarOf)
    && forall i {:trigger TakesFirst(lidars, cams[i], lidarOf, i)} {:trigger TakesFirst(radars, cams[i], radarOf, i)} ::
         0 <= i < |cams| ==> TakesFirst(lidars, cams[i], lidarOf, i) && TakesFirst(radars, cams[i], radarOf, i)
  }

  lemma {:induction false} FuseAllIsFusion(lidars: seq<Obj>, radars: seq<Obj>, cams: seq<Obj>, draws: seq<real>)
    requires |cams| == |draws| && AllAlive(lidars) && AllAlive(radars)
    ensures var p := FuseAll(OVERLAPS, lidars, radars, cams, draws, |cams|);
            IsFusion(lidars, radars, cams, draws, p.fused, p.lidarOf, p.radarOf)
  {
    var p := FuseAll(OVERLAPS, lidars, radars, cams, draws, |cams|);
    FusionIsOneToOne(OVERLAPS, lidars, radars, cams, draws, |cams|);
    forall i | 0 <= i < |cams|
      ensures TakesFirst(lidars, cams[i], p.lidarOf, i) && TakesFirst(radars, cams[i], p.radarOf, i)
    {
      assert FirstChoice(OVERLAPS, lidars, RectOf(cams[i]), p.lidarOf, i);
      assert FirstChoice(OVERLAPS, radars, RectOf(cams[i]), p.radarOf, i);
      FirstChoiceByArea(lidars, cams[i], p.lidarOf, i);
      FirstChoiceByArea(radars, cams[i], p.radarOf, i);
    }
  }
}
