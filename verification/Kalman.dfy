/** The small matrices of the tracker's filter, and the algebra on them that the filter uses. */
module SmallMatrices {
  datatype Vec2 = Vec2(a0: real, a1: real)
  datatype Vec4 = Vec4(a0: real, a1: real, a2: real, a3: real)
  datatype Mat2 = Mat2(r0: Vec2, r1: Vec2)
  datatype Mat24 = Mat24(r0: Vec4, r1: Vec4)
  datatype Mat42 = Mat42(r0: Vec2, r1: Vec2, r2: Vec2, r3: Vec2)
  datatype Mat4 = Mat4(r0: Vec4, r1: Vec4, r2: Vec4, r3: Vec4)

  function Dot2(a: Vec2, b: Vec2): real { a.a0 * b.a0 + a.a1 * b.a1 }
  function Dot4(a: Vec4, b: Vec4): real { a.a0 * b.a0 + a.a1 * b.a1 + a.a2 * b.a2 + a.a3 * b.a3 }
  function Add2(a: Vec2, b: Vec2): Vec2 { Vec2(a.a0 + b.a0, a.a1 + b.a1) }
  function Sub2(a: Vec2, b: Vec2): Vec2 { Vec2(a.a0 - b.a0, a.a1 - b.a1) }
  function Add4(a: Vec4, b: Vec4): Vec4 { Vec4(a.a0 + b.a0, a.a1 + b.a1, a.a2 + b.a2, a.a3 + b.a3) }
  function Sub4(a: Vec4, b: Vec4): Vec4 { Vec4(a.a0 - b.a0, a.a1 - b.a1, a.a2 - b.a2, a.a3 - b.a3) }

  function Transpose4(m: Mat4): Mat4 {
    Mat4(Vec4(m.r0.a0, m.r1.a0, m.r2.a0, m.r3.a0), Vec4(m.r0.a1, m.r1.a1, m.r2.a1, m.r3.a1),
         Vec4(m.r0.a2, m.r1.a2, m.r2.a2, m.r3.a2), Vec4(m.r0.a3, m.r1.a3, m.r2.a3, m.r3.a3))
  }

  function Transpose24(m: Mat24): Mat42 {
    Mat42(Vec2(m.r0.a0, m.r1.a0), Vec2(m.r0.a1, m.r1.a1), Vec2(m.r0.a2, m.r1.a2), Vec2(m.r0.a3, m.r1.a3))
  }

  function Transpose42(m: Mat42): Mat24 {
    Mat24(Vec4(m.r0.a0, m.r1.a0, m.r2.a0, m.r3.a0), Vec4(m.r0.a1, m.r1.a1, m.r2.a1, m.r3.a1))
  }

  function Apply4(m: Mat4, x: Vec4): Vec4 { Vec4(Dot4(m.r0, x), Dot4(m.r1, x), Dot4(m.r2, x), Dot4(m.r3, x)) }
  function Apply24(m: Mat24, x: Vec4): Vec2 { Vec2(Dot4(m.r0, x), Dot4(m.r1, x)) }
  function Apply42(m: Mat42, x: Vec2): Vec4 { Vec4(Dot2(m.r0, x), Dot2(m.r1, x), Dot2(m.r2, x), Dot2(m.r3, x)) }
  function Apply2(m: Mat2, x: Vec2): Vec2 { Vec2(Dot2(m.r0, x), Dot2(m.r1, x)) }

  // A product has the rows of its left factor, each applied to the columns of its right factor.
  function Mul44(a: Mat4, b: Mat4): Mat4 {
    var t := Transpose4(b);
    Mat4(Apply4(t, a.r0), Apply4(t, a.r1), Apply4(t, a.r2), Apply4(t, a.r3))
  }

  function Mul24x44(a: Mat24, b: Mat4): Mat24 {
    var t := Transpose4(b);
    Mat24(Apply4(t, a.r0), Apply4(t, a.r1))
  }

  function Mul24x42(a: Mat24, b: Mat42): Mat2 {
    var t := Transpose42(b);
    Mat2(Apply24(t, a.r0), Apply24(t, a.r1))
  }

  function Mul44x42(a: Mat4, b: Mat42): Mat42 {
    var t := Transpose42(b);
    Mat42(Apply24(t, a.r0), Apply24(t, a.r1), Apply24(t, a.r2), Apply24(t, a.r3))
  }

  function Mul42x22(a: Mat42, b: Mat2): Mat42 {
    var t := Mat2(Vec2(b.r0.a0, b.r1.a0), Vec2(b.r0.a1, b.r1.a1));
    Mat42(Apply2(t, a.r0), Apply2(t, a.r1), Apply2(t, a.r2), Apply2(t, a.r3))
  }

  function Mul42x24(a: Mat42, b: Mat24): Mat4 {
    var t := Transpose24(b);
    Mat4(Apply42(t, a.r0), Apply42(t, a.r1), Apply42(t, a.r2), Apply42(t, a.r3))
  }

  function AddMat2(a: Mat2, b: Mat2): Mat2 { Mat2(Add2(a.r0, b.r0), Add2(a.r1, b.r1)) }
  function AddMat4(a: Mat4, b: Mat4): Mat4 {
    Mat4(Add4(a.r0, b.r0), Add4(a.r1, b.r1), Add4(a.r2, b.r2), Add4(a.r3, b.r3))
  }
  function SubMat4(a: Mat4, b: Mat4): Mat4 {
    Mat4(Sub4(a.r0, b.r0), Sub4(a.r1, b.r1), Sub4(a.r2, b.r2), Sub4(a.r3, b.r3))
  }

  function Scalar2(s: real): Mat2 { Mat2(Vec2(s, 0.0), Vec2(0.0, s)) }
  function Scalar4(s: real): Mat4 {
    Mat4(Vec4(s, 0.0, 0.0, 0.0), Vec4(0.0, s, 0.0, 0.0), Vec4(0.0, 0.0, s, 0.0), Vec4(0.0, 0.0, 0.0, s))
  }

  function Det(m: Mat2): real { m.r0.a0 * m.r1.a1 - m.r0.a1 * m.r1.a0 }

  function Inverse(m: Mat2): Mat2
    requires Det(m) != 0.0
  {
    var d := Det(m);
    Mat2(Vec2(m.r1.a1 / d, -m.r0.a1 / d), Vec2(-m.r1.a0 / d, m.r0.a0 / d))
  }

  function Mul22(a: Mat2, b: Mat2): Mat2 {
    var t := Mat2(Vec2(b.r0.a0, b.r1.a0), Vec2(b.r0.a1, b.r1.a1));
    Mat2(Apply2(t, a.r0), Apply2(t, a.r1))
  }

  /** `Inverse` undoes its argument. */
  lemma InverseIsInverse(m: Mat2)
    requires Det(m) != 0.0
    ensures Mul22(m, Inverse(m)) == Scalar2(1.0)
  {
    var d := Det(m);
    var i := Inverse(m);
    assert (m.r0.a0 * m.r1.a1 - m.r0.a1 * m.r1.a0) / d == 1.0;
    assert m.r0.a0 * (m.r1.a1 / d) + m.r0.a1 * (-m.r1.a0 / d) == (m.r0.a0 * m.r1.a1 - m.r0.a1 * m.r1.a0) / d;
    assert m.r0.a0 * (-m.r0.a1 / d) + m.r0.a1 * (m.r0.a0 / d) == 0.0;
    assert m.r1.a0 * (m.r1.a1 / d) + m.r1.a1 * (-m.r1.a0 / d) == 0.0;
    assert m.r1.a0 * (-m.r0.a1 / d) + m.r1.a1 * (m.r0.a0 / d) == (m.r0.a0 * m.r1.a1 - m.r0.a1 * m.r1.a0) / d;
  }
}

/** The tracker's constant-velocity filter: state [rx, ry, vx, vy] and its covariance. */
module Kalman {
  import opened SmallMatrices

  const H := Mat24(Vec4(1.0, 0.0, 0.0, 0.0), Vec4(0.0, 1.0, 0.0, 0.0))
  const R := Scalar2(0.2)
  const Q := Scalar4(0.05)

  datatype State = State(x: Vec4, P: Mat4)

  /** A track starts at the detected position, at rest, with covariance 100 I. */
  function Initial(z: Vec2): State {
    State(Vec4(z.a0, z.a1, 0.0, 0.0), Scalar4(100.0))
  }

  /** An elapsed time that is not positive counts as 10 ms. */
  function Elapsed(dt: real): real {
    if dt <= 0.0 then 0.01 else dt
  }

  function Transition(dt: real): Mat4 {
    Mat4(Vec4(1.0, 0.0, dt, 0.0), Vec4(0.0, 1.0, 0.0, dt), Vec4(0.0, 0.0, 1.0, 0.0), Vec4(0.0, 0.0, 0.0, 1.0))
  }

  function Predict(s: State, dt: real): State {
    var F := Transition(dt);
    State(Apply4(F, s.x), AddMat4(Mul44(Mul44(F, s.P), Transpose4(F)), Q))
  }

  function Innovation(P: Mat4): Mat2 {
    AddMat2(Mul24x42(Mul24x44(H, P), Transpose24(H)), R)
  }

  function Gain(P: Mat4): Mat42
    requires Det(Innovation(P)) != 0.0
  {
    Mul42x22(Mul44x42(P, Transpose24(H)), Inverse(Innovation(P)))
  }

  /** The covariance after a correction with gain K. */
  function Reduced(P: Mat4, K: Mat42): Mat4 {
    Mul44(SubMat4(Scalar4(1.0), Mul42x24(K, H)), P)
  }

  /** The correction of the state by a measured position. */
  function Correct(s: State, z: Vec2): State
    requires Det(Innovation(s.P)) != 0.0
  {
    var K := Gain(s.P);
    var y := Sub2(z, Apply24(H, s.x));
    State(Add4(s.x, Apply42(K, y)), Reduced(s.P, K))
  }

  /** The velocity implied by how far the correction moved the position. */
  function Velocity(before: State, after: State, dt: real): Vec2
    requires dt != 0.0
  {
    Vec2((after.x.a0 - before.x.a0) / dt, (after.x.a1 - before.x.a1) / dt)
  }

  /** Blends the implied velocity into the state; the covariance is left alone. */
  function Smooth(s: State, v: Vec2): State {
    s.(x := s.x.(a2 := 0.7 * s.x.a2 + 0.3 * v.a0, a3 := 0.7 * s.x.a3 + 0.3 * v.a1))
  }

  /** The whole measurement update; `elapsed` is the time since the last match. */
  function Update(s: State, z: Vec2, elapsed: real): State
    requires Det(Innovation(s.P)) != 0.0
  {
    var corrected := Correct(s, z);
    Smooth(corrected, Velocity(s, corrected, Elapsed(elapsed)))
  }

  // ---------- the form of the covariance ----------

  /** The matrix [[aI, bI], [bI, cI]]: both axes share one 2 by 2 covariance. */
  function Block(a: real, b: real, c: real): Mat4 {
    Mat4(Vec4(a, 0.0, b, 0.0), Vec4(0.0, a, 0.0, b), Vec4(b, 0.0, c, 0.0), Vec4(0.0, b, 0.0, c))
  }

  /** Position variance, position-velocity covariance and velocity variance of one axis. */
  datatype Axis = Axis(a: real, b: real, c: real) {
    predicate Good() {
      a > 0.0 && b >= 0.0 && a * c - b * b > 0.0
    }

    function Predicted(dt: real): Axis {
      Axis(a + 2.0 * dt * b + dt * dt * c + 0.05, b + dt * c, c + 0.05)
    }

    function Corrected(): Axis
      requires a + 0.2 != 0.0
    {
      Axis(0.2 * a / (a + 0.2), 0.2 * b / (a + 0.2), c - b * b / (a + 0.2))
    }

    function Matrix(): Mat4 {
      Block(a, b, c)
    }
  }

  function AxisOf(P: Mat4): Axis {
    Axis(P.r0.a0, P.r0.a2, P.r2.a2)
  }

  /** The covariance has the block form and is positive definite. */
  predicate Healthy(P: Mat4) {
    AxisOf(P).Good() && P == AxisOf(P).Matrix()
  }

  lemma PredictRefines(s: State, dt: real)
    requires s.P == AxisOf(s.P).Matrix()
    ensures Predict(s, dt).P == AxisOf(s.P).Predicted(dt).Matrix()
  {
  }

  lemma InnovationForm(P: Mat4)
    requires P == AxisOf(P).Matrix()
    ensures Innovation(P) == Scalar2(AxisOf(P).a + 0.2)
    ensures AxisOf(P).a > 0.0 ==> Det(Innovation(P)) > 0.0
  {
    var q := AxisOf(P).a + 0.2;
    if q > 0.2 {
      assert q * q > 0.0;
    }
  }

  /** A gain with one weight g for both positions and one weight h for both velocities. */
  function AxisGain(g: real, h: real): Mat42 {
    Mat42(Vec2(g, 0.0), Vec2(0.0, g), Vec2(h, 0.0), Vec2(0.0, h))
  }

  lemma GainForm(P: Mat4)
    requires P == AxisOf(P).Matrix() && AxisOf(P).a > 0.0
    ensures Det(Innovation(P)) != 0.0
    ensures var g, h := AxisOf(P).a / (AxisOf(P).a + 0.2), AxisOf(P).b / (AxisOf(P).a + 0.2);
            Gain(P) == AxisGain(g, h)
  {
    InnovationForm(P);
    var q := AxisOf(P).a + 0.2;
    assert Det(Innovation(P)) == q * q;
    assert q / (q * q) == 1.0 / q;
    var a, b := AxisOf(P).a, AxisOf(P).b;
    assert a * (1.0 / q) == a / q && b * (1.0 / q) == b / q;
    assert 0.0 / (q * q) == 0.0;
    assert Inverse(Innovation(P)) == Scalar2(1.0 / q);
  }

  lemma ReductionForm(P: Mat4, g: real, h: real)
    requires P == AxisOf(P).Matrix()
    ensures var K, m := AxisGain(g, h), AxisOf(P);
            Reduced(P, K) ==
            Mat4(Vec4((1.0 - g) * m.a, 0.0, (1.0 - g) * m.b, 0.0),
                 Vec4(0.0, (1.0 - g) * m.a, 0.0, (1.0 - g) * m.b),
                 Vec4(m.b - h * m.a, 0.0, m.c - h * m.b, 0.0),
                 Vec4(0.0, m.b - h * m.a, 0.0, m.c - h * m.b))
  {
    var K := AxisGain(g, h);
    assert SubMat4(Scalar4(1.0), Mul42x24(K, H)) ==
           Mat4(Vec4(1.0 - g, 0.0, 0.0, 0.0), Vec4(0.0, 1.0 - g, 0.0, 0.0),
                Vec4(-h, 0.0, 1.0, 0.0), Vec4(0.0, -h, 0.0, 1.0));
  }

  lemma CorrectedEntries(m: Axis)
    requires m.a > 0.0
    ensures var g, h, q := m.a / (m.a + 0.2), m.b / (m.a + 0.2), m.a + 0.2;
            && (1.0 - g) * m.a == 0.2 * m.a / q && (1.0 - g) * m.b == 0.2 * m.b / q
            && m.b - h * m.a == 0.2 * m.b / q && m.c - h * m.b == m.c - m.b * m.b / q
  {
    var q := m.a + 0.2;
    assert 1.0 - m.a / q == 0.2 / q;
  }

  lemma CorrectRefines(P: Mat4)
    requires P == AxisOf(P).Matrix() && AxisOf(P).a > 0.0
    ensures Det(Innovation(P)) != 0.0
    ensures Reduced(P, Gain(P)) == AxisOf(P).Corrected().Matrix()
  {
    var m := AxisOf(P);
    GainForm(P);
    ReductionForm(P, m.a / (m.a + 0.2), m.b / (m.a + 0.2));
    CorrectedEntries(m);
  }

  lemma PredictKeepsGood(m: Axis, dt: real)
    requires m.Good() && dt > 0.0
    ensures m.Predicted(dt).Good()
    ensures m.Predicted(dt).a > m.a
  {
    var Axis(a, b, c) := m;
    assert c > 0.0;
    var dtb, dtc := dt * b, dt * c;
    assert dtb >= 0.0 && dtc > 0.0;
    assert dt * dt * c == dt * dtc > 0.0;
    var m' := m.Predicted(dt);
    calc {
      m'.a * m'.c - m'.b * m'.b;
      (a + 2.0 * dtb + dt * dtc + 0.05) * (c + 0.05) - (b + dtc) * (b + dtc);
      { assert dtb * c == b * dtc; assert dt * dtc * c == dtc * dtc; }
      (a * c - b * b) + 0.05 * (a + 2.0 * dtb + dt * dtc) + 0.05 * c + 0.05 * 0.05;
    }
  }

  lemma CorrectKeepsGood(m: Axis)
    requires m.Good()
    ensures m.Corrected().Good()
    ensures m.Corrected().a < m.a && m.Corrected().a < 0.2
  {
    var Axis(a, b, c) := m;
    var q := a + 0.2;
    var k := 0.2 / q;
    assert 0.0 < k < 1.0;
    var m' := m.Corrected();
    assert m'.a == k * a && m'.b == k * b;
    assert m'.a == 0.2 * (a / q) && a / q < 1.0;
    assert k * q == 0.2;
    var w := b * b / q;
    assert w * q == b * b;
    assert k * (b * b) == 0.2 * w;
    calc {
      m'.a * m'.c - m'.b * m'.b;
      k * a * (c - w) - k * b * (k * b);
      { assert k * b * (k * b) == k * (k * (b * b)); }
      k * (a * c - a * w - k * (b * b));
      { assert a * w + 0.2 * w == w * q; }
      k * (a * c - b * b);
    }
  }

  // ---------- whole runs ----------

  /** What happens to a track: time passes, or a detection is matched to it. */
  datatype Event = Wait(dt: real) | Match(z: Vec2, elapsed: real)

  function Step(s: State, e: Event): (s': State)
    requires Healthy(s.P)
    ensures Healthy(s'.P)
  {
    match e
    case Wait(dt) =>
      PredictRefines(s, Elapsed(dt));
      PredictKeepsGood(AxisOf(s.P), Elapsed(dt));
      Predict(s, Elapsed(dt))
    case Match(z, elapsed) =>
      CorrectRefines(s.P);
      CorrectKeepsGood(AxisOf(s.P));
      Update(s, z, elapsed)
  }

  /** The three-parameter recurrence that a step amounts to on the covariance. */
  function AxisStep(m: Axis, e: Event): Axis
    requires m.Good()
  {
    match e
    case Wait(dt) => m.Predicted(Elapsed(dt))
    case Match(_, _) => m.Corrected()
  }

  lemma StepRefines(s: State, e: Event)
    requires Healthy(s.P)
    ensures AxisOf(Step(s, e).P) == AxisStep(AxisOf(s.P), e)
  {
    match e
    case Wait(dt) => PredictRefines(s, Elapsed(dt));
    case Match(_, _) => CorrectRefines(s.P);
  }

  lemma AxisStepKeepsGood(m: Axis, e: Event)
    requires m.Good()
    ensures AxisStep(m, e).Good()
  {
    match e
    case Wait(dt) => PredictKeepsGood(m, Elapsed(dt));
    case Match(_, _) => CorrectKeepsGood(m);
  }

  function Run(s: State, events: seq<Event>): (s': State)
    requires Healthy(s.P)
    ensures Healthy(s'.P)
    decreases |events|
  {
    if events == [] then s else Run(Step(s, events[0]), events[1..])
  }

  function AxisRun(m: Axis, events: seq<Event>): (m': Axis)
    requires m.Good()
    ensures m'.Good()
    decreases |events|
  {
    if events == [] then m
    else
      AxisStepKeepsGood(m, events[0]);
      AxisRun(AxisStep(m, events[0]), events[1..])
  }

  lemma {:induction false} AxisRunAppend(m: Axis, events: seq<Event>, e: Event)
    requires m.Good()
    ensures AxisRun(m, events + [e]) == AxisStep(AxisRun(m, events), e)
    decreases |events|
  {
    if events == [] {
      assert AxisRun(m, [e]) == AxisStep(m, e) by {
        AxisStepKeepsGood(m, e);
        assert [e][1..] == [];
      }
      assert [] + [e] == [e];
    } else {
      AxisStepKeepsGood(m, events[0]);
      assert (events + [e])[1..] == events[1..] + [e];
      AxisRunAppend(AxisStep(m, events[0]), events[1..], e);
    }
  }

  lemma {:induction false} RunFollowsAxes(s: State, events: seq<Event>)
    requires Healthy(s.P)
    ensures AxisOf(Run(s, events).P) == AxisRun(AxisOf(s.P), events)
    decreases |events|
  {
    if events != [] {
      StepRefines(s, events[0]);
      RunFollowsAxes(Step(s, events[0]), events[1..]);
    }
  }

  /**
   On every run from a first detection, the full 4 by 4 covariance is the block matrix of a
   three-parameter recurrence that depends on the elapsed times only, and it stays positive
   definite; so the innovation matrix is always invertible.
   */
  lemma {:induction false} RunRefinesAxes(z: Vec2, events: seq<Event>)
    ensures Healthy(Initial(z).P)
    ensures Run(Initial(z), events).P == AxisRun(Axis(100.0, 0.0, 100.0), events).Matrix()
    ensures AxisRun(Axis(100.0, 0.0, 100.0), events).Good()
    ensures Det(Innovation(Run(Initial(z), events).P)) > 0.0
  {
    var s := Initial(z);
    assert AxisOf(s.P) == Axis(100.0, 0.0, 100.0);
    RunFollowsAxes(s, events);
    InnovationForm(Run(s, events).P);
  }

  /** Positive definiteness: x' P x > 0 for every x other than the zero vector. */
  function Quadratic(P: Mat4, x: Vec4): real { Dot4(x, Apply4(P, x)) }

  lemma PositiveProduct(x: real, y: real) returns (p: real)
    requires x > 0.0 && y > 0.0
    ensures p == x * y && p > 0.0
  {
    p := x * y;
  }

  lemma PositiveFactor(x: real, y: real, p: real)
    requires x > 0.0 && p == x * y && p > 0.0
    ensures y > 0.0
  {
  }

  lemma ScaledSquare(d: real, t: real) returns (p: real)
    requires d > 0.0 && t != 0.0
    ensures p == d * (t * t) && p > 0.0
  {
    var size := if t < 0.0 then -t else t;
    var once := PositiveProduct(d, size);
    p := PositiveProduct(once, size);
  }

  lemma SquareIsNonnegative(x: real) returns (square: real)
    ensures square == x * x && square >= 0.0
  {
    square := x * x;
  }

  /** The form a s^2 + 2 b s t + c t^2. */
  function Form(m: Axis, s: real, t: real): real {
    m.a * s * s + 2.0 * m.b * s * t + m.c * t * t
  }

  lemma FormIdentity(m: Axis, s: real, t: real)
    ensures m.a * Form(m, s, t) == (m.a * s + m.b * t) * (m.a * s + m.b * t) + (m.a * m.c - m.b * m.b) * (t * t)
  {
  }

  lemma FormIsPositive(m: Axis, s: real, t: real)
    requires m.Good() && (s != 0.0 || t != 0.0)
    ensures Form(m, s, t) > 0.0
  {
    if t == 0.0 {
      var f := ScaledSquare(m.a, s);
      assert Form(m, s, t) == f;
    } else {
      var rest := ScaledSquare(m.a * m.c - m.b * m.b, t);
      var square := SquareIsNonnegative(m.a * s + m.b * t);
      FormIdentity(m, s, t);
      PositiveFactor(m.a, Form(m, s, t), square + rest);
    }
  }

  lemma QuadraticOfBlock(m: Axis, x: Vec4)
    ensures Quadratic(m.Matrix(), x) ==
            Form(m, x.a0, x.a2) + Form(m, x.a1, x.a3)
  {
    assert Apply4(m.Matrix(), x) ==
           Vec4(m.a * x.a0 + m.b * x.a2, m.a * x.a1 + m.b * x.a3, m.b * x.a0 + m.c * x.a2, m.b * x.a1 + m.c * x.a3);
  }

  /** `Healthy` means what it should: the covariance is symmetric and positive definite. */
  lemma HealthyIsPositiveDefinite(P: Mat4, x: Vec4)
    requires Healthy(P)
    ensures Transpose4(P) == P
    ensures x != Vec4(0.0, 0.0, 0.0, 0.0) ==> Quadratic(P, x) > 0.0
  {
    var m := AxisOf(P);
    if x.a0 != 0.0 || x.a2 != 0.0 {
      FormIsPositive(m, x.a0, x.a2);
    }
    if x.a1 != 0.0 || x.a3 != 0.0 {
      FormIsPositive(m, x.a1, x.a3);
    }
    QuadraticOfBlock(m, x);
  }

  lemma CorrectPosition(s: State, z: Vec2, g: real)
    requires Healthy(s.P) && g == AxisOf(s.P).a / (AxisOf(s.P).a + 0.2)
    ensures Det(Innovation(s.P)) != 0.0
    ensures Correct(s, z).x.a0 == s.x.a0 + g * (z.a0 - s.x.a0)
    ensures Correct(s, z).x.a1 == s.x.a1 + g * (z.a1 - s.x.a1)
  {
    GainForm(s.P);
    assert Apply24(H, s.x) == Vec2(s.x.a0, s.x.a1);
  }

  lemma CorrectVelocity(s: State, z: Vec2, h: real)
    requires Healthy(s.P) && h == AxisOf(s.P).b / (AxisOf(s.P).a + 0.2)
    ensures Det(Innovation(s.P)) != 0.0
    ensures Correct(s, z).x.a2 == s.x.a2 + h * (z.a0 - s.x.a0)
    ensures Correct(s, z).x.a3 == s.x.a3 + h * (z.a1 - s.x.a1)
  {
    GainForm(s.P);
    assert Apply24(H, s.x) == Vec2(s.x.a0, s.x.a1);
  }

  lemma MatchPosition(s: State, z: Vec2, elapsed: real, g: real)
    requires Healthy(s.P) && g == AxisOf(s.P).a / (AxisOf(s.P).a + 0.2)
    ensures Step(s, Match(z, elapsed)).x.a0 == s.x.a0 + g * (z.a0 - s.x.a0)
    ensures Step(s, Match(z, elapsed)).x.a1 == s.x.a1 + g * (z.a1 - s.x.a1)
  {
    CorrectPosition(s, z, g);
    SmoothingKeepsPosition(s, z, elapsed);
  }

  lemma SmoothingKeepsPosition(s: State, z: Vec2, elapsed: real)
    requires Healthy(s.P) && Det(Innovation(s.P)) != 0.0
    ensures Step(s, Match(z, elapsed)).x.a0 == Correct(s, z).x.a0
    ensures Step(s, Match(z, elapsed)).x.a1 == Correct(s, z).x.a1
  {
  }

  lemma MatchVariance(s: State, z: Vec2, elapsed: real)
    requires Healthy(s.P)
    ensures AxisOf(Step(s, Match(z, elapsed)).P).a < AxisOf(s.P).a
    ensures AxisOf(Step(s, Match(z, elapsed)).P).a < 0.2
  {
    StepRefines(s, Match(z, elapsed));
    CorrectKeepsGood(AxisOf(s.P));
  }

  lemma ConvexCombination(x: real, z: real, g: real)
    ensures x + g * (z - x) == (1.0 - g) * x + g * z
  {
  }

  /** The weight of a measurement lies strictly between 0 and 1. */
  lemma WeightIsProper(a: real) returns (g: real)
    requires a > 0.0
    ensures g == a / (a + 0.2) && 0.0 < g < 1.0
  {
    g := a / (a + 0.2);
  }

  /**
   A match moves the position to a strict convex combination of the predicted and the measured
   position, with the same weight on both axes, and leaves a position variance below that of
   the prediction and below that of the measurement.
   */
  lemma MatchBlends(s: State, z: Vec2, elapsed: real) returns (g: real)
    requires Healthy(s.P)
    ensures 0.0 < g < 1.0 && g == AxisOf(s.P).a / (AxisOf(s.P).a + 0.2)
    ensures Step(s, Match(z, elapsed)).x.a0 == (1.0 - g) * s.x.a0 + g * z.a0
    ensures Step(s, Match(z, elapsed)).x.a1 == (1.0 - g) * s.x.a1 + g * z.a1
    ensures AxisOf(Step(s, Match(z, elapsed)).P).a < AxisOf(s.P).a
    ensures AxisOf(Step(s, Match(z, elapsed)).P).a < 0.2
  {
    g := WeightIsProper(AxisOf(s.P).a);
    MatchPosition(s, z, elapsed, g);
    ConvexCombination(s.x.a0, z.a0, g);
    ConvexCombination(s.x.a1, z.a1, g);
    MatchVariance(s, z, elapsed);
  }

  /** A prediction moves the position by the velocity times the elapsed time and keeps the velocity. */
  lemma PredictMoves(s: State, dt: real)
    ensures Predict(s, dt).x == Vec4(s.x.a0 + dt * s.x.a2, s.x.a1 + dt * s.x.a3, s.x.a2, s.x.a3)
  {
  }

  /**
   A match blends seven tenths of the corrected velocity with three tenths of the velocity that
   the position correction implies over the elapsed time, on each axis alike.
   */
  lemma MatchVelocity(s: State, z: Vec2, elapsed: real)
    requires Healthy(s.P)
    ensures var g, h := AxisOf(s.P).a / (AxisOf(s.P).a + 0.2), AxisOf(s.P).b / (AxisOf(s.P).a + 0.2);
            var x, dx, dy := Step(s, Match(z, elapsed)).x, z.a0 - s.x.a0, z.a1 - s.x.a1;
            && x.a2 == 0.7 * (s.x.a2 + h * dx) + 0.3 * (g * dx / Elapsed(elapsed))
            && x.a3 == 0.7 * (s.x.a3 + h * dy) + 0.3 * (g * dy / Elapsed(elapsed))
  {
    CorrectPosition(s, z, AxisOf(s.P).a / (AxisOf(s.P).a + 0.2));
    CorrectVelocity(s, z, AxisOf(s.P).b / (AxisOf(s.P).a + 0.2));
  }

  // ---------- the filter axis by axis, without matrices ----------

  /** The time that passed between two clock readings; one that is not positive counts as 10 ms. */
  function TimeSince(now: real, earlier: real): real {
    if now > earlier then now - earlier else 0.01
  }

  /** The prediction over a time dt, entry by entry. */
  function AxisPrediction(s: State, dt: real): State {
    var a, b, c := s.P.r0.a0, s.P.r0.a2, s.P.r2.a2;
    State(Vec4(s.x.a0 + dt * s.x.a2, s.x.a1 + dt * s.x.a3, s.x.a2, s.x.a3),
          Block(a + 2.0 * dt * b + dt * dt * c + 0.05, b + dt * c, c + 0.05))
  }

  /** The velocity that moving by the share g of (dx, dy) in a time e implies. */
  function ImpliedVelocity(g: real, dx: real, dy: real, e: real): Vec2
    requires e != 0.0
  {
    Vec2(g * dx / e, g * dy / e)
  }

  /** The weight of a measured position. */
  function Weight(P: Mat4): real
    requires AxisOf(P).a > 0.0
  {
    AxisOf(P).a / (AxisOf(P).a + 0.2)
  }

  /** The measurement update over a time e since the last match, entry by entry. */
  function AxisUpdate(s: State, z: Vec2, e: real): State
    requires AxisOf(s.P).a > 0.0 && e != 0.0
  {
    var Axis(a, b, c) := AxisOf(s.P);
    var g, h := Weight(s.P), b / (a + 0.2);
    var dx, dy := z.a0 - s.x.a0, z.a1 - s.x.a1;
    State(Vec4(s.x.a0 + g * dx, s.x.a1 + g * dy,
               0.7 * (s.x.a2 + h * dx) + 0.3 * (g * dx / e), 0.7 * (s.x.a3 + h * dy) + 0.3 * (g * dy / e)),
          Block(0.2 * a / (a + 0.2), 0.2 * b / (a + 0.2), c - b * b / (a + 0.2)))
  }

  /** The covariances entry by entry are those of the three-parameter recurrence. */
  lemma AxisWiseCovariance(s: State, dt: real, z: Vec2, e: real)
    requires AxisOf(s.P).a > 0.0 && e != 0.0
    ensures AxisPrediction(s, dt).P == AxisOf(s.P).Predicted(dt).Matrix()
    ensures AxisUpdate(s, z, e).P == AxisOf(s.P).Corrected().Matrix()
  {
  }

  /** The update entry by entry moves the position to a strict convex combination and cuts its variance below 0.2. */
  lemma AxisUpdateBlends(s: State, z: Vec2, e: real)
    requires Healthy(s.P) && e != 0.0
    ensures var g, r := Weight(s.P), AxisUpdate(s, z, e);
            && 0.0 < g < 1.0
            && r.x.a0 == (1.0 - g) * s.x.a0 + g * z.a0 && r.x.a1 == (1.0 - g) * s.x.a1 + g * z.a1
            && Healthy(r.P) && AxisOf(r.P).a < 0.2
  {
    var g := WeightIsProper(AxisOf(s.P).a);
    ConvexCombination(s.x.a0, z.a0, g);
    ConvexCombination(s.x.a1, z.a1, g);
    CorrectKeepsGood(AxisOf(s.P));
  }

  /** On block covariances the matrix prediction is the one entry by entry. */
  lemma PredictIsAxisWise(s: State, dt: real)
    requires Healthy(s.P)
    ensures Predict(s, dt) == AxisPrediction(s, dt)
  {
    PredictRefines(s, dt);
    PredictMoves(s, dt);
  }

  /** Smoothing a state that was corrected entry by entry. */
  lemma SmoothIsAxisWise(s: State, z: Vec2, corrected: State, e: real)
    requires AxisOf(s.P).a > 0.0 && e != 0.0
    requires var g, h := Weight(s.P), AxisOf(s.P).b / (AxisOf(s.P).a + 0.2);
             var dx, dy := z.a0 - s.x.a0, z.a1 - s.x.a1;
             && corrected.x == Vec4(s.x.a0 + g * dx, s.x.a1 + g * dy, s.x.a2 + h * dx, s.x.a3 + h * dy)
             && corrected.P == AxisOf(s.P).Corrected().Matrix()
    ensures Smooth(corrected, Velocity(s, corrected, e)) == AxisUpdate(s, z, e)
    ensures Velocity(s, corrected, e) == ImpliedVelocity(Weight(s.P), z.a0 - s.x.a0, z.a1 - s.x.a1, e)
  {
  }

  /**
   On block covariances the matrix update is the one entry by entry, and so is the implied
   velocity, of which the track keeps the norm.
   */
  lemma UpdateIsAxisWise(s: State, z: Vec2, elapsed: real)
    requires Healthy(s.P)
    ensures Det(Innovation(s.P)) != 0.0
    ensures Update(s, z, elapsed) == AxisUpdate(s, z, Elapsed(elapsed))
    ensures Velocity(s, Correct(s, z), Elapsed(elapsed)) ==
            ImpliedVelocity(Weight(s.P), z.a0 - s.x.a0, z.a1 - s.x.a1, Elapsed(elapsed))
  {
    CorrectPosition(s, z, Weight(s.P));
    CorrectVelocity(s, z, AxisOf(s.P).b / (AxisOf(s.P).a + 0.2));
    CorrectRefines(s.P);
    SmoothIsAxisWise(s, z, Correct(s, z), Elapsed(elapsed));
  }
}
