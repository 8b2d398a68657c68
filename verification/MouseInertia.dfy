// Mouse keys with inertia (quantum/mousekey.c with MOUSEKEY_INERTIA): velocities of the two axes, the
// units reported for them, and runs of key presses, releases and frames.
module MouseInertia {
  const MOVE_MAX := 127

  // Friction and time to full speed in the ranges their 8-bit use needs, speed and first step.
  datatype Config = Config(friction: int, timeToMax: int, maxSpeed: int, moveDelta: int)

  type Settings = c: Config
    | 1 <= c.friction <= 255 && 1 <= c.timeToMax <= 127 && 0 <= c.maxSpeed <= 255 && 1 <= c.moveDelta <= 0x7FFF
    witness Config(24, 32, 32, 1)

  // C division by a positive number, truncating toward zero.
  function TruncDiv(a: int, b: int): int
    requires b > 0
  {
    if a >= 0 then a / b else -(-a / b)
  }

  // a >> 8, rounding down
  function Shift8(a: int): int { a / 256 }

  // Conversion to int16_t
  function Int16(a: int): (r: int)
    ensures -0x8000 <= r < 0x8000
    ensures -0x8000 <= a < 0x8000 ==> r == a
  {
    (a + 0x8000) % 0x1_0000 - 0x8000
  }

  // calc_inertia, first half
  function Decelerated(c: Settings, dir: int, v: int): int {
    if dir > -1 && v < 0 then TruncDiv((v + 1) * (256 - c.friction), 256)
    else if dir < 1 && v > 0 then TruncDiv(v * (256 - c.friction), 256)
    else v
  }

  function CalcInertia(c: Settings, dir: int, v: int): int {
    var w := Decelerated(c, dir, v);
    if dir > 0 && w < c.timeToMax then w + 1
    else if dir < 0 && w > -c.timeToMax then w - 1
    else w
  }

  // The share of full speed, squared, in 1/256.
  function Percent(c: Settings, v: int): int {
    var p := Int16(TruncDiv(v * 256, c.timeToMax));
    var q := Int16(Shift8(p * p));
    if v < 0 then Int16(-q) else q
  }

  function Sign(v: int): int { if v > 0 then 1 else if v < 0 then -1 else 0 }

  function Clamp(unit: int): (u: int)
    ensures -MOVE_MAX <= u <= MOVE_MAX
  {
    if unit > MOVE_MAX then MOVE_MAX else if unit < -MOVE_MAX then -MOVE_MAX else unit
  }

  // move_unit in the repeating phase
  function RepeatUnit(c: Settings, v: int): int {
    Clamp(Int16(Sign(v) + Shift8(c.maxSpeed * Percent(c, v))))
  }

  // move_unit in the first frames
  function FirstUnit(c: Settings, dir: int): int {
    Clamp(Int16(dir * c.moveDelta))
  }

  function MoveUnit(c: Settings, frame: nat, dir: int, v: int): int {
    if frame < 2 then FirstUnit(c, dir) else RepeatUnit(c, v)
  }

  // ---- One axis -------------------------------------------------------------------------------------------

  function Abs(v: int): nat { if v < 0 then -v else v }

  // x * (256 - f) / 256 is between 0 and x, and less than x when that is not zero.
  lemma Slowed(x: nat, f: nat)
    requires 1 <= f <= 255
    ensures 0 <= x * (256 - f) / 256 <= x
    ensures x > 0 ==> x * (256 - f) / 256 < x
  {
    var y := x * (256 - f);
    assert 0 <= y;
    assert x > 0 ==> y < x * 256;
    DivBelow(y, x);
  }

  lemma DivBelow(y: nat, x: nat)
    requires y <= x * 256
    ensures y / 256 <= x && (y < x * 256 ==> y / 256 < x)
  {
  }

  lemma InertiaStep(c: Settings, dir: int, v: int)
    requires -1 <= dir <= 1 && Abs(v) <= c.timeToMax
    ensures Abs(CalcInertia(c, dir, v)) <= c.timeToMax
    ensures dir == 0 && v != 0 ==> Abs(CalcInertia(c, dir, v)) < Abs(v) && v * CalcInertia(c, dir, v) >= 0
    ensures dir == 0 && v == 0 ==> CalcInertia(c, dir, v) == 0
    ensures dir > 0 ==> CalcInertia(c, dir, v) > v || v == c.timeToMax == CalcInertia(c, dir, v)
    ensures dir < 0 ==> CalcInertia(c, dir, v) < v || v == -c.timeToMax == CalcInertia(c, dir, v)
  {
    if v > 0 {
      Slowed(v, c.friction);
    } else if v < 0 {
      Slowed(-(v + 1), c.friction);
      assert -((v + 1) * (256 - c.friction)) == -(v + 1) * (256 - c.friction);
      assert (v + 1) * (256 - c.friction) <= 0;
    }
  }

  // From rest, a direction held for n frames gives velocity n, up to the limit.
  function Held(c: Settings, dir: int, n: nat): int {
    if n == 0 then 0 else CalcInertia(c, dir, Held(c, dir, n - 1))
  }

  lemma {:induction false} HeldGrows(c: Settings, dir: int, n: nat)
    requires dir == 1 || dir == -1
    ensures Held(c, dir, n) == dir * (if n < c.timeToMax then n else c.timeToMax)
  {
    if n > 0 {
      HeldGrows(c, dir, n - 1);
    }
  }

  lemma PercentBounds(c: Settings, v: int)
    requires Abs(v) <= c.timeToMax
    ensures 0 <= v ==> 0 <= Percent(c, v) <= 256
    ensures v <= 0 ==> -256 <= Percent(c, v) <= 0
    ensures Percent(c, -v) == -Percent(c, v)
  {
    ShareBounds(c, Abs(v));
    var p: int := Abs(v) * 256 / c.timeToMax;
    assert v * 256 == (if v < 0 then -(Abs(v) * 256) else Abs(v) * 256);
    SquareBounds(p);
  }

  lemma ShareBounds(c: Settings, v: nat)
    requires v <= c.timeToMax
    ensures 0 <= v * 256 / c.timeToMax <= 256
  {
    var m: nat := c.timeToMax;
    var q := v * 256 / m;
    QuotientBelow(v * 256, m, 256);
  }

  lemma QuotientBelow(a: nat, m: nat, k: nat)
    requires m > 0 && a <= k * m
    ensures 0 <= a / m <= k
  {
    var q := a / m;
    assert q * m <= a && (k + 1) * m == k * m + m;
    if q > k {
      AtLeast(q, k + 1, m);
    }
  }

  lemma AtLeast(q: nat, k: nat, m: nat)
    requires q >= k
    ensures q * m >= k * m
  {
  }

  lemma SquareBounds(p: int)
    requires 0 <= p <= 256
    ensures 0 <= p * p <= 65536 && (-p) * (-p) == p * p
    ensures 0 <= Shift8(p * p) <= 256
  {
    AtLeast(256, p, p);
    assert (-p) * (-p) == p * p;
  }

  // The reported unit has the sign of the velocity and is zero only at rest; to the left and up it is
  // at most one faster than to the right and down.
  lemma UnitFollowsVelocity(c: Settings, v: int)
    requires Abs(v) <= c.timeToMax
    ensures Sign(RepeatUnit(c, v)) == Sign(v) && Abs(RepeatUnit(c, v)) <= MOVE_MAX
    ensures v >= 0 ==> 0 <= -RepeatUnit(c, -v) - RepeatUnit(c, v) <= 1
  {
    hide Percent;
    PercentBounds(c, v);
    PercentBounds(c, -v);
    var p := Percent(c, v);
    SpeedBounds(c.maxSpeed, Abs(p));
    assert c.maxSpeed * -p == -(c.maxSpeed * p);
  }

  lemma SpeedBounds(s: int, p: nat)
    requires 0 <= s <= 255 && p <= 256
    ensures 0 <= s * p <= 65280
  {
    AtLeast(255, s, p);
  }

  // ---- Runs -----------------------------------------------------------------------------------------------

  datatype Axis = Axis(dir: int, v: int, report: int)

  // frame: 0 at rest, 1 before the first frame, 2 repeating
  datatype Mouse = Mouse(frame: nat, x: Axis, y: Axis)

  datatype Cursor = Up | Down | Left | Right

  datatype Step = Press(key: Cursor) | Release(key: Cursor) | Task(due: bool)

  const REST := Mouse(0, Axis(0, 0, 0), Axis(0, 0, 0))

  function Pressed(c: Settings, m: Mouse, a: Axis, dir: int): Axis {
    if m.frame < 2 then Axis(dir, a.v, FirstUnit(c, dir)) else a.(dir := dir)
  }

  function AfterPress(c: Settings, m: Mouse, key: Cursor): Mouse {
    var frame := if m.frame < 2 then 1 else m.frame;
    match key
    case Up => Mouse(frame, m.x, Pressed(c, m, m.y, -1))
    case Down => Mouse(frame, m.x, Pressed(c, m, m.y, 1))
    case Left => Mouse(frame, Pressed(c, m, m.x, -1), m.y)
    case Right => Mouse(frame, Pressed(c, m, m.x, 1), m.y)
  }

  // A release ends the movement unless the opposite direction has been pressed since.
  function AfterRelease(m: Mouse, key: Cursor): Mouse {
    match key
    case Up => if m.y.dir < 1 then m.(y := m.y.(dir := 0)) else m
    case Down => if m.y.dir > -1 then m.(y := m.y.(dir := 0)) else m
    case Left => if m.x.dir < 1 then m.(x := m.x.(dir := 0)) else m
    case Right => if m.x.dir > -1 then m.(x := m.x.(dir := 0)) else m
  }

  predicate Idle(a: Axis) { a.dir == 0 && a.v == 0 }

  function FrameAxis(c: Settings, a: Axis): Axis {
    var v := CalcInertia(c, a.dir, a.v);
    Axis(a.dir, v, if a.dir == 0 && v == 0 then 0 else a.report)
  }

  // mousekey_task, and the motion it reports; `due` says that the next frame's time has come.
  function Frame(c: Settings, m: Mouse, due: bool): (Mouse, (int, int)) {
    var animate := m.frame != 0 && due;
    var n := if animate then Mouse(2, FrameAxis(c, m.x), FrameAxis(c, m.y)) else m;
    var motion :=
      if animate then (MoveUnit(c, m.frame, n.x.dir, n.x.v), MoveUnit(c, m.frame, n.y.dir, n.y.v)) else (0, 0);
    (if Idle(n.x) && Idle(n.y) then REST else n, motion)
  }

  function DoStep(c: Settings, m: Mouse, s: Step): Mouse {
    match s
    case Press(key) => AfterPress(c, m, key)
    case Release(key) => AfterRelease(m, key)
    case Task(due) => Frame(c, m, due).0
  }

  function Run(c: Settings, m: Mouse, steps: seq<Step>): Mouse {
    if steps == [] then m else DoStep(c, Run(c, m, steps[..|steps| - 1]), steps[|steps| - 1])
  }

  predicate AxisOk(c: Settings, a: Axis) {
    -1 <= a.dir <= 1 && Abs(a.v) <= c.timeToMax && Abs(a.report) <= MOVE_MAX
  }

  predicate Ok(c: Settings, m: Mouse) {
    && m.frame <= 2 && AxisOk(c, m.x) && AxisOk(c, m.y)
    && (m.frame < 2 ==> m.x.v == 0 && m.y.v == 0)
    && (m.frame == 0 ==> m == REST)
  }

  lemma StepKeepsOk(c: Settings, m: Mouse, s: Step)
    requires Ok(c, m) && m.frame > 0
    ensures Ok(c, DoStep(c, m, s))
  {
    hide CalcInertia, MoveUnit, FirstUnit;
    InertiaStep(c, m.x.dir, m.x.v);
    InertiaStep(c, m.y.dir, m.y.v);
    FirstBounds(c, -1);
    FirstBounds(c, 1);
  }

  lemma RestKeepsOk(c: Settings, s: Step)
    ensures Ok(c, DoStep(c, REST, s))
  {
    hide CalcInertia, MoveUnit, FirstUnit;
    FirstBounds(c, -1);
    FirstBounds(c, 1);
  }

  // Over every run both velocities stay within the limit, at rest and before the first frame they are
  // zero, and the state at rest is the initial one.
  lemma {:induction false} RunIsBounded(c: Settings, steps: seq<Step>)
    ensures Ok(c, Run(c, REST, steps))
  {
    if steps != [] {
      hide DoStep;
      var m := Run(c, REST, steps[..|steps| - 1]);
      RunIsBounded(c, steps[..|steps| - 1]);
      if m.frame == 0 {
        RestKeepsOk(c, steps[|steps| - 1]);
      } else {
        StepKeepsOk(c, m, steps[|steps| - 1]);
      }
    }
  }

  // In every run the motion a frame reports is within range; once it repeats, it has the sign of each velocity.
  lemma MotionFollowsVelocity(c: Settings, steps: seq<Step>, due: bool)
    ensures var m := Run(c, REST, steps); var (m', motion) := Frame(c, m, due);
      && Abs(motion.0) <= MOVE_MAX && Abs(motion.1) <= MOVE_MAX
      && (due && m.frame == 2 ==> Sign(motion.0) == Sign(m'.x.v) && Sign(motion.1) == Sign(m'.y.v))
      && (due && m.frame == 1 ==> motion == (FirstUnit(c, m.x.dir), FirstUnit(c, m.y.dir)))
  {
    hide CalcInertia, RepeatUnit, FirstUnit;
    RunIsBounded(c, steps);
    var m := Run(c, REST, steps);
    InertiaStep(c, m.x.dir, m.x.v);
    InertiaStep(c, m.y.dir, m.y.v);
    UnitFollowsVelocity(c, CalcInertia(c, m.x.dir, m.x.v));
    UnitFollowsVelocity(c, CalcInertia(c, m.y.dir, m.y.v));
    FirstBounds(c, m.x.dir);
    FirstBounds(c, m.y.dir);
  }

  lemma FirstBounds(c: Settings, dir: int)
    ensures Abs(FirstUnit(c, dir)) <= MOVE_MAX
  {
  }

  // ---- Coasting to rest -------------------------------------------------------------------------------------

  function Tasks(dues: seq<bool>): (steps: seq<Step>)
    ensures |steps| == |dues| && forall i :: 0 <= i < |dues| ==> steps[i] == Task(dues[i])
  {
    seq(|dues|, i requires 0 <= i < |dues| => Task(dues[i]))
  }

  function DueCount(dues: seq<bool>): nat {
    if dues == [] then 0 else DueCount(dues[..|dues| - 1]) + if dues[|dues| - 1] then 1 else 0
  }

  ghost predicate Coasting(c: Settings, m: Mouse, budget: int) {
    Ok(c, m) && m.x.dir == 0 && m.y.dir == 0 && (m == REST || (Abs(m.x.v) <= budget && Abs(m.y.v) <= budget))
  }

  // With both directions neutral a frame shrinks each velocity that is not zero and keeps its sign.
  lemma CoastingStep(c: Settings, m: Mouse, budget: int, due: bool)
    requires Coasting(c, m, budget)
    ensures Coasting(c, Frame(c, m, due).0, if due then budget - 1 else budget)
    ensures var m' := Frame(c, m, due).0;
      due ==> && (m.x.v != 0 ==> Abs(m'.x.v) < Abs(m.x.v) && m.x.v * m'.x.v >= 0)
              && (m.y.v != 0 ==> Abs(m'.y.v) < Abs(m.y.v) && m.y.v * m'.y.v >= 0)
  {
    hide CalcInertia, MoveUnit, FirstUnit;
    InertiaStep(c, 0, m.x.v);
    InertiaStep(c, 0, m.y.v);
  }

  lemma {:induction false} CoastingRun(c: Settings, m: Mouse, budget: int, dues: seq<bool>)
    requires Coasting(c, m, budget)
    ensures Coasting(c, Run(c, m, Tasks(dues)), budget - DueCount(dues))
  {
    if dues == [] {
      assert Tasks(dues) == [];
    } else {
      hide Coasting, Frame, Run, Tasks;
      var n := |dues| - 1;
      CoastingRun(c, m, budget, dues[..n]);
      LastTask(c, m, dues);
      CoastingStep(c, Run(c, m, Tasks(dues[..n])), budget - DueCount(dues[..n]), dues[n]);
    }
  }

  lemma LastTask(c: Settings, m: Mouse, dues: seq<bool>)
    requires dues != []
    ensures var n := |dues| - 1;
      Run(c, m, Tasks(dues)) == Frame(c, Run(c, m, Tasks(dues[..n])), dues[n]).0
  {
    hide Frame;
    assert Tasks(dues)[..|dues| - 1] == Tasks(dues[..|dues| - 1]);
  }

  // Once both directions are neutral the animation is back at rest within timeToMax frames, whatever run
  // came before and however many calls find no frame due.
  lemma ComesToRest(c: Settings, steps: seq<Step>, dues: seq<bool>)
    requires Run(c, REST, steps).x.dir == 0 && Run(c, REST, steps).y.dir == 0
    requires DueCount(dues) >= c.timeToMax
    ensures Run(c, Run(c, REST, steps), Tasks(dues)) == REST
  {
    assert dues != [];
    hide Run, Tasks, DueCount;
    var m := Run(c, REST, steps);
    RunIsBounded(c, steps);
    CoastingRun(c, m, c.timeToMax, dues);
    RestOrMoving(c, m, dues, c.timeToMax);
  }

  // After a frame with nothing moving the state is the rest state, not merely still.
  lemma {:induction false} RestOrMoving(c: Settings, m: Mouse, dues: seq<bool>, budget: int)
    requires Coasting(c, m, budget) && dues != []
    ensures var m' := Run(c, m, Tasks(dues)); m' == REST || m'.x.v != 0 || m'.y.v != 0
  {
    hide CalcInertia, MoveUnit, FirstUnit, Run, Tasks, DueCount;
    var n := |dues| - 1;
    CoastingRun(c, m, budget, dues[..n]);
    LastTask(c, m, dues);
  }
}
