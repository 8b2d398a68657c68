// Which way the mouse goes: the direction each axis has after any run of presses and releases, and the motion
// a held key brings about.
module MouseMotion {
  import opened MouseInertia

  // Left and right are keys of the horizontal axis.
  predicate Horizontal(key: Cursor) { key.Left? || key.Right? }

  // Right and down count up, left and up count down.
  function Heading(key: Cursor): int { if key.Right? || key.Down? then 1 else -1 }

  function AxisOf(m: Mouse, key: Cursor): Axis { if Horizontal(key) then m.x else m.y }

  function MotionOf(motion: (int, int), key: Cursor): int { if Horizontal(key) then motion.0 else motion.1 }

  // ---- Directions -----------------------------------------------------------------------------------

  predicate PressesAxis(s: Step, key: Cursor) {
    s.Press? && Horizontal(s.key) == Horizontal(key)
  }

  // The key was pressed, and since then neither released nor followed by a press on its axis.
  predicate InCharge(steps: seq<Step>, key: Cursor) {
    exists k :: 0 <= k < |steps| && TakesCharge(steps, k, key)
  }

  predicate TakesCharge(steps: seq<Step>, k: nat, key: Cursor)
    requires k < |steps|
  {
    steps[k] == Press(key) && forall j :: k < j < |steps| ==> !PressesAxis(steps[j], key) && steps[j] != Release(key)
  }

  lemma InChargeNext(steps: seq<Step>, key: Cursor)
    requires steps != []
    ensures var n := |steps| - 1;
      InCharge(steps, key) <==>
        steps[n] == Press(key)
        || (InCharge(steps[..n], key) && !PressesAxis(steps[n], key) && steps[n] != Release(key))
  {
    var n := |steps| - 1;
    var before := steps[..n];
    if InCharge(before, key) && !PressesAxis(steps[n], key) && steps[n] != Release(key) {
      var k :| 0 <= k < n && TakesCharge(before, k, key);
      assert TakesCharge(steps, k, key);
    }
    if InCharge(steps, key) && steps[n] != Press(key) {
      var k :| 0 <= k < |steps| && TakesCharge(steps, k, key);
      assert TakesCharge(before, k, key);
    }
    if steps[n] == Press(key) {
      assert TakesCharge(steps, n, key);
    }
  }

  lemma DirectionNext(c: Settings, m: Mouse, s: Step, key: Cursor)
    requires Ok(c, m)
    ensures AxisOf(DoStep(c, m, s), key).dir == Heading(key) <==>
      s == Press(key) || (AxisOf(m, key).dir == Heading(key) && !PressesAxis(s, key) && s != Release(key))
  {
    hide CalcInertia, MoveUnit, FirstUnit;
  }

  // In every run an axis has the direction of a key exactly when that key is in charge: a release of the key
  // pressed last leaves the axis neutral even if the opposite key is still down.
  lemma {:induction false} DirectionIff(c: Settings, steps: seq<Step>, key: Cursor)
    ensures AxisOf(Run(c, REST, steps), key).dir == Heading(key) <==> InCharge(steps, key)
  {
    if steps == [] {
    } else {
      hide DoStep, InCharge, AxisOf, Heading, PressesAxis;
      var n := |steps| - 1;
      DirectionIff(c, steps[..n], key);
      RunIsBounded(c, steps[..n]);
      DirectionNext(c, Run(c, REST, steps[..n]), steps[n], key);
      InChargeNext(steps, key);
    }
  }

  // Left is still held here, and the axis is neutral.
  lemma HeldKeyLosesCharge(c: Settings)
    ensures Run(c, REST, [Press(Left), Press(Right), Release(Right)]).x.dir == 0
    ensures Run(c, REST, [Press(Left), Press(Right), Release(Left)]).x.dir == 1
  {
    var both := [Press(Left), Press(Right)];
    OneStep(c, REST, Press(Left));
    RunConcat(c, REST, [Press(Left)], [Press(Right)]);
    OneStep(c, Run(c, REST, [Press(Left)]), Press(Right));
    assert both == [Press(Left)] + [Press(Right)];
    RunConcat(c, REST, both, [Release(Right)]);
    RunConcat(c, REST, both, [Release(Left)]);
    OneStep(c, Run(c, REST, both), Release(Right));
    OneStep(c, Run(c, REST, both), Release(Left));
    assert [Press(Left), Press(Right), Release(Right)] == both + [Release(Right)];
    assert [Press(Left), Press(Right), Release(Left)] == both + [Release(Left)];
  }

  // ---- A press ----------------------------------------------------------------------------------------

  function Least(a: int, b: int): int { if a < b then a else b }

  lemma FirstUnitIs(c: Settings, dir: int)
    requires -1 <= dir <= 1
    ensures FirstUnit(c, dir) == dir * Least(c.moveDelta, MOVE_MAX)
  {
  }

  // A press turns its own axis and starts the animation; before the movement repeats it also sets that axis's
  // share of the report to one first step. The other axis and both velocities stay as they are.
  lemma PressTurns(c: Settings, m: Mouse, key: Cursor)
    ensures var m' := AfterPress(c, m, key);
      var a, a' := AxisOf(m, key), AxisOf(m', key);
      && a'.dir == Heading(key) && a'.v == a.v
      && a'.report == (if m.frame < 2 then Heading(key) * Least(c.moveDelta, MOVE_MAX) else a.report)
      && (if Horizontal(key) then m'.y == m.y else m'.x == m.x)
      && m'.frame == if m.frame < 2 then 1 else m.frame
  {
    FirstUnitIs(c, 1);
    FirstUnitIs(c, -1);
    hide FirstUnit;
  }

  // ---- A key held -------------------------------------------------------------------------------------

  // The axis moves in direction h, at least n frames' worth faster than at velocity v.
  predicate Gains(c: Settings, a: Axis, h: int, v: int, n: nat) {
    a.dir == h && h * a.v >= Least(c.timeToMax, h * v + n)
  }

  lemma GainsMore(c: Settings, h: int, v: int, w: int, n: nat)
    requires (h == 1 || h == -1) && Abs(w) <= c.timeToMax && h * w >= Least(c.timeToMax, h * v + n)
    ensures h * CalcInertia(c, h, w) >= Least(c.timeToMax, h * v + n + 1)
  {
    hide CalcInertia;
    InertiaStep(c, h, w);
  }

  lemma {:induction false} HeldGains(c: Settings, m: Mouse, key: Cursor, dues: seq<bool>)
    requires Ok(c, m) && m.frame > 0 && AxisOf(m, key).dir == Heading(key)
    ensures var m' := Run(c, m, Tasks(dues));
      && Ok(c, m') && m'.frame > 0 && (DueCount(dues) > 0 ==> m'.frame == 2)
      && Gains(c, AxisOf(m', key), Heading(key), AxisOf(m, key).v, DueCount(dues))
  {
    if dues == [] {
      assert Tasks(dues) == [];
    } else {
      hide CalcInertia, MoveUnit, FirstUnit, Run, Tasks;
      var n := |dues| - 1;
      HeldGains(c, m, key, dues[..n]);
      var before := Run(c, m, Tasks(dues[..n]));
      LastTask(c, m, dues);
      StepKeepsOk(c, before, Task(dues[n]));
      GainsMore(c, Heading(key), AxisOf(m, key).v, AxisOf(before, key).v, DueCount(dues[..n]));
    }
  }

  lemma {:induction false} RunConcat(c: Settings, m: Mouse, a: seq<Step>, b: seq<Step>)
    ensures Run(c, m, a + b) == Run(c, Run(c, m, a), b)
  {
    if b == [] {
      assert a + b == a;
    } else {
      hide DoStep;
      var n := |b| - 1;
      RunConcat(c, m, a, b[..n]);
      assert (a + b)[..|a| + n] == a + b[..n];
    }
  }

  // Whatever came before, a key held for more frames than full speed takes moves the mouse its way: the velocity
  // has the key's sign, and so has the motion of the next frame. From rest one frame is enough.
  lemma HeldKeyMoves(c: Settings, steps: seq<Step>, key: Cursor, dues: seq<bool>)
    requires var m := Run(c, REST, steps);
      DueCount(dues) > if Heading(key) * AxisOf(m, key).v < 0 then c.timeToMax else 0
    ensures var held := Run(c, REST, steps + [Press(key)] + Tasks(dues));
      var (next, motion) := Frame(c, held, true);
      && Sign(AxisOf(held, key).v) == Heading(key)
      && Sign(MotionOf(motion, key)) == Heading(key)
  {
    hide Run, Tasks, MoveUnit, CalcInertia, Frame;
    var m := Run(c, REST, steps);
    var pressed := AfterPress(c, m, key);
    RunIsBounded(c, steps);
    RunIsBounded(c, steps + [Press(key)]);
    OneStep(c, m, Press(key));
    RunConcat(c, REST, steps, [Press(key)]);
    PressTurns(c, m, key);
    HeldGains(c, pressed, key, dues);
    RunConcat(c, REST, steps + [Press(key)], Tasks(dues));
    var held := Run(c, REST, steps + [Press(key)] + Tasks(dues));
    MovesOn(c, steps + [Press(key)] + Tasks(dues), key);
  }

  lemma OneStep(c: Settings, m: Mouse, s: Step)
    ensures Run(c, m, [s]) == DoStep(c, m, s)
  {
    assert [s][..0] == [];
    assert Run(c, m, []) == m;
  }

  // An axis that moves in its direction goes on so in the next frame.
  lemma MovesOn(c: Settings, steps: seq<Step>, key: Cursor)
    requires var m := Run(c, REST, steps);
      m.frame == 2 && AxisOf(m, key).dir == Heading(key) && Sign(AxisOf(m, key).v) == Heading(key)
    ensures var m := Run(c, REST, steps);
      Sign(MotionOf(Frame(c, m, true).1, key)) == Heading(key)
  {
    hide Run, CalcInertia, MoveUnit;
    var m := Run(c, REST, steps);
    RunIsBounded(c, steps);
    MotionFollowsVelocity(c, steps, true);
    InertiaStep(c, m.x.dir, m.x.v);
    InertiaStep(c, m.y.dir, m.y.v);
  }

  // After a frame an axis at rest reports nothing; one that moves keeps what it was to report.
  lemma RestReportsNothing(c: Settings, m: Mouse, key: Cursor)
    requires Ok(c, m) && m.frame > 0
    ensures var a, a' := AxisOf(m, key), AxisOf(Frame(c, m, true).0, key);
      a'.report == if a'.dir == 0 && a'.v == 0 then 0 else a.report
  {
    hide CalcInertia, MoveUnit;
  }

  // ---- Speeds -----------------------------------------------------------------------------------------

  // At full velocity the motion is the speed set, and one more, within range.
  lemma FullSpeed(c: Settings)
    ensures RepeatUnit(c, c.timeToMax) == Least(c.maxSpeed + 1, MOVE_MAX)
    ensures RepeatUnit(c, -c.timeToMax) == -Least(c.maxSpeed + 1, MOVE_MAX)
  {
    assert Percent(c, c.timeToMax) == 256 by {
      assert c.timeToMax * 256 / c.timeToMax == 256 by {
        Whole(256, c.timeToMax);
      }
    }
    assert Percent(c, -c.timeToMax) == -256 by {
      assert -(-c.timeToMax * 256) == c.timeToMax * 256;
      Whole(256, c.timeToMax);
    }
  }

  lemma Whole(a: nat, b: nat)
    requires b > 0
    ensures b * a / b == a
  {
    var q := b * a / b;
    Product(b * a, b, q);
    if q < a {
      AtLeast(a, q + 1, b);
    } else if q > a {
      AtLeast(q, a + 1, b);
    }
  }

  lemma Product(y: nat, b: nat, q: nat)
    requires b > 0 && q == y / b
    ensures q * b <= y < (q + 1) * b
  {
    assert y == b * q + y % b;
    assert (q + 1) * b == q * b + b && b * q == q * b;
  }

  // A coasting axis keeps the share of its velocity that friction leaves, rounded toward zero; moving left or up
  // it first loses one.
  lemma CoastsBy(c: Settings, v: int)
    requires Abs(v) <= c.timeToMax
    ensures var w := CalcInertia(c, 0, v);
      && (v > 0 ==> 256 * w <= v * (256 - c.friction) < 256 * (w + 1))
      && (v < 0 ==> 256 * -w <= (-v - 1) * (256 - c.friction) < 256 * (-w + 1))
  {
    var left := 256 - c.friction;
    if v > 0 {
      Kept(v, left);
    } else if v < 0 {
      Kept(-v - 1, left);
      Negated(v + 1, left);
    }
  }

  lemma Kept(x: nat, left: nat)
    ensures x * left >= 0 && TruncDiv(x * left, 256) == x * left / 256
    ensures var w := TruncDiv(x * left, 256); 256 * w <= x * left < 256 * (w + 1)
  {
    var y := x * left;
    assert y >= 0;
    Product(y, 256, y / 256);
  }

  lemma Negated(x: int, left: nat)
    requires x <= 0
    ensures TruncDiv(x * left, 256) == -TruncDiv(-x * left, 256)
  {
    assert x * left == -(-x * left);
    assert -x * left >= 0;
  }
}
