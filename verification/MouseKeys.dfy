// The static variables of quantum/mousekey.c and the functions that change them.
module MouseKeys {
  import opened MouseInertia

  class Device {
    const c: Settings
    var frame: nat
    var xDir: int
    var yDir: int
    var xInertia: int
    var yInertia: int
    var reportX: int
    var reportY: int

    ghost function Value(): Mouse
      reads this
    {
      Mouse(frame, Axis(xDir, xInertia, reportX), Axis(yDir, yInertia, reportY))
    }

    constructor (settings: Settings)
      ensures c == settings && Value() == REST
    {
      c := settings;
      frame, xDir, yDir, xInertia, yInertia, reportX, reportY := 0, 0, 0, 0, 0, 0, 0;
    }

    // move_unit; in the first frames it also marks the animation as started.
    method Unit(axis: bool) returns (unit: int)
      modifies this`frame
      ensures unit == MoveUnit(c, old(frame), if axis then yDir else xDir, if axis then yInertia else xInertia)
      ensures frame == if old(frame) < 2 then 1 else old(frame)
    {
      hide Int16, TruncDiv, Shift8;
      var inertia, dir := if axis then yInertia else xInertia, if axis then yDir else xDir;
      if frame < 2 {
        frame := 1;
        unit := Int16(dir * c.moveDelta);
      } else {
        var percent := Int16(TruncDiv(inertia * 256, c.timeToMax));
        percent := Int16(Shift8(percent * percent));
        if inertia < 0 {
          percent := Int16(-percent);
        }
        if inertia > 0 {
          unit := 1;
        } else if inertia < 0 {
          unit := -1;
        } else {
          unit := 0;
        }
        unit := Int16(unit + Shift8(c.maxSpeed * percent));
      }
      if unit > MOVE_MAX {
        unit := MOVE_MAX;
      } else if unit < -MOVE_MAX {
        unit := -MOVE_MAX;
      }
    }

    // calc_inertia: within the limit the velocity stays there; it shrinks strictly, keeping its sign, when the
    // direction is neutral, and otherwise moves on in that direction until it has reached the limit.
    method Inertia(direction: int, v: int) returns (velocity: int)
      ensures velocity == CalcInertia(c, direction, v)
      ensures -1 <= direction <= 1 && Abs(v) <= c.timeToMax ==>
        && Abs(velocity) <= c.timeToMax
        && (direction == 0 && v != 0 ==> Abs(velocity) < Abs(v) && v * velocity >= 0)
        && (direction == 0 && v == 0 ==> velocity == 0)
        && (direction > 0 ==> velocity > v || v == c.timeToMax == velocity)
        && (direction < 0 ==> velocity < v || v == -c.timeToMax == velocity)
    {
      if -1 <= direction <= 1 && Abs(v) <= c.timeToMax {
        InertiaStep(c, direction, v);
      }
      hide TruncDiv;
      velocity := v;
      if direction > -1 && velocity < 0 {
        velocity := TruncDiv((velocity + 1) * (256 - c.friction), 256);
      } else if direction < 1 && velocity > 0 {
        velocity := TruncDiv(velocity * (256 - c.friction), 256);
      }
      if direction > 0 && velocity < c.timeToMax {
        velocity := velocity + 1;
      } else if direction < 0 && velocity > -c.timeToMax {
        velocity := velocity - 1;
      }
    }

    // mousekey_on
    method On(code: Cursor)
      modifies this
      ensures Value() == AfterPress(c, old(Value()), code)
    {
      hide FirstUnit, RepeatUnit;
      if code == Up || code == Down {
        yDir := if code == Down then 1 else -1;
        if frame < 2 {
          reportY := Unit(true);
        }
      } else {
        xDir := if code == Right then 1 else -1;
        if frame < 2 {
          reportX := Unit(false);
        }
      }
    }

    // mousekey_off
    method Off(code: Cursor)
      modifies this`xDir, this`yDir
      ensures Value() == AfterRelease(old(Value()), code)
    {
      if code == Up && yDir < 1 {
        yDir := 0;
      } else if code == Down && yDir > -1 {
        yDir := 0;
      } else if code == Left && xDir < 1 {
        xDir := 0;
      } else if code == Right && xDir > -1 {
        xDir := 0;
      }
    }

    // mousekey_task
    method Task(due: bool) returns (motion: (int, int))
      requires frame <= 2
      modifies this
      ensures (Value(), motion) == Frame(c, old(Value()), due)
    {
      hide FirstUnit, RepeatUnit, CalcInertia;
      var tmpX, tmpY := reportX, reportY;
      reportX, reportY := 0, 0;
      if frame != 0 && due {
        xInertia := Inertia(xDir, xInertia);
        yInertia := Inertia(yDir, yInertia);
        reportX := Unit(false);
        reportY := Unit(true);
        if xDir == 0 && xInertia == 0 {
          tmpX := 0;
        }
        if yDir == 0 && yInertia == 0 {
          tmpY := 0;
        }
        if frame < 2 {
          frame := frame + 1;
        }
      }
      if xDir == 0 && yDir == 0 && xInertia == 0 && yInertia == 0 {
        frame := 0;
        tmpX, tmpY := 0, 0;
      }
      motion := (reportX, reportY);
      reportX, reportY := tmpX, tmpY;
    }
  }
}
