// A callback of the deferred executor that cancels itself and queues anew: when the task recognises it by
// the changed token, and when it takes the new entry for the old one.
module DeferredRequeue {
  import opened Clock
  import opened DeferredExec
  import opened DeferredTokens
  import opened DeferredTiming

  // Free slots below i.
  function FreeBelow(table: seq<Entry>, i: nat): nat
    requires i <= |table|
  {
    if i == 0 then 0 else FreeBelow(table, i - 1) + if table[i - 1].token == INVALID_TOKEN then 1 else 0
  }

  // Usable values at n to d - 1 increments from c.
  function UsableFrom(table: seq<Entry>, c: u8, n: nat, d: nat): nat
    decreases d - n
  {
    if n >= d then 0 else UsableFrom(table, c, n + 1, d) + if Usable(table, Plus(c, n)) then 1 else 0
  }

  // Usable values strictly between the counter and t.
  function UsableBetween(x: Exec, t: u8): nat {
    UsableFrom(x.table, x.current, 1, Distance(x.current, t))
  }

  predicate ValidDefer(op: Op) { op.Defer? && op.delay != 0 && op.callback != 0 }

  predicate ValidDefers(ops: seq<Op>) {
    forall j :: 0 <= j < |ops| ==> ValidDefer(ops[j])
  }

  lemma {:induction false} ApplyFirst(x: Exec, op: Op, ops: seq<Op>)
    ensures ApplyAll(x, [op] + ops) == ApplyAll(Apply(x, op), ops)
    decreases |ops|
  {
    var all := [op] + ops;
    if ops == [] {
      assert all[..0] == [];
    } else {
      assert all[..|all| - 1] == [op] + ops[..|ops| - 1];
      ApplyFirst(x, op, ops[..|ops| - 1]);
    }
  }

  // ---- Counting -------------------------------------------------------------------------------------------

  lemma {:induction false} FreeBelowZero(table: seq<Entry>, i: nat)
    requires i <= |table|
    ensures FreeBelow(table, i) == 0 <==> forall j :: 0 <= j < i ==> table[j].token != INVALID_TOKEN
  {
    if i > 0 {
      FreeBelowZero(table, i - 1);
    }
  }

  // Filling one slot, which is free, leaves one fewer free below every later slot.
  lemma {:induction false} FreeBelowFilled(table: seq<Entry>, s: nat, e: Entry, i: nat)
    requires s < |table| && i <= |table| && table[s].token == INVALID_TOKEN && e.token != INVALID_TOKEN
    ensures FreeBelow(table[s := e], i) == FreeBelow(table, i) - if s < i then 1 else 0
  {
    if i > 0 {
      FreeBelowFilled(table, s, e, i - 1);
    }
  }

  lemma {:induction false} FreeBelowSame(a: seq<Entry>, b: seq<Entry>, i: nat)
    requires i <= |a| == |b| && forall j :: 0 <= j < i ==> a[j].token == b[j].token
    ensures FreeBelow(a, i) == FreeBelow(b, i)
  {
    if i > 0 {
      FreeBelowSame(a, b, i - 1);
    }
  }

  lemma {:induction false} UsableFromZero(table: seq<Entry>, c: u8, n: nat, d: nat)
    ensures UsableFrom(table, c, n, d) == 0 <==> forall j :: n <= j < d ==> !Usable(table, Plus(c, j))
    decreases d - n
  {
    hide Usable, Plus;
    if n < d {
      UsableFromZero(table, c, n + 1, d);
    }
  }

  // The first usable value accounts for one of them.
  lemma {:induction false} SkipToUsable(table: seq<Entry>, c: u8, n: nat, m: nat, d: nat)
    requires n <= m < d && Usable(table, Plus(c, m)) && forall j :: n <= j < m ==> !Usable(table, Plus(c, j))
    ensures UsableFrom(table, c, n, d) == 1 + UsableFrom(table, c, m + 1, d)
    decreases m - n
  {
    hide Usable, Plus;
    if n < m {
      SkipToUsable(table, c, n + 1, m, d);
    }
  }

  // Counting from a counter that has moved on, over a table in which those values are as usable as before.
  lemma {:induction false} UsableShifted(a: seq<Entry>, b: seq<Entry>, c: u8, m: nat, n: nat, d: nat)
    requires m <= d && forall j :: m + n <= j < d ==> Usable(a, Plus(c, j)) == Usable(b, Plus(c, j))
    ensures UsableFrom(b, Plus(c, m), n, d - m) == UsableFrom(a, c, m + n, d)
    decreases d - n
  {
    hide Usable, Plus;
    if m + n < d {
      UsableShifted(a, b, c, m, n + 1, d);
      PlusPlus(c, m, n);
    }
  }

  lemma DistanceLeft(c: u8, t: u8, m: nat)
    requires m < Distance(c, t)
    ensures Distance(Plus(c, m), t) == Distance(c, t) - m
  {
  }

  lemma SameLives(table: seq<Entry>, i: nat, e: Entry, v: u8)
    requires i < |table| && v != table[i].token && v != e.token
    ensures Live(table[i := e], v) == Live(table, v)
  {
    if j :| 0 <= j < |table| && table[j].token == v {
      assert table[i := e][j].token == v;
    }
  }

  // ---- One request --------------------------------------------------------------------------------------

  // With t unused a valid request succeeds: it fills the first free slot with the first usable token, which
  // is at most as far away as t.
  lemma DeferFills(x: Exec, op: Op, t: u8)
    requires ValidDefer(op) && Usable(x.table, t) && Live(x.table, INVALID_TOKEN)
    ensures var s, m := Find(x.table, INVALID_TOKEN), FirstUsable(x.table, x.current, 1);
      && s < |x.table| && m <= Distance(x.current, t)
      && Apply(x, op).current == Plus(x.current, m)
      && Apply(x, op).table
         == x.table[s := Entry(Plus(x.current, m), (op.now + op.delay) % WRAP32, op.callback, op.arg)]
  {
    SomeSlot(x.table);
    WithinDistance(x, t);
    var m := FirstUsable(x.table, x.current, 1);
    assert Plus(x.current, m) != INVALID_TOKEN;
    hide Find, FirstUsable, Plus, Distance, Live;
  }

  lemma SomeSlot(table: seq<Entry>)
    requires Live(table, INVALID_TOKEN)
    ensures Find(table, INVALID_TOKEN) < |table|
  {
    var i :| 0 <= i < |table| && table[i].token == INVALID_TOKEN;
    assert Find(table, INVALID_TOKEN) <= i;
  }

  lemma WithinDistance(x: Exec, t: u8)
    requires Usable(x.table, t)
    ensures FirstUsable(x.table, x.current, 1) <= Distance(x.current, t)
  {
    hide Plus;
    assert Usable(x.table, Plus(x.current, Distance(x.current, t)));
  }

  lemma StaysUsable(table: seq<Entry>, s: nat, e: Entry, t: u8)
    requires s < |table| && table[s].token == INVALID_TOKEN && Usable(table, t) && e.token != t
    ensures Usable(table[s := e], t)
  {
    SameLives(table, s, e, t);
  }

  // One usable value on the way is used up.
  lemma OneFewerBetween(x: Exec, x': Exec, s: nat, e: Entry, m: nat, t: u8)
    requires s < |x.table| && x.table[s].token == INVALID_TOKEN && x'.table == x.table[s := e]
    requires m == FirstUsable(x.table, x.current, 1) < Distance(x.current, t)
    requires e.token == Plus(x.current, m) == x'.current
    ensures UsableBetween(x', t) == UsableBetween(x, t) - 1
  {
    var c, d := x.current, Distance(x.current, t);
    SkipToUsable(x.table, c, 1, m, d);
    forall j | m + 1 <= j < d ensures Usable(x.table, Plus(c, j)) == Usable(x'.table, Plus(c, j)) {
      PlusApart(c, m, j);
      if Plus(c, j) != INVALID_TOKEN {
        SameLives(x.table, s, e, Plus(c, j));
      }
    }
    UsableShifted(x.table, x'.table, c, m, 1, d);
    DistanceLeft(c, t, m);
  }

  // Requests leave a live entry alone, and its token to it.
  lemma TakenElsewhere(x: Exec, ops: seq<Op>, s: nat, i: nat)
    requires ValidDefers(ops) && Distinct(x.table) && s < |x.table| && i < |x.table| && s != i
    requires x.table[s].token != INVALID_TOKEN
    ensures ApplyAll(x, ops).table[i].token != x.table[s].token
    ensures ApplyAll(x, ops).table[s] == x.table[s]
  {
    SparedByCalls(x, ops, s);
    ApplyAllKeepsDistinct(x, ops);
  }

  // ---- Any number of requests -----------------------------------------------------------------------------

  // Slot i is free and t is unused: after these requests slot i carries t exactly when as many values are
  // usable before t as slots are free below i, and there are more requests than those slots.
  lemma {:induction false} FilledWithIff(x: Exec, i: nat, t: u8, ops: seq<Op>)
    requires i < |x.table| && x.table[i].token == INVALID_TOKEN && Distinct(x.table)
    requires Usable(x.table, t) && ValidDefers(ops)
    ensures ApplyAll(x, ops).table[i].token == t
       <==> FreeBelow(x.table, i) == UsableBetween(x, t) && |ops| > FreeBelow(x.table, i)
    decreases |ops|
  {
    if ops != [] {
      var op, rest := ops[0], ops[1..];
      var s, m := Find(x.table, INVALID_TOKEN), FirstUsable(x.table, x.current, 1);
      assert ops == [op] + rest;
      ApplyFirst(x, op, rest);
      DeferFills(x, op, t);
      if s == i {
        FilledAtOnce(x, i, t, op, rest);
      } else if m == Distance(x.current, t) {
        TakenBelow(x, i, t, op, rest);
      } else {
        hide Usable, FirstUsable, Distance, Plus, UsableBetween, FreeBelow, Distinct, Find;
        var x' := Apply(x, op);
        ApplyKeepsDistinct(x, op);
        StaysUsable(x.table, s, x'.table[s], t);
        FilledWithIff(x', i, t, rest);
        FreeBelowFilled(x.table, s, x'.table[s], i);
        OneFewerBetween(x, x', s, x'.table[s], m, t);
      }
    }
  }

  lemma NoneBetween(x: Exec, t: u8)
    requires Usable(x.table, t)
    ensures UsableBetween(x, t) == 0 <==> FirstUsable(x.table, x.current, 1) == Distance(x.current, t)
    ensures FirstUsable(x.table, x.current, 1) <= Distance(x.current, t)
  {
    var d, m := Distance(x.current, t), FirstUsable(x.table, x.current, 1);
    UsableFromZero(x.table, x.current, 1, d);
    assert Usable(x.table, Plus(x.current, d));
  }

  // The first request fills slot i.
  lemma FilledAtOnce(x: Exec, i: nat, t: u8, op: Op, rest: seq<Op>)
    requires i < |x.table| && Find(x.table, INVALID_TOKEN) == i && Distinct(x.table)
    requires Usable(x.table, t) && ValidDefers([op] + rest)
    ensures FreeBelow(x.table, i) == 0
    ensures ApplyAll(Apply(x, op), rest).table[i].token == t <==> UsableBetween(x, t) == 0
  {
    var m := FirstUsable(x.table, x.current, 1);
    OpsSplit(op, rest);
    IsLive(x.table, i);
    DeferFills(x, op, t);
    FreeBelowZero(x.table, i);
    NoneBetween(x, t);
    assert Plus(x.current, m) != INVALID_TOKEN;
    hide Usable, Live, UsableBetween, FreeBelow, FirstUsable, Find, Plus;
    SparedByCalls(Apply(x, op), rest, i);
  }

  lemma IsLive(table: seq<Entry>, i: nat)
    requires i < |table|
    ensures Live(table, table[i].token)
  {
  }

  lemma OpsSplit(op: Op, rest: seq<Op>)
    requires ValidDefers([op] + rest)
    ensures ValidDefer(op) && ValidDefers(rest)
  {
    assert ([op] + rest)[0] == op;
    assert forall j :: 0 <= j < |rest| ==> ([op] + rest)[j + 1] == rest[j];
  }

  // The first request takes t to a slot below i.
  lemma TakenBelow(x: Exec, i: nat, t: u8, op: Op, rest: seq<Op>)
    requires i < |x.table| && x.table[i].token == INVALID_TOKEN && Distinct(x.table)
    requires Find(x.table, INVALID_TOKEN) < i && FirstUsable(x.table, x.current, 1) == Distance(x.current, t)
    requires Usable(x.table, t) && ValidDefers([op] + rest)
    ensures FreeBelow(x.table, i) > 0 && UsableBetween(x, t) == 0
    ensures ApplyAll(Apply(x, op), rest).table[i].token != t
  {
    var s := Find(x.table, INVALID_TOKEN);
    OpsSplit(op, rest);
    DeferFills(x, op, t);
    FreeBelowZero(x.table, i);
    NoneBetween(x, t);
    ApplyKeepsDistinct(x, op);
    TakenElsewhere(Apply(x, op), rest, s, i);
  }

  // ---- The callback -----------------------------------------------------------------------------------------

  // Emptying the slot of t changes neither count.
  lemma CountsBeforeCancel(x: Exec, i: nat)
    requires i < |x.table| && Distinct(x.table) && x.table[i].token != INVALID_TOKEN
    ensures var t, free := x.table[i].token, Exec(x.current, x.table[i := EMPTY]);
      && Apply(x, Cancel(t)) == free && Usable(free.table, t) && Distinct(free.table)
      && FreeBelow(free.table, i) == FreeBelow(x.table, i)
      && UsableBetween(free, t) == UsableBetween(x, t)
  {
    CancelFrees(x, i);
    FreeBelowSame(x.table[i := EMPTY], x.table, i);
    BetweenUnchanged(x, i);
  }

  lemma CancelFrees(x: Exec, i: nat)
    requires i < |x.table| && Distinct(x.table) && x.table[i].token != INVALID_TOKEN
    ensures var t, free := x.table[i].token, Exec(x.current, x.table[i := EMPTY]);
      Apply(x, Cancel(t)) == free && Usable(free.table, t) && Distinct(free.table)
  {
    assert Find(x.table, x.table[i].token) == i;
  }

  lemma BetweenUnchanged(x: Exec, i: nat)
    requires i < |x.table| && x.table[i].token != INVALID_TOKEN
    ensures UsableBetween(Exec(x.current, x.table[i := EMPTY]), x.table[i].token) == UsableBetween(x, x.table[i].token)
  {
    var t, free := x.table[i].token, x.table[i := EMPTY];
    var c, d := x.current, Distance(x.current, t);
    forall j | 1 <= j < d ensures Usable(x.table, Plus(c, j)) == Usable(free, Plus(c, j)) {
      if Plus(c, j) != INVALID_TOKEN {
        SameLives(x.table, i, EMPTY, Plus(c, j));
      }
    }
    assert Plus(c, 0) == c;
    UsableShifted(x.table, free, c, 0, 1, d);
  }

  // A callback that cancels itself and then makes valid requests is missed, so that the task goes on with
  // the new entry in its slot as if it were the old one, exactly when as many values are usable between the
  // counter and its token as slots are free below its own, and it makes more requests than those slots.
  lemma RequeueMissedIff(x: Exec, i: nat, now: u32, ops: seq<Op>, delay: u32)
    requires i < |x.table| && Distinct(x.table) && Due(x.table[i], now) && ValidDefers(ops)
    ensures var t := x.table[i].token;
      var calls := [Cancel(t)] + ops;
      var y := ApplyAll(x, calls);
      && (RunSlot(x, i, now, Script(calls, delay)) != y
          <==> FreeBelow(x.table, i) == UsableBetween(x, t) && |ops| > FreeBelow(x.table, i))
      && (y.table[i].token == t <==> RunSlot(x, i, now, Script(calls, delay)) != y)
      && (y.table[i].token == t && delay == 0 ==>
            RunSlot(x, i, now, Script(calls, delay)).table == y.table[i := EMPTY])
  {
    hide FreeBelow, UsableBetween, Distinct, RunSlot, Usable, Due, ValidDefers;
    var t := x.table[i].token;
    assert t != INVALID_TOKEN by { DueIsLive(x.table[i], now); }
    ApplyFirst(x, Cancel(t), ops);
    CountsBeforeCancel(x, i);
    FilledWithIff(Apply(x, Cancel(t)), i, t, ops);
    GoesOnIff(x, i, now, Script([Cancel(t)] + ops, delay));
  }

  lemma DueIsLive(e: Entry, now: u32)
    requires Due(e, now)
    ensures e.token != INVALID_TOKEN
  {
  }

  // The task goes on with the slot exactly when its token is the old one.
  lemma GoesOnIff(x: Exec, i: nat, now: u32, script: Script)
    requires i < |x.table| && Due(x.table[i], now)
    ensures var y := ApplyAll(x, script.ops);
      && (RunSlot(x, i, now, script) != y <==> y.table[i].token == x.table[i].token)
      && (y.table[i].token == x.table[i].token && script.delay == 0 ==>
            RunSlot(x, i, now, script).table == y.table[i := EMPTY])
  {
    hide ApplyAll;
    LaterDiffers(ApplyAll(x, script.ops), i, script.delay);
  }

  // Going on with a live entry always changes it.
  lemma LaterDiffers(y: Exec, i: nat, delay: u32)
    requires i < |y.table|
    ensures y.table[i].token != INVALID_TOKEN ==> y.table[i := EMPTY] != y.table
    ensures delay > 0 ==> y.table[i := Later(y.table[i], delay)] != y.table
  {
    var later := y.table[i := Later(y.table[i], delay)];
    assert later[i] == Later(y.table[i], delay) && y.table[i := EMPTY][i] == EMPTY;
    assert delay > 0 ==> later[i].trigger != y.table[i].trigger;
  }

  // One request is missed exactly when no slot below is free and no value on the way is usable.
  lemma SingleRequeueMissedIff(x: Exec, i: nat, now: u32, op: Op, delay: u32)
    requires i < |x.table| && Distinct(x.table) && Due(x.table[i], now) && ValidDefer(op)
    ensures var t := x.table[i].token;
      RunSlot(x, i, now, Script([Cancel(t), op], delay)) != ApplyAll(x, [Cancel(t), op])
      <==> && (forall j :: 0 <= j < i ==> x.table[j].token != INVALID_TOKEN)
           && forall n :: 1 <= n < Distance(x.current, t) ==> !Usable(x.table, Plus(x.current, n))
  {
    var t := x.table[i].token;
    assert [Cancel(t)] + [op] == [Cancel(t), op];
    RequeueMissedIff(x, i, now, [op], delay);
    FreeBelowZero(x.table, i);
    UsableFromZero(x.table, x.current, 1, Distance(x.current, t));
  }

  // ---- A request that is lost -----------------------------------------------------------------------

  const FIRST := Entry(1, 100, 1, 0)

  // One long-lived entry, then m entries that are queued and cancelled one after the other.
  function Churn(m: nat): seq<Event> {
    if m == 0 then [Call(Defer(0, 100, 1, 0))]
    else Churn(m - 1) + [Call(Defer(0, 100, 2, 0)), Call(Cancel((m + 1) % 256))]
  }

  lemma TwoSteps(x: Exec, events: seq<Event>, a: Event, b: Event)
    ensures History(x, events + [a, b]) == Step(Step(History(x, events), a), b)
  {
    assert (events + [a, b])[..|events| + 1] == events + [a];
    assert (events + [a])[..|events|] == events;
  }

  lemma Queued(m: nat)
    requires 1 <= m <= 254
    ensures Apply(Exec(m, [FIRST, EMPTY]), Defer(0, 100, 2, 0)) == Exec(m + 1, [FIRST, Entry(m + 1, 100, 2, 0)])
  {
    var t := [FIRST, EMPTY];
    assert t[0].token == 1 && t[1].token == INVALID_TOKEN;
    assert Find(t, INVALID_TOKEN) == 1 by {
      assert Find(t, INVALID_TOKEN) <= 1;
    }
    assert Usable(t, Plus(m, 1));
    SearchOn(t, m, 1);
  }

  lemma Cancelled(m: nat)
    requires 1 <= m <= 254
    ensures Apply(Exec(m + 1, [FIRST, Entry(m + 1, 100, 2, 0)]), Cancel(m + 1)) == Exec(m + 1, [FIRST, EMPTY])
  {
    var t := [FIRST, Entry(m + 1, 100, 2, 0)];
    assert t[0].token == 1 && t[1].token == m + 1;
    assert Find(t, m + 1) == 1 by {
      assert Find(t, m + 1) <= 1;
    }
  }

  lemma FirstQueued()
    ensures Apply(Initial(2), Defer(0, 100, 1, 0)) == Exec(1, [FIRST, EMPTY])
  {
    var x := Initial(2);
    assert x.table == [EMPTY, EMPTY];
    assert Usable(x.table, Plus(0, 1));
    SearchOn(x.table, 0, 1);
  }

  lemma {:induction false} AfterChurn(m: nat)
    requires m <= 254
    ensures History(Initial(2), Churn(m)) == Exec(m + 1, [FIRST, EMPTY])
  {
    hide Apply, Initial;
    if m == 0 {
      FirstQueued();
      assert Churn(0)[..0] == [];
    } else {
      hide History;
      AfterChurn(m - 1);
      Queued(m);
      Cancelled(m);
      TwoSteps(Initial(2), Churn(m - 1), Call(Defer(0, 100, 2, 0)), Call(Cancel((m + 1) % 256)));
    }
  }

  // After 254 short-lived entries the first callback cancels itself and queues anew. It is given back
  // its own token, the task takes the new entry for the old one, and erases it.
  lemma RequestIsLost()
    ensures var x := History(Initial(2), Churn(254));
      var op := Defer(100, 50, 3, 7);
      && Due(x.table[0], 100) && x.table[0].token == 1
      && ApplyAll(x, [Cancel(1), op]).table[0].callback == 3
      && RunSlot(x, 0, 100, Script([Cancel(1), op], 0)).table == [EMPTY, EMPTY]
  {
    hide History, FirstUsable;
    var x, op := Exec(255, [FIRST, EMPTY]), Defer(100, 50, 3, 7);
    AfterChurn(254);
    assert x.table[0] == FIRST && x.table[1] == EMPTY;
    assert Distance(255, 1) == 2 && Plus(255, 1) == INVALID_TOKEN;
    SingleRequeueMissedIff(x, 0, 100, op, 0);
    CancelThenRequest(x, op);
  }

  lemma CancelThenRequest(x: Exec, op: Op)
    requires x == Exec(255, [FIRST, EMPTY]) && op == Defer(100, 50, 3, 7)
    ensures ApplyAll(x, [Cancel(1), op]) == Exec(1, [Entry(1, 150, 3, 7), EMPTY])
  {
    var free := [EMPTY, EMPTY];
    assert x.table[0] == FIRST && x.table[1] == EMPTY;
    assert Find(x.table, 1) == 0 && x.table[0 := EMPTY] == free;
    assert [Cancel(1)] + [op] == [Cancel(1), op];
    ApplyFirst(x, Cancel(1), [op]);
    assert [op][..0] == [];
    assert free[0] == EMPTY && free[1] == EMPTY;
    assert Plus(255, 1) == INVALID_TOKEN && Plus(255, 2) == 1 && Usable(free, 1);
    SearchOn(free, 255, 1);
    SearchOn(free, 255, 2);
    assert free[0 := Entry(1, 150, 3, 7)] == [Entry(1, 150, 3, 7), EMPTY];
  }
}
