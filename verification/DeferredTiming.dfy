// When callbacks of the deferred executor run, on a 32-bit clock that wraps.
module DeferredTiming {
  import opened Clock
  import opened DeferredExec

  // ---- Never early ------------------------------------------------------------------------------

  // While an entry's true trigger instant is within half a wrap of the true time, it is due exactly when
  // that instant has been reached.
  lemma DueIffReached(e: Entry, trigger: int, now: int)
    requires e.trigger == trigger % WRAP32 && -0x8000_0000 <= trigger - now < 0x8000_0000
    ensures Due(e, now % WRAP32) <==> e.token != INVALID_TOKEN && trigger <= now
  {
    SignedDiff32IsDistance(trigger, now);
  }

  // The deadline a call sets lies ahead of the clock the pass was started with.
  predicate SetsAhead(op: Op, now: u32) {
    match op
    case Defer(at, delay, _, _) => delay > 0 ==> SignedDiff32((at + delay) % WRAP32, now) > 0
    case Extend(at, _, delay) => delay > 0 ==> SignedDiff32((at + delay) % WRAP32, now) > 0
    case _ => true
  }

  // Which is so whenever the clock has not gone back and the deadline is within half a wrap.
  lemma LaterCallSetsAhead(op: Op, at: int, now: int)
    requires (op.Defer? && op.now == at % WRAP32) || (op.Extend? && op.at == at % WRAP32)
    requires now <= at && at + op.delay - now < 0x8000_0000
    ensures SetsAhead(op, now % WRAP32)
  {
    assert (at % WRAP32 + op.delay) % WRAP32 == (at + op.delay) % WRAP32;
    SignedDiff32IsDistance(at + op.delay, now);
  }

  ghost predicate AllSetAhead(scripts: nat -> Script, now: u32) {
    forall n: nat, i :: 0 <= i < |scripts(n).ops| ==> SetsAhead(scripts(n).ops[i], now)
  }

  // ---- One pass ---------------------------------------------------------------------------------

  // An entry is as it was, or is not due.
  predicate OldOrNotDue(e: Entry, old_: Entry, now: u32) { e == old_ || !Due(e, now) }

  lemma {:induction false} CallsLeaveOldOrNotDue(x: Exec, ops: seq<Op>, now: u32, j: nat, e: Entry)
    requires j < |x.table| && OldOrNotDue(x.table[j], e, now)
    requires forall i :: 0 <= i < |ops| ==> SetsAhead(ops[i], now)
    ensures OldOrNotDue(ApplyAll(x, ops).table[j], e, now)
    decreases |ops|
  {
    if ops != [] {
      CallsLeaveOldOrNotDue(x, ops[..|ops| - 1], now, j, e);
    }
  }

  lemma {:induction false} LaterSlotsOldOrNotDue(x: Exec, n: nat, now: u32, scripts: nat -> Script, j: nat)
    requires n <= j < |x.table| && AllSetAhead(scripts, now)
    ensures OldOrNotDue(RunSlots(x, n, now, scripts).table[j], x.table[j], now)
  {
    if n > 0 {
      var y := RunSlots(x, n - 1, now, scripts);
      LaterSlotsOldOrNotDue(x, n - 1, now, scripts, j);
      CallsLeaveOldOrNotDue(y, scripts(n - 1).ops, now, j, x.table[j]);
    }
  }

  // These invocations ran entries of this table that were due, each slot below n at most once, in order.
  ghost predicate RanInOrder(fired: seq<Fired>, table: seq<Entry>, n: nat, now: u32) {
    && n <= |table|
    && (forall i :: 0 <= i < |fired| ==> RanAsListed(fired[i], table, n, now))
    && (forall i, j :: 0 <= i < j < |fired| ==> fired[i].slot < fired[j].slot)
  }

  predicate RanAsListed(f: Fired, table: seq<Entry>, n: nat, now: u32) {
    f.slot < n <= |table| && f.entry == table[f.slot] && Due(f.entry, now)
  }

  lemma RanOneMore(fired: seq<Fired>, table: seq<Entry>, n: nat, now: u32)
    requires n < |table| && RanInOrder(fired, table, n, now)
    ensures RanInOrder(fired, table, n + 1, now)
    ensures Due(table[n], now) ==> RanInOrder(fired + [Fired(n, table[n])], table, n + 1, now)
  {
    forall i | 0 <= i < |fired| ensures RanAsListed(fired[i], table, n + 1, now) {
      assert RanAsListed(fired[i], table, n, now);
    }
  }

  // What runs in a pass: entries that were in the table, and due, when the pass began, each slot at most
  // once and in order. An entry deferred or extended during the pass does not run in it.
  lemma {:induction false} PassRunsOldEntries(x: Exec, n: nat, now: u32, scripts: nat -> Script)
    requires n <= |x.table| && AllSetAhead(scripts, now)
    ensures RanInOrder(Invocations(x, n, now, scripts), x.table, n, now)
  {
    hide RanInOrder;
    if n > 0 {
      PassRunsOldEntries(x, n - 1, now, scripts);
      LaterSlotsOldOrNotDue(x, n - 1, now, scripts, n - 1);
      var before := Invocations(x, n - 1, now, scripts);
      RanOneMore(before, x.table, n - 1, now);
      assert before + [] == before;
    } else {
      NothingRan(x.table, now);
    }
  }

  lemma NothingRan(table: seq<Entry>, now: u32)
    ensures RanInOrder([], table, 0, now)
  {
  }

  // ---- An entry left alone ------------------------------------------------------------------------

  predicate Spares(op: Op, t: u8) {
    match op
    case Extend(_, token, _) => token != t
    case Cancel(token) => token != t
    case _ => true
  }

  predicate AllSpare(ops: seq<Op>, t: u8) {
    forall i :: 0 <= i < |ops| ==> Spares(ops[i], t)
  }

  lemma {:induction false} SparedByCalls(x: Exec, ops: seq<Op>, i: nat)
    requires i < |x.table| && x.table[i].token != INVALID_TOKEN && AllSpare(ops, x.table[i].token)
    ensures ApplyAll(x, ops).table[i] == x.table[i]
    decreases |ops|
  {
    if ops != [] {
      SparedByCalls(x, ops[..|ops| - 1], i);
    }
  }

  // The callback in slot i spares its own token, as do all others, and returns d.
  ghost predicate Periodic(scripts: nat -> Script, i: nat, t: u8, d: u32) {
    && (forall n: nat :: AllSpare(scripts(n).ops, t))
    && scripts(i).delay == d
  }

  function Later(e: Entry, d: u32): Entry { e.(trigger := (e.trigger + d) % WRAP32) }

  // Triggers with which slot i ran, oldest first.
  function TriggersOf(fired: seq<Fired>, i: nat): seq<u32> {
    if fired == [] then []
    else
      var last := fired[|fired| - 1];
      TriggersOf(fired[..|fired| - 1], i) + if last.slot == i then [last.entry.trigger] else []
  }

  lemma TriggersAppend(fired: seq<Fired>, f: Fired, i: nat)
    ensures TriggersOf(fired + [f], i) == TriggersOf(fired, i) + if f.slot == i then [f.entry.trigger] else []
  {
    assert (fired + [f])[..|fired|] == fired;
  }

  // One turn: the slot's own turn moves its deadline, every other turn leaves it alone.
  lemma TurnOfPeriodic(x: Exec, n: nat, now: u32, script: Script, i: nat, d: u32)
    requires n < |x.table| && i < |x.table| && d > 0
    requires x.table[i].token != INVALID_TOKEN && AllSpare(script.ops, x.table[i].token)
    requires n == i ==> script.delay == d
    ensures RunSlot(x, n, now, script).table[i]
         == if n == i && Due(x.table[i], now) then Later(x.table[i], d) else x.table[i]
  {
    hide ApplyAll;
    SparedByCalls(x, script.ops, i);
  }

  // A callback that returns 0 and is not taken for a new one frees its slot; what else it did stays.
  lemma TurnOfOneShot(x: Exec, i: nat, now: u32, script: Script)
    requires i < |x.table| && Due(x.table[i], now) && script.delay == 0
    requires AllSpare(script.ops, x.table[i].token)
    ensures var x', y := RunSlot(x, i, now, script), ApplyAll(x, script.ops);
      && x'.table[i].token == INVALID_TOKEN && x'.current == y.current
      && forall j :: 0 <= j < |x.table| && j != i ==> x'.table[j] == y.table[j]
  {
    hide ApplyAll;
    SparedByCalls(x, script.ops, i);
  }

  lemma {:induction false} TurnsOfPeriodic(x: Exec, n: nat, now: u32, scripts: nat -> Script, i: nat, d: u32)
    requires n <= |x.table| && i < |x.table| && d > 0
    requires x.table[i].token != INVALID_TOKEN && Periodic(scripts, i, x.table[i].token, d)
    ensures var e := x.table[i];
      var runs := i < n && Due(e, now);
      && RunSlots(x, n, now, scripts).table[i] == (if runs then Later(e, d) else e)
      && TriggersOf(Invocations(x, n, now, scripts), i) == (if runs then [e.trigger] else [])
  {
    hide RunSlot, Due, Later, TriggersOf, AllSpare;
    if n > 0 {
      TurnsOfPeriodic(x, n - 1, now, scripts, i, d);
      var y := RunSlots(x, n - 1, now, scripts);
      LaterKeepsToken(x.table[i], d);
      TurnOfPeriodic(y, n - 1, now, scripts(n - 1), i, d);
      var before := Invocations(x, n - 1, now, scripts);
      TriggersAppend(before, Fired(n - 1, y.table[n - 1]), i);
      assert before + [] == before;
    } else {
      NoTriggers(i);
    }
  }

  lemma NoTriggers(i: nat)
    ensures TriggersOf([], i) == []
  {
  }

  lemma LaterKeepsToken(e: Entry, d: u32)
    ensures Later(e, d).token == e.token
  {
  }

  // ---- Whole histories ----------------------------------------------------------------------------

  function HistoryTriggers(x: Exec, events: seq<Event>, i: nat): seq<u32>
    decreases |events|
  {
    if events == [] then []
    else
      var before := events[..|events| - 1];
      var y := History(x, before);
      HistoryTriggers(x, before, i)
      + match events[|events| - 1]
        case Call(_) => []
        case Pass(now, scripts) => TriggersOf(Invocations(y, |y.table|, now, scripts), i)
  }

  ghost predicate LeavesAlone(e: Event, i: nat, t: u8, d: u32) {
    match e
    case Call(op) => Spares(op, t)
    case Pass(_, scripts) => Periodic(scripts, i, t, d)
  }

  lemma NextTrigger(t0: int, k: nat, d: u32)
    ensures ((t0 + k * d) % WRAP32 + d) % WRAP32 == (t0 + (k + 1) * d) % WRAP32
  {
    assert (k + 1) * d == k * d + d;
    ModAdd(t0 + k * d, d);
  }

  lemma ModAdd(a: int, d: int)
    ensures (a % WRAP32 + d) % WRAP32 == (a + d) % WRAP32
  {
  }

  lemma StepOfPeriodic(y: Exec, e: Event, i: nat, d: u32)
    requires i < |y.table| && d > 0 && y.table[i].token != INVALID_TOKEN
    requires LeavesAlone(e, i, y.table[i].token, d)
    ensures var ran := if e.Call? then [] else TriggersOf(Invocations(y, |y.table|, e.now, e.scripts), i);
      && (ran == [] || ran == [y.table[i].trigger])
      && Step(y, e).table[i] == if ran == [] then y.table[i] else Later(y.table[i], d)
  {
    match e
    case Call(op) =>
      SparedByCalls(y, [op], i);
      assert [op][..0] == [];
    case Pass(now, scripts) =>
      TurnsOfPeriodic(y, |y.table|, now, scripts, i, d);
  }

  // A callback that always returns d, and is never extended or cancelled, runs with triggers t0, t0 + d,
  // t0 + 2d, ... however late each pass is and whatever else happens in the table.
  lemma {:induction false} PeriodicTriggers(x: Exec, events: seq<Event>, i: nat, t0: int, d: u32)
    requires i < |x.table| && d > 0 && x.table[i].token != INVALID_TOKEN && x.table[i].trigger == t0 % WRAP32
    requires forall j :: 0 <= j < |events| ==> LeavesAlone(events[j], i, x.table[i].token, d)
    ensures var triggers := HistoryTriggers(x, events, i);
      && (forall k :: 0 <= k < |triggers| ==> triggers[k] == (t0 + k * d) % WRAP32)
      && History(x, events).table[i] == x.table[i].(trigger := (t0 + |triggers| * d) % WRAP32)
    decreases |events|
  {
    hide Step, TriggersOf, LeavesAlone;
    if events != [] {
      var before, last := events[..|events| - 1], events[|events| - 1];
      PeriodicTriggers(x, before, i, t0, d);
      StepOfPeriodic(History(x, before), last, i, d);
      NextTrigger(t0, |HistoryTriggers(x, before, i)|, d);
    }
  }
}
