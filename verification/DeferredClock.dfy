// The deferred executor in true time: its 32-bit triggers shadowed by instants that never wrap, along
// whole histories of calls and passes.
module DeferredClock {
  import opened Clock
  import opened DeferredExec
  import opened DeferredTiming

  // A call and the true instant at which it reads the clock.
  datatype Timed = Timed(op: Op, at: int)

  predicate OnTime(c: Timed) {
    match c.op
    case Defer(now, _, _, _) => now == c.at % WRAP32
    case Extend(now, _, _) => now == c.at % WRAP32
    case _ => true
  }

  function Ops(calls: seq<Timed>): (ops: seq<Op>)
    ensures |ops| == |calls| && forall i :: 0 <= i < |calls| ==> ops[i] == calls[i].op
  {
    seq(|calls|, i requires 0 <= i < |calls| => calls[i].op)
  }

  datatype TimedScript = TimedScript(calls: seq<Timed>, delay: u32)

  function Untimed(s: TimedScript): Script { Script(Ops(s.calls), s.delay) }

  function UntimedScripts(scripts: nat -> TimedScript): nat -> Script { (n: nat) => Untimed(scripts(n)) }

  datatype TimedEvent = TimedCall(call: Timed) | TimedPass(now: int, scripts: nat -> TimedScript)

  function UntimedEvent(e: TimedEvent): Event {
    match e
    case TimedCall(c) => Call(c.op)
    case TimedPass(now, scripts) => Pass(now % WRAP32, UntimedScripts(scripts))
  }

  ghost predicate EventOnTime(e: TimedEvent) {
    match e
    case TimedCall(c) => OnTime(c)
    case TimedPass(_, scripts) => forall n: nat, i :: 0 <= i < |scripts(n).calls| ==> OnTime(scripts(n).calls[i])
  }

  // One invocation: the slot, its true trigger and the true time of the pass.
  datatype Ran = Ran(slot: nat, trigger: int, at: int)

  // The executor, the true trigger of every slot, and every invocation so far.
  datatype Trace = Trace(x: Exec, due: seq<int>, ran: seq<Ran>)

  type Traced = t: Trace | |t.due| == |t.x.table| witness Trace(Exec(0, []), [], [])

  // ---- Keeping track --------------------------------------------------------------------------------------

  // What a call does to the true triggers.
  function Reset(x: Exec, due: seq<int>, c: Timed): (due': seq<int>)
    requires |due| == |x.table|
    ensures |due'| == |due|
  {
    match c.op
    case Defer(now, delay, callback, arg) =>
      if DeferExec(x, now, delay, callback, arg).1 == INVALID_TOKEN then due
      else due[Find(x.table, INVALID_TOKEN) := c.at + delay]
    case Extend(now, token, delay) =>
      if ExtendExec(x, now, token, delay).1 then due[Find(x.table, token) := c.at + delay] else due
    case _ => due
  }

  function TraceCall(t: Traced, c: Timed): Traced {
    Trace(Apply(t.x, c.op), Reset(t.x, t.due, c), t.ran)
  }

  function TraceCalls(t: Traced, calls: seq<Timed>): Traced
    decreases |calls|
  {
    if calls == [] then t else TraceCall(TraceCalls(t, calls[..|calls| - 1]), calls[|calls| - 1])
  }

  function TraceTurn(t: Traced, i: nat, now: int, script: TimedScript): (t': Traced)
    requires i < |t.due|
    ensures |t'.due| == |t.due|
  {
    var e := t.x.table[i];
    if !Due(e, now % WRAP32) then t
    else
      var u := TraceCalls(t.(ran := t.ran + [Ran(i, t.due[i], now)]), script.calls);
      TraceCallsSize(t.(ran := t.ran + [Ran(i, t.due[i], now)]), script.calls);
      var f := u.x.table[i];
      if f.token != e.token then u
      else if script.delay > 0 then
        u.(x := u.x.(table := u.x.table[i := Later(f, script.delay)]), due := u.due[i := u.due[i] + script.delay])
      else u.(x := u.x.(table := u.x.table[i := EMPTY]))
  }

  lemma {:induction false} TraceCallsSize(t: Traced, calls: seq<Timed>)
    ensures |TraceCalls(t, calls).due| == |t.due|
    decreases |calls|
  {
    if calls != [] {
      TraceCallsSize(t, calls[..|calls| - 1]);
    }
  }

  // The first n turns of a pass.
  function TraceTurns(t: Traced, n: nat, now: int, scripts: nat -> TimedScript): (t': Traced)
    requires n <= |t.due|
    ensures |t'.due| == |t.due|
  {
    if n == 0 then t else TraceTurn(TraceTurns(t, n - 1, now, scripts), n - 1, now, scripts(n - 1))
  }

  function TraceStep(t: Traced, e: TimedEvent): Traced {
    match e
    case TimedCall(c) => TraceCall(t, c)
    case TimedPass(now, scripts) => TraceTurns(t, |t.due|, now, scripts)
  }

  function TraceHistory(t: Traced, events: seq<TimedEvent>): Traced
    decreases |events|
  {
    if events == [] then t else TraceStep(TraceHistory(t, events[..|events| - 1]), events[|events| - 1])
  }

  function UntimedEvents(events: seq<TimedEvent>): (es: seq<Event>)
    ensures |es| == |events| && forall i :: 0 <= i < |es| ==> es[i] == UntimedEvent(events[i])
  {
    seq(|events|, i requires 0 <= i < |events| => UntimedEvent(events[i]))
  }

  // ---- The trace is of the executor itself --------------------------------------------------------------------

  lemma {:induction false} CallsAreCalls(t: Traced, calls: seq<Timed>)
    ensures TraceCalls(t, calls).x == ApplyAll(t.x, Ops(calls))
    decreases |calls|
  {
    if calls != [] {
      hide Apply, Reset;
      var n := |calls| - 1;
      CallsAreCalls(t, calls[..n]);
      assert Ops(calls)[..n] == Ops(calls[..n]);
    }
  }

  lemma TurnIsTurn(t: Traced, i: nat, now: int, script: TimedScript)
    requires i < |t.due|
    ensures TraceTurn(t, i, now, script).x == RunSlot(t.x, i, now % WRAP32, Untimed(script))
  {
    hide TraceCalls, ApplyAll, Due;
    CallsAreCalls(t.(ran := t.ran + [Ran(i, t.due[i], now)]), script.calls);
  }

  lemma {:induction false} TurnsAreTurns(t: Traced, n: nat, now: int, scripts: nat -> TimedScript)
    requires n <= |t.due|
    ensures TraceTurns(t, n, now, scripts).x == RunSlots(t.x, n, now % WRAP32, UntimedScripts(scripts))
  {
    if n > 0 {
      hide TraceTurn, RunSlot, Untimed;
      TurnsAreTurns(t, n - 1, now, scripts);
      TurnIsTurn(TraceTurns(t, n - 1, now, scripts), n - 1, now, scripts(n - 1));
    }
  }

  // Forgetting the true times, a trace is the history of DeferredExec.
  lemma {:induction false} TraceIsHistory(t: Traced, events: seq<TimedEvent>)
    ensures TraceHistory(t, events).x == History(t.x, UntimedEvents(events))
    decreases |events|
  {
    if events != [] {
      hide TraceTurns, RunSlots, Apply, Untimed;
      var n := |events| - 1;
      var before := TraceHistory(t, events[..n]);
      TraceIsHistory(t, events[..n]);
      assert UntimedEvents(events)[..n] == UntimedEvents(events[..n]);
      if events[n].TimedPass? {
        TurnsAreTurns(before, |before.due|, events[n].now, events[n].scripts);
      }
    }
  }

  // ---- Triggers are true triggers modulo the wrap ---------------------------------------------------------------

  ghost predicate Synced(t: Traced) {
    forall i :: 0 <= i < |t.due| && t.x.table[i].token != INVALID_TOKEN ==> t.x.table[i].trigger == t.due[i] % WRAP32
  }

  lemma CallKeepsSynced(t: Traced, c: Timed)
    requires Synced(t) && OnTime(c)
    ensures Synced(TraceCall(t, c))
  {
    match c.op
    case Defer(now, delay, callback, arg) => ModAdd(c.at, delay);
    case Extend(now, token, delay) => ModAdd(c.at, delay);
    case _ =>
  }

  lemma {:induction false} CallsKeepSynced(t: Traced, calls: seq<Timed>)
    requires Synced(t) && forall i :: 0 <= i < |calls| ==> OnTime(calls[i])
    ensures Synced(TraceCalls(t, calls))
    decreases |calls|
  {
    if calls != [] {
      hide Synced, TraceCall, OnTime;
      CallsKeepSynced(t, calls[..|calls| - 1]);
      CallKeepsSynced(TraceCalls(t, calls[..|calls| - 1]), calls[|calls| - 1]);
    }
  }

  lemma RanKeepsSynced(t: Traced, ran: seq<Ran>)
    requires Synced(t)
    ensures Synced(t.(ran := ran))
  {
  }

  lemma TurnKeepsSynced(t: Traced, i: nat, now: int, script: TimedScript)
    requires i < |t.due| && Synced(t) && forall j :: 0 <= j < |script.calls| ==> OnTime(script.calls[j])
    ensures Synced(TraceTurn(t, i, now, script))
  {
    hide TraceCalls, Due, OnTime;
    var t0 := t.(ran := t.ran + [Ran(i, t.due[i], now)]);
    RanKeepsSynced(t, t0.ran);
    CallsKeepSynced(t0, script.calls);
    TraceCallsSize(t0, script.calls);
    ModAdd(TraceCalls(t0, script.calls).due[i], script.delay);
  }

  lemma {:induction false} TurnsKeepSynced(t: Traced, n: nat, now: int, scripts: nat -> TimedScript)
    requires n <= |t.due| && Synced(t) && EventOnTime(TimedPass(now, scripts))
    ensures Synced(TraceTurns(t, n, now, scripts))
  {
    if n > 0 {
      hide Synced, TraceTurn, OnTime;
      TurnsKeepSynced(t, n - 1, now, scripts);
      TurnKeepsSynced(TraceTurns(t, n - 1, now, scripts), n - 1, now, scripts(n - 1));
    }
  }

  // Along every history each live entry's trigger is its true trigger modulo 2^32.
  lemma {:induction false} HistoryKeepsSynced(t: Traced, events: seq<TimedEvent>)
    requires Synced(t) && forall i :: 0 <= i < |events| ==> EventOnTime(events[i])
    ensures Synced(TraceHistory(t, events))
    decreases |events|
  {
    if events != [] {
      hide Synced, TraceCall, TraceTurns, OnTime;
      var n := |events| - 1;
      var before := TraceHistory(t, events[..n]);
      HistoryKeepsSynced(t, events[..n]);
      match events[n]
      case TimedCall(c) => CallKeepsSynced(before, c);
      case TimedPass(now, scripts) => TurnsKeepSynced(before, |before.due|, now, scripts);
    }
  }

  // ---- Never early ------------------------------------------------------------------------------------------

  // The slot's true trigger is within half a wrap of the time of the pass.
  predicate SlotInReach(t: Traced, i: nat, now: int)
    requires i < |t.due|
  {
    t.x.table[i].token != INVALID_TOKEN ==> -0x8000_0000 <= t.due[i] - now < 0x8000_0000
  }

  // So it is whenever a pass comes to a slot.
  ghost predicate InReach(t: Traced, events: seq<TimedEvent>)
    decreases |events|
  {
    events == [] ||
    var n := |events| - 1;
    && InReach(t, events[..n])
    && (events[n].TimedPass? ==> PassInReach(TraceHistory(t, events[..n]), events[n].now, events[n].scripts))
  }

  ghost predicate PassInReach(t: Traced, now: int, scripts: nat -> TimedScript) {
    forall n :: 0 <= n < |t.due| ==> SlotInReach(TraceTurns(t, n, now, scripts), n, now)
  }

  // In reach a turn runs its slot exactly when that is live and its true trigger has been reached.
  lemma TurnRunsIff(t: Traced, i: nat, now: int, script: TimedScript)
    requires i < |t.due| && Synced(t) && SlotInReach(t, i, now)
    ensures TraceTurn(t, i, now, script).ran
         == t.ran + if t.x.table[i].token != INVALID_TOKEN && t.due[i] <= now then [Ran(i, t.due[i], now)] else []
  {
    var e := t.x.table[i];
    if e.token != INVALID_TOKEN {
      DueIffReached(e, t.due[i], now);
    }
    CallsKeepRan(t.(ran := t.ran + [Ran(i, t.due[i], now)]), script.calls);
  }

  lemma {:induction false} CallsKeepRan(t: Traced, calls: seq<Timed>)
    ensures TraceCalls(t, calls).ran == t.ran
    decreases |calls|
  {
    if calls != [] {
      CallsKeepRan(t, calls[..|calls| - 1]);
    }
  }

  predicate NoneEarly(ran: seq<Ran>) {
    forall k :: 0 <= k < |ran| ==> ran[k].trigger <= ran[k].at
  }

  lemma {:induction false} PassNeverEarly(t: Traced, n: nat, now: int, scripts: nat -> TimedScript)
    requires n <= |t.due| && Synced(t) && EventOnTime(TimedPass(now, scripts))
    requires PassInReach(t, now, scripts) && NoneEarly(t.ran)
    ensures NoneEarly(TraceTurns(t, n, now, scripts).ran)
  {
    if n > 0 {
      hide Synced, TraceTurn, OnTime;
      PassNeverEarly(t, n - 1, now, scripts);
      TurnsKeepSynced(t, n - 1, now, scripts);
      TurnRunsIff(TraceTurns(t, n - 1, now, scripts), n - 1, now, scripts(n - 1));
    }
  }

  // No callback runs before its true trigger time, in any history of calls and passes.
  lemma {:induction false} NeverEarly(t: Traced, events: seq<TimedEvent>)
    requires Synced(t) && NoneEarly(t.ran) && InReach(t, events)
    requires forall i :: 0 <= i < |events| ==> EventOnTime(events[i])
    ensures NoneEarly(TraceHistory(t, events).ran)
    decreases |events|
  {
    if events != [] {
      hide Synced, NoneEarly, TraceTurns, OnTime, PassInReach;
      var n := |events| - 1;
      var before := TraceHistory(t, events[..n]);
      NeverEarly(t, events[..n]);
      HistoryKeepsSynced(t, events[..n]);
      if events[n].TimedPass? {
        PassNeverEarly(before, |before.due|, events[n].now, events[n].scripts);
      }
    }
  }

  // ---- Periodic callbacks in true time ------------------------------------------------------------------------

  function RunsOf(ran: seq<Ran>, i: nat): seq<Ran> {
    if ran == [] then []
    else RunsOf(ran[..|ran| - 1], i) + if ran[|ran| - 1].slot == i then [ran[|ran| - 1]] else []
  }

  lemma RunsAppend(ran: seq<Ran>, r: Ran, i: nat)
    ensures RunsOf(ran + [r], i) == RunsOf(ran, i) + if r.slot == i then [r] else []
  {
    assert (ran + [r])[..|ran|] == ran;
  }

  predicate TimedSpare(calls: seq<Timed>, t: u8) {
    forall j :: 0 <= j < |calls| ==> Spares(calls[j].op, t)
  }

  ghost predicate TimedLeavesAlone(e: TimedEvent, i: nat, t: u8, d: u32) {
    match e
    case TimedCall(c) => Spares(c.op, t)
    case TimedPass(_, scripts) => (forall n: nat :: TimedSpare(scripts(n).calls, t)) && scripts(i).delay == d
  }

  // Slot i is live with this token, its true trigger is t0 + k * d, and it has run with the triggers before.
  ghost predicate OnSchedule(t: Traced, i: nat, token: u8, t0: int, d: u32) {
    && i < |t.due| && t.x.table[i].token == token != INVALID_TOKEN
    && t.due[i] == t0 + |RunsOf(t.ran, i)| * d
    && forall k :: 0 <= k < |RunsOf(t.ran, i)| ==> RunsOf(t.ran, i)[k].trigger == t0 + k * d
  }

  lemma CallKeepsSlot(t: Traced, c: Timed, i: nat)
    requires i < |t.due| && t.x.table[i].token != INVALID_TOKEN && Spares(c.op, t.x.table[i].token)
    ensures TraceCall(t, c).x.table[i] == t.x.table[i] && TraceCall(t, c).due[i] == t.due[i]
  {
  }

  lemma {:induction false} CallsKeepSlot(t: Traced, calls: seq<Timed>, i: nat)
    requires i < |t.due| && t.x.table[i].token != INVALID_TOKEN && TimedSpare(calls, t.x.table[i].token)
    ensures |TraceCalls(t, calls).due| == |t.due|
    ensures TraceCalls(t, calls).x.table[i] == t.x.table[i] && TraceCalls(t, calls).due[i] == t.due[i]
    decreases |calls|
  {
    if calls != [] {
      hide TraceCall, Spares;
      var n := |calls| - 1;
      CallsKeepSlot(t, calls[..n], i);
      TraceCallsSize(t, calls);
      CallKeepsSlot(TraceCalls(t, calls[..n]), calls[n], i);
    }
  }

  lemma TurnKeepsSchedule(t: Traced, n: nat, now: int, script: TimedScript, i: nat, token: u8, t0: int, d: u32)
    requires n < |t.due| && OnSchedule(t, i, token, t0, d) && d > 0
    requires TimedSpare(script.calls, token) && (n == i ==> script.delay == d)
    ensures OnSchedule(TraceTurn(t, n, now, script), i, token, t0, d)
  {
    hide TraceCalls, RunsOf, Due, Spares;
    var t1 := t.(ran := t.ran + [Ran(n, t.due[n], now)]);
    CallsKeepSlot(t1, script.calls, i);
    CallsKeepRan(t1, script.calls);
    RunsAppend(t.ran, Ran(n, t.due[n], now), i);
    OneMorePeriod(|RunsOf(t.ran, i)|, d);
  }

  lemma OneMorePeriod(k: nat, d: int)
    ensures (k + 1) * d == k * d + d
  {
  }

  lemma {:induction false} TurnsKeepSchedule(t: Traced, n: nat, now: int, scripts: nat -> TimedScript,
                                              i: nat, token: u8, t0: int, d: u32)
    requires n <= |t.due| && OnSchedule(t, i, token, t0, d) && d > 0
    requires TimedLeavesAlone(TimedPass(now, scripts), i, token, d)
    ensures OnSchedule(TraceTurns(t, n, now, scripts), i, token, t0, d)
  {
    if n > 0 {
      hide OnSchedule, TraceTurn, TimedSpare;
      TurnsKeepSchedule(t, n - 1, now, scripts, i, token, t0, d);
      TurnKeepsSchedule(TraceTurns(t, n - 1, now, scripts), n - 1, now, scripts(n - 1), i, token, t0, d);
    }
  }

  lemma {:induction false} HistoryKeepsSchedule(t: Traced, events: seq<TimedEvent>, i: nat, token: u8, t0: int, d: u32)
    requires OnSchedule(t, i, token, t0, d) && d > 0
    requires forall j :: 0 <= j < |events| ==> TimedLeavesAlone(events[j], i, token, d)
    ensures OnSchedule(TraceHistory(t, events), i, token, t0, d)
    decreases |events|
  {
    if events != [] {
      var n := |events| - 1;
      var before := TraceHistory(t, events[..n]);
      HistoryKeepsSchedule(t, events[..n], i, token, t0, d);
      match events[n]
      case TimedCall(c) => CallKeepsSlot(before, c, i);
      case TimedPass(now, scripts) => TurnsKeepSchedule(before, |before.due|, now, scripts, i, token, t0, d);
    }
  }

  // The k-th run of a callback that always returns d, and is left alone, has true trigger t0 + k * d and
  // happens no earlier than that, however late each pass is.
  lemma PeriodicInstants(t: Traced, events: seq<TimedEvent>, i: nat, t0: int, d: u32)
    requires i < |t.due| && t.x.table[i].token != INVALID_TOKEN && t.due[i] == t0 && t.ran == [] && d > 0
    requires Synced(t) && InReach(t, events)
    requires forall j :: 0 <= j < |events| ==>
      EventOnTime(events[j]) && TimedLeavesAlone(events[j], i, t.x.table[i].token, d)
    ensures var runs := RunsOf(TraceHistory(t, events).ran, i);
      forall k :: 0 <= k < |runs| ==> runs[k].trigger == t0 + k * d <= runs[k].at
  {
    hide TraceHistory, InReach, EventOnTime, TimedLeavesAlone, Synced;
    HistoryKeepsSchedule(t, events, i, t.x.table[i].token, t0, d);
    NeverEarly(t, events);
    RunsAreRan(TraceHistory(t, events).ran, i);
  }

  lemma {:induction false} RunsAreRan(ran: seq<Ran>, i: nat)
    ensures NoneEarly(ran) ==> NoneEarly(RunsOf(ran, i))
  {
    if ran != [] {
      RunsAreRan(ran[..|ran| - 1], i);
    }
  }
}
