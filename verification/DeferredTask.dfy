// The task of the deferred executor in true time: which of its calls make a pass, and that what is due runs.
module DeferredTask {
  import opened Clock
  import opened DeferredExec
  import opened DeferredTiming
  import opened DeferredClock

  const HALF_WRAP := 0x8000_0000

  // Two instants whose order 32 bits still tell.
  predicate Near(n: int, l: int) { -HALF_WRAP <= n - l < HALF_WRAP }

  // With its last pass at instant l, a call of the task at instant n makes a pass exactly when n is later.
  lemma TaskPassesIffLater(x: Exec, l: int, n: int, scripts: nat -> Script)
    requires Near(n, l)
    ensures TaskCall(x, l % WRAP32, n % WRAP32, scripts) ==
      if n > l
      then Tasked(RunSlots(x, |x.table|, n % WRAP32, scripts), n % WRAP32,
                  Invocations(x, |x.table|, n % WRAP32, scripts))
      else Tasked(x, l % WRAP32, [])
  {
    hide RunSlots, Invocations;
    SignedDiff32IsDistance(n, l);
  }

  // ---- Runs of calls and tasks ------------------------------------------------------------------

  // A call from outside, or a call of the task at a true instant.
  datatype Activity = Outside(call: Timed) | TaskAt(now: int, scripts: nat -> TimedScript)

  // The executor, traced in true time, and its 32-bit note of the last pass.
  datatype Working = Working(t: Traced, last: u32)

  // The task, traced: it makes a pass when the two readings of the clock say so.
  function Work(w: Working, a: Activity): Working {
    match a
    case Outside(c) => w.(t := TraceCall(w.t, c))
    case TaskAt(now, scripts) =>
      if Runs(now % WRAP32, w.last) then Working(TraceTurns(w.t, |w.t.due|, now, scripts), now % WRAP32) else w
  }

  function WorkAll(w: Working, acts: seq<Activity>): Working
    decreases |acts|
  {
    if acts == [] then w else Work(WorkAll(w, acts[..|acts| - 1]), acts[|acts| - 1])
  }

  // Forgetting the true times, this is the task of DeferredExec.
  lemma WorkIsTask(w: Working, now: int, scripts: nat -> TimedScript)
    ensures var done := TaskCall(w.t.x, w.last, now % WRAP32, UntimedScripts(scripts));
      var w' := Work(w, TaskAt(now, scripts));
      w'.t.x == done.x && w'.last == done.last
  {
    TurnsAreTurns(w.t, |w.t.due|, now, scripts);
  }

  // The latest instant at which the task was called, or l.
  function Latest(l: int, acts: seq<Activity>): int
    decreases |acts|
  {
    if acts == [] then l
    else
      var before := Latest(l, acts[..|acts| - 1]);
      match acts[|acts| - 1]
      case Outside(_) => before
      case TaskAt(now, _) => if now > before then now else before
  }

  // The same run with a pass in place of each call of the task that comes at a new latest instant, and
  // the other calls of the task left out.
  function Passes(l: int, acts: seq<Activity>): seq<TimedEvent>
    decreases |acts|
  {
    if acts == [] then []
    else
      var before := acts[..|acts| - 1];
      Passes(l, before) +
      match acts[|acts| - 1]
      case Outside(c) => [TimedCall(c)]
      case TaskAt(now, scripts) => if now > Latest(l, before) then [TimedPass(now, scripts)] else []
  }

  // Each call of the task comes within half a wrap of the latest instant before.
  ghost predicate Prompt(l: int, acts: seq<Activity>) {
    forall k :: 0 <= k < |acts| && acts[k].TaskAt? ==> Near(acts[k].now, Latest(l, acts[..k]))
  }

  // So the executor does what its history with these passes does, and the last pass was at the latest instant.
  lemma {:induction false} WorkIsHistory(t: Traced, l: int, acts: seq<Activity>)
    requires Prompt(l, acts)
    ensures WorkAll(Working(t, l % WRAP32), acts)
         == Working(TraceHistory(t, Passes(l, acts)), Latest(l, acts) % WRAP32)
    decreases |acts|
  {
    if acts != [] {
      hide TraceTurns, TraceCall;
      var n := |acts| - 1;
      var before := acts[..n];
      assert Prompt(l, before) by {
        assert forall k :: 0 <= k < n ==> acts[..k] == before[..k];
      }
      WorkIsHistory(t, l, before);
      var events := Passes(l, before);
      match acts[n]
      case Outside(c) =>
        HistoryAppend(t, events, TimedCall(c));
      case TaskAt(now, scripts) =>
        SignedDiff32IsDistance(now, Latest(l, before));
        if now > Latest(l, before) {
          HistoryAppend(t, events, TimedPass(now, scripts));
        } else {
          assert events + [] == events;
        }
    }
  }

  lemma HistoryAppend(t: Traced, events: seq<TimedEvent>, e: TimedEvent)
    ensures TraceHistory(t, events + [e]) == TraceStep(TraceHistory(t, events), e)
  {
    assert (events + [e])[..|events|] == events;
  }

  // ---- One pass a millisecond -------------------------------------------------------------------

  // The instants of the passes, oldest first.
  function Instants(events: seq<TimedEvent>): seq<int> {
    if events == [] then []
    else
      var last := events[|events| - 1];
      Instants(events[..|events| - 1]) + if last.TimedPass? then [last.now] else []
  }

  lemma InstantsAppend(events: seq<TimedEvent>, e: TimedEvent)
    ensures Instants(events + [e]) == Instants(events) + if e.TimedPass? then [e.now] else []
  {
    assert (events + [e])[..|events|] == events;
  }

  predicate Increasing(ns: seq<int>) {
    forall i, j :: 0 <= i < j < |ns| ==> ns[i] < ns[j]
  }

  predicate Within(ns: seq<int>, l: int, latest: int) {
    forall i :: 0 <= i < |ns| ==> l < ns[i] <= latest
  }

  // Passes are made at distinct instants, in order, after l and up to the latest call of the task.
  lemma {:induction false} PassesIncrease(l: int, acts: seq<Activity>)
    ensures l <= Latest(l, acts) && Within(Instants(Passes(l, acts)), l, Latest(l, acts))
    ensures Increasing(Instants(Passes(l, acts)))
    decreases |acts|
  {
    if acts != [] {
      hide Increasing, Within, Instants;
      var n := |acts| - 1;
      var before, events := acts[..n], Passes(l, acts[..n]);
      PassesIncrease(l, before);
      match acts[n]
      case Outside(c) =>
        InstantsAppend(events, TimedCall(c));
        assert Instants(events) + [] == Instants(events);
      case TaskAt(now, scripts) =>
        InstantsAppend(events, TimedPass(now, scripts));
        assert events + [] == events;
        if now > Latest(l, before) {
          IncreasesOn(Instants(events), l, Latest(l, before), now);
        }
    } else {
      NoInstants(l);
    }
  }

  lemma IncreasesOn(ns: seq<int>, l: int, latest: int, now: int)
    requires Increasing(ns) && Within(ns, l, latest) && l <= latest < now
    ensures Increasing(ns + [now]) && Within(ns + [now], l, now)
  {
  }

  lemma NoInstants(l: int)
    ensures Increasing(Instants([])) && Within(Instants([]), l, l)
  {
  }

  // The task was called at instant n.
  predicate CalledAt(acts: seq<Activity>, n: int) {
    exists k :: 0 <= k < |acts| && acts[k].TaskAt? && acts[k].now == n
  }

  // At some call of the task instant n was new: later than l and than every call of the task before.
  predicate NewAt(l: int, acts: seq<Activity>, n: int) {
    exists k :: 0 <= k < |acts| && NewIn(l, acts, k, n)
  }

  predicate NewIn(l: int, acts: seq<Activity>, k: nat, n: int)
    requires k < |acts|
  {
    acts[k].TaskAt? && acts[k].now == n > Latest(l, acts[..k])
  }

  lemma NewLast(l: int, acts: seq<Activity>, n: int)
    requires acts != []
    ensures NewAt(l, acts, n) <==> NewAt(l, acts[..|acts| - 1], n) || NewIn(l, acts, |acts| - 1, n)
  {
    hide Latest;
    var m := |acts| - 1;
    forall k | 0 <= k < m ensures NewIn(l, acts, k, n) <==> NewIn(l, acts[..m], k, n) {
      assert acts[..m][..k] == acts[..k];
    }
    if NewAt(l, acts, n) {
      var k :| 0 <= k < |acts| && NewIn(l, acts, k, n);
    }
  }

  // One pass for each new millisecond met: a pass is made at instant n, and only one (PassesIncrease), exactly
  // when n was new at some call of the task.
  lemma {:induction false} PassAtIff(l: int, acts: seq<Activity>, n: int)
    ensures n in Instants(Passes(l, acts)) <==> NewAt(l, acts, n)
    decreases |acts|
  {
    if acts != [] {
      hide Instants, NewAt;
      var m := |acts| - 1;
      var before, events := acts[..m], Passes(l, acts[..m]);
      PassAtIff(l, before, n);
      NewLast(l, acts, n);
      match acts[m]
      case Outside(c) => InstantsAppend(events, TimedCall(c));
      case TaskAt(now, scripts) =>
        InstantsAppend(events, TimedPass(now, scripts));
        assert events + [] == events;
    } else {
      NothingNew(l, n);
    }
  }

  lemma NothingNew(l: int, n: int)
    ensures n !in Instants(Passes(l, [])) && !NewAt(l, [], n)
  {
  }

  predicate ClockRuns(l: int, acts: seq<Activity>) {
    && (forall k :: 0 <= k < |acts| && acts[k].TaskAt? ==> l <= acts[k].now)
    && (forall j, k :: 0 <= j < k < |acts| && acts[j].TaskAt? && acts[k].TaskAt? ==> acts[j].now <= acts[k].now)
  }

  lemma {:induction false} LatestIs(l: int, acts: seq<Activity>)
    ensures Latest(l, acts) >= l && forall k :: 0 <= k < |acts| && acts[k].TaskAt? ==> acts[k].now <= Latest(l, acts)
    ensures Latest(l, acts) == l || CalledAt(acts, Latest(l, acts))
    decreases |acts|
  {
    if acts != [] {
      var m := |acts| - 1;
      var before := acts[..m];
      LatestIs(l, before);
      if CalledAt(before, Latest(l, before)) {
        var k :| 0 <= k < m && before[k].TaskAt? && before[k].now == Latest(l, before);
        assert acts[k] == before[k];
      }
      forall k | 0 <= k < |acts| && acts[k].TaskAt? ensures acts[k].now <= Latest(l, acts) {
        assert k < m ==> acts[k] == before[k];
      }
    }
  }

  // While the clock does not go back, every millisecond at which the task is called gets its pass.
  lemma {:induction false} EveryMillisecond(l: int, acts: seq<Activity>, n: int)
    requires ClockRuns(l, acts) && n > l
    ensures n in Instants(Passes(l, acts)) <==> CalledAt(acts, n)
    decreases |acts|
  {
    if acts != [] {
      var m := |acts| - 1;
      var before, events := acts[..m], Passes(l, acts[..m]);
      assert ClockRuns(l, before) by {
        assert forall k :: 0 <= k < m ==> acts[k] == before[k];
      }
      EveryMillisecond(l, before, n);
      CalledOnce(acts, n);
      match acts[m]
      case Outside(c) => InstantsAppend(events, TimedCall(c));
      case TaskAt(now, scripts) =>
        InstantsAppend(events, TimedPass(now, scripts));
        assert events + [] == events;
        LatestIs(l, before);
        if now <= Latest(l, before) {
          if CalledAt(before, Latest(l, before)) {
            var k :| 0 <= k < m && before[k].TaskAt? && before[k].now == Latest(l, before);
            assert acts[k] == before[k] && acts[k].now <= acts[m].now;
          }
        }
    }
  }

  lemma CalledOnce(acts: seq<Activity>, n: int)
    requires acts != []
    ensures CalledAt(acts, n) <==>
      CalledAt(acts[..|acts| - 1], n) || (acts[|acts| - 1].TaskAt? && acts[|acts| - 1].now == n)
  {
    var m := |acts| - 1;
    if CalledAt(acts, n) {
      var k :| 0 <= k < |acts| && acts[k].TaskAt? && acts[k].now == n;
      assert k < m ==> acts[..m][k] == acts[k];
    }
    if CalledAt(acts[..m], n) {
      var k :| 0 <= k < m && acts[..m][k].TaskAt? && acts[..m][k].now == n;
      assert acts[k] == acts[..m][k];
    }
  }

  // ---- What is due runs -------------------------------------------------------------------------

  // Entry i, and the turns before its own leave it alone.
  lemma {:induction false} LeftAloneFires(x: Exec, n: nat, now: u32, scripts: nat -> Script, i: nat)
    requires i < n <= |x.table| && Due(x.table[i], now)
    requires forall k: nat :: k < i ==> AllSpare(scripts(k).ops, x.table[i].token)
    ensures Fired(i, x.table[i]) in Invocations(x, n, now, scripts)
  {
    if n - 1 > i {
      LeftAloneFires(x, n - 1, now, scripts, i);
    } else {
      LeftAloneStays(x, i, now, scripts, i);
    }
  }

  lemma {:induction false} LeftAloneStays(x: Exec, n: nat, now: u32, scripts: nat -> Script, i: nat)
    requires n <= i < |x.table| && x.table[i].token != INVALID_TOKEN
    requires forall k: nat :: k < i ==> AllSpare(scripts(k).ops, x.table[i].token)
    ensures RunSlots(x, n, now, scripts).table[i] == x.table[i]
  {
    if n > 0 {
      LeftAloneStays(x, n - 1, now, scripts, i);
      SparedByCalls(RunSlots(x, n - 1, now, scripts), scripts(n - 1).ops, i);
    }
  }

  // A live entry that no callback before it touches runs in the next call of the task at a later instant than
  // the last pass, exactly when its true trigger time has been reached.
  lemma ReachedIsFired(t: Traced, i: nat, l: int, n: int, scripts: nat -> Script)
    requires Synced(t) && i < |t.due| && t.x.table[i].token != INVALID_TOKEN
    requires Near(n, l) && n > l && Near(t.due[i], n)
    requires forall k: nat :: k < i ==> AllSpare(scripts(k).ops, t.x.table[i].token)
    ensures t.due[i] <= n <==>
      Fired(i, t.x.table[i]) in TaskCall(t.x, l % WRAP32, n % WRAP32, scripts).fired
  {
    hide RunSlots, Invocations;
    TaskPassesIffLater(t.x, l, n, scripts);
    DueIffReached(t.x.table[i], t.due[i], n);
    if t.due[i] <= n {
      LeftAloneFires(t.x, |t.x.table|, n % WRAP32, scripts, i);
    } else {
      FiredWereDue(t.x, |t.x.table|, n % WRAP32, scripts);
    }
  }

  lemma {:induction false} FiredWereDue(x: Exec, n: nat, now: u32, scripts: nat -> Script)
    requires n <= |x.table|
    ensures forall f :: f in Invocations(x, n, now, scripts) ==> Due(f.entry, now)
  {
    if n > 0 {
      FiredWereDue(x, n - 1, now, scripts);
    }
  }

  predicate AllOnTime(calls: seq<Timed>) {
    forall i :: 0 <= i < |calls| ==> OnTime(calls[i])
  }

  ghost predicate ActivityOnTime(a: Activity) {
    match a
    case Outside(c) => OnTime(c)
    case TaskAt(_, scripts) => forall n: nat :: AllOnTime(scripts(n).calls)
  }

  lemma {:induction false} PassesOnTime(l: int, acts: seq<Activity>)
    requires forall k :: 0 <= k < |acts| ==> ActivityOnTime(acts[k])
    ensures forall k :: 0 <= k < |Passes(l, acts)| ==> EventOnTime(Passes(l, acts)[k])
    decreases |acts|
  {
    if acts != [] {
      hide OnTime;
      PassesOnTime(l, acts[..|acts| - 1]);
      assert ActivityOnTime(acts[|acts| - 1]);
    }
  }

  // In any run: after it, a call of the task at a new instant runs an entry that no callback before it touches
  // exactly when its true trigger time has been reached.
  lemma OverdueRunsNext(t: Traced, l: int, acts: seq<Activity>, i: nat, n: int, scripts: nat -> Script)
    requires Synced(t) && Prompt(l, acts) && forall k :: 0 <= k < |acts| ==> ActivityOnTime(acts[k])
    requires Near(n, Latest(l, acts)) && n > Latest(l, acts)
    requires var u := WorkAll(Working(t, l % WRAP32), acts).t;
      && i < |u.due| && u.x.table[i].token != INVALID_TOKEN && Near(u.due[i], n)
      && forall k: nat :: k < i ==> AllSpare(scripts(k).ops, u.x.table[i].token)
    ensures var w := WorkAll(Working(t, l % WRAP32), acts);
      w.t.due[i] <= n <==> Fired(i, w.t.x.table[i]) in TaskCall(w.t.x, w.last, n % WRAP32, scripts).fired
  {
    hide TaskCall, Synced, EventOnTime, ActivityOnTime, AllSpare;
    WorkIsHistory(t, l, acts);
    PassesOnTime(l, acts);
    HistoryKeepsSynced(t, Passes(l, acts));
    ReachedIsFired(WorkAll(Working(t, l % WRAP32), acts).t, i, Latest(l, acts), n, scripts);
  }
}
