// When the Bluefruit driver sends: one report command at a time, the next only once the answer to the last has been
// taken, and with answers and packets getting through everything that waits.
module ReportProgress {
  import opened Clock
  import opened AtCommands
  import opened ReportQueue

  // ---- When a step sends ------------------------------------------------------------------------------

  // A call of the task sends exactly when a report waits and no answer is pending, or the pending one is read then.
  // What it sends is the oldest report, which leaves the queue exactly when all of it got through.
  lemma TaskSendsIff(q: Link, consumed: bool, o: Outcome)
    ensures var q' := DoStep(q, Task(consumed, o));
      var sends := q.waiting != [] && (consumed || !q.pending);
      && (sends <==> q'.log != q.log)
      && (sends ==> q'.log == q.log + Tries(q.waiting[0], o.through))
      && q'.waiting == (if sends && Succeeds(q.waiting[0], o.through) then q.waiting[1..] else q.waiting)
      && q'.offered == q.offered
  {
    hide Succeeds, PassesFirst, TryOf;
    if q.waiting != [] {
      var t := Tries(q.waiting[0], o.through);
      assert |q.log + t| > |q.log|;
    }
  }

  // A command of the driver's own takes the pending answer away, so that the next call of the task sends whether or
  // not it reads one.
  lemma QueryTakesAnswer(q: Link, text: seq<u8>, n: nat, consumed: bool, o: Outcome)
    ensures var q' := DoStep(q, Query(text, n));
      && q'.waiting == q.waiting && q'.offered == q.offered && q'.log == q.log + [TryOf(Ask(text), n)]
      && (DoStep(q', Task(consumed, o)).log != q'.log <==> q.waiting != [])
  {
    hide TryOf, DoStep;
    var q' := DoStep(q, Query(text, n));
    assert q' == q.(pending := false, log := q.log + [TryOf(Ask(text), n)]) by {
      QueryIs(q, text, n);
    }
    TaskSendsIff(q', consumed, o);
  }

  lemma QueryIs(q: Link, text: seq<u8>, n: nat)
    ensures DoStep(q, Query(text, n)) == q.(pending := false, log := q.log + [TryOf(Ask(text), n)])
  {
  }

  // A report finds room at once exactly when fewer than 39 wait.
  lemma RoomIff(q: Link, item: Item)
    ensures Offer(q, item, []).0 <==> |q.waiting| < 39
    ensures Offer(q, item, []).0 ==>
      var q' := Offer(q, item, []).1; q'.waiting == q.waiting + [item] && q'.offered == q.offered + [item]
  {
  }

  // ---- Everything is sent -----------------------------------------------------------------------------

  // Calls of the task that read an answer each.
  function Tasks(outcomes: seq<Outcome>): (steps: seq<Step>)
    ensures |steps| == |outcomes| && forall i :: 0 <= i < |outcomes| ==> steps[i] == Task(true, outcomes[i])
  {
    seq(|outcomes|, i requires 0 <= i < |outcomes| => Task(true, outcomes[i]))
  }

  // From q to q' the oldest n reports were completed, in order.
  predicate Completes(q: Link, q': Link, n: nat) {
    && n <= |q.waiting| && q'.waiting == q.waiting[n..] && q'.offered == q.offered
    && Completed(q'.log) == Completed(q.log) + q.waiting[..n]
  }

  lemma CompletesNext(q: Link, b: Link, n: nat, o: Outcome)
    requires Completes(q, b, n) && n < |q.waiting| && Succeeds(q.waiting[n], o.through)
    ensures Completes(q, DoStep(b, Task(true, o)), n + 1)
  {
    hide Succeeds, Completed, Tries, DoStep;
    TaskSendsIff(b, true, o);
    assert b.waiting[0] == q.waiting[n] && b.waiting[1..] == q.waiting[n + 1..];
    CompletedTries(b.log, q.waiting[n], o.through);
    assert q.waiting[..n] + [q.waiting[n]] == q.waiting[..n + 1];
    assert Completed(q.log) + q.waiting[..n] + [q.waiting[n]] == Completed(q.log) + q.waiting[..n + 1];
  }

  lemma CompletesNone(q: Link)
    ensures Completes(q, q, 0)
  {
    hide Completed;
    assert Completed(q.log) + [] == Completed(q.log);
  }

  // After any run, as many calls of the task as reports wait, each reading an answer and getting its packets
  // through, send all of them, in order and each in one attempt.
  lemma {:induction false} TasksDeliver(steps: seq<Step>, outcomes: seq<Outcome>)
    requires var q := Run(steps);
      |outcomes| <= |q.waiting| && forall i :: 0 <= i < |outcomes| ==> Succeeds(q.waiting[i], outcomes[i].through)
    ensures Completes(Run(steps), Run(steps + Tasks(outcomes)), |outcomes|)
    decreases |outcomes|
  {
    hide Run, Succeeds, Completes, DoStep;
    var q := Run(steps);
    if outcomes == [] {
      assert steps + Tasks([]) == steps;
      CompletesNone(q);
    } else {
      var n := |outcomes| - 1;
      TasksDeliver(steps, outcomes[..n]);
      LastStep(steps, outcomes);
      CompletesNext(q, Run(steps + Tasks(outcomes[..n])), n, outcomes[n]);
    }
  }

  lemma LastStep(steps: seq<Step>, outcomes: seq<Outcome>)
    requires outcomes != []
    ensures var n := |outcomes| - 1;
      Run(steps + Tasks(outcomes)) == DoStep(Run(steps + Tasks(outcomes[..n])), Task(true, outcomes[n]))
  {
    hide DoStep;
    var all := steps + Tasks(outcomes);
    assert all[..|all| - 1] == steps + Tasks(outcomes[..|outcomes| - 1]);
  }
}
