// How often the commands of a report get through, and when a new report is accepted at all.
module ReportDelivery {
  import opened Clock
  import opened Sdep
  import opened AtCommands
  import opened ReportQueue

  // ---- Each command once --------------------------------------------------------------------------------------

  // The commands of reports that got through, in order.
  function Delivered(log: seq<Try>): seq<Command>
    requires AreTries(log)
  {
    if log == [] then []
    else
      var t := log[|log| - 1];
      Delivered(log[..|log| - 1]) + if Whole(t) && t.command.Report? then [t.command] else []
  }

  function CommandsOf(item: Item): seq<Command> {
    if item.MouseMove? then [Report(item, 0), Report(item, 1)] else [Report(item, 0)]
  }

  function AllCommands(items: seq<Item>): seq<Command> {
    if items == [] then [] else AllCommands(items[..|items| - 1]) + CommandsOf(items[|items| - 1])
  }

  // A mouse report whose motion got through and whose buttons did not.
  predicate IsHalf(t: Try) { IsTry(t) && t.command.Report? && t.command.part == 1 && !Whole(t) }

  function Halves(log: seq<Try>): nat {
    if log == [] then 0 else Halves(log[..|log| - 1]) + if IsHalf(log[|log| - 1]) then 1 else 0
  }

  // How often this command got through, and how often it did not.
  function Successes(log: seq<Try>, c: Command): nat {
    if log == [] then 0
    else
      var t := log[|log| - 1];
      Successes(log[..|log| - 1], c) + if t.command == c && IsTry(t) && Whole(t) then 1 else 0
  }

  function Failures(log: seq<Try>, c: Command): nat {
    if log == [] then 0
    else
      var t := log[|log| - 1];
      Failures(log[..|log| - 1], c) + if t.command == c && IsTry(t) && !Whole(t) then 1 else 0
  }

  ghost predicate Tallied(log: seq<Try>) {
    && AreTries(log)
    && |Delivered(log)| == |AllCommands(Completed(log))| + Halves(log)
    && (Halves(log) == 0 ==> Delivered(log) == AllCommands(Completed(log)))
  }

  predicate Balanced(log: seq<Try>, m: Item) {
    Successes(log, Report(m, 0)) == Successes(log, Report(m, 1)) + Failures(log, Report(m, 1))
  }

  lemma OneMore(log: seq<Try>, t: Try, m: Item)
    requires AreTries(log) && IsTry(t)
    ensures AreTries(log + [t])
    ensures Delivered(log + [t])
         == Delivered(log) + if Whole(t) && t.command.Report? then [t.command] else []
    ensures Halves(log + [t]) == Halves(log) + if IsHalf(t) then 1 else 0
    ensures forall p :: Successes(log + [t], Report(m, p))
                     == Successes(log, Report(m, p)) + if t.command == Report(m, p) && Whole(t) then 1 else 0
    ensures forall p :: Failures(log + [t], Report(m, p))
                     == Failures(log, Report(m, p)) + if t.command == Report(m, p) && !Whole(t) then 1 else 0
  {
    hide Whole, Total, Delivered;
    DeliveredAppend(log, t);
    assert (log + [t])[..|log|] == log;
  }

  lemma DeliveredAppend(log: seq<Try>, t: Try)
    requires AreTries(log) && IsTry(t)
    ensures AreTries(log + [t])
    ensures Delivered(log + [t]) == Delivered(log) + if Whole(t) && t.command.Report? then [t.command] else []
  {
    hide Whole, Total;
    assert (log + [t])[..|log|] == log;
  }

  lemma AllCommandsAppend(items: seq<Item>, item: Item)
    ensures AllCommands(items + [item]) == AllCommands(items) + CommandsOf(item)
  {
    assert (items + [item])[..|items|] == items;
  }

  // What an attempt adds, by how far it gets.
  lemma AttemptTallies(log: seq<Try>, item: Item, through: nat, m: Item)
    requires Tallied(log) && m.MouseMove?
    ensures Tallied(log + Tries(item, through))
    ensures Balanced(log, m) ==> Balanced(log + Tries(item, through), m)
  {
    hide Delivered, Halves, Successes, Failures, AllCommands, Completed, Total;
    var t := Tries(item, through);
    CompletedTries(log, item, through);
    OneMore(log, t[0], m);
    AllCommandsAppend(Completed(log), item);
    assert Completed(log) + [] == Completed(log) && Delivered(log) + [] == Delivered(log);
    if |t| == 2 {
      OneMore(log + [t[0]], t[1], m);
      assert log + t == log + [t[0]] + [t[1]];
      assert Delivered(log) + [t[0].command] + [t[1].command] == Delivered(log) + [t[0].command, t[1].command];
      assert Delivered(log + [t[0]]) + [] == Delivered(log + [t[0]]);
    } else {
      assert log + t == log + [t[0]];
    }
  }

  lemma QueryTallies(log: seq<Try>, text: seq<u8>, through: nat, m: Item)
    requires Tallied(log) && m.MouseMove?
    ensures Tallied(log + [TryOf(Ask(text), through)])
    ensures Balanced(log, m) ==> Balanced(log + [TryOf(Ask(text), through)], m)
  {
    hide Delivered, Halves, Successes, Failures, AllCommands, Completed, Total;
    var t := TryOf(Ask(text), through);
    OneMore(log, t, m);
    CompletedAppend(log, t);
    assert Completed(log) + [] == Completed(log) && Delivered(log) + [] == Delivered(log);
  }

  lemma SendOneTallies(q: Link, o: Outcome, m: Item)
    requires Tallied(q.log) && Balanced(q.log, m) && m.MouseMove?
    ensures Tallied(SendOne(q, o).log) && Balanced(SendOne(q, o).log, m)
  {
    hide Tallied, Balanced, Tries, Succeeds;
    if !q.pending && q.waiting != [] {
      AttemptTallies(q.log, q.waiting[0], o.through, m);
    }
  }

  lemma {:induction false} OfferTallies(q: Link, item: Item, outcomes: seq<Outcome>, m: Item)
    requires Tallied(q.log) && Balanced(q.log, m) && m.MouseMove?
    ensures Tallied(Offer(q, item, outcomes).1.log) && Balanced(Offer(q, item, outcomes).1.log, m)
    decreases outcomes
  {
    hide Tallied, Balanced, SendOne;
    if |q.waiting| >= CAPACITY && outcomes != [] {
      SendOneTallies(q, outcomes[0], m);
      OfferTallies(SendOne(q, outcomes[0]), item, outcomes[1..], m);
    }
  }

  lemma {:induction false} RunTallies(steps: seq<Step>, m: Item)
    requires m.MouseMove?
    ensures Tallied(Run(steps).log) && Balanced(Run(steps).log, m)
  {
    if steps != [] {
      hide Tallied, Balanced, SendOne, Offer;
      var q := Run(steps[..|steps| - 1]);
      RunTallies(steps[..|steps| - 1], m);
      match steps[|steps| - 1] {
        case Queue(item, outcomes) => OfferTallies(q, item, outcomes, m);
        case Task(consumed, o) => SendOneTallies(q.(pending := q.pending && !consumed), o, m);
        case Query(text, through) => QueryTallies(q.log, text, through, m);
      }
    } else {
      assert Completed([]) == [];
    }
  }

  lemma {:induction false} NoHalves(log: seq<Try>)
    ensures Halves(log) == 0 <==> forall i :: 0 <= i < |log| ==> !IsHalf(log[i])
  {
    hide IsHalf;
    if log != [] {
      NoHalves(log[..|log| - 1]);
    }
  }

  const SOME_MOVE := MouseMove(0, 0, 0, 0, 0)

  // In every run the commands of reports that got through are those of the completed reports, each once and
  // in order, exactly when no attempt on a mouse report failed between its two commands.
  lemma EachCommandOnceIff(steps: seq<Step>)
    ensures var log := Run(steps).log;
      && AreTries(log)
      && (Delivered(log) == AllCommands(Completed(log)) <==> forall i :: 0 <= i < |log| ==> !IsHalf(log[i]))
      && |Delivered(log)| == |AllCommands(Completed(log))| + Halves(log)
  {
    RunTallies(steps, SOME_MOVE);
    NoHalves(Run(steps).log);
  }

  // A motion gets through as often as its report is completed, plus once for every such attempt.
  lemma MotionCount(steps: seq<Step>, m: Item)
    requires m.MouseMove?
    ensures var log := Run(steps).log;
      Successes(log, Report(m, 0)) == Successes(log, Report(m, 1)) + Failures(log, Report(m, 1))
  {
    hide Tallied;
    RunTallies(steps, m);
  }

  // With no try torn and none failed halfway the module hears every accepted report's commands exactly once:
  // what it hears is what was sent, and of that the reports' commands are those of the reports that no longer
  // wait.
  lemma HeardExactlyOnce(steps: seq<Step>)
    requires var log := Run(steps).log; AreTries(log) && NoneTorn(log) && Halves(log) == 0
    ensures var q := Run(steps);
      && HearAll(Wire(q.log)) == Heard(Sent(q.log), [])
      && Delivered(q.log) == AllCommands(Completed(q.log))
      && Completed(q.log) + q.waiting == q.offered
  {
    RunHeardIff(steps);
    RunTallies(steps, SOME_MOVE);
    RunConserves(steps);
  }

  // ---- When a report is accepted -----------------------------------------------------------------------------

  // The attempt fails and leaves no answer pending.
  predicate FailsIdle(item: Item, o: Outcome) {
    !Succeeds(item, o.through) && (!PassesFirst(item, o.through) || o.consumed)
  }

  ghost predicate SomeSucceeds(item: Item, outcomes: seq<Outcome>) {
    exists k :: 0 <= k < |outcomes| && Succeeds(item, outcomes[k].through)
                && forall j :: 0 <= j < k ==> FailsIdle(item, outcomes[j])
  }

  // With the ring full and an answer pending, the loop of a new report changes nothing, however long it
  // turns: it never reads the answer.
  lemma {:induction false} FullAndPendingBlocks(q: Link, item: Item, outcomes: seq<Outcome>)
    requires |q.waiting| == CAPACITY && q.pending
    ensures Offer(q, item, outcomes) == (false, q)
  {
    if outcomes != [] {
      FullAndPendingBlocks(q, item, outcomes[1..]);
    }
  }

  lemma SomeSucceedsStep(item: Item, outcomes: seq<Outcome>)
    requires outcomes != []
    ensures SomeSucceeds(item, outcomes) <==>
      Succeeds(item, outcomes[0].through) || (FailsIdle(item, outcomes[0]) && SomeSucceeds(item, outcomes[1..]))
  {
    hide Succeeds, FailsIdle;
    var rest := outcomes[1..];
    if FailsIdle(item, outcomes[0]) && SomeSucceeds(item, rest) {
      var k :| 0 <= k < |rest| && Succeeds(item, rest[k].through)
               && forall j :: 0 <= j < k ==> FailsIdle(item, rest[j]);
      assert Succeeds(item, outcomes[k + 1].through);
      forall j | 0 <= j < k + 1 ensures FailsIdle(item, outcomes[j]) {
        assert j > 0 ==> outcomes[j] == rest[j - 1];
      }
    }
    if SomeSucceeds(item, outcomes) && !Succeeds(item, outcomes[0].through) {
      var k :| 0 <= k < |outcomes| && Succeeds(item, outcomes[k].through)
               && forall j :: 0 <= j < k ==> FailsIdle(item, outcomes[j]);
      assert rest[k - 1] == outcomes[k];
      forall j | 0 <= j < k - 1 ensures FailsIdle(item, rest[j]) {
        assert rest[j] == outcomes[j + 1];
      }
    }
  }

  // A report is accepted exactly when there is room, or no answer is pending and the oldest report gets
  // through before an attempt leaves one pending.
  lemma {:induction false} AcceptedIff(q: Link, item: Item, outcomes: seq<Outcome>)
    requires |q.waiting| <= CAPACITY
    ensures Offer(q, item, outcomes).0 <==>
      |q.waiting| < CAPACITY || (!q.pending && SomeSucceeds(q.waiting[0], outcomes))
    decreases outcomes
  {
    hide SomeSucceeds, Succeeds, PassesFirst, Tries;
    if |q.waiting| == CAPACITY {
      if outcomes == [] {
        NoneSucceeds(q.waiting[0]);
      } else if q.pending {
        FullAndPendingBlocks(q, item, outcomes);
      } else {
        var oldest := q.waiting[0];
        SomeSucceedsStep(oldest, outcomes);
        var q' := SendOne(q, outcomes[0]);
        if !Succeeds(oldest, outcomes[0].through) && !FailsIdle(oldest, outcomes[0]) {
          FullAndPendingBlocks(q', item, outcomes[1..]);
        } else {
          AcceptedIff(q', item, outcomes[1..]);
        }
      }
    }
  }

  lemma NoneSucceeds(item: Item)
    ensures !SomeSucceeds(item, [])
  {
  }

  // ---- The blocked state is reached -----------------------------------------------------------------------------

  // One report, sent by the task, and n more.
  function Filling(item: Item, o: Outcome, n: nat): seq<Step> {
    if n == 0 then [Queue(item, []), Task(false, o)] else Filling(item, o, n - 1) + [Queue(item, [])]
  }

  lemma FirstSent(item: Item, o: Outcome)
    requires Succeeds(item, o.through)
    ensures var q := Run([Queue(item, []), Task(false, o)]); q.waiting == [] && q.pending
  {
    hide Tries, Succeeds;
    var steps := [Queue(item, []), Task(false, o)];
    assert steps[..1] == [Queue(item, [])] && steps[..1][..0] == [];
    assert Run(steps[..1]) == DoStep(EMPTY_LINK, Queue(item, []));
    assert ([] + [item])[1..] == [];
  }

  lemma {:induction false} FillingFills(item: Item, o: Outcome, n: nat)
    requires Succeeds(item, o.through) && n <= CAPACITY
    ensures var q := Run(Filling(item, o, n)); |q.waiting| == n && q.pending
  {
    hide Succeeds;
    if n == 0 {
      FirstSent(item, o);
    } else {
      FillingFills(item, o, n - 1);
      var steps := Filling(item, o, n);
      assert steps[..|steps| - 1] == Filling(item, o, n - 1);
    }
  }

  // One report that gets through and 39 more, with no answer read in between: the loop of the next report
  // never ends.
  lemma LoopNeverEnds(item: Item, o: Outcome, outcomes: seq<Outcome>)
    requires Succeeds(item, o.through)
    ensures var q := Run(Filling(item, o, CAPACITY)); Offer(q, item, outcomes) == (false, q)
  {
    hide Run, Filling, Succeeds;
    FillingFills(item, o, CAPACITY);
    FullAndPendingBlocks(Run(Filling(item, o, CAPACITY)), item, outcomes);
  }

  // ---- A motion sent twice ------------------------------------------------------------------------------------------

  function RepeatingSteps(m: Item, waits: nat, now: u16): seq<Step>
    requires m.MouseMove?
  {
    var n0, n1 := Total(Report(m, 0)), Total(Report(m, 1));
    [Queue(m, []), Task(false, Outcome(n0, true, waits, now)), Task(false, Outcome(n0 + n1, false, waits, now))]
  }

  function RepeatingLog(m: Item): (log: seq<Try>)
    requires m.MouseMove?
    ensures AreTries(log)
  {
    var n0, n1 := Total(Report(m, 0)), Total(Report(m, 1));
    [TryOf(Report(m, 0), n0), TryOf(Report(m, 1), 0), TryOf(Report(m, 0), n0), TryOf(Report(m, 1), n1)]
  }

  // When only the second command of a mouse report fails, the motion is sent again.
  lemma MotionIsRepeated(m: Item, waits: nat, now: u16)
    requires m.MouseMove?
    ensures Run(RepeatingSteps(m, waits, now)).log == RepeatingLog(m)
    ensures Delivered(RepeatingLog(m)) == [Report(m, 0), Report(m, 0), Report(m, 1)]
  {
    hide Total, Text, Fragments, Delivered;
    var n0, n1 := Total(Report(m, 0)), Total(Report(m, 1));
    var o1, o2 := Outcome(n0, true, waits, now), Outcome(n0 + n1, false, waits, now);
    var a, b, c := Try(Report(m, 0), n0), Try(Report(m, 1), 0), Try(Report(m, 1), n1);
    var q1 := Link([m], false, [], [m]);
    RunThree(Queue(m, []), Task(false, o1), Task(false, o2));
    assert Tries(m, n0) == [a, b] && Tries(m, n0 + n1) == [a, c];
    assert DoStep(EMPTY_LINK, Queue(m, [])) == q1;
    assert [] + [a, b] == [a, b] && [a, b] + [a, c] == [a, b, a, c];
    assert DoStep(q1, Task(false, o1)) == q1.(log := [a, b]);
    FourTries(a, b, c, m);
  }

  lemma FourTries(a: Try, b: Try, c: Try, m: Item)
    requires m.MouseMove? && IsTry(a) && IsTry(b) && IsTry(c)
    requires a.command == Report(m, 0) && b.command == c.command == Report(m, 1)
    requires Whole(a) && !Whole(b) && Whole(c)
    ensures AreTries([a, b, a, c]) && Delivered([a, b, a, c]) == [Report(m, 0), Report(m, 0), Report(m, 1)]
  {
    hide Total, IsTry, Whole, Delivered;
    DeliveredAppend([], a);
    DeliveredAppend([a], b);
    DeliveredAppend([a, b], a);
    DeliveredAppend([a, b, a], c);
    assert Delivered([]) == [] by { NothingDelivered(); }
    assert [] + [a] == [a] && [a] + [b] == [a, b] && [a, b] + [a] == [a, b, a] && [a, b, a] + [c] == [a, b, a, c];
  }

  lemma NothingDelivered()
    ensures Delivered([]) == []
  {
  }
}
