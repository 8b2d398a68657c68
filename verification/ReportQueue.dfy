// The retrying report queue of the Bluefruit driver: reports wait in a ring of 40 slots and are sent as
// AT commands one at a time, packet by packet, the next only after the answer to the last.
module ReportQueue {
  import opened Clock
  import opened Sdep
  import opened AtCommands

  // Room for reports in the ring.
  const CAPACITY := 39

  // The part-th command of a report, or a command of the driver's own.
  datatype Command = Report(item: Item, part: nat) | Ask(text: seq<u8>)

  predicate IsCommand(c: Command) { c.Report? ==> c.part < Commands(c.item) }

  function TextOf(c: Command): seq<u8>
    requires IsCommand(c)
  {
    match c
    case Report(item, part) => Text(item, part)
    case Ask(text) => text
  }

  // Packets of a command.
  function Total(c: Command): (n: nat)
    requires IsCommand(c)
    ensures n > 0
  {
    |Fragments(TextOf(c))|
  }

  // One run of at_command: the command and how many of its packets got through.
  datatype Try = Try(command: Command, packets: nat)

  predicate IsTry(t: Try) { IsCommand(t.command) && t.packets <= Total(t.command) }

  predicate Whole(t: Try)
    requires IsTry(t)
  {
    t.packets == Total(t.command)
  }

  // It failed after some packets.
  predicate Torn(t: Try)
    requires IsTry(t)
  {
    0 < t.packets < Total(t.command)
  }

  predicate AreTries(log: seq<Try>) { forall i :: 0 <= i < |log| ==> IsTry(log[i]) }

  // Reports waiting, whether an answer is pending, every try so far, and reports accepted so far.
  datatype Link = Link(waiting: seq<Item>, pending: bool, log: seq<Try>, offered: seq<Item>)

  // What an attempt to send a report meets: how many packets get through, and if not all do, whether the
  // answer to a command that did is read away. The wait for room in the ring of answers is that long.
  datatype Outcome = Outcome(through: nat, consumed: bool, waits: nat, now: u16)

  function First(item: Item): Command { Report(item, 0) }

  // The motion of a mouse report gets through.
  predicate PassesFirst(item: Item, through: nat) { item.MouseMove? && through >= Total(First(item)) }

  // All of the report's packets get through.
  predicate Succeeds(item: Item, through: nat) {
    through >= Total(First(item)) + if item.MouseMove? then Total(Report(item, 1)) else 0
  }

  function TryOf(c: Command, through: nat): (t: Try)
    requires IsCommand(c)
    ensures IsTry(t)
  {
    Try(c, Least(through, Total(c)))
  }

  // process_queue_item
  function Tries(item: Item, through: nat): (t: seq<Try>)
    ensures AreTries(t)
  {
    if PassesFirst(item, through)
    then [TryOf(First(item), through), TryOf(Report(item, 1), through - Total(First(item)))]
    else [TryOf(First(item), through)]
  }

  // send_buf_send_one
  function SendOne(q: Link, o: Outcome): Link {
    if q.pending || q.waiting == [] then q
    else
      var item := q.waiting[0];
      var log := q.log + Tries(item, o.through);
      if Succeeds(item, o.through) then q.(waiting := q.waiting[1..], pending := true, log := log)
      else q.(pending := PassesFirst(item, o.through) && !o.consumed, log := log)
  }

  // bluefruit_le_send_keyboard, _consumer and _mouse, for as many attempts as there are outcomes: whether
  // the report has been accepted by then, and the state.
  function Offer(q: Link, item: Item, outcomes: seq<Outcome>): (bool, Link)
    decreases outcomes
  {
    if |q.waiting| < CAPACITY then (true, q.(waiting := q.waiting + [item], offered := q.offered + [item]))
    else if outcomes == [] then (false, q)
    else Offer(SendOne(q, outcomes[0]), item, outcomes[1..])
  }

  // A report, the periodic task, or a command of the driver's own, whose answer is awaited.
  datatype Step =
    | Queue(item: Item, outcomes: seq<Outcome>)
    | Task(consumed: bool, outcome: Outcome)
    | Query(text: seq<u8>, through: nat)

  function DoStep(q: Link, s: Step): Link {
    match s
    case Queue(item, outcomes) => Offer(q, item, outcomes).1
    case Task(consumed, o) => SendOne(q.(pending := q.pending && !consumed), o)
    case Query(text, through) => q.(pending := false, log := q.log + [TryOf(Ask(text), through)])
  }

  const EMPTY_LINK := Link([], false, [], [])

  function Run(steps: seq<Step>): Link {
    if steps == [] then EMPTY_LINK else DoStep(Run(steps[..|steps| - 1]), steps[|steps| - 1])
  }

  // ---- Nothing is lost or reordered -------------------------------------------------------------------------

  // The last command of its report.
  predicate IsLast(t: Try) {
    IsTry(t) && Whole(t) && t.command.Report? && t.command.part + 1 == Commands(t.command.item)
  }

  // The reports whose last command got through, in order.
  function Completed(log: seq<Try>): seq<Item> {
    if log == [] then []
    else
      var t := log[|log| - 1];
      Completed(log[..|log| - 1]) + if IsLast(t) then [t.command.item] else []
  }

  lemma CompletedAppend(log: seq<Try>, t: Try)
    ensures Completed(log + [t]) == Completed(log) + if IsLast(t) then [t.command.item] else []
  {
    assert (log + [t])[..|log|] == log;
  }

  ghost predicate Conserved(q: Link) {
    && |q.waiting| <= CAPACITY && AreTries(q.log)
    && Completed(q.log) + q.waiting == q.offered
  }

  // An attempt's tries, one or two.
  lemma CompletedTries(log: seq<Try>, item: Item, through: nat)
    ensures Completed(log + Tries(item, through)) == Completed(log) + if Succeeds(item, through) then [item] else []
  {
    hide Completed, Total, Fragments, Text;
    var t := Tries(item, through);
    CompletedAppend(log, t[0]);
    if |t| == 2 {
      CompletedAppend(log + [t[0]], t[1]);
      assert log + t == log + [t[0]] + [t[1]];
      assert Completed(log) + [] == Completed(log);
    } else {
      assert log + t == log + [t[0]];
    }
  }

  lemma SendOneConserves(q: Link, o: Outcome)
    requires Conserved(q)
    ensures Conserved(SendOne(q, o))
  {
    hide Completed, Succeeds, Tries, IsTry;
    if !q.pending && q.waiting != [] {
      var t := Tries(q.waiting[0], o.through);
      CompletedTries(q.log, q.waiting[0], o.through);
      assert q.waiting == [q.waiting[0]] + q.waiting[1..];
      assert Completed(q.log) + [] + q.waiting == q.offered;
      assert AreTries(t) && AreTries(q.log + t);
    }
  }

  lemma {:induction false} OfferConserves(q: Link, item: Item, outcomes: seq<Outcome>)
    requires Conserved(q)
    ensures Conserved(Offer(q, item, outcomes).1)
    decreases outcomes
  {
    hide Completed, SendOne, AreTries;
    if |q.waiting| < CAPACITY {
      assert Completed(q.log) + (q.waiting + [item]) == Completed(q.log) + q.waiting + [item];
    } else if outcomes != [] {
      SendOneConserves(q, outcomes[0]);
      OfferConserves(SendOne(q, outcomes[0]), item, outcomes[1..]);
    }
  }

  lemma QueryConserves(q: Link, text: seq<u8>, through: nat)
    requires Conserved(q)
    ensures Conserved(DoStep(q, Query(text, through)))
  {
    CompletedAppend(q.log, TryOf(Ask(text), through));
    assert Completed(q.log) + [] == Completed(q.log);
  }

  // Under any failures the reports accepted are those whose last command got through followed by those that
  // wait, in order, each once.
  lemma {:induction false} RunConserves(steps: seq<Step>)
    ensures Conserved(Run(steps))
  {
    if steps != [] {
      hide Conserved, SendOne, Offer;
      var s := steps[|steps| - 1];
      var q := Run(steps[..|steps| - 1]);
      RunConserves(steps[..|steps| - 1]);
      match s {
        case Queue(item, outcomes) => OfferConserves(q, item, outcomes);
        case Task(consumed, o) =>
          OnlyPending(q, q.pending && !consumed);
          SendOneConserves(q.(pending := q.pending && !consumed), o);
        case Query(text, through) => QueryConserves(q, text, through);
      }
    } else {
      assert Completed([]) + [] == [];
    }
  }

  lemma OnlyPending(q: Link, pending: bool)
    requires Conserved(q)
    ensures Conserved(q.(pending := pending))
  {
  }

  // ---- What the module hears ----------------------------------------------------------------------------------

  // The packets sent.
  function Wire(log: seq<Try>): seq<Packet>
    requires AreTries(log)
  {
    if log == [] then []
    else
      var t := log[|log| - 1];
      Wire(log[..|log| - 1]) + Fragments(TextOf(t.command))[..t.packets]
  }

  // The texts of the commands that at_command reported as sent.
  function Sent(log: seq<Try>): seq<seq<u8>>
    requires AreTries(log)
  {
    if log == [] then []
    else
      var t := log[|log| - 1];
      Sent(log[..|log| - 1]) + if Whole(t) then [TextOf(t.command)] else []
  }

  ghost predicate NoneTorn(log: seq<Try>)
    requires AreTries(log)
  {
    forall i :: 0 <= i < |log| ==> !Torn(log[i])
  }

  // No command is sent after one that failed in the middle.
  ghost predicate NoneAfterTorn(log: seq<Try>)
    requires AreTries(log)
  {
    forall i, j :: 0 <= i < j < |log| && Torn(log[i]) ==> !Whole(log[j])
  }

  lemma WhenTorn(log: seq<Try>, t: Try)
    requires AreTries(log) && IsTry(t)
    ensures AreTries(log + [t])
    ensures NoneTorn(log + [t]) <==> NoneTorn(log) && !Torn(t)
    ensures NoneAfterTorn(log + [t]) <==> NoneAfterTorn(log) && (Whole(t) ==> NoneTorn(log))
  {
    hide Total, IsTry, Whole, Torn;
    var all := log + [t];
    assert forall i :: 0 <= i < |log| ==> all[i] == log[i];
    assert all[|log|] == t;
    assert NoneAfterTorn(all) ==> forall i :: 0 <= i < |log| && Torn(all[i]) ==> !Whole(all[|log|]);
  }

  lemma HearTry(log: seq<Try>, t: Try)
    requires AreTries(log) && IsTry(t)
    ensures AreTries(log + [t])
    ensures var h, all := HearAll(Wire(log)), HearAll(Wire(log + [t]));
      && (Whole(t) ==> all == Heard(h.commands + [h.partial + TextOf(t.command)], []))
      && (t.packets == 0 ==> all == h)
      && (Torn(t) ==> all.commands == h.commands && |all.partial| > |h.partial|)
  {
    hide HearAll, Fragments;
    assert (log + [t])[..|log|] == log;
    HearFragments(Wire(log), TextOf(t.command), t.packets);
    if t.packets == 0 {
      assert Wire(log) + Fragments(TextOf(t.command))[..0] == Wire(log);
    }
  }

  lemma SentAppend(log: seq<Try>, t: Try)
    requires AreTries(log) && IsTry(t)
    ensures AreTries(log + [t])
    ensures Sent(log + [t]) == Sent(log) + if Whole(t) then [TextOf(t.command)] else []
  {
    assert (log + [t])[..|log|] == log;
  }

  lemma SameLast<T>(a: seq<T>, b: seq<T>, x: T, y: T)
    ensures a + [x] == b + [y] <==> a == b && x == y
  {
    if a + [x] == b + [y] {
      assert |a + [x]| == |b + [y]|;
      assert (a + [x])[..|a|] == a && (b + [y])[..|b|] == b;
      assert (a + [x])[|a|] == x && (b + [y])[|b|] == y;
    }
  }

  lemma PrefixEmpty(a: seq<u8>, b: seq<u8>)
    ensures a + b == b <==> a == []
  {
    assert |a + b| == |a| + |b|;
  }

  lemma {:induction false} HeardIff(log: seq<Try>)
    requires AreTries(log)
    ensures HearAll(Wire(log)).commands == Sent(log) <==> NoneAfterTorn(log)
    ensures HearAll(Wire(log)) == Heard(Sent(log), []) <==> NoneTorn(log)
  {
    if log != [] {
      hide HearAll, Wire, Sent, NoneTorn, NoneAfterTorn, Total, Fragments;
      var before, t := log[..|log| - 1], log[|log| - 1];
      var h := HearAll(Wire(before));
      assert log == before + [t];
      HeardIff(before);
      WhenTorn(before, t);
      HearTry(before, t);
      SentAppend(before, t);
      if Whole(t) {
        SameLast(h.commands, Sent(before), h.partial + TextOf(t.command), TextOf(t.command));
        PrefixEmpty(h.partial, TextOf(t.command));
      } else {
        assert Sent(before) + [] == Sent(before);
      }
    }
  }

  // In every run the module hears exactly the commands reported as sent, and nothing is left over, exactly
  // when no try failed in the middle; a try that did corrupts the first command that is sent after it.
  lemma RunHeardIff(steps: seq<Step>)
    ensures AreTries(Run(steps).log)
    ensures var log := Run(steps).log;
      && (HearAll(Wire(log)) == Heard(Sent(log), []) <==> NoneTorn(log))
      && (HearAll(Wire(log)).commands == Sent(log) <==> NoneAfterTorn(log))
  {
    hide Conserved, Run;
    RunConserves(steps);
    ConservedTries(Run(steps));
    HeardIff(Run(steps).log);
  }

  lemma ConservedTries(q: Link)
    requires Conserved(q)
    ensures AreTries(q.log)
  {
  }

  // One packet of a key report, then all three.
  function TornLog(k: Item): (log: seq<Try>)
    requires k.KeyReport?
    ensures AreTries(log)
  {
    TextFits(k, 0);
    [Try(First(k), 1), Try(First(k), 3)]
  }

  // A key report of which one packet got through is sent again from the start, and what the module hears is
  // its first sixteen characters followed by the whole.
  lemma KeyReportCorrupted(k: Item, waits: nat, now: u16)
    requires k.KeyReport?
    ensures |Text(k, 0)| == 42
    ensures var o1, o2 := Outcome(1, true, waits, now), Outcome(3, false, waits, now);
      Run([Queue(k, []), Task(false, o1), Task(false, o2)]).log == TornLog(k)
    ensures Sent(TornLog(k)) == [Text(k, 0)]
    ensures HearAll(Wire(TornLog(k))) == Heard([Text(k, 0)[..16] + Text(k, 0)], [])
  {
    TextFits(k, 0);
    assert Total(First(k)) == 3;
    hide HearAll, Wire, Sent, Text, Fragments, Total;
    TornRun(k, Outcome(1, true, waits, now), Outcome(3, false, waits, now));
    TornHeard(k);
  }

  lemma TornRun(k: Item, o1: Outcome, o2: Outcome)
    requires k.KeyReport? && Total(First(k)) == 3 && o1.through == 1 && o2.through == 3
    ensures Run([Queue(k, []), Task(false, o1), Task(false, o2)]).log == [Try(First(k), 1), Try(First(k), 3)]
  {
    hide Text, Fragments, Total;
    var t1, t2 := Try(First(k), 1), Try(First(k), 3);
    var q1 := Link([k], false, [], [k]);
    RunThree(Queue(k, []), Task(false, o1), Task(false, o2));
    assert Tries(k, 1) == [t1] && Tries(k, 3) == [t2];
    assert DoStep(EMPTY_LINK, Queue(k, [])) == q1;
    assert [] + [t1] == [t1] && [t1] + [t2] == [t1, t2];
    assert DoStep(q1, Task(false, o1)) == q1.(log := [t1]);
  }

  lemma TornHeard(k: Item)
    requires k.KeyReport? && Total(First(k)) == 3 && |Text(k, 0)| == 42
    ensures var log := [Try(First(k), 1), Try(First(k), 3)];
      && AreTries(log) && Sent(log) == [Text(k, 0)]
      && HearAll(Wire(log)) == Heard([Text(k, 0)[..16] + Text(k, 0)], [])
  {
    hide Text, Fragments, HearAll;
    var t1, t2 := Try(First(k), 1), Try(First(k), 3);
    var text := Text(k, 0);
    assert [] + [t1] == [t1] && [t1] + [t2] == [t1, t2] && [t1][..0] == [];
    NothingHeard();
    HearFragments([], text, 1);
    assert Wire([t1]) == [] + Fragments(text)[..1];
    assert [] + text[..16] == text[..16];
    HearTry([t1], t2);
    SentAppend([], t1);
    SentAppend([t1], t2);
  }

  lemma NothingHeard()
    ensures HearAll([]) == Heard([], [])
  {
  }

  lemma RunThree(a: Step, b: Step, c: Step)
    ensures Run([a, b, c]) == DoStep(DoStep(DoStep(EMPTY_LINK, a), b), c)
  {
    hide DoStep;
    assert [a, b, c][..2] == [a, b] && [a, b][..1] == [a] && [a][..0] == [];
    assert Run([a]) == DoStep(EMPTY_LINK, a);
    assert Run([a, b]) == DoStep(Run([a]), b);
  }
}
