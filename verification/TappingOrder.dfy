// Conservation and per-key order of the tap-hold machine.
module TappingOrder {
  import opened Tapping
  import opened TappingInvariant

  // ---- The records of one key -----------------------------------------------------------------

  predicate Concerns(r: Record, k: Key) {
    !IsTick(r) && r.event.origin.Physical? && r.event.key == k
  }

  // The physical records of key k, oldest first.
  function OfKey(rs: seq<Record>, k: Key): seq<Record> {
    if rs == [] then []
    else
      var last := rs[|rs| - 1];
      OfKey(rs[..|rs| - 1], k) + if Concerns(last, k) then [last] else []
  }

  function Events(rs: seq<Record>): (es: seq<Event>)
    ensures |es| == |rs| && forall i :: 0 <= i < |rs| ==> es[i] == rs[i].event
  {
    seq(|rs|, i requires 0 <= i < |rs| => rs[i].event)
  }

  lemma EventsConcat(a: seq<Record>, b: seq<Record>)
    ensures Events(a + b) == Events(a) + Events(b)
  {
  }

  function Single(r: Record, k: Key): seq<Record> {
    if Concerns(r, k) then [r] else []
  }

  lemma OfKeyAppend(rs: seq<Record>, r: Record, k: Key)
    ensures OfKey(rs + [r], k) == OfKey(rs, k) + Single(r, k)
  {
    assert (rs + [r])[..|rs|] == rs;
  }

  lemma {:induction false} OfKeyConcat(a: seq<Record>, b: seq<Record>, k: Key)
    ensures OfKey(a + b, k) == OfKey(a, k) + OfKey(b, k)
  {
    if b == [] {
      assert a + b == a;
    } else {
      OfKeyConcat(a, b[..|b| - 1], k);
      assert (a + b)[..|a + b| - 1] == a + b[..|b| - 1];
    }
  }

  lemma OfKeyTail(rs: seq<Record>, k: Key)
    requires rs != []
    ensures OfKey(rs, k) == Single(rs[0], k) + OfKey(rs[1..], k)
  {
    assert rs == [rs[0]] + rs[1..];
    OfKeyConcat([rs[0]], rs[1..], k);
    assert OfKey([rs[0]], k) == Single(rs[0], k);
  }

  lemma {:induction false} OfKeySameEvents(a: seq<Record>, b: seq<Record>, k: Key)
    requires SameEvents(a, b)
    ensures Events(OfKey(a, k)) == Events(OfKey(b, k))
  {
    if a != [] {
      OfKeySameEvents(a[..|a| - 1], b[..|b| - 1], k);
    }
  }

  // The press of the tapping key while it has not been handed on.
  function Held(t: Record, k: Key): seq<Record> {
    if Unsettled(t) then Single(t, k) else []
  }

  // Key k's events that are through: handed on, or taken hold of.
  function Done(s: Machine, k: Key): seq<Event> {
    Events(OfKey(s.log, k)) + Events(Held(s.tapping, k))
  }

  // All events of key k the machine accounts for.
  function Line(s: Machine, k: Key): seq<Event> {
    Done(s, k) + Events(OfKey(s.ring, k))
  }

  // ---- A call takes records one at a time -----------------------------------------------------

  function Gain(o: Outcome, k: Key): seq<Event> {
    if o.consumed then Events(Single(o.record, k)) else []
  }

  lemma EmitDone(s: Machine, r: Record, k: Key)
    requires Held(s.tapping, k) == []
    ensures Done(Emit(s, r), k) == Done(s, k) + Events(Single(r, k))
  {
    OfKeyAppend(s.log, r, k);
  }

  // Taking hold of a fresh press puts it behind what is through.
  lemma HoldDone(s: Machine, r: Record, k: Key)
    requires Held(s.tapping, k) == [] && Unsettled(r)
    ensures Done(s.(tapping := r), k) == Done(s, k) + Events(Single(r, k))
  {
  }

  lemma NothingTaken(s: Machine, o: Outcome, k: Key)
    requires o.machine.log == s.log && Held(o.machine.tapping, k) == Held(s.tapping, k)
    requires Gain(o, k) == []
    ensures Done(o.machine, k) == Done(s, k) + Gain(o, k)
  {
  }

  // Handing on the held press, however it is marked, leaves what is through unchanged.
  lemma SettleDone(s: Machine, settled: Record, next: Record, k: Key)
    requires Unsettled(s.tapping) && !Unsettled(next) && settled.event == s.tapping.event
    ensures Done(Emit(s, settled).(tapping := next), k) == Done(s, k)
  {
    OfKeyAppend(s.log, settled, k);
    EventsConcat(OfKey(s.log, k), Single(settled, k));
  }

  lemma ScanDone(env: Env, s: Machine, k: Key)
    requires s.tapping.event.pressed ==> !IsTick(s.tapping)
    ensures Done(ScanTap(env, s), k) == Done(s, k)
  {
    if Unsettled(s.tapping) {
      SettleDone(s, SetCount(s.tapping, 1), SetCount(s.tapping, 1), k);
    }
  }

  lemma ResetDone(env: Env, s: Machine, r: Record, k: Key)
    requires Pending(r) && IsReset(s.tapping)
    ensures var o := ProcessReset(env, s, r); Done(o.machine, k) == Done(s, k) + Gain(o, k)
  {
    EmitDone(s, r, k);
    ScanDone(env, s.(tapping := r), k);
  }

  // While a key is unsettled only releases of other keys are handed on.
  lemma OvertakeDone(s: Machine, r: Record, k: Key)
    requires Unsettled(s.tapping) && r.event.key != s.tapping.event.key
    ensures Done(Emit(s, r), k) == Done(s, k) + Events(Single(r, k))
  {
    OfKeyAppend(s.log, r, k);
    EventsConcat(OfKey(s.log, k), Single(r, k));
  }

  lemma UnsettledDone(env: Env, s: Machine, r: Record, k: Key)
    requires Pending(r) && Unsettled(s.tapping)
    ensures var o := ProcessUnsettled(env, s, r); Done(o.machine, k) == Done(s, k) + Gain(o, k)
  {
    var t := s.tapping;
    var o := ProcessUnsettled(env, s, r);
    if o.consumed {
      if !IsTick(r) {
        OvertakeDone(s, r, k);
      }
    } else if o.machine.log != s.log {
      var settled := o.machine.log[|s.log|];
      assert o.machine == Emit(s, settled).(tapping := o.machine.tapping);
      SettleDone(s, settled, o.machine.tapping, k);
    } else {
      assert Held(o.machine.tapping, k) == [] || Held(o.machine.tapping, k)[0].event == t.event;
    }
  }

  lemma TappedDone(env: Env, s: Machine, r: Record, k: Key)
    requires Pending(r) && Tapped(s.tapping)
    ensures var o := ProcessTapped(env, s, r); Done(o.machine, k) == Done(s, k) + Gain(o, k)
  {
    var t := s.tapping;
    if SameKey(t, r) && !r.event.pressed {
      EmitDone(s, r.(tap := t.tap), k);
    } else if IsTapRecord(env, r) && r.event.pressed {
      var release := SynthesisedRelease(t, r.event.at);
      EmitDone(s, release, k);
      var s' := if t.tap.count > 1 then Emit(s, release) else s;
      ScanDone(env, s'.(tapping := r), k);
    } else {
      EmitDone(s, r, k);
    }
  }

  lemma ReleasedDone(env: Env, s: Machine, r: Record, k: Key)
    requires Pending(r) && Released(s.tapping)
    ensures var o := ProcessReleased(env, s, r); Done(o.machine, k) == Done(s, k) + Gain(o, k)
  {
    hide ScanTap, OfKey, Events;
    var o := ProcessReleased(env, s, r);
    if !o.consumed || IsTick(r) {
      NothingTaken(s, o, k);
    } else if r.event.pressed && !SameKey(s.tapping, r) && IsTapRecord(env, r) {
      HoldDone(s, r, k);
      ScanDone(env, s.(tapping := r), k);
    } else if o.machine.log == s.log {
      HoldDone(s, r, k);
    } else {
      EmitDone(s, o.record, k);
    }
  }

  // Whatever the state and the environment, a call puts the record it consumes behind everything of
  // that key that is already through, and takes nothing else.
  lemma ProcessTakes(env: Env, s: Machine, r: Record, k: Key)
    requires Invariant(s) && Pending(r)
    ensures var o := Process(env, s, r);
      && Done(o.machine, k) == Done(s, k) + Gain(o, k)
      && Events(OfKey(o.machine.ring, k)) == Events(OfKey(s.ring, k))
  {
    ProcessKeepsInvariant(env, s, r);
    OfKeySameEvents(Process(env, s, r).machine.ring, s.ring, k);
    if IsReset(s.tapping) {
      ResetDone(env, s, r, k);
    } else if Released(s.tapping) {
      ReleasedDone(env, s, r, k);
    } else if Unsettled(s.tapping) {
      UnsettledDone(env, s, r, k);
    } else {
      TappedDone(env, s, r, k);
    }
  }

  lemma DrainOneKeepsLine(env: Env, s: Machine, k: Key)
    requires Invariant(s) && s.ring != []
    ensures Line(DrainOne(env, s).machine, k) == Line(s, k)
  {
    ProcessKeepsInvariant(env, s, s.ring[0]);
    ProcessTakes(env, s, s.ring[0], k);
    HeadLeavesRing(s, Process(env, s, s.ring[0]), k);
  }

  // Taking the head of the queue, or putting it back marked, moves it along its line.
  lemma HeadLeavesRing(s: Machine, o: Outcome, k: Key)
    requires s.ring != [] && SameEvents(o.machine.ring, s.ring) && o.record.event == s.ring[0].event
    requires Done(o.machine, k) == Done(s, k) + Gain(o, k)
    ensures o.consumed ==> Line(o.machine.(ring := o.machine.ring[1..]), k) == Line(s, k)
    ensures !o.consumed ==> Line(o.machine.(ring := o.machine.ring[0 := o.record]), k) == Line(s, k)
  {
    hide OfKey;
    if o.consumed {
      OfKeyTail(s.ring, k);
      EventsConcat(Single(s.ring[0], k), OfKey(s.ring[1..], k));
      OfKeySameEvents(o.machine.ring[1..], s.ring[1..], k);
      LineOf(o.machine.(ring := o.machine.ring[1..]), o.machine, k);
    } else {
      OfKeySameEvents(o.machine.ring[0 := o.record], s.ring, k);
      LineOf(o.machine.(ring := o.machine.ring[0 := o.record]), o.machine, k);
    }
  }

  lemma LineOf(s: Machine, s0: Machine, k: Key)
    requires s.log == s0.log && s.tapping == s0.tapping
    ensures Line(s, k) == Done(s0, k) + Events(OfKey(s.ring, k))
  {
  }

  lemma {:induction false} DrainKeepsLine(envs: nat -> Env, n: nat, s: Machine, k: Key)
    requires Invariant(s)
    ensures Line(Drain(envs, n, s), k) == Line(s, k)
    decreases |s.ring|
  {
    if s.ring != [] {
      DrainOneKeepsInvariant(envs(n), s);
      DrainOneKeepsLine(envs(n), s, k);
      var o := DrainOne(envs(n), s);
      if o.consumed {
        DrainKeepsLine(envs, n + 1, o.machine, k);
      }
    }
  }

  // A fresh record joins the line of its key: at the end when it is queued or when nothing of that key
  // is queued, otherwise before what is queued.
  lemma OfferJoinsLine(env: Env, s: Machine, r: Record, k: Key)
    requires Invariant(s) && Pending(r) && !Overflows(env, s, r)
    ensures var s' := Offer(env, s, r);
      if Process(env, s, r).consumed
      then Line(s', k) == Done(s, k) + Events(Single(r, k)) + Events(OfKey(s.ring, k))
      else Line(s', k) == Line(s, k) + Events(Single(r, k))
  {
    hide OfKey, Process;
    var o := Process(env, s, r);
    ProcessTakes(env, s, r, k);
    OfKeyAppend(o.machine.ring, o.record, k);
    EventsConcat(OfKey(o.machine.ring, k), Single(o.record, k));
    LineOf(Offer(env, s, r), o.machine, k);
  }

  // ---- Conservation ---------------------------------------------------------------------------

  // The events of key k among the inputs, oldest first.
  function FedOf(inputs: seq<Input>, k: Key): seq<Event> {
    if inputs == [] then []
    else FedOf(inputs[..|inputs| - 1], k) + Events(Single(inputs[|inputs| - 1].Fresh(), k))
  }

  lemma MultisetOfJoin(a: seq<Event>, b: seq<Event>, c: seq<Event>)
    ensures multiset(a + b + c) == multiset(a + c) + multiset(b)
  {
    assert multiset(a + b + c) == multiset(a) + multiset(b) + multiset(c);
  }

  // In every run without overflow, whatever the environments answer and whenever events arrive, the
  // events of a key that were fed in are those handed on, plus its press while it is the unsettled
  // tapping key, plus those queued: none is lost and none is handed on twice.
  lemma {:induction false} Conservation(inputs: seq<Input>, k: Key)
    requires GenuineInputs(inputs) && NeverOverflows(INITIAL, inputs)
    ensures var s := Run(INITIAL, inputs);
      multiset(FedOf(inputs, k))
      == multiset(Events(OfKey(s.log, k)) + Events(Held(s.tapping, k)) + Events(OfKey(s.ring, k)))
  {
    if inputs != [] {
      var before := inputs[..|inputs| - 1];
      var last := inputs[|inputs| - 1];
      var s := Run(INITIAL, before);
      Conservation(before, k);
      RunKeepsInvariant(INITIAL, before);
      CallKeepsInvariant(last.envs, s, last.Fresh());
      OfferJoinsLine(last.envs(0), s, last.Fresh(), k);
      MultisetOfJoin(Done(s, k), Events(Single(last.Fresh(), k)), Events(OfKey(s.ring, k)));
      assert multiset(Line(s, k) + Events(Single(last.Fresh(), k)))
          == multiset(Line(s, k)) + multiset(Events(Single(last.Fresh(), k)));
      DrainKeepsLine(last.envs, 1, Offer(last.envs(0), s, last.Fresh()), k);
    }
  }

  // The only other records handed on are releases made up for keys tapped more than once.
  lemma OnlyReleasesAreMadeUp(inputs: seq<Input>, i: nat)
    requires GenuineInputs(inputs)
    requires var s := Run(INITIAL, inputs); i < |s.log| && !Concerns(s.log[i], s.log[i].event.key)
    ensures var r := Run(INITIAL, inputs).log[i]; r.event.origin.Synthesised? && !r.event.pressed && r.tap.count > 1
  {
    RunKeepsInvariant(INITIAL, inputs);
  }

  // ---- Per-key order --------------------------------------------------------------------------

  // Press, release, press, ...
  predicate Alternates(es: seq<Event>) {
    forall i :: 0 <= i < |es| ==> es[i].pressed == (i % 2 == 0)
  }

  lemma AlternatesAppend(es: seq<Event>, e: Event)
    requires Alternates(es) && e.pressed == (|es| % 2 == 0)
    ensures Alternates(es + [e])
  {
  }

  lemma FedOneMore(inputs: seq<Input>, k: Key)
    requires inputs != []
    ensures var n := |inputs| - 1;
      FedOf(inputs, k) == FedOf(inputs[..n], k) + if Concerns(inputs[n].Fresh(), k) then [inputs[n].event] else []
  {
  }

  ghost predicate AlternatingInputs(inputs: seq<Input>) {
    forall k :: Alternates(FedOf(inputs, k))
  }

  // An event finds the queue empty unless the tapping key is unsettled.
  predicate ArrivesDrained(s: Machine, r: Record) {
    !IsTick(r) ==> s.ring == [] || Unsettled(s.tapping)
  }

  ghost predicate DrainedArrivals(inputs: seq<Input>) {
    forall j :: 0 <= j < |inputs| ==> ArrivesDrained(Run(INITIAL, inputs[..j]), inputs[j].Fresh())
  }

  lemma {:induction false} QueuedPressIsTyped(rs: seq<Record>, k: Key, i: nat)
    requires i < |OfKey(rs, k)| && OfKey(rs, k)[i].event.pressed
    ensures exists j :: 0 <= j < |rs| && rs[j].event.key == k && rs[j].event.pressed
  {
    if i < |OfKey(rs[..|rs| - 1], k)| {
      QueuedPressIsTyped(rs[..|rs| - 1], k, i);
      var j :| 0 <= j < |rs| - 1 && rs[..|rs| - 1][j].event.key == k && rs[..|rs| - 1][j].event.pressed;
      assert rs[j].event.key == k && rs[j].event.pressed;
    } else {
      assert rs[|rs| - 1].event.key == k;
    }
  }

  // While a key is unsettled, only the release of a key without a queued press is taken.
  lemma TakenWhileUnsettled(env: Env, s: Machine, r: Record)
    requires Unsettled(s.tapping) && !IsTick(r) && Process(env, s, r).consumed
    ensures !r.event.pressed && !Typed(s.ring, r.event)
  {
  }

  // A release in turn means that the last event in line is a press.
  lemma LastInLineIsPress(s: Machine, r: Record, k: Key)
    requires Concerns(r, k) && !r.event.pressed && OfKey(s.ring, k) != []
    requires Alternates(Line(s, k) + Events(Single(r, k)))
    ensures var queued := OfKey(s.ring, k); queued[|queued| - 1].event.pressed
  {
    hide OfKey;
    var line, queued := Line(s, k), OfKey(s.ring, k);
    var longer := line + Events(Single(r, k));
    assert longer[|line|] == r.event;
    assert longer[|line| - 1] == line[|line| - 1] == queued[|queued| - 1].event;
  }

  // A fresh event of an alternating key that is consumed at once finds nothing of its key queued.
  lemma ArrivalKeepsOrder(env: Env, s: Machine, r: Record, k: Key)
    requires Invariant(s) && Pending(r) && !Overflows(env, s, r) && ArrivesDrained(s, r)
    requires Alternates(Line(s, k) + Events(Single(r, k)))
    ensures Line(Offer(env, s, r), k) == Line(s, k) + Events(Single(r, k))
  {
    hide Process, Offer, Overflows;
    OfferJoinsLine(env, s, r, k);
    var queued := OfKey(s.ring, k);
    if Process(env, s, r).consumed && Concerns(r, k) && queued != [] {
      TakenWhileUnsettled(env, s, r);
      LastInLineIsPress(s, r, k);
      QueuedPressIsTyped(s.ring, k, |queued| - 1);
    }
  }

  // When every key alternates and events arrive drained, each key's events are handed on in the order
  // in which they were fed in: handed on, then held, then queued, they are exactly the events fed.
  lemma {:induction false} KeyOrder(inputs: seq<Input>, k: Key)
    requires GenuineInputs(inputs) && NeverOverflows(INITIAL, inputs)
    requires AlternatingInputs(inputs) && DrainedArrivals(inputs)
    ensures var s := Run(INITIAL, inputs);
      Events(OfKey(s.log, k)) + Events(Held(s.tapping, k)) + Events(OfKey(s.ring, k)) == FedOf(inputs, k)
  {
    if inputs != [] {
      var n := |inputs| - 1;
      var before := inputs[..n];
      var last := inputs[n];
      var s := Run(INITIAL, before);
      PrefixIsOrderly(inputs);
      KeyOrder(before, k);
      RunKeepsInvariant(INITIAL, before);
      CallKeepsInvariant(last.envs, s, last.Fresh());
      assert Alternates(FedOf(inputs, k));
      ArrivalKeepsOrder(last.envs(0), s, last.Fresh(), k);
      DrainKeepsLine(last.envs, 1, Offer(last.envs(0), s, last.Fresh()), k);
    }
  }

  lemma PrefixIsOrderly(inputs: seq<Input>)
    requires inputs != [] && AlternatingInputs(inputs) && DrainedArrivals(inputs)
    ensures AlternatingInputs(inputs[..|inputs| - 1]) && DrainedArrivals(inputs[..|inputs| - 1])
    ensures ArrivesDrained(Run(INITIAL, inputs[..|inputs| - 1]), inputs[|inputs| - 1].Fresh())
  {
    var before := inputs[..|inputs| - 1];
    forall k ensures Alternates(FedOf(before, k)) {
      assert Alternates(FedOf(inputs, k));
      assert forall i :: 0 <= i < |FedOf(before, k)| ==> FedOf(before, k)[i] == FedOf(inputs, k)[i];
    }
    forall j | 0 <= j < |before| ensures ArrivesDrained(Run(INITIAL, before[..j]), before[j].Fresh()) {
      assert before[..j] == inputs[..j];
    }
  }
}
