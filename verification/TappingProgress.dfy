// Order and progress of the tap-hold machine: what an unsettled key holds back, and how ticks empty
// the queue.
module TappingProgress {
  import opened Clock
  import opened Tapping
  import opened TappingInvariant

  // ---- Hold-back ------------------------------------------------------------------------------

  // A record that may be handed on ahead of the unsettled press e: the release of another key none of
  // whose presses is queued.
  predicate Overtaker(x: Record, e: Event, ring: seq<Record>) {
    !x.event.pressed && x.event.key != e.key && !Typed(ring, x.event)
  }

  predicate PressQueued(ring: seq<Record>, k: Key) {
    exists i :: 0 <= i < |ring| && ring[i].event.key == k && ring[i].event.pressed
  }

  // Every key with a queued press in a has one in b.
  ghost predicate PressesRemain(a: seq<Record>, b: seq<Record>) {
    forall k :: PressQueued(a, k) ==> PressQueued(b, k)
  }

  // From s0 with press e unsettled to s: either e is still unsettled, or it was handed on; before that
  // nothing but overtakers was.
  ghost predicate Behind(s0: Machine, s: Machine, e: Event) {
    && s0.log <= s.log
    && ((&& Unsettled(s.tapping) && s.tapping.event == e
         && PressesRemain(s0.ring, s.ring) && OnlyOvertakers(s0, s, e, |s.log|))
        || HandedOn(s0, s, e))
  }

  ghost predicate OnlyOvertakers(s0: Machine, s: Machine, e: Event, n: nat) {
    |s0.log| <= n <= |s.log| && forall j :: |s0.log| <= j < n ==> Overtaker(s.log[j], e, s0.ring)
  }

  ghost predicate HandedOn(s0: Machine, s: Machine, e: Event) {
    exists i :: |s0.log| <= i < |s.log| && s.log[i].event == e && OnlyOvertakers(s0, s, e, i)
  }

  // Once e has been handed on, later log entries do not matter.
  lemma HandedOnStays(s0: Machine, s: Machine, s': Machine, e: Event)
    requires s0.log <= s.log <= s'.log && HandedOn(s0, s, e)
    ensures Behind(s0, s', e)
  {
    var i :| |s0.log| <= i < |s.log| && s.log[i].event == e && OnlyOvertakers(s0, s, e, i);
    assert s'.log[i].event == e && OnlyOvertakers(s0, s', e, i);
  }

  lemma ProcessHoldsBack(env: Env, s0: Machine, s: Machine, r: Record, e: Event)
    requires Invariant(s) && Pending(r) && Behind(s0, s, e)
    ensures Behind(s0, Process(env, s, r).machine, e)
    ensures var o := Process(env, s, r); Unsettled(s.tapping) && o.consumed && !IsTick(r) ==> !r.event.pressed
  {
    var o := Process(env, s, r);
    if HandedOn(s0, s, e) {
      HandedOnStays(s0, s, o.machine, e);
    } else {
      assert o.machine.ring == s.ring;
      if o.consumed && !IsTick(r) {
        assert o.machine.log == s.log + [r] && !Typed(s.ring, r.event);
        assert !PressQueued(s.ring, r.event.key);
        assert !PressQueued(s0.ring, r.event.key);
      } else if o.machine.log != s.log {
        assert |o.machine.log| == |s.log| + 1 && o.machine.log[|s.log|].event == e;
        assert OnlyOvertakers(s0, o.machine, e, |s.log|);
        assert HandedOn(s0, o.machine, e);
      }
    }
  }

  lemma DrainOneHoldsBack(env: Env, s0: Machine, s: Machine, e: Event)
    requires Invariant(s) && s.ring != [] && Behind(s0, s, e)
    ensures Behind(s0, DrainOne(env, s).machine, e)
  {
    var r := s.ring[0];
    var o := Process(env, s, r);
    var s' := DrainOne(env, s).machine;
    ProcessHoldsBack(env, s0, s, r, e);
    ProcessKeepsInvariant(env, s, r);
    if HandedOn(s0, o.machine, e) {
      HandedOnStays(s0, o.machine, s', e);
    } else {
      forall k | PressQueued(s.ring, k) ensures PressQueued(s'.ring, k) {
        var i :| 0 <= i < |s.ring| && s.ring[i].event.key == k && s.ring[i].event.pressed;
        assert o.machine.ring[i].event == s.ring[i].event;
        assert s'.ring[if o.consumed then i - 1 else i].event == s.ring[i].event;
      }
      assert OnlyOvertakers(s0, s', e, |s'.log|);
    }
  }

  lemma {:induction false} DrainHoldsBack(envs: nat -> Env, n: nat, s0: Machine, s: Machine, e: Event)
    requires Invariant(s) && Behind(s0, s, e)
    ensures Behind(s0, Drain(envs, n, s), e)
    decreases |s.ring|
  {
    if s.ring != [] {
      DrainOneHoldsBack(envs(n), s0, s, e);
      DrainOneKeepsInvariant(envs(n), s);
      var o := DrainOne(envs(n), s);
      if o.consumed {
        DrainHoldsBack(envs, n + 1, s0, o.machine, e);
      }
    }
  }

  lemma OfferHoldsBack(env: Env, s0: Machine, s: Machine, r: Record, e: Event)
    requires Invariant(s) && Pending(r) && Behind(s0, s, e) && !Overflows(env, s, r)
    ensures Behind(s0, Offer(env, s, r), e)
  {
    var o := Process(env, s, r);
    var s' := Offer(env, s, r);
    ProcessHoldsBack(env, s0, s, r, e);
    if HandedOn(s0, o.machine, e) {
      HandedOnStays(s0, o.machine, s', e);
    } else {
      forall k | PressQueued(o.machine.ring, k) ensures PressQueued(s'.ring, k) {
        var i :| 0 <= i < |o.machine.ring| && o.machine.ring[i].event.key == k && o.machine.ring[i].event.pressed;
        assert s'.ring[i] == o.machine.ring[i];
      }
      assert OnlyOvertakers(s0, s', e, |s'.log|);
    }
  }

  // While a tap-hold key is unsettled, no press at all is handed on before its own: every later log
  // entry up to that press is the release of another key, and no press of that key was queued.
  lemma {:induction false} HoldBack(s: Machine, inputs: seq<Input>)
    requires Invariant(s) && Unsettled(s.tapping)
    requires GenuineInputs(inputs) && NeverOverflows(s, inputs)
    ensures Behind(s, Run(s, inputs), s.tapping.event)
    decreases |inputs|
  {
    var e := s.tapping.event;
    if inputs == [] {
      assert OnlyOvertakers(s, s, e, |s.log|);
    } else {
      var before := inputs[..|inputs| - 1];
      var last := inputs[|inputs| - 1];
      var m := Run(s, before);
      HoldBack(s, before);
      RunKeepsInvariant(s, before);
      CallKeepsInvariant(last.envs, m, last.Fresh());
      OfferHoldsBack(last.envs(0), s, m, last.Fresh(), e);
      DrainHoldsBack(last.envs, 1, s, Offer(last.envs(0), m, last.Fresh()), e);
    }
  }

  // ---- Progress -------------------------------------------------------------------------------

  // A tick settles an unsettled key as held exactly when its 16-bit age has reached the tapping term.
  lemma LateTickSettles(envs: nat -> Env, s: Machine, tick: Record)
    requires Invariant(s) && Unsettled(s.tapping) && Pending(tick) && IsTick(tick)
    ensures var late := TimerDiff16(tick.event.Time(), s.tapping.event.Time()) >= envs(0).tappingTerm(s.tapping);
      && Offer(envs(0), s, tick) == (if late then Machine(NO_KEY, s.ring, s.log + [s.tapping]) else s)
      && (late ==> s.log + [s.tapping] <= Call(envs, s, tick).log)
  {
    DrainLogGrows(envs, 1, Offer(envs(0), s, tick));
  }

  lemma {:induction false} DrainLogGrows(envs: nat -> Env, n: nat, s: Machine)
    ensures s.log <= Drain(envs, n, s).log
    decreases |s.ring|
  {
    if s.ring != [] {
      var o := DrainOne(envs(n), s);
      if o.consumed {
        DrainLogGrows(envs, n + 1, o.machine);
      }
    }
  }

  // Steps the machine may still have to take before it is idle.
  function Work(s: Machine): nat {
    3 * |s.ring| + if Unsettled(s.tapping) then 2 else if Released(s.tapping) then 1 else 0
  }

  // Calls that may still be needed before the queue is empty or a key is unsettled.
  function Turns(s: Machine): nat {
    if s.ring == [] then 0 else 2 * |s.ring| - if Released(s.tapping) then 0 else 1
  }

  lemma DrainOneWorks(env: Env, s: Machine)
    requires Invariant(s) && s.ring != []
    ensures var o := DrainOne(env, s);
      && Work(o.machine) <= Work(s)
      && Turns(o.machine) <= Turns(s)
      && (!Unsettled(s.tapping) ==> Work(o.machine) < Work(s) && Turns(o.machine) < Turns(s))
  {
  }

  lemma {:induction false} DrainWorks(envs: nat -> Env, n: nat, s: Machine)
    requires Invariant(s)
    ensures var s' := Drain(envs, n, s);
      && Work(s') <= Work(s)
      && Turns(s') <= Turns(s)
      && (s.ring != [] && !Unsettled(s.tapping) ==> Work(s') < Work(s) && Turns(s') < Turns(s))
    decreases |s.ring|
  {
    if s.ring != [] {
      DrainOneWorks(envs(n), s);
      DrainOneKeepsInvariant(envs(n), s);
      var o := DrainOne(envs(n), s);
      if o.consumed {
        DrainWorks(envs, n + 1, o.machine);
      }
    }
  }

  predicate Busy(s: Machine) { s.ring != [] || Unsettled(s.tapping) }

  // The tick reaches the tapping term of the key that is unsettled, if one is.
  predicate LateEnough(s: Machine, i: Input) {
    IsTick(i.Fresh()) && (Unsettled(s.tapping) ==> !WithinTappingTerm(i.envs(0), s.tapping, i.event))
  }

  lemma TickWorks(s: Machine, i: Input)
    requires Invariant(s) && Genuine(i.event) && IsTick(i.Fresh())
    ensures var s' := Call(i.envs, s, i.Fresh());
      && (LateEnough(s, i) && Busy(s) ==> Work(s') < Work(s))
      && (LateEnough(s, i) && !Busy(s) ==> !Busy(s'))
      && (s.ring != [] && !Unsettled(s.tapping) ==> Turns(s') < Turns(s))
  {
    CallKeepsInvariant(i.envs, s, i.Fresh());
    DrainWorks(i.envs, 1, Offer(i.envs(0), s, i.Fresh()));
  }

  ghost predicate LateTicks(s: Machine, inputs: seq<Input>) {
    forall j :: 0 <= j < |inputs| ==> LateEnough(Run(s, inputs[..j]), inputs[j])
  }

  lemma RunOne(s: Machine, inputs: seq<Input>, j: nat)
    requires j < |inputs|
    ensures Run(s, inputs[..j + 1]) == Call(inputs[j].envs, Run(s, inputs[..j]), inputs[j].Fresh())
  {
    assert inputs[..j + 1][..j] == inputs[..j];
  }

  // Ticks alone empty the machine: after Work(s) of them, at most 23, each late enough for the key that
  // is then unsettled, no event is queued and no key is unsettled.
  lemma {:induction false} TicksDrainEverything(s: Machine, inputs: seq<Input>)
    requires Invariant(s) && GenuineInputs(inputs) && LateTicks(s, inputs)
    ensures Work(s) <= 23
    ensures Busy(Run(s, inputs)) ==> Work(Run(s, inputs)) + |inputs| <= Work(s)
    ensures |inputs| >= Work(s) ==> !Busy(Run(s, inputs))
    decreases |inputs|
  {
    if inputs != [] {
      var j := |inputs| - 1;
      var before := inputs[..j];
      assert LateTicks(s, before) by {
        forall i | 0 <= i < j ensures LateEnough(Run(s, before[..i]), before[i]) {
          assert before[..i] == inputs[..i];
        }
      }
      TicksDrainEverything(s, before);
      RunKeepsInvariant(s, before);
      TickWorks(Run(s, before), inputs[j]);
      assert inputs[..j + 1] == inputs;
      RunOne(s, inputs, j);
    }
  }

  // Whatever their times, two ticks in a row take at least one event off the queue unless a key is
  // unsettled: n queued events need at most 2n ticks.
  lemma {:induction false} TwoTicksPerEvent(s: Machine, inputs: seq<Input>)
    requires Invariant(s) && GenuineInputs(inputs)
    requires forall i :: 0 <= i < |inputs| ==> IsTick(inputs[i].Fresh())
    requires forall m :: 0 <= m <= |inputs| ==>
      Run(s, inputs[..m]).ring != [] && !Unsettled(Run(s, inputs[..m]).tapping)
    ensures Turns(Run(s, inputs)) + |inputs| <= Turns(s) <= 2 * |s.ring|
    ensures |Run(s, inputs).ring| <= |s.ring| - |inputs| / 2
    ensures |inputs| < 2 * |s.ring|
    decreases |inputs|
  {
    assert inputs[..|inputs|] == inputs;
    if inputs != [] {
      var j := |inputs| - 1;
      var before := inputs[..j];
      forall m | 0 <= m <= |before|
        ensures Run(s, before[..m]).ring != [] && !Unsettled(Run(s, before[..m]).tapping)
      {
        assert before[..m] == inputs[..m];
      }
      TwoTicksPerEvent(s, before);
      RunKeepsInvariant(s, before);
      TickWorks(Run(s, before), inputs[j]);
      RunOne(s, inputs, j);
    }
  }
}
