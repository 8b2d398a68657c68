// What every reachable state of the tap-hold machine satisfies, and what is conserved by a run.
module TappingInvariant {
  import opened Tapping

  // Events that reach action_tapping_process: ticks and physical key transitions.
  predicate Genuine(e: Event) {
    if e.kind.TickEvent? then !e.pressed else e.origin.Physical?
  }

  // A record on its way in: a press has never been touched, a release may have been marked as a tap.
  predicate Pending(r: Record) {
    Genuine(r.event) && r.tap.count <= MAX_TAP_COUNT && (r.event.pressed ==> r.tap == UNTAPPED)
  }

  predicate Queued(r: Record) { Pending(r) && !IsTick(r) }

  predicate Logged(r: Record) {
    !IsTick(r) && r.tap.count <= MAX_TAP_COUNT && (r.event.origin.Synthesised? ==> !r.event.pressed && r.tap.count > 1)
  }

  predicate TappingKeyOk(t: Record) {
    || t == NO_KEY
    || (&& t.event.kind.KeyEvent? && t.event.origin.Physical?
        && t.tap.count <= MAX_TAP_COUNT && (Released(t) ==> t.tap.count > 0))
  }

  ghost predicate Invariant(s: Machine) {
    && TappingKeyOk(s.tapping)
    && |s.ring| < WAITING_BUFFER_SIZE
    && (forall i :: 0 <= i < |s.ring| ==> Queued(s.ring[i]))
    && (forall i :: 0 <= i < |s.log| ==> Logged(s.log[i]))
  }

  // The queue may be marked by a call but holds the same events in the same order.
  predicate SameEvents(a: seq<Record>, b: seq<Record>) {
    |a| == |b| && forall i :: 0 <= i < |a| ==> a[i].event == b[i].event
  }

  lemma ScanKeepsInvariant(env: Env, s: Machine)
    ensures Invariant(s) ==> Invariant(ScanTap(env, s))
    ensures SameEvents(ScanTap(env, s).ring, s.ring)
  {
  }

  lemma ProcessKeepsInvariant(env: Env, s: Machine, r: Record)
    requires Invariant(s) && Pending(r)
    ensures Invariant(Process(env, s, r).machine)
    ensures !Process(env, s, r).consumed ==> Pending(Process(env, s, r).record)
    ensures SameEvents(Process(env, s, r).machine.ring, s.ring)
  {
    hide ScanTap, WithinTappingTerm, WithinQuickTapTerm, Typed;
    ScanKeepsInvariant(env, s.(tapping := r));
    ScanKeepsInvariant(env, Emit(s, SynthesisedRelease(s.tapping, r.event.at)).(tapping := r));
  }

  lemma DrainOneKeepsInvariant(env: Env, s: Machine)
    requires Invariant(s) && s.ring != []
    ensures Invariant(DrainOne(env, s).machine)
  {
    ProcessKeepsInvariant(env, s, s.ring[0]);
  }

  lemma {:induction false} DrainKeepsInvariant(envs: nat -> Env, n: nat, s: Machine)
    requires Invariant(s)
    ensures Invariant(Drain(envs, n, s))
    decreases |s.ring|
  {
    if s.ring != [] {
      DrainOneKeepsInvariant(envs(n), s);
      var o := DrainOne(envs(n), s);
      if o.consumed {
        DrainKeepsInvariant(envs, n + 1, o.machine);
      }
    }
  }

  lemma CallKeepsInvariant(envs: nat -> Env, s: Machine, r: Record)
    requires Invariant(s) && Pending(r)
    ensures Invariant(Offer(envs(0), s, r))
    ensures Invariant(Call(envs, s, r))
  {
    ProcessKeepsInvariant(envs(0), s, r);
    DrainKeepsInvariant(envs, 1, Offer(envs(0), s, r));
  }

  predicate GenuineInputs(inputs: seq<Input>) {
    forall i :: 0 <= i < |inputs| ==> Genuine(inputs[i].event)
  }

  // The invariant holds along every run, whatever the environments answer.
  lemma {:induction false} RunKeepsInvariant(s: Machine, inputs: seq<Input>)
    requires Invariant(s) && GenuineInputs(inputs)
    ensures Invariant(Run(s, inputs))
    decreases |inputs|
  {
    if inputs != [] {
      var last := inputs[|inputs| - 1];
      RunKeepsInvariant(s, inputs[..|inputs| - 1]);
      CallKeepsInvariant(last.envs, Run(s, inputs[..|inputs| - 1]), last.Fresh());
    }
  }

  // The reachable states: a released tapping key always counts at least one tap, counts fit in four
  // bits, queued presses are untouched, and the queue stays below the size of its array.
  lemma ReachableInvariant(inputs: seq<Input>)
    requires GenuineInputs(inputs)
    ensures var s := Run(INITIAL, inputs);
      && (Released(s.tapping) ==> s.tapping.tap.count > 0)
      && s.tapping.tap.count <= MAX_TAP_COUNT
      && |s.ring| < WAITING_BUFFER_SIZE
      && (forall i :: 0 <= i < |s.ring| ==>
            !IsTick(s.ring[i]) && (s.ring[i].event.pressed ==> s.ring[i].tap == UNTAPPED))
      && (forall i :: 0 <= i < |s.log| ==> !IsTick(s.log[i]) && s.log[i].tap.count <= MAX_TAP_COUNT)
  {
    RunKeepsInvariant(INITIAL, inputs);
  }

  // No call of the run finds the queue full when it has to queue its record.
  ghost predicate NeverOverflows(s: Machine, inputs: seq<Input>)
    decreases |inputs|
  {
    inputs == [] ||
    var last := inputs[|inputs| - 1];
    && NeverOverflows(s, inputs[..|inputs| - 1])
    && !Overflows(last.envs(0), Run(s, inputs[..|inputs| - 1]), last.Fresh())
  }

  // An overflow forgets the queue and the tapping key and leaves the initial state.
  lemma OverflowResets(envs: nat -> Env, s: Machine, r: Record)
    requires Invariant(s) && Pending(r) && Overflows(envs(0), s, r)
    ensures Call(envs, s, r) == INITIAL.(log := Process(envs(0), s, r).machine.log)
  {
  }

  // ---- HOLD_ON_OTHER_KEY_PRESS ----------------------------------------------------------------

  // Key k is configured to settle as held whenever another key is pressed.
  ghost predicate HoldsOnOther(env: Env, k: Key) {
    forall r: Record :: r.event.key == k ==> env.holdOnOtherKeyPress(r)
  }

  predicate InterruptedTap(r: Record, k: Key) {
    r.event.key == k && r.event.pressed && r.tap.count > 0 && r.tap.interrupted
  }

  ghost predicate NoInterruptedTap(s: Machine, k: Key) {
    && (Unsettled(s.tapping) && s.tapping.event.key == k ==> !s.tapping.tap.interrupted)
    && (forall i :: 0 <= i < |s.log| ==> !InterruptedTap(s.log[i], k))
  }

  lemma ProcessKeepsNoInterruptedTap(env: Env, s: Machine, r: Record, k: Key)
    requires Invariant(s) && Pending(r) && HoldsOnOther(env, k) && NoInterruptedTap(s, k)
    ensures NoInterruptedTap(Process(env, s, r).machine, k)
  {
    hide WithinTappingTerm, WithinQuickTapTerm, Typed;
  }

  lemma {:induction false} DrainKeepsNoInterruptedTap(envs: nat -> Env, n: nat, s: Machine, k: Key)
    requires Invariant(s) && NoInterruptedTap(s, k)
    requires forall m: nat :: HoldsOnOther(envs(m), k)
    ensures NoInterruptedTap(Drain(envs, n, s), k)
    decreases |s.ring|
  {
    if s.ring != [] {
      DrainOneKeepsInvariant(envs(n), s);
      ProcessKeepsNoInterruptedTap(envs(n), s, s.ring[0], k);
      var o := DrainOne(envs(n), s);
      if o.consumed {
        DrainKeepsNoInterruptedTap(envs, n + 1, o.machine, k);
      }
    }
  }

  // For a key that holds on other key presses, no press is handed on both counted as a tap and marked
  // interrupted, so the branch of process_action that cancels such a tap never runs.
  lemma {:induction false} TapCancelIsDead(inputs: seq<Input>, k: Key)
    requires GenuineInputs(inputs)
    requires forall i, m: nat :: 0 <= i < |inputs| ==> HoldsOnOther(inputs[i].envs(m), k)
    ensures NoInterruptedTap(Run(INITIAL, inputs), k)
  {
    if inputs != [] {
      var before := inputs[..|inputs| - 1];
      var last := inputs[|inputs| - 1];
      var s := Run(INITIAL, before);
      TapCancelIsDead(before, k);
      RunKeepsInvariant(INITIAL, before);
      CallKeepsInvariant(last.envs, s, last.Fresh());
      ProcessKeepsNoInterruptedTap(last.envs(0), s, last.Fresh(), k);
      DrainKeepsNoInterruptedTap(last.envs, 1, Offer(last.envs(0), s, last.Fresh()), k);
    }
  }
}
