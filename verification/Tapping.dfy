// The tap-hold state machine of quantum/action_tapping.c as functions on values.
//
// The machine holds one tapping key, a waiting queue and the log of records it has handed on for
// processing. Each call consults its environment (keymap, layer state, per-key settings), which may
// have changed arbitrarily since the previous call.
module Tapping {
  import opened Clock

  datatype Key = Key(row: nat, col: nat)

  datatype EventKind = TickEvent | KeyEvent

  // Physical events carry an identity; a release made up by the machine carries none.
  datatype Origin = Physical(id: nat) | Synthesised

  // `at` is the true instant in milliseconds; the machine sees its low 16 bits only.
  datatype Event = Event(kind: EventKind, key: Key, at: nat, pressed: bool, origin: Origin) {
    function Time(): u16 { at % WRAP16 }
  }

  datatype Tap = Tap(interrupted: bool, count: nat)

  datatype Record = Record(event: Event, tap: Tap)

  const UNTAPPED := Tap(false, 0)
  const NO_KEY := Record(Event(TickEvent, Key(0, 0), 0, false, Synthesised), UNTAPPED)
  const MAX_TAP_COUNT := 15
  const WAITING_BUFFER_SIZE := 8

  // What one call of process_tapping may learn about a record from the keymap and the settings.
  datatype Env = Env(
    isTap: Record -> bool,
    tappingTerm: Record -> nat,
    quickTapTerm: Record -> nat,
    permissiveHold: Record -> bool,
    holdOnOtherKeyPress: Record -> bool,
    retainRelease: Record -> bool)

  datatype Machine = Machine(tapping: Record, ring: seq<Record>, log: seq<Record>)

  // Result of offering one record: the machine, the record as mutated in place, and whether it was taken.
  datatype Outcome = Outcome(machine: Machine, record: Record, consumed: bool)

  const INITIAL := Machine(NO_KEY, [], [])

  predicate IsTick(r: Record) { r.event.kind.TickEvent? }

  predicate IsReset(t: Record) { IsTick(t) }

  // A tap-hold key that is down and not yet settled as a tap or a hold.
  predicate Unsettled(t: Record) {
    t.event.kind.KeyEvent? && t.event.pressed && t.tap.count == 0
  }

  // A tap-hold key that is down and has been settled as a tap.
  predicate Tapped(t: Record) {
    t.event.kind.KeyEvent? && t.event.pressed && t.tap.count > 0
  }

  predicate Released(t: Record) {
    t.event.kind.KeyEvent? && !t.event.pressed
  }

  predicate IsTapRecord(env: Env, r: Record) {
    !IsTick(r) && env.isTap(r)
  }

  predicate SameKey(a: Record, b: Record) { a.event.key == b.event.key }

  predicate WithinTappingTerm(env: Env, t: Record, e: Event) {
    TimerDiff16(e.Time(), t.event.Time()) < env.tappingTerm(t)
  }

  predicate WithinQuickTapTerm(env: Env, t: Record, e: Event) {
    TimerDiff16(e.Time(), t.event.Time()) < env.quickTapTerm(t)
  }

  // The queue holds the opposite transition of the same key.
  predicate Typed(ring: seq<Record>, e: Event) {
    exists i :: 0 <= i < |ring| && ring[i].event.key == e.key && ring[i].event.pressed != e.pressed
  }

  function Emit(s: Machine, r: Record): Machine {
    s.(log := s.log + [r])
  }

  // A queued release that settles the tapping key t as a tap.
  predicate TapCandidate(env: Env, t: Record, c: Record) {
    !IsTick(c) && SameKey(c, t) && !c.event.pressed && WithinTappingTerm(env, t, c.event)
  }

  // Index of the first candidate, or the length of the queue.
  function ScanIndex(env: Env, t: Record, ring: seq<Record>): (i: nat)
    ensures i <= |ring|
    ensures i < |ring| ==> TapCandidate(env, t, ring[i])
    ensures forall j :: 0 <= j < i ==> !TapCandidate(env, t, ring[j])
  {
    if ring == [] then 0
    else if TapCandidate(env, t, ring[0]) then 0
    else 1 + ScanIndex(env, t, ring[1..])
  }

  function SetCount(r: Record, n: nat): Record { r.(tap := r.tap.(count := n)) }

  // waiting_buffer_scan_tap: settle the tapping key as a tap when its release is already queued.
  function ScanTap(env: Env, s: Machine): Machine {
    var t := s.tapping;
    if t.tap.count > 0 || !t.event.pressed then s
    else
      var i := ScanIndex(env, t, s.ring);
      if i == |s.ring| then s
      else
        var tapped := SetCount(t, 1);
        Emit(s.(tapping := tapped, ring := s.ring[i := SetCount(s.ring[i], 1)]), tapped)
  }

  // The release the machine makes up for a multiply tapped key that another tap key displaces.
  function SynthesisedRelease(t: Record, at: nat): Record {
    Record(Event(t.event.kind, t.event.key, at, false, Synthesised), t.tap)
  }

  function Taken(s: Machine, r: Record): Outcome { Outcome(s, r, true) }

  function Refused(s: Machine, r: Record): Outcome { Outcome(s, r, false) }

  function ProcessReset(env: Env, s: Machine, r: Record): Outcome {
    if IsTick(r) then Taken(s, r)
    else if r.event.pressed && IsTapRecord(env, r) then Taken(ScanTap(env, s.(tapping := r)), r)
    else Taken(Emit(s, r), r)
  }

  function ProcessUnsettled(env: Env, s: Machine, r: Record): Outcome {
    var t := s.tapping;
    if !WithinTappingTerm(env, t, r.event) then
      Refused(Emit(s, t).(tapping := NO_KEY), r)
    else if IsTick(r) then Taken(s, r)
    else if SameKey(t, r) && !r.event.pressed then
      var tapped := SetCount(t, 1);
      Refused(Emit(s.(tapping := tapped), tapped), r.(tap := tapped.tap))
    else if !r.event.pressed && Typed(s.ring, r.event) && env.permissiveHold(t) then
      Refused(Emit(s, t).(tapping := NO_KEY), r)
    else if !r.event.pressed && !Typed(s.ring, r.event) then
      if env.retainRelease(r) then Refused(s, r) else Taken(Emit(s, r), r)
    else if r.event.pressed then
      var interrupted := t.(tap := t.tap.(interrupted := true));
      if env.holdOnOtherKeyPress(interrupted) then Refused(Emit(s, interrupted).(tapping := NO_KEY), r)
      else Refused(s.(tapping := interrupted), r)
    else Refused(s, r)
  }

  function ProcessTapped(env: Env, s: Machine, r: Record): Outcome {
    var t := s.tapping;
    if IsTick(r) then Taken(s, r)
    else if SameKey(t, r) && !r.event.pressed then
      var tapped := r.(tap := t.tap);
      var next := if WithinTappingTerm(env, t, r.event) then tapped else NO_KEY;
      Taken(Emit(s, tapped).(tapping := next), tapped)
    else if IsTapRecord(env, r) && r.event.pressed then
      var s' := if t.tap.count > 1 then Emit(s, SynthesisedRelease(t, r.event.at)) else s;
      Taken(ScanTap(env, s'.(tapping := r)), r)
    else Taken(Emit(s, r), r)
  }

  function ProcessReleased(env: Env, s: Machine, r: Record): Outcome {
    var t := s.tapping;
    if !WithinTappingTerm(env, t, r.event) then Refused(s.(tapping := NO_KEY), r)
    else if IsTick(r) then Taken(s, r)
    else if !r.event.pressed then Taken(Emit(s, r), r)
    else if SameKey(t, r) then
      if WithinQuickTapTerm(env, t, r.event) && !t.tap.interrupted && t.tap.count > 0 then
        var again := r.(tap := t.tap.(count := if t.tap.count < MAX_TAP_COUNT then t.tap.count + 1 else t.tap.count));
        Taken(Emit(s, again).(tapping := again), again)
      else Taken(s.(tapping := r), r)
    else if IsTapRecord(env, r) then Taken(ScanTap(env, s.(tapping := r)), r)
    else Taken(Emit(s.(tapping := t.(tap := t.tap.(interrupted := true))), r), r)
  }

  // process_tapping: offer one record to the machine.
  function Process(env: Env, s: Machine, r: Record): (o: Outcome)
    ensures |o.machine.ring| == |s.ring|
    ensures o.record.event == r.event
    ensures s.log <= o.machine.log
  {
    if IsReset(s.tapping) then ProcessReset(env, s, r)
    else if !s.tapping.event.pressed then ProcessReleased(env, s, r)
    else if s.tapping.tap.count == 0 then ProcessUnsettled(env, s, r)
    else ProcessTapped(env, s, r)
  }

  // One step of the loop that re-offers the head of the queue.
  function DrainOne(env: Env, s: Machine): (o: Outcome)
    requires s.ring != []
  {
    var o := Process(env, s, s.ring[0]);
    if o.consumed then o.(machine := o.machine.(ring := o.machine.ring[1..]))
    else o.(machine := o.machine.(ring := o.machine.ring[0 := o.record]))
  }

  // The loop at the end of action_tapping_process; call number n consults envs(n).
  function Drain(envs: nat -> Env, n: nat, s: Machine): (s': Machine)
    decreases |s.ring|
  {
    if s.ring == [] then s
    else
      var o := DrainOne(envs(n), s);
      if o.consumed then Drain(envs, n + 1, o.machine) else o.machine
  }

  // The first half of action_tapping_process: offer the record, queue it if it is refused, and forget
  // everything when the queue is full.
  function Offer(env: Env, s: Machine, r: Record): Machine {
    var o := Process(env, s, r);
    if o.consumed || IsTick(r) then o.machine
    else if |s.ring| == WAITING_BUFFER_SIZE - 1 then Machine(NO_KEY, [], o.machine.log)
    else o.machine.(ring := o.machine.ring + [o.record])
  }

  predicate Overflows(env: Env, s: Machine, r: Record) {
    !IsTick(r) && !Process(env, s, r).consumed && |s.ring| == WAITING_BUFFER_SIZE - 1
  }

  // action_tapping_process.
  function Call(envs: nat -> Env, s: Machine, r: Record): Machine {
    Drain(envs, 1, Offer(envs(0), s, r))
  }

  // One entry of a run: a fresh event and the environments seen while it is handled.
  datatype Input = Input(event: Event, envs: nat -> Env) {
    function Fresh(): Record { Record(event, UNTAPPED) }
  }

  function Run(s: Machine, inputs: seq<Input>): Machine
    decreases |inputs|
  {
    if inputs == [] then s
    else
      var last := inputs[|inputs| - 1];
      Call(last.envs, Run(s, inputs[..|inputs| - 1]), last.Fresh())
  }
}
