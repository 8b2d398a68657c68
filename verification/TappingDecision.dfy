// When the tap-hold machine settles a key and how: the decisions in terms of the events' keys, times and
// directions and of the settings consulted.
module TappingDecision {
  import opened Clock
  import opened Tapping
  import opened TappingInvariant
  import opened TappingProgress

  // ---- What decides ---------------------------------------------------------------------------

  // Milliseconds from the press (or release) t to e, as far as 16 bits tell.
  function Age(t: Record, e: Event): nat {
    (e.at - t.event.at) % WRAP16
  }

  lemma AgeIs(t: Record, e: Event)
    ensures TimerDiff16(e.Time(), t.event.Time()) == Age(t, e)
  {
  }

  function Interrupted(t: Record): Record { t.(tap := t.tap.(interrupted := true)) }

  // r arrives too late, releases another key whose press is queued (permissive hold), or presses a key
  // (hold on other key press).
  predicate HoldDecided(env: Env, t: Record, ring: seq<Record>, r: Record) {
    || Age(t, r.event) >= env.tappingTerm(t)
    || (&& !IsTick(r) && !r.event.pressed && r.event.key != t.event.key
        && PressQueued(ring, r.event.key) && env.permissiveHold(t))
    || (!IsTick(r) && r.event.pressed && env.holdOnOtherKeyPress(Interrupted(t)))
  }

  // r is the key's own release within its term.
  predicate TapDecided(env: Env, t: Record, r: Record) {
    !IsTick(r) && !r.event.pressed && r.event.key == t.event.key && Age(t, r.event) < env.tappingTerm(t)
  }

  // The release of a key none of whose presses is queued, and that need not be kept to the end of the tap.
  predicate Passes(env: Env, ring: seq<Record>, r: Record) {
    !IsTick(r) && !r.event.pressed && !PressQueued(ring, r.event.key) && !env.retainRelease(r)
  }

  // ---- One offer ------------------------------------------------------------------------------

  // Between s and s' exactly one record was handed on, the press of s's tapping key counted n times.
  predicate SettledAs(s: Machine, s': Machine, n: nat) {
    && |s'.log| == |s.log| + 1 && s.log <= s'.log
    && s'.log[|s.log|].event == s.tapping.event && s'.log[|s.log|].tap.count == n
  }

  lemma TypedIsPressQueued(ring: seq<Record>, e: Event)
    requires !e.pressed
    ensures Typed(ring, e) <==> PressQueued(ring, e.key)
  {
  }

  // An unsettled key is settled as held exactly when one of the three conditions holds of the record
  // offered, and as tapped exactly when that is its own release within the term. Otherwise it stays
  // unsettled, and a press marks it as interrupted.
  lemma OfferDecides(env: Env, s: Machine, r: Record)
    requires Invariant(s) && Pending(r) && Unsettled(s.tapping)
    ensures var t, s' := s.tapping, Offer(env, s, r);
      && (HoldDecided(env, t, s.ring, r) <==> SettledAs(s, s', 0))
      && (TapDecided(env, t, r) <==> SettledAs(s, s', 1))
      && (SettledAs(s, s', 0) ==> s'.tapping == NO_KEY)
      && (SettledAs(s, s', 1) && !Overflows(env, s, r) ==> s'.tapping == t.(tap := t.tap.(count := 1)))
      && (!SettledAs(s, s', 0) && !SettledAs(s, s', 1) && !Overflows(env, s, r) ==>
            s'.tapping == if r.event.pressed then Interrupted(t) else t)
  {
    AgeIs(s.tapping, r.event);
    if !r.event.pressed {
      TypedIsPressQueued(s.ring, r.event);
    }
  }

  // The record that settles a key is queued behind the others; the key's own release is marked with the tap.
  lemma DecidedIsQueued(env: Env, s: Machine, r: Record)
    requires Invariant(s) && Pending(r) && Unsettled(s.tapping) && Decides(env, s.tapping, s.ring, r)
    requires !Overflows(env, s, r)
    ensures var tap := s.tapping.tap.(count := 1);
      Offer(env, s, r).ring == s.ring + if IsTick(r) then []
                                        else if TapDecided(env, s.tapping, r) then [r.(tap := tap)] else [r]
  {
    AgeIs(s.tapping, r.event);
    if !r.event.pressed {
      TypedIsPressQueued(s.ring, r.event);
    }
  }

  predicate Decides(env: Env, t: Record, ring: seq<Record>, r: Record) {
    HoldDecided(env, t, ring, r) || TapDecided(env, t, r)
  }

  // A record that settles nothing is handed on at once exactly when it is the release of a key none of
  // whose presses is queued and need not be retained. A tick is dropped; everything else is queued behind
  // what waits already, or, if that fills the queue, forgotten with it.
  lemma OfferPasses(env: Env, s: Machine, r: Record)
    requires Invariant(s) && Pending(r) && Unsettled(s.tapping) && !Decides(env, s.tapping, s.ring, r)
    ensures var s' := Offer(env, s, r);
      && (Passes(env, s.ring, r) <==> s'.log == s.log + [r])
      && (!Passes(env, s.ring, r) ==> s'.log == s.log)
      && s'.ring == (if IsTick(r) || Passes(env, s.ring, r) then s.ring
                     else if |s.ring| == WAITING_BUFFER_SIZE - 1 then []
                     else s.ring + [r])
  {
    AgeIs(s.tapping, r.event);
    if !r.event.pressed {
      TypedIsPressQueued(s.ring, r.event);
    }
  }

  // ---- A whole call ---------------------------------------------------------------------------

  datatype Verdict = AsHold | AsTap | Undecided

  // What the records handed on say about the key that was unsettled: its press is the first press among them.
  function Told(rs: seq<Record>): Verdict {
    if rs == [] then Undecided
    else if rs[0].event.pressed then if rs[0].tap.count == 0 then AsHold else AsTap
    else Told(rs[1..])
  }

  // What the queue says once it is offered again: its first record that decides, unless one before it has to stay.
  function QueueVerdict(envs: nat -> Env, n: nat, t: Record, ring: seq<Record>): Verdict
    decreases |ring|
  {
    if ring == [] then Undecided
    else if HoldDecided(envs(n), t, ring, ring[0]) then AsHold
    else if TapDecided(envs(n), t, ring[0]) then AsTap
    else if Passes(envs(n), ring, ring[0]) then QueueVerdict(envs, n + 1, t, ring[1..])
    else Undecided
  }

  // The new records of a log.
  function Since(s: Machine, s': Machine): seq<Record>
    requires s.log <= s'.log
  {
    s'.log[|s.log|..]
  }

  lemma {:induction false} ToldPrefix(a: seq<Record>, b: seq<Record>)
    ensures Told(a) != Undecided ==> Told(a + b) == Told(a)
    ensures Told(a) == Undecided ==> Told(a + b) == Told(b)
  {
    if a == [] {
      assert a + b == b;
    } else {
      ToldPrefix(a[1..], b);
      assert (a + b)[1..] == a[1..] + b;
    }
  }

  lemma SettledTells(s: Machine, s': Machine, n: nat)
    requires SettledAs(s, s', n) && s.tapping.event.pressed
    ensures s.log <= s'.log && Told(Since(s, s')) == if n == 0 then AsHold else AsTap
  {
    assert Since(s, s') == [s'.log[|s.log|]];
  }

  lemma PassesReleases(env: Env, ring: seq<Record>, r: Record)
    requires Passes(env, ring, r)
    ensures !r.event.pressed
  {
  }

  // One turn of the draining loop while t is unsettled.
  lemma DrainOneDecides(env: Env, s: Machine)
    requires Invariant(s) && Unsettled(s.tapping) && s.ring != []
    ensures var t, r, o := s.tapping, s.ring[0], DrainOne(env, s);
      if HoldDecided(env, t, s.ring, r) then !o.consumed && SettledAs(s, o.machine, 0)
      else if TapDecided(env, t, r) then !o.consumed && SettledAs(s, o.machine, 1)
      else if Passes(env, s.ring, r) then o.consumed && o.machine == Machine(t, s.ring[1..], s.log + [r])
      else !o.consumed && o.machine.log == s.log
           && Unsettled(o.machine.tapping) && o.machine.tapping.event == t.event
  {
    AgeIs(s.tapping, s.ring[0].event);
    if !s.ring[0].event.pressed {
      TypedIsPressQueued(s.ring, s.ring[0].event);
    }
  }

  lemma {:induction false} DrainTells(envs: nat -> Env, n: nat, s: Machine)
    requires Invariant(s) && Unsettled(s.tapping)
    ensures var s' := Drain(envs, n, s);
      && s.log <= s'.log && Told(Since(s, s')) == QueueVerdict(envs, n, s.tapping, s.ring)
      && (Told(Since(s, s')) == Undecided ==> Unsettled(s'.tapping) && s'.tapping.event == s.tapping.event)
    decreases |s.ring|
  {
    hide DrainOne, HoldDecided, TapDecided, Passes, SettledAs, Invariant;
    DrainLogGrows(envs, n, s);
    var s' := Drain(envs, n, s);
    if s.ring == [] {
      assert Since(s, s') == [];
    } else {
      var r, o := s.ring[0], DrainOne(envs(n), s);
      DrainOneKeepsInvariant(envs(n), s);
      DrainOneDecides(envs(n), s);
      if HoldDecided(envs(n), s.tapping, s.ring, r) {
        SettledTells(s, o.machine, 0);
      } else if TapDecided(envs(n), s.tapping, r) {
        SettledTells(s, o.machine, 1);
      } else if Passes(envs(n), s.ring, r) {
        DrainTells(envs, n + 1, o.machine);
        PassesReleases(envs(n), s.ring, r);
        PassedTells(s, o.machine, s', r);
      } else {
        assert Since(s, s') == [];
      }
    }
  }

  // Handing on a release tells nothing.
  lemma PassedTells(s: Machine, m: Machine, s': Machine, r: Record)
    requires m.log == s.log + [r] && m.log <= s'.log && !r.event.pressed
    ensures s.log <= s'.log && Told(Since(s, s')) == Told(Since(m, s'))
  {
    assert Since(s, s') == [r] + Since(m, s');
    ToldPrefix([r], Since(m, s'));
  }

  // The queue as it is offered again after a record that settled nothing.
  function QueueAfter(env: Env, ring: seq<Record>, r: Record): seq<Record> {
    if IsTick(r) || Passes(env, ring, r) then ring
    else if |ring| == WAITING_BUFFER_SIZE - 1 then []
    else ring + [r]
  }

  // A call settles an unsettled key as the record does, or else as the queue does, or not at all.
  lemma CallDecides(envs: nat -> Env, s: Machine, r: Record)
    requires Invariant(s) && Pending(r) && Unsettled(s.tapping)
    ensures var t, s' := s.tapping, Call(envs, s, r);
      && s.log <= s'.log
      && Told(Since(s, s')) ==
           (if HoldDecided(envs(0), t, s.ring, r) then AsHold
            else if TapDecided(envs(0), t, r) then AsTap
            else QueueVerdict(envs, 1, if r.event.pressed then Interrupted(t) else t,
                              QueueAfter(envs(0), s.ring, r)))
      && (Told(Since(s, s')) == Undecided && !Overflows(envs(0), s, r) ==>
            Unsettled(s'.tapping) && s'.tapping.event == t.event)
  {
    hide HoldDecided, TapDecided, Passes, Process, SettledAs, Offer, Drain, Invariant, Overflows;
    var t, m, s' := s.tapping, Offer(envs(0), s, r), Call(envs, s, r);
    CallKeepsInvariant(envs, s, r);
    OfferDecides(envs(0), s, r);
    DrainLogGrows(envs, 1, m);
    if HoldDecided(envs(0), t, s.ring, r) {
      SettledTells(s, m, 0);
      ToldFirst(s, m, s');
    } else if TapDecided(envs(0), t, r) {
      SettledTells(s, m, 1);
      ToldFirst(s, m, s');
    } else {
      OfferPasses(envs(0), s, r);
      if Overflows(envs(0), s, r) {
        OverflowForgets(envs, s, r);
      } else {
        DrainTells(envs, 1, m);
        if Passes(envs(0), s.ring, r) {
          PassesReleases(envs(0), s.ring, r);
          PassedTells(s, m, s', r);
        } else {
          assert Since(s, s') == Since(m, s');
        }
      }
    }
  }

  // What came first decides.
  lemma ToldFirst(s: Machine, m: Machine, s': Machine)
    requires s.log <= m.log <= s'.log && Told(Since(s, m)) != Undecided
    ensures Told(Since(s, s')) == Told(Since(s, m))
  {
    assert Since(s, s') == Since(s, m) + Since(m, s');
    ToldPrefix(Since(s, m), Since(m, s'));
  }

  lemma OverflowForgets(envs: nat -> Env, s: Machine, r: Record)
    requires Invariant(s) && Pending(r) && Unsettled(s.tapping) && !Decides(envs(0), s.tapping, s.ring, r)
    requires Overflows(envs(0), s, r)
    ensures Call(envs, s, r).log == s.log && QueueAfter(envs(0), s.ring, r) == []
  {
    OfferPasses(envs(0), s, r);
  }

  // ---- While no key is unsettled --------------------------------------------------------------

  // The queue holds the release of the key that r presses, in time for r's term.
  predicate ReleaseQueued(env: Env, ring: seq<Record>, r: Record) {
    exists i :: 0 <= i < |ring| && TapDecided(env, r, ring[i])
  }

  // Between s and s' exactly the records rs were handed on.
  predicate HandsOn(s: Machine, s': Machine, rs: seq<Record>) {
    s'.log == s.log + rs
  }

  lemma ScanDecides(env: Env, s: Machine)
    requires Invariant(s) && Unsettled(s.tapping)
    ensures var s' := ScanTap(env, s);
      if ReleaseQueued(env, s.ring, s.tapping)
      then s'.tapping == SetCount(s.tapping, 1) && HandsOn(s, s', [SetCount(s.tapping, 1)])
      else s' == s
  {
    var t, i := s.tapping, ScanIndex(env, s.tapping, s.ring);
    forall j | 0 <= j < |s.ring| ensures TapCandidate(env, t, s.ring[j]) <==> TapDecided(env, t, s.ring[j]) {
      AgeIs(t, s.ring[j].event);
    }
    if i < |s.ring| {
      assert TapDecided(env, t, s.ring[i]);
    }
  }

  // The release made up for t at the time of e.
  predicate MadeUp(x: Record, t: Record, e: Event) {
    && x.event.key == t.event.key && !x.event.pressed && x.event.origin.Synthesised?
    && x.event.at == e.at && x.tap == t.tap
  }

  // A press while no key is down unsettled and none is remembered: a tap-hold key is held back unsettled, or
  // settled at once as a tap when its release is queued in time; any other key is handed on as it came. A key
  // still down after several taps is released first.
  lemma PressStarts(env: Env, s: Machine, r: Record)
    requires Invariant(s) && Pending(r) && r.event.pressed && !Unsettled(s.tapping) && !Released(s.tapping)
    ensures var t, s' := s.tapping, Offer(env, s, r);
      if !env.isTap(r) then s' == s.(log := s.log + [r])
      else
        && |s'.ring| == |s.ring|
        && s'.tapping == SetCount(r, if ReleaseQueued(env, s.ring, r) then 1 else 0)
        && exists made: seq<Record> ::
             && HandsOn(s, s', made + if ReleaseQueued(env, s.ring, r) then [s'.tapping] else [])
             && (if Tapped(t) && t.tap.count > 1 then |made| == 1 && MadeUp(made[0], t, r.event) else made == [])
  {
    var t := s.tapping;
    if env.isTap(r) {
      var made := if Tapped(t) && t.tap.count > 1 then [SynthesisedRelease(t, r.event.at)] else [];
      var held := s.(tapping := r, log := s.log + made);
      ScanKeepsInvariant(env, held);
      ScanDecides(env, held);
      assert Offer(env, s, r) == ScanTap(env, held);
      assert HandsOn(s, ScanTap(env, held), made + if ReleaseQueued(env, s.ring, r) then [SetCount(r, 1)] else []);
    }
  }

  // A release while no key is unsettled is handed on: that of the key down as a tap with the press's tap, any
  // other as it came. The tapping key is remembered exactly when it was released within its term.
  lemma ReleaseHandedOn(env: Env, s: Machine, r: Record)
    requires Invariant(s) && Queued(r) && !r.event.pressed && !Unsettled(s.tapping)
    requires Released(s.tapping) ==> Age(s.tapping, r.event) < env.tappingTerm(s.tapping)
    ensures var t, s' := s.tapping, Offer(env, s, r);
      var own := Tapped(t) && SameKey(t, r);
      && HandsOn(s, s', [if own then r.(tap := t.tap) else r]) && s'.ring == s.ring
      && (own ==> s'.tapping == if Age(t, r.event) < env.tappingTerm(t) then r.(tap := t.tap) else NO_KEY)
      && (!own ==> s'.tapping == t)
  {
    AgeIs(s.tapping, r.event);
  }

  // ---- After a tap ----------------------------------------------------------------------------

  // The released key t pressed again soon enough, with no other key in between, to go on as a tap.
  predicate TapsOn(env: Env, t: Record, r: Record) {
    && Age(t, r.event) < env.tappingTerm(t) && Age(t, r.event) < env.quickTapTerm(t)
    && !t.tap.interrupted
  }

  // A released key pressed again within its term: within the quick-tap term, and not interrupted, the press is
  // handed on at once counting one tap more, up to 15; otherwise it starts over unsettled, and nothing is
  // handed on.
  lemma RepeatedPress(env: Env, s: Machine, r: Record)
    requires Invariant(s) && Pending(r) && r.event.pressed && Released(s.tapping) && SameKey(s.tapping, r)
    requires Age(s.tapping, r.event) < env.tappingTerm(s.tapping)
    ensures var t, s' := s.tapping, Offer(env, s, r);
      var more := r.(tap := Tap(false, if t.tap.count == MAX_TAP_COUNT then MAX_TAP_COUNT else t.tap.count + 1));
      && s'.ring == s.ring
      && (TapsOn(env, t, r) <==> HandsOn(s, s', [more]))
      && (!TapsOn(env, t, r) <==> HandsOn(s, s', []))
      && s'.tapping == if TapsOn(env, t, r) then more else r
  {
    AgeIs(s.tapping, r.event);
  }

  // Another key pressed within the term of a released one: a tap-hold key takes its place, any other is handed
  // on as it came and leaves the released key interrupted.
  lemma OtherPressAfterTap(env: Env, s: Machine, r: Record)
    requires Invariant(s) && Pending(r) && r.event.pressed && Released(s.tapping) && !SameKey(s.tapping, r)
    requires Age(s.tapping, r.event) < env.tappingTerm(s.tapping)
    ensures var t, s' := s.tapping, Offer(env, s, r);
      if !env.isTap(r) then s' == Machine(Interrupted(t), s.ring, s.log + [r])
      else
        var tapped := ReleaseQueued(env, s.ring, r);
        && s'.tapping == SetCount(r, if tapped then 1 else 0)
        && HandsOn(s, s', if tapped then [s'.tapping] else [])
  {
    AgeIs(s.tapping, r.event);
    if env.isTap(r) {
      ScanDecides(env, s.(tapping := r));
    }
  }

  // Past its term a released key is forgotten, whatever comes. The record waits its turn in the queue.
  lemma TapForgotten(env: Env, s: Machine, r: Record)
    requires Invariant(s) && Pending(r) && Released(s.tapping)
    requires Age(s.tapping, r.event) >= env.tappingTerm(s.tapping)
    ensures var s' := Offer(env, s, r);
      && s'.tapping == NO_KEY && s'.log == s.log
      && s'.ring == if IsTick(r) then s.ring else if |s.ring| == WAITING_BUFFER_SIZE - 1 then [] else s.ring + [r]
  {
    AgeIs(s.tapping, r.event);
  }

  // A tick in time changes nothing.
  lemma TickInTime(env: Env, s: Machine, r: Record)
    requires Invariant(s) && Pending(r) && IsTick(r)
    requires Unsettled(s.tapping) || Released(s.tapping) ==> Age(s.tapping, r.event) < env.tappingTerm(s.tapping)
    ensures Offer(env, s, r) == s
  {
    AgeIs(s.tapping, r.event);
  }

  // ---- Calls ----------------------------------------------------------------------------------

  // What a key pressed again does in a whole call: the first press handed on is its own counting more than one
  // tap exactly when it taps on; when it starts over, the queue decides about it.
  lemma RepeatedPressDecides(envs: nat -> Env, s: Machine, r: Record)
    requires Invariant(s) && Pending(r) && r.event.pressed && Released(s.tapping) && SameKey(s.tapping, r)
    requires Age(s.tapping, r.event) < envs(0).tappingTerm(s.tapping)
    ensures var t, s' := s.tapping, Call(envs, s, r);
      && s.log <= s'.log
      && (TapsOn(envs(0), t, r) ==>
            && |s'.log| > |s.log| && s'.log[|s.log|].event == r.event
            && s'.log[|s.log|].tap == Tap(false, if t.tap.count == 15 then 15 else t.tap.count + 1))
      && (!TapsOn(envs(0), t, r) ==> Told(Since(s, s')) == QueueVerdict(envs, 1, r, s.ring))
      && (!TapsOn(envs(0), t, r) && s.ring == [] ==> s' == s.(tapping := r))
  {
    RepeatedPress(envs(0), s, r);
    CallKeepsInvariant(envs, s, r);
    var m := Offer(envs(0), s, r);
    DrainLogGrows(envs, 1, m);
    if !TapsOn(envs(0), s.tapping, r) {
      DrainTells(envs, 1, m);
    }
  }

  // ---- A key tapped while a tap-hold key is down -------------------------------------------------

  function Down(k: Key, at: nat): Record { Record(Event(KeyEvent, k, at, true, Physical(at)), UNTAPPED) }

  function Up(k: Key, at: nat): Record { Record(Event(KeyEvent, k, at, false, Physical(at)), UNTAPPED) }

  // Only key p is a tap-hold key, with one term, and it does not hold on other key presses.
  ghost predicate OneTapKey(env: Env, p: Key, term: nat, permissive: bool) {
    forall r: Record ::
      && (env.isTap(r) <==> r.event.key == p) && env.tappingTerm(r) == term
      && env.permissiveHold(r) == permissive && !env.holdOnOtherKeyPress(r)
  }

  function Always(env: Env): nat -> Env { _ => env }

  // What one call does to a machine that only these few records reach.
  lemma FirstPress(env: Env, p: Key, at: nat, term: nat, permissive: bool)
    requires OneTapKey(env, p, term, permissive)
    ensures Call(Always(env), INITIAL, Down(p, at)) == Machine(Down(p, at), [], [])
  {
    PressStarts(env, INITIAL, Down(p, at));
  }

  // The press of another key in time waits.
  lemma NestedPress(env: Env, p: Key, a: Key, at: nat, t: nat, term: nat, permissive: bool)
    requires OneTapKey(env, p, term, permissive) && a != p && at <= t < at + term && t < at + WRAP16
    ensures Call(Always(env), Machine(Down(p, at), [], []), Down(a, t))
         == Machine(Interrupted(Down(p, at)), [Down(a, t)], [])
  {
    var s := Machine(Down(p, at), [], []);
    var s' := Machine(Interrupted(Down(p, at)), [Down(a, t)], []);
    TimerDiff16IsAge(t, at);
    assert Offer(env, s, Down(a, t)) == s';
    assert DrainOne(env, s') == Outcome(s', Down(a, t), false);
  }

  // With no tapping key the queue is handed on as it is up to the next press of a tap-hold key.
  lemma {:induction false} IdleDrains(env: Env, n: nat, s: Machine)
    requires s.tapping == NO_KEY
    requires forall i :: 0 <= i < |s.ring| ==>
      !IsTick(s.ring[i]) && (s.ring[i].event.pressed ==> !env.isTap(s.ring[i]))
    ensures Drain(Always(env), n, s) == Machine(NO_KEY, [], s.log + s.ring)
    decreases |s.ring|
  {
    if s.ring == [] {
      assert s.log + s.ring == s.log;
    } else {
      var next := Machine(NO_KEY, s.ring[1..], s.log + [s.ring[0]]);
      assert DrainOne(env, s) == Outcome(next, s.ring[0], true);
      IdleDrains(env, n + 1, next);
      assert next.log + next.ring == s.log + s.ring;
    }
  }

  // Its release settles the tap-hold key as held under permissive hold, and otherwise waits too.
  lemma NestedRelease(env: Env, p: Key, a: Key, at: nat, t: nat, u: nat, term: nat, permissive: bool)
    requires OneTapKey(env, p, term, permissive) && a != p && at <= t <= u < at + term && u < at + WRAP16
    ensures Call(Always(env), Machine(Interrupted(Down(p, at)), [Down(a, t)], []), Up(a, u)) ==
      if permissive then Machine(NO_KEY, [], [Interrupted(Down(p, at)), Down(a, t), Up(a, u)])
      else Machine(Interrupted(Down(p, at)), [Down(a, t), Up(a, u)], [])
  {
    var p', d, r := Interrupted(Down(p, at)), Down(a, t), Up(a, u);
    var s := Machine(p', [d], []);
    TimerDiff16IsAge(u, at);
    TimerDiff16IsAge(t, at);
    assert s.ring[0] == d;
    assert Typed(s.ring, r.event);
    if permissive {
      var s1 := Machine(NO_KEY, [d, r], [p']);
      assert Offer(env, s, r) == s1;
      IdleDrains(env, 1, s1);
    } else {
      var s1 := Machine(p', [d, r], []);
      assert Offer(env, s, r) == s1;
      assert DrainOne(env, s1) == Outcome(s1, d, false);
    }
  }

  // The release of the tap-hold key itself in time.
  lemma OwnRelease(env: Env, p: Key, a: Key, at: nat, t: nat, u: nat, v: nat, term: nat)
    requires OneTapKey(env, p, term, false) && a != p
    requires at <= t <= u <= v < at + WRAP16 && v < at + term
    ensures var tap := Tap(true, 1);
      Call(Always(env), Machine(Interrupted(Down(p, at)), [Down(a, t), Up(a, u)], []), Up(p, v)) ==
      Machine(Up(p, v).(tap := tap), [],
              [Down(p, at).(tap := tap), Down(a, t), Up(a, u), Up(p, v).(tap := tap)])
  {
    var tap := Tap(true, 1);
    var p1, d, r, p2 := Down(p, at).(tap := tap), Down(a, t), Up(a, u), Up(p, v).(tap := tap);
    var s := Machine(Interrupted(Down(p, at)), [d, r], []);
    var s1 := Machine(p1, [d, r, p2], [p1]);
    var s2 := Machine(p1, [r, p2], [p1, d]);
    var s3 := Machine(p1, [p2], [p1, d, r]);
    var s4 := Machine(p2, [], [p1, d, r, p2]);
    TimerDiff16IsAge(v, at);
    assert Offer(env, s, Up(p, v)) == s1;
    assert DrainOne(env, s1) == Outcome(s2, d, true);
    assert DrainOne(env, s2) == Outcome(s3, r, true);
    assert DrainOne(env, s3) == Outcome(s4, p2, true);
    assert Drain(Always(env), 4, s4) == s4;
    assert Drain(Always(env), 2, s2) == s4;
  }

  // A key tapped while a tap-hold key is down, and that key released afterwards: the four events are handed on
  // in the order they came, and the tap-hold key counts as tapped exactly when it is not set to permissive hold
  // and is released within its term.
  lemma NestedTap(env: Env, p: Key, a: Key, at: nat, t: nat, u: nat, v: nat, term: nat, permissive: bool)
    requires OneTapKey(env, p, term, permissive) && a != p
    requires at <= t <= u <= v < at + WRAP16 && u < at + term
    ensures var e := Always(env);
      var s := Call(e, Call(e, Call(e, Call(e, INITIAL, Down(p, at)), Down(a, t)), Up(a, u)), Up(p, v));
      var tapped := !permissive && v < at + term;
      && s.ring == []
      && s.log == [Down(p, at).(tap := Tap(true, if tapped then 1 else 0)), Down(a, t), Up(a, u),
                   Up(p, v).(tap := if tapped then Tap(true, 1) else UNTAPPED)]
  {
    FirstPress(env, p, at, term, permissive);
    NestedPress(env, p, a, at, t, term, permissive);
    NestedRelease(env, p, a, at, t, u, term, permissive);
    if !permissive && v < at + term {
      OwnRelease(env, p, a, at, t, u, v, term);
    } else if !permissive {
      var p', d, r, p2 := Interrupted(Down(p, at)), Down(a, t), Up(a, u), Up(p, v);
      TimerDiff16IsAge(v, at);
      assert Offer(env, Machine(p', [d, r], []), p2) == Machine(NO_KEY, [d, r, p2], [p']);
      IdleDrains(env, 1, Machine(NO_KEY, [d, r, p2], [p']));
    }
  }
}
