// When agreement fails: the release of an unsettled key that arrives while an earlier event of the same
// key is still queued.
module TappingExact {
  import opened Tapping
  import opened TappingInvariant
  import opened TappingOrder
  import opened TappingAgreement

  // ---- The exact condition ------------------------------------------------------------------------

  // Everything is late and no tap key.
  const LATE := Env(_ => false, _ => 0, _ => 0, _ => false, _ => false, _ => false)

  function ThenLate(first: Env): nat -> Env {
    n => if n == 0 then first else LATE
  }

  // The queue of key k ends with a marked release whose press is queued unmarked, so it must disagree.
  predicate Doomed(st: KeyState, t: Record, q: seq<Record>, k: Key) {
    || st.Broken?
    || (&& q != [] && !q[|q| - 1].event.pressed && Marked(q[|q| - 1])
        && (forall i :: 0 <= i < |q| - 1 ==> !Marked(q[i]))
        && (forall i :: 0 <= i < |q| ==> q[i].event.pressed == (st.Up? == (i % 2 == 0)) && q[i].event.origin.Physical?)
        && !st.Freed?
        && (TappedHere(t, k) || t == NO_KEY)
        && (TappedHere(t, k) ==> |q| > 1 && st.Down? && st.tap.count > 0)
        && (t == NO_KEY && st.Down? ==> st.tap.count == 0))
  }

  lemma DoomedTakesNext(st: KeyState, t: Record, q: seq<Record>, k: Key)
    requires q != [] && Doomed(st, t, q, k) && !IsTick(q[0])
    ensures var y := if TappedHere(t, k) then q[0].(tap := t.tap) else q[0];
      Doomed(Advance(st, y), NO_KEY, q[1..], k)
  {
    var y := if TappedHere(t, k) then q[0].(tap := t.tap) else q[0];
    assert forall i :: 0 <= i < |q| - 1 ==> q[1..][i] == q[i + 1];
  }

  // What the late environment does to the head of the queue.
  function LateTake(t: Record, r: Record): Record {
    if Tapped(t) && SameKey(t, r) && !r.event.pressed then r.(tap := t.tap) else r
  }

  lemma LateDrainOne(s: Machine)
    requires Invariant(s) && s.ring != [] && (s.tapping == NO_KEY || Tapped(s.tapping))
    ensures var y := LateTake(s.tapping, s.ring[0]);
      var t' := if y != s.ring[0] || (Tapped(s.tapping) && SameKey(s.tapping, y) && !y.event.pressed)
                then NO_KEY else s.tapping;
      DrainOne(LATE, s) == Outcome(Machine(t', s.ring[1..], s.log + [y]), y, true)
  {
  }

  lemma LateStep(s: Machine, k: Key)
    requires Invariant(s) && s.ring != [] && (s.tapping == NO_KEY || TappedHere(s.tapping, k))
    requires Doomed(StateOf(s.log, k), s.tapping, OfKey(s.ring, k), k)
    ensures var s' := DrainOne(LATE, s).machine;
      && (s'.tapping == NO_KEY || TappedHere(s'.tapping, k))
      && Doomed(StateOf(s'.log, k), s'.tapping, OfKey(s'.ring, k), k)
  {
    var r := s.ring[0];
    var st, q := StateOf(s.log, k), OfKey(s.ring[1..], k);
    var y := LateTake(s.tapping, r);
    LateDrainOne(s);
    OfKeyTail(s.ring, k);
    StateAppend(s.log, y, k);
    if r.event.key == k && !st.Broken? {
      assert OfKey(s.ring, k) == [r] + q;
      assert ([r] + q)[0] == r && ([r] + q)[1..] == q;
      DoomedTakesNext(st, s.tapping, [r] + q, k);
    } else if r.event.key != k {
      assert OfKey(s.ring, k) == q;
    }
  }

  lemma {:induction false} LateDrainBreaks(envs: nat -> Env, n: nat, s: Machine, k: Key)
    requires Invariant(s) && n > 0 && envs == ThenLate(envs(0))
    requires s.tapping == NO_KEY || TappedHere(s.tapping, k)
    requires Doomed(StateOf(s.log, k), s.tapping, OfKey(s.ring, k), k)
    ensures StateOf(Drain(envs, n, s).log, k).Broken?
    decreases |s.ring|
  {
    if s.ring != [] {
      DrainOneKeepsInvariant(LATE, s);
      LateDrainOne(s);
      LateStep(s, k);
      LateDrainBreaks(envs, n + 1, DrainOne(LATE, s).machine, k);
    }
  }

  lemma {:induction false} OfKeyOrigin(rs: seq<Record>, k: Key)
    ensures forall i :: 0 <= i < |OfKey(rs, k)| ==> Concerns(OfKey(rs, k)[i], k)
  {
    if rs != [] {
      OfKeyOrigin(rs[..|rs| - 1], k);
    }
  }

  // The held press t is settled on release r although q is queued in between.
  lemma SettlingTooEarlyDooms(st: KeyState, t: Record, q: seq<Record>, r: Record, x: Record, k: Key)
    requires AgreesWith(st, t, [t] + q + [r], k) && Unsettled(t) && t.event.key == k
    requires q != [] && !r.event.pressed && r.event.origin.Physical? && x.event == r.event && Marked(x)
    requires forall i :: 0 <= i < |q| ==> q[i].event.origin.Physical?
    ensures Doomed(Advance(st, SetCount(t, 1)), SetCount(t, 1), q + [x], k)
  {
    var p, q' := [t] + q + [r], q + [x];
    assert p[0] == t && st.Up?;
    forall i | 0 <= i <= |q|
      ensures q'[i].event.pressed == (i % 2 != 0) && (i < |q| ==> !Marked(q'[i])) && q'[i].event.origin.Physical?
    {
      assert p[i + 1].event == q'[i].event;
      assert i < |q| ==> p[i + 1] == q'[i];
    }
  }

  // The release arrives within the term behind other events of its key: the held press is settled on it, and the queue
  // then hands on that key's events out of step.
  lemma BehindQueueBreaks(env: Env, s: Machine, r: Record)
    requires Invariant(s) && Agrees(s, r.event.key) && |s.ring| < WAITING_BUFFER_SIZE - 1
    requires Unsettled(s.tapping) && SameKey(s.tapping, r)
    requires Queued(r) && r.tap == UNTAPPED && !r.event.pressed
    requires Alternates(Line(s, r.event.key) + Events(Single(r, r.event.key)))
    requires WithinTappingTerm(env, s.tapping, r.event) && !FirstOfItsKey(s.ring + [r], |s.ring|)
    ensures StateOf(Call(ThenLate(env), s, r).log, r.event.key).Broken?
  {
    hide Drain, OfKey, StateOf, Doomed;
    var k := r.event.key;
    var t, q := s.tapping, OfKey(s.ring, k);
    var tapped := SetCount(t, 1);
    var x := r.(tap := tapped.tap);
    var m := Machine(tapped, s.ring + [x], s.log + [tapped]);
    assert Offer(env, s, r) == m;
    CallKeepsInvariant(ThenLate(env), s, r);
    var j :| 0 <= j < |s.ring| && s.ring[j].event.key == k;
    var i := IndexOfKey(s.ring, k, j);
    FirstOfKey(s.ring, k, i, s.ring[i]);
    QueueAgrees(s, r, k);
    OfKeyAppend(s.ring, r, k);
    assert Rest(s.(ring := s.ring + [r]), k) == [t] + q + [r];
    OfKeyOrigin(s.ring, k);
    SettlingTooEarlyDooms(StateOf(s.log, k), t, q, r, x, k);
    OfKeyAppend(s.ring, x, k);
    StateAppend(s.log, tapped, k);
    LateDrainBreaks(ThenLate(env), 1, m, k);
  }

  // An unsettled key's release, on whose arrival the machine consults `env`, is safe whatever it finds later
  // exactly when the release is late or no event of its key is queued ahead of it.
  lemma SafeReleaseIffFirst(env: Env, s: Machine, r: Record)
    requires Invariant(s) && Agrees(s, r.event.key) && |s.ring| < WAITING_BUFFER_SIZE - 1
    requires Unsettled(s.tapping) && SameKey(s.tapping, r)
    requires Queued(r) && r.tap == UNTAPPED && !r.event.pressed
    requires AgesTell(s.ring) && AgesTell(s.ring + [r])
    requires Alternates(Line(s, r.event.key) + Events(Single(r, r.event.key)))
    ensures (forall envs: nat -> Env :: envs(0) == env ==> !StateOf(Call(envs, s, r).log, r.event.key).Broken?)
       <==> (WithinTappingTerm(env, s.tapping, r.event) ==> FirstOfItsKey(s.ring + [r], |s.ring|))
  {
    hide AgesTell, FirstOfItsKey, StateOf, Call;
    var k := r.event.key;
    if WithinTappingTerm(env, s.tapping, r.event) ==> FirstOfItsKey(s.ring + [r], |s.ring|) {
      forall envs: nat -> Env | envs(0) == env ensures !StateOf(Call(envs, s, r).log, k).Broken? {
        SafeRelease(envs, s, r);
      }
    } else {
      assert ThenLate(env)(0) == env;
      BehindQueueBreaks(env, s, r);
    }
  }

  lemma SafeRelease(envs: nat -> Env, s: Machine, r: Record)
    requires Invariant(s) && Agrees(s, r.event.key) && |s.ring| < WAITING_BUFFER_SIZE - 1
    requires Unsettled(s.tapping) && SameKey(s.tapping, r)
    requires Queued(r) && r.tap == UNTAPPED && !r.event.pressed
    requires AgesTell(s.ring) && AgesTell(s.ring + [r])
    requires Alternates(Line(s, r.event.key) + Events(Single(r, r.event.key)))
    requires WithinTappingTerm(envs(0), s.tapping, r.event) ==> FirstOfItsKey(s.ring + [r], |s.ring|)
    ensures !StateOf(Call(envs, s, r).log, r.event.key).Broken?
  {
    hide AgesTell, Line, Alternates;
    CallAgrees(envs, s, r, r.event.key);
  }
}
