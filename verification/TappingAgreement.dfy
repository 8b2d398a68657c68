// Agreement between presses and releases: no key is pressed as a tap and released as a hold, or the
// other way round.
module TappingAgreement {
  import opened Clock
  import opened Tapping
  import opened TappingInvariant
  import opened TappingOrder

  // What the log says about one key. Freed: down, but a made-up release has already undone its tap.
  datatype KeyState = Up | Down(tap: Tap) | Freed | Broken

  // Broken: a transition out of turn, or a release that disagrees with its press on tap or hold.
  function Advance(st: KeyState, r: Record): KeyState {
    match st
    case Up =>
      if r.event.pressed then Down(r.tap) else Broken
    case Down(tap) =>
      if r.event.pressed then Broken
      else if r.event.origin.Synthesised? then if r.tap == tap then Freed else Broken
      else if (r.tap.count > 0) == (tap.count > 0) then Up else Broken
    case Freed =>
      if r.event.pressed || r.event.origin.Synthesised? then Broken else Up
    case Broken => Broken
  }

  function StateOf(log: seq<Record>, k: Key): KeyState {
    if log == [] then Up
    else
      var last := log[|log| - 1];
      var st := StateOf(log[..|log| - 1], k);
      if last.event.key == k then Advance(st, last) else st
  }

  lemma StateAppend(log: seq<Record>, r: Record, k: Key)
    ensures StateOf(log + [r], k) == if r.event.key == k then Advance(StateOf(log, k), r) else StateOf(log, k)
  {
    assert (log + [r])[..|log|] == log;
  }

  // The records of key k still to be handed on, in order.
  function Rest(s: Machine, k: Key): seq<Record> {
    Held(s.tapping, k) + OfKey(s.ring, k)
  }

  predicate TappedHere(t: Record, k: Key) { Tapped(t) && t.event.key == k }

  predicate Marked(r: Record) { r.tap.count > 0 }

  // The log agrees so far on key k, and whatever is still to come will: the rest alternates, only its
  // first record may be marked, and a tap that is down is either the tapping key or marked there.
  predicate Agrees(s: Machine, k: Key) {
    AgreesWith(StateOf(s.log, k), s.tapping, Rest(s, k), k)
  }

  predicate AgreesWith(st: KeyState, t: Record, p: seq<Record>, k: Key) {
    && !st.Broken?
    && (forall i :: 0 <= i < |p| ==> p[i].event.pressed == (st.Up? == (i % 2 == 0)))
    && (forall i :: 0 <= i < |p| && Marked(p[i]) ==> i == 0 && (st.Freed? || (st.Down? && st.tap.count > 0)))
    && (TappedHere(t, k) ==> st == Down(t.tap) && (t.tap.count == 1 ==> p != [] && Marked(p[0])))
    && (st.Down? && st.tap.count > 0 && !TappedHere(t, k) ==> p != [] && Marked(p[0]))
  }

  // ---- Ages on the 16-bit clock -------------------------------------------------------------------

  // x is a release of t's key.
  predicate IsReleaseOf(x: Record, t: Record) {
    !IsTick(x) && x.event.key == t.event.key && !x.event.pressed
  }

  // What the machine takes for the time from t to x.
  function Age(t: Record, x: Record): u16 { TimerDiff16(x.event.Time(), t.event.Time()) }

  // Index of the first queued release of t's key, or the length of the queue.
  function FirstRelease(t: Record, ring: seq<Record>): (i: nat)
    ensures i <= |ring|
    ensures i < |ring| ==> IsReleaseOf(ring[i], t)
    ensures forall j :: 0 <= j < i ==> !IsReleaseOf(ring[j], t)
  {
    if ring == [] || IsReleaseOf(ring[0], t) then 0 else 1 + FirstRelease(t, ring[1..])
  }

  // No later release of t's key looks younger than the first.
  predicate FirstIsYoungest(t: Record, ring: seq<Record>) {
    var i := FirstRelease(t, ring);
    forall n :: i < n < |ring| && IsReleaseOf(ring[n], t) ==> Age(t, ring[i]) <= Age(t, ring[n])
  }

  // The scan settles t on the first release of its key, or on none, whatever the term is, exactly when no
  // later one looks younger.
  lemma ScanFindsFirstIff(t: Record, ring: seq<Record>)
    ensures (forall env: Env :: ScanIndex(env, t, ring) < |ring| ==> ScanIndex(env, t, ring) == FirstRelease(t, ring))
       <==> FirstIsYoungest(t, ring)
  {
    var i := FirstRelease(t, ring);
    if FirstIsYoungest(t, ring) {
      forall env: Env | ScanIndex(env, t, ring) < |ring| ensures ScanIndex(env, t, ring) == i {
        ScanFindsFirst(env, t, ring);
      }
    } else {
      var n :| i < n < |ring| && IsReleaseOf(ring[n], t) && Age(t, ring[i]) > Age(t, ring[n]);
      var env := Env(_ => false, _ => Age(t, ring[n]) + 1, _ => 0, _ => false, _ => false, _ => false);
      assert TapCandidate(env, t, ring[n]) && !TapCandidate(env, t, ring[i]);
      assert ScanIndex(env, t, ring) <= n;
    }
  }

  lemma ScanFindsFirst(env: Env, t: Record, ring: seq<Record>)
    requires FirstIsYoungest(t, ring) && ScanIndex(env, t, ring) < |ring|
    ensures ScanIndex(env, t, ring) == FirstRelease(t, ring)
  {
    var i, n := FirstRelease(t, ring), ScanIndex(env, t, ring);
    assert TapCandidate(env, t, ring[n]) && IsReleaseOf(ring[n], t);
    if i < n {
      assert TapCandidate(env, t, ring[i]);
    }
  }

  // So for every queued press and the events queued behind it.
  predicate AgesTell(ring: seq<Record>) {
    forall p :: 0 <= p < |ring| && ring[p].event.pressed ==> FirstIsYoungest(ring[p], ring[p + 1..])
  }

  // It is so when the events are queued in the order of their times and span less than one wrap.
  predicate InWindow(ring: seq<Record>) {
    forall i, j :: 0 <= i < j < |ring| ==> ring[i].event.at <= ring[j].event.at < ring[i].event.at + WRAP16
  }

  lemma WindowTells(ring: seq<Record>)
    requires InWindow(ring)
    ensures AgesTell(ring)
  {
    forall p | 0 <= p < |ring| && ring[p].event.pressed ensures FirstIsYoungest(ring[p], ring[p + 1..]) {
      var t, rest := ring[p], ring[p + 1..];
      var i := FirstRelease(t, rest);
      forall n | i < n < |rest| && IsReleaseOf(rest[n], t) ensures Age(t, rest[i]) <= Age(t, rest[n]) {
        assert rest[i] == ring[p + 1 + i] && rest[n] == ring[p + 1 + n];
        TimerDiff16IsAge(rest[i].event.at, t.event.at);
        TimerDiff16IsAge(rest[n].event.at, t.event.at);
      }
    }
  }

  lemma {:induction false} FirstReleaseSame(t: Record, t': Record, a: seq<Record>, b: seq<Record>)
    requires t.event == t'.event && SameEvents(a, b)
    ensures FirstRelease(t, a) == FirstRelease(t', b)
  {
    if a != [] && !IsReleaseOf(a[0], t) {
      FirstReleaseSame(t, t', a[1..], b[1..]);
    }
  }

  lemma YoungestSame(t: Record, t': Record, a: seq<Record>, b: seq<Record>)
    requires t.event == t'.event && SameEvents(a, b) && FirstIsYoungest(t, a)
    ensures FirstIsYoungest(t', b)
  {
    FirstReleaseSame(t, t', a, b);
    var i := FirstRelease(t, a);
    forall n | i < n < |b| && IsReleaseOf(b[n], t') ensures Age(t', b[i]) <= Age(t', b[n]) {
      assert IsReleaseOf(a[n], t);
    }
  }

  // Marking queued records does not matter.
  lemma AgesTellSame(a: seq<Record>, b: seq<Record>)
    requires SameEvents(a, b) && AgesTell(a)
    ensures AgesTell(b)
  {
    hide FirstIsYoungest;
    forall p | 0 <= p < |b| && b[p].event.pressed ensures FirstIsYoungest(b[p], b[p + 1..]) {
      assert a[p].event == b[p].event;
      YoungestSame(a[p], b[p], a[p + 1..], b[p + 1..]);
    }
  }

  lemma AgesTellTail(ring: seq<Record>)
    requires AgesTell(ring) && ring != []
    ensures AgesTell(ring[1..])
  {
    hide FirstIsYoungest;
    var rest := ring[1..];
    forall p | 0 <= p < |rest| && rest[p].event.pressed ensures FirstIsYoungest(rest[p], rest[p + 1..]) {
      assert rest[p + 1..] == ring[p + 2..];
    }
  }

  // ---- Scanning marks the right release ---------------------------------------------------------

  lemma FirstOfKey(ring: seq<Record>, k: Key, i: nat, x: Record)
    requires i < |ring| && Concerns(ring[i], k) && Concerns(x, k)
    requires forall j :: 0 <= j < i ==> !Concerns(ring[j], k)
    ensures OfKey(ring, k) != [] && OfKey(ring, k)[0] == ring[i]
    ensures OfKey(ring[i := x], k) == OfKey(ring, k)[0 := x]
  {
    hide OfKey;
    SkipOthers(ring[..i], k);
    assert ring == ring[..i] + ([ring[i]] + ring[i + 1..]);
    assert ring[i := x] == ring[..i] + ([x] + ring[i + 1..]);
    OfKeyConcat(ring[..i], [ring[i]] + ring[i + 1..], k);
    OfKeyConcat(ring[..i], [x] + ring[i + 1..], k);
    OfKeyTail([ring[i]] + ring[i + 1..], k);
    OfKeyTail([x] + ring[i + 1..], k);
  }

  lemma {:induction false} SkipOthers(rs: seq<Record>, k: Key)
    requires forall j :: 0 <= j < |rs| ==> !Concerns(rs[j], k)
    ensures OfKey(rs, k) == []
  {
    if rs != [] {
      SkipOthers(rs[..|rs| - 1], k);
    }
  }

  lemma OtherKeyUnchanged(ring: seq<Record>, k: Key, i: nat, x: Record)
    requires i < |ring| && !Concerns(ring[i], k) && !Concerns(x, k)
    ensures OfKey(ring[i := x], k) == OfKey(ring, k)
  {
    assert ring == ring[..i] + ([ring[i]] + ring[i + 1..]);
    assert ring[i := x] == ring[..i] + ([x] + ring[i + 1..]);
    OfKeyConcat(ring[..i], [ring[i]] + ring[i + 1..], k);
    OfKeyConcat(ring[..i], [x] + ring[i + 1..], k);
    OfKeyTail([ring[i]] + ring[i + 1..], k);
    OfKeyTail([x] + ring[i + 1..], k);
  }

  // The first record of key k in a queue that holds one.
  lemma {:induction false} IndexOfKey(ring: seq<Record>, k: Key, upto: nat) returns (i: nat)
    requires upto < |ring| && Concerns(ring[upto], k)
    ensures i <= upto && Concerns(ring[i], k) && forall j :: 0 <= j < i ==> !Concerns(ring[j], k)
  {
    i := 0;
    while !Concerns(ring[i], k)
      invariant i <= upto && forall j :: 0 <= j < i ==> !Concerns(ring[j], k)
      decreases upto - i
    {
      i := i + 1;
    }
  }

  // So the scan settles on the first queued record of the tapping key.
  lemma ScanFindsOwnRelease(env: Env, t: Record, ring: seq<Record>)
    requires Unsettled(t) && FirstIsYoungest(t, ring)
    requires forall i :: 0 <= i < |ring| ==> Queued(ring[i])
    requires var p := OfKey(ring, t.event.key); p != [] ==> !p[0].event.pressed
    requires ScanIndex(env, t, ring) < |ring|
    ensures forall j :: 0 <= j < ScanIndex(env, t, ring) ==> !Concerns(ring[j], t.event.key)
  {
    hide OfKey, FirstIsYoungest;
    var n := ScanIndex(env, t, ring);
    var i := IndexOfKey(ring, t.event.key, n);
    FirstOfKey(ring, t.event.key, i, ring[i]);
    ScanFindsFirst(env, t, ring);
    assert IsReleaseOf(ring[i], t);
  }

  // Settling the held press t as a tap while its release, next in line, is marked.
  lemma SettleAsTap(st: KeyState, t: Record, q: seq<Record>, x: Record, k: Key)
    requires Unsettled(t) && t.event.key == k && q != []
    requires AgreesWith(st, t, [t] + q, k)
    requires x.event == q[0].event && Marked(x)
    ensures !q[0].event.pressed
    ensures AgreesWith(Advance(st, SetCount(t, 1)), SetCount(t, 1), q[0 := x], k)
  {
    var p := [t] + q;
    assert p[0] == t && p[1] == q[0];
    assert forall i :: 0 <= i < |q| ==> p[i + 1] == q[i];
  }

  lemma ScanAgreesHere(env: Env, s: Machine)
    requires Unsettled(s.tapping) && s.tapping.event.origin.Physical?
    requires forall i :: 0 <= i < |s.ring| ==> Queued(s.ring[i])
    requires FirstIsYoungest(s.tapping, s.ring) && Agrees(s, s.tapping.event.key)
    ensures Agrees(ScanTap(env, s), s.tapping.event.key)
  {
    var t := s.tapping;
    var k := t.event.key;
    var i := ScanIndex(env, t, s.ring);
    if i < |s.ring| {
      var q := OfKey(s.ring, k);
      var first := IndexOfKey(s.ring, k, i);
      FirstOfKey(s.ring, k, first, s.ring[first]);
      SettleAsTap(StateOf(s.log, k), t, q, SetCount(q[0], 1), k);
      ScanFindsOwnRelease(env, t, s.ring);
      FirstOfKey(s.ring, k, i, SetCount(s.ring[i], 1));
      StateAppend(s.log, SetCount(t, 1), k);
      assert Rest(ScanTap(env, s), k) == q[0 := SetCount(q[0], 1)];
    }
  }

  lemma ScanLeavesOthers(env: Env, s: Machine, k: Key)
    requires Unsettled(s.tapping) && k != s.tapping.event.key
    ensures StateOf(ScanTap(env, s).log, k) == StateOf(s.log, k)
    ensures OfKey(ScanTap(env, s).ring, k) == OfKey(s.ring, k)
    ensures ScanTap(env, s).tapping.event == s.tapping.event
  {
    hide StateOf, OfKey;
    var t := s.tapping;
    var i := ScanIndex(env, t, s.ring);
    if i < |s.ring| {
      StateAppend(s.log, SetCount(t, 1), k);
      OtherKeyUnchanged(s.ring, k, i, SetCount(s.ring[i], 1));
    }
  }

  lemma ScanAgrees(env: Env, s: Machine, k: Key)
    requires Unsettled(s.tapping) && s.tapping.event.origin.Physical?
    requires forall i :: 0 <= i < |s.ring| ==> Queued(s.ring[i])
    requires FirstIsYoungest(s.tapping, s.ring) && Agrees(s, k)
    ensures Agrees(ScanTap(env, s), k)
  {
    if k == s.tapping.event.key {
      hide FirstIsYoungest, ScanTap;
      ScanAgreesHere(env, s);
    } else {
      hide FirstIsYoungest, ScanTap, OfKey, StateOf;
      ScanLeavesOthers(env, s, k);
      OtherTapping(s, ScanTap(env, s), k);
    }
  }

  // Key k does not care which other key is the tapping key.
  lemma OtherTapping(s: Machine, s': Machine, k: Key)
    requires s.tapping.event.key != k && s'.tapping.event.key != k && Agrees(s, k)
    requires StateOf(s'.log, k) == StateOf(s.log, k) && OfKey(s'.ring, k) == OfKey(s.ring, k)
    ensures Agrees(s', k)
  {
    hide OfKey, StateOf;
    assert Rest(s', k) == OfKey(s.ring, k) == Rest(s, k);
  }

  // ---- Steps at the head of the queue -----------------------------------------------------------

  // What `Emit` and the like do to key k's part of the machine.
  lemma AgreesAfter(s: Machine, s': Machine, st: KeyState, p: seq<Record>, k: Key)
    requires StateOf(s'.log, k) == st && Rest(s', k) == p
    requires AgreesWith(st, s'.tapping, p, k)
    ensures Agrees(s', k)
  {
  }

  // The next record x of key k is handed on as y, the tapping key being another one or not in play.
  lemma HandOnNext(st: KeyState, t: Record, p: seq<Record>, y: Record, t': Record, k: Key)
    requires p != [] && y.event == p[0].event && Marked(y) == Marked(p[0]) && y.event.origin.Physical?
    requires AgreesWith(st, t, p, k) && !TappedHere(t, k) && !TappedHere(t', k)
    ensures AgreesWith(Advance(st, y), t', p[1..], k)
  {
  }

  // A fresh press is handed on as a repeated tap and becomes the tapping key.
  lemma HandOnRepeat(st: KeyState, t: Record, p: seq<Record>, again: Record, k: Key)
    requires p != [] && p[0].event.pressed && again.event == p[0].event && p[0].event.key == k
    requires AgreesWith(st, t, p, k) && again.tap.count > 1 && !IsTick(again)
    ensures AgreesWith(Advance(st, again), again, p[1..], k)
  {
  }

  // The tapping key's own release takes over its tap.
  lemma HandOnOwnRelease(st: KeyState, t: Record, p: seq<Record>, t': Record, k: Key)
    requires p != [] && !p[0].event.pressed && p[0].event.origin.Physical? && TappedHere(t, k)
    requires AgreesWith(st, t, p, k) && !TappedHere(t', k)
    ensures AgreesWith(Advance(st, p[0].(tap := t.tap)), t', p[1..], k)
  {
  }

  // A press at the head of the queue is no candidate of its own scan.
  lemma ScanSkipsHead(env: Env, s: Machine)
    requires s.ring != [] && s.tapping == s.ring[0] && s.ring[0].event.pressed
    ensures var s' := ScanTap(env, s);
      s'.ring != [] && s'.(ring := s'.ring[1..]) == ScanTap(env, s.(ring := s.ring[1..]))
  {
    assert !TapCandidate(env, s.ring[0], s.ring[0]);
    assert ScanIndex(env, s.ring[0], s.ring) == 1 + ScanIndex(env, s.ring[0], s.ring[1..]);
  }

  // The head of the queue becomes the tapping key.
  lemma HoldHead(env: Env, s: Machine, k: Key)
    requires s.ring != [] && AgesTell(s.ring) && (forall i :: 0 <= i < |s.ring| ==> Queued(s.ring[i]))
    requires s.ring[0].event.pressed
    requires AgreesWith(StateOf(s.log, k), NO_KEY, OfKey(s.ring, k), k)
    ensures var r := s.ring[0];
      && Agrees(s.(tapping := r, ring := s.ring[1..]), k)
      && var s' := ScanTap(env, s.(tapping := r)); s'.ring != [] && Agrees(s'.(ring := s'.ring[1..]), k)
  {
    hide ScanTap, OfKey, StateOf, Advance;
    var r := s.ring[0];
    var m := s.(tapping := r, ring := s.ring[1..]);
    OfKeyTail(s.ring, k);
    assert Rest(m, k) == OfKey(s.ring, k);
    AgreesAfter(s, m, StateOf(s.log, k), OfKey(s.ring, k), k);
    assert FirstIsYoungest(r, s.ring[0 + 1..]);
    ScanAgrees(env, m, k);
    ScanSkipsHead(env, s.(tapping := r));
  }

  // The head of the queue is handed on as y while the tapping key becomes t'.
  lemma HandOnHead(s: Machine, y: Record, t': Record, k: Key)
    requires s.ring != [] && Queued(s.ring[0]) && Agrees(s, k)
    requires y.event == s.ring[0].event && Marked(y) == Marked(s.ring[0])
    requires Unsettled(s.tapping) ==> s.tapping.event.key != y.event.key
    requires !TappedHere(s.tapping, k) || y.event.key != k
    requires (Unsettled(s.tapping) && t' == s.tapping) || (!Unsettled(s.tapping) && !Unsettled(t'))
    requires y.event.key == k ==> !TappedHere(t', k)
    requires y.event.key != k ==> TappedHere(t', k) == TappedHere(s.tapping, k)
    requires TappedHere(t', k) ==> t' == s.tapping
    ensures Agrees(Machine(t', s.ring[1..], s.log + [y]), k)
  {
    StateAppend(s.log, y, k);
    OfKeyTail(s.ring, k);
    var s' := Machine(t', s.ring[1..], s.log + [y]);
    if y.event.key == k {
      assert Rest(s, k) == [s.ring[0]] + OfKey(s.ring[1..], k);
      HandOnNext(StateOf(s.log, k), s.tapping, Rest(s, k), y, t', k);
      assert Rest(s, k)[1..] == Rest(s', k);
    } else {
      assert Rest(s', k) == Rest(s, k);
    }
  }

  // The head of the queue is a fresh press of the released tapping key and repeats its tap.
  lemma RepeatHead(s: Machine, again: Record, k: Key)
    requires s.ring != [] && Queued(s.ring[0]) && s.ring[0].event.pressed && Agrees(s, k)
    requires Released(s.tapping) && again.event == s.ring[0].event && again.tap.count > 1
    ensures Agrees(Machine(again, s.ring[1..], s.log + [again]), k)
  {
    hide OfKey, StateOf, Advance;
    var s' := Machine(again, s.ring[1..], s.log + [again]);
    var st, q := StateOf(s.log, k), OfKey(s.ring[1..], k);
    StateAppend(s.log, again, k);
    OfKeyTail(s.ring, k);
    assert Rest(s', k) == q;
    if k == again.event.key {
      assert Rest(s, k) == [s.ring[0]] + q;
      HandOnRepeat(st, s.tapping, [s.ring[0]] + q, again, k);
      assert ([s.ring[0]] + q)[1..] == q;
      AgreesAfter(s, s', Advance(st, again), q, k);
    } else {
      assert Rest(s, k) == q;
      AgreesAfter(s, s', st, q, k);
    }
  }

  // The head of the queue is the release of the tapped key that is down.
  lemma OwnReleaseHead(s: Machine, t': Record, k: Key)
    requires s.ring != [] && Queued(s.ring[0]) && !s.ring[0].event.pressed && Agrees(s, k)
    requires Tapped(s.tapping) && SameKey(s.tapping, s.ring[0]) && !t'.event.pressed
    ensures Agrees(Machine(t', s.ring[1..], s.log + [s.ring[0].(tap := s.tapping.tap)]), k)
  {
    hide OfKey, StateOf;
    var y := s.ring[0].(tap := s.tapping.tap);
    var s' := Machine(t', s.ring[1..], s.log + [y]);
    StateAppend(s.log, y, k);
    OfKeyTail(s.ring, k);
    assert Rest(s, k) == Single(s.ring[0], k) + OfKey(s.ring[1..], k);
    assert Rest(s', k) == OfKey(s.ring[1..], k);
    if k == y.event.key {
      assert TappedHere(s.tapping, k) && Rest(s, k)[0] == s.ring[0];
      hide Rest, Advance;
      HandOnOwnRelease(StateOf(s.log, k), s.tapping, Rest(s, k), t', k);
      assert Rest(s, k)[1..] == Rest(s', k);
    }
  }

  // A tapped key that another tap key displaces is released on its behalf when it repeats, and has its
  // own release marked when it does not.
  lemma DisplaceTapped(s: Machine, at: nat, k: Key)
    requires Tapped(s.tapping) && Agrees(s, k)
    ensures var s' := if s.tapping.tap.count > 1 then Emit(s, SynthesisedRelease(s.tapping, at)) else s;
      AgreesWith(StateOf(s'.log, k), NO_KEY, OfKey(s.ring, k), k)
  {
    hide OfKey, StateOf;
    var release := SynthesisedRelease(s.tapping, at);
    assert Rest(s, k) == OfKey(s.ring, k);
    StateAppend(s.log, release, k);
    if s.tapping.event.key == k {
      assert StateOf(s.log, k) == Down(s.tapping.tap);
    }
  }

  lemma ResetAgrees(env: Env, s: Machine, k: Key)
    requires Invariant(s) && s.ring != [] && AgesTell(s.ring) && IsReset(s.tapping) && Agrees(s, k)
    ensures var m := ProcessReset(env, s, s.ring[0]).machine; m.ring != [] && Agrees(m.(ring := m.ring[1..]), k)
  {
    var r := s.ring[0];
    assert Rest(s, k) == OfKey(s.ring, k);
    if r.event.pressed && IsTapRecord(env, r) {
      HoldHead(env, s, k);
    } else {
      HandOnHead(s, r, NO_KEY, k);
    }
  }

  lemma ReleasedAgrees(env: Env, s: Machine, k: Key)
    requires Invariant(s) && s.ring != [] && AgesTell(s.ring) && Released(s.tapping) && Agrees(s, k)
    ensures var o := ProcessReleased(env, s, s.ring[0]);
      if o.consumed then o.machine.ring != [] && Agrees(o.machine.(ring := o.machine.ring[1..]), k)
      else o.record == s.ring[0] && Agrees(o.machine, k)
  {
    hide OfKey, StateOf, ScanTap;
    var t := s.tapping;
    var r := s.ring[0];
    assert Rest(s, k) == OfKey(s.ring, k);
    if !WithinTappingTerm(env, t, r.event) {
      assert Rest(s.(tapping := NO_KEY), k) == OfKey(s.ring, k);
    } else if !r.event.pressed {
      HandOnHead(s, r, t, k);
    } else if SameKey(t, r) {
      var o := ProcessReleased(env, s, r);
      if o.machine.log == s.log {
        HoldHead(env, s, k);
      } else {
        RepeatHead(s, o.record, k);
      }
    } else if IsTapRecord(env, r) {
      HoldHead(env, s, k);
    } else {
      HandOnHead(s, r, t.(tap := t.tap.(interrupted := true)), k);
    }
  }

  lemma TappedAgrees(env: Env, s: Machine, k: Key)
    requires Invariant(s) && s.ring != [] && AgesTell(s.ring) && Tapped(s.tapping) && Agrees(s, k)
    ensures var m := ProcessTapped(env, s, s.ring[0]).machine; m.ring != [] && Agrees(m.(ring := m.ring[1..]), k)
  {
    var t := s.tapping;
    var r := s.ring[0];
    if SameKey(t, r) && !r.event.pressed {
      OwnReleaseHead(s, if WithinTappingTerm(env, t, r.event) then r.(tap := t.tap) else NO_KEY, k);
    } else if IsTapRecord(env, r) && r.event.pressed {
      DisplaceTapped(s, r.event.at, k);
      HoldHead(env, (if t.tap.count > 1 then Emit(s, SynthesisedRelease(t, r.event.at)) else s), k);
    } else {
      TappedHeadIsOther(s, k);
      HandOnHead(s, r, t, k);
    }
  }

  // While a tapped key is down, the next of its events in line is its release.
  lemma TappedHeadIsOther(s: Machine, k: Key)
    requires s.ring != [] && Queued(s.ring[0]) && Tapped(s.tapping) && Agrees(s, k)
    requires !(SameKey(s.tapping, s.ring[0]) && !s.ring[0].event.pressed)
    ensures TappedHere(s.tapping, k) ==> s.ring[0].event.key != k
  {
    OfKeyTail(s.ring, k);
    if s.ring[0].event.key == k {
      assert Rest(s, k)[0] == s.ring[0];
    }
  }

  // ---- Steps while a key is unsettled -----------------------------------------------------------

  // Nothing of the key of entry i is queued ahead of it.
  predicate FirstOfItsKey(ring: seq<Record>, i: nat)
    requires i < |ring|
  {
    forall j :: 0 <= j < i ==> ring[j].event.key != ring[i].event.key
  }

  function Without(ring: seq<Record>, i: nat): seq<Record>
    requires i < |ring|
  {
    ring[..i] + ring[i + 1..]
  }

  lemma OfKeyWithout(ring: seq<Record>, i: nat, k: Key)
    requires i < |ring| && FirstOfItsKey(ring, i)
    ensures OfKey(ring, k) == Single(ring[i], k) + OfKey(Without(ring, i), k)
  {
    hide OfKey;
    assert ring == ring[..i] + ([ring[i]] + ring[i + 1..]);
    OfKeyConcat(ring[..i], [ring[i]] + ring[i + 1..], k);
    OfKeyTail([ring[i]] + ring[i + 1..], k);
    OfKeyConcat(ring[..i], ring[i + 1..], k);
    if Concerns(ring[i], k) {
      SkipOthers(ring[..i], k);
    }
  }

  lemma SettleAsHold(s: Machine, held: Record, k: Key)
    requires Unsettled(s.tapping) && s.tapping.event.origin.Physical? && Agrees(s, k)
    requires held.event == s.tapping.event && held.tap.count == 0
    ensures Agrees(Machine(NO_KEY, s.ring, s.log + [held]), k)
  {
    var s' := Machine(NO_KEY, s.ring, s.log + [held]);
    var st, q := StateOf(s.log, k), OfKey(s.ring, k);
    StateAppend(s.log, held, k);
    assert Rest(s', k) == q;
    if k == held.event.key {
      assert Rest(s, k) == [s.tapping] + q;
      HandOnNext(st, s.tapping, [s.tapping] + q, held, NO_KEY, k);
      assert ([s.tapping] + q)[1..] == q;
      AgreesAfter(s, s', Advance(st, held), q, k);
    } else {
      assert Rest(s, k) == q;
      AgreesAfter(s, s', st, q, k);
    }
  }

  // Entry i is the release of the unsettled key and comes first of its key: both settle as a tap.
  lemma SettleOnRelease(s: Machine, i: nat, x: Record, k: Key)
    requires Unsettled(s.tapping) && s.tapping.event.origin.Physical? && Agrees(s, k)
    requires i < |s.ring| && FirstOfItsKey(s.ring, i) && Concerns(s.ring[i], s.tapping.event.key)
    requires x.event == s.ring[i].event && Marked(x)
    ensures Agrees(Machine(SetCount(s.tapping, 1), s.ring[i := x], s.log + [SetCount(s.tapping, 1)]), k)
  {
    hide OfKey, StateOf, Advance;
    var tapped := SetCount(s.tapping, 1);
    var s' := Machine(tapped, s.ring[i := x], s.log + [tapped]);
    var st, q := StateOf(s.log, k), OfKey(s.ring, k);
    StateAppend(s.log, tapped, k);
    if k == tapped.event.key {
      FirstOfKey(s.ring, k, i, x);
      assert Rest(s, k) == [s.tapping] + q;
      SettleAsTap(st, s.tapping, q, x, k);
      AgreesAfter(s, s', Advance(st, tapped), q[0 := x], k);
    } else {
      OtherKeyUnchanged(s.ring, k, i, x);
      assert Rest(s, k) == q;
      AgreesAfter(s, s', st, q, k);
    }
  }

  lemma Interrupt(s: Machine, t': Record, k: Key)
    requires Unsettled(s.tapping) && Agrees(s, k)
    requires t'.event == s.tapping.event && t'.tap.count == 0
    ensures Agrees(s.(tapping := t'), k)
  {
    var p := Rest(s, k);
    var p' := Rest(s.(tapping := t'), k);
    assert |p| == |p'| && forall i :: 0 <= i < |p| ==> p[i].event == p'[i].event && Marked(p[i]) == Marked(p'[i]);
  }

  lemma Overtake(s: Machine, i: nat, k: Key)
    requires Unsettled(s.tapping) && Agrees(s, k)
    requires i < |s.ring| && FirstOfItsKey(s.ring, i) && Queued(s.ring[i]) && !SameKey(s.tapping, s.ring[i])
    ensures Agrees(Machine(s.tapping, Without(s.ring, i), s.log + [s.ring[i]]), k)
  {
    var y := s.ring[i];
    var s' := Machine(s.tapping, Without(s.ring, i), s.log + [y]);
    StateAppend(s.log, y, k);
    OfKeyWithout(s.ring, i, k);
    if y.event.key == k {
      assert Rest(s, k) == [y] + Rest(s', k);
      HandOnNext(StateOf(s.log, k), s.tapping, Rest(s, k), y, s.tapping, k);
      assert Rest(s, k)[1..] == Rest(s', k);
    } else {
      assert Rest(s', k) == Rest(s, k);
    }
  }

  // Entry i is offered while a key is unsettled: at the head of the queue, or at its end on arrival.
  lemma UnsettledAgrees(env: Env, s: Machine, i: nat, k: Key)
    requires Unsettled(s.tapping) && TappingKeyOk(s.tapping) && Agrees(s, k)
    requires i < |s.ring| && Queued(s.ring[i])
    requires (SameKey(s.tapping, s.ring[i]) && !s.ring[i].event.pressed
              && WithinTappingTerm(env, s.tapping, s.ring[i].event)) ==> FirstOfItsKey(s.ring, i)
    requires ProcessUnsettled(env, s, s.ring[i]).consumed ==> FirstOfItsKey(s.ring, i)
    ensures var o := ProcessUnsettled(env, s, s.ring[i]);
      if o.consumed then o.machine.ring == s.ring && Agrees(o.machine.(ring := Without(s.ring, i)), k)
      else o.machine.ring == s.ring && Agrees(o.machine.(ring := s.ring[i := o.record]), k)
  {
    var t := s.tapping;
    var r := s.ring[i];
    var interrupted := t.(tap := t.tap.(interrupted := true));
    var o := ProcessUnsettled(env, s, r);
    assert s.ring[i := r] == s.ring;
    if o.consumed {
      Overtake(s, i, k);
    } else if WithinTappingTerm(env, t, r.event) && SameKey(t, r) && !r.event.pressed {
      SettleOnRelease(s, i, o.record, k);
    } else {
      SettleAsHold(s, t, k);
      SettleAsHold(s, interrupted, k);
      Interrupt(s, interrupted, k);
    }
  }

  lemma DrainOneAgrees(env: Env, s: Machine, k: Key)
    requires Invariant(s) && s.ring != [] && AgesTell(s.ring) && Agrees(s, k)
    ensures Agrees(DrainOne(env, s).machine, k)
  {
    hide OfKey, StateOf;
    var t := s.tapping;
    if IsReset(t) {
      ResetAgrees(env, s, k);
    } else if Released(t) {
      ReleasedAgrees(env, s, k);
      assert s.ring[0 := s.ring[0]] == s.ring;
    } else if Unsettled(t) {
      UnsettledAgrees(env, s, 0, k);
      assert Without(s.ring, 0) == s.ring[1..];
    } else {
      TappedAgrees(env, s, k);
    }
  }

  lemma DrainOneKeepsAges(env: Env, s: Machine)
    requires Invariant(s) && s.ring != [] && AgesTell(s.ring)
    ensures AgesTell(DrainOne(env, s).machine.ring)
  {
    hide Process, AgesTell, Invariant;
    var o := Process(env, s, s.ring[0]);
    Ready(s);
    ProcessKeepsInvariant(env, s, s.ring[0]);
    if o.consumed {
      AgesTellTail(s.ring);
      AgesTellSame(s.ring[1..], o.machine.ring[1..]);
    } else {
      AgesTellSame(s.ring, o.machine.ring[0 := o.record]);
    }
  }

  lemma Ready(s: Machine)
    requires Invariant(s) && s.ring != []
    ensures Pending(s.ring[0])
  {
  }

  lemma {:induction false} DrainAgrees(envs: nat -> Env, n: nat, s: Machine, k: Key)
    requires Invariant(s) && AgesTell(s.ring) && Agrees(s, k)
    ensures AgesTell(Drain(envs, n, s).ring) && Agrees(Drain(envs, n, s), k)
    decreases |s.ring|
  {
    if s.ring != [] {
      DrainOneKeepsInvariant(envs(n), s);
      DrainOneKeepsAges(envs(n), s);
      DrainOneAgrees(envs(n), s, k);
      var o := DrainOne(envs(n), s);
      if o.consumed {
        DrainAgrees(envs, n + 1, o.machine, k);
      }
    }
  }

  // ---- Arrivals ---------------------------------------------------------------------------------

  // What an arrival must respect: the queue is empty unless a key is unsettled, the ages of queued releases
  // tell which comes first, and the unsettled key's release, within its term, finds no event of that key
  // queued. `env` is what the machine consults on the arrival.
  predicate ArrivesOrderly(env: Env, s: Machine, r: Record) {
    !IsTick(r) ==>
      ArrivesDrained(s, r) && AgesTell(s.ring + [r]) && ReleaseIsFirst(env, s, r)
  }

  predicate ReleaseIsFirst(env: Env, s: Machine, r: Record) {
    (Unsettled(s.tapping) && SameKey(s.tapping, r) && !r.event.pressed
     && WithinTappingTerm(env, s.tapping, r.event)) ==> FirstOfItsKey(s.ring + [r], |s.ring|)
  }

  lemma {:induction false} StateParity(log: seq<Record>, k: Key)
    requires forall i :: 0 <= i < |log| ==> Logged(log[i])
    requires !StateOf(log, k).Broken?
    ensures StateOf(log, k).Up? <==> |OfKey(log, k)| % 2 == 0
  {
    if log != [] {
      var n := |log| - 1;
      StateParity(log[..n], k);
      OfKeyAppend(log[..n], log[n], k);
      assert log[..n] + [log[n]] == log;
    }
  }

  lemma AppendInTurn(st: KeyState, t: Record, p: seq<Record>, r: Record, k: Key)
    requires AgreesWith(st, t, p, k) && !Marked(r)
    requires r.event.pressed == (st.Up? == (|p| % 2 == 0))
    ensures AgreesWith(st, t, p + [r], k)
  {
    var q := p + [r];
    assert forall i :: 0 <= i < |p| ==> q[i] == p[i];
  }

  // The length of a key's line tells whose turn it is.
  lemma TurnOf(s: Machine, r: Record, k: Key)
    requires Invariant(s) && Agrees(s, k) && Concerns(r, k)
    requires Alternates(Line(s, k) + Events(Single(r, k)))
    ensures r.event.pressed == (StateOf(s.log, k).Up? == (|Rest(s, k)| % 2 == 0))
  {
    StateParity(s.log, k);
    var line := Line(s, k);
    assert |line| == |OfKey(s.log, k)| + |Rest(s, k)|;
    assert (line + Events(Single(r, k)))[|line|] == r.event;
  }

  // A fresh event in turn can stand at the end of the queue.
  lemma QueueAgrees(s: Machine, r: Record, k: Key)
    requires Invariant(s) && Agrees(s, k) && r.tap == UNTAPPED && Genuine(r.event) && !IsTick(r)
    requires Alternates(Line(s, k) + Events(Single(r, k)))
    ensures Agrees(s.(ring := s.ring + [r]), k)
  {
    var s' := s.(ring := s.ring + [r]);
    OfKeyAppend(s.ring, r, k);
    assert Rest(s', k) == Rest(s, k) + Single(r, k);
    if Concerns(r, k) {
      TurnOf(s, r, k);
      AppendInTurn(StateOf(s.log, k), s.tapping, Rest(s, k), r, k);
    } else {
      assert Rest(s', k) == Rest(s, k);
    }
  }

  // A settled machine with an empty queue treats an arrival as if it had been queued.
  lemma OfferIsDrain(env: Env, s: Machine, r: Record)
    requires s.ring == [] && !IsTick(r) && (IsTick(s.tapping) ==> IsReset(s.tapping))
    ensures Offer(env, s, r) == DrainOne(env, s.(ring := [r])).machine
  {
    assert [r][1..] == [];
  }

  lemma OfferUnsettledAgrees(env: Env, s: Machine, r: Record, k: Key)
    requires Invariant(s) && Unsettled(s.tapping) && Queued(r) && !Overflows(env, s, r)
    requires SameKey(s.tapping, r) && !r.event.pressed && WithinTappingTerm(env, s.tapping, r.event) ==>
               FirstOfItsKey(s.ring + [r], |s.ring|)
    requires Process(env, s, r).consumed ==> FirstOfItsKey(s.ring + [r], |s.ring|)
    requires Agrees(s.(ring := s.ring + [r]), k)
    ensures Agrees(Offer(env, s, r), k)
  {
    hide OfKey, StateOf;
    var s2 := s.(ring := s.ring + [r]);
    assert Typed(s2.ring, r.event) == Typed(s.ring, r.event) by {
      if Typed(s.ring, r.event) {
        var i :| 0 <= i < |s.ring| && s.ring[i].event.key == r.event.key && s.ring[i].event.pressed != r.event.pressed;
        assert s2.ring[i] == s.ring[i];
      }
    }
    var o := ProcessUnsettled(env, s, r);
    var o2 := ProcessUnsettled(env, s2, r);
    assert o2 == o.(machine := o.machine.(ring := s2.ring));
    UnsettledAgrees(env, s2, |s.ring|, k);
    assert Without(s2.ring, |s.ring|) == s.ring;
    assert s2.ring[|s.ring| := o.record] == s.ring + [o.record];
  }

  lemma TickAgrees(env: Env, s: Machine, r: Record, k: Key)
    requires Invariant(s) && Agrees(s, k) && IsTick(r)
    ensures Agrees(Offer(env, s, r), k) && Offer(env, s, r).ring == s.ring
  {
    hide OfKey, StateOf;
    if Unsettled(s.tapping) {
      SettleAsHold(s, s.tapping, k);
    } else if Released(s.tapping) {
      assert Rest(s.(tapping := NO_KEY), k) == Rest(s, k);
    }
  }

  lemma OfferKeepsAges(env: Env, s: Machine, r: Record)
    requires Invariant(s) && Pending(r) && !Overflows(env, s, r)
    requires AgesTell(s.ring) && (!IsTick(r) ==> AgesTell(s.ring + [r]))
    ensures AgesTell(Offer(env, s, r).ring)
  {
    hide Process, AgesTell, Invariant;
    var o := Process(env, s, r);
    ProcessKeepsInvariant(env, s, r);
    AgesTellSame(s.ring, o.machine.ring);
    if !IsTick(r) {
      assert SameEvents(s.ring + [r], o.machine.ring + [o.record]);
      AgesTellSame(s.ring + [r], o.machine.ring + [o.record]);
    }
  }

  lemma OfferAgrees(env: Env, s: Machine, r: Record, k: Key)
    requires Invariant(s) && AgesTell(s.ring) && Agrees(s, k) && r.tap == UNTAPPED && Genuine(r.event)
    requires !Overflows(env, s, r) && ArrivesOrderly(env, s, r)
    requires Alternates(Line(s, r.event.key) + Events(Single(r, r.event.key)))
    requires Alternates(Line(s, k) + Events(Single(r, k)))
    ensures AgesTell(Offer(env, s, r).ring) && Agrees(Offer(env, s, r), k)
  {
    hide OfKey, StateOf, Line, Process;
    OfferKeepsAges(env, s, r);
    if IsTick(r) {
      TickAgrees(env, s, r, k);
    } else {
      QueueAgrees(s, r, k);
      if s.ring == [] {
        OfferIsDrain(env, s, r);
        assert s.ring + [r] == [r];
        DrainOneAgrees(env, s.(ring := [r]), k);
      } else {
        if Process(env, s, r).consumed {
          ConsumedIsFirst(env, s, r);
        }
        OfferUnsettledAgrees(env, s, r, k);
      }
    }
  }

  // An arrival that overtakes the queue finds nothing of its own key there.
  lemma ConsumedIsFirst(env: Env, s: Machine, r: Record)
    requires Invariant(s) && Unsettled(s.tapping) && Queued(r) && Process(env, s, r).consumed
    requires Alternates(Line(s, r.event.key) + Events(Single(r, r.event.key)))
    ensures FirstOfItsKey(s.ring + [r], |s.ring|)
  {
    hide OfKey;
    var k := r.event.key;
    var line := Line(s, k);
    var queued := OfKey(s.ring, k);
    assert !Typed(s.ring, r.event) && !r.event.pressed;
    forall j | 0 <= j < |s.ring| ensures s.ring[j].event.key != k {
      if s.ring[j].event.key == k {
        var i := IndexOfKey(s.ring, k, j);
        FirstOfKey(s.ring, k, i, s.ring[i]);
        assert (line + Events(Single(r, k)))[|line|] == r.event;
        assert (line + Events(Single(r, k)))[|line| - 1] == line[|line| - 1] == queued[|queued| - 1].event;
        QueuedPressIsTyped(s.ring, k, |queued| - 1);
      }
    }
  }

  ghost predicate OrderlyArrivals(inputs: seq<Input>) {
    forall j :: 0 <= j < |inputs| ==> ArrivesOrderly(inputs[j].envs(0), Run(INITIAL, inputs[..j]), inputs[j].Fresh())
  }

  lemma CallAgrees(envs: nat -> Env, s: Machine, r: Record, k: Key)
    requires Invariant(s) && AgesTell(s.ring) && Agrees(s, k) && r.tap == UNTAPPED && Genuine(r.event)
    requires !Overflows(envs(0), s, r) && ArrivesOrderly(envs(0), s, r)
    requires Alternates(Line(s, r.event.key) + Events(Single(r, r.event.key)))
    requires Alternates(Line(s, k) + Events(Single(r, k)))
    ensures AgesTell(Call(envs, s, r).ring) && Agrees(Call(envs, s, r), k)
  {
    hide Offer, Agrees, AgesTell, Line, Alternates;
    CallKeepsInvariant(envs, s, r);
    OfferAgrees(envs(0), s, r, k);
    DrainAgrees(envs, 1, Offer(envs(0), s, r), k);
  }

  lemma PrefixArrivesOrderly(inputs: seq<Input>)
    requires inputs != [] && OrderlyArrivals(inputs)
    ensures OrderlyArrivals(inputs[..|inputs| - 1]) && DrainedArrivals(inputs)
    ensures var last := inputs[|inputs| - 1];
      ArrivesOrderly(last.envs(0), Run(INITIAL, inputs[..|inputs| - 1]), last.Fresh())
  {
    hide Run;
    var before := inputs[..|inputs| - 1];
    forall j | 0 <= j < |before|
      ensures ArrivesOrderly(before[j].envs(0), Run(INITIAL, before[..j]), before[j].Fresh())
    {
      assert before[..j] == inputs[..j];
    }
  }

  lemma NextInTurn(inputs: seq<Input>, k: Key)
    requires inputs != [] && AlternatingInputs(inputs)
    ensures Alternates(FedOf(inputs[..|inputs| - 1], k) + Events(Single(inputs[|inputs| - 1].Fresh(), k)))
  {
    assert Alternates(FedOf(inputs, k));
  }

  lemma {:induction false} RunAgrees(inputs: seq<Input>, k: Key)
    requires GenuineInputs(inputs) && NeverOverflows(INITIAL, inputs)
    requires AlternatingInputs(inputs) && OrderlyArrivals(inputs)
    ensures AgesTell(Run(INITIAL, inputs).ring) && Agrees(Run(INITIAL, inputs), k)
  {
    hide Call, ArrivesOrderly, ArrivesDrained;
    if inputs != [] {
      var before, last := inputs[..|inputs| - 1], inputs[|inputs| - 1];
      PrefixArrivesOrderly(inputs);
      PrefixIsOrderly(inputs);
      RunAgrees(before, k);
      RunKeepsInvariant(INITIAL, before);
      KeyOrder(before, k);
      KeyOrder(before, last.event.key);
      NextInTurn(inputs, k);
      NextInTurn(inputs, last.event.key);
      CallAgrees(last.envs, Run(INITIAL, before), last.Fresh(), k);
    }
  }

  // ---- The theorem in terms of the log ------------------------------------------------------------

  // Entry j is the press of entry i's key that its release i answers: no physical entry of the key
  // lies between them.
  ghost predicate OwnPress(log: seq<Record>, j: nat, i: nat) {
    && j < i < |log|
    && log[j].event.key == log[i].event.key && log[j].event.pressed && log[j].event.origin.Physical?
    && forall m :: j < m < i && log[m].event.key == log[i].event.key ==> log[m].event.origin.Synthesised?
  }

  // A made-up release of log[j]'s key, carrying its tap, lies between entries j and i.
  ghost predicate FreedBetween(log: seq<Record>, j: nat, i: nat) {
    exists m :: j < m < i < |log| && log[m].event.key == log[j].event.key
                && log[m].event.origin.Synthesised? && log[m].tap == log[j].tap
  }

  ghost predicate DownSince(log: seq<Record>, n: nat, k: Key, j: nat, freed: bool, tap: Tap) {
    && j < n <= |log| && log[j].tap == tap
    && log[j].event.key == k && log[j].event.pressed && log[j].event.origin.Physical?
    && (forall m :: j < m < n && log[m].event.key == k ==> log[m].event.origin.Synthesised?)
    && (freed ==>
          exists m :: j < m < n && log[m].event.key == k && log[m].event.origin.Synthesised? && log[m].tap == tap)
  }

  // Where the press is that put key k down.
  lemma {:induction false} FindPress(log: seq<Record>, n: nat, k: Key) returns (j: nat)
    requires n <= |log| && (forall i :: 0 <= i < |log| ==> Logged(log[i]))
    requires StateOf(log[..n], k).Down? || StateOf(log[..n], k).Freed?
    ensures j < n
    ensures DownSince(log, n, k, j, StateOf(log[..n], k).Freed?, log[j].tap)
    ensures StateOf(log[..n], k).Down? ==> StateOf(log[..n], k).tap == log[j].tap
  {
    var r := log[n - 1];
    assert log[..n][..n - 1] == log[..n - 1];
    var st := StateOf(log[..n - 1], k);
    if r.event.key != k || st.Down? {
      j := FindPress(log, n - 1, k);
    } else {
      j := n - 1;
    }
  }

  lemma {:induction false} NeverBroken(log: seq<Record>, n: nat, k: Key)
    requires n <= |log| && !StateOf(log, k).Broken?
    ensures !StateOf(log[..n], k).Broken?
    decreases |log|
  {
    if n < |log| {
      NeverBroken(log[..|log| - 1], n, k);
      assert log[..|log| - 1][..n] == log[..n];
    } else {
      assert log[..n] == log;
    }
  }

  predicate PhysicalRelease(r: Record) { !r.event.pressed && r.event.origin.Physical? }

  // The release at i answers a press handed on before it and is marked as a tap exactly when that press
  // was, unless a made-up release with the press's tap came in between.
  ghost predicate Answered(log: seq<Record>, i: nat) {
    exists j :: 0 <= j < i && OwnPress(log, j, i)
                && (Marked(log[i]) == Marked(log[j]) || FreedBetween(log, j, i))
  }

  lemma ReleaseIsAnswered(log: seq<Record>, i: nat)
    requires i < |log| && PhysicalRelease(log[i]) && !StateOf(log, log[i].event.key).Broken?
    requires forall j :: 0 <= j < |log| ==> Logged(log[j])
    ensures Answered(log, i)
  {
    var k := log[i].event.key;
    NeverBroken(log, i + 1, k);
    NeverBroken(log, i, k);
    assert log[..i + 1][..i] == log[..i];
    var j := FindPress(log, i, k);
    assert OwnPress(log, j, i);
  }

  // The no-stuck-key theorem. In a run of alternating events that arrive in good order and never
  // overflow, every physical release handed on agrees with its own press.
  lemma TapHoldAgreement(inputs: seq<Input>)
    requires GenuineInputs(inputs) && NeverOverflows(INITIAL, inputs)
    requires AlternatingInputs(inputs) && OrderlyArrivals(inputs)
    ensures var log := Run(INITIAL, inputs).log;
      forall i :: 0 <= i < |log| && PhysicalRelease(log[i]) ==> Answered(log, i)
  {
    hide Run, AlternatingInputs, OrderlyArrivals, NeverOverflows, Answered;
    var log := Run(INITIAL, inputs).log;
    RunKeepsInvariant(INITIAL, inputs);
    forall i | 0 <= i < |log| && PhysicalRelease(log[i]) ensures Answered(log, i) {
      RunAgrees(inputs, log[i].event.key);
      ReleaseIsAnswered(log, i);
    }
  }
}
