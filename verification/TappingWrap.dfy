// A run of eight calls in which a queued release looks younger than an earlier one, because their ages are
// taken modulo 65536 ms: a press is settled on the wrong release and its own is handed on as a hold.
module TappingWrap {
  import opened Tapping
  import opened TappingInvariant
  import opened TappingOrder
  import opened TappingAgreement

  const P := Key(0, 0)
  const A := Key(0, 1)
  const Y := Key(0, 2)

  // Tap-hold keys with terms of 400 ms for P and 200 ms for the others.
  const PLAIN := Env(_ => true, (r: Record) => if r.event.key == P then 400 else 200, _ => 200,
                     _ => false, _ => false, _ => false)

  function Always(): nat -> Env { (_: nat) => PLAIN }

  function Rec(key: Key, at: nat, pressed: bool, count: nat): Record {
    Record(Event(KeyEvent, key, at, pressed, Physical(at)), Tap(false, count))
  }

  const BEHIND: seq<Record> := [
    Rec(A, 20, true, 0), Rec(Y, 30, true, 0), Rec(A, 300, false, 0), Rec(A, 65566, true, 0), Rec(A, 65576, false, 0)]

  // P is unsettled and the next n events wait behind it.
  function Waiting(n: nat): Machine
    requires n <= 5
  {
    Machine(Rec(P, 0, true, 0).(tap := Tap(n > 0, 0)), BEHIND[..n], [])
  }

  lemma WaitOne(n: nat)
    requires n < 5
    ensures Call(Always(), Waiting(n), BEHIND[n]) == Waiting(n + 1)
    ensures !Overflows(PLAIN, Waiting(n), BEHIND[n])
  {
    var s, r := Waiting(n), BEHIND[n];
    assert BEHIND[..n] + [BEHIND[n]] == BEHIND[..n + 1];
    if !r.event.pressed {
      assert s.ring[0] == Rec(A, 20, true, 0);
      assert Typed(s.ring, r.event);
    }
    assert Offer(PLAIN, s, r) == Waiting(n + 1);
    var s' := Waiting(n + 1);
    assert s'.ring[0] == Rec(A, 20, true, 0);
    assert DrainOne(PLAIN, s') == Refused(s', s'.ring[0]);
  }

  const P_DOWN := Rec(P, 0, true, 0).(tap := Tap(true, 1))
  const P_UP := Rec(P, 65586, false, 0).(tap := Tap(true, 1))
  const A_DOWN := Rec(A, 20, true, 1)
  const Y_DOWN := Rec(Y, 30, true, 0)
  const A_UP := Rec(A, 300, false, 0)
  const A_DOWN2 := Rec(A, 65566, true, 0)
  const A_UP2 := Rec(A, 65576, false, 1)

  const SETTLED_LOG := [P_DOWN, A_DOWN, Y_DOWN]
  const SETTLED := Machine(NO_KEY, [A_UP, A_DOWN2, A_UP2, P_UP], SETTLED_LOG)

  // P's release settles P; A settles on its second release; Y is late for A's first.
  lemma ReleaseP()
    ensures Call(Always(), Waiting(5), Rec(P, 65586, false, 0)) == SETTLED
  {
    var s0 := Machine(P_DOWN, BEHIND + [P_UP], [P_DOWN]);
    assert BEHIND[..5] == BEHIND;
    assert Offer(PLAIN, Waiting(5), Rec(P, 65586, false, 0)) == s0;
    assert s0.ring[0] == Rec(A, 20, true, 0);
    var s1 := Machine(A_DOWN, [Y_DOWN, A_UP, A_DOWN2, A_UP2, P_UP], [P_DOWN, A_DOWN]);
    ScanA(s0.ring);
    assert DrainOne(PLAIN, s0) == Taken(s1, s0.ring[0]);
    var s2 := Machine(Y_DOWN, [A_UP, A_DOWN2, A_UP2, P_UP], [P_DOWN, A_DOWN]);
    assert DrainOne(PLAIN, s1) == Taken(s2, Y_DOWN);
    assert DrainOne(PLAIN, s2) == Refused(SETTLED, A_UP);
    assert Drain(Always(), 1, s0) == Drain(Always(), 2, s1) == Drain(Always(), 3, s2);
  }

  lemma ScanA(ring: seq<Record>)
    requires ring == BEHIND + [P_UP]
    ensures ScanIndex(PLAIN, Rec(A, 20, true, 0), ring) == 4
  {
    var t := Rec(A, 20, true, 0);
    assert ring[4] == Rec(A, 65576, false, 0) && TapCandidate(PLAIN, t, ring[4]);
    assert !TapCandidate(PLAIN, t, ring[0]) && !TapCandidate(PLAIN, t, ring[1]);
    assert ring[2] == A_UP && !TapCandidate(PLAIN, t, ring[2]);
    assert !TapCandidate(PLAIN, t, ring[3]);
    var i := ScanIndex(PLAIN, t, ring);
    assert i <= 4;
  }

  const TICK := Record(Event(TickEvent, P, 65587, false, Synthesised), UNTAPPED)

  const FINAL_LOG := SETTLED_LOG + [A_UP, SetCount(A_DOWN2, 1), A_UP2, P_UP]

  // The next tick hands on A's first release as a hold.
  lemma HandOn()
    ensures Call(Always(), SETTLED, TICK) == Machine(A_UP2, [], FINAL_LOG)
  {
    var e := Always();
    assert Offer(PLAIN, SETTLED, TICK) == SETTLED;
    var s1 := Machine(NO_KEY, [A_DOWN2, A_UP2, P_UP], SETTLED_LOG + [A_UP]);
    assert DrainOne(PLAIN, SETTLED) == Taken(s1, A_UP);
    var s2 := Machine(SetCount(A_DOWN2, 1), [A_UP2, P_UP], SETTLED_LOG + [A_UP, SetCount(A_DOWN2, 1)]);
    assert s1.ring[1] == A_UP2 && TapCandidate(PLAIN, A_DOWN2, A_UP2);
    assert ScanIndex(PLAIN, A_DOWN2, s1.ring) == 1;
    assert s1.ring[1 := SetCount(A_UP2, 1)] == s1.ring;
    assert DrainOne(PLAIN, s1) == Taken(s2, A_DOWN2);
    var s3 := Machine(A_UP2, [P_UP], SETTLED_LOG + [A_UP, SetCount(A_DOWN2, 1), A_UP2]);
    assert DrainOne(PLAIN, s2) == Taken(s3, A_UP2);
    var s4 := Machine(A_UP2, [], FINAL_LOG);
    assert DrainOne(PLAIN, s3) == Taken(s4, P_UP);
    assert Drain(e, 3, s2) == Drain(e, 4, s3) == Drain(e, 5, s4) == s4;
    assert Drain(e, 1, SETTLED) == Drain(e, 2, s1) == Drain(e, 3, s2);
  }

  // ---- The run ----------------------------------------------------------------------------------

  const ARRIVALS: seq<Record> := [Rec(P, 0, true, 0)] + BEHIND + [Rec(P, 65586, false, 0), TICK]

  function Inputs(): seq<Input> {
    seq(8, i requires 0 <= i < 8 => Input(ARRIVALS[i].event, Always()))
  }

  function StateAt(j: nat): Machine
    requires j <= 8
  {
    if j == 0 then INITIAL
    else if j <= 6 then Waiting(j - 1)
    else if j == 7 then SETTLED
    else Machine(A_UP2, [], FINAL_LOG)
  }

  lemma OneCall(j: nat)
    requires j < 8
    ensures Call(Always(), StateAt(j), ARRIVALS[j]) == StateAt(j + 1)
    ensures !Overflows(PLAIN, StateAt(j), ARRIVALS[j]) && ArrivesDrained(StateAt(j), ARRIVALS[j])
    ensures !IsTick(ARRIVALS[j]) ==> ReleaseIsFirst(PLAIN, StateAt(j), ARRIVALS[j])
  {
    if j == 0 {
      assert Offer(PLAIN, INITIAL, ARRIVALS[0]) == Waiting(0);
    } else if j <= 5 {
      assert ARRIVALS[j] == BEHIND[j - 1];
      WaitOne(j - 1);
    } else if j == 6 {
      ReleaseP();
    } else {
      HandOn();
    }
  }

  lemma InputAt(j: nat)
    requires j < 8
    ensures Inputs()[j].Fresh() == ARRIVALS[j] && Inputs()[j].envs == Always()
  {
  }

  lemma {:induction false} Prefix(j: nat)
    requires j <= 8
    ensures Run(INITIAL, Inputs()[..j]) == StateAt(j)
    ensures NeverOverflows(INITIAL, Inputs()[..j])
  {
    hide Call, StateAt, Overflows;
    if j > 0 {
      Prefix(j - 1);
      OneCall(j - 1);
      InputAt(j - 1);
      assert Inputs()[..j][..j - 1] == Inputs()[..j - 1];
    } else {
      assert StateAt(0) == INITIAL by { InitialState(); }
    }
  }

  lemma InitialState()
    ensures StateAt(0) == INITIAL
  {
  }

  // How many of the first j arrivals concern key k.
  function Count(j: nat, k: Key): nat
    requires j <= 8
  {
    if j == 0 then 0 else Count(j - 1, k) + if Concerns(ARRIVALS[j - 1], k) then 1 else 0
  }

  lemma EveryoneInTurn(j: nat)
    requires j < 7
    ensures ARRIVALS[j].event.pressed == (Count(j, ARRIVALS[j].event.key) % 2 == 0)
  {
    assert Count(2, A) == 1 && Count(3, A) == 1 && Count(4, A) == 2 && Count(5, A) == 3;
    assert Count(3, P) == 1 && Count(6, P) == 1;
  }

  lemma NoTickBefore(j: nat)
    requires j < 8 && !IsTick(ARRIVALS[j])
    ensures j < 7
  {
  }

  lemma {:induction false} PrefixAlternates(j: nat, k: Key)
    requires j <= 8
    ensures |FedOf(Inputs()[..j], k)| == Count(j, k) && Alternates(FedOf(Inputs()[..j], k))
  {
    if j > 0 {
      hide Alternates, FedOf;
      PrefixAlternates(j - 1, k);
      FedOneMore(Inputs()[..j], k);
      assert Inputs()[..j][..j - 1] == Inputs()[..j - 1];
      InputAt(j - 1);
      if Concerns(ARRIVALS[j - 1], k) {
        NoTickBefore(j - 1);
        EveryoneInTurn(j - 1);
        AlternatesAppend(FedOf(Inputs()[..j - 1], k), Inputs()[j - 1].event);
      } else {
        assert FedOf(Inputs()[..j - 1], k) + [] == FedOf(Inputs()[..j - 1], k);
      }
    } else {
      assert FedOf([], k) == [];
    }
  }

  lemma FinalLogDisagrees()
    ensures PhysicalRelease(FINAL_LOG[3]) && OwnPress(FINAL_LOG, 1, 3) && !Answered(FINAL_LOG, 3)
    ensures Marked(FINAL_LOG[1]) && !Marked(FINAL_LOG[3])
  {
    assert FINAL_LOG[0] == P_DOWN && FINAL_LOG[1] == A_DOWN && FINAL_LOG[2] == Y_DOWN && FINAL_LOG[3] == A_UP;
  }

  lemma InputsAlternate()
    ensures AlternatingInputs(Inputs())
  {
    hide Alternates, FedOf;
    forall k ensures Alternates(FedOf(Inputs(), k)) {
      PrefixAlternates(8, k);
      assert Inputs()[..8] == Inputs();
    }
  }

  lemma ArrivalInOrder(j: nat)
    requires j < 8
    ensures var s, r := Run(INITIAL, Inputs()[..j]), Inputs()[j].Fresh();
      ArrivesDrained(s, r) && (!IsTick(r) ==> ReleaseIsFirst(Inputs()[j].envs(0), s, r))
  {
    hide Call, Run, StateAt, ReleaseIsFirst, ArrivesDrained;
    Prefix(j);
    OneCall(j);
    InputAt(j);
  }

  // A's queued press has its second release look younger than its first.
  lemma AgesMislead()
    ensures !AgesTell(BEHIND)
  {
    var t, rest := BEHIND[0], BEHIND[1..];
    assert t == Rec(A, 20, true, 0) && rest[1] == A_UP && rest[3] == Rec(A, 65576, false, 0);
    assert rest[0] == Y_DOWN;
    assert FirstRelease(t, rest) == 1;
    assert IsReleaseOf(rest[3], t) && Age(t, rest[1]) == 280 && Age(t, rest[3]) == 20;
    assert BEHIND[0 + 1..] == rest;
  }

  // Only the ages are out of order, and agreement fails: A's first press is handed on as a tap and its own
  // release as a hold.
  lemma MisleadingRun()
    ensures GenuineInputs(Inputs()) && NeverOverflows(INITIAL, Inputs())
    ensures AlternatingInputs(Inputs()) && DrainedArrivals(Inputs())
    ensures forall j :: 0 <= j < 8 && !IsTick(Inputs()[j].Fresh()) ==>
      ReleaseIsFirst(Inputs()[j].envs(0), Run(INITIAL, Inputs()[..j]), Inputs()[j].Fresh())
    ensures Run(INITIAL, Inputs()[..6]).ring == BEHIND && !AgesTell(BEHIND)
    ensures var log := Run(INITIAL, Inputs()).log; |log| > 3 && PhysicalRelease(log[3]) && !Answered(log, 3)
  {
    hide Call, Run, ReleaseIsFirst, ArrivesDrained, AgesTell, AlternatingInputs;
    Prefix(8);
    assert Inputs()[..8] == Inputs();
    Prefix(6);
    assert BEHIND[..5] == BEHIND;
    InputsAlternate();
    AgesMislead();
    FinalLogDisagrees();
    forall j | 0 <= j < 8
      ensures ArrivesDrained(Run(INITIAL, Inputs()[..j]), Inputs()[j].Fresh())
      ensures !IsTick(Inputs()[j].Fresh()) ==>
                ReleaseIsFirst(Inputs()[j].envs(0), Run(INITIAL, Inputs()[..j]), Inputs()[j].Fresh())
    {
      ArrivalInOrder(j);
    }
  }
}
