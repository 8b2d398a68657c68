// A run of eleven calls, with ordinary constant settings, that leaves a tapped key registered: arrivals
// are alternating and drained, nothing overflows, and yet a press is handed on as a tap and its release
// as a hold.
module TappingStuck {
  import opened Tapping
  import opened TappingInvariant
  import opened TappingOrder
  import opened TappingAgreement

  const P := Key(0, 0)
  const A := Key(0, 1)
  const X := Key(0, 2)
  const Y := Key(0, 3)

  // P, A and Y are tap-hold keys with terms of 200 ms, X is an ordinary key.
  const PLAIN := Env((r: Record) => r.event.key != X, _ => 200, _ => 200, _ => false, _ => false, _ => false)

  function Ev(key: Key, at: nat, pressed: bool): Event {
    Event(KeyEvent, key, at, pressed, Physical(at))
  }

  function Rec(key: Key, at: nat, pressed: bool, count: nat): Record {
    Record(Ev(key, at, pressed), Tap(false, count))
  }

  function Always(): nat -> Env { (_: nat) => PLAIN }

  // P is unsettled and the next n events wait behind it.
  function Waiting(n: nat): Machine
    requires n <= 6
  {
    Machine(Record(Ev(P, 0, true), Tap(n > 0, 0)), BEHIND[..n], [])
  }

  const BEHIND: seq<Record> := [
    Rec(A, 20, true, 0), Rec(A, 40, false, 0), Rec(X, 60, true, 0), Rec(A, 120, true, 0), Rec(Y, 130, true, 0),
    Rec(A, 140, false, 0)]

  lemma WaitOne(n: nat)
    requires n < 6
    ensures Call(Always(), Waiting(n), BEHIND[n]) == Waiting(n + 1)
  {
    var s, r := Waiting(n), BEHIND[n];
    assert BEHIND[..n] + [BEHIND[n]] == BEHIND[..n + 1];
    if !r.event.pressed {
      assert s.ring[0] == Rec(A, 20, true, 0);
      assert Typed(s.ring, r.event);
    }
    assert Offer(PLAIN, s, r) == Waiting(n + 1);
    var s' := Waiting(n + 1);
    assert s'.ring[0] == Rec(A, 20, true, 0);
    assert DrainOne(PLAIN, s') == Refused(s', s'.ring[0]);
  }

  const P_DOWN := Record(Ev(P, 0, true), Tap(true, 1))
  const P_UP := Record(Ev(P, 150, false), Tap(true, 1))
  const A_DOWN := Rec(A, 20, true, 1)
  const A_UP := Rec(A, 40, false, 1)
  const A_DOWN2 := Record(Ev(A, 120, true), Tap(true, 0))
  const X_DOWN := Rec(X, 60, true, 0)
  const Y_DOWN := Rec(Y, 130, true, 0)
  const A_UP2 := Rec(A, 140, false, 0)
  const A_DOWN3 := Rec(A, 160, true, 0)
  const A_UP3 := Record(Ev(A, 170, false), Tap(true, 1))

  const TAPPED_LOG := [P_DOWN, A_DOWN, A_UP, X_DOWN]

  // P's release settles P and A as taps; the second press of A, coming after X, starts over unscanned.
  const RESTARTED := Machine(A_DOWN2, [Y_DOWN, A_UP2, P_UP], TAPPED_LOG)

  const AFTER_P := Machine(P_DOWN, BEHIND + [P_UP], [P_DOWN])
  const AFTER_A := Machine(A_UP, [X_DOWN, BEHIND[3], Y_DOWN, A_UP2, P_UP], [P_DOWN, A_DOWN, A_UP])

  lemma SettleP()
    ensures Offer(PLAIN, Waiting(6), Rec(P, 150, false, 0)) == AFTER_P
  {
    assert BEHIND[..6] == BEHIND;
  }

  lemma DrainA()
    ensures Drain(Always(), 1, AFTER_P) == Drain(Always(), 3, AFTER_A)
  {
    var s1 := Machine(A_DOWN, [A_UP, X_DOWN, BEHIND[3], Y_DOWN, A_UP2, P_UP], [P_DOWN, A_DOWN]);
    assert AFTER_P.ring[1] == Rec(A, 40, false, 0) && ScanIndex(PLAIN, BEHIND[0], AFTER_P.ring) == 1;
    assert DrainOne(PLAIN, AFTER_P) == Taken(s1, BEHIND[0]);
    assert DrainOne(PLAIN, s1) == Taken(AFTER_A, A_UP);
  }

  lemma DrainToRestart()
    ensures Drain(Always(), 3, AFTER_A) == RESTARTED
  {
    var s3 := Machine(A_UP.(tap := Tap(true, 1)), [BEHIND[3], Y_DOWN, A_UP2, P_UP], TAPPED_LOG);
    assert DrainOne(PLAIN, AFTER_A) == Taken(s3, X_DOWN);
    var s4 := Machine(BEHIND[3], [Y_DOWN, A_UP2, P_UP], TAPPED_LOG);
    assert DrainOne(PLAIN, s3) == Taken(s4, BEHIND[3]);
    assert DrainOne(PLAIN, s4) == Refused(RESTARTED, Y_DOWN);
    assert Drain(Always(), 5, s4) == RESTARTED;
  }

  lemma ReleaseP()
    ensures Call(Always(), Waiting(6), Rec(P, 150, false, 0)) == RESTARTED
  {
    hide Offer, Drain;
    SettleP();
    DrainA();
    DrainToRestart();
  }

  const AGAIN := Machine(A_DOWN2, [Y_DOWN, A_UP2, P_UP, A_DOWN3], TAPPED_LOG)

  const A_TAPPED2 := Record(Ev(A, 120, true), Tap(true, 1))

  const OVERTAKEN := Machine(Y_DOWN, [A_UP2, P_UP, A_DOWN3, A_UP3], TAPPED_LOG + [A_TAPPED2])

  const FINAL_LOG := TAPPED_LOG + [A_TAPPED2, Y_DOWN, A_UP2, P_UP, SetCount(A_DOWN3, 1), A_UP3.(tap := Tap(false, 1))]

  const DONE := Machine(A_UP3.(tap := Tap(false, 1)), [], FINAL_LOG)

  lemma PressAgain()
    ensures Call(Always(), RESTARTED, A_DOWN3) == AGAIN
  {
    assert Offer(PLAIN, RESTARTED, A_DOWN3) == AGAIN;
    assert DrainOne(PLAIN, AGAIN) == Refused(AGAIN, Y_DOWN);
  }

  // The release of the third press settles the second one, whose own release is still queued.
  lemma ReleaseAgain()
    ensures Call(Always(), AGAIN, Rec(A, 170, false, 0)) == OVERTAKEN
  {
    var s0 := Machine(A_TAPPED2, AGAIN.ring + [A_UP3], TAPPED_LOG + [A_TAPPED2]);
    assert Offer(PLAIN, AGAIN, Rec(A, 170, false, 0)) == s0;
    assert DrainOne(PLAIN, s0) == Taken(OVERTAKEN, Y_DOWN);
    assert OVERTAKEN.ring[2] == A_DOWN3;
    assert Typed(OVERTAKEN.ring, A_UP2.event);
    assert DrainOne(PLAIN, OVERTAKEN) == Refused(OVERTAKEN, A_UP2);
    assert Drain(Always(), 1, s0) == Drain(Always(), 2, OVERTAKEN);
  }

  const TICK := Record(Event(TickEvent, P, 400, false, Synthesised), UNTAPPED)

  // Once Y times out that release is handed on as a hold.
  lemma Timeout()
    ensures Call(Always(), OVERTAKEN, TICK) == DONE
  {
    var e := Always();
    var log0 := TAPPED_LOG + [A_TAPPED2, Y_DOWN];
    var s0 := Machine(NO_KEY, OVERTAKEN.ring, log0);
    assert Offer(PLAIN, OVERTAKEN, TICK) == s0;
    var s1 := Machine(NO_KEY, [P_UP, A_DOWN3, A_UP3], log0 + [A_UP2]);
    assert DrainOne(PLAIN, s0) == Taken(s1, A_UP2);
    var s2 := Machine(NO_KEY, [A_DOWN3, A_UP3], log0 + [A_UP2, P_UP]);
    assert DrainOne(PLAIN, s1) == Taken(s2, P_UP);
    var s3 := Machine(SetCount(A_DOWN3, 1), [SetCount(A_UP3, 1)], log0 + [A_UP2, P_UP, SetCount(A_DOWN3, 1)]);
    assert ScanIndex(PLAIN, A_DOWN3, s2.ring) == 1;
    assert s2.ring[1 := SetCount(A_UP3, 1)] == [A_DOWN3, SetCount(A_UP3, 1)];
    assert DrainOne(PLAIN, s2) == Taken(s3, A_DOWN3);
    assert DrainOne(PLAIN, s3) == Taken(DONE, A_UP3.(tap := Tap(false, 1)));
    assert Drain(e, 3, s2) == Drain(e, 4, s3) == DONE;
    assert Drain(e, 1, s0) == Drain(e, 2, s1);
  }

  // ---- The run ----------------------------------------------------------------------------------

  const ARRIVALS: seq<Record> :=
    [Rec(P, 0, true, 0)] + BEHIND + [Rec(P, 150, false, 0), A_DOWN3, Rec(A, 170, false, 0), TICK]

  function Inputs(): seq<Input> {
    seq(11, i requires 0 <= i < 11 => Input(ARRIVALS[i].event, Always()))
  }

  function StateAt(j: nat): Machine
    requires j <= 11
  {
    if j == 0 then INITIAL
    else if j <= 7 then Waiting(j - 1)
    else if j == 8 then RESTARTED
    else if j == 9 then AGAIN
    else if j == 10 then OVERTAKEN
    else DONE
  }

  lemma OneCall(j: nat)
    requires j < 11
    ensures Call(Always(), StateAt(j), ARRIVALS[j]) == StateAt(j + 1)
    ensures !Overflows(PLAIN, StateAt(j), ARRIVALS[j]) && ArrivesDrained(StateAt(j), ARRIVALS[j])
  {
    if j == 0 {
      assert Offer(PLAIN, INITIAL, ARRIVALS[0]) == Waiting(0);
    } else if j <= 6 {
      assert ARRIVALS[j] == BEHIND[j - 1];
      WaitOne(j - 1);
    } else if j == 7 {
      ReleaseP();
    } else if j == 8 {
      PressAgain();
    } else if j == 9 {
      ReleaseAgain();
    } else {
      Timeout();
    }
  }

  // Times are in order and close together throughout.
  lemma OneWindow(j: nat)
    requires j < 11
    ensures InWindow(StateAt(j).ring + [ARRIVALS[j]])
  {
    var w := StateAt(j).ring + [ARRIVALS[j]];
    if j == 0 {
    } else if j <= 7 {
      forall i | 0 <= i < j ensures w[i].event.at == TIMES[i] {
        assert i < j - 1 ==> w[i] == BEHIND[i];
        assert i == j - 1 ==> w[i] == ARRIVALS[i + 1];
        assert ARRIVALS[i + 1].event.at == TIMES[i];
      }
      TimesTell(w, TIMES[..j]);
    } else if j == 8 {
      TimesTell(w, [130, 140, 150, 160]);
    } else if j == 9 {
      TimesTell(w, [130, 140, 150, 160, 170]);
    } else {
      TimesTell(w, [140, 150, 160, 170, 400]);
    }
  }

  const TIMES: seq<nat> := [20, 40, 60, 120, 130, 140, 150]

  lemma TimesTell(w: seq<Record>, times: seq<nat>)
    requires |w| == |times| && forall i :: 0 <= i < |w| ==> w[i].event.at == times[i]
    requires forall i, j :: 0 <= i < j < |times| ==> times[i] <= times[j] < 1000
    ensures InWindow(w)
  {
  }

  lemma InputAt(j: nat)
    requires j < 11
    ensures Inputs()[j].Fresh() == ARRIVALS[j] && Inputs()[j].envs == Always()
  {
  }

  lemma {:induction false} Prefix(j: nat)
    requires j <= 11
    ensures Run(INITIAL, Inputs()[..j]) == StateAt(j)
    ensures NeverOverflows(INITIAL, Inputs()[..j])
  {
    hide Call, StateAt, Overflows;
    if j > 0 {
      Prefix(j - 1);
      OneCall(j - 1);
      InputAt(j - 1);
      assert Inputs()[..j][..j - 1] == Inputs()[..j - 1];
    } else {
      assert StateAt(0) == INITIAL by { InitialState(); }
    }
  }

  lemma InitialState()
    ensures StateAt(0) == INITIAL
  {
  }

  // How many of the first j arrivals concern key k.
  function Count(j: nat, k: Key): nat
    requires j <= 11
  {
    if j == 0 then 0 else Count(j - 1, k) + if Concerns(ARRIVALS[j - 1], k) then 1 else 0
  }

  lemma EveryoneInTurn(j: nat)
    requires j < 10
    ensures ARRIVALS[j].event.pressed == (Count(j, ARRIVALS[j].event.key) % 2 == 0)
  {
    assert Count(2, A) == 1 && Count(4, A) == 2 && Count(6, A) == 3;
    assert Count(8, A) == 4 && Count(9, A) == 5;
    assert Count(4, P) == 1 && Count(7, P) == 1;
  }

  lemma NoTickBefore(j: nat)
    requires j < 11 && !IsTick(ARRIVALS[j])
    ensures j < 10
  {
  }

  lemma {:induction false} PrefixAlternates(j: nat, k: Key)
    requires j <= 11
    ensures |FedOf(Inputs()[..j], k)| == Count(j, k) && Alternates(FedOf(Inputs()[..j], k))
  {
    if j > 0 {
      hide Alternates, FedOf;
      PrefixAlternates(j - 1, k);
      FedOneMore(Inputs()[..j], k);
      assert Inputs()[..j][..j - 1] == Inputs()[..j - 1];
      InputAt(j - 1);
      if Concerns(ARRIVALS[j - 1], k) {
        NoTickBefore(j - 1);
        EveryoneInTurn(j - 1);
        AlternatesAppend(FedOf(Inputs()[..j - 1], k), Inputs()[j - 1].event);
      } else {
        assert FedOf(Inputs()[..j - 1], k) + [] == FedOf(Inputs()[..j - 1], k);
      }
    } else {
      assert FedOf([], k) == [];
    }
  }

  lemma FinalLogDisagrees()
    ensures OwnPress(FINAL_LOG, 4, 6) && PhysicalRelease(FINAL_LOG[6]) && !Answered(FINAL_LOG, 6)
    ensures Marked(FINAL_LOG[4]) && !Marked(FINAL_LOG[6]) && !FreedBetween(FINAL_LOG, 4, 6)
  {
    assert FINAL_LOG[4] == A_TAPPED2 && FINAL_LOG[5] == Y_DOWN && FINAL_LOG[6] == A_UP2;
  }

  lemma InputsAlternate()
    ensures AlternatingInputs(Inputs())
  {
    forall k ensures Alternates(FedOf(Inputs(), k)) {
      PrefixAlternates(11, k);
      assert Inputs()[..11] == Inputs();
    }
  }

  lemma ArrivalDrained(j: nat)
    requires j < 11
    ensures ArrivesDrained(Run(INITIAL, Inputs()[..j]), Inputs()[j].Fresh())
  {
    hide Call, Run;
    Prefix(j);
    OneCall(j);
    assert Inputs()[j].Fresh() == ARRIVALS[j];
  }

  lemma InputsDrained()
    ensures DrainedArrivals(Inputs())
  {
    forall j | 0 <= j < 11 ensures ArrivesDrained(Run(INITIAL, Inputs()[..j]), Inputs()[j].Fresh()) {
      ArrivalDrained(j);
    }
  }

  lemma AgesInOrder(j: nat)
    requires j < 11
    ensures AgesTell(Run(INITIAL, Inputs()[..j]).ring + [Inputs()[j].Fresh()])
  {
    hide Call, Run, StateAt, AgesTell, InWindow;
    Prefix(j);
    OneWindow(j);
    InputAt(j);
    WindowTells(StateAt(j).ring + [ARRIVALS[j]]);
  }

  lemma WholeRun()
    ensures GenuineInputs(Inputs()) && NeverOverflows(INITIAL, Inputs())
    ensures Run(INITIAL, Inputs()).log == FINAL_LOG
  {
    hide Call, Run;
    Prefix(11);
    assert Inputs()[..11] == Inputs();
  }

  // Alternating keys, drained arrivals, ages that tell, constant settings and no overflow do not suffice:
  // A's second press is handed on as a tap and its own release as a hold, and nothing was made up in between.
  lemma DisagreeingRun()
    ensures GenuineInputs(Inputs()) && NeverOverflows(INITIAL, Inputs())
    ensures AlternatingInputs(Inputs()) && DrainedArrivals(Inputs())
    ensures forall j :: 0 <= j < 11 ==> AgesTell(Run(INITIAL, Inputs()[..j]).ring + [Inputs()[j].Fresh()])
    ensures var log := Run(INITIAL, Inputs()).log;
      |log| > 6 && OwnPress(log, 4, 6) && PhysicalRelease(log[6]) && !Answered(log, 6)
      && Marked(log[4]) && !Marked(log[6]) && !FreedBetween(log, 4, 6)
  {
    hide AgesTell, Run, AlternatingInputs;
    forall j | 0 <= j < 11 ensures AgesTell(Run(INITIAL, Inputs()[..j]).ring + [Inputs()[j].Fresh()]) {
      AgesInOrder(j);
    }
    WholeRun();
    InputsAlternate();
    InputsDrained();
    FinalLogDisagrees();
  }
}
