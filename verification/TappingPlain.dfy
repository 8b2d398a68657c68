// The simplest run that meets the conditions of the agreement theorem: a tap-hold key pressed and released
// within its term, handed on as a tap and released as one.
module TappingPlain {
  import opened Tapping
  import opened TappingInvariant
  import opened TappingOrder
  import opened TappingAgreement
  import opened TappingStuck

  const DOWN := Rec(P, 0, true, 0)
  const UP := Rec(P, 50, false, 0)

  function TapInputs(): seq<Input> { [Input(DOWN.event, Always()), Input(UP.event, Always())] }

  lemma PressHeld()
    ensures Call(Always(), INITIAL, DOWN) == Machine(DOWN, [], [])
  {
  }

  lemma ReleaseTaps()
    ensures Call(Always(), Machine(DOWN, [], []), UP).log == [SetCount(DOWN, 1), SetCount(UP, 1)]
    ensures !Overflows(PLAIN, Machine(DOWN, [], []), UP)
  {
    var s := Offer(PLAIN, Machine(DOWN, [], []), UP);
    assert s == Machine(SetCount(DOWN, 1), [SetCount(UP, 1)], [SetCount(DOWN, 1)]);
    var o := DrainOne(Always()(1), s);
    assert o.consumed && o.machine.ring == [] && o.machine.log == [SetCount(DOWN, 1), SetCount(UP, 1)];
    assert Drain(Always(), 1, s) == Drain(Always(), 2, o.machine) == o.machine;
  }

  lemma Prefixes()
    ensures TapInputs()[..0] == [] && TapInputs()[..1] == [Input(DOWN.event, Always())]
    ensures TapInputs()[..2] == TapInputs()
    ensures TapInputs()[..1][..0] == []
  {
  }

  lemma TapAlternates(k: Key)
    ensures Alternates(FedOf(TapInputs(), k))
  {
    Prefixes();
    assert FedOf(TapInputs()[..1], k) == [] + Events(Single(DOWN, k));
    assert FedOf(TapInputs(), k) == Events(Single(DOWN, k)) + Events(Single(UP, k));
  }

  lemma TapArrives()
    ensures Run(INITIAL, TapInputs()[..1]) == Machine(DOWN, [], [])
    ensures NeverOverflows(INITIAL, TapInputs()) && OrderlyArrivals(TapInputs())
  {
    Prefixes();
    PressHeld();
    ReleaseTaps();
    forall j | 0 <= j < 2
      ensures ArrivesOrderly(TapInputs()[j].envs(0), Run(INITIAL, TapInputs()[..j]), TapInputs()[j].Fresh())
    {
      assert j == 0 || j == 1;
    }
  }

  lemma TapQualifies()
    ensures GenuineInputs(TapInputs()) && NeverOverflows(INITIAL, TapInputs())
    ensures AlternatingInputs(TapInputs()) && OrderlyArrivals(TapInputs())
    ensures Run(INITIAL, TapInputs()).log == [SetCount(DOWN, 1), SetCount(UP, 1)]
  {
    hide Alternates, FedOf, OrderlyArrivals;
    TapArrives();
    forall k ensures Alternates(FedOf(TapInputs(), k)) {
      TapAlternates(k);
    }
    Prefixes();
    ReleaseTaps();
  }
}
