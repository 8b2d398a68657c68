// From the matrix to the tap-hold machine: the events of a run of scans are what the machine's theorems
// ask of their inputs.
module Pipeline {
  import Matrix
  import opened Tapping
  import opened TappingInvariant
  import opened TappingOrder
  import opened TappingAgreement

  // A key event as the scan reports it.
  predicate Reports(e: Event, c: Matrix.Change) {
    e.kind.KeyEvent? && e.key == Key(c.key.row, c.key.col) && e.pressed == c.pressed && c.executed
  }

  // The inputs are these changes in order, with ticks anywhere in between.
  predicate Feeds(inputs: seq<Input>, log: seq<Matrix.Change>)
    decreases |inputs|
  {
    if inputs == [] then log == []
    else
      var n := |inputs| - 1;
      if IsTick(inputs[n].Fresh()) then Feeds(inputs[..n], log)
      else log != [] && Reports(inputs[n].event, log[|log| - 1]) && Feeds(inputs[..n], log[..|log| - 1])
  }

  predicate Turn(inputs: seq<Input>, log: seq<Matrix.Change>, k: Key) {
    Matrix.Held(log, Matrix.Key(k.row, k.col)) == (|FedOf(inputs, k)| % 2 == 1)
  }

  lemma FedOfLast(inputs: seq<Input>, k: Key)
    requires inputs != []
    ensures var n := |inputs| - 1;
      FedOf(inputs, k) == FedOf(inputs[..n], k) + if Concerns(inputs[n].Fresh(), k) then [inputs[n].event] else []
  {
  }

  // What a key's events leave is told by their number.
  lemma {:induction false} FeedsAlternate(inputs: seq<Input>, log: seq<Matrix.Change>, k: Key)
    requires GenuineInputs(inputs) && Feeds(inputs, log) && Matrix.Alternates(log)
    ensures Alternates(FedOf(inputs, k)) && Turn(inputs, log, k)
    decreases |inputs|
  {
    if inputs != [] {
      hide FedOf;
      var n := |inputs| - 1;
      FedOfLast(inputs, k);
      if IsTick(inputs[n].Fresh()) {
        FeedsAlternate(inputs[..n], log, k);
      } else {
        var m := |log| - 1;
        var c := log[m];
        LogPrefix(log);
        FeedsAlternate(inputs[..n], log[..m], k);
      }
    }
  }

  lemma LogPrefix(log: seq<Matrix.Change>)
    requires Matrix.Alternates(log) && log != []
    ensures var m := |log| - 1;
      Matrix.Alternates(log[..m]) && log[m].pressed != Matrix.Held(log[..m], log[m].key)
  {
    var before := log[..|log| - 1];
    forall i | 0 <= i < |before| ensures before[i].pressed != Matrix.Held(before[..i], before[i].key) {
      assert before[..i] == log[..i];
    }
  }

  // Events of any run of scans, fed to the machine with ticks in between, alternate for every key.
  lemma ScannedInputsAlternate(b: Matrix.Size, scans: seq<Matrix.Option<Matrix.Scan>>, inputs: seq<Input>)
    requires forall s :: s in scans && s.Some? ==> Matrix.Fits(b, s.value)
    requires GenuineInputs(inputs) && Feeds(inputs, Matrix.Run(b, scans).log)
    ensures AlternatingInputs(inputs)
  {
    hide Alternates, FedOf, Feeds;
    Matrix.RunReplays(b, scans);
    forall k ensures Alternates(FedOf(inputs, k)) {
      FeedsAlternate(inputs, Matrix.Run(b, scans).log, k);
    }
  }

  // So every release handed on after any run of scans agrees with its press, when the events arrive in
  // good order and the queue never overflows.
  lemma NoStuckKeyAfterScans(b: Matrix.Size, scans: seq<Matrix.Option<Matrix.Scan>>, inputs: seq<Input>)
    requires forall s :: s in scans && s.Some? ==> Matrix.Fits(b, s.value)
    requires GenuineInputs(inputs) && Feeds(inputs, Matrix.Run(b, scans).log)
    requires NeverOverflows(INITIAL, inputs) && OrderlyArrivals(inputs)
    ensures var log := Run(INITIAL, inputs).log;
      forall i :: 0 <= i < |log| && PhysicalRelease(log[i]) ==> Answered(log, i)
  {
    hide Answered, Run, OrderlyArrivals, NeverOverflows;
    ScannedInputsAlternate(b, scans, inputs);
    TapHoldAgreement(inputs);
  }
}
