// What the firmware answers for a key press or release, along any run of layer changes, presses and releases.
module LayerAnswers {
  import opened LayerCache
  import Tapping

  // ---- The layers in force ----------------------------------------------------------------------

  // The layer state stored last.
  function LastState(ops: seq<Op>): bv32 {
    if ops == [] then 0
    else if ops[|ops| - 1].SetLayers? then ops[|ops| - 1].state
    else LastState(ops[..|ops| - 1])
  }

  // The default layer state stored last.
  function LastDefault(ops: seq<Op>): bv32 {
    if ops == [] then 0
    else if ops[|ops| - 1].SetDefault? then ops[|ops| - 1].base
    else LastDefault(ops[..|ops| - 1])
  }

  lemma {:induction false} RunStores(c: Config, ops: seq<Op>)
    requires c.Valid()
    ensures Run(c, ops).state == LastState(ops) && Run(c, ops).base == LastDefault(ops)
  {
    if ops != [] {
      hide TopLayer, Source;
      RunStores(c, ops[..|ops| - 1]);
    }
  }

  // The highest layer that is on after these operations and has an action of its own for the key, or layer 0.
  predicate Foremost(c: Config, ops: seq<Op>, keymap: Keymap, key: Tapping.Key, layer: nat)
    requires c.Valid()
  {
    var layers := LastState(ops) | LastDefault(ops);
    && (layer == 0 || (layer < c.maxLayer && Speaks(layers, keymap, key, layer)))
    && (forall i :: layer < i < c.maxLayer ==> !Speaks(layers, keymap, key, i))
  }

  // ---- Answers ----------------------------------------------------------------------------------

  // The layer from which a press or release after these operations takes its action.
  function Answer(c: Config, ops: seq<Op>, pressed: bool, key: Tapping.Key, keymap: Keymap, nocache: bool): nat
    requires c.Valid()
  {
    StoreOrGet(c, Run(c, ops), pressed, key, keymap, nocache).1
  }

  // A press, and whatever bypasses the cache, is answered from the layers in force.
  lemma AnswersFromForemost(c: Config, ops: seq<Op>, pressed: bool, key: Tapping.Key, keymap: Keymap, nocache: bool)
    requires c.Valid() && (pressed || nocache)
    ensures Foremost(c, ops, keymap, key, Answer(c, ops, pressed, key, keymap, nocache))
  {
    hide Speaks;
    RunStores(c, ops);
  }

  // The operation is a press of a key on the matrix that goes through the cache, and the key is not pressed so
  // again later.
  predicate LastPress(c: Config, ops: seq<Op>, at: nat, key: Tapping.Key) {
    && at < |ops| && Presses(ops[at], key) && c.OnMatrix(key)
    && forall j :: at < j < |ops| ==> !Presses(ops[j], key)
  }

  // A release is answered as the key's last press was, up to its next press, whatever happened to the layers,
  // the keymap and the other keys in between: the highest layer that spoke for the key at the press.
  lemma ReleaseFindsPress(c: Config, ops: seq<Op>, at: nat, key: Tapping.Key, keymap: Keymap)
    requires c.Valid() && LastPress(c, ops, at, key)
    ensures var answer := Answer(c, ops, false, key, keymap, false);
      && answer == Answer(c, ops[..at], true, key, ops[at].keymap, false)
      && Foremost(c, ops[..at], ops[at].keymap, key, answer)
  {
    hide Speaks, Run;
    SourceIsLastChoice(c, ops, at);
    AnswersFromForemost(c, ops[..at], true, key, ops[at].keymap, false);
  }

  // A release of a key that was not pressed through the cache, or lies off the matrix, is answered from layer 0.
  lemma ReleaseWithoutPress(c: Config, ops: seq<Op>, key: Tapping.Key, keymap: Keymap)
    requires c.Valid() && (!c.OnMatrix(key) || forall j :: 0 <= j < |ops| ==> !Presses(ops[j], key))
    ensures Answer(c, ops, false, key, keymap, false) == 0
  {
    hide TopLayer;
    if c.OnMatrix(key) {
      UnpressedIsBase(c, ops, key);
    }
  }
}
