// Layers and the source-layer cache of quantum/action_layer.c: which layer a key's action comes from,
// and the bit-sliced array that remembers it from press to release.
module LayerCache {
  import opened Tapping

  // ---- One byte column ----------------------------------------------------------------------------

  // 1U << bit, for a bit of a byte.
  function Mask(bit: nat): bv8
    requires bit < 8
  {
    [1, 2, 4, 8, 16, 32, 64, 128][bit]
  }

  predicate Bit(x: bv8, bit: nat)
    requires bit < 8
  {
    x & Mask(bit) != 0
  }

  lemma MaskMeets(a: nat, b: nat)
    requires a < 8 && b < 8
    ensures Mask(a) & Mask(b) == if a == b then Mask(a) else 0
    ensures Mask(a) != 0
  {
  }

  // The update of one byte: bit storage_bit is set or cleared, without branching.
  function Splice(c: bv8, on: bool, bit: nat): bv8
    requires bit < 8
  {
    MaskSplice(c, if on then 0xFF else 0, Mask(bit))
  }

  function MaskSplice(c: bv8, value: bv8, m: bv8): bv8 { c ^ ((value ^ c) & m) }

  lemma MaskSpliceUnder(c: bv8, value: bv8, m: bv8, k: bv8)
    ensures k & m == k ==> MaskSplice(c, value, m) & k == value & k
    ensures m & k == 0 ==> MaskSplice(c, value, m) & k == c & k
  {
  }

  lemma SpliceBits(c: bv8, on: bool, bit: nat, j: nat)
    requires bit < 8 && j < 8
    ensures Bit(Splice(c, on, bit), j) == if j == bit then on else Bit(c, j)
  {
    hide Mask, MaskSplice;
    MaskMeets(j, bit);
    MaskMeets(bit, j);
    MaskSpliceUnder(c, if on then 0xFF else 0, Mask(bit), Mask(j));
    AllOrNothing(Mask(j));
  }

  lemma AllOrNothing(m: bv8)
    ensures 0xFF & m == m && 0 & m == 0
  {
  }

  lemma SameBits(x: bv8, y: bv8)
    requires forall j: nat :: j < 8 ==> Bit(x, j) == Bit(y, j)
    ensures x == y
  {
    assert Bit(x, 0) == Bit(y, 0) && Bit(x, 1) == Bit(y, 1) && Bit(x, 2) == Bit(y, 2) && Bit(x, 3) == Bit(y, 3);
    assert Bit(x, 4) == Bit(y, 4) && Bit(x, 5) == Bit(y, 5) && Bit(x, 6) == Bit(y, 6) && Bit(x, 7) == Bit(y, 7);
  }

  // ---- One row of the cache: eight entries, one byte per layer bit -----------------------------------

  function UpdateRow(row: seq<bv8>, layer: bv8, bit: nat): (r: seq<bv8>)
    requires |row| <= 8 && bit < 8
    ensures |r| == |row|
  {
    seq(|row|, b requires 0 <= b < |row| => Splice(row[b], Bit(layer, b), bit))
  }

  // The layer of the first n bit columns.
  function ReadRow(row: seq<bv8>, n: nat, bit: nat): bv8
    requires n <= |row| <= 8 && bit < 8
  {
    if n == 0 then 0 else ReadRow(row, n - 1, bit) | if Bit(row[n - 1], bit) then Mask(n - 1) else 0
  }

  lemma OrUnder(x: bv8, m: bv8, k: bv8)
    ensures (x | m) & k == (x & k) | (m & k)
    ensures (x & k) | 0 == x & k
    ensures k != 0 ==> (x & k) | k != 0
    ensures x | 0 == x
  {
  }

  lemma {:induction false} ReadRowBits(row: seq<bv8>, n: nat, bit: nat, j: nat)
    requires n <= |row| <= 8 && bit < 8 && j < 8
    ensures Bit(ReadRow(row, n, bit), j) == (j < n && Bit(row[j], bit))
  {
    hide Bit;
    if n > 0 {
      ReadRowBits(row, n - 1, bit, j);
      BitOfOneMore(ReadRow(row, n - 1, bit), Bit(row[n - 1], bit), n - 1, j);
    } else {
      NoBits(j);
    }
  }

  lemma BitOfOneMore(x: bv8, on: bool, n: nat, j: nat)
    requires n < 8 && j < 8
    ensures Bit(x | if on then Mask(n) else 0, j) == (Bit(x, j) || (on && j == n))
  {
    hide Mask;
    OrUnder(x, Mask(n), Mask(j));
    MaskMeets(n, j);
  }

  lemma NoBits(j: nat)
    requires j < 8
    ensures !Bit(0, j)
  {
    hide Mask;
    AllOrNothing(Mask(j));
  }

  // 2^n - 1
  function LowBits(n: nat): bv8
    requires n <= 8
  {
    [0, 1, 3, 7, 15, 31, 63, 127, 255][n]
  }

  lemma LowBitsAre(x: bv8, n: nat, j: nat)
    requires n <= 8 && j < 8
    ensures Bit(x & LowBits(n), j) == (j < n && Bit(x, j))
  {
    assert LowBits(n) & Mask(j) == if j < n then Mask(j) else 0;
    AndAnd(x, LowBits(n), Mask(j));
  }

  lemma AndAnd(x: bv8, a: bv8, b: bv8)
    ensures (x & a) & b == x & (a & b)
  {
  }

  lemma UpdatedRowBits(row: seq<bv8>, layer: bv8, bit: nat, other: nat, j: nat)
    requires |row| <= 8 && bit < 8 && other < 8 && j < 8
    ensures Bit(ReadRow(UpdateRow(row, layer, bit), |row|, other), j)
         == Bit(if other == bit then layer & LowBits(|row|) else ReadRow(row, |row|, other), j)
  {
    hide Bit, Splice, ReadRow, LowBits;
    ReadRowBits(UpdateRow(row, layer, bit), |row|, other, j);
    ReadRowBits(row, |row|, other, j);
    LowBitsAre(layer, |row|, j);
    if j < |row| {
      SpliceBits(row[j], Bit(layer, j), bit, other);
    }
  }

  // Reading back an update gives the layer's low bits, and no other entry of the row changes.
  lemma RowIsMap(row: seq<bv8>, layer: bv8, bit: nat, other: nat)
    requires |row| <= 8 && bit < 8 && other < 8
    ensures ReadRow(UpdateRow(row, layer, bit), |row|, other)
         == if other == bit then layer & LowBits(|row|) else ReadRow(row, |row|, other)
  {
    hide *;
    var got := ReadRow(UpdateRow(row, layer, bit), |row|, other);
    var want := if other == bit then layer & LowBits(|row|) else ReadRow(row, |row|, other);
    forall j: nat | j < 8 ensures Bit(got, j) == Bit(want, j) {
      UpdatedRowBits(row, layer, bit, other, j);
    }
    SameBits(got, want);
  }

  lemma FitsIff(layer: bv8, n: nat)
    requires n < 8
    ensures layer & LowBits(n) == layer <==> layer <= LowBits(n)
  {
  }

  // ---- Layers ---------------------------------------------------------------------------------------

  // A keymap at one instant: the action code of a key on a layer.
  type Keymap = (nat, Key) -> int

  const ACTION_TRANSPARENT := 1

  // layer_state & ((layer_state_t)1 << layer)
  predicate On(layers: bv32, layer: nat)
    requires layer < 32
  {
    layers & ((1 as bv32) << layer) != 0
  }

  // The layer is on and the key has an action of its own there.
  predicate Speaks(layers: bv32, keymap: Keymap, key: Key, layer: nat)
    requires layer < 32
  {
    On(layers, layer) && keymap(layer, key) != ACTION_TRANSPARENT
  }

  // layer_switch_get_layer: the highest of the first n layers that speaks for the key, or layer 0.
  function TopLayer(layers: bv32, keymap: Keymap, key: Key, n: nat): (layer: nat)
    requires n <= 32
    ensures layer == 0 || (layer < n && Speaks(layers, keymap, key, layer))
    ensures forall i :: layer < i < n ==> !Speaks(layers, keymap, key, i)
  {
    if n == 0 then 0
    else if Speaks(layers, keymap, key, n - 1) then n - 1
    else TopLayer(layers, keymap, key, n - 1)
  }

  // 2^bits for the three widths of a layer number.
  function LayerLimit(bits: nat): nat {
    if bits == 3 then 8 else if bits == 4 then 16 else 32
  }

  // Board and build parameters: matrix size, number of layers and the bits reserved for a layer number.
  datatype Config = Config(rows: nat, cols: nat, maxLayer: nat, layerBits: nat) {
    predicate Valid() {
      3 <= layerBits <= 5 && maxLayer <= LayerLimit(layerBits)
    }

    predicate OnMatrix(key: Key) { key.row < rows && key.col < cols }

    function Size(): nat { rows * cols }

    // entry_number
    function Index(key: Key): nat { key.row * cols + key.col }
  }

  lemma IndexInRange(c: Config, key: Key)
    requires c.OnMatrix(key)
    ensures c.Index(key) < c.Size()
  {
    assert key.row * c.cols + c.cols <= c.rows * c.cols by {
      Monotone(key.row + 1, c.rows, c.cols);
    }
  }

  lemma Monotone(a: nat, b: nat, n: nat)
    requires a <= b
    ensures a * n <= b * n
  {
  }

  lemma IndexInjective(c: Config, a: Key, b: Key)
    requires c.OnMatrix(a) && c.OnMatrix(b) && c.Index(a) == c.Index(b)
    ensures a == b
  {
    if a.row < b.row {
      Monotone(a.row + 1, b.row, c.cols);
    } else if b.row < a.row {
      Monotone(b.row + 1, a.row, c.cols);
    }
  }

  // Layer states, and the layer remembered for each entry.
  datatype Layers = Layers(state: bv32, base: bv32, source: seq<nat>)

  // Everything that changes a layer state comes down to storing a new one.
  datatype Op =
    | SetLayers(state: bv32)
    | SetDefault(base: bv32)
    | Transition(pressed: bool, key: Key, keymap: Keymap, nocache: bool)

  function Initial(c: Config): Layers {
    Layers(0, 0, seq(c.Size(), _ => 0))
  }

  // The layer remembered for a key; keys off the matrix have none and count as layer 0.
  function Source(c: Config, s: Layers, key: Key): nat
    requires |s.source| == c.Size()
  {
    if c.OnMatrix(key) then IndexInRange(c, key); s.source[c.Index(key)] else 0
  }

  function Remember(c: Config, s: Layers, key: Key, layer: nat): (s': Layers)
    requires |s.source| == c.Size()
    ensures |s'.source| == c.Size()
  {
    if c.OnMatrix(key) then IndexInRange(c, key); s.(source := s.source[c.Index(key) := layer]) else s
  }

  // store_or_get_action: the new state and the layer the action is taken from.
  function StoreOrGet(c: Config, s: Layers, pressed: bool, key: Key, keymap: Keymap, nocache: bool): (r: (Layers, nat))
    requires c.Valid() && |s.source| == c.Size()
    ensures |r.0.source| == c.Size()
  {
    var top := TopLayer(s.state | s.base, keymap, key, c.maxLayer);
    if nocache then (s, top)
    else if pressed then (Remember(c, s, key, top), top)
    else (s, Source(c, s, key))
  }

  function Apply(c: Config, s: Layers, op: Op): (s': Layers)
    requires c.Valid() && |s.source| == c.Size()
    ensures |s'.source| == c.Size()
  {
    match op
    case SetLayers(state) => s.(state := state)
    case SetDefault(base) => s.(base := base)
    case Transition(pressed, key, keymap, nocache) => StoreOrGet(c, s, pressed, key, keymap, nocache).0
  }

  function Run(c: Config, ops: seq<Op>): (s: Layers)
    requires c.Valid()
    ensures |s.source| == c.Size()
  {
    if ops == [] then Initial(c) else Apply(c, Run(c, ops[..|ops| - 1]), ops[|ops| - 1])
  }

  predicate Presses(op: Op, key: Key) {
    op.Transition? && op.pressed && op.key == key && !op.nocache
  }

  // An operation that is not a press of this key leaves the layer remembered for it alone.
  lemma OthersLeaveSource(c: Config, s: Layers, op: Op, key: Key)
    requires c.Valid() && |s.source| == c.Size() && !Presses(op, key)
    ensures Source(c, Apply(c, s, op), key) == Source(c, s, key)
  {
    hide TopLayer, Config.Index;
    if op.Transition? && c.OnMatrix(op.key) && c.OnMatrix(key) {
      IndexInRange(c, op.key);
      IndexInRange(c, key);
      if c.Index(op.key) == c.Index(key) {
        IndexInjective(c, op.key, key);
      }
    }
  }

  lemma {:induction false} SourceIsLastChoice(c: Config, ops: seq<Op>, at: nat)
    requires c.Valid() && at < |ops| && ops[at].Transition?
    requires Presses(ops[at], ops[at].key) && c.OnMatrix(ops[at].key)
    requires forall j :: at < j < |ops| ==> !Presses(ops[j], ops[at].key)
    ensures var before := Run(c, ops[..at]);
      Source(c, Run(c, ops), ops[at].key)
      == TopLayer(before.state | before.base, ops[at].keymap, ops[at].key, c.maxLayer)
  {
    hide TopLayer, Config.Index;
    var n := |ops| - 1;
    IndexInRange(c, ops[at].key);
    if at < n {
      hide Source, Apply;
      assert ops[..n][..at] == ops[..at];
      SourceIsLastChoice(c, ops[..n], at);
      OthersLeaveSource(c, Run(c, ops[..n]), ops[n], ops[at].key);
    }
  }

  // A key that was never pressed has layer 0 remembered.
  lemma {:induction false} UnpressedIsBase(c: Config, ops: seq<Op>, key: Key)
    requires c.Valid() && forall j :: 0 <= j < |ops| ==> !Presses(ops[j], key)
    ensures Source(c, Run(c, ops), key) == 0
  {
    hide Config.Index;
    if c.OnMatrix(key) {
      IndexInRange(c, key);
    }
    if ops != [] {
      hide Source, Apply;
      UnpressedIsBase(c, ops[..|ops| - 1], key);
      OthersLeaveSource(c, Run(c, ops[..|ops| - 1]), ops[|ops| - 1], key);
    }
  }
}
