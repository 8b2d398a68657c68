// quantum/action_layer.c as it runs: global layer states and the cache array, one row of bytes for every
// eight matrix positions and one byte for every bit of a layer number.
module LayerEngine {
  import opened Tapping
  import opened LayerCache

  class Engine {
    const config: Config
    var layerState: bv32
    var defaultLayerState: bv32
    const cache: array2<bv8>

    ghost predicate Valid() {
      config.Valid() && cache.Length1 == config.layerBits && cache.Length0 * 8 >= config.Size()
    }

    // Row i of the cache.
    ghost function Row(i: nat): (r: seq<bv8>)
      requires Valid() && i < cache.Length0
      reads cache
      ensures |r| == config.layerBits
    {
      seq(config.layerBits, b requires 0 <= b < config.layerBits reads cache => cache[i, b])
    }

    // The layer stored for an entry.
    ghost function Stored(entry: nat): bv8
      requires Valid() && entry < config.Size()
      reads cache
    {
      ReadRow(Row(entry / 8), config.layerBits, entry % 8)
    }

    ghost function State(): Layers
      requires Valid()
      reads this, cache
    {
      Layers(layerState, defaultLayerState, Sources())
    }

    ghost function Sources(): (s: seq<nat>)
      requires Valid()
      reads cache
      ensures |s| == config.Size()
    {
      seq(config.Size(), e requires 0 <= e < config.Size() reads cache => Stored(e) as nat)
    }

    constructor (c: Config)
      requires c.Valid()
      ensures Valid() && config == c && fresh(cache) && State() == Initial(c)
    {
      config := c;
      layerState, defaultLayerState := 0, 0;
      cache := new bv8[(c.Size() + 7) / 8, c.layerBits]((i, j) => 0);
      new;
      forall entry: nat | entry < c.Size() ensures Stored(entry) == 0 {
        ZeroRow(Row(entry / 8), c.layerBits, entry % 8);
      }
    }

    // update_source_layers_cache_impl
    method UpdateCache(layer: bv8, entry: nat)
      requires Valid() && entry < config.Size()
      modifies cache
      ensures forall e: nat :: e < config.Size() ==>
        Stored(e) == if e == entry then layer & LowBits(config.layerBits) else old(Stored(e))
    {
      hide Splice, Bit, ReadRow, LowBits;
      var idx, bit := entry / 8, entry % 8;
      ghost var row := Row(idx);
      var b := 0;
      while b < config.layerBits
        invariant b <= config.layerBits
        invariant forall i, j :: 0 <= i < cache.Length0 && 0 <= j < cache.Length1 ==>
          cache[i, j] == if i == idx && j < b then Splice(row[j], Bit(layer, j), bit) else old(cache[i, j])
      {
        cache[idx, b] := Splice(cache[idx, b], Bit(layer, b), bit);
        b := b + 1;
      }
      assert Row(idx) == UpdateRow(row, layer, bit);
      forall e: nat | e < config.Size()
        ensures Stored(e) == if e == entry then layer & LowBits(config.layerBits) else old(Stored(e))
      {
        if e / 8 == idx {
          RowIsMap(row, layer, bit, e % 8);
        } else {
          assert Row(e / 8) == old(Row(e / 8));
        }
      }
    }

    // read_source_layers_cache_impl
    method ReadCache(entry: nat) returns (layer: bv8)
      requires Valid() && entry < config.Size()
      ensures layer == Stored(entry)
    {
      var idx, bit := entry / 8, entry % 8;
      layer := 0;
      var b := 0;
      while b < config.layerBits
        invariant b <= config.layerBits
        invariant layer == ReadRow(Row(idx), b, bit)
      {
        layer := layer | if Bit(cache[idx, b], bit) then Mask(b) else 0;
        b := b + 1;
      }
    }

    // layer_switch_get_layer
    method GetLayer(key: Key, keymap: Keymap) returns (layer: nat)
      requires Valid()
      ensures layer == TopLayer(layerState | defaultLayerState, keymap, key, config.maxLayer)
    {
      var layers := layerState | defaultLayerState;
      var i: int := config.maxLayer - 1;
      while i >= 0
        invariant -1 <= i < config.maxLayer
        invariant TopLayer(layers, keymap, key, i + 1) == TopLayer(layers, keymap, key, config.maxLayer)
      {
        if On(layers, i) {
          if keymap(i, key) != ACTION_TRANSPARENT {
            return i;
          }
        }
        i := i - 1;
      }
      return 0;
    }

    // layer_state_set: the module and keyboard hooks may each replace the state.
    method LayerStateSet(state: bv32, modules: bv32 -> bv32, kb: bv32 -> bv32)
      requires Valid()
      modifies this`layerState
      ensures State() == Apply(config, old(State()), SetLayers(kb(modules(state))))
    {
      var s := modules(state);
      s := kb(s);
      layerState := s;
    }

    // default_layer_state_set
    method DefaultLayerStateSet(state: bv32, modules: bv32 -> bv32, kb: bv32 -> bv32)
      requires Valid()
      modifies this`defaultLayerState
      ensures State() == Apply(config, old(State()), SetDefault(kb(modules(state))))
    {
      var s := modules(state);
      s := kb(s);
      defaultLayerState := s;
    }

    // update_source_layers_cache
    method UpdateSource(key: Key, layer: nat)
      requires Valid() && (layer == 0 || layer < config.maxLayer)
      modifies cache
      ensures State() == Remember(config, old(State()), key, layer)
    {
      hide LowBits, ReadRow;
      if config.OnMatrix(key) {
        IndexInRange(config, key);
        LayerRoundTrip(layer, config);
        UpdateCache(layer as bv8, key.row * config.cols + key.col);
        assert Sources() == old(Sources())[config.Index(key) := layer];
      }
    }

    // read_source_layers_cache
    method ReadSource(key: Key) returns (layer: nat)
      requires Valid()
      ensures layer == Source(config, State(), key)
    {
      hide ReadRow;
      if config.OnMatrix(key) {
        IndexInRange(config, key);
        var stored := ReadCache(key.row * config.cols + key.col);
        return stored as nat;
      }
      return 0;
    }

    // store_or_get_action; `nocache` is the flag that process_record_nocache sets
    method StoreOrGetAction(pressed: bool, key: Key, keymap: Keymap, nocache: bool) returns (action: int)
      requires Valid()
      modifies cache
      ensures var (s, layer) := StoreOrGet(config, old(State()), pressed, key, keymap, nocache);
        State() == s && action == keymap(layer, key)
    {
      hide Remember, Source;
      if nocache {
        var top := GetLayer(key, keymap);
        return keymap(top, key);
      }
      var layer;
      if pressed {
        layer := GetLayer(key, keymap);
        UpdateSource(key, layer);
      } else {
        layer := ReadSource(key);
      }
      return keymap(layer, key);
    }
  }

  lemma {:induction false} ZeroRow(row: seq<bv8>, n: nat, bit: nat)
    requires n <= |row| <= 8 && bit < 8 && forall j :: 0 <= j < |row| ==> row[j] == 0
    ensures ReadRow(row, n, bit) == 0
  {
    if n > 0 {
      ZeroRow(row, n - 1, bit);
      AllOrNothing(Mask(bit));
    }
  }

  // A layer number survives the eight-bit form and the bits of the cache.
  lemma LayerRoundTrip(layer: nat, c: Config)
    requires c.Valid() && (layer == 0 || layer < c.maxLayer)
    ensures ((layer as bv8) & LowBits(c.layerBits)) as nat == layer
  {
    assert layer as bv8 <= LowBits(c.layerBits);
    FitsIff(layer as bv8, c.layerBits);
  }
}
