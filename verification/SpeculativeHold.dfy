// Speculative hold (quantum/action_tapping.c, SPECULATIVE_HOLD): the modifiers of mod-tap keys that are
// applied before those keys settle, and the list of keys they belong to.
module SpeculativeHold {
  import opened Tapping

  const SPECULATIVE_KEYS_SIZE := 8

  datatype SpecKey = SpecKey(key: Key, mods: bv8)

  datatype SpecState = SpecState(keys: seq<SpecKey>, mods: bv8)

  function Union(keys: seq<SpecKey>): bv8 {
    if keys == [] then 0 else keys[0].mods | Union(keys[1..])
  }

  function Clear(mods: bv8, cleared: bv8): bv8 { mods & !cleared }

  // Index of the key, or the length of the list.
  function Find(keys: seq<SpecKey>, key: Key): (i: nat)
    ensures i <= |keys|
    ensures i < |keys| ==> keys[i].key == key
    ensures forall j :: 0 <= j < i ==> keys[j].key != key
  {
    if keys == [] || keys[0].key == key then 0 else 1 + Find(keys[1..], key)
  }

  // 5-bit packed modifiers to the 8-bit form; bit 4 selects the right hand.
  function Unpack(mods: bv8): bv8 {
    if mods & 0x10 != 0 then mods << 4 else mods
  }

  // A press as the handler sees it: the key's packed modifiers when it is a mod-tap key, the modifiers
  // that are really held, and whether the settings allow speculation (queue contents, user callback,
  // flow term).
  datatype Press = Press(key: Key, modTap: bool, packed: bv8, held: bv8, oneKeyOnly: bool, allowed: bool)

  // The key would add a modifier that is not active yet, and the settings let it.
  predicate Wanted(mods: bv8, p: Press) {
    var active := p.held | mods;
    p.modTap && !(p.oneKeyOnly && active != 0) && !active & Unpack(p.packed) != 0 && p.allowed
  }

  function Pressed(s: SpecState, p: Press): SpecState {
    if |s.keys| >= SPECULATIVE_KEYS_SIZE || Find(s.keys, p.key) < |s.keys| || !Wanted(s.mods, p) then s
    else SpecState(s.keys + [SpecKey(p.key, Unpack(p.packed))], s.mods | Unpack(p.packed))
  }

  // A settled press: held when it is a mod-tap key with no tap counted.
  datatype Settle = Settle(key: Key, asHold: bool)

  function Settled(s: SpecState, e: Settle): SpecState {
    var i := Find(s.keys, e.key);
    if s.keys == [] then s
    else if e.asHold then
      if i == |s.keys| then s
      else
        var keys := s.keys[..i] + s.keys[i + 1..];
        SpecState(keys, if keys == [] then 0 else Clear(s.mods, s.keys[i].mods))
    else
      var n := if i == |s.keys| then 0 else i;
      SpecState(s.keys[..n], if n == 0 then 0 else Clear(s.mods, Union(s.keys[n..])))
  }

  // Tracked keys are few and distinct, and every speculative modifier belongs to one of them.
  ghost predicate Backed(s: SpecState) {
    && |s.keys| <= SPECULATIVE_KEYS_SIZE
    && (forall i, j :: 0 <= i < j < |s.keys| ==> s.keys[i].key != s.keys[j].key)
    && s.mods & !Union(s.keys) == 0
  }

  lemma {:induction false} UnionConcat(a: seq<SpecKey>, b: seq<SpecKey>)
    ensures Union(a + b) == Union(a) | Union(b)
  {
    if a == [] {
      assert a + b == b;
    } else {
      UnionConcat(a[1..], b);
      assert (a + b)[1..] == a[1..] + b;
    }
  }

  lemma UnionOne(x: SpecKey)
    ensures Union([x]) == x.mods
  {
  }

  lemma PressedKeepsBacked(s: SpecState, p: Press)
    requires Backed(s)
    ensures Backed(Pressed(s, p))
  {
    var s' := Pressed(s, p);
    if s' != s {
      var x := SpecKey(p.key, Unpack(p.packed));
      UnionConcat(s.keys, [x]);
      UnionOne(x);
    }
  }

  lemma ClearMiddle(mods: bv8, a: bv8, x: bv8, b: bv8)
    requires mods & !(a | (x | b)) == 0
    ensures (mods & !x) & !(a | b) == 0
  {
  }

  lemma ClearRest(mods: bv8, a: bv8, b: bv8)
    requires mods & !(a | b) == 0
    ensures (mods & !b) & !a == 0
  {
  }

  lemma ForgetOneKeepsBacked(s: SpecState, i: nat)
    requires Backed(s) && i < |s.keys|
    ensures var rest := s.keys[..i] + s.keys[i + 1..];
      Backed(SpecState(rest, if rest == [] then 0 else Clear(s.mods, s.keys[i].mods)))
  {
    hide Union;
    assert s.keys == s.keys[..i] + ([s.keys[i]] + s.keys[i + 1..]);
    UnionConcat(s.keys[..i], [s.keys[i]] + s.keys[i + 1..]);
    UnionConcat([s.keys[i]], s.keys[i + 1..]);
    UnionOne(s.keys[i]);
    UnionConcat(s.keys[..i], s.keys[i + 1..]);
    ClearMiddle(s.mods, Union(s.keys[..i]), s.keys[i].mods, Union(s.keys[i + 1..]));
  }

  lemma TruncateKeepsBacked(s: SpecState, n: nat)
    requires Backed(s) && n <= |s.keys|
    ensures Backed(SpecState(s.keys[..n], if n == 0 then 0 else Clear(s.mods, Union(s.keys[n..]))))
  {
    hide Union;
    assert s.keys == s.keys[..n] + s.keys[n..];
    UnionConcat(s.keys[..n], s.keys[n..]);
    ClearRest(s.mods, Union(s.keys[..n]), Union(s.keys[n..]));
  }

  lemma SettledKeepsBacked(s: SpecState, e: Settle)
    requires Backed(s)
    ensures Backed(Settled(s, e))
    ensures forall j :: 0 <= j < |Settled(s, e).keys| ==> Settled(s, e).keys[j].key != e.key
  {
    hide Union, Find;
    var i := Find(s.keys, e.key);
    if e.asHold {
      if i < |s.keys| {
        ForgetOneKeepsBacked(s, i);
      }
    } else {
      TruncateKeepsBacked(s, if i == |s.keys| then 0 else i);
    }
  }

  datatype Step = OnPress(press: Press) | OnSettled(settle: Settle)

  function RunSteps(steps: seq<Step>): SpecState {
    if steps == [] then SpecState([], 0)
    else
      var s := RunSteps(steps[..|steps| - 1]);
      match steps[|steps| - 1]
      case OnPress(p) => Pressed(s, p)
      case OnSettled(e) => Settled(s, e)
  }

  // After any sequence of presses and settlements no modifier leaks: each one that is applied belongs
  // to a tracked key, a key that has just settled is not tracked, and none is applied when no key is.
  lemma {:induction false} NoModifierLeaks(steps: seq<Step>)
    ensures var s := RunSteps(steps);
      && Backed(s)
      && (s.keys == [] ==> s.mods == 0)
      && (steps != [] && steps[|steps| - 1].OnSettled? ==>
            forall i :: 0 <= i < |s.keys| ==> s.keys[i].key != steps[|steps| - 1].settle.key)
  {
    if steps != [] {
      NoModifierLeaks(steps[..|steps| - 1]);
      match steps[|steps| - 1]
      case OnPress(p) => PressedKeepsBacked(RunSteps(steps[..|steps| - 1]), p);
      case OnSettled(e) => SettledKeepsBacked(RunSteps(steps[..|steps| - 1]), e);
    }
  }

  lemma Shifted(all: seq<SpecKey>, rest: seq<SpecKey>, i: nat)
    requires i < |all| == |rest| + 1
    requires forall m :: 0 <= m < |rest| ==> rest[m] == all[if m < i then m else m + 1]
    ensures rest == all[..i] + all[i + 1..]
  {
  }

  class Speculation {
    const keys: array<SpecKey>
    var num: nat
    var mods: bv8

    ghost predicate Valid()
      reads this
    {
      keys.Length == SPECULATIVE_KEYS_SIZE && num <= SPECULATIVE_KEYS_SIZE
    }

    ghost function State(): SpecState
      requires Valid()
      reads this, keys
    {
      SpecState(keys[..num], mods)
    }

    constructor ()
      ensures Valid() && fresh(keys) && State() == SpecState([], 0)
    {
      keys := new SpecKey[SPECULATIVE_KEYS_SIZE](_ => SpecKey(Key(0, 0), 0));
      num, mods := 0, 0;
    }

    // speculative_keys_find
    method FindKey(key: Key) returns (i: nat)
      requires Valid()
      ensures i == Find(keys[..num], key)
    {
      i := 0;
      while i < num && keys[i].key != key
        invariant i <= num
        invariant forall j :: 0 <= j < i ==> keys[j].key != key
      {
        i := i + 1;
      }
      FindIs(keys[..num], key, i);
    }

    // speculative_key_press
    method KeyPress(p: Press)
      requires Valid()
      modifies this`num, this`mods, keys
      ensures Valid() && State() == Pressed(old(State()), p)
    {
      if num >= SPECULATIVE_KEYS_SIZE {
        return;
      }
      var i := FindKey(p.key);
      if i < num || !Wanted(mods, p) {
        return;
      }
      ghost var before := keys[..num];
      var entry := SpecKey(p.key, Unpack(p.packed));
      mods := mods | entry.mods;
      keys[num] := entry;
      num := num + 1;
      assert keys[..num] == before + [entry];
    }

    // The shift that closes the gap left by entry i.
    method RemoveEntry(i: nat)
      requires Valid() && i < num
      modifies this`num, keys
      ensures Valid() && keys[..num] == old(keys[..i] + keys[i + 1..num])
    {
      ghost var all := keys[..num];
      num := num - 1;
      var j := i;
      while j < num
        invariant i <= j <= num < SPECULATIVE_KEYS_SIZE && |all| == num + 1
        invariant forall m :: 0 <= m < i ==> keys[m] == all[m]
        invariant forall m :: i <= m < j ==> keys[m] == all[m + 1]
        invariant forall m :: j <= m <= num ==> keys[m] == all[m]
      {
        keys[j] := keys[j + 1];
        j := j + 1;
      }
      Shifted(all, keys[..num], i);
    }

    // The modifiers of entry i and all that follow.
    method ModsFrom(i: nat) returns (cleared: bv8)
      requires Valid() && i <= num
      ensures cleared == Union(keys[..num][i..])
    {
      cleared := 0;
      ghost var all := keys[..num];
      var j := i;
      while j < num
        invariant i <= j <= num
        invariant cleared == Union(all[i..j])
      {
        assert all[i..j + 1] == all[i..j] + [all[j]];
        UnionConcat(all[i..j], [all[j]]);
        UnionOne(all[j]);
        cleared := cleared | keys[j].mods;
        j := j + 1;
      }
      assert all[i..j] == all[i..];
    }

    // A held press: its entry goes, and its modifiers with it.
    method Forget(i: nat)
      requires Valid() && i < num
      modifies this`num, this`mods, keys
      ensures Valid()
      ensures var s := old(State());
        var rest := s.keys[..i] + s.keys[i + 1..];
        State() == SpecState(rest, if rest == [] then 0 else Clear(s.mods, s.keys[i].mods))
    {
      var cleared := keys[i].mods;
      ghost var before := keys[..num];
      RemoveEntry(i);
      assert keys[..num] == before[..i] + before[i + 1..];
      if num > 0 {
        mods := Clear(mods, cleared);
      } else {
        mods := 0;
      }
    }

    // A tap: entry i and all that follow go.
    method CancelFrom(i: nat)
      requires Valid() && i <= num
      modifies this`num, this`mods
      ensures Valid()
      ensures var s := old(State());
        State() == SpecState(s.keys[..i], if i == 0 then 0 else Clear(s.mods, Union(s.keys[i..])))
    {
      var cleared := ModsFrom(i);
      ghost var before := keys[..num];
      num := i;
      assert keys[..num] == before[..i];
      if num > 0 {
        mods := Clear(mods, cleared);
      } else {
        mods := 0;
      }
    }

    // speculative_key_settled
    method KeySettled(e: Settle)
      requires Valid()
      modifies this`num, this`mods, keys
      ensures Valid() && State() == Settled(old(State()), e)
    {
      hide Union, Find, Clear;
      if num == 0 {
        return;
      }
      var i := FindKey(e.key);
      if e.asHold {
        if i < num {
          Forget(i);
        }
      } else {
        if i >= num {
          i := 0;
        }
        CancelFrom(i);
      }
    }
  }

  lemma {:induction false} FindIs(keys: seq<SpecKey>, key: Key, i: nat)
    requires i <= |keys| && (i < |keys| ==> keys[i].key == key)
    requires forall j :: 0 <= j < i ==> keys[j].key != key
    ensures Find(keys, key) == i
  {
  }
}
