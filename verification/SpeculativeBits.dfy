// Speculative hold modifier by modifier: which ones a press adds, which ones a settlement takes away, and how
// long each stays applied.
module SpeculativeBits {
  import opened Tapping
  import opened SpeculativeHold

  // One of the eight modifiers: Control, Shift, Alt and GUI of the left hand, then of the right.
  predicate Modifier(b: bv8) {
    b == 0x01 || b == 0x02 || b == 0x04 || b == 0x08 || b == 0x10 || b == 0x20 || b == 0x40 || b == 0x80
  }

  predicate Has(mods: bv8, b: bv8) { mods & b != 0 }

  // ---- Single bits ------------------------------------------------------------------------------

  // A packed key with bit 4 clear owns modifiers of the left hand, with bit 4 set those of the right.
  lemma UnpackOwns(packed: bv8, b: bv8)
    requires b == 0x01 || b == 0x02 || b == 0x04 || b == 0x08
    requires packed < 0x20
    ensures Has(Unpack(packed), b) <==> !Has(packed, 0x10) && Has(packed, b)
    ensures Has(Unpack(packed), b << 4) <==> Has(packed, 0x10) && Has(packed, b)
  {
    assert packed == packed & 0x1f;
  }

  lemma HasEither(x: bv8, y: bv8, b: bv8)
    requires Modifier(b)
    ensures Has(x | y, b) <==> Has(x, b) || Has(y, b)
  {
  }

  lemma HasCleared(x: bv8, y: bv8, b: bv8)
    requires Modifier(b)
    ensures Has(Clear(x, y), b) <==> Has(x, b) && !Has(y, b)
  {
  }

  lemma HasBoth(x: bv8, y: bv8, b: bv8)
    requires Modifier(b) && x & !y == 0 && Has(x, b)
    ensures Has(y, b)
  {
  }

  lemma SomeBit(x: bv8) returns (b: bv8)
    requires x != 0
    ensures Modifier(b) && Has(x, b)
  {
    b := if x & 0x01 != 0 then 0x01 else if x & 0x02 != 0 then 0x02
         else if x & 0x04 != 0 then 0x04 else if x & 0x08 != 0 then 0x08
         else if x & 0x10 != 0 then 0x10 else if x & 0x20 != 0 then 0x20
         else if x & 0x40 != 0 then 0x40 else 0x80;
  }

  lemma NewBit(active: bv8, mods: bv8, b: bv8)
    requires Modifier(b) && Has(mods, b) && !Has(active, b)
    ensures !active & mods != 0
  {
  }

  lemma NotActive(active: bv8, mods: bv8, b: bv8)
    requires Modifier(b) && Has(!active & mods, b)
    ensures Has(mods, b) && !Has(active, b)
  {
  }

  // A key of this list owns the modifier.
  predicate Owned(keys: seq<SpecKey>, b: bv8) {
    exists i :: 0 <= i < |keys| && Has(keys[i].mods, b)
  }

  lemma {:induction false} UnionOwns(keys: seq<SpecKey>, b: bv8)
    requires Modifier(b)
    ensures Has(Union(keys), b) <==> Owned(keys, b)
  {
    if keys == [] {
    } else {
      UnionOwns(keys[1..], b);
      HasEither(keys[0].mods, Union(keys[1..]), b);
      if Owned(keys[1..], b) {
        var i :| 0 <= i < |keys| - 1 && Has(keys[1..][i].mods, b);
        assert keys[i + 1] == keys[1..][i];
      }
      if Owned(keys, b) {
        var i :| 0 <= i < |keys| && Has(keys[i].mods, b);
        assert i > 0 ==> keys[1..][i - 1] == keys[i];
      }
    }
  }

  // ---- A press ----------------------------------------------------------------------------------

  predicate Tracked(s: SpecState, key: Key) {
    exists i :: 0 <= i < |s.keys| && s.keys[i].key == key
  }

  // The press adds a modifier that is neither held nor applied.
  ghost predicate AddsNew(held: bv8, mods: bv8, own: bv8) {
    exists b :: Modifier(b) && Has(own, b) && !Has(held, b) && !Has(mods, b)
  }

  lemma NewIff(held: bv8, mods: bv8, own: bv8)
    ensures !(held | mods) & own != 0 <==> AddsNew(held, mods, own)
  {
    var active := held | mods;
    if !active & own != 0 {
      var b := SomeBit(!active & own);
      NotActive(active, own, b);
      HasEither(held, mods, b);
    }
    if b :| Modifier(b) && Has(own, b) && !Has(held, b) && !Has(mods, b) {
      HasEither(held, mods, b);
      NewBit(active, own, b);
    }
  }

  lemma NoneActive(held: bv8, mods: bv8)
    ensures held | mods == 0 <==> held == 0 && mods == 0
  {
  }

  lemma WantedIff(mods: bv8, p: Press)
    ensures Wanted(mods, p) <==>
      && p.modTap && p.allowed && AddsNew(p.held, mods, Unpack(p.packed))
      && (p.oneKeyOnly ==> p.held == 0 && mods == 0)
  {
    hide AddsNew, Unpack;
    NewIff(p.held, mods, Unpack(p.packed));
    NoneActive(p.held, mods);
  }

  // A press is taken on exactly when there is room, its key is a mod-tap key that is not tracked yet and adds a
  // modifier, and the settings agree. Then the key is tracked behind the others.
  lemma PressAccepted(s: SpecState, p: Press)
    ensures Pressed(s, p).keys == s.keys + [SpecKey(p.key, Unpack(p.packed))] <==>
      && |s.keys| < SPECULATIVE_KEYS_SIZE && !Tracked(s, p.key)
      && p.modTap && p.allowed && AddsNew(p.held, s.mods, Unpack(p.packed))
      && (p.oneKeyOnly ==> p.held == 0 && s.mods == 0)
    ensures Pressed(s, p).keys == s.keys + [SpecKey(p.key, Unpack(p.packed))] || Pressed(s, p) == s
  {
    hide AddsNew, Unpack, Wanted;
    WantedIff(s.mods, p);
    assert Find(s.keys, p.key) < |s.keys| <==> Tracked(s, p.key);
    if Pressed(s, p) == s {
      assert |s.keys| < |s.keys + [SpecKey(p.key, Unpack(p.packed))]|;
    }
  }

  // Once taken on, exactly the modifiers applied before and the key's own are applied.
  lemma PressAdds(s: SpecState, p: Press, b: bv8)
    requires Modifier(b)
    ensures var s' := Pressed(s, p);
      Has(s'.mods, b) <==> Has(s.mods, b) || (s' != s && Has(Unpack(p.packed), b))
  {
    HasEither(s.mods, Unpack(p.packed), b);
  }

  // ---- A settlement -----------------------------------------------------------------------------

  // A key of s that is gone in s' owns the modifier.
  predicate Drops(s: SpecState, s': SpecState, b: bv8) {
    exists i :: 0 <= i < |s.keys| && s.keys[i] !in s'.keys && Has(s.keys[i].mods, b)
  }

  // A hold removes the settled key from the list, a tap that key and all pressed after it, or everything when it
  // is not in the list.
  lemma SettleRemoves(s: SpecState, e: Settle)
    requires Backed(s)
    ensures var s' := Settled(s, e);
      && (e.asHold ==> forall x :: x in s'.keys <==> x in s.keys && x.key != e.key)
      && (!e.asHold && !Tracked(s, e.key) ==> s'.keys == [])
      && (!e.asHold ==> forall i :: 0 <= i < |s.keys| && s.keys[i].key == e.key ==> s'.keys == s.keys[..i])
  {
    hide Union, Clear;
    var i := Find(s.keys, e.key);
    if e.asHold && i < |s.keys| {
      var rest := s.keys[..i] + s.keys[i + 1..];
      assert Settled(s, e).keys == rest;
      forall x ensures x in rest <==> x in s.keys && x.key != e.key {
        if x in s.keys && x.key != e.key {
          var j :| 0 <= j < |s.keys| && s.keys[j] == x;
          assert rest[if j < i then j else j - 1] == x;
        }
      }
    }
  }

  // While a key remains, a modifier is applied after a settlement exactly when it was before and none of the
  // keys that are gone owns it; when none remains, no modifier is applied.
  lemma SettleClears(s: SpecState, e: Settle, b: bv8)
    requires Backed(s) && Modifier(b)
    ensures var s' := Settled(s, e);
      && (s'.keys != [] ==> (Has(s'.mods, b) <==> Has(s.mods, b) && !Drops(s, s', b)))
      && (s'.keys == [] ==> s'.mods == 0)
  {
    hide Clear, Union;
    var s' := Settled(s, e);
    var i := Find(s.keys, e.key);
    if s.keys != [] && e.asHold && i < |s.keys| {
      HasCleared(s.mods, s.keys[i].mods, b);
      HoldDrops(s, s', i, b);
    } else if s.keys != [] && !e.asHold {
      var n := if i == |s.keys| then 0 else i;
      HasCleared(s.mods, Union(s.keys[n..]), b);
      UnionOwns(s.keys[n..], b);
      TapDrops(s, s', n, b);
    } else if s.keys == [] {
      NoKeyNoModifier(s);
    } else {
      NothingDropped(s, b);
    }
  }

  lemma NoKeyNoModifier(s: SpecState)
    requires Backed(s) && s.keys == []
    ensures s.mods == 0
  {
    assert Union([]) == 0;
    assert s.mods & !0 == s.mods;
  }

  lemma NothingDropped(s: SpecState, b: bv8)
    ensures !Drops(s, s, b)
  {
  }

  lemma HoldDrops(s: SpecState, s': SpecState, i: nat, b: bv8)
    requires i < |s.keys| && s'.keys == s.keys[..i] + s.keys[i + 1..]
    requires forall j, k :: 0 <= j < k < |s.keys| ==> s.keys[j].key != s.keys[k].key
    ensures Drops(s, s', b) <==> Has(s.keys[i].mods, b)
  {
    hide Has;
    forall j | 0 <= j < |s.keys| ensures s.keys[j] !in s'.keys <==> j == i {
      if j != i {
        assert s'.keys[if j < i then j else j - 1] == s.keys[j];
      }
    }
  }

  lemma TapDrops(s: SpecState, s': SpecState, n: nat, b: bv8)
    requires n <= |s.keys| && s'.keys == s.keys[..n]
    requires forall j, k :: 0 <= j < k < |s.keys| ==> s.keys[j].key != s.keys[k].key
    ensures Drops(s, s', b) <==> Owned(s.keys[n..], b)
  {
    hide Has;
    forall j | 0 <= j < |s.keys| ensures s.keys[j] !in s'.keys <==> j >= n {
      if j < n {
        assert s'.keys[j] == s.keys[j];
      }
    }
    if Owned(s.keys[n..], b) {
      var i :| 0 <= i < |s.keys| - n && Has(s.keys[n..][i].mods, b);
      assert s.keys[n + i] == s.keys[n..][i];
    }
    if Drops(s, s', b) {
      var i :| 0 <= i < |s.keys| && s.keys[i] !in s'.keys && Has(s.keys[i].mods, b);
      assert s.keys[n..][i - n] == s.keys[i];
    }
  }

  // ---- Runs -------------------------------------------------------------------------------------

  // Step k takes on a press whose key owns the modifier.
  predicate AddedAt(steps: seq<Step>, k: nat, b: bv8)
    requires k < |steps|
  {
    steps[k].OnPress? && RunSteps(steps[..k + 1]) != RunSteps(steps[..k]) && Has(Unpack(steps[k].press.packed), b)
  }

  // Step k settles a key that owns the modifier, or cuts one off.
  predicate DroppedAt(steps: seq<Step>, k: nat, b: bv8)
    requires k < |steps|
  {
    Drops(RunSteps(steps[..k]), RunSteps(steps[..k + 1]), b)
  }

  // The modifier was added at some step, and no key that owns it has been settled or cut off since.
  predicate AddedAndKept(steps: seq<Step>, b: bv8) {
    exists k :: 0 <= k < |steps| && AddedAt(steps, k, b) && forall j :: k < j < |steps| ==> !DroppedAt(steps, j, b)
  }

  lemma AddedAndKeptNext(steps: seq<Step>, b: bv8)
    requires steps != []
    ensures var n := |steps| - 1;
      AddedAndKept(steps, b) <==>
        AddedAt(steps, n, b) || (AddedAndKept(steps[..n], b) && !DroppedAt(steps, n, b))
  {
    hide RunSteps, Drops, Has;
    var n := |steps| - 1;
    var before := steps[..n];
    forall k | 0 <= k < n
      ensures AddedAt(steps, k, b) <==> AddedAt(before, k, b)
      ensures DroppedAt(steps, k, b) <==> DroppedAt(before, k, b)
    {
      assert before[..k] == steps[..k] && before[..k + 1] == steps[..k + 1];
    }
    if AddedAndKept(before, b) && !DroppedAt(steps, n, b) {
      var k :| 0 <= k < n && AddedAt(before, k, b) && forall j :: k < j < n ==> !DroppedAt(before, j, b);
      assert AddedAt(steps, k, b);
    }
    if AddedAndKept(steps, b) && !AddedAt(steps, n, b) {
      var k :| 0 <= k < |steps| && AddedAt(steps, k, b) && forall j :: k < j < |steps| ==> !DroppedAt(steps, j, b);
      assert AddedAt(before, k, b);
    }
  }

  // After any sequence of presses and settlements a modifier is applied exactly when a press added it and no key
  // that owns it has been settled or cut off since.
  lemma {:induction false} AppliedIffAddedAndKept(steps: seq<Step>, b: bv8)
    requires Modifier(b)
    ensures Has(RunSteps(steps).mods, b) <==> AddedAndKept(steps, b)
  {
    if steps == [] {
    } else {
      var n := |steps| - 1;
      var s, s' := RunSteps(steps[..n]), RunSteps(steps);
      AppliedIffAddedAndKept(steps[..n], b);
      AddedAndKeptNext(steps, b);
      NoModifierLeaks(steps[..n]);
      assert steps[..n + 1] == steps;
      match steps[n]
      case OnPress(p) =>
        PressAdds(s, p, b);
        PressAccepted(s, p);
        assert !Drops(s, s', b) by {
          assert forall i :: 0 <= i < |s.keys| ==> s'.keys[i] == s.keys[i];
        }
      case OnSettled(e) =>
        SettleClears(s, e, b);
        if s'.keys == [] {
          LastDrops(s, s', b);
        }
    }
  }

  // When no key remains, every modifier that was applied is dropped.
  lemma LastDrops(s: SpecState, s': SpecState, b: bv8)
    requires Backed(s) && Modifier(b) && s'.keys == []
    ensures Has(s.mods, b) ==> Drops(s, s', b)
  {
    if Has(s.mods, b) {
      HasBoth(s.mods, Union(s.keys), b);
      UnionOwns(s.keys, b);
    }
  }

  // ---- Modifiers of two keys ----------------------------------------------------------------------

  // Every modifier that a tracked key owns is applied.
  ghost predicate AllApplied(s: SpecState) {
    forall b :: Modifier(b) && Owned(s.keys, b) ==> Has(s.mods, b)
  }

  // A key that is gone and one that remains own the same modifier.
  ghost predicate Shared(s: SpecState, s': SpecState) {
    exists b :: Modifier(b) && Owned(s'.keys, b) && Drops(s, s', b)
  }

  lemma PressKeepsAllApplied(s: SpecState, p: Press)
    requires AllApplied(s)
    ensures AllApplied(Pressed(s, p))
  {
    hide Has, Modifier, Unpack, Wanted, Owned;
    var s' := Pressed(s, p);
    forall b | Modifier(b) && Owned(s'.keys, b) ensures Has(s'.mods, b) {
      PressAdds(s, p, b);
      if s' != s {
        OwnedAppend(s.keys, SpecKey(p.key, Unpack(p.packed)), b);
      }
    }
  }

  lemma OwnedAppend(keys: seq<SpecKey>, x: SpecKey, b: bv8)
    ensures Owned(keys + [x], b) ==> Owned(keys, b) || Has(x.mods, b)
  {
    hide Has;
  }

  lemma OwnedByRest(s: SpecState, s': SpecState, b: bv8)
    requires Owned(s'.keys, b) && forall x :: x in s'.keys ==> x in s.keys
    ensures Owned(s.keys, b)
  {
    hide Has;
    var i :| 0 <= i < |s'.keys| && Has(s'.keys[i].mods, b);
    assert s'.keys[i] in s.keys;
  }

  // A settlement leaves all modifiers of the remaining keys applied exactly when it takes away no key that shares
  // one with them.
  lemma StaysAppliedIff(s: SpecState, e: Settle)
    requires Backed(s) && AllApplied(s)
    ensures AllApplied(Settled(s, e)) <==> !Shared(s, Settled(s, e))
  {
    hide Has, Modifier, Owned, Drops, Backed, Settled;
    var s' := Settled(s, e);
    SettleRemains(s, e);
    forall b | Modifier(b) && Owned(s'.keys, b)
      ensures Has(s'.mods, b) <==> !Drops(s, s', b)
    {
      OwnedByRest(s, s', b);
      SettleClears(s, e, b);
      OwnedNeedsKey(s'.keys, b);
    }
  }

  lemma OwnedNeedsKey(keys: seq<SpecKey>, b: bv8)
    requires Owned(keys, b)
    ensures keys != []
  {
  }

  lemma SettleRemains(s: SpecState, e: Settle)
    ensures forall x :: x in Settled(s, e).keys ==> x in s.keys
  {
    hide Union, Clear;
  }

  // It can: Control and Shift of one key, Shift and Alt of another that settles as a tap. Only Control is left,
  // though the key that is still tracked owns Shift too.
  lemma SharedModifierGoes()
    ensures var p, a := Key(0, 0), Key(0, 1);
      RunSteps([OnPress(Press(p, true, 0x03, 0, false, true)), OnPress(Press(a, true, 0x06, 0, false, true)),
                OnSettled(Settle(a, false))])
      == SpecState([SpecKey(p, 0x03)], 0x01)
  {
    var p, a := Key(0, 0), Key(0, 1);
    var one, two := OnPress(Press(p, true, 0x03, 0, false, true)), OnPress(Press(a, true, 0x06, 0, false, true));
    var end := OnSettled(Settle(a, false));
    assert [one, two, end][..2] == [one, two] && [one, two][..1] == [one] && [one][..0] == [];
    var s0 := SpecState([], 0);
    var s1 := SpecState([SpecKey(p, 0x03)], 0x03);
    var s2 := SpecState([SpecKey(p, 0x03), SpecKey(a, 0x06)], 0x07);
    assert Pressed(s0, one.press) == s1;
    assert Pressed(s1, two.press) == s2;
    assert s2.keys[..1] == s1.keys && s2.keys[1..] == [SpecKey(a, 0x06)];
    UnionOne(SpecKey(a, 0x06));
    assert Settled(s2, end.settle) == SpecState(s1.keys, 0x01);
    hide Pressed, Settled;
    assert RunSteps([]) == s0;
    assert RunSteps([one]) == s1;
    assert RunSteps([one, two]) == s2;
  }
}
