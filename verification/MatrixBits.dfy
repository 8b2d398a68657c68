// Matrix rows as 32-bit words, one bit per column, and the bit tricks the ghost test uses on them.
module MatrixBits {

  // (matrix_row_t)1 << c
  function Mask(c: nat): bv32 {
    if c == 0 then 1 else Shifted(Mask(c - 1))
  }

  function Shifted(m: bv32): bv32 { m << 1 }
  function And(x: bv32, y: bv32): bv32 { x & y }
  function Or(x: bv32, y: bv32): bv32 { x | y }
  function Xor(x: bv32, y: bv32): bv32 { x ^ y }

  predicate Bit(x: bv32, c: nat) { And(x, Mask(c)) != 0 }

  // popcount_more_than_one
  predicate TwoOrMore(x: bv32) { x & (x - 1) != 0 }

  predicate Single(m: bv32) { m & (m - 1) == 0 }

  lemma {:induction false} MaskIsSingle(c: nat)
    ensures Single(Mask(c))
  {
    if c > 0 {
      MaskIsSingle(c - 1);
      ShiftedSingle(Mask(c - 1));
    }
  }

  lemma ShiftedSingle(m: bv32)
    requires Single(m)
    ensures Single(Shifted(m))
  {
  }

  lemma TopMask()
    ensures Mask(31) == 0x8000_0000
  {
    assert Mask(8) == 0x100;
    assert Mask(16) == 0x1_0000;
    assert Mask(24) == 0x100_0000;
  }

  lemma {:induction false} MaskIsNonzero(c: nat)
    requires c < 32
    ensures Mask(c) != 0
    decreases 32 - c
  {
    if c == 31 {
      TopMask();
    } else {
      MaskIsNonzero(c + 1);
    }
  }

  lemma {:induction false} MasksAreDisjoint(b: nat, c: nat)
    requires b < c
    ensures And(Mask(b), Mask(c)) == 0
  {
    if b == 0 {
      ShiftedIsEven(Mask(c - 1));
    } else {
      MasksAreDisjoint(b - 1, c - 1);
      ShiftedAnd(Mask(b - 1), Mask(c - 1));
    }
  }

  lemma ShiftedIsEven(m: bv32)
    ensures And(1, Shifted(m)) == 0
  {
  }

  lemma ShiftedAnd(x: bv32, y: bv32)
    requires And(x, y) == 0
    ensures And(Shifted(x), Shifted(y)) == 0
  {
  }

  // ---- Bits of combined words -----------------------------------------------------------------------------

  lemma BitOfMask(b: nat, c: nat)
    requires b < 32 && c < 32
    ensures Bit(Mask(b), c) <==> b == c
  {
    hide And;
    if b == c {
      MaskIsNonzero(c);
      AndSelf(Mask(c));
    } else if b < c {
      MasksAreDisjoint(b, c);
    } else {
      MasksAreDisjoint(c, b);
      AndCommutes(Mask(b), Mask(c));
    }
  }

  lemma AndSelf(x: bv32)
    ensures And(x, x) == x
  {
  }

  lemma AndCommutes(x: bv32, y: bv32)
    ensures And(x, y) == And(y, x)
  {
  }

  lemma BitOfOr(x: bv32, y: bv32, c: nat)
    ensures Bit(Or(x, y), c) <==> Bit(x, c) || Bit(y, c)
  {
    hide And, Or, Mask;
    AndOverOr(x, y, Mask(c));
    OrIsZero(And(x, Mask(c)), And(y, Mask(c)));
  }

  lemma AndOverOr(x: bv32, y: bv32, m: bv32)
    ensures And(Or(x, y), m) == Or(And(x, m), And(y, m))
  {
  }

  lemma OrIsZero(a: bv32, b: bv32)
    ensures Or(a, b) == 0 <==> a == 0 && b == 0
  {
  }

  // A single bit is either in a word or not.
  lemma SingleInOrOut(x: bv32, m: bv32)
    requires Single(m)
    ensures And(x, m) == 0 || And(x, m) == m
  {
  }

  lemma BitOfZero(c: nat)
    ensures !Bit(0, c)
  {
  }

  lemma BitOfAnd(x: bv32, y: bv32, c: nat)
    ensures Bit(And(x, y), c) <==> Bit(x, c) && Bit(y, c)
  {
    hide And, Mask;
    MaskIsSingle(c);
    var m := Mask(c);
    SingleInOrOut(x, m);
    SingleInOrOut(y, m);
    AndOverAnd(x, y, m);
    AndSelf(m);
    AndZero(m);
  }

  lemma AndOverAnd(x: bv32, y: bv32, m: bv32)
    ensures And(And(x, y), m) == And(And(x, m), And(y, m))
  {
  }

  lemma AndZero(m: bv32)
    ensures And(0, m) == 0 && And(m, 0) == 0 && And(0, 0) == 0
  {
  }

  lemma BitOfXor(x: bv32, y: bv32, c: nat)
    ensures Bit(Xor(x, y), c) <==> Bit(x, c) != Bit(y, c)
  {
    hide And, Xor, Mask;
    MaskIsSingle(c);
    var m := Mask(c);
    SingleInOrOut(x, m);
    SingleInOrOut(y, m);
    AndOverXor(x, y, m);
    XorOf(m);
  }

  lemma AndOverXor(x: bv32, y: bv32, m: bv32)
    ensures And(Xor(x, y), m) == Xor(And(x, m), And(y, m))
  {
  }

  lemma XorOf(m: bv32)
    ensures Xor(m, m) == 0 && Xor(0, 0) == 0 && Xor(m, 0) == m && Xor(0, m) == m
  {
  }

  // ---- At least two bits ----------------------------------------------------------------------------------

  // All columns below n.
  function Low(n: nat): bv32 {
    if n == 0 then 0 else Or(Low(n - 1), Mask(n - 1))
  }

  lemma {:induction false} LowIsMaskLessOne(n: nat)
    requires n < 32
    ensures Low(n) == Mask(n) - 1
  {
    if n > 0 {
      LowIsMaskLessOne(n - 1);
      MaskIsSingle(n - 1);
      MaskIsNonzero(n - 1);
      OrLessOne(Mask(n - 1));
    }
  }

  lemma OrLessOne(m: bv32)
    requires Single(m) && m != 0
    ensures Or(m - 1, m) == Shifted(m) - 1
  {
  }

  lemma {:induction false} LowBitsClear(x: bv32, n: nat)
    requires forall c :: 0 <= c < n ==> !Bit(x, c)
    ensures And(x, Low(n)) == 0
  {
    if n > 0 {
      LowBitsClear(x, n - 1);
      assert !Bit(x, n - 1);
      AndOr(x, Low(n - 1), Mask(n - 1));
    }
  }

  lemma AndOr(x: bv32, y: bv32, z: bv32)
    requires And(x, y) == 0 && And(x, z) == 0
    ensures And(x, Or(y, z)) == 0
  {
  }

  // A word other than zero has a bit set.
  lemma SomeBit(x: bv32) returns (c: nat)
    requires x != 0
    ensures c < 32 && Bit(x, c)
  {
    HasBit(x);
    c :| 0 <= c < 32 && Bit(x, c);
  }

  lemma HasBit(x: bv32)
    requires x != 0
    ensures exists c: nat :: c < 32 && Bit(x, c)
  {
    hide Bit, Low, And;
    if forall b :: 0 <= b < 32 ==> !Bit(x, b) {
      LowBitsClear(x, 32);
      AllLow();
      AllBits(x);
    }
  }

  lemma AllLow()
    ensures Low(32) == 0xFFFF_FFFF
  {
    hide Low, Mask;
    LowIsMaskLessOne(31);
    TopMask();
    LowOneMore(31);
  }

  lemma LowOneMore(n: nat)
    ensures Low(n + 1) == Or(Low(n), Mask(n))
  {
    hide Or, Mask;
  }

  lemma AllBits(x: bv32)
    ensures And(x, 0xFFFF_FFFF) == x
  {
  }

  // Clearing the lowest set bit leaves something exactly when two columns are set.
  lemma TwoOrMoreIff(x: bv32)
    ensures TwoOrMore(x) <==> exists b: nat, c: nat :: b < c < 32 && Bit(x, b) && Bit(x, c)
  {
    if TwoOrMore(x) {
      TwoBits(x);
    } else if exists b: nat, c: nat :: b < c < 32 && Bit(x, b) && Bit(x, c) {
      var b: nat, c: nat :| b < c < 32 && Bit(x, b) && Bit(x, c);
      MaskIsSingle(b);
      MaskIsSingle(c);
      MasksAreDisjoint(b, c);
      TwoSingles(x, Mask(b), Mask(c));
    }
  }

  lemma TwoSingles(x: bv32, m: bv32, k: bv32)
    requires Single(m) && Single(k) && And(m, k) == 0 && And(x, m) != 0 && And(x, k) != 0
    ensures TwoOrMore(x)
  {
  }

  lemma TwoBits(x: bv32)
    requires TwoOrMore(x)
    ensures exists b: nat, c: nat :: b < c < 32 && Bit(x, b) && Bit(x, c)
  {
    hide And, Xor, Mask;
    var high := And(x, x - 1);
    var low := Xor(x, high);
    LowestBit(x);
    var b := SomeBit(low);
    var c := SomeBit(high);
    BitOfAnd(x, x - 1, c);
    BitOfXor(x, high, b);
    BitOfAnd(x, x - 1, b);
    BitOfAnd(low, high, b);
    BitOfZero(b);
    if b < c {
      assert Bit(x, b) && Bit(x, c);
    } else {
      assert b != c;
      assert Bit(x, c) && Bit(x, b);
    }
  }

  lemma LowestBit(x: bv32)
    requires TwoOrMore(x)
    ensures var high := And(x, x - 1); var low := Xor(x, high);
      high != 0 && low != 0 && And(low, high) == 0
  {
  }
}
