// The checksum as polynomial arithmetic: the register after a message is the remainder of a division over the
// field of two elements.
module CrcRemainder {
  import opened Crc8

  // ---- Polynomials --------------------------------------------------------------------------------

  // Coefficients of a polynomial, the highest first.
  type Poly = seq<bool>

  function Falses(n: nat): (z: Poly)
    ensures |z| == n && forall i :: 0 <= i < n ==> !z[i]
  {
    seq(n, _ => false)
  }

  function Sum(a: Poly, b: Poly): (s: Poly)
    requires |a| == |b|
    ensures |s| == |a| && forall i :: 0 <= i < |s| ==> s[i] == (a[i] != b[i])
  {
    seq(|a|, i requires 0 <= i < |a| => a[i] != b[i])
  }

  // The coefficients of a byte.
  function Coefficients(x: bv8): (p: Poly)
    ensures |p| == 8
  {
    [x & 0x80 != 0, x & 0x40 != 0, x & 0x20 != 0, x & 0x10 != 0,
     x & 0x08 != 0, x & 0x04 != 0, x & 0x02 != 0, x & 0x01 != 0]
  }

  // x^8 and the lower terms of a routine's polynomial.
  function Divisor(poly: bv8): (g: Poly)
    ensures |g| == 9 && g[0]
  {
    [true] + Coefficients(poly)
  }

  // The bit-by-bit routine divides by x^8 + x^5 + x^4 + 1, the one with the table by x^8 + x^2 + x + 1.
  lemma Divisors()
    ensures Divisor(POLY_BITWISE) == [true, false, false, true, true, false, false, false, true]
    ensures Divisor(POLY_TABLE) == [true, false, false, false, false, false, true, true, true]
  {
  }

  // q times g, for g of degree 8, term by term of q.
  function Product(q: Poly, g: Poly): (p: Poly)
    requires |g| == 9
    ensures |p| == |q| + 8
  {
    if q == [] then Falses(8)
    else
      var n := |q| - 1;
      Sum(Product(q[..n], g) + [false], Falses(n) + if q[n] then g else Falses(9))
  }

  // The message's coefficients, first byte first.
  function MessageBits(data: seq<bv8>): (p: Poly)
    ensures |p| == 8 * |data|
  {
    if data == [] then [] else MessageBits(data[..|data| - 1]) + Coefficients(data[|data| - 1])
  }

  // What is divided: the message times x^8, with the start value added to its first eight coefficients.
  function Dividend(bits: Poly, register: bv8): (m: Poly)
    ensures |m| == |bits| + 8
  {
    Sum(bits + Falses(8), Coefficients(register) + Falses(|bits|))
  }

  // m is q times g plus r, of degree below 8.
  predicate Divides(m: Poly, g: Poly, q: Poly, r: Poly)
    requires |g| == 9 && |r| == 8 && |m| == |q| + 8
  {
    m == Sum(Product(q, g), Falses(|q|) + r)
  }

  ghost predicate IsRemainder(m: Poly, g: Poly, r: Poly)
    requires |g| == 9 && |r| == 8 && |m| >= 8
  {
    exists q :: |q| == |m| - 8 && Divides(m, g, q, r)
  }

  // ---- Bit by bit -----------------------------------------------------------------------------------

  function High(b: bool): bv8 { if b then 0x80 else 0 }

  // The register fed with single bits.
  function Feed(poly: bv8, register: bv8, bits: Poly): bv8 {
    if bits == [] then register
    else BitStep(poly, Xor(Feed(poly, register, bits[..|bits| - 1]), High(bits[|bits| - 1])))
  }

  // The coefficients of the quotient that feeding the bits finds.
  function Quotient(poly: bv8, register: bv8, bits: Poly): (q: Poly)
    ensures |q| == |bits|
  {
    if bits == [] then []
    else
      var n := |bits| - 1;
      Quotient(poly, register, bits[..n]) + [Coefficients(Feed(poly, register, bits[..n]))[0] != bits[n]]
  }

  // d is what one step of a division by x^8 + p leaves of c with b added, shifted.
  predicate Shifted(c: Poly, p: Poly, b: bool, d: Poly) {
    && |c| == 8 && |p| == 8 && |d| == 8
    && var q := c[0] != b;
      && d[0] == (c[1] != (q && p[0])) && d[1] == (c[2] != (q && p[1]))
      && d[2] == (c[3] != (q && p[2])) && d[3] == (c[4] != (q && p[3]))
      && d[4] == (c[5] != (q && p[4])) && d[5] == (c[6] != (q && p[5]))
      && d[6] == (c[7] != (q && p[6])) && d[7] == (q && p[7])
  }

  // One step of the division.
  lemma StepDivides(c: Poly, p: Poly, b: bool, d: Poly)
    requires Shifted(c, p, b, d)
    ensures Sum(c + [false], [b] + Falses(8))
         == Sum(if c[0] != b then [true] + p else Falses(9), [false] + d)
  {
    var u, v := c + [false], [b] + Falses(8);
    var w, z := if c[0] != b then [true] + p else Falses(9), [false] + d;
    assert u[0] == c[0] && v[0] == b && w[0] == (c[0] != b) && !z[0];
    forall i | 0 < i < 9 ensures u[i] == (w[i] != z[i]) && !v[i] {
      assert w[i] == ((c[0] != b) && p[i - 1]) && z[i] == d[i - 1];
      ShiftedAt(c, p, b, d, i - 1);
    }
  }

  lemma ShiftedAt(c: Poly, p: Poly, b: bool, d: Poly, i: nat)
    requires Shifted(c, p, b, d) && i < 8
    ensures d[i] == ((i < 7 && c[i + 1]) != ((c[0] != b) && p[i]))
  {
  }

  predicate Has(x: bv8, m: bv8) { x & m != 0 }

  predicate OneBit(m: bv8) {
    m == 0x80 || m == 0x40 || m == 0x20 || m == 0x10 || m == 0x08 || m == 0x04 || m == 0x02 || m == 0x01
  }

  // n is the next lower bit, or nothing.
  predicate Next(m: bv8, n: bv8) {
    || (m == 0x80 && n == 0x40) || (m == 0x40 && n == 0x20) || (m == 0x20 && n == 0x10) || (m == 0x10 && n == 0x08)
    || (m == 0x08 && n == 0x04) || (m == 0x04 && n == 0x02) || (m == 0x02 && n == 0x01) || (m == 0x01 && n == 0)
  }

  lemma NextIsBit(m: bv8, n: bv8)
    requires Next(m, n)
    ensures OneBit(m)
  {
  }

  lemma ShiftBit(x: bv8, m: bv8, n: bv8)
    requires Next(m, n)
    ensures Has(x << 1, m) == Has(x, n)
  {
  }

  lemma XorBit(x: bv8, y: bv8, m: bv8)
    requires OneBit(m)
    ensures Has(Xor(x, y), m) == (Has(x, m) != Has(y, m))
  {
  }

  lemma HighDrops(x: bv8, b: bool)
    ensures Has(Xor(x, High(b)), 0x80) == (Has(x, 0x80) != b) && Xor(x, High(b)) << 1 == x << 1
  {
  }

  lemma StepIs(poly: bv8, x: bv8, b: bool)
    ensures BitStep(poly, Xor(x, High(b))) == if Has(x, 0x80) != b then Xor(x << 1, poly) else x << 1
  {
    HighDrops(x, b);
    assert BitStep(poly, Xor(x, High(b))) ==
      if Has(Xor(x, High(b)), 0x80) then Xor(Xor(x, High(b)) << 1, poly) else Xor(x, High(b)) << 1;
  }

  // One coefficient of the next register.
  lemma StepBit(poly: bv8, x: bv8, b: bool, m: bv8, n: bv8)
    requires Next(m, n)
    ensures Has(BitStep(poly, Xor(x, High(b))), m)
         == (Has(x, n) != ((Has(x, 0x80) != b) && Has(poly, m)))
  {
    StepIs(poly, x, b);
    NextIsBit(m, n);
    hide Has, Xor, High, BitStep, Next, OneBit;
    ShiftBit(x, m, n);
    XorBit(x << 1, poly, m);
  }

  // All of them.
  lemma StepBits(poly: bv8, x: bv8, b: bool)
    ensures var q, y := Has(x, 0x80) != b, BitStep(poly, Xor(x, High(b)));
      && Has(y, 0x80) == (Has(x, 0x40) != (q && Has(poly, 0x80)))
      && Has(y, 0x40) == (Has(x, 0x20) != (q && Has(poly, 0x40)))
      && Has(y, 0x20) == (Has(x, 0x10) != (q && Has(poly, 0x20)))
      && Has(y, 0x10) == (Has(x, 0x08) != (q && Has(poly, 0x10)))
      && Has(y, 0x08) == (Has(x, 0x04) != (q && Has(poly, 0x08)))
      && Has(y, 0x04) == (Has(x, 0x02) != (q && Has(poly, 0x04)))
      && Has(y, 0x02) == (Has(x, 0x01) != (q && Has(poly, 0x02)))
      && Has(y, 0x01) == (q && Has(poly, 0x01))
  {
    hide Has, Xor, High, BitStep;
    StepBit(poly, x, b, 0x80, 0x40);
    StepBit(poly, x, b, 0x40, 0x20);
    StepBit(poly, x, b, 0x20, 0x10);
    StepBit(poly, x, b, 0x10, 0x08);
    StepBit(poly, x, b, 0x08, 0x04);
    StepBit(poly, x, b, 0x04, 0x02);
    StepBit(poly, x, b, 0x02, 0x01);
    StepBit(poly, x, b, 0x01, 0);
    NoBit(x);
  }

  lemma StepShifts(poly: bv8, x: bv8, b: bool)
    ensures Shifted(Coefficients(x), Coefficients(poly), b, Coefficients(BitStep(poly, Xor(x, High(b)))))
  {
    hide Has, Xor, High, Coefficients, BitStep;
    CoefficientsHave(x);
    CoefficientsHave(poly);
    CoefficientsHave(BitStep(poly, Xor(x, High(b))));
    StepBits(poly, x, b);
  }

  lemma NoBit(x: bv8)
    ensures !Has(x, 0)
  {
  }

  lemma CoefficientsHave(x: bv8)
    ensures var p := Coefficients(x);
      && p[0] == Has(x, 0x80) && p[1] == Has(x, 0x40) && p[2] == Has(x, 0x20) && p[3] == Has(x, 0x10)
      && p[4] == Has(x, 0x08) && p[5] == Has(x, 0x04) && p[6] == Has(x, 0x02) && p[7] == Has(x, 0x01)
  {
  }

  // ---- The register is a remainder ------------------------------------------------------------------

  lemma SumsAgree(p: Poly, r: Poly, b: bool, g: Poly, r': Poly)
    requires |p| >= 8 && |r| == |r'| == 8 && |g| == 9
    requires Sum(r + [false], [b] + Falses(8)) == Sum(g, [false] + r')
    ensures var n := |p| - 8;
      Sum(Sum(p, Falses(n) + r) + [false], Falses(n) + [b] + Falses(8))
      == Sum(Sum(p + [false], Falses(n) + g), Falses(n + 1) + r')
  {
    var n := |p| - 8;
    var left := Sum(Sum(p, Falses(n) + r) + [false], Falses(n) + [b] + Falses(8));
    var right := Sum(Sum(p + [false], Falses(n) + g), Falses(n + 1) + r');
    var step, step' := Sum(r + [false], [b] + Falses(8)), Sum(g, [false] + r');
    forall i | 0 <= i < n + 9 ensures left[i] == right[i] {
      if i >= n {
        assert step[i - n] == step'[i - n];
      }
    }
  }

  // One more bit of the message, and one more coefficient of the quotient.
  lemma DividesOneMore(m: Poly, g: Poly, q: Poly, r: Poly, p: Poly, b: bool, r': Poly)
    requires |m| == |q| + 8 && |r| == 8 && g == [true] + p && |p| == 8
    requires Divides(m, g, q, r) && Shifted(r, p, b, r')
    ensures var n := |q|;
      Divides(Sum(m + [false], Falses(n) + [b] + Falses(8)), g, q + [r[0] != b], r')
  {
    var c := r[0] != b;
    StepDivides(r, p, b, r');
    SumsAgree(Product(q, g), r, b, if c then g else Falses(9), r');
    assert (q + [c])[..|q|] == q;
  }

  lemma DividendOneMore(bits: Poly, b: bool, register: bv8)
    ensures Dividend(bits + [b], register)
         == Sum(Dividend(bits, register) + [false], Falses(|bits|) + [b] + Falses(8))
  {
    hide Coefficients;
  }

  lemma {:induction false} FeedDivides(poly: bv8, register: bv8, bits: Poly)
    ensures Divides(Dividend(bits, register), Divisor(poly), Quotient(poly, register, bits),
                    Coefficients(Feed(poly, register, bits)))
  {
    hide Coefficients, BitStep, Xor, High, Divides, Dividend;
    if bits == [] {
      NothingDivides(poly, register);
    } else {
      var n := |bits| - 1;
      var before := bits[..n];
      var x := Feed(poly, register, before);
      FeedDivides(poly, register, before);
      StepShifts(poly, x, bits[n]);
      DividesOneMore(Dividend(before, register), Divisor(poly), Quotient(poly, register, before), Coefficients(x),
                     Coefficients(poly), bits[n], Coefficients(Feed(poly, register, bits)));
      DividendOneMore(before, bits[n], register);
      assert bits == before + [bits[n]];
    }
  }

  lemma NothingDivides(poly: bv8, register: bv8)
    ensures Divides(Dividend([], register), Divisor(poly), Quotient(poly, register, []),
                    Coefficients(Feed(poly, register, [])))
  {
    hide Coefficients;
  }

  // ---- Whole bytes ------------------------------------------------------------------------------------

  lemma {:induction false} FeedConcat(poly: bv8, register: bv8, a: Poly, b: Poly)
    ensures Feed(poly, register, a + b) == Feed(poly, Feed(poly, register, a), b)
  {
    hide BitStep, Xor, High;
    if b == [] {
      assert a + b == a;
    } else {
      var n := |b| - 1;
      FeedConcat(poly, register, a, b[..n]);
      assert (a + b)[..|a| + n] == a + b[..n];
    }
  }

  function Shl(d: bv8, n: nat): bv8 {
    if n == 0 then d else Shl(d, n - 1) << 1
  }

  lemma ShlNext(d: bv8, n: nat)
    ensures Shl(d, n + 1) == Shl(d, n) << 1
  {
  }

  lemma Shls(d: bv8)
    ensures Shl(d, 0) == d && Shl(d, 1) == d << 1 && Shl(d, 2) == d << 2 && Shl(d, 3) == d << 3
    ensures Shl(d, 4) == d << 4 && Shl(d, 5) == d << 5 && Shl(d, 6) == d << 6 && Shl(d, 7) == d << 7
    ensures Shl(d, 8) == 0
  {
    ShlNext(d, 0);
    ShlNext(d, 1);
    ShlNext(d, 2);
    ShlNext(d, 3);
    ShlNext(d, 4);
    ShlNext(d, 5);
    ShlNext(d, 6);
    ShlNext(d, 7);
  }

  lemma CoefficientAt(d: bv8, k: nat)
    requires k < 8
    ensures Coefficients(d)[k] == Has(Shl(d, k), 0x80)
  {
    Shls(d);
  }

  // After k bits of a byte the register is what k turns of the inner loop leave, up to the bits still to come.
  lemma StepAhead(poly: bv8, s: bv8, d: bv8)
    ensures BitStep(poly, Xor(Xor(s, d), High(Has(d, 0x80)))) == Xor(BitStep(poly, s), d << 1)
  {
    var rest := Xor(d, High(Has(d, 0x80)));
    assert Xor(Xor(s, d), High(Has(d, 0x80))) == Xor(s, rest);
    assert BitStep(poly, rest) == d << 1;
    hide BitStep, Xor, High, Has;
    BitStepLinear(poly, s, rest);
  }

  lemma {:induction false} FeedPrefix(poly: bv8, register: bv8, d: bv8, k: nat)
    requires k <= 8
    ensures Feed(poly, register, Coefficients(d)[..k]) == Xor(Steps(poly, Xor(register, d), k), Shl(d, k))
  {
    hide BitStep, Xor, High, Has, Coefficients;
    if k == 0 {
      XorTwice(register, d);
    } else {
      FeedPrefix(poly, register, d, k - 1);
      assert Coefficients(d)[..k][..k - 1] == Coefficients(d)[..k - 1];
      CoefficientAt(d, k - 1);
      StepAhead(poly, Steps(poly, Xor(register, d), k - 1), Shl(d, k - 1));
    }
  }

  lemma XorTwice(a: bv8, b: bv8)
    ensures Xor(Xor(a, b), b) == a
  {
  }

  lemma FeedByte(poly: bv8, register: bv8, d: bv8)
    ensures Feed(poly, register, Coefficients(d)) == ByteStep(poly, Xor(register, d))
  {
    hide BitStep, ByteStep, Xor, Coefficients;
    FeedPrefix(poly, register, d, 8);
    assert Coefficients(d)[..8] == Coefficients(d);
    EightSteps(poly, Xor(register, d));
    Shls(d);
    XorZero(Steps(poly, Xor(register, d), 8), 0);
  }

  lemma {:induction false} CrcIsFeed(poly: bv8, register: bv8, data: seq<bv8>)
    ensures Crc(poly, register, data) == Feed(poly, register, MessageBits(data))
  {
    if data != [] {
      hide ByteStep, Xor, Coefficients, BitStep;
      var n := |data| - 1;
      CrcIsFeed(poly, register, data[..n]);
      FeedConcat(poly, register, MessageBits(data[..n]), Coefficients(data[n]));
      FeedByte(poly, Crc(poly, register, data[..n]), data[n]);
    }
  }

  // ---- Remainders are unique --------------------------------------------------------------------------

  // The first coefficients of a product depend on the first factors only, one new one with each.
  lemma {:induction false} ProductAt(q: Poly, g: Poly, i: nat)
    requires |g| == 9 && g[0] && i < |q|
    ensures Product(q, g)[i] == (Product(q[..i], g)[i] != q[i])
  {
    var n := |q| - 1;
    if i < n {
      ProductAt(q[..n], g, i);
      assert q[..n][..i] == q[..i];
    }
  }

  lemma {:induction false} SameQuotient(m: Poly, g: Poly, q: Poly, r: Poly, q': Poly, r': Poly, i: nat)
    requires |g| == 9 && g[0] && |r| == |r'| == 8 && |q| == |q'| && |m| == |q| + 8 && i <= |q|
    requires Divides(m, g, q, r) && Divides(m, g, q', r')
    ensures q[..i] == q'[..i]
  {
    if i > 0 {
      SameQuotient(m, g, q, r, q', r', i - 1);
      ProductAt(q, g, i - 1);
      ProductAt(q', g, i - 1);
      assert m[i - 1] == Product(q, g)[i - 1] == Product(q', g)[i - 1];
      assert q[..i] == q[..i - 1] + [q[i - 1]] && q'[..i] == q'[..i - 1] + [q'[i - 1]];
    }
  }

  lemma SameRemainder(m: Poly, g: Poly, q: Poly, r: Poly, q': Poly, r': Poly)
    requires |g| == 9 && g[0] && |r| == |r'| == 8 && |q| == |q'| && |m| == |q| + 8
    requires Divides(m, g, q, r) && Divides(m, g, q', r')
    ensures q == q' && r == r'
  {
    var n := |q|;
    SameQuotient(m, g, q, r, q', r', n);
    assert q == q[..n] == q'[..n] == q';
    forall i | 0 <= i < 8 ensures r[i] == r'[i] {
      assert m[n + i] == (Product(q, g)[n + i] != r[i]) && m[n + i] == (Product(q, g)[n + i] != r'[i]);
    }
  }

  // The checksum of a message is the one remainder of that message, times x^8 and with the start value added in
  // front, on division by the routine's polynomial.
  lemma CrcIsTheRemainder(poly: bv8, register: bv8, data: seq<bv8>, r: Poly)
    requires |r| == 8
    ensures IsRemainder(Dividend(MessageBits(data), register), Divisor(poly), r) <==>
      r == Coefficients(Crc(poly, register, data))
  {
    hide Coefficients, Divides, Dividend, Crc, Feed, Quotient;
    var bits := MessageBits(data);
    var m, g := Dividend(bits, register), Divisor(poly);
    FeedDivides(poly, register, bits);
    CrcIsFeed(poly, register, data);
    var q, c := Quotient(poly, register, bits), Coefficients(Crc(poly, register, data));
    assert Divides(m, g, q, c);
    if IsRemainder(m, g, r) {
      var q' :| |q'| == |m| - 8 && Divides(m, g, q', r);
      SameRemainder(m, g, q, c, q', r);
    }
  }

  // The two routines, with their polynomials and start value written out.
  lemma ChecksumsAre(data: seq<bv8>, r: Poly)
    requires |r| == 8
    ensures var g := [true, false, false, true, true, false, false, false, true];
      IsRemainder(Dividend(MessageBits(data), 0xFF), g, r) <==> r == Coefficients(Crc(POLY_BITWISE, START, data))
    ensures var g := [true, false, false, false, false, false, true, true, true];
      IsRemainder(Dividend(MessageBits(data), 0xFF), g, r) <==> r == Coefficients(Crc(POLY_TABLE, START, data))
  {
    Divisors();
    hide IsRemainder, Crc, Coefficients, Divisor, Dividend;
    CrcIsTheRemainder(POLY_BITWISE, START, data, r);
    CrcIsTheRemainder(POLY_TABLE, START, data, r);
  }
}
