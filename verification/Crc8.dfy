// The two CRC8 routines of quantum/crc.c: bit by bit with polynomial 0x31, and by table with polynomial
// 0x07.
module Crc8 {

  const POLY_BITWISE: bv8 := 0x31
  const POLY_TABLE: bv8 := 0x07
  const START: bv8 := 0xFF

  function Xor(a: bv8, b: bv8): bv8 { a ^ b }

  // One turn of the inner loop.
  function BitStep(poly: bv8, x: bv8): bv8 {
    if x & 0x80 != 0 then (x << 1) ^ poly else x << 1
  }

  // All eight turns.
  function ByteStep(poly: bv8, x: bv8): bv8 {
    Twice(poly, Twice(poly, Twice(poly, Twice(poly, x))))
  }

  function Twice(poly: bv8, x: bv8): bv8 { BitStep(poly, BitStep(poly, x)) }

  // The register after the message.
  function Crc(poly: bv8, register: bv8, data: seq<bv8>): bv8 {
    if data == [] then register
    else ByteStep(poly, Xor(Crc(poly, register, data[..|data| - 1]), data[|data| - 1]))
  }

  function Difference(x: seq<bv8>, y: seq<bv8>): (d: seq<bv8>)
    requires |x| == |y|
    ensures |d| == |x|
  {
    seq(|x|, i requires 0 <= i < |x| => Xor(x[i], y[i]))
  }

  // ---- Every step is linear and one to one ------------------------------------------------------------

  lemma XorLaws(a: bv8, b: bv8, c: bv8)
    ensures Xor(a, b) == Xor(b, a) && Xor(Xor(a, b), c) == Xor(a, Xor(b, c))
  {
  }

  lemma XorAlgebra(a: bv8, b: bv8, c: bv8, d: bv8)
    ensures Xor(Xor(a, b), Xor(c, d)) == Xor(Xor(a, c), Xor(b, d))
  {
    hide Xor;
    XorLaws(a, b, Xor(c, d));
    XorLaws(b, c, d);
    XorLaws(c, b, d);
    XorLaws(a, c, Xor(b, d));
  }

  lemma XorZero(a: bv8, b: bv8)
    ensures Xor(a, b) == 0 <==> a == b
    ensures Xor(0, a) == a && Xor(a, 0) == a && Xor(a, a) == 0
  {
  }

  lemma ShiftLinear(x: bv8, y: bv8)
    ensures (x ^ y) << 1 == (x << 1) ^ (y << 1)
    ensures (x ^ y) & 0x80 != 0 <==> (x & 0x80 != 0) != (y & 0x80 != 0)
  {
  }

  lemma PolyLinear(poly: bv8, a: bv8, b: bv8)
    ensures (a ^ b) ^ poly == (a ^ poly) ^ b && (a ^ b) ^ poly == a ^ (b ^ poly)
    ensures a ^ b == (a ^ poly) ^ (b ^ poly)
  {
  }

  lemma BitStepLinear(poly: bv8, x: bv8, y: bv8)
    ensures BitStep(poly, Xor(x, y)) == Xor(BitStep(poly, x), BitStep(poly, y))
  {
    ShiftLinear(x, y);
    PolyLinear(poly, x << 1, y << 1);
  }

  lemma TwiceLinear(poly: bv8, x: bv8, y: bv8)
    ensures Twice(poly, Xor(x, y)) == Xor(Twice(poly, x), Twice(poly, y))
  {
    hide BitStep, Xor;
    BitStepLinear(poly, x, y);
    BitStepLinear(poly, BitStep(poly, x), BitStep(poly, y));
  }

  lemma ByteStepLinear(poly: bv8, x: bv8, y: bv8)
    ensures ByteStep(poly, Xor(x, y)) == Xor(ByteStep(poly, x), ByteStep(poly, y))
  {
    hide Twice, Xor;
    var x1, y1 := Twice(poly, x), Twice(poly, y);
    var x2, y2 := Twice(poly, x1), Twice(poly, y1);
    var x3, y3 := Twice(poly, x2), Twice(poly, y2);
    TwiceLinear(poly, x, y);
    TwiceLinear(poly, x1, y1);
    TwiceLinear(poly, x2, y2);
    TwiceLinear(poly, x3, y3);
  }

  // A polynomial with constant term 1 loses no bit.
  predicate Proper(poly: bv8) { poly & 1 == 1 }

  lemma BitStepKernel(poly: bv8, x: bv8)
    requires Proper(poly)
    ensures BitStep(poly, x) == 0 <==> x == 0
  {
  }

  lemma ByteStepKernel(poly: bv8, x: bv8)
    requires Proper(poly)
    ensures ByteStep(poly, x) == 0 <==> x == 0
  {
    hide BitStep;
    var x1 := Twice(poly, x);
    var x2 := Twice(poly, x1);
    var x3 := Twice(poly, x2);
    BitStepKernel(poly, x);
    BitStepKernel(poly, BitStep(poly, x));
    BitStepKernel(poly, x1);
    BitStepKernel(poly, BitStep(poly, x1));
    BitStepKernel(poly, x2);
    BitStepKernel(poly, BitStep(poly, x2));
    BitStepKernel(poly, x3);
    BitStepKernel(poly, BitStep(poly, x3));
  }

  lemma {:induction false} CrcLinear(poly: bv8, a: bv8, b: bv8, x: seq<bv8>, y: seq<bv8>)
    requires |x| == |y|
    ensures Xor(Crc(poly, a, x), Crc(poly, b, y)) == Crc(poly, Xor(a, b), Difference(x, y))
  {
    hide ByteStep, Xor;
    if x != [] {
      var n := |x| - 1;
      CrcLinear(poly, a, b, x[..n], y[..n]);
      assert Difference(x, y)[..n] == Difference(x[..n], y[..n]);
      var c, d := Crc(poly, a, x[..n]), Crc(poly, b, y[..n]);
      ByteStepLinear(poly, Xor(c, x[n]), Xor(d, y[n]));
      XorAlgebra(c, x[n], d, y[n]);
    }
  }

  // Which errors go unnoticed does not depend on the message or on the start value: two messages of the
  // same length collide exactly when their difference, alone and from zero, leaves the register zero.
  lemma CollisionIff(poly: bv8, register: bv8, x: seq<bv8>, y: seq<bv8>)
    requires |x| == |y|
    ensures Crc(poly, register, x) == Crc(poly, register, y) <==> Crc(poly, 0, Difference(x, y)) == 0
  {
    hide Crc, Xor;
    CrcLinear(poly, register, register, x, y);
    XorZero(Crc(poly, register, x), Crc(poly, register, y));
    XorZero(register, register);
  }

  // ---- Errors that are always noticed -----------------------------------------------------------------

  function Zeros(n: nat): (z: seq<bv8>)
    ensures |z| == n
  {
    seq(n, _ => 0)
  }

  lemma {:induction false} ZerosKeepZero(poly: bv8, n: nat)
    requires Proper(poly)
    ensures Crc(poly, 0, Zeros(n)) == 0
  {
    hide ByteStep;
    if n > 0 {
      ZerosKeepZero(poly, n - 1);
      assert Zeros(n)[..n - 1] == Zeros(n - 1);
      ByteStepKernel(poly, 0);
      XorZero(0, 0);
    }
  }

  // A register that is not zero stays so over bytes that agree.
  lemma {:induction false} ZerosKeepNonzero(poly: bv8, d: seq<bv8>, n: nat)
    requires Proper(poly) && Crc(poly, 0, d) != 0
    ensures Crc(poly, 0, d + Zeros(n)) != 0
  {
    hide ByteStep;
    if n == 0 {
      assert d + Zeros(0) == d;
    } else {
      ZerosKeepNonzero(poly, d, n - 1);
      assert (d + Zeros(n))[..|d| + n - 1] == d + Zeros(n - 1);
      ByteStepKernel(poly, Crc(poly, 0, d + Zeros(n - 1)));
      XorZero(Crc(poly, 0, d + Zeros(n - 1)), 0);
    }
  }

  lemma AppendOne(poly: bv8, r: bv8, d: seq<bv8>, b: bv8)
    ensures Crc(poly, r, d + [b]) == ByteStep(poly, Xor(Crc(poly, r, d), b))
  {
    assert (d + [b])[..|d|] == d;
  }

  // Two messages of the same length that differ in one byte only have different checksums.
  lemma OneByteDetected(poly: bv8, register: bv8, x: seq<bv8>, y: seq<bv8>, i: nat)
    requires Proper(poly) && |x| == |y| && i < |x| && x[i] != y[i]
    requires forall j :: 0 <= j < |x| && j != i ==> x[j] == y[j]
    ensures Crc(poly, register, x) != Crc(poly, register, y)
  {
    hide ByteStep, Crc, Xor;
    var e := Xor(x[i], y[i]);
    var d := Zeros(i) + [e];
    CollisionIff(poly, register, x, y);
    DifferenceOf(x, y, i, i + 1);
    assert Difference(x, y)[i..i + 1] == [e];
    ZerosKeepZero(poly, i);
    AppendOne(poly, 0, Zeros(i), e);
    XorZero(x[i], y[i]);
    XorZero(e, e);
    ByteStepKernel(poly, e);
    ZerosKeepNonzero(poly, d, |x| - i - 1);
  }

  // Messages that agree outside [i, j) differ by zeros around the difference of those bytes.
  lemma DifferenceOf(x: seq<bv8>, y: seq<bv8>, i: nat, j: nat)
    requires |x| == |y| && i <= j <= |x|
    requires forall m :: 0 <= m < |x| && !(i <= m < j) ==> x[m] == y[m]
    ensures Difference(x, y) == Zeros(i) + Difference(x, y)[i..j] + Zeros(|x| - j)
  {
    var d := Zeros(i) + Difference(x, y)[i..j] + Zeros(|x| - j);
    forall m | 0 <= m < |x| ensures Difference(x, y)[m] == d[m] {
      if m < i || j <= m {
        XorZero(x[m], y[m]);
      }
    }
  }

  // a ends and b begins one run of at most eight bits: k low bits of a, 8 - k high bits of b.
  predicate Burst(a: bv8, b: bv8) {
    (a | b != 0)
    && (|| (a <= 0x01 && b & 0x01 == 0) || (a <= 0x03 && b & 0x03 == 0) || (a <= 0x07 && b & 0x07 == 0)
        || (a <= 0x0F && b & 0x0F == 0) || (a <= 0x1F && b & 0x1F == 0) || (a <= 0x3F && b & 0x3F == 0)
        || (a <= 0x7F && b & 0x7F == 0))
  }

  // After zeros, the difference a, b leaves the register zero exactly when b equals what a becomes.
  lemma TwoBytesUndetectedIff(poly: bv8, n: nat, a: bv8, b: bv8)
    requires Proper(poly)
    ensures Crc(poly, 0, Zeros(n) + [a, b]) == 0 <==> b == ByteStep(poly, a)
  {
    hide ByteStep, Crc, Xor;
    ZerosKeepZero(poly, n);
    AppendOne(poly, 0, Zeros(n), a);
    AppendOne(poly, 0, Zeros(n) + [a], b);
    assert Zeros(n) + [a, b] == Zeros(n) + [a] + [b];
    XorZero(a, a);
    ByteStepKernel(poly, Xor(ByteStep(poly, a), b));
    XorZero(ByteStep(poly, a), b);
  }

  lemma BurstSurvives(poly: bv8, a: bv8, b: bv8)
    requires (poly == POLY_BITWISE || poly == POLY_TABLE) && Burst(a, b)
    ensures b != ByteStep(poly, a)
  {
  }

  // Two messages whose difference is one run of at most eight bits, across two neighbouring bytes, have
  // different checksums under either polynomial.
  lemma BurstDetected(poly: bv8, register: bv8, x: seq<bv8>, y: seq<bv8>, i: nat)
    requires poly == POLY_BITWISE || poly == POLY_TABLE
    requires |x| == |y| && i + 1 < |x| && Burst(Xor(x[i], y[i]), Xor(x[i + 1], y[i + 1]))
    requires forall j :: 0 <= j < |x| && j != i && j != i + 1 ==> x[j] == y[j]
    ensures Crc(poly, register, x) != Crc(poly, register, y)
  {
    hide ByteStep, Crc, Burst, Xor;
    var a, b := Xor(x[i], y[i]), Xor(x[i + 1], y[i + 1]);
    CollisionIff(poly, register, x, y);
    DifferenceOf(x, y, i, i + 2);
    assert Difference(x, y)[i..i + 2] == [a, b];
    TwoBytesUndetectedIff(poly, i, a, b);
    BurstSurvives(poly, a, b);
    ZerosKeepNonzero(poly, Zeros(i) + [a, b], |x| - i - 2);
  }

  // ---- The bit loop -------------------------------------------------------------------------------------

  function Steps(poly: bv8, x: bv8, n: nat): bv8 {
    if n == 0 then x else BitStep(poly, Steps(poly, x, n - 1))
  }

  lemma TwoSteps(poly: bv8, x: bv8, n: nat)
    ensures Steps(poly, x, 0) == x && Steps(poly, x, n + 2) == Twice(poly, Steps(poly, x, n))
  {
    hide BitStep;
  }

  lemma EightSteps(poly: bv8, x: bv8)
    ensures Steps(poly, x, 8) == ByteStep(poly, x)
  {
    hide BitStep;
    TwoSteps(poly, x, 0);
    TwoSteps(poly, x, 2);
    TwoSteps(poly, x, 4);
    TwoSteps(poly, x, 6);
  }

  // crc8, bit by bit, with an eight-bit register
  method Bitwise(data: array<bv8>) returns (crc: bv8)
    ensures crc == Crc(POLY_BITWISE, START, data[..])
  {
    hide BitStep, ByteStep, Xor;
    crc := 0xFF;
    for i := 0 to data.Length
      invariant crc == Crc(POLY_BITWISE, START, data[..i])
    {
      crc := Xor(crc, data[i]);
      ghost var x := crc;
      for j := 0 to 8
        invariant crc == Steps(POLY_BITWISE, x, j)
      {
        crc := BitStep(POLY_BITWISE, crc);
      }
      EightSteps(POLY_BITWISE, x);
      assert data[..i + 1][..i] == data[..i];
    }
    assert data[..data.Length] == data[..];
  }

  // The same turn on a register wider than eight bits, whose upper bits are never cleared.
  function WideBitStep(x: bv32): bv32 {
    if x & 0x80 != 0 then (x << 1) ^ 0x31 else x << 1
  }

  function Low(x: bv32): bv8 { (x & 0xFF) as bv8 }

  lemma WideStepsAgree(x: bv32)
    ensures Low(WideBitStep(x)) == BitStep(POLY_BITWISE, Low(x))
  {
  }

  function WideXor(x: bv32, d: bv8): bv32 { x ^ (d as bv32) }

  lemma WideXorAgrees(x: bv32, d: bv8)
    ensures Low(WideXor(x, d)) == Xor(Low(x), d)
  {
  }

  // crc8, bit by bit, where crc_t is wider than eight bits: the byte returned is the same.
  method BitwiseWide(data: array<bv8>) returns (result: bv8)
    ensures result == Crc(POLY_BITWISE, START, data[..])
  {
    hide BitStep, ByteStep, WideBitStep, Low, Xor, WideXor;
    var crc: bv32 := 0xFF;
    assert Low(crc) == START by { LowOfStart(); }
    for i := 0 to data.Length
      invariant Low(crc) == Crc(POLY_BITWISE, START, data[..i])
    {
      WideXorAgrees(crc, data[i]);
      crc := WideXor(crc, data[i]);
      ghost var x := Low(crc);
      for j := 0 to 8
        invariant Low(crc) == Steps(POLY_BITWISE, x, j)
      {
        WideStepsAgree(crc);
        crc := WideBitStep(crc);
      }
      EightSteps(POLY_BITWISE, x);
      assert data[..i + 1][..i] == data[..i];
    }
    assert data[..data.Length] == data[..];
    result := Low(crc);
  }

  lemma LowOfStart()
    ensures Low(0xFF) == START
  {
  }

  // ---- The table ----------------------------------------------------------------------------------------

  const CRC_TABLE: seq<seq<bv8>> := [
    [0x00, 0x07, 0x0e, 0x09, 0x1c, 0x1b, 0x12, 0x15, 0x38, 0x3f, 0x36, 0x31, 0x24, 0x23, 0x2a, 0x2d],
    [0x70, 0x77, 0x7e, 0x79, 0x6c, 0x6b, 0x62, 0x65, 0x48, 0x4f, 0x46, 0x41, 0x54, 0x53, 0x5a, 0x5d],
    [0xe0, 0xe7, 0xee, 0xe9, 0xfc, 0xfb, 0xf2, 0xf5, 0xd8, 0xdf, 0xd6, 0xd1, 0xc4, 0xc3, 0xca, 0xcd],
    [0x90, 0x97, 0x9e, 0x99, 0x8c, 0x8b, 0x82, 0x85, 0xa8, 0xaf, 0xa6, 0xa1, 0xb4, 0xb3, 0xba, 0xbd],
    [0xc7, 0xc0, 0xc9, 0xce, 0xdb, 0xdc, 0xd5, 0xd2, 0xff, 0xf8, 0xf1, 0xf6, 0xe3, 0xe4, 0xed, 0xea],
    [0xb7, 0xb0, 0xb9, 0xbe, 0xab, 0xac, 0xa5, 0xa2, 0x8f, 0x88, 0x81, 0x86, 0x93, 0x94, 0x9d, 0x9a],
    [0x27, 0x20, 0x29, 0x2e, 0x3b, 0x3c, 0x35, 0x32, 0x1f, 0x18, 0x11, 0x16, 0x03, 0x04, 0x0d, 0x0a],
    [0x57, 0x50, 0x59, 0x5e, 0x4b, 0x4c, 0x45, 0x42, 0x6f, 0x68, 0x61, 0x66, 0x73, 0x74, 0x7d, 0x7a],
    [0x89, 0x8e, 0x87, 0x80, 0x95, 0x92, 0x9b, 0x9c, 0xb1, 0xb6, 0xbf, 0xb8, 0xad, 0xaa, 0xa3, 0xa4],
    [0xf9, 0xfe, 0xf7, 0xf0, 0xe5, 0xe2, 0xeb, 0xec, 0xc1, 0xc6, 0xcf, 0xc8, 0xdd, 0xda, 0xd3, 0xd4],
    [0x69, 0x6e, 0x67, 0x60, 0x75, 0x72, 0x7b, 0x7c, 0x51, 0x56, 0x5f, 0x58, 0x4d, 0x4a, 0x43, 0x44],
    [0x19, 0x1e, 0x17, 0x10, 0x05, 0x02, 0x0b, 0x0c, 0x21, 0x26, 0x2f, 0x28, 0x3d, 0x3a, 0x33, 0x34],
    [0x4e, 0x49, 0x40, 0x47, 0x52, 0x55, 0x5c, 0x5b, 0x76, 0x71, 0x78, 0x7f, 0x6a, 0x6d, 0x64, 0x63],
    [0x3e, 0x39, 0x30, 0x37, 0x22, 0x25, 0x2c, 0x2b, 0x06, 0x01, 0x08, 0x0f, 0x1a, 0x1d, 0x14, 0x13],
    [0xae, 0xa9, 0xa0, 0xa7, 0xb2, 0xb5, 0xbc, 0xbb, 0x96, 0x91, 0x98, 0x9f, 0x8a, 0x8d, 0x84, 0x83],
    [0xde, 0xd9, 0xd0, 0xd7, 0xc2, 0xc5, 0xcc, 0xcb, 0xe6, 0xe1, 0xe8, 0xef, 0xfa, 0xfd, 0xf4, 0xf3]]

  function Nibble(x: bv8): (n: nat)
    requires x < 16
    ensures n < 16
  {
    if x == 0 then 0 else if x == 1 then 1 else if x == 2 then 2 else if x == 3 then 3
    else if x == 4 then 4 else if x == 5 then 5 else if x == 6 then 6 else if x == 7 then 7
    else if x == 8 then 8 else if x == 9 then 9 else if x == 10 then 10 else if x == 11 then 11
    else if x == 12 then 12 else if x == 13 then 13 else if x == 14 then 14 else 15
  }

  lemma Nibbles(x: bv8)
    ensures x >> 4 < 16 && x & 15 < 16
  {
  }

  // crc_table[x], in the sixteen rows in which the table is laid out
  function Lookup(x: bv8): bv8 {
    Nibbles(x);
    CRC_TABLE[Nibble(x >> 4)][Nibble(x & 15)]
  }

  predicate RowIs(row: seq<bv8>, b: bv8) {
    row == [Step(b), Step(b | 1), Step(b | 2), Step(b | 3), Step(b | 4), Step(b | 5), Step(b | 6), Step(b | 7),
            Step(b | 8), Step(b | 9), Step(b | 10), Step(b | 11),
            Step(b | 12), Step(b | 13), Step(b | 14), Step(b | 15)]
  }

  function Step(x: bv8): bv8 { ByteStep(POLY_TABLE, x) }

  lemma InRow(row: seq<bv8>, b: bv8, x: bv8)
    requires RowIs(row, b) && x & 0xF0 == b
    ensures x & 15 < 16 && row[Nibble(x & 15)] == Step(x)
  {
    hide Step;
    assert b | (x & 15) == x;
    assert b | 0 == b;
  }

  lemma Rows0()
    ensures RowIs(CRC_TABLE[0], 0x00)
    ensures RowIs(CRC_TABLE[1], 0x10)
  {
  }

  lemma Rows1()
    ensures RowIs(CRC_TABLE[2], 0x20)
    ensures RowIs(CRC_TABLE[3], 0x30)
  {
  }

  lemma Rows2()
    ensures RowIs(CRC_TABLE[4], 0x40)
    ensures RowIs(CRC_TABLE[5], 0x50)
  {
  }

  lemma Rows3()
    ensures RowIs(CRC_TABLE[6], 0x60)
    ensures RowIs(CRC_TABLE[7], 0x70)
  {
  }

  lemma Rows4()
    ensures RowIs(CRC_TABLE[8], 0x80)
    ensures RowIs(CRC_TABLE[9], 0x90)
  {
  }

  lemma Rows5()
    ensures RowIs(CRC_TABLE[10], 0xA0)
    ensures RowIs(CRC_TABLE[11], 0xB0)
  {
  }

  lemma Rows6()
    ensures RowIs(CRC_TABLE[12], 0xC0)
    ensures RowIs(CRC_TABLE[13], 0xD0)
  {
  }

  lemma Rows7()
    ensures RowIs(CRC_TABLE[14], 0xE0)
    ensures RowIs(CRC_TABLE[15], 0xF0)
  {
  }

  lemma RowOf(x: bv8)
    ensures x >> 4 < 16 && RowIs(CRC_TABLE[Nibble(x >> 4)], x & 0xF0)
  {
    hide RowIs;
    Top(x, x >> 4);
    if x >> 4 == 0 {
      Rows0();
    } else if x >> 4 == 1 {
      Rows0();
    } else if x >> 4 == 2 {
      Rows1();
    } else if x >> 4 == 3 {
      Rows1();
    } else if x >> 4 == 4 {
      Rows2();
    } else if x >> 4 == 5 {
      Rows2();
    } else if x >> 4 == 6 {
      Rows3();
    } else if x >> 4 == 7 {
      Rows3();
    } else if x >> 4 == 8 {
      Rows4();
    } else if x >> 4 == 9 {
      Rows4();
    } else if x >> 4 == 10 {
      Rows5();
    } else if x >> 4 == 11 {
      Rows5();
    } else if x >> 4 == 12 {
      Rows6();
    } else if x >> 4 == 13 {
      Rows6();
    } else if x >> 4 == 14 {
      Rows7();
    } else if x >> 4 == 15 {
      Rows7();
    } else {
      Nibbles(x);
    }
  }

  lemma Top(x: bv8, h: bv8)
    requires h == x >> 4
    ensures x & 0xF0 == h << 4
  {
  }

  // Every entry of the table is what eight single-bit turns would compute.
  lemma TableIsBitwise(x: bv8)
    ensures Lookup(x) == ByteStep(POLY_TABLE, x)
  {
    hide RowIs;
    RowOf(x);
    InRow(CRC_TABLE[Nibble(x >> 4)], x & 0xF0, x);
  }

  // crc8 by table
  method ByTable(data: array<bv8>) returns (crc: bv8)
    ensures crc == Crc(POLY_TABLE, START, data[..])
  {
    hide ByteStep, Lookup, Xor;
    crc := 0xFF;
    for i := 0 to data.Length
      invariant crc == Crc(POLY_TABLE, START, data[..i])
    {
      TableIsBitwise(Xor(crc, data[i]));
      crc := Lookup(Xor(crc, data[i]));
      assert data[..i + 1][..i] == data[..i];
    }
    assert data[..data.Length] == data[..];
  }
}
