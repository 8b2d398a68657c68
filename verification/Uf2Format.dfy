// The 512-byte blocks of the Microsoft UF2 file format, as util/uf2conv.py packs and unpacks them.
module Uf2Format {
  import opened Clock

  const UF2_MAGIC_START0: u32 := 0x0A324655
  const UF2_MAGIC_START1: u32 := 0x9E5D5157
  const UF2_MAGIC_END: u32 := 0x0AB16F30

  const NO_FLASH: u32 := 0x1
  const FAMILY_PRESENT: u32 := 0x2000
  const EXTENSION_PRESENT: u32 := 0x8000

  const BLOCK_SIZE := 512
  const PAGE := 256

  function Byte(n: int): u8 { n % 256 }

  // struct.pack("<I", n)
  function LittleEndian(n: u32): (b: seq<u8>)
    ensures |b| == 4
  {
    [Byte(n), Byte(n / 256), Byte(n / 65536), Byte(n / 16777216)]
  }

  function Number(b: seq<u8>): u32
    requires |b| == 4
  {
    var b0: int, b1: int, b2: int, b3: int := b[0], b[1], b[2], b[3];
    b0 + 256 * b1 + 65536 * b2 + 16777216 * b3
  }

  lemma NumberOfLittleEndian(n: u32)
    ensures Number(LittleEndian(n)) == n
  {
    var q: int := n / 256;
    var t: int := q / 256;
    var h: int := t / 256;
    assert n / 65536 == t && n / 16777216 == h;
    assert n % 256 == n - 256 * q && q % 256 == q - 256 * t && t % 256 == t - 256 * h && h % 256 == h;
  }

  function Pack(words: seq<u32>): (b: seq<u8>)
    ensures |b| == 4 * |words|
  {
    if words == [] then [] else Pack(words[..|words| - 1]) + LittleEndian(words[|words| - 1])
  }

  // The k-th 32-bit word of a block.
  function Word(block: seq<u8>, k: nat): u32
    requires 4 * k + 4 <= |block|
  {
    Number(block[4 * k..4 * k + 4])
  }

  lemma {:induction false} PackedWord(words: seq<u32>, rest: seq<u8>, k: nat)
    requires k < |words|
    ensures Word(Pack(words) + rest, k) == words[k]
  {
    var n := |words| - 1;
    var b := Pack(words[..n]);
    if k == n {
      assert (Pack(words) + rest)[4 * k..4 * k + 4] == LittleEndian(words[n]);
      NumberOfLittleEndian(words[n]);
    } else {
      PackedWord(words[..n], LittleEndian(words[n]) + rest, k);
      assert Pack(words) + rest == b + (LittleEndian(words[n]) + rest);
    }
  }

  function Zeros(n: nat): (z: seq<u8>)
    ensures |z| == n && forall i :: 0 <= i < n ==> z[i] == 0
  {
    seq(n, _ => 0)
  }

  // flags & 0x2000 and flags & 1
  predicate HasFamily(flags: u32) { flags / 8192 % 2 == 1 }
  predicate IsNoFlash(flags: u32) { flags % 2 == 1 }

  // The flags the writers set for a family ID and an optional device type.
  function FlagsFor(family: u32, deviceType: u32): u32 {
    (if family != 0 then FAMILY_PRESENT else 0) + (if deviceType != 0 then EXTENSION_PRESENT else 0)
  }

  lemma FlagsMean(family: u32, deviceType: u32)
    ensures var flags := FlagsFor(family, deviceType);
      !IsNoFlash(flags) && (HasFamily(flags) <==> family != 0)
  {
  }

  // A block that carries the given payload; everything a reader looks at.
  predicate Carries(block: seq<u8>, flags: u32, addr: u32, payload: seq<u8>, family: u32) {
    && |block| == BLOCK_SIZE && |payload| <= 476
    && Word(block, 0) == UF2_MAGIC_START0 && Word(block, 1) == UF2_MAGIC_START1
    && Word(block, 2) == flags && Word(block, 3) == addr && Word(block, 4) == |payload| && Word(block, 7) == family
    && block[32..32 + |payload|] == payload
  }

  function HeaderWords(flags: u32, addr: u32, blockNo: u32, numBlocks: u32, family: u32): (w: seq<u32>)
    ensures |w| == 8
  {
    [UF2_MAGIC_START0, UF2_MAGIC_START1, flags, addr, 256, blockNo, numBlocks, family]
  }

  // The extension tag with the device type, present when that is not zero.
  function Extension(deviceType: u32): (x: seq<u8>)
    ensures |x| <= 8
  {
    if deviceType != 0 then [0x08, 0x29, 0xA7, 0xC8] + LittleEndian(deviceType) else []
  }

  // A block of 256 data bytes.
  function EncodeBlock(addr: u32, data: seq<u8>, blockNo: u32, numBlocks: u32, family: u32, deviceType: u32)
    : (b: seq<u8>)
    requires |data| == PAGE
    ensures |b| == BLOCK_SIZE
  {
    var x := Extension(deviceType);
    Pack(HeaderWords(FlagsFor(family, deviceType), addr, blockNo, numBlocks, family))
    + data + x + Zeros(220 - |x|) + LittleEndian(UF2_MAGIC_END)
  }

  lemma EncodedCarries(addr: u32, data: seq<u8>, blockNo: u32, numBlocks: u32, family: u32, deviceType: u32)
    requires |data| == PAGE
    ensures Carries(EncodeBlock(addr, data, blockNo, numBlocks, family, deviceType),
                    FlagsFor(family, deviceType), addr, data, family)
  {
    hide Number, LittleEndian, Extension, FlagsFor, Pack;
    var words := HeaderWords(FlagsFor(family, deviceType), addr, blockNo, numBlocks, family);
    var x := Extension(deviceType);
    var rest := data + x + Zeros(220 - |x|) + LittleEndian(UF2_MAGIC_END);
    var block := EncodeBlock(addr, data, blockNo, numBlocks, family, deviceType);
    assert block == Pack(words) + rest;
    PackedWord(words, rest, 0);
    PackedWord(words, rest, 1);
    PackedWord(words, rest, 2);
    PackedWord(words, rest, 3);
    PackedWord(words, rest, 4);
    PackedWord(words, rest, 7);
    assert block[32..288] == data;
  }
}
