// The bytes of the files that the UF2 writers produce, field by field as the file format has them.
module Uf2Layout {
  import opened Clock
  import opened Uf2Format
  import opened Uf2Decode
  import opened Uf2Encode

  // flags & 0x8000
  predicate HasExtension(flags: u32) { flags / 32768 % 2 == 1 }

  // A file has no other flags than that a family ID or extension tags are present.
  predicate FlagsSay(flags: u32, family: u32, deviceType: u32) {
    && (HasFamily(flags) <==> family != 0) && (HasExtension(flags) <==> deviceType != 0)
    && flags % 8192 == 0 && flags / 16384 % 2 == 0 && flags / 65536 == 0
  }

  // Block number i of n: both magic words, the flags, the target address, 256 bytes of data, the numbers, the
  // family, and the final magic word.
  predicate Header(block: seq<u8>, i: nat, n: nat, addr: nat, family: u32, deviceType: u32)
    requires |block| == BLOCK_SIZE
  {
    && block[..8] == [0x55, 0x46, 0x32, 0x0A, 0x57, 0x51, 0x5D, 0x9E]
    && FlagsSay(Word(block, 2), family, deviceType)
    && Word(block, 3) == addr && Word(block, 4) == 256
    && Word(block, 5) == i && Word(block, 6) == n && Word(block, 7) == family
    && block[508..] == [0x30, 0x6F, 0xB1, 0x0A]
  }

  // What follows the data: the tag and the device type when that is not zero, and zeros.
  predicate Tagged(block: seq<u8>, deviceType: u32)
    requires |block| == BLOCK_SIZE
  {
    if deviceType == 0 then block[288..508] == Zeros(220)
    else
      && block[288..292] == [0x08, 0x29, 0xA7, 0xC8] && Word(block, 73) == deviceType
      && block[296..508] == Zeros(212)
  }

  lemma MagicBytes()
    ensures LittleEndian(UF2_MAGIC_START0) == [0x55, 0x46, 0x32, 0x0A]
    ensures LittleEndian(UF2_MAGIC_START1) == [0x57, 0x51, 0x5D, 0x9E]
    ensures LittleEndian(UF2_MAGIC_END) == [0x30, 0x6F, 0xB1, 0x0A]
  {
  }

  lemma FlagsForSay(family: u32, deviceType: u32)
    ensures FlagsSay(FlagsFor(family, deviceType), family, deviceType)
  {
  }

  lemma {:induction false} PackStarts(words: seq<u32>, k: nat)
    requires 0 < k <= |words|
    ensures Pack(words)[..4 * k] == Pack(words[..k])
  {
    var n := |words| - 1;
    if k == |words| {
      assert words[..k] == words;
    } else {
      PackStarts(words[..n], k);
      assert words[..n][..k] == words[..k];
    }
  }

  lemma PackTwo(a: u32, b: u32)
    ensures Pack([a, b]) == LittleEndian(a) + LittleEndian(b)
  {
    assert [a, b][..1] == [a] && [a][..0] == [];
    assert Pack([a]) == LittleEndian(a);
  }

  lemma EncodedHeader(addr: u32, data: seq<u8>, i: u32, n: u32, family: u32, deviceType: u32)
    requires |data| == PAGE
    ensures Header(EncodeBlock(addr, data, i, n, family, deviceType), i, n, addr, family, deviceType)
  {
    hide Number, LittleEndian, Extension, FlagsFor, Pack, FlagsSay;
    var words := HeaderWords(FlagsFor(family, deviceType), addr, i, n, family);
    var x := Extension(deviceType);
    var rest := data + x + Zeros(220 - |x|) + LittleEndian(UF2_MAGIC_END);
    var block := EncodeBlock(addr, data, i, n, family, deviceType);
    assert block == Pack(words) + rest;
    MagicBytes();
    PackStarts(words, 2);
    assert words[..2] == [UF2_MAGIC_START0, UF2_MAGIC_START1];
    PackTwo(UF2_MAGIC_START0, UF2_MAGIC_START1);
    assert block[..8] == Pack(words)[..8];
    FlagsForSay(family, deviceType);
    PackedWord(words, rest, 2);
    PackedWord(words, rest, 3);
    PackedWord(words, rest, 4);
    PackedWord(words, rest, 5);
    PackedWord(words, rest, 6);
    PackedWord(words, rest, 7);
    assert block[508..] == LittleEndian(UF2_MAGIC_END);
  }

  lemma EncodedTag(addr: u32, data: seq<u8>, i: u32, n: u32, family: u32, deviceType: u32)
    requires |data| == PAGE
    ensures Tagged(EncodeBlock(addr, data, i, n, family, deviceType), deviceType)
  {
    hide Number, LittleEndian, FlagsFor, Pack, HeaderWords;
    var words := HeaderWords(FlagsFor(family, deviceType), addr, i, n, family);
    var block := EncodeBlock(addr, data, i, n, family, deviceType);
    var h := Pack(words) + data;
    assert |h| == 288;
    if deviceType == 0 {
      assert block == h + Zeros(220) + LittleEndian(UF2_MAGIC_END);
    } else {
      var tag, le: seq<u8> := [0x08, 0x29, 0xA7, 0xC8], LittleEndian(deviceType);
      assert block == h + tag + le + Zeros(212) + LittleEndian(UF2_MAGIC_END);
      assert block[288..292] == tag;
      assert block[292..296] == le;
      NumberOfLittleEndian(deviceType);
    }
  }

  lemma FileBlock(parts: seq<Part>, family: u32, deviceType: u32, i: nat)
    requires ArePages(parts) && i < |parts| < WRAP32
    ensures var file := FileOf(parts, family, deviceType);
      && |file| == BLOCK_SIZE * |parts| && |Split(file)| == |parts|
      && Header(Split(file)[i], i, |parts|, parts[i].addr, family, deviceType)
      && Tagged(Split(file)[i], deviceType)
      && Split(file)[i][32..288] == parts[i].payload
  {
    hide Join, Split, EncodeBlock, Header, Tagged, FlagsFor, Word;
    var blocks := EncodePages(parts, |parts|, family, deviceType);
    SplitJoin(blocks);
    EncodedHeader(parts[i].addr, parts[i].payload, i, |parts|, family, deviceType);
    EncodedTag(parts[i].addr, parts[i].payload, i, |parts|, family, deviceType);
    EncodedCarries(parts[i].addr, parts[i].payload, i, |parts|, family, deviceType);
  }

  // Block i of the file for a binary: it is block i of as many as the file has, holds the binary's bytes from
  // 256 * i on, filled up with zeros, for the address that many bytes behind the start, and has no tags.
  lemma BinaryFile(content: seq<u8>, start: nat, family: u32, i: nat)
    requires FitsHeader(content, start) && i < NumBlocks(content)
    ensures var file := EncodeBinary(content, start, family).value;
      && |Split(file)| == (|content| + 255) / 256 && |file| == 512 * |Split(file)|
      && Header(Split(file)[i], i, |Split(file)|, start + 256 * i, family, 0)
      && Tagged(Split(file)[i], 0)
      && forall j :: 0 <= j < 256 ==>
           Split(file)[i][32..288][j] == if 256 * i + j < |content| then content[256 * i + j] else 0
  {
    hide Split, Header, Tagged, FileOf;
    FileBlock(BinaryParts(content, start, NumBlocks(content)), family, 0, i);
  }

  // Block i of the file for HEX records: it is block i of as many as the file has, its address is the start of a
  // page, and the device type follows its data exactly when that is not zero.
  lemma HexFile(records: seq<HexRecord>, family: u32, deviceType: u32, i: nat)
    requires EncodeHex(records, family, deviceType).Ok?
    requires i < |Split(EncodeHex(records, family, deviceType).value)|
    ensures var file := EncodeHex(records, family, deviceType).value;
      var pages := PutAll(Cells(records, 0));
      && |file| == 512 * |Split(file)| && |Split(file)| == |pages|
      && Header(Split(file)[i], i, |Split(file)|, pages[i].addr, family, deviceType)
      && Tagged(Split(file)[i], deviceType)
      && Split(file)[i][32..288] == pages[i].bytes
  {
    hide Header, Tagged, PutAll, Cells;
    var pages := PutAll(Cells(records, 0));
    assert |EncodePages(Parts(pages), |pages|, family, deviceType)| == |pages|;
    FileBlock(Parts(pages), family, deviceType, i);
  }

  // ---- HEX records ------------------------------------------------------------------------------

  // The record sets the upper part of the addresses behind it to this.
  predicate SetsUpper(r: HexRecord, upper: nat) {
    (r.Linear? && upper == 0x1_0000 * r.upper) || (r.Segment? && upper == 0x10 * r.upper)
  }

  // The upper part in force at record k: what the last record before it that sets one says, or the first one.
  predicate UpperAt(records: seq<HexRecord>, k: nat, first: nat, upper: nat)
    requires k <= |records|
  {
    || (upper == first && forall m :: 0 <= m < k ==> !records[m].Linear? && !records[m].Segment?)
    || exists m :: 0 <= m < k && SetsUpper(records[m], upper)
         && forall l :: m < l < k ==> !records[l].Linear? && !records[l].Segment?
  }

  // Every data byte before the end-of-file record is placed at its own offset behind the upper part in force.
  lemma {:induction false} CellsPlaced(records: seq<HexRecord>, first: nat, k: nat, upper: nat, j: nat)
    requires k < |records| && records[k].Data? && j < |records[k].data| && UpperAt(records, k, first, upper)
    requires forall m :: 0 <= m < k ==> !records[m].EndOfFile?
    ensures Cell(upper + records[k].offset + j, records[k].data[j]) in Cells(records, first)
  {
    var r, rest := records[0], records[1..];
    if k == 0 {
      assert CellsOf(upper + r.offset, r.data)[j] == Cell(upper + r.offset + j, r.data[j]);
    } else {
      var next := if r.Linear? then r.upper * 65536 else if r.Segment? then r.upper * 16 else first;
      UpperOfRest(records, k, first, upper, next);
      CellsPlaced(rest, next, k - 1, upper, j);
    }
  }

  // Nothing is placed behind the end-of-file record.
  lemma {:induction false} NothingBehindEnd(records: seq<HexRecord>, first: nat, k: nat)
    requires k < |records| && records[k].EndOfFile?
    ensures Cells(records, first) == Cells(records[..k], first)
  {
    if k > 0 && !records[0].EndOfFile? {
      var rest := records[1..];
      assert records[..k][1..] == rest[..k - 1] && records[..k][0] == records[0];
      var r := records[0];
      var next := if r.Linear? then r.upper * 65536 else if r.Segment? then r.upper * 16 else first;
      NothingBehindEnd(rest, next, k - 1);
    }
  }

  lemma UpperOfRest(records: seq<HexRecord>, k: nat, first: nat, upper: nat, next: nat)
    requires 0 < k < |records| && UpperAt(records, k, first, upper)
    requires if records[0].Linear? || records[0].Segment? then SetsUpper(records[0], next) else next == first
    ensures UpperAt(records[1..], k - 1, next, upper)
  {
    var rest := records[1..];
    if m :| 0 <= m < k && SetsUpper(records[m], upper)
            && forall l :: m < l < k ==> !records[l].Linear? && !records[l].Segment? {
      if m > 0 {
        assert rest[m - 1] == records[m];
      } else {
        assert forall l :: 0 <= l < k - 1 ==> rest[l] == records[l + 1];
      }
    } else {
      assert forall l :: 0 <= l < k - 1 ==> rest[l] == records[l + 1];
    }
  }

  // What no data byte covers is left erased.
  lemma {:induction false} UncoveredIsErased(cells: seq<Cell>, i: nat, j: nat)
    requires i < |PutAll(cells)| && j < 256
    requires forall k :: 0 <= k < |cells| ==> cells[k].addr != PutAll(cells)[i].addr + j
    ensures PutAll(cells)[i].bytes[j] == 0xFF
  {
    if cells != [] {
      var n := |cells| - 1;
      var before := PutAll(cells[..n]);
      var c := cells[n];
      assert Base(c.addr) + c.addr % 256 == c.addr;
      if i < |before| {
        assert PutAll(cells)[i].addr == before[i].addr;
        assert forall k :: 0 <= k < n ==> cells[..n][k] == cells[k];
        UncoveredIsErased(cells[..n], i, j);
      }
    }
  }

  // ---- When a file is written -------------------------------------------------------------------

  // A binary is written exactly when the address of each of its blocks fits 32 bits.
  lemma BinaryWrittenIff(content: seq<u8>, start: nat, family: u32)
    ensures EncodeBinary(content, start, family).Ok? <==>
      forall i :: 0 <= i < (|content| + 255) / 256 ==> start + 256 * i < 0x1_0000_0000
  {
    var n := (|content| + 255) / 256;
    if !FitsHeader(content, start) {
      assert 0 <= n - 1 < n && start + 256 * (n - 1) >= 0x1_0000_0000;
    }
  }

  predicate OnPage(cells: seq<Cell>, addr: nat) {
    exists k :: 0 <= k < |cells| && Base(cells[k].addr) == addr
  }

  predicate HasPage(pages: seq<Page>, addr: nat) {
    exists i :: 0 <= i < |pages| && pages[i].addr == addr
  }

  // There is a page for each byte, and no other.
  lemma {:induction false} PagesAreOfCells(cells: seq<Cell>)
    ensures forall i :: 0 <= i < |PutAll(cells)| ==> OnPage(cells, PutAll(cells)[i].addr)
    ensures forall k :: 0 <= k < |cells| ==> HasPage(PutAll(cells), Base(cells[k].addr))
  {
    if cells != [] {
      hide Base;
      var n := |cells| - 1;
      var before, pages := PutAll(cells[..n]), PutAll(cells);
      PagesAreOfCells(cells[..n]);
      assert forall i :: 0 <= i < |before| ==> pages[i].addr == before[i].addr;
      assert pages[|pages| - 1].addr == Base(cells[n].addr);
      forall i | 0 <= i < |pages| ensures OnPage(cells, pages[i].addr) {
        if i < |before| {
          var k :| 0 <= k < n && Base(cells[..n][k].addr) == before[i].addr;
          assert cells[k] == cells[..n][k];
        }
      }
      forall k | 0 <= k < |cells| ensures HasPage(pages, Base(cells[k].addr)) {
        if k < n {
          assert cells[..n][k] == cells[k] && HasPage(before, Base(cells[k].addr));
          var i :| 0 <= i < |before| && before[i].addr == Base(cells[k].addr);
          assert pages[i].addr == before[i].addr;
        }
      }
    }
  }

  // HEX records are written exactly when every data byte's address fits 32 bits, and the number of pages does.
  lemma HexWrittenIff(records: seq<HexRecord>, family: u32, deviceType: u32)
    ensures EncodeHex(records, family, deviceType).Ok? <==>
      && |PutAll(Cells(records, 0))| < 0x1_0000_0000
      && forall k :: 0 <= k < |Cells(records, 0)| ==> Cells(records, 0)[k].addr < 0x1_0000_0000
  {
    hide Cells, PutAll, Base;
    var cells := Cells(records, 0);
    var pages := PutAll(cells);
    PagesAreOfCells(cells);
    if PagesFit(pages) {
      forall k | 0 <= k < |cells| ensures cells[k].addr < 0x1_0000_0000 {
        assert HasPage(pages, Base(cells[k].addr));
        var i :| 0 <= i < |pages| && pages[i].addr == Base(cells[k].addr);
        BaseFits(cells[k].addr);
      }
    } else if forall k :: 0 <= k < |cells| ==> cells[k].addr < 0x1_0000_0000 {
      forall i | 0 <= i < |pages| ensures pages[i].addr < WRAP32 {
        assert OnPage(cells, pages[i].addr);
        var k :| 0 <= k < |cells| && Base(cells[k].addr) == pages[i].addr;
        BaseFits(cells[k].addr);
      }
    }
  }

  lemma BaseFits(a: nat)
    ensures Base(a) < 0x1_0000_0000 <==> a < 0x1_0000_0000
  {
  }
}
