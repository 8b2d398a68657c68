// Writing UF2 files from a binary (convert_to_uf2) and from Intel HEX data records
// (convert_from_hex_to_uf2), and reading them back.
module Uf2Encode {
  import opened Clock
  import opened Uf2Format
  import opened Uf2Decode

  // ---- Files as bytes -----------------------------------------------------------------------------------

  function Join(blocks: seq<seq<u8>>): (b: seq<u8>)
    ensures AreBlocks(blocks) ==> |b| == BLOCK_SIZE * |blocks|
  {
    if blocks == [] then [] else Join(blocks[..|blocks| - 1]) + blocks[|blocks| - 1]
  }

  // The whole blocks of a file; a shorter rest is ignored.
  function Split(buf: seq<u8>): (blocks: seq<seq<u8>>)
    ensures AreBlocks(blocks) && |blocks| == |buf| / BLOCK_SIZE
  {
    seq(|buf| / BLOCK_SIZE, i requires 0 <= i < |buf| / BLOCK_SIZE => buf[BLOCK_SIZE * i..BLOCK_SIZE * i + BLOCK_SIZE])
  }

  lemma {:induction false} JoinAt(blocks: seq<seq<u8>>, i: nat)
    requires AreBlocks(blocks) && i < |blocks|
    ensures Join(blocks)[BLOCK_SIZE * i..BLOCK_SIZE * i + BLOCK_SIZE] == blocks[i]
  {
    var n := |blocks| - 1;
    if i < n {
      JoinAt(blocks[..n], i);
    }
  }

  lemma SplitJoin(blocks: seq<seq<u8>>)
    requires AreBlocks(blocks)
    ensures Split(Join(blocks)) == blocks
  {
    forall i | 0 <= i < |blocks| ensures Split(Join(blocks))[i] == blocks[i] {
      JoinAt(blocks, i);
    }
  }

  // ---- Pages of 256 bytes -------------------------------------------------------------------------------

  predicate ArePages(parts: seq<Part>) {
    forall i :: 0 <= i < |parts| ==> |parts[i].payload| == PAGE
  }

  // The blocks that encode these pages.
  function EncodePages(parts: seq<Part>, n: nat, family: u32, deviceType: u32): (blocks: seq<seq<u8>>)
    requires ArePages(parts) && n <= |parts| < WRAP32
    ensures |blocks| == n && AreBlocks(blocks)
    ensures forall i :: 0 <= i < n ==>
      blocks[i] == EncodeBlock(parts[i].addr, parts[i].payload, i, |parts|, family, deviceType)
  {
    if n == 0 then []
    else EncodePages(parts, n - 1, family, deviceType)
         + [EncodeBlock(parts[n - 1].addr, parts[n - 1].payload, n - 1, |parts|, family, deviceType)]
  }

  function FileOf(parts: seq<Part>, family: u32, deviceType: u32): seq<u8>
    requires ArePages(parts) && |parts| < WRAP32
  {
    Join(EncodePages(parts, |parts|, family, deviceType))
  }

  // What reading a whole file yields.
  function ReadFile(buf: seq<u8>, wanted: u32, start: Option<nat>): Result<Reader> {
    ReadBlocks(Split(buf), |Split(buf)|, wanted, start)
  }

  // Read back under their own family the blocks carry exactly the pages.
  lemma {:induction false} EncodedPagesAre(parts: seq<Part>, n: nat, family: u32, deviceType: u32)
    requires ArePages(parts) && n <= |parts| < WRAP32
    ensures var blocks := EncodePages(parts, |parts|, family, deviceType);
      AllOfFamily(blocks, family, family) && PartsOf(blocks, n, family, family) == parts[..n]
  {
    hide EncodeBlock, Carries, FlagsFor, Word, IsNoFlash, HasFamily;
    var blocks := EncodePages(parts, |parts|, family, deviceType);
    forall i | 0 <= i < |parts|
      ensures OfFamily(blocks[i], family, family) && Contribution(blocks[i], family, family) == [parts[i]]
    {
      EncodedPageIs(parts[i], i, |parts|, family, deviceType);
    }
    if n > 0 {
      EncodedPagesAre(parts, n - 1, family, deviceType);
      assert parts[..n] == parts[..n - 1] + [parts[n - 1]];
    }
  }

  lemma EncodedPageIs(part: Part, blockNo: u32, numBlocks: u32, family: u32, deviceType: u32)
    requires |part.payload| == PAGE
    ensures var block := EncodeBlock(part.addr, part.payload, blockNo, numBlocks, family, deviceType);
      OfFamily(block, family, family) && Contribution(block, family, family) == [part]
  {
    hide EncodeBlock, FlagsFor, Word;
    EncodedCarries(part.addr, part.payload, blockNo, numBlocks, family, deviceType);
    FlagsMean(family, deviceType);
  }

  // Pages that ascend with bounded gaps come back as their image under the same family.
  lemma PagesReadBack(parts: seq<Part>, family: u32, deviceType: u32, start: Option<nat>)
    requires ArePages(parts) && |parts| < WRAP32 && Ascending(parts)
    ensures var r := ReadFile(FileOf(parts, family, deviceType), family, start);
      && r.Ok? && r.value.out == Image(parts)
      && r.value.start == if parts == [] then start else Some(parts[0].addr)
  {
    hide Image, ReadBlocks, EncodePages, Join, Split, Ascending, AllOfFamily, PartsOf;
    var blocks := EncodePages(parts, |parts|, family, deviceType);
    SplitJoin(blocks);
    EncodedPagesAre(parts, |parts|, family, deviceType);
    assert parts[..|parts|] == parts;
    ReadsImage(blocks, |parts|, family, family, start);
  }

  // ---- Binaries -----------------------------------------------------------------------------------------

  function NumBlocks(content: seq<u8>): nat { (|content| + 255) / 256 }

  // The content, filled up with zeros to whole pages.
  function Padded(content: seq<u8>): (p: seq<u8>)
    ensures |p| == 256 * NumBlocks(content)
  {
    content + Zeros(256 * NumBlocks(content) - |content|)
  }

  // The start addresses of all blocks fit the 32-bit header fields.
  predicate FitsHeader(content: seq<u8>, start: nat) {
    content == [] || start + 256 * NumBlocks(content) <= WRAP32 + 255
  }

  function BinaryPart(content: seq<u8>, start: nat, i: nat): (p: Part)
    requires FitsHeader(content, start) && i < NumBlocks(content)
    ensures |p.payload| == PAGE && p.addr == start + 256 * i
  {
    Part(start + 256 * i, Padded(content)[256 * i..256 * i + 256])
  }

  function BinaryParts(content: seq<u8>, start: nat, n: nat): (parts: seq<Part>)
    requires FitsHeader(content, start) && n <= NumBlocks(content)
    ensures |parts| == n && ArePages(parts)
    ensures forall i :: 0 <= i < n ==> parts[i] == BinaryPart(content, start, i)
  {
    if n == 0 then [] else BinaryParts(content, start, n - 1) + [BinaryPart(content, start, n - 1)]
  }

  function EncodeBinary(content: seq<u8>, start: nat, family: u32): Result<seq<u8>> {
    if !FitsHeader(content, start) then Err(OutOfRange)
    else Ok(FileOf(BinaryParts(content, start, NumBlocks(content)), family, 0))
  }

  lemma {:induction false} BinaryImage(content: seq<u8>, start: nat, n: nat)
    requires FitsHeader(content, start) && n <= NumBlocks(content)
    ensures Ascending(BinaryParts(content, start, n))
    ensures Image(BinaryParts(content, start, n)) == Padded(content)[..256 * n]
  {
    if n > 0 {
      hide Image, Padded, Ascending, GapOk, EndOf, NumBlocks, FitsHeader, BinaryPart;
      var parts, p := BinaryParts(content, start, n), Padded(content);
      BinaryImage(content, start, n - 1);
      assert parts[..n - 1] == BinaryParts(content, start, n - 1) && parts[..n] == parts;
      PartIsSlice(content, start, n - 1);
      if n > 1 {
        AdjoiningParts(content, start, n);
      }
      ImageGrows(parts, p, n);
    }
  }

  // One more adjoining page.
  lemma ImageGrows(parts: seq<Part>, p: seq<u8>, n: nat)
    requires n == |parts| > 0 && 256 * n <= |p|
    requires Ascending(parts[..n - 1]) && Image(parts[..n - 1]) == p[..256 * (n - 1)]
    requires parts[n - 1].payload == p[256 * (n - 1)..256 * (n - 1) + 256]
    requires n > 1 ==> EndOf(parts[n - 2]) == parts[n - 1].addr && GapOk(parts[n - 2], parts[n - 1])
    ensures Ascending(parts) && Image(parts) == p[..256 * n]
  {
    hide Image, Ascending;
    assert parts[..n] == parts;
    NextSlice(p, n);
    if n == 1 {
      FirstImage(parts);
    } else {
      AscendingOneMore(parts, n);
      ImageOneMore(parts, n);
    }
  }

  lemma PartIsSlice(content: seq<u8>, start: nat, i: nat)
    requires FitsHeader(content, start) && i < NumBlocks(content)
    ensures BinaryPart(content, start, i).payload == Padded(content)[256 * i..256 * i + 256]
  {
  }

  lemma NextSlice(p: seq<u8>, n: nat)
    requires 0 < n && 256 * n <= |p|
    ensures p[..256 * n] == p[..256 * (n - 1)] + Zeros(0) + p[256 * (n - 1)..256 * (n - 1) + 256]
    ensures n == 1 ==> p[..256] == [] + Zeros(0) + p[0..256]
  {
  }

  lemma AdjoiningParts(content: seq<u8>, start: nat, n: nat)
    requires FitsHeader(content, start) && 1 < n <= NumBlocks(content)
    ensures var p, q := BinaryPart(content, start, n - 2), BinaryPart(content, start, n - 1);
      EndOf(p) == q.addr && GapOk(p, q)
  {
  }

  // Decoding an encoded binary under the same family ID gives the binary, zero-padded to a multiple of
  // 256 bytes, and its start address; an empty one leaves that as it was.
  lemma BinaryRoundTrip(content: seq<u8>, start: nat, family: u32, start': Option<nat>)
    requires FitsHeader(content, start)
    ensures var r := ReadFile(EncodeBinary(content, start, family).value, family, start');
      && r.Ok? && r.value.out == Padded(content)
      && r.value.start == if content == [] then start' else Some(start)
  {
    hide Image, Ascending, FileOf, ReadFile;
    var n := NumBlocks(content);
    BinaryImage(content, start, n);
    PagesReadBack(BinaryParts(content, start, n), family, 0, start');
    assert Padded(content)[..256 * n] == Padded(content);
  }

  // ---- Intel HEX ----------------------------------------------------------------------------------------

  // Records of a HEX file. The two kinds of address records set the upper part of later addresses.
  datatype HexRecord =
    | Data(offset: u16, data: seq<u8>)
    | Linear(upper: u16)
    | Segment(upper: u16)
    | EndOfFile
    | Other

  datatype Cell = Cell(addr: nat, value: u8)

  function CellsOf(addr: nat, data: seq<u8>): (cells: seq<Cell>)
    ensures |cells| == |data|
  {
    seq(|data|, i requires 0 <= i < |data| => Cell(addr + i, data[i]))
  }

  // Every data byte up to the end-of-file record, with its address.
  function Cells(records: seq<HexRecord>, upper: nat): seq<Cell> {
    if records == [] then []
    else
      match records[0]
      case Data(offset, data) => CellsOf(upper + offset, data) + Cells(records[1..], upper)
      case Linear(u) => Cells(records[1..], u * 65536)
      case Segment(u) => Cells(records[1..], u * 16)
      case EndOfFile => []
      case Other => Cells(records[1..], upper)
  }

  // A page under construction.
  datatype Page = Page(addr: nat, bytes: seq<u8>)

  function Erased(): (b: seq<u8>)
    ensures |b| == 256
  {
    seq(256, _ => 0xFF)
  }

  // addr & ~0xff
  function Base(addr: nat): nat { addr - addr % 256 }

  function Put(pages: seq<Page>, c: Cell): (pages': seq<Page>)
    requires forall i :: 0 <= i < |pages| ==> |pages[i].bytes| == 256
    ensures forall i :: 0 <= i < |pages'| ==> |pages'[i].bytes| == 256
  {
    var n := |pages|;
    if n == 0 || pages[n - 1].addr != Base(c.addr) then
      pages + [Page(Base(c.addr), Erased()[c.addr % 256 := c.value])]
    else
      pages[n - 1 := pages[n - 1].(bytes := pages[n - 1].bytes[c.addr % 256 := c.value])]
  }

  function PutAll(cells: seq<Cell>): (pages: seq<Page>)
    ensures forall i :: 0 <= i < |pages| ==> |pages[i].bytes| == 256
  {
    if cells == [] then [] else Put(PutAll(cells[..|cells| - 1]), cells[|cells| - 1])
  }

  predicate AscendingCells(cells: seq<Cell>) {
    forall i, j :: 0 <= i < j < |cells| ==> cells[i].addr < cells[j].addr
  }

  predicate PageHas(p: Page, c: Cell) {
    |p.bytes| == 256 && p.addr == Base(c.addr) && p.bytes[c.addr % 256] == c.value
  }

  ghost predicate Has(pages: seq<Page>, c: Cell) {
    exists i :: 0 <= i < |pages| && PageHas(pages[i], c)
  }

  ghost predicate AscendingPages(pages: seq<Page>) {
    && (forall i :: 0 <= i < |pages| ==> pages[i].addr % 256 == 0)
    && (forall i, j :: 0 <= i < j < |pages| ==> pages[i].addr < pages[j].addr)
  }

  // The last page is that of address a.
  predicate EndsOn(pages: seq<Page>, a: nat) {
    pages != [] && pages[|pages| - 1].addr == Base(a)
  }

  lemma PutKeeps(pages: seq<Page>, c: Cell, d: Cell)
    requires forall i :: 0 <= i < |pages| ==> |pages[i].bytes| == 256
    requires Has(pages, d) && d.addr != c.addr
    ensures Has(Put(pages, c), d)
  {
    var i :| 0 <= i < |pages| && PageHas(pages[i], d);
    assert PageHas(Put(pages, c)[i], d);
  }

  lemma PutAdds(pages: seq<Page>, c: Cell)
    requires forall i :: 0 <= i < |pages| ==> |pages[i].bytes| == 256
    requires AscendingPages(pages) && (pages != [] ==> pages[|pages| - 1].addr <= Base(c.addr))
    ensures AscendingPages(Put(pages, c)) && Has(Put(pages, c), c)
    ensures EndsOn(Put(pages, c), c.addr)
  {
    var pages' := Put(pages, c);
    assert PageHas(pages'[|pages'| - 1], c);
  }

  lemma BaseMonotone(a: nat, b: nat)
    requires a <= b
    ensures Base(a) <= Base(b)
  {
  }

  lemma {:induction false} PagesHoldCells(cells: seq<Cell>)
    requires AscendingCells(cells)
    ensures AscendingPages(PutAll(cells))
    ensures forall i :: 0 <= i < |cells| ==> Has(PutAll(cells), cells[i])
    ensures cells != [] ==> EndsOn(PutAll(cells), cells[|cells| - 1].addr)
  {
    if cells != [] {
      var n := |cells| - 1;
      var before := cells[..n];
      PagesHoldCells(before);
      if n > 0 {
        BaseMonotone(before[n - 1].addr, cells[n].addr);
      }
      PutAdds(PutAll(before), cells[n]);
      forall i | 0 <= i < n ensures Has(PutAll(cells), cells[i]) {
        assert cells[i] == before[i];
        PutKeeps(PutAll(before), cells[n], cells[i]);
      }
    }
  }

  // The pages as parts, when their addresses fit.
  predicate PagesFit(pages: seq<Page>) {
    |pages| < WRAP32 && forall i :: 0 <= i < |pages| ==> pages[i].addr < WRAP32
  }

  function Parts(pages: seq<Page>): (parts: seq<Part>)
    requires PagesFit(pages)
    ensures |parts| == |pages| && forall i :: 0 <= i < |pages| ==> parts[i] == Part(pages[i].addr, pages[i].bytes)
  {
    seq(|pages|, i requires 0 <= i < |pages| => Part(pages[i].addr, pages[i].bytes))
  }

  function EncodeHex(records: seq<HexRecord>, family: u32, deviceType: u32): Result<seq<u8>> {
    var pages := PutAll(Cells(records, 0));
    if PagesFit(pages) then Ok(FileOf(Parts(pages), family, deviceType)) else Err(OutOfRange)
  }

  // No two neighbouring pages are more than 10 MB apart.
  predicate BoundedGaps(pages: seq<Page>) {
    forall i :: 0 < i < |pages| ==> pages[i].addr - pages[i - 1].addr <= MAX_PADDING + 256
  }

  lemma PagesAscend(pages: seq<Page>)
    requires PagesFit(pages) && AscendingPages(pages) && BoundedGaps(pages)
    requires forall i :: 0 <= i < |pages| ==> |pages[i].bytes| == 256
    ensures Ascending(Parts(pages)) && ArePages(Parts(pages))
  {
    forall i | 0 < i < |pages| ensures GapOk(Parts(pages)[i - 1], Parts(pages)[i]) {
      PagesApart(pages[i - 1].addr, pages[i].addr);
    }
  }

  lemma PagesApart(a: nat, b: nat)
    requires a < b && a % 256 == 0 && b % 256 == 0
    ensures a + 256 <= b && (b - (a + 256)) % 4 == 0
  {
  }

  // Ascending data records converted to UF2 and read back under the same family ID: the start address is
  // the page of the first byte, and every byte is at its address.
  lemma HexRoundTrip(records: seq<HexRecord>, family: u32, deviceType: u32, start: Option<nat>, i: nat)
    requires var cells := Cells(records, 0); AscendingCells(cells) && i < |cells|
    requires EncodeHex(records, family, deviceType).Ok? && BoundedGaps(PutAll(Cells(records, 0)))
    ensures var r := ReadFile(EncodeHex(records, family, deviceType).value, family, start);
      var c := Cells(records, 0)[i];
      && r.Ok? && r.value.start.Some?
      && r.value.start.value <= c.addr < r.value.start.value + |r.value.out|
      && r.value.out[c.addr - r.value.start.value] == c.value
  {
    hide Cells, PutAll, Image, Ascending, FileOf, ReadFile, AscendingPages, BoundedGaps, AscendingCells, Holds;
    var cells := Cells(records, 0);
    var pages := PutAll(cells);
    PagesHoldCells(cells);
    PagesAscend(pages);
    PagesReadBack(Parts(pages), family, deviceType, start);
    var j :| 0 <= j < |pages| && PageHas(pages[j], cells[i]);
    ImageHolds(Parts(pages), j);
    HeldByte(Image(Parts(pages)), pages[0].addr, Parts(pages)[j], cells[i].addr);
  }

  lemma HeldByte(m: seq<u8>, base: nat, p: Part, a: nat)
    requires Holds(m, base, p) && |p.payload| == 256 && p.addr == Base(a)
    ensures base <= a < base + |m| && m[a - base] == p.payload[a % 256]
  {
    assert m[p.addr - base..EndOf(p) - base][a % 256] == m[a - base];
  }
}
