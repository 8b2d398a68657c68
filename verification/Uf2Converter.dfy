// The three conversions of util/uf2conv.py as loops over their local variables and the script's globals.
module Uf2Converter {
  import opened Clock
  import opened Uf2Format
  import opened Uf2Decode
  import opened Uf2Encode

  lemma ZerosAgain(n: nat, m: nat)
    ensures Zeros(n) + Zeros(m) == Zeros(n + m)
  {
  }

  // Word-wise and byte-wise zero filling.
  method PadWords(s: seq<u8>, goal: nat) returns (t: seq<u8>)
    requires |s| <= goal && (goal - |s|) % 4 == 0
    ensures t == s + Zeros(goal - |s|)
  {
    t := s;
    while |t| < goal
      invariant |s| <= |t| <= goal && (goal - |t|) % 4 == 0
      invariant t == s + Zeros(|t| - |s|)
      decreases goal - |t|
    {
      ZerosAgain(|t| - |s|, 4);
      t := t + Zeros(4);
    }
  }

  method PadBytes(s: seq<u8>, goal: nat) returns (t: seq<u8>)
    requires |s| <= goal
    ensures t == s + Zeros(goal - |s|)
  {
    t := s;
    while |t| < goal
      invariant |s| <= |t| <= goal && t == s + Zeros(|t| - |s|)
      decreases goal - |t|
    {
      ZerosAgain(|t| - |s|, 1);
      t := t + Zeros(1);
    }
  }

  // Address of the first data record, the start address of a HEX file.
  function FirstAddress(records: seq<HexRecord>, upper: nat): Option<nat> {
    if records == [] then None
    else
      match records[0]
      case Data(offset, _) => Some(upper + offset)
      case Linear(u) => FirstAddress(records[1..], u * 65536)
      case Segment(u) => FirstAddress(records[1..], u * 16)
      case EndOfFile => None
      case Other => FirstAddress(records[1..], upper)
  }

  // The first record's part of the cells, and the rest.
  function RecordCells(record: HexRecord, upper: nat): seq<Cell> {
    match record
    case Data(offset, data) => CellsOf(upper + offset, data)
    case _ => []
  }

  function NextUpper(record: HexRecord, upper: nat): nat {
    match record
    case Linear(u) => u * 65536
    case Segment(u) => u * 16
    case _ => upper
  }

  lemma CellsStep(records: seq<HexRecord>, k: nat, upper: nat)
    requires k < |records| && records[k] != EndOfFile
    ensures Cells(records[k..], upper)
         == RecordCells(records[k], upper) + Cells(records[k + 1..], NextUpper(records[k], upper))
    ensures FirstAddress(records[k..], upper)
         == if records[k].Data? then Some(upper + records[k].offset)
            else FirstAddress(records[k + 1..], NextUpper(records[k], upper))
  {
    assert records[k..][0] == records[k] && records[k..][1..] == records[k + 1..];
  }

  lemma PutAllStep(cells: seq<Cell>, c: Cell)
    ensures PutAll(cells + [c]) == Put(PutAll(cells), c)
  {
    assert (cells + [c])[..|cells|] == cells;
  }

  class Converter {
    var appStartAddr: Option<nat>
    var familyId: u32
    var deviceType: u32

    constructor ()
      ensures appStartAddr == Some(0x2000) && familyId == 0 && deviceType == 0
    {
      appStartAddr, familyId, deviceType := Some(0x2000), 0, 0;
    }

    // convert_to_uf2
    method ConvertToUf2(content: seq<u8>) returns (r: Result<seq<u8>>)
      ensures appStartAddr.Some? ==> r == EncodeBinary(content, appStartAddr.value, familyId)
      ensures appStartAddr.None? ==> r == if content == [] then Ok([]) else Err(NoStart)
    {
      hide EncodeBlock, BinaryPart, Zeros, Pack, Extension;
      var datapadding := PadWords([], 220);
      var numBlocks := NumBlocks(content);
      var outp: seq<seq<u8>> := [];
      var blockNo := 0;
      if numBlocks == 0 {
        assert content == [];
      }
      while blockNo < numBlocks
        invariant 0 <= blockNo <= numBlocks
        invariant blockNo > 0 ==> appStartAddr.Some? && numBlocks < WRAP32
        invariant blockNo > 0 ==> appStartAddr.value + 256 * (blockNo - 1) < WRAP32
        invariant |outp| == blockNo && AreBlocks(outp)
        invariant forall i :: 0 <= i < blockNo ==>
          outp[i] == BinaryBlock(content, appStartAddr.value, i, familyId)
      {
        var ptr := 256 * blockNo;
        if appStartAddr.None? {
          return Err(NoStart);
        }
        if ptr + appStartAddr.value >= WRAP32 || numBlocks >= WRAP32 {
          return Err(OutOfRange);
        }
        var block := BinaryBlockOf(content, blockNo, datapadding);
        outp := outp + [block];
        blockNo := blockNo + 1;
      }
      if appStartAddr.Some? {
        BlocksAreFile(content, appStartAddr.value, familyId, outp);
      }
      r := Ok(Join(outp));
    }

    // One turn of its loop.
    method BinaryBlockOf(content: seq<u8>, blockNo: nat, datapadding: seq<u8>) returns (block: seq<u8>)
      requires blockNo < NumBlocks(content) < WRAP32 && appStartAddr.Some?
      requires appStartAddr.value + 256 * blockNo < WRAP32 && datapadding == [] + Zeros(220)
      ensures |block| == BLOCK_SIZE && block == BinaryBlock(content, appStartAddr.value, blockNo, familyId)
    {
      hide EncodeBlock, Pack, Extension, Zeros;
      var ptr := 256 * blockNo;
      var chunk := content[ptr..if ptr + 256 <= |content| then ptr + 256 else |content|];
      var flags: u32 := 0;
      if familyId != 0 {
        flags := flags + FAMILY_PRESENT;
      }
      var hd := Pack(HeaderWords(flags, ptr + appStartAddr.value, blockNo, NumBlocks(content), familyId));
      chunk := PadBytes(chunk, 256);
      ChunkIsSlice(content, blockNo, chunk);
      block := hd + chunk + datapadding + LittleEndian(UF2_MAGIC_END);
      PlainBlock(ptr + appStartAddr.value, chunk, blockNo, NumBlocks(content), familyId, block, datapadding);
    }

    // convert_from_uf2
    method ConvertFromUf2(buf: seq<u8>) returns (r: Result<seq<u8>>)
      modifies this`appStartAddr
      ensures match ReadFile(buf, familyId, old(appStartAddr))
        case Ok(reader) => r == Ok(reader.out) && appStartAddr == reader.start
        case Err(e) => r == Err(e)
    {
      hide Read, Split;
      ghost var blocks := Split(buf);
      var numBlocks := |buf| / 512;
      var curr: Option<nat> := None;
      var family: Option<u32> := None;
      var found: set<u32> := {};
      var outp: seq<u8> := [];
      var blockNo := 0;
      while blockNo < numBlocks
        invariant 0 <= blockNo <= numBlocks == |blocks|
        invariant ReadBlocks(blocks, blockNo, familyId, old(appStartAddr))
               == Ok(Reader(curr, family, found, outp, appStartAddr))
      {
        var block := buf[512 * blockNo..512 * blockNo + 512];
        SplitAt(buf, blockNo);
        ReadStep(blocks, blockNo, familyId, old(appStartAddr), Reader(curr, family, found, outp, appStartAddr));
        var error;
        error, curr, family, found, outp := ReadBlock(block, curr, family, found, outp, blockNo == numBlocks - 1);
        blockNo := blockNo + 1;
        if error.Some? {
          ReadFails(blocks, blockNo, familyId, old(appStartAddr));
          return Err(error.value);
        }
      }
      r := Ok(outp);
    }

    // One turn of its loop.
    method ReadBlock(block: seq<u8>, curr0: Option<nat>, family0: Option<u32>, found0: set<u32>,
                     outp0: seq<u8>, last: bool)
      returns (error: Option<Error>, curr: Option<nat>, family: Option<u32>, found: set<u32>, outp: seq<u8>)
      requires |block| == BLOCK_SIZE
      modifies this`appStartAddr
      ensures match Read(Reader(curr0, family0, found0, outp0, old(appStartAddr)), block, familyId, last)
        case Ok(reader) => error == None && reader == Reader(curr, family, found, outp, appStartAddr)
        case Err(e) => error == Some(e)
    {
      hide Word, HasFamily, IsNoFlash, Zeros, Number;
      error, curr, family, found, outp := None, curr0, family0, found0, outp0;
      var flags, newAddr, dataLen, fam := Word(block, 2), Word(block, 3), Word(block, 4), Word(block, 7);
      if Word(block, 0) != UF2_MAGIC_START0 || Word(block, 1) != UF2_MAGIC_START1 {
        error := Some(BadMagic);
        return;
      }
      if IsNoFlash(flags) {
        return;
      }
      if dataLen > 476 {
        error := Some(BadSize);
        return;
      }
      curr, family := Enter(flags, newAddr, fam, curr, family);
      var padding := newAddr - curr.value;
      if padding < 0 || padding > MAX_PADDING || padding % 4 != 0 {
        error := Some(if padding < 0 then OutOfOrder
                      else if padding > MAX_PADDING then TooMuchPadding else NonWordPadding);
        return;
      }
      outp := PadWords(outp, |outp| + padding);
      outp := outp + if familyId == 0 || (HasFamily(flags) && familyId == fam) then block[32..32 + dataLen] else [];
      curr := Some(newAddr + dataLen);
      if HasFamily(flags) {
        found := found + {fam};
      }
      if last && |found| > 1 && familyId == 0 {
        outp := [];
        appStartAddr := Some(0);
      }
    }

    // The block opens the output, or the next family.
    method Enter(flags: u32, newAddr: u32, fam: u32, curr0: Option<nat>, family0: Option<u32>)
      returns (curr: Option<nat>, family: Option<u32>)
      modifies this`appStartAddr
      ensures
        var next := if HasFamily(flags) && family0 == None then Some(fam) else family0;
        var restart := curr0 == None || (HasFamily(flags) && Some(fam) != next);
        && family == (if restart then Some(fam) else next)
        && curr == (if restart then Some(newAddr) else curr0)
        && appStartAddr == if restart && (familyId == 0 || familyId == fam) then Some(newAddr) else old(appStartAddr)
    {
      curr, family := curr0, family0;
      if HasFamily(flags) && family == None {
        family := Some(fam);
      }
      if curr == None || (HasFamily(flags) && Some(fam) != family) {
        family := Some(fam);
        curr := Some(newAddr);
        if familyId == 0 || familyId == fam {
          appStartAddr := Some(newAddr);
        }
      }
    }

    // convert_from_hex_to_uf2, on records
    method ConvertFromHexToUf2(records: seq<HexRecord>) returns (r: Result<seq<u8>>)
      modifies this`appStartAddr
      ensures r == EncodeHex(records, familyId, deviceType)
      ensures appStartAddr == FirstAddress(records, 0)
    {
      assert PutAll([]) == [];
      hide Put, PutAll, CellsOf, Cells, FirstAddress, FileOf, RecordCells, NextUpper, Parts;
      appStartAddr := None;
      var upper: nat := 0;
      var blocks: seq<Page> := [];
      ghost var done: seq<Cell> := [];
      var k := 0;
      assert records[0..] == records && done + Cells(records, 0) == Cells(records, 0);
      while k < |records|
        invariant 0 <= k <= |records|
        invariant done + Cells(records[k..], upper) == Cells(records, 0)
        invariant blocks == PutAll(done)
        invariant FirstAddress(records, 0)
               == if appStartAddr.Some? then appStartAddr else FirstAddress(records[k..], upper)
      {
        var record := records[k];
        if record == EndOfFile {
          break;
        }
        CellsStep(records, k, upper);
        ghost var rest := Cells(records[k + 1..], NextUpper(record, upper));
        assert done + (RecordCells(record, upper) + rest) == done + RecordCells(record, upper) + rest;
        upper, blocks, done := TakeRecord(record, upper, blocks, done);
        k := k + 1;
      }
      NothingLeft(records, k, upper);
      assert done + [] == done;
      r := EncodeAll(blocks);
    }

    // One turn of its loop.
    method TakeRecord(record: HexRecord, upper: nat, pages: seq<Page>, ghost done: seq<Cell>)
      returns (upper': nat, blocks: seq<Page>, ghost done': seq<Cell>)
      requires pages == PutAll(done) && record != EndOfFile
      modifies this`appStartAddr
      ensures upper' == NextUpper(record, upper)
      ensures done' == done + RecordCells(record, upper) && blocks == PutAll(done')
      ensures appStartAddr
           == if old(appStartAddr) == None && record.Data? then Some(upper + record.offset) else old(appStartAddr)
    {
      hide PutAll, CellsOf;
      upper', blocks, done' := upper, pages, done + RecordCells(record, upper);
      assert done + [] == done;
      match record {
        case Linear(u) => upper' := u * 65536;
        case Segment(u) => upper' := u * 16;
        case Data(offset, data) =>
          if appStartAddr == None {
            appStartAddr := Some(upper + offset);
          }
          blocks := PutRecord(blocks, upper + offset, data, done);
        case _ =>
      }
    }

    // The bytes of one data record.
    method PutRecord(pages: seq<Page>, first: nat, data: seq<u8>, ghost done: seq<Cell>) returns (blocks: seq<Page>)
      requires pages == PutAll(done)
      ensures blocks == PutAll(done + CellsOf(first, data))
    {
      hide PutAll;
      blocks := pages;
      var addr, i := first, 0;
      ghost var cells := CellsOf(first, data);
      assert done + cells[..0] == done;
      while i < |data|
        invariant 0 <= i <= |data| && addr == first + i
        invariant blocks == PutAll(done + cells[..i])
      {
        ghost var before := blocks;
        if blocks == [] || Base(blocks[|blocks| - 1].addr) != Base(addr) {
          blocks := blocks + [Page(Base(addr), Erased())];
        }
        var last := blocks[|blocks| - 1];
        PagesAreBases(done + cells[..i]);
        blocks := blocks[|blocks| - 1 := last.(bytes := last.bytes[addr % 256 := data[i]])];
        assert blocks == Put(before, cells[i]);
        PutAllStep(done + cells[..i], cells[i]);
        assert done + cells[..i] + [cells[i]] == done + cells[..i + 1];
        addr, i := addr + 1, i + 1;
      }
      assert cells[..|data|] == cells;
    }

    // The final loop over the blocks.
    method EncodeAll(blocks: seq<Page>) returns (r: Result<seq<u8>>)
      requires forall i :: 0 <= i < |blocks| ==> |blocks[i].bytes| == 256
      ensures r == if PagesFit(blocks) then Ok(FileOf(Parts(blocks), familyId, deviceType)) else Err(OutOfRange)
    {
      hide EncodeBlock, Join, EncodePages, Parts;
      var res: seq<u8> := [];
      NoBlocks(blocks, familyId, deviceType);
      var i := 0;
      while i < |blocks|
        invariant 0 <= i <= |blocks|
        invariant i > 0 ==> |blocks| < WRAP32
        invariant forall j :: 0 <= j < i ==> blocks[j].addr < WRAP32
        invariant PagesFit(blocks) ==> res == Join(EncodePages(Parts(blocks), i, familyId, deviceType))
      {
        if blocks[i].addr >= WRAP32 || |blocks| >= WRAP32 {
          return Err(OutOfRange);
        }
        var block := Encode(blocks[i], i, |blocks|);
        if PagesFit(blocks) {
          NextBlock(blocks, i, familyId, deviceType);
        }
        res := res + block;
        i := i + 1;
      }
      r := Ok(res);
    }

    // Block.encode
    method Encode(page: Page, blockNo: u32, numBlocks: u32) returns (hd: seq<u8>)
      requires |page.bytes| == 256 && page.addr < WRAP32
      ensures hd == EncodeBlock(page.addr, page.bytes, blockNo, numBlocks, familyId, deviceType)
    {
      hide Pack, Zeros, LittleEndian;
      var flags: u32 := 0;
      if familyId != 0 {
        flags := flags + FAMILY_PRESENT;
      }
      if deviceType != 0 {
        flags := flags + EXTENSION_PRESENT;
      }
      hd := Pack(HeaderWords(flags, page.addr, blockNo, numBlocks, familyId));
      hd := hd + page.bytes[0..256];
      assert page.bytes[0..256] == page.bytes;
      ghost var x := Extension(deviceType);
      if deviceType != 0 {
        hd := hd + [0x08, 0x29, 0xA7, 0xC8];
        hd := hd + LittleEndian(deviceType);
      }
      assert hd == Pack(HeaderWords(flags, page.addr, blockNo, numBlocks, familyId)) + page.bytes + x;
      hd := PadBytes(hd, 512 - 4);
      hd := hd + LittleEndian(UF2_MAGIC_END);
    }
  }

  // ---- Steps of the proofs ------------------------------------------------------------------------------

  function BinaryBlock(content: seq<u8>, start: nat, i: nat, family: u32): (b: seq<u8>)
    requires i < NumBlocks(content) < WRAP32 && start + 256 * i < WRAP32
    ensures |b| == BLOCK_SIZE
  {
    EncodeBlock(start + 256 * i, Padded(content)[256 * i..256 * i + 256], i, NumBlocks(content), family, 0)
  }

  lemma ChunkIsSlice(content: seq<u8>, i: nat, chunk: seq<u8>)
    requires i < NumBlocks(content)
    requires var end := if 256 * i + 256 <= |content| then 256 * i + 256 else |content|;
      chunk == content[256 * i..end] + Zeros(256 - (end - 256 * i))
    ensures chunk == Padded(content)[256 * i..256 * i + 256]
  {
  }

  lemma PlainBlock(addr: u32, chunk: seq<u8>, blockNo: u32, numBlocks: u32, family: u32,
                   block: seq<u8>, padding: seq<u8>)
    requires |chunk| == PAGE && padding == [] + Zeros(220)
    requires block == Pack(HeaderWords(if family != 0 then FAMILY_PRESENT else 0, addr, blockNo, numBlocks, family))
                      + chunk + padding + LittleEndian(UF2_MAGIC_END)
    ensures block == EncodeBlock(addr, chunk, blockNo, numBlocks, family, 0)
  {
    hide Pack, LittleEndian, Zeros;
    assert Extension(0) == [];
    assert chunk + [] + Zeros(220) == chunk + padding;
  }

  lemma BlocksAreFile(content: seq<u8>, start: nat, family: u32, blocks: seq<seq<u8>>)
    requires content != [] ==> NumBlocks(content) < WRAP32 && start + 256 * (NumBlocks(content) - 1) < WRAP32
    requires |blocks| == NumBlocks(content)
    requires forall i :: 0 <= i < |blocks| ==> blocks[i] == BinaryBlock(content, start, i, family)
    ensures EncodeBinary(content, start, family) == Ok(Join(blocks))
  {
    hide EncodeBlock, BinaryBlock, BinaryPart, Join;
    var parts := BinaryParts(content, start, NumBlocks(content));
    var pages := EncodePages(parts, |parts|, family, 0);
    forall i | 0 <= i < |parts| ensures blocks[i] == pages[i] {
      BlockOfPart(content, start, i, family);
    }
    assert blocks == pages;
  }

  lemma BlockOfPart(content: seq<u8>, start: nat, i: nat, family: u32)
    requires FitsHeader(content, start) && i < NumBlocks(content) < WRAP32 && start + 256 * i < WRAP32
    ensures var p := BinaryPart(content, start, i);
      BinaryBlock(content, start, i, family) == EncodeBlock(p.addr, p.payload, i, NumBlocks(content), family, 0)
  {
    hide EncodeBlock, Padded;
  }

  lemma SplitAt(buf: seq<u8>, i: nat)
    requires i < |buf| / 512
    ensures i < |Split(buf)| && Split(buf)[i] == buf[512 * i..512 * i + 512]
  {
  }

  lemma NothingLeft(records: seq<HexRecord>, k: nat, upper: nat)
    requires k <= |records| && (k < |records| ==> records[k] == EndOfFile)
    ensures Cells(records[k..], upper) == [] && FirstAddress(records[k..], upper) == None
  {
  }

  lemma {:induction false} PagesAreBases(cells: seq<Cell>)
    ensures forall i :: 0 <= i < |PutAll(cells)| ==> Base(PutAll(cells)[i].addr) == PutAll(cells)[i].addr
  {
    if cells != [] {
      PagesAreBases(cells[..|cells| - 1]);
    }
  }

  lemma NoBlocks(blocks: seq<Page>, family: u32, deviceType: u32)
    requires forall j :: 0 <= j < |blocks| ==> |blocks[j].bytes| == 256
    ensures PagesFit(blocks) ==>
      && Join(EncodePages(Parts(blocks), 0, family, deviceType)) == []
      && Join(EncodePages(Parts(blocks), |blocks|, family, deviceType)) == FileOf(Parts(blocks), family, deviceType)
  {
  }

  lemma NextBlock(blocks: seq<Page>, i: nat, family: u32, deviceType: u32)
    requires PagesFit(blocks) && i < |blocks| && forall j :: 0 <= j < |blocks| ==> |blocks[j].bytes| == 256
    ensures Join(EncodePages(Parts(blocks), i + 1, family, deviceType))
         == Join(EncodePages(Parts(blocks), i, family, deviceType))
            + EncodeBlock(blocks[i].addr, blocks[i].bytes, i, |blocks|, family, deviceType)
  {
    hide EncodeBlock;
    var parts := Parts(blocks);
    var all := EncodePages(parts, i + 1, family, deviceType);
    assert all[..i] == EncodePages(parts, i, family, deviceType);
  }
}
