// Reading a UF2 file (convert_from_uf2): a fold over its blocks, and the memory image it yields.
module Uf2Decode {
  import opened Clock
  import opened Uf2Format

  // Every way in which the Python code stops with an exception. A block without magic is one of them:
  // the message for it adds a number to a string.
  datatype Error = BadMagic | BadSize | OutOfOrder | TooMuchPadding | NonWordPadding | OutOfRange | NoStart

  datatype Result<T> = Ok(value: T) | Err(error: Error)

  datatype Option<T> = None | Some(value: T)

  // Loop state: expected address, current family, families met, output, and the start address global.
  datatype Reader = Reader(curr: Option<nat>, family: Option<u32>, families: set<u32>, out: seq<u8>, start: Option<nat>)

  const MAX_PADDING := 10 * 1024 * 1024

  // Whether the blocks of this flag and family are wanted.
  predicate Wanted(wanted: u32, flags: u32, family: u32) {
    wanted == 0 || (HasFamily(flags) && wanted == family)
  }

  // One turn of the loop.
  function Read(r: Reader, block: seq<u8>, wanted: u32, last: bool): Result<Reader>
    requires |block| == BLOCK_SIZE
  {
    var flags, addr, size, fam := Word(block, 2), Word(block, 3), Word(block, 4), Word(block, 7);
    if Word(block, 0) != UF2_MAGIC_START0 || Word(block, 1) != UF2_MAGIC_START1 then Err(BadMagic)
    else if IsNoFlash(flags) then Ok(r)
    else if size > 476 then Err(BadSize)
    else
      var family := if HasFamily(flags) && r.family == None then Some(fam) else r.family;
      var restart := r.curr == None || (HasFamily(flags) && Some(fam) != family);
      var family' := if restart then Some(fam) else family;
      var curr := if restart then addr else r.curr.value;
      var start := if restart && (wanted == 0 || wanted == fam) then Some(addr) else r.start;
      var padding := addr - curr;
      if padding < 0 then Err(OutOfOrder)
      else if padding > MAX_PADDING then Err(TooMuchPadding)
      else if padding % 4 != 0 then Err(NonWordPadding)
      else
        var out := r.out + Zeros(padding) + if Wanted(wanted, flags, fam) then block[32..32 + size] else [];
        var families := if HasFamily(flags) then r.families + {fam} else r.families;
        var mixed := last && |families| > 1 && wanted == 0;
        Ok(Reader(Some(addr + size), family', families, if mixed then [] else out, if mixed then Some(0) else start))
  }

  predicate AreBlocks(blocks: seq<seq<u8>>) {
    forall i :: 0 <= i < |blocks| ==> |blocks[i]| == BLOCK_SIZE
  }

  // The first n turns on a file of these blocks.
  function ReadBlocks(blocks: seq<seq<u8>>, n: nat, wanted: u32, start: Option<nat>): Result<Reader>
    requires n <= |blocks| && AreBlocks(blocks)
  {
    if n == 0 then Ok(Reader(None, None, {}, [], start))
    else
      match ReadBlocks(blocks, n - 1, wanted, start)
      case Err(e) => Err(e)
      case Ok(r) => Read(r, blocks[n - 1], wanted, n == |blocks|)
  }

  lemma ReadStep(blocks: seq<seq<u8>>, n: nat, wanted: u32, start: Option<nat>, r: Reader)
    requires n < |blocks| && AreBlocks(blocks) && ReadBlocks(blocks, n, wanted, start) == Ok(r)
    ensures ReadBlocks(blocks, n + 1, wanted, start) == Read(r, blocks[n], wanted, n + 1 == |blocks|)
  {
    hide Read;
  }

  // Once a turn has failed the whole file fails in the same way.
  lemma {:induction false} ReadFails(blocks: seq<seq<u8>>, n: nat, wanted: u32, start: Option<nat>)
    requires n <= |blocks| && AreBlocks(blocks) && ReadBlocks(blocks, n, wanted, start).Err?
    ensures ReadBlocks(blocks, |blocks|, wanted, start) == ReadBlocks(blocks, n, wanted, start)
    decreases |blocks| - n
  {
    hide Read;
    if n < |blocks| {
      ReadFails(blocks, n + 1, wanted, start);
    }
  }

  // ---- Blocks without magic -----------------------------------------------------------------------------

  predicate HasMagic(block: seq<u8>)
    requires |block| == BLOCK_SIZE
  {
    Word(block, 0) == UF2_MAGIC_START0 && Word(block, 1) == UF2_MAGIC_START1
  }

  // A file is read only if every block has both magic words.
  lemma {:induction false} ReadNeedsMagic(blocks: seq<seq<u8>>, n: nat, wanted: u32, start: Option<nat>)
    requires n <= |blocks| && AreBlocks(blocks) && ReadBlocks(blocks, n, wanted, start).Ok?
    ensures forall i :: 0 <= i < n ==> HasMagic(blocks[i])
  {
    hide Word;
    if n > 0 {
      ReadNeedsMagic(blocks, n - 1, wanted, start);
    }
  }

  function Inserted(blocks: seq<seq<u8>>, at: nat, block: seq<u8>): (all: seq<seq<u8>>)
    requires at <= |blocks|
    ensures |all| == |blocks| + 1 && all[at] == block
    ensures AreBlocks(blocks) && |block| == BLOCK_SIZE ==> AreBlocks(all)
  {
    blocks[..at] + [block] + blocks[at..]
  }

  lemma LastDoesNotFail(r: Reader, block: seq<u8>, wanted: u32)
    requires |block| == BLOCK_SIZE && Read(r, block, wanted, true).Ok?
    ensures Read(r, block, wanted, false).Ok?
  {
    hide Word;
  }

  lemma {:induction false} ReadUpTo(blocks: seq<seq<u8>>, at: nat, block: seq<u8>,
                                     n: nat, wanted: u32, start: Option<nat>)
    requires n <= at <= |blocks| && AreBlocks(blocks) && |block| == BLOCK_SIZE
    requires ReadBlocks(blocks, n, wanted, start).Ok?
    ensures ReadBlocks(Inserted(blocks, at, block), n, wanted, start).Ok?
    ensures n < |blocks| ==>
      ReadBlocks(Inserted(blocks, at, block), n, wanted, start) == ReadBlocks(blocks, n, wanted, start)
  {
    hide Read;
    if n > 0 {
      var all := Inserted(blocks, at, block);
      ReadUpTo(blocks, at, block, n - 1, wanted, start);
      assert all[n - 1] == blocks[n - 1];
      if n == |blocks| {
        LastDoesNotFail(ReadBlocks(blocks, n - 1, wanted, start).value, blocks[n - 1], wanted);
      }
    }
  }

  // A block without them, put anywhere into a file that is read, makes the reader fail instead of being
  // skipped.
  lemma ForeignBlockFails(blocks: seq<seq<u8>>, at: nat, block: seq<u8>, wanted: u32, start: Option<nat>)
    requires at <= |blocks| && AreBlocks(blocks) && ReadBlocks(blocks, |blocks|, wanted, start).Ok?
    requires |block| == BLOCK_SIZE && !HasMagic(block)
    ensures ReadBlocks(Inserted(blocks, at, block), |blocks| + 1, wanted, start) == Err(BadMagic)
  {
    hide Read, Inserted, Word;
    var all := Inserted(blocks, at, block);
    PrefixReads(blocks, at, wanted, start);
    ReadUpTo(blocks, at, block, at, wanted, start);
    var r := ReadBlocks(all, at, wanted, start).value;
    NotSkipped(r, block, wanted, at + 1 == |all|);
    hide ReadBlocks;
    ReadStep(all, at, wanted, start, r);
    ReadFails(all, at + 1, wanted, start);
  }

  lemma NotSkipped(r: Reader, block: seq<u8>, wanted: u32, last: bool)
    requires |block| == BLOCK_SIZE && !HasMagic(block)
    ensures Read(r, block, wanted, last) == Err(BadMagic)
  {
  }

  lemma PrefixReads(blocks: seq<seq<u8>>, n: nat, wanted: u32, start: Option<nat>)
    requires n <= |blocks| && AreBlocks(blocks) && ReadBlocks(blocks, |blocks|, wanted, start).Ok?
    ensures ReadBlocks(blocks, n, wanted, start).Ok?
  {
    if ReadBlocks(blocks, n, wanted, start).Err? {
      ReadFails(blocks, n, wanted, start);
    }
  }

  // ---- Files of one family ------------------------------------------------------------------------------

  datatype Part = Part(addr: u32, payload: seq<u8>)

  // A block of the family that is wanted, or one marked as not for flash. Flags may differ otherwise.
  predicate OfFamily(block: seq<u8>, family: u32, wanted: u32) {
    && |block| == BLOCK_SIZE && HasMagic(block)
    && (IsNoFlash(Word(block, 2))
        || (Word(block, 4) <= 476 && Word(block, 7) == family && Wanted(wanted, Word(block, 2), family)))
  }

  predicate AllOfFamily(blocks: seq<seq<u8>>, family: u32, wanted: u32) {
    forall i :: 0 <= i < |blocks| ==> OfFamily(blocks[i], family, wanted)
  }

  function PartOf(block: seq<u8>): Part
    requires |block| == BLOCK_SIZE && Word(block, 4) <= 476
  {
    Part(Word(block, 3), block[32..32 + Word(block, 4)])
  }

  // What the block contributes.
  function Contribution(block: seq<u8>, family: u32, wanted: u32): seq<Part>
    requires OfFamily(block, family, wanted)
  {
    if IsNoFlash(Word(block, 2)) then [] else [PartOf(block)]
  }

  // The parts that the first n blocks carry.
  function PartsOf(blocks: seq<seq<u8>>, n: nat, family: u32, wanted: u32): seq<Part>
    requires n <= |blocks| && AllOfFamily(blocks, family, wanted)
  {
    if n == 0 then [] else PartsOf(blocks, n - 1, family, wanted) + Contribution(blocks[n - 1], family, wanted)
  }

  function EndOf(p: Part): nat { p.addr + |p.payload| }

  predicate GapOk(p: Part, q: Part) {
    EndOf(p) <= q.addr && q.addr - EndOf(p) <= MAX_PADDING && (q.addr - EndOf(p)) % 4 == 0
  }

  // Parts follow one another with gaps that are whole words of at most 10 MB.
  predicate Ascending(parts: seq<Part>) {
    forall i :: 0 < i < |parts| ==> GapOk(parts[i - 1], parts[i])
  }

  // Memory from the first part's address on, zeros in the gaps.
  function Image(parts: seq<Part>): (m: seq<u8>)
    requires Ascending(parts)
    ensures parts != [] ==> parts[0].addr + |m| == EndOf(parts[|parts| - 1])
  {
    if parts == [] then []
    else
      var n := |parts| - 1;
      Image(parts[..n]) + Zeros(if n == 0 then 0 else parts[n].addr - EndOf(parts[n - 1])) + parts[n].payload
  }

  // What the reader's variables say when it has read these parts.
  predicate HasRead(r: Reader, parts: seq<Part>, family: u32, start: Option<nat>) {
    && Ascending(parts) && r.out == Image(parts) && r.families <= {family}
    && r.curr == (if parts == [] then None else Some(EndOf(parts[|parts| - 1])))
    && r.family == (if parts == [] then None else Some(family))
    && r.start == (if parts == [] then start else Some(parts[0].addr))
  }

  lemma AtMostOne(s: set<u32>, x: u32)
    requires s <= {x}
    ensures |s| <= 1
  {
    assert s == {} || s == {x};
  }

  // The first block that is not skipped opens the output.
  lemma ReadFirst(r: Reader, block: seq<u8>, family: u32, wanted: u32, last: bool)
    requires OfFamily(block, family, wanted) && !IsNoFlash(Word(block, 2))
    requires r.curr == None && r.family == None && r.families <= {family}
    ensures var p := PartOf(block);
      var families := if HasFamily(Word(block, 2)) then r.families + {family} else r.families;
      && families <= {family}
      && Read(r, block, wanted, last)
         == Ok(Reader(Some(EndOf(p)), Some(family), families, r.out + Zeros(0) + p.payload, Some(p.addr)))
  {
    hide Word;
    AtMostOne(r.families + {family}, family);
    AtMostOne(r.families, family);
  }

  // A later one is accepted exactly when its gap is in order, and extends the output.
  lemma ReadNext(r: Reader, prev: Part, block: seq<u8>, family: u32, wanted: u32, last: bool)
    requires OfFamily(block, family, wanted) && !IsNoFlash(Word(block, 2))
    requires r.curr == Some(EndOf(prev)) && r.family == Some(family) && r.families <= {family}
    ensures var p := PartOf(block);
      var families := if HasFamily(Word(block, 2)) then r.families + {family} else r.families;
      && families <= {family}
      && (Read(r, block, wanted, last).Ok? <==> GapOk(prev, p))
      && (GapOk(prev, p) ==>
            Read(r, block, wanted, last)
            == Ok(Reader(Some(EndOf(p)), Some(family), families,
                         r.out + Zeros(p.addr - EndOf(prev)) + p.payload, r.start)))
  {
    hide Word;
    AtMostOne(r.families + {family}, family);
    AtMostOne(r.families, family);
  }

  lemma ReadSkips(r: Reader, block: seq<u8>, family: u32, wanted: u32, last: bool)
    requires OfFamily(block, family, wanted) && IsNoFlash(Word(block, 2))
    ensures Read(r, block, wanted, last) == Ok(r)
  {
  }

  // One more part.
  lemma ReadOne(r: Reader, parts: seq<Part>, block: seq<u8>, family: u32, wanted: u32, start: Option<nat>, last: bool)
    requires OfFamily(block, family, wanted) && HasRead(r, parts, family, start)
    ensures var parts' := parts + Contribution(block, family, wanted);
      var read := Read(r, block, wanted, last);
      && (read.Ok? <==> Ascending(parts'))
      && (read.Ok? ==> HasRead(read.value, parts', family, start))
  {
    hide Read, Image, Word, GapOk, EndOf, Ascending, Wanted;
    if IsNoFlash(Word(block, 2)) {
      ReadSkips(r, block, family, wanted, last);
      assert parts + [] == parts;
    } else {
      var p := PartOf(block);
      var parts' := parts + [p];
      var n := |parts|;
      assert parts'[..n] == parts && parts'[..n + 1] == parts';
      if n == 0 {
        ReadFirst(r, block, family, wanted, last);
        FirstImage(parts');
        EmptyImage();
      } else {
        ReadNext(r, parts[n - 1], block, family, wanted, last);
        AscendingOneMore(parts', n + 1);
        if Ascending(parts') {
          ImageOneMore(parts', n + 1);
        }
      }
    }
  }

  lemma EmptyImage()
    ensures Ascending([]) && Image([]) == []
  {
  }

  // A file of one family, whatever other flags its blocks have, is read exactly when the gaps between its
  // parts are in order, and yields their image and start address.
  lemma {:induction false} ReadsImage(blocks: seq<seq<u8>>, n: nat, family: u32, wanted: u32, start: Option<nat>)
    requires n <= |blocks| && AllOfFamily(blocks, family, wanted)
    ensures AreBlocks(blocks)
    ensures var read := ReadBlocks(blocks, n, wanted, start);
      var parts := PartsOf(blocks, n, family, wanted);
      && (read.Ok? <==> Ascending(parts))
      && (read.Ok? ==> HasRead(read.value, parts, family, start))
  {
    hide Read, OfFamily, Contribution, Image, GapOk, HasRead, Ascending;
    BlocksOfFamily(blocks, family, wanted);
    if n == 0 {
      NothingRead(family, start);
    } else {
      ReadsImage(blocks, n - 1, family, wanted, start);
      var before := PartsOf(blocks, n - 1, family, wanted);
      var read := ReadBlocks(blocks, n - 1, wanted, start);
      if read.Ok? {
        ReadOne(read.value, before, blocks[n - 1], family, wanted, start, n == |blocks|);
      } else {
        StillNotAscending(before, Contribution(blocks[n - 1], family, wanted));
      }
    }
  }

  lemma NothingRead(family: u32, start: Option<nat>)
    ensures Ascending([]) && HasRead(Reader(None, None, {}, [], start), [], family, start)
  {
    EmptyImage();
  }

  lemma StillNotAscending(a: seq<Part>, b: seq<Part>)
    requires !Ascending(a)
    ensures !Ascending(a + b)
  {
    var i :| 0 < i < |a| && !GapOk(a[i - 1], a[i]);
    assert (a + b)[i - 1] == a[i - 1] && (a + b)[i] == a[i];
  }

  lemma BlocksOfFamily(blocks: seq<seq<u8>>, family: u32, wanted: u32)
    requires AllOfFamily(blocks, family, wanted)
    ensures AreBlocks(blocks) && forall i :: 0 <= i < |blocks| ==> OfFamily(blocks[i], family, wanted)
  {
  }

  lemma FirstImage(parts: seq<Part>)
    requires parts != []
    ensures Ascending(parts[..1]) && Image(parts[..1]) == [] + Zeros(0) + parts[0].payload
    ensures EndOf(parts[0]) == parts[0].addr + |parts[0].payload|
  {
    assert parts[..1][..0] == [];
  }

  lemma AscendingOneMore(parts: seq<Part>, n: nat)
    requires 1 < n <= |parts|
    ensures Ascending(parts[..n]) <==> Ascending(parts[..n - 1]) && GapOk(parts[n - 2], parts[n - 1])
    ensures EndOf(parts[n - 1]) == parts[n - 1].addr + |parts[n - 1].payload|
  {
    var a, b := parts[..n - 1], parts[..n];
    assert forall i :: 0 <= i < n - 1 ==> a[i] == b[i];
    if Ascending(b) {
      assert GapOk(b[n - 2], b[n - 1]);
      assert forall i :: 0 < i < n - 1 ==> GapOk(b[i - 1], b[i]);
    }
  }

  lemma ImageOneMore(parts: seq<Part>, n: nat)
    requires 1 < n <= |parts| && Ascending(parts[..n])
    ensures Ascending(parts[..n - 1])
    ensures Image(parts[..n])
         == Image(parts[..n - 1]) + Zeros(parts[n - 1].addr - EndOf(parts[n - 2])) + parts[n - 1].payload
  {
    AscendingOneMore(parts, n);
    assert parts[..n][..n - 1] == parts[..n - 1];
  }

  // ---- Where the bytes land -------------------------------------------------------------------------------

  // The image m of memory from base on holds the payload at its address.
  predicate Holds(m: seq<u8>, base: nat, p: Part) {
    base <= p.addr && EndOf(p) <= base + |m| && m[p.addr - base..EndOf(p) - base] == p.payload
  }

  predicate Covers(p: Part, a: nat) { p.addr <= a < EndOf(p) }

  lemma HoldsLonger(m: seq<u8>, m': seq<u8>, base: nat, p: Part)
    requires Holds(m, base, p) && m <= m'
    ensures Holds(m', base, p)
  {
  }

  lemma LastHolds(parts: seq<Part>)
    requires Ascending(parts) && parts != []
    ensures Holds(Image(parts), parts[0].addr, parts[|parts| - 1])
  {
    hide Image, Ascending, GapOk;
    var n := |parts| - 1;
    assert parts[..n + 1] == parts;
    if n > 0 {
      AscendingOneMore(parts, n + 1);
      ImageOneMore(parts, n + 1);
      TailHolds(Image(parts[..n]) + Zeros(parts[n].addr - EndOf(parts[n - 1])), parts[0].addr, parts[n]);
      BaseIsFirst(parts[..n]);
    } else {
      FirstImage(parts);
      TailHolds([] + Zeros(0), parts[0].addr, parts[0]);
    }
  }

  lemma BaseIsFirst(parts: seq<Part>)
    requires Ascending(parts) && parts != []
    ensures parts[0].addr + |Image(parts)| == EndOf(parts[|parts| - 1])
  {
  }

  lemma TailHolds(before: seq<u8>, base: nat, p: Part)
    requires base + |before| == p.addr
    ensures Holds(before + p.payload, base, p)
  {
  }

  // Each payload byte is at its address minus the base.
  lemma {:induction false} ImageHolds(parts: seq<Part>, i: nat)
    requires Ascending(parts) && i < |parts|
    ensures Holds(Image(parts), parts[0].addr, parts[i])
  {
    var n := |parts| - 1;
    assert parts[..n + 1] == parts;
    if n == 0 {
      FirstImage(parts);
    } else {
      hide Holds, Image, GapOk;
      AscendingOneMore(parts, n + 1);
      ImageOneMore(parts, n + 1);
      if i == n {
        LastHolds(parts);
      } else {
        ImageHolds(parts[..n], i);
        HoldsLonger(Image(parts[..n]), Image(parts), parts[0].addr, parts[i]);
      }
    }
  }

  lemma NotCovered(parts: seq<Part>, i: nat, a: nat)
    requires i < |parts| && forall j :: 0 <= j < |parts| ==> !Covers(parts[j], a)
    ensures !(parts[i].addr <= a < EndOf(parts[i]))
  {
    assert !Covers(parts[i], a);
  }

  // Every byte of the image that no part covers is zero.
  lemma {:induction false} GapsAreZero(parts: seq<Part>, k: nat)
    requires Ascending(parts) && k < |Image(parts)|
    requires forall i :: 0 <= i < |parts| ==> !Covers(parts[i], parts[0].addr + k)
    ensures Image(parts)[k] == 0
  {
    var n := |parts| - 1;
    assert parts[..n + 1] == parts;
    NotCovered(parts, n, parts[0].addr + k);
    if n == 0 {
      FirstImage(parts);
    } else {
      AscendingOneMore(parts, n + 1);
      ImageOneMore(parts, n + 1);
      if k < |Image(parts[..n])| {
        GapsAreZero(parts[..n], k);
      }
    }
  }
}
