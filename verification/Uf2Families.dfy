// Reading UF2 files that hold the data of several families.
module Uf2Families {
  import opened Clock
  import opened Uf2Format
  import opened Uf2Decode

  // A block that is marked as not for flash, or names its family.
  predicate Named(block: seq<u8>) {
    && |block| == BLOCK_SIZE && HasMagic(block)
    && (IsNoFlash(Word(block, 2)) || (HasFamily(Word(block, 2)) && Word(block, 4) <= 476))
  }

  predicate AllNamed(blocks: seq<seq<u8>>) {
    forall i :: 0 <= i < |blocks| ==> Named(blocks[i])
  }

  // Neighbouring parts of one family.
  datatype Segment = Segment(family: u32, parts: seq<Part>)

  // The segments with one more part.
  function Grow(segs: seq<Segment>, family: u32, p: Part): (s: seq<Segment>)
    ensures s != [] && s[|s| - 1].family == family && s[|s| - 1].parts != []
  {
    var n := |segs| - 1;
    if segs != [] && segs[n].family == family then segs[..n] + [Segment(family, segs[n].parts + [p])]
    else segs + [Segment(family, [p])]
  }

  // The segments that the first n blocks make up.
  function Segments(blocks: seq<seq<u8>>, n: nat): (segs: seq<Segment>)
    requires n <= |blocks| && AllNamed(blocks)
  {
    if n == 0 then []
    else
      var before := Segments(blocks, n - 1);
      if IsNoFlash(Word(blocks[n - 1], 2)) then before
      else Grow(before, Word(blocks[n - 1], 7), PartOf(blocks[n - 1]))
  }

  predicate AllAscending(segs: seq<Segment>) {
    forall i :: 0 <= i < |segs| ==> Ascending(segs[i].parts)
  }

  // The zeros between the parts.
  function Gaps(parts: seq<Part>): nat
    requires Ascending(parts)
  {
    if |parts| < 2 then 0
    else
      var n := |parts| - 1;
      Gaps(parts[..n]) + parts[n].addr - EndOf(parts[n - 1])
  }

  predicate IsWanted(wanted: u32, family: u32) { wanted == 0 || wanted == family }

  // What a segment leaves in the output: its image when its family is wanted, and otherwise its gaps.
  function Left(s: Segment, wanted: u32): seq<u8>
    requires Ascending(s.parts)
  {
    if IsWanted(wanted, s.family) then Image(s.parts) else Zeros(Gaps(s.parts))
  }

  function Output(segs: seq<Segment>, wanted: u32): seq<u8>
    requires AllAscending(segs)
  {
    if segs == [] then [] else Output(segs[..|segs| - 1], wanted) + Left(segs[|segs| - 1], wanted)
  }

  // Where the last segment of a wanted family begins.
  function StartOf(segs: seq<Segment>, wanted: u32, start: Option<nat>): Option<nat> {
    if segs == [] then start
    else
      var last := segs[|segs| - 1];
      if IsWanted(wanted, last.family) && last.parts != [] then Some(last.parts[0].addr)
      else StartOf(segs[..|segs| - 1], wanted, start)
  }

  function Families(segs: seq<Segment>): set<u32> {
    set i | 0 <= i < |segs| :: segs[i].family
  }

  predicate NoneEmpty(segs: seq<Segment>) {
    forall i :: 0 <= i < |segs| ==> segs[i].parts != []
  }

  // What the reader's variables say when it has read these segments.
  predicate HasReadSegments(r: Reader, segs: seq<Segment>, wanted: u32, start: Option<nat>) {
    && AllAscending(segs) && NoneEmpty(segs)
    && r.out == Output(segs, wanted) && r.start == StartOf(segs, wanted, start) && r.families == Families(segs)
    && r.curr == (if segs == [] then None
                  else var parts := segs[|segs| - 1].parts; Some(EndOf(parts[|parts| - 1])))
    && r.family == (if segs == [] then None else Some(segs[|segs| - 1].family))
  }

  // ---- One block ------------------------------------------------------------------------------------------

  // A block that begins a segment is always accepted.
  lemma ReadOpens(r: Reader, block: seq<u8>, wanted: u32)
    requires Named(block) && !IsNoFlash(Word(block, 2))
    requires (r.curr == None && r.family == None)
          || (r.curr.Some? && r.family.Some? && r.family.value != Word(block, 7))
    ensures var p, family := PartOf(block), Word(block, 7);
      Read(r, block, wanted, false)
      == Ok(Reader(Some(EndOf(p)), Some(family), r.families + {family},
                   r.out + Zeros(0) + if IsWanted(wanted, family) then p.payload else [],
                   if IsWanted(wanted, family) then Some(p.addr) else r.start))
  {
    hide Word;
  }

  // One that goes on with a segment is accepted exactly when its gap is in order.
  lemma ReadGoesOn(r: Reader, prev: Part, block: seq<u8>, wanted: u32)
    requires Named(block) && !IsNoFlash(Word(block, 2))
    requires r.curr == Some(EndOf(prev)) && r.family == Some(Word(block, 7))
    ensures var p, family := PartOf(block), Word(block, 7);
      && (Read(r, block, wanted, false).Ok? <==> GapOk(prev, p))
      && (GapOk(prev, p) ==>
            Read(r, block, wanted, false)
            == Ok(Reader(Some(EndOf(p)), Some(family), r.families + {family},
                         r.out + Zeros(p.addr - EndOf(prev)) + if IsWanted(wanted, family) then p.payload else [],
                         r.start)))
  {
    hide Word;
  }

  // ---- Segments grow --------------------------------------------------------------------------------------

  lemma LeftOfFirst(p: Part, family: u32, wanted: u32)
    ensures Ascending([p]) && Left(Segment(family, [p]), wanted) == if IsWanted(wanted, family) then p.payload else []
  {
    FirstImage([p]);
    assert Zeros(0) == [];
    assert [] + Zeros(0) + p.payload == p.payload;
  }

  lemma LeftGrows(parts: seq<Part>, p: Part, family: u32, wanted: u32)
    requires parts != [] && Ascending(parts)
    ensures Ascending(parts + [p]) <==> GapOk(parts[|parts| - 1], p)
    ensures GapOk(parts[|parts| - 1], p) ==>
      Left(Segment(family, parts + [p]), wanted)
      == Left(Segment(family, parts), wanted) + Zeros(p.addr - EndOf(parts[|parts| - 1]))
         + if IsWanted(wanted, family) then p.payload else []
  {
    hide Ascending, Image, GapOk, EndOf;
    var all, n := parts + [p], |parts|;
    assert all[..n] == parts && all[..n + 1] == all;
    AscendingOneMore(all, n + 1);
    if Ascending(all) {
      ImageOneMore(all, n + 1);
      GapInOrder(parts[n - 1], p);
      ZerosAdd(Gaps(parts), p.addr - EndOf(parts[n - 1]));
    }
  }

  lemma GapInOrder(p: Part, q: Part)
    requires GapOk(p, q)
    ensures EndOf(p) <= q.addr
  {
  }

  lemma ZerosAdd(a: nat, b: nat)
    ensures Zeros(a) + Zeros(b) == Zeros(a + b) && Zeros(a + b) + [] == Zeros(a + b)
  {
  }

  // The part goes on with the last segment.
  predicate Joins(segs: seq<Segment>, family: u32) {
    segs != [] && segs[|segs| - 1].family == family && segs[|segs| - 1].parts != []
  }

  function LastPart(segs: seq<Segment>): Part
    requires segs != [] && segs[|segs| - 1].parts != []
  {
    var parts := segs[|segs| - 1].parts;
    parts[|parts| - 1]
  }

  lemma OutputJoins(segs: seq<Segment>, family: u32, p: Part, wanted: u32)
    requires AllAscending(segs) && Joins(segs, family)
    ensures var grown := Grow(segs, family, p);
      && (AllAscending(grown) <==> GapOk(LastPart(segs), p))
      && (AllAscending(grown) ==>
            Output(grown, wanted) == Output(segs, wanted) + Zeros(p.addr - EndOf(LastPart(segs)))
                                     + if IsWanted(wanted, family) then p.payload else [])
  {
    hide Ascending, Left, GapOk, EndOf, IsWanted;
    var n, grown := |segs| - 1, Grow(segs, family, p);
    LeftGrows(segs[n].parts, p, family, wanted);
    assert grown[..n] == segs[..n] && |grown| == n + 1 && forall i :: 0 <= i < n ==> grown[i] == segs[i];
    AllOfLast(grown, n);
    if AllAscending(grown) {
      GapInOrder(LastPart(segs), p);
      Assoc(Output(segs[..n], wanted), Left(segs[n], wanted), Zeros(p.addr - EndOf(LastPart(segs))),
            if IsWanted(wanted, family) then p.payload else []);
    }
  }

  lemma AllOfLast(segs: seq<Segment>, n: nat)
    requires |segs| == n + 1
    ensures AllAscending(segs) <==> AllAscending(segs[..n]) && Ascending(segs[n].parts)
  {
    hide Ascending;
    assert forall i :: 0 <= i < n ==> segs[..n][i] == segs[i];
  }

  // The part opens a segment.
  lemma OutputOpens(segs: seq<Segment>, family: u32, p: Part, wanted: u32)
    requires AllAscending(segs) && (segs == [] || segs[|segs| - 1].family != family)
    ensures var grown := Grow(segs, family, p);
      && AllAscending(grown)
      && Output(grown, wanted) == Output(segs, wanted) + Zeros(0) + if IsWanted(wanted, family) then p.payload else []
  {
    hide Ascending, Left, GapOk, EndOf, IsWanted;
    var grown := Grow(segs, family, p);
    LeftOfFirst(p, family, wanted);
    assert grown[..|segs|] == segs;
    AllOfLast(grown, |segs|);
    NoZeros(Output(segs, wanted), if IsWanted(wanted, family) then p.payload else []);
  }

  lemma Assoc(a: seq<u8>, b: seq<u8>, c: seq<u8>, d: seq<u8>)
    ensures a + (b + c + d) == (a + b) + c + d
  {
  }

  lemma NoZeros(a: seq<u8>, b: seq<u8>)
    ensures a + Zeros(0) + b == a + b
  {
  }

  lemma FamiliesGrow(segs: seq<Segment>, family: u32, p: Part)
    ensures Families(Grow(segs, family, p)) == Families(segs) + {family}
  {
    var grown, n := Grow(segs, family, p), |segs| - 1;
    if segs != [] && segs[n].family == family {
      assert forall i :: 0 <= i < |segs| ==> grown[i].family == segs[i].family;
    } else {
      assert grown[|segs|].family == family && forall i :: 0 <= i < |segs| ==> grown[i] == segs[i];
    }
  }

  lemma StartGrows(segs: seq<Segment>, family: u32, p: Part, wanted: u32, start: Option<nat>)
    requires NoneEmpty(segs)
    ensures StartOf(Grow(segs, family, p), wanted, start)
         == if IsWanted(wanted, family) && (segs == [] || segs[|segs| - 1].family != family)
            then Some(p.addr) else StartOf(segs, wanted, start)
  {
    var grown, n := Grow(segs, family, p), |segs| - 1;
    if segs != [] && segs[n].family == family {
      assert grown[..n] == segs[..n] && grown[n].parts[0] == segs[n].parts[0];
    } else {
      assert grown[..|segs|] == segs;
    }
  }

  // ---- Whole files ------------------------------------------------------------------------------------------

  lemma GrowNoneEmpty(segs: seq<Segment>, family: u32, p: Part)
    requires NoneEmpty(segs)
    ensures NoneEmpty(Grow(segs, family, p)) && LastPart(Grow(segs, family, p)) == p
  {
  }

  lemma NamedSize(block: seq<u8>)
    requires Named(block) && !IsNoFlash(Word(block, 2))
    ensures |block| == BLOCK_SIZE && Word(block, 4) <= 476
  {
  }

  lemma ReadGrowsJoined(r: Reader, segs: seq<Segment>, block: seq<u8>, wanted: u32, start: Option<nat>)
    requires Named(block) && !IsNoFlash(Word(block, 2)) && HasReadSegments(r, segs, wanted, start)
    requires segs != [] && segs[|segs| - 1].family == Word(block, 7)
    ensures var grown := Grow(segs, Word(block, 7), PartOf(block));
      var read := Read(r, block, wanted, false);
      && (read.Ok? <==> AllAscending(grown))
      && (read.Ok? ==> HasReadSegments(read.value, grown, wanted, start))
  {
    hide Read, Word, Output, GapOk, EndOf, IsWanted, StartOf, Families, Named, PartOf, IsNoFlash, Grow, AllAscending;
    NamedSize(block);
    var family, p := Word(block, 7), PartOf(block);
    FamiliesGrow(segs, family, p);
    StartGrows(segs, family, p, wanted, start);
    GrowNoneEmpty(segs, family, p);
    ReadGoesOn(r, LastPart(segs), block, wanted);
    OutputJoins(segs, family, p, wanted);
  }

  lemma ReadGrowsOpened(r: Reader, segs: seq<Segment>, block: seq<u8>, wanted: u32, start: Option<nat>)
    requires Named(block) && !IsNoFlash(Word(block, 2)) && HasReadSegments(r, segs, wanted, start)
    requires segs == [] || segs[|segs| - 1].family != Word(block, 7)
    ensures var grown := Grow(segs, Word(block, 7), PartOf(block));
      var read := Read(r, block, wanted, false);
      read.Ok? && AllAscending(grown) && HasReadSegments(read.value, grown, wanted, start)
  {
    hide Read, Word, Output, GapOk, EndOf, IsWanted, StartOf, Families, Named, PartOf, IsNoFlash, Grow, AllAscending;
    NamedSize(block);
    var family, p := Word(block, 7), PartOf(block);
    FamiliesGrow(segs, family, p);
    StartGrows(segs, family, p, wanted, start);
    GrowNoneEmpty(segs, family, p);
    ReadOpens(r, block, wanted);
    OutputOpens(segs, family, p, wanted);
  }

  lemma ReadGrows(r: Reader, segs: seq<Segment>, block: seq<u8>, wanted: u32, start: Option<nat>)
    requires Named(block) && !IsNoFlash(Word(block, 2)) && HasReadSegments(r, segs, wanted, start)
    ensures var grown := Grow(segs, Word(block, 7), PartOf(block));
      var read := Read(r, block, wanted, false);
      && (read.Ok? <==> AllAscending(grown))
      && (read.Ok? ==> HasReadSegments(read.value, grown, wanted, start))
  {
    hide Read, Word, HasReadSegments, Named, PartOf, IsNoFlash, Grow, AllAscending;
    NamedSize(block);
    if segs != [] && segs[|segs| - 1].family == Word(block, 7) {
      ReadGrowsJoined(r, segs, block, wanted, start);
    } else {
      ReadGrowsOpened(r, segs, block, wanted, start);
    }
  }

  lemma NamedBlocks(blocks: seq<seq<u8>>)
    requires AllNamed(blocks)
    ensures AreBlocks(blocks)
  {
  }

  lemma ReadSkipsNamed(r: Reader, block: seq<u8>, wanted: u32, last: bool)
    requires Named(block) && IsNoFlash(Word(block, 2))
    ensures Read(r, block, wanted, last) == Ok(r)
  {
  }

  lemma NoSegments(start: Option<nat>, wanted: u32)
    ensures HasReadSegments(Reader(None, None, {}, [], start), [], wanted, start)
  {
  }

  lemma AscendingPrefix(parts: seq<Part>, p: Part)
    requires Ascending(parts + [p])
    ensures Ascending(parts)
  {
    hide GapOk;
    var all := parts + [p];
    forall i | 0 < i < |parts| ensures GapOk(parts[i - 1], parts[i]) {
      assert parts[i - 1] == all[i - 1] && parts[i] == all[i];
    }
  }

  // A segment that is not in order stays so.
  lemma GrowKeepsDisorder(segs: seq<Segment>, family: u32, p: Part)
    ensures AllAscending(Grow(segs, family, p)) ==> AllAscending(segs)
  {
    hide Ascending, AllAscending;
    var grown, n := Grow(segs, family, p), |segs| - 1;
    if segs != [] && segs[n].family == family {
      assert grown[..n] == segs[..n];
      AllOfLast(segs, n);
      AllOfLast(grown, n);
      if AllAscending(grown) {
        AscendingPrefix(segs[n].parts, p);
      }
    } else {
      assert grown[..|segs|] == segs;
      AllOfLast(grown, |segs|);
    }
  }

  // Up to the last block of the file.
  lemma {:induction false} ReadsSegments(blocks: seq<seq<u8>>, n: nat, wanted: u32, start: Option<nat>)
    requires n < |blocks| && AllNamed(blocks)
    ensures AreBlocks(blocks)
    ensures var read := ReadBlocks(blocks, n, wanted, start);
      && (read.Ok? <==> AllAscending(Segments(blocks, n)))
      && (read.Ok? ==> HasReadSegments(read.value, Segments(blocks, n), wanted, start))
  {
    hide Read, Named, AllAscending, HasReadSegments, Grow, PartOf, Word;
    NamedBlocks(blocks);
    if n == 0 {
      NoSegments(start, wanted);
      NothingAscends();
    } else {
      var block, segs := blocks[n - 1], Segments(blocks, n - 1);
      ReadsSegments(blocks, n - 1, wanted, start);
      var before := ReadBlocks(blocks, n - 1, wanted, start);
      if IsNoFlash(Word(block, 2)) {
        if before.Ok? {
          ReadSkipsNamed(before.value, block, wanted, false);
        }
      } else if before.Ok? {
        ReadGrows(before.value, segs, block, wanted, start);
      } else {
        NamedSize(block);
        GrowKeepsDisorder(segs, Word(block, 7), PartOf(block));
      }
    }
  }

  lemma NothingAscends()
    ensures AllAscending([])
  {
  }

  // The reader drops everything at its last block when more than one family was met and none is wanted. It gets
  // there only if that block is for flash.
  predicate DropsAll(blocks: seq<seq<u8>>, wanted: u32)
    requires AllNamed(blocks)
  {
    && blocks != [] && !IsNoFlash(Word(blocks[|blocks| - 1], 2))
    && wanted == 0 && |Families(Segments(blocks, |blocks|))| > 1
  }

  lemma ReadLast(r: Reader, block: seq<u8>, wanted: u32)
    requires |block| == BLOCK_SIZE
    ensures var read := Read(r, block, wanted, false);
      Read(r, block, wanted, true) ==
        if read.Err? || IsNoFlash(Word(block, 2)) || wanted != 0 || |read.value.families| <= 1 then read
        else Ok(read.value.(out := [], start := Some(0)))
  {
    hide Word;
  }

  // Any file of blocks that name their families is read exactly when the gaps inside each segment are in order.
  // The output is the image of each wanted segment, with the gaps of the others in between as zeros, and the start
  // address that of the last wanted segment. A file of several families with none wanted gives nothing.
  lemma ReadsFamilies(blocks: seq<seq<u8>>, wanted: u32, start: Option<nat>)
    requires AllNamed(blocks)
    ensures AreBlocks(blocks)
    ensures var read, segs := ReadBlocks(blocks, |blocks|, wanted, start), Segments(blocks, |blocks|);
      && (read.Ok? <==> AllAscending(segs))
      && (read.Ok? && !DropsAll(blocks, wanted) ==>
            read.value.out == Output(segs, wanted) && read.value.start == StartOf(segs, wanted, start))
      && (read.Ok? && DropsAll(blocks, wanted) ==> read.value.out == [] && read.value.start == Some(0))
  {
    hide Read, Named, AllAscending, Grow, PartOf, Word, Output, StartOf, Families;
    NamedBlocks(blocks);
    if blocks == [] {
      NoSegments(start, wanted);
      NothingAscends();
    } else {
      var n := |blocks| - 1;
      var block, segs := blocks[n], Segments(blocks, n);
      ReadsSegments(blocks, n, wanted, start);
      var before := ReadBlocks(blocks, n, wanted, start);
      if before.Ok? {
        ReadLast(before.value, block, wanted);
        if IsNoFlash(Word(block, 2)) {
          ReadSkipsNamed(before.value, block, wanted, true);
        } else {
          ReadGrows(before.value, segs, block, wanted, start);
        }
      } else if !IsNoFlash(Word(block, 2)) {
        NamedSize(block);
        GrowKeepsDisorder(segs, Word(block, 7), PartOf(block));
      }
    }
  }

  // ---- One family out of several --------------------------------------------------------------------------

  // All gaps of segments of other families.
  function ForeignGaps(segs: seq<Segment>, wanted: u32): nat
    requires AllAscending(segs)
  {
    if segs == [] then 0
    else
      var last := segs[|segs| - 1];
      ForeignGaps(segs[..|segs| - 1], wanted) + if last.family == wanted then 0 else Gaps(last.parts)
  }

  // Segment k is the one of the wanted family.
  predicate OnlyOne(segs: seq<Segment>, k: nat, wanted: u32) {
    k < |segs| && forall i :: 0 <= i < |segs| ==> (segs[i].family == wanted <==> i == k)
  }

  lemma {:induction false} NoneWanted(segs: seq<Segment>, wanted: u32)
    requires AllAscending(segs) && wanted != 0 && forall i :: 0 <= i < |segs| ==> segs[i].family != wanted
    ensures Output(segs, wanted) == Zeros(ForeignGaps(segs, wanted))
  {
    if segs != [] {
      hide Gaps, Image, Ascending;
      var n := |segs| - 1;
      NoneWanted(segs[..n], wanted);
      ZerosAdd(ForeignGaps(segs[..n], wanted), Gaps(segs[n].parts));
    }
  }

  lemma {:induction false} OneWantedStart(segs: seq<Segment>, k: nat, wanted: u32, start: Option<nat>)
    requires wanted != 0 && OnlyOne(segs, k, wanted) && segs[k].parts != []
    ensures StartOf(segs, wanted, start) == Some(segs[k].parts[0].addr)
  {
    if k < |segs| - 1 {
      OneWantedStart(segs[..|segs| - 1], k, wanted, start);
    }
  }

  lemma LeftIs(s: Segment, wanted: u32)
    requires Ascending(s.parts) && wanted != 0
    ensures Left(s, wanted) == if s.family == wanted then Image(s.parts) else Zeros(Gaps(s.parts))
  {
  }

  lemma {:induction false} OneWanted(segs: seq<Segment>, k: nat, wanted: u32)
    requires AllAscending(segs) && wanted != 0 && OnlyOne(segs, k, wanted)
    ensures AllAscending(segs[..k]) && ForeignGaps(segs[..k], wanted) <= ForeignGaps(segs, wanted)
    ensures var g := ForeignGaps(segs[..k], wanted);
      Output(segs, wanted) == Zeros(g) + Image(segs[k].parts) + Zeros(ForeignGaps(segs, wanted) - g)
  {
    hide Gaps, Image, Ascending, Left;
    var n := |segs| - 1;
    LeftIs(segs[n], wanted);
    if k == n {
      NoneWanted(segs[..n], wanted);
      var out := Zeros(ForeignGaps(segs[..n], wanted)) + Image(segs[k].parts);
      assert out + Zeros(0) == out;
    } else {
      var g := ForeignGaps(segs[..k], wanted);
      OneWanted(segs[..n], k, wanted);
      assert segs[..n][..k] == segs[..k];
      ZerosBehind(Zeros(g) + Image(segs[k].parts), ForeignGaps(segs[..n], wanted) - g, Gaps(segs[n].parts));
    }
  }

  lemma ZerosBehind(a: seq<u8>, b: nat, c: nat)
    ensures a + Zeros(b) + Zeros(c) == a + Zeros(b + c)
  {
  }

  // Reading one family out of a file in which its data lie together yields their image exactly when the data of
  // the other families have no gaps: the zeros for those are written whether or not their family is wanted.
  lemma ForeignGapsLeakIff(blocks: seq<seq<u8>>, k: nat, wanted: u32, start: Option<nat>)
    requires AllNamed(blocks) && wanted != 0
    requires OnlyOne(Segments(blocks, |blocks|), k, wanted) && AllAscending(Segments(blocks, |blocks|))
    ensures AreBlocks(blocks)
    ensures var read, segs := ReadBlocks(blocks, |blocks|, wanted, start), Segments(blocks, |blocks|);
      && read.Ok?
      && (read.value.out == Image(segs[k].parts) <==> ForeignGaps(segs, wanted) == 0)
      && |read.value.out| == |Image(segs[k].parts)| + ForeignGaps(segs, wanted)
      && (segs[k].parts != [] ==> read.value.start == Some(segs[k].parts[0].addr))
  {
    hide Segments, Output, Image, ForeignGaps, AllNamed, ReadBlocks, StartOf;
    var segs := Segments(blocks, |blocks|);
    ReadsFamilies(blocks, wanted, start);
    OneWanted(segs, k, wanted);
    if segs[k].parts != [] {
      OneWantedStart(segs, k, wanted, start);
    }
    assert Zeros(0) + Image(segs[k].parts) + Zeros(0) == Image(segs[k].parts);
  }

  // A page of family 1, and two pages of family 2 with a page left out between them.
  function LeakingFile(data: seq<u8>): (blocks: seq<seq<u8>>)
    requires |data| == PAGE
    ensures AllNamed(blocks) && |blocks| == 3
  {
    var blocks :=
      [EncodeBlock(0, data, 0, 3, 1, 0), EncodeBlock(0, data, 1, 3, 2, 0), EncodeBlock(512, data, 2, 3, 2, 0)];
    LeakingBlock(0, data, 0, 1);
    LeakingBlock(0, data, 1, 2);
    LeakingBlock(512, data, 2, 2);
    blocks
  }

  lemma LeakingBlock(addr: u32, data: seq<u8>, i: u32, family: u32)
    requires |data| == PAGE && family != 0
    ensures var block := EncodeBlock(addr, data, i, 3, family, 0);
      Named(block) && !IsNoFlash(Word(block, 2)) && Word(block, 7) == family && PartOf(block) == Part(addr, data)
  {
    hide EncodeBlock, Word;
    EncodedCarries(addr, data, i, 3, family, 0);
    FlagsMean(family, 0);
  }

  // Reading family 1 out of it gives its page followed by 256 zeros.
  lemma GapLeaks(data: seq<u8>)
    requires |data| == PAGE
    ensures var read := ReadBlocks(LeakingFile(data), 3, 1, None);
      read.Ok? && read.value.out == data + Zeros(256)
  {
    hide EncodeBlock, Word, Named, PartOf, IsNoFlash, ReadBlocks;
    var blocks := LeakingFile(data);
    LeakingBlock(0, data, 0, 1);
    LeakingBlock(0, data, 1, 2);
    LeakingBlock(512, data, 2, 2);
    var a, b, c := Part(0, data), Part(0, data), Part(512, data);
    var one, two := [Segment(1, [a])], [Segment(1, [a]), Segment(2, [b])];
    var three := [Segment(1, [a]), Segment(2, [b, c])];
    assert Segments(blocks, 0) == [];
    assert Segments(blocks, 1) == Grow([], 1, a) == one;
    assert Segments(blocks, 2) == Grow(one, 2, b) == two;
    assert [b] + [c] == [b, c] && two[..1] == one;
    assert Segments(blocks, 3) == Grow(two, 2, c) == three;
    ReadsFamilies(blocks, 1, None);
    GapLeft(a, b, c, data);
  }

  lemma GapLeft(a: Part, b: Part, c: Part, data: seq<u8>)
    requires a.payload == data && |data| == |b.payload| == 256 && b.addr == 0 && c.addr == 512
    ensures var segs := [Segment(1, [a]), Segment(2, [b, c])];
      AllAscending(segs) && Output(segs, 1) == data + Zeros(256)
  {
    var one, segs := [Segment(1, [a])], [Segment(1, [a]), Segment(2, [b, c])];
    GapOfTwo(b, c);
    LeftOfFirst(a, 1, 1);
    hide Ascending, Left;
    assert segs[..1] == one && one[..0] == [];
    assert Output(one, 1) == [] + Left(one[0], 1);
    assert Output(segs, 1) == Output(one, 1) + Left(segs[1], 1);
  }

  lemma GapOfTwo(b: Part, c: Part)
    requires |b.payload| == 256 && b.addr == 0 && c.addr == 512
    ensures Ascending([b, c]) && Gaps([b, c]) == 256
  {
    assert [b, c][..1] == [b];
  }
}
