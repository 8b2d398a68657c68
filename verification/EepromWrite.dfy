// The block operations of drivers/eeprom as functions on the device's memory, and what they amount to.
module EepromWrite {
  import opened Clock
  import opened PagedMemory

  // Page size and number of address bytes (EXTERNAL_EEPROM_PAGE_SIZE, EXTERNAL_EEPROM_ADDRESS_SIZE).
  datatype Geometry = Geometry(page: nat, addressSize: nat) {
    predicate Valid() { page > 0 }

    // Addresses that the address bytes can tell apart.
    function Window(): nat { Pow256(addressSize) }
  }

  // The device's memory and the number of write transactions it has seen.
  datatype Device = Device(mem: seq<u8>, writes: nat)

  predicate Fits(g: Geometry, d: Device) { g.Valid() && |d.mem| % g.page == 0 }

  // Where an address on the wire points. `bank` is what the bus address adds when part of the location
  // is encoded in it, and 0 otherwise.
  function Location(g: Geometry, bank: nat, address: seq<u8>): nat {
    bank * g.Window() + BigEndian(address)
  }

  // One write transaction; a location outside the memory is not answered.
  function Transmit(g: Geometry, d: Device, bank: nat, address: seq<u8>, data: seq<u8>): (d': Device)
    requires Fits(g, d)
    ensures |d'.mem| == |d.mem|
  {
    var at := Location(g, bank, address);
    Device(if at < |d.mem| then PageWrite(d.mem, g.page, at, data) else d.mem, d.writes + 1)
  }

  // Bytes that go into the first transaction of a write of n bytes at a.
  function Chunk(g: Geometry, a: nat, n: nat): (k: nat)
    requires g.Valid()
    ensures k <= n && (n > 0 ==> k > 0) && a % g.page + k <= g.page
  {
    if g.page - a % g.page > n then n else g.page - a % g.page
  }

  function WriteChunk(g: Geometry, d: Device, bank: nat, a: nat, data: seq<u8>): (d': Device)
    requires Fits(g, d)
    ensures |d'.mem| == |d.mem|
  {
    Transmit(g, d, bank, AddressBytes(a, g.addressSize), data)
  }

  // The loop of eeprom_write_block.
  function WriteBlock(g: Geometry, d: Device, bank: nat, a: nat, buf: seq<u8>): (d': Device)
    requires Fits(g, d)
    ensures |d'.mem| == |d.mem|
    decreases |buf|
  {
    if buf == [] then d
    else
      var k := Chunk(g, a, |buf|);
      WriteBlock(g, WriteChunk(g, d, bank, a, buf[..k]), bank, a + k, buf[k..])
  }

  lemma WriteBlockEnd(g: Geometry, d: Device, bank: nat, a: nat, data: seq<u8>, n: nat)
    requires Fits(g, d) && n <= |data|
    ensures WriteBlock(g, d, bank, a, data[n..n]) == d
  {
  }

  // One turn of the loop, on a buffer read from i up to n.
  lemma WriteBlockTurn(g: Geometry, d: Device, bank: nat, a: nat, data: seq<u8>, i: nat, n: nat, k: nat, d': Device)
    requires Fits(g, d) && i < n <= |data| && k == Chunk(g, a, n - i)
    requires d' == WriteChunk(g, d, bank, a, data[i..i + k])
    ensures Fits(g, d')
    ensures WriteBlock(g, d, bank, a, data[i..n]) == WriteBlock(g, d', bank, a + k, data[i + k..n])
  {
    SliceOn(data, i, k, n);
  }

  // The whole region lies in the given bank and in memory.
  predicate InBank(g: Geometry, bank: nat, a: nat, n: nat) {
    bank * g.Window() <= a && a + n <= (bank + 1) * g.Window()
  }

  lemma LocationInBank(g: Geometry, bank: nat, a: nat)
    requires InBank(g, bank, a, 1)
    ensures Location(g, bank, AddressBytes(a, g.addressSize)) == a
  {
    AddressOfBytes(a, g.addressSize);
    OneMoreTimes(bank, g.Window());
    DivModUnique(a, bank, a - bank * g.Window(), g.Window());
  }

  lemma ChunkLands(g: Geometry, d: Device, bank: nat, a: nat, data: seq<u8>)
    requires Fits(g, d) && data != [] && a % g.page + |data| <= g.page
    requires InBank(g, bank, a, 1) && a + |data| <= |d.mem|
    ensures WriteChunk(g, d, bank, a, data) == Device(Splice(d.mem, a, data), d.writes + 1)
  {
    LocationInBank(g, bank, a);
    WriteWithinPage(d.mem, g.page, a, data);
  }

  // Inside one bank the loop writes exactly the region, with one transaction for every page it touches.
  lemma {:induction false} WriteBlockIsSplice(g: Geometry, d: Device, bank: nat, a: nat, buf: seq<u8>)
    requires Fits(g, d) && InBank(g, bank, a, |buf|) && a + |buf| <= |d.mem|
    ensures WriteBlock(g, d, bank, a, buf)
         == Device(Splice(d.mem, a, buf), d.writes + PagesTouched(a, |buf|, g.page))
    decreases |buf|
  {
    hide WriteChunk, PagesTouched, Splice;
    if buf == [] {
      NothingSpliced(g, d, a);
    } else {
      var k := Chunk(g, a, |buf|);
      ChunkLands(g, d, bank, a, buf[..k]);
      WriteBlockIsSplice(g, WriteChunk(g, d, bank, a, buf[..k]), bank, a + k, buf[k..]);
      SpliceTwice(d.mem, a, buf[..k], buf[k..]);
      assert buf[..k] + buf[k..] == buf;
      ChunkTakesOnePage(a, |buf|, k, g.page);
    }
  }

  lemma NothingSpliced(g: Geometry, d: Device, a: nat)
    requires g.Valid() && a <= |d.mem|
    ensures Splice(d.mem, a, []) == d.mem && PagesTouched(a, 0, g.page) == 0
  {
  }

  // ---- Regions that leave their bank ------------------------------------------------------------------

  // A transaction reaches no byte outside the bank it selects.
  lemma {:induction false} WriteStaysInPage(mem: seq<u8>, page: nat, a: nat, d: seq<u8>, i: nat)
    requires page > 0 && |mem| % page == 0 && a < |mem| && i < |mem| && i / page != a / page
    ensures PageWrite(mem, page, a, d)[i] == mem[i]
    decreases |d|
  {
    if d != [] {
      NextStaysInMemory(a, page, |mem|);
      NextStaysInPage(a, page);
      WriteStaysInPage(mem[a := d[0]], page, NextInPage(a, page), d[1..], i);
    }
  }

  lemma NextStaysInPage(a: nat, page: nat)
    requires page > 0
    ensures NextInPage(a, page) / page == a / page
  {
    if a % page == page - 1 {
      DivModUnique(a - a % page, a / page, 0, page);
    } else {
      StepInPage(a, 1, page);
    }
  }

  // Whole pages per bank, as with page sizes that are powers of two.
  predicate WholePages(g: Geometry) {
    g.Valid() && g.Window() % g.page == 0
  }

  lemma PageOfBank(g: Geometry, bank: nat, a: nat)
    requires WholePages(g) && bank * g.Window() <= a < (bank + 1) * g.Window()
    ensures a / g.page < (bank + 1) * (g.Window() / g.page)
  {
    var w, n := g.Window(), g.Window() / g.page;
    assert w == n * g.page;
    Associate(bank + 1, n, g.page);
    if a / g.page >= (bank + 1) * n {
      Scale((bank + 1) * n, a / g.page, g.page);
    }
  }

  lemma Associate(a: nat, b: nat, c: nat)
    ensures a * (b * c) == (a * b) * c
  {
  }

  lemma FirstByteAfterBank(g: Geometry, bank: nat)
    requires WholePages(g)
    ensures ((bank + 1) * g.Window()) / g.page == (bank + 1) * (g.Window() / g.page)
  {
    var n := g.Window() / g.page;
    Associate(bank + 1, n, g.page);
    DivModUnique((bank + 1) * g.Window(), (bank + 1) * n, 0, g.page);
  }

  lemma LocationBelow(g: Geometry, bank: nat, a: nat)
    ensures bank * g.Window() <= Location(g, bank, AddressBytes(a, g.addressSize)) < (bank + 1) * g.Window()
  {
    AddressOfBytes(a, g.addressSize);
    OneMoreTimes(bank, g.Window());
  }

  lemma {:induction false} LaterBanksUntouched(g: Geometry, d: Device, bank: nat, a: nat, buf: seq<u8>, i: nat)
    requires Fits(g, d) && WholePages(g) && (bank + 1) * g.Window() <= i < |d.mem|
    ensures WriteBlock(g, d, bank, a, buf).mem[i] == d.mem[i]
    decreases |buf|
  {
    if buf != [] {
      var k := Chunk(g, a, |buf|);
      var at := Location(g, bank, AddressBytes(a, g.addressSize));
      LocationBelow(g, bank, a);
      PageOfBank(g, bank, at);
      FirstByteAfterBank(g, bank);
      Ascending((bank + 1) * g.Window(), i, g.page);
      WriteStaysInPage(d.mem, g.page, at, buf[..k], i);
      LaterBanksUntouched(g, WriteChunk(g, d, bank, a, buf[..k]), bank, a + k, buf[k..], i);
    }
  }

  // The bus address is worked out from the start of the block only, so a block is written faithfully,
  // whatever it and the memory hold, exactly when it ends in the bank it starts in.
  lemma FaithfulIffOneBank(g: Geometry, size: nat, bank: nat, a: nat, n: nat)
    requires WholePages(g) && size % g.page == 0 && a + n <= size
    requires bank * g.Window() <= a < (bank + 1) * g.Window()
    ensures InBank(g, bank, a, n)
       <==> forall mem: seq<u8>, buf: seq<u8> :: |mem| == size && |buf| == n ==>
              WriteBlock(g, Device(mem, 0), bank, a, buf).mem == Splice(mem, a, buf)
  {
    if InBank(g, bank, a, n) {
      forall mem: seq<u8>, buf: seq<u8> | |mem| == size && |buf| == n
        ensures WriteBlock(g, Device(mem, 0), bank, a, buf).mem == Splice(mem, a, buf)
      {
        WriteBlockIsSplice(g, Device(mem, 0), bank, a, buf);
      }
    } else {
      var mem := seq(size, _ => 0 as u8);
      var buf := seq(n, _ => 1 as u8);
      var border := (bank + 1) * g.Window();
      LaterBanksUntouched(g, Device(mem, 0), bank, a, buf, border);
      assert Splice(mem, a, buf)[border] == 1;
    }
  }

  // ---- Update and erase -------------------------------------------------------------------------------

  // eeprom_update_block; `stale` is what its buffer holds before the read.
  function UpdateBlock(g: Geometry, d: Device, bank: nat, a: nat, buf: seq<u8>, stale: seq<u8>): (d': Device)
    requires Fits(g, d) && |stale| == |buf|
  {
    if ReadFrom(d.mem, Location(g, bank, AddressBytes(a, g.addressSize)), stale) != buf
    then WriteBlock(g, d, bank, a, buf) else d
  }

  // The memory ends up as after a write, and nothing is sent when it already was so.
  lemma UpdateIsWrite(g: Geometry, d: Device, bank: nat, a: nat, buf: seq<u8>, stale: seq<u8>)
    requires Fits(g, d) && InBank(g, bank, a, |buf|) && a + |buf| <= |d.mem| && |stale| == |buf|
    ensures UpdateBlock(g, d, bank, a, buf, stale).mem == WriteBlock(g, d, bank, a, buf).mem == Splice(d.mem, a, buf)
    ensures UpdateBlock(g, d, bank, a, buf, stale).writes
         == d.writes + if Splice(d.mem, a, buf) == d.mem then 0 else PagesTouched(a, |buf|, g.page)
  {
    hide Location;
    if buf != [] {
      LocationInBank(g, bank, a);
      ReadRegion(d.mem, a, stale);
    }
    WriteBlockIsSplice(g, d, bank, a, buf);
    SpliceRead(d.mem, a, buf);
    SpliceSame(d.mem, a, |buf|);
  }

  // A whole page goes out in one transaction, whichever bank it lies in.
  lemma WholePageLands(g: Geometry, d: Device, bank: nat, a: nat, data: seq<u8>)
    requires Fits(g, d) && |data| == g.page && a % g.page == 0
    requires InBank(g, bank, a, 1) && a + |data| <= |d.mem|
    ensures WriteBlock(g, d, bank, a, data) == Device(Splice(d.mem, a, data), d.writes + 1)
  {
    hide WriteChunk;
    ChunkLands(g, d, bank, a, data);
    assert Chunk(g, a, |data|) == |data|;
    assert data[..|data|] == data && data[|data|..] == [];
  }

  // What an update over SPI leaves when all its writes get through. A read that fails fills the buffer with
  // zeros and is not reported.
  function SpiUpdated(mem: seq<u8>, a: nat, buf: seq<u8>, readOk: bool): seq<u8>
    requires a + |buf| <= |mem|
  {
    if (if readOk then mem[a..a + |buf|] else Zeros(|buf|)) != buf then Splice(mem, a, buf) else mem
  }

  // So the update is lost exactly when the read fails, only zeros were to be written, and the memory holds
  // something else.
  lemma SpiUpdateLostIff(mem: seq<u8>, a: nat, buf: seq<u8>, readOk: bool)
    requires a + |buf| <= |mem|
    ensures SpiUpdated(mem, a, buf, readOk) != Splice(mem, a, buf)
       <==> !readOk && buf == Zeros(|buf|) && mem[a..a + |buf|] != buf
  {
    SpliceRead(mem, a, buf);
    SpliceSame(mem, a, |buf|);
  }
}
