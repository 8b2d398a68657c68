// drivers/eeprom as it runs: the I2C and SPI drivers with their packet buffers and chunk loops, over a
// device whose memory they change.
module EepromDriver {
  import opened Clock
  import opened PagedMemory
  import opened EepromWrite

  // fill_target_address, and the loop of spi_eeprom_transmit_address
  method FillTargetAddress(buffer: array<u8>, addr: nat, size: nat)
    requires size <= buffer.Length
    modifies buffer
    ensures buffer[..size] == AddressBytes(addr, size) && buffer[size..] == old(buffer[size..])
  {
    var p := addr;
    var i := 0;
    assert buffer[size..size] == [];
    while i < size
      invariant i <= size
      invariant AddressBytes(addr, size) == AddressBytes(p, size - i) + buffer[size - i..size]
      invariant buffer[size..] == old(buffer[size..])
    {
      ghost var tail := buffer[size - i..size];
      assert AddressBytes(p, size - i) == AddressBytes(p / 256, size - i - 1) + [p % 256];
      buffer[size - 1 - i] := p % 256;
      assert buffer[size - i - 1..size] == [p % 256] + tail;
      p := p / 256;
      i := i + 1;
    }
  }

  function Quotient(a: nat, w: nat): nat
    requires w > 0
  {
    a / w
  }

  class I2cEeprom {
    const g: Geometry
    // Whether the bus address carries the part of the location above the address bytes.
    const banked: bool
    var mem: seq<u8>
    var writes: nat

    ghost predicate Valid()
      reads this
    {
      Fits(g, Device(mem, writes)) && g.page <= 255
    }

    function Bank(addr: nat): nat {
      if banked then Quotient(addr, g.Window()) else 0
    }

    ghost function State(): Device
      reads this
    {
      Device(mem, writes)
    }

    // i2c_transmit of a write packet: address bytes, then data.
    method I2cTransmit(bank: nat, packet: array<u8>, length: nat)
      requires Valid() && g.addressSize <= length <= packet.Length
      modifies this
      ensures Valid()
      ensures State() == Transmit(g, old(State()), bank, packet[..g.addressSize], packet[g.addressSize..length])
    {
      var at := Location(g, bank, packet[..g.addressSize]);
      if at < |mem| {
        mem := PageWrite(mem, g.page, at, packet[g.addressSize..length]);
      }
      writes := writes + 1;
    }

    // Where the device looks for the address.
    function Target(addr: nat): nat { Location(g, Bank(addr), AddressBytes(addr, g.addressSize)) }

    // eeprom_read_block
    method ReadBlock(buf: array<u8>, addr: nat, length: nat)
      requires Valid() && length <= buf.Length
      modifies buf
      ensures buf[..length] == ReadFrom(mem, Target(addr), old(buf[..length])) && buf[length..] == old(buf[length..])
    {
      hide Location, Bank;
      var packet := new u8[g.addressSize];
      FillTargetAddress(packet, addr, g.addressSize);
      assert packet[..g.addressSize] == packet[..];
      var at := Location(g, Bank(addr), packet[..]);
      assert at == Target(addr);
      Receive(buf, at, length);
    }

    // i2c_receive
    method Receive(buf: array<u8>, at: nat, length: nat)
      requires length <= buf.Length
      modifies buf
      ensures buf[..length] == ReadFrom(mem, at, old(buf[..length])) && buf[length..] == old(buf[length..])
    {
      if at >= |mem| {
        return;
      }
      ghost var want := ReadFrom(mem, at, buf[..length]);
      var i := 0;
      while i < length
        invariant i <= length
        invariant buf[..i] == want[..i] && buf[length..] == old(buf[length..])
      {
        buf[i] := mem[(at + i) % |mem|];
        i := i + 1;
      }
    }

    // eeprom_write_block
    method WriteBlock(buf: array<u8>, addr: nat, length: nat)
      requires Valid() && length <= buf.Length
      modifies this
      ensures Valid()
      ensures State() == EepromWrite.WriteBlock(g, old(State()), Bank(addr), addr, buf[..length])
    {
      var packet := new u8[g.addressSize + g.page];
      ghost var data := buf[..];
      hide EepromWrite.WriteBlock;
      assert data[0..length] == buf[..length];
      WriteChunks(Bank(addr), buf, addr, length, packet, data);
    }

    // Its loop.
    method WriteChunks(bank: nat, buf: array<u8>, addr: nat, length: nat, packet: array<u8>, ghost data: seq<u8>)
      requires Valid() && length <= buf.Length && buf[..] == data
      requires packet.Length == g.addressSize + g.page && packet != buf
      modifies this, packet
      ensures Valid()
      ensures State() == EepromWrite.WriteBlock(g, old(State()), bank, addr, data[0..length])
    {
      var readBuf: nat := 0;
      var target: nat := addr;
      var left: nat := length;
      ghost var want := Onward(State(), bank, addr, data, 0, length);
      OnwardIs(State(), bank, addr, data, length);
      hide Fits, EepromWrite.WriteBlock, Onward;
      while left > 0
        invariant Valid() && readBuf + left == length
        invariant Onward(State(), bank, target, data, readBuf, length) == want
      {
        var chunk := WriteTurn(bank, buf, readBuf, target, left, packet, data);
        readBuf := readBuf + chunk;
        target := target + chunk;
        left := left - chunk;
      }
      OnwardIs(State(), bank, target, data, length);
    }

    // What writing the data from i up to n does.
    ghost function Onward(d: Device, bank: nat, target: nat, data: seq<u8>, i: nat, n: nat): Device
      requires Fits(g, d) && i <= n <= |data|
    {
      EepromWrite.WriteBlock(g, d, bank, target, data[i..n])
    }

    lemma OnwardIs(d: Device, bank: nat, target: nat, data: seq<u8>, n: nat)
      requires Fits(g, d) && n <= |data|
      ensures Onward(d, bank, target, data, 0, n) == EepromWrite.WriteBlock(g, d, bank, target, data[0..n])
      ensures Onward(d, bank, target, data, n, n) == d
    {
      hide EepromWrite.WriteBlock;
      WriteBlockEnd(g, d, bank, target, data, n);
    }

    // One turn of the loop of eeprom_write_block, seen as what is left to do.
    method WriteTurn(bank: nat, buf: array<u8>, readBuf: nat, target: nat, left: nat, packet: array<u8>,
                     ghost data: seq<u8>)
      returns (chunk: nat)
      requires Valid() && readBuf + left <= buf.Length && left > 0 && buf[..] == data
      requires packet.Length == g.addressSize + g.page && packet != buf
      modifies this, packet
      ensures Valid() && 0 < chunk <= left
      ensures Onward(State(), bank, target + chunk, data, readBuf + chunk, readBuf + left)
           == Onward(old(State()), bank, target, data, readBuf, readBuf + left)
    {
      hide EepromWrite.WriteBlock, WriteChunk, Chunk;
      chunk := SendChunk(bank, buf, readBuf, target, left, packet);
      assert buf[readBuf..readBuf + chunk] == data[readBuf..readBuf + chunk];
      WriteBlockTurn(g, old(State()), bank, target, data, readBuf, readBuf + left, chunk, State());
    }

    // Fill the packet with the address and the next chunk, and send it.
    method SendChunk(bank: nat, buf: array<u8>, readBuf: nat, target: nat, left: nat, packet: array<u8>)
      returns (chunk: nat)
      requires Valid() && readBuf + left <= buf.Length && left > 0
      requires packet.Length == g.addressSize + g.page && packet != buf
      modifies this, packet
      ensures Valid() && chunk == Chunk(g, target, left)
      ensures State() == WriteChunk(g, old(State()), bank, target, buf[readBuf..readBuf + chunk])
    {
      hide EepromWrite.Transmit;
      var offset := target % g.page;
      chunk := g.page - offset;
      if chunk > left {
        chunk := left;
      }
      FillTargetAddress(packet, target, g.addressSize);
      CopyChunk(buf, readBuf, packet, chunk);
      I2cTransmit(bank, packet, g.addressSize + chunk);
    }

    // The copy loop; its counter has eight bits, which is why a chunk may not exceed 255 bytes.
    method CopyChunk(buf: array<u8>, from: nat, packet: array<u8>, chunk: nat)
      requires g.page <= 255 && chunk <= g.page && from + chunk <= buf.Length
      requires packet.Length == g.addressSize + g.page && packet != buf
      modifies packet
      ensures packet[..g.addressSize] == old(packet[..g.addressSize])
      ensures packet[g.addressSize..g.addressSize + chunk] == buf[from..from + chunk]
    {
      var i: u8 := 0;
      while i < chunk
        invariant i <= chunk
        invariant packet[..g.addressSize] == old(packet[..g.addressSize])
        invariant packet[g.addressSize..g.addressSize + i] == buf[from..from + i]
      {
        packet[g.addressSize + i] := buf[from + i];
        i := (i + 1) % 256;
      }
    }

    // eeprom_update_block; its buffer starts out with whatever the stack holds.
    method UpdateBlock(buf: array<u8>, addr: nat, length: nat, stale: seq<u8>)
      requires Valid() && length <= buf.Length && |stale| == length
      modifies this
      ensures Valid()
      ensures State() == EepromWrite.UpdateBlock(g, old(State()), Bank(addr), addr, buf[..length], stale)
    {
      hide EepromWrite.WriteBlock, ReadFrom;
      var current := new u8[length](i requires 0 <= i < length => stale[i]);
      assert current[..length] == stale;
      ReadBlock(current, addr, length);
      if buf[..length] != current[..length] {
        WriteBlock(buf, addr, length);
      }
    }

    // eeprom_driver_erase: it reaches every byte exactly when the bus address carries what the address
    // bytes leave out, or nothing is left out.
    method Erase()
      requires Valid()
      modifies this
      ensures Valid() && |mem| == old(|mem|)
      ensures banked || |mem| <= g.Window() ==> forall i :: 0 <= i < |mem| ==> mem[i] == 0
      ensures !banked && WholePages(g) ==> forall i :: g.Window() <= i < |mem| ==> mem[i] == old(mem[i])
    {
      var buf := new u8[g.page](_ => 0);
      var addr: nat := 0;
      while addr < |mem|
        invariant Valid() && |mem| == old(|mem|) && addr % g.page == 0 && addr <= |mem|
        invariant forall i :: 0 <= i < g.page ==> buf[i] == 0
        invariant banked || |mem| <= g.Window() ==> forall i :: 0 <= i < addr ==> mem[i] == 0
        invariant !banked && WholePages(g) ==> forall i :: g.Window() <= i < |mem| ==> mem[i] == old(mem[i])
        decreases |mem| - addr
      {
        WholePageFits(addr, |mem|, g.page);
        ErasePage(buf, addr);
        StepInPage(addr, g.page, g.page);
        addr := addr + g.page;
      }
    }

    method ErasePage(buf: array<u8>, addr: nat)
      requires Valid() && buf.Length == g.page && addr % g.page == 0 && addr + buf.Length <= |mem|
      modifies this
      ensures Valid() && |mem| == old(|mem|)
      ensures banked || |mem| <= g.Window() ==> mem == Splice(old(mem), addr, buf[..])
      ensures !banked && WholePages(g) ==> forall i :: g.Window() <= i < |mem| ==> mem[i] == old(mem[i])
    {
      hide EepromWrite.WriteBlock, WholePages;
      ghost var before := State();
      assert buf[..g.page] == buf[..];
      if banked || |mem| <= g.Window() {
        BankOf(addr);
        WholePageLands(g, before, Bank(addr), addr, buf[..]);
      }
      if !banked && WholePages(g) {
        forall i | g.Window() <= i < |mem|
          ensures EepromWrite.WriteBlock(g, before, 0, addr, buf[..]).mem[i] == before.mem[i]
        {
          LaterBanksUntouched(g, before, 0, addr, buf[..], i);
        }
      }
      WriteBlock(buf, addr, g.page);
    }

    lemma BankOf(addr: nat)
      requires banked || addr < g.Window()
      ensures InBank(g, Bank(addr), addr, 1)
    {
      hide Pow256;
      if banked {
        AddressInWindow(addr, g.Window());
      }
    }
  }

  // What may stop an SPI write before the n-th chunk is sent: the busy wait, the start of the
  // write-enable command, or the start of the write itself.
  datatype Stage = Busy | Enable | Write

  // Address a begins a page.
  predicate PageStart(a: nat, page: nat)
    requires page > 0
  {
    a % page == 0
  }

  // The n bytes from a on lie in one page.
  predicate InOnePage(a: nat, n: nat, page: nat)
    requires page > 0
  {
    a % page + n <= page
  }

  class SpiEeprom {
    const g: Geometry
    var mem: seq<u8>
    var writes: nat
    // The write-enable latch: set by WREN, cleared by a write and by WRDI.
    var enabled: bool

    ghost predicate Valid()
      reads this
    {
      Fits(g, Device(mem, writes)) && |mem| <= g.Window()
    }

    // CMD_WRITE, address, data: taken only while the latch is set.
    method SpiWrite(target: nat, data: seq<u8>)
      requires Valid()
      modifies this
      ensures Valid() && !enabled
      ensures Device(mem, writes)
           == if old(enabled) then WriteChunk(g, old(Device(mem, writes)), 0, target, data)
              else old(Device(mem, writes))
    {
      var address := new u8[g.addressSize];
      FillTargetAddress(address, target, g.addressSize);
      assert address[..g.addressSize] == address[..];
      if enabled {
        var at := Location(g, 0, address[..]);
        if at < |mem| {
          mem := PageWrite(mem, g.page, at, data);
        }
        writes := writes + 1;
      }
      enabled := false;
    }

    // eeprom_write_block. The n-th chunk passes a stage when passes(n, stage) says so.
    method WriteBlock(buf: array<u8>, addr: nat, length: nat, passes: (nat, Stage) -> bool)
      returns (ghost written: nat, ghost chunks: nat)
      requires Valid() && length <= buf.Length && addr + length <= |mem|
      modifies this
      ensures Valid() && written <= length
      ensures mem == Splice(old(mem), addr, buf[..written])
      ensures chunks == PagesTouched(addr, written, g.page) && writes == old(writes) + chunks
      ensures forall n :: 0 <= n < chunks ==> passes(n, Busy) && passes(n, Enable) && passes(n, Write)
      ensures written < length ==> !(passes(chunks, Busy) && passes(chunks, Enable) && passes(chunks, Write))
      ensures 0 < written < length ==> PageStart(addr + written, g.page)
    {
      NothingSpliced(g, Device(mem, writes), addr);
      hide PagesTouched, Splice, Fits, PageStart, InOnePage;
      var readBuf: nat := 0;
      var target: nat := addr;
      var left: nat := length;
      var n: nat := 0;
      ghost var data := buf[..];
      assert data[..0] == [];
      while left > 0
        invariant Valid() && |mem| == old(|mem|) && readBuf + left == length && target == addr + readBuf
        invariant buf[..] == data && mem == Splice(old(mem), addr, data[..readBuf])
        invariant writes == old(writes) + n && n == PagesTouched(addr, readBuf, g.page)
        invariant forall m :: 0 <= m < n ==> passes(m, Busy) && passes(m, Enable) && passes(m, Write)
        invariant 0 < readBuf < length ==> PageStart(target, g.page)
      {
        written, chunks := readBuf, n;
        if !passes(n, Busy) {
          return;
        }
        if !passes(n, Enable) {
          return;
        }
        enabled := true;
        if !passes(n, Write) {
          return;
        }
        var chunk := SendOn(buf, addr, readBuf, left, old(mem), data);
        readBuf := readBuf + chunk;
        target := target + chunk;
        left := left - chunk;
        n := n + 1;
      }
      written, chunks := length, n;
      enabled := false;
    }

    // eeprom_read_block; `ok` says whether the busy wait and the start of the read succeed.
    method ReadBlock(buf: array<u8>, addr: nat, ok: bool)
      requires Valid() && addr + buf.Length <= |mem|
      modifies buf
      ensures buf[..] == if ok then mem[addr..addr + buf.Length] else Zeros(buf.Length)
    {
      if !ok {
        for i := 0 to buf.Length
          invariant forall j :: 0 <= j < i ==> buf[j] == 0
        {
          buf[i] := 0;
        }
        return;
      }
      for i := 0 to buf.Length
        invariant buf[..i] == mem[addr..addr + i]
      {
        buf[i] := mem[addr + i];
      }
    }

    // eeprom_update_block
    method UpdateBlock(buf: array<u8>, addr: nat, length: nat, readOk: bool, passes: (nat, Stage) -> bool)
      requires Valid() && length <= buf.Length && addr + length <= |mem|
      modifies this
      ensures Valid()
      ensures (forall n, stage :: passes(n, stage)) ==> mem == SpiUpdated(old(mem), addr, buf[..length], readOk)
      ensures mem == old(mem)
           || exists written: nat :: written <= length && mem == Splice(old(mem), addr, buf[..written])
    {
      hide Splice, Fits;
      var current := new u8[length];
      ReadBlock(current, addr, readOk);
      if buf[..length] != current[..] {
        ghost var written, chunks := WriteBlock(buf, addr, length, passes);
      }
    }

    // The next chunk of a block of which the first readBuf bytes have been written.
    method SendOn(buf: array<u8>, addr: nat, readBuf: nat, left: nat, ghost before: seq<u8>, ghost data: seq<u8>)
      returns (chunk: nat)
      requires Valid() && enabled && left > 0 && readBuf + left <= buf.Length && addr + readBuf + left <= |mem|
      requires buf[..] == data && |before| == |mem| && mem == Splice(before, addr, data[..readBuf])
      requires readBuf > 0 ==> PageStart(addr + readBuf, g.page)
      modifies this
      ensures Valid() && |mem| == old(|mem|) && 0 < chunk <= left && writes == old(writes) + 1
      ensures mem == Splice(before, addr, data[..readBuf + chunk])
      ensures PagesTouched(addr, readBuf + chunk, g.page) == PagesTouched(addr, readBuf, g.page) + 1
      ensures chunk < left ==> PageStart(addr + readBuf + chunk, g.page)
    {
      hide PagesTouched, Splice, PageStart, InOnePage;
      chunk := SendChunk(buf, readBuf, addr + readBuf, left);
      assert buf[readBuf..readBuf + chunk] == data[readBuf..readBuf + chunk];
      SpliceOn(before, addr, data, readBuf, chunk);
      ChunkAddsOnePage(addr, readBuf, chunk, g.page);
    }

    method SendChunk(buf: array<u8>, readBuf: nat, target: nat, left: nat) returns (chunk: nat)
      requires Valid() && enabled && left > 0 && readBuf + left <= buf.Length && target + left <= |mem|
      modifies this
      ensures Valid() && |mem| == old(|mem|) && 0 < chunk <= left && writes == old(writes) + 1
      ensures InOnePage(target, chunk, g.page) && (chunk < left ==> PageStart(target + chunk, g.page))
      ensures mem == Splice(old(mem), target, buf[readBuf..readBuf + chunk])
    {
      var offset := target % g.page;
      chunk := g.page - offset;
      if chunk > left {
        chunk := left;
      }
      PageEnd(target, chunk, g.page);
      ChunkLands(g, Device(mem, writes), 0, target, buf[readBuf..readBuf + chunk]);
      SpiWrite(target, buf[readBuf..readBuf + chunk]);
    }
  }

  // A further chunk that starts a new page touches one page more.
  lemma ChunkAddsOnePage(a: nat, done: nat, chunk: nat, page: nat)
    requires page > 0 && chunk > 0 && InOnePage(a + done, chunk, page)
    requires done > 0 ==> PageStart(a + done, page)
    ensures PagesTouched(a, done + chunk, page) == PagesTouched(a, done, page) + 1
  {
    StepInPage(a + done, chunk - 1, page);
    if done > 0 {
      StepInPage(a + done - 1, 1, page);
    }
  }

  lemma PageEnd(a: nat, chunk: nat, page: nat)
    requires page > 0 && a % page + chunk <= page
    ensures a % page + chunk == page ==> PageStart(a + chunk, page)
  {
    StepInPage(a, chunk, page);
  }

  lemma AddressInWindow(a: nat, w: nat)
    requires w > 0
    ensures Quotient(a, w) * w <= a && a + 1 <= (Quotient(a, w) + 1) * w
  {
    OneMoreTimes(a / w, w);
    assert a == (a / w) * w + a % w;
  }

  lemma WholePageFits(a: nat, size: nat, page: nat)
    requires page > 0 && a % page == 0 && size % page == 0 && a < size
    ensures a + page <= size
  {
    assert a == (a / page) * page && size == (size / page) * page;
    if size / page <= a / page {
      Scale(size / page, a / page, page);
    }
    Scale(a / page + 1, size / page, page);
    OneMoreTimes(a / page, page);
  }
}
