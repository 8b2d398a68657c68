// A serial EEPROM as its driver meets it: bytes in pages, where one write transaction wraps around
// inside the page it starts in.
module PagedMemory {
  import opened Clock

  // Memory with the bytes from a on replaced by d.
  function Splice(mem: seq<u8>, a: nat, d: seq<u8>): (m: seq<u8>)
    requires a + |d| <= |mem|
    ensures |m| == |mem|
  {
    mem[..a] + d + mem[a + |d|..]
  }

  lemma SpliceTwice(mem: seq<u8>, a: nat, d: seq<u8>, e: seq<u8>)
    requires a + |d| + |e| <= |mem|
    ensures Splice(Splice(mem, a, d), a + |d|, e) == Splice(mem, a, d + e)
  {
    var x := Splice(Splice(mem, a, d), a + |d|, e);
    var y := Splice(mem, a, d + e);
    forall i | 0 <= i < |mem| ensures x[i] == y[i] {
    }
  }

  // Splicing in a prefix and then the slice that follows it.
  lemma SpliceOn(mem: seq<u8>, a: nat, buf: seq<u8>, i: nat, k: nat)
    requires i + k <= |buf| && a + i + k <= |mem|
    ensures Splice(Splice(mem, a, buf[..i]), a + i, buf[i..i + k]) == Splice(mem, a, buf[..i + k])
  {
    assert buf[..i] + buf[i..i + k] == buf[..i + k];
    SpliceTwice(mem, a, buf[..i], buf[i..i + k]);
  }

  lemma SliceOn<T>(buf: seq<T>, i: nat, k: nat, n: nat)
    requires i + k <= n <= |buf|
    ensures buf[i..n][..k] == buf[i..i + k] && buf[i..n][k..] == buf[i + k..n]
  {
  }

  lemma SpliceRead(mem: seq<u8>, a: nat, d: seq<u8>)
    requires a + |d| <= |mem|
    ensures Splice(mem, a, d)[a..a + |d|] == d
  {
  }

  lemma SpliceSame(mem: seq<u8>, a: nat, n: nat)
    requires a + n <= |mem|
    ensures Splice(mem, a, mem[a..a + n]) == mem
  {
  }

  // ---- Pages ----------------------------------------------------------------------------------------

  lemma DivModUnique(a: nat, q: nat, r: nat, page: nat)
    requires r < page && a == q * page + r
    ensures a / page == q && a % page == r
  {
    var q' := a / page;
    assert a == q' * page + a % page;
    if q < q' {
      Scale(q + 1, q', page);
    } else if q' < q {
      Scale(q' + 1, q, page);
    }
  }

  lemma Scale(a: nat, b: nat, n: nat)
    requires a <= b
    ensures a * n <= b * n
  {
  }

  // Moving on inside a page, up to its end.
  lemma StepInPage(a: nat, k: nat, page: nat)
    requires page > 0 && a % page + k <= page
    ensures a % page + k < page ==> (a + k) / page == a / page && (a + k) % page == a % page + k
    ensures a % page + k == page ==> (a + k) / page == a / page + 1 && (a + k) % page == 0
  {
    var q, r := a / page, a % page;
    assert a == q * page + r;
    if r + k < page {
      DivModUnique(a + k, q, r + k, page);
    } else {
      assert (q + 1) * page == q * page + page;
      DivModUnique(a + k, q + 1, 0, page);
    }
  }

  // Where the device's address counter goes after address a.
  function NextInPage(a: nat, page: nat): nat
    requires page > 0
  {
    if a % page == page - 1 then a - a % page else a + 1
  }

  lemma NextStaysInMemory(a: nat, page: nat, size: nat)
    requires page > 0 && size % page == 0 && a < size
    ensures NextInPage(a, page) < size
  {
    if a % page != page - 1 && a + 1 == size {
      StepInPage(a, 1, page);
    }
  }

  // What one write transaction does to memory.
  function PageWrite(mem: seq<u8>, page: nat, a: nat, d: seq<u8>): (m: seq<u8>)
    requires page > 0 && |mem| % page == 0 && a < |mem|
    ensures |m| == |mem|
    decreases |d|
  {
    if d == [] then mem
    else
      NextStaysInMemory(a, page, |mem|);
      PageWrite(mem[a := d[0]], page, NextInPage(a, page), d[1..])
  }

  // A write that ends within its page is a plain one.
  lemma {:induction false} WriteWithinPage(mem: seq<u8>, page: nat, a: nat, d: seq<u8>)
    requires page > 0 && |mem| % page == 0 && a < |mem| && a % page + |d| <= page
    ensures a + |d| <= |mem|
    ensures PageWrite(mem, page, a, d) == Splice(mem, a, d)
    decreases |d|
  {
    if d == [] {
    } else {
      NextStaysInMemory(a, page, |mem|);
      if |d| == 1 {
        assert d[1..] == [];
        assert PageWrite(mem[a := d[0]], page, NextInPage(a, page), d[1..]) == mem[a := d[0]];
        assert mem[a := d[0]] == Splice(mem, a, d);
      } else {
        StepInPage(a, 1, page);
        WriteWithinPage(mem[a := d[0]], page, a + 1, d[1..]);
        assert mem[a := d[0]] == Splice(mem, a, [d[0]]);
        SpliceTwice(mem, a, [d[0]], d[1..]);
        assert [d[0]] + d[1..] == d;
      }
    }
  }

  // Pages that a region of n bytes from a touches.
  function PagesTouched(a: nat, n: nat, page: nat): nat
    requires page > 0
  {
    if n == 0 then 0 else (a + n - 1) / page - a / page + 1
  }

  // Taking a first chunk up to the end of its page leaves one page fewer.
  lemma ChunkTakesOnePage(a: nat, n: nat, chunk: nat, page: nat)
    requires page > 0 && n > 0 && chunk == (if page - a % page > n then n else page - a % page)
    ensures PagesTouched(a, n, page) == 1 + PagesTouched(a + chunk, n - chunk, page)
  {
    StepInPage(a, chunk - 1, page);
    StepInPage(a, chunk, page);
    if n > chunk {
      Ascending(a + chunk, a + n - 1, page);
    }
  }

  lemma Ascending(a: nat, b: nat, page: nat)
    requires page > 0 && a <= b
    ensures a / page <= b / page
  {
    OneMoreTimes(b / page, page);
    if b / page < a / page {
      Scale(b / page + 1, a / page, page);
    }
  }

  lemma OneMoreTimes(q: nat, n: nat)
    ensures (q + 1) * n == q * n + n
  {
  }

  // ---- Addresses on the wire --------------------------------------------------------------------------

  function Pow256(n: nat): (w: nat)
    ensures w > 0
  {
    if n == 0 then 1 else 256 * Pow256(n - 1)
  }

  // The number a big-endian byte string stands for.
  function BigEndian(bytes: seq<u8>): nat {
    if bytes == [] then 0 else 256 * BigEndian(bytes[..|bytes| - 1]) + bytes[|bytes| - 1]
  }

  // The low n bytes of p, most significant first.
  function AddressBytes(p: nat, n: nat): (b: seq<u8>)
    ensures |b| == n
  {
    if n == 0 then [] else AddressBytes(p / 256, n - 1) + [p % 256]
  }

  lemma {:induction false} AddressOfBytes(p: nat, n: nat)
    ensures BigEndian(AddressBytes(p, n)) == p % Pow256(n)
  {
    if n > 0 {
      AddressOfBytes(p / 256, n - 1);
      var b := AddressBytes(p / 256, n - 1);
      assert (b + [p % 256])[..n - 1] == b;
      SplitMod(p, Pow256(n - 1));
    }
  }

  lemma SplitMod(p: nat, w: nat)
    requires w > 0
    ensures 256 * ((p / 256) % w) + p % 256 == p % (256 * w)
  {
    var q, r := (p / 256) / w, (p / 256) % w;
    assert p / 256 == q * w + r;
    assert p == 256 * (q * w + r) + p % 256;
    assert 256 * (q * w + r) == q * (256 * w) + 256 * r by {
      Regroup(q, w, r);
    }
    DivModUnique(p, q, 256 * r + p % 256, 256 * w);
  }

  lemma Regroup(q: nat, w: nat, r: nat)
    ensures 256 * (q * w + r) == q * (256 * w) + 256 * r
  {
    assert q * (256 * w) == 256 * (q * w);
  }

  // ---- Reading ------------------------------------------------------------------------------------------

  // What a read from location `at` leaves in a buffer: the device's address counter runs on through the
  // memory and starts over at its end; a location outside the memory is not answered.
  function ReadFrom(mem: seq<u8>, at: nat, buffer: seq<u8>): (b: seq<u8>)
    ensures |b| == |buffer|
  {
    if at < |mem| then seq(|buffer|, i requires 0 <= i < |buffer| => mem[(at + i) % |mem|]) else buffer
  }

  lemma ReadRegion(mem: seq<u8>, at: nat, buffer: seq<u8>)
    requires at + |buffer| <= |mem|
    ensures ReadFrom(mem, at, buffer) == mem[at..at + |buffer|]
  {
    forall i | 0 <= i < |buffer| ensures ReadFrom(mem, at, buffer)[i] == mem[at + i] {
      DivModUnique(at + i, 0, at + i, |mem|);
    }
  }

  function Zeros(n: nat): (z: seq<u8>)
    ensures |z| == n && forall i :: 0 <= i < n ==> z[i] == 0
  {
    seq(n, _ => 0)
  }
}
