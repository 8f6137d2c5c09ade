/** ADMA2 descriptor chains of soc/microchip/sdhci/adma.go, and what a
    controller that walks them transfers (section 1.13 of the SD Host Controller
    Simplified Specification 3.00). */
module Adma {
  import opened Bits
  import opened Wire

  /** Physical memory; an address never written reads as zero. */
  type Memory = map<nat, byte>

  function Load(mem: Memory, addr: nat, n: nat): (b: seq<byte>)
    ensures |b| == n
    ensures forall i :: 0 <= i < n ==> b[i] == if addr + i in mem then mem[addr + i] else 0
  {
    seq(n, i requires 0 <= i < n => if addr + i in mem then mem[addr + i] else 0)
  }

  function Store(mem: Memory, addr: nat, b: seq<byte>): (r: Memory)
    ensures forall a: nat :: a in r <==> a in mem || addr <= a < addr + |b|
    ensures forall a :: a in r ==> r[a] == if addr <= a < addr + |b| then b[a - addr] else mem[a]
    decreases |b|
  {
    if b == [] then mem else Store(mem[addr := b[0]], addr + 1, b[1..])
  }

  lemma LoadStored(mem: Memory, addr: nat, b: seq<byte>)
    ensures Load(Store(mem, addr, b), addr, |b|) == b
  {
  }

  /** A write leaves a disjoint range alone. */
  lemma LoadDisjoint(mem: Memory, addr: nat, b: seq<byte>, at: nat, n: nat)
    requires at + n <= addr || addr + |b| <= at
    ensures Load(Store(mem, addr, b), at, n) == Load(mem, at, n)
  {
  }

  lemma LoadSplit(mem: Memory, addr: nat, m: nat, n: nat)
    ensures Load(mem, addr, m + n) == Load(mem, addr, m) + Load(mem, addr + m, n)
  {
  }

  lemma StoreSplit(mem: Memory, addr: nat, b: seq<byte>, n: nat)
    requires n <= |b|
    ensures Store(Store(mem, addr, b[..n]), addr + n, b[n..]) == Store(mem, addr, b)
  {
  }

  // ---------------------------------------------------------------- the controller

  /** A run of bytes the controller moves. */
  datatype Chunk = Chunk(addr: nat, len: nat)

  /** The chunks a controller fetches from a descriptor table: it moves data for
      action 10, skips actions 00 and 01, and stops at the end attribute, at a
      descriptor that is not valid and at a link to another table. Length 0 means
      65536. */
  function Fetch(table: seq<byte>): seq<Chunk>
    decreases |table|
  {
    if |table| < 8 || Get16(table, 0) % 2 == 0 || Get16(table, 0) / 16 % 4 == 3 then []
    else
      var len := Get16(table, 2);
      (if Get16(table, 0) / 16 % 4 == 2 then [Chunk(Get32(table, 4), if len == 0 then 0x1_0000 else len)] else [])
      + if Get16(table, 0) / 2 % 2 == 1 then [] else Fetch(table[8..])
  }

  function Total(chunks: seq<Chunk>): nat {
    if chunks == [] then 0 else chunks[0].len + Total(chunks[1..])
  }

  /** The bytes a write transfer sends to the card. */
  function Gather(mem: Memory, chunks: seq<Chunk>): (b: seq<byte>)
    ensures |b| == Total(chunks)
  {
    if chunks == [] then [] else Load(mem, chunks[0].addr, chunks[0].len) + Gather(mem, chunks[1..])
  }

  /** Memory after a read transfer delivers `b` from the card. */
  function Scatter(mem: Memory, chunks: seq<Chunk>, b: seq<byte>): Memory
    requires |b| == Total(chunks)
    decreases |chunks|
  {
    if chunks == [] then mem
    else Scatter(Store(mem, chunks[0].addr, b[..chunks[0].len]), chunks[1..], b[chunks[0].len..])
  }

  // ---------------------------------------------------------------- descriptors

  datatype Descriptor = Descriptor(attribute: nat, length: nat, address: nat)

  function DescriptorBytes(d: Descriptor): (b: seq<byte>)
    ensures |b| == 8
  {
    U16(d.attribute) + U16(d.length) + U32(d.address)
  }

  /** `(size + 65531) / 65532 * 8`. */
  function TableSize(size: nat): nat {
    (size + 65531) / 65532 * 8
  }

  /** As many descriptors of 8 bytes as runs of 65532 bytes, the last one started. */
  lemma TableSizeLeast(size: nat)
    requires size > 0
    ensures var n := TableSize(size) / 8;
            TableSize(size) == 8 * n && n > 0 && (n - 1) * 65532 < size <= n * 65532
  {
  }

  /** Descriptors that tile `[address, address + size)` in order: none is empty,
      all but the last are 65532 bytes long, all have the valid and transfer
      attributes, and exactly the last has the end attribute. */
  ghost predicate Tiles(chain: seq<Descriptor>, address: nat, size: nat)
    decreases |chain|
  {
    && chain != []
    && chain[0].address == address && 0 < chain[0].length <= 65532
    && if |chain| == 1 then chain[0].attribute == 0x23 && chain[0].length == size
       else
         && chain[0].attribute == 0x21 && chain[0].length == 65532 < size
         && Tiles(chain[1..], address + chain[0].length, size - chain[0].length)
  }

  /** The chain for a transfer: full descriptors, then the remainder. */
  function ChainOf(address: nat, size: nat): (chain: seq<Descriptor>)
    requires size > 0
    ensures Tiles(chain, address, size)
    ensures 8 * |chain| == TableSize(size)
    decreases size
  {
    if size <= 65532 then [Descriptor(0x23, size, address)]
    else
      TableStep(size);
      var rest := ChainOf(address + 65532, size - 65532);
      assert ([Descriptor(0x21, 65532, address)] + rest)[1..] == rest;
      [Descriptor(0x21, 65532, address)] + rest
  }

  /** The attribute bits of a chain (section 1.13.4 of the SD Host Controller
      Simplified Specification 3.00): valid, the end bit on the last descriptor
      only, no interrupt, action 10, nothing else. */
  lemma {:induction false} ChainAttributes(chain: seq<Descriptor>, address: nat, size: nat, i: nat)
    requires Tiles(chain, address, size) && i < |chain|
    ensures var a := chain[i].attribute;
            && Bit(a, 0) == 1 && (Bit(a, 1) == 1 <==> i == |chain| - 1) && Bit(a, 2) == 0 && Bit(a, 3) == 0
            && Bit(a, 4) == 0 && Bit(a, 5) == 1 && a < 0x40
    decreases |chain|
  {
    if i > 0 {
      ChainAttributes(chain[1..], address + chain[0].length, size - chain[0].length, i - 1);
    }
  }

  lemma TableStep(size: nat)
    requires size > 65532
    ensures TableSize(size) == 8 + TableSize(size - 65532)
  {
    var q, r := (size - 1) / 65532, (size - 1) % 65532;
    RemainderUnique(size + 65531, q + 1, r, 65532);
    RemainderUnique(size - 1, q, r, 65532);
  }

  /** `admaDescriptor.init`: build the chain link by link. */
  method InitChain(address: nat, size: nat) returns (chain: seq<Descriptor>)
    requires 0 < size && address + size <= 0x1_0000_0000
    ensures chain == ChainOf(address, size)
  {
    hide TableSize, Tiles, Or, ChainOf;
    chain := [];
    Attributes();
    var at, left := address, size;
    while left > 0
      invariant 0 <= left <= size && at + left == address + size
      invariant left > 0 ==> ChainOf(address, size) == chain + ChainOf(at, left)
      invariant left == 0 ==> chain == ChainOf(address, size)
    {
      ChainStep(at, left);
      var length := if left < 65532 then left else 65532;
      var attribute := Or(0x01, 0x20);
      if length == left {
        chain := chain + [Descriptor(Or(attribute, 0x02), length % 0x1_0000, at % 0x1_0000_0000)];
        return;
      }
      chain := chain + [Descriptor(attribute, length % 0x1_0000, at % 0x1_0000_0000)];
      at := at + length;
      left := left - length;
    }
  }

  lemma ChainStep(at: nat, left: nat)
    requires left > 0
    ensures ChainOf(at, left) ==
            if left <= 65532 then [Descriptor(0x23, left, at)]
            else [Descriptor(0x21, 65532, at)] + ChainOf(at + 65532, left - 65532)
  {
  }

  lemma Attributes()
    ensures Or(0x01, 0x20) == 0x21 && Or(0x21, 0x02) == 0x23
  {
  }

  function Blocks(chain: seq<Descriptor>): (bs: seq<seq<byte>>)
    ensures |bs| == |chain| && Width(bs, 8)
  {
    seq(|chain|, i requires 0 <= i < |chain| => DescriptorBytes(chain[i]))
  }

  /** `admaTable`: the bytes of the chain, of exactly the size `admaTableSize` predicts. */
  method Table(address: nat, size: nat) returns (buf: seq<byte>)
    requires address + size <= 0x1_0000_0000
    ensures |buf| == TableSize(size)
    ensures size > 0 ==> buf == Join(Blocks(ChainOf(address, size)))
  {
    buf := [];
    if size == 0 {
      return;
    }
    var chain := InitChain(address, size);
    for i := 0 to |chain|
      invariant buf == Join(Blocks(chain)[..i])
    {
      buf := buf + U16(chain[i].attribute) + U16(chain[i].length) + U32(chain[i].address);
      JoinAppend(Blocks(chain)[..i], [DescriptorBytes(chain[i])]);
      assert Blocks(chain)[..i + 1] == Blocks(chain)[..i] + [DescriptorBytes(chain[i])];
      JoinOne(DescriptorBytes(chain[i]));
    }
    assert Blocks(chain)[..|chain|] == Blocks(chain);
    JoinLength(Blocks(chain), 8);
  }

  lemma JoinOne(b: seq<byte>)
    ensures Join([b]) == b
  {
    assert [b][1..] == [];
  }

  // ---------------------------------------------------------------- what the controller does with it

  /** The chunk a descriptor stands for. */
  function ChunkOf(d: Descriptor): Chunk {
    Chunk(d.address, d.length)
  }

  function Chunks(chain: seq<Descriptor>): (cs: seq<Chunk>)
    ensures |cs| == |chain|
  {
    seq(|chain|, i requires 0 <= i < |chain| => ChunkOf(chain[i]))
  }

  lemma DescriptorFields(d: Descriptor, rest: seq<byte>)
    requires d.attribute < 0x1_0000 && d.length < 0x1_0000 && d.address < 0x1_0000_0000
    ensures var t := DescriptorBytes(d) + rest;
            Get16(t, 0) == d.attribute && Get16(t, 2) == d.length && Get32(t, 4) == d.address && t[8..] == rest
  {
    var t := DescriptorBytes(d) + rest;
    assert t[0..2] == U16(d.attribute) && t[2..4] == U16(d.length) && t[4..8] == U32(d.address);
    Get16OfU16(t, 0, d.attribute);
    Get16OfU16(t, 2, d.length);
    Get32OfU32(t, 4, d.address);
  }

  lemma FetchOne(d: Descriptor, rest: seq<byte>)
    requires d.attribute in {0x21, 0x23} && 0 < d.length < 0x1_0000 && d.address < 0x1_0000_0000
    ensures Fetch(DescriptorBytes(d) + rest) == [ChunkOf(d)] + if d.attribute == 0x23 then [] else Fetch(rest)
  {
    hide Get16, Get32, DescriptorBytes;
    DescriptorFields(d, rest);
  }

  /** A controller that walks the encoded table finds exactly the chain. */
  lemma {:induction false} FetchTable(chain: seq<Descriptor>, address: nat, size: nat)
    requires Tiles(chain, address, size) && address + size <= 0x1_0000_0000
    ensures Fetch(Join(Blocks(chain))) == Chunks(chain)
    decreases |chain|
  {
    hide Fetch, DescriptorBytes;
    var rest := Join(Blocks(chain)[1..]);
    assert Blocks(chain)[1..] == Blocks(chain[1..]);
    FetchOne(chain[0], rest);
    if |chain| > 1 {
      FetchTable(chain[1..], address + chain[0].length, size - chain[0].length);
      assert Chunks(chain) == [ChunkOf(chain[0])] + Chunks(chain[1..]);
    } else {
      assert Chunks(chain) == [ChunkOf(chain[0])];
    }
  }

  lemma {:induction false} GatherTiles(chain: seq<Descriptor>, address: nat, size: nat, mem: Memory)
    requires Tiles(chain, address, size)
    ensures Gather(mem, Chunks(chain)) == Load(mem, address, size)
    decreases |chain|
  {
    assert Chunks(chain)[1..] == Chunks(chain[1..]);
    if |chain| > 1 {
      GatherTiles(chain[1..], address + chain[0].length, size - chain[0].length, mem);
      LoadSplit(mem, address, chain[0].length, size - chain[0].length);
    } else {
      assert Chunks(chain[1..]) == [];
    }
  }

  lemma {:induction false} ScatterTiles(chain: seq<Descriptor>, address: nat, size: nat, mem: Memory, b: seq<byte>)
    requires Tiles(chain, address, size) && |b| == size
    ensures Total(Chunks(chain)) == size
    ensures Scatter(mem, Chunks(chain), b) == Store(mem, address, b)
    decreases |chain|
  {
    assert Chunks(chain)[1..] == Chunks(chain[1..]);
    var n := chain[0].length;
    if |chain| > 1 {
      ScatterTiles(chain[1..], address + n, size - n, Store(mem, address, b[..n]), b[n..]);
      StoreSplit(mem, address, b, n);
    } else {
      assert Chunks(chain[1..]) == [];
      assert b[..n] == b;
    }
  }

  /** The controller sends exactly the bytes at `[address, address + size)`, and
      receives exactly to there. */
  lemma TableTransfers(address: nat, size: nat, mem: Memory, b: seq<byte>)
    requires 0 < size && address + size <= 0x1_0000_0000 && |b| == size
    ensures var chunks := Fetch(Join(Blocks(ChainOf(address, size))));
            && Total(chunks) == size
            && Gather(mem, chunks) == Load(mem, address, size)
            && Scatter(mem, chunks, b) == Store(mem, address, b)
  {
    var chain := ChainOf(address, size);
    FetchTable(chain, address, size);
    GatherTiles(chain, address, size, mem);
    ScatterTiles(chain, address, size, mem, b);
  }
}
