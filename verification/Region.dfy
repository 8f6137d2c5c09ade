/** The first-fit DMA allocator of dma/region.go on a 64-bit platform.

    The abstract state of a region is its map of used blocks: the free list is
    proved to be a function of it, and an allocation is proved to return the
    lowest aligned address at which the requested bytes are all free. */
module Dma {
  import opened Bits

  /** One past the largest `uint`. */
  const WORD: nat := 0x1_0000_0000_0000_0000
  const DEFAULT_ALIGNMENT: nat := 8

  datatype Block = Block(addr: nat, size: nat, res: bool)

  datatype Placement = OutOfMemory | Placed(addr: nat)

  ghost predicate InBlock(b: Block, x: int) {
    b.addr <= x < b.addr + b.size
  }

  ghost predicate Covers(f: seq<Block>, x: int) {
    exists i :: 0 <= i < |f| && InBlock(f[i], x)
  }

  ghost predicate Taken(used: map<nat, Block>, x: int) {
    exists a :: a in used && InBlock(used[a], x)
  }

  /** Non-empty free blocks in strictly increasing order, no two of them touching. */
  ghost predicate Canonical(f: seq<Block>) {
    && (forall i :: 0 <= i < |f| ==> f[i].size > 0 && !f[i].res)
    && (forall i, j :: 0 <= i < j < |f| ==> f[i].addr + f[i].size < f[j].addr)
  }

  /** Free blocks in increasing order that may touch, as between an insertion and `defrag`. */
  ghost predicate Ordered(f: seq<Block>) {
    && (forall i :: 0 <= i < |f| ==> f[i].size > 0 && !f[i].res)
    && (forall i, j :: 0 <= i < j < |f| ==> f[i].addr + f[i].size <= f[j].addr)
  }

  ghost predicate UsedBlocks(start: nat, size: nat, used: map<nat, Block>) {
    && (forall a :: a in used ==>
          used[a].addr == a && used[a].size > 0 && start <= a && a + used[a].size <= start + size)
    && (forall a, b :: a in used && b in used && a < b ==> a + used[a].size <= b)
  }

  /** The invariant of a region: used blocks are disjoint, and the free list is
      canonical and covers exactly what they leave. */
  ghost predicate Tiling(start: nat, size: nat, free: seq<Block>, used: map<nat, Block>) {
    && UsedBlocks(start, size, used)
    && Canonical(free)
    && (forall x :: Covers(free, x) <==> start <= x < start + size && !Taken(used, x))
  }

  /** Every address of the region lies in exactly one block, free or used. */
  lemma ExactlyOneBlock(start: nat, size: nat, free: seq<Block>, used: map<nat, Block>, x: int)
    requires Tiling(start, size, free, used) && start <= x < start + size
    ensures Covers(free, x) <==> !Taken(used, x)
    ensures forall i, j :: 0 <= i < |free| && 0 <= j < |free| && InBlock(free[i], x) && InBlock(free[j], x) ==> i == j
    ensures forall a, b :: a in used && b in used && InBlock(used[a], x) && InBlock(used[b], x) ==> a == b
  {
  }

  // ---------------------------------------------------------------- canonical form

  /** Two canonical lists covering the same addresses are the same list. */
  lemma {:induction false} CanonicalUnique(f: seq<Block>, g: seq<Block>)
    requires Canonical(f) && Canonical(g)
    requires forall x :: Covers(f, x) <==> Covers(g, x)
    ensures f == g
    decreases |f|
  {
    if |f| == 0 {
      if |g| > 0 { HeadCovers(g, g[0].addr); assert false; }
    } else {
      HeadCovers(f, f[0].addr);
      if |g| == 0 { assert false; }
      HeadCovers(g, g[0].addr);
      hide Covers;
      HeadIsLeast(f, g[0].addr);
      HeadIsLeast(g, f[0].addr);
      HeadNotLonger(f, g);
      HeadNotLonger(g, f);
      forall x ensures Covers(f[1..], x) <==> Covers(g[1..], x) {
        TailCovers(f, x);
        TailCovers(g, x);
      }
      CanonicalUnique(f[1..], g[1..]);
      assert f == [f[0]] + f[1..] && g == [g[0]] + g[1..];
    }
  }

  lemma HeadIsLeast(f: seq<Block>, x: int)
    requires Canonical(f) && Covers(f, x)
    ensures |f| > 0 && f[0].addr <= x
  {
    var i :| 0 <= i < |f| && InBlock(f[i], x);
    if i > 0 { assert f[0].addr + f[0].size < f[i].addr; }
  }

  lemma HeadCovers(f: seq<Block>, x: int)
    requires |f| > 0 && InBlock(f[0], x)
    ensures Covers(f, x)
  {
  }

  lemma HeadNotLonger(f: seq<Block>, g: seq<Block>)
    requires Canonical(f) && Canonical(g) && |f| > 0 && |g| > 0 && f[0].addr == g[0].addr
    requires forall x :: Covers(f, x) ==> Covers(g, x)
    ensures f[0].size <= g[0].size
  {
    if f[0].size > g[0].size {
      HeadCovers(f, g[0].addr + g[0].size);
    }
  }

  lemma TailCovers(f: seq<Block>, x: int)
    requires Canonical(f) && |f| > 0
    ensures Covers(f[1..], x) <==> Covers(f, x) && !InBlock(f[0], x)
  {
    if Covers(f, x) && !InBlock(f[0], x) {
      var i :| 0 <= i < |f| && InBlock(f[i], x);
      assert InBlock(f[1..][i - 1], x);
    }
    if Covers(f[1..], x) {
      var i :| 0 <= i < |f[1..]| && InBlock(f[1..][i], x);
      assert InBlock(f[i + 1], x);
      assert f[0].addr + f[0].size < f[i + 1].addr;
    }
  }

  /** The free list is a function of the used blocks: two regions of the same
      extent with the same used blocks have the same free list, whatever their
      histories. */
  lemma FreeListFromUsed(start: nat, size: nat, free: seq<Block>, free': seq<Block>, used: map<nat, Block>)
    requires Tiling(start, size, free, used) && Tiling(start, size, free', used)
    ensures free == free'
  {
    CanonicalUnique(free, free');
  }

  /** With nothing in use the free list is the single block `Init` makes. */
  lemma AllFreed(start: nat, size: nat, free: seq<Block>)
    requires size > 0 && Tiling(start, size, free, map[])
    ensures free == [Block(start, size, false)]
  {
    InitialTiling(start, size);
    FreeListFromUsed(start, size, free, [Block(start, size, false)], map[]);
  }

  lemma InitialTiling(start: nat, size: nat)
    requires size > 0
    ensures Tiling(start, size, [Block(start, size, false)], map[])
  {
    var f := [Block(start, size, false)];
    forall x ensures Covers(f, x) <==> start <= x < start + size {
      assert InBlock(f[0], x) <==> start <= x < start + size;
    }
  }

  // ---------------------------------------------------------------- alignment

  /** The Go conversion of an `int` to a `uint`. */
  function ToUint(x: int): (u: nat)
    requires -0x8000_0000_0000_0000 <= x < 0x8000_0000_0000_0000
    ensures u < WORD && (u - x) % WORD == 0
  {
    if x < 0 then x + WORD else x
  }

  /** The alignment `alloc` works with. */
  function EffectiveAlignment(align: nat): (r: nat)
    ensures r > 0
    ensures align < WORD && IsPow2(align) ==> r == align
    ensures !IsPow2(align) ==> r == DEFAULT_ALIGNMENT
    ensures IsPow2(r)
  {
    assert Pow2(3) == DEFAULT_ALIGNMENT;
    assert align != 0 ==> (And(align, align - 1) == 0 <==> IsPow2(align)) by {
      if align != 0 { PowerOfTwoTest(align); }
    }
    if align == 0 || And(align, align - 1) != 0 then DEFAULT_ALIGNMENT else align
  }

  /** `-addr & (align - 1)` in 64-bit arithmetic. */
  function Padding(addr: nat, align: nat): nat
    requires addr < WORD && align > 0
  {
    And((WORD - addr) % WORD, align - 1)
  }

  ghost predicate Aligned(a: nat, align: nat)
    requires align > 0
  {
    a % align == 0
  }

  /** The padding is the distance to the next aligned address. */
  lemma PaddingIsMinimal(addr: nat, align: nat)
    requires addr < WORD && IsPow2(align) && align < WORD
    ensures Padding(addr, align) < align
    ensures Aligned(addr + Padding(addr, align), align)
    ensures forall a: nat :: a >= addr && Aligned(a, align) ==> a >= addr + Padding(addr, align)
  {
    PaddingValue(addr, align);
    Pow2Values();
    var c := Pow2Divides(align, 64);
    if addr > 0 { Complement(addr, align, c); }
    NoCloser(addr, Padding(addr, align), align);
  }

  lemma PaddingValue(addr: nat, align: nat)
    requires addr < WORD && IsPow2(align)
    ensures Padding(addr, align) == (if addr == 0 then 0 else (WORD - addr) % align)
  {
    hide And, Pow2;
    var k: nat :| align == Pow2(k);
    if addr > 0 {
      RemainderUnique(WORD - addr, 0, WORD - addr, WORD);
      AndMask(WORD - addr, k);
    } else {
      AndMask(0, k);
    }
  }

  lemma NoCloser(addr: nat, pad: nat, align: nat)
    requires pad < align && Aligned(addr + pad, align)
    ensures forall a: nat :: a >= addr && Aligned(a, align) ==> a >= addr + pad
  {
    forall a: nat | addr <= a < addr + pad ensures !Aligned(a, align) {
      if Aligned(a, align) { CloseCongruent(a, addr + pad, align); }
    }
  }

  lemma Complement(addr: nat, align: nat, c: nat)
    requires align > 0 && c * align == WORD && 0 < addr < WORD
    ensures (addr + (WORD - addr) % align) % align == 0
  {
    var q := (WORD - addr) / align;
    var r := (WORD - addr) % align;
    assert WORD - addr == q * align + r;
    Distribute(q, c, align);
    assert addr + r == (c - q) * align;
    if c < q { MulGrows(q - c, align); Distribute(c, q, align); }
    RemainderUnique(addr + r, c - q, 0, align);
  }

  // ---------------------------------------------------------------- placements

  /** `n` bytes at the aligned address `a` are inside the region and all free. */
  ghost predicate Placeable(start: nat, size: nat, used: map<nat, Block>, a: nat, n: nat, align: nat)
    requires align > 0
  {
    && start <= a && a + n <= start + size
    && Aligned(a, align)
    && (forall x :: a <= x < a + n ==> !Taken(used, x))
  }

  /** Whether the allocator takes a free block, in 64-bit arithmetic. */
  predicate Takes(b: Block, n: int, align: nat)
    requires align > 0 && b.addr < WORD && -0x8000_0000_0000_0000 <= n < 0x8000_0000_0000_0000
  {
    b.size >= (ToUint(n) + Padding(b.addr, align)) % WORD
  }

  /** A block of less than half the address space is taken for a negative size
      exactly when the padding makes up for it; otherwise negative sizes are
      refused like sizes that are too large. */
  lemma NegativeSize(b: Block, n: int, align: nat)
    requires b.addr < WORD && b.size < 0x8000_0000_0000_0000 && IsPow2(align) && align < WORD
    requires -0x8000_0000_0000_0000 <= n < 0
    ensures Takes(b, n, align) <==> Padding(b.addr, align) + n >= 0 && b.size >= Padding(b.addr, align) + n
  {
    PaddingIsMinimal(b.addr, align);
    var pad := Padding(b.addr, align);
    if pad + n >= 0 {
      RemainderUnique(ToUint(n) + pad, 1, pad + n, WORD);
    } else {
      RemainderUnique(ToUint(n) + pad, 0, WORD + n + pad, WORD);
    }
  }

  /** The least address at which `n` bytes can be placed, or failure when there is none. */
  ghost predicate LowestPlacement(start: nat, size: nat, used: map<nat, Block>, n: nat, align: nat, p: Placement)
    requires align > 0
  {
    match p
    case OutOfMemory => forall a: nat :: !Placeable(start, size, used, a, n, align)
    case Placed(addr) =>
      && Placeable(start, size, used, addr, n, align)
      && (forall a: nat :: Placeable(start, size, used, a, n, align) ==> addr <= a)
  }

  /** A run of free addresses lies inside one block of a canonical list. */
  lemma RunInOneBlock(f: seq<Block>, a: nat, n: nat) returns (i: nat)
    requires Canonical(f) && n > 0
    requires forall x :: a <= x < a + n ==> Covers(f, x)
    ensures i < |f| && f[i].addr <= a && a + n <= f[i].addr + f[i].size
  {
    assert Covers(f, a);
    i :| 0 <= i < |f| && InBlock(f[i], a);
    var e := f[i].addr + f[i].size;
    if a + n > e {
      assert Covers(f, e);
      var j :| 0 <= j < |f| && InBlock(f[j], e);
      assert false;
    }
  }

  lemma BlockInside(start: nat, size: nat, free: seq<Block>, used: map<nat, Block>, i: nat)
    requires Tiling(start, size, free, used) && i < |free|
    ensures start <= free[i].addr && free[i].addr + free[i].size <= start + size && free[i].size > 0
  {
    assert InBlock(free[i], free[i].addr) && InBlock(free[i], free[i].addr + free[i].size - 1);
    assert Covers(free, free[i].addr) && Covers(free, free[i].addr + free[i].size - 1);
  }

  /** No aligned run of `n` bytes fits in the block. */
  ghost predicate TooSmall(b: Block, n: nat, align: nat)
    requires align > 0
  {
    forall a: nat :: a >= b.addr && Aligned(a, align) ==> a + n > b.addr + b.size
  }

  /** The first block that is not too small, with its padding, gives the lowest placement. */
  lemma FirstFitIsLowest(start: nat, size: nat, free: seq<Block>, used: map<nat, Block>, n: nat, align: nat, k: nat)
    requires Tiling(start, size, free, used) && start + size <= WORD
    requires n > 0 && IsPow2(align) && align < WORD
    requires k <= |free|
    requires forall j :: 0 <= j < k ==> TooSmall(free[j], n, align)
    requires k < |free| ==> free[k].addr < WORD && free[k].size >= n + Padding(free[k].addr, align)
    ensures LowestPlacement(start, size, used, n, align,
                            if k < |free| then Placed(free[k].addr + Padding(free[k].addr, align)) else OutOfMemory)
  {
    if k < |free| {
      PaddingIsMinimal(free[k].addr, align);
      var p := free[k].addr + Padding(free[k].addr, align);
      forall x | p <= x < p + n ensures start <= x < start + size && !Taken(used, x) {
        assert InBlock(free[k], x);
        assert Covers(free, x);
      }
      BlockInside(start, size, free, used, k);
    }
    forall a: nat | Placeable(start, size, used, a, n, align)
      ensures k < |free| && free[k].addr + Padding(free[k].addr, align) <= a
    {
      var i := RunInOneBlock(free, a, n);
      if i < k { assert false; }
      if i > k { assert free[k].addr + free[k].size < free[i].addr; }
    }
  }

  // ---------------------------------------------------------------- list surgery

  /** The list after taking `[p, p + n)` out of block `k`, as `alloc` leaves it. */
  function Carved(f: seq<Block>, k: nat, pad: nat, n: nat): (g: seq<Block>)
    requires k < |f| && f[k].size >= pad + n
  {
    f[..k]
    + (if pad != 0 then [Block(f[k].addr, pad, false)] else [])
    + (if f[k].size - pad - n != 0 then [Block(f[k].addr + pad + n, f[k].size - pad - n, false)] else [])
    + f[k + 1..]
  }

  lemma ConcatCovers(f: seq<Block>, g: seq<Block>, x: int)
    ensures Covers(f + g, x) <==> Covers(f, x) || Covers(g, x)
  {
    var h := f + g;
    if Covers(f, x) {
      var i :| 0 <= i < |f| && InBlock(f[i], x);
      assert InBlock(h[i], x);
    }
    if Covers(g, x) {
      var i :| 0 <= i < |g| && InBlock(g[i], x);
      assert InBlock(h[|f| + i], x);
    }
    if Covers(h, x) {
      var i :| 0 <= i < |h| && InBlock(h[i], x);
      if i >= |f| { assert InBlock(g[i - |f|], x); }
    }
  }

  lemma SplitCovers(f: seq<Block>, k: nat, x: int)
    requires k < |f|
    ensures Covers(f, x) <==> Covers(f[..k], x) || InBlock(f[k], x) || Covers(f[k + 1..], x)
  {
    assert f == f[..k] + f[k..];
    ConcatCovers(f[..k], f[k..], x);
    assert f[k..] == [f[k]] + f[k + 1..];
    ConcatCovers([f[k]], f[k + 1..], x);
    SingleCovers(f[k], x);
  }

  lemma SingleCovers(b: Block, x: int)
    ensures Covers([b], x) <==> InBlock(b, x)
  {
    if InBlock(b, x) { assert InBlock([b][0], x); }
  }

  /** Only block `k` of an ordered list covers its addresses. */
  lemma OnlyBlock(f: seq<Block>, k: nat, x: int)
    requires Ordered(f) && k < |f| && InBlock(f[k], x)
    ensures !Covers(f[..k], x) && !Covers(f[k + 1..], x)
  {
  }

  lemma CarvedCovers(f: seq<Block>, k: nat, pad: nat, n: nat, x: int)
    requires Canonical(f) && k < |f| && f[k].size >= pad + n
    ensures Covers(Carved(f, k, pad, n), x) <==>
            Covers(f, x) && !(f[k].addr + pad <= x < f[k].addr + pad + n)
  {
    var before := if pad != 0 then [Block(f[k].addr, pad, false)] else [];
    var after := if f[k].size - pad - n != 0
      then [Block(f[k].addr + pad + n, f[k].size - pad - n, false)] else [];
    ConcatCovers(f[..k] + before + after, f[k + 1..], x);
    ConcatCovers(f[..k] + before, after, x);
    ConcatCovers(f[..k], before, x);
    SingleCovers(Block(f[k].addr, pad, false), x);
    SingleCovers(Block(f[k].addr + pad + n, f[k].size - pad - n, false), x);
    SplitCovers(f, k, x);
    if InBlock(f[k], x) { OnlyBlock(f, k, x); }
  }

  lemma CarvedCanonical(f: seq<Block>, k: nat, pad: nat, n: nat)
    requires Canonical(f) && k < |f| && n > 0 && f[k].size >= pad + n
    ensures Canonical(Carved(f, k, pad, n))
  {
  }

  lemma AllocTiling(start: nat, size: nat, free: seq<Block>, used: map<nat, Block>, k: nat, pad: nat, n: nat, b: Block)
    requires Tiling(start, size, free, used)
    requires k < |free| && n > 0 && free[k].size >= pad + n
    requires b.addr == free[k].addr + pad && b.size == n
    ensures b.addr !in used
    ensures Tiling(start, size, Carved(free, k, pad, n), used[b.addr := b])
  {
    var used' := used[b.addr := b];
    forall x | InBlock(b, x) ensures start <= x < start + size && !Taken(used, x) {
      assert InBlock(free[k], x);
      assert Covers(free, x);
    }
    assert InBlock(b, b.addr) && InBlock(b, b.addr + n - 1);
    forall a | a in used ensures a + used[a].size <= b.addr || b.addr + n <= a {
      if a <= b.addr < a + used[a].size { assert false; }
      if b.addr < a < b.addr + n { assert InBlock(used[a], a); assert InBlock(b, a); assert false; }
    }
    CarvedCanonical(free, k, pad, n);
    forall x ensures Covers(Carved(free, k, pad, n), x) <==> start <= x < start + size && !Taken(used', x) {
      CarvedCovers(free, k, pad, n, x);
      TakenWith(used, b.addr, b, x);
    }
  }

  lemma TakenWith(used: map<nat, Block>, a: nat, b: Block, x: int)
    requires a !in used
    ensures Taken(used[a := b], x) <==> Taken(used, x) || InBlock(b, x)
  {
    var used' := used[a := b];
    if Taken(used, x) {
      var c :| c in used && InBlock(used[c], x);
      assert c in used' && InBlock(used'[c], x);
    }
    if InBlock(b, x) { assert a in used' && InBlock(used'[a], x); }
  }

  /** The list after inserting a freed block before position `k`. */
  function Inserted(f: seq<Block>, k: nat, b: Block): seq<Block>
    requires k <= |f|
  {
    f[..k] + [b] + f[k..]
  }

  lemma InsertedCovers(f: seq<Block>, k: nat, b: Block, x: int)
    requires k <= |f|
    ensures Covers(Inserted(f, k, b), x) <==> Covers(f, x) || InBlock(b, x)
  {
    ConcatCovers(f[..k] + [b], f[k..], x);
    ConcatCovers(f[..k], [b], x);
    SingleCovers(b, x);
    assert f == f[..k] + f[k..];
    ConcatCovers(f[..k], f[k..], x);
  }

  /** A used block lies between the free blocks around its address. */
  lemma InsertedOrdered(start: nat, size: nat, free: seq<Block>, used: map<nat, Block>, a: nat, k: nat)
    requires Tiling(start, size, free, used) && a in used && k <= |free|
    requires forall i :: 0 <= i < k ==> free[i].addr <= a
    requires k < |free| ==> free[k].addr > a
    ensures Ordered(Inserted(free, k, used[a].(res := false)))
  {
    var b := used[a].(res := false);
    forall i | 0 <= i < |free|
      ensures i < k ==> free[i].addr + free[i].size <= a
      ensures i >= k ==> a + b.size <= free[i].addr
    {
      Disjoint(start, size, free, used, i, a);
      if i > k { assert free[k].addr + free[k].size < free[i].addr; }
    }
  }

  lemma Disjoint(start: nat, size: nat, free: seq<Block>, used: map<nat, Block>, i: nat, a: nat)
    requires Tiling(start, size, free, used) && i < |free| && a in used
    ensures free[i].addr + free[i].size <= a || a + used[a].size <= free[i].addr
  {
    if !(free[i].addr + free[i].size <= a || a + used[a].size <= free[i].addr) {
      var x := if free[i].addr <= a then a else free[i].addr;
      assert InBlock(free[i], x) && InBlock(used[a], x);
      assert Covers(free, x) && Taken(used, x);
      assert false;
    }
  }

  lemma FreeTiling(start: nat, size: nat, free: seq<Block>, used: map<nat, Block>, a: nat, free': seq<Block>)
    requires Tiling(start, size, free, used) && a in used
    requires Canonical(free')
    requires forall x :: Covers(free', x) <==> Covers(free, x) || InBlock(used[a], x)
    ensures Tiling(start, size, free', used - {a})
  {
    var used' := used - {a};
    forall x ensures Covers(free', x) <==> start <= x < start + size && !Taken(used', x) {
      assert used == used'[a := used[a]];
      TakenWith(used', a, used[a], x);
      if InBlock(used[a], x) && Taken(used', x) {
        var c :| c in used' && InBlock(used'[c], x);
        ExactlyOneBlock(start, size, free, used, x);
        assert false;
      }
    }
  }

  // ---------------------------------------------------------------- coalescing

  ghost predicate SameCover(f: seq<Block>, g: seq<Block>) {
    forall x :: Covers(f, x) <==> Covers(g, x)
  }

  ghost predicate Within(start: nat, size: nat, f: seq<Block>) {
    forall i :: 0 <= i < |f| ==> start <= f[i].addr && f[i].addr + f[i].size <= start + size
  }

  function End(f: seq<Block>): nat
    requires f != []
  {
    f[|f| - 1].addr + f[|f| - 1].size
  }

  /** One step of `defrag`: the next block extends the last one kept, or follows it. */
  function Merged(kept: seq<Block>, b: Block): seq<Block> {
    if kept != [] && End(kept) % WORD == b.addr
    then kept[|kept| - 1 := kept[|kept| - 1].(size := kept[|kept| - 1].size + b.size)]
    else kept + [b]
  }

  lemma MergedKeeps(start: nat, size: nat, kept: seq<Block>, f: seq<Block>, e: nat)
    requires start + size <= WORD && Ordered(f) && Within(start, size, f) && e < |f|
    requires Canonical(kept) && Within(start, size, kept) && SameCover(kept, f[..e])
    requires kept != [] ==> End(kept) <= f[e].addr
    ensures var m := Merged(kept, f[e]);
            && Canonical(m) && Within(start, size, m) && SameCover(m, f[..e + 1])
            && (e + 1 < |f| ==> End(m) <= f[e + 1].addr)
  {
    MergedCovers(start, size, kept, f, e);
    MergedOrder(start, size, kept, f[e]);
    hide Canonical, SameCover, Merged;
  }

  lemma MergedOrder(start: nat, size: nat, kept: seq<Block>, b: Block)
    requires start + size <= WORD && Canonical(kept) && Within(start, size, kept)
    requires b.size > 0 && !b.res && start <= b.addr && b.addr + b.size <= start + size
    requires kept != [] ==> End(kept) <= b.addr
    ensures var m := Merged(kept, b);
            Canonical(m) && Within(start, size, m) && m != [] && End(m) == b.addr + b.size
  {
    if kept != [] && End(kept) % WORD == b.addr {
      var n := |kept| - 1;
      var grown := kept[n].(size := kept[n].size + b.size);
      assert Merged(kept, b) == kept[..n] + [grown];
      AppendOrder(start, size, kept[..n], grown);
    } else {
      AppendOrder(start, size, kept, b);
    }
  }

  lemma AppendOrder(start: nat, size: nat, kept: seq<Block>, b: Block)
    requires Canonical(kept) && Within(start, size, kept) && b.size > 0 && !b.res
    requires start <= b.addr && b.addr + b.size <= start + size && (kept != [] ==> End(kept) < b.addr)
    ensures Canonical(kept + [b]) && Within(start, size, kept + [b])
  {
  }

  lemma MergedCovers(start: nat, size: nat, kept: seq<Block>, f: seq<Block>, e: nat)
    requires start + size <= WORD && Within(start, size, f) && e < |f|
    requires Canonical(kept) && Within(start, size, kept) && SameCover(kept, f[..e])
    requires kept != [] ==> End(kept) <= f[e].addr
    ensures SameCover(Merged(kept, f[e]), f[..e + 1])
  {
    hide Canonical, Covers;
    var b := f[e];
    forall x ensures Covers(Merged(kept, b), x) <==> Covers(f[..e + 1], x) {
      assert f[..e + 1] == f[..e] + [b];
      ConcatCovers(f[..e], [b], x);
      ConcatCovers(kept, [b], x);
      SingleCovers(b, x);
      if kept != [] && End(kept) % WORD == b.addr {
        assert End(kept) == b.addr;
        GrownCovers(kept, b, x);
      }
    }
  }

  lemma GrownCovers(f: seq<Block>, b: Block, x: int)
    requires Canonical(f) && f != [] && End(f) == b.addr
    ensures Covers(f[|f| - 1 := f[|f| - 1].(size := f[|f| - 1].size + b.size)], x) <==> Covers(f, x) || InBlock(b, x)
  {
    var l := |f| - 1;
    var g := f[l := f[l].(size := f[l].size + b.size)];
    SplitCovers(f, l, x);
    SplitCovers(g, l, x);
    assert f[..l] == g[..l] && f[l + 1..] == g[l + 1..];
  }

  // ---------------------------------------------------------------- the region

  /** The lists of a region: a tiling, or the one empty block of an empty region. */
  ghost predicate Listed(start: nat, size: nat, free: seq<Block>, used: map<nat, Block>) {
    || Tiling(start, size, free, used)
    || (size == 0 && free == [Block(start, 0, false)] && used == map[])
  }

  lemma ListedInside(start: nat, size: nat, free: seq<Block>, used: map<nat, Block>, i: nat)
    requires Listed(start, size, free, used) && i < |free|
    ensures start <= free[i].addr && free[i].addr + free[i].size <= start + size
    ensures free[i].size > 0 ==> Tiling(start, size, free, used)
    ensures free[i].size == 0 ==> free[i].addr == start && size == 0
  {
    if Tiling(start, size, free, used) { BlockInside(start, size, free, used, i); }
  }

  /** `FirstFitIsLowest`, for an empty region too. */
  lemma ListedIsLowest(start: nat, size: nat, free: seq<Block>, used: map<nat, Block>, n: nat, align: nat, k: nat)
    requires Listed(start, size, free, used) && start + size <= WORD
    requires n > 0 && IsPow2(align) && align < WORD
    requires k <= |free|
    requires forall j :: 0 <= j < k ==> TooSmall(free[j], n, align)
    requires k < |free| ==> free[k].addr < WORD && free[k].size >= n + Padding(free[k].addr, align)
    ensures LowestPlacement(start, size, used, n, align,
                            if k < |free| then Placed(free[k].addr + Padding(free[k].addr, align)) else OutOfMemory)
    ensures k < |free| ==> Tiling(start, size, free, used)
  {
    hide Padding;
    if Tiling(start, size, free, used) {
      FirstFitIsLowest(start, size, free, used, n, align, k);
    }
  }

  /** Every byte of the buffer lies in the region. */
  ghost predicate Contains(start: nat, size: nat, bufAddr: nat, n: nat) {
    forall x :: InBlock(Block(bufAddr, n, false), x) ==> InBlock(Block(start, size, false), x)
  }

  /** When `Alloc` takes a buffer for one inside the region: every byte is, and
      neither ends with the address space. A buffer that does passes whatever the
      end of the region is. */
  ghost predicate StaysPut(start: nat, size: nat, bufAddr: nat, n: nat) {
    if bufAddr + n == WORD then bufAddr >= start
    else start + size < WORD && Contains(start, size, bufAddr, n)
  }

  lemma ReservedExactly(r: Region, bufAddr: nat, n: nat)
    requires n > 0 && bufAddr + n <= WORD && r.start + r.size <= WORD
    ensures r.Reserved(bufAddr, n) <==> StaysPut(r.start, r.size, bufAddr, n)
  {
    var inside := r.start <= bufAddr && bufAddr + n <= r.start + r.size;
    var b := Block(bufAddr, n, false);
    assert InBlock(b, bufAddr) && InBlock(b, bufAddr + n - 1);
    assert Contains(r.start, r.size, bufAddr, n) <==> inside;
  }

  class Region {
    const start: nat
    const size: nat
    var freeBlocks: seq<Block>
    var usedBlocks: map<nat, Block>

    ghost predicate Valid()
      reads this
    {
      && start < WORD && start + size <= WORD
      && Listed(start, size, freeBlocks, usedBlocks)
    }

    /** dma.Region.Init on a region that does not wrap around. */
    constructor (start: nat, size: nat)
      requires start < WORD && start + size <= WORD
      ensures Valid() && this.start == start && this.size == size
      ensures usedBlocks == map[] && freeBlocks == [Block(start, size, false)]
    {
      this.start := start;
      this.size := size;
      freeBlocks := [Block(start, size, false)];
      usedBlocks := map[];
      if size > 0 { InitialTiling(start, size); }
    }

    /** Merge touching neighbours, in one pass over the list. */
    method Defrag()
      requires start + size <= WORD && Ordered(freeBlocks) && Within(start, size, freeBlocks)
      modifies this`freeBlocks
      ensures Canonical(freeBlocks) && SameCover(freeBlocks, old(freeBlocks))
    {
      var kept: seq<Block> := [];
      var e := 0;
      while e < |freeBlocks|
        invariant 0 <= e <= |freeBlocks| && freeBlocks == old(freeBlocks)
        invariant Canonical(kept) && Within(start, size, kept) && SameCover(kept, freeBlocks[..e])
        invariant kept != [] && e < |freeBlocks| ==> End(kept) <= freeBlocks[e].addr
      {
        var b := freeBlocks[e];
        MergedKeeps(start, size, kept, freeBlocks, e);
        if kept != [] && End(kept) % WORD == b.addr {
          var last := kept[|kept| - 1];
          kept := kept[|kept| - 1 := last.(size := last.size + b.size)];
        } else {
          kept := kept + [b];
        }
        e := e + 1;
      }
      assert freeBlocks[..e] == freeBlocks;
      freeBlocks := kept;
    }

    /** First fit: take the block out of the free list, giving back the padding
        before it and the remainder after it. */
    method TakeFirstFit(n: nat, align: nat) returns (b: Block, ok: bool)
      requires Valid() && 0 < n < 0x8000_0000_0000_0000 && align < WORD
      modifies this`freeBlocks
      ensures ok ==> b.size == n && !b.res
      ensures ok ==> b.addr !in usedBlocks
      ensures LowestPlacement(start, size, usedBlocks, n, EffectiveAlignment(align),
                              if ok then Placed(b.addr) else OutOfMemory)
      ensures !ok ==> freeBlocks == old(freeBlocks)
      ensures ok ==> forall res :: Tiling(start, size, freeBlocks, usedBlocks[b.addr := b.(res := res)])
    {
      hide Padding, EffectiveAlignment, Carved, Pow2, IsPow2, LowestPlacement, Taken, Covers, Canonical, UsedBlocks;
      var al := EffectiveAlignment(align);
      var e, pad := 0, 0;
      var found := false;
      while e < |freeBlocks|
        invariant 0 <= e <= |freeBlocks|
        invariant !found
        invariant freeBlocks == old(freeBlocks)
        invariant forall j :: 0 <= j < e ==> TooSmall(freeBlocks[j], n, al)
      {
        b := freeBlocks[e];
        ListedInside(start, size, freeBlocks, usedBlocks, e);
        pad := Padding(b.addr, al);
        PaddingIsMinimal(b.addr, al);
        PadFits(n, pad, al);
        if Takes(b, n, al) {
          found := true;
          break;
        }
        e := e + 1;
      }
      ListedIsLowest(start, size, freeBlocks, usedBlocks, n, al, e);
      if !found {
        return Block(0, 0, false), false;
      }
      b := Block(freeBlocks[e].addr + pad, n, false);
      ok := true;
      forall res ensures b.addr !in usedBlocks
        ensures Tiling(start, size, Carved(freeBlocks, e, pad, n), usedBlocks[b.addr := b.(res := res)])
      {
        AllocTiling(start, size, freeBlocks, usedBlocks, e, pad, n, b.(res := res));
      }
      freeBlocks := Carved(freeBlocks, e, pad, n);
    }

    /** Insert a used block in address order and coalesce. */
    method Return(a: nat)
      requires Valid() && a in usedBlocks
      modifies this`freeBlocks
      ensures Tiling(start, size, freeBlocks, usedBlocks - {a})
    {
      var b := usedBlocks[a].(res := false);
      var e := 0;
      while e < |freeBlocks| && freeBlocks[e].addr <= b.addr
        invariant 0 <= e <= |freeBlocks| && freeBlocks == old(freeBlocks)
        invariant forall i :: 0 <= i < e ==> freeBlocks[i].addr <= a
      {
        e := e + 1;
      }
      InsertedOrdered(start, size, freeBlocks, usedBlocks, a, e);
      forall i | 0 <= i < |freeBlocks|
        ensures start <= freeBlocks[i].addr && freeBlocks[i].addr + freeBlocks[i].size <= start + size
      {
        BlockInside(start, size, freeBlocks, usedBlocks, i);
      }
      forall x ensures Covers(Inserted(freeBlocks, e, b), x) <==> Covers(freeBlocks, x) || InBlock(b, x) {
        InsertedCovers(freeBlocks, e, b, x);
      }
      freeBlocks := Inserted(freeBlocks, e, b);
      Defrag();
      FreeTiling(start, size, old(freeBlocks), usedBlocks, a, freeBlocks);
    }

    /** Place `n` uninitialised bytes; a panic of the source is `OutOfMemory`. */
    method Reserve(n: nat, align: int) returns (p: Placement)
      requires Valid() && n < 0x8000_0000_0000_0000
      requires -0x8000_0000_0000_0000 <= align < 0x8000_0000_0000_0000
      modifies this
      ensures Valid()
      ensures n == 0 ==> p == Placed(0)
      ensures n > 0 ==>
          LowestPlacement(start, size, old(usedBlocks), n, EffectiveAlignment(ToUint(align)), p)
      ensures n > 0 && p.Placed? ==>
          p.addr !in old(usedBlocks) && usedBlocks == old(usedBlocks)[p.addr := Block(p.addr, n, true)]
      ensures n == 0 || p.OutOfMemory? ==> usedBlocks == old(usedBlocks) && freeBlocks == old(freeBlocks)
    {
      if n == 0 {
        return Placed(0);
      }
      var b, ok := TakeFirstFit(n, ToUint(align));
      if !ok {
        return OutOfMemory;
      }
      b := b.(res := true);
      usedBlocks := usedBlocks[b.addr := b];
      p := Placed(b.addr);
    }

    /** Whether a buffer already lies inside the region, in 64-bit arithmetic. */
    predicate Reserved(bufAddr: nat, n: nat)
    {
      bufAddr >= start && (bufAddr + n) % WORD <= (start + size) % WORD
    }

    /** Place a copy of a buffer, unless it already lies inside the region. */
    method Alloc(bufAddr: nat, n: nat, align: int) returns (p: Placement)
      requires Valid() && n < 0x8000_0000_0000_0000 && bufAddr + n <= WORD
      requires -0x8000_0000_0000_0000 <= align < 0x8000_0000_0000_0000
      modifies this
      ensures Valid()
      ensures n == 0 ==> p == Placed(0)
      ensures n > 0 && StaysPut(start, size, bufAddr, n) ==> p == Placed(bufAddr)
      ensures n == 0 || StaysPut(start, size, bufAddr, n) || p.OutOfMemory? ==>
          usedBlocks == old(usedBlocks) && freeBlocks == old(freeBlocks)
      ensures n > 0 && !StaysPut(start, size, bufAddr, n) ==>
          LowestPlacement(start, size, old(usedBlocks), n, EffectiveAlignment(ToUint(align)), p)
      ensures n > 0 && !StaysPut(start, size, bufAddr, n) && p.Placed? ==>
          p.addr !in old(usedBlocks) && usedBlocks == old(usedBlocks)[p.addr := Block(p.addr, n, false)]
    {
      if n == 0 {
        return Placed(0);
      }
      ReservedExactly(this, bufAddr, n);
      if Reserved(bufAddr, n) {
        return Placed(bufAddr);
      }
      var b, ok := TakeFirstFit(n, ToUint(align));
      if !ok {
        return OutOfMemory;
      }
      usedBlocks := usedBlocks[b.addr := b];
      p := Placed(b.addr);
    }

    /** `Free` (`res` false) and `Release` (`res` true). */
    method FreeBlock(addr: nat, res: bool)
      requires Valid()
      modifies this
      ensures Valid()
      ensures usedBlocks == if addr != 0 && addr in old(usedBlocks) && old(usedBlocks)[addr].res == res
                            then old(usedBlocks) - {addr} else old(usedBlocks)
      ensures usedBlocks == old(usedBlocks) ==> freeBlocks == old(freeBlocks)
    {
      if addr == 0 || addr !in usedBlocks || usedBlocks[addr].res != res {
        return;
      }
      Return(addr);
      usedBlocks := usedBlocks - {addr};
    }
  }

  /** Freeing what was just allocated gives back the very same free list. */
  lemma AllocFreeRestores(start: nat, size: nat, free: seq<Block>, used: map<nat, Block>, b: Block, free': seq<Block>)
    requires Tiling(start, size, free, used) && b.addr !in used
    requires Tiling(start, size, free', used[b.addr := b] - {b.addr})
    ensures free' == free
  {
    assert used[b.addr := b] - {b.addr} == used;
    FreeListFromUsed(start, size, free, free', used);
  }

  /** The documentation says word alignment is always enforced; the code
      enforces it exactly for the alignment arguments other than 1, 2 and 4. */
  lemma WordAlignment(align: nat)
    requires align < WORD
    ensures align !in {1, 2, 4} <==>
            forall start: nat, size: nat, used: map<nat, Block>, n: nat, a: nat ::
              LowestPlacement(start, size, used, n, EffectiveAlignment(align), Placed(a)) ==> a % DEFAULT_ALIGNMENT == 0
  {
    var al := EffectiveAlignment(align);
    var k: nat :| al == Pow2(k);
    if k >= 3 {
      Pow2Add(k - 3, 3);
      assert Pow2(3) == 8;
      var c := Pow2(k - 3);
      assert al == c * 8;
      forall start: nat, size: nat, used: map<nat, Block>, n: nat, a: nat |
        LowestPlacement(start, size, used, n, al, Placed(a)) ensures a % DEFAULT_ALIGNMENT == 0
      {
        PlacedAligned(start, size, used, n, al, a);
        ModMod(a, c, 8);
      }
      hide LowestPlacement;
    } else {
      assert Pow2(0) == 1 && Pow2(1) == 2 && Pow2(2) == 4;
      assert al == align;
      SmallPlacement(al);
    }
  }

  lemma PlacedAligned(start: nat, size: nat, used: map<nat, Block>, n: nat, al: nat, a: nat)
    requires al > 0 && LowestPlacement(start, size, used, n, al, Placed(a))
    ensures a % al == 0
  {
  }

  /** One byte at its own alignment is placed there. */
  lemma SmallPlacement(al: nat)
    requires al in {1, 2, 4}
    ensures LowestPlacement(al, 1, map[], 1, al, Placed(al))
  {
  }

  lemma PadFits(n: nat, pad: nat, align: nat)
    requires n < 0x8000_0000_0000_0000 && pad < align < WORD && IsPow2(align)
    ensures n + pad < WORD
  {
    var k: nat :| align == Pow2(k);
    Pow2Values();
    if k >= 64 {
      if k > 64 { Pow2Grows(64, k); }
    } else if k < 63 {
      Pow2Grows(k, 63);
    }
  }

}
