/** How remapping a 2 MB block, and splitting a gigabyte block for it, changes
    what walking the tables gives. */
module MmuRemap {
  import opened Bits
  import opened MmuSpec
  import opened MmuTables

  /** Second-level entry for 2 MB block `b`: if it links a table, it is the table of that block. */
  ghost predicate BlockLinked(tables: Tables, w: nat, b: nat) {
    w % 4 == 3 ==> OutputAddress(w) in tables && tables[OutputAddress(w)] == PageTable(b)
  }

  ghost predicate TableLinked(mem: Memory, tables: Tables, t: nat, g: nat) {
    && t in tables && tables[t] == BlockTable(g)
    && (forall j :: 0 <= j < 512 ==> BlockLinked(tables, Entry(mem, t, j), g * 512 + j))
  }

  /** First-level entry for gigabyte `g`: a flat block, or a link to the table of that gigabyte. */
  ghost predicate RootLinked(mem: Memory, tables: Tables, w: nat, g: nat) {
    && (w % 4 == 1 || w % 4 == 3)
    && (w % 4 == 1 ==> w < 0x1_0000_0000_0000_0000 && OutputAddress(w) == g * 0x4000_0000)
    && (w % 4 == 3 ==> TableLinked(mem, tables, OutputAddress(w), g))
  }

  /** The tables form a tree under the root, each page reached in its own role. */
  ghost predicate Linked(mem: Memory, tables: Tables, root: nat) {
    && root in tables && tables[root] == Root
    && (forall t :: t in tables ==> t % 0x1000 == 0)
    && (forall g :: 0 <= g < 512 ==> RootLinked(mem, tables, Entry(mem, root, g), g))
  }

  lemma LinkedRoot(mem: Memory, tables: Tables, root: nat, g: nat)
    requires Linked(mem, tables, root) && g < 512
    ensures root in tables && (Entry(mem, root, g) % 4 == 1 || Entry(mem, root, g) % 4 == 3)
  {
    assert RootLinked(mem, tables, Entry(mem, root, g), g);
  }

  /** Entries of different pages are different words. */
  lemma EntriesApart(t: nat, j: nat, t': nat, j': nat)
    requires t % 0x1000 == 0 && t' % 0x1000 == 0 && j < 512 && j' < 512
    ensures t + 8 * j == t' + 8 * j' <==> t == t' && j == j'
  {
  }

  // ---------------------------------------------------------------- writing a block

  /** What a second-level block descriptor gives; anything but a block faults. */
  ghost function BlockEntry(w: nat, va: nat): Translation {
    if w % 4 == 1 then BlockL2(w, va) else Fault
  }

  /** Memory after storing descriptor `w` for block `b` in the table its gigabyte links. */
  ghost function Stored(mem: Memory, root: nat, b: nat, w: nat): Memory {
    mem[OutputAddress(Entry(mem, root, b / 512)) + 8 * (b % 512) := w]
  }

  lemma StoredEntry(mem: Memory, tables: Tables, root: nat, b: nat, w: nat, t: nat, j: nat)
    requires Linked(mem, tables, root) && b < 0x4_0000 && Entry(mem, root, b / 512) % 4 == 3
    requires t in tables && j < 512
    ensures Entry(Stored(mem, root, b, w), t, j) ==
            if t == OutputAddress(Entry(mem, root, b / 512)) && j == b % 512 then w else Entry(mem, t, j)
  {
    EntriesApart(t, j, OutputAddress(Entry(mem, root, b / 512)), b % 512);
  }

  /** The write keeps the tables a tree. */
  lemma StoredLinked(mem: Memory, tables: Tables, root: nat, b: nat, w: nat)
    requires Linked(mem, tables, root) && b < 0x4_0000 && Entry(mem, root, b / 512) % 4 == 3
    requires w % 4 != 3
    ensures Linked(Stored(mem, root, b, w), tables, root)
  {
    var mem' := Stored(mem, root, b, w);
    forall g | 0 <= g < 512 ensures RootLinked(mem', tables, Entry(mem', root, g), g) {
      StoredEntry(mem, tables, root, b, w, root, g);
      var d := Entry(mem, root, g);
      if d % 4 == 3 {
        forall j | 0 <= j < 512 ensures BlockLinked(tables, Entry(mem', OutputAddress(d), j), g * 512 + j) {
          StoredEntry(mem, tables, root, b, w, OutputAddress(d), j);
        }
      }
    }
  }

  /** The write changes the translation of block `b` only. */
  lemma StoredWalk(mem: Memory, tables: Tables, root: nat, b: nat, w: nat, va: nat)
    requires Linked(mem, tables, root) && b < 0x4_0000 && Entry(mem, root, b / 512) % 4 == 3
    requires w % 4 != 3 && va < 0x80_0000_0000
    ensures Walk(Stored(mem, root, b, w), root, va) ==
            if va / 0x20_0000 == b then BlockEntry(w, va) else Walk(mem, root, va)
  {
    var mem' := Stored(mem, root, b, w);
    var g, j := va / 0x4000_0000, va / 0x20_0000 % 512;
    BlockOf(va);
    StoredEntry(mem, tables, root, b, w, root, g);
    var d := Entry(mem, root, g);
    if d % 4 == 3 {
      var t := OutputAddress(d);
      StoredEntry(mem, tables, root, b, w, t, j);
      var e := Entry(mem, t, j);
      assert BlockLinked(tables, e, g * 512 + j);
      if e % 4 == 3 {
        StoredEntry(mem, tables, root, b, w, OutputAddress(e), va / 0x1000 % 512);
      }
    }
  }

  lemma BlockOf(va: nat)
    requires va < 0x80_0000_0000
    ensures va / 0x4000_0000 < 512
    ensures va / 0x20_0000 / 512 == va / 0x4000_0000
    ensures va / 0x20_0000 < 0x4_0000
  {
    var g := va / 0x4000_0000;
    var r := va % 0x4000_0000;
    RemainderUnique(va, g * 512 + r / 0x20_0000, r % 0x20_0000, 0x20_0000);
    RemainderUnique(va / 0x20_0000, g, r / 0x20_0000, 512);
  }

  // ---------------------------------------------------------------- splitting a gigabyte

  /** The second-level descriptor `l2Entry` derives from the first-level descriptor `w`. */
  function SplitDescriptor(w: nat, section: nat, j: nat): nat {
    Or(And(w, 0xffff_0000_0000_0fff), section + j * 0x20_0000)
  }

  lemma OrFields(hi: nat, low: nat, addr: nat)
    requires addr % 0x1000 == 0 && addr < 0x1_0000_0000_0000 && low < 0x1000
    ensures Or(hi * 0x1_0000_0000_0000 + low, addr) == addr + low + hi * 0x1_0000_0000_0000
  {
    Pow2Values();
    ShlIsProduct(hi, 48);
    ShlZero(48);
    OrSplit(hi, low, 0, addr, 48);
    OrUnder(low, addr);
  }

  lemma OrUnder(low: nat, addr: nat)
    requires addr % 0x1000 == 0 && low < 0x1000
    ensures Or(low, addr) == addr + low
  {
    Pow2Values();
    ShlIsProduct(addr / 0x1000, 12);
    ShlZero(12);
    OrSplit(0, low, addr / 0x1000, 0, 12);
  }

  /** A descriptor is its address plus its low and high attribute fields. */
  lemma Decompose(w: nat)
    ensures w == OutputAddress(w) + w % 0x1000 + w / 0x1_0000_0000_0000 * 0x1_0000_0000_0000
    ensures OutputAddress(w) < 0x1_0000_0000_0000
  {
    var p := w / 0x1000;
    var h := p / 0x10_0000_0000;
    RemainderUnique(w, h, p % 0x10_0000_0000 * 0x1000 + w % 0x1000, 0x1_0000_0000_0000);
  }

  lemma SplitFields(w: nat, section: nat, j: nat)
    requires w < 0x1_0000_0000_0000_0000 && section % 0x20_0000 == 0 && section < 0x80_0000_0000 && j < 512
    ensures SplitDescriptor(w, section, j) ==
            section + j * 0x20_0000 + w % 0x1000 + w / 0x1_0000_0000_0000 * 0x1_0000_0000_0000
    ensures (section + j * 0x20_0000) % 0x20_0000 == 0 && (section + j * 0x20_0000) % 0x1000 == 0
  {
    var addr := section + j * 0x20_0000;
    RemainderUnique(addr, section / 0x20_0000 + j, 0, 0x20_0000);
    TwoMegabytes(addr);
    MaskAttributes(w);
    OrFields(w / 0x1_0000_0000_0000, w % 0x1000, addr);
  }

  lemma SplitKind(w: nat, section: nat, j: nat)
    requires w < 0x1_0000_0000_0000_0000 && section % 0x20_0000 == 0 && section < 0x80_0000_0000 && j < 512
    ensures SplitDescriptor(w, section, j) % 4 == w % 4
  {
    SplitFields(w, section, j);
    Decompose(w);
    WordFields(section + j * 0x20_0000, w % 0x1000, w / 0x1_0000_0000_0000);
    WordFields(OutputAddress(w), w % 0x1000, w / 0x1_0000_0000_0000);
  }

  lemma SameLeaf(w: nat, w': nat, base: nat, base': nat, low: nat, hi: nat, va: nat)
    requires base % 0x1000 == 0 && base' % 0x1000 == 0 && base <= va && base' <= va
    requires base < 0x1_0000_0000_0000 && base' < 0x1_0000_0000_0000 && low < 0x1000
    requires w == base + low + hi * 0x1_0000_0000_0000 && w' == base' + low + hi * 0x1_0000_0000_0000
    ensures Leaf(w, base, va - base) == Leaf(w', base', va - base')
  {
    WordFields(base, low, hi);
    WordFields(base', low, hi);
  }

  lemma GigabyteLeaf(w: nat, section: nat, va: nat)
    requires OutputAddress(w) == section && section % 0x4000_0000 == 0 && section <= va < section + 0x4000_0000
    ensures BlockL1(w, va) == Leaf(w, section, va - section)
  {
    Decompose(w);
    RemainderUnique(w, w / 0x1_0000_0000_0000, section + w % 0x1000, 0x1_0000_0000_0000);
    LeafBase1(w, section, w % 0x1000, va);
  }

  lemma SplitLeaf(w: nat, section: nat, j: nat, va: nat)
    requires w < 0x1_0000_0000_0000_0000 && section % 0x20_0000 == 0 && section < 0x80_0000_0000 && j < 512
    requires section + j * 0x20_0000 <= va < section + j * 0x20_0000 + 0x20_0000
    ensures BlockL2(SplitDescriptor(w, section, j), va) ==
            Leaf(SplitDescriptor(w, section, j), section + j * 0x20_0000, va - (section + j * 0x20_0000))
  {
    var low, hi, addr := w % 0x1000, w / 0x1_0000_0000_0000, section + j * 0x20_0000;
    SplitFields(w, section, j);
    RemainderUnique(SplitDescriptor(w, section, j), hi, addr + low, 0x1_0000_0000_0000);
    LeafBase2(SplitDescriptor(w, section, j), addr, low, va);
  }

  lemma SplitSame(w: nat, section: nat, j: nat, va: nat)
    requires w < 0x1_0000_0000_0000_0000 && OutputAddress(w) == section && section % 0x4000_0000 == 0
    requires section < 0x80_0000_0000 && j < 512
    requires section + j * 0x20_0000 <= va < section + j * 0x20_0000 + 0x20_0000
    ensures Leaf(w, section, va - section) ==
            Leaf(SplitDescriptor(w, section, j), section + j * 0x20_0000, va - (section + j * 0x20_0000))
  {
    var low, hi := w % 0x1000, w / 0x1_0000_0000_0000;
    Gigabyte(section);
    TwoMegabytes(section);
    SplitFields(w, section, j);
    assert w == section + low + hi * 0x1_0000_0000_0000 by { Decompose(w); }
    SameLeaf(w, SplitDescriptor(w, section, j), section, section + j * 0x20_0000, low, hi, va);
  }

  /** Splitting a flat first-level block gives second-level blocks that
      translate every address in the same way. */
  lemma SplitTranslates(w: nat, g: nat, va: nat)
    requires w < 0x1_0000_0000_0000_0000 && OutputAddress(w) == g * 0x4000_0000
    requires g == va / 0x4000_0000 && va < 0x80_0000_0000
    ensures BlockL2(SplitDescriptor(w, g * 0x4000_0000, va / 0x20_0000 % 512), va) == BlockL1(w, va)
  {
    var section, j := g * 0x4000_0000, va / 0x20_0000 % 512;
    GigabyteIndex(va, g);
    BlockIndex(section, va, j);
    GigabyteLeaf(w, section, va);
    Gigabyte(section);
    SplitLeaf(w, section, j, va);
    SplitSame(w, section, j, va);
  }

  /** `mem'` is `mem` with gigabyte `g` split into a new table at `next`. */
  ghost predicate SplitDone(mem: Memory, mem': Memory, root: nat, g: nat, next: nat) {
    && (forall j :: 0 <= j < 512 ==> Entry(mem', next, j) == SplitDescriptor(Entry(mem, root, g), g * 0x4000_0000, j))
    && Entry(mem', root, g) == next + 3
    && (forall a: nat :: a != root + 8 * g && !(next <= a < next + 0x1000) ==> Get(mem', a) == Get(mem, a))
  }

  lemma PagesApart(t: nat, j: nat, next: nat)
    requires t % 0x1000 == 0 && next % 0x1000 == 0 && t != next && j < 512
    ensures !(next <= t + 8 * j < next + 0x1000)
  {
  }

  lemma SplitEntry(mem: Memory, mem': Memory, tables: Tables, root: nat, g: nat, next: nat, t: nat, j: nat)
    requires Linked(mem, tables, root) && SplitDone(mem, mem', root, g, next) && g < 512
    requires next % 0x1000 == 0 && next !in tables && t in tables && j < 512
    requires t != root || j != g
    ensures Entry(mem', t, j) == Entry(mem, t, j)
  {
    assert root % 0x1000 == 0 && t % 0x1000 == 0 && t != next;
    hide Linked, SplitDescriptor;
    EntriesApart(t, j, root, g);
    PagesApart(t, j, next);
  }

  lemma SplitLinked(mem: Memory, mem': Memory, tables: Tables, root: nat, g: nat, next: nat)
    requires Linked(mem, tables, root) && SplitDone(mem, mem', root, g, next) && g < 512
    requires next % 0x1000 == 0 && next !in tables && next < 0x1_0000_0000_0000
    requires Entry(mem, root, g) % 4 == 1
    ensures Linked(mem', tables[next := BlockTable(g)], root)
  {
    var tables' := tables[next := BlockTable(g)];
    forall h | 0 <= h < 512 ensures RootLinked(mem', tables', Entry(mem', root, h), h) {
      if h == g {
        WordFields(next, 3, 0);
        var section := g * 0x4000_0000;
        RemainderUnique(section, g, 0, 0x4000_0000);
        Gigabyte(section);
        forall j | 0 <= j < 512 ensures BlockLinked(tables', Entry(mem', next, j), g * 512 + j) {
          SplitKind(Entry(mem, root, g), section, j);
        }
      } else {
        SplitEntry(mem, mem', tables, root, g, next, root, h);
        var d := Entry(mem, root, h);
        if d % 4 == 3 {
          forall j | 0 <= j < 512 ensures BlockLinked(tables', Entry(mem', OutputAddress(d), j), h * 512 + j) {
            SplitEntry(mem, mem', tables, root, g, next, OutputAddress(d), j);
            assert BlockLinked(tables, Entry(mem, OutputAddress(d), j), h * 512 + j);
          }
        }
      }
    }
  }

  /** Splitting a gigabyte changes no translation. */
  lemma SplitWalk(mem: Memory, mem': Memory, tables: Tables, root: nat, g: nat, next: nat, va: nat)
    requires Linked(mem, tables, root) && SplitDone(mem, mem', root, g, next) && g < 512
    requires next % 0x1000 == 0 && next !in tables && next < 0x1_0000_0000_0000
    requires Entry(mem, root, g) % 4 == 1 && va < 0x80_0000_0000
    ensures Walk(mem', root, va) == Walk(mem, root, va)
  {
    var h, j := va / 0x4000_0000, va / 0x20_0000 % 512;
    BlockOf(va);
    if h == g {
      WordFields(next, 3, 0);
      RemainderUnique(g * 0x4000_0000, g, 0, 0x4000_0000);
      Gigabyte(g * 0x4000_0000);
      SplitKind(Entry(mem, root, g), g * 0x4000_0000, j);
      SplitTranslates(Entry(mem, root, g), g, va);
    } else {
      SplitEntry(mem, mem', tables, root, g, next, root, h);
      var d := Entry(mem, root, h);
      if d % 4 == 3 {
        SplitEntry(mem, mem', tables, root, g, next, OutputAddress(d), j);
        var e := Entry(mem, OutputAddress(d), j);
        assert BlockLinked(tables, e, h * 512 + j);
        if e % 4 == 3 {
          SplitEntry(mem, mem', tables, root, g, next, OutputAddress(e), va / 0x1000 % 512);
        }
      }
    }
  }

  // ---------------------------------------------------------------- the tables Init leaves

  /** What the three loops of `Init` leave: arena tables below `mid` belong to
      the root, those up to `hi` to the fixed second-level table. */
  ghost predicate InitDone(l: Layout, mem: Memory, tables: Tables, mid: nat, hi: nat) {
    && Entry(mem, l.L1(), 0) == l.L2() + 3 && Entry(mem, l.L2(), 0) == l.L3() + 3 && Entry(mem, l.L3(), 0) == 0
    && L1Filled(l, mem, tables, l.L1(), 1, 512, l.Arena(), mid)
    && L2Filled(l, mem, tables, l.L2(), 0, 1, 512, mid, hi)
    && L3Filled(l, mem, l.L3(), 0, 1)
    && l.L1() in tables && tables[l.L1()] == Root
    && l.L2() in tables && tables[l.L2()] == BlockTable(0)
    && l.L3() in tables && tables[l.L3()] == PageTable(0)
    && (forall t :: t in tables ==> t % 0x1000 == 0)
  }

  lemma TableDescriptor(t: nat)
    requires t % 0x1000 == 0 && t < 0x1_0000_0000_0000
    ensures (t + 3) % 4 == 3 && OutputAddress(t + 3) == t
  {
    WordFields(t, 3, 0);
  }

  lemma InitWalkFirst(l: Layout, mem: Memory, tables: Tables, mid: nat, hi: nat, va: nat)
    requires l.Valid() && InitDone(l, mem, tables, mid, hi) && va < 0x4000_0000
    ensures WalkL2(mem, l.L2(), va) == Expected(l, va)
  {
    if va >= 0x20_0000 {
      InitWalkBlocks(l, mem, tables, mid, hi, va);
    } else {
      InitWalkPages(l, mem, va);
    }
  }

  lemma LowIndices(va: nat)
    requires va < 0x20_0000
    ensures va / 0x20_0000 % 512 == 0 && (va < 0x1000 ==> va / 0x1000 % 512 == 0)
  {
  }

  lemma ExpectedIsFlat(l: Layout, va: nat)
    requires va >= 0x1000
    ensures Expected(l, va) == Flat(l, va)
  {
  }

  lemma InitWalkPages(l: Layout, mem: Memory, va: nat)
    requires l.Valid() && Entry(mem, l.L2(), 0) == l.L3() + 3 && Entry(mem, l.L3(), 0) == 0
    requires L3Filled(l, mem, l.L3(), 0, 1) && va < 0x20_0000
    ensures WalkL2(mem, l.L2(), va) == Expected(l, va)
  {
    hide L3Filled, Flat, ClassifyBlock, MappingWord;
    TableDescriptor(l.L3());
    LowIndices(va);
    if va >= 0x1000 {
      WalkFilledL3(l, mem, l.L3(), 0, 1, va);
      ExpectedIsFlat(l, va);
    }
  }

  lemma InitWalkBlocks(l: Layout, mem: Memory, tables: Tables, mid: nat, hi: nat, va: nat)
    requires l.Valid() && L2Filled(l, mem, tables, l.L2(), 0, 1, 512, mid, hi) && 0x20_0000 <= va < 0x4000_0000
    ensures WalkL2(mem, l.L2(), va) == Flat(l, va)
  {
    var j := va / 0x20_0000 % 512;
    BlockIndex(0, va, j);
    assert L2EntryFilled(l, mem, tables, Entry(mem, l.L2(), j), 0 + j * 0x20_0000, mid, hi);
    WalkFilledL2(l, mem, tables, l.L2(), j * 0x20_0000, mid, hi, va);
  }

  /** Whatever mix of gigabyte, 2 MB and page entries was chosen, walking the
      tables `Init` leaves gives the intended address space. */
  lemma InitWalk(l: Layout, mem: Memory, tables: Tables, mid: nat, hi: nat, va: nat)
    requires l.Valid() && InitDone(l, mem, tables, mid, hi) && va < 0x80_0000_0000
    ensures Walk(mem, l.L1(), va) == Expected(l, va)
  {
    hide L1EntryFilled, L2Filled, L3Filled, WalkL2, Flat;
    BlockOf(va);
    if va >= 0x4000_0000 {
      WalkFilledL1(l, mem, tables, l.L1(), l.Arena(), mid, va);
      ExpectedIsFlat(l, va);
    } else {
      TableDescriptor(l.L2());
      InitWalkFirst(l, mem, tables, mid, hi, va);
    }
  }

  lemma L2EntryLinked(l: Layout, mem: Memory, tables: Tables, w: nat, b: nat, lo: nat, hi: nat)
    requires L2EntryFilled(l, mem, tables, w, b * 0x20_0000, lo, hi) && b < 0x4_0000
    ensures BlockLinked(tables, w, b)
  {
    var addr := b * 0x20_0000;
    RemainderUnique(addr, b, 0, 0x20_0000);
    TwoMegabytes(addr);
    if ClassifyBlock(l, addr, addr + 0x20_0000) != Split {
      MappingKind(addr, 1, ClassifyBlock(l, addr, addr + 0x20_0000));
    }
  }

  lemma L2TableLinked(l: Layout, mem: Memory, tables: Tables, t: nat, g: nat, from: nat, lo: nat, hi: nat)
    requires L2Filled(l, mem, tables, t, g * 0x4000_0000, from, 512, lo, hi) && g < 512
    ensures forall j :: from <= j < 512 ==> BlockLinked(tables, Entry(mem, t, j), g * 512 + j)
  {
    forall j | from <= j < 512 ensures BlockLinked(tables, Entry(mem, t, j), g * 512 + j) {
      assert g * 0x4000_0000 + j * 0x20_0000 == (g * 512 + j) * 0x20_0000;
      L2EntryLinked(l, mem, tables, Entry(mem, t, j), g * 512 + j, lo, hi);
    }
  }

  lemma L1EntryLinked(l: Layout, mem: Memory, tables: Tables, w: nat, g: nat, lo: nat, hi: nat)
    requires l.Valid() && L1EntryFilled(l, mem, tables, w, g * 0x4000_0000, lo, hi) && g < 512
    ensures RootLinked(mem, tables, w, g)
  {
    var addr := g * 0x4000_0000;
    RemainderUnique(addr, g, 0, 0x4000_0000);
    if ClassifyBlock(l, addr, addr + 0x4000_0000) != Split {
      FilledGigabyte(l, w, addr, addr);
    } else {
      L2TableLinked(l, mem, tables, OutputAddress(w), g, 0, lo, hi);
    }
  }

  lemma InitLinked(l: Layout, mem: Memory, tables: Tables, mid: nat, hi: nat)
    requires l.Valid() && InitDone(l, mem, tables, mid, hi)
    ensures Linked(mem, tables, l.L1())
  {
    TableDescriptor(l.L2());
    TableDescriptor(l.L3());
    L2TableLinked(l, mem, tables, l.L2(), 0, 1, mid, hi);
    forall g | 1 <= g < 512 ensures RootLinked(mem, tables, Entry(mem, l.L1(), g), g) {
      L1EntryLinked(l, mem, tables, Entry(mem, l.L1(), g), g, l.Arena(), mid);
    }
  }

  // ---------------------------------------------------------------- remapping history

  /** A call of `ConfigureMMU`. */
  datatype Remap = Remap(start: nat, end: nat, alias: nat, flags: nat)
  {
    predicate Valid() {
      && start < 0x1_0000_0000_0000_0000 && alias < 0x1_0000_0000_0000_0000 && flags < 0x1_0000_0000_0000_0000
      && end <= 0x80_0000_0000 + 0x1f_ffff
      && flags % 4 != 3
    }

    predicate Covers(b: nat) { start / 0x20_0000 <= b < end / 0x20_0000 }

    /** The descriptor stored for block `b`. */
    function Word(b: nat): nat
      requires Covers(b)
    {
      var a := alias / 0x20_0000;
      var pa := if a > 0 then (a + b - start / 0x20_0000) * 0x20_0000 % 0x1_0000_0000_0000_0000 else b * 0x20_0000;
      Or(pa, flags)
    }
  }

  /** How an address translates after `Init` and a history of remappings: as the
      last call covering its 2 MB block set it, or else as `Init` left it. */
  ghost function Meaning(l: Layout, history: seq<Remap>, va: nat): Translation {
    if history == [] then Expected(l, va)
    else
      var last := history[|history| - 1];
      if last.Covers(va / 0x20_0000) then BlockEntry(last.Word(va / 0x20_0000), va)
      else Meaning(l, history[..|history| - 1], va)
  }

  /** Descriptor bits of the flags survive, so a block-type or invalid word never links a table. */
  lemma BlockIsEven(b: nat)
    ensures b * 0x20_0000 % 0x1_0000_0000_0000_0000 % 4 == 0
  {
    ModMod(b * 0x20_0000, 0x4000_0000_0000_0000, 4);
    RemainderUnique(b * 0x20_0000, b * 0x8_0000, 0, 4);
  }

  lemma WordKind(c: Remap, b: nat)
    requires c.Covers(b)
    ensures c.Word(b) % 4 == c.flags % 4
  {
    var a := c.alias / 0x20_0000;
    var pa := if a > 0 then (a + b - c.start / 0x20_0000) * 0x20_0000 % 0x1_0000_0000_0000_0000 else b * 0x20_0000;
    if a > 0 { BlockIsEven(a + b - c.start / 0x20_0000); }
    hide Or;
    OrKind(pa, c.flags);
  }

  lemma OrKind(a: nat, b: nat)
    requires a % 4 == 0
    ensures Or(a, b) % 4 == b % 4
  {
    var h, q := Or(a / 2, b / 2), Or(a / 2 / 2, b / 2 / 2);
    assert Or(a, b) == b % 2 + 2 * h by { OrStep(a, b); }
    assert h == b / 2 % 2 + 2 * q by { OrStep(a / 2, b / 2); }
    RemainderUnique(Or(a, b), q, b % 2 + 2 * (b / 2 % 2), 4);
  }

  /** With attribute-only block flags and an alias inside the 48-bit space, a
      covered address maps to the same offset from the 2 MB-rounded alias (or to
      itself when there is none), with the attributes of the flags. */
  lemma RemapTranslates(c: Remap, va: nat)
    requires c.Covers(va / 0x20_0000)
    requires c.flags % 4 == 1 && c.flags / 0x400 % 2 == 1 && OutputAddress(c.flags) == 0
    requires va < 0x80_0000_0000 && c.alias / 0x20_0000 + va / 0x20_0000 - c.start / 0x20_0000 < 0x800_0000
    ensures var first := c.start / 0x20_0000 * 0x20_0000;
            var target := if c.alias / 0x20_0000 > 0 then c.alias / 0x20_0000 * 0x20_0000 else first;
            BlockEntry(c.Word(va / 0x20_0000), va)
              == Mapped(target + (va - first), c.flags % 0x1000 / 4, c.flags / 0x1_0000_0000_0000)
  {
    var b := va / 0x20_0000;
    var p := if c.alias / 0x20_0000 > 0 then c.alias / 0x20_0000 + b - c.start / 0x20_0000 else b;
    RemainderUnique(p * 0x20_0000, p, 0, 0x20_0000);
    RemapWord(c, b, p);
    LowBits(c.flags, c.flags / 0x1000, c.flags % 0x1000);
    RemapLeaf(p * 0x20_0000, c.flags % 0x1000, c.flags / 0x1_0000_0000_0000, va);
    WordKind(c, b);
    RemapTarget(c, va, p);
  }

  /** One more call, in addresses: from the start rounded down to the end rounded
      down, to 2 MB, an address maps to its offset from the rounded alias, or to
      itself without one, with the attributes of the flags. Nothing else changes. */
  lemma Configured(l: Layout, history: seq<Remap>, c: Remap, va: nat)
    requires va < 0x80_0000_0000
    ensures var first, end := c.start - c.start % 0x20_0000, c.end - c.end % 0x20_0000;
            var target := if c.alias >= 0x20_0000 then c.alias - c.alias % 0x20_0000 else first;
            if va < first || end <= va then Meaning(l, history + [c], va) == Meaning(l, history, va)
            else c.flags % 4 == 1 && c.flags / 0x400 % 2 == 1 && OutputAddress(c.flags) == 0
                 && target + (va - first) < 0x1_0000_0000_0000 ==>
              Meaning(l, history + [c], va)
                == Mapped(target + (va - first), c.flags % 0x1000 / 4, c.flags / 0x1_0000_0000_0000)
  {
    hide Or, Expected, BlockEntry;
    assert (history + [c])[..|history|] == history;
    BlocksOfRange(c, va);
    var first := c.start - c.start % 0x20_0000;
    var target := if c.alias >= 0x20_0000 then c.alias - c.alias % 0x20_0000 else first;
    if c.Covers(va / 0x20_0000) && c.flags % 4 == 1 && c.flags / 0x400 % 2 == 1 && OutputAddress(c.flags) == 0
       && target + (va - first) < 0x1_0000_0000_0000 {
      TargetBlock(c, va);
      RemapTranslates(c, va);
    }
  }

  lemma BlocksOfRange(c: Remap, va: nat)
    ensures c.Covers(va / 0x20_0000) <==> c.start - c.start % 0x20_0000 <= va < c.end - c.end % 0x20_0000
  {
  }

  lemma TargetBlock(c: Remap, va: nat)
    requires c.Covers(va / 0x20_0000) && va < 0x80_0000_0000
    requires c.alias >= 0x20_0000 ==>
             c.alias - c.alias % 0x20_0000 + (va - (c.start - c.start % 0x20_0000)) < 0x1_0000_0000_0000
    ensures c.alias / 0x20_0000 + va / 0x20_0000 - c.start / 0x20_0000 < 0x800_0000
  {
  }

  lemma RemapTarget(c: Remap, va: nat, p: nat)
    requires c.Covers(va / 0x20_0000)
    requires p == if c.alias / 0x20_0000 > 0 then c.alias / 0x20_0000 + va / 0x20_0000 - c.start / 0x20_0000
             else va / 0x20_0000
    ensures var first := c.start / 0x20_0000 * 0x20_0000;
            var target := if c.alias / 0x20_0000 > 0 then c.alias / 0x20_0000 * 0x20_0000 else first;
            p * 0x20_0000 + va % 0x20_0000 == target + (va - first)
  {
  }

  lemma RemapWord(c: Remap, b: nat, p: nat)
    requires c.Covers(b) && p < 0x800_0000 && OutputAddress(c.flags) == 0
    requires p == if c.alias / 0x20_0000 > 0 then c.alias / 0x20_0000 + b - c.start / 0x20_0000 else b
    ensures c.Word(b) == p * 0x20_0000 + c.flags % 0x1000 + c.flags / 0x1_0000_0000_0000 * 0x1_0000_0000_0000
  {
    RemainderUnique(p * 0x20_0000, p, 0, 0x20_0000);
    TwoMegabytes(p * 0x20_0000);
    Decompose(c.flags);
    OrAttributes(p * 0x20_0000, c.flags % 0x1000, c.flags / 0x1_0000_0000_0000);
  }

  lemma OrAttributes(pa: nat, low: nat, hi: nat)
    requires pa % 0x1000 == 0 && pa < 0x1_0000_0000_0000 && low < 0x1000
    ensures Or(pa, low + hi * 0x1_0000_0000_0000) == pa + low + hi * 0x1_0000_0000_0000
  {
    Pow2Values();
    ShlIsProduct(hi, 48);
    ShlZero(48);
    OrSplit(0, pa, hi, low, 48);
    OrLow(pa, low);
  }

  lemma RemapLeaf(pa: nat, low: nat, hi: nat, va: nat)
    requires pa % 0x20_0000 == 0 && pa < 0x1_0000_0000_0000 && low < 0x1000 && low / 0x400 % 2 == 1
    ensures BlockL2(pa + low + hi * 0x1_0000_0000_0000, va) == Mapped(pa + va % 0x20_0000, low / 4, hi)
  {
    var w := pa + low + hi * 0x1_0000_0000_0000;
    TwoMegabytes(pa);
    WordFields(pa, low, hi);
    RemainderUnique(pa + low, pa / 0x20_0000, low, 0x20_0000);
  }

  /** `mem'` differs from `mem` only in what the blocks of the call before `i` translate to. */
  ghost predicate Remapped(mem: Memory, mem': Memory, root: nat, c: Remap, i: nat) {
    forall va :: 0 <= va < 0x80_0000_0000 ==>
      Walk(mem', root, va) == (if c.Covers(va / 0x20_0000) && va / 0x20_0000 < i
                               then BlockEntry(c.Word(va / 0x20_0000), va) else Walk(mem, root, va))
  }

  ghost predicate SameWalk(mem: Memory, mem': Memory, root: nat) {
    forall va :: 0 <= va < 0x80_0000_0000 ==> Walk(mem', root, va) == Walk(mem, root, va)
  }

  /** One pass of the loop: find the entry, splitting if needed (`mem` to `mem1`), and store it. */
  lemma RemapStep(mem0: Memory, mem: Memory, mem1: Memory, mem2: Memory, tables: Tables, root: nat, c: Remap, i: nat)
    requires c.Valid() && c.Covers(i) && i < 0x4_0000
    requires Remapped(mem0, mem, root, c, i) && SameWalk(mem, mem1, root)
    requires Linked(mem1, tables, root) && Entry(mem1, root, i / 512) % 4 == 3
    requires mem2 == Stored(mem1, root, i, c.Word(i))
    ensures Linked(mem2, tables, root) && Remapped(mem0, mem2, root, c, i + 1)
  {
    WordKind(c, i);
    StoredLinked(mem1, tables, root, i, c.Word(i));
    forall va | 0 <= va < 0x80_0000_0000
      ensures Walk(mem2, root, va) == (if c.Covers(va / 0x20_0000) && va / 0x20_0000 < i + 1
                                       then BlockEntry(c.Word(va / 0x20_0000), va) else Walk(mem0, root, va))
    {
      StoredWalk(mem1, tables, root, i, c.Word(i), va);
    }
  }

  // ---------------------------------------------------------------- what a call costs

  /** The gigabytes of blocks `i` to `last` that the root still maps as one block. */
  ghost function Unsplit(mem: Memory, root: nat, i: nat, last: nat): set<nat> {
    set g | 0 <= g < 512 && i < last && i / 512 <= g && g * 512 < last && Entry(mem, root, g) % 4 != 3
  }

  /** Exactly gigabyte `h` became a table, if it was not one. */
  ghost predicate SplitBy(mem: Memory, mem': Memory, root: nat, h: nat) {
    forall g :: 0 <= g < 512 ==> (Entry(mem', root, g) % 4 == 3 <==> Entry(mem, root, g) % 4 == 3 || g == h)
  }

  lemma UnsplitHolds(mem: Memory, root: nat, i: nat, last: nat)
    requires i < last && i < 0x4_0000
    ensures Entry(mem, root, i / 512) % 4 != 3 ==> |Unsplit(mem, root, i, last)| > 0
  {
    assert i / 512 in Unsplit(mem, root, i, last) <==> Entry(mem, root, i / 512) % 4 != 3;
  }

  lemma UnsplitDone(mem: Memory, root: nat, i: nat, last: nat)
    requires i >= last
    ensures |Unsplit(mem, root, i, last)| == 0
  {
    assert Unsplit(mem, root, i, last) == {};
  }

  lemma RemapNone(mem: Memory, root: nat, c: Remap)
    ensures Remapped(mem, mem, root, c, c.start / 0x20_0000)
  {
  }

  /** The gigabyte of block `i` is paid for once. */
  lemma UnsplitStep(mem: Memory, mem': Memory, root: nat, i: nat, last: nat)
    requires i < last && i < 0x4_0000 && SplitBy(mem, mem', root, i / 512)
    ensures |Unsplit(mem', root, i + 1, last)| ==
            |Unsplit(mem, root, i, last)| - if Entry(mem, root, i / 512) % 4 != 3 then 1 else 0
  {
    forall g ensures g in Unsplit(mem', root, i + 1, last) <==> g in Unsplit(mem, root, i, last) && g != i / 512 {
    }
    assert Unsplit(mem', root, i + 1, last) == Unsplit(mem, root, i, last) - {i / 512};
  }

  /** A store in a second-level table leaves the root alone. */
  lemma StoredRoot(mem: Memory, tables: Tables, root: nat, b: nat, w: nat, g: nat)
    requires Linked(mem, tables, root) && b < 0x4_0000 && Entry(mem, root, b / 512) % 4 == 3 && g < 512
    ensures Entry(Stored(mem, root, b, w), root, g) == Entry(mem, root, g)
  {
    assert RootLinked(mem, tables, Entry(mem, root, b / 512), b / 512);
    StoredEntry(mem, tables, root, b, w, root, g);
  }

  lemma RemapDone(l: Layout, mem: Memory, mem': Memory, history: seq<Remap>, c: Remap, i: nat)
    requires forall va :: 0 <= va < 0x80_0000_0000 ==> Walk(mem, l.L1(), va) == Meaning(l, history, va)
    requires i >= c.end / 0x20_0000 && Remapped(mem, mem', l.L1(), c, i)
    ensures forall va :: 0 <= va < 0x80_0000_0000 ==> Walk(mem', l.L1(), va) == Meaning(l, history + [c], va)
  {
    assert (history + [c])[..|history|] == history;
  }
}
