/** The translation table builder of arm64/mmu.go: `Init` and `ConfigureMMU`. */
module Mmu {
  import opened Bits
  import opened MmuSpec
  import opened MmuTables
  import opened MmuRemap

  class MmuMap {
    var layout: Layout
    var arenaNext: nat
    var arenaEnd: nat
    var mem: Memory
    // MAIR_EL1, TCR_EL1 and TTBR0_EL1
    var mair: nat
    var tcr: nat
    var ttbr0: nat
    ghost var tables: Tables
    ghost var history: seq<Remap>

    /** The arena is a run of whole pages below the text. */
    ghost predicate ArenaOk()
      reads this
    {
      && layout.Valid() && arenaEnd == layout.textStart
      && layout.Arena() <= arenaNext <= arenaEnd && arenaNext % 0x1000 == 0
      && Located(layout, tables, arenaNext)
    }

    method Alloc(ghost role: Role) returns (addr: nat, ok: bool)
      requires ArenaOk()
      modifies this`arenaNext, this`tables
      ensures ArenaOk()
      ensures ok <==> old(arenaNext) + 0x1000 <= arenaEnd
      ensures ok ==> addr == old(arenaNext) && arenaNext == addr + 0x1000
      ensures ok ==> addr !in old(tables) && tables == old(tables)[addr := role]
      ensures !ok ==> arenaNext == old(arenaNext) && tables == old(tables)
    {
      addr := arenaNext;
      if addr + 0x1000 > arenaEnd {
        return addr, false;
      }
      arenaNext := arenaNext + 0x1000;
      tables := tables[addr := role];
      ok := true;
    }

    method InitL3Table(entry: nat, base: nat, section: nat)
      requires layout.Valid() && entry <= 512 && section % 0x20_0000 == 0
      modifies this`mem
      ensures L3Filled(layout, mem, base, section, entry)
      ensures SameOutside(old(mem), mem, base + 8 * entry, base + 0x1000, 0, 0)
    {
      for i := entry to 512
        invariant SameOutside(old(mem), mem, base + 8 * entry, base + 8 * i, 0, 0)
        invariant forall j :: entry <= j < i ==>
            ClassifyBlock(layout, section + j * 0x1000, section + j * 0x1000 + 0x1000) != Split
            && Entry(mem, base, j) == MappingWord(section + j * 0x1000, 3,
                   ClassifyBlock(layout, section + j * 0x1000, section + j * 0x1000 + 0x1000))
      {
        var addr := section + i * 0x1000;
        var action := ClassifyBlock(layout, addr, addr + 0x1000);
        PageNeverSplit(layout, addr);
        mem := mem[base + 8 * i := MappingWord(addr, 3, action)];
      }
    }

    ghost function State(): Build
      reads this
    {
      Build(mem, tables, arenaNext)
    }

    /** One pass of the second-level loop. */
    method InitL2Entry(i: nat, base: nat, addr: nat) returns (ok: bool)
      requires ArenaOk() && i < 512 && addr % 0x20_0000 == 0
      requires base + 0x1000 <= arenaNext
      modifies this`mem, this`arenaNext, this`tables
      ensures ArenaOk()
      ensures var need := if ClassifyBlock(layout, addr, addr + 0x20_0000) == Split then 0x1000 else 0;
              && (ok <==> old(arenaNext) + need <= arenaEnd)
              && (ok ==> arenaNext == old(arenaNext) + need)
      ensures ok ==> DidL2(layout, old(State()), State(), base, i, addr)
    {
      var action := ClassifyBlock(layout, addr, addr + 0x20_0000);
      if action == Split {
        var next, have := Alloc(PageTable(addr / 0x20_0000));
        if !have {
          return false;
        }
        mem := mem[base + 8 * i := Or(next, 3)];
        TableWord(next);
        InitL3Table(0, next, addr);
      } else {
        mem := mem[base + 8 * i := MappingWord(addr, 1, action)];
      }
      ok := true;
    }

    method InitL2Table(entry: nat, base: nat, section: nat, ghost c: seq<nat>) returns (ok: bool)
      requires ArenaOk() && entry <= 512 && section % 0x4000_0000 == 0
      requires base + 0x1000 <= arenaNext && CostsL2(layout, section, entry, c)
      modifies this`mem, this`arenaNext, this`tables
      ensures ok <==> old(arenaNext) + 0x1000 * c[512] <= arenaEnd
      ensures ok ==> ArenaOk() && arenaNext == old(arenaNext) + 0x1000 * c[512]
      ensures ok ==> DidL2s(layout, old(State()), State(), base, section, entry, 512)
    {
      for i := entry to 512
        invariant ArenaOk() && arenaNext == old(arenaNext) + 0x1000 * c[i]
        invariant DidL2s(layout, old(State()), State(), base, section, entry, i)
      {
        var addr := section + i * 0x20_0000;
        SectionEntry(section, i);
        CostsL2Grow(layout, section, entry, c, i + 1, 512);
        assert CostL2(layout, section, c, i);
        ghost var s := State();
        var have := InitL2Entry(i, base, addr);
        if !have {
          return false;
        }
        StepL2(layout, old(State()), s, State(), base, section, entry, i);
      }
      ok := true;
    }

    /** A first-level entry that is split: link a new table and fill it. */
    method SplitL1Entry(i: nat, ttbr: nat, addr: nat, ghost c: seq<nat>) returns (ok: bool)
      requires ArenaOk() && i < 512 && ttbr + 0x1000 <= arenaNext
      requires addr == i * 0x4000_0000 && addr % 0x4000_0000 == 0 && CutGigabyte(layout, i)
               && CostsL2(layout, addr, 0, c)
      modifies this`mem, this`arenaNext, this`tables
      ensures ok <==> old(arenaNext) + 0x1000 * (1 + c[512]) <= arenaEnd
      ensures ok ==> ArenaOk() && arenaNext == old(arenaNext) + 0x1000 * (1 + c[512])
      ensures ok ==> DidL1(layout, old(State()), State(), ttbr, i)
    {
      var next, have := Alloc(BlockTable(i));
      if !have {
        return false;
      }
      mem := mem[ttbr + 8 * i := Or(next, 3)];
      ghost var s1 := State();
      ok := InitL2Table(0, next, addr, c);
      if ok {
        SplitL1(layout, old(State()), s1, State(), ttbr, i, addr);
      }
    }

    /** One pass of the first-level loop. */
    method InitL1Entry(i: nat, ttbr: nat, ghost c: seq<nat>) returns (ok: bool)
      requires ArenaOk() && i < 512 && ttbr + 0x1000 <= arenaNext && CostsL2(layout, i * 0x4000_0000, 0, c)
      modifies this`mem, this`arenaNext, this`tables
      ensures ok <==> old(arenaNext) + (if CutGigabyte(layout, i) then 0x1000 * (1 + c[512]) else 0) <= arenaEnd
      ensures ok ==> ArenaOk()
      ensures ok ==> arenaNext == old(arenaNext) + if CutGigabyte(layout, i) then 0x1000 * (1 + c[512]) else 0
      ensures ok ==> DidL1(layout, old(State()), State(), ttbr, i)
    {
      var addr := i * 0x4000_0000;
      var action := ClassifyBlock(layout, addr, addr + 0x4000_0000);
      RemainderUnique(addr, i, 0, 0x4000_0000);
      hide ClassifyBlock, MappingWord, CostsL2, Located;
      if action == Split {
        ok := SplitL1Entry(i, ttbr, addr, c);
      } else {
        mem := mem[ttbr + 8 * i := MappingWord(addr, 1, action)];
        ok := true;
      }
    }

    method InitL1Table(entry: nat, ttbr: nat, ghost d: seq<nat>, ghost cs: seq<seq<nat>>) returns (ok: bool)
      requires ArenaOk() && entry <= 512 && ttbr + 0x1000 <= arenaNext && CostsL1(layout, entry, d, cs)
      modifies this`mem, this`arenaNext, this`tables
      ensures ok <==> old(arenaNext) + 0x1000 * d[512] <= arenaEnd
      ensures ok ==> ArenaOk() && arenaNext == old(arenaNext) + 0x1000 * d[512]
      ensures ok ==> DidL1s(layout, old(State()), State(), ttbr, entry, 512)
    {
      for i := entry to 512
        invariant ArenaOk() && arenaNext == old(arenaNext) + 0x1000 * d[i]
        invariant DidL1s(layout, old(State()), State(), ttbr, entry, i)
      {
        CostsL1Grow(layout, entry, d, cs, i + 1, 512);
        assert CostL1(layout, d, cs, i);
        ghost var s := State();
        var have := InitL1Entry(i, ttbr, cs[i]);
        if !have {
          return false;
        }
        StepL1(layout, old(State()), s, State(), ttbr, entry, i);
      }
      ok := true;
    }

    // -------------------------------------------------------------- Init

    /** The address space is what `Init` and the remappings since make it. */
    ghost predicate Valid()
      reads this
    {
      && ArenaOk() && Linked(mem, tables, layout.L1())
      && (forall va :: 0 <= va < 0x80_0000_0000 ==> Walk(mem, layout.L1(), va) == Meaning(layout, history, va))
    }

    /** Take the region bounds from the runtime; each panic of the source is an outcome. */
    method InitLayout(ramStart: nat, ramEnd: nat, textStart: nat, textEnd: nat) returns (r: Boot)
      requires ramStart <= 0x1_0000_0000_0000 && ramEnd <= 0x1_0000_0000_0000
               && textStart <= textEnd <= 0x1_0000_0000_0000
      modifies this`layout, this`arenaNext, this`arenaEnd
      ensures var l := Rounded(ramStart, ramEnd, textStart, textEnd);
        && (r == Misaligned <==> ramStart % 0x1000 != 0 || ramEnd % 0x1000 != 0)
        && (r == TextOutside <==> r != Misaligned && (l.textStart < ramStart || l.textEnd > ramEnd))
        && (r == NoArena <==> r != Misaligned && r != TextOutside && l.Arena() >= l.textStart)
        && (r == Booted <==> l.Valid()) && r != OutOfTables
        && (r == Booted ==> layout == l && arenaNext == l.Arena() && arenaEnd == l.textStart)
    {
      LowMask(ramStart);
      LowMask(ramEnd);
      if And(ramStart, 0xfff) != 0 || And(ramEnd, 0xfff) != 0 {
        return Misaligned;
      }
      layout := Layout(ramStart, ramEnd, AlignDown(textStart, 0x1000), AlignDown(textEnd + 0xfff, 0x1000));
      assert layout == Rounded(ramStart, ramEnd, textStart, textEnd) by {
        RoundDown(textStart);
        RoundDown(textEnd + 0xfff);
      }
      RoundedAligned(ramStart, ramEnd, textStart, textEnd);
      if layout.textStart < ramStart || layout.textEnd > ramEnd {
        return TextOutside;
      }
      arenaNext := ramStart + 0x7000;
      arenaEnd := layout.textStart;
      r := if arenaNext >= arenaEnd then NoArena else Booted;
    }

    /** The fixed first entries: root to second level, second to third level, page 0 invalid. */
    method LinkFixedTables()
      requires layout.Valid() && arenaNext == layout.Arena() && arenaEnd == layout.textStart
      modifies this`mem, this`tables
      ensures ArenaOk()
      ensures tables == map[layout.L1() := Root, layout.L2() := BlockTable(0), layout.L3() := PageTable(0)]
      ensures Entry(mem, layout.L1(), 0) == layout.L2() + 3
      ensures Entry(mem, layout.L2(), 0) == layout.L3() + 3 && Entry(mem, layout.L3(), 0) == 0
    {
      hide Or;
      var l1, l2, l3 := layout.L1(), layout.L2(), layout.L3();
      OrLow(l2, 3);
      OrLow(l3, 3);
      mem := mem[l1 := Or(l2, 3)];
      mem := mem[l2 := Or(l3, 3)];
      mem := mem[l3 := 0];
      tables := map[l1 := Root, l2 := BlockTable(0), l3 := PageTable(0)];
    }

    /** The writes of `Init` once the layout is accepted. */
    method BuildTables(ghost d: seq<nat>, ghost cs: seq<seq<nat>>, ghost c: seq<nat>) returns (ok: bool, ghost mid: nat)
      requires layout.Valid() && arenaNext == layout.Arena() && arenaEnd == layout.textStart
      requires CostsL1(layout, 1, d, cs) && CostsL2(layout, 0, 1, c)
      modifies this`mem, this`arenaNext, this`tables
      ensures ok <==> layout.Arena() + 0x1000 * (d[512] + c[512]) <= arenaEnd
      ensures ok ==> ArenaOk() && arenaNext == layout.Arena() + 0x1000 * (d[512] + c[512])
      ensures ok ==> InitDone(layout, mem, tables, mid, arenaNext)
    {
      LinkFixedTables();
      ghost var s0 := State();
      mid := 0;
      ok := InitL1Table(1, layout.L1(), d, cs);
      if !ok {
        return;
      }
      ghost var s1 := State();
      mid := arenaNext;
      ok := InitL2Table(1, layout.L2(), 0, c);
      if !ok {
        return;
      }
      ghost var s2 := State();
      InitL3Table(1, layout.L3(), 0);
      TablesBuilt(layout, s0, s1, s2, mem);
    }

    /** Build the translation tables for the regions the runtime reports: it
        succeeds exactly when the arena has the pages the layout needs, and
        then every address translates as intended. */
    method Init(ramStart: nat, ramEnd: nat, textStart: nat, textEnd: nat) returns (r: Boot)
      requires ramStart <= 0x1_0000_0000_0000 && ramEnd <= 0x1_0000_0000_0000
               && textStart <= textEnd <= 0x1_0000_0000_0000
      modifies this
      ensures var l := Rounded(ramStart, ramEnd, textStart, textEnd);
        && (r == Misaligned <==> ramStart % 0x1000 != 0 || ramEnd % 0x1000 != 0)
        && (r == TextOutside <==> r != Misaligned && (l.textStart < ramStart || l.textEnd > ramEnd))
        && (r == Booted || r == OutOfTables <==> l.Valid())
        && (r == Booted <==> l.Valid() && l.Arena() + 0x1000 * PagesNeeded(l) <= l.textStart)
        && (r == Booted ==> layout == l && arenaNext == l.Arena() + 0x1000 * PagesNeeded(l))
      ensures r == Booted ==> Valid() && history == []
      ensures r == Booted ==> ttbr0 == ramStart + 0x4000 == layout.L1() && Configures(mair, tcr)
    {
      hide Configures, Expected, PagesNeeded;
      r := InitLayout(ramStart, ramEnd, textStart, textEnd);
      if r != Booted {
        return;
      }
      ghost var d, cs, c := InitCosts(layout);
      var ok, mid := BuildTables(d, cs, c);
      if !ok {
        return OutOfTables;
      }
      history := [];
      InitLinked(layout, mem, tables, mid, arenaNext);
      forall va | 0 <= va < 0x80_0000_0000 ensures Walk(mem, layout.L1(), va) == Expected(layout, va) {
        InitWalk(layout, mem, tables, mid, arenaNext, va);
      }
      SetRegisters();
    }

    /** Memory attributes, translation control and the root table. */
    method SetRegisters()
      modifies this`mair, this`tcr, this`ttbr0
      ensures Configures(mair, tcr) && ttbr0 == layout.ramStart + 0x4000
    {
      Registers();
      mair := Or(Shl(0xff, 8), Shl(0, 0));
      tcr := Or(Or(Or(Or(Or(Shl(2, 32), Shl(1, 23)), Shl(3, 12)), Shl(1, 10)), Shl(1, 8)), 25);
      ttbr0 := layout.L1();
    }

    // -------------------------------------------------------------- ConfigureMMU

    /** Replace a first-level block by a table of second-level blocks with the same attributes. */
    method SplitGigabyte(g: nat, tte: nat, section: nat) returns (next: nat, ok: bool)
      requires ArenaOk() && Linked(mem, tables, layout.L1()) && g < 512
      requires tte == Entry(mem, layout.L1(), g) && tte % 4 != 3 && section == g * 0x4000_0000
      modifies this`mem, this`arenaNext, this`tables
      ensures ArenaOk()
      ensures ok <==> old(arenaNext) + 0x1000 <= arenaEnd
      ensures ok ==> next == old(arenaNext) && arenaNext == next + 0x1000 && next !in old(tables)
      ensures ok ==> tables == old(tables)[next := BlockTable(g)]
      ensures ok ==> SplitDone(old(mem), mem, layout.L1(), g, next)
      ensures !ok ==> mem == old(mem) && tables == old(tables) && arenaNext == old(arenaNext)
    {
      assert RootLinked(mem, tables, tte, g);
      hide Linked, Located, SplitDescriptor;
      next, ok := Alloc(BlockTable(g));
      if ok {
        FillSplit(next, tte, section);
        OrLow(next, 3);
        mem := mem[layout.L1() + 8 * g := Or(next, 3)];
      }
    }

    /** The loop of `l2Entry`; a first-level entry is a block here, so the zero word is never stored. */
    method FillSplit(next: nat, tte: nat, section: nat)
      requires tte % 4 == 1
      modifies this`mem
      ensures forall j :: 0 <= j < 512 ==> Entry(mem, next, j) == SplitDescriptor(tte, section, j)
      ensures SameOutside(old(mem), mem, next, next + 0x1000, 0, 0)
    {
      KindMask(tte);
      for i := 0 to 512
        invariant forall j :: 0 <= j < i ==> Entry(mem, next, j) == SplitDescriptor(tte, section, j)
        invariant SameOutside(old(mem), mem, next, next + 8 * i, 0, 0)
      {
        var val := 0;
        if And(tte, 3) == 1 {
          val := SplitDescriptor(tte, section, i);
        }
        mem := mem[next + 8 * i := val];
      }
    }

    /** The address of the second-level descriptor for `addr`, splitting its gigabyte if needed. */
    method L2Entry(addr: nat) returns (page: nat, ok: bool)
      requires ArenaOk() && Linked(mem, tables, layout.L1()) && addr < 0x80_0000_0000
      modifies this`mem, this`arenaNext, this`tables
      ensures ArenaOk() && Linked(mem, tables, layout.L1())
      ensures ok <==> old(Entry(mem, layout.L1(), addr / 0x4000_0000)) % 4 == 3 || old(arenaNext) + 0x1000 <= arenaEnd
      ensures ok ==> Entry(mem, layout.L1(), addr / 0x4000_0000) % 4 == 3
      ensures !ok ==> mem == old(mem)
      ensures ok ==> page == OutputAddress(Entry(mem, layout.L1(), addr / 0x4000_0000)) + 8 * (addr / 0x20_0000 % 512)
      ensures SameWalk(old(mem), mem, layout.L1())
      ensures arenaNext == old(arenaNext) + if ok
              && old(Entry(mem, layout.L1(), addr / 0x4000_0000)) % 4 != 3 then 0x1000 else 0
      ensures forall g :: 0 <= g < 512 && g != addr / 0x4000_0000 ==>
              Entry(mem, layout.L1(), g) == old(Entry(mem, layout.L1(), g))
    {
      LinkedRoot(mem, tables, layout.L1(), addr / 0x4000_0000);
      hide Located, Linked, SplitDescriptor;
      var l1 := layout.L1() + 8 * (addr / 0x4000_0000);
      var tte := Get(mem, l1);
      KindMask(tte);
      if And(tte, 3) != 3 {
        var section := AlignDown(addr, 0x4000_0000);
        RoundDownGigabyte(addr);
        var next, have := SplitGigabyte(addr / 0x4000_0000, tte, section);
        if !have {
          return 0, false;
        }
        SplitLinked(old(mem), mem, old(tables), layout.L1(), addr / 0x4000_0000, next);
        forall va | 0 <= va < 0x80_0000_0000 ensures Walk(mem, layout.L1(), va) == old(Walk(mem, layout.L1(), va)) {
          SplitWalk(old(mem), mem, old(tables), layout.L1(), addr / 0x4000_0000, next, va);
        }
        forall g | 0 <= g < 512
            && g != addr / 0x4000_0000 ensures Entry(mem, layout.L1(), g) == old(Entry(mem, layout.L1(), g)) {
          SplitEntry(old(mem), mem, old(tables), layout.L1(), addr / 0x4000_0000, next, layout.L1(), g);
        }
        TableDescriptor(next);
        tte := Get(mem, l1);
      }
      MaskAddress(tte);
      BlockMask(addr / 0x20_0000);
      page := And(tte, 0xffff_ffff_f000) + 8 * And(addr / 0x20_0000, 511);
      ok := true;
    }

    /** One pass of the loop of `ConfigureMMU`. */
    method RemapBlock(i: nat, first: nat, a: nat, flags: nat, ghost call: Remap, ghost mem0: Memory) returns (ok: bool)
      requires ArenaOk() && Linked(mem, tables, layout.L1()) && Remapped(mem0, mem, layout.L1(), call, i)
      requires call.Valid() && call.Covers(i) && i < 0x4_0000
      requires first == call.start / 0x20_0000 && a == call.alias / 0x20_0000 && flags == call.flags
      modifies this`mem, this`arenaNext, this`tables
      ensures ArenaOk() && Linked(mem, tables, layout.L1())
      ensures ok ==> Remapped(mem0, mem, layout.L1(), call, i + 1)
      ensures ok ==> SplitBy(old(mem), mem, layout.L1(), i / 512)
      ensures ok <==> old(Entry(mem, layout.L1(), i / 512)) % 4 == 3 || old(arenaNext) + 0x1000 <= arenaEnd
      ensures ok ==> arenaNext == old(arenaNext) + if old(Entry(mem, layout.L1(), i / 512)) % 4 == 3 then 0 else 0x1000
      ensures !ok ==> mem == old(mem)
    {
      hide Linked, Remapped, SameWalk, Located;
      BlockAddress(i);
      var page, have := L2Entry(i * 0x20_0000);
      if !have {
        return false;
      }
      var pa := if a > 0 then (a + i - first) * 0x20_0000 % 0x1_0000_0000_0000_0000 else i * 0x20_0000;
      ghost var mem1 := mem;
      mem := mem[page := Or(pa, flags)];
      RemapStep(mem0, old(mem), mem1, mem, tables, layout.L1(), call, i);
      forall g | 0 <= g < 512 ensures Entry(mem, layout.L1(), g) == Entry(mem1, layout.L1(), g) {
        StoredRoot(mem1, tables, layout.L1(), i, call.Word(i), g);
      }
      ok := true;
    }

    /** Remap the 2 MB blocks of a range. It succeeds exactly when the arena has a
        page for each covered gigabyte that is still one block; then every address
        translates as the whole history of calls says. Otherwise the blocks before
        some block of the range are remapped and nothing else is. */
    method ConfigureMMU(start: nat, end: nat, alias: nat, flags: nat) returns (ok: bool)
      requires Valid() && Remap(start, end, alias, flags).Valid()
      modifies this`mem, this`arenaNext, this`tables, this`history
      ensures ArenaOk() && Linked(mem, tables, layout.L1())
      ensures var pages := |old(Unsplit(mem, layout.L1(), start / 0x20_0000, end / 0x20_0000))|;
              && (ok <==> old(arenaNext) + 0x1000 * pages <= arenaEnd)
              && (ok ==> arenaNext == old(arenaNext) + 0x1000 * pages)
      ensures ok ==> Valid() && history == old(history) + [Remap(start, end, alias, flags)]
      ensures !ok ==> exists k :: start / 0x20_0000 <= k < end / 0x20_0000
                                  && Remapped(old(mem), mem, layout.L1(), Remap(start, end, alias, flags), k)
    {
      ghost var call := Remap(start, end, alias, flags);
      var first, last := start / 0x20_0000, end / 0x20_0000;
      hide Unsplit, Linked, Remapped, Located, SplitBy;
      ghost var pages := |Unsplit(mem, layout.L1(), first, last)|;
      RemapNone(mem, layout.L1(), call);
      var i := first;
      while i < last
        invariant first <= i && history == old(history)
        invariant ArenaOk() && Linked(mem, tables, layout.L1())
        invariant Remapped(old(mem), mem, layout.L1(), call, i)
        invariant arenaNext + 0x1000 * |Unsplit(mem, layout.L1(), i, last)| == old(arenaNext) + 0x1000 * pages
        decreases last - i
      {
        ghost var before := mem;
        UnsplitHolds(mem, layout.L1(), i, last);
        var have := RemapBlock(i, first, alias / 0x20_0000, flags, call, old(mem));
        if !have {
          return false;
        }
        UnsplitStep(before, mem, layout.L1(), i, last);
        i := i + 1;
      }
      UnsplitDone(mem, layout.L1(), i, last);
      history := history + [call];
      RemapDone(layout, old(mem), mem, old(history), call, i);
      ok := true;
    }
  }

  /** What the walk takes from the registers: attribute index 0 is Device-nGnRnE
      and index 1 Normal write-back memory; addresses have 64 - 25 bits, the
      granule is 4 KB, walks through TTBR1_EL1 are off, physical addresses have 40
      bits, and walks are inner shareable and cacheable (section D12.2 of the ARM
      Architecture Reference Manual ARMv8). */
  ghost predicate Configures(mair: nat, tcr: nat) {
    && mair % 0x100 == 0 && mair / 0x100 == 0xff
    && 64 - tcr % 0x40 == 39 && tcr / 0x4000 % 4 == 0 && tcr / 0x80_0000 % 2 == 1 && tcr / 0x1_0000_0000 == 2
    && tcr / 0x1000 % 4 == 3 && tcr / 0x400 % 4 == 1 && tcr / 0x100 % 4 == 1
  }

  lemma Registers()
    ensures Configures(Or(Shl(0xff, 8), Shl(0, 0)),
                       Or(Or(Or(Or(Or(Shl(2, 32), Shl(1, 23)), Shl(3, 12)), Shl(1, 10)), Shl(1, 8)), 25))
  {
    Shifts();
    Powers();
    hide Shl, Or, Pow2;
    OrBelow(0xff, 8, 0);
    OrBelow(2, 32, 0x80_0000);
    OrBelow(0x401, 23, 0x3000);
    OrBelow(0x20_0803, 12, 0x400);
    OrBelow(0x80_200d, 10, 0x100);
    OrBelow(0x200_8035, 8, 25);
  }

  lemma Powers()
    ensures Pow2(8) == 0x100 && Pow2(10) == 0x400 && Pow2(12) == 0x1000 && Pow2(23) == 0x80_0000
    ensures Pow2(32) == 0x1_0000_0000
  {
    Pow2Values();
    hide Pow2;
    Pow2Four(8);
    Pow2Four(9);
    Pow2Four(16);
    Pow2Four(20);
  }

  lemma Shifts()
    ensures Shl(0xff, 8) == 0xff00 && Shl(0, 0) == 0 && Shl(2, 32) == 0x2_0000_0000 && Shl(1, 23) == 0x80_0000
    ensures Shl(3, 12) == 0x3000 && Shl(1, 10) == 0x400 && Shl(1, 8) == 0x100
  {
    Powers();
    assert Shl(0, 0) == 0;
    hide Shl, Pow2;
    ShlIsProduct(0xff, 8);
    ShlIsProduct(2, 32);
    ShlIsProduct(1, 23);
    ShlIsProduct(3, 12);
    ShlIsProduct(1, 10);
    ShlIsProduct(1, 8);
  }

  /** Fields that do not overlap add up. */
  lemma OrBelow(a: nat, k: nat, y: nat)
    requires y < Pow2(k)
    ensures Or(a * Pow2(k), y) == a * Pow2(k) + y
  {
    OrNothing(a, y);
    hide Or, Shl;
    ShlIsProduct(a, k);
    ShlZero(k);
    OrSplit(a, 0, 0, y, k);
  }

  lemma OrNothing(a: nat, y: nat)
    ensures Or(a, 0) == a && Or(0, y) == y
  {
  }

  lemma BlockAddress(i: nat)
    ensures i * 0x20_0000 / 0x20_0000 == i && i * 0x20_0000 / 0x4000_0000 == i / 512
  {
    RemainderUnique(i * 0x20_0000, i, 0, 0x20_0000);
    RemainderUnique(i * 0x20_0000, i / 512, i % 512 * 0x20_0000, 0x4000_0000);
  }

  lemma KindMask(w: nat)
    ensures And(w, 3) == w % 4
  {
    Pow2Values();
    AndMask(w, 2);
  }

  lemma BlockMask(b: nat)
    ensures And(b, 511) == b % 512
  {
    Pow2Values();
    AndMask(b, 9);
  }

  lemma RoundDownGigabyte(x: nat)
    ensures AlignDown(x, 0x4000_0000) == x / 0x4000_0000 * 0x4000_0000
  {
    Pow2Values();
    AndMask(x, 30);
  }

  lemma InitCosts(l: Layout) returns (d: seq<nat>, cs: seq<seq<nat>>, c: seq<nat>)
    requires l.Valid()
    ensures CostsL1(l, 1, d, cs) && CostsL2(l, 0, 1, c) && d[512] + c[512] == PagesNeeded(l)
  {
    d, cs := SumL1(l, 1, 512);
    c := SumL2(l, 0, 1);
    CutBlocksAppend(l, 1, 512, 0x4_0000);
  }

  datatype Boot = Misaligned | TextOutside | NoArena | OutOfTables | Booted

  /** `addr &^ (align - 1)`. */
  function AlignDown(addr: nat, align: nat): nat
    requires align > 0
  {
    AndAtMost(addr, align - 1);
    addr - And(addr, align - 1)
  }

  /** The layout `init` derives: text rounded outward to whole pages. */
  ghost function Rounded(ramStart: nat, ramEnd: nat, textStart: nat, textEnd: nat): Layout {
    Layout(ramStart, ramEnd, textStart / 0x1000 * 0x1000, (textEnd + 0xfff) / 0x1000 * 0x1000)
  }

  /** The text is rounded outward, by less than a page on each side. */
  lemma RoundedOutward(ramStart: nat, ramEnd: nat, textStart: nat, textEnd: nat)
    ensures var l := Rounded(ramStart, ramEnd, textStart, textEnd);
            && l.ramStart == ramStart && l.ramEnd == ramEnd && l.textStart % 0x1000 == l.textEnd % 0x1000 == 0
            && l.textStart <= textStart < l.textStart + 0x1000 && textEnd <= l.textEnd < textEnd + 0x1000
  {
  }

  lemma LowMask(x: nat)
    ensures And(x, 0xfff) == x % 0x1000
  {
    Pow2Values();
    AndMask(x, 12);
  }

  lemma RoundDown(x: nat)
    ensures AlignDown(x, 0x1000) == x / 0x1000 * 0x1000
  {
    LowMask(x);
  }

  lemma RoundedAligned(ramStart: nat, ramEnd: nat, textStart: nat, textEnd: nat)
    requires textStart <= textEnd <= 0x1_0000_0000_0000
    ensures var l := Rounded(ramStart, ramEnd, textStart, textEnd);
            l.textStart % 0x1000 == 0 && l.textEnd % 0x1000 == 0 && l.textStart <= l.textEnd <= 0x1_0000_0000_0000
  {
    RemainderUnique(textStart / 0x1000 * 0x1000, textStart / 0x1000, 0, 0x1000);
    RemainderUnique((textEnd + 0xfff) / 0x1000 * 0x1000, (textEnd + 0xfff) / 0x1000, 0, 0x1000);
  }

  /** The three loops of `Init` write apart from each other, so what each leaves survives to the end. */
  lemma TablesBuilt(l: Layout, s0: Build, s1: Build, s2: Build, mem: Memory)
    requires l.Valid() && s0.next == l.Arena() && Located(l, s2.tables, s2.next)
    requires s0.tables == map[l.L1() := Root, l.L2() := BlockTable(0), l.L3() := PageTable(0)]
    requires Entry(s0.mem, l.L1(), 0) == l.L2() + 3 && Entry(s0.mem, l.L2(), 0) == l.L3() + 3
             && Entry(s0.mem, l.L3(), 0) == 0
    requires DidL1s(l, s0, s1, l.L1(), 1, 512) && DidL2s(l, s1, s2, l.L2(), 0, 1, 512)
    requires L3Filled(l, mem, l.L3(), 0, 1) && SameOutside(s2.mem, mem, l.L3() + 8, l.L3() + 0x1000, 0, 0)
    ensures InitDone(l, mem, s2.tables, s1.next, s2.next)
  {
    L1Frame(l, s1.mem, mem, s1.tables, s2.tables, l.L1(), 1, 512, l.Arena(), s1.next, s1.next);
    L2Frame(l, s2.mem, mem, s2.tables, s2.tables, l.L2(), 0, 1, 512, s1.next, s2.next, s1.next, s2.next);
  }
}
