/** What the table builder of arm64/mmu.go leaves in memory: filled tables, how
    they are framed while later tables are written, how many pages they take,
    and what walking them gives. */
module MmuTables {
  import opened Bits
  import opened MmuSpec

  /** What a table page is for: the root, the table of gigabyte `g`, or the
      table of 2 MB block `b`. Each page has one role, so no two tables overlap. */
  datatype Role = Root | BlockTable(g: nat) | PageTable(b: nat)

  type Tables = map<nat, Role>

  // ---------------------------------------------------------------- filled tables

  /** Entries `from..512` of a third-level table hold the pages of the 2 MB block at `section`. */
  ghost predicate L3Filled(l: Layout, mem: Memory, base: nat, section: nat, from: nat) {
    forall i :: from <= i < 512 ==>
      ClassifyBlock(l, section + i * 0x1000, section + i * 0x1000 + 0x1000) != Split
      && Entry(mem, base, i) == MappingWord(section + i * 0x1000, 3,
             ClassifyBlock(l, section + i * 0x1000, section + i * 0x1000 + 0x1000))
  }

  /** `t` is a whole page of `[lo, hi)` with the given role. */
  ghost predicate PageIn(tables: Tables, t: nat, role: Role, lo: nat, hi: nat) {
    lo <= t && t + 0x1000 <= hi && t % 0x1000 == 0 && t in tables && tables[t] == role
  }

  /** One second-level entry `w` for the 2 MB block at `addr`. */
  ghost predicate L2EntryFilled(l: Layout, mem: Memory, tables: Tables, w: nat, addr: nat, lo: nat, hi: nat) {
    var action := ClassifyBlock(l, addr, addr + 0x20_0000);
    if action != Split then w == MappingWord(addr, 1, action)
    else
      && w % 4 == 3
      && PageIn(tables, OutputAddress(w), PageTable(addr / 0x20_0000), lo, hi)
      && L3Filled(l, mem, OutputAddress(w), addr, 0)
  }

  ghost predicate L2Filled(l: Layout, mem: Memory, tables: Tables, base: nat, section: nat, from: nat, to: nat,
      lo: nat, hi: nat) {
    forall i :: from <= i < to ==>
      L2EntryFilled(l, mem, tables, Entry(mem, base, i), section + i * 0x20_0000, lo, hi)
  }

  ghost predicate L1EntryFilled(l: Layout, mem: Memory, tables: Tables, w: nat, addr: nat, lo: nat, hi: nat) {
    var action := ClassifyBlock(l, addr, addr + 0x4000_0000);
    if action != Split then w == MappingWord(addr, 1, action)
    else
      && w % 4 == 3
      && PageIn(tables, OutputAddress(w), BlockTable(addr / 0x4000_0000), lo, hi)
      && L2Filled(l, mem, tables, OutputAddress(w), addr, 0, 512, lo, hi)
  }

  ghost predicate L1Filled(l: Layout, mem: Memory, tables: Tables, base: nat, from: nat, to: nat, lo: nat, hi: nat) {
    forall i :: from <= i < to ==>
      L1EntryFilled(l, mem, tables, Entry(mem, base, i), i * 0x4000_0000, lo, hi)
  }

  // ---------------------------------------------------------------- framing

  ghost predicate SameOn(mem: Memory, mem': Memory, lo: nat, hi: nat) {
    forall a :: lo <= a < hi ==> Get(mem', a) == Get(mem, a)
  }

  /** Memory changed only inside `[b, e)` and `[lo, hi)`. */
  ghost predicate SameOutside(mem: Memory, mem': Memory, b: nat, e: nat, lo: nat, hi: nat) {
    forall a: nat :: !(b <= a < e) && !(lo <= a < hi) ==> Get(mem', a) == Get(mem, a)
  }

  ghost predicate Extends(tables: Tables, tables': Tables) {
    forall t :: t in tables ==> t in tables' && tables'[t] == tables[t]
  }

  lemma L3Frame(l: Layout, mem: Memory, mem': Memory, base: nat, section: nat, from: nat)
    requires L3Filled(l, mem, base, section, from) && SameOn(mem, mem', base, base + 0x1000)
    ensures L3Filled(l, mem', base, section, from)
  {
    forall i | from <= i < 512 ensures Entry(mem', base, i) == Entry(mem, base, i) {
    }
  }

  lemma L2EntryFrame(l: Layout, mem: Memory, mem': Memory, tables: Tables, tables': Tables,
                     w: nat, addr: nat, lo: nat, hi: nat, lo': nat, hi': nat)
    requires L2EntryFilled(l, mem, tables, w, addr, lo, hi) && lo' <= lo && hi <= hi'
    requires SameOn(mem, mem', lo, hi) && Extends(tables, tables')
    ensures L2EntryFilled(l, mem', tables', w, addr, lo', hi')
  {
    if ClassifyBlock(l, addr, addr + 0x20_0000) == Split {
      L3Frame(l, mem, mem', OutputAddress(w), addr, 0);
    }
  }

  lemma L2Frame(l: Layout, mem: Memory, mem': Memory, tables: Tables, tables': Tables,
                base: nat, section: nat, from: nat, to: nat, lo: nat, hi: nat, lo': nat, hi': nat)
    requires L2Filled(l, mem, tables, base, section, from, to, lo, hi) && to <= 512 && lo' <= lo && hi <= hi'
    requires SameOn(mem, mem', lo, hi) && SameOn(mem, mem', base + 8 * from, base + 8 * to)
    requires Extends(tables, tables')
    ensures L2Filled(l, mem', tables', base, section, from, to, lo', hi')
  {
    forall i | from <= i < to
      ensures L2EntryFilled(l, mem', tables', Entry(mem', base, i), section + i * 0x20_0000, lo', hi')
    {
      assert Entry(mem', base, i) == Entry(mem, base, i);
      L2EntryFrame(l, mem, mem', tables, tables', Entry(mem, base, i), section + i * 0x20_0000, lo, hi, lo', hi');
    }
  }

  /** Filling one more second-level entry, with any table it needs above `mid`. */
  lemma L2Extend(l: Layout, mem: Memory, mem': Memory, tables: Tables, tables': Tables,
                 base: nat, section: nat, from: nat, i: nat, lo: nat, mid: nat, hi: nat)
    requires L2Filled(l, mem, tables, base, section, from, i, lo, mid) && from <= i < 512
    requires L2EntryFilled(l, mem', tables', Entry(mem', base, i), section + i * 0x20_0000, mid, hi)
    requires SameOutside(mem, mem', base + 8 * i, base + 8 * i + 8, mid, hi) && Extends(tables, tables')
    requires base + 0x1000 <= lo <= mid <= hi
    ensures L2Filled(l, mem', tables', base, section, from, i + 1, lo, hi)
  {
    L2Frame(l, mem, mem', tables, tables', base, section, from, i, lo, mid, lo, hi);
    L2EntryFrame(l, mem', mem', tables', tables', Entry(mem', base, i), section + i * 0x20_0000, mid, hi, lo, hi);
  }

  lemma L1EntryFrame(l: Layout, mem: Memory, mem': Memory, tables: Tables, tables': Tables,
                     w: nat, addr: nat, lo: nat, hi: nat, lo': nat, hi': nat)
    requires L1EntryFilled(l, mem, tables, w, addr, lo, hi) && lo' <= lo && hi <= hi'
    requires SameOn(mem, mem', lo, hi) && Extends(tables, tables')
    ensures L1EntryFilled(l, mem', tables', w, addr, lo', hi')
  {
    if ClassifyBlock(l, addr, addr + 0x4000_0000) == Split {
      L2Frame(l, mem, mem', tables, tables', OutputAddress(w), addr, 0, 512, lo, hi, lo', hi');
    }
  }

  lemma L1Frame(l: Layout, mem: Memory, mem': Memory, tables: Tables, tables': Tables,
                base: nat, from: nat, to: nat, lo: nat, hi: nat, hi': nat)
    requires L1Filled(l, mem, tables, base, from, to, lo, hi) && to <= 512 && hi <= hi'
    requires SameOn(mem, mem', lo, hi) && SameOn(mem, mem', base + 8 * from, base + 8 * to)
    requires Extends(tables, tables')
    ensures L1Filled(l, mem', tables', base, from, to, lo, hi')
  {
    forall i | from <= i < to
      ensures L1EntryFilled(l, mem', tables', Entry(mem', base, i), i * 0x4000_0000, lo, hi')
    {
      assert Entry(mem', base, i) == Entry(mem, base, i);
      L1EntryFrame(l, mem, mem', tables, tables', Entry(mem, base, i), i * 0x4000_0000, lo, hi, lo, hi');
    }
  }

  /** Filling one more first-level entry, with any tables it needs above `mid`. */
  lemma L1Extend(l: Layout, mem: Memory, mem': Memory, tables: Tables, tables': Tables,
                 base: nat, from: nat, i: nat, lo: nat, mid: nat, hi: nat)
    requires L1Filled(l, mem, tables, base, from, i, lo, mid) && from <= i < 512
    requires L1EntryFilled(l, mem', tables', Entry(mem', base, i), i * 0x4000_0000, mid, hi)
    requires SameOutside(mem, mem', base + 8 * i, base + 8 * i + 8, mid, hi) && Extends(tables, tables')
    requires base + 0x1000 <= lo <= mid <= hi
    ensures L1Filled(l, mem', tables', base, from, i + 1, lo, hi)
  {
    L1Frame(l, mem, mem', tables, tables', base, from, i, lo, mid, hi);
    L1EntryFrame(l, mem', mem', tables', tables', Entry(mem', base, i), i * 0x4000_0000, mid, hi, lo, hi);
  }

  lemma L1TableEntry(l: Layout, mem: Memory, tables: Tables, w: nat, next: nat, addr: nat, lo: nat, mid: nat, hi: nat)
    requires ClassifyBlock(l, addr, addr + 0x4000_0000) == Split
    requires w % 4 == 3 && OutputAddress(w) == next && lo <= mid <= hi
    requires PageIn(tables, next, BlockTable(addr / 0x4000_0000), lo, mid)
    requires L2Filled(l, mem, tables, next, addr, 0, 512, mid, hi)
    ensures L1EntryFilled(l, mem, tables, w, addr, lo, hi)
  {
    L2Frame(l, mem, mem, tables, tables, next, addr, 0, 512, mid, hi, lo, hi);
  }

  // ---------------------------------------------------------------- pages needed

  ghost predicate CutGigabyte(l: Layout, g: nat) {
    ClassifyBlock(l, g * 0x4000_0000, g * 0x4000_0000 + 0x4000_0000) == Split
  }

  ghost predicate CutBlock(l: Layout, b: nat) {
    ClassifyBlock(l, b * 0x20_0000, b * 0x20_0000 + 0x20_0000) == Split
  }

  /** Gigabytes in `[from, to)` that need a second-level table. */
  ghost function CutGigabytes(l: Layout, from: nat, to: nat): set<nat> {
    set g | from <= g < to && CutGigabyte(l, g)
  }

  /** 2 MB blocks in `[from, to)` that need a third-level table. */
  ghost function CutBlocks(l: Layout, from: nat, to: nat): set<nat> {
    set b | from <= b < to && CutBlock(l, b)
  }

  /** The arena pages `Init` takes: one for every gigabyte and every 2 MB block,
      other than the first of each, that a layout boundary cuts. */
  ghost function PagesNeeded(l: Layout): nat {
    |CutGigabytes(l, 1, 512)| + |CutBlocks(l, 1, 0x4_0000)|
  }

  /** Exactly the blocks with a layout boundary strictly inside are split. */
  lemma CutByBoundary(l: Layout, addr: nat, end: nat)
    requires l.Valid() && addr < end
    ensures ClassifyBlock(l, addr, end) == Split <==>
            addr < l.ramStart < end || addr < l.textEnd < end || addr < l.ramEnd < end
  {
  }

  lemma AtMostThree(s: set<nat>, a: nat, b: nat, c: nat)
    requires s <= {a, b, c}
    ensures |s| <= 3
  {
    SubsetSize(s, {a, b, c});
  }

  lemma {:induction false} SubsetSize(s: set<nat>, t: set<nat>)
    requires s <= t
    ensures |s| <= |t|
    decreases s
  {
    if s != {} {
      var x :| x in s;
      SubsetSize(s - {x}, t - {x});
    }
  }

  /** For every layout, six arena pages are enough for `Init`: each of the
      three boundaries can cut one block per level. */
  lemma SixPagesSuffice(l: Layout)
    requires l.Valid()
    ensures PagesNeeded(l) <= 6
  {
    forall g | g in CutGigabytes(l, 1, 512)
      ensures g in {l.ramStart / 0x4000_0000, l.textEnd / 0x4000_0000, l.ramEnd / 0x4000_0000}
    {
      CutByBoundary(l, g * 0x4000_0000, g * 0x4000_0000 + 0x4000_0000);
    }
    AtMostThree(CutGigabytes(l, 1, 512), l.ramStart / 0x4000_0000, l.textEnd / 0x4000_0000, l.ramEnd / 0x4000_0000);
    forall b | b in CutBlocks(l, 1, 0x4_0000)
      ensures b in {l.ramStart / 0x20_0000, l.textEnd / 0x20_0000, l.ramEnd / 0x20_0000}
    {
      CutByBoundary(l, b * 0x20_0000, b * 0x20_0000 + 0x20_0000);
    }
    AtMostThree(CutBlocks(l, 1, 0x4_0000), l.ramStart / 0x20_0000, l.textEnd / 0x20_0000, l.ramEnd / 0x20_0000);
  }

  /** Some layout needs all six. */
  lemma SixPagesReached(l: Layout)
    requires l == Layout(0x4000_1000, 0xc000_1000, 0x4001_0000, 0x8000_1000)
    ensures l.Valid() && PagesNeeded(l) == 6
  {
    forall g: nat ensures CutGigabyte(l, g) <==> g in {1, 2, 3} {
      CutByBoundary(l, g * 0x4000_0000, g * 0x4000_0000 + 0x4000_0000);
    }
    forall b: nat ensures CutBlock(l, b) <==> b in {0x200, 0x400, 0x600} {
      CutByBoundary(l, b * 0x20_0000, b * 0x20_0000 + 0x20_0000);
    }
    assert CutGigabytes(l, 1, 512) == {1, 2, 3};
    assert CutBlocks(l, 1, 0x4_0000) == {0x200, 0x400, 0x600};
  }

  /** A gigabyte that is not cut has no cut block. */
  lemma UncutGigabyte(l: Layout, g: nat)
    requires l.Valid() && !CutGigabyte(l, g)
    ensures CutBlocks(l, g * 512, g * 512 + 512) == {}
  {
    forall b | g * 512 <= b < g * 512 + 512 ensures !CutBlock(l, b) {
      CutByBoundary(l, g * 0x4000_0000, g * 0x4000_0000 + 0x4000_0000);
      CutByBoundary(l, b * 0x20_0000, b * 0x20_0000 + 0x20_0000);
    }
  }

  lemma CutBlocksAppend(l: Layout, from: nat, mid: nat, to: nat)
    requires from <= mid <= to
    ensures |CutBlocks(l, from, to)| == |CutBlocks(l, from, mid)| + |CutBlocks(l, mid, to)|
  {
    assert CutBlocks(l, from, to) == CutBlocks(l, from, mid) + CutBlocks(l, mid, to);
  }

  lemma CutGigabytesAppend(l: Layout, from: nat, mid: nat, to: nat)
    requires from <= mid <= to
    ensures |CutGigabytes(l, from, to)| == |CutGigabytes(l, from, mid)| + |CutGigabytes(l, mid, to)|
  {
    assert CutGigabytes(l, from, to) == CutGigabytes(l, from, mid) + CutGigabytes(l, mid, to);
  }

  lemma OneBlock(l: Layout, b: nat)
    ensures |CutBlocks(l, b, b + 1)| == if CutBlock(l, b) then 1 else 0
  {
    assert CutBlocks(l, b, b + 1) == if CutBlock(l, b) then {b} else {};
  }

  lemma OneGigabyte(l: Layout, g: nat)
    ensures |CutGigabytes(l, g, g + 1)| == if CutGigabyte(l, g) then 1 else 0
  {
    assert CutGigabytes(l, g, g + 1) == if CutGigabyte(l, g) then {g} else {};
  }

  /** `c[i]` is what entries before `i` of the second-level table for `section` cost, in pages. */
  ghost predicate CostsL2(l: Layout, section: nat, from: nat, c: seq<nat>) {
    |c| == 513 && from <= 512 && c[from] == 0 && forall i :: from <= i < 512 ==> CostL2(l, section, c, i)
  }

  ghost predicate CostL2(l: Layout, section: nat, c: seq<nat>, i: nat)
    requires |c| == 513 && i < 512
  {
    c[i + 1] == c[i] + if ClassifyBlock(l, section + i * 0x20_0000, section + i * 0x20_0000 + 0x20_0000) ==
        Split then 1 else 0
  }

  /** `d[i]` is what first-level entries before `i` cost; `cs[i]` the costs inside gigabyte `i`. */
  ghost predicate CostsL1(l: Layout, from: nat, d: seq<nat>, cs: seq<seq<nat>>) {
    |d| == 513 && |cs| == 512 && from <= 512 && d[from] == 0 && forall i :: from <= i < 512 ==> CostL1(l, d, cs, i)
  }

  ghost predicate CostL1(l: Layout, d: seq<nat>, cs: seq<seq<nat>>, i: nat)
    requires |d| == 513 && |cs| == 512 && i < 512
  {
    && CostsL2(l, i * 0x4000_0000, 0, cs[i])
    && d[i + 1] == d[i] + if CutGigabyte(l, i) then 1 + cs[i][512] else 0
  }

  lemma {:induction false} CostsL2Grow(l: Layout, section: nat, from: nat, c: seq<nat>, i: nat, j: nat)
    requires CostsL2(l, section, from, c) && from <= i <= j <= 512
    ensures c[i] <= c[j]
    decreases j - i
  {
    if i < j {
      CostsL2Grow(l, section, from, c, i, j - 1);
      assert CostL2(l, section, c, j - 1);
    }
  }

  lemma {:induction false} CostsL1Grow(l: Layout, from: nat, d: seq<nat>, cs: seq<seq<nat>>, i: nat, j: nat)
    requires CostsL1(l, from, d, cs) && from <= i <= j <= 512
    ensures d[i] <= d[j]
    decreases j - i
  {
    if i < j {
      CostsL1Grow(l, from, d, cs, i, j - 1);
      assert CostL1(l, d, cs, j - 1);
    }
  }

  lemma SumL2(l: Layout, section: nat, from: nat) returns (c: seq<nat>)
    requires section % 0x4000_0000 == 0 && from <= 512
    ensures CostsL2(l, section, from, c)
    ensures c[512] == |CutBlocks(l, section / 0x20_0000 + from, section / 0x20_0000 + 512)|
  {
    var b := section / 0x20_0000;
    c := seq(513, i requires 0 <= i < 513 => if i < from then 0 else |CutBlocks(l, b + from, b + i)|);
    assert CutBlocks(l, b + from, b + from) == {};
    forall i | from <= i < 512 ensures CostL2(l, section, c, i) {
      SectionEntry(section, i);
      OneBlock(l, b + i);
      CutBlocksAppend(l, b + from, b + i, b + i + 1);
    }
  }

  lemma {:induction false} SumL1(l: Layout, from: nat, end: nat) returns (d: seq<nat>, cs: seq<seq<nat>>)
    requires l.Valid() && from <= end <= 512
    ensures |d| == end + 1 && |cs| == end && d[from] == 0
    ensures forall i :: from <= i < end ==> CostsL2(l, i * 0x4000_0000, 0, cs[i])
    ensures forall i :: from <= i < end ==>
            |cs[i]| == 513 && d[i + 1] == d[i] + if CutGigabyte(l, i) then 1 + cs[i][512] else 0
    ensures d[end] == |CutGigabytes(l, from, end)| + |CutBlocks(l, from * 512, end * 512)|
    decreases end
  {
    if from == end {
      assert CutGigabytes(l, from, end) == {} && CutBlocks(l, from * 512, end * 512) == {};
      d, cs := seq(end + 1, _ => 0), seq(end, _ => []);
    } else {
      var g := end - 1;
      d, cs := SumL1(l, from, g);
      var section := g * 0x4000_0000;
      RemainderUnique(section, g, 0, 0x4000_0000);
      SectionEntry(section, 0);
      var c := SumL2(l, section, 0);
      OneGigabyte(l, g);
      CutGigabytesAppend(l, from, g, end);
      CutBlocksAppend(l, from * 512, g * 512, end * 512);
      if !CutGigabyte(l, g) { UncutGigabyte(l, g); }
      hide CutGigabytes, CutBlocks, CutGigabyte, CostsL2;
      d, cs := d + [d[g] + if CutGigabyte(l, g) then 1 + c[512] else 0], cs + [c];
    }
  }

  // ---------------------------------------------------------------- loop progress

  /** The part of the builder's state its loops change. */
  datatype Build = Build(mem: Memory, tables: Tables, next: nat)

  /** One second-level entry was written, with its table if it needs one. */
  ghost predicate DidL2(l: Layout, s: Build, s': Build, base: nat, i: nat, addr: nat) {
    && s.next <= s'.next
    && Extends(s.tables, s'.tables)
    && L2EntryFilled(l, s'.mem, s'.tables, Entry(s'.mem, base, i), addr, s.next, s'.next)
    && SameOutside(s.mem, s'.mem, base + 8 * i, base + 8 * i + 8, s.next, s'.next)
  }

  /** Entries `entry..i` of a second-level table were written. */
  ghost predicate DidL2s(l: Layout, s: Build, s': Build, base: nat, section: nat, entry: nat, i: nat) {
    && s.next <= s'.next
    && Extends(s.tables, s'.tables)
    && L2Filled(l, s'.mem, s'.tables, base, section, entry, i, s.next, s'.next)
    && SameOutside(s.mem, s'.mem, base + 8 * entry, base + 8 * i, s.next, s'.next)
  }

  lemma StepL2(l: Layout, s: Build, s': Build, s'': Build, base: nat, section: nat, entry: nat, i: nat)
    requires entry <= i < 512 && base + 0x1000 <= s.next && section % 0x4000_0000 == 0
    requires DidL2s(l, s, s', base, section, entry, i)
    requires DidL2(l, s', s'', base, i, section + i * 0x20_0000)
    ensures DidL2s(l, s, s'', base, section, entry, i + 1)
  {
    L2Extend(l, s'.mem, s''.mem, s'.tables, s''.tables, base, section, entry, i, s.next, s'.next, s''.next);
  }

  /** One first-level entry was written, with its tables if it needs any. */
  ghost predicate DidL1(l: Layout, s: Build, s': Build, base: nat, i: nat) {
    && s.next <= s'.next
    && Extends(s.tables, s'.tables)
    && L1EntryFilled(l, s'.mem, s'.tables, Entry(s'.mem, base, i), i * 0x4000_0000, s.next, s'.next)
    && SameOutside(s.mem, s'.mem, base + 8 * i, base + 8 * i + 8, s.next, s'.next)
  }

  /** Entries `entry..i` of the first-level table were written. */
  ghost predicate DidL1s(l: Layout, s: Build, s': Build, base: nat, entry: nat, i: nat) {
    && s.next <= s'.next
    && Extends(s.tables, s'.tables)
    && L1Filled(l, s'.mem, s'.tables, base, entry, i, s.next, s'.next)
    && SameOutside(s.mem, s'.mem, base + 8 * entry, base + 8 * i, s.next, s'.next)
  }

  lemma StepL1(l: Layout, s: Build, s': Build, s'': Build, base: nat, entry: nat, i: nat)
    requires entry <= i < 512 && base + 0x1000 <= s.next
    requires DidL1s(l, s, s', base, entry, i)
    requires DidL1(l, s', s'', base, i)
    ensures DidL1s(l, s, s'', base, entry, i + 1)
  {
    L1Extend(l, s'.mem, s''.mem, s'.tables, s''.tables, base, entry, i, s.next, s'.next, s''.next);
  }

  /** A split first-level entry: `s1` is the state with the entry linked to the page `s.next`. */
  lemma SplitL1(l: Layout, s: Build, s1: Build, s2: Build, base: nat, i: nat, addr: nat)
    requires l.Valid() && addr == i * 0x4000_0000 && CutGigabyte(l, i) && i < 512
    requires base + 0x1000 <= s.next && s.next % 0x1000 == 0 && s.next < 0x1_0000_0000_0000
    requires s1.next == s.next + 0x1000 && s.next !in s.tables
    requires s1.tables == s.tables[s.next := BlockTable(i)]
    requires s1.mem == s.mem[base + 8 * i := Or(s.next, 3)]
    requires DidL2s(l, s1, s2, s.next, addr, 0, 512)
    ensures DidL1(l, s, s2, base, i)
  {
    TableWord(s.next);
    assert Entry(s2.mem, base, i) == s.next + 3;
    L1TableEntry(l, s2.mem, s2.tables, s.next + 3, s.next, addr, s.next, s1.next, s2.next);
  }

  // ---------------------------------------------------------------- walking filled tables

  lemma FilledPage(l: Layout, w: nat, addr: nat, va: nat)
    requires l.Valid() && addr % 0x1000 == 0 && addr <= va < addr + 0x1000 && va < 0x80_0000_0000
    requires ClassifyBlock(l, addr, addr + 0x1000) != Split
    requires w == MappingWord(addr, 3, ClassifyBlock(l, addr, addr + 0x1000))
    ensures w % 4 == 3 && PageL3(w, va) == Flat(l, va)
  {
    MappingKind(addr, 3, ClassifyBlock(l, addr, addr + 0x1000));
    LeafL3(l, addr, va);
  }

  lemma WalkFilledL3(l: Layout, mem: Memory, base: nat, section: nat, from: nat, va: nat)
    requires l.Valid() && L3Filled(l, mem, base, section, from)
    requires section % 0x20_0000 == 0 && section <= va < section + 0x20_0000 && va < 0x80_0000_0000
    requires section + from * 0x1000 <= va
    ensures WalkL3(mem, base, va) == Flat(l, va)
  {
    var i := va / 0x1000 % 512;
    PageIndex(section, va, i);
    FilledPage(l, Entry(mem, base, i), section + i * 0x1000, va);
  }

  lemma PageIndex(section: nat, va: nat, i: nat)
    requires section % 0x20_0000 == 0 && section <= va < section + 0x20_0000 && i == va / 0x1000 % 512
    ensures i < 512 && section + i * 0x1000 <= va < section + i * 0x1000 + 0x1000
    ensures (section + i * 0x1000) % 0x1000 == 0
  {
    var q, r := section / 0x20_0000, (va - section) / 0x1000;
    RemainderUnique(va, q * 512 + r, (va - section) % 0x1000, 0x1000);
    RemainderUnique(q * 512 + r, q, r, 512);
    RemainderUnique(section + i * 0x1000, q * 512 + i, 0, 0x1000);
  }

  lemma FilledBlock(l: Layout, w: nat, addr: nat, va: nat)
    requires l.Valid() && addr % 0x20_0000 == 0 && addr <= va < addr + 0x20_0000 && va < 0x80_0000_0000
    requires ClassifyBlock(l, addr, addr + 0x20_0000) != Split
    requires w == MappingWord(addr, 1, ClassifyBlock(l, addr, addr + 0x20_0000))
    ensures w % 4 == 1 && BlockL2(w, va) == Flat(l, va)
  {
    TwoMegabytes(addr);
    MappingKind(addr, 1, ClassifyBlock(l, addr, addr + 0x20_0000));
    LeafL2(l, addr, va);
  }

  lemma WalkFilledL2(l: Layout, mem: Memory, tables: Tables, base: nat, addr: nat, lo: nat, hi: nat, va: nat)
    requires l.Valid() && addr % 0x20_0000 == 0 && addr <= va < addr + 0x20_0000 && va < 0x80_0000_0000
    requires L2EntryFilled(l, mem, tables, Entry(mem, base, va / 0x20_0000 % 512), addr, lo, hi)
    ensures WalkL2(mem, base, va) == Flat(l, va)
  {
    var w := Entry(mem, base, va / 0x20_0000 % 512);
    if ClassifyBlock(l, addr, addr + 0x20_0000) != Split {
      FilledBlock(l, w, addr, va);
    } else {
      WalkFilledL3(l, mem, OutputAddress(w), addr, 0, va);
    }
  }

  lemma FilledGigabyte(l: Layout, w: nat, addr: nat, va: nat)
    requires l.Valid() && addr % 0x4000_0000 == 0 && addr <= va < addr + 0x4000_0000 && va < 0x80_0000_0000
    requires ClassifyBlock(l, addr, addr + 0x4000_0000) != Split
    requires w == MappingWord(addr, 1, ClassifyBlock(l, addr, addr + 0x4000_0000))
    ensures w % 4 == 1 && BlockL1(w, va) == Flat(l, va)
    ensures w < 0x1_0000_0000_0000_0000 && OutputAddress(w) == addr
  {
    Gigabyte(addr);
    TwoMegabytes(addr);
    MappingKind(addr, 1, ClassifyBlock(l, addr, addr + 0x4000_0000));
    LeafL1(l, addr, va);
  }

  lemma BlockIndex(section: nat, va: nat, i: nat)
    requires section % 0x4000_0000 == 0 && section <= va < section + 0x4000_0000 && i == va / 0x20_0000 % 512
    ensures i < 512 && section + i * 0x20_0000 <= va < section + i * 0x20_0000 + 0x20_0000
    ensures (section + i * 0x20_0000) % 0x20_0000 == 0
  {
    var q, r := section / 0x4000_0000, (va - section) / 0x20_0000;
    RemainderUnique(va, q * 512 + r, (va - section) % 0x20_0000, 0x20_0000);
    RemainderUnique(q * 512 + r, q, r, 512);
    RemainderUnique(section + i * 0x20_0000, q * 512 + i, 0, 0x20_0000);
  }

  lemma GigabyteIndex(va: nat, g: nat)
    requires g == va / 0x4000_0000
    ensures g * 0x4000_0000 % 0x4000_0000 == 0 && g * 0x4000_0000 <= va < g * 0x4000_0000 + 0x4000_0000
  {
    RemainderUnique(g * 0x4000_0000, g, 0, 0x4000_0000);
  }

  lemma WalkFilledL1(l: Layout, mem: Memory, tables: Tables, root: nat, lo: nat, hi: nat, va: nat)
    requires l.Valid() && va < 0x80_0000_0000
    requires L1EntryFilled(l, mem, tables, Entry(mem, root, va / 0x4000_0000), va / 0x4000_0000 * 0x4000_0000, lo, hi)
    ensures Walk(mem, root, va) == Flat(l, va)
  {
    var g := va / 0x4000_0000;
    var addr := g * 0x4000_0000;
    var w := Entry(mem, root, g);
    GigabyteIndex(va, g);
    if ClassifyBlock(l, addr, addr + 0x4000_0000) != Split {
      FilledGigabyte(l, w, addr, va);
    } else {
      var i := va / 0x20_0000 % 512;
      BlockIndex(addr, va, i);
      WalkFilledL2(l, mem, tables, OutputAddress(w), addr + i * 0x20_0000, lo, hi, va);
    }
  }

  lemma TableWord(next: nat)
    requires next % 0x1000 == 0 && next < 0x1_0000_0000_0000
    ensures Or(next, 3) == next + 3 && Or(next, 3) % 4 == 3 && OutputAddress(Or(next, 3)) == next
  {
    OrLow(next, 3);
    WordFields(next, 3, 0);
  }

  lemma SectionEntry(section: nat, i: nat)
    requires section % 0x4000_0000 == 0
    ensures (section + i * 0x20_0000) % 0x20_0000 == 0
    ensures section / 0x20_0000 == section / 0x4000_0000 * 512
    ensures (section / 0x20_0000 + i) * 0x20_0000 == section + i * 0x20_0000
  {
    var q := section / 0x4000_0000 * 512;
    RemainderUnique(section, q, 0, 0x20_0000);
    RemainderUnique(section + i * 0x20_0000, q + i, 0, 0x20_0000);
  }

  // ---------------------------------------------------------------- the table map

  /** Where tables may be: the three fixed pages, or the arena handed out so far. */
  ghost predicate Located(l: Layout, tables: Tables, arenaNext: nat) {
    forall t :: t in tables ==>
      && t % 0x1000 == 0
      && (t == l.L1() || t == l.L2() || t == l.L3() || l.Arena() <= t)
      && t + 0x1000 <= arenaNext
  }

  /** Tables never overlap each other, the vector table below them or the text above them. */
  lemma TablesNeverOverlap(l: Layout, tables: Tables, arenaNext: nat, t: nat, t': nat)
    requires l.Valid() && Located(l, tables, arenaNext) && arenaNext <= l.textStart
    requires t in tables && t' in tables && t != t'
    ensures t + 0x1000 <= t' || t' + 0x1000 <= t
    ensures l.ramStart + 0x4000 <= t && t + 0x1000 <= l.textStart
  {
    var p, p' := t / 0x1000, t' / 0x1000;
    assert t == p * 0x1000 && t' == p' * 0x1000;
  }
}
