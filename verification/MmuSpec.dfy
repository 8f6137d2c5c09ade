/** Translation tables of arm64/mmu.go: descriptors, the hardware walk of
    sections D5.3.1 and D5.3.2 of the ARM Architecture Reference Manual ARMv8,
    and the address space the tables are meant to describe. */
module MmuSpec {
  import opened Bits

  // ---------------------------------------------------------------- memory

  /** Physical memory as 64-bit words; an address never written reads as zero. */
  type Memory = map<nat, nat>

  function Get(mem: Memory, a: nat): nat {
    if a in mem then mem[a] else 0
  }

  /** Entry `i` of the table at `base`. */
  function Entry(mem: Memory, base: nat, i: nat): nat {
    Get(mem, base + 8 * i)
  }

  // ---------------------------------------------------------------- descriptors

  /** Output address bits [47:12] of a descriptor. */
  function OutputAddress(w: nat): (a: nat)
    ensures a % 0x1000 == 0
  {
    w / 0x1000 % 0x10_0000_0000 * 0x1000
  }

  datatype Translation = Fault | Mapped(pa: nat, lower: nat, upper: nat)
  {
    /** The attribute index selects a byte of MAIR_EL1: 0 is Device-nGnRnE, 1 is Normal write-back. */
    predicate Normal() { Mapped? && lower % 8 == 1 }

    /** Neither the privileged nor the unprivileged execute-never bit is set. */
    predicate Executable() { Mapped? && upper / 0x20 % 4 == 0 }

    /** Both are, and no other upper attribute. */
    predicate NeverExecutable() { Mapped? && upper == 3 * 0x20 }

    predicate Device() { Mapped? && lower % 8 == 0 }

    /** Access permissions AP[2:1] (bits [7:6] of the descriptor) are 00: read and
        write at EL1, nothing at EL0. */
    predicate ReadWrite() { Mapped? && lower / 0x10 % 4 == 0 }

    /** SH (bits [9:8]): 2 is outer, 3 inner shareable. */
    function Shareability(): nat
      requires Mapped?
    {
      lower / 0x40 % 4
    }

    predicate Shareable() { Mapped? && Shareability() >= 2 }

    /** Neither the non-secure bit (5) nor the not-global bit (11), access flag set. */
    predicate Global() { Mapped? && lower / 8 % 2 == 0 && lower / 0x100 == 1 }
  }

  /** A block or page descriptor: it faults when the access flag (bit 10) is
      clear; lower attributes are bits [11:2], upper attributes bits [63:48]. */
  function Leaf(w: nat, base: nat, offset: nat): Translation {
    if w / 0x400 % 2 == 0 then Fault
    else Mapped(base + offset, w % 0x1000 / 4, w / 0x1_0000_0000_0000)
  }

  function BlockL1(w: nat, va: nat): Translation {
    Leaf(w, w % 0x1_0000_0000_0000 / 0x4000_0000 * 0x4000_0000, va % 0x4000_0000)
  }

  function BlockL2(w: nat, va: nat): Translation {
    Leaf(w, w % 0x1_0000_0000_0000 / 0x20_0000 * 0x20_0000, va % 0x20_0000)
  }

  function PageL3(w: nat, va: nat): Translation {
    Leaf(w, w % 0x1_0000_0000_0000 / 0x1000 * 0x1000, va % 0x1000)
  }

  function WalkL3(mem: Memory, table: nat, va: nat): Translation {
    var w := Entry(mem, table, va / 0x1000 % 512);
    if w % 4 == 3 then PageL3(w, va) else Fault
  }

  function WalkL2(mem: Memory, table: nat, va: nat): Translation {
    var w := Entry(mem, table, va / 0x20_0000 % 512);
    if w % 4 == 1 then BlockL2(w, va)
    else if w % 4 == 3 then WalkL3(mem, OutputAddress(w), va)
    else Fault
  }

  /** The three-level walk from the table TTBR0_EL1 points to, 39-bit addresses. */
  function Walk(mem: Memory, root: nat, va: nat): Translation
    requires va < 0x80_0000_0000
  {
    var w := Entry(mem, root, va / 0x4000_0000);
    if w % 4 == 1 then BlockL1(w, va)
    else if w % 4 == 3 then WalkL2(mem, OutputAddress(w), va)
    else Fault
  }

  // ---------------------------------------------------------------- layout

  /** The bounds `init` takes from the runtime, after page rounding. */
  datatype Layout = Layout(ramStart: nat, ramEnd: nat, textStart: nat, textEnd: nat)
  {
    ghost predicate Valid() {
      && ramStart % 0x1000 == 0 && ramEnd % 0x1000 == 0 && textStart % 0x1000 == 0 && textEnd % 0x1000 == 0
      && ramStart + 0x7000 < textStart <= textEnd <= ramEnd <= 0x1_0000_0000_0000
    }

    function L1(): nat { ramStart + 0x4000 }
    function L2(): nat { ramStart + 0x5000 }
    function L3(): nat { ramStart + 0x6000 }
    function Arena(): nat { ramStart + 0x7000 }
  }

  /** What the address space must look like: null page, executable text below
      `textEnd`, execute-never RAM above it, execute-never device elsewhere. */
  function Expected(l: Layout, va: nat): (t: Translation)
    ensures va < 0x1000 <==> t.Fault?
    ensures t.Mapped? ==> t.pa == va
    ensures t.Normal() <==> va >= 0x1000 && (l.ramStart <= va < l.textEnd || l.textEnd <= va < l.ramEnd)
    ensures t.Executable() <==> va >= 0x1000 && l.ramStart <= va < l.textEnd
    ensures t.Mapped? ==> if t.Executable() then t.upper == 0 else t.NeverExecutable()
    ensures t.Mapped? ==> t.ReadWrite() && t.Shareable() && t.Global()
    ensures t.Mapped? ==> t.Shareability() == if t.Normal() then 3 else 2
    ensures t.Mapped? && !t.Normal() ==> t.Device()
  {
    if va < 0x1000 then Fault else Flat(l, va)
  }

  /** The pages between the start of RAM and the text, tables and arena among
      them, are executable too, for every accepted layout. */
  lemma ExecutableBeforeText(l: Layout, va: nat)
    requires l.Valid() && 0x1000 <= va
    ensures Expected(l, va).Executable() <==> l.ramStart <= va < l.textStart || l.textStart <= va < l.textEnd
    ensures l.ramStart <= l.L1() < l.Arena() < l.textStart && Expected(l, l.L1()).Executable()
            && Expected(l, l.Arena()).Executable()
  {
  }

  /** The mapping of an address the tables do not trap: attributes 0x704 are
      access flag, inner shareable, index 1; 0x600 access flag, outer shareable, index 0. */
  function Flat(l: Layout, va: nat): Translation {
    if l.ramStart <= va < l.textEnd then Mapped(va, 0x704 / 4, 0)
    else if l.textEnd <= va < l.ramEnd then Mapped(va, 0x704 / 4, 0x60)
    else Mapped(va, 0x600 / 4, 0x60)
  }

  datatype Action = Device | MemoryExec | MemoryXN | Split

  function ClassifyBlock(l: Layout, addr: nat, end: nat): Action {
    if addr >= l.ramStart && end <= l.textEnd then MemoryExec
    else if addr >= l.textEnd && end <= l.ramEnd then MemoryXN
    else if addr >= l.ramStart && end <= l.ramEnd then Split
    else if addr < l.ramEnd && end > l.ramStart then Split
    else Device
  }

  const EXECUTE_NEVER: nat := 0x60_0000_0000_0000

  /** The word `writeMapping` stores; `kind` is the descriptor type of the level. */
  function MappingWord(addr: nat, kind: nat, action: Action): nat
    requires action != Split
  {
    match action
    case MemoryExec => Or(addr, 0x704 + kind)
    case MemoryXN => Or(Or(addr, 0x704 + kind), EXECUTE_NEVER)
    case Device => Or(Or(addr, 0x600 + kind), EXECUTE_NEVER)
  }

  // ---------------------------------------------------------------- bit fields

  lemma OrLow(addr: nat, l: nat)
    requires addr % 0x1000 == 0 && l < 0x1000
    ensures Or(addr, l) == addr + l
  {
    Pow2Values();
    ShlIsProduct(addr / 0x1000, 12);
    ShlZero(12);
    OrSplit(addr / 0x1000, 0, 0, l, 12);
  }

  lemma OrHigh(x: nat, h: nat)
    requires x < 0x1_0000_0000_0000
    ensures Or(x, h * 0x1_0000_0000_0000) == x + h * 0x1_0000_0000_0000
  {
    Pow2Values();
    ShlIsProduct(h, 48);
    ShlZero(48);
    OrSplit(0, x, h, 0, 48);
  }

  /** `tte & outputAddressMask` is the output address. */
  lemma MaskAddress(w: nat)
    ensures And(w, 0xffff_ffff_f000) == OutputAddress(w)
  {
    hide Shl, Pow2;
    Pow2Values();
    var hi, mid, lo := w / 0x1_0000_0000_0000, w / 0x1000 % 0x10_0000_0000, w % 0x1000;
    MaskAt(w, hi, mid, lo, 0, 0xf_ffff_ffff, 0);
    AndOnes(mid, 36);
  }

  /** `tte & ^outputAddressMask` is the rest. */
  lemma MaskAttributes(w: nat)
    requires w < 0x1_0000_0000_0000_0000
    ensures And(w, 0xffff_0000_0000_0fff) == w / 0x1_0000_0000_0000 * 0x1_0000_0000_0000 + w % 0x1000
  {
    Pow2Values();
    var hi, mid, lo := w / 0x1_0000_0000_0000, w / 0x1000 % 0x10_0000_0000, w % 0x1000;
    MaskAt(w, hi, mid, lo, 0xffff, 0, 0xfff);
    AndOnes(lo, 12);
    AndOnes(hi, 16);
  }

  lemma AndAt48(hi: nat, x: nat, mh: nat, y: nat)
    requires x < 0x1_0000_0000_0000 && y < 0x1_0000_0000_0000
    ensures And(hi * 0x1_0000_0000_0000 + x, mh * 0x1_0000_0000_0000 + y) ==
            And(hi, mh) * 0x1_0000_0000_0000 + And(x, y)
  {
    hide And, Shl, Pow2;
    Pow2Values();
    ShlIsProduct(hi, 48);
    ShlIsProduct(mh, 48);
    ShlIsProduct(And(hi, mh), 48);
    AndSplit(hi, x, mh, y, 48);
  }

  lemma AndAt12(hi: nat, x: nat, mh: nat, y: nat)
    requires x < 0x1000 && y < 0x1000
    ensures And(hi * 0x1000 + x, mh * 0x1000 + y) == And(hi, mh) * 0x1000 + And(x, y)
  {
    hide And, Shl, Pow2;
    Pow2Values();
    ShlIsProduct(hi, 12);
    ShlIsProduct(mh, 12);
    ShlIsProduct(And(hi, mh), 12);
    AndSplit(hi, x, mh, y, 12);
  }

  lemma MaskAt(w: nat, hi: nat, mid: nat, lo: nat, mh: nat, mm: nat, ml: nat)
    requires mid < 0x10_0000_0000 && lo < 0x1000 && mm < 0x10_0000_0000 && ml < 0x1000
    requires w == hi * 0x1_0000_0000_0000 + mid * 0x1000 + lo
    ensures And(w, mh * 0x1_0000_0000_0000 + mm * 0x1000 + ml)
         == And(hi, mh) * 0x1_0000_0000_0000 + And(mid, mm) * 0x1000 + And(lo, ml)
  {
    AndAt48(hi, mid * 0x1000 + lo, mh, mm * 0x1000 + ml);
    AndAt12(mid, lo, mm, ml);
  }

  /** The fields of a word put together from an address, low bits and high bits. */
  lemma WordFields(addr: nat, low: nat, hi: nat)
    requires addr % 0x1000 == 0 && addr < 0x1_0000_0000_0000 && low < 0x1000
    ensures var w := addr + low + hi * 0x1_0000_0000_0000;
            && w % 0x1_0000_0000_0000 == addr + low && w / 0x1_0000_0000_0000 == hi
            && w % 0x1000 == low && w % 4 == low % 4 && w / 0x400 % 2 == low / 0x400 % 2
            && OutputAddress(w) == addr
  {
    var w := addr + low + hi * 0x1_0000_0000_0000;
    RemainderUnique(w, hi, addr + low, 0x1_0000_0000_0000);
    PageFields(w, addr / 0x1000, low, hi);
  }

  lemma PageFields(w: nat, p: nat, low: nat, hi: nat)
    requires p < 0x10_0000_0000 && low < 0x1000
    requires w == p * 0x1000 + low + hi * 0x1_0000_0000_0000
    ensures w % 0x1000 == low && w % 4 == low % 4 && w / 0x400 % 2 == low / 0x400 % 2
    ensures OutputAddress(w) == p * 0x1000
  {
    var q := p + hi * 0x10_0000_0000;
    RemainderUnique(w, q, low, 0x1000);
    RemainderUnique(q, hi, p, 0x10_0000_0000);
    LowBits(w, q, low);
  }

  lemma LowBits(w: nat, q: nat, low: nat)
    requires low < 0x1000 && w == q * 0x1000 + low
    ensures w % 4 == low % 4 && w / 0x400 % 2 == low / 0x400 % 2
  {
    RemainderUnique(w, q * 0x400 + low / 4, low % 4, 4);
    var h := low / 0x400;
    RemainderUnique(w, q * 4 + h, low % 0x400, 0x400);
    RemainderUnique(q * 4 + h, q * 2 + h / 2, h % 2, 2);
  }

  ghost function Low(kind: nat, action: Action): nat {
    (if action == Device then 0x600 else 0x704) + kind
  }

  ghost function High(action: Action): nat {
    if action == MemoryExec then 0 else 0x60
  }

  lemma MappingFields(addr: nat, kind: nat, action: Action)
    requires action != Split && kind < 4 && addr % 0x1000 == 0 && addr < 0x1_0000_0000_0000
    ensures MappingWord(addr, kind, action) == addr + Low(kind, action) + High(action) * 0x1_0000_0000_0000
  {
    OrLow(addr, Low(kind, action));
    OrHigh(addr + Low(kind, action), 0x60);
  }

  lemma LowFields(kind: nat, action: Action)
    requires kind < 4
    ensures var low := Low(kind, action);
            low < 0x1000 && low % 4 == kind && low / 0x400 % 2 == 1 && low / 4 == Low(0, action) / 4
  {
  }

  /** The stored word decodes to the address and attributes it was built from. */
  lemma MappingDecodes(addr: nat, kind: nat, action: Action)
    requires action != Split && kind < 4 && addr % 0x1000 == 0 && addr < 0x1_0000_0000_0000
    ensures var w := MappingWord(addr, kind, action);
            && w % 4 == kind && w / 0x400 % 2 == 1 && OutputAddress(w) == addr
            && w % 0x1_0000_0000_0000 == addr + Low(kind, action)
            && w % 0x1000 / 4 == Low(0, action) / 4
            && w / 0x1_0000_0000_0000 == High(action)
            && w < 0x1_0000_0000_0000_0000
  {
    MappingFields(addr, kind, action);
    LowFields(kind, action);
    WordFields(addr, Low(kind, action), High(action));
  }

  lemma MappingKind(addr: nat, kind: nat, action: Action)
    requires action != Split && kind < 4 && addr % 0x1000 == 0 && addr < 0x1_0000_0000_0000
    ensures MappingWord(addr, kind, action) % 4 == kind
    ensures MappingWord(addr, kind, action) < 0x1_0000_0000_0000_0000
    ensures OutputAddress(MappingWord(addr, kind, action)) == addr
  {
    MappingDecodes(addr, kind, action);
  }

  /** A block that is not split has one mapping throughout. */
  lemma UniformBlock(l: Layout, addr: nat, end: nat, va: nat)
    requires l.Valid() && addr <= va < end && ClassifyBlock(l, addr, end) != Split
    ensures var action := ClassifyBlock(l, addr, end);
            Flat(l, va) == Mapped(va, Low(0, action) / 4, High(action))
  {
  }

  /** Pages are never split, so the alignment panic of `classifyPage` is unreachable. */
  lemma PageNeverSplit(l: Layout, addr: nat)
    requires l.Valid() && addr % 0x1000 == 0
    ensures ClassifyBlock(l, addr, addr + 0x1000) != Split
  {
  }

  lemma LeafBase1(w: nat, addr: nat, low: nat, va: nat)
    requires addr % 0x4000_0000 == 0 && addr <= va < addr + 0x4000_0000 && low < 0x1000
    requires w % 0x1_0000_0000_0000 == addr + low
    ensures BlockL1(w, va) == Leaf(w, addr, va - addr)
  {
    RemainderUnique(addr + low, addr / 0x4000_0000, low, 0x4000_0000);
    RemainderUnique(va, addr / 0x4000_0000, va - addr, 0x4000_0000);
  }

  lemma LeafBase2(w: nat, addr: nat, low: nat, va: nat)
    requires addr % 0x20_0000 == 0 && addr <= va < addr + 0x20_0000 && low < 0x1000
    requires w % 0x1_0000_0000_0000 == addr + low
    ensures BlockL2(w, va) == Leaf(w, addr, va - addr)
  {
    RemainderUnique(addr + low, addr / 0x20_0000, low, 0x20_0000);
    RemainderUnique(va, addr / 0x20_0000, va - addr, 0x20_0000);
  }

  lemma LeafBase3(w: nat, addr: nat, low: nat, va: nat)
    requires addr % 0x1000 == 0 && addr <= va < addr + 0x1000 && low < 0x1000
    requires w % 0x1_0000_0000_0000 == addr + low
    ensures PageL3(w, va) == Leaf(w, addr, va - addr)
  {
    RemainderUnique(addr + low, addr / 0x1000, low, 0x1000);
    RemainderUnique(va, addr / 0x1000, va - addr, 0x1000);
  }

  lemma Gigabyte(addr: nat)
    requires addr % 0x4000_0000 == 0
    ensures addr % 0x20_0000 == 0
  {
    RemainderUnique(addr, addr / 0x4000_0000 * 0x200, 0, 0x20_0000);
  }

  lemma TwoMegabytes(addr: nat)
    requires addr % 0x20_0000 == 0
    ensures addr % 0x1000 == 0
  {
    RemainderUnique(addr, addr / 0x20_0000 * 0x200, 0, 0x1000);
  }

  /** The leaf written for an unsplit block, read back with base address `base`. */
  lemma LeafMapping(l: Layout, addr: nat, end: nat, kind: nat, base: nat, offset: nat)
    requires l.Valid() && addr <= base + offset < end && ClassifyBlock(l, addr, end) != Split
    requires kind < 4 && addr % 0x1000 == 0 && addr < 0x1_0000_0000_0000
    ensures Leaf(MappingWord(addr, kind, ClassifyBlock(l, addr, end)), base, offset) == Flat(l, base + offset)
  {
    MappingDecodes(addr, kind, ClassifyBlock(l, addr, end));
    UniformBlock(l, addr, end, base + offset);
  }

  lemma MappingAddress(addr: nat, kind: nat, action: Action)
    requires action != Split && kind < 4 && addr % 0x1000 == 0 && addr < 0x1_0000_0000_0000
    ensures MappingWord(addr, kind, action) % 0x1_0000_0000_0000 == addr + Low(kind, action) < addr + 0x1000
  {
    MappingDecodes(addr, kind, action);
  }

  lemma LeafL1(l: Layout, addr: nat, va: nat)
    requires l.Valid() && addr % 0x4000_0000 == 0 && addr <= va < addr + 0x4000_0000 && va < 0x80_0000_0000
    requires ClassifyBlock(l, addr, addr + 0x4000_0000) != Split
    ensures BlockL1(MappingWord(addr, 1, ClassifyBlock(l, addr, addr + 0x4000_0000)), va) == Flat(l, va)
  {
    Gigabyte(addr);
    TwoMegabytes(addr);
    var action := ClassifyBlock(l, addr, addr + 0x4000_0000);
    MappingAddress(addr, 1, action);
    LeafBase1(MappingWord(addr, 1, action), addr, Low(1, action), va);
    LeafMapping(l, addr, addr + 0x4000_0000, 1, addr, va - addr);
  }

  lemma LeafL2(l: Layout, addr: nat, va: nat)
    requires l.Valid() && addr % 0x20_0000 == 0 && addr <= va < addr + 0x20_0000 && va < 0x80_0000_0000
    requires ClassifyBlock(l, addr, addr + 0x20_0000) != Split
    ensures BlockL2(MappingWord(addr, 1, ClassifyBlock(l, addr, addr + 0x20_0000)), va) == Flat(l, va)
  {
    TwoMegabytes(addr);
    var action := ClassifyBlock(l, addr, addr + 0x20_0000);
    MappingAddress(addr, 1, action);
    LeafBase2(MappingWord(addr, 1, action), addr, Low(1, action), va);
    LeafMapping(l, addr, addr + 0x20_0000, 1, addr, va - addr);
  }

  lemma LeafL3(l: Layout, addr: nat, va: nat)
    requires l.Valid() && addr % 0x1000 == 0 && addr <= va < addr + 0x1000 && va < 0x80_0000_0000
    ensures ClassifyBlock(l, addr, addr + 0x1000) != Split
    ensures PageL3(MappingWord(addr, 3, ClassifyBlock(l, addr, addr + 0x1000)), va) == Flat(l, va)
  {
    PageNeverSplit(l, addr);
    var action := ClassifyBlock(l, addr, addr + 0x1000);
    MappingAddress(addr, 3, action);
    LeafBase3(MappingWord(addr, 3, action), addr, Low(3, action), va);
    LeafMapping(l, addr, addr + 0x1000, 3, addr, va - addr);
  }
}
