/**
 * Four-level paging: the index and address macros, the walk the processor does (AMD64 Architecture
 * Programmer's Manual Volume 2, section 5.3), and what the recursive slot makes of the two together.
 */
module Paging {
  import opened Options

  datatype Virtual = Virtual(address: bv64)
  datatype Frame = Frame(address: bv64)
  datatype Index = Index(value: bv64)
  datatype Pte = Pte(bits: bv64)

  /** A physical word: a page frame and one of its 512 entries. */
  datatype Word = Word(frame: Frame, index: Index)

  /** A physical address, split into page frame and offset. */
  datatype Physical = Physical(frame: Frame, offset: bv64) {
    function AsWord(): Word { Word(frame, Index(offset >> 3)) }
    function Address(): bv64 { frame.address + offset }
  }

  type Memory = map<Word, Pte>

  const PRESENT: bv64 := 0x1
  const READ_WRITE: bv64 := 0x2
  const USER: bv64 := 0x4
  const PAGE_SIZE_BIT: bv64 := 0x80
  const SIGN_EXT: bv64 := 0xFFFF_0000_0000_0000
  const RECURSIVE_SLOT: bv64 := 511
  const RECURSIVE := Index(511)

  function Pml4Index(v: Virtual): Index { Index((v.address >> 39) & 0x1FF) }
  function PdptIndex(v: Virtual): Index { Index((v.address >> 30) & 0x1FF) }
  function PdtIndex(v: Virtual): Index { Index((v.address >> 21) & 0x1FF) }
  function PtIndex(v: Virtual): Index { Index((v.address >> 12) & 0x1FF) }

  predicate IsIndex(i: Index) { i.value < 512 }

  predicate IsPresent(e: Pte) { e.bits & 1 != 0 }
  /** What an entry for a large page says besides its base. */
  function Flags(e: Pte): bv64 { e.bits & 0x1F_FFFF }

  predicate IsWritable(e: Pte) { e.bits & 2 != 0 }
  predicate IsUser(e: Pte) { e.bits & 4 != 0 }
  predicate IsLarge(e: Pte) { e.bits & 0x80 != 0 }

  /** The frame an entry points to: bits 12 to 51. */
  function FrameOf(e: Pte): Frame { Frame(e.bits & 0x000F_FFFF_FFFF_F000) }

  /** A possible table frame. */
  predicate IsFrame(f: Frame) { f.address & 0x000F_FFFF_FFFF_F000 == f.address }

  /** Memory that was never written reads as zero. */
  function Read(m: Memory, w: Word): Pte { if w in m then m[w] else Pte(0) }

  function Entry(m: Memory, table: Frame, i: Index): Pte { Read(m, Word(table, i)) }

  // ----- the addresses of the tables themselves -----

  function Pml4Virt(): bv64 {
    SIGN_EXT | (RECURSIVE_SLOT << 39) | (RECURSIVE_SLOT << 30) | (RECURSIVE_SLOT << 21) | (RECURSIVE_SLOT << 12)
  }

  function PdptVirt(i: Index): bv64 {
    SIGN_EXT | (RECURSIVE_SLOT << 39) | (RECURSIVE_SLOT << 30) | (RECURSIVE_SLOT << 21) | (i.value << 12)
  }

  function PdtVirt(i: Index, j: Index): bv64 {
    SIGN_EXT | (RECURSIVE_SLOT << 39) | (RECURSIVE_SLOT << 30) | (i.value << 21) | (j.value << 12)
  }

  /** The address of element k of the table of u64 at base. */
  function ElementAt(base: bv64, k: Index): Virtual { Virtual(base + (k.value << 3)) }

  // ----- the hardware walk -----

  function Walk(m: Memory, root: Frame, v: Virtual): Option<Physical> {
    var offset := v.address & 0xFFF;
    var e4 := Entry(m, root, Pml4Index(v));
    if !IsPresent(e4) then None else
    var e3 := Entry(m, FrameOf(e4), PdptIndex(v));
    if !IsPresent(e3) then None else
    if IsLarge(e3) then
      Some(Physical(Frame((FrameOf(e3).address & !0x3FFF_FFFF) | (v.address & 0x3FFF_F000)), offset)) else
    var e2 := Entry(m, FrameOf(e3), PdtIndex(v));
    if !IsPresent(e2) then None else
    if IsLarge(e2) then
      Some(Physical(Frame((FrameOf(e2).address & !0x1F_FFFF) | (v.address & 0x1F_F000)), offset)) else
    var e1 := Entry(m, FrameOf(e2), PtIndex(v));
    if !IsPresent(e1) then None else
    Some(Physical(FrameOf(e1), offset))
  }

  /** Slot 511 of the top table holds the table's own frame. */
  ghost predicate Recursive(m: Memory, root: Frame) {
    var e := Entry(m, root, RECURSIVE);
    IsPresent(e) && !IsLarge(e) && FrameOf(e) == root
  }

  lemma ElementIndices(base: bv64, k: Index)
    requires base & 0xFFF == 0 && IsIndex(k)
    ensures var v, b := ElementAt(base, k), Virtual(base);
      && Pml4Index(v) == Pml4Index(b) && PdptIndex(v) == PdptIndex(b)
      && PdtIndex(v) == PdtIndex(b) && PtIndex(v) == PtIndex(b)
      && (v.address & 0xFFF) >> 3 == k.value
  {
  }

  lemma Pml4VirtIndices()
    ensures Pml4Virt() & 0xFFF == 0
    ensures var v := Virtual(Pml4Virt());
      Pml4Index(v) == PdptIndex(v) == PdtIndex(v) == PtIndex(v) == RECURSIVE
  {
  }

  lemma PdptVirtIndices(i: Index)
    requires IsIndex(i)
    ensures PdptVirt(i) & 0xFFF == 0
    ensures var v := Virtual(PdptVirt(i));
      Pml4Index(v) == PdptIndex(v) == PdtIndex(v) == RECURSIVE && PtIndex(v) == i
  {
  }

  lemma PdtVirtIndices(i: Index, j: Index)
    requires IsIndex(i) && IsIndex(j)
    ensures PdtVirt(i, j) & 0xFFF == 0
    ensures var v := Virtual(PdtVirt(i, j));
      Pml4Index(v) == PdptIndex(v) == RECURSIVE && PdtIndex(v) == i && PtIndex(v) == j
  {
  }

  /** Walking to element k of GET_PML4_VIRT lands on entry k of the top table. */
  lemma Pml4VirtReaches(m: Memory, root: Frame, k: Index)
    requires Recursive(m, root) && IsIndex(k)
    ensures var p := Walk(m, root, ElementAt(Pml4Virt(), k)); p.Some? && p.value.AsWord() == Word(root, k)
  {
    Pml4VirtIndices();
    ElementIndices(Pml4Virt(), k);
    hide Pml4Index, PdptIndex, PdtIndex, PtIndex, IsPresent, IsLarge, FrameOf, Pml4Virt;
  }

  /** Walking to element k of GET_PDPT_VIRT(i) lands on entry k of the table that slot i names. */
  lemma PdptVirtReaches(m: Memory, root: Frame, i: Index, k: Index)
    requires Recursive(m, root) && IsIndex(i) && IsIndex(k)
    ensures var e, p := Entry(m, root, i), Walk(m, root, ElementAt(PdptVirt(i), k));
      if IsPresent(e) then p.Some? && p.value.AsWord() == Word(FrameOf(e), k) else p.None?
  {
    PdptVirtIndices(i);
    ElementIndices(PdptVirt(i), k);
    hide Pml4Index, PdptIndex, PdtIndex, PtIndex, IsPresent, IsLarge, FrameOf, PdptVirt;
  }

  /** Walking to element k of GET_PDT_VIRT(i, j) lands on entry k of the table that slot j of table i names. */
  lemma {:induction false} PdtVirtReaches(m: Memory, root: Frame, i: Index, j: Index, k: Index)
    requires Recursive(m, root) && IsIndex(i) && IsIndex(j) && IsIndex(k)
    requires IsPresent(Entry(m, root, i)) && !IsLarge(Entry(m, root, i))
    ensures var e := Entry(m, FrameOf(Entry(m, root, i)), j);
      var p := Walk(m, root, ElementAt(PdtVirt(i, j), k));
      if IsPresent(e) then p.Some? && p.value.AsWord() == Word(FrameOf(e), k) else p.None?
  {
    PdtVirtIndices(i, j);
    ElementIndices(PdtVirt(i, j), k);
    hide Pml4Index, PdptIndex, PdtIndex, PtIndex, IsPresent, IsLarge, FrameOf, PdtVirt;
  }

  /** What the processor lets a walk do: a store, or an access by user code, needs the flag at every level. */
  predicate LetsWrite(m: Memory, root: Frame, v: Virtual) {
    var e4 := Entry(m, root, Pml4Index(v));
    var e3 := Entry(m, FrameOf(e4), PdptIndex(v));
    var e2 := Entry(m, FrameOf(e3), PdtIndex(v));
    var e1 := Entry(m, FrameOf(e2), PtIndex(v));
    IsWritable(e4) && IsWritable(e3) && (IsLarge(e3) || (IsWritable(e2) && (IsLarge(e2) || IsWritable(e1))))
  }

  predicate LetsUser(m: Memory, root: Frame, v: Virtual) {
    var e4 := Entry(m, root, Pml4Index(v));
    var e3 := Entry(m, FrameOf(e4), PdptIndex(v));
    var e2 := Entry(m, FrameOf(e3), PdtIndex(v));
    var e1 := Entry(m, FrameOf(e2), PtIndex(v));
    IsUser(e4) && IsUser(e3) && (IsLarge(e3) || (IsUser(e2) && (IsLarge(e2) || IsUser(e1))))
  }

  // ----- bit facts about entries and pages -----

  predicate Aligned2Mb(a: bv64) { a & 0x1F_FFFF == 0 }

  /** A table entry as the mapper builds it: frame, present, writable. */
  function TableEntry(page: Frame): Pte { Pte((page.address & !0xFFF) | PRESENT | READ_WRITE) }

  function PageEntry(p: bv64, isKernel: bool): Pte {
    Pte((p & !0x1F_FFFF) | PAGE_SIZE_BIT | (PRESENT | READ_WRITE | if isKernel then 0 else USER))
  }

  function WithUser(e: Pte): Pte { Pte(e.bits | USER) }

  function PageBase(e: Pte): bv64 { e.bits & !0x1F_FFFF }

  /** The byte of the 2 MB page at base that v's offset selects. */
  function Within(base: bv64, v: Virtual): bv64 { base + (v.address & 0x1F_FFFF) }

  /** e is an entry that names the table in frame f, and allows writing below it. */
  predicate Names(e: Pte, f: Frame) {
    IsPresent(e) && IsWritable(e) && !IsLarge(e) && FrameOf(e) == f
  }

  lemma TableEntryNames(page: Frame)
    requires IsFrame(page)
    ensures Names(TableEntry(page), page)
  {
  }

  lemma WithUserNames(e: Pte)
    ensures IsPresent(WithUser(e)) == IsPresent(e) && IsLarge(WithUser(e)) == IsLarge(e)
    ensures FrameOf(WithUser(e)) == FrameOf(e) && IsUser(WithUser(e)) && IsWritable(WithUser(e)) == IsWritable(e)
  {
    assert (e.bits | 0x4) & 0x1 == e.bits & 0x1;
    assert (e.bits | 0x4) & 0x2 == e.bits & 0x2;
    assert (e.bits | 0x4) & 0x80 == e.bits & 0x80;
    assert (e.bits | 0x4) & 0x000F_FFFF_FFFF_F000 == e.bits & 0x000F_FFFF_FFFF_F000;
  }

  lemma PageEntryBits(p: bv64, isKernel: bool)
    requires Aligned2Mb(p)
    ensures IsPresent(PageEntry(p, isKernel)) && PageBase(PageEntry(p, isKernel)) == p
    ensures IsLarge(PageEntry(p, isKernel)) && IsWritable(PageEntry(p, isKernel))
    ensures IsUser(PageEntry(p, isKernel)) <==> !isKernel
  {
  }

  /** Present, writable and large; for user code where the page is not the kernel's; nothing else. */
  lemma PageEntryFlags(p: bv64, isKernel: bool)
    ensures Flags(PageEntry(p, isKernel)) == if isKernel then 0x83 else 0x87
  {
  }

  lemma ZeroIsAbsent()
    ensures !IsPresent(Pte(0))
  {
  }

  /** An offset below 2 MB moves within the page and adds to the translated base. */
  lemma OffsetStays(v: bv64, off: bv64)
    requires Aligned2Mb(v) && off < 0x20_0000
    ensures var w, b := Virtual(v + off), Virtual(v);
      && Pml4Index(w) == Pml4Index(b) && PdptIndex(w) == PdptIndex(b) && PdtIndex(w) == PdtIndex(b)
      && forall base :: Within(base, w) == base + off
  {
    assert (v + off) & 0x1F_FFFF == off;
  }

  /** A large-page entry leads the processor where the kernel's own arithmetic leads. */
  lemma LargeAddress(e: Pte, v: Virtual)
    requires PageBase(e) & 0xFFF0_0000_0000_0000 == 0
    ensures var p := Physical(Frame((FrameOf(e).address & !0x1F_FFFF) | (v.address & 0x1F_F000)), v.address & 0xFFF);
      p.Address() == Within(PageBase(e), v)
  {
    LargeAddressBits(e.bits, v.address);
  }

  lemma LargeAddressBits(e: bv64, v: bv64)
    requires e & !0x1F_FFFF & 0xFFF0_0000_0000_0000 == 0
    ensures (((e & 0x000F_FFFF_FFFF_F000) & !0x1F_FFFF) | (v & 0x1F_F000)) + (v & 0xFFF)
            == (e & !0x1F_FFFF) + (v & 0x1F_FFFF)
  {
  }

  function Base(a: bv64): bv64 { a & !0x1F_FFFF }
  function Offset(a: bv64): bv64 { a & 0x1F_FFFF }

  /** The 48 bits of an address that are translated. */
  function Translated(a: bv64): bv64 { a & 0xFFFF_FFFF_FFFF }

  /** A byte of an aligned large page tells the page and the offset. */
  lemma WithinTells(base: bv64, v: Virtual)
    requires Aligned2Mb(base)
    ensures Within(base, v) & !0x1F_FFFF == base && Within(base, v) & 0x1F_FFFF == v.address & 0x1F_FFFF
  {
    AlignedPlus(base, v.address & 0x1F_FFFF);
  }

  lemma AlignedPlus(base: bv64, off: bv64)
    requires base & 0x1F_FFFF == 0 && off < 0x20_0000
    ensures (base + off) & !0x1F_FFFF == base && (base + off) & 0x1F_FFFF == off
  {
    assert base + off == base | off;
  }

  lemma WithinParts(base: bv64, v: Virtual)
    requires Aligned2Mb(base)
    ensures Base(Within(base, v)) == base && Offset(Within(base, v)) == Offset(v.address)
  {
    hide Within, Aligned2Mb;
    WithinTells(base, v);
  }

  lemma WithinDiffers(base: bv64, v: Virtual, other: bv64, w: Virtual)
    requires Aligned2Mb(base) && Aligned2Mb(other)
    requires base != other || Offset(v.address) != Offset(w.address)
    ensures Within(base, v) != Within(other, w)
  {
    hide Within, Aligned2Mb, Base, Offset;
    WithinParts(base, v);
    WithinParts(other, w);
  }

  function Compose(i: Index, j: Index, k: Index, off: bv64): bv64 {
    (i.value << 39) | (j.value << 30) | (k.value << 21) | off
  }

  lemma Recompose(v: Virtual)
    ensures Translated(v.address) == Compose(Pml4Index(v), PdptIndex(v), PdtIndex(v), Offset(v.address))
  {
  }
}
