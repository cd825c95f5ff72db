/** The page bitmap and the page tables together: 2 MB pages mapped onto physical memory of their own. */
module KernelMemory {
  import opened Options
  import Bitmap
  import Bits
  import opened Words
  import opened Paging
  import opened PageTables
  import opened Vmem
  import opened PhysicalMemory

  const LARGE: nat := 0x20_0000
  const BITMAP_WORDS: nat := 0x4000

  /** The address of a physical page: its number times 4096. */
  function AddressOf(page: nat): bv64 {
    PageShift(WordOf(page))
  }

  function PageShift(x: bv64): bv64 {
    x << 12
  }

  lemma ShiftedFrame(x: bv64)
    requires x <= 0xFFFFF
    ensures IsFrame(Frame(PageShift(x)))
  {
  }

  lemma ShiftInjective(x: bv64, y: bv64)
    requires x <= 0xFFFFF && y <= 0xFFFFF && PageShift(x) == PageShift(y)
    ensures x == y
  {
  }

  lemma WordSmall(page: nat)
    requires page < 64 * BITMAP_WORDS
    ensures page < Bits.Pow2(20) && WordOf(page) <= 0xFFFFF
  {
    assert Bits.Pow2(10) == 1024;
    Bits.Pow2Add(10, 10);
    WordFits(page, 20);
    FitsSmall(WordOf(page));
  }

  lemma PageIsFrame(page: nat)
    requires page < 64 * BITMAP_WORDS
    ensures IsFrame(Frame(AddressOf(page)))
  {
    WordSmall(page);
    ShiftedFrame(WordOf(page));
  }

  lemma AddressInjective(p: nat, q: nat)
    requires p < 64 * BITMAP_WORDS && q < 64 * BITMAP_WORDS && AddressOf(p) == AddressOf(q)
    ensures p == q
  {
    hide WordOf, PageShift;
    WordSmall(p);
    WordSmall(q);
    ShiftInjective(WordOf(p), WordOf(q));
    WordInjective(p, q, 20);
  }

  // ----- the two layers -----

  class Kernel {
    const pm: PhysMem
    const mmu: Mmu
    // for a virtual page mapped by SmartAllocPages: which of the ranges handed out backs it
    ghost var granted: map<Page, nat>
    // how often pmem_get_page had no page left for a table, and its null pointer became frame 0
    var nullTables: nat
    // a page was mapped inside the recursive slot, over the tables themselves
    ghost var strayed: bool

    /** The tables stand: frame 0 was taken for one at most once, and no mapping went over them. */
    ghost predicate Sound()
      reads this
    {
      nullTables <= 1 && !strayed
    }

    ghost predicate Valid()
      reads this, pm, pm.bitmap, mmu
    {
      pm.Valid() && pm.bitmap.Length == BITMAP_WORDS && (Sound() ==> Intact())
    }

    ghost predicate Intact()
      reads this, pm, pm.bitmap, mmu
    {
      && mmu.Valid() && mmu.root != Frame(0)
      && (forall f :: f in mmu.roles ==> TableIn(f, pm.top, pm.handed))
      && (nullTables == 0 ==> Frame(0) !in mmu.roles)
      && Backed(granted, mmu.pages, pm.handed)
      && Unshared(granted)
    }

    constructor (pm: PhysMem, mmu: Mmu)
      requires pm.Valid() && mmu.Valid() && pm.bitmap.Length == BITMAP_WORDS
      requires mmu.root != Frame(0)
      // the boot tables lie in the kernel image
      requires forall f :: f in mmu.roles ==> TableIn(f, pm.top, pm.handed) && f != Frame(0)
      ensures Valid() && this.pm == pm && this.mmu == mmu && granted == map[] && nullTables == 0 && !strayed
    {
      this.pm := pm;
      this.mmu := mmu;
      granted := map[];
      nullTables := 0;
      strayed := false;
    }

    /** No page is left below both bounds. */
    ghost predicate OutOfPages()
      reads this, pm, pm.bitmap
    {
      forall p :: 1 <= p < pm.PageCount() && p < pm.limit ==> pm.IsSet(p)
    }

    /** The frame for a new table: a page no table uses, or frame 0 where pmem_get_page returns null. */
    method TableFrame() returns (f: Frame)
      requires Valid()
      modifies this`nullTables, pm, pm.bitmap
      ensures Valid() && old(pm.handed) <= pm.handed && pm.top >= old(pm.top)
      ensures nullTables == old(nullTables) + (if f == Frame(0) then 1 else 0)
      ensures f == Frame(0) || old(OutOfPages()) ==> OutOfPages()
      ensures IsFrame(f) && TableIn(f, pm.top, pm.handed)
      ensures f != Frame(0) ==> !TableIn(f, old(pm.top), old(pm.handed))
      ensures Sound() ==> mmu.Fresh(f)
      ensures forall g :: TableIn(g, old(pm.top), old(pm.handed)) ==> TableIn(g, pm.top, pm.handed)
    {
      hide AddressOf, Mmu.Valid, TableIn, Backed, Unshared, Bitmap.Get, PhysMem.IsSet;
      var p := pm.GetPage();
      if Sound() {
        BackedGrows(granted, mmu.pages, old(pm.handed), pm.handed);
      }
      if p.None? {
        NullIsTable(pm.top, pm.handed);
        nullTables := nullTables + 1;
        return Frame(0);
      }
      TablesKept(old(pm.top), old(pm.handed), pm.top, Range(p.value, p.value + 1));
      NewTable(old(pm.top), old(pm.handed), p.value);
      return Frame(AddressOf(p.value));
    }

    /** The table above the directory of v is frame 0. */
    ghost predicate UnderNull(v: Virtual)
      reads mmu
    {
      !mmu.NeedsPdpt(v) && PdptFrame(mmu.mem, mmu.root, PageOf(v).i) == Frame(0)
    }

    /** The frames for the tables that v lacks. */
    method TablesFor(v: Virtual) returns (forPdpt: Frame, forPdt: Frame)
      requires Valid()
      modifies this`nullTables, pm, pm.bitmap
      ensures Valid() && old(pm.handed) <= pm.handed && pm.top >= old(pm.top) && nullTables >= old(nullTables)
      ensures nullTables > old(nullTables) ==> OutOfPages()
      ensures mmu.NeedsPdpt(v) ==> TableIn(forPdpt, pm.top, pm.handed) && (nullTables == 0 ==> forPdpt != Frame(0))
      ensures mmu.NeedsPdt(v) ==> TableIn(forPdt, pm.top, pm.handed) && (nullTables == 0 ==> forPdt != Frame(0))
      ensures forall g :: TableIn(g, old(pm.top), old(pm.handed)) ==> TableIn(g, pm.top, pm.handed)
      ensures Sound() ==> mmu.Supplied(PageOf(v), forPdpt, forPdt)
      ensures var nulls := nullTables - old(nullTables);
        old(Sound()) && (nulls == 2 || (nulls == 1 && UnderNull(v))) ==> mmu.SelfHung(PageOf(v), forPdpt, forPdt)
    {
      hide AddressOf, PhysMem.Valid, Mmu.Valid, TableIn, PageOf, Mmu.Fresh, IsFrame, Backed, Unshared, PhysMem.IsSet,
        HasPdpt, HasPdt;
      forPdpt, forPdt := Frame(0), Frame(0);
      if mmu.NeedsPdpt(v) {
        forPdpt := TableFrame();
      }
      if mmu.NeedsPdt(v) {
        forPdt := TableFrame();
      }
    }

    /**
     * vmem_map_2mb with the frames it takes from the bitmap on the way, and with frame 0 where there are
     * none. While the tables stand it maps exactly this page. Two nulls for one page, or one for a
     * directory inside frame 0 itself, end in a fault.
     */
    method MapPage(vaddr: bv64, paddr: bv64, isKernel: bool) returns (r: Mapping)
      requires Valid()
      modifies this, pm, pm.bitmap, mmu
      ensures Valid() && old(pm.handed) <= pm.handed && pm.top >= old(pm.top) && nullTables >= old(nullTables)
      ensures r == Refused <==> !Aligned2Mb(vaddr) || !Aligned2Mb(paddr)
      ensures r == Refused ==>
        && mmu.pages == old(mmu.pages) && mmu.users == old(mmu.users)
        && granted == old(granted) && nullTables == old(nullTables)
      ensures strayed <==> old(strayed) || (r != Refused && !Ordinary(Virtual(vaddr)))
      ensures Sound() ==> r != Fault
      ensures Sound() && r == Mapped ==>
        && mmu.pages == old(mmu.pages)[PageOf(Virtual(vaddr)) := paddr]
        && UserSet(old(mmu.users), mmu.users, PageOf(Virtual(vaddr)), isKernel)
        && granted == old(granted) - {PageOf(Virtual(vaddr))}
      ensures nullTables > old(nullTables) ==> OutOfPages()
      ensures var v, nulls := Virtual(vaddr), nullTables - old(nullTables);
        old(Sound()) && Ordinary(v) && (nulls == 2 || (nulls == 1 && old(UnderNull(v)))) ==> r != Mapped
    {
      hide AddressOf, PhysMem.Valid, Mmu.Valid, TableIn, Ordinary, Aligned2Mb, PageOf, Mmu.Fresh, IsFrame,
        Backed, Unshared, PhysMem.IsSet, HasPdpt, HasPdt, Mmu.Supplied, Mmu.SelfHung;
      if !Aligned2Mb(vaddr) || !Aligned2Mb(paddr) {
        return Refused;
      }
      var forPdpt, forPdt := TablesFor(Virtual(vaddr));
      if Sound() {
        BackedRemap(granted, mmu.pages, pm.handed, PageOf(Virtual(vaddr)), paddr);
      }
      r := mmu.Map2Mb(vaddr, paddr, isKernel, forPdpt, forPdt);
      strayed := strayed || !Ordinary(Virtual(vaddr));
      granted := granted - {PageOf(Virtual(vaddr))};
    }

    /** No page is left, or the last one handed out has no whole large page behind it. */
    ghost predicate Exhausted()
      reads this, pm, pm.bitmap
    {
      OutOfPages() || pm.top + PAGES_PER_LARGE > pm.PageCount()
    }

    /** The next page of the bitmap and, if it starts a large page that fits, the rest of that large page. */
    method GrabLarge() returns (page: Option<nat>, whole: bool)
      requires Valid()
      modifies pm, pm.bitmap
      ensures Valid() && old(pm.handed) <= pm.handed && pm.top >= old(pm.top)
      ensures page.Some? ==>
        && old(pm.top) < pm.top < pm.PageCount() && page.value < 64 * BITMAP_WORDS
        && |pm.handed| == |old(pm.handed)| + 1 && pm.handed[|old(pm.handed)|].first == page.value
      ensures page.Some? && whole ==>
        pm.handed[|old(pm.handed)|].end == page.value + PAGES_PER_LARGE && pm.top >= old(pm.top) + PAGES_PER_LARGE
      ensures page.Some? && !Aligned2Mb(AddressOf(page.value)) ==> !whole
      ensures page.None? || (Aligned2Mb(AddressOf(page.value)) && !whole) ==> Exhausted()
      ensures old(Exhausted()) ==> Exhausted() && !whole
    {
      hide AddressOf, PhysMem.Valid, Mmu.Valid, TableIn, Backed, Unshared, Bitmap.Get, Aligned2Mb;
      page := pm.GetPage();
      whole := false;
      if page.Some? && Aligned2Mb(AddressOf(page.value)) {
        whole := pm.ReserveTail(page.value);
      }
      if page.Some? {
        assert pm.handed == old(pm.handed) + [pm.handed[|old(pm.handed)|]];
        TablesKept(old(pm.top), old(pm.handed), pm.top, pm.handed[|old(pm.handed)|]);
      }
      if Sound() {
        BackedGrows(granted, mmu.pages, old(pm.handed), pm.handed);
      }
    }

    /** One round of the loop below: skips an unaligned page, stops, or maps the large page at current. */
    method PlaceOne(current: bv64, isKernel: bool) returns (r: Round)
      requires Valid()
      modifies this, pm, pm.bitmap, mmu
      ensures Valid() && old(pm.handed) <= pm.handed && pm.top >= old(pm.top) && nullTables >= old(nullTables)
      ensures old(strayed) ==> strayed
      ensures strayed && !old(strayed) ==> !Ordinary(Virtual(current))
      ensures r != Stop && r != Crash ==> pm.top > old(pm.top) && old(pm.top) < pm.PageCount()
      ensures r == Placed ==> Aligned2Mb(current) && pm.top >= old(pm.top) + PAGES_PER_LARGE
      ensures r == Stop ==> Exhausted() || !Aligned2Mb(current)
      ensures old(Exhausted()) ==> Exhausted() && (r == Stop || r == Skip)
      ensures r == Crash ==> !Sound()
      ensures r == Stop || r == Skip ==>
        mmu.pages == old(mmu.pages) && mmu.users == old(mmu.users) && granted == old(granted)
      ensures Sound() && r == Placed ==>
        && UserSet(old(mmu.users), mmu.users, PageOf(Virtual(current)), isKernel)
        && PlacedOn(old(mmu.pages), mmu.pages, old(granted), granted, PageOf(Virtual(current)), |old(pm.handed)|)
    {
      hide AddressOf, PhysMem.Valid, Mmu.Valid, TableIn, Backed, Unshared, Bitmap.Get, Aligned2Mb, PageOf, Ordinary;
      ghost var index := |pm.handed|;
      if Sound() {
        GrantedBelow(granted, mmu.pages, pm.handed);
      }
      var page, whole := GrabLarge();
      if page.None? {
        return Stop;
      }
      if !Aligned2Mb(AddressOf(page.value)) {
        return Skip;
      }
      if !whole {
        return Stop;
      }
      ghost var range := pm.handed[index];
      var mapping := MapPage(current, AddressOf(page.value), isKernel);
      match mapping
      case Refused =>
        return Stop;
      case Fault =>
        return Crash;
      case Mapped =>
        if Sound() {
          OrdinaryPage(Virtual(current));
          Grant(granted, mmu.pages, pm.handed, PageOf(Virtual(current)), index);
        }
        granted := granted[PageOf(Virtual(current)) := index];
        return Placed;
    }

    /**
     * Maps large pages from vaddr on until size bytes are mapped, the bitmap runs out, or the mapper
     * refuses. While the tables stand, every page placed gets a range that nothing was handed before,
     * and no other page moves.
     */
    method SmartAllocPages(vaddr: bv64, size: nat, isKernel: bool)
      returns (mapped: nat, alive: bool, ghost placed: seq<Page>)
      requires Valid()
      modifies this, pm, pm.bitmap, mmu
      ensures Valid() && old(pm.handed) <= pm.handed && nullTables >= old(nullTables)
      ensures old(strayed) ==> strayed
      ensures AllOrdinary(vaddr, size) ==> strayed == old(strayed)
      ensures mapped == |placed| * LARGE && mapped < size + LARGE && Consecutive(placed, vaddr)
      ensures mapped <= (pm.top - old(pm.top)) * PAGE_SIZE
      ensures alive && mapped < size ==> Exhausted() || !Aligned2Mb(vaddr)
      ensures old(Exhausted()) ==> Exhausted()
      ensures Sound() ==>
        && alive && AllPlaced(old(mmu.pages), mmu.pages, old(granted), granted, placed, |old(pm.handed)|)
        && UsersPlaced(old(mmu.users), mmu.users, placed, isKernel)
    {
      hide Kernel.Valid, Ordinary, Placing, PageOf, Aligned2Mb, Exhausted, Step, AllOrdinary, Consecutive, AllPlaced,
        UsersPlaced;
      ghost var was := Now();
      mapped, alive, placed := 0, true, [];
      var current := vaddr;
      PlacingStarts(vaddr, size, isKernel);
      while mapped < size
        invariant Placing(vaddr, size, isKernel, placed, was)
        invariant mapped == |placed| * LARGE && mapped < size + LARGE && current == Step(vaddr, |placed|)
        decreases pm.PageCount() - pm.top
      {
        var r := PlaceNext(current, isKernel, vaddr, size, placed, was);
        if r == Stop || r == Crash {
          alive := r == Stop;
          break;
        }
        if r == Placed {
          placed := placed + [PageOf(Virtual(current))];
          mapped := mapped + LARGE;
          current := current + 0x20_0000;
        }
      }
      PlacingMeans(vaddr, size, isKernel, placed, was);
    }

    ghost function Now(): Stage
      reads this, pm, pm.bitmap, mmu
    {
      Stage(mmu.pages, mmu.users, granted, pm.handed, pm.top, nullTables, strayed, Exhausted())
    }

    /** The call has placed these pages since was. */
    ghost predicate Placing(vaddr: bv64, size: nat, isKernel: bool, placed: seq<Page>, was: Stage)
      reads this, pm, pm.bitmap, mmu
    {
      && Valid() && was.handed <= pm.handed && was.nulls <= nullTables && Consecutive(placed, vaddr)
      && (was.strayed ==> strayed) && (AllOrdinary(vaddr, size) ==> strayed == was.strayed)
      && was.top + |placed| * PAGES_PER_LARGE <= pm.top
      && (was.exhausted ==> Exhausted())
      && (Sound() ==>
            && AllPlaced(was.pages, mmu.pages, was.granted, granted, placed, |was.handed|)
            && UsersPlaced(was.users, mmu.users, placed, isKernel))
    }

    lemma PlacingStarts(vaddr: bv64, size: nat, isKernel: bool)
      requires Valid()
      ensures Placing(vaddr, size, isKernel, [], Now()) && Step(vaddr, 0) == vaddr
    {
      NothingPlaced(mmu.pages, granted, vaddr, |pm.handed|);
    }

    lemma PlacingMeans(vaddr: bv64, size: nat, isKernel: bool, placed: seq<Page>, was: Stage)
      requires Placing(vaddr, size, isKernel, placed, was)
      ensures Valid() && was.handed <= pm.handed && was.nulls <= nullTables && Consecutive(placed, vaddr)
      ensures (was.strayed ==> strayed) && (AllOrdinary(vaddr, size) ==> strayed == was.strayed)
      ensures |placed| * LARGE <= (pm.top - was.top) * PAGE_SIZE
      ensures was.exhausted ==> Exhausted()
      ensures Sound() ==>
        && AllPlaced(was.pages, mmu.pages, was.granted, granted, placed, |was.handed|)
        && UsersPlaced(was.users, mmu.users, placed, isKernel)
    {
    }

    /** PlaceOne for the page behind those placed. */
    method PlaceNext(
        current: bv64, isKernel: bool, ghost vaddr: bv64, ghost size: nat, ghost placed: seq<Page>, ghost was: Stage)
      returns (r: Round)
      requires Placing(vaddr, size, isKernel, placed, was) && |placed| * LARGE < size
      requires current == Step(vaddr, |placed|)
      modifies this, pm, pm.bitmap, mmu
      ensures
        Placing(vaddr, size, isKernel, if r == Placed then placed + [PageOf(Virtual(current))] else placed, was)
      ensures r == Placed ==> Step(vaddr, |placed| + 1) == current + 0x20_0000
      ensures r != Stop && r != Crash ==> pm.top > old(pm.top) && old(pm.top) < pm.PageCount()
      ensures r == Stop ==> Exhausted() || !Aligned2Mb(vaddr)
      ensures r == Crash ==> !Sound()
    {
      hide Kernel.Valid, Ordinary, Consecutive, AllPlaced, PlacedOn, PageOf, Aligned2Mb, Exhausted, AllOrdinary, Step,
        UserSet, UsersPlaced;
      ghost var pages, grants, users, later := mmu.pages, granted, mmu.users, |pm.handed|;
      StepNext(vaddr, size, |placed|);
      r := PlaceOne(current, isKernel);
      if Aligned2Mb(vaddr) {
        StepAligned(vaddr, |placed|);
      }
      if r == Placed {
        ConsecutiveMore(placed, vaddr);
        if Sound() {
          UsersMore(was.users, users, mmu.users, placed, PageOf(Virtual(current)), isKernel);
          PlaceMore(was.pages, pages, mmu.pages, was.granted, grants, granted, placed, vaddr, |was.handed|, later);
        }
      }
    }
  }

  /** What SmartAllocPages remembers of its beginning. */
  datatype Stage = Stage(
    pages: map<Page, bv64>, users: set<Page>, granted: map<Page, nat>, handed: seq<Range>, top: nat, nulls: nat,
    strayed: bool, exhausted: bool)

  datatype Round = Stop | Skip | Placed | Crash

  /** Page q was mapped onto a range numbered base or later; nothing else changed. */
  ghost predicate PlacedOn(was: map<Page, bv64>, now: map<Page, bv64>, grants: map<Page, nat>, granted: map<Page, nat>,
                           q: Page, base: nat) {
    && q in now && now == was[q := now[q]]
    && q in granted && granted[q] >= base && granted == grants[q := granted[q]]
  }

  /** Page q is open to user code exactly unless it is the kernel's; for the others nothing changed. */
  ghost predicate UserSet(was: set<Page>, now: set<Page>, q: Page, isKernel: bool) {
    now == if isKernel then was - {q} else was + {q}
  }

  /** The same for all the pages placed. */
  ghost predicate UsersPlaced(was: set<Page>, now: set<Page>, placed: seq<Page>, isKernel: bool) {
    forall q :: q in now <==> if q in placed then !isKernel else q in was
  }

  lemma UsersMore(
    first: set<Page>, was: set<Page>, now: set<Page>, placed: seq<Page>, q: Page, isKernel: bool)
    requires UsersPlaced(first, was, placed, isKernel) && UserSet(was, now, q, isKernel)
    ensures UsersPlaced(first, now, placed + [q], isKernel)
  {
  }

  ghost predicate Consecutive(placed: seq<Page>, vaddr: bv64) {
    forall n :: 0 <= n < |placed| ==> placed[n] == PageOf(Virtual(Step(vaddr, n)))
  }

  /** Every placed page is backed by a range numbered base or later. */
  ghost predicate GrantedFrom(granted: map<Page, nat>, placed: seq<Page>, base: nat) {
    forall q :: q in placed ==> q in granted && granted[q] >= base
  }

  ghost predicate SameElsewhere<T(!new)>(was: map<Page, T>, now: map<Page, T>, placed: seq<Page>) {
    forall q :: q !in placed ==> (q in now <==> q in was) && (q in now ==> now[q] == was[q])
  }

  /** The placed pages, and no others, moved, each onto a range numbered base or later. */
  ghost predicate AllPlaced(
    was: map<Page, bv64>, now: map<Page, bv64>, grants: map<Page, nat>, granted: map<Page, nat>, placed: seq<Page>,
    base: nat)
  {
    GrantedFrom(granted, placed, base) && SameElsewhere(was, now, placed) && SameElsewhere(grants, granted, placed)
  }

  lemma NothingPlaced(pages: map<Page, bv64>, granted: map<Page, nat>, vaddr: bv64, base: nat)
    ensures Consecutive([], vaddr) && AllPlaced(pages, pages, granted, granted, [], base) && Step(vaddr, 0) == vaddr
  {
  }

  lemma ConsecutiveMore(placed: seq<Page>, vaddr: bv64)
    requires Consecutive(placed, vaddr)
    ensures Consecutive(placed + [PageOf(Virtual(Step(vaddr, |placed|)))], vaddr)
  {
  }

  lemma PlaceMore(first: map<Page, bv64>, was: map<Page, bv64>, now: map<Page, bv64>, before: map<Page, nat>,
                  grants: map<Page, nat>, granted: map<Page, nat>, placed: seq<Page>, vaddr: bv64, base: nat,
                  later: nat)
    requires AllPlaced(first, was, before, grants, placed, base)
    requires base <= later && PlacedOn(was, now, grants, granted, PageOf(Virtual(Step(vaddr, |placed|))), later)
    ensures var more := placed + [PageOf(Virtual(Step(vaddr, |placed|)))];
      AllPlaced(first, now, before, granted, more, base)
  {
  }

  /** The address n large pages after v, with the machine's wrap-around. */
  function Step(v: bv64, n: nat): bv64 {
    if n == 0 then v else Step(v, n - 1) + 0x20_0000
  }

  /** The large pages of the range lie outside the recursive slot. */
  ghost predicate AllOrdinary(vaddr: bv64, size: nat) {
    forall n: nat :: n * LARGE < size ==> Ordinary(Virtual(Step(vaddr, n)))
  }

  lemma StepNext(vaddr: bv64, size: nat, n: nat)
    requires n * LARGE < size
    ensures AllOrdinary(vaddr, size) ==> Ordinary(Virtual(Step(vaddr, n)))
    ensures Step(vaddr, n + 1) == Step(vaddr, n) + 0x20_0000
  {
  }

  lemma {:induction false} StepAligned(v: bv64, n: nat)
    requires Aligned2Mb(v)
    ensures Aligned2Mb(Step(v, n))
  {
    if n > 0 {
      StepAligned(v, n - 1);
      NextAligned(Step(v, n - 1));
    }
  }

  lemma NextAligned(x: bv64)
    requires Aligned2Mb(x)
    ensures Aligned2Mb(x + 0x20_0000)
  {
  }

  /** Table frame f is the page numbered page. */
  predicate TableAt(f: Frame, page: nat) {
    page < 64 * BITMAP_WORDS && f == Frame(AddressOf(page))
  }

  /** No large page that was handed out contains this page. */
  ghost predicate OutsideLarge(page: nat, handed: seq<Range>) {
    forall k :: 0 <= k < |handed| && handed[k].end > handed[k].first + 1 ==> !Holds(handed[k], page)
  }

  /** Table frame f lies behind the first-fit front, and in no large page that was handed out. */
  ghost predicate TableIn(f: Frame, top: nat, handed: seq<Range>) {
    exists page: nat :: TableAt(f, page) && page <= top && OutsideLarge(page, handed)
  }

  /** Every granted page is mapped to the 2 MB range that was handed out for it. */
  ghost predicate Backed(granted: map<Page, nat>, pages: map<Page, bv64>, handed: seq<Range>) {
    forall q :: q in granted ==>
      && granted[q] < |handed| && q in pages && pages[q] == AddressOf(handed[granted[q]].first) && Aligned2Mb(pages[q])
      && handed[granted[q]].end == handed[granted[q]].first + PAGES_PER_LARGE && q.i != RECURSIVE
  }

  /** No range backs two pages. */
  ghost predicate Unshared(granted: map<Page, nat>) {
    forall q, r :: q in granted && r in granted && q != r ==> granted[q] != granted[r]
  }

  lemma BackedRemap(granted: map<Page, nat>, pages: map<Page, bv64>, handed: seq<Range>, q: Page, p: bv64)
    requires Backed(granted, pages, handed) && Unshared(granted)
    ensures Backed(granted - {q}, pages[q := p], handed) && Unshared(granted - {q})
  {
  }

  lemma OrdinaryPage(v: Virtual)
    ensures Ordinary(v) ==> PageOf(v).i != RECURSIVE
  {
  }

  lemma GrantedBelow(granted: map<Page, nat>, pages: map<Page, bv64>, handed: seq<Range>)
    requires Backed(granted, pages, handed)
    ensures forall r :: r in granted ==> granted[r] < |handed|
  {
  }

  /** A range newer than every granted one may back one more page. */
  lemma Grant(granted: map<Page, nat>, pages: map<Page, bv64>, handed: seq<Range>, q: Page, index: nat)
    requires Backed(granted, pages, handed) && Unshared(granted)
    requires index < |handed| && q in pages && pages[q] == AddressOf(handed[index].first) && Aligned2Mb(pages[q])
    requires handed[index].end == handed[index].first + PAGES_PER_LARGE && q.i != RECURSIVE
    requires forall r :: r in granted ==> granted[r] < index
    ensures Backed(granted[q := index], pages, handed) && Unshared(granted[q := index])
  {
  }

  lemma BackedGrows(granted: map<Page, nat>, pages: map<Page, bv64>, handed: seq<Range>, more: seq<Range>)
    requires Backed(granted, pages, handed) && handed <= more
    ensures Backed(granted, pages, more)
  {
  }

  /** Whatever is handed out next lies in front of every table. */
  lemma TablesKept(top: nat, handed: seq<Range>, now: nat, r: Range)
    requires top <= now && top < r.first
    ensures forall f :: TableIn(f, top, handed) ==> TableIn(f, now, handed + [r])
  {
    hide TableAt;
    forall f | TableIn(f, top, handed) ensures TableIn(f, now, handed + [r]) {
      var page: nat :| TableAt(f, page) && page <= top && OutsideLarge(page, handed);
      assert TableAt(f, page) && page <= now && OutsideLarge(page, handed + [r]);
    }
  }

  /** A page in front of everything handed out is no table of before, and can be one. */
  lemma NewTable(top: nat, handed: seq<Range>, page: nat)
    requires top < page < 64 * BITMAP_WORDS && forall a :: 0 <= a < |handed| ==> handed[a].end <= top + 1
    ensures IsFrame(Frame(AddressOf(page))) && Frame(AddressOf(page)) != Frame(0)
    ensures TableIn(Frame(AddressOf(page)), page, handed + [Range(page, page + 1)])
    ensures !TableIn(Frame(AddressOf(page)), top, handed)
  {
    var f := Frame(AddressOf(page));
    PageIsFrame(page);
    assert AddressOf(0) == 0;
    if f == Frame(0) {
      AddressInjective(page, 0);
    }
    assert TableAt(f, page) && OutsideLarge(page, handed + [Range(page, page + 1)]);
    if TableIn(f, top, handed) {
      var q: nat :| TableAt(f, q) && q <= top && OutsideLarge(q, handed);
      AddressInjective(q, page);
    }
  }

  /** The physical ranges behind two granted pages have no page in common. */
  lemma GrantedApart(granted: map<Page, nat>, pages: map<Page, bv64>, handed: seq<Range>, q: Page, r: Page)
    requires Backed(granted, pages, handed) && Unshared(granted) && Rising(handed)
    requires q in granted && r in granted && q != r
    ensures Disjoint(handed[granted[q]], handed[granted[r]])
    ensures pages[q] == AddressOf(handed[granted[q]].first) && pages[r] == AddressOf(handed[granted[r]].first)
  {
    if granted[q] < granted[r] {
      RisingDisjoint(handed, granted[q], granted[r]);
    } else {
      RisingDisjoint(handed, granted[r], granted[q]);
    }
  }

  /**
   * Two different bytes of memory mapped this way, of one page or of two, are different bytes of
   * physical memory. (Addresses count by the 48 bits that are translated.)
   */
  lemma BytesApart(granted: map<Page, nat>, pages: map<Page, bv64>, handed: seq<Range>, v: Virtual, w: Virtual)
    requires Backed(granted, pages, handed) && Unshared(granted) && Rising(handed)
    requires forall r :: 0 <= r < |handed| ==> handed[r].first < 64 * BITMAP_WORDS
    requires PageOf(v) in granted && PageOf(w) in granted
    requires Translated(v.address) != Translated(w.address)
    ensures Lookup(pages, v).Some? && Lookup(pages, w).Some? && Lookup(pages, v) != Lookup(pages, w)
  {
    hide PageOf, Within, Offset, Translated, Aligned2Mb, AddressOf;
    var q, r := PageOf(v), PageOf(w);
    if q == r {
      SamePage(v, w);
    } else {
      FirstsDiffer(granted, handed, q, r);
    }
    WithinDiffers(pages[q], v, pages[r], w);
  }

  lemma SamePage(v: Virtual, w: Virtual)
    requires PageOf(v) == PageOf(w) && Translated(v.address) != Translated(w.address)
    ensures Offset(v.address) != Offset(w.address)
  {
    hide Pml4Index, PdptIndex, PdtIndex, Translated, Offset, Compose;
    Recompose(v);
    Recompose(w);
  }

  lemma FirstsDiffer(granted: map<Page, nat>, handed: seq<Range>, q: Page, r: Page)
    requires Unshared(granted) && Rising(handed) && q in granted && r in granted && q != r
    requires granted[q] < |handed| && granted[r] < |handed|
    requires handed[granted[q]].end > handed[granted[q]].first && handed[granted[r]].end > handed[granted[r]].first
    requires forall k :: 0 <= k < |handed| ==> handed[k].first < 64 * BITMAP_WORDS
    ensures AddressOf(handed[granted[q]].first) != AddressOf(handed[granted[r]].first)
  {
    var a, b := handed[granted[q]].first, handed[granted[r]].first;
    assert a != b by {
      if granted[q] < granted[r] {
        assert handed[granted[q]].end <= b;
      } else {
        assert handed[granted[r]].end <= a;
      }
    }
    if AddressOf(a) == AddressOf(b) {
      AddressInjective(a, b);
    }
  }

  lemma NullIsTable(top: nat, handed: seq<Range>)
    requires forall a :: 0 <= a < |handed| ==> 1 <= handed[a].first
    ensures TableIn(Frame(0), top, handed) && IsFrame(Frame(0))
  {
    assert AddressOf(0) == 0;
    assert TableAt(Frame(0), 0) && OutsideLarge(0, handed);
  }

  // ----- data pages and table frames -----

  /** A page's number is that of its large page and the place in it. */
  lemma PageParts(page: nat)
    ensures WordOf(page) == Joined(Up9(WordOf(page / 512)), WordOf(page % 512)) && WordOf(page % 512) <= 0x1FF
  {
    hide WordOf, Up, Ones;
    assert Bits.Pow2(9) == 512;
    WordSplit(page, 9);
    HighIs(page, 9);
    UpNine(WordOf(page / 512));
    WordFits(page % 512, 9);
    FitsSmall(WordOf(page % 512));
  }

  lemma LargeBits(x: bv64, y: bv64)
    requires y <= 0x1FF
    ensures Base(PageShift(Joined(Up9(x), y))) == Up21(x)
  {
  }

  lemma LargeInjective(x: bv64, y: bv64)
    requires x <= 0xFFFFF && y <= 0xFFFFF && Up21(x) == Up21(y)
    ensures x == y
  {
  }

  /** Pages with the same large-page address are in the same large page. */
  lemma SameLarge(p: nat, q: nat)
    requires p < 64 * BITMAP_WORDS && q < 64 * BITMAP_WORDS && Base(AddressOf(p)) == Base(AddressOf(q))
    ensures p / 512 == q / 512
  {
    hide Base, PageShift, WordOf, Bits.Pow2, Joined, Up9, Up21;
    PageParts(p);
    PageParts(q);
    LargeBits(WordOf(p / 512), WordOf(p % 512));
    LargeBits(WordOf(q / 512), WordOf(q % 512));
    WordSmall(p);
    WordSmall(p / 512);
    WordSmall(q / 512);
    LargeInjective(WordOf(p / 512), WordOf(q / 512));
    WordInjective(p / 512, q / 512, 20);
  }

  lemma AlignedBits(x: bv64, y: bv64)
    requires y <= 0x1FF && Aligned2Mb(PageShift(Joined(Up9(x), y)))
    ensures y == 0
  {
  }

  /** An aligned page starts its large page. */
  lemma AlignedPage(page: nat)
    requires Aligned2Mb(AddressOf(page))
    ensures page % 512 == 0
  {
    hide Aligned2Mb, PageShift, WordOf, Joined, Up9;
    PageParts(page);
    AlignedBits(WordOf(page / 512), WordOf(page % 512));
    NoWord();
    assert Bits.Pow2(9) == 512;
    WordInjective(page % 512, 0, 9);
  }

  lemma NoWord()
    ensures WordOf(0) == 0
  {
  }

  lemma AlignedBase(a: bv64)
    requires Aligned2Mb(a)
    ensures Base(a) == a
  {
  }

  lemma BaseOfFrame(a: bv64)
    ensures Base(a & 0xFFFF_FFFF_FFFF_F000) == Base(a)
  {
    assert (a & 0xFFFF_FFFF_FFFF_F000) & !0x1F_FFFF == a & !0x1F_FFFF;
  }

  /** The page frame of a physical address. */
  function FrameAddress(a: bv64): bv64 { a & 0xFFFF_FFFF_FFFF_F000 }

  lemma FrameBase(a: bv64)
    ensures Base(FrameAddress(a)) == Base(a)
  {
    hide Base;
    BaseOfFrame(a);
  }

  /** No byte of a page mapped by SmartAllocPages lies in a page table. */
  lemma TableBytesApart(
    granted: map<Page, nat>, pages: map<Page, bv64>, handed: seq<Range>, f: Frame, top: nat, v: Virtual)
    requires Backed(granted, pages, handed) && TableIn(f, top, handed) && PageOf(v) in granted
    requires forall r :: 0 <= r < |handed| ==> handed[r].first < 64 * BITMAP_WORDS
    ensures Lookup(pages, v).Some? && FrameAddress(Lookup(pages, v).value) != f.address
  {
    hide PageOf, Within, Aligned2Mb, AddressOf, Base, Offset, FrameAddress;
    var page: nat :| TableAt(f, page) && page <= top && OutsideLarge(page, handed);
    var r := handed[granted[PageOf(v)]];
    var base := pages[PageOf(v)];
    WithinParts(base, v);
    FrameBase(Within(base, v));
    AlignedBase(base);
    AlignedPage(r.first);
    if FrameAddress(Within(base, v)) == f.address {
      SameLarge(page, r.first);
    }
  }
}
