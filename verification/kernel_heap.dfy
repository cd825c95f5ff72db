/** The heap on top of the page layer: every block lies on mapped memory that nothing else uses. */
module KernelHeap {
  import opened Options
  import Bits
  import opened Words
  import opened Paging
  import opened PageTables
  import opened PageAccess
  import opened Vmem
  import opened PhysicalMemory
  import opened KernelMemory
  import opened Addresses
  import opened HeapLayout
  import opened HeapTable
  import HeapSteps
  import opened HeapMerging
  import opened Heaps

  // all the memory the bitmap describes
  const MEMORY: nat := 64 * BITMAP_WORDS * PAGE_SIZE
  // a large page of blocks, 25 bytes each
  const SLOTS: nat := LARGE / 25

  /** The heap consists of whole large pages behind that of its block table, and the bitmap had them all. */
  predicate Laid(start: nat, size: nat, top: nat) {
    LARGE <= start && start % LARGE == 0 && size % LARGE == 0 && size <= top * PAGE_SIZE && start + MEMORY <= Bits.WORD
  }

  predicate Apart(a: object, b: object) {
    a != b
  }

  /** Every address from first up to end lies on a granted page; user code may use those below userEnd. */
  ghost predicate Provided(granted: map<Page, nat>, users: set<Page>, first: nat, end: nat, userEnd: nat) {
    RangeMapped(granted, first, end) && UserRange(users, first, end, userEnd) && userEnd <= end
  }

  class PagedHeap {
    const kernel: Kernel
    const heap: Heap
    // user code may use the addresses below: those of heap_init, if it was asked for a user heap, and no more
    ghost const userEnd: nat

    /** While the page tables stand, the block table and the whole heap are mapped. */
    ghost predicate Valid()
      reads this, kernel, kernel.pm, kernel.pm.bitmap, kernel.mmu, heap, heap.blocks
    {
      && kernel.Valid() && heap.Valid() && Laid(heap.start, heap.size, kernel.pm.top)
      && Apart(kernel.pm.bitmap, heap.blocks)
      && (kernel.Sound() ==> Mapped(heap.start + heap.size))
    }

    /** The block table, and the heap up to end, are provided for. */
    ghost predicate Mapped(end: nat)
      requires LARGE <= heap.start
      reads kernel, kernel.mmu
    {
      Provided(kernel.granted, kernel.mmu.users, heap.start - LARGE, end, userEnd)
    }

    constructor (kernel: Kernel, heap: Heap, ghost userEnd: nat)
      requires kernel.Valid() && heap.Valid() && Laid(heap.start, heap.size, kernel.pm.top)
      requires Apart(kernel.pm.bitmap, heap.blocks)
      requires kernel.Sound() ==>
        Provided(kernel.granted, kernel.mmu.users, heap.start - LARGE, heap.start + heap.size, userEnd)
      ensures Valid() && this.kernel == kernel && this.heap == heap && this.userEnd == userEnd
    {
      this.kernel := kernel;
      this.heap := heap;
      this.userEnd := userEnd;
    }

    /** Maps memory behind the heap. */
    method MapBehind(request: nat) returns (mapped: nat, alive: bool)
      requires Valid()
      modifies kernel, kernel.pm, kernel.pm.bitmap, kernel.mmu
      ensures Valid() && Laid(heap.start, heap.size + mapped, kernel.pm.top)
      ensures heap.start + heap.size + mapped <= Bits.WORD && mapped < request + LARGE
      ensures alive && mapped < request ==> kernel.Exhausted()
      ensures old(kernel.Exhausted()) ==> kernel.Exhausted()
      ensures kernel.Sound() ==> Mapped(heap.start + heap.size + mapped)
      ensures kernel.Sound() ==> alive && old(kernel.Sound())
    {
      hide Kernel.Valid, Provided, WordOf, Consecutive, GrantedFrom, SameElsewhere, UsersPlaced, Kernel.Exhausted,
        AllOrdinary, Aligned2Mb, Heap.Valid;
      ghost var placed;
      ghost var first, end := heap.start - LARGE, heap.start + heap.size;
      ghost var grants, users, base := kernel.granted, kernel.mmu.users, |kernel.pm.handed|;
      mapped, alive, placed := kernel.SmartAllocPages(WordOf(heap.start + heap.size), request, true);
      TopBounded(kernel);
      AlignedAddress(end);
      if kernel.Sound() {
        assert userEnd <= end by {
          ProvidedEnd(grants, users, first, end, userEnd);
        }
        ProvidedMore(grants, kernel.granted, users, kernel.mmu.users, placed, base, first, end, userEnd);
        ProvidedLess(kernel.granted, kernel.mmu.users, first, end, end + mapped, userEnd);
      }
    }

    /** Grows the heap by what the page layer maps behind it; a fault on the way ends it. */
    method Expand(request: nat) returns (ok: bool, alive: bool)
      requires Valid()
      modifies kernel, kernel.pm, kernel.pm.bitmap, kernel.mmu
      modifies heap`size, heap`order, heap`spans, heap`starved, heap.blocks
      ensures Valid() && heap.size >= old(heap.size) && Live(heap.spans) == Live(old(heap.spans))
      ensures ok ==> alive && Unused(heap.blocks[..]) < old(Unused(heap.blocks[..]))
      ensures ok ==> |Unused(heap.blocks[..])| + 1 == old(|Unused(heap.blocks[..])|)
      ensures ok ==> var growth := heap.size - old(heap.size);
        && heap.spans == HeapSteps.Grown(old(heap.spans), heap.start + old(heap.size), growth)
        && growth < request + LARGE && (growth < request ==> kernel.Exhausted())
      ensures old(kernel.Exhausted()) ==> kernel.Exhausted()
      ensures !ok ==> heap.spans == old(heap.spans) && heap.blocks[..] == old(heap.blocks[..])
      ensures !ok && alive ==> Unused(heap.blocks[..]) == {}
      ensures kernel.Sound() ==> alive && old(kernel.Sound())
    {
      hide Kernel.Valid, Mapped, HeapSteps.Holds, Tiles, Live, Positive, HeapSteps.Grown, Kernel.Exhausted;
      var found, last, slot := heap.FindTailAndSlot();
      if found != 2 {
        return false, true;
      }
      var mapped;
      mapped, alive := MapBehind(request);
      if !alive {
        return false, false;
      }
      heap.Append(last, slot, mapped);
      return true, true;
    }

    /**
     * The heap's own steps, and growing until there is room: the loop of heap_alloc over the page layer. With
     * two table slots to spare and a large enough piece of memory left it succeeds.
     */
    method Alloc(request: nat) returns (r: Option<nat>, alive: bool)
      requires Valid()
      modifies kernel, kernel.pm, kernel.pm.bitmap, kernel.mmu
      modifies heap`size, heap`order, heap`spans, heap`starved, heap.blocks
      ensures Valid() && heap.size >= old(heap.size)
      ensures r.Some? ==> Live(heap.spans) == Live(old(heap.spans)) + multiset{Span(r.value, request, false)}
      ensures r.None? ==> Live(heap.spans) == Live(old(heap.spans)) && (alive ==> Unused(heap.blocks[..]) == {})
      // the heap grows only while nothing fits
      ensures alive ==> var start := heap.start;
        Allocated(old(heap.spans), heap.spans, start, start + old(heap.size), start + heap.size, request, r)
      ensures r.Some? && NoFit(old(heap.blocks[..]), request) ==>
        heap.size >= old(heap.size) + request && r.value + request == heap.start + heap.size
      ensures forall d: nat :: FirstFit(old(heap.blocks[..]), request, d) ==>
        old(heap.blocks[d]).size == request || old(Unused(heap.blocks[..])) != {} ==> r.Some?
      ensures r.None? && alive ==> kernel.Exhausted() || |old(Unused(heap.blocks[..]))| < 2
      ensures old(kernel.Exhausted()) ==> kernel.Exhausted()
      ensures (r.Some? ==> alive) && (kernel.Sound() ==> alive && old(kernel.Sound()))
      decreases Unused(heap.blocks[..])
    {
      hide Kernel.Valid, Mapped, HeapSteps.Holds, Tiles, Live, Positive, NoneFits, Served, Obtained, HeapSteps.Grown,
        Kernel.Exhausted;
      ghost var v, start, mid := heap.spans, heap.start, heap.start + heap.size;
      NoFitMeans(heap.blocks[..], heap.order, v, request);
      var grow;
      r, grow := heap.AllocMapped(request);
      if r.Some? {
        AllocatedAtOnce(v, heap.spans, start, mid, request, r.value);
        return r, true;
      }
      var ok;
      ok, alive := Expand(request);
      if !ok {
        NotAllocated(v, start, mid, request);
        return;
      }
      ghost var growth := heap.start + heap.size - mid;
      ghost var d: nat;
      if request <= growth {
        d := FirstFitIsLast(heap.blocks[..], heap.order, v, mid, growth, request);
      }
      r, alive := Alloc(request);
      if alive {
        AllocatedLater(v, heap.spans, start, mid, growth, heap.start + heap.size, request, r);
      }
    }

    method Free(p: nat)
      requires Valid()
      modifies heap`order, heap`spans, heap.blocks
      ensures Valid() && heap.spans == AfterFree(old(heap.spans), p)
    {
      hide Kernel.Valid, Mapped, HeapSteps.Holds, Tiles, Live, Positive, AfterFree;
      heap.Free(p);
    }

    // ----- where the bytes are -----

    /** The byte of physical memory to which the processor takes address a. */
    ghost function ByteOf(a: nat): Option<bv64>
      reads kernel.mmu
    {
      match Walk(kernel.mmu.mem, kernel.mmu.root, At(a))
      case None => None
      case Some(p) => Some(p.Address())
    }

    /** The processor finds every byte of the heap and of its block table, outside all page tables. */
    lemma ByteFound(a: nat)
      requires Valid() && kernel.Sound() && heap.start - LARGE <= a < heap.start + heap.size
      ensures ByteOf(a).Some? && ByteOf(a) == Lookup(kernel.mmu.pages, At(a))
      ensures forall f :: f in kernel.mmu.roles ==> FrameAddress(ByteOf(a).value) != f.address
    {
      hide Heap.Valid, PageOf, Rising, TableIn, Tree, Represents, FrameAddress, PhysMem.IsSet, Backed, Unshared,
        Walk, WordOf, Physical.Address, Within;
      assert PageOf(At(a)) in kernel.granted;
      GrantedWalk(kernel.mmu, kernel.granted, kernel.pm.handed, At(a));
      forall f | f in kernel.mmu.roles ensures FrameAddress(ByteOf(a).value) != f.address {
        TableBytesApart(kernel.granted, kernel.mmu.pages, kernel.pm.handed, f, kernel.pm.top, At(a));
      }
    }

    /**
     * The processor lets every address of the heap be written. User code may use those that heap_init
     * mapped for it, and none of those the heap grew by.
     */
    lemma AccessGranted(a: nat)
      requires Valid() && kernel.Sound() && heap.start - LARGE <= a < heap.start + heap.size
      ensures LetsWrite(kernel.mmu.mem, kernel.mmu.root, At(a))
      ensures LetsUser(kernel.mmu.mem, kernel.mmu.root, At(a)) <==> a < userEnd
    {
      hide Heap.Valid, PageOf, Rising, TableIn, Tree, Represents, Guards, PhysMem.IsSet, Unshared, WordOf, LetsWrite,
        LetsUser, Aligned2Mb, AddressOf;
      assert PageOf(At(a)) in kernel.granted && (PageOf(At(a)) in kernel.mmu.users <==> a < userEnd);
      OrdinaryAt(At(a));
      HardwareGuards(kernel.mmu.mem, kernel.mmu.root, kernel.mmu.roles, kernel.mmu.pages, kernel.mmu.users, At(a));
    }

    /** Two addresses of the heap, or of its block table, are two bytes of physical memory. */
    lemma BytesDiffer(a: nat, b: nat)
      requires Valid() && kernel.Sound() && heap.start - LARGE <= a < b < heap.start + heap.size
      ensures ByteOf(a).Some? && ByteOf(b).Some? && ByteOf(a) != ByteOf(b)
    {
      hide HeapSteps.Holds, Tiles, PageOf, WordOf, Translated, Backed, Unshared, Rising, ByteOf;
      ByteFound(a);
      ByteFound(b);
      TopBounded(kernel);
      MemorySmall();
      AddressesApart(a, b);
      BytesApart(kernel.granted, kernel.mmu.pages, kernel.pm.handed, At(a), At(b));
    }

    /** No byte of one live allocation is a byte of another. */
    lemma AllocationsApart(s: Span, t: Span, a: nat, b: nat)
      requires Valid() && kernel.Sound() && Both(Live(heap.spans), s, t)
      requires s.start <= a < s.start + s.size && t.start <= b < t.start + t.size
      ensures ByteOf(a).Some? && ByteOf(b).Some? && ByteOf(a) != ByteOf(b)
    {
      hide Kernel.Valid, Live, Mapped, HeapSteps.Holds, Tiles, ByteOf;
      var end := heap.start + heap.size;
      assert s in Live(heap.spans) && t in Live(heap.spans);
      LiveInRange(heap.spans, heap.start, end, s);
      LiveInRange(heap.spans, heap.start, end, t);
      LiveApart(heap.spans, heap.start, end, s, t);
      if a < b {
        BytesDiffer(a, b);
      } else {
        BytesDiffer(b, a);
      }
    }
  }

  /** On a granted page the processor goes where the page map says. */
  lemma GrantedWalk(mmu: Mmu, granted: map<Page, nat>, handed: seq<Range>, v: Virtual)
    requires mmu.Valid() && Backed(granted, mmu.pages, handed) && PageOf(v) in granted
    requires forall r :: 0 <= r < |handed| ==> handed[r].first < 64 * BITMAP_WORDS
    ensures match Walk(mmu.mem, mmu.root, v)
      case None => false
      case Some(p) => Lookup(mmu.pages, v) == Some(p.Address())
  {
    hide PageOf, Ordinary, Aligned2Mb, Walk, Tree, Represents, AddressOf, Physical.Address, Within;
    PageFrame(handed[granted[PageOf(v)]].first);
    OrdinaryAt(v);
    HardwareAgrees(mmu.mem, mmu.root, mmu.roles, mmu.pages, v);
  }

  lemma TopBounded(kernel: Kernel)
    requires kernel.Valid()
    ensures kernel.pm.top < 64 * BITMAP_WORDS == kernel.pm.PageCount()
  {
  }

  lemma MemorySmall()
    ensures MEMORY + 2 * LARGE < Bits.Pow2(48)
  {
    assert Bits.Pow2(8) == 256;
    Bits.Pow2Add(8, 8);
    Bits.Pow2Add(16, 16);
    Bits.Pow2Add(32, 16);
  }

  /** What is placed for the kernel behind a range extends it. */
  lemma ProvidedMore(
    grants: map<Page, nat>, granted: map<Page, nat>, was: set<Page>, now: set<Page>, placed: seq<Page>, base: nat,
    first: nat, end: nat, userEnd: nat)
    requires Provided(grants, was, first, end, userEnd) && end % LARGE == 0 && Consecutive(placed, WordOf(end))
    requires GrantedFrom(granted, placed, base) && SameElsewhere(grants, granted, placed)
    requires UsersPlaced(was, now, placed, true)
    requires first <= end && end + |placed| * LARGE <= first + LARGE + MEMORY
    ensures Provided(granted, now, first, end + |placed| * LARGE, userEnd)
  {
    hide PageOf, WordOf, Consecutive, GrantedFrom, SameElsewhere, UsersPlaced, UserRange, Bits.Pow2;
    MemorySmall();
    PlacedRange(granted, placed, base, end);
    RangeKept(grants, granted, placed, base, first, end);
    KernelBehind(was, now, placed, first, end, userEnd);
  }

  lemma ProvidedEnd(granted: map<Page, nat>, users: set<Page>, first: nat, end: nat, userEnd: nat)
    requires Provided(granted, users, first, end, userEnd)
    ensures userEnd <= end
  {
  }

  lemma ProvidedLess(granted: map<Page, nat>, users: set<Page>, first: nat, mid: nat, end: nat, userEnd: nat)
    requires Provided(granted, users, first, end, userEnd) && userEnd <= mid <= end
    ensures Provided(granted, users, first, mid, userEnd)
  {
    hide PageOf;
  }

  /** One more page, in front of a range, for the same users. */
  lemma ProvidedFront(
    was: map<Page, bv64>, now: map<Page, bv64>, grants: map<Page, nat>, granted: map<Page, nat>, users: set<Page>,
    nowUsers: set<Page>, later: nat, isKernel: bool, first: nat, end: nat)
    requires PlacedOn(was, now, grants, granted, PageOf(At(first)), later) && first % LARGE == 0
    requires UserSet(users, nowUsers, PageOf(At(first)), isKernel)
    requires Provided(grants, users, first + LARGE, end, if isKernel then 0 else end) && first + LARGE <= end
    ensures Provided(granted, nowUsers, first, end, if isKernel then 0 else end)
  {
    hide PageOf, WordOf, UserRange, UserSet;
    UserPlaced(users, nowUsers, isKernel, first, end);
    AddressPage(first);
    forall a: nat | first <= a < end ensures PageOf(At(a)) in granted {
      AddressPage(a);
      if a < first + LARGE {
        assert a / LARGE == first / LARGE;
      } else {
        assert PageOf(At(a)) in grants;
      }
    }
  }

  lemma PageFrame(page: nat)
    requires page < 64 * BITMAP_WORDS
    ensures AddressOf(page) & 0xFFF0_0000_0000_0000 == 0
  {
    WordSmall(page);
    ShiftedSmall(WordOf(page));
  }

  lemma ShiftedSmall(x: bv64)
    requires x <= 0xFFFFF
    ensures PageShift(x) & 0xFFF0_0000_0000_0000 == 0
  {
  }

  lemma OrdinaryAt(v: Virtual)
    ensures PageOf(v).i != RECURSIVE ==> Ordinary(v)
  {
  }

  /** Maps the large page of the block table at base, in front of the heap that ends at end. */
  method MapTable(kernel: Kernel, base: nat, isKernel: bool, ghost end: nat) returns (round: Round)
    requires kernel.Valid() && base + LARGE <= end
    modifies kernel, kernel.pm, kernel.pm.bitmap, kernel.mmu
    ensures kernel.Valid() && kernel.pm.top >= old(kernel.pm.top) && round != Skip
    ensures kernel.Sound() ==> old(kernel.Sound()) && round != Crash
    ensures round == Stop ==> kernel.Exhausted() || base % LARGE != 0
    ensures round == Placed ==> base % LARGE == 0 && !old(kernel.Exhausted())
    ensures var userEnd := if isKernel then 0 else end;
      var provided := old(Provided(kernel.granted, kernel.mmu.users, base + LARGE, end, userEnd));
      kernel.Sound() && round == Placed && provided ==>
        Provided(kernel.granted, kernel.mmu.users, base, end, userEnd)
  {
    hide Kernel.Valid, Provided, WordOf, Kernel.Exhausted, Aligned2Mb, PageOf, PlacedOn, UserSet;
    ghost var userEnd := if isKernel then 0 else end;
    ghost var provided := Provided(kernel.granted, kernel.mmu.users, base + LARGE, end, userEnd);
    AlignedAddress(base);
    TopBounded(kernel);
    round := Skip;
    while round == Skip
      invariant kernel.Valid() && old(kernel.pm.top) <= kernel.pm.top < kernel.pm.PageCount()
      invariant kernel.Sound() ==> old(kernel.Sound()) && round != Crash
      invariant round == Skip ==> kernel.granted == old(kernel.granted) && kernel.mmu.users == old(kernel.mmu.users)
      invariant round == Stop ==> kernel.Exhausted() || base % LARGE != 0
      invariant round == Placed ==> base % LARGE == 0
      invariant old(kernel.Exhausted()) ==> kernel.Exhausted() && round != Placed
      invariant kernel.Sound() && round == Placed && provided ==>
        Provided(kernel.granted, kernel.mmu.users, base, end, userEnd)
      decreases if round == Skip then kernel.pm.PageCount() - kernel.pm.top else 0
    {
      ghost var was, grants, users, later := kernel.mmu.pages, kernel.granted, kernel.mmu.users, |kernel.pm.handed|;
      round := kernel.PlaceOne(WordOf(base), isKernel);
      TopBounded(kernel);
      if kernel.Sound() && round == Placed && provided {
        ProvidedFront(
          was, kernel.mmu.pages, grants, kernel.granted, users, kernel.mmu.users, later, isKernel, base, end);
      }
    }
  }

  /**
   * heap_init: maps the heap behind the large page of its block table, then that page. It gives up where
   * the bitmap has no large page left, or the mapper refuses the address.
   */
  method HeapInit(kernel: Kernel, base: nat, request: nat, isKernel: bool) returns (r: Option<PagedHeap>, alive: bool)
    requires kernel.Valid() && base + LARGE + MEMORY <= Bits.WORD
    modifies kernel, kernel.pm, kernel.pm.bitmap, kernel.mmu
    ensures kernel.Valid() && (kernel.Sound() ==> alive && old(kernel.Sound()))
    ensures r.Some? ==>
      && fresh(r.value) && fresh(r.value.heap) && fresh(r.value.heap.blocks)
      && r.value.kernel == kernel && r.value.Valid() && alive
    ensures r.Some? ==> var heap := r.value.heap;
      && heap.start == base + LARGE && heap.spans == [Span(heap.start, heap.size, true)]
      && request <= heap.size < request + LARGE
      && r.value.userEnd == (if isKernel then 0 else heap.start + heap.size)
    ensures r.None? && alive ==> kernel.Exhausted() || base % LARGE != 0
  {
    hide Kernel.Valid, RangeMapped, UserRange, WordOf, Consecutive, GrantedFrom, SameElsewhere, UsersPlaced,
      Kernel.Exhausted, AllOrdinary, Aligned2Mb, HeapSteps.Holds, Tiles, Live, Positive, PageOf;
    ghost var placed, handed, users := [], |kernel.pm.handed|, kernel.mmu.users;
    var mapped;
    mapped, alive, placed := kernel.SmartAllocPages(WordOf(base + LARGE), request, isKernel);
    if !alive {
      return None, false;
    }
    AlignedAddress(base + LARGE);
    ghost var end := base + LARGE + mapped;
    if kernel.Sound() && base % LARGE == 0 {
      PlacedRange(kernel.granted, placed, handed, base + LARGE);
      PlacedUsers(users, kernel.mmu.users, placed, isKernel, base + LARGE);
    }
    var round := MapTable(kernel, base, isKernel, end);
    alive := round != Crash;
    if round != Placed {
      return None, alive;
    }
    TopBounded(kernel);
    var heap := new Heap(SLOTS, base + LARGE, mapped);
    var paged := new PagedHeap(kernel, heap, if isKernel then 0 else end);
    return Some(paged), true;
  }
}
