/** The physical page allocator: first fit over a bitmap that is never cleared again. */
module PhysicalMemory {
  import opened Options
  import opened Bitmap

  const PAGE_SIZE: nat := 0x1000
  const PAGES_PER_LARGE: nat := 512

  /** Page indices from first up to, but not including, end. */
  datatype Range = Range(first: nat, end: nat)

  /** Every range lies above all earlier ones. */
  ghost predicate Rising(h: seq<Range>) {
    forall a, b :: 0 <= a < b < |h| ==> h[a].end <= h[b].first
  }

  predicate Holds(r: Range, page: nat) {
    r.first <= page < r.end
  }

  ghost predicate Disjoint(r: Range, s: Range) {
    forall page: nat :: !(Holds(r, page) && Holds(s, page))
  }

  lemma RisingDisjoint(h: seq<Range>, a: nat, b: nat)
    requires Rising(h) && a < b < |h|
    ensures Disjoint(h[a], h[b])
  {
    assert h[a].end <= h[b].first;
  }

  lemma RisingMore(h: seq<Range>, top: nat, r: Range)
    requires Rising(h) && top < r.first && forall a :: 0 <= a < |h| ==> h[a].end <= top + 1
    ensures Rising(h + [r])
  {
  }

  class PhysMem {
    const bitmap: array<bv64>
    const limit: nat            // the bound computed from the reported memory size
    ghost var handed: seq<Range> // everything handed out so far, in order
    ghost var top: nat           // all pages from 1 up to here are set

    predicate IsSet(page: nat)
      reads bitmap
    {
      Get(bitmap[..], page)
    }

    function PageCount(): nat {
      64 * bitmap.Length
    }

    ghost predicate Valid()
      reads this, bitmap
    {
      && (forall p :: 1 <= p <= top ==> IsSet(p))
      && Rising(handed)
      && (forall a :: 0 <= a < |handed| ==> 1 <= handed[a].first < handed[a].end <= top + 1)
      && (top == 0 || top < PageCount())
    }

    /** Any reservations may already be in the bitmap. */
    constructor (bitmap: array<bv64>, limit: nat)
      ensures Valid() && this.bitmap == bitmap && this.limit == limit && handed == [] && top == 0
    {
      this.bitmap := bitmap;
      this.limit := limit;
      handed := [];
      top := 0;
    }

    method SetPage(page: nat)
      modifies bitmap
      ensures forall p: nat :: IsSet(p) <==> (old(IsSet(p)) || (p == page && page < PageCount()))
    {
      ghost var was := bitmap[..];
      if page < 64 * bitmap.Length {
        bitmap[page / 64] := BitSet(bitmap[page / 64], BitIndex(page));
        assert bitmap[..] == Put(was, page, true);
      }
      forall p: nat ensures IsSet(p) <==> (Get(was, p) || (p == page && page < PageCount())) {
        PutGet(was, page, true, p);
      }
    }

    /** The boot reservation: page 0 and all pages of the kernel image, which holds the boot page tables. */
    method ReserveKernel(count: nat) returns (ok: bool)
      requires Valid() && handed == [] && top < count
      modifies this`top, bitmap
      ensures Valid() && handed == [] && (ok <==> count <= PageCount()) && top == (if ok then count - 1 else old(top))
      ensures forall p: nat :: IsSet(p) <==> (old(IsSet(p)) || (p < count && p < PageCount()))
    {
      ok := TryReserve(0, count);
      if ok {
        top := count - 1;
      }
    }

    /** The first page, above page 0 and below both bounds, that is not set. */
    method GetPage() returns (r: Option<nat>)
      requires Valid()
      modifies this`handed, this`top, bitmap
      ensures Valid()
      ensures r.Some? ==>
        && 1 <= r.value < PageCount() && r.value < limit && !old(IsSet(r.value))
        && (forall p :: 1 <= p < r.value ==> old(IsSet(p)))
        && (forall p: nat :: IsSet(p) <==> (old(IsSet(p)) || p == r.value))
        && r.value > old(top) && top == r.value && handed == old(handed) + [Range(r.value, r.value + 1)]
      ensures r.None? ==>
        && (forall p :: 1 <= p < PageCount() && p < limit ==> IsSet(p))
        && bitmap[..] == old(bitmap[..]) && handed == old(handed) && top == old(top)
    {
      var i := 1;
      while i < 64 * bitmap.Length && i < limit
        invariant 1 <= i && bitmap[..] == old(bitmap[..]) && handed == old(handed) && top == old(top) && Valid()
        invariant forall p :: 1 <= p < i ==> IsSet(p)
      {
        if !Get(bitmap[..], i) {
          assert !IsSet(i);
          assert i > top;
          SetPage(i);
          RisingMore(handed, top, Range(i, i + 1));
          top := i;
          handed := handed + [Range(i, i + 1)];
          return Some(i);
        }
        i := i + 1;
      }
      return None;
    }

    /** Sets count pages from address on without looking at them; stops at the end of the bitmap. */
    method TryReserve(address: nat, count: nat) returns (ok: bool)
      modifies bitmap
      ensures address % PAGE_SIZE != 0 ==> !ok && bitmap[..] == old(bitmap[..])
      ensures address % PAGE_SIZE == 0 ==>
        var first := address / PAGE_SIZE;
        && (ok <==> count == 0 || first + count <= PageCount())
        && forall p: nat :: IsSet(p) <==> (old(IsSet(p)) || (first <= p < first + count && p < PageCount()))
    {
      if address % PAGE_SIZE != 0 {
        return false;
      }
      var first := address / PAGE_SIZE;
      for reserved := 0 to count
        invariant reserved == 0 || first + reserved <= PageCount()
        invariant forall p: nat :: IsSet(p) <==> (old(IsSet(p)) || (first <= p < first + reserved))
      {
        var current := address + reserved * PAGE_SIZE;
        if current >= 64 * bitmap.Length * PAGE_SIZE {
          return false;
        }
        assert current / PAGE_SIZE == first + reserved;
        SetPage(current / PAGE_SIZE);
      }
      return true;
    }

    /**
     * One round of the 2 MB grab: the page after a GetPage that returned page, with its 511 successors
     * reserved blindly. The whole range lies above everything handed out before.
     */
    method ReserveTail(page: nat) returns (ok: bool)
      requires Valid() && |handed| > 0 && handed[|handed| - 1] == Range(page, page + 1) && page == top
      modifies this`handed, this`top, bitmap
      ensures Valid()
      ensures ok <==> page + PAGES_PER_LARGE <= PageCount()
      ensures !ok ==> top == page
      ensures handed ==
        old(handed)[..|old(handed)| - 1] + [Range(page, if ok then page + PAGES_PER_LARGE else page + 1)]
      ensures top >= old(top) && forall p: nat :: old(IsSet(p)) ==> IsSet(p)
    {
      ok := TryReserve(page * PAGE_SIZE + PAGE_SIZE, PAGES_PER_LARGE - 1);
      assert (page * PAGE_SIZE + PAGE_SIZE) / PAGE_SIZE == page + 1;
      if ok {
        handed := handed[..|handed| - 1] + [Range(page, page + PAGES_PER_LARGE)];
        top := page + PAGES_PER_LARGE - 1;
      } else {
        assert handed == handed[..|handed| - 1] + [Range(page, page + 1)];
      }
    }
  }
}
