/** The kernel heap: a fixed block table over one address range, rewritten in place. */
module Heaps {
  import opened Options
  import opened Arithmetic
  import opened Bits
  import opened HeapLayout
  import opened HeapTable
  import opened HeapSteps
  import opened HeapMerging

  /** Any page layer: it maps some memory that still fits behind the heap, or none. KernelHeap puts in the real one. */
  method SmartAllocPages(size: nat, room: nat) returns (mapped: nat)
    ensures mapped <= room
  {
    mapped := *;
    mapped := mapped % (room + 1);
  }

  class Heap {
    const blocks: array<Block>
    const start: nat
    var size: nat
    ghost var order: seq<nat>     // the used slots in list order
    ghost var spans: seq<Span>    // what they hold
    ghost var starved: bool       // some expansion got no memory at all
    var words: map<nat, nat>      // the words malloc_aligned writes in front of its blocks

    ghost predicate Valid()
      reads this, blocks
    {
      Holds(blocks[..], order, spans) && Tiles(spans, start, start + size) && start + size <= WORD
    }

    constructor (slots: nat, start: nat, size: nat)
      requires slots > 0 && start + size <= WORD
      ensures Valid() && fresh(blocks) && blocks.Length == slots && this.start == start && this.size == size
      ensures spans == [Span(start, size, true)] && !starved
    {
      blocks := new Block[slots](_ => EMPTY);
      this.start := start;
      this.size := size;
      order := [0];
      spans := [Span(start, size, true)];
      starved := false;
      words := map[];
      new;
      blocks[0] := Block(start, size, -1, true, true);
    }

    /**
     * For each filter the first block it accepts that no earlier filter took; -1 where there is none.
     */
    method FilterBlocks(filters: seq<Filter>) returns (found: nat, stored: seq<int>)
      ensures |stored| == |filters| && Scanned(filters, blocks[..], blocks.Length, stored)
      ensures found == |filters| <==> forall k :: 0 <= k < |stored| ==> stored[k] != -1
    {
      hide Scanned;
      stored := seq(|filters|, _ => -1);
      found := 0;
      ghost var t := blocks[..];
      ScanBegin(filters, t);
      for i := 0 to blocks.Length
        invariant |stored| == |filters| && Scanned(filters, t, i, stored) && found == |Found(stored)|
      {
        FoundAll(stored);
        if found == |filters| {
          ScanRest(filters, t, i, stored);
          return;
        }
        var k := 0;
        while k < |filters| && !(stored[k] == -1 && Accepts(filters[k], blocks[i]))
          invariant k <= |filters|
          invariant forall m :: 0 <= m < k ==> !(stored[m] == -1 && Accepts(filters[m], t[i]))
        {
          k := k + 1;
        }
        if k < |filters| {
          ScanStore(filters, t, i, stored, k);
          stored := stored[k := i];
          found := found + 1;
        } else {
          ScanSkip(filters, t, i, stored);
        }
      }
      FoundAll(stored);
    }

    method FindTailAndSlot() returns (found: nat, last: int, slot: int)
      requires Valid()
      ensures |order| > 0 && last == order[|order| - 1] && (found == 2 <==> slot != -1)
      ensures if slot == -1 then Unused(blocks[..]) == {} else 0 <= slot < blocks.Length && !blocks[slot].used
    {
      var stored;
      found, stored := FilterBlocks([Last, UnusedSlot]);
      TailAndSlot(blocks[..], order, stored);
      return found, stored[0], stored[1];
    }

    method FindDonorAndSlot(request: nat) returns (found: nat, donor: int, slot: int)
      ensures found == 2 <==> donor != -1 && slot != -1
      ensures if slot == -1 then Unused(blocks[..]) == {} else 0 <= slot < blocks.Length && !blocks[slot].used
      ensures forall d: nat :: FirstFit(blocks[..], request, d) <==> donor == d
      ensures donor != -1 ==> 0 <= donor < blocks.Length && Accepts(Donor(request), blocks[donor])
    {
      var stored;
      found, stored := FilterBlocks([Donor(request), UnusedSlot]);
      DonorAndSlot(blocks[..], request, stored);
      return found, stored[0], stored[1];
    }

    // ----- growing -----

    /** Appends a free block of whatever the page layer maps behind the heap. */
    method Expand(request: nat) returns (ok: bool, ghost growth: nat)
      requires Valid()
      modifies this`size, this`order, this`spans, this`starved, blocks
      ensures Valid() && size == old(size) + growth && starved == (old(starved) || (ok && growth == 0))
      ensures ok ==> spans == Grown(old(spans), start + old(size), growth)
      ensures Live(spans) == Live(old(spans)) && (Positive(old(spans)) && !starved ==> Positive(spans))
      ensures ok ==> Unused(blocks[..]) < old(Unused(blocks[..]))
      ensures !ok ==> Unused(blocks[..]) == {} && spans == old(spans) && growth == 0
    {
      hide Holds, Tiles, Grown, Live, Positive;
      var found, last, slot := FindTailAndSlot();
      if found != 2 {
        return false, 0;
      }
      var mapped := SmartAllocPages(request, WORD - (start + size));
      Append(last, slot, mapped);
      return true, mapped;
    }

    /** Appends a free block for the mapped bytes behind the heap, in an unused slot. */
    method Append(last: nat, slot: nat, mapped: nat)
      requires Valid() && start + size + mapped <= WORD && |order| > 0 && last == order[|order| - 1]
      requires slot < blocks.Length && !blocks[slot].used
      modifies this`size, this`order, this`spans, this`starved, blocks
      ensures Valid() && size == old(size) + mapped && starved == (old(starved) || mapped == 0)
      ensures spans == Grown(old(spans), start + old(size), mapped)
      ensures Live(spans) == Live(old(spans)) && (Positive(old(spans)) && !starved ==> Positive(spans))
      ensures Unused(blocks[..]) == old(Unused(blocks[..])) - {slot} && slot in old(Unused(blocks[..]))
    {
      hide Holds, Tiles, Inserted, CutTable, PaddedTable, GrownTable, TakenTable, Cut, Padded, Grown, Taken, Live,
        Position;
      var end := start + size;
      GrownKeeps(spans, start, end, mapped);
      GrowStep(blocks[..], order, spans, last, slot, end, mapped);
      order, spans := Inserted(order, |order| - 1, slot), Grown(spans, end, mapped);
      size := size + mapped;
      starved := starved || mapped == 0;
      WriteGrown(last, slot, end, mapped);
    }

    method WriteGrown(last: nat, slot: nat, end: nat, growth: nat)
      requires last < blocks.Length && slot < blocks.Length && last != slot
      modifies blocks
      ensures blocks[..] == GrownTable(old(blocks[..]), last, slot, end, growth)
    {
      blocks[slot] := blocks[slot].(used := true, free := true, size := growth, start := end);
      blocks[last] := blocks[last].(next := slot);
    }

    // ----- allocating -----

    /**
     * Hands out request bytes from the end of the first free block that is large enough; without one,
     * the heap grows and tries again. Only when no table slot is left does it give up.
     */
    method Alloc(request: nat) returns (r: Option<nat>)
      requires Valid()
      modifies this`size, this`order, this`spans, this`starved, blocks
      ensures Valid() && size >= old(size) && (old(starved) ==> starved)
      ensures r.None? ==> Live(spans) == Live(old(spans)) && Unused(blocks[..]) == {}
      ensures r.Some? ==> Live(spans) == Live(old(spans)) + multiset{Span(r.value, request, false)}
      ensures r.Some? ==> r.value + request <= start + size
      ensures forall d: nat :: FirstFit(old(blocks[..]), request, d) ==>
        && ((old(blocks[d]).size == request || old(Unused(blocks[..])) != {}) ==> r.Some?)
        && (r.Some? ==> r.value == CutSpan(SpanOf(old(blocks[d])), request).start)
        && (r.Some? && old(blocks[d]).size > request ==>
              blocks[d].used && SpanOf(blocks[d]) == Rest(SpanOf(old(blocks[d])), request))
        && |Unused(blocks[..])| + 1 >= old(|Unused(blocks[..])|)
      // the heap grows only while nothing fits
      ensures Allocated(old(spans), spans, start, start + old(size), start + size, request, r)
      ensures r.Some? && NoFit(old(blocks[..]), request) ==>
        size >= old(size) + request && r.value + request == start + size
      ensures Positive(old(spans)) && request > 0 && !starved ==> Positive(spans)
      ensures forall q, s :: old(Owns(q, s)) ==> Owns(q, s)
      decreases Unused(blocks[..])
    {
      hide Holds, Tiles, Grown, Live, Positive, NoneFits, Served, Obtained;
      ghost var v, mid := spans, start + size;
      NoFitMeans(blocks[..], order, v, request);
      var grow;
      r, grow := AllocMapped(request);
      if r.Some? {
        AllocatedAtOnce(v, spans, start, mid, request, r.value);
        return;
      }
      var ok, growth := Expand(request);
      if !ok {
        NotAllocated(v, start, mid, request);
        return;
      }
      if growth == request {
        ghost var d := FirstFitIsLast(blocks[..], order, v, mid, growth, request);
      }
      r := Alloc(request);
      AllocatedLater(v, spans, start, mid, growth, start + size, request, r);
    }

    /** The part of Alloc that takes memory the heap has: grow tells that there is too little, or no slot for it. */
    method AllocMapped(request: nat) returns (r: Option<nat>, grow: bool)
      requires Valid()
      modifies this`order, this`spans, blocks
      ensures Valid() && r.None? == grow
      ensures grow ==> order == old(order) && spans == old(spans) && blocks[..] == old(blocks[..])
      ensures r.Some? ==> Live(spans) == Live(old(spans)) + multiset{Span(r.value, request, false)}
      ensures r.Some? ==> r.value + request <= start + size
      ensures forall d: nat :: FirstFit(old(blocks[..]), request, d) ==>
        && ((old(blocks[d]).size == request || old(Unused(blocks[..])) != {}) ==> r.Some?)
        && (r.Some? ==> r.value == CutSpan(SpanOf(old(blocks[d])), request).start)
        && (r.Some? && old(blocks[d]).size > request ==>
              blocks[d].used && SpanOf(blocks[d]) == Rest(SpanOf(old(blocks[d])), request))
        && |Unused(blocks[..])| + 1 >= old(|Unused(blocks[..])|)
      ensures Positive(old(spans)) && request > 0 ==> Positive(spans)
      ensures r.Some? ==> Served(old(spans), spans, request, r.value)
    {
      hide Holds, Tiles, Inserted, CutTable, PaddedTable, GrownTable, TakenTable, Cut, Padded, Grown, Taken, Live,
        Position, Served;
      var found, donor, slot := FindDonorAndSlot(request);
      if donor != -1 && blocks[donor].size == request {
        TakeDonor(donor);
        return Some(blocks[donor].start), false;
      }
      if found != 2 {
        return None, true;
      }
      CutDonor(donor, slot, request);
      return Some(blocks[slot].start), false;
    }

    method TakeDonor(d: nat)
      requires Valid() && d < blocks.Length && blocks[d].used && blocks[d].free
      modifies this`spans, blocks
      ensures Valid() && blocks[d].start == old(blocks[d]).start && Unused(blocks[..]) == old(Unused(blocks[..]))
      ensures Live(spans) == Live(old(spans)) + multiset{TakenSpan(SpanOf(old(blocks[d])))}
      ensures Positive(old(spans)) ==> Positive(spans)
      ensures blocks[d].start + old(blocks[d]).size <= start + size
      ensures Served(old(spans), spans, old(blocks[d]).size, blocks[d].start)
    {
      hide Holds, Tiles, Inserted, CutTable, PaddedTable, GrownTable, TakenTable, Cut, Padded, Grown, Taken, Live,
        Position;
      ghost var k := Position(blocks[..], order, spans, d);
      TakenKeeps(spans, start, start + size, k);
      SpanInRange(spans, start, start + size, k);
      TakeStep(blocks[..], order, spans, k, d);
      spans := Taken(spans, k);
      ghost var was := blocks[..];
      WriteTaken(d);
      assert Unused(blocks[..]) == Unused(was);
    }

    method WriteTaken(d: nat)
      requires d < blocks.Length
      modifies blocks
      ensures blocks[..] == TakenTable(old(blocks[..]), d) && blocks[d].start == old(blocks[d].start)
      ensures forall i :: 0 <= i < blocks.Length ==> blocks[i].used == (i == d || old(blocks[i].used))
    {
      blocks[d] := blocks[d].(free := false, used := true);
    }

    method CutDonor(d: nat, u: nat, request: nat)
      requires Valid() && d < blocks.Length && blocks[d].used && blocks[d].free && request <= blocks[d].size
      requires u < blocks.Length && !blocks[u].used
      modifies this`order, this`spans, blocks
      ensures Valid() && SpanOf(blocks[u]) == CutSpan(SpanOf(old(blocks[d])), request)
      ensures SpanOf(blocks[d]) == Rest(SpanOf(old(blocks[d])), request)
      ensures Unused(blocks[..]) == old(Unused(blocks[..])) - {u}
      ensures blocks[d].used && blocks[d].next == u && blocks[u].used
      ensures forall i :: 0 <= i < blocks.Length && i != d && i != u ==> blocks[i] == old(blocks[i])
      ensures Live(spans) == Live(old(spans)) + multiset{CutSpan(SpanOf(old(blocks[d])), request)}
      ensures Positive(old(spans)) && 0 < request < old(blocks[d]).size ==> Positive(spans)
      ensures blocks[u].start + request <= start + size
      ensures request < old(blocks[d]).size ==> Served(old(spans), spans, request, blocks[u].start)
    {
      hide Holds, Tiles, Inserted, CutTable, PaddedTable, GrownTable, TakenTable, Cut, Padded, Grown, Taken, Live,
        Position;
      ghost var k := Position(blocks[..], order, spans, d);
      CutKeeps(spans, start, start + size, k, request);
      SpanInRange(spans, start, start + size, k);
      CutStep(blocks[..], order, spans, k, d, u, request);
      order, spans := Inserted(order, k, u), Cut(spans, k, request);
      ghost var was := blocks[..];
      WriteCut(d, u, request);
      UnusedShrinks(was, blocks[..], u);
    }

    method WriteCut(d: nat, u: nat, request: nat)
      requires d < blocks.Length && u < blocks.Length && d != u && request <= blocks[d].size
      modifies blocks
      ensures blocks[..] == CutTable(old(blocks[..]), d, u, request)
      ensures SpanOf(blocks[u]) == CutSpan(SpanOf(old(blocks[d])), request)
      ensures SpanOf(blocks[d]) == Rest(SpanOf(old(blocks[d])), request)
      ensures blocks[d].used == old(blocks[d].used) && blocks[d].next == u && blocks[u].used
      ensures forall i :: 0 <= i < blocks.Length && i != d && i != u ==> blocks[i] == old(blocks[i])
    {
      blocks[d] := blocks[d].(size := blocks[d].size - request);
      blocks[u] := blocks[u].(free := false, used := true, size := request, start := blocks[d].start + blocks[d].size);
      blocks[u] := blocks[u].(next := blocks[d].next);
      blocks[d] := blocks[d].(next := u);
    }

    // ----- malloc_aligned and free_aligned -----

    /** The word in front of p names the live allocation raw, and lies in it. */
    ghost predicate Owns(p: nat, raw: Span)
      reads this
    {
      && p >= 8 && p - 8 in words && words[p - 8] == raw.start
      && raw.start + 8 <= p <= raw.start + raw.size && raw in Live(spans)
    }

    /**
     * Over-allocates, rounds up, and keeps the raw address in the word in front of the result. The
     * result and its size bytes lie inside the raw allocation, behind that word.
     */
    method MallocAligned(request: nat, align: nat) returns (r: Option<nat>, ghost raw: Span)
      requires Valid() && PowerOfTwo(align) && 0 < align <= WORD
      modifies this`size, this`order, this`spans, this`starved, this`words, blocks
      ensures Valid() && (old(starved) ==> starved)
      ensures r.None? ==> Live(spans) == Live(old(spans)) && words == old(words) && Unused(blocks[..]) == {}
      ensures r.Some? ==> Live(spans) == Live(old(spans)) + multiset{raw} && raw.size == request + align + 8
      ensures r.Some? ==> r.value % align == 0 && raw.start + 8 <= r.value && r.value + request <= raw.start + raw.size
      ensures r.Some? ==> words == old(words)[r.value - 8 := raw.start] && Owns(r.value, raw)
      ensures forall q, s :: old(Owns(q, s)) ==> Owns(q, s)
      ensures Positive(old(spans)) && !starved ==> Positive(spans)
    {
      hide Holds, Tiles, Positive, Live, BitAnd, FirstFit, Allocated;
      var p := Alloc(request + align + 8);
      raw := Span(if p.None? then 0 else p.value, request + align + 8, false);
      if p.None? {
        return None, raw;
      }
      AlignUpIsNearest(p.value + 8, align);
      var aligned := AlignUp(p.value + 8, align);
      forall q, s | old(Owns(q, s)) ensures q != aligned {
        LiveApart(spans, start, start + size, raw, s);
      }
      words := words[aligned - 8 := p.value];
      return Some(aligned), raw;
    }

    /** Frees what the word in front of p names. */
    method FreeAligned(p: nat)
      requires Valid() && p >= 8 && p - 8 in words
      modifies this`order, this`spans, blocks
      ensures Valid() && spans == AfterFree(old(spans), words[p - 8])
      // exactly the allocation around p ends
      ensures forall raw :: old(Owns(p, raw)) && Positive(old(spans)) ==>
        Live(spans) + multiset{raw} == Live(old(spans))
      ensures forall q, s :: old(Owns(q, s)) && s.start != words[p - 8] ==> Owns(q, s)
    {
      hide Holds, Tiles, Live, Positive, AfterFree;
      forall raw | Owns(p, raw) && Positive(spans)
        ensures Live(AfterFree(spans, raw.start)) + multiset{raw} == Live(spans)
      {
        FreeReturns(spans, start, start + size, raw);
      }
      Free(words[p - 8]);
    }

    // ----- aligned allocation for DMA -----

    /**
     * Cuts request + align bytes off a donor and pads the front with a free filler up to the alignment.
     * The heap does not grow: without a donor and two table slots it refuses.
     */
    method DmaAlloc(request: nat, align: nat) returns (r: Option<nat>, ghost len: nat)
      requires Valid() && PowerOfTwo(align) && align > 0
      modifies this`order, this`spans, blocks
      ensures Valid()
      ensures r.None? ==> spans == old(spans) && blocks[..] == old(blocks[..])
      ensures r.None? ==> request % align != 0 || |Unused(blocks[..])| < 2 || NoFit(blocks[..], request + align)
      ensures r.Some? ==> r.value % align == 0 && request < len <= request + align
      ensures r.Some? ==> Live(spans) == Live(old(spans)) + multiset{Span(r.value, len, false)}
      // the block is the end of the first that fits
      ensures r.Some? ==> exists d: nat ::
        && FirstFit(old(blocks[..]), request + align, d)
        && r.value + len == old(blocks[d]).start + old(blocks[d]).size
        && SpanOf(blocks[d]) == Rest(SpanOf(old(blocks[d])), request + align)
    {
      hide Holds, Tiles, Inserted, CutTable, PaddedTable, GrownTable, TakenTable, Cut, Padded, Grown, Taken, Live,
        Position;
      len := 0;
      IsAlignedMeansMultiple(request, align);
      if !IsAligned(request, align) {
        return None, len;
      }
      var donor, slot, filler := FindDonorAndSlots(request + align);
      // an exact fit can be returned at once, but the donor always has align bytes to spare
      assert donor != -1 ==> blocks[donor].size != request;
      if donor == -1 || slot == -1 || filler == -1 {
        return None, len;
      }
      CutDonor(donor, slot, request + align);
      ghost var cut := SpanOf(blocks[slot]);
      IsAlignedMeansMultiple(blocks[slot].start, align);
      if !IsAligned(blocks[slot].start, align) {
        var misalignment := blocks[slot].start % align;
        var correction := (align - misalignment) % align;
        CorrectionAligns(blocks[slot].start, align);
        PadFront(donor, slot, filler, correction);
        PadLive(Live(old(spans)), cut, Live(spans), SpanOf(blocks[slot]));
      }
      return Some(blocks[slot].start), blocks[slot].size;
    }

    method FindDonorAndSlots(request: nat) returns (donor: int, slot: int, filler: int)
      ensures donor != -1 ==> 0 <= donor < blocks.Length && Accepts(Donor(request), blocks[donor])
      ensures donor != -1 ==> FirstFit(blocks[..], request, donor)
      ensures slot != -1 ==> 0 <= slot < blocks.Length && !blocks[slot].used
      ensures filler != -1 ==> 0 <= filler < blocks.Length && !blocks[filler].used && filler != slot
      ensures donor == -1 ==> NoFit(blocks[..], request)
      ensures slot == -1 || filler == -1 ==> |Unused(blocks[..])| < 2
    {
      var found, stored := FilterBlocks([Donor(request), UnusedSlot, UnusedSlot]);
      DonorAndSlots(blocks[..], request, stored);
      return stored[0], stored[1], stored[2];
    }

    /** Puts a free filler of size fill between donor d and the block c cut from it. */
    method PadFront(d: nat, c: nat, f: nat, fill: nat)
      requires Valid() && d < blocks.Length && c < blocks.Length && f < blocks.Length
      requires blocks[d].used && blocks[c].used && !blocks[c].free && blocks[d].next == c
      requires !blocks[f].used && fill <= blocks[c].size
      modifies this`order, this`spans, blocks
      ensures Valid() && SpanOf(blocks[c]) == PadSpan(SpanOf(old(blocks[c])), fill)
      ensures SpanOf(blocks[d]) == SpanOf(old(blocks[d]))
      ensures Live(spans) + multiset{SpanOf(old(blocks[c]))} == Live(old(spans)) + multiset{SpanOf(blocks[c])}
    {
      hide Holds, Tiles, Inserted, CutTable, PaddedTable, GrownTable, TakenTable, Cut, Padded, Grown, Taken, Live,
        Position;
      ghost var k := Position(blocks[..], order, spans, d);
      PadStep(blocks[..], order, spans, k, d, c, f, fill);
      PaddedKeeps(spans, start, start + size, k + 1, fill);
      order, spans := Inserted(order, k, f), Padded(spans, k + 1, fill);
      WritePadded(d, c, f, fill);
    }

    method WritePadded(d: nat, c: nat, f: nat, fill: nat)
      requires d < blocks.Length && c < blocks.Length && f < blocks.Length && c != d && f != c && f != d
      requires fill <= blocks[c].size
      modifies blocks
      ensures blocks[..] == PaddedTable(old(blocks[..]), d, c, f, fill)
      ensures SpanOf(blocks[c]) == PadSpan(SpanOf(old(blocks[c])), fill)
      ensures SpanOf(blocks[d]) == SpanOf(old(blocks[d]))
    {
      blocks[f] := blocks[f].(free := true, size := fill, start := blocks[c].start, used := true);
      blocks[c] := blocks[c].(start := blocks[f].start + fill);
      blocks[c] := blocks[c].(size := blocks[c].size - fill);
      blocks[d] := blocks[d].(next := f);
      blocks[f] := blocks[f].(next := c);
    }

    // ----- freeing -----

    /** Frees the first block at p, then merges neighbours in one pass. */
    method Free(p: nat)
      requires Valid()
      modifies this`order, this`spans, blocks
      ensures Valid() && spans == AfterFree(old(spans), p)
      ensures forall q, s :: old(Owns(q, s)) && s.start != p ==> Owns(q, s)
    {
      hide Holds, Tiles, MarkFree, Coalesce;
      ReleaseKeeps(spans, start, start + size, p);
      AfterFreeTiles(spans, start, start + size, p);
      MarkBlockFree(p);
      MergeFree();
    }

    method MarkBlockFree(p: nat)
      requires Holds(blocks[..], order, spans)
      modifies this`spans, blocks
      ensures Holds(blocks[..], order, spans) && spans == MarkFree(old(spans), p)
    {
      hide Holds, MarkFree, FirstAt;
      ghost var k := 0;
      var current: int := 0;
      HoldsStart(blocks[..], order, spans);
      while current != -1
        invariant blocks[..] == old(blocks[..]) && spans == old(spans)
        invariant k <= |order| == |spans| && current == NextOf(order, k - 1)
        invariant k <= FirstAt(spans, p)
        decreases |order| - k
      {
        SpanAt(blocks[..], order, spans, k);
        if blocks[current].start == p {
          MarkStep(blocks[..], order, spans, k, p);
          ghost var marked := blocks[..][current := blocks[current].(free := true)];
          blocks[current] := blocks[current].(free := true);
          spans := MarkFree(spans, p);
          assert blocks[..] == marked;
          return;
        }
        current := blocks[current].next;
        k := k + 1;
      }
      MarkNone(blocks[..], order, spans, p);
    }

    method MergeFree()
      requires Holds(blocks[..], order, spans)
      modifies this`order, this`spans, blocks
      ensures Holds(blocks[..], order, spans) && spans == Coalesce(old(spans))
    {
      hide Holds, Removed, MergedTable, Merged;
      ghost var k := 0;
      var current: int := 0;
      HoldsStart(blocks[..], order, spans);
      while current != -1
        invariant Holds(blocks[..], order, spans)
        invariant k <= |order| == |spans| && current == NextOf(order, k - 1)
        invariant Coalesce(old(spans)) == spans[..k] + Coalesce(spans[k..])
        decreases |order| - k
      {
        SpanAt(blocks[..], order, spans, k);
        var next := blocks[current].next;
        if next != -1 {
          MergeStep(blocks[..], order, spans, k, current, next);
        }
        if blocks[current].free && next != -1 && blocks[next].free {
          CoalesceMerge(spans, k);
          order, spans := Removed(order, k), Merged(spans, k);
          WriteMerged(current, next);
          SpanAt(blocks[..], order, spans, k);
        } else {
          CoalesceSkip(spans, k);
        }
        current := blocks[current].next;
        k := k + 1;
      }
    }

    method WriteMerged(a: nat, b: nat)
      requires a < blocks.Length && b < blocks.Length && a != b
      modifies blocks
      ensures blocks[..] == MergedTable(old(blocks[..]), a, b)
    {
      blocks[a] := blocks[a].(size := blocks[a].size + blocks[b].size);
      blocks[a] := blocks[a].(next := blocks[b].next);
      blocks[b] := EMPTY;
    }
  }

  /** What a client may do between an aligned allocation and its end. */
  datatype Operation =
    | Allocate(size: nat) | AllocateAligned(size: nat, k: nat) | Release(p: nat) | ReleaseAligned(p: nat)

  /** Any operation but the release of what starts at spared. */
  method Perform(h: Heap, op: Operation, spared: nat)
    requires h.Valid()
    modifies h, h.blocks
    ensures h.Valid() && (old(h.starved) ==> h.starved)
    ensures forall q, s {:trigger h.Owns(q, s)} :: old(h.Owns(q, s)) && s.start == spared ==> h.Owns(q, s)
    ensures Positive(old(h.spans)) && !h.starved ==> Positive(h.spans)
  {
    hide Tiles, Live, Positive, AfterFree, Holds, Heap.Owns;
    match op
    case Allocate(size) =>
      if size > 0 {
        var r := h.Alloc(size);
      }
    case AllocateAligned(size, k) =>
      if k < 64 {
        Pow2Of64();
        Pow2Monotone(k, 64);
        var r, raw := h.MallocAligned(size, Pow2(k));
      }
    case Release(p) =>
      if p != spared {
        ReleaseKeeps(h.spans, h.start, h.start + h.size, p);
        h.Free(p);
      }
    case ReleaseAligned(p) =>
      if p >= 8 && p - 8 in h.words && h.words[p - 8] != spared {
        ReleaseKeeps(h.spans, h.start, h.start + h.size, h.words[p - 8]);
        h.FreeAligned(p);
      }
  }

  lemma ReleaseKeeps(v: seq<Span>, start: nat, end: nat, p: nat)
    requires Tiles(v, start, end)
    ensures forall s :: s in Live(v) && s.start != p ==> s in Live(AfterFree(v, p))
    ensures Positive(v) ==> Positive(AfterFree(v, p))
  {
    AfterFreeTiles(v, start, end, p);
    forall s | s in Live(v) && s.start != p ensures s in Live(AfterFree(v, p)) {
      FreeKeeps(v, p, s);
    }
  }

  /**
   * An aligned allocation outlives whatever is allocated and whatever else is freed after it, with the word
   * in front of it: FreeAligned then ends exactly it.
   */
  method AlignedOutlives(h: Heap, request: nat, align: nat, script: seq<Operation>)
    returns (p: Option<nat>, ghost raw: Span)
    requires h.Valid() && PowerOfTwo(align) && 0 < align <= WORD && Positive(h.spans)
    modifies h, h.blocks
    ensures h.Valid() && (h.starved || Positive(h.spans))
    ensures p.Some? ==> h.Owns(p.value, raw) && raw.size == request + align + 8
    ensures p.Some? ==> p.value % align == 0 && p.value + request <= raw.start + raw.size
  {
    hide Tiles, Live, Positive, AfterFree, Holds;
    p, raw := h.MallocAligned(request, align);
    if p.None? {
      return;
    }
    for i := 0 to |script|
      invariant h.Valid() && h.Owns(p.value, raw) && (h.starved || Positive(h.spans))
    {
      Perform(h, script[i], h.words[p.value - 8]);
    }
  }

  /** An allocation that the heap can serve, freed at once, leaves the very list that was there before. */
  method AllocFreeRestores(h: Heap, request: nat) returns (p: Option<nat>)
    requires h.Valid() && request > 0 && Positive(h.spans) && Settled(h.spans) && !NoneFits(h.spans, request)
    modifies h, h.blocks
    ensures h.Valid() && (Unused(old(h.blocks[..])) != {} ==> p.Some?)
    ensures h.spans == old(h.spans) && h.size == old(h.size)
  {
    hide Tiles, Live, Positive, AfterFree, Holds, Settled, NoneFits, Allocated, Served;
    ghost var v := h.spans;
    NoFitMeans(h.blocks[..], h.order, v, request);
    p := h.Alloc(request);
    AllocatedWithin(v, h.spans, h.start, h.start + old(h.size), h.start + h.size, request, p);
    if p.Some? {
      FreeUndoes(v, h.start, h.start + old(h.size), h.spans, request, p.value);
      h.Free(p.value);
    }
    SizesSumToHeap(v, h.start, h.start + old(h.size));
    SizesSumToHeap(v, h.start, h.start + h.size);
  }

  /**
   * A request of no bytes takes the address of the allocation before it; freeing that address then
   * ends the empty block, and the real allocation stays. held is the heap between the two.
   */
  method ZeroRequestLeaks(h: Heap, request: nat) returns (q: Option<nat>, z: Option<nat>, ghost held: seq<Span>)
    requires h.Valid() && request > 0 && FirstFit(h.blocks[..], request, 0) && h.blocks[0].size > request
    modifies h, h.blocks
    ensures h.Valid() && (|Unused(old(h.blocks[..]))| >= 2 ==> q.Some? && z.Some?)
    ensures q.Some? && z.Some? ==> q == z
    ensures q.Some? && z.Some? ==> var s, empty := Span(q.value, request, false), Span(q.value, 0, false);
      && Live(held) == Live(old(h.spans)) + multiset{s, empty}
      && h.spans == AfterFree(held, q.value) && Live(h.spans)[s] == Live(held)[s]
  {
    hide Tiles, Live, Positive, AfterFree, Holds, Allocated;
    held := h.spans;
    q := h.Alloc(request);
    if q.None? {
      return q, None, held;
    }
    assert FirstFit(h.blocks[..], 0, 0);
    z := h.Alloc(0);
    if z.Some? {
      ghost var s, empty := Span(q.value, request, false), Span(q.value, 0, false);
      held := h.spans;
      assert s in Live(held) && empty in Live(held);
      ghost var i := LiveIndex(held, empty);
      EmptyTwinLeaks(held, h.start, h.start + h.size, s, i);
      h.Free(q.value);
    }
  }

  /** The Last filter finds the tail of the list, and UnusedSlot fails only if no slot is left. */
  lemma TailAndSlot(t: seq<Block>, order: seq<nat>, stored: seq<int>)
    requires Linked(t, order) && Scanned([Last, UnusedSlot], t, |t|, stored)
    ensures stored[0] == order[|order| - 1]
    ensures stored[1] == -1 ==> Unused(t) == {}
    ensures stored[1] != -1 ==> 0 <= stored[1] < |t| && !t[stored[1]].used
  {
    var tail := order[|order| - 1];
    assert t[order[|order| - 1]].next == NextOf(order, |order| - 1);
    forall i | 0 <= i < |t| && Accepts(Last, t[i]) ensures i == tail {
      assert i in order;
      var k :| 0 <= k < |order| && order[k] == i;
      assert t[order[k]].next == NextOf(order, k);
    }
    assert Accepts([Last, UnusedSlot][0], t[tail]);
    NoSlotLeft([Last, UnusedSlot], t, stored);
  }

  lemma NoSlotLeft(filters: seq<Filter>, t: seq<Block>, stored: seq<int>)
    requires Scanned(filters, t, |t|, stored) && |filters| == 2 && filters[1] == UnusedSlot && !filters[0].UnusedSlot?
    ensures stored[1] == -1 ==> Unused(t) == {}
  {
    if stored[1] == -1 {
      forall i | 0 <= i < |t| ensures t[i].used {
        if !t[i].used {
          assert Accepts(filters[1], t[i]);
        }
      }
    }
  }

  lemma DonorAndSlot(t: seq<Block>, request: nat, stored: seq<int>)
    requires Scanned([Donor(request), UnusedSlot], t, |t|, stored)
    ensures stored[0] != -1 ==> 0 <= stored[0] < |t| && Accepts(Donor(request), t[stored[0]])
    ensures stored[1] != -1 ==> 0 <= stored[1] < |t| && !t[stored[1]].used
    ensures forall i :: 0 <= i < |t| && Accepts(Donor(request), t[i]) ==> 0 <= stored[0] <= i
    ensures stored[1] == -1 ==> Unused(t) == {}
  {
    forall i | 0 <= i < |t| && Accepts(Donor(request), t[i]) ensures 0 <= stored[0] <= i {
      assert Accepts([Donor(request), UnusedSlot][0], t[i]);
    }
    NoSlotLeft([Donor(request), UnusedSlot], t, stored);
  }

  lemma DonorAndSlots(t: seq<Block>, request: nat, stored: seq<int>)
    requires Scanned([Donor(request), UnusedSlot, UnusedSlot], t, |t|, stored)
    ensures stored[0] != -1 ==> 0 <= stored[0] < |t| && Accepts(Donor(request), t[stored[0]])
    ensures stored[1] != -1 ==> 0 <= stored[1] < |t| && !t[stored[1]].used
    ensures stored[2] != -1 ==> 0 <= stored[2] < |t| && !t[stored[2]].used && stored[2] != stored[1]
    ensures stored[0] == -1 ==> NoFit(t, request)
    ensures stored[0] != -1 ==> FirstFit(t, request, stored[0])
    ensures stored[1] == -1 || stored[2] == -1 ==> |Unused(t)| < 2
  {
    var filters := [Donor(request), UnusedSlot, UnusedSlot];
    forall i | 0 <= i < |t| && Accepts(filters[0], t[i]) ensures 0 <= stored[0] <= i {
    }
    forall d: nat | FirstFit(t, request, d) ensures stored[0] != -1 {
      assert Accepts(filters[0], t[d]);
    }
    if stored[1] == -1 || stored[2] == -1 {
      var other := if stored[1] == -1 then stored[2] else stored[1];
      forall i | i in Unused(t) ensures i == other {
        assert Accepts(filters[1], t[i]) && Accepts(filters[2], t[i]);
      }
      AtMostOne(Unused(t), other);
    }
  }

  lemma AtMostOne(s: set<nat>, x: int)
    requires forall i :: i in s ==> i == x
    ensures |s| < 2
  {
    if s != {} {
      var i :| i in s;
      assert s == {i};
    }
  }

  lemma CorrectionAligns(s: nat, align: nat)
    requires align > 0 && s % align != 0
    ensures (align - s % align) % align == align - s % align
    ensures (s + (align - s % align)) % align == 0
  {
    DivModUnique(align, 0, align - s % align);
    assert align * (s / align) + align == align * (s / align + 1);
    DivModUnique(align, s / align + 1, 0);
  }

  lemma PadLive(before: multiset<Span>, cut: Span, after: multiset<Span>, padded: Span)
    requires after + multiset{cut} == before + multiset{cut} + multiset{padded}
    ensures after == before + multiset{padded}
  {
    assert before + multiset{cut} + multiset{padded} == before + multiset{padded} + multiset{cut};
    Cancel(after, before + multiset{padded}, cut);
  }

  lemma Cancel(a: multiset<Span>, b: multiset<Span>, s: Span)
    requires a + multiset{s} == b + multiset{s}
    ensures a == b
  {
    assert a == (a + multiset{s}) - multiset{s};
    assert b == (b + multiset{s}) - multiset{s};
  }

  lemma CoalesceSkip(v: seq<Span>, k: nat)
    requires k < |v| && !(v[k].free && k + 1 < |v| && v[k + 1].free)
    ensures v[..k] + Coalesce(v[k..]) == v[..k + 1] + Coalesce(v[k + 1..])
  {
    assert v[k..][1..] == v[k + 1..];
  }

  lemma CoalesceMerge(v: seq<Span>, k: nat)
    requires k + 1 < |v| && v[k].free && v[k + 1].free
    ensures v[..k] + Coalesce(v[k..]) == Merged(v, k)[..k + 1] + Coalesce(Merged(v, k)[k + 1..])
  {
    var s := Span(v[k].start, v[k].size + v[k + 1].size, true);
    CoalesceTwo(v[k..], s);
    assert v[k..][2..] == v[k + 2..];
    MergedIs(v, k, s);
    hide Coalesce, Merged;
    assert Merged(v, k)[..k + 1] == v[..k] + [s];
    assert Merged(v, k)[k + 1..] == v[k + 2..];
    assert v[..k] + ([s] + Coalesce(v[k + 2..])) == v[..k] + [s] + Coalesce(v[k + 2..]);
  }

  lemma CoalesceTwo(v: seq<Span>, s: Span)
    requires |v| >= 2 && v[0].free && v[1].free && s == Span(v[0].start, v[0].size + v[1].size, true)
    ensures Coalesce(v) == [s] + Coalesce(v[2..])
  {
  }
}
