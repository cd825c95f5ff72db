/** The heap seen as a list of spans in address order, and what freeing does to it. */
module HeapLayout {

  datatype Span = Span(start: nat, size: nat, free: bool)

  /** The spans follow each other from start to end without gap or overlap. */
  ghost predicate Tiles(v: seq<Span>, start: nat, end: nat) {
    if v == [] then start == end
    else v[0].start == start && Tiles(v[1..], start + v[0].size, end)
  }

  function TotalSize(v: seq<Span>): nat {
    if v == [] then 0 else v[0].size + TotalSize(v[1..])
  }

  /** The spans in use, in address order. */
  function Used(v: seq<Span>): seq<Span> {
    if v == [] then []
    else (if v[0].free then [] else [v[0]]) + Used(v[1..])
  }

  /** The allocations: every span in use, with its address and size. */
  function Live(v: seq<Span>): multiset<Span> {
    multiset(Used(v))
  }

  ghost predicate Positive(v: seq<Span>) {
    forall k :: 0 <= k < |v| ==> v[k].size > 0
  }

  // ----- consequences of tiling -----

  /** Every span lies inside the heap's range. */
  lemma {:induction false} SpanInRange(v: seq<Span>, start: nat, end: nat, i: nat)
    requires Tiles(v, start, end) && i < |v|
    ensures start <= v[i].start && v[i].start + v[i].size <= end
  {
    TilesForward(v[1..], start + v[0].size, end);
    if i > 0 {
      SpanInRange(v[1..], start + v[0].size, end, i - 1);
    }
  }

  lemma {:induction false} TilesForward(v: seq<Span>, start: nat, end: nat)
    requires Tiles(v, start, end)
    ensures start <= end
  {
    if v != [] {
      TilesForward(v[1..], start + v[0].size, end);
    }
  }

  lemma {:induction false} SpansOrdered(v: seq<Span>, start: nat, end: nat, i: nat, j: nat)
    requires Tiles(v, start, end) && i < j < |v|
    ensures v[i].start + v[i].size <= v[j].start
    ensures j == i + 1 ==> v[i].start + v[i].size == v[j].start
  {
    if i == 0 {
      SpanInRange(v[1..], start + v[0].size, end, j - 1);
    } else {
      SpansOrdered(v[1..], start + v[0].size, end, i - 1, j - 1);
    }
  }

  /** No two spans share an address. */
  lemma SpansDisjoint(v: seq<Span>, start: nat, end: nat, i: nat, j: nat, a: nat)
    requires Tiles(v, start, end) && i < |v| && j < |v|
    requires v[i].start <= a < v[i].start + v[i].size && v[j].start <= a < v[j].start + v[j].size
    ensures i == j
  {
    if i < j {
      SpansOrdered(v, start, end, i, j);
    } else if j < i {
      SpansOrdered(v, start, end, j, i);
    }
  }

  lemma {:induction false} SizesSumToHeap(v: seq<Span>, start: nat, end: nat)
    requires Tiles(v, start, end)
    ensures start + TotalSize(v) == end
  {
    if v != [] {
      SizesSumToHeap(v[1..], start + v[0].size, end);
    }
  }

  lemma {:induction false} TilesConcat(a: seq<Span>, b: seq<Span>, start: nat, mid: nat, end: nat)
    requires Tiles(a, start, mid) && Tiles(b, mid, end)
    ensures Tiles(a + b, start, end)
  {
    if a == [] {
      assert a + b == b;
    } else {
      TilesConcat(a[1..], b, start + a[0].size, mid, end);
      assert (a + b)[1..] == a[1..] + b;
    }
  }

  lemma {:induction false} TilesApart(v: seq<Span>, start: nat, end: nat, k: nat)
    requires Tiles(v, start, end) && k < |v|
    ensures Tiles(v[..k], start, v[k].start) && Tiles(v[k + 1..], v[k].start + v[k].size, end)
  {
    if k > 0 {
      TilesApart(v[1..], start + v[0].size, end, k - 1);
      assert v[..k][1..] == v[1..][..k - 1] && v[1..][k..] == v[k + 1..];
    }
  }

  /** A span may be replaced by spans that tile its own range. */
  lemma TilesReplace(v: seq<Span>, start: nat, end: nat, k: nat, mid: seq<Span>)
    requires Tiles(v, start, end) && k < |v|
    requires Tiles(mid, v[k].start, v[k].start + v[k].size)
    ensures Tiles(v[..k] + mid + v[k + 1..], start, end)
  {
    TilesApart(v, start, end, k);
    TilesConcat(v[..k], mid, start, v[k].start, v[k].start + v[k].size);
    TilesConcat(v[..k] + mid, v[k + 1..], start, v[k].start + v[k].size, end);
  }

  // ----- lists of spans -----

  lemma {:induction false} UsedConcat(a: seq<Span>, b: seq<Span>)
    ensures Used(a + b) == Used(a) + Used(b)
  {
    if a == [] {
      assert a + b == b;
    } else {
      UsedConcat(a[1..], b);
      var head := if a[0].free then [] else [a[0]];
      assert (a + b)[0] == a[0] && (a + b)[1..] == a[1..] + b;
      assert head + (Used(a[1..]) + Used(b)) == (head + Used(a[1..])) + Used(b);
    }
  }

  function LiveOf(s: Span): multiset<Span> {
    if s.free then multiset{} else multiset{s}
  }

  lemma UsedOne(s: Span)
    ensures Used([s]) == if s.free then [] else [s]
  {
    assert [s][1..] == [];
  }

  /** Replacing the span at k by the spans of mid. */
  lemma LiveReplace(v: seq<Span>, k: nat, mid: seq<Span>)
    requires k < |v|
    ensures Live(v[..k] + mid + v[k + 1..]) + LiveOf(v[k]) == Live(v) + Live(mid)
  {
    var a, b := v[..k], v[k + 1..];
    assert v == a + [v[k]] + b;
    UsedConcat(a + [v[k]], b);
    UsedConcat(a, [v[k]]);
    UsedConcat(a + mid, b);
    UsedConcat(a, mid);
    UsedOne(v[k]);
  }

  lemma {:induction false} LiveHas(v: seq<Span>, k: nat)
    requires k < |v| && !v[k].free
    ensures v[k] in Live(v)
  {
    if k > 0 {
      LiveHas(v[1..], k - 1);
    }
  }

  // ----- freeing -----

  /** The first span that starts at p, or |v| if there is none. */
  function FirstAt(v: seq<Span>, p: nat): (k: nat)
    ensures k <= |v| && (k < |v| ==> v[k].start == p)
    ensures forall j :: 0 <= j < k ==> v[j].start != p
  {
    if v == [] then 0
    else if v[0].start == p then 0
    else 1 + FirstAt(v[1..], p)
  }

  function MarkFree(v: seq<Span>, p: nat): seq<Span> {
    var k := FirstAt(v, p);
    if k < |v| then v[k := v[k].(free := true)] else v
  }

  /** One pass over the list: each free span swallows the span behind it if that is free too. */
  function Coalesce(v: seq<Span>): seq<Span> {
    if |v| < 2 then v
    else if v[0].free && v[1].free then [Span(v[0].start, v[0].size + v[1].size, true)] + Coalesce(v[2..])
    else [v[0]] + Coalesce(v[1..])
  }

  function AfterFree(v: seq<Span>, p: nat): seq<Span> {
    Coalesce(MarkFree(v, p))
  }

  lemma {:induction false} CoalesceTiles(v: seq<Span>, start: nat, end: nat)
    requires Tiles(v, start, end)
    ensures Tiles(Coalesce(v), start, end)
  {
    if |v| >= 2 {
      if v[0].free && v[1].free {
        assert v[1..][1..] == v[2..];
        CoalesceTiles(v[2..], start + (v[0].size + v[1].size), end);
      } else {
        CoalesceTiles(v[1..], start + v[0].size, end);
      }
    }
  }

  lemma OneTile(s: Span)
    ensures Tiles([s], s.start, s.start + s.size)
  {
    assert [s][1..] == [];
  }

  lemma MarkFreeTiles(v: seq<Span>, start: nat, end: nat, p: nat)
    requires Tiles(v, start, end)
    ensures Tiles(MarkFree(v, p), start, end)
  {
    var k := FirstAt(v, p);
    if k < |v| {
      var freed := v[k].(free := true);
      OneTile(freed);
      TilesReplace(v, start, end, k, [freed]);
      assert v[..k] + [freed] + v[k + 1..] == MarkFree(v, p);
    }
  }

  lemma {:induction false} CoalesceLive(v: seq<Span>)
    ensures Live(Coalesce(v)) == Live(v)
  {
    if |v| >= 2 {
      if v[0].free && v[1].free {
        CoalesceLive(v[2..]);
        assert v[1..][1..] == v[2..];
        assert Coalesce(v)[1..] == Coalesce(v[2..]);
        assert Used(v) == Used(v[1..]) == Used(v[2..]);
      } else {
        CoalesceLive(v[1..]);
        assert Coalesce(v)[1..] == Coalesce(v[1..]);
      }
    }
  }

  lemma {:induction false} CoalescePositive(v: seq<Span>)
    requires Positive(v)
    ensures Positive(Coalesce(v))
  {
    if |v| >= 2 {
      if v[0].free && v[1].free {
        CoalescePositive(v[2..]);
      } else {
        CoalescePositive(v[1..]);
      }
    }
  }

  lemma AfterFreeTiles(v: seq<Span>, start: nat, end: nat, p: nat)
    requires Tiles(v, start, end)
    ensures Tiles(AfterFree(v, p), start, end)
    ensures Positive(v) ==> Positive(AfterFree(v, p))
  {
    MarkFreeTiles(v, start, end, p);
    CoalesceTiles(MarkFree(v, p), start, end);
    if Positive(v) {
      CoalescePositive(MarkFree(v, p));
    }
  }

  lemma MarkFreeLive(v: seq<Span>, p: nat)
    requires FirstAt(v, p) < |v|
    ensures Live(MarkFree(v, p)) + LiveOf(v[FirstAt(v, p)]) == Live(v)
  {
    hide Used;
    var k := FirstAt(v, p);
    var freed := v[k].(free := true);
    LiveReplace(v, k, [freed]);
    assert v[..k] + [freed] + v[k + 1..] == MarkFree(v, p);
    UsedOne(freed);
  }

  /** Freeing touches the first span at p only: if that is an allocation, exactly it ends. */
  lemma FreeEndsFirst(v: seq<Span>, p: nat)
    ensures FirstAt(v, p) < |v| ==> Live(AfterFree(v, p)) + LiveOf(v[FirstAt(v, p)]) == Live(v)
    ensures FirstAt(v, p) == |v| ==> Live(AfterFree(v, p)) == Live(v)
  {
    CoalesceLive(MarkFree(v, p));
    if FirstAt(v, p) < |v| {
      MarkFreeLive(v, p);
    }
  }

  /** The span at index i is the first at its address exactly when no empty span stands right before it. */
  lemma FirstUnlessEmptyBefore(v: seq<Span>, start: nat, end: nat, i: nat)
    requires Tiles(v, start, end) && i < |v|
    ensures FirstAt(v, v[i].start) == i <==> i == 0 || v[i - 1].size > 0
  {
    var k := FirstAt(v, v[i].start);
    if i > 0 {
      SpansOrdered(v, start, end, i - 1, i);
      if k < i - 1 {
        SpansOrdered(v, start, end, k, i - 1);
      }
    }
  }

  /**
   * heap_free ends the allocation it is given, and no other, exactly when no zero-size block precedes
   * it in the list.
   */
  lemma {:induction false} FreeEndsExactly(v: seq<Span>, start: nat, end: nat, i: nat)
    requires Tiles(v, start, end) && i < |v| && !v[i].free && v[i].size > 0
    ensures (i == 0 || v[i - 1].size > 0) ==> Live(AfterFree(v, v[i].start)) + multiset{v[i]} == Live(v)
    ensures !(i == 0 || v[i - 1].size > 0) ==> Live(AfterFree(v, v[i].start))[v[i]] == Live(v)[v[i]]
  {
    FirstUnlessEmptyBefore(v, start, end, i);
    FreeEndsFirst(v, v[i].start);
    var k := FirstAt(v, v[i].start);
    if k < i {
      SpansOrdered(v, start, end, k, i);
      assert v[k].size == 0;
    }
  }

  lemma {:induction false} LiveIndex(v: seq<Span>, s: Span) returns (i: nat)
    requires s in Live(v)
    ensures i < |v| && v[i] == s && !s.free
  {
    if !v[0].free && v[0] == s {
      i := 0;
    } else {
      i := LiveIndex(v[1..], s);
      i := i + 1;
    }
  }

  /** In a heap without zero-size blocks, heap_free ends exactly the allocation it is given. */
  lemma {:induction false} FreeReturns(v: seq<Span>, start: nat, end: nat, s: Span)
    requires Tiles(v, start, end) && Positive(v) && s in Live(v)
    ensures Live(AfterFree(v, s.start)) + multiset{s} == Live(v)
  {
    var i := LiveIndex(v, s);
    FreeEndsExactly(v, start, end, i);
  }

  /** An allocation stays live when its address is freed while a zero-size block has the same address. */
  lemma {:induction false} EmptyTwinLeaks(v: seq<Span>, start: nat, end: nat, s: Span, i: nat)
    requires Tiles(v, start, end) && s in Live(v) && s.size > 0
    requires i < |v| && v[i].start == s.start && v[i].size == 0
    ensures Live(AfterFree(v, s.start))[s] == Live(v)[s]
  {
    var j := LiveIndex(v, s);
    if j < i {
      SpansOrdered(v, start, end, j, i);
    }
    FirstUnlessEmptyBefore(v, start, end, j);
    FreeEndsExactly(v, start, end, j);
  }

  // ----- allocations side by side -----

  /** Both are among the allocations, twice if they look alike. */
  predicate Both(live: multiset<Span>, a: Span, b: Span) {
    multiset{a, b} <= live
  }

  lemma PeelFirst(first: multiset<Span>, rest: multiset<Span>, x: Span, a: Span, b: Span)
    requires Both(first + rest, a, b) && first == LiveOf(x)
    ensures if !x.free && x == a then b in rest else if !x.free && x == b then a in rest else Both(rest, a, b)
  {
    if !x.free && x == a {
      assert a != b ==> (first + rest)[b] == rest[b];
      assert a == b ==> multiset{a, b}[b] == 2;
    }
  }

  lemma LiveFront(v: seq<Span>)
    requires v != []
    ensures Live(v) == LiveOf(v[0]) + Live(v[1..])
  {
  }

  lemma LiveInRange(v: seq<Span>, start: nat, end: nat, s: Span)
    requires Tiles(v, start, end) && s in Live(v)
    ensures start <= s.start && s.start + s.size <= end
  {
    var i := LiveIndex(v, s);
    SpanInRange(v, start, end, i);
  }

  /** Two allocations do not overlap. */
  lemma {:induction false} LiveApart(v: seq<Span>, start: nat, end: nat, a: Span, b: Span)
    requires Tiles(v, start, end) && Both(Live(v), a, b)
    ensures a.start + a.size <= b.start || b.start + b.size <= a.start
  {
    NoneAmongNone(v, a, b);
    var rest, next := v[1..], start + v[0].size;
    LiveFront(v);
    PeelFirst(LiveOf(v[0]), Live(rest), v[0], a, b);
    hide Live, LiveOf, Both;
    if !v[0].free && v[0] == a {
      LiveInRange(rest, next, end, b);
    } else if !v[0].free && v[0] == b {
      LiveInRange(rest, next, end, a);
    } else {
      LiveApart(rest, next, end, a, b);
    }
  }

  lemma NoneAmongNone(v: seq<Span>, a: Span, b: Span)
    requires Both(Live(v), a, b)
    ensures v != []
  {
    assert a in Live(v);
  }

  /** Freeing an address leaves every allocation at another address. */
  lemma FreeKeeps(v: seq<Span>, p: nat, s: Span)
    requires s in Live(v) && s.start != p
    ensures s in Live(AfterFree(v, p))
  {
    FreeEndsFirst(v, p);
  }
}
