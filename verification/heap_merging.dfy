/** What freeing undoes: a freed block joins a free neighbour, and an allocation freed at once leaves no trace. */
module HeapMerging {
  import opened Options
  import opened HeapLayout
  import opened HeapTable
  import opened HeapSteps

  /** No two neighbours are both free. */
  ghost predicate Settled(v: seq<Span>) {
    forall k :: 0 <= k < |v| - 1 ==> !(v[k].free && v[k + 1].free)
  }

  /** The free block over the range of two neighbours. */
  function Spanning(s: Span, t: Span): Span {
    Span(s.start, s.size + t.size, true)
  }

  /** Nothing merges in a, nor between a and b: the pass copies a and goes on with b. */
  lemma {:induction false} CoalesceBehind(a: seq<Span>, b: seq<Span>)
    requires Settled(a) && (a != [] && b != [] ==> !(a[|a| - 1].free && b[0].free))
    ensures Coalesce(a + b) == a + Coalesce(b)
  {
    if a == [] {
      assert a + b == b;
    } else {
      var v := a + b;
      assert v[1..] == a[1..] + b;
      assert |v| >= 2 ==> !(v[0].free && v[1].free) by {
        assert |a| > 1 ==> v[1] == a[1];
      }
      CoalesceBehind(a[1..], b);
      assert [a[0]] + (a[1..] + Coalesce(b)) == a + Coalesce(b);
    }
  }

  lemma CoalesceSettled(v: seq<Span>)
    requires Settled(v)
    ensures Coalesce(v) == v
  {
    CoalesceBehind(v, []);
    assert v + [] == v;
  }

  /** Span s in place of those from a up to, but not including, b. */
  function Replaced(v: seq<Span>, a: nat, b: nat, s: Span): seq<Span>
    requires a <= b <= |v|
  {
    v[..a] + [s] + v[b..]
  }

  /** The only free pair of a list becomes one. */
  lemma CoalescePair(v: seq<Span>, i: nat)
    requires i + 1 < |v| && v[i].free && v[i + 1].free && (i > 0 ==> !v[i - 1].free)
    requires Settled(v[..i]) && Settled(v[i + 2..])
    ensures Coalesce(v) == Replaced(v, i, i + 2, Spanning(v[i], v[i + 1]))
  {
    hide Coalesce, Settled;
    var a, b := v[..i], v[i..];
    assert v == a + b && (i > 0 ==> a[i - 1] == v[i - 1]);
    assert b[0] == v[i] && b[1] == v[i + 1] && b[2..] == v[i + 2..];
    CoalesceBehind(a, b);
    CoalesceSettled(b[2..]);
    CoalesceTwo(b);
    Associates(a, Spanning(v[i], v[i + 1]), v[i + 2..]);
  }

  lemma Associates(a: seq<Span>, s: Span, b: seq<Span>)
    ensures a + ([s] + b) == a + [s] + b
  {
  }

  lemma CoalesceTwo(b: seq<Span>)
    requires |b| >= 2 && b[0].free && b[1].free
    ensures Coalesce(b) == [Spanning(b[0], b[1])] + Coalesce(b[2..])
  {
  }

  lemma SettledParts(v: seq<Span>, k: nat)
    requires Settled(v) && k <= |v|
    ensures Settled(v[..k]) && Settled(v[k..])
  {
  }

  /** The list after the used block k was freed: joined to a free block in front, or else to one behind. */
  function Freed(v: seq<Span>, k: nat): seq<Span>
    requires k < |v|
  {
    if k > 0 && v[k - 1].free then Replaced(v, k - 1, k + 1, Spanning(v[k - 1], v[k]))
    else if k + 1 < |v| && v[k + 1].free then Replaced(v, k, k + 2, Spanning(v[k], v[k + 1]))
    else Replaced(v, k, k + 1, v[k].(free := true))
  }

  /**
   * In a heap without empty blocks and free neighbours, freeing a block joins it to a free block in front;
   * if there is none, to a free block behind; and to one of them only.
   */
  lemma {:induction false} FreeMergesExactly(v: seq<Span>, start: nat, end: nat, k: nat)
    requires Tiles(v, start, end) && Positive(v) && Settled(v) && k < |v| && !v[k].free
    ensures AfterFree(v, v[k].start) == Freed(v, k)
  {
    FirstUnlessEmptyBefore(v, start, end, k);
    CoalesceMarked(v, k);
  }

  lemma CoalesceMarked(v: seq<Span>, k: nat)
    requires Settled(v) && k < |v| && !v[k].free
    ensures Coalesce(v[k := v[k].(free := true)]) == Freed(v, k)
  {
    hide Coalesce, Replaced, Settled;
    if k > 0 && v[k - 1].free {
      MarkedFront(v, k);
    } else if k + 1 < |v| && v[k + 1].free {
      MarkedBack(v, k);
    } else {
      SettledAround(v, k, k + 1, v[k].(free := true));
      OneReplaced(v, k, v[k].(free := true));
      CoalesceSettled(v[k := v[k].(free := true)]);
    }
  }

  lemma MarkedFront(v: seq<Span>, k: nat)
    requires Settled(v) && 0 < k < |v| && !v[k].free && v[k - 1].free
    ensures Coalesce(v[k := v[k].(free := true)]) == Replaced(v, k - 1, k + 1, Spanning(v[k - 1], v[k]))
  {
    hide Coalesce, Replaced, Settled;
    var u := v[k := v[k].(free := true)];
    SettledParts(v, k - 1);
    SettledParts(v, k + 1);
    NotSpanning(v, k);
    assert u[..k - 1] == v[..k - 1] && u[k + 1..] == v[k + 1..];
    CoalescePair(u, k - 1);
    SameReplaced(u, v, k - 1, k + 1, Spanning(v[k - 1], v[k]));
  }

  lemma MarkedBack(v: seq<Span>, k: nat)
    requires Settled(v) && k + 1 < |v| && !v[k].free && v[k + 1].free && (k > 0 ==> !v[k - 1].free)
    ensures Coalesce(v[k := v[k].(free := true)]) == Replaced(v, k, k + 2, Spanning(v[k], v[k + 1]))
  {
    hide Coalesce, Replaced, Settled;
    var u := v[k := v[k].(free := true)];
    SettledParts(v, k);
    SettledParts(v, k + 2);
    assert u[..k] == v[..k] && u[k + 2..] == v[k + 2..];
    CoalescePair(u, k);
    SameReplaced(u, v, k, k + 2, Spanning(v[k], v[k + 1]));
  }

  lemma NotSpanning(v: seq<Span>, k: nat)
    requires Settled(v) && 0 < k < |v| && v[k - 1].free
    ensures k > 1 ==> !v[k - 2].free
  {
    if k > 1 {
      var i := k - 2;
      assert !v[i + 1].free || !v[i].free;
    }
  }

  lemma SameReplaced(u: seq<Span>, v: seq<Span>, a: nat, b: nat, s: Span)
    requires a <= b <= |v| == |u| && u[..a] == v[..a] && u[b..] == v[b..]
    ensures Replaced(u, a, b, s) == Replaced(v, a, b, s)
  {
  }

  lemma OneReplaced(v: seq<Span>, k: nat, s: Span)
    requires k < |v|
    ensures Replaced(v, k, k + 1, s) == v[k := s]
  {
  }

  /** Free neighbours remain exactly where the block freed stood between two free ones. */
  lemma SettledExactly(v: seq<Span>, start: nat, end: nat, k: nat)
    requires Tiles(v, start, end) && Positive(v) && Settled(v) && k < |v| && !v[k].free
    ensures Settled(AfterFree(v, v[k].start)) <==> !(k > 0 && v[k - 1].free && k + 1 < |v| && v[k + 1].free)
  {
    FreeMergesExactly(v, start, end, k);
    hide Tiles, AfterFree, Positive, Replaced;
    if k > 0 && v[k - 1].free {
      NotSpanning(v, k);
      SettledAround(v, k - 1, k + 1, Spanning(v[k - 1], v[k]));
    } else if k + 1 < |v| && v[k + 1].free {
      assert k + 2 < |v| ==> !(v[k + 1].free && v[k + 1 + 1].free);
      SettledAround(v, k, k + 2, Spanning(v[k], v[k + 1]));
    } else {
      SettledAround(v, k, k + 1, v[k].(free := true));
    }
  }

  /** A free span in place of those from a up to b has no free neighbour exactly if none was free there. */
  lemma SettledAround(v: seq<Span>, a: nat, b: nat, s: Span)
    requires Settled(v) && a < b <= |v| && s.free
    ensures Settled(Replaced(v, a, b, s)) <==> !(a > 0 && v[a - 1].free) && !(b < |v| && v[b].free)
  {
    var w := Replaced(v, a, b, s);
    ReplacedAt(v, a, b, s);
    hide Replaced;
    if a > 0 && v[a - 1].free {
      assert w[a - 1].free && w[a - 1 + 1].free;
    } else if b < |v| && v[b].free {
      assert w[a].free && w[a + 1].free;
    } else {
      forall i | 0 <= i < |w| - 1 ensures !(w[i].free && w[i + 1].free) {
        if i > a {
          assert w[i] == v[i - a - 1 + b] && w[i + 1] == v[i - a - 1 + b + 1];
        } else if i + 1 < a {
          assert w[i] == v[i] && w[i + 1] == v[i + 1];
        }
      }
    }
  }

  lemma ReplacedAt(v: seq<Span>, a: nat, b: nat, s: Span)
    requires a < b <= |v|
    ensures var w := Replaced(v, a, b, s);
      && |w| == |v| + a + 1 - b && w[a] == s
      && (forall i :: 0 <= i < a ==> w[i] == v[i])
      && (forall i {:trigger w[i]} :: a < i < |w| ==> w[i] == v[i - a - 1 + b])
  {
  }

  /** w is v after one allocation at p: a free span taken whole where it fits exactly, its end cut off otherwise. */
  ghost predicate Served(v: seq<Span>, w: seq<Span>, request: nat, p: nat) {
    exists k :: 0 <= k < |v| && v[k].free && request <= v[k].size && ServedFrom(v, w, request, p, k)
  }

  ghost predicate ServedFrom(v: seq<Span>, w: seq<Span>, request: nat, p: nat, k: nat)
    requires k < |v| && request <= v[k].size
  {
    && p == v[k].start + (v[k].size - request)
    && w == if v[k].size == request then Taken(v, k) else Cut(v, k, request)
  }

  /** Freeing an allocation at once leaves the list as it was before it. */
  lemma FreeUndoes(v: seq<Span>, start: nat, end: nat, w: seq<Span>, request: nat, p: nat)
    requires Tiles(v, start, end) && Positive(v) && Settled(v) && request > 0 && Served(v, w, request, p)
    ensures AfterFree(w, p) == v
  {
    var k :| 0 <= k < |v| && v[k].free && request <= v[k].size && ServedFrom(v, w, request, p, k);
    hide Tiles, Positive, Settled, AfterFree, ServedFrom;
    FreeUndoesAt(v, start, end, w, request, p, k);
  }

  lemma FreeUndoesAt(v: seq<Span>, start: nat, end: nat, w: seq<Span>, request: nat, p: nat, k: nat)
    requires Tiles(v, start, end) && Positive(v) && Settled(v) && request > 0
    requires k < |v| && v[k].free && request <= v[k].size && ServedFrom(v, w, request, p, k)
    ensures AfterFree(w, p) == v
  {
    hide Tiles, Positive, Settled, AfterFree, Taken, Cut;
    if v[k].size == request {
      TakenUndone(v, start, end, k);
    } else {
      CutUndone(v, start, end, k, request);
    }
  }

  lemma TakenUndone(v: seq<Span>, start: nat, end: nat, k: nat)
    requires Tiles(v, start, end) && Positive(v) && Settled(v) && k < |v| && v[k].free
    ensures AfterFree(Taken(v, k), v[k].start) == v
  {
    hide Tiles, AfterFree, Positive, Settled, Replaced, Live, Taken;
    var w := Taken(v, k);
    TakenKeeps(v, start, end, k);
    TakenParts(v, w, k);
    FreeMergesExactly(w, start, end, k);
    OneReplaced(w, k, w[k].(free := true));
  }

  lemma TakenParts(v: seq<Span>, w: seq<Span>, k: nat)
    requires Settled(v) && k < |v| && v[k].free && w == Taken(v, k)
    ensures Settled(w) && |w| == |v| && w[k] == TakenSpan(v[k]) && w[k := w[k].(free := true)] == v
    ensures (k > 0 ==> !w[k - 1].free) && (k + 1 < |w| ==> !w[k + 1].free)
  {
    NeighboursUsed(v, k);
    assert forall i :: 0 <= i < |v| && w[i].free ==> v[i].free;
    forall i | 0 <= i < |w| - 1 ensures !(w[i].free && w[i + 1].free) {
      assert !(v[i].free && v[i + 1].free);
    }
  }

  lemma NeighboursUsed(v: seq<Span>, k: nat)
    requires Settled(v) && k < |v| && v[k].free
    ensures (k > 0 ==> !v[k - 1].free) && (k + 1 < |v| ==> !v[k + 1].free)
  {
    if k > 0 {
      var i := k - 1;
      assert !v[i + 1].free || !v[i].free;
    }
  }

  lemma CutUndone(v: seq<Span>, start: nat, end: nat, k: nat, size: nat)
    requires Tiles(v, start, end) && Positive(v) && Settled(v) && k < |v| && v[k].free && 0 < size < v[k].size
    ensures AfterFree(Cut(v, k, size), CutSpan(v[k], size).start) == v
  {
    hide Tiles, AfterFree, Positive, Settled, Cut, Replaced, Live;
    var rest, cut := Rest(v[k], size), CutSpan(v[k], size);
    CutKeeps(v, start, end, k, size);
    CutIs(v, k, size, rest, cut);
    var w := Cut(v, k, size);
    CutParts(v, w, k, rest, cut);
    FreeMergesExactly(w, start, end, k + 1);
    SameReplacedBehind(w, v, k, Spanning(rest, cut));
  }

  lemma SameReplacedBehind(w: seq<Span>, v: seq<Span>, k: nat, s: Span)
    requires k < |v| && |w| == |v| + 1 && w[..k] == v[..k] && w[k + 2..] == v[k + 1..] && s == v[k]
    ensures Replaced(w, k, k + 2, s) == v
  {
  }

  lemma CutParts(v: seq<Span>, w: seq<Span>, k: nat, rest: Span, cut: Span)
    requires Settled(v) && k < |v| && v[k].free && rest.free && !cut.free
    requires w == v[..k] + [rest, cut] + v[k + 1..]
    ensures Settled(w) && |w| == |v| + 1 && w[k] == rest && w[k + 1] == cut
    ensures w[..k] == v[..k] && w[k + 2..] == v[k + 1..]
  {
    NeighboursUsed(v, k);
    forall i | 0 <= i < |w| - 1 ensures !(w[i].free && w[i + 1].free) {
      if i + 1 < k {
        assert w[i] == v[i] && w[i + 1] == v[i + 1];
      } else if i > k + 1 {
        assert w[i] == v[i - 1] && w[i + 1] == v[i - 1 + 1];
      }
    }
  }

  // ----- growing in need -----

  predicate Fits(s: Span, request: nat) {
    s.free && request <= s.size
  }

  /** w is v with free spans appended while nothing fitted the request: only the last of them may. */
  ghost predicate GrownInNeed(v: seq<Span>, w: seq<Span>, request: nat) {
    && v <= w
    && (forall i :: |v| <= i < |w| ==> w[i].free)
    && (|v| < |w| ==> forall i :: 0 <= i < |w| - 1 ==> !Fits(w[i], request))
  }

  ghost predicate NoneFits(v: seq<Span>, request: nat) {
    forall i :: 0 <= i < |v| ==> !Fits(v[i], request)
  }

  lemma GrownMore(v: seq<Span>, end: nat, growth: nat, w: seq<Span>, request: nat)
    requires NoneFits(v, request) && GrownInNeed(Grown(v, end, growth), w, request)
    ensures GrownInNeed(v, w, request) && |w| > |v|
  {
    var g := Grown(v, end, growth);
    assert forall i :: 0 <= i < |g| ==> w[i] == g[i];
    assert v == g[..|v|] == w[..|v|];
  }

  lemma NotGrown(v: seq<Span>, request: nat)
    ensures GrownInNeed(v, v, request)
  {
  }

  /** w is v grown in need, over the range from start to end, and then served the request at p. */
  ghost predicate Obtained(v: seq<Span>, w: seq<Span>, start: nat, end: nat, request: nat, p: nat) {
    exists grown :: GrownInNeed(v, grown, request) && Tiles(grown, start, end) && Served(grown, w, request, p)
  }

  lemma ObtainedAtOnce(v: seq<Span>, w: seq<Span>, start: nat, end: nat, request: nat, p: nat)
    requires Tiles(v, start, end) && Served(v, w, request, p)
    ensures Obtained(v, w, start, end, request, p)
  {
    NotGrown(v, request);
  }

  lemma ObtainedLater(
    v: seq<Span>, at: nat, growth: nat, w: seq<Span>, start: nat, end: nat, request: nat, p: nat)
    requires NoneFits(v, request) && Obtained(Grown(v, at, growth), w, start, end, request, p)
    ensures Obtained(v, w, start, end, request, p)
  {
    hide Served, Tiles, Grown;
    var grown :| GrownInNeed(Grown(v, at, growth), grown, request) && Tiles(grown, start, end)
      && Served(grown, w, request, p);
    GrownMore(v, at, growth, grown, request);
  }

  /** Where nothing fitted before, the heap has grown by the request at least, which is at its new end. */
  lemma ObtainedAtEnd(v: seq<Span>, w: seq<Span>, start: nat, mid: nat, end: nat, request: nat, p: nat)
    requires Tiles(v, start, mid) && NoneFits(v, request) && Obtained(v, w, start, end, request, p)
    ensures p + request == end && mid + request <= end
  {
    hide Served, Tiles;
    var grown :| GrownInNeed(v, grown, request) && Tiles(grown, start, end) && Served(grown, w, request, p);
    ServedAtEnd(v, grown, w, start, end, request, p);
    GrownBehind(v, grown, start, mid, end);
    LastServed(v, grown, w, request, p);
  }

  lemma LastServed(v: seq<Span>, grown: seq<Span>, w: seq<Span>, request: nat, p: nat)
    requires NoneFits(v, request) && GrownInNeed(v, grown, request) && Served(grown, w, request, p)
    ensures |v| < |grown| && request <= grown[|grown| - 1].size
  {
    var k :| 0 <= k < |grown| && grown[k].free && request <= grown[k].size && ServedFrom(grown, w, request, p, k);
    assert Fits(grown[k], request);
  }

  lemma GrownBehind(v: seq<Span>, grown: seq<Span>, start: nat, mid: nat, end: nat)
    requires Tiles(v, start, mid) && Tiles(grown, start, end) && v < grown
    ensures mid + grown[|grown| - 1].size <= end
  {
    SpansOrderedLast(grown, start, end);
    if v == [] {
      TilesForward(grown[..|grown| - 1], start, grown[|grown| - 1].start) by {
        TilesApart(grown, start, end, |grown| - 1);
      }
    } else {
      SpansOrderedLast(v, start, mid);
      assert v[|v| - 1] == grown[|v| - 1];
      SpansOrdered(grown, start, end, |v| - 1, |grown| - 1);
    }
  }

  /** Where nothing fitted before, what is served comes from the end of the last span. */
  lemma ServedAtEnd(v: seq<Span>, grown: seq<Span>, w: seq<Span>, start: nat, end: nat, request: nat, p: nat)
    requires NoneFits(v, request) && GrownInNeed(v, grown, request) && Served(grown, w, request, p)
    requires Tiles(grown, start, end)
    ensures p + request == end && grown != v
  {
    var k :| 0 <= k < |grown| && grown[k].free && request <= grown[k].size && ServedFrom(grown, w, request, p, k);
    assert Fits(grown[k], request);
    if grown == v {
      assert false;
    }
    SpansOrderedLast(grown, start, end);
  }

  lemma SpansOrderedLast(v: seq<Span>, start: nat, end: nat)
    requires Tiles(v, start, end) && v != []
    ensures v[|v| - 1].start + v[|v| - 1].size == end
  {
    TilesApart(v, start, end, |v| - 1);
    assert v[|v|..] == [];
  }

  lemma ServedFits(v: seq<Span>, w: seq<Span>, request: nat, p: nat)
    requires Served(v, w, request, p)
    ensures !NoneFits(v, request)
  {
    var k :| 0 <= k < |v| && v[k].free && request <= v[k].size && ServedFrom(v, w, request, p, k);
    assert Fits(v[k], request);
  }

  /** No free span has the size asked for. */
  ghost predicate NoneExact(v: seq<Span>, request: nat) {
    forall i :: 0 <= i < |v| && v[i].free ==> v[i].size != request
  }

  lemma NoneFitsExact(v: seq<Span>, request: nat)
    requires NoneFits(v, request)
    ensures NoneExact(v, request)
  {
    assert forall i :: 0 <= i < |v| ==> !Fits(v[i], request);
  }

  /** Growing by one more block that does not fit exactly. */
  lemma NoneExactGrown(v: seq<Span>, end: nat, growth: nat, w: seq<Span>, request: nat)
    requires NoneFits(v, request) && GrownInNeed(Grown(v, end, growth), w, request)
    requires NoneFits(Grown(v, end, growth), request) ==> NoneExact(w, request)
    requires request <= growth ==> growth != request
    ensures NoneExact(w, request)
  {
    var g := Grown(v, end, growth);
    if request <= growth {
      assert w[..|g|] == g;
      assert w[|v|] == g[|v|] && Fits(w[|v|], request);
      assert forall i :: 0 <= i < |v| ==> !Fits(v[i], request) && g[i] == v[i];
    } else {
      assert forall i :: 0 <= i < |v| ==> g[i] == v[i];
    }
  }

  /** If only the block appended fits, it is the first fit. */
  lemma FirstFitIsLast(t: seq<Block>, order: seq<nat>, v: seq<Span>, end: nat, growth: nat, request: nat)
    returns (d: nat)
    requires Holds(t, order, Grown(v, end, growth)) && NoneFits(v, request) && request <= growth
    ensures FirstFit(t, request, d) && t[d].size == growth
  {
    var g := Grown(v, end, growth);
    NoFitMeans(t, order, g, request);
    assert Fits(g[|v|], request);
    d :| FirstFit(t, request, d);
    assert forall i :: 0 <= i < |v| ==> g[i] == v[i] && !Fits(g[i], request);
    var k := Position(t, order, g, d);
    assert Fits(g[k], request);
  }

  /** The table has no fitting block exactly if the list has no fitting span. */
  lemma NoFitMeans(t: seq<Block>, order: seq<nat>, v: seq<Span>, request: nat)
    requires Holds(t, order, v)
    ensures NoFit(t, request) <==> NoneFits(v, request)
  {
    if NoFit(t, request) {
      NothingAccepted(t, request, |t|);
      forall i | 0 <= i < |v| ensures !Fits(v[i], request) {
        assert v[i] == SpanOf(t[order[i]]);
        assert !Accepts(Donor(request), t[order[i]]);
      }
    } else {
      var d: nat :| FirstFit(t, request, d);
      var k := Position(t, order, v, d);
      assert Fits(v[k], request);
    }
  }

  lemma {:induction false} NothingAccepted(t: seq<Block>, request: nat, n: nat)
    requires NoFit(t, request) && n <= |t|
    ensures forall i :: 0 <= i < n ==> !Accepts(Donor(request), t[i])
  {
    if n > 0 {
      NothingAccepted(t, request, n - 1);
      assert !FirstFit(t, request, n - 1);
    }
  }

  /**
   * What became of a request to a heap from start to mid that now ends at end: it was obtained, or the
   * heap grew in need to no avail. Where nothing fitted, the bytes obtained are the last of the grown heap.
   */
  ghost predicate Allocated(
    v: seq<Span>, w: seq<Span>, start: nat, mid: nat, end: nat, request: nat, r: Option<nat>)
  {
    match r
    case Some(p) =>
      && Obtained(v, w, start, end, request, p)
      && (NoneFits(v, request) ==> p + request == end && mid + request <= end)
    case None =>
      && GrownInNeed(v, w, request)
      && (NoneFits(v, request) ==> NoneExact(w, request))
  }

  lemma AllocatedAtOnce(v: seq<Span>, w: seq<Span>, start: nat, end: nat, request: nat, p: nat)
    requires Tiles(v, start, end) && Served(v, w, request, p)
    ensures Allocated(v, w, start, end, end, request, Some(p))
  {
    hide Served, Tiles, NoneFits, Obtained;
    ObtainedAtOnce(v, w, start, end, request, p);
    ServedFits(v, w, request, p);
  }

  lemma NotAllocated(v: seq<Span>, start: nat, end: nat, request: nat)
    ensures Allocated(v, v, start, end, end, request, None)
  {
    if NoneFits(v, request) {
      NoneFitsExact(v, request);
    }
  }

  lemma AllocatedLater(
    v: seq<Span>, w: seq<Span>, start: nat, mid: nat, growth: nat, end: nat, request: nat, r: Option<nat>)
    requires Tiles(v, start, mid) && NoneFits(v, request)
    requires Allocated(Grown(v, mid, growth), w, start, mid + growth, end, request, r)
    requires r.None? ==> growth != request
    ensures Allocated(v, w, start, mid, end, request, r)
  {
    hide Served, Tiles, NoneFits, Obtained, GrownInNeed, Grown, NoneExact;
    match r
    case Some(p) =>
      ObtainedLater(v, mid, growth, w, start, end, request, p);
      ObtainedAtEnd(v, w, start, mid, end, request, p);
    case None =>
      GrownMore(v, mid, growth, w, request);
      NoneExactGrown(v, mid, growth, w, request);
  }

  /** Where something fitted, the heap did not grow. */
  lemma AllocatedWithin(
    v: seq<Span>, w: seq<Span>, start: nat, mid: nat, end: nat, request: nat, r: Option<nat>)
    requires Allocated(v, w, start, mid, end, request, r) && !NoneFits(v, request)
    ensures if r.Some? then Served(v, w, request, r.value) else w == v
  {
    hide Served, Tiles;
    if r.None? {
      NotGrownWithin(v, w, request);
    } else {
      var grown :| GrownInNeed(v, grown, request) && Tiles(grown, start, end) && Served(grown, w, request, r.value);
      NotGrownWithin(v, grown, request);
    }
  }

  lemma NotGrownWithin(v: seq<Span>, w: seq<Span>, request: nat)
    requires GrownInNeed(v, w, request) && !NoneFits(v, request)
    ensures w == v
  {
    var i: nat :| i < |v| && Fits(v[i], request);
    assert w[i] == v[i];
    assert w[..|v|] == v;
  }
}
