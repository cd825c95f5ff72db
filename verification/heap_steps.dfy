/** What each in-place rewrite of the block table means for the spans and the allocations. */
module HeapSteps {
  import opened HeapLayout
  import opened HeapTable

  // ----- on spans -----

  /** The last size bytes of s, in use. */
  function CutSpan(s: Span, size: nat): Span
    requires size <= s.size
  {
    Span(s.start + (s.size - size), size, false)
  }

  /** What is left in front. */
  function Rest(s: Span, size: nat): Span
    requires size <= s.size
  {
    s.(size := s.size - size)
  }

  /** v after cutting size bytes off the end of span k. */
  function Cut(v: seq<Span>, k: nat, size: nat): seq<Span>
    requires k < |v| && size <= v[k].size
  {
    v[..k] + [v[k].(size := v[k].size - size), CutSpan(v[k], size)] + v[k + 1..]
  }

  lemma CutIs(v: seq<Span>, k: nat, size: nat, rest: Span, cut: Span)
    requires k < |v| && size <= v[k].size && rest == v[k].(size := v[k].size - size)
    requires cut == CutSpan(v[k], size)
    ensures Cut(v, k, size) == v[..k] + [rest, cut] + v[k + 1..]
  {
  }

  lemma CutKeeps(v: seq<Span>, start: nat, end: nat, k: nat, size: nat)
    requires Tiles(v, start, end) && k < |v| && v[k].free && size <= v[k].size
    ensures Tiles(Cut(v, k, size), start, end)
    ensures Live(Cut(v, k, size)) == Live(v) + multiset{CutSpan(v[k], size)}
    ensures Positive(v) && 0 < size < v[k].size ==> Positive(Cut(v, k, size))
  {
    hide Tiles, Used;
    var rest, cut := v[k].(size := v[k].size - size), CutSpan(v[k], size);
    TwoTile(rest, cut);
    TilesReplace(v, start, end, k, [rest, cut]);
    LiveReplace(v, k, [rest, cut]);
    assert Live([rest, cut]) == multiset{cut} && LiveOf(v[k]) == multiset{};
  }

  /** Cutting a whole span leaves a zero-size donor at its address, and freeing the address misses the cut. */
  lemma {:induction false} WholeCutLeaks(start: nat, size: nat)
    requires size > 0
    ensures var v, cut := Cut([Span(start, size, true)], 0, size), Span(start, size, false);
      Tiles(v, start, start + size) && Live(v) == Live(AfterFree(v, start)) == multiset{cut}
  {
    var whole, cut := Span(start, size, true), Span(start, size, false);
    OneTile(whole);
    CutKeeps([whole], start, start + size, 0, size);
    UsedOne(whole);
    var v := Cut([whole], 0, size);
    CutIs([whole], 0, size, Span(start, 0, true), cut);
    assert v[0] == Span(start, 0, true);
    hide Used, Tiles, Cut, AfterFree;
    FreeEndsFirst(v, start);
    assert FirstAt(v, start) == 0;
  }

  function TakenSpan(s: Span): Span {
    s.(free := false)
  }

  function Taken(v: seq<Span>, k: nat): seq<Span>
    requires k < |v|
  {
    v[k := TakenSpan(v[k])]
  }

  lemma TakenKeeps(v: seq<Span>, start: nat, end: nat, k: nat)
    requires Tiles(v, start, end) && k < |v| && v[k].free
    ensures Tiles(Taken(v, k), start, end)
    ensures Live(Taken(v, k)) == Live(v) + multiset{TakenSpan(v[k])}
    ensures Positive(v) ==> Positive(Taken(v, k))
  {
    hide Tiles, Used;
    var taken := TakenSpan(v[k]);
    OneTile(taken);
    TilesReplace(v, start, end, k, [taken]);
    LiveReplace(v, k, [taken]);
    UsedOne(taken);
    assert v[..k] + [taken] + v[k + 1..] == Taken(v, k);
  }

  function Grown(v: seq<Span>, end: nat, growth: nat): seq<Span> {
    v + [Span(end, growth, true)]
  }

  lemma GrownKeeps(v: seq<Span>, start: nat, end: nat, growth: nat)
    requires Tiles(v, start, end)
    ensures Tiles(Grown(v, end, growth), start, end + growth)
    ensures Live(Grown(v, end, growth)) == Live(v)
    ensures Positive(v) && 0 < growth ==> Positive(Grown(v, end, growth))
  {
    var more := Span(end, growth, true);
    OneTile(more);
    TilesConcat(v, [more], start, end, end + growth);
    UsedConcat(v, [more]);
    UsedOne(more);
  }

  lemma TwoTile(s: Span, t: Span)
    requires s.start + s.size == t.start
    ensures Tiles([s, t], s.start, t.start + t.size)
    ensures Live([s, t]) == LiveOf(s) + LiveOf(t)
  {
    assert [s, t][1..] == [t];
    UsedOne(t);
  }

  // ----- on the table -----

  /** The table after handing out the whole block d. */
  function TakenTable(t: seq<Block>, d: nat): seq<Block>
    requires d < |t|
  {
    t[d := t[d].(free := false, used := true)]
  }

  lemma TakenTableView(t: seq<Block>, order: seq<nat>, k: nat)
    requires Linked(t, order) && k < |order|
    ensures Linked(TakenTable(t, order[k]), order)
    ensures View(TakenTable(t, order[k]), order) == Taken(View(t, order), k)
  {
    RewriteAt(t, order, k, t[order[k]].(free := false, used := true));
  }

  /** The table after cutting size bytes off the end of donor d into slot u. */
  function CutTable(t: seq<Block>, d: nat, u: nat, size: nat): seq<Block>
    requires d < |t| && u < |t| && size <= t[d].size
  {
    var cut := Block(t[d].start + (t[d].size - size), size, t[d].next, false, true);
    t[d := t[d].(size := t[d].size - size, next := u)][u := cut]
  }

  lemma CutTableView(t: seq<Block>, order: seq<nat>, k: nat, u: nat, size: nat)
    requires Linked(t, order) && k < |order| && size <= t[order[k]].size && u < |t| && !t[u].used
    ensures Linked(CutTable(t, order[k], u, size), Inserted(order, k, u))
    ensures View(CutTable(t, order[k], u, size), Inserted(order, k, u)) == Cut(View(t, order), k, size)
    ensures Unused(CutTable(t, order[k], u, size)) == Unused(t) - {u} && u in Unused(t)
  {
    var d, t', v := order[k], CutTable(t, order[k], u, size), View(t, order);
    assert d != u;
    assert t'[d] == t[d].(size := t[d].size - size, next := u);
    assert forall i :: 0 <= i < |t| && i != d && i != u ==> t'[i] == t[i];
    InsertAfter(t, order, k, u, t');
    UnusedShrinks(t, t', u);
    assert v[k] == SpanOf(t[d]);
    assert View(t', Inserted(order, k, u)) == v[..k] + [SpanOf(t'[d]), SpanOf(t'[u])] + v[k + 1..];
    CutIs(v, k, size, SpanOf(t'[d]), SpanOf(t'[u]));
  }

  /** The table after appending a free block of size growth behind the last block l. */
  function GrownTable(t: seq<Block>, l: nat, u: nat, end: nat, growth: nat): seq<Block>
    requires l < |t| && u < |t|
  {
    t[u := t[u].(start := end, size := growth, free := true, used := true)][l := t[l].(next := u)]
  }

  lemma GrownTableView(t: seq<Block>, order: seq<nat>, u: nat, end: nat, growth: nat)
    requires Linked(t, order) && u < |t| && !t[u].used
    ensures var t', o := GrownTable(t, order[|order| - 1], u, end, growth), Inserted(order, |order| - 1, u);
      Linked(t', o) && View(t', o) == Grown(View(t, order), end, growth)
      && Unused(t') == Unused(t) - {u} && u in Unused(t)
  {
    var k, v := |order| - 1, View(t, order);
    var t' := GrownTable(t, order[k], u, end, growth);
    InsertAfter(t, order, k, u, t');
    UnusedShrinks(t, t', u);
    assert v[..k] + [v[k]] == v && v[k + 1..] == [];
  }

  /** The table after block a swallowed the block b behind it. */
  function MergedTable(t: seq<Block>, a: nat, b: nat): seq<Block>
    requires a < |t| && b < |t|
  {
    t[a := t[a].(size := t[a].size + t[b].size, next := t[b].next)][b := EMPTY]
  }

  /** v after span k swallowed the span behind it. */
  function Merged(v: seq<Span>, k: nat): seq<Span>
    requires k + 1 < |v|
  {
    v[..k] + [v[k].(size := v[k].size + v[k + 1].size)] + v[k + 2..]
  }

  lemma MergedIs(v: seq<Span>, k: nat, s: Span)
    requires k + 1 < |v| && s == v[k].(size := v[k].size + v[k + 1].size)
    ensures Merged(v, k) == v[..k] + [s] + v[k + 2..]
  {
  }

  lemma MergedTableView(t: seq<Block>, order: seq<nat>, k: nat)
    requires Linked(t, order) && k + 1 < |order|
    ensures Linked(MergedTable(t, order[k], order[k + 1]), Removed(order, k))
    ensures View(MergedTable(t, order[k], order[k + 1]), Removed(order, k)) == Merged(View(t, order), k)
  {
    var a, b, t', v := order[k], order[k + 1], MergedTable(t, order[k], order[k + 1]), View(t, order);
    assert a != b;
    assert t'[a] == t[a].(size := t[a].size + t[b].size, next := t[b].next);
    assert t'[b] == EMPTY;
    assert forall i :: 0 <= i < |t| && i != a && i != b ==> t'[i] == t[i];
    RemoveAfter(t, order, k, t');
    MergedIs(v, k, SpanOf(t'[a]));
  }

  // ----- the aligned variant: a free filler between the donor and the cut -----

  /** What is left of s behind fill bytes of filler. */
  function PadSpan(s: Span, fill: nat): Span
    requires fill <= s.size
  {
    Span(s.start + fill, s.size - fill, s.free)
  }

  function Padded(v: seq<Span>, k: nat, fill: nat): seq<Span>
    requires k < |v| && fill <= v[k].size
  {
    v[..k] + [Span(v[k].start, fill, true), PadSpan(v[k], fill)] + v[k + 1..]
  }

  lemma PaddedKeeps(v: seq<Span>, start: nat, end: nat, k: nat, fill: nat)
    requires Tiles(v, start, end) && k < |v| && !v[k].free && fill <= v[k].size
    ensures Tiles(Padded(v, k, fill), start, end)
    ensures Live(Padded(v, k, fill)) + multiset{v[k]}
            == Live(v) + multiset{PadSpan(v[k], fill)}
  {
    var filler, cut := Span(v[k].start, fill, true), PadSpan(v[k], fill);
    TwoTile(filler, cut);
    TilesReplace(v, start, end, k, [filler, cut]);
    LiveReplace(v, k, [filler, cut]);
    assert Live([filler, cut]) == multiset{cut} && LiveOf(v[k]) == multiset{v[k]};
  }

  /** The table after filler f took the first fill bytes of block c, which follows d. */
  function PaddedTable(t: seq<Block>, d: nat, c: nat, f: nat, fill: nat): seq<Block>
    requires d < |t| && c < |t| && f < |t| && fill <= t[c].size
  {
    t[f := Block(t[c].start, fill, c, true, true)]
     [c := t[c].(start := t[c].start + fill, size := t[c].size - fill)]
     [d := t[d].(next := f)]
  }

  lemma PaddedTableView(t: seq<Block>, order: seq<nat>, k: nat, f: nat, fill: nat)
    requires Linked(t, order) && k + 1 < |order| && fill <= t[order[k + 1]].size && f < |t| && !t[f].used
    ensures Linked(PaddedTable(t, order[k], order[k + 1], f, fill), Inserted(order, k, f))
    ensures View(PaddedTable(t, order[k], order[k + 1], f, fill), Inserted(order, k, f))
            == Padded(View(t, order), k + 1, fill)
  {
    var d, c, v := order[k], order[k + 1], View(t, order);
    var moved := Block(t[c].start + fill, t[c].size - fill, t[c].next, t[c].free, t[c].used);
    var t1 := t[c := moved];
    var t2 := PaddedTable(t, d, c, f, fill);
    assert d != c && f != c && f != d;
    assert t2[d] == t[d].(next := f) && t2[f] == Block(t[c].start, fill, c, true, true);
    assert v[k] == SpanOf(t[d]) && v[k + 1] == SpanOf(t[c]);
    assert forall i :: 0 <= i < |t| && i != d && i != f ==> t2[i] == t1[i];
    PaddedIs(v, k, fill, SpanOf(t2[d]), SpanOf(t2[f]), SpanOf(moved), v[k + 1 := SpanOf(moved)]);
    assert t1[d] == t[d] && t[c].used && t[f] == t1[f];
    hide Linked, View, Padded, PaddedTable, Inserted;
    RewriteAt(t, order, k + 1, moved);
    InsertAfter(t1, order, k, f, t2);
  }

  lemma PaddedIs(v: seq<Span>, k: nat, fill: nat, donor: Span, filler: Span, cut: Span, v1: seq<Span>)
    requires k + 1 < |v| && fill <= v[k + 1].size && donor == v[k] && filler == Span(v[k + 1].start, fill, true)
    requires cut == PadSpan(v[k + 1], fill) && v1 == v[k + 1 := cut]
    ensures Padded(v, k + 1, fill) == v1[..k] + [donor, filler] + v1[k + 1..]
  {
  }

  // ----- both together, as the heap's methods use them -----

  /** The table t, linked in this order, holds the spans v. */
  ghost predicate Holds(t: seq<Block>, order: seq<nat>, v: seq<Span>) {
    Linked(t, order) && View(t, order) == v
  }

  lemma TakeStep(t: seq<Block>, order: seq<nat>, v: seq<Span>, k: nat, d: nat)
    requires Holds(t, order, v) && k < |order| && d == order[k]
    ensures Holds(TakenTable(t, d), order, Taken(v, k))
  {
    TakenTableView(t, order, k);
  }

  lemma CutStep(t: seq<Block>, order: seq<nat>, v: seq<Span>, k: nat, d: nat, u: nat, size: nat)
    requires Holds(t, order, v) && k < |order| && d == order[k]
    requires size <= t[d].size && u < |t| && !t[u].used
    ensures k < |v| && v[k] == SpanOf(t[d])
    ensures Holds(CutTable(t, d, u, size), Inserted(order, k, u), Cut(v, k, size))
  {
    CutTableView(t, order, k, u, size);
  }

  lemma GrowStep(t: seq<Block>, order: seq<nat>, v: seq<Span>, last: nat, u: nat, end: nat, growth: nat)
    requires Holds(t, order, v) && u < |t| && !t[u].used && last == order[|order| - 1]
    ensures last < |t| && last != u
    ensures Holds(GrownTable(t, last, u, end, growth), Inserted(order, |order| - 1, u), Grown(v, end, growth))
    ensures Unused(GrownTable(t, last, u, end, growth)) == Unused(t) - {u} && u in Unused(t)
  {
    GrownTableView(t, order, u, end, growth);
  }

  lemma MergeStep(t: seq<Block>, order: seq<nat>, v: seq<Span>, k: nat, a: nat, b: nat)
    requires Holds(t, order, v) && k < |order| && a == order[k] && a < |t| && t[a].next == b
    ensures k + 1 < |order| == |v| && b == order[k + 1] < |t| && a != b && v[k + 1] == SpanOf(t[b])
    ensures |Removed(order, k)| == |order| - 1 && Removed(order, k)[k] == a
    ensures Holds(MergedTable(t, a, b), Removed(order, k), Merged(v, k))
  {
    SpanAt(t, order, v, k);
    MergedTableView(t, order, k);
  }

  lemma PadStep(t: seq<Block>, order: seq<nat>, v: seq<Span>, k: nat, d: nat, c: nat, f: nat, fill: nat)
    requires Holds(t, order, v) && k < |order| && d == order[k] && t[d].next == c
    requires c < |t| && fill <= t[c].size && f < |t| && !t[f].used
    ensures k + 1 < |order| == |v| && v[k + 1] == SpanOf(t[c]) && c != d
    ensures Holds(PaddedTable(t, d, c, f, fill), Inserted(order, k, f), Padded(v, k + 1, fill))
  {
    SpanAt(t, order, v, k);
    PaddedTableView(t, order, k, f, fill);
  }

  lemma HoldsStart(t: seq<Block>, order: seq<nat>, v: seq<Span>)
    requires Holds(t, order, v)
    ensures 0 < |order| == |v| && order[0] == 0 < |t|
  {
  }

  /** The span of the slot at position k. */
  lemma SpanAt(t: seq<Block>, order: seq<nat>, v: seq<Span>, k: nat)
    requires Holds(t, order, v) && k < |order|
    ensures |v| == |order| && order[k] < |t| && v[k] == SpanOf(t[order[k]])
    ensures t[order[k]].next == NextOf(order, k)
  {
  }

  /** Marking the first block at p free, in the table and in the view. */
  lemma MarkStep(t: seq<Block>, order: seq<nat>, v: seq<Span>, k: nat, p: nat)
    requires Holds(t, order, v) && k < |order| && k <= FirstAt(v, p) && t[order[k]].start == p
    ensures Holds(t[order[k] := t[order[k]].(free := true)], order, MarkFree(v, p))
  {
    SpanAt(t, order, v, k);
    hide Linked, View;
    var b := t[order[k]].(free := true);
    RewriteAt(t, order, k, b);
    assert SpanOf(b) == v[k].(free := true) && FirstAt(v, p) == k;
  }

  lemma MarkNone(t: seq<Block>, order: seq<nat>, v: seq<Span>, p: nat)
    requires Holds(t, order, v) && |order| <= FirstAt(v, p)
    ensures MarkFree(v, p) == v
  {
  }

  ghost function Position(t: seq<Block>, order: seq<nat>, v: seq<Span>, d: nat): (k: nat)
    requires Holds(t, order, v) && d < |t| && t[d].used
    ensures k < |order| == |v| && order[k] == d && v[k] == SpanOf(t[d])
  {
    assert d in order;
    var k :| 0 <= k < |order| && order[k] == d;
    k
  }
}
