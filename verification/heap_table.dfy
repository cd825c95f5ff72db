/** The block table: slots linked through next indices, and the list of spans they stand for. */
module HeapTable {
  import opened HeapLayout

  /** A table slot. next is a slot index, or -1 at the end of the list. */
  datatype Block = Block(start: nat, size: nat, next: int, free: bool, used: bool)

  const EMPTY := Block(0, 0, -1, false, false)

  /** order lists the used slots, starting with slot 0, in the order the next links visit them. */
  ghost predicate Linked(t: seq<Block>, order: seq<nat>) {
    && |order| > 0 && order[0] == 0
    && InTable(t, order) && Chained(t, order) && Distinct(order) && Covers(t, order) && Clean(t)
  }

  /** Slots out of use are all zero. */
  ghost predicate Clean(t: seq<Block>) {
    forall i :: 0 <= i < |t| && !t[i].used ==> t[i] == EMPTY
  }

  ghost predicate InTable(t: seq<Block>, order: seq<nat>) {
    forall k :: 0 <= k < |order| ==> order[k] < |t|
  }

  ghost predicate Chained(t: seq<Block>, order: seq<nat>)
    requires InTable(t, order)
  {
    forall k {:trigger t[order[k]]} :: 0 <= k < |order| ==> t[order[k]].used && t[order[k]].next == NextOf(order, k)
  }

  ghost predicate Distinct(order: seq<nat>) {
    forall j, k :: 0 <= j < k < |order| ==> order[j] != order[k]
  }

  ghost predicate Covers(t: seq<Block>, order: seq<nat>) {
    forall i {:trigger i in order} :: 0 <= i < |t| && t[i].used ==> i in order
  }

  /** What the link behind position k shows; position -1 stands for the head pointer. */
  function NextOf(order: seq<nat>, k: int): int
    requires -1 <= k
  {
    if k + 1 < |order| then order[k + 1] else -1
  }

  function SpanOf(b: Block): Span {
    Span(b.start, b.size, b.free)
  }

  ghost function View(t: seq<Block>, order: seq<nat>): (v: seq<Span>)
    requires InTable(t, order)
    ensures |v| == |order|
  {
    seq(|order|, k requires 0 <= k < |order| => SpanOf(t[order[k]]))
  }

  function Unused(t: seq<Block>): set<nat> {
    set i | 0 <= i < |t| && !t[i].used
  }

  function Inserted(order: seq<nat>, k: nat, u: nat): seq<nat>
    requires k < |order|
  {
    order[..k + 1] + [u] + order[k + 1..]
  }

  function Removed(order: seq<nat>, k: nat): seq<nat>
    requires k + 1 < |order|
  {
    order[..k + 1] + order[k + 2..]
  }

  /** Linking the unused slot u in behind position k. */
  lemma {:induction false} InsertAfter(t: seq<Block>, order: seq<nat>, k: nat, u: nat, t': seq<Block>)
    requires Linked(t, order) && k < |order| && u < |t| == |t'| && !t[u].used
    requires forall i :: 0 <= i < |t| && i != order[k] && i != u ==> t'[i] == t[i]
    requires t'[order[k]].used && t'[order[k]].next == u
    requires t'[u].used && t'[u].next == t[order[k]].next
    ensures Linked(t', Inserted(order, k, u))
    ensures View(t', Inserted(order, k, u))
            == View(t, order)[..k] + [SpanOf(t'[order[k]]), SpanOf(t'[u])] + View(t, order)[k + 1..]
  {
    assert u !in order;
    InsertedDistinct(order, k, u);
    InsertedView(t, order, k, u, t');
    InsertedChain(t, order, k, u, t');
    assert t'[u].used;
  }

  lemma InsertedDistinct(order: seq<nat>, k: nat, u: nat)
    requires k < |order| && u !in order && Distinct(order)
    ensures Distinct(Inserted(order, k, u))
    ensures forall i :: i in order ==> i in Inserted(order, k, u)
  {
    assert order == order[..k + 1] + order[k + 1..];
  }

  lemma InsertedChain(t: seq<Block>, order: seq<nat>, k: nat, u: nat, t': seq<Block>)
    requires InTable(t, order) && Chained(t, order) && k < |order| && u < |t| == |t'|
    requires forall j :: 0 <= j < |order| && j != k ==> t'[order[j]] == t[order[j]]
    requires t'[order[k]].used && t'[order[k]].next == u
    requires t'[u].used && t'[u].next == t[order[k]].next
    requires InTable(t', Inserted(order, k, u))
    ensures Chained(t', Inserted(order, k, u))
  {
    var o := Inserted(order, k, u);
    forall j {:trigger t'[o[j]]} | 0 <= j < |o| ensures t'[o[j]].used && t'[o[j]].next == NextOf(o, j) {
      if j < k {
        assert o[j] == order[j] && o[j + 1] == order[j + 1];
      } else if j > k + 1 {
        assert o[j] == order[j - 1];
        assert j + 1 < |o| ==> o[j + 1] == order[j];
      }
    }
  }

  lemma InsertedView(t: seq<Block>, order: seq<nat>, k: nat, u: nat, t': seq<Block>)
    requires InTable(t, order) && k < |order| && u < |t| == |t'|
    requires forall j :: 0 <= j < |order| && j != k ==> t'[order[j]] == t[order[j]]
    ensures InTable(t', Inserted(order, k, u))
    ensures View(t', Inserted(order, k, u))
            == View(t, order)[..k] + [SpanOf(t'[order[k]]), SpanOf(t'[u])] + View(t, order)[k + 1..]
  {
    var o, v := Inserted(order, k, u), View(t, order);
    var w := v[..k] + [SpanOf(t'[order[k]]), SpanOf(t'[u])] + v[k + 1..];
    forall j | 0 <= j < |o| ensures o[j] < |t| && SpanOf(t'[o[j]]) == w[j] {
      if j < k {
        assert o[j] == order[j] && w[j] == v[j];
      } else if j > k + 1 {
        assert o[j] == order[j - 1] && w[j] == v[j - 1];
      }
    }
  }

  /** Unlinking the slot behind position k. */
  lemma RemoveAfter(t: seq<Block>, order: seq<nat>, k: nat, t': seq<Block>)
    requires Linked(t, order) && k + 1 < |order| && |t| == |t'|
    requires forall i :: 0 <= i < |t| && i != order[k] && i != order[k + 1] ==> t'[i] == t[i]
    requires t'[order[k]].used && t'[order[k]].next == t[order[k + 1]].next
    requires t'[order[k + 1]] == EMPTY
    ensures Linked(t', Removed(order, k))
    ensures View(t', Removed(order, k)) == View(t, order)[..k] + [SpanOf(t'[order[k]])] + View(t, order)[k + 2..]
  {
    RemovedDistinct(order, k);
    RemovedView(t, order, k, t');
    RemovedChain(t, order, k, t');
  }

  lemma RemovedDistinct(order: seq<nat>, k: nat)
    requires k + 1 < |order| && Distinct(order)
    ensures Distinct(Removed(order, k))
    ensures forall i :: i in order && i != order[k + 1] ==> i in Removed(order, k)
  {
    assert order == order[..k + 1] + [order[k + 1]] + order[k + 2..];
  }

  lemma RemovedChain(t: seq<Block>, order: seq<nat>, k: nat, t': seq<Block>)
    requires InTable(t, order) && Chained(t, order) && k + 1 < |order| && |t| == |t'|
    requires forall j :: 0 <= j < |order| && j != k && j != k + 1 ==> t'[order[j]] == t[order[j]]
    requires t'[order[k]].used && t'[order[k]].next == t[order[k + 1]].next
    requires InTable(t', Removed(order, k))
    ensures Chained(t', Removed(order, k))
  {
    var o := Removed(order, k);
    forall j {:trigger t'[o[j]]} | 0 <= j < |o| ensures t'[o[j]].used && t'[o[j]].next == NextOf(o, j) {
      if j < k {
        assert o[j] == order[j] && o[j + 1] == order[j + 1];
      } else if j == k {
        assert o[j] == order[k] && NextOf(o, j) == NextOf(order, k + 1);
      } else {
        assert o[j] == order[j + 1];
        assert j + 1 < |o| ==> o[j + 1] == order[j + 2];
      }
    }
  }

  lemma RemovedView(t: seq<Block>, order: seq<nat>, k: nat, t': seq<Block>)
    requires InTable(t, order) && k + 1 < |order| && |t| == |t'|
    requires forall j :: 0 <= j < |order| && j != k && j != k + 1 ==> t'[order[j]] == t[order[j]]
    ensures InTable(t', Removed(order, k))
    ensures View(t', Removed(order, k)) == View(t, order)[..k] + [SpanOf(t'[order[k]])] + View(t, order)[k + 2..]
  {
    var o, v := Removed(order, k), View(t, order);
    var w := v[..k] + [SpanOf(t'[order[k]])] + v[k + 2..];
    forall j | 0 <= j < |o| ensures o[j] < |t| && SpanOf(t'[o[j]]) == w[j] {
      if j < k {
        assert o[j] == order[j] && w[j] == v[j];
      } else if j > k {
        assert o[j] == order[j + 1] && w[j] == v[j + 1];
      }
    }
  }

  /** Rewriting the contents of a linked slot, but not its link. */
  lemma RewriteAt(t: seq<Block>, order: seq<nat>, k: nat, b: Block)
    requires Linked(t, order) && k < |order| && b.used && b.next == t[order[k]].next
    ensures Linked(t[order[k] := b], order)
    ensures View(t[order[k] := b], order) == View(t, order)[k := SpanOf(b)]
  {
    var t' := t[order[k] := b];
    forall i | 0 <= i < |t'| && t'[i].used ensures i in order {
      assert t[i].used;
    }
  }

  /** Using up the unused slot u, and no other. */
  lemma UnusedShrinks(t: seq<Block>, t': seq<Block>, u: nat)
    requires u < |t| == |t'| && !t[u].used && t'[u].used
    requires forall i :: 0 <= i < |t| && i != u ==> t'[i].used == t[i].used
    ensures Unused(t') == Unused(t) - {u} && u in Unused(t)
  {
  }

  // ----- the filters of heap_filter_blocks -----

  datatype Filter = Donor(size: nat) | UnusedSlot | Last

  /** d is the first slot holding a free block of at least size bytes. */
  predicate FirstFit(t: seq<Block>, size: nat, d: nat) {
    d < |t| && Accepts(Donor(size), t[d]) && forall i :: 0 <= i < d ==> !Accepts(Donor(size), t[i])
  }

  ghost predicate NoFit(t: seq<Block>, size: nat) {
    forall d: nat :: !FirstFit(t, size, d)
  }

  predicate Accepts(f: Filter, b: Block) {
    match f
    case Donor(size) => b.used && b.free && b.size >= size
    case UnusedSlot => !b.used
    case Last => b.used && b.next == -1
  }

  /**
   * stored holds what the filters took from the first n blocks: each filter the first block that it
   * accepts and no earlier filter took, or -1.
   */
  ghost predicate Scanned(filters: seq<Filter>, t: seq<Block>, n: nat, stored: seq<int>) {
    && |stored| == |filters| && n <= |t|
    && (forall k :: 0 <= k < |stored| && stored[k] != -1 ==> 0 <= stored[k] < n && Accepts(filters[k], t[stored[k]]))
    && (forall j, k :: 0 <= j < k < |stored| && stored[j] != -1 ==> stored[j] != stored[k])
    && (forall k, i :: 0 <= k < |stored| && 0 <= i < n && Accepts(filters[k], t[i]) ==>
          (0 <= stored[k] <= i) || Stored(stored, i))
  }

  ghost predicate Stored(stored: seq<int>, i: int) {
    exists k :: 0 <= k < |stored| && stored[k] == i
  }

  lemma ScanBegin(filters: seq<Filter>, t: seq<Block>)
    ensures Scanned(filters, t, 0, seq(|filters|, _ => -1)) && Found(seq(|filters|, _ => -1)) == {}
  {
  }

  lemma ScanStore(filters: seq<Filter>, t: seq<Block>, n: nat, stored: seq<int>, k: nat)
    requires Scanned(filters, t, n, stored) && n < |t| && k < |stored|
    requires stored[k] == -1 && Accepts(filters[k], t[n])
    ensures Scanned(filters, t, n + 1, stored[k := n]) && |Found(stored[k := n])| == |Found(stored)| + 1
  {
    var s := stored[k := n];
    assert s[k] == n;
    assert Found(s) == Found(stored) + {k};
    forall i | Stored(stored, i) && i != -1 ensures Stored(s, i) {
      var j :| 0 <= j < |stored| && stored[j] == i;
      assert s[j] == i;
    }
  }

  lemma ScanSkip(filters: seq<Filter>, t: seq<Block>, n: nat, stored: seq<int>)
    requires Scanned(filters, t, n, stored) && n < |t|
    requires forall k :: 0 <= k < |stored| ==> !(stored[k] == -1 && Accepts(filters[k], t[n]))
    ensures Scanned(filters, t, n + 1, stored)
  {
  }

  lemma ScanRest(filters: seq<Filter>, t: seq<Block>, n: nat, stored: seq<int>)
    requires Scanned(filters, t, n, stored) && forall k :: 0 <= k < |stored| ==> stored[k] != -1
    ensures Scanned(filters, t, |t|, stored)
  {
  }

  ghost function Found(stored: seq<int>): set<nat> {
    set k | 0 <= k < |stored| && stored[k] != -1
  }

  lemma FoundAll(stored: seq<int>)
    ensures |Found(stored)| == |stored| <==> forall k :: 0 <= k < |stored| ==> stored[k] != -1
  {
    FullSet(|stored|, Found(stored));
    if |Found(stored)| == |stored| {
      forall k: nat | k < |stored| ensures stored[k] != -1 {
        assert k in Found(stored);
      }
    }
  }

  lemma {:induction false} FullSet(n: nat, s: set<nat>)
    requires forall k :: k in s ==> k < n
    ensures |s| <= n && (|s| == n <==> forall k: nat :: k < n ==> k in s)
  {
    if n == 0 {
      assert s == {};
    } else {
      FullSet(n - 1, s - {n - 1});
      if n - 1 in s {
        assert s == (s - {n - 1}) + {n - 1};
      } else {
        assert s == s - {n - 1};
      }
    }
  }
}
