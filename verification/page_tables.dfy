/** The three-level table as a tree of frames, and the page map it stands for. */
module PageTables {
  import opened Options
  import opened Paging

  /** What a frame is used for. */
  datatype Role = Top | Pdpt(i: Index) | Pdt(i: Index, j: Index)

  /** A 2 MB virtual page, named by its three table indices. */
  datatype Page = Page(i: Index, j: Index, k: Index)

  function PageOf(v: Virtual): Page { Page(Pml4Index(v), PdptIndex(v), PdtIndex(v)) }

  /** An address outside the recursive slot. */
  predicate Ordinary(v: Virtual) { Pml4Index(v) != RECURSIVE }

  /** Slots of an upper and a lower table, outside the recursive slot. */
  predicate Slots(i: Index, j: Index) { i != RECURSIVE && IsIndex(i) && IsIndex(j) }

  /** The indices of a page outside the recursive slot. */
  predicate InTables(p: Page) { Slots(p.i, p.j) && IsIndex(p.k) }

  predicate HasPdpt(m: Memory, root: Frame, i: Index) { IsPresent(Entry(m, root, i)) }
  function PdptFrame(m: Memory, root: Frame, i: Index): Frame { FrameOf(Entry(m, root, i)) }

  function PdptEntry(m: Memory, root: Frame, i: Index, j: Index): Pte { Entry(m, PdptFrame(m, root, i), j) }

  predicate HasPdt(m: Memory, root: Frame, i: Index, j: Index) {
    HasPdpt(m, root, i) && IsPresent(PdptEntry(m, root, i, j))
  }
  function PdtFrame(m: Memory, root: Frame, i: Index, j: Index): Frame { FrameOf(PdptEntry(m, root, i, j)) }

  function PdtEntry(m: Memory, root: Frame, i: Index, j: Index, k: Index): Pte {
    Entry(m, PdtFrame(m, root, i, j), k)
  }

  /** The present directory entry that an address leads to. */
  function Leaf(m: Memory, root: Frame, v: Virtual): Option<Pte> {
    var i, j, k := Pml4Index(v), PdptIndex(v), PdtIndex(v);
    if HasPdt(m, root, i, j) && IsPresent(PdtEntry(m, root, i, j, k)) then Some(PdtEntry(m, root, i, j, k)) else None
  }

  /** What amd64_vmem_virtual_to_physical computes, read straight off the tables. */
  function Translate(m: Memory, root: Frame, v: Virtual): Option<bv64> {
    match Leaf(m, root, v)
    case None => None
    case Some(e) => Some(Within(PageBase(e), v))
  }

  /** The tables form a tree below root: every table frame has one role, every entry names a table to write below. */
  ghost predicate Tree(m: Memory, root: Frame, roles: map<Frame, Role>) {
    && Recursive(m, root) && root in roles && roles[root] == Top
    && (forall i {:trigger HasPdpt(m, root, i)} :: i != RECURSIVE && IsIndex(i) && HasPdpt(m, root, i) ==>
          && !IsLarge(Entry(m, root, i)) && IsWritable(Entry(m, root, i))
          && PdptFrame(m, root, i) in roles && roles[PdptFrame(m, root, i)] == Pdpt(i))
    && (forall i, j {:trigger HasPdt(m, root, i, j)} ::
          i != RECURSIVE && IsIndex(i) && IsIndex(j) && HasPdt(m, root, i, j) ==>
          && !IsLarge(PdptEntry(m, root, i, j)) && IsWritable(PdptEntry(m, root, i, j))
          && PdtFrame(m, root, i, j) in roles && roles[PdtFrame(m, root, i, j)] == Pdt(i, j))
  }

  function Lookup(pages: map<Page, bv64>, v: Virtual): Option<bv64> {
    if PageOf(v) in pages then Some(Within(pages[PageOf(v)], v)) else None
  }

  /** The tables translate by large pages exactly as the page map says, outside the recursive slot. */
  ghost predicate Represents(m: Memory, root: Frame, pages: map<Page, bv64>) {
    forall v {:trigger Translate(m, root, v)} {:trigger Leaf(m, root, v)} :: Ordinary(v) ==>
      Agrees(Leaf(m, root, v), pages, PageOf(v))
  }

  ghost predicate Agrees(leaf: Option<Pte>, pages: map<Page, bv64>, p: Page) {
    match leaf
    case None => p !in pages
    case Some(e) => p in pages && IsLarge(e) && IsWritable(e) && PageBase(e) == pages[p]
  }

  /**
   * The processor agrees: its walk takes every ordinary address to the byte the page map names, and
   * faults where the page map has no page. (Entries keep their upper twelve bits for flags.)
   */
  lemma HardwareAgrees(m: Memory, root: Frame, roles: map<Frame, Role>, pages: map<Page, bv64>, v: Virtual)
    requires Tree(m, root, roles) && Represents(m, root, pages) && Ordinary(v)
    requires PageOf(v) in pages ==> pages[PageOf(v)] & 0xFFF0_0000_0000_0000 == 0
    ensures match Walk(m, root, v)
      case None => PageOf(v) !in pages
      case Some(p) => PageOf(v) in pages && p.Address() == Within(pages[PageOf(v)], v)
  {
    IndexRange(v);
    var leaf := Leaf(m, root, v);
    if leaf.Some? {
      LargeAddress(leaf.value, v);
    }
    hide Pml4Index, PdptIndex, PdtIndex, PtIndex, IsPresent, IsWritable, IsLarge, FrameOf, Read, PageBase, Within,
      Entry, IsIndex, Physical.Address;
    if HasPdpt(m, root, Pml4Index(v)) {
      assert HasPdt(m, root, Pml4Index(v), PdptIndex(v)) ==> !IsLarge(PdptEntry(m, root, Pml4Index(v), PdptIndex(v)));
    }
  }

  lemma RepresentsTranslates(m: Memory, root: Frame, pages: map<Page, bv64>, v: Virtual)
    requires Represents(m, root, pages) && Ordinary(v)
    ensures Translate(m, root, v) == Lookup(pages, v)
  {
    hide Leaf, Ordinary, Within, PageBase;
    assert Agrees(Leaf(m, root, v), pages, PageOf(v));
  }

  /** A mapped page translates every one of its bytes to the byte at the same offset of its frame. */
  lemma {:induction false} WholePageTranslates(pages: map<Page, bv64>, vaddr: bv64, off: bv64)
    requires Aligned2Mb(vaddr) && off < 0x20_0000 && PageOf(Virtual(vaddr)) in pages
    ensures Lookup(pages, Virtual(vaddr + off)) == Some(pages[PageOf(Virtual(vaddr))] + off)
  {
    OffsetStays(vaddr, off);
    hide Pml4Index, PdptIndex, PdtIndex, Within, Aligned2Mb;
  }

  /** n is m except that the first entries of frame f read as zero. */
  ghost predicate Zeroed(m: Memory, n: Memory, f: Frame, upTo: bv64) {
    forall w: Word {:trigger Read(n, w)} ::
      Read(n, w) == if w.frame == f && Below(w.index.value, upTo) then Pte(0) else Read(m, w)
  }

  predicate Below(x: bv64, k: bv64) { x < k }

  lemma BelowNext(x: bv64, k: bv64)
    requires k < 512
    ensures Below(x, k + 1) <==> Below(x, k) || x == k
  {
  }

  lemma ZeroOneMore(m: Memory, n: Memory, f: Frame, k: bv64, k': bv64)
    requires Zeroed(m, n, f, k) && k < 512 && k' == k + 1
    ensures Zeroed(m, n[Word(f, Index(k)) := Pte(0)], f, k')
  {
    hide Below;
    var n' := n[Word(f, Index(k)) := Pte(0)];
    forall w: Word
      ensures Read(n', w) == if w.frame == f && Below(w.index.value, k') then Pte(0) else Read(m, w)
    {
      BelowNext(w.index.value, k);
      assert Read(n, w) == if w.frame == f && Below(w.index.value, k) then Pte(0) else Read(m, w);
      if w.frame == f && w.index.value == k {
        assert w == Word(f, Index(k));
      } else {
        assert Read(n', w) == Read(n, w);
      }
    }
  }

  lemma IndexRange(v: Virtual)
    ensures IsIndex(Pml4Index(v)) && IsIndex(PdptIndex(v)) && IsIndex(PdtIndex(v))
  {
  }

  // ----- the rewrites of amd64_vmem_map_2mb and amd64_vmem_unmap_2mb -----

  /** Every ordinary address translates in n as it does in m. */
  ghost predicate TranslatesAlike(m: Memory, n: Memory, root: Frame) {
    forall v {:trigger Leaf(n, root, v)} :: Ordinary(v) ==> Leaf(n, root, v) == Leaf(m, root, v)
  }

  lemma AlikeRepresents(m: Memory, n: Memory, root: Frame, pages: map<Page, bv64>)
    requires Represents(m, root, pages) && TranslatesAlike(m, n, root)
    ensures Represents(n, root, pages)
  {
    hide Leaf, Ordinary, Agrees;
    forall v | Ordinary(v) ensures Agrees(Leaf(n, root, v), pages, PageOf(v)) {
      assert Leaf(n, root, v) == Leaf(m, root, v);
    }
  }

  /** n is m with a new, zeroed table in frame f, named by entry x of table t. */
  ghost predicate Hung(m: Memory, t: Frame, x: Index, f: Frame, n: Memory) {
    f != t && exists e {:trigger Names(e, f)} :: Names(e, f) && Zeroed(m[Word(t, x) := e], n, f, 512)
  }

  lemma HungEntries(m: Memory, t: Frame, x: Index, f: Frame, n: Memory)
    requires Hung(m, t, x, f, n)
    ensures Names(Entry(n, t, x), f)
    ensures forall y {:trigger Entry(n, f, y)} :: IsIndex(y) ==> !IsPresent(Entry(n, f, y))
    ensures forall u, y {:trigger Entry(n, u, y)} :: u != f && !(u == t && y == x) ==> Entry(n, u, y) == Entry(m, u, y)
  {
    var e :| Names(e, f) && Zeroed(m[Word(t, x) := e], n, f, 512);
    hide Names, IsPresent;
    ZeroIsAbsent();
  }

  /** Entry x of table t is where the mapper puts a new table: a missing second-level table or page directory. */
  ghost predicate Vacant(m: Memory, root: Frame, t: Frame, x: Index) {
    && IsIndex(x)
    && (|| (t == root && x != RECURSIVE && !HasPdpt(m, root, x))
        || exists i {:trigger HasPdpt(m, root, i)} :: i != RECURSIVE && IsIndex(i) && HasPdpt(m, root, i)
             && t == PdptFrame(m, root, i) && !HasPdt(m, root, i, x))
  }

  /** The way to v's directory entry leads through table frame f. */
  predicate Through(m: Memory, root: Frame, f: Frame, v: Virtual) {
    var i, j := Pml4Index(v), PdptIndex(v);
    HasPdpt(m, root, i) && (PdptFrame(m, root, i) == f || (HasPdt(m, root, i, j) && PdtFrame(m, root, i, j) == f))
  }

  /** What led through table frame f is gone; every other ordinary address leads where it led. */
  ghost predicate Replaced(m: Memory, n: Memory, root: Frame, f: Frame) {
    forall v {:trigger Leaf(n, root, v)} :: Ordinary(v) ==>
      Leaf(n, root, v) == if Through(m, root, f, v) then None else Leaf(m, root, v)
  }

  /** Whatever frame other than the top table is hung: what led through it is gone, and all else is as it was. */
  lemma HangEffect(m: Memory, root: Frame, roles: map<Frame, Role>, t: Frame, x: Index, f: Frame, n: Memory, v: Virtual)
    requires Tree(m, root, roles) && Vacant(m, root, t, x) && f != root && Hung(m, t, x, f, n) && Ordinary(v)
    ensures Leaf(n, root, v) == if Through(m, root, f, v) then None else Leaf(m, root, v)
  {
    hide IsPresent, IsWritable, IsLarge, FrameOf, IsIndex, Hung, Read, Entry, Pml4Index, PdptIndex, PdtIndex, Vacant;
    IndexRange(v);
    HungEntries(m, t, x, f, n);
    VacantRole(m, root, roles, t, x);
    var a, b, k := Pml4Index(v), PdptIndex(v), PdtIndex(v);
    if !(t == root && x == a) && HasPdpt(m, root, a) && PdptFrame(m, root, a) != f {
      var p := PdptFrame(m, root, a);
      assert p in roles && roles[p] == Pdpt(a);
      if !(t == p && x == b) && HasPdt(m, root, a, b) && PdtFrame(m, root, a, b) != f {
        assert roles[PdtFrame(m, root, a, b)] == Pdt(a, b);
      }
    }
  }

  lemma HangReplaces(m: Memory, root: Frame, roles: map<Frame, Role>, t: Frame, x: Index, f: Frame, n: Memory)
    requires Tree(m, root, roles) && Vacant(m, root, t, x) && f != root && Hung(m, t, x, f, n)
    ensures Replaced(m, n, root, f)
  {
    hide Tree, Vacant, Hung, Through, Ordinary, Leaf;
    forall v | Ordinary(v)
      ensures Leaf(n, root, v) == if Through(m, root, f, v) then None else Leaf(m, root, v)
    {
      HangEffect(m, root, roles, t, x, f, n, v);
    }
  }

  /** The table around a vacant entry plays its own role, and the entry is absent. */
  lemma VacantRole(m: Memory, root: Frame, roles: map<Frame, Role>, t: Frame, x: Index)
    requires Tree(m, root, roles) && Vacant(m, root, t, x)
    ensures t in roles && (roles[t] == Top || roles[t].Pdpt?) && (t == root <==> roles[t] == Top)
    ensures !IsPresent(Entry(m, t, x))
  {
    hide IsPresent, IsWritable, IsLarge, FrameOf, IsIndex, Read, Entry;
  }

  /** Some page is mapped through table frame f. */
  ghost predicate Carries(m: Memory, root: Frame, f: Frame) {
    exists v {:trigger Through(m, root, f, v)} :: Ordinary(v) && Through(m, root, f, v) && Leaf(m, root, v).Some?
  }

  /**
   * Hanging a frame as a new table leaves every mapping as it was if and only if no page is mapped
   * through that frame, whatever table it was before.
   */
  lemma MappingsSurviveExactly(
    m: Memory, root: Frame, roles: map<Frame, Role>, t: Frame, x: Index, f: Frame, n: Memory)
    requires Tree(m, root, roles) && Vacant(m, root, t, x) && f != root && Hung(m, t, x, f, n)
    ensures TranslatesAlike(m, n, root) <==> !Carries(m, root, f)
  {
    hide Tree, Vacant, Hung, Through, Ordinary, Leaf;
    HangReplaces(m, root, roles, t, x, f, n);
    if Carries(m, root, f) {
      var v :| Ordinary(v) && Through(m, root, f, v) && Leaf(m, root, v).Some?;
      assert Leaf(n, root, v) != Leaf(m, root, v);
    }
  }

  /** A frame that no table uses carries nothing. */
  lemma FreshCarriesNothing(m: Memory, root: Frame, roles: map<Frame, Role>, f: Frame)
    requires Tree(m, root, roles) && f !in roles
    ensures !Carries(m, root, f)
  {
    hide IsPresent, IsWritable, IsLarge, FrameOf, IsIndex, Read, Entry, Pml4Index, PdptIndex, PdtIndex;
    forall v | Ordinary(v) ensures !Through(m, root, f, v) {
      IndexRange(v);
      assert HasPdpt(m, root, Pml4Index(v)) ==> PdptFrame(m, root, Pml4Index(v)) in roles;
    }
  }

  /** The top table after frame f was written to its slot i and cleared. */
  lemma PdptHung(m: Memory, stored: Memory, root: Frame, roles: map<Frame, Role>, i: Index, f: Frame, n: Memory)
    requires Tree(m, root, roles) && i != RECURSIVE && IsIndex(i) && !HasPdpt(m, root, i) && IsFrame(f) && f != root
    requires stored == m[Word(root, i) := TableEntry(f)] && Zeroed(stored, n, f, 512)
    ensures Hung(m, root, i, f, n) && Recursive(n, root) && HasPdpt(n, root, i) && !IsLarge(Entry(n, root, i))
    ensures PdptFrame(n, root, i) == f && Replaced(m, n, root, f)
    ensures forall j {:trigger PdptEntry(n, root, i, j)} :: IsIndex(j) ==> !IsPresent(PdptEntry(n, root, i, j))
  {
    hide IsPresent, IsWritable, IsLarge, FrameOf, IsIndex, TableEntry, Zeroed, Replaced;
    TableEntryNames(f);
    assert Hung(m, root, i, f, n);
    HungEntries(m, root, i, f, n);
    HangReplaces(m, root, roles, root, i, f, n);
    assert Entry(n, root, RECURSIVE) == Entry(m, root, RECURSIVE);
  }

  /** Hanging a fresh, zeroed PDPT under slot i. */
  lemma AddPdpt(m: Memory, root: Frame, roles: map<Frame, Role>, i: Index, f: Frame, n: Memory)
    requires Tree(m, root, roles) && i != RECURSIVE && IsIndex(i) && !HasPdpt(m, root, i)
    requires f !in roles && Hung(m, root, i, f, n)
    ensures Tree(n, root, roles[f := Pdpt(i)])
    ensures HasPdpt(n, root, i) && PdptFrame(n, root, i) == f
  {
    hide IsPresent, IsWritable, IsLarge, FrameOf, IsIndex, Hung, Read, Entry;
    HungEntries(m, root, i, f, n);
    forall a | a != RECURSIVE && IsIndex(a) && a != i && HasPdpt(n, root, a) ensures HasPdpt(m, root, a) {
    }
    forall a, b | a != RECURSIVE && IsIndex(a) && IsIndex(b) && HasPdt(n, root, a, b)
      ensures a != i && HasPdt(m, root, a, b)
    {
      assert a != i ==> HasPdpt(m, root, a);
    }
  }

  lemma AddPdptTranslates(m: Memory, root: Frame, roles: map<Frame, Role>, i: Index, f: Frame, n: Memory)
    requires Tree(m, root, roles) && i != RECURSIVE && IsIndex(i) && !HasPdpt(m, root, i)
    requires f !in roles && Hung(m, root, i, f, n)
    ensures TranslatesAlike(m, n, root)
  {
    FreshCarriesNothing(m, root, roles, f);
    MappingsSurviveExactly(m, root, roles, root, i, f, n);
  }

  /** Hanging a fresh, zeroed page directory under slot j of table i. */
  lemma AddPdt(m: Memory, root: Frame, roles: map<Frame, Role>, i: Index, j: Index, f: Frame, n: Memory)
    requires Tree(m, root, roles) && i != RECURSIVE && IsIndex(i) && IsIndex(j)
    requires HasPdpt(m, root, i) && !HasPdt(m, root, i, j)
    requires f !in roles && Hung(m, PdptFrame(m, root, i), j, f, n)
    ensures Tree(n, root, roles[f := Pdt(i, j)])
    ensures HasPdt(n, root, i, j) && PdtFrame(n, root, i, j) == f && Entry(n, root, i) == Entry(m, root, i)
  {
    hide IsPresent, IsWritable, IsLarge, FrameOf, IsIndex, Hung, Read, Entry;
    HungEntries(m, PdptFrame(m, root, i), j, f, n);
    forall a | a != RECURSIVE && IsIndex(a) && HasPdpt(n, root, a)
      ensures HasPdpt(m, root, a) && Entry(n, root, a) == Entry(m, root, a)
    {
    }
    forall a, b | a != RECURSIVE && IsIndex(a) && IsIndex(b) && HasPdt(n, root, a, b) && !(a == i && b == j)
      ensures HasPdt(m, root, a, b)
    {
      assert HasPdpt(m, root, a);
    }
  }

  /** A second-level table after frame f was written to its slot j and cleared. */
  lemma PdtHung(
    m: Memory, stored: Memory, root: Frame, roles: map<Frame, Role>, i: Index, j: Index, f: Frame, n: Memory)
    requires Tree(m, root, roles) && i != RECURSIVE && IsIndex(i) && IsIndex(j) && IsFrame(f) && f != root
    requires HasPdpt(m, root, i) && !HasPdt(m, root, i, j) && f != PdptFrame(m, root, i)
    requires stored == m[Word(PdptFrame(m, root, i), j) := TableEntry(f)] && Zeroed(stored, n, f, 512)
    ensures Hung(m, PdptFrame(m, root, i), j, f, n) && Replaced(m, n, root, f)
  {
    hide IsPresent, IsWritable, IsLarge, FrameOf, IsIndex, TableEntry, Zeroed, Replaced;
    TableEntryNames(f);
    assert Hung(m, PdptFrame(m, root, i), j, f, n);
    HangReplaces(m, root, roles, PdptFrame(m, root, i), j, f, n);
  }

  /** Clearing second-level table t clears the entry in it, and leaves the way to t. */
  lemma SelfCleared(m: Memory, root: Frame, i: Index, j: Index, t: Frame, n: Memory)
    requires Recursive(m, root) && IsIndex(i) && IsIndex(j) && t != root && PdptFrame(m, root, i) == t
    requires Zeroed(m, n, t, 512)
    ensures Recursive(n, root) && Entry(n, root, i) == Entry(m, root, i) && !IsPresent(PdptEntry(n, root, i, j))
  {
    hide IsPresent, IsWritable, IsLarge, FrameOf;
    ZeroIsAbsent();
    assert Entry(n, root, i) == Entry(m, root, i) && Entry(n, root, RECURSIVE) == Entry(m, root, RECURSIVE);
    assert Entry(n, t, j) == Pte(0);
  }

  lemma AddPdtTranslates(m: Memory, root: Frame, roles: map<Frame, Role>, i: Index, j: Index, f: Frame, n: Memory)
    requires Tree(m, root, roles) && i != RECURSIVE && IsIndex(i) && IsIndex(j)
    requires HasPdpt(m, root, i) && !HasPdt(m, root, i, j)
    requires f !in roles && Hung(m, PdptFrame(m, root, i), j, f, n)
    ensures TranslatesAlike(m, n, root)
  {
    hide IsPresent, IsWritable, IsLarge, FrameOf, IsIndex, Read, Entry, Carries, TranslatesAlike;
    FreshCarriesNothing(m, root, roles, f);
    MappingsSurviveExactly(m, root, roles, PdptFrame(m, root, i), j, f, n);
  }

  /** User code may reach the page directory: both entries on the way say so. */
  ghost predicate UserPath(m: Memory, root: Frame, i: Index, j: Index) {
    IsUser(Entry(m, root, i)) && IsUser(PdptEntry(m, root, i, j))
  }

  /** n has the same table frames as m, and every upper entry of n is as present and as large as in m. */
  ghost predicate SameShape(m: Memory, n: Memory, root: Frame) {
    && Recursive(n, root)
    && (forall a {:trigger HasPdpt(n, root, a)} :: a != RECURSIVE && IsIndex(a) ==>
          && HasPdpt(n, root, a) == HasPdpt(m, root, a) && PdptFrame(n, root, a) == PdptFrame(m, root, a)
          && IsLarge(Entry(n, root, a)) == IsLarge(Entry(m, root, a))
          && IsWritable(Entry(n, root, a)) == IsWritable(Entry(m, root, a)))
    && (forall a, b {:trigger HasPdt(n, root, a, b)} :: a != RECURSIVE && IsIndex(a) && IsIndex(b) ==>
          && HasPdt(n, root, a, b) == HasPdt(m, root, a, b)
          && (HasPdt(m, root, a, b) ==>
                && PdtFrame(n, root, a, b) == PdtFrame(m, root, a, b)
                && IsLarge(PdptEntry(n, root, a, b)) == IsLarge(PdptEntry(m, root, a, b))
                && IsWritable(PdptEntry(n, root, a, b)) == IsWritable(PdptEntry(m, root, a, b))))
  }

  lemma SameShapeTree(m: Memory, n: Memory, root: Frame, roles: map<Frame, Role>)
    requires Tree(m, root, roles) && SameShape(m, n, root)
    ensures Tree(n, root, roles)
  {
    hide IsPresent, IsWritable, IsLarge, FrameOf, IsIndex, Read, Entry;
  }

  lemma UserEntries(m: Memory, root: Frame, i: Index, t: Frame, j: Index, n: Memory)
    requires t != root
    requires n == m[Word(t, j) := WithUser(Entry(m, t, j))][Word(root, i) := WithUser(Entry(m, root, i))]
    ensures forall u, y {:trigger Entry(n, u, y)} ::
      Entry(n, u, y) == if (u == root && y == i) || (u == t && y == j) then WithUser(Entry(m, u, y)) else Entry(m, u, y)
  {
    hide WithUser;
  }

  /** Setting the user bit in the two upper entries. */
  lemma SetUser(m: Memory, root: Frame, roles: map<Frame, Role>, i: Index, j: Index, n: Memory)
    requires Tree(m, root, roles) && i != RECURSIVE && IsIndex(i) && IsIndex(j) && HasPdt(m, root, i, j)
    requires n == m[Word(PdptFrame(m, root, i), j) := WithUser(PdptEntry(m, root, i, j))]
                   [Word(root, i) := WithUser(Entry(m, root, i))]
    ensures SameShape(m, n, root) && HasPdt(n, root, i, j) && UserPath(n, root, i, j)
    ensures forall a, b, k :: a != RECURSIVE && IsIndex(a) && IsIndex(b) && HasPdt(m, root, a, b) ==>
      PdtEntry(n, root, a, b, k) == PdtEntry(m, root, a, b, k)
  {
    hide IsPresent, IsWritable, IsLarge, FrameOf, WithUser, IsIndex, Read, Entry;
    var t := PdptFrame(m, root, i);
    WithUserNames(Entry(m, root, i));
    WithUserNames(PdptEntry(m, root, i, j));
    assert HasPdpt(m, root, i);
    UserEntries(m, root, i, t, j, n);
    forall a | a != RECURSIVE && IsIndex(a)
      ensures HasPdpt(n, root, a) == HasPdpt(m, root, a) && PdptFrame(n, root, a) == PdptFrame(m, root, a)
      ensures IsLarge(Entry(n, root, a)) == IsLarge(Entry(m, root, a))
      ensures IsWritable(Entry(n, root, a)) == IsWritable(Entry(m, root, a))
    {
    }
    forall a, b | a != RECURSIVE && IsIndex(a) && IsIndex(b) && HasPdpt(m, root, a)
      ensures HasPdt(n, root, a, b) == HasPdt(m, root, a, b) && PdtFrame(n, root, a, b) == PdtFrame(m, root, a, b)
      ensures IsLarge(PdptEntry(n, root, a, b)) == IsLarge(PdptEntry(m, root, a, b))
      ensures IsWritable(PdptEntry(n, root, a, b)) == IsWritable(PdptEntry(m, root, a, b))
    {
    }
  }

  lemma SameShapeTranslates(m: Memory, n: Memory, root: Frame)
    requires SameShape(m, n, root)
    requires forall a, b, k :: a != RECURSIVE && IsIndex(a) && IsIndex(b) && HasPdt(m, root, a, b) ==>
      PdtEntry(n, root, a, b, k) == PdtEntry(m, root, a, b, k)
    ensures TranslatesAlike(m, n, root)
  {
    hide IsPresent, IsWritable, IsLarge, FrameOf, IsIndex, Read, Entry, Pml4Index, PdptIndex, PdtIndex, PageBase,
      Within;
    forall v | Ordinary(v) ensures Leaf(n, root, v) == Leaf(m, root, v) {
      IndexRange(v);
      assert HasPdt(n, root, Pml4Index(v), PdptIndex(v)) == HasPdt(m, root, Pml4Index(v), PdptIndex(v));
    }
  }

  lemma UserKeeps(
    m: Memory, root: Frame, roles: map<Frame, Role>, pages: map<Page, bv64>, i: Index, j: Index, n: Memory)
    requires Tree(m, root, roles) && Represents(m, root, pages) && Slots(i, j) && HasPdt(m, root, i, j)
    requires n == m[Word(PdptFrame(m, root, i), j) := WithUser(PdptEntry(m, root, i, j))]
                   [Word(root, i) := WithUser(Entry(m, root, i))]
    ensures Tree(n, root, roles) && Represents(n, root, pages) && HasPdt(n, root, i, j) && UserPath(n, root, i, j)
    ensures TranslatesAlike(m, n, root)
  {
    hide IsPresent, IsWritable, IsLarge, FrameOf, IsIndex, Read, Entry, WithUser, TranslatesAlike, Represents,
      SameShape, UserPath;
    SetUser(m, root, roles, i, j, n);
    SameShapeTree(m, n, root, roles);
    SameShapeTranslates(m, n, root);
    AlikeRepresents(m, n, root, pages);
  }

  /** Below any table apart from the top one, the user bits change neither the way nor what is present. */
  lemma UserWalkable(m: Memory, root: Frame, i: Index, j: Index, n: Memory)
    requires Recursive(m, root) && i != RECURSIVE && PdptFrame(m, root, i) != root
    requires n == m[Word(PdptFrame(m, root, i), j) := WithUser(PdptEntry(m, root, i, j))]
                   [Word(root, i) := WithUser(Entry(m, root, i))]
    ensures Recursive(n, root) && PdptFrame(n, root, i) == PdptFrame(m, root, i)
    ensures HasPdpt(n, root, i) == HasPdpt(m, root, i) && HasPdt(n, root, i, j) == HasPdt(m, root, i, j)
    ensures IsLarge(Entry(n, root, i)) == IsLarge(Entry(m, root, i))
  {
    hide IsPresent, IsWritable, IsLarge, FrameOf, WithUser;
    WithUserNames(Entry(m, root, i));
    WithUserNames(PdptEntry(m, root, i, j));
    UserEntries(m, root, i, PdptFrame(m, root, i), j, n);
  }

  /** The page map after entry e was stored for page p. */
  function AfterStore(pages: map<Page, bv64>, p: Page, e: Pte): map<Page, bv64> {
    if IsPresent(e) then pages[p := PageBase(e)] else pages - {p}
  }

  /** Storing entry e for page p in its page directory. */
  lemma SetPage(m: Memory, root: Frame, roles: map<Frame, Role>, p: Page, e: Pte, n: Memory)
    requires Tree(m, root, roles)
    requires p.i != RECURSIVE && IsIndex(p.i) && IsIndex(p.j) && HasPdt(m, root, p.i, p.j)
    requires n == m[Word(PdtFrame(m, root, p.i, p.j), p.k) := e]
    ensures SameShape(m, n, root) && Entry(n, root, p.i) == Entry(m, root, p.i)
    ensures PdptEntry(n, root, p.i, p.j) == PdptEntry(m, root, p.i, p.j) && PdtEntry(n, root, p.i, p.j, p.k) == e
    ensures forall a, b, k :: a != RECURSIVE && IsIndex(a) && IsIndex(b) && HasPdt(m, root, a, b) ==>
      PdtEntry(n, root, a, b, k) == if Page(a, b, k) == p then e else PdtEntry(m, root, a, b, k)
  {
    var t := PdtFrame(m, root, p.i, p.j);
    assert HasPdpt(m, root, p.i);
    assert Entry(n, t, p.k) == e;
    assert forall u, y {:trigger Entry(n, u, y)} :: !(u == t && y == p.k) ==> Entry(n, u, y) == Entry(m, u, y);
    hide IsPresent, IsWritable, IsLarge, FrameOf, IsIndex, Read, Entry;
    forall a | a != RECURSIVE && IsIndex(a)
      ensures Entry(n, root, a) == Entry(m, root, a) && HasPdpt(n, root, a) == HasPdpt(m, root, a)
    {
    }
    forall a, b | a != RECURSIVE && IsIndex(a) && IsIndex(b)
      ensures HasPdt(n, root, a, b) == HasPdt(m, root, a, b)
      ensures HasPdt(m, root, a, b) ==> PdptEntry(n, root, a, b) == PdptEntry(m, root, a, b)
    {
      assert HasPdpt(m, root, a) == HasPdpt(n, root, a);
    }
  }

  /** It changes the translation of that page and of no other. */
  lemma SetPageRepresents(m: Memory, root: Frame, pages: map<Page, bv64>, p: Page, e: Pte, n: Memory)
    requires Represents(m, root, pages) && SameShape(m, n, root) && (IsPresent(e) ==> IsLarge(e) && IsWritable(e))
    requires p.i != RECURSIVE && IsIndex(p.i) && IsIndex(p.j) && HasPdt(m, root, p.i, p.j)
    requires forall a, b, k :: a != RECURSIVE && IsIndex(a) && IsIndex(b) && HasPdt(m, root, a, b) ==>
      PdtEntry(n, root, a, b, k) == if Page(a, b, k) == p then e else PdtEntry(m, root, a, b, k)
    ensures Represents(n, root, AfterStore(pages, p, e))
  {
    hide IsPresent, IsWritable, IsLarge, FrameOf, IsIndex, Read, Entry, Pml4Index, PdptIndex, PdtIndex, PageBase,
      Within;
    forall v | Ordinary(v)
      ensures Agrees(Leaf(n, root, v), AfterStore(pages, p, e), PageOf(v))
    {
      IndexRange(v);
      var a, b := Pml4Index(v), PdptIndex(v);
      assert HasPdt(n, root, a, b) == HasPdt(m, root, a, b);
      assert Agrees(Leaf(m, root, v), pages, PageOf(v));
    }
  }
}
