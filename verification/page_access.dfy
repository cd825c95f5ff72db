/** Who may do what with a mapped page: the flags along the way to it, as the processor combines them. */
module PageAccess {
  import opened Options
  import opened Paging
  import opened PageTables

  /** User code reaches exactly the pages in users: their entry says so, and with it the two above. */
  ghost predicate Guards(m: Memory, root: Frame, users: set<Page>) {
    forall v {:trigger Leaf(m, root, v)} :: Ordinary(v) ==>
      Guarded(Leaf(m, root, v), UserWay(m, root, v), PageOf(v) in users)
  }

  ghost predicate Guarded(leaf: Option<Pte>, way: bool, user: bool) {
    match leaf
    case None => !user
    case Some(e) => (IsUser(e) <==> user) && (user ==> way)
  }

  /** Both entries above v's page directory are open to user code. */
  ghost predicate UserWay(m: Memory, root: Frame, v: Virtual) {
    UserPath(m, root, Pml4Index(v), PdptIndex(v))
  }

  /** Whatever is mapped in m and open to user code above its page directory is so in n. */
  ghost predicate WaysKept(m: Memory, n: Memory, root: Frame) {
    forall v {:trigger Leaf(n, root, v)} :: Ordinary(v) && Leaf(m, root, v).Some? && UserWay(m, root, v) ==>
      UserWay(n, root, v)
  }

  lemma AlikeGuards(m: Memory, n: Memory, root: Frame, users: set<Page>)
    requires Guards(m, root, users) && TranslatesAlike(m, n, root) && WaysKept(m, n, root)
    ensures Guards(n, root, users)
  {
    hide Leaf, Ordinary, Guarded, UserWay;
    forall v | Ordinary(v) ensures Guarded(Leaf(n, root, v), UserWay(n, root, v), PageOf(v) in users) {
      assert Leaf(n, root, v) == Leaf(m, root, v);
      OpenWay(Leaf(m, root, v), UserWay(m, root, v), UserWay(n, root, v), PageOf(v) in users);
    }
  }

  lemma OpenWay(leaf: Option<Pte>, before: bool, after: bool, user: bool)
    requires Guarded(leaf, before, user) && (leaf.Some? && before ==> after)
    ensures Guarded(leaf, after, user)
  {
  }

  /** Hanging a fresh table leaves the entries on the way to every mapped page. */
  lemma HangKeepsWays(m: Memory, root: Frame, roles: map<Frame, Role>, t: Frame, x: Index, f: Frame, n: Memory)
    requires Tree(m, root, roles) && Vacant(m, root, t, x) && f !in roles && Hung(m, t, x, f, n)
    ensures WaysKept(m, n, root)
  {
    hide IsPresent, IsWritable, IsLarge, IsUser, FrameOf, IsIndex, Hung, Read, Entry, Pml4Index, PdptIndex, PdtIndex,
      Vacant;
    HungEntries(m, t, x, f, n);
    VacantRole(m, root, roles, t, x);
    forall v | Ordinary(v) && Leaf(m, root, v).Some? && UserWay(m, root, v) ensures UserWay(n, root, v) {
      IndexRange(v);
      var a, b := Pml4Index(v), PdptIndex(v);
      assert HasPdpt(m, root, a) && HasPdt(m, root, a, b);
      assert Entry(n, root, a) == Entry(m, root, a);
      assert PdptEntry(n, root, a, b) == PdptEntry(m, root, a, b);
    }
  }

  /** Setting user bits takes the user bit from no entry. */
  lemma SetUserKeepsWays(m: Memory, root: Frame, roles: map<Frame, Role>, i: Index, j: Index, n: Memory)
    requires Tree(m, root, roles) && Slots(i, j) && HasPdt(m, root, i, j)
    requires n == m[Word(PdptFrame(m, root, i), j) := WithUser(PdptEntry(m, root, i, j))]
                   [Word(root, i) := WithUser(Entry(m, root, i))]
    ensures WaysKept(m, n, root)
  {
    hide IsPresent, IsWritable, IsLarge, FrameOf, IsUser, WithUser, IsIndex, Read, Entry, Pml4Index, PdptIndex,
      PdtIndex;
    var t := PdptFrame(m, root, i);
    WithUserNames(Entry(m, root, i));
    WithUserNames(PdptEntry(m, root, i, j));
    assert HasPdpt(m, root, i);
    UserEntries(m, root, i, t, j, n);
    forall v | Ordinary(v) && Leaf(m, root, v).Some? && UserWay(m, root, v) ensures UserWay(n, root, v) {
      IndexRange(v);
      var a, b := Pml4Index(v), PdptIndex(v);
      assert HasPdpt(m, root, a);
      var u := PdptFrame(m, root, a);
      assert u != root;
      assert Entry(n, root, a) == if a == i then WithUser(Entry(m, root, a)) else Entry(m, root, a);
      assert PdptFrame(n, root, a) == u;
      assert Entry(n, u, b) == if u == t && b == j then WithUser(Entry(m, u, b)) else Entry(m, u, b);
    }
  }

  /** The pages open to user code after entry e was stored for page p. */
  function AfterGuard(users: set<Page>, p: Page, e: Pte): set<Page> {
    if IsPresent(e) && IsUser(e) then users + {p} else users - {p}
  }

  lemma SetPageGuards(m: Memory, root: Frame, roles: map<Frame, Role>, users: set<Page>, p: Page, e: Pte, n: Memory)
    requires Tree(m, root, roles) && Guards(m, root, users) && InTables(p) && HasPdt(m, root, p.i, p.j)
    requires n == m[Word(PdtFrame(m, root, p.i, p.j), p.k) := e]
    requires IsPresent(e) && IsUser(e) ==> UserPath(m, root, p.i, p.j)
    ensures Guards(n, root, AfterGuard(users, p, e))
  {
    SetPage(m, root, roles, p, e, n);
    hide IsPresent, IsWritable, IsLarge, FrameOf, IsUser, IsIndex, Read, Entry, Pml4Index, PdptIndex, PdtIndex;
    var t := PdtFrame(m, root, p.i, p.j);
    assert t in roles && roles[t] == Pdt(p.i, p.j);
    OtherEntries(m, t, p.k, e, n);
    forall v | Ordinary(v)
      ensures Guarded(Leaf(n, root, v), UserWay(n, root, v), PageOf(v) in AfterGuard(users, p, e))
    {
      IndexRange(v);
      var a, b := Pml4Index(v), PdptIndex(v);
      assert Guarded(Leaf(m, root, v), UserWay(m, root, v), PageOf(v) in users);
      assert HasPdt(n, root, a, b) == HasPdt(m, root, a, b);
      assert Entry(n, root, a) == Entry(m, root, a);
      if HasPdpt(m, root, a) {
        assert PdptFrame(m, root, a) in roles && roles[PdptFrame(m, root, a)] == Pdpt(a);
        assert PdptEntry(n, root, a, b) == PdptEntry(m, root, a, b);
      }
    }
  }

  lemma OtherEntries(m: Memory, t: Frame, x: Index, e: Pte, n: Memory)
    requires n == m[Word(t, x) := e]
    ensures forall u, y {:trigger Entry(n, u, y)} :: !(u == t && y == x) ==> Entry(n, u, y) == Entry(m, u, y)
  {
  }

  /**
   * The processor lets every mapped page be written, and lets user code at exactly the pages in users.
   */
  lemma HardwareGuards(
    m: Memory, root: Frame, roles: map<Frame, Role>, pages: map<Page, bv64>, users: set<Page>, v: Virtual)
    requires Tree(m, root, roles) && Represents(m, root, pages) && Guards(m, root, users) && Ordinary(v)
    requires PageOf(v) in pages
    ensures LetsWrite(m, root, v) && (LetsUser(m, root, v) <==> PageOf(v) in users)
  {
    hide IsPresent, IsWritable, IsLarge, IsUser, FrameOf, IsIndex, Read, Entry, Pml4Index, PdptIndex, PdtIndex, PtIndex,
      PageBase;
    IndexRange(v);
    var a, b := Pml4Index(v), PdptIndex(v);
    assert Agrees(Leaf(m, root, v), pages, PageOf(v));
    assert Guarded(Leaf(m, root, v), UserWay(m, root, v), PageOf(v) in users);
    assert HasPdpt(m, root, a) && HasPdt(m, root, a, b);
  }
}
