/** The page-table editor, which reaches every table through the recursive slot. */
module Vmem {
  import opened Options
  import opened Paging
  import opened PageTables
  import opened PageAccess

  class Mmu {
    const root: Frame
    var mem: Memory
    ghost var roles: map<Frame, Role>     // the frames in use as tables
    ghost var pages: map<Page, bv64>      // the mapping the tables stand for
    ghost var users: set<Page>            // the pages that user code may use

    ghost predicate Valid()
      reads this
    {
      Tree(mem, root, roles) && Represents(mem, root, pages) && Guards(mem, root, users)
    }

    /** The top table as boot code leaves it: nothing mapped but the recursive slot. */
    constructor (root: Frame)
      requires IsFrame(root)
      ensures Valid() && this.root == root && pages == map[] && users == {} && roles == map[root := Top]
    {
      this.root := root;
      mem := map[Word(root, RECURSIVE) := TableEntry(root)];
      roles := map[root := Top];
      pages := map[];
      users := {};
      new;
      TableEntryNames(root);
      ZeroIsAbsent();
    }

    // ----- loads and stores go through the hardware walk, which may fault -----

    method Load(v: Virtual) returns (e: Option<Pte>)
      ensures e == match Walk(mem, root, v) case None => None case Some(p) => Some(Read(mem, p.AsWord()))
    {
      match Walk(mem, root, v)
      case None => e := None;
      case Some(p) => e := Some(Read(mem, p.AsWord()));
    }

    method Store(v: Virtual, e: Pte) returns (ok: bool)
      modifies this`mem
      ensures ok <==> Walk(old(mem), root, v).Some?
      ensures mem == if ok then old(mem)[Walk(old(mem), root, v).value.AsWord() := e] else old(mem)
    {
      match Walk(mem, root, v)
      case None =>
        ok := false;
      case Some(p) =>
        mem := mem[p.AsWord() := e];
        ok := true;
    }

    /** Clears the table that slot i names, word by word. */
    method ZeroPdpt(i: Index, ghost f: Frame) returns (ok: bool)
      modifies this`mem
      ensures old(Recursive(mem, root) && IsIndex(i) && Names(Entry(mem, root, i), f) && f != root) ==>
        ok && Zeroed(old(mem), mem, f, 512)
    {
      hide IsPresent, IsWritable, IsLarge, FrameOf, ElementAt, PdptVirt, Walk;
      ghost var good := Recursive(mem, root) && IsIndex(i) && Names(Entry(mem, root, i), f) && f != root;
      var k: bv64 := 0;
      while k < 512
        invariant k <= 512 && (good ==> Zeroed(old(mem), mem, f, k))
        decreases 512 - k
      {
        if good {
          assert Entry(mem, root, i) == Entry(old(mem), root, i);
          assert Entry(mem, root, RECURSIVE) == Entry(old(mem), root, RECURSIVE);
          PdptVirtReaches(mem, root, i, Index(k));
          ZeroOneMore(old(mem), mem, f, k, k + 1);
        }
        ok := Store(ElementAt(PdptVirt(i), Index(k)), Pte(0));
        if !ok {
          return;
        }
        k := k + 1;
      }
      ok := true;
    }

    /** The walk to the page directories of slot i meets a table of its own, apart from the top table. */
    ghost predicate Walkable(i: Index)
      reads this
    {
      && Recursive(mem, root) && i != RECURSIVE && IsIndex(i)
      && HasPdpt(mem, root, i) && !IsLarge(Entry(mem, root, i)) && PdptFrame(mem, root, i) != root
    }

    /**
     * Clears the table that slot j of table i names, word by word. Where that is table i itself, the
     * entry that leads to it is cleared as well.
     */
    method ZeroPdt(i: Index, j: Index, ghost f: Frame) returns (ok: bool)
      modifies this`mem
      ensures old(Walkable(i) && IsIndex(j) && Names(PdptEntry(mem, root, i, j), f) && f != root) ==>
        && (old(PdptFrame(mem, root, i)) != f ==> ok)
        && (ok ==> Zeroed(old(mem), mem, f, 512))
    {
      hide IsPresent, IsWritable, IsLarge, FrameOf, ElementAt, PdtVirt, Walk;
      ghost var good := Walkable(i) && IsIndex(j) && Names(PdptEntry(mem, root, i, j), f) && f != root;
      ghost var t := PdptFrame(mem, root, i);
      var k: bv64 := 0;
      while k < 512
        invariant k <= 512 && (good ==> Zeroed(old(mem), mem, f, k))
        decreases 512 - k
      {
        if good {
          assert Entry(mem, root, i) == Entry(old(mem), root, i);
          assert f != t ==> Entry(mem, t, j) == Entry(old(mem), t, j);
          assert f == t ==> Entry(mem, t, j) == if Below(j.value, k) then Pte(0) else Entry(old(mem), t, j);
          assert Entry(mem, root, RECURSIVE) == Entry(old(mem), root, RECURSIVE);
          ZeroIsAbsent();
          PdtVirtReaches(mem, root, i, j, Index(k));
          ZeroOneMore(old(mem), mem, f, k, k + 1);
        }
        ok := Store(ElementAt(PdtVirt(i, j), Index(k)), Pte(0));
        if !ok {
          return;
        }
        k := k + 1;
      }
      ok := true;
    }

    // ----- mapping -----

    /** f can become a table: it is a frame and not already one. */
    ghost predicate Fresh(f: Frame)
      reads this
    {
      IsFrame(f) && f !in roles
    }

    predicate NeedsPdpt(v: Virtual)
      reads this
    {
      !HasPdpt(mem, root, PageOf(v).i)
    }

    predicate NeedsPdt(v: Virtual)
      reads this
    {
      !HasPdt(mem, root, PageOf(v).i, PageOf(v).j)
    }

    /** Creates the second-level table of slot i in frame page, if it is missing. */
    method EnsurePdpt(i: Index, page: Frame) returns (ok: bool)
      modifies this
      ensures old(Valid() && HasPdpt(mem, root, i)) && i != RECURSIVE && IsIndex(i) ==>
        && ok && Valid() && Walkable(i)
        && mem == old(mem) && roles == old(roles) && pages == old(pages) && users == old(users)
      // a fresh frame changes no translation
      ensures old(Valid() && !HasPdpt(mem, root, i) && Fresh(page)) && i != RECURSIVE && IsIndex(i) ==>
        && ok && Valid() && HasPdpt(mem, root, i)
        && roles == old(roles)[page := Pdpt(i)] && pages == old(pages) && users == old(users)
      // any frame but the top table's is emptied first, with all that led through it
      ensures var usable := IsFrame(page) && page != root;
        i != RECURSIVE && IsIndex(i) && usable && old(Valid() && !HasPdpt(mem, root, i)) ==>
        && ok && Walkable(i) && PdptFrame(mem, root, i) == page && Replaced(old(mem), mem, root, page)
        && forall j {:trigger PdptEntry(mem, root, i, j)} :: IsIndex(j) ==> !IsPresent(PdptEntry(mem, root, i, j))
    {
      hide IsPresent, IsWritable, IsLarge, FrameOf, ElementAt, Pml4Virt, Walk, IsIndex, TableEntry, Represents,
        TranslatesAlike, Replaced, Zeroed, IsFrame;
      ghost var good := Valid() && i != RECURSIVE && IsIndex(i);
      ghost var before := mem;
      if good {
        Pml4VirtReaches(mem, root, i);
      }
      var entry := Load(ElementAt(Pml4Virt(), i));
      if entry.None? {
        return false;
      }
      if !IsPresent(entry.value) {
        ok := Store(ElementAt(Pml4Virt(), i), TableEntry(page));
        if !ok {
          return;
        }
        ghost var works := good && IsFrame(page) && page != root;
        if works {
          TableEntryNames(page);
          assert Entry(mem, root, RECURSIVE) == Entry(before, root, RECURSIVE);
        }
        ghost var stored := mem;
        ok := ZeroPdpt(i, page);
        if !ok {
          return;
        }
        if works {
          PdptHung(before, stored, root, roles, i, page, mem);
          if page !in roles {
            AddPdpt(before, root, roles, i, page, mem);
            AddPdptTranslates(before, root, roles, i, page, mem);
            AlikeRepresents(before, mem, root, pages);
            HangKeepsWays(before, root, roles, root, i, page, mem);
            AlikeGuards(before, mem, root, users);
            roles := roles[page := Pdpt(i)];
          }
        }
      }
      ok := true;
    }

    predicate LacksPdt(i: Index, j: Index)
      reads this
    {
      HasPdpt(mem, root, i) && !HasPdt(mem, root, i, j)
    }

    /** Creates the page directory of slot j below slot i in frame page, if it is missing. */
    method EnsurePdt(i: Index, j: Index, page: Frame) returns (ok: bool)
      modifies this
      ensures Slots(i, j) && old(Valid() && HasPdt(mem, root, i, j)) ==>
        && ok && Valid() && HasPdt(mem, root, i, j) && mem == old(mem) && roles == old(roles)
        && pages == old(pages) && users == old(users)
      // a fresh frame changes no translation
      ensures Slots(i, j) && old(Valid() && LacksPdt(i, j) && Fresh(page)) ==>
        && ok && Valid() && HasPdt(mem, root, i, j)
        && roles == old(roles)[page := Pdt(i, j)] && pages == old(pages) && users == old(users)
      // any frame but the two tables above is emptied first, with all that led through it
      ensures var usable := IsFrame(page) && page != root;
        Slots(i, j) && usable && old(Valid() && LacksPdt(i, j) && page != PdptFrame(mem, root, i)) ==>
        ok && Replaced(old(mem), mem, root, page)
      // the table above it clears its own entry
      ensures Slots(i, j) && IsFrame(page) && old(Walkable(i) && LacksPdt(i, j) && page == PdptFrame(mem, root, i)) ==>
        !ok || (Walkable(i) && !IsPresent(PdptEntry(mem, root, i, j)))
    {
      hide IsPresent, IsWritable, IsLarge, FrameOf, ElementAt, PdptVirt, Walk, IsIndex, TableEntry, Represents,
        TranslatesAlike, Replaced, Zeroed, IsFrame;
      ghost var before, t := mem, PdptFrame(mem, root, i);
      ghost var good := Valid() && HasPdpt(mem, root, i) && Slots(i, j);
      assert good ==> Walkable(i) && t in roles && roles[t] == Pdpt(i);
      ghost var sane := Walkable(i) && IsIndex(j);
      if sane {
        PdptVirtReaches(mem, root, i, j);
      }
      var entry := Load(ElementAt(PdptVirt(i), j));
      if entry.None? {
        return false;
      }
      if !IsPresent(entry.value) {
        ok := Store(ElementAt(PdptVirt(i), j), TableEntry(page));
        if !ok {
          return;
        }
        ghost var works := sane && IsFrame(page) && page != root;
        if works {
          TableEntryNames(page);
          assert Entry(mem, root, RECURSIVE) == Entry(before, root, RECURSIVE);
          assert Entry(mem, root, i) == Entry(before, root, i);
        }
        ghost var stored := mem;
        ok := ZeroPdt(i, j, page);
        if !ok {
          return;
        }
        if works && page == t {
          SelfCleared(stored, root, i, j, t, mem);
        } else if works && good {
          PdtHung(before, stored, root, roles, i, j, page, mem);
          if page !in roles {
            AddPdt(before, root, roles, i, j, page, mem);
            AddPdtTranslates(before, root, roles, i, j, page, mem);
            AlikeRepresents(before, mem, root, pages);
            HangKeepsWays(before, root, roles, t, j, page, mem);
            AlikeGuards(before, mem, root, users);
            roles := roles[page := Pdt(i, j)];
          }
        }
      }
      ok := true;
    }

    /** Sets the user bit in the PDPT entry, then in the top entry. */
    method AllowUser(i: Index, j: Index) returns (ok: bool)
      modifies this`mem
      ensures Slots(i, j) && old(Valid() && HasPdt(mem, root, i, j)) ==>
        ok && Valid() && HasPdt(mem, root, i, j) && UserPath(mem, root, i, j)
      ensures Slots(i, j) && old(Walkable(i) && LacksPdt(i, j)) ==> !ok || (Walkable(i) && LacksPdt(i, j))
    {
      hide IsPresent, IsWritable, IsLarge, FrameOf, ElementAt, Pml4Virt, PdptVirt, Walk, IsIndex, WithUser,
        Represents, UserPath;
      ghost var m, t := mem, PdptFrame(mem, root, i);
      ghost var good := Slots(i, j) && Valid() && HasPdt(mem, root, i, j);
      assert good ==> HasPdpt(m, root, i) && Walkable(i);
      ghost var sane := Slots(i, j) && Walkable(i);
      if sane {
        PdptVirtReaches(mem, root, i, j);
      }
      var lower := Load(ElementAt(PdptVirt(i), j));
      if lower.None? {
        return false;
      }
      ok := Store(ElementAt(PdptVirt(i), j), WithUser(lower.value));
      if !ok {
        return;
      }
      if sane {
        assert Entry(mem, root, RECURSIVE) == Entry(m, root, RECURSIVE) && Entry(mem, root, i) == Entry(m, root, i);
        Pml4VirtReaches(mem, root, i);
      }
      var upper := Load(ElementAt(Pml4Virt(), i));
      if upper.None? {
        return false;
      }
      ok := Store(ElementAt(Pml4Virt(), i), WithUser(upper.value));
      if sane {
        UserWalkable(m, root, i, j, mem);
      }
      if good {
        UserKeeps(m, root, roles, pages, i, j, mem);
        SetUserKeepsWays(m, root, roles, i, j, mem);
        AlikeGuards(m, mem, root, users);
      }
    }

    /** There is a directory for page p, and e is an entry that the mapper may put there. */
    ghost predicate Storable(p: Page, e: Pte)
      reads this
    {
      && Valid() && HasPdt(mem, root, p.i, p.j)
      && (IsPresent(e) ==> IsLarge(e) && IsWritable(e) && (IsUser(e) ==> UserPath(mem, root, p.i, p.j)))
    }

    /** Writes the page directory entry of page p. */
    method StorePage(p: Page, e: Pte) returns (ok: bool)
      modifies this`mem, this`pages, this`users
      ensures InTables(p) && old(Storable(p, e)) ==>
        && ok && Valid() && PdtEntry(mem, root, p.i, p.j, p.k) == e
        && pages == AfterStore(old(pages), p, e) && users == AfterGuard(old(users), p, e)
        && (old(UserPath(mem, root, p.i, p.j)) ==> UserPath(mem, root, p.i, p.j))
      ensures InTables(p) && old(Walkable(p.i) && LacksPdt(p.i, p.j)) ==> !ok
    {
      hide IsPresent, IsWritable, IsLarge, FrameOf, ElementAt, PdtVirt, Walk, IsIndex, Represents, TranslatesAlike,
        SameShape, AfterStore;
      ghost var m := mem;
      ghost var good := InTables(p) && Storable(p, e);
      assert good ==> HasPdpt(m, root, p.i) && Walkable(p.i);
      if InTables(p) && Walkable(p.i) {
        PdtVirtReaches(mem, root, p.i, p.j, p.k);
      }
      ok := Store(ElementAt(PdtVirt(p.i, p.j), p.k), e);
      if good {
        SetPage(m, root, roles, p, e, mem);
        SameShapeTree(m, mem, root, roles);
        SetPageRepresents(m, root, pages, p, e, mem);
        SetPageGuards(m, root, roles, users, p, e, mem);
        pages := AfterStore(pages, p, e);
        users := AfterGuard(users, p, e);
      }
    }

    /** The frames are what the mapper lacks for a page: fresh, and two different ones where it lacks two tables. */
    ghost predicate Supplied(p: Page, forPdpt: Frame, forPdt: Frame)
      reads this
    {
      && (!HasPdpt(mem, root, p.i) ==> Fresh(forPdpt))
      && (!HasPdt(mem, root, p.i, p.j) ==> Fresh(forPdt) && (!HasPdpt(mem, root, p.i) ==> forPdpt != forPdt))
    }

    /** The new page directory would be the very table it hangs in. */
    ghost predicate SelfHung(p: Page, forPdpt: Frame, forPdt: Frame)
      reads this
    {
      && !HasPdt(mem, root, p.i, p.j) && IsFrame(forPdt) && forPdt != root
      && forPdt == if HasPdpt(mem, root, p.i) then PdptFrame(mem, root, p.i) else forPdpt
    }

    /** The two tables above the entry of page p. */
    method EnsureTables(p: Page, forPdpt: Frame, forPdt: Frame) returns (ok: bool)
      modifies this
      ensures InTables(p) && old(Valid() && Supplied(p, forPdpt, forPdt)) ==>
        && ok && Valid() && HasPdt(mem, root, p.i, p.j) && pages == old(pages) && users == old(users)
        && forall f :: f in roles ==>
             || f in old(roles) || (!old(HasPdpt(mem, root, p.i)) && f == forPdpt)
             || (!old(HasPdt(mem, root, p.i, p.j)) && f == forPdt)
      ensures InTables(p) && old(Valid() && SelfHung(p, forPdpt, forPdt)) ==>
        !ok || (Walkable(p.i) && LacksPdt(p.i, p.j))
    {
      hide IsPresent, IsWritable, IsLarge, FrameOf, Tree, Represents, IsIndex, IsFrame, Replaced;
      ok := EnsurePdpt(p.i, forPdpt);
      if ok {
        ok := EnsurePdt(p.i, p.j, forPdt);
      }
    }

    /** The tables of page p, the user bits on the way, then the entry. */
    method Install(p: Page, e: Pte, isKernel: bool, forPdpt: Frame, forPdt: Frame) returns (ok: bool)
      modifies this
      ensures InTables(p) && IsPresent(e) && IsLarge(e) && IsWritable(e) && (IsUser(e) <==> !isKernel) ==>
        old(Valid() && Supplied(p, forPdpt, forPdt)) ==>
        && ok && Valid() && PdtEntry(mem, root, p.i, p.j, p.k) == e
        && pages == AfterStore(old(pages), p, e) && users == AfterGuard(old(users), p, e)
        && (!isKernel ==> UserPath(mem, root, p.i, p.j))
        && forall f :: f in roles ==>
             || f in old(roles) || (!old(HasPdpt(mem, root, p.i)) && f == forPdpt)
             || (!old(HasPdt(mem, root, p.i, p.j)) && f == forPdt)
      ensures InTables(p) && old(Valid() && SelfHung(p, forPdpt, forPdt)) ==> !ok
    {
      hide IsPresent, IsWritable, IsLarge, IsUser, Walkable, Mmu.Valid, IsIndex, UserPath, AfterStore, AfterGuard,
        HasPdt, HasPdpt, Supplied, SelfHung;
      ok := EnsureTables(p, forPdpt, forPdt);
      if ok && !isKernel {
        ok := AllowUser(p.i, p.j);
      }
      if ok {
        ok := StorePage(p, e);
      }
    }

    /**
     * Maps the page of vaddr to paddr, creating the intermediate tables it lacks in the frames that
     * pmem_get_page returns for them. It does so in any state and with any frames; what it promises
     * holds for tables that form a tree and frames that no table uses. A page directory that is its own
     * parent makes it fault.
     */
    method Map2Mb(vaddr: bv64, paddr: bv64, isKernel: bool, forPdpt: Frame, forPdt: Frame) returns (r: Mapping)
      modifies this
      ensures r == Refused <==> !Aligned2Mb(vaddr) || !Aligned2Mb(paddr)
      ensures r == Refused ==> pages == old(pages) && mem == old(mem) && roles == old(roles) && users == old(users)
      ensures var v := Virtual(vaddr);
        Ordinary(v) && old(Valid() && Supplied(PageOf(v), forPdpt, forPdt)) ==>
          && r != Fault && Valid()
          && forall f :: f in roles ==>
               f in old(roles) || (old(NeedsPdpt(v)) && f == forPdpt) || (old(NeedsPdt(v)) && f == forPdt)
      ensures var v := Virtual(vaddr);
        Ordinary(v) && old(Valid() && Supplied(PageOf(v), forPdpt, forPdt)) && r == Mapped ==>
          && pages == old(pages)[PageOf(v) := paddr]
          && users == (if isKernel then old(users) - {PageOf(v)} else old(users) + {PageOf(v)})
          && Flags(LeafEntry(v)) == (if isKernel then 0x83 else 0x87)
          && LetsWrite(mem, root, v) && (LetsUser(mem, root, v) <==> !isKernel)
      ensures var v := Virtual(vaddr);
        Ordinary(v) && old(Valid() && SelfHung(PageOf(v), forPdpt, forPdt)) ==> r != Mapped
    {
      if !Aligned2Mb(vaddr) || !Aligned2Mb(paddr) {
        return Refused;
      }
      PageEntryBits(paddr, isKernel);
      PageEntryFlags(paddr, isKernel);
      IndexRange(Virtual(vaddr));
      hide IsPresent, IsWritable, IsLarge, FrameOf, Tree, Represents, Guards, IsIndex, Pml4Index, PdptIndex, PdtIndex,
        PageEntry, PageBase, Aligned2Mb, IsFrame, IsUser, UserPath, LetsWrite, LetsUser, Flags;
      var ok := Install(PageOf(Virtual(vaddr)), PageEntry(paddr, isKernel), isKernel, forPdpt, forPdt);
      if Valid() && Ordinary(Virtual(vaddr)) && PageOf(Virtual(vaddr)) in pages {
        HardwareGuards(mem, root, roles, pages, users, Virtual(vaddr));
      }
      r := if ok then Mapped else Fault;
    }

    function LeafEntry(v: Virtual): Pte
      reads this
    {
      PdtEntry(mem, root, Pml4Index(v), PdptIndex(v), PdtIndex(v))
    }

    // ----- unmapping and translating -----

    /** Removes the page of vaddr; refuses where a table on the way is missing. */
    method Unmap2Mb(vaddr: bv64) returns (ok: bool)
      requires Valid() && Ordinary(Virtual(vaddr))
      modifies this`mem, this`pages, this`users
      ensures Valid()
      ensures ok ==> Aligned2Mb(vaddr) && pages == old(pages) - {PageOf(Virtual(vaddr))}
      ensures ok ==> users == old(users) - {PageOf(Virtual(vaddr))}
      ensures !ok ==> pages == old(pages) && mem == old(mem) && users == old(users)
      ensures !ok && Aligned2Mb(vaddr) ==> PageOf(Virtual(vaddr)) !in pages
    {
      hide IsPresent, IsWritable, IsLarge, FrameOf, ElementAt, Pml4Virt, PdptVirt, Walk, IsIndex, Pml4Index, PdptIndex,
        PdtIndex, PageBase, Aligned2Mb, Within, Guards;
      if !Aligned2Mb(vaddr) {
        return false;
      }
      var v := Virtual(vaddr);
      var i, j := Pml4Index(v), PdptIndex(v);
      IndexRange(v);
      RepresentsTranslates(mem, root, pages, v);
      Pml4VirtReaches(mem, root, i);
      var upper := Load(ElementAt(Pml4Virt(), i));
      if !IsPresent(upper.value) {
        return false;
      }
      PdptVirtReaches(mem, root, i, j);
      var lower := Load(ElementAt(PdptVirt(i), j));
      if !IsPresent(lower.value) {
        return false;
      }
      ZeroIsAbsent();
      ok := StorePage(PageOf(v), Pte(0));
    }

    /** The physical address of v, or None. Any address may be asked for, the recursive slot included. */
    method VirtualToPhysical(v: Virtual) returns (r: Option<bv64>)
      requires Valid()
      ensures r == Translate(mem, root, v)
      ensures Ordinary(v) ==> r == Lookup(pages, v)
    {
      hide IsPresent, IsWritable, IsLarge, FrameOf, ElementAt, Pml4Virt, PdptVirt, PdtVirt, Walk, IsIndex, Pml4Index,
        PdptIndex, PdtIndex, PageBase, Within;
      var i, j, k := Pml4Index(v), PdptIndex(v), PdtIndex(v);
      IndexRange(v);
      if Ordinary(v) {
        RepresentsTranslates(mem, root, pages, v);
      }
      Pml4VirtReaches(mem, root, i);
      var upper := Load(ElementAt(Pml4Virt(), i));
      if !IsPresent(upper.value) {
        return None;
      }
      assert HasPdpt(mem, root, i);
      PdptVirtReaches(mem, root, i, j);
      var lower := Load(ElementAt(PdptVirt(i), j));
      if !IsPresent(lower.value) {
        return None;
      }
      PdtVirtReaches(mem, root, i, j, k);
      var entry := Load(ElementAt(PdtVirt(i, j), k));
      if !IsPresent(entry.value) {
        return None;
      }
      return Some(Within(PageBase(entry.value), v));
    }
  }

  datatype Mapping = Refused | Mapped | Fault
}
