/** Virtual addresses as numbers: the large page an address is on, and how far apart two addresses are. */
module Addresses {
  import Bits
  import opened Words
  import opened Paging
  import opened PageTables
  import opened KernelMemory

  function At(a: nat): Virtual {
    Virtual(WordOf(a))
  }

  /** The address of large page n. */
  function LargeWord(n: nat): bv64 {
    Up21(WordOf(n))
  }

  lemma AddressParts(a: nat)
    ensures WordOf(a) == Joined(LargeWord(a / LARGE), WordOf(a % LARGE)) && WordOf(a % LARGE) <= 0x1F_FFFF
  {
    hide WordOf, Up, Ones;
    PowerOfLarge();
    WordSplit(a, 21);
    HighIs(a, 21);
    UpLarge(WordOf(a / LARGE));
    WordFits(a % LARGE, 21);
    FitsSmall(WordOf(a % LARGE));
  }

  lemma PowerOfLarge()
    ensures Bits.Pow2(21) == LARGE
  {
    assert Bits.Pow2(10) == 1024;
    Bits.Pow2Add(10, 10);
    assert Bits.Pow2(20) == 0x10_0000;
  }

  // ----- alignment and pages -----

  lemma JoinedPage(x: bv64, y: bv64)
    requires y <= 0x1F_FFFF
    ensures PageOf(Virtual(Joined(Up21(x), y))) == PageOf(Virtual(Up21(x)))
    ensures Aligned2Mb(Joined(Up21(x), y)) <==> y == 0
    ensures Joined(Up21(x), 0) == Up21(x)
  {
  }

  lemma AddressPage(a: nat)
    ensures PageOf(At(a)) == PageOf(Virtual(LargeWord(a / LARGE)))
  {
    hide PageOf, Joined, Up21, WordOf;
    AddressParts(a);
    JoinedPage(WordOf(a / LARGE), WordOf(a % LARGE));
  }

  lemma AlignedAddress(a: nat)
    ensures Aligned2Mb(WordOf(a)) <==> a % LARGE == 0
    ensures a % LARGE == 0 ==> WordOf(a) == LargeWord(a / LARGE)
  {
    hide PageOf, Joined, Up21, WordOf, Aligned2Mb;
    AddressParts(a);
    JoinedPage(WordOf(a / LARGE), WordOf(a % LARGE));
    NoWord();
    PowerOfLarge();
    if WordOf(a % LARGE) == 0 {
      WordInjective(a % LARGE, 0, 21);
    }
  }

  // ----- the pages of a range -----

  lemma NextLarge(x: bv64)
    ensures Up21(x) + 0x20_0000 == Up21(Next(x))
  {
  }

  lemma {:induction false} StepIs(n: nat, m: nat)
    ensures Step(LargeWord(n), m) == LargeWord(n + m)
  {
    if m > 0 {
      StepIs(n, m - 1);
      NextLarge(WordOf(n + m - 1));
      hide Up21, Next, WordOf;
      WordNext(n + m - 1);
    }
  }

  /** Every address from first up to, but not including, end lies on a granted page. */
  ghost predicate RangeMapped(granted: map<Page, nat>, first: nat, end: nat) {
    forall a: nat {:trigger At(a)} :: first <= a < end ==> PageOf(At(a)) in granted
  }

  /** Pages placed one after the other from an aligned address on hold the addresses behind it. */
  lemma PlacedRange(granted: map<Page, nat>, placed: seq<Page>, base: nat, first: nat)
    requires first % LARGE == 0 && Consecutive(placed, WordOf(first)) && GrantedFrom(granted, placed, base)
    ensures RangeMapped(granted, first, first + |placed| * LARGE)
  {
    hide PageOf, Step, WordOf;
    forall a: nat | first <= a < first + |placed| * LARGE ensures PageOf(At(a)) in granted {
      PlacedHolds(placed, first, a);
    }
  }

  lemma RangeKept(grants: map<Page, nat>, granted: map<Page, nat>, placed: seq<Page>, base: nat, first: nat, end: nat)
    requires RangeMapped(grants, first, end)
    requires GrantedFrom(granted, placed, base) && SameElsewhere(grants, granted, placed)
    ensures RangeMapped(granted, first, end)
  {
    hide PageOf;
    forall a: nat | first <= a < end ensures PageOf(At(a)) in granted {
      assert PageOf(At(a)) in grants;
    }
  }

  // ----- two addresses -----

  lemma JoinedTranslated(x: bv64, y: bv64)
    requires y <= 0xFFFF_FFFF_FFFF
    ensures Translated(Joined(Up48(x), y)) == y
  {
  }

  lemma TranslatedLow(a: nat)
    ensures Translated(WordOf(a)) == WordOf(Bits.Low(a, 48))
  {
    hide WordOf, Up, Ones, Translated, Joined, Up48;
    WordSplit(a, 48);
    UpTranslated(WordOf(High(a, 48)));
    HighIs(a, 48);
    WordAddress(Bits.Low(a, 48), 48);
    JoinedTranslated(WordOf(High(a, 48)), WordOf(Bits.Low(a, 48)));
  }

  /** Two addresses less than 2^48 apart differ in the bits that are translated. */
  lemma AddressesApart(a: nat, b: nat)
    requires a < b < a + Bits.Pow2(48)
    ensures Translated(At(a).address) != Translated(At(b).address)
  {
    hide WordOf, Translated, Bits.Pow2, Bits.Low, High;
    TranslatedLow(a);
    TranslatedLow(b);
    HighIs(a, 48);
    HighIs(b, 48);
    if Translated(WordOf(a)) == Translated(WordOf(b)) {
      WordInjective(Bits.Low(a, 48), Bits.Low(b, 48), 48);
      MultiplesApart(High(a, 48), High(b, 48), Bits.Pow2(48));
      assert false;
    }
  }

  lemma MultiplesApart(h: nat, g: nat, p: nat)
    ensures !(h * p < g * p < h * p + p)
  {
    if h < g {
      assert (h + 1) * p <= g * p;
    } else {
      assert g * p <= h * p;
    }
  }

  // ----- the pages of user code -----

  /** Addresses of different large pages less than 2^48 apart are on different pages. */
  lemma PagesApart(a: nat, b: nat)
    requires a / LARGE < b / LARGE && b + LARGE < a + Bits.Pow2(48)
    ensures PageOf(At(a)) != PageOf(At(b))
  {
    hide PageOf, WordOf, Translated, Offset, Bits.Pow2, Joined, Up21, Aligned2Mb;
    var x, y := a / LARGE * LARGE, b / LARGE * LARGE;
    assert x / LARGE == a / LARGE && y / LARGE == b / LARGE && x < y < x + Bits.Pow2(48);
    AddressPage(a);
    AddressPage(b);
    AddressPage(x);
    AddressPage(y);
    AddressesApart(x, y);
    AlignedAddress(x);
    AlignedAddress(y);
    AlignedOffset(WordOf(x));
    AlignedOffset(WordOf(y));
    if PageOf(At(x)) == PageOf(At(y)) {
      SamePage(At(x), At(y));
    }
  }

  lemma AlignedOffset(a: bv64)
    requires Aligned2Mb(a)
    ensures Offset(a) == 0
  {
  }

  /** Of the addresses from first up to end, user code may use those below userEnd. */
  ghost predicate UserRange(users: set<Page>, first: nat, end: nat, userEnd: nat) {
    forall a: nat {:trigger At(a)} :: first <= a < end ==> (PageOf(At(a)) in users <==> a < userEnd)
  }

  /** Pages placed from an aligned address on: which of them user code may use. */
  lemma PlacedUsers(was: set<Page>, now: set<Page>, placed: seq<Page>, isKernel: bool, first: nat)
    requires first % LARGE == 0 && Consecutive(placed, WordOf(first)) && UsersPlaced(was, now, placed, isKernel)
    ensures var end := first + |placed| * LARGE;
      UserRange(now, first, end, if isKernel then 0 else end)
  {
    hide PageOf, Step, WordOf;
    forall a: nat | first <= a < first + |placed| * LARGE ensures PageOf(At(a)) in now <==> !isKernel {
      PlacedHolds(placed, first, a);
    }
  }

  lemma PlacedHolds(placed: seq<Page>, first: nat, a: nat)
    requires first % LARGE == 0 && Consecutive(placed, WordOf(first)) && first <= a < first + |placed| * LARGE
    ensures PageOf(At(a)) in placed
  {
    hide PageOf, Step, WordOf;
    var m := (a - first) / LARGE;
    AlignedAddress(first);
    assert a / LARGE == first / LARGE + m;
    AddressPage(a);
    StepIs(first / LARGE, m);
    assert placed[m] == PageOf(At(a));
  }

  /** Pages of the kernel placed behind a range leave it as it was, and extend it. */
  lemma KernelBehind(was: set<Page>, now: set<Page>, placed: seq<Page>, first: nat, end: nat, userEnd: nat)
    requires end % LARGE == 0 && Consecutive(placed, WordOf(end)) && UsersPlaced(was, now, placed, true)
    requires UserRange(was, first, end, userEnd) && userEnd <= end
    requires end + |placed| * LARGE + LARGE < first + Bits.Pow2(48)
    ensures UserRange(now, first, end + |placed| * LARGE, userEnd)
  {
    hide PageOf, WordOf, Bits.Pow2, Step;
    PlacedUsers(was, now, placed, true, end);
    forall a: nat | first <= a < end ensures PageOf(At(a)) in now <==> a < userEnd {
      NotPlaced(placed, first, end, a);
      assert PageOf(At(a)) in was <==> a < userEnd;
    }
  }

  lemma NotPlaced(placed: seq<Page>, first: nat, end: nat, a: nat)
    requires end % LARGE == 0 && Consecutive(placed, WordOf(end)) && first <= a < end
    requires end + |placed| * LARGE + LARGE < first + Bits.Pow2(48)
    ensures PageOf(At(a)) !in placed
  {
    hide PageOf, WordOf, Bits.Pow2, Step;
    AlignedAddress(end);
    forall m: nat | m < |placed| ensures placed[m] != PageOf(At(a)) {
      var b := end + m * LARGE;
      assert b / LARGE == end / LARGE + m && a / LARGE < end / LARGE;
      assert m * LARGE <= |placed| * LARGE;
      AddressPage(b);
      StepIs(end / LARGE, m);
      PagesApart(a, b);
    }
  }

  /** One more page in front. */
  lemma UserPlaced(was: set<Page>, now: set<Page>, isKernel: bool, base: nat, end: nat)
    requires base % LARGE == 0 && UserSet(was, now, PageOf(At(base)), isKernel)
    requires UserRange(was, base + LARGE, end, if isKernel then 0 else end) && base + LARGE <= end
    ensures UserRange(now, base, end, if isKernel then 0 else end)
  {
    hide PageOf, WordOf;
    AddressPage(base);
    forall a: nat | base <= a < end ensures PageOf(At(a)) in now <==> !isKernel {
      AddressPage(a);
      if a < base + LARGE {
        assert a / LARGE == base / LARGE;
      } else {
        assert PageOf(At(a)) in was <==> !isKernel;
      }
    }
  }
}
