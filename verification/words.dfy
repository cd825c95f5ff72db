/** Natural numbers as machine words, bit by bit, which keeps the two kinds of arithmetic apart. */
module Words {
  import Bits

  function Push(x: bv64, odd: bool): bv64 {
    (x << 1) | (if odd then 1 else 0)
  }

  function WordOf(n: nat): bv64 {
    if n == 0 then 0 else Push(WordOf(n / 2), n % 2 == 1)
  }

  // ----- how many bits a word has -----

  /** The largest word of k bits. */
  function Ones(k: nat): bv64 {
    if k == 0 then 0 else Push(Ones(k - 1), true)
  }

  /** Every bit of x is one of y. */
  predicate Under(x: bv64, y: bv64) {
    x | y == y
  }

  /** x has at most k bits. */
  predicate Fits(x: bv64, k: nat) {
    Under(x, Ones(k))
  }

  lemma OnesAre()
    ensures Ones(9) == 0x1FF && Ones(20) == 0xFFFFF && Ones(21) == 0x1F_FFFF && Ones(48) == 0xFFFF_FFFF_FFFF
  {
    assert Ones(4) == 0xF;
    assert Ones(8) == 0xFF;
    assert Ones(12) == 0xFFF;
    assert Ones(16) == 0xFFFF;
    assert Ones(20) == 0xFFFFF;
    assert Ones(24) == 0xFF_FFFF;
    assert Ones(28) == 0xFFF_FFFF;
    assert Ones(32) == 0xFFFF_FFFF;
    assert Ones(36) == 0xF_FFFF_FFFF;
    assert Ones(40) == 0xFF_FFFF_FFFF;
    assert Ones(44) == 0xFFF_FFFF_FFFF;
  }

  lemma PushUnder(x: bv64, y: bv64, odd: bool)
    requires Under(x, y)
    ensures Under(Push(x, odd), Push(y, true))
  {
    hide Push;
    PushOr(x, y, odd);
  }

  lemma PushOr(x: bv64, y: bv64, odd: bool)
    ensures Push(x, odd) | Push(y, true) == Push(x | y, true)
  {
  }

  lemma PushFits(x: bv64, odd: bool, k: nat)
    requires Fits(x, k)
    ensures Fits(Push(x, odd), k + 1)
  {
    hide Under, Push;
    PushUnder(x, Ones(k), odd);
  }

  lemma ZeroWord(y: bv64)
    ensures Under(0, y) && Push(0, false) == 0
  {
  }

  lemma UnderSmall(x: bv64)
    ensures Under(x, 0x1FF) ==> x <= 0x1FF
    ensures Under(x, 0xFFFFF) ==> x <= 0xFFFFF
    ensures Under(x, 0x1F_FFFF) ==> x <= 0x1F_FFFF
    ensures Under(x, 0xFFFF_FFFF_FFFF) ==> x <= 0xFFFF_FFFF_FFFF
  {
  }

  lemma FitsSmall(x: bv64)
    ensures Fits(x, 9) ==> x <= 0x1FF
    ensures Fits(x, 20) ==> x <= 0xFFFFF
    ensures Fits(x, 21) ==> x <= 0x1F_FFFF
    ensures Fits(x, 48) ==> x <= 0xFFFF_FFFF_FFFF
  {
    hide Under, Ones;
    OnesAre();
    UnderSmall(x);
  }

  lemma {:induction false} WordFits(n: nat, k: nat)
    requires n < Bits.Pow2(k)
    ensures Fits(WordOf(n), k)
  {
    hide Push, Under;
    if n == 0 {
      ZeroWord(Ones(k));
    } else {
      WordFits(n / 2, k - 1);
      PushFits(WordOf(n / 2), n % 2 == 1, k - 1);
    }
  }

  lemma {:induction false} OnesGrow(k: nat, n: nat)
    requires k <= n
    ensures Under(Ones(k), Ones(n))
  {
    hide Push, Under;
    if k == 0 {
      ZeroWord(Ones(n));
    } else {
      OnesGrow(k - 1, n - 1);
      PushUnder(Ones(k - 1), Ones(n - 1), true);
    }
  }

  lemma UnderTrans(x: bv64, y: bv64, z: bv64)
    requires Under(x, y) && Under(y, z)
    ensures Under(x, z)
  {
  }

  /** Words of up to 48 bits. */
  lemma WordAddress(n: nat, k: nat)
    requires k <= 48 && n < Bits.Pow2(k)
    ensures WordOf(n) <= 0xFFFF_FFFF_FFFF
  {
    hide Push, Under, WordOf, Ones;
    WordFits(n, k);
    OnesGrow(k, 48);
    UnderTrans(WordOf(n), Ones(k), Ones(48));
    FitsSmall(WordOf(n));
  }

  // ----- different numbers, different words -----

  lemma PushInjective(x: bv64, y: bv64, b: bool, c: bool)
    requires x <= 0xFFFF_FFFF_FFFF && y <= 0xFFFF_FFFF_FFFF && Push(x, b) == Push(y, c)
    ensures x == y && b == c
  {
  }

  lemma {:induction false} WordInjective(m: nat, n: nat, k: nat)
    requires k <= 48 && m < Bits.Pow2(k) && n < Bits.Pow2(k) && WordOf(m) == WordOf(n)
    ensures m == n
  {
    hide Push;
    if k > 0 {
      WordAddress(m / 2, k - 1);
      WordAddress(n / 2, k - 1);
      ZeroWord(0);
      assert WordOf(m) == Push(WordOf(m / 2), m % 2 == 1);
      assert WordOf(n) == Push(WordOf(n / 2), n % 2 == 1);
      PushInjective(WordOf(m / 2), WordOf(n / 2), m % 2 == 1, n % 2 == 1);
      WordInjective(m / 2, n / 2, k - 1);
    }
  }

  // ----- counting on, and cutting in two -----

  function Next(x: bv64): bv64 {
    x + 1
  }

  lemma PushNext(x: bv64)
    ensures Next(Push(x, false)) == Push(x, true)
    ensures Next(Push(x, true)) == Push(Next(x), false)
  {
  }

  lemma WordOne()
    ensures WordOf(1) == Next(0)
  {
  }

  lemma {:induction false} WordNext(n: nat)
    ensures WordOf(n + 1) == Next(WordOf(n))
  {
    hide Push, Next;
    WordOne();
    PushNext(WordOf(n / 2));
    if n % 2 == 1 {
      WordNext(n / 2);
      assert (n + 1) / 2 == n / 2 + 1;
    }
  }

  /** x with k zero bits behind it. */
  function Up(x: bv64, k: nat): bv64 {
    if k == 0 then x else Push(Up(x, k - 1), false)
  }

  function Up3(x: bv64): bv64 { x << 3 }
  function Up9(x: bv64): bv64 { x << 9 }
  function Up21(x: bv64): bv64 { x << 21 }
  function Up48(x: bv64): bv64 { x << 48 }

  lemma UpThree(x: bv64)
    ensures Up(x, 3) == Up3(x)
  {
    assert Up(x, 1) == x << 1;
    assert Up(x, 2) == x << 2;
  }

  lemma ThreeThrees(x: bv64)
    ensures Up3(Up3(Up3(x))) == Up9(x)
  {
  }

  lemma NinesAndThree(x: bv64)
    ensures Up3(Up9(Up9(x))) == Up21(x)
  {
  }

  lemma LargesAndThrees(x: bv64)
    ensures Up3(Up3(Up21(Up21(x)))) == Up48(x)
  {
  }

  lemma {:induction false} UpTwice(x: bv64, j: nat, k: nat)
    ensures Up(x, j + k) == Up(Up(x, j), k)
  {
    hide Push;
    if k > 0 {
      UpTwice(x, j, k - 1);
    }
  }

  lemma UpNine(x: bv64)
    ensures Up(x, 9) == Up9(x)
  {
    hide Up, Up3, Up9;
    UpTwice(x, 3, 3);
    UpTwice(x, 6, 3);
    UpThree(x);
    UpThree(Up3(x));
    UpThree(Up3(Up3(x)));
    ThreeThrees(x);
  }

  lemma UpLarge(x: bv64)
    ensures Up(x, 21) == Up21(x)
  {
    hide Up, Up3, Up9, Up21;
    UpTwice(x, 9, 9);
    UpTwice(x, 18, 3);
    UpNine(x);
    UpNine(Up9(x));
    UpThree(Up9(Up9(x)));
    NinesAndThree(x);
  }

  lemma UpTranslated(x: bv64)
    ensures Up(x, 48) == Up48(x)
  {
    hide Up, Up3, Up21, Up48;
    UpTwice(x, 21, 21);
    UpTwice(x, 42, 3);
    UpTwice(x, 45, 3);
    UpLarge(x);
    UpLarge(Up21(x));
    UpThree(Up21(Up21(x)));
    UpThree(Up3(Up21(Up21(x))));
    LargesAndThrees(x);
  }

  function High(n: nat, k: nat): nat {
    if k == 0 then n else High(n / 2, k - 1)
  }

  lemma {:induction false} HighIs(n: nat, k: nat)
    ensures n == High(n, k) * Bits.Pow2(k) + Bits.Low(n, k) && Bits.Low(n, k) < Bits.Pow2(k)
  {
    if k > 0 {
      HighIs(n / 2, k - 1);
      Twice(High(n / 2, k - 1), Bits.Pow2(k - 1));
    }
  }

  lemma Twice(h: nat, p: nat)
    ensures h * (2 * p) == 2 * (h * p)
  {
  }

  function Joined(x: bv64, y: bv64): bv64 {
    x | y
  }

  lemma PushBits(x: bv64, y: bv64, odd: bool)
    ensures Push(x | y, odd) == Push(x, false) | Push(y, odd)
  {
  }

  lemma PushJoined(x: bv64, y: bv64, odd: bool)
    ensures Push(Joined(x, y), odd) == Joined(Push(x, false), Push(y, odd))
  {
    hide Push;
    PushBits(x, y, odd);
  }

  lemma OrZero(x: bv64)
    ensures Joined(x, 0) == x
  {
  }

  lemma WordParts(n: nat)
    ensures WordOf(n) == Push(WordOf(n / 2), n % 2 == 1)
  {
    ZeroWord(0);
  }

  /** The word of n is the word of its upper part, moved up, and the word of the lower part. */
  lemma {:induction false} WordSplit(n: nat, k: nat)
    ensures WordOf(n) == Joined(Up(WordOf(High(n, k)), k), WordOf(Bits.Low(n, k)))
  {
    if k == 0 {
      OrZero(WordOf(n));
    } else {
      var low := Bits.Low(n / 2, k - 1);
      hide Push, WordOf, Joined;
      WordSplit(n / 2, k - 1);
      WordParts(n);
      assert Bits.Low(n, k) == n % 2 + 2 * low;
      WordParts(Bits.Low(n, k));
      PushJoined(Up(WordOf(High(n / 2, k - 1)), k - 1), WordOf(low), n % 2 == 1);
    }
  }
}
