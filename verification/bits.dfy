/** Bitwise operators on unsigned words, and the alignment helpers built from them. */
module Bits {
  import opened Arithmetic

  function Pow2(k: nat): (r: nat)
    ensures r > 0
  {
    if k == 0 then 1 else 2 * Pow2(k - 1)
  }

  const WORD: nat := 0x1_0000_0000_0000_0000

  function BitAnd(a: nat, b: nat): nat {
    if a == 0 || b == 0 then 0 else 2 * BitAnd(a / 2, b / 2) + (a % 2) * (b % 2)
  }

  /** 64-bit addition, which wraps. */
  function Add64(a: nat, b: nat): nat
    requires a < WORD && b < WORD
  {
    if a + b < WORD then a + b else a + b - WORD
  }

  /** The 64-bit complement. */
  function BitNot(a: nat): nat
    requires a < WORD
  {
    WORD - 1 - a
  }

  lemma Pow2Of64()
    ensures Pow2(64) == WORD
  {
    assert Pow2(4) == 16;
    Pow2Add(4, 4);
    Pow2Add(8, 8);
    Pow2Add(16, 16);
    Pow2Add(32, 32);
  }

  lemma {:induction false} Pow2Add(a: nat, b: nat)
    ensures Pow2(a + b) == Pow2(a) * Pow2(b)
  {
    if a > 0 {
      Pow2Add(a - 1, b);
    }
  }

  lemma {:induction false} Pow2Monotone(a: nat, b: nat)
    requires a <= b
    ensures Pow2(a) <= Pow2(b)
    decreases b - a
  {
    if a < b {
      Pow2Monotone(a + 1, b);
    }
  }

  lemma HalfMod(a: nat, m: nat)
    requires m > 0
    ensures a % (2 * m) == 2 * ((a / 2) % m) + a % 2
  {
    var q, r := (a / 2) / m, (a / 2) % m;
    assert a / 2 == m * q + r;
    assert a == (2 * m) * q + (2 * r + a % 2);
    DivModUnique(2 * m, q, 2 * r + a % 2);
  }

  /** The low k bits of a. */
  function Low(a: nat, k: nat): nat {
    if k == 0 then 0 else 2 * Low(a / 2, k - 1) + a % 2
  }

  lemma {:induction false} LowIsRemainder(a: nat, k: nat)
    ensures Low(a, k) == a % Pow2(k)
  {
    if k > 0 {
      LowIsRemainder(a / 2, k - 1);
      HalfMod(a, Pow2(k - 1));
    }
  }

  lemma {:induction false} AndLowMask(a: nat, k: nat)
    ensures BitAnd(a, Pow2(k) - 1) == Low(a, k)
  {
    if k > 0 {
      AndLowMask(a / 2, k - 1);
      assert (Pow2(k) - 1) / 2 == Pow2(k - 1) - 1 && (Pow2(k) - 1) % 2 == 1;
      if a == 0 {
        LowZero(k);
      }
    }
  }

  lemma {:induction false} LowZero(k: nat)
    ensures Low(0, k) == 0
  {
    if k > 0 {
      LowZero(k - 1);
    }
  }

  lemma {:induction false} AndHighMask(a: nat, n: nat, k: nat)
    requires k <= n && a < Pow2(n)
    ensures Pow2(k) <= Pow2(n) && BitAnd(a, Pow2(n) - Pow2(k)) == a - Low(a, k)
  {
    Pow2Monotone(k, n);
    if k == 0 {
      AndLowMask(a, n);
      LowAll(a, n);
    } else {
      AndHighMask(a / 2, n - 1, k - 1);
      AndEven(a, Pow2(n - 1) - Pow2(k - 1));
    }
  }

  lemma {:induction false} LowAll(a: nat, n: nat)
    requires a < Pow2(n)
    ensures Low(a, n) == a
  {
    if n > 0 {
      LowAll(a / 2, n - 1);
    }
  }

  lemma AndEven(a: nat, b: nat)
    ensures BitAnd(a, 2 * b) == 2 * BitAnd(a / 2, b)
  {
    assert (2 * b) / 2 == b && (2 * b) % 2 == 0;
  }

  /** A byte's two top bits, and the six below them. */
  lemma TopTwoBits(a: nat)
    requires a < 0x100
    ensures BitAnd(a, 0xC0) == a - a % 0x40 && BitAnd(a, 0x3F) == a % 0x40
  {
    assert Pow2(3) == 8 && Pow2(6) == 0x40 && Pow2(8) == 0x100;
    AndHighMask(a, 8, 6);
    AndLowMask(a, 6);
    LowIsRemainder(a, 6);
  }

  // ----- is_aligned, align_up, align_down -----

  predicate IsAligned(addr: nat, align: nat)
    requires align > 0
  {
    BitAnd(addr, align - 1) == 0
  }

  function AlignUp(addr: nat, align: nat): nat
    requires 0 < align <= WORD && addr < WORD
  {
    BitAnd(Add64(addr, align - 1), BitNot(align - 1))
  }

  function AlignDown(addr: nat, align: nat): nat
    requires 0 < align <= WORD
  {
    BitAnd(addr, BitNot(align - 1))
  }

  ghost predicate PowerOfTwo(align: nat) {
    exists k: nat :: k < 64 && align == Pow2(k)
  }

  lemma IsAlignedMeansMultiple(addr: nat, align: nat)
    requires PowerOfTwo(align)
    ensures IsAligned(addr, align) <==> addr % align == 0
  {
    var k: nat :| k < 64 && align == Pow2(k);
    AndLowMask(addr, k);
    LowIsRemainder(addr, k);
  }

  lemma ClearLow(addr: nat, align: nat)
    requires PowerOfTwo(align) && addr < WORD
    ensures align <= WORD && BitAnd(addr, BitNot(align - 1)) == Floor(addr, align)
  {
    var k: nat :| k < 64 && align == Pow2(k);
    Pow2Of64();
    Pow2Monotone(k, 64);
    AndHighMask(addr, 64, k);
    LowIsRemainder(addr, k);
  }

  /** The greatest multiple of m up to a. */
  function Floor(a: nat, m: nat): nat
    requires m > 0
  {
    a - a % m
  }

  lemma FloorIsNearest(a: nat, m: nat)
    requires m > 0
    ensures Floor(a, m) % m == 0 && Floor(a, m) <= a < Floor(a, m) + m
  {
    DivModUnique(m, a / m, 0);
  }

  /** Rounds up to the nearest multiple, as long as the sum does not wrap. */
  lemma AlignUpIsNearest(addr: nat, align: nat)
    requires PowerOfTwo(align) && align <= WORD && addr + align <= WORD
    ensures AlignUp(addr, align) % align == 0 && addr <= AlignUp(addr, align) < addr + align
  {
    var s := addr + (align - 1);
    ClearLow(s, align);
    FloorIsNearest(s, align);
  }

  /** Rounds down to the nearest multiple. */
  lemma AlignDownIsNearest(addr: nat, align: nat)
    requires PowerOfTwo(align) && align <= WORD && addr < WORD
    ensures AlignDown(addr, align) % align == 0 && AlignDown(addr, align) <= addr < AlignDown(addr, align) + align
  {
    ClearLow(addr, align);
    FloorIsNearest(addr, align);
  }
}
