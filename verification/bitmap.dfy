/** A bitmap stored in 64-bit words: word index / 64, bit index % 64. */
module Bitmap {

  // ----- bits of one word -----

  function Mask(n: bv7): bv64
    requires n < 64
  {
    1 << n
  }

  function With(x: bv64, mask: bv64): bv64 {
    x | mask
  }

  function Without(x: bv64, mask: bv64): bv64 {
    x & !mask
  }

  predicate BitCheck(x: bv64, n: bv7)
    requires n < 64
  {
    (x >> n) & 1 == 1
  }

  function BitSet(x: bv64, n: bv7): bv64
    requires n < 64
  {
    With(x, Mask(n))
  }

  function BitClear(x: bv64, n: bv7): bv64
    requires n < 64
  {
    Without(x, Mask(n))
  }

  function And(x: bv64, y: bv64): bv64 {
    x & y
  }

  predicate Hits(x: bv64, mask: bv64) {
    And(x, mask) != 0
  }

  lemma CheckIsMask(x: bv64, m: bv7)
    requires m < 64
    ensures BitCheck(x, m) <==> Hits(x, Mask(m))
  {
  }

  lemma SetElsewhere(x: bv64, a: bv64, b: bv64)
    requires !Hits(a, b)
    ensures Hits(With(x, a), b) <==> Hits(x, b)
  {
    assert (x | a) & b == x & b;
  }

  lemma ClearElsewhere(x: bv64, a: bv64, b: bv64)
    requires !Hits(a, b)
    ensures Hits(Without(x, a), b) <==> Hits(x, b)
  {
    assert (x & !a) & b == x & b;
  }

  lemma SetOther(x: bv64, n: bv7, m: bv7)
    requires n < 64 && m < 64 && n != m
    ensures Hits(BitSet(x, n), Mask(m)) <==> Hits(x, Mask(m))
  {
    hide Hits, Mask, With, Without;
    MasksApart(n, m);
    SetElsewhere(x, Mask(n), Mask(m));
  }

  lemma ClearOther(x: bv64, n: bv7, m: bv7)
    requires n < 64 && m < 64 && n != m
    ensures Hits(BitClear(x, n), Mask(m)) <==> Hits(x, Mask(m))
  {
    hide Hits, Mask, With, Without;
    MasksApart(n, m);
    ClearElsewhere(x, Mask(n), Mask(m));
  }

  lemma MasksApart(n: bv7, m: bv7)
    requires n < 64 && m < 64 && n != m
    ensures !Hits(Mask(n), Mask(m))
  {
  }

  lemma WriteHere(x: bv64, n: bv7)
    requires n < 64
    ensures Hits(BitSet(x, n), Mask(n)) && !Hits(BitClear(x, n), Mask(n))
  {
  }

  lemma BitWriteEffect(x: bv64, n: bv7, m: bv7)
    requires n < 64 && m < 64
    ensures BitCheck(BitSet(x, n), m) <==> (m == n || BitCheck(x, m))
    ensures BitCheck(BitClear(x, n), m) <==> (m != n && BitCheck(x, m))
  {
    hide BitCheck, BitSet, BitClear, Mask, Hits;
    CheckIsMask(x, m);
    CheckIsMask(BitSet(x, n), m);
    CheckIsMask(BitClear(x, n), m);
    if n == m {
      WriteHere(x, n);
    } else {
      SetOther(x, n, m);
      ClearOther(x, n, m);
    }
  }

  // ----- the bitmap -----

  function BitIndex(i: nat): (n: bv7)
    ensures n < 64
  {
    (i % 64) as bv7
  }

  /** Whether bit i is set; false beyond the end. */
  predicate Get(words: seq<bv64>, i: nat) {
    i < 64 * |words| && BitCheck(words[i / 64], BitIndex(i))
  }

  /** The words after writing bit i; unchanged beyond the end. */
  function Put(words: seq<bv64>, i: nat, state: bool): seq<bv64> {
    if i >= 64 * |words| then words
    else words[i / 64 := if state then BitSet(words[i / 64], BitIndex(i)) else BitClear(words[i / 64], BitIndex(i))]
  }

  lemma CastInjective(i: nat, j: nat)
    requires i < 64 && j < 64 && i as bv7 == j as bv7
    ensures i == j
  {
  }

  lemma BitIndexInjective(i: nat, j: nat)
    requires i / 64 == j / 64 && BitIndex(i) == BitIndex(j)
    ensures i == j
  {
    CastInjective(i % 64, j % 64);
  }

  /** Writing a bit changes that bit and no other. */
  lemma {:induction false} PutGet(words: seq<bv64>, i: nat, state: bool, j: nat)
    ensures |Put(words, i, state)| == |words|
    ensures Get(Put(words, i, state), j) <==> if j == i && i < 64 * |words| then state else Get(words, j)
  {
    if i < 64 * |words| && j / 64 == i / 64 {
      hide BitCheck, BitSet, BitClear, BitIndex;
      BitWriteEffect(words[i / 64], BitIndex(i), BitIndex(j));
      if BitIndex(i) == BitIndex(j) {
        BitIndexInjective(i, j);
      }
    }
  }
}
