/** Division facts used by several modules. */
module Arithmetic {

  lemma MulMonotone(a: nat, b: nat, c: nat)
    requires a <= b
    ensures c * a <= c * b
  {
  }

  /** q and r with r < d are the quotient and remainder of d * q + r. */
  lemma DivModUnique(d: nat, q: nat, r: nat)
    requires r < d
    ensures (d * q + r) / d == q && (d * q + r) % d == r
  {
    var k := d * q + r;
    assert d * (k / d) + k % d == k;
    if k / d < q {
      MulMonotone(k / d + 1, q, d);
    } else if k / d > q {
      MulMonotone(q + 1, k / d, d);
    }
  }
}
