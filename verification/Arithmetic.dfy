/** Nonlinear facts the other modules call by name. */
module Arithmetic {

  lemma MulNonNegative(x: int, y: int)
    requires x >= 0 && y >= 0
    ensures x * y >= 0
  {
  }

  lemma MulAssoc(x: int, y: int, z: int, yz: int)
    requires yz == y * z
    ensures x * yz == (x * y) * z
  {
  }

  lemma MulMonotone(x: int, y: int, k: int)
    requires x <= y && k >= 0
    ensures x * k <= y * k
  {
  }

  lemma DivUnique(x: int, d: int, q: int, r: int)
    requires d > 0 && 0 <= r < d
    requires x == q * d + r
    ensures x / d == q && x % d == r
  {
    var q', r' := x / d, x % d;
    assert (q - q') * d == r' - r;
    if q > q' {
      MulMonotone(1, q - q', d);
    } else if q < q' {
      MulMonotone(q - q', -1, d);
    }
  }

  lemma ModOfMultiple(x: int, k: int, d: int)
    requires d > 0
    ensures (x + k * d) % d == x % d
  {
    var q := x / d;
    assert x == q * d + x % d;
    assert (q + k) * d == q * d + k * d;
    DivUnique(x + k * d, d, q + k, x % d);
  }

  /** Reducing a factor first does not change a product's residue. */
  lemma ModMul(x: int, y: int, d: int)
    requires d > 0
    ensures ((x % d) * y) % d == (x * y) % d
  {
    var p, u := x / d, x % d;
    assert x * y == u * y + (p * y) * d by {
      assert (p * d + u) * y == (p * d) * y + u * y;
      assert (p * d) * y == (p * y) * d;
    }
    ModOfMultiple(u * y, p * y, d);
  }

  lemma DivDiv(x: nat, p: nat, d: nat)
    requires p > 0 && d > 0
    ensures p * d > 0 && (x / d) / p == x / (p * d)
  {
    var q, r := (x / d) / p, (x / d) % p;
    var low := x % d;
    assert x == (q * p + r) * d + low;
    assert (q * p + r) * d == q * (p * d) + r * d;
    MulMonotone(r + 1, p, d);
    assert (r + 1) * d == r * d + d;
    MulMonotone(1, p, d);
    DivUnique(x, p * d, q, r * d + low);
  }
}
