/** Facts about products, quotients and remainders. */
module Arithmetic {
  lemma MulLe(x: int, y: int, p: nat)
    requires x <= y
    ensures x * p <= y * p
  {
  }

  lemma MulAssoc(x: int, y: int, z: int)
    ensures x * (y * z) == (x * y) * z
  {
  }

  lemma Swap(x: int, y: int, z: int)
    ensures (x * y) * z == (x * z) * y
  {
  }

  lemma Distribute(x: int, y: int, p: int)
    ensures (x + y) * p == x * p + y * p
  {
  }

  lemma DivModUnique(x: int, y: int, q: int, r: int)
    requires y > 0 && x == q * y + r && 0 <= r < y
    ensures x / y == q && x % y == r
  {
    var k, r' := q - x / y, x % y;
    Distribute(q, -(x / y), y);
    assert k * y == r' - r;
    if k >= 1 {
      MulLe(1, k, y);
    } else if k <= -1 {
      MulLe(k, -1, y);
    }
  }

  lemma DivLess(x: nat, s: nat, t: nat)
    requires t > 0 && x < s * t
    ensures x / t < s
  {
    if x / t >= s {
      MulLe(s, x / t, t);
      assert false;
    }
  }

  lemma DivTight(x: nat, k: nat, low: nat)
    requires k > 0 && low * k <= x
    ensures low <= x / k
  {
    if x / k < low {
      MulLe(x / k + 1, low, k);
      Distribute(x / k, 1, k);
      assert false;
    }
  }
}
