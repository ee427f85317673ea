/** Sums, differences, comparison and products of 128-bit numbers, c/vasm/hugeint.c. */
module HugeSums {
  import opened Arithmetic
  import opened HugeInt

  predicate Sign(h: Huge) {
    h.hi >= W / 2
  }

  /** A number modulo 2^128 from its halves. */
  lemma HighHalf(n: int, l: nat)
    requires l < W
    ensures (n * W + l) % (W * W) == (n % W) * W + l
  {
    var q, r := n / W, n % W;
    assert n * W + l == q * (W * W) + (r * W + l);
    DivModUnique(n * W + l, W * W, q, r * W + l);
  }

  /** High halves that differ by a number in the middle make different numbers. */
  lemma SameHigh(n: int, m: int, l: nat)
    requires l < W
    ensures (n % W) * W + l == (m * W + l) % (W * W) <==> (n - m) % W == 0
  {
    HighHalf(m, l);
    hide *;
    SameRest(n, m);
    if n % W != m % W {
      Distribute(n % W, -(m % W), W);
      assert (n % W - m % W) * W == (n % W) * W - (m % W) * W;
    }
  }

  lemma SameRest(n: int, m: int)
    ensures n % W == m % W <==> (n - m) % W == 0
  {
    var q, r := n / W, n % W;
    var s, t := m / W, m % W;
    if r >= t {
      DivModUnique(n - m, W, q - s, r - t);
    } else {
      DivModUnique(n - m, W, q - s - 1, r - t + W);
    }
  }

  // ----- sums -----

  /** haddi */
  function HAddI(a: Huge, b: int): Huge
    requires -(W / 2) <= b < W / 2
  {
    var lo := (a.lo + b) % W;
    if b < 0 then Huge(if lo > a.lo then (a.hi - 1) % W else a.hi, lo)
    else Huge(if lo < a.lo then (a.hi + 1) % W else a.hi, lo)
  }

  /** The sum is exact modulo 2^128. */
  lemma HAddIValue(a: Huge, b: int)
    requires -(W / 2) <= b < W / 2
    ensures Val(HAddI(a, b)) == (Val(a) + b) % (W * W)
  {
    var x: int := a.lo + b;
    var h: int := a.hi;
    if x < 0 {
      DivModUnique(x, W, -1, x + W);
      HighHalf(h - 1, x + W);
    } else if x >= W {
      DivModUnique(x, W, 1, x - W);
      HighHalf(h + 1, x - W);
    } else {
      DivModUnique(x, W, 0, x);
      HighHalf(h, x);
      DivModUnique(h, W, 0, h);
    }
  }

  /** hadd, which treats the carry of a negative second operand as a borrow. */
  function HAdd(a: Huge, b: Huge): Huge {
    var lo := (a.lo + b.lo) % W;
    var h: int := a.hi + b.hi;
    if Sign(b) then Huge((if lo > a.lo then h - 1 else h) % W, lo)
    else Huge((if lo < a.lo then h + 1 else h) % W, lo)
  }

  /** The sum is exact modulo 2^128 if and only if the second operand is not negative or its
      low half is 0. */
  lemma HAddValue(a: Huge, b: Huge)
    ensures Val(HAdd(a, b)) == (Val(a) + Val(b)) % (W * W) <==> !Sign(b) || b.lo == 0
  {
    var x: int, h: int := a.lo + b.lo, a.hi + b.hi;
    var lo := x % W;
    var carry := if x >= W then 1 else 0;
    DivModUnique(x, W, carry, x - carry * W);
    var n := if Sign(b) then (if lo > a.lo then h - 1 else h) else (if lo < a.lo then h + 1 else h);
    assert Val(a) + Val(b) == (h + carry) * W + lo;
    SameHigh(n, h + carry, lo);
    NearZero(n - (h + carry));
  }

  /** Five plus minus one. */
  lemma SumCanBeWrong()
    ensures HAdd(Huge(0, 5), Huge(W - 1, W - 1)) == Huge(W - 1, 4)
  {
    DivModUnique(5 + (W - 1), W, 1, 4);
  }

  lemma NearZero(d: int)
    requires -1 <= d <= 1
    ensures d % W == 0 <==> d == 0
  {
  }

  /** hsub */
  function HSub(a: Huge, b: Huge): Huge {
    var lo := (a.lo - b.lo) % W;
    var h: int := a.hi - b.hi;
    if Sign(b) then Huge((if lo < a.lo then h + 1 else h) % W, lo)
    else Huge((if lo > a.lo then h - 1 else h) % W, lo)
  }

  /** How far the difference is off: by 2^64 for the same operands. */
  function SubError(b: Huge): int {
    if Sign(b) && b.lo != 0 then W else 0
  }

  lemma HSubOff(a: Huge, b: Huge)
    ensures Val(HSub(a, b)) == (Val(a) - Val(b) + SubError(b)) % (W * W)
  {
    var x: int, h: int := a.lo - b.lo, a.hi - b.hi;
    var lo := x % W;
    var borrow := if x < 0 then 1 else 0;
    DivModUnique(x, W, -borrow, x + borrow * W);
    var n := if Sign(b) then (if lo < a.lo then h + 1 else h) else (if lo > a.lo then h - 1 else h);
    assert Val(a) - Val(b) + SubError(b) == n * W + lo;
    HighHalf(n, lo);
  }

  lemma HSubValue(a: Huge, b: Huge)
    ensures Val(HSub(a, b)) == (Val(a) - Val(b)) % (W * W) <==> !Sign(b) || b.lo == 0
  {
    HSubOff(a, b);
    var d := Val(a) - Val(b);
    var q, r := d / (W * W), d % (W * W);
    if SubError(b) == W {
      if r + W < W * W {
        DivModUnique(d + W, W * W, q, r + W);
      } else {
        DivModUnique(d + W, W * W, q + 1, r + W - W * W);
      }
    }
  }

  /** Nothing minus minus one. */
  lemma DifferenceCanBeWrong()
    ensures HSub(Huge(0, 0), Huge(W - 1, W - 1)) == Huge(1, 1)
  {
    DivModUnique(0 - (W - 1), W, -1, 1);
  }

  /** hcmp: the sign of the difference. */
  function HCmp(a: Huge, b: Huge): int {
    var c := HSub(a, b);
    if c.hi == 0 && c.lo == 0 then 0 else if Sign(c) then -1 else 1
  }

  function Order(x: int, y: int): int {
    if x < y then -1 else if x == y then 0 else 1
  }

  /** The comparison of signed numbers is right if and only if the difference fits. With an
      error of 2^64 in the difference, equal numbers and those less by less than that compare
      as greater. */
  lemma HCmpValue(a: Huge, b: Huge)
    ensures var d := Signed(a) - Signed(b);
      HCmp(a, b) == Order(Signed(a), Signed(b)) <==>
      if Sign(b) && b.lo != 0 then d < -W || 0 < d < W * W / 2 - W || d > W * W - W
      else -(W * W / 2) <= d < W * W / 2
  {
    HSubOff(a, b);
    var d := Signed(a) - Signed(b);
    SignedModulo(Val(HSub(a, b)), Val(a) - Val(b) + SubError(b), d + SubError(b));
    var c := HSub(a, b);
    assert Val(c) == 0 <==> c.hi == 0 && c.lo == 0;
    assert Sign(c) <==> Val(c) >= W * W / 2;
  }

  /** Minus one compares as greater than itself. */
  lemma ComparisonCanBeWrong()
    ensures HCmp(Huge(W - 1, W - 1), Huge(W - 1, W - 1)) == 1
  {
    HCmpValue(Huge(W - 1, W - 1), Huge(W - 1, W - 1));
    assert HSub(Huge(W - 1, W - 1), Huge(W - 1, W - 1)) == Huge(1, 0);
  }

  /** A residue as the number it stands for. */
  lemma SignedModulo(r: nat, x: int, y: int)
    requires r == x % (W * W) && -(W * W) <= y < W * W + W
    requires y == x || y == x - W * W || y == x + W * W
    ensures r == if y < 0 then y + W * W else if y < W * W then y else y - W * W
  {
    var q := if y < 0 then -1 else if y < W * W then 0 else 1;
    var p := q + if y == x then 0 else if y == x - W * W then 1 else -1;
    DivModUnique(x, W * W, p, y - q * (W * W));
  }

  // ----- products -----

  /** Whether the last test in hmul and hmuli sees a carry, and whether the products of the
      low parts have one. The test takes the product of the high parts. */
  function CarryTaken(x: Word, y: Word): nat {
    if x / B * (y / B) + Cross(x, y) % B * B >= W then 1 else 0
  }

  function CarryNeeded(x: Word, y: Word): nat {
    (x % B * (y % B) + Cross(x, y) % B * B) / W
  }

  /** The sum of the mixed products as it is cut to 64 bits. */
  function Cross(x: Word, y: Word): nat {
    (x / B * (y % B) + x % B * (y / B)) % W
  }

  /** What both functions add to the high half for the product of two low halves. */
  function HighPart(x: Word, y: Word): nat {
    var cross, high := Cross(x, y), x / B * (y / B);
    var low := (cross * B) % W;
    var wrapped := if cross < x / B * (y % B) then B else 0;
    wrapped + cross / B + high + if (high + low) % W < high then 1 else 0
  }

  /** The high half of the product of two low halves, up to the carry that is taken for
      another one. */
  lemma HighPartValue(x: Word, y: Word)
    ensures (x * y) % W < W && x * y == (HighPart(x, y) - CarryTaken(x, y) + CarryNeeded(x, y)) * W + (x * y) % W
  {
    var x1, x0, y1, y0 := x / B, x % B, y / B, y % B;
    SmallProduct(x1, y0);
    SmallProduct(x0, y1);
    SmallProduct(x1, y1);
    SmallProduct(x0, y0);
    FourProducts(x, y, x1, x0, y1, y0);
    Assembled(x1 * y0, x0 * y1, x1 * y1, x0 * y0, Cross(x, y),
              HighPart(x, y), CarryTaken(x, y), CarryNeeded(x, y), x * y);
  }

  lemma Assembled(s: nat, t: nat, high: nat, low: nat, cross: nat, part: nat, taken: nat, needed: nat, product: nat)
    requires s < W && t < W && high < W && low <= (B - 1) * (B - 1) && cross == (s + t) % W
    requires product == high * W + (s + t) * B + low
    requires part ==
      (if cross < s then B else 0) + cross / B + high + if (high + (cross * B) % W) % W < high then 1 else 0
    requires taken == if high + cross % B * B >= W then 1 else 0
    requires needed == (low + cross % B * B) / W
    ensures product == (part - taken + needed) * W + product % W
  {
    var over := if s + t >= W then 1 else 0;
    DivModUnique(s + t, W, over, s + t - over * W);
    var c, e := cross / B, cross % B;
    LowShifted(cross);
    CarryTest(high, e * B);
    var rest := (low + e * B) % W;
    assert product == (high + over * B + c + needed) * W + rest;
    DivModUnique(product, W, high + over * B + c + needed, rest);
  }

  lemma SmallProduct(x: Digit, y: Digit)
    ensures 0 <= x * y <= (B - 1) * (B - 1)
  {
    var a: int, b: int := x, y;
    MulLe(a, B - 1, b);
    MulLe(0, a, b);
  }

  lemma LowShifted(cross: nat)
    ensures (cross * B) % W == cross % B * B
  {
    DivModUnique(cross * B, W, cross / B, cross % B * B);
  }

  lemma FourProducts(x: int, y: int, x1: int, x0: int, y1: int, y0: int)
    requires x == x1 * B + x0 && y == y1 * B + y0
    ensures x * y == x1 * y1 * W + (x1 * y0 + x0 * y1) * B + x0 * y0
  {
    Distribute(x1 * B, x0, y);
    Distribute(y1 * B, y0, x1 * B);
    Distribute(y1 * B, y0, x0);
    Swap(x1, B, y0);
    Swap(x1, B, y1 * B);
    MulAssoc(x1, y1, B);
    MulAssoc(x0, y1, B);
  }

  lemma CarryTest(high: nat, low: nat)
    requires high < W && low < W
    ensures (high + low) % W < high <==> high + low >= W
  {
    if high + low >= W {
      DivModUnique(high + low, W, 1, high + low - W);
    } else {
      DivModUnique(high + low, W, 0, high + low);
    }
  }

  /** hmul */
  function HMul(a: Huge, b: Huge): Huge {
    Huge((a.hi * b.lo + b.hi * a.lo + HighPart(a.lo, b.lo)) % W, (a.lo * b.lo) % W)
  }

  /** The product is exact modulo 2^128 if and only if both carries are the same. */
  lemma HMulValue(a: Huge, b: Huge)
    ensures Val(HMul(a, b)) == (Val(a) * Val(b)) % (W * W) <==>
      CarryTaken(a.lo, b.lo) == CarryNeeded(a.lo, b.lo)
  {
    HighPartValue(a.lo, b.lo);
    CarryIsBit(a.lo, b.lo);
    hide HighPart, CarryTaken, CarryNeeded;
    var taken: int, needed: int, part: int := CarryTaken(a.lo, b.lo), CarryNeeded(a.lo, b.lo), HighPart(a.lo, b.lo);
    var l := (a.lo * b.lo) % W;
    HalvesProduct(a.hi, a.lo, b.hi, b.lo, part - taken + needed, l);
    CarriesMatter(Val(a) * Val(b), a.hi * b.hi, a.hi * b.lo + b.hi * a.lo + part, taken, needed, l);
  }

  lemma CarriesMatter(product: int, k: int, high: int, taken: nat, needed: nat, l: nat)
    requires product == k * (W * W) + ((high - taken + needed) * W + l) && l < W && taken <= 1 && needed <= 1
    ensures (high % W) * W + l == product % (W * W) <==> taken == needed
  {
    var m := high - taken + needed;
    WholeMultiple(m * W + l, k);
    SameHigh(high, m, l);
    NearZero(taken - needed);
  }

  /** A product with ten. */
  lemma ProductCanBeWrong()
    ensures var a, b := Huge(0, 0x1999_9999_ffff_ffff), Huge(0, 10); Val(HMul(a, b)) != (Val(a) * Val(b)) % (W * W)
  {
    HMulValue(Huge(0, 0x1999_9999_ffff_ffff), Huge(0, 10));
  }

  lemma CarryIsBit(x: Word, y: Word)
    ensures 0 <= CarryNeeded(x, y) <= 1 && CarryTaken(x, y) <= 1
  {
    SmallProduct(x % B, y % B);
  }

  lemma HalvesProduct(a1: int, a0: int, b1: int, b0: int, n: int, l: int)
    requires a0 * b0 == n * W + l
    ensures (a1 * W + a0) * (b1 * W + b0) == a1 * b1 * (W * W) + ((a1 * b0 + b1 * a0 + n) * W + l)
  {
    Distribute(a1 * W, a0, b1 * W + b0);
    Distribute(b1 * W, b0, a1 * W);
    Distribute(b1 * W, b0, a0);
    Swap(a1, W, b0);
    Swap(a1, W, b1 * W);
    MulAssoc(a1, b1, W);
    Swap(b1, W, a0);
  }

  lemma WholeMultiple(x: int, k: int)
    ensures (k * (W * W) + x) % (W * W) == x % (W * W)
  {
    DivModUnique(k * (W * W) + x, W * W, k + x / (W * W), x % (W * W));
  }

  /** The factor of hmuli as the source converts it. */
  function Unsigned(b: int): (w: Word)
    requires -(W / 2) <= b < W / 2
  {
    if b < 0 then b + W else b
  }

  /** hmuli */
  function HMulI(a: Huge, b: int): Huge
    requires -(W / 2) <= b < W / 2
  {
    var ub := Unsigned(b);
    Huge((a.hi * ub + HighPart(a.lo, ub)) % W, (a.lo * ub) % W)
  }

  /** The product with a signed number is exact modulo 2^128 if and only if the carries and the
      part that a negative factor should subtract cancel. */
  lemma HMulIValue(a: Huge, b: int)
    requires -(W / 2) <= b < W / 2
    ensures Val(HMulI(a, b)) == (Val(a) * b) % (W * W) <==>
      (CarryTaken(a.lo, Unsigned(b)) - CarryNeeded(a.lo, Unsigned(b)) + if b < 0 then a.lo else 0) % W == 0
  {
    var ub: int := Unsigned(b);
    var taken, needed, l := CarryTaken(a.lo, ub), CarryNeeded(a.lo, ub), (a.lo * ub) % W;
    var part := HighPart(a.lo, ub);
    HighPartValue(a.lo, ub);
    hide HighPart, CarryTaken, CarryNeeded;
    var less := if b < 0 then Val(a) else 0;
    var m := a.hi * ub + part - taken + needed - less;
    HalvesProduct(a.hi, a.lo, 0, ub, part - taken + needed, l);
    SignedFactor(Val(a), b);
    assert Val(a) * b == m * W + l;
    SameHigh(a.hi * ub + part, m, l);
    var d: int := taken - needed + if b < 0 then a.lo else 0;
    SameRest(taken - needed + less, d);
    if b < 0 {
      DivModUnique(a.hi * W, W, a.hi, 0);
    }
  }

  lemma SignedFactor(v: nat, b: int)
    requires -(W / 2) <= b < W / 2
    ensures v * b == v * Unsigned(b) - if b < 0 then v * W else 0
  {
    if b < 0 {
      Distribute(b, W, v);
    }
  }

  /** For small factors no carry is taken. */
  lemma SmallFactor(a: Huge, b: nat)
    requires b < B
    ensures CarryTaken(a.lo, Unsigned(b)) == 0
    ensures CarryNeeded(a.lo, Unsigned(b)) == ((a.lo / B * b) % B * B + a.lo % B * b) / W
  {
    SmallProduct(a.lo / B, b);
    assert Unsigned(b) / B == 0 && Unsigned(b) % B == b;
    DivModUnique(a.lo / B * b, W, 0, a.lo / B * b);
  }
}
