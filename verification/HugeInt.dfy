/** The 128-bit integers of c/vasm/hugeint.c: division with Knuth's Algorithm D
    (The Art of Computer Programming, volume 2, section 4.3.1) on 32-bit digits. */
module HugeInt {
  import opened Arithmetic
  import opened CIntegers

  const B: int := 0x1_0000_0000
  const W: int := 0x1_0000_0000_0000_0000

  /** uint32_t and uint64_t */
  type Digit = x: int | 0 <= x < B
  type Word = x: int | 0 <= x < W

  // ----- digit strings, most significant digit first -----

  function Pow(k: nat): (r: nat)
    ensures r >= 1
  {
    if k == 0 then 1 else B * Pow(k - 1)
  }

  function Num(s: seq<Digit>): (r: nat)
    ensures r < Pow(|s|)
  {
    if s == [] then 0
    else
      MulLe(s[0], B - 1, Pow(|s| - 1));
      s[0] * Pow(|s| - 1) + Num(s[1..])
  }

  lemma {:induction false} PowAdd(a: nat, b: nat)
    ensures Pow(a + b) == Pow(a) * Pow(b)
  {
    if a > 0 {
      PowAdd(a - 1, b);
      MulAssoc(B, Pow(a - 1), Pow(b));
    }
  }

  lemma NumCons(d: Digit, s: seq<Digit>)
    ensures Num([d] + s) == d * Pow(|s|) + Num(s)
  {
    assert ([d] + s)[1..] == s;
  }

  lemma {:induction false} NumAppend(s: seq<Digit>, t: seq<Digit>)
    ensures Num(s + t) == Num(s) * Pow(|t|) + Num(t)
    decreases |s|
  {
    hide Pow;
    if s == [] {
      assert s + t == t;
      assert Num(s) == 0;
    } else {
      hide Num;
      var d, rest := s[0], s[1..];
      assert s + t == [d] + (rest + t) && s == [d] + rest;
      NumCons(d, rest + t);
      NumCons(d, rest);
      NumAppend(rest, t);
      PowAdd(|rest|, |t|);
      MulAssoc(d, Pow(|rest|), Pow(|t|));
      Distribute(d * Pow(|rest|), Num(rest), Pow(|t|));
    }
  }

  /** The number of a string, split before its last digit. */
  lemma NumSnoc(s: seq<Digit>)
    requires s != []
    ensures Num(s) == Num(s[..|s| - 1]) * B + s[|s| - 1]
  {
    var last := [s[|s| - 1]];
    assert s == s[..|s| - 1] + last;
    NumAppend(s[..|s| - 1], last);
    assert Pow(1) == B * Pow(0) == B;
    assert last[1..] == [];
  }

  lemma {:induction false} NumZeros(s: seq<Digit>)
    requires forall k :: 0 <= k < |s| ==> s[k] == 0
    ensures Num(s) == 0
  {
    if s != [] {
      NumZeros(s[1..]);
    }
  }

  // ----- shifting -----

  function Pow2(k: nat): (r: nat)
    ensures r >= 1
  {
    if k == 0 then 1 else 2 * Pow2(k - 1)
  }

  lemma {:induction false} Pow2Add(a: nat, b: nat)
    ensures Pow2(a + b) == Pow2(a) * Pow2(b)
  {
    if a > 0 {
      Pow2Add(a - 1, b);
      MulAssoc(2, Pow2(a - 1), Pow2(b));
    }
  }

  lemma Split32(sh: nat)
    requires sh <= 32
    ensures Pow2(sh) * Pow2(32 - sh) == B
  {
    Pow2Add(sh, 32 - sh);
    PowersOfTwo();
  }

  lemma PowersOfTwo()
    ensures Pow2(8) == 0x100 && Pow2(16) == 0x1_0000 && Pow2(32) == B
  {
    Pow2Add(4, 4);
    assert Pow2(4) == 16;
    Pow2Add(8, 8);
    Pow2Add(16, 16);
  }

  /** x << sh in 64 bits, cut to the low half: the low sh bits are zero, so that the
      following `or` with a number below 2^sh is a sum. */
  function LowShift(x: Digit, sh: nat): Digit {
    hide Pow2;
    (x * Pow2(sh)) % B
  }

  /** x >> d, and the bits that it drops. */
  function DropBits(x: Digit, d: nat): nat {
    hide Pow2;
    x / Pow2(d)
  }

  function LowBits(x: Digit, d: nat): nat {
    hide Pow2;
    x % Pow2(d)
  }

  lemma BitsSplit(x: Digit, d: nat)
    requires d <= 32
    ensures x == DropBits(x, d) * Pow2(d) + LowBits(x, d)
    ensures DropBits(x, d) < Pow2(32 - d) && LowBits(x, d) < Pow2(d)
  {
    hide Pow2;
    Split32(d);
    DivLess(x, Pow2(32 - d), Pow2(d));
  }

  /** The high bits that leave x when it is shifted left. */
  function HighShift(x: Digit, sh: nat): nat
    requires sh <= 32
  {
    DropBits(x, 32 - sh)
  }

  /** What x << sh splits into. */
  lemma ShiftSplits(x: Digit, sh: nat)
    requires sh <= 32
    ensures x * Pow2(sh) == HighShift(x, sh) * B + LowShift(x, sh)
    ensures LowShift(x, sh) == LowBits(x, 32 - sh) * Pow2(sh)
    ensures HighShift(x, sh) < Pow2(sh) && LowShift(x, sh) + Pow2(sh) <= B
  {
    hide Pow2, DropBits, LowBits;
    Split32(sh);
    BitsSplit(x, 32 - sh);
    ShiftParts(x, Pow2(sh), Pow2(32 - sh), DropBits(x, 32 - sh), LowBits(x, 32 - sh));
  }

  lemma ShiftParts(x: nat, s: nat, t: nat, h: nat, r: nat)
    requires s * t == B && x == h * t + r && r < t
    ensures x * s == h * B + r * s && r * s + s <= B && (s > 0 ==> (x * s) % B == r * s)
  {
    Distribute(h * t, r, s);
    MulAssoc(h, t, s);
    MulLe(r + 1, t, s);
    Distribute(r, 1, s);
    MulLe(0, r, s);
    if s > 0 {
      DivModUnique(x * s, B, h, r * s);
    }
  }

  // ----- strings of digits shifted left and right -----

  function Join(x: Digit, next: Digit, sh: nat): Digit
    requires sh <= 32
  {
    PartsFit(x, next, sh);
    LowShift(x, sh) + HighShift(next, sh)
  }

  lemma PartsFit(x: Digit, next: Digit, sh: nat)
    requires sh <= 32
    ensures LowShift(x, sh) + HighShift(next, sh) < B
  {
    hide *;
    ShiftSplits(x, sh);
    ShiftSplits(next, sh);
  }

  function Shifted(s: seq<Digit>, sh: nat): seq<Digit>
    requires sh <= 32
  {
    seq(|s|, k requires 0 <= k < |s| => Join(s[k], if k + 1 < |s| then s[k + 1] else 0, sh))
  }

  /** The bits that leave the front of a string. */
  function Overflow(s: seq<Digit>, sh: nat): nat
    requires sh <= 32
  {
    if s == [] then 0 else HighShift(s[0], sh)
  }

  lemma {:induction false} ShiftedValue(s: seq<Digit>, sh: nat)
    requires sh <= 32
    ensures Num(s) * Pow2(sh) == Overflow(s, sh) * Pow(|s|) + Num(Shifted(s, sh))
    decreases |s|
  {
    hide Pow2, HighShift, LowShift;
    if s != [] {
      var d, rest := s[0], s[1..];
      var p := Pow(|rest|);
      ShiftedValue(rest, sh);
      ShiftSplits(d, sh);
      assert Shifted(s, sh) == [Shifted(s, sh)[0]] + Shifted(rest, sh);
      NumCons(Shifted(s, sh)[0], Shifted(rest, sh));
      assert HighShift(0, sh) == 0 by { ShiftSplits(0, sh); }
      ShiftStep(d, p, Num(rest), Pow2(sh), HighShift(d, sh), LowShift(d, sh), Overflow(rest, sh),
                Num(Shifted(rest, sh)));
    }
  }

  lemma ShiftStep(d: int, p: int, n: int, s: int, h: int, l: int, o: int, m: int)
    requires d * s == h * B + l && n * s == o * p + m
    ensures (d * p + n) * s == h * (B * p) + ((l + o) * p + m)
  {
    Distribute(d * p, n, s);
    MulAssoc(d, p, s);
    MulAssoc(d, s, p);
    Distribute(h * B, l, p);
    MulAssoc(h, B, p);
    Distribute(l, o, p);
  }

  /** The digits of s after the first, shifted right, the low bits of each digit
      moving into the next one. */
  function Unshifted(s: seq<Digit>, d: nat): seq<Digit>
    requires s != [] && d <= 32
  {
    seq(|s| - 1, k requires 0 <= k < |s| - 1 => Meet(s[k], s[k + 1], d))
  }

  function Meet(prev: Digit, x: Digit, d: nat): Digit
    requires d <= 32
  {
    BitsFit(prev, x, d);
    DropBits(x, d) + LowShift(prev, 32 - d)
  }

  lemma BitsFit(prev: Digit, x: Digit, d: nat)
    requires d <= 32
    ensures DropBits(x, d) + LowShift(prev, 32 - d) < B
  {
    hide *;
    ShiftSplits(prev, 32 - d);
    BitsSplit(x, d);
  }

  ghost predicate ShiftsBack(s: seq<Digit>, d: nat)
    requires s != [] && d <= 32
  {
    LowBits(s[0], d) * Pow(|s| - 1) + Num(s[1..]) == Num(Unshifted(s, d)) * Pow2(d) + LowBits(s[|s| - 1], d)
  }

  lemma {:induction false} UnshiftedValue(s: seq<Digit>, d: nat)
    requires s != [] && d <= 32
    ensures ShiftsBack(s, d)
    decreases |s|
  {
    hide Pow2, LowShift;
    if |s| == 1 {
      assert Unshifted(s, d) == [] && s[1..] == [];
      PowSmall();
    } else {
      hide ShiftsBack;
      UnshiftedValue(s[1..], d);
      UnshiftedMore(s, d);
    }
  }

  lemma UnshiftedMore(s: seq<Digit>, d: nat)
    requires |s| > 1 && d <= 32 && ShiftsBack(s[1..], d)
    ensures ShiftsBack(s, d)
  {
    hide Pow2, LowShift, Num, Unshifted, Pow, DropBits, LowBits;
    var a, b, rest := s[0], s[1], s[1..];
    UnshiftedCons(s, d);
    NumCons(Meet(a, b, d), Unshifted(rest, d));
    NumCons(b, rest[1..]);
    assert rest == [b] + rest[1..];
    ShiftSplits(a, 32 - d);
    BitsSplit(b, d);
    Split32(d);
    PowNext(|s| - 2);
    UnshiftStep(LowBits(a, d), DropBits(b, d), LowBits(b, d), Pow2(32 - d), Pow2(d), Pow(|s| - 2),
                Num(rest[1..]), Num(Unshifted(rest, d)), LowBits(rest[|rest| - 1], d));
  }

  lemma PowNext(k: nat)
    ensures Pow(k + 1) == B * Pow(k)
  {
  }

  lemma UnshiftedCons(s: seq<Digit>, d: nat)
    requires |s| > 1 && d <= 32
    ensures Unshifted(s, d) == [Meet(s[0], s[1], d)] + Unshifted(s[1..], d)
    ensures |Unshifted(s[1..], d)| == |s| - 2
  {
  }

  lemma UnshiftStep(a: int, h: int, r: int, t: int, s: int, p: int, n: int, m: int, last: int)
    requires s * t == B && r * p + n == m * s + last
    ensures a * (B * p) + ((h * s + r) * p + n) == ((h + a * t) * p + m) * s + last
  {
    Distribute(h * s, r, p);
    Distribute((h + a * t) * p, m, s);
    Distribute(h, a * t, p);
    Distribute(h * p, a * t * p, s);
    MulAssoc(h, p, s);
    MulAssoc(h, s, p);
    assert a * (B * p) == a * t * p * s by {
      MulAssoc(a * t, p, s);
      MulAssoc(a, t, p * s);
      MulAssoc(t, s, p);
    }
  }

  // ----- the quotient digit -----

  function Estimate(top3: nat, top2: nat): nat
    requires top2 > 0
  {
    if top3 / top2 < B then top3 / top2 else B - 1
  }

  /** For a normalised divisor of n digits, the estimate from the top three digits of
      the dividend and the top two of the divisor is the quotient digit or one more. */
  lemma EstimateIsClose(u: nat, v: nat, n: nat)
    requires n >= 2 && Pow(n) <= 2 * v && u < v * B
    ensures v / Pow(n - 2) > 0
    ensures var e := Estimate(u / Pow(n - 2), v / Pow(n - 2));
      u / v <= e <= u / v + 1 && (n == 2 ==> e == u / v)
  {
    hide Pow;
    var k := Pow(n - 2);
    var x, y, q := u / k, v / k, u / v;
    PowTop(n);
    DivTight(v, k, B * B / 2);
    DivLess(u, B, v);
    EstimateLow(u, v, k);
    var e := Estimate(x, y);
    if e > 0 {
      EstimateHigh(u, v, k, e);
    }
    if n == 2 {
      assert k == 1 by { PowSmall(); }
    }
  }

  lemma PowSmall()
    ensures Pow(0) == 1 && Pow(1) == B
  {
    assert Pow(1) == B * Pow(0);
  }

  lemma PowTop(n: nat)
    requires n >= 2
    ensures Pow(n) == (B * B) * Pow(n - 2)
  {
  }

  /** The true digit never exceeds the estimate. */
  lemma EstimateLow(u: nat, v: nat, k: nat)
    requires k > 0 && v / k > 0 && v > 0
    ensures u / v <= (u / k) / (v / k)
  {
    var x, y, q := u / k, v / k, u / v;
    MulLe(q, q, v);
    assert q * y * k <= u by {
      MulAssoc(q, y, k);
      MulLe(y * k, v, q);
    }
    if q * y > x {
      MulLe(x + 1, q * y, k);
      Distribute(x, 1, k);
      assert false;
    }
    DivTight(x, y, q);
  }

  /** One less than the estimate never exceeds the true digit. */
  lemma EstimateHigh(u: nat, v: nat, k: nat, e: nat)
    requires k > 0 && 0 < e < B && v / k >= B * B / 2 && v > 0
    requires e <= (u / k) / (v / k)
    ensures e - 1 <= u / v
  {
    var x, y := u / k, v / k;
    assert e * y <= x by { MulLe(e, x / y, y); }
    assert (e - 1) * (y + 1) <= x by {
      Distribute(y, 1, e - 1);
      Distribute(e, -1, y);
    }
    assert (e - 1) * v <= u by {
      assert v <= (y + 1) * k by { Distribute(y, 1, k); }
      MulLe(v, (y + 1) * k, e - 1);
      MulAssoc(e - 1, y + 1, k);
      MulLe((e - 1) * (y + 1), x, k);
    }
    DivTight(u, v, e - 1);
  }

  /** The number that the leading digits of a string form. */
  lemma LeadingDigits(s: seq<Digit>, k: nat)
    requires k <= |s|
    ensures Num(s) / Pow(|s| - k) == Num(s[..k])
  {
    assert s == s[..k] + s[k..];
    NumAppend(s[..k], s[k..]);
    DivModUnique(Num(s), Pow(|s| - k), Num(s[..k]), Num(s[k..]));
  }

  lemma TwoDigits(s: seq<Digit>)
    requires |s| >= 2
    ensures Num(s) / Pow(|s| - 2) == s[0] * B + s[1]
  {
    hide Num, Pow;
    LeadingDigits(s, 2);
    NumSnoc(s[..2]);
    assert s[..2][..1] == [s[0]];
    OneDigitValue(s[0]);
  }

  lemma OneDigitValue(d: Digit)
    ensures Num([d]) == d
  {
    NumCons(d, []);
    PowSmall();
    assert [d] + [] == [d];
  }

  lemma ThreeDigits(s: seq<Digit>)
    requires |s| >= 3
    ensures Num(s) / Pow(|s| - 3) == (s[0] * B + s[1]) * B + s[2]
  {
    hide Num, Pow;
    LeadingDigits(s, 3);
    NumSnoc(s[..3]);
    assert s[..3][..2] == s[..2];
    TwoDigits(s[..2]);
    PowSmall();
  }

  /** v2 * qhat > COMBINE(rhat, u2), in 64 bits */
  predicate FailsTest(v2: Digit, qhat: nat, rhat: nat, u2: Digit) {
    (v2 * qhat) % W > rhat * B + u2
  }

  ghost predicate Divides(nn: nat, v1: nat, qhat: nat, rhat: nat) {
    nn == qhat * v1 + rhat
  }

  /** The quotient digit as it is estimated from leading digits: a digit too large is
      decreased until it passes the test with the second digit. */
  method EstimateDigit(u0: Digit, u1: Digit, u2: Digit, v1: Digit, v2: Digit) returns (qhat: nat)
    requires v1 >= B / 2
    ensures u0 * B + u1 <= v1 * B + v2 ==> qhat == Estimate((u0 * B + u1) * B + u2, v1 * B + v2)
  {
    hide FailsTest, Divides, Estimate;
    var rhat: nat;
    var nn := u0 * B + u1;
    ghost var x, y := nn * B + u2, v1 * B + v2;
    if u0 == v1 {
      qhat, rhat := B, u1;
      TooLargeByOne(nn, v1, u1);
      Decrease(nn, v1, qhat, rhat);
      qhat := qhat - 1;
      rhat := rhat + v1;
      EstimateIsDigit(x, y);
      if rhat >= B {
        EstimateFits(nn, qhat, rhat, v1, v2, u2);
        return;
      }
    } else {
      FirstEstimate(nn, u2, v1, v2);
      qhat, rhat := nn / v1, nn % v1;
    }
    while FailsTest(v2, qhat, rhat, u2)
      invariant 0 <= rhat < B && Divides(nn, v1, qhat, rhat)
      invariant nn <= y ==> qhat < B && Estimate(x, y) <= qhat
      decreases qhat
    {
      TestNeedsDigit(v2, qhat, rhat, u2);
      if nn <= y {
        TooLarge(nn, qhat, rhat, v1, v2, u2);
      }
      Decrease(nn, v1, qhat, rhat);
      qhat := qhat - 1;
      rhat := rhat + v1;
      if rhat >= B {
        break;
      }
    }
    if nn <= y {
      EstimateFits(nn, qhat, rhat, v1, v2, u2);
    }
  }

  lemma Decrease(nn: nat, v1: nat, qhat: nat, rhat: nat)
    requires qhat > 0 && Divides(nn, v1, qhat, rhat)
    ensures Divides(nn, v1, qhat - 1, rhat + v1)
  {
    Distribute(qhat, -1, v1);
  }

  lemma TooLargeByOne(nn: nat, v1: nat, u1: nat)
    requires nn == v1 * B + u1
    ensures Divides(nn, v1, B, u1)
  {
  }

  lemma FirstEstimate(nn: nat, u2: Digit, v1: Digit, v2: Digit)
    requires v1 > 0
    ensures Divides(nn, v1, nn / v1, nn % v1) && nn % v1 < B
    ensures nn < v1 * B ==> nn / v1 < B
    ensures Estimate(nn * B + u2, v1 * B + v2) <= nn / v1
  {
    if nn < v1 * B {
      DivLess(nn, B, v1);
    }
    EstimateBounded(nn * B + u2, v1 * B + v2, nn, v1);
  }

  lemma EstimateIsDigit(x: nat, y: nat)
    requires y > 0
    ensures Estimate(x, y) < B
  {
  }

  lemma TestNeedsDigit(v2: Digit, qhat: nat, rhat: nat, u2: Digit)
    requires FailsTest(v2, qhat, rhat, u2)
    ensures qhat > 0
  {
  }

  /** An estimate that passes the test fits into the leading digits. */
  lemma EstimateFits(nn: nat, qhat: nat, rhat: nat, v1: Digit, v2: Digit, u2: Digit)
    requires v1 > 0 && Divides(nn, v1, qhat, rhat) && qhat < B
    requires rhat >= B || !FailsTest(v2, qhat, rhat, u2)
    ensures qhat <= Estimate(nn * B + u2, v1 * B + v2)
  {
    MulLe(v2, B - 1, qhat);
    assert v2 * qhat <= rhat * B + u2;
    Expand(qhat, v1, v2, rhat, u2);
    DivTight(nn * B + u2, v1 * B + v2, qhat);
  }

  lemma Expand(q: int, v1: int, v2: int, r: int, u2: int)
    ensures (q * v1 + r) * B + u2 == q * (v1 * B + v2) + (r * B + u2 - v2 * q)
  {
    Distribute(q * v1, r, B);
    Distribute(v1 * B, v2, q);
    MulAssoc(q, v1, B);
  }

  /** An estimate that fails the test does not fit. */
  lemma TooLarge(nn: nat, qhat: nat, rhat: nat, v1: Digit, v2: Digit, u2: Digit)
    requires v1 > 0 && Divides(nn, v1, qhat, rhat) && qhat < B
    requires FailsTest(v2, qhat, rhat, u2)
    ensures Estimate(nn * B + u2, v1 * B + v2) < qhat
  {
    MulLe(v2, B - 1, qhat);
    Expand(qhat, v1, v2, rhat, u2);
    DivLess(nn * B + u2, qhat, v1 * B + v2);
  }

  lemma EstimateBounded(x: nat, y: nat, nn: nat, v1: Digit)
    requires v1 > 0 && y >= v1 * B && nn == x / B
    ensures y > 0 && Estimate(x, y) <= nn / v1
  {
    var q := x / y;
    MulLe(v1 * B, y, q);
    MulAssoc(q, v1, B);
    DivTight(x, B, q * v1);
    DivTight(nn, v1, q);
  }

  /** The next borrow, recovered from a 64-bit difference. */
  function Borrow(w: nat): Digit {
    (B - w / B) % B
  }

  lemma BorrowOf(x: int)
    requires -B * (B - 1) <= x < B
    ensures (x % W) % B - Borrow(x % W) * B == x
  {
    if x >= 0 {
      DivModUnique(x, W, 0, x);
      DivModUnique(x, B, 0, x);
    } else {
      var h, l := x / B, x % B;
      DivModUnique(x, W, -1, x + W);
      DivModUnique(x + W, B, h + B, l);
      DivModUnique(-h, B, 0, -h);
    }
  }

  /** One step of multiply-and-subtract: the digit and the borrow out of it. */
  lemma BorrowStep(u: Digit, v: Digit, qhat: Digit, t: Digit)
    ensures var x := u - v * qhat - t;
      (x % W) % B - Borrow(x % W) * B == x
  {
    hide Borrow;
    ProductBound(v, qhat);
    BorrowOf(u - v * qhat - t);
  }

  lemma ProductBound(v: Digit, qhat: Digit)
    ensures 0 <= v * qhat <= (B - 1) * (B - 1)
  {
    var x: int, y: int := v, qhat;
    MulLe(0, x, qhat);
    MulLe(x, B - 1, qhat);
    var p := x * y;
    assert 0 <= p <= (B - 1) * y;
  }

  /** The digits at position at and after, subtracted so far. */
  ghost predicate Subtracted(now: seq<Digit>, was: seq<Digit>, vs: seq<Digit>, qhat: nat, t: nat) {
    |now| == |was| == |vs| && t < B && Num(now) == Num(was) - qhat * Num(vs) + t * Pow(|vs|)
  }

  lemma SubtractedMore(now: seq<Digit>, was: seq<Digit>, vs: seq<Digit>, qhat: Digit, t: Digit, u: Digit, v: Digit)
    requires Subtracted(now, was, vs, qhat, t)
    ensures var w := (u - v * qhat - t) % W;
      Subtracted([w % B] + now, [u] + was, [v] + vs, qhat, Borrow(w))
  {
    hide Num, Pow, Borrow;
    var w := (u - v * qhat - t) % W;
    BorrowStep(u, v, qhat, t);
    NumCons(w % B, now);
    NumCons(u, was);
    NumCons(v, vs);
    PowNext(|vs|);
    SubtractStep(u, v, qhat, t, w % B, Borrow(w), Pow(|vs|), Num(now), Num(was), Num(vs));
  }

  lemma SubtractStep(u: int, v: int, q: int, t: int, u': int, t': int, p: int, low: int, ulow: int, vlow: int)
    requires u' - t' * B == u - v * q - t && low == ulow - q * vlow + t * p
    ensures u' * p + low == (u * p + ulow) - q * (v * p + vlow) + t' * (B * p)
  {
    assert u' == u - v * q - t + t' * B;
    Distribute(u - v * q - t, t' * B, p);
    Distribute(u - v * q, -t, p);
    Distribute(u, -(v * q), p);
    Distribute(v * p, vlow, q);
    MulAssoc(q, v, p);
    MulAssoc(t', B, p);
  }

  /** Subtract qhat times the divisor from the window of the dividend at position at. */
  method MultiplySubtract(u: array<Digit>, at: nat, v: array<Digit>, vo: nat, n: nat, qhat: nat)
    returns (borrowed: bool)
    requires u != v && at + n < u.Length && vo + n < v.Length
    modifies u
    ensures forall k :: 0 <= k < at || at + n < k < u.Length ==> u[k] == old(u[k])
    ensures qhat < B ==>
      Num(u[at..at + n + 1]) ==
        old(Num(u[at..at + n + 1])) - qhat * Num(v[vo + 1..vo + n + 1]) + if borrowed then Pow(n + 1) else 0
  {
    hide Borrow, Subtracted, Num, Pow;
    var t, i := 0, n;
    ghost var u0, vs := u[at..at + n + 1], v[vo + 1..vo + n + 1];
    assert Subtracted([], [], [], qhat, 0) by { SubtractedNone(qhat); }
    assert u[at + n + 1..at + n + 1] == [] && u0[n + 1..] == [] && vs[n..] == [];
    while i > 0
      invariant 0 <= i <= n && 0 <= t < W
      invariant forall k :: 0 <= k <= at + i || at + n < k < u.Length ==> u[k] == old(u[k])
      invariant qhat < B ==> Subtracted(u[at + i + 1..at + n + 1], u0[i + 1..], vs[i..], qhat, t)
    {
      ghost var t0, low := t, u[at + i + 1..at + n + 1];
      if qhat < B {
        assert t < B by { SmallBorrow(low, u0[i + 1..], vs[i..], qhat, t); }
        SubtractedMore(low, u0[i + 1..], vs[i..], qhat, t, u[at + i], v[vo + i]);
        assert u0[i..] == [u[at + i]] + u0[i + 1..] && vs[i - 1..] == [v[vo + i]] + vs[i..];
      }
      t := (u[at + i] - v[vo + i] * qhat - t) % W;
      u[at + i] := t % B;
      assert u[at + i..at + n + 1] == [u[at + i]] + low;
      t := Borrow(t);
      i := i - 1;
    }
    ghost var low := u[at + 1..at + n + 1];
    assert vs[0..] == vs;
    ghost var t0 := t;
    t := (u[at] - t) % W;
    u[at] := t % B;
    borrowed := t / B != 0;
    if qhat < B {
      SmallBorrow(low, u0[1..], vs, qhat, t0);
      assert u[at..at + n + 1] == [u[at]] + low && u0 == [old(u[at])] + u0[1..];
      SubtractedAll(low, u0[1..], vs, qhat, t0, old(u[at]));
    }
  }

  lemma SubtractedNone(qhat: nat)
    ensures Subtracted([], [], [], qhat, 0)
  {
  }

  lemma SmallBorrow(now: seq<Digit>, was: seq<Digit>, vs: seq<Digit>, qhat: nat, t: nat)
    requires Subtracted(now, was, vs, qhat, t)
    ensures t < B
  {
  }

  /** The last borrow goes out of the top digit. */
  lemma SubtractedAll(now: seq<Digit>, was: seq<Digit>, vs: seq<Digit>, qhat: Digit, t: Digit, u: Digit)
    requires Subtracted(now, was, vs, qhat, t)
    ensures var w := (u - t) % W;
      Num([w % B] + now) == Num([u] + was) - qhat * Num(vs) + if w / B != 0 then Pow(|vs| + 1) else 0
  {
    hide Num, Pow;
    var w := (u - t) % W;
    NumCons(w % B, now);
    NumCons(u, was);
    PowNext(|vs|);
    TopBorrow(u, t, Pow(|vs|));
  }

  lemma TopBorrow(u: Digit, t: Digit, p: nat)
    ensures var w := (u - t) % W;
      (w % B) * p == u * p - t * p + if w / B != 0 then B * p else 0
  {
    var x: int := u - t;
    var w := x % W;
    assert x * p == u * p - t * p;
    if x >= 0 {
      DivModUnique(x, W, 0, x);
      DivModUnique(w, B, 0, w);
    } else {
      DivModUnique(x, W, -1, x + W);
      DivModUnique(w, B, B - 1, x + B);
      Distribute(x, B, p);
    }
  }

  /** Add the divisor back to the window. The digits are summed in 32 bits, so that
      their carries are lost: the leading digit keeps the value it has. */
  method AddBack(u: array<Digit>, at: nat, v: array<Digit>, vo: nat, n: nat)
    requires u != v && at + n < u.Length && vo + n < v.Length
    modifies u
    ensures forall k :: 0 <= k <= at || at + n < k < u.Length ==> u[k] == old(u[k])
    ensures forall k :: at < k <= at + n ==> u[k] == (old(u[k]) + v[vo + (k - at)]) % B
  {
    var t, i := 0, n;
    while i > 0
      invariant 0 <= i <= n && t == 0
      invariant forall k :: 0 <= k <= at + i || at + n < k < u.Length ==> u[k] == old(u[k])
      invariant forall k :: at + i < k <= at + n ==> u[k] == (old(u[k]) + v[vo + (k - at)]) % B
    {
      t := t + (u[at + i] + v[vo + i]) % B;
      u[at + i] := t % B;
      t := t / B;
      i := i - 1;
    }
    u[at] := (u[at] + t) % B;
  }

  /** The correction loop leaves an estimate one too large. */
  ghost predicate AddsBack(u: nat, v: nat, n: nat)
    requires n >= 2 && Pow(n) <= 2 * v && u < v * B
  {
    EstimateIsClose(u, v, n);
    Estimate(u / Pow(n - 2), v / Pow(n - 2)) != u / v
  }

  lemma Normalised(vs: seq<Digit>)
    requires vs != [] && vs[0] >= B / 2
    ensures Pow(|vs|) <= 2 * Num(vs)
  {
    hide Num, Pow;
    assert vs == [vs[0]] + vs[1..];
    NumCons(vs[0], vs[1..]);
    PowNext(|vs| - 1);
    TopHalf(vs[0], Pow(|vs| - 1));
  }

  lemma TopHalf(t: Digit, p: nat)
    requires t >= B / 2
    ensures B * p <= 2 * (t * p)
  {
    MulLe(B / 2, t, p);
  }

  lemma EstimateOfDigits(us: seq<Digit>, vs: seq<Digit>, qhat: nat)
    requires |vs| >= 2 && |us| == |vs| + 1 && vs[0] >= B / 2 && Num(us) < Num(vs) * B
    requires us[0] * B + us[1] <= vs[0] * B + vs[1] ==>
      qhat == Estimate((us[0] * B + us[1]) * B + us[2], vs[0] * B + vs[1])
    ensures var x, y, n := Num(us), Num(vs), |vs|;
      Pow(n) <= 2 * y && qhat < B && (qhat == x / y || qhat == x / y + 1) && (AddsBack(x, y, n) <==> qhat == x / y + 1)
  {
    hide Num, Pow;
    var x, y, n := Num(us), Num(vs), |vs|;
    Normalised(vs);
    TwoDigits(us);
    TwoDigits(vs);
    ThreeDigits(us);
    EstimateIsClose(x, y, n);
    LeadingBelow(x, y, n);
  }

  lemma LeadingBelow(x: nat, y: nat, n: nat)
    requires n >= 2 && x < y * B
    ensures x / Pow(n - 1) <= y / Pow(n - 2)
  {
    PowNext(n - 2);
    hide Pow;
    var p, t := Pow(n - 2), y / Pow(n - 2);
    Distribute(t, 1, p);
    MulAssoc(t + 1, B, p);
    DivLess(x, t + 1, Pow(n - 1));
  }

  // ----- adding back -----

  function Quot(x: nat, t: nat): nat
    requires t > 0
  {
    x / t
  }

  function Rem(x: nat, t: nat): nat
    requires t > 0
  {
    x % t
  }

  /** The n low digits of x. */
  function ToDigits(x: nat, n: nat): (s: seq<Digit>)
    ensures |s| == n
  {
    if n == 0 then [] else ToDigits(x / B, n - 1) + [x % B]
  }

  lemma {:induction false} ToDigitsOfNum(s: seq<Digit>)
    ensures ToDigits(Num(s), |s|) == s
    decreases |s|
  {
    hide Num, Pow;
    if s != [] {
      var t := s[..|s| - 1];
      ToDigitsOfNum(t);
      NumSnoc(s);
      DivModUnique(Num(s), B, Num(t), s[|s| - 1]);
      assert s == t + [s[|s| - 1]];
    }
  }

  /** The sums of digits in 32 bits. */
  function Sums(s: seq<Digit>, t: seq<Digit>): (r: seq<Digit>)
    requires |s| == |t|
    ensures |r| == |s| && forall k :: 0 <= k < |s| ==> r[k] == (s[k] + t[k]) % B
  {
    if s == [] then [] else [(s[0] + t[0]) % B] + Sums(s[1..], t[1..])
  }

  /** The carries that these sums lose. */
  function Carries(s: seq<Digit>, t: seq<Digit>): (r: seq<Digit>)
    requires |s| == |t|
    ensures |r| == |s| && forall k :: 0 <= k < |s| ==> r[k] == if s[k] + t[k] >= B then 1 else 0
  {
    if s == [] then [] else [if s[0] + t[0] >= B then 1 else 0] + Carries(s[1..], t[1..])
  }

  lemma {:induction false} SumOfDigits(s: seq<Digit>, t: seq<Digit>)
    requires |s| == |t|
    ensures Num(s) + Num(t) == Num(Sums(s, t)) + B * Num(Carries(s, t))
    decreases |s|
  {
    hide Num, Pow;
    if s == [] {
      NumOfNothing();
    } else {
      SumOfDigits(s[1..], t[1..]);
      assert s == [s[0]] + s[1..] && t == [t[0]] + t[1..];
      ConsSums(s[0], t[0], s[1..], t[1..], Sums(s[1..], t[1..]), Carries(s[1..], t[1..]));
    }
  }

  lemma ConsSums(x: Digit, y: Digit, xs: seq<Digit>, ys: seq<Digit>, sums: seq<Digit>, cs: seq<Digit>)
    requires |xs| == |ys| == |sums| == |cs|
    requires Num(xs) + Num(ys) == Num(sums) + B * Num(cs)
    ensures Num([x] + xs) + Num([y] + ys) == Num([(x + y) % B] + sums) + B * Num([if x + y >= B then 1 else 0] + cs)
  {
    hide Num, Pow;
    OneSum(x, y);
    var sum, c := (x + y) % B, if x + y >= B then 1 else 0;
    var p := Pow(|xs|);
    NumCons(x, xs);
    NumCons(y, ys);
    NumCons(sum, sums);
    NumCons(c, cs);
    SumStep(x, y, c, sum, p);
    SumTotal(x * p, y * p, sum * p, c * p, Num(xs), Num(ys), Num(sums), Num(cs));
  }

  lemma SumTotal(x: int, y: int, sum: int, c: int, xs: int, ys: int, sums: int, cs: int)
    requires x + y == sum + B * c && xs + ys == sums + B * cs
    ensures (x + xs) + (y + ys) == (sum + sums) + B * (c + cs)
  {
  }

  lemma OneSum(x: Digit, y: Digit)
    ensures (x + y) % B == x + y - (if x + y >= B then 1 else 0) * B
  {
    var u: int, w: int := x, y;
    var c := if u + w >= B then 1 else 0;
    DivModUnique(u + w, B, c, u + w - c * B);
  }

  lemma NumOfNothing()
    ensures Num([]) == 0
  {
  }

  lemma SumStep(x: int, y: int, c: int, sum: int, p: int)
    requires sum == x + y - c * B
    ensures x * p + y * p == sum * p + B * (c * p)
  {
    MulAssoc(B, c, p);
    Distribute(x, y, p);
    Distribute(x + y, -(c * B), p);
  }

  /** The remainder's digits before the divisor is added back, and the divisor's: by how
      much the sums in 32 bits fall short of the remainder. The carry out of the leading
      digits is meant to be lost. */
  ghost function Loss(x: nat, v: nat, n: nat): nat
    requires n >= 2 && Pow(n) <= 2 * v && v < Pow(n) && x < v * B
  {
    if AddsBack(x, v, n) then B * Num(Carries(ToDigits(Pow(n) - v + Rem(x, v), n), ToDigits(v, n))[1..]) else 0
  }

  /** Digit k of the sum that adds back carries. */
  ghost predicate CarriesAt(x: nat, v: nat, n: nat, k: nat)
    requires v > 0 && v < Pow(n) && k < n
  {
    hide Pow;
    ToDigits(Pow(n) - v + Rem(x, v), n)[k] + ToDigits(v, n)[k] >= B
  }

  /** Something is lost exactly if a digit behind the leading one carries. */
  lemma LossMeansCarry(x: nat, v: nat, n: nat)
    requires n >= 2 && Pow(n) <= 2 * v && v < Pow(n) && x < v * B
    ensures Loss(x, v, n) > 0 <==> AddsBack(x, v, n) && exists k :: 0 < k < n && CarriesAt(x, v, n, k)
  {
    hide Num, Pow, AddsBack, ToDigits, Rem;
    var s, t := ToDigits(Pow(n) - v + Rem(x, v), n), ToDigits(v, n);
    var cs := Carries(s, t);
    SomeDigit(cs[1..]);
    forall k | 0 < k < n
      ensures cs[1..][k - 1] > 0 <==> CarriesAt(x, v, n, k)
    {
    }
    if k :| 0 < k < n && CarriesAt(x, v, n, k) {
      assert cs[1..][k - 1] > 0;
    }
    if i :| 0 <= i < n - 1 && cs[1..][i] > 0 {
      assert CarriesAt(x, v, n, i + 1);
    }
  }

  lemma {:induction false} SomeDigit(s: seq<Digit>)
    ensures Num(s) > 0 <==> exists k :: 0 <= k < |s| && s[k] > 0
    decreases |s|
  {
    hide Num, Pow;
    if s == [] {
      NumOfNothing();
    } else {
      assert s == [s[0]] + s[1..];
      NumCons(s[0], s[1..]);
      SomeDigit(s[1..]);
      assert forall k :: 0 < k < |s| ==> s[k] == s[1..][k - 1];
      if s[0] > 0 {
        MulLe(1, s[0], Pow(|s| - 1));
      } else if k :| 0 <= k < |s[1..]| && s[1..][k] > 0 {
        assert s[k + 1] > 0;
      }
    }
  }

  /** Where the divisor is added back, the leading digits do carry. */
  lemma LeadingCarry(x: nat, v: nat, n: nat)
    requires n >= 2 && Pow(n) <= 2 * v && v < Pow(n) && x < v * B && AddsBack(x, v, n)
    ensures (B - 1) * Pow(n - 1) <= Pow(n) - v + Rem(x, v)
    ensures Carries(ToDigits(Pow(n) - v + Rem(x, v), n), ToDigits(v, n))[0] == 1
  {
    NearDivisor(x, v, n);
    var s := Pow(n) - v + Rem(x, v);
    PowNext(n - 1);
    hide Pow, AddsBack;
    TopOfDigits(s, n, B - 1);
    DivTight(v, Pow(n - 1), B / 2);
    TopOfDigits(v, n, 1);
  }

  lemma NearDivisor(x: nat, v: nat, n: nat)
    requires n >= 2 && Pow(n) <= 2 * v && v < Pow(n) && x < v * B && AddsBack(x, v, n)
    ensures Rem(x, v) + Pow(n - 1) > v
  {
    PowNext(n - 2);
    EstimateIsClose(x, v, n);
    hide Pow;
    var k := Pow(n - 2);
    var e, y, low := Estimate(x / k, v / k), v / k, v % k;
    var q, r := Euclid(x, v);
    assert e == q + 1 && e <= B - 1 && e <= (x / k) / y;
    EstimateFloor(x, v, k, e);
    MulLe(e, B - 1, low);
    Distribute(q, 1, v);
    EstimateShort(x, v, q, r, e * v, e * low, low, k);
  }

  /** e divisors without their low digits fit into x. */
  lemma EstimateFloor(x: nat, v: nat, k: nat, e: nat)
    requires k > 0 && v / k > 0 && e <= (x / k) / (v / k)
    ensures e * v - e * (v % k) <= x && v % k < k
  {
    var y, z := v / k, x / k;
    MulLe(e, z / y, y);
    assert e * y <= z;
    MulLe(e * y, z, k);
    MulAssoc(e, y, k);
    assert v == y * k + v % k;
    Distribute(y * k, v % k, e);
  }

  lemma EstimateShort(x: nat, v: nat, q: nat, r: nat, ev: int, elow: int, low: nat, k: nat)
    requires x == q * v + r && ev == q * v + v && ev - elow <= x && elow <= (B - 1) * low && low < k
    ensures r + B * k > v
  {
  }

  lemma TopOfDigits(x: nat, n: nat, t: nat)
    requires n > 0 && x < Pow(n) && t * Pow(n - 1) <= x
    ensures ToDigits(x, n)[0] >= t
  {
    TopDigitIs(x, n);
    PowNext(n - 1);
    hide Pow, ToDigits;
    DivTight(x, Pow(n - 1), t);
  }

  lemma {:induction false} TopDigitIs(x: nat, n: nat)
    requires n > 0 && x < Pow(n)
    ensures x / Pow(n - 1) < B && ToDigits(x, n)[0] == x / Pow(n - 1)
    decreases n
  {
    if n == 1 {
      PowSmall();
      DivModUnique(x, B, 0, x);
      assert ToDigits(x / B, 0) == [];
    } else {
      var p := Pow(n - 2);
      PowNext(n - 2);
      PowNext(n - 1);
      hide Pow;
      DivLess(x, Pow(n - 1), B);
      TopDigitIs(x / B, n - 1);
      DivTwice(x, p);
    }
  }

  lemma DivTwice(x: nat, p: nat)
    requires p > 0
    ensures (x / B) / p == x / (B * p)
  {
    var y, r := x / B, x % B;
    var z, s := y / p, y % p;
    assert x == z * (B * p) + (s * B + r) by {
      assert y == z * p + s;
      Distribute(z * p, s, B);
      MulAssoc(z, p, B);
    }
    MulLe(s + 1, p, B);
    Distribute(s, 1, B);
    DivModUnique(x, B * p, z, s * B + r);
  }

  /** The digits in which the divisor was added back are those of the remainder, less the
      carries between them. */
  lemma AddedBack(x: nat, vs: seq<Digit>, mid: seq<Digit>)
    requires |vs| == |mid| >= 2
    requires var v, n := Num(vs), |vs|;
      Pow(n) <= 2 * v && x < v * B && AddsBack(x, v, n) && Num(mid) == Pow(n) - v + Rem(x, v)
    ensures Num(Sums(mid, vs)) + Loss(x, Num(vs), |vs|) == Rem(x, Num(vs))
  {
    hide Num, Pow, AddsBack, Sums, Carries, Loss, Quot, Rem;
    var v, n := Num(vs), |vs|;
    LossOfDigits(x, vs, mid);
    SumOfDigits(mid, vs);
    PowNext(n - 1);
    var cs := Carries(mid, vs);
    assert cs == [1] + cs[1..];
    NumCons(1, cs[1..]);
    AddedSum(Num(Sums(mid, vs)), Num(mid), v, Num(cs), Num(cs[1..]), Pow(n - 1), Rem(x, v));
  }

  lemma AddedSum(sums: nat, mid: nat, v: nat, carries: nat, lower: nat, p: nat, r: nat)
    requires mid + v == sums + B * carries && carries == 1 * p + lower && mid == B * p - v + r
    ensures sums + B * lower == r
  {
  }

  lemma LossOfDigits(x: nat, vs: seq<Digit>, mid: seq<Digit>)
    requires |vs| == |mid| >= 2
    requires var v, n := Num(vs), |vs|;
      Pow(n) <= 2 * v && x < v * B && AddsBack(x, v, n) && Num(mid) == Pow(n) - v + Rem(x, v)
    ensures Carries(mid, vs)[0] == 1 && Loss(x, Num(vs), |vs|) == B * Num(Carries(mid, vs)[1..])
  {
    hide Num, Pow, AddsBack, Carries, ToDigits, Quot, Rem;
    LeadingCarry(x, Num(vs), |vs|);
    ToDigitsOfNum(mid);
    ToDigitsOfNum(vs);
  }

  lemma LossIsSmall(x: nat, v: nat, n: nat)
    requires n >= 2 && Pow(n) <= 2 * v && v < Pow(n) && x < v * B
    ensures Loss(x, v, n) <= Rem(x, v) < v
  {
    assert Rem(x, v) < v;
    if AddsBack(x, v, n) {
      var s := Pow(n) - v + Rem(x, v);
      NumOfDigits(v, n);
      NumOfDigits(s, n);
      hide Num, Pow, AddsBack, Loss, ToDigits, Quot, Rem;
      AddedBack(x, ToDigits(v, n), ToDigits(s, n));
    }
  }

  lemma {:induction false} NumOfDigits(x: nat, n: nat)
    requires x < Pow(n)
    ensures Num(ToDigits(x, n)) == x
  {
    if n > 0 {
      hide Num;
      PowNext(n - 1);
      hide Pow;
      DivLess(x, Pow(n - 1), B);
      NumOfDigits(x / B, n - 1);
      var s := ToDigits(x, n);
      NumSnoc(s);
      assert s[..n - 1] == ToDigits(x / B, n - 1);
    } else {
      PowSmall();
    }
  }

  /** What multiply-and-subtract leaves behind. */
  lemma StepResult(x: nat, y: nat, qhat: Digit, borrowed: bool, now: seq<Digit>)
    requires now != [] && 0 < y < Pow(|now| - 1)
    requires Num(now) == x - qhat * y + if borrowed then Pow(|now|) else 0
    requires qhat == Quot(x, y) || qhat == Quot(x, y) + 1
    ensures borrowed <==> qhat == Quot(x, y) + 1
    ensures if borrowed then now[0] == B - 1 && Num(now[1..]) == Pow(|now| - 1) - y + Rem(x, y)
      else Num(now) == Rem(x, y)
  {
    hide Num, Pow;
    var q, r := Euclid(x, y);
    Distribute(q, 1, y);
    assert now == [now[0]] + now[1..];
    NumCons(now[0], now[1..]);
    PowNext(|now| - 1);
    TopDigit(now[0], Pow(|now| - 1));
    StepArithmetic(x, y, q, r, q * y, qhat, qhat * y, borrowed, now[0], now[0] * Pow(|now| - 1), Pow(|now| - 1),
      Num(now[1..]));
  }

  lemma Euclid(x: nat, y: nat) returns (q: nat, r: nat)
    requires y > 0
    ensures q == Quot(x, y) && r == Rem(x, y) && x == q * y + r && r < y
  {
    q, r := Quot(x, y), Rem(x, y);
  }

  lemma TopDigit(d: Digit, p: nat)
    ensures 0 <= d * p <= (B - 1) * p && (d < B - 1 ==> d * p <= (B - 2) * p) && (d == B - 1 ==> d * p == (B - 1) * p)
  {
    MulLe(0, d, p);
    MulLe(d, B - 1, p);
    if d < B - 1 {
      MulLe(d, B - 2, p);
    }
  }

  lemma StepArithmetic(
      x: nat, y: nat, q: nat, r: nat, qy: int, qhat: nat, qhaty: int, borrowed: bool, d: Digit, dp: int, p: nat,
      low: nat)
    requires 0 < y < p && x == qy + r && r < y && low < p
    requires 0 <= dp <= (B - 1) * p && (d < B - 1 ==> dp <= (B - 2) * p) && (d == B - 1 ==> dp == (B - 1) * p)
    requires dp + low == x - qhaty + if borrowed then B * p else 0
    requires (qhat == q && qhaty == qy) || (qhat == q + 1 && qhaty == qy + y)
    ensures borrowed <==> qhat == q + 1
    ensures if borrowed then d == B - 1 && low == p - y + r else dp + low == r
  {
  }

  /** What one round owes: the exact digit, and the remainder less what adding back
      loses. Then the digit before the window keeps its borrow. */
  ghost predicate Divided(us: seq<Digit>, vs: seq<Digit>, q: Digit, now: seq<Digit>)
    requires |vs| >= 2 && |us| == |now| == |vs| + 1
  {
    var x, y, n := Num(us), Num(vs), |vs|;
    x < y * B ==>
      && Pow(n) <= 2 * y && q == Quot(x, y)
      && now[0] == (if AddsBack(x, y, n) then B - 1 else 0)
      && Num(now[1..]) + Loss(x, y, n) == Rem(x, y)
  }

  lemma RoundDivides(
      us: seq<Digit>, vs: seq<Digit>, qhat: nat, borrowed: bool, mid: seq<Digit>, q: Digit, now: seq<Digit>)
    requires |vs| >= 2 && |us| == |mid| == |now| == |vs| + 1 && vs[0] >= B / 2
    requires us[0] * B + us[1] <= vs[0] * B + vs[1] ==>
      qhat == Estimate((us[0] * B + us[1]) * B + us[2], vs[0] * B + vs[1])
    requires qhat < B ==> Num(mid) == Num(us) - qhat * Num(vs) + if borrowed then Pow(|mid|) else 0
    requires if borrowed then mid[0] == now[0] && now[1..] == Sums(mid[1..], vs) && q == ((qhat - 1) % W) % B
      else mid == now && q == qhat % B
    ensures Divided(us, vs, q, now)
  {
    hide Num, Pow, Estimate, AddsBack, Sums, Carries, ToDigits;
    if Num(us) < Num(vs) * B {
      EstimateOfDigits(us, vs, qhat);
      StepResult(Num(us), Num(vs), qhat, borrowed, mid);
      if borrowed {
        DivModUnique(qhat - 1, W, 0, qhat - 1);
        DivModUnique(qhat - 1, B, 0, qhat - 1);
        AddedBack(Num(us), vs, mid[1..]);
      } else {
        DivModUnique(qhat, B, 0, qhat);
        SmallNumber(mid, |vs|);
      }
    }
  }

  /** One round of the division: the quotient digit at position at. */
  method DivideStep(u: array<Digit>, at: nat, v: array<Digit>, vo: nat, n: nat) returns (q: Digit)
    requires u != v && n >= 2 && at + n < u.Length && vo + n < v.Length && v[vo + 1] >= B / 2
    modifies u
    ensures forall k :: 0 <= k < at || at + n < k < u.Length ==> u[k] == old(u[k])
    ensures Divided(old(u[at..at + n + 1]), v[vo + 1..vo + n + 1], q, u[at..at + n + 1])
  {
    hide Num, Pow, Estimate, AddsBack, Divided, Sums;
    ghost var us, vs := u[at..at + n + 1], v[vo + 1..vo + n + 1];
    var qhat := EstimateDigit(u[at], u[at + 1], u[at + 2], v[vo + 1], v[vo + 2]);
    ghost var estimate := qhat;
    var borrowed := MultiplySubtract(u, at, v, vo, n, qhat);
    ghost var mid := u[at..at + n + 1];
    if borrowed {
      qhat := (qhat - 1) % W;
      AddBack(u, at, v, vo, n);
      assert mid[0] == u[at..at + n + 1][0];
      assert u[at..at + n + 1][1..] == Sums(mid[1..], vs);
    }
    q := qhat % B;
    RoundDivides(us, vs, estimate, borrowed, mid, q, u[at..at + n + 1]);
  }

  // ----- normalisation -----

  /** shift_digits on the digits from position p on: len + 1 digits, the last of which
      takes in zeros. */
  method ShiftDigits(a: array<Digit>, p: nat, len: nat, sh: nat)
    requires p + len + 1 == a.Length && sh <= 32
    modifies a
    ensures forall k :: 0 <= k < p ==> a[k] == old(a[k])
    ensures a[p..] == Shifted(old(a[p..]), sh)
  {
    hide Join;
    ghost var s := a[p..];
    var i := 0;
    while i < len
      invariant 0 <= i <= len
      invariant forall k :: 0 <= k < p || p + i <= k < a.Length ==> a[k] == old(a[k])
      invariant forall k :: p <= k < p + i ==> a[k] == Join(s[k - p], s[k - p + 1], sh)
    {
      a[p + i] := Join(a[p + i], a[p + i + 1], sh);
      i := i + 1;
    }
    a[p + i] := Join(a[p + i], 0, sh);
  }

  /** The loop that undoes the normalisation of the remainder: n digits after position
      p, and the digit at p cleared. */
  method ShiftBack(a: array<Digit>, p: nat, n: nat, d: nat)
    requires p + n < a.Length && d <= 32
    modifies a
    ensures forall k :: 0 <= k < p || p + n < k < a.Length ==> a[k] == old(a[k])
    ensures a[p] == 0 && a[p + 1..p + n + 1] == Unshifted(old(a[p..p + n + 1]), d)
  {
    hide Meet;
    ghost var s := a[p..p + n + 1];
    var i := p + n;
    while i > p
      invariant p <= i <= p + n
      invariant forall k :: 0 <= k <= i || p + n < k < a.Length ==> a[k] == old(a[k])
      invariant forall k :: i < k <= p + n ==> a[k] == Meet(s[k - p - 1], s[k - p], d)
    {
      a[i] := Meet(a[i - 1], a[i], d);
      i := i - 1;
    }
    a[i] := 0;
  }

  /** How far a divisor is shifted, from its top digit. */
  function Headroom(t: Digit): (d: nat)
    requires t > 0
    ensures B / 2 <= t * Pow2(d) < B && d < 32
    decreases B - t
  {
    if t >= B / 2 then
      assert Pow2(0) == 1;
      0
    else
      var d := Headroom(2 * t);
      HeadroomStep(t, d);
      1 + d
  }

  lemma HeadroomStep(t: Digit, d: nat)
    requires t > 0 && B / 2 <= 2 * t * Pow2(d) < B
    ensures t * Pow2(1 + d) == 2 * t * Pow2(d) && d < 31
  {
    MulAssoc(2, t, Pow2(d));
    MulAssoc(t, 2, Pow2(d));
    assert t * 2 == 2 * t;
    if d >= 31 {
      Pow2Add(31, d - 31);
      assert Pow2(32) == 2 * Pow2(31);
      PowersOfTwo();
      MulLe(1, Pow2(d - 31), Pow2(31));
      MulLe(1, t, Pow2(d));
      assert false;
    }
  }

  /** The loop that counts d up. */
  method CountHeadroom(v1: Digit) returns (d: nat)
    requires v1 > 0
    ensures d == Headroom(v1)
  {
    d := 0;
    var t := v1;
    while t < B / 2
      invariant 0 < t < B && d + Headroom(t) == Headroom(v1)
      decreases B - t
    {
      t := 2 * t;
      d := d + 1;
    }
  }

  /** The number of digits of x. */
  function Places(x: nat): nat {
    if x == 0 then 0 else 1 + Places(x / B)
  }

  lemma {:induction false} PlacesOf(x: nat, k: nat)
    requires k > 0 && Pow(k - 1) <= x < Pow(k)
    ensures Places(x) == k
    decreases k
  {
    if k == 1 {
      PowSmall();
      DivModUnique(x, B, 0, x);
      assert Places(0) == 0;
    } else {
      DivLess(x, Pow(k - 1), B);
      DivTight(x, B, Pow(k - 2));
      PlacesOf(x / B, k - 1);
    }
  }

  // ----- all rounds -----

  /** What is left of the leading digits before round j, and by how much all of it is less
      than it should be. */
  datatype Progress = Progress(rest: nat, lost: nat)

  ghost predicate MayDivide(us0: seq<Digit>, v: nat, n: nat) {
    n >= 2 && |us0| >= n && Pow(n) <= 2 * v && v < Pow(n) && Num(us0[..n]) < v
  }

  ghost function Before(us0: seq<Digit>, v: nat, n: nat, j: nat): (p: Progress)
    requires MayDivide(us0, v, n) && j + n <= |us0|
    ensures p.rest < v
    decreases j, 0
  {
    hide Pow, Num;
    if j == 0 then Progress(Num(us0[..n]), 0)
    else
      var x := DividendOf(us0, v, n, j - 1);
      LossIsSmall(x, v, n);
      Progress(Rem(x, v) - Loss(x, v, n), Before(us0, v, n, j - 1).lost * B + Loss(x, v, n))
  }

  /** The dividend of round j. */
  ghost function DividendOf(us0: seq<Digit>, v: nat, n: nat, j: nat): (x: nat)
    requires MayDivide(us0, v, n) && j + n < |us0|
    ensures x < v * B
    decreases j, 1
  {
    hide Pow, Num;
    var p := Before(us0, v, n, j).rest;
    OneMoreDigit(p, us0[j + n], v);
    p * B + us0[j + n]
  }

  lemma OneMoreDigit(p: nat, d: Digit, v: nat)
    requires p < v
    ensures 0 <= p * B + d < v * B
  {
    MulLe(p + 1, v, B);
  }

  /** The state before round j: the remaining dividend and the digits found so far. */
  ghost predicate Rounds(us0: seq<Digit>, vs: seq<Digit>, m: nat, j: nat, us: seq<Digit>, qs: seq<Digit>) {
    var v, n := Num(vs), |vs|;
    && j <= m + 1 && MayDivide(us0, v, n) && |us| == |us0| == m + n + 1 && |qs| == j
    && (forall k :: j + n <= k < |us| ==> us[k] == us0[k])
    && Num(us[j..j + n]) == Before(us0, v, n, j).rest
    && Num(us0[..j + n]) == v * Num(qs) + Before(us0, v, n, j).lost + Before(us0, v, n, j).rest
    && forall k :: 0 <= k < j ==> us[k] == BorrowAt(us0, v, n, k)
  }

  /** The digit that round k leaves before its remainder. */
  ghost function BorrowAt(us0: seq<Digit>, v: nat, n: nat, k: nat): Digit
    requires MayDivide(us0, v, n) && k + n < |us0|
  {
    hide Pow, Num;
    if AddsBack(DividendOf(us0, v, n, k), v, n) then B - 1 else 0
  }

  lemma RoundsStart(us0: seq<Digit>, vs: seq<Digit>, m: nat)
    requires |vs| >= 2 && Pow(|vs|) <= 2 * Num(vs) && |us0| == m + |vs| + 1 && Num(us0[..|vs|]) < Num(vs)
    ensures Rounds(us0, vs, m, 0, us0, [])
  {
    NumOfNothing();
    assert us0[0..0 + |vs|] == us0[..|vs|];
    hide Pow, Num;
  }

  lemma PrefixSnoc(s: seq<Digit>, k: nat)
    requires k < |s|
    ensures Num(s[..k + 1]) == Num(s[..k]) * B + s[k]
  {
    hide Num, Pow;
    assert s[..k + 1][..k] == s[..k];
    NumSnoc(s[..k + 1]);
  }

  lemma RoundsNext(
      us0: seq<Digit>, vs: seq<Digit>, m: nat, j: nat, us: seq<Digit>, qs: seq<Digit>, q: Digit, us': seq<Digit>)
    requires j <= m && Rounds(us0, vs, m, j, us, qs) && |us'| == |us|
    requires forall k :: 0 <= k < j || j + |vs| < k < |us| ==> us'[k] == us[k]
    requires Divided(us[j..j + |vs| + 1], vs, q, us'[j..j + |vs| + 1])
    ensures Rounds(us0, vs, m, j + 1, us', qs + [q])
  {
    hide Num, Pow, AddsBack, Loss, Quot, Rem;
    var v, n := Num(vs), |vs|;
    var w, w' := us[j..j + n + 1], us'[j..j + n + 1];
    var x := DividendOf(us0, v, n, j);
    assert w[..n + 1] == w && w[..n] == us[j..j + n];
    PrefixSnoc(w, n);
    assert Num(w) == x;
    assert w'[1..] == us'[j + 1..j + 1 + n] && w'[0] == us'[j];
    PrefixSnoc(us0, j + n);
    assert (qs + [q])[..j] == qs;
    NumSnoc(qs + [q]);
    LossIsSmall(x, v, n);
    var p := Before(us0, v, n, j);
    RoundSum(Num(us0[..j + n]), us0[j + n], v, Num(qs), q, p.lost, p.rest, Rem(x, v));
    assert us0[..j + 1 + n] == us0[..j + n + 1];
  }

  lemma RoundSum(p: nat, d: nat, v: nat, q: nat, digit: nat, lost: nat, rest: nat, r: nat)
    requires v > 0 && p == v * q + lost + rest && digit == Quot(rest * B + d, v) && r == Rem(rest * B + d, v)
    ensures p * B + d == v * (q * B + digit) + lost * B + r
  {
    var x := rest * B + d;
    assert x == v * digit + r;
    MulAssoc(v, q, B);
    Distribute(q * B, digit, v);
    Distribute(v * q, lost + rest, B);
  }

  /** A number below B^n has leading zeros. */
  lemma SmallNumber(w: seq<Digit>, n: nat)
    requires |w| == n + 1 && Num(w) < Pow(n)
    ensures w[0] == 0 && Num(w[1..]) == Num(w)
  {
    hide Num, Pow;
    assert w == [w[0]] + w[1..];
    NumCons(w[0], w[1..]);
    if w[0] > 0 {
      MulLe(1, w[0], Pow(n));
      assert false;
    }
  }

  // ----- the whole division -----

  lemma {:induction false} LeadingZeros(s: seq<Digit>, k: nat)
    requires k <= |s| && forall i :: 0 <= i < k ==> s[i] == 0
    ensures Num(s) == Num(s[k..])
  {
    assert s == s[..k] + s[k..];
    NumZeros(s[..k]);
    NumAppend(s[..k], s[k..]);
  }

  lemma ScaledDivision(a: nat, b: nat, d: nat)
    requires b > 0
    ensures Scaled(b, d) > 0 && Quot(Scaled(a, d), Scaled(b, d)) == a / b
    ensures Rem(Scaled(a, d), Scaled(b, d)) == Scaled(a % b, d)
  {
    hide Pow2;
    var s, q, r := Pow2(d), a / b, a % b;
    Distribute(q * b, r, s);
    MulAssoc(q, b, s);
    MulLe(r + 1, b, s);
    Distribute(r, 1, s);
    MulLe(1, b, s);
    MulLe(0, r, s);
    DivModUnique(a * s, b * s, q, r * s);
  }

  /** The dividend and divisor as they are normalised. */
  ghost predicate IsNormalised(a: nat, b: nat, d: nat, us: seq<Digit>, vs: seq<Digit>) {
    |us| >= |vs| >= 2 && vs[0] >= B / 2 && Num(us) == Scaled(a, d) && Num(vs) == Scaled(b, d)
  }

  lemma ShiftedDivisor(vs: seq<Digit>)
    requires vs != [] && vs[0] > 0
    ensures var d := Headroom(vs[0]);
      Shifted(vs, d)[0] >= B / 2 && Num(Shifted(vs, d)) == Num(vs) * Pow2(d)
  {
    hide Num, Pow, Pow2, HighShift, LowShift;
    var d := Headroom(vs[0]);
    ShiftedValue(vs, d);
    ShiftSplits(vs[0], d);
    assert HighShift(vs[0], d) == 0;
    assert Shifted(vs, d)[0] >= LowShift(vs[0], d);
  }

  lemma ShiftedDividend(us: seq<Digit>, d: nat)
    requires d <= 32 && us != [] && us[0] == 0
    ensures Num(Shifted(us, d)) == Num(us) * Pow2(d)
  {
    hide Num, Pow, Pow2, LowShift;
    ShiftedValue(us, d);
    ShiftSplits(0, d);
  }

  /** The first digits of the dividend are less than the divisor. */
  lemma StartsSmall(a: nat, b: nat, d: nat, n: nat, m: nat, us: seq<Digit>, vs: seq<Digit>)
    requires IsNormalised(a, b, d, us, vs) && |vs| == n && |us| == m + n + 1
    requires a < Pow(m + n) && Pow(n - 1) <= b
    ensures Num(us[..n]) < Num(vs) && Pow(n) <= 2 * Num(vs)
  {
    Normalised(vs);
    hide Num, Pow, Pow2;
    LeadingDigits(us, n);
    var s, p := Pow2(d), Pow(n - 1);
    assert Pow(m + n) == p * Pow(m + 1) by { PowAdd(n - 1, m + 1); }
    assert a * s < (p * s) * Pow(m + 1) by {
      MulLe(a + 1, p * Pow(m + 1), s);
      Distribute(a, 1, s);
      MulAssoc(p, s, Pow(m + 1));
      MulAssoc(p, Pow(m + 1), s);
    }
    DivLess(Num(us), p * s, Pow(m + 1));
    MulLe(p, b, s);
  }

  lemma BackEquation(s: seq<Digit>, d: nat)
    requires s != [] && d <= 32
    ensures LowBits(s[0], d) * Pow(|s| - 1) + Num(s[1..]) == Num(Unshifted(s, d)) * Pow2(d) + LowBits(s[|s| - 1], d)
    ensures LowBits(s[|s| - 1], d) < Pow2(d)
  {
    hide Num, Pow, Pow2, Unshifted, LowBits, DropBits;
    UnshiftedValue(s, d);
    BitsSplit(s[|s| - 1], d);
  }

  /** The remainder shifted back. */
  lemma BackValue(s: seq<Digit>, d: nat, r: nat)
    requires s != [] && d <= 32 && s[0] == 0 && Num(s[1..]) == r * Pow2(d)
    ensures Num(Unshifted(s, d)) == r
  {
    LowZero(d);
    hide Num, Pow, Pow2, Unshifted, LowBits;
    BackEquation(s, d);
    var h, k, x := Pow2(d), Num(Unshifted(s, d)), r * Pow2(d);
    assert x == k * h + LowBits(s[|s| - 1], d);
    DivModUnique(x, h, r, 0);
    DivModUnique(x, h, k, LowBits(s[|s| - 1], d));
  }

  lemma LowZero(d: nat)
    ensures LowBits(0, d) == 0
  {
  }

  lemma LowMax(d: nat)
    requires 0 < d <= 32
    ensures LowBits(B - 1, d) == Pow2(d) - 1 && Pow2(d) >= 2
  {
    assert Pow2(d) == 2 * Pow2(d - 1);
    hide Pow2;
    Split32(d);
    AllOnes(Pow2(d), Pow2(32 - d));
  }

  lemma AllOnes(h: nat, k: nat)
    requires h > 0 && h * k == B
    ensures (B - 1) % h == h - 1
  {
    Distribute(k, -1, h);
    DivModUnique(B - 1, h, k - 1, h - 1);
  }

  /** The borrow that the digit before the remainder keeps is shifted into it. */
  lemma BackWrong(s: seq<Digit>, d: nat, b: nat)
    requires |s| > 1 && 0 < d <= 32 && s[0] == B - 1 && b * Pow2(d) < Pow(|s| - 1)
    ensures Num(Unshifted(s, d)) >= b
  {
    hide Num, Pow, Pow2, Unshifted, LowBits;
    LowMax(d);
    BackEquation(s, d);
    TooManyBits(Pow2(d), Pow(|s| - 1), Num(Unshifted(s, d)), Num(s[1..]), LowBits(s[|s| - 1], d), b);
  }

  lemma TooManyBits(h: nat, p: nat, k: nat, n: nat, low: nat, b: nat)
    requires h >= 2 && (h - 1) * p + n == k * h + low && low < h && b * h < p
    ensures k >= b
  {
    MulLe(1, h - 1, p);
    if k < b {
      MulLe(k + 1, b, h);
      Distribute(k, 1, h);
      assert false;
    }
  }

  // ----- the conditions in terms of dividend and divisor -----

  datatype Huge = Huge(hi: Word, lo: Word)

  function Val(h: Huge): nat {
    h.hi * W + h.lo
  }

  /** By how much a divisor is shifted. */
  function Shift(b: nat): (d: nat)
    requires b > 0
    ensures d < 32
  {
    TopOf(b);
    Headroom(b / Pow(Places(b) - 1))
  }

  lemma {:induction false} PlacesBound(x: nat)
    ensures x < Pow(Places(x)) && (x > 0 ==> Places(x) > 0 && Pow(Places(x) - 1) <= x)
    decreases x
  {
    if x > 0 {
      var y := x / B;
      PlacesBound(y);
      if y == 0 {
        PowSmall();
      } else {
        assert Pow(Places(y)) == B * Pow(Places(y) - 1);
      }
    }
  }

  lemma TopOf(b: nat)
    requires b > 0
    ensures Places(b) > 0 && 0 < b / Pow(Places(b) - 1) < B
  {
    PlacesBound(b);
    var n := Places(b);
    PowNext(n - 1);
    hide Pow, Places;
    DivTight(b, Pow(n - 1), 1);
    DivLess(b, B, Pow(n - 1));
  }

  function Scaled(x: nat, d: nat): nat {
    x * Pow2(d)
  }

  lemma NormalisedDivisor(b: nat)
    requires b > 0
    ensures var n, v := Places(b), Scaled(b, Shift(b)); n > 0 && Pow(n) <= 2 * v && 0 < v < Pow(n)
  {
    TopOf(b);
    PlacesBound(b);
    var n, d := Places(b), Shift(b);
    PowNext(n - 1);
    hide Pow, Pow2, Places;
    assert B / 2 <= (b / Pow(n - 1)) * Pow2(d) < B;
    hide Shift;
    Split32(d);
    QuotientBounds(b, Pow(n - 1));
    ShiftBounds(b, b / Pow(n - 1), Pow(n - 1), Pow2(d), Pow2(32 - d));
  }

  lemma QuotientBounds(x: nat, p: nat)
    requires p > 0
    ensures (x / p) * p <= x < (x / p + 1) * p
  {
    Distribute(x / p, 1, p);
  }

  lemma ShiftBounds(b: nat, t: nat, p: nat, h: nat, k: nat)
    requires h > 0 && p > 0 && h * k == B && B / 2 <= t * h < B && t * p <= b < (t + 1) * p
    ensures B * p <= 2 * (b * h) && 0 < b * h < B * p
  {
    var th, bh := t * h, b * h;
    FitsBelow(t, h, k);
    BoundBelow(b, t, p, h);
    BoundAbove(b, t, p, h);
    assert bh < B * p by { MulLe((t + 1) * h, B, p); }
    assert (B / 2) * p <= bh by { MulLe(B / 2, th, p); }
  }

  lemma FitsBelow(t: nat, h: nat, k: nat)
    requires h * k == B && t * h < B
    ensures (t + 1) * h <= B
  {
    if t + 1 > k {
      MulLe(k, t, h);
      assert false;
    }
    MulLe(t + 1, k, h);
  }

  lemma BoundBelow(b: nat, t: nat, p: nat, h: nat)
    requires t * p <= b
    ensures (t * h) * p <= b * h
  {
    MulLe(t * p, b, h);
    Swap(t, p, h);
  }

  lemma BoundAbove(b: nat, t: nat, p: nat, h: nat)
    requires b < (t + 1) * p && h > 0
    ensures b * h < ((t + 1) * h) * p
  {
    MulLe(b + 1, (t + 1) * p, h);
    Distribute(b, 1, h);
    Swap(t + 1, p, h);
  }

  /** The dividend of the last round, when all rounds before it were exact. */
  ghost function LastDividend(a: nat, b: nat): (x: nat)
    requires b > 0
    ensures x < Scaled(b, Shift(b)) * B
  {
    NormalisedDivisor(b);
    hide Pow2, Scaled, Shift;
    Scaled(a, Shift(b)) % (Scaled(b, Shift(b)) * B)
  }

  /** The division of a by b adds back in the round of the last quotient digit. */
  ghost predicate AddsBackLast(a: nat, b: nat)
    requires b > 0
  {
    NormalisedDivisor(b);
    hide Pow, Pow2, Scaled, Shift;
    Places(b) >= 2 && b <= a && AddsBack(LastDividend(a, b), Scaled(b, Shift(b)), Places(b))
  }

  /** By how much the digits that divmod goes on with fall short of a after a first round
      that adds back: the carries it loses. Divisors of two digits never add back, and
      others leave room for one earlier round at most. */
  ghost function Lost(a: nat, b: nat): nat
    requires b > 0
  {
    if Places(b) >= 2 && Places(a) == Places(b) + 1 then
      NormalisedDivisor(b);
      FirstFits(a, b);
      hide Pow, Pow2, Scaled, Shift;
      Pow2(32 - Shift(b)) * Loss(Scaled(a, Shift(b)) / B, Scaled(b, Shift(b)), Places(b))
    else 0
  }

  /** The first round loses a carry between two digits when it adds back. */
  ghost predicate LosesCarryEarly(a: nat, b: nat)
    requires b > 0
  {
    Lost(a, b) > 0
  }

  lemma FirstFits(a: nat, b: nat)
    requires b > 0 && Places(a) <= Places(b) + 1
    ensures Scaled(a, Shift(b)) / B < Scaled(b, Shift(b)) * B
  {
    hide Pow, Pow2, Shift, Places;
    var n := Places(b);
    PlacesBound(a);
    PlacesBound(b);
    PowGrows(Places(a), n + 1);
    PowNext(n);
    PowNext(n - 1);
    FitsScaled(a, b, Pow2(Shift(b)));
  }

  lemma FitsScaled(a: nat, b: nat, s: nat)
    requires s >= 1 && a < B * (B * b)
    ensures (a * s) / B < (b * s) * B
  {
    MulLe(a + 1, (B * B) * b, s);
    MulAssoc(B * B, b, s);
    Distribute(a, 1, s);
    var t := b * s;
    assert (a + 1) * s <= (B * B) * t;
    DivLess(a * s, t * B, B);
  }

  function Digits(h: Huge): (s: seq<Digit>) {
    [h.hi / B, h.hi % B, h.lo / B, h.lo % B]
  }

  lemma DigitsValue(s: seq<Digit>)
    requires |s| == 4
    ensures Num(s) == (s[0] * B + s[1]) * W + s[2] * B + s[3] < Pow(4) == W * W
    ensures Pow(3) == B * W && Pow(2) == W
  {
    PowNext(3);
    PowNext(2);
    PowNext(1);
    PowSmall();
    hide Num, Pow;
    NumSnoc(s);
    NumSnoc(s[..3]);
    assert s[..3][..2] == s[..2];
    TwoDigits(s[..2]);
  }

  ghost predicate ShortlyDivided(u: seq<Digit>, q: seq<Digit>, t: Digit, r: nat) {
    Num(u) == Num(q) * t + r && r < t
  }

  /** Division by a single digit. */
  method ShortDivide(u: seq<Digit>, t: Digit) returns (q: seq<Digit>, rem: Digit)
    requires |u| == 4 && t > 0
    ensures |q| == 4 && ShortlyDivided(u, q, t, rem)
  {
    assert u[..0] == [] && ShortlyDivided([], [], t, 0);
    hide Num, Pow, Quot, Rem, ShortlyDivided;
    ShortNext(u, 0, [], t, 0);
    var q1, r1 := Quot(u[0], t), Rem(u[0], t);
    var rbj := r1 * B + u[1];
    assert [] + [q1] == [q1];
    ShortNext(u, 1, [q1], t, r1);
    var q2, r2 := Quot(rbj, t), Rem(rbj, t);
    rbj := r2 * B + u[2];
    ShortNext(u, 2, [q1] + [q2], t, r2);
    var q3, r3 := Quot(rbj, t), Rem(rbj, t);
    rbj := r3 * B + u[3];
    ShortNext(u, 3, [q1] + [q2] + [q3], t, r3);
    var q4 := Quot(rbj, t);
    q, rem := [q1] + [q2] + [q3] + [q4], Rem(rbj, t);
    assert u[..4] == u;
  }

  /** One digit more of a division by a digit. */
  lemma ShortNext(u: seq<Digit>, k: nat, q: seq<Digit>, t: Digit, r: Digit)
    requires k < |u| && ShortlyDivided(u[..k], q, t, r) && r < t
    ensures var x := r * B + u[k];
      Quot(x, t) < B && Rem(x, t) < t && ShortlyDivided(u[..k + 1], q + [Quot(x, t)], t, Rem(x, t))
  {
    hide Num, Pow, Quot, Rem;
    QuotRem(r, u[k], t);
    var x := r * B + u[k];
    var y: Digit := Quot(x, t);
    var n, m := Num(u[..k]), Num(q);
    assert Num(u[..k + 1]) == n * B + u[k] by {
      assert u[..k + 1][..k] == u[..k];
      NumSnoc(u[..k + 1]);
    }
    assert Num(q + [y]) == m * B + y by {
      assert (q + [y])[..|q|] == q;
      NumSnoc(q + [y]);
    }
    ShortStep(n, m, t, r, u[k], y, Rem(x, t));
  }

  lemma QuotRem(r: Digit, d: Digit, t: Digit)
    requires r < t
    ensures var x := r * B + d;
      Quot(x, t) < B && Rem(x, t) < t && x == Quot(x, t) * t + Rem(x, t)
  {
    MulLe(r + 1, t, B);
    DivLess(r * B + d, B, t);
  }

  lemma ShortStep(n: int, q: int, t: int, r: int, d: int, y: int, z: int)
    requires n == q * t + r && r * B + d == y * t + z
    ensures n * B + d == (q * B + y) * t + z
  {
    Distribute(q * t, r, B);
    Distribute(q * B, y, t);
    Swap(q, t, B);
  }

  /** What a division returns: the quotient of the digits that are left, and the remainder
      unless digits are lost or the last round adds back. */
  ghost predicate ActualResult(a: nat, b: nat, q: nat, r: nat)
    requires b > 0
  {
    && Lost(a, b) <= a
    && q == (a - Lost(a, b)) / b
    && (q == a / b <==> Lost(a, b) <= a % b)
    && (r == a % b <==> !LosesCarryEarly(a, b) && !AddsBackLast(a, b))
  }

  lemma FirstDigit(t: seq<Digit>)
    requires t != [] && t[0] > 0
    ensures Pow(|t| - 1) <= Num(t) && Num(t) / Pow(|t| - 1) == t[0] && Places(Num(t)) == |t|
  {
    hide Num, Pow, Places;
    var x, p, l := Num(t), Pow(|t| - 1), Num(t[1..]);
    assert t == [t[0]] + t[1..];
    NumCons(t[0], t[1..]);
    assert x == t[0] * p + l;
    DivModUnique(x, p, t[0], l);
    MulLe(1, t[0], p);
    PlacesOf(x, |t|);
  }

  /** The size of a number in digits, from a string with z leading zeros. */
  lemma CountDigits(s: seq<Digit>, z: nat)
    requires z < |s| && (forall i :: 0 <= i < z ==> s[i] == 0) && s[z] > 0
    ensures Num(s) == Num(s[z..]) && Places(Num(s)) == |s| - z && Pow(|s| - z - 1) <= Num(s) < Pow(|s| - z)
    ensures Num(s) / Pow(|s| - z - 1) == s[z]
  {
    hide Num, Pow, Places;
    LeadingZeros(s, z);
    FirstDigit(s[z..]);
  }

  lemma LeadingZero(s: seq<Digit>)
    requires s != [] && s[0] == 0
    ensures Num(s) == Num(s[1..])
  {
  }

  /** A divisor that is already normalised and as long as the dividend: the digit is 1. */
  lemma NoAddBackInOneDigit(x: nat, v: nat, n: nat)
    requires n >= 2 && Pow(n) <= 2 * v && v <= x < Pow(n)
    ensures x < v * B && !AddsBack(x, v, n)
  {
    PowTop(n);
    hide Pow;
    MulLe(2, B, v);
    EstimateIsClose(x, v, n);
    DivModUnique(x, v, 1, x - v);
    EstimateOne(x, v, Pow(n - 2));
  }

  lemma EstimateOne(x: nat, v: nat, k: nat)
    requires k > 0 && v / k > 0 && (B * B) * k <= 2 * v && x < (B * B) * k
    ensures Estimate(x / k, v / k) <= 1
  {
    DivTight(v, k, B * B / 2);
    DivLess(x, B * B, k);
    var y, z := x / k, v / k;
    DivLess(y, 2, z);
  }

  /** A divisor of two digits: the test with both digits is exact. */
  lemma TwoDigitsNeverAddBack(x: nat, v: nat)
    requires Pow(2) <= 2 * v && x < v * B
    ensures !AddsBack(x, v, 2)
  {
    hide Pow;
    EstimateIsClose(x, v, 2);
  }

  /** Nor does a divisor whose digits after the second are zeros. */
  lemma ShortDivisorNeverAddsBack(x: nat, v: nat, n: nat)
    requires n >= 2 && Pow(n) <= 2 * v && x < v * B && v % Pow(n - 2) == 0
    ensures !AddsBack(x, v, n)
  {
    hide Pow, Quot, Rem;
    EstimateIsClose(x, v, n);
    NestedQuotient(x, v, Pow(n - 2));
    DivLess(x, B, v);
  }

  lemma NestedQuotient(x: nat, v: nat, k: nat)
    requires k > 0 && v > 0 && v % k == 0
    ensures v / k > 0 && (x / k) / (v / k) == x / v
  {
    var y := v / k;
    assert v == y * k;
    var z, e := x / k, x % k;
    assert x == z * k + e;
    NestedStep(x, v, k, y, z, e, z / y, z % y);
  }

  lemma NestedStep(x: nat, v: nat, k: nat, y: nat, z: nat, e: nat, q: nat, r: nat)
    requires v > 0 && k > 0 && v == y * k && x == z * k + e && e < k && z == q * y + r && r < y
    ensures q == x / v
  {
    Distribute(q * y, r, k);
    MulAssoc(q, y, k);
    MulLe(r + 1, y, k);
    Distribute(r, 1, k);
    DivModUnique(x, v, q, r * k + e);
  }

  /** The remainder as it is put together from the last digits of the dividend. */
  ghost function RemainderOf(s: seq<Digit>, d: nat): nat
    requires s != [] && d < 32
  {
    if d > 0 then Num(Unshifted(s, d)) else if |s| < 5 then Num(s) else Num(s[1..])
  }

  /** The remainder is right unless the last round adds back. */
  lemma LastDigits(a: nat, b: nat, s: seq<Digit>, d: nat)
    requires b > 0 && 2 <= Places(b) <= Places(a) <= 4 && b <= a && |s| == Places(b) + 1 && d == Shift(b)
    requires AddsBackLast(a, b) ==> s[0] == B - 1
    requires !AddsBackLast(a, b) ==> s[0] == 0 && Num(s[1..]) == Scaled(a % b, d)
    ensures RemainderOf(s, d) == a % b <==> !AddsBackLast(a, b)
  {
    NormalisedDivisor(b);
    hide Pow, Pow2, Places, Shift, Num, AddsBackLast, RemainderOf;
    if !AddsBackLast(a, b) {
      RightDigits(s, d, a % b);
    } else if d == 0 && Places(b) == 4 {
      FullLength(a, b);
      assert false;
    } else if d == 0 && Places(b) == 2 {
      NeverLast(a, b);
      assert false;
    } else {
      WrongDigits(s, d, b);
    }
  }

  lemma NeverLast(a: nat, b: nat)
    requires b > 0 && Places(b) == 2
    ensures !AddsBackLast(a, b)
  {
    NormalisedDivisor(b);
    hide Pow, Pow2, Places, Shift, Scaled, LastDividend;
    TwoDigitsNeverAddBack(LastDividend(a, b), Scaled(b, Shift(b)));
  }

  lemma RightDigits(s: seq<Digit>, d: nat, r: nat)
    requires s != [] && d < 32 && s[0] == 0 && Num(s[1..]) == r * Pow2(d)
    ensures RemainderOf(s, d) == r
  {
    assert Pow2(0) == 1;
    hide Pow2, Num;
    LeadingZero(s);
    if d > 0 {
      BackValue(s, d, r);
    }
  }

  lemma WrongDigits(s: seq<Digit>, d: nat, b: nat)
    requires |s| > 1 && d < 32 && s[0] == B - 1 && b * Pow2(d) < Pow(|s| - 1) && (d > 0 || |s| < 5)
    ensures RemainderOf(s, d) >= b
  {
    assert Pow2(0) == 1;
    hide Pow2, Num, Pow;
    if d > 0 {
      BackWrong(s, d, b);
    } else {
      assert s == [s[0]] + s[1..];
      NumCons(s[0], s[1..]);
      MulLe(1, s[0], Pow(|s| - 1));
    }
  }

  lemma FullLength(a: nat, b: nat)
    requires 0 < b <= a && Places(b) == Places(a) == 4 && Shift(b) == 0
    ensures !AddsBackLast(a, b)
  {
    NormalisedDivisor(b);
    PlacesBound(a);
    assert Pow2(0) == 1;
    hide Pow, Pow2, Places, Shift;
    assert a < b * B by { MulLe(2, B, b); }
    DivModUnique(a, b * B, 0, a);
    NoAddBackInOneDigit(a, b, 4);
  }

  // ----- after all rounds -----

  lemma {:induction false} TwoDigitsLoseNothing(us0: seq<Digit>, v: nat, j: nat)
    requires MayDivide(us0, v, 2) && j + 2 <= |us0|
    ensures Before(us0, v, 2, j).lost == 0
  {
    hide Num, Pow, AddsBack;
    if j > 0 {
      TwoDigitsLoseNothing(us0, v, j - 1);
      TwoDigitsNeverAddBack(DividendOf(us0, v, 2, j - 1), v);
    }
  }

  /** All that is lost before the last round. */
  lemma LostIs(a: nat, b: nat, us0: seq<Digit>, vs: seq<Digit>)
    requires b > 0 && 2 <= |vs| == Places(b) <= Places(a) == |us0| - 1 <= 4 && IsNormalised(a, b, Shift(b), us0, vs)
    requires MayDivide(us0, Num(vs), |vs|)
    ensures Before(us0, Num(vs), |vs|, Places(a) - Places(b)).lost * B == Scaled(Lost(a, b), Shift(b))
  {
    hide Num, Pow, Pow2, Places, Shift, Loss, DividendOf, Before, Scaled, MayDivide, Rem;
    var n, m, v, d := Places(b), Places(a) - Places(b), Num(vs), Shift(b);
    if m == 1 {
      NormalisedDivisor(b);
      FirstFits(a, b);
      FirstDividend(us0, v, n);
      FirstLoss(us0, v, n);
      ScaleLoss(Loss(Scaled(a, d) / B, v, n), d);
    } else {
      NoRoundBefore(us0, v, n, m);
      ScaledNothing(d);
    }
  }

  lemma ScaledNothing(d: nat)
    ensures Scaled(0, d) == 0
  {
  }

  lemma ScaleLoss(loss: nat, d: nat)
    requires d <= 32
    ensures Scaled(Pow2(32 - d) * loss, d) == B * loss
  {
    hide Pow2;
    Split32(d);
    Swap(Pow2(32 - d), loss, Pow2(d));
  }

  lemma FirstLoss(us0: seq<Digit>, v: nat, n: nat)
    requires MayDivide(us0, v, n) && |us0| == n + 2
    ensures Before(us0, v, n, 1).lost == Loss(DividendOf(us0, v, n, 0), v, n)
  {
    hide Num, Pow, Loss, DividendOf, Rem;
    assert Before(us0, v, n, 0).lost == 0;
  }

  /** Neither with as many digits as the divisor has, nor with a divisor of two. */
  lemma NoRoundBefore(us0: seq<Digit>, v: nat, n: nat, m: nat)
    requires MayDivide(us0, v, n) && m + n <= |us0| && (m == 0 || n == 2)
    ensures Before(us0, v, n, m).lost == 0
  {
    hide Num, Pow, Loss, DividendOf, Rem;
    if n == 2 {
      TwoDigitsLoseNothing(us0, v, m);
    }
  }

  lemma FirstDividend(us0: seq<Digit>, v: nat, n: nat)
    requires MayDivide(us0, v, n) && |us0| == n + 2
    ensures DividendOf(us0, v, n, 0) == Num(us0) / B
  {
    PowSmall();
    PrefixSnoc(us0, n);
    hide Num, Pow;
    LeadingDigits(us0, n + 1);
  }

  /** The leading digits are made of the quotient so far, of what is lost and of what is
      left. */
  lemma {:induction false} BeforeSum(us0: seq<Digit>, v: nat, n: nat, j: nat) returns (q: nat)
    requires MayDivide(us0, v, n) && j + n <= |us0|
    ensures Num(us0[..j + n]) == v * q + Before(us0, v, n, j).lost + Before(us0, v, n, j).rest
  {
    hide Num, Pow, AddsBack, Loss, Quot, Rem;
    if j == 0 {
      q := 0;
    } else {
      q := BeforeSum(us0, v, n, j - 1);
      var p, x := Before(us0, v, n, j - 1), DividendOf(us0, v, n, j - 1);
      PrefixSnoc(us0, j - 1 + n);
      LossIsSmall(x, v, n);
      RoundSum(Num(us0[..j - 1 + n]), us0[j - 1 + n], v, q, Quot(x, v), p.lost, p.rest, Rem(x, v));
      q := q * B + Quot(x, v);
      assert us0[..j - 1 + n + 1] == us0[..j + n];
    }
  }

  lemma OneRound(us0: seq<Digit>, v: nat, n: nat, j: nat)
    requires MayDivide(us0, v, n) && j + n < |us0|
    ensures var x := DividendOf(us0, v, n, j);
      && 0 <= Loss(x, v, n) <= Rem(x, v)
      && Before(us0, v, n, j + 1) == Progress(Rem(x, v) - Loss(x, v, n), Before(us0, v, n, j).lost * B + Loss(x, v, n))
      && (!AddsBack(x, v, n) ==> Loss(x, v, n) == 0)
  {
    hide Num, Pow, AddsBack, Rem;
    LossIsSmall(DividendOf(us0, v, n, j), v, n);
  }

  /** The state after the last round. */
  lemma AllRounds(us0: seq<Digit>, vs: seq<Digit>, m: nat, us: seq<Digit>, qs: seq<Digit>)
    requires Rounds(us0, vs, m, m + 1, us, qs)
    ensures var a, v, n := Num(us0), Num(vs), |vs|;
      var x, lost := DividendOf(us0, v, n, m), Before(us0, v, n, m).lost * B;
      && a == v * Num(qs) + lost + Rem(x, v)
      && (lost == 0 ==> x == a % (v * B))
      && us[m..][0] == (if AddsBack(x, v, n) then B - 1 else 0)
      && (!AddsBack(x, v, n) ==> Num(us[m..][1..]) == Rem(x, v))
  {
    hide Num, Pow, AddsBack, Before, DividendOf, Loss, Rem, MayDivide, Rounds;
    LastRounds(us0, vs, m, us, qs);
    OneRound(us0, Num(vs), |vs|, m);
    if Before(us0, Num(vs), |vs|, m).lost == 0 {
      NothingLostYet(us0, Num(vs), |vs|, m);
    }
  }

  lemma LastRounds(us0: seq<Digit>, vs: seq<Digit>, m: nat, us: seq<Digit>, qs: seq<Digit>)
    requires Rounds(us0, vs, m, m + 1, us, qs)
    ensures var v, n := Num(vs), |vs|;
      && MayDivide(us0, v, n) && n >= 2 && Pow(n) <= 2 * v && v > 0 && |us| == |us0| == m + n + 1
      && Num(us0) == v * Num(qs) + Before(us0, v, n, m + 1).lost + Before(us0, v, n, m + 1).rest
      && us[m..][0] == BorrowAt(us0, v, n, m)
      && Num(us[m..][1..]) == Before(us0, v, n, m + 1).rest
  {
    hide Num, Pow, AddsBack, Before, DividendOf, BorrowAt;
    assert us0[..m + 1 + |vs|] == us0 && us[m..][1..] == us[m + 1..m + 1 + |vs|] && us[m..][0] == us[m];
  }

  lemma NothingLostYet(us0: seq<Digit>, v: nat, n: nat, m: nat)
    requires MayDivide(us0, v, n) && |us0| == m + n + 1 && Before(us0, v, n, m).lost == 0
    ensures DividendOf(us0, v, n, m) == Num(us0) % (v * B)
  {
    hide Num, Pow, AddsBack, Before, Loss, Rem;
    var q := BeforeSum(us0, v, n, m);
    PrefixSnoc(us0, m + n);
    assert us0[..m + n + 1] == us0;
    LastWindow(Num(us0[..m + n]), us0[m + n], v, q, Before(us0, v, n, m).rest, DividendOf(us0, v, n, m));
  }

  lemma LastWindow(p: nat, d: nat, v: nat, q: nat, rest: nat, x: nat)
    requires v > 0 && p == v * q + rest && x == rest * B + d && x < v * B
    ensures (p * B + d) % (v * B) == x
  {
    Distribute(v * q, rest, B);
    MulAssoc(q, v, B);
    assert p * B + d == q * (v * B) + x;
    DivModUnique(p * B + d, v * B, q, x);
  }

  /** Digits that are lost make the remainder wrong. */
  lemma LostMatters(a: nat, b: nat)
    requires b > 0 && 2 <= Places(b) <= Places(a) <= 4 && LosesCarryEarly(a, b) && Lost(a, b) <= a
    ensures Places(b) == 3 && (a - Lost(a, b)) % b != a % b
  {
    var n, d, l := Places(b), Shift(b), Lost(a, b);
    TwoPlacesLoseNothing(a, b);
    NormalisedDivisor(b);
    FirstFits(a, b);
    hide Pow, Pow2, Scaled, Shift, Places, Loss, Rem;
    var x, v := Scaled(a, d) / B, Scaled(b, d);
    var loss := Loss(x, v, n);
    assert l == Pow2(32 - d) * loss;
    hide Lost;
    ScaleLoss(loss, d);
    if (a - l) % b == a % b {
      var k := MultipleOf(a, l, b);
      ScaledMultiple(l, k, b, d);
      LossIsNoMultiple(x, v, k);
      assert false;
    }
  }

  lemma NoLoss(x: nat, v: nat, n: nat)
    requires n >= 2 && Pow(n) <= 2 * v && v < Pow(n) && x < v * B && !AddsBack(x, v, n)
    ensures Loss(x, v, n) == 0
  {
  }

  lemma TwoPlacesLoseNothing(a: nat, b: nat)
    requires b > 0
    ensures Places(b) == 2 ==> Lost(a, b) == 0
  {
    hide Pow, Pow2, Scaled, Shift, Places, Loss;
    if Places(b) == 2 && Places(a) == 3 {
      NormalisedDivisor(b);
      FirstFits(a, b);
      var x, v := Scaled(a, Shift(b)) / B, Scaled(b, Shift(b));
      TwoDigitsNeverAddBack(x, v);
      NoLoss(x, v, 2);
    }
  }

  lemma ScaledMultiple(l: nat, k: int, b: nat, d: nat)
    requires l == k * b
    ensures Scaled(l, d) == k * Scaled(b, d)
  {
    hide Pow2;
    MulAssoc(k, b, Pow2(d));
  }

  lemma MultipleOf(a: nat, l: nat, b: nat) returns (k: int)
    requires b > 0 && l <= a && (a - l) % b == a % b
    ensures l == k * b
  {
    k := a / b - (a - l) / b;
    assert a == (a / b) * b + a % b && a - l == ((a - l) / b) * b + (a - l) % b;
    Distribute(a / b, -((a - l) / b), b);
  }

  lemma LossIsNoMultiple(x: nat, v: nat, k: int)
    requires Pow(3) <= 2 * v && v < Pow(3) && x < v * B && Loss(x, v, 3) > 0
    ensures B * Loss(x, v, 3) != k * v
  {
    LossParts(x, v);
    hide Pow, Loss, AddsBack;
    DigitsValue([0, 0, 0, 0]);
    var l := B * Loss(x, v, 3);
    if l == k * v {
      if k <= 0 {
        MulLe(k, 0, v);
        assert false;
      } else if k >= 3 {
        MulLe(3, k, v);
        assert false;
      }
      assert v % B == 0;
      PowSmall();
      ShortDivisorNeverAddsBack(x, v, 3);
      assert false;
    }
  }

  /** What a divisor of three digits can lose: one or both of two carries. */
  lemma LossParts(x: nat, v: nat)
    requires Pow(3) <= 2 * v && v < Pow(3) && x < v * B && Loss(x, v, 3) > 0
    ensures AddsBack(x, v, 3) && B * Loss(x, v, 3) in {B * B, B * B * B, B * B * B + B * B}
  {
    LossIsSmall(x, v, 3);
    hide Pow, AddsBack, ToDigits, Quot, Rem;
    var cs := Carries(ToDigits(Pow(3) - v + Rem(x, v), 3), ToDigits(v, 3))[1..];
    TwoDigits(cs);
    TwoDigitNumber(cs);
  }

  lemma TwoDigitNumber(cs: seq<Digit>)
    requires |cs| == 2
    ensures Num(cs) == cs[0] * B + cs[1]
  {
    PowSmall();
    hide Pow;
    OneDigitValue(cs[1]);
    assert cs == [cs[0]] + [cs[1]];
    NumCons(cs[0], [cs[1]]);
  }

  /** The quotient of less than a. */
  lemma QuotientOfRest(a: nat, l: nat, b: nat)
    requires b > 0 && l <= a
    ensures (a - l) / b == a / b <==> l <= a % b
  {
    var q, r := Euclid(a, b);
    var q', r' := Euclid(a - l, b);
    if l <= r {
      DivModUnique(a - l, b, q, r - l);
    }
  }

  /** Round digits that stay in the dividend but are not part of the remainder's digits. */
  lemma NoStaleDigits(us0: seq<Digit>, vs: seq<Digit>, m: nat, us: seq<Digit>, qs: seq<Digit>)
    requires Rounds(us0, vs, m, m + 1, us, qs) && m + |vs| <= 4
    ensures forall k :: 0 <= k < m && k + 4 - |vs| - m >= 1 ==> us[k] == 0
  {
    hide Num, Pow, AddsBack;
    if |vs| == 2 {
      forall k | 0 <= k < m
        ensures us[k] == 0
      {
        TwoDigitsNeverAddBack(DividendOf(us0, Num(vs), 2, k), Num(vs));
      }
    }
  }

  /** The conclusion drawn after all rounds. */
  lemma RoundsResult(a: nat, b: nat, us0: seq<Digit>, vs: seq<Digit>, us: seq<Digit>, qs: seq<Digit>, rem: nat)
    requires 0 < b <= a && |us| == |us0| && 2 <= |vs| == Places(b) <= Places(a) == |us| - 1 <= 4
    requires IsNormalised(a, b, Shift(b), us0, vs)
    requires var m := Places(a) - Places(b);
      Rounds(us0, vs, m, m + 1, us, qs) && rem == RemainderOf(us[m..], Shift(b))
    ensures ActualResult(a, b, Num(qs), rem)
  {
    hide Num, Pow, Pow2, Places, Shift, RemainderOf, AddsBack, Before, DividendOf, Lost, Scaled, Quot, Rem;
    var n, m, d, v, l := Places(b), Places(a) - Places(b), Shift(b), Num(vs), Lost(a, b);
    NormalisedDivisor(b);
    AllRounds(us0, vs, m, us, qs);
    LostIs(a, b, us0, vs);
    var x := DividendOf(us0, v, n, m);
    RemOfDivisor(x, v);
    UnscaledSum(a, b, l, d, Num(qs), Rem(x, v));
    ScaledDivision(a - l, b, d);
    QuotientOfRest(a, l, b);
    var s := us[m..];
    if l == 0 {
      ScaledNothing(d);
      assert Scaled(a, d) % (v * B) == LastDividend(a, b);
    }
    RemainderResult(a, b, s, d, if l == 0 then AddsBackLast(a, b) else AddsBack(x, v, n));
  }

  lemma RemainderResult(a: nat, b: nat, s: seq<Digit>, d: nat, borrowed: bool)
    requires b > 0 && 2 <= Places(b) <= Places(a) <= 4 && b <= a && |s| == Places(b) + 1 && d == Shift(b)
    requires Lost(a, b) <= a
    requires s[0] == if borrowed then B - 1 else 0
    requires !borrowed ==> Num(s[1..]) == Scaled((a - Lost(a, b)) % b, d)
    requires Lost(a, b) == 0 ==> borrowed == AddsBackLast(a, b)
    ensures RemainderOf(s, d) == a % b <==> !LosesCarryEarly(a, b) && !AddsBackLast(a, b)
  {
    hide Num, Pow, Pow2, Places, Shift, RemainderOf, Lost, Scaled, AddsBackLast;
    if Lost(a, b) == 0 {
      LastDigits(a, b, s, d);
    } else {
      LostMatters(a, b);
      RemOfDivisor(a, b);
      if borrowed {
        WrongIfBorrowed(s, d, b, Places(b));
      } else {
        RightIfScaled(s, d, (a - Lost(a, b)) % b);
      }
    }
  }

  lemma RemOfDivisor(x: nat, v: nat)
    requires v > 0
    ensures Rem(x, v) == x % v < v
  {
  }

  lemma WrongIfBorrowed(s: seq<Digit>, d: nat, b: nat, n: nat)
    requires b > 0 && n == Places(b) == 3 && |s| == n + 1 && s[0] == B - 1 && d == Shift(b)
    ensures RemainderOf(s, d) >= b
  {
    NormalisedDivisor(b);
    hide Pow, Pow2, Shift, Places, Num;
    WrongDigits(s, d, b);
  }

  lemma RightIfScaled(s: seq<Digit>, d: nat, r: nat)
    requires s != [] && d < 32 && s[0] == 0 && Num(s[1..]) == Scaled(r, d)
    ensures RemainderOf(s, d) == r
  {
    hide Pow, Pow2, Num;
    RightDigits(s, d, r);
  }

  /** The same division without the scaling. */
  lemma UnscaledSum(a: nat, b: nat, l: nat, d: nat, q: nat, r: nat)
    requires b > 0 && Scaled(a, d) == Scaled(b, d) * q + Scaled(l, d) + r && r < Scaled(b, d)
    ensures l <= a && q == Quot(Scaled(a - l, d), Scaled(b, d)) && r == Rem(Scaled(a - l, d), Scaled(b, d))
  {
    hide Pow2;
    var s := Pow2(d);
    MulLe(0, q, b * s);
    if l > a {
      MulLe(a + 1, l, s);
      Distribute(a, 1, s);
      assert false;
    }
    Distribute(a, 0 - l, s);
    MulAssoc(-1, l, s);
    assert (0 - l) * s == 0 - l * s;
    DivModUnique((a - l) * s, b * s, q, r);
  }

  lemma BothShifted(us: seq<Digit>, vs: seq<Digit>)
    requires |us| >= |vs| >= 2 && us[0] == 0 && vs[0] > 0
    ensures var d := Headroom(vs[0]);
      IsNormalised(Num(us), Num(vs), d, Shifted(us, d), Shifted(vs, d)) &&
      (d == 0 ==> IsNormalised(Num(us), Num(vs), d, us, vs))
  {
    var d := Headroom(vs[0]);
    assert d == 0 ==> vs[0] >= B / 2;
    assert Pow2(0) == 1;
    assert |Shifted(us, d)| == |us| && |Shifted(vs, d)| == |vs|;
    hide Num, Pow, Pow2, Shifted, Headroom;
    ShiftedDivisor(vs);
    ShiftedDividend(us, d);
  }

  /** The shift of both operands, from position uo and vo on. */
  method Normalise(u: array<Digit>, uo: nat, v: array<Digit>, vo: nat, m: nat, n: nat) returns (d: nat)
    requires u != v && uo + m + n + 1 == u.Length && vo + 1 + n == v.Length && n >= 2
    requires u[uo] == 0 && v[vo + 1] > 0
    modifies u, v
    ensures d == Headroom(old(v[vo + 1]))
    ensures forall k :: 0 <= k < uo ==> u[k] == old(u[k])
    ensures IsNormalised(old(Num(u[uo..])), old(Num(v[vo + 1..])), d, u[uo..], v[vo + 1..])
  {
    ghost var us, vs := u[uo..], v[vo + 1..];
    hide *;
    d := CountHeadroom(v[vo + 1]);
    BothShifted(us, vs);
    if d > 0 {
      ShiftDigits(u, uo, m + n, d);
      ShiftDigits(v, vo + 1, n - 1, d);
    }
  }

  /** The main loop. */
  method DivideRounds(u: array<Digit>, uo: nat, v: array<Digit>, vo: nat, q: array<Digit>, qo: nat, m: nat, n: nat)
    requires u != v && u != q && v != q && n >= 2
    requires uo + m + n + 1 == u.Length && vo + 1 + n == v.Length && qo + m + 1 == q.Length
    requires v[vo + 1] >= B / 2 && Pow(n) <= 2 * Num(v[vo + 1..]) && Num(u[uo..uo + n]) < Num(v[vo + 1..])
    modifies u, q
    ensures forall k :: 0 <= k < uo ==> u[k] == old(u[k])
    ensures forall k :: 0 <= k < qo ==> q[k] == old(q[k])
    ensures Rounds(old(u[uo..]), v[vo + 1..], m, m + 1, u[uo..], q[qo..])
  {
    hide *;
    ghost var us0, vs := u[uo..], v[vo + 1..];
    assert us0[..n] == u[uo..uo + n];
    RoundsStart(us0, vs, m);
    var j := 0;
    assert q[qo..qo] == [];
    while j <= m
      invariant 0 <= j <= m + 1
      invariant forall k :: 0 <= k < uo ==> u[k] == old(u[k])
      invariant forall k :: 0 <= k < qo ==> q[k] == old(q[k])
      invariant Rounds(us0, vs, m, j, u[uo..], q[qo..qo + j])
    {
      ghost var us, qs := u[uo..], q[qo..qo + j];
      assert us[j..j + n + 1] == u[uo + j..uo + j + n + 1];
      assert vs == v[vo + 1..vo + n + 1];
      var digit := DivideStep(u, uo + j, v, vo, n);
      assert u[uo..][j..j + n + 1] == u[uo + j..uo + j + n + 1];
      RoundsNext(us0, vs, m, j, us, qs, digit, u[uo..]);
      q[qo + j] := digit;
      assert q[qo..qo + j + 1] == qs + [digit];
      j := j + 1;
    }
    assert q[qo..] == q[qo..qo + j];
  }

  lemma {:induction false} PowGrows(a: nat, b: nat)
    requires a <= b
    ensures Pow(a) <= Pow(b)
    decreases b
  {
    if a < b {
      PowGrows(a, b - 1);
    }
  }

  lemma NotSmaller(s: seq<Digit>, z: nat, n: nat)
    requires |s| == 4 && z <= 4 && n >= 1 && (forall i :: 0 <= i < z ==> s[i] == 0) && Pow(n - 1) <= Num(s)
    ensures z < 5 - n
  {
    hide Num, Pow;
    LeadingZeros(s, z);
    if z >= 5 - n {
      PowGrows(4 - z, n - 1);
      assert false;
    }
  }

  /** The loop that skips leading zeros of the dividend: m + n digits remain. */
  method SkipZeros(u: array<Digit>, n: nat) returns (m: nat)
    requires u.Length == 5 && u[0] == 0 && 2 <= n <= 4 && Pow(n - 1) <= Num(u[1..])
    ensures m <= 4 - n && forall k :: 0 <= k <= 4 - n - m ==> u[k] == 0
    ensures Places(Num(u[1..])) == m + n && Num(u[1..]) < Pow(m + n) && Num(u[4 - n - m..]) == Num(u[1..])
  {
    hide *;
    var uo := 0;
    m := 4 - n;
    while u[uo + 1] == 0
      invariant 0 <= m && uo == 4 - n - m && forall k :: 0 <= k <= uo ==> u[k] == 0
      decreases m
    {
      NotSmaller(u[1..], uo + 1, n);
      m := m - 1;
      uo := uo + 1;
    }
    CountDigits(u[1..], uo);
    assert u[1..][uo..] == u[uo + 1..] == u[uo..][1..];
    LeadingZero(u[uo..]);
  }

  /** The remainder's digits when the loop is over. */
  lemma WholeRemainder(now: seq<Digit>, us: seq<Digit>, n: nat, m: nat, d: nat)
    requires |now| == 5 && 2 <= n <= 4 && m <= 4 - n && |us| == n + m + 1 && d < 32
    requires forall k :: 0 <= k < 4 - n - m ==> now[k] == 0
    requires forall k :: 4 - n - m <= k < 4 - n ==> now[k] == us[k - (4 - n - m)]
    requires forall k :: 0 <= k < m && k + 4 - n - m >= 1 ==> us[k] == 0
    requires if d > 0 then now[4 - n] == 0 && now[5 - n..] == Unshifted(us[m..], d) else now[4 - n..] == us[m..]
    ensures Num(now[1..]) == RemainderOf(us[m..], d)
  {
    hide Num, Unshifted;
    if d > 0 {
      LeadingZeros(now[1..], 4 - n);
      assert now[1..][4 - n..] == now[5 - n..];
    } else if n < 4 {
      LeadingZeros(now[1..], 3 - n);
      assert now[1..][3 - n..] == now[4 - n..];
    } else {
      assert now[1..] == us[m..][1..];
    }
  }

  /** The case of a divisor of more than one digit. u[0] is 0, the operands' digits
      follow; the divisor's first digit is at position 5 - n. */
  method LongDivide(u: array<Digit>, v: array<Digit>, n: nat) returns (q: array<Digit>)
    requires u != v && u.Length == 5 && v.Length == 5 && 2 <= n <= 4
    requires u[0] == 0 && v[5 - n] > 0 && forall k :: 1 <= k < 5 - n ==> v[k] == 0
    requires Num(v[1..]) <= Num(u[1..])
    modifies u, v
    ensures fresh(q) && q.Length == 5
    ensures Num(old(v[1..])) > 0 && Places(Num(old(v[1..]))) == n <= Places(Num(old(u[1..])))
    ensures ActualResult(Num(old(u[1..])), Num(old(v[1..])), Num(q[1..]), Num(u[1..]))
  {
    hide *;
    ghost var a, b := Num(u[1..]), Num(v[1..]);
    var vo := 4 - n;
    CountDigits(v[1..], vo);
    var m := SkipZeros(u, n);
    var uo := 4 - n - m;
    q := new Digit[5];
    var i := 4 - m;
    while i > 0
      invariant 0 <= i <= 4 - m && forall k :: i <= k < 4 - m ==> q[k] == 0
      invariant u[..] == old(u[..]) && v[..] == old(v[..])
    {
      i := i - 1;
      q[i] := 0;
    }
    NormaliseAndDivide(u, v, q, m, n, a, b);
    LeadingZeros(q[1..], 3 - m);
    assert q[1..][3 - m..] == q[4 - m..];
  }

  method NormaliseAndDivide(
      u: array<Digit>, v: array<Digit>, q: array<Digit>, m: nat, n: nat, ghost a: nat, ghost b: nat)
    requires u != v && q != u && q != v && u.Length == 5 && v.Length == 5 && q.Length == 5 && 2 <= n <= 4 && m <= 4 - n
    requires v[5 - n] > 0 && forall k :: 0 <= k <= 4 - n - m ==> u[k] == 0
    requires Num(u[4 - n - m..]) == a && Num(v[5 - n..]) == b && 0 < b <= a
    requires Places(a) == m + n && Places(b) == n && b / Pow(n - 1) == v[5 - n] && a < Pow(m + n) && Pow(n - 1) <= b
    modifies u, v, q
    ensures forall k :: 0 <= k < 4 - m ==> q[k] == old(q[k])
    ensures ActualResult(a, b, Num(q[4 - m..]), Num(u[1..]))
  {
    hide *;
    var uo, vo, qo := 4 - n - m, 4 - n, 4 - m;
    var d := Normalise(u, uo, v, vo, m, n);
    ghost var us0, vs := u[uo..], v[vo + 1..];
    assert us0[..n] == u[uo..uo + n];
    StartsSmall(a, b, d, n, m, us0, vs);
    assert d == Shift(b) by { ShiftIs(b, n, old(v[5 - n])); }
    assert v[vo + 1] == vs[0] >= B / 2 by { NormalisedTop(a, b, d, us0, vs); }
    DivideRounds(u, uo, v, vo, q, qo, m, n);
    ghost var us, qs := u[uo..], q[qo..];
    NoStaleDigits(us0, vs, m, us, qs);
    assert us[m..] == u[uo + m..];
    if d > 0 {
      assert uo + m + n + 1 == u.Length;
      assert u[uo + m..uo + m + n + 1] == u[uo + m..];
      ShiftBack(u, uo + m, n, d);
      assert u[uo + m + 1..uo + m + n + 1] == u[5 - n..];
    } else {
      assert u[4 - n..] == us[m..];
    }
    WholeRemainder(u[..], us, n, m, d);
    assert u[..][1..] == u[1..];
    RoundsResult(a, b, us0, vs, us, qs, Num(u[1..]));
    assert qs == q[qo..];
  }

  lemma ShiftIs(b: nat, n: nat, t: Digit)
    requires b > 0 && t > 0 && n > 0 && Places(b) == n && b / Pow(n - 1) == t
    ensures Shift(b) == Headroom(t)
  {
  }

  lemma NormalisedTop(a: nat, b: nat, d: nat, us: seq<Digit>, vs: seq<Digit>)
    requires IsNormalised(a, b, d, us, vs)
    ensures vs[0] >= B / 2
  {
  }

  /** Below B^2 and from B^3 on, no round but the last can be in doubt. */
  lemma WhenExact(a: nat, b: nat, q: nat, r: nat)
    requires 0 < b <= a < W * W && Places(b) >= 2 && ActualResult(a, b, q, r)
    ensures b < W ==> q == a / b && r == a % b
    ensures b >= B * W ==> q == a / b && (r == a % b <==> !AddsBackLast(a, b))
  {
    DigitsValue([0, 0, 0, 0]);
    NothingLost(a, b);
    hide Pow, Places, Lost, AddsBackLast;
    if b < W {
      PlacesBelow(b, 2);
      NeverLast(a, b);
    }
  }

  lemma NothingLost(a: nat, b: nat)
    requires 0 < b && a < W * W && Places(b) >= 2
    ensures b < W || b >= B * W ==> Lost(a, b) == 0
  {
    DigitsValue([0, 0, 0, 0]);
    TwoPlacesLoseNothing(a, b);
    if b < W {
      hide Pow, Places, Lost;
      PlacesBelow(b, 2);
    }
    if b >= B * W {
      PlacesAbove(b, 3);
      PlacesBelow(a, 4);
    }
  }

  lemma {:induction false} PlacesBelow(x: nat, k: nat)
    requires x < Pow(k)
    ensures Places(x) <= k
    decreases k
  {
    if x > 0 && k > 0 {
      DivLess(x, Pow(k - 1), B);
      PlacesBelow(x / B, k - 1);
    }
  }

  lemma {:induction false} PlacesAbove(x: nat, k: nat)
    requires x >= Pow(k)
    ensures Places(x) > k
    decreases k
  {
    if k > 0 {
      DivTight(x, B, Pow(k - 1));
      PlacesAbove(x / B, k - 1);
    }
  }

  lemma DigitsOf(h: Huge)
    ensures Num(Digits(h)) == Val(h)
  {
    DigitsValue(Digits(h));
  }

  function Join2(hi: Digit, lo: Digit): Word {
    hi * B + lo
  }

  lemma JoinedValue(s: seq<Digit>)
    requires |s| == 4
    ensures Val(Huge(Join2(s[0], s[1]), Join2(s[2], s[3]))) == Num(s)
  {
    DigitsValue(s);
  }

  lemma Nonzero(b: Huge)
    requires b != Huge(0, 0)
    ensures Val(b) > 0 && forall k :: 0 <= k < 3 && Digits(b)[k] != 0 ==> Val(b) >= B
    ensures Digits(b)[0] == Digits(b)[1] == Digits(b)[2] == 0 ==> Val(b) == Digits(b)[3]
  {
  }

  /** a < b as it is tested on the halves. */
  lemma LessByHalves(a: Huge, b: Huge)
    ensures a.hi < b.hi || (a.hi == b.hi && a.lo < b.lo) <==> Val(a) < Val(b)
  {
  }

  /** The digits of an operand, after a zero digit. */
  method Unpack(h: Huge) returns (u: array<Digit>)
    ensures fresh(u) && u.Length == 5 && u[0] == 0 && u[1..] == Digits(h)
  {
    u := new Digit[5];
    u[0], u[1], u[2], u[3], u[4] := 0, h.hi / B, h.hi % B, h.lo / B, h.lo % B;
  }

  /** What divmod promises of a quotient and a remainder: both are right for divisors
      below 2^64, the quotient also for those from 2^96 on. */
  ghost predicate DivisionResult(a: nat, b: nat, q: nat, r: nat) {
    && b > 0 && ActualResult(a, b, q, r)
    && (b < W ==> q == a / b && r == a % b)
    && (b >= B * W ==> q == a / b)
  }

  /** Nothing is in doubt where the source does not come to its main loop. */
  lemma ShortResult(a: nat, b: nat)
    requires b > 0 && (a < b || b < B)
    ensures ActualResult(a, b, a / b, a % b)
  {
    PowSmall();
    hide Pow, Pow2, Scaled, Shift;
    if a < b {
      PlacesGrow(a, b);
    } else {
      PlacesBelow(b, 1);
    }
  }

  lemma {:induction false} PlacesGrow(x: nat, y: nat)
    requires x <= y
    ensures Places(x) <= Places(y)
    decreases y
  {
    if x > 0 {
      DivTight(y, B, x / B);
      PlacesGrow(x / B, y / B);
    }
  }

  /** divmod: quotient and remainder of a by b. The source stops with an internal error
      for b == 0. */
  method DivMod(a: Huge, b: Huge) returns (r: Huge, rem: Huge)
    requires b != Huge(0, 0)
    ensures DivisionResult(Val(a), Val(b), Val(r), Val(rem))
  {
    hide Num, Pow, Places, ActualResult, Val, Digits;
    LessByHalves(a, b);
    Nonzero(b);
    if a.hi < b.hi || (a.hi == b.hi && a.lo < b.lo) {
      DivModUnique(Val(a), Val(b), 0, Val(a));
      ShortResult(Val(a), Val(b));
      NothingLeft();
      return Huge(0, 0), a;
    }
    var u := Unpack(a);
    var v := Unpack(b);
    var n, vo := 4, 0;
    while v[vo + 1] == 0
      invariant 2 <= n <= 4 && vo == 4 - n && forall k :: 1 <= k <= vo ==> v[k] == 0
      invariant u[1..] == Digits(a) && v[1..] == Digits(b) && u[0] == 0
      decreases n
    {
      n := n - 1;
      if n == 1 {
        r, rem := ShortCase(u, v, a, b);
        return;
      }
      vo := vo + 1;
    }
    r, rem := LongCase(u, v, n, a, b);
  }

  lemma NothingLeft()
    ensures Val(Huge(0, 0)) == 0
  {
  }

  method ShortCase(u: array<Digit>, v: array<Digit>, ghost a: Huge, ghost b: Huge) returns (r: Huge, rem: Huge)
    requires u.Length == 5 && v.Length == 5 && u[1..] == Digits(a) && v[1..] == Digits(b)
    requires v[1] == v[2] == v[3] == 0 && b != Huge(0, 0)
    ensures DivisionResult(Val(a), Val(b), Val(r), Val(rem))
  {
    Nonzero(b);
    DigitsOf(a);
    hide Num, Pow, Places, ActualResult, Digits;
    assert v[1..][0] == v[1..][1] == v[1..][2] == 0 && v[1..][3] == v[4];
    var t := v[4];
    var q, rest := ShortDivide(u[1..], t);
    r, rem := Huge(Join2(q[0], q[1]), Join2(q[2], q[3])), Huge(0, rest);
    JoinedValue(q);
    ShortIsExact(u[1..], q, t, rest);
    ShortResult(Val(a), Val(b));
  }

  method LongCase(u: array<Digit>, v: array<Digit>, n: nat, ghost a: Huge, ghost b: Huge) returns (r: Huge, rem: Huge)
    requires u != v && u.Length == 5 && v.Length == 5 && u[1..] == Digits(a) && v[1..] == Digits(b)
    requires 2 <= n <= 4 && u[0] == 0 && v[5 - n] > 0 && forall k :: 1 <= k < 5 - n ==> v[k] == 0
    requires Val(b) <= Val(a)
    modifies u, v
    ensures DivisionResult(Val(a), Val(b), Val(r), Val(rem))
  {
    hide Num, Pow, Places, ActualResult, Val, Digits, Join2, AddsBackLast;
    DigitsOf(a);
    DigitsOf(b);
    var q := LongDivide(u, v, n);
    r := Huge(Join2(q[1], q[2]), Join2(q[3], q[4]));
    rem := Huge(Join2(u[1], u[2]), Join2(u[3], u[4]));
    JoinedValue(q[1..]);
    JoinedValue(u[1..]);
    ValBound(a);
    WhenExact(Val(a), Val(b), Val(r), Val(rem));
  }

  lemma ValBound(a: Huge)
    ensures Val(a) < W * W
  {
  }

  lemma ShortIsExact(u: seq<Digit>, q: seq<Digit>, t: Digit, r: nat)
    requires t > 0 && ShortlyDivided(u, q, t, r)
    ensures Num(q) == Num(u) / t && r == Num(u) % t && r < B
  {
    DivModUnique(Num(u), t, Num(q), r);
  }

  /** For a divisor from 2^96 on, the remainder is right if and only if the last round
      does not add back. */
  lemma RemainderOfLargeDivisor(a: nat, b: nat, q: nat, r: nat)
    requires B * W <= b <= a < W * W && DivisionResult(a, b, q, r)
    ensures q == a / b && (r == a % b <==> !AddsBackLast(a, b))
  {
    ExamplePlaces(b);
    hide Pow, Places, AddsBackLast, Lost;
    WhenExact(a, b, q, r);
  }

  lemma {:induction false} Pow2Grows(a: nat, b: nat)
    requires a <= b
    ensures Pow2(a) <= Pow2(b)
    decreases b
  {
    if a < b {
      Pow2Grows(a, b - 1);
    }
  }

  const EXAMPLE: nat := B * W + B - 1

  lemma ShiftOfOne()
    ensures Headroom(1) == 31 && Pow2(31) == B / 2
  {
    PowersOfTwo();
    assert Pow2(32) == 2 * Pow2(31);
    assert Pow2(31) == 2 * Pow2(30);
    hide Pow2;
    var d := Headroom(1);
    hide Headroom;
    if d < 31 {
      Pow2Grows(d, 30);
    }
  }

  lemma ExamplePlaces(x: nat)
    requires B * W <= x < W * W
    ensures Places(x) == 4
  {
    hide Pow, Places;
    DigitsValue([0, 0, 0, 0]);
    PlacesAbove(x, 3);
    PlacesBelow(x, 4);
  }

  lemma ExampleShift()
    ensures Places(EXAMPLE) == 4 && Places(2 * EXAMPLE - 1) == 4 && Shift(EXAMPLE) == 31 && Pow2(31) == B / 2
  {
    hide Pow, Pow2, Places, Headroom;
    ExamplePlaces(EXAMPLE);
    ExamplePlaces(2 * EXAMPLE - 1);
    ShiftOfOne();
    DigitsValue([0, 0, 0, 0]);
    DivModUnique(EXAMPLE, B * W, 1, B - 1);
    ShiftIs(EXAMPLE, 4, 1);
  }

  /** One such division: for b = 2^96 + 2^32 - 1 the remainder of 2b - 1 is not b - 1. */
  lemma RemainderCanBeWrong(q: nat, r: nat)
    requires DivisionResult(2 * EXAMPLE - 1, EXAMPLE, q, r)
    ensures r != (2 * EXAMPLE - 1) % EXAMPLE == EXAMPLE - 1
  {
    var b := EXAMPLE;
    var a := 2 * b - 1;
    ExampleShift();
    DigitsValue([0, 0, 0, 0]);
    NormalisedDivisor(b);
    var va, vb := Scaled(a, 31), Scaled(b, 31);
    assert va == a * (B / 2) && vb == b * (B / 2);
    hide Pow, Pow2, Places, Shift, Scaled, Lost;
    DivModUnique(a, b, 1, b - 1);
    DivModUnique(va, vb * B, 0, va);
    DivModUnique(vb, W, B * B / 2, vb - (B * B / 2) * W);
    DivModUnique(va, W, B * B, va - (B * B) * W);
    DivModUnique(va, vb, 1, va - vb);
  }

  const DIVISOR: nat := W + 3
  const DIVIDEND: nat := B * W + 2 * B

  lemma WrongQuotientShift()
    ensures Places(DIVISOR) == 3 && Places(DIVIDEND) == 4 && Shift(DIVISOR) == 31 && Pow2(31) == B / 2 && Pow2(1) == 2
  {
    assert Pow2(1) == 2 * Pow2(0);
    hide Pow, Pow2, Places, Headroom;
    ExamplePlaces(DIVIDEND);
    DigitsValue([0, 0, 0, 0]);
    PlacesAbove(DIVISOR, 2);
    PlacesBelow(DIVISOR, 3);
    ShiftOfOne();
    DivModUnique(DIVISOR, W, 1, 3);
    ShiftIs(DIVISOR, 3, 1);
  }

  /** The operands of its first round. */
  lemma WrongQuotientOperands()
    ensures Scaled(DIVIDEND, 31) / B == B * W / 2 + B && Scaled(DIVISOR, 31) == B * W / 2 + B + B / 2
  {
    WrongQuotientShift();
    hide Pow2;
    var a, b := DIVIDEND, DIVISOR;
    assert Scaled(a, 31) == a * (B / 2) && Scaled(b, 31) == b * (B / 2);
    DivModUnique(a * (B / 2), B, a / 2, 0);
    DivModUnique(a, 2, B * W / 2 + B, 0);
  }

  lemma WrongQuotientLoss(x: nat, v: nat)
    requires x == B * W / 2 + B && v == B * W / 2 + B + B / 2
    ensures Pow(3) <= 2 * v && v < Pow(3) && x < v * B && Loss(x, v, 3) == B * (B + 1)
  {
    DigitsValue([0, 0, 0, 0]);
    PowSmall();
    hide Pow, ToDigits;
    DivModUnique(x, v, 0, x);
    DivModUnique(x, B, W / 2 + 1, 0);
    DivModUnique(v, B, W / 2 + 1, B / 2);
    DivModUnique(W / 2 + 1, W / 2 + 1, 1, 0);
    assert AddsBack(x, v, 3);
    ThreeDigitsOf(Pow(3) - v + x, B - 1, B - 1, B / 2);
    ThreeDigitsOf(v, B / 2, 1, B / 2);
    assert Carries([B - 1, B - 1, B / 2], [B / 2, 1, B / 2])[1..] == [1, 1];
    TwoDigitNumber([1, 1]);
  }

  /** And a quotient can be wrong: that of 2^96 + 2^33 by 2^64 + 3. Both carries of the
      first round are lost. */
  lemma QuotientCanBeWrong(q: nat, r: nat)
    requires DivisionResult(DIVIDEND, DIVISOR, q, r)
    ensures q != DIVIDEND / DIVISOR == B - 1
  {
    var a, b := DIVIDEND, DIVISOR;
    WrongQuotientShift();
    WrongQuotientOperands();
    hide Pow, Pow2, Places, Shift, Scaled, Loss;
    NormalisedDivisor(b);
    FirstFits(a, b);
    WrongQuotientLoss(Scaled(a, 31) / B, Scaled(b, 31));
    assert Lost(a, b) == 2 * (B * (B + 1));
    DivModUnique(a, b, B - 1, a - (B - 1) * b);
  }

  lemma ThreeDigitsOf(x: nat, d0: Digit, d1: Digit, d2: Digit)
    requires x == (d0 * B + d1) * B + d2
    ensures ToDigits(x, 3) == [d0, d1, d2]
  {
    DivModUnique(x, B, d0 * B + d1, d2);
    DivModUnique(d0 * B + d1, B, d0, d1);
    DivModUnique(d0, B, 0, d0);
    assert ToDigits(d0, 1) == ToDigits(0, 0) + [d0] == [d0];
    assert ToDigits(d0 * B + d1, 2) == ToDigits(d0, 1) + [d1];
    assert ToDigits(x, 3) == ToDigits(d0 * B + d1, 2) + [d2];
  }

  // ----- signed operands -----

  /** The two's complement value. */
  function Signed(h: Huge): int {
    if h.hi >= W / 2 then Val(h) - W * W else Val(h)
  }

  function HNeg(a: Huge): Huge {
    Huge(if a.lo != 0 then (0 - a.hi - 1) % W else (0 - a.hi) % W, (0 - a.lo) % W)
  }

  /** The negative, modulo 2^128. */
  lemma HNegValue(a: Huge)
    ensures Val(HNeg(a)) == if Val(a) == 0 then 0 else W * W - Val(a)
    ensures Signed(a) != -(W * W / 2) ==> Signed(HNeg(a)) == -Signed(a)
  {
    DivModUnique(0 - a.lo, W, if a.lo == 0 then 0 else -1, if a.lo == 0 then 0 else W - a.lo);
    if a.lo != 0 {
      DivModUnique(0 - a.hi - 1, W, -1, W - a.hi - 1);
    } else {
      DivModUnique(0 - a.hi, W, if a.hi == 0 then 0 else -1, if a.hi == 0 then 0 else W - a.hi);
    }
  }

  /** The remainder as hmod gives it a sign. */
  function SignedRest(x: int, y: int): int
    requires y != 0
  {
    if y > 0 then TruncatedRest(x, y) else -TruncatedRest(x, y)
  }

  /** The operand without its sign. */
  method Magnitude(a: Huge) returns (m: Huge, neg: bool)
    ensures Val(m) == Abs(Signed(a)) <= W * W / 2 && (neg <==> Signed(a) < 0)
  {
    HNegValue(a);
    neg := a.hi >= W / 2;
    m := if neg then HNeg(a) else a;
  }

  lemma SignedFromVal(h: Huge)
    ensures Val(h) < W * W && Signed(h) == if Val(h) >= W * W / 2 then Val(h) - W * W else Val(h)
  {
  }

  lemma QuotientBound(x: nat, y: nat)
    requires y > 0
    ensures x / y <= x && (y > 1 && x > 0 ==> x / y < x) && (y == 1 ==> x / y == x)
  {
    if y > 1 && x > 0 {
      MulLe(2, y, x);
      DivLess(x, x, y);
    } else if x == 0 {
      DivModUnique(x, y, 0, 0);
    }
  }

  /** A magnitude with a sign, if it fits. */
  lemma WithMagnitude(h: Huge, neg: bool, m: nat)
    requires m <= W * W / 2
    ensures Signed(if neg then HNeg(h) else h) == (if neg then 0 - m else m) <==> Val(h) == m && (neg || m < W * W / 2)
  {
    SignedFromVal(h);
    SignedFromVal(HNeg(h));
    hide HNeg, Val, Signed;
    HNegValue(h);
  }

  /** The quotient of the magnitudes with the sign of the result. */
  lemma WithSign(x: int, y: int, q: Huge)
    requires y != 0 && -(W * W / 2) <= x < W * W / 2
    ensures Signed(if (x < 0) != (y < 0) then HNeg(q) else q) == Truncated(x, y) <==>
      Val(q) == Abs(x) / Abs(y) && !(x == -(W * W / 2) && y == -1)
  {
    hide HNeg, Val, Signed;
    var m := Abs(x) / Abs(y);
    QuotientBound(Abs(x), Abs(y));
    WithMagnitude(q, (x < 0) != (y < 0), m);
  }

  /** hdiv: right exactly if divmod's quotient of the magnitudes is right, as it is for
      divisors below 2^64 and from 2^96 on, and if the quotient fits. */
  method HDiv(a: Huge, b: Huge) returns (r: Huge)
    requires b != Huge(0, 0)
    ensures Signed(b) != 0
    ensures var x, y := Abs(Signed(a)), Abs(Signed(b));
      && (Signed(r) == Truncated(Signed(a), Signed(b)) <==>
          Lost(x, y) <= x % y && !(Signed(a) == -(W * W / 2) && Signed(b) == -1))
      && (y < W || y >= B * W ==> Lost(x, y) <= x % y)
  {
    Nonzero(b);
    SignedRange(a);
    SignedRange(b);
    hide HNeg, Signed, Val, Truncated, Places, Lost, AddsBackLast;
    var a1, na := Magnitude(a);
    var b1, nb := Magnitude(b);
    NonzeroValue(b1);
    var q, _ := DivMod(a1, b1);
    r := if na != nb then HNeg(q) else q;
    DivideByOne(Val(a1), Val(b1));
    WithSign(Signed(a), Signed(b), q);
  }

  lemma DivideByOne(x: nat, y: nat)
    ensures y == 1 ==> x / y == x && x % y == 0
  {
    if y == 1 {
      DivModUnique(x, y, x, 0);
    }
  }

  lemma SignedRange(h: Huge)
    ensures -(W * W / 2) <= Signed(h) < W * W / 2 && (Signed(h) == 0 <==> Val(h) == 0)
  {
  }

  lemma NonzeroValue(h: Huge)
    requires Val(h) > 0
    ensures h != Huge(0, 0)
  {
  }

  /** hmod: the remainder, with the sign of a if b is positive and with the other sign if
      b is negative, exactly if divmod's remainder of the magnitudes is right, as it is for
      divisors below 2^64. */
  method HMod(a: Huge, b: Huge) returns (r: Huge)
    requires b != Huge(0, 0)
    ensures Signed(b) != 0
    ensures var x, y := Abs(Signed(a)), Abs(Signed(b));
      && (Signed(r) == SignedRest(Signed(a), Signed(b)) <==> !LosesCarryEarly(x, y) && !AddsBackLast(x, y))
      && (y < W ==> !LosesCarryEarly(x, y) && !AddsBackLast(x, y))
  {
    Nonzero(b);
    SignedRange(a);
    SignedRange(b);
    hide HNeg, Signed, Val, SignedRest, Places, Lost, AddsBackLast, LosesCarryEarly;
    var a1, na := Magnitude(a);
    var b1, nb := Magnitude(b);
    NonzeroValue(b1);
    var _, m := DivMod(a1, b1);
    r := if na != nb then HNeg(m) else m;
    RestWithSign(Signed(a), Signed(b), m);
  }

  lemma RestWithSign(x: int, y: int, m: Huge)
    requires y != 0 && -(W * W / 2) <= x < W * W / 2 && -(W * W / 2) <= y < W * W / 2
    ensures Signed(if (x < 0) != (y < 0) then HNeg(m) else m) == SignedRest(x, y) <==> Val(m) == Abs(x) % Abs(y)
  {
    hide HNeg, Val, Signed;
    RemainderBound(Abs(x), Abs(y));
    WithMagnitude(m, (x < 0) != (y < 0), Abs(x) % Abs(y));
  }

  lemma RemainderBound(x: nat, y: nat)
    requires y > 0
    ensures 0 <= x % y < y
  {
  }

  /** hdiv(a, b) * b + hmod(a, b) is a if and only if b is positive or divides a. */
  lemma DivisionIdentity(a: int, b: int, q: int, r: int)
    requires b != 0 && q == Truncated(a, b)
    requires r == SignedRest(a, b)
    ensures q * b + r == a <==> b > 0 || a % b == 0
  {
    TruncatedParts(a, b);
    EuclideanParts(a, b);
    hide Truncated, TruncatedRest;
    OneRemainder(a, b, a / b, a % b, q, TruncatedRest(a, b));
  }

  lemma EuclideanParts(a: int, b: int)
    requires b != 0
    ensures a == (a / b) * b + a % b && 0 <= a % b < Abs(b)
  {
  }

  /** If one way of dividing leaves nothing, then so does the other. */
  lemma OneRemainder(a: int, b: int, k: int, e: int, q: int, rest: int)
    requires b != 0 && a == k * b + e && a == q * b + rest && Abs(e) < Abs(b) && Abs(rest) < Abs(b)
    ensures e == 0 <==> rest == 0
  {
    Distribute(k, -q, b);
    var d := (k - q) * b;
    assert d == rest - e by { MulAssoc(-1, q, b); }
    if e == 0 || rest == 0 {
      SmallMultiple(k - q, b);
    }
  }

  lemma SmallMultiple(k: int, b: int)
    requires Abs(k * b) < Abs(b)
    ensures k * b == 0
  {
    if k > 0 {
      MulLe(1, k, Abs(b));
    } else if k < 0 {
      MulLe(1, -k, Abs(b));
    }
  }
}