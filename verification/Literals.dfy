/** Integer literals: the constant reader of c/vasm/expr.c. */
module Literals {
  import opened Arithmetic
  import opened HugeInt
  import opened HugeSums
  import opened Options

  type Text = seq<nat>

  predicate IsBase(base: nat) {
    base in {2, 8, 10, 16}
  }

  /** The moduli of addresses of 16, 32 and 64 bits. */
  predicate IsModulus(m: nat) {
    m in {0x1_0000, 0x1_0000_0000, W}
  }

  /** The value of a digit; letters of both cases. */
  function DigitOf(c: nat, base: nat): (d: Option<nat>)
    requires IsBase(base)
    ensures d.Some? ==> d.value < base
  {
    if base <= 10 then if 48 <= c < base + 48 then Some(c - 48) else None
    else if 48 <= c <= 57 then Some(c - 48)
    else if 97 <= c <= 102 then Some(c - 97 + 10)
    else if 65 <= c <= 70 then Some(c - 65 + 10)
    else None
  }

  /** The end of the digits from position p on. */
  function DigitsEnd(s: Text, p: nat, base: nat): (q: nat)
    requires p <= |s| && IsBase(base)
    ensures p <= q <= |s|
    decreases |s| - p
  {
    if p < |s| && DigitOf(s[p], base).Some? then DigitsEnd(s, p + 1, base) else p
  }

  predicate AreDigits(s: Text, p: nat, q: nat, base: nat)
    requires IsBase(base)
  {
    p <= q <= |s| && forall i :: p <= i < q ==> DigitOf(s[i], base).Some?
  }

  /** The number that the digits from p up to q write. */
  function Number(s: Text, p: nat, q: nat, base: nat): nat
    requires IsBase(base) && AreDigits(s, p, q, base)
  {
    if p == q then 0 else Number(s, p, q - 1, base) * base + DigitOf(s[q - 1], base).value
  }

  lemma {:induction false} NumberGrows(s: Text, p: nat, q: nat, r: nat, base: nat)
    requires IsBase(base) && AreDigits(s, p, r, base) && p <= q <= r
    ensures Number(s, p, q, base) <= Number(s, p, r, base)
    decreases r
  {
    hide DigitOf;
    if q < r {
      NumberGrows(s, p, q, r - 1, base);
      MulLe(1, base, Number(s, p, r - 1, base));
    }
  }

  lemma {:induction false} AllDigits(s: Text, p: nat, base: nat)
    requires p <= |s| && IsBase(base)
    ensures AreDigits(s, p, DigitsEnd(s, p, base), base)
    decreases |s| - p
  {
    if p < |s| && DigitOf(s[p], base).Some? {
      AllDigits(s, p + 1, base);
    }
  }

  // ----- reading into an address -----

  /** The loop on an address that starts with the value v: nothing, as soon as multiplying by
      the base overflows. The sum with the next digit is cut without a test. */
  function ReadFrom(v: nat, s: Text, p: nat, q: nat, base: nat, m: nat): (r: Option<nat>)
    requires IsBase(base) && AreDigits(s, p, q, base) && v < m
    ensures r.Some? ==> r.value < m
    decreases q - p
  {
    if p == q then Some(v)
    else if v * base >= m then None
    else ReadFrom((v * base + DigitOf(s[p], base).value) % m, s, p + 1, q, base, m)
  }

  lemma AllRead(v: nat, s: Text, k: nat, base: nat, m: nat)
    requires IsBase(base) && k <= |s| && v < m
    ensures ReadFrom(v, s, k, k, base, m) == Some(v)
  {
  }

  lemma ReadNext(v: nat, s: Text, k: nat, q: nat, base: nat, m: nat)
    requires IsBase(base) && AreDigits(s, k, q, base) && v < m && k < q
    ensures var digit := DigitOf(s[k], base).value;
      ReadFrom(v, s, k, q, base, m) ==
      if v * base >= m then None else ReadFrom((v * base + digit) % m, s, k + 1, q, base, m)
  {
  }

  lemma NumberNext(s: Text, p: nat, k: nat, base: nat)
    requires IsBase(base) && p <= k && AreDigits(s, p, k + 1, base)
    ensures Number(s, p, k + 1, base) == Number(s, p, k, base) * base + DigitOf(s[k], base).value
  {
  }

  lemma RoomForDigit(val: nat, base: nat, digit: nat, m: nat)
    requires base in {2, 8, 16} && digit < base && IsModulus(m)
    ensures val * base < m <==> val * base + digit < m
  {
    var k := m / base;
    if val < k {
      MulLe(val + 1, k, base);
      Distribute(val, 1, base);
    } else {
      MulLe(k, val, base);
    }
  }

  lemma WholeIsSame(x: nat, m: nat)
    requires x < m
    ensures x % m == x
  {
  }

  /** For powers of two no digit is cut: the loop gives up exactly if the number does not
      fit. */
  lemma {:induction false} PowersOfTwoAreRead(s: Text, p: nat, k: nat, q: nat, base: nat, m: nat)
    requires base in {2, 8, 16} && IsModulus(m) && AreDigits(s, p, q, base) && p <= k <= q
    requires Number(s, p, k, base) < m
    ensures var v := Number(s, p, q, base);
      ReadFrom(Number(s, p, k, base), s, k, q, base, m) == if v < m then Some(v) else None
    decreases q - k
  {
    hide ReadFrom, Number, DigitOf;
    var v := Number(s, p, k, base);
    if k == q {
      AllRead(v, s, k, base, m);
    } else {
      var digit := DigitOf(s[k], base).value;
      NumberNext(s, p, k, base);
      NumberGrows(s, p, k + 1, q, base);
      ReadNext(v, s, k, q, base, m);
      RoomForDigit(v, base, digit, m);
      if v * base + digit < m {
        WholeIsSame(v * base + digit, m);
        PowersOfTwoAreRead(s, p, k + 1, q, base, m);
      }
    }
  }

  /** Some prefix of at least j - p digits, taken modulo m, does not fit when it is multiplied
      by the base for the next digit. */
  ghost predicate Overflows(s: Text, p: nat, j: nat, q: nat, base: nat, m: nat)
    requires IsBase(base) && AreDigits(s, p, q, base) && p <= j <= q && m > 0
  {
    exists k :: j <= k < q && Number(s, p, k, base) % m * base >= m
  }

  lemma OverflowsFrom(s: Text, p: nat, j: nat, q: nat, base: nat, m: nat)
    requires IsBase(base) && AreDigits(s, p, q, base) && p <= j < q && m > 0
    ensures Overflows(s, p, j, q, base, m) <==>
      Number(s, p, j, base) % m * base >= m || Overflows(s, p, j + 1, q, base, m)
  {
    hide Number, DigitOf;
    if k :| j <= k < q && Number(s, p, k, base) % m * base >= m {
      assert k == j || Overflows(s, p, j + 1, q, base, m);
    }
  }

  /** What the loop makes of any digits: it gives up if and only if some prefix overflows, and
      else ends with their number modulo m. */
  lemma {:induction false} LoopResult(s: Text, p: nat, j: nat, q: nat, base: nat, m: nat)
    requires IsBase(base) && AreDigits(s, p, q, base) && p <= j <= q && m > 0
    ensures ReadFrom(Number(s, p, j, base) % m, s, j, q, base, m) ==
      if Overflows(s, p, j, q, base, m) then None else Some(Number(s, p, q, base) % m)
    decreases q - j
  {
    hide ReadFrom, Number, DigitOf, Overflows;
    var n := Number(s, p, j, base);
    if j == q {
      AllRead(n % m, s, j, base, m);
      NothingOverflows(s, p, q, base, m);
    } else {
      NumberNext(s, p, j, base);
      ReadNext(n % m, s, j, q, base, m);
      OverflowsFrom(s, p, j, q, base, m);
      CutBefore(n, base, DigitOf(s[j], base).value, m);
      LoopResult(s, p, j + 1, q, base, m);
    }
  }

  lemma NothingOverflows(s: Text, p: nat, q: nat, base: nat, m: nat)
    requires IsBase(base) && AreDigits(s, p, q, base) && m > 0
    ensures !Overflows(s, p, q, q, base, m)
  {
  }

  lemma CutBefore(n: nat, base: nat, digit: nat, m: nat)
    requires m > 0
    ensures (n % m * base + digit) % m == (n * base + digit) % m
  {
    var q, r := n / m, n % m;
    Distribute(q * m, r, base);
    Swap(q, m, base);
    var x := r * base + digit;
    DivModUnique(n * base + digit, m, q * base + x / m, x % m);
  }

  /** A decimal number that fits is read. The loop gives up if and only if some prefix, taken
      modulo m, is too large to be multiplied by 10; else it ends with the number modulo m,
      which is wrong if and only if the number does not fit. */
  lemma DecimalIsRead(s: Text, p: nat, q: nat, m: nat)
    requires IsModulus(m) && AreDigits(s, p, q, 10)
    ensures var v, r := Number(s, p, q, 10), ReadFrom(0, s, p, q, 10, m);
      && (v < m ==> !Overflows(s, p, p, q, 10, m))
      && (r.None? <==> Overflows(s, p, p, q, 10, m))
      && (r.Some? ==> r.value == v % m && (r.value != v <==> v >= m))
  {
    hide ReadFrom, DigitOf, Overflows;
    assert Number(s, p, p, 10) == 0;
    hide Number;
    LoopResult(s, p, p, q, 10, m);
    if Number(s, p, q, 10) < m {
      SmallNeverOverflows(s, p, q, m);
      WholeIsSame(Number(s, p, q, 10), m);
    }
  }

  lemma SmallNeverOverflows(s: Text, p: nat, q: nat, m: nat)
    requires m > 0 && AreDigits(s, p, q, 10) && Number(s, p, q, 10) < m
    ensures !Overflows(s, p, p, q, 10, m)
  {
    hide Number, DigitOf;
    forall k | p <= k < q
      ensures Number(s, p, k, 10) % m * 10 < m
    {
      NumberNext(s, p, k, 10);
      NumberGrows(s, p, k + 1, q, 10);
      WholeIsSame(Number(s, p, k, 10), m);
    }
  }

  /** 65536 is read as 0 into an address of 16 bits. */
  lemma DecimalCanWrap()
    ensures var s := [54, 53, 53, 51, 54];
      AreDigits(s, 0, 5, 10) && Number(s, 0, 5, 10) == 0x1_0000 && ReadFrom(0, s, 0, 5, 10, 0x1_0000) == Some(0)
  {
    var s := [54, 53, 53, 51, 54];
    assert AreDigits(s, 0, 5, 10);
    assert Number(s, 0, 1, 10) == 6 && Number(s, 0, 2, 10) == 65 && Number(s, 0, 3, 10) == 655;
    assert Number(s, 0, 4, 10) == 6553;
    WrapsUnseen(s, 4);
  }

  /** Its prefixes do not overflow. */
  lemma WrapsUnseen(s: Text, q: nat)
    requires AreDigits(s, 0, q + 1, 10) && Number(s, 0, q, 10) == 6553 && Number(s, 0, q + 1, 10) == 0x1_0000
    ensures ReadFrom(0, s, 0, q + 1, 10, 0x1_0000) == Some(0)
  {
    hide Number, DigitOf, ReadFrom;
    DecimalIsRead(s, 0, q + 1, 0x1_0000);
    forall k | 0 <= k <= q
      ensures Number(s, 0, k, 10) % 0x1_0000 * 10 < 0x1_0000
    {
      NumberGrows(s, 0, k, q, 10);
    }
  }

  /** The loop on an address: it stops as soon as the value no longer fits. */
  method ReadAddress(s: Text, p: nat, base: nat, m: nat) returns (overflow: bool, val: nat, end: nat)
    requires IsBase(base) && IsModulus(m) && p <= |s| && AreDigits(s, p, DigitsEnd(s, p, base), base)
    ensures var r := ReadFrom(0, s, p, DigitsEnd(s, p, base), base, m);
      && (overflow <==> r.None?)
      && (!overflow ==> end == DigitsEnd(s, p, base) && r == Some(val))
  {
    ghost var last := DigitsEnd(s, p, base);
    overflow, val, end := false, 0, p;
    while end < |s| && DigitOf(s[end], base).Some?
      invariant p <= end <= last && DigitsEnd(s, end, base) == last && val < m
      invariant ReadFrom(val, s, end, last, base, m) == ReadFrom(0, s, p, last, base, m)
    {
      var digit := DigitOf(s[end], base).value;
      hide TimesBase, Plus, OverBase, DigitOf;
      TimesFits(val, base, digit, m);
      if base == 16 {
        NextFits(val, base, digit, m);
        var nval := Plus(TimesBase(val, 16, m), digit, m);
        end := end + 1;
        if OverBase(nval, 16) != val {
          return true, val, end;
        }
        val := nval;
      } else {
        var nval := TimesBase(val, base, m);
        if OverBase(nval, base) != val {
          return true, val, end;
        }
        val := Plus(nval, digit, m);
        end := end + 1;
      }
    }
  }

  lemma WrapsBelow(val: nat, base: nat, m: nat)
    requires base > 0 && 0 < m <= val * base
    ensures (val * base) % m / base < val
  {
    DivLess((val * base) % m, val, base);
  }

  /** Dividing by the base finds out whether the product was cut. */
  lemma TimesFits(val: nat, base: nat, digit: nat, m: nat)
    requires base > 0 && m > 0
    ensures val * base < m <==> OverBase(TimesBase(val, base, m), base) == val
    ensures val * base < m ==> Plus(TimesBase(val, base, m), digit, m) == (val * base + digit) % m
  {
    var x := val * base;
    DivModUnique(x, base, val, 0);
    if x < m {
      DivModUnique(x, m, 0, x);
    } else {
      WrapsBelow(val, base, m);
    }
  }

  function TimesBase(val: nat, base: nat, m: nat): nat
    requires m > 0
  {
    (val * base) % m
  }

  function Plus(val: nat, digit: nat, m: nat): nat
    requires m > 0
  {
    (val + digit) % m
  }

  function OverBase(val: nat, base: nat): nat
    requires base > 0
  {
    val / base
  }

  /** One digit more overflows exactly if shifting loses a bit, before or after the digit
      is added. */
  lemma NextFits(val: nat, base: nat, digit: nat, m: nat)
    requires base in {2, 8, 16} && digit < base && val < m && m in {0x1_0000, 0x1_0000_0000, W}
    ensures val * base + digit < m <==> OverBase(TimesBase(val, base, m), base) == val
    ensures val * base + digit < m <==> OverBase(Plus(TimesBase(val, base, m), digit, m), base) == val
    ensures val * base + digit < m ==> Plus(TimesBase(val, base, m), digit, m) == val * base + digit
  {
    hide *;
    var k := Multiple(m, base);
    var x := LowPart(val, k);
    ShiftKeepsLow(val, base, k);
    DigitFits(x, base, digit, k);
    if val < k {
      MulLe(val + 1, k, base);
      Distribute(val, 1, base);
    } else {
      MulLe(k, val, base);
    }
  }

  lemma Multiple(m: nat, base: nat) returns (k: nat)
    requires base in {2, 8, 16} && m in {0x1_0000, 0x1_0000_0000, W}
    ensures k > 0 && m == k * base
  {
    k := m / base;
  }

  function LowPart(val: nat, k: nat): (x: nat)
    requires k > 0
    ensures x < k && (x == val <==> val < k)
  {
    val % k
  }

  lemma DigitFits(x: nat, base: nat, digit: nat, k: nat)
    requires x < k && digit < base
    ensures k * base > 0 && x * base + digit < k * base
    ensures Plus(x * base, digit, k * base) == x * base + digit
    ensures OverBase(x * base + digit, base) == x && OverBase(x * base, base) == x
  {
    MulLe(x + 1, k, base);
    Distribute(x, 1, base);
    MulLe(0, x, base);
    var y := x * base + digit;
    DivModUnique(y, k * base, 0, y);
    DivModUnique(y, base, x, digit);
    DivModUnique(x * base, base, x, 0);
  }

  lemma ShiftKeepsLow(val: nat, base: nat, k: nat)
    requires base > 0 && k > 0
    ensures k * base > 0 && TimesBase(val, base, k * base) == LowPart(val, k) * base
  {
    var q, x := val / k, val % k;
    Distribute(q * k, x, base);
    MulAssoc(q, k, base);
    MulLe(1, k, base);
    MulLe(x + 1, k, base);
    Distribute(x, 1, base);
    MulLe(0, x, base);
    DivModUnique(val * base, k * base, q, x * base);
  }

  // ----- reading into 128 bits -----

  /** The 128-bit value of the digits from p up to q, as the source computes it. */
  function HugeRead(s: Text, p: nat, q: nat, base: nat): Huge
    requires IsBase(base) && AreDigits(s, p, q, base)
  {
    if p == q then Huge(0, 0)
    else HAddI(HMulI(HugeRead(s, p, q - 1, base), base), DigitOf(s[q - 1], base).value)
  }

  /** The carry into the high half that hmuli misses for a number with this low half. */
  function LostCarry(lo: nat, b: nat): nat {
    ((lo / B * b) % B * B + lo % B * b) / W
  }

  /** Low halves are right: that of the value is that of the number. */
  lemma {:induction false} LowHalfIsRight(s: Text, p: nat, q: nat, base: nat)
    requires IsBase(base) && AreDigits(s, p, q, base)
    ensures HugeRead(s, p, q, base).lo == Number(s, p, q, base) % W
    decreases q
  {
    hide DigitOf, HMulI, HAddI;
    if p < q {
      var h, n := HugeRead(s, p, q - 1, base), Number(s, p, q - 1, base);
      LowHalfIsRight(s, p, q - 1, base);
      var digit := DigitOf(s[q - 1], base).value;
      LowHalfOf(h, base, digit);
      CutSum(h.lo * base, digit, W);
      CutBefore(n, base, digit, W);
    }
  }

  lemma LowHalfOf(h: Huge, base: nat, digit: nat)
    requires IsBase(base) && digit < 16
    ensures HAddI(HMulI(h, base), digit).lo == ((h.lo * base) % W + digit) % W
  {
    hide HighPart;
  }

  lemma CutSum(x: nat, digit: nat, m: nat)
    requires m > 0
    ensures (x % m + digit) % m == (x + digit) % m
  {
    CutBefore(x, 1, digit, m);
  }

  /** The carries missed up to digit q, each in the place it has there. */
  function LostCarries(s: Text, p: nat, q: nat, base: nat): nat
    requires IsBase(base) && AreDigits(s, p, q, base)
  {
    if p == q then 0
    else LostCarries(s, p, q - 1, base) * base + LostCarry(Number(s, p, q - 1, base) % W, base)
  }

  /** A factor that is a base: only the carry is missing. */
  lemma TimesBaseValue(a: Huge, base: nat)
    requires IsBase(base)
    ensures Val(HMulI(a, base)) == (Val(a) * base - LostCarry(a.lo, base) * W) % (W * W)
    ensures LostCarry(a.lo, base) <= 1
  {
    hide HighPart, CarryTaken, CarryNeeded, LostCarry;
    LostIsNeeded(a, base);
    HighPartValue(a.lo, base);
    CarryIsBit(a.lo, base);
    CarryMissed(a.hi, a.lo, base, HighPart(a.lo, base), LostCarry(a.lo, base), (a.lo * base) % W);
  }

  lemma LostIsNeeded(a: Huge, base: nat)
    requires IsBase(base)
    ensures Unsigned(base) == base && CarryTaken(a.lo, base) == 0 && CarryNeeded(a.lo, base) == LostCarry(a.lo, base)
  {
    hide CarryTaken, CarryNeeded;
    SmallFactor(a, base);
  }

  lemma CarryMissed(hi: int, lo: int, base: nat, part: int, lost: nat, l: nat)
    requires lo * base == (part + lost) * W + l && l < W
    ensures ((hi * base + part) % W) * W + l == ((hi * W + lo) * base - lost * W) % (W * W)
  {
    HighHalf(hi * base + part, l);
    Distribute(hi * W, lo, base);
    Swap(hi, W, base);
  }

  /** The value is that of the digits without the carries missed, modulo 2^128. */
  lemma {:induction false} HugeReadValue(s: Text, p: nat, q: nat, base: nat)
    requires IsBase(base) && AreDigits(s, p, q, base)
    ensures Val(HugeRead(s, p, q, base)) ==
      (Number(s, p, q, base) - LostCarries(s, p, q, base) * W) % (W * W)
    decreases q
  {
    hide Val, HMulI, HAddI, LostCarry, DigitOf;
    if p < q {
      HugeReadValue(s, p, q - 1, base);
      var h, digit := HugeRead(s, p, q - 1, base), DigitOf(s[q - 1], base).value;
      TimesBaseValue(h, base);
      LowHalfIsRight(s, p, q - 1, base);
      HAddIValue(HMulI(h, base), digit);
      NextModulo(Val(h), Number(s, p, q - 1, base), LostCarries(s, p, q - 1, base), base, LostCarry(h.lo, base), digit);
    } else {
      NothingLeft();
    }
  }

  lemma NextModulo(x: nat, n: nat, l: nat, base: nat, lost: nat, digit: nat)
    requires x == (n - l * W) % (W * W)
    ensures ((x * base - lost * W) % (W * W) + digit) % (W * W) ==
      (n * base + digit - (l * base + lost) * W) % (W * W)
  {
    var m := W * W;
    var q := (n - l * W) / m;
    var y, z := (x * base - lost * W) / m, (x * base - lost * W) % m;
    Products(n, l, q, x, base);
    var u, v := (z + digit) / m, (z + digit) % m;
    DivModUnique(n * base + digit - (l * base + lost) * W, m, q * base + y + u, v);
  }

  lemma Products(n: int, l: int, q: int, x: int, base: int)
    requires n - l * W == q * (W * W) + x
    ensures n * base - l * base * W == q * base * (W * W) + x * base
  {
    Distribute(n, -(l * W), base);
    Distribute(q * (W * W), x, base);
    Swap(l, W, base);
    Swap(q, W * W, base);
  }

  /** It is the value of the digits modulo 2^128 if and only if the carries missed are a
      multiple of 2^64. */
  lemma HugeReadExact(s: Text, p: nat, q: nat, base: nat)
    requires IsBase(base) && AreDigits(s, p, q, base)
    ensures Val(HugeRead(s, p, q, base)) == Number(s, p, q, base) % (W * W) <==>
      LostCarries(s, p, q, base) % W == 0
  {
    hide HugeRead, Number, LostCarries, Val, DigitOf;
    HugeReadValue(s, p, q, base);
    MissedMatters(Number(s, p, q, base), LostCarries(s, p, q, base));
  }

  lemma MissedMatters(v: nat, l: nat)
    ensures (v - l * W) % (W * W) == v % (W * W) <==> l % W == 0
  {
    var n, low := v / W, v % W;
    HighHalf(n - l, low);
    SameHigh(n - l, n, low);
    assert v - l * W == (n - l) * W + low;
    hide *;
    SameRest(0, l);
    SameRest(l, 0);
  }

  lemma {:induction false} PowersOfTwoLoseNothing(s: Text, p: nat, q: nat, base: nat)
    requires base in {2, 8, 16} && AreDigits(s, p, q, base)
    ensures LostCarries(s, p, q, base) == 0
    decreases q
  {
    if p < q {
      PowersOfTwoLoseNothing(s, p, q - 1, base);
      var lo := Number(s, p, q - 1, base) % W;
      RoomForCarry(lo / B, lo % B, base);
    }
  }

  /** The low half of the product with a power of two leaves room for the carry. */
  lemma RoomForCarry(x: nat, y: Digit, b: nat)
    requires b in {2, 8, 16}
    ensures 0 <= (x * b) % B * B + y * b < W
  {
    var q, e := x * b / B, (x * b) % B;
    if b == 2 {
      assert e == 2 * (x - B / 2 * q);
    } else if b == 8 {
      assert e == 8 * (x - B / 8 * q);
    } else {
      assert e == 16 * (x - B / 16 * q);
    }
  }

  /** A decimal number is exact modulo 2^128 if and only if no carry is missed at one of its
      last 64 digits. */
  lemma DecimalExact(s: Text, p: nat, q: nat)
    requires AreDigits(s, p, q, 10)
    ensures Val(HugeRead(s, p, q, 10)) == Number(s, p, q, 10) % (W * W) <==>
      NoneMissed(s, p, q, 64)
  {
    HugeReadExact(s, p, q, 10);
    LastCarries(s, p, q, 64);
    PowerIsWord();
  }

  lemma PowerIsWord()
    ensures Pow2(64) == W
  {
    Pow2Add(32, 32);
    PowersOfTwo();
  }

  /** No carry is missed at the last n digits: of each prefix before one of them, the low 64
      bits decide. */
  ghost predicate NoneMissed(s: Text, p: nat, q: nat, n: nat)
    requires AreDigits(s, p, q, 10)
  {
    forall i :: p <= i < q <= i + n ==> LostCarry(Number(s, p, i, 10) % W, 10) == 0
  }

  lemma NoneMissedBefore(s: Text, p: nat, q: nat, n: nat)
    requires AreDigits(s, p, q, 10) && p < q && 0 < n
    ensures NoneMissed(s, p, q, n) <==>
      LostCarry(Number(s, p, q - 1, 10) % W, 10) == 0 && NoneMissed(s, p, q - 1, n - 1)
  {
    hide Number, LostCarry, DigitOf;
    if NoneMissed(s, p, q, n) {
      forall i | p <= i < q - 1 <= i + (n - 1)
        ensures LostCarry(Number(s, p, i, 10) % W, 10) == 0
      {
      }
    }
  }

  lemma LostIsBit(lo: Word)
    ensures LostCarry(lo, 10) <= 1
  {
  }

  lemma LostNext(s: Text, p: nat, q: nat)
    requires AreDigits(s, p, q, 10) && p < q
    ensures LostCarries(s, p, q, 10) ==
      LostCarries(s, p, q - 1, 10) * 10 + LostCarry(Number(s, p, q - 1, 10) % W, 10)
  {
    hide Number, LostCarry, DigitOf;
  }

  lemma NoDigits(s: Text, p: nat, q: nat, n: nat)
    requires AreDigits(s, p, q, 10) && (n == 0 || p == q)
    ensures LostCarries(s, p, q, 10) % Pow2(n) == 0 && NoneMissed(s, p, q, n)
  {
    hide Number, LostCarry, DigitOf;
    if n > 0 {
      DivModUnique(0, Pow2(n), 0, 0);
    }
  }

  lemma {:induction false} LastCarries(s: Text, p: nat, q: nat, n: nat)
    requires AreDigits(s, p, q, 10)
    ensures LostCarries(s, p, q, 10) % Pow2(n) == 0 <==> NoneMissed(s, p, q, n)
    decreases n
  {
    hide LostCarry, Number, DigitOf, NoneMissed, LostCarries, Pow2;
    if n > 0 && p < q {
      LostNext(s, p, q);
      LostIsBit(Number(s, p, q - 1, 10) % W);
      NoneMissedBefore(s, p, q, n);
      LastCarries(s, p, q - 1, n - 1);
      TenDivides(LostCarries(s, p, q - 1, 10), LostCarry(Number(s, p, q - 1, 10) % W, 10), n);
    } else {
      NoDigits(s, p, q, n);
    }
  }

  lemma TenDivides(x: nat, lost: nat, n: nat)
    requires n > 0 && lost <= 1
    ensures (x * 10 + lost) % Pow2(n) == 0 <==> lost == 0 && x % Pow2(n - 1) == 0
  {
    var p := Pow2(n - 1);
    if lost == 1 {
      OddIsNoMultiple(x * 5, p);
    } else {
      Halves(x * 5, p);
      FiveDivides(x, n - 1);
    }
  }

  lemma OddIsNoMultiple(y: nat, p: nat)
    requires p > 0
    ensures (2 * y + 1) % (2 * p) != 0
  {
    var q := (2 * y + 1) / (2 * p);
    MulAssoc(q, 2, p);
    assert 2 * y + 1 == 2 * (q * p) + (2 * y + 1) % (2 * p);
  }

  lemma Halves(y: nat, p: nat)
    requires p > 0
    ensures (2 * y) % (2 * p) == 2 * (y % p)
  {
    MulAssoc(y / p, 2, p);
    DivModUnique(2 * y, 2 * p, y / p, 2 * (y % p));
  }

  lemma {:induction false} FiveDivides(x: nat, n: nat)
    ensures (x * 5) % Pow2(n) == 0 <==> x % Pow2(n) == 0
  {
    if n > 0 {
      var p := Pow2(n - 1);
      if x % 2 == 1 {
        OddIsNoMultiple(x / 2, p);
        OddIsNoMultiple(x / 2 * 5 + 2, p);
      } else {
        Halves(x / 2, p);
        Halves(x / 2 * 5, p);
        FiveDivides(x / 2, n - 1);
      }
    }
  }

  /** A literal whose value is wrong, also modulo 2^128: the digits of 0x1999_9999_ffff_ffff
      and one more. */
  lemma DecimalCanBeWrong(s: Text, p: nat, q: nat)
    requires AreDigits(s, p, q, 10) && p < q && Number(s, p, q - 1, 10) == 0x1999_9999_ffff_ffff
    ensures Val(HugeRead(s, p, q, 10)) != Number(s, p, q, 10) % (W * W)
  {
    hide HugeRead, DigitOf, Val, Number;
    DecimalExact(s, p, q);
    assert LostCarry(Number(s, p, q - 1, 10) % W, 10) == 1;
  }

  /** A number in decimal. */
  function Decimal(v: nat): (s: Text)
    ensures s != []
  {
    (if v < 10 then [] else Decimal(v / 10)) + [48 + v % 10]
  }

  lemma {:induction false} SamePrefix(s: Text, t: Text, p: nat, q: nat)
    requires AreDigits(s, p, q, 10) && q <= |t| && s[..q] == t[..q]
    ensures AreDigits(t, p, q, 10) && Number(t, p, q, 10) == Number(s, p, q, 10)
    decreases q
  {
    assert forall i :: 0 <= i < q ==> s[i] == s[..q][i] == t[..q][i] == t[i];
    if p < q {
      assert s[..q - 1] == s[..q][..q - 1] == t[..q - 1];
      SamePrefix(s, t, p, q - 1);
    }
  }

  /** Its digits write the number. */
  lemma {:induction false} DecimalNumber(v: nat)
    ensures var s := Decimal(v);
      AreDigits(s, 0, |s|, 10) && Number(s, 0, |s|, 10) == v
  {
    var s := Decimal(v);
    if v >= 10 {
      var t := Decimal(v / 10);
      DecimalNumber(v / 10);
      OneMoreDigit(t, v % 10);
    } else {
      assert AreDigits(s, 0, 1, 10) && Number(s, 0, 0, 10) == 0;
    }
  }

  /** A number written in decimal is read back into an address if and only if it fits. */
  lemma DecimalRoundTrip(v: nat, m: nat)
    requires IsModulus(m)
    ensures var s := Decimal(v);
      AreDigits(s, 0, |s|, 10) && (ReadFrom(0, s, 0, |s|, 10, m) == Some(v) <==> v < m)
  {
    hide ReadFrom, Number, Decimal, AreDigits, Overflows;
    DecimalNumber(v);
    DecimalIsRead(Decimal(v), 0, |Decimal(v)|, m);
  }

  lemma OneMoreDigit(t: Text, d: nat)
    requires AreDigits(t, 0, |t|, 10) && d < 10
    ensures var s := t + [48 + d];
      && AreDigits(s, 0, |s|, 10) && Number(s, 0, |t|, 10) == Number(t, 0, |t|, 10)
      && Number(s, 0, |s|, 10) == Number(t, 0, |t|, 10) * 10 + d
  {
    var s := t + [48 + d];
    assert s[..|t|] == t == t[..|t|];
    SamePrefix(t, s, 0, |t|);
  }

  /** One such text. */
  lemma DecimalTextCanBeWrong()
    ensures var s := Decimal(0x1999_9999_ffff_ffff) + [48];
      AreDigits(s, 0, |s|, 10) && Val(HugeRead(s, 0, |s|, 10)) != Number(s, 0, |s|, 10) % (W * W)
  {
    hide HugeRead, Number, Decimal, Val, AreDigits;
    var t := Decimal(0x1999_9999_ffff_ffff);
    DecimalNumber(0x1999_9999_ffff_ffff);
    OneMoreDigit(t, 0);
    DecimalCanBeWrong(t + [48], 0, |t| + 1);
  }

  /** Ten can miss a carry. */
  lemma TenCanBeWrong()
    ensures var a := Huge(0, 0x1999_9999_ffff_ffff); Val(HMulI(a, 10)) != (Val(a) * 10) % (W * W)
  {
    var a := Huge(0, 0x1999_9999_ffff_ffff);
    SmallFactor(a, 10);
    HMulIValue(a, 10);
  }

  /** The loop on 128 bits. */
  method ReadHuge(s: Text, p: nat, base: nat) returns (huge: Huge, end: nat)
    requires p <= |s| && IsBase(base)
    ensures end == DigitsEnd(s, p, base) && AreDigits(s, p, end, base) && huge == HugeRead(s, p, end, base)
  {
    hide Val, HMulI, HAddI;
    AllDigits(s, p, base);
    huge, end := Huge(0, 0), p;
    ghost var last := DigitsEnd(s, p, base);
    while end < |s| && DigitOf(s[end], base).Some?
      invariant p <= end <= last && DigitsEnd(s, end, base) == last
      invariant huge == HugeRead(s, p, end, base)
    {
      huge := HAddI(HMulI(huge, base), DigitOf(s[end], base).value);
      end := end + 1;
    }
  }

  // ----- the reader -----

  /** exp_type: what kind of constant is wanted. */
  datatype Wanted = NUM | HUG | FLT

  /** Flt: a floating-point constant, which the C library reads. */
  datatype Constant = Num(val: nat) | Hug(huge: Huge) | Flt

  /** An exponent or a decimal point with a digit follows. */
  predicate FloatFollows(s: Text, p: nat) {
    && p < |s|
    && (s[p] == 101 || s[p] == 69 || (s[p] == 46 && p + 1 < |s| && 48 <= s[p + 1] <= 57))
  }

  /** The part of primary_expr that reads a constant from position p on: first into an
      address, and, if that overflows or a 128-bit constant is wanted, from the first digit
      again into 128 bits. For powers of two the constant is the number that the digits
      write. A decimal address that does not overflow is the number modulo m, so that it is
      wrong if and only if the number does not fit and nothing overflows; a decimal 128-bit
      constant is right modulo 2^128 if and only if no carry is missed at one of its last 64
      digits. */
  method ReadConstant(s: Text, p: nat, base: nat, m: nat, wanted: Wanted) returns (c: Constant, end: nat)
    requires p <= |s| && IsBase(base) && IsModulus(m)
    ensures AreDigits(s, p, DigitsEnd(s, p, base), base)
    ensures c.Flt? <==> base == 10 && (wanted.FLT? || FloatFollows(s, DigitsEnd(s, p, base)))
    ensures end == if c.Flt? then p else DigitsEnd(s, p, base)
    ensures var last := DigitsEnd(s, p, base);
      && (c.Num? <==> !c.Flt? && wanted.NUM? && ReadFrom(0, s, p, last, base, m).Some?)
      && (c.Num? ==> c.val == ReadFrom(0, s, p, last, base, m).value)
    ensures var v := Number(s, p, DigitsEnd(s, p, base), base);
      && (base != 10 && wanted.NUM? && v < m ==> c == Num(v))
      && (base != 10 && !(wanted.NUM? && v < m) ==> c.Hug? && Val(c.huge) == v % (W * W))
      && (base == 10 && wanted.NUM? && !c.Flt? ==>
            (c.Num? <==> !Overflows(s, p, p, DigitsEnd(s, p, base), base, m)))
      && (base == 10 && c.Num? ==> c.val == v % m && (c.val != v <==> v >= m))
      && (base == 10 && wanted.NUM? && v < m && !c.Flt? ==> c == Num(v))
      && (base == 10 && c.Hug? ==>
            (Val(c.huge) == v % (W * W) <==> NoneMissed(s, p, DigitsEnd(s, p, base), 64)))
  {
    hide Overflows, NoneMissed, ReadFrom, Number, DigitsEnd, AreDigits, LostCarries, HugeRead, Val, DigitOf;
    AllDigits(s, p, base);
    ghost var last := DigitsEnd(s, p, base);
    if base == 10 {
      DecimalIsRead(s, p, last, m);
      DecimalExact(s, p, last);
    } else {
      AddressIsRead(s, p, last, base, m);
      HugeReadExact(s, p, last, base);
      PowersOfTwoLoseNothing(s, p, last, base);
    }
    if wanted.NUM? {
      var overflow, val;
      overflow, val, end := ReadAddress(s, p, base, m);
      if !overflow {
        if base == 10 && FloatFollows(s, end) {
          return Flt, p;
        }
        return Num(val), end;
      }
    }
    if wanted.FLT? && base == 10 {
      return Flt, p;
    }
    var h;
    h, end := ReadHuge(s, p, base);
    if base == 10 && FloatFollows(s, end) {
      return Flt, p;
    }
    c := Hug(h);
  }

  lemma AddressIsRead(s: Text, p: nat, q: nat, base: nat, m: nat)
    requires base in {2, 8, 16} && IsModulus(m) && AreDigits(s, p, q, base)
    ensures var v := Number(s, p, q, base);
      ReadFrom(0, s, p, q, base, m) == if v < m then Some(v) else None
  {
    assert Number(s, p, p, base) == 0;
    PowersOfTwoAreRead(s, p, p, q, base, m);
  }
}
