/** The VOBJ object format: the contents of a file and its bytes
    (c/vasm/output_vobj.c, c/vasm/vobjdump.c). */
module Vobj {
  import opened Arithmetic
  import opened Bytes
  import opened CIntegers
  import opened Options

  // ----- contents -----

  datatype Symbol = Symbol(name: seq<Byte>, typ: int, flags: int, sec: int, val: int, size: int)

  datatype Reloc =
    | Standard(typ: int, byteoffset: int, bitoffset: int, size: int, mask: int, addend: int, sym: int)
    | Special(typ: int, entry: seq<Byte>)

  datatype Section = Section(name: seq<Byte>, attr: seq<Byte>, flags: int, align: int, size: int,
                             data: seq<Byte>, relocs: seq<Reloc>)

  datatype Object = Object(endian: Byte, bpt: int, cpu: seq<Byte>, symbols: seq<Symbol>, sections: seq<Section>)

  const LAST_STANDARD_RELOC := 16

  // ----- numbers -----

  function LittleEndian(x: int, n: nat): (s: seq<Byte>)
    ensures |s| == n
    decreases n
  {
    if n == 0 then [] else [x % 256] + LittleEndian(x / 256, n - 1)
  }

  function NumberBytes(x: int, bpt: nat): seq<Byte>
    requires bpt < 128
  {
    if 0 <= x <= 127 then [x] else [0x80 + bpt] + LittleEndian(x, bpt)
  }

  /** The value of bytes, least significant byte first. */
  function ValueOf(s: seq<Byte>): (r: nat)
    ensures r < Pow256(|s|)
  {
    if s == [] then 0 else s[0] + 256 * ValueOf(s[1..])
  }

  /** The sign bit extended to the left. */
  function SignExtended(x: nat, n: nat): int {
    if 2 * x >= Pow256(n) then x - Pow256(n) else x
  }

  /** The number at a position and the position after it; nothing if the file ends
      before, or if the number has more than 7 bytes. */
  function ParseNumber(file: seq<Byte>, p: nat, signed: bool): (r: Option<(int, nat)>)
    ensures r.Some? ==> p < r.value.1 <= |file|
  {
    if p >= |file| then None
    else if file[p] <= 0x7f then Some((file[p], p + 1))
    else
      var n := file[p] - 0x80;
      if n == 0 then Some((0, p + 1))
      else if n > 7 || p + 1 + n > |file| then None
      else
        var x := ValueOf(file[p + 1..p + 1 + n]);
        Some((if signed then SignExtended(x, n) else x, p + 1 + n))
  }

  lemma {:induction false} LittleEndianValue(x: int, n: nat)
    ensures ValueOf(LittleEndian(x, n)) == x % Pow256(n)
    decreases n
  {
    if n > 0 {
      LittleEndianValue(x / 256, n - 1);
      assert LittleEndian(x, n)[1..] == LittleEndian(x / 256, n - 1);
      SplitByte(x, Pow256(n - 1));
    }
  }

  lemma SplitByte(x: int, p: nat)
    requires p > 0
    ensures x % (256 * p) == x % 256 + 256 * ((x / 256) % p)
  {
    var h, l := x / 256, x % 256;
    var q, r := h / p, h % p;
    MulAssoc(256, q, p);
    assert x == q * (256 * p) + (256 * r + l) by {
      assert h == q * p + r;
      Swap(256, q, p);
    }
    DivModUnique(x, 256 * p, q, 256 * r + l);
  }

  /** The numbers that fit into n bytes, unsigned or signed. */
  predicate Fits(x: int, signed: bool, n: nat) {
    if signed then 0 - Pow256(n) <= 2 * x < Pow256(n) else 0 <= x < Pow256(n)
  }

  /** What is read where a number was written. */
  lemma NumberRead(file: seq<Byte>, p: nat, x: int, signed: bool, bpt: nat)
    requires 1 <= bpt <= 7 && At(file, p, NumberBytes(x, bpt))
    ensures ParseNumber(file, p, signed) ==
      Some((if 0 <= x <= 127 then x else if signed then SignExtended(x % Pow256(bpt), bpt) else x % Pow256(bpt),
            p + |NumberBytes(x, bpt)|))
  {
    hide Pow256, ValueOf, LittleEndian, SignExtended;
    var s := NumberBytes(x, bpt);
    assert file[p] == file[p..p + |s|][0] == s[0];
    if !(0 <= x <= 127) {
      AtParts(file, p, [0x80 + bpt], LittleEndian(x, bpt));
      assert file[p + 1..p + 1 + bpt] == LittleEndian(x, bpt);
      LittleEndianValue(x, bpt);
    }
  }

  /** A number that was written is read back if and only if it fits. */
  lemma NumberRoundTrip(file: seq<Byte>, p: nat, x: int, signed: bool, bpt: nat)
    requires 1 <= bpt <= 7 && At(file, p, NumberBytes(x, bpt))
    ensures ParseNumber(file, p, signed).Some?
    ensures ParseNumber(file, p, signed).value.1 == p + |NumberBytes(x, bpt)|
    ensures ParseNumber(file, p, signed).value.0 == x <==> Fits(x, signed, bpt)
  {
    NumberRead(file, p, x, signed, bpt);
    PowAtLeast(bpt);
    Residue(x, Pow256(bpt));
  }

  lemma PowAtLeast(n: nat)
    requires n >= 1
    ensures Pow256(n) >= 256 && Pow256(n) % 2 == 0
  {
  }

  /** A number is its residue, or its residue with the sign extended, if it is in range. */
  lemma Residue(x: int, p: nat)
    requires p > 0 && p % 2 == 0
    ensures x % p == x <==> 0 <= x < p
    ensures (if 2 * (x % p) >= p then x % p - p else x % p) == x <==> 0 - p <= 2 * x < p
  {
    if 0 <= x < p {
      DivModUnique(x, p, 0, x);
    } else if 0 - p <= 2 * x < 0 {
      DivModUnique(x, p, -1, x + p);
    }
  }

  // ----- fields -----

  /** How the reader takes a number: as it is, signed, or cast to a C int or a byte. */
  datatype Kind = Plain | Signed | Int | Char

  function Cast(kind: Kind, x: int): int {
    match kind
    case Int => Int32(x)
    case Char => x % 256
    case _ => x
  }

  /** The values of a field that survive writing and reading. */
  predicate FieldFits(kind: Kind, x: int, bpt: nat) {
    match kind
    case Plain => Fits(x, false, bpt)
    case Signed => Fits(x, true, bpt)
    case Int => if bpt >= 4 then -0x8000_0000 <= x < 0x8000_0000 else Fits(x, false, bpt)
    case Char => 0 <= x < 256
  }

  function ParseField(file: seq<Byte>, p: nat, kind: Kind): (r: Option<(int, nat)>)
    ensures r.Some? ==> p < r.value.1 <= |file|
  {
    match ParseNumber(file, p, kind == Signed)
    case None => None
    case Some(t) => Some((Cast(kind, t.0), t.1))
  }

  lemma FieldRoundTrip(file: seq<Byte>, p: nat, x: int, kind: Kind, bpt: nat)
    requires 1 <= bpt <= 7 && At(file, p, NumberBytes(x, bpt))
    ensures ParseField(file, p, kind).Some?
    ensures ParseField(file, p, kind).value.1 == p + |NumberBytes(x, bpt)|
    ensures ParseField(file, p, kind).value.0 == x <==> FieldFits(kind, x, bpt)
  {
    NumberRoundTrip(file, p, x, kind == Signed, bpt);
    NumberRead(file, p, x, kind == Signed, bpt);
    if kind == Int {
      IntResidue(x, bpt);
    } else if kind == Char {
      CharResidue(x, bpt);
    }
  }

  lemma ModMod(x: int, a: nat, b: nat)
    requires a > 0 && b > 0
    ensures a * b > 0 && (x % (a * b)) % a == x % a
  {
    MulLe(1, b, a);
    var m := a * b;
    var q, r := x / m, x % m;
    var q', r' := r / a, r % a;
    MulAssoc(q, b, a);
    Distribute(q * b, q', a);
    DivModUnique(x, a, q * b + q', r');
  }

  lemma CharResidue(x: int, n: nat)
    requires n >= 1
    ensures (x % Pow256(n)) % 256 == x <==> 0 <= x < 256
  {
    ModMod(x, 256, Pow256(n - 1));
  }

  lemma IntResidue(x: int, n: nat)
    requires 1 <= n <= 7
    ensures Int32(x % Pow256(n)) == x <==> FieldFits(Int, x, n)
    ensures 0 <= x <= 127 ==> FieldFits(Int, x, n) && Int32(x) == x
  {
    SmallPowers();
    hide Pow256;
    var p := Pow256(n);
    if n >= 4 {
      SplitPower(n);
      ModMod(x, 0x1_0000_0000, Pow256(n - 4));
      IntOfResidue(x, x % p);
    } else {
      assert p <= 0x100_0000;
      if 0 <= x < p {
        DivModUnique(x, p, 0, x);
      }
    }
  }

  lemma SmallPowers()
    ensures Pow256(1) == 256 && Pow256(2) == 0x1_0000 && Pow256(3) == 0x100_0000
  {
    assert Pow256(1) == 256 * Pow256(0) && Pow256(2) == 256 * Pow256(1) && Pow256(3) == 256 * Pow256(2);
  }

  lemma SplitPower(n: nat)
    requires n >= 4
    ensures Pow256(n) == 0x1_0000_0000 * Pow256(n - 4)
  {
    assert Pow256(n) == 256 * Pow256(n - 1) && Pow256(n - 1) == 256 * Pow256(n - 2);
    assert Pow256(n - 2) == 256 * Pow256(n - 3) && Pow256(n - 3) == 256 * Pow256(n - 4);
  }

  lemma IntOfResidue(x: int, y: int)
    requires y % 0x1_0000_0000 == x % 0x1_0000_0000
    ensures Int32(y) == x <==> -0x8000_0000 <= x < 0x8000_0000
  {
  }

  function ParseFields(file: seq<Byte>, p: nat, kinds: seq<Kind>): (r: Option<(seq<int>, nat)>)
    requires p <= |file|
    ensures r.Some? ==> |r.value.0| == |kinds| && p <= r.value.1 <= |file|
    decreases |kinds|
  {
    if kinds == [] then Some(([], p))
    else
      match ParseField(file, p, kinds[0])
      case None => None
      case Some(t) =>
        match ParseFields(file, t.1, kinds[1..])
        case None => None
        case Some(u) => Some(([t.0] + u.0, u.1))
  }

  function FieldsBytes(xs: seq<int>, bpt: nat): seq<Byte>
    requires bpt < 128
  {
    if xs == [] then [] else NumberBytes(xs[0], bpt) + FieldsBytes(xs[1..], bpt)
  }

  predicate FieldsFit(kinds: seq<Kind>, xs: seq<int>, bpt: nat)
    requires |kinds| == |xs|
  {
    forall i :: 0 <= i < |xs| ==> FieldFits(kinds[i], xs[i], bpt)
  }

  /** Each field comes back if and only if it fits. */
  lemma {:induction false} FieldsRead(file: seq<Byte>, p: nat, xs: seq<int>, kinds: seq<Kind>, bpt: nat)
    requires 1 <= bpt <= 7 && |kinds| == |xs| && At(file, p, FieldsBytes(xs, bpt))
    ensures p <= |file| && ParseFields(file, p, kinds).Some?
    ensures ParseFields(file, p, kinds).value.1 == p + |FieldsBytes(xs, bpt)|
    ensures forall i :: 0 <= i < |xs| ==>
      (ParseFields(file, p, kinds).value.0[i] == xs[i] <==> FieldFits(kinds[i], xs[i], bpt))
    decreases |xs|
  {
    hide FieldFits, ParseField, NumberBytes, At;
    AtInside(file, p, FieldsBytes(xs, bpt));
    if xs != [] {
      var n := NumberBytes(xs[0], bpt);
      AtParts(file, p, n, FieldsBytes(xs[1..], bpt));
      FieldRoundTrip(file, p, xs[0], kinds[0], bpt);
      var q := p + |n|;
      AtInside(file, p, n);
      FieldsRead(file, q, xs[1..], kinds[1..], bpt);
      var t, u := ParseField(file, p, kinds[0]).value, ParseFields(file, q, kinds[1..]).value;
      assert ParseFields(file, p, kinds) == Some(([t.0] + u.0, u.1));
      forall i | 0 <= i < |xs|
        ensures ([t.0] + u.0)[i] == xs[i] <==> FieldFits(kinds[i], xs[i], bpt)
      {
        if i > 0 {
          assert u.0[i - 1] == xs[1..][i - 1] <==> FieldFits(kinds[1..][i - 1], xs[1..][i - 1], bpt);
        }
      }
    }
  }

  lemma FieldsRoundTrip(file: seq<Byte>, p: nat, xs: seq<int>, kinds: seq<Kind>, bpt: nat)
    requires 1 <= bpt <= 7 && |kinds| == |xs| && At(file, p, FieldsBytes(xs, bpt))
    ensures p <= |file| && ParseFields(file, p, kinds).Some?
    ensures ParseFields(file, p, kinds).value.1 == p + |FieldsBytes(xs, bpt)|
    ensures ParseFields(file, p, kinds).value.0 == xs <==> FieldsFit(kinds, xs, bpt)
  {
    hide FieldFits, ParseFields, FieldsBytes, At;
    FieldsRead(file, p, xs, kinds, bpt);
  }

  // ----- strings and records -----

  function StringBytes(s: seq<Byte>): seq<Byte> {
    s + [0]
  }

  function ParseString(file: seq<Byte>, p: nat): (r: Option<(seq<Byte>, nat)>)
    ensures r.Some? ==> p < r.value.1 <= |file|
    decreases |file| - p
  {
    if p >= |file| then None
    else if file[p] == 0 then Some(([], p + 1))
    else
      match ParseString(file, p + 1)
      case None => None
      case Some(t) => Some(([file[p]] + t.0, t.1))
  }

  lemma {:induction false} StringRoundTrip(file: seq<Byte>, p: nat, s: seq<Byte>)
    requires 0 !in s && At(file, p, StringBytes(s))
    ensures ParseString(file, p) == Some((s, p + |s| + 1))
    decreases |s|
  {
    if s == [] {
      assert file[p] == file[p..p + 1][0];
    } else {
      assert StringBytes(s) == [s[0]] + StringBytes(s[1..]);
      AtParts(file, p, [s[0]], StringBytes(s[1..]));
      assert file[p] == file[p..p + 1][0];
      StringRoundTrip(file, p + 1, s[1..]);
      assert [s[0]] + s[1..] == s;
    }
  }

  const SYMBOL_KINDS: seq<Kind> := [Int, Int, Int, Signed, Int]
  const SECTION_KINDS: seq<Kind> := [Plain, Int, Plain, Int, Plain]
  const RELOC_KINDS: seq<Kind> := [Plain, Int, Int, Signed, Signed, Int]

  function SymbolFields(y: Symbol): seq<int> {
    [y.typ, y.flags, y.sec, y.val, y.size]
  }

  function SymbolBytes(y: Symbol, bpt: nat): seq<Byte>
    requires bpt < 128
  {
    StringBytes(y.name) + FieldsBytes(SymbolFields(y), bpt)
  }

  function ParseSymbol(file: seq<Byte>, p: nat): (r: Option<(Symbol, nat)>)
    ensures r.Some? ==> p < r.value.1 <= |file|
  {
    match ParseString(file, p)
    case None => None
    case Some(t) =>
      match ParseFields(file, t.1, SYMBOL_KINDS)
      case None => None
      case Some(u) => Some((Symbol(t.0, u.0[0], u.0[1], u.0[2], u.0[3], u.0[4]), u.1))
  }

  predicate SymbolFits(y: Symbol, bpt: nat) {
    FieldsFit(SYMBOL_KINDS, SymbolFields(y), bpt)
  }

  lemma SymbolRoundTrip(file: seq<Byte>, p: nat, y: Symbol, bpt: nat)
    requires 1 <= bpt <= 7 && 0 !in y.name && At(file, p, SymbolBytes(y, bpt))
    ensures ParseSymbol(file, p).Some? && ParseSymbol(file, p).value.1 == p + |SymbolBytes(y, bpt)|
    ensures ParseSymbol(file, p).value.0 == y <==> SymbolFits(y, bpt)
  {
    hide At, ParseString, ParseFields, FieldsBytes, FieldsFit;
    AtParts(file, p, StringBytes(y.name), FieldsBytes(SymbolFields(y), bpt));
    StringRoundTrip(file, p, y.name);
    FieldsRoundTrip(file, p + |y.name| + 1, SymbolFields(y), SYMBOL_KINDS, bpt);
  }

  function RelocFields(r: Reloc): seq<int>
    requires r.Standard?
  {
    [r.byteoffset, r.bitoffset, r.size, r.mask, r.addend, r.sym]
  }

  /** The writer writes standard relocations only. */
  function RelocBytes(r: Reloc, bpt: nat): seq<Byte>
    requires bpt < 128
  {
    if IsStandard(r) then NumberBytes(r.typ, bpt) + FieldsBytes(RelocFields(r), bpt) else []
  }

  function ParseReloc(file: seq<Byte>, p: nat): (r: Option<(Reloc, nat)>)
    ensures r.Some? ==> p < r.value.1 <= |file|
  {
    match ParseField(file, p, Char)
    case None => None
    case Some(t) =>
      if t.0 <= LAST_STANDARD_RELOC + 1 then
        match ParseFields(file, t.1, RELOC_KINDS)
        case None => None
        case Some(u) => Some((Standard(t.0, u.0[0], u.0[1], u.0[2], u.0[3], u.0[4], u.0[5]), u.1))
      else
        match ParseField(file, t.1, Plain)
        case None => None
        case Some(u) =>
          if 0 <= u.0 && u.1 + u.0 <= |file| then Some((Special(t.0, file[u.1..u.1 + u.0]), u.1 + u.0)) else None
  }

  predicate IsStandard(r: Reloc) {
    r.Standard? && 0 <= r.typ <= LAST_STANDARD_RELOC
  }

  predicate RelocFits(r: Reloc, bpt: nat) {
    r.Standard? && FieldsFit(RELOC_KINDS, RelocFields(r), bpt)
  }

  lemma RelocRoundTrip(file: seq<Byte>, p: nat, r: Reloc, bpt: nat)
    requires 1 <= bpt <= 7 && IsStandard(r) && At(file, p, RelocBytes(r, bpt))
    ensures ParseReloc(file, p).Some? && ParseReloc(file, p).value.1 == p + |RelocBytes(r, bpt)|
    ensures ParseReloc(file, p).value.0 == r <==> RelocFits(r, bpt)
  {
    hide At, ParseField, ParseFields, FieldsBytes, NumberBytes, FieldsFit;
    AtParts(file, p, NumberBytes(r.typ, bpt), FieldsBytes(RelocFields(r), bpt));
    FieldRoundTrip(file, p, r.typ, Char, bpt);
    FieldsRoundTrip(file, p + |NumberBytes(r.typ, bpt)|, RelocFields(r), RELOC_KINDS, bpt);
  }

  // ----- lists of records -----

  function SymbolsBytes(ys: seq<Symbol>, bpt: nat): seq<Byte>
    requires bpt < 128
  {
    if ys == [] then [] else SymbolBytes(ys[0], bpt) + SymbolsBytes(ys[1..], bpt)
  }

  function ParseSymbols(file: seq<Byte>, p: nat, n: int): (r: Option<(seq<Symbol>, nat)>)
    requires p <= |file|
    ensures r.Some? ==> p <= r.value.1 <= |file| && |r.value.0| == if n > 0 then n else 0
    decreases n
  {
    if n <= 0 then Some(([], p))
    else
      match ParseSymbol(file, p)
      case None => None
      case Some(t) =>
        match ParseSymbols(file, t.1, n - 1)
        case None => None
        case Some(u) => Some(([t.0] + u.0, u.1))
  }

  /** No name contains the byte that ends a string. */
  predicate NamesFree(ys: seq<Symbol>) {
    ys == [] || (0 !in ys[0].name && NamesFree(ys[1..]))
  }

  predicate SymbolsFit(ys: seq<Symbol>, bpt: nat) {
    ys == [] || (SymbolFits(ys[0], bpt) && SymbolsFit(ys[1..], bpt))
  }

  lemma {:induction false} SymbolsRoundTrip(file: seq<Byte>, p: nat, ys: seq<Symbol>, bpt: nat)
    requires 1 <= bpt <= 7 && NamesFree(ys) && At(file, p, SymbolsBytes(ys, bpt))
    ensures p <= |file|
    ensures ParseSymbols(file, p, |ys|).Some? && ParseSymbols(file, p, |ys|).value.1 == p + |SymbolsBytes(ys, bpt)|
    ensures ParseSymbols(file, p, |ys|).value.0 == ys <==> SymbolsFit(ys, bpt)
    decreases |ys|
  {
    hide *;
    AtInside(file, p, SymbolsBytes(ys, bpt));
    SymbolsParts(file, p, ys, bpt);
    if ys != [] {
      var n, rest := SymbolBytes(ys[0], bpt), ys[1..];
      AtParts(file, p, n, SymbolsBytes(rest, bpt));
      SymbolRoundTrip(file, p, ys[0], bpt);
      SymbolsRoundTrip(file, p + |n|, rest, bpt);
      SymbolsStep(file, p, |ys|);
      var t, u := ParseSymbol(file, p).value, ParseSymbols(file, p + |n|, |rest|).value;
      assert ys == [ys[0]] + rest;
    }
  }

  lemma SymbolsParts(file: seq<Byte>, p: nat, ys: seq<Symbol>, bpt: nat)
    requires bpt < 128 && p <= |file| && NamesFree(ys)
    ensures ys == [] ==> SymbolsBytes(ys, bpt) == [] && SymbolsFit(ys, bpt) && ParseSymbols(file, p, 0) == Some(([], p))
    ensures ys != [] ==> SymbolsBytes(ys, bpt) == SymbolBytes(ys[0], bpt) + SymbolsBytes(ys[1..], bpt)
    ensures ys != [] ==> 0 !in ys[0].name && NamesFree(ys[1..])
    ensures ys != [] ==> (SymbolsFit(ys, bpt) <==> SymbolFits(ys[0], bpt) && SymbolsFit(ys[1..], bpt))
  {
    hide SymbolBytes, SymbolFits;
  }

  lemma SymbolsStep(file: seq<Byte>, p: nat, n: nat)
    requires p <= |file| && n > 0
    ensures var t := ParseSymbol(file, p);
      t.Some? && ParseSymbols(file, t.value.1, n - 1).Some? ==>
        var u := ParseSymbols(file, t.value.1, n - 1).value;
        ParseSymbols(file, p, n) == Some(([t.value.0] + u.0, u.1))
  {
    hide ParseSymbol;
  }

  function RelocsBytes(rs: seq<Reloc>, bpt: nat): seq<Byte>
    requires bpt < 128
  {
    if rs == [] then [] else RelocBytes(rs[0], bpt) + RelocsBytes(rs[1..], bpt)
  }

  function ParseRelocs(file: seq<Byte>, p: nat, n: int): (r: Option<(seq<Reloc>, nat)>)
    requires p <= |file|
    ensures r.Some? ==> p <= r.value.1 <= |file| && |r.value.0| == if n > 0 then n else 0
    decreases n
  {
    if n <= 0 then Some(([], p))
    else
      match ParseReloc(file, p)
      case None => None
      case Some(t) =>
        match ParseRelocs(file, t.1, n - 1)
        case None => None
        case Some(u) => Some(([t.0] + u.0, u.1))
  }

  predicate AllStandard(rs: seq<Reloc>) {
    rs == [] || (IsStandard(rs[0]) && AllStandard(rs[1..]))
  }

  predicate RelocsFit(rs: seq<Reloc>, bpt: nat) {
    rs == [] || (RelocFits(rs[0], bpt) && RelocsFit(rs[1..], bpt))
  }

  lemma {:induction false} RelocsRoundTrip(file: seq<Byte>, p: nat, rs: seq<Reloc>, bpt: nat)
    requires 1 <= bpt <= 7 && AllStandard(rs) && At(file, p, RelocsBytes(rs, bpt))
    ensures p <= |file|
    ensures ParseRelocs(file, p, |rs|).Some? && ParseRelocs(file, p, |rs|).value.1 == p + |RelocsBytes(rs, bpt)|
    ensures ParseRelocs(file, p, |rs|).value.0 == rs <==> RelocsFit(rs, bpt)
    decreases |rs|
  {
    hide *;
    AtInside(file, p, RelocsBytes(rs, bpt));
    RelocsParts(file, p, rs, bpt);
    if rs != [] {
      var n, rest := RelocBytes(rs[0], bpt), rs[1..];
      AtParts(file, p, n, RelocsBytes(rest, bpt));
      RelocRoundTrip(file, p, rs[0], bpt);
      RelocsRoundTrip(file, p + |n|, rest, bpt);
      RelocsStep(file, p, |rs|);
      var t, u := ParseReloc(file, p).value, ParseRelocs(file, p + |n|, |rest|).value;
      assert rs == [rs[0]] + rest;
    }
  }

  lemma RelocsParts(file: seq<Byte>, p: nat, rs: seq<Reloc>, bpt: nat)
    requires bpt < 128 && p <= |file| && AllStandard(rs)
    ensures rs == [] ==> RelocsBytes(rs, bpt) == [] && RelocsFit(rs, bpt) && ParseRelocs(file, p, 0) == Some(([], p))
    ensures rs != [] ==> RelocsBytes(rs, bpt) == RelocBytes(rs[0], bpt) + RelocsBytes(rs[1..], bpt)
    ensures rs != [] ==> IsStandard(rs[0]) && AllStandard(rs[1..])
    ensures rs != [] ==> (RelocsFit(rs, bpt) <==> RelocFits(rs[0], bpt) && RelocsFit(rs[1..], bpt))
  {
    hide RelocBytes, RelocFits;
  }

  lemma RelocsStep(file: seq<Byte>, p: nat, n: nat)
    requires p <= |file| && n > 0
    ensures var t := ParseReloc(file, p);
      t.Some? && ParseRelocs(file, t.value.1, n - 1).Some? ==>
        var u := ParseRelocs(file, t.value.1, n - 1).value;
        ParseRelocs(file, p, n) == Some(([t.value.0] + u.0, u.1))
  {
    hide ParseReloc;
  }

  function SectionFields(c: Section): seq<int> {
    [c.flags, c.align, c.size, |c.relocs|, |c.data|]
  }

  function SectionBytes(c: Section, bpt: nat): seq<Byte>
    requires bpt < 128
  {
    StringBytes(c.name) + (StringBytes(c.attr) + (FieldsBytes(SectionFields(c), bpt) +
      (c.data + RelocsBytes(c.relocs, bpt))))
  }

  function ParseSection(file: seq<Byte>, p: nat): (r: Option<(Section, nat)>)
    ensures r.Some? ==> p < r.value.1 <= |file|
  {
    match ParseString(file, p)
    case None => None
    case Some(t) =>
      match ParseString(file, t.1)
      case None => None
      case Some(a) =>
        match ParseFields(file, a.1, SECTION_KINDS)
        case None => None
        case Some(u) => ParseContents(file, u.1, t.0, a.0, u.0)
  }

  /** The part of a section after its header. */
  function ParseContents(
      file: seq<Byte>, p: nat, name: seq<Byte>, attr: seq<Byte>, fields: seq<int>): (r: Option<(Section, nat)>)
    requires |fields| == 5 && p <= |file|
    ensures r.Some? ==> p <= r.value.1 <= |file|
  {
    var n := fields[4];
    if n < 0 || p + n > |file| then None
    else
      match ParseRelocs(file, p + n, fields[3])
      case None => None
      case Some(v) => Some((Section(name, attr, fields[0], fields[1], fields[2], file[p..p + n], v.0), v.1))
  }

  /** What a section needs so that its parts are found again: the counts fit. */
  predicate SectionShape(c: Section, bpt: nat) {
    && 0 !in c.name && 0 !in c.attr
    && AllStandard(c.relocs)
    && FieldFits(Int, |c.relocs|, bpt) && FieldFits(Plain, |c.data|, bpt)
  }

  predicate SectionFits(c: Section, bpt: nat) {
    FieldFits(Plain, c.flags, bpt) && FieldFits(Int, c.align, bpt) && FieldFits(Plain, c.size, bpt) &&
      RelocsFit(c.relocs, bpt)
  }

  lemma SectionRoundTrip(file: seq<Byte>, p: nat, c: Section, bpt: nat)
    requires 1 <= bpt <= 7 && SectionShape(c, bpt) && At(file, p, SectionBytes(c, bpt))
    ensures ParseSection(file, p).Some? && ParseSection(file, p).value.1 == p + |SectionBytes(c, bpt)|
    ensures ParseSection(file, p).value.0 == c <==> SectionFits(c, bpt)
  {
    hide At, ParseString, ParseFields, ParseRelocs, FieldsBytes, RelocsBytes, FieldFits, RelocsFit, AllStandard,
      FieldsFit;
    var name, attr, fields, relocs := StringBytes(c.name), StringBytes(c.attr), FieldsBytes(SectionFields(c), bpt),
      RelocsBytes(c.relocs, bpt);
    AtParts(file, p, name, attr + (fields + (c.data + relocs)));
    AtParts(file, p + |name|, attr, fields + (c.data + relocs));
    AtParts(file, p + |name| + |attr|, fields, c.data + relocs);
    var q := p + |name| + |attr| + |fields|;
    AtParts(file, q, c.data, relocs);
    StringRoundTrip(file, p, c.name);
    StringRoundTrip(file, p + |name|, c.attr);
    FieldsRoundTrip(file, p + |name| + |attr|, SectionFields(c), SECTION_KINDS, bpt);
    SectionCounts(file, p + |name| + |attr|, c, bpt);
    RelocsRoundTrip(file, q + |c.data|, c.relocs, bpt);
    AtMeans(file, q, c.data);
  }

  /** The counts in a section's header are found again. */
  lemma SectionCounts(file: seq<Byte>, p: nat, c: Section, bpt: nat)
    requires 1 <= bpt <= 7 && SectionShape(c, bpt) && At(file, p, FieldsBytes(SectionFields(c), bpt))
    ensures p <= |file| && ParseFields(file, p, SECTION_KINDS).Some?
    ensures var r := ParseFields(file, p, SECTION_KINDS).value.0;
      && r[3] == |c.relocs| && r[4] == |c.data|
      && (r[0] == c.flags <==> FieldFits(Plain, c.flags, bpt))
      && (r[1] == c.align <==> FieldFits(Int, c.align, bpt))
      && (r[2] == c.size <==> FieldFits(Plain, c.size, bpt))
  {
    hide FieldFits, ParseFields, FieldsBytes, At, AllStandard;
    FieldsRead(file, p, SectionFields(c), SECTION_KINDS, bpt);
    var r, xs := ParseFields(file, p, SECTION_KINDS).value.0, SectionFields(c);
    assert r[0] == xs[0] <==> FieldFits(SECTION_KINDS[0], xs[0], bpt);
    assert r[1] == xs[1] <==> FieldFits(SECTION_KINDS[1], xs[1], bpt);
    assert r[2] == xs[2] <==> FieldFits(SECTION_KINDS[2], xs[2], bpt);
    assert r[3] == xs[3] <==> FieldFits(SECTION_KINDS[3], xs[3], bpt);
    assert r[4] == xs[4] <==> FieldFits(SECTION_KINDS[4], xs[4], bpt);
  }

  // ----- whole files -----

  function SectionsBytes(cs: seq<Section>, bpt: nat): seq<Byte>
    requires bpt < 128
  {
    if cs == [] then [] else SectionBytes(cs[0], bpt) + SectionsBytes(cs[1..], bpt)
  }

  function ParseSections(file: seq<Byte>, p: nat, n: int): (r: Option<(seq<Section>, nat)>)
    requires p <= |file|
    ensures r.Some? ==> p <= r.value.1 <= |file| && |r.value.0| == if n > 0 then n else 0
    decreases n
  {
    if n <= 0 then Some(([], p))
    else
      match ParseSection(file, p)
      case None => None
      case Some(t) =>
        match ParseSections(file, t.1, n - 1)
        case None => None
        case Some(u) => Some(([t.0] + u.0, u.1))
  }

  predicate SectionsShape(cs: seq<Section>, bpt: nat) {
    cs == [] || (SectionShape(cs[0], bpt) && SectionsShape(cs[1..], bpt))
  }

  predicate SectionsFit(cs: seq<Section>, bpt: nat) {
    cs == [] || (SectionFits(cs[0], bpt) && SectionsFit(cs[1..], bpt))
  }

  lemma {:induction false} SectionsRoundTrip(file: seq<Byte>, p: nat, cs: seq<Section>, bpt: nat)
    requires 1 <= bpt <= 7 && SectionsShape(cs, bpt) && At(file, p, SectionsBytes(cs, bpt))
    ensures p <= |file|
    ensures ParseSections(file, p, |cs|).Some? && ParseSections(file, p, |cs|).value.1 == p + |SectionsBytes(cs, bpt)|
    ensures ParseSections(file, p, |cs|).value.0 == cs <==> SectionsFit(cs, bpt)
    decreases |cs|
  {
    hide *;
    AtInside(file, p, SectionsBytes(cs, bpt));
    SectionsParts(file, p, cs, bpt);
    if cs != [] {
      var n, rest := SectionBytes(cs[0], bpt), cs[1..];
      AtParts(file, p, n, SectionsBytes(rest, bpt));
      SectionRoundTrip(file, p, cs[0], bpt);
      SectionsRoundTrip(file, p + |n|, rest, bpt);
      SectionsStep(file, p, |cs|);
      var t, u := ParseSection(file, p).value, ParseSections(file, p + |n|, |rest|).value;
      assert cs == [cs[0]] + rest;
    }
  }

  lemma SectionsParts(file: seq<Byte>, p: nat, cs: seq<Section>, bpt: nat)
    requires bpt < 128 && p <= |file| && SectionsShape(cs, bpt)
    ensures cs == [] ==>
      SectionsBytes(cs, bpt) == [] && SectionsFit(cs, bpt) && ParseSections(file, p, 0) == Some(([], p))
    ensures cs != [] ==> SectionsBytes(cs, bpt) == SectionBytes(cs[0], bpt) + SectionsBytes(cs[1..], bpt)
    ensures cs != [] ==> SectionShape(cs[0], bpt) && SectionsShape(cs[1..], bpt)
    ensures cs != [] ==> (SectionsFit(cs, bpt) <==> SectionFits(cs[0], bpt) && SectionsFit(cs[1..], bpt))
  {
    hide SectionBytes, SectionFits, SectionShape;
  }

  lemma SectionsStep(file: seq<Byte>, p: nat, n: nat)
    requires p <= |file| && n > 0
    ensures var t := ParseSection(file, p);
      t.Some? && ParseSections(file, t.value.1, n - 1).Some? ==>
        var u := ParseSections(file, t.value.1, n - 1).value;
        ParseSections(file, p, n) == Some(([t.value.0] + u.0, u.1))
  {
    hide ParseSection;
  }

  const MAGIC: seq<Byte> := [0x56, 0x4f, 0x42, 0x4a]
  const COUNT_KINDS: seq<Kind> := [Int, Int]

  function ObjectBytes(o: Object): seq<Byte>
    requires 0 <= o.bpt < 128
  {
    MAGIC + ([o.endian] + (FieldsBytes([8, o.bpt], o.bpt) + (StringBytes(o.cpu) +
      (FieldsBytes([|o.sections|, |o.symbols|], o.bpt) +
        (SymbolsBytes(o.symbols, o.bpt) + SectionsBytes(o.sections, o.bpt))))))
  }

  /** What vobjdump makes of a file. */
  function ParseObject(file: seq<Byte>): Option<Object> {
    if |file| > 4 && file[..4] == MAGIC && 1 <= file[4] <= 2 then
      match ParseFields(file, 5, COUNT_KINDS)
      case None => None
      case Some(t) =>
        if t.0[0] != 8 || t.0[1] > 8 then None
        else
          match ParseString(file, t.1)
          case None => None
          case Some(cpu) =>
            match ParseFields(file, cpu.1, COUNT_KINDS)
            case None => None
            case Some(u) => ParseTables(file, u.1, file[4], t.0[1], cpu.0, u.0[0], u.0[1])
    else None
  }

  function ParseTables(
      file: seq<Byte>, p: nat, endian: Byte, bpt: int, cpu: seq<Byte>, nsecs: int, nsyms: int): Option<Object>
    requires p <= |file|
  {
    match ParseSymbols(file, p, nsyms)
    case None => None
    case Some(y) =>
      match ParseSections(file, y.1, nsecs)
      case None => None
      case Some(c) => Some(Object(endian, bpt, cpu, y.0, c.0))
  }

  /** Names without NUL, addresses of 1 to 7 bytes, counts that fit. */
  predicate ObjectShape(o: Object) {
    && 1 <= o.endian <= 2 && 1 <= o.bpt <= 7 && 0 !in o.cpu
    && NamesFree(o.symbols) && SectionsShape(o.sections, o.bpt)
    && FieldFits(Int, |o.sections|, o.bpt) && FieldFits(Int, |o.symbols|, o.bpt)
  }

  predicate ObjectFits(o: Object)
    requires 0 <= o.bpt
  {
    SymbolsFit(o.symbols, o.bpt) && SectionsFit(o.sections, o.bpt)
  }

  /** Where the parts of a file stand. */
  lemma ObjectParts(o: Object)
    requires ObjectShape(o)
    ensures var file, bpt := ObjectBytes(o), o.bpt;
      var widths, cpu := FieldsBytes([8, bpt], bpt), StringBytes(o.cpu);
      var counts, symbols := FieldsBytes([|o.sections|, |o.symbols|], bpt), SymbolsBytes(o.symbols, bpt);
      var p := 5 + |widths|;
      var q := p + |cpu| + |counts|;
      && |file| > 4 && file[..4] == MAGIC && file[4] == o.endian
      && At(file, 5, widths) && At(file, p, cpu) && At(file, p + |cpu|, counts)
      && At(file, q, symbols) && At(file, q + |symbols|, SectionsBytes(o.sections, bpt))
  {
    var bpt := o.bpt;
    hide At, FieldsBytes, SymbolsBytes, SectionsBytes, SectionsShape, NamesFree, FieldFits, StringBytes;
    var widths, cpu := FieldsBytes([8, bpt], bpt), StringBytes(o.cpu);
    var counts := FieldsBytes([|o.sections|, |o.symbols|], bpt);
    var symbols, sections := SymbolsBytes(o.symbols, bpt), SectionsBytes(o.sections, bpt);
    var rest := widths + (cpu + (counts + (symbols + sections)));
    var file := MAGIC + ([o.endian] + rest);
    assert file == ObjectBytes(o);
    hide ObjectBytes;
    Prefix(o.endian, rest);
    AtParts(file, 5, widths, cpu + (counts + (symbols + sections)));
    var p := 5 + |widths|;
    AtParts(file, p, cpu, counts + (symbols + sections));
    AtParts(file, p + |cpu|, counts, symbols + sections);
    AtParts(file, p + |cpu| + |counts|, symbols, sections);
  }

  lemma Prefix(endian: Byte, rest: seq<Byte>)
    ensures var file := MAGIC + ([endian] + rest);
      |file| > 4 && file[..4] == MAGIC && file[4] == endian && At(file, 5, rest)
  {
    var file := MAGIC + ([endian] + rest);
    assert file[5..5 + |rest|] == rest;
  }

  lemma HeaderRead(
      file: seq<Byte>, endian: Byte, bpt: nat, p: nat, cpu: seq<Byte>, r: nat, nsecs: int, nsyms: int, q: nat)
    requires |file| > 4 && file[..4] == MAGIC && file[4] == endian && 1 <= endian <= 2 && bpt <= 8
    requires p <= |file| && ParseFields(file, 5, COUNT_KINDS) == Some(([8, bpt], p))
    requires r <= |file| && ParseString(file, p) == Some((cpu, r))
    requires q <= |file| && ParseFields(file, r, COUNT_KINDS) == Some(([nsecs, nsyms], q))
    ensures ParseObject(file) == ParseTables(file, q, endian, bpt, cpu, nsecs, nsyms)
  {
    hide ParseFields, ParseString, ParseTables;
  }

  /** Writing an object and reading it back gives the same object if and only if every
      field fits the width that it is written and read with. */
  lemma ObjectRoundTrip(o: Object)
    requires ObjectShape(o)
    ensures ParseObject(ObjectBytes(o)).Some?
    ensures ParseObject(ObjectBytes(o)).value == o <==> ObjectFits(o)
  {
    hide *;
    ShapeParts(o);
    ObjectParts(o);
    SmallFits(o.bpt);
    var file, bpt := ObjectBytes(o), o.bpt;
    var p := 5 + |FieldsBytes([8, bpt], bpt)|;
    var r := p + |StringBytes(o.cpu)|;
    var q := r + |FieldsBytes([|o.sections|, |o.symbols|], bpt)|;
    TwoFields(file, 5, 8, bpt, bpt);
    StringRoundTrip(file, p, o.cpu);
    TwoFields(file, r, |o.sections|, |o.symbols|, bpt);
    SymbolsRoundTrip(file, q, o.symbols, bpt);
    var q' := q + |SymbolsBytes(o.symbols, bpt)|;
    SectionsRoundTrip(file, q', o.sections, bpt);
    HeaderRead(file, o.endian, bpt, p, o.cpu, r, |o.sections|, |o.symbols|, q);
    TablesRead(file, q, q', o);
  }

  lemma ShapeParts(o: Object)
    requires ObjectShape(o)
    ensures 1 <= o.endian <= 2 && 1 <= o.bpt <= 7 && 0 !in o.cpu && NamesFree(o.symbols)
    ensures SectionsShape(o.sections, o.bpt)
    ensures FieldFits(Int, |o.sections|, o.bpt) && FieldFits(Int, |o.symbols|, o.bpt)
    ensures |StringBytes(o.cpu)| == |o.cpu| + 1
  {
  }

  lemma TablesRead(file: seq<Byte>, q: nat, q': nat, o: Object)
    requires 0 <= o.bpt && q <= |file| && q' <= |file|
    requires ParseSymbols(file, q, |o.symbols|).Some? && ParseSymbols(file, q, |o.symbols|).value.1 == q'
    requires ParseSymbols(file, q, |o.symbols|).value.0 == o.symbols <==> SymbolsFit(o.symbols, o.bpt)
    requires ParseSections(file, q', |o.sections|).Some?
    requires ParseSections(file, q', |o.sections|).value.0 == o.sections <==> SectionsFit(o.sections, o.bpt)
    ensures var r := ParseTables(file, q, o.endian, o.bpt, o.cpu, |o.sections|, |o.symbols|);
      r.Some? && (r.value == o <==> ObjectFits(o))
  {
    hide ParseSymbols, ParseSections, SymbolsFit, SectionsFit;
  }

  lemma SmallFits(bpt: nat)
    requires 1 <= bpt <= 7
    ensures FieldFits(Int, 8, bpt) && FieldFits(Int, bpt, bpt)
  {
    PowAtLeast(bpt);
  }

  lemma TwoFields(file: seq<Byte>, p: nat, x: int, y: int, bpt: nat)
    requires 1 <= bpt <= 7 && FieldFits(Int, x, bpt) && FieldFits(Int, y, bpt) && At(file, p, FieldsBytes([x, y], bpt))
    ensures p <= |file| && ParseFields(file, p, COUNT_KINDS) == Some(([x, y], p + |FieldsBytes([x, y], bpt)|))
  {
    hide ParseFields, FieldsBytes, At, FieldFits;
    FieldsRoundTrip(file, p, [x, y], COUNT_KINDS, bpt);
  }
}
