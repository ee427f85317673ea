/** Motorola S-records: what a record says and its text (c/vasm/output_srec.c). */
module SRecords {
  import opened Bytes
  import opened Options

  /** typ 0: header; 1, 2, 3: data with addresses of 2, 3, 4 bytes; 9, 8, 7: the end. */
  datatype Record = Record(typ: nat, addr: nat, data: seq<Byte>)

  predicate IsType(typ: nat) {
    typ <= 3 || 7 <= typ <= 9
  }

  function AddressBytes(typ: nat): (n: nat)
    requires IsType(typ)
    ensures 2 <= n <= 4
  {
    if typ <= 1 then 2 else if typ <= 3 then typ + 1 else 11 - typ
  }

  /** The address cut to n bytes, most significant byte first. */
  function BigEndian(x: nat, n: nat): (s: seq<Byte>)
    ensures |s| == n
  {
    if n == 0 then [] else BigEndian(x / 256, n - 1) + [x % 256]
  }

  function ValueOf(s: seq<Byte>): nat {
    if s == [] then 0 else ValueOf(s[..|s| - 1]) * 256 + s[|s| - 1]
  }

  lemma {:induction false} BigEndianValue(x: nat, n: nat)
    requires x < Pow256(n)
    ensures ValueOf(BigEndian(x, n)) == x
  {
    if n > 0 {
      BigEndianValue(x / 256, n - 1);
      assert BigEndian(x, n)[..n - 1] == BigEndian(x / 256, n - 1);
    }
  }

  function Sum(s: seq<Byte>): nat {
    if s == [] then 0 else Sum(s[..|s| - 1]) + s[|s| - 1]
  }

  /** Count, address and data of a record. */
  function Body(r: Record): seq<Byte>
    requires IsRecord(r)
  {
    [AddressBytes(r.typ) + |r.data| + 1] + BigEndian(r.addr, AddressBytes(r.typ)) + r.data
  }

  /** The address and the length fit; a header has the address 0. */
  predicate IsRecord(r: Record) {
    && IsType(r.typ) && r.addr < Pow256(AddressBytes(r.typ)) && AddressBytes(r.typ) + |r.data| + 1 < 256
    && (r.typ == 0 ==> r.addr == 0)
  }

  function Checksum(s: seq<Byte>): Byte {
    255 - Sum(s) % 256
  }

  function HexDigit(n: nat): Byte
    requires n < 16
  {
    if n <= 9 then n + 48 else n - 10 + 65
  }

  function HexText(s: seq<Byte>): (t: seq<Byte>)
    ensures |t| == 2 * |s|
  {
    if s == [] then [] else HexText(s[..|s| - 1]) + [HexDigit(s[|s| - 1] / 16), HexDigit(s[|s| - 1] % 16)]
  }

  lemma {:induction false} HexAppend(s: seq<Byte>, t: seq<Byte>)
    ensures HexText(s + t) == HexText(s) + HexText(t)
    decreases |t|
  {
    if t == [] {
      assert s + t == s;
    } else {
      assert (s + t)[..|s + t| - 1] == s + t[..|t| - 1];
      HexAppend(s, t[..|t| - 1]);
    }
  }

  /** The line of a record. */
  function RecordText(r: Record): seq<Byte>
    requires IsRecord(r)
  {
    [83, 48 + r.typ] + HexText(Body(r) + [Checksum(Body(r))]) + [10]
  }

  // ----- reading -----

  function DigitValue(c: Byte): Option<nat> {
    if 48 <= c <= 57 then Some(c - 48) else if 65 <= c <= 70 then Some(c - 55) else None
  }

  /** n bytes in hexadecimal at position p. */
  function ReadHex(text: seq<Byte>, p: nat, n: nat): (r: Option<seq<Byte>>)
    ensures r.Some? ==> |r.value| == n && p + 2 * n <= |text|
    decreases n
  {
    if n == 0 then if p <= |text| then Some([]) else None
    else if p + 2 * n > |text| then None
    else
      match ReadHex(text, p, n - 1)
      case None => None
      case Some(s) =>
        var h, l := DigitValue(text[p + 2 * n - 2]), DigitValue(text[p + 2 * n - 1]);
        if h.None? || l.None? then None else Some(s + [16 * h.value + l.value])
  }

  /** A record at position p: its bytes sum to 255 modulo 256. */
  function ReadRecord(text: seq<Byte>, p: nat): (r: Option<(Record, nat)>)
    ensures r.Some? ==> p < r.value.1 <= |text|
  {
    if p + 4 > |text| || text[p] != 83 || text[p + 1] < 48 || !IsType(text[p + 1] - 48) then None
    else
      var typ := text[p + 1] - 48;
      var a := AddressBytes(typ);
      match ReadHex(text, p + 2, 1)
      case None => None
      case Some(c) =>
        var count := c[0];
        if count < a + 1 then None
        else
          match ReadHex(text, p + 2, count + 1)
          case None => None
          case Some(s) =>
            var end := p + 2 + 2 * (count + 1);
            if Sum(s) % 256 != 255 || end >= |text| || text[end] != 10 then None
            else Some((Record(typ, ValueOf(s[1..a + 1]), s[a + 1..count]), end + 1))
  }

  function ReadRecords(text: seq<Byte>, p: nat): Option<seq<Record>>
    requires p <= |text|
    decreases |text| - p
  {
    if p == |text| then Some([])
    else
      match ReadRecord(text, p)
      case None => None
      case Some(t) =>
        match ReadRecords(text, t.1)
        case None => None
        case Some(rs) => Some([t.0] + rs)
  }

  lemma DigitRoundTrip(n: nat)
    requires n < 16
    ensures DigitValue(HexDigit(n)) == Some(n)
  {
  }

  lemma NextByte(text: seq<Byte>, p: nat, front: seq<Byte>, x: Byte)
    requires p + 2 * |front| + 2 <= |text| && ReadHex(text, p, |front|) == Some(front)
    requires text[p + 2 * |front|] == HexDigit(x / 16) && text[p + 2 * |front| + 1] == HexDigit(x % 16)
    ensures ReadHex(text, p, |front| + 1) == Some(front + [x])
  {
    DigitRoundTrip(x / 16);
    DigitRoundTrip(x % 16);
    hide DigitValue, HexDigit;
  }

  lemma HexSnoc(front: seq<Byte>, x: Byte)
    ensures HexText(front + [x]) == HexText(front) + [HexDigit(x / 16), HexDigit(x % 16)]
  {
    assert (front + [x])[..|front|] == front;
  }

  lemma LastPair(text: seq<Byte>, p: nat, s: seq<Byte>, h: Byte, l: Byte)
    requires At(text, p, s + [h, l])
    ensures At(text, p, s) && p + |s| + 2 <= |text| && text[p + |s|] == h && text[p + |s| + 1] == l
  {
    hide At;
    AtInside(text, p, s + [h, l]);
    AtParts(text, p, s, [h, l]);
    AtMeans(text, p + |s|, [h, l]);
    assert text[p + |s| + 0] == [h, l][0] && text[p + |s| + 1] == [h, l][1];
  }

  lemma {:induction false} HexRoundTrip(text: seq<Byte>, p: nat, s: seq<Byte>)
    requires At(text, p, HexText(s))
    ensures ReadHex(text, p, |s|) == Some(s)
    decreases |s|
  {
    if s == [] {
      AtInside(text, p, HexText(s));
    } else {
      hide ReadHex, HexText, HexDigit, At;
      var front, last := s[..|s| - 1], s[|s| - 1];
      assert s == front + [last];
      HexSnoc(front, last);
      LastPair(text, p, HexText(front), HexDigit(last / 16), HexDigit(last % 16));
      HexRoundTrip(text, p, front);
      NextByte(text, p, front, last);
    }
  }

  /** The parts of a record's bytes. */
  lemma BodyParts(r: Record)
    requires IsRecord(r)
    ensures var a, b := AddressBytes(r.typ), Body(r);
      var all := b + [Checksum(b)];
      && |all| - 1 == b[0] && |all| == a + |r.data| + 2 && Sum(all) % 256 == 255
      && ValueOf(all[1..a + 1]) == r.addr && all[a + 1..b[0]] == r.data
  {
    var a, b := AddressBytes(r.typ), Body(r);
    var all := b + [Checksum(b)];
    assert all[1..a + 1] == BigEndian(r.addr, a);
    assert all[a + 1..b[0]] == r.data;
    hide Pow256, BigEndian, Body, ValueOf;
    BigEndianValue(r.addr, a);
    SumLast(b, Checksum(b));
    hide Sum;
    ChecksumFills(Sum(b));
  }

  lemma SumLast(s: seq<Byte>, x: Byte)
    ensures Sum(s + [x]) == Sum(s) + x
  {
    assert (s + [x])[..|s|] == s;
  }

  lemma ChecksumFills(n: nat)
    ensures (n + (255 - n % 256)) % 256 == 255
  {
  }

  /** The parts of a record's line. */
  lemma LineParts(text: seq<Byte>, p: nat, r: Record)
    requires IsRecord(r) && At(text, p, RecordText(r))
    ensures var b := Body(r);
      var all := b + [Checksum(b)];
      && p + 2 + 2 * |all| < |text| && |RecordText(r)| == 3 + 2 * |all|
      && text[p] == 83 && text[p + 1] == 48 + r.typ && text[p + 2 + 2 * |all|] == 10
      && At(text, p + 2, HexText(all)) && At(text, p + 2, HexText([b[0]]))
  {
    var b := Body(r);
    var all := b + [Checksum(b)];
    assert |b| > 0;
    assert RecordText(r) == [83, 48 + r.typ] + HexText(all) + [10];
    hide Body, HexText, Checksum, IsRecord, RecordText, At;
    LineAt(text, p, 48 + r.typ, HexText(all));
    assert all == [b[0]] + all[1..];
    HexAppend([b[0]], all[1..]);
    AtParts(text, p + 2, HexText([b[0]]), HexText(all[1..]));
  }

  lemma LineAt(text: seq<Byte>, p: nat, digit: Byte, hex: seq<Byte>)
    requires At(text, p, [83, digit] + hex + [10])
    ensures At(text, p + 2, hex) && p + 2 + |hex| < |text| && text[p] == 83 && text[p + 1] == digit
    ensures text[p + 2 + |hex|] == 10
  {
    hide At;
    AtParts(text, p, [83, digit] + hex, [10]);
    AtParts(text, p, [83, digit], hex);
    AtMeans(text, p, [83, digit]);
    AtMeans(text, p + 2 + |hex|, [10]);
    assert text[p + 0] == [83, digit][0] && text[p + 2 + |hex| + 0] == [10][0];
  }

  lemma TypeOf(r: Record)
    requires IsRecord(r)
    ensures IsType(r.typ)
  {
  }

  /** A record is read as it was written. */
  lemma RecordRoundTrip(text: seq<Byte>, p: nat, r: Record)
    requires IsRecord(r) && At(text, p, RecordText(r))
    ensures ReadRecord(text, p) == Some((r, p + |RecordText(r)|))
  {
    hide *;
    TypeOf(r);
    BodyParts(r);
    LineParts(text, p, r);
    var all := Body(r) + [Checksum(Body(r))];
    var count: nat := Body(r)[0];
    HexRead(text, p + 2, all, count + 1);
    HexRead(text, p + 2, [Body(r)[0]], 1);
    ReadSteps(text, p, r.typ, count, all);
    Assembled(r, all, count);
  }

  lemma HexRead(text: seq<Byte>, p: nat, s: seq<Byte>, n: nat)
    requires n == |s| && At(text, p, HexText(s))
    ensures ReadHex(text, p, n) == Some(s)
  {
    HexRoundTrip(text, p, s);
  }

  lemma Assembled(r: Record, all: seq<Byte>, count: nat)
    requires IsType(r.typ) && count < |all| && AddressBytes(r.typ) + 1 <= count
    requires ValueOf(all[1..AddressBytes(r.typ) + 1]) == r.addr && all[AddressBytes(r.typ) + 1..count] == r.data
    ensures Record(r.typ, ValueOf(all[1..AddressBytes(r.typ) + 1]), all[AddressBytes(r.typ) + 1..count]) == r
  {
    hide ValueOf;
  }

  lemma ReadSteps(text: seq<Byte>, p: nat, typ: nat, count: nat, all: seq<Byte>)
    requires IsType(typ) && count < 256 && count >= AddressBytes(typ) + 1 && |all| == count + 1
    requires p + 2 + 2 * |all| < |text| && text[p] == 83 && text[p + 1] == 48 + typ && text[p + 2 + 2 * |all|] == 10
    requires ReadHex(text, p + 2, 1) == Some([count]) && ReadHex(text, p + 2, count + 1) == Some(all)
    requires Sum(all) % 256 == 255
    ensures var a := AddressBytes(typ);
      ReadRecord(text, p) == Some((Record(typ, ValueOf(all[1..a + 1]), all[a + 1..count]), p + 3 + 2 * |all|))
  {
    hide Sum, ReadHex, ValueOf;
  }

  function RecordsText(rs: seq<Record>): seq<Byte>
    requires forall r :: r in rs ==> IsRecord(r)
  {
    if rs == [] then [] else RecordText(rs[0]) + RecordsText(rs[1..])
  }

  lemma {:induction false} RecordsRoundTrip(text: seq<Byte>, p: nat, rs: seq<Record>)
    requires (forall r :: r in rs ==> IsRecord(r)) && p <= |text| && text[p..] == RecordsText(rs)
    ensures ReadRecords(text, p) == Some(rs)
    decreases |rs|
  {
    hide ReadRecord, RecordText, IsRecord;
    if rs != [] {
      var line, rest := RecordText(rs[0]), RecordsText(rs[1..]);
      assert text[p..] == line + rest;
      assert text[p..p + |line|] == (line + rest)[..|line|] == line;
      assert text[p + |line|..] == (line + rest)[|line|..] == rest;
      RecordRoundTrip(text, p, rs[0]);
      RecordsRoundTrip(text, p + |line|, rs[1..]);
      assert [rs[0]] + rs[1..] == rs;
    }
  }
}
