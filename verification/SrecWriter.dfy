/** The S-record output module, c/vasm/output_srec.c. Atoms, alignment patterns and the
    contents of spaces are those of the other output module. */
module SrecWriter {
  import opened Alignment
  import opened Arithmetic
  import opened Bytes
  import opened Options
  import opened SRecords
  import VobjWriter

  type Atom = VobjWriter.Atom

  /** name: without the NUL at its end */
  datatype Section = Section(name: seq<Byte>, org: nat, atoms: seq<Atom>, pad: seq<Byte>)

  predicate IsSection(c: Section) {
    c.pad != [] && forall a :: a in c.atoms ==> a.Space? ==> a.fill != []
  }

  /** The bytes of the first k atoms, from the section's origin on. */
  function Image(c: Section, k: nat): seq<Byte>
    requires IsSection(c) && k <= |c.atoms|
  {
    if k == 0 then []
    else
      var a := c.atoms[k - 1];
      var before := Image(c, k - 1);
      assert a in c.atoms;
      before + VobjWriter.AlignBytes(a, c.pad, c.org + |before|) + VobjWriter.Content(a)
  }

  // ----- the records of a section -----

  /** The part of an address for which a record has room. */
  function Cut(typ: nat, addr: nat): (a: nat)
    requires 1 <= typ <= 3
    ensures a < Pow256(typ + 1) && (a == addr <==> addr < Pow256(typ + 1))
  {
    addr % Pow256(typ + 1)
  }

  /** Bytes from an address on in records of 32, the last one shorter. */
  function DataRecords(typ: nat, addr: nat, bytes: seq<Byte>): (rs: seq<Record>)
    requires 1 <= typ <= 3
    ensures forall r :: r in rs ==> IsRecord(r)
    decreases |bytes|
  {
    if bytes == [] then []
    else if |bytes| <= 32 then [Record(typ, Cut(typ, addr), bytes)]
    else [Record(typ, Cut(typ, addr), bytes[..32])] + DataRecords(typ, addr + 32, bytes[32..])
  }

  /** How many of these records start at an address that was cut. */
  function TooFar(typ: nat, addr: nat, bytes: seq<Byte>): nat
    requires 1 <= typ <= 3
    decreases |bytes|
  {
    if bytes == [] then 0
    else
      (if addr < Pow256(typ + 1) then 0 else 1) + if |bytes| <= 32 then 0 else TooFar(typ, addr + 32, bytes[32..])
  }

  /** The bytes that records hold, one after the other. */
  function DataOf(rs: seq<Record>): seq<Byte> {
    if rs == [] then [] else rs[0].data + DataOf(rs[1..])
  }

  /** Each record starts where the one before ends. */
  predicate Contiguous(rs: seq<Record>, addr: nat) {
    rs == [] || (rs[0].addr == addr && Contiguous(rs[1..], addr + |rs[0].data|))
  }

  /** The records hold exactly the bytes, and none holds more than 32 of them. They are
      contiguous from the address on if and only if no error is reported. */
  lemma {:induction false} RecordsHoldBytes(typ: nat, addr: nat, bytes: seq<Byte>)
    requires 1 <= typ <= 3
    ensures var rs := DataRecords(typ, addr, bytes);
      && DataOf(rs) == bytes
      && (Contiguous(rs, addr) <==> TooFar(typ, addr, bytes) == 0)
      && forall i :: 0 <= i < |rs| ==> rs[i].typ == typ && 0 < |rs[i].data| <= 32
    decreases |bytes|
  {
    var rs := DataRecords(typ, addr, bytes);
    hide Pow256;
    if bytes != [] {
      if |bytes| > 32 {
        RecordsHoldBytes(typ, addr + 32, bytes[32..]);
        assert rs[1..] == DataRecords(typ, addr + 32, bytes[32..]);
        assert bytes == bytes[..32] + bytes[32..];
      } else {
        assert rs[1..] == [];
      }
    }
  }

  /** No error is reported if and only if the last record starts at an address that fits. */
  lemma {:induction false} RecordsFit(typ: nat, addr: nat, bytes: seq<Byte>)
    requires 1 <= typ <= 3
    ensures TooFar(typ, addr, bytes) == 0 <==>
      bytes == [] || addr + (|bytes| - 1) / 32 * 32 < Pow256(typ + 1)
    decreases |bytes|
  {
    hide Pow256;
    if |bytes| > 32 {
      RecordsFit(typ, addr + 32, bytes[32..]);
    }
  }

  /** The name of a section, cut to 32 bytes. */
  function Header(name: seq<Byte>): (r: Record)
    ensures IsRecord(r)
  {
    Record(0, 0, if |name| < 32 then name else name[..32])
  }

  function Termination(typ: nat, start: nat): (r: Record)
    requires 1 <= typ <= 3
    ensures IsRecord(r)
  {
    Record(10 - typ, Cut(typ, start), [])
  }

  /** The records of the first k sections. */
  function SectionsRecords(typ: nat, cs: seq<Section>, k: nat): (rs: seq<Record>)
    requires k <= |cs| && 1 <= typ <= 3 && forall c :: c in cs ==> IsSection(c)
    ensures forall r :: r in rs ==> IsRecord(r)
  {
    if k == 0 then []
    else
      var c := cs[k - 1];
      assert c in cs;
      SectionsRecords(typ, cs, k - 1) + [Header(c.name)] + DataRecords(typ, c.org, Image(c, |c.atoms|))
  }

  /** The whole file; without sections nothing is written. */
  function FileRecords(typ: nat, cs: seq<Section>, start: nat): (rs: seq<Record>)
    requires 1 <= typ <= 3 && forall c :: c in cs ==> IsSection(c)
    ensures forall r :: r in rs ==> IsRecord(r)
  {
    if cs == [] then [] else SectionsRecords(typ, cs, |cs|) + [Termination(typ, start)]
  }

  /** The errors reported for the first k sections. */
  function SectionsErrors(typ: nat, cs: seq<Section>, k: nat): nat
    requires k <= |cs| && 1 <= typ <= 3 && forall c :: c in cs ==> IsSection(c)
  {
    if k == 0 then 0
    else
      var c := cs[k - 1];
      assert c in cs;
      SectionsErrors(typ, cs, k - 1) + TooFar(typ, c.org, Image(c, |c.atoms|))
  }

  /** The error for a start address that is cut. */
  function StartErrors(typ: nat, start: nat): nat {
    if start < Pow256(typ + 1) then 0 else 1
  }

  /** Nothing is reported if and only if the bytes of each section are read from its origin
      on, and the start address as it was given. */
  lemma {:induction false} NoErrorsMeansTrueAddresses(typ: nat, cs: seq<Section>, start: nat, k: nat)
    requires k <= |cs| && 1 <= typ <= 3 && forall c :: c in cs ==> IsSection(c)
    ensures SectionsErrors(typ, cs, k) + StartErrors(typ, start) == 0 <==>
      && Termination(typ, start).addr == start
      && forall i :: 0 <= i < k ==>
           Contiguous(DataRecords(typ, cs[i].org, Image(cs[i], |cs[i].atoms|)), cs[i].org)
  {
    hide Pow256, Image, DataRecords, TooFar;
    if k > 0 {
      NoErrorsMeansTrueAddresses(typ, cs, start, k - 1);
      var c := cs[k - 1];
      RecordsHoldBytes(typ, c.org, Image(c, |c.atoms|));
    }
  }

  lemma {:induction false} TextAppend(a: seq<Record>, b: seq<Record>)
    requires (forall r :: r in a ==> IsRecord(r)) && (forall r :: r in b ==> IsRecord(r))
    ensures forall r :: r in a + b ==> IsRecord(r)
    ensures RecordsText(a + b) == RecordsText(a) + RecordsText(b)
    decreases |a|
  {
    hide IsRecord, RecordText;
    if a == [] {
      assert a + b == b;
    } else {
      assert (a + b)[1..] == a[1..] + b;
      TextAppend(a[1..], b);
    }
  }

  // ----- the writer -----

  /** The text and the number of errors at some point. */
  datatype Point = Point(text: seq<Byte>, errors: nat)

  class Writer {
    const format: nat        // srecfmt
    var text: seq<Byte>
    const data: array<Byte>
    var dataSize: nat
    var srecPc: nat          // address of the record in the buffer
    var pc: nat              // address of the next byte
    var errors: nat          // reported addresses that did not fit

    constructor (format: nat)
      requires 1 <= format <= 3
      ensures this.format == format && text == [] && dataSize == 0 && errors == 0 && fresh(data) && data.Length == 32
    {
      this.format := format;
      text, dataSize, srecPc, pc, errors := [], 0, 0, 0, 0;
      data := new Byte[32];
    }

    ghost predicate Valid()
      reads this
    {
      1 <= format <= 3 && data.Length == 32 && dataSize <= 32
    }

    method WriteHexByte(x: Byte)
      modifies this`text
      ensures text == old(text) + HexText([x])
    {
      hide HexDigit;
      HexOne(x);
      text := text + [HexDigit(x / 16)];
      text := text + [HexDigit(x % 16)];
    }

    /** A byte of the record, also added to the checksum. */
    method WriteSummed(x: Byte, checksum: Byte, ghost done: seq<Byte>) returns (checksum': Byte)
      requires checksum == Sum(done) % 256
      modifies this`text
      ensures text == old(text) + HexText([x]) && checksum' == Sum(done + [x]) % 256
    {
      hide Sum;
      WriteHexByte(x);
      SumLast(done, x);
      SumStep(Sum(done), x);
      var c: int := checksum;
      checksum' := (c + x) % 256;
    }

    /** The start of the line up to the address. */
    method WriteAddress(digit: nat, typ: nat, addr: nat, count: Byte) returns (checksum: Byte, ghost done: seq<Byte>)
      requires typ <= 3 && digit <= 9
      modifies this`text
      ensures done == [count] + BigEndian(if typ == 0 then 0 else addr, AddressBytes(typ))
      ensures text == old(text) + [83, 48 + digit] + HexText(done) && checksum == Sum(done) % 256
    {
      hide Sum, HexText, BigEndian;
      NoBytes();
      AddressIs(addr);
      AddressIs(0);
      text := text + [83];
      text := text + [48 + digit];
      ghost var z := text;
      assert z == old(text) + [83, 48 + digit];
      done := [];
      assert z + HexText([]) == z;
      checksum := WriteSummed(count, 0, done);
      done := Grow(z, done, count);
      if typ > 2 {
        checksum := WriteSummed(addr / 0x100_0000 % 256, checksum, done);
        done := Grow(z, done, addr / 0x100_0000 % 256);
      }
      if typ > 1 {
        checksum := WriteSummed(addr / 0x1_0000 % 256, checksum, done);
        done := Grow(z, done, addr / 0x1_0000 % 256);
      }
      if typ > 0 {
        checksum := WriteSummed(addr / 0x100 % 256, checksum, done);
        done := Grow(z, done, addr / 0x100 % 256);
        checksum := WriteSummed(addr % 256, checksum, done);
        done := Grow(z, done, addr % 256);
      } else {
        checksum := WriteSummed(0, checksum, done);
        done := Grow(z, done, 0);
        checksum := WriteSummed(0, checksum, done);
        done := Grow(z, done, 0);
      }
    }

    /** write_data_buffer: the buffer as a record of this type. */
    method WriteDataBuffer(typ: nat)
      requires Valid() && typ <= 3
      modifies this`text, this`dataSize, this`srecPc, this`errors
      ensures Valid() && dataSize == 0 && srecPc == old(srecPc) + old(dataSize)
      ensures old(dataSize) == 0 && typ != 0 ==> text == old(text) && errors == old(errors)
      ensures old(dataSize) > 0 || typ == 0 ==>
        var r := Record(typ, if typ == 0 then 0 else Cut(typ, old(srecPc)), data[..old(dataSize)]);
        && IsRecord(r) && text == old(text) + RecordText(r)
        && errors == old(errors) + if typ == 0 then 0 else StartErrors(typ, old(srecPc))
    {
      if dataSize == 0 && typ != 0 {
        return;
      }
      if typ > 0 && srecPc >= Pow256(typ + 1) {
        errors := errors + 1;
      }
      hide Pow256, RecordText, IsRecord, Cut;
      WriteRecord(typ);
      srecPc := srecPc + dataSize;
      dataSize := 0;
    }

    method WriteRecord(typ: nat)
      requires Valid() && typ <= 3
      modifies this`text
      ensures var r := Record(typ, if typ == 0 then 0 else Cut(typ, srecPc), data[..dataSize]);
        IsRecord(r) && text == old(text) + RecordText(r)
    {
      hide Sum, HexText, BigEndian, Pow256, ValueOf, RecordText, Body, Checksum, IsRecord, Cut;
      var count: int := dataSize + AddressBytes(typ) + 1;
      ghost var z := text + [83, 48 + typ];
      var checksum, done := WriteAddress(typ, typ, srecPc, count);
      checksum, done := WriteBytes(checksum, done, z);
      WriteHexByte(255 - checksum);
      LineDone(z, done, checksum);
      text := text + [10];
      RecordDone(old(text), typ, if typ == 0 then 0 else srecPc, data[..dataSize], done);
    }

    method WriteBytes(checksum: Byte, ghost start: seq<Byte>, ghost z: seq<Byte>)
      returns (checksum': Byte, ghost done: seq<Byte>)
      requires Valid() && text == z + HexText(start) && checksum == Sum(start) % 256
      modifies this`text
      ensures done == start + data[..dataSize]
      ensures text == z + HexText(done) && checksum' == Sum(done) % 256
    {
      hide Sum, HexText;
      var i := 0;
      checksum', done := checksum, start;
      assert start + data[..0] == start;
      while i < dataSize
        invariant 0 <= i <= dataSize <= 32 && done == start + data[..i]
        invariant text == z + HexText(done) && checksum' == Sum(done) % 256
      {
        checksum' := WriteSummed(data[i], checksum', done);
        done := Grow(z, done, data[i]);
        assert start + data[..i] + [data[i]] == start + data[..i + 1];
        i := i + 1;
      }
    }

    /** The bytes put into a section so far: whole records are written, the rest is in
        the buffer. base is what was before them. */
    ghost predicate InSection(base: Point, org: nat, done: seq<Byte>)
      reads this, data
    {
      && Valid() && pc == org + |done| && dataSize == |done| % 32
      && var n := |done| - dataSize;
         && srecPc == org + n && data[..dataSize] == done[n..]
         && IsText(text, base.text, DataRecords(format, org, done[..n]))
         && errors == base.errors + TooFar(format, org, done[..n])
    }

    method PutByteInBuffer(x: Byte, ghost base: Point, ghost org: nat, ghost done: seq<Byte>)
      requires InSection(base, org, done)
      modifies this`text, this`dataSize, this`srecPc, this`pc, this`errors, data
      ensures InSection(base, org, done + [x])
    {
      hide DataRecords, IsText, RecordText, Pow256, TooFar, Cut;
      ghost var n := |done| - dataSize;
      data[dataSize] := x;
      dataSize := dataSize + 1;
      assert data[..dataSize] == done[n..] + [x] == (done + [x])[n..];
      assert (done + [x])[..n] == done[..n];
      ghost var before := text;
      if dataSize >= 32 {
        assert data[..32] == data[..dataSize];
        WriteDataBuffer(format);
        FullRecord(format, org, done, x, n);
        TextOf(base.text, before, text, DataRecords(format, org, done[..n]),
               Record(format, Cut(format, org + n), (done + [x])[n..]));
        assert (done + [x])[..|done| + 1] == done + [x];
      }
      pc := pc + 1;
    }

    method PutBytes(bytes: seq<Byte>, ghost base: Point, ghost org: nat, ghost done: seq<Byte>)
      requires InSection(base, org, done)
      modifies this`text, this`dataSize, this`srecPc, this`pc, this`errors, data
      ensures InSection(base, org, done + bytes)
    {
      hide InSection;
      var i := 0;
      assert done + bytes[..0] == done && bytes[..|bytes|] == bytes;
      while i < |bytes|
        invariant 0 <= i <= |bytes| && InSection(base, org, done + bytes[..i])
      {
        PutByteInBuffer(bytes[i], base, org, done + bytes[..i]);
        assert done + bytes[..i] + [bytes[i]] == done + bytes[..i + 1];
        i := i + 1;
      }
    }

    /** addralign: the bytes that align an atom. */
    method AddrAlign(a: Atom, pad: seq<Byte>, ghost base: Point, ghost org: nat, ghost done: seq<Byte>)
      requires InSection(base, org, done) && pad != [] && (a.Space? ==> a.fill != [])
      modifies this`text, this`dataSize, this`srecPc, this`pc, this`errors, data
      ensures InSection(base, org, done + VobjWriter.AlignBytes(a, pad, org + |done|))
    {
      hide Balign, DataRecords, IsText, VobjWriter.Padding, TooFar;
      var n := Balign(pc, a.align);
      if n == 0 {
        assert VobjWriter.AlignBytes(a, pad, pc) == [];
        assert done + [] == done;
        return;
      }
      var pat: seq<Byte>;
      if a.Space? && a.space == 0 {
        if a.maxAlign != 0 && n > a.maxAlign {
          assert done + [] == done;
          return;
        }
        pat := a.fill;
      } else {
        pat := pad;
      }
      PutPattern(n, pat, base, org, done);
    }

    method PutPattern(count: nat, pat: seq<Byte>, ghost base: Point, ghost org: nat, ghost done: seq<Byte>)
      requires InSection(base, org, done) && pat != []
      modifies this`text, this`dataSize, this`srecPc, this`pc, this`errors, data
      ensures InSection(base, org, done + VobjWriter.Padding(count, pat))
    {
      hide InSection, VobjWriter.IsParts, VobjWriter.Repeat, VobjWriter.Zeros;
      var n: nat := count;
      ghost var p, z: nat := |pat|, 0;
      ghost var q, r := VobjWriter.PartsOf(count, p);
      VobjWriter.NoZeros(pat);
      assert done + [] == done;
      while n % |pat| != 0
        invariant z <= r < p && VobjWriter.IsParts(n, q, p, r - z) && InSection(base, org, done + VobjWriter.Zeros(z))
        decreases r - z
      {
        VobjWriter.PartsRemainder(n, q, p, r - z);
        PutByteInBuffer(0, base, org, done + VobjWriter.Zeros(z));
        n := n - 1;
        VobjWriter.Append(done, VobjWriter.Zeros(z), [0]);
        z := z + 1;
        VobjWriter.MoreZeros(z);
      }
      VobjWriter.PartsRemainder(n, q, p, r - z);
      ghost var start, left := done + VobjWriter.Zeros(r), q;
      assert start + [] == start;
      while n >= |pat|
        invariant 0 <= left <= q && VobjWriter.IsParts(n, left, p, 0)
        invariant InSection(base, org, start + VobjWriter.Repeat(pat, q - left))
      {
        VobjWriter.PartsStep(n, left, p);
        VobjWriter.OneMore(pat, q - left);
        VobjWriter.Append(start, VobjWriter.Repeat(pat, q - left), pat);
        PutBytes(pat, base, org, start + VobjWriter.Repeat(pat, q - left));
        n := n - |pat|;
        left := left - 1;
      }
      VobjWriter.PartsEnd(n, left, p);
      VobjWriter.Append(done, VobjWriter.Zeros(r), VobjWriter.Repeat(pat, q));
    }

    method PutContent(a: Atom, ghost base: Point, ghost org: nat, ghost done: seq<Byte>)
      requires InSection(base, org, done)
      modifies this`text, this`dataSize, this`srecPc, this`pc, this`errors, data
      ensures InSection(base, org, done + VobjWriter.Content(a))
    {
      hide InSection;
      match a
      case Data(_, bytes, _) =>
        PutBytes(bytes, base, org, done);
      case Space(_, space, fill, _, _) =>
        var i := 0;
        assert done + [] == done;
        while i < space
          invariant 0 <= i <= space && InSection(base, org, done + VobjWriter.Repeat(fill, i))
        {
          VobjWriter.Append(done, VobjWriter.Repeat(fill, i), fill);
          PutBytes(fill, base, org, done + VobjWriter.Repeat(fill, i));
          i := i + 1;
        }
      case Marker(_) =>
        assert done + [] == done;
    }

    method PutAtoms(c: Section, ghost base: Point)
      requires IsSection(c) && InSection(base, c.org, [])
      modifies this`text, this`dataSize, this`srecPc, this`pc, this`errors, data
      ensures InSection(base, c.org, Image(c, |c.atoms|))
    {
      hide InSection, VobjWriter.AlignBytes, VobjWriter.Content;
      var k := 0;
      while k < |c.atoms|
        invariant 0 <= k <= |c.atoms| && InSection(base, c.org, Image(c, k))
      {
        var a := c.atoms[k];
        assert a in c.atoms;
        ghost var done := Image(c, k);
        AddrAlign(a, c.pad, base, c.org, done);
        PutContent(a, base, c.org, done + VobjWriter.AlignBytes(a, c.pad, c.org + |done|));
        k := k + 1;
      }
    }

    /** The name of a section in the buffer, cut to 32 bytes. */
    method LoadName(name: seq<Byte>)
      requires Valid()
      modifies this`dataSize, data
      ensures Valid() && data[..dataSize] == Header(name).data
    {
      dataSize := 0;
      while dataSize < |name| && dataSize < 32
        invariant 0 <= dataSize <= |name| && dataSize <= 32 && data[..dataSize] == name[..dataSize]
        decreases |name| - dataSize
      {
        data[dataSize] := name[dataSize];
        dataSize := dataSize + 1;
      }
    }

    /** A section: its header, and its bytes in records. */
    method WriteSection(c: Section)
      requires Valid() && IsSection(c)
      modifies this`text, this`dataSize, this`srecPc, this`pc, this`errors, data
      ensures Valid() && dataSize == 0
      ensures IsText(text, old(text), [Header(c.name)] + DataRecords(format, c.org, Image(c, |c.atoms|)))
      ensures errors == old(errors) + TooFar(format, c.org, Image(c, |c.atoms|))
    {
      hide IsRecord, RecordText, DataRecords, Image, RecordsText, IsText, Pow256, TooFar, Cut;
      ghost var bytes := Image(c, |c.atoms|);
      LoadName(c.name);
      WriteDataBuffer(0);
      pc := c.org;
      srecPc := pc;
      ghost var base := Point(text, errors);
      NoRecordsYet(format, c.org, text);
      PutAtoms(c, base);
      ghost var before, n := text, |bytes| - dataSize;
      WriteDataBuffer(format);
      LastRecord(format, c.org, bytes, n, base.text, before, text);
      HeaderFirst(old(text), base.text, text, Header(c.name), DataRecords(format, c.org, bytes));
    }

    /** write_termination_record: the start address. */
    method WriteTerminationRecord(start: nat)
      requires Valid()
      modifies this`text, this`errors
      ensures Valid()
      ensures text == old(text) + RecordText(Termination(format, start))
      ensures errors == old(errors) + StartErrors(format, start)
    {
      if start >= Pow256(format + 1) {
        errors := errors + 1;
      }
      hide Sum, HexText, BigEndian, Pow256, ValueOf;
      ghost var z := text + [83, 48 + (10 - format)];
      var checksum, done := WriteAddress(10 - format, format, start, format + 2);
      WriteHexByte(255 - checksum);
      LineDone(z, done, checksum);
      text := text + [10];
      TerminationDone(old(text), format, start, done);
    }

    /** The whole file. */
    method WriteOutput(cs: seq<Section>, start: nat)
      requires Valid() && text == [] && dataSize == 0 && errors == 0
      requires forall c :: c in cs ==> IsSection(c)
      modifies this`text, this`dataSize, this`srecPc, this`pc, this`errors, data
      ensures IsText(text, [], FileRecords(format, cs, start))
      ensures errors == if cs == [] then 0 else SectionsErrors(format, cs, |cs|) + StartErrors(format, start)
    {
      hide IsRecord, RecordText, DataRecords, Image, RecordsText, IsText, Pow256, IsSection, TooFar, Cut;
      var k := 0;
      assert IsText(text, [], []) by { NothingWritten(); }
      if cs == [] {
        return;
      }
      while k < |cs|
        invariant 0 <= k <= |cs| && Valid() && dataSize == 0
        invariant IsText(text, [], SectionsRecords(format, cs, k)) && errors == SectionsErrors(format, cs, k)
      {
        assert cs[k] in cs;
        ghost var before := text;
        WriteSection(cs[k]);
        MoreRecords(before, text, SectionsRecords(format, cs, k), Header(cs[k].name),
          DataRecords(format, cs[k].org, Image(cs[k], |cs[k].atoms|)));
        k := k + 1;
      }
      ghost var before := text;
      WriteTerminationRecord(start);
      TextOf([], before, text, SectionsRecords(format, cs, |cs|), Termination(format, start));
    }
  }

  lemma NothingWritten()
    ensures IsText([], [], [])
  {
  }

  lemma NoRecordsYet(typ: nat, org: nat, text: seq<Byte>)
    requires 1 <= typ <= 3
    ensures DataRecords(typ, org, []) == [] && IsText(text, text, []) && TooFar(typ, org, []) == 0
  {
  }

  /** The last record of a section. */
  lemma LastRecord(typ: nat, org: nat, bytes: seq<Byte>, n: nat, base: seq<Byte>, before: seq<Byte>, now: seq<Byte>)
    requires 1 <= typ <= 3 && n <= |bytes| && n % 32 == 0 && |bytes| - n < 32
    requires IsText(before, base, DataRecords(typ, org, bytes[..n]))
    requires if n == |bytes| then now == before
      else
        var r := Record(typ, Cut(typ, org + n), bytes[n..]);
        IsRecord(r) && now == before + RecordText(r)
    ensures IsText(now, base, DataRecords(typ, org, bytes))
    ensures TooFar(typ, org, bytes) ==
      TooFar(typ, org, bytes[..n]) + if n == |bytes| then 0 else StartErrors(typ, org + n)
  {
    hide IsText, RecordText, Cut, Pow256;
    if n == |bytes| {
      assert bytes[..n] == bytes;
    } else {
      assert bytes == bytes[..n] + bytes[n..];
      RecordsJoin(typ, org, bytes[..n], bytes[n..]);
      assert DataRecords(typ, org + n, bytes[n..]) == [Record(typ, Cut(typ, org + n), bytes[n..])];
      TextOf(base, before, now, DataRecords(typ, org, bytes[..n]), Record(typ, Cut(typ, org + n), bytes[n..]));
    }
  }

  lemma HeaderFirst(start: seq<Byte>, base: seq<Byte>, now: seq<Byte>, h: Record, rs: seq<Record>)
    requires IsRecord(h) && base == start + RecordText(h) && IsText(now, base, rs)
    ensures IsText(now, start, [h] + rs)
  {
    hide IsRecord, RecordText;
    assert ([h] + rs)[1..] == rs;
    assert start + RecordText(h) + RecordsText(rs) == start + (RecordText(h) + RecordsText(rs));
  }

  lemma MoreRecords(before: seq<Byte>, now: seq<Byte>, rs: seq<Record>, h: Record, more: seq<Record>)
    requires IsText(before, [], rs) && IsText(now, before, [h] + more)
    ensures IsText(now, [], rs + [h] + more)
  {
    hide IsRecord, RecordText;
    TextAppend(rs, [h] + more);
    assert rs + ([h] + more) == rs + [h] + more;
  }

  lemma TerminationDone(before: seq<Byte>, format: nat, start: nat, done: seq<Byte>)
    requires 1 <= format <= 3 && done == [format + 2] + BigEndian(start, AddressBytes(format))
    ensures before + [83, 48 + (10 - format)] + HexText(done + [Checksum(done)]) + [10] ==
      before + RecordText(Termination(format, start))
  {
    hide Sum, HexText, BigEndian, Checksum, Pow256;
    CutSame(start, AddressBytes(format));
    var r := Termination(format, start);
    assert done == Body(r);
    hide Body;
    assert before + [83, 48 + r.typ] + HexText(done + [Checksum(done)]) + [10] ==
      before + ([83, 48 + r.typ] + HexText(done + [Checksum(done)]) + [10]);
  }

  /** The file is read as the headers, the bytes of each section in records, and the start
      address. The addresses in them are the right ones if and only if no error was
      reported. */
  method WriteAndRead(format: nat, cs: seq<Section>, start: nat) returns (rs: Option<seq<Record>>, errors: nat)
    requires 1 <= format <= 3 && forall c :: c in cs ==> IsSection(c)
    ensures rs == Some(FileRecords(format, cs, start))
    ensures cs != [] ==> (errors == 0 <==>
      && Termination(format, start).addr == start
      && forall i :: 0 <= i < |cs| ==>
           Contiguous(DataRecords(format, cs[i].org, Image(cs[i], |cs[i].atoms|)), cs[i].org))
  {
    hide Pow256, Image, DataRecords, TooFar, Contiguous, Termination, FileRecords;
    NoErrorsMeansTrueAddresses(format, cs, start, |cs|);
    var w := new Writer(format);
    w.WriteOutput(cs, start);
    var records := FileRecords(format, cs, start);
    assert [] + RecordsText(records) == RecordsText(records);
    assert w.text[0..] == w.text;
    RecordsRoundTrip(w.text, 0, records);
    rs, errors := ReadRecords(w.text, 0), w.errors;
  }

  /** The text after base is that of these records. */
  ghost predicate IsText(text: seq<Byte>, base: seq<Byte>, rs: seq<Record>) {
    (forall r :: r in rs ==> IsRecord(r)) && text == base + RecordsText(rs)
  }

  lemma {:induction false} RecordsJoin(typ: nat, org: nat, a: seq<Byte>, b: seq<Byte>)
    requires 1 <= typ <= 3 && |a| % 32 == 0
    ensures DataRecords(typ, org, a + b) == DataRecords(typ, org, a) + DataRecords(typ, org + |a|, b)
    ensures TooFar(typ, org, a + b) == TooFar(typ, org, a) + TooFar(typ, org + |a|, b)
    decreases |a|
  {
    hide Cut, Pow256;
    if a == [] {
      assert a + b == b;
    } else {
      assert (a + b)[..32] == a[..32] && (a + b)[32..] == a[32..] + b;
      RecordsJoin(typ, org + 32, a[32..], b);
      if |a| == 32 {
        assert a[32..] == [] && a[..32] == a;
        if b == [] {
          assert a + b == a;
        }
      }
    }
  }

  lemma FullRecord(typ: nat, org: nat, done: seq<Byte>, x: Byte, n: nat)
    requires 1 <= typ <= 3 && n <= |done| && n % 32 == 0 && |done| + 1 - n == 32
    ensures DataRecords(typ, org, done + [x]) ==
      DataRecords(typ, org, done[..n]) + [Record(typ, Cut(typ, org + n), (done + [x])[n..])]
    ensures TooFar(typ, org, done + [x]) == TooFar(typ, org, done[..n]) + StartErrors(typ, org + n)
  {
    hide Cut, Pow256;
    var all := done + [x];
    assert all == done[..n] + all[n..];
    RecordsJoin(typ, org, done[..n], all[n..]);
  }

  lemma TextOf(base: seq<Byte>, before: seq<Byte>, now: seq<Byte>, rs: seq<Record>, r: Record)
    requires IsText(before, base, rs) && IsRecord(r) && now == before + RecordText(r)
    ensures IsText(now, base, rs + [r])
  {
    hide RecordText, IsRecord;
    TextAppend(rs, [r]);
    assert RecordsText([r]) == RecordText(r) + RecordsText([r][1..]);
    assert base + RecordsText(rs) + RecordText(r) == base + (RecordsText(rs) + RecordText(r));
  }

  lemma LineDone(z: seq<Byte>, done: seq<Byte>, checksum: Byte)
    requires checksum == Sum(done) % 256
    ensures z + HexText(done) + HexText([255 - checksum]) == z + HexText(done + [Checksum(done)])
  {
    hide Sum, HexText;
    HexAppend(done, [255 - checksum]);
    assert z + HexText(done) + HexText([255 - checksum]) == z + (HexText(done) + HexText([255 - checksum]));
  }

  lemma RecordDone(before: seq<Byte>, typ: nat, addr: nat, data: seq<Byte>, done: seq<Byte>)
    requires typ <= 3 && |data| <= 32 && (typ == 0 ==> addr == 0)
    requires done == [|data| + AddressBytes(typ) + 1] + BigEndian(addr, AddressBytes(typ)) + data
    ensures var r := Record(typ, if typ == 0 then 0 else Cut(typ, addr), data);
      && IsRecord(r)
      && before + [83, 48 + typ] + HexText(done + [Checksum(done)]) + [10] == before + RecordText(r)
  {
    hide Sum, HexText, BigEndian, Checksum, Pow256;
    PowPositive();
    CutSame(addr, AddressBytes(typ));
    var r := Record(typ, if typ == 0 then 0 else Cut(typ, addr), data);
    assert done == Body(r);
    hide Body;
    assert before + [83, 48 + typ] + HexText(done + [Checksum(done)]) + [10] ==
      before + ([83, 48 + typ] + HexText(done + [Checksum(done)]) + [10]);
  }

  /** The bytes of an address are those of the part for which there is room. */
  lemma {:induction false} CutSame(x: nat, n: nat)
    ensures BigEndian(x % Pow256(n), n) == BigEndian(x, n)
  {
    if n > 0 {
      CutSame(x / 256, n - 1);
      LowBytes(x, Pow256(n - 1));
    }
  }

  lemma LowBytes(x: nat, p: nat)
    requires p > 0
    ensures 256 * p > 0 && x % (256 * p) / 256 == x / 256 % p && x % (256 * p) % 256 == x % 256
  {
    var y := x / 256;
    var q, r := y / p, y % p;
    MulAssoc(q, 256, p);
    Swap(q, p, 256);
    Distribute(q * p, r, 256);
    DivModUnique(x, 256 * p, q, 256 * r + x % 256);
  }

  lemma NoBytes()
    ensures HexText([]) == [] && Sum([]) == 0
  {
  }

  lemma PowPositive()
    ensures Pow256(2) > 0
  {
  }

  /** The text of one byte more. */
  lemma Grow(z: seq<Byte>, done: seq<Byte>, x: Byte) returns (done': seq<Byte>)
    ensures done' == done + [x] && z + HexText(done) + HexText([x]) == z + HexText(done')
  {
    done' := done + [x];
    HexAppend(done, [x]);
    assert z + HexText(done) + HexText([x]) == z + (HexText(done) + HexText([x]));
  }

  lemma AddressIs(x: nat)
    ensures BigEndian(x, 2) == [x / 0x100 % 256, x % 256]
    ensures BigEndian(x, 3) == [x / 0x1_0000 % 256, x / 0x100 % 256, x % 256]
    ensures BigEndian(x, 4) == [x / 0x100_0000 % 256, x / 0x1_0000 % 256, x / 0x100 % 256, x % 256]
  {
    var a := x / 256;
    var b := a / 256;
    var c := b / 256;
    assert b == x / 0x1_0000 && c == x / 0x100_0000;
    assert BigEndian(c, 0) == [] && BigEndian(b, 0) == [] && BigEndian(a, 0) == [];
    assert BigEndian(c, 1) == [c % 256] && BigEndian(b, 1) == [b % 256] && BigEndian(a, 1) == [a % 256];
    assert BigEndian(b, 2) == BigEndian(c, 1) + [b % 256] && BigEndian(a, 2) == BigEndian(b, 1) + [a % 256];
    assert BigEndian(a, 3) == BigEndian(b, 2) + [a % 256];
  }

  lemma HexOne(x: Byte)
    ensures HexText([x]) == [HexDigit(x / 16), HexDigit(x % 16)]
  {
    assert [x][..0] == [];
  }

  lemma SumStep(n: nat, x: Byte)
    ensures var c: int := n % 256; (c + x) % 256 == (n + x) % 256
  {
  }
}
