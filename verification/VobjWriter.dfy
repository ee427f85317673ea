/** The VOBJ output module, c/vasm/output_vobj.c. */
module VobjWriter {
  import opened Alignment
  import opened Arithmetic
  import opened Bytes
  import opened Options
  import opened Vobj

  // ----- what the assembler hands over -----

  datatype SourceReloc = SourceReloc(typ: int, byteoffset: int, bitoffset: int, size: int, mask: int, addend: int,
                                     sym: nat)

  datatype Atom =
    | Data(align: nat, bytes: seq<Byte>, relocs: seq<SourceReloc>)
    | Space(align: nat, space: nat, fill: seq<Byte>, relocs: seq<SourceReloc>, maxAlign: nat)
    | Marker(align: nat)

  datatype SourceSection = SourceSection(name: seq<Byte>, attr: seq<Byte>, flags: int, align: int, atoms: seq<Atom>,
                                         pad: seq<Byte>)

  /** intern: a symbol of the assembler itself; idx: the index of an earlier output. */
  datatype SourceSymbol = SourceSymbol(name: seq<Byte>, typ: int, flags: int, intern: bool, sec: Option<nat>,
                                       val: int, size: int, idx: nat)

  datatype Source = Source(endian: Byte, bpt: int, cpu: seq<Byte>, symbols: seq<SourceSymbol>,
                           sections: seq<SourceSection>)

  // ----- positions and contents -----

  /** The address of an atom; only space may limit how far it is moved. */
  function AtomPc(a: Atom, pc: nat): nat {
    PcAlign(pc, a.align, if a.Space? then a.maxAlign else 0)
  }

  function AtomSize(a: Atom): nat {
    match a
    case Data(_, bytes, _) => |bytes|
    case Space(_, space, fill, _, _) => |fill| * space
    case Marker(_) => 0
  }

  /** The address behind the first k atoms. */
  function EndPc(atoms: seq<Atom>, k: nat): nat
    requires k <= |atoms|
  {
    if k == 0 then 0 else AtomPc(atoms[k - 1], EndPc(atoms, k - 1)) + AtomSize(atoms[k - 1])
  }

  /** The atoms that have to be in the file. */
  predicate HasContent(a: Atom) {
    a.Data? || (a.Space? && (a.relocs != [] || exists i :: 0 <= i < |a.fill| && a.fill[i] != 0))
  }

  /** The end of the last of them. */
  function DataEnd(atoms: seq<Atom>, k: nat): nat
    requires k <= |atoms|
  {
    if k == 0 then 0 else if HasContent(atoms[k - 1]) then EndPc(atoms, k) else DataEnd(atoms, k - 1)
  }

  function Repeat(s: seq<Byte>, n: nat): (r: seq<Byte>)
    ensures |r| == |s| * n
  {
    if n == 0 then [] else Repeat(s, n - 1) + s
  }

  function Zeros(n: nat): seq<Byte> {
    seq(n, i => 0)
  }

  /** Bytes for an alignment: zeros until the pattern fits, then the pattern. */
  function Padding(n: nat, pat: seq<Byte>): (r: seq<Byte>)
    requires pat != []
    ensures |r| == n
  {
    Zeros(n % |pat|) + Repeat(pat, n / |pat|)
  }

  /** Whether the writer of alignments leaves out this one. */
  predicate SkipsAlignment(a: Atom, n: nat) {
    a.Space? && a.space == 0 && a.maxAlign != 0 && n > a.maxAlign
  }

  function AlignBytes(a: Atom, pad: seq<Byte>, pc: nat): seq<Byte>
    requires pad != [] && (a.Space? ==> a.fill != [])
  {
    var n := Balign(pc, a.align);
    if SkipsAlignment(a, n) then [] else Padding(n, if a.Space? && a.space == 0 then a.fill else pad)
  }

  function Content(a: Atom): (r: seq<Byte>)
    ensures |r| == AtomSize(a)
  {
    match a
    case Data(_, bytes, _) => bytes
    case Space(_, space, fill, _, _) => Repeat(fill, space)
    case Marker(_) => []
  }

  /** A limit on the alignment bytes occurs in alignment atoms only, and patterns are
      not empty. */
  predicate IsAtom(a: Atom) {
    a.Space? ==> a.fill != [] && (a.maxAlign != 0 ==> a.space == 0)
  }

  predicate IsSection(c: SourceSection) {
    c.pad != [] && forall a :: a in c.atoms ==> IsAtom(a)
  }

  /** The alignment that is computed and the one that is written agree, for atoms in
      general, exactly if no limit stops the computed one alone. */
  lemma AlignmentsAgree(a: Atom, pad: seq<Byte>, pc: nat)
    requires pad != [] && (a.Space? ==> a.fill != [])
    ensures pc + |AlignBytes(a, pad, pc)| == AtomPc(a, pc) <==>
      !(a.Space? && a.maxAlign != 0 && a.space != 0 && Balign(pc, a.align) > a.maxAlign)
    ensures IsAtom(a) ==> pc + |AlignBytes(a, pad, pc)| == AtomPc(a, pc)
  {
  }

  /** The bytes of the first k atoms. */
  function Image(c: SourceSection, k: nat): (r: seq<Byte>)
    requires IsSection(c) && k <= |c.atoms|
    ensures |r| == EndPc(c.atoms, k)
  {
    hide AlignBytes, Content, AtomPc, AtomSize, Balign, HasContent;
    if k == 0 then []
    else
      var a := c.atoms[k - 1];
      var before := Image(c, k - 1);
      assert a in c.atoms && IsAtom(a);
      AlignmentsAgree(a, c.pad, |before|);
      before + AlignBytes(a, c.pad, |before|) + Content(a)
  }

  lemma {:induction false} EndPcGrows(atoms: seq<Atom>, j: nat, k: nat)
    requires j <= k <= |atoms|
    ensures EndPc(atoms, j) <= EndPc(atoms, k)
    decreases k - j
  {
    if j < k {
      EndPcGrows(atoms, j, k - 1);
    }
  }

  lemma {:induction false} ImageGrows(c: SourceSection, j: nat, k: nat)
    requires IsSection(c) && j <= k <= |c.atoms|
    ensures EndPc(c.atoms, j) <= EndPc(c.atoms, k) && Image(c, j) == Image(c, k)[..EndPc(c.atoms, j)]
    decreases k - j
  {
    hide AlignBytes, Content, AtomPc, AtomSize, Balign, HasContent;
    if j < k {
      ImageGrows(c, j, k - 1);
      EndPcGrows(c.atoms, j, k);
      EndPcGrows(c.atoms, j, k - 1);
      assert Image(c, k - 1) <= Image(c, k);
    }
  }

  /** The data end is the end of some atom. */
  lemma {:induction false} DataEndIsEnd(atoms: seq<Atom>, k: nat) returns (j: nat)
    requires k <= |atoms|
    ensures j <= k && DataEnd(atoms, k) == EndPc(atoms, j)
    ensures forall i :: j <= i < k ==> !HasContent(atoms[i])
    decreases k
  {
    if k == 0 {
      j := 0;
    } else if HasContent(atoms[k - 1]) {
      j := k;
    } else {
      j := DataEndIsEnd(atoms, k - 1);
    }
  }

  /** The bytes of a section that go into the file. */
  function FileData(c: SourceSection): seq<Byte>
    requires IsSection(c)
  {
    var n := |c.atoms|;
    DataEndInside(c.atoms, n);
    Image(c, n)[..DataEnd(c.atoms, n)]
  }

  lemma DataEndInside(atoms: seq<Atom>, k: nat)
    requires k <= |atoms|
    ensures DataEnd(atoms, k) <= EndPc(atoms, k)
  {
    var j := DataEndIsEnd(atoms, k);
    EndPcGrows(atoms, j, k);
  }

  ghost predicate AllZero(s: seq<Byte>) {
    forall i :: 0 <= i < |s| ==> s[i] == 0
  }

  lemma {:induction false} RepeatZero(s: seq<Byte>, n: nat)
    requires AllZero(s)
    ensures AllZero(Repeat(s, n))
  {
    if n > 0 {
      RepeatZero(s, n - 1);
    }
  }

  /** What is left out is zero, if the section is padded with zeros. */
  lemma {:induction false} RestIsZero(c: SourceSection, j: nat, k: nat)
    requires IsSection(c) && AllZero(c.pad) && j <= k <= |c.atoms|
    requires forall i :: j <= i < k ==> !HasContent(c.atoms[i])
    ensures EndPc(c.atoms, j) <= EndPc(c.atoms, k)
    ensures AllZero(Image(c, k)[EndPc(c.atoms, j)..])
    decreases k - j
  {
    hide AlignBytes, Content, AtomPc, AtomSize, Balign, HasContent, AllZero;
    EndPcGrows(c.atoms, j, k);
    if j < k {
      RestIsZero(c, j, k - 1);
      EndPcGrows(c.atoms, j, k - 1);
      var a, before := c.atoms[k - 1], Image(c, k - 1);
      assert a in c.atoms;
      AtomIsZero(a, c.pad, |before|);
      var e := EndPc(c.atoms, j);
      assert Image(c, k)[e..] == before[e..] + AlignBytes(a, c.pad, |before|) + Content(a);
      JoinZeros(before[e..], AlignBytes(a, c.pad, |before|), Content(a));
    } else {
      assert Image(c, k)[EndPc(c.atoms, j)..] == [];
      JoinZeros([], [], []);
    }
  }

  lemma JoinZeros(a: seq<Byte>, b: seq<Byte>, c: seq<Byte>)
    ensures AllZero([])
    ensures AllZero(a) && AllZero(b) && AllZero(c) ==> AllZero(a + b + c)
  {
  }

  lemma AtomIsZero(a: Atom, pad: seq<Byte>, pc: nat)
    requires IsAtom(a) && pad != [] && AllZero(pad) && !HasContent(a)
    ensures AllZero(AlignBytes(a, pad, pc)) && AllZero(Content(a))
  {
    hide Balign, Repeat;
    var n := Balign(pc, a.align);
    if a.Space? {
      assert AllZero(a.fill);
      RepeatZero(a.fill, a.space);
      PaddingZero(n, a.fill);
    }
    PaddingZero(n, pad);
  }

  lemma PaddingZero(n: nat, pat: seq<Byte>)
    requires pat != [] && AllZero(pat)
    ensures AllZero(Padding(n, pat))
  {
    RepeatZero(pat, n / |pat|);
  }

  lemma FileDataIsAllThatMatters(c: SourceSection)
    requires IsSection(c) && AllZero(c.pad)
    ensures FileData(c) <= Image(c, |c.atoms|)
    ensures AllZero(Image(c, |c.atoms|)[|FileData(c)|..])
  {
    var n := |c.atoms|;
    DataEndInside(c.atoms, n);
    var j := DataEndIsEnd(c.atoms, n);
    RestIsZero(c, j, n);
  }

  // ----- the object that the file describes -----

  /** " *current pc dummy*" */
  const CURRENT_PC: seq<Byte> :=
    [32, 42, 99, 117, 114, 114, 101, 110, 116, 32, 112, 99, 32, 100, 117, 109, 109, 121, 42]

  predicate SymValid(y: SourceSymbol) {
    y.intern ==> y.name == CURRENT_PC
  }

  /** The number of valid ones among the first k symbols. */
  function Numbered(ys: seq<SourceSymbol>, k: nat): nat
    requires k <= |ys|
  {
    if k == 0 then 0 else Numbered(ys, k - 1) + if SymValid(ys[k - 1]) then 1 else 0
  }

  function Index(ys: seq<SourceSymbol>, i: nat): nat
    requires i < |ys|
  {
    if SymValid(ys[i]) then Numbered(ys, i) + 1 else ys[i].idx
  }

  function LinkedSymbol(y: SourceSymbol): Symbol {
    Symbol(y.name, y.typ, y.flags, if y.sec.None? then 0 else y.sec.value + 1, y.val, y.size)
  }

  function LinkedSymbols(ys: seq<SourceSymbol>, k: nat): (r: seq<Symbol>)
    requires k <= |ys|
    ensures |r| == Numbered(ys, k)
  {
    if k == 0 then []
    else
      var before := LinkedSymbols(ys, k - 1);
      if SymValid(ys[k - 1]) then before + [LinkedSymbol(ys[k - 1])] else before
  }

  /** Symbol indices point to the symbols they stand for, counted from 1. */
  lemma {:induction false} IndexIsPosition(ys: seq<SourceSymbol>, i: nat, k: nat)
    requires i < k <= |ys| && SymValid(ys[i])
    ensures 1 <= Index(ys, i) <= Numbered(ys, k)
    ensures LinkedSymbols(ys, k)[Index(ys, i) - 1] == LinkedSymbol(ys[i])
    decreases k
  {
    if i < k - 1 {
      IndexIsPosition(ys, i, k - 1);
    }
  }

  predicate InStandardRange(typ: int) {
    0 <= typ <= LAST_STANDARD_RELOC
  }

  function AtomRelocs(a: Atom): seq<SourceReloc> {
    if a.Marker? then [] else a.relocs
  }

  predicate RelocsInside(rs: seq<SourceReloc>, n: nat) {
    forall i :: 0 <= i < |rs| ==> rs[i].sym < n
  }

  predicate IsSource(s: Source) {
    && (forall c :: c in s.sections ==>
          IsSection(c) && forall a :: a in c.atoms ==> RelocsInside(AtomRelocs(a), |s.symbols|))
    && 0 <= s.bpt < 128
  }

  function LinkedReloc(r: SourceReloc, pc: nat, ys: seq<SourceSymbol>): Reloc
    requires r.sym < |ys|
  {
    Standard(r.typ, pc + r.byteoffset, r.bitoffset, r.size, r.mask, r.addend, Index(ys, r.sym))
  }

  /** The standard ones among the first k relocations of an atom at address pc. */
  function LinkedRelocs(rs: seq<SourceReloc>, k: nat, pc: nat, ys: seq<SourceSymbol>): (r: seq<Reloc>)
    requires k <= |rs| && RelocsInside(rs, |ys|)
    ensures |r| <= k
  {
    if k == 0 then []
    else
      var before := LinkedRelocs(rs, k - 1, pc, ys);
      if InStandardRange(rs[k - 1].typ) then before + [LinkedReloc(rs[k - 1], pc, ys)] else before
  }

  /** The relocations of the first k atoms. */
  function SectionRelocs(atoms: seq<Atom>, k: nat, ys: seq<SourceSymbol>): seq<Reloc>
    requires k <= |atoms| && forall a :: a in atoms ==> RelocsInside(AtomRelocs(a), |ys|)
  {
    if k == 0 then []
    else
      var a := atoms[k - 1];
      var more := LinkedRelocs(AtomRelocs(a), |AtomRelocs(a)|, AtomPc(a, EndPc(atoms, k - 1)), ys);
      SectionRelocs(atoms, k - 1, ys) + more
  }

  function LinkedSection(c: SourceSection, ys: seq<SourceSymbol>): Section
    requires IsSection(c) && forall a :: a in c.atoms ==> RelocsInside(AtomRelocs(a), |ys|)
  {
    Section(c.name, c.attr, c.flags, c.align, EndPc(c.atoms, |c.atoms|), FileData(c),
      SectionRelocs(c.atoms, |c.atoms|, ys))
  }

  function LinkedSections(cs: seq<SourceSection>, k: nat, ys: seq<SourceSymbol>): (r: seq<Section>)
    requires k <= |cs|
    requires forall c :: c in cs ==> IsSection(c) && forall a :: a in c.atoms ==> RelocsInside(AtomRelocs(a), |ys|)
    ensures |r| == k
  {
    if k == 0 then [] else LinkedSections(cs, k - 1, ys) + [LinkedSection(cs[k - 1], ys)]
  }

  function LinkedObject(s: Source): Object
    requires IsSource(s)
  {
    Object(s.endian, s.bpt, s.cpu, LinkedSymbols(s.symbols, |s.symbols|),
      LinkedSections(s.sections, |s.sections|, s.symbols))
  }

  // ----- lists that grow at the end -----

  lemma {:induction false} SymbolsSnoc(ys: seq<Symbol>, y: Symbol, bpt: nat)
    requires bpt < 128
    ensures SymbolsBytes(ys + [y], bpt) == SymbolsBytes(ys, bpt) + SymbolBytes(y, bpt)
    decreases |ys|
  {
    hide SymbolBytes;
    if ys == [] {
      assert [y][1..] == [];
    } else {
      assert (ys + [y])[1..] == ys[1..] + [y];
      SymbolsSnoc(ys[1..], y, bpt);
    }
  }

  lemma {:induction false} RelocsSnoc(rs: seq<Reloc>, r: Reloc, bpt: nat)
    requires bpt < 128
    ensures RelocsBytes(rs + [r], bpt) == RelocsBytes(rs, bpt) + RelocBytes(r, bpt)
    decreases |rs|
  {
    hide RelocBytes;
    if rs == [] {
      assert [r][1..] == [];
    } else {
      assert (rs + [r])[1..] == rs[1..] + [r];
      RelocsSnoc(rs[1..], r, bpt);
    }
  }

  lemma {:induction false} RelocsJoin(rs: seq<Reloc>, ts: seq<Reloc>, bpt: nat)
    requires bpt < 128
    ensures RelocsBytes(rs + ts, bpt) == RelocsBytes(rs, bpt) + RelocsBytes(ts, bpt)
    decreases |rs|
  {
    hide RelocBytes;
    if rs == [] {
      assert rs + ts == ts;
    } else {
      assert (rs + ts)[1..] == rs[1..] + ts;
      RelocsJoin(rs[1..], ts, bpt);
    }
  }

  lemma {:induction false} SectionsSnoc(cs: seq<Section>, c: Section, bpt: nat)
    requires bpt < 128
    ensures SectionsBytes(cs + [c], bpt) == SectionsBytes(cs, bpt) + SectionBytes(c, bpt)
    decreases |cs|
  {
    hide SectionBytes;
    if cs == [] {
      assert [c][1..] == [];
    } else {
      assert (cs + [c])[1..] == cs[1..] + [c];
      SectionsSnoc(cs[1..], c, bpt);
    }
  }

  // ----- the writer -----

  class Writer {
    const bpt: nat
    var file: seq<Byte>
    var pc: nat  // the address counter of the section at hand

    constructor (bpt: nat)
      ensures this.bpt == bpt && file == []
    {
      this.bpt := bpt;
      file, pc := [], 0;
    }

    method Fw8(x: Byte)
      modifies this`file
      ensures file == old(file) + [x]
    {
      file := file + [x];
    }

    method WriteNumber(val: int)
      requires bpt < 128
      modifies this`file
      ensures file == old(file) + NumberBytes(val, bpt)
    {
      if 0 <= val <= 127 {
        Fw8(val);
        return;
      }
      Fw8(0x80 + bpt);
      var i, v := bpt, val;
      ghost var z, done: seq<Byte> := file, [];
      assert [] + LittleEndian(val, bpt) == LittleEndian(val, bpt);
      while i > 0
        invariant 0 <= i <= bpt
        invariant file == z + done && done + LittleEndian(v, i) == LittleEndian(val, bpt)
      {
        LowByte(v, i);
        hide LittleEndian;
        Append(done, [v % 256], LittleEndian(v / 256, i - 1));
        Append(z, done, [v % 256]);
        Fw8(v % 256);
        done := done + [v % 256];
        v := v / 256;
        i := i - 1;
      }
      assert LittleEndian(v, 0) == [] && done + [] == done;
      Append(old(file), [0x80 + bpt], done);
    }

    method WriteString(s: seq<Byte>)
      modifies this`file
      ensures file == old(file) + StringBytes(s)
    {
      var i := 0;
      while i < |s|
        invariant 0 <= i <= |s| && file == old(file) + s[..i]
      {
        Fw8(s[i]);
        i := i + 1;
      }
      Fw8(0);
    }

    method CountRelocs(rs: seq<SourceReloc>, ghost at: nat, ghost ys: seq<SourceSymbol>) returns (n: nat)
      requires RelocsInside(rs, |ys|)
      ensures n == |LinkedRelocs(rs, |rs|, at, ys)|
    {
      n := 0;
      var i := 0;
      while i < |rs|
        invariant 0 <= i <= |rs| && n == |LinkedRelocs(rs, i, at, ys)|
      {
        if InStandardRange(rs[i].typ) {
          n := n + 1;
        }
        i := i + 1;
      }
    }

    method GetSectionSizes(c: SourceSection, ghost ys: seq<SourceSymbol>) returns (size: nat, data: nat, nrelocs: nat)
      requires IsSection(c) && forall a :: a in c.atoms ==> RelocsInside(AtomRelocs(a), |ys|)
      modifies this`pc
      ensures size == EndPc(c.atoms, |c.atoms|) && data == |FileData(c)|
      ensures nrelocs == |SectionRelocs(c.atoms, |c.atoms|, ys)|
    {
      hide Balign, LinkedRelocs, RelocsInside, AtomPc, AtomSize;
      data, nrelocs, pc := 0, 0, 0;
      var k := 0;
      while k < |c.atoms|
        invariant 0 <= k <= |c.atoms| && pc == EndPc(c.atoms, k) && data == DataEnd(c.atoms, k)
        invariant nrelocs == |SectionRelocs(c.atoms, k, ys)|
      {
        var a := c.atoms[k];
        assert a in c.atoms && RelocsInside(AtomRelocs(a), |ys|);
        pc := AtomPc(a, pc);
        ghost var at := pc;
        pc := pc + AtomSize(a);
        if a.Data? {
          data := pc;
          var n := CountRelocs(a.relocs, at, ys);
          nrelocs := nrelocs + n;
        } else if a.Space? {
          if a.relocs != [] {
            var n := CountRelocs(a.relocs, at, ys);
            nrelocs := nrelocs + n;
            data := pc;
          } else {
            var i := 0;
            ghost var before := data;
            while i < |a.fill|
              invariant 0 <= i <= |a.fill|
              invariant data == if exists j :: 0 <= j < i && a.fill[j] != 0 then pc else before
            {
              if a.fill[i] != 0 {
                data := pc;
              }
              i := i + 1;
            }
          }
        }
        k := k + 1;
      }
      size := pc;
      DataEndInside(c.atoms, |c.atoms|);
    }

    method FwPcAlign(a: Atom, pad: seq<Byte>, at: nat) returns (at': nat)
      requires pad != [] && (a.Space? ==> a.fill != [])
      modifies this`file
      ensures file == old(file) + AlignBytes(a, pad, at) && at' == at + |AlignBytes(a, pad, at)|
    {
      hide Balign;
      var n := Balign(at, a.align);
      if n == 0 {
        assert AlignBytes(a, pad, at) == [];
        return at;
      }
      var pat: seq<Byte>;
      if a.Space? && a.space == 0 {
        if a.maxAlign != 0 && n > a.maxAlign {
          return at;
        }
        pat := a.fill;
      } else {
        pat := pad;
      }
      at' := at + n;
      FwPattern(n, pat);
    }

    method FwPattern(count: nat, pat: seq<Byte>)
      requires pat != []
      modifies this`file
      ensures file == old(file) + Padding(count, pat)
    {
      var n: nat := count;
      hide IsParts, Repeat, Zeros;
      ghost var p, z: nat := |pat|, 0;
      ghost var q, r := PartsOf(count, p);
      NoZeros(pat);
      while n % |pat| != 0
        invariant z <= r < p && IsParts(n, q, p, r - z) && file == old(file) + Zeros(z)
        decreases r - z
      {
        PartsRemainder(n, q, p, r - z);
        Fw8(0);
        n := n - 1;
        Append(old(file), Zeros(z), [0]);
        z := z + 1;
        MoreZeros(z);
      }
      PartsRemainder(n, q, p, r - z);
      ghost var base, left := file, q;
      while n >= |pat|
        invariant 0 <= left <= q && IsParts(n, left, p, 0) && file == base + Repeat(pat, q - left)
      {
        PartsStep(n, left, p);
        OneMore(pat, q - left);
        Append(base, Repeat(pat, q - left), pat);
        file := file + pat;
        n := n - |pat|;
        left := left - 1;
      }
      PartsEnd(n, left, p);
      Append(old(file), Zeros(r), Repeat(pat, q));
    }

    method FwSblock(a: Atom)
      requires a.Space?
      modifies this`file
      ensures file == old(file) + Content(a)
    {
      var i := 0;
      while i < a.space
        invariant 0 <= i <= a.space && file == old(file) + Repeat(a.fill, i)
      {
        file := file + a.fill;
        i := i + 1;
      }
    }

    method WriteContent(a: Atom)
      modifies this`file
      ensures file == old(file) + Content(a)
    {
      match a
      case Data(_, bytes, _) => file := file + bytes;
      case Space(_, _, _, _, _) => FwSblock(a);
      case Marker(_) =>
    }

    /** Exactly as many bytes as were announced. */
    method WriteData(c: SourceSection, data: nat)
      requires IsSection(c) && data == |FileData(c)|
      modifies this`file, this`pc
      ensures file == old(file) + FileData(c)
    {
      hide Balign, AlignBytes, Content, AtomPc, AtomSize, HasContent;
      pc := 0;
      ghost var end := DataEndIsEnd(c.atoms, |c.atoms|);
      DataEndInside(c.atoms, |c.atoms|);
      ImageGrows(c, end, |c.atoms|);
      var k := 0;
      while k < |c.atoms|
        invariant 0 <= k <= end && pc == EndPc(c.atoms, k) && file == old(file) + Image(c, k)
      {
        if pc >= data {
          EndPcGrows(c.atoms, k, end);
          ImageGrows(c, k, |c.atoms|);
          return;
        }
        var a := c.atoms[k];
        assert a in c.atoms && IsAtom(a);
        AlignmentsAgree(a, c.pad, pc);
        pc := FwPcAlign(a, c.pad, pc);
        pc := pc + AtomSize(a);
        WriteContent(a);
        k := k + 1;
      }
    }

    /** One entry; the numbers in the order of the format. */
    method WriteReloc(r: Reloc)
      requires bpt < 128 && IsStandard(r)
      modifies this`file
      ensures file == old(file) + RelocBytes(r, bpt)
    {
      hide NumberBytes, FieldsBytes;
      ghost var z := file;
      WriteNumber(r.typ);
      WriteNumber(r.byteoffset);
      WriteNumber(r.bitoffset);
      WriteNumber(r.size);
      WriteNumber(r.mask);
      WriteNumber(r.addend);
      WriteNumber(r.sym);
      SixFields(r.byteoffset, r.bitoffset, r.size, r.mask, r.addend, r.sym, bpt);
      ghost var m := NumberBytes(r.typ, bpt);
      ghost var a, b, c, d := NumberBytes(r.byteoffset, bpt), NumberBytes(r.bitoffset, bpt), NumberBytes(r.size, bpt),
        NumberBytes(r.mask, bpt);
      ghost var e, f := NumberBytes(r.addend, bpt), NumberBytes(r.sym, bpt);
      AppendFive(z, m, a, b, c, d, e);
      Append(z, m + (a + b + c + d + e), f);
      Append(m, a + b + c + d + e, f);
    }

    method WriteRlist(rs: seq<SourceReloc>, idx: seq<nat>, ghost ys: seq<SourceSymbol>)
      requires bpt < 128 && RelocsInside(rs, |ys|) && |idx| == |ys|
      requires forall i :: 0 <= i < |ys| ==> idx[i] == Index(ys, i)
      modifies this`file
      ensures file == old(file) + RelocsBytes(LinkedRelocs(rs, |rs|, pc, ys), bpt)
    {
      hide RelocsBytes, RelocBytes, Index;
      var i := 0;
      NoRelocs(bpt);
      while i < |rs|
        invariant 0 <= i <= |rs| && file == old(file) + RelocsBytes(LinkedRelocs(rs, i, pc, ys), bpt)
      {
        var rel := rs[i];
        if InStandardRange(rel.typ) {
          var r := Standard(rel.typ, pc + rel.byteoffset, rel.bitoffset, rel.size, rel.mask, rel.addend, idx[rel.sym]);
          assert r == LinkedReloc(rel, pc, ys);
          WriteReloc(r);
          RelocsSnoc(LinkedRelocs(rs, i, pc, ys), r, bpt);
        }
        i := i + 1;
      }
    }

    /** As many relocations as were counted. */
    method WriteRelocs(c: SourceSection, idx: seq<nat>, ghost ys: seq<SourceSymbol>)
      requires bpt < 128 && (forall a :: a in c.atoms ==> RelocsInside(AtomRelocs(a), |ys|))
      requires |idx| == |ys| && forall i :: 0 <= i < |ys| ==> idx[i] == Index(ys, i)
      modifies this`file, this`pc
      ensures file == old(file) + RelocsBytes(SectionRelocs(c.atoms, |c.atoms|, ys), bpt)
    {
      hide RelocsBytes, Index, Balign, LinkedRelocs, AtomPc, AtomSize;
      pc := 0;
      var k := 0;
      NoRelocs(bpt);
      while k < |c.atoms|
        invariant 0 <= k <= |c.atoms| && pc == EndPc(c.atoms, k)
        invariant file == old(file) + RelocsBytes(SectionRelocs(c.atoms, k, ys), bpt)
      {
        var a := c.atoms[k];
        assert a in c.atoms;
        pc := AtomPc(a, pc);
        ghost var more := LinkedRelocs(AtomRelocs(a), |AtomRelocs(a)|, pc, ys);
        RelocsJoin(SectionRelocs(c.atoms, k, ys), more, bpt);
        if !a.Marker? {
          WriteRlist(a.relocs, idx, ys);
        } else {
          assert more == [] && RelocsBytes(more, bpt) == [] by { NoLinkedRelocs(pc, ys); }
        }
        pc := pc + AtomSize(a);
        k := k + 1;
      }
    }

    method WriteSymbol(y: Symbol)
      requires bpt < 128
      modifies this`file
      ensures file == old(file) + SymbolBytes(y, bpt)
    {
      hide NumberBytes, StringBytes, FieldsBytes;
      ghost var z := file;
      WriteString(y.name);
      WriteNumber(y.typ);
      WriteNumber(y.flags);
      WriteNumber(y.sec);
      WriteNumber(y.val);
      WriteNumber(y.size);
      FiveFields(y.typ, y.flags, y.sec, y.val, y.size, bpt);
      AppendFive(z, StringBytes(y.name), NumberBytes(y.typ, bpt), NumberBytes(y.flags, bpt), NumberBytes(y.sec, bpt),
                 NumberBytes(y.val, bpt), NumberBytes(y.size, bpt));
    }

    method WriteSection(c: SourceSection, idx: seq<nat>, ghost ys: seq<SourceSymbol>)
      requires bpt < 128 && IsSection(c) && (forall a :: a in c.atoms ==> RelocsInside(AtomRelocs(a), |ys|))
      requires |idx| == |ys| && forall i :: 0 <= i < |ys| ==> idx[i] == Index(ys, i)
      modifies this`file, this`pc
      ensures file == old(file) + SectionBytes(LinkedSection(c, ys), bpt)
    {
      hide NumberBytes, StringBytes, RelocsBytes, FieldsBytes, Index, EndPc, FileData, SectionRelocs, RelocsInside,
        IsSection;
      ghost var z := file;
      WriteString(c.name);
      WriteString(c.attr);
      Append(z, StringBytes(c.name), StringBytes(c.attr));
      WriteNumber(c.flags);
      WriteNumber(c.align);
      var size, data, nrelocs := GetSectionSizes(c, ys);
      WriteNumber(size);
      WriteNumber(nrelocs);
      WriteNumber(data);
      FiveFields(c.flags, c.align, size, nrelocs, data, bpt);
      AppendFive(z, StringBytes(c.name) + StringBytes(c.attr), NumberBytes(c.flags, bpt), NumberBytes(c.align, bpt),
                 NumberBytes(size, bpt), NumberBytes(nrelocs, bpt), NumberBytes(data, bpt));
      WriteData(c, data);
      WriteRelocs(c, idx, ys);
      ghost var l := LinkedSection(c, ys);
      RegroupSection(old(file), StringBytes(c.name), StringBytes(c.attr), FieldsBytes(SectionFields(l), bpt), l.data,
        RelocsBytes(l.relocs, bpt));
    }

    /** The numbers of the valid symbols. */
    method NumberSymbols(ys: seq<SourceSymbol>) returns (idx: seq<nat>, nsyms: nat)
      ensures |idx| == |ys| && forall i :: 0 <= i < |ys| ==> idx[i] == Index(ys, i)
      ensures nsyms == Numbered(ys, |ys|) + 1
    {
      hide SymValid;
      idx, nsyms := seq(|ys|, i requires 0 <= i < |ys| => ys[i].idx), 1;
      var i := 0;
      while i < |ys|
        invariant 0 <= i <= |ys| == |idx| && nsyms == Numbered(ys, i) + 1
        invariant forall j :: 0 <= j < i ==> idx[j] == Index(ys, j)
        invariant forall j :: i <= j < |ys| ==> idx[j] == ys[j].idx
      {
        if SymValid(ys[i]) {
          idx := idx[i := nsyms];
          nsyms := nsyms + 1;
        }
        i := i + 1;
      }
    }

    method WriteSymbols(ys: seq<SourceSymbol>)
      requires bpt < 128
      modifies this`file
      ensures file == old(file) + SymbolsBytes(LinkedSymbols(ys, |ys|), bpt)
    {
      hide SymbolsBytes, SymbolBytes, SymValid;
      NoSymbols(bpt);
      var i := 0;
      while i < |ys|
        invariant 0 <= i <= |ys| && file == old(file) + SymbolsBytes(LinkedSymbols(ys, i), bpt)
      {
        if SymValid(ys[i]) {
          SymbolsSnoc(LinkedSymbols(ys, i), LinkedSymbol(ys[i]), bpt);
          WriteSymbol(LinkedSymbol(ys[i]));
        }
        i := i + 1;
      }
    }

    method WriteSections(cs: seq<SourceSection>, idx: seq<nat>, ghost ys: seq<SourceSymbol>)
      requires bpt < 128
      requires forall c :: c in cs ==> IsSection(c) && forall a :: a in c.atoms ==> RelocsInside(AtomRelocs(a), |ys|)
      requires |idx| == |ys| && forall i :: 0 <= i < |ys| ==> idx[i] == Index(ys, i)
      modifies this`file, this`pc
      ensures file == old(file) + SectionsBytes(LinkedSections(cs, |cs|, ys), bpt)
    {
      hide SectionsBytes, SectionBytes, LinkedSection, IsSection, RelocsInside, Index;
      NoSections(bpt);
      var k := 0;
      while k < |cs|
        invariant 0 <= k <= |cs| && file == old(file) + SectionsBytes(LinkedSections(cs, k, ys), bpt)
      {
        assert cs[k] in cs;
        SectionsSnoc(LinkedSections(cs, k, ys), LinkedSection(cs[k], ys), bpt);
        WriteSection(cs[k], idx, ys);
        k := k + 1;
      }
    }

    method WriteHeader(endian: Byte, cpu: seq<Byte>, nsecs: nat, nsyms: nat)
      requires bpt < 128
      modifies this`file
      ensures file == old(file) +
        (MAGIC + [endian] + FieldsBytes([8, bpt], bpt) + StringBytes(cpu) + FieldsBytes([nsecs, nsyms], bpt))
    {
      hide NumberBytes, StringBytes, FieldsBytes;
      ghost var z := file;
      file := file + MAGIC;
      Fw8(endian);
      ghost var m := MAGIC + [endian];
      Append(z, MAGIC, [endian]);
      WriteNumber(8);
      WriteNumber(bpt);
      PairBytes(8, bpt, bpt);
      AppendPair(z, m, NumberBytes(8, bpt), NumberBytes(bpt, bpt));
      m := m + FieldsBytes([8, bpt], bpt);
      WriteString(cpu);
      Append(z, m, StringBytes(cpu));
      m := m + StringBytes(cpu);
      WriteNumber(nsecs);
      WriteNumber(nsyms);
      PairBytes(nsecs, nsyms, bpt);
      AppendPair(z, m, NumberBytes(nsecs, bpt), NumberBytes(nsyms, bpt));
    }

    method WriteOutput(s: Source)
      requires IsSource(s) && bpt == s.bpt
      modifies this`file, this`pc
      ensures file == old(file) + ObjectBytes(LinkedObject(s))
    {
      hide NumberBytes, StringBytes, SymbolsBytes, SectionsBytes, Index, LinkedSymbols, LinkedSections, IsSection,
        RelocsInside;
      var idx, nsyms := NumberSymbols(s.symbols);
      WriteHeader(s.endian, s.cpu, |s.sections|, nsyms - 1);
      ghost var o := LinkedObject(s);
      ghost var w, c := FieldsBytes([8, bpt], bpt), FieldsBytes([|o.sections|, |o.symbols|], bpt);
      WriteSymbols(s.symbols);
      WriteSections(s.sections, idx, s.symbols);
      RegroupObject(old(file), MAGIC, [s.endian], w, StringBytes(s.cpu), c, SymbolsBytes(o.symbols, bpt),
        SectionsBytes(o.sections, bpt));
    }
  }

  lemma NoSymbols(bpt: nat)
    requires bpt < 128
    ensures SymbolsBytes([], bpt) == []
  {
  }

  lemma NoSections(bpt: nat)
    requires bpt < 128
    ensures SectionsBytes([], bpt) == []
  {
  }

  lemma PairBytes(x: int, y: int, bpt: nat)
    requires bpt < 128
    ensures FieldsBytes([x, y], bpt) == NumberBytes(x, bpt) + NumberBytes(y, bpt)
  {
    hide NumberBytes;
    assert [x, y] == [x] + [y] && [y] == [y] + [];
    FieldsCons(x, [y], bpt);
    FieldsCons(y, [], bpt);
  }

  lemma Append(z: seq<Byte>, m: seq<Byte>, x: seq<Byte>)
    ensures z + m + x == z + (m + x)
  {
  }

  lemma AppendPair(z: seq<Byte>, m: seq<Byte>, x: seq<Byte>, y: seq<Byte>)
    ensures z + m + x + y == z + (m + (x + y))
  {
  }

  lemma AppendFive(z: seq<Byte>, m: seq<Byte>, a: seq<Byte>, b: seq<Byte>, c: seq<Byte>, d: seq<Byte>, e: seq<Byte>)
    ensures z + m + a + b + c + d + e == z + (m + (a + b + c + d + e))
  {
    assert z + m + a + b + c + d + e == (z + m) + (a + b + c + d + e);
  }

  lemma RegroupObject(
      z: seq<Byte>, a: seq<Byte>, b: seq<Byte>, c: seq<Byte>, d: seq<Byte>, e: seq<Byte>, f: seq<Byte>, g: seq<Byte>)
    ensures z + (a + b + c + d + e) + f + g == z + (a + (b + (c + (d + (e + (f + g))))))
  {
    assert a + (b + (c + (d + (e + (f + g))))) == (a + b + c + d + e) + (f + g);
  }

  lemma LowByte(v: int, i: nat)
    requires i > 0
    ensures LittleEndian(v, i) == [v % 256] + LittleEndian(v / 256, i - 1)
  {
  }

  lemma MoreZeros(z: nat)
    requires z > 0
    ensures Zeros(z) == Zeros(z - 1) + [0]
  {
  }

  /** n is q times p and r more. */
  ghost predicate IsParts(n: nat, q: nat, p: nat, r: nat) {
    n == q * p + r
  }

  lemma PartsOf(n: nat, p: nat) returns (q: nat, r: nat)
    requires p > 0
    ensures q == n / p && r == n % p < p && IsParts(n, q, p, r)
  {
    q, r := n / p, n % p;
  }

  lemma NoZeros(pat: seq<Byte>)
    ensures Zeros(0) == [] && Repeat(pat, 0) == []
  {
  }

  lemma OneMore(pat: seq<Byte>, k: nat)
    ensures Repeat(pat, k + 1) == Repeat(pat, k) + pat
  {
  }

  lemma PartsRemainder(n: nat, q: nat, p: nat, r: nat)
    requires IsParts(n, q, p, r) && r < p
    ensures n % p == r && (r > 0 ==> n > 0 && IsParts(n - 1, q, p, r - 1))
  {
    DivModUnique(n, p, q, r);
  }

  lemma PartsStep(n: nat, q: nat, p: nat)
    requires IsParts(n, q, p, 0) && n >= p > 0
    ensures q > 0 && IsParts(n - p, q - 1, p, 0)
  {
    if q > 0 {
      Distribute(q, -1, p);
    }
  }

  lemma PartsEnd(n: nat, q: nat, p: nat)
    requires IsParts(n, q, p, 0) && n < p
    ensures q == 0
  {
    if q > 0 {
      MulLe(1, q, p);
    }
  }

  lemma NoRelocs(bpt: nat)
    requires bpt < 128
    ensures RelocsBytes([], bpt) == []
  {
  }

  lemma NoLinkedRelocs(pc: nat, ys: seq<SourceSymbol>)
    ensures LinkedRelocs([], 0, pc, ys) == []
  {
  }

  lemma FiveFields(a: int, b: int, c: int, d: int, e: int, bpt: nat)
    requires bpt < 128
    ensures FieldsBytes([a, b, c, d, e], bpt) ==
      NumberBytes(a, bpt) + NumberBytes(b, bpt) + NumberBytes(c, bpt) + NumberBytes(d, bpt) + NumberBytes(e, bpt)
  {
    hide NumberBytes;
    assert [a, b, c, d, e] == [a] + ([b] + ([c] + ([d] + ([e] + []))));
    FieldsCons(a, [b] + ([c] + ([d] + ([e] + []))), bpt);
    FieldsCons(b, [c] + ([d] + ([e] + [])), bpt);
    FieldsCons(c, [d] + ([e] + []), bpt);
    FieldsCons(d, [e] + [], bpt);
    FieldsCons(e, [], bpt);
  }

  lemma SixFields(a: int, b: int, c: int, d: int, e: int, f: int, bpt: nat)
    requires bpt < 128
    ensures FieldsBytes([a, b, c, d, e, f], bpt) ==
      NumberBytes(a, bpt) + NumberBytes(b, bpt) + NumberBytes(c, bpt) + NumberBytes(d, bpt) + NumberBytes(e, bpt) +
        NumberBytes(f, bpt)
  {
    hide NumberBytes;
    assert [a, b, c, d, e, f] == [a] + [b, c, d, e, f];
    FieldsCons(a, [b, c, d, e, f], bpt);
    FiveFields(b, c, d, e, f, bpt);
  }

  lemma FieldsCons(x: int, xs: seq<int>, bpt: nat)
    requires bpt < 128
    ensures FieldsBytes([x] + xs, bpt) == NumberBytes(x, bpt) + FieldsBytes(xs, bpt)
    ensures FieldsBytes([], bpt) == []
  {
    assert ([x] + xs)[1..] == xs;
  }

  lemma RegroupSection(z: seq<Byte>, a: seq<Byte>, b: seq<Byte>, c: seq<Byte>, d: seq<Byte>, e: seq<Byte>)
    ensures z + (a + b + c) + d + e == z + (a + (b + (c + (d + e))))
  {
    assert a + (b + (c + (d + e))) == (a + b + c) + (d + e);
  }

  // ----- written and read back -----

  lemma {:induction false} LinkedRelocsStandard(rs: seq<SourceReloc>, k: nat, pc: nat, ys: seq<SourceSymbol>)
    requires k <= |rs| && RelocsInside(rs, |ys|)
    ensures AllStandard(LinkedRelocs(rs, k, pc, ys))
  {
    if k > 0 {
      LinkedRelocsStandard(rs, k - 1, pc, ys);
      if InStandardRange(rs[k - 1].typ) {
        JoinStandard(LinkedRelocs(rs, k - 1, pc, ys), [LinkedReloc(rs[k - 1], pc, ys)]);
      }
    }
  }

  lemma {:induction false} JoinStandard(rs: seq<Reloc>, ts: seq<Reloc>)
    requires AllStandard(rs) && AllStandard(ts)
    ensures AllStandard(rs + ts)
    decreases |rs|
  {
    if rs == [] {
      assert rs + ts == ts;
    } else {
      assert (rs + ts)[1..] == rs[1..] + ts;
      JoinStandard(rs[1..], ts);
    }
  }

  lemma {:induction false} SectionRelocsStandard(atoms: seq<Atom>, k: nat, ys: seq<SourceSymbol>)
    requires k <= |atoms| && forall a :: a in atoms ==> RelocsInside(AtomRelocs(a), |ys|)
    ensures AllStandard(SectionRelocs(atoms, k, ys))
  {
    if k > 0 {
      var a := atoms[k - 1];
      var at := AtomPc(a, EndPc(atoms, k - 1));
      SectionRelocsStandard(atoms, k - 1, ys);
      LinkedRelocsStandard(AtomRelocs(a), |AtomRelocs(a)|, at, ys);
      JoinStandard(SectionRelocs(atoms, k - 1, ys), LinkedRelocs(AtomRelocs(a), |AtomRelocs(a)|, at, ys));
    }
  }

  /** What a source needs so that its file can be read: no NUL in names, addresses of 1
      to 7 bytes, counts that fit. */
  predicate SourceShape(s: Source) {
    && IsSource(s) && 1 <= s.endian <= 2 && 1 <= s.bpt <= 7 && 0 !in s.cpu
    && (forall y :: y in s.symbols ==> 0 !in y.name)
    && (forall c :: c in s.sections ==>
          0 !in c.name && 0 !in c.attr && FieldFits(Plain, |FileData(c)|, s.bpt) &&
          FieldFits(Int, |SectionRelocs(c.atoms, |c.atoms|, s.symbols)|, s.bpt))
    && FieldFits(Int, |s.sections|, s.bpt) && FieldFits(Int, Numbered(s.symbols, |s.symbols|), s.bpt)
  }

  lemma {:induction false} JoinNames(ys: seq<Symbol>, y: Symbol)
    requires NamesFree(ys) && 0 !in y.name
    ensures NamesFree(ys + [y])
    decreases |ys|
  {
    if ys != [] {
      assert (ys + [y])[1..] == ys[1..] + [y];
      JoinNames(ys[1..], y);
    }
  }

  lemma {:induction false} JoinShapes(cs: seq<Section>, c: Section, bpt: nat)
    requires SectionsShape(cs, bpt) && SectionShape(c, bpt)
    ensures SectionsShape(cs + [c], bpt)
    decreases |cs|
  {
    hide SectionShape;
    if cs != [] {
      assert (cs + [c])[1..] == cs[1..] + [c];
      JoinShapes(cs[1..], c, bpt);
    }
  }

  lemma {:induction false} LinkedNames(ys: seq<SourceSymbol>, k: nat)
    requires k <= |ys| && forall y :: y in ys ==> 0 !in y.name
    ensures NamesFree(LinkedSymbols(ys, k))
  {
    if k > 0 {
      LinkedNames(ys, k - 1);
      JoinNames(LinkedSymbols(ys, k - 1), LinkedSymbol(ys[k - 1]));
    }
  }

  lemma {:induction false} LinkedShapes(s: Source, k: nat)
    requires SourceShape(s) && k <= |s.sections|
    ensures SectionsShape(LinkedSections(s.sections, k, s.symbols), s.bpt)
  {
    hide FieldFits, FileData, SectionRelocs, IsSection;
    if k > 0 {
      LinkedShapes(s, k - 1);
      var c := s.sections[k - 1];
      assert c in s.sections;
      SectionRelocsStandard(c.atoms, |c.atoms|, s.symbols);
      JoinShapes(LinkedSections(s.sections, k - 1, s.symbols), LinkedSection(c, s.symbols), s.bpt);
    }
  }

  /** What the assembler hands over comes back from the file if and only if every number
      fits. */
  lemma OutputRoundTrip(s: Source)
    requires SourceShape(s)
    ensures ObjectShape(LinkedObject(s))
    ensures ParseObject(ObjectBytes(LinkedObject(s))) == Some(LinkedObject(s)) <==> ObjectFits(LinkedObject(s))
  {
    LinkedNames(s.symbols, |s.symbols|);
    LinkedShapes(s, |s.sections|);
    hide ObjectFits, ParseObject, ObjectBytes, FieldFits, SectionsShape, NamesFree, LinkedSections, LinkedSymbols;
    ObjectRoundTrip(LinkedObject(s));
  }
}
