/** The VOBJ reader, c/vasm/vobjdump.c. What the source prints is returned. */
module VobjReader {
  import opened Bytes
  import opened Options
  import opened Vobj

  /** The items xs read before the outcome t of reading the rest. */
  function After<T>(xs: seq<T>, t: Option<(seq<T>, nat)>): Option<(seq<T>, nat)> {
    match t
    case None => None
    case Some(u) => Some((xs + u.0, u.1))
  }

  lemma AfterNothing<T>(xs: seq<T>, p: nat, t: Option<(seq<T>, nat)>)
    ensures After([], t) == t && After(xs, Some(([], p))) == Some((xs, p))
  {
    assert xs + [] == xs;
    if t.Some? {
      assert [] + t.value.0 == t.value.0;
    }
  }

  lemma AfterOne<T>(xs: seq<T>, x: T, u: (seq<T>, nat))
    ensures After(xs, Some(([x] + u.0, u.1))) == After(xs + [x], Some(u))
  {
    assert xs + ([x] + u.0) == (xs + [x]) + u.0;
  }

  /** A cursor in the file. */
  class Reader {
    const file: seq<Byte>
    var p: nat

    constructor (file: seq<Byte>)
      ensures this.file == file && p == 0
    {
      this.file := file;
      p := 0;
    }

    /** The bytes of a number are read backwards. */
    method ReadNumber(signed: bool) returns (r: Option<int>)
      requires p <= |file|
      modifies this`p
      ensures p <= |file|
      ensures var s := ParseNumber(file, old(p), signed);
        if s.None? then r.None? else r == Some(s.value.0) && p == s.value.1
    {
      hide Pow256, SignExtended;
      if p >= |file| {
        return None;
      }
      var n := file[p];
      p := p + 1;
      if n <= 0x7f {
        return Some(n);
      }
      n := n - 0x80;
      if n == 0 {
        return Some(0);
      }
      if n > 7 || p + n > |file| {
        return None;
      }
      ghost var bytes := file[p..p + n];
      p := p + n;
      var val: nat := 0;
      var q, i := p, n;
      while i > 0
        invariant 0 <= i <= n && q == p - n + i && val == ValueOf(bytes[i..])
      {
        q := q - 1;
        i := i - 1;
        assert bytes[i] == file[q] && bytes[i..][1..] == bytes[i + 1..];
        val := val * 256 + file[q];
      }
      assert bytes[0..] == bytes;
      r := Some(if signed then SignExtended(val, n) else val);
    }

    method ReadField(kind: Kind) returns (r: Option<int>)
      requires p <= |file|
      modifies this`p
      ensures p <= |file|
      ensures var s := ParseField(file, old(p), kind);
        if s.None? then r.None? else r == Some(s.value.0) && p == s.value.1
    {
      hide ParseNumber;
      r := ReadNumber(kind == Signed);
      if r.Some? {
        r := Some(Cast(kind, r.value));
      }
    }

    /** Consecutive numbers. */
    method ReadFields(kinds: seq<Kind>) returns (r: Option<seq<int>>)
      requires p <= |file|
      modifies this`p
      ensures p <= |file|
      ensures var s := ParseFields(file, old(p), kinds);
        if s.None? then r.None? else r == Some(s.value.0) && p == s.value.1
    {
      hide ParseField;
      var xs := [];
      var i := 0;
      ghost var s := ParseFields(file, p, kinds);
      AfterNothing(xs, p, s);
      assert kinds[0..] == kinds;
      while i < |kinds|
        invariant 0 <= i <= |kinds| && p <= |file|
        invariant s == After(xs, ParseFields(file, p, kinds[i..]))
      {
        assert kinds[i..][1..] == kinds[i + 1..] && kinds[i..][0] == kinds[i];
        var x := ReadField(kinds[i]);
        if x.None? {
          return None;
        }
        ghost var u := ParseFields(file, p, kinds[i + 1..]);
        if u.Some? {
          AfterOne(xs, x.value, u.value);
        }
        xs := xs + [x.value];
        i := i + 1;
      }
      AfterNothing(xs, p, s);
      r := Some(xs);
    }

    /** A string up to its NUL byte. */
    method ReadString() returns (r: Option<seq<Byte>>)
      requires p <= |file|
      modifies this`p
      ensures p <= |file|
      ensures var s := ParseString(file, old(p));
        if s.None? then r.None? else r == Some(s.value.0) && p == s.value.1
    {
      var s := [];
      ghost var whole := ParseString(file, p);
      AfterNothing(s, p, whole);
      while p < |file| && file[p] != 0
        invariant p <= |file|
        invariant whole == After(s, ParseString(file, p))
        decreases |file| - p
      {
        ghost var u := ParseString(file, p + 1);
        if u.Some? {
          AfterOne(s, file[p], u.value);
        }
        s := s + [file[p]];
        p := p + 1;
      }
      if p == |file| {
        return None;
      }
      AfterNothing(s, p + 1, whole);
      p := p + 1;
      r := Some(s);
    }

    method ReadSymbol() returns (r: Option<Symbol>)
      requires p <= |file|
      modifies this`p
      ensures p <= |file|
      ensures var s := ParseSymbol(file, old(p));
        if s.None? then r.None? else r == Some(s.value.0) && p == s.value.1
    {
      hide ParseString, ParseFields;
      var name := ReadString();
      if name.None? {
        return None;
      }
      var xs := ReadFields(SYMBOL_KINDS);
      if xs.None? {
        return None;
      }
      var v := xs.value;
      r := Some(Symbol(name.value, v[0], v[1], v[2], v[3], v[4]));
    }

    method ReadReloc() returns (r: Option<Reloc>)
      requires p <= |file|
      modifies this`p
      ensures p <= |file|
      ensures var s := ParseReloc(file, old(p));
        if s.None? then r.None? else r == Some(s.value.0) && p == s.value.1
    {
      hide ParseField, ParseFields;
      var typ := ReadField(Char);
      if typ.None? {
        return None;
      }
      if typ.value <= LAST_STANDARD_RELOC + 1 {
        var xs := ReadFields(RELOC_KINDS);
        if xs.None? {
          return None;
        }
        var v := xs.value;
        r := Some(Standard(typ.value, v[0], v[1], v[2], v[3], v[4], v[5]));
      } else {
        var size := ReadField(Plain);
        if size.None? || size.value < 0 || p + size.value > |file| {
          return None;
        }
        r := Some(Special(typ.value, file[p..p + size.value]));
        p := p + size.value;
      }
    }

    method ReadSection() returns (r: Option<Section>)
      requires p <= |file|
      modifies this`p
      ensures p <= |file|
      ensures var s := ParseSection(file, old(p));
        if s.None? then r.None? else r == Some(s.value.0) && p == s.value.1
    {
      hide ParseString, ParseFields, ParseReloc;
      var name := ReadString();
      if name.None? {
        return None;
      }
      var attr := ReadString();
      if attr.None? {
        return None;
      }
      var fields := ReadFields(SECTION_KINDS);
      if fields.None? {
        return None;
      }
      var f := fields.value;
      var nrelocs, fsize := f[3], f[4];
      if fsize < 0 || p + fsize > |file| {
        return None;
      }
      var data := file[p..p + fsize];
      p := p + fsize;
      var relocs := ReadRelocs(nrelocs);
      if relocs.None? {
        return None;
      }
      r := Some(Section(name.value, attr.value, f[0], f[1], f[2], data, relocs.value));
    }

    method ReadRelocs(n: int) returns (r: Option<seq<Reloc>>)
      requires p <= |file|
      modifies this`p
      ensures p <= |file|
      ensures var s := ParseRelocs(file, old(p), n);
        if s.None? then r.None? else r == Some(s.value.0) && p == s.value.1
    {
      hide ParseReloc;
      var rs := [];
      var i := 0;
      ghost var s := ParseRelocs(file, p, n);
      AfterNothing(rs, p, s);
      while i < n
        invariant 0 <= i && (i <= n || i == 0) && p <= |file|
        invariant s == After(rs, ParseRelocs(file, p, n - i))
      {
        var x := ReadReloc();
        if x.None? {
          return None;
        }
        ghost var u := ParseRelocs(file, p, n - i - 1);
        if u.Some? {
          AfterOne(rs, x.value, u.value);
        }
        rs := rs + [x.value];
        i := i + 1;
      }
      AfterNothing(rs, p, s);
      r := Some(rs);
    }

    method ReadSymbols(n: int) returns (r: Option<seq<Symbol>>)
      requires p <= |file|
      modifies this`p
      ensures p <= |file|
      ensures var s := ParseSymbols(file, old(p), n);
        if s.None? then r.None? else r == Some(s.value.0) && p == s.value.1
    {
      hide ParseSymbol;
      var ys := [];
      var i := 0;
      ghost var s := ParseSymbols(file, p, n);
      AfterNothing(ys, p, s);
      while i < n
        invariant 0 <= i && (i <= n || i == 0) && p <= |file|
        invariant s == After(ys, ParseSymbols(file, p, n - i))
      {
        var x := ReadSymbol();
        if x.None? {
          return None;
        }
        ghost var u := ParseSymbols(file, p, n - i - 1);
        if u.Some? {
          AfterOne(ys, x.value, u.value);
        }
        ys := ys + [x.value];
        i := i + 1;
      }
      AfterNothing(ys, p, s);
      r := Some(ys);
    }

    method ReadSections(n: int) returns (r: Option<seq<Section>>)
      requires p <= |file|
      modifies this`p
      ensures p <= |file|
      ensures var s := ParseSections(file, old(p), n);
        if s.None? then r.None? else r == Some(s.value.0) && p == s.value.1
    {
      hide ParseSection;
      var cs := [];
      var i := 0;
      ghost var s := ParseSections(file, p, n);
      AfterNothing(cs, p, s);
      while i < n
        invariant 0 <= i && (i <= n || i == 0) && p <= |file|
        invariant s == After(cs, ParseSections(file, p, n - i))
      {
        var x := ReadSection();
        if x.None? {
          return None;
        }
        ghost var u := ParseSections(file, p, n - i - 1);
        if u.Some? {
          AfterOne(cs, x.value, u.value);
        }
        cs := cs + [x.value];
        i := i + 1;
      }
      AfterNothing(cs, p, s);
      r := Some(cs);
    }

    /** The whole file. With what the writer's lemmas say of its bytes, the object that
        was written is read. */
    method VobjDump() returns (r: Option<Object>)
      modifies this`p
      ensures r == ParseObject(file)
    {
      hide ParseString, ParseFields, ParseSymbols, ParseSections;
      p := 0;
      if !(|file| > 4 && file[0] == 0x56 && file[1] == 0x4f && file[2] == 0x42 && file[3] == 0x4a) {
        if |file| > 4 {
          NotMagic(file);
        }
        return None;
      }
      assert file[..4] == MAGIC;
      p := p + 4;
      var endian := file[p];
      p := p + 1;
      if endian < 1 || endian > 2 {
        return None;
      }
      var widths := ReadFields(COUNT_KINDS);
      if widths.None? || widths.value[0] != 8 || widths.value[1] > 8 {
        return None;
      }
      var cpu := ReadString();
      if cpu.None? {
        return None;
      }
      var counts := ReadFields(COUNT_KINDS);
      if counts.None? {
        return None;
      }
      var symbols := ReadSymbols(counts.value[1]);
      if symbols.None? {
        return None;
      }
      var sections := ReadSections(counts.value[0]);
      if sections.None? {
        return None;
      }
      r := Some(Object(endian, widths.value[1], cpu.value, symbols.value, sections.value));
    }
  }

  lemma NotMagic(file: seq<Byte>)
    requires |file| > 4 && !(file[0] == 0x56 && file[1] == 0x4f && file[2] == 0x42 && file[3] == 0x4a)
    ensures file[..4] != MAGIC
  {
    var s := file[..4];
    assert file[0] == s[0] && file[1] == s[1] && file[2] == s[2] && file[3] == s[3];
  }
}

/** Both modules together. */
module VobjFiles {
  import opened Options
  import opened Vobj
  import opened VobjReader
  import opened VobjWriter

  /** The file that is written for a source is read as the linked source if and only if
      every number fits. */
  method WriteAndRead(s: Source) returns (r: Option<Object>)
    requires SourceShape(s)
    ensures r == Some(LinkedObject(s)) <==> ObjectFits(LinkedObject(s))
  {
    hide ObjectBytes, ParseObject, ObjectFits, LinkedObject;
    OutputRoundTrip(s);
    var writer := new Writer(s.bpt);
    writer.WriteOutput(s);
    assert [] + ObjectBytes(LinkedObject(s)) == ObjectBytes(LinkedObject(s));
    var reader := new Reader(writer.file);
    r := reader.VobjDump();
  }
}
