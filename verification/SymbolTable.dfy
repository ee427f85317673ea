/** The symbol list and its hash index, c/vasm/symbol.c and c/vasm/symtab.c, with case
    sensitive names. */
module SymbolTable {

  type Name = seq<nat>

  const WORD: nat := 0x1_0000_0000_0000_0000

  /** hashcode in the 64 bits of a size_t: the code of the characters before, times 33,
      and the next one. */
  function HashFrom(h: nat, name: Name): nat
    decreases |name|
  {
    if name == [] then h else HashFrom((h * 32 + h + name[0]) % WORD, name[1..])
  }

  function Hash(name: Name): nat {
    HashFrom(5381, name)
  }

  /** The number of the chain for a name. */
  function Code(name: Name, size: nat): (b: nat)
    requires size > 0
    ensures b < size
  {
    Hash(name) % size
  }

  method HashCode(name: Name) returns (h: nat)
    ensures h == Hash(name)
  {
    h := 5381;
    var i := 0;
    while i < |name|
      invariant 0 <= i <= |name| && HashFrom(h, name[i..]) == Hash(name)
    {
      assert name[i..][1..] == name[i + 1..];
      h := (h * 32 + h + name[i]) % WORD;
      i := i + 1;
    }
  }

  class Symbol {
    const name: Name
    var protected: bool

    constructor (name: Name)
      ensures this.name == name && !protected
    {
      this.name, protected := name, false;
    }
  }

  datatype Entry = Entry(name: Name, sym: Symbol)

  /** No two symbols have the same name. */
  ghost predicate NamesDiffer(list: seq<Symbol>) {
    forall i, j :: 0 <= i < j < |list| ==> list[i].name != list[j].name
  }

  ghost function Members(list: seq<Symbol>): set<Symbol> {
    set s | s in list
  }

  /** A chain of the hash table holds the symbols with this code, each once. */
  ghost predicate IsChain(chain: seq<Entry>, symbols: set<Symbol>, size: nat, code: nat)
    requires size > 0
  {
    AllListed(chain, symbols, size, code) && EntriesDiffer(chain) && IsComplete(chain, symbols, size, code)
  }

  ghost predicate AllListed(chain: seq<Entry>, symbols: set<Symbol>, size: nat, code: nat)
    requires size > 0
  {
    forall i :: 0 <= i < |chain| ==>
      chain[i].sym in symbols && chain[i].name == chain[i].sym.name && Code(chain[i].name, size) == code
  }

  ghost predicate EntriesDiffer(chain: seq<Entry>) {
    forall i, j :: 0 <= i < j < |chain| ==> chain[i].name != chain[j].name
  }

  ghost predicate IsComplete(chain: seq<Entry>, symbols: set<Symbol>, size: nat, code: nat)
    requires size > 0
  {
    forall s :: s in symbols && Code(s.name, size) == code ==> Entry(s.name, s) in chain
  }

  // ----- restoring -----

  /** The protected ones among the first k symbols, in reverse order. */
  function Kept(list: seq<Symbol>, k: nat): (r: seq<Symbol>)
    requires k <= |list|
    reads list
  {
    if k == 0 then []
    else if list[k - 1].protected then [list[k - 1]] + Kept(list, k - 1)
    else Kept(list, k - 1)
  }

  /** Exactly the protected ones are kept. */
  lemma {:induction false} KeptAreProtected(list: seq<Symbol>, k: nat)
    requires k <= |list|
    ensures forall i :: 0 <= i < |Kept(list, k)| ==> Kept(list, k)[i] in list[..k] && Kept(list, k)[i].protected
    ensures forall i :: 0 <= i < k && list[i].protected ==> list[i] in Kept(list, k)
  {
    if k > 0 {
      KeptAreProtected(list, k - 1);
      assert list[..k] == list[..k - 1] + [list[k - 1]];
    }
  }

  lemma {:induction false} KeptNamesDiffer(list: seq<Symbol>, k: nat)
    requires k <= |list| && NamesDiffer(list)
    ensures NamesDiffer(Kept(list, k))
  {
    if k > 0 {
      var rest := Kept(list, k - 1);
      KeptNamesDiffer(list, k - 1);
      KeptAreProtected(list, k - 1);
      forall i | 0 <= i < |rest|
        ensures rest[i].name != list[k - 1].name
      {
        assert rest[i] in list[..k - 1];
      }
      if list[k - 1].protected {
        OneMore(list[k - 1], rest);
      }
    }
  }

  lemma OneMore(s: Symbol, list: seq<Symbol>)
    requires NamesDiffer(list) && forall i :: 0 <= i < |list| ==> list[i].name != s.name
    ensures NamesDiffer([s] + list)
  {
  }

  lemma TwoLists(a: seq<Symbol>, b: seq<Symbol>)
    requires NamesDiffer(a) && NamesDiffer(b) && forall i, j :: 0 <= i < |a| && 0 <= j < |b| ==> a[i].name != b[j].name
    ensures NamesDiffer(a + b)
  {
  }

  // ----- runs -----

  /** What a symbol looks like from outside. */
  datatype Item = Item(name: Name, protected: bool)

  datatype Listing = Listing(items: seq<Item>, saved: nat)

  /** Imports may protect the symbol, as the one for the current address is. */
  datatype Command = Import(name: Name, protect: bool) | Save | Restore

  function View(list: seq<Symbol>): (r: seq<Item>)
    reads list
    ensures |r| == |list|
    ensures forall i :: 0 <= i < |list| ==> r[i] == Item(list[i].name, list[i].protected)
  {
    if list == [] then [] else [Item(list[0].name, list[0].protected)] + View(list[1..])
  }

  function ProtectedOnes(items: seq<Item>): seq<Item> {
    if items == [] then []
    else ProtectedOnes(items[1..]) + if items[0].protected then [items[0]] else []
  }

  /** The listing after an import: the first item of the name, or a new one in front. */
  function Imported(items: seq<Item>, name: Name, protect: bool): seq<Item> {
    var k := Position(items, name);
    if k < |items| then items[k := Item(name, items[k].protected || protect)]
    else [Item(name, protect)] + items
  }

  function Position(items: seq<Item>, name: Name): (k: nat)
    ensures k <= |items| && (k < |items| ==> items[k].name == name)
    ensures forall i :: 0 <= i < k ==> items[i].name != name
  {
    if items == [] || items[0].name == name then 0 else 1 + Position(items[1..], name)
  }

  predicate IsListing(l: Listing) {
    l.saved <= |l.items|
  }

  function Effect(l: Listing, c: Command): (r: Listing)
    requires IsListing(l)
    ensures IsListing(r)
  {
    match c
    case Import(name, protect) => l.(items := Imported(l.items, name, protect))
    case Save => l.(saved := |l.items|)
    case Restore =>
      if l.saved == 0 then l
      else
        var n := |l.items| - l.saved;
        Listing(ProtectedOnes(l.items[..n]) + l.items[n..], 0)
  }

  function After(l: Listing, cs: seq<Command>): (r: Listing)
    requires IsListing(l)
    ensures IsListing(r)
    decreases |cs|
  {
    if cs == [] then l else Effect(After(l, cs[..|cs| - 1]), cs[|cs| - 1])
  }

  function Names(items: seq<Item>): seq<Name> {
    seq(|items|, i requires 0 <= i < |items| => items[i].name)
  }

  predicate AreImports(cs: seq<Command>) {
    forall i :: 0 <= i < |cs| ==> cs[i].Import?
  }

  /** Imports add items in front and never remove any. */
  lemma {:induction false} ImportsAdd(l: Listing, cs: seq<Command>)
    requires IsListing(l) && AreImports(cs)
    ensures var r := After(l, cs);
      && r.saved == l.saved && |r.items| >= |l.items|
      && Names(r.items)[|r.items| - |l.items|..] == Names(l.items)
      && forall i :: 0 <= i < |l.items| && l.items[i].protected ==> r.items[|r.items| - |l.items| + i].protected
    decreases |cs|
  {
    hide Imported;
    if cs != [] {
      ImportsAdd(l, cs[..|cs| - 1]);
      var m := After(l, cs[..|cs| - 1]);
      var c := cs[|cs| - 1];
      ImportAdds(m.items, c.name, c.protect);
    }
  }

  lemma ImportAdds(items: seq<Item>, name: Name, protect: bool)
    ensures var r := Imported(items, name, protect);
      var d := |r| - |items|;
      && 0 <= d <= 1 && Names(r)[d..] == Names(items)
      && forall i :: 0 <= i < |items| && items[i].protected ==> r[d + i].protected
  {
    hide Position;
  }

  lemma {:induction false} OnlyProtected(items: seq<Item>)
    ensures forall i :: 0 <= i < |ProtectedOnes(items)| ==>
      ProtectedOnes(items)[i].protected && ProtectedOnes(items)[i] in items
    ensures forall i :: 0 <= i < |items| && items[i].protected ==> items[i] in ProtectedOnes(items)
  {
    if items != [] {
      OnlyProtected(items[1..]);
    }
  }

  /** Saving a list that is not empty, importing and restoring leaves the symbols saved
      and, in front of them, those added since that are protected. */
  lemma RestoreUndoesImports(l: Listing, cs: seq<Command>)
    requires IsListing(l) && l.items != [] && AreImports(cs)
    ensures var added := After(l, [Save] + cs);
      var r := After(l, [Save] + cs + [Restore]);
      var n := |added.items| - |l.items|;
      && n >= 0 && r.saved == 0 && r.items == ProtectedOnes(added.items[..n]) + added.items[n..]
      && Names(added.items[n..]) == Names(l.items)
  {
    hide After, ProtectedOnes, Imported;
    AfterSnoc(l, [Save] + cs, Restore);
    SaveFirst(l, cs);
    ImportsAdd(Effect(l, Save), cs);
    var added := After(l, [Save] + cs);
    var n := |added.items| - |l.items|;
    assert Names(added.items[n..]) == Names(added.items)[n..];
  }

  lemma NoCommands(l: Listing, cs: seq<Command>)
    requires IsListing(l)
    ensures After(l, cs[..0]) == l
  {
  }

  lemma AfterSnoc(l: Listing, cs: seq<Command>, c: Command)
    requires IsListing(l)
    ensures After(l, cs + [c]) == Effect(After(l, cs), c)
  {
    assert (cs + [c])[..|cs|] == cs;
  }

  lemma {:induction false} SaveFirst(l: Listing, cs: seq<Command>)
    requires IsListing(l)
    ensures After(l, [Save] + cs) == After(Effect(l, Save), cs)
    decreases |cs|
  {
    var all := [Save] + cs;
    if cs == [] {
      assert all[..0] == [];
      assert After(l, all[..0]) == l;
    } else {
      SaveFirst(l, cs[..|cs| - 1]);
      assert all[..|all| - 1] == [Save] + cs[..|cs| - 1];
    }
  }

  lemma {:induction false} ViewOfKept(list: seq<Symbol>, k: nat)
    requires k <= |list|
    ensures View(Kept(list, k)) == ProtectedOnes(View(list)[..k])
  {
    if k > 0 {
      ViewOfKept(list, k - 1);
      KeptStep(list, k);
      ProtectedStep(View(list), k);
    }
  }

  lemma KeptStep(list: seq<Symbol>, k: nat)
    requires 0 < k <= |list|
    ensures View(Kept(list, k)) ==
            (if list[k - 1].protected then [Item(list[k - 1].name, true)] else []) + View(Kept(list, k - 1))
  {
    hide View;
    if list[k - 1].protected {
      ViewCons(list[k - 1], Kept(list, k - 1));
    }
  }

  lemma ProtectedStep(v: seq<Item>, k: nat)
    requires 0 < k <= |v|
    ensures ProtectedOnes(v[..k]) == (if v[k - 1].protected then [v[k - 1]] else []) + ProtectedOnes(v[..k - 1])
  {
    hide ProtectedOnes;
    ProtectedSnoc(v[..k - 1], v[k - 1]);
    assert v[..k - 1] + [v[k - 1]] == v[..k];
  }

  lemma ViewJoin(a: seq<Symbol>, b: seq<Symbol>)
    ensures View(a + b) == View(a) + View(b)
  {
  }

  lemma ViewSuffix(list: seq<Symbol>, n: nat)
    requires n <= |list|
    ensures View(list[n..]) == View(list)[n..]
  {
  }

  lemma {:induction false} KeptInside(list: seq<Symbol>, k: nat)
    requires k <= |list|
    ensures forall s :: s in Kept(list, k) ==> s in list
  {
    if k > 0 {
      KeptInside(list, k - 1);
    }
  }

  lemma ViewCons(s: Symbol, list: seq<Symbol>)
    ensures View([s] + list) == [Item(s.name, s.protected)] + View(list)
  {
  }

  lemma {:induction false} ProtectedSnoc(items: seq<Item>, x: Item)
    ensures ProtectedOnes(items + [x]) == (if x.protected then [x] else []) + ProtectedOnes(items)
  {
    if items == [] {
      assert items + [x] == [x];
    } else {
      ProtectedSnoc(items[1..], x);
      assert (items + [x])[1..] == items[1..] + [x];
    }
  }

  class Table {
    const size: nat
    const buckets: array<seq<Entry>>
    var first: seq<Symbol>  // the list, the latest symbol first
    var saved: nat          // length of the list at save_symbols; 0 for none

    constructor (size: nat)
      requires size > 0
      ensures Valid() && first == [] && saved == 0 && fresh(buckets)
    {
      this.size := size;
      buckets := new seq<Entry>[size](i => []);
      first, saved := [], 0;
    }

    /** The hash table and the list hold the same symbols. */
    ghost predicate Valid()
      reads this, buckets
    {
      && size > 0 && buckets.Length == size && saved <= |first|
      && NamesDiffer(first)
      && forall b :: 0 <= b < size ==> IsChain(buckets[b], Members(first), size, b)
    }

    /** add_hashentry: at the head of its chain. */
    method AddHashEntry(name: Name, sym: Symbol)
      requires size > 0 && buckets.Length == size
      modifies buckets
      ensures forall b :: 0 <= b < size ==>
        buckets[b] == if b == Code(name, size) then [Entry(name, sym)] + old(buckets[b]) else old(buckets[b])
    {
      var h := HashCode(name);
      buckets[h % size] := [Entry(name, sym)] + buckets[h % size];
    }

    /** rem_hashentry: the first entry of that name in its chain. The source stops with an
        internal error if there is none. */
    method RemHashEntry(name: Name) returns (ok: bool)
      requires size > 0 && buckets.Length == size
      modifies buckets
      ensures ok <==>
        exists k :: 0 <= k < |old(buckets[Code(name, size)])| && old(buckets[Code(name, size)])[k].name == name
      ensures !ok ==> forall b :: 0 <= b < size ==> buckets[b] == old(buckets[b])
      ensures ok ==>
        forall b :: 0 <= b < size ==>
          if b == Code(name, size) then IsRemoval(old(buckets[b]), buckets[b], name) else buckets[b] == old(buckets[b])
    {
      var h := HashCode(name);
      var chain := buckets[h % size];
      var k := 0;
      while k < |chain|
        invariant 0 <= k <= |chain| && forall i :: 0 <= i < k ==> chain[i].name != name
        invariant buckets[..] == old(buckets[..])
      {
        if chain[k].name == name {
          buckets[h % size] := chain[..k] + chain[k + 1..];
          assert h % size == Code(name, size) && chain == old(buckets[Code(name, size)]) && chain[k].name == name;
          assert IsRemoval(chain, chain[..k] + chain[k + 1..], name);
          return true;
        }
        k := k + 1;
      }
      return false;
    }

    /** find_name and find_symbol */
    method FindSymbol(name: Name) returns (r: Symbol?)
      requires Valid()
      ensures r == null <==> forall k :: 0 <= k < |first| ==> first[k].name != name
      ensures r != null ==> r in first && r.name == name
    {
      var h := HashCode(name);
      var chain := buckets[h % size];
      assert IsChain(chain, Members(first), size, h % size);
      var k := 0;
      while k < |chain|
        invariant 0 <= k <= |chain| && forall i :: 0 <= i < k ==> chain[i].name != name
      {
        if chain[k].name == name {
          return chain[k].sym;
        }
        k := k + 1;
      }
      r := null;
    }

    method AddSymbol(p: Symbol)
      requires Valid() && forall k :: 0 <= k < |first| ==> first[k].name != p.name
      modifies this`first, buckets
      ensures Valid() && first == [p] + old(first)
    {
      first := [p] + first;
      assert Members(first) == Members(old(first)) + {p};
      AddHashEntry(p.name, p);
      forall b | 0 <= b < size
        ensures IsChain(buckets[b], Members(first), size, b)
      {
        ChainGrows(old(buckets[b]), Members(old(first)), size, b, p);
      }
    }

    /** new_import: the symbol of that name, or a new one. */
    method NewImport(name: Name) returns (r: Symbol)
      requires Valid()
      modifies this`first, buckets
      ensures Valid() && r in first && r.name == name
      ensures first == old(first) || (fresh(r) && first == [r] + old(first))
      ensures first == old(first) <==> exists k :: 0 <= k < |old(first)| && old(first)[k].name == name
      ensures first != old(first) ==> !r.protected
    {
      var found := FindSymbol(name);
      if found != null {
        return found;
      }
      r := new Symbol(name);
      AddSymbol(r);
    }

    method SaveSymbols()
      requires Valid()
      modifies this`saved
      ensures Valid() && saved == |first|
    {
      saved := |first|;
    }

    /** The hash entry of a symbol that leaves the list. */
    method RemoveFromHash(s: Symbol, ghost symbols: set<Symbol>) returns (ok: bool)
      requires size > 0 && buckets.Length == size && s in symbols
      requires forall t :: t in symbols ==> t == s || t.name != s.name
      requires forall b :: 0 <= b < size ==> IsChain(buckets[b], symbols, size, b)
      modifies buckets
      ensures ok && forall b :: 0 <= b < size ==> IsChain(buckets[b], symbols - {s}, size, b)
    {
      hide IsChain, IsRemoval;
      SomewhereInChain(buckets[Code(s.name, size)], symbols, size, s);
      ok := RemHashEntry(s.name);
      forall b | 0 <= b < size
        ensures IsChain(buckets[b], symbols - {s}, size, b)
      {
        ChainShrinks(old(buckets[b]), buckets[b], symbols, s, size, b);
      }
    }

    /** k symbols of the list are taken off; the protected ones among them are kept, and
        the hash table holds the rest. */
    ghost predicate Restoring(all: seq<Symbol>, k: nat, protected: seq<Symbol>)
      reads this, buckets, all
    {
      && k <= |all| && first == all[k..] && protected == Kept(all, k)
      && size > 0 && buckets.Length == size && NamesDiffer(all)
      && forall b :: 0 <= b < size ==> IsChain(buckets[b], Members(protected) + Members(first), size, b)
    }

    method RestoreOne(protected: seq<Symbol>, ghost all: seq<Symbol>, ghost k: nat)
      returns (protected': seq<Symbol>, ok: bool)
      requires Restoring(all, k, protected) && first != []
      modifies this`first, buckets
      ensures Restoring(all, k + 1, protected') && ok && |first| == |old(first)| - 1
    {
      hide IsChain, NamesDiffer, Members;
      var symp := first[0];
      OthersDiffer(all, k);
      assert first == [symp] + all[k + 1..];
      first := first[1..];
      ok, protected' := true, protected;
      if symp.protected {
        MemberMoves(protected, symp, first);
        protected' := [symp] + protected;
      } else {
        MemberLeaves(protected, symp, first);
        ok := RemoveFromHash(symp, Members(protected) + Members([symp] + first));
      }
    }

    /** restore_symbols: the saved list, with the protected symbols added since in front
        of it. Nothing happens if the list was empty when it was saved. */
    method RestoreSymbols() returns (ok: bool)
      requires Valid()
      modifies this`first, this`saved, buckets
      ensures ok && Valid() && saved == 0
      ensures var n := |old(first)| - old(saved);
        first == if old(saved) == 0 then old(first) else old(Kept(first, |first| - saved)) + old(first)[n..]
    {
      hide IsChain, NamesDiffer, Members, Restoring, Kept;
      ok := true;
      if saved == 0 {
        return;
      }
      ghost var all := first;
      ghost var n := |all| - saved;
      assert all[n..] == old(first)[n..];
      var protected: seq<Symbol> := [];
      ghost var k := 0;
      ghost var kept := Kept(all, n);
      RestoringStarts();
      while |first| != saved
        invariant Kept(all, n) == kept && saved == old(saved)
        invariant Restoring(all, k, protected) && k + |first| == |all| && saved <= |first| && ok
        decreases |first|
      {
        protected, ok := RestoreOne(protected, all, k);
        k := k + 1;
        RestoringMeans(all, k, protected);
      }
      RestoringEnds(all, k, protected);
      first := protected + first;
      saved := 0;
    }

    ghost function State(): (l: Listing)
      requires Valid()
      reads this, buckets, first
      ensures IsListing(l)
    {
      Listing(View(first), saved)
    }

    /** One import, which may protect the symbol. */
    method ImportProtected(name: Name, protect: bool, ghost owned: set<Symbol>)
      requires Valid() && forall i :: 0 <= i < |first| ==> first[i] in owned
      modifies this`first, buckets, owned
      ensures Valid() && saved == old(saved)
      ensures View(first) == Imported(old(View(first)), name, protect)
      ensures forall i :: 0 <= i < |first| ==> first[i] in owned || fresh(first[i])
    {
      hide IsChain, Members, View, Position;
      ghost var before := View(first);
      ghost var k := Position(before, name);
      var r := NewImport(name);
      if protect {
        r.protected := true;
      }
      ghost var after := View(first);
      if first == old(first) {
        assert k < |before| && first[k].name == name && first[k] == r;
        assert forall i :: 0 <= i < |first| && i != k ==> first[i].name != name;
        assert after == before[k := Item(name, before[k].protected || protect)];
      } else {
        assert k == |before|;
        assert after == [Item(name, protect)] + before;
      }
    }

    /** One command. */
    method Obey(c: Command, ghost owned: set<Symbol>) returns (ok: bool)
      requires Valid() && forall i :: 0 <= i < |first| ==> first[i] in owned
      modifies this`first, this`saved, buckets, owned
      ensures Valid() && ok
      ensures State() == Effect(old(State()), c)
      ensures forall i :: 0 <= i < |first| ==> first[i] in owned || fresh(first[i])
    {
      hide IsChain, NamesDiffer, Members, View, Kept, Imported, ProtectedOnes;
      ok := true;
      match c
      case Import(name, protect) => ImportProtected(name, protect, owned);
      case Save => SaveSymbols();
      case Restore =>
        ok := RestoreListing();
    }

    /** A restore, as it is seen from outside. */
    method RestoreListing() returns (ok: bool)
      requires Valid()
      modifies this`first, this`saved, buckets
      ensures Valid() && ok
      ensures State() == Effect(old(State()), Restore)
      ensures forall i :: 0 <= i < |first| ==> first[i] in old(first)
    {
      hide IsChain, NamesDiffer, Members, View, Kept, ProtectedOnes;
      ghost var all, was, n := first, saved, |first| - saved;
      ghost var kept := Kept(all, n);
      ViewOfKept(all, n);
      ghost var allView, keptView := View(all), View(kept);
      KeptInside(all, n);
      ok := RestoreSymbols();
      assert View(all) == allView && View(kept) == keptView;
      if was != 0 {
        assert first == kept + all[n..];
        ViewJoin(kept, all[n..]);
        ViewSuffix(all, n);
      }
    }

    /** Any sequence of imports, savings and restorings does to the list what its
        specification says, and keeps list and hash table together. */
    method Perform(cs: seq<Command>) returns (ok: bool)
      requires Valid()
      modifies this, buckets, first
      ensures Valid() && ok
      ensures State() == After(old(State()), cs)
    {
      hide IsChain, NamesDiffer, Members, View, Kept, Effect, After, Valid;
      ok := true;
      ghost var start := State();
      ghost var mine := set s | s in first;
      ghost var owned := mine;
      var i := 0;
      NoCommands(start, cs);
      while i < |cs|
        invariant 0 <= i <= |cs| && Valid() && ok
        invariant State() == After(start, cs[..i])
        invariant forall s :: s in owned ==> s in mine || fresh(s)
        invariant forall j :: 0 <= j < |first| ==> first[j] in owned
        decreases |cs| - i
      {
        assert cs[..i + 1] == cs[..i] + [cs[i]];
        AfterSnoc(start, cs[..i], cs[i]);
        ok := Obey(cs[i], owned);
        owned := owned + set s | s in first;
        i := i + 1;
      }
      assert cs[..|cs|] == cs;
    }

    lemma RestoringStarts()
      requires Valid()
      ensures Restoring(first, 0, [])
    {
      assert Members([]) + Members(first) == Members(first);
    }

    lemma RestoringMeans(all: seq<Symbol>, k: nat, protected: seq<Symbol>)
      requires Restoring(all, k, protected)
      ensures k <= |all| && first == all[k..] && protected == Kept(all, k) && |first| == |all| - k
    {
    }

    lemma RestoringEnds(all: seq<Symbol>, k: nat, protected: seq<Symbol>)
      requires Restoring(all, k, protected)
      ensures k <= |all| && first == all[k..] && protected == Kept(all, k)
      ensures NamesDiffer(protected + first) && size > 0 && buckets.Length == size
      ensures forall b :: 0 <= b < size ==> IsChain(buckets[b], Members(protected + first), size, b)
    {
      hide IsChain, NamesDiffer, Members, Kept;
      AllDiffer(all, k);
      MembersOf(protected, first, protected + first);
    }
  }

  /** The first entry of a name taken out. */
  ghost predicate IsRemoval(chain: seq<Entry>, chain': seq<Entry>, name: Name) {
    exists k :: 0 <= k < |chain| && chain[k].name == name && chain' == chain[..k] + chain[k + 1..]
  }

  lemma MembersOf(a: seq<Symbol>, b: seq<Symbol>, c: seq<Symbol>)
    requires c == a + b
    ensures Members(c) == Members(a) + Members(b)
  {
  }

  lemma MemberMoves(kept: seq<Symbol>, s: Symbol, rest: seq<Symbol>)
    ensures Members([s] + kept) + Members(rest) == Members(kept) + Members([s] + rest)
  {
  }

  lemma MemberLeaves(kept: seq<Symbol>, s: Symbol, rest: seq<Symbol>)
    ensures s !in kept && s !in rest ==> Members(kept) + Members(rest) == Members(kept) + Members([s] + rest) - {s}
    ensures forall t :: t in Members(kept) + Members([s] + rest) ==> t in kept || t in [s] + rest
    ensures s in Members(kept) + Members([s] + rest)
  {
  }

  lemma ChainGrows(chain: seq<Entry>, symbols: set<Symbol>, size: nat, b: nat, p: Symbol)
    requires size > 0 && IsChain(chain, symbols, size, b) && forall s :: s in symbols ==> s.name != p.name
    ensures IsChain(if b == Code(p.name, size) then [Entry(p.name, p)] + chain else chain, symbols + {p}, size, b)
  {
    hide Code;
  }

  /** The symbols kept so far and those not looked at have different names. */
  lemma AllDiffer(all: seq<Symbol>, k: nat)
    requires k <= |all| && NamesDiffer(all)
    ensures NamesDiffer(Kept(all, k) + all[k..])
  {
    KeptNamesDiffer(all, k);
    KeptAreProtected(all, k);
    forall i, j | 0 <= i < |Kept(all, k)| && 0 <= j < |all[k..]|
      ensures Kept(all, k)[i].name != all[k..][j].name
    {
      assert Kept(all, k)[i] in all[..k];
    }
    TwoLists(Kept(all, k), all[k..]);
  }

  /** The k-th symbol is not among those kept, nor further on, nor is its name. */
  lemma OthersDiffer(all: seq<Symbol>, k: nat)
    requires k < |all| && NamesDiffer(all)
    ensures all[k] !in Kept(all, k) && all[k] !in all[k + 1..]
    ensures forall s :: s in Kept(all, k) || s in all[k..] ==> s == all[k] || s.name != all[k].name
  {
    KeptAreProtected(all, k);
    forall i | 0 <= i < |Kept(all, k)|
      ensures Kept(all, k)[i].name != all[k].name
    {
      assert Kept(all, k)[i] in all[..k];
    }
  }

  lemma SomewhereInChain(chain: seq<Entry>, symbols: set<Symbol>, size: nat, s: Symbol)
    requires size > 0 && s in symbols && IsChain(chain, symbols, size, Code(s.name, size))
    ensures exists k :: 0 <= k < |chain| && chain[k].name == s.name
  {
    hide Code;
  }

  lemma ChainShrinks(chain: seq<Entry>, chain': seq<Entry>, symbols: set<Symbol>, s: Symbol, size: nat, b: nat)
    requires size > 0 && IsChain(chain, symbols, size, b) && s in symbols
    requires forall t :: t in symbols ==> t == s || t.name != s.name
    requires if b == Code(s.name, size) then IsRemoval(chain, chain', s.name) else chain' == chain
    ensures IsChain(chain', symbols - {s}, size, b)
  {
    hide Code, AllListed, EntriesDiffer, IsComplete;
    if b == Code(s.name, size) {
      var k :| 0 <= k < |chain| && chain[k].name == s.name && chain' == chain[..k] + chain[k + 1..];
      RemovedListed(chain, k, symbols, s, size, b);
      RemovedDiffer(chain, k);
      RemovedComplete(chain, k, symbols, s, size, b);
    } else {
      OtherChain(chain, symbols, s, size, b);
    }
  }

  lemma OtherChain(chain: seq<Entry>, symbols: set<Symbol>, s: Symbol, size: nat, b: nat)
    requires size > 0 && b != Code(s.name, size) && IsChain(chain, symbols, size, b)
    ensures IsChain(chain, symbols - {s}, size, b)
  {
    hide Code;
  }

  lemma RemovedListed(chain: seq<Entry>, k: nat, symbols: set<Symbol>, s: Symbol, size: nat, b: nat)
    requires size > 0 && k < |chain| && chain[k].name == s.name && AllListed(chain, symbols, size, b)
    requires EntriesDiffer(chain)
    ensures AllListed(chain[..k] + chain[k + 1..], symbols - {s}, size, b)
  {
    hide Code;
    var rest := chain[..k] + chain[k + 1..];
    RemovedParts(chain, k);
    forall i | 0 <= i < |rest|
      ensures rest[i].sym in symbols - {s} && rest[i].name == rest[i].sym.name && Code(rest[i].name, size) == b
    {
      var j := if i < k then i else i + 1;
      assert rest[i] == chain[j] && chain[j].name != chain[k].name;
    }
  }

  lemma RemovedDiffer(chain: seq<Entry>, k: nat)
    requires k < |chain| && EntriesDiffer(chain)
    ensures EntriesDiffer(chain[..k] + chain[k + 1..])
  {
    RemovedParts(chain, k);
  }

  lemma RemovedComplete(chain: seq<Entry>, k: nat, symbols: set<Symbol>, s: Symbol, size: nat, b: nat)
    requires size > 0 && k < |chain| && chain[k].name == s.name && IsComplete(chain, symbols, size, b)
    requires forall t :: t in symbols ==> t == s || t.name != s.name
    ensures IsComplete(chain[..k] + chain[k + 1..], symbols - {s}, size, b)
  {
    hide Code;
    RemovedParts(chain, k);
    forall t | t in symbols - {s} && Code(t.name, size) == b
      ensures Entry(t.name, t) in chain[..k] + chain[k + 1..]
    {
      assert Entry(t.name, t) in chain;
    }
  }

  lemma RemovedParts(chain: seq<Entry>, k: nat)
    requires k < |chain|
    ensures var rest := chain[..k] + chain[k + 1..];
      && (forall i :: 0 <= i < |rest| ==> rest[i] == if i < k then chain[i] else chain[i + 1])
      && (forall e :: e in chain && e != chain[k] ==> e in rest)
  {
    var rest := chain[..k] + chain[k + 1..];
    forall e | e in chain && e != chain[k]
      ensures e in rest
    {
      var i :| 0 <= i < |chain| && chain[i] == e;
      if i < k {
        assert rest[i] == e;
      } else {
        assert rest[i - 1] == e;
      }
    }
  }
}
