/** The two-pass assembler (assembler/qasm.c), from the parsed lines of a source. */
module Assembler {
  import opened Options

  const WORD: int := 0x1_0000

  type Field = r: nat | r < 16
  type NormalCode = c: nat | c <= 12
  type Kind = k: nat | k < 4
  type ControlCode = c: nat | c <= 4

  const INT: ControlCode := 2

  /** A constant, or the name of a label or of an .EQU. */
  datatype Value = Number(n: int) | Named(name: string)

  datatype Operand =
    | Register(r: Field)
    | Indirect(r: Field)
    | PostIncrement(r: Field)
    | PreDecrement(r: Field)
    | Immediate(v: Value)
    | Illegal

  datatype Body =
    | Nothing
    | Blank
    | Org(v: int)
    | Equ(v: int)
    | Data(args: seq<Value>)
    | Text(chars: seq<int>)
    | Block(size: Value)
    | Normal(op: NormalCode, src: Operand, dst: Operand)
    | Jump(kind: Kind, target: Operand, negate: bool, flag: nat)
    | Control(code: ControlCode, arg: Operand)

  /** A line with its label, the empty string if it has none. */
  datatype Line = Line(name: string, body: Body)

  datatype Entry = Entry(name: string, address: int, words: seq<int>)

  // ----- what a source means -----

  predicate IsImmediate(o: Operand) {
    o.Immediate?
  }

  function Extra(o: Operand): nat {
    if IsImmediate(o) then 1 else 0
  }

  /** The six bits of an operand; an immediate is @R15++. */
  function OperandCode(o: Operand): (c: nat)
    ensures c < 64
  {
    match o
    case Register(r) => 4 * r
    case Indirect(r) => 4 * r + 1
    case PostIncrement(r) => 4 * r + 2
    case PreDecrement(r) => 4 * r + 3
    case Immediate(_) => 0x3e
    case Illegal => 0
  }

  /** The value of the first .EQU of that name among the first n lines. */
  function EquIn(source: seq<Line>, n: nat, name: string): Option<int>
    requires n <= |source|
  {
    if n == 0 then None
    else if EquIn(source, n - 1, name).Some? then EquIn(source, n - 1, name)
    else if source[n - 1].body.Equ? && source[n - 1].name == name then Some(source[n - 1].body.v)
    else None
  }

  function Valued(source: seq<Line>, n: nat, v: Value): Option<int>
    requires n <= |source|
  {
    match v
    case Number(m) => Some(m)
    case Named(name) => EquIn(source, n, name)
  }

  /** The number of words of line k. */
  function Size(source: seq<Line>, k: nat): nat
    requires k < |source|
  {
    match source[k].body
    case Data(args) => |args|
    case Text(chars) => |chars|
    case Block(size) =>
      var v := Valued(source, k, size);
      if v.Some? && v.value >= 0 then v.value else 0
    case Normal(_, src, dst) => 1 + Extra(src) + Extra(dst)
    case Jump(_, target, _, _) => 1 + Extra(target)
    case Control(code, arg) => 1 + if code == INT then Extra(arg) else 0
    case _ => 0
  }

  /** Where line k is placed: the words since the last .ORG. */
  function Position(source: seq<Line>, k: nat): int
    requires k <= |source|
  {
    if k == 0 then 0
    else if source[k - 1].body.Org? then source[k - 1].body.v
    else Position(source, k - 1) + Size(source, k - 1)
  }

  /** The address that an entry carries: none for directives without a place. */
  function AddressOf(source: seq<Line>, k: nat): int
    requires k < |source|
  {
    var b := source[k].body;
    if b.Org? || b.Equ? || b.Blank? then -1 else Position(source, k)
  }

  /** A label stays with its line, except that of an .EQU. */
  function LabelOf(line: Line): string {
    if line.body.Equ? || line.body.Blank? then "" else line.name
  }

  /** The address, modulo 2^16, of the first line with that label among the first n. */
  function LabelIn(source: seq<Line>, n: nat, name: string): Option<int>
    requires n <= |source|
  {
    if n == 0 then None
    else if LabelIn(source, n - 1, name).Some? then LabelIn(source, n - 1, name)
    else if LabelOf(source[n - 1]) == name then Some(AddressOf(source, n - 1) % WORD)
    else None
  }

  function Resolve(source: seq<Line>, v: Value): (r: Option<int>)
    ensures v.Number? ==> r == Some(v.n)
  {
    match v
    case Number(n) => Some(n)
    case Named(name) =>
      var e := EquIn(source, |source|, name);
      if e.Some? then e else LabelIn(source, |source|, name)
  }

  predicate Legal(o: Operand) {
    !o.Illegal?
  }

  predicate HasSize(source: seq<Line>, k: nat)
    requires k < |source| && source[k].body.Block?
  {
    var v := Valued(source, k, source[k].body.size);
    v.Some? && v.value >= 0
  }

  /** The first pass finds nothing wrong with line k. */
  predicate Accepted(source: seq<Line>, k: nat)
    requires k < |source|
  {
    var line := source[k];
    && (line.name != "" && !line.body.Blank? ==> LabelIn(source, k, line.name).None?)
    && match line.body
       case Equ(_) => EquIn(source, k, line.name).None?
       case Block(_) => HasSize(source, k)
       case Normal(_, _, _) => AcceptedInstruction(line.body)
       case Jump(_, _, _, _) => AcceptedInstruction(line.body)
       case Control(_, _) => AcceptedInstruction(line.body)
       case _ => true
  }

  predicate Resolved(source: seq<Line>, o: Operand) {
    IsImmediate(o) ==> Resolve(source, o.v).Some?
  }

  /** All names in line k are known. */
  predicate Known(source: seq<Line>, k: nat)
    requires k < |source|
  {
    match source[k].body
    case Data(args) => forall i :: 0 <= i < |args| ==> Resolve(source, args[i]).Some?
    case Normal(_, src, dst) => Resolved(source, src) && Resolved(source, dst)
    case Jump(_, target, _, _) => Resolved(source, target)
    case Control(code, arg) => code == INT ==> Resolved(source, arg)
    case _ => true
  }

  ghost predicate Assembles(source: seq<Line>) {
    forall k :: 0 <= k < |source| ==> Accepted(source, k) && Known(source, k)
  }

  /** What an immediate operand puts behind the instruction: constants are cut to a word
      at once. */
  function ImmediateWords(source: seq<Line>, o: Operand): seq<int>
    requires Resolved(source, o)
  {
    match o
    case Immediate(Number(n)) => [n % WORD]
    case Immediate(Named(name)) => [Resolve(source, Named(name)).value]
    case _ => []
  }

  /** One constant and one name: both passes fill the word behind the instruction. */
  predicate Mixed(src: Operand, dst: Operand) {
    IsImmediate(src) && IsImmediate(dst) && src.v.Number? != dst.v.Number?
  }

  function NormalHead(op: NormalCode, src: Operand, dst: Operand): int {
    op * 0x1000 + OperandCode(src) * 64 + OperandCode(dst)
  }

  function JumpHead(kind: Kind, target: Operand, negate: bool, flag: nat): int {
    0xf000 + OperandCode(target) * 64 + kind * 16 + (if negate then 8 else 0) + flag
  }

  function ControlHead(code: ControlCode, arg: Operand): int {
    0xe000 + code * 64 + if code == INT then OperandCode(arg) else 0
  }

  /** A relative jump to a name holds the distance from the entry behind it. */
  function JumpWords(source: seq<Line>, k: nat, kind: Kind, target: Operand): seq<int>
    requires k < |source| && Resolved(source, target)
  {
    if kind >= 2 && target.Immediate? && target.v.Named?
    then [(Resolve(source, target.v).value - AddressOf(source, k) - 2) % WORD]
    else ImmediateWords(source, target)
  }

  /** The words of line k in the end. A word that no pass fills is 0 here. */
  function Code(source: seq<Line>, k: nat): seq<int>
    requires k < |source| && Accepted(source, k) && Known(source, k)
  {
    match source[k].body
    case Data(args) => seq(|args|, i requires 0 <= i < |args| => Resolve(source, args[i]).value)
    case Text(chars) => chars
    case Block(_) => seq(Size(source, k), _ => 0)
    case Normal(op, src, dst) =>
      [NormalHead(op, src, dst)] +
      if Mixed(src, dst) then ImmediateWords(source, if src.v.Named? then src else dst) + [0]
      else ImmediateWords(source, src) + ImmediateWords(source, dst)
    case Jump(kind, target, negate, flag) =>
      [JumpHead(kind, target, negate, flag)] + JumpWords(source, k, kind, target)
    case Control(code, arg) =>
      [ControlHead(code, arg)] + if code == INT then ImmediateWords(source, arg) else []
    case _ => []
  }

  /** A line has as many words as it was given room. */
  lemma CodeFillsSize(source: seq<Line>, k: nat)
    requires k < |source| && Accepted(source, k) && Known(source, k)
    ensures |Code(source, k)| == Size(source, k)
  {
    hide EquIn, LabelIn, NormalHead, JumpHead, ControlHead;
  }

  // ----- the tables -----

  function Lookup(equs: seq<(string, int)>, name: string): Option<int> {
    if equs == [] then None
    else if equs[0].0 == name then Some(equs[0].1)
    else Lookup(equs[1..], name)
  }

  /** The list of .EQU names after n lines: a name is entered once. */
  function EquList(source: seq<Line>, n: nat): seq<(string, int)>
    requires n <= |source|
  {
    if n == 0 then []
    else
      var line := source[n - 1];
      if line.body.Equ? && EquIn(source, n - 1, line.name).None?
      then EquList(source, n - 1) + [(line.name, line.body.v)]
      else EquList(source, n - 1)
  }

  lemma {:induction false} LookupAppended(equs: seq<(string, int)>, e: (string, int), name: string)
    ensures Lookup(equs + [e], name) ==
            if Lookup(equs, name).Some? then Lookup(equs, name) else if e.0 == name then Some(e.1) else None
    decreases |equs|
  {
    if equs != [] {
      LookupAppended(equs[1..], e, name);
      assert (equs + [e])[1..] == equs[1..] + [e];
    }
  }

  /** Searching the list finds the first .EQU of the name. */
  lemma {:induction false} ListHoldsEqus(source: seq<Line>, n: nat, name: string)
    requires n <= |source|
    ensures Lookup(EquList(source, n), name) == EquIn(source, n, name)
  {
    if n > 0 {
      ListHoldsEqus(source, n - 1, name);
      var line := source[n - 1];
      if line.body.Equ? {
        ListHoldsEqus(source, n - 1, line.name);
        LookupAppended(EquList(source, n - 1), (line.name, line.body.v), name);
      }
    }
  }

  function Search(entries: seq<Entry>, name: string): Option<int> {
    if entries == [] then None
    else if entries[0].name == name then Some(entries[0].address % WORD)
    else Search(entries[1..], name)
  }

  const NEW := Entry("", -1, [])

  /** The first n lines have their labels and addresses, the others nothing yet. */
  ghost predicate Entered(entries: seq<Entry>, source: seq<Line>, n: nat) {
    && n <= |source| == |entries|
    && (forall k :: 0 <= k < n ==> entries[k].name == LabelOf(source[k]) && entries[k].address == AddressOf(source, k))
    && (forall k :: n <= k < |entries| ==> entries[k] == NEW)
  }

  lemma {:induction false} SearchFirst(entries: seq<Entry>, i: nat, name: string)
    requires i <= |entries|
    requires forall k :: 0 <= k < i ==> entries[k].name != name
    requires i < |entries| ==> entries[i].name == name
    ensures Search(entries, name) == if i < |entries| then Some(entries[i].address % WORD) else None
    decreases i
  {
    if i > 0 {
      SearchFirst(entries[1..], i - 1, name);
    }
  }

  lemma ListStarts(source: seq<Line>)
    ensures Position(source, 0) == 0 && EquList(source, 0) == []
  {
  }

  lemma {:induction false} FirstLabel(source: seq<Line>, n: nat, i: nat, name: string)
    requires i <= n <= |source|
    requires forall k :: 0 <= k < i ==> LabelOf(source[k]) != name
    requires i < n ==> LabelOf(source[i]) == name
    ensures LabelIn(source, n, name) == if i < n then Some(AddressOf(source, i) % WORD) else None
    decreases n
  {
    if n > 0 {
      FirstLabel(source, n - 1, if i < n then i else n - 1, name);
    }
  }

  /** Searching the entries finds the first line with the label. */
  lemma SearchFindsLabels(entries: seq<Entry>, source: seq<Line>, n: nat, name: string)
    requires Entered(entries, source, n) && (name != "" || n == |source|)
    ensures Search(entries, name) == LabelIn(source, n, name)
  {
    var i := 0;
    while i < n && LabelOf(source[i]) != name
      invariant 0 <= i <= n
      invariant forall k :: 0 <= k < i ==> LabelOf(source[k]) != name
    {
      i := i + 1;
    }
    FirstLabel(source, n, i, name);
    SearchFirst(entries, if i < n then i else |entries|, name);
  }

  // ----- the passes -----

  /** What the first pass leaves in an entry: constants are filled in, names are not. */
  function FirstWords(source: seq<Line>, k: nat): (w: seq<int>)
    requires k < |source|
    ensures |w| == Size(source, k)
  {
    var b := source[k].body;
    if b.Text? then b.chars
    else if b.Normal? || b.Jump? || b.Control? then InstructionWords(b)
    else seq(Size(source, k), _ => 0)
  }

  /** The position and the list after line k. */
  lemma NextLine(source: seq<Line>, k: nat)
    requires k < |source|
    ensures Position(source, k + 1) ==
            if source[k].body.Org? then source[k].body.v else Position(source, k) + |FirstWords(source, k)|
    ensures source[k].body.Blank? || source[k].body.Equ? ==> FirstWords(source, k) == []
    ensures var line := source[k];
            EquList(source, k + 1) ==
            if line.body.Equ? && EquIn(source, k, line.name).None? then EquList(source, k) + [(line.name, line.body.v)]
            else EquList(source, k)
  {
    hide InstructionWords, EquIn;
  }

  function InstructionWords(b: Body): seq<int>
    requires b.Normal? || b.Jump? || b.Control?
  {
    match b
    case Normal(op, src, dst) =>
      [NormalHead(op, src, dst)] + Constants(src, dst) + seq(Extra(src) + Extra(dst) - |Constants(src, dst)|, _ => 0)
    case Jump(kind, target, negate, flag) => [JumpHead(kind, target, negate, flag)] + Filled(target)
    case Control(code, arg) => [ControlHead(code, arg)] + if code == INT then Filled(arg) else []
  }

  predicate AcceptedInstruction(b: Body)
    requires b.Normal? || b.Jump? || b.Control?
  {
    match b
    case Normal(_, src, dst) => Legal(src) && Legal(dst)
    case Jump(_, target, _, flag) => Legal(target) && flag <= 7
    case Control(code, arg) => code == INT ==> Legal(arg)
  }

  function Filled(o: Operand): (w: seq<int>)
    ensures |w| == Extra(o)
  {
    match o
    case Immediate(Number(n)) => [n % WORD]
    case Immediate(_) => [0]
    case _ => []
  }

  function Constants(src: Operand, dst: Operand): (w: seq<int>)
    ensures |w| <= Extra(src) + Extra(dst)
  {
    (if src.Immediate? && src.v.Number? then [src.v.n % WORD] else []) +
    (if dst.Immediate? && dst.v.Number? then [dst.v.n % WORD] else [])
  }

  class Assembly {
    const source: seq<Line>
    var entries: seq<Entry>
    var equs: seq<(string, int)>

    constructor (source: seq<Line>)
      ensures this.source == source && equs == []
      ensures Entered(entries, source, 0)
    {
      this.source := source;
      entries := seq(|source|, _ => NEW);
      equs := [];
    }

    method FindLabel(name: string) returns (r: Option<int>)
      ensures r == Search(entries, name)
    {
      var i := 0;
      while i < |entries|
        invariant 0 <= i <= |entries|
        invariant forall k :: 0 <= k < i ==> entries[k].name != name
      {
        if entries[i].name == name {
          SearchFirst(entries, i, name);
          return Some(entries[i].address % WORD);
        }
        i := i + 1;
      }
      SearchFirst(entries, i, name);
      r := None;
    }

    method SearchEquList(name: string) returns (r: Option<int>)
      ensures r == Lookup(equs, name)
    {
      var i := 0;
      while i < |equs|
        invariant 0 <= i <= |equs|
        invariant Lookup(equs, name) == Lookup(equs[i..], name)
      {
        if equs[i].0 == name { return Some(equs[i].1); }
        i := i + 1;
      }
      r := None;
    }

    /** Appends a name that is not there yet. */
    method InsertIntoEquList(name: string, value: int) returns (ok: bool)
      modifies `equs
      ensures ok == Lookup(old(equs), name).None?
      ensures equs == if ok then old(equs) + [(name, value)] else old(equs)
    {
      var found := SearchEquList(name);
      ok := found.None?;
      if ok { equs := equs + [(name, value)]; }
    }

    method SizeOf(k: nat, size: Value) returns (r: Option<int>)
      requires k < |source| && equs == EquList(source, k)
      ensures r == Valued(source, k, size)
    {
      match size
      case Number(n) => r := Some(n);
      case Named(name) =>
        ListHoldsEqus(source, k, name);
        r := SearchEquList(name);
    }

    /** The first pass over one line, at the given address; fatal errors end the run. */
    method EnterLine(k: nat, address: int) returns (next: int, errors: nat, fatal: bool)
      requires k < |source| == |entries| && equs == EquList(source, k)
      requires entries[k] == NEW
      modifies `entries, `equs
      ensures |entries| == |source| && equs == EquList(source, k + 1)
      ensures forall i :: 0 <= i < |source| && i != k ==> entries[i] == old(entries)[i]
      ensures Entered(old(entries), source, k) && address == Position(source, k) ==>
                (errors == 0 && !fatal <==> Accepted(source, k))
      ensures Entered(old(entries), source, k) && address == Position(source, k) && errors == 0 && !fatal ==>
                next == Position(source, k + 1) &&
                entries[k] == Entry(LabelOf(source[k]), AddressOf(source, k), FirstWords(source, k))
    {
      hide EquIn, LabelIn, OperandCode, Search, Lookup, HasSize, Size, Position, EquList, AcceptedInstruction,
        InstructionWords;
      NextLine(source, k);
      var line := source[k];
      next, errors, fatal := address, 0, false;
      if line.body.Blank? { return; }
      var e := NEW;
      if line.name != "" {
        var known := FindLabel(line.name);
        if Entered(entries, source, k) { SearchFindsLabels(entries, source, k, line.name); }
        if known.Some? { errors := errors + 1; }
        e := e.(name := line.name);
      }
      e := e.(address := address);
      if line.body.Normal? || line.body.Jump? || line.body.Control? {
        var words, illegal := EnterInstruction(line.body);
        next := address + |words|;
        e := e.(words := words);
        if illegal { errors := errors + 1; }
      } else if line.body.Equ? {
        ListHoldsEqus(source, k, line.name);
        var ok := InsertIntoEquList(line.name, line.body.v);
        if !ok { errors := errors + 1; }
        e := e.(name := "", address := -1);
      } else {
        var words;
        words, fatal := EnterDirective(k);
        if line.body.Org? {
          e := e.(address := -1);
          next := line.body.v;
        } else {
          next := address + |words|;
        }
        e := e.(words := words);
      }
      entries := entries[k := e];
    }

    /** The words of a directive; a block without a size is fatal. */
    method EnterDirective(k: nat) returns (words: seq<int>, fatal: bool)
      requires k < |source| && equs == EquList(source, k)
      requires var b := source[k].body; b.Nothing? || b.Org? || b.Data? || b.Text? || b.Block?
      ensures fatal <==> source[k].body.Block? && !HasSize(source, k)
      ensures !fatal ==> words == FirstWords(source, k)
    {
      words, fatal := [], false;
      match source[k].body
      case Data(args) => words := seq(|args|, _ => 0);
      case Text(chars) => words := chars;
      case Block(size) =>
        var n := SizeOf(k, size);
        if n.None? || n.value < 0 {
          fatal := true;
        } else {
          words := seq(n.value, _ => 0);
        }
      case _ =>
    }

    /** The words of an instruction, with the constants in place. */
    method EnterInstruction(b: Body) returns (words: seq<int>, illegal: bool)
      requires b.Normal? || b.Jump? || b.Control?
      ensures !illegal <==> AcceptedInstruction(b)
      ensures !illegal ==> words == InstructionWords(b)
    {
      hide OperandCode;
      words, illegal := [], false;
      match b
      case Normal(op, src, dst) =>
        if !Legal(src) || !Legal(dst) { return [], true; }
        var n := 1 + Extra(src) + Extra(dst);
        words := seq(n, _ => 0);
        words := words[0 := NormalHead(op, src, dst)];
        var i := 1;
        if src.Immediate? && src.v.Number? {
          words := words[i := src.v.n % WORD];
          i := i + 1;
        }
        if dst.Immediate? && dst.v.Number? { words := words[i := dst.v.n % WORD]; }
      case Jump(kind, target, negate, flag) =>
        if !Legal(target) || flag > 7 { return [], true; }
        words := [JumpHead(kind, target, negate, flag)] + Filled(target);
      case Control(code, arg) =>
        if code == INT {
          if !Legal(arg) { return [], true; }
          words := [ControlHead(code, arg)] + Filled(arg);
        } else {
          words := [ControlHead(code, arg)];
        }
    }

    method FirstPass() returns (errors: int)
      requires Entered(entries, source, 0) && equs == []
      modifies `entries, `equs
      ensures errors == 0 <==> forall k :: 0 <= k < |source| ==> Accepted(source, k)
      ensures errors == 0 ==> FirstDone()
    {
      hide Accepted, FirstWords, Position, EquList;
      var address, k := 0, 0;
      errors := 0;
      assert Position(source, 0) == 0 && EquList(source, 0) == [] by { ListStarts(source); }
      while k < |source|
        invariant 0 <= k <= |source| == |entries| && errors >= 0 && equs == EquList(source, k)
        invariant errors == 0 <==> forall i :: 0 <= i < k ==> Accepted(source, i)
        invariant errors == 0 ==> Entered(entries, source, k) && address == Position(source, k)
        invariant errors == 0 ==> forall i :: 0 <= i < k ==> entries[i].words == FirstWords(source, i)
        invariant forall i :: k <= i < |entries| ==> entries[i] == NEW
      {
        var more, fatal;
        address, more, fatal := EnterLine(k, address);
        if fatal { return -1; }
        errors := errors + more;
        k := k + 1;
      }
    }

    /** The entries and the list after a first pass without errors. */
    ghost predicate FirstDone()
      reads this
    {
      && |entries| == |source|
      && Entered(entries, source, |source|) && equs == EquList(source, |source|)
      && forall k :: 0 <= k < |source| ==> entries[k].words == FirstWords(source, k)
    }

    method ResolveName(name: string) returns (r: Option<int>)
      requires Entered(entries, source, |source|) && equs == EquList(source, |source|)
      ensures r == Resolve(source, Named(name))
    {
      r := SearchEquList(name);
      ListHoldsEqus(source, |source|, name);
      if r.None? {
        r := FindLabel(name);
        SearchFindsLabels(entries, source, |source|, name);
      }
    }

    /** The second pass over the operands of line k. */
    method FillInstruction(k: nat) returns (words: seq<int>, errors: nat)
      requires Pending(k) && k < |source| && Accepted(source, k)
      requires source[k].body.Normal? || source[k].body.Jump? || source[k].body.Control?
      ensures errors == 0 <==> Known(source, k)
      ensures errors == 0 ==> words == Code(source, k)
    {
      hide EquIn, LabelIn, EquList, OperandCode, AddressOf, Entered, Resolve;
      words, errors := entries[k].words, 0;
      match source[k].body
      case Normal(_, src, dst) =>
        var i := 1;
        if src.Immediate? && src.v.Named? {
          var v := ResolveName(src.v.name);
          if v.None? { return words, 1; }
          words := words[i := v.value];
          i := i + 1;
        }
        if dst.Immediate? && dst.v.Named? {
          var v := ResolveName(dst.v.name);
          if v.None? { return words, 1; }
          words := words[i := v.value];
        }
        if Resolved(source, src) && Resolved(source, dst) { FilledNormal(source, k, words); }
      case Jump(kind, target, _, _) =>
        if target.Immediate? && target.v.Named? {
          var v := ResolveName(target.v.name);
          if v.None? { return words, 1; }
          EnteredAt(k);
          words := words[1 := if kind >= 2 then (v.value - entries[k].address - 2) % WORD else v.value];
        }
      case Control(code, arg) =>
        if code == INT && arg.Immediate? && arg.v.Named? {
          var v := ResolveName(arg.v.name);
          if v.None? { return words, 1; }
          words := words[1 := v.value];
        }
    }

    lemma EnteredAt(k: nat)
      requires Pending(k) && k < |source|
      ensures k < |entries| && entries[k].address == AddressOf(source, k)
    {
    }

    /** Every argument of a .DW. */
    method FillData(k: nat) returns (words: seq<int>, errors: nat)
      requires Pending(k) && k < |source| && source[k].body.Data? && Accepted(source, k)
      ensures errors == 0 <==> Known(source, k)
      ensures errors == 0 ==> words == Code(source, k)
    {
      hide EquIn, LabelIn, EquList, Entered, Resolve, FirstWords;
      var args := source[k].body.args;
      words, errors := [], 0;
      var i := 0;
      while i < |args|
        invariant 0 <= i <= |args|
        invariant errors == 0 <==> forall j :: 0 <= j < i ==> Resolve(source, args[j]).Some?
        invariant errors == 0 ==> |words| == i && forall j :: 0 <= j < i ==> words[j] == Resolve(source, args[j]).value
      {
        var v := ResolveValue(args[i]);
        if v.None? {
          errors := errors + 1;
        } else {
          words := words + [v.value];
        }
        i := i + 1;
      }
    }

    method ResolveValue(v: Value) returns (r: Option<int>)
      requires Entered(entries, source, |source|) && equs == EquList(source, |source|)
      ensures r == Resolve(source, v)
    {
      match v
      case Number(n) => r := Some(n);
      case Named(name) => r := ResolveName(name);
    }

    method FillLine(k: nat) returns (words: seq<int>, errors: nat)
      requires Pending(k) && k < |source| && Accepted(source, k)
      ensures errors == 0 <==> Known(source, k)
      ensures errors == 0 ==> words == Code(source, k)
    {
      hide Entered, Resolve, EquIn, LabelIn, EquList;
      var b := source[k].body;
      if b.Normal? || b.Jump? || b.Control? {
        words, errors := FillInstruction(k);
      } else if b.Data? {
        words, errors := FillData(k);
      } else {
        words, errors := entries[k].words, 0;
      }
    }

    method SecondPass() returns (errors: nat)
      requires FirstDone() && forall k :: 0 <= k < |source| ==> Accepted(source, k)
      modifies `entries
      ensures errors == 0 <==> forall k :: 0 <= k < |source| ==> Known(source, k)
      ensures errors == 0 ==> Finished()
    {
      hide Known, Code, Accepted, FirstWords, AddressOf, Resolve, EquList, LabelOf;
      errors := 0;
      var k := 0;
      while k < |source|
        invariant 0 <= k <= |source| == |entries|
        invariant Entered(entries, source, |source|)
        invariant forall i :: k <= i < |source| ==> entries[i].words == FirstWords(source, i)
        invariant errors == 0 <==> forall i :: 0 <= i < k ==> Known(source, i)
        invariant errors == 0 ==> forall i :: 0 <= i < k ==> entries[i].words == Code(source, i)
      {
        var words, more := FillLine(k);
        entries := entries[k := entries[k].(words := words)];
        errors := errors + more;
        k := k + 1;
      }
    }

    /** The second pass has reached line k. */
    ghost predicate Pending(k: nat)
      reads this
    {
      && |entries| == |source|
      && Entered(entries, source, |source|) && equs == EquList(source, |source|)
      && (k < |source| ==> entries[k].words == FirstWords(source, k))
    }

    /** Every entry has its label, address and words. */
    ghost predicate Finished()
      reads this
    {
      && Assembles(source) && |entries| == |source|
      && forall k :: 0 <= k < |source| ==>
           entries[k] == Entry(LabelOf(source[k]), AddressOf(source, k), Code(source, k))
    }

    /** No errors are counted for exactly the sources that assemble; their entries then
        hold addresses and code. The second pass runs after errors of the first, too,
        which adds errors only. */
    method Assemble() returns (errors: int)
      requires Entered(entries, source, 0) && equs == []
      modifies `entries, `equs
      ensures errors == 0 <==> Assembles(source)
      ensures errors == 0 ==> Finished()
    {
      hide Known, Code, Accepted, FirstWords;
      errors := FirstPass();
      if errors == 0 {
        errors := SecondPass();
      }
    }
  }

  /** The words of the second pass on top of those of the first. */
  lemma FilledNormal(source: seq<Line>, k: nat, words: seq<int>)
    requires k < |source| && source[k].body.Normal? && Accepted(source, k) && Known(source, k)
    requires var b := source[k].body;
      var first := FirstWords(source, k);
      var one := if b.src.Immediate? && b.src.v.Named? then first[1 := Resolve(source, b.src.v).value] else first;
      var i := if b.src.Immediate? && b.src.v.Named? then 2 else 1;
      words == if b.dst.Immediate? && b.dst.v.Named? then one[i := Resolve(source, b.dst.v).value] else one
    ensures words == Code(source, k)
  {
    hide NormalHead, Resolve;
  }
}
