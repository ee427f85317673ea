/** The intermediate code shared by the front end and the optimiser, restricted to
    scalar variables: an instruction computes z from q1 and q2, compares, branches
    or carries a label. Variables are named by their index in the variable list. */
module IntermediateCode {
  import opened Options

  datatype Op = ADD | SUB | MULT | DIV | OR | XOR | AND | OTHER(code: nat)

  datatype Cond = BEQ | BNE | BLT | BGT | BLE | BGE

  datatype Operand = Absent | Konst(value: int) | Var(v: nat)

  datatype IC =
    | Assign(z: nat, q1: Operand)
    | Arith(op: Op, z: nat, q1: Operand, q2: Operand)
    | Compare(q1: Operand, q2: Operand)
    | Branch(cond: Cond, target: nat)
    | Bra(target: nat)
    | Label(name: nat)

  /** What the operators compute; the optimiser's theorems hold for any choice. */
  type Sem = (Op, int, int) -> int

  /** A variable that was never written holds 0. */
  type Store = map<nat, int>

  /** The store and the two values compared last. */
  datatype State = State(store: Store, cc: (int, int))

  function Get(s: Store, v: nat): int {
    if v in s then s[v] else 0
  }

  function Value(o: Operand, s: Store): int {
    match o
    case Absent => 0
    case Konst(c) => c
    case Var(v) => Get(s, v)
  }

  predicate Defines(ic: IC) {
    ic.Assign? || ic.Arith?
  }

  predicate IsBranch(ic: IC) {
    ic.Branch? || ic.Bra?
  }

  function Vars(o: Operand): set<nat> {
    if o.Var? then {o.v} else {}
  }

  /** The use list: exactly the variables among the operands. */
  function Uses(ic: IC): set<nat> {
    match ic
    case Assign(_, q1) => Vars(q1)
    case Arith(_, _, q1, q2) => Vars(q1) + Vars(q2)
    case Compare(q1, q2) => Vars(q1) + Vars(q2)
    case _ => {}
  }

  /** The change list: the target, if there is one. */
  function Changes(ic: IC): set<nat> {
    if Defines(ic) then {ic.z} else {}
  }

  /** The variables that occur in an instruction. */
  function Mentions(ic: IC): set<nat> {
    Changes(ic) + Uses(ic)
  }

  /** The same computation into another variable. */
  function WithTarget(ic: IC, v: nat): IC
    requires Defines(ic)
  {
    match ic
    case Assign(_, q1) => Assign(v, q1)
    case Arith(op, _, q1, q2) => Arith(op, v, q1, q2)
  }

  function Rhs(ic: IC, sem: Sem, s: Store): int
    requires Defines(ic)
  {
    match ic
    case Assign(_, q1) => Value(q1, s)
    case Arith(op, _, q1, q2) => sem(op, Value(q1, s), Value(q2, s))
  }

  predicate Holds(c: Cond, cc: (int, int)) {
    match c
    case BEQ => cc.0 == cc.1
    case BNE => cc.0 != cc.1
    case BLT => cc.0 < cc.1
    case BGT => cc.0 > cc.1
    case BLE => cc.0 <= cc.1
    case BGE => cc.0 >= cc.1
  }

  /** The effect of one instruction on the state; branches and labels have none. */
  function Exec(ic: IC, sem: Sem, st: State): State {
    match ic
    case Assign(z, _) => st.(store := st.store[z := Rhs(ic, sem, st.store)])
    case Arith(_, z, _, _) => st.(store := st.store[z := Rhs(ic, sem, st.store)])
    case Compare(q1, q2) => st.(cc := (Value(q1, st.store), Value(q2, st.store)))
    case _ => st
  }

  /** An instruction sees only its operands: where they agree, so does what it
      computes, and no other variable's agreement is lost. */
  lemma ExecDependsOnUses(ic: IC, sem: Sem, s: State, t: State)
    requires s.cc == t.cc && forall v :: v in Uses(ic) ==> Get(s.store, v) == Get(t.store, v)
    ensures Defines(ic) ==> Rhs(ic, sem, s.store) == Rhs(ic, sem, t.store)
    ensures var s', t' := Exec(ic, sem, s), Exec(ic, sem, t);
      && s'.cc == t'.cc
      && (forall x: nat :: x in Changes(ic) || Get(s.store, x) == Get(t.store, x) ==>
            Get(s'.store, x) == Get(t'.store, x))
  {
    if ic.Assign? || ic.Arith? || ic.Compare? {
      assert Value(ic.q1, s.store) == Value(ic.q1, t.store);
    }
    if ic.Arith? || ic.Compare? {
      assert Value(ic.q2, s.store) == Value(ic.q2, t.store);
    }
  }

  function ExecAll(ics: seq<IC>, sem: Sem, st: State): State {
    if ics == [] then st else ExecAll(ics[1..], sem, Exec(ics[0], sem, st))
  }

  lemma {:induction false} ExecAppend(a: seq<IC>, b: seq<IC>, sem: Sem, st: State)
    ensures ExecAll(a + b, sem, st) == ExecAll(b, sem, ExecAll(a, sem, st))
  {
    if a == [] {
      assert a + b == b;
    } else {
      assert (a + b)[1..] == a[1..] + b;
      ExecAppend(a[1..], b, sem, Exec(a[0], sem, st));
    }
  }

  lemma ExecSnoc(a: seq<IC>, ic: IC, sem: Sem, st: State)
    ensures ExecAll(a + [ic], sem, st) == Exec(ic, sem, ExecAll(a, sem, st))
  {
    ExecAppend(a, [ic], sem, st);
    var mid := ExecAll(a, sem, st);
    assert ExecAll([ic], sem, mid) == ExecAll([ic][1..], sem, Exec(ic, sem, mid));
  }

  // ----- flow graphs -----

  /** A basic block. Blocks form a list in program order, the normal successor of a
      block being the next one; branchout is set exactly when the last instruction
      is a branch. */
  datatype Block = Block(ics: seq<IC>, branchout: Option<nat>)

  type Graph = seq<Block>

  predicate EndsInBra(b: Block) {
    b.ics != [] && b.ics[|b.ics| - 1].Bra?
  }

  ghost predicate WellFormed(g: Graph) {
    && |g| > 0
    && (forall b :: 0 <= b < |g| ==> WellFormedBlock(g[b], |g|))
  }

  ghost predicate WellFormedBlock(b: Block, count: nat) {
    && (b.branchout.Some? ==> b.branchout.value < count)
    && (b.branchout.Some? <==> b.ics != [] && IsBranch(b.ics[|b.ics| - 1]))
    && (forall k :: 0 <= k < |b.ics| - 1 ==> !IsBranch(b.ics[k]))
  }

  /** Fall-through to the next block counts unless the block ends in an
      unconditional branch. */
  predicate FallsThrough(g: Graph, b: nat)
    requires b < |g|
  {
    b + 1 < |g| && !EndsInBra(g[b])
  }

  predicate IsEdge(g: Graph, b: nat, c: nat)
    requires b < |g|
  {
    g[b].branchout == Some(c) || (FallsThrough(g, b) && c == b + 1)
  }

  datatype Config = At(block: nat, st: State) | Halted(st: State)

  predicate Taken(b: Block, cc: (int, int)) {
    b.ics != [] && var last := b.ics[|b.ics| - 1];
    last.Bra? || (last.Branch? && Holds(last.cond, cc))
  }

  /** Runs one whole block and moves on to its successor; leaving the last block by
      its end halts the program. */
  function StepBlock(g: Graph, sem: Sem, c: Config): Config
    requires WellFormed(g)
    requires c.At? ==> c.block < |g|
    ensures StepBlock(g, sem, c).At? ==> StepBlock(g, sem, c).block < |g|
  {
    match c
    case Halted(_) => c
    case At(b, st) =>
      var end := ExecAll(g[b].ics, sem, st);
      if Taken(g[b], end.cc) then
        At(g[b].branchout.value, end)
      else if b + 1 < |g| then
        At(b + 1, end)
      else
        Halted(end)
  }

  /** The configuration after n blocks of a run that starts in the first block. */
  function Run(g: Graph, sem: Sem, st: State, n: nat): (c: Config)
    requires WellFormed(g)
    ensures c.At? ==> c.block < |g|
  {
    if n == 0 then At(0, st) else StepBlock(g, sem, Run(g, sem, st, n - 1))
  }

  lemma HaltedStays(g: Graph, sem: Sem, c: Config)
    requires WellFormed(g) && c.Halted?
    ensures StepBlock(g, sem, c) == c
  {
  }

  lemma StepFollowsEdge(g: Graph, sem: Sem, c: Config)
    requires WellFormed(g)
    requires c.At? && c.block < |g|
    ensures var d := StepBlock(g, sem, c);
      d.At? ==> IsEdge(g, c.block, d.block) && d.st == ExecAll(g[c.block].ics, sem, c.st)
  {
    assert WellFormedBlock(g[c.block], |g|);
  }
}
