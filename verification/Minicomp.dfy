/** The front end of c/vbcc/minicomp.c: expression trees, conditions, if and while
    become linear intermediate code with labels and branches. */
module Minicomp {
  import opened CIntegers
  import opened IntermediateCode
  import opened Options

  // ----- source programs -----

  datatype Expr = Number(n: int) | Variable(v: nat) | Binary(op: Op, left: Expr, right: Expr)

  datatype Test = Rel(c: Cond, left: Expr, right: Expr) | And(l: Test, r: Test) | Or(l: Test, r: Test)

  datatype Stmt =
    | Empty
    | Then(first: Stmt, second: Stmt)
    | Let(v: nat, e: Expr)
    | If(t: Test, thn: Stmt)
    | IfElse(t: Test, thn: Stmt, els: Stmt)
    | While(t: Test, body: Stmt)

  function Eval(e: Expr, sem: Sem, s: Store): int {
    match e
    case Number(n) => n
    case Variable(v) => Get(s, v)
    case Binary(op, l, r) => sem(op, Eval(l, sem, s), Eval(r, sem, s))
  }

  predicate Truth(t: Test, sem: Sem, s: Store) {
    match t
    case Rel(c, l, r) => Holds(c, (Eval(l, sem, s), Eval(r, sem, s)))
    case And(l, r) => Truth(l, sem, s) && Truth(r, sem, s)
    case Or(l, r) => Truth(l, sem, s) || Truth(r, sem, s)
  }

  /** Every loop iteration uses one unit of fuel. */
  datatype Outcome = Done(s: Store, fuel: nat) | OutOfFuel

  function Meaning(p: Stmt, sem: Sem, s: Store, fuel: nat): (r: Outcome)
    ensures r.Done? ==> r.fuel <= fuel
    decreases fuel, p
  {
    match p
    case Empty => Done(s, fuel)
    case Then(a, b) =>
      (match Meaning(a, sem, s, fuel)
       case Done(s1, f1) => Meaning(b, sem, s1, f1)
       case OutOfFuel => OutOfFuel)
    case Let(v, e) => Done(s[v := Eval(e, sem, s)], fuel)
    case If(t, thn) => if Truth(t, sem, s) then Meaning(thn, sem, s, fuel) else Done(s, fuel)
    case IfElse(t, thn, els) =>
      if Truth(t, sem, s) then Meaning(thn, sem, s, fuel) else Meaning(els, sem, s, fuel)
    case While(t, body) =>
      if !Truth(t, sem, s) then Done(s, fuel)
      else if fuel == 0 then OutOfFuel
      else
        match Meaning(body, sem, s, fuel - 1)
        case Done(s1, f1) => Meaning(p, sem, s1, f1)
        case OutOfFuel => OutOfFuel
  }

  /** The variables of the program are numbered below base; temporaries follow. */
  predicate ExprBelow(e: Expr, base: nat) {
    match e
    case Number(_) => true
    case Variable(v) => v < base
    case Binary(_, l, r) => ExprBelow(l, base) && ExprBelow(r, base)
  }

  predicate TestBelow(t: Test, base: nat) {
    match t
    case Rel(_, l, r) => ExprBelow(l, base) && ExprBelow(r, base)
    case And(l, r) => TestBelow(l, base) && TestBelow(r, base)
    case Or(l, r) => TestBelow(l, base) && TestBelow(r, base)
  }

  predicate StmtBelow(p: Stmt, base: nat) {
    match p
    case Empty => true
    case Then(a, b) => StmtBelow(a, base) && StmtBelow(b, base)
    case Let(v, e) => v < base && ExprBelow(e, base)
    case If(t, thn) => TestBelow(t, base) && StmtBelow(thn, base)
    case IfElse(t, thn, els) => TestBelow(t, base) && StmtBelow(thn, base) && StmtBelow(els, base)
    case While(t, body) => TestBelow(t, base) && StmtBelow(body, base)
  }

  // ----- constant folding -----

  /** What the compiler computes at compile time; a division by zero is left alone. */
  function Fold(op: Op, x: int, y: int): Option<int> {
    match op
    case ADD => Some(Int32(x + y))
    case MULT => Some(Int32(x * y))
    case SUB => Some(Int32(x - y))
    case DIV => if y != 0 then Some(Int32(Truncated(x, y))) else None
    case _ => None
  }

  /** The target computes what the compiler would have computed. */
  ghost predicate FoldsAlike(sem: Sem) {
    forall op, x, y :: Fold(op, x, y).Some? ==> sem(op, x, y) == Fold(op, x, y).value
  }

  function Simplify(e: Expr): Expr {
    match e
    case Binary(op, l, r) =>
      var l', r' := Simplify(l), Simplify(r);
      if l'.Number? && r'.Number? && Fold(op, l'.n, r'.n).Some?
      then Number(Fold(op, l'.n, r'.n).value)
      else Binary(op, l', r')
    case _ => e
  }

  function SimplifyTest(t: Test): Test {
    match t
    case Rel(c, l, r) => Rel(c, Simplify(l), Simplify(r))
    case And(l, r) => And(SimplifyTest(l), SimplifyTest(r))
    case Or(l, r) => Or(SimplifyTest(l), SimplifyTest(r))
  }

  lemma {:induction false} SimplifyCorrect(e: Expr, sem: Sem, s: Store, base: nat)
    requires FoldsAlike(sem)
    ensures Eval(Simplify(e), sem, s) == Eval(e, sem, s)
    ensures ExprBelow(e, base) ==> ExprBelow(Simplify(e), base)
  {
    if e.Binary? {
      SimplifyCorrect(e.left, sem, s, base);
      SimplifyCorrect(e.right, sem, s, base);
    }
  }

  lemma {:induction false} SimplifyTestCorrect(t: Test, sem: Sem, s: Store, base: nat)
    requires FoldsAlike(sem)
    ensures Truth(SimplifyTest(t), sem, s) == Truth(t, sem, s)
    ensures TestBelow(t, base) ==> TestBelow(SimplifyTest(t), base)
  {
    match t
    case Rel(_, l, r) =>
      SimplifyCorrect(l, sem, s, base);
      SimplifyCorrect(r, sem, s, base);
    case And(l, r) =>
      SimplifyTestCorrect(l, sem, s, base);
      SimplifyTestCorrect(r, sem, s, base);
    case Or(l, r) =>
      SimplifyTestCorrect(l, sem, s, base);
      SimplifyTestCorrect(r, sem, s, base);
  }

  // ----- the code of each construct -----

  /** Instructions, and the counters of labels and temporaries after them. */
  datatype Emitted = Emitted(ics: seq<IC>, lab: nat, temp: nat)

  /** gen_tree: where the value is, and the next free temporary. */
  function TreeCode(e: Expr, temp: nat): (r: (seq<IC>, Operand, nat))
    ensures temp <= r.2
    ensures e.Binary? ==> r.0 != [] && r.0[|r.0| - 1].Arith? && r.1 == Var(r.0[|r.0| - 1].z)
  {
    match e
    case Number(n) => ([], Konst(n), temp)
    case Variable(v) => ([], Var(v), temp)
    case Binary(op, l, r) =>
      var (c1, o1, t1) := TreeCode(l, temp);
      var (c2, o2, t2) := TreeCode(r, t1);
      (c1 + c2 + [Arith(op, t2, o1, o2)], Var(t2), t2 + 1)
  }

  /** gen_cond */
  function CondCode(t: Test, yes: nat, no: nat, lab: nat, temp: nat): (r: Emitted)
    ensures lab <= r.lab && temp <= r.temp
  {
    match t
    case Rel(c, l, r) =>
      var (c1, o1, t1) := TreeCode(l, temp);
      var (c2, o2, t2) := TreeCode(r, t1);
      Emitted(c1 + c2 + [Compare(o1, o2), Branch(c, yes), Bra(no)], lab, t2)
    case And(l, r) =>
      var a := CondCode(l, lab + 1, no, lab + 1, temp);
      var b := CondCode(r, yes, no, a.lab, a.temp);
      Emitted(a.ics + [Label(lab + 1)] + b.ics, b.lab, b.temp)
    case Or(l, r) =>
      var a := CondCode(l, yes, lab + 1, lab + 1, temp);
      var b := CondCode(r, yes, no, a.lab, a.temp);
      Emitted(a.ics + [Label(lab + 1)] + b.ics, b.lab, b.temp)
  }

  /** An assignment; a value just computed into a temporary is computed into the
      variable instead. */
  function LetCode(v: nat, e: Expr, temp: nat): (r: (seq<IC>, nat))
    ensures temp <= r.1
  {
    var (c, o, t) := TreeCode(e, temp);
    if e.Binary? then (c[..|c| - 1] + [WithTarget(c[|c| - 1], v)], t)
    else (c + [Assign(v, o)], t)
  }

  function StmtCode(p: Stmt, lab: nat, temp: nat): (r: Emitted)
    ensures lab <= r.lab && temp <= r.temp
  {
    match p
    case Empty => Emitted([], lab, temp)
    case Then(a, b) =>
      var x := StmtCode(a, lab, temp);
      var y := StmtCode(b, x.lab, x.temp);
      Emitted(x.ics + y.ics, y.lab, y.temp)
    case Let(v, e) =>
      var (c, t) := LetCode(v, Simplify(e), temp);
      Emitted(c, lab, t)
    case If(t, thn) =>
      var c := CondCode(SimplifyTest(t), lab + 1, lab + 2, lab + 2, temp);
      var x := StmtCode(thn, c.lab, c.temp);
      Emitted(c.ics + [Label(lab + 1)] + x.ics + [Label(lab + 2)], x.lab, x.temp)
    case IfElse(t, thn, els) =>
      var c := CondCode(SimplifyTest(t), lab + 1, lab + 2, lab + 2, temp);
      var x := StmtCode(thn, c.lab, c.temp);
      var y := StmtCode(els, x.lab + 2, x.temp);
      Emitted(c.ics + [Label(lab + 1)] + x.ics + [Bra(x.lab + 2), Label(lab + 2)] + y.ics + [Label(x.lab + 2)],
              y.lab, y.temp)
    case While(t, body) =>
      var c := CondCode(SimplifyTest(t), lab + 1, lab + 2, lab + 2, temp);
      var x := StmtCode(body, c.lab, c.temp);
      var d := CondCode(SimplifyTest(t), lab + 1, lab + 2, x.lab, x.temp);
      Emitted(c.ics + [Label(lab + 1)] + x.ics + d.ics + [Label(lab + 2)], d.lab, d.temp)
  }

  // ----- running linear code -----

  datatype Machine = Machine(pc: nat, st: State)

  /** Where label l stands; the end of the code if it is missing. */
  function Find(code: seq<IC>, l: nat): (k: nat)
    ensures k <= |code|
  {
    if code == [] || code[0] == Label(l) then 0 else 1 + Find(code[1..], l)
  }

  function Step(code: seq<IC>, sem: Sem, m: Machine): Machine {
    if m.pc >= |code| then m
    else
      match code[m.pc]
      case Bra(l) => m.(pc := Find(code, l))
      case Branch(c, l) => m.(pc := if Holds(c, m.st.cc) then Find(code, l) else m.pc + 1)
      case ic => Machine(m.pc + 1, Exec(ic, sem, m.st))
  }

  function Steps(code: seq<IC>, sem: Sem, m: Machine, n: nat): Machine
    decreases n
  {
    if n == 0 then m else Steps(code, sem, Step(code, sem, m), n - 1)
  }

  lemma {:induction false} StepsCompose(code: seq<IC>, sem: Sem, m: Machine, a: nat, b: nat)
    ensures Steps(code, sem, m, a + b) == Steps(code, sem, Steps(code, sem, m, a), b)
    decreases a
  {
    if a > 0 {
      StepsCompose(code, sem, Step(code, sem, m), a - 1, b);
    }
  }

  /** Arriving at a label and going on. */
  lemma ThroughLabel(code: seq<IC>, sem: Sem, m: Machine, n: nat, at: nat, l: nat, n2: nat)
    requires Steps(code, sem, m, n).pc == at < |code| && code[at] == Label(l)
    ensures Steps(code, sem, m, n + 1 + n2) == Steps(code, sem, Machine(at + 1, Steps(code, sem, m, n).st), n2)
  {
    StepsCompose(code, sem, m, n, 1 + n2);
  }

  /** The piece c stands at position pc. */
  ghost predicate Has(code: seq<IC>, pc: nat, c: seq<IC>) {
    pc + |c| <= |code| && code[pc..pc + |c|] == c
  }

  lemma HasParts(code: seq<IC>, pc: nat, a: seq<IC>, b: seq<IC>)
    requires Has(code, pc, a + b)
    ensures Has(code, pc, a) && Has(code, pc + |a|, b)
  {
    assert code[pc..pc + |a|] == (a + b)[..|a|];
    assert code[pc + |a|..pc + |a| + |b|] == (a + b)[|a|..];
  }

  lemma HasOne(code: seq<IC>, pc: nat, ic: IC)
    requires Has(code, pc, [ic])
    ensures pc < |code| && code[pc] == ic
  {
    assert code[pc..pc + 1][0] == ic;
  }

  /** Every label occurs at most once. */
  ghost predicate UniqueLabels(code: seq<IC>) {
    forall j, k :: 0 <= j < k < |code| && code[j].Label? ==> code[j] != code[k]
  }

  lemma {:induction false} FindUnique(code: seq<IC>, l: nat, k: nat)
    requires UniqueLabels(code) && k < |code| && code[k] == Label(l)
    ensures Find(code, l) == k
  {
    if code[0] != Label(l) {
      var rest := code[1..];
      forall j, m | 0 <= j < m < |rest| && rest[j].Label?
        ensures rest[j] != rest[m]
      {
        assert rest[j] == code[j + 1] && rest[m] == code[m + 1];
      }
      FindUnique(code[1..], l, k - 1);
    }
  }

  ghost predicate IsStraight(c: seq<IC>) {
    forall k :: 0 <= k < |c| ==> !IsBranch(c[k])
  }

  /** Code without branches runs through. */
  lemma {:induction false} StraightRuns(code: seq<IC>, sem: Sem, pc: nat, c: seq<IC>, st: State)
    requires Has(code, pc, c) && IsStraight(c)
    ensures Steps(code, sem, Machine(pc, st), |c|) == Machine(pc + |c|, ExecAll(c, sem, st))
    decreases c
  {
    if c != [] {
      assert [c[0]] + c[1..] == c;
      HasParts(code, pc, [c[0]], c[1..]);
      HasOne(code, pc, c[0]);
      StraightRuns(code, sem, pc + 1, c[1..], Exec(c[0], sem, st));
    }
  }

  // ----- expressions and conditions -----

  /** The machine's store agrees with the program's on the program's variables. */
  ghost predicate Agree(base: nat, s: Store, m: Store) {
    forall v: nat :: v < base ==> Get(s, v) == Get(m, v)
  }

  ghost predicate HasNoLabels(c: seq<IC>) {
    forall k :: 0 <= k < |c| ==> !c[k].Label?
  }

  lemma {:induction false} TreeIsStraight(e: Expr, temp: nat)
    ensures IsStraight(TreeCode(e, temp).0) && HasNoLabels(TreeCode(e, temp).0)
  {
    if e.Binary? {
      TreeIsStraight(e.left, temp);
      TreeIsStraight(e.right, TreeCode(e.left, temp).2);
    }
  }

  /** The code leaves the value of the expression in its operand and touches nothing
      but its own temporaries. */
  lemma {:induction false} TreeCorrect(e: Expr, temp: nat, base: nat, sem: Sem, s: Store, st: State)
    requires ExprBelow(e, base) && base <= temp && Agree(base, s, st.store)
    ensures var (c, o, t) := TreeCode(e, temp);
      var st' := ExecAll(c, sem, st);
      && Value(o, st'.store) == Eval(e, sem, s)
      && (o.Var? ==> o.v < base || temp <= o.v < t)
      && (forall x: nat :: x < temp || t <= x ==> Get(st'.store, x) == Get(st.store, x))
  {
    if e.Binary? {
      var (c1, o1, t1) := TreeCode(e.left, temp);
      var (c2, o2, t2) := TreeCode(e.right, t1);
      var st1 := ExecAll(c1, sem, st);
      var st2 := ExecAll(c2, sem, st1);
      TreeCorrect(e.left, temp, base, sem, s, st);
      TreeCorrect(e.right, t1, base, sem, s, st1);
      assert Value(o1, st2.store) == Value(o1, st1.store);
      ExecAppend(c1, c2, sem, st);
      ExecSnoc(c1 + c2, Arith(e.op, t2, o1, o2), sem, st);
    }
  }

  /** Evaluating a condition takes the machine to one of the two labels. */
  lemma {:induction false} CondCorrect(code: seq<IC>, pc: nat, t: Test, yes: nat, no: nat, lab: nat, temp: nat,
                    base: nat, sem: Sem, s: Store, st: State) returns (n: nat)
    requires UniqueLabels(code) && Has(code, pc, CondCode(t, yes, no, lab, temp).ics)
    requires TestBelow(t, base) && base <= temp && Agree(base, s, st.store)
    ensures var m := Steps(code, sem, Machine(pc, st), n);
      && m.pc == Find(code, if Truth(t, sem, s) then yes else no)
      && Agree(base, s, m.st.store)
    decreases t, 1
  {
    match t
    case Rel(c, l, r) =>
      n := RelCorrect(code, pc, c, l, r, yes, no, lab, temp, base, sem, s, st);
    case And(l, r) =>
      n := JoinCorrect(code, pc, t, yes, no, lab, temp, base, sem, s, st);
    case Or(l, r) =>
      n := JoinCorrect(code, pc, t, yes, no, lab, temp, base, sem, s, st);
  }

  /** The two halves of AND and OR: where a true and a false first condition go. */
  function FirstYes(t: Test, yes: nat, mid: nat): nat {
    if t.And? then mid else yes
  }

  function FirstNo(t: Test, no: nat, mid: nat): nat {
    if t.And? then no else mid
  }

  lemma JoinShape(code: seq<IC>, pc: nat, t: Test, yes: nat, no: nat, lab: nat, temp: nat)
    requires (t.And? || t.Or?) && Has(code, pc, CondCode(t, yes, no, lab, temp).ics)
    ensures var mid := lab + 1;
      var a := CondCode(t.l, FirstYes(t, yes, mid), FirstNo(t, no, mid), mid, temp);
      var at := pc + |a.ics|;
      && Has(code, pc, a.ics)
      && at < |code| && code[at] == Label(mid)
      && Has(code, at + 1, CondCode(t.r, yes, no, a.lab, a.temp).ics)
  {
    hide Has;
    var mid := lab + 1;
    var a := CondCode(t.l, FirstYes(t, yes, mid), FirstNo(t, no, mid), mid, temp);
    var b := CondCode(t.r, yes, no, a.lab, a.temp);
    assert CondCode(t, yes, no, lab, temp).ics == a.ics + ([Label(mid)] + b.ics);
    HasParts(code, pc, a.ics, [Label(mid)] + b.ics);
    HasParts(code, pc + |a.ics|, [Label(mid)], b.ics);
    HasOne(code, pc + |a.ics|, Label(mid));
  }

  /** AND and OR: the second condition starts behind a label of its own. */
  lemma JoinCorrect(code: seq<IC>, pc: nat, t: Test, yes: nat, no: nat, lab: nat, temp: nat,
                    base: nat, sem: Sem, s: Store, st: State) returns (n: nat)
    requires UniqueLabels(code) && Has(code, pc, CondCode(t, yes, no, lab, temp).ics)
    requires (t.And? || t.Or?) && TestBelow(t, base) && base <= temp && Agree(base, s, st.store)
    ensures var m := Steps(code, sem, Machine(pc, st), n);
      && m.pc == Find(code, if Truth(t, sem, s) then yes else no)
      && Agree(base, s, m.st.store)
    decreases t, 0
  {
    hide Steps, Find, CondCode;
    var mid := lab + 1;
    JoinShape(code, pc, t, yes, no, lab, temp);
    var a := CondCode(t.l, FirstYes(t, yes, mid), FirstNo(t, no, mid), mid, temp);
    n := CondCorrect(code, pc, t.l, FirstYes(t, yes, mid), FirstNo(t, no, mid), mid, temp, base, sem, s, st);
    if Truth(t.l, sem, s) == t.And? {
      var at := pc + |a.ics|;
      FindUnique(code, mid, at);
      var m := Steps(code, sem, Machine(pc, st), n);
      var n2 := CondCorrect(code, at + 1, t.r, yes, no, a.lab, a.temp, base, sem, s, m.st);
      ThroughLabel(code, sem, Machine(pc, st), n, at, mid, n2);
      n := n + 1 + n2;
    }
  }

  /** Both operands are ready when they are compared. */
  lemma ComparedCorrect(l: Expr, r: Expr, temp: nat, base: nat, sem: Sem, s: Store, st: State)
    requires ExprBelow(l, base) && ExprBelow(r, base) && base <= temp && Agree(base, s, st.store)
    ensures var (c1, o1, t1) := TreeCode(l, temp);
      var (c2, o2, t2) := TreeCode(r, t1);
      var front := c1 + c2 + [Compare(o1, o2)];
      var st' := ExecAll(front, sem, st);
      && IsStraight(front) && Agree(base, s, st'.store)
      && st'.cc == (Eval(l, sem, s), Eval(r, sem, s))
  {
    hide ExecAll, Eval, TreeCode;
    var (c1, o1, t1) := TreeCode(l, temp);
    var (c2, o2, t2) := TreeCode(r, t1);
    TreeIsStraight(l, temp);
    TreeIsStraight(r, t1);
    var st1 := ExecAll(c1, sem, st);
    TreeCorrect(l, temp, base, sem, s, st);
    TreeCorrect(r, t1, base, sem, s, st1);
    assert Value(o1, ExecAll(c2, sem, st1).store) == Value(o1, st1.store);
    ExecAppend(c1, c2, sem, st);
    ExecSnoc(c1 + c2, Compare(o1, o2), sem, st);
  }

  /** bcc yes; bra no */
  lemma BranchCorrect(code: seq<IC>, at: nat, c: Cond, yes: nat, no: nat, sem: Sem, st: State) returns (n: nat)
    requires Has(code, at, [Branch(c, yes), Bra(no)])
    ensures Steps(code, sem, Machine(at, st), n) == Machine(Find(code, if Holds(c, st.cc) then yes else no), st)
  {
    var tail := [Branch(c, yes), Bra(no)];
    assert code[at] == code[at..at + 2][0] == tail[0];
    assert code[at + 1] == code[at..at + 2][1] == tail[1];
    var m := Machine(at, st);
    n := if Holds(c, st.cc) then 1 else 2;
    assert Steps(code, sem, m, 1) == Steps(code, sem, Step(code, sem, m), 0);
    assert Steps(code, sem, m, 2) == Steps(code, sem, Step(code, sem, m), 1);
    assert Steps(code, sem, Machine(at + 1, st), 1) == Steps(code, sem, Step(code, sem, Machine(at + 1, st)), 0);
  }

  lemma RelCorrect(code: seq<IC>, pc: nat, c: Cond, l: Expr, r: Expr, yes: nat, no: nat, lab: nat, temp: nat,
                   base: nat, sem: Sem, s: Store, st: State) returns (n: nat)
    requires Has(code, pc, CondCode(Rel(c, l, r), yes, no, lab, temp).ics)
    requires ExprBelow(l, base) && ExprBelow(r, base) && base <= temp && Agree(base, s, st.store)
    ensures var m := Steps(code, sem, Machine(pc, st), n);
      && m.pc == Find(code, if Truth(Rel(c, l, r), sem, s) then yes else no)
      && Agree(base, s, m.st.store)
  {
    hide Steps, Find, TreeCode, ExecAll, Has;
    var (c1, o1, t1) := TreeCode(l, temp);
    var (c2, o2, t2) := TreeCode(r, t1);
    var front := c1 + c2 + [Compare(o1, o2)];
    var tail := [Branch(c, yes), Bra(no)];
    assert CondCode(Rel(c, l, r), yes, no, lab, temp).ics == front + tail;
    HasParts(code, pc, front, tail);
    ComparedCorrect(l, r, temp, base, sem, s, st);
    StraightRuns(code, sem, pc, front, st);
    var n2 := BranchCorrect(code, pc + |front|, c, yes, no, sem, ExecAll(front, sem, st));
    n := |front| + n2;
    StepsCompose(code, sem, Machine(pc, st), |front|, n2);
  }

  // ----- labels -----

  function LabelsIn(c: seq<IC>): set<nat> {
    set k | 0 <= k < |c| && c[k].Label? :: c[k].name
  }

  ghost predicate LabelsBetween(c: seq<IC>, lo: nat, hi: nat) {
    UniqueLabels(c) && forall l :: l in LabelsIn(c) ==> lo < l <= hi
  }

  lemma JoinLabels(a: seq<IC>, b: seq<IC>)
    requires UniqueLabels(a) && UniqueLabels(b) && LabelsIn(a) !! LabelsIn(b)
    ensures UniqueLabels(a + b) && LabelsIn(a + b) == LabelsIn(a) + LabelsIn(b)
  {
    var c := a + b;
    forall j, k | 0 <= j < k < |c| && c[j].Label?
      ensures c[j] != c[k]
    {
      if j < |a| <= k {
        assert a[j].name in LabelsIn(a);
        assert b[k - |a|].Label? ==> b[k - |a|].name in LabelsIn(b);
      }
    }
    forall l | l in LabelsIn(a) + LabelsIn(b)
      ensures l in LabelsIn(c)
    {
      if l in LabelsIn(a) {
        var k :| 0 <= k < |a| && a[k].Label? && a[k].name == l;
        assert c[k] == a[k];
      } else {
        var k :| 0 <= k < |b| && b[k].Label? && b[k].name == l;
        assert c[|a| + k] == b[k];
      }
    }
  }

  lemma OneLabel(l: nat)
    ensures UniqueLabels([Label(l)]) && LabelsIn([Label(l)]) == {l}
  {
    assert [Label(l)][0].Label?;
  }

  lemma NoLabelsUnique(c: seq<IC>)
    requires HasNoLabels(c)
    ensures UniqueLabels(c) && LabelsIn(c) == {}
  {
  }

  lemma {:induction false} CondLabels(t: Test, yes: nat, no: nat, lab: nat, temp: nat)
    ensures var c := CondCode(t, yes, no, lab, temp); LabelsBetween(c.ics, lab, c.lab)
    decreases t
  {
    var c := CondCode(t, yes, no, lab, temp);
    if t.Rel? {
      TreeIsStraight(t.left, temp);
      TreeIsStraight(t.right, TreeCode(t.left, temp).2);
      NoLabelsUnique(c.ics);
    } else {
      var mid := lab + 1;
      var a := CondCode(t.l, FirstYes(t, yes, mid), FirstNo(t, no, mid), mid, temp);
      var b := CondCode(t.r, yes, no, a.lab, a.temp);
      CondLabels(t.l, FirstYes(t, yes, mid), FirstNo(t, no, mid), mid, temp);
      CondLabels(t.r, yes, no, a.lab, a.temp);
      OneLabel(mid);
      JoinLabels(a.ics, [Label(mid)]);
      JoinLabels(a.ics + [Label(mid)], b.ics);
      assert c.ics == a.ics + [Label(mid)] + b.ics;
    }
  }

  lemma LetHasNoLabels(v: nat, e: Expr, temp: nat)
    ensures HasNoLabels(LetCode(v, e, temp).0) && IsStraight(LetCode(v, e, temp).0)
  {
    TreeIsStraight(e, temp);
  }

  /** The labels of a statement are its own, and each is defined once. */
  lemma {:induction false} StmtLabels(p: Stmt, lab: nat, temp: nat)
    ensures var c := StmtCode(p, lab, temp); LabelsBetween(c.ics, lab, c.lab)
    decreases p
  {
    hide UniqueLabels, LabelsIn, CondCode, LetCode, SimplifyTest;
    match p
    case Empty => NoLabelsUnique([]);
    case Then(a, b) =>
      var x := StmtCode(a, lab, temp);
      StmtLabels(a, lab, temp);
      StmtLabels(b, x.lab, x.temp);
      JoinLabels(x.ics, StmtCode(b, x.lab, x.temp).ics);
    case Let(v, e) =>
      LetHasNoLabels(v, Simplify(e), temp);
      NoLabelsUnique(LetCode(v, Simplify(e), temp).0);
    case If(t, thn) =>
      var c := CondCode(SimplifyTest(t), lab + 1, lab + 2, lab + 2, temp);
      CondLabels(SimplifyTest(t), lab + 1, lab + 2, lab + 2, temp);
      StmtLabels(thn, c.lab, c.temp);
      IfLabels(c, lab, StmtCode(thn, c.lab, c.temp));
    case IfElse(t, thn, els) =>
      var c := CondCode(SimplifyTest(t), lab + 1, lab + 2, lab + 2, temp);
      var x := StmtCode(thn, c.lab, c.temp);
      CondLabels(SimplifyTest(t), lab + 1, lab + 2, lab + 2, temp);
      StmtLabels(thn, c.lab, c.temp);
      StmtLabels(els, x.lab + 2, x.temp);
      IfElseLabels(c, lab, x, StmtCode(els, x.lab + 2, x.temp));
    case While(t, body) =>
      var c := CondCode(SimplifyTest(t), lab + 1, lab + 2, lab + 2, temp);
      var x := StmtCode(body, c.lab, c.temp);
      CondLabels(SimplifyTest(t), lab + 1, lab + 2, lab + 2, temp);
      StmtLabels(body, c.lab, c.temp);
      CondLabels(SimplifyTest(t), lab + 1, lab + 2, x.lab, x.temp);
      WhileLabels(c, lab, x, CondCode(SimplifyTest(t), lab + 1, lab + 2, x.lab, x.temp));
  }

  lemma IfLabels(c: Emitted, lab: nat, x: Emitted)
    requires lab + 2 <= c.lab <= x.lab
    requires LabelsBetween(c.ics, lab + 2, c.lab) && LabelsBetween(x.ics, c.lab, x.lab)
    ensures LabelsBetween(c.ics + [Label(lab + 1)] + x.ics + [Label(lab + 2)], lab, x.lab)
  {
    hide UniqueLabels, LabelsIn;
    OneLabel(lab + 1);
    OneLabel(lab + 2);
    JoinLabels(c.ics, [Label(lab + 1)]);
    JoinLabels(c.ics + [Label(lab + 1)], x.ics);
    JoinLabels(c.ics + [Label(lab + 1)] + x.ics, [Label(lab + 2)]);
  }

  lemma IfElseLabels(c: Emitted, lab: nat, x: Emitted, y: Emitted)
    requires lab + 2 <= c.lab <= x.lab && x.lab + 2 <= y.lab
    requires LabelsBetween(c.ics, lab + 2, c.lab) && LabelsBetween(x.ics, c.lab, x.lab)
    requires LabelsBetween(y.ics, x.lab + 2, y.lab)
    ensures LabelsBetween(
      c.ics + [Label(lab + 1)] + x.ics + [Bra(x.lab + 2), Label(lab + 2)] + y.ics + [Label(x.lab + 2)], lab, y.lab)
  {
    var mid := [Bra(x.lab + 2), Label(lab + 2)];
    assert UniqueLabels(mid) && LabelsIn(mid) == {lab + 2} by {
      assert mid[1].Label?;
    }
    IfElseLabelsJoined(c, lab, x, mid, y);
  }

  lemma IfElseLabelsJoined(c: Emitted, lab: nat, x: Emitted, mid: seq<IC>, y: Emitted)
    requires lab + 2 <= c.lab <= x.lab && x.lab + 2 <= y.lab
    requires LabelsBetween(c.ics, lab + 2, c.lab) && LabelsBetween(x.ics, c.lab, x.lab)
    requires LabelsBetween(y.ics, x.lab + 2, y.lab) && UniqueLabels(mid) && LabelsIn(mid) == {lab + 2}
    ensures LabelsBetween(c.ics + [Label(lab + 1)] + x.ics + mid + y.ics + [Label(x.lab + 2)], lab, y.lab)
  {
    hide UniqueLabels, LabelsIn;
    OneLabel(lab + 1);
    OneLabel(x.lab + 2);
    JoinLabels(c.ics, [Label(lab + 1)]);
    JoinLabels(c.ics + [Label(lab + 1)], x.ics);
    JoinLabels(c.ics + [Label(lab + 1)] + x.ics, mid);
    JoinLabels(c.ics + [Label(lab + 1)] + x.ics + mid, y.ics);
    JoinLabels(c.ics + [Label(lab + 1)] + x.ics + mid + y.ics, [Label(x.lab + 2)]);
  }

  lemma WhileLabels(c: Emitted, lab: nat, x: Emitted, d: Emitted)
    requires lab + 2 <= c.lab <= x.lab <= d.lab
    requires LabelsBetween(c.ics, lab + 2, c.lab) && LabelsBetween(x.ics, c.lab, x.lab)
    requires LabelsBetween(d.ics, x.lab, d.lab)
    ensures LabelsBetween(c.ics + [Label(lab + 1)] + x.ics + d.ics + [Label(lab + 2)], lab, d.lab)
  {
    hide UniqueLabels, LabelsIn;
    OneLabel(lab + 1);
    OneLabel(lab + 2);
    JoinLabels(c.ics, [Label(lab + 1)]);
    JoinLabels(c.ics + [Label(lab + 1)], x.ics);
    JoinLabels(c.ics + [Label(lab + 1)] + x.ics, d.ics);
    JoinLabels(c.ics + [Label(lab + 1)] + x.ics + d.ics, [Label(lab + 2)]);
  }

  // ----- statements -----

  /** n steps from position pc do what the program does: they end at position end with
      the final values, or, if the fuel runs out, the machine is still running after
      at least as many steps as there were iterations. */
  ghost predicate Simulates(
      code: seq<IC>, sem: Sem, base: nat, pc: nat, st: State, n: nat, end: nat, fuel: nat, r: Outcome)
  {
    var m := Steps(code, sem, Machine(pc, st), n);
    match r
    case Done(s, f) => m.pc == end && Agree(base, s, m.st.store) && n + f >= fuel
    case OutOfFuel => m.pc < |code| && n >= fuel
  }

  lemma LetCorrect(v: nat, e: Expr, temp: nat, base: nat, sem: Sem, s: Store, st: State)
    requires v < base && ExprBelow(e, base) && base <= temp && Agree(base, s, st.store)
    ensures Agree(base, s[v := Eval(e, sem, s)], ExecAll(LetCode(v, e, temp).0, sem, st).store)
  {
    var (c, o, t) := TreeCode(e, temp);
    TreeCorrect(e, temp, base, sem, s, st);
    if e.Binary? {
      var front, last := c[..|c| - 1], c[|c| - 1];
      assert c == front + [last];
      ExecSnoc(front, last, sem, st);
      ExecSnoc(front, WithTarget(last, v), sem, st);
      var mid, x := ExecAll(front, sem, st), Rhs(last, sem, ExecAll(front, sem, st).store);
      assert x == Eval(e, sem, s);
      var s', m' := s[v := x], mid.store[v := x];
      forall y: nat | y < base
        ensures Get(s', y) == Get(m', y)
      {
        assert Get(ExecAll(c, sem, st).store, y) == Get(st.store, y);
      }
    } else {
      var st' := ExecAll(c, sem, st);
      ExecSnoc(c, Assign(v, o), sem, st);
      var s', m' := s[v := Eval(e, sem, s)], Exec(Assign(v, o), sem, st').store;
      forall y: nat | y < base
        ensures Get(s', y) == Get(m', y)
      {
        assert Get(st'.store, y) == Get(st.store, y);
      }
    }
  }

  lemma LetRuns(code: seq<IC>, pc: nat, v: nat, e: Expr, temp: nat, base: nat, sem: Sem, s: Store, st: State, fuel: nat)
    returns (n: nat)
    requires Has(code, pc, LetCode(v, Simplify(e), temp).0) && FoldsAlike(sem)
    requires v < base && ExprBelow(e, base) && base <= temp && Agree(base, s, st.store)
    ensures Simulates(code, sem, base, pc, st, n, pc + |LetCode(v, Simplify(e), temp).0|, fuel,
                      Done(s[v := Eval(e, sem, s)], fuel))
  {
    hide Eval, Simplify, LetCode, ExecAll;
    var c := LetCode(v, Simplify(e), temp).0;
    SimplifyCorrect(e, sem, s, base);
    LetHasNoLabels(v, Simplify(e), temp);
    LetCorrect(v, Simplify(e), temp, base, sem, s, st);
    StraightRuns(code, sem, pc, c, st);
    n := |c|;
  }

  lemma EndState(
      code: seq<IC>, sem: Sem, base: nat, pc: nat, st: State, n: nat, end: nat, end': nat, fuel: nat, r: Outcome)
    requires Simulates(code, sem, base, pc, st, n, end, fuel, r)
    ensures r.Done? ==> Agree(base, r.s, Steps(code, sem, Machine(pc, st), n).st.store)
    ensures r.OutOfFuel? ==> Simulates(code, sem, base, pc, st, n, end', fuel, r)
  {
  }

  /** Going on from the end of one simulated piece with another. */
  lemma Continue(code: seq<IC>, sem: Sem, base: nat, pc: nat, st: State, n: nat, mid: nat, fuel: nat, r: Outcome,
                 n2: nat, end: nat, r2: Outcome)
    requires r.Done? && r.fuel <= fuel && (r2.Done? ==> r2.fuel <= r.fuel)
    requires Simulates(code, sem, base, pc, st, n, mid, fuel, r)
    requires Simulates(code, sem, base, mid, Steps(code, sem, Machine(pc, st), n).st, n2, end, r.fuel, r2)
    ensures Simulates(code, sem, base, pc, st, n + n2, end, fuel, r2)
  {
    StepsCompose(code, sem, Machine(pc, st), n, n2);
  }

  /** Going on after n steps that use no fuel. */
  lemma Prepend(code: seq<IC>, sem: Sem, base: nat, pc: nat, st: State, n: nat, mid: nat, st': State, n2: nat, end: nat,
                fuel: nat, r: Outcome)
    requires Steps(code, sem, Machine(pc, st), n) == Machine(mid, st')
    requires Simulates(code, sem, base, mid, st', n2, end, fuel, r)
    ensures Simulates(code, sem, base, pc, st, n + n2, end, fuel, r)
  {
    StepsCompose(code, sem, Machine(pc, st), n, n2);
  }

  /** A condition, and the step over the label it leads to. */
  lemma CondThenLabel(code: seq<IC>, pc: nat, t: Test, yes: nat, no: nat, lab: nat, temp: nat,
                      base: nat, sem: Sem, s: Store, st: State, yesAt: nat, noAt: nat) returns (n: nat, st': State)
    requires UniqueLabels(code) && FoldsAlike(sem)
    requires Has(code, pc, CondCode(SimplifyTest(t), yes, no, lab, temp).ics)
    requires TestBelow(t, base) && base <= temp && Agree(base, s, st.store)
    requires yesAt < |code| && code[yesAt] == Label(yes) && noAt < |code| && code[noAt] == Label(no)
    ensures n > 0 && Agree(base, s, st'.store)
    ensures Steps(code, sem, Machine(pc, st), n) == Machine(1 + (if Truth(t, sem, s) then yesAt else noAt), st')
  {
    hide CondCode, Truth, SimplifyTest, UniqueLabels;
    SimplifyTestCorrect(t, sem, s, base);
    n := CondCorrect(code, pc, SimplifyTest(t), yes, no, lab, temp, base, sem, s, st);
    var m := Steps(code, sem, Machine(pc, st), n);
    FindUnique(code, yes, yesAt);
    FindUnique(code, no, noAt);
    if Truth(t, sem, s) {
      ThroughLabel(code, sem, Machine(pc, st), n, yesAt, yes, 0);
    } else {
      ThroughLabel(code, sem, Machine(pc, st), n, noAt, no, 0);
    }
    n, st' := n + 1, m.st;
  }

  /** The pieces of an if. */
  lemma IfShape(code: seq<IC>, pc: nat, t: Test, thn: Stmt, lab: nat, temp: nat) returns (at: nat, end: nat)
    requires Has(code, pc, StmtCode(If(t, thn), lab, temp).ics)
    ensures var c := CondCode(SimplifyTest(t), lab + 1, lab + 2, lab + 2, temp);
      var x := StmtCode(thn, c.lab, c.temp);
      && Has(code, pc, c.ics) && at == pc + |c.ics| && at < |code| && code[at] == Label(lab + 1)
      && Has(code, at + 1, x.ics) && end == at + 1 + |x.ics| && end < |code| && code[end] == Label(lab + 2)
      && end + 1 == pc + |StmtCode(If(t, thn), lab, temp).ics|
  {
    hide Has, CondCode, SimplifyTest;
    var c := CondCode(SimplifyTest(t), lab + 1, lab + 2, lab + 2, temp);
    var x := StmtCode(thn, c.lab, c.temp);
    at, end := pc + |c.ics|, pc + |c.ics| + 1 + |x.ics|;
    assert StmtCode(If(t, thn), lab, temp).ics == c.ics + [Label(lab + 1)] + x.ics + [Label(lab + 2)];
    HasParts(code, pc, c.ics + [Label(lab + 1)] + x.ics, [Label(lab + 2)]);
    HasParts(code, pc, c.ics + [Label(lab + 1)], x.ics);
    HasParts(code, pc, c.ics, [Label(lab + 1)]);
    HasOne(code, at, Label(lab + 1));
    HasOne(code, end, Label(lab + 2));
  }

  /** The pieces of an if with else. */
  lemma IfElseShape(code: seq<IC>, pc: nat, t: Test, thn: Stmt, els: Stmt, lab: nat, temp: nat)
    returns (at: nat, bra: nat, end: nat)
    requires Has(code, pc, StmtCode(IfElse(t, thn, els), lab, temp).ics)
    ensures var c := CondCode(SimplifyTest(t), lab + 1, lab + 2, lab + 2, temp);
      var x := StmtCode(thn, c.lab, c.temp);
      var y := StmtCode(els, x.lab + 2, x.temp);
      && Has(code, pc, c.ics) && at == pc + |c.ics| && at < |code| && code[at] == Label(lab + 1)
      && Has(code, at + 1, x.ics) && bra == at + 1 + |x.ics| && bra + 1 < |code|
      && code[bra] == Bra(x.lab + 2) && code[bra + 1] == Label(lab + 2)
      && Has(code, bra + 2, y.ics) && end == bra + 2 + |y.ics| && end < |code| && code[end] == Label(x.lab + 2)
      && end + 1 == pc + |StmtCode(IfElse(t, thn, els), lab, temp).ics|
  {
    hide Has, CondCode, SimplifyTest;
    var c := CondCode(SimplifyTest(t), lab + 1, lab + 2, lab + 2, temp);
    var x := StmtCode(thn, c.lab, c.temp);
    var y := StmtCode(els, x.lab + 2, x.temp);
    at, bra := pc + |c.ics|, pc + |c.ics| + 1 + |x.ics|;
    end := bra + 2 + |y.ics|;
    assert StmtCode(IfElse(t, thn, els), lab, temp).ics
        == c.ics + [Label(lab + 1)] + x.ics + [Bra(x.lab + 2), Label(lab + 2)] + y.ics + [Label(x.lab + 2)];
    IfElseParts(code, pc, c.ics, Label(lab + 1), x.ics, Bra(x.lab + 2), Label(lab + 2), y.ics, Label(x.lab + 2));
  }

  lemma IfElseParts(code: seq<IC>, pc: nat, c: seq<IC>, l1: IC, x: seq<IC>, bra: IC, l2: IC, y: seq<IC>, l3: IC)
    requires Has(code, pc, c + [l1] + x + [bra, l2] + y + [l3])
    ensures var at := pc + |c|;
      var mid := at + 1 + |x|;
      var end := mid + 2 + |y|;
      && Has(code, pc, c) && at < |code| && code[at] == l1
      && Has(code, at + 1, x) && mid + 1 < |code| && code[mid] == bra && code[mid + 1] == l2
      && Has(code, mid + 2, y) && end < |code| && code[end] == l3
  {
    hide Has;
    HasParts(code, pc, c + [l1] + x + [bra, l2] + y, [l3]);
    HasParts(code, pc, c + [l1] + x + [bra, l2], y);
    HasParts(code, pc, c + [l1] + x, [bra, l2]);
    HasParts(code, pc, c + [l1], x);
    HasParts(code, pc, c, [l1]);
    assert [bra, l2] == [bra] + [l2];
    HasParts(code, pc + |c| + 1 + |x|, [bra], [l2]);
    HasOne(code, pc + |c|, l1);
    HasOne(code, pc + |c| + 1 + |x|, bra);
    HasOne(code, pc + |c| + 1 + |x| + 1, l2);
    HasOne(code, pc + |c| + 1 + |x| + 2 + |y|, l3);
  }

  /** The loop body at position body, the second copy of the condition behind it, and
      the labels around both. */
  datatype Loop = Loop(lab: nat, body: nat, bodyLab: nat, bodyTemp: nat, again: nat, againLab: nat, againTemp: nat,
                       exit: nat)

  ghost predicate IsLoop(code: seq<IC>, w: Stmt, l: Loop)
    requires w.While?
  {
    var x := StmtCode(w.body, l.bodyLab, l.bodyTemp);
    var d := CondCode(SimplifyTest(w.t), l.lab + 1, l.lab + 2, l.againLab, l.againTemp);
    && 0 < l.body <= |code| && code[l.body - 1] == Label(l.lab + 1)
    && Has(code, l.body, x.ics) && l.again == l.body + |x.ics|
    && Has(code, l.again, d.ics) && l.exit == l.again + |d.ics|
    && l.exit < |code| && code[l.exit] == Label(l.lab + 2)
  }

  lemma WhileShape(code: seq<IC>, pc: nat, w: Stmt, lab: nat, temp: nat) returns (l: Loop)
    requires w.While? && Has(code, pc, StmtCode(w, lab, temp).ics)
    ensures IsLoop(code, w, l) && l.lab == lab && temp <= l.bodyTemp && temp <= l.againTemp
    ensures Has(code, pc, CondCode(SimplifyTest(w.t), lab + 1, lab + 2, lab + 2, temp).ics)
    ensures l.exit + 1 == pc + |StmtCode(w, lab, temp).ics|
  {
    hide Has, CondCode, SimplifyTest;
    var t := SimplifyTest(w.t);
    var c := CondCode(t, lab + 1, lab + 2, lab + 2, temp);
    var x := StmtCode(w.body, c.lab, c.temp);
    var d := CondCode(t, lab + 1, lab + 2, x.lab, x.temp);
    var at := pc + |c.ics|;
    l := Loop(lab, at + 1, c.lab, c.temp, at + 1 + |x.ics|, x.lab, x.temp, at + 1 + |x.ics| + |d.ics|);
    assert StmtCode(w, lab, temp).ics == c.ics + [Label(lab + 1)] + x.ics + d.ics + [Label(lab + 2)];
    HasParts(code, pc, c.ics + [Label(lab + 1)] + x.ics + d.ics, [Label(lab + 2)]);
    HasParts(code, pc, c.ics + [Label(lab + 1)] + x.ics, d.ics);
    HasParts(code, pc, c.ics + [Label(lab + 1)], x.ics);
    HasParts(code, pc, c.ics, [Label(lab + 1)]);
    HasOne(code, at, Label(lab + 1));
    HasOne(code, l.exit, Label(lab + 2));
  }

  /** The condition emits something. */
  lemma {:induction false} CondNonEmpty(t: Test, yes: nat, no: nat, lab: nat, temp: nat)
    ensures CondCode(t, yes, no, lab, temp).ics != []
    decreases t
  {
  }

  /** Compiling preserves meaning, statement by statement. */
  lemma StmtCorrect(
      code: seq<IC>, pc: nat, p: Stmt, lab: nat, temp: nat, base: nat, sem: Sem, s: Store, st: State, fuel: nat)
    returns (n: nat)
    requires UniqueLabels(code) && Has(code, pc, StmtCode(p, lab, temp).ics) && FoldsAlike(sem)
    requires StmtBelow(p, base) && base <= temp && Agree(base, s, st.store)
    ensures Simulates(code, sem, base, pc, st, n, pc + |StmtCode(p, lab, temp).ics|, fuel, Meaning(p, sem, s, fuel))
    decreases fuel, p, 1
  {
    hide Steps, UniqueLabels, Has, FoldsAlike, CondCode, Truth, SimplifyTest, LetCode, TreeCode, Simulates;
    match p
    case Empty =>
      n := 0;
      NothingRuns(code, sem, base, pc, s, st, fuel);
    case Then(a, b) => n := ThenCorrect(code, pc, p, lab, temp, base, sem, s, st, fuel);
    case Let(v, e) => n := LetRuns(code, pc, v, e, temp, base, sem, s, st, fuel);
    case If(t, thn) => n := IfCorrect(code, pc, p, lab, temp, base, sem, s, st, fuel);
    case IfElse(t, thn, els) => n := IfElseCorrect(code, pc, p, lab, temp, base, sem, s, st, fuel);
    case While(t, body) =>
      var l := WhileShape(code, pc, p, lab, temp);
      n := LoopCorrect(code, pc, p, l, lab + 2, temp, base, sem, s, st, fuel);
  }

  lemma NothingRuns(code: seq<IC>, sem: Sem, base: nat, pc: nat, s: Store, st: State, fuel: nat)
    requires Agree(base, s, st.store)
    ensures Simulates(code, sem, base, pc, st, 0, pc, fuel, Done(s, fuel))
  {
  }

  lemma ThenShape(code: seq<IC>, pc: nat, p: Stmt, lab: nat, temp: nat, sem: Sem, s: Store, fuel: nat)
    requires p.Then? && Has(code, pc, StmtCode(p, lab, temp).ics)
    ensures var x := StmtCode(p.first, lab, temp);
      var y := StmtCode(p.second, x.lab, x.temp);
      Has(code, pc, x.ics) && Has(code, pc + |x.ics|, y.ics) && |StmtCode(p, lab, temp).ics| == |x.ics| + |y.ics|
    ensures var r := Meaning(p.first, sem, s, fuel);
      Meaning(p, sem, s, fuel) == if r.Done? then Meaning(p.second, sem, r.s, r.fuel) else OutOfFuel
  {
    hide Has;
    var x := StmtCode(p.first, lab, temp);
    HasParts(code, pc, x.ics, StmtCode(p.second, x.lab, x.temp).ics);
  }

  lemma ThenCorrect(
      code: seq<IC>, pc: nat, p: Stmt, lab: nat, temp: nat, base: nat, sem: Sem, s: Store, st: State, fuel: nat)
    returns (n: nat)
    requires p.Then?
    requires UniqueLabels(code) && Has(code, pc, StmtCode(p, lab, temp).ics) && FoldsAlike(sem)
    requires StmtBelow(p, base) && base <= temp && Agree(base, s, st.store)
    ensures Simulates(code, sem, base, pc, st, n, pc + |StmtCode(p, lab, temp).ics|, fuel, Meaning(p, sem, s, fuel))
    decreases fuel, p, 0
  {
    hide Steps, UniqueLabels, FoldsAlike, Has, Simulates, StmtCode, Meaning;
    ThenShape(code, pc, p, lab, temp, sem, s, fuel);
    var x := StmtCode(p.first, lab, temp);
    var y := StmtCode(p.second, x.lab, x.temp);
    n := StmtCorrect(code, pc, p.first, lab, temp, base, sem, s, st, fuel);
    var r := Meaning(p.first, sem, s, fuel);
    EndState(code, sem, base, pc, st, n, pc + |x.ics|, pc + |x.ics| + |y.ics|, fuel, r);
    if r.Done? {
      var m := Steps(code, sem, Machine(pc, st), n);
      var n2 := StmtCorrect(code, pc + |x.ics|, p.second, x.lab, x.temp, base, sem, r.s, m.st, r.fuel);
      Continue(code, sem, base, pc, st, n, pc + |x.ics|, fuel, r,
               n2, pc + |x.ics| + |y.ics|, Meaning(p.second, sem, r.s, r.fuel));
      n := n + n2;
    }
  }

  lemma IfCorrect(
      code: seq<IC>, pc: nat, p: Stmt, lab: nat, temp: nat, base: nat, sem: Sem, s: Store, st: State, fuel: nat)
    returns (n: nat)
    requires p.If?
    requires UniqueLabels(code) && Has(code, pc, StmtCode(p, lab, temp).ics) && FoldsAlike(sem)
    requires StmtBelow(p, base) && base <= temp && Agree(base, s, st.store)
    ensures Simulates(code, sem, base, pc, st, n, pc + |StmtCode(p, lab, temp).ics|, fuel, Meaning(p, sem, s, fuel))
    decreases fuel, p, 0
  {
    hide Steps, UniqueLabels, Has, FoldsAlike, StmtCode, CondCode, Truth, SimplifyTest;
    var at, end := IfShape(code, pc, p.t, p.thn, lab, temp);
    var c := CondCode(SimplifyTest(p.t), lab + 1, lab + 2, lab + 2, temp);
    var st1;
    n, st1 := CondThenLabel(code, pc, p.t, lab + 1, lab + 2, lab + 2, temp, base, sem, s, st, at, end);
    if Truth(p.t, sem, s) {
      var n2 := StmtCorrect(code, at + 1, p.thn, c.lab, c.temp, base, sem, s, st1, fuel);
      n2 := StepLabel(code, sem, base, at + 1, st1, n2, end, lab + 2, fuel, Meaning(p.thn, sem, s, fuel));
      Prepend(code, sem, base, pc, st, n, at + 1, st1, n2, end + 1, fuel, Meaning(p, sem, s, fuel));
      n := n + n2;
    } else {
      Arrived(code, sem, base, pc, st, n, end + 1, s, st1, fuel);
    }
  }

  /** A simulated piece that ends at a label, and the step over it. */
  lemma StepLabel(
      code: seq<IC>, sem: Sem, base: nat, pc: nat, st: State, n: nat, at: nat, l: nat, fuel: nat, r: Outcome)
    returns (n': nat)
    requires Simulates(code, sem, base, pc, st, n, at, fuel, r) && at < |code| && code[at] == Label(l)
    ensures Simulates(code, sem, base, pc, st, n', at + 1, fuel, r)
  {
    n' := n;
    if r.Done? {
      ThroughLabel(code, sem, Machine(pc, st), n, at, l, 0);
      n' := n + 1;
    }
  }

  lemma Arrived(
      code: seq<IC>, sem: Sem, base: nat, pc: nat, st: State, n: nat, end: nat, s: Store, st': State, fuel: nat)
    requires Steps(code, sem, Machine(pc, st), n) == Machine(end, st') && Agree(base, s, st'.store)
    ensures Simulates(code, sem, base, pc, st, n, end, fuel, Done(s, fuel))
  {
  }

  lemma IfElseCorrect(
      code: seq<IC>, pc: nat, p: Stmt, lab: nat, temp: nat, base: nat, sem: Sem, s: Store, st: State, fuel: nat)
    returns (n: nat)
    requires p.IfElse?
    requires UniqueLabels(code) && Has(code, pc, StmtCode(p, lab, temp).ics) && FoldsAlike(sem)
    requires StmtBelow(p, base) && base <= temp && Agree(base, s, st.store)
    ensures Simulates(code, sem, base, pc, st, n, pc + |StmtCode(p, lab, temp).ics|, fuel, Meaning(p, sem, s, fuel))
    decreases fuel, p, 0
  {
    hide Steps, UniqueLabels, Has, FoldsAlike, StmtCode, CondCode, Simulates, Truth, SimplifyTest;
    var at, bra, end := IfElseShape(code, pc, p.t, p.thn, p.els, lab, temp);
    var c := CondCode(SimplifyTest(p.t), lab + 1, lab + 2, lab + 2, temp);
    var x := StmtCode(p.thn, c.lab, c.temp);
    var st1;
    n, st1 := CondThenLabel(code, pc, p.t, lab + 1, lab + 2, lab + 2, temp, base, sem, s, st, at, bra + 1);
    var r := Meaning(p, sem, s, fuel);
    if Truth(p.t, sem, s) {
      var n2 := StmtCorrect(code, at + 1, p.thn, c.lab, c.temp, base, sem, s, st1, fuel);
      n2 := StepOver(code, sem, base, at + 1, st1, n2, bra, x.lab + 2, end, fuel, r);
      Prepend(code, sem, base, pc, st, n, at + 1, st1, n2, end + 1, fuel, r);
      n := n + n2;
    } else {
      var n2 := StmtCorrect(code, bra + 2, p.els, x.lab + 2, x.temp, base, sem, s, st1, fuel);
      n2 := StepLabel(code, sem, base, bra + 2, st1, n2, end, x.lab + 2, fuel, r);
      Prepend(code, sem, base, pc, st, n, bra + 2, st1, n2, end + 1, fuel, r);
      n := n + n2;
    }
  }

  /** A simulated piece that ends at a jump to a label: the jump, and the step over
      the label. */
  lemma StepOver(
      code: seq<IC>, sem: Sem, base: nat, pc: nat, st: State, n: nat, bra: nat, l: nat, at: nat, fuel: nat, r: Outcome)
    returns (n': nat)
    requires UniqueLabels(code) && Simulates(code, sem, base, pc, st, n, bra, fuel, r)
    requires bra < |code| && code[bra] == Bra(l) && at < |code| && code[at] == Label(l)
    ensures Simulates(code, sem, base, pc, st, n', at + 1, fuel, r)
  {
    n' := n;
    if r.Done? {
      FindUnique(code, l, at);
      var m := Steps(code, sem, Machine(pc, st), n);
      StepsCompose(code, sem, Machine(pc, st), n, 1);
      assert Steps(code, sem, m, 1) == Steps(code, sem, Step(code, sem, m), 0) == Machine(at, m.st);
      ThroughLabel(code, sem, Machine(pc, st), n + 1, at, l, 0);
      n' := n + 2;
    }
  }

  /** A loop entered at either copy of its condition. */
  lemma LoopCorrect(code: seq<IC>, pc: nat, w: Stmt, l: Loop, condLab: nat, condTemp: nat,
                    base: nat, sem: Sem, s: Store, st: State, fuel: nat) returns (n: nat)
    requires w.While? && UniqueLabels(code) && FoldsAlike(sem) && IsLoop(code, w, l)
    requires Has(code, pc, CondCode(SimplifyTest(w.t), l.lab + 1, l.lab + 2, condLab, condTemp).ics)
    requires StmtBelow(w, base) && Agree(base, s, st.store)
    requires base <= condTemp && base <= l.bodyTemp && base <= l.againTemp
    ensures Simulates(code, sem, base, pc, st, n, l.exit + 1, fuel, Meaning(w, sem, s, fuel))
    decreases fuel, w, 0
  {
    hide Steps, UniqueLabels, FoldsAlike, StmtCode, CondCode, Truth, SimplifyTest;
    var st1;
    n, st1 := CondThenLabel(code, pc, w.t, l.lab + 1, l.lab + 2, condLab, condTemp, base, sem, s, st,
                            l.body - 1, l.exit);
    if !Truth(w.t, sem, s) {
      Arrived(code, sem, base, pc, st, n, l.exit + 1, s, st1, fuel);
    } else if fuel == 0 {
      n := StillRunning(code, sem, base, pc, st, l.exit + 1, w, l, condLab, condTemp);
    } else {
      var n2 := StmtCorrect(code, l.body, w.body, l.bodyLab, l.bodyTemp, base, sem, s, st1, fuel - 1);
      var r := Meaning(w.body, sem, s, fuel - 1);
      if r.Done? {
        var m := Steps(code, sem, Machine(l.body, st1), n2);
        var n3 := LoopCorrect(code, l.again, w, l, l.againLab, l.againTemp, base, sem, r.s, m.st, r.fuel);
        Continue(code, sem, base, l.body, st1, n2, l.again, fuel - 1, r, n3, l.exit + 1, Meaning(w, sem, r.s, r.fuel));
        n2 := n2 + n3;
      }
      Iterate(code, sem, base, pc, st, n, l.body, st1, n2, l.exit + 1, fuel, Meaning(w, sem, s, fuel));
      n := n + n2;
    }
  }

  lemma StillRunning(
      code: seq<IC>, sem: Sem, base: nat, pc: nat, st: State, end: nat, w: Stmt, l: Loop, condLab: nat, condTemp: nat)
    returns (n: nat)
    requires w.While? && Has(code, pc, CondCode(SimplifyTest(w.t), l.lab + 1, l.lab + 2, condLab, condTemp).ics)
    ensures Simulates(code, sem, base, pc, st, n, end, 0, OutOfFuel)
  {
    CondNonEmpty(SimplifyTest(w.t), l.lab + 1, l.lab + 2, condLab, condTemp);
    n := 0;
  }

  /** One iteration costs one unit of fuel and at least one step. */
  lemma Iterate(code: seq<IC>, sem: Sem, base: nat, pc: nat, st: State, n: nat, mid: nat, st': State, n2: nat, end: nat,
                fuel: nat, r: Outcome)
    requires fuel > 0 && n > 0 && Steps(code, sem, Machine(pc, st), n) == Machine(mid, st')
    requires Simulates(code, sem, base, mid, st', n2, end, fuel - 1, r)
    ensures Simulates(code, sem, base, pc, st, n + n2, end, fuel, r)
  {
    StepsCompose(code, sem, Machine(pc, st), n, n2);
  }

  // ----- whole programs -----

  /** The code of a program, from any label counter on. */
  function Compiled(p: Stmt, lab: nat, base: nat): seq<IC> {
    StmtCode(p, lab, base).ics
  }

  /** Compiling preserves meaning: with any amount of fuel, the compiled program ends
      with the final values of the source program, or keeps running as long. */
  lemma CompileCorrect(p: Stmt, lab: nat, base: nat, sem: Sem, s: Store, st: State, fuel: nat) returns (n: nat)
    requires FoldsAlike(sem) && StmtBelow(p, base) && Agree(base, s, st.store)
    ensures var code := Compiled(p, lab, base);
      Simulates(code, sem, base, 0, st, n, |code|, fuel, Meaning(p, sem, s, fuel))
  {
    var code := Compiled(p, lab, base);
    StmtLabels(p, lab, base);
    assert code[0..0 + |code|] == code;
    n := StmtCorrect(code, 0, p, lab, base, base, sem, s, st, fuel);
  }

  /** A machine past the end of the code stays there. */
  lemma {:induction false} HaltStays(code: seq<IC>, sem: Sem, m: Machine, n: nat)
    requires m.pc >= |code|
    ensures Steps(code, sem, m, n) == m
    decreases n
  {
    if n > 0 {
      HaltStays(code, sem, Step(code, sem, m), n - 1);
    }
  }

  /** If the source program ends, so does the compiled one. */
  lemma HaltsIfSourceEnds(p: Stmt, lab: nat, base: nat, sem: Sem, s: Store, st: State, fuel: nat) returns (n: nat)
    requires FoldsAlike(sem) && StmtBelow(p, base) && Agree(base, s, st.store) && Meaning(p, sem, s, fuel).Done?
    ensures Steps(Compiled(p, lab, base), sem, Machine(0, st), n).pc >= |Compiled(p, lab, base)|
  {
    hide Steps, Meaning, StmtCode, StmtBelow, Compiled;
    n := CompileCorrect(p, lab, base, sem, s, st, fuel);
  }

  /** If the compiled program ends within n steps, so does the source program within
      n iterations. */
  lemma SourceEndsIfHalts(p: Stmt, lab: nat, base: nat, sem: Sem, s: Store, st: State, n: nat)
    requires FoldsAlike(sem) && StmtBelow(p, base) && Agree(base, s, st.store)
    requires Steps(Compiled(p, lab, base), sem, Machine(0, st), n).pc >= |Compiled(p, lab, base)|
    ensures Meaning(p, sem, s, n).Done?
  {
    hide Steps, Meaning, StmtCode, StmtBelow, Compiled;
    var code := Compiled(p, lab, base);
    var m0 := Machine(0, st);
    var n2 := CompileCorrect(p, lab, base, sem, s, st, n);
    if Meaning(p, sem, s, n).OutOfFuel? {
      StepsCompose(code, sem, m0, n, n2 - n);
      HaltStays(code, sem, Steps(code, sem, m0, n), n2 - n);
      assert false;
    }
  }

  /** The compiled program halts exactly if the source program ends, and then with its
      final values. */
  lemma CompiledHaltsWithTheSource(p: Stmt, lab: nat, base: nat, sem: Sem, s: Store, st: State)
    requires FoldsAlike(sem) && StmtBelow(p, base) && Agree(base, s, st.store)
    ensures (exists fuel :: Meaning(p, sem, s, fuel).Done?)
       <==> (exists n :: Steps(Compiled(p, lab, base), sem, Machine(0, st), n).pc >= |Compiled(p, lab, base)|)
    ensures var code := Compiled(p, lab, base);
      forall fuel, n :: Meaning(p, sem, s, fuel).Done? && Steps(code, sem, Machine(0, st), n).pc >= |code| ==>
        Agree(base, Meaning(p, sem, s, fuel).s, Steps(code, sem, Machine(0, st), n).st.store)
  {
    hide Steps, Meaning, StmtCode, StmtBelow, Compiled;
    var code := Compiled(p, lab, base);
    var m0 := Machine(0, st);
    if fuel :| Meaning(p, sem, s, fuel).Done? {
      var n := HaltsIfSourceEnds(p, lab, base, sem, s, st, fuel);
    }
    if n :| Steps(code, sem, m0, n).pc >= |code| {
      SourceEndsIfHalts(p, lab, base, sem, s, st, n);
    }
    forall fuel, n | Meaning(p, sem, s, fuel).Done? && Steps(code, sem, m0, n).pc >= |code|
      ensures Agree(base, Meaning(p, sem, s, fuel).s, Steps(code, sem, m0, n).st.store)
    {
      var n2 := CompileCorrect(p, lab, base, sem, s, st, fuel);
      SameEnd(code, sem, m0, n, n2);
    }
  }

  lemma SameEnd(code: seq<IC>, sem: Sem, m: Machine, a: nat, b: nat)
    requires Steps(code, sem, m, a).pc >= |code| && Steps(code, sem, m, b).pc >= |code|
    ensures Steps(code, sem, m, a) == Steps(code, sem, m, b)
  {
    if a <= b {
      StepsCompose(code, sem, m, a, b - a);
      HaltStays(code, sem, Steps(code, sem, m, a), b - a);
    } else {
      StepsCompose(code, sem, m, b, a - b);
      HaltStays(code, sem, Steps(code, sem, m, b), a - b);
    }
  }

  // ----- the code generator -----

  /** The counters, the list of instructions and the two stacks of the parser. */
  class CodeGenerator {
    const base: nat
    var ics: seq<IC>
    var lab: nat
    var temp: nat
    var labelStack: seq<nat>
    var condStack: seq<Test>

    constructor (base: nat, lab: nat)
      ensures this.base == base && this.lab == lab && temp == base && ics == [] && labelStack == [] && condStack == []
    {
      this.base, this.lab, temp := base, lab, base;
      ics, labelStack, condStack := [], [], [];
    }

    /** add_IC: a copy from the temporary that the last instruction computed is not
        emitted; that instruction gets the copy's target instead. */
    method AddIC(ic: IC)
      modifies this`ics
      ensures ics == Added(old(ics), ic, base)
      ensures !ic.Assign? ==> ics == old(ics) + [ic]
      ensures SameBelow(ics, old(ics) + [ic], base)
    {
      AddedIsAppended(ics, ic, base);
      if ics != [] && ic.Assign? && ic.q1.Var? && Defines(ics[|ics| - 1])
         && ic.q1.v == ics[|ics| - 1].z && ic.q1.v >= base
      {
        ics := ics[..|ics| - 1] + [WithTarget(ics[|ics| - 1], ic.z)];
      } else {
        ics := ics + [ic];
      }
    }

    method GenLabel(l: nat)
      modifies this`ics
      ensures ics == old(ics) + [Label(l)]
    {
      AddIC(Label(l));
    }

    method GenTree(e: Expr) returns (o: Operand)
      modifies this`ics, this`temp
      ensures var r := TreeCode(e, old(temp)); ics == old(ics) + r.0 && o == r.1 && temp == r.2
      decreases e
    {
      hide Added, WithTarget, Defines;
      match e
      case Number(n) => o := Konst(n);
      case Variable(v) => o := Var(v);
      case Binary(op, l, r) =>
        ghost var c1, c2 := TreeCode(l, old(temp)).0, TreeCode(r, TreeCode(l, old(temp)).2).0;
        var q1 := GenTree(l);
        var q2 := GenTree(r);
        o := Var(temp);
        Regroup(old(ics), c1, c2, [Arith(op, temp, q1, q2)]);
        AddIC(Arith(op, temp, q1, q2));
        temp := temp + 1;
    }

    method GenCond(t: Test, yes: nat, no: nat)
      modifies this`ics, this`lab, this`temp
      ensures var r := CondCode(t, yes, no, old(lab), old(temp));
        ics == old(ics) + r.ics && lab == r.lab && temp == r.temp
      decreases t
    {
      hide Added, TreeCode;
      ghost var l0, t0 := lab, temp;
      match t
      case And(l, r) =>
        ghost var a := CondCode(l, l0 + 1, no, l0 + 1, t0);
        lab := lab + 1;
        var tmp := lab;
        GenCond(l, tmp, no);
        GenLabel(tmp);
        GenCond(r, yes, no);
        Regroup(old(ics), a.ics, [Label(tmp)], CondCode(r, yes, no, a.lab, a.temp).ics);
      case Or(l, r) =>
        ghost var a := CondCode(l, yes, l0 + 1, l0 + 1, t0);
        lab := lab + 1;
        var tmp := lab;
        GenCond(l, yes, tmp);
        GenLabel(tmp);
        GenCond(r, yes, no);
        Regroup(old(ics), a.ics, [Label(tmp)], CondCode(r, yes, no, a.lab, a.temp).ics);
      case Rel(c, l, r) =>
        var q1 := GenTree(l);
        var q2 := GenTree(r);
        AddIC(Compare(q1, q2));
        AddIC(Branch(c, yes));
        AddIC(Bra(no));
        ghost var r1 := TreeCode(l, t0);
        Regroup(old(ics), r1.0, TreeCode(r, r1.2).0, [Compare(q1, q2), Branch(c, yes), Bra(no)]);
        assert ics == old(ics) + r1.0 + TreeCode(r, r1.2).0 + [Compare(q1, q2), Branch(c, yes), Bra(no)];
    }

    method AssignStatement(v: nat, right: Expr)
      requires v < base <= temp && ExprBelow(right, base)
      modifies this`ics, this`temp
      ensures var r := LetCode(v, Simplify(right), old(temp)); ics == old(ics) + r.0 && temp == r.1
    {
      SimplifyBelow(right, base);
      var q1 := GenTree(Simplify(right));
      AddIC(Assign(v, q1));
      ghost var r := TreeCode(Simplify(right), old(temp));
      if r.0 != [] {
        assert (old(ics) + r.0)[..|old(ics) + r.0| - 1] == old(ics) + r.0[..|r.0| - 1];
      }
      TreeTempsAbove(Simplify(right), old(temp));
    }

    method IfStatement(p: Test)
      modifies this`ics, this`lab, this`temp, this`labelStack
      ensures var l := old(lab);
        var r := CondCode(SimplifyTest(p), l + 1, l + 2, l + 2, old(temp));
        && ics == old(ics) + r.ics + [Label(l + 1)] && lab == r.lab && temp == r.temp
        && labelStack == old(labelStack) + [l + 2]
    {
      lab := lab + 1;
      var yes := lab;
      lab := lab + 1;
      var no := lab;
      GenCond(SimplifyTest(p), yes, no);
      GenLabel(yes);
      labelStack := labelStack + [no];
    }

    method IfElse()
      requires labelStack != []
      modifies this`ics, this`lab, this`labelStack
      ensures lab == old(lab) + 2
      ensures ics == old(ics) + [Bra(lab), Label(old(labelStack)[|old(labelStack)| - 1])]
      ensures labelStack == old(labelStack)[..|old(labelStack)| - 1] + [lab]
    {
      lab := lab + 1;  // a label that is never used
      lab := lab + 1;
      AddIC(Bra(lab));
      var no := labelStack[|labelStack| - 1];
      labelStack := labelStack[..|labelStack| - 1];
      GenLabel(no);
      labelStack := labelStack + [lab];
    }

    method IfEnd()
      requires labelStack != []
      modifies this`ics, this`labelStack
      ensures ics == old(ics) + [Label(old(labelStack)[|old(labelStack)| - 1])]
      ensures labelStack == old(labelStack)[..|old(labelStack)| - 1]
    {
      var l := labelStack[|labelStack| - 1];
      labelStack := labelStack[..|labelStack| - 1];
      GenLabel(l);
    }

    method WhileStatement(p: Test)
      modifies this`ics, this`lab, this`temp, this`labelStack, this`condStack
      ensures var l := old(lab);
        var r := CondCode(SimplifyTest(p), l + 1, l + 2, l + 2, old(temp));
        && ics == old(ics) + r.ics + [Label(l + 1)] && lab == r.lab && temp == r.temp
        && labelStack == old(labelStack) + [l + 1, l + 2]
        && condStack == old(condStack) + [SimplifyTest(p)]
    {
      lab := lab + 1;
      var loop := lab;
      lab := lab + 1;
      var exit := lab;
      GenCond(SimplifyTest(p), loop, exit);
      GenLabel(loop);
      condStack := condStack + [SimplifyTest(p)];
      labelStack := labelStack + [loop];
      labelStack := labelStack + [exit];
    }

    method WhileEnd()
      requires |labelStack| >= 2 && condStack != []
      modifies this`ics, this`lab, this`temp, this`labelStack, this`condStack
      ensures var k := |old(labelStack)|;
        var exit, loop, p := old(labelStack)[k - 1], old(labelStack)[k - 2], old(condStack)[|old(condStack)| - 1];
        var r := CondCode(p, loop, exit, old(lab), old(temp));
        && ics == old(ics) + r.ics + [Label(exit)] && lab == r.lab && temp == r.temp
        && labelStack == old(labelStack)[..k - 2] && condStack == old(condStack)[..|old(condStack)| - 1]
    {
      var exit := labelStack[|labelStack| - 1];
      labelStack := labelStack[..|labelStack| - 1];
      var loop := labelStack[|labelStack| - 1];
      labelStack := labelStack[..|labelStack| - 1];
      var p := condStack[|condStack| - 1];
      condStack := condStack[..|condStack| - 1];
      GenCond(p, loop, exit);
      GenLabel(exit);
    }

    /** The parser calls the actions in the order of the program text. The stacks are
        afterwards what they were before. */
    method Parse(p: Stmt)
      requires base <= temp && StmtBelow(p, base)
      modifies this
      ensures var r := StmtCode(p, old(lab), old(temp)); ics == old(ics) + r.ics && lab == r.lab && temp == r.temp
      ensures labelStack == old(labelStack) && condStack == old(condStack)
      decreases p, 1
    {
      hide Added, TreeCode, CondCode, LetCode, SimplifyTest, Simplify, TestBelow, ExprBelow;
      match p
      case Empty =>
      case Then(a, b) =>
        Parse(a);
        Parse(b);
      case Let(v, e) =>
        AssignStatement(v, e);
      case If(t, thn) =>
        ParseIf(t, thn);
      case IfElse(t, thn, els) =>
        ParseIfElse(t, thn, els);
      case While(t, body) =>
        ParseWhile(t, body);
    }

    method ParseIf(t: Test, thn: Stmt)
      requires base <= temp && StmtBelow(thn, base)
      modifies this
      ensures var r := StmtCode(If(t, thn), old(lab), old(temp));
        ics == old(ics) + r.ics && lab == r.lab && temp == r.temp
      ensures labelStack == old(labelStack) && condStack == old(condStack)
      decreases If(t, thn), 0
    {
      hide Added, TreeCode, CondCode, LetCode, SimplifyTest, Simplify, StmtBelow;
      ghost var l0 := lab;
      ghost var c := CondCode(SimplifyTest(t), l0 + 1, l0 + 2, l0 + 2, temp);
      ghost var x := StmtCode(thn, c.lab, c.temp);
      IfStatement(t);
      Parse(thn);
      IfEnd();
      assert labelStack == old(labelStack);
      RegroupIf(old(ics), c.ics, [Label(l0 + 1)], x.ics, [Label(l0 + 2)]);
    }

    method ParseIfElse(t: Test, thn: Stmt, els: Stmt)
      requires base <= temp && StmtBelow(thn, base) && StmtBelow(els, base)
      modifies this
      ensures var r := StmtCode(Stmt.IfElse(t, thn, els), old(lab), old(temp));
        ics == old(ics) + r.ics && lab == r.lab && temp == r.temp
      ensures labelStack == old(labelStack) && condStack == old(condStack)
      decreases Stmt.IfElse(t, thn, els), 0
    {
      hide *;
      ghost var l0, i0, stack := lab, ics, labelStack;
      ghost var c := CondCode(SimplifyTest(t), l0 + 1, l0 + 2, l0 + 2, temp);
      ghost var x := StmtCode(thn, c.lab, c.temp);
      ghost var y := StmtCode(els, x.lab + 2, x.temp);
      IfElseCode(i0, t, thn, els, l0, temp);
      IfStatement(t);
      Parse(thn);
      Popped(stack, l0 + 2);
      this.IfElse();
      Parse(els);
      Popped(stack, x.lab + 2);
      IfEnd();
    }

    method ParseWhile(t: Test, body: Stmt)
      requires base <= temp && StmtBelow(body, base)
      modifies this
      ensures var r := StmtCode(While(t, body), old(lab), old(temp));
        ics == old(ics) + r.ics && lab == r.lab && temp == r.temp
      ensures labelStack == old(labelStack) && condStack == old(condStack)
      decreases While(t, body), 0
    {
      hide *;
      ghost var l0, stack, conds := lab, labelStack, condStack;
      ghost var c := CondCode(SimplifyTest(t), l0 + 1, l0 + 2, l0 + 2, temp);
      ghost var x := StmtCode(body, c.lab, c.temp);
      WhileCode(ics, t, body, l0, temp);
      WhileStatement(t);
      Parse(body);
      PoppedTwo(stack, l0 + 1, l0 + 2);
      Popped(conds, SimplifyTest(t));
      WhileEnd();
    }
  }

  lemma Popped<T>(stack: seq<T>, top: T)
    ensures (stack + [top])[|stack|] == top && (stack + [top])[..|stack|] == stack && |stack + [top]| == |stack| + 1
  {
  }

  lemma PoppedTwo<T>(stack: seq<T>, a: T, b: T)
    ensures var s := stack + [a, b];
      |s| == |stack| + 2 && s[|stack|] == a && s[|stack| + 1] == b && s[..|stack|] == stack
  {
  }

  lemma IfElseCode(i0: seq<IC>, t: Test, thn: Stmt, els: Stmt, l: nat, temp: nat)
    ensures var c := CondCode(SimplifyTest(t), l + 1, l + 2, l + 2, temp);
      var x := StmtCode(thn, c.lab, c.temp);
      var y := StmtCode(els, x.lab + 2, x.temp);
      var r := StmtCode(IfElse(t, thn, els), l, temp);
      && i0 + r.ics == i0 + c.ics + [Label(l + 1)] + x.ics + [Bra(x.lab + 2), Label(l + 2)] + y.ics + [Label(x.lab + 2)]
      && r.lab == y.lab && r.temp == y.temp
  {
    hide CondCode, SimplifyTest;
    var c := CondCode(SimplifyTest(t), l + 1, l + 2, l + 2, temp);
    var x := StmtCode(thn, c.lab, c.temp);
    var y := StmtCode(els, x.lab + 2, x.temp);
    RegroupElse(i0, c.ics, [Label(l + 1)], x.ics, Bra(x.lab + 2), Label(l + 2), y.ics, [Label(x.lab + 2)]);
  }

  lemma WhileCode(i0: seq<IC>, t: Test, body: Stmt, l: nat, temp: nat)
    ensures var c := CondCode(SimplifyTest(t), l + 1, l + 2, l + 2, temp);
      var x := StmtCode(body, c.lab, c.temp);
      var d := CondCode(SimplifyTest(t), l + 1, l + 2, x.lab, x.temp);
      var r := StmtCode(While(t, body), l, temp);
      && i0 + r.ics == i0 + c.ics + [Label(l + 1)] + x.ics + d.ics + [Label(l + 2)]
      && r.lab == d.lab && r.temp == d.temp
  {
    hide CondCode, SimplifyTest;
    var c := CondCode(SimplifyTest(t), l + 1, l + 2, l + 2, temp);
    var x := StmtCode(body, c.lab, c.temp);
    var d := CondCode(SimplifyTest(t), l + 1, l + 2, x.lab, x.temp);
    RegroupWhile(i0, c.ics, [Label(l + 1)], x.ics, d.ics, [Label(l + 2)]);
  }

  lemma Regroup(a: seq<IC>, b: seq<IC>, c: seq<IC>, d: seq<IC>)
    ensures a + (b + c + d) == a + b + c + d
  {
  }

  lemma RegroupIf(a: seq<IC>, b: seq<IC>, c: seq<IC>, d: seq<IC>, e: seq<IC>)
    ensures a + (b + c + d + e) == a + b + c + d + e
  {
  }

  lemma RegroupWhile(a: seq<IC>, b: seq<IC>, c: seq<IC>, d: seq<IC>, e: seq<IC>, f: seq<IC>)
    ensures a + (b + c + d + e + f) == a + b + c + d + e + f
  {
    RegroupIf(a, b, c, d, e);
    assert a + ((b + c + d + e) + f) == (a + (b + c + d + e)) + f;
  }

  lemma RegroupElse(a: seq<IC>, b: seq<IC>, c: seq<IC>, d: seq<IC>, i: IC, j: IC, e: seq<IC>, f: seq<IC>)
    ensures a + (b + c + d + [i, j] + e + f) == a + b + c + d + [i, j] + e + f
  {
    RegroupIf(a, b, c, d, [i, j]);
    Regroup(a, b + c + d + [i, j], e, f);
  }

  /** The list after add_IC. */
  function Added(ics: seq<IC>, ic: IC, base: nat): seq<IC> {
    if ics != [] && ic.Assign? && ic.q1.Var? && Defines(ics[|ics| - 1])
       && ic.q1.v == ics[|ics| - 1].z && ic.q1.v >= base
    then ics[..|ics| - 1] + [WithTarget(ics[|ics| - 1], ic.z)]
    else ics + [ic]
  }

  /** Run without branches, both lists leave the same values in the variables below base. */
  ghost predicate SameBelow(a: seq<IC>, b: seq<IC>, base: nat) {
    forall sem: Sem, st: State ::
      && ExecAll(a, sem, st).cc == ExecAll(b, sem, st).cc
      && forall v: nat :: v < base ==> Get(ExecAll(a, sem, st).store, v) == Get(ExecAll(b, sem, st).store, v)
  }

  /** Redirecting the instruction that computed the temporary instead of emitting the copy
      changes nothing but the temporary. */
  lemma AddedIsAppended(ics: seq<IC>, ic: IC, base: nat)
    ensures SameBelow(Added(ics, ic, base), ics + [ic], base)
  {
    if Added(ics, ic, base) != ics + [ic] {
      var init, last := ics[..|ics| - 1], ics[|ics| - 1];
      assert init + [last] == ics;
      forall sem: Sem, st: State
        ensures ExecAll(init + [WithTarget(last, ic.z)], sem, st).cc == ExecAll(ics + [ic], sem, st).cc
        ensures forall v: nat :: v < base ==>
          Get(ExecAll(init + [WithTarget(last, ic.z)], sem, st).store, v) == Get(ExecAll(ics + [ic], sem, st).store, v)
      {
        ExecSnoc(init, WithTarget(last, ic.z), sem, st);
        ExecSnoc(init, last, sem, st);
        ExecSnoc(ics, ic, sem, st);
        RedirectBelow(last, ic, base, sem, ExecAll(init, sem, st));
      }
    }
  }

  lemma RedirectBelow(last: IC, ic: IC, base: nat, sem: Sem, st: State)
    requires Defines(last) && ic.Assign? && ic.q1 == Var(last.z) && last.z >= base
    ensures var direct, copied := Exec(WithTarget(last, ic.z), sem, st), Exec(ic, sem, Exec(last, sem, st));
      && direct.cc == copied.cc
      && forall v: nat :: v < base ==> Get(direct.store, v) == Get(copied.store, v)
  {
  }

  lemma {:induction false} SimplifyBelow(e: Expr, base: nat)
    requires ExprBelow(e, base)
    ensures ExprBelow(Simplify(e), base)
  {
    if e.Binary? {
      SimplifyBelow(e.left, base);
      SimplifyBelow(e.right, base);
    }
  }

  lemma TreeTempsAbove(e: Expr, temp: nat)
    ensures e.Binary? ==> TreeCode(e, temp).1.Var? && TreeCode(e, temp).1.v >= temp
    ensures !e.Binary? ==> TreeCode(e, temp).0 == []
  {
  }
}
