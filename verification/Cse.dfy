/** Common subexpression elimination inside basic blocks (c/vbcc/cse.c). */
module Cse {
  import Numbering
  import opened BitSets
  import opened IntermediateCode
  import opened Options

  /** A list of instructions with the expression number of each. */
  datatype Code = Code(ics: seq<IC>, exps: seq<Option<nat>>)

  ghost predicate Matched(w: Code) {
    |w.ics| == |w.exps|
  }

  /** Variable v occurs nowhere in the code. */
  ghost predicate FreshIn(ics: seq<IC>, v: nat) {
    forall k :: 0 <= k < |ics| ==> v !in Mentions(ics[k])
  }

  predicate SameExpression(a: IC, b: IC) {
    match a
    case Assign(_, q1) => b.Assign? && b.q1 == q1
    case Arith(op, _, q1, q2) => b.Arith? && b.op == op && b.q1 == q1 && b.q2 == q2
    case _ => false
  }

  /** Representatives of the expression numbers, and the numbers each variable kills. */
  datatype Table = Table(elist: seq<IC>, kills: seq<Bits>)

  ghost predicate IsTable(t: Table) {
    && (forall i :: 0 <= i < |t.elist| ==> Defines(t.elist[i]))
    && (forall i, v :: 0 <= i < |t.elist| && v in Uses(t.elist[i]) ==> v < |t.kills| && i in t.kills[v])
  }

  /** Only numbers in use are killed. */
  ghost predicate KillsInTable(t: Table) {
    forall v, i :: 0 <= v < |t.kills| && i in t.kills[v] ==> i < |t.elist|
  }

  /** An instruction has a number only if it computes that expression. */
  ghost predicate Numbered(t: Table, ic: IC, exp: Option<nat>) {
    exp.Some? ==> exp.value < |t.elist| && SameExpression(ic, t.elist[exp.value])
  }

  ghost predicate AllNumbered(t: Table, w: Code) {
    Matched(w) && forall k :: 0 <= k < |w.ics| ==> Numbered(t, w.ics[k], w.exps[k])
  }

  function KilledBy(t: Table, ic: IC): Bits {
    if Defines(ic) && ic.z < |t.kills| then t.kills[ic.z] else {}
  }

  // ----- the transformation -----

  /** cse_search: the last instruction before position t with number i. */
  function LastWith(exps: seq<Option<nat>>, i: nat, t: nat): (r: nat)
    requires t <= |exps| && exists k :: 0 <= k < t && exps[k] == Some(i)
    ensures r < t && exps[r] == Some(i)
    ensures forall k :: r < k < t ==> exps[k] != Some(i)
  {
    if exps[t - 1] == Some(i) then t - 1 else LastWith(exps, i, t - 1)
  }

  /** cse_replace: the computation at t goes to v, and a copy inserted after it
      supplies the old target. */
  function Redirect(w: Code, t: nat, v: nat): Code
    requires Matched(w) && t < |w.ics| && Defines(w.ics[t])
  {
    Code(w.ics[..t] + [WithTarget(w.ics[t], v), Assign(w.ics[t].z, Var(v))] + w.ics[t + 1..],
         w.exps[..t + 1] + [None] + w.exps[t + 1..])
  }

  /** The instructions done so far, the numbers available after them, and the next
      unused variable. */
  datatype Progress = Progress(done: Code, ae: Bits, next: nat)

  predicate IsAvailable(s: Progress, exp: Option<nat>) {
    exp.Some? && exp.value in s.ae && exp in s.done.exps
  }

  function Append(w: Code, ic: IC, exp: Option<nat>): Code {
    Code(w.ics + [ic], w.exps + [exp])
  }

  /** One instruction of the block. */
  function CseStep(t: Table, s: Progress, ic: IC, exp: Option<nat>): Progress
    requires Matched(s.done)
  {
    var ae := s.ae + (if exp.Some? then {exp.value} else {});
    if Defines(ic) && IsAvailable(s, exp) && Defines(s.done.ics[LastWith(s.done.exps, exp.value, |s.done.exps|)]) then
      var source := LastWith(s.done.exps, exp.value, |s.done.exps|);
      Progress(Append(Redirect(s.done, source, s.next), Assign(ic.z, Var(s.next)), exp),
               ae - KilledBy(t, ic), s.next + 1)
    else
      Progress(Append(s.done, ic, exp), ae - KilledBy(t, ic), s.next)
  }

  function CseUpTo(t: Table, w: Code, next: nat, k: nat): (s: Progress)
    requires Matched(w) && k <= |w.ics|
    ensures Matched(s.done) && next <= s.next
  {
    if k == 0 then Progress(Code([], []), {}, next)
    else CseStep(t, CseUpTo(t, w, next, k - 1), w.ics[k - 1], w.exps[k - 1])
  }

  // ----- why it is correct -----

  /** Equal comparison results, and equal values of all variables except v. */
  ghost predicate EqualExcept(v: nat, s: State, t: State) {
    s.cc == t.cc && forall x: nat :: x != v ==> Get(s.store, x) == Get(t.store, x)
  }

  lemma {:induction false} ExecIgnoresFresh(ics: seq<IC>, sem: Sem, v: nat, s: State, t: State)
    requires FreshIn(ics, v) && EqualExcept(v, s, t)
    ensures var s', t' := ExecAll(ics, sem, s), ExecAll(ics, sem, t);
      EqualExcept(v, s', t') && Get(t'.store, v) == Get(t.store, v)
  {
    if ics != [] {
      assert v !in Mentions(ics[0]);
      var s1, t1 := Exec(ics[0], sem, s), Exec(ics[0], sem, t);
      ExecDependsOnUses(ics[0], sem, s, t);
      assert EqualExcept(v, s1, t1);
      ExecIgnoresFresh(ics[1..], sem, v, s1, t1);
    }
  }

  /** What the instruction at t computes when the code runs from st. */
  function Computed(w: Code, sem: Sem, st: State, t: nat): int
    requires Matched(w) && t < |w.ics| && Defines(w.ics[t])
  {
    Rhs(w.ics[t], sem, ExecAll(w.ics[..t], sem, st).store)
  }

  /** Redirecting a computation to a fresh variable changes no other variable and
      leaves the computed value in the fresh one. */
  lemma RedirectKeepsEffect(w: Code, sem: Sem, st: State, t: nat, v: nat)
    requires Matched(w) && t < |w.ics| && Defines(w.ics[t]) && FreshIn(w.ics, v)
    ensures var s, r := ExecAll(w.ics, sem, st), ExecAll(Redirect(w, t, v).ics, sem, st);
      EqualExcept(v, s, r) && Get(r.store, v) == Computed(w, sem, st, t)
  {
    var o := w.ics[t];
    var mid := ExecAll(w.ics[..t], sem, st);
    var x := Computed(w, sem, st, t);
    assert v !in Mentions(o);
    var s1 := Exec(o, sem, mid);
    var r1 := Exec(Assign(o.z, Var(v)), sem, Exec(WithTarget(o, v), sem, mid));
    assert EqualExcept(v, s1, r1) && Get(r1.store, v) == x;
    assert w.ics == w.ics[..t] + ([o] + w.ics[t + 1..]);
    ExecAppend(w.ics[..t], [o] + w.ics[t + 1..], sem, st);
    assert ([o] + w.ics[t + 1..])[1..] == w.ics[t + 1..];
    var two := [WithTarget(o, v), Assign(o.z, Var(v))];
    assert Redirect(w, t, v).ics == w.ics[..t] + (two + w.ics[t + 1..]);
    ExecAppend(w.ics[..t], two + w.ics[t + 1..], sem, st);
    ExecAppend(two, w.ics[t + 1..], sem, mid);
    assert two[1..] == [Assign(o.z, Var(v))];
    assert ExecAll(two, sem, mid) == ExecAll(two[1..], sem, Exec(two[0], sem, mid));
    assert ExecAll(two[1..], sem, Exec(two[0], sem, mid)) == ExecAll(two[1..][1..], sem, r1);
    ExecIgnoresFresh(w.ics[t + 1..], sem, v, s1, r1);
  }

  /** Where an instruction of w stands after the redirection at t. */
  function Moved(t: nat, k: nat): nat {
    if k <= t then k else k + 1
  }

  /** Every instruction still computes what it computed before. */
  lemma RedirectKeepsComputed(w: Code, sem: Sem, st: State, t: nat, v: nat, k: nat)
    requires Matched(w) && t < |w.ics| && k < |w.ics| && Defines(w.ics[t]) && Defines(w.ics[k]) && FreshIn(w.ics, v)
    ensures var r := Redirect(w, t, v);
      Defines(r.ics[Moved(t, k)]) && Computed(r, sem, st, Moved(t, k)) == Computed(w, sem, st, k)
  {
    var r := Redirect(w, t, v);
    assert v !in Mentions(w.ics[k]);
    if k <= t {
      assert r.ics[..k] == w.ics[..k];
    } else {
      var short := Code(w.ics[..k], w.exps[..k]);
      assert r.ics[k + 1] == w.ics[k];
      assert short.ics[..t] == w.ics[..t];
      assert r.ics[..k + 1] == Redirect(short, t, v).ics;
      RedirectKeepsEffect(short, sem, st, t, v);
    }
  }

  /** Equal comparison results, and equal values of the variables below base. */
  ghost predicate AgreeBelow(base: nat, s: State, t: State) {
    s.cc == t.cc && forall x: nat :: x < base ==> Get(s.store, x) == Get(t.store, x)
  }

  ghost predicate AllBelow(ics: seq<IC>, n: nat) {
    forall k, v :: 0 <= k < |ics| && v in Mentions(ics[k]) ==> v < n
  }

  /** Number i stands for the value its last computation left behind: evaluating the
      expression now gives the same. */
  ghost predicate StillHolds(t: Table, w: Code, sem: Sem, st: State, i: nat)
    requires Matched(w) && i < |t.elist| && IsTable(t)
  {
    && (exists k :: 0 <= k < |w.exps| && w.exps[k] == Some(i))
    && var k := LastWith(w.exps, i, |w.exps|);
    && Defines(w.ics[k])
    && Computed(w, sem, st, k) == Rhs(t.elist[i], sem, ExecAll(w.ics, sem, st).store)
  }

  /** What holds after every instruction of the block, for a run from st. */
  ghost predicate Invariant(t: Table, base: nat, orig: seq<IC>, s: Progress, sem: Sem, st: State)
    requires IsTable(t)
  {
    && Matched(s.done) && base <= s.next && AllBelow(s.done.ics, s.next)
    && AgreeBelow(base, ExecAll(orig, sem, st), ExecAll(s.done.ics, sem, st))
    && (forall i :: i in s.ae ==> i < |t.elist| && StillHolds(t, s.done, sem, st, i))
  }

  lemma RhsOfSameExpression(a: IC, b: IC, sem: Sem, s: Store)
    requires Defines(b) && SameExpression(a, b)
    ensures Defines(a) && Rhs(a, sem, s) == Rhs(b, sem, s)
  {
  }

  /** Appending an instruction that computes its number's expression, if it has one,
      keeps the numbers whose operands it does not change. */
  lemma AppendKeepsHolding(t: Table, w: Code, sem: Sem, st: State, ic: IC, exp: Option<nat>, i: nat)
    requires Matched(w) && IsTable(t) && i < |t.elist|
    requires Defines(ic) ==> ic.z !in Uses(t.elist[i])
    requires exp != Some(i) ==> StillHolds(t, w, sem, st, i)
    requires exp == Some(i) ==> Defines(ic) && Rhs(ic, sem, ExecAll(w.ics, sem, st).store)
                                            == Rhs(t.elist[i], sem, ExecAll(w.ics, sem, st).store)
    ensures StillHolds(t, Append(w, ic, exp), sem, st, i)
  {
    var w' := Append(w, ic, exp);
    var end := ExecAll(w.ics, sem, st);
    ExecSnoc(w.ics, ic, sem, st);
    UnchangedRhs(t.elist[i], ic, sem, end);
    assert w'.exps[|w.exps|] == exp;
    if exp == Some(i) {
      assert w'.ics[..|w.ics|] == w.ics;
    } else {
      var k := LastWith(w.exps, i, |w.exps|);
      assert w'.exps[k] == Some(i);
      assert LastWith(w'.exps, i, |w'.exps|) == k;
      assert w'.ics[..k] == w.ics[..k];
    }
  }

  lemma UnchangedRhs(e: IC, ic: IC, sem: Sem, st: State)
    requires Defines(e) && (Defines(ic) ==> ic.z !in Uses(e))
    ensures Rhs(e, sem, Exec(ic, sem, st).store) == Rhs(e, sem, st.store)
  {
  }

  /** A redirection keeps all numbers. */
  lemma RedirectKeepsHolding(t: Table, w: Code, sem: Sem, st: State, at: nat, v: nat, i: nat)
    requires Matched(w) && IsTable(t) && i < |t.elist| && at < |w.ics| && Defines(w.ics[at]) && FreshIn(w.ics, v)
    requires v !in Uses(t.elist[i]) && StillHolds(t, w, sem, st, i)
    ensures StillHolds(t, Redirect(w, at, v), sem, st, i)
  {
    var r := Redirect(w, at, v);
    var k := LastWith(w.exps, i, |w.exps|);
    RedirectKeepsComputed(w, sem, st, at, v, k);
    RedirectKeepsEffect(w, sem, st, at, v);
    assert r.exps[Moved(at, k)] == Some(i);
    assert forall j :: Moved(at, k) < j < |r.exps| ==> r.exps[j] != Some(i);
    assert LastWith(r.exps, i, |r.exps|) == Moved(at, k);
    var s, s' := ExecAll(w.ics, sem, st), ExecAll(r.ics, sem, st);
    assert Rhs(t.elist[i], sem, s.store) == Rhs(t.elist[i], sem, s'.store) by {
      EqualRhs(t.elist[i], sem, v, s, s');
    }
  }

  lemma EqualRhs(e: IC, sem: Sem, v: nat, s: State, t: State)
    requires Defines(e) && v !in Uses(e) && EqualExcept(v, s, t)
    ensures Rhs(e, sem, s.store) == Rhs(e, sem, t.store)
  {
  }

  lemma EqualBelow(ic: IC, sem: Sem, base: nat, s: State, t: State)
    requires AgreeBelow(base, s, t) && forall v :: v in Mentions(ic) ==> v < base
    ensures AgreeBelow(base, Exec(ic, sem, s), Exec(ic, sem, t))
    ensures Defines(ic) ==> Rhs(ic, sem, s.store) == Rhs(ic, sem, t.store)
  {
    assert forall v :: v in Uses(ic) ==> v in Mentions(ic);
    ExecDependsOnUses(ic, sem, s, t);
  }

  /** The expressions of the table use only variables below base. */
  ghost predicate TableBelow(t: Table, base: nat) {
    forall i, v :: 0 <= i < |t.elist| && v in Uses(t.elist[i]) ==> v < base
  }

  lemma NotKilled(t: Table, ic: IC, i: nat)
    requires IsTable(t) && i < |t.elist| && i !in KilledBy(t, ic)
    ensures Defines(ic) ==> ic.z !in Uses(t.elist[i])
  {
  }

  lemma KeepStep(t: Table, base: nat, orig: seq<IC>, s: Progress, ic: IC, exp: Option<nat>, sem: Sem, st: State)
    requires IsTable(t) && Invariant(t, base, orig, s, sem, st) && Numbered(t, ic, exp)
    requires forall v :: v in Mentions(ic) ==> v < base
    ensures var ae := s.ae + (if exp.Some? then {exp.value} else {});
      Invariant(t, base, orig + [ic], Progress(Append(s.done, ic, exp), ae - KilledBy(t, ic), s.next), sem, st)
  {
    var end := ExecAll(s.done.ics, sem, st);
    ExecSnoc(orig, ic, sem, st);
    ExecSnoc(s.done.ics, ic, sem, st);
    EqualBelow(ic, sem, base, ExecAll(orig, sem, st), end);
    var ae := s.ae + (if exp.Some? then {exp.value} else {});
    forall i | i in ae - KilledBy(t, ic)
      ensures i < |t.elist| && StillHolds(t, Append(s.done, ic, exp), sem, st, i)
    {
      NotKilled(t, ic, i);
      if exp == Some(i) {
        RhsOfSameExpression(ic, t.elist[i], sem, end.store);
      }
      AppendKeepsHolding(t, s.done, sem, st, ic, exp, i);
    }
  }

  lemma EliminateStep(t: Table, base: nat, orig: seq<IC>, s: Progress, ic: IC, i: nat, sem: Sem, st: State)
    requires IsTable(t) && TableBelow(t, base) && Invariant(t, base, orig, s, sem, st)
    requires Numbered(t, ic, Some(i)) && i in s.ae
    requires forall v :: v in Mentions(ic) ==> v < base
    ensures Some(i) in s.done.exps
    ensures var k := LastWith(s.done.exps, i, |s.done.exps|);
      && Defines(s.done.ics[k])
      && Invariant(t, base, orig + [ic],
           Progress(Append(Redirect(s.done, k, s.next), Assign(ic.z, Var(s.next)), Some(i)),
                    s.ae - KilledBy(t, ic), s.next + 1), sem, st)
  {
    hide ExecAll, LastWith;
    var v := s.next;
    assert StillHolds(t, s.done, sem, st, i);
    var k0 :| 0 <= k0 < |s.done.exps| && s.done.exps[k0] == Some(i);
    assert Some(i) in s.done.exps;
    var k := LastWith(s.done.exps, i, |s.done.exps|);
    assert FreshIn(s.done.ics, v);
    var r := Redirect(s.done, k, v);
    var p := Assign(ic.z, Var(v));
    var o, end, end' := ExecAll(orig, sem, st), ExecAll(s.done.ics, sem, st), ExecAll(r.ics, sem, st);
    RedirectKeepsEffect(s.done, sem, st, k, v);
    RhsOfSameExpression(ic, t.elist[i], sem, end.store);
    EqualBelow(ic, sem, base, o, end);
    assert Get(end'.store, v) == Rhs(ic, sem, o.store);
    ExecSnoc(orig, ic, sem, st);
    ExecSnoc(r.ics, p, sem, st);
    CopyAgreesBelow(ic, v, sem, base, o, end, end');
    RedirectBelow(s.done, k, v);
    assert AllBelow(r.ics + [p], v + 1) by {
      assert ic.z in Mentions(ic);
    }
    assert AgreeBelow(base, ExecAll(orig + [ic], sem, st), ExecAll(r.ics + [p], sem, st));
    forall j | j in s.ae - KilledBy(t, ic)
      ensures j < |t.elist| && StillHolds(t, Append(r, p, Some(i)), sem, st, j)
    {
      assert StillHolds(t, s.done, sem, st, j);
      NotKilled(t, ic, j);
      RedirectKeepsHolding(t, s.done, sem, st, k, v, j);
      EqualRhs(t.elist[j], sem, v, end, end');
      AppendKeepsHolding(t, r, sem, st, p, Some(i), j);
    }
  }

  /** Copying a value the instruction would have computed has its effect. */
  lemma CopyAgreesBelow(ic: IC, v: nat, sem: Sem, base: nat, o: State, end: State, end': State)
    requires Defines(ic) && base <= v && AgreeBelow(base, o, end) && EqualExcept(v, end, end')
    requires Get(end'.store, v) == Rhs(ic, sem, o.store)
    ensures AgreeBelow(base, Exec(ic, sem, o), Exec(Assign(ic.z, Var(v)), sem, end'))
  {
    forall x: nat | x < base
      ensures Get(Exec(ic, sem, o).store, x) == Get(Exec(Assign(ic.z, Var(v)), sem, end').store, x)
    {
      assert Get(o.store, x) == Get(end.store, x) == Get(end'.store, x);
    }
  }

  lemma RedirectBelow(w: Code, k: nat, v: nat)
    requires Matched(w) && k < |w.ics| && Defines(w.ics[k]) && AllBelow(w.ics, v)
    ensures AllBelow(Redirect(w, k, v).ics, v + 1)
  {
    var r := Redirect(w, k, v);
    forall j, x | 0 <= j < |r.ics| && x in Mentions(r.ics[j])
      ensures x < v + 1
    {
      assert forall y :: y in Mentions(w.ics[k]) ==> y < v;
      assert k + 1 < j ==> r.ics[j] == w.ics[j - 1];
    }
  }

  lemma StepKeepsInvariant(
      t: Table, base: nat, orig: seq<IC>, s: Progress, ic: IC, exp: Option<nat>, sem: Sem, st: State)
    requires IsTable(t) && TableBelow(t, base) && Invariant(t, base, orig, s, sem, st) && Numbered(t, ic, exp)
    requires forall v :: v in Mentions(ic) ==> v < base
    ensures Invariant(t, base, orig + [ic], CseStep(t, s, ic, exp), sem, st)
  {
    if exp.Some? && exp.value in s.ae {
      EliminateStep(t, base, orig, s, ic, exp.value, sem, st);
      assert s.ae + {exp.value} == s.ae;
      assert Defines(ic);
    } else {
      KeepStep(t, base, orig, s, ic, exp, sem, st);
    }
  }

  /** After every prefix of the block the rewritten prefix has the same effect on the
      variables the block had before. */
  lemma {:induction false} CseKeepsEffect(t: Table, w: Code, base: nat, next: nat, k: nat, sem: Sem, st: State)
    requires IsTable(t) && TableBelow(t, base) && AllNumbered(t, w) && AllBelow(w.ics, base)
    requires base <= next && k <= |w.ics|
    ensures Invariant(t, base, w.ics[..k], CseUpTo(t, w, next, k), sem, st)
  {
    hide CseStep, StillHolds, TableBelow, KilledBy;
    if k > 0 {
      CseKeepsEffect(t, w, base, next, k - 1, sem, st);
      assert w.ics[..k] == w.ics[..k - 1] + [w.ics[k - 1]];
      StepKeepsInvariant(t, base, w.ics[..k - 1], CseUpTo(t, w, next, k - 1), w.ics[k - 1], w.exps[k - 1], sem, st);
    }
  }

  // ----- whole programs -----

  type Exps = seq<seq<Option<nat>>>

  ghost predicate ProgramNumbered(t: Table, g: Graph, exps: Exps, base: nat) {
    && IsTable(t) && TableBelow(t, base) && |exps| == |g|
    && forall b :: 0 <= b < |g| ==> AllNumbered(t, Code(g[b].ics, exps[b])) && AllBelow(g[b].ics, base)
  }

  /** All blocks from b on; temporaries are numbered consecutively across blocks. */
  function CseBlocks(t: Table, g: Graph, exps: Exps, b: nat, next: nat): (h: Graph)
    requires |exps| == |g| && b <= |g| && forall c :: 0 <= c < |g| ==> |exps[c]| == |g[c].ics|
    ensures |h| == |g| - b
    decreases |g| - b
  {
    if b == |g| then []
    else
      var s := CseUpTo(t, Code(g[b].ics, exps[b]), next, |g[b].ics|);
      [g[b].(ics := s.done.ics)] + CseBlocks(t, g, exps, b + 1, s.next)
  }

  ghost predicate IsCseBlock(t: Table, g: Graph, exps: Exps, base: nat, h: Graph, b: nat)
    requires |exps| == |g| == |h| && b < |g| && |exps[b]| == |g[b].ics|
  {
    exists next :: base <= next
      && h[b] == g[b].(ics := CseUpTo(t, Code(g[b].ics, exps[b]), next, |g[b].ics|).done.ics)
  }

  lemma {:induction false} CseBlocksPointwise(t: Table, g: Graph, exps: Exps, base: nat, b: nat, next: nat, h: Graph)
    requires |exps| == |g| == |h| && b <= |g| && base <= next
    requires forall c :: 0 <= c < |g| ==> |exps[c]| == |g[c].ics|
    requires h[b..] == CseBlocks(t, g, exps, b, next)
    ensures forall d :: b <= d < |g| ==> IsCseBlock(t, g, exps, base, h, d)
    decreases |g| - b
  {
    if b < |g| {
      var s := CseUpTo(t, Code(g[b].ics, exps[b]), next, |g[b].ics|);
      assert h[b] == h[b..][0] && h[b + 1..] == h[b..][1..];
      CseBlocksPointwise(t, g, exps, base, b + 1, s.next, h);
    }
  }

  ghost predicate NoBranches(ics: seq<IC>) {
    forall j :: 0 <= j < |ics| ==> !IsBranch(ics[j])
  }

  lemma RedirectHasNoBranches(w: Code, k: nat, v: nat)
    requires Matched(w) && k < |w.ics| && Defines(w.ics[k]) && NoBranches(w.ics)
    ensures NoBranches(Redirect(w, k, v).ics)
  {
    var r := Redirect(w, k, v).ics;
    assert forall j :: k + 1 < j < |r| ==> r[j] == w.ics[j - 1];
  }

  /** A step appends the instruction itself or, in place of a computation, a copy. */
  lemma StepKeepsBranches(t: Table, s: Progress, ic: IC, exp: Option<nat>)
    requires Matched(s.done) && NoBranches(s.done.ics)
    ensures var ics := CseStep(t, s, ic, exp).done.ics;
      && ics != [] && NoBranches(ics[..|ics| - 1])
      && IsBranch(ics[|ics| - 1]) == IsBranch(ic)
      && (IsBranch(ic) ==> ics[|ics| - 1] == ic)
  {
    var ics := CseStep(t, s, ic, exp).done.ics;
    if Defines(ic) && IsAvailable(s, exp) && Defines(s.done.ics[LastWith(s.done.exps, exp.value, |s.done.exps|)]) {
      var k := LastWith(s.done.exps, exp.value, |s.done.exps|);
      RedirectHasNoBranches(s.done, k, s.next);
      assert ics[..|ics| - 1] == Redirect(s.done, k, s.next).ics;
    } else {
      assert ics[..|ics| - 1] == s.done.ics;
    }
  }

  lemma {:induction false} PrefixHasNoBranches(t: Table, w: Code, next: nat, k: nat)
    requires Matched(w) && k <= |w.ics| && NoBranches(w.ics[..k])
    ensures NoBranches(CseUpTo(t, w, next, k).done.ics)
  {
    if k > 0 {
      assert w.ics[..k][k - 1] == w.ics[k - 1];
      assert w.ics[..k][..k - 1] == w.ics[..k - 1];
      PrefixHasNoBranches(t, w, next, k - 1);
      StepKeepsBranches(t, CseUpTo(t, w, next, k - 1), w.ics[k - 1], w.exps[k - 1]);
    }
  }

  /** A block keeps its last branch and gets no other. */
  lemma CseKeepsBranches(t: Table, w: Code, next: nat, branchout: Option<nat>, count: nat)
    requires Matched(w) && WellFormedBlock(Block(w.ics, branchout), count)
    ensures var h := Block(CseUpTo(t, w, next, |w.ics|).done.ics, branchout);
      WellFormedBlock(h, count) && forall cc :: Taken(h, cc) == Taken(Block(w.ics, branchout), cc)
  {
    if w.ics != [] {
      PrefixHasNoBranches(t, w, next, |w.ics| - 1);
      StepKeepsBranches(t, CseUpTo(t, w, next, |w.ics| - 1), w.ics[|w.ics| - 1], w.exps[|w.ics| - 1]);
      var ics := CseUpTo(t, w, next, |w.ics|).done.ics;
      assert forall j :: 0 <= j < |ics| - 1 ==> ics[j] == ics[..|ics| - 1][j];
    }
  }

  lemma {:induction false} BlockAgreesBelow(ics: seq<IC>, sem: Sem, base: nat, s: State, t: State)
    requires AgreeBelow(base, s, t) && AllBelow(ics, base)
    ensures AgreeBelow(base, ExecAll(ics, sem, s), ExecAll(ics, sem, t))
  {
    if ics != [] {
      EqualBelow(ics[0], sem, base, s, t);
      BlockAgreesBelow(ics[1..], sem, base, Exec(ics[0], sem, s), Exec(ics[0], sem, t));
    }
  }

  ghost predicate InStep(base: nat, c: Config, d: Config) {
    match c
    case Halted(s) => d.Halted? && AgreeBelow(base, s, d.st)
    case At(b, s) => d.At? && d.block == b && AgreeBelow(base, s, d.st)
  }

  lemma CseBlockFacts(t: Table, g: Graph, exps: Exps, base: nat, h: Graph, b: nat, sem: Sem, st: State)
    requires WellFormed(g) && ProgramNumbered(t, g, exps, base) && |h| == |g| && b < |g|
    requires h == CseBlocks(t, g, exps, 0, base)
    ensures WellFormedBlock(h[b], |h|) && h[b].branchout == g[b].branchout
    ensures forall cc :: Taken(h[b], cc) == Taken(g[b], cc)
    ensures AgreeBelow(base, ExecAll(g[b].ics, sem, st), ExecAll(h[b].ics, sem, st))
  {
    var w := Code(g[b].ics, exps[b]);
    assert AllNumbered(t, w);
    var next := BlockStart(t, g, exps, base, h, b);
    assert WellFormedBlock(g[b], |g|);
    CseKeepsBranches(t, w, next, g[b].branchout, |g|);
    CseKeepsEffect(t, w, base, next, |w.ics|, sem, st);
    assert w.ics[..|w.ics|] == g[b].ics;
  }

  lemma BlockStart(t: Table, g: Graph, exps: Exps, base: nat, h: Graph, b: nat) returns (next: nat)
    requires ProgramNumbered(t, g, exps, base) && |h| == |g| && b < |g|
    requires h == CseBlocks(t, g, exps, 0, base)
    ensures base <= next && Matched(Code(g[b].ics, exps[b]))
    ensures h[b] == g[b].(ics := CseUpTo(t, Code(g[b].ics, exps[b]), next, |g[b].ics|).done.ics)
  {
    assert h[0..] == h;
    assert forall c :: 0 <= c < |g| ==> AllNumbered(t, Code(g[c].ics, exps[c]));
    CseBlocksPointwise(t, g, exps, base, 0, base, h);
    assert IsCseBlock(t, g, exps, base, h, b);
    next :| base <= next && h[b] == g[b].(ics := CseUpTo(t, Code(g[b].ics, exps[b]), next, |g[b].ics|).done.ics);
  }

  /** Local common subexpression elimination preserves every run: the same blocks in
      the same order, with the same values of all variables the program had. */
  lemma {:induction false} CsePreservesRuns(
      t: Table, g: Graph, exps: Exps, base: nat, h: Graph, sem: Sem, s: State, n: nat)
    requires WellFormed(g) && ProgramNumbered(t, g, exps, base)
    requires h == CseBlocks(t, g, exps, 0, base)
    ensures WellFormed(h)
    ensures InStep(base, Run(g, sem, s, n), Run(h, sem, s, n))
  {
    hide CseBlocks, ExecAll;
    forall b | 0 <= b < |h|
      ensures WellFormedBlock(h[b], |h|)
    {
      CseBlockFacts(t, g, exps, base, h, b, sem, s);
    }
    if n > 0 {
      CsePreservesRuns(t, g, exps, base, h, sem, s, n - 1);
      var c, d := Run(g, sem, s, n - 1), Run(h, sem, s, n - 1);
      if c.At? {
        CseBlockFacts(t, g, exps, base, h, c.block, sem, d.st);
        assert AllBelow(g[c.block].ics, base);
        BlockAgreesBelow(g[c.block].ics, sem, base, c.st, d.st);
        assert WellFormedBlock(g[c.block], |g|);
      }
    }
  }

  // ----- numbering -----

  /** Computations count as expressions; a copy does so only if it reads one of the
      given variables (extern and static ones under static_cse). */
  predicate IsExpression(ic: IC, memory: set<nat>) {
    || (ic.Arith? && !ic.q1.Absent?)
    || (ic.Assign? && ic.q1.Var? && ic.q1.v in memory)
  }

  predicate Commutes(op: Op) {
    op == ADD || op == MULT || op == OR || op == XOR || op == AND
  }

  /** compare_objs(a, b) < 0: constants before variables. */
  predicate Precedes(a: Operand, b: Operand) {
    match (a, b)
    case (Konst(x), Konst(y)) => x < y
    case (Var(x), Var(y)) => x < y
    case (Absent, _) => !b.Absent?
    case (Konst(_), Var(_)) => true
    case _ => false
  }

  /** The operands of a commutative operation are put into a fixed order, unless that
      would make the second operand equal to the target on a machine that forbids it. */
  function Normalised(ic: IC, memory: set<nat>, useQ2AsZ: bool): IC {
    if IsExpression(ic, memory) && ic.Arith? && Commutes(ic.op) && !ic.q2.Absent? && Precedes(ic.q1, ic.q2)
       && (useQ2AsZ || ic.q1 != Var(ic.z))
    then ic.(q1 := ic.q2, q2 := ic.q1)
    else ic
  }

  lemma NormalisedKeepsEffect(ic: IC, memory: set<nat>, useQ2AsZ: bool, sem: Sem, st: State)
    requires IsSymmetric(sem)
    ensures Exec(Normalised(ic, memory, useQ2AsZ), sem, st) == Exec(ic, sem, st)
    ensures Mentions(Normalised(ic, memory, useQ2AsZ)) == Mentions(ic)
  {
  }

  function NormalisedAll(ics: seq<IC>, memory: set<nat>, useQ2AsZ: bool): (r: seq<IC>)
    ensures |r| == |ics|
    ensures forall k :: 0 <= k < |r| ==> r[k] == Normalised(ics[k], memory, useQ2AsZ)
  {
    seq(|ics|, k requires 0 <= k < |ics| => Normalised(ics[k], memory, useQ2AsZ))
  }

  lemma {:induction false} NormalisedAllKeepsEffect(ics: seq<IC>, memory: set<nat>, useQ2AsZ: bool, sem: Sem, st: State)
    requires IsSymmetric(sem)
    ensures ExecAll(NormalisedAll(ics, memory, useQ2AsZ), sem, st) == ExecAll(ics, sem, st)
  {
    if ics != [] {
      NormalisedKeepsEffect(ics[0], memory, useQ2AsZ, sem, st);
      NormalisedAllKeepsEffect(ics[1..], memory, useQ2AsZ, sem, Exec(ics[0], sem, st));
      assert NormalisedAll(ics, memory, useQ2AsZ)[1..] == NormalisedAll(ics[1..], memory, useQ2AsZ);
    }
  }

  function NormalisedGraph(g: Graph, memory: set<nat>, useQ2AsZ: bool): (h: Graph)
    ensures |h| == |g|
    ensures forall b :: 0 <= b < |g| ==> h[b] == g[b].(ics := NormalisedAll(g[b].ics, memory, useQ2AsZ))
  {
    seq(|g|, b requires 0 <= b < |g| => g[b].(ics := NormalisedAll(g[b].ics, memory, useQ2AsZ)))
  }

  /** The operators that num_exp takes to be commutative are. */
  ghost predicate IsSymmetric(sem: Sem) {
    forall op, x, y :: Commutes(op) ==> sem(op, x, y) == sem(op, y, x)
  }

  lemma NormalisedIsWellFormed(g: Graph, memory: set<nat>, useQ2AsZ: bool)
    requires WellFormed(g)
    ensures WellFormed(NormalisedGraph(g, memory, useQ2AsZ))
  {
    var h := NormalisedGraph(g, memory, useQ2AsZ);
    forall b | 0 <= b < |h|
      ensures WellFormedBlock(h[b], |h|)
    {
      assert WellFormedBlock(g[b], |g|);
    }
  }

  /** Putting operands in order leaves every run unchanged. */
  lemma {:induction false} NormalisedKeepsRuns(g: Graph, memory: set<nat>, useQ2AsZ: bool, sem: Sem, s: State, n: nat)
    requires WellFormed(g) && IsSymmetric(sem)
    ensures WellFormed(NormalisedGraph(g, memory, useQ2AsZ))
    ensures Run(NormalisedGraph(g, memory, useQ2AsZ), sem, s, n) == Run(g, sem, s, n)
  {
    hide ExecAll, WellFormed;
    NormalisedIsWellFormed(g, memory, useQ2AsZ);
    var h := NormalisedGraph(g, memory, useQ2AsZ);
    if n > 0 {
      NormalisedKeepsRuns(g, memory, useQ2AsZ, sem, s, n - 1);
      var c := Run(g, sem, s, n - 1);
      if c.At? {
        NormalisedAllKeepsEffect(g[c.block].ics, memory, useQ2AsZ, sem, c.st);
        NormalisedBranch(g[c.block], memory, useQ2AsZ, ExecAll(g[c.block].ics, sem, c.st).cc);
      }
    }
  }

  lemma NormalisedBranch(b: Block, memory: set<nat>, useQ2AsZ: bool, cc: (int, int))
    ensures Taken(b.(ics := NormalisedAll(b.ics, memory, useQ2AsZ)), cc) == Taken(b, cc)
  {
  }

  /** Numbering with its exchange of operands, and elimination, preserve every run of the
      original program. */
  lemma EliminationPreservesRuns(
      g: Graph, memory: set<nat>, useQ2AsZ: bool, t: Table, exps: Exps, base: nat, h: Graph, sem: Sem, s: State, n: nat)
    requires WellFormed(g) && IsSymmetric(sem)
    requires ProgramNumbered(t, NormalisedGraph(g, memory, useQ2AsZ), exps, base)
    requires h == CseBlocks(t, NormalisedGraph(g, memory, useQ2AsZ), exps, 0, base)
    ensures WellFormed(h)
    ensures InStep(base, Run(g, sem, s, n), Run(h, sem, s, n))
  {
    hide CseBlocks, Run, InStep, WellFormed;
    NormalisedKeepsRuns(g, memory, useQ2AsZ, sem, s, n);
    CsePreservesRuns(t, NormalisedGraph(g, memory, useQ2AsZ), exps, base, h, sem, s, n);
  }

  /** The operators' numbers in the compiler's opcode list; the others follow. */
  function OpCode(op: Op): nat {
    match op
    case OR => 16
    case XOR => 17
    case AND => 18
    case ADD => 27
    case SUB => 28
    case MULT => 29
    case DIV => 30
    case OTHER(n) => 100 + n
  }

  function ObjKey(o: Operand): (k: Numbering.Key)
    ensures |k| == 2
  {
    match o
    case Absent => [0, 0]
    case Konst(c) => [1, c]
    case Var(v) => [2, v]
  }

  /** What compare_exp looks at. */
  function KeyOf(ic: IC): (k: Numbering.Key)
    requires Defines(ic)
    ensures |k| == 5
  {
    match ic
    case Assign(_, q1) => [2] + ObjKey(q1) + ObjKey(Absent)
    case Arith(op, _, q1, q2) => [OpCode(op)] + ObjKey(q1) + ObjKey(q2)
  }

  lemma ObjKeyIdentifies(a: Operand, b: Operand)
    ensures ObjKey(a) == ObjKey(b) <==> a == b
  {
    if ObjKey(a) == ObjKey(b) {
      assert ObjKey(a)[0] == ObjKey(b)[0] && ObjKey(a)[1] == ObjKey(b)[1];
    }
  }

  lemma KeyIdentifies(a: IC, b: IC)
    requires Defines(a) && Defines(b)
    ensures KeyOf(a) == KeyOf(b) <==> SameExpression(a, b)
  {
    var a2, b2 := if a.Arith? then a.q2 else Absent, if b.Arith? then b.q2 else Absent;
    assert KeyOf(a)[1..3] == ObjKey(a.q1) && KeyOf(a)[3..5] == ObjKey(a2);
    assert KeyOf(b)[1..3] == ObjKey(b.q1) && KeyOf(b)[3..5] == ObjKey(b2);
    ObjKeyIdentifies(a.q1, b.q1);
    ObjKeyIdentifies(a2, b2);
    if KeyOf(a) == KeyOf(b) {
      assert KeyOf(a)[0] == KeyOf(b)[0];
    }
  }

  /** The expressions of the program in order; initial gives each its position. */
  ghost predicate ListsExpressions(g: Graph, memory: set<nat>, initial: Exps, list: seq<IC>, n: nat) {
    && |initial| == |g|
    && (forall b :: 0 <= b < |g| ==> RowLists(g[b].ics, memory, initial[b], list))
    && ComputesBelow(list, n)
  }

  ghost predicate ComputesBelow(list: seq<IC>, n: nat) {
    forall j :: 0 <= j < |list| ==> Defines(list[j]) && forall v :: v in Uses(list[j]) ==> v < n
  }

  ghost predicate RowLists(ics: seq<IC>, memory: set<nat>, row: seq<Option<nat>>, list: seq<IC>) {
    && |row| == |ics|
    && forall k :: 0 <= k < |ics| ==>
      && (row[k].Some? <==> IsExpression(ics[k], memory))
      && (row[k].Some? ==> row[k].value < |list| && list[row[k].value] == ics[k])
  }

  method CollectExpressions(g: Graph, memory: set<nat>, ghost n: nat) returns (initial: Exps, list: seq<IC>)
    requires forall b :: 0 <= b < |g| ==> AllBelow(g[b].ics, n)
    ensures ListsExpressions(g, memory, initial, list, n)
  {
    initial, list := [], [];
    var b := 0;
    while b < |g|
      invariant 0 <= b == |initial| <= |g|
      invariant forall c :: 0 <= c < b ==> RowLists(g[c].ics, memory, initial[c], list)
      invariant ComputesBelow(list, n)
    {
      var row: seq<Option<nat>> := [];
      var k := 0;
      while k < |g[b].ics|
        invariant 0 <= k == |row| <= |g[b].ics|
        invariant forall c :: 0 <= c < b ==> RowLists(g[c].ics, memory, initial[c], list)
        invariant RowLists(g[b].ics[..k], memory, row, list)
        invariant ComputesBelow(list, n)
      {
        if IsExpression(g[b].ics[k], memory) {
          assert forall v :: v in Uses(g[b].ics[k]) ==> v in Mentions(g[b].ics[k]);
          row, list := row + [Some(|list|)], list + [g[b].ics[k]];
        } else {
          row := row + [None];
        }
        k := k + 1;
      }
      assert g[b].ics[..k] == g[b].ics;
      initial := initial + [row];
      b := b + 1;
    }
  }

  /** Replaces every initial number by the one the renumbering chose. */
  function Renumbered(row: seq<Option<nat>>, renumber: seq<nat>): (r: seq<Option<nat>>)
    ensures |r| == |row|
    ensures forall k :: 0 <= k < |r| ==>
      r[k] == if row[k].Some? && row[k].value < |renumber| then Some(renumber[row[k].value]) else None
  {
    seq(|row|, k requires 0 <= k < |row| =>
      if row[k].Some? && row[k].value < |renumber| then Some(renumber[row[k].value]) else None)
  }

  /** Back into program order: every number gets a representative. */
  method Representatives(list: seq<IC>, renumber: seq<nat>) returns (elist: seq<IC>)
    requires |renumber| == |list| && forall j :: 0 <= j < |list| ==> renumber[j] < |list| && Defines(list[j])
    requires forall i, j :: 0 <= i < |list| && 0 <= j < |list| ==>
      (renumber[i] == renumber[j] <==> SameExpression(list[i], list[j]))
    ensures |elist| == |list|
    ensures forall j :: 0 <= j < |list| ==> elist[j] in list && SameExpression(list[j], elist[renumber[j]])
  {
    elist := list;
    var j := 0;
    while j < |list|
      invariant 0 <= j <= |list| == |elist|
      invariant forall i :: 0 <= i < |list| ==> elist[i] in list
      invariant forall i :: 0 <= i < j ==> SameExpression(list[i], elist[renumber[i]])
    {
      elist := elist[renumber[j] := list[j]];
      j := j + 1;
    }
  }

  /** One of the first n expressions is number i, and it reads v. */
  ghost predicate Reads(elist: seq<IC>, n: nat, v: nat, i: nat) {
    i < n <= |elist| && v in Uses(elist[i])
  }

  /** Last loop of num_exp: what a change of each variable kills. */
  method KillsByVariable(elist: seq<IC>, vcount: nat) returns (kills: seq<Bits>)
    requires forall c :: 0 <= c < |elist| ==> Defines(elist[c]) && forall v :: v in Uses(elist[c]) ==> v < vcount
    ensures |kills| == vcount
    ensures forall v, i: nat :: 0 <= v < vcount ==> (i in kills[v] <==> Reads(elist, |elist|, v, i))
  {
    kills := seq(vcount, _ => {});
    var c := 0;
    while c < |elist|
      invariant 0 <= c <= |elist| && |kills| == vcount
      invariant forall v, i: nat :: 0 <= v < vcount ==> (i in kills[v] <==> Reads(elist, c, v, i))
    {
      var q1, q2 := elist[c].q1, if elist[c].Arith? then elist[c].q2 else Absent;
      assert Uses(elist[c]) == Vars(q1) + Vars(q2);
      ghost var before := kills;
      if q1.Var? {
        assert q1.v in Uses(elist[c]);
        kills := kills[q1.v := kills[q1.v] + {c}];
      }
      if q2.Var? {
        assert q2.v in Uses(elist[c]);
        kills := kills[q2.v := kills[q2.v] + {c}];
      }
      forall v, i: nat | 0 <= v < vcount
        ensures i in kills[v] <==> Reads(elist, c + 1, v, i)
      {
        assert i in kills[v] <==> i in before[v] || (i == c && v in Uses(elist[c]));
        assert i in before[v] <==> Reads(elist, c, v, i);
      }
      c := c + 1;
    }
  }

  class Eliminator {
    var blocks: Graph
    var exps: Exps
    var table: Table
    var next: nat  // the number of the next temporary

    constructor (blocks: Graph, vcount: nat)
      ensures this.blocks == blocks && next == vcount
    {
      this.blocks, next := blocks, vcount;
      exps, table := [], Table([], []);
    }

    /** num_exp: puts operands in order and gives equal expressions equal numbers. */
    method NumExp(memory: set<nat>, useQ2AsZ: bool)
      requires forall b :: 0 <= b < |blocks| ==> AllBelow(blocks[b].ics, next)
      modifies this`blocks, this`exps, this`table
      ensures blocks == NormalisedGraph(old(blocks), memory, useQ2AsZ)
      ensures ProgramNumbered(table, blocks, exps, next) && KillsInTable(table)
      ensures forall b, k :: 0 <= b < |blocks| && 0 <= k < |blocks[b].ics| ==>
        (exps[b][k].Some? <==> IsExpression(blocks[b].ics[k], memory))
      ensures EqualNumbersForEqualExpressions(blocks, exps)
    {
      ghost var before := blocks;
      NormaliseBlocks(memory, useQ2AsZ);
      forall b | 0 <= b < |blocks|
        ensures AllBelow(blocks[b].ics, next)
      {
        NormalisedBelow(before[b].ics, memory, useQ2AsZ, next);
      }
      var initial, list := CollectExpressions(blocks, memory, next);
      var keys := seq(|list|, j requires 0 <= j < |list| => if Defines(list[j]) then KeyOf(list[j]) else []);
      var renumber := Numbering.Renumber(keys);
      KeysIdentify(list, keys, renumber);
      var elist := Representatives(list, renumber);
      assert ComputesBelow(elist, next);
      var kills := KillsByVariable(elist, next);
      exps := seq(|initial|, b requires 0 <= b < |initial| => Renumbered(initial[b], renumber));
      table := Table(elist, kills);
      TableComplete(table, next);
      NumberingComplete(blocks, memory, initial, list, next, renumber, table, exps);
    }

    /** num_exp and then cse(fg, 0): every run of the original program is preserved. */
    method Eliminate(memory: set<nat>, useQ2AsZ: bool)
      requires WellFormed(blocks) && forall b :: 0 <= b < |blocks| ==> AllBelow(blocks[b].ics, next)
      modifies this`blocks, this`exps, this`table, this`next
      ensures WellFormed(blocks)
      ensures forall sem: Sem, s: State, n: nat :: IsSymmetric(sem) ==>
        InStep(old(next), Run(old(blocks), sem, s, n), Run(blocks, sem, s, n))
    {
      hide InStep, Run, CseBlocks, AllBelow, ProgramNumbered, IsSymmetric;
      ghost var g, base := blocks, next;
      NumExp(memory, useQ2AsZ);
      Cse();
      ghost var zero := (op: Op, x: int, y: int) => 0;
      assert IsSymmetric(zero) by { ZeroIsSymmetric(zero); }
      EliminationPreservesRuns(g, memory, useQ2AsZ, table, exps, base, blocks, zero, State(map[], (0, 0)), 0);
      forall sem: Sem, s: State, n: nat | IsSymmetric(sem)
        ensures InStep(base, Run(g, sem, s, n), Run(blocks, sem, s, n))
      {
        EliminationPreservesRuns(g, memory, useQ2AsZ, table, exps, base, blocks, sem, s, n);
      }
    }

    /** cse(fg, 0): every block on its own. */
    method Cse()
      requires ProgramNumbered(table, blocks, exps, next)
      modifies this`blocks, this`next
      ensures |exps| == |old(blocks)| && forall c :: 0 <= c < |exps| ==> |exps[c]| == |old(blocks)[c].ics|
      ensures blocks == CseBlocks(table, old(blocks), exps, 0, old(next))
    {
      ghost var g, base := blocks, next;
      assert forall c :: 0 <= c < |g| ==> AllNumbered(table, Code(g[c].ics, exps[c]));
      var b := 0;
      assert [] + CseBlocks(table, g, exps, 0, next) == CseBlocks(table, g, exps, 0, next);
      while b < |blocks|
        invariant 0 <= b <= |blocks| == |g| && base <= next
        invariant blocks[..b] + CseBlocks(table, g, exps, b, next) == CseBlocks(table, g, exps, 0, base)
        invariant blocks[b..] == g[b..]
      {
        ghost var before, next0 := blocks, next;
        assert blocks[b] == blocks[b..][0] == g[b..][0];
        var ics := CseBlock(blocks[b].ics, exps[b], base);
        blocks := blocks[b := blocks[b].(ics := ics)];
        CseBlocksStep(table, g, exps, b, next0, before[..b], blocks[b], next);
        assert blocks[..b + 1] == before[..b] + [blocks[b]];
        assert blocks[b + 1..] == before[b..][1..] && g[b + 1..] == g[b..][1..];
        b := b + 1;
      }
      assert blocks[..b] == blocks;
    }

    /** One block: p walks through the list while copies are inserted before it. */
    method CseBlock(orig: seq<IC>, origExps: seq<Option<nat>>, ghost base: nat) returns (ics: seq<IC>)
      requires IsTable(table) && TableBelow(table, base) && base <= next
      requires AllNumbered(table, Code(orig, origExps)) && AllBelow(orig, base)
      modifies this`next
      ensures var s := CseUpTo(table, Code(orig, origExps), old(next), |orig|);
        ics == s.done.ics && next == s.next
    {
      hide LastWith, AllBelow, KilledBy;
      ghost var w := Code(orig, origExps);
      ics := orig;
      var numbers := origExps;
      var ae: Bits := {};
      var p := 0;
      ghost var k := 0;
      while p < |ics|
        invariant 0 <= k <= |orig| && 0 <= p <= |ics| == |numbers|
        invariant CseUpTo(table, w, old(next), k) == Progress(Code(ics[..p], numbers[..p]), ae, next)
        invariant ics[p..] == orig[k..] && numbers[p..] == origExps[k..]
        decreases |orig| - k
      {
        ghost var done := Code(ics[..p], numbers[..p]);
        ghost var s := Progress(done, ae, next);
        assert ics[p] == ics[p..][0] == orig[k] && numbers[p] == numbers[p..][0] == origExps[k];
        var ic, exp := ics[p], numbers[p];
        if exp.Some? {
          AvailableIsFound(table, w, base, old(next), k, exp.value);
        }
        assert Numbered(table, w.ics[k], w.exps[k]);
        ics, numbers, p, ae := Advance(ics, numbers, p, ae);
        assert orig[k..][1..] == orig[k + 1..] && origExps[k..][1..] == origExps[k + 1..];
        k := k + 1;
      }
      assert ics[..p] == ics;
    }

    /** The body of the loop over a block. */
    method Advance(ics: seq<IC>, numbers: seq<Option<nat>>, p: nat, ae: Bits)
      returns (ics': seq<IC>, numbers': seq<Option<nat>>, p': nat, ae': Bits)
      requires p < |ics| == |numbers| && Numbered(table, ics[p], numbers[p]) && IsTable(table)
      requires numbers[p].Some? && numbers[p].value in ae ==>
        && Some(numbers[p].value) in numbers[..p]
        && Defines(ics[LastWith(numbers[..p], numbers[p].value, p)])
      modifies this`next
      ensures p < p' <= |ics'| == |numbers'|
      ensures CseStep(table, Progress(Code(ics[..p], numbers[..p]), ae, old(next)), ics[p], numbers[p])
           == Progress(Code(ics'[..p'], numbers'[..p']), ae', next)
      ensures ics'[p'..] == ics[p..][1..] && numbers'[p'..] == numbers[p..][1..]
    {
      hide LastWith;
      ghost var done := Code(ics[..p], numbers[..p]);
      var ic, exp := ics[p], numbers[p];
      ics', numbers', p', ae' := ics, numbers, p, ae;
      if exp.Some? && exp.value in ae {
        var v := next;
        next := next + 1;
        var o := Search(numbers, p, exp.value);
        ghost var r := Redirect(done, o, v);
        ics', numbers' := Insert(ics[p := Assign(ic.z, Var(v))], numbers, p, o, v);
        p' := p + 1;
        assert ics'[..p' + 1] == r.ics + [Assign(ic.z, Var(v))];
        assert numbers'[..p' + 1] == r.exps + [exp];
        assert ae + {exp.value} == ae;
      } else {
        if exp.Some? {
          ae' := ae + {exp.value};
        } else {
          assert ae + {} == ae;
        }
        assert ics[..p + 1] == done.ics + [ic] && numbers[..p + 1] == done.exps + [exp];
      }
      ae' := ae' - KilledBy(table, ic);
      p' := p' + 1;
    }

    /** cse_replace: inserts the copy after the source o. */
    static method Insert(ics: seq<IC>, numbers: seq<Option<nat>>, p: nat, o: nat, v: nat)
      returns (ics': seq<IC>, numbers': seq<Option<nat>>)
      requires o < p < |ics| == |numbers| && Defines(ics[o])
      ensures |ics'| == |numbers'| == |ics| + 1
      ensures var r := Redirect(Code(ics[..p], numbers[..p]), o, v);
        ics'[..p + 1] == r.ics && numbers'[..p + 1] == r.exps
      ensures ics'[p + 1..] == ics[p..] && numbers'[p + 1..] == numbers[p..]
    {
      ics' := ics[..o] + [WithTarget(ics[o], v), Assign(ics[o].z, Var(v))] + ics[o + 1..];
      numbers' := numbers[..o + 1] + [None] + numbers[o + 1..];
    }

    /** cse_search in one block: backwards from the instruction before p. */
    static method Search(numbers: seq<Option<nat>>, p: nat, i: nat) returns (o: nat)
      requires p <= |numbers| && exists k :: 0 <= k < p && numbers[k] == Some(i)
      ensures o == LastWith(numbers[..p], i, p)
    {
      o := p - 1;
      while numbers[o] != Some(i)
        invariant 0 <= o < p && exists k :: 0 <= k <= o && numbers[k] == Some(i)
        invariant forall k :: o < k < p ==> numbers[k] != Some(i)
        decreases o
      {
        o := o - 1;
      }
    }

    method NormaliseBlocks(memory: set<nat>, useQ2AsZ: bool)
      modifies this`blocks
      ensures |blocks| == |old(blocks)| && forall b :: 0 <= b < |blocks| ==>
        blocks[b] == old(blocks)[b].(ics := NormalisedAll(old(blocks)[b].ics, memory, useQ2AsZ))
    {
      var b := 0;
      while b < |blocks|
        invariant 0 <= b <= |blocks| == |old(blocks)|
        invariant forall c :: 0 <= c < b ==>
          blocks[c] == old(blocks)[c].(ics := NormalisedAll(old(blocks)[c].ics, memory, useQ2AsZ))
        invariant forall c :: b <= c < |blocks| ==> blocks[c] == old(blocks)[c]
      {
        blocks := blocks[b := blocks[b].(ics := NormalisedAll(blocks[b].ics, memory, useQ2AsZ))];
        b := b + 1;
      }
    }
  }

  ghost predicate EqualNumbersForEqualExpressions(g: Graph, exps: Exps) {
    && |exps| == |g| && (forall b :: 0 <= b < |g| ==> |exps[b]| == |g[b].ics|)
    && forall b, k, c, m ::
      0 <= b < |g| && 0 <= k < |g[b].ics| && exps[b][k].Some? &&
      0 <= c < |g| && 0 <= m < |g[c].ics| && exps[c][m].Some? ==>
        (exps[b][k] == exps[c][m] <==> SameExpression(g[b].ics[k], g[c].ics[m]))
  }

  lemma KeysIdentify(list: seq<IC>, keys: seq<Numbering.Key>, renumber: seq<nat>)
    requires |keys| == |list| == |renumber|
    requires forall j :: 0 <= j < |list| ==> Defines(list[j]) && keys[j] == KeyOf(list[j])
    requires forall i, j :: 0 <= i < |list| && 0 <= j < |list| ==> (renumber[i] == renumber[j] <==> keys[i] == keys[j])
    ensures forall i, j :: 0 <= i < |list| && 0 <= j < |list| ==>
      (renumber[i] == renumber[j] <==> SameExpression(list[i], list[j]))
  {
    forall i, j | 0 <= i < |list| && 0 <= j < |list|
      ensures renumber[i] == renumber[j] <==> SameExpression(list[i], list[j])
    {
      KeyIdentifies(list[i], list[j]);
    }
  }

  lemma NormalisedBelow(ics: seq<IC>, memory: set<nat>, useQ2AsZ: bool, n: nat)
    requires AllBelow(ics, n)
    ensures AllBelow(NormalisedAll(ics, memory, useQ2AsZ), n)
  {
    var r := NormalisedAll(ics, memory, useQ2AsZ);
    forall k, v | 0 <= k < |r| && v in Mentions(r[k])
      ensures v < n
    {
      assert v in Mentions(ics[k]);
    }
  }

  lemma ZeroIsSymmetric(sem: Sem)
    requires forall op, x, y :: sem(op, x, y) == 0
    ensures IsSymmetric(sem)
  {
  }

  lemma TableComplete(t: Table, n: nat)
    requires ComputesBelow(t.elist, n) && |t.kills| == n
    requires forall v, i: nat :: 0 <= v < n ==> (i in t.kills[v] <==> Reads(t.elist, |t.elist|, v, i))
    ensures IsTable(t) && TableBelow(t, n) && KillsInTable(t)
  {
    forall v, i: nat | 0 <= v < n && i in t.kills[v]
      ensures i < |t.elist|
    {
      assert Reads(t.elist, |t.elist|, v, i);
    }
    forall i, v | 0 <= i < |t.elist| && v in Uses(t.elist[i])
      ensures v < |t.kills| && i in t.kills[v]
    {
      assert Reads(t.elist, |t.elist|, v, i);
    }
  }

  lemma NumberingComplete(
      g: Graph, memory: set<nat>, initial: Exps, list: seq<IC>, n: nat, renumber: seq<nat>, t: Table, exps: Exps)
    requires ListsExpressions(g, memory, initial, list, n) && |renumber| == |list| == |t.elist|
    requires forall j :: 0 <= j < |list| ==> renumber[j] < |list| && SameExpression(list[j], t.elist[renumber[j]])
    requires forall i, j :: 0 <= i < |list| && 0 <= j < |list| ==>
      (renumber[i] == renumber[j] <==> SameExpression(list[i], list[j]))
    requires |exps| == |initial| && forall b :: 0 <= b < |exps| ==> exps[b] == Renumbered(initial[b], renumber)
    ensures |exps| == |g| && forall b :: 0 <= b < |g| ==> |exps[b]| == |g[b].ics|
    ensures forall b :: 0 <= b < |g| ==> AllNumbered(t, Code(g[b].ics, exps[b]))
    ensures forall b, k :: 0 <= b < |g| && 0 <= k < |g[b].ics| ==>
      (exps[b][k].Some? <==> IsExpression(g[b].ics[k], memory))
    ensures EqualNumbersForEqualExpressions(g, exps)
  {
    forall b | 0 <= b < |g|
      ensures AllNumbered(t, Code(g[b].ics, exps[b]))
      ensures forall k :: 0 <= k < |g[b].ics| ==> (exps[b][k].Some? <==> IsExpression(g[b].ics[k], memory))
    {
      assert RowLists(g[b].ics, memory, initial[b], list);
    }
    forall b, k, c, m |
      0 <= b < |g| && 0 <= k < |g[b].ics| && exps[b][k].Some? &&
      0 <= c < |g| && 0 <= m < |g[c].ics| && exps[c][m].Some?
      ensures exps[b][k] == exps[c][m] <==> SameExpression(g[b].ics[k], g[c].ics[m])
    {
      assert RowLists(g[b].ics, memory, initial[b], list) && RowLists(g[c].ics, memory, initial[c], list);
    }
  }

  /** A number found available has a source in the block, and the source computes
      something. */
  lemma AvailableIsFound(t: Table, w: Code, base: nat, next: nat, k: nat, i: nat)
    requires IsTable(t) && TableBelow(t, base) && AllNumbered(t, w) && AllBelow(w.ics, base)
    requires base <= next && k <= |w.ics|
    ensures var s := CseUpTo(t, w, next, k);
      i in s.ae ==> Some(i) in s.done.exps && Defines(s.done.ics[LastWith(s.done.exps, i, |s.done.exps|)])
  {
    var sem := (op: Op, x: int, y: int) => 0;
    var st := State(map[], (0, 0));
    CseKeepsEffect(t, w, base, next, k, sem, st);
    var s := CseUpTo(t, w, next, k);
    assert i in s.ae ==> StillHolds(t, s.done, sem, st, i);
  }

  lemma CseBlocksStep(t: Table, g: Graph, exps: Exps, b: nat, next: nat, prefix: Graph, block: Block, next': nat)
    requires |exps| == |g| && b < |g| && forall c :: 0 <= c < |g| ==> |exps[c]| == |g[c].ics|
    requires var s := CseUpTo(t, Code(g[b].ics, exps[b]), next, |g[b].ics|);
      block == g[b].(ics := s.done.ics) && next' == s.next
    ensures prefix + CseBlocks(t, g, exps, b, next) == prefix + [block] + CseBlocks(t, g, exps, b + 1, next')
  {
    assert CseBlocks(t, g, exps, b, next) == [block] + CseBlocks(t, g, exps, b + 1, next');
  }
}
