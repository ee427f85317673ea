/** Available expressions (c/vbcc/cse.c). */
module Expressions {
  import Numbering
  import opened Available
  import opened BitSets
  import opened Cse
  import opened IntermediateCode
  import opened Options

  /** What each expression number was last computed to. */
  type Memo = map<nat, int>

  function Remember(ic: IC, number: Option<nat>, sem: Sem, s: Store, memo: Memo): Memo {
    if number.Some? && Defines(ic) then memo[number.value := Rhs(ic, sem, s)] else memo
  }

  function RememberAll(ics: seq<IC>, numbers: seq<Option<nat>>, sem: Sem, st: State, memo: Memo): Memo
    requires |ics| == |numbers|
  {
    if ics == [] then memo
    else RememberAll(ics[1..], numbers[1..], sem, Exec(ics[0], sem, st),
                     Remember(ics[0], numbers[0], sem, st.store, memo))
  }

  ghost predicate FitsExps(g: Graph, exps: Exps) {
    |exps| == |g| && forall b :: 0 <= b < |g| ==> |exps[b]| == |g[b].ics|
  }

  /** The values computed during the first n blocks of a run. */
  ghost function History(g: Graph, exps: Exps, sem: Sem, s: State, n: nat): Memo
    requires WellFormed(g) && FitsExps(g, exps)
  {
    if n == 0 then map[]
    else
      var c := Run(g, sem, s, n - 1);
      if c.At? then RememberAll(g[c.block].ics, exps[c.block], sem, c.st, History(g, exps, sem, s, n - 1))
      else History(g, exps, sem, s, n - 1)
  }

  /** The numbers in x were computed, and computing them again gives the same values. */
  ghost predicate ValuesHold(t: Table, x: Bits, sem: Sem, s: Store, memo: Memo)
    requires IsTable(t)
  {
    forall i :: i in x ==> i < |t.elist| && i in memo && memo[i] == Rhs(t.elist[i], sem, s)
  }

  lemma HoldsAfterOne(t: Table, ic: IC, number: Option<nat>, sem: Sem, st: State, memo: Memo, x: Bits)
    requires IsTable(t) && Numbered(t, ic, number) && ValuesHold(t, x, sem, st.store, memo)
    ensures ValuesHold(t, After(EffectOf(ic, number, t.kills), KillLast, x), sem, Exec(ic, sem, st).store,
                       Remember(ic, number, sem, st.store, memo))
  {
    var after := After(EffectOf(ic, number, t.kills), KillLast, x);
    var now, memo' := Exec(ic, sem, st).store, Remember(ic, number, sem, st.store, memo);
    forall i | i in after
      ensures i < |t.elist| && i in memo' && memo'[i] == Rhs(t.elist[i], sem, now)
    {
      assert Rhs(t.elist[i], sem, now) == Rhs(t.elist[i], sem, st.store) by { Unkilled(t, ic, i, sem, st); }
    }
  }

  lemma ReadersAreKilled(t: Table, i: nat, v: nat)
    requires IsTable(t) && i < |t.elist| && v in Uses(t.elist[i])
    ensures v < |t.kills| && i in t.kills[v]
  {
    hide Uses;
  }

  lemma Unkilled(t: Table, ic: IC, i: nat, sem: Sem, st: State)
    requires IsTable(t) && i < |t.elist| && i !in KilledBy(t, ic)
    ensures Rhs(t.elist[i], sem, Exec(ic, sem, st).store) == Rhs(t.elist[i], sem, st.store)
  {
    var s, now := st.store, Exec(ic, sem, st).store;
    forall v | v in Uses(t.elist[i])
      ensures Get(now, v) == Get(s, v)
    {
      ReadersAreKilled(t, i, v);
    }
    ExecDependsOnUses(t.elist[i], sem, State(s, (0, 0)), State(now, (0, 0)));
  }

  lemma {:induction false} HoldsAfterAll(
      t: Table, ics: seq<IC>, numbers: seq<Option<nat>>, sem: Sem, st: State, memo: Memo, x: Bits)
    requires IsTable(t) && AllNumbered(t, Code(ics, numbers)) && ValuesHold(t, x, sem, st.store, memo)
    ensures ValuesHold(t, AfterAll(EffectsOf(ics, numbers, t.kills), KillLast, x), sem, ExecAll(ics, sem, st).store,
                       RememberAll(ics, numbers, sem, st, memo))
    decreases |ics|
  {
    hide ValuesHold, After, EffectOf;
    var es := EffectsOf(ics, numbers, t.kills);
    if ics != [] {
      HoldsAfterOne(t, ics[0], numbers[0], sem, st, memo, x);
      HoldsAfterAll(t, ics[1..], numbers[1..], sem, Exec(ics[0], sem, st),
                    Remember(ics[0], numbers[0], sem, st.store, memo), After(es[0], KillLast, x));
      assert es[1..] == EffectsOf(ics[1..], numbers[1..], t.kills);
    }
  }

  /** The dataflow problem of available_expressions. */
  function ExpressionProblem(g: Graph, t: Table, exps: Exps, universe: Bits): Problem
    requires |exps| == |g| && forall b :: 0 <= b < |g| ==> |exps[b]| == |g[b].ics|
  {
    Problem(g, seq(|g|, b requires 0 <= b < |g| => EffectsOf(g[b].ics, exps[b], t.kills)), KillLast, universe)
  }

  /** On every run, an expression that the analysis finds available at the start of a
      block was computed before, and computing it again would give the same value. */
  lemma {:induction false} AvailableExpressionsHold(
      t: Table, g: Graph, exps: Exps, base: nat, universe: Bits, outs: seq<Bits>, sem: Sem, s: State, n: nat)
    requires WellFormed(g) && ProgramNumbered(t, g, exps, base) && FitsExps(g, exps)
    requires var p := ExpressionProblem(g, t, exps, universe); WellPosed(p) && IsSolution(p, outs)
    ensures var c := Run(g, sem, s, n);
      c.At? ==>
        ValuesHold(t, In(ExpressionProblem(g, t, exps, universe), outs, c.block), sem, c.st.store,
                   History(g, exps, sem, s, n))
  {
    hide ExecAll, AfterAll, StepBlock, EffectsOf, RememberAll;
    var p := ExpressionProblem(g, t, exps, universe);
    if n > 0 {
      AvailableExpressionsHold(t, g, exps, base, universe, outs, sem, s, n - 1);
      var c := Run(g, sem, s, n - 1);
      if c.At? {
        StepFollowsEdge(g, sem, c);
        var d := StepBlock(g, sem, c);
        if d.At? {
          var b := c.block;
          HoldsAfterAll(t, g[b].ics, exps[b], sem, c.st, History(g, exps, sem, s, n - 1), In(p, outs, b));
          assert outs[b] == Out(p, outs, b);
          assert In(p, outs, d.block) <= outs[b];
        }
      } else {
        HaltedStays(g, sem, c);
      }
    }
  }

  lemma ExpressionProblemWellPosed(t: Table, g: Graph, exps: Exps, base: nat)
    requires WellFormed(g) && ProgramNumbered(t, g, exps, base) && KillsInTable(t) && FitsExps(g, exps)
    ensures WellPosed(ExpressionProblem(g, t, exps, Numbering.UpTo(|t.elist|)))
  {
    var universe := Numbering.UpTo(|t.elist|);
    var p := ExpressionProblem(g, t, exps, universe);
    forall b | 0 <= b < |g|
      ensures EffectsFit(p, b)
    {
      assert AllNumbered(t, Code(g[b].ics, exps[b]));
      forall k | 0 <= k < |p.effects[b]|
        ensures Own(p.effects[b][k]) + p.effects[b][k].kills <= universe
      {
        assert p.effects[b][k] == EffectOf(g[b].ics[k], exps[b][k], t.kills);
        assert Numbered(t, g[b].ics[k], exps[b][k]);
      }
    }
  }

  /** available_expressions: the greatest solution of the equations, which says what holds
      on every run. */
  method AvailableExpressions(g: Graph, t: Table, exps: Exps, ghost base: nat, preds: seq<seq<nat>>)
    returns (ins: seq<Bits>, outs: seq<Bits>)
    requires WellFormed(g) && ProgramNumbered(t, g, exps, base) && KillsInTable(t) && FitsExps(g, exps)
    requires |preds| == |g| && forall b :: 0 <= b < |g| ==> IsPredecessorList(g, b, preds[b])
    ensures var p := ExpressionProblem(g, t, exps, Numbering.UpTo(|t.elist|));
      && WellPosed(p) && IsSolution(p, outs)
      && |ins| == |g| && (forall b :: 0 <= b < |g| ==> ins[b] == In(p, outs, b))
      && (forall other :: IsSupported(p, other) ==> Below(other, outs))
    ensures forall sem: Sem, s: State, n: nat :: Run(g, sem, s, n).At? ==>
      ValuesHold(t, ins[Run(g, sem, s, n).block], sem, Run(g, sem, s, n).st.store, History(g, exps, sem, s, n))
  {
    hide ValuesHold, History, AllNumbered, AllBelow, TableBelow, WellFormed, Run;
    var p := ExpressionProblem(g, t, exps, Numbering.UpTo(|t.elist|));
    ExpressionProblemWellPosed(t, g, exps, base);
    var analysis := new Analysis(p, preds);
    analysis.Analyse();
    ins, outs := analysis.ins, analysis.outs;
    forall sem: Sem, s: State, n: nat | Run(g, sem, s, n).At?
      ensures ValuesHold(t, ins[Run(g, sem, s, n).block], sem, Run(g, sem, s, n).st.store, History(g, exps, sem, s, n))
    {
      AvailableExpressionsHold(t, g, exps, base, Numbering.UpTo(|t.elist|), outs, sem, s, n);
    }
  }
}
