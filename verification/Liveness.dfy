/** Active variables and the elimination of dead assignments (c/vbcc/av.c). */
module Liveness {
  import opened BitSets
  import opened IntermediateCode

  // ----- the effect of one instruction -----

  /** The target is also an operand, as in x = x op y. */
  predicate SelfUpdate(ic: IC) {
    Defines(ic) && ic.z in Uses(ic)
  }

  /** Extends use and def by one more instruction. A self update counts neither as
      a use nor as a definition of its target. */
  function AvChange(ic: IC, use: Bits, def: Bits): (r: (Bits, Bits)) {
    var n := if SelfUpdate(ic) then {ic.z} else {};
    var use' := use + (Uses(ic) - n - def);
    var def' := if Defines(ic) && !SelfUpdate(ic) && ic.z !in use' then def + {ic.z} else def;
    (use', def')
  }

  function GenKill(ics: seq<IC>, use: Bits, def: Bits): (r: (Bits, Bits)) {
    if ics == [] then (use, def)
    else
      var (use', def') := AvChange(ics[0], use, def);
      GenKill(ics[1..], use', def')
  }

  /** Reference definition: what is live before one instruction, given what is
      live after it. */
  function Before(ic: IC, live: Bits): Bits {
    if SelfUpdate(ic) then live + (Uses(ic) - {ic.z})
    else (live - Changes(ic)) + Uses(ic)
  }

  function BeforeAll(ics: seq<IC>, live: Bits): Bits {
    if ics == [] then live else Before(ics[0], BeforeAll(ics[1..], live))
  }

  /** The summary of a block that is built front to back describes the backward
      composition of its instructions. */
  lemma {:induction false} GenKillIsBeforeAll(ics: seq<IC>, use: Bits, def: Bits, live: Bits)
    ensures var (gen, kill) := GenKill(ics, use, def);
      gen + (live - kill) == use + (BeforeAll(ics, live) - def)
  {
    if ics != [] {
      var (use', def') := AvChange(ics[0], use, def);
      GenKillIsBeforeAll(ics[1..], use', def', live);
      var rest := BeforeAll(ics[1..], live);
      assert use' + (rest - def') == use + (Before(ics[0], rest) - def);
    }
  }

  lemma {:induction false} BeforeAllBounded(ics: seq<IC>, live: Bits, vars: Bits)
    requires live <= vars
    requires forall k :: 0 <= k < |ics| ==> Uses(ics[k]) <= vars
    ensures BeforeAll(ics, live) <= vars
  {
    if ics != [] {
      assert Uses(ics[0]) <= vars;
      BeforeAllBounded(ics[1..], live, vars);
    }
  }

  // ----- the dataflow equations -----

  function LiveOut(g: Graph, exit: Bits, live: seq<Bits>, b: nat): Bits
    requires WellFormed(g) && |live| == |g| && b < |g|
  {
    assert WellFormedBlock(g[b], |g|);
    (if g[b].branchout.Some? then live[g[b].branchout.value] else {})
    + (if FallsThrough(g, b) then live[b + 1] else {})
    + (if b + 1 == |g| then exit else {})
  }

  function LiveIn(g: Graph, exit: Bits, live: seq<Bits>, b: nat): Bits
    requires WellFormed(g) && |live| == |g| && b < |g|
  {
    BeforeAll(g[b].ics, LiveOut(g, exit, live, b))
  }

  ghost predicate IsSolution(g: Graph, exit: Bits, live: seq<Bits>)
    requires WellFormed(g)
  {
    |live| == |g| && forall b :: 0 <= b < |g| ==> live[b] == LiveIn(g, exit, live, b)
  }

  /** The equations hold as inclusions; every solution satisfies this. */
  ghost predicate IsClosed(g: Graph, exit: Bits, live: seq<Bits>)
    requires WellFormed(g)
  {
    |live| == |g| && forall b :: 0 <= b < |g| ==> LiveIn(g, exit, live, b) <= live[b]
  }

  lemma {:induction false} BeforeAllMonotone(ics: seq<IC>, a: Bits, b: Bits)
    requires a <= b
    ensures BeforeAll(ics, a) <= BeforeAll(ics, b)
  {
    if ics != [] {
      BeforeAllMonotone(ics[1..], a, b);
    }
  }

  lemma LiveInMonotone(g: Graph, exit: Bits, a: seq<Bits>, c: seq<Bits>, b: nat)
    requires WellFormed(g) && |a| == |g| && Below(a, c) && b < |g|
    ensures LiveIn(g, exit, a, b) <= LiveIn(g, exit, c, b)
  {
    assert WellFormedBlock(g[b], |g|);
    BeforeAllMonotone(g[b].ics, LiveOut(g, exit, a, b), LiveOut(g, exit, c, b));
  }

  ghost predicate Bounded(g: Graph, vars: Bits) {
    forall b, k :: 0 <= b < |g| && 0 <= k < |g[b].ics| ==> Uses(g[b].ics[k]) <= vars
  }

  // ----- dead assignments -----

  /** av_update: the variables in use before an instruction that is kept. */
  function AvUpdate(ic: IC, isUsed: Bits): Bits {
    (isUsed - Changes(ic)) + Uses(ic)
  }

  predicate IsDead(ic: IC, isUsed: Bits) {
    Defines(ic) && ic.z !in isUsed
  }

  /** Walks a block backwards, drops dead assignments, and returns what is left and
      what is in use before it. */
  function Sweep(ics: seq<IC>, isUsed: Bits): (r: (seq<IC>, Bits)) {
    if ics == [] then ([], isUsed)
    else
      var (rest, used) := Sweep(ics[1..], isUsed);
      if IsDead(ics[0], used) then (rest, used)
      else ([ics[0]] + rest, AvUpdate(ics[0], used))
  }

  /** The deletion pass never finds more variables in use than the analysis did. */
  lemma {:induction false} SweepBelowBeforeAll(ics: seq<IC>, isUsed: Bits)
    ensures Sweep(ics, isUsed).1 <= BeforeAll(ics, isUsed)
  {
    if ics != [] {
      SweepBelowBeforeAll(ics[1..], isUsed);
      var used := Sweep(ics[1..], isUsed).1;
      var live := BeforeAll(ics[1..], isUsed);
      assert Before(ics[0], used) <= Before(ics[0], live);
    }
  }

  lemma {:induction false} SweepAppend(a: seq<IC>, b: seq<IC>, isUsed: Bits)
    ensures var (kb, ub) := Sweep(b, isUsed);
      Sweep(a + b, isUsed) == (Sweep(a, ub).0 + kb, Sweep(a, ub).1)
  {
    if a == [] {
      assert a + b == b;
      assert [] + Sweep(b, isUsed).0 == Sweep(b, isUsed).0;
    } else {
      assert (a + b)[1..] == a[1..] + b;
      SweepAppend(a[1..], b, isUsed);
      var (kb, ub) := Sweep(b, isUsed);
      var ka := Sweep(a[1..], ub).0;
      assert [a[0]] + (ka + kb) == ([a[0]] + ka) + kb;
    }
  }

  /** Equal comparison results, and equal values of the given variables. */
  ghost predicate Agree(live: Bits, s: State, t: State) {
    s.cc == t.cc && forall v :: v in live ==> Get(s.store, v) == Get(t.store, v)
  }

  lemma ExecAgrees(ic: IC, sem: Sem, isUsed: Bits, s: State, t: State)
    requires Agree(AvUpdate(ic, isUsed), s, t)
    ensures Agree(isUsed, Exec(ic, sem, s), Exec(ic, sem, t))
  {
    ExecDependsOnUses(ic, sem, s, t);
    assert forall v :: v in isUsed ==> v in Changes(ic) || v in AvUpdate(ic, isUsed);
  }

  /** Running a block and its swept form from states that agree on what the sweep
      found in use ends in states that agree on what is used afterwards. */
  lemma {:induction false} SweepPreserves(ics: seq<IC>, sem: Sem, isUsed: Bits, s: State, t: State)
    requires Agree(Sweep(ics, isUsed).1, s, t)
    ensures Agree(isUsed, ExecAll(ics, sem, s), ExecAll(Sweep(ics, isUsed).0, sem, t))
  {
    if ics != [] {
      var (rest, used) := Sweep(ics[1..], isUsed);
      if IsDead(ics[0], used) {
        SweepPreserves(ics[1..], sem, isUsed, Exec(ics[0], sem, s), t);
      } else {
        ExecAgrees(ics[0], sem, used, s, t);
        SweepPreserves(ics[1..], sem, isUsed, Exec(ics[0], sem, s), Exec(ics[0], sem, t));
        assert ([ics[0]] + rest)[1..] == rest;
      }
    }
  }

  /** Branches are never dead, so the last instruction of a block survives if it is
      a branch. */
  lemma {:induction false} SweepKeepsBranch(ics: seq<IC>, isUsed: Bits)
    requires forall k :: 0 <= k < |ics| - 1 ==> !IsBranch(ics[k])
    ensures var kept := Sweep(ics, isUsed).0;
      && (forall k :: 0 <= k < |kept| - 1 ==> !IsBranch(kept[k]))
      && ((kept != [] && IsBranch(kept[|kept| - 1])) <==> (ics != [] && IsBranch(ics[|ics| - 1])))
      && (ics != [] && IsBranch(ics[|ics| - 1]) ==> kept[|kept| - 1] == ics[|ics| - 1])
  {
    if ics != [] {
      var rest := Sweep(ics[1..], isUsed).0;
      SweepKeepsBranch(ics[1..], isUsed);
      if |ics| == 1 {
        assert Sweep(ics[1..], isUsed) == ([], isUsed);
      }
    }
  }

  ghost predicate IsSwept(g: Graph, exit: Bits, live: seq<Bits>, h: Graph)
    requires WellFormed(g) && |live| == |g|
  {
    |h| == |g| && forall b :: 0 <= b < |g| ==>
      h[b] == Block(Sweep(g[b].ics, LiveOut(g, exit, live, b)).0, g[b].branchout)
  }

  lemma SweptIsWellFormed(g: Graph, exit: Bits, live: seq<Bits>, h: Graph)
    requires WellFormed(g) && |live| == |g| && IsSwept(g, exit, live, h)
    ensures WellFormed(h)
  {
    forall b | 0 <= b < |h|
      ensures WellFormedBlock(h[b], |h|)
    {
      assert WellFormedBlock(g[b], |g|);
      SweepKeepsBranch(g[b].ics, LiveOut(g, exit, live, b));
    }
  }

  /** The original and the reduced program are at the same place, agree on what is
      live there, and on everything visible at exit once they halt. */
  ghost predicate InStep(exit: Bits, live: seq<Bits>, c: Config, d: Config)
    requires c.At? ==> c.block < |live|
  {
    match c
    case Halted(s) => d.Halted? && Agree(exit, s, d.st)
    case At(b, s) => d.At? && d.block == b && Agree(live[b], s, d.st)
  }

  /** One block and its swept form, from states that agree on what is live before it. */
  lemma BlockInStep(g: Graph, sem: Sem, exit: Bits, live: seq<Bits>, h: Graph, b: nat, s0: State, t0: State)
    requires WellFormed(g) && IsSolution(g, exit, live) && IsSwept(g, exit, live, h) && b < |g|
    requires Agree(live[b], s0, t0)
    ensures var s, t := ExecAll(g[b].ics, sem, s0), ExecAll(h[b].ics, sem, t0);
      && Agree(LiveOut(g, exit, live, b), s, t)
      && Taken(g[b], s.cc) == Taken(h[b], t.cc) && h[b].branchout == g[b].branchout
  {
    hide Sweep, BeforeAll, ExecAll, LiveOut, WellFormed;
    var out := LiveOut(g, exit, live, b);
    assert WellFormedBlock(g[b], |g|) by { BlockIsWellFormed(g, b); }
    SweepBelowBeforeAll(g[b].ics, out);
    SweepPreserves(g[b].ics, sem, out, s0, t0);
    SweepKeepsBranch(g[b].ics, out);
  }

  lemma BlockIsWellFormed(g: Graph, b: nat)
    requires WellFormed(g) && b < |g|
    ensures WellFormedBlock(g[b], |g|)
  {
  }

  /** What is live in the successor taken is live out of the block. */
  lemma SuccessorsAreLive(g: Graph, exit: Bits, live: seq<Bits>, b: nat, cc: (int, int))
    requires WellFormed(g) && |live| == |g| && b < |g|
    ensures var out := LiveOut(g, exit, live, b);
      if Taken(g[b], cc) then g[b].branchout.Some? && g[b].branchout.value < |g| && live[g[b].branchout.value] <= out
      else if b + 1 < |g| then live[b + 1] <= out
      else exit <= out
  {
    assert WellFormedBlock(g[b], |g|);
  }

  lemma StepInStep(g: Graph, sem: Sem, exit: Bits, live: seq<Bits>, h: Graph, c: Config, d: Config)
    requires WellFormed(g) && IsSolution(g, exit, live) && IsSwept(g, exit, live, h) && WellFormed(h)
    requires c.At? ==> c.block < |g|
    requires InStep(exit, live, c, d)
    ensures InStep(exit, live, StepBlock(g, sem, c), StepBlock(h, sem, d))
  {
    hide ExecAll, LiveOut, LiveIn, WellFormed, IsSwept, Taken;
    if c.At? {
      BlockInStep(g, sem, exit, live, h, c.block, c.st, d.st);
      SuccessorsAreLive(g, exit, live, c.block, ExecAll(g[c.block].ics, sem, c.st).cc);
      assert |h| == |g| by { SameLength(g, exit, live, h); }
    }
  }

  lemma SameLength(g: Graph, exit: Bits, live: seq<Bits>, h: Graph)
    requires WellFormed(g) && |live| == |g| && IsSwept(g, exit, live, h)
    ensures |h| == |g|
  {
  }

  /** Deleting dead assignments preserves every run: after any number of blocks both
      programs have taken the same branches. */
  lemma {:induction false} DeadAssignmentsPreserveRuns(
      g: Graph, sem: Sem, exit: Bits, live: seq<Bits>, h: Graph, s: State, n: nat)
    requires WellFormed(g) && IsSolution(g, exit, live) && IsSwept(g, exit, live, h)
    ensures WellFormed(h)
    ensures InStep(exit, live, Run(g, sem, s, n), Run(h, sem, s, n))
  {
    hide StepBlock, LiveIn;
    SweptIsWellFormed(g, exit, live, h);
    if n > 0 {
      DeadAssignmentsPreserveRuns(g, sem, exit, live, h, s, n - 1);
      StepInStep(g, sem, exit, live, h, Run(g, sem, s, n - 1), Run(h, sem, s, n - 1));
    }
  }

  /** Inside a block: after the first k instructions the original state agrees with
      the state the reduced block reaches at the same point on all variables the
      sweep finds in use there. */
  lemma InStepInsideBlock(
      g: Graph, sem: Sem, exit: Bits, live: seq<Bits>, h: Graph, s: State, n: nat, k: nat)
    requires WellFormed(g) && IsSolution(g, exit, live) && IsSwept(g, exit, live, h) && WellFormed(h)
    requires var c := Run(g, sem, s, n); c.At? && k <= |g[c.block].ics|
    ensures
      var c, d := Run(g, sem, s, n), Run(h, sem, s, n);
      var ics := g[c.block].ics;
      var (rest, used) := Sweep(ics[k..], LiveOut(g, exit, live, c.block));
      var prefix := Sweep(ics[..k], used).0;
      && d.At? && h[c.block].ics == prefix + rest
      && Agree(used, ExecAll(ics[..k], sem, c.st), ExecAll(prefix, sem, d.st))
  {
    hide Run, StepBlock, Sweep, BeforeAll, ExecAll, LiveOut, WellFormed;
    DeadAssignmentsPreserveRuns(g, sem, exit, live, h, s, n);
    var c, d := Run(g, sem, s, n), Run(h, sem, s, n);
    var b := c.block;
    var ics := g[b].ics;
    var out := LiveOut(g, exit, live, b);
    var (rest, used) := Sweep(ics[k..], out);
    assert ics[..k] + ics[k..] == ics;
    SweepAppend(ics[..k], ics[k..], out);
    SweepBelowBeforeAll(ics, out);
    SweepPreserves(ics[..k], sem, used, c.st, d.st);
  }

  // ----- unused counters -----

  /** No instruction reads v except to update v itself. */
  ghost predicate OnlyCounts(g: Graph, v: nat) {
    forall b, k :: 0 <= b < |g| && 0 <= k < |g[b].ics| && v in Uses(g[b].ics[k]) ==>
      Defines(g[b].ics[k]) && g[b].ics[k].z == v
  }

  lemma {:induction false} BeforeAllWithout(ics: seq<IC>, live: Bits, v: nat)
    requires forall k :: 0 <= k < |ics| && v in Uses(ics[k]) ==> Defines(ics[k]) && ics[k].z == v
    ensures BeforeAll(ics, live - {v}) <= BeforeAll(ics, live) - {v}
  {
    if ics != [] {
      BeforeAllWithout(ics[1..], live, v);
      assert v in Uses(ics[0]) ==> SelfUpdate(ics[0]);
    }
  }

  lemma {:induction false} SweepWithout(ics: seq<IC>, isUsed: Bits, v: nat)
    requires v !in isUsed
    requires forall k :: 0 <= k < |ics| && v in Uses(ics[k]) ==> Defines(ics[k]) && ics[k].z == v
    ensures var (kept, used) := Sweep(ics, isUsed);
      v !in used && forall k :: 0 <= k < |kept| ==> v !in Changes(kept[k]) + Uses(kept[k])
  {
    if ics != [] {
      SweepWithout(ics[1..], isUsed, v);
      assert v in Uses(ics[0]) ==> SelfUpdate(ics[0]);
    }
  }

  /** A variable that is only counted, such as an unused loop counter, is not live
      anywhere in the least solution, so every trace of it is deleted. */
  lemma CountersDisappear(g: Graph, exit: Bits, live: seq<Bits>, h: Graph, v: nat)
    requires WellFormed(g) && IsSolution(g, exit, live) && IsSwept(g, exit, live, h)
    requires forall other :: IsClosed(g, exit, other) ==> Below(live, other)
    requires v !in exit && OnlyCounts(g, v)
    ensures forall b, k :: 0 <= b < |h| && 0 <= k < |h[b].ics| ==>
      v !in Changes(h[b].ics[k]) + Uses(h[b].ics[k])
  {
    var without := seq(|g|, b requires 0 <= b < |g| => live[b] - {v});
    forall b | 0 <= b < |g|
      ensures LiveIn(g, exit, without, b) <= without[b]
    {
      assert WellFormedBlock(g[b], |g|);
      assert LiveOut(g, exit, without, b) == LiveOut(g, exit, live, b) - {v};
      BeforeAllWithout(g[b].ics, LiveOut(g, exit, live, b), v);
    }
    assert IsClosed(g, exit, without);
    forall b | 0 <= b < |h|
      ensures forall k :: 0 <= k < |h[b].ics| ==> v !in Changes(h[b].ics[k]) + Uses(h[b].ics[k])
    {
      assert WellFormedBlock(g[b], |g|);
      assert v !in LiveOut(g, exit, live, b);
      SweepWithout(g[b].ics, LiveOut(g, exit, live, b), v);
    }
  }

  // ----- the analysis and the deletion pass on a flow graph -----

  class FlowGraph {
    var blocks: Graph
    const exit: Bits  // globals and statics: they are live when the function ends
    var avGen: seq<Bits>
    var avKill: seq<Bits>
    var avIn: seq<Bits>
    var avOut: seq<Bits>

    constructor (blocks: Graph, exit: Bits)
      ensures this.blocks == blocks && this.exit == exit
    {
      this.blocks, this.exit := blocks, exit;
      avGen, avKill, avIn, avOut := [], [], [], [];
    }

    ghost predicate Summarised()
      reads this
    {
      && |avGen| == |avKill| == |blocks|
      && forall b :: 0 <= b < |blocks| ==> (avGen[b], avKill[b]) == GenKill(blocks[b].ics, {}, {})
    }

    ghost predicate Analysed()
      reads this
    {
      && WellFormed(blocks)
      && IsSolution(blocks, exit, avIn)
      && |avOut| == |blocks|
      && forall b :: 0 <= b < |blocks| ==> avOut[b] == LiveOut(blocks, exit, avIn, b)
    }

    /** First loop of active_vars: gen and kill of every block, front to back. */
    method SummariseBlocks()
      modifies this`avGen, this`avKill
      ensures Summarised()
    {
      avGen, avKill := [], [];
      var b := 0;
      while b < |blocks|
        invariant b == |avGen| == |avKill| <= |blocks|
        invariant forall c :: 0 <= c < b ==> (avGen[c], avKill[c]) == GenKill(blocks[c].ics, {}, {})
      {
        var ics := blocks[b].ics;
        var use, def: Bits := {}, {};
        var p := 0;
        while p < |ics|
          invariant 0 <= p <= |ics|
          invariant GenKill(ics[p..], use, def) == GenKill(ics, {}, {})
        {
          assert ics[p..][1..] == ics[p + 1..];
          var r := AvChange(ics[p], use, def);
          use, def := r.0, r.1;
          p := p + 1;
        }
        avGen, avKill := avGen + [use], avKill + [def];
        b := b + 1;
      }
    }

    /** active_vars: visits the blocks in list order until nothing changes. The
        result is the least solution of the equations. */
    method ActiveVars(ghost vars: Bits)
      requires WellFormed(blocks) && Bounded(blocks, vars) && exit <= vars
      modifies this`avGen, this`avKill, this`avIn, this`avOut
      ensures Analysed()
      ensures forall live :: IsClosed(blocks, exit, live) ==> Below(avIn, live)
    {
      SummariseBlocks();
      avIn := seq(|blocks|, _ => {});
      avOut := seq(|blocks|, _ => {});
      ghost var capacity := |blocks| * |vars|;
      SizeBound(avIn, vars);
      var changed := true;
      while changed
        invariant Summarised() && |avOut| == |blocks| && Rising(blocks, exit, vars, avIn)
        invariant Size(avIn) <= capacity
        invariant !changed ==> Analysed()
        decreases capacity - Size(avIn), changed
      {
        changed := Pass(vars);
        SizeBound(avIn, vars);
      }
    }

    /** One round over all blocks. */
    method Pass(ghost vars: Bits) returns (changed: bool)
      requires WellFormed(blocks) && Bounded(blocks, vars) && exit <= vars
      requires Summarised() && |avOut| == |blocks| && Rising(blocks, exit, vars, avIn)
      modifies this`avIn, this`avOut
      ensures |avOut| == |blocks| && Rising(blocks, exit, vars, avIn)
      ensures !changed ==> avIn == old(avIn) && Analysed()
      ensures changed ==> Size(avIn) > Size(old(avIn))
    {
      changed := false;
      var g := 0;
      while g < |blocks|
        invariant 0 <= g <= |blocks| && |avOut| == |blocks| && Rising(blocks, exit, vars, avIn)
        invariant !changed ==> avIn == old(avIn)
        invariant !changed ==> forall b :: 0 <= b < g ==>
          avOut[b] == LiveOut(blocks, exit, avIn, b) && avIn[b] == LiveIn(blocks, exit, avIn, b)
        invariant changed ==> Size(avIn) > Size(old(avIn))
      {
        var c := Visit(g, vars);
        changed := changed || c;
        g := g + 1;
      }
    }

    /** The union of the successors' in sets, and of what is visible at the end. */
    method JoinSuccessors(g: nat) returns (out: Bits)
      requires WellFormed(blocks) && g < |blocks| && |avIn| == |blocks|
      ensures out == LiveOut(blocks, exit, avIn, g)
    {
      assert WellFormedBlock(blocks[g], |blocks|);
      out := {};
      if blocks[g].branchout.Some? {
        out := out + avIn[blocks[g].branchout.value];
      }
      if FallsThrough(blocks, g) {
        out := out + avIn[g + 1];
      }
      if g + 1 == |blocks| {
        out := out + exit;
      }
    }

    /** Recomputes out and in of one block. */
    method Visit(g: nat, ghost vars: Bits) returns (changed: bool)
      requires WellFormed(blocks) && Bounded(blocks, vars) && exit <= vars && g < |blocks|
      requires Summarised() && |avOut| == |blocks| && Rising(blocks, exit, vars, avIn)
      modifies this`avIn, this`avOut
      ensures Rising(blocks, exit, vars, avIn)
      ensures avIn == old(avIn)[g := LiveIn(blocks, exit, old(avIn), g)]
      ensures avOut == old(avOut)[g := LiveOut(blocks, exit, old(avIn), g)]
      ensures changed <==> avIn != old(avIn)
      ensures changed ==> Size(avIn) > Size(old(avIn))
    {
      changed := false;
      var out := JoinSuccessors(g);
      avOut := avOut[g := out];
      var tmp := out - avKill[g] + avGen[g];
      assert tmp == LiveIn(blocks, exit, avIn, g) by {
        GenKillIsBeforeAll(blocks[g].ics, {}, {}, out);
      }
      if tmp != avIn[g] {
        changed := true;
        UpdateKeepsRising(blocks, exit, vars, avIn, g, tmp);
        avIn := avIn[g := tmp];
      }
    }

    /** The deletion part of dead_assignments. */
    method DeadAssignments() returns (changed: bool)
      requires Analysed()
      modifies this`blocks
      ensures IsSwept(old(blocks), exit, avIn, blocks)
      ensures changed <==> blocks != old(blocks)
    {
      ghost var g0 := blocks;
      changed := false;
      var fg := 0;
      while fg < |blocks|
        invariant 0 <= fg <= |blocks| == |g0|
        invariant forall b :: 0 <= b < fg ==>
          blocks[b] == Block(Sweep(g0[b].ics, LiveOut(g0, exit, avIn, b)).0, g0[b].branchout)
        invariant forall b :: fg <= b < |blocks| ==> blocks[b] == g0[b]
        invariant changed <==> blocks != g0
      {
        var ics, c := SweepBlock(blocks[fg].ics, avOut[fg]);
        ghost var before := blocks;
        blocks := blocks[fg := blocks[fg].(ics := ics)];
        assert !c ==> blocks == before;
        assert c ==> blocks[fg] != g0[fg];
        changed := changed || c;
        fg := fg + 1;
      }
    }

    /** Walks one block from its end, unlinking dead assignments on the way. */
    static method SweepBlock(orig: seq<IC>, avOut: Bits) returns (ics: seq<IC>, changed: bool)
      ensures ics == Sweep(orig, avOut).0
      ensures changed <==> ics != orig
    {
      ics := orig;
      changed := false;
      var isUsed := avOut;
      var p := |ics|;
      while p > 0
        invariant 0 <= p <= |ics| <= |orig|
        invariant ics[..p] == orig[..p]
        invariant (ics[p..], isUsed) == Sweep(orig[p..], avOut)
        invariant changed <==> |ics| < |orig|
      {
        p := p - 1;
        assert orig[p..][1..] == orig[p + 1..];
        assert ics[p..] == [ics[p]] + ics[p + 1..];
        assert ics[p] == ics[..p + 1][p] == orig[p];
        if IsDead(ics[p], isUsed) {
          ghost var rest := ics[p + 1..];
          ics := ics[..p] + ics[p + 1..];
          assert ics[p..] == rest;
          changed := true;
        } else {
          isUsed := AvUpdate(ics[p], isUsed);
        }
      }
      assert ics[0..] == ics && orig[0..] == orig;
      SweepSameLength(orig, avOut);
    }
  }

  lemma {:induction false} SweepSameLength(ics: seq<IC>, isUsed: Bits)
    ensures |Sweep(ics, isUsed).0| <= |ics|
    ensures |Sweep(ics, isUsed).0| == |ics| ==> Sweep(ics, isUsed).0 == ics
  {
    if ics != [] {
      SweepSameLength(ics[1..], isUsed);
    }
  }

  /** What holds throughout the iteration: the approximation is bounded, can only
      rise, and stays below every solution. */
  ghost predicate Rising(g: Graph, exit: Bits, vars: Bits, avIn: seq<Bits>)
    requires WellFormed(g)
  {
    && |avIn| == |g|
    && (forall b :: 0 <= b < |g| ==> avIn[b] <= vars)
    && (forall b :: 0 <= b < |g| ==> avIn[b] <= LiveIn(g, exit, avIn, b))
    && (forall live :: IsClosed(g, exit, live) ==> Below(avIn, live))
  }

  lemma UpdateKeepsRising(g: Graph, exit: Bits, vars: Bits, avIn: seq<Bits>, b: nat, x: Bits)
    requires WellFormed(g) && Bounded(g, vars) && exit <= vars && Rising(g, exit, vars, avIn)
    requires b < |g| && x == LiveIn(g, exit, avIn, b) && x != avIn[b]
    ensures Rising(g, exit, vars, avIn[b := x])
    ensures Size(avIn[b := x]) > Size(avIn)
  {
    hide LiveIn, LiveOut, WellFormed, Size, Bounded;
    var next := avIn[b := x];
    assert Below(avIn, next);
    LiveInBounded(g, exit, vars, avIn, b);
    forall c | 0 <= c < |g|
      ensures next[c] <= LiveIn(g, exit, next, c)
    {
      LiveInMonotone(g, exit, avIn, next, c);
    }
    forall live | IsClosed(g, exit, live)
      ensures Below(next, live)
    {
      LiveInMonotone(g, exit, avIn, live, b);
    }
    SizeUpdate(avIn, b, x);
    SubsetCard(avIn[b], x);
  }

  lemma LiveInBounded(g: Graph, exit: Bits, vars: Bits, avIn: seq<Bits>, b: nat)
    requires WellFormed(g) && Bounded(g, vars) && exit <= vars
    requires |avIn| == |g| && b < |g|
    requires forall c :: 0 <= c < |g| ==> avIn[c] <= vars
    ensures LiveIn(g, exit, avIn, b) <= vars
  {
    assert WellFormedBlock(g[b], |g|);
    BeforeAllBounded(g[b].ics, LiveOut(g, exit, avIn, b), vars);
  }
}
