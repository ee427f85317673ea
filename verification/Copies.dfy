/** Available copies and copy propagation (c/vbcc/cp.c). */
module Copies {
  import Numbering
  import opened Available
  import opened BitSets
  import opened IntermediateCode
  import opened Options

  predicate IsCopy(ic: IC) {
    ic.Assign? && ic.q1.Var?
  }

  /** copyindex of every instruction. */
  type Numbers = seq<seq<Option<nat>>>

  ghost predicate Fits(g: Graph, index: Numbers) {
    |index| == |g| && forall b :: 0 <= b < |g| ==> |index[b]| == |g[b].ics|
  }

  /** Position k of block b holds a copy with number i. */
  ghost predicate Carries(g: Graph, index: Numbers, b: int, k: int, i: nat)
    requires Fits(g, index)
  {
    0 <= b < |g| && 0 <= k < |g[b].ics| && index[b][k] == Some(i)
  }

  /** Everything num_copies computes: numbers, one representative per number, and the
      numbers of the copies each variable takes part in. */
  datatype Table = Table(index: Numbers, clist: seq<(nat, nat)>, copies: seq<Bits>)

  ghost predicate IsTable(g: Graph, t: Table) {
    && Fits(g, t.index)
    && (forall b, k :: 0 <= b < |g| && 0 <= k < |g[b].ics| ==> (t.index[b][k].Some? <==> IsCopy(g[b].ics[k])))
    && (forall b, k, i: nat :: Carries(g, t.index, b, k, i) ==>
          && i < |t.clist|
          && Carries(g, t.index, t.clist[i].0, t.clist[i].1, i)
          && g[t.clist[i].0].ics[t.clist[i].1] == g[b].ics[k])
    && (forall b, k, c, m, i: nat, j: nat :: Carries(g, t.index, b, k, i) && Carries(g, t.index, c, m, j) ==>
          (i == j <==> g[b].ics[k] == g[c].ics[m]))
    && (forall b, k :: 0 <= b < |g| && 0 <= k < |g[b].ics| ==>
          forall v :: v in Mentions(g[b].ics[k]) ==> v < |t.copies|)
    && (forall v, i: nat :: 0 <= v < |t.copies| ==>
          (i in t.copies[v] <==> exists b, k :: Carries(g, t.index, b, k, i) && v in Mentions(g[b].ics[k])))
  }

  /** The copies whose numbers are in x are in effect: both sides hold one value. */
  ghost predicate CopiesHold(g: Graph, index: Numbers, x: Bits, s: Store)
    requires Fits(g, index)
  {
    forall b, k, i: nat :: Carries(g, index, b, k, i) && i in x && IsCopy(g[b].ics[k]) ==>
      Get(s, g[b].ics[k].z) == Value(g[b].ics[k].q1, s)
  }

  // ----- what holds where -----

  lemma HoldsAfterOne(g: Graph, t: Table, sem: Sem, b: nat, k: nat, x: Bits, st: State)
    requires IsTable(g, t) && b < |g| && k < |g[b].ics|
    requires CopiesHold(g, t.index, x, st.store)
    ensures CopiesHold(g, t.index, After(EffectOf(g[b].ics[k], t.index[b][k], t.copies), KillFirst, x),
                       Exec(g[b].ics[k], sem, st).store)
  {
    var ic := g[b].ics[k];
    var after := After(EffectOf(ic, t.index[b][k], t.copies), KillFirst, x);
    var s := Exec(ic, sem, st).store;
    forall c, m, i: nat | Carries(g, t.index, c, m, i) && i in after && IsCopy(g[c].ics[m])
      ensures Get(s, g[c].ics[m].z) == Value(g[c].ics[m].q1, s)
    {
      if t.index[b][k] == Some(i) {
        assert Carries(g, t.index, b, k, i);
        assert g[c].ics[m] == ic;
      } else if Defines(ic) {
        assert ic.z in Mentions(ic);
        assert i !in t.copies[ic.z];
        assert ic.z !in Mentions(g[c].ics[m]);
      }
    }
  }

  lemma {:induction false} HoldsAfter(g: Graph, t: Table, sem: Sem, b: nat, k: nat, x: Bits, st: State)
    requires IsTable(g, t) && b < |g| && k <= |g[b].ics|
    requires CopiesHold(g, t.index, x, st.store)
    ensures CopiesHold(g, t.index, AfterAll(EffectsOf(g[b].ics, t.index[b], t.copies)[..k], KillFirst, x),
                       ExecAll(g[b].ics[..k], sem, st).store)
  {
    var es := EffectsOf(g[b].ics, t.index[b], t.copies);
    if k > 0 {
      HoldsAfter(g, t, sem, b, k - 1, x, st);
      var mid := AfterAll(es[..k - 1], KillFirst, x);
      HoldsAfterOne(g, t, sem, b, k - 1, mid, ExecAll(g[b].ics[..k - 1], sem, st));
      assert es[..k] == es[..k - 1] + [es[k - 1]];
      AfterAllAppend(es[..k - 1], [es[k - 1]], KillFirst, x);
      assert AfterAll([es[k - 1]], KillFirst, mid) == AfterAll([], KillFirst, After(es[k - 1], KillFirst, mid));
      assert g[b].ics[..k] == g[b].ics[..k - 1] + [g[b].ics[k - 1]];
      ExecSnoc(g[b].ics[..k - 1], g[b].ics[k - 1], sem, st);
    }
  }

  /** The dataflow problem of available_copies. */
  function CopyProblem(g: Graph, t: Table, universe: Bits): Problem
    requires Fits(g, t.index)
  {
    Problem(g, seq(|g|, b requires 0 <= b < |g| => EffectsOf(g[b].ics, t.index[b], t.copies)), KillFirst, universe)
  }

  /** On every run, the copies the analysis finds available at the start of a block
      are in effect there. */
  lemma {:induction false} AvailableCopiesHold(
      g: Graph, t: Table, universe: Bits, outs: seq<Bits>, sem: Sem, s: State, n: nat)
    requires IsTable(g, t)
    requires var p := CopyProblem(g, t, universe); WellPosed(p) && IsSolution(p, outs)
    ensures var c := Run(g, sem, s, n);
      c.At? ==> CopiesHold(g, t.index, In(CopyProblem(g, t, universe), outs, c.block), c.st.store)
  {
    hide ExecAll, AfterAll, StepBlock, EffectsOf;
    var p := CopyProblem(g, t, universe);
    if n > 0 {
      AvailableCopiesHold(g, t, universe, outs, sem, s, n - 1);
      var c := Run(g, sem, s, n - 1);
      if c.At? {
        StepFollowsEdge(g, sem, c);
        var d := StepBlock(g, sem, c);
        if d.At? {
          var b := c.block;
          HoldsAfter(g, t, sem, b, |g[b].ics|, In(p, outs, b), c.st);
          assert g[b].ics[..|g[b].ics|] == g[b].ics;
          assert p.effects[b][..|g[b].ics|] == p.effects[b];
          assert outs[b] == Out(p, outs, b);
          assert In(p, outs, d.block) <= outs[b];
        }
      } else {
        HaltedStays(g, sem, c);
      }
    }
  }

  // ----- copy propagation -----

  /** What a sweep needs to know besides the program. Variables in barred are never
      put in place of others (extern and static ones under static_cse). */
  datatype Setting = Setting(table: Table, barred: set<nat>, useQ2AsZ: bool)

  predicate CanReplace(p: IC, v: nat, barred: set<nat>) {
    IsCopy(p) && p.z == v && p.q1 != Var(v) && p.q1.v !in barred
  }

  /** The copy that serves to replace v: the first suitable one from number i on. */
  function FirstCopy(g: Graph, c: Setting, candidates: Bits, v: nat, i: nat): Option<Operand>
    decreases |c.table.clist| - i
  {
    if i >= |c.table.clist| then None
    else
      var (b, k) := c.table.clist[i];
      if i in candidates && b < |g| && k < |g[b].ics| && CanReplace(g[b].ics[k], v, c.barred)
      then Some(g[b].ics[k].q1)
      else FirstCopy(g, c, candidates, v, i + 1)
  }

  function CProp(g: Graph, c: Setting, o: Operand, act: Bits, dest: Bits): Operand {
    if o.Var? && o.v < |c.table.copies| then
      match FirstCopy(g, c, act * c.table.copies[o.v] - dest, o.v, 0)
      case Some(q) => q
      case None => o
    else o
  }

  /** An operand that may not equal the target on this machine is put back. */
  function KeepQ2(c: Setting, z: Option<nat>, before: Operand, after: Operand): Operand {
    if !c.useQ2AsZ && z.Some? && after == Var(z.value) then before else after
  }

  function PropagateIC(g: Graph, c: Setting, ic: IC, act: Bits, dest: Bits): IC {
    match ic
    case Assign(z, q1) => Assign(z, CProp(g, c, q1, act, dest))
    case Arith(op, z, q1, q2) =>
      Arith(op, z, CProp(g, c, q1, act, dest), KeepQ2(c, Some(z), q2, CProp(g, c, q2, act, dest)))
    case Compare(q1, q2) => Compare(CProp(g, c, q1, act, dest), CProp(g, c, q2, act, dest))
    case _ => ic
  }

  function MarkChanged(number: Option<nat>, changed: bool, dest: Bits): Bits {
    if changed && number.Some? then dest + {number.value} else dest
  }

  /** Sweeps a block from instruction k on; dest collects the numbers of the copies
      that were themselves rewritten in this sweep. */
  function PropagateFrom(g: Graph, c: Setting, b: nat, k: nat, act: Bits, dest: Bits): (r: (seq<IC>, Bits))
    requires Fits(g, c.table.index) && b < |g| && k <= |g[b].ics|
    ensures |r.0| == |g[b].ics| - k
    decreases |g[b].ics| - k
  {
    if k == |g[b].ics| then ([], dest)
    else
      var ic := g[b].ics[k];
      var number := c.table.index[b][k];
      var ic' := PropagateIC(g, c, ic, act, dest);
      var (rest, dest') := PropagateFrom(g, c, b, k + 1,
        After(EffectOf(ic, number, c.table.copies), KillFirst, act), MarkChanged(number, ic' != ic, dest));
      ([ic'] + rest, dest')
  }

  /** Sweeps all blocks from b on, each starting with the copies in start[b]. */
  function PropagateBlocks(g: Graph, c: Setting, start: seq<Bits>, b: nat, dest: Bits): (h: Graph)
    requires Fits(g, c.table.index) && |start| == |g| && b <= |g|
    ensures |h| == |g| - b
    decreases |g| - b
  {
    if b == |g| then []
    else
      var (ics, dest') := PropagateFrom(g, c, b, 0, start[b], dest);
      [g[b].(ics := ics)] + PropagateBlocks(g, c, start, b + 1, dest')
  }

  lemma {:induction false} FirstCopyHolds(g: Graph, c: Setting, x: Bits, candidates: Bits, v: nat, i: nat, s: Store)
    requires IsTable(g, c.table) && CopiesHold(g, c.table.index, x, s)
    requires v < |c.table.copies| && candidates <= x * c.table.copies[v]
    ensures var r := FirstCopy(g, c, candidates, v, i); r.Some? ==> r.value.Var? && Value(r.value, s) == Get(s, v)
    decreases |c.table.clist| - i
  {
    if i < |c.table.clist| {
      var (b, k) := c.table.clist[i];
      if i in candidates && b < |g| && k < |g[b].ics| && CanReplace(g[b].ics[k], v, c.barred) {
        var c0, m0 :| Carries(g, c.table.index, c0, m0, i) && v in Mentions(g[c0].ics[m0]);
        assert Carries(g, c.table.index, b, k, i);
      } else {
        FirstCopyHolds(g, c, x, candidates, v, i + 1, s);
      }
    }
  }

  lemma CPropKeepsValue(g: Graph, c: Setting, o: Operand, x: Bits, dest: Bits, s: Store)
    requires IsTable(g, c.table) && CopiesHold(g, c.table.index, x, s)
    ensures Value(CProp(g, c, o, x, dest), s) == Value(o, s)
  {
    if o.Var? && o.v < |c.table.copies| {
      FirstCopyHolds(g, c, x, x * c.table.copies[o.v] - dest, o.v, 0, s);
    }
  }

  lemma PropagateICKeepsEffect(g: Graph, c: Setting, sem: Sem, ic: IC, x: Bits, dest: Bits, st: State)
    requires IsTable(g, c.table) && CopiesHold(g, c.table.index, x, st.store)
    ensures Exec(PropagateIC(g, c, ic, x, dest), sem, st) == Exec(ic, sem, st)
  {
    match ic
    case Assign(z, q1) => CPropKeepsValue(g, c, q1, x, dest, st.store);
    case Arith(_, z, q1, q2) =>
      CPropKeepsValue(g, c, q1, x, dest, st.store);
      CPropKeepsValue(g, c, q2, x, dest, st.store);
    case Compare(q1, q2) =>
      CPropKeepsValue(g, c, q1, x, dest, st.store);
      CPropKeepsValue(g, c, q2, x, dest, st.store);
    case _ =>
  }

  /** The swept rest of a block does the same as the original rest, instruction by
      instruction. */
  lemma {:induction false} PropagateFromKeepsEffect(
      g: Graph, c: Setting, sem: Sem, b: nat, k: nat, x: Bits, dest: Bits, st: State, m: nat)
    requires IsTable(g, c.table) && b < |g| && k + m <= |g[b].ics|
    requires CopiesHold(g, c.table.index, x, st.store)
    ensures ExecAll(PropagateFrom(g, c, b, k, x, dest).0[..m], sem, st) == ExecAll(g[b].ics[k..k + m], sem, st)
    decreases m
  {
    if m > 0 {
      var ic := g[b].ics[k];
      var number := c.table.index[b][k];
      var x' := After(EffectOf(ic, number, c.table.copies), KillFirst, x);
      var ic' := PropagateIC(g, c, ic, x, dest);
      var dest' := MarkChanged(number, ic' != ic, dest);
      var (rest, _) := PropagateFrom(g, c, b, k + 1, x', dest');
      PropagateICKeepsEffect(g, c, sem, ic, x, dest, st);
      HoldsAfterOne(g, c.table, sem, b, k, x, st);
      PropagateFromKeepsEffect(g, c, sem, b, k + 1, x', dest', Exec(ic, sem, st), m - 1);
      assert PropagateFrom(g, c, b, k, x, dest).0[..m] == [ic'] + rest[..m - 1];
      assert ([ic'] + rest[..m - 1])[1..] == rest[..m - 1];
      assert g[b].ics[k..k + m][1..] == g[b].ics[k + 1..k + m];
    }
  }

  /** h[b] is the sweep of g[b] for some set of excluded copies. */
  ghost predicate IsPropagatedBlock(g: Graph, c: Setting, start: seq<Bits>, h: Graph, b: nat)
    requires Fits(g, c.table.index) && |start| == |g| == |h| && b < |g|
  {
    exists dest :: h[b] == g[b].(ics := PropagateFrom(g, c, b, 0, start[b], dest).0)
  }

  lemma {:induction false} PropagateBlocksPointwise(
      g: Graph, c: Setting, start: seq<Bits>, b: nat, dest: Bits, h: Graph)
    requires Fits(g, c.table.index) && |start| == |g| == |h| && b <= |g|
    requires h[b..] == PropagateBlocks(g, c, start, b, dest)
    ensures forall d :: b <= d < |g| ==> IsPropagatedBlock(g, c, start, h, d)
    decreases |g| - b
  {
    if b < |g| {
      var (ics, dest') := PropagateFrom(g, c, b, 0, start[b], dest);
      assert h[b] == h[b..][0] && h[b + 1..] == h[b..][1..];
      PropagateBlocksPointwise(g, c, start, b + 1, dest', h);
    }
  }

  /** Branches stay where and what they are. */
  ghost predicate SameBranches(a: seq<IC>, b: seq<IC>) {
    && |a| == |b|
    && forall j :: 0 <= j < |a| ==> IsBranch(a[j]) == IsBranch(b[j]) && (IsBranch(a[j]) ==> a[j] == b[j])
  }

  lemma {:induction false} PropagateFromKeepsBranches(g: Graph, c: Setting, b: nat, k: nat, x: Bits, dest: Bits)
    requires Fits(g, c.table.index) && b < |g| && k <= |g[b].ics|
    ensures SameBranches(PropagateFrom(g, c, b, k, x, dest).0, g[b].ics[k..])
    decreases |g[b].ics| - k
  {
    if k < |g[b].ics| {
      var ic := g[b].ics[k];
      var number := c.table.index[b][k];
      var ic' := PropagateIC(g, c, ic, x, dest);
      var x', dest' := After(EffectOf(ic, number, c.table.copies), KillFirst, x), MarkChanged(number, ic' != ic, dest);
      PropagateFromKeepsBranches(g, c, b, k + 1, x', dest');
      ConsSameBranches(ic', PropagateFrom(g, c, b, k + 1, x', dest').0, g[b].ics[k..]);
    }
  }

  lemma ConsSameBranches(head: IC, rest: seq<IC>, all: seq<IC>)
    requires all != [] && SameBranches(rest, all[1..])
    requires IsBranch(head) == IsBranch(all[0]) && (IsBranch(head) ==> head == all[0])
    ensures SameBranches([head] + rest, all)
  {
    forall j | 0 <= j < |all|
      ensures var a := ([head] + rest)[j]; IsBranch(a) == IsBranch(all[j]) && (IsBranch(a) ==> a == all[j])
    {
      if j > 0 {
        assert all[j] == all[1..][j - 1];
      }
    }
  }

  lemma SweepKeepsBranches(g: Graph, c: Setting, start: seq<Bits>, h: Graph, b: nat)
    requires Fits(g, c.table.index) && |start| == |g| && b < |g|
    requires h == PropagateBlocks(g, c, start, 0, {})
    ensures SameBranches(h[b].ics, g[b].ics) && h[b].branchout == g[b].branchout
  {
    assert h[0..] == h;
    PropagateBlocksPointwise(g, c, start, 0, {}, h);
    assert IsPropagatedBlock(g, c, start, h, b);
    var dest :| h[b] == g[b].(ics := PropagateFrom(g, c, b, 0, start[b], dest).0);
    PropagateFromKeepsBranches(g, c, b, 0, start[b], dest);
    assert g[b].ics[0..] == g[b].ics;
  }

  lemma SameBranchesSameExits(a: Block, b: Block, count: nat)
    requires SameBranches(a.ics, b.ics) && a.branchout == b.branchout
    ensures WellFormedBlock(a, count) == WellFormedBlock(b, count)
    ensures forall cc :: Taken(a, cc) == Taken(b, cc)
  {
  }

  lemma PropagatedIsWellFormed(g: Graph, c: Setting, start: seq<Bits>, h: Graph)
    requires WellFormed(g) && Fits(g, c.table.index) && |start| == |g|
    requires h == PropagateBlocks(g, c, start, 0, {})
    ensures WellFormed(h)
  {
    forall b | 0 <= b < |g|
      ensures WellFormedBlock(h[b], |h|)
    {
      SweepKeepsBranches(g, c, start, h, b);
      SameBranchesSameExits(h[b], g[b], |g|);
      assert WellFormedBlock(g[b], |g|);
    }
  }

  /** Every block may start with the copies the analysis found available there, or,
      in the local variant, with none. */
  ghost predicate IsStart(g: Graph, t: Table, universe: Bits, outs: seq<Bits>, start: seq<Bits>)
    requires IsTable(g, t)
    requires var p := CopyProblem(g, t, universe); WellPosed(p) && IsSolution(p, outs)
  {
    |start| == |g| && forall b :: 0 <= b < |g| ==> start[b] <= In(CopyProblem(g, t, universe), outs, b)
  }

  lemma StepsAlike(g: Graph, h: Graph, sem: Sem, cfg: Config)
    requires WellFormed(g) && WellFormed(h) && |g| == |h| && cfg.At? && cfg.block < |g|
    requires SameBranches(h[cfg.block].ics, g[cfg.block].ics) && h[cfg.block].branchout == g[cfg.block].branchout
    requires ExecAll(h[cfg.block].ics, sem, cfg.st) == ExecAll(g[cfg.block].ics, sem, cfg.st)
    ensures StepBlock(h, sem, cfg) == StepBlock(g, sem, cfg)
  {
    SameBranchesSameExits(h[cfg.block], g[cfg.block], |g|);
    assert WellFormedBlock(g[cfg.block], |g|);
  }

  /** Copy propagation leaves every run unchanged: the same blocks in the same order
      with the same stores, from every start. */
  lemma {:induction false} PropagationPreservesRuns(
      g: Graph, c: Setting, universe: Bits, outs: seq<Bits>, start: seq<Bits>, h: Graph, sem: Sem, s: State, n: nat)
    requires IsTable(g, c.table)
    requires var p := CopyProblem(g, c.table, universe); WellPosed(p) && IsSolution(p, outs)
    requires IsStart(g, c.table, universe, outs, start)
    requires h == PropagateBlocks(g, c, start, 0, {})
    ensures WellFormed(h)
    ensures Run(h, sem, s, n) == Run(g, sem, s, n)
  {
    hide ExecAll, PropagateBlocks, In, StepBlock;
    PropagatedIsWellFormed(g, c, start, h);
    if n > 0 {
      PropagationPreservesRuns(g, c, universe, outs, start, h, sem, s, n - 1);
      var cfg := Run(g, sem, s, n - 1);
      if cfg.At? {
        var b := cfg.block;
        SweepKeepsBranches(g, c, start, h, b);
        PropagationKeepsEveryPoint(g, c, universe, outs, start, h, sem, s, n - 1, |g[b].ics|);
        assert g[b].ics[..|g[b].ics|] == g[b].ics;
        assert h[b].ics[..|g[b].ics|] == h[b].ics;
        StepsAlike(g, h, sem, cfg);
      } else {
        HaltedStays(g, sem, cfg);
        HaltedStays(h, sem, cfg);
      }
    }
  }

  /** Inside a block, too: after its first m instructions both programs are in the
      same state. */
  lemma PropagationKeepsEveryPoint(
      g: Graph, c: Setting, universe: Bits, outs: seq<Bits>, start: seq<Bits>, h: Graph, sem: Sem, s: State, n: nat,
      m: nat)
    requires IsTable(g, c.table)
    requires var p := CopyProblem(g, c.table, universe); WellPosed(p) && IsSolution(p, outs)
    requires IsStart(g, c.table, universe, outs, start)
    requires h == PropagateBlocks(g, c, start, 0, {})
    requires var cfg := Run(g, sem, s, n); cfg.At? && m <= |g[cfg.block].ics|
    ensures var cfg := Run(g, sem, s, n);
      && |h[cfg.block].ics| == |g[cfg.block].ics|
      && ExecAll(h[cfg.block].ics[..m], sem, cfg.st) == ExecAll(g[cfg.block].ics[..m], sem, cfg.st)
  {
    var cfg := Run(g, sem, s, n);
    var b := cfg.block;
    AvailableCopiesHold(g, c.table, universe, outs, sem, s, n);
    assert h[0..] == h;
    PropagateBlocksPointwise(g, c, start, 0, {}, h);
    assert IsPropagatedBlock(g, c, start, h, b);
    var dest :| h[b] == g[b].(ics := PropagateFrom(g, c, b, 0, start[b], dest).0);
    PropagateFromKeepsEffect(g, c, sem, b, 0, start[b], dest, cfg.st, m);
  }

  // ----- numbering -----

  function KeyOf(ic: IC): Numbering.Key
    requires IsCopy(ic)
  {
    [ic.q1.v, ic.z]
  }

  /** The copies in program order: every position that holds a copy, once. */
  ghost predicate ListsCopies(g: Graph, initial: Numbers, pos: seq<(nat, nat)>) {
    && Fits(g, initial)
    && (forall j :: 0 <= j < |pos| ==> Carries(g, initial, pos[j].0, pos[j].1, j) && IsCopy(g[pos[j].0].ics[pos[j].1]))
    && (forall b, k :: 0 <= b < |g| && 0 <= k < |g[b].ics| ==> (initial[b][k].Some? <==> IsCopy(g[b].ics[k])))
    && (forall b, k, j: nat :: Carries(g, initial, b, k, j) ==> j < |pos| && pos[j] == (b, k))
  }

  /** First loop of num_copies. */
  method CollectCopies(g: Graph) returns (initial: Numbers, pos: seq<(nat, nat)>)
    ensures ListsCopies(g, initial, pos)
  {
    initial, pos := [], [];
    var b := 0;
    while b < |g|
      invariant 0 <= b == |initial| <= |g| && ListsCopies(g[..b], initial, pos)
    {
      ghost var pos0 := pos;
      var row: seq<Option<nat>> := [];
      var k := 0;
      while k < |g[b].ics|
        invariant 0 <= k == |row| <= |g[b].ics| && |pos0| <= |pos| && pos[..|pos0|] == pos0
        invariant forall m :: 0 <= m < k ==> (row[m].Some? <==> IsCopy(g[b].ics[m]))
        invariant forall m :: 0 <= m < k && row[m].Some? ==>
          |pos0| <= row[m].value < |pos| && pos[row[m].value] == (b, m)
        invariant forall j :: |pos0| <= j < |pos| ==>
          pos[j].0 == b && pos[j].1 < k && row[pos[j].1] == Some(j)
      {
        if IsCopy(g[b].ics[k]) {
          row, pos := row + [Some(|pos|)], pos + [(b, k)];
        } else {
          row := row + [None];
        }
        k := k + 1;
      }
      AddRow(g, b, initial, pos0, row, pos);
      initial := initial + [row];
      b := b + 1;
    }
    assert g[..|g|] == g;
  }

  lemma AddRow(g: Graph, b: nat, initial: Numbers, pos0: seq<(nat, nat)>, row: seq<Option<nat>>, pos: seq<(nat, nat)>)
    requires b < |g| && |initial| == b && ListsCopies(g[..b], initial, pos0)
    requires |row| == |g[b].ics| && |pos0| <= |pos| && pos[..|pos0|] == pos0
    requires forall m :: 0 <= m < |row| ==> (row[m].Some? <==> IsCopy(g[b].ics[m]))
    requires forall m :: 0 <= m < |row| && row[m].Some? ==>
      |pos0| <= row[m].value < |pos| && pos[row[m].value] == (b, m)
    requires forall j :: |pos0| <= j < |pos| ==> pos[j].0 == b && pos[j].1 < |row| && row[pos[j].1] == Some(j)
    ensures ListsCopies(g[..b + 1], initial + [row], pos)
  {
    var g', index := g[..b + 1], initial + [row];
    forall j | 0 <= j < |pos|
      ensures Carries(g', index, pos[j].0, pos[j].1, j) && IsCopy(g'[pos[j].0].ics[pos[j].1])
    {
      if j < |pos0| {
        assert pos[j] == pos0[j];
        assert Carries(g[..b], initial, pos0[j].0, pos0[j].1, j);
      }
    }
    forall c, k, j: nat | Carries(g', index, c, k, j)
      ensures j < |pos| && pos[j] == (c, k)
    {
      if c < b {
        assert Carries(g[..b], initial, c, k, j);
        assert pos[j] == pos0[j];
      }
    }
    forall c, k | 0 <= c < |g'| && 0 <= k < |g'[c].ics|
      ensures index[c][k].Some? <==> IsCopy(g'[c].ics[k])
    {
      if c < b {
        assert g'[c] == g[..b][c];
      }
    }
  }

  /** Replaces every initial number by the one the renumbering chose. */
  function Renumbered(initial: Numbers, renumber: seq<nat>): (index: Numbers)
    ensures |index| == |initial|
    ensures forall b :: 0 <= b < |index| ==> |index[b]| == |initial[b]|
  {
    seq(|initial|, b requires 0 <= b < |initial| => seq(|initial[b]|, k requires 0 <= k < |initial[b]| =>
      match initial[b][k]
      case Some(j) => if j < |renumber| then Some(renumber[j]) else None
      case None => None))
  }

  class Propagator {
    var blocks: Graph
    const vcount: nat
    var table: Table
    var cpIn: seq<Bits>
    ghost var cpOut: seq<Bits>

    constructor (blocks: Graph, vcount: nat)
      ensures this.blocks == blocks && this.vcount == vcount
    {
      this.blocks, this.vcount := blocks, vcount;
      table, cpIn, cpOut := Table([], [], []), [], [];
    }

    /** num_copies: equal copies get equal numbers. */
    method NumCopies()
      requires forall b, k :: 0 <= b < |blocks| && 0 <= k < |blocks[b].ics| ==>
        forall v :: v in Mentions(blocks[b].ics[k]) ==> v < vcount
      modifies this`table
      ensures IsTable(blocks, table) && |table.copies| == vcount
    {
      var initial, pos := CollectCopies(blocks);
      var ics := Fetch(blocks, initial, pos);
      var keys := seq(|ics|, j requires 0 <= j < |ics| => if IsCopy(ics[j]) then KeyOf(ics[j]) else []);
      var renumber := Numbering.Renumber(keys);
      var clist := Representatives(pos, renumber);
      forall j | 0 <= j < |ics|
        ensures ics[j].z < vcount && ics[j].q1.v < vcount
      {
        assert Carries(blocks, initial, pos[j].0, pos[j].1, j);
        assert ics[j].z in Mentions(ics[j]) && ics[j].q1.v in Mentions(ics[j]);
      }
      var copies := CopiesByVariable(ics, renumber, vcount);
      table := Table(Renumbered(initial, renumber), clist, copies);
      KeysIdentify(ics, keys);
      TableIsComplete(blocks, initial, pos, ics, renumber, table);
    }

    /** available_copies: the greatest solution of the equations. */
    method AvailableCopies(preds: seq<seq<nat>>)
      requires WellFormed(blocks) && IsTable(blocks, table) && |preds| == |blocks|
      requires forall b :: 0 <= b < |blocks| ==> IsPredecessorList(blocks, b, preds[b])
      modifies this`cpIn, this`cpOut
      ensures var p := CopyProblem(blocks, table, Numbering.UpTo(|table.clist|));
        && WellPosed(p) && IsSolution(p, cpOut)
        && |cpIn| == |blocks| && (forall b :: 0 <= b < |blocks| ==> cpIn[b] == In(p, cpOut, b))
        && (forall other :: IsSupported(p, other) ==> Below(other, cpOut))
    {
      var p := CopyProblem(blocks, table, Numbering.UpTo(|table.clist|));
      CopyProblemWellPosed(blocks, table);
      var analysis := new Analysis(p, preds);
      analysis.Analyse();
      cpIn, cpOut := analysis.ins, analysis.outs;
    }

    /** copy_propagation: starts every block with what the analysis found or, if only
        single blocks are considered, with nothing. */
    method CopyPropagation(global: bool, barred: set<nat>, useQ2AsZ: bool) returns (changed: bool)
      requires IsTable(blocks, table) && |cpIn| == |blocks|
      modifies this`blocks
      ensures var start := if global then cpIn else seq(|cpIn|, _ => {});
        blocks == PropagateBlocks(old(blocks), Setting(table, barred, useQ2AsZ), start, 0, {})
      ensures changed <==> blocks != old(blocks)
    {
      changed := SweepBlocks(if global then cpIn else seq(|cpIn|, _ => {}), barred, useQ2AsZ);
    }

    /** Rewrites the operands in place, block by block. */
    method SweepBlocks(start: seq<Bits>, barred: set<nat>, useQ2AsZ: bool) returns (changed: bool)
      requires IsTable(blocks, table) && |start| == |blocks|
      modifies this`blocks
      ensures blocks == PropagateBlocks(old(blocks), Setting(table, barred, useQ2AsZ), start, 0, {})
      ensures changed <==> blocks != old(blocks)
    {
      hide PropagateFrom;
      ghost var g := blocks;
      ghost var c := Setting(table, barred, useQ2AsZ);
      var cpDest: Bits := {};
      changed := false;
      var b := 0;
      assert blocks[..0] + PropagateBlocks(g, c, start, 0, {}) == PropagateBlocks(g, c, start, 0, {});
      while b < |blocks|
        invariant 0 <= b <= |blocks| == |g|
        invariant blocks[..b] + PropagateBlocks(g, c, start, b, cpDest) == PropagateBlocks(g, c, start, 0, {})
        invariant forall d :: b <= d < |g| ==> blocks[d] == g[d]
        invariant Untouched(g, table.index, blocks, cpDest)
        invariant changed <==> blocks != g
      {
        ghost var before, dest := blocks, cpDest;
        var r;
        cpDest, r := SweepBlock(g, b, start[b], cpDest, barred, useQ2AsZ);
        assert blocks[..b + 1] == before[..b] + [blocks[b]];
        assert blocks[..b + 1] + PropagateBlocks(g, c, start, b + 1, cpDest)
            == before[..b] + ([blocks[b]] + PropagateBlocks(g, c, start, b + 1, cpDest));
        assert r ==> blocks[b] != g[b];
        assert !r ==> blocks == before;
        changed := changed || r;
        b := b + 1;
      }
      assert blocks[..|blocks|] == blocks;
    }

    /** One block. The representatives of the numbers outside cpDest are still what
        they were when the sweep began. */
    method SweepBlock(ghost g: Graph, b: nat, start: Bits, dest: Bits, barred: set<nat>, useQ2AsZ: bool)
      returns (cpDest: Bits, changed: bool)
      requires IsTable(g, table) && |blocks| == |g| && b < |g| && blocks[b] == g[b]
      requires Untouched(g, table.index, blocks, dest)
      modifies this`blocks
      ensures |blocks| == |g| && forall d :: 0 <= d < |g| && d != b ==> blocks[d] == old(blocks)[d]
      ensures var r := PropagateFrom(g, Setting(table, barred, useQ2AsZ), b, 0, start, dest);
        blocks[b] == g[b].(ics := r.0) && cpDest == r.1
      ensures Untouched(g, table.index, blocks, cpDest)
      ensures changed <==> blocks[b] != g[b]
    {
      ghost var c := Setting(table, barred, useQ2AsZ);
      var cpAct := start;
      cpDest := dest;
      changed := false;
      var p := 0;
      assert [] + PropagateFrom(g, c, b, 0, start, dest).0 == PropagateFrom(g, c, b, 0, start, dest).0;
      while p < |blocks[b].ics|
        invariant |blocks| == |g| && blocks[b].branchout == g[b].branchout
        invariant forall d :: 0 <= d < |g| && d != b ==> blocks[d] == old(blocks)[d]
        invariant SweptUpTo(g, c, b, start, dest, blocks[b].ics, p, cpAct, cpDest)
        invariant Untouched(g, table.index, blocks, cpDest)
        invariant changed <==> blocks[b].ics != g[b].ics
        decreases |blocks[b].ics| - p
      {
        ghost var before := blocks[b].ics;
        var ic := blocks[b].ics[p];
        assert ic == blocks[b].ics[p..][0] == g[b].ics[p..][0];
        var ic' := Rewrite(g, ic, cpAct, cpDest, barred, useQ2AsZ);
        SweptStep(g, c, b, start, dest, before, p, cpAct, cpDest, ic');
        ghost var dest0 := cpDest;
        if ic' != ic && table.index[b][p].Some? {
          cpDest := cpDest + {table.index[b][p].value};
        }
        assert cpDest == MarkChanged(table.index[b][p], ic' != ic, dest0);
        StillUntouched(g, table.index, blocks, b, p, ic', dest0, cpDest);
        blocks := blocks[b := blocks[b].(ics := blocks[b].ics[p := ic'])];
        cpAct := After(EffectOf(ic, table.index[b][p], table.copies), KillFirst, cpAct);
        changed := changed || ic' != ic;
        p := p + 1;
      }
      assert blocks[b].ics[..p] == blocks[b].ics && blocks[b].ics + [] == blocks[b].ics;
    }

    /** The replacement of one instruction's operands. */
    method Rewrite(ghost g: Graph, ic: IC, act: Bits, dest: Bits, barred: set<nat>, useQ2AsZ: bool) returns (r: IC)
      requires IsTable(g, table) && |blocks| == |g| && Untouched(g, table.index, blocks, dest)
      ensures r == PropagateIC(g, Setting(table, barred, useQ2AsZ), ic, act, dest)
    {
      r := ic;
      if ic.Assign? || ic.Arith? || ic.Compare? {
        var q1 := Replace(g, ic.q1, act, dest, barred, useQ2AsZ);
        r := r.(q1 := q1);
        if !ic.Assign? {
          var q2 := Replace(g, ic.q2, act, dest, barred, useQ2AsZ);
          if !useQ2AsZ && ic.Arith? && q2 == Var(ic.z) {
            q2 := ic.q2;
          }
          r := r.(q2 := q2);
        }
      }
    }

    /** cprop: searches the copies in the order of their numbers. */
    method Replace(ghost g: Graph, o: Operand, act: Bits, dest: Bits, barred: set<nat>, ghost useQ2AsZ: bool)
      returns (r: Operand)
      requires IsTable(g, table) && |blocks| == |g| && Untouched(g, table.index, blocks, dest)
      ensures r == CProp(g, Setting(table, barred, useQ2AsZ), o, act, dest)
    {
      r := o;
      if o.Var? && o.v < |table.copies| {
        ghost var c := Setting(table, barred, useQ2AsZ);
        var tmp := act * table.copies[o.v] - dest;
        var i := 0;
        while i < |table.clist|
          invariant 0 <= i <= |table.clist|
          invariant FirstCopy(g, c, tmp, o.v, i) == FirstCopy(g, c, tmp, o.v, 0)
        {
          if i in tmp {
            CandidateIsOriginal(g, table, blocks, dest, o.v, i);
            var (b, k) := table.clist[i];
            if CanReplace(blocks[b].ics[k], o.v, barred) {
              r := blocks[b].ics[k].q1;
              return;
            }
          }
          i := i + 1;
        }
      }
    }
  }

  lemma CopyProblemWellPosed(g: Graph, t: Table)
    requires WellFormed(g) && IsTable(g, t)
    ensures WellPosed(CopyProblem(g, t, Numbering.UpTo(|t.clist|)))
  {
    var universe := Numbering.UpTo(|t.clist|);
    var p := CopyProblem(g, t, universe);
    forall b | 0 <= b < |g|
      ensures EffectsFit(p, b)
    {
      forall k | 0 <= k < |p.effects[b]|
        ensures Own(p.effects[b][k]) + p.effects[b][k].kills <= universe
      {
        var ic := g[b].ics[k];
        assert p.effects[b][k] == EffectOf(ic, t.index[b][k], t.copies);
        if t.index[b][k].Some? {
          assert Carries(g, t.index, b, k, t.index[b][k].value);
        }
        forall i | i in p.effects[b][k].kills
          ensures i in universe
        {
          assert i in t.copies[ic.z];
          var c, m :| Carries(g, t.index, c, m, i) && ic.z in Mentions(g[c].ics[m]);
        }
      }
    }
  }

  /** Copies whose numbers are outside dest are as they were in g. */
  ghost predicate Untouched(g: Graph, index: Numbers, now: Graph, dest: Bits)
    requires Fits(g, index)
  {
    && |now| == |g|
    && (forall b :: 0 <= b < |g| ==> |now[b].ics| == |g[b].ics|)
    && (forall b, k, i: nat :: Carries(g, index, b, k, i) && i !in dest ==> now[b].ics[k] == g[b].ics[k])
  }

  lemma StillUntouched(g: Graph, index: Numbers, now: Graph, b: nat, p: nat, ic: IC, dest: Bits, dest': Bits)
    requires Fits(g, index) && b < |g| && p < |g[b].ics| && Untouched(g, index, now, dest)
    requires dest' == MarkChanged(index[b][p], ic != g[b].ics[p], dest)
    ensures Untouched(g, index, now[b := now[b].(ics := now[b].ics[p := ic])], dest')
  {
  }

  lemma CandidateIsOriginal(g: Graph, t: Table, now: Graph, dest: Bits, v: nat, i: nat)
    requires IsTable(g, t) && Untouched(g, t.index, now, dest)
    requires v < |t.copies| && i in t.copies[v] && i !in dest && i < |t.clist|
    ensures var (b, k) := t.clist[i]; b < |g| && k < |g[b].ics| && now[b].ics[k] == g[b].ics[k]
  {
    var c, m :| Carries(g, t.index, c, m, i) && v in Mentions(g[c].ics[m]);
    assert Carries(g, t.index, t.clist[i].0, t.clist[i].1, i);
  }

  /** ics is block b with the instructions before p swept and the rest as it was. */
  ghost predicate SweptUpTo(
      g: Graph, c: Setting, b: nat, start: Bits, dest0: Bits, ics: seq<IC>, p: nat, act: Bits, dest: Bits)
    requires Fits(g, c.table.index) && b < |g|
  {
    && p <= |ics| == |g[b].ics|
    && ics[p..] == g[b].ics[p..]
    && ics[..p] + PropagateFrom(g, c, b, p, act, dest).0 == PropagateFrom(g, c, b, 0, start, dest0).0
    && PropagateFrom(g, c, b, p, act, dest).1 == PropagateFrom(g, c, b, 0, start, dest0).1
  }

  lemma SweptStep(
      g: Graph, c: Setting, b: nat, start: Bits, dest0: Bits, ics: seq<IC>, p: nat, act: Bits, dest: Bits, ic': IC)
    requires Fits(g, c.table.index) && b < |g| && p < |g[b].ics|
    requires SweptUpTo(g, c, b, start, dest0, ics, p, act, dest)
    requires ic' == PropagateIC(g, c, g[b].ics[p], act, dest)
    ensures SweptUpTo(g, c, b, start, dest0, ics[p := ic'], p + 1,
      After(EffectOf(g[b].ics[p], c.table.index[b][p], c.table.copies), KillFirst, act),
      MarkChanged(c.table.index[b][p], ic' != g[b].ics[p], dest))
  {
    var ic, number := g[b].ics[p], c.table.index[b][p];
    var rest := PropagateFrom(g, c, b, p + 1, After(EffectOf(ic, number, c.table.copies), KillFirst, act),
                              MarkChanged(number, ic' != ic, dest));
    assert PropagateFrom(g, c, b, p, act, dest) == ([ic'] + rest.0, rest.1);
    assert ics[p := ic'][..p + 1] + rest.0 == ics[..p] + ([ic'] + rest.0);
    assert ics[p := ic'][p + 1..] == ics[p..][1..];
    assert g[b].ics[p + 1..] == g[b].ics[p..][1..];
  }

  lemma KeysIdentify(ics: seq<IC>, keys: seq<Numbering.Key>)
    requires |keys| == |ics| && forall j :: 0 <= j < |ics| ==> IsCopy(ics[j]) && keys[j] == KeyOf(ics[j])
    ensures forall i, j :: 0 <= i < |ics| && 0 <= j < |ics| ==> (keys[i] == keys[j] <==> ics[i] == ics[j])
  {
    forall i, j | 0 <= i < |ics| && 0 <= j < |ics|
      ensures keys[i] == keys[j] <==> ics[i] == ics[j]
    {
      assert keys[i] == keys[j] ==> keys[i][0] == keys[j][0] && keys[i][1] == keys[j][1];
    }
  }

  /** The instructions behind the collected positions. */
  method Fetch(g: Graph, ghost initial: Numbers, pos: seq<(nat, nat)>) returns (ics: seq<IC>)
    requires ListsCopies(g, initial, pos)
    ensures |ics| == |pos|
    ensures forall j :: 0 <= j < |pos| ==>
      Carries(g, initial, pos[j].0, pos[j].1, j) && ics[j] == g[pos[j].0].ics[pos[j].1] && IsCopy(ics[j])
  {
    ics := [];
    while |ics| < |pos|
      invariant |ics| <= |pos|
      invariant forall j :: 0 <= j < |ics| ==>
        Carries(g, initial, pos[j].0, pos[j].1, j) && ics[j] == g[pos[j].0].ics[pos[j].1] && IsCopy(ics[j])
    {
      var j := |ics|;
      assert Carries(g, initial, pos[j].0, pos[j].1, j);
      ics := ics + [g[pos[j].0].ics[pos[j].1]];
    }
  }

  /** One of the first n positions with number i represents it. */
  ghost predicate IsRepresented(pos: seq<(nat, nat)>, renumber: seq<nat>, clist: seq<(nat, nat)>, i: nat, n: nat)
    requires n <= |pos| == |renumber| && i < |clist|
  {
    exists m :: 0 <= m < n && renumber[m] == i && clist[i] == pos[m]
  }

  /** Back into program order: the last copy with a number represents it. */
  method Representatives(pos: seq<(nat, nat)>, renumber: seq<nat>) returns (clist: seq<(nat, nat)>)
    requires |renumber| == |pos| && forall j :: 0 <= j < |pos| ==> renumber[j] < |pos|
    ensures |clist| == |pos|
    ensures forall i :: 0 <= i < |pos| ==> IsRepresented(pos, renumber, clist, renumber[i], |pos|)
  {
    clist := pos;
    var j := 0;
    while j < |pos|
      invariant 0 <= j <= |pos| == |clist|
      invariant forall i :: 0 <= i < j ==> IsRepresented(pos, renumber, clist, renumber[i], j)
    {
      ghost var before := clist;
      clist := clist[renumber[j] := pos[j]];
      forall i | 0 <= i <= j
        ensures IsRepresented(pos, renumber, clist, renumber[i], j + 1)
      {
        if renumber[i] != renumber[j] {
          assert IsRepresented(pos, renumber, before, renumber[i], j);
          var m :| 0 <= m < j && renumber[m] == renumber[i] && before[renumber[i]] == pos[m];
          assert clist[renumber[i]] == pos[m];
        }
      }
      j := j + 1;
    }
  }

  /** Last loop of num_copies: the copies every variable takes part in. */
  method CopiesByVariable(ics: seq<IC>, renumber: seq<nat>, vcount: nat) returns (copies: seq<Bits>)
    requires |renumber| == |ics|
    requires forall j :: 0 <= j < |ics| ==> IsCopy(ics[j]) && ics[j].z < vcount && ics[j].q1.v < vcount
    ensures |copies| == vcount
    ensures forall v, i: nat :: 0 <= v < vcount ==>
      (i in copies[v] <==> exists m :: 0 <= m < |ics| && renumber[m] == i && v in Mentions(ics[m]))
  {
    copies := seq(vcount, _ => {});
    var j := 0;
    while j < |ics|
      invariant 0 <= j <= |ics| && |copies| == vcount
      invariant forall v, i: nat :: 0 <= v < vcount ==>
        (i in copies[v] <==> exists m :: 0 <= m < j && renumber[m] == i && v in Mentions(ics[m]))
    {
      var ic := ics[j];
      ghost var before := copies;
      copies := copies[ic.z := copies[ic.z] + {renumber[j]}];
      copies := copies[ic.q1.v := copies[ic.q1.v] + {renumber[j]}];
      forall v, i: nat | 0 <= v < vcount
        ensures i in copies[v] <==> exists m :: 0 <= m <= j && renumber[m] == i && v in Mentions(ics[m])
      {
        assert i in copies[v] <==> i in before[v] || (v in Mentions(ic) && i == renumber[j]);
      }
      j := j + 1;
    }
  }

  ghost predicate IsNumbered(
      g: Graph, initial: Numbers, pos: seq<(nat, nat)>, ics: seq<IC>, renumber: seq<nat>, index: Numbers)
  {
    && ListsCopies(g, initial, pos) && |renumber| == |pos| == |ics|
    && index == Renumbered(initial, renumber)
    && (forall j :: 0 <= j < |pos| ==>
          Carries(g, initial, pos[j].0, pos[j].1, j) && ics[j] == g[pos[j].0].ics[pos[j].1] && IsCopy(ics[j]))
    && (forall i, j :: 0 <= i < |ics| && 0 <= j < |ics| ==> (renumber[i] == renumber[j] <==> ics[i] == ics[j]))
  }

  /** The collected copy that gave a position its number. */
  lemma Origin(
      g: Graph, initial: Numbers, pos: seq<(nat, nat)>, ics: seq<IC>, renumber: seq<nat>, index: Numbers, b: int,
      k: int, i: nat)
    returns (j: nat)
    requires IsNumbered(g, initial, pos, ics, renumber, index) && Fits(g, index) && Carries(g, index, b, k, i)
    ensures j < |pos| && pos[j] == (b, k) && renumber[j] == i && ics[j] == g[b].ics[k]
  {
    j := initial[b][k].value;
    assert Carries(g, initial, b, k, j);
  }

  lemma Numbered(
      g: Graph, initial: Numbers, pos: seq<(nat, nat)>, ics: seq<IC>, renumber: seq<nat>, index: Numbers, j: nat)
    requires IsNumbered(g, initial, pos, ics, renumber, index) && Fits(g, index) && j < |pos|
    ensures Carries(g, index, pos[j].0, pos[j].1, renumber[j])
  {
    assert Carries(g, initial, pos[j].0, pos[j].1, j);
  }

  lemma RepresentativesCarry(
      g: Graph, initial: Numbers, pos: seq<(nat, nat)>, ics: seq<IC>, renumber: seq<nat>, t: Table, b: int, k: int,
      i: nat)
    requires IsNumbered(g, initial, pos, ics, renumber, t.index) && |t.clist| == |pos| && Fits(g, t.index)
    requires forall j :: 0 <= j < |pos| ==> renumber[j] < |pos|
    requires forall j :: 0 <= j < |pos| ==> IsRepresented(pos, renumber, t.clist, renumber[j], |pos|)
    requires Carries(g, t.index, b, k, i)
    ensures i < |t.clist| && Carries(g, t.index, t.clist[i].0, t.clist[i].1, i)
    ensures g[t.clist[i].0].ics[t.clist[i].1] == g[b].ics[k]
  {
    var j := Origin(g, initial, pos, ics, renumber, t.index, b, k, i);
    assert IsRepresented(pos, renumber, t.clist, renumber[j], |pos|);
    var m :| 0 <= m < |pos| && renumber[m] == i && t.clist[i] == pos[m];
    Numbered(g, initial, pos, ics, renumber, t.index, m);
    assert ics[m] == ics[j];
  }

  lemma EqualCopiesEqualNumbers(
      g: Graph, initial: Numbers, pos: seq<(nat, nat)>, ics: seq<IC>, renumber: seq<nat>, t: Table)
    requires IsNumbered(g, initial, pos, ics, renumber, t.index) && Fits(g, t.index)
    ensures forall b, k, c, m, i: nat, j: nat :: Carries(g, t.index, b, k, i) && Carries(g, t.index, c, m, j) ==>
      (i == j <==> g[b].ics[k] == g[c].ics[m])
  {
    forall b, k, c, m, i: nat, j: nat | Carries(g, t.index, b, k, i) && Carries(g, t.index, c, m, j)
      ensures i == j <==> g[b].ics[k] == g[c].ics[m]
    {
      var i0 := Origin(g, initial, pos, ics, renumber, t.index, b, k, i);
      var j0 := Origin(g, initial, pos, ics, renumber, t.index, c, m, j);
    }
  }

  lemma CopiesByVariableComplete(
      g: Graph, initial: Numbers, pos: seq<(nat, nat)>, ics: seq<IC>, renumber: seq<nat>, t: Table, v: nat, i: nat)
    requires IsNumbered(g, initial, pos, ics, renumber, t.index) && Fits(g, t.index) && v < |t.copies|
    requires i in t.copies[v] <==> exists m :: 0 <= m < |ics| && renumber[m] == i && v in Mentions(ics[m])
    ensures i in t.copies[v] <==> exists b, k :: Carries(g, t.index, b, k, i) && v in Mentions(g[b].ics[k])
  {
    if i in t.copies[v] {
      var m :| 0 <= m < |ics| && renumber[m] == i && v in Mentions(ics[m]);
      Numbered(g, initial, pos, ics, renumber, t.index, m);
    }
    if exists b, k :: Carries(g, t.index, b, k, i) && v in Mentions(g[b].ics[k]) {
      var b, k :| Carries(g, t.index, b, k, i) && v in Mentions(g[b].ics[k]);
      var m := Origin(g, initial, pos, ics, renumber, t.index, b, k, i);
    }
  }

  lemma NumberedExactlyCopies(
      g: Graph, initial: Numbers, pos: seq<(nat, nat)>, ics: seq<IC>, renumber: seq<nat>, index: Numbers, b: nat,
      k: nat)
    requires IsNumbered(g, initial, pos, ics, renumber, index) && Fits(g, index) && b < |g| && k < |g[b].ics|
    ensures index[b][k].Some? <==> IsCopy(g[b].ics[k])
  {
    if initial[b][k].Some? {
      assert Carries(g, initial, b, k, initial[b][k].value);
    }
  }

  lemma TableIsComplete(
      g: Graph, initial: Numbers, pos: seq<(nat, nat)>, ics: seq<IC>, renumber: seq<nat>, t: Table)
    requires IsNumbered(g, initial, pos, ics, renumber, t.index) && |t.clist| == |pos|
    requires forall j :: 0 <= j < |pos| ==> renumber[j] < |pos|
    requires forall j :: 0 <= j < |pos| ==> IsRepresented(pos, renumber, t.clist, renumber[j], |pos|)
    requires forall v, i: nat :: 0 <= v < |t.copies| ==>
      (i in t.copies[v] <==> exists m :: 0 <= m < |ics| && renumber[m] == i && v in Mentions(ics[m]))
    requires forall b, k :: 0 <= b < |g| && 0 <= k < |g[b].ics| ==>
      forall v :: v in Mentions(g[b].ics[k]) ==> v < |t.copies|
    ensures IsTable(g, t)
  {
    forall b, k, i: nat | Carries(g, t.index, b, k, i)
      ensures i < |t.clist| && Carries(g, t.index, t.clist[i].0, t.clist[i].1, i)
      ensures g[t.clist[i].0].ics[t.clist[i].1] == g[b].ics[k]
    {
      RepresentativesCarry(g, initial, pos, ics, renumber, t, b, k, i);
    }
    EqualCopiesEqualNumbers(g, initial, pos, ics, renumber, t);
    forall v, i: nat | 0 <= v < |t.copies|
      ensures i in t.copies[v] <==> exists b, k :: Carries(g, t.index, b, k, i) && v in Mentions(g[b].ics[k])
    {
      CopiesByVariableComplete(g, initial, pos, ics, renumber, t, v, i);
    }
    forall b, k | 0 <= b < |g| && 0 <= k < |g[b].ics|
      ensures t.index[b][k].Some? <==> IsCopy(g[b].ics[k])
    {
      NumberedExactlyCopies(g, initial, pos, ics, renumber, t.index, b, k);
    }
  }
}
