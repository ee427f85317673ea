/** mark_reachable of c/vbcc/flow.c: the blocks that control can reach. */
module Reachability {
  import opened BitSets
  import opened IntermediateCode
  import opened Options

  /** Block c is n edges away from block b. */
  ghost predicate ReachesIn(g: Graph, b: nat, c: nat, n: nat)
    decreases n
  {
    b < |g| && c < |g| &&
    if n == 0 then b == c else exists d: nat :: d < |g| && ReachesIn(g, b, d, n - 1) && IsEdge(g, d, c)
  }

  ghost predicate Reachable(g: Graph, b: nat, c: nat) {
    exists n: nat :: ReachesIn(g, b, c, n)
  }

  lemma {:induction false} EdgeThenReaches(g: Graph, b: nat, d: nat, c: nat, n: nat)
    requires b < |g| && d < |g| && IsEdge(g, b, d) && ReachesIn(g, d, c, n)
    ensures ReachesIn(g, b, c, n + 1)
    decreases n
  {
    if n == 0 {
      assert ReachesIn(g, b, b, 0);
    } else {
      var e: nat :| e < |g| && ReachesIn(g, d, e, n - 1) && IsEdge(g, e, c);
      EdgeThenReaches(g, b, d, e, n - 1);
    }
  }

  lemma EdgeReaches(g: Graph, b: nat, d: nat)
    requires b < |g| && d < |g| && IsEdge(g, b, d)
    ensures forall c :: Reachable(g, d, c) ==> Reachable(g, b, c)
  {
    forall c | Reachable(g, d, c)
      ensures Reachable(g, b, c)
    {
      var n: nat :| ReachesIn(g, d, c, n);
      EdgeThenReaches(g, b, d, c, n);
    }
  }

  /** A set that is closed under edges contains all that its members reach. */
  lemma {:induction false} ClosedContains(g: Graph, s: set<nat>, b: nat, c: nat, n: nat)
    requires b in s && ReachesIn(g, b, c, n)
    requires forall d: nat, e: nat :: d in s && d < |g| && e < |g| && IsEdge(g, d, e) ==> e in s
    ensures c in s
    decreases n
  {
    if n > 0 {
      var d: nat :| d < |g| && ReachesIn(g, b, d, n - 1) && IsEdge(g, d, c);
      ClosedContains(g, s, b, d, n - 1);
    }
  }

  /** Every run stays in the blocks that the first one reaches. */
  lemma {:induction false} RunStaysReachable(g: Graph, sem: Sem, st: State, n: nat)
    requires WellFormed(g)
    ensures Run(g, sem, st, n).At? ==> Reachable(g, 0, Run(g, sem, st, n).block)
  {
    if n == 0 {
      assert ReachesIn(g, 0, 0, 0);
    } else if Run(g, sem, st, n).At? {
      var before := Run(g, sem, st, n - 1);
      RunStaysReachable(g, sem, st, n - 1);
      StepFollowsEdge(g, sem, before);
      var k: nat :| ReachesIn(g, 0, before.block, k);
      assert ReachesIn(g, 0, Run(g, sem, st, n).block, k + 1);
    }
  }

  /** The block indices of a flow graph; a negative one marks a reachable block. */
  class Marker {
    const g: Graph
    const index: array<int>

    constructor (g: Graph, index: array<int>)
      ensures this.g == g && this.index == index
    {
      this.g, this.index := g, index;
    }

    ghost predicate Valid()
      reads index
    {
      WellFormed(g) && index.Length == |g| && forall b :: 0 <= b < |g| ==> index[b] != 0
    }

    ghost function Marked(): (s: set<nat>)
      requires index.Length == |g|
      reads index
      ensures forall b: nat :: b in s <==> b < |g| && index[b] < 0
    {
      set b: nat | b < |g| && index[b] < 0
    }

    ghost function Unmarked(): (s: set<nat>)
      requires index.Length == |g|
      reads index
      ensures forall b: nat :: b in s <==> b < |g| && index[b] >= 0
    {
      set b: nat | b < |g| && index[b] >= 0
    }

    /** Blocks marked by a call are reached from its start, and when it ends their
        successors are marked as well. */
    method MarkReachable(b: nat)
      requires Valid() && b < |g| && index[b] > 0
      modifies index
      ensures Valid() && old(Marked()) <= Marked() && b in Marked()
      ensures forall c :: 0 <= c < |g| ==>
        index[c] == old(index[c]) || (old(index[c]) > 0 && index[c] == -old(index[c]))
      ensures forall c: nat :: c in Marked() && c !in old(Marked()) ==> Reachable(g, b, c)
      ensures forall c: nat, d: nat ::
        c in Marked() && c !in old(Marked()) && d < |g| && IsEdge(g, c, d) ==> d in Marked()
      decreases |Unmarked()|
    {
      hide WellFormed, IsEdge, Reachable;
      ghost var unmarked := Unmarked();
      BlockTarget(g, b);
      index[b] := -index[b];
      StartReaches(g, b);
      label marked: {}
      assert Unmarked() < unmarked;
      SubsetCard(Unmarked(), unmarked);
      if g[b].branchout.Some? && index[g[b].branchout.value] >= 0 {
        EdgeReaches(g, b, g[b].branchout.value);
        MarkReachable(g[b].branchout.value);
      }
      assert Unmarked() <= old@marked(Unmarked());
      SubsetCard(Unmarked(), old@marked(Unmarked()));
      if b + 1 < |g| && !EndsInBra(g[b]) && index[b + 1] >= 0 {
        EdgeReaches(g, b, b + 1);
        MarkReachable(b + 1);
      }
    }

    /** Exactly the blocks reachable from the first one are marked, and the numbers of
        the others are kept. */
    method MarkFromStart()
      requires Valid() && forall b :: 0 <= b < |g| ==> index[b] > 0
      modifies index
      ensures forall b :: 0 <= b < |g| ==> (index[b] < 0 <==> Reachable(g, 0, b))
      ensures forall b :: 0 <= b < |g| ==> index[b] == if Reachable(g, 0, b) then -old(index[b]) else old(index[b])
    {
      MarkReachable(0);
      forall b: nat | b < |g| && Reachable(g, 0, b)
        ensures index[b] < 0
      {
        var n: nat :| ReachesIn(g, 0, b, n);
        ClosedContains(g, Marked(), 0, b, n);
      }
    }
  }

  lemma BlockTarget(g: Graph, b: nat)
    requires WellFormed(g) && b < |g|
    ensures g[b].branchout.Some? ==> g[b].branchout.value < |g| && IsEdge(g, b, g[b].branchout.value)
    ensures b + 1 < |g| && !EndsInBra(g[b]) ==> IsEdge(g, b, b + 1)
    ensures forall d: nat :: IsEdge(g, b, d) ==>
      g[b].branchout == Some(d) || (d == b + 1 < |g| && !EndsInBra(g[b]))
  {
    assert WellFormedBlock(g[b], |g|);
  }

  lemma StartReaches(g: Graph, b: nat)
    requires b < |g|
    ensures Reachable(g, b, b)
  {
    assert ReachesIn(g, b, b, 0);
  }
}
