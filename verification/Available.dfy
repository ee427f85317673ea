/** Forward analyses over all paths: available copies (c/vbcc/cp.c) and available
    expressions (c/vbcc/cse.c). The two differ only in whether an instruction's own
    number survives its own change. */
module Available {
  import opened BitSets
  import opened IntermediateCode
  import opened Options

  /** What one instruction does to the set of available numbers. */
  datatype Effect = Effect(index: Option<nat>, kills: Bits)

  /** A copy z = q is available after itself although it changes z; an expression
      z = q1 op q2 is not if it changes one of its own operands. */
  datatype Order = KillFirst | KillLast

  function Own(e: Effect): Bits {
    if e.index.Some? then {e.index.value} else {}
  }

  /** Reference definition: what is available after one instruction. */
  function After(e: Effect, order: Order, before: Bits): Bits {
    match order
    case KillFirst => (before - e.kills) + Own(e)
    case KillLast => (before + Own(e)) - e.kills
  }

  /** What an instruction with that number does, if a change of v kills killedBy[v]. */
  function EffectOf(ic: IC, number: Option<nat>, killedBy: seq<Bits>): Effect {
    Effect(number, if Defines(ic) && ic.z < |killedBy| then killedBy[ic.z] else {})
  }

  function EffectsOf(ics: seq<IC>, numbers: seq<Option<nat>>, killedBy: seq<Bits>): (es: seq<Effect>)
    requires |ics| == |numbers|
    ensures |es| == |ics|
    ensures forall k :: 0 <= k < |es| ==> es[k] == EffectOf(ics[k], numbers[k], killedBy)
  {
    seq(|ics|, k requires 0 <= k < |ics| => EffectOf(ics[k], numbers[k], killedBy))
  }

  function AfterAll(es: seq<Effect>, order: Order, before: Bits): Bits {
    if es == [] then before else AfterAll(es[1..], order, After(es[0], order, before))
  }

  /** One step of the backward scan that summarises a block. */
  function SummaryStep(e: Effect, order: Order, gen: Bits, kill: Bits): (r: (Bits, Bits)) {
    match order
    case KillFirst =>
      var gen' := gen + (Own(e) - kill);
      (gen', kill + (e.kills - gen'))
    case KillLast =>
      var kill' := kill + (e.kills - gen);
      (gen + (Own(e) - kill'), kill')
  }

  function Summary(es: seq<Effect>, order: Order): (r: (Bits, Bits)) {
    if es == [] then ({}, {})
    else
      var (gen, kill) := Summary(es[1..], order);
      SummaryStep(es[0], order, gen, kill)
  }

  /** The backward summary describes the forward composition, and no number is both
      generated and killed by a block. */
  lemma {:induction false} SummaryIsAfterAll(es: seq<Effect>, order: Order, before: Bits)
    ensures var (gen, kill) := Summary(es, order);
      gen !! kill && gen + (before - kill) == AfterAll(es, order, before)
  {
    if es != [] {
      SummaryIsAfterAll(es[1..], order, After(es[0], order, before));
      var (gen, kill) := Summary(es[1..], order);
      var (gen', kill') := SummaryStep(es[0], order, gen, kill);
      assert gen' + (before - kill') == gen + (After(es[0], order, before) - kill);
    }
  }

  lemma {:induction false} AfterAllAppend(a: seq<Effect>, b: seq<Effect>, order: Order, before: Bits)
    ensures AfterAll(a + b, order, before) == AfterAll(b, order, AfterAll(a, order, before))
  {
    if a == [] {
      assert a + b == b;
    } else {
      assert (a + b)[1..] == a[1..] + b;
      AfterAllAppend(a[1..], b, order, After(a[0], order, before));
    }
  }

  lemma {:induction false} SummaryBounded(es: seq<Effect>, order: Order, universe: Bits)
    requires forall k :: 0 <= k < |es| ==> Own(es[k]) + es[k].kills <= universe
    ensures Summary(es, order).0 <= universe
  {
    if es != [] {
      assert Own(es[0]) + es[0].kills <= universe;
      SummaryBounded(es[1..], order, universe);
    }
  }

  // ----- the dataflow equations -----

  /** A flow graph together with what its instructions do. */
  datatype Problem = Problem(g: Graph, effects: seq<seq<Effect>>, order: Order, universe: Bits)

  ghost predicate WellPosed(p: Problem) {
    && WellFormed(p.g)
    && |p.effects| == |p.g|
    && forall b :: 0 <= b < |p.g| ==> EffectsFit(p, b)
  }

  ghost predicate EffectsFit(p: Problem, b: nat)
    requires b < |p.g| == |p.effects|
  {
    && |p.effects[b]| == |p.g[b].ics|
    && forall k :: 0 <= k < |p.effects[b]| ==>
      Own(p.effects[b][k]) + p.effects[b][k].kills <= p.universe
  }

  ghost predicate HasPredecessor(g: Graph, b: nat) {
    exists c :: 0 <= c < |g| && IsEdge(g, c, b)
  }

  /** Available at the start of a block: available at the end of all predecessors.
      Nothing is available at the start of the function, nor in a block that no
      other block leads to. */
  ghost function In(p: Problem, out: seq<Bits>, b: nat): Bits
    requires WellPosed(p) && |out| == |p.g| && b < |p.g|
  {
    if b == 0 || !HasPredecessor(p.g, b) then {}
    else set i | i in p.universe && forall c :: 0 <= c < |p.g| && IsEdge(p.g, c, b) ==> i in out[c]
  }

  ghost function Out(p: Problem, out: seq<Bits>, b: nat): Bits
    requires WellPosed(p) && |out| == |p.g| && b < |p.g|
  {
    AfterAll(p.effects[b], p.order, In(p, out, b))
  }

  ghost predicate IsSolution(p: Problem, out: seq<Bits>)
    requires WellPosed(p)
  {
    |out| == |p.g| && forall b :: 0 <= b < |p.g| ==> out[b] == Out(p, out, b)
  }

  /** The equations hold as inclusions, within the universe; every solution within
      the universe satisfies this. */
  ghost predicate IsSupported(p: Problem, out: seq<Bits>)
    requires WellPosed(p)
  {
    |out| == |p.g| && forall b :: 0 <= b < |p.g| ==> out[b] <= Out(p, out, b)
  }

  lemma OutMonotone(p: Problem, a: seq<Bits>, c: seq<Bits>, b: nat)
    requires WellPosed(p) && |a| == |p.g| && Below(a, c) && b < |p.g|
    ensures Out(p, a, b) <= Out(p, c, b)
  {
    SummaryIsAfterAll(p.effects[b], p.order, In(p, a, b));
    SummaryIsAfterAll(p.effects[b], p.order, In(p, c, b));
  }

  lemma OutBounded(p: Problem, out: seq<Bits>, b: nat)
    requires WellPosed(p) && |out| == |p.g| && b < |p.g|
    ensures Out(p, out, b) <= p.universe - Summary(p.effects[b], p.order).1
  {
    assert EffectsFit(p, b);
    SummaryIsAfterAll(p.effects[b], p.order, In(p, out, b));
    SummaryBounded(p.effects[b], p.order, p.universe);
  }

  /** What holds throughout the iteration: the approximation can only fall and stays
      above everything supported. */
  ghost predicate Falling(p: Problem, out: seq<Bits>)
    requires WellPosed(p)
  {
    && |out| == |p.g|
    && (forall b :: 0 <= b < |p.g| ==> out[b] <= p.universe)
    && (forall b :: 0 <= b < |p.g| ==> Out(p, out, b) <= out[b])
    && (forall other :: IsSupported(p, other) ==> Below(other, out))
    && out[0] == Out(p, out, 0)
  }

  lemma UpdateKeepsFalling(p: Problem, out: seq<Bits>, b: nat, x: Bits)
    requires WellPosed(p) && Falling(p, out)
    requires 0 < b < |p.g| && x == Out(p, out, b) && x != out[b]
    ensures Falling(p, out[b := x])
    ensures Size(out[b := x]) < Size(out)
  {
    var next := out[b := x];
    assert Below(next, out);
    forall c | 0 <= c < |p.g|
      ensures Out(p, next, c) <= next[c]
    {
      OutMonotone(p, next, out, c);
    }
    forall other | IsSupported(p, other)
      ensures Below(other, next)
    {
      OutMonotone(p, other, out, b);
    }
    SizeUpdate(out, b, x);
    SubsetCard(x, out[b]);
  }

  /** The list of predecessors as the flow graph keeps it: the block before in the
      list, and every block with a branch to this one. */
  ghost predicate IsPredecessorList(g: Graph, b: nat, preds: seq<nat>) {
    && (forall k :: 0 <= k < |preds| ==>
          preds[k] < |g| && (preds[k] + 1 == b || g[preds[k]].branchout == Some(b)))
    && (forall c :: 0 <= c < |g| && IsEdge(g, c, b) ==> c in preds)
  }

  class Analysis {
    const p: Problem
    const preds: seq<seq<nat>>
    var gen: seq<Bits>
    var kill: seq<Bits>
    var ins: seq<Bits>
    var outs: seq<Bits>

    constructor (p: Problem, preds: seq<seq<nat>>)
      ensures this.p == p && this.preds == preds
    {
      this.p, this.preds := p, preds;
      gen, kill, ins, outs := [], [], [], [];
    }

    ghost predicate Valid()
      reads this
    {
      && WellPosed(p)
      && |preds| == |p.g|
      && forall b :: 0 <= b < |p.g| ==> IsPredecessorList(p.g, b, preds[b])
    }

    ghost predicate Summarised()
      reads this
    {
      && |gen| == |kill| == |p.effects|
      && forall b :: 0 <= b < |p.effects| ==> (gen[b], kill[b]) == Summary(p.effects[b], p.order)
    }

    /** The first loop: every block is scanned from its end. */
    method SummariseBlocks()
      modifies this`gen, this`kill
      ensures Summarised()
    {
      gen, kill := [], [];
      var b := 0;
      while b < |p.effects|
        invariant b == |gen| == |kill| <= |p.effects|
        invariant forall c :: 0 <= c < b ==> (gen[c], kill[c]) == Summary(p.effects[c], p.order)
      {
        var g1, k1: Bits := {}, {};
        var i := |p.effects[b]|;
        while i > 0
          invariant 0 <= i <= |p.effects[b]|
          invariant (g1, k1) == Summary(p.effects[b][i..], p.order)
        {
          i := i - 1;
          assert p.effects[b][i..][1..] == p.effects[b][i + 1..];
          var r := SummaryStep(p.effects[b][i], p.order, g1, k1);
          g1, k1 := r.0, r.1;
        }
        assert p.effects[b][0..] == p.effects[b];
        gen, kill := gen + [g1], kill + [k1];
        b := b + 1;
      }
    }

    /** Iterates until nothing changes. The result is the greatest solution. */
    method Analyse()
      requires Valid()
      modifies this`gen, this`kill, this`ins, this`outs
      ensures |ins| == |p.g| && IsSolution(p, outs)
      ensures forall b :: 0 <= b < |p.g| ==> ins[b] == In(p, outs, b)
      ensures forall other :: IsSupported(p, other) ==> Below(other, outs)
    {
      SummariseBlocks();
      ins := seq(|p.g|, _ => {});
      var gen0, kills, all := gen[0], kill, p.universe;
      outs := seq(|p.g|, b requires 0 <= b < |kills| => if b == 0 then gen0 else all - kills[b]);
      StartFalls();
      var changed := true;
      while changed
        invariant Summarised() && |ins| == |p.g| && Falling(p, outs) && OldInsEmpty()
        invariant !changed ==> IsSolution(p, outs) && forall b :: 0 <= b < |p.g| ==> ins[b] == In(p, outs, b)
        decreases Size(outs), changed
      {
        changed := Pass();
      }
    }

    /** Blocks without predecessors are never assigned an in set. */
    ghost predicate OldInsEmpty()
      reads this
    {
      |ins| == |p.g| && forall b :: 0 <= b < |p.g| && (b == 0 || !HasPredecessor(p.g, b)) ==> ins[b] == {}
    }

    lemma StartFalls()
      requires Valid() && Summarised() && |outs| == |p.g|
      requires forall b :: 0 <= b < |p.g| ==> outs[b] == if b == 0 then gen[0] else p.universe - kill[b]
      ensures Falling(p, outs)
    {
      forall b | 0 <= b < |p.g|
        ensures Out(p, outs, b) <= outs[b] <= p.universe
        ensures b == 0 ==> outs[b] == Out(p, outs, b)
      {
        OutBounded(p, outs, b);
        SummaryIsAfterAll(p.effects[b], p.order, In(p, outs, b));
      }
      forall other | IsSupported(p, other)
        ensures Below(other, outs)
      {
        forall b | 0 <= b < |p.g|
          ensures other[b] <= outs[b]
        {
          OutBounded(p, other, b);
          SummaryIsAfterAll(p.effects[b], p.order, In(p, other, b));
        }
      }
    }

    /** One round over all blocks but the first. */
    method Pass() returns (changed: bool)
      requires Valid() && Summarised() && Falling(p, outs) && OldInsEmpty()
      modifies this`ins, this`outs
      ensures |ins| == |p.g| && Falling(p, outs) && OldInsEmpty()
      ensures !changed ==> outs == old(outs) && IsSolution(p, outs)
      ensures !changed ==> forall b :: 0 <= b < |p.g| ==> ins[b] == In(p, outs, b)
      ensures changed ==> Size(outs) < Size(old(outs))
    {
      changed := false;
      var b := 1;
      while b < |p.g|
        invariant 1 <= b <= |p.g| == |ins| && Falling(p, outs) && OldInsEmpty()
        invariant !changed ==> outs == old(outs)
        invariant !changed ==> forall c :: 0 <= c < b ==> outs[c] == Out(p, outs, c) && ins[c] == In(p, outs, c)
        invariant changed ==> Size(outs) < Size(old(outs))
      {
        var c := Visit(b);
        changed := changed || c;
        b := b + 1;
      }
    }

    method Visit(b: nat) returns (changed: bool)
      requires Valid() && Summarised() && Falling(p, outs) && OldInsEmpty() && 0 < b < |p.g|
      modifies this`ins, this`outs
      ensures Falling(p, outs) && OldInsEmpty()
      ensures outs == old(outs)[b := Out(p, old(outs), b)]
      ensures ins == old(ins)[b := In(p, old(outs), b)]
      ensures changed <==> outs != old(outs)
      ensures changed ==> Size(outs) < Size(old(outs))
    {
      hide Summary, AfterAll, IsSupported;
      changed := false;
      var meet := MeetPredecessors(b);
      ins := ins[b := meet];
      var tmp := meet - kill[b] + gen[b];
      assert tmp == Out(p, outs, b) by {
        SummaryIsAfterAll(p.effects[b], p.order, meet);
      }
      if tmp != outs[b] {
        changed := true;
        UpdateKeepsFalling(p, outs, b, tmp);
        outs := outs[b := tmp];
      }
    }

    /** The intersection over the predecessor list, leaving out a block that stands
        before this one but ends in an unconditional branch elsewhere. */
    method MeetPredecessors(b: nat) returns (meet: Bits)
      requires Valid() && Falling(p, outs) && OldInsEmpty() && 0 < b < |p.g|
      ensures meet == In(p, outs, b)
    {
      meet := ins[b];
      var first := true;
      var k := 0;
      while k < |preds[b]|
        invariant 0 <= k <= |preds[b]|
        invariant first ==> meet == ins[b] && forall j :: 0 <= j < k ==> !IsEdge(p.g, preds[b][j], b)
        invariant !first ==> exists j :: 0 <= j < k && IsEdge(p.g, preds[b][j], b)
        invariant !first ==> forall i :: i in meet <==>
          forall j :: 0 <= j < k && IsEdge(p.g, preds[b][j], b) ==> i in outs[preds[b][j]]
      {
        var c := preds[b][k];
        if IsEdge(p.g, c, b) {
          if first {
            meet, first := outs[c], false;
          } else {
            meet := meet * outs[c];
          }
        }
        k := k + 1;
      }
      MeetIsIn(b, first, meet);
    }

    lemma MeetIsIn(b: nat, first: bool, meet: Bits)
      requires Valid() && Falling(p, outs) && OldInsEmpty() && 0 < b < |p.g|
      requires first ==> meet == ins[b] && forall j :: 0 <= j < |preds[b]| ==> !IsEdge(p.g, preds[b][j], b)
      requires !first ==> exists j :: 0 <= j < |preds[b]| && IsEdge(p.g, preds[b][j], b)
      requires !first ==> forall i :: i in meet <==>
        forall j :: 0 <= j < |preds[b]| && IsEdge(p.g, preds[b][j], b) ==> i in outs[preds[b][j]]
      ensures meet == In(p, outs, b)
    {
      assert IsPredecessorList(p.g, b, preds[b]);
      if first {
        assert !HasPredecessor(p.g, b);
      } else {
        var j :| 0 <= j < |preds[b]| && IsEdge(p.g, preds[b][j], b);
        forall i
          ensures i in meet <==> i in In(p, outs, b)
        {
          if i in In(p, outs, b) {
            assert forall k :: 0 <= k < |preds[b]| && IsEdge(p.g, preds[b][k], b) ==> i in outs[preds[b][k]];
          }
          if i in meet {
            assert i in outs[preds[b][j]];
            forall c | 0 <= c < |p.g| && IsEdge(p.g, c, b)
              ensures i in outs[c]
            {
              var k :| 0 <= k < |preds[b]| && preds[b][k] == c;
            }
          }
        }
      }
    }
  }
}
