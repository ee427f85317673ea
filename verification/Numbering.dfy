/** Giving equal copies and equal expressions the same number: number all, sort by
    the comparison function, and pass numbers on between equal neighbours
    (num_copies in c/vbcc/cp.c, num_exp in c/vbcc/cse.c). */
module Numbering {

  /** What a comparison function looks at, field by field. */
  type Key = seq<int>

  predicate Leq(a: Key, b: Key) {
    if a == [] then true
    else if b == [] then false
    else a[0] < b[0] || (a[0] == b[0] && Leq(a[1..], b[1..]))
  }

  lemma {:induction false} LeqTotal(a: Key, b: Key)
    ensures Leq(a, b) || Leq(b, a)
  {
    if a != [] && b != [] && a[0] == b[0] {
      LeqTotal(a[1..], b[1..]);
    }
  }

  lemma {:induction false} LeqAntisymmetric(a: Key, b: Key)
    requires Leq(a, b) && Leq(b, a)
    ensures a == b
  {
    if a != [] && b != [] {
      LeqAntisymmetric(a[1..], b[1..]);
      assert a == [a[0]] + a[1..] && b == [b[0]] + b[1..];
    }
  }

  lemma {:induction false} LeqTransitive(a: Key, b: Key, c: Key)
    requires Leq(a, b) && Leq(b, c)
    ensures Leq(a, c)
  {
    if a != [] && a[0] == b[0] == c[0] {
      LeqTransitive(a[1..], b[1..], c[1..]);
    }
  }

  /** Different numbers, all below the length. */
  ghost predicate Distinct(order: seq<nat>) {
    && (forall a :: 0 <= a < |order| ==> order[a] < |order|)
    && (forall a, b :: 0 <= a < b < |order| ==> order[a] != order[b])
  }

  ghost predicate Ordered(keys: seq<Key>, order: seq<nat>)
    requires |order| <= |keys| && Distinct(order)
  {
    forall a, b :: 0 <= a < b < |order| ==> Leq(keys[order[a]], keys[order[b]])
  }

  /** A sort by the comparison function, standing for vqsort. */
  method Sort(keys: seq<Key>) returns (order: seq<nat>)
    ensures |order| == |keys| && Distinct(order) && Ordered(keys, order)
  {
    order := [];
    var n := 0;
    while n < |keys|
      invariant n == |order| <= |keys| && Distinct(order) && Ordered(keys, order)
    {
      var at := n;
      while at > 0 && !Leq(keys[order[at - 1]], keys[n])
        invariant 0 <= at <= n
        invariant forall b :: at <= b < n ==> Leq(keys[n], keys[order[b]])
      {
        LeqTotal(keys[order[at - 1]], keys[n]);
        at := at - 1;
      }
      InsertKeepsOrder(keys, order, at);
      order := order[..at] + [n] + order[at..];
      n := n + 1;
    }
  }

  lemma InsertKeepsOrder(keys: seq<Key>, order: seq<nat>, at: nat)
    requires |order| < |keys| && Distinct(order) && Ordered(keys, order) && at <= |order|
    requires at > 0 ==> Leq(keys[order[at - 1]], keys[|order|])
    requires forall b :: at <= b < |order| ==> Leq(keys[|order|], keys[order[b]])
    ensures var next := order[..at] + [|order|] + order[at..];
      Distinct(next) && Ordered(keys, next)
  {
    hide Leq;
    forall a | 0 <= a < at
      ensures Leq(keys[order[a]], keys[|order|])
    {
      if a < at - 1 {
        LeqTransitive(keys[order[a]], keys[order[at - 1]], keys[|order|]);
      }
    }
  }

  lemma OrderedIsGrouped(keys: seq<Key>, order: seq<nat>, a: nat, b: nat)
    requires |order| <= |keys| && Distinct(order) && Ordered(keys, order)
    requires a < b < |order| && keys[order[a]] == keys[order[b]]
    ensures keys[order[b - 1]] == keys[order[b]]
  {
    LeqAntisymmetric(keys[order[b - 1]], keys[order[b]]);
  }

  /** Equal entries at the sorted positions below n exactly where the keys agree. */
  ghost predicate SameAsKeys(keys: seq<Key>, order: seq<nat>, heads: seq<nat>)
    requires |heads| <= |order| <= |keys| && Distinct(order)
  {
    && (forall a :: 0 <= a < |heads| ==> heads[a] <= a)
    && (forall a, b :: 0 <= a < b < |heads| ==> (heads[a] == heads[b] <==> keys[order[a]] == keys[order[b]]))
  }

  lemma ExtendHeads(keys: seq<Key>, order: seq<nat>, heads: seq<nat>, h: nat)
    requires 0 < |heads| < |order| <= |keys| && Distinct(order) && Ordered(keys, order)
    requires SameAsKeys(keys, order, heads)
    requires h == if keys[order[|heads| - 1]] == keys[order[|heads|]] then heads[|heads| - 1] else |heads|
    ensures SameAsKeys(keys, order, heads + [h])
  {
    var c := |heads|;
    if keys[order[c - 1]] != keys[order[c]] {
      forall a | 0 <= a < c
        ensures keys[order[a]] != keys[order[c]]
      {
        if keys[order[a]] == keys[order[c]] {
          OrderedIsGrouped(keys, order, a, c);
        }
      }
    }
  }

  /** The entries before sorted position |heads| have their final number, the others
      still have their initial one. */
  ghost predicate Passed(order: seq<nat>, heads: seq<nat>, index: seq<nat>)
    requires |heads| <= |order| == |index| && Distinct(order)
  {
    && (forall a :: |heads| <= a < |order| ==> index[order[a]] == order[a])
    && (forall a {:trigger heads[a]} :: 0 <= a < |heads| ==>
          heads[a] <= a && index[order[a]] == order[heads[a]])
  }

  lemma PassStep(order: seq<nat>, heads: seq<nat>, index: seq<nat>, h: nat)
    requires |heads| < |order| == |index| && Distinct(order) && Passed(order, heads, index)
    requires h <= |heads|
    ensures Passed(order, heads + [h], index[order[|heads|] := order[h]])
  {
    var next := index[order[|heads|] := order[h]];
    forall a | 0 <= a < |heads|
      ensures next[order[a]] == order[heads[a]]
    {
      assert order[a] != order[|heads|];
    }
    forall a | |heads| < a < |order|
      ensures next[order[a]] == order[a]
    {
      assert order[a] != order[|heads|];
    }
  }

  /** Afterwards two entries have the same number exactly if their keys are equal. */
  method Renumber(keys: seq<Key>) returns (index: seq<nat>)
    ensures |index| == |keys|
    ensures forall i :: 0 <= i < |keys| ==> index[i] < |keys|
    ensures forall i, j :: 0 <= i < |keys| && 0 <= j < |keys| ==>
      (index[i] == index[j] <==> keys[i] == keys[j])
  {
    var order := Sort(keys);
    index := PassNumbersOn(keys, order);
  }

  /** Every entry takes over the number of its left neighbour in the sorted list if
      the two compare equal. */
  method PassNumbersOn(keys: seq<Key>, order: seq<nat>) returns (index: seq<nat>)
    requires |order| == |keys| && Distinct(order) && Ordered(keys, order)
    ensures |index| == |keys|
    ensures forall i :: 0 <= i < |keys| ==> index[i] < |keys|
    ensures forall i, j :: 0 <= i < |keys| && 0 <= j < |keys| ==>
      (index[i] == index[j] <==> keys[i] == keys[j])
  {
    hide Leq, Ordered;
    index := seq(|keys|, i => i);
    ghost var heads: seq<nat> := [];
    if |keys| == 0 {
      return;
    }
    PassStep(order, heads, index, 0);
    heads := [0];
    assert index[order[0] := order[0]] == index;
    var c := 1;
    while c < |keys|
      invariant 1 <= c == |heads| <= |keys| == |index|
      invariant SameAsKeys(keys, order, heads) && Passed(order, heads, index)
    {
      ghost var h := if keys[order[c - 1]] == keys[order[c]] then heads[c - 1] else c;
      ExtendHeads(keys, order, heads, h);
      PassStep(order, heads, index, h);
      assert index[order[c]] == order[c];
      assert index[order[c - 1]] == order[heads[c - 1]];
      assert index[order[c] := order[c]] == index;
      heads := heads + [h];
      if keys[order[c - 1]] == keys[order[c]] {
        index := index[order[c] := index[order[c - 1]]];
      }
      c := c + 1;
    }
    AllNumbered(keys, order, heads, index);
  }

  lemma AllNumbered(keys: seq<Key>, order: seq<nat>, heads: seq<nat>, index: seq<nat>)
    requires |order| == |keys| == |index| == |heads| && Distinct(order)
    requires SameAsKeys(keys, order, heads) && Passed(order, heads, index)
    ensures forall i :: 0 <= i < |keys| ==> index[i] < |keys|
    ensures forall i, j :: 0 <= i < |keys| && 0 <= j < |keys| ==>
      (index[i] == index[j] <==> keys[i] == keys[j])
  {
    hide SameAsKeys, Passed;
    CoversAll(order, |keys|);
    forall i, j | 0 <= i < |keys| && 0 <= j < |keys|
      ensures index[i] < |keys|
      ensures index[i] == index[j] <==> keys[i] == keys[j]
    {
      PairNumbered(keys, order, heads, index, i, j);
    }
  }

  lemma PairNumbered(keys: seq<Key>, order: seq<nat>, heads: seq<nat>, index: seq<nat>, i: nat, j: nat)
    requires |order| == |keys| == |index| == |heads| && Distinct(order)
    requires SameAsKeys(keys, order, heads)
    requires Passed(order, heads, index)
    requires i < |keys| && j < |keys| && i in order && j in order
    ensures index[i] < |keys|
    ensures index[i] == index[j] <==> keys[i] == keys[j]
  {
    var a :| 0 <= a < |order| && order[a] == i;
    var b :| 0 <= b < |order| && order[b] == j;
    assert heads[a] == heads[b] <==> keys[i] == keys[j];
    assert heads[a] != heads[b] ==> order[heads[a]] != order[heads[b]];
  }

  function UpTo(n: nat): (s: set<nat>)
    ensures forall i :: i in s <==> 0 <= i < n
    ensures |s| == n
  {
    if n == 0 then {} else UpTo(n - 1) + {n - 1}
  }

  /** n different numbers below n are all of them. */
  lemma CoversAll(order: seq<nat>, n: nat)
    requires |order| == n && Distinct(order)
    ensures forall i {:trigger i in order} :: 0 <= i < n ==> i in order
  {
    var image := set a | 0 <= a < n :: order[a];
    ImageCard(order, n);
    forall i | 0 <= i < n
      ensures i in order
    {
      if i !in order {
        assert image <= UpTo(n) - {i};
        CardMonotone(image, UpTo(n) - {i});
      }
    }
  }

  lemma {:induction false} ImageCard(order: seq<nat>, n: nat)
    requires n <= |order|
    requires forall a, b :: 0 <= a < b < |order| ==> order[a] != order[b]
    ensures |set a | 0 <= a < n :: order[a]| == n
  {
    if n > 0 {
      ImageCard(order, n - 1);
      var smaller := set a | 0 <= a < n - 1 :: order[a];
      assert order[n - 1] !in smaller;
      assert (set a | 0 <= a < n :: order[a]) == smaller + {order[n - 1]};
    }
  }

  lemma CardMonotone(a: set<nat>, b: set<nat>)
    requires a <= b
    ensures |a| <= |b|
  {
    assert b == a + (b - a);
  }
}
