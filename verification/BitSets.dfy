/** Bit vectors as sets of bit numbers, and the measure that shows the dataflow
    loops terminate. */
module BitSets {

  type Bits = set<nat>

  /** The total number of set bits in a row of bit vectors. */
  function Size(rows: seq<Bits>): nat {
    if rows == [] then 0 else |rows[0]| + Size(rows[1..])
  }

  lemma {:induction false} SizeUpdate(rows: seq<Bits>, i: nat, x: Bits)
    requires i < |rows|
    ensures Size(rows[i := x]) == Size(rows) - |rows[i]| + |x|
  {
    if i == 0 {
      assert rows[i := x][1..] == rows[1..];
    } else {
      assert rows[i := x][1..] == rows[1..][i - 1 := x];
      SizeUpdate(rows[1..], i - 1, x);
    }
  }

  lemma SubsetCard(a: Bits, b: Bits)
    requires a <= b
    ensures |a| <= |b|
    ensures |a| == |b| ==> a == b
  {
    assert b == a + (b - a);
    if a != b {
      assert exists x :: x in b - a;
    }
  }

  lemma {:induction false} SizeBound(rows: seq<Bits>, universe: Bits)
    requires forall i :: 0 <= i < |rows| ==> rows[i] <= universe
    ensures Size(rows) <= |rows| * |universe|
  {
    if rows != [] {
      SubsetCard(rows[0], universe);
      SizeBound(rows[1..], universe);
      assert |rows| * |universe| == |universe| + (|rows| - 1) * |universe|;
    }
  }

  /** Pointwise inclusion. */
  ghost predicate Below(a: seq<Bits>, b: seq<Bits>) {
    |a| == |b| && forall i :: 0 <= i < |a| ==> a[i] <= b[i]
  }
}
