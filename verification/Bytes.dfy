/** Bytes in files. */
module Bytes {
  type Byte = x: int | 0 <= x < 256

  function Pow256(n: nat): (r: nat)
    ensures r >= 1
  {
    if n == 0 then 1 else 256 * Pow256(n - 1)
  }

  /** The piece s of the file at position p. */
  ghost predicate At(file: seq<Byte>, p: nat, s: seq<Byte>) {
    p + |s| <= |file| && file[p..p + |s|] == s
  }

  lemma AtParts(file: seq<Byte>, p: nat, a: seq<Byte>, b: seq<Byte>)
    requires At(file, p, a + b)
    ensures At(file, p, a) && At(file, p + |a|, b)
  {
    assert file[p..p + |a|] == (a + b)[..|a|];
    assert file[p + |a|..p + |a| + |b|] == (a + b)[|a|..];
  }

  lemma AtMeans(file: seq<Byte>, p: nat, s: seq<Byte>)
    requires At(file, p, s)
    ensures p + |s| <= |file| && file[p..p + |s|] == s
    ensures forall i :: 0 <= i < |s| ==> file[p + i] == s[i]
  {
    forall i | 0 <= i < |s|
      ensures file[p + i] == s[i]
    {
      assert file[p..p + |s|][i] == s[i];
    }
  }

  lemma AtInside(file: seq<Byte>, p: nat, s: seq<Byte>)
    requires At(file, p, s)
    ensures p + |s| <= |file|
  {
  }
}
