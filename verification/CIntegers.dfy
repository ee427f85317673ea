/** The arithmetic of C: integers that wrap around and division toward zero. */
module CIntegers {
  /** The value modulo 2^32 that a C int holds. */
  function Int32(x: int): int {
    (x + 0x8000_0000) % 0x1_0000_0000 - 0x8000_0000
  }

  function Abs(x: int): nat {
    if x < 0 then -x else x
  }

  /** Division that rounds toward zero, and its remainder, which has the sign of x. */
  function Truncated(x: int, y: int): int
    requires y != 0
  {
    if (x < 0) == (y < 0) then Abs(x) / Abs(y) else -(Abs(x) / Abs(y))
  }

  function TruncatedRest(x: int, y: int): int
    requires y != 0
  {
    if x < 0 then -(Abs(x) % Abs(y)) else Abs(x) % Abs(y)
  }

  lemma TruncatedParts(x: int, y: int)
    requires y != 0
    ensures x == Truncated(x, y) * y + TruncatedRest(x, y) && Abs(TruncatedRest(x, y)) < Abs(y)
  {
    var q, r := Abs(x) / Abs(y), Abs(x) % Abs(y);
    assert Abs(x) == q * Abs(y) + r;
  }
}
