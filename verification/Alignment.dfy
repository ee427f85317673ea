/** Alignment of addresses, c/vasm/supp.c. */
module Alignment {
  import opened Arithmetic

  /** balign: the number of bytes up to the next multiple of a; 0 stands for no
      alignment. The source computes it with masks, which needs powers of two. */
  function Balign(addr: nat, a: nat): nat {
    if a == 0 then 0 else (a - addr % a) % a
  }

  /** pcalign: the next aligned address, if it is not more than limit bytes away; 0 stands
      for no limit. */
  function PcAlign(addr: nat, a: nat, limit: nat): nat {
    var n := Balign(addr, a);
    if limit != 0 && n > limit then addr else addr + n
  }

  /** The address is aligned, and the next aligned address is no nearer. */
  lemma BalignIsLeast(addr: nat, a: nat, n: nat)
    requires a > 0
    ensures Balign(addr, a) < a && (addr + Balign(addr, a)) % a == 0
    ensures (addr + n) % a == 0 ==> Balign(addr, a) <= n
  {
    var q, r, k := addr / a, addr % a, Balign(addr, a);
    assert addr == q * a + r;
    if r == 0 {
      DivModUnique(a, a, 1, 0);
    } else {
      DivModUnique(a - r, a, 0, a - r);
      Distribute(q, 1, a);
      DivModUnique(addr + k, a, q + 1, 0);
      if n < k {
        DivModUnique(addr + n, a, q, r + n);
      }
    }
  }
}
