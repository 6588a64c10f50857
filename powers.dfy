// Powers of two, shared by the quadtree bound, the colour encoding and the clipmap lattice.

module Powers {
  /** 2^k; it is at least 1. */
  function Pow2(k: nat): (r: nat)
    ensures r >= 1
  {
    if k == 0 then 1 else 2 * Pow2(k - 1)
  }
}
