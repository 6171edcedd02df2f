/** Scalars: naturals below the group order n of secp256k1 (SEC 2, section 2.7.1). */
module Scalars {
  import opened Arith
  import opened Bits

  const N: nat := 0xFFFFFFFF_FFFFFFFF_FFFFFFFF_FFFFFFFE_BAAEDCE6_AF48A03B_BFD25E8C_D0364141
  const TWO255: nat := 0x80000000_00000000_00000000_00000000_00000000_00000000_00000000_00000000

  const TWO256: nat := 2 * TWO255

  type Scalar = s: nat | s < N

  /** The `count` bits of s that start at bit `offset`. */
  function GetBits(s: nat, offset: nat, count: nat): (r: nat)
  {
    Low(Shr(s, offset), count)
  }

  function Negate(s: Scalar): (r: Scalar)
  {
    if s == 0 then 0 else N - s
  }

  /** The representative of s that the recodings use: s itself, or s - n when bit 255 is set. */
  function Signed(s: Scalar): (r: int)
  {
    if s >= TWO255 then s - N else s
  }

  lemma TwoTo255()
    ensures Pow2(255) == TWO255 && Pow2(256) == TWO256
  {
    Pow2Of256();
  }

  lemma Bit255(s: Scalar)
    ensures GetBits(s, 255, 1) == (if s >= TWO255 then 1 else 0)
  {
    TwoTo255();
    ShrBound(s, 255, 1);
    if s < TWO255 { LowSmall(s, 255); } else { SplitBits(s, 255); LowBound(s, 255); ShlZero(255); }
  }

  lemma SignedCongruent(s: Scalar)
    ensures Congruent(Signed(s), s, N)
    ensures 0 - TWO255 < Signed(s) < TWO255
  {
    if s >= TWO255 { CongruentByMultiple(s - N, s, -1, N); }
  }
}
