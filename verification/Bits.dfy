/**
 Shifts and bit fields, by recursion on the shift.  Every step is linear, so proofs about
 recodings need no multiplication or division by a variable.
 */
module Bits {
  import opened Arith

  /** x * 2^k */
  function Shl(x: int, k: nat): (r: int)
    decreases k
  {
    if k == 0 then x else 2 * Shl(x, k - 1)
  }

  /** x >> k */
  function Shr(x: nat, k: nat): (r: nat)
    decreases k
  {
    if k == 0 then x else Shr(x / 2, k - 1)
  }

  /** The k least significant bits of x. */
  function Low(x: nat, k: nat): (r: nat)
    decreases k
  {
    if k == 0 then 0 else x % 2 + 2 * Low(x / 2, k - 1)
  }

  /** w * n, by recursion on n */
  function Times(w: nat, n: nat): (r: nat)
    decreases n
  {
    if n == 0 then 0 else w + Times(w, n - 1)
  }

  lemma {:induction false} TimesIsMul(w: nat, n: nat)
    ensures Times(w, n) == w * n
  {
    if n > 0 { TimesIsMul(w, n - 1); }
  }

  lemma {:induction false} TimesMono(w: nat, a: nat, b: nat)
    requires a <= b
    ensures Times(w, a) <= Times(w, b)
  {
    if a < b { TimesMono(w, a, b - 1); }
  }

  /** The least n with w * n >= x, for a positive w */
  function CeilDiv(x: int, w: nat): (n: nat)
    requires w > 0
    ensures x <= Times(w, n)
    ensures n > 0 ==> Times(w, n - 1) < x
    ensures x > 0 ==> n > 0
    decreases if x < 0 then 0 else x
  {
    if x <= 0 then 0 else 1 + CeilDiv(x - w, w)
  }

  /** The greatest n with w * n <= x, for a positive w */
  function FloorDiv(x: nat, w: nat): (n: nat)
    requires w > 0
    ensures Times(w, n) <= x < Times(w, n) + w
    decreases x
  {
    if x < w then 0 else 1 + FloorDiv(x - w, w)
  }

  lemma {:induction false} CeilDivIsDiv(x: nat, w: nat)
    requires w > 0
    ensures CeilDiv(x, w) == (x + w - 1) / w
  {
    var n := CeilDiv(x, w);
    TimesIsMul(w, n);
    if n > 0 { TimesIsMul(w, n - 1); assert w * n == w * (n - 1) + w; }
    assert x + w - 1 == n * w + (x + w - 1 - w * n);
    DivModUnique(x + w - 1, w, n, x + w - 1 - w * n);
  }

  lemma {:induction false} ShlIsMul(x: int, k: nat)
    ensures Shl(x, k) == x * Pow2(k)
    decreases k
  {
    if k > 0 { ShlIsMul(x, k - 1); assert 2 * (x * Pow2(k - 1)) == x * (2 * Pow2(k - 1)); }
  }

  lemma {:induction false} ShlOne(k: nat)
    ensures Shl(1, k) == Pow2(k)
  {
    ShlIsMul(1, k);
  }

  lemma {:induction false} ShlAdd(x: int, y: int, k: nat)
    ensures Shl(x + y, k) == Shl(x, k) + Shl(y, k)
    decreases k
  {
    if k > 0 { ShlAdd(x, y, k - 1); }
  }

  lemma {:induction false} ShlZero(k: nat)
    ensures Shl(0, k) == 0
  {
    if k > 0 { ShlZero(k - 1); }
  }

  lemma ShlNeg(x: int, k: nat)
    ensures Shl(-x, k) == -Shl(x, k)
  {
    ShlAdd(x, -x, k);
    ShlZero(k);
  }

  lemma {:induction false} ShlShl(x: int, a: nat, b: nat)
    ensures Shl(Shl(x, a), b) == Shl(x, a + b)
    decreases b
  {
    if b > 0 { ShlShl(x, a, b - 1); }
  }

  lemma {:induction false} SplitBits(x: nat, k: nat)
    ensures x == Low(x, k) + Shl(Shr(x, k), k)
  {
    if k > 0 {
      SplitBits(x / 2, k - 1);
    }
  }

  lemma LowStep(x: nat, k: nat)
    requires k > 0
    ensures Low(x, k) == x % 2 + 2 * Low(x / 2, k - 1)
  {
  }

  lemma {:induction false} LowBound(x: nat, k: nat)
    ensures Low(x, k) < Pow2(k)
  {
    if k > 0 {
      LowBound(x / 2, k - 1);
      LowStep(x, k);
      assert Pow2(k) == 2 * Pow2(k - 1);
    }
  }

  lemma {:induction false} ShrShr(x: nat, a: nat, b: nat)
    ensures Shr(Shr(x, a), b) == Shr(x, a + b)
  {
    if a > 0 { ShrShr(x / 2, a - 1, b); }
  }

  lemma {:induction false} ShrBound(x: nat, a: nat, b: nat)
    requires x < Pow2(a + b)
    ensures Shr(x, a) < Pow2(b)
  {
    if a > 0 { ShrBound(x / 2, a - 1, b); }
  }

  lemma {:induction false} LowSmall(x: nat, k: nat)
    requires x < Pow2(k)
    ensures Low(x, k) == x && Shr(x, k) == 0
  {
    if k > 0 { LowSmall(x / 2, k - 1); }
  }

  lemma {:induction false} ShrNonzero(x: nat, k: nat)
    requires Shr(x, k) > 0
    ensures Pow2(k) <= x
  {
    if k > 0 { ShrNonzero(x / 2, k - 1); }
  }

  /** The top bit of a k-bit field is the lowest bit above the other k - 1. */
  lemma {:induction false} LowTopBit(x: nat, k: nat)
    requires k >= 1
    ensures Shr(x, k - 1) % 2 == (if Low(x, k) >= Pow2(k - 1) then 1 else 0)
  {
    if k > 1 { LowTopBit(x / 2, k - 1); }
  }

  lemma {:induction false} LowLow(x: nat, a: nat, b: nat)
    ensures Low(x, a + b) == Low(x, a) + Shl(Low(Shr(x, a), b), a)
  {
    if a > 0 {
      LowLow(x / 2, a - 1, b);
    }
  }
}
