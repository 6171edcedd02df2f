/** Bitwise operations on naturals, by recursion, and the few facts the field code relies on. */
module Bitwise {
  import opened Arith

  function And(a: nat, b: nat): (r: nat)
  {
    if a == 0 then 0 else (if a % 2 == 1 && b % 2 == 1 then 1 else 0) + 2 * And(a / 2, b / 2)
  }

  function Or(a: nat, b: nat): (r: nat)
    decreases a + b
  {
    if a == 0 && b == 0 then 0 else (if a % 2 == 1 || b % 2 == 1 then 1 else 0) + 2 * Or(a / 2, b / 2)
  }

  function Xor(a: nat, b: nat): (r: nat)
    decreases a + b
  {
    if a == 0 && b == 0 then 0 else (if a % 2 != b % 2 then 1 else 0) + 2 * Xor(a / 2, b / 2)
  }

  lemma {:induction false} OrZero(a: nat, b: nat)
    ensures Or(a, b) == 0 <==> a == 0 && b == 0
    decreases a + b
  {
    if a > 0 || b > 0 { OrZero(a / 2, b / 2); }
  }

  lemma {:induction false} AndBound(a: nat, b: nat)
    ensures And(a, b) <= a && And(a, b) <= b
    decreases a
  {
    if a > 0 { AndBound(a / 2, b / 2); }
  }

  /** A conjunction has all k bits set exactly when both sides do. */
  lemma {:induction false} AndAllOnes(a: nat, b: nat, k: nat)
    requires a < Pow2(k) && b < Pow2(k)
    ensures And(a, b) < Pow2(k)
    ensures And(a, b) == Pow2(k) - 1 <==> a == Pow2(k) - 1 && b == Pow2(k) - 1
    decreases k
  {
    if k > 0 {
      AndAllOnes(a / 2, b / 2, k - 1);
      AndBound(a, b);
    }
  }

  /** Flipping the bits of c in a gives all ones exactly for the complement of c. */
  lemma {:induction false} XorAllOnes(a: nat, c: nat, k: nat)
    requires a < Pow2(k) && c < Pow2(k)
    ensures Xor(a, c) < Pow2(k)
    ensures Xor(a, c) == Pow2(k) - 1 <==> a == Pow2(k) - 1 - c
    decreases k
  {
    if k > 0 { XorAllOnes(a / 2, c / 2, k - 1); }
  }
}
