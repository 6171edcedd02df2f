/** The constant-length recoding secp256k1_wnaf_const: every digit is odd, so every step of the loop does the same
    work. */
module WnafConst {
  import opened Arith
  import opened Bits
  import opened Digits
  import opened Scalars
  import opened Wnaf

  const HALF: nat := 0x7FFFFFFF_FFFFFFFF_FFFFFFFF_FFFFFFFF_5D576E73_57A4501D_DFE92F46_681B20A0

  predicate IsHigh(s: Scalar) { s > HALF }

  /** The representative of s of least absolute value. */
  function Centered(s: Scalar): (r: int) { if IsHigh(s) then s - N else s }

  ghost predicate OddDigit(d: int, w: nat)
  {
    d % 2 == 1 && -(Pow2(w) as int) < d < Pow2(w)
  }

  /** What the recoding promises: odd digits, standing for the centered scalar plus a skew of 1 or 2. */
  ghost predicate ConstWnafOf(ds: seq<int>, s: Scalar, w: nat, skew: int)
  {
    && (skew == 1 || skew == 2)
    && Value(ds, w) == Centered(s) + skew
    && forall i :: 0 <= i < |ds| ==> OddDigit(ds[i], w)
  }

  /**
   Makes the scalar odd and of small magnitude.  Minus one is special: adding 2 to it would
   overflow, so it is only negated and the caller is told it was skewed and not flipped.
   */
  method Prepare(a: Scalar) returns (s: Scalar, globalSign: int, skew: int)
    ensures (globalSign == 1 || globalSign == -1) && (skew == 1 || skew == 2)
    ensures s % 2 == 1 && Oriented(globalSign, s) == Centered(a) + skew
    ensures s <= Abs(Centered(a)) + 2
  {
    var flip := IsHigh(a);
    var bit := if flip != (a % 2 == 1) then 1 else 0;
    var notNegOne := Negate(a) != 1;
    s := if notNegOne then a + (if bit == 1 then 2 else 1) else a;
    if flip { s := Negate(s); }
    globalSign := if flip then -1 else 1;
    if !notNegOne { globalSign := -globalSign; }
    skew := if bit == 1 then 2 else 1;
  }

  /** The loop's state after `word` digits, with the pending digit and the unread rest of s. */
  ghost predicate Pending(ds: seq<int>, s: nat, w: nat, word: nat, sign: int, uLast: int, rest: nat)
  {
    && word < |ds|
    && Oriented(sign, Value(ds[..word], w)) + Shl(uLast + Shl(rest, w), Times(w, word)) == s
    && uLast % 2 == 1 && -1 <= uLast < Pow2(w)
    && (forall i :: 0 <= i < word ==> OddDigit(ds[i], w))
    && rest == Shr(s, Times(w, word + 1))
  }

  lemma StartPending(ds: seq<int>, s: nat, w: nat, sign: int)
    requires w >= 1 && s % 2 == 1 && ds != []
    ensures Pending(ds, s, w, 0, sign, Low(s, w), Shr(s, w))
  {
    assert ds[..0] == [];
    assert Times(w, 1) == w;
    SplitBits(s, w);
    LowBound(s, w);
  }

  /** The pending digit after the next window u is made odd: it gives or takes one unit of the next position. */
  lemma Borrow(u: nat, uLast: int, w: nat, sign: int, even: int)
    requires w >= 1 && u < Pow2(w) && uLast % 2 == 1 && -1 <= uLast < Pow2(w)
    requires even == (if u % 2 == 0 then 1 else 0) && sign == (if uLast > 0 then 1 else -1)
    ensures OddDigit(uLast - sign * even * Pow2(w), w)
    ensures (u + sign * even) % 2 == 1 && -1 <= u + sign * even < Pow2(w)
    ensures uLast - sign * even * Pow2(w) + Shl(u + sign * even, w) == uLast + Shl(u, w)
  {
    Pow2Even(w);
    ShlOne(w);
    ShlNeg(1, w);
    ShlAdd(u, sign * even, w);
    ShlZero(w);
    if even == 0 { assert sign * even == 0; } else { assert sign * even == sign; }
  }

  lemma OddDigitNeg(d: int, w: nat)
    requires OddDigit(d, w)
    ensures OddDigit(-d, w)
  {
  }

  lemma NextPending(ds: seq<int>, s: nat, w: nat, word: nat, sign: int, uLast: int, rest: nat, d: int, u: int)
    requires w >= 1 && word + 1 < |ds| && Pending(ds, s, w, word, sign, uLast, rest)
    requires OddDigit(d, w) && u % 2 == 1 && -1 <= u < Pow2(w) && d + Shl(u, w) == uLast + Shl(Low(rest, w), w)
    ensures Pending(ds[word := Oriented(sign, d)], s, w, word + 1, sign, u, Shr(rest, w))
  {
    var ds', n := ds[word := Oriented(sign, d)], Times(w, word);
    assert ds'[..word + 1] == ds[..word] + [Oriented(sign, d)];
    ValueSnoc(ds[..word], Oriented(sign, d), w);
    ShlNeg(d, n);
    var rest' := Shr(rest, w);
    SplitBits(rest, w);
    ShlAdd(Low(rest, w), Shl(rest', w), w);
    ShlAdd(u, Shl(rest', w), w);
    var x := u + Shl(rest', w);
    assert d + Shl(x, w) == uLast + Shl(rest, w);
    ShlAdd(d, Shl(x, w), n);
    ShlShl(x, w, n);
    ShrShr(s, Times(w, word + 1), w);
    OddDigitNeg(d, w);
  }

  lemma RestEmpty(s: nat, w: nat, size: nat, words: nat)
    requires w >= 1 && size >= 1 && s <= Pow2(size - 1) + 1 && Times(w, words) >= size
    ensures Shr(s, Times(w, words + 1)) == 0
  {
    Pow2Mono(size + 1, Times(w, words + 1));
    assert Pow2(size + 1) == 4 * Pow2(size - 1);
    LowSmall(s, Times(w, words + 1));
  }

  lemma LastDigit(ds: seq<int>, a: Scalar, s: nat, w: nat, sign: int, skew: int, u: int)
    requires w >= 1 && ds != [] && Pending(ds, s, w, |ds| - 1, sign, u, 0) && (skew == 1 || skew == 2)
    requires Oriented(sign, s) == Centered(a) + skew
    ensures ConstWnafOf(ds[|ds| - 1 := Oriented(sign, u)], a, w, skew)
  {
    var n := |ds| - 1;
    var ds' := ds[n := Oriented(sign, u)];
    assert ds' == ds[..n] + [Oriented(sign, u)];
    ValueSnoc(ds[..n], Oriented(sign, u), w);
    ShlNeg(u, Times(w, n));
    ShlZero(w);
    Pow2Even(w);
    OddDigitNeg(u, w);
  }

  /** `size` is one more than the bit length of the absolute value of s, as the source asks of its callers. */
  method WnafConst(wnaf: array<int>, a: Scalar, w: nat, size: nat) returns (skew: int)
    requires 1 <= w < 16 && size >= 1 && wnaf.Length == CeilDiv(size, w) + 1
    requires Abs(Centered(a)) < Pow2(size - 1)
    modifies wnaf
    ensures ConstWnafOf(wnaf[..], a, w, skew)
  {
    var s0, globalSign;
    s0, globalSign, skew := Prepare(a);
    var word, u := 0, 0;
    ghost var ds := wnaf[..];
    StartPending(ds, s0, w, globalSign);
    var uLast, s := Low(s0, w), Shr(s0, w);
    while Times(w, word) < size
      invariant word < wnaf.Length && wnaf[..] == ds
      invariant Pending(ds, s0, w, word, globalSign, uLast, s)
      invariant word > 0 ==> u == uLast
      decreases wnaf.Length - word
    {
      u := Low(s, w);
      var even := if u % 2 == 0 then 1 else 0;
      var sign := if uLast > 0 then 1 else -1;
      LowBound(s, w);
      Borrow(u, uLast, w, sign, even);
      var d := uLast - sign * even * Pow2(w);
      u := u + sign * even;
      NextPending(ds, s0, w, word, globalSign, uLast, s, d, u);
      wnaf[word] := Oriented(globalSign, d);
      ds := ds[word := Oriented(globalSign, d)];
      s, word, uLast := Shr(s, w), word + 1, u;
    }
    if word < CeilDiv(size, w) { TimesMono(w, word, CeilDiv(size, w) - 1); }
    RestEmpty(s0, w, size, word);
    LastDigit(ds, a, s0, w, globalSign, skew, u);
    wnaf[word] := Oriented(globalSign, u);
    assert wnaf[..] == ds[word := Oriented(globalSign, u)];
  }
}
