/** Arithmetic on 256-bit words, as the interpreter computes it, and what it means for signed and unsigned numbers. */
module EvmWords {
  import opened Arith
  import opened Bits
  import opened Bitwise
  import opened ByteStrings

  // What follows is for words below a modulus m or 2h; nothing depends on the number of bits.

  /** z modulo m */
  function Wrap(m: nat, z: int): (r: nat)
    requires m > 0
    ensures r < m
  {
    z % m
  }

  lemma WrapIs(m: nat, z: int, k: int, r: nat)
    requires r < m && z == k * m + r
    ensures Wrap(m, z) == r
  {
    DivModUnique(z, m, k, r);
  }

  /** The number a word stands for as a two's complement. */
  function Signed(h: nat, x: nat): (z: int)
  {
    if x < h then x else x - 2 * h
  }

  /** A number in range comes back from its word. */
  lemma SignedWrap(h: nat, z: int)
    requires h > 0 && 0 - h <= z < h
    ensures Signed(h, Wrap(2 * h, z)) == z && Wrap(2 * h, z) == if z < 0 then z + 2 * h else z
  {
    if z < 0 {
      WrapIs(2 * h, z, -1, z + 2 * h);
    } else {
      WrapIs(2 * h, z, 0, z);
    }
  }

  function Abs(z: int): (r: nat)
  {
    if z < 0 then -z else z
  }

  function Quot(a: nat, b: nat): (q: nat)
    requires b > 0
    ensures q <= a
  {
    QuotSmall(a, b);
    a / b
  }

  lemma QuotSmall(a: nat, b: nat)
    requires b > 0
    ensures 0 <= a / b <= a
  {
    DivModEq(a, b);
    if a / b < 0 {
      MulMono(a / b, -1, b);
    } else {
      MulMono(1, b, a / b);
    }
  }

  /** Division towards zero. */
  function Trunc(a: int, b: int): (q: int)
    requires b != 0
  {
    if (a < 0) == (b < 0) then Quot(Abs(a), Abs(b)) else 0 - Quot(Abs(a), Abs(b))
  }

  // ------------------------------------------------------------------------------------- signed division, remainder

  function Negated(h: nat, x: nat): (r: nat)
    requires h > 0
  {
    Wrap(2 * h, 0 - x)
  }

  function Magnitude(h: nat, x: nat): (r: nat)
    requires h > 0
  {
    if x >= h then Negated(h, x) else x
  }

  lemma NegatedIs(h: nat, x: nat)
    requires h > 0 && x < 2 * h
    ensures Negated(h, x) == if x == 0 then 0 else 2 * h - x
  {
    if x == 0 {
      WrapIs(2 * h, 0, 0, 0);
    } else {
      WrapIs(2 * h, 0 - x, -1, 2 * h - x);
    }
  }

  lemma MagnitudeIsAbs(h: nat, x: nat)
    requires h > 0 && x < 2 * h
    ensures Magnitude(h, x) == Abs(Signed(h, x)) <= h && (x > 0 ==> Magnitude(h, x) > 0)
  {
    NegatedIs(h, x);
  }

  /** The sign that the result of a division gets. */
  function WithSign(h: nat, negative: bool, q: nat): (r: nat)
    requires h > 0
  {
    if negative then Negated(h, q) else q
  }

  lemma WithSignIs(h: nat, negative: bool, q: nat)
    requires h > 0 && q <= h
    ensures WithSign(h, negative, q) == Wrap(2 * h, if negative then 0 - q else q)
  {
    NegatedIs(h, q);
    if !negative {
      WrapIs(2 * h, q, 0, q);
    }
  }

  /** SDIV. Its comparison with -1 is one with a word that is a parameter here. */
  function Sdiv(h: nat, minusOne: nat, x: nat, y: nat): (r: nat)
    requires h > 0
  {
    if y == 0 then 0
    else if x == h && y == minusOne then x
    else if Magnitude(h, y) == 0 then 0
    else WithSign(h, (x >= h) != (y >= h), Quot(Magnitude(h, x), Magnitude(h, y)))
  }

  lemma SdivPlain(h: nat, minusOne: nat, x: nat, y: nat)
    requires h > 0 && x < 2 * h && 0 < y < 2 * h && !(x == h && y == minusOne)
    ensures Sdiv(h, minusOne, x, y) == Wrap(2 * h, Trunc(Signed(h, x), Signed(h, y)))
  {
    MagnitudeIsAbs(h, x);
    MagnitudeIsAbs(h, y);
    WithSignIs(h, (x >= h) != (y >= h), Quot(Magnitude(h, x), Magnitude(h, y)));
  }

  lemma LeastDivided(h: nat, y: nat)
    requires 1 < y < h
    ensures Wrap(2 * h, Trunc(0 - h, y)) != h
  {
    var q: int := Quot(h, y);
    DivModEq(h, y);
    MulMono(2, y, q);
    SignedWrap(h, 0 - q);
  }

  /** SDIV divides the signed numbers towards zero, exactly unless the dividend is the least number and the divisor is
      the word that the comparison takes for -1. */
  lemma SdivMeans(h: nat, minusOne: nat, x: nat, y: nat)
    requires x < 2 * h && 0 < y < 2 * h && 1 < minusOne < h
    ensures Sdiv(h, minusOne, x, y) == Wrap(2 * h, Trunc(Signed(h, x), Signed(h, y))) <==> !(x == h && y == minusOne)
  {
    if x == h && y == minusOne {
      LeastDivided(h, y);
    } else {
      SdivPlain(h, minusOne, x, y);
    }
  }

  function Rest(a: nat, b: nat): (r: nat)
    requires b > 0
    ensures r < b && r <= a
  {
    QuotSmall(a, b);
    DivModEq(a, b);
    MulMono(0, a / b, b);
    a % b
  }

  /** SMOD. */
  function Smod(h: nat, x: nat, y: nat): (r: nat)
    requires h > 0
  {
    if y == 0 || Magnitude(h, y) == 0 then 0
    else WithSign(h, x >= h, Rest(Magnitude(h, x), Magnitude(h, y)))
  }

  /** What is left of a after division towards zero. */
  function Remainder(a: int, b: int): (r: int)
    requires b != 0
  {
    a - b * Trunc(a, b)
  }

  lemma RemainderIs(a: int, b: int)
    requires b != 0
    ensures Remainder(a, b) == if a < 0 then 0 - Rest(Abs(a), Abs(b)) else Rest(Abs(a), Abs(b))
  {
    DivModEq(Abs(a), Abs(b));
    var q := Quot(Abs(a), Abs(b));
    assert q * Abs(b) == if b < 0 then 0 - q * b else q * b;
    assert b * (0 - q) == 0 - q * b;
  }

  /** SMOD is the remainder of that division, with the sign of the dividend; zero for a zero divisor. */
  lemma SmodMeans(h: nat, x: nat, y: nat)
    requires h > 0 && x < 2 * h && y < 2 * h
    ensures y == 0 ==> Smod(h, x, y) == 0
    ensures y != 0 ==> Signed(h, Smod(h, x, y)) == Remainder(Signed(h, x), Signed(h, y))
  {
    if y != 0 {
      MagnitudeIsAbs(h, x);
      MagnitudeIsAbs(h, y);
      var q: int := Rest(Magnitude(h, x), Magnitude(h, y));
      WithSignIs(h, x >= h, q);
      RemainderIs(Signed(h, x), Signed(h, y));
      SignedWrap(h, if x >= h then 0 - q else q);
    }
  }

  // ------------------------------------------------------------------------------- modular addition, multiplication

  /** ADDMOD and MULMOD reduce what is left of the sum or product in a word. */
  function ModOf(m: nat, z: nat, n: nat): (r: nat)
    requires m > 0
    ensures r < m
  {
    if n == 0 then 0 else Rest(Wrap(m, z), n)
  }

  /** What of a number does not fit below m. */
  function CutOff(m: nat, z: nat): (r: int)
    requires m > 0
  {
    (z / m) * m
  }

  /** That is the number modulo n exactly when n divides the part that did not fit. */
  lemma ModOfMeans(m: nat, z: nat, n: nat)
    requires m > 0 && n > 0
    ensures ModOf(m, z, n) == z % n <==> CutOff(m, z) % n == 0
  {
    DivModEq(z, m);
    var cut := CutOff(m, z);
    assert z == cut + Wrap(m, z);
    CongruentIff(cut, Wrap(m, z), n);
  }

  lemma CongruentIff(a: int, b: int, n: int)
    requires n > 0
    ensures (a + b) % n == b % n <==> a % n == 0
  {
    if (a + b) % n == b % n {
      var k := CongruentQuotient(a + b, b, n);
      DivModUnique(a, n, k, 0);
    }
    if a % n == 0 {
      DivModEq(a, n);
      ModShift(b, a / n, n);
    }
  }

  /** For a sum of two words: exactly when it fits, or n divides the modulus. */
  lemma AddModMeans(m: nat, x: nat, y: nat, n: nat)
    requires x < m && y < m && n > 0
    ensures ModOf(m, x + y, n) == (x + y) % n <==> x + y < m || m % n == 0
  {
    ModOfMeans(m, x + y, n);
    if x + y < m {
      DivModUnique(x + y, m, 0, x + y);
      DivModUnique(0, n, 0, 0);
    } else {
      DivModUnique(x + y, m, 1, x + y - m);
    }
  }

  // ---------------------------------------------------------------------------------------------------- comparisons

  /** SLT, by the signs and then as words. */
  predicate Below(h: nat, x: nat, y: nat)
  {
    if x == y then false
    else if (x >= h) != (y >= h) then x >= h
    else x < y
  }

  lemma BelowMeans(h: nat, x: nat, y: nat)
    requires x < 2 * h && y < 2 * h
    ensures Below(h, x, y) <==> Signed(h, x) < Signed(h, y)
  {
  }

  // --------------------------------------------------------------------------------------------- bits and shifts

  predicate Bit(x: nat, i: nat)
  {
    Shr(x, i) % 2 == 1
  }

  lemma {:induction false} ShrOfZero(i: nat)
    ensures Shr(0, i) == 0
  {
    if i > 0 {
      ShrOfZero(i - 1);
    }
  }

  lemma {:induction false} AndBit(x: nat, y: nat, i: nat)
    ensures Bit(And(x, y), i) <==> Bit(x, i) && Bit(y, i)
    decreases i
  {
    if x == 0 {
      ShrOfZero(i);
    } else if i > 0 {
      AndBit(x / 2, y / 2, i - 1);
    }
  }

  lemma {:induction false} OrBit(x: nat, y: nat, i: nat)
    ensures Bit(Or(x, y), i) <==> Bit(x, i) || Bit(y, i)
    decreases i
  {
    if x == 0 && y == 0 {
      ShrOfZero(i);
    } else if i > 0 {
      OrBit(x / 2, y / 2, i - 1);
    }
  }

  lemma {:induction false} XorBit(x: nat, y: nat, i: nat)
    ensures Bit(Xor(x, y), i) <==> Bit(x, i) != Bit(y, i)
    decreases i
  {
    if x == 0 && y == 0 {
      ShrOfZero(i);
    } else if i > 0 {
      XorBit(x / 2, y / 2, i - 1);
    }
  }

  /** NOT of a word of k bits. */
  function Complement(k: nat, x: nat): (r: nat)
    requires x < Pow2(k)
  {
    Pow2(k) - 1 - x
  }

  lemma {:induction false} ComplementMeans(k: nat, x: nat, i: nat)
    requires x < Pow2(k) && i < k
    ensures Bit(Complement(k, x), i) <==> !Bit(x, i)
    decreases i
  {
    assert Pow2(k) == 2 * Pow2(k - 1);
    assert Complement(k, x) / 2 == Complement(k - 1, x / 2);
    if i > 0 {
      ComplementMeans(k - 1, x / 2, i - 1);
    }
  }

  /** What of x * 2^s stays in a word of k bits; a shift by k or more leaves nothing. */
  function ShlWord(k: nat, x: nat, s: nat): (r: nat)
  {
    if s >= k then 0 else Low(ShlNat(x, s), k)
  }

  function ShlNat(x: nat, s: nat): (r: nat)
  {
    ShlIsMul(x, s);
    Shl(x, s)
  }

  function ShrWord(k: nat, x: nat, s: nat): (r: nat)
  {
    if s >= k then 0 else Shr(x, s)
  }

  lemma LowIsWrap(x: nat, k: nat)
    ensures Low(x, k) == Wrap(Pow2(k), x)
  {
    SplitBits(x, k);
    LowBound(x, k);
    ShlIsMul(Shr(x, k), k);
    WrapIs(Pow2(k), x, Shr(x, k), Low(x, k));
  }

  lemma ShrIsQuot(x: nat, k: nat)
    ensures Shr(x, k) == Quot(x, Pow2(k))
  {
    SplitBits(x, k);
    LowBound(x, k);
    ShlIsMul(Shr(x, k), k);
    DivModUnique(x, Pow2(k), Shr(x, k), Low(x, k));
  }

  lemma Regroup(x: int, a: int, b: int, c: int)
    requires c == a * b
    ensures x * c == (x * b) * a + 0
  {
  }

  /** SHL multiplies by the power of two modulo 2^k, however far it shifts. */
  lemma ShlMeans(k: nat, x: nat, s: nat)
    ensures ShlWord(k, x, s) == Wrap(Pow2(k), x * Pow2(s))
  {
    if s >= k {
      Pow2Add(k, s - k);
      Regroup(x, Pow2(k), Pow2(s - k), Pow2(s));
      WrapIs(Pow2(k), x * Pow2(s), x * Pow2(s - k), 0);
    } else {
      ShlIsMul(x, s);
      LowIsWrap(ShlNat(x, s), k);
    }
  }

  /** SHR divides by the power of two. */
  lemma ShrMeans(k: nat, x: nat, s: nat)
    requires x < Pow2(k)
    ensures ShrWord(k, x, s) == Quot(x, Pow2(s))
  {
    ShrIsQuot(x, s);
    if s >= k {
      Pow2Mono(k, s);
      LowSmall(x, s);
    }
  }

  lemma {:induction false} OrNothing(x: nat)
    ensures Or(x, 0) == x && Or(0, x) == x
  {
    if x > 0 {
      OrNothing(x / 2);
    }
  }

  /** Bits that do not meet add up. */
  lemma {:induction false} OrAdds(a: nat, k: nat, b: nat)
    requires b < Pow2(k)
    ensures Or(ShlNat(a, k), b) == Or(b, ShlNat(a, k)) == ShlNat(a, k) + b
    decreases k
  {
    if k == 0 {
      OrNothing(a);
    } else {
      OrAdds(a, k - 1, b / 2);
      assert ShlNat(a, k) == 2 * ShlNat(a, k - 1);
    }
  }

  lemma {:induction false} AndMask(x: nat, k: nat)
    ensures And(x, Pow2(k) - 1) == Low(x, k)
    decreases k
  {
    if k == 0 {
      AndZero(x);
    } else if x == 0 {
      LowSmall(0, k);
    } else {
      AndMask(x / 2, k - 1);
      assert (Pow2(k) - 1) / 2 == Pow2(k - 1) - 1;
    }
  }

  lemma {:induction false} AndZero(x: nat)
    ensures And(x, 0) == 0
  {
    if x > 0 {
      AndZero(x / 2);
    }
  }

  lemma OnesTimes(m: int, a: int, p: int)
    requires m == a * p
    ensures (m - 1) * p == (p - 1) * m + (m - p) && (a - 1) * p == m - p
  {
  }

  /** All ones, shifted to the left within a word. */
  lemma OnesShifted(k: nat, s: nat)
    requires s < k
    ensures ShlWord(k, Pow2(k) - 1, s) == ShlNat(Pow2(k - s) - 1, s) == Pow2(k) - Pow2(s)
  {
    Pow2Add(k - s, s);
    Pow2Mono(s, k);
    OnesTimes(Pow2(k), Pow2(k - s), Pow2(s));
    ShlIsMul(Pow2(k - s) - 1, s);
    ShlMeans(k, Pow2(k) - 1, s);
    WrapIs(Pow2(k), (Pow2(k) - 1) * Pow2(s), Pow2(s) - 1, Pow2(k) - Pow2(s));
  }

  // --------------------------------------------------------------------------- arithmetic shift, sign extension, BYTE

  function Ones(k: nat): (r: nat)
  {
    Pow2(k) - 1
  }

  /** SAR: the word shifted to the right, and on its left as many ones as were shifted in for a negative word. */
  function Sar(k: nat, x: nat, s: nat): (r: nat)
    requires k > 0
  {
    var fill := if s < k then k - s else 0;
    Or(ShrWord(k, x, s), ShlWord(k, if x >= Pow2(k - 1) then Ones(k) else 0, fill))
  }

  lemma ZeroShifted(k: nat, s: nat)
    ensures ShlWord(k, 0, s) == 0
  {
    ShlMeans(k, 0, s);
    WrapIs(Pow2(k), 0 * Pow2(s), 0, 0);
  }

  lemma FloorShift(a: nat, k: nat, s: nat)
    requires s <= k
    ensures (a - Pow2(k)) / Pow2(s) == Quot(a, Pow2(s)) - Pow2(k - s)
  {
    Pow2Add(k - s, s);
    DivModEq(a, Pow2(s));
    var q, r := a / Pow2(s), a % Pow2(s);
    assert a - Pow2(k) == (q - Pow2(k - s)) * Pow2(s) + r;
    DivModUnique(a - Pow2(k), Pow2(s), q - Pow2(k - s), r);
  }

  lemma SarNegative(k: nat, x: nat, s: nat)
    requires k > 0 && Pow2(k - 1) <= x < Pow2(k) && 0 < s < k
    ensures Sar(k, x, s) == Pow2(k) - Pow2(k - s) + Shr(x, s) && Sar(k, x, s) >= Pow2(k - 1)
  {
    ShrBound(x, s, k - s);
    OnesShifted(k, k - s);
    OrAdds(Pow2(s) - 1, k - s, Shr(x, s));
    Pow2Mono(k - s, k - 1);
    assert Pow2(k) == 2 * Pow2(k - 1);
  }

  lemma LongShift(k: nat, x: nat, s: nat)
    requires k > 0 && Pow2(k - 1) <= x < Pow2(k) && s >= k
    ensures Sar(k, x, s) == Ones(k) && (x - Pow2(k)) / Pow2(s) == -1
  {
    OnesShifted(k, 0);
    OrNothing(Ones(k));
    Pow2Mono(k, s);
    DivModUnique(x - Pow2(k), Pow2(s), -1, x - Pow2(k) + Pow2(s));
  }

  /** SAR divides the signed number by the power of two, rounding down, however far it shifts. */
  lemma SarMeans(k: nat, x: nat, s: nat)
    requires k > 0 && x < Pow2(k)
    ensures Signed(Pow2(k - 1), Sar(k, x, s)) == Signed(Pow2(k - 1), x) / Pow2(s)
  {
    assert Pow2(k) == 2 * Pow2(k - 1);
    if x < Pow2(k - 1) {
      ZeroShifted(k, if s < k then k - s else 0);
      OrNothing(ShrWord(k, x, s));
      ShrMeans(k, x, s);
    } else if s == 0 {
      OrNothing(x);
      FloorShift(x, k, 0);
      DivModUnique(x, 1, x, 0);
    } else if s < k {
      SarNegative(k, x, s);
      FloorShift(x, k, s);
      ShrIsQuot(x, s);
    } else {
      LongShift(k, x, s);
    }
  }

  /** SIGNEXTEND of the word y from byte x on: ones or zeros to the left of the sign bit, which is bit 8x + 7. */
  function SignExtend(k: nat, x: nat, y: nat): (r: nat)
  {
    if x >= 32 || 8 * x + 7 >= k then y
    else
      var idx := 8 * x + 7;
      Or(ShlWord(k, if Bit(y, idx) then Ones(k) else 0, idx), And(y, ShrWord(k, Ones(k), k - idx)))
  }

  lemma {:induction false} OnesHigh(k: nat, j: nat)
    requires j <= k
    ensures Shr(Ones(k), j) == Ones(k - j)
    decreases j
  {
    if j > 0 {
      OnesHigh(k - 1, j - 1);
      assert Ones(k) / 2 == Ones(k - 1);
    }
  }

  /** The number that the lowest n bits of y stand for as a two's complement. */
  function LowSigned(y: nat, n: nat): (z: int)
    requires n > 0
  {
    Signed(Pow2(n - 1), Low(y, n))
  }

  lemma ExtendedLow(k: nat, y: nat, idx: nat)
    requires 0 < idx < k
    ensures And(y, ShrWord(k, Ones(k), k - idx)) == Low(y, idx) < Pow2(idx)
    ensures Low(y, idx + 1) == Low(y, idx) + if Bit(y, idx) then Pow2(idx) else 0
  {
    OnesHigh(k, k - idx);
    AndMask(y, idx);
    LowBound(y, idx);
    LowLow(y, idx, 1);
    LowStep(Shr(y, idx), 1);
    assert Low(Shr(y, idx) / 2, 0) == 0;
    ShlOne(idx);
    ShlZero(idx);
  }

  lemma ExtendNegative(k: nat, y: nat, idx: nat)
    requires 0 < idx < k && Bit(y, idx)
    ensures var r := Or(ShlWord(k, Ones(k), idx), Low(y, idx));
            r == Pow2(k) - Pow2(idx) + Low(y, idx) && Signed(Pow2(k - 1), r) == Low(y, idx) - Pow2(idx)
  {
    OnesShifted(k, idx);
    LowBound(y, idx);
    OrAdds(Pow2(k - idx) - 1, idx, Low(y, idx));
    Pow2Mono(idx, k - 1);
    assert Pow2(k) == 2 * Pow2(k - 1);
  }

  lemma ExtendPositive(k: nat, y: nat, idx: nat)
    requires 0 < idx < k && !Bit(y, idx)
    ensures var r := Or(ShlWord(k, 0, idx), Low(y, idx)); r == Low(y, idx) == Signed(Pow2(k - 1), r)
  {
    ZeroShifted(k, idx);
    LowBound(y, idx);
    OrNothing(Low(y, idx));
    Pow2Mono(idx, k - 1);
  }

  lemma LowSignedIs(y: nat, idx: nat, low: nat)
    requires low == Low(y, idx) && Low(y, idx + 1) == low + if Bit(y, idx) then Pow2(idx) else 0
    ensures LowSigned(y, idx + 1) == if Bit(y, idx) then low - Pow2(idx) else low
  {
    LowBound(y, idx);
  }

  /** SIGNEXTEND is the number that the lowest 8x + 8 bits stand for; from byte 32 on it changes nothing. */
  lemma SignExtendMeans(k: nat, x: nat, y: nat)
    requires k >= 8 * 32
    ensures x >= 32 ==> SignExtend(k, x, y) == y
    ensures x < 32 ==> Signed(Pow2(k - 1), SignExtend(k, x, y)) == LowSigned(y, 8 * x + 8)
  {
    if x < 32 {
      var idx := 8 * x + 7;
      ExtendedLow(k, y, idx);
      LowSignedIs(y, idx, Low(y, idx));
      if Bit(y, idx) {
        ExtendNegative(k, y, idx);
      } else {
        ExtendPositive(k, y, idx);
      }
    }
  }

  /** BYTE: byte i of y, counted from the most significant of n, cut out with a mask. */
  function ByteOf(n: nat, i: nat, y: nat): (r: nat)
    requires i < n
  {
    var shift := 8 * (n - 1 - i);
    ShrWord(8 * n, And(y, ShlWord(8 * n, 255, shift)), shift)
  }

  lemma {:induction false} AndShifted(y: nat, m: nat, s: nat)
    ensures Shr(And(y, ShlNat(m, s)), s) == And(Shr(y, s), m)
    decreases s
  {
    if s > 0 {
      AndShifted(y / 2, m, s - 1);
      assert ShlNat(m, s) == 2 * ShlNat(m, s - 1);
      if y == 0 {
        ShrOfZero(s);
      }
    }
  }

  lemma {:induction false} FixedAt(y: nat, n: nat, i: nat)
    requires i < n
    ensures Fixed(y, n)[i] == Low(Shr(y, 8 * (n - 1 - i)), 8)
    decreases n
  {
    if i == n - 1 {
      LowEight(y);
    } else {
      FixedAt(y / 256, n - 1, i);
      ShrShr(y, 8, 8 * (n - 2 - i));
      ShrEight(y);
    }
  }

  lemma PowEight()
    ensures Pow2(8) == 256
  {
    assert Pow2(2) == 4;
    Pow2Square(2, 4);
    Pow2Square(4, 16);
  }

  lemma LowEight(y: nat)
    ensures Low(y, 8) == y % 256
  {
    PowEight();
    LowIsWrap(y, 8);
  }

  lemma ShrEight(y: nat)
    ensures Shr(y, 8) == y / 256
  {
    PowEight();
    ShrIsQuot(y, 8);
  }

  lemma MaskFits(n: nat, i: nat)
    requires i < n
    ensures var shift := 8 * (n - 1 - i); ShlWord(8 * n, 255, shift) == ShlNat(255, shift)
  {
    var shift := 8 * (n - 1 - i);
    ShlIsMul(255, shift);
    PowEight();
    Pow2Add(8, shift);
    Pow2Mono(8 + shift, 8 * n);
    assert 255 * Pow2(shift) < 256 * Pow2(shift);
    LowSmall(ShlNat(255, shift), 8 * n);
  }

  /** BYTE is the byte of the big-endian form. */
  lemma ByteMeans(n: nat, i: nat, y: nat)
    requires i < n
    ensures ByteOf(n, i, y) == Fixed(y, n)[i]
  {
    var shift := 8 * (n - 1 - i);
    MaskFits(n, i);
    AndShifted(y, 255, shift);
    PowEight();
    AndMask(Shr(y, shift), 8);
    FixedAt(y, n, i);
  }

  // ---------------------------------------------------------------------------------------------------- exponents

  function Power(b: nat, e: nat): (r: nat)
  {
    if e == 0 then 1 else b * Power(b, e - 1)
  }

  lemma {:induction false} PowerTwo(e: nat)
    ensures Power(2, e) == Pow2(e)
  {
    if e > 0 {
      PowerTwo(e - 1);
    }
  }

  lemma {:induction false} PowerSquare(b: nat, e: nat)
    ensures Power(b * b, e) == Power(b, 2 * e)
  {
    if e > 0 {
      PowerSquare(b, e - 1);
      assert Power(b, 2 * e) == b * (b * Power(b, 2 * (e - 1)));
      SquareTimes(b, Power(b, 2 * (e - 1)));
    }
  }

  lemma SquareTimes(b: int, p: int)
    ensures (b * b) * p == b * (b * p)
  {
  }

  lemma {:induction false} PowerCongruent(a: nat, b: nat, e: nat, m: nat)
    requires m > 0 && Congruent(a, b, m)
    ensures Congruent(Power(a, e), Power(b, e), m)
  {
    if e > 0 {
      PowerCongruent(a, b, e - 1, m);
      CongruentMul(a, b, Power(a, e - 1), Power(b, e - 1), m);
    }
  }

  /** What the loop keeps: the result so far times the base to what is left of the exponent. */
  ghost predicate Raised(m: nat, result: nat, base: nat, e: nat, goal: nat)
    requires m > 0
  {
    Congruent(result * Power(base, e), goal, m)
  }

  lemma SquareStep(m: nat, result: nat, base: nat, e: nat, goal: nat)
    requires m > 0 && Raised(m, result, base, 2 * e, goal)
    ensures Raised(m, result, Wrap(m, base * base), e, goal)
  {
    PowerSquare(base, e);
    CongruentMod(base * base, m);
    PowerCongruent(Wrap(m, base * base), base * base, e, m);
    CongruentMul(result, result, Power(Wrap(m, base * base), e), Power(base * base, e), m);
  }

  lemma MultiplyStep(m: nat, result: nat, base: nat, e: nat, goal: nat)
    requires m > 0 && e > 0 && Raised(m, result, base, e, goal)
    ensures Raised(m, Wrap(m, result * base), base, e - 1, goal)
  {
    CongruentMod(result * base, m);
    var p := Power(base, e - 1);
    CongruentMul(Wrap(m, result * base), result * base, p, p, m);
    SquareAssoc(result, base, p);
  }

  lemma SquareAssoc(a: int, b: int, p: int)
    ensures (a * b) * p == a * (b * p)
  {
  }

  /** EXP: square and multiply in words of k bits, with a shift for base two. */
  method Exp(k: nat, base: nat, exponent: nat) returns (result: nat)
    requires k > 0
    ensures result == Wrap(Pow2(k), Power(base, exponent))
  {
    ghost var goal := Power(base, exponent);
    var m := Pow2(k);
    if base == 2 {
      PowerTwo(exponent);
      ShlMeans(k, 1, exponent);
      return ShlWord(k, 1, exponent);
    }
    Pow2Even(k);
    result := 1;
    var b, e := base, exponent;
    while e != 0
      invariant result < m && Raised(m, result, b, e, goal)
      decreases e
    {
      if e % 2 != 0 {
        MultiplyStep(m, result, b, e, goal);
        result := Wrap(m, result * b);
        SquareStep(m, result, b, e / 2, goal);
      } else {
        SquareStep(m, result, b, e / 2, goal);
      }
      b := Wrap(m, b * b);
      e := e / 2;
    }
    assert result * Power(b, 0) == result;
    WrapIs(m, result, 0, result);
  }

  // ---------------------------------------------------------------------------------------------------- the opcodes

  const ADD: nat := 0x01
  const MUL: nat := 0x02
  const SUB: nat := 0x03
  const DIV: nat := 0x04
  const SDIV: nat := 0x05
  const MOD: nat := 0x06
  const SMOD: nat := 0x07
  const ADDMOD: nat := 0x08
  const MULMOD: nat := 0x09
  const EXP: nat := 0x0a
  const SIGNEXTEND: nat := 0x0b
  const LT: nat := 0x10
  const GT: nat := 0x11
  const SLT: nat := 0x12
  const SGT: nat := 0x13
  const EQ: nat := 0x14
  const ISZERO: nat := 0x15
  const AND: nat := 0x16
  const OR: nat := 0x17
  const XOR: nat := 0x18
  const NOT: nat := 0x19
  const BYTE: nat := 0x1a
  const SHL: nat := 0x1b
  const SHR: nat := 0x1c
  const SAR: nat := 0x1d

  /** The word that the literal -1 becomes in a comparison with a word. */
  const MINUS_ONE_64: nat := 0xFFFF_FFFF_FFFF_FFFF

  /** The number of bits of a word. */
  function Width(): (k: nat)
  {
    256
  }

  function Size(): (m: nat)
    ensures m == 2 * Half() > 0
  {
    Pow2(Width())
  }

  function Half(): (h: nat)
    ensures h > 0
  {
    Pow2(Width() - 1)
  }

  predicate IsWord(x: nat)
  {
    x < Size()
  }

  predicate Computes(op: nat)
  {
    ADD <= op <= SIGNEXTEND || LT <= op <= SAR
  }

  function Arg(args: seq<nat>, i: nat): (x: nat)
  {
    if i < |args| then args[i] else 0
  }

  function Truth(b: bool): (w: nat)
  {
    if b then 1 else 0
  }

  /** The word that an arithmetic instruction makes of its operands, the first being the top of the stack. */
  function Compute(op: nat, args: seq<nat>): (w: nat)
    requires Computes(op)
  {
    var x, y := Arg(args, 0), Arg(args, 1);
    if op < ADDMOD then Arithmetic(op, x, y)
    else if op < LT then Further(op, x, y, Arg(args, 2))
    else if op < AND then Truth(Compares(op, x, y))
    else if op < BYTE then BitByBit(op, x, y)
    else Shifts(op, x, y)
  }

  function Arithmetic(op: nat, x: nat, y: nat): (w: nat)
  {
    if op == ADD then Wrap(Size(), x + y)
    else if op == MUL then Wrap(Size(), x * y)
    else if op == SUB then Wrap(Size(), x - y)
    else if op == DIV then if y == 0 then 0 else Quot(x, y)
    else if op == SDIV then Sdiv(Half(), MINUS_ONE_64, x, y)
    else if op == MOD then if y == 0 then 0 else Rest(x, y)
    else Smod(Half(), x, y)
  }

  function Further(op: nat, x: nat, y: nat, n: nat): (w: nat)
  {
    if op == ADDMOD then ModOf(Size(), x + y, n)
    else if op == MULMOD then ModOf(Size(), x * y, n)
    else if op == EXP then Wrap(Size(), Power(x, y))
    else SignExtend(Width(), x, y)
  }

  predicate Compares(op: nat, x: nat, y: nat)
  {
    if op == LT then x < y
    else if op == GT then x > y
    else if op == SLT then Below(Half(), x, y)
    else if op == SGT then Below(Half(), y, x)
    else if op == EQ then x == y
    else x == 0
  }

  function BitByBit(op: nat, x: nat, y: nat): (w: nat)
  {
    if op == AND then And(x, y) else if op == OR then Or(x, y) else if op == XOR then Xor(x, y)
    else Wrap(Size(), -1 - x)
  }

  function Shifts(op: nat, x: nat, y: nat): (w: nat)
  {
    if op == BYTE then if x >= 32 then 0 else ByteOf(32, x, y)
    else if op == SHL then ShlWord(Width(), y, x)
    else if op == SHR then ShrWord(Width(), y, x)
    else Sar(Width(), y, x)
  }

  lemma SignedCongruent(h: nat, x: nat)
    requires h > 0 && x < 2 * h
    ensures Congruent(Signed(h, x), x, 2 * h)
  {
    CongruentByMultiple(Signed(h, x), x, if x < h then 0 else -1, 2 * h);
  }

  lemma BothReadings(h: nat, x: nat, y: nat)
    requires h > 0 && x < 2 * h && y < 2 * h
    ensures Wrap(2 * h, x + y) == Wrap(2 * h, Signed(h, x) + Signed(h, y))
    ensures Wrap(2 * h, x - y) == Wrap(2 * h, Signed(h, x) - Signed(h, y))
    ensures Wrap(2 * h, x * y) == Wrap(2 * h, Signed(h, x) * Signed(h, y))
  {
    SignedCongruent(h, x);
    SignedCongruent(h, y);
    CongruentAdd(Signed(h, x), x, Signed(h, y), y, 2 * h);
    CongruentMul(Signed(h, x), x, Signed(h, y), y, 2 * h);
  }

  /** Addition, subtraction and multiplication are those of the numbers modulo 2^256, whether the words are read as
      signed or not. */
  lemma RingMeans(x: nat, y: nat)
    requires IsWord(x) && IsWord(y)
    ensures var h := Half();
            && Compute(ADD, [x, y]) == Wrap(Size(), x + y) == Wrap(Size(), Signed(h, x) + Signed(h, y))
            && Compute(SUB, [x, y]) == Wrap(Size(), x - y) == Wrap(Size(), Signed(h, x) - Signed(h, y))
            && Compute(MUL, [x, y]) == Wrap(Size(), x * y) == Wrap(Size(), Signed(h, x) * Signed(h, y))
  {
    assert Compute(ADD, [x, y]) == Arithmetic(ADD, x, y) && Compute(SUB, [x, y]) == Arithmetic(SUB, x, y);
    assert Compute(MUL, [x, y]) == Arithmetic(MUL, x, y);
    BothReadings(Half(), x, y);
  }

  lemma MinusOneSmall()
    ensures 1 < MINUS_ONE_64 < Half()
  {
    Pow2Literals();
    Pow2Mono(64, Width() - 1);
  }

  /** Quotients and remainders: zero for a zero divisor; DIV and MOD of the words, with x == q * y + r and r < y; SDIV
      and SMOD of the signed numbers towards zero. SDIV does that exactly unless it divides the least number by
      2^64 - 1. */
  lemma DivisionMeans(x: nat, y: nat)
    requires IsWord(x) && IsWord(y)
    ensures y == 0 ==> Compute(DIV, [x, y]) == Compute(MOD, [x, y]) == 0
    ensures y == 0 ==> Compute(SDIV, [x, y]) == Compute(SMOD, [x, y]) == 0
    ensures y != 0 ==> x == Compute(DIV, [x, y]) * y + Compute(MOD, [x, y]) && Compute(MOD, [x, y]) < y
    ensures y != 0 ==> Signed(Half(), Compute(SMOD, [x, y])) == Remainder(Signed(Half(), x), Signed(Half(), y))
    ensures y != 0 ==>
              (Compute(SDIV, [x, y]) == Wrap(Size(), Trunc(Signed(Half(), x), Signed(Half(), y))) <==>
               !(x == Half() && y == MINUS_ONE_64))
  {
    SmodMeans(Half(), x, y);
    if y != 0 {
      MinusOneSmall();
      SdivMeans(Half(), MINUS_ONE_64, x, y);
      DivModEq(x, y);
    }
  }

  lemma ModularIs(x: nat, y: nat, n: nat)
    ensures Compute(ADDMOD, [x, y, n]) == ModOf(Size(), x + y, n)
    ensures Compute(MULMOD, [x, y, n]) == ModOf(Size(), x * y, n)
  {
  }

  /** ADDMOD of words: zero for a zero modulus; otherwise right exactly when the sum fits a word or the modulus divides
      2^256. */
  lemma AddmodMeans(x: nat, y: nat, n: nat)
    requires IsWord(x) && IsWord(y)
    ensures n == 0 ==> Compute(ADDMOD, [x, y, n]) == 0
    ensures n != 0 ==> (Compute(ADDMOD, [x, y, n]) == (x + y) % n <==> x + y < Size() || Size() % n == 0)
  {
    ModularIs(x, y, n);
    if n != 0 {
      AddModMeans(Size(), x, y, n);
    }
  }

  /** MULMOD: zero for a zero modulus; otherwise right exactly when the modulus divides what of the product does not fit
      a word. */
  lemma MulmodMeans(x: nat, y: nat, z: nat, n: nat)
    requires z == x * y
    ensures n == 0 ==> Compute(MULMOD, [x, y, n]) == 0
    ensures n != 0 ==> (Compute(MULMOD, [x, y, n]) == z % n <==> CutOff(Size(), z) % n == 0)
  {
    ModularIs(x, y, n);
    if n != 0 {
      ModOfMeans(Size(), z, n);
    }
  }

  /** Comparisons of the words and of the signed numbers. */
  lemma ComparisonMeans(x: nat, y: nat)
    requires IsWord(x) && IsWord(y)
    ensures Compute(LT, [x, y]) == Truth(x < y) && Compute(GT, [x, y]) == Truth(x > y)
    ensures Compute(EQ, [x, y]) == Truth(x == y) && Compute(ISZERO, [x]) == Truth(x == 0)
    ensures Compute(SLT, [x, y]) == Truth(Signed(Half(), x) < Signed(Half(), y))
    ensures Compute(SGT, [x, y]) == Truth(Signed(Half(), x) > Signed(Half(), y))
  {
    BelowMeans(Half(), x, y);
    BelowMeans(Half(), y, x);
  }

  lemma NotIs(k: nat, x: nat)
    requires x < Pow2(k)
    ensures Wrap(Pow2(k), -1 - x) == Complement(k, x)
  {
    WrapIs(Pow2(k), -1 - x, -1, Complement(k, x));
  }

  lemma BitsAre(x: nat, y: nat)
    ensures Compute(AND, [x, y]) == And(x, y) && Compute(OR, [x, y]) == Or(x, y) && Compute(XOR, [x, y]) == Xor(x, y)
    ensures Compute(NOT, [x]) == Wrap(Size(), -1 - x)
  {
  }

  /** The bitwise instructions, bit by bit. */
  lemma BitsMean(x: nat, y: nat, i: nat)
    requires IsWord(x) && IsWord(y) && i < Width()
    ensures Bit(Compute(AND, [x, y]), i) <==> Bit(x, i) && Bit(y, i)
    ensures Bit(Compute(OR, [x, y]), i) <==> Bit(x, i) || Bit(y, i)
    ensures Bit(Compute(XOR, [x, y]), i) <==> Bit(x, i) != Bit(y, i)
    ensures Bit(Compute(NOT, [x]), i) <==> !Bit(x, i)
  {
    BitsAre(x, y);
    AndBit(x, y, i);
    OrBit(x, y, i);
    XorBit(x, y, i);
    NotIs(Width(), x);
    ComplementMeans(Width(), x, i);
  }

  /** Shifts by the first operand of the second, however far. */
  lemma ShiftsMean(x: nat, y: nat)
    requires IsWord(y)
    ensures Compute(SHL, [x, y]) == Wrap(Size(), y * Pow2(x)) && Compute(SHR, [x, y]) == Quot(y, Pow2(x))
    ensures Signed(Half(), Compute(SAR, [x, y])) == Signed(Half(), y) / Pow2(x)
  {
    assert Compute(SHL, [x, y]) == Shifts(SHL, x, y) && Compute(SHR, [x, y]) == Shifts(SHR, x, y);
    assert Compute(SAR, [x, y]) == Shifts(SAR, x, y);
    ShlMeans(Width(), y, x);
    ShrMeans(Width(), y, x);
    SarMeans(Width(), y, x);
  }

  /** The byte of the second operand that the first counts from the left; zero where there is none. */
  lemma ByteOpMeans(x: nat, y: nat)
    ensures x < 32 ==> Compute(BYTE, [x, y]) == Fixed(y, 32)[x]
    ensures x >= 32 ==> Compute(BYTE, [x]) == 0
  {
    assert Compute(BYTE, [x, y]) == Shifts(BYTE, x, y);
    if x < 32 {
      ByteMeans(32, x, y);
    }
  }

  lemma ExtensionIs(x: nat, y: nat)
    ensures Compute(SIGNEXTEND, [x, y]) == SignExtend(Width(), x, y)
  {
    assert Compute(SIGNEXTEND, [x, y]) == Further(SIGNEXTEND, x, y, 0);
  }

  lemma Extends(k: nat, x: nat, y: nat, w: nat)
    requires k >= 8 * 32 && w == SignExtend(k, x, y)
    ensures x < 32 ==> Signed(Pow2(k - 1), w) == LowSigned(y, 8 * x + 8)
    ensures x >= 32 ==> w == y
  {
    SignExtendMeans(k, x, y);
  }

  /** The sign extension of the second operand from the byte that the first counts from the right. */
  lemma ExtensionMeans(x: nat, y: nat)
    ensures x < 32 ==> Signed(Half(), Compute(SIGNEXTEND, [x, y])) == LowSigned(y, 8 * x + 8)
    ensures x >= 32 ==> Compute(SIGNEXTEND, [x, y]) == y
  {
    ExtensionIs(x, y);
    Extends(Width(), x, y, Compute(SIGNEXTEND, [x, y]));
  }

  /** Powers modulo 2^256. */
  lemma ExpMeans(x: nat, y: nat)
    ensures Compute(EXP, [x, y]) == Wrap(Size(), Power(x, y))
  {
    assert Compute(EXP, [x, y]) == Further(EXP, x, y, 0);
  }
}
