/** The sliding-window signed recoding secp256k1_ecmult_wnaf. */
module Wnaf {
  import opened Arith
  import opened Bits
  import opened Digits
  import opened Scalars

  function Abs(x: int): (r: nat) { if x < 0 then -x else x }

  function Min(a: int, b: int): (r: int) { if a < b then a else b }

  /** A nonzero digit is odd and fits the table of odd multiples for window w. */
  ghost predicate WindowDigit(d: int, w: nat)
    requires w >= 1
  {
    d == 0 || (d % 2 == 1 && Abs(d) <= Pow2(w - 1) - 1)
  }

  /** Two nonzero digits are separated by at least w - 1 zeros. */
  ghost predicate Sparse(ds: seq<int>, w: nat)
  {
    forall i, j :: 0 <= i < j < |ds| && ds[i] != 0 && ds[j] != 0 ==> j - i >= w
  }

  /** What the recoding promises: exact value, window digits, sparsity, and the returned length. */
  ghost predicate WnafOf(ds: seq<int>, a: Scalar, w: nat, bits: nat)
    requires w >= 1
  {
    && Value(ds, 1) == Signed(a)
    && (forall i :: 0 <= i < |ds| ==> WindowDigit(ds[i], w))
    && Sparse(ds, w)
    && bits <= |ds|
    && (forall i :: bits <= i < |ds| ==> ds[i] == 0)
    && (bits > 0 ==> ds[bits - 1] != 0)
    && (bits >= 2 ==> Pow2(bits - 2) <= Abs(Signed(a)))
  }

  lemma ValueDigitThenZeros(ds: seq<int>, pos: nat, now: nat)
    requires 1 <= now && pos + now <= |ds|
    requires forall i :: pos < i < pos + now ==> ds[i] == 0
    ensures Value(ds[..pos + now], 1) == Value(ds[..pos], 1) + Shl(ds[pos], pos)
  {
    assert ds[..pos + now][..pos + 1] == ds[..pos] + [ds[pos]];
    ValuePrefix(ds[..pos + now], pos + 1, 1);
    ValueSnoc(ds[..pos], ds[pos], 1);
    TimesIsMul(1, pos);
  }

  lemma FoldedRange(word: nat, q: nat, d: int)
    requires word % 2 == 1 && word <= 4 * q && d == if word >= 2 * q then word - 4 * q else word
    ensures d != 0 && d % 2 == 1 && Abs(d) <= 2 * q - 1 && word != 2 * q && word != 4 * q
  {
  }

  /** The top bit of the window becomes the carry, which folds the digit into the signed range. */
  lemma FoldDigit(word: nat, w: nat, carry': int, d: int)
    requires 2 <= w && word % 2 == 1 && word <= Pow2(w)
    requires carry' == Shr(word, w - 1) % 2 && d == word - Shl(carry', w)
    ensures d != 0 && WindowDigit(d, w) && 0 <= carry' <= 1
    ensures (carry' == 1) <==> word >= Pow2(w - 1)
    ensures word != Pow2(w - 1)
  {
    assert Pow2(w) == 2 * Pow2(w - 1) && Pow2(w - 1) == 2 * Pow2(w - 2);
    FoldedRange(word, Pow2(w - 2), if word >= Pow2(w - 1) then word - Pow2(w) else word);
    LowSmall(word, w);
    LowTopBit(word, w);
    if carry' == 1 { ShlOne(w); } else { ShlZero(w); }
  }

  /** The window's word is odd, because its lowest bit differs from the carry. */
  lemma OddWord(q: nat, now: nat, w: nat, carry: nat)
    requires 1 <= now <= w && carry <= 1 && q % 2 != carry
    ensures (Low(q, now) + carry) % 2 == 1 && Low(q, now) + carry <= Pow2(w)
  {
    LowBound(q, now);
    Pow2Mono(now, w);
  }

  /** In the last window the top bit is clear, so nothing is carried out of it. */
  lemma LastWord(s: nat, bit: nat, now: nat, w: nat, carry: nat)
    requires 1 <= now <= w && carry <= 1 && s < Pow2(bit + (now - 1))
    ensures Low(Shr(s, bit), now) + carry <= Pow2(w - 1)
  {
    ShrBound(s, bit, now - 1);
    Pow2Mono(now - 1, w - 1);
    LowSmall(Shr(s, bit), now);
  }

  lemma Remainder(s: nat, bit: nat, now: nat, w: nat, carry: int, carry': int)
    requires carry' == 0 || (carry' == 1 && now == w)
    ensures Low(Shr(s, bit), now) + carry - Shl(carry', w) + Shl(carry' + Shr(s, bit + now), now) == carry + Shr(s, bit)
  {
    SplitBits(Shr(s, bit), now);
    ShrShr(s, bit, now);
    ShlAdd(carry', Shr(s, bit + now), now);
    if carry' == 0 { ShlZero(now); ShlZero(w); }
  }

  lemma CarriedBit(s: nat, bit: nat, w: nat, carry: nat)
    requires w >= 1 && carry <= 1 && Low(Shr(s, bit), w) + carry > Pow2(w - 1)
    ensures Shr(s, bit + w - 1) % 2 == 1
  {
    LowTopBit(Shr(s, bit), w);
    ShrShr(s, bit, w - 1);
  }

  /** One emitted digit: it is a window digit, and digit plus what is left accounts for carry plus what was left. */
  lemma EmitDigit(s: nat, len: nat, bit: nat, now: nat, w: nat, carry: nat, word: nat, carry': int, d: int)
    requires 2 <= w && bit < len && now == Min(w, len - bit) && carry <= 1
    requires s < Pow2(len - 1)
    requires Shr(s, bit) % 2 != carry
    requires word == GetBits(s, bit, now) + carry
    requires carry' == Shr(word, w - 1) % 2 && d == word - Shl(carry', w)
    ensures d != 0 && WindowDigit(d, w) && 0 <= carry' <= 1
    ensures bit + now == len ==> carry' == 0
    ensures d + Shl(carry' + Shr(s, bit + now), now) == carry + Shr(s, bit)
    ensures carry' == 1 ==> Shr(s, bit + now - 1) % 2 == 1
  {
    OddWord(Shr(s, bit), now, w, carry);
    FoldDigit(word, w, carry', d);
    if bit + now == len {
      assert bit + (now - 1) == len - 1;
      LastWord(s, bit, now, w, carry);
    } else if carry' == 1 {
      CarriedBit(s, bit, w, carry);
    }
    Remainder(s, bit, now, w, carry, carry');
  }

  /** sign * x, for a sign of 1 or -1 */
  function Oriented(sign: int, x: int): (r: int) { if sign < 0 then -x else x }

  /** The loop's state after `bit` positions, the digits: what is set so far is sparse and ends at `last`. */
  ghost predicate Shape(ds: seq<int>, w: nat, bit: nat, last: int)
    requires w >= 1
  {
    && bit <= |ds| && -1 <= last < bit
    && (forall i :: 0 <= i < |ds| ==> WindowDigit(ds[i], w))
    && Sparse(ds, w)
    && (forall i :: 0 <= i < bit && ds[i] != 0 ==> i + w <= bit || bit == |ds|)
    && (forall i :: last < i < |ds| ==> ds[i] == 0)
    && (last >= 0 ==> ds[last] != 0)
  }

  /** The loop's state after `bit` positions, the value: digits plus carry plus unread bits make up s. */
  ghost predicate Account(ds: seq<int>, s: nat, bit: nat, sign: int, carry: int, last: int)
    requires bit <= |ds|
  {
    && 0 <= carry <= 1
    && Oriented(sign, Value(ds[..bit], 1)) + Shl(carry + Shr(s, bit), bit) == s
    && (bit == |ds| ==> carry == 0)
    && (carry == 1 ==> bit >= 1 && Shr(s, bit - 1) % 2 == 1)
    && (last >= 1 ==> Pow2(last - 1) <= s)
  }

  lemma SkipKeeps(ds: seq<int>, s: nat, w: nat, bit: nat, sign: int, carry: int, last: int)
    requires w >= 1 && bit < |ds| && s < Pow2(|ds| - 1)
    requires Shape(ds, w, bit, last) && Account(ds, s, bit, sign, carry, last) && Shr(s, bit) % 2 == carry
    ensures Shape(ds, w, bit + 1, last) && Account(ds, s, bit + 1, sign, carry, last)
  {
    ValueDigitThenZeros(ds, bit, 1);
    ShlZero(bit);
    var q := Shr(s, bit);
    ShrShr(s, bit, 1);
    assert Shr(q, 1) == q / 2;
    ShlShl(carry + q / 2, 1, bit);
    assert Shl(carry + q / 2, 1) == carry + q;
    if bit + 1 == |ds| { ShrBound(s, bit, 0); }
  }

  lemma EmitShape(ds: seq<int>, w: nat, bit: nat, last: int, now: nat, d: int)
    requires w >= 1 && bit < |ds| && now == Min(w, |ds| - bit)
    requires Shape(ds, w, bit, last) && d != 0 && WindowDigit(d, w)
    ensures Shape(ds[bit := d], w, bit + now, bit)
  {
  }

  lemma EmitValue(ds: seq<int>, s: nat, bit: nat, sign: int, left: int, now: nat, left': int, d: int)
    requires 1 <= now && bit + now <= |ds|
    requires forall i :: bit < i < |ds| ==> ds[i] == 0
    requires Oriented(sign, Value(ds[..bit], 1)) + Shl(left, bit) == s && d + Shl(left', now) == left
    ensures Oriented(sign, Value(ds[bit := Oriented(sign, d)][..bit + now], 1)) + Shl(left', bit + now) == s
  {
    var ds' := ds[bit := Oriented(sign, d)];
    assert ds'[..bit] == ds[..bit];
    ValueDigitThenZeros(ds', bit, now);
    ShlNeg(d, bit);
    ShlAdd(d, Shl(left', now), bit);
    ShlShl(left', now, bit);
  }

  lemma OppositeDigit(d: int, w: nat)
    requires w >= 1 && WindowDigit(d, w)
    ensures WindowDigit(-d, w)
  {
  }

  lemma EmitAccount(ds: seq<int>, s: nat, w: nat, bit: nat, sign: int, carry: nat, last: int,
                    now: nat, word: nat, carry': int, d: int)
    requires 2 <= w && bit < |ds| && s < Pow2(|ds| - 1)
    requires Account(ds, s, bit, sign, carry, last) && Shr(s, bit) % 2 != carry
    requires forall i :: bit < i < |ds| ==> ds[i] == 0
    requires now == Min(w, |ds| - bit) && word == GetBits(s, bit, now) + carry
    requires carry' == Shr(word, w - 1) % 2 && d == word - Shl(carry', w)
    ensures Account(ds[bit := Oriented(sign, d)], s, bit + now, sign, carry', bit)
    ensures d != 0 && WindowDigit(d, w) && WindowDigit(-d, w)
  {
    if bit >= 1 { HasBitBelow(s, bit, carry); }
    EmitDigit(s, |ds|, bit, now, w, carry, word, carry', d);
    EmitValue(ds, s, bit, sign, carry + Shr(s, bit), now, carry' + Shr(s, bit + now), d);
    OppositeDigit(d, w);
  }

  /** Where a digit is emitted, s has a bit there or just below. */
  lemma HasBitBelow(s: nat, bit: nat, carry: nat)
    requires bit >= 1 && 0 <= carry <= 1 && Shr(s, bit) % 2 != carry && (carry == 1 ==> Shr(s, bit - 1) % 2 == 1)
    ensures Pow2(bit - 1) <= s
  {
    if carry == 1 { ShrNonzero(s, bit - 1); } else { ShrNonzero(s, bit); Pow2Mono(bit - 1, bit); }
  }

  /** When every position is read, the digits are the promised recoding. */
  lemma Finished(ds: seq<int>, a: Scalar, s: nat, w: nat, sign: int, carry: int, last: int)
    requires w >= 1 && ds != [] && s < Pow2(|ds| - 1) && Signed(a) == Oriented(sign, s)
    requires Shape(ds, w, |ds|, last) && Account(ds, s, |ds|, sign, carry, last)
    ensures WnafOf(ds, a, w, last + 1)
  {
    Pow2Mono(|ds| - 1, |ds|);
    LowSmall(s, |ds|);
    ShlZero(|ds|);
    assert ds[..|ds|] == ds;
  }

  /** A scalar with bit 255 set is recoded through its negation. */
  method Magnitude(a: Scalar) returns (s: Scalar, sign: int)
    ensures (sign == 1 || sign == -1) && Signed(a) == Oriented(sign, s) && s < TWO255
  {
    s, sign := a, 1;
    Bit255(s);
    if GetBits(s, 255, 1) == 1 {
      s, sign := Negate(s), -1;
    }
  }

  method ClearDigits(wnaf: array<int>)
    modifies wnaf
    ensures forall i :: 0 <= i < wnaf.Length ==> wnaf[i] == 0
  {
    for i := 0 to wnaf.Length
      invariant forall j :: 0 <= j < i ==> wnaf[j] == 0
    {
      wnaf[i] := 0;
    }
  }

  /** Emits the digit of the window that starts at `bit`. */
  method EmitWindow(wnaf: array<int>, s: nat, w: nat, bit: nat, sign: int, carry: nat, ghost last: int)
    returns (carry': nat, now: nat)
    requires 2 <= w && bit < wnaf.Length && s < Pow2(wnaf.Length - 1)
    requires Shape(wnaf[..], w, bit, last) && Account(wnaf[..], s, bit, sign, carry, last) && Shr(s, bit) % 2 != carry
    modifies wnaf
    ensures now >= 1 && bit + now <= wnaf.Length
    ensures Shape(wnaf[..], w, bit + now, bit) && Account(wnaf[..], s, bit + now, sign, carry', bit)
  {
    ghost var ds := wnaf[..];
    now := w;
    if now > wnaf.Length - bit { now := wnaf.Length - bit; }
    var word := GetBits(s, bit, now) + carry;
    carry' := Shr(word, w - 1) % 2;
    var d := word - Shl(carry', w);
    EmitAccount(ds, s, w, bit, sign, carry, last, now, word, carry', d);
    EmitShape(ds, w, bit, last, now, Oriented(sign, d));
    wnaf[bit] := Oriented(sign, d);
    assert wnaf[..] == ds[bit := Oriented(sign, d)];
  }

  method EcmultWnaf(wnaf: array<int>, len: nat, a: Scalar, w: nat) returns (bits: nat)
    requires 1 <= len <= 256 && len == wnaf.Length && 2 <= w <= 31
    requires Abs(Signed(a)) < Pow2(len - 1)
    modifies wnaf
    ensures WnafOf(wnaf[..], a, w, bits)
  {
    var lastSetBit, bit, carry := -1, 0, 0;
    ClearDigits(wnaf);
    var s, sign := Magnitude(a);
    while bit < len
      invariant 0 <= bit <= len
      invariant Shape(wnaf[..], w, bit, lastSetBit)
      invariant Account(wnaf[..], s, bit, sign, carry, lastSetBit)
    {
      if GetBits(s, bit, 1) == carry {
        SkipKeeps(wnaf[..], s, w, bit, sign, carry, lastSetBit);
        bit := bit + 1;
        continue;
      }
      var carry', now := EmitWindow(wnaf, s, w, bit, sign, carry, lastSetBit);
      carry, lastSetBit, bit := carry', bit, bit + now;
    }
    Finished(wnaf[..], a, s, w, sign, carry, lastSetBit);
    bits := lastSetBit + 1;
  }
}
