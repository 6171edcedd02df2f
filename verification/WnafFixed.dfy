/** The fixed-length signed recoding secp256k1_wnaf_fixed, which Pippenger's buckets use. */
module WnafFixed {
  import opened Arith
  import opened Bits
  import opened Digits
  import opened Scalars

  const WNAF_BITS: nat := 256

  /** The number of base-2^w words that cover a scalar: 256/w rounded up. */
  function WnafSize(w: nat): (r: nat)
    requires w > 0
  {
    CeilDiv(WNAF_BITS, w)
  }

  /** A digit is 0 or odd, and below 2^w in absolute value. */
  ghost predicate FixedDigit(d: int, w: nat)
  {
    -(Pow2(w) as int) < d < Pow2(w) && (d != 0 ==> d % 2 == 1)
  }

  /** What the recoding promises: the digits stand for s plus the returned skew. */
  ghost predicate FixedWnafOf(ds: seq<int>, s: nat, w: nat, skew: int)
    requires w > 0
  {
    && |ds| == WnafSize(w)
    && 0 <= skew <= 1
    && Value(ds, w) == s + skew
    && forall i :: 0 <= i < |ds| ==> FixedDigit(ds[i], w)
  }

  /** Reading the short last window reads the whole top word. */
  lemma TopWord(s: nat, w: nat, pos: nat, width: nat)
    requires s < TWO256 && Times(w, pos) + width == WNAF_BITS && width <= w
    ensures GetBits(s, Times(w, pos), width) == GetBits(s, Times(w, pos), w)
  {
    TwoTo255();
    ShrBound(s, Times(w, pos), width);
    LowSmall(Shr(s, Times(w, pos)), width);
    Pow2Mono(width, w);
    LowSmall(Shr(s, Times(w, pos)), w);
  }

  lemma NothingAbove(s: nat, k: nat)
    requires s < TWO256 && k >= WNAF_BITS
    ensures Shr(s, k) == 0
  {
    TwoTo255();
    Pow2Mono(WNAF_BITS, k);
    LowSmall(s, k);
  }

  /** A zero top word extends the run of leading zeros by one word. */
  lemma LeadingZero(s: nat, w: nat, pos: nat)
    requires Shr(s, Times(w, pos + 1)) == 0 && GetBits(s, Times(w, pos), w) == 0
    ensures Shr(s, Times(w, pos)) == 0
  {
    ShrShr(s, Times(w, pos), w);
    SplitBits(Shr(s, Times(w, pos)), w);
    ShlZero(w);
  }

  /** The loop's state: the first pos digits stand for the first pos words, and the last one is odd and positive. */
  ghost predicate Recoding(ds: seq<int>, s: nat, w: nat, pos: nat, skew: int)
  {
    && 1 <= pos <= |ds|
    && Value(ds[..pos], w) == Low(s, Times(w, pos)) + skew
    && (forall i :: 0 <= i < pos ==> FixedDigit(ds[i], w))
    && ds[pos - 1] > 0
  }

  lemma FirstDigit(ds: seq<int>, s: nat, w: nat, skew: int)
    requires ds != [] && w >= 1 && skew == (if s % 2 == 0 then 1 else 0)
    requires ds[0] == GetBits(s, 0, w) + skew
    ensures Recoding(ds, s, w, 1, skew)
  {
    assert GetBits(s, 0, w) == Low(s, w);
    FirstDigitRange(s, w, skew);
    assert ds[..1] == [ds[0]];
    SingleValue(ds[0], w);
    assert Times(w, 1) == w;
  }

  lemma SingleValue(d: int, w: nat)
    ensures Value([d], w) == d
  {
    assert [d][1..] == [];
    ShlZero(w);
  }

  lemma OddBelow(x: int, p: int)
    requires 0 <= x < 2 * p
    ensures x % 2 == 0 ==> x + 1 < 2 * p
  {
  }

  lemma FirstDigitRange(s: nat, w: nat, skew: int)
    requires w >= 1 && skew == (if s % 2 == 0 then 1 else 0)
    ensures FixedDigit(Low(s, w) + skew, w) && Low(s, w) + skew > 0
  {
    LowBound(s, w);
    LowParity(s, w);
    assert Pow2(w) == 2 * Pow2(w - 1);
    OddBelow(Low(s, w), Pow2(w - 1));
  }

  lemma LowParity(s: nat, w: nat)
    requires w >= 1
    ensures Low(s, w) % 2 == s % 2
  {
  }

  /** The digits after word `val` is written at position pos, borrowing 2^w from the digit below when it is even. */
  function WithWord(ds: seq<int>, pos: nat, val: nat, w: nat): (r: seq<int>)
    requires 1 <= pos < |ds|
  {
    if val % 2 == 0 then ds[pos - 1 := ds[pos - 1] - Pow2(w)][pos := val + 1] else ds[pos := val]
  }

  lemma AppendValue(ds: seq<int>, s: nat, w: nat, pos: nat, skew: int, val: nat)
    requires 1 <= pos < |ds| && val == GetBits(s, Times(w, pos), w)
    requires Value(ds[..pos], w) == Low(s, Times(w, pos)) + skew
    ensures Value(WithWord(ds, pos, val, w)[..pos + 1], w) == Low(s, Times(w, pos + 1)) + skew
  {
    var ds', a := WithWord(ds, pos, val, w), ds[..pos] + [val];
    ValueSnoc(ds[..pos], val, w);
    LowLow(s, Times(w, pos), w);
    if val % 2 == 0 {
      ShlOne(w);
      ValueCarry(a, pos - 1, 1, w);
      assert ds'[..pos + 1] == a[pos - 1 := a[pos - 1] - Shl(1, w)][pos := a[pos] + 1];
    } else {
      assert ds'[..pos + 1] == a;
    }
  }

  /** Borrowing turns a positive digit into a negative one of the digit set; an even word plus one is odd. */
  lemma AppendDigits(d: int, val: nat, w: nat)
    requires w >= 1 && FixedDigit(d, w) && d > 0 && val < Pow2(w) && val % 2 == 0
    ensures FixedDigit(d - Pow2(w), w) && FixedDigit(val + 1, w)
  {
    Pow2Even(w);
  }

  lemma AppendWord(ds: seq<int>, s: nat, w: nat, pos: nat, skew: int, val: nat)
    requires w >= 1 && Recoding(ds, s, w, pos, skew) && pos < |ds| && val == GetBits(s, Times(w, pos), w)
    ensures Recoding(WithWord(ds, pos, val, w), s, w, pos + 1, skew)
  {
    AppendValue(ds, s, w, pos, skew, val);
    LowBound(Shr(s, Times(w, pos)), w);
    if val % 2 == 0 { AppendDigits(ds[pos - 1], val, w); }
  }

  /** A digit 1 or -1 just below pos, over a digit of the other sign, can be folded into that digit. */
  predicate Foldable(ds: seq<int>, pos: nat)
    requires pos < |ds|
  {
    pos >= 2 && ((ds[pos - 1] == 1 && ds[pos - 2] < 0) || (ds[pos - 1] == -1 && ds[pos - 2] > 0))
  }

  function Folded(ds: seq<int>, pos: nat, w: nat): (r: seq<int>)
    requires pos < |ds|
  {
    if !Foldable(ds, pos) then ds
    else ds[pos - 2 := if ds[pos - 1] == 1 then ds[pos - 2] + Pow2(w) else ds[pos - 2] - Pow2(w)][pos - 1 := 0]
  }

  /** Folding keeps the value and the digit set. */
  lemma FoldKeeps(ds: seq<int>, s: nat, w: nat, pos: nat, skew: int)
    requires w >= 1 && pos < |ds| && Recoding(ds, s, w, pos + 1, skew)
    ensures Recoding(Folded(ds, pos, w), s, w, pos + 1, skew)
  {
    if Foldable(ds, pos) {
      FoldValue(ds, w, pos);
      FoldDigits(ds, w, pos);
    }
  }

  lemma FoldValue(ds: seq<int>, w: nat, pos: nat)
    requires pos < |ds| && Foldable(ds, pos)
    ensures Value(Folded(ds, pos, w)[..pos + 1], w) == Value(ds[..pos + 1], w)
  {
    var c, ds' := ds[pos - 1], Folded(ds, pos, w);
    ShlOne(w);
    ShlNeg(1, w);
    ValueCarry(ds[..pos + 1], pos - 2, -c, w);
    assert ds'[..pos + 1] == ds[..pos + 1][pos - 2 := ds[pos - 2] - Shl(-c, w)][pos - 1 := ds[pos - 1] + -c];
  }

  lemma FoldDigits(ds: seq<int>, w: nat, pos: nat)
    requires w >= 1 && pos < |ds| && Foldable(ds, pos) && forall i :: 0 <= i <= pos ==> FixedDigit(ds[i], w)
    ensures var r := Folded(ds, pos, w); forall i :: 0 <= i <= pos ==> FixedDigit(r[i], w)
  {
    assert FixedDigit(ds[pos - 2], w);
    Pow2Even(w);
  }

  ghost predicate ZeroAbove(ds: seq<int>, pos: nat)
  {
    forall i :: pos < i < |ds| ==> ds[i] == 0
  }

  lemma RestZero(ds: seq<int>, pos: nat, val: nat, w: nat, maxPos: nat)
    requires 1 <= pos < |ds| && pos <= maxPos && ZeroAbove(ds, maxPos)
    ensures ZeroAbove(Folded(WithWord(ds, pos, val, w), pos, w), maxPos)
  {
  }

  method WriteWord(wnaf: array<int>, pos: nat, val: nat, w: nat)
    requires 1 <= pos < wnaf.Length
    modifies wnaf
    ensures wnaf[..] == Folded(WithWord(old(wnaf[..]), pos, val, w), pos, w)
  {
    ghost var ds := wnaf[..];
    if val % 2 == 0 {
      wnaf[pos - 1] := wnaf[pos - 1] - Pow2(w);
      wnaf[pos] := val + 1;
    } else {
      wnaf[pos] := val;
    }
    assert wnaf[..] == WithWord(ds, pos, val, w);
    if pos >= 2 && ((wnaf[pos - 1] == 1 && wnaf[pos - 2] < 0) || (wnaf[pos - 1] == -1 && wnaf[pos - 2] > 0)) {
      if wnaf[pos - 1] == 1 {
        wnaf[pos - 2] := wnaf[pos - 2] + Pow2(w);
      } else {
        wnaf[pos - 2] := wnaf[pos - 2] - Pow2(w);
      }
      wnaf[pos - 1] := 0;
    }
  }

  method WnafFixed(wnaf: array<int>, s: nat, w: nat) returns (skew: int)
    requires s < TWO256 && 1 <= w <= 31 && wnaf.Length == WnafSize(w)
    modifies wnaf
    ensures FixedWnafOf(wnaf[..], s, w, skew)
  {
    skew := 0;
    var size := WnafSize(w);
    if s == 0 {
      ZeroFrom(wnaf, 0);
      ValueZeros(wnaf[..], w);
      return 0;
    }
    if s % 2 == 0 { skew := 1; }
    wnaf[0] := GetBits(s, 0, w) + skew;
    var lastW := WNAF_BITS - Times(w, size - 1);
    var maxPos := SkipLeadingZeros(wnaf, s, w, lastW);
    ghost var ds := wnaf[..];
    FirstDigit(ds, s, w, skew);
    var pos := 1;
    while pos <= maxPos
      invariant 1 <= pos <= maxPos + 1 && wnaf[..] == ds
      invariant Recoding(ds, s, w, pos, skew)
      invariant ZeroAbove(ds, maxPos)
    {
      var val := GetBits(s, Times(w, pos), if pos == size - 1 then lastW else w);
      if pos == size - 1 { TopWord(s, w, pos, lastW); }
      AppendWord(ds, s, w, pos, skew, val);
      FoldKeeps(WithWord(ds, pos, val, w), s, w, pos, skew);
      WriteWord(wnaf, pos, val, w);
      RestZero(ds, pos, val, w, maxPos);
      ds := Folded(WithWord(ds, pos, val, w), pos, w);
      pos := pos + 1;
    }
    Finished(ds, s, w, pos, skew);
  }

  lemma Finished(ds: seq<int>, s: nat, w: nat, pos: nat, skew: int)
    requires w >= 1 && |ds| == WnafSize(w) && Recoding(ds, s, w, pos, skew) && 0 <= skew <= 1
    requires Shr(s, Times(w, pos)) == 0 && forall i :: pos <= i < |ds| ==> ds[i] == 0
    ensures FixedWnafOf(ds, s, w, skew)
  {
    ValuePrefix(ds, pos, w);
    SplitBits(s, Times(w, pos));
    ShlZero(Times(w, pos));
  }

  method ZeroFrom(wnaf: array<int>, from: nat)
    requires from <= wnaf.Length
    modifies wnaf
    ensures forall i :: 0 <= i < wnaf.Length ==> wnaf[i] == if i < from then old(wnaf[i]) else 0
  {
    for i := from to wnaf.Length
      invariant forall j :: 0 <= j < wnaf.Length ==> wnaf[j] == if from <= j < i then 0 else old(wnaf[j])
    {
      wnaf[i] := 0;
    }
  }

  /** The topmost nonzero word above word 0, clearing the digits above it. */
  method SkipLeadingZeros(wnaf: array<int>, s: nat, w: nat, lastW: nat) returns (maxPos: nat)
    requires s < TWO256 && 1 <= w <= 31 && wnaf.Length == WnafSize(w) && wnaf.Length >= 1
    requires Times(w, wnaf.Length - 1) + lastW == WNAF_BITS && lastW <= w
    modifies wnaf
    ensures maxPos < wnaf.Length && Shr(s, Times(w, maxPos + 1)) == 0
    ensures forall i :: 0 <= i < wnaf.Length ==> wnaf[i] == if i <= maxPos then old(wnaf[i]) else 0
  {
    maxPos := wnaf.Length - 1;
    NothingAbove(s, Times(w, wnaf.Length));
    while maxPos > 0
      invariant maxPos < wnaf.Length && Shr(s, Times(w, maxPos + 1)) == 0
      invariant forall i :: 0 <= i < wnaf.Length ==> wnaf[i] == if i <= maxPos then old(wnaf[i]) else 0
    {
      var val := GetBits(s, Times(w, maxPos), if maxPos == wnaf.Length - 1 then lastW else w);
      if maxPos == wnaf.Length - 1 { TopWord(s, w, maxPos, lastW); }
      if val != 0 { break; }
      LeadingZero(s, w, maxPos);
      wnaf[maxPos] := 0;
      maxPos := maxPos - 1;
    }
  }
}
