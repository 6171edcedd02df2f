/** Multiplication of a secret scalar by a point: the constant-window method secp256k1_ecmult_const. */
module EcmultConst {
  import opened Arith
  import opened Bits
  import opened Digits
  import opened Scalars
  import opened Groups
  import opened Wnaf
  import opened Strauss
  import opened WnafConst

  /** Every multiple of a by less than the group order is finite, as for any finite point of a group of prime order. */
  ghost predicate FullOrder<P(!new)>(g: Group<P>, a: P)
  {
    forall k :: 0 < k < N ==> Smul(g, k, a) != g.zero
  }

  lemma SmallMultipleNonzero<P(!new)>(g: Group<P>, k: int, a: P)
    requires Abelian(g) && FullOrder(g, a) && 0 < Abs(k) < N
    ensures Smul(g, k, a) != g.zero
  {
    if k < 0 {
      SmulNeg(g, -k, a);
      NegNeg(g, Smul(g, -k, a));
      NegZero(g);
    }
  }

  /** Doubling by a formula that is only right for a finite point. */
  method DoubleNonzero<P(!new)>(g: Group<P>, p: P) returns (r: P)
    requires p != g.zero
    ensures r == g.add(p, p)
  {
    r := g.add(p, p);
  }

  /** Addition by a formula that is only right when the second point is finite. */
  method AddFinite<P(!new)>(g: Group<P>, p: P, q: P) returns (r: P)
    requires q != g.zero
    ensures r == g.add(p, q)
  {
    r := g.add(p, q);
  }

  /** Reads the whole table and keeps the entry wanted, so that no index depends on the digit. */
  method ConstTableGet<P(!new)>(g: Group<P>, pre: seq<P>, n: int) returns (r: P)
    requires n % 2 == 1 && Abs(n) <= 2 * |pre| - 1
    ensures r == TableGet(g, pre, n)
  {
    var absN := if n > 0 then n else -n;
    var idx := absN / 2;
    r := pre[0];
    for m := 0 to |pre|
      invariant m > idx ==> r == pre[idx]
    {
      if m == idx { r := pre[m]; }
    }
    if n != absN { r := g.neg(r); }
  }

  lemma OddDigitBound(d: int)
    requires OddDigit(d, 4)
    ensures Abs(d) <= 15
  {
    assert Pow2(4) == 16;
  }

  /** The values of the digits from i on are odd, so never zero. */
  lemma {:induction false} SuffixOdd(ds: seq<int>, i: nat)
    requires i < |ds| && forall k :: 0 <= k < |ds| ==> OddDigit(ds[k], 4)
    ensures Value(ds[i..], 4) % 2 == 1
  {
    assert ds[i..][1..] == ds[i + 1..];
  }

  /** Above the lowest digit, the accumulated value stays a sixteenth of the whole. */
  lemma {:induction false} SuffixBound(ds: seq<int>, i: nat)
    requires 1 <= i < |ds| && forall k :: 0 <= k < |ds| ==> OddDigit(ds[k], 4)
    ensures 16 * Abs(Value(ds[i..], 4)) <= Abs(Value(ds, 4)) + 15
  {
    if i > 1 { SuffixBound(ds, i - 1); SuffixOdd(ds, 0); }
    assert ds[i - 1..][1..] == ds[i..] && ds[0..] == ds;
    OddDigitBound(ds[i - 1]);
  }

  lemma DoublesStayFinite<P(!new)>(g: Group<P>, v: int, j: nat, a: P)
    requires Abelian(g) && FullOrder(g, a) && v != 0 && 16 * Abs(v) <= HALF + 17 && j <= 3
    ensures Smul(g, Shl(v, j), a) != g.zero
  {
    FewDoublings(v, j);
    SmallMultipleNonzero(g, Shl(v, j), a);
  }

  lemma FewDoublings(v: int, j: nat)
    requires v != 0 && j <= 3
    ensures 0 < Abs(Shl(v, j)) <= 8 * Abs(v)
  {
    assert Shl(v, 0) == v && Shl(v, 1) == 2 * v && Shl(v, 2) == 4 * v && Shl(v, 3) == 8 * v;
    assert j == 0 || j == 1 || j == 2 || j == 3;
  }

  method FourDoublings<P(!new)>(g: Group<P>, p: P, ghost v: int, ghost a: P) returns (r: P)
    requires Abelian(g) && FullOrder(g, a) && v != 0 && 16 * Abs(v) <= HALF + 17 && p == Smul(g, v, a)
    ensures r == Smul(g, 16 * v, a)
  {
    r := p;
    for j := 0 to 4
      invariant r == Smul(g, Shl(v, j), a)
    {
      DoublesStayFinite(g, v, j, a);
      SmulDouble(g, Shl(v, j), a);
      r := DoubleNonzero(g, r);
    }
  }

  method AddTableEntry<P(!new)>(g: Group<P>, p: P, pre: seq<P>, n: int, ghost v: int, ghost a: P) returns (r: P)
    requires Abelian(g) && FullOrder(g, a) && |pre| == TABLE_A && OddTable(g, pre, a) && OddDigit(n, 4)
    requires p == Smul(g, v, a)
    ensures r == Smul(g, v + n, a)
  {
    OddDigitBound(n);
    var t := ConstTableGet(g, pre, n);
    TableGetIsMultiple(g, pre, n, a);
    SmallMultipleNonzero(g, n, a);
    SmulAdd(g, v, n, a);
    r := AddFinite(g, p, t);
  }

  /** The main loop, over the digits from the top: four doublings and one table entry each. */
  method MultiplyDigits<P(!new)>(g: Group<P>, pre: seq<P>, ds: seq<int>, ghost a: P) returns (r: P)
    requires Abelian(g) && FullOrder(g, a) && |pre| == TABLE_A && OddTable(g, pre, a)
    requires ds != [] && Abs(Value(ds, 4)) <= HALF + 2 && forall k :: 0 <= k < |ds| ==> OddDigit(ds[k], 4)
    ensures r == Smul(g, Value(ds, 4), a)
  {
    var words := |ds| - 1;
    OddDigitBound(ds[words]);
    r := ConstTableGet(g, pre, ds[words]);
    TableGetIsMultiple(g, pre, ds[words], a);
    assert ds[words..] == [] + [ds[words]];
    ValueSnoc([], ds[words], 4);
    for i := words downto 0
      invariant r == Smul(g, Value(ds[i..], 4), a)
    {
      r := NextDigit(g, r, pre, ds, i, a);
    }
    assert ds[0..] == ds;
  }

  /** Four doublings and the addition of one digit's multiple. */
  method NextDigit<P(!new)>(g: Group<P>, p: P, pre: seq<P>, ds: seq<int>, i: nat, ghost a: P) returns (r: P)
    requires Abelian(g) && FullOrder(g, a) && |pre| == TABLE_A && OddTable(g, pre, a)
    requires Abs(Value(ds, 4)) <= HALF + 2 && forall k :: 0 <= k < |ds| ==> OddDigit(ds[k], 4)
    requires i + 1 < |ds| && p == Smul(g, Value(ds[i + 1..], 4), a)
    ensures r == Smul(g, Value(ds[i..], 4), a)
  {
    ghost var v := Value(ds[i + 1..], 4);
    SuffixOdd(ds, i + 1);
    SuffixBound(ds, i + 1);
    r := FourDoublings(g, p, v, a);
    assert ds[i..][1..] == ds[i + 1..];
    r := AddTableEntry(g, r, pre, ds[i], 16 * v, a);
  }

  /** Returns scalar * a, for every scalar and every finite point of the group. */
  method EcmultConst<P(!new)>(g: Group<P>, a: P, scalar: Scalar, size: nat) returns (r: P)
    requires Abelian(g) && Exponent(g, N) && FullOrder(g, a)
    requires size >= 1 && Abs(Centered(scalar)) < Pow2(size - 1)
    ensures r == Smul(g, scalar, a)
  {
    var wnaf := new int[CeilDiv(size, 4) + 1];
    var skew := WnafConst.WnafConst(wnaf, scalar, 4, size);
    var table := OddMultiplesTable(g, TABLE_A, a);
    r := MultiplyDigits(g, table[..], wnaf[..], a);
    r := CorrectSkew(g, r, a, scalar, skew);
  }

  /** A size of 256 serves every scalar. */
  lemma FullSize(s: Scalar)
    ensures Abs(Centered(s)) < Pow2(255)
  {
    TwoTo255();
  }

  /** Takes the recoding's skew back out. */
  method CorrectSkew<P(!new)>(g: Group<P>, p: P, a: P, scalar: Scalar, skew: int) returns (r: P)
    requires Abelian(g) && Exponent(g, N) && FullOrder(g, a) && (skew == 1 || skew == 2)
    requires p == Smul(g, Centered(scalar) + skew, a)
    ensures r == Smul(g, scalar, a)
  {
    var correction := if skew == 2 then g.add(a, a) else a;
    SmulOne(g, a);
    SmulNeg(g, skew, a);
    SmallMultipleNonzero(g, -skew, a);
    r := AddFinite(g, p, g.neg(correction));
    SmulAdd(g, Centered(scalar) + skew, -skew, a);
    if IsHigh(scalar) { CongruentByMultiple(scalar - N, scalar, -1, N); }
    SmulCongruent(g, N, Centered(scalar), scalar, a);
  }
}
