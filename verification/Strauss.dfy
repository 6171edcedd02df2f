/** Tables of odd multiples and Strauss's interleaved multi-point multiplication. */
module Strauss {
  import opened Wrappers
  import opened Arith
  import opened Bits
  import opened Digits
  import opened Scalars
  import opened Groups
  import opened Selection
  import opened Wnaf

  const WINDOW_A: nat := 5
  const TABLE_A: nat := 8
  const WINDOW_G: nat := 16
  const TABLE_G: nat := 16384

  /** pre holds 1*a, 3*a, 5*a, ... */
  ghost predicate OddTable<P>(g: Group<P>, pre: seq<P>, a: P)
  {
    forall i :: 0 <= i < |pre| ==> pre[i] == Smul(g, 2 * i + 1, a)
  }

  lemma NextOdd<P(!new)>(g: Group<P>, k: nat, a: P, p: P)
    requires Abelian(g) && p == Smul(g, 2 * k + 1, a)
    ensures g.add(p, g.add(a, a)) == Smul(g, 2 * (k + 1) + 1, a)
  {
    SmulOne(g, a);
    SmulAdd(g, 1, 1, a);
    SmulAdd(g, 2 * k + 1, 2, a);
  }

  method OddMultiplesTable<P(!new)>(g: Group<P>, n: nat, a: P) returns (pre: array<P>)
    requires Abelian(g) && n >= 1
    ensures fresh(pre) && pre.Length == n && OddTable(g, pre[..], a)
  {
    pre := new P[n](_ => a);
    var d := g.add(a, a);
    SmulOne(g, a);
    for i := 1 to n
      invariant forall k :: 0 <= k < i ==> pre[k] == Smul(g, 2 * k + 1, a)
    {
      NextOdd(g, i - 1, a, pre[i - 1]);
      pre[i] := g.add(pre[i - 1], d);
    }
  }

  /** The table entry for odd n, negated when n is negative. */
  function TableGet<P>(g: Group<P>, pre: seq<P>, n: int): (r: P)
    requires n % 2 == 1 && Abs(n) <= 2 * |pre| - 1
  {
    if n > 0 then pre[(n - 1) / 2] else g.neg(pre[(-n - 1) / 2])
  }

  lemma TableGetIsMultiple<P(!new)>(g: Group<P>, pre: seq<P>, n: int, a: P)
    requires Abelian(g) && OddTable(g, pre, a)
    requires n % 2 == 1 && Abs(n) <= 2 * |pre| - 1
    ensures TableGet(g, pre, n) == Smul(g, n, a)
  {
    if n < 0 { SmulNeg(g, -n, a); }
  }

  /** A point that takes part: its digits, how many of them matter, and where it came from. */
  datatype PointState = PointState(wnaf: seq<int>, bits: nat, pos: nat)

  ghost function Positions(ps: seq<PointState>): (r: seq<nat>)
  {
    seq(|ps|, k requires 0 <= k < |ps| => ps[k].pos)
  }

  ghost predicate ValidStates(ps: seq<PointState>, na: seq<Scalar>)
  {
    forall k :: 0 <= k < |ps| ==>
      ps[k].pos < |na| && |ps[k].wnaf| == 256 && WnafOf(ps[k].wnaf, na[ps[k].pos], WINDOW_A, ps[k].bits)
  }

  /** A full-length recoding: 256 digits hold every scalar. */
  method Recode(s: Scalar, w: nat) returns (ds: seq<int>, bits: nat)
    requires 2 <= w <= 31
    ensures |ds| == 256 && WnafOf(ds, s, w, bits)
  {
    var wnaf := new int[256];
    SignedCongruent(s);
    TwoTo255();
    bits := EcmultWnaf(wnaf, 256, s, w);
    ds := wnaf[..];
  }

  /** The first loop: recode the scalars that matter, and note the longest recoding. */
  method ChoosePoints<P(!new, ==)>(g: Group<P>, a: seq<P>, na: seq<Scalar>) returns (ps: seq<PointState>, bits: nat)
    requires Abelian(g) && |na| == |a|
    ensures ValidStates(ps, na) && Chosen(g, Positions(ps), na, a, |na|)
    ensures bits <= 256 && forall k :: 0 <= k < |ps| ==> ps[k].bits <= bits
  {
    ps, bits := [], 0;
    for np := 0 to |na|
      invariant ValidStates(ps, na) && Chosen(g, Positions(ps), na, a, np)
      invariant bits <= 256 && forall k :: 0 <= k < |ps| ==> ps[k].bits <= bits
    {
      if na[np] == 0 || a[np] == g.zero {
        SkipNext(g, Positions(ps), na, a, np);
        continue;
      }
      var w, b := Recode(na[np], WINDOW_A);
      ChooseNext(g, Positions(ps), na, a, np);
      assert Positions(ps + [PointState(w, b, np)]) == Positions(ps) + [np];
      ps := ps + [PointState(w, b, np)];
      if b > bits { bits := b; }
    }
  }

  ghost predicate TablesFor<P>(g: Group<P>, pre: seq<P>, qs: seq<P>)
  {
    |pre| == TABLE_A * |qs| && forall k :: 0 <= k < |qs| ==> OddTable(g, pre[TABLE_A * k..TABLE_A * k + TABLE_A], qs[k])
  }

  /** One table of odd multiples for each chosen point, laid out one after the other. */
  method BuildTables<P(!new)>(g: Group<P>, qs: seq<P>) returns (pre: seq<P>)
    requires Abelian(g)
    ensures TablesFor(g, pre, qs)
  {
    pre := [];
    for k := 0 to |qs|
      invariant TablesFor(g, pre, qs[..k])
    {
      var t := OddMultiplesTable(g, TABLE_A, qs[k]);
      ghost var before := pre;
      pre := pre + t[..];
      forall j | 0 <= j < k + 1
        ensures OddTable(g, pre[TABLE_A * j..TABLE_A * j + TABLE_A], qs[..k + 1][j])
      {
        if j < k {
          assert pre[TABLE_A * j..TABLE_A * j + TABLE_A] == before[TABLE_A * j..TABLE_A * j + TABLE_A];
          assert qs[..k][j] == qs[..k + 1][j];
        } else {
          assert pre[TABLE_A * j..TABLE_A * j + TABLE_A] == t[..];
        }
      }
    }
    assert qs[..|qs|] == qs;
  }

  /** The digits at position i of every recoding, and the values of the digits from i on. */
  ghost function DigitsAt(dss: seq<seq<int>>, i: nat): (r: seq<int>)
    requires forall k :: 0 <= k < |dss| ==> i < |dss[k]|
  {
    seq(|dss|, k requires 0 <= k < |dss| => dss[k][i])
  }

  ghost function ValuesFrom(dss: seq<seq<int>>, i: nat, w: nat): (r: seq<int>)
    requires forall k :: 0 <= k < |dss| ==> i <= |dss[k]|
  {
    seq(|dss|, k requires 0 <= k < |dss| => Value(dss[k][i..], w))
  }

  /** Shifting the accumulator up one digit and adding position i reads one more digit of every scalar. */
  lemma HornerDigit(ds: seq<int>, i: nat, w: nat)
    requires i < |ds|
    ensures Value(ds[i..], w) == Pow2(w) * Value(ds[i + 1..], w) + ds[i]
  {
    assert ds[i..][1..] == ds[i + 1..];
    ShlIsMul(Value(ds[i + 1..], w), w);
  }

  lemma HornerStep<P(!new)>(g: Group<P>, dss: seq<seq<int>>, i: nat, w: nat, qs: seq<P>)
    requires Abelian(g) && |dss| == |qs| && forall k :: 0 <= k < |dss| ==> i < |dss[k]|
    ensures Lin(g, ValuesFrom(dss, i, w), qs)
         == g.add(Smul(g, Pow2(w), Lin(g, ValuesFrom(dss, i + 1, w), qs)), Lin(g, DigitsAt(dss, i), qs))
  {
    forall k | 0 <= k < |dss|
      ensures ValuesFrom(dss, i, w)[k] == Pow2(w) * ValuesFrom(dss, i + 1, w)[k] + DigitsAt(dss, i)[k]
    {
      HornerDigit(dss[k], i, w);
    }
    LinCombine(g, Pow2(w), ValuesFrom(dss, i + 1, w), DigitsAt(dss, i), ValuesFrom(dss, i, w), qs);
  }

  lemma {:induction false} ValuesFromZero<P(!new)>(g: Group<P>, dss: seq<seq<int>>, i: nat, w: nat, qs: seq<P>)
    requires Abelian(g) && |dss| == |qs| && forall k :: 0 <= k < |dss| ==> i <= |dss[k]|
    requires forall k, j :: 0 <= k < |dss| && i <= j < |dss[k]| ==> dss[k][j] == 0
    ensures Lin(g, ValuesFrom(dss, i, w), qs) == g.zero
  {
    forall k | 0 <= k < |dss| ensures ValuesFrom(dss, i, w)[k] == 0 { ValueZeros(dss[k][i..], w); }
    LinZeros(g, ValuesFrom(dss, i, w), qs);
  }

  /** Adding the point's table entry for its digit, where the recoding still has one. */
  method AddDigit<P(!new)>(g: Group<P>, r: P, pre: seq<P>, n: int, ghost a: P) returns (r': P)
    requires Abelian(g) && OddTable(g, pre, a)
    requires n == 0 || (n % 2 == 1 && Abs(n) <= 2 * |pre| - 1)
    ensures r' == g.add(r, Smul(g, n, a))
  {
    if n != 0 {
      TableGetIsMultiple(g, pre, n, a);
      r' := g.add(r, TableGet(g, pre, n));
    } else {
      ZeroLeft(g, r);
      r' := r;
    }
  }

  /** The inner loop: position i of every chosen point. */
  method AddPosition<P(!new)>(g: Group<P>, r: P, ps: seq<PointState>, pre: seq<P>, i: nat,
                              ghost dss: seq<seq<int>>, ghost qs: seq<P>) returns (r': P)
    requires Abelian(g) && TablesFor(g, pre, qs) && |qs| == |ps| == |dss| && i < 256
    requires forall k :: 0 <= k < |ps| ==> dss[k] == ps[k].wnaf && |dss[k]| == 256
    requires forall k :: 0 <= k < |ps| ==> WindowDigit(dss[k][i], WINDOW_A) && (ps[k].bits <= i ==> dss[k][i] == 0)
    ensures r' == g.add(r, Lin(g, DigitsAt(dss, i), qs))
  {
    r' := r;
    ghost var ds := DigitsAt(dss, i);
    ZeroLeft(g, r);
    for np := 0 to |ps|
      invariant r' == g.add(r, Lin(g, ds[..np], qs[..np]))
    {
      var n := if i < ps[np].bits then ps[np].wnaf[i] else 0;
      assert Pow2(4) == 16;
      r' := AddDigit(g, r', pre[TABLE_A * np..TABLE_A * np + TABLE_A], n, qs[np]);
      assert ds[..np + 1] == ds[..np] + [n] && qs[..np + 1] == qs[..np] + [qs[np]];
      LinSnoc(g, ds[..np], qs[..np], n, qs[np]);
      assert Associative(g, r, Lin(g, ds[..np], qs[..np]), Smul(g, n, qs[np]));
    }
    assert ds[..|ps|] == ds && qs[..|ps|] == qs;
  }

  function GetOr(o: Option<Scalar>): (s: Scalar) { if o.Some? then o.value else 0 }

  lemma PairDouble<P(!new)>(g: Group<P>, x: P, y: P, d: P, e: P)
    requires Abelian(g)
    ensures g.add(g.add(g.add(g.add(x, y), g.add(x, y)), d), e) ==
            g.add(g.add(Smul(g, 2, x), d), g.add(Smul(g, 2, y), e))
  {
    Interchange(g, x, y, x, y);
    SmulOne(g, x);
    SmulOne(g, y);
    assert Associative(g, g.add(Smul(g, 2, x), Smul(g, 2, y)), d, e);
    Interchange(g, Smul(g, 2, x), Smul(g, 2, y), d, e);
  }

  /** The accumulator after positions i and up: every scalar's digits from i on, the generator's included. */
  ghost predicate Accumulated<P>(g: Group<P>, r: P, dss: seq<seq<int>>, qs: seq<P>, wnafG: seq<int>, base: P, i: nat)
    requires |dss| == |qs| && i <= |wnafG| && forall k :: 0 <= k < |dss| ==> i <= |dss[k]|
  {
    r == g.add(Lin(g, ValuesFrom(dss, i, 1), qs), Smul(g, Value(wnafG[i..], 1), base))
  }

  lemma StartAccumulated<P(!new)>(g: Group<P>, dss: seq<seq<int>>, qs: seq<P>, wnafG: seq<int>, base: P, i: nat)
    requires Abelian(g) && |dss| == |qs| && i <= |wnafG| && forall k :: 0 <= k < |dss| ==> i <= |dss[k]|
    requires forall k, j :: 0 <= k < |dss| && i <= j < |dss[k]| ==> dss[k][j] == 0
    requires forall j :: i <= j < |wnafG| ==> wnafG[j] == 0
    ensures Accumulated(g, g.zero, dss, qs, wnafG, base, i)
  {
    ValuesFromZero(g, dss, i, 1, qs);
    ValueZeros(wnafG[i..], 1);
    ZeroLeft(g, g.zero);
  }

  lemma NextAccumulated<P(!new)>(g: Group<P>, r: P, dss: seq<seq<int>>, qs: seq<P>, wnafG: seq<int>, base: P, i: nat)
    requires Abelian(g) && |dss| == |qs| && i < |wnafG| && forall k :: 0 <= k < |dss| ==> i < |dss[k]|
    requires Accumulated(g, r, dss, qs, wnafG, base, i + 1)
    ensures Accumulated(g, g.add(g.add(g.add(r, r), Lin(g, DigitsAt(dss, i), qs)), Smul(g, wnafG[i], base)),
                        dss, qs, wnafG, base, i)
  {
    HornerStep(g, dss, i, 1, qs);
    assert Pow2(1) == 2;
    assert wnafG[i..][1..] == wnafG[i + 1..];
    var v := Value(wnafG[i + 1..], 1);
    SmulAdd(g, 2 * v, wnafG[i], base);
    SmulMul(g, 2, v, base);
    PairDouble(g, Lin(g, ValuesFrom(dss, i + 1, 1), qs), Smul(g, v, base),
               Lin(g, DigitsAt(dss, i), qs), Smul(g, wnafG[i], base));
  }

  /** Once every position is read, the recodings stand for the scalars modulo the group order. */
  lemma FinishAccumulated<P(!new)>(g: Group<P>, r: P, ps: seq<PointState>, a: seq<P>, na: seq<Scalar>,
                                   dss: seq<seq<int>>, qs: seq<P>, wnafG: seq<int>, ng: Scalar, base: P)
    requires Abelian(g) && Exponent(g, N) && |na| == |a| && ValidStates(ps, na) && |dss| == |ps|
    requires Chosen(g, Positions(ps), na, a, |na|)
    requires qs == Pick(a, Positions(ps)) && forall k :: 0 <= k < |ps| ==> dss[k] == ps[k].wnaf
    requires Value(wnafG, 1) == Signed(ng) && Accumulated(g, r, dss, qs, wnafG, base, 0)
    ensures r == g.add(Lin(g, na, a), Smul(g, ng, base))
  {
    var cs, vs := Pick<nat>(na, Positions(ps)), ValuesFrom(dss, 0, 1);
    assert na[..|na|] == na && a[..|a|] == a;
    forall k | 0 <= k < |ps| ensures Congruent(vs[k], cs[k], N) {
      assert dss[k][0..] == dss[k];
      SignedCongruent(na[ps[k].pos]);
    }
    LinCongruent(g, N, vs, cs, qs);
    assert wnafG[0..] == wnafG;
    SignedCongruent(ng);
    SmulCongruent(g, N, Signed(ng), ng, base);
  }

  /** R = sum na_i * A_i + ng * G, for any number of points. */
  method StraussWnaf<P(!new, ==)>(g: Group<P>, preG: seq<P>, ghost base: P, a: seq<P>, na: seq<Scalar>,
                                  ng: Option<Scalar>)
    returns (r: P)
    requires Abelian(g) && Exponent(g, N) && |na| == |a|
    requires |preG| == TABLE_G && OddTable(g, preG, base)
    ensures r == g.add(Lin(g, na, a), Smul(g, GetOr(ng), base))
  {
    var ps, bits := ChoosePoints(g, a, na);
    var qs := seq(|ps|, k requires 0 <= k < |ps| => a[ps[k].pos]);
    var pre := BuildTables(g, qs);
    var wnafG, bitsG := seq(256, _ => 0), 0;
    ValueZeros(wnafG, 1);
    if ng.Some? {
      wnafG, bitsG := Recode(ng.value, WINDOW_G);
      if bitsG > bits { bits := bitsG; }
    }
    ghost var dss := seq(|ps|, k requires 0 <= k < |ps| => ps[k].wnaf);
    r := MainLoop(g, ps, pre, qs, preG, base, wnafG, bitsG, bits, dss);
    assert qs == Pick(a, Positions(ps));
    FinishAccumulated(g, r, ps, a, na, dss, qs, wnafG, GetOr(ng), base);
  }

  /** The window digits of a recoding for G address its table. */
  lemma DigitG(n: int)
    requires WindowDigit(n, WINDOW_G)
    ensures n == 0 || (n % 2 == 1 && Abs(n) <= 2 * TABLE_G - 1)
  {
    Pow2Literals();
    assert Pow2(16) == 2 * Pow2(15);
  }

  method MainLoop<P(!new)>(g: Group<P>, ps: seq<PointState>, pre: seq<P>, ghost qs: seq<P>, preG: seq<P>, ghost base: P,
                           wnafG: seq<int>, bitsG: nat, bits: nat, ghost dss: seq<seq<int>>)
    returns (r: P)
    requires Abelian(g) && TablesFor(g, pre, qs) && |qs| == |ps| == |dss|
    requires |preG| == TABLE_G && OddTable(g, preG, base)
    requires |wnafG| == 256 && (forall i :: 0 <= i < 256 ==> WindowDigit(wnafG[i], WINDOW_G))
    requires bitsG <= bits <= 256 && forall i :: bitsG <= i < 256 ==> wnafG[i] == 0
    requires forall k :: 0 <= k < |ps| ==> dss[k] == ps[k].wnaf && |dss[k]| == 256 && ps[k].bits <= bits
    requires forall k, i :: 0 <= k < |ps| && 0 <= i < 256 ==>
             WindowDigit(dss[k][i], WINDOW_A) && (ps[k].bits <= i ==> dss[k][i] == 0)
    ensures Accumulated(g, r, dss, qs, wnafG, base, 0)
  {
    r := g.zero;
    StartAccumulated(g, dss, qs, wnafG, base, bits);
    for i := bits downto 0
      invariant Accumulated(g, r, dss, qs, wnafG, base, i)
    {
      NextAccumulated(g, r, dss, qs, wnafG, base, i);
      r := g.add(r, r);
      r := AddPosition(g, r, ps, pre, i, dss, qs);
      var n := if i < bitsG then wnafG[i] else 0;
      DigitG(wnafG[i]);
      r := AddDigit(g, r, preG, n, base);
    }
  }

  /** The generator's table, built once. */
  method ContextBuild<P(!new)>(g: Group<P>, base: P) returns (preG: seq<P>)
    requires Abelian(g)
    ensures |preG| == TABLE_G && OddTable(g, preG, base)
  {
    var t := OddMultiplesTable(g, TABLE_G, base);
    preG := t[..];
  }

  /** Double multiply: R = na*A + ng*G. */
  method Ecmult<P(!new, ==)>(g: Group<P>, preG: seq<P>, ghost base: P, a: P, na: Scalar, ng: Option<Scalar>)
    returns (r: P)
    requires Abelian(g) && Exponent(g, N) && |preG| == TABLE_G && OddTable(g, preG, base)
    ensures r == g.add(Smul(g, na, a), Smul(g, GetOr(ng), base))
  {
    r := StraussWnaf(g, preG, base, [a], [na], ng);
    LinSingle(g, na, a);
  }
}
