/** Pippenger's bucket method for multi-point multiplication. */
module Pippenger {
  import opened Arith
  import opened Bits
  import opened Digits
  import opened Scalars
  import opened Groups
  import opened Selection
  import Fixed = WnafFixed

  /** bs[0] + bs[1] + bs[2] + ... */
  function Total<P>(g: Group<P>, bs: seq<P>): (r: P)
  {
    if bs == [] then g.zero else g.add(bs[0], Total(g, bs[1..]))
  }

  /** 1*bs[0] + 2*bs[1] + 3*bs[2] + ..., as a sum of running sums */
  function Ramp<P>(g: Group<P>, bs: seq<P>): (r: P)
  {
    if bs == [] then g.zero else g.add(Total(g, bs), Ramp(g, bs[1..]))
  }

  /** What the buckets stand for: 1*bs[0] + 3*bs[1] + 5*bs[2] + ... */
  function OddWeighted<P>(g: Group<P>, bs: seq<P>): (r: P)
    requires bs != []
  {
    g.add(Total(g, bs), Smul(g, 2, Ramp(g, bs[1..])))
  }

  ghost function Weights(n: nat, from: int, step: int): (r: seq<int>)
  {
    seq(n, j => from + step * j)
  }

  lemma {:induction false} TotalIsLin<P(!new)>(g: Group<P>, bs: seq<P>)
    requires Abelian(g)
    ensures Total(g, bs) == Lin(g, Weights(|bs|, 1, 0), bs)
  {
    if bs != [] {
      assert Weights(|bs|, 1, 0)[1..] == Weights(|bs| - 1, 1, 0);
      TotalIsLin(g, bs[1..]);
      SmulOne(g, bs[0]);
    }
  }

  lemma {:induction false} RampIsLin<P(!new)>(g: Group<P>, bs: seq<P>)
    requires Abelian(g)
    ensures Ramp(g, bs) == Lin(g, Weights(|bs|, 1, 1), bs)
  {
    if bs != [] {
      var n := |bs| - 1;
      RampIsLin(g, bs[1..]);
      TotalIsLin(g, bs);
      var tail := [0] + Weights(n, 1, 1);
      LinCombine(g, 1, Weights(n + 1, 1, 0), tail, Weights(n + 1, 1, 1), bs);
      SmulOne(g, Total(g, bs));
      assert tail[1..] == Weights(n, 1, 1);
      ZeroLeft(g, Lin(g, Weights(n, 1, 1), bs[1..]));
    }
  }

  /** The running-sum form equals the plain odd-weighted sum. */
  lemma OddWeightedIsLin<P(!new)>(g: Group<P>, bs: seq<P>)
    requires Abelian(g) && bs != []
    ensures OddWeighted(g, bs) == Lin(g, Weights(|bs|, 1, 2), bs)
  {
    var n := |bs| - 1;
    TotalIsLin(g, bs);
    RampIsLin(g, bs[1..]);
    var tail := [0] + Weights(n, 1, 1);
    assert tail[1..] == Weights(n, 1, 1);
    ZeroLeft(g, Lin(g, Weights(n, 1, 1), bs[1..]));
    LinCombine(g, 2, tail, Weights(n + 1, 1, 0), Weights(n + 1, 1, 2), bs);
    assert Commutative(g, Total(g, bs), Smul(g, 2, Ramp(g, bs[1..])));
  }

  lemma {:induction false} LinZeroPoints<P(!new)>(g: Group<P>, cs: seq<int>, ps: seq<P>)
    requires Abelian(g) && |cs| == |ps| && forall j :: 0 <= j < |ps| ==> ps[j] == g.zero
    ensures Lin(g, cs, ps) == g.zero
  {
    if cs != [] {
      LinZeroPoints(g, cs[1..], ps[1..]);
      SmulZero(g, cs[0]);
      ZeroLeft(g, g.zero);
    }
  }

  /** Adding q to one point of a combination adds that point's coefficient times q. */
  lemma {:induction false} LinPointUpdate<P(!new)>(g: Group<P>, cs: seq<int>, ps: seq<P>, j: nat, q: P)
    requires Abelian(g) && j < |cs| == |ps|
    ensures Lin(g, cs, ps[j := g.add(ps[j], q)]) == g.add(Lin(g, cs, ps), Smul(g, cs[j], q))
  {
    var ps' := ps[j := g.add(ps[j], q)];
    var rest := Lin(g, cs[1..], ps[1..]);
    if j == 0 {
      assert ps'[1..] == ps[1..];
      SmulDistribute(g, cs[0], ps[0], q);
      var x, y := Smul(g, cs[0], ps[0]), Smul(g, cs[0], q);
      assert Associative(g, x, y, rest) && Commutative(g, y, rest) && Associative(g, x, rest, y);
    } else {
      assert ps'[1..] == ps[1..][j - 1 := g.add(ps[j], q)];
      LinPointUpdate(g, cs[1..], ps[1..], j - 1, q);
      assert Associative(g, Smul(g, cs[0], ps[0]), rest, Smul(g, cs[j], q));
    }
  }

  /** Dropping a point into bucket j adds 2j+1 times the point to what the buckets stand for. */
  lemma BucketAdd<P(!new)>(g: Group<P>, bs: seq<P>, j: nat, q: P)
    requires Abelian(g) && j < |bs|
    ensures OddWeighted(g, bs[j := g.add(bs[j], q)]) == g.add(OddWeighted(g, bs), Smul(g, 2 * j + 1, q))
  {
    OddWeightedIsLin(g, bs);
    OddWeightedIsLin(g, bs[j := g.add(bs[j], q)]);
    LinPointUpdate(g, Weights(|bs|, 1, 2), bs, j, q);
  }

  method ResetBuckets<P(!new)>(g: Group<P>, buckets: array<P>)
    requires Abelian(g) && buckets.Length >= 1
    modifies buckets
    ensures OddWeighted(g, buckets[..]) == g.zero
  {
    for j := 0 to buckets.Length
      invariant forall k :: 0 <= k < j ==> buckets[k] == g.zero
    {
      buckets[j] := g.zero;
    }
    OddWeightedIsLin(g, buckets[..]);
    LinZeroPoints(g, Weights(buckets.Length, 1, 2), buckets[..]);
  }

  method AddAt<P(!new)>(g: Group<P>, buckets: array<P>, j: nat, q: P)
    requires Abelian(g) && j < buckets.Length
    modifies buckets
    ensures OddWeighted(g, buckets[..]) == g.add(old(OddWeighted(g, buckets[..])), Smul(g, 2 * j + 1, q))
  {
    ghost var bs := buckets[..];
    BucketAdd(g, bs, j, q);
    buckets[j] := g.add(buckets[j], q);
    assert buckets[..] == bs[j := g.add(bs[j], q)];
  }

  /** The bucket of an odd digit n holds the points that count |n| times. */
  lemma BucketIndex(n: int)
    requires n % 2 == 1
    ensures n > 0 ==> 2 * ((n - 1) / 2) + 1 == n
    ensures n < 0 ==> -(n + 1) / 2 >= 0 && 2 * (-(n + 1) / 2) + 1 == -n
  {
  }

  lemma NegativeDigit<P(!new)>(g: Group<P>, n: int, p: P)
    requires Abelian(g)
    ensures Smul(g, -n, g.neg(p)) == Smul(g, n, p)
  {
    SmulMul(g, -n, -1, p);
    SmulOne(g, p);
  }

  /** Adds a digit's share of a point to its bucket; a negative digit adds the negated point. */
  method AddToBucket<P(!new)>(g: Group<P>, buckets: array<P>, n: int, p: P)
    requires Abelian(g) && buckets.Length >= 1
    requires n != 0 ==> n % 2 == 1 && -2 * buckets.Length < n < 2 * buckets.Length
    modifies buckets
    ensures OddWeighted(g, buckets[..]) == g.add(old(OddWeighted(g, buckets[..])), Smul(g, n, p))
  {
    if n != 0 { BucketIndex(n); }
    if n > 0 {
      AddAt(g, buckets, (n - 1) / 2, p);
    } else if n < 0 {
      NegativeDigit(g, n, p);
      AddAt(g, buckets, -(n + 1) / 2, g.neg(p));
    } else {
      ZeroLeft(g, OddWeighted(g, buckets[..]));
    }
  }

  datatype BucketPoint = BucketPoint(wnaf: seq<int>, skew: int, pos: nat)

  ghost function Positions(ps: seq<BucketPoint>): (r: seq<nat>)
  {
    seq(|ps|, k requires 0 <= k < |ps| => ps[k].pos)
  }

  ghost predicate ValidStates(ps: seq<BucketPoint>, sc: seq<nat>, w: nat)
    requires w > 0
  {
    forall k :: 0 <= k < |ps| ==> ps[k].pos < |sc| && Fixed.FixedWnafOf(ps[k].wnaf, sc[ps[k].pos], w, ps[k].skew)
  }

  /** The coefficient of point k in round i: its digit, less the skew in the last round. */
  ghost function RoundCoefficient(p: BucketPoint, i: nat): (r: int)
    requires i < |p.wnaf|
  {
    if i == 0 then p.wnaf[0] - p.skew else p.wnaf[i]
  }

  ghost function RoundCoefficients(ps: seq<BucketPoint>, i: nat): (r: seq<int>)
    requires forall k :: 0 <= k < |ps| ==> i < |ps[k].wnaf|
  {
    seq(|ps|, k requires 0 <= k < |ps| => RoundCoefficient(ps[k], i))
  }

  /** What the accumulator holds of a scalar when rounds i and up are done. */
  ghost function RemainingOf(p: BucketPoint, i: nat, w: nat): (r: int)
    requires i <= |p.wnaf|
  {
    Value(p.wnaf[i..], w) - (if i == 0 then p.skew else 0)
  }

  ghost function Remaining(ps: seq<BucketPoint>, i: nat, w: nat): (r: seq<int>)
    requires forall k :: 0 <= k < |ps| ==> i <= |ps[k].wnaf|
  {
    seq(|ps|, k requires 0 <= k < |ps| => RemainingOf(ps[k], i, w))
  }

  lemma RemainingStep(p: BucketPoint, i: nat, w: nat)
    requires i < |p.wnaf|
    ensures RemainingOf(p, i, w) == Pow2(w) * RemainingOf(p, i + 1, w) + RoundCoefficient(p, i)
  {
    assert p.wnaf[i..][1..] == p.wnaf[i + 1..];
    ShlIsMul(Value(p.wnaf[i + 1..], w), w);
  }

  lemma RoundStep<P(!new)>(g: Group<P>, ps: seq<BucketPoint>, i: nat, w: nat, qs: seq<P>)
    requires Abelian(g) && |ps| == |qs| && forall k :: 0 <= k < |ps| ==> i < |ps[k].wnaf|
    ensures Lin(g, Remaining(ps, i, w), qs)
         == g.add(Smul(g, Pow2(w), Lin(g, Remaining(ps, i + 1, w), qs)), Lin(g, RoundCoefficients(ps, i), qs))
  {
    var es, cs, ds := Remaining(ps, i, w), Remaining(ps, i + 1, w), RoundCoefficients(ps, i);
    forall k | 0 <= k < |ps| ensures es[k] == Pow2(w) * cs[k] + ds[k] { RemainingStep(ps[k], i, w); }
    LinCombine(g, Pow2(w), cs, ds, es, qs);
  }

  /** Recodes the scalars that matter. */
  method ChoosePoints<P(!new, ==)>(g: Group<P>, sc: seq<nat>, pt: seq<P>, w: nat) returns (ps: seq<BucketPoint>)
    requires Abelian(g) && |sc| == |pt| && 1 <= w <= 31 && forall k :: 0 <= k < |sc| ==> sc[k] < TWO256
    ensures ValidStates(ps, sc, w) && Chosen(g, Positions(ps), sc, pt, |sc|)
  {
    ps := [];
    for np := 0 to |sc|
      invariant ValidStates(ps, sc, w) && Chosen(g, Positions(ps), sc, pt, np)
    {
      if sc[np] == 0 || pt[np] == g.zero {
        SkipNext(g, Positions(ps), sc, pt, np);
        continue;
      }
      var wnaf := new int[Fixed.WnafSize(w)];
      var skew := Fixed.WnafFixed(wnaf, sc[np], w);
      ChooseNext(g, Positions(ps), sc, pt, np);
      assert Positions(ps + [BucketPoint(wnaf[..], skew, np)]) == Positions(ps) + [np];
      ps := ps + [BucketPoint(wnaf[..], skew, np)];
    }
  }

  /** A digit of the recoding always has a bucket. */
  lemma DigitHasBucket(d: int, window: nat)
    requires Fixed.FixedDigit(d, window + 1)
    ensures d != 0 ==> d % 2 == 1 && -2 * Pow2(window) < d < 2 * Pow2(window)
  {
  }

  /** The digit of one point in round i, and in the last round its skew, go to the buckets. */
  method AddPoint<P(!new)>(g: Group<P>, buckets: array<P>, st: BucketPoint, p: P, i: nat)
    requires Abelian(g) && buckets.Length >= 1 && i < |st.wnaf| && 0 <= st.skew <= 1
    requires st.wnaf[i] != 0 ==> st.wnaf[i] % 2 == 1 && -2 * buckets.Length < st.wnaf[i] < 2 * buckets.Length
    modifies buckets
    ensures OddWeighted(g, buckets[..]) == g.add(old(OddWeighted(g, buckets[..])), Smul(g, RoundCoefficient(st, i), p))
  {
    var n := st.wnaf[i];
    ghost var before := OddWeighted(g, buckets[..]);
    if i == 0 && st.skew != 0 {
      AddToBucket(g, buckets, -1, p);
      SmulAdd(g, -1, n, p);
      assert Associative(g, before, Smul(g, -1, p), Smul(g, n, p));
    }
    AddToBucket(g, buckets, n, p);
  }

  method FillBuckets<P(!new)>(g: Group<P>, buckets: array<P>, ps: seq<BucketPoint>, qs: seq<P>, i: nat)
    requires Abelian(g) && buckets.Length >= 1 && |qs| == |ps|
    requires forall k :: 0 <= k < |ps| ==> i < |ps[k].wnaf| && 0 <= ps[k].skew <= 1
    requires forall k :: 0 <= k < |ps| ==> ps[k].wnaf[i] != 0 ==>
      ps[k].wnaf[i] % 2 == 1 && -2 * buckets.Length < ps[k].wnaf[i] < 2 * buckets.Length
    modifies buckets
    ensures OddWeighted(g, buckets[..]) == Lin(g, RoundCoefficients(ps, i), qs)
  {
    ResetBuckets(g, buckets);
    ghost var cs := RoundCoefficients(ps, i);
    for np := 0 to |ps|
      invariant OddWeighted(g, buckets[..]) == Lin(g, cs[..np], qs[..np])
    {
      AddPoint(g, buckets, ps[np], qs[np], i);
      assert cs[..np + 1] == cs[..np] + [cs[np]] && qs[..np + 1] == qs[..np] + [qs[np]];
      LinSnoc(g, cs[..np], qs[..np], cs[np], qs[np]);
    }
    assert cs[..|ps|] == cs && qs[..|ps|] == qs;
  }

  method DoubleTimes<P(!new)>(g: Group<P>, p: P, n: nat) returns (r: P)
    requires Abelian(g)
    ensures r == Smul(g, Pow2(n), p)
  {
    r := p;
    SmulOne(g, p);
    for j := 0 to n
      invariant r == Smul(g, Pow2(j), p)
    {
      SmulDouble(g, Pow2(j), p);
      r := g.add(r, r);
    }
  }

  lemma RunningStep<P(!new)>(g: Group<P>, r0: P, bs: seq<P>, j: nat)
    requires Abelian(g) && j < |bs|
    ensures g.add(Total(g, bs[j + 1..]), bs[j]) == Total(g, bs[j..])
    ensures g.add(g.add(r0, Ramp(g, bs[j + 1..])), Total(g, bs[j..])) == g.add(r0, Ramp(g, bs[j..]))
  {
    assert bs[j..][1..] == bs[j + 1..] && bs[j..][0] == bs[j];
    assert Commutative(g, bs[j], Total(g, bs[j + 1..]));
    assert Commutative(g, Ramp(g, bs[j + 1..]), Total(g, bs[j..]));
    assert Associative(g, r0, Ramp(g, bs[j + 1..]), Total(g, bs[j..]));
  }

  /** One round: r becomes 2^(window+1) * r plus the odd-weighted sum of the buckets. */
  method FoldBuckets<P(!new)>(g: Group<P>, r0: P, buckets: array<P>, window: nat) returns (r: P)
    requires Abelian(g) && buckets.Length >= 1
    ensures r == g.add(Smul(g, Pow2(window + 1), r0), OddWeighted(g, buckets[..]))
  {
    r := DoubleTimes(g, r0, window);
    ghost var top, bs := r, buckets[..];
    var runningSum := g.zero;
    assert bs[buckets.Length..] == [];
    ZeroLeft(g, top);
    for j := buckets.Length downto 1
      invariant runningSum == Total(g, bs[j..]) && r == g.add(top, Ramp(g, bs[j..]))
    {
      RunningStep(g, top, bs, j);
      runningSum := g.add(runningSum, buckets[j]);
      r := g.add(r, runningSum);
    }
    RunningStep(g, top, bs, 0);
    assert bs[0..] == bs;
    runningSum := g.add(runningSum, buckets[0]);
    ghost var ramp := Ramp(g, bs[1..]);
    r := g.add(r, r);
    r := g.add(r, runningSum);
    SmulOne(g, g.add(top, ramp));
    SmulDistribute(g, 2, top, ramp);
    SmulMul(g, 2, Pow2(window), r0);
    assert Associative(g, Smul(g, 2, top), Smul(g, 2, ramp), Total(g, bs));
    assert Commutative(g, Smul(g, 2, ramp), Total(g, bs));
  }

  lemma NothingRemains<P(!new)>(g: Group<P>, ps: seq<BucketPoint>, i: nat, w: nat, qs: seq<P>)
    requires Abelian(g) && |ps| == |qs| && i > 0 && forall k :: 0 <= k < |ps| ==> |ps[k].wnaf| == i
    ensures Lin(g, Remaining(ps, i, w), qs) == g.zero
  {
    forall k | 0 <= k < |ps| ensures Remaining(ps, i, w)[k] == 0 { assert ps[k].wnaf[i..] == []; }
    LinZeros(g, Remaining(ps, i, w), qs);
  }

  /** One round: fill the buckets with the digits of position i and fold them into r. */
  method Round<P(!new)>(g: Group<P>, buckets: array<P>, window: nat, ps: seq<BucketPoint>, qs: seq<P>, nWnaf: nat,
                        i: nat, r: P)
    returns (r': P)
    requires Abelian(g) && |ps| == |qs| && buckets.Length == Pow2(window) && i < nWnaf
    requires forall k :: 0 <= k < |ps| ==> |ps[k].wnaf| == nWnaf && 0 <= ps[k].skew <= 1
    requires forall k, i :: 0 <= k < |ps| && 0 <= i < nWnaf ==> Fixed.FixedDigit(ps[k].wnaf[i], window + 1)
    requires r == Lin(g, Remaining(ps, i + 1, window + 1), qs)
    modifies buckets
    ensures r' == Lin(g, Remaining(ps, i, window + 1), qs)
  {
    forall k | 0 <= k < |ps| ensures ps[k].wnaf[i] != 0 ==>
      ps[k].wnaf[i] % 2 == 1 && -2 * buckets.Length < ps[k].wnaf[i] < 2 * buckets.Length
    {
      DigitHasBucket(ps[k].wnaf[i], window);
    }
    FillBuckets(g, buckets, ps, qs, i);
    r' := FoldBuckets(g, r, buckets, window);
    RoundStep(g, ps, i, window + 1, qs);
  }

  /** The rounds, from the top digit down. */
  method Rounds<P(!new)>(g: Group<P>, buckets: array<P>, window: nat, ps: seq<BucketPoint>, qs: seq<P>, nWnaf: nat)
    returns (r: P)
    requires Abelian(g) && |ps| == |qs| && buckets.Length == Pow2(window) && nWnaf > 0
    requires forall k :: 0 <= k < |ps| ==> |ps[k].wnaf| == nWnaf && 0 <= ps[k].skew <= 1
    requires forall k, i :: 0 <= k < |ps| && 0 <= i < nWnaf ==> Fixed.FixedDigit(ps[k].wnaf[i], window + 1)
    modifies buckets
    ensures r == Lin(g, Remaining(ps, 0, window + 1), qs)
  {
    r := g.zero;
    NothingRemains(g, ps, nWnaf, window + 1, qs);
    for i := nWnaf downto 0
      invariant r == Lin(g, Remaining(ps, i, window + 1), qs)
    {
      r := Round(g, buckets, window, ps, qs, nWnaf, i, r);
    }
  }

  /** When all rounds are done, digits less skew are the scalars themselves. */
  lemma RemainingIsScalars(ps: seq<BucketPoint>, sc: seq<nat>, w: nat)
    requires w > 0 && ValidStates(ps, sc, w)
    ensures Within(Positions(ps), |sc|) && Remaining(ps, 0, w) == Pick<nat>(sc, Positions(ps))
  {
    forall k | 0 <= k < |ps| ensures RemainingOf(ps[k], 0, w) == sc[ps[k].pos] { assert ps[k].wnaf[0..] == ps[k].wnaf; }
  }

  /** For every list of scalars and points and every bucket window, the buckets compute the plain sum. */
  method PippengerWnaf<P(!new, ==)>(g: Group<P>, buckets: array<P>, window: nat, sc: seq<nat>, pt: seq<P>)
    returns (r: P)
    requires Abelian(g) && |sc| == |pt| && window <= 30 && buckets.Length == Pow2(window)
    requires forall k :: 0 <= k < |sc| ==> sc[k] < TWO256
    modifies buckets
    ensures r == Lin(g, sc, pt)
  {
    var w := window + 1;
    var ps := ChoosePoints(g, sc, pt, w);
    assert sc[..|sc|] == sc && pt[..|pt|] == pt;
    r := g.zero;
    if |ps| == 0 { return; }
    var qs := seq(|ps|, k requires 0 <= k < |ps| => pt[ps[k].pos]);
    r := Rounds(g, buckets, window, ps, qs, Fixed.WnafSize(w));
    RemainingIsScalars(ps, sc, w);
    assert qs == Pick(pt, Positions(ps));
  }
}
