/** The driver secp256k1_ecmult_multi_var: chooses an algorithm and feeds it batches that fit the scratch space. */
module MultiMult {
  import opened Wrappers
  import opened Arith
  import opened Bits
  import opened Scalars
  import opened Groups
  import opened Strauss
  import opened Pippenger
  import opened ScratchSizes
  import opened ScratchSpace
  import Fixed = WnafFixed

  const PIPPENGER_THRESHOLD: nat := 160
  const MAX_POINTS_PER_BATCH: nat := 10_000_000

  /** What the caller's callback delivers for an index; None when the callback fails. */
  datatype Term<P> = Term(scalar: Scalar, point: P)

  predicate AllDelivered<P>(inputs: seq<Option<Term<P>>>)
  {
    forall i :: 0 <= i < |inputs| ==> inputs[i].Some?
  }

  function ScalarsOf<P>(inputs: seq<Option<Term<P>>>): (r: seq<Scalar>)
    requires AllDelivered(inputs)
  {
    seq(|inputs|, i requires 0 <= i < |inputs| => inputs[i].value.scalar)
  }

  function PointsOf<P>(inputs: seq<Option<Term<P>>>): (r: seq<P>)
    requires AllDelivered(inputs)
  {
    seq(|inputs|, i requires 0 <= i < |inputs| => inputs[i].value.point)
  }

  /** The plain answer: the generator's share plus the sum of scalar times point. */
  function Answer<P>(g: Group<P>, inputs: seq<Option<Term<P>>>, ng: Option<Scalar>, base: P): (r: P)
    requires AllDelivered(inputs)
  {
    g.add(Lin(g, ScalarsOf(inputs), PointsOf(inputs)), Smul(g, GetOr(ng), base))
  }

  lemma AnswerAppend<P(!new)>(g: Group<P>, xs: seq<Option<Term<P>>>, ys: seq<Option<Term<P>>>, ng: Option<Scalar>,
                              base: P)
    requires Abelian(g) && AllDelivered(xs) && AllDelivered(ys)
    ensures AllDelivered(xs + ys)
    ensures g.add(Answer(g, xs, ng, base), Answer(g, ys, None, base)) == Answer(g, xs + ys, ng, base)
    ensures g.add(g.zero, Answer(g, ys, ng, base)) == Answer(g, [] + ys, ng, base)
  {
    assert ScalarsOf(xs + ys) == ScalarsOf(xs) + ScalarsOf(ys) && PointsOf(xs + ys) == PointsOf(xs) + PointsOf(ys);
    var a, b, c := Lin(g, ScalarsOf(xs), PointsOf(xs)), Lin(g, ScalarsOf(ys), PointsOf(ys)), Smul(g, GetOr(ng), base);
    LinAppend(g, ScalarsOf(xs), PointsOf(xs), ScalarsOf(ys), PointsOf(ys));
    ZeroLeft(g, b);
    assert Associative(g, a, c, b) && Commutative(g, c, b) && Associative(g, a, b, c);
    assert [] + ys == ys;
    ZeroLeft(g, Answer(g, ys, ng, base));
  }

  /** Asks the callback for n terms from offset on, stopping at the first failure. */
  method Load<P>(inputs: seq<Option<Term<P>>>, offset: nat, n: nat) returns (ok: bool, sc: seq<Scalar>, pt: seq<P>)
    requires offset + n <= |inputs|
    ensures ok <==> AllDelivered(inputs[offset..offset + n])
    ensures ok ==> sc == ScalarsOf(inputs[offset..offset + n]) && pt == PointsOf(inputs[offset..offset + n])
  {
    ok, sc, pt := true, [], [];
    ghost var xs := inputs[offset..offset + n];
    for i := 0 to n
      invariant AllDelivered(xs[..i]) && sc == ScalarsOf(xs[..i]) && pt == PointsOf(xs[..i])
    {
      assert xs[i] == inputs[offset + i];
      if inputs[offset + i].None? { return false, sc, pt; }
      sc := sc + [inputs[offset + i].value.scalar];
      pt := pt + [inputs[offset + i].value.point];
    }
    assert xs[..n] == xs;
  }

  /** Strauss's method in a frame of the scratch space, which is given back in the end. */
  method StraussBatch<P(!new, ==)>(g: Group<P>, preG: seq<P>, base: P, inputs: seq<Option<Term<P>>>, ng: Option<Scalar>,
                                   scratch: Scratch, offset: nat, n: nat) returns (ok: bool, r: P)
    requires Abelian(g) && Exponent(g, N) && |preG| == TABLE_G && OddTable(g, preG, base) && offset + n <= |inputs|
    requires scratch.Valid() && scratch.Within()
    modifies scratch
    ensures scratch.Valid() && scratch.frameSize == old(scratch.frameSize) && scratch.offset == old(scratch.offset)
    ensures ok <==> (n == 0 && ng.None?) ||
                    (StraussScratchSize(n) <= old(scratch.Room(OBJECTS)) && AllDelivered(inputs[offset..offset + n]))
    ensures ok ==> r == Answer(g, inputs[offset..offset + n], ng, base)
  {
    r := g.zero;
    ZeroLeft(g, g.zero);
    if n == 0 && ng.None? { return true, r; }
    StraussFrame(n);
    var at;
    ok, at := FrameFor(scratch, StraussScratchSize(n), StraussObjects(n));
    if !ok { return; }
    var sc, pt;
    ok, sc, pt := Load(inputs, offset, n);
    if !ok {
      scratch.DeallocateFrame();
      return;
    }
    r := StraussWnaf(g, preG, base, pt, sc, ng);
    scratch.DeallocateFrame();
  }

  lemma WithGenerator<P(!new)>(g: Group<P>, sc: seq<Scalar>, pt: seq<P>, s: Scalar, base: P)
    requires Abelian(g) && |sc| == |pt|
    ensures Lin(g, [s] + sc, [base] + pt) == g.add(Lin(g, sc, pt), Smul(g, s, base))
  {
    LinAppend(g, [s], [base], sc, pt);
    LinSingle(g, s, base);
    assert Commutative(g, Smul(g, s, base), Lin(g, sc, pt));
  }

  lemma WindowSmall(n: nat)
    ensures BucketWindow(n) <= 12
  {
  }

  /** Loads the terms, the generator's first, and adds them up in buckets. */
  method BucketSum<P(!new, ==)>(g: Group<P>, base: P, inputs: seq<Option<Term<P>>>, ng: Option<Scalar>, window: nat,
                                offset: nat, n: nat) returns (ok: bool, r: P)
    requires Abelian(g) && offset + n <= |inputs| && window == BucketWindow(n)
    ensures ok <==> AllDelivered(inputs[offset..offset + n])
    ensures ok ==> r == Answer(g, inputs[offset..offset + n], ng, base)
  {
    r := g.zero;
    ZeroLeft(g, g.zero);
    var buckets := new P[Pow2(window)](_ => g.zero);
    var sc, pt;
    ok, sc, pt := Load(inputs, offset, n);
    if !ok { return; }
    if ng.Some? {
      WithGenerator(g, sc, pt, ng.value, base);
      sc, pt := [ng.value] + sc, [base] + pt;
    } else {
      ZeroLeft(g, Lin(g, sc, pt));
    }
    WindowSmall(n);
    r := PippengerWnaf(g, buckets, window, sc, pt);
  }

  /** The bucket method in a frame of the scratch space, which is given back in the end. */
  method PippengerBatch<P(!new, ==)>(g: Group<P>, base: P, inputs: seq<Option<Term<P>>>, ng: Option<Scalar>,
                                     scratch: Scratch, offset: nat, n: nat) returns (ok: bool, r: P)
    requires Abelian(g) && offset + n <= |inputs|
    requires scratch.Valid() && scratch.Within()
    modifies scratch
    ensures scratch.Valid() && scratch.frameSize == old(scratch.frameSize) && scratch.offset == old(scratch.offset)
    ensures ok <==> (n == 0 && ng.None?) ||
                    (Fits(n, old(scratch.Room(OBJECTS))) && AllDelivered(inputs[offset..offset + n]))
    ensures ok ==> r == Answer(g, inputs[offset..offset + n], ng, base)
  {
    r := g.zero;
    ZeroLeft(g, g.zero);
    if n == 0 && ng.None? { return true, r; }
    var window := BucketWindow(n);
    BucketFrame(n, window);
    var at;
    ok, at := FrameFor(scratch, ScratchSize(n, window), BucketObjects(n, window));
    if !ok { return; }
    ok, r := BucketSum(g, base, inputs, ng, window, offset, n);
    scratch.DeallocateFrame();
  }

  method MultiSimple<P(!new, ==)>(g: Group<P>, preG: seq<P>, base: P, inputs: seq<Option<Term<P>>>, ng: Option<Scalar>)
    returns (ok: bool, r: P)
    requires Abelian(g) && Exponent(g, N) && |preG| == TABLE_G && OddTable(g, preG, base)
    ensures ok <==> AllDelivered(inputs)
    ensures ok ==> r == Answer(g, inputs, ng, base)
  {
    r := Ecmult(g, preG, base, g.zero, 0, ng);
    for i := 0 to |inputs|
      invariant AllDelivered(inputs[..i]) && r == Answer(g, inputs[..i], ng, base)
    {
      if inputs[i].None? { return false, r; }
      var t := inputs[i].value;
      var tmp := Ecmult(g, preG, base, t.point, t.scalar, None);
      assert inputs[..i + 1] == inputs[..i] + [inputs[i]];
      AnswerAppend(g, inputs[..i], [inputs[i]], ng, base);
      assert ScalarsOf([inputs[i]]) == [t.scalar] && PointsOf([inputs[i]]) == [t.point];
      LinSingle(g, t.scalar, t.point);
      r := g.add(r, tmp);
    }
    assert inputs[..|inputs|] == inputs;
    return true, r;
  }

  /** As few batches as the limit allows, and as small ones as that number of batches allows. */
  predicate Balanced(maxPoints: nat, n: nat, nBatches: nat, batchPoints: nat)
  {
    var limit := if maxPoints > MAX_POINTS_PER_BATCH then MAX_POINTS_PER_BATCH else maxPoints;
    && nBatches >= 1 && Times(limit, nBatches - 1) < n <= Times(limit, nBatches)
    && batchPoints >= 1 && Times(nBatches, batchPoints - 1) < n <= Times(nBatches, batchPoints)
  }

  /**
   The batches partition the indices: none is empty, none is over the limit, and together they
   cover everything.
   */
  method BatchSizes(maxPoints: nat, n: nat) returns (ok: bool, nBatches: nat, batchPoints: nat)
    ensures ok <==> maxPoints > 0
    ensures ok && n > 0 ==> nBatches >= 1 && 1 <= batchPoints <= maxPoints && batchPoints <= MAX_POINTS_PER_BATCH
    ensures ok && n > 0 ==> Times(batchPoints, nBatches - 1) < n <= Times(batchPoints, nBatches)
    ensures ok && n > 0 ==> Balanced(maxPoints, n, nBatches, batchPoints)
    ensures ok && n == 0 ==> nBatches == 0
  {
    if maxPoints == 0 { return false, 0, 0; }
    var limit := if maxPoints > MAX_POINTS_PER_BATCH then MAX_POINTS_PER_BATCH else maxPoints;
    if n == 0 { return true, 0, 0; }
    nBatches := 1 + FloorDiv(n - 1, limit);
    batchPoints := 1 + FloorDiv(n - 1, nBatches);
    BatchesCover(n, limit, nBatches, batchPoints);
    BatchesBalanced(n, limit, nBatches);
    BatchesBalanced(n, nBatches, batchPoints);
    ok := true;
  }

  lemma BatchesBalanced(n: nat, limit: nat, k: nat)
    requires n > 0 && limit > 0 && k == 1 + FloorDiv(n - 1, limit)
    ensures Times(limit, k - 1) < n <= Times(limit, k)
  {
  }

  lemma BatchesCover(n: nat, limit: nat, nBatches: nat, batchPoints: nat)
    requires n > 0 && limit > 0
    requires nBatches == 1 + FloorDiv(n - 1, limit) && batchPoints == 1 + FloorDiv(n - 1, nBatches)
    ensures batchPoints <= limit && Times(batchPoints, nBatches - 1) < n <= Times(batchPoints, nBatches)
  {
    TimesCommute(nBatches, batchPoints);
    TimesCommute(nBatches, limit);
    if batchPoints > limit { TimesMono(nBatches, limit, batchPoints - 1); }
    TimesCommute(batchPoints, nBatches - 1);
    TimesCommute(limit, nBatches - 1);
    TimesMono(nBatches - 1, batchPoints, limit);
  }

  lemma TimesCommute(a: nat, b: nat)
    ensures Times(a, b) == Times(b, a)
  {
    TimesIsMul(a, b);
    TimesIsMul(b, a);
  }

  /** A scratch space with room for one Strauss point also has room for one bucket point. */
  lemma OnePointFits(maxAlloc: nat)
    requires maxAlloc >= STRAUSS_POINT_SIZE
    ensures Fits(1, maxAlloc)
  {
    CeilDivIsDiv(Fixed.WNAF_BITS, 2);
    assert Fixed.WnafSize(2) == 128;
    assert Times(EntrySize(1), 1) == EntrySize(1) + Times(EntrySize(1), 0);
    assert Pow2(1) == 2;
  }

  /** A scratch space with room for a batch above the threshold has room for one Strauss point. */
  lemma ThresholdIsLarge(n: nat, maxAlloc: nat)
    requires n >= PIPPENGER_THRESHOLD && Fits(n, maxAlloc)
    ensures maxAlloc >= STRAUSS_POINT_SIZE
  {
    var e := EntrySize(BucketWindow(n));
    TimesIsMul(e, n);
    MulMono(140, e, n);
  }

  /** The batch loop: r holds the answer for the indices the first i batches cover. */
  ghost predicate Covered<P(!new)>(g: Group<P>, r: P, inputs: seq<Option<Term<P>>>, ng: Option<Scalar>, base: P,
                                   done: nat, i: nat)
  {
    && done <= |inputs| && AllDelivered(inputs[..done])
    && (if i == 0 then done == 0 && r == g.zero else r == Answer(g, inputs[..done], ng, base))
  }

  lemma CoverNext<P(!new)>(g: Group<P>, r: P, inputs: seq<Option<Term<P>>>, ng: Option<Scalar>, base: P,
                           done: nat, i: nat, nbp: nat, tmp: P)
    requires Abelian(g) && Covered(g, r, inputs, ng, base, done, i) && done + nbp <= |inputs|
    requires AllDelivered(inputs[done..done + nbp])
    requires tmp == Answer(g, inputs[done..done + nbp], if i == 0 then ng else None, base)
    ensures Covered(g, g.add(r, tmp), inputs, ng, base, done + nbp, i + 1)
  {
    AnswerAppend(g, inputs[..done], inputs[done..done + nbp], ng, base);
    assert inputs[..done + nbp] == inputs[..done] + inputs[done..done + nbp];
  }

  lemma CoveredAll<P(!new)>(g: Group<P>, r: P, inputs: seq<Option<Term<P>>>, ng: Option<Scalar>, base: P, i: nat)
    requires i >= 1 && Covered(g, r, inputs, ng, base, |inputs|, i)
    ensures AllDelivered(inputs) && r == Answer(g, inputs, ng, base)
  {
    assert inputs[..|inputs|] == inputs;
  }

  /** The chosen algorithm has room for any batch of at most batchPoints points. */
  ghost predicate RoomFor(usePippenger: bool, batchPoints: nat, maxAlloc: nat)
  {
    if usePippenger then AllFit(batchPoints, maxAlloc) else batchPoints <= StraussMaxPoints(maxAlloc)
  }

  method RunBatch<P(!new, ==)>(g: Group<P>, preG: seq<P>, base: P, inputs: seq<Option<Term<P>>>, ng: Option<Scalar>,
                               scratch: Scratch, usePippenger: bool, offset: nat, n: nat, ghost batchPoints: nat)
    returns (ok: bool, r: P)
    requires Abelian(g) && Exponent(g, N) && |preG| == TABLE_G && OddTable(g, preG, base)
    requires 1 <= n <= batchPoints && offset + n <= |inputs|
    requires RoomFor(usePippenger, batchPoints, scratch.Room(OBJECTS))
    requires scratch.Valid() && scratch.Within()
    modifies scratch
    ensures scratch.Valid() && scratch.frameSize == old(scratch.frameSize) && scratch.offset == old(scratch.offset)
    ensures ok <==> AllDelivered(inputs[offset..offset + n])
    ensures ok ==> r == Answer(g, inputs[offset..offset + n], ng, base)
  {
    if usePippenger {
      ok, r := PippengerBatch(g, base, inputs, ng, scratch, offset, n);
    } else {
      ok, r := StraussBatch(g, preG, base, inputs, ng, scratch, offset, n);
    }
  }

  /** Runs batch i and adds its share; only the first batch brings the generator's. */
  method NextBatch<P(!new, ==)>(g: Group<P>, preG: seq<P>, base: P, inputs: seq<Option<Term<P>>>, ng: Option<Scalar>,
                                scratch: Scratch, usePippenger: bool, offset: nat, n: nat, ghost batchPoints: nat,
                                r: P, i: nat)
    returns (ok: bool, r': P)
    requires Abelian(g) && Exponent(g, N) && |preG| == TABLE_G && OddTable(g, preG, base)
    requires 1 <= n <= batchPoints && offset + n <= |inputs|
    requires RoomFor(usePippenger, batchPoints, scratch.Room(OBJECTS))
    requires Covered(g, r, inputs, ng, base, offset, i)
    requires scratch.Valid() && scratch.Within()
    modifies scratch
    ensures scratch.Valid() && scratch.frameSize == old(scratch.frameSize) && scratch.offset == old(scratch.offset)
    ensures ok ==> Covered(g, r', inputs, ng, base, offset + n, i + 1)
    ensures !ok ==> !AllDelivered(inputs)
  {
    var tmp;
    var share := if i == 0 then ng else None;
    ok, tmp := RunBatch(g, preG, base, inputs, share, scratch, usePippenger, offset, n, batchPoints);
    if ok { CoverNext(g, r, inputs, ng, base, offset, i, n, tmp); } else { SliceDelivered(inputs, offset, n); }
    r' := g.add(r, tmp);
  }

  lemma SliceDelivered<P>(inputs: seq<Option<Term<P>>>, offset: nat, n: nat)
    requires offset + n <= |inputs|
    ensures AllDelivered(inputs) ==> AllDelivered(inputs[offset..offset + n])
  {
  }

  /** Before batch i, `done` terms are behind and n are left; all batches before the last are full. */
  ghost predicate Accounted(batchPoints: nat, i: nat, nBatches: nat, total: nat, done: nat, n: int)
  {
    n >= 0 && done + n == total && if i < nBatches then done == Times(batchPoints, i) else n == 0
  }

  /** Batch i is not empty, and takes what is left or a whole batch. */
  lemma NextAccounted(batchPoints: nat, i: nat, nBatches: nat, total: nat, done: nat, n: nat, nbp: nat)
    requires i < nBatches && batchPoints >= 1 && Accounted(batchPoints, i, nBatches, total, done, n)
    requires Times(batchPoints, nBatches - 1) < total <= Times(batchPoints, nBatches)
    requires nbp == if n < batchPoints then n else batchPoints
    ensures 1 <= nbp <= n && Accounted(batchPoints, i + 1, nBatches, total, done + nbp, n - nbp)
  {
    BatchAccount(batchPoints, i, nBatches, total, n);
  }

  lemma BatchAccount(batchPoints: nat, i: nat, nBatches: nat, total: nat, n: nat)
    requires i < nBatches && batchPoints >= 1 && Times(batchPoints, i) + n == total
    requires Times(batchPoints, nBatches - 1) < total <= Times(batchPoints, nBatches)
    ensures n >= 1
    ensures if i + 1 < nBatches then n > batchPoints && Times(batchPoints, i + 1) == Times(batchPoints, i) + batchPoints
            else n <= batchPoints
  {
    TimesMono(batchPoints, i, nBatches - 1);
    if i + 1 < nBatches { TimesMono(batchPoints, i + 1, nBatches - 1); }
  }

  method RunBatches<P(!new, ==)>(g: Group<P>, preG: seq<P>, base: P, inputs: seq<Option<Term<P>>>, ng: Option<Scalar>,
                                 scratch: Scratch, usePippenger: bool, nBatches: nat, batchPoints: nat)
    returns (ok: bool, r: P)
    requires Abelian(g) && Exponent(g, N) && |preG| == TABLE_G && OddTable(g, preG, base)
    requires nBatches >= 1 && batchPoints >= 1 && RoomFor(usePippenger, batchPoints, scratch.Room(OBJECTS))
    requires Times(batchPoints, nBatches - 1) < |inputs| <= Times(batchPoints, nBatches)
    requires scratch.Valid() && scratch.Within()
    modifies scratch
    ensures scratch.Valid() && scratch.frameSize == old(scratch.frameSize) && scratch.offset == old(scratch.offset)
    ensures ok <==> AllDelivered(inputs)
    ensures ok ==> r == Answer(g, inputs, ng, base)
  {
    r := g.zero;
    var n := |inputs|;
    ghost var done: nat := 0;
    for i := 0 to nBatches
      invariant Accounted(batchPoints, i, nBatches, |inputs|, done, n)
      invariant Covered(g, r, inputs, ng, base, done, i)
      invariant scratch.Valid() && scratch.frameSize == old(scratch.frameSize) && scratch.offset == old(scratch.offset)
    {
      var nbp := if n < batchPoints then n else batchPoints;
      var offset := Times(batchPoints, i);
      NextAccounted(batchPoints, i, nBatches, |inputs|, done, n, nbp);
      ok, r := NextBatch(g, preG, base, inputs, ng, scratch, usePippenger, offset, nbp, batchPoints, r, i);
      if !ok { return; }
      done, n := offset + nbp, n - nbp;
    }
    CoveredAll(g, r, inputs, ng, base, nBatches);
    ok := true;
  }

  /** m is the largest count the buckets can hold, and k batches of b points are what it leads to: the buckets are used
      exactly for 160 points or more, and otherwise the batches are those of the interleaved method. */
  ghost predicate ChosenBy(maxAlloc: nat, n: nat, usePippenger: bool, nBatches: nat, batchPoints: nat,
                           m: nat, k: nat, b: nat)
  {
    && AllFit(m, maxAlloc) && !Fits(m + 1, maxAlloc) && Balanced(m, n, k, b)
    && (usePippenger <==> b >= PIPPENGER_THRESHOLD)
    && if usePippenger then nBatches == k && batchPoints == b
       else Balanced(StraussMaxPoints(maxAlloc), n, nBatches, batchPoints)
  }

  ghost predicate Chooses(maxAlloc: nat, n: nat, usePippenger: bool, nBatches: nat, batchPoints: nat)
  {
    exists m: nat, k: nat, b: nat :: ChosenBy(maxAlloc, n, usePippenger, nBatches, batchPoints, m, k, b)
  }

  /** Without room for one Strauss point there is none for a batch that the buckets are used for, and with it there is
      room for one bucket point. */
  lemma PlanRoom(maxAlloc: nat, m: nat, b: nat)
    requires AllFit(m, maxAlloc) && !Fits(m + 1, maxAlloc)
    ensures StraussMaxPoints(maxAlloc) > 0 <==> maxAlloc >= STRAUSS_POINT_SIZE
    ensures maxAlloc >= STRAUSS_POINT_SIZE ==> m > 0
    ensures PIPPENGER_THRESHOLD <= b <= m ==> maxAlloc >= STRAUSS_POINT_SIZE
    ensures b <= m ==> AllFit(b, maxAlloc)
  {
    assert 1 <= StraussMaxPoints(maxAlloc) <==> StraussScratchSize(1) <= maxAlloc;
    if maxAlloc >= STRAUSS_POINT_SIZE {
      OnePointFits(maxAlloc);
    }
    if PIPPENGER_THRESHOLD <= b <= m {
      assert Fits(b, maxAlloc);
      ThresholdIsLarge(b, maxAlloc);
    }
  }

  /** Picks the algorithm and the batch sizes; there is a plan exactly when one Strauss point fits. */
  method Plan(maxAlloc: nat, n: nat) returns (ok: bool, usePippenger: bool, nBatches: nat, batchPoints: nat)
    requires maxAlloc <= SIZE_MAX && n > 0
    ensures ok <==> maxAlloc >= STRAUSS_POINT_SIZE
    ensures ok ==> nBatches >= 1 && batchPoints >= 1 && RoomFor(usePippenger, batchPoints, maxAlloc)
    ensures ok ==> Times(batchPoints, nBatches - 1) < n <= Times(batchPoints, nBatches)
    ensures ok ==> Chooses(maxAlloc, n, usePippenger, nBatches, batchPoints)
  {
    var maxPoints := PippengerMaxPoints(maxAlloc);
    ok, nBatches, batchPoints := BatchSizes(maxPoints, n);
    usePippenger := batchPoints >= PIPPENGER_THRESHOLD;
    ghost var k, b := nBatches, batchPoints;
    PlanRoom(maxAlloc, maxPoints, batchPoints);
    if !ok { return; }
    if !usePippenger {
      ok, nBatches, batchPoints := BatchSizes(StraussMaxPoints(maxAlloc), n);
    }
    assert ok ==> ChosenBy(maxAlloc, n, usePippenger, nBatches, batchPoints, maxPoints, k, b);
  }

  /** The driver succeeds exactly when every callback does and the room, if there is a scratch space, is that of one
      Strauss point. */
  predicate Succeeds<P>(inputs: seq<Option<Term<P>>>, room: Option<nat>)
  {
    inputs == [] || (AllDelivered(inputs) && (room.None? || room.value >= STRAUSS_POINT_SIZE))
  }

  /** The multiplication, with a scratch space or without; the space is left as it was. */
  method MultiVar<P(!new, ==)>(g: Group<P>, preG: seq<P>, base: P, inputs: seq<Option<Term<P>>>, ng: Option<Scalar>,
                               scratch: Scratch?) returns (ok: bool, r: P)
    requires Abelian(g) && Exponent(g, N) && |preG| == TABLE_G && OddTable(g, preG, base)
    requires scratch != null ==> scratch.Valid() && scratch.Within()
    modifies scratch
    ensures scratch != null ==>
              scratch.Valid() && scratch.frameSize == old(scratch.frameSize) && scratch.offset == old(scratch.offset)
    ensures ok <==> Succeeds(inputs, if scratch == null then None else Some(old(scratch.Room(OBJECTS))))
    ensures ok ==> r == Answer(g, inputs, ng, base)
  {
    r := g.zero;
    SmulZero(g, 0);
    ZeroLeft(g, g.zero);
    if ng.None? && |inputs| == 0 {
      return true, r;
    } else if |inputs| == 0 {
      r := Ecmult(g, preG, base, r, 0, ng);
      return true, r;
    }
    if scratch == null {
      ok, r := MultiSimple(g, preG, base, inputs, ng);
      return;
    }
    var maxAlloc := scratch.MaxAllocation(OBJECTS);
    var usePippenger, nBatches, batchPoints;
    ok, usePippenger, nBatches, batchPoints := Plan(maxAlloc, |inputs|);
    if !ok { return; }
    ok, r := RunBatches(g, preG, base, inputs, ng, scratch, usePippenger, nBatches, batchPoints);
  }
}
