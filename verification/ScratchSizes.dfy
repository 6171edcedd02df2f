/** The size arithmetic that decides how many points a scratch space can hold. */
module ScratchSizes {
  import opened Arith
  import opened Bits
  import Fixed = WnafFixed

  // Sizes in bytes on x86-64.
  const SIZEOF_FE: nat := 40
  const SIZEOF_GE: nat := 88
  const SIZEOF_GEJ: nat := 128
  const SIZEOF_SCALAR: nat := 32
  const SIZEOF_INT: nat := 4
  const SIZEOF_BUCKET_POINT: nat := 16
  const SIZEOF_PIPPENGER_STATE: nat := 16
  const SIZEOF_STRAUSS_POINT: nat := 1040
  const SIZE_MAX: nat := 0xFFFF_FFFF_FFFF_FFFF

  const MAX_WINDOW: nat := 12

  /** The window chosen for n points. */
  function BucketWindow(n: nat): (w: nat)
  {
    if n <= 1 then 1
    else if n <= 11 then 2
    else if n <= 45 then 3
    else if n <= 100 then 4
    else if n <= 275 then 5
    else if n <= 625 then 6
    else if n <= 1850 then 7
    else if n <= 3400 then 8
    else if n <= 9630 then 9
    else if n <= 17900 then 10
    else if n <= 32800 then 11
    else MAX_WINDOW
  }

  /** The most points for which window w is chosen. */
  function WindowInverse(w: nat): (n: nat)
  {
    match w
    case 1 => 1
    case 2 => 11
    case 3 => 45
    case 4 => 100
    case 5 => 275
    case 6 => 625
    case 7 => 1850
    case 8 => 3400
    case 9 => 9630
    case 10 => 17900
    case 11 => 32800
    case 12 => SIZE_MAX
    case _ => 0
  }

  /** The two tables are inverse to each other: window w serves exactly the counts in its interval. */
  lemma WindowGalois(n: nat, w: nat)
    requires 1 <= n <= SIZE_MAX && 1 <= w <= MAX_WINDOW
    ensures BucketWindow(n) == w <==> WindowInverse(w - 1) < n <= WindowInverse(w)
    ensures WindowInverse(w - 1) < WindowInverse(w)
  {
  }

  function EntrySize(w: nat): (r: nat)
    ensures r >= 140
  {
    SIZEOF_GE + SIZEOF_SCALAR + SIZEOF_BUCKET_POINT + (Fixed.WnafSize(w + 1) + 1) * SIZEOF_INT
  }

  function Overhead(w: nat): (r: nat)
  {
    SIZEOF_GEJ * Pow2(w) + EntrySize(w) + SIZEOF_PIPPENGER_STATE
  }

  /** Buckets, state and n + 1 entries: the generator takes one entry of its own. */
  function ScratchSize(n: nat, w: nat): (r: nat)
  {
    Overhead(w) + Times(EntrySize(w), n)
  }

  predicate Fits(n: nat, maxAlloc: nat) { ScratchSize(n, BucketWindow(n)) <= maxAlloc }

  ghost predicate AllFit(m: nat, maxAlloc: nat) { forall n :: 1 <= n <= m ==> Fits(n, maxAlloc) }

  /** Under a fixed window, n points fit exactly when n is at most the quotient the code computes. */
  lemma FitsByDivision(n: nat, w: nat, maxAlloc: nat)
    ensures Overhead(w) > maxAlloc ==> ScratchSize(n, w) > maxAlloc
    ensures Overhead(w) <= maxAlloc ==>
      (ScratchSize(n, w) <= maxAlloc <==> n <= FloorDiv(maxAlloc - Overhead(w), EntrySize(w)))
  {
    if Overhead(w) <= maxAlloc {
      DivisionBound(n, EntrySize(w), maxAlloc - Overhead(w));
    }
  }

  lemma DivisionBound(n: nat, e: nat, space: nat)
    requires e > 0
    ensures Times(e, n) <= space <==> n <= FloorDiv(space, e)
  {
    var q := FloorDiv(space, e);
    if n <= q { TimesMono(e, n, q); } else { TimesMono(e, q + 1, n); }
  }

  /** With every count of the smaller windows fitting, the next window adds the counts the code computes. */
  lemma ExtendFit(res: nat, nPoints: nat, w: nat, maxAlloc: nat)
    requires 1 <= w <= MAX_WINDOW && res == WindowInverse(w - 1) && AllFit(res, maxAlloc)
    requires Overhead(w) <= maxAlloc <= SIZE_MAX
    requires nPoints <= WindowInverse(w) && nPoints <= FloorDiv(maxAlloc - Overhead(w), EntrySize(w))
    ensures AllFit(nPoints, maxAlloc)
  {
    forall n | 1 <= n <= nPoints ensures Fits(n, maxAlloc) {
      if n > res {
        WindowGalois(n, w);
        FitsByDivision(n, w, maxAlloc);
      }
    }
  }

  /** The first count that a window cannot serve within the limit. */
  ghost predicate Beyond(n: nat, w: nat, maxAlloc: nat)
  {
    1 <= w <= MAX_WINDOW && WindowInverse(w - 1) < n <= WindowInverse(w) && ScratchSize(n, w) > maxAlloc
  }

  lemma BeyondDoesNotFit(n: nat, w: nat, maxAlloc: nat)
    requires Beyond(n, w, maxAlloc)
    ensures !Fits(n, maxAlloc)
  {
    WindowGalois(n, w);
  }

  /** Every larger count of the window is beyond the limit. */
  ghost predicate AllBeyond(nPoints: nat, w: nat, maxAlloc: nat)
    requires 1 <= w <= MAX_WINDOW
  {
    forall n :: WindowInverse(w - 1) < n <= WindowInverse(w) && nPoints < n ==> Beyond(n, w, maxAlloc)
  }

  lemma QuotientIsBound(w: nat, maxAlloc: nat, q: nat)
    requires 1 <= w <= MAX_WINDOW && Overhead(w) <= maxAlloc && q == FloorDiv(maxAlloc - Overhead(w), EntrySize(w))
    ensures AllBeyond(q, w, maxAlloc)
  {
    forall n: nat | WindowInverse(w - 1) < n <= WindowInverse(w) && q < n ensures Beyond(n, w, maxAlloc) {
      FitsByDivision(n, w, maxAlloc);
    }
  }

  /** One window: how many points it holds, capped by the window's own limit. */
  method WindowPoints(w: nat, maxAlloc: nat, ghost res: nat) returns (nPoints: nat)
    requires 1 <= w <= MAX_WINDOW && res == WindowInverse(w - 1) && AllFit(res, maxAlloc)
    requires Overhead(w) <= maxAlloc <= SIZE_MAX
    ensures nPoints <= WindowInverse(w) && AllFit(nPoints, maxAlloc)
    ensures nPoints < WindowInverse(w) ==> AllBeyond(nPoints, w, maxAlloc)
    ensures w == MAX_WINDOW ==> nPoints < WindowInverse(w)
  {
    var spaceForPoints := maxAlloc - Overhead(w);
    nPoints := FloorDiv(spaceForPoints, EntrySize(w));
    QuotientSmall(spaceForPoints, EntrySize(w));
    QuotientIsBound(w, maxAlloc, nPoints);
    if nPoints > WindowInverse(w) { nPoints := WindowInverse(w); }
    ExtendFit(res, nPoints, w, maxAlloc);
  }

  lemma NoRoomIsBeyond(w: nat, maxAlloc: nat)
    requires 1 <= w <= MAX_WINDOW && Overhead(w) > maxAlloc
    ensures Beyond(WindowInverse(w - 1) + 1, w, maxAlloc)
  {
    WindowGalois(1, w);
    FitsByDivision(WindowInverse(w - 1) + 1, w, maxAlloc);
  }

  lemma StopIsBeyond(w: nat, maxAlloc: nat, nPoints: nat, res: nat)
    requires 1 <= w <= MAX_WINDOW && nPoints < WindowInverse(w) && AllBeyond(nPoints, w, maxAlloc)
    requires res == if nPoints > WindowInverse(w - 1) then nPoints else WindowInverse(w - 1)
    ensures Beyond(res + 1, w, maxAlloc)
  {
    WindowGalois(1, w);
  }

  /** The largest m such that every count up to m fits, although the window changes with the count. */
  method PippengerMaxPoints(maxAlloc: nat) returns (res: nat)
    requires maxAlloc <= SIZE_MAX
    ensures AllFit(res, maxAlloc) && !Fits(res + 1, maxAlloc)
  {
    ghost var w;
    res, w := SearchWindows(maxAlloc);
    BeyondDoesNotFit(res + 1, w, maxAlloc);
  }

  method SearchWindows(maxAlloc: nat) returns (res: nat, ghost last: nat)
    requires maxAlloc <= SIZE_MAX
    ensures AllFit(res, maxAlloc) && Beyond(res + 1, last, maxAlloc)
  {
    res := 0;
    var w := 1;
    while true
      invariant 1 <= w <= MAX_WINDOW && res == WindowInverse(w - 1) && AllFit(res, maxAlloc)
      decreases MAX_WINDOW - w
    {
      if Overhead(w) > maxAlloc {
        NoRoomIsBeyond(w, maxAlloc);
        break;
      }
      var nPoints := WindowPoints(w, maxAlloc, res);
      if nPoints < WindowInverse(w) {
        if nPoints > res { res := nPoints; }
        StopIsBeyond(w, maxAlloc, nPoints, res);
        break;
      }
      res := nPoints;
      w := w + 1;
    }
    last := w;
  }

  lemma QuotientSmall(space: nat, e: nat)
    requires e >= 2 && space <= SIZE_MAX
    ensures FloorDiv(space, e) < SIZE_MAX
  {
    var q := FloorDiv(space, e);
    TimesIsMul(e, q);
    MulMono(2, e, q);
  }

  const STRAUSS_POINT_SIZE: nat :=
    (SIZEOF_GE + SIZEOF_GEJ + SIZEOF_FE) * 8 + SIZEOF_STRAUSS_POINT + SIZEOF_GEJ + SIZEOF_SCALAR

  function StraussScratchSize(n: nat): (r: nat) { n * STRAUSS_POINT_SIZE }

  function StraussMaxPoints(maxAlloc: nat): (m: nat)
    ensures forall n: nat :: n <= m <==> StraussScratchSize(n) <= maxAlloc
  {
    maxAlloc / STRAUSS_POINT_SIZE
  }
}
