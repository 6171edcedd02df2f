/** Inversion, square roots and batch inversion modulo p, on limbs. */
module FieldChains {
  import opened Arith
  import opened Bits
  import opened PrimeResidues
  import opened Field5x52
  import opened FieldMul

  /** (p - 1) / 2, (p + 1) / 4, (p + 1) / 8, (p + 1) / 16 and 223 one bits. */
  const HALF_POWER: nat := 0x7FFFFFFFFFFFFFFFFFFFFFFFFFFFFFFFFFFFFFFFFFFFFFFFFFFFFFFF7FFFFE17
  const ROOT_POWER: nat := 0x3FFFFFFFFFFFFFFFFFFFFFFFFFFFFFFFFFFFFFFFFFFFFFFFFFFFFFFFBFFFFF0C
  const EIGHTH_POWER: nat := 0x1FFFFFFFFFFFFFFFFFFFFFFFFFFFFFFFFFFFFFFFFFFFFFFFFFFFFFFFDFFFFF86
  const SIXTEENTH_POWER: nat := 0xFFFFFFFFFFFFFFFFFFFFFFFFFFFFFFFFFFFFFFFFFFFFFFFFFFFFFFFEFFFFFC3
  const ONES_223: nat := 0x7FFFFFFFFFFFFFFFFFFFFFFFFFFFFFFFFFFFFFFFFFFFFFFFFFFFFFFF

  /** n stands for x to the power e, with magnitude 1. */
  ghost predicate IsPower(n: Limbs, x: nat, e: nat)
  {
    Magnitude(n, 1) && Congruent(Val(n), Pow(x, e), P)
  }

  method MulPowers(a: Limbs, b: Limbs, ghost x: nat, ghost e: nat, ghost f: nat) returns (r: Limbs)
    requires Magnitude(a, 8) && Congruent(Val(a), Pow(x, e), P) && Magnitude(b, 8) && Congruent(Val(b), Pow(x, f), P)
    ensures IsPower(r, x, e + f)
  {
    r := Mul(a, b);
    PowAdd(x, e, f);
    CongruentMul(Val(a), Pow(x, e), Val(b), Pow(x, f), P);
  }

  method SqrPower(a: Limbs, ghost x: nat, ghost e: nat) returns (r: Limbs)
    requires Magnitude(a, 8) && Congruent(Val(a), Pow(x, e), P)
    ensures IsPower(r, x, e + e)
  {
    r := Sqr(a);
    PowAdd(x, e, e);
    CongruentMul(Val(a), Pow(x, e), Val(a), Pow(x, e), P);
  }

  method SqrTimes(a: Limbs, n: nat, ghost x: nat, ghost e: nat) returns (r: Limbs)
    requires IsPower(a, x, e)
    ensures IsPower(r, x, Times(e, Pow2(n)))
  {
    r := a;
    assert Times(e, 1) == e;
    for j := 0 to n
      invariant IsPower(r, x, Times(e, Pow2(j)))
    {
      TimesDouble(e, Pow2(j));
      r := SqrPower(r, x, Times(e, Pow2(j)));
    }
  }

  lemma TimesDouble(e: nat, k: nat)
    ensures Times(e, 2 * k) == Times(e, k) + Times(e, k)
  {
    TimesIsMul(e, k);
    TimesIsMul(e, 2 * k);
  }

  /** One link of an addition chain: k squarings shift the exponent, a product joins two exponents. */
  method Link(a: Limbs, k: nat, b: Limbs, ghost x: nat, ghost e: nat, ghost shift: nat, ghost f: nat, ghost g: nat)
    returns (r: Limbs)
    requires IsPower(a, x, e) && Magnitude(b, 8) && Congruent(Val(b), Pow(x, f), P)
    requires shift == Pow2(k) && g == e * shift + f
    ensures IsPower(r, x, g)
  {
    r := SqrTimes(a, k, x, e);
    TimesIsMul(e, shift);
    r := MulPowers(r, b, x, Times(e, shift), f);
  }

  lemma ChainShifts()
    ensures Pow2(1) == 2 && Pow2(2) == 4 && Pow2(3) == 8 && Pow2(5) == 32 && Pow2(6) == 64 && Pow2(11) == 0x800
    ensures Pow2(22) == 0x400000 && Pow2(23) == 0x800000 && Pow2(44) == 0x100000000000 &&
            Pow2(88) == 0x10000000000000000000000
  {
    Pow2Square(11, 0x800);
    Pow2Square(22, 0x400000);
    Pow2Square(44, 0x100000000000);
  }

  lemma PowOne(x: nat)
    ensures Pow(x, 1) == x
  {
    assert Pow(x, 1) == x * Pow(x, 0);
  }

  /** The blocks of 2, 3 and 22 ones. */
  method LowBlocks(a: Limbs) returns (x2: Limbs, x3: Limbs, x22: Limbs)
    requires Magnitude(a, 8)
    ensures IsPower(x2, Val(a), 3) && IsPower(x3, Val(a), 7) && IsPower(x22, Val(a), 0x3FFFFF)
  {
    ghost var x := Val(a);
    PowOne(x);
    ChainShifts();
    x2 := SqrPower(a, x, 1);
    x2 := MulPowers(x2, a, x, 2, 1);
    x3 := Link(x2, 1, a, x, 0x3, 0x2, 0x1, 0x7);
    var x6 := Link(x3, 3, x3, x, 0x7, 0x8, 0x7, 0x3F);
    var x9 := Link(x6, 3, x3, x, 0x3F, 0x8, 0x7, 0x1FF);
    var x11 := Link(x9, 2, x2, x, 0x1FF, 0x4, 0x3, 0x7FF);
    x22 := Link(x11, 11, x11, x, 0x7FF, 0x800, 0x7FF, 0x3FFFFF);
  }

  /** The block of 223 ones. */
  method HighBlock(x3: Limbs, x22: Limbs, ghost x: nat) returns (x223: Limbs)
    requires IsPower(x3, x, 7) && IsPower(x22, x, 0x3FFFFF)
    ensures IsPower(x223, x, ONES_223)
  {
    ChainShifts();
    var x44 := Link(x22, 22, x22, x, 0x3FFFFF, 0x400000, 0x3FFFFF, 0xFFFFFFFFFFF);
    var x88 := Link(x44, 44, x44, x, 0xFFFFFFFFFFF, 0x100000000000, 0xFFFFFFFFFFF, 0xFFFFFFFFFFFFFFFFFFFFFF);
    var x176 := Link(x88, 88, x88, x,
                     0xFFFFFFFFFFFFFFFFFFFFFF, 0x10000000000000000000000, 0xFFFFFFFFFFFFFFFFFFFFFF,
                     0xFFFFFFFFFFFFFFFFFFFFFFFFFFFFFFFFFFFFFFFFFFFF);
    var x220 := Link(x176, 44, x44, x,
                     0xFFFFFFFFFFFFFFFFFFFFFFFFFFFFFFFFFFFFFFFFFFFF, 0x100000000000, 0xFFFFFFFFFFF,
                     0xFFFFFFFFFFFFFFFFFFFFFFFFFFFFFFFFFFFFFFFFFFFFFFFFFFFFFFF);
    x223 := Link(x220, 3, x3, x, 0xFFFFFFFFFFFFFFFFFFFFFFFFFFFFFFFFFFFFFFFFFFFFFFFFFFFFFFF, 0x8, 0x7, ONES_223);
  }

  /** a to the power p - 2, by a sliding window over the blocks. */
  method Inv(a: Limbs) returns (r: Limbs)
    requires Magnitude(a, 8)
    ensures IsPower(r, Val(a), P - 2)
  {
    ghost var x := Val(a);
    PowOne(x);
    ChainShifts();
    var x2, x3, x22 := LowBlocks(a);
    var x223 := HighBlock(x3, x22, x);
    var t1 := Link(x223, 23, x22, x,
                   ONES_223, 0x800000, 0x3FFFFF, 0x3FFFFFFFFFFFFFFFFFFFFFFFFFFFFFFFFFFFFFFFFFFFFFFFFFFFFFFFBFFFFF);
    t1 := Link(t1, 5, a, x,
               0x3FFFFFFFFFFFFFFFFFFFFFFFFFFFFFFFFFFFFFFFFFFFFFFFFFFFFFFFBFFFFF, 0x20, 0x1,
               0x7FFFFFFFFFFFFFFFFFFFFFFFFFFFFFFFFFFFFFFFFFFFFFFFFFFFFFFF7FFFFE1);
    t1 := Link(t1, 3, x2, x,
               0x7FFFFFFFFFFFFFFFFFFFFFFFFFFFFFFFFFFFFFFFFFFFFFFFFFFFFFFF7FFFFE1, 0x8, 0x3,
               0x3FFFFFFFFFFFFFFFFFFFFFFFFFFFFFFFFFFFFFFFFFFFFFFFFFFFFFFFBFFFFF0B);
    r := Link(t1, 2, a, x,
              0x3FFFFFFFFFFFFFFFFFFFFFFFFFFFFFFFFFFFFFFFFFFFFFFFFFFFFFFFBFFFFF0B, 0x4, 0x1,
              0xFFFFFFFFFFFFFFFFFFFFFFFFFFFFFFFFFFFFFFFFFFFFFFFFFFFFFFFEFFFFFC2D);
  }

  /** a to the power (p + 1) / 16: its fourth power is the root candidate. */
  method RootOfRoot(a: Limbs) returns (t1: Limbs)
    requires Magnitude(a, 8)
    ensures IsPower(t1, Val(a), SIXTEENTH_POWER)
  {
    ghost var x := Val(a);
    ChainShifts();
    var x2, x3, x22 := LowBlocks(a);
    var x223 := HighBlock(x3, x22, x);
    t1 := Link(x223, 23, x22, x,
               ONES_223, 0x800000, 0x3FFFFF, 0x3FFFFFFFFFFFFFFFFFFFFFFFFFFFFFFFFFFFFFFFFFFFFFFFFFFFFFFFBFFFFF);
    t1 := Link(t1, 6, x2, x, 0x3FFFFFFFFFFFFFFFFFFFFFFFFFFFFFFFFFFFFFFFFFFFFFFFFFFFFFFFBFFFFF, 0x40, 0x3,
               SIXTEENTH_POWER);
  }

  /** a to the power (p + 1) / 4, which is a square. */
  method RootCandidate(a: Limbs) returns (r: Limbs)
    requires Magnitude(a, 8)
    ensures IsPower(r, Val(a), ROOT_POWER) && IsSquare(Val(r), P)
  {
    var t1 := RootOfRoot(a);
    t1 := SqrPower(t1, Val(a), SIXTEENTH_POWER);
    r := SqrPower(t1, Val(a), EIGHTH_POWER);
    DoubledIsSquare(Val(t1), Val(r), Val(a), EIGHTH_POWER, P);
  }

  method DecidingRoot(a: Limbs) returns (r: Limbs)
    requires Fermat(P) && Magnitude(a, 8)
    ensures Magnitude(r, 1) && IsSquare(Val(r), P)
    ensures Decides(Val(r), Val(a), P)
  {
    r := RootCandidate(a);
    RootLaw(Val(a), Val(r), ROOT_POWER, HALF_POWER, P);
  }

  /** The square root: true exactly for squares; otherwise r is a root of -a. The root is itself a square. */
  method Sqrt(a: Limbs) returns (ok: bool, r: Limbs)
    requires Fermat(P) && Magnitude(a, 8)
    ensures ok <==> IsSquare(Val(a), P)
    ensures Magnitude(r, 1) && (if ok then IsRoot(Val(r), Val(a), P) else IsRoot(Val(r), -(Val(a) as int), P))
    ensures IsSquare(Val(r), P)
  {
    r := DecidingRoot(a);
    ok := CheckRoot(a, r);
  }

  /** Squaring the candidate and comparing with a. */
  method CheckRoot(a: Limbs, r: Limbs) returns (ok: bool)
    requires Magnitude(a, 8) && Magnitude(r, 1)
    ensures ok <==> IsRoot(Val(r), Val(a), P)
  {
    var t1 := Sqr(r);
    ok := Equal(t1, a, 8);
  }

  /** The values of a list of elements. */
  ghost function Vals(a: seq<Limbs>): (p: seq<nat>)
    ensures |p| == |a| && forall i :: 0 <= i < |a| ==> p[i] == Val(a[i])
  {
    seq(|a|, i requires 0 <= i < |a| => Val(a[i]))
  }

  /** n is the product of the values through index j. */
  ghost predicate Prefix(p: seq<nat>, n: Limbs, j: nat)
  {
    j < |p| && Magnitude(n, 8) && Congruent(Val(n), Prod(p, j + 1), P)
  }

  /** u times the product of the first n values is w, and u vanishes when the whole product does. */
  ghost predicate Unwinding(p: seq<nat>, u: Limbs, n: nat, w: int)
  {
    n <= |p| && Magnitude(u, 1) && Congruent(Val(u) * Prod(p, n), w, P) && (Zero(Prod(p, |p|), P) ==> Zero(Val(u), P))
  }

  ghost predicate Inverted(p: seq<nat>, j: nat, y: Limbs, w: int)
  {
    j < |p| && Magnitude(y, 1) && Congruent(Val(y) * p[j], w, P) && (Zero(Prod(p, |p|), P) ==> Zero(Val(y), P))
  }

  lemma FirstPrefix(p: seq<nat>, a: Limbs)
    requires |p| > 0 && Magnitude(a, 8) && p[0] == Val(a)
    ensures Prefix(p, a, 0)
  {
    assert Prod(p, 1) == Prod(p, 0) * p[0];
  }

  method MulPrefix(ghost p: seq<nat>, before: Limbs, x: Limbs, ghost i: nat) returns (n: Limbs)
    requires 0 < i < |p| && Prefix(p, before, i - 1) && Magnitude(x, 8) && Val(x) == p[i]
    ensures Prefix(p, n, i)
  {
    n := Mul(before, x);
    CongruentMul(Val(before), Prod(p, i), Val(x), Val(x), P);
  }

  /** The forward pass of batch inversion: r[j] becomes the product through a[j]. */
  method Prefixes(r: array<Limbs>, a: array<Limbs>, ghost p: seq<nat>)
    requires r != a && r.Length == a.Length > 0 && forall i :: 0 <= i < a.Length ==> Magnitude(a[i], 8)
    requires |p| == a.Length && forall i :: 0 <= i < a.Length ==> p[i] == Val(a[i])
    modifies r
    ensures forall j :: 0 <= j < a.Length ==> Prefix(p, r[j], j)
  {
    r[0] := a[0];
    FirstPrefix(p, a[0]);
    var i := 1;
    while i < a.Length
      invariant 1 <= i <= a.Length
      invariant forall j :: 0 <= j < i ==> Prefix(p, r[j], j)
    {
      r[i] := MulPrefix(p, r[i - 1], a[i], i);
      i := i + 1;
    }
  }

  /** The one inversion, of the product of everything. */
  method InvertTotal(ghost p: seq<nat>, last: Limbs) returns (u: Limbs, ghost w: int)
    requires Fermat(P) && |p| > 0 && Prefix(p, last, |p| - 1)
    ensures Unwinding(p, u, |p|, w)
    ensures !Zero(Prod(p, |p|), P) ==> Congruent(w, 1, P)
  {
    u := Inv(last);
    w := Val(u) * Prod(p, |p|);
    TotalLaw(Val(last), Prod(p, |p|), Val(u), P);
  }

  method Unwind(ghost p: seq<nat>, before: Limbs, u: Limbs, x: Limbs, ghost j: nat, ghost w: int)
    returns (rj: Limbs, next: Limbs)
    requires 0 < j < |p| && Magnitude(x, 8) && Val(x) == p[j] && Prefix(p, before, j - 1) && Unwinding(p, u, j + 1, w)
    ensures Inverted(p, j, rj, w) && Unwinding(p, next, j, w)
  {
    rj := Mul(before, u);
    next := Mul(u, x);
    BackStep(Val(u), Prod(p, j), Val(before), Val(x), Val(rj), Val(next), w, P);
    if Zero(Prod(p, |p|), P) {
      CongruentMul(Val(before), Val(before), Val(u), 0, P);
      CongruentMul(Val(u), 0, Val(x), Val(x), P);
    }
  }

  /** The backward pass: peel one factor an element off the inverse of the product. */
  method Peel(r: array<Limbs>, a: array<Limbs>, v: Limbs, ghost p: seq<nat>, ghost w: int)
    requires r != a && r.Length == a.Length > 0 && forall i :: 0 <= i < a.Length ==> Magnitude(a[i], 8)
    requires |p| == a.Length && forall i :: 0 <= i < a.Length ==> p[i] == Val(a[i])
    requires forall j :: 0 <= j < a.Length ==> Prefix(p, r[j], j)
    requires Unwinding(p, v, a.Length, w)
    modifies r
    ensures forall j :: 0 <= j < a.Length ==> Inverted(p, j, r[j], w)
  {
    var u := v;
    var i := a.Length - 1;
    while i > 0
      invariant 0 <= i < a.Length
      invariant forall j :: 0 <= j < i ==> Prefix(p, r[j], j)
      invariant Unwinding(p, u, i + 1, w)
      invariant forall j :: i < j < a.Length ==> Inverted(p, j, r[j], w)
    {
      var j := i;
      i := i - 1;
      r[j], u := Unwind(p, r[i], u, a[j], j, w);
    }
    r[0] := u;
    LastInverted(p, u, w);
  }

  lemma LastInverted(p: seq<nat>, u: Limbs, w: int)
    requires |p| > 0 && Unwinding(p, u, 1, w)
    ensures Inverted(p, 0, u, w)
  {
    assert Prod(p, 1) == Prod(p, 0) * p[0];
  }

  /** Batch inversion with one inversion and three products an element: inverses if all are nonzero, zeros otherwise. */
  method InvAll(r: array<Limbs>, a: array<Limbs>)
    requires Fermat(P) && r != a && r.Length == a.Length && forall i :: 0 <= i < a.Length ==> Magnitude(a[i], 8)
    modifies r
    ensures forall i :: 0 <= i < a.Length ==> Magnitude(r[i], 1)
    ensures (forall i :: 0 <= i < a.Length ==> !Zero(Val(a[i]), P)) ==>
              forall i :: 0 <= i < a.Length ==> Congruent(Val(r[i]) * Val(a[i]), 1, P)
    ensures (exists i :: 0 <= i < a.Length && Zero(Val(a[i]), P)) ==>
              forall i :: 0 <= i < a.Length ==> Zero(Val(r[i]), P)
  {
    if a.Length < 1 {
      return;
    }
    ghost var p := Vals(a[..]);
    Prefixes(r, a, p);
    ghost var w;
    var u;
    u, w := InvertTotal(p, r[a.Length - 1]);
    Peel(r, a, u, p, w);
    ProdZero(p, a.Length, P);
  }
}
