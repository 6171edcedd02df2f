/** Powers, inverses and square roots modulo m, for any m at which Fermat's little theorem holds. */
module PrimeResidues {
  import opened Arith

  function Pow(x: nat, e: nat): (r: nat)
  {
    if e == 0 then 1 else x * Pow(x, e - 1)
  }

  lemma {:induction false} PowAdd(x: nat, a: nat, b: nat)
    ensures Pow(x, a + b) == Pow(x, a) * Pow(x, b)
  {
    if a > 0 {
      PowAdd(x, a - 1, b);
      Shift(x, Pow(x, a - 1), Pow(x, b), Pow(x, a - 1 + b));
    }
  }

  lemma Shift(x: int, u: int, v: int, w: int)
    requires w == u * v
    ensures x * w == (x * u) * v
  {
  }

  lemma {:induction false} PowBase(x: nat, y: nat, e: nat)
    ensures Pow(x * y, e) == Pow(x, e) * Pow(y, e)
  {
    if e > 0 {
      PowBase(x, y, e - 1);
      Regroup(x, y, Pow(x, e - 1), Pow(y, e - 1));
    }
  }

  lemma Regroup(x: int, y: int, u: int, v: int)
    ensures (x * y) * (u * v) == (x * u) * (y * v)
  {
    assert (x * y) * (u * v) == x * (y * (u * v));
    assert y * (u * v) == u * (y * v);
    assert x * (u * (y * v)) == (x * u) * (y * v);
  }

  lemma {:induction false} PowCongruent(x: nat, y: nat, e: nat, m: nat)
    requires m > 0 && Congruent(x, y, m)
    ensures Congruent(Pow(x, e), Pow(y, e), m)
  {
    if e > 0 {
      PowCongruent(x, y, e - 1, m);
      CongruentMul(x, y, Pow(x, e - 1), Pow(y, e - 1), m);
    }
  }

  ghost predicate Zero(x: int, m: nat)
    requires m > 0
  {
    Congruent(x, 0, m)
  }

  /** Fermat's little theorem for m at x. */
  ghost predicate FermatAt(x: nat, m: nat)
    requires m > 0
  {
    Zero(x, m) || Congruent(Pow(x, m - 1), 1, m)
  }

  ghost predicate Fermat(m: nat)
    requires m > 0
  {
    forall x: nat :: FermatAt(x, m)
  }

  ghost predicate IsRoot(y: int, x: int, m: nat)
    requires m > 0
  {
    Congruent(y * y, x, m)
  }

  ghost predicate IsSquare(x: int, m: nat)
    requires m > 0
  {
    exists y: nat :: IsRoot(y, x, m)
  }

  /** The power m - 2 is the inverse. */
  lemma InverseLaw(x: nat, r: nat, m: nat)
    requires m > 2 && FermatAt(x, m) && Congruent(r, Pow(x, m - 2), m)
    ensures !Zero(x, m) ==> Congruent(r * x, 1, m)
    ensures Zero(x, m) ==> Zero(r, m)
  {
    if Zero(x, m) {
      PowCongruent(x, 0, m - 2, m);
      assert Pow(0, m - 2) == 0 * Pow(0, m - 3);
    } else {
      CongruentMul(r, Pow(x, m - 2), x, x, m);
      assert Pow(x, m - 1) == x * Pow(x, m - 2);
    }
  }

  /** There are no zero divisors. */
  lemma NoZeroDivisors(x: nat, y: nat, m: nat)
    requires m > 2 && FermatAt(x, m)
    ensures Zero(x * y, m) <==> Zero(x, m) || Zero(y, m)
  {
    if Zero(x, m) {
      CongruentMul(x, 0, y, y, m);
    } else if Zero(y, m) {
      CongruentMul(x, x, y, 0, m);
    } else {
      var q := Pow(x, m - 2);
      InverseLaw(x, q, m);
      CongruentMul(q * x, 1, y, y, m);
      assert q * (x * y) == (q * x) * y;
      if Zero(x * y, m) {
        CongruentMul(q, q, x * y, 0, m);
      }
    }
  }

  /** One backward step of batch inversion: u inverts the product through j, before is the product below j. */
  lemma BackStep(u: nat, before: nat, prefix: nat, x: nat, rj: nat, next: nat, w: int, m: nat)
    requires m > 0 && Congruent(u * (before * x), w, m) && Congruent(prefix, before, m)
    requires Congruent(rj, prefix * u, m) && Congruent(next, u * x, m)
    ensures Congruent(rj * x, w, m) && Congruent(next * before, w, m)
  {
    CongruentMul(prefix, before, u, u, m);
    CongruentMul(rj, before * u, x, x, m);
    CongruentMul(next, u * x, before, before, m);
    assert (before * u) * x == u * (before * x) == (u * x) * before;
  }

  /** A value whose square is 1 is 1 or -1. */
  lemma UnitRoots(h: nat, h2: nat, m: nat)
    requires m > 2 && h2 == h * h && Congruent(h2, 1, m) && FermatAt(h + 1, m)
    ensures Congruent(h, 1, m) || Congruent(h, -1, m)
  {
    var less := h + m - 1;
    FactorSquare(h, less, h2, m);
    NoZeroDivisors(h + 1, less, m);
    if Zero(less, m) {
      CongruentByMultiple(m - 1, -1, 1, m);
      CongruentAdd(less, 0, m - 1, -1, m);
    } else {
      CongruentAdd(h + 1, 0, 1, 1, m);
    }
  }

  lemma FactorSquare(h: int, less: int, h2: int, m: int)
    requires less == h + m - 1 && h2 == h * h && m > 0 && Congruent(h2, 1, m)
    ensures Congruent((h + 1) * less, 0, m)
  {
    var k := CongruentQuotient(h2, 1, m);
    assert (h + 1) * less == (h + 1) * h + (h + 1) * m - (h + 1) == h2 - 1 + (h + 1) * m;
    assert k * m + (h + 1) * m == (k + h + 1) * m;
    CongruentByMultiple((h + 1) * less, 0, k + h + 1, m);
  }

  lemma PlusMinusOne(x: int, h: int, s: int, m: nat)
    requires m > 0 && (Zero(x, m) || Congruent(h, 1, m) || Congruent(h, -1, m))
    requires Congruent(s, x * h, m)
    ensures Congruent(s, x, m) || Congruent(s, -x, m)
  {
    if Zero(x, m) {
      CongruentMul(x, 0, h, h, m);
    } else if Congruent(h, 1, m) {
      CongruentMul(x, x, h, 1, m);
    } else {
      CongruentMul(x, x, h, -1, m);
    }
  }

  /** Euler: a nonzero square has (m - 1) / 2-th power 1. */
  lemma SquareLaw(x: nat, y: nat, half: nat, m: nat)
    requires m == half + half + 1 && FermatAt(y, m) && IsRoot(y, x, m)
    ensures Congruent(x * Pow(x, half), x, m)
  {
    PowCongruent(y * y, x, half, m);
    PowBase(y, y, half);
    PowAdd(y, half, half);
    if Zero(y, m) {
      CongruentMul(y, 0, y, 0, m);
      CongruentMul(x, 0, Pow(x, half), Pow(x, half), m);
    } else {
      CongruentMul(x, x, Pow(x, half), 1, m);
    }
  }

  /** The square of the root candidate is x times its power (m - 1) / 2. */
  lemma CandidateSquare(x: nat, r: nat, root: nat, half: nat, m: nat)
    requires m > 0 && root + root == half + 1 && Congruent(r, Pow(x, root), m)
    ensures Congruent(r * r, x * Pow(x, half), m)
  {
    PowAdd(x, root, root);
    CongruentMul(r, Pow(x, root), r, Pow(x, root), m);
    assert Pow(x, half + 1) == x * Pow(x, half);
  }

  /** The power (m - 1) / 2 of a nonzero value is 1 or -1. */
  lemma HalfPower(x: nat, half: nat, m: nat)
    requires half > 0 && m == half + half + 1 && FermatAt(x, m) && FermatAt(Pow(x, half) + 1, m)
    ensures Zero(x, m) || Congruent(Pow(x, half), 1, m) || Congruent(Pow(x, half), -1, m)
  {
    PowAdd(x, half, half);
    if !Zero(x, m) {
      UnitRoots(Pow(x, half), Pow(x, m - 1), m);
    }
  }

  /** r is a root of x exactly when x is a square, and otherwise a root of -x. */
  ghost predicate Decides(r: nat, x: nat, m: nat)
    requires m > 0
  {
    && (IsRoot(r, x, m) <==> IsSquare(x, m))
    && (IsRoot(r, x, m) || IsRoot(r, -(x as int), m))
  }

  /** The power (m + 1) / 4 decides whether x is a square. */
  lemma RootLaw(x: nat, r: nat, root: nat, half: nat, m: nat)
    requires half > 0 && m == half + half + 1 && root + root == half + 1
    requires Fermat(m) && Congruent(r, Pow(x, root), m)
    ensures Decides(r, x, m)
  {
    var h := Pow(x, half);
    assert FermatAt(x, m) && FermatAt(h + 1, m);
    CandidateSquare(x, r, root, half, m);
    HalfPower(x, half, m);
    PlusMinusOne(x, h, r * r, m);
    if IsSquare(x, m) {
      var y: nat :| IsRoot(y, x, m);
      assert FermatAt(y, m);
      SquareLaw(x, y, half, m);
    }
  }

  /** A doubled exponent gives a square. */
  lemma DoubledIsSquare(t: nat, r: nat, x: nat, e: nat, m: nat)
    requires m > 0 && Congruent(t, Pow(x, e), m) && Congruent(r, Pow(x, e + e), m)
    ensures IsSquare(r, m)
  {
    PowAdd(x, e, e);
    CongruentMul(t, Pow(x, e), t, Pow(x, e), m);
    assert IsRoot(t, r, m);
  }

  /** Inverting something congruent to the total. */
  lemma TotalLaw(last: nat, total: nat, u: nat, m: nat)
    requires m > 2 && Fermat(m) && Congruent(last, total, m) && Congruent(u, Pow(last, m - 2), m)
    ensures if Zero(total, m) then Zero(u, m) else Congruent(u * total, 1, m)
  {
    PowCongruent(last, total, m - 2, m);
    assert FermatAt(total, m);
    InverseLaw(total, u, m);
  }

  /** The product of the first n values. */
  ghost function Prod(a: seq<nat>, n: nat): (r: nat)
    requires n <= |a|
  {
    if n == 0 then 1 else Prod(a, n - 1) * a[n - 1]
  }

  lemma {:induction false} ProdZero(a: seq<nat>, n: nat, m: nat)
    requires m > 2 && n <= |a| && Fermat(m)
    ensures Zero(Prod(a, n), m) <==> exists i :: 0 <= i < n && Zero(a[i], m)
  {
    if n == 0 {
      CongruentOne(m);
    } else {
      ProdZero(a, n - 1, m);
      assert FermatAt(Prod(a, n - 1), m);
      NoZeroDivisors(Prod(a, n - 1), a[n - 1], m);
    }
  }

  lemma CongruentOne(m: nat)
    requires m > 1
    ensures !Zero(1, m)
  {
    DivModUnique(1, m, 0, 1);
    DivModUnique(0, m, 0, 0);
  }
}
