/**
 Points as elements of an arbitrary abelian group.  The group is a record of operations whose
 laws are hypotheses (`Abelian`), so every theorem about scalar multiplication below holds of
 any group, the secp256k1 curve among them.
 */
module Groups {
  import opened Arith

  datatype Group<!P> = Group(zero: P, add: (P, P) -> P, neg: P -> P)

  // Each law has a name, so that a proof instantiates it by mentioning it and not by search.
  ghost predicate Associative<P>(g: Group<P>, x: P, y: P, z: P) {
    g.add(g.add(x, y), z) == g.add(x, g.add(y, z))
  }
  ghost predicate Commutative<P>(g: Group<P>, x: P, y: P) { g.add(x, y) == g.add(y, x) }
  ghost predicate UnitLaw<P>(g: Group<P>, x: P) { g.add(x, g.zero) == x }
  ghost predicate InverseLaw<P>(g: Group<P>, x: P) { g.add(x, g.neg(x)) == g.zero }

  ghost predicate Abelian<P(!new)>(g: Group<P>) {
    && (forall x, y, z :: Associative(g, x, y, z))
    && (forall x, y :: Commutative(g, x, y))
    && (forall x :: UnitLaw(g, x))
    && (forall x :: InverseLaw(g, x))
  }

  /** The integer multiple k*p. */
  function Smul<P>(g: Group<P>, k: int, p: P): (r: P)
    decreases if k < 0 then 1 - k else k
  {
    if k == 0 then g.zero
    else if k > 0 then g.add(Smul(g, k - 1, p), p)
    else g.neg(Smul(g, -k, p))
  }

  lemma Interchange<P(!new)>(g: Group<P>, a: P, b: P, c: P, d: P)
    requires Abelian(g)
    ensures g.add(g.add(a, b), g.add(c, d)) == g.add(g.add(a, c), g.add(b, d))
  {
    assert Associative(g, g.add(a, b), c, d);
    assert Associative(g, a, b, c);
    assert Commutative(g, b, c);
    assert Associative(g, a, c, b);
    assert Associative(g, g.add(a, c), b, d);
  }

  lemma ZeroLeft<P(!new)>(g: Group<P>, x: P)
    requires Abelian(g)
    ensures g.add(g.zero, x) == x && g.add(x, g.zero) == x
  {
    assert Commutative(g, g.zero, x) && UnitLaw(g, x);
  }

  lemma NegUnique<P(!new)>(g: Group<P>, x: P, y: P)
    requires Abelian(g) && g.add(x, y) == g.zero
    ensures y == g.neg(x)
  {
    var n := g.neg(x);
    assert InverseLaw(g, x) && Commutative(g, n, x);
    assert Associative(g, n, x, y);
    ZeroLeft(g, y);
    assert UnitLaw(g, n);
  }

  lemma NegZero<P(!new)>(g: Group<P>)
    requires Abelian(g)
    ensures g.neg(g.zero) == g.zero
  {
    ZeroLeft(g, g.zero);
    NegUnique(g, g.zero, g.zero);
  }

  lemma NegNeg<P(!new)>(g: Group<P>, x: P)
    requires Abelian(g)
    ensures g.neg(g.neg(x)) == x
  {
    assert InverseLaw(g, x) && Commutative(g, g.neg(x), x);
    NegUnique(g, g.neg(x), x);
  }

  /** (x - p) + p == x. */
  lemma SubAdd<P(!new)>(g: Group<P>, x: P, p: P)
    requires Abelian(g)
    ensures g.add(g.add(x, g.neg(p)), p) == x && g.add(g.add(x, p), g.neg(p)) == x
  {
    assert Associative(g, x, g.neg(p), p) && Associative(g, x, p, g.neg(p));
    assert InverseLaw(g, p) && Commutative(g, g.neg(p), p) && UnitLaw(g, x);
  }

  lemma NegAdd<P(!new)>(g: Group<P>, x: P, y: P)
    requires Abelian(g)
    ensures g.neg(g.add(x, y)) == g.add(g.neg(x), g.neg(y))
  {
    Interchange(g, x, y, g.neg(x), g.neg(y));
    assert InverseLaw(g, x) && InverseLaw(g, y) && UnitLaw(g, g.zero);
    NegUnique(g, g.add(x, y), g.add(g.neg(x), g.neg(y)));
  }

  lemma SmulSucc<P(!new)>(g: Group<P>, k: int, p: P)
    requires Abelian(g)
    ensures Smul(g, k + 1, p) == g.add(Smul(g, k, p), p)
  {
    if k < 0 {
      var m := -k - 1;
      assert Smul(g, k, p) == g.neg(Smul(g, m + 1, p));
      NegAdd(g, Smul(g, m, p), p);
      SubAdd(g, g.neg(Smul(g, m, p)), p);
      if m == 0 { NegZero(g); }
    }
  }

  lemma {:induction false} SmulAdd<P(!new)>(g: Group<P>, a: int, b: int, p: P)
    requires Abelian(g)
    ensures Smul(g, a + b, p) == g.add(Smul(g, a, p), Smul(g, b, p))
    decreases if b < 0 then -b else b
  {
    if b == 0 {
      assert UnitLaw(g, Smul(g, a, p));
    } else if b > 0 {
      SmulAdd(g, a, b - 1, p);
      SmulSucc(g, a + b - 1, p);
      assert Associative(g, Smul(g, a, p), Smul(g, b - 1, p), p);
    } else {
      SmulAdd(g, a, b + 1, p);
      SmulSucc(g, a + b, p);
      SmulSucc(g, b, p);
      SubAdd(g, Smul(g, a + b, p), p);
      SubAdd(g, Smul(g, b, p), p);
      assert Associative(g, Smul(g, a, p), Smul(g, b + 1, p), g.neg(p));
    }
  }

  lemma SmulNeg<P(!new)>(g: Group<P>, k: int, p: P)
    requires Abelian(g)
    ensures Smul(g, -k, p) == g.neg(Smul(g, k, p))
  {
    SmulAdd(g, k, -k, p);
    NegUnique(g, Smul(g, k, p), Smul(g, -k, p));
  }

  lemma SmulOne<P(!new)>(g: Group<P>, p: P)
    requires Abelian(g)
    ensures Smul(g, 1, p) == p && Smul(g, -1, p) == g.neg(p) && Smul(g, 2, p) == g.add(p, p)
  {
    ZeroLeft(g, p);
    assert Smul(g, 1, p) == g.add(Smul(g, 0, p), p);
    assert Smul(g, 2, p) == g.add(Smul(g, 1, p), p);
    SmulNeg(g, 1, p);
  }

  lemma {:induction false} SmulZero<P(!new)>(g: Group<P>, k: int)
    requires Abelian(g)
    ensures Smul(g, k, g.zero) == g.zero
    decreases if k < 0 then 1 - k else k
  {
    if k > 0 {
      SmulZero(g, k - 1);
      ZeroLeft(g, g.zero);
    } else if k < 0 {
      SmulZero(g, -k);
      NegZero(g);
    }
  }

  lemma {:induction false} SmulDistribute<P(!new)>(g: Group<P>, k: int, p: P, q: P)
    requires Abelian(g)
    ensures Smul(g, k, g.add(p, q)) == g.add(Smul(g, k, p), Smul(g, k, q))
    decreases if k < 0 then 1 - k else k
  {
    if k == 0 {
      ZeroLeft(g, g.zero);
    } else if k > 0 {
      SmulDistribute(g, k - 1, p, q);
      Interchange(g, Smul(g, k - 1, p), Smul(g, k - 1, q), p, q);
    } else {
      SmulDistribute(g, -k, p, q);
      NegAdd(g, Smul(g, -k, p), Smul(g, -k, q));
    }
  }

  lemma {:induction false} SmulMul<P(!new)>(g: Group<P>, a: int, b: int, p: P)
    requires Abelian(g)
    ensures Smul(g, a * b, p) == Smul(g, a, Smul(g, b, p))
    decreases if a < 0 then 1 - a else a
  {
    if a == 0 {
    } else if a > 0 {
      SmulMul(g, a - 1, b, p);
      assert a * b == (a - 1) * b + b;
      SmulAdd(g, (a - 1) * b, b, p);
    } else {
      SmulMul(g, -a, b, p);
      assert (-a) * b == -(a * b);
      SmulNeg(g, a * b, p);
      SmulNeg(g, a, Smul(g, b, p));
      NegNeg(g, Smul(g, a * b, p));
      NegNeg(g, Smul(g, a, Smul(g, b, p)));
    }
  }

  lemma SmulDouble<P(!new)>(g: Group<P>, k: int, p: P)
    requires Abelian(g)
    ensures Smul(g, 2 * k, p) == g.add(Smul(g, k, p), Smul(g, k, p))
  {
    SmulAdd(g, k, k, p);
  }

  /** Every point is killed by n: the group has exponent n, as a group of prime order n does. */
  ghost predicate Exponent<P(!new)>(g: Group<P>, n: nat) {
    forall p :: Killed(g, n, p)
  }

  ghost predicate Killed<P>(g: Group<P>, n: nat, p: P) { Smul(g, n, p) == g.zero }

  /** Scalars only matter modulo the exponent. */
  lemma SmulCongruent<P(!new)>(g: Group<P>, n: nat, a: int, b: int, p: P)
    requires Abelian(g) && Exponent(g, n) && n > 0 && Congruent(a, b, n)
    ensures Smul(g, a, p) == Smul(g, b, p)
  {
    var k := CongruentQuotient(a, b, n);
    SmulMul(g, k, n, p);
    assert Killed(g, n, p);
    SmulZero(g, k);
    SmulAdd(g, b, k * n, p);
    ZeroLeft(g, Smul(g, b, p));
  }

  /** The plain sum of scalar times point that every multiplication algorithm must equal. */
  function Lin<P>(g: Group<P>, cs: seq<int>, ps: seq<P>): (r: P)
    requires |cs| == |ps|
  {
    if cs == [] then g.zero else g.add(Smul(g, cs[0], ps[0]), Lin(g, cs[1..], ps[1..]))
  }

  lemma {:induction false} LinAppend<P(!new)>(g: Group<P>, cs: seq<int>, ps: seq<P>, ds: seq<int>, qs: seq<P>)
    requires Abelian(g) && |cs| == |ps| && |ds| == |qs|
    ensures Lin(g, cs + ds, ps + qs) == g.add(Lin(g, cs, ps), Lin(g, ds, qs))
  {
    if cs == [] {
      assert cs + ds == ds && ps + qs == qs;
      ZeroLeft(g, Lin(g, ds, qs));
    } else {
      assert (cs + ds)[1..] == cs[1..] + ds && (ps + qs)[1..] == ps[1..] + qs;
      LinAppend(g, cs[1..], ps[1..], ds, qs);
      assert Associative(g, Smul(g, cs[0], ps[0]), Lin(g, cs[1..], ps[1..]), Lin(g, ds, qs));
    }
  }

  lemma LinSnoc<P(!new)>(g: Group<P>, cs: seq<int>, ps: seq<P>, c: int, p: P)
    requires Abelian(g) && |cs| == |ps|
    ensures Lin(g, cs + [c], ps + [p]) == g.add(Lin(g, cs, ps), Smul(g, c, p))
  {
    LinAppend(g, cs, ps, [c], [p]);
    LinSingle(g, c, p);
  }

  lemma LinSingle<P(!new)>(g: Group<P>, c: int, p: P)
    requires Abelian(g)
    ensures Lin(g, [c], [p]) == Smul(g, c, p)
  {
    assert [c][1..] == [] && [p][1..] == [];
    ZeroLeft(g, Smul(g, c, p));
  }

  /** Linearity in the scalars: es = k*cs + ds coordinate by coordinate. */
  lemma {:induction false} LinCombine<P(!new)>(g: Group<P>, k: int, cs: seq<int>, ds: seq<int>, es: seq<int>,
                                               ps: seq<P>)
    requires Abelian(g) && |cs| == |ds| == |es| == |ps|
    requires forall i :: 0 <= i < |cs| ==> es[i] == k * cs[i] + ds[i]
    ensures Lin(g, es, ps) == g.add(Smul(g, k, Lin(g, cs, ps)), Lin(g, ds, ps))
  {
    if cs == [] {
      SmulZero(g, k);
      ZeroLeft(g, g.zero);
    } else {
      LinCombine(g, k, cs[1..], ds[1..], es[1..], ps[1..]);
      SmulDistribute(g, k, Smul(g, cs[0], ps[0]), Lin(g, cs[1..], ps[1..]));
      SmulMul(g, k, cs[0], ps[0]);
      SmulAdd(g, k * cs[0], ds[0], ps[0]);
      Interchange(g, Smul(g, k * cs[0], ps[0]), Smul(g, ds[0], ps[0]),
                  Smul(g, k, Lin(g, cs[1..], ps[1..])), Lin(g, ds[1..], ps[1..]));
    }
  }

  lemma {:induction false} LinCongruent<P(!new)>(g: Group<P>, n: nat, cs: seq<int>, ds: seq<int>, ps: seq<P>)
    requires Abelian(g) && Exponent(g, n) && n > 0 && |cs| == |ds| == |ps|
    requires forall i :: 0 <= i < |cs| ==> Congruent(cs[i], ds[i], n)
    ensures Lin(g, cs, ps) == Lin(g, ds, ps)
  {
    if cs != [] {
      SmulCongruent(g, n, cs[0], ds[0], ps[0]);
      LinCongruent(g, n, cs[1..], ds[1..], ps[1..]);
    }
  }

  lemma {:induction false} LinZeros<P(!new)>(g: Group<P>, cs: seq<int>, ps: seq<P>)
    requires Abelian(g) && |cs| == |ps| && forall i :: 0 <= i < |cs| ==> cs[i] == 0
    ensures Lin(g, cs, ps) == g.zero
  {
    if cs != [] {
      LinZeros(g, cs[1..], ps[1..]);
      ZeroLeft(g, g.zero);
    }
  }
}
