/** ECDSA over an abstract curve group (SEC 1, sections 4.1.3 and 4.1.4). */
module Ecdsa {
  import opened Wrappers
  import opened Arith
  import opened Scalars
  import opened Groups
  import opened Strauss
  import opened WnafConst
  import opened EcmultConst
  import opened EcmultGen

  const FIELD: nat := 0xFFFFFFFF_FFFFFFFF_FFFFFFFF_FFFFFFFF_FFFFFFFF_FFFFFFFF_FFFFFFFE_FFFFFC2F
  const P_MINUS_ORDER: nat := 0x1_45512319_50B75FC4_402DA172_2FC9BAEE

  /** The group with the affine x coordinate and the parity of y of its finite points. */
  datatype Curve<!P> = Curve(g: Group<P>, x: P -> nat, odd: P -> bool)

  /** A point and its negative share x, which is a field value, and differ in the parity of y. */
  ghost predicate CoordinatesAt<P>(c: Curve<P>, p: P)
  {
    p != c.g.zero ==> c.x(p) < FIELD && c.x(c.g.neg(p)) == c.x(p) && c.odd(c.g.neg(p)) == !c.odd(p)
  }

  ghost predicate CurveOk<P(!new)>(c: Curve<P>)
  {
    Abelian(c.g) && Exponent(c.g, N) && forall p :: CoordinatesAt(c, p)
  }

  /** t inverts s modulo the group order. */
  ghost predicate Inverse(t: Scalar, s: Scalar)
  {
    Congruent(t * s, 1, N)
  }

  ghost predicate Inverter(inv: Scalar -> Scalar)
  {
    forall s: Scalar :: s != 0 ==> Inverse(inv(s), s)
  }

  /** The point the verifier recomputes. */
  ghost function Recomputed<P>(c: Curve<P>, base: P, inv: Scalar -> Scalar, q: P, m: Scalar, r: Scalar,
                               s: Scalar): (pr: P)
  {
    c.g.add(Smul(c.g, (inv(s) * r) % N, q), Smul(c.g, (inv(s) * m) % N, base))
  }

  /** Signature validity, as the standard states it. */
  ghost predicate Accepted<P>(c: Curve<P>, base: P, inv: Scalar -> Scalar, q: P, m: Scalar, r: Scalar, s: Scalar)
  {
    && r != 0 && s != 0
    && var pr := Recomputed(c, base, inv, q, m, r, s);
       pr != c.g.zero && c.x(pr) % N == r
  }

  /** Since n < p < 2n, the reduced x coordinate is r in one of two ways. */
  lemma TwoCandidates(x: nat, r: Scalar)
    requires x < FIELD
    ensures x % N == r <==> x == r || (r < P_MINUS_ORDER && x == r + N)
    ensures P_MINUS_ORDER == FIELD - N
  {
    if x < N {
      DivModUnique(x, N, 0, x);
    } else {
      DivModUnique(x, N, 1, x - N);
    }
  }

  /** Verification without reducing or inverting the x coordinate. */
  method Verify<P(!new, ==)>(c: Curve<P>, preG: seq<P>, ghost base: P, inv: Scalar -> Scalar,
                             sigr: Scalar, sigs: Scalar, pubkey: P, message: Scalar) returns (valid: bool)
    requires CurveOk(c) && |preG| == TABLE_G && OddTable(c.g, preG, base)
    ensures valid <==> Accepted(c, base, inv, pubkey, message, sigr, sigs)
  {
    if sigr == 0 || sigs == 0 {
      return false;
    }
    var sn := inv(sigs);
    var u1: Scalar := (sn * message) % N;
    var u2: Scalar := (sn * sigr) % N;
    var pr := Ecmult(c.g, preG, base, pubkey, u2, Some(u1));
    if pr == c.g.zero {
      return false;
    }
    assert CoordinatesAt(c, pr);
    valid := MatchesX(sigr, c.x(pr));
  }

  /** The comparison of the claimed r with the x coordinate. */
  method MatchesX(sigr: Scalar, x: nat) returns (valid: bool)
    requires x < FIELD
    ensures valid <==> x % N == sigr
  {
    TwoCandidates(x, sigr);
    var xr: nat := sigr;
    if xr == x {
      return true;
    }
    if xr >= P_MINUS_ORDER {
      return false;
    }
    xr := xr + N;
    valid := xr == x;
  }

  function Flip(negate: bool, v: int): (r: int)
  {
    if negate then -v else v
  }

  /** What signing produces: s times the nonce is the signed sum up to sign, s is low, r and recid describe the
      nonce point. */
  ghost predicate IsSignature<P>(c: Curve<P>, base: P, d: Scalar, m: Scalar, k: Scalar, r: Scalar, s: Scalar,
                                 recid: int, negate: bool)
  {
    var point := Smul(c.g, k, base);
    && r == c.x(point) % N && 0 < s <= HALF
    && Congruent(s * k, Flip(negate, m + r * d), N)
    && recid == (if c.x(point) >= N then 2 else 0) + (if c.odd(point) != negate then 1 else 0)
  }

  /** Flip the lowest bit. */
  function FlipLow(recid: nat): (r: nat)
  {
    if recid % 2 == 0 then recid + 1 else recid - 1
  }

  /** t = k^-1 z satisfies t k = z, and vanishes only with z. */
  lemma Quotient(n: nat, k: int, ki: int, z: int, t: int)
    requires n > 1 && Congruent(ki * k, 1, n) && Congruent(t, ki * z, n)
    ensures Congruent(t * k, z, n) && (Congruent(t, 0, n) <==> Congruent(z, 0, n))
  {
    CongruentMul(t, ki * z, k, k, n);
    assert (ki * z) * k == (ki * k) * z;
    CongruentMul(ki * k, 1, z, z, n);
    if Congruent(z, 0, n) {
      CongruentMul(ki, ki, z, 0, n);
    }
    if Congruent(t, 0, n) {
      CongruentMul(t, 0, k, k, n);
    }
  }

  method Sign<P(!new)>(ctx: GenContext<P>, c: Curve<P>, inv: Scalar -> Scalar, seckey: Scalar, message: Scalar,
                       nonce: Scalar)
    returns (ok: bool, r: Scalar, s: Scalar, recid: nat, ghost negate: bool)
    requires CurveOk(c) && ctx.Valid() && ctx.g == c.g && Inverter(inv) && FullOrder(c.g, ctx.base) && nonce != 0
    ensures r == c.x(Smul(c.g, nonce, ctx.base)) % N && (ok <==> !Congruent(message + r * seckey, 0, N))
    ensures ok ==> IsSignature(c, ctx.base, seckey, message, nonce, r, s, recid, negate)
  {
    var point := ctx.Multiply(nonce);
    assert CoordinatesAt(c, point);
    var x := c.x(point);
    TwoCandidates(x, if x < N then x else x - N);
    var overflow := x >= N;
    r := if overflow then x - N else x;
    recid := (if overflow then 2 else 0) + (if c.odd(point) then 1 else 0);
    s := Respond(inv, seckey, message, nonce, r);
    negate := false;
    if s == 0 {
      return false, r, s, recid, negate;
    }
    if IsHigh(s) {
      NegatedResponse(N, s, Negate(s), nonce, message + r * seckey);
      s := Negate(s);
      recid := FlipLow(recid);
      negate := true;
    }
    ok := true;
  }

  /** s = k^-1 (m + r d). */
  method Respond(inv: Scalar -> Scalar, d: Scalar, m: Scalar, k: Scalar, r: Scalar) returns (s: Scalar)
    requires Inverter(inv) && k != 0
    ensures Congruent(s * k, m + r * d, N) && (s == 0 <==> Congruent(m + r * d, 0, N))
  {
    var n: Scalar := (r * d) % N;
    n := (n + m) % N;
    s := inv(k);
    assert Inverse(inv(k), k);
    ResponseCorrect(N, inv(k), (r * d) % N, m, k, r * d, n, inv(k) * n, (inv(k) * n) % N);
    s := (s * n) % N;
  }

  lemma ResponseCorrect(q: nat, ki: int, d: int, m: int, k: int, rd: int, n: int, kn: int, s: int)
    requires q > 1 && Congruent(ki * k, 1, q) && rd % q == d && n == (d + m) % q && kn == ki * n && s == kn % q
    ensures Congruent(s * k, m + rd, q) && (s == 0 <==> Congruent(m + rd, 0, q))
  {
    CongruentMod(rd, q);
    CongruentMod(d + m, q);
    CongruentAdd(d, rd, m, m, q);
    CongruentMod(kn, q);
    CongruentMul(ki, ki, n, m + rd, q);
    Quotient(q, k, ki, m + rd, s);
    DivModUnique(s, q, 0, s);
    DivModUnique(0, q, 0, 0);
  }

  lemma NegatedResponse(q: nat, s: int, t: int, k: int, z: int)
    requires q > 0 && Congruent(s * k, z, q) && s + t == q
    ensures Congruent(t * k, -z, q)
  {
    var l := CongruentQuotient(s * k, z, q);
    assert t * k == (q - s) * k == k * q - s * k;
    assert (k - l) * q == k * q - l * q;
    CongruentByMultiple(t * k, -z, k - l, q);
  }

  /** The recomputed scalar is the nonce, up to the sign that was chosen. */
  lemma NonceRecovered(n: nat, s: int, k: int, z: int, t: int, negate: bool)
    requires n > 0 && Congruent(s * k, Flip(negate, z), n) && Congruent(t * s, 1, n)
    ensures Congruent(t * z, Flip(negate, k), n)
  {
    CongruentMul(t, t, s * k, Flip(negate, z), n);
    CongruentMul(t * s, 1, k, k, n);
    assert t * (s * k) == (t * s) * k;
    if negate {
      assert t * -z == 0 - t * z;
      CongruentAdd(0, 0, k, t * -z, n);
    }
  }

  lemma RecomputedIs<P(!new)>(c: Curve<P>, base: P, inv: Scalar -> Scalar, d: Scalar, m: Scalar, r: Scalar, s: Scalar)
    requires CurveOk(c)
    ensures Recomputed(c, base, inv, Smul(c.g, d, base), m, r, s) == Smul(c.g, inv(s) * (m + r * d), base)
  {
    var t := inv(s);
    var u1, u2 := (t * m) % N, (t * r) % N;
    SmulMul(c.g, u2, d, base);
    SmulAdd(c.g, u2 * d, u1, base);
    CombinedScalar(N, t, m, r, d);
    SmulCongruent(c.g, N, u2 * d + u1, t * (m + r * d), base);
  }

  lemma CombinedScalar(n: nat, t: int, m: int, r: int, d: int)
    requires n > 0
    ensures Congruent(((t * r) % n) * d + (t * m) % n, t * (m + r * d), n)
  {
    CongruentMod(t * r, n);
    CongruentMod(t * m, n);
    CongruentMul((t * r) % n, t * r, d, d, n);
    CongruentAdd(((t * r) % n) * d, (t * r) * d, (t * m) % n, t * m, n);
    assert t * (m + r * d) == t * m + t * (r * d) && t * (r * d) == (t * r) * d;
  }

  /** The verifier recomputes the nonce point, or its negative when s was negated. */
  lemma RecoveredPoint<P(!new)>(c: Curve<P>, base: P, inv: Scalar -> Scalar, d: Scalar, m: Scalar, k: Scalar,
                                r: Scalar, s: Scalar, z: int, negate: bool)
    requires CurveOk(c) && Inverter(inv) && s != 0 && z == m + r * d && Congruent(s * k, Flip(negate, z), N)
    ensures var point := Smul(c.g, k, base);
            Recomputed(c, base, inv, Smul(c.g, d, base), m, r, s) == if negate then c.g.neg(point) else point
  {
    RecomputedIs(c, base, inv, d, m, r, s);
    assert Inverse(inv(s), s);
    NonceRecovered(N, s, k, z, inv(s), negate);
    SmulCongruent(c.g, N, inv(s) * z, Flip(negate, k), base);
    if negate {
      SmulNeg(c.g, k, base);
    }
  }

  /** recid tells the parity of y and the overflow of x of the point and of its negative alike. */
  lemma PointDescribed<P(!new)>(c: Curve<P>, point: P, pr: P, recid: int, negate: bool)
    requires CurveOk(c) && point != c.g.zero && pr == if negate then c.g.neg(point) else point
    requires recid == (if c.x(point) >= N then 2 else 0) + (if c.odd(point) != negate then 1 else 0)
    ensures pr != c.g.zero && c.x(pr) == c.x(point) && (recid % 2 == 1 <==> c.odd(pr)) && (recid >= 2 <==> c.x(pr) >= N)
  {
    assert CoordinatesAt(c, point);
    if negate {
      NegNeg(c.g, point);
      NegZero(c.g);
    }
  }

  /** Correctness: a signature made with the secret key is accepted under the public key exactly when r is not zero;
      and recid tells the parity of y and the overflow of x of the point the verifier recomputes. */
  lemma SignedIsAccepted<P(!new)>(c: Curve<P>, base: P, inv: Scalar -> Scalar, d: Scalar, m: Scalar, k: Scalar,
                                  r: Scalar, s: Scalar, recid: int, negate: bool)
    requires CurveOk(c) && Inverter(inv) && FullOrder(c.g, base) && k != 0
    requires IsSignature(c, base, d, m, k, r, s, recid, negate)
    ensures Accepted(c, base, inv, Smul(c.g, d, base), m, r, s) <==> r != 0
    ensures var pr := Recomputed(c, base, inv, Smul(c.g, d, base), m, r, s);
            pr != c.g.zero && (recid % 2 == 1 <==> c.odd(pr)) && (recid >= 2 <==> c.x(pr) >= N)
  {
    var point := Smul(c.g, k, base);
    RecoveredPoint(c, base, inv, d, m, k, r, s, m + r * d, negate);
    PointDescribed(c, point, Recomputed(c, base, inv, Smul(c.g, d, base), m, r, s), recid, negate);
  }
}
