/**
 Field elements modulo p = 2^256 - 0x1000003D1 in five limbs of 52 bits, held in 64-bit words
 that may carry excess bits.
 */
module Field5x52 {
  import opened Arith
  import opened Bitwise

  const P: nat := 0xFFFFFFFF_FFFFFFFF_FFFFFFFF_FFFFFFFF_FFFFFFFF_FFFFFFFF_FFFFFFFE_FFFFFC2F
  const TWO64: nat := 0x1_0000_0000_0000_0000
  const TWO52: nat := 0x10_0000_0000_0000
  const TWO48: nat := 0x1_0000_0000_0000
  const TWO104: nat := 0x100000000000000000000000000
  const TWO156: nat := 0x1000000000000000000000000000000000000000
  const TWO256: nat := 0x10000000000000000000000000000000000000000000000000000000000000000
  /** 2^256 mod p */
  const FOLD: nat := 0x1_0000_03D1
  const P0: nat := 0xF_FFFE_FFFF_FC2F

  type u64 = x: nat | x < TWO64

  function Wrap(x: nat): (r: u64) { x % TWO64 }

  function Val5(t0: int, t1: int, t2: int, t3: int, t4: int): (v: int)
  {
    t0 + 0x10_0000_0000_0000 * t1 + 0x100000000000000000000000000 * t2
    + 0x1000000000000000000000000000000000000000 * t3 + 0x10000000000000000000000000000000000000000000000000000 * t4
  }

  type Limbs = n: seq<u64> | |n| == 5 witness [0, 0, 0, 0, 0]

  function Val(n: Limbs): (v: nat) { Val5(n[0], n[1], n[2], n[3], n[4]) }

  /** The invariant of the source's debug checks: magnitude m bounds every limb. */
  ghost predicate Magnitude(n: Limbs, m: nat)
  {
    && n[0] <= 0x1F_FFFF_FFFF_FFFE * m && n[1] <= 0x1F_FFFF_FFFF_FFFE * m && n[2] <= 0x1F_FFFF_FFFF_FFFE * m
    && n[3] <= 0x1F_FFFF_FFFF_FFFE * m && n[4] <= 0x1_FFFF_FFFF_FFFE * m
  }

  /** The unique form of a field element: 52- and 48-bit limbs and a value below p. */
  ghost predicate Canonical(n: Limbs)
  {
    n[0] < TWO52 && n[1] < TWO52 && n[2] < TWO52 && n[3] < TWO52 && n[4] < TWO48 && Val(n) < P
  }

  lemma LowLimb(a: int, x: int, b: int, y: int)
    requires 0 <= a < TWO52 && 0 <= b < TWO52 && a + TWO52 * x == b + TWO52 * y
    ensures a == b && x == y
  {
  }

  lemma LimbsUnique(a0: int, a1: int, a2: int, a3: int, a4: int, b0: int, b1: int, b2: int, b3: int, b4: int)
    requires 0 <= a0 < TWO52 && 0 <= a1 < TWO52 && 0 <= a2 < TWO52 && 0 <= a3 < TWO52
    requires 0 <= b0 < TWO52 && 0 <= b1 < TWO52 && 0 <= b2 < TWO52 && 0 <= b3 < TWO52
    requires Val5(a0, a1, a2, a3, a4) == Val5(b0, b1, b2, b3, b4)
    ensures a0 == b0 && a1 == b1 && a2 == b2 && a3 == b3 && a4 == b4
  {
    LowLimb(a0, a1 + TWO52 * (a2 + TWO52 * (a3 + TWO52 * a4)), b0, b1 + TWO52 * (b2 + TWO52 * (b3 + TWO52 * b4)));
    LowLimb(a1, a2 + TWO52 * (a3 + TWO52 * a4), b1, b2 + TWO52 * (b3 + TWO52 * b4));
    LowLimb(a2, a3 + TWO52 * a4, b2, b3 + TWO52 * b4);
    LowLimb(a3, a4, b3, b4);
  }

  /** Canonical limbs are determined by their value. */
  lemma CanonicalUnique(m: Limbs, n: Limbs)
    requires Canonical(m) && Canonical(n) && Congruent(Val(m), Val(n), P)
    ensures m == n
  {
    DivModUnique(Val(m), P, 0, Val(m));
    DivModUnique(Val(n), P, 0, Val(n));
    LimbsUnique(m[0], m[1], m[2], m[3], m[4], n[0], n[1], n[2], n[3], n[4]);
  }

  // The sums of the first carry pass before they are cut to 64 bits.
  function Sum0(n: Limbs): (r: nat) { n[0] + (n[4] / TWO48) * FOLD }
  function Sum1(n: Limbs): (r: nat) { n[1] + Wrap(Sum0(n)) / TWO52 }
  function Sum2(n: Limbs): (r: nat) { n[2] + Wrap(Sum1(n)) / TWO52 }
  function Sum3(n: Limbs): (r: nat) { n[3] + Wrap(Sum2(n)) / TWO52 }

  /** No sum of the first carry pass overflows its 64-bit word. */
  predicate NoWrap(n: Limbs)
  {
    Sum0(n) < TWO64 && Sum1(n) < TWO64 && Sum2(n) < TWO64 && Sum3(n) < TWO64
  }

  /** The value of the bits that the first carry pass drops. */
  function Lost(n: Limbs): (r: nat)
  {
    TWO64 * (Sum0(n) / TWO64 + TWO52 * (Sum1(n) / TWO64) + TWO104 * (Sum2(n) / TWO64) + TWO156 * (Sum3(n) / TWO64))
  }

  function Kept(n: Limbs): (r: int) { Val(n) - Lost(n) }

  /** Below magnitude 2048 nothing is dropped. */
  lemma MagnitudeNoWrap(n: Limbs, m: nat)
    requires m <= 2047 && Magnitude(n, m)
    ensures NoWrap(n)
  {
  }

  /** At magnitude 2048, which the source's debug checks still admit, the pass can drop a bit. */
  lemma Magnitude2048Wraps()
    ensures exists n: Limbs :: Magnitude(n, 2048) && !NoWrap(n)
  {
    var n: Limbs := [4096 * (TWO52 - 1), 0, 0, 0, 4096 * (TWO48 - 1)];
    assert Magnitude(n, 2048) && Sum0(n) >= TWO64;
  }

  lemma OverflowBit(s: nat)
    requires s < 2 * TWO64
    ensures 0 <= s / TWO64 <= 1 && (s / TWO64 == 0 <==> s < TWO64)
  {
  }

  lemma LostBound(n: Limbs)
    ensures 0 <= Lost(n) < P && (Lost(n) == 0 <==> NoWrap(n))
  {
    OverflowBit(Sum0(n));
    OverflowBit(Sum1(n));
    OverflowBit(Sum2(n));
    OverflowBit(Sum3(n));
    LostSum(Sum0(n) / TWO64, Sum1(n) / TWO64, Sum2(n) / TWO64, Sum3(n) / TWO64);
  }

  lemma LostSum(q0: int, q1: int, q2: int, q3: int)
    requires 0 <= q0 <= 1 && 0 <= q1 <= 1 && 0 <= q2 <= 1 && 0 <= q3 <= 1
    ensures var lost := TWO64 * (q0 + TWO52 * q1 + TWO104 * q2 + TWO156 * q3);
      0 <= lost < P && (lost == 0 <==> q0 == q1 == q2 == q3 == 0)
  {
  }

  /** What the carry pass keeps is congruent to the input exactly when no sum wraps. */
  lemma KeptCongruent(n: Limbs)
    ensures Congruent(Kept(n), Val(n), P) <==> NoWrap(n)
  {
    LostBound(n);
    if Congruent(Kept(n), Val(n), P) {
      var k := CongruentQuotient(Kept(n), Val(n), P);
      if k <= -1 { MulMono(k, -1, P); }
      if k >= 1 { MulMono(1, k, P); }
    }
  }

  /** The carry pass as linear equations: v is the word kept of each sum, q its overflow, h its carry. */
  lemma PassValue(n0: int, n1: int, n2: int, n3: int, n4: int, x: int, r4: int,
                  q0: int, q1: int, q2: int, q3: int, h0: int, h1: int, h2: int, h3: int,
                  t0: int, t1: int, t2: int, t3: int)
    requires n4 == TWO48 * x + r4
    requires n0 + x * FOLD == TWO64 * q0 + TWO52 * h0 + t0
    requires n1 + h0 == TWO64 * q1 + TWO52 * h1 + t1
    requires n2 + h1 == TWO64 * q2 + TWO52 * h2 + t2
    requires n3 + h2 == TWO64 * q3 + TWO52 * h3 + t3
    ensures Val5(t0, t1, t2, t3, r4 + h3)
         == Val5(n0, n1, n2, n3, n4) - TWO64 * (q0 + TWO52 * q1 + TWO104 * q2 + TWO156 * q3) - x * P
  {
  }

  /** The first pass of every normalization: fold the top, then carry upwards. */
  method FirstPass(n: Limbs) returns (t0: u64, t1: u64, t2: u64, t3: u64, t4: u64)
    ensures t0 < TWO52 && t1 < TWO52 && t2 < TWO52 && t3 < TWO52 && t4 < TWO48 + 4096
    ensures t0 == Wrap(Sum0(n)) % TWO52
    ensures Val5(t0, t1, t2, t3, t4) == Kept(n) - (n[4] / TWO48) * P
  {
    t0, t1, t2, t3, t4 := n[0], n[1], n[2], n[3], n[4];
    var x := t4 / TWO48;
    t4 := t4 % TWO48;
    ghost var r4 := t4;
    t0 := Wrap(t0 + x * FOLD);
    t1 := Wrap(t1 + t0 / TWO52);
    t0 := t0 % TWO52;
    t2 := Wrap(t2 + t1 / TWO52);
    t1 := t1 % TWO52;
    t3 := Wrap(t3 + t2 / TWO52);
    t2 := t2 % TWO52;
    t4 := t4 + t3 / TWO52;
    t3 := t3 % TWO52;
    PassValue(n[0], n[1], n[2], n[3], n[4], x, r4,
              Sum0(n) / TWO64, Sum1(n) / TWO64, Sum2(n) / TWO64, Sum3(n) / TWO64,
              Wrap(Sum0(n)) / TWO52, Wrap(Sum1(n)) / TWO52, Wrap(Sum2(n)) / TWO52, Wrap(Sum3(n)) / TWO52,
              t0, t1, t2, t3);
  }

  lemma TwoTo52()
    ensures Pow2(52) == TWO52
  {
    assert Pow2(13) == 2 * 2 * 2 * 2 * 2 * Pow2(8);
    assert Pow2(8) == 2 * 2 * 2 * 2 * Pow2(4);
    Pow2Square(13, 0x2000);
    Pow2Square(26, 0x400_0000);
  }

  /** After the first pass, the limbs read at least p only in the two ways the code tests for. */
  lemma AtLeastP(t0: int, t1: int, t2: int, t3: int, t4: int)
    requires 0 <= t0 < TWO52 && 0 <= t1 < TWO52 && 0 <= t2 < TWO52 && 0 <= t3 < TWO52 && 0 <= t4 < TWO48 + 4096
    ensures Val5(t0, t1, t2, t3, t4) >= P <==>
      t4 >= TWO48 || (t4 == TWO48 - 1 && t1 == TWO52 - 1 && t2 == TWO52 - 1 && t3 == TWO52 - 1 && t0 >= P0)
    ensures 0 <= Val5(t0, t1, t2, t3, t4) < 2 * P
  {
  }

  lemma AllOnes3(a: nat, b: nat, c: nat)
    requires a < TWO52 && b < TWO52 && c < TWO52
    ensures And(And(a, b), c) == TWO52 - 1 <==> a == TWO52 - 1 && b == TWO52 - 1 && c == TWO52 - 1
  {
    TwoTo52();
    AndAllOnes(a, b, 52);
    AndAllOnes(And(a, b), c, 52);
  }

  /** The bit that says whether one more p must come off. */
  method NeedsReduction(t0: u64, t1: u64, t2: u64, t3: u64, t4: u64) returns (x: u64)
    requires t0 < TWO52 && t1 < TWO52 && t2 < TWO52 && t3 < TWO52 && t4 < TWO48 + 4096
    ensures x == if Val5(t0, t1, t2, t3, t4) >= P then 1 else 0
  {
    AtLeastP(t0, t1, t2, t3, t4);
    AllOnes3(t1, t2, t3);
    var m := And(And(t1, t2), t3);
    x := Or(t4 / TWO48, if t4 == TWO48 - 1 && m == TWO52 - 1 && t0 >= P0 then 1 else 0);
    assert Or(0, 0) == 0 && Or(0, 1) == 1 && Or(1, 0) == 1;
  }

  /** The second pass as linear equations. */
  lemma SecondPassValue(t0: int, t1: int, t2: int, t3: int, t4: int, x: int, h0: int, h1: int, h2: int, h3: int,
                        r0: int, r1: int, r2: int, r3: int, r4: int, top: int)
    requires t0 + x * FOLD == TWO52 * h0 + r0 && t1 + h0 == TWO52 * h1 + r1 && t2 + h1 == TWO52 * h2 + r2
    requires t3 + h2 == TWO52 * h3 + r3 && t4 + h3 == TWO48 * top + r4
    requires 0 <= r0 < TWO52 && 0 <= r1 < TWO52 && 0 <= r2 < TWO52 && 0 <= r3 < TWO52 && 0 <= r4 < TWO48
    requires x == if Val5(t0, t1, t2, t3, t4) >= P then 1 else 0
    requires 0 <= Val5(t0, t1, t2, t3, t4) < 2 * P
    ensures top == x && Val5(r0, r1, r2, r3, r4) == Val5(t0, t1, t2, t3, t4) - x * P
  {
    assert Val5(r0, r1, r2, r3, r4) + TWO256 * top == Val5(t0, t1, t2, t3, t4) + x * FOLD;
    ValueRange(r0, r1, r2, r3, r4);
    TopBit(Val5(t0, t1, t2, t3, t4), Val5(r0, r1, r2, r3, r4), x, top);
  }

  lemma ValueRange(r0: int, r1: int, r2: int, r3: int, r4: int)
    requires 0 <= r0 < TWO52 && 0 <= r1 < TWO52 && 0 <= r2 < TWO52 && 0 <= r3 < TWO52 && 0 <= r4 < TWO48
    ensures 0 <= Val5(r0, r1, r2, r3, r4) < TWO256
  {
  }

  lemma TopBit(v: int, r: int, x: int, top: int)
    requires 0 <= v < 2 * P && 0 <= r < TWO256 && r + TWO256 * top == v + x * FOLD
    requires x == if v >= P then 1 else 0
    ensures top == x
  {
  }

  method SecondPass(t0: u64, t1: u64, t2: u64, t3: u64, t4: u64, x: u64) returns (r: Limbs)
    requires t0 < TWO52 && t1 < TWO52 && t2 < TWO52 && t3 < TWO52 && t4 < TWO48 + 4096
    requires x == if Val5(t0, t1, t2, t3, t4) >= P then 1 else 0
    ensures Canonical(r) && Val(r) == Val5(t0, t1, t2, t3, t4) - x * P
  {
    var s0: u64 := t0 + x * FOLD;
    var s1: u64 := t1 + s0 / TWO52;
    var s2: u64 := t2 + s1 / TWO52;
    var s3: u64 := t3 + s2 / TWO52;
    var s4: u64 := t4 + s3 / TWO52;
    AtLeastP(t0, t1, t2, t3, t4);
    SecondPassValue(t0, t1, t2, t3, t4, x, s0 / TWO52, s1 / TWO52, s2 / TWO52, s3 / TWO52,
                    s0 % TWO52, s1 % TWO52, s2 % TWO52, s3 % TWO52, s4 % TWO48, s4 / TWO48);
    r := [s0 % TWO52, s1 % TWO52, s2 % TWO52, s3 % TWO52, s4 % TWO48];
  }

  /** The value of a canonical result pins it to the kept value modulo p. */
  lemma CanonicalMod(v: int, kept: int, x: int, y: int)
    requires 0 <= v < P && v == kept - y * P - x * P
    ensures v == kept % P
  {
    DivModUnique(kept, P, x + y, v);
  }

  method Normalize(r: array<u64>)
    requires r.Length == 5
    modifies r
    ensures Canonical(r[..]) && Val(r[..]) == Kept(old(r[..])) % P
  {
    ghost var n := r[..];
    var t0, t1, t2, t3, t4 := FirstPass(r[..]);
    var x := NeedsReduction(t0, t1, t2, t3, t4);
    var res := SecondPass(t0, t1, t2, t3, t4, x);
    assert Val(res) == Kept(n) - (n[4] / TWO48) * P - x * P;
    CanonicalMod(Val(res), Kept(n), x, n[4] / TWO48);
    Store(r, res);
  }

  method Store(r: array<u64>, n: Limbs)
    requires r.Length == 5
    modifies r
    ensures r[..] == n
  {
    r[0], r[1], r[2], r[3], r[4] := n[0], n[1], n[2], n[3], n[4];
  }

  /** The same result without the work of a reduction that is not needed. */
  method NormalizeVar(r: array<u64>)
    requires r.Length == 5
    modifies r
    ensures Canonical(r[..]) && Val(r[..]) == Kept(old(r[..])) % P
  {
    ghost var n := r[..];
    var t0, t1, t2, t3, t4 := FirstPass(r[..]);
    var x := NeedsReduction(t0, t1, t2, t3, t4);
    var res: Limbs := [t0, t1, t2, t3, t4];
    AtLeastP(t0, t1, t2, t3, t4);
    if x != 0 {
      res := SecondPass(t0, t1, t2, t3, t4, x);
    }
    CanonicalMod(Val(res), Kept(n), x, n[4] / TWO48);
    Store(r, res);
  }

  method NormalizeWeak(r: array<u64>)
    requires r.Length == 5
    modifies r
    ensures Magnitude(r[..], 1) && Congruent(Val(r[..]), Kept(old(r[..])), P)
  {
    ghost var n := r[..];
    var t0, t1, t2, t3, t4 := FirstPass(r[..]);
    CongruentByMultiple(Val5(t0, t1, t2, t3, t4), Kept(n), -(n[4] / TWO48 as int), P);
    Store(r, [t0, t1, t2, t3, t4]);
  }

  lemma ZeroValue(t0: nat, t1: nat, t2: nat, t3: nat, t4: nat)
    ensures Val5(t0, t1, t2, t3, t4) == 0 <==> t0 == 0 && t1 == 0 && t2 == 0 && t3 == 0 && t4 == 0
  {
  }

  /** z0, the union of the limbs' bits, is 0 exactly for the value 0. */
  lemma UnionTest(t0: nat, t1: nat, t2: nat, t3: nat, t4: nat)
    ensures Or(Or(Or(Or(t0, t1), t2), t3), t4) == 0 <==> Val5(t0, t1, t2, t3, t4) == 0
  {
    OrZero(t0, t1);
    OrZero(Or(t0, t1), t2);
    OrZero(Or(Or(t0, t1), t2), t3);
    OrZero(Or(Or(Or(t0, t1), t2), t3), t4);
    ZeroValue(t0, t1, t2, t3, t4);
  }

  lemma PValue(t0: int, t1: int, t2: int, t3: int, t4: int)
    requires 0 <= t0 < TWO52 && 0 <= t1 < TWO52 && 0 <= t2 < TWO52 && 0 <= t3 < TWO52
    ensures Val5(t0, t1, t2, t3, t4) == P <==>
      t0 == P0 && t1 == TWO52 - 1 && t2 == TWO52 - 1 && t3 == TWO52 - 1 && t4 == TWO48 - 1
  {
    assert Val5(P0, TWO52 - 1, TWO52 - 1, TWO52 - 1, TWO48 - 1) == P;
    if Val5(t0, t1, t2, t3, t4) == P {
      LimbsUnique(t0, t1, t2, t3, t4, P0, TWO52 - 1, TWO52 - 1, TWO52 - 1, TWO48 - 1);
    }
  }

  lemma AllOnes5(a: nat, b: nat, c: nat, d: nat, e: nat)
    requires a < TWO52 && b < TWO52 && c < TWO52 && d < TWO52 && e < TWO52
    ensures And(And(And(And(a, b), c), d), e) == TWO52 - 1 <==>
      a == TWO52 - 1 && b == TWO52 - 1 && c == TWO52 - 1 && d == TWO52 - 1 && e == TWO52 - 1
  {
    AllOnes3(a, b, c);
    AndBound(And(a, b), c);
    AndBound(a, b);
    AllOnes3(And(And(a, b), c), d, e);
  }

  lemma FlipTest(t: nat, c: nat)
    requires t < TWO52 && c < TWO52
    ensures Xor(t, c) < TWO52 && (Xor(t, c) == TWO52 - 1 <==> t == TWO52 - 1 - c)
  {
    TwoTo52();
    XorAllOnes(t, c, 52);
  }

  /** z1, the common bits of the limbs flipped where p has zeros, is all ones exactly for the value p. */
  lemma CommonTest(t0: nat, t1: nat, t2: nat, t3: nat, t4: nat)
    requires t0 < TWO52 && t1 < TWO52 && t2 < TWO52 && t3 < TWO52 && t4 < TWO52
    ensures And(And(And(And(Xor(t0, FOLD - 1), t1), t2), t3), Xor(t4, 0xF000000000000)) == TWO52 - 1
       <==> Val5(t0, t1, t2, t3, t4) == P
  {
    FlipTest(t0, FOLD - 1);
    FlipTest(t4, 0xF000000000000);
    AllOnes5(Xor(t0, FOLD - 1), t1, t2, t3, Xor(t4, 0xF000000000000));
    PValue(t0, t1, t2, t3, t4);
  }

  /** Between 0 and 2p, the multiples of p are 0 and p. */
  lemma MultipleBelow2P(v: int, kept: int, k: int)
    requires 0 <= v < 2 * P && v == kept - k * P
    ensures kept % P == 0 <==> v == 0 || v == P
  {
    if v < P { DivModUnique(kept, P, k, v); } else { DivModUnique(kept, P, k + 1, v - P); }
  }

  method NormalizesToZero(n: Limbs) returns (zero: bool)
    ensures zero <==> Kept(n) % P == 0
  {
    var t0, t1, t2, t3, t4 := FirstPass(n);
    var z0 := Or(Or(Or(Or(t0, t1), t2), t3), t4);
    var z1 := And(And(And(And(Xor(t0, FOLD - 1), t1), t2), t3), Xor(t4, 0xF000000000000));
    UnionTest(t0, t1, t2, t3, t4);
    CommonTest(t0, t1, t2, t3, t4);
    AtLeastP(t0, t1, t2, t3, t4);
    MultipleBelow2P(Val5(t0, t1, t2, t3, t4), Kept(n), n[4] / TWO48);
    zero := z0 == 0 || z1 == TWO52 - 1;
  }

  /** A lowest limb that is neither that of 0 nor that of p already decides. */
  lemma EarlyExit(t0: nat, t1: nat, t2: nat, t3: nat, t4: nat)
    requires t0 < TWO52 && t1 < TWO52 && t2 < TWO52 && t3 < TWO52
    requires t0 != 0 && Xor(t0, FOLD - 1) != TWO52 - 1
    ensures Val5(t0, t1, t2, t3, t4) != 0 && Val5(t0, t1, t2, t3, t4) != P
  {
    FlipTest(t0, FOLD - 1);
    PValue(t0, t1, t2, t3, t4);
    ZeroValue(t0, t1, t2, t3, t4);
  }

  /** The form with a fast return path: most elements are told from zero by their lowest limb. */
  method NormalizesToZeroVar(n: Limbs) returns (zero: bool)
    ensures zero <==> Kept(n) % P == 0
  {
    var x := n[4] / TWO48;
    var s0 := Wrap(n[0] + x * FOLD);
    var z0 := s0 % TWO52;
    var z1 := Xor(z0, FOLD - 1);
    var t0, t1, t2, t3, t4 := FirstPass(n);
    AtLeastP(t0, t1, t2, t3, t4);
    MultipleBelow2P(Val5(t0, t1, t2, t3, t4), Kept(n), x);
    if z0 != 0 && z1 != TWO52 - 1 {
      EarlyExit(t0, t1, t2, t3, t4);
      return false;
    }
    UnionTest(t0, t1, t2, t3, t4);
    CommonTest(t0, t1, t2, t3, t4);
    z0 := Or(Or(Or(Or(z0, t1), t2), t3), t4);
    z1 := And(And(And(And(z1, t1), t2), t3), Xor(t4, 0xF000000000000));
    zero := z0 == 0 || z1 == TWO52 - 1;
  }

  /** A multiple of p minus a, limb by limb without borrowing. */
  method Negate(a: Limbs, m: nat) returns (r: Limbs)
    requires m <= 2047 && Magnitude(a, m)
    ensures Magnitude(r, m + 1) && Val(r) == 2 * (m + 1) * P - Val(a)
  {
    var k := 2 * (m + 1);
    r := [P0 * k - a[0], (TWO52 - 1) * k - a[1], (TWO52 - 1) * k - a[2], (TWO52 - 1) * k - a[3],
          (TWO48 - 1) * k - a[4]];
  }

  method Add(r: Limbs, a: Limbs, ghost m: nat, ghost k: nat) returns (s: Limbs)
    requires m + k <= 2048 && Magnitude(r, m) && Magnitude(a, k)
    ensures Magnitude(s, m + k) && Val(s) == Val(r) + Val(a)
  {
    s := [r[0] + a[0], r[1] + a[1], r[2] + a[2], r[3] + a[3], r[4] + a[4]];
  }

  /** Decides congruence modulo p; the second argument may carry any magnitude that leaves room. */
  method Equal(a: Limbs, b: Limbs, ghost m: nat) returns (eq: bool)
    requires Magnitude(a, 1) && Magnitude(b, m) && m <= 2045
    ensures eq <==> Congruent(Val(a), Val(b), P)
  {
    var na := Negate(a, 1);
    var d := Add(na, b, 2, m);
    KeptExact(d, m + 2);
    DifferenceZero(Kept(d), Val(a), Val(b), 4);
    eq := NormalizesToZero(d);
  }

  lemma KeptExact(n: Limbs, m: nat)
    requires m <= 2047 && Magnitude(n, m)
    ensures Kept(n) == Val(n)
  {
    MagnitudeNoWrap(n, m);
    LostBound(n);
  }

  lemma DifferenceZero(d: int, a: int, b: int, k: int)
    requires d == k * P - a + b
    ensures d % P == 0 <==> Congruent(a, b, P)
  {
    ModShift(b - a, k, P);
    if (b - a) % P == 0 {
      DivModEq(b - a, P);
      CongruentByMultiple(b, a, (b - a) / P, P);
    }
    if Congruent(a, b, P) {
      var q := CongruentQuotient(b, a, P);
      DivModUnique(b - a, P, q, 0);
    }
  }

  /** Compares canonical elements from the top limb down. */
  method CompareVar(a: Limbs, b: Limbs) returns (c: int)
    requires Canonical(a) && Canonical(b)
    ensures (c == 1 <==> Val(a) > Val(b)) && (c == -1 <==> Val(a) < Val(b)) && (c == 0 <==> a == b)
  {
    for i := 5 downto 0
      invariant a[i..] == b[i..]
    {
      assert a[i..] == [a[i]] + a[i + 1..] && b[i..] == [b[i]] + b[i + 1..];
      if a[i] > b[i] { TopDecides(b, a, i); return 1; }
      if a[i] < b[i] { TopDecides(a, b, i); return -1; }
    }
    return 0;
  }

  lemma TopDecides(a: Limbs, b: Limbs, i: nat)
    requires Canonical(a) && Canonical(b) && i < 5 && a[i + 1..] == b[i + 1..] && a[i] < b[i]
    ensures Val(a) < Val(b) && a != b
  {
    assert forall j :: i < j < 5 ==> a[j] == a[i + 1..][j - i - 1] && b[j] == b[i + 1..][j - i - 1];
  }
}
