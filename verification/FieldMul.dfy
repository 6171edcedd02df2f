/**
 Multiplication and squaring of field elements as the x86-64 code does them: 64-bit registers,
 128-bit accumulators that could overflow, and shifts that keep only the low register.
 */
module FieldMul {
  import opened Arith
  import opened Bits
  import opened Field5x52

  const TWO128: nat := 0x1_0000_0000_0000_0000_0000_0000_0000_0000

  type u128 = x: nat | x < TWO128

  /** The nine columns of a schoolbook product. */
  datatype Columns = Columns(c0: nat, c1: nat, c2: nat, c3: nat, c4: nat, c5: nat, c6: nat, c7: nat, c8: nat)

  ghost function ProductColumns(a: Limbs, b: Limbs): (c: Columns)
  {
    Columns(
      Times(a[0], b[0]),
      Times(a[1], b[0]) + Times(a[0], b[1]),
      Times(a[2], b[0]) + Times(a[1], b[1]) + Times(a[0], b[2]),
      Times(a[3], b[0]) + Times(a[2], b[1]) + Times(a[1], b[2]) + Times(a[0], b[3]),
      Times(a[4], b[0]) + Times(a[3], b[1]) + Times(a[2], b[2]) + Times(a[1], b[3]) + Times(a[0], b[4]),
      Times(a[4], b[1]) + Times(a[3], b[2]) + Times(a[2], b[3]) + Times(a[1], b[4]),
      Times(a[4], b[2]) + Times(a[3], b[3]) + Times(a[2], b[4]),
      Times(a[4], b[3]) + Times(a[3], b[4]),
      Times(a[4], b[4]))
  }

  function Lo(x: nat): (r: nat) { x % 0x10000000000000 }
  function Hi(x: nat): (r: nat) { x / 0x10000000000000 }

  // The reduction, stage by stage: 0x1000003D10 is 2^260 mod p, and 0x1000003D1 is 2^256 mod p.
  ghost function D3(c: Columns): (r: nat) { c.c3 + 0x1000003D10 * Lo(c.c8) }
  ghost function D4(c: Columns): (r: nat) { Hi(D3(c)) + c.c4 + 0x1000003D10 * Hi(c.c8) }
  ghost function D5(c: Columns): (r: nat) { Hi(D4(c)) + c.c5 }
  ghost function U0(c: Columns): (r: nat) { 16 * Lo(D5(c)) + Lo(D4(c)) / 0x1000000000000 }
  ghost function C0(c: Columns): (r: nat) { c.c0 + 0x1000003D1 * U0(c) }
  ghost function D6(c: Columns): (r: nat) { Hi(D5(c)) + c.c6 }
  ghost function C1(c: Columns): (r: nat) { Hi(C0(c)) + c.c1 + 0x1000003D10 * Lo(D6(c)) }
  ghost function D7(c: Columns): (r: nat) { Hi(D6(c)) + c.c7 }
  ghost function C2(c: Columns): (r: nat) { Hi(C1(c)) + c.c2 + 0x1000003D10 * Lo(D7(c)) }
  ghost function C3(c: Columns): (r: nat) { Hi(C2(c)) + Lo(D3(c)) + 0x1000003D10 * Hi(D7(c)) }
  ghost function Top(c: Columns): (r: nat) { Hi(C3(c)) + Lo(D4(c)) % 0x1000000000000 }

  /** The limbs of the product: both the multiplication and the squaring compute these. */
  ghost function Reduced(c: Columns): (r: seq<nat>)
  {
    [Lo(C0(c)), Lo(C1(c)), Lo(C2(c)), Lo(C3(c)), Top(c)]
  }

  /** What magnitude 8 on both sides gives. */
  ghost predicate Bounded(c: Columns)
  {
    && c.c0 < 0x10000000000000000000000000000
    && c.c1 < 0x20000000000000000000000000000
    && c.c2 < 0x30000000000000000000000000000
    && c.c3 < 0x40000000000000000000000000000
    && c.c4 < 0x40000000000000000000000000000
    && c.c5 < 0x40000000000000000000000000000
    && c.c6 < 0x20000000000000000000000000000
    && c.c7 < 0x2000000000000000000000000000
    && c.c8 < 0x100000000000000000000000000
  }

  /** Under the bounds every accumulator fits 114 bits or so, and every shifted one fits a register. */
  lemma StageBounds(c: Columns)
    requires Bounded(c)
    ensures D3(c) < 0x50000000000000000000000000000 && D4(c) < 0x50000000000000000000000000000
    ensures D5(c) < 0x50000000000000000000000000000 && U0(c) < 0x100000000000000
    ensures C0(c) < 0x20000000000000000000000000000 && D6(c) < 0x30000000000000000000000000000
    ensures C1(c) < 0x30000000000000000000000000000 && D7(c) < 0x3000000000000000000000000000
    ensures C2(c) < 0x40000000000000000000000000000 && Hi(D7(c)) < 0x400000000000000
    ensures C3(c) < 0x100000000000000000000000000 && Top(c) <= 0x1FFFFFFFFFFFE
  {
  }

  ghost function Val9(c0: int, c1: int, c2: int, c3: int, c4: int, c5: int, c6: int, c7: int, c8: int): (v: int)
  {
    Val5(c0, c1, c2, c3, c4)
    + 0x100000000000000000000000000000000000000000000000000000000000000000 * (c5 + 0x10000000000000 * c6
      + 0x100000000000000000000000000 * c7 + 0x1000000000000000000000000000000000000000 * c8)
  }

  /** The value of the columns: nine digits in base 2^52. */
  ghost function ColumnValue(c: Columns): (v: int)
  {
    Val9(c.c0, c.c1, c.c2, c.c3, c.c4, c.c5, c.c6, c.c7, c.c8)
  }

  lemma ScaleLimbs(a0: int, a1: int, a2: int, a3: int, a4: int, y: int)
    ensures Val5(a0, a1, a2, a3, a4) * y == Val5(a0 * y, a1 * y, a2 * y, a3 * y, a4 * y)
  {
  }

  lemma ScaleRows(v: int, b0: int, b1: int, b2: int, b3: int, b4: int, r0: int, r1: int, r2: int, r3: int, r4: int)
    requires r0 == v * b0 && r1 == v * b1 && r2 == v * b2 && r3 == v * b3 && r4 == v * b4
    ensures v * Val5(b0, b1, b2, b3, b4) == Val5(r0, r1, r2, r3, r4)
  {
    ScaleLimbs(b0, b1, b2, b3, b4, v);
    assert r0 == b0 * v && r1 == b1 * v && r2 == b2 * v && r3 == b3 * v && r4 == b4 * v;
  }

  /** The rows of the schoolbook product add up to the columns. */
  lemma RowsToColumns(p00: int, p10: int, p20: int, p30: int, p40: int,
                      p01: int, p11: int, p21: int, p31: int, p41: int,
                      p02: int, p12: int, p22: int, p32: int, p42: int,
                      p03: int, p13: int, p23: int, p33: int, p43: int,
                      p04: int, p14: int, p24: int, p34: int, p44: int)
    ensures Val5(Val5(p00, p10, p20, p30, p40), Val5(p01, p11, p21, p31, p41), Val5(p02, p12, p22, p32, p42),
                 Val5(p03, p13, p23, p33, p43), Val5(p04, p14, p24, p34, p44))
         == Val9(p00, p10 + p01, p20 + p11 + p02, p30 + p21 + p12 + p03, p40 + p31 + p22 + p13 + p04,
                 p41 + p32 + p23 + p14, p42 + p33 + p24, p43 + p34, p44)
  {
  }

  lemma Row(a: Limbs, y: nat)
    ensures Val(a) * y == Val5(Times(a[0], y), Times(a[1], y), Times(a[2], y), Times(a[3], y), Times(a[4], y))
  {
    ScaleLimbs(a[0], a[1], a[2], a[3], a[4], y);
    TimesIsMul(a[0], y);
    TimesIsMul(a[1], y);
    TimesIsMul(a[2], y);
    TimesIsMul(a[3], y);
    TimesIsMul(a[4], y);
  }

  /** The columns stand for the product. */
  lemma ColumnsAreProduct(a: Limbs, b: Limbs)
    ensures ColumnValue(ProductColumns(a, b)) == Val(a) * Val(b)
  {
    Row(a, b[0]);
    Row(a, b[1]);
    Row(a, b[2]);
    Row(a, b[3]);
    Row(a, b[4]);
    ScaleRows(Val(a), b[0], b[1], b[2], b[3], b[4],
              Val5(Times(a[0], b[0]), Times(a[1], b[0]), Times(a[2], b[0]), Times(a[3], b[0]), Times(a[4], b[0])),
              Val5(Times(a[0], b[1]), Times(a[1], b[1]), Times(a[2], b[1]), Times(a[3], b[1]), Times(a[4], b[1])),
              Val5(Times(a[0], b[2]), Times(a[1], b[2]), Times(a[2], b[2]), Times(a[3], b[2]), Times(a[4], b[2])),
              Val5(Times(a[0], b[3]), Times(a[1], b[3]), Times(a[2], b[3]), Times(a[3], b[3]), Times(a[4], b[3])),
              Val5(Times(a[0], b[4]), Times(a[1], b[4]), Times(a[2], b[4]), Times(a[3], b[4]), Times(a[4], b[4])));
    RowsToColumns(Times(a[0], b[0]), Times(a[1], b[0]), Times(a[2], b[0]), Times(a[3], b[0]), Times(a[4], b[0]),
                  Times(a[0], b[1]), Times(a[1], b[1]), Times(a[2], b[1]), Times(a[3], b[1]), Times(a[4], b[1]),
                  Times(a[0], b[2]), Times(a[1], b[2]), Times(a[2], b[2]), Times(a[3], b[2]), Times(a[4], b[2]),
                  Times(a[0], b[3]), Times(a[1], b[3]), Times(a[2], b[3]), Times(a[3], b[3]), Times(a[4], b[3]),
                  Times(a[0], b[4]), Times(a[1], b[4]), Times(a[2], b[4]), Times(a[3], b[4]), Times(a[4], b[4]));
  }

  /** The stages as linear equations; each fold replaces 2^256 or 2^260 by its remainder and so drops multiples of p. */
  lemma FoldIdentity(c0: int, c1: int, c2: int, c3: int, c4: int, c5: int, c6: int, c7: int,
                     c8: int, h8: int, l8: int, h3: int, t3: int, h4: int, l4: int, tx: int, t4: int,
                     h5: int, l5: int, u0: int, k0: int, r0: int, h6: int, l6: int, k1: int, r1: int,
                     h7: int, l7: int, k2: int, r2: int, k3: int, r3: int)
    requires c8 == 0x10000000000000 * h8 + l8 && c3 + 0x1000003D10 * l8 == 0x10000000000000 * h3 + t3
    requires h3 + c4 + 0x1000003D10 * h8 == 0x10000000000000 * h4 + l4 && l4 == 0x1000000000000 * tx + t4
    requires h4 + c5 == 0x10000000000000 * h5 + l5 && u0 == 16 * l5 + tx
    requires c0 + 0x1000003D1 * u0 == 0x10000000000000 * k0 + r0
    requires h5 + c6 == 0x10000000000000 * h6 + l6
    requires k0 + c1 + 0x1000003D10 * l6 == 0x10000000000000 * k1 + r1
    requires h6 + c7 == 0x10000000000000 * h7 + l7
    requires k1 + c2 + 0x1000003D10 * l7 == 0x10000000000000 * k2 + r2
    requires k2 + t3 + 0x1000003D10 * h7 == 0x10000000000000 * k3 + r3
    ensures Val9(c0, c1, c2, c3, c4, c5, c6, c7, c8) - Val5(r0, r1, r2, r3, k3 + t4)
         == (u0 + 16 * Val5(0, l6, l7, l8 + h7, h8)) * P
  {
  }

  /** The limbs computed stand for the columns modulo p, with magnitude 1. */
  lemma ReducedCorrect(c: Columns)
    requires Bounded(c)
    ensures Top(c) <= 0x1FFFFFFFFFFFE
    ensures Congruent(Val5(Lo(C0(c)), Lo(C1(c)), Lo(C2(c)), Lo(C3(c)), Top(c)), ColumnValue(c), P)
  {
    StageBounds(c);
    FoldIdentity(c.c0, c.c1, c.c2, c.c3, c.c4, c.c5, c.c6, c.c7, c.c8, Hi(c.c8), Lo(c.c8), Hi(D3(c)), Lo(D3(c)),
                 Hi(D4(c)), Lo(D4(c)), Lo(D4(c)) / 0x1000000000000, Lo(D4(c)) % 0x1000000000000,
                 Hi(D5(c)), Lo(D5(c)), U0(c), Hi(C0(c)), Lo(C0(c)), Hi(D6(c)), Lo(D6(c)), Hi(C1(c)), Lo(C1(c)),
                 Hi(D7(c)), Lo(D7(c)), Hi(C2(c)), Lo(C2(c)), Hi(C3(c)), Lo(C3(c)));
    var k := U0(c) + 16 * Val5(0, Lo(D6(c)), Lo(D7(c)), Lo(c.c8) + Hi(D7(c)), Hi(c.c8));
    CongruentByMultiple(ColumnValue(c), Val5(Lo(C0(c)), Lo(C1(c)), Lo(C2(c)), Lo(C3(c)), Top(c)), k, P);
  }

  /** mulq, addq, adcq: the product of two registers joins a 128-bit accumulator, which must not overflow. */
  method Mac(acc: u128, x: u64, y: u64, ghost xMax: nat, ghost yMax: nat) returns (r: u128)
    requires x <= xMax && y <= yMax && acc + xMax * yMax < TWO128
    ensures r == acc + Times(x, y) && r <= acc + xMax * yMax
  {
    TimesIsMul(x, y);
    MulMono(x, xMax, y);
    MulMono(y, yMax, xMax);
    assert xMax * y == y * xMax && yMax * xMax == xMax * yMax;
    r := (acc + x * y) % TWO128;
  }

  /** A constant times a register joins the accumulator. */
  method MacConst(acc: u128, k: nat, y: u64) returns (r: u128)
    requires k < 0x2000000000 && acc + k * y < TWO128
    ensures r == acc + k * y
  {
    r := (acc + k * y) % TWO128;
  }

  /** shrdq by 52 keeps only the low register: right only when nothing is left above it. */
  method Shift52(acc: u128) returns (r: u64)
    requires acc < 0x100000000000000000000000000000
    ensures r == Hi(acc)
  {
    r := (acc / 0x10000000000000) % TWO64;
  }

  /** addq alone: a carry out of the register would be lost. */
  method AddLow(x: u64, y: u64) returns (r: u64)
    requires x + y < TWO64
    ensures r == x + y
  {
    r := (x + y) % TWO64;
  }

  lemma LimbProduct(x: nat, y: nat, xMax: nat, yMax: nat)
    requires x <= xMax && y <= yMax
    ensures Times(x, y) <= xMax * yMax
  {
    TimesIsMul(x, y);
    MulMono(x, xMax, y);
    MulMono(y, yMax, xMax);
  }

  /** The largest limb at this position in an element of magnitude 8. */
  function Limit8(i: nat): (r: nat)
  {
    if i == 4 then 0xFFFFFFFFFFFF0 else 0xFFFFFFFFFFFFF0
  }

  lemma ProductBounded(a: Limbs, b: Limbs)
    requires Magnitude(a, 8) && Magnitude(b, 8)
    ensures Bounded(ProductColumns(a, b))
  {
    forall i, j | 0 <= i < 5 && 0 <= j < 5
      ensures Times(a[i], b[j]) <= Limit8(i) * Limit8(j)
    {
      LimbProduct(a[i], b[j], Limit8(i), Limit8(j));
    }
  }

  /** A limb of magnitude 8, below the top one. */
  ghost predicate Limb8(x: nat) { x <= 0xFFFFFFFFFFFFF0 }

  /** A top limb of magnitude 8. */
  ghost predicate Top8(x: nat) { x <= 0xFFFFFFFFFFFF0 }

  ghost predicate Limbs8(a0: nat, a1: nat, a2: nat, a3: nat, a4: nat)
  {
    Limb8(a0) && Limb8(a1) && Limb8(a2) && Limb8(a3) && Top8(a4)
  }

  /** Column 3 with the low half of column 8 folded in. */
  method MulColumn3(a0: u64, a1: u64, a2: u64, a3: u64, a4: u64, b0: u64, b1: u64, b2: u64, b3: u64, b4: u64,
                    ghost cols: Columns)
    returns (t3: u64, c: u64, d: u64)
    requires Limbs8(a0, a1, a2, a3, a4) && Limbs8(b0, b1, b2, b3, b4) && Bounded(cols)
    requires cols.c8 == Times(a4, b4) && cols.c3 == Times(a3, b0) + Times(a2, b1) + Times(a1, b2) + Times(a0, b3)
    ensures t3 == Lo(D3(cols)) && c == Hi(cols.c8) && d == Hi(D3(cols))
  {
    ghost var w, w4 := 0xFFFFFFFFFFFFF0, 0xFFFFFFFFFFFF0;
    var acc: u128 := Mac(0, a3, b0, w, w);
    acc := Mac(acc, a2, b1, w, w);
    acc := Mac(acc, a1, b2, w, w);
    acc := Mac(acc, a0, b3, w, w);
    var top: u128 := Mac(0, a4, b4, w4, w4);
    acc := MacConst(acc, 0x1000003D10, Lo(top));
    c := Shift52(top);
    t3 := Lo(acc);
    d := Shift52(acc);
  }

  /** Column 4 with the high half of column 8 folded in; its top four bits are set aside. */
  method MulColumn4(a0: u64, a1: u64, a2: u64, a3: u64, a4: u64, b0: u64, b1: u64, b2: u64, b3: u64, b4: u64,
                    c: u64, d: u64, ghost cols: Columns) returns (t4: u64, tx: u64, d': u64)
    requires Limbs8(a0, a1, a2, a3, a4) && Limbs8(b0, b1, b2, b3, b4) && Bounded(cols)
    requires cols.c4 == Times(a4, b0) + Times(a3, b1) + Times(a2, b2) + Times(a1, b3) + Times(a0, b4)
    requires c == Hi(cols.c8) && d == Hi(D3(cols))
    ensures t4 == Lo(D4(cols)) % 0x1000000000000 && tx == Lo(D4(cols)) / 0x1000000000000 && d' == Hi(D4(cols))
  {
    ghost var w, w4 := 0xFFFFFFFFFFFFF0, 0xFFFFFFFFFFFF0;
    var acc: u128 := Mac(d, a4, b0, w4, w);
    acc := Mac(acc, a3, b1, w, w);
    acc := Mac(acc, a2, b2, w, w);
    acc := Mac(acc, a1, b3, w, w);
    acc := Mac(acc, a0, b4, w, w4);
    acc := MacConst(acc, 0x1000003D10, c);
    t4 := Lo(acc);
    d' := Shift52(acc);
    tx := t4 / 0x1000000000000;
    t4 := t4 % 0x1000000000000;
  }

  /** Columns 0 and 5: the lowest limb of the result. */
  method MulStep0(a0: u64, a1: u64, a2: u64, a3: u64, a4: u64, b0: u64, b1: u64, b2: u64, b3: u64, b4: u64,
                  d: u64, tx: u64, ghost cols: Columns) returns (r0: u64, c': u64, d': u64)
    requires Limbs8(a0, a1, a2, a3, a4) && Limbs8(b0, b1, b2, b3, b4) && Bounded(cols)
    requires cols.c0 == Times(a0, b0) && cols.c5 == Times(a4, b1) + Times(a3, b2) + Times(a2, b3) + Times(a1, b4)
    requires d == Hi(D4(cols)) && tx == Lo(D4(cols)) / 0x1000000000000
    ensures r0 == Lo(C0(cols)) && c' == Hi(C0(cols)) && d' == Hi(D5(cols))
  {
    ghost var w, w4 := 0xFFFFFFFFFFFFF0, 0xFFFFFFFFFFFF0;
    var c: u128 := Mac(0, a0, b0, w, w);
    var acc: u128 := Mac(d, a4, b1, w4, w);
    acc := Mac(acc, a3, b2, w, w);
    acc := Mac(acc, a2, b3, w, w);
    acc := Mac(acc, a1, b4, w, w4);
    var u0 := Lo(acc);
    d' := Shift52(acc);
    u0 := 16 * u0 + tx;
    c := MacConst(c, 0x1000003D1, u0);
    r0 := Lo(c);
    c' := Shift52(c);
  }

  /** Columns 1 and 6. */
  method MulStep1(a0: u64, a1: u64, a2: u64, a3: u64, a4: u64, b0: u64, b1: u64, b2: u64, b3: u64, b4: u64,
                  c: u64, d: u64, ghost cols: Columns) returns (r1: u64, c': u64, d': u64)
    requires Limbs8(a0, a1, a2, a3, a4) && Limbs8(b0, b1, b2, b3, b4) && Bounded(cols)
    requires cols.c1 == Times(a1, b0) + Times(a0, b1) && cols.c6 == Times(a4, b2) + Times(a3, b3) + Times(a2, b4)
    requires c == Hi(C0(cols)) && d == Hi(D5(cols))
    ensures r1 == Lo(C1(cols)) && c' == Hi(C1(cols)) && d' == Hi(D6(cols))
  {
    ghost var w, w4 := 0xFFFFFFFFFFFFF0, 0xFFFFFFFFFFFF0;
    var acc: u128 := Mac(c, a1, b0, w, w);
    acc := Mac(acc, a0, b1, w, w);
    var acd: u128 := Mac(d, a4, b2, w4, w);
    acd := Mac(acd, a3, b3, w, w);
    acd := Mac(acd, a2, b4, w, w4);
    acc := MacConst(acc, 0x1000003D10, Lo(acd));
    d' := Shift52(acd);
    r1 := Lo(acc);
    c' := Shift52(acc);
  }

  /** Columns 2 and 7. */
  method MulStep2(a0: u64, a1: u64, a2: u64, a3: u64, a4: u64, b0: u64, b1: u64, b2: u64, b3: u64, b4: u64,
                  c: u64, d: u64, ghost cols: Columns) returns (r2: u64, c': u64, d': u64)
    requires Limbs8(a0, a1, a2, a3, a4) && Limbs8(b0, b1, b2, b3, b4) && Bounded(cols)
    requires cols.c2 == Times(a2, b0) + Times(a1, b1) + Times(a0, b2) && cols.c7 == Times(a4, b3) + Times(a3, b4)
    requires c == Hi(C1(cols)) && d == Hi(D6(cols))
    ensures r2 == Lo(C2(cols)) && c' == Hi(C2(cols)) && d' == Hi(D7(cols))
  {
    ghost var w, w4 := 0xFFFFFFFFFFFFF0, 0xFFFFFFFFFFFF0;
    var acc: u128 := Mac(c, a2, b0, w, w);
    acc := Mac(acc, a1, b1, w, w);
    acc := Mac(acc, a0, b2, w, w);
    var acd: u128 := Mac(d, a4, b3, w4, w);
    acd := Mac(acd, a3, b4, w, w4);
    acc := MacConst(acc, 0x1000003D10, Lo(acd));
    d' := Shift52(acd);
    r2 := Lo(acc);
    c' := Shift52(acc);
  }

  /** The two limbs set aside come back in, and the last carries go up. */
  method LastStep(c: u64, d: u64, t3: u64, t4: u64, ghost cols: Columns) returns (r3: u64, r4: u64)
    requires Bounded(cols) && c == Hi(C2(cols)) && d == Hi(D7(cols))
    requires t3 == Lo(D3(cols)) && t4 == Lo(D4(cols)) % 0x1000000000000
    ensures r3 == Lo(C3(cols)) && r4 == Top(cols)
  {
    StageBounds(cols);
    var acc: u128 := AddLow(c, t3);
    acc := MacConst(acc, 0x1000003D10, d);
    r3 := Lo(acc);
    var top := Shift52(acc);
    r4 := AddLow(top, t4);
  }

  /** The product: r may be the same array as a, but not as b, which is still being read while r is written. */
  method MulInner(r: array<u64>, a: array<u64>, b: array<u64>)
    requires r.Length == 5 && a.Length == 5 && b.Length == 5 && r != b
    requires Magnitude(a[..], 8) && Magnitude(b[..], 8)
    modifies r
    ensures r[..] == Reduced(ProductColumns(old(a[..]), b[..]))
  {
    ghost var cols := ProductColumns(a[..], b[..]);
    ProductBounded(a[..], b[..]);
    var a0, a1, a2, a3, a4 := a[0], a[1], a[2], a[3], a[4];
    var t3, c, d := MulColumn3(a0, a1, a2, a3, a4, b[0], b[1], b[2], b[3], b[4], cols);
    var t4, tx, limb;
    t4, tx, d := MulColumn4(a0, a1, a2, a3, a4, b[0], b[1], b[2], b[3], b[4], c, d, cols);
    limb, c, d := MulStep0(a0, a1, a2, a3, a4, b[0], b[1], b[2], b[3], b[4], d, tx, cols);
    r[0] := limb;
    limb, c, d := MulStep1(a0, a1, a2, a3, a4, b[0], b[1], b[2], b[3], b[4], c, d, cols);
    r[1] := limb;
    limb, c, d := MulStep2(a0, a1, a2, a3, a4, b[0], b[1], b[2], b[3], b[4], c, d, cols);
    r[2] := limb;
    var r3, r4 := LastStep(c, d, t3, t4, cols);
    r[3], r[4] := r3, r4;
  }

  lemma TwiceTimes(x: int, y: int, twice: int)
    requires twice == x + x
    ensures twice * y == 2 * (x * y)
  {
  }

  /** The product with a doubled register: both of the two equal cross terms at once. */
  method MacDouble(acc: u128, x: u64, y: u64, ghost xMax: nat, ghost yMax: nat) returns (r: u128)
    requires x <= xMax && y <= yMax && xMax < 0x100000000000000 && acc + 2 * (xMax * yMax) < TWO128
    ensures r == acc + Times(x, y) + Times(y, x) && r <= acc + 2 * (xMax * yMax)
  {
    var twice: u64 := (x + x) % TWO64;
    LimbProduct(x, y, xMax, yMax);
    TimesIsMul(x, y);
    TimesIsMul(y, x);
    TwiceTimes(x, y, twice);
    r := (acc + twice * y) % TWO128;
  }

  method SqrColumn3(a0: u64, a1: u64, a2: u64, a3: u64, a4: u64, ghost cols: Columns) returns (t3: u64, c: u64, d: u64)
    requires Limbs8(a0, a1, a2, a3, a4) && Bounded(cols)
    requires cols.c8 == Times(a4, a4) && cols.c3 == Times(a3, a0) + Times(a2, a1) + Times(a1, a2) + Times(a0, a3)
    ensures t3 == Lo(D3(cols)) && c == Hi(cols.c8) && d == Hi(D3(cols))
  {
    ghost var w, w4 := 0xFFFFFFFFFFFFF0, 0xFFFFFFFFFFFF0;
    var acc: u128 := MacDouble(0, a0, a3, w, w);
    acc := MacDouble(acc, a1, a2, w, w);
    var top: u128 := Mac(0, a4, a4, w4, w4);
    acc := MacConst(acc, 0x1000003D10, Lo(top));
    c := Shift52(top);
    t3 := Lo(acc);
    d := Shift52(acc);
  }

  method SqrColumn4(a0: u64, a1: u64, a2: u64, a3: u64, a4: u64, c: u64, d: u64, ghost cols: Columns)
    returns (t4: u64, tx: u64, d': u64)
    requires Limbs8(a0, a1, a2, a3, a4) && Bounded(cols)
    requires cols.c4 == Times(a4, a0) + Times(a3, a1) + Times(a2, a2) + Times(a1, a3) + Times(a0, a4)
    requires c == Hi(cols.c8) && d == Hi(D3(cols))
    ensures t4 == Lo(D4(cols)) % 0x1000000000000 && tx == Lo(D4(cols)) / 0x1000000000000 && d' == Hi(D4(cols))
  {
    ghost var w, w4 := 0xFFFFFFFFFFFFF0, 0xFFFFFFFFFFFF0;
    var acc: u128 := MacDouble(d, a4, a0, w4, w);
    acc := MacDouble(acc, a1, a3, w, w);
    acc := Mac(acc, a2, a2, w, w);
    acc := MacConst(acc, 0x1000003D10, c);
    t4 := Lo(acc);
    d' := Shift52(acc);
    tx := t4 / 0x1000000000000;
    t4 := t4 % 0x1000000000000;
  }

  method SqrStep0(a0: u64, a1: u64, a2: u64, a3: u64, a4: u64, d: u64, tx: u64, ghost cols: Columns)
    returns (r0: u64, c': u64, d': u64)
    requires Limbs8(a0, a1, a2, a3, a4) && Bounded(cols)
    requires cols.c0 == Times(a0, a0) && cols.c5 == Times(a4, a1) + Times(a3, a2) + Times(a2, a3) + Times(a1, a4)
    requires d == Hi(D4(cols)) && tx == Lo(D4(cols)) / 0x1000000000000
    ensures r0 == Lo(C0(cols)) && c' == Hi(C0(cols)) && d' == Hi(D5(cols))
  {
    ghost var w, w4 := 0xFFFFFFFFFFFFF0, 0xFFFFFFFFFFFF0;
    var c: u128 := Mac(0, a0, a0, w, w);
    var acc: u128 := MacDouble(d, a4, a1, w4, w);
    acc := MacDouble(acc, a2, a3, w, w);
    var u0 := Lo(acc);
    d' := Shift52(acc);
    u0 := 16 * u0 + tx;
    c := MacConst(c, 0x1000003D1, u0);
    r0 := Lo(c);
    c' := Shift52(c);
  }

  method SqrStep1(a0: u64, a1: u64, a2: u64, a3: u64, a4: u64, c: u64, d: u64, ghost cols: Columns)
    returns (r1: u64, c': u64, d': u64)
    requires Limbs8(a0, a1, a2, a3, a4) && Bounded(cols)
    requires cols.c1 == Times(a1, a0) + Times(a0, a1) && cols.c6 == Times(a4, a2) + Times(a3, a3) + Times(a2, a4)
    requires c == Hi(C0(cols)) && d == Hi(D5(cols))
    ensures r1 == Lo(C1(cols)) && c' == Hi(C1(cols)) && d' == Hi(D6(cols))
  {
    ghost var w, w4 := 0xFFFFFFFFFFFFF0, 0xFFFFFFFFFFFF0;
    var acc: u128 := MacDouble(c, a0, a1, w, w);
    var acd: u128 := MacDouble(d, a4, a2, w4, w);
    acd := Mac(acd, a3, a3, w, w);
    acc := MacConst(acc, 0x1000003D10, Lo(acd));
    d' := Shift52(acd);
    r1 := Lo(acc);
    c' := Shift52(acc);
  }

  method SqrStep2(a0: u64, a1: u64, a2: u64, a3: u64, a4: u64, c: u64, d: u64, ghost cols: Columns)
    returns (r2: u64, c': u64, d': u64)
    requires Limbs8(a0, a1, a2, a3, a4) && Bounded(cols)
    requires cols.c2 == Times(a2, a0) + Times(a1, a1) + Times(a0, a2) && cols.c7 == Times(a4, a3) + Times(a3, a4)
    requires c == Hi(C1(cols)) && d == Hi(D6(cols))
    ensures r2 == Lo(C2(cols)) && c' == Hi(C2(cols)) && d' == Hi(D7(cols))
  {
    ghost var w, w4 := 0xFFFFFFFFFFFFF0, 0xFFFFFFFFFFFF0;
    var acc: u128 := MacDouble(c, a0, a2, w, w);
    acc := Mac(acc, a1, a1, w, w);
    var acd: u128 := MacDouble(d, a4, a3, w4, w);
    acc := MacConst(acc, 0x1000003D10, Lo(acd));
    d' := Shift52(acd);
    r2 := Lo(acc);
    c' := Shift52(acc);
  }

  /** The columns of a square, over the registers. */
  ghost predicate SquareColumns(a0: nat, a1: nat, a2: nat, a3: nat, a4: nat, c: Columns)
  {
    && c.c0 == Times(a0, a0) && c.c1 == Times(a1, a0) + Times(a0, a1)
    && c.c2 == Times(a2, a0) + Times(a1, a1) + Times(a0, a2)
    && c.c3 == Times(a3, a0) + Times(a2, a1) + Times(a1, a2) + Times(a0, a3)
    && c.c4 == Times(a4, a0) + Times(a3, a1) + Times(a2, a2) + Times(a1, a3) + Times(a0, a4)
    && c.c5 == Times(a4, a1) + Times(a3, a2) + Times(a2, a3) + Times(a1, a4)
    && c.c6 == Times(a4, a2) + Times(a3, a3) + Times(a2, a4)
    && c.c7 == Times(a4, a3) + Times(a3, a4)
    && c.c8 == Times(a4, a4)
  }

  lemma SquareColumnsOf(a: Limbs)
    requires Magnitude(a, 8)
    ensures SquareColumns(a[0], a[1], a[2], a[3], a[4], ProductColumns(a, a)) && Bounded(ProductColumns(a, a))
    ensures Limbs8(a[0], a[1], a[2], a[3], a[4])
  {
    ProductBounded(a, a);
  }

  method SqrRegisters(a0: u64, a1: u64, a2: u64, a3: u64, a4: u64, ghost cols: Columns)
    returns (r0: u64, r1: u64, r2: u64, r3: u64, r4: u64)
    requires Limbs8(a0, a1, a2, a3, a4) && Bounded(cols) && SquareColumns(a0, a1, a2, a3, a4, cols)
    ensures [r0, r1, r2, r3, r4] == Reduced(cols)
  {
    var t3, c, d := SqrColumn3(a0, a1, a2, a3, a4, cols);
    var t4, tx;
    t4, tx, d := SqrColumn4(a0, a1, a2, a3, a4, c, d, cols);
    r0, c, d := SqrStep0(a0, a1, a2, a3, a4, d, tx, cols);
    r1, c, d := SqrStep1(a0, a1, a2, a3, a4, c, d, cols);
    r2, c, d := SqrStep2(a0, a1, a2, a3, a4, c, d, cols);
    r3, r4 := LastStep(c, d, t3, t4, cols);
  }

  /** The square, with 15 products instead of 25: limb for limb what the multiplication of a by itself gives. */
  method SqrInner(r: array<u64>, a: array<u64>)
    requires r.Length == 5 && a.Length == 5 && Magnitude(a[..], 8)
    modifies r
    ensures r[..] == Reduced(ProductColumns(old(a[..]), old(a[..])))
  {
    ghost var al := a[..];
    SquareColumnsOf(al);
    var r0, r1, r2, r3, r4 := SqrRegisters(a[0], a[1], a[2], a[3], a[4], ProductColumns(al, al));
    Store(r, [r0, r1, r2, r3, r4]);
  }

  /** What the computed limbs mean: the number the columns hold modulo p, with magnitude 1. */
  lemma ProductCorrect(c: Columns, product: int, r: Limbs)
    requires Bounded(c) && ColumnValue(c) == product && r == Reduced(c)
    ensures Magnitude(r, 1) && Congruent(Val(r), product, P)
  {
    ReducedCorrect(c);
  }

  /** Multiplication of whole elements, as the rest of the field code calls it. */
  method Mul(a: Limbs, b: Limbs) returns (r: Limbs)
    requires Magnitude(a, 8) && Magnitude(b, 8)
    ensures Magnitude(r, 1) && Congruent(Val(r), Val(a) * Val(b), P)
  {
    var ra, rb := new u64[5], new u64[5];
    Store(ra, a);
    Store(rb, b);
    MulInner(ra, ra, rb);
    r := ra[..];
    ProductBounded(a, b);
    ColumnsAreProduct(a, b);
    ProductCorrect(ProductColumns(a, b), Val(a) * Val(b), r);
  }

  method Sqr(a: Limbs) returns (r: Limbs)
    requires Magnitude(a, 8)
    ensures Magnitude(r, 1) && Congruent(Val(r), Val(a) * Val(a), P)
  {
    var ra := new u64[5];
    Store(ra, a);
    SqrInner(ra, ra);
    r := ra[..];
    ProductBounded(a, a);
    ColumnsAreProduct(a, a);
    ProductCorrect(ProductColumns(a, a), Val(a) * Val(a), r);
  }
}
