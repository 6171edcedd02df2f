/** Field elements as 32 big-endian bytes and as four packed 64-bit words. */
module FieldBytes {
  import opened Arith
  import opened Bitwise
  import opened ByteStrings
  import opened Field5x52

  lemma {:induction false} BeJoin(x: seq<byte>, y: seq<byte>, power: nat)
    requires power == Pow256(|y|)
    ensures Be(x + y) == Be(x) * power + Be(y)
  {
    if y == [] {
      assert x + y == x;
    } else {
      var front := y[..|y| - 1];
      BeJoin(x, front, Pow256(|front|));
      assert (x + y)[..|x + y| - 1] == x + front;
      assert 256 * (Be(x) * Pow256(|front|)) == Be(x) * (256 * Pow256(|front|));
    }
  }

  lemma BeOne(b: byte)
    ensures Be([b]) == b
  {
    assert [b][..0] == [];
  }

  function Six(b0: int, b1: int, b2: int, b3: int, b4: int, b5: int): (v: int)
  {
    0x10000000000 * b0 + 0x100000000 * b1 + 0x1000000 * b2 + 0x10000 * b3 + 0x100 * b4 + b5
  }

  /** The value of six bytes. */
  lemma BeSix(s: seq<byte>)
    requires |s| == 6
    ensures Be(s) == Six(s[0], s[1], s[2], s[3], s[4], s[5])
  {
    var s5, s4, s3, s2 := s[..5], s[..4], s[..3], s[..2];
    assert s5[..4] == s4 && s4[..3] == s3 && s3[..2] == s2 && s2[..1] == [s[0]];
    BeOne(s[0]);
    assert Be(s2) == 256 * Be(s2[..1]) + s[1];
    assert Be(s3) == 256 * Be(s2) + s[2];
    assert Be(s4) == 256 * Be(s3) + s[3];
    assert Be(s5) == 256 * Be(s4) + s[4];
    assert Be(s) == 256 * Be(s5) + s[5];
  }

  /** Five pieces of six bytes with the two bytes that limbs share between them. */
  function Chunks(p4: int, p3: int, b12: int, p2: int, p1: int, b25: int, p0: int): (v: int)
  {
    p0 + 0x1000000000000 * b25 + 0x100000000000000 * p1 + 0x100000000000000000000000000 * p2
    + 0x100000000000000000000000000000000000000 * b12 + 0x10000000000000000000000000000000000000000 * p3
    + 0x10000000000000000000000000000000000000000000000000000 * p4
  }

  lemma JoinSix(s: seq<byte>, p: seq<byte>)
    requires |p| == 6
    ensures Be(s + p) == 0x1000000000000 * Be(s) + Be(p)
  {
    assert Pow256(6) == 0x1000000000000;
    BeJoin(s, p, 0x1000000000000);
  }

  lemma JoinOne(s: seq<byte>, b: byte)
    ensures Be(s + [b]) == 0x100 * Be(s) + b
  {
    assert (s + [b])[..|s|] == s;
  }

  lemma BeOfPieces(p4: seq<byte>, p3: seq<byte>, x: byte, p2: seq<byte>, p1: seq<byte>, y: byte, p0: seq<byte>)
    requires |p4| == 6 && |p3| == 6 && |p2| == 6 && |p1| == 6 && |p0| == 6
    ensures Be(p4 + p3 + [x] + p2 + p1 + [y] + p0) == Chunks(Be(p4), Be(p3), x, Be(p2), Be(p1), y, Be(p0))
  {
    JoinSix(p4, p3);
    JoinOne(p4 + p3, x);
    JoinSix(p4 + p3 + [x], p2);
    JoinSix(p4 + p3 + [x] + p2, p1);
    JoinOne(p4 + p3 + [x] + p2 + p1, y);
    JoinSix(p4 + p3 + [x] + p2 + p1 + [y], p0);
  }

  /** 32 bytes cut where the limbs meet. */
  lemma BeChunks(a: seq<byte>)
    requires |a| == 32
    ensures Be(a) == Chunks(Be(a[0..6]), Be(a[6..12]), a[12], Be(a[13..19]), Be(a[19..25]), a[25], Be(a[26..32]))
  {
    BeOfPieces(a[0..6], a[6..12], a[12], a[13..19], a[19..25], a[25], a[26..32]);
    assert a == a[0..6] + a[6..12] + [a[12]] + a[13..19] + a[19..25] + [a[25]] + a[26..32];
  }

  lemma {:induction false} BeInjective(x: seq<byte>, y: seq<byte>)
    requires |x| == |y| && Be(x) == Be(y)
    ensures x == y
  {
    if x != [] {
      BeInjective(x[..|x| - 1], y[..|y| - 1]);
      assert x == x[..|x| - 1] + [x[|x| - 1]] && y == y[..|y| - 1] + [y[|y| - 1]];
    }
  }

  /** Limbs of at most 52 and 48 bits. */
  ghost predicate Tight(n: Limbs)
  {
    n[0] < TWO52 && n[1] < TWO52 && n[2] < TWO52 && n[3] < TWO52 && n[4] < TWO48
  }

  lemma TightUnique(m: Limbs, n: Limbs)
    requires Tight(m) && Tight(n) && Val(m) == Val(n)
    ensures m == n
  {
    LimbsUnique(m[0], m[1], m[2], m[3], m[4], n[0], n[1], n[2], n[3], n[4]);
    assert m == [m[0], m[1], m[2], m[3], m[4]] && n == [n[0], n[1], n[2], n[3], n[4]];
  }

  /** The test against p of a tight number. */
  method ReachesP(n0: u64, n1: u64, n2: u64, n3: u64, n4: u64) returns (big: bool)
    requires n0 < TWO52 && n1 < TWO52 && n2 < TWO52 && n3 < TWO52 && n4 < TWO48
    ensures big <==> Val5(n0, n1, n2, n3, n4) >= P
  {
    AllOnes3(n3, n2, n1);
    big := n4 == 0x0FFFFFFFFFFFF && And(And(n3, n2), n1) == 0xFFFFFFFFFFFFF && n0 >= P0;
    AllOnesOrLess(n0, n1, n2, n3, n4);
  }

  lemma AllOnesOrLess(n0: int, n1: int, n2: int, n3: int, n4: int)
    requires 0 <= n0 < 0x10_0000_0000_0000 && 0 <= n1 < 0x10_0000_0000_0000 && 0 <= n2 < 0x10_0000_0000_0000
    requires 0 <= n3 < 0x10_0000_0000_0000 && 0 <= n4 < 0x1_0000_0000_0000
    ensures Val5(n0, n1, n2, n3, n4) >= P <==>
            n4 == 0x0FFFFFFFFFFFF && n3 == 0xFFFFFFFFFFFFF && n2 == 0xFFFFFFFFFFFFF && n1 == 0xFFFFFFFFFFFFF && n0 >= P0
  {
  }

  /** Six bytes below the low half of a shared byte, and its high half below six bytes. */
  function LowLimbOf(shared: int, six: int): (v: int)
  {
    six + 0x1000000000000 * (shared % 16)
  }

  function HighLimbOf(shared: int, six: int): (v: int)
  {
    shared / 16 + 16 * six
  }

  /** Read 32 bytes: the limbs hold their value, and the answer is whether it is below p. */
  method SetB32(a: seq<byte>) returns (ok: bool, r: Limbs)
    requires |a| == 32
    ensures Tight(r) && Val(r) == Be(a) && (ok <==> Be(a) < P)
  {
    BeChunks(a);
    BeSix(a[26..32]);
    BeSix(a[19..25]);
    BeSix(a[13..19]);
    BeSix(a[6..12]);
    BeSix(a[0..6]);
    var n0 := LowLimbOf(a[25], Six(a[26], a[27], a[28], a[29], a[30], a[31]));
    var n1 := HighLimbOf(a[25], Six(a[19], a[20], a[21], a[22], a[23], a[24]));
    var n2 := LowLimbOf(a[12], Six(a[13], a[14], a[15], a[16], a[17], a[18]));
    var n3 := HighLimbOf(a[12], Six(a[6], a[7], a[8], a[9], a[10], a[11]));
    var n4 := Six(a[0], a[1], a[2], a[3], a[4], a[5]);
    r := [n0, n1, n2, n3, n4];
    var big := ReachesP(n0, n1, n2, n3, n4);
    ok := !big;
  }

  /** Write the 32 bytes of a normalized element. */
  method GetB32(n: Limbs) returns (b: seq<byte>)
    requires Tight(n)
    ensures |b| == 32 && Be(b) == Val(n)
  {
    var p4, p3, p2, p1, p0 := Fixed(n[4], 6), Fixed(n[3] / 16, 6), Fixed(n[2] % 0x1000000000000, 6),
                              Fixed(n[1] / 16, 6), Fixed(n[0] % 0x1000000000000, 6);
    var m12 := n[2] / 0x1000000000000 + 16 * (n[3] % 16);
    var m25 := n[0] / 0x1000000000000 + 16 * (n[1] % 16);
    assert Pow256(6) == 0x1000000000000;
    BeFixed(n[4], 6);
    BeFixed(n[3] / 16, 6);
    BeFixed(n[2] % 0x1000000000000, 6);
    BeFixed(n[1] / 16, 6);
    BeFixed(n[0] % 0x1000000000000, 6);
    b := p4 + p3 + [m12] + p2 + p1 + [m25] + p0;
    BeOfPieces(p4, p3, m12, p2, p1, m25, p0);
    ChunkLimbs(n[0], n[1], n[2], n[3], n[4]);
  }

  /** The bytes of the limbs are worth the limbs. */
  lemma ChunkLimbs(n0: nat, n1: nat, n2: nat, n3: nat, n4: nat)
    ensures Chunks(n4, n3 / 16, n2 / 0x1000000000000 + 16 * (n3 % 16), n2 % 0x1000000000000,
                   n1 / 16, n0 / 0x1000000000000 + 16 * (n1 % 16), n0 % 0x1000000000000) == Val5(n0, n1, n2, n3, n4)
  {
  }

  /** Reading back what was written gives the same limbs; writing back what was read gives the same bytes. */
  lemma BytesRoundTrip(n: Limbs, r: Limbs, a: seq<byte>, b: seq<byte>)
    requires Tight(n) && Tight(r) && |a| == 32 && |b| == 32
    requires Be(a) == Val(n) && Be(b) == Val(r)
    ensures a == b <==> n == r
  {
    if a == b {
      TightUnique(n, r);
    }
    if n == r {
      BeInjective(a, b);
    }
  }

  /** Multiplication by a small integer multiplies the magnitude. */
  method MulInt(r: Limbs, k: nat, ghost m: nat) returns (s: Limbs)
    requires Magnitude(r, m) && m * k <= 2048
    ensures Magnitude(s, m * k) && Val(s) == k * Val(r)
  {
    ScaleBound(r[0], m, k, 0x1F_FFFF_FFFF_FFFE);
    ScaleBound(r[1], m, k, 0x1F_FFFF_FFFF_FFFE);
    ScaleBound(r[2], m, k, 0x1F_FFFF_FFFF_FFFE);
    ScaleBound(r[3], m, k, 0x1F_FFFF_FFFF_FFFE);
    ScaleBound(r[4], m, k, 0x1_FFFF_FFFF_FFFE);
    ScaleValue(r[0], r[1], r[2], r[3], r[4], k);
    s := [r[0] * k, r[1] * k, r[2] * k, r[3] * k, r[4] * k];
  }

  lemma ScaleBound(x: nat, m: nat, k: nat, c: nat)
    requires x <= c * m && m * k <= 2048 && c <= 0x1F_FFFF_FFFF_FFFE
    ensures 0 <= x * k <= c * (m * k) && x * k < TWO64
  {
    assert x * k <= (c * m) * k == c * (m * k);
    assert c * (m * k) <= c * 2048;
  }

  lemma ScaleValue(t0: int, t1: int, t2: int, t3: int, t4: int, k: int)
    ensures Val5(t0 * k, t1 * k, t2 * k, t3 * k, t4 * k) == k * Val5(t0, t1, t2, t3, t4)
  {
  }

  /** Four words of 64 bits. */
  function PackedVal(s0: int, s1: int, s2: int, s3: int): (v: int)
  {
    s0 + 0x10000000000000000 * s1 + 0x100000000000000000000000000000000 * s2
    + 0x1000000000000000000000000000000000000000000000000 * s3
  }

  /** A left shift in 64 bits, by the factor c. */
  function Shifted(x: int, c: int): (r: int)
  {
    (x * c) % 0x10000000000000000
  }

  /** It keeps the bits that fit. */
  lemma ShiftKeeps(x: nat, c: nat, d: nat, m: nat)
    requires d > 0 && m > 0 && c * d == m
    ensures (x * c) % m == (x % d) * c && 0 <= (x % d) * c <= m - c
  {
    DivModEq(x, d);
    assert x * c == ((x / d) * d + x % d) * c == (x / d) * (c * d) + (x % d) * c;
    assert (x % d) * c <= (d - 1) * c == m - c;
    if c > 0 {
      DivModUnique(x * c, m, x / d, (x % d) * c);
    }
  }

  /** Pack a normalized element into four words. */
  method ToStorage(n: Limbs) returns (s0: u64, s1: u64, s2: u64, s3: u64)
    requires Tight(n)
    ensures PackedVal(s0, s1, s2, s3) == Val(n)
  {
    ShiftKeeps(n[1], 0x10000000000000, 0x1000, 0x10000000000000000);
    ShiftKeeps(n[2], 0x10000000000, 0x1000000, 0x10000000000000000);
    ShiftKeeps(n[3], 0x10000000, 0x1000000000, 0x10000000000000000);
    ShiftKeeps(n[4], 0x10000, 0x1000000000000, 0x10000000000000000);
    s0 := n[0] + Shifted(n[1], 0x10000000000000);
    s1 := n[1] / 0x1000 + Shifted(n[2], 0x10000000000);
    s2 := n[2] / 0x1000000 + Shifted(n[3], 0x10000000);
    s3 := n[3] / 0x1000000000 + Shifted(n[4], 0x10000);
  }

  /** A left shift in 64 bits whose low 52 bits are kept. */
  function ShiftedLow(x: int, c: int): (r: int)
  {
    Shifted(x, c) % 0x10000000000000
  }

  lemma ShiftLowKeeps(x: nat, c: nat, d: nat)
    requires c > 0 && d > 0 && c * d == 0x10000000000000
    ensures ShiftedLow(x, c) == (x % d) * c && 0 <= (x % d) * c <= 0x10000000000000 - c
  {
    ModMod(x * c);
    ShiftKeeps(x, c, d, 0x10000000000000);
  }

  lemma ModMod(y: nat)
    ensures (y % 0x10000000000000000) % 0x10000000000000 == y % 0x10000000000000
  {
  }

  /** Unpack four words. */
  method FromStorage(s0: u64, s1: u64, s2: u64, s3: u64) returns (r: Limbs)
    ensures Tight(r) && Val(r) == PackedVal(s0, s1, s2, s3)
  {
    ShiftLowKeeps(s1, 0x1000, 0x10000000000);
    ShiftLowKeeps(s2, 0x1000000, 0x10000000);
    ShiftLowKeeps(s3, 0x1000000000, 0x10000);
    r := [s0 % 0x10000000000000,
          s0 / 0x10000000000000 + ShiftedLow(s1, 0x1000),
          s1 / 0x10000000000 + ShiftedLow(s2, 0x1000000),
          s2 / 0x10000000 + ShiftedLow(s3, 0x1000000000),
          s3 / 0x10000];
  }
}
