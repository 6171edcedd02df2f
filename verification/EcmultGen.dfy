/** Multiplication of the generator by a secret scalar, with a precomputed table and blinding. */
module EcmultGen {
  import opened Arith
  import opened Bits
  import opened Scalars
  import opened Groups

  /** The coefficient of the offset point U in row j, chosen so that the 64 offsets cancel. */
  ghost function Offset(j: nat): (r: int)
  {
    if j < 63 then Pow2(j) else 1 - Pow2(j)
  }

  ghost function OffsetSum(n: nat): (r: int)
  {
    if n == 0 then 0 else OffsetSum(n - 1) + Offset(n - 1)
  }

  lemma {:induction false} OffsetSumBelow63(n: nat)
    requires n <= 63
    ensures OffsetSum(n) == Pow2(n) - 1
  {
    if n > 0 { OffsetSumBelow63(n - 1); }
  }

  /** The offsets of all 64 rows add up to nothing. */
  lemma OffsetsCancel(n: nat)
    requires n == 64
    ensures OffsetSum(n) == 0
  {
    OffsetSumBelow63(n - 1);
  }

  /** Entry i of row j is U_j + i * 16^j * G. */
  ghost function Entry<P>(g: Group<P>, base: P, nums: P, j: nat, i: nat): (r: P)
  {
    g.add(Smul(g, Offset(j), nums), Smul(g, Shl(i, 4 * j), base))
  }

  ghost predicate RowOf<P>(g: Group<P>, base: P, nums: P, row: seq<P>, j: nat)
  {
    |row| == 16 && forall i :: 0 <= i < 16 ==> row[i] == Entry(g, base, nums, j, i)
  }

  ghost predicate TableOf<P>(g: Group<P>, base: P, nums: P, prec: seq<seq<P>>)
  {
    |prec| == 64 && forall j :: 0 <= j < 64 ==> RowOf(g, base, nums, prec[j], j)
  }

  lemma EntryNext<P(!new)>(g: Group<P>, base: P, nums: P, j: nat, i: nat, gbase: P)
    requires Abelian(g) && gbase == Smul(g, Shl(1, 4 * j), base)
    ensures Entry(g, base, nums, j, i + 1) == g.add(Entry(g, base, nums, j, i), gbase)
  {
    ShlAdd(i, 1, 4 * j);
    SmulAdd(g, Shl(i, 4 * j), Shl(1, 4 * j), base);
    assert Associative(g, Smul(g, Offset(j), nums), Smul(g, Shl(i, 4 * j), base), gbase);
  }

  method BuildRow<P(!new)>(g: Group<P>, ghost base: P, ghost nums: P, j: nat, gbase: P, numsbase: P)
    returns (row: seq<P>)
    requires Abelian(g) && gbase == Smul(g, Shl(1, 4 * j), base) && numsbase == Smul(g, Offset(j), nums)
    ensures RowOf(g, base, nums, row, j)
  {
    row := [numsbase];
    ShlZero(4 * j);
    ZeroLeft(g, numsbase);
    for i := 1 to 16
      invariant |row| == i && forall k :: 0 <= k < i ==> row[k] == Entry(g, base, nums, j, k)
    {
      EntryNext(g, base, nums, j, i - 1, gbase);
      row := row + [g.add(row[i - 1], gbase)];
    }
  }

  method TimesSixteen<P(!new)>(g: Group<P>, p: P, ghost k: int, ghost base: P) returns (r: P)
    requires Abelian(g) && p == Smul(g, k, base)
    ensures r == Smul(g, Shl(k, 4), base)
  {
    r := p;
    for i := 0 to 4
      invariant r == Smul(g, Shl(k, i), base)
    {
      SmulDouble(g, Shl(k, i), base);
      r := g.add(r, r);
    }
  }

  /** The offset of the next row: doubled each time, and after row 62 replaced by what cancels the rest. */
  method NextOffset<P(!new)>(g: Group<P>, nums: P, numsbase: P, j: nat) returns (r: P)
    requires Abelian(g) && j < 63 && numsbase == Smul(g, Offset(j), nums)
    ensures r == Smul(g, Offset(j + 1), nums)
  {
    SmulDouble(g, Pow2(j), nums);
    r := g.add(numsbase, numsbase);
    if j == 62 {
      SmulNeg(g, Pow2(j + 1), nums);
      SmulAdd(g, -(Pow2(j + 1) as int), 1, nums);
      SmulOne(g, nums);
      r := g.neg(r);
      r := g.add(r, nums);
    }
  }

  method NextBases<P(!new)>(g: Group<P>, ghost base: P, nums: P, gbase: P, numsbase: P, j: nat)
    returns (gbase': P, numsbase': P)
    requires Abelian(g) && gbase == Smul(g, Shl(1, 4 * j), base) && j < 64 && numsbase == Smul(g, Offset(j), nums)
    ensures gbase' == Smul(g, Shl(1, 4 * (j + 1)), base)
    ensures j < 63 ==> numsbase' == Smul(g, Offset(j + 1), nums)
  {
    assert 4 * (j + 1) == 4 * j + 4;
    ShlShl(1, 4 * j, 4);
    gbase' := TimesSixteen(g, gbase, Shl(1, 4 * j), base);
    numsbase' := g.add(numsbase, numsbase);
    if j < 63 { numsbase' := NextOffset(g, nums, numsbase, j); }
  }

  method BuildTable<P(!new)>(g: Group<P>, base: P, nums: P) returns (prec: seq<seq<P>>)
    requires Abelian(g)
    ensures TableOf(g, base, nums, prec)
  {
    prec := [];
    var gbase, numsbase := base, nums;
    SmulOne(g, base);
    SmulOne(g, nums);
    for j := 0 to 64
      invariant |prec| == j && forall k :: 0 <= k < j ==> RowOf(g, base, nums, prec[k], k)
      invariant gbase == Smul(g, Shl(1, 4 * j), base)
      invariant j < 64 ==> numsbase == Smul(g, Offset(j), nums)
    {
      var row := BuildRow(g, base, nums, j, gbase, numsbase);
      prec := prec + [row];
      gbase, numsbase := NextBases(g, base, nums, gbase, numsbase, j);
    }
  }

  /** Reads a whole row and keeps the entry wanted. */
  method SelectEntry<P>(row: seq<P>, bits: nat) returns (r: P)
    requires bits < |row| == 16
    ensures r == row[bits]
  {
    r := row[0];
    for i := 0 to 16
      invariant i > bits ==> r == row[bits]
    {
      if i == bits { r := row[i]; }
    }
  }

  /** What has been added after j rows: the offsets so far and the low 4j bits of the blinded scalar. */
  ghost function Partial<P>(g: Group<P>, initial: P, base: P, nums: P, gnb: nat, j: nat): (r: P)
  {
    g.add(initial, g.add(Smul(g, OffsetSum(j), nums), Smul(g, Low(gnb, 4 * j), base)))
  }

  lemma PartialNext<P(!new)>(g: Group<P>, initial: P, base: P, nums: P, gnb: nat, j: nat)
    requires Abelian(g)
    ensures g.add(Partial(g, initial, base, nums, gnb, j), Entry(g, base, nums, j, GetBits(gnb, 4 * j, 4)))
         == Partial(g, initial, base, nums, gnb, j + 1)
  {
    var bits := GetBits(gnb, 4 * j, 4);
    LowLow(gnb, 4 * j, 4);
    assert 4 * (j + 1) == 4 * j + 4;
    SmulAdd(g, OffsetSum(j), Offset(j), nums);
    SmulAdd(g, Low(gnb, 4 * j), Shl(bits, 4 * j), base);
    var a, b := Smul(g, OffsetSum(j), nums), Smul(g, Low(gnb, 4 * j), base);
    var c, d := Smul(g, Offset(j), nums), Smul(g, Shl(bits, 4 * j), base);
    Interchange(g, a, b, c, d);
    assert Associative(g, initial, g.add(a, b), g.add(c, d));
  }

  /** With all rows added, the offsets are gone and the blinding cancels. */
  lemma PartialFinish<P(!new)>(g: Group<P>, initial: P, base: P, nums: P, blind: int, gnb: nat, rows: nat)
    requires Abelian(g) && initial == Smul(g, -blind, base)
    requires OffsetSum(rows) == 0 && Low(gnb, 4 * rows) == gnb
    ensures Partial(g, initial, base, nums, gnb, rows) == Smul(g, gnb - blind, base)
  {
    ZeroLeft(g, Smul(g, gnb, base));
    SmulAdd(g, -blind, gnb, base);
  }

  lemma AllRows(gnb: Scalar, rows: nat)
    requires rows == 64
    ensures OffsetSum(rows) == 0 && Low(gnb, 4 * rows) == gnb
  {
    OffsetsCancel(rows);
    WholeScalar(gnb, 4 * rows);
  }

  lemma BlindCancels<P(!new)>(g: Group<P>, gn: Scalar, blind: Scalar, gnb: Scalar, base: P)
    requires Abelian(g) && Exponent(g, N) && gnb == (gn + blind) % N
    ensures Smul(g, gnb - blind, base) == Smul(g, gn, base)
  {
    CongruentMod(gn + blind, N);
    CongruentAdd(gnb, gn + blind, blind, blind, N);
    SmulCongruent(g, N, gnb - blind, gn, base);
  }

  lemma WholeScalar(s: Scalar, k: nat)
    requires k == 256
    ensures Low(s, k) == s
  {
    TwoTo255();
    LowSmall(s, k);
  }

  /** The signing context: a table built once, and a blinding that is replaced again and again. */
  class GenContext<P(!new)> {
    const g: Group<P>
    const base: P
    ghost const nums: P
    var prec: seq<seq<P>>
    var blind: Scalar
    var initial: P

    ghost predicate Built()
      reads this
    {
      Abelian(g) && Exponent(g, N) && TableOf(g, base, nums, prec)
    }

    /** The blinding cancels: the starting point is minus blind times the generator. */
    ghost predicate Valid()
      reads this
    {
      Built() && initial == Smul(g, -(blind as int), base)
    }

    constructor (g: Group<P>, base: P, nums: P, b: Scalar)
      requires Abelian(g) && Exponent(g, N) && b != 0
      ensures Valid() && this.g == g && this.base == base && blind == Negate(b)
    {
      this.g, this.base, this.nums := g, base, nums;
      blind, initial := 0, g.zero;
      var table := BuildTable(g, base, nums);
      prec := table;
      new;
      Blind(true, b);
    }

    /** r = gn * G, whatever the blinding. */
    method Multiply(gn: Scalar) returns (r: P)
      requires Valid()
      ensures r == Smul(g, gn, base)
    {
      r := initial;
      var gnb: Scalar := (gn + blind) % N;
      ZeroLeft(g, g.zero);
      ZeroLeft(g, initial);
      for j := 0 to |prec|
        invariant r == Partial(g, initial, base, nums, gnb, j)
      {
        var bits := GetBits(gnb, 4 * j, 4);
        LowBound(Shr(gnb, 4 * j), 4);
        assert Pow2(4) == 16;
        assert RowOf(g, base, nums, prec[j], j);
        var add := SelectEntry(prec[j], bits);
        PartialNext(g, initial, base, nums, gnb, j);
        r := g.add(r, add);
      }
      BlindCancels(g, gn, blind, gnb, base);
      AllRows(gnb, |prec|);
      PartialFinish(g, initial, base, nums, blind, gnb, |prec|);
    }

    /** Replaces the blinding by -b, for an arbitrary nonzero b; a reset first forgets the old blinding. */
    method Blind(reset: bool, b: Scalar)
      requires Built() && (reset || Valid()) && b != 0
      modifies this`blind, this`initial
      ensures Valid() && blind == Negate(b)
    {
      if reset {
        SmulOne(g, base);
        initial, blind := g.neg(base), 1;
      }
      var gb := Multiply(b);
      CongruentByMultiple(b, -(Negate(b) as int), 1, N);
      SmulCongruent(g, N, b, -(Negate(b) as int), base);
      blind, initial := Negate(b), gb;
    }

    /** After any sequence of reblindings, multiplication still returns k * G. */
    method MultiplyAfter(steps: seq<(bool, Scalar)>, k: Scalar) returns (r: P)
      requires Valid() && forall i :: 0 <= i < |steps| ==> steps[i].1 != 0
      modifies this`blind, this`initial
      ensures Valid() && r == Smul(g, k, base)
    {
      for i := 0 to |steps|
        invariant Valid()
      {
        Blind(steps[i].0, steps[i].1);
      }
      r := Multiply(k);
    }
  }
}
