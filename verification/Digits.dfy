/** Positional values of digit strings in base 2^w, least significant digit first. */
module Digits {
  import opened Bits

  function Value(ds: seq<int>, w: nat): (v: int)
  {
    if ds == [] then 0 else ds[0] + Shl(Value(ds[1..], w), w)
  }

  lemma {:induction false} ValueAppend(a: seq<int>, b: seq<int>, w: nat)
    ensures Value(a + b, w) == Value(a, w) + Shl(Value(b, w), Times(w, |a|))
  {
    if a == [] {
      assert a + b == b;
    } else {
      assert (a + b)[1..] == a[1..] + b;
      ValueAppend(a[1..], b, w);
      var n := Times(w, |a| - 1);
      ShlAdd(Value(a[1..], w), Shl(Value(b, w), n), w);
      ShlShl(Value(b, w), n, w);
    }
  }

  lemma {:induction false} ValueZeros(ds: seq<int>, w: nat)
    requires forall i :: 0 <= i < |ds| ==> ds[i] == 0
    ensures Value(ds, w) == 0
  {
    if ds != [] { ValueZeros(ds[1..], w); ShlZero(w); }
  }

  lemma ValueSnoc(a: seq<int>, d: int, w: nat)
    ensures Value(a + [d], w) == Value(a, w) + Shl(d, Times(w, |a|))
  {
    ValueAppend(a, [d], w);
    assert [d][1..] == [];
    ShlZero(w);
  }

  /** Zero digits from position n on do not matter. */
  lemma ValuePrefix(ds: seq<int>, n: nat, w: nat)
    requires n <= |ds| && forall i :: n <= i < |ds| ==> ds[i] == 0
    ensures Value(ds, w) == Value(ds[..n], w)
  {
    assert ds == ds[..n] + ds[n..];
    ValueZeros(ds[n..], w);
    ValueAppend(ds[..n], ds[n..], w);
    ShlZero(Times(w, n));
  }

  lemma ValueUpdate(ds: seq<int>, i: nat, d: int, w: nat)
    requires i < |ds|
    ensures Value(ds[i := d], w) == Value(ds, w) + Shl(d - ds[i], Times(w, i))
  {
    var a, b := ds[..i], ds[i + 1..];
    assert ds == a + ([ds[i]] + b) && ds[i := d] == a + ([d] + b);
    ValueAppend(a, [ds[i]] + b, w);
    ValueAppend(a, [d] + b, w);
    assert ([ds[i]] + b)[1..] == b && ([d] + b)[1..] == b;
    ShlAdd(Value([ds[i]] + b, w), d - ds[i], Times(w, i));
  }

  /** Moving 2^w from one digit to the next as a unit keeps the value. */
  lemma ValueCarry(ds: seq<int>, i: nat, c: int, w: nat)
    requires i + 1 < |ds|
    ensures Value(ds[i := ds[i] - Shl(c, w)][i + 1 := ds[i + 1] + c], w) == Value(ds, w)
  {
    ValueUpdate(ds, i, ds[i] - Shl(c, w), w);
    ValueUpdate(ds[i := ds[i] - Shl(c, w)], i + 1, ds[i + 1] + c, w);
    ShlNeg(Shl(c, w), Times(w, i));
    ShlShl(c, w, Times(w, i));
  }
}
