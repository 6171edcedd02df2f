/** Byte strings and their big-endian values. */
module ByteStrings {
  type byte = x: int | 0 <= x < 256

  /** Big-endian value. */
  function Be(s: seq<byte>): (v: nat)
  {
    if s == [] then 0 else 256 * Be(s[..|s| - 1]) + s[|s| - 1]
  }

  /** Shortest big-endian form: no leading zero byte, nothing at all for zero. */
  function Bytes(v: nat): (s: seq<byte>)
    ensures s == [] <==> v == 0
  {
    if v == 0 then [] else Bytes(v / 256) + [v % 256]
  }

  function Pow256(k: nat): (r: nat)
    ensures r > 0
  {
    if k == 0 then 1 else 256 * Pow256(k - 1)
  }

  /** Exactly k bytes, big-endian. */
  function Fixed(v: nat, k: nat): (s: seq<byte>)
    ensures |s| == k
  {
    if k == 0 then [] else Fixed(v / 256, k - 1) + [v % 256]
  }

  lemma {:induction false} BeBytes(v: nat)
    ensures Be(Bytes(v)) == v && (v > 0 ==> Bytes(v)[0] != 0)
  {
    if v > 0 {
      BeBytes(v / 256);
      assert Bytes(v)[..|Bytes(v)| - 1] == Bytes(v / 256);
    }
  }

  lemma {:induction false} BytesBe(s: seq<byte>)
    requires s == [] || s[0] != 0
    ensures Bytes(Be(s)) == s
  {
    if s != [] {
      var front := s[..|s| - 1];
      BytesBe(front);
      if front == [] {
        assert s == [s[0]];
      } else {
        BePositive(front);
      }
      assert Be(s) / 256 == Be(front) && Be(s) % 256 == s[|s| - 1];
      assert s == front + [s[|s| - 1]];
    }
  }

  lemma {:induction false} BePositive(s: seq<byte>)
    requires s != [] && s[0] != 0
    ensures Be(s) > 0
  {
    if |s| > 1 {
      BePositive(s[..|s| - 1]);
    }
  }

  lemma {:induction false} BeFixed(v: nat, k: nat)
    requires v < Pow256(k)
    ensures Be(Fixed(v, k)) == v
  {
    if k > 0 {
      BeFixed(v / 256, k - 1);
      assert Fixed(v, k)[..k - 1] == Fixed(v / 256, k - 1);
    }
  }

  /** The bytes of a value are the ones it was read from. */
  lemma {:induction false} FixedBe(s: seq<byte>)
    ensures Fixed(Be(s), |s|) == s
  {
    if s != [] {
      FixedBe(s[..|s| - 1]);
      assert Be(s) / 256 == Be(s[..|s| - 1]) && Be(s) % 256 == s[|s| - 1];
      assert s == s[..|s| - 1] + [s[|s| - 1]];
    }
  }

  /** Zero bytes at the end multiply. */
  lemma {:induction false} BeShifted(s: seq<byte>, n: nat)
    ensures Be(s + seq(n, _ => 0)) == Be(s) * Pow256(n)
  {
    var t := s + seq(n, _ => 0);
    if n == 0 {
      assert t == s;
    } else {
      BeShifted(s, n - 1);
      assert t[..|t| - 1] == s + seq(n - 1, _ => 0);
    }
  }

  lemma {:induction false} BeBound(s: seq<byte>)
    ensures Be(s) < Pow256(|s|)
  {
    if s != [] {
      BeBound(s[..|s| - 1]);
    }
  }

  /** A value with a nonzero leading byte reaches the power below its length. */
  lemma {:induction false} BeLower(s: seq<byte>)
    requires s != [] && s[0] != 0
    ensures Pow256(|s| - 1) <= Be(s)
  {
    if |s| > 1 {
      BeLower(s[..|s| - 1]);
    }
  }

  lemma {:induction false} Pow256Mono(a: nat, b: nat)
    requires a <= b
    ensures Pow256(a) <= Pow256(b)
  {
    if a < b {
      Pow256Mono(a, b - 1);
    }
  }

  lemma {:induction false} Pow256Add(a: nat, b: nat)
    ensures Pow256(a + b) == Pow256(a) * Pow256(b)
  {
    if a > 0 {
      Pow256Add(a - 1, b);
      assert 256 * (Pow256(a - 1) * Pow256(b)) == (256 * Pow256(a - 1)) * Pow256(b);
    }
  }

  lemma Pow256Double(a: nat, v: nat)
    requires Pow256(a) == v
    ensures Pow256(2 * a) == v * v
  {
    Pow256Add(a, a);
  }

  /** A prefix is worth no more than the whole. */
  lemma {:induction false} BePrefix(s: seq<byte>, j: nat)
    requires j <= |s|
    ensures Be(s[..j]) <= Be(s)
  {
    if j == |s| {
      assert s[..j] == s;
    } else {
      var front := s[..|s| - 1];
      BePrefix(front, j);
      assert front[..j] == s[..j];
    }
  }

  lemma {:induction false} BeLeadingZero(s: seq<byte>)
    requires s != [] && s[0] == 0
    ensures Be(s) == Be(s[1..])
  {
    if |s| > 1 {
      var front := s[..|s| - 1];
      BeLeadingZero(front);
      assert front[1..] == s[1..][..|s| - 2];
    }
  }

  lemma {:induction false} BeZeros(z: nat, s: seq<byte>)
    ensures Be(seq(z, _ => 0) + s) == Be(s)
  {
    var zs: seq<byte> := seq(z, _ => 0);
    if z == 0 {
      assert zs + s == s;
    } else {
      BeZeros(z - 1, s);
      BeLeadingZero(zs + s);
      assert (zs + s)[1..] == seq(z - 1, _ => 0) + s;
    }
  }
}
