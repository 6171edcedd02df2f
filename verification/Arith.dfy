/** Integer facts shared by the scalar recodings and the field arithmetic. */
module Arith {

  function Pow2(n: nat): (r: nat)
    ensures r >= 1
  {
    if n == 0 then 1 else 2 * Pow2(n - 1)
  }

  lemma {:induction false} Pow2Add(a: nat, b: nat)
    ensures Pow2(a + b) == Pow2(a) * Pow2(b)
  {
    if a > 0 {
      Pow2Add(a - 1, b);
      assert Pow2(a + b) == 2 * Pow2(a - 1 + b);
      assert Pow2(a) * Pow2(b) == 2 * (Pow2(a - 1) * Pow2(b));
    }
  }

  lemma {:induction false} Pow2Mono(a: nat, b: nat)
    requires a <= b
    ensures Pow2(a) <= Pow2(b)
  {
    if a < b { Pow2Mono(a, b - 1); }
  }

  lemma Pow2Even(n: nat)
    requires n > 0
    ensures Pow2(n) % 2 == 0 && Pow2(n) >= 2
  {
  }

  lemma Pow2Square(n: nat, v: int)
    requires Pow2(n) == v
    ensures Pow2(n + n) == v * v
  {
    Pow2Add(n, n);
  }

  lemma Pow2Literals()
    ensures Pow2(16) == 0x1_0000
    ensures Pow2(32) == 0x1_0000_0000
    ensures Pow2(64) == 0x1_0000_0000_0000_0000
  {
    assert Pow2(2) == 4;
    Pow2Square(2, 4);
    Pow2Square(4, 16);
    Pow2Square(8, 0x100);
    Pow2Square(16, 0x1_0000);
    Pow2Square(32, 0x1_0000_0000);
  }

  lemma Pow2Of256()
    ensures Pow2(256) == 0x1_0000_0000_0000_0000_0000_0000_0000_0000_0000_0000_0000_0000_0000_0000_0000_0000
  {
    Pow2Literals();
    Pow2Square(64, 0x1_0000_0000_0000_0000);
    Pow2Square(128, 0x1_0000_0000_0000_0000_0000_0000_0000_0000);
  }

  lemma MulMono(a: int, b: int, c: int)
    requires a <= b && 0 <= c
    ensures a * c <= b * c
  {
  }

  /** A quotient and remainder determine each other: the workhorse for every division below. */
  lemma DivModUnique(x: int, d: int, q: int, r: int)
    requires d > 0 && x == q * d + r && 0 <= r < d
    ensures x / d == q && x % d == r
  {
    var q', r' := x / d, x % d;
    assert x == q' * d + r' && 0 <= r' < d;
    assert (q - q') * d == r' - r;
    if q > q' { MulMono(1, q - q', d); }
    assert (q' - q) * d == r - r';
    if q < q' { MulMono(1, q' - q, d); }
  }

  lemma DivModEq(x: int, d: int)
    requires d > 0
    ensures x == (x / d) * d + x % d && 0 <= x % d < d
  {
  }

  /** Adding a multiple of the modulus changes nothing. */
  lemma ModShift(x: int, k: int, m: int)
    requires m > 0
    ensures (x + k * m) % m == x % m
  {
    DivModEq(x, m);
    assert x + k * m == (x / m + k) * m + x % m;
    DivModUnique(x + k * m, m, x / m + k, x % m);
  }

  ghost predicate Congruent(x: int, y: int, m: int)
    requires m > 0
  {
    x % m == y % m
  }

  /** Congruence is divisibility of the difference. */
  lemma CongruentByMultiple(x: int, y: int, k: int, m: int)
    requires m > 0 && x - y == k * m
    ensures Congruent(x, y, m)
  {
    ModShift(y, k, m);
  }

  lemma CongruentQuotient(x: int, y: int, m: int) returns (k: int)
    requires m > 0 && Congruent(x, y, m)
    ensures x - y == k * m
  {
    DivModEq(x, m);
    DivModEq(y, m);
    k := x / m - y / m;
    assert k * m == (x / m) * m - (y / m) * m;
  }

  lemma CongruentMul(x: int, y: int, u: int, v: int, m: int)
    requires m > 0 && Congruent(x, y, m) && Congruent(u, v, m)
    ensures Congruent(x * u, y * v, m)
  {
    var k := CongruentQuotient(x, y, m);
    var l := CongruentQuotient(u, v, m);
    assert x * u - y * v == x * (u - v) + (x - y) * v;
    assert x * (u - v) == (x * l) * m;
    assert (x - y) * v == (k * v) * m;
    assert x * u - y * v == (x * l + k * v) * m;
    CongruentByMultiple(x * u, y * v, x * l + k * v, m);
  }

  lemma CongruentAdd(x: int, y: int, u: int, v: int, m: int)
    requires m > 0 && Congruent(x, y, m) && Congruent(u, v, m)
    ensures Congruent(x + u, y + v, m) && Congruent(x - u, y - v, m)
  {
    var k := CongruentQuotient(x, y, m);
    var l := CongruentQuotient(u, v, m);
    assert (k + l) * m == k * m + l * m && (k - l) * m == k * m - l * m;
    CongruentByMultiple(x + u, y + v, k + l, m);
    CongruentByMultiple(x - u, y - v, k - l, m);
  }

  lemma CongruentMod(x: int, m: int)
    requires m > 0
    ensures Congruent(x % m, x, m)
  {
    DivModEq(x, m);
    DivModUnique(x % m, m, 0, x % m);
  }
}
