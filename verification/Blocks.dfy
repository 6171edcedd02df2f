/** Concatenations of blocks, and where each block sits in them. */
module Blocks {
  import opened Bits

  lemma Reassociate<T>(x: seq<T>, y: seq<T>, z: seq<T>)
    ensures (x + y) + z == x + (y + z)
  {
  }

  function Slots<T>(f: nat -> seq<T>, n: nat): (s: seq<T>)
  {
    if n == 0 then [] else Slots(f, n - 1) + f(n - 1)
  }

  lemma {:induction false} SlotsPrefix<T>(f: nat -> seq<T>, k: nat, n: nat)
    requires k <= n
    ensures Slots(f, k) <= Slots(f, n)
  {
    if k < n {
      SlotsPrefix(f, k, n - 1);
    }
  }

  lemma SlotsNext<T>(f: nat -> seq<T>, k: nat)
    ensures Slots(f, k + 1) == Slots(f, k) + f(k)
  {
  }

  ghost predicate BlockAt<T>(s: seq<T>, at: nat, b: seq<T>)
  {
    at + |b| <= |s| && forall i :: 0 <= i < |b| ==> s[at + i] == b[i]
  }

  /** Block k of the concatenation is f(k). */
  lemma SlotAt<T>(f: nat -> seq<T>, k: nat, n: nat)
    requires k < n
    ensures BlockAt(Slots(f, n), |Slots(f, k)|, f(k))
  {
    SlotsPrefix(f, k + 1, n);
    MiddleOf(Slots(f, k), f(k), Slots(f, n));
  }

  lemma MiddleOf<T>(a: seq<T>, b: seq<T>, s: seq<T>)
    requires a + b <= s
    ensures BlockAt(s, |a|, b)
  {
    forall i | 0 <= i < |b| ensures s[|a| + i] == b[i] {
      assert s[|a| + i] == (a + b)[|a| + i];
    }
  }

  lemma {:induction false} SlotsUniform<T>(f: nat -> seq<T>, w: nat, n: nat)
    requires forall j :: 0 <= j < n ==> |f(j)| == w
    ensures |Slots(f, n)| == Times(w, n)
  {
    if n > 0 {
      SlotsUniform(f, w, n - 1);
    }
  }

  lemma UniformAt<T>(f: nat -> seq<T>, w: nat, n: nat, j: nat)
    requires j < n && forall i :: 0 <= i < n ==> |f(i)| == w
    ensures BlockAt(Slots(f, n), Times(w, j), f(j))
  {
    SlotsUniform(f, w, j);
    SlotAt(f, j, n);
  }

  /** s consists of n blocks of width w. */
  ghost predicate Tiled<T>(s: seq<T>, f: nat -> seq<T>, w: nat, n: nat)
  {
    |s| == Times(w, n) && forall j :: 0 <= j < n ==> BlockAt(s, Times(w, j), f(j))
  }

  lemma SlotsTiled<T>(f: nat -> seq<T>, w: nat, n: nat)
    requires forall i :: 0 <= i < n ==> |f(i)| == w
    ensures Tiled(Slots(f, n), f, w, n)
  {
    SlotsUniform(f, w, n);
    forall j | 0 <= j < n ensures BlockAt(Slots(f, n), Times(w, j), f(j)) {
      UniformAt(f, w, n, j);
    }
  }

  /** After the first `head` elements of s come n blocks of width w. */
  ghost predicate TiledAfter<T>(s: seq<T>, head: nat, f: nat -> seq<T>, w: nat, n: nat)
  {
    forall j :: 0 <= j < n ==> TileAt(s, head, f, w, j)
  }

  ghost predicate TileAt<T>(s: seq<T>, head: nat, f: nat -> seq<T>, w: nat, j: nat)
  {
    BlockAt(s, head + Times(w, j), f(j))
  }

  lemma BlockShift<T>(head: seq<T>, tail: seq<T>, at: nat, b: seq<T>)
    requires BlockAt(tail, at, b)
    ensures BlockAt(head + tail, |head| + at, b)
  {
  }

  lemma ConcatenationTiles<T>(head: seq<T>, f: nat -> seq<T>, w: nat, n: nat)
    requires forall j :: 0 <= j < n ==> |f(j)| == w
    ensures TiledAfter(head + Slots(f, n), |head|, f, w, n)
  {
    SlotsTiled(f, w, n);
    forall j | 0 <= j < n ensures TileAt(head + Slots(f, n), |head|, f, w, j) {
      BlockShift(head, Slots(f, n), Times(w, j), f(j));
    }
  }

  lemma JoinSlices<T>(s: seq<T>, a: nat, b: nat, c: nat)
    requires a <= b <= c <= |s|
    ensures s[a..b] + s[b..c] == s[a..c]
  {
  }

  lemma BlockIsSlice<T>(s: seq<T>, at: nat, b: seq<T>)
    requires BlockAt(s, at, b)
    ensures b == s[at..at + |b|]
  {
  }

  lemma {:induction false} TilesConcatenate<T>(s: seq<T>, head: nat, f: nat -> seq<T>, w: nat, n: nat)
    requires TiledAfter(s, head, f, w, n) && head + Times(w, n) <= |s| && forall j :: 0 <= j < n ==> |f(j)| == w
    ensures s[head..head + Times(w, n)] == Slots(f, n)
  {
    if n > 0 {
      var at := head + Times(w, n - 1);
      TilesConcatenate(s, head, f, w, n - 1);
      assert TileAt(s, head, f, w, n - 1);
      BlockIsSlice(s, at, f(n - 1));
      JoinSlices(s, head, at, at + w);
    }
  }

  lemma {:induction false} SlotsEqual<T>(f: nat -> seq<T>, g: nat -> seq<T>, n: nat)
    requires forall j :: 0 <= j < n ==> f(j) == g(j)
    ensures Slots(f, n) == Slots(g, n)
  {
    if n > 0 {
      SlotsEqual(f, g, n - 1);
    }
  }

  /** Cutting a sequence and joining the pieces gives it back. */
  lemma {:induction false} SlotsOfCuts<T>(f: nat -> seq<T>, cuts: nat -> nat, v: seq<T>, n: nat)
    requires cuts(0) == 0 && cuts(n) <= |v|
    requires forall i :: 0 <= i < n ==> Piece(f, cuts, v, i)
    ensures Slots(f, n) == v[..cuts(n)]
  {
    if n > 0 {
      assert Piece(f, cuts, v, n - 1);
      SlotsOfCuts(f, cuts, v, n - 1);
      PrefixGrows(v, cuts(n - 1), cuts(n));
    }
  }

  ghost predicate Piece<T>(f: nat -> seq<T>, cuts: nat -> nat, v: seq<T>, i: nat)
  {
    cuts(i) <= cuts(i + 1) <= |v| && f(i) == v[cuts(i)..cuts(i + 1)]
  }

  lemma PrefixGrows<T>(v: seq<T>, a: nat, b: nat)
    requires a <= b <= |v|
    ensures v[..a] + v[a..b] == v[..b]
  {
  }

  ghost predicate AllTrue(g: nat -> bool, n: nat)
  {
    n == 0 || (AllTrue(g, n - 1) && g(n - 1))
  }

  lemma {:induction false} AllTrueFails(g: nat -> bool, j: nat, n: nat)
    requires j < n && !g(j)
    ensures !AllTrue(g, n)
  {
    if j < n - 1 {
      AllTrueFails(g, j, n - 1);
    }
  }

  /** With equal block widths, equal concatenations have equal blocks. */
  lemma SlotsInjective<T>(f: nat -> seq<T>, g: nat -> seq<T>, w: nat, n: nat, k: nat)
    requires forall j :: 0 <= j < n ==> |f(j)| == w && |g(j)| == w
    requires Slots(f, n) == Slots(g, n) && k < n
    ensures f(k) == g(k)
  {
    SlotsUniform(f, w, k);
    SlotsUniform(g, w, k);
    SlotAt(f, k, n);
    SlotAt(g, k, n);
  }
}
