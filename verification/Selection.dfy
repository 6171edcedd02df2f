/** Choosing, from parallel lists of scalars and points, the positions that contribute. */
module Selection {
  import opened Groups

  ghost predicate Within(poss: seq<nat>, n: nat)
  {
    forall k :: 0 <= k < |poss| ==> poss[k] < n
  }

  ghost function Pick<T>(xs: seq<T>, poss: seq<nat>): (r: seq<T>)
    requires Within(poss, |xs|)
  {
    seq(|poss|, k requires 0 <= k < |poss| => xs[poss[k]])
  }

  /** The chosen positions account for the whole sum over the first np entries. */
  ghost predicate Chosen<P>(g: Group<P>, poss: seq<nat>, sc: seq<nat>, pt: seq<P>, np: nat)
    requires np <= |sc| == |pt|
  {
    && Within(poss, |sc|)
    && Lin(g, Pick(sc, poss), Pick(pt, poss)) == Lin(g, sc[..np], pt[..np])
  }

  lemma ChooseNext<P(!new)>(g: Group<P>, poss: seq<nat>, sc: seq<nat>, pt: seq<P>, np: nat)
    requires Abelian(g) && np < |sc| == |pt| && Chosen(g, poss, sc, pt, np)
    ensures Chosen(g, poss + [np], sc, pt, np + 1)
  {
    assert sc[..np + 1] == sc[..np] + [sc[np]] && pt[..np + 1] == pt[..np] + [pt[np]];
    LinSnoc(g, sc[..np], pt[..np], sc[np], pt[np]);
    LinSnoc(g, Pick(sc, poss), Pick(pt, poss), sc[np], pt[np]);
    assert Pick(sc, poss + [np]) == Pick(sc, poss) + [sc[np]] && Pick(pt, poss + [np]) == Pick(pt, poss) + [pt[np]];
  }

  /** Zero scalars and points at infinity contribute nothing, so skipping them is sound. */
  lemma SkipNext<P(!new)>(g: Group<P>, poss: seq<nat>, sc: seq<nat>, pt: seq<P>, np: nat)
    requires Abelian(g) && np < |sc| == |pt| && Chosen(g, poss, sc, pt, np) && (sc[np] == 0 || pt[np] == g.zero)
    ensures Chosen(g, poss, sc, pt, np + 1)
  {
    assert sc[..np + 1] == sc[..np] + [sc[np]] && pt[..np + 1] == pt[..np] + [pt[np]];
    LinSnoc(g, sc[..np], pt[..np], sc[np], pt[np]);
    SmulZero(g, sc[np]);
    ZeroLeft(g, Lin(g, sc[..np], pt[..np]));
  }
}
