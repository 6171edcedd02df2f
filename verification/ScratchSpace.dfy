/** The scratch space: a stack of frames, from which memory is handed out in order (scratch_impl.h). */
module ScratchSpace {
  import opened Wrappers
  import opened Arith
  import opened Bits
  import opened ScratchSizes
  import Fixed = WnafFixed

  const ALIGNMENT: nat := 16

  /** Up to the next multiple of the alignment. */
  function Aligned(size: nat): (r: nat)
    ensures size <= r < size + ALIGNMENT && r % ALIGNMENT == 0
  {
    (size + ALIGNMENT - 1) / ALIGNMENT * ALIGNMENT
  }

  function Total(sizes: seq<nat>): (r: nat)
  {
    if sizes == [] then 0 else Total(sizes[..|sizes| - 1]) + sizes[|sizes| - 1]
  }

  /** What may still be asked for, when each of the objects may need alignment. */
  function RoomIn(maxSize: nat, sizes: seq<nat>, objects: nat): (r: nat)
    ensures r > 0 ==> Total(sizes) + r + objects * ALIGNMENT == maxSize
    ensures r == 0 ==> maxSize <= Total(sizes) + objects * ALIGNMENT
  {
    var left := maxSize - Total(sizes);
    if left <= objects * ALIGNMENT then 0 else left - objects * ALIGNMENT
  }

  class Scratch {
    const maxSize: nat
    var frameSize: seq<nat>
    var offset: seq<nat>

    constructor (maxSize: nat)
      requires maxSize <= SIZE_MAX
      ensures Valid() && Within() && this.maxSize == maxSize && frameSize == [] && offset == []
    {
      this.maxSize := maxSize;
      frameSize, offset := [], [];
    }

    /** What was handed out of a frame is inside it. */
    ghost predicate Valid()
      reads this
    {
      maxSize <= SIZE_MAX && |frameSize| == |offset| && forall i :: 0 <= i < |offset| ==> offset[i] <= frameSize[i]
    }

    /** The frames fit the space together. */
    ghost predicate Within()
      reads this
    {
      Total(frameSize) <= maxSize
    }

    ghost function Room(objects: nat): (r: nat)
      reads this
    {
      RoomIn(maxSize, frameSize, objects)
    }

    method MaxAllocation(objects: nat) returns (r: nat)
      requires Valid() && Within()
      ensures r == Room(objects)
    {
      var taken := 0;
      for i := 0 to |frameSize|
        invariant taken == Total(frameSize[..i])
      {
        assert frameSize[..i + 1][..i] == frameSize[..i];
        taken := taken + frameSize[i];
      }
      assert frameSize[..|frameSize|] == frameSize;
      if maxSize - taken <= objects * ALIGNMENT {
        return 0;
      }
      r := maxSize - taken - objects * ALIGNMENT;
    }

    /** A new frame on top, with n bytes and room for the alignment of the objects; exactly when that much is left. A
        frame of no bytes is always granted, also where its alignment does not fit. */
    method AllocateFrame(n: nat, objects: nat) returns (ok: bool)
      requires Valid() && Within()
      modifies this
      ensures Valid() && (ok <==> n <= old(Room(objects))) && (n > 0 ==> Within())
      ensures ok ==> frameSize == old(frameSize) + [n + objects * ALIGNMENT] && offset == old(offset) + [0]
      ensures !ok ==> frameSize == old(frameSize) && offset == old(offset)
    {
      var most := MaxAllocation(objects);
      if n > most {
        return false;
      }
      frameSize, offset := frameSize + [n + objects * ALIGNMENT], offset + [0];
      assert frameSize[..|frameSize| - 1] == old(frameSize);
      ok := true;
    }

    method DeallocateFrame()
      requires Valid() && frameSize != []
      modifies this
      ensures Valid() && frameSize == old(frameSize[..|frameSize| - 1]) && offset == old(offset[..|offset| - 1])
    {
      frameSize, offset := frameSize[..|frameSize| - 1], offset[..|offset| - 1];
    }

    /** The next bytes of the top frame, up to alignment; none exactly when they are not there. */
    method Alloc(size: nat) returns (at: Option<nat>)
      requires Valid()
      modifies this
      ensures Valid() && frameSize == old(frameSize)
      ensures at.Some? <==> old(frameSize) != [] &&
                            old(offset[|offset| - 1]) + Aligned(size) <= old(frameSize[|frameSize| - 1])
      ensures at.Some? ==> at.value == old(offset[|offset| - 1]) &&
                           offset == old(offset)[|offset| - 1 := at.value + Aligned(size)]
      ensures at.None? ==> offset == old(offset)
    {
      var rounded := (size + ALIGNMENT - 1) / ALIGNMENT * ALIGNMENT;
      if frameSize == [] || rounded + offset[|offset| - 1] > frameSize[|frameSize| - 1] {
        return None;
      }
      at := Some(offset[|offset| - 1]);
      offset := offset[|offset| - 1 := offset[|offset| - 1] + rounded];
    }
  }

  // ------------------------------------------------------------------------------ the frames of the two algorithms

  const OBJECTS: nat := 6

  /** Where the objects of a frame are: one after the other, each with its size, the last inside the frame. */
  predicate Placed(at: seq<nat>, sizes: seq<nat>, frame: nat)
  {
    && |at| == |sizes| && (forall i :: 0 <= i < |at| - 1 ==> at[i] + sizes[i] <= at[i + 1])
    && (at != [] ==> at[|at| - 1] + sizes[|at| - 1] <= frame)
  }

  /** The offset once the objects are handed out. */
  function AlignedTotal(sizes: seq<nat>): (r: nat)
  {
    if sizes == [] then 0 else AlignedTotal(sizes[..|sizes| - 1]) + Aligned(sizes[|sizes| - 1])
  }

  lemma {:induction false} AlignmentCost(sizes: seq<nat>)
    ensures Total(sizes) <= AlignedTotal(sizes) <= Total(sizes) + |sizes| * ALIGNMENT
  {
    if sizes != [] {
      AlignmentCost(sizes[..|sizes| - 1]);
    }
  }

  lemma {:induction false} PrefixTotal(sizes: seq<nat>, i: nat)
    requires i < |sizes|
    ensures AlignedTotal(sizes[..i]) + Aligned(sizes[i]) <= AlignedTotal(sizes)
    ensures AlignedTotal(sizes[..i + 1]) == AlignedTotal(sizes[..i]) + Aligned(sizes[i])
  {
    assert sizes[..i + 1][..i] == sizes[..i];
    if i == |sizes| - 1 {
      assert sizes[..i + 1] == sizes;
    } else {
      var front := sizes[..|sizes| - 1];
      PrefixTotal(front, i);
      assert front[..i] == sizes[..i] && front[..i + 1] == sizes[..i + 1];
    }
  }

  /** A frame for exactly these objects: none of the allocations runs past it. */
  method FrameFor(s: Scratch, n: nat, sizes: seq<nat>) returns (ok: bool, at: seq<nat>)
    requires s.Valid() && s.Within() && |sizes| == OBJECTS && Total(sizes) <= n
    modifies s
    ensures s.Valid() && (ok <==> n <= old(s.Room(OBJECTS)))
    ensures ok ==> s.frameSize == old(s.frameSize) + [n + OBJECTS * ALIGNMENT]
    ensures ok ==> |s.offset| == |s.frameSize| && s.offset[..|s.offset| - 1] == old(s.offset)
    ensures ok ==> Placed(at, sizes, n + OBJECTS * ALIGNMENT)
    ensures !ok ==> s.frameSize == old(s.frameSize) && s.offset == old(s.offset)
  {
    at := [];
    ok := s.AllocateFrame(n, OBJECTS);
    if !ok {
      return;
    }
    AlignmentCost(sizes);
    for i := 0 to OBJECTS
      invariant s.Valid() && s.frameSize == old(s.frameSize) + [n + OBJECTS * ALIGNMENT]
      invariant |s.offset| == |s.frameSize| && s.offset == old(s.offset) + [AlignedTotal(sizes[..i])]
      invariant |at| == i && forall k :: 0 <= k < i ==> at[k] == AlignedTotal(sizes[..k])
    {
      PrefixTotal(sizes, i);
      var next := s.Alloc(sizes[i]);
      assert next.Some?;
      at := at + [next.value];
    }
    forall i | 0 <= i < OBJECTS - 1 ensures at[i] + sizes[i] <= at[i + 1] {
      PrefixTotal(sizes, i);
    }
    PrefixTotal(sizes, OBJECTS - 1);
  }

  /** What the bucket method allocates for n points and the generator: points, scalars, the state, the states of the
      points, their digits, and the buckets. */
  function BucketObjects(n: nat, w: nat): (sizes: seq<nat>)
  {
    [(n + 1) * SIZEOF_GE, (n + 1) * SIZEOF_SCALAR, SIZEOF_PIPPENGER_STATE, (n + 1) * SIZEOF_BUCKET_POINT,
     (n + 1) * Fixed.WnafSize(w + 1) * SIZEOF_INT, SIZEOF_GEJ * Pow2(w)]
  }

  /** The size asked for is that of the six objects and one int a point more. */
  lemma BucketFrame(n: nat, w: nat)
    ensures ScratchSize(n, w) == Total(BucketObjects(n, w)) + (n + 1) * SIZEOF_INT
  {
    var k, buckets := Fixed.WnafSize(w + 1), SIZEOF_GEJ * Pow2(w);
    TotalOfSix(BucketObjects(n, w));
    TimesIsMul(EntrySize(w), n);
    EntriesSplit(n, k, EntrySize(w));
    assert ScratchSize(n, w) == buckets + SIZEOF_PIPPENGER_STATE + (EntrySize(w) * n + EntrySize(w));
  }

  lemma EntriesSplit(n: nat, k: nat, e: nat)
    requires e == SIZEOF_GE + SIZEOF_SCALAR + SIZEOF_BUCKET_POINT + (k + 1) * SIZEOF_INT
    ensures e * n + e == (n + 1) * SIZEOF_GE + (n + 1) * SIZEOF_SCALAR + (n + 1) * SIZEOF_BUCKET_POINT +
                         (n + 1) * k * SIZEOF_INT + (n + 1) * SIZEOF_INT
  {
    assert e * n + e == e * (n + 1);
    assert (k * SIZEOF_INT) * (n + 1) == (n + 1) * k * SIZEOF_INT;
  }

  lemma TotalNext(s: seq<nat>, n: nat)
    requires n < |s|
    ensures Total(s[..n + 1]) == Total(s[..n]) + s[n]
  {
    assert s[..n + 1][..n] == s[..n];
  }

  lemma TotalOfSix(s: seq<nat>)
    requires |s| == 6
    ensures Total(s) == s[0] + s[1] + s[2] + s[3] + s[4] + s[5]
  {
    TotalNext(s, 0);
    TotalNext(s, 1);
    TotalNext(s, 2);
    TotalNext(s, 3);
    TotalNext(s, 4);
    TotalNext(s, 5);
    assert s[..6] == s;
  }

  /** What the interleaved method allocates: points, scalars, the two tables with their ratios, and the states. */
  function StraussObjects(n: nat): (sizes: seq<nat>)
  {
    [n * SIZEOF_GEJ, n * SIZEOF_SCALAR, n * 8 * SIZEOF_GEJ, n * 8 * SIZEOF_FE, n * 8 * SIZEOF_GE,
     n * SIZEOF_STRAUSS_POINT]
  }

  /** The size asked for is that of the six objects. */
  lemma StraussFrame(n: nat)
    ensures StraussScratchSize(n) == Total(StraussObjects(n))
  {
    TotalOfSix(StraussObjects(n));
  }
}
