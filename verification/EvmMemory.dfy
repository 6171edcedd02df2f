/** Memory growth and copying, with the 64-bit wrap-around of the offsets. */
module EvmMemory {
  import opened Wrappers
  import opened ByteStrings

  const MAX_MEM_SIZE: nat := 0x200_0000
  const TWO64: nat := 0x1_0000_0000_0000_0000

  /** No byte vector is longer than a pointer difference can say. */
  const MAX_VECTOR: nat := 0x7FFF_FFFF_FFFF_FFFF

  type u64 = x: int | 0 <= x < TWO64

  function Add64(a: u64, b: u64): (r: u64)
  {
    if a + b < TWO64 then a + b else a + b - TWO64
  }

  function Zeros(n: nat): (s: seq<byte>)
    ensures |s| == n && forall i :: 0 <= i < n ==> s[i] == 0
  {
    seq(n, _ => 0)
  }

  /** Grow the memory, with zeros, so that the range is inside; fail beyond the limit. */
  function PrepareMemAccess(mem: seq<byte>, offset: u64, size: u64): (r: Option<seq<byte>>)
    ensures r.Some? <==> offset + size <= MAX_MEM_SIZE
    ensures r.Some? ==> |r.value| == (if |mem| < offset + size then offset + size else |mem|) && mem <= r.value
    ensures r.Some? ==> forall i :: |mem| <= i < |r.value| ==> r.value[i] == 0
  {
    var end := Add64(offset, size);
    if end < offset then None
    else if end > MAX_MEM_SIZE then None
    else if end > |mem| then Some(mem + Zeros(end - |mem|)) else Some(mem)
  }

  /** What a copied byte is: the source byte, or the padding past the end of the source. */
  function Source(src: seq<byte>, i: nat, pad: byte): (b: byte)
  {
    if i < |src| then src[i] else pad
  }

  /** The 32 bytes from an offset on, past the end zero, as a number. */
  function WordAt(src: seq<byte>, offset: nat): (w: nat)
  {
    Be(Window(src, offset))
  }

  function Window(src: seq<byte>, offset: nat): (s: seq<byte>)
    ensures |s| == 32 && forall i :: 0 <= i < 32 ==> s[i] == Source(src, offset + i, 0)
  {
    seq<byte>(32, (i: nat) => Source(src, offset + i, 0))
  }

  /** Reads the word byte by byte, and shifts once for all that is missing. */
  method LoadWord(src: seq<byte>, offset: u64) returns (v: nat)
    requires offset + 32 < TWO64
    ensures v == WordAt(src, offset)
  {
    v := 0;
    ghost var all := Window(src, offset);
    for i := 0 to 32
      invariant v == Be(all[..i])
    {
      assert all[..i + 1][..i] == all[..i];
      if offset + i >= |src| {
        assert all == all[..i] + seq(32 - i, _ => 0);
        BeShifted(all[..i], 32 - i);
        return v * Pow256(32 - i);
      }
      v := v * 256 + src[offset + i];
    }
    assert all[..32] == all;
  }

  function CopiedByte(before: seq<byte>, offDst: u64, offSrc: u64, size: u64, src: seq<byte>, pad: byte,
                      i: nat): (b: byte)
  {
    if offDst <= i < offDst + size then Source(src, offSrc + (i - offDst), pad) else Source(before, i, 0)
  }

  /** Every byte of the range is copied or padded, the rest is untouched, new bytes outside the range are zero. */
  function CopyMem(offDst: u64, offSrc: u64, size: u64, dst: seq<byte>, src: seq<byte>,
                   pad: byte): (r: Option<seq<byte>>)
    ensures r.Some? ==> |r.value| <= MAX_MEM_SIZE || |r.value| == |dst|
  {
    if size == 0 then Some(dst)
    else if offDst + size > MAX_MEM_SIZE then None
    else Some(seq(if |dst| < offDst + size then offDst + size else |dst|,
                  (i: nat) => CopiedByte(dst, offDst, offSrc, size, src, pad, i)))
  }

  /** Copy with padding. The end of the source range may wrap; then there is nothing to copy. */
  method CopyMemRaw(offDst: u64, offSrc: u64, size: u64, dst: seq<byte>, src: seq<byte>, pad: byte)
    returns (r: Option<seq<byte>>)
    requires |src| <= MAX_VECTOR && |dst| <= MAX_VECTOR
    ensures r == CopyMem(offDst, offSrc, size, dst, src, pad)
  {
    if size == 0 {
      return Some(dst);
    }
    var lastDst := Add64(offDst, size);
    if lastDst < offDst {
      return None;
    }
    if lastDst > MAX_MEM_SIZE {
      return None;
    }
    var out := dst;
    if lastDst > |dst| {
      out := dst + Zeros(lastDst - |dst|);
    }
    var lastSrc := Add64(offSrc, size);
    var endSrc := if lastSrc < |src| then lastSrc else |src|;
    var remaining := size;
    if endSrc > offSrc {
      out := Overwrite(out, offDst, src[offSrc..endSrc]);
      remaining := lastSrc - endSrc;
    }
    out := Overwrite(out, lastDst - remaining, seq(remaining, _ => pad));
    assert forall i :: 0 <= i < |out| ==> out[i] == CopiedByte(dst, offDst, offSrc, size, src, pad, i);
    assert out == CopyMem(offDst, offSrc, size, dst, src, pad).value;
    r := Some(out);
  }

  /** std::copy onto part of a vector. */
  function Overwrite(s: seq<byte>, at: nat, t: seq<byte>): (r: seq<byte>)
    requires at + |t| <= |s|
    ensures |r| == |s| && forall i :: 0 <= i < |s| ==> r[i] == if at <= i < at + |t| then t[i - at] else s[i]
  {
    s[..at] + t + s[at + |t|..]
  }
}
