/** The strict DER reader and writer for signatures (X.690 sections 8.1.3 and 8.3). */
module Der {
  import opened Wrappers
  import opened ByteStrings
  import opened Scalars

  const TWO64: nat := 0x1_0000_0000_0000_0000

  /** Addition of size_t values, modulo 2^64. */
  function Add64(a: nat, b: nat): (r: int)
  {
    if a + b < TWO64 then a + b else a + b - TWO64
  }

  /** Conversion of a size_t to a 32-bit int. */
  function ToInt(v: nat): (r: int)
  {
    var low := v % 0x1_0000_0000;
    if low < 0x8000_0000 then low else low - 0x1_0000_0000
  }

  /** The width in bytes of a length field that starts with b. */
  function Width(b: byte): (w: nat)
  {
    if b < 128 then 1 else b - 127
  }

  /** The length a field at pos stands for. */
  function LenValue(sig: seq<byte>, pos: nat): (m: nat)
    requires pos < |sig|
  {
    var w := Width(sig[pos]);
    if sig[pos] < 128 || pos + w > |sig| then sig[pos] else Be(sig[pos + 1..pos + w])
  }

  /** A length field DER allows: short form, or the shortest long form of a length that lies within the input. */
  predicate LenOk(sig: seq<byte>, pos: nat)
  {
    && pos < |sig| && pos + Width(sig[pos]) <= |sig|
    && (sig[pos] >= 128 ==>
          && 2 <= Width(sig[pos]) <= 9 && sig[pos + 1] != 0
          && 128 <= LenValue(sig, pos) <= |sig| - pos - Width(sig[pos]))
  }

  /** The reader's result: the length as an int with the position after it, or -1. */
  ghost predicate LenResult(sig: seq<byte>, pos: nat, ret: int, next: nat)
  {
    if LenOk(sig, pos) then ret == ToInt(LenValue(sig, pos)) && next == pos + Width(sig[pos]) else ret == -1
  }

  /** Read a length field at pos. */
  method ReadLen(sig: seq<byte>, pos: nat) returns (ret: int, next: nat)
    requires pos <= |sig|
    ensures pos <= next <= |sig|
    ensures LenResult(sig, pos, ret, next)
  {
    next := pos;
    if pos >= |sig| {
      return -1, next;
    }
    var b1 := sig[pos];
    next := pos + 1;
    if b1 == 0xFF {
      return -1, next;
    }
    if b1 < 0x80 {
      return b1, next;
    }
    if b1 == 0x80 {
      return -1, next;
    }
    ret, next := ReadLong(sig, pos);
  }

  /** One more byte of a long-form length, in 64 bits. */
  lemma NextByte(sig: seq<byte>, start: nat, next: nat)
    requires start <= next < |sig| && next - start < 8
    ensures Be(sig[start..next + 1]) == (Be(sig[start..next]) * 256) % TWO64 + sig[next] < TWO64
  {
    var s := sig[start..next + 1];
    assert s[..|s| - 1] == sig[start..next];
    BeBound(s);
    Pow256Mono(|s|, 8);
    assert Pow256(8) == TWO64;
  }

  /** A prefix of a long form is worth no more than the length. */
  lemma PartialLength(sig: seq<byte>, pos: nat, next: nat)
    requires pos < |sig| && sig[pos] > 128 && pos + 1 <= next <= pos + Width(sig[pos]) <= |sig|
    ensures Be(sig[pos + 1..next]) <= LenValue(sig, pos)
  {
    var s := sig[pos + 1..pos + Width(sig[pos])];
    BePrefix(s, next - pos - 1);
    assert s[..next - pos - 1] == sig[pos + 1..next];
  }

  /** Accumulate the k bytes of a long form; stop as soon as the length overruns the input. */
  method Accumulate(sig: seq<byte>, pos: nat, k: nat) returns (ok: bool, r: nat, next: nat)
    requires pos + 1 + k <= |sig| && 1 <= k <= 8 && sig[pos] == 128 + k
    ensures pos <= next <= |sig|
    ensures ok ==> next == pos + 1 + k && r == LenValue(sig, pos) < TWO64
    ensures ok ==> r <= |sig| - next || r == TWO64 - 1
    ensures !ok ==> LenValue(sig, pos) > |sig| - pos - 1 - k
  {
    r, next := 0, pos + 1;
    var lenLeft := k;
    while lenLeft > 0
      invariant 0 <= lenLeft <= k && next + lenLeft == pos + 1 + k
      invariant r == Be(sig[pos + 1..next]) && 0 <= r < TWO64
      invariant lenLeft < k ==> Add64(r, lenLeft + 1) <= |sig| - next + 1
    {
      NextByte(sig, pos + 1, next);
      r := (r * 256) % TWO64 + sig[next];
      if Add64(r, lenLeft) > |sig| - next {
        PartialLength(sig, pos, next + 1);
        return false, r, next;
      }
      next := next + 1;
      lenLeft := lenLeft - 1;
    }
    ok := true;
  }

  /** The long form, after its first byte. */
  method ReadLong(sig: seq<byte>, pos: nat) returns (ret: int, next: nat)
    requires pos < |sig| && 128 < sig[pos] < 255
    ensures pos <= next <= |sig|
    ensures LenResult(sig, pos, ret, next)
  {
    var lenLeft := sig[pos] - 128;
    next := pos + 1;
    if lenLeft > |sig| - next {
      return -1, next;
    }
    if sig[next] == 0 {
      return -1, next;
    }
    if lenLeft > 8 {
      return -1, next;
    }
    var ok, r;
    ok, r, next := Accumulate(sig, pos, lenLeft);
    if !ok {
      return -1, next;
    }
    if r < 128 {
      return -1, next;
    }
    ret := ToInt(r);
  }

  /** Content octets of a DER integer: at least one, without redundant padding of either sign. */
  predicate Minimal(c: seq<byte>)
  {
    && c != []
    && (|c| > 1 && c[0] == 0 ==> c[1] >= 128)
    && (|c| > 1 && c[0] == 255 ==> c[1] < 128)
  }

  /** The content is negative or does not fit a scalar. */
  predicate Overflows(c: seq<byte>)
    requires c != []
  {
    c[0] >= 128 || Be(c) >= N
  }

  /** What the reader makes of the content: its value, or zero when it overflows. */
  function ScalarOf(c: seq<byte>): (r: Scalar)
    requires c != []
  {
    if Overflows(c) then 0 else Be(c)
  }

  /** The content octets of a natural number. */
  function IntBytes(v: nat): (c: seq<byte>)
    ensures c != []
  {
    if v == 0 then [0] else if Bytes(v)[0] >= 128 then [0] + Bytes(v) else Bytes(v)
  }

  lemma IntBytesMinimal(v: nat)
    ensures Minimal(IntBytes(v)) && IntBytes(v)[0] < 128 && Be(IntBytes(v)) == v
  {
    BeBytes(v);
    if v > 0 && Bytes(v)[0] >= 128 {
      BeLeadingZero(IntBytes(v));
      assert IntBytes(v)[1..] == Bytes(v);
    }
  }

  /** Minimal nonnegative contents are determined by their value. */
  lemma IntBytesUnique(c: seq<byte>)
    requires Minimal(c) && c[0] < 128
    ensures c == IntBytes(Be(c))
  {
    if c[0] == 0 {
      BeLeadingZero(c);
      if |c| > 1 {
        BytesBe(c[1..]);
        BePositive(c[1..]);
        assert c == [0] + c[1..];
      } else {
        assert c == [0];
      }
    } else {
      BytesBe(c);
      BePositive(c);
    }
  }

  /** Skipping zero bytes keeps the value; what is left of more than 32 bytes is at least 2^256. */
  lemma LongOverflows(s: seq<byte>)
    requires |s| > 32 && s[0] != 0
    ensures Be(s) >= N
  {
    BeLower(s);
    Pow256Mono(32, |s| - 1);
    Pow256Of32();
  }

  lemma Pow256Of32()
    ensures Pow256(32) == 0x1_0000000000000000_0000000000000000_0000000000000000_0000000000000000
  {
    assert Pow256(8) == 0x1_0000000000000000;
    FourTimes(8, 0x1_0000000000000000);
  }

  lemma FourTimes(k: nat, v: nat)
    requires Pow256(k) == v
    ensures Pow256(4 * k) == (v * v) * (v * v)
  {
    Pow256Double(k, v);
    Pow256Double(2 * k, v * v);
  }

  /** Read 32 bytes as a scalar, reporting whether they reach n. */
  method SetB32(ra: seq<byte>) returns (r: Scalar, overflow: bool)
    requires |ra| == 32
    ensures overflow <==> Be(ra) >= N
    ensures r == Be(ra) % N
  {
    BeBound(ra);
    Pow256Of32();
    var v := Be(ra);
    overflow := v >= N;
    r := if overflow then v - N else v;
  }

  /** The value of the nonzero-led content bytes s, or zero when it overflows. */
  method LoadScalar(s: seq<byte>, negative: bool) returns (r: Scalar)
    requires s == [] || s[0] != 0
    ensures r == if negative || Be(s) >= N then 0 else Be(s)
  {
    var overflow := negative;
    r := 0;
    if |s| > 32 {
      LongOverflows(s);
      overflow := true;
    }
    if !overflow {
      var ra := seq(32 - |s|, _ => 0) + s;
      BeZeros(32 - |s|, s);
      r, overflow := SetB32(ra);
    }
    if overflow {
      r := 0;
    }
  }

  /** Where the content of an element at pos starts and ends. */
  function ContentStart(sig: seq<byte>, pos: nat): (start: nat)
    requires pos + 1 < |sig|
  {
    pos + 1 + Width(sig[pos + 1])
  }

  function ContentEnd(sig: seq<byte>, pos: nat): (end: nat)
    requires pos + 1 < |sig|
  {
    ContentStart(sig, pos) + LenValue(sig, pos + 1)
  }

  /** An element with this tag, a DER length and its whole content is at pos. */
  predicate ElementOk(sig: seq<byte>, pos: nat, tag: byte)
  {
    pos < |sig| && sig[pos] == tag && LenOk(sig, pos + 1) && ContentEnd(sig, pos) <= |sig|
  }

  function Content(sig: seq<byte>, pos: nat, tag: byte): (c: seq<byte>)
    requires ElementOk(sig, pos, tag)
  {
    sig[ContentStart(sig, pos)..ContentEnd(sig, pos)]
  }

  /** A minimally padded integer is at pos. */
  predicate IntOk(sig: seq<byte>, pos: nat)
  {
    ElementOk(sig, pos, 0x02) && Minimal(Content(sig, pos, 0x02))
  }

  ghost predicate IntResult(sig: seq<byte>, pos: nat, ok: bool, r: Scalar, next: nat)
  {
    && (ok <==> IntOk(sig, pos))
    && (ok ==> r == ScalarOf(Content(sig, pos, 0x02)) && next == ContentEnd(sig, pos))
  }

  /** The length of an element at pos after its conversion to an int. */
  function IntLength(sig: seq<byte>, pos: nat): (len: int)
    requires pos + 1 < |sig|
  {
    ToInt(LenValue(sig, pos + 1))
  }

  /** What the reader takes for an integer at pos, in an input of any size: its length is the one the int holds. */
  predicate ReadsInt(sig: seq<byte>, pos: nat)
  {
    && pos < |sig| && sig[pos] == 0x02 && LenOk(sig, pos + 1)
    && 0 < IntLength(sig, pos) && ContentStart(sig, pos) + IntLength(sig, pos) <= |sig|
    && Minimal(ReadContents(sig, pos))
  }

  function ReadContents(sig: seq<byte>, pos: nat): (c: seq<byte>)
    requires pos + 1 < |sig| && 0 < IntLength(sig, pos) && ContentStart(sig, pos) + IntLength(sig, pos) <= |sig|
  {
    sig[ContentStart(sig, pos)..ContentStart(sig, pos) + IntLength(sig, pos)]
  }

  ghost predicate ReadResult(sig: seq<byte>, pos: nat, ok: bool, r: Scalar, next: nat)
  {
    && (ok <==> ReadsInt(sig, pos))
    && (ok ==> r == ScalarOf(ReadContents(sig, pos)) && next == ContentStart(sig, pos) + IntLength(sig, pos))
  }

  /** Where an int can measure the input, that is a minimally padded integer. */
  lemma ReadsShort(sig: seq<byte>, pos: nat, ok: bool, r: Scalar, next: nat)
    requires pos <= |sig| && |sig| - pos < 0x8000_0000 && ReadResult(sig, pos, ok, r, next)
    ensures IntResult(sig, pos, ok, r, next)
  {
    if pos + 1 < |sig| && LenOk(sig, pos + 1) {
      assert LenValue(sig, pos + 1) < 0x8000_0000;
    }
  }

  /** Read an integer at pos; a negative or too large one reads as zero. */
  method ParseInteger(sig: seq<byte>, pos: nat) returns (ok: bool, r: Scalar, next: nat)
    requires pos <= |sig|
    ensures pos <= next <= |sig|
    ensures ReadResult(sig, pos, ok, r, next)
  {
    ok, r, next := false, 0, pos;
    if pos == |sig| || sig[pos] != 0x02 {
      return;
    }
    var rlen;
    rlen, next := ReadLen(sig, pos + 1);
    if rlen <= 0 || next + rlen > |sig| {
      return;
    }
    if sig[next] == 0x00 && rlen > 1 && sig[next + 1] < 0x80 {
      return;
    }
    if sig[next] == 0xFF && rlen > 1 && sig[next + 1] >= 0x80 {
      return;
    }
    r := ReadContent(sig, next, rlen);
    next := next + rlen;
    ok := true;
  }

  /** Skip leading zeros and load what is left. */
  method ReadContent(sig: seq<byte>, start: nat, len: nat) returns (r: Scalar)
    requires 0 < len && start + len <= |sig|
    ensures r == ScalarOf(sig[start..start + len])
  {
    var next, rlen := start, len;
    var overflow := sig[next] >= 0x80;
    ghost var end := start + len;
    while rlen > 0 && sig[next] == 0
      invariant 0 <= rlen && next + rlen == end
      invariant Be(sig[next..end]) == Be(sig[start..end])
    {
      BeLeadingZero(sig[next..end]);
      assert sig[next..end][1..] == sig[next + 1..end];
      rlen := rlen - 1;
      next := next + 1;
    }
    r := LoadScalar(sig[next..next + rlen], overflow);
  }

  /** A sequence element that fills the input, of a size an int can hold. */
  predicate EnvelopeOk(sig: seq<byte>)
  {
    ElementOk(sig, 0, 0x30) && ContentEnd(sig, 0) == |sig| && |sig| - ContentStart(sig, 0) < 0x8000_0000
  }

  /** Exactly two integers in the sequence. */
  predicate SigOk(sig: seq<byte>)
  {
    && EnvelopeOk(sig)
    && IntOk(sig, First(sig)) && IntOk(sig, Second(sig)) && ContentEnd(sig, Second(sig)) == |sig|
  }

  /** Positions of the two integers. */
  function First(sig: seq<byte>): (pos: nat)
    requires ElementOk(sig, 0, 0x30)
  {
    ContentStart(sig, 0)
  }

  function Second(sig: seq<byte>): (pos: nat)
    requires ElementOk(sig, 0, 0x30) && IntOk(sig, First(sig))
  {
    ContentEnd(sig, First(sig))
  }

  /** The signature the bytes stand for. */
  function Parsed(sig: seq<byte>): (r: Option<(Scalar, Scalar)>)
  {
    if SigOk(sig) then Some((ScalarOf(Content(sig, First(sig), 0x02)), ScalarOf(Content(sig, Second(sig), 0x02))))
      else None
  }

  /** The sequence header: it must cover the whole input. */
  method ParseEnvelope(sig: seq<byte>) returns (ok: bool, pos: nat)
    ensures ok <==> EnvelopeOk(sig)
    ensures ok ==> pos == ContentStart(sig, 0) && pos <= |sig|
  {
    ok, pos := false, 0;
    if |sig| == 0 || sig[0] != 0x30 {
      return;
    }
    var rlen;
    rlen, pos := ReadLen(sig, 1);
    if rlen < 0 || pos + rlen > |sig| {
      return;
    }
    ok := pos + rlen == |sig|;
  }

  /** Read a signature; everything but two integers in a sequence that fills the input is refused. */
  method SigParse(sig: seq<byte>) returns (ok: bool, r: Scalar, s: Scalar)
    ensures Parsed(sig) == if ok then Some((r, s)) else None
  {
    var pos;
    r, s := 0, 0;
    ok, pos := ParseEnvelope(sig);
    if !ok {
      return;
    }
    ghost var first := pos;
    ok, r, pos := ParseInteger(sig, pos);
    ReadsShort(sig, first, ok, r, pos);
    if !ok {
      return;
    }
    ghost var second := pos;
    ok, s, pos := ParseInteger(sig, pos);
    ReadsShort(sig, second, ok, s, pos);
    if !ok {
      return;
    }
    ok := pos == |sig|;
  }

  /** The one length encoding DER allows for m: short form below 128, else the shortest long form. */
  function LenBytes(m: nat): (s: seq<byte>)
    requires m < TWO64
  {
    if m < 128 then [m] else LongLength(m); [128 + |Bytes(m)|] + Bytes(m)
  }

  lemma LongLength(m: nat)
    requires m < TWO64
    ensures |Bytes(m)| <= 8
  {
    BeBytes(m);
    assert Pow256(8) == TWO64;
    if |Bytes(m)| > 8 {
      BeLower(Bytes(m));
      Pow256Mono(8, |Bytes(m)| - 1);
    }
  }

  predicate At(sig: seq<byte>, pos: nat, s: seq<byte>)
  {
    pos + |s| <= |sig| && sig[pos..pos + |s|] == s
  }

  lemma AtCons(sig: seq<byte>, pos: nat, tag: byte, rest: seq<byte>)
    ensures At(sig, pos, [tag] + rest) <==> pos < |sig| && sig[pos] == tag && At(sig, pos + 1, rest)
  {
    var end := pos + 1 + |rest|;
    if end <= |sig| {
      assert sig[pos..end] == [sig[pos]] + sig[pos + 1..end];
      if At(sig, pos, [tag] + rest) {
        var at := sig[pos..end];
        assert sig[pos] == at[0];
        assert sig[pos + 1..end] == at[1..] == rest;
      }
    }
  }

  lemma AtJoin(sig: seq<byte>, pos: nat, l: seq<byte>, c: seq<byte>)
    ensures At(sig, pos, l + c) <==> At(sig, pos, l) && At(sig, pos + |l|, c)
  {
    var end := pos + |l| + |c|;
    if end <= |sig| {
      assert sig[pos..end] == sig[pos..pos + |l|] + sig[pos + |l|..end];
      if At(sig, pos, l + c) {
        var at := sig[pos..end];
        assert sig[pos..pos + |l|] == at[..|l|] == l;
        assert sig[pos + |l|..end] == at[|l|..] == c;
      }
    }
  }

  /** A DER element: tag, length, content. */
  function Tlv(tag: byte, c: seq<byte>): (s: seq<byte>)
    requires |c| < TWO64
  {
    [tag] + LenBytes(|c|) + c
  }

  /** What an accepted length field is: the encoding of its value. */
  lemma LenEncodes(sig: seq<byte>, pos: nat)
    requires LenOk(sig, pos)
    ensures LenValue(sig, pos) < TWO64 && At(sig, pos, LenBytes(LenValue(sig, pos)))
    ensures |LenBytes(LenValue(sig, pos))| == Width(sig[pos])
  {
    if sig[pos] < 128 {
      assert sig[pos..pos + 1] == [sig[pos]];
    } else {
      var s := sig[pos + 1..pos + Width(sig[pos])];
      LongBytes(s, LenValue(sig, pos));
      AtCons(sig, pos, 128 + |s|, s);
    }
  }

  lemma LongBytes(s: seq<byte>, m: nat)
    requires 1 <= |s| <= 8 && s[0] != 0 && m == Be(s) >= 128
    ensures m < TWO64 && LenBytes(m) == [128 + |s|] + s
  {
    BytesBe(s);
    BeBound(s);
    Pow256Mono(|s|, 8);
    assert Pow256(8) == TWO64;
  }

  /** And the encoding of a length that fits is accepted, with that value. */
  lemma LenAccepted(sig: seq<byte>, pos: nat, m: nat)
    requires m < TWO64 && At(sig, pos, LenBytes(m)) && (m < 128 || m <= |sig| - pos - |LenBytes(m)|)
    ensures LenOk(sig, pos) && LenValue(sig, pos) == m && Width(sig[pos]) == |LenBytes(m)|
  {
    if m < 128 {
      assert sig[pos..pos + 1][0] == sig[pos];
    } else {
      LongLength(m);
      BeBytes(m);
      AtCons(sig, pos, 128 + |Bytes(m)|, Bytes(m));
      LongAccepted(sig, pos, Bytes(m), m);
    }
  }

  lemma LongAccepted(sig: seq<byte>, pos: nat, s: seq<byte>, m: nat)
    requires 1 <= |s| <= 8 && s[0] != 0 && m == Be(s)
    requires pos + 1 + |s| <= |sig| && sig[pos] == 128 + |s| && s == sig[pos + 1..pos + 1 + |s|]
    requires 128 <= m <= |sig| - pos - 1 - |s|
    ensures LenOk(sig, pos) && LenValue(sig, pos) == m && Width(sig[pos]) == 1 + |s|
  {
    var w := Width(sig[pos]);
    assert sig[pos + 1..pos + w] == s;
  }

  /** An accepted element is the encoding of its content, and ends where that encoding ends. */
  lemma ElementEncodes(sig: seq<byte>, pos: nat, tag: byte)
    requires ElementOk(sig, pos, tag)
    ensures |Content(sig, pos, tag)| < TWO64 && At(sig, pos, Tlv(tag, Content(sig, pos, tag)))
    ensures ContentEnd(sig, pos) == pos + |Tlv(tag, Content(sig, pos, tag))|
  {
    var c := Content(sig, pos, tag);
    LenEncodes(sig, pos + 1);
    TlvAt(sig, pos, tag, c, LenBytes(|c|));
  }

  /** An encoded element is accepted, with its content. */
  lemma ElementAccepted(sig: seq<byte>, pos: nat, tag: byte, c: seq<byte>)
    requires |c| < TWO64 && At(sig, pos, Tlv(tag, c))
    ensures ElementOk(sig, pos, tag) && Content(sig, pos, tag) == c
    ensures ContentEnd(sig, pos) == pos + |Tlv(tag, c)|
  {
    var l := LenBytes(|c|);
    TlvAt(sig, pos, tag, c, l);
    LenAccepted(sig, pos + 1, |c|);
    ElementParts(sig, pos, tag, c, |l|);
  }

  lemma ElementParts(sig: seq<byte>, pos: nat, tag: byte, c: seq<byte>, w: nat)
    requires pos < |sig| && sig[pos] == tag && LenOk(sig, pos + 1) && LenValue(sig, pos + 1) == |c|
    requires Width(sig[pos + 1]) == w && At(sig, pos + 1 + w, c)
    ensures ElementOk(sig, pos, tag) && Content(sig, pos, tag) == c && ContentEnd(sig, pos) == pos + 1 + w + |c|
  {
  }

  lemma TlvAt(sig: seq<byte>, pos: nat, tag: byte, c: seq<byte>, l: seq<byte>)
    requires |c| < TWO64 && l == LenBytes(|c|)
    ensures |Tlv(tag, c)| == 1 + |l| + |c|
    ensures At(sig, pos, Tlv(tag, c)) <==>
            pos < |sig| && sig[pos] == tag && At(sig, pos + 1, l) && At(sig, pos + 1 + |l|, c)
  {
    assert Tlv(tag, c) == [tag] + (l + c);
    AtCons(sig, pos, tag, l + c);
    AtJoin(sig, pos + 1, l, c);
  }

  /** The body of a signature with contents c and d. */
  function Body(c: seq<byte>, d: seq<byte>): (s: seq<byte>)
    requires |c| < 0x8000_0000 && |d| < 0x8000_0000
    ensures |s| < TWO64
  {
    ShortFields(|c|);
    ShortFields(|d|);
    Tlv(0x02, c) + Tlv(0x02, d)
  }

  lemma ShortFields(m: nat)
    requires m < TWO64
    ensures |LenBytes(m)| <= 9
  {
    if m >= 128 {
      LongLength(m);
    }
  }

  /** sig is the DER sequence of two minimal integer contents, of a size an int can hold. */
  ghost predicate Encodes(sig: seq<byte>, c: seq<byte>, d: seq<byte>)
  {
    && |c| < 0x8000_0000 && |d| < 0x8000_0000 && |Body(c, d)| < 0x8000_0000
    && Minimal(c) && Minimal(d) && sig == Tlv(0x30, Body(c, d))
  }

  lemma Tail(sig: seq<byte>, pos: nat, s: seq<byte>, t: seq<byte>)
    requires At(sig, pos, s) && At(sig, pos + |s|, t) && pos + |s| + |t| == |sig|
    ensures sig[pos..] == s + t
  {
    AtJoin(sig, pos, s, t);
  }

  /** Soundness: what the reader accepts is the DER form of the contents it reports. */
  lemma AcceptedEncodes(sig: seq<byte>)
    requires SigOk(sig)
    ensures Encodes(sig, Content(sig, First(sig), 0x02), Content(sig, Second(sig), 0x02))
  {
    var c, d := Content(sig, First(sig), 0x02), Content(sig, Second(sig), 0x02);
    ElementEncodes(sig, First(sig), 0x02);
    ElementEncodes(sig, Second(sig), 0x02);
    Tail(sig, First(sig), Tlv(0x02, c), Tlv(0x02, d));
    EnvelopeEncodes(sig, Body(c, d));
  }

  lemma EnvelopeEncodes(sig: seq<byte>, body: seq<byte>)
    requires EnvelopeOk(sig) && body == sig[ContentStart(sig, 0)..]
    ensures |body| < 0x8000_0000 && sig == Tlv(0x30, body)
  {
    ElementEncodes(sig, 0, 0x30);
    assert Content(sig, 0, 0x30) == body;
    assert sig[0..|sig|] == sig;
  }

  /** Completeness: every DER form of two minimal integers is accepted, with those contents. */
  lemma EncodedAccepted(sig: seq<byte>, c: seq<byte>, d: seq<byte>)
    requires Encodes(sig, c, d)
    ensures SigOk(sig) && Content(sig, First(sig), 0x02) == c && Content(sig, Second(sig), 0x02) == d
  {
    EnvelopeAccepted(sig, Body(c, d));
    AtJoin(sig, First(sig), Tlv(0x02, c), Tlv(0x02, d));
    IntAccepted(sig, First(sig), c);
    IntAccepted(sig, Second(sig), d);
  }

  lemma IntAccepted(sig: seq<byte>, pos: nat, c: seq<byte>)
    requires |c| < 0x8000_0000 && Minimal(c) && At(sig, pos, Tlv(0x02, c))
    ensures IntOk(sig, pos) && Content(sig, pos, 0x02) == c && ContentEnd(sig, pos) == pos + |Tlv(0x02, c)|
  {
    ElementAccepted(sig, pos, 0x02, c);
  }

  lemma EnvelopeAccepted(sig: seq<byte>, body: seq<byte>)
    requires |body| < 0x8000_0000 && sig == Tlv(0x30, body)
    ensures EnvelopeOk(sig) && At(sig, First(sig), body) && First(sig) + |body| == |sig|
  {
    assert sig[0..|sig|] == sig;
    ElementAccepted(sig, 0, 0x30, body);
  }

  /** The DER form of a signature. */
  function DerOf(r: Scalar, s: Scalar): (sig: seq<byte>)
  {
    ContentSize(r);
    ContentSize(s);
    Tlv(0x30, Body(IntBytes(r), IntBytes(s)))
  }

  lemma ContentSize(v: Scalar)
    ensures |IntBytes(v)| <= 33
  {
    BeBytes(v);
    if |Bytes(v)| > 32 {
      LongOverflows(Bytes(v));
    }
  }

  /** Round trip: reading what the writer produces gives the signature back. */
  lemma ParseInvertsSerialize(r: Scalar, s: Scalar)
    ensures Parsed(DerOf(r, s)) == Some((r, s))
  {
    ContentSize(r);
    ContentSize(s);
    IntBytesMinimal(r);
    IntBytesMinimal(s);
    BodySize(IntBytes(r), IntBytes(s));
    EncodedAccepted(DerOf(r, s), IntBytes(r), IntBytes(s));
  }

  lemma BodySize(c: seq<byte>, d: seq<byte>)
    requires |c| <= 33 && |d| <= 33
    ensures |Body(c, d)| == 4 + |c| + |d|
    ensures Body(c, d) == [0x02, |c|] + c + [0x02, |d|] + d
    ensures Tlv(0x30, Body(c, d)) == [0x30, 4 + |c| + |d|] + Body(c, d)
  {
  }

  /** No malleability: writing what was read gives the same bytes exactly when neither integer overflowed. */
  lemma SerializeInvertsParse(sig: seq<byte>, r: Scalar, s: Scalar)
    requires Parsed(sig) == Some((r, s))
    ensures DerOf(r, s) == sig <==>
            !Overflows(Content(sig, First(sig), 0x02)) && !Overflows(Content(sig, Second(sig), 0x02))
  {
    var c, d := Content(sig, First(sig), 0x02), Content(sig, Second(sig), 0x02);
    AcceptedEncodes(sig);
    if !Overflows(c) && !Overflows(d) {
      IntBytesUnique(c);
      IntBytesUnique(d);
    }
    if DerOf(r, s) == sig {
      IntBytesMinimal(r);
      IntBytesMinimal(s);
      ContentSize(r);
      ContentSize(s);
      BodySize(IntBytes(r), IntBytes(s));
      EncodedAccepted(sig, IntBytes(r), IntBytes(s));
    }
  }

  const NEGATIVE: seq<byte> := [0x30, 6, 0x02, 1, 0x80, 0x02, 1, 1]

  lemma NegativeAccepted()
    ensures Parsed(NEGATIVE) == Some((0, 1))
  {
    BodySize([0x80], [1]);
    assert NEGATIVE == Tlv(0x30, Body([0x80], [1]));
    EncodedAccepted(NEGATIVE, [0x80], [1]);
    assert Be([1]) == Be([1][..0]) * 256 + 1;
  }

  /** A signature with r = -128: it reads as (0, 1), which is written differently. */
  lemma NegativeReadsAsZero()
    ensures Parsed(NEGATIVE) == Some((0, 1)) && DerOf(0, 1) == [0x30, 6, 0x02, 1, 0, 0x02, 1, 1] != NEGATIVE
  {
    NegativeAccepted();
    OneByte();
    BodySize([0], [1]);
    assert [0x30, 6, 0x02, 1, 0, 0x02, 1, 1][4] != NEGATIVE[4];
  }

  lemma OneByte()
    ensures IntBytes(1) == [1]
  {
    assert Be([1][..0]) == 0 && Be([1]) == 1;
    IntBytesUnique([1]);
  }

  /** The writer's content octets: 33 bytes, stripped of redundant leading zeros. */
  method StripContent(v: Scalar) returns (c: seq<byte>)
    ensures c == IntBytes(v)
  {
    Pow256Of32();
    BeFixed(v, 32);
    var buf: seq<byte> := [0] + Fixed(v, 32);
    BeLeadingZero(buf);
    assert buf[1..] == Fixed(v, 32);
    var p, len := 0, 33;
    assert buf[0..] == buf;
    while len > 1 && buf[p] == 0 && buf[p + 1] < 0x80
      invariant 1 <= len && p + len == 33
      invariant Be(buf[p..]) == v && buf[p] < 0x80
    {
      BeLeadingZero(buf[p..]);
      assert buf[p..][1..] == buf[p + 1..];
      len := len - 1;
      p := p + 1;
    }
    c := buf[p..];
    IntBytesUnique(c);
  }

  /** memcpy after the part written so far. */
  method Append(dst: array<byte>, ghost written: seq<byte>, ghost before: seq<byte>, at: nat, src: seq<byte>)
    requires Written(dst[..], written, before) && at == |written| && at + |src| <= dst.Length
    modifies dst
    ensures Written(dst[..], written + src, before)
  {
    for i := 0 to |src|
      invariant Written(dst[..], written + src[..i], before)
    {
      dst[at + i] := src[i];
      WrittenNext(dst[..], written + src[..i], before, src[i]);
      assert written + src[..i] + [src[i]] == written + src[..i + 1];
    }
    assert src[..|src|] == src;
  }

  /** The buffer holds what was written, then what was there before. */
  ghost predicate Written(now: seq<byte>, written: seq<byte>, before: seq<byte>)
  {
    && |now| == |before| && |written| <= |now|
    && (forall k :: 0 <= k < |written| ==> now[k] == written[k])
    && (forall k :: |written| <= k < |now| ==> now[k] == before[k])
  }

  lemma WrittenNext(now: seq<byte>, written: seq<byte>, before: seq<byte>, b: byte)
    requires |written| < |now| == |before| && now[|written|] == b
    requires forall k :: 0 <= k < |written| ==> now[k] == written[k]
    requires forall k :: |written| < k < |now| ==> now[k] == before[k]
    ensures Written(now, written + [b], before)
  {
  }

  /** Write both elements; the buffer is large enough. */
  method WriteElements(sig: array<byte>, rp: seq<byte>, sp: seq<byte>)
    requires 1 <= |rp| <= 33 && 1 <= |sp| <= 33 && 6 + |sp| + |rp| <= sig.Length
    modifies sig
    ensures Written(sig[..], Tlv(0x30, Body(rp, sp)), old(sig[..]))
  {
    ghost var before := sig[..];
    var header: seq<byte>, middle: seq<byte> := [0x30, 4 + |sp| + |rp|, 0x02, |rp|], [0x02, |sp|];
    Append(sig, [], before, 0, header);
    assert [] + header == header;
    Append(sig, header, before, 4, rp);
    Append(sig, header + rp, before, 4 + |rp|, middle);
    Append(sig, header + rp + middle, before, |rp| + 6, sp);
    ElementsJoin(rp, sp);
  }

  lemma ElementsJoin(rp: seq<byte>, sp: seq<byte>)
    requires 1 <= |rp| <= 33 && 1 <= |sp| <= 33
    ensures [0x30, 4 + |sp| + |rp|, 0x02, |rp|] + rp + [0x02, |sp|] + sp == Tlv(0x30, Body(rp, sp))
  {
    BodySize(rp, sp);
  }

  /** Write the DER form, or report the size it needs and leave the buffer alone. */
  method SigSerialize(sig: array<byte>, size: nat, r: Scalar, s: Scalar) returns (ok: bool, needed: nat)
    requires size <= sig.Length
    modifies sig
    ensures needed == |DerOf(r, s)| && (ok <==> needed <= size)
    ensures Written(sig[..], if ok then DerOf(r, s) else [], old(sig[..]))
  {
    var rp := StripContent(r);
    var sp := StripContent(s);
    ContentSize(r);
    ContentSize(s);
    BodySize(rp, sp);
    needed := 6 + |sp| + |rp|;
    if size < needed {
      return false, needed;
    }
    WriteElements(sig, rp, sp);
    ok := true;
  }
}
