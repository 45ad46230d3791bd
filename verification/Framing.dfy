/** The two packet formats that the A2DP pipeline puts on its byte streams: AAC packets
    behind a two-byte length, and LHDC containers behind the tag "lhdc" and a four-byte
    length. Encode is what store_sbc_buffer enqueues; Parse is what the co-processor
    load functions make of the bytes they can see. */
module Framing {
  import opened Bytes

  datatype Format = Aac | Lhdc

  const AAC_LIMIT := 2048
  const LHDC_READBUF_SIZE := 4096
  const LHDC_HEADER_SIZE := 8
  const TAG: seq<byte> := [108, 104, 100, 99]

  /** Payloads the format carries: an AAC length below the header limit, an LHDC payload
      that is not empty and fits the read buffer behind its header. */
  predicate Fits(f: Format, p: seq<byte>) {
    match f
    case Aac => |p| < AAC_LIMIT
    case Lhdc => 1 <= |p| && LHDC_HEADER_SIZE + |p| <= LHDC_READBUF_SIZE
  }

  /** Payloads whose length survives the header: two bytes for AAC, four for LHDC. */
  predicate Exact(f: Format, p: seq<byte>) {
    match f
    case Aac => |p| < 0x1_0000
    case Lhdc => |p| < 0x1_0000_0000
  }

  /** Payloads the load function does not turn away by their length. */
  predicate Taken(f: Format, p: seq<byte>) {
    f == Lhdc || |p| < AAC_LIMIT
  }

  function Encode(f: Format, p: seq<byte>): (e: seq<byte>)
    ensures |e| == |p| + if f == Aac then 2 else LHDC_HEADER_SIZE
  {
    match f
    case Aac => [|p| % 256, |p| / 256 % 256] + p
    case Lhdc => TAG + [|p| % 256, |p| / 256 % 256, |p| / 65536 % 256, |p| / 16777216 % 256] + p
  }

  function EncodeAll(f: Format, ps: seq<seq<byte>>): (s: seq<byte>) {
    if ps == [] then [] else Encode(f, ps[0]) + EncodeAll(f, ps[1..])
  }

  /** Outcome of one load: not enough bytes yet, a header that is rejected, or a payload
      together with the number of bytes to consume. */
  datatype Load = NeedMore | BadHeader | Frame(payload: seq<byte>, consumed: nat)

  function LittleEndian(b0: int, b1: int, b2: int, b3: int): int {
    b0 + 256 * b1 + 65536 * b2 + 16777216 * b3
  }

  function ParseAac(span: seq<byte>): (r: Load)
    ensures r.Frame? ==> 2 <= r.consumed <= |span| && r.payload == span[2..r.consumed] && r.consumed < 2 + AAC_LIMIT
  {
    if |span| < 2 then NeedMore
    else
      var len := LittleEndian(span[0], span[1], 0, 0);
      if len >= AAC_LIMIT then BadHeader
      else if |span| < 2 + len then NeedMore
      else Frame(span[2..2 + len], 2 + len)
  }

  function HeaderLen(span: seq<byte>): (n: nat)
    requires |span| >= LHDC_HEADER_SIZE
  {
    LittleEndian(span[4], span[5], span[6], span[7])
  }

  function ParseLhdc(span: seq<byte>): (r: Load)
  {
    if |span| < LHDC_HEADER_SIZE then NeedMore
    else if span[..4] != TAG then
      match ParseLhdc(span[1..])
      case Frame(p, c) => Frame(p, c + 1)
      case other => other
    else
      var len := HeaderLen(span);
      if |span| < LHDC_HEADER_SIZE + len then NeedMore
      else Frame(span[LHDC_HEADER_SIZE..LHDC_HEADER_SIZE + len], LHDC_HEADER_SIZE + len)
  }

  function Parse(f: Format, span: seq<byte>): (r: Load) {
    if f == Aac then ParseAac(span) else ParseLhdc(span)
  }

  predicate TagAt(s: seq<byte>, i: nat) {
    i + 4 <= |s| && s[i..i + 4] == TAG
  }

  ghost predicate NoTag(s: seq<byte>) {
    forall i: nat :: !TagAt(s, i)
  }

  /** What a successful LHDC load means, without reference to the scan: the payload is the
      one announced by the first tag in the span, and everything up to its end is consumed. */
  lemma {:induction false} ParseLhdcIsFirstContainer(span: seq<byte>, at: nat)
    requires TagAt(span, at) && forall i: nat :: i < at ==> !TagAt(span, i)
    ensures |span| < at + LHDC_HEADER_SIZE ==> ParseLhdc(span) == NeedMore
    ensures at + LHDC_HEADER_SIZE <= |span| ==>
              var len := HeaderLen(span[at..]);
              ParseLhdc(span) == if |span| < at + LHDC_HEADER_SIZE + len then NeedMore
                                 else Frame(span[at + LHDC_HEADER_SIZE..at + LHDC_HEADER_SIZE + len],
                                             at + LHDC_HEADER_SIZE + len)
  {
    if at == 0 {
      assert span[0..] == span;
      assert span[..4] == span[0..4];
    } else if |span| >= LHDC_HEADER_SIZE {
      assert !TagAt(span, 0);
      assert span[0..4] == span[..4];
      forall i: nat | i < at ensures TagAt(span[1..], i) == TagAt(span, i + 1) {
        TagOneOn(span, i);
      }
      hide TagAt;
      ParseLhdcIsFirstContainer(span[1..], at - 1);
      DropTwice(span, 1, at - 1);
      if at + LHDC_HEADER_SIZE <= |span| {
        var len, body := HeaderLen(span[at..]), at + LHDC_HEADER_SIZE;
        if |span| >= body + len {
          SliceOfSlice(span, 1, body - 1, body - 1 + len);
        }
      }
      hide HeaderLen;
    }
  }

  lemma TagOneOn(span: seq<byte>, i: nat)
    requires span != []
    ensures TagAt(span[1..], i) == TagAt(span, i + 1)
  {
    if i + 5 <= |span| {
      SliceOfSlice(span, 1, i, i + 4);
    }
  }

  /** Without a tag nothing is ever taken. */
  lemma {:induction false} ParseLhdcNoTag(span: seq<byte>)
    requires NoTag(span)
    ensures ParseLhdc(span) == NeedMore
  {
    if |span| >= LHDC_HEADER_SIZE {
      var rest := span[1..];
      assert !TagAt(span, 0);
      assert span[0..4] == span[..4];
      forall i: nat ensures !TagAt(rest, i) {
        assert !TagAt(span, i + 1);
        if i + 4 <= |rest| {
          assert rest[i..i + 4] == span[i + 1..i + 5];
        }
      }
      ParseLhdcNoTag(rest);
    }
  }

  /** A scan that met no tag and is left with less than a header finds nothing. */
  lemma {:induction false} ParseLhdcTooShort(span: seq<byte>, k: nat)
    requires |span| < k + LHDC_HEADER_SIZE && forall i: nat :: i < k ==> !TagAt(span, i)
    ensures ParseLhdc(span) == NeedMore
  {
    if |span| >= LHDC_HEADER_SIZE {
      var rest := span[1..];
      assert !TagAt(span, 0);
      assert span[0..4] == span[..4];
      forall i: nat | i < k - 1 ensures !TagAt(rest, i) {
        assert !TagAt(span, i + 1);
        if i + 4 <= |rest| {
          assert rest[i..i + 4] == span[i + 1..i + 5];
        }
      }
      ParseLhdcTooShort(rest, k - 1);
    }
  }

  lemma LittleEndian32(n: nat)
    requires n < 0x1_0000_0000
    ensures LittleEndian(n % 256, n / 256 % 256, n / 65536 % 256, n / 16777216 % 256) == n
  {
    assert n / 65536 == n / 256 / 256;
    assert n / 16777216 == n / 65536 / 256;
  }

  /** The first tag of junk followed by a container is the container's own: the tag has no
      border, so bytes of the junk cannot be the beginning of an overlapping tag. */
  lemma JunkHidesNoTag(junk: seq<byte>, tail: seq<byte>)
    requires NoTag(junk) && 4 <= |tail| && tail[..4] == TAG
    ensures TagAt(junk + tail, |junk|)
    ensures forall i: nat :: i < |junk| ==> !TagAt(junk + tail, i)
  {
    var s := junk + tail;
    assert s[|junk|..|junk| + 4] == tail[..4];
    forall i: nat | i < |junk| ensures !TagAt(s, i) {
      assert !TagAt(junk, i);
      if i + 4 <= |junk| {
        assert junk[i..i + 4] == s[i..i + 4];
      } else if i + 4 <= |s| {
        assert s[i..i + 4][|junk| - i] == tail[..4][0];
      }
    }
  }

  /** Resynchronisation: behind junk without a tag the scan returns precisely the next
      stored container, and consumes the junk and that container. */
  lemma LhdcResync(junk: seq<byte>, p: seq<byte>, rest: seq<byte>)
    requires NoTag(junk) && Exact(Lhdc, p)
    ensures Parse(Lhdc, junk + Encode(Lhdc, p) + rest) == Frame(p, |junk| + |Encode(Lhdc, p)|)
  {
    var e := Encode(Lhdc, p);
    var span := junk + e + rest;
    assert span == junk + (e + rest);
    assert (e + rest)[..4] == TAG;
    JunkHidesNoTag(junk, e + rest);
    ParseLhdcIsFirstContainer(span, |junk|);
    assert span[|junk|..] == e + rest;
    LittleEndian32(|p|);
    assert HeaderLen(span[|junk|..]) == |p|;
    assert span[|junk| + 8..|junk| + 8 + |p|] == p;
  }

  /** A container of which the end is still missing is left alone, junk included. */
  lemma LhdcPartial(junk: seq<byte>, p: seq<byte>, span: seq<byte>)
    requires NoTag(junk) && Exact(Lhdc, p)
    requires span <= junk + Encode(Lhdc, p) && |span| < |junk| + |Encode(Lhdc, p)|
    ensures Parse(Lhdc, span) == NeedMore
  {
    var e := Encode(Lhdc, p);
    var whole := junk + e;
    assert e[..4] == TAG;
    JunkHidesNoTag(junk, e);
    forall i: nat | i < |junk| ensures !TagAt(span, i) {
      assert !TagAt(whole, i);
      if i + 4 <= |span| {
        assert span[i..i + 4] == whole[i..i + 4];
      }
    }
    if |span| < |junk| + 4 {
      ParseLhdcNoTag(span);
    } else {
      assert span[|junk|..|junk| + 4] == whole[|junk|..|junk| + 4];
      ParseLhdcIsFirstContainer(span, |junk|);
      if |span| >= |junk| + LHDC_HEADER_SIZE {
        LittleEndian32(|p|);
        assert forall k :: 0 <= k < 8 ==> span[|junk|..][k] == e[k];
        assert HeaderLen(span[|junk|..]) == |p|;
      }
    }
  }

  /** An AAC packet of any length at the head of the visible bytes. The header keeps the length
      modulo 65536, so the packet comes back whole if and only if it is below 2048 bytes. */
  lemma AacHead(p: seq<byte>, rest: seq<byte>)
    ensures var n := |p| % 0x1_0000;
            Parse(Aac, Encode(Aac, p) + rest) == if n >= AAC_LIMIT then BadHeader else Frame(p[..n], 2 + n)
    ensures Parse(Aac, Encode(Aac, p) + rest) == Frame(p, |Encode(Aac, p)|) <==> |p| < AAC_LIMIT
  {
    var span, n := Encode(Aac, p) + rest, |p| % 0x1_0000;
    LittleEndian16(|p|);
    assert LittleEndian(span[0], span[1], 0, 0) == n;
    assert n < AAC_LIMIT ==> span[2..2 + n] == p[..n];
    assert |p| < AAC_LIMIT ==> p[..|p|] == p;
  }

  lemma LittleEndian16(n: nat)
    ensures LittleEndian(n % 256, n / 256 % 256, 0, 0) == n % 0x1_0000
  {
    var q := n / 0x1_0000;
    assert n / 256 / 256 == q;
  }

  lemma AacPartial(p: seq<byte>, span: seq<byte>)
    requires Exact(Aac, p) && span <= Encode(Aac, p) && |span| < |Encode(Aac, p)|
    ensures Parse(Aac, span) == if |span| >= 2 && !Taken(Aac, p) then BadHeader else NeedMore
  {
    if |span| >= 2 {
      assert span[0] == Encode(Aac, p)[0] && span[1] == Encode(Aac, p)[1];
      LittleEndian16(|p|);
      assert LittleEndian(span[0], span[1], 0, 0) == |p|;
    }
  }

  /** What a load should make of a stream that begins with packet p: nothing before the length
      can be read, then a rejection if the length is one, else the packet when it is complete. */
  function HeadLoad(f: Format, p: seq<byte>, visible: nat): Load {
    if !Taken(f, p) then (if visible >= 2 then BadHeader else NeedMore)
    else if visible >= |Encode(f, p)| then Frame(p, |Encode(f, p)|)
    else NeedMore
  }

  lemma WholeHead(f: Format, p: seq<byte>, rest: seq<byte>)
    requires Exact(f, p)
    ensures Parse(f, Encode(f, p) + rest) == HeadLoad(f, p, |Encode(f, p) + rest|)
  {
    hide Encode, Parse;
    match f
    case Aac =>
      AacHead(p, rest);
      assert |p| % 0x1_0000 == |p|;
    case Lhdc =>
      LhdcResync([], p, rest);
      assert [] + Encode(Lhdc, p) + rest == Encode(Lhdc, p) + rest;
  }

  lemma PartOfHead(f: Format, p: seq<byte>, span: seq<byte>)
    requires Exact(f, p) && span <= Encode(f, p) && |span| < |Encode(f, p)|
    ensures Parse(f, span) == HeadLoad(f, p, |span|)
  {
    hide Encode, Parse;
    match f
    case Aac => AacPartial(p, span);
    case Lhdc =>
      assert [] + Encode(Lhdc, p) == Encode(Lhdc, p);
      LhdcPartial([], p, span);
  }

  /** On a prefix of a stream of stored packets a load goes by the first packet alone. */
  lemma StreamHead(f: Format, ps: seq<seq<byte>>, span: seq<byte>)
    requires ps != [] ==> Exact(f, ps[0])
    requires span <= EncodeAll(f, ps)
    ensures Parse(f, span) == if ps == [] then NeedMore else HeadLoad(f, ps[0], |span|)
  {
    if ps != [] {
      hide Encode, Parse, HeadLoad;
      var e := Encode(f, ps[0]);
      var all := e + EncodeAll(f, ps[1..]);
      assert span == all[..|span|];
      if |e| <= |span| {
        assert span == e + span[|e|..];
        WholeHead(f, ps[0], span[|e|..]);
      } else {
        PartOfHead(f, ps[0], span);
      }
    }
  }

  lemma {:induction false} EncodeAllAppend(f: Format, a: seq<seq<byte>>, b: seq<seq<byte>>)
    ensures EncodeAll(f, a + b) == EncodeAll(f, a) + EncodeAll(f, b)
  {
    if a == [] {
      assert a + b == b;
    } else {
      var s := a + b;
      assert s[1..] == a[1..] + b && s[0] == a[0];
      EncodeAllAppend(f, a[1..], b);
      hide Encode;
      Regroup(Encode(f, a[0]), EncodeAll(f, a[1..]), EncodeAll(f, b));
    }
  }

  /** The longest stored packet, so the number of visible bytes that always includes one. */
  function MaxEncoded(f: Format): nat {
    if f == Aac then 1 + AAC_LIMIT else LHDC_READBUF_SIZE
  }

  /** However the packets lie, MaxEncoded visible bytes are enough for a whole one. */
  lemma EnoughBytesMeanAFrame(f: Format, ps: seq<seq<byte>>, span: seq<byte>)
    requires ps != [] && Fits(f, ps[0])
    requires span <= EncodeAll(f, ps) && |span| >= MaxEncoded(f)
    ensures Parse(f, span) == Frame(ps[0], |Encode(f, ps[0])|)
  {
    StreamHead(f, ps, span);
  }
}
