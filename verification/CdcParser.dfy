/** The factory command link: messages with a four-byte header and a checksum, found again in
    a byte stream after junk. */
module CdcParser {
  import opened Bytes

  const PREFIX_CHAR: byte := 0xbe
  const HEADER := 4

  datatype Error = Len | Checksum | SysCmd | DataLen

  /** How a session stands when the input is used up, or which error ended it. */
  datatype End = Starved | Failed(e: Error)

  function Sum(s: seq<byte>): (r: byte) {
    if s == [] then 0 else Add8(s[0], Sum(s[1..]))
  }

  function Add8(x: byte, y: byte): byte { (x as int + y as int) % 256 }

  /** check_sum: the length is cut to a byte. */
  function CheckSum(s: seq<byte>, len: nat): byte
    requires len % 256 <= |s|
  {
    Sum(s[..len % 256])
  }

  function Complement(b: byte): byte { 255 - (b as int) }

  /** A message as send_reply builds it. */
  function Frame(kind: byte, sn: byte, payload: seq<byte>): (f: seq<byte>)
    requires |payload| < 255
    ensures |f| == HEADER + |payload| + 1
  {
    var m: seq<byte> := [PREFIX_CHAR, kind, sn, |payload|] + payload;
    m + [Complement(CheckSum(m, HEADER + |payload|))]
  }

  /** check_msg_hdr for a receive buffer with room for dataSize bytes. */
  function CheckHeader(kind: byte, len: byte, dataSize: nat): Option<Error> {
    if kind == 0 && len != 1 && len != 5 then Some(Len)
    else if kind == 1 && len != 4 then Some(Len)
    else if kind == 2 && (len <= 4 || len > 20) then Some(Len)
    else if len as int + 1 > dataSize then Some(Len)
    else None
  }

  /** What handle_data makes of a whole message. */
  function Handle(m: seq<byte>): Option<Error>
    requires |m| > HEADER && |m| == HEADER + (m[3] as int) + 1
  {
    if CheckSum(m, |m|) != 0xff then Some(Checksum)
    else if m[1] == 0 then HandleSys(m[4], |m| - HEADER - 2)
    else None
  }

  function HandleSys(cmd: byte, len: int): Option<Error> {
    if len != (if cmd == 0xe1 || cmd == 0xe2 then 4 else 0) then Some(DataLen)
    else if cmd in {0xf1, 0xf2, 0xe1, 0xe2, 0xe3} then None
    else Some(SysCmd)
  }

  /** Where the first prefix character stands, or the length. */
  function FirstPrefix(s: seq<byte>): (i: nat)
    ensures i <= |s| && (i < |s| ==> s[i] == PREFIX_CHAR) && forall k :: 0 <= k < i ==> s[k] != PREFIX_CHAR
  {
    if s == [] || s[0] == PREFIX_CHAR then 0 else 1 + FirstPrefix(s[1..])
  }

  /** The messages in a stream of bytes, up to the first error or the end of the input: every
      message starts at the first prefix character after the one before it. */
  function Session(s: seq<byte>, dataSize: nat): (seq<seq<byte>>, End)
    decreases |s|
  {
    var p := FirstPrefix(s);
    if p + HEADER > |s| then ([], Starved)
    else
      var bad := CheckHeader(s[p + 1], s[p + 3], dataSize);
      var end := p + HEADER + (s[p + 3] as int) + 1;
      if bad.Some? then ([], Failed(bad.value))
      else if end > |s| then ([], Starved)
      else
        var m := s[p..end];
        var e := Handle(m);
        if e.Some? then ([], Failed(e.value))
        else
          var (rest, last) := Session(s[end..], dataSize);
          ([m] + rest, last)
  }

  lemma {:induction false} FirstPrefixAfter(junk: seq<byte>, s: seq<byte>)
    requires PREFIX_CHAR !in junk
    ensures FirstPrefix(junk + s) == |junk| + FirstPrefix(s)
  {
    if junk == [] {
      assert junk + s == s;
    } else {
      assert (junk + s)[1..] == junk[1..] + s;
      FirstPrefixAfter(junk[1..], s);
    }
  }

  lemma SessionAfterJunk(junk: seq<byte>, s: seq<byte>, dataSize: nat)
    requires PREFIX_CHAR !in junk
    ensures Session(junk + s, dataSize) == Session(s, dataSize)
  {
    hide Handle, CheckHeader, FirstPrefix;
    FirstPrefixAfter(junk, s);
    var t, p := junk + s, FirstPrefix(s);
    if p + HEADER <= |s| {
      assert t[|junk| + p + 1] == s[p + 1] && t[|junk| + p + 3] == s[p + 3];
      var end := p + HEADER + (s[p + 3] as int) + 1;
      if end <= |s| {
        SliceOfSum(junk, s, p, end);
      }
    }
  }

  lemma SliceOfSum(a: seq<byte>, b: seq<byte>, lo: nat, hi: nat)
    requires lo <= hi <= |b|
    ensures (a + b)[|a| + lo..|a| + hi] == b[lo..hi] && (a + b)[|a| + hi..] == b[hi..]
  {
  }

  lemma SessionStep(m: seq<byte>, s: seq<byte>, dataSize: nat)
    requires |m| > HEADER && |m| == HEADER + (m[3] as int) + 1 && m[0] == PREFIX_CHAR
    requires CheckHeader(m[1], m[3], dataSize) == None
    ensures Session(m + s, dataSize) ==
            if Handle(m).Some? then ([], Failed(Handle(m).value))
            else ([m] + Session(s, dataSize).0, Session(s, dataSize).1)
  {
    DropOfSum(m, s, |m|);
    assert [] + s == s;
    hide CheckHeader, Handle;
  }

  // ----- Checksums -----

  lemma {:induction false} SumAppend(a: seq<byte>, b: seq<byte>)
    ensures Sum(a + b) == Add8(Sum(a), Sum(b))
  {
    if a == [] {
      assert a + b == b;
    } else {
      DropOfSum(a, b, 1);
      SumAppend(a[1..], b);
      Add8Associates(a[0], Sum(a[1..]), Sum(b));
      hide Add8;
    }
  }

  lemma Add8Associates(x: byte, y: byte, z: byte)
    ensures Add8(x, Add8(y, z)) == Add8(Add8(x, y), z)
  {
    WrapTwice(x, y, z);
  }

  lemma Add8Cancels(x: byte, y: byte, z: byte)
    ensures Add8(x, y) == Add8(x, z) ==> y == z
    ensures Add8(y, x) == Add8(z, x) ==> y == z
  {
  }

  lemma SumNext(s: seq<byte>, i: nat)
    requires i < |s|
    ensures Sum(s[..i + 1]) == Add8(Sum(s[..i]), s[i])
  {
    SumAppend(s[..i], [s[i]]);
    SumOne(s[i]);
    hide Sum, Add8;
    assert s[..i + 1] == s[..i] + [s[i]];
  }

  lemma SumOne(b: byte)
    ensures Sum([b]) == b
  {
    assert [b][1..] == [];
  }

  lemma Wrap(x: int, y: int)
    ensures (x + y % 256) % 256 == (x + y) % 256
  {
    var q := y / 256;
    assert x + y % 256 == x + y - 256 * q;
  }

  lemma WrapTwice(x: int, y: int, z: int)
    ensures (x + (y + z) % 256) % 256 == ((x + y) % 256 + z) % 256
  {
    Wrap(x, y + z);
    Wrap(z, x + y);
  }

  lemma {:induction false} SumUpdate(s: seq<byte>, i: nat, b: byte)
    requires i < |s| && b != s[i]
    ensures Sum(s[i := b]) != Sum(s)
  {
    hide Add8;
    if i == 0 {
      assert s[0 := b][1..] == s[1..];
      Add8Cancels(Sum(s[1..]), b, s[0]);
    } else {
      assert s[i := b][1..] == s[1..][i - 1 := b];
      SumUpdate(s[1..], i - 1, b);
      Add8Cancels(s[0], Sum(s[1..][i - 1 := b]), Sum(s[1..]));
    }
  }

  lemma SumComplement(m: seq<byte>)
    ensures Sum(m + [Complement(Sum(m))]) == 0xff
  {
    SumAppend(m, [Complement(Sum(m))]);
    SumOne(Complement(Sum(m)));
    hide Sum;
  }

  /** Which frames pass their own checksum: those of up to 255 bytes. Beyond that the cut
      lengths make sender and receiver sum different parts, and only chance values pass. */
  lemma WhichFramesPass(kind: byte, sn: byte, payload: seq<byte>)
    requires |payload| < 255
    ensures var f := Frame(kind, sn, payload);
            CheckSum(f, |f|) == 0xff <==>
              || |payload| <= 250
              || (|payload| == 253 && kind == 0x41)
              || (|payload| == 254 && (kind as int + sn as int) % 256 == 0x41)
  {
    if |payload| <= 250 {
      ShortFramePasses(kind, sn, payload);
    } else {
      LongFrameSum(kind, sn, payload);
    }
  }

  lemma WholeSum(s: seq<byte>)
    requires |s| < 256
    ensures CheckSum(s, |s|) == Sum(s)
  {
    hide Sum;
    assert s[..|s|] == s;
  }

  lemma ShortFramePasses(kind: byte, sn: byte, payload: seq<byte>)
    requires |payload| <= 250
    ensures var f := Frame(kind, sn, payload); CheckSum(f, |f|) == 0xff
  {
    var m: seq<byte> := [PREFIX_CHAR, kind, sn, |payload|] + payload;
    var f := Frame(kind, sn, payload);
    SumComplement(m);
    WholeSum(m);
    WholeSum(f);
    hide Sum, CheckSum, Complement;
  }

  lemma LongFrameSum(kind: byte, sn: byte, payload: seq<byte>)
    requires 250 < |payload| < 255
    ensures var f := Frame(kind, sn, payload);
            CheckSum(f, |f|) == 0xff <==>
              (|payload| == 253 && kind == 0x41) || (|payload| == 254 && (kind as int + sn as int) % 256 == 0x41)
  {
    hide Sum, Complement;
    var f := Frame(kind, sn, payload);
    var n := |payload| - 251;
    assert |f| % 256 == n;
    assert f[..n] == [PREFIX_CHAR, kind, sn][..n];
    SumOfStart(kind, sn, n);
  }

  lemma SumOfStart(kind: byte, sn: byte, n: nat)
    requires n <= 3
    ensures Sum([PREFIX_CHAR, kind, sn][..n]) ==
            if n == 0 then 0 else if n == 1 then 0xbe
            else if n == 2 then (0xbe + kind as int) % 256 else (0xbe + kind as int + sn as int) % 256
  {
    var s := [PREFIX_CHAR, kind, sn];
    assert s[..3] == s && s[..2] == [PREFIX_CHAR, kind] && s[..1] == [PREFIX_CHAR] && s[..0] == [];
    SumTwo(PREFIX_CHAR, kind);
    hide Sum;
    SumThree(PREFIX_CHAR, kind, sn);
  }

  lemma SumTwo(a: byte, b: byte)
    ensures Sum([]) == 0 && Sum([a]) == a && Sum([a, b]) == (a as int + b as int) % 256
  {
    assert [a][1..] == [] && [b][1..] == [] && [a, b][1..] == [b];
    assert Sum([b]) == b;
  }

  lemma SumThree(a: byte, b: byte, c: byte)
    ensures Sum([a, b, c]) == (a as int + b as int + c as int) % 256
  {
    assert [a, b, c][1..] == [b, c];
    SumTwo(b, c);
    Wrap(a, b as int + c as int);
  }

  /** Any one byte of a frame changed, other than the length: the checksum test fails. */
  lemma OneWrongByteFails(f: seq<byte>, i: nat, b: byte)
    requires |f| <= 255 && i < |f| && b != f[i] && CheckSum(f, |f|) == 0xff
    ensures CheckSum(f[i := b], |f|) != 0xff
  {
    hide *;
    WholeSum(f);
    WholeSum(f[i := b]);
    SumUpdate(f, i, b);
  }

  /** So a receiver never takes such a frame for a message: wherever the byte is, except the
      prefix and the length, the session ends there in an error. */
  lemma CorruptFrameIsRefused(kind: byte, sn: byte, payload: seq<byte>, i: nat, b: byte,
                            junk: seq<byte>, rest: seq<byte>, dataSize: nat)
    requires |payload| <= 250 && PREFIX_CHAR !in junk
    requires 1 <= i <= HEADER + |payload| && i != 3 && b != Frame(kind, sn, payload)[i]
    ensures var s := Session(junk + (Frame(kind, sn, payload)[i := b] + rest), dataSize);
            s == ([], Failed(Checksum)) || s == ([], Failed(Len))
  {
    var f := Frame(kind, sn, payload);
    WhichFramesPass(kind, sn, payload);
    OneWrongByteFails(f, i, b);
    var g := f[i := b];
    SessionAfterJunk(junk, g + rest, dataSize);
    if CheckHeader(g[1], g[3], dataSize) == None {
      SessionStep(g, rest, dataSize);
    } else {
      assert FirstPrefix(g + rest) == 0;
    }
  }

  datatype Piece = Piece(junk: seq<byte>, kind: byte, sn: byte, payload: seq<byte>)

  /** A piece of traffic a receiver should take: junk without a prefix character, then a frame
      it can take. */
  predicate Good(x: Piece, dataSize: nat) {
    PREFIX_CHAR !in x.junk && |x.payload| <= 250 && Takes(x.kind, x.payload, dataSize)
  }

  /** The payloads a receiver takes: of a system message one of three bare commands or of two
      with four bytes of data, of a read message four bytes, of a write message 5 to 20, and
      of any other kind what fits. */
  predicate Takes(kind: byte, payload: seq<byte>, dataSize: nat) {
    && |payload| + 1 <= dataSize
    && (kind == 0 ==>
          || (|payload| == 1 && payload[0] in {0xf1, 0xf2, 0xe3})
          || (|payload| == 5 && payload[0] in {0xe1, 0xe2}))
    && (kind == 1 ==> |payload| == 4)
    && (kind == 2 ==> 5 <= |payload| <= 20)
  }

  /** The lengths a header may announce. */
  predicate LengthFits(kind: byte, len: nat, dataSize: nat) {
    && len + 1 <= dataSize && (kind == 0 ==> len in {1, 5}) && (kind == 1 ==> len == 4)
    && (kind == 2 ==> 5 <= len <= 20)
  }

  /** Exactly these: any other frame, though its sum is right, ends the session in an error. */
  lemma SessionTakesIff(kind: byte, sn: byte, payload: seq<byte>, rest: seq<byte>, dataSize: nat)
    requires |payload| <= 250
    ensures var f := Frame(kind, sn, payload);
            var s := Session(f + rest, dataSize);
            if Takes(kind, payload, dataSize) then
              s == ([f] + Session(rest, dataSize).0, Session(rest, dataSize).1)
            else s == ([], Failed(if !LengthFits(kind, |payload|, dataSize) then Len
                                  else if (payload[0] in {0xe1, 0xe2}) != (|payload| == 5) then DataLen
                                  else SysCmd))
  {
    var f := Frame(kind, sn, payload);
    WhichFramesPass(kind, sn, payload);
    if CheckHeader(kind, |payload|, dataSize) == None {
      SessionStep(f, rest, dataSize);
      hide Session, CheckSum;
    } else {
      BadHeaderEnds(f, rest, dataSize);
      hide Session, CheckSum;
    }
  }

  lemma BadHeaderEnds(m: seq<byte>, s: seq<byte>, dataSize: nat)
    requires |m| >= HEADER && m[0] == PREFIX_CHAR && CheckHeader(m[1], m[3], dataSize).Some?
    ensures Session(m + s, dataSize) == ([], Failed(CheckHeader(m[1], m[3], dataSize).value))
  {
    assert (m + s)[0] == m[0] && (m + s)[1] == m[1] && (m + s)[3] == m[3];
    hide CheckHeader, Handle;
  }

  function FrameOf(x: Piece): seq<byte>
    requires |x.payload| < 255
  {
    Frame(x.kind, x.sn, x.payload)
  }

  function Traffic(xs: seq<Piece>): seq<byte>
    requires forall i :: 0 <= i < |xs| ==> |xs[i].payload| < 255
  {
    if xs == [] then [] else xs[0].junk + (FrameOf(xs[0]) + Traffic(xs[1..]))
  }

  function Frames(xs: seq<Piece>): seq<seq<byte>>
    requires forall i :: 0 <= i < |xs| ==> |xs[i].payload| < 255
  {
    if xs == [] then [] else [FrameOf(xs[0])] + Frames(xs[1..])
  }

  /** Round trip: of any good traffic every frame is handled, whole and in order. */
  lemma {:induction false} TrafficRoundTrip(xs: seq<Piece>, dataSize: nat)
    requires forall i :: 0 <= i < |xs| ==> Good(xs[i], dataSize)
    ensures forall i :: 0 <= i < |xs| ==> |xs[i].payload| < 255
    ensures Session(Traffic(xs), dataSize) == (Frames(xs), Starved)
  {
    if xs != [] {
      var x, f := xs[0], FrameOf(xs[0]);
      TrafficRoundTrip(xs[1..], dataSize);
      SessionAfterJunk(x.junk, f + Traffic(xs[1..]), dataSize);
      SessionTakesIff(x.kind, x.sn, x.payload, Traffic(xs[1..]), dataSize);
    }
  }
}
