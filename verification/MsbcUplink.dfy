/** The sending side of the mSBC voice link: 57-byte encoded payloads become 60-byte frames with
    an H2 synchronisation header, sent as 16-bit words with the byte in the upper half. */
module MsbcUplink {
  import opened Bytes
  import opened MsbcDecoder

  type payload = p: seq<byte> | |p| == 57 witness seq(57, i => 0)

  /** The header byte carrying the two-bit sequence number, each bit doubled. */
  function Sequence(n: nat): byte {
    match n % 4
    case 0 => 0x08
    case 1 => 0x38
    case 2 => 0xc8
    case _ => 0xf8
  }

  function FrameBytes(n: nat, p: payload): (f: seq<byte>)
    ensures |f| == FRAME
  {
    [0x01, Sequence(n)] + p + [0x00]
  }

  /** The frames of consecutive payloads, the first with sequence number n. */
  function Stream(n: nat, ps: seq<payload>): (b: seq<byte>)
    ensures |b| == FRAME * |ps|
    decreases |ps|
  {
    if ps == [] then [] else FrameBytes(n, ps[0]) + Stream(n + 1, ps[1..])
  }

  function Shifted(b: byte): word { b * 256 }

  function Words(b: seq<byte>): (w: seq<word>)
    ensures |w| == |b|
  {
    seq(|b|, i requires 0 <= i < |b| => Shifted(b[i]))
  }

  lemma WordsSplit(a: seq<byte>, b: seq<byte>)
    ensures Words(a + b) == Words(a) + Words(b)
  {
  }

  lemma UpperOfWords(b: seq<byte>, lo: nat, hi: nat)
    requires lo <= hi <= |b|
    ensures Upper(Words(b)[lo..hi]) == b[lo..hi]
  {
  }

  lemma {:induction false} StreamAppend(n: nat, a: seq<payload>, b: seq<payload>)
    ensures Stream(n, a + b) == Stream(n, a) + Stream(n + |a|, b)
    decreases |a|
  {
    hide FrameBytes;
    if a == [] {
      assert a + b == b;
    } else {
      assert (a + b)[0] == a[0] && (a + b)[1..] == a[1..] + b;
      StreamAppend(n + 1, a[1..], b);
      Regroup(FrameBytes(n, a[0]), Stream(n + 1, a[1..]), Stream(n + |a|, b));
    }
  }

  lemma {:induction false} StreamFrame(n: nat, ps: seq<payload>, m: nat)
    requires m < |ps|
    ensures Stream(n, ps)[FRAME * m..FRAME * m + FRAME] == FrameBytes(n + m, ps[m])
  {
    StreamAppend(n, ps[..m], ps[m..]);
    assert ps[..m] + ps[m..] == ps && ps[m..][0] == ps[m];
  }

  /** sco_parse_synchronization_header: a status and the sequence number, 0xff when refused. */
  function ParseHeader(b: seq<byte>): (int, byte)
    requires |b| >= 3
  {
    if b[0] != 0x01 || b[1] % 16 != 0x08 || b[2] != 0xad then (-1, 0xff)
    else
      var sn1: int, sn2: int := b[1] / 16 % 4, b[1] / 64;
      if sn1 != 0 && sn1 != 3 then (-2, 0xff)
      else if sn2 != 0 && sn2 != 3 then (-3, 0xff)
      else (0, sn1 % 2 + sn2 / 2 * 2)
  }

  /** Exactly the four header bytes the senders use are accepted, each with its own number. */
  lemma ParsesIffSent(b: seq<byte>, n: nat)
    requires |b| >= 3
    ensures ParseHeader(b) == (0, n % 4) <==> b[0] == 0x01 && b[1] == Sequence(n) && b[2] == 0xad
  {
    var x := b[1] as int;
    assert x == 64 * (x / 64) + 16 * (x / 16 % 4) + x % 16;
  }

  /** Any other header is refused without a number; the status tells whether the pattern is
      wrong, the two copies of the low bit of the number differ, or those of the high bit. */
  lemma RefusesTheRest(b: seq<byte>)
    requires |b| >= 3
    ensures var (status, number) := ParseHeader(b);
            if b[0] == 0x01 && b[1] in {0x08, 0x38, 0xc8, 0xf8} && b[2] == 0xad then status == 0 && number < 4
            else
              && number == 0xff
              && status == if b[0] != 0x01 || b[1] % 16 != 8 || b[2] != 0xad then -1
                           else if b[1] / 16 % 2 != b[1] / 32 % 2 then -2
                           else -3
  {
    var x := b[1] as int;
    assert x == 64 * (x / 64) + 16 * (x / 16 % 4) + x % 16;
    assert x / 16 % 2 == x / 16 % 4 % 2 && x / 32 % 2 == x / 16 % 4 / 2;
  }

  class Uplink {
    const frame: array<byte>
    const lead: nat
    var total: nat

    ghost predicate Valid() {
      frame.Length == FRAME + FRAME && 1 <= lead <= 2
    }

    constructor (lead: nat)
      requires 1 <= lead <= 2
      ensures Valid() && this.lead == lead && total == 0 && fresh(frame)
      ensures frame[..FRAME] == seq(FRAME, i => 0)
    {
      frame := new byte[FRAME + FRAME](_ => 0);
      this.lead, total := lead, 0;
    }

    /** process_uplink_msbc_frames: the words lag the frame bytes by 60 - lead. */
    method Process(ps: seq<payload>) returns (words: seq<word>)
      requires Valid()
      modifies `total, frame
      ensures words == Emitted(old(frame[..FRAME]), old(total), lead, ps)
      ensures frame[..FRAME] == Kept(old(frame[..FRAME]), old(total), ps)
      ensures total == old(total) + |ps|
    {
      ghost var n, last := total, frame[..FRAME];
      words := [];
      EmitNone(last, n, lead);
      hide Emitted, Kept, FrameBytes, Words;
      for i := 0 to |ps|
        invariant total == n + i
        invariant words == Emitted(last, n, lead, ps[..i])
        invariant frame[..FRAME] == Kept(last, n, ps[..i])
      {
        var w := ProcessOne(ps[i]);
        words := words + w;
        EmitOne(last, n, lead, ps[..i], ps[i]);
        assert ps[..i] + [ps[i]] == ps[..i + 1];
        total := total + 1;
      }
      assert ps[..|ps|] == ps;
    }

    /** One turn of the loop: the frame goes in behind the kept one, a frame's worth of words
        comes out, and the new frame is kept. */
    method ProcessOne(p: payload) returns (w: seq<word>)
      requires Valid()
      modifies frame
      ensures var both := old(frame[..FRAME]) + FrameBytes(total, p);
              w == Words(both[lead..lead + FRAME]) && frame[..FRAME] == both[FRAME..]
    {
      hide FrameBytes, Words;
      Compose(p);
      w := Output();
      assert frame[FRAME..] == frame[..][FRAME..];
      Shift();
    }

    /** Header, payload and padding go to the upper half of the buffer. */
    method Compose(p: payload)
      requires Valid()
      modifies frame
      ensures frame[..] == old(frame[..FRAME]) + FrameBytes(total, p)
    {
      forall i | 0 <= i < 57 {
        frame[FRAME + 2 + i] := p[i];
      }
      frame[FRAME] := 0x01;
      frame[FRAME + 1] := Sequence(total);
      frame[FRAME + 59] := 0x00;
    }

    method Output() returns (w: seq<word>)
      requires Valid()
      ensures w == Words(frame[..][lead..lead + FRAME])
    {
      w := [];
      for i := 0 to FRAME
        invariant w == Words(frame[..][lead..lead + i])
      {
        w := w + [Shifted(frame[lead + i])];
      }
    }

    method Shift()
      requires Valid()
      modifies frame
      ensures frame[..FRAME] == old(frame[FRAME..])
    {
      for i := 0 to FRAME
        invariant frame[..i] == old(frame[FRAME..FRAME + i])
        invariant forall x :: i <= x < frame.Length ==> frame[x] == old(frame[x])
      {
        frame[i] := frame[FRAME + i];
      }
    }
  }

  /** What one call writes, and what it leaves in the lower half of the buffer. */
  function Emitted(last: seq<byte>, n: nat, lead: nat, ps: seq<payload>): (w: seq<word>)
    requires |last| == FRAME && lead <= FRAME
    ensures |w| == FRAME * |ps|
  {
    Words((last + Stream(n, ps))[lead..lead + FRAME * |ps|])
  }

  function Kept(last: seq<byte>, n: nat, ps: seq<payload>): (b: seq<byte>)
    requires |last| == FRAME
    ensures |b| == FRAME
  {
    (last + Stream(n, ps))[FRAME * |ps|..]
  }

  /** Splitting a run of payloads splits what is sent and threads what is kept. */
  lemma EmitSplit(last: seq<byte>, n: nat, lead: nat, a: seq<payload>, b: seq<payload>)
    requires |last| == FRAME && lead <= FRAME
    ensures Emitted(last, n, lead, a + b) == Emitted(last, n, lead, a) + Emitted(Kept(last, n, a), n + |a|, lead, b)
    ensures Kept(last, n, a + b) == Kept(Kept(last, n, a), n + |a|, b)
  {
    hide Stream, Words;
    StreamAppend(n, a, b);
    var s, r, cut := last + Stream(n, a), Stream(n + |a|, b), FRAME * |a|;
    Regroup(last, Stream(n, a), r);
    DropOfSum(s, r, cut);
    SliceOfSlice(s + r, cut, lead, lead + FRAME * |b|);
    WordsSplit(s[lead..lead + cut], (s + r)[cut + lead..cut + lead + FRAME * |b|]);
    assert s[lead..lead + cut] + (s + r)[cut + lead..cut + lead + FRAME * |b|] == (s + r)[lead..lead + FRAME * |a + b|];
  }

  lemma EmitOne(last: seq<byte>, n: nat, lead: nat, ps: seq<payload>, p: payload)
    requires |last| == FRAME && lead <= FRAME
    ensures var both := Kept(last, n, ps) + FrameBytes(n + |ps|, p);
            && Emitted(last, n, lead, ps + [p]) == Emitted(last, n, lead, ps) + Words(both[lead..lead + FRAME])
            && Kept(last, n, ps + [p]) == both[FRAME..]
  {
    hide Kept, Emitted;
    EmitSplit(last, n, lead, ps, [p]);
    EmitSingle(Kept(last, n, ps), n + |ps|, lead, p);
  }

  lemma EmitSingle(last: seq<byte>, n: nat, lead: nat, p: payload)
    requires |last| == FRAME && lead <= FRAME
    ensures var both := last + FrameBytes(n, p);
            Emitted(last, n, lead, [p]) == Words(both[lead..lead + FRAME]) && Kept(last, n, [p]) == both[FRAME..]
  {
    assert Stream(n, [p]) == FrameBytes(n, p);
  }

  lemma EmitNone(last: seq<byte>, n: nat, lead: nat)
    requires |last| == FRAME && lead <= FRAME
    ensures Emitted(last, n, lead, []) == [] && Kept(last, n, []) == last
  {
    assert last + [] == last;
  }

  /** The words of a whole run of calls. */
  function Outputs(last: seq<byte>, n: nat, lead: nat, calls: seq<seq<payload>>): seq<word>
    requires |last| == FRAME && lead <= FRAME
    decreases |calls|
  {
    if calls == [] then []
    else Emitted(last, n, lead, calls[0]) + Outputs(Kept(last, n, calls[0]), n + |calls[0]|, lead, calls[1..])
  }

  lemma {:induction false} OutputsOfOneCall(last: seq<byte>, n: nat, lead: nat, calls: seq<seq<payload>>)
    requires |last| == FRAME && lead <= FRAME
    ensures Outputs(last, n, lead, calls) == Emitted(last, n, lead, Concat(calls))
    decreases |calls|
  {
    hide Stream, Words, Kept;
    if calls == [] {
      assert |Emitted(last, n, lead, [])| == 0;
    } else {
      hide Emitted;
      OutputsOfOneCall(Kept(last, n, calls[0]), n + |calls[0]|, lead, calls[1..]);
      EmitSplit(last, n, lead, calls[0], Concat(calls[1..]));
    }
  }

  /** However the payloads are cut into calls, the words are the frame bytes at a fixed delay. */
  lemma ConstantDelay(last: seq<byte>, n: nat, lead: nat, calls: seq<seq<payload>>)
    requires |last| == FRAME && lead <= FRAME
    ensures var ps := Concat(calls);
            Outputs(last, n, lead, calls) == Words((last + Stream(n, ps))[lead..lead + FRAME * |ps|])
  {
    OutputsOfOneCall(last, n, lead, calls);
  }

  /** The capture path packs the same frames, with the sequence byte kept in a static. */
  class Capture {
    var counter: byte
    ghost var sent: nat

    ghost predicate Valid()
      reads this
    {
      counter == Sequence(sent)
    }

    constructor ()
      ensures Valid() && sent == 0
    {
      counter, sent := 0x08, 0;
    }

    /** get_msbc_counter: stepped before it is used. */
    method NextCounter() returns (c: byte)
      requires Valid()
      modifies this
      ensures Valid() && sent == old(sent) + 1 && c == Sequence(sent)
    {
      if counter == 0x08 {
        counter := 0x38;
      } else if counter == 0x38 {
        counter := 0xc8;
      } else if counter == 0xc8 {
        counter := 0xf8;
      } else if counter == 0xf8 {
        counter := 0x08;
      }
      sent := sent + 1;
      c := counter;
    }

    /** get_voicebtpcm_p2m_frame, the mSBC packing loop: one frame place for each payload, or
        None where the queue holds too little; such a place is left as it was. */
    method Pack(buf: array<word>, ps: seq<Option<payload>>)
      requires Valid() && buf.Length == FRAME * |ps|
      modifies this, buf
      ensures Valid() && sent == old(sent) + |Served(ps)|
      ensures buf[..] == Packed(old(sent) + 1, ps, old(buf[..]))
    {
      hide Words, Sequence, Packed, Served;
      ghost var stale := buf[..];
      PackedNone(sent + 1, stale);
      for j := 0 to |ps|
        invariant Valid() && sent == old(sent) + |Served(ps[..j])|
        invariant PackedTo(old(sent) + 1, ps, stale, j, buf[..])
      {
        hide PackedTo;
        PackedMore(old(sent) + 1, ps, stale, j);
        ghost var before := buf[..];
        if ps[j].Some? {
          var c := NextCounter();
          PackOne(buf, FRAME * j, c, ps[j].value);
        }
        OnePlaceMore(old(sent) + 1, ps, stale, j, before, buf[..]);
      }
      assert ps[..|ps|] == ps && stale[..FRAME * |ps|] == stale && buf[..][..FRAME * |ps|] == buf[..];
    }
  }

  /** The first j places are packed, the others as they were. */
  ghost predicate PackedTo(n: nat, ps: seq<Option<payload>>, stale: seq<word>, j: nat, now: seq<word>)
    requires j <= |ps| && |stale| == |now| == FRAME * |ps|
  {
    now[..FRAME * j] == Packed(n, ps[..j], stale[..FRAME * j]) && now[FRAME * j..] == stale[FRAME * j..]
  }

  lemma OnePlaceMore(n: nat, ps: seq<Option<payload>>, stale: seq<word>, j: nat, before: seq<word>, now: seq<word>)
    requires j < |ps| && |stale| == |before| == |now| == FRAME * |ps|
    requires PackedTo(n, ps, stale, j, before)
    requires now[..FRAME * j] == before[..FRAME * j] && now[FRAME * j + FRAME..] == before[FRAME * j + FRAME..]
    requires match ps[j]
             case Some(p) => now[FRAME * j..FRAME * j + FRAME] == Words(FrameBytes(n + |Served(ps[..j])|, p))
             case None => now == before
    ensures PackedTo(n, ps, stale, j + 1, now)
  {
    hide Packed, Served, Words, FrameBytes;
    PackedMore(n, ps, stale, j);
    SliceOfSlice(before, FRAME * j, 0, FRAME);
    SliceOfSlice(stale, FRAME * j, 0, FRAME);
    DropTwice(before, FRAME * j, FRAME);
    DropTwice(stale, FRAME * j, FRAME);
    TakeMore(now, FRAME * j, FRAME);
  }

  lemma TakeMore(s: seq<word>, a: nat, n: nat)
    requires a + n <= |s|
    ensures s[..a + n] == s[..a] + s[a..a + n]
  {
  }

  method PackOne(buf: array<word>, at: nat, c: byte, p: payload)
    requires at + FRAME <= buf.Length
    modifies buf
    ensures buf[..][at..at + FRAME] == Words([0x01, c] + p + [0x00])
    ensures buf[..][..at] == old(buf[..][..at]) && buf[..][at + FRAME..] == old(buf[..][at + FRAME..])
  {
    buf[at], buf[at + 1] := Shifted(0x01), Shifted(c);
    for i := 0 to 57
      invariant buf[at] == Shifted(0x01) && buf[at + 1] == Shifted(c)
      invariant forall k :: 0 <= k < i ==> buf[at + 2 + k] == Shifted(p[k])
      invariant forall k :: 0 <= k < buf.Length && !(at <= k < at + FRAME) ==> buf[k] == old(buf[k])
    {
      buf[at + 2 + i] := Shifted(p[i]);
    }
    buf[at + 59] := 0;
  }

  /** The payloads there were. */
  function Served(ps: seq<Option<payload>>): (s: seq<payload>)
    ensures |s| <= |ps|
  {
    if ps == [] then []
    else Served(ps[..|ps| - 1]) + match ps[|ps| - 1] case Some(p) => [p] case None => []
  }

  /** The packed buffer, the first frame with number n, over what it held before. */
  function Packed(n: nat, ps: seq<Option<payload>>, stale: seq<word>): (w: seq<word>)
    requires |stale| == FRAME * |ps|
    ensures |w| == |stale|
    decreases |ps|
  {
    if ps == [] then []
    else
      var m := |ps| - 1;
      Packed(n, ps[..m], stale[..FRAME * m]) +
      match ps[m]
      case Some(p) => Words(FrameBytes(n + |Served(ps[..m])|, p))
      case None => stale[FRAME * m..]
  }

  lemma PackedNone(n: nat, stale: seq<word>)
    ensures Packed(n, [], stale[..0]) == [] && Served([]) == []
  {
  }

  lemma PackedMore(n: nat, ps: seq<Option<payload>>, stale: seq<word>, j: nat)
    requires j < |ps| && |stale| == FRAME * |ps|
    ensures Served(ps[..j + 1]) == Served(ps[..j]) + match ps[j] case Some(p) => [p] case None => []
    ensures Packed(n, ps[..j + 1], stale[..FRAME * (j + 1)]) ==
            Packed(n, ps[..j], stale[..FRAME * j]) +
            match ps[j]
            case Some(p) => Words(FrameBytes(n + |Served(ps[..j])|, p))
            case None => stale[FRAME * j..FRAME * j + FRAME]
  {
    hide Words, FrameBytes, Sequence;
    var qs, was := ps[..j + 1], stale[..FRAME * (j + 1)];
    assert qs[..j] == ps[..j] && was[..FRAME * j] == stale[..FRAME * j];
    assert was[FRAME * j..] == stale[FRAME * j..FRAME * j + FRAME];
    assert |qs| - 1 == j && qs[j] == ps[j];
  }

  lemma WithinPrefix(a: seq<word>, b: seq<word>, lo: nat, hi: nat)
    requires lo <= hi <= |a|
    ensures (a + b)[lo..hi] == a[lo..hi]
    ensures (a + b)[|a|..|a + b|] == b
  {
  }

  /** Place j of the packed buffer: the frame that carries the next number after the payloads
      served before, or what was there. */
  lemma {:induction false} PackedAt(n: nat, ps: seq<Option<payload>>, stale: seq<word>, j: nat)
    requires j < |ps| && |stale| == FRAME * |ps|
    ensures Packed(n, ps, stale)[FRAME * j..FRAME * j + FRAME] ==
            match ps[j]
            case Some(p) => Words(FrameBytes(n + |Served(ps[..j])|, p))
            case None => stale[FRAME * j..FRAME * j + FRAME]
    decreases |ps|
  {
    hide Packed, Served, Words, FrameBytes;
    var m := |ps| - 1;
    PackedMore(n, ps, stale, m);
    assert ps[..m + 1] == ps && stale[..FRAME * (m + 1)] == stale && FRAME * (m + 1) == FRAME * m + FRAME;
    var before, here := Packed(n, ps[..m], stale[..FRAME * m]), Packed(n, ps, stale)[FRAME * m..];
    if j < m {
      PackedAt(n, ps[..m], stale[..FRAME * m], j);
      assert ps[..m][..j] == ps[..j];
      WithinPrefix(before, here, FRAME * j, FRAME * j + FRAME);
      WithinTake(stale, FRAME * m, FRAME * j, FRAME * j + FRAME);
    } else {
      WithinPrefix(before, here, 0, 0);
    }
  }

  /** With no underrun the buffer is the frames of the payloads, in consecutive numbers. */
  lemma {:induction false} PackedIsStream(n: nat, ps: seq<payload>, stale: seq<word>)
    requires |stale| == FRAME * |ps|
    ensures Served(All(ps)) == ps && Packed(n, All(ps), stale) == Words(Stream(n, ps))
    decreases |ps|
  {
    if ps == [] {
      PackedNone(n, stale);
    } else {
      hide *;
      var m := |ps| - 1;
      PackedIsStream(n, ps[..m], stale[..FRAME * m]);
      PackedStreamStep(n, ps, stale);
    }
  }

  lemma PackedStreamStep(n: nat, ps: seq<payload>, stale: seq<word>)
    requires ps != [] && |stale| == FRAME * |ps|
    requires var m := |ps| - 1;
             Served(All(ps[..m])) == ps[..m] && Packed(n, All(ps[..m]), stale[..FRAME * m]) == Words(Stream(n, ps[..m]))
    ensures Served(All(ps)) == ps && Packed(n, All(ps), stale) == Words(Stream(n, ps))
  {
    hide Packed, Served, Words, FrameBytes, Stream;
    var m := |ps| - 1;
    PackedMore(n, All(ps), stale, m);
    assert All(ps)[..m + 1] == All(ps) && stale[..FRAME * (m + 1)] == stale;
    assert All(ps)[..m] == All(ps[..m]) && ps == ps[..m] + [ps[m]];
    StreamSnoc(n, ps[..m], ps[m]);
    WordsSplit(Stream(n, ps[..m]), FrameBytes(n + m, ps[m]));
  }

  function All(ps: seq<payload>): (s: seq<Option<payload>>)
    ensures |s| == |ps|
  {
    seq(|ps|, i requires 0 <= i < |ps| => Some(ps[i]))
  }

  lemma StreamSnoc(n: nat, ps: seq<payload>, p: payload)
    ensures Stream(n, ps + [p]) == Stream(n, ps) + FrameBytes(n + |ps|, p)
  {
    StreamAppend(n, ps, [p]);
    assert Stream(n + |ps|, [p]) == FrameBytes(n + |ps|, p);
  }
}
