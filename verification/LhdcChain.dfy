/** The whole LHDC path: media packets through the assembler, its payloads into the byte queue
    if there is room, and from there through the cache to the decoder on the co-processor. */
module LhdcChain {
  import opened Bytes
  import opened Framing
  import opened LhdcAssembler
  import opened LhdcChannel
  import opened PacketPipeline
  import PacketProgress
  import CpPipeline

  /** seen are the media packets so far, handed the payloads made of them; kept tells which of
      these went into the queue. */
  datatype Chain = Chain(seen: seq<Packet>, asm: Asm, handed: seq<seq<byte>>, kept: seq<bool>, packets: Packets)

  /** A media packet, with whether the queue has room for what it completes, or a step of the
      player and the two cores. */
  datatype ChainStep = Media(p: Packet, room: bool) | Inner(step: PacketStep)

  /** An empty payload is not stored. */
  predicate Stored(payload: Option<seq<byte>>, room: bool) {
    payload.Some? && payload.value != [] && room
  }

  predicate ChainBy(s: Chain, step: ChainStep, t: Chain) {
    match step
    case Media(p, room) =>
      var (a, r) := Receive(s.asm, p);
      && t.seen == s.seen + [p] && t.asm == a
      && t.handed == s.handed + Given(r)
      && t.kept == s.kept + (if r.payload.Some? then [Stored(r.payload, room)] else [])
      && (if Stored(r.payload, room) then StepsBy(Lhdc, s.packets, Accept(r.payload.value), t.packets)
          else t.packets == s.packets)
    case Inner(step) =>
      && !step.Accept? && StepsBy(Lhdc, s.packets, step, t.packets)
      && t == s.(packets := t.packets)
  }

  ghost predicate ChainNext(s: Chain, t: Chain) {
    exists step :: ChainBy(s, step, t)
  }

  ghost predicate ChainRun(run: seq<Chain>) {
    && run != []
    && run[0].seen == [] && run[0].asm == INITIAL && run[0].handed == [] && run[0].kept == []
    && PacketRun(Lhdc, [run[0].packets])
    && forall i :: 0 <= i < |run| - 1 ==> ChainNext(run[i], run[i + 1])
  }

  function Given(r: Result): (s: seq<seq<byte>>) {
    if r.payload.Some? then [r.payload.value] else []
  }

  /** The assembler over a list of packets: its state and the payloads handed out. */
  function Feed(a: Asm, ps: seq<Packet>): (Asm, seq<seq<byte>>)
    decreases |ps|
  {
    if ps == [] then (a, [])
    else
      var (b, r) := Receive(a, ps[0]);
      var (c, more) := Feed(b, ps[1..]);
      (c, Given(r) + more)
  }

  lemma {:induction false} FeedAppend(a: Asm, ps: seq<Packet>, qs: seq<Packet>)
    ensures var (b, out) := Feed(a, ps);
            Feed(a, ps + qs) == (Feed(b, qs).0, out + Feed(b, qs).1)
    decreases |ps|
  {
    hide Receive;
    if ps == [] {
      assert ps + qs == qs && [] + Feed(a, qs).1 == Feed(a, qs).1;
    } else {
      var (b, r) := Receive(a, ps[0]);
      DropOfSum(ps, qs, 1);
      FeedAppend(b, ps[1..], qs);
      Regroup(Given(r), Feed(b, ps[1..]).1, Feed(Feed(a, ps).0, qs).1);
    }
  }

  lemma FeedOne(a: Asm, p: Packet)
    ensures Feed(a, [p]) == (Receive(a, p).0, Given(Receive(a, p).1))
  {
    hide Receive;
    assert [p][1..] == [] && Given(Receive(a, p).1) + [] == Given(Receive(a, p).1);
  }

  /** The packets of a frame, from the o-th on, that the channel lets through. */
  function FrameArrivals(f: Frame, n: int, o: nat, got: seq<bool>): seq<Packet>
    requires o <= |f| && |got| == |f|
    decreases |f| - o
  {
    if o == |f| then []
    else (if got[o] then [PacketOf(f, n, o)] else []) + FrameArrivals(f, n, o + 1, got)
  }

  function Arrivals(fs: seq<Frame>, n: int, got: seq<seq<bool>>): seq<Packet>
    requires |got| == |fs| && forall i :: 0 <= i < |fs| ==> |got[i]| == |fs[i]|
    decreases |fs|
  {
    if fs == [] then []
    else FrameArrivals(fs[0], n, 0, got[0]) + Arrivals(fs[1..], n + |fs[0]|, got[1..])
  }

  lemma {:induction false} FeedIsFrameThrough(a: Asm, f: Frame, n: int, o: nat, got: seq<bool>)
    requires o <= |f| && |got| == |f|
    ensures Feed(a, FrameArrivals(f, n, o, got)) == FrameThrough(a, f, n, o, got)
    decreases |f| - o
  {
    hide Receive;
    if o < |f| {
      if got[o] {
        var p := PacketOf(f, n, o);
        FeedAppend(a, [p], FrameArrivals(f, n, o + 1, got));
        FeedOne(a, p);
        FeedIsFrameThrough(Receive(a, p).0, f, n, o + 1, got);
      } else {
        FeedIsFrameThrough(a, f, n, o + 1, got);
        assert [] + FrameArrivals(f, n, o + 1, got) == FrameArrivals(f, n, o + 1, got);
      }
    }
  }

  lemma {:induction false} FeedIsThrough(a: Asm, fs: seq<Frame>, n: int, got: seq<seq<bool>>)
    requires |got| == |fs| && forall i :: 0 <= i < |fs| ==> |got[i]| == |fs[i]|
    ensures Feed(a, Arrivals(fs, n, got)).1 == Through(a, fs, n, got)
    decreases |fs|
  {
    hide Receive, FrameThrough, FrameArrivals;
    if fs != [] {
      FeedIsFrameThrough(a, fs[0], n, 0, got[0]);
      FeedAppend(a, FrameArrivals(fs[0], n, 0, got[0]), Arrivals(fs[1..], n + |fs[0]|, got[1..]));
      FeedIsThrough(FrameThrough(a, fs[0], n, 0, got[0]).0, fs[1..], n + |fs[0]|, got[1..]);
    }
  }

  /** The payloads that went into the queue. */
  function Kept(handed: seq<seq<byte>>, kept: seq<bool>): (s: seq<seq<byte>>)
    requires |handed| == |kept|
    ensures forall p :: p in s ==> p in handed
  {
    if handed == [] then []
    else
      var k := |handed| - 1;
      Kept(handed[..k], kept[..k]) + if kept[k] then [handed[k]] else []
  }

  lemma KeptOneMore(handed: seq<seq<byte>>, kept: seq<bool>, p: seq<byte>, stored: bool)
    requires |handed| == |kept|
    ensures Kept(handed + [p], kept + [stored]) == Kept(handed, kept) + if stored then [p] else []
  {
    assert (handed + [p])[..|handed|] == handed && (kept + [stored])[..|kept|] == kept;
  }

  lemma {:induction false} KeptAll(handed: seq<seq<byte>>, kept: seq<bool>)
    requires |handed| == |kept| && forall i :: 0 <= i < |kept| ==> kept[i]
    ensures Kept(handed, kept) == handed
  {
    if handed != [] {
      var k := |handed| - 1;
      KeptAll(handed[..k], kept[..k]);
      assert handed == handed[..k] + [handed[k]];
    }
  }

  /** What every state of the chain satisfies. */
  predicate ChainOk(s: Chain) {
    && (s.asm, s.handed) == Feed(INITIAL, s.seen)
    && |s.kept| == |s.handed| && s.packets.sent == Kept(s.handed, s.kept)
  }

  lemma MediaKeepsOk(s: Chain, p: Packet, room: bool, t: Chain)
    requires ChainOk(s) && ChainBy(s, Media(p, room), t)
    ensures ChainOk(t)
  {
    var (a, r) := Receive(s.asm, p);
    FeedAppend(INITIAL, s.seen, [p]);
    FeedOne(s.asm, p);
    if r.payload.Some? {
      KeptOneMore(s.handed, s.kept, r.payload.value, Stored(r.payload, room));
    }
    hide Receive, Feed, Kept;
    assert s.handed + [] == s.handed && s.kept + [] == s.kept;
    assert s.packets.sent + [] == s.packets.sent;
  }

  lemma ChainStepKeepsOk(s: Chain, step: ChainStep, t: Chain)
    requires ChainOk(s) && ChainBy(s, step, t)
    ensures ChainOk(t)
  {
    match step
    case Media(p, room) => MediaKeepsOk(s, p, room, t);
    case Inner(inner) => InnerKeepsSent(s.packets, inner, t.packets);
  }

  lemma InnerKeepsSent(s: Packets, step: PacketStep, t: Packets)
    requires StepsBy(Lhdc, s, step, t) && !step.Accept?
    ensures t.sent == s.sent
  {
  }

  /** The queue, cache and decoder of a chain make a run of their own. */
  lemma {:induction false} ChainRunOk(run: seq<Chain>, k: nat) returns (inner: seq<Packets>)
    requires ChainRun(run) && k < |run|
    ensures ChainOk(run[k]) && PacketRun(Lhdc, inner) && PacketProgress.Last(inner) == run[k].packets
  {
    if k == 0 {
      inner := [run[0].packets];
    } else {
      inner := ChainRunOk(run, k - 1);
      var step :| ChainBy(run[k - 1], step, run[k]);
      ChainStepKeepsOk(run[k - 1], step, run[k]);
      inner := InnerStep(inner, run[k - 1], step, run[k]);
    }
  }

  lemma InnerStep(before: seq<Packets>, s: Chain, step: ChainStep, t: Chain) returns (inner: seq<Packets>)
    requires PacketRun(Lhdc, before) && PacketProgress.Last(before) == s.packets && ChainBy(s, step, t)
    ensures PacketRun(Lhdc, inner) && PacketProgress.Last(inner) == t.packets
  {
    hide PacketRun, StepsBy, Receive;
    match step
    case Media(p, room) =>
      var r := Receive(s.asm, p).1;
      if Stored(r.payload, room) {
        inner := PacketProgress.Extend(Lhdc, before, Accept(r.payload.value), t.packets);
      } else {
        inner := before;
      }
    case Inner(inside) => inner := PacketProgress.Extend(Lhdc, before, inside, t.packets);
  }

  /** Losses of a whole transmission that starts with running number n. */
  ghost predicate Lossy(fs: seq<Frame>, n: int, got: seq<seq<bool>>) {
    && |got| == |fs| && (forall i :: 0 <= i < |fs| ==> |got[i]| == |fs[i]| && WellFormed(fs[i]))
    && LegalLosses(Mark(n - 1, false), n, got)
  }

  lemma HandedIsIntact(s: Chain, fs: seq<Frame>, n: int, got: seq<seq<bool>>)
    requires ChainOk(s) && Lossy(fs, n, got) && s.seen <= Arrivals(fs, n, got)
    ensures s.handed <= Intact(fs, got)
    ensures s.seen == Arrivals(fs, n, got) ==> s.handed == Intact(fs, got)
  {
    hide Feed, Through, LegalLosses, WellFormed, Receive, Arrivals;
    var ps := Arrivals(fs, n, got);
    ExactlyIntactFramesArrive(INITIAL, fs, n, Mark(n - 1, false), got);
    FeedIsThrough(INITIAL, fs, n, got);
    assert ps == s.seen + ps[|s.seen|..];
    FeedAppend(INITIAL, s.seen, ps[|s.seen|..]);
  }

  lemma {:induction false} IntactAreSmall(fs: seq<Frame>, got: seq<seq<bool>>)
    requires |got| == |fs| && forall i :: 0 <= i < |fs| ==> WellFormed(fs[i])
    ensures forall p :: p in Intact(fs, got) ==> |p| < PACKET_BUFFER_LENGTH
    decreases |fs|
  {
    hide Concat;
    if fs != [] {
      IntactAreSmall(fs[1..], got[1..]);
    }
  }

  /** End to end. Let the media packets so far be what a lossy channel lets through of a
      transmission, with losses that show in the packet numbers. In every state of the whole
      path, under any interleaving: what the assembler has handed out are the first of the
      frames that lost nothing, what was accepted are those among them that found room, and
      what the decoder has got are the first of the accepted ones, whole and in order. */
  lemma DecoderGetsIntactFrames(run: seq<Chain>, k: nat, fs: seq<Frame>, n: int, got: seq<seq<bool>>)
    requires ChainRun(run) && k < |run| && Lossy(fs, n, got) && run[k].seen <= Arrivals(fs, n, got)
    ensures var s := run[k];
            && s.handed <= Intact(fs, got) && (s.seen == Arrivals(fs, n, got) ==> s.handed == Intact(fs, got))
            && |s.kept| == |s.handed| && s.packets.sent == Kept(s.handed, s.kept)
            && s.packets.delivered <= s.packets.sent
            && ((forall i :: 0 <= i < |s.kept| ==> s.kept[i]) ==> s.packets.delivered <= Intact(fs, got))
  {
    var s := run[k];
    var inner := ChainRunOk(run, k);
    HandedIsIntact(s, fs, n, got);
    SentAreExact(s, fs, n, got);
    PacketsArriveInOrder(Lhdc, inner, |inner| - 1);
    hide ChainRun, PacketRun, Intact, Arrivals, LegalLosses;
    if forall i :: 0 <= i < |s.kept| ==> s.kept[i] {
      KeptAll(s.handed, s.kept);
    }
  }

  lemma SentAreExact(s: Chain, fs: seq<Frame>, n: int, got: seq<seq<bool>>)
    requires ChainOk(s) && Lossy(fs, n, got) && s.handed <= Intact(fs, got)
    ensures AllExact(Lhdc, s.packets.sent)
    ensures forall p :: p in s.packets.sent ==> |p| < PACKET_BUFFER_LENGTH
  {
    hide LegalLosses, Feed;
    IntactAreSmall(fs, got);
  }

  /** And every accepted frame can still reach the decoder, from every state of the path: the
      cache only has to be larger than the largest container. */
  lemma AcceptedFramesCanBeDelivered(run: seq<Chain>, k: nat, fs: seq<Frame>, n: int, got: seq<seq<bool>>)
    returns (inner: seq<Packets>, longer: seq<Packets>)
    requires ChainRun(run) && k < |run| && Lossy(fs, n, got) && run[k].seen <= Arrivals(fs, n, got)
    requires LHDC_HEADER_SIZE + PACKET_BUFFER_LENGTH <= |run[k].packets.base.mem|
    ensures PacketRun(Lhdc, inner) && PacketProgress.Last(inner) == run[k].packets
    ensures PacketProgress.Continues(Lhdc, inner, longer)
    ensures PacketProgress.Last(longer).sent == PacketProgress.Last(longer).delivered == run[k].packets.sent
  {
    var s := run[k];
    inner := ChainRunOk(run, k);
    HandedIsIntact(s, fs, n, got);
    SentAreExact(s, fs, n, got);
    PacketsArriveInOrder(Lhdc, inner, |inner| - 1);
    hide ChainRun, PacketRun, Intact, Arrivals, LegalLosses;
    longer := PacketProgress.AllUpToCanBeDelivered(Lhdc, inner, |s.packets.sent|);
    assert s.packets.sent[..|s.packets.sent|] == s.packets.sent;
  }
}
