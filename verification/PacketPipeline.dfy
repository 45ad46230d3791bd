/** Whole packets through the two-core pipeline: packets are framed into the byte queue,
    the MCU moves their bytes in pieces of any size, and the CP takes a packet out when all
    of its bytes are visible. A header that is rejected has the player reset the queue. */
module PacketPipeline {
  import opened Bytes
  import opened Framing
  import opened CpPipeline
  import Ring

  /** reset is the player's dec_reset_queue. */
  datatype Packets = Packets(base: State, sent: seq<seq<byte>>, delivered: seq<seq<byte>>, reset: bool)

  /** Load stands for the load function of the format once the CP has read what it can see. */
  datatype PacketStep = Accept(p: seq<byte>) | Core(step: Step) | Load | Reset

  predicate StepsBy(f: Format, s: Packets, step: PacketStep, t: Packets) {
    InRange(s.base) &&
    match step
    case Accept(p) => t == s.(base := Apply(s.base, Enqueue(Encode(f, p))), sent := s.sent + [p])
    case Core(core) =>
      && !core.Enqueue? && !core.CpConsume? && !core.ResetQueue? && StepsTo(s.base, core, t.base)
      && t == s.(base := t.base)
    case Load =>
      && s.base.cp.CpReading? && |s.base.cp.got| == Ring.Used(s.base.cp.snapW, s.base.rpos, |s.base.mem|)
      && t == ApplyLoad(s, Parse(f, s.base.cp.got))
    case Reset =>
      && s.reset && Enabled(s.base, ResetQueue)
      && t == s.(base := Apply(s.base, ResetQueue), reset := false)
  }

  /** A successful load publishes the new read position and delivers; any other only gives
      up the snapshot. */
  function ApplyLoad(s: Packets, result: Load): Packets
    requires InRange(s.base) && s.base.cp.CpReading? && |s.base.cp.got| < |s.base.mem|
  {
    match result
    case Frame(p, c) =>
      if c <= |s.base.cp.got| then s.(base := Apply(s.base, CpConsume(c)), delivered := s.delivered + [p])
      else s
    case NeedMore => s.(base := Apply(s.base, CpConsume(0)))
    case BadHeader => s.(base := Apply(s.base, CpConsume(0)), reset := true)
  }

  ghost predicate PacketRun(f: Format, run: seq<Packets>) {
    && run != [] && Init(run[0].base) && run[0].sent == run[0].delivered == [] && !run[0].reset
    && forall i :: 0 <= i < |run| - 1 ==> PacketNext(f, run[i], run[i + 1])
  }

  ghost predicate PacketNext(f: Format, s: Packets, t: Packets) {
    exists step :: StepsBy(f, s, step, t)
  }

  /** The bytes in the pipeline are those of the packets sent. */
  predicate InStep(f: Format, s: Packets) { s.base.accepted == EncodeAll(f, s.sent) }

  /** The head of the unread bytes is an AAC length that the load function rejects. */
  predicate OversizeAhead(s: State) {
    && InRange(s) && |Unread(s)| >= 2
    && LittleEndian(Unread(s)[0], Unread(s)[1], 0, 0) >= AAC_LIMIT
  }

  /** Such a length is that of the next packet; a reset may have thrown bytes away behind it. */
  predicate Wedged(f: Format, s: Packets) {
    f == Aac && OversizeAhead(s.base) && |s.delivered| < |s.sent| && !Taken(f, s.sent[|s.delivered|])
  }

  ghost predicate PacketInv(f: Format, s: Packets) {
    && Inv(s.base)
    && s.delivered <= s.sent
    && s.base.consumed == EncodeAll(f, s.delivered)
    && (forall i :: 0 <= i < |s.delivered| ==> Taken(f, s.delivered[i]))
    && (InStep(f, s) || Wedged(f, s))
    && (s.reset ==> Wedged(f, s))
  }

  predicate AllExact(f: Format, ps: seq<seq<byte>>) {
    forall p :: p in ps ==> Exact(f, p)
  }

  /** What the CP can see is a prefix of the packets it has not delivered yet. */
  lemma VisibleIsPrefixOfRest(f: Format, s: Packets, span: seq<byte>)
    requires PacketInv(f, s) && InStep(f, s) && span <= Unread(s.base)
    ensures span <= EncodeAll(f, s.sent[|s.delivered|..])
  {
    var rest := s.sent[|s.delivered|..];
    assert s.sent == s.delivered + rest;
    assert s.base.accepted == s.base.consumed + Unread(s.base) + Waiting(s.base);
    hide Unread, Waiting, EncodeAll, Inv;
    EncodeAllAppend(f, s.delivered, rest);
    var tail := Unread(s.base) + Waiting(s.base);
    Regroup(s.base.consumed, Unread(s.base), Waiting(s.base));
    DropOfSum(s.base.consumed, tail, |s.base.consumed|);
    DropOfSum(s.base.consumed, EncodeAll(f, rest), |s.base.consumed|);
    assert s.base.consumed[|s.base.consumed|..] == [] && [] + tail == tail
      && [] + EncodeAll(f, rest) == EncodeAll(f, rest);
  }

  /** A load goes by the next undelivered packet: it returns it exactly when all its bytes are
      visible, and rejects it exactly when its length can be seen and is not taken. */
  lemma LoadIsNextPacket(f: Format, s: Packets, span: seq<byte>)
    requires PacketInv(f, s) && AllExact(f, s.sent) && span <= Unread(s.base)
    ensures Parse(f, span) ==
            if |s.delivered| < |s.sent| then HeadLoad(f, s.sent[|s.delivered|], |span|) else NeedMore
  {
    if InStep(f, s) {
      VisibleIsPrefixOfRest(f, s, span);
      StreamHead(f, s.sent[|s.delivered|..], span);
    } else if |span| >= 2 {
      assert span[0] == Unread(s.base)[0] && span[1] == Unread(s.base)[1];
    }
  }

  /** A rejection means that the next packet is too long and that its length has arrived. */
  lemma RejectionMeansWedged(f: Format, s: Packets, span: seq<byte>)
    requires PacketInv(f, s) && AllExact(f, s.sent) && span <= Unread(s.base) && Parse(f, span).BadHeader?
    ensures Wedged(f, s)
  {
    LoadIsNextPacket(f, s, span);
    LoadIsNextPacket(f, s, Unread(s.base));
  }

  lemma AcceptKeepsInv(f: Format, s: Packets, p: seq<byte>)
    requires PacketInv(f, s)
    ensures PacketInv(f, s.(base := Apply(s.base, Enqueue(Encode(f, p))), sent := s.sent + [p]))
  {
    hide Encode, Ring.Read;
    EnqueueKeeps(s.base, Encode(f, p));
    EncodeAllAppend(f, s.sent, [p]);
    assert EncodeAll(f, [p]) == Encode(f, p);
    assert Unread(Apply(s.base, Enqueue(Encode(f, p)))) == Unread(s.base);
  }

  lemma LoadKeepsInv(f: Format, s: Packets)
    requires PacketInv(f, s) && AllExact(f, s.sent) && s.base.cp.CpReading?
    ensures PacketInv(f, ApplyLoad(s, Parse(f, s.base.cp.got)))
  {
    var got := s.base.cp.got;
    LoadIsNextPacket(f, s, got);
    hide Ring.Read;
    match Parse(f, got)
    case Frame(p, c) => DeliverKeepsInv(f, s, p);
    case NeedMore => GiveUpKeepsInv(f, s);
    case BadHeader =>
      GiveUpKeepsInv(f, s);
      RejectionMeansWedged(f, s, got);
  }

  /** Giving up the snapshot changes nothing that is shared. */
  lemma GiveUpKeepsInv(f: Format, s: Packets)
    requires PacketInv(f, s) && s.base.cp.CpReading?
    ensures var t := s.(base := Apply(s.base, CpConsume(0)));
            PacketInv(f, t) && (Wedged(f, s) ==> Wedged(f, t))
  {
    hide Ring.Read, EncodeAll;
    ConsumeKeeps(s.base, 0);
    assert Unread(s.base)[0..] == Unread(s.base);
    assert s.base.consumed + s.base.cp.got[..0] == s.base.consumed;
  }

  lemma DeliverKeepsInv(f: Format, s: Packets, p: seq<byte>)
    requires PacketInv(f, s) && AllExact(f, s.sent) && s.base.cp.CpReading?
    requires |s.delivered| < |s.sent| && p == s.sent[|s.delivered|] && Taken(f, p) && |Encode(f, p)| <= |s.base.cp.got|
    ensures PacketInv(f, s.(base := Apply(s.base, CpConsume(|Encode(f, p)|)), delivered := s.delivered + [p]))
  {
    hide Ring.Read, Parse, Encode, OversizeAhead;
    HeadBytes(f, s, s.base.cp.got);
    ConsumeKeeps(s.base, |Encode(f, p)|);
    EncodeAllAppend(f, s.delivered, [p]);
    assert EncodeAll(f, [p]) == Encode(f, p);
  }

  /** The bytes consumed by a successful load are those of the next packet. */
  lemma HeadBytes(f: Format, s: Packets, span: seq<byte>)
    requires PacketInv(f, s) && InStep(f, s) && span <= Unread(s.base) && |s.delivered| < |s.sent|
    requires |Encode(f, s.sent[|s.delivered|])| <= |span|
    ensures span[..|Encode(f, s.sent[|s.delivered|])|] == Encode(f, s.sent[|s.delivered|])
  {
    VisibleIsPrefixOfRest(f, s, span);
    var rest := s.sent[|s.delivered|..];
    assert EncodeAll(f, rest) == Encode(f, rest[0]) + EncodeAll(f, rest[1..]);
  }

  lemma CoreKeepsInv(f: Format, s: Packets, core: Step, t: Packets)
    requires PacketInv(f, s) && StepsBy(f, s, Core(core), t)
    ensures PacketInv(f, t)
  {
    hide Ring.Read, EncodeAll;
    UnreadOnlyGrows(s.base, core);
    var u, v := Unread(s.base), Unread(t.base);
    assert |u| >= 2 ==> v[0] == u[0] && v[1] == u[1];
  }

  lemma ResetKeepsInv(f: Format, s: Packets)
    requires PacketInv(f, s) && s.reset && Enabled(s.base, ResetQueue)
    ensures PacketInv(f, s.(base := Apply(s.base, ResetQueue), reset := false))
  {
    StepKeepsInv(s.base, ResetQueue);
  }

  lemma PacketStepKeepsInv(f: Format, s: Packets, step: PacketStep, t: Packets)
    requires PacketInv(f, s) && AllExact(f, s.sent) && StepsBy(f, s, step, t)
    ensures PacketInv(f, t)
  {
    match step
    case Accept(p) => AcceptKeepsInv(f, s, p);
    case Core(core) => CoreKeepsInv(f, s, core, t);
    case Load => LoadKeepsInv(f, s);
    case Reset => ResetKeepsInv(f, s);
  }

  lemma {:induction false} PacketRunInv(f: Format, run: seq<Packets>, k: nat)
    requires PacketRun(f, run) && k < |run| && AllExact(f, run[k].sent)
    ensures PacketInv(f, run[k])
  {
    if k > 0 {
      var step :| StepsBy(f, run[k - 1], step, run[k]);
      assert run[k - 1].sent <= run[k].sent;
      PacketRunInv(f, run, k - 1);
      PacketStepKeepsInv(f, run[k - 1], step, run[k]);
    }
  }

  /** End to end, for every run: packets come out whole, equal and in order, whatever the
      pieces in which their bytes travel, and the bytes consumed are exactly theirs. An AAC
      packet of 2048 bytes or more is where this ends: it is never delivered, nor is any
      packet behind it, while all before it may be. */
  lemma PacketsArriveInOrder(f: Format, run: seq<Packets>, k: nat)
    requires PacketRun(f, run) && k < |run| && AllExact(f, run[k].sent)
    ensures run[k].delivered <= run[k].sent
    ensures run[k].base.consumed == EncodeAll(f, run[k].delivered)
    ensures forall i :: 0 <= i < |run[k].delivered| ==> Taken(f, run[k].delivered[i])
    ensures forall i :: 0 <= i < |run[k].sent| && !Taken(f, run[k].sent[i]) ==> |run[k].delivered| <= i
  {
    PacketRunInv(f, run, k);
    assert run[k].delivered == run[k].sent[..|run[k].delivered|];
  }

  /** No wedge otherwise: when the next packet fits and the cache holds as many bytes as the
      longest such packet has, the next load of the CP delivers it. */
  lemma FullCacheDelivers(f: Format, run: seq<Packets>, k: nat)
    requires PacketRun(f, run) && k < |run| && AllExact(f, run[k].sent)
    requires |run[k].delivered| < |run[k].sent| && Fits(f, run[k].sent[|run[k].delivered|])
    requires InRange(run[k].base) && |Unread(run[k].base)| >= MaxEncoded(f)
    ensures Parse(f, Unread(run[k].base)) ==
            Frame(run[k].sent[|run[k].delivered|], |Encode(f, run[k].sent[|run[k].delivered|])|)
  {
    PacketRunInv(f, run, k);
    LoadIsNextPacket(f, run[k], Unread(run[k].base));
  }

  /** The rejected length is at the head exactly when the next packet is too long and two of
      its bytes have arrived. */
  lemma OversizeAheadIff(run: seq<Packets>, k: nat)
    requires PacketRun(Aac, run) && k < |run| && AllExact(Aac, run[k].sent)
    ensures InRange(run[k].base)
    ensures var s := run[k];
            OversizeAhead(s.base) <==>
              |Unread(s.base)| >= 2 && |s.delivered| < |s.sent| && |s.sent[|s.delivered|]| >= AAC_LIMIT
  {
    PacketRunInv(Aac, run, k);
    var s := run[k];
    var u := Unread(s.base);
    LoadIsNextPacket(Aac, s, u);
    hide Inv, PacketInv, Encode, EncodeAll;
    assert Parse(Aac, u).BadHeader? <==> |u| >= 2 && LittleEndian(u[0], u[1], 0, 0) >= AAC_LIMIT;
  }

  /** Then the CP never takes another byte, whatever follows and whatever its length: not even
      the reset of the queue helps, since the bad length is already in the cache. */
  lemma {:induction false} OversizePacketWedges(run: seq<Packets>, i: nat, k: nat)
    requires PacketRun(Aac, run) && i <= k < |run| && Inv(run[i].base) && OversizeAhead(run[i].base)
    ensures Inv(run[k].base) && OversizeAhead(run[k].base)
    ensures run[k].base.rpos == run[i].base.rpos && run[k].delivered == run[i].delivered
  {
    hide Inv, OversizeAhead, Unread, Apply, ApplyLoad;
    if i < k {
      OversizePacketWedges(run, i, k - 1);
      var step :| StepsBy(Aac, run[k - 1], step, run[k]);
      OversizeStep(run[k - 1], step, run[k]);
    }
  }

  lemma OversizeStep(s: Packets, step: PacketStep, t: Packets)
    requires Inv(s.base) && OversizeAhead(s.base) && StepsBy(Aac, s, step, t)
    ensures Inv(t.base) && OversizeAhead(t.base) && t.base.rpos == s.base.rpos && t.delivered == s.delivered
  {
    hide Ring.Read;
    var u := Unread(s.base);
    match step
    case Accept(p) =>
      hide Encode;
      EnqueueKeeps(s.base, Encode(Aac, p));
      assert Unread(t.base) == u;
    case Core(core) =>
      UnreadOnlyGrows(s.base, core);
      assert u <= Unread(t.base);
      assert Unread(t.base)[0] == u[0] && Unread(t.base)[1] == u[1];
    case Load =>
      var got := s.base.cp.got;
      assert got <= u;
      assert |got| >= 2 ==> got[0] == u[0] && got[1] == u[1];
      ConsumeKeeps(s.base, 0);
      assert u[0..] == u;
    case Reset =>
      StepKeepsInv(s.base, ResetQueue);
      assert Unread(t.base) == u;
  }

  lemma UnreadOnlyGrows(s: State, step: Step)
    requires Inv(s) && Enabled(s, step) && !step.CpConsume?
    ensures Inv(Apply(s, step))
    ensures Unread(s) <= Unread(Apply(s, step)) && Apply(s, step).rpos == s.rpos
  {
    StepKeepsInv(s, step);
    var t := Apply(s, step);
    assert s.moved <= t.moved && s.consumed == t.consumed;
    assert Unread(s) == s.moved[|s.consumed|..] && Unread(t) == t.moved[|t.consumed|..];
  }
}
