/** What the two cores can always still do: from every reachable state there are steps by which
    the next packet is delivered, or by which the length of one that is too long arrives. */
module PacketProgress {
  import opened Bytes
  import opened Framing
  import opened CpInCache
  import opened CpPipeline
  import opened PacketPipeline
  import Ring

  function Last(run: seq<Packets>): Packets
    requires run != []
  {
    run[|run| - 1]
  }

  /** longer goes on from run with further steps. */
  ghost predicate Continues(f: Format, run: seq<Packets>, longer: seq<Packets>) {
    PacketRun(f, longer) && run != [] && run <= longer
  }

  lemma Extend(f: Format, run: seq<Packets>, step: PacketStep, t: Packets) returns (longer: seq<Packets>)
    requires PacketRun(f, run) && StepsBy(f, Last(run), step, t)
    ensures Continues(f, run, longer) && Last(longer) == t
  {
    longer := run + [t];
    assert PacketNext(f, Last(run), t);
    forall i | 0 <= i < |longer| - 1 ensures PacketNext(f, longer[i], longer[i + 1]) {
      assert i < |run| - 1 ==> PacketNext(f, run[i], run[i + 1]);
    }
  }

  /** One step of a core other than a consumption: packets and shared bytes stay in step. */
  lemma ExtendCore(f: Format, run: seq<Packets>, core: Step) returns (longer: seq<Packets>)
    requires PacketRun(f, run) && AllExact(f, Last(run).sent)
    requires InRange(Last(run).base) && Enabled(Last(run).base, core)
    requires !core.Enqueue? && !core.CpConsume? && !core.ResetQueue?
    ensures Continues(f, run, longer)
    ensures var s, t := Last(run), Last(longer);
            && t == s.(base := Apply(s.base, core))
            && PacketInv(f, s) && PacketInv(f, t) && Unread(s.base) <= Unread(t.base)
            && Unread(t.base) + Waiting(t.base) == Unread(s.base) + Waiting(s.base)
  {
    hide Ring.Read, EncodeAll;
    PacketRunInv(f, run, |run| - 1);
    var s := Last(run);
    var t := s.(base := Apply(s.base, core));
    assert StepsTo(s.base, core, t.base);
    longer := Extend(f, run, Core(core), t);
    CoreKeepsInv(f, s, core, t);
    UnreadOnlyGrows(s.base, core);
    SameTail(s.base, t.base);
  }

  /** Between what was accepted and what was consumed lie the unread and the waiting bytes. */
  lemma SameTail(s: State, t: State)
    requires Inv(s) && Inv(t) && s.accepted == t.accepted && s.consumed == t.consumed
    ensures Unread(s) + Waiting(s) == Unread(t) + Waiting(t)
  {
    assert s.accepted == s.consumed + (Unread(s) + Waiting(s));
    assert t.accepted == t.consumed + (Unread(t) + Waiting(t));
    assert Unread(s) + Waiting(s) == s.accepted[|s.consumed|..];
  }

  /** What phases of the MCU leave as it was. */
  predicate McuOnly(s: Packets, t: Packets) {
    && t.sent == s.sent && t.delivered == s.delivered && t.reset == s.reset
    && t.base.cp == s.base.cp && t.base.rpos == s.base.rpos && |t.base.mem| == |s.base.mem|
    && t.base.accepted == s.base.accepted
  }

  /** The MCU copies the rest of what it picked up and publishes it. */
  lemma {:induction false} FinishCopy(f: Format, run: seq<Packets>) returns (longer: seq<Packets>)
    requires PacketRun(f, run) && AllExact(f, Last(run).sent) && Last(run).base.mcu.McuCopying?
    ensures Continues(f, run, longer) && McuOnly(Last(run), Last(longer))
    ensures InRange(Last(run).base) && InRange(Last(longer).base)
    ensures var s, t := Last(run).base, Last(longer).base;
            && t.mcu == McuPublished(|s.mcu.data|) && t.queue == s.queue
            && Unread(t) == Unread(s) + s.mcu.data
    decreases |Last(run).base.mcu.data| - Last(run).base.mcu.done
  {
    PacketRunInv(f, run, |run| - 1);
    var s := Last(run).base;
    CopyFits(s);
    hide Ring.Read, EncodeAll, Inv;
    if s.mcu.done < |s.mcu.data| {
      WriteByteKeeps(s);
      var next := ExtendCore(f, run, McuWriteByte);
      longer := FinishCopy(f, next);
    } else {
      PublishKeeps(s);
      longer := ExtendCore(f, run, McuPublish);
    }
  }

  lemma CopyFits(s: State)
    requires Inv(s) && s.mcu.McuCopying?
    ensures s.mcu.done <= |s.mcu.data| < |s.mem|
  {
  }

  /** Steps of the MCU that change only its own state and the queue. */
  ghost predicate Quiet(s: Packets, t: Packets) {
    && McuOnly(s, t) && InRange(s.base) && InRange(t.base) && Unread(t.base) == Unread(s.base)
  }

  lemma Snapshot(f: Format, run: seq<Packets>) returns (longer: seq<Packets>)
    requires PacketRun(f, run) && AllExact(f, Last(run).sent) && Last(run).base.mcu == McuIdle
    ensures Continues(f, run, longer) && Quiet(Last(run), Last(longer))
    ensures var s, t := Last(run).base, Last(longer).base;
            t.mcu == McuSnapped(s.rpos) && t.queue == s.queue && t.wpos == s.wpos
  {
    hide EncodeAll, Ring.Read, PacketInv;
    PacketRunInv(f, run, |run| - 1);
    assert InRange(Last(run).base) by { PacketInRange(f, Last(run)); }
    longer := ExtendCore(f, run, McuSnapshot);
  }

  lemma PacketInRange(f: Format, s: Packets)
    requires PacketInv(f, s)
    ensures Inv(s.base) && InRange(s.base)
  {
  }

  lemma Peek(f: Format, run: seq<Packets>, n: nat) returns (longer: seq<Packets>)
    requires PacketRun(f, run) && AllExact(f, Last(run).sent) && Last(run).base.mcu.McuSnapped?
    requires InRange(Last(run).base) && Enabled(Last(run).base, McuPeek(n))
    ensures Continues(f, run, longer) && Quiet(Last(run), Last(longer))
    ensures var s, t := Last(run).base, Last(longer).base;
            n <= |s.queue| && t.mcu == McuCopying(s.mcu.snapR, s.queue[..n], 0) && t.queue == s.queue
  {
    hide EncodeAll, Ring.Read, PacketInv;
    longer := ExtendCore(f, run, McuPeek(n));
  }

  lemma Dequeue(f: Format, run: seq<Packets>) returns (longer: seq<Packets>)
    requires PacketRun(f, run) && AllExact(f, Last(run).sent) && Last(run).base.mcu.McuPublished?
    ensures Continues(f, run, longer) && Quiet(Last(run), Last(longer))
    ensures Last(longer).base.mcu == McuIdle
  {
    hide EncodeAll, Ring.Read;
    PacketRunInv(f, run, |run| - 1);
    longer := ExtendCore(f, run, McuDequeue);
  }

  /** Whatever the MCU is at, it gets back to where it takes a new snapshot. */
  lemma McuToIdle(f: Format, run: seq<Packets>) returns (longer: seq<Packets>)
    requires PacketRun(f, run) && AllExact(f, Last(run).sent)
    ensures Continues(f, run, longer) && McuOnly(Last(run), Last(longer)) && Last(longer).base.mcu == McuIdle
  {
    PacketRunInv(f, run, |run| - 1);
    PacketInRange(f, Last(run));
    hide EncodeAll, Ring.Read, PacketInv, Inv, PacketRun, Quiet;
    longer := run;
    if Last(longer).base.mcu.McuSnapped? {
      assert InRange(Last(longer).base) && Enabled(Last(longer).base, McuPeek(0)) by { CanPeekNothing(Last(run).base); }
      longer := Peek(f, longer, 0);
      QuietIsMcuOnly(Last(run), Last(longer));
    }
    if Last(longer).base.mcu.McuCopying? {
      longer := FinishCopy(f, longer);
    }
    if Last(longer).base.mcu.McuPublished? {
      var before := longer;
      longer := Dequeue(f, longer);
      QuietIsMcuOnly(Last(before), Last(longer));
    }
  }

  lemma QuietIsMcuOnly(s: Packets, t: Packets)
    requires Quiet(s, t)
    ensures McuOnly(s, t)
  {
  }

  lemma CanPeekNothing(s: State)
    requires Inv(s) && s.mcu.McuSnapped?
    ensures InRange(s) && Enabled(s, McuPeek(0))
  {
  }

  /** One whole transfer with a fresh snapshot: the cache then holds all there is, or is full. */
  lemma FillCache(f: Format, run: seq<Packets>) returns (longer: seq<Packets>)
    requires PacketRun(f, run) && AllExact(f, Last(run).sent) && Last(run).base.mcu == McuIdle
    ensures Continues(f, run, longer) && McuOnly(Last(run), Last(longer))
    ensures InRange(Last(run).base) && InRange(Last(longer).base)
    ensures var s, t := Last(run).base, Last(longer).base;
            var total := |Unread(s)| + |Waiting(s)|;
            |Unread(t)| == if total < |s.mem| then total else |s.mem| - 1
  {
    PacketRunInv(f, run, |run| - 1);
    PacketInRange(f, Last(run));
    var s := Last(run).base;
    var free := Free(s.wpos, s.rpos, |s.mem|);
    var n := Min(|s.queue|, free);
    assert |Unread(s)| + free == |s.mem| - 1;
    hide EncodeAll, Ring.Read, PacketInv, Inv, PacketRun, Unread, Free;
    var r1 := Snapshot(f, run);
    var r2 := Peek(f, r1, n);
    var r3 := FinishCopy(f, r2);
    longer := Dequeue(f, r3);
    assert |Unread(Last(longer).base)| == |Unread(s)| + n;
  }

  /** What steps of the CP leave as it was. */
  ghost predicate CpOnly(s: Packets, t: Packets) {
    && InRange(s.base) && InRange(t.base)
    && t.sent == s.sent && t.base.mcu == s.base.mcu && t.base.queue == s.base.queue
    && t.base.mem == s.base.mem && t.base.wpos == s.base.wpos
  }

  /** The CP has read all that its snapshot lets it see. */
  predicate AllRead(s: State) {
    InRange(s) && s.cp.CpReading? && |s.cp.got| == Ring.Used(s.cp.snapW, s.rpos, |s.mem|)
  }

  lemma {:induction false} ReadAll(f: Format, run: seq<Packets>) returns (longer: seq<Packets>)
    requires PacketRun(f, run) && AllExact(f, Last(run).sent) && Last(run).base.cp.CpReading?
    requires InRange(Last(run).base)
             && |Last(run).base.cp.got| <= Ring.Used(Last(run).base.cp.snapW, Last(run).base.rpos, |Last(run).base.mem|)
    ensures Continues(f, run, longer) && CpOnly(Last(run), Last(longer)) && AllRead(Last(longer).base)
    ensures var s, t := Last(run), Last(longer);
            t.base.rpos == s.base.rpos && t.base.cp.snapW == s.base.cp.snapW && t.delivered == s.delivered
    decreases Ring.Used(Last(run).base.cp.snapW, Last(run).base.rpos, |Last(run).base.mem|) - |Last(run).base.cp.got|
  {
    hide EncodeAll, Ring.Read, PacketInv;
    var s := Last(run).base;
    if |s.cp.got| < Ring.Used(s.cp.snapW, s.rpos, |s.mem|) {
      var next := ExtendCore(f, run, CpReadByte);
      longer := ReadAll(f, next);
    } else {
      longer := run;
    }
  }

  /** The load itself: the next packet is delivered if it is taken and all of it was read, and
      nothing else happens to the bytes. */
  lemma LoadAfterRead(f: Format, run: seq<Packets>) returns (longer: seq<Packets>)
    requires PacketRun(f, run) && AllExact(f, Last(run).sent) && AllRead(Last(run).base)
    ensures Continues(f, run, longer) && CpOnly(Last(run), Last(longer)) && Last(longer).base.cp == CpIdle
    ensures var s, t := Last(run), Last(longer);
            && s.delivered <= s.sent
            && if |s.delivered| < |s.sent| && Taken(f, s.sent[|s.delivered|])
                  && |Encode(f, s.sent[|s.delivered|])| <= |s.base.cp.got|
               then t.delivered == s.delivered + [s.sent[|s.delivered|]]
               else t.delivered == s.delivered && t.base.rpos == s.base.rpos
  {
    hide EncodeAll, Ring.Read, Encode;
    PacketRunInv(f, run, |run| - 1);
    var s := Last(run);
    LoadIsNextPacket(f, s, s.base.cp.got);
    var t := ApplyLoad(s, Parse(f, s.base.cp.got));
    longer := Extend(f, run, Load, t);
  }

  /** The CP finishes the load it is in. Either that delivers the next packet, or it changes
      nothing that is shared. */
  lemma CpToIdle(f: Format, run: seq<Packets>) returns (longer: seq<Packets>)
    requires PacketRun(f, run) && AllExact(f, Last(run).sent)
    ensures Continues(f, run, longer) && CpOnly(Last(run), Last(longer)) && Last(longer).base.cp == CpIdle
    ensures var s, t := Last(run), Last(longer);
            && s.delivered <= s.sent
            && (|| (t.delivered == s.delivered && t.base.rpos == s.base.rpos)
                || (|s.delivered| < |s.sent| && t.delivered == s.delivered + [s.sent[|s.delivered|]]))
  {
    PacketRunInv(f, run, |run| - 1);
    PacketInRange(f, Last(run));
    longer := run;
    if Last(run).base.cp.CpReading? {
      hide EncodeAll, Ring.Read, Encode, PacketRun;
      var r := ReadAll(f, run);
      longer := LoadAfterRead(f, r);
    }
  }

  /** A load with a fresh snapshot sees every unread byte. */
  lemma FreshLoad(f: Format, run: seq<Packets>) returns (longer: seq<Packets>)
    requires PacketRun(f, run) && AllExact(f, Last(run).sent) && Last(run).base.cp == CpIdle
    requires |Last(run).delivered| < |Last(run).sent| && Taken(f, Last(run).sent[|Last(run).delivered|])
    requires InRange(Last(run).base) && |Encode(f, Last(run).sent[|Last(run).delivered|])| <= |Unread(Last(run).base)|
    ensures Continues(f, run, longer)
    ensures Last(longer).sent == Last(run).sent && Last(longer).base.mem == Last(run).base.mem
    ensures Last(longer).delivered == Last(run).delivered + [Last(run).sent[|Last(run).delivered|]]
  {
    hide EncodeAll, Ring.Read, Encode, PacketInv;
    var r1 := ExtendCore(f, run, CpSnapshot);
    var r2 := ReadAll(f, r1);
    longer := LoadAfterRead(f, r2);
  }

  /** All bytes of the packets not delivered yet are in the cache or wait in the queue. */
  lemma RestIsThere(f: Format, s: Packets)
    requires PacketInv(f, s) && InStep(f, s) && |s.delivered| < |s.sent|
    ensures |Encode(f, s.sent[|s.delivered|])| <= |Unread(s.base)| + |Waiting(s.base)|
  {
    var rest := s.sent[|s.delivered|..];
    assert s.sent == s.delivered + rest;
    EncodeAllAppend(f, s.delivered, rest);
    assert EncodeAll(f, rest) == Encode(f, rest[0]) + EncodeAll(f, rest[1..]);
  }

  /** The MCU brings all bytes there are into the cache, up to its size. */
  lemma BytesArrive(f: Format, run: seq<Packets>) returns (longer: seq<Packets>)
    requires PacketRun(f, run) && AllExact(f, Last(run).sent)
    requires |Last(run).delivered| < |Last(run).sent| && InStep(f, Last(run))
    ensures Continues(f, run, longer) && McuOnly(Last(run), Last(longer))
    ensures var s, t := Last(run), Last(longer);
            InRange(t.base) && (|Unread(t.base)| >= |Encode(f, s.sent[|s.delivered|])|
             || |Unread(t.base)| == |t.base.mem| - 1)
  {
    PacketRunInv(f, run, |run| - 1);
    longer := McuToIdle(f, run);
    PacketRunInv(f, longer, |longer| - 1);
    McuKeepsInStep(f, Last(run), Last(longer));
    RestIsThere(f, Last(longer));
    hide PacketInv, PacketRun, Encode, EncodeAll, Ring.Read, InStep;
    longer := FillCache(f, longer);
  }

  lemma McuKeepsInStep(f: Format, s: Packets, t: Packets)
    requires PacketInv(f, s) && PacketInv(f, t) && InStep(f, s) && McuOnly(s, t)
    ensures InStep(f, t)
  {
  }

  /** Progress: from every reachable state the next packet, if it is taken and smaller than the
      cache, is delivered by finitely many steps of the two cores. */
  lemma NextPacketCanBeDelivered(f: Format, run: seq<Packets>) returns (longer: seq<Packets>)
    requires PacketRun(f, run) && AllExact(f, Last(run).sent)
    requires |Last(run).delivered| < |Last(run).sent| && Taken(f, Last(run).sent[|Last(run).delivered|])
    requires |Encode(f, Last(run).sent[|Last(run).delivered|])| < |Last(run).base.mem|
    ensures Continues(f, run, longer) && Last(longer).sent == Last(run).sent
    ensures |Last(longer).base.mem| == |Last(run).base.mem|
    ensures Last(longer).delivered == Last(run).delivered + [Last(run).sent[|Last(run).delivered|]]
  {
    PacketRunInv(f, run, |run| - 1);
    TakenIsInStep(f, Last(run));
    hide PacketInv, PacketRun, Encode, EncodeAll, Ring.Read, InStep, Taken;
    var r1 := BytesArrive(f, run);
    var r2 := CpToIdle(f, r1);
    if Last(r2).delivered == Last(r1).delivered {
      longer := FreshLoad(f, r2);
    } else {
      longer := r2;
    }
  }

  lemma TakenIsInStep(f: Format, s: Packets)
    requires PacketInv(f, s) && |s.delivered| < |s.sent| && Taken(f, s.sent[|s.delivered|])
    ensures InStep(f, s)
  {
  }

  /** So all packets up to any that is not taken can still be delivered, in every reachable
      state; with PacketsArriveInOrder these are exactly the ones that ever are. */
  lemma {:induction false} AllUpToCanBeDelivered(f: Format, run: seq<Packets>, n: nat) returns (longer: seq<Packets>)
    requires PacketRun(f, run) && AllExact(f, Last(run).sent) && |Last(run).delivered| <= n <= |Last(run).sent|
    requires forall i :: 0 <= i < n ==>
               && Taken(f, Last(run).sent[i])
               && |Encode(f, Last(run).sent[i])| < |Last(run).base.mem|
    ensures Continues(f, run, longer) && Last(longer).sent == Last(run).sent
    ensures Last(longer).delivered == Last(run).sent[..n]
    decreases n - |Last(run).delivered|
  {
    if |Last(run).delivered| == n {
      longer := run;
      PacketsArriveInOrder(f, run, |run| - 1);
    } else {
      hide PacketRun, Encode, Taken;
      var next := NextPacketCanBeDelivered(f, run);
      longer := AllUpToCanBeDelivered(f, next, n);
    }
  }

  /** And the length of one that is too long arrives: from every reachable state in which such
      a packet is next, finitely many steps lead to where no byte is taken any more. */
  lemma OversizeArrives(run: seq<Packets>) returns (longer: seq<Packets>)
    requires PacketRun(Aac, run) && AllExact(Aac, Last(run).sent)
    requires |Last(run).delivered| < |Last(run).sent| && !Taken(Aac, Last(run).sent[|Last(run).delivered|])
    requires |Last(run).base.mem| > 2
    ensures Continues(Aac, run, longer) && Last(longer).sent == Last(run).sent
    ensures Inv(Last(longer).base) && OversizeAhead(Last(longer).base)
  {
    PacketRunInv(Aac, run, |run| - 1);
    longer := run;
    if InStep(Aac, Last(run)) {
      longer := BytesArrive(Aac, run);
      PacketRunInv(Aac, longer, |longer| - 1);
      OversizeAheadIff(longer, |longer| - 1);
    }
  }

  /** A run that wedges: an oversize packet accepted at the start. */
  lemma WedgedRun(p: seq<byte>, mem: seq<byte>) returns (run: seq<Packets>)
    requires AAC_LIMIT <= |p| < 0x1_0000 && |mem| > 2
    ensures PacketRun(Aac, run) && Last(run).sent == [p] && OversizeAhead(Last(run).base)
  {
    var s0 := Packets(State(mem, 0, 0, [], McuIdle, CpIdle, [], [], []), [], [], false);
    var t := s0.(base := Apply(s0.base, Enqueue(Encode(Aac, p))), sent := [p]);
    assert [] + [p] == [p];
    run := Extend(Aac, [s0], Accept(p), t);
    run := OversizeArrives(run);
  }
}
