/** Reassembly of LHDC payloads that were split over several media packets, driven by two
    header flags and an 8-bit sequence number. */
module LhdcAssembler {
  import opened Bytes

  const PACKET_BUFFER_LENGTH := 4096

  /** A media packet with its header decoded: frag when any fragmentation flag is set, start
      on a first fragment, last on a last one. */
  datatype Packet = Packet(frag: bool, start: bool, last: bool, seqno: byte, payload: seq<byte>)

  /** The globals: expected sequence number, whether it is known, whether a last fragment is
      awaited (ASM_PKT_WAT_LST), and the filled part of the packet buffer. */
  datatype Asm = Asm(serial: byte, synced: bool, waitLast: bool, buf: seq<byte>)

  /** ret is the C return value; a payload is handed out exactly when it is 1. */
  datatype Result = Result(ret: int, payload: Option<seq<byte>>)

  function Next(q: byte): byte { (q + 1) % 256 }

  const INITIAL: Asm := Asm(255, false, false, [])

  /** The switch over the assembly state. */
  function Dispatch(a: Asm, p: Packet): (Asm, Result) {
    if a.waitLast then
      if |a.buf| + |p.payload| >= PACKET_BUFFER_LENGTH then (a.(waitLast := false, buf := []), Result(-1, None))
      else if p.last then (a.(waitLast := false, buf := []), Result(1, Some(a.buf + p.payload)))
      else (a.(buf := a.buf + p.payload), Result(0, None))
    else if !p.frag then (Sync(a, p).(buf := []), Result(1, Some(p.payload)))
    else if !p.start then (a, Result(-1, None))
    else if |a.buf| + |p.payload| >= PACKET_BUFFER_LENGTH then (a.(buf := []), Result(0, None))
    else (Sync(a, p).(waitLast := true, buf := p.payload), Result(0, None))
  }

  function Sync(a: Asm, p: Packet): Asm {
    if a.synced then a else a.(synced := true, serial := Next(p.seqno))
  }

  /** assemble_lhdc_packet on one packet. */
  function Receive(a: Asm, p: Packet): (Asm, Result) {
    if a.synced && p.seqno != a.serial then
      var r := a.(synced := false, waitLast := false, buf := []);
      if !p.frag || p.start then Dispatch(r, p) else (r, Result(0, None))
    else
      Dispatch(if a.synced then a.(serial := Next(p.seqno)) else a, p)
  }

  class Assembler {
    var serialNo: byte
    var isSynced: bool
    var waitLast: bool
    const packetBuffer: array<byte>
    var packetBufLen: nat

    ghost predicate Valid()
      reads this
    {
      packetBuffer.Length == PACKET_BUFFER_LENGTH && packetBufLen < PACKET_BUFFER_LENGTH
    }

    ghost function View(): Asm
      requires Valid()
      reads this, packetBuffer
    {
      Asm(serialNo, isSynced, waitLast, packetBuffer[..packetBufLen])
    }

    /** initial_lhdc_assemble_packet. */
    constructor ()
      ensures Valid() && View() == INITIAL && fresh(packetBuffer)
    {
      packetBuffer := new byte[PACKET_BUFFER_LENGTH](_ => 0);
      serialNo, isSynced, waitLast, packetBufLen := 255, false, false, 0;
    }

    /** reset_lhdc_assmeble_packet. */
    method Reset()
      requires Valid()
      modifies this`isSynced, this`waitLast, this`packetBufLen
      ensures Valid() && View() == old(View()).(synced := false, waitLast := false, buf := [])
    {
      isSynced, waitLast, packetBufLen := false, false, 0;
    }

    method Store(at: nat, data: seq<byte>)
      requires Valid() && at + |data| <= PACKET_BUFFER_LENGTH
      modifies packetBuffer
      ensures packetBuffer[..at] == old(packetBuffer[..at]) && packetBuffer[at..at + |data|] == data
    {
      forall i | 0 <= i < |data| {
        packetBuffer[at + i] := data[i];
      }
    }

    /** assemble_lhdc_packet. Fragments are checked against the room left; an unfragmented
        payload is copied into the packet buffer without a check, so it has to fit. */
    method Assemble(p: Packet) returns (r: Result)
      requires Valid() && (!p.frag ==> |p.payload| <= PACKET_BUFFER_LENGTH)
      modifies this, packetBuffer
      ensures Valid()
      ensures (View(), r) == Receive(old(View()), p)
    {
      if isSynced {
        if p.seqno != serialNo {
          Reset();
          if p.frag && !p.start {
            return Result(0, None);
          }
        } else {
          serialNo := Next(p.seqno);
        }
      }
      r := Switch(p);
    }

    method Switch(p: Packet) returns (r: Result)
      requires Valid() && (!waitLast && !p.frag ==> |p.payload| <= PACKET_BUFFER_LENGTH)
      modifies this, packetBuffer
      ensures Valid()
      ensures (View(), r) == Dispatch(old(View()), p)
    {
      r := Result(-1, None);
      if !waitLast {
        if !p.frag {
          Store(0, p.payload);
          r := Result(1, Some(packetBuffer[..|p.payload|]));
          packetBufLen := 0;
        } else if p.start {
          r := Result(0, None);
          if packetBufLen + |p.payload| >= PACKET_BUFFER_LENGTH {
            packetBufLen := 0;
            return;
          }
          Store(0, p.payload);
          packetBufLen := |p.payload|;
          waitLast := true;
        }
        if r.ret >= 0 && !isSynced {
          isSynced := true;
          serialNo := Next(p.seqno);
        }
      } else {
        if packetBufLen + |p.payload| >= PACKET_BUFFER_LENGTH {
          packetBufLen := 0;
          waitLast := false;
          return;
        }
        Store(packetBufLen, p.payload);
        packetBufLen := packetBufLen + |p.payload|;
        assert packetBuffer[..packetBufLen] == old(packetBuffer[..packetBufLen]) + p.payload;
        r := Result(0, None);
        if p.last {
          r := Result(1, Some(packetBuffer[..packetBufLen]));
          packetBufLen := 0;
          waitLast := false;
        }
      }
    }
  }

  // ---------- Safety: what a delivered payload can be, whatever packets arrive ----------

  /** Reachable states: waiting for a last fragment implies being synchronised, and waiting
      for a first one implies an empty buffer. */
  predicate AsmInv(a: Asm) {
    && (a.waitLast ==> a.synced)
    && (!a.waitLast ==> a.buf == [])
    && |a.buf| < PACKET_BUFFER_LENGTH
  }

  function After(a: Asm, ps: seq<Packet>): Asm {
    if ps == [] then a else Receive(After(a, ps[..|ps| - 1]), ps[|ps| - 1]).0
  }

  function Payloads(ps: seq<Packet>): (s: seq<seq<byte>>)
    ensures |s| == |ps|
  {
    seq(|ps|, i requires 0 <= i < |ps| => ps[i].payload)
  }

  /** Packets j..k of ps: a first fragment, then packets with consecutive numbers, no last
      fragment among them. */
  predicate OpenRun(ps: seq<Packet>, j: nat, k: nat) {
    && j < k <= |ps| && ps[j].frag && ps[j].start
    && (forall i :: j < i < k ==> !ps[i].last && ps[i].seqno == Next(ps[i - 1].seqno))
  }

  /** In step, the number expected is the one after that of the latest packet. */
  lemma {:induction false} ReachableInv(ps: seq<Packet>)
    ensures AsmInv(After(INITIAL, ps))
    ensures After(INITIAL, ps).synced ==> ps != [] && After(INITIAL, ps).serial == Next(ps[|ps| - 1].seqno)
  {
    if ps != [] {
      ReachableInv(ps[..|ps| - 1]);
    }
  }

  /** While a last fragment is awaited, the buffer is such a run up to the latest packet. */
  lemma {:induction false} WaitingHoldsAnOpenRun(ps: seq<Packet>) returns (j: nat)
    ensures After(INITIAL, ps).waitLast ==>
              && OpenRun(ps, j, |ps|)
              && After(INITIAL, ps).buf == Concat(Payloads(ps[j..]))
              && After(INITIAL, ps).serial == Next(ps[|ps| - 1].seqno)
  {
    hide Concat, Payloads;
    j := 0;
    if ps != [] {
      var before, p := ps[..|ps| - 1], ps[|ps| - 1];
      j := WaitingHoldsAnOpenRun(before);
      ReachableInv(before);
      var a := After(INITIAL, before);
      WaitsAfter(a, p);
      hide Receive, AsmInv, OpenRun;
      if a.waitLast && p.seqno == a.serial {
        OneMore(ps, j);
        if !p.last {
          LongerRun(ps, j);
        }
      } else if After(INITIAL, ps).waitLast {
        j := |ps| - 1;
        JustOne(ps);
        NewRun(ps);
      }
    }
  }

  /** The assembler waits for a last fragment behind one that continues the run it waited in,
      or behind a first one. */
  lemma WaitsAfter(a: Asm, p: Packet)
    requires AsmInv(a)
    ensures var b := Receive(a, p).0;
            b.waitLast ==>
              && b.serial == Next(p.seqno)
              && if a.waitLast && p.seqno == a.serial then !p.last && b.buf == a.buf + p.payload
                 else p.frag && p.start && b.buf == p.payload
  {
  }

  lemma LongerRun(ps: seq<Packet>, j: nat)
    requires |ps| > 1 && OpenRun(ps[..|ps| - 1], j, |ps| - 1)
    requires !ps[|ps| - 1].last && ps[|ps| - 1].seqno == Next(ps[|ps| - 2].seqno)
    ensures OpenRun(ps, j, |ps|)
  {
    hide Next;
    var before := ps[..|ps| - 1];
    assert forall i :: 0 <= i < |before| ==> before[i] == ps[i];
  }

  lemma NewRun(ps: seq<Packet>)
    requires ps != [] && ps[|ps| - 1].frag && ps[|ps| - 1].start
    ensures OpenRun(ps, |ps| - 1, |ps|)
  {
  }

  lemma OneMore(ps: seq<Packet>, j: nat)
    requires j < |ps|
    ensures var before := ps[..|ps| - 1];
            Concat(Payloads(ps[j..])) == Concat(Payloads(before[j..])) + ps[|ps| - 1].payload
  {
    var before, p := ps[..|ps| - 1], ps[|ps| - 1];
    assert ps[j..] == before[j..] + [p];
    assert Payloads(ps[j..]) == Payloads(before[j..]) + [p.payload];
    ConcatSnoc(Payloads(before[j..]), p.payload);
  }

  lemma JustOne(ps: seq<Packet>)
    requires ps != []
    ensures Concat(Payloads(ps[|ps| - 1..])) == ps[|ps| - 1].payload
  {
    var p := ps[|ps| - 1];
    assert ps[|ps| - 1..] == [p];
    assert Payloads([p]) == [p.payload];
    assert Concat([p.payload]) == p.payload;
  }

  /** Safety, for every packet history: a delivered payload is one unfragmented packet, or
      the concatenation of a run of at least two packets with consecutive numbers from a
      first fragment to the first last fragment after it, below the buffer size. */
  lemma DeliveredIsAPacketOrARun(ps: seq<Packet>, p: Packet) returns (j: nat)
    requires Receive(After(INITIAL, ps), p).1.payload.Some?
    ensures var out := Receive(After(INITIAL, ps), p).1.payload.value;
            || (!p.frag && out == p.payload)
            || (&& OpenRun(ps, j, |ps|) && p.last && p.seqno == Next(ps[|ps| - 1].seqno)
                && out == Concat(Payloads(ps[j..] + [p])) && |out| < PACKET_BUFFER_LENGTH)
  {
    j := WaitingHoldsAnOpenRun(ps);
    ReachableInv(ps);
    if j < |ps| {
      assert Payloads(ps[j..] + [p]) == Payloads(ps[j..]) + [p.payload];
      ConcatSnoc(Payloads(ps[j..]), p.payload);
    }
  }

  /** A payload comes with return value 1 and only then; -1 refuses a fragment that overflows
      the buffer or that no first fragment precedes, unless its number was not the one expected,
      which is answered with 0. */
  lemma PayloadIffOne(a: Asm, p: Packet)
    ensures Receive(a, p).1.ret == 1 <==> Receive(a, p).1.payload.Some?
    ensures Receive(a, p).1.ret in {-1, 0, 1}
    ensures Receive(a, p).1.ret == -1 <==>
              && (a.synced ==> p.seqno == a.serial)
              && if a.waitLast then |a.buf| + |p.payload| >= PACKET_BUFFER_LENGTH else p.frag && !p.start
  {
  }
}
