/** The two cores running against each other. A step is one access to shared memory by one
    core: a snapshot of the other side's position, the copy of one byte, the publication of
    an own position. The MCU side follows mcu_load_a2dp_encoded_data, the CP side the load
    functions; packets enter the byte queue at any time. Memory is sequentially consistent
    and the queue's locked sections are atomic. */
module CpPipeline {
  import opened Bytes
  import opened CpInCache
  import Ring

  datatype Mcu =
    | McuIdle
    | McuSnapped(snapR: nat)
    | McuCopying(snapR: nat, data: seq<byte>, done: nat)
    | McuPublished(n: nat)

  datatype Cp =
    | CpIdle
    | CpReading(snapW: nat, got: seq<byte>)

  /** mem, wpos and rpos are the shared cache; accepted, moved and consumed record the bytes
      that entered the queue and were not thrown away by a reset of it, were published by the
      MCU, and were taken by the CP. */
  datatype State = State(
    mem: seq<byte>, wpos: nat, rpos: nat,
    queue: seq<byte>, mcu: Mcu, cp: Cp,
    accepted: seq<byte>, moved: seq<byte>, consumed: seq<byte>)

  datatype Step =
    | Enqueue(bytes: seq<byte>)
    | McuSnapshot
    | McuPeek(n: nat)
    | McuWriteByte
    | McuPublish
    | McuDequeue
    | ResetQueue
    | CpSnapshot
    | CpReadByte
    | CpConsume(n: nat)

  predicate Init(s: State) {
    |s.mem| > 1 && s.wpos == s.rpos == 0 && s.queue == s.accepted == s.moved == s.consumed == []
    && s.mcu == McuIdle && s.cp == CpIdle
  }

  predicate InRange(s: State) {
    |s.mem| > 1 && s.wpos < |s.mem| && s.rpos < |s.mem|
    && match s.cp case CpIdle => true case CpReading(w, got) => w < |s.mem|
  }

  /** When a step can be taken. None of these conditions looks at the other core's state,
      except through the snapshot that the core holds. */
  predicate Enabled(s: State, step: Step)
    requires InRange(s)
  {
    match step
    case Enqueue(bytes) => true
    case McuSnapshot => s.mcu.McuIdle?
    case McuPeek(n) => s.mcu.McuSnapped? && s.mcu.snapR < |s.mem| && n <= |s.queue|
      && n <= Free(s.wpos, s.mcu.snapR, |s.mem|)
    case McuWriteByte => s.mcu.McuCopying? && s.mcu.done < |s.mcu.data| < |s.mem|
    case McuPublish => s.mcu.McuCopying? && s.mcu.done == |s.mcu.data| < |s.mem|
    case McuDequeue => s.mcu.McuPublished? && s.mcu.n <= |s.queue|
    case ResetQueue => s.mcu.McuIdle?
    case CpSnapshot => s.cp.CpIdle?
    case CpReadByte => s.cp.CpReading? && |s.cp.got| < Ring.Used(s.cp.snapW, s.rpos, |s.mem|)
    case CpConsume(n) => s.cp.CpReading? && n <= |s.cp.got| && n < |s.mem|
  }

  function Apply(s: State, step: Step): State
    requires InRange(s) && Enabled(s, step)
  {
    var size := |s.mem|;
    match step
    case Enqueue(bytes) => s.(queue := s.queue + bytes, accepted := s.accepted + bytes)
    case McuSnapshot => s.(mcu := McuSnapped(s.rpos))
    case McuPeek(n) => s.(mcu := McuCopying(s.mcu.snapR, s.queue[..n], 0))
    case McuWriteByte =>
      s.(mem := s.mem[Ring.Adv(s.wpos, s.mcu.done, size) := s.mcu.data[s.mcu.done]],
        mcu := s.mcu.(done := s.mcu.done + 1))
    case McuPublish =>
      s.(wpos := Ring.Adv(s.wpos, |s.mcu.data|, size), moved := s.moved + s.mcu.data, mcu := McuPublished(|s.mcu.data|))
    case McuDequeue => s.(queue := s.queue[s.mcu.n..], mcu := McuIdle)
    case ResetQueue => s.(queue := [], accepted := s.moved)
    case CpSnapshot => s.(cp := CpReading(s.wpos, []))
    case CpReadByte => s.(cp := s.cp.(got := s.cp.got + [s.mem[Ring.Adv(s.rpos, |s.cp.got|, size)]]))
    case CpConsume(n) =>
      s.(rpos := Ring.Adv(s.rpos, n, size), consumed := s.consumed + s.cp.got[..n], cp := CpIdle)
  }

  predicate StepsTo(s: State, step: Step, t: State) {
    InRange(s) && Enabled(s, step) && t == Apply(s, step)
  }

  ghost predicate Next(s: State, t: State) {
    exists step :: StepsTo(s, step, t)
  }

  /** A run of any length, in any interleaving. */
  ghost predicate Run(run: seq<State>) {
    run != [] && Init(run[0]) && forall i :: 0 <= i < |run| - 1 ==> Next(run[i], run[i + 1])
  }

  function Unread(s: State): seq<byte>
    requires InRange(s)
  {
    Ring.Read(s.mem, s.rpos, Ring.Used(s.wpos, s.rpos, |s.mem|))
  }

  /** Queue bytes that are not yet in the cache. */
  function Waiting(s: State): seq<byte> {
    if s.mcu.McuPublished? && s.mcu.n <= |s.queue| then s.queue[s.mcu.n..] else s.queue
  }

  predicate McuOk(s: State)
    requires InRange(s)
  {
    match s.mcu
    case McuIdle => true
    case McuSnapped(r) => MayLagRead(r, s.wpos, s.rpos, |s.mem|)
    case McuCopying(r, data, done) =>
      && MayLagRead(r, s.wpos, s.rpos, |s.mem|)
      && done <= |data| <= Free(s.wpos, r, |s.mem|)
      && data <= s.queue
      && Ring.Read(s.mem, s.wpos, done) == data[..done]
    case McuPublished(n) => n <= |s.queue|
  }

  predicate CpOk(s: State)
    requires InRange(s)
  {
    s.cp.CpReading? ==>
      MayLagWrite(s.cp.snapW, s.wpos, s.rpos, |s.mem|) && |s.cp.got| <= Ring.Used(s.cp.snapW, s.rpos, |s.mem|)
      && s.cp.got <= Unread(s)
  }

  /** What every reachable state satisfies: no byte is lost, repeated or reordered between
      the queue and the CP, and both cores' partial work agrees with the cache. */
  ghost predicate Inv(s: State) {
    && InRange(s)
    && s.accepted == s.moved + Waiting(s)
    && s.moved == s.consumed + Unread(s)
    && McuOk(s)
    && CpOk(s)
  }

  lemma WriteByteKeeps(s: State)
    requires Inv(s) && Enabled(s, McuWriteByte)
    ensures Unread(Apply(s, McuWriteByte)) == Unread(s)
    ensures Inv(Apply(s, McuWriteByte))
  {
    var d, data := s.mcu.done, s.mcu.data;
    Ring.StoreOne(s.mem, s.rpos, s.wpos, d, data[d]);
    assert data[..d + 1] == data[..d] + [data[d]];
  }

  lemma PublishKeeps(s: State)
    requires Inv(s) && Enabled(s, McuPublish)
    ensures Unread(Apply(s, McuPublish)) == Unread(s) + s.mcu.data
    ensures Inv(Apply(s, McuPublish))
  {
    hide Ring.Read;
    var data := s.mcu.data;
    var t := Apply(s, McuPublish);
    assert data[..|data|] == data;
    Ring.Publish(s.mem, s.rpos, s.wpos, data);
    assert s.queue == data + s.queue[|data|..];
    Regroup(s.moved, data, s.queue[|data|..]);
    Regroup(s.consumed, Unread(s), data);
  }

  lemma ConsumeKeeps(s: State, n: nat)
    requires Inv(s) && Enabled(s, CpConsume(n))
    ensures Unread(Apply(s, CpConsume(n))) == Unread(s)[n..]
    ensures Inv(Apply(s, CpConsume(n)))
  {
    hide Ring.Read, Free;
    Ring.Consume(s.mem, s.rpos, s.wpos, n);
    assert s.cp.got[..n] == Unread(s)[..n];
    assert Unread(s) == Unread(s)[..n] + Unread(s)[n..];
  }

  lemma EnqueueKeeps(s: State, bytes: seq<byte>)
    requires Inv(s)
    ensures Inv(Apply(s, Enqueue(bytes)))
  {
    var t := Apply(s, Enqueue(bytes));
    assert Waiting(t) == Waiting(s) + bytes;
    assert t.accepted == s.moved + (Waiting(s) + bytes);
    assert Unread(t) == Unread(s);
  }

  lemma StepKeepsInv(s: State, step: Step)
    requires Inv(s) && Enabled(s, step)
    ensures Inv(Apply(s, step))
  {
    match step
    case McuWriteByte => WriteByteKeeps(s);
    case McuPublish => PublishKeeps(s);
    case CpReadByte =>
    case CpConsume(n) => ConsumeKeeps(s, n);
    case Enqueue(bytes) => EnqueueKeeps(s, bytes);
    case McuPeek(n) => assert s.queue[..n][..0] == [];
    case McuSnapshot =>
    case McuDequeue =>
    case ResetQueue => assert s.moved + [] == s.moved;
    case CpSnapshot =>
  }

  lemma {:induction false} RunInv(run: seq<State>, k: nat)
    requires Run(run) && k < |run|
    ensures Inv(run[k])
  {
    if k > 0 {
      RunInv(run, k - 1);
      var step :| StepsTo(run[k - 1], step, run[k]);
      StepKeepsInv(run[k - 1], step);
    }
  }

  /** Ring refinement, for every run and every state in it: what entered the queue is what
      the CP consumed, then what is unread in the cache, then what waits in the queue; used
      and free bytes make up all but one; and the snapshots held by the cores, however
      stale, meet the preconditions of the cache methods. */
  lemma RingRefinesFifo(run: seq<State>, k: nat)
    requires Run(run) && k < |run|
    ensures InRange(run[k])
    ensures run[k].accepted == run[k].consumed + Unread(run[k]) + Waiting(run[k])
    ensures |Unread(run[k])| + Free(run[k].wpos, run[k].rpos, |run[k].mem|) == |run[k].mem| - 1
    ensures run[k].mcu.McuCopying? ==> MayLagRead(run[k].mcu.snapR, run[k].wpos, run[k].rpos, |run[k].mem|)
    ensures run[k].cp.CpReading? ==> MayLagWrite(run[k].cp.snapW, run[k].wpos, run[k].rpos, |run[k].mem|)
    ensures run[k].cp.CpReading? ==> run[k].cp.got <= Unread(run[k])
  {
    RunInv(run, k);
  }

  /** The MCU never overwrites an unread byte, so a piece of the cache that is lent to a
      decoder stays as it was until it is consumed. */
  lemma NoUnreadByteOverwritten(run: seq<State>, k: nat, i: nat)
    requires Run(run) && k < |run| && InRange(run[k]) && Enabled(run[k], McuWriteByte)
    requires i < |Unread(run[k])|
    ensures Ring.Adv(run[k].rpos, i, |run[k].mem|) != Ring.Adv(run[k].wpos, run[k].mcu.done, |run[k].mem|)
    ensures Unread(Apply(run[k], McuWriteByte)) == Unread(run[k])
  {
    RunInv(run, k);
    WriteByteKeeps(run[k]);
  }

  /** The state after the MCU has copied all that it picked up, with nothing in between. */
  function CopyAll(s: State): State
    requires InRange(s) && s.mcu.McuCopying? && s.mcu.done <= |s.mcu.data| < |s.mem|
    decreases |s.mcu.data| - s.mcu.done
  {
    if s.mcu.done == |s.mcu.data| then s else CopyAll(Apply(s, McuWriteByte))
  }

  /** The byte steps add up to the one ring write that Cache.McuLoad promises. */
  lemma {:induction false} CopyAllIsRingWrite(s: State)
    requires InRange(s) && s.mcu.McuCopying? && s.mcu.done <= |s.mcu.data| < |s.mem|
    ensures CopyAll(s) == s.(mem := Ring.Write(s.mem, Ring.Adv(s.wpos, s.mcu.done, |s.mem|), s.mcu.data[s.mcu.done..]),
                             mcu := s.mcu.(done := |s.mcu.data|))
    decreases |s.mcu.data| - s.mcu.done
  {
    hide Ring.Read, Ring.Write;
    var d, at := s.mcu.done, Ring.Adv(s.wpos, s.mcu.done, |s.mem|);
    if d == |s.mcu.data| {
      Ring.WriteNothing(s.mem, at);
      assert s.mcu.data[d..] == [];
    } else {
      var t := Apply(s, McuWriteByte);
      var one, more := [s.mcu.data[d]], s.mcu.data[d + 1..];
      CopyAllIsRingWrite(t);
      Ring.StoreOne(s.mem, s.wpos, s.wpos, d, s.mcu.data[d]);
      assert Ring.Adv(s.wpos, d + 1, |s.mem|) == Ring.Adv(at, |one|, |s.mem|);
      Ring.WriteSplit(s.mem, at, one, more);
      assert one + more == s.mcu.data[d..];
      assert CopyAll(s) == CopyAll(t);
    }
  }
}
