/** The echo reference queue of the voice path: playback puts frames in, capture borrows them
    in place; two positions and a flag tell a full ring from an empty one. */
module EchoQueue {
  import opened Bytes

  /** The source's ASSERTs, by what they guard. */
  datatype Outcome = Fine | BadLength | PastEnd | Overflow | Underflow

  datatype Ring = Ring(data: seq<byte>, rpos: nat, wpos: nat, full: bool)

  ghost predicate ValidRing(r: Ring) {
    r.rpos < |r.data| && r.wpos < |r.data| && (r.full ==> r.rpos == r.wpos)
  }

  /** The bytes waiting, oldest first. */
  function Contents(r: Ring): (s: seq<byte>)
    requires r.rpos <= |r.data| && r.wpos <= |r.data|
  {
    if r.rpos < r.wpos then r.data[r.rpos..r.wpos]
    else if r.rpos == r.wpos && !r.full then []
    else r.data[r.rpos..] + r.data[..r.wpos]
  }

  function Write(d: seq<byte>, at: nat, b: seq<byte>): (e: seq<byte>)
    requires at + |b| <= |d|
    ensures |e| == |d|
  {
    d[..at] + b + d[at + |b|..]
  }

  function Next(pos: nat, len: nat, size: nat): nat {
    if pos + len >= size then 0 else pos + len
  }

  function QueueLength(r: Ring): int {
    if r.rpos == r.wpos then (if r.full then |r.data| else 0)
    else if r.rpos < r.wpos then r.wpos - r.rpos
    else |r.data| + r.wpos - r.rpos
  }

  /** The put in voicebtpcm_pcm_audio_more_data. */
  function Put(r: Ring, frame: nat, b: seq<byte>): (Ring, Outcome) {
    if |b| != frame then (r, BadLength)
    else if r.wpos + |b| > |r.data| then (r, PastEnd)
    else if QueueLength(r) + |b| > |r.data| then (r, Overflow)
    else
      var w := Next(r.wpos, |b|, |r.data|);
      (Ring(Write(r.data, r.wpos, b), r.rpos, w, r.rpos == w || r.full), Fine)
  }

  /** The borrowing in voicebtpcm_pcm_audio_data_come: the frame stays where it is. */
  function Borrow(r: Ring, frame: nat, len: nat): (Ring, Outcome, nat) {
    if len != frame then (r, BadLength, 0)
    else if r.rpos + len > |r.data| then (r, PastEnd, 0)
    else
      var s := r.(full := if r.rpos == r.wpos then false else r.full);
      if QueueLength(r) < len then (s, Underflow, 0)
      else (s.(rpos := Next(r.rpos, len, |r.data|)), Fine, r.rpos)
  }

  /** Both positions a whole number of frames from the end: what a size that is a multiple
      of the frame length keeps up. */
  ghost predicate Aligned(r: Ring, frame: nat) {
    && ValidRing(r) && 0 < frame
    && MultipleOf(|r.data|, frame) && MultipleOf(|r.data| - r.rpos, frame) && MultipleOf(|r.data| - r.wpos, frame)
  }

  lemma LengthIsContents(r: Ring)
    requires ValidRing(r)
    ensures QueueLength(r) == |Contents(r)| <= |r.data|
  {
  }

  lemma {:induction false} Gap(a: nat, b: nat, d: nat)
    requires d > 0 && MultipleOf(a, d) && MultipleOf(b, d) && a < b
    ensures a + d <= b
    decreases a
  {
    if a > 0 {
      Gap(a - d, b - d, d);
    }
  }

  /** The contents of an aligned ring fill whole frames: it is full, or has room for one. */
  lemma RoomForAFrame(r: Ring, frame: nat)
    requires Aligned(r, frame)
    ensures frame <= |r.data| - r.wpos && frame <= |r.data| - r.rpos
    ensures |Contents(r)| == 0 || |Contents(r)| >= frame
    ensures |Contents(r)| == |r.data| || |Contents(r)| + frame <= |r.data|
  {
    if r.rpos < r.wpos {
      Gap(|r.data| - r.wpos, |r.data| - r.rpos, frame);
      assert MultipleOf(0, frame);
      if r.rpos == 0 {
        Gap(0, |r.data| - r.wpos, frame);
      }
    } else if r.wpos < r.rpos {
      Gap(|r.data| - r.rpos, |r.data| - r.wpos, frame);
    }
  }

  /** A put does what a bounded FIFO does: it fails exactly when the frame does not fit. */
  lemma PutIsFifo(r: Ring, frame: nat, b: seq<byte>)
    requires Aligned(r, frame) && |b| == frame
    ensures var (q, o) := Put(r, frame, b);
            && Aligned(q, frame) && |q.data| == |r.data|
            && o == (if |Contents(r)| + frame > |r.data| then Overflow else Fine)
            && Contents(q) == (if o == Fine then Contents(r) + b else Contents(r))
  {
    RoomForAFrame(r, frame);
    LengthIsContents(r);
    if |Contents(r)| + frame <= |r.data| {
      PutAppends(r, b);
      if r.wpos + frame < |r.data| {
        LessOne(|r.data| - r.wpos, frame);
      }
    }
    hide MultipleOf, Contents, Write;
  }

  lemma PutAppends(r: Ring, b: seq<byte>)
    requires ValidRing(r) && b != [] && r.wpos + |b| <= |r.data| && |Contents(r)| + |b| <= |r.data|
    ensures Contents(Put(r, |b|, b).0) == Contents(r) + b
  {
    LengthIsContents(r);
    WriteSlices(r.data, r.wpos, b, r.rpos);
    hide Write;
    var e, end := Write(r.data, r.wpos, b), r.wpos + |b|;
    if r.rpos < r.wpos || (r.rpos == r.wpos && !r.full) {
      assert Contents(r) == r.data[r.rpos..r.wpos];
      assert end == |r.data| ==> e[r.rpos..] + e[..0] == e[r.rpos..end];
    } else {
      Regroup(r.data[r.rpos..], r.data[..r.wpos], b);
    }
  }

  lemma WriteSlices(d: seq<byte>, at: nat, b: seq<byte>, i: nat)
    requires at + |b| <= |d| && i <= |d|
    ensures i <= at ==> Write(d, at, b)[i..at + |b|] == d[i..at] + b
    ensures at + |b| <= i ==> Write(d, at, b)[i..] == d[i..]
    ensures Write(d, at, b)[..at + |b|] == d[..at] + b
  {
  }

  lemma LessOne(x: nat, d: nat)
    requires 0 < d < x && MultipleOf(x, d)
    ensures MultipleOf(x - d, d)
  {
  }

  /** Borrowing takes the oldest frame, and fails exactly when there is none. */
  lemma BorrowIsFifo(r: Ring, frame: nat)
    requires Aligned(r, frame)
    ensures var (q, o, at) := Borrow(r, frame, frame);
            && Aligned(q, frame) && q.data == r.data
            && o == (if |Contents(r)| < frame then Underflow else Fine)
            && (o == Fine ==> at + frame <= |r.data| && Contents(r) == r.data[at..at + frame] + Contents(q))
            && (o != Fine ==> Contents(q) == Contents(r))
  {
    RoomForAFrame(r, frame);
    LengthIsContents(r);
  }

  /** A borrowed frame survives the next put exactly when the ring was not full when it was
      borrowed: in a full ring the next put writes over the very frame that is still in use. */
  lemma BorrowedFrameSurvives(r: Ring, frame: nat, b: seq<byte>)
    requires Aligned(r, frame) && |b| == frame && Contents(r) != []
    ensures var (q, o, at) := Borrow(r, frame, frame);
            var (p, o') := Put(q, frame, b);
            && o == Fine && o' == Fine && at + frame <= |p.data|
            && (|Contents(r)| < |r.data| ==> p.data[at..at + frame] == r.data[at..at + frame])
            && (|Contents(r)| == |r.data| ==> p.data[at..at + frame] == b)
  {
    RoomForAFrame(r, frame);
    LengthIsContents(r);
    if r.wpos < r.rpos {
      Gap(|r.data| - r.rpos, |r.data| - r.wpos, frame);
    } else if r.rpos < r.wpos {
      Gap(|r.data| - r.wpos, |r.data| - r.rpos, frame);
    }
    WriteHits(r.data, r.wpos, b, r.rpos);
    hide MultipleOf, Write;
  }

  lemma WriteHits(d: seq<byte>, at: nat, b: seq<byte>, i: nat)
    requires at + |b| <= |d| && i + |b| <= |d|
    ensures i == at ==> Write(d, at, b)[i..i + |b|] == b
    ensures i + |b| <= at || at + |b| <= i ==> Write(d, at, b)[i..i + |b|] == d[i..i + |b|]
  {
  }

  /** On any ring, aligned or not, the ASSERTs let a put or a lending through exactly when it
      has the frame's length, stays inside the buffer, and finds room or a frame. */
  lemma AssertsGuard(r: Ring, frame: nat, b: seq<byte>, len: nat)
    requires ValidRing(r)
    ensures var (q, o) := Put(r, frame, b);
            && (o == Fine <==> |b| == frame && r.wpos + |b| <= |r.data| && |Contents(r)| + |b| <= |r.data|)
            && (o == BadLength <==> |b| != frame) && (o != Fine ==> q == r)
    ensures var (q, o, at) := Borrow(r, frame, len);
            && (o == Fine <==> len == frame && r.rpos + len <= |r.data| && |Contents(r)| >= len)
            && (o == BadLength <==> len != frame) && (o == Fine ==> at == r.rpos)
            && (o in {BadLength, PastEnd} ==> q == r)
  {
    LengthIsContents(r);
    hide Contents, Write;
  }

  datatype Op = PutOp(b: seq<byte>) | TakeOp

  /** A run up to the first ASSERT that fires: the frames borrowed, and how it ended. */
  function Run(r: Ring, frame: nat, ops: seq<Op>): (seq<seq<byte>>, Outcome)
    decreases |ops|
  {
    if ops == [] then ([], Fine)
    else match ops[0]
      case PutOp(b) =>
        var (q, o) := Put(r, frame, b);
        if o == Fine then Run(q, frame, ops[1..]) else ([], o)
      case TakeOp =>
        var (q, o, at) := Borrow(r, frame, frame);
        if o == Fine && at + frame <= |r.data| then
          var (rest, last) := Run(q, frame, ops[1..]);
          ([r.data[at..at + frame]] + rest, last)
        else ([], o)
  }

  /** The same for a bounded FIFO of bytes. */
  function FifoRun(f: seq<byte>, size: nat, frame: nat, ops: seq<Op>): (seq<seq<byte>>, Outcome)
    decreases |ops|
  {
    if ops == [] then ([], Fine)
    else match ops[0]
      case PutOp(b) =>
        if |f| + frame > size then ([], Overflow) else FifoRun(f + b, size, frame, ops[1..])
      case TakeOp =>
        if |f| < frame then ([], Underflow)
        else
          var (rest, last) := FifoRun(f[frame..], size, frame, ops[1..]);
          ([f[..frame]] + rest, last)
  }

  /** Over every run of puts and borrowings the ring is the FIFO: the same frames in the same
      order, the overflow and underflow ASSERTs exactly where the FIFO is full or empty, and
      no other ASSERT. */
  lemma {:induction false} RingIsFifo(r: Ring, frame: nat, ops: seq<Op>)
    requires Aligned(r, frame)
    requires forall i :: 0 <= i < |ops| && ops[i].PutOp? ==> |ops[i].b| == frame
    ensures Run(r, frame, ops) == FifoRun(Contents(r), |r.data|, frame, ops)
    decreases |ops|
  {
    hide *;
    if ops == [] {
      EmptyRuns(r, frame);
    } else {
      match ops[0] {
        case PutOp(b) =>
          PutStep(r, frame, ops);
          if Put(r, frame, b).1 == Fine {
            RingIsFifo(Put(r, frame, b).0, frame, ops[1..]);
          }
        case TakeOp =>
          TakeStep(r, frame, ops);
          if Borrow(r, frame, frame).1 == Fine {
            RingIsFifo(Borrow(r, frame, frame).0, frame, ops[1..]);
          }
      }
    }
  }

  lemma EmptyRuns(r: Ring, frame: nat)
    requires Aligned(r, frame)
    ensures Run(r, frame, []) == FifoRun(Contents(r), |r.data|, frame, [])
  {
  }

  lemma PutStep(r: Ring, frame: nat, ops: seq<Op>)
    requires Aligned(r, frame) && ops != [] && ops[0].PutOp? && |ops[0].b| == frame
    ensures var (q, o) := Put(r, frame, ops[0].b);
            && Aligned(q, frame) && |q.data| == |r.data|
            && (o != Fine ==> Run(r, frame, ops) == FifoRun(Contents(r), |r.data|, frame, ops))
            && (o == Fine ==>
                  && Run(r, frame, ops) == Run(q, frame, ops[1..])
                  && FifoRun(Contents(r), |r.data|, frame, ops) == FifoRun(Contents(q), |q.data|, frame, ops[1..]))
  {
    PutIsFifo(r, frame, ops[0].b);
    hide Contents, Put, Aligned, MultipleOf;
  }

  lemma TakeStep(r: Ring, frame: nat, ops: seq<Op>)
    requires Aligned(r, frame) && ops != [] && ops[0].TakeOp?
    ensures var (q, o, at) := Borrow(r, frame, frame);
            && Aligned(q, frame) && |q.data| == |r.data|
            && (o != Fine ==> Run(r, frame, ops) == FifoRun(Contents(r), |r.data|, frame, ops))
            && (o == Fine && Run(q, frame, ops[1..]) == FifoRun(Contents(q), |q.data|, frame, ops[1..]) ==>
                  Run(r, frame, ops) == FifoRun(Contents(r), |r.data|, frame, ops))
  {
    BorrowIsFifo(r, frame);
    hide Contents, Borrow, Aligned, MultipleOf;
    var (q, o, at) := Borrow(r, frame, frame);
    if o == Fine {
      FrontAndRest(r.data[at..at + frame], Contents(q));
    }
  }

  lemma FrontAndRest(a: seq<byte>, b: seq<byte>)
    ensures (a + b)[..|a|] == a && (a + b)[|a|..] == b
  {
  }

  function Emptied(data: seq<byte>, pos: nat): Ring { Ring(data, pos, pos, false) }

  /** A put followed by a borrowing, n times over. */
  function Rounds(bs: seq<seq<byte>>): (ops: seq<Op>) {
    if bs == [] then [] else [PutOp(bs[0]), TakeOp] + Rounds(bs[1..])
  }

  lemma Round(data: seq<byte>, pos: nat, frame: nat, bs: seq<seq<byte>>)
    requires 0 < frame && pos < |data| && bs != [] && |bs[0]| == frame
    ensures pos + frame > |data| ==> Run(Emptied(data, pos), frame, Rounds(bs)).1 == PastEnd
    ensures pos + frame <= |data| ==>
              Run(Emptied(data, pos), frame, Rounds(bs)).1 ==
              Run(Emptied(Write(data, pos, bs[0]), Next(pos, frame, |data|)), frame, Rounds(bs[1..])).1
  {
    hide Write;
    var ops, rest := Rounds(bs), Rounds(bs[1..]);
    assert ops == [PutOp(bs[0])] + ([TakeOp] + rest);
    assert ops[1..] == [TakeOp] + rest && ([TakeOp] + rest)[1..] == rest;
    var r := Emptied(data, pos);
    if pos + frame <= |data| {
      var w := Next(pos, frame, |data|);
      assert Put(r, frame, bs[0]) == (Ring(Write(data, pos, bs[0]), pos, w, pos == w), Fine);
    }
  }

  /** When the ring is drained after every put, the position ASSERTs never fire if the size is
      a multiple of the frame length; and otherwise one does, on the first lap. */
  lemma {:induction false} Laps(data: seq<byte>, pos: nat, frame: nat, bs: seq<seq<byte>>)
    requires 0 < frame && pos < |data| && forall i :: 0 <= i < |bs| ==> |bs[i]| == frame
    ensures MultipleOf(|data|, frame) && MultipleOf(|data| - pos, frame) ==>
              Run(Emptied(data, pos), frame, Rounds(bs)).1 == Fine
    ensures !MultipleOf(|data| - pos, frame) && |bs| > |data| - pos ==>
              Run(Emptied(data, pos), frame, Rounds(bs)).1 == PastEnd
    decreases |bs|
  {
    if bs != [] {
      hide Run, Rounds, Write;
      Round(data, pos, frame, bs);
      if pos + frame <= |data| {
        assert MultipleOf(0, frame);
        Laps(Write(data, pos, bs[0]), Next(pos, frame, |data|), frame, bs[1..]);
      }
    }
  }

  lemma SizesThatFit(data: seq<byte>, frame: nat, bs: seq<seq<byte>>)
    requires 0 < frame && 0 < |data| < |bs| && forall i :: 0 <= i < |bs| ==> |bs[i]| == frame
    ensures Run(Emptied(data, 0), frame, Rounds(bs)).1 == (if |data| % frame == 0 then Fine else PastEnd)
  {
    MultipleOfIsMod(|data|, frame);
    Laps(data, 0, frame, bs);
  }

  lemma {:induction false} Product(k: nat, d: nat)
    requires d > 0
    ensures MultipleOf(k * d, d)
  {
    if k > 0 {
      assert k * d - d == (k - 1) * d && k * d >= d;
      Product(k - 1, d);
    }
  }

  /** The size the stream setup computes: samples rounded up to whole frames, two bytes each. */
  function StreamSize(samples: nat, aecFrame: nat): nat
    requires aecFrame > 0
  {
    var n := (samples + (aecFrame - 1)) / aecFrame * aecFrame;
    2 * if n == 0 then aecFrame else n
  }

  lemma RoundedUp(samples: nat, frame: nat)
    requires frame > 0
    ensures var n := (samples + (frame - 1)) / frame * frame; samples <= n < samples + frame
  {
    var x := samples + (frame - 1);
    assert x == x / frame * frame + x % frame;
  }

  lemma StreamSizeFits(samples: nat, aecFrame: nat)
    requires aecFrame > 0
    ensures MultipleOf(StreamSize(samples, aecFrame), 2 * aecFrame) && StreamSize(samples, aecFrame) > 0
    ensures samples == 0 ==> StreamSize(samples, aecFrame) == 2 * aecFrame
    ensures samples > 0 ==> 2 * samples <= StreamSize(samples, aecFrame) < 2 * (samples + aecFrame)
  {
    var k := (samples + (aecFrame - 1)) / aecFrame;
    RoundedUp(samples, aecFrame);
    Product(k, 2 * aecFrame);
    Product(1, 2 * aecFrame);
    Twice(k, aecFrame);
    hide MultipleOf;
  }

  lemma Twice(k: nat, d: nat)
    ensures 2 * (k * d) == k * (2 * d)
  {
  }

  class Queue {
    const buffer: array<byte>
    var rpos: nat
    var wpos: nat
    var full: bool

    ghost predicate Valid()
      reads this, buffer
    {
      ValidRing(View())
    }

    ghost function View(): Ring
      reads this, buffer
    {
      Ring(buffer[..], rpos, wpos, full)
    }

    /** The size and both positions are held in 16 bits, so the size has to fit. */
    constructor (samples: nat, aecFrame: nat)
      requires aecFrame > 0 && StreamSize(samples, aecFrame) < 65536
      ensures Valid() && fresh(buffer) && Aligned(View(), 2 * aecFrame) && Contents(View()) == []
      ensures buffer.Length == StreamSize(samples, aecFrame)
    {
      StreamSizeFits(samples, aecFrame);
      buffer := new byte[StreamSize(samples, aecFrame)](_ => 0);
      rpos, wpos, full := 0, 0, false;
    }

    method Length() returns (n: int)
      ensures n == QueueLength(View())
    {
      if rpos == wpos {
        n := if full then buffer.Length else 0;
      } else if rpos < wpos {
        n := wpos - rpos;
      } else {
        n := buffer.Length + wpos - rpos;
      }
    }

    method MoreData(frame: nat, b: seq<byte>) returns (o: Outcome)
      requires Valid()
      modifies this, buffer
      ensures (View(), o) == Put(old(View()), frame, b)
    {
      if |b| != frame {
        return BadLength;
      }
      if wpos + |b| > buffer.Length {
        return PastEnd;
      }
      var n := Length();
      if n + |b| > buffer.Length {
        return Overflow;
      }
      forall i | 0 <= i < |b| {
        buffer[wpos + i] := b[i];
      }
      assert buffer[..] == Write(old(buffer[..]), wpos, b);
      wpos := wpos + |b|;
      if wpos >= buffer.Length {
        wpos := 0;
      }
      if rpos == wpos {
        full := true;
      }
      return Fine;
    }

    method DataCome(frame: nat, len: nat) returns (o: Outcome, at: nat)
      requires Valid()
      modifies this
      ensures (View(), o, at) == Borrow(old(View()), frame, len)
    {
      at := 0;
      if len != frame {
        return BadLength, 0;
      }
      if rpos + len > buffer.Length {
        return PastEnd, 0;
      }
      var n := Length();
      if rpos == wpos {
        full := false;
      }
      if n < len {
        return Underflow, 0;
      }
      at := rpos;
      rpos := rpos + len;
      if rpos >= buffer.Length {
        rpos := 0;
      }
      return Fine, at;
    }

    method Reset()
      modifies `rpos, `wpos, `full
      ensures View() == Ring(buffer[..], 0, 0, false)
    {
      rpos, wpos, full := 0, 0, false;
    }
  }
}
