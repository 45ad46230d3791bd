/** The re-blocking pipeline of the voice path: SCO frames of one size go in, blocks of a
    larger size are processed, frames come out again, through an input and an output queue.
    One call handles one frame and at most one block. */
module ScoReblock {
  import opened Bytes
  import opened ByteQueue
  import Ring

  /** The contents of the two queues and the state of the filters that process blocks. */
  datatype Pipe<S> = Pipe(inp: seq<byte>, out: seq<byte>, filters: S)

  /** Block size, queue capacity, the filters' first state and the processing of one block,
      which may change their state. */
  datatype Setup<!S> = Setup(block: nat, capacity: nat, init: S, process: (S, seq<byte>) -> (S, seq<byte>))

  ghost predicate KeepsLength<S(!new)>(su: Setup<S>) {
    forall c, b :: |b| == su.block ==> |su.process(c, b).1| == su.block
  }

  function Start<S>(su: Setup<S>): Pipe<S> {
    Pipe([], [], su.init)
  }

  function Put(q: seq<byte>, data: seq<byte>, capacity: nat): seq<byte> {
    if |q| + |data| <= capacity then q + data else q
  }

  /** Queue contents after one call, and the bytes left in the caller's frame buffer; served
      tells whether they came out of the pipeline. */
  datatype Outcome<S> = Outcome(pipe: Pipe<S>, frame: seq<byte>, served: bool)

  function Call<S>(su: Setup<S>, p: Pipe<S>, frame: seq<byte>): Outcome<S> {
    var q := Fed(su, p, frame);
    if |q.out| >= |frame| then Outcome(q.(out := q.out[|frame|..]), q.out[..|frame|], true)
    else Outcome(q, frame, false)
  }

  /** The queues after the frame went in and at most one block was processed. */
  function Fed<S>(su: Setup<S>, p: Pipe<S>, frame: seq<byte>): Pipe<S> {
    var inp := Put(p.inp, frame, su.capacity);
    if |inp| >= su.block then
      var (filters, block) := su.process(p.filters, inp[..su.block]);
      Pipe(inp[su.block..], Put(p.out, block, su.capacity), filters)
    else p.(inp := inp)
  }

  class Path<S(!new)> {
    const inq: CQueue
    const outq: CQueue
    const su: Setup<S>
    var filters: S

    ghost predicate Valid()
      reads this, inq, outq
    {
      && inq.Valid() && outq.Valid() && inq != outq && inq.base != outq.base
      && inq.base.Length == outq.base.Length == su.capacity && su.block > 0
    }

    ghost function View(): Pipe<S>
      requires Valid()
      reads this, inq, outq, inq.base, outq.base
    {
      Pipe(inq.Contents(), outq.Contents(), filters)
    }

    constructor (su: Setup<S>, inbuf: array<byte>, outbuf: array<byte>)
      requires inbuf != outbuf && inbuf.Length == outbuf.Length == su.capacity > 0 && su.block > 0
      ensures Valid() && this.su == su && View() == Start(su) && fresh(inq) && fresh(outq)
      ensures inq.base == inbuf && outq.base == outbuf
    {
      this.su := su;
      filters := su.init;
      inq := new CQueue(inbuf);
      outq := new CQueue(outbuf);
    }

    /** The four app_sco_*_pcmbuff_get functions, on the queue they belong to: all of len
        bytes, or zeros and an error. */
    method Get(q: CQueue, len: nat) returns (ok: bool, data: seq<byte>)
      requires q.Valid()
      modifies q`rd, q`len
      ensures q.Valid() && ok == (len <= |old(q.Contents())|)
      ensures ok ==> data == old(q.Contents())[..len] && q.Contents() == old(q.Contents())[len..]
      ensures !ok ==> data == seq(len, i => 0) && q.Contents() == old(q.Contents())
    {
      ghost var all := q.Contents();
      var peeked, e1, e2 := q.Peek(len);
      if len == |e1| + |e2| {
        data := e1 + e2;
        var _ := q.DeCQueue(|e1|);
        var _ := q.DeCQueue(|e2|);
        assert all[|e1|..][|e2|..] == all[len..];
        ok := true;
      } else {
        data := seq(len, i => 0);
        ok := false;
      }
    }

    /** The first half of a call: the frame goes in, and at most one block is processed. */
    method Feed(frame: seq<byte>)
      requires Valid() && KeepsLength(su)
      modifies `filters, inq, outq, inq.base, outq.base
      ensures Valid()
      ensures View() == Fed(su, old(View()), frame)
    {
      hide Ring.Read;
      var _ := inq.EnCQueue(frame);
      var n := inq.Length();
      if n >= su.block {
        var ok, data := Get(inq, su.block);
        assert ok;
        var (next, block) := su.process(filters, data);
        filters := next;
        var _ := outq.EnCQueue(block);
      }
    }

    /** wl_sco_tx_process_run and wl_sco_rx_process_run, which differ in the processing. */
    method Run(frame: array<byte>)
      requires Valid() && KeepsLength(su)
      requires frame != inq.base && frame != outq.base
      modifies `filters, inq, outq, inq.base, outq.base, frame
      ensures Valid()
      ensures var o := Call(su, old(View()), old(frame[..])); View() == o.pipe && frame[..] == o.frame
    {
      Feed(frame[..]);
      var n := outq.Length();
      if n >= frame.Length {
        var ok, data := Get(outq, frame.Length);
        assert ok;
        forall i | 0 <= i < frame.Length {
          frame[i] := data[i];
        }
        assert frame[..] == data;
      }
    }
  }

  // ---------- A pure one-frame delay ----------

  /** The filters' state after some blocks, from the start. */
  function FiltersAfter<S>(su: Setup<S>, blocks: seq<seq<byte>>): S {
    if blocks == [] then su.init
    else su.process(FiltersAfter(su, blocks[..|blocks| - 1]), blocks[|blocks| - 1]).0
  }

  /** The blocks as the filters leave them when they run over all of them in order. */
  function Processed<S>(su: Setup<S>, blocks: seq<seq<byte>>): (s: seq<seq<byte>>)
    ensures |s| == |blocks|
  {
    seq(|blocks|, i requires 0 <= i < |blocks| => su.process(FiltersAfter(su, blocks[..i]), blocks[i]).1)
  }

  /** After at least one call with frames of size f: all input so far is the blocks taken
      and what is queued for input; all processed output is what was returned and what is
      queued for output; together the queues hold one frame; and the input queue has room
      to spare in steps of block - f. */
  ghost predicate Steady<S>(su: Setup<S>, f: nat, p: Pipe<S>, input: seq<byte>,
                            returned: seq<byte>, blocks: seq<seq<byte>>) {
    && f < su.block
    && input == Concat(blocks) + p.inp
    && (forall i :: 0 <= i < |blocks| ==> |blocks[i]| == su.block)
    && Concat(Processed(su, blocks)) == returned + p.out && p.filters == FiltersAfter(su, blocks)
    && |p.inp| + |p.out| == f
    && MultipleOf(|p.inp|, su.block - f) && MultipleOf(f, su.block - f)
  }

  lemma ProcessedSnoc<S>(su: Setup<S>, blocks: seq<seq<byte>>, b: seq<byte>)
    ensures var (filters, out) := su.process(FiltersAfter(su, blocks), b);
            && Concat(Processed(su, blocks + [b])) == Concat(Processed(su, blocks)) + out
            && FiltersAfter(su, blocks + [b]) == filters
  {
    var all, out := blocks + [b], su.process(FiltersAfter(su, blocks), b).1;
    assert all[..|blocks|] == blocks;
    forall i | 0 <= i < |blocks| ensures all[..i] == blocks[..i] {
    }
    assert Processed(su, all) == Processed(su, blocks) + [out];
    ConcatSnoc(Processed(su, blocks), out);
  }

  /** One call in the steady state: nothing overflows, a frame is served, and the steady
      state is kept. */
  lemma SteadyCall<S(!new)>(su: Setup<S>, p: Pipe<S>, frame: seq<byte>, input: seq<byte>,
                                  returned: seq<byte>, blocks: seq<seq<byte>>)
    returns (blocks': seq<seq<byte>>)
    requires KeepsLength(su) && Steady(su, |frame|, p, input, returned, blocks) && 2 * |frame| <= su.capacity
    ensures var o := Call(su, p, frame);
            && o.served && |o.frame| == |frame|
            && |p.inp| + |frame| <= su.capacity && |Fed(su, p, frame).out| <= su.capacity
            && Steady(su, |frame|, o.pipe, input + frame, returned + o.frame, blocks')
  {
    var f := |frame|;
    var inp := p.inp + frame;
    var o := Call(su, p, frame);
    Regroup(Concat(blocks), p.inp, frame);
    if |inp| >= su.block {
      var b := inp[..su.block];
      blocks' := blocks + [b];
      ConcatSnoc(blocks, b);
      ProcessedSnoc(su, blocks, b);
      assert inp == b + inp[su.block..];
      Regroup(Concat(blocks), b, inp[su.block..]);
      var out := su.process(p.filters, b).1;
      Regroup(returned, p.out, out);
      Regroup(returned, o.frame, o.pipe.out);
      assert p.out + out == o.frame + o.pipe.out;
    } else {
      blocks' := blocks;
      assert p.inp == [];
      Regroup(returned, o.frame, o.pipe.out);
      assert p.out == o.frame + o.pipe.out;
    }
  }

  lemma FirstCall<S(!new)>(su: Setup<S>, frame: seq<byte>)
    requires KeepsLength(su) && |frame| < su.block && |frame| <= su.capacity && frame != []
    requires MultipleOf(|frame|, su.block - |frame|)
    ensures var o := Call(su, Start(su), frame);
            !o.served && o.frame == frame && Steady(su, |frame|, o.pipe, frame, [], [])
  {
    assert [] + frame == frame;
    assert Processed(su, []) == [];
  }

  /** The frames left in the caller's buffer by a list of calls. */
  function Calls<S>(su: Setup<S>, p: Pipe<S>, frames: seq<seq<byte>>): (outs: seq<Outcome<S>>)
    ensures |outs| == |frames|
    decreases |frames|
  {
    if frames == [] then []
    else [Call(su, p, frames[0])] + Calls(su, Call(su, p, frames[0]).pipe, frames[1..])
  }

  function Frames<S>(outs: seq<Outcome<S>>): (fs: seq<seq<byte>>)
    ensures |fs| == |outs|
  {
    seq(|outs|, i requires 0 <= i < |outs| => outs[i].frame)
  }

  lemma SteadyHolds<S>(su: Setup<S>, f: nat, p: Pipe<S>, input: seq<byte>, returned: seq<byte>, blocks: seq<seq<byte>>)
    requires Steady(su, f, p, input, returned, blocks)
    ensures |p.inp| + |p.out| == f
  {
  }

  lemma ConcatFirst(parts: seq<seq<byte>>)
    requires parts != []
    ensures Concat(parts) == parts[0] + Concat(parts[1..])
  {
  }

  /** Every call served a frame and left one frame in the queues. */
  ghost predicate AllServed<S>(outs: seq<Outcome<S>>, f: nat) {
    forall i :: 0 <= i < |outs| ==>
      outs[i].served && |outs[i].frame| == f && |outs[i].pipe.inp| + |outs[i].pipe.out| == f
  }

  lemma ServedFirst<S>(outs: seq<Outcome<S>>, f: nat)
    requires outs != [] && AllServed(outs[1..], f)
    requires outs[0].served && |outs[0].frame| == f && |outs[0].pipe.inp| + |outs[0].pipe.out| == f
    ensures AllServed(outs, f)
  {
    assert outs == [outs[0]] + outs[1..];
  }

  lemma CallsFirst<S>(su: Setup<S>, p: Pipe<S>, frames: seq<seq<byte>>)
    requires frames != []
    ensures Calls(su, p, frames)[0] == Call(su, p, frames[0])
    ensures Calls(su, p, frames)[1..] == Calls(su, Call(su, p, frames[0]).pipe, frames[1..])
  {
  }

  lemma FramesFirst<S>(outs: seq<Outcome<S>>)
    requires outs != []
    ensures Concat(Frames(outs)) == outs[0].frame + Concat(Frames(outs[1..]))
  {
    assert Frames(outs)[1..] == Frames(outs[1..]);
  }

  lemma {:induction false} SteadyCalls<S(!new)>(su: Setup<S>, f: nat, p: Pipe<S>, frames: seq<seq<byte>>,
                                       input: seq<byte>, returned: seq<byte>, blocks: seq<seq<byte>>)
    returns (blocks': seq<seq<byte>>)
    requires KeepsLength(su) && Steady(su, f, p, input, returned, blocks) && 2 * f <= su.capacity
    requires forall i :: 0 <= i < |frames| ==> |frames[i]| == f
    ensures var outs := Calls(su, p, frames);
            && AllServed(outs, f)
            && (forall i :: 0 <= i < |blocks'| ==> |blocks'[i]| == su.block)
            && Concat(blocks') <= input + Concat(frames)
            && returned + Concat(Frames(outs)) <= Concat(Processed(su, blocks'))
    decreases |frames|
  {
    if frames == [] {
      blocks' := blocks;
      assert returned + [] == returned;
    } else {
      hide Call, Concat, Processed, Steady, KeepsLength;
      assert Concat(frames) == frames[0] + Concat(frames[1..]) by { ConcatFirst(frames); }
      var o := Call(su, p, frames[0]);
      var b := SteadyCall(su, p, frames[0], input, returned, blocks);
      blocks' := SteadyCalls(su, f, o.pipe, frames[1..], input + frames[0], returned + o.frame, b);
      var outs := Calls(su, p, frames);
      CallsFirst(su, p, frames);
      FramesFirst(outs);
      SteadyHolds(su, f, o.pipe, input + frames[0], returned + o.frame, b);
      ServedFirst(outs, f);
      hide Calls, Frames, AllServed;
      Regroup(input, frames[0], Concat(frames[1..]));
      Regroup(returned, o.frame, Concat(Frames(outs[1..])));
    }
  }

  /** Equal-length pieces of a prefix are the pieces of the whole. */
  lemma {:induction false} PiecesOfPrefix(xs: seq<seq<byte>>, ys: seq<seq<byte>>, f: nat, k: nat)
    requires |xs| <= |ys| && Concat(xs) <= Concat(ys) && k < |xs|
    requires (forall i :: 0 <= i < |xs| ==> |xs[i]| == f) && (forall i :: 0 <= i < |ys| ==> |ys[i]| == f)
    ensures xs[k] == ys[k]
  {
    var cx, cy := Concat(xs), Concat(ys);
    assert cx[..f] == xs[0] && cx[f..] == Concat(xs[1..]);
    assert cy[..f] == ys[0] && cy[f..] == Concat(ys[1..]);
    assert cx[..f] == cy[..f];
    if k > 0 {
      assert cx[f..] <= cy[f..];
      PiecesOfPrefix(xs[1..], ys[1..], f, k - 1);
    }
  }

  /** Preconditions under which the pipeline is a delay line: the frame size is a multiple of
      what a block has beyond a frame, and two frames fit a queue. */
  ghost predicate DelayLine<S(!new)>(su: Setup<S>, f: nat, frames: seq<seq<byte>>) {
    && KeepsLength(su) && 0 < f < su.block && 2 * f <= su.capacity && MultipleOf(f, su.block - f)
    && frames != [] && forall i :: 0 <= i < |frames| ==> |frames[i]| == f
  }

  /** From empty queues, for any number of calls: the first call leaves its frame as it was;
      every later one serves a frame, with one frame in the queues; and what is served is
      the processed input stream without gap, one frame late. */
  lemma OneFrameDelay<S(!new)>(su: Setup<S>, f: nat, frames: seq<seq<byte>>) returns (blocks: seq<seq<byte>>)
    requires DelayLine(su, f, frames)
    ensures var outs := Calls(su, Start(su), frames);
            && !outs[0].served && outs[0].frame == frames[0]
            && (forall k :: 1 <= k < |outs| ==> outs[k].served && |outs[k].frame| == f)
            && (forall k :: 0 <= k < |outs| ==> |outs[k].pipe.inp| + |outs[k].pipe.out| == f)
            && (forall i :: 0 <= i < |blocks| ==> |blocks[i]| == su.block)
            && Concat(blocks) <= Concat(frames)
            && Concat(Frames(outs)[1..]) <= Concat(Processed(su, blocks))
  {
    var o := Call(su, Start(su), frames[0]);
    FirstCall(su, frames[0]);
    blocks := SteadyCalls(su, f, o.pipe, frames[1..], frames[0], [], []);
    var outs := Calls(su, Start(su), frames);
    var later := Calls(su, o.pipe, frames[1..]);
    assert outs == [o] + later;
    assert Frames(outs)[1..] == Frames(later);
    assert [] + Concat(Frames(later)) == Concat(Frames(later));
  }

  lemma CopyingKeepsBlocks<S(!new)>(su: Setup<S>, blocks: seq<seq<byte>>)
    requires forall c, b :: su.process(c, b).1 == b
    ensures Processed(su, blocks) == blocks
  {
    forall i | 0 <= i < |blocks| ensures Processed(su, blocks)[i] == blocks[i] {
      var c := FiltersAfter(su, blocks[..i]);
      assert su.process(c, blocks[i]).1 == blocks[i];
    }
  }

  /** On the receive path, where processing is a copy, output k is input k - 1. */
  lemma RxOutputIsPreviousInput<S(!new)>(su: Setup<S>, f: nat, frames: seq<seq<byte>>, k: nat)
    requires DelayLine(su, f, frames) && 1 <= k < |frames|
    requires forall c, b :: su.process(c, b).1 == b
    ensures Calls(su, Start(su), frames)[k].frame == frames[k - 1]
  {
    hide Call, Calls, Concat, Processed, FiltersAfter, MultipleOf, KeepsLength;
    var blocks := OneFrameDelay(su, f, frames);
    CopyingKeepsBlocks(su, blocks);
    var later := Frames(Calls(su, Start(su), frames))[1..];
    forall i | 0 <= i < |later| ensures |later[i]| == f {
    }
    PiecesOfPrefix(later, frames, f, k - 1);
  }

  /** The two configurations of the firmware are delay lines: 240-byte frames and 320-byte
      blocks at 16 kHz, 120 and 160 at 8 kHz, in 640-byte queues. */
  lemma FirmwareSizesFit()
    ensures MultipleOf(240, 320 - 240) && 2 * 240 <= 640
    ensures MultipleOf(120, 160 - 120) && 2 * 120 <= 640
  {
    assert MultipleOf(0, 80) && MultipleOf(80, 80) && MultipleOf(160, 80);
    assert MultipleOf(0, 40) && MultipleOf(40, 40) && MultipleOf(80, 40);
  }

  /** The divisibility is needed. If the input queue ever holds a number of bytes that is not
      a multiple of block - f, some later call finds less than a frame in the output queue
      and leaves the caller's own input in the buffer. */
  lemma {:induction false} UnderrunOtherwise<S(!new)>(su: Setup<S>, f: nat, p: Pipe<S>, frames: seq<seq<byte>>)
    returns (k: nat)
    requires KeepsLength(su) && 0 < f < su.block && 2 * f <= su.capacity
    requires |p.inp| + |p.out| == f && !MultipleOf(|p.inp|, su.block - f)
    requires |frames| > |p.inp| && forall i :: 0 <= i < |frames| ==> |frames[i]| == f
    ensures k < |frames| && !Calls(su, p, frames)[k].served && Calls(su, p, frames)[k].frame == frames[k]
    decreases |p.inp|
  {
    var o := Call(su, p, frames[0]);
    k := 0;
    if |p.inp| >= su.block - f {
      k := UnderrunOtherwise(su, f, o.pipe, frames[1..]);
      k := k + 1;
    }
  }

  lemma Refill<S(!new)>(su: Setup<S>, frame: seq<byte>)
    requires 0 < |frame| < su.block && |frame| <= su.capacity
    ensures Call(su, Start(su), frame).pipe == Pipe(frame, [], su.init)
  {
  }

  lemma NotServedOtherwise<S(!new)>(su: Setup<S>, f: nat, frames: seq<seq<byte>>) returns (k: nat)
    requires KeepsLength(su) && 0 < f < su.block && 2 * f <= su.capacity && !MultipleOf(f, su.block - f)
    requires |frames| > f + 1 && forall i :: 0 <= i < |frames| ==> |frames[i]| == f
    ensures 1 <= k < |frames| && !Calls(su, Start(su), frames)[k].served
  {
    Refill(su, frames[0]);
    var o := Call(su, Start(su), frames[0]);
    var later := Calls(su, o.pipe, frames[1..]);
    assert Calls(su, Start(su), frames) == [o] + later;
    hide Call, Calls, MultipleOf, KeepsLength;
    k := UnderrunOtherwise(su, f, o.pipe, frames[1..]);
    assert ([o] + later)[k + 1] == later[k];
    k := k + 1;
  }

  /** Exactly then: with enough calls, every call after the first serves a frame if and only
      if block - f divides f. */
  lemma ServedIffDivides<S(!new)>(su: Setup<S>, f: nat, frames: seq<seq<byte>>)
    requires KeepsLength(su) && 0 < f < su.block && 2 * f <= su.capacity
    requires |frames| > f + 1 && forall i :: 0 <= i < |frames| ==> |frames[i]| == f
    ensures (forall k :: 1 <= k < |frames| ==> Calls(su, Start(su), frames)[k].served) <==>
            f % (su.block - f) == 0
  {
    MultipleOfIsMod(f, su.block - f);
    hide Call, Calls, Start, Frames, Concat, Processed, FiltersAfter, MultipleOf, KeepsLength;
    if MultipleOf(f, su.block - f) {
      var _ := OneFrameDelay(su, f, frames);
    } else {
      var k := NotServedOtherwise(su, f, frames);
      assert !Calls(su, Start(su), frames)[k].served;
    }
  }
}
