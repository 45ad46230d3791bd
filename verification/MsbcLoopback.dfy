/** The two ends of the voice link together: what the receiver makes of the senders' words. */
module MsbcLoopback {
  import opened Bytes
  import opened MsbcDecoder
  import opened MsbcStream
  import opened MsbcUplink

  predicate HeaderAt(b: seq<byte>, i: nat) {
    i + 2 < |b| && b[i] == 0x01 && b[i + 1] % 16 == 8 && b[i + 2] == 0xad
  }

  /** An mSBC payload opens with its syncword and holds nothing that reads as a header. */
  predicate Clean(p: payload) {
    p[0] == 0xad && forall i: nat :: i < 57 ==> !HeaderAt(p, i)
  }

  predicate AllClean(ps: seq<payload>) {
    forall j :: 0 <= j < |ps| ==> Clean(ps[j])
  }

  lemma WordHeader(b: seq<byte>, i: nat)
    ensures IsHeader(Words(b), i) <==> HeaderAt(b, i)
  {
  }

  lemma FrameHeader(n: nat, p: payload, next: seq<byte>, i: nat)
    requires Clean(p) && i < FRAME && i + 2 < FRAME + |next|
    ensures HeaderAt(FrameBytes(n, p) + next, i) <==> i == 0
  {
    var b := FrameBytes(n, p) + next;
    if 2 <= i <= 56 {
      assert !HeaderAt(p, i - 2);
      assert b[i] == p[i - 2] && b[i + 1] == p[i - 1] && b[i + 2] == p[i];
    }
  }

  /** Headers stand at the frame starts and nowhere else, and every frame ends in zero. */
  lemma {:induction false} StreamShape(n: nat, ps: seq<payload>, i: nat)
    requires AllClean(ps) && i < FRAME * |ps|
    ensures i + 2 < FRAME * |ps| ==> (HeaderAt(Stream(n, ps), i) <==> i % FRAME == 0)
    ensures (i + 1) % FRAME == 0 ==> Stream(n, ps)[i] == 0
    decreases |ps|
  {
    var head, rest := FrameBytes(n, ps[0]), Stream(n + 1, ps[1..]);
    if i < FRAME {
      if i + 2 < FRAME * |ps| {
        FrameHeader(n, ps[0], rest, i);
      }
    } else {
      StreamShape(n + 1, ps[1..], i - FRAME);
      PhaseShift(FRAME, i - FRAME);
      PhaseShift(FRAME, i + 1 - FRAME);
      assert HeaderAt(head + rest, i) == HeaderAt(rest, i - FRAME);
    }
  }

  function Zeros(z: nat): (b: seq<byte>)
    ensures |b| == z && forall i :: 0 <= i < z ==> b[i] == 0
  {
    seq(z, i => 0)
  }

  /** Fewer than 60 zeros and then frames: a well-formed stream whose phase is the zeros' number. */
  lemma PaddedWellFormed(z: nat, n: nat, ps: seq<payload>)
    requires z < FRAME && AllClean(ps)
    ensures WellFormed(Words(Zeros(z) + Stream(n, ps)), z)
  {
    var s := Stream(n, ps);
    var b := Zeros(z) + s;
    forall i: nat | i + 2 < |b| ensures IsHeader(Words(b), i) <==> i % FRAME == z {
      WordHeader(b, i);
      if i >= z {
        StreamShape(n, ps, i - z);
        Rephase(i, z);
        assert HeaderAt(b, i) == HeaderAt(s, i - z);
      }
    }
    forall i: nat | i < |b| && (i + 1) % FRAME == z ensures IsTail(Words(b)[i]) {
      if i >= z {
        StreamShape(n, ps, i - z);
        Rephase(i + 1, z);
      }
    }
  }

  lemma Rephase(i: nat, z: nat)
    requires z <= i && z < FRAME
    ensures i % FRAME == z <==> (i - z) % FRAME == 0
  {
  }

  /** Frame m of the senders' stream, handed over intact, and numbered as it was sent. */
  ghost predicate Received(f: outcome, n: nat, ps: seq<payload>, m: nat) {
    && m < |ps|
    && f == Some(FrameBytes(n + m, ps[m]))
    && ParseHeader(f.value) == (0, (n + m) % 4)
  }

  /** Any receiver calls, any cutting: from its second words on the receiver hands over
      every frame of a padded stream in order, byte for byte. */
  lemma Loopback(z: nat, n: nat, ps: seq<payload>, w: chunk, calls: seq<chunk>)
    requires z < FRAME && AllClean(ps) && w != []
    requires w + Concat(calls) == Words(Zeros(z) + Stream(n, ps))[..FRAME * |ps|]
    ensures ValidLink(Call(COLD_START, w, |w| / FRAME).0)
    ensures var f := Run(Call(COLD_START, w, |w| / FRAME).0, calls).1;
            && |f| == |ps| - |w| / FRAME
            && forall i :: 0 <= i < |f| ==> Received(f[i], n, ps, |w| / FRAME - 1 + i)
  {
    hide Call, WellFormed, Run, Stream, ParseHeader;
    var b, t, start := Zeros(z) + Stream(n, ps), w + Concat(calls), |w| / FRAME - 1;
    PaddedWellFormed(z, n, ps);
    SliceWellFormed(Words(b), z, 0, FRAME * |ps|);
    assert t == Words(b)[0..FRAME * |ps|];
    FromColdStart(w, calls, z);
    var f := Run(Call(COLD_START, w, |w| / FRAME).0, calls).1;
    forall i | 0 <= i < |f| ensures Received(f[i], n, ps, start + i) {
      assert Delivers(f[i], t, |w| - FRAME + z + FRAME * i);
      assert |w| - FRAME + z + FRAME * i == FRAME * (start + i) + z;
      OneArrives(z, n, ps, start + i, f[i]);
    }
  }

  lemma OneArrives(z: nat, n: nat, ps: seq<payload>, m: nat, f: outcome)
    requires m < |ps| && z < FRAME && FRAME * m + z + FRAME <= FRAME * |ps| && Clean(ps[m])
    requires Delivers(f, Words(Zeros(z) + Stream(n, ps))[..FRAME * |ps|], FRAME * m + z)
    ensures Received(f, n, ps, m)
  {
    hide Stream, ParseHeader, Words, Upper;
    var at := FRAME * m + z;
    WithinTake(Words(Zeros(z) + Stream(n, ps)), FRAME * |ps|, at, at + FRAME);
    FrameOfPadded(z, n, ps, m);
    ParsesIffSent(FrameBytes(n + m, ps[m]), n + m);
  }

  lemma FrameOfPadded(z: nat, n: nat, ps: seq<payload>, m: nat)
    requires m < |ps|
    ensures Upper(Words(Zeros(z) + Stream(n, ps))[FRAME * m + z..FRAME * m + z + FRAME]) == FrameBytes(n + m, ps[m])
  {
    hide Stream;
    var s, at := Stream(n, ps), FRAME * m;
    StreamFrame(n, ps, m);
    UpperOfWords(Zeros(z) + s, at + z, at + z + FRAME);
    assert (Zeros(z) + s)[at + z..at + z + FRAME] == s[at..at + FRAME];
  }

  /** The low-delay sender into the receiver: from power-up at both ends, however either side
      cuts its calls, the payloads come out as they went in. */
  lemma UplinkLoopback(lead: nat, sent: seq<seq<payload>>, w: chunk, calls: seq<chunk>)
    requires 1 <= lead <= 2 && AllClean(Concat(sent)) && w != []
    requires w + Concat(calls) == Outputs(Zeros(FRAME), 0, lead, sent)
    ensures ValidLink(Call(COLD_START, w, |w| / FRAME).0)
    ensures var f := Run(Call(COLD_START, w, |w| / FRAME).0, calls).1;
            && |f| == |Concat(sent)| - |w| / FRAME
            && forall i :: 0 <= i < |f| ==> Received(f[i], 0, Concat(sent), |w| / FRAME - 1 + i)
  {
    var ps, z := Concat(sent), FRAME - lead;
    ConstantDelay(Zeros(FRAME), 0, lead, sent);
    var s := Stream(0, ps);
    assert (Zeros(FRAME) + s)[lead..lead + FRAME * |ps|] == (Zeros(z) + s)[..FRAME * |ps|];
    assert Words((Zeros(z) + s)[..FRAME * |ps|]) == Words(Zeros(z) + s)[..FRAME * |ps|];
    Loopback(z, 0, ps, w, calls);
  }

  /** The capture path into the receiver; its first frame is number 1. */
  lemma CaptureLoopback(ps: seq<payload>, w: chunk, calls: seq<chunk>)
    requires AllClean(ps) && w != [] && w + Concat(calls) == Words(Stream(1, ps))
    ensures ValidLink(Call(COLD_START, w, |w| / FRAME).0)
    ensures var f := Run(Call(COLD_START, w, |w| / FRAME).0, calls).1;
            && |f| == |ps| - |w| / FRAME
            && forall i :: 0 <= i < |f| ==> Received(f[i], 1, ps, |w| / FRAME - 1 + i)
  {
    assert Zeros(0) + Stream(1, ps) == Stream(1, ps);
    Loopback(0, 1, ps, w, calls);
  }
}
