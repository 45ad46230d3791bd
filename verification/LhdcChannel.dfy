/** LHDC reassembly behind a lossy channel: a sender that splits frames into packets with
    consecutive 8-bit numbers, a channel that drops any of them, and the assembler. */
module LhdcChannel {
  import opened Bytes
  import opened LhdcAssembler

  /** A frame is its list of fragments: a single one goes out unfragmented, several as a
      first fragment, middle ones and a last one. */
  type Frame = seq<seq<byte>>

  ghost predicate WellFormed(f: Frame) {
    f != [] && |Concat(f)| < PACKET_BUFFER_LENGTH
  }

  /** Fragment o of frame f when the frame's first packet has running number n. */
  function PacketOf(f: Frame, n: int, o: nat): Packet
    requires o < |f|
  {
    Packet(|f| > 1, |f| > 1 && o == 0, |f| > 1 && o == |f| - 1, (n + o) % 256, f[o])
  }

  /** The packets o, o+1, ... of a frame through the channel; got tells which arrive. The
      result is the assembler's state and the payloads it has handed out. */
  function FrameThrough(a: Asm, f: Frame, n: int, o: nat, got: seq<bool>): (Asm, seq<seq<byte>>)
    requires o <= |f| && |got| == |f|
    decreases |f| - o
  {
    if o == |f| then (a, [])
    else if !got[o] then FrameThrough(a, f, n, o + 1, got)
    else
      var (b, r) := Receive(a, PacketOf(f, n, o));
      var (c, more) := FrameThrough(b, f, n, o + 1, got);
      (c, (if r.payload.Some? then [r.payload.value] else []) + more)
  }

  /** A whole transmission, with one arrival list per frame. */
  function Through(a: Asm, fs: seq<Frame>, n: int, got: seq<seq<bool>>): seq<seq<byte>>
    requires |got| == |fs| && forall i :: 0 <= i < |fs| ==> |got[i]| == |fs[i]|
    decreases |fs|
  {
    if fs == [] then []
    else
      var (b, out) := FrameThrough(a, fs[0], n, 0, got[0]);
      out + Through(b, fs[1..], n + |fs[0]|, got[1..])
  }

  /** What should come out: the frames all of whose packets arrived. */
  ghost function Intact(fs: seq<Frame>, got: seq<seq<bool>>): seq<seq<byte>>
    requires |got| == |fs|
  {
    if fs == [] then []
    else (if AllArrive(got[0]) then [Concat(fs[0])] else []) + Intact(fs[1..], got[1..])
  }

  predicate AllArrive(got: seq<bool>) {
    forall i :: 0 <= i < |got| ==> got[i]
  }

  /** The latest arrival before the packets that follow: its running number, and whether it
      left its frame open, that is, complete so far with packets still to come. */
  datatype Mark = Mark(last: int, open: bool)

  /** The mark after the first packets, those in got, of a frame of the given size. */
  function MarkAfter(m: Mark, n: int, size: nat, got: seq<bool>): Mark
    decreases |got|
  {
    if got == [] then m
    else if got[|got| - 1] then Mark(n + |got| - 1, AllArrive(got) && |got| < size)
    else MarkAfter(m, n, size, got[..|got| - 1])
  }

  /** Packet x arrives next after the mark. Only where a frame was left open does the number of
      packets lost in between matter: it must not be a positive multiple of 256. */
  predicate LegalGap(m: Mark, x: int) {
    m.last < x && (m.open && (x - m.last - 1) % 256 == 0 ==> x == m.last + 1)
  }

  ghost predicate GapsInFrame(m: Mark, n: int, got: seq<bool>) {
    forall o :: 0 <= o < |got| && got[o] ==> LegalGap(MarkAfter(m, n, |got|, got[..o]), n + o)
  }

  ghost predicate LegalLosses(m: Mark, n: int, got: seq<seq<bool>>)
    decreases |got|
  {
    got != [] ==>
      && GapsInFrame(m, n, got[0])
      && LegalLosses(MarkAfter(m, n, |got[0]|, got[0]), n + |got[0]|, got[1..])
  }

  /** The assembler between frames: if synchronised it expects the number after the latest
      arrival; it waits for a last fragment only if a frame was left open, and not when
      nothing has been lost since. */
  predicate Ready(a: Asm, n: int, m: Mark) {
    && AsmInv(a) && m.last < n
    && (a.synced ==> a.serial == (m.last + 1) % 256)
    && (a.waitLast ==> m.open && m.last != n - 1)
  }

  /** The assembler after o packets of frame f, of which those in got arrived. */
  ghost predicate Within(a: Asm, f: Frame, n: int, o: nat, m: Mark, got: seq<bool>)
    requires o <= |f| && |got| == |f|
  {
    if o > 0 && AllArrive(got[..o]) && o < |f| then
      a == Asm((n + o) % 256, true, true, Concat(f[..o])) && m == Mark(n + o - 1, true)
    else
      Ready(a, n + o, m)
  }

  lemma {:induction false} ConcatPrefix(f: Frame, o: nat)
    requires o < |f|
    ensures Concat(f[..o + 1]) == Concat(f[..o]) + f[o]
    ensures |Concat(f[..o + 1])| <= |Concat(f)|
  {
    assert f[..o + 1] == f[..o] + [f[o]];
    ConcatSnoc(f[..o], f[o]);
    assert f == f[..o + 1] + f[o + 1..];
    ConcatAppend(f[..o + 1], f[o + 1..]);
  }

  /** A packet that arrives in the middle of a frame that is complete so far. */
  lemma ContinueFrame(f: Frame, n: int, o: nat)
    requires WellFormed(f) && 0 < o < |f|
    ensures var (b, r) := Receive(Asm((n + o) % 256, true, true, Concat(f[..o])), PacketOf(f, n, o));
            if o + 1 == |f| then r.payload == Some(Concat(f)) && b == Asm((n + o + 1) % 256, true, false, [])
            else r.payload == None && b == Asm((n + o + 1) % 256, true, true, Concat(f[..o + 1]))
  {
    hide Concat;
    ConcatPrefix(f, o);
    assert f[..|f|] == f;
  }

  lemma SameNumber(x: int, y: int)
    requires x % 256 == y % 256
    ensures (x - y) % 256 == 0
  {
    assert x - y == 256 * (x / 256 - y / 256);
  }

  lemma NotMidFrame(a: Asm, x: int, m: Mark)
    requires Ready(a, x, m) && LegalGap(m, x)
    ensures !(a.synced && a.waitLast && x % 256 == a.serial)
  {
    if a.synced && x % 256 == a.serial {
      SameNumber(x, m.last + 1);
    }
  }

  lemma NextNumber(x: int)
    ensures Next(x % 256) == (x + 1) % 256
  {
    assert x + 1 == 256 * (x / 256) + (x % 256 + 1);
  }

  lemma StartFrame(a: Asm, f: Frame, n: int, m: Mark)
    requires WellFormed(f) && Ready(a, n, m) && LegalGap(m, n)
    ensures var (b, r) := Receive(a, PacketOf(f, n, 0));
            if |f| > 1 then r.payload == None && b == Asm((n + 1) % 256, true, true, f[0])
            else r.payload == Some(f[0]) && Ready(b, n + 1, Mark(n, false))
  {
    NotMidFrame(a, n, m);
    NextNumber(n);
    ConcatPrefix(f, 0);
    ConcatOne(f);
    hide Concat, LegalGap, Next;
  }

  lemma SkipPacket(a: Asm, f: Frame, n: int, o: nat, m: Mark)
    requires WellFormed(f) && 0 < o < |f| && Ready(a, n + o, m) && LegalGap(m, n + o)
    ensures var (b, r) := Receive(a, PacketOf(f, n, o));
            r.payload == None && Ready(b, n + o + 1, Mark(n + o, false))
  {
    NotMidFrame(a, n + o, m);
    NextNumber(n + o);
    hide Concat, LegalGap, Next;
  }

  /** A packet that arrives when its frame has just begun, or has already lost a packet. */
  lemma StartOrSkip(a: Asm, f: Frame, n: int, o: nat, m: Mark)
    requires WellFormed(f) && o < |f| && Ready(a, n + o, m) && LegalGap(m, n + o)
    ensures var (b, r) := Receive(a, PacketOf(f, n, o));
            if o == 0 && |f| > 1 then r.payload == None && b == Asm((n + 1) % 256, true, true, f[0])
            else r.payload == (if o == 0 then Some(f[0]) else None) && Ready(b, n + o + 1, Mark(n + o, false))
  {
    hide *;
    if o == 0 {
      StartFrame(a, f, n, m);
    } else {
      SkipPacket(a, f, n, o, m);
    }
  }

  /** One packet of a frame: it keeps the description, and it hands out the frame exactly
      when it is the last one and all arrived. */
  lemma PacketStep(a: Asm, f: Frame, n: int, o: nat, m: Mark, got: seq<bool>)
    requires WellFormed(f) && o < |f| && |got| == |f| && got[o]
    requires Within(a, f, n, o, m, got) && LegalGap(m, n + o)
    ensures var (b, r) := Receive(a, PacketOf(f, n, o));
            && Within(b, f, n, o + 1, Mark(n + o, AllArrive(got[..o + 1]) && o + 1 < |f|), got)
            && r.payload == if o + 1 == |f| && AllArrive(got) then Some(Concat(f)) else None
  {
    hide Receive, Concat;
    assert got[..o + 1] == got[..o] + [got[o]];
    assert AllArrive(got[..o + 1]) <==> AllArrive(got[..o]);
    assert o + 1 == |f| ==> got[..o + 1] == got;
    if o > 0 && AllArrive(got[..o]) {
      ContinueFrame(f, n, o);
    } else {
      StartOrSkip(a, f, n, o, m);
      if o == 0 { ConcatOne(f); }
    }
  }

  lemma ConcatOne(f: Frame)
    requires f != []
    ensures Concat(f[..1]) == f[0] && (|f| == 1 ==> Concat(f) == f[0])
  {
    assert f[..1] == [f[0]];
    assert |f| == 1 ==> f == [f[0]];
  }

  /** A lost packet only makes the frame incomplete. */
  lemma LostStep(a: Asm, f: Frame, n: int, o: nat, m: Mark, got: seq<bool>)
    requires WellFormed(f) && o < |f| && |got| == |f| && !got[o] && Within(a, f, n, o, m, got)
    ensures Within(a, f, n, o + 1, m, got) && !AllArrive(got)
  {
    assert got[..o + 1][o] == got[o];
    if o > 0 {
      ConcatPrefix(f, o - 1);
    }
  }

  /** A frame from its o-th packet on: nothing is handed out before its last packet, and
      then the frame if and only if all of it arrived. */
  lemma {:induction false} RestOfFrame(a: Asm, f: Frame, n: int, o: nat, start: Mark, got: seq<bool>)
    requires WellFormed(f) && o <= |f| && |got| == |f|
    requires Within(a, f, n, o, MarkAfter(start, n, |f|, got[..o]), got) && GapsInFrame(start, n, got)
    ensures var (b, out) := FrameThrough(a, f, n, o, got);
            && out == (if o < |f| && AllArrive(got) then [Concat(f)] else [])
            && Ready(b, n + |f|, MarkAfter(start, n, |f|, got))
    decreases |f| - o
  {
    hide Receive, Concat, LegalGap, Ready;
    if o == |f| {
      assert got[..o] == got;
    } else {
      var m := MarkAfter(start, n, |f|, got[..o]);
      MarkStep(start, n, |f|, got, o);
      hide MarkAfter, AllArrive, Within;
      if got[o] {
        PacketStep(a, f, n, o, m, got);
        RestOfFrame(Receive(a, PacketOf(f, n, o)).0, f, n, o + 1, start, got);
      } else {
        LostStep(a, f, n, o, m, got);
        RestOfFrame(a, f, n, o + 1, start, got);
      }
    }
  }

  lemma MarkStep(start: Mark, n: int, size: nat, got: seq<bool>, o: nat)
    requires o < |got|
    ensures MarkAfter(start, n, size, got[..o + 1]) ==
            if got[o] then Mark(n + o, AllArrive(got[..o + 1]) && o + 1 < size)
            else MarkAfter(start, n, size, got[..o])
  {
    assert got[..o + 1][..o] == got[..o];
  }

  lemma WellFormedNotEmpty(f: Frame)
    requires WellFormed(f)
    ensures f != []
  {
  }

  lemma WholeFrame(a: Asm, f: Frame, n: int, m: Mark, got: seq<bool>)
    requires WellFormed(f) && |got| == |f| && Ready(a, n, m) && GapsInFrame(m, n, got)
    ensures var (b, out) := FrameThrough(a, f, n, 0, got);
            && out == (if AllArrive(got) then [Concat(f)] else [])
            && Ready(b, n + |f|, MarkAfter(m, n, |f|, got))
  {
    assert got[..0] == [];
    hide Receive, Concat, GapsInFrame, Ready, FrameThrough;
    RestOfFrame(a, f, n, 0, m, got);
  }

  /** The main result. Whatever the losses, as long as no gap that begins inside a frame
      complete so far is a positive multiple of the 256 sequence numbers, the assembler hands
      out exactly the frames whose packets all arrived, each once, whole and in order. */
  lemma {:induction false} ExactlyIntactFramesArrive(a: Asm, fs: seq<Frame>, n: int, m: Mark, got: seq<seq<bool>>)
    requires |got| == |fs| && forall i :: 0 <= i < |fs| ==> |got[i]| == |fs[i]|
    requires forall i :: 0 <= i < |fs| ==> WellFormed(fs[i])
    requires Ready(a, n, m) && LegalLosses(m, n, got)
    ensures Through(a, fs, n, got) == Intact(fs, got)
    decreases |fs|
  {
    hide Receive, Concat, GapsInFrame, Ready, FrameThrough, MarkAfter, WellFormed;
    if fs != [] {
      assert fs[0] != [] by { WellFormedNotEmpty(fs[0]); }
      WholeFrame(a, fs[0], n, m, got[0]);
      var (b, out) := FrameThrough(a, fs[0], n, 0, got[0]);
      ExactlyIntactFramesArrive(b, fs[1..], n + |fs[0]|, MarkAfter(m, n, |got[0]|, got[0]), got[1..]);
    }
  }

  // ---------- Special cases: recovery after any history, and no loss at all ----------

  function AllOf(fs: seq<Frame>): (got: seq<seq<bool>>)
    ensures |got| == |fs| && forall i :: 0 <= i < |fs| ==> |got[i]| == |fs[i]| && AllArrive(got[i])
  {
    seq(|fs|, i requires 0 <= i < |fs| => seq(|fs[i]|, j => true))
  }

  lemma NextIsLegal(x: int, open: bool)
    ensures LegalGap(Mark(x - 1, open), x)
  {
  }

  lemma WholeFrameIsLegal(m: Mark, n: int, got: seq<bool>)
    requires got != [] && AllArrive(got) && LegalGap(m, n)
    ensures GapsInFrame(m, n, got) && MarkAfter(m, n, |got|, got) == Mark(n + |got| - 1, false)
  {
    forall o | 0 <= o < |got| && got[o] ensures LegalGap(MarkAfter(m, n, |got|, got[..o]), n + o) {
      if o > 0 {
        assert got[..o][o - 1];
      }
    }
  }

  lemma AllOfTail(fs: seq<Frame>)
    requires fs != []
    ensures AllOf(fs)[1..] == AllOf(fs[1..])
  {
  }

  lemma {:induction false} NoLossIsLegal(got: seq<seq<bool>>, n: int, m: Mark)
    requires forall i :: 0 <= i < |got| ==> got[i] != [] && AllArrive(got[i])
    requires LegalGap(m, n)
    ensures LegalLosses(m, n, got)
    decreases |got|
  {
    if got != [] {
      var next := n + |got[0]|;
      WholeFrameIsLegal(m, n, got[0]);
      NextIsLegal(next, false);
      hide GapsInFrame, MarkAfter, LegalGap, AllArrive;
      NoLossIsLegal(got[1..], next, Mark(next - 1, false));
    }
  }

  lemma {:induction false} NoLossIsIntact(fs: seq<Frame>)
    ensures |Intact(fs, AllOf(fs))| == |fs| && forall i :: 0 <= i < |fs| ==> Intact(fs, AllOf(fs))[i] == Concat(fs[i])
    decreases |fs|
  {
    hide Concat;
    if fs != [] {
      AllOfTail(fs);
      hide AllOf, AllArrive;
      NoLossIsIntact(fs[1..]);
    }
  }

  /** The first k packets of a frame are lost and the others arrive. */
  function Tail(f: Frame, k: nat): (got: seq<bool>)
    ensures |got| == |f|
  {
    seq(|f|, j => j >= k)
  }

  lemma {:induction false} MarkAfterNone(m: Mark, n: int, size: nat, got: seq<bool>)
    requires forall i :: 0 <= i < |got| ==> !got[i]
    ensures MarkAfter(m, n, size, got) == m
    decreases |got|
  {
    if got != [] { MarkAfterNone(m, n, size, got[..|got| - 1]); }
  }

  lemma TailIsLegal(f: Frame, n: int, k: nat, m: Mark)
    requires 0 < k <= |f| && m.last < n && LegalGap(m, n + k)
    ensures GapsInFrame(m, n, Tail(f, k))
    ensures LegalGap(MarkAfter(m, n, |f|, Tail(f, k)), n + |f|)
  {
    var got := Tail(f, k);
    MarkAfterNone(m, n, |f|, got[..k]);
    forall o | 0 <= o < |got| && got[o] ensures LegalGap(MarkAfter(m, n, |got|, got[..o]), n + o) {
      if o > k { assert got[..o][o - 1]; }
    }
    assert k == |f| ==> got[..k] == got;
  }

  /** A latest arrival that explains an expected number, as long ago as wanted. */
  lemma MarkChoice(serial: byte, n: int, k: nat, open: bool) returns (m: Mark)
    requires k > 0 && (open ==> serial != (n + k) % 256)
    ensures m.open == open && m.last < n - 1 && serial == (m.last + 1) % 256 && LegalGap(m, n + k)
  {
    var d, q := (n + k - serial) % 256, (n + k - serial) / 256;
    m := Mark(n + k - 1 - d - 256 * k, open);
    RemainderOf(serial, q - k);
    RemainderOf(d, k);
    RemainderOf(serial, q);
    hide Next;
  }

  lemma RemainderOf(r: byte, q: int)
    ensures (r + 256 * q) % 256 == r
  {
  }

  lemma ReadyAfterHistory(history: seq<Packet>, n: int, k: nat) returns (m: Mark)
    requires k > 0
    requires After(INITIAL, history).waitLast ==> After(INITIAL, history).serial != (n + k) % 256
    ensures m.last < n && Ready(After(INITIAL, history), n, m) && LegalGap(m, n + k)
  {
    var a := After(INITIAL, history);
    ReachableInv(history);
    hide After, LegalGap;
    m := MarkChoice(a.serial, n, k, a.waitLast);
  }

  /** Recovery. After any history of packets, well-formed or not, let packets be lost so that
      running number n + k is the next to arrive; if the assembler is in the middle of a frame,
      let that number differ from the expected one (which 1 to 255 lost packets always
      achieve). The frame f that lost its first k > 0 packets is dropped, and every frame
      after it is delivered exactly. */
  lemma RecoversAfterGap(history: seq<Packet>, f: Frame, k: nat, fs: seq<Frame>, n: int)
    requires WellFormed(f) && 0 < k <= |f| && forall i :: 0 <= i < |fs| ==> WellFormed(fs[i])
    requires After(INITIAL, history).waitLast ==> After(INITIAL, history).serial != (n + k) % 256
    ensures var out := Through(After(INITIAL, history), [f] + fs, n, [Tail(f, k)] + AllOf(fs));
            |out| == |fs| && forall i :: 0 <= i < |fs| ==> out[i] == Concat(fs[i])
  {
    hide Receive, After, Concat, FrameThrough, Through, MarkAfter, GapsInFrame, Ready, LegalGap;
    var a := After(INITIAL, history);
    var m := ReadyAfterHistory(history, n, k);
    var got := [Tail(f, k)] + AllOf(fs);
    TailIsLegal(f, n, k, m);
    NoLossIsLegal(AllOf(fs), n + |f|, MarkAfter(m, n, |f|, Tail(f, k)));
    NoLossIsIntact(fs);
    assert got[1..] == AllOf(fs) && ([f] + fs)[1..] == fs;
    ExactlyIntactFramesArrive(a, [f] + fs, n, m, got);
    assert !Tail(f, k)[0];
  }

  /** Reassembly inverts fragmentation: with no loss every frame sequence comes out as it
      went in, across the wrap of the sequence number, from the first packet on. */
  lemma LosslessRoundTrip(fs: seq<Frame>, n: int)
    requires forall i :: 0 <= i < |fs| ==> WellFormed(fs[i])
    ensures var out := Through(INITIAL, fs, n, AllOf(fs));
            |out| == |fs| && forall i :: 0 <= i < |fs| ==> out[i] == Concat(fs[i])
  {
    NoLossIsLegal(AllOf(fs), n, Mark(n - 1, false));
    NoLossIsIntact(fs);
    ExactlyIntactFramesArrive(INITIAL, fs, n, Mark(n - 1, false), AllOf(fs));
  }

  // ---------- Where the condition fails ----------

  lemma {:induction false} SkipLost(a: Asm, f: Frame, n: int, o: nat, k: nat)
    requires o <= k <= |f|
    ensures FrameThrough(a, f, n, o, Tail(f, k)) == FrameThrough(a, f, n, k, Tail(f, k))
    decreases k - o
  {
    if o < k {
      SkipLost(a, f, n, o + 1, k);
    }
  }

  /** Later fragments of a frame without its first one give nothing. */
  lemma {:induction false} NothingMore(a: Asm, f: Frame, n: int, o: nat, k: nat)
    requires 0 < o <= |f| && k <= o && !a.waitLast
    ensures FrameThrough(a, f, n, o, Tail(f, k)).1 == []
    decreases |f| - o
  {
    hide Concat;
    if o < |f| {
      NothingMore(Receive(a, PacketOf(f, n, o)).0, f, n, o + 1, k);
    }
  }

  /** What comes of packets o, o+1, ... of a frame behind what the buffer holds. */
  function Joined(buf: seq<byte>, f: Frame, o: nat): seq<seq<byte>>
    requires o <= |f|
  {
    var s := buf + Concat(f[o..]);
    if |s| < PACKET_BUFFER_LENGTH then [s] else []
  }

  lemma JoinedNext(buf: seq<byte>, f: Frame, o: nat)
    requires o < |f|
    ensures Joined(buf, f, o) == Joined(buf + f[o], f, o + 1)
    ensures |buf| + |f[o]| >= PACKET_BUFFER_LENGTH ==> Joined(buf, f, o) == []
    ensures o + 1 == |f| && |buf| + |f[o]| < PACKET_BUFFER_LENGTH ==> Joined(buf, f, o) == [buf + f[o]]
  {
    assert f[o..] == [f[o]] + f[o + 1..];
    Regroup(buf, f[o], Concat(f[o + 1..]));
    if o + 1 == |f| {
      assert f[o + 1..] == [] && buf + f[o] + [] == buf + f[o];
    }
  }

  /** One packet of another frame, for an assembler in the middle of one. */
  lemma TakesOne(a: Asm, f: Frame, n: int, o: nat)
    requires o < |f| && |f| > 1 && a == Asm((n + o) % 256, true, true, a.buf)
    ensures var (b, r) := Receive(a, PacketOf(f, n, o));
            if |a.buf| + |f[o]| >= PACKET_BUFFER_LENGTH then !b.waitLast && r.payload == None
            else if o + 1 == |f| then r.payload == Some(a.buf + f[o])
            else r.payload == None && b == Asm((n + o + 1) % 256, true, true, a.buf + f[o])
  {
    NextNumber(n + o);
  }

  /** An assembler in the middle of a frame takes packets of another one for its own. */
  lemma {:induction false} TakesForeign(a: Asm, f: Frame, n: int, o: nat, k: nat)
    requires k <= o < |f| && |f| > 1 && a == Asm((n + o) % 256, true, true, a.buf)
    ensures FrameThrough(a, f, n, o, Tail(f, k)).1 == Joined(a.buf, f, o)
    decreases |f| - o
  {
    var b := Receive(a, PacketOf(f, n, o)).0;
    TakesOne(a, f, n, o);
    JoinedNext(a.buf, f, o);
    hide Receive, Joined;
    if |a.buf| + |f[o]| >= PACKET_BUFFER_LENGTH {
      NothingMore(b, f, n, o + 1, k);
    } else if o + 1 < |f| {
      TakesForeign(b, f, n, o + 1, k);
    } else {
      assert FrameThrough(b, f, n, o + 1, Tail(f, k)) == (b, []);
    }
  }

  /** What a hidden gap does. After any history that leaves the assembler in the middle of a
      frame, let the next packet to arrive, fragment k of a frame, have just the number it
      expects, a multiple of 256 too far. The beginning of the one frame and the rest of the
      other are handed out as one payload if that fits the buffer; otherwise nothing is. So
      the outcome is right exactly if a damaged frame overflows the buffer, or a whole one
      that fits is joined to an empty beginning. */
  lemma HiddenGapIff(history: seq<Packet>, f: Frame, k: nat, n: int)
    requires k < |f| && |f| > 1
    requires var a := After(INITIAL, history); a.waitLast && a.serial == (n + k) % 256
    ensures var a := After(INITIAL, history);
            var out := Through(a, [f], n, [Tail(f, k)]);
            && out == Joined(a.buf, f, k)
            && (out == Intact([f], [Tail(f, k)]) <==>
                  if k > 0 then |a.buf| + |Concat(f[k..])| >= PACKET_BUFFER_LENGTH
                  else a.buf == [] && |Concat(f)| < PACKET_BUFFER_LENGTH)
  {
    var a, got := After(INITIAL, history), Tail(f, k);
    ReachableInv(history);
    SkipLost(a, f, n, 0, k);
    TakesForeign(a, f, n, k, k);
    assert k > 0 ==> !got[0];
    OneFrame(a, f, n, got);
    assert k == 0 ==> f[k..] == f;
    hide Receive, After, Concat, FrameThrough, Through, Intact;
    if a.buf + Concat(f) == Concat(f) {
      assert |a.buf| == 0;
    } else {
      assert a.buf != [] || [] + Concat(f) == Concat(f);
    }
  }

  lemma OneFrame(a: Asm, f: Frame, n: int, got: seq<bool>)
    requires |got| == |f|
    ensures Through(a, [f], n, [got]) == FrameThrough(a, f, n, 0, got).1
    ensures Intact([f], [got]) == if AllArrive(got) then [Concat(f)] else []
  {
    assert [f][1..] == [] && [got][1..] == [];
  }

  /** A hidden gap that ends on an unfragmented packet swallows it: that frame arrived and is
      lost. */
  lemma HiddenGapSwallows(a: Asm, p: seq<byte>, n: int)
    requires a == Asm(n % 256, true, true, a.buf)
    ensures Through(a, [[p]], n, [[true]]) == [] && Intact([[p]], [[true]]) == [Concat([p])]
  {
    var (b, r) := Receive(a, PacketOf([p], n, 0));
    assert r.payload == None;
    assert FrameThrough(b, [p], n, 1, [true]).1 == [];
    OneFrame(a, [p], n, [true]);
  }
}
