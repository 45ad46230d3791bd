/** How the mSBC receiver gets back in step with a well-formed stream: from a lock on the wrong
    place, and from a window that is to be given up. */
module MsbcRecovery {
  import opened Bytes
  import opened MsbcDecoder
  import opened MsbcStream

  /** A window offset at least two words away from the headers, round the frame. */
  predicate Apart(off: nat, p: nat) {
    off < FRAME && p < FRAME && 2 <= (p + FRAME - off) % FRAME <= FRAME - 2
  }

  /** Window j begins like a muted frame. */
  predicate Mute(s: seq<word>, off: nat, j: nat)
    requires off + FRAME * j + FRAME < |s|
  {
    var at := off + FRAME * j;
    s[at] == 0 && s[at + 1] / 256 % 16 == 0 && s[at + 2] == 0
  }

  /** The word taken for granted before the buffer does not make a header at its start. */
  predicate NoFalseStart(s: seq<word>, off: nat) {
    off > 0 || !EndsHeader(s)
  }

  predicate AllMute(s: seq<word>, off: nat, from: nat, k: nat)
    requires off < FRAME && |s| == FRAME * k + FRAME
  {
    forall j :: from <= j < k ==> Mute(s, off, j)
  }

  lemma NoHeaderApart(s: seq<word>, p: nat, off: nat, j: nat, at: nat)
    requires WellFormed(s, p) && Apart(off, p)
    requires off + FRAME * j - 1 <= at <= off + FRAME * j + 1
    ensures !IsHeader(s, at)
  {
    SameRemainder(p + FRAME - off, at + FRAME - off, j);
    assert at + FRAME - off - (p + FRAME - off) == at - p;
    SamePhase(at, p);
  }

  lemma SamePhase(at: nat, p: nat)
    requires p < FRAME
    ensures at % FRAME == p ==> (at - p) % FRAME == 0
  {
  }

  lemma SameRemainder(d: nat, e: nat, j: nat)
    requires 0 < d < FRAME + FRAME && FRAME * (j + 1) - 1 <= e <= FRAME * (j + 1) + 1
    ensures (e - d) % FRAME == 0 ==> d % FRAME <= 1 || d % FRAME == FRAME - 1
  {
    var q := (e - d) / FRAME;
    assert (e - d) % FRAME == 0 ==> d == FRAME * (j + 1 - q) + (e - FRAME * (j + 1));
  }

  /** A misplaced window is never good and never asks for a skip. */
  lemma ApartWindow(s: seq<word>, p: nat, off: nat, j: nat)
    requires WellFormed(s, p) && Apart(off, p) && off + FRAME * j + FRAME < |s|
    requires j == 0 ==> NoFalseStart(s, off)
    ensures Classify(s, off, j) == Verdict(if Mute(s, off, j) then 1 else 3, false)
  {
    var at := off + FRAME * j;
    if at > 0 {
      NoHeaderApart(s, p, off, j, at - 1);
    }
    NoHeaderApart(s, p, off, j, at);
    NoHeaderApart(s, p, off, j, at + 1);
    hide WellFormed, Apart;
  }

  lemma {:induction false} ApartFlags(s: seq<word>, p: nat, off: nat, known: seq<nat>, k: nat, skip: bool)
    requires WellFormed(s, p) && Apart(off, p) && |known| <= k && |s| == FRAME * k + FRAME
    requires |known| == 0 && !skip ==> NoFalseStart(s, off)
    ensures var (flags, last) := Flags(s, off, known, k, skip);
            && last == (skip && |known| == k) && known <= flags
            && forall j :: |known| <= j < k ==>
                 flags[j] == if (skip && j == |known|) || Mute(s, off, j) then 1 else 3
    decreases k - |known|
  {
    hide WellFormed, Classify;
    if |known| < k {
      if !skip {
        ApartWindow(s, p, off, |known|);
      }
      var v := if skip then Verdict(1, false) else Classify(s, off, |known|);
      ApartFlags(s, p, off, known + [v.flag], k, v.skip);
    }
  }

  /** A call with the lock apart hands over nothing, and leaves step if and only if one of the
      windows it checks does not read as mute. */
  lemma ApartCall(l: Link, words: chunk, p: nat)
    requires ValidLink(l) && l.lock.synced && Apart(l.lock.offset, p) && WellFormed(l.history + words, p)
    requires l.lock.skip || NoFalseStart(l.history + words, l.lock.offset)
    ensures var s, k, off := l.history + words, |words| / FRAME, l.lock.offset;
            var (next, _, f) := Call(l, words, k);
            && next.history == s[|words|..] && next.lock.offset == off
            && next.lock.skip == (l.lock.skip && words == []) && (words == [] ==> next.lock.synced)
            && next.lock.synced == AllMute(s, off, if l.lock.skip then 1 else 0, k)
            && |f| == k && forall j :: 0 <= j < k ==> f[j] == None
  {
    hide WellFormed, Classify, Mute, Apart, Search;
    var s, k := l.history + words, |words| / FRAME;
    ApartFlags(s, p, l.lock.offset, [], k, l.lock.skip);
  }

  /** How many frames are lost to a lock apart: all up to the end of the first call that
      checks a window that does not read as mute. */
  function Lost(l: Link, calls: seq<chunk>): nat
    requires ValidLink(l)
    decreases |calls|
  {
    if calls == [] then 0
    else
      var s, k := l.history + calls[0], |calls[0]| / FRAME;
      var next := Link(s[|calls[0]|..], Lock(true, l.lock.offset, l.lock.skip && calls[0] == []));
      k + if AllMute(s, l.lock.offset, if l.lock.skip then 1 else 0, k) then Lost(next, calls[1..]) else 0
  }

  predicate NeverFalseStart(t: seq<word>, off: nat) {
    off > 0 || forall i: nat :: i + 1 < |t| && i % FRAME == 0 ==> !(IsSeq(t[i]) && t[i + 1] == 0xad00)
  }

  lemma NoFalseStartIn(t: seq<word>, off: nat, a: nat, b: nat)
    requires NeverFalseStart(t, off) && a <= b <= |t| && a % FRAME == 0
    ensures NoFalseStart(t[a..b], off) && NeverFalseStart(t[a..b], off)
  {
    forall i: nat | i + 1 < b - a && i % FRAME == 0 && off == 0
      ensures !(IsSeq(t[a..b][i]) && t[a..b][i + 1] == 0xad00)
    {
      PhaseShift(a, i);
      assert t[a..b][i] == t[a + i] && t[a..b][i + 1] == t[a + i + 1];
    }
  }

  /** From a lock apart, however the words are cut: no wrong frame is ever handed over, and once
      a window that does not read as mute has been checked, every later call hands over all
      frames at the true phase. */
  lemma {:induction false} Reacquires(l: Link, calls: seq<chunk>, p: nat)
    requires ValidLink(l) && l.lock.synced && Apart(l.lock.offset, p) && WellFormed(l.history + Concat(calls), p)
    requires NeverFalseStart(l.history + Concat(calls), l.lock.offset)
    ensures var t, f := l.history + Concat(calls), Run(l, calls).1;
            && FRAME * |f| + FRAME == |t| && Lost(l, calls) <= |f|
            && (forall i :: 0 <= i < Lost(l, calls) ==> f[i] == None)
            && (forall i :: Lost(l, calls) <= i < |f| ==> Delivers(f[i], t, p + FRAME * i))
    decreases |calls|
  {
    hide Call, WellFormed, Apart, NeverFalseStart, NoFalseStart, AllMute;
    if calls != [] {
      var words := calls[0];
      var t := l.history + Concat(calls);
      var s := l.history + words;
      Regroup(l.history, words, Concat(calls[1..]));
      DropOfSum(s, Concat(calls[1..]), |words|);
      SliceWellFormed(t, p, 0, |s|);
      SliceWellFormed(t, p, |words|, |t|);
      NoFalseStartIn(t, l.lock.offset, 0, |s|);
      NoFalseStartIn(t, l.lock.offset, |words|, |t|);
      ApartCall(l, words, p);
      var (next, _, frames) := Call(l, words, |words| / FRAME);
      if next.lock.synced {
        Reacquires(next, calls[1..], p);
      } else {
        EveryFrameArrives(next, calls[1..], p);
      }
      hide Delivers, Run, Lost;
      SpliceTiles(p, s, next.history + Concat(calls[1..]), t, frames, Run(next, calls[1..]).1);
    }
  }

  // ---------- A window to be given up ----------

  /** Out of step, or in step near the headers in every window behind the first. */
  predicate OnTrackBut(l: Link, p: nat) {
    ValidLink(l) && p < FRAME && (l.lock.synced ==> NearAt(l.history, l.lock.offset, p, 1))
  }

  lemma AimBehindFirst(l: Link, words: chunk, p: nat)
    requires OnTrackBut(l, p)
    ensures NearAt(l.history, Aim(l.lock, p), p, 1) && NearAt(l.history + words, Aim(l.lock, p), p, 1)
  {
  }

  /** A call that has to give up its first window delivers all its other frames. */
  lemma SkipCall(l: Link, words: chunk, p: nat)
    requires words != [] && WellFormed(l.history + words, p) && l.lock.skip && OnTrackBut(l, p)
    ensures var s := l.history + words;
            var (next, _, f) := Call(l, words, |words| / FRAME);
            && OnTrack(next, p)
            && next == Link(s[|words|..], Lock(true, Aim(l.lock, p), false))
            && FRAME * |f| == |words| && f[0] == None
            && forall j :: 1 <= j < |f| ==> Delivers(f[j], s, Aim(l.lock, p) + FRAME * j)
  {
    hide Search, Flags, Classify, NearAt;
    var s, k, off := l.history + words, |words| / FRAME, Aim(l.lock, p);
    AimBehindFirst(l, words, p);
    SearchFindsPhase(s, p, |words|);
    NearStaysNear(l, words, off, p, 1);
    FlagsGood(s, p, off, [1], k);
    SkipFirst(s, off, k);
    hide WellFormed;
  }

  lemma SkipFirst(s: seq<word>, off: nat, k: nat)
    requires off < FRAME && k > 0 && |s| == FRAME * k + FRAME
    ensures Flags(s, off, [], k, true) == Flags(s, off, [1], k, false)
  {
    assert [] + [1] == [1];
  }

  /** In step or not, a pending skip costs exactly one frame. */
  lemma SkipCostsOneFrame(l: Link, words: chunk, calls: seq<chunk>, p: nat)
    requires words != [] && WellFormed(l.history + words + Concat(calls), p) && l.lock.skip && OnTrackBut(l, p)
    ensures var t, f := l.history + words + Concat(calls), Run(l, [words] + calls).1;
            && FRAME * |f| + FRAME == |t| && f[0] == None
            && forall i :: 1 <= i < |f| ==> Delivers(f[i], t, Aim(l.lock, p) + FRAME * i)
  {
    hide Call, WellFormed, NearAt;
    var s := l.history + words;
    var t := s + Concat(calls);
    DropOfSum(s, Concat(calls), |words|);
    SliceWellFormed(t, p, 0, |s|);
    SliceWellFormed(t, p, |words|, |t|);
    SkipCall(l, words, p);
    var (next, _, frames) := Call(l, words, |words| / FRAME);
    EveryFrameArrives(next, calls, p);
    assert ([words] + calls)[1..] == calls;
    SpliceTiles(Aim(l.lock, p), s, next.history + Concat(calls), t, frames, Run(next, calls).1);
  }

  // ---------- A lock just behind headers that lie before the frame boundary ----------

  /** A lock at offset 0 of a stream with headers in the last place of each frame follows them
      one word late; but in the first window of a call the header's first word lies before the
      buffer, and the window is good only if the buffer begins with the rest of a header. */
  lemma BoundaryWindow(s: seq<word>)
    requires WellFormed(s, FRAME - 1) && |s| > FRAME && !EndsHeader(s)
    ensures Classify(s, 0, 0) == Verdict(if Mute(s, 0, 0) then 1 else 3, false)
  {
    HeaderIff(s, FRAME - 1, 0);
    HeaderIff(s, FRAME - 1, 1);
  }

  /** Otherwise the first window is given up, and the lock is kept if it reads as mute and
      found anew one word back if not. */
  lemma BoundaryCall(l: Link, words: chunk)
    requires ValidLink(l) && words != [] && WellFormed(l.history + words, FRAME - 1)
    requires l.lock == Lock(true, 0, false) && !EndsHeader(l.history)
    ensures var s := l.history + words;
            var (next, _, f) := Call(l, words, |words| / FRAME);
            && OnTrack(next, FRAME - 1)
            && next == Link(s[|words|..], Lock(Mute(s, 0, 0), 0, false))
            && FRAME * |f| == |words| && f[0] == None
            && forall j :: 1 <= j < |f| ==> Delivers(f[j], s, FRAME * j)
  {
    hide Search, Flags, Classify, NearAt, Mute;
    var s, k := l.history + words, |words| / FRAME;
    assert EndsHeader(s) == EndsHeader(l.history);
    BoundaryWindow(s);
    var v := Classify(s, 0, 0);
    FirstFlag(s, 0, k);
    BehindBoundary(l, words);
    FlagsGood(s, FRAME - 1, 0, [v.flag], k);
    var flags := Flags(s, 0, [], k, false).0;
    assert flags[0] == [v.flag][0];
    assert InStep(flags) == Mute(s, 0, 0);
    hide WellFormed;
  }

  lemma BehindBoundary(l: Link, words: chunk)
    requires ValidLink(l) && words != [] && WellFormed(l.history + words, FRAME - 1)
    ensures NearAt(l.history + words, 0, FRAME - 1, 1)
    ensures NearAt((l.history + words)[|words|..], 0, FRAME - 1, 0)
  {
    NearStaysNear(l, words, 0, FRAME - 1, 1);
  }

  /** So such a lock costs at most one frame: the first, unless the buffer begins with the rest
      of a header (and then EveryFrameArrives applies). */
  lemma BoundaryCostsOneFrame(l: Link, words: chunk, calls: seq<chunk>)
    requires ValidLink(l) && words != [] && WellFormed(l.history + words + Concat(calls), FRAME - 1)
    requires l.lock == Lock(true, 0, false) && !EndsHeader(l.history)
    ensures var t, f := l.history + words + Concat(calls), Run(l, [words] + calls).1;
            && FRAME * |f| + FRAME == |t| && f[0] == None
            && (forall i :: 1 <= i < |words| / FRAME ==> Delivers(f[i], t, FRAME * i))
            && (forall i :: |words| / FRAME <= i < |f| ==>
                  Delivers(f[i], t, FRAME * i + if Mute(t, 0, 0) then 0 else FRAME - 1))
  {
    hide Call, WellFormed, NearAt, EndsHeader;
    var s, k, p := l.history + words, |words| / FRAME, FRAME - 1;
    var t := s + Concat(calls);
    DropOfSum(s, Concat(calls), |words|);
    SliceWellFormed(t, p, 0, |s|);
    SliceWellFormed(t, p, |words|, |t|);
    BoundaryCall(l, words);
    var (next, _, frames) := Call(l, words, k);
    EveryFrameArrives(next, calls, p);
    assert ([words] + calls)[1..] == calls;
    var g, off := Run(next, calls).1, Aim(next.lock, p);
    assert Mute(t, 0, 0) == Mute(s, 0, 0);
    hide Run, Mute, Delivers;
    TwoPlaces(s, Concat(calls), |words|, off, frames, g);
  }

  /** Frames of one call followed by those of later ones, seen in the whole stream. */
  lemma TwoPlaces(s: seq<word>, rest: seq<word>, n: nat, off: nat, f: seq<outcome>, g: seq<outcome>)
    requires off < FRAME && n == FRAME * |f| && |s| == n + FRAME && |rest| == FRAME * |g|
    requires forall j :: 1 <= j < |f| ==> Delivers(f[j], s, FRAME * j)
    requires forall j :: 0 <= j < |g| ==> Delivers(g[j], (s + rest)[n..], off + FRAME * j)
    ensures forall i :: 1 <= i < |f| ==> Delivers((f + g)[i], s + rest, FRAME * i)
    ensures forall i :: |f| <= i < |f + g| ==> Delivers((f + g)[i], s + rest, FRAME * i + off)
  {
    forall i | 1 <= i < |f| ensures Delivers((f + g)[i], s + rest, FRAME * i) {
      WithinSum(s, rest, FRAME * i);
    }
    forall i | |f| <= i < |f + g| ensures Delivers((f + g)[i], s + rest, FRAME * i + off) {
      var at := off + FRAME * (i - |f|);
      SliceOfSlice(s + rest, n, at, at + FRAME);
    }
  }

  lemma WithinSum(a: seq<word>, b: seq<word>, at: nat)
    requires at + FRAME <= |a|
    ensures (a + b)[at..at + FRAME] == a[at..at + FRAME]
  {
  }

  /** The one case left. At offset 0 with headers elsewhere, a buffer that begins like the rest
      of a header passes for one, and by its tail a window is handed over that is no frame. */
  lemma FalseStart(l: Link, words: chunk, p: nat)
    requires ValidLink(l) && words != [] && WellFormed(l.history + words, p) && Apart(0, p)
    requires l.lock == Lock(true, 0, false) && EndsHeader(l.history)
    ensures var s := l.history + words;
            var f := Call(l, words, |words| / FRAME).2;
            f != [] && f[0] == if IsTail(s[FRAME - 2]) then Some(Upper(s[..FRAME])) else None
  {
    var s, k := l.history + words, |words| / FRAME;
    var v := Classify(s, 0, 0);
    assert v == Tailed(s[FRAME - 2]);
    FirstFlag(s, 0, k);
    ApartFlags(s, p, 0, [v.flag], k, v.skip);
    assert s[0..FRAME] == s[..FRAME];
    hide Search, Flags, Classify, WellFormed, Apart, Mute;
  }
}
