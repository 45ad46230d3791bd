/** What the mSBC receiver does over whole runs of calls: its windows tile the word stream, and
    once a well-formed stream is in the buffer every frame of it is handed over exactly. */
module MsbcStream {
  import opened Bytes
  import opened MsbcDecoder

  /** The words of a call, always whole frames' worth. */
  type chunk = w: seq<word> | |w| % FRAME == 0

  type outcome = Option<seq<byte>>

  ghost predicate Delivers(f: outcome, t: seq<word>, at: nat)
    requires at + FRAME <= |t|
  {
    f == Some(Upper(t[at..at + FRAME]))
  }

  function Run(l: Link, calls: seq<chunk>): (r: (Link, seq<outcome>))
    requires ValidLink(l)
    ensures ValidLink(r.0)
    decreases |calls|
  {
    if calls == [] then (l, [])
    else
      var (next, _, frames) := Call(l, calls[0], |calls[0]| / FRAME);
      var (last, rest) := Run(next, calls[1..]);
      (last, frames + rest)
  }

  /** Every call but perhaps the last leaves the decoder in step. */
  predicate StaysInStep(l: Link, calls: seq<chunk>)
    requires ValidLink(l)
    decreases |calls|
  {
    && l.lock.synced
    && (|calls| <= 1 || StaysInStep(Call(l, calls[0], |calls[0]| / FRAME).0, calls[1..]))
  }

  /** In step, the windows of all calls tile the stream: frame i of a run is given up or is
      block i of the stream seen at the offset of the lock. */
  lemma {:induction false} WindowsTile(l: Link, calls: seq<chunk>)
    requires ValidLink(l) && StaysInStep(l, calls)
    ensures var t := l.history + Concat(calls);
            var f := Run(l, calls).1;
            && FRAME * |f| + FRAME == |t|
            && forall i :: 0 <= i < |f| ==> f[i] == None || Delivers(f[i], t, l.lock.offset + FRAME * i)
    decreases |calls|
  {
    hide Judged;
    if calls != [] {
      var words, k := calls[0], |calls[0]| / FRAME;
      var t := l.history + Concat(calls);
      var s := l.history + words;
      var (next, _, frames) := Call(l, words, k);
      StepInStep(l, words);
      assert t == s + Concat(calls[1..]) == s[..|words|] + (next.history + Concat(calls[1..]));
      if calls[1..] == [] {
        assert Run(next, []).1 == [];
      } else {
        WindowsTile(next, calls[1..]);
      }
      SpliceTiles(l.lock.offset, s, next.history + Concat(calls[1..]), t, frames, Run(next, calls[1..]).1);
    }
  }

  lemma StepInStep(l: Link, words: chunk)
    requires ValidLink(l) && l.lock.synced
    ensures var s := l.history + words;
            var (next, _, f) := Call(l, words, |words| / FRAME);
            && ValidLink(next) && next.history == s[|words|..] && next.lock.offset == l.lock.offset
            && FRAME * |f| == |words|
            && forall j :: 0 <= j < |f| ==> f[j] == None || Delivers(f[j], s, l.lock.offset + FRAME * j)
  {
  }

  /** Two adjoining tilings are a tiling of the whole. */
  lemma SpliceTiles(off: nat, s: seq<word>, later: seq<word>, t: seq<word>, f: seq<outcome>, g: seq<outcome>)
    requires off < FRAME && |s| == FRAME * |f| + FRAME && |later| == FRAME * |g| + FRAME
    requires s <= t && t[FRAME * |f|..] == later && FRAME * |f| <= |t|
    requires forall j :: 0 <= j < |f| ==> f[j] == None || Delivers(f[j], s, off + FRAME * j)
    requires forall j :: 0 <= j < |g| ==> g[j] == None || Delivers(g[j], later, off + FRAME * j)
    ensures |t| == FRAME * |f + g| + FRAME
    ensures forall i :: 0 <= i < |f + g| ==> (f + g)[i] == None || Delivers((f + g)[i], t, off + FRAME * i)
  {
    forall i | 0 <= i < |f + g|
      ensures (f + g)[i] == None || Delivers((f + g)[i], t, off + FRAME * i)
    {
      var at := off + FRAME * i;
      if i < |f| {
        assert s[at..at + FRAME] == t[at..at + FRAME];
      } else {
        var at' := off + FRAME * (i - |f|);
        SliceOfSlice(t, FRAME * |f|, at', at' + FRAME);
      }
    }
  }

  /** A stream of 60-word frames at phase p: headers there and nowhere else, padded tails. */
  ghost predicate WellFormed(t: seq<word>, p: nat) {
    && p < FRAME
    && (forall i: nat :: i + 2 < |t| ==> (IsHeader(t, i) <==> i % FRAME == p))
    && (forall i: nat :: i < |t| && (i + 1) % FRAME == p ==> IsTail(t[i]))
  }

  lemma SliceWellFormed(t: seq<word>, p: nat, a: nat, b: nat)
    requires WellFormed(t, p) && a <= b <= |t| && a % FRAME == 0
    ensures WellFormed(t[a..b], p)
  {
    forall i: nat | i + 2 < b - a ensures IsHeader(t[a..b], i) <==> i % FRAME == p {
      assert IsHeader(t[a..b], i) == IsHeader(t, a + i);
      PhaseShift(a, i);
    }
    forall i: nat | i < b - a && (i + 1) % FRAME == p ensures IsTail(t[a..b][i]) {
      PhaseShift(a, i + 1);
    }
  }

  lemma PhaseShift(a: nat, i: nat)
    requires a % FRAME == 0
    ensures (a + i) % FRAME == i % FRAME
  {
  }

  lemma SearchFindsPhase(s: seq<word>, p: nat, n: nat)
    requires WellFormed(s, p) && FRAME <= n && n + 2 < |s|
    ensures Search(s, 0, n) == p
  {
    assert IsHeader(s, p);
  }

  /** The rest of a header whose first word lies before s. */
  predicate EndsHeader(s: seq<word>) {
    |s| >= 2 && IsSeq(s[0]) && s[1] == 0xad00
  }

  /** Window j is at most one word off the headers, also across the frame boundary; at the very
      beginning the first word of the header is out of sight. */
  predicate NearAt(s: seq<word>, off: nat, p: nat, j: nat) {
    || off - 1 <= p <= off + 1
    || (off == FRAME - 1 && p == 0)
    || (off == 0 && p == FRAME - 1 && (j > 0 || EndsHeader(s)))
  }

  /** A window one word early, in place or one word late: good, and no window is given up. */
  lemma WindowGood(s: seq<word>, p: nat, off: nat, j: nat)
    requires WellFormed(s, p) && off < FRAME && NearAt(s, off, p, j)
    requires off + FRAME * j + FRAME < |s|
    requires FRAME * j + FRAME + FRAME <= |s|
    ensures Classify(s, off, j) == Verdict(0, false)
  {
    if off == 0 && p == FRAME - 1 {
      BeforeBoundary(s, j);
    } else {
      PhaseOf(p, j);
      var head := if off == FRAME - 1 && p == 0 then FRAME * j + FRAME else p + FRAME * j;
      HeaderIff(s, p, head);
      TailAt(s, p, head + 59);
      HeaderNear(s, off, j, head);
    }
  }

  lemma TailAt(s: seq<word>, p: nat, i: nat)
    requires WellFormed(s, p) && i < |s| && (i + 1) % FRAME == p
    ensures IsTail(s[i])
  {
  }

  lemma HeaderNear(s: seq<word>, off: nat, j: nat, head: nat)
    requires off < FRAME && off + FRAME * j + FRAME < |s| && FRAME * j + FRAME + FRAME <= |s|
    requires off + FRAME * j - 1 <= head <= off + FRAME * j + 1
    requires IsHeader(s, head) && head + 59 < |s| && IsTail(s[head + 59])
    ensures Classify(s, off, j) == Verdict(0, false)
  {
  }

  lemma BeforeBoundary(s: seq<word>, j: nat)
    requires WellFormed(s, FRAME - 1) && FRAME * j + FRAME < |s| && (j > 0 || EndsHeader(s))
    ensures Classify(s, 0, j) == Verdict(0, false)
  {
    if j > 0 {
      PhaseOf(FRAME - 1, j - 1);
      assert IsHeader(s, FRAME - 1 + FRAME * (j - 1));
    }
    PhaseOf(FRAME - 1, j);
    assert IsTail(s[FRAME * j + 58]);
  }

  lemma {:induction false} FlagsGood(s: seq<word>, p: nat, off: nat, known: seq<nat>, k: nat)
    requires WellFormed(s, p) && off < FRAME && NearAt(s, off, p, |known|)
    requires |s| == FRAME * k + FRAME && |known| <= k
    ensures var (flags, last) := Flags(s, off, known, k, false);
            !last && known <= flags && forall j :: |known| <= j < k ==> flags[j] == 0
    decreases k - |known|
  {
    if |known| < k {
      WindowGood(s, p, off, |known|);
      FlagsGood(s, p, off, known + [0], k);
    }
  }

  /** Where the windows of the next call lie: at the lock, or at the phase it will find. */
  function Aim(l: Lock, p: nat): nat {
    if l.synced then l.offset else p
  }

  /** Either out of step, or in step within one word of the phase; no window is to be skipped. */
  predicate OnTrack(l: Link, p: nat) {
    ValidLink(l) && !l.lock.skip && p < FRAME && (l.lock.synced ==> NearAt(l.history, l.lock.offset, p, 0))
  }

  /** What is near stays near, since the stream goes on. */
  lemma NearStaysNear(l: Link, words: chunk, off: nat, p: nat, j: nat)
    requires ValidLink(l) && WellFormed(l.history + words, p) && NearAt(l.history, off, p, j) && words != []
    ensures NearAt((l.history + words)[|words|..], off, p, 0)
  {
    var s := l.history + words;
    if p == FRAME - 1 {
      assert (|words| - 1) % FRAME == p;
      assert IsHeader(s, |words| - 1);
    }
  }

  lemma AimIsNear(l: Link, words: chunk, p: nat)
    requires OnTrack(l, p)
    ensures NearAt(l.history, Aim(l.lock, p), p, 0) && NearAt(l.history + words, Aim(l.lock, p), p, 0)
  {
  }

  lemma CallDelivers(l: Link, words: chunk, p: nat)
    requires OnTrack(l, p) && WellFormed(l.history + words, p)
    ensures var s := l.history + words;
            var (next, _, f) := Call(l, words, |words| / FRAME);
            && OnTrack(next, p)
            && next == Link(s[|words|..], if words == [] then l.lock else Lock(true, Aim(l.lock, p), false))
            && FRAME * |f| == |words|
            && forall j :: 0 <= j < |f| ==> Delivers(f[j], s, Aim(l.lock, p) + FRAME * j)
  {
    hide Search, Flags, Classify, NearAt;
    var s, k, off := l.history + words, |words| / FRAME, Aim(l.lock, p);
    AimIsNear(l, words, p);
    if words == [] {
      assert Search(s, 0, 0) == 0;
      assert s == l.history;
    } else {
      SearchFindsPhase(s, p, |words|);
      NearStaysNear(l, words, off, p, 0);
    }
    FlagsGood(s, p, off, [], k);
  }

  /** On a well-formed stream every frame is handed over exactly and the lock never drops,
      however the words are cut into calls. */
  lemma {:induction false} EveryFrameArrives(l: Link, calls: seq<chunk>, p: nat)
    requires OnTrack(l, p) && WellFormed(l.history + Concat(calls), p)
    ensures var t := l.history + Concat(calls);
            var (last, f) := Run(l, calls);
            && OnTrack(last, p) && (Concat(calls) != [] || l.lock.synced ==> last.lock.synced)
            && FRAME * |f| + FRAME == |t|
            && forall i :: 0 <= i < |f| ==> Delivers(f[i], t, Aim(l.lock, p) + FRAME * i)
    decreases |calls|
  {
    hide Call, WellFormed, NearAt;
    if calls != [] {
      var words := calls[0];
      var t := l.history + Concat(calls);
      var s := l.history + words;
      Regroup(l.history, words, Concat(calls[1..]));
      DropOfSum(s, Concat(calls[1..]), |words|);
      SliceWellFormed(t, p, 0, |s|);
      CallDelivers(l, words, p);
      var (next, _, frames) := Call(l, words, |words| / FRAME);
      var later := next.history + Concat(calls[1..]);
      SliceWellFormed(t, p, |words|, |t|);
      EveryFrameArrives(next, calls[1..], p);
      SpliceTiles(Aim(l.lock, p), s, later, t, frames, Run(next, calls[1..]).1);
    }
  }

  lemma HeaderIff(w: seq<word>, p: nat, j: nat)
    requires WellFormed(w, p) && j + 2 < |w|
    ensures IsHeader(w, j) <==> j % FRAME == p
  {
  }

  lemma ColdHeaders(w: seq<word>, p: nat, i: nat)
    requires WellFormed(w, p) && i + 2 < FRAME + |w|
    ensures IsHeader(COLD_START.history + w, i) <==> i >= FRAME && i % FRAME == p
  {
    var s := COLD_START.history + w;
    if i >= FRAME {
      var j: nat := i - FRAME;
      HeaderIff(w, p, j);
      PhaseShift(FRAME, j);
      hide WellFormed;
      assert s[i] == w[j] && s[i + 1] == w[j + 1] && s[i + 2] == w[j + 2];
    } else {
      assert s[i] == 0;
    }
  }

  lemma ColdSearch(w: seq<word>, p: nat, n: nat)
    requires WellFormed(w, p) && n == |w| && n % FRAME == 0
    ensures Search(COLD_START.history + w, 0, n) == if n > FRAME then FRAME + p else n
  {
    var s := COLD_START.history + w;
    var r := Search(s, 0, n);
    if r < n {
      ColdHeaders(w, p, r);
    }
    if n > FRAME {
      ColdHeaders(w, p, FRAME + p);
    }
  }

  /** A later window of the first call: real words, whatever the start of the buffer held. */
  lemma ColdWindow(w: seq<word>, p: nat, j: nat)
    requires WellFormed(w, p) && 1 <= j && FRAME * j + FRAME <= |w|
    ensures Classify(COLD_START.history + w, p, j) == Verdict(0, false)
  {
    var s := COLD_START.history + w;
    var head := p + FRAME * j;
    PhaseOf(p, j);
    ColdHeaders(w, p, head);
    assert s[head + 59] == w[head - FRAME + 59];
  }

  lemma {:induction false} ColdFlags(w: seq<word>, p: nat, known: seq<nat>, k: nat)
    requires WellFormed(w, p) && |w| == FRAME * k && 1 <= |known| <= k
    requires forall j :: 1 <= j < |known| ==> known[j] == 0
    ensures var r := Flags(COLD_START.history + w, p, known, k, false);
            !r.1 && r.0[0] == known[0] && forall j :: 1 <= j < k ==> r.0[j] == 0
    decreases k - |known|
  {
    if |known| < k {
      ColdWindow(w, p, |known|);
      ColdFlags(w, p, known + [0], k);
    }
  }

  /** The window of the first call that straddles the zeroed history and the first words. */
  predicate Muted(w: seq<word>, p: nat)
    requires p < FRAME <= |w|
  {
    p < 58 || (w[p - 58] == 0 && (p == 58 || w[0] / 256 % 16 == 0))
  }

  lemma ColdFirstWindow(w: seq<word>, p: nat)
    requires WellFormed(w, p) && |w| >= FRAME + FRAME
    ensures Classify(COLD_START.history + w, p, 0) == Verdict(if Muted(w, p) then 1 else 3, false)
  {
    var s := COLD_START.history + w;
    assert s[p] == 0;
    if p == 59 {
      ColdHeaders(w, p, 60);
    }
  }

  /** The first call after power-up locks exactly when it brings two frames' worth of words and
      the straddling window reads as mute; otherwise a later call locks. Either way the decoder
      is on track from then on. */
  lemma FirstCall(w: chunk, p: nat)
    requires WellFormed(w, p) && w != []
    ensures var next := Call(COLD_START, w, |w| / FRAME).0;
            && next.history == w[|w| - FRAME..] && OnTrack(next, p)
            && (next.lock.synced ==> next.lock.offset == p)
            && (next.lock.synced <==> |w| > FRAME && Muted(w, p))
  {
    assert p < FRAME;
    hide Judged, WellFormed;
    var s := COLD_START.history + w;
    assert s[|w|..] == w[|w| - FRAME..];
    FirstJudged(w, p, |w| / FRAME);
  }

  lemma FirstJudged(w: seq<word>, p: nat, k: nat)
    requires WellFormed(w, p) && w != [] && |w| == FRAME * k
    ensures var next := Judged(COLD_START.lock, COLD_START.history + w, k).0;
            && !next.skip && (next.synced ==> next.offset == p)
            && (next.synced <==> |w| > FRAME && Muted(w, p))
  {
    assert p < FRAME;
    hide Search, Flags, Classify, WellFormed, Muted;
    var s := COLD_START.history + w;
    ColdSearch(w, p, |w|);
    if k > 1 {
      ColdFirstWindow(w, p);
      var v := Classify(s, p, 0);
      ColdFlags(w, p, [v.flag], k);
      FirstFlag(s, p, k);
      PhaseOf(p, 1);
      var flags := Flags(s, p, [], k, false).0;
      assert flags[0] == v.flag;
      assert InStep(flags) <==> Muted(w, p);
    }
  }

  lemma PhaseOf(p: nat, j: nat)
    requires p < FRAME
    ensures (p + FRAME * j) % FRAME == p && (p + FRAME * j + FRAME) % FRAME == p
  {
  }

  lemma FirstFlag(s: seq<word>, off: nat, k: nat)
    requires off < FRAME && k > 0 && |s| == FRAME * k + FRAME
    ensures var v := Classify(s, off, 0); Flags(s, off, [], k, false) == Flags(s, off, [v.flag], k, v.skip)
  {
    hide Classify;
    assert [] + [Classify(s, off, 0).flag] == [Classify(s, off, 0).flag];
  }

  /** From power-up: after the first words, every call delivers every frame of the stream. */
  lemma FromColdStart(w: chunk, calls: seq<chunk>, p: nat)
    requires w != [] && WellFormed(w + Concat(calls), p)
    ensures var t := w + Concat(calls);
            var next := Call(COLD_START, w, |w| / FRAME).0;
            ValidLink(next) &&
            var f := Run(next, calls).1;
            && FRAME * |f| + |w| == |t|
            && forall i :: 0 <= i < |f| ==> Delivers(f[i], t, |w| - FRAME + p + FRAME * i)
  {
    hide Call, WellFormed, Run;
    var t := w + Concat(calls);
    DropOfSum(w, Concat(calls), |w| - FRAME);
    SliceWellFormed(t, p, 0, |w|);
    FirstCall(w, p);
    var next := Call(COLD_START, w, |w| / FRAME).0;
    var u := next.history + Concat(calls);
    SliceWellFormed(t, p, |w| - FRAME, |t|);
    EveryFrameArrives(next, calls, p);
    var f := Run(next, calls).1;
    forall i | 0 <= i < |f| ensures Delivers(f[i], t, |w| - FRAME + p + FRAME * i) {
      var at := p + FRAME * i;
      SliceOfSlice(t, |w| - FRAME, at, at + FRAME);
    }
  }
}
