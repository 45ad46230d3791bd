/** What bad frame tails cost the mSBC receiver: a window whose tail is wrong is given up, and
    so is the one behind it, but the lock is never lost by a tail. */
module MsbcTails {
  import opened Bytes
  import opened MsbcDecoder
  import opened MsbcStream

  /** Headers at phase p and nowhere else; nothing is said of the tails. */
  ghost predicate HeadersRight(t: seq<word>, p: nat) {
    p < FRAME && forall i: nat :: i + 2 < |t| ==> (IsHeader(t, i) <==> i % FRAME == p)
  }

  /** Which of n frames have a last word that is neither silence nor the start of a header. */
  function BadTails(t: seq<word>, p: nat, n: nat): (bad: seq<bool>)
    requires p < FRAME && |t| >= FRAME * n + FRAME
    ensures |bad| == n
  {
    seq(n, i requires 0 <= i < n => t[p + FRAME * i + 59] != 0x0000 && t[p + FRAME * i + 59] != 0x0100)
  }

  /** The windows given up: those with a bad tail, and those that follow one that was checked. */
  function Lost(bad: seq<bool>, skip: bool): (lost: seq<bool>)
    ensures |lost| == |bad|
  {
    if bad == [] then [] else [skip || bad[0]] + Lost(bad[1..], !skip && bad[0])
  }

  /** Whether the window after them is to be given up as well. */
  function Pending(bad: seq<bool>, skip: bool): bool {
    if bad == [] then skip else Pending(bad[1..], !skip && bad[0])
  }

  lemma {:induction false} LostAppend(a: seq<bool>, b: seq<bool>, skip: bool)
    ensures Lost(a + b, skip) == Lost(a, skip) + Lost(b, Pending(a, skip))
    ensures Pending(a + b, skip) == Pending(b, Pending(a, skip))
    decreases |a|
  {
    if a == [] {
      assert a + b == b;
    } else {
      DropOfSum(a, b, 1);
      LostAppend(a[1..], b, !skip && a[0]);
    }
  }

  function BadsBefore(bad: seq<bool>, i: nat): nat
    requires i <= |bad|
  {
    if i == 0 || !bad[i - 1] then 0 else 1 + BadsBefore(bad, i - 1)
  }

  lemma {:induction false} PendingIff(bad: seq<bool>, i: nat)
    requires i <= |bad|
    ensures Pending(bad[..i], false) <==> BadsBefore(bad, i) % 2 == 1
  {
    if i > 0 {
      PendingIff(bad, i - 1);
      assert bad[..i] == bad[..i - 1] + [bad[i - 1]];
      LostAppend(bad[..i - 1], [bad[i - 1]], false);
      assert [bad[i - 1]][1..] == [];
    }
  }

  /** In closed form: a window is given up if its own tail is bad, or if an odd number of bad
      ones come right before it. */
  lemma LostIff(bad: seq<bool>, i: nat)
    requires i < |bad|
    ensures Lost(bad, false)[i] <==> bad[i] || BadsBefore(bad, i) % 2 == 1
  {
    PendingIff(bad, i);
    assert bad == bad[..i] + bad[i..];
    LostAppend(bad[..i], bad[i..], false);
  }

  /** A window at most one word off its frame is judged by the tail of that frame. */
  lemma WindowByTail(s: seq<word>, p: nat, off: nat, j: nat)
    requires HeadersRight(s, p) && off < FRAME && off - 1 <= p <= off + 1
    requires FRAME * j + FRAME + FRAME <= |s|
    ensures Classify(s, off, j) == if BadTails(s, p, j + 1)[j] then Verdict(1, true) else Verdict(0, false)
  {
    var head := p + FRAME * j;
    PhaseOf(p, j);
    OneHeader(s, p, head);
    hide HeadersRight;
  }

  lemma OneHeader(s: seq<word>, p: nat, head: nat)
    requires HeadersRight(s, p) && head % FRAME == p && head + 2 < |s|
    ensures IsHeader(s, head)
  {
  }

  function Marks(lost: seq<bool>): (flags: seq<nat>)
    ensures |flags| == |lost| && InStep(flags)
  {
    seq(|lost|, i requires 0 <= i < |lost| => if lost[i] then 1 else 0)
  }

  lemma BadTailsIn(s: seq<word>, p: nat, j: nat, k: nat)
    requires p < FRAME && j < k && |s| >= FRAME * k + FRAME
    ensures BadTails(s, p, k)[j..][0] == BadTails(s, p, j + 1)[j]
    ensures BadTails(s, p, k)[j..][1..] == BadTails(s, p, k)[j + 1..]
  {
  }

  lemma {:induction false} FlagsByTails(s: seq<word>, p: nat, off: nat, known: seq<nat>, k: nat, skip: bool)
    requires HeadersRight(s, p) && p < FRAME && off < FRAME && off - 1 <= p <= off + 1
    requires |s| == FRAME * k + FRAME && |known| <= k
    ensures var bad := BadTails(s, p, k)[|known|..];
            Flags(s, off, known, k, skip) == (known + Marks(Lost(bad, skip)), Pending(bad, skip))
    decreases k - |known|
  {
    hide HeadersRight, Classify, BadTails;
    var j := |known|;
    var bad := BadTails(s, p, k)[j..];
    if j == k {
      assert bad == [];
      assert known + Marks([]) == known;
    } else {
      WindowByTail(s, p, off, j);
      BadTailsIn(s, p, j, k);
      var v := if skip then Verdict(1, false) else Classify(s, off, j);
      FlagsByTails(s, p, off, known + [v.flag], k, v.skip);
      assert Marks(Lost(bad, skip)) == [v.flag] + Marks(Lost(bad[1..], v.skip));
      Regroup(known, [v.flag], Marks(Lost(bad[1..], v.skip)));
    }
  }

  lemma NothingLost(s: seq<word>, p: nat, skip: bool)
    requires p < FRAME && |s| >= FRAME
    ensures Lost(BadTails(s, p, 0), skip) == [] && Pending(BadTails(s, p, 0), skip) == skip
  {
  }

  /** Which frames of a run are not handed over. */
  function Missing(f: seq<outcome>): (m: seq<bool>)
    ensures |m| == |f|
  {
    seq(|f|, i requires 0 <= i < |f| => f[i] == None)
  }

  /** Out of step, or in step at most one word off. */
  predicate CloseTo(l: Link, p: nat) {
    ValidLink(l) && p < FRAME && (l.lock.synced ==> l.lock.offset - 1 <= p <= l.lock.offset + 1)
  }

  /** What a call with k frames' worth of words makes of the tails. */
  lemma CallByTails(l: Link, words: chunk, p: nat)
    requires CloseTo(l, p) && HeadersRight(l.history + words, p)
    ensures var s, k, off := l.history + words, |words| / FRAME, Aim(l.lock, p);
            var (next, _, f) := Call(l, words, k);
            var bad := BadTails(s, p, k);
            && next == Link(s[|words|..], if words == [] then l.lock else Lock(true, off, Pending(bad, l.lock.skip)))
            && |f| == k && Missing(f) == Lost(bad, l.lock.skip)
            && forall j :: 0 <= j < k ==> f[j] == None || Delivers(f[j], s, off + FRAME * j)
  {
    var s, k := l.history + words, |words| / FRAME;
    assert |words| == FRAME * k;
    JudgedByTails(l.lock, s, p, k);
    FramesByMarks(s, Aim(l.lock, p), Lost(BadTails(s, p, k), l.lock.skip));
    if words == [] {
      assert s == l.history && s[0..] == s;
      NothingLost(s, p, l.lock.skip);
    }
    hide Judged, Frames, Marks, Missing, Delivers, Lost, Pending, BadTails, HeadersRight;
  }

  lemma JudgedByTails(lock: Lock, s: seq<word>, p: nat, k: nat)
    requires lock.offset < FRAME && HeadersRight(s, p) && |s| == FRAME * k + FRAME
    requires lock.synced ==> lock.offset - 1 <= p <= lock.offset + 1
    ensures var bad, off := BadTails(s, p, k), Aim(lock, p);
            var (next, flags) := Judged(lock, s, k);
            && flags == Marks(Lost(bad, lock.skip))
            && next == (if k == 0 then lock else Lock(true, off, Pending(bad, lock.skip)))
            && (k > 0 || lock.synced ==> next.offset == off)
  {
    var bad, off := BadTails(s, p, k), Aim(lock, p);
    assert p < FRAME;
    hide Search, Flags, Classify, HeadersRight, Lost, Pending, BadTails;
    if k == 0 {
      assert Search(s, 0, 0) == 0;
      NothingLost(s, p, lock.skip);
    } else {
      SearchMeetsPhase(s, p, FRAME * k);
    }
    FlagsByTails(s, p, off, [], k, lock.skip);
    assert bad[0..] == bad && [] + Marks(Lost(bad, lock.skip)) == Marks(Lost(bad, lock.skip));
  }

  lemma FramesByMarks(s: seq<word>, off: nat, lost: seq<bool>)
    requires off < FRAME && |s| == FRAME * |lost| + FRAME
    ensures var f := Frames(s, off, Marks(lost));
            Missing(f) == lost && forall j :: 0 <= j < |f| ==> f[j] == None || Delivers(f[j], s, off + FRAME * j)
  {
  }

  lemma SearchMeetsPhase(s: seq<word>, p: nat, n: nat)
    requires HeadersRight(s, p) && FRAME <= n && n + 2 < |s|
    ensures Search(s, 0, n) == p
  {
    assert IsHeader(s, p);
  }

  lemma SliceKeepsHeaders(t: seq<word>, p: nat, a: nat, b: nat)
    requires HeadersRight(t, p) && a <= b <= |t| && a % FRAME == 0
    ensures HeadersRight(t[a..b], p)
  {
    forall i: nat | i + 2 < b - a ensures IsHeader(t[a..b], i) <==> i % FRAME == p {
      assert IsHeader(t[a..b], i) == IsHeader(t, a + i);
      PhaseShift(a, i);
    }
  }

  lemma BadTailsSplit(s: seq<word>, later: seq<word>, t: seq<word>, p: nat, k: nat, m: nat)
    requires p < FRAME && |s| == FRAME * k + FRAME && |later| == FRAME * m + FRAME && |t| == FRAME * (k + m) + FRAME
    requires s <= t && t[FRAME * k..] == later
    ensures BadTails(t, p, k + m) == BadTails(s, p, k) + BadTails(later, p, m)
  {
    forall i | 0 <= i < m ensures later[p + FRAME * i + 59] == t[p + FRAME * (k + i) + 59] {
    }
  }

  /** The price of bad tails over whole runs. With the headers in place, whatever the tails and
      however the words are cut into calls: exactly the windows that Lost tells are given up,
      every other frame is delivered, and the lock is kept. */
  lemma {:induction false} TailsDecide(l: Link, calls: seq<chunk>, p: nat)
    requires CloseTo(l, p) && HeadersRight(l.history + Concat(calls), p)
    ensures var t := l.history + Concat(calls);
            var (last, f) := Run(l, calls);
            && FRAME * |f| + FRAME == |t| && Missing(f) == Lost(BadTails(t, p, |f|), l.lock.skip)
            && (forall i :: 0 <= i < |f| ==> f[i] == None || Delivers(f[i], t, Aim(l.lock, p) + FRAME * i))
            && last.lock ==
                 if f == [] then l.lock
                 else Lock(true, Aim(l.lock, p), Pending(BadTails(t, p, |f|), l.lock.skip))
    decreases |calls|
  {
    hide Call, HeadersRight, Lost, Pending, BadTails;
    var t := l.history + Concat(calls);
    if calls == [] {
      assert Run(l, calls).1 == [] && t == l.history;
      NothingLost(t, p, l.lock.skip);
    } else {
      var words, k := calls[0], |calls[0]| / FRAME;
      var s := l.history + words;
      Regroup(l.history, words, Concat(calls[1..]));
      DropOfSum(s, Concat(calls[1..]), |words|);
      SliceKeepsHeaders(t, p, 0, |s|);
      SliceKeepsHeaders(t, p, |words|, |t|);
      CallByTails(l, words, p);
      var (next, _, frames) := Call(l, words, k);
      var later := next.history + Concat(calls[1..]);
      TailsDecide(next, calls[1..], p);
      var rest := Run(next, calls[1..]).1;
      if frames == [] { NothingLost(s, p, l.lock.skip); }
      if rest == [] { NothingLost(later, p, next.lock.skip); }
      SpliceTails(l.lock, s, later, t, p, frames, rest);
      SpliceTiles(Aim(l.lock, p), s, later, t, frames, rest);
    }
  }

  lemma SpliceTails(lock: Lock, s: seq<word>, later: seq<word>, t: seq<word>, p: nat, f: seq<outcome>, g: seq<outcome>)
    requires p < FRAME && |s| == FRAME * |f| + FRAME && |later| == FRAME * |g| + FRAME && s <= t
    requires |t| == FRAME * (|f| + |g|) + FRAME && t[FRAME * |f|..] == later
    requires Missing(f) == Lost(BadTails(s, p, |f|), lock.skip)
    requires Missing(g) == Lost(BadTails(later, p, |g|), Pending(BadTails(s, p, |f|), lock.skip))
    ensures Missing(f + g) == Lost(BadTails(t, p, |f + g|), lock.skip)
    ensures Pending(BadTails(t, p, |f + g|), lock.skip) ==
            Pending(BadTails(later, p, |g|), Pending(BadTails(s, p, |f|), lock.skip))
  {
    BadTailsSplit(s, later, t, p, |f|, |g|);
    LostAppend(BadTails(s, p, |f|), BadTails(later, p, |g|), lock.skip);
    assert Missing(f + g) == Missing(f) + Missing(g);
  }

  /** One bad tail, that of frame b, costs exactly that frame and the next one, across calls
      too, and never the lock. */
  lemma OneBadTail(l: Link, calls: seq<chunk>, p: nat, b: nat)
    requires CloseTo(l, p) && !l.lock.skip && HeadersRight(l.history + Concat(calls), p)
    requires var t := l.history + Concat(calls);
             FRAME * b + FRAME + FRAME <= |t| &&
             forall i: nat :: FRAME * i + FRAME + FRAME <= |t| ==>
               (t[p + FRAME * i + 59] in {0x0000, 0x0100} <==> i != b)
    ensures var t := l.history + Concat(calls);
            var (last, f) := Run(l, calls);
            && FRAME * |f| + FRAME == |t| && b < |f|
            && last.lock == Lock(true, Aim(l.lock, p), b + 1 == |f|)
            && forall i :: 0 <= i < |f| ==>
                 if i == b || i == b + 1 then f[i] == None
                 else Delivers(f[i], t, Aim(l.lock, p) + FRAME * i)
  {
    var t := l.history + Concat(calls);
    TailsDecide(l, calls, p);
    var f := Run(l, calls).1;
    OneIsBad(t, p, |f|, b);
    MissingTwo(f, BadTails(t, p, |f|), b);
    hide Run, HeadersRight, BadTails, Lost, Missing;
  }

  lemma OneIsBad(t: seq<word>, p: nat, n: nat, b: nat)
    requires p < FRAME && |t| == FRAME * n + FRAME && b < n
    requires forall i: nat :: FRAME * i + FRAME + FRAME <= |t| ==>
               (t[p + FRAME * i + 59] in {0x0000, 0x0100} <==> i != b)
    ensures forall i :: 0 <= i < n ==> (BadTails(t, p, n)[i] <==> i == b)
  {
    forall i | 0 <= i < n ensures BadTails(t, p, n)[i] <==> i == b {
      assert t[p + FRAME * i + 59] in {0x0000, 0x0100} <==> i != b;
    }
  }

  lemma MissingTwo(f: seq<outcome>, bad: seq<bool>, b: nat)
    requires |f| == |bad| && b < |bad| && Missing(f) == Lost(bad, false)
    requires forall i :: 0 <= i < |bad| ==> (bad[i] <==> i == b)
    ensures forall i :: 0 <= i < |f| ==> (f[i] == None <==> i == b || i == b + 1)
    ensures Pending(bad, false) <==> b + 1 == |bad|
  {
    hide Lost, Pending;
    OnlyOne(bad, b);
    forall i | 0 <= i < |f| ensures f[i] == None <==> i == b || i == b + 1 {
      LostIff(bad, i);
      assert Missing(f)[i] == Lost(bad, false)[i];
    }
  }

  lemma OnlyOne(bad: seq<bool>, b: nat)
    requires b < |bad| && forall i :: 0 <= i < |bad| ==> (bad[i] <==> i == b)
    ensures forall i :: 0 <= i <= |bad| ==> BadsBefore(bad, i) == if i == b + 1 then 1 else 0
    ensures Pending(bad, false) <==> b + 1 == |bad|
  {
    PendingIff(bad, |bad|);
    assert bad[..|bad|] == bad;
  }
}
