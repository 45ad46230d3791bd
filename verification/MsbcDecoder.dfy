/** The receiving side of the mSBC voice link: a sliding buffer of 16-bit words in which
    60-word frames are found by their H2 synchronisation header (Hands-Free Profile 1.6,
    section 5.7) and followed from call to call. */
module MsbcDecoder {
  import opened Bytes

  type word = x: int | 0 <= x < 65536

  const FRAME := 60
  const BUFFER := 600

  /** The byte each word carries, in its upper half. */
  function Upper(w: seq<word>): (b: seq<byte>)
    ensures |b| == |w|
  {
    seq(|w|, i requires 0 <= i < |w| => w[i] / 256)
  }

  predicate IsSync(w: word) { w == 0x0100 }

  predicate IsSeq(w: word) { w / 256 % 16 == 8 }

  /** Only the low half of the upper byte tells; what the lower byte holds does not matter. */
  lemma SequenceBits(hi: byte, lo: byte)
    ensures IsSeq(256 * (hi as int) + lo as int) <==> hi % 16 == 8
  {
    assert (256 * (hi as int) + lo as int) / 256 == hi as int;
  }

  /** A synchronisation header followed by the mSBC syncword. */
  predicate IsHeader(s: seq<word>, i: nat) {
    i + 2 < |s| && IsSync(s[i]) && IsSeq(s[i + 1]) && s[i + 2] == 0xad00
  }

  /** The search: the first header below n, or n. */
  function Search(s: seq<word>, i: nat, n: nat): (r: nat)
    requires i <= n
    ensures i <= r <= n && (r < n ==> IsHeader(s, r))
    ensures forall k :: i <= k < r ==> !IsHeader(s, k)
    decreases n - i
  {
    if i == n || IsHeader(s, i) then i else Search(s, i + 1, n)
  }

  predicate IsTail(w: word) { w == 0x0000 || w == 0x0100 }

  /** Flag of window j at offset off: 0 good, 1 bad, 3 bad and out of step. The header may
      also be one word early or late. skip asks for the next window to be given up. */
  datatype Verdict = Verdict(flag: nat, skip: bool)

  function Classify(s: seq<word>, off: nat, j: nat): Verdict
    requires off < FRAME && off + FRAME * j + FRAME < |s|
  {
    var at := off + FRAME * j;
    var headerm1 := if at == 0 then 0x0100 else s[at - 1];
    if IsSync(headerm1) && IsSeq(s[at]) && s[at + 1] == 0xad00 then Tailed(s[at + 58])
    else if IsSync(s[at]) && IsSeq(s[at + 1]) && s[at + 2] == 0xad00 then Tailed(s[at + 59])
    else if IsSync(s[at + 1]) && IsSeq(s[at + 2]) && s[at + 3] == 0xad00 then Tailed(s[at + 60])
    else if s[at] == 0 && s[at + 1] / 256 % 16 == 0 && s[at + 2] == 0 then Verdict(1, false)
    else Verdict(3, false)
  }

  function Tailed(tail: word): Verdict {
    if IsTail(tail) then Verdict(0, false) else Verdict(1, true)
  }

  /** The flags of all k windows, given those of the first few; and whether the window after
      them is to be given up. */
  function Flags(s: seq<word>, off: nat, known: seq<nat>, k: nat, skip: bool): (r: (seq<nat>, bool))
    requires off < FRAME && |known| <= k && |s| == FRAME * k + FRAME
    ensures |r.0| == k
    decreases k - |known|
  {
    if |known| == k then (known, skip)
    else
      var v := if skip then Verdict(1, false) else Classify(s, off, |known|);
      Flags(s, off, known + [v.flag], k, v.skip)
  }

  /** The static state between calls. */
  datatype Lock = Lock(synced: bool, offset: nat, skip: bool)

  datatype Link = Link(history: seq<word>, lock: Lock)

  predicate ValidLink(l: Link) { |l.history| == FRAME && l.lock.offset < FRAME }

  const COLD_START: Link := Link(seq(FRAME, i => 0), Lock(false, 0, false))

  function Unsynced(k: nat): (flags: seq<nat>)
    ensures |flags| == k && forall j :: 0 <= j < k ==> flags[j] == 1
  {
    seq(k, j => 1)
  }

  predicate InStep(flags: seq<nat>) {
    forall j :: 0 <= j < |flags| ==> flags[j] <= 1
  }

  /** Looks for a header while out of step, then flags every window if in step. */
  function Judged(l: Lock, s: seq<word>, k: nat): (r: (Lock, seq<nat>))
    requires l.offset < FRAME && |s| == FRAME * k + FRAME
    ensures |r.1| == k && r.0.offset < FRAME
  {
    var found := Search(s, 0, FRAME * k);
    if !l.synced && found == FRAME * k then (l, Unsynced(k))
    else
      var off := if l.synced then l.offset else found % FRAME;
      var (flags, skip) := Flags(s, off, [], k, l.skip);
      (Lock(InStep(flags), off, skip), flags)
  }

  function Window(s: seq<word>, off: nat, j: nat): (w: seq<word>)
    requires off + FRAME * j + FRAME <= |s|
    ensures |w| == FRAME
  {
    s[off + FRAME * j..off + FRAME * j + FRAME]
  }

  /** The frame handed to the codec for each window, None where packet loss concealment runs. */
  function Frames(s: seq<word>, off: nat, flags: seq<nat>): (f: seq<Option<seq<byte>>>)
    requires off < FRAME && |s| == FRAME * |flags| + FRAME
    ensures |f| == |flags|
  {
    seq(|flags|, j requires 0 <= j < |flags| =>
      if flags[j] == 0 then Some(Upper(Window(s, off, j))) else None)
  }

  /** decode_msbc_frame for k frames' worth of words: the new state, the flags and frames. */
  function Call(l: Link, words: seq<word>, k: nat): (Link, seq<nat>, seq<Option<seq<byte>>>)
    requires ValidLink(l) && |words| == FRAME * k
  {
    var s := l.history + words;
    var (lock, flags) := Judged(l.lock, s, k);
    (Link(s[|words|..], lock), flags, Frames(s, lock.offset, flags))
  }

  class Decoder {
    const all: array<word>
    var findFirstSync: bool
    var offset: nat
    var nextFrameFlag: bool

    ghost predicate Valid()
      reads this
    {
      all.Length == BUFFER && offset < FRAME
    }

    ghost function View(): Link
      requires Valid()
      reads this, all
    {
      Link(all[..FRAME], Current())
    }

    ghost function Current(): Lock
      reads this
    {
      Lock(findFirstSync, offset, nextFrameFlag)
    }

    constructor ()
      ensures Valid() && View() == COLD_START && fresh(all)
    {
      all := new word[BUFFER](_ => 0);
      findFirstSync, offset, nextFrameFlag := false, 0, false;
    }

    /** decode_msbc_frame: the words arrive behind the 60 kept from the call before. */
    method Decode(words: seq<word>, k: nat) returns (flags: seq<nat>, frames: seq<Option<seq<byte>>>)
      requires Valid() && |words| == FRAME * k && FRAME + |words| <= BUFFER
      modifies this, all
      ensures Valid()
      ensures (View(), flags, frames) == Call(old(View()), words, k)
    {
      hide Judged, Frames;
      var n := |words|;
      Receive(words);
      ghost var s := all[..FRAME + n];
      assert s == old(View()).history + words;
      flags := Judge(k, s);
      frames := Extract(flags, s);
      assert all[n..n + FRAME] == s[n..];
      ShiftDown(n);
    }

    method Receive(words: seq<word>)
      requires Valid() && FRAME + |words| <= BUFFER
      modifies all
      ensures all[..FRAME + |words|] == old(all[..FRAME]) + words
    {
      forall i | 0 <= i < |words| {
        all[i + FRAME] := words[i];
      }
    }

    /** Looks for a header while out of step, then checks every window if in step. */
    method Judge(k: nat, ghost s: seq<word>) returns (flags: seq<nat>)
      requires Valid() && FRAME + FRAME * k <= BUFFER && s == all[..FRAME + FRAME * k]
      modifies `findFirstSync, `offset, `nextFrameFlag
      ensures Valid() && |flags| == k
      ensures (Current(), flags) == Judged(old(Current()), s, k)
    {
      hide Classify, Search, Flags;
      var n := FRAME * k;
      flags := seq(k, j => 0);
      if !findFirstSync {
        var i := FindHeader(n, s);
        if i < n {
          findFirstSync := true;
          offset := i % FRAME;
        } else {
          flags := Unsynced(k);
        }
      }
      if findFirstSync {
        flags := CheckWindows(k, s);
        findFirstSync := OrFlags(flags);
      }
    }

    method FindHeader(n: nat, ghost s: seq<word>) returns (i: nat)
      requires Valid() && FRAME + n <= BUFFER && s == all[..FRAME + n]
      ensures i == Search(s, 0, n)
    {
      i := 0;
      while i < n
        invariant i <= n && Search(s, 0, n) == Search(s, i, n)
      {
        if all[i] == 0x0100 && all[i + 1] / 256 % 16 == 8 && all[i + 2] == 0xad00 {
          return;
        }
        i := i + 1;
      }
    }

    /** The check loop over the windows of one call. */
    method CheckWindows(k: nat, ghost s: seq<word>) returns (flags: seq<nat>)
      requires Valid() && FRAME + FRAME * k <= BUFFER && s == all[..FRAME + FRAME * k]
      modifies this`nextFrameFlag
      ensures (flags, nextFrameFlag) == Flags(s, offset, [], k, old(nextFrameFlag))
    {
      hide Classify;
      flags := [];
      var j := 0;
      while j < k
        invariant j <= k && |flags| == j
        invariant Flags(s, offset, flags, k, nextFrameFlag) == Flags(s, offset, [], k, old(nextFrameFlag))
      {
        if nextFrameFlag {
          nextFrameFlag := false;
          flags := flags + [1];
        } else {
          var v := Check(j, k, s);
          nextFrameFlag := v.skip;
          flags := flags + [v.flag];
        }
        j := j + 1;
      }
    }

    method Check(j: nat, k: nat, ghost s: seq<word>) returns (v: Verdict)
      requires Valid() && j < k && FRAME + FRAME * k <= BUFFER && s == all[..FRAME + FRAME * k]
      ensures v == Classify(s, offset, j)
    {
      var at := offset + j * FRAME;
      var headerm1 := 0x0100;
      if !(offset == 0 && j == 0) {
        headerm1 := all[at - 1];
      }
      var header0, header1, header2, header3 := all[at], all[at + 1], all[at + 2], all[at + 3];
      if IsSync(headerm1) && IsSeq(header0) && header1 == 0xad00 {
        v := Tailed(all[at + 58]);
      } else if IsSync(header0) && IsSeq(header1) && header2 == 0xad00 {
        v := Tailed(all[at + 59]);
      } else if IsSync(header1) && IsSeq(header2) && header3 == 0xad00 {
        v := Tailed(all[at + 60]);
      } else if header0 == 0 && header1 / 256 % 16 == 0 && header2 == 0 {
        v := Verdict(1, false);
      } else {
        v := Verdict(3, false);
      }
    }

    method OrFlags(flags: seq<nat>) returns (ok: bool)
      ensures ok == InStep(flags)
    {
      ok := true;
      for j := 0 to |flags|
        invariant ok == forall i :: 0 <= i < j ==> flags[i] <= 1
      {
        if flags[j] > 1 {
          ok := false;
        }
      }
    }

    method Extract(flags: seq<nat>, ghost s: seq<word>) returns (frames: seq<Option<seq<byte>>>)
      requires Valid() && FRAME + FRAME * |flags| <= BUFFER && s == all[..FRAME + FRAME * |flags|]
      ensures frames == Frames(s, offset, flags)
    {
      frames := [];
      for j := 0 to |flags|
        invariant frames == Frames(s, offset, flags)[..j]
      {
        var f := None;
        if flags[j] == 0 {
          var at := offset + j * FRAME;
          WithinTake(all[..], |s|, at, at + FRAME);
          assert all[at..at + FRAME] == all[..][at..at + FRAME];
          f := Some(Upper(all[at..at + FRAME]));
        }
        frames := frames + [f];
      }
    }

    /** The last 60 words of the buffer become the history. */
    method ShiftDown(n: nat)
      requires Valid() && n + FRAME <= BUFFER
      modifies all
      ensures all[..FRAME] == old(all[n..n + FRAME])
    {
      var i := 0;
      while i < FRAME
        invariant i <= FRAME
        invariant forall x :: 0 <= x < i ==> all[x] == old(all[x + n])
        invariant forall x :: i <= x < BUFFER ==> all[x] == old(all[x])
      {
        all[i] := all[i + n];
        i := i + 1;
      }
    }
  }
}
