/** The factory test pattern generator: a buffer of bytes played over and over, across calls
    of any length, from a saved position. */
module PcmPattern {
  import opened Bytes

  predicate IsEven(n: nat) { n % 2 == 0 }

  predicate AllEven(lens: seq<nat>) {
    forall i :: 0 <= i < |lens| ==> IsEven(lens[i])
  }

  /** A saved position equal to the length means the same as zero. */
  function Norm(pos: nat, size: nat): nat { if pos == size then 0 else pos }

  /** The position n bytes on. */
  function Advance(pos: nat, n: nat, size: nat): (p: nat)
    requires 0 < size && pos <= size
    ensures p < size
    decreases n
  {
    if n == 0 then Norm(pos, size) else Advance(Norm(pos, size) + 1, n - 1, size)
  }

  /** n bytes of the endless repetition of the pattern, from a position. */
  function Repeat(pattern: seq<byte>, pos: nat, n: nat): (s: seq<byte>)
    requires pattern != [] && pos <= |pattern|
    ensures |s| == n
    decreases n
  {
    if n == 0 then []
    else
      var p := Norm(pos, |pattern|);
      [pattern[p]] + Repeat(pattern, p + 1, n - 1)
  }

  lemma {:induction false} RepeatSplit(pattern: seq<byte>, pos: nat, n: nat, m: nat)
    requires pattern != [] && pos <= |pattern|
    ensures Repeat(pattern, pos, n + m) == Repeat(pattern, pos, n) + Repeat(pattern, Advance(pos, n, |pattern|), m)
    ensures Advance(pos, n + m, |pattern|) == Advance(Advance(pos, n, |pattern|), m, |pattern|)
    decreases n
  {
    if n > 0 {
      var p := Norm(pos, |pattern|);
      RepeatSplit(pattern, p + 1, n - 1, m);
      assert n + m - 1 == n - 1 + m;
      Regroup([pattern[p]], Repeat(pattern, p + 1, n - 1), Repeat(pattern, Advance(pos, n, |pattern|), m));
    }
  }

  /** Up to the end of the pattern it is a plain piece of it. */
  lemma {:induction false} RepeatWithin(pattern: seq<byte>, pos: nat, n: nat)
    requires pattern != [] && pos + n <= |pattern|
    ensures Repeat(pattern, pos, n) == pattern[pos..pos + n]
    ensures Advance(pos, n, |pattern|) == Norm(pos + n, |pattern|)
    decreases n
  {
    if n > 0 {
      RepeatWithin(pattern, pos + 1, n - 1);
    }
  }

  lemma {:induction false} RepeatWraps(pattern: seq<byte>, pos: nat, m: nat)
    requires pattern != [] && pos <= |pattern|
    ensures Repeat(pattern, pos, |pattern| - pos + m) == pattern[pos..] + Repeat(pattern, 0, m)
    ensures Advance(pos, |pattern| - pos + m, |pattern|) == Advance(0, m, |pattern|)
  {
    var n := |pattern| - pos;
    RepeatSplit(pattern, pos, n, m);
    RepeatWithin(pattern, pos, n);
    assert Advance(pos, n, |pattern|) == 0;
    assert pattern[pos..pos + n] == pattern[pos..];
  }

  lemma {:induction false} RepeatAt(pattern: seq<byte>, pos: nat, n: nat, k: nat)
    requires pattern != [] && pos <= |pattern| && k < n
    ensures Repeat(pattern, pos, n)[k] == pattern[Advance(pos, k, |pattern|)]
    decreases n
  {
    if k > 0 {
      RepeatAt(pattern, Norm(pos, |pattern|) + 1, n - 1, k - 1);
    }
  }

  function Reduce(x: nat, size: nat): nat
    requires 0 < size
  {
    if x < size then x else Reduce(x - size, size)
  }

  lemma {:induction false} ReduceIsModular(x: nat, size: nat)
    requires 0 < size
    ensures Reduce(x, size) == x % size
    decreases x
  {
    if x >= size {
      ReduceIsModular(x - size, size);
      WrapOnce(x, size);
    }
  }

  lemma {:induction false} AdvanceReduces(pos: nat, k: nat, size: nat)
    requires 0 < size && pos <= size
    ensures Advance(pos, k, size) == Reduce(pos + k, size)
    decreases k
  {
    if k > 0 {
      AdvanceReduces(Norm(pos, size) + 1, k - 1, size);
    }
  }

  /** Byte k of the repetition from the start is byte k modulo the length. */
  lemma RepeatIsModular(pattern: seq<byte>, n: nat, k: nat)
    requires pattern != [] && k < n
    ensures Repeat(pattern, 0, n)[k] == pattern[k % |pattern|]
  {
    hide *;
    RepeatAt(pattern, 0, n, k);
    AdvanceReduces(0, k, |pattern|);
    ReduceIsModular(k, |pattern|);
    assert Advance(0, k, |pattern|) == k % |pattern|;
  }

  /** The pattern is an array of 16-bit samples indexed by half the position: from an odd
      position the copy starts one byte early. */
  function Piece(pattern: seq<byte>, pos: nat, n: nat): (s: seq<byte>)
    requires pos + n <= |pattern|
    ensures |s| == n
  {
    pattern[pos / 2 * 2..pos / 2 * 2 + n]
  }

  /** What one call writes. */
  function Written(pattern: seq<byte>, pos: nat, len: nat): (s: seq<byte>)
    requires pattern != [] && pos <= |pattern|
    ensures |s| == len
  {
    if len <= |pattern| - pos then Piece(pattern, pos, len)
    else Piece(pattern, pos, |pattern| - pos) + Repeat(pattern, 0, len - (|pattern| - pos))
  }

  /** A call continues the repetition exactly when it does not read from an odd position
      (told apart where the bytes on either side of the position differ). */
  lemma ContinuesIffEven(pattern: seq<byte>, pos: nat, len: nat)
    requires pattern != [] && pos <= |pattern|
    requires 0 < pos < |pattern| ==> pattern[pos - 1] != pattern[pos]
    ensures Written(pattern, pos, len) == Repeat(pattern, pos, len) <==> IsEven(pos) || pos == |pattern| || len == 0
  {
    hide *;
    if IsEven(pos) {
      EvenContinues(pattern, pos, len);
    } else if pos < |pattern| && len > 0 {
      OddStart(pattern, pos, len);
      assert Written(pattern, pos, len)[0] != Repeat(pattern, pos, len)[0];
    } else {
      FromTheEnd(pattern, pos, len);
    }
  }

  lemma OddStart(pattern: seq<byte>, pos: nat, len: nat)
    requires pos < |pattern| && !IsEven(pos) && len > 0
    ensures pos > 0 && Written(pattern, pos, len)[0] == pattern[pos - 1]
    ensures Repeat(pattern, pos, len)[0] == pattern[pos]
  {
    HalfDouble(pos);
  }

  lemma FromTheEnd(pattern: seq<byte>, pos: nat, len: nat)
    requires pattern != [] && pos <= |pattern| && (pos == |pattern| || len == 0)
    ensures Written(pattern, pos, len) == Repeat(pattern, pos, len)
  {
    if len > 0 {
      RepeatWraps(pattern, pos, len);
      hide Repeat;
      assert Piece(pattern, pos, 0) == [] == pattern[pos..];
    }
  }

  lemma HalfDouble(pos: nat)
    ensures pos / 2 * 2 == pos - pos % 2
  {
  }

  lemma PieceEven(pattern: seq<byte>, pos: nat, n: nat)
    requires pos + n <= |pattern| && IsEven(pos)
    ensures Piece(pattern, pos, n) == pattern[pos..pos + n]
  {
    HalfDouble(pos);
  }

  lemma EvenContinues(pattern: seq<byte>, pos: nat, len: nat)
    requires pattern != [] && pos <= |pattern| && IsEven(pos)
    ensures Written(pattern, pos, len) == Repeat(pattern, pos, len)
  {
    hide Repeat, Piece;
    if len <= |pattern| - pos {
      PieceEven(pattern, pos, len);
      RepeatWithin(pattern, pos, len);
    } else {
      var m := len - (|pattern| - pos);
      PieceEven(pattern, pos, |pattern| - pos);
      RepeatWraps(pattern, pos, m);
      assert |pattern| - pos + m == len && pattern[pos..] == pattern[pos..|pattern|];
    }
  }

  /** The position saved by a call. */
  function Saved(size: nat, pos: nat, len: nat): (p: nat)
    requires 0 < size && pos <= size
    ensures p <= size
    decreases len
  {
    if len <= size then (if size - pos >= len then pos + len else len - (size - pos))
    else Rest(size, len - (size - pos))
  }

  /** The loop's own way of counting down: whole patterns while more than one is left. */
  function Rest(size: nat, remain: nat): (p: nat)
    requires 0 < size
    ensures p <= size
  {
    if remain > size then Rest(size, remain - size) else remain
  }

  lemma {:induction false} RestAdvances(pattern: seq<byte>, remain: nat)
    requires pattern != []
    ensures Norm(Rest(|pattern|, remain), |pattern|) == Advance(0, remain, |pattern|)
    decreases remain
  {
    if remain > |pattern| {
      RestAdvances(pattern, remain - |pattern|);
      RepeatWraps(pattern, 0, remain - |pattern|);
    } else {
      RepeatWithin(pattern, 0, remain);
    }
  }

  lemma SavedAdvances(pattern: seq<byte>, pos: nat, len: nat)
    requires pattern != [] && pos <= |pattern|
    ensures Norm(Saved(|pattern|, pos, len), |pattern|) == Advance(pos, len, |pattern|)
  {
    if len <= |pattern| - pos {
      RepeatWithin(pattern, pos, len);
    } else {
      RepeatWraps(pattern, pos, len - (|pattern| - pos));
      RestAdvances(pattern, len - (|pattern| - pos));
    }
  }

  lemma {:induction false} RestEven(size: nat, remain: nat)
    requires 0 < size && IsEven(size) && IsEven(remain)
    ensures IsEven(Rest(size, remain))
    decreases remain
  {
    if remain > size {
      RestEven(size, remain - size);
    }
  }

  function Outputs(pattern: seq<byte>, pos: nat, lens: seq<nat>): (s: seq<byte>)
    requires pattern != [] && pos <= |pattern|
    decreases |lens|
  {
    if lens == [] then []
    else Written(pattern, pos, lens[0]) + Outputs(pattern, Saved(|pattern|, pos, lens[0]), lens[1..])
  }

  /** Over any calls of even lengths, on a pattern of even length, all output together is a
      prefix of the endless repetition: nothing is skipped or played twice at the seams. */
  lemma {:induction false} CallsContinue(pattern: seq<byte>, pos: nat, lens: seq<nat>)
    requires pattern != [] && pos <= |pattern| && IsEven(|pattern|) && IsEven(pos) && AllEven(lens)
    ensures var s := Outputs(pattern, pos, lens); s == Repeat(pattern, pos, |s|)
    decreases |lens|
  {
    if lens != [] {
      hide Repeat, Written, Advance, Saved, IsEven;
      var n, next := lens[0], Saved(|pattern|, pos, lens[0]);
      EvenContinues(pattern, pos, n);
      SavedAdvances(pattern, pos, n);
      SavedEven(|pattern|, pos, n);
      CallsContinue(pattern, next, lens[1..]);
      var m := |Outputs(pattern, next, lens[1..])|;
      RepeatSplit(pattern, pos, n, m);
      RepeatFromNorm(pattern, next, m);
    }
  }

  lemma SavedEven(size: nat, pos: nat, len: nat)
    requires 0 < size && pos <= size && IsEven(size) && IsEven(pos) && IsEven(len)
    ensures IsEven(Saved(size, pos, len))
  {
    if len > size {
      RestEven(size, len - (size - pos));
    }
  }

  lemma RepeatFromNorm(pattern: seq<byte>, pos: nat, n: nat)
    requires pattern != [] && pos <= |pattern|
    ensures Repeat(pattern, pos, n) == Repeat(pattern, Norm(pos, |pattern|), n)
  {
  }

  /** From the start: byte k ever played is byte k modulo the length of the pattern. */
  lemma PlaysThePattern(pattern: seq<byte>, lens: seq<nat>, k: nat)
    requires pattern != [] && IsEven(|pattern|) && AllEven(lens)
    requires k < |Outputs(pattern, 0, lens)|
    ensures Outputs(pattern, 0, lens)[k] == pattern[k % |pattern|]
  {
    assert IsEven(0);
    hide *;
    CallsContinue(pattern, 0, lens);
    RepeatIsModular(pattern, |Outputs(pattern, 0, lens)|, k);
  }

  class Generator {
    const pattern: seq<byte>
    var pos: nat

    ghost predicate Valid()
      reads this
    {
      pattern != [] && pos <= |pattern|
    }

    constructor (pattern: seq<byte>)
      requires pattern != []
      ensures Valid() && pos == 0 && this.pattern == pattern
    {
      this.pattern, pos := pattern, 0;
    }

    method Copy(buf: array<byte>, to: nat, source: seq<byte>)
      requires to + |source| <= buf.Length
      modifies buf
      ensures buf[..to + |source|] == old(buf[..to]) + source
      ensures buf[to + |source|..] == old(buf[to + |source|..])
    {
      forall i | 0 <= i < |source| {
        buf[to + i] := source[i];
      }
    }

    /** app_factorymode_output_pcmpatten. */
    method Output(buf: array<byte>)
      requires Valid()
      modifies this, buf
      ensures Valid() && buf[..] == Written(pattern, old(pos), buf.Length)
      ensures pos == Saved(|pattern|, old(pos), buf.Length)
    {
      hide Piece, Repeat, Rest;
      var size, len := |pattern|, buf.Length;
      if len > size {
        Fill(buf);
      } else if size - pos >= len {
        Copy(buf, 0, Piece(pattern, pos, len));
        assert buf[..len] == [] + Piece(pattern, pos, len) == Piece(pattern, pos, len);
        pos := pos + len;
      } else {
        var curr := size - pos;
        var piece := Piece(pattern, pos, curr);
        RepeatWithin(pattern, 0, len - curr);
        Copy(buf, 0, piece);
        pos := len - curr;
        assert buf[..curr] == [] + piece == piece;
        Copy(buf, curr, pattern[..pos]);
      }
      assert buf[..buf.Length] == buf[..];
    }

    /** The loop for requests longer than the pattern; it ends because each turn that leaves
        the remaining count as it is clears the position. */
    method Fill(buf: array<byte>)
      requires Valid() && buf.Length > |pattern|
      modifies this, buf
      ensures Valid() && buf[..] == Written(pattern, old(pos), buf.Length)
      ensures pos == Saved(|pattern|, old(pos), buf.Length)
    {
      FillDone(pattern, pos, buf.Length);
      hide Repeat, Written, Saved, Piece, LoopOut, LoopPos;
      var size, remain, curr := |pattern|, buf.Length, 0;
      ghost var start := pos;
      assert buf[..0] + LoopOut(pattern, pos, remain) == LoopOut(pattern, pos, remain);
      while remain > 0
        invariant Loop(buf, curr, remain) && Progress(buf, remain, start)
        decreases remain, pos
      {
        hide Progress;
        if pos != 0 {
          curr, remain := FinishPattern(buf, curr, remain, start);
        } else if remain > size {
          curr, remain := WholePattern(buf, curr, remain, start);
        } else {
          remain := LastPart(buf, curr, remain, start);
        }
      }
      LoopStep(pattern, pos, 0);
      assert buf[..buf.Length] + [] == buf[..];
    }

    /** The shape of the loop: the saved position is used up before anything else is written. */
    ghost predicate Loop(buf: array<byte>, curr: nat, remain: int)
      reads this
    {
      && Valid() && 0 <= remain <= buf.Length && |pattern| < buf.Length
      && (remain > 0 ==> curr == buf.Length - remain && (pos != 0 ==> curr == 0))
    }

    /** What is written, with what the loop still writes, is what it writes from the start. */
    ghost predicate Progress(buf: array<byte>, remain: int, start: nat)
      requires Valid() && 0 <= remain <= buf.Length && start <= |pattern|
      reads this, buf
    {
      && buf[..buf.Length - remain] + LoopOut(pattern, pos, remain) == LoopOut(pattern, start, buf.Length)
      && LoopPos(|pattern|, pos, remain) == LoopPos(|pattern|, start, buf.Length)
    }

    method FinishPattern(buf: array<byte>, curr: nat, remain: int, ghost start: nat) returns (curr': nat, remain': int)
      requires Loop(buf, curr, remain) && remain > 0 && pos != 0
      requires start <= |pattern| && Progress(buf, remain, start)
      modifies `pos, buf
      ensures Loop(buf, curr', remain') && pos == 0 && remain' <= remain && Progress(buf, remain', start)
    {
      LoopStep(pattern, pos, remain);
      hide Piece, LoopOut, LoopPos;
      curr' := |pattern| - pos;
      ghost var done := buf[..curr];
      var piece := Piece(pattern, pos, curr');
      Copy(buf, 0, piece);
      assert done == [] && buf[..curr'] == done + piece;
      remain' := remain - curr';
      pos := 0;
      NextDone(done, piece, LoopOut(pattern, 0, remain'));
    }

    method WholePattern(buf: array<byte>, curr: nat, remain: int, ghost start: nat) returns (curr': nat, remain': int)
      requires Loop(buf, curr, remain) && remain > |pattern| && pos == 0
      requires start <= |pattern| && Progress(buf, remain, start)
      modifies buf
      ensures Loop(buf, curr', remain') && remain' < remain && Progress(buf, remain', start)
    {
      LoopStep(pattern, pos, remain);
      hide Piece, LoopOut, LoopPos;
      ghost var done := buf[..curr];
      Copy(buf, curr, pattern);
      curr', remain' := curr + |pattern|, remain - |pattern|;
      NextDone(done, pattern, LoopOut(pattern, 0, remain'));
    }

    method LastPart(buf: array<byte>, curr: nat, remain: int, ghost start: nat) returns (remain': int)
      requires Loop(buf, curr, remain) && 0 < remain <= |pattern| && pos == 0
      requires start <= |pattern| && Progress(buf, remain, start)
      modifies `pos, buf
      ensures Valid() && remain' == 0 && Progress(buf, remain', start)
    {
      LoopStep(pattern, pos, remain);
      hide Piece, LoopOut, LoopPos;
      ghost var done := buf[..curr];
      Copy(buf, curr, pattern[..remain]);
      NextDone(done, pattern[..remain], []);
      pos := remain;
      remain' := 0;
      LoopStep(pattern, pos, 0);
    }
  }

  lemma NextDone(done: seq<byte>, piece: seq<byte>, rest: seq<byte>)
    ensures done + piece + rest == done + (piece + rest) && piece + [] == piece
    ensures done == [] ==> done + piece == piece
  {
  }

  /** What the loop still writes, and the position it leaves. */
  function LoopOut(pattern: seq<byte>, pos: nat, remain: nat): seq<byte>
    requires pattern != [] && pos <= |pattern|
    decreases remain, pos
  {
    if remain == 0 then []
    else if pos != 0 then
      if remain <= |pattern| - pos then []
      else Piece(pattern, pos, |pattern| - pos) + LoopOut(pattern, 0, remain - (|pattern| - pos))
    else if remain > |pattern| then pattern + LoopOut(pattern, 0, remain - |pattern|)
    else pattern[..remain]
  }

  function LoopPos(size: nat, pos: nat, remain: nat): nat
    requires 0 < size && pos <= size
    decreases remain, pos
  {
    if remain == 0 then pos
    else if pos != 0 then
      if remain <= size - pos then pos else LoopPos(size, 0, remain - (size - pos))
    else if remain > size then LoopPos(size, 0, remain - size)
    else remain
  }

  lemma LoopStep(pattern: seq<byte>, pos: nat, remain: nat)
    requires pattern != [] && pos <= |pattern|
    ensures remain == 0 ==> LoopOut(pattern, pos, remain) == [] && LoopPos(|pattern|, pos, remain) == pos
    ensures pos != 0 && remain > |pattern| - pos ==>
              && LoopOut(pattern, pos, remain) ==
                  Piece(pattern, pos, |pattern| - pos) + LoopOut(pattern, 0, remain - (|pattern| - pos))
              && LoopPos(|pattern|, pos, remain) == LoopPos(|pattern|, 0, remain - (|pattern| - pos))
    ensures pos == 0 && remain > |pattern| ==>
              && LoopOut(pattern, 0, remain) == pattern + LoopOut(pattern, 0, remain - |pattern|)
              && LoopPos(|pattern|, 0, remain) == LoopPos(|pattern|, 0, remain - |pattern|)
    ensures pos == 0 && 0 < remain <= |pattern| ==>
              LoopOut(pattern, 0, remain) == pattern[..remain] && LoopPos(|pattern|, 0, remain) == remain
  {
  }

  lemma {:induction false} LoopFromStart(pattern: seq<byte>, remain: nat)
    requires pattern != []
    ensures LoopOut(pattern, 0, remain) == Repeat(pattern, 0, remain)
    ensures LoopPos(|pattern|, 0, remain) == Rest(|pattern|, remain)
    decreases remain
  {
    if remain > |pattern| {
      LoopFromStart(pattern, remain - |pattern|);
      RepeatWraps(pattern, 0, remain - |pattern|);
    } else {
      RepeatWithin(pattern, 0, remain);
    }
  }

  /** The loop writes what is left of the pattern and then the repetition from its start. */
  lemma FillDone(pattern: seq<byte>, pos: nat, len: nat)
    requires pattern != [] && pos <= |pattern| < len
    ensures LoopOut(pattern, pos, len) == Written(pattern, pos, len)
    ensures LoopPos(|pattern|, pos, len) == Saved(|pattern|, pos, len)
  {
    hide Repeat, Piece, LoopOut, LoopPos, Rest;
    LoopStep(pattern, pos, len);
    LoopFromStart(pattern, len - (|pattern| - pos));
    if pos == 0 {
      PieceEven(pattern, 0, |pattern|);
    }
  }
}
