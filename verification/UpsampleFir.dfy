/** The polyphase upsampler of the SCO voice path: every input sample yields ratio output
    samples, each the sum of 24 products of the latest samples with one coefficient row.
    23 samples are carried from call to call. */
module UpsampleFir {
  import opened Bytes

  type sample = x: int | -32768 <= x <= 32767

  const US_COEF_NUM := 24
  const HISTORY := 23

  const COEF_8K: seq<seq<sample>> := [
    [64, -311, 210, -320, 363, -407, 410, -356, 196, 191, -1369, 30721,
     3861, -2265, 1680, -1321, 1049, -823, 625, -471, 297, -327, 34, 19],
    [72, -254, 75, -117, 46, 58, -256, 583, -1141, 2197, -4866, 28131,
     10285, -4611, 2935, -2061, 1489, -1075, 755, -523, 310, -291, -19, 31],
    [65, -175, -73, 84, -245, 457, -786, 1276, -2040, 3377, -6428, 23348,
     17094, -6200, 3592, -2347, 1588, -1073, 703, -447, 236, -203, -92, 49],
    [49, -92, -203, 236, -447, 703, -1073, 1588, -2347, 3592, -6200, 17094,
     23348, -6428, 3377, -2040, 1276, -786, 457, -245, 84, -73, -175, 65],
    [31, -19, -291, 310, -523, 755, -1075, 1489, -2061, 2935, -4611, 10285,
     28131, -4866, 2197, -1141, 583, -256, 58, 46, -117, 75, -254, 72],
    [19, 34, -327, 297, -471, 625, -823, 1049, -1321, 1680, -2265, 3861,
     30721, -1369, 191, 196, -356, 410, -407, 363, -320, 210, -311, 64]]

  const COEF_16K: seq<seq<sample>> := [
    [1, -291, 248, -327, 383, -405, 362, -212, -129, 875, -2948, 29344,
     7324, -3795, 2603, -1913, 1418, -1031, 722, -478, 292, -220, -86, 16],
    [26, -212, 6, 45, -185, 414, -764, 1290, -2099, 3470, -6431, 20320,
     20320, -6431, 3470, -2099, 1290, -764, 414, -185, 45, 6, -212, 26],
    [16, -86, -220, 292, -478, 722, -1031, 1418, -1913, 2603, -3795, 7324,
     29344, -2948, 875, -129, -212, 362, -405, 383, -327, 248, -291, 1]]

  /** The two upsampling ratios that the stream set-up selects (48 kHz from 16 or 8 kHz). */
  predicate IsRatio(ratio: nat) { ratio == 3 || ratio == 6 }

  /** us_get_coef_para for all coefficients of one phase. */
  function Row(ratio: nat, phase: nat): (row: seq<sample>)
    requires IsRatio(ratio) && phase < ratio
    ensures |row| == US_COEF_NUM
  {
    if ratio == 6 then COEF_8K[phase] else COEF_16K[phase]
  }

  /** A value stored in a 32-bit int. */
  function Wrap32(x: int): (r: int)
    ensures -0x8000_0000 <= r < 0x8000_0000
    ensures -0x8000_0000 <= x < 0x8000_0000 ==> r == x
    ensures (r - x) % 0x1_0000_0000 == 0
  {
    (x + 0x8000_0000) % 0x1_0000_0000 - 0x8000_0000
  }

  /** The accumulator after n products, wrapping as the int does. */
  function Acc(w: seq<sample>, row: seq<sample>, n: nat): (r: int)
    requires n <= |w| && n <= |row|
    ensures -0x8000_0000 <= r < 0x8000_0000
  {
    if n == 0 then 0 else Wrap32(Acc(w, row, n - 1) + (w[n - 1] as int) * (row[n - 1] as int))
  }

  /** One output sample: the upper half of the accumulator always fits a short. */
  function Tap(w: seq<sample>, row: seq<sample>): (r: sample)
    requires |w| == US_COEF_NUM == |row|
  {
    Acc(w, row, US_COEF_NUM) / 65536
  }

  /** The outputs for one input sample, phase after phase. */
  function Phases(w: seq<sample>, ratio: nat, n: nat): (out: seq<sample>)
    requires IsRatio(ratio) && n <= ratio && |w| == US_COEF_NUM
    ensures |out| == n
  {
    if n == 0 then [] else Phases(w, ratio, n - 1) + [Tap(w, Row(ratio, n - 1))]
  }

  /** The direct convolution of a whole stream that begins with its 23 history samples. */
  function Conv(x: seq<sample>, ratio: nat): (out: seq<sample>)
    requires IsRatio(ratio) && |x| >= HISTORY
    ensures |out| == OutLen(|x| - HISTORY, ratio)
  {
    if |x| == HISTORY then []
    else Phases(x[..US_COEF_NUM], ratio, ratio) + Conv(x[1..], ratio)
  }

  function OutLen(n: nat, ratio: nat): (m: nat)
    requires IsRatio(ratio)
    ensures m == n * ratio
  {
    if ratio == 3 then 3 * n else 6 * n
  }

  /** The samples carried to the next call. */
  function LastSamples(x: seq<sample>): (h: seq<sample>)
    requires |x| >= HISTORY
    ensures |h| == HISTORY
  {
    x[|x| - HISTORY..]
  }

  lemma {:induction false} ConvSplit(x: seq<sample>, y: seq<sample>, ratio: nat)
    requires IsRatio(ratio) && |x| >= HISTORY
    ensures Conv(x + y, ratio) == Conv(x, ratio) + Conv(LastSamples(x) + y, ratio)
  {
    hide Phases;
    if |x| == HISTORY {
      assert LastSamples(x) == x;
    } else {
      DropOfSum(x, y, 1);
      assert (x + y)[..US_COEF_NUM] == x[..US_COEF_NUM];
      ConvSplit(x[1..], y, ratio);
      DropTwice(x, 1, |x| - 1 - HISTORY);
      Regroup(Phases(x[..US_COEF_NUM], ratio, ratio), Conv(x[1..], ratio), Conv(LastSamples(x) + y, ratio));
    }
  }

  /** Each output sample is the 24-tap sum over its own window of the stream. */
  lemma {:induction false} ConvAt(x: seq<sample>, ratio: nat, i: nat, phase: nat)
    requires IsRatio(ratio) && i + US_COEF_NUM <= |x| && phase < ratio
    ensures OutLen(i, ratio) + phase < |Conv(x, ratio)|
    ensures Conv(x, ratio)[OutLen(i, ratio) + phase] == Tap(x[i..i + US_COEF_NUM], Row(ratio, phase))
  {
    hide Tap, Row;
    if i == 0 {
      PhasesAt(x[..US_COEF_NUM], ratio, ratio, phase);
      assert x[0..US_COEF_NUM] == x[..US_COEF_NUM];
    } else {
      ConvAt(x[1..], ratio, i - 1, phase);
      assert x[1..][i - 1..i - 1 + US_COEF_NUM] == x[i..i + US_COEF_NUM];
    }
  }

  lemma {:induction false} PhasesAt(w: seq<sample>, ratio: nat, n: nat, phase: nat)
    requires IsRatio(ratio) && phase < n <= ratio && |w| == US_COEF_NUM
    ensures Phases(w, ratio, n)[phase] == Tap(w, Row(ratio, phase))
  {
    hide Tap, Row;
    if phase < n - 1 { PhasesAt(w, ratio, n - 1, phase); }
  }

  class Upsampler {
    const para: array<sample>
    const ratio: nat

    ghost predicate Valid()
      reads this
    {
      para.Length == HISTORY && IsRatio(ratio)
    }

    /** us_fir_init. */
    constructor (ratio: nat)
      requires IsRatio(ratio)
      ensures Valid() && this.ratio == ratio && fresh(para)
      ensures para[..] == Silence()
    {
      this.ratio := ratio;
      para := new sample[HISTORY](_ => 0);
    }

    /** us_fir_run on the first n samples of src. */
    method Run(src: array<sample>, dst: array<sample>, n: nat) returns (outIdx: nat)
      requires Valid() && src != para && dst != para && src != dst
      requires n <= src.Length && OutLen(n, ratio) <= dst.Length
      modifies para, dst
      ensures Valid()
      ensures outIdx == OutLen(n, ratio)
      ensures dst[..outIdx] == Conv(old(para[..]) + src[..n], ratio)
      ensures para[..] == LastSamples(old(para[..]) + src[..n])
    {
      hide Phases, Tap, Row;
      ghost var x := para[..] + src[..n];
      var i := 0;
      outIdx := 0;
      while i < n
        invariant i <= n && outIdx == OutLen(i, ratio)
        invariant para[..] == old(para[..]) && src[..n] == old(src[..n])
        invariant dst[..outIdx] == Conv(x[..HISTORY + i], ratio)
      {
        ConvSnoc(x, i, ratio);
        Emit(src, dst, i, outIdx, x);
        outIdx := outIdx + ratio;
        i := i + 1;
      }
      assert x[..HISTORY + n] == x;
      Carry(src, n);
    }

    /** The middle loop: all phases of input sample i, stored from position at on. */
    method Emit(src: array<sample>, dst: array<sample>, i: nat, at: nat, ghost x: seq<sample>)
      requires Valid() && dst != para && src != dst
      requires i < src.Length && i < |x| - HISTORY <= src.Length && x == para[..] + src[..|x| - HISTORY]
      requires at + ratio <= dst.Length
      modifies dst
      ensures dst[..at + ratio] == old(dst[..at]) + Phases(x[i..i + US_COEF_NUM], ratio, ratio)
    {
      hide Tap, Row;
      ghost var w := x[i..i + US_COEF_NUM];
      var phase := 0;
      while phase < ratio
        invariant phase <= ratio
        invariant x == para[..] + src[..|x| - HISTORY]
        invariant dst[..at + phase] == old(dst[..at]) + Phases(w, ratio, phase)
      {
        dst[at + phase] := OneTap(src, i, phase, x);
        phase := phase + 1;
      }
    }

    /** The inner loop: the accumulator over the 24 coefficients of one phase. */
    method OneTap(src: array<sample>, i: nat, phase: nat, ghost x: seq<sample>) returns (out: sample)
      requires Valid() && phase < ratio && i < src.Length && i < |x| - HISTORY <= src.Length
      requires x == para[..] + src[..|x| - HISTORY]
      ensures out == Tap(x[i..i + US_COEF_NUM], Row(ratio, phase))
    {
      hide Row, Wrap32;
      var row := Row(ratio, phase);
      ghost var w := x[i..i + US_COEF_NUM];
      var acc, c := 0, 0;
      while c < US_COEF_NUM
        invariant c <= US_COEF_NUM && acc == Acc(w, row, c)
      {
        var realIdx := c + i;
        var value := if realIdx < HISTORY then para[realIdx] else src[realIdx - HISTORY];
        assert value == w[c];
        acc := Wrap32(acc + (value as int) * (row[c] as int));
        c := c + 1;
      }
      out := acc / 65536;
    }

    /** The end of us_fir_run: the latest 23 samples move into the history, in place when
        the call brought fewer. */
    method Carry(src: array<sample>, n: nat)
      requires Valid() && src != para && n <= src.Length
      modifies para
      ensures para[..] == LastSamples(old(para[..]) + src[..n])
    {
      ghost var x := para[..] + src[..n];
      if n >= HISTORY {
        Memcpy16(0, src, n - HISTORY, HISTORY);
        assert LastSamples(x) == src[n - HISTORY..n];
      } else {
        var start := HISTORY - n;
        Memmove16(n, start);
        ghost var kept := para[..start];
        Memcpy16(start, src, 0, n);
        assert para[..start] == kept;
        assert para[..] == kept + src[..n];
        assert LastSamples(x) == old(para[n..]) + src[..n];
      }
    }

    /** app_audio_memcpy_16bit from another buffer. */
    method Memcpy16(des: nat, src: array<sample>, from: nat, len: nat)
      requires Valid() && src != para && des + len <= HISTORY && from + len <= src.Length
      modifies para
      ensures para[..des] == old(para[..des]) && para[des..des + len] == src[from..from + len]
    {
      var i := 0;
      while i < len
        invariant i <= len && para[..des] == old(para[..des])
        invariant para[des..des + i] == src[from..from + i]
      {
        para[des + i] := src[from + i];
        i := i + 1;
      }
    }

    /** app_audio_memcpy_16bit within the history: the forward copy is safe towards lower
        addresses although the regions overlap. */
    method Memmove16(from: nat, len: nat)
      requires Valid() && from + len == HISTORY
      modifies para
      ensures para[..len] == old(para[from..])
    {
      var i := 0;
      while i < len
        invariant i <= len
        invariant forall k :: 0 <= k < i ==> para[k] == old(para[from + k])
        invariant forall k :: i <= k < HISTORY ==> para[k] == old(para[k])
      {
        para[i] := para[from + i];
        i := i + 1;
      }
    }
  }

  /** One more input sample appends its phases. */
  lemma ConvSnoc(x: seq<sample>, i: nat, ratio: nat)
    requires IsRatio(ratio) && HISTORY + i < |x|
    ensures Conv(x[..HISTORY + i + 1], ratio) == Conv(x[..HISTORY + i], ratio) +
              Phases(x[i..i + US_COEF_NUM], ratio, ratio)
  {
    hide Phases;
    var p, s := x[..HISTORY + i], [x[HISTORY + i]];
    assert x[..HISTORY + i + 1] == p + s;
    ConvSplit(p, s, ratio);
    var w := LastSamples(p) + s;
    assert w == x[i..i + US_COEF_NUM] && w[..US_COEF_NUM] == w && |w[1..]| == HISTORY;
    assert Conv(w, ratio) == Phases(w, ratio, ratio) + [];
  }

  // ---------- Chunk invariance ----------

  function Silence(): (h: seq<sample>)
    ensures |h| == HISTORY
  {
    seq(HISTORY, i => 0)
  }

  /** The outputs of a list of calls, each of which does what Upsampler.Run promises. */
  function RunAll(history: seq<sample>, chunks: seq<seq<sample>>, ratio: nat): seq<sample>
    requires IsRatio(ratio) && |history| == HISTORY
    decreases |chunks|
  {
    if chunks == [] then []
    else Conv(history + chunks[0], ratio) + RunAll(LastSamples(history + chunks[0]), chunks[1..], ratio)
  }

  lemma {:induction false} ChunksAreInvisible(history: seq<sample>, chunks: seq<seq<sample>>, ratio: nat)
    requires IsRatio(ratio) && |history| == HISTORY
    ensures RunAll(history, chunks, ratio) == Conv(history + Concat(chunks), ratio)
    decreases |chunks|
  {
    hide Phases;
    if chunks == [] {
      assert history + Concat(chunks) == history;
    } else {
      var x, rest := history + chunks[0], Concat(chunks[1..]);
      ChunksAreInvisible(LastSamples(x), chunks[1..], ratio);
      ConvSplit(x, rest, ratio);
      assert history + Concat(chunks) == x + rest;
    }
  }

  /** Any split of a stream into calls, with chunks of any length, produces the direct
      convolution of the whole stream behind 23 zeros. */
  lemma ChunkInvariance(chunks: seq<seq<sample>>, ratio: nat)
    requires IsRatio(ratio)
    ensures RunAll(Silence(), chunks, ratio) == Conv(Silence() + Concat(chunks), ratio)
  {
    ChunksAreInvisible(Silence(), chunks, ratio);
  }

  // ---------- The accumulator and 32 bits ----------

  const MAX_SAFE := 29835

  /** The accumulator if it were unbounded. */
  function Exact(w: seq<sample>, row: seq<sample>, n: nat): int
    requires n <= |w| && n <= |row|
  {
    if n == 0 then 0 else Exact(w, row, n - 1) + (w[n - 1] as int) * (row[n - 1] as int)
  }

  function Abs(x: int): nat { if x < 0 then -x else x }

  function AbsSum(row: seq<sample>, n: nat): nat
    requires n <= |row|
  {
    if n == 0 then 0 else AbsSum(row, n - 1) + Abs(row[n - 1])
  }

  lemma Distribute(k: int, a: int, b: int)
    ensures k * (a + b) == k * a + k * b
  {
  }

  lemma ProductBound(w: int, c: int, bound: nat)
    requires Abs(w) <= bound
    ensures -(bound * Abs(c)) <= w * c <= bound * Abs(c)
  {
    if c >= 0 {
      assert (bound - w) * c >= 0 && (bound + w) * c >= 0;
    } else {
      assert (bound - w) * -c >= 0 && (bound + w) * -c >= 0;
    }
  }

  lemma {:induction false} SumBound(w: seq<sample>, row: seq<sample>, n: nat, bound: nat)
    requires n <= |w| && n <= |row| && forall i :: 0 <= i < n ==> Abs(w[i]) <= bound
    ensures -(bound * AbsSum(row, n)) <= Exact(w, row, n) <= bound * AbsSum(row, n)
  {
    if n > 0 {
      SumBound(w, row, n - 1, bound);
      ProductBound(w[n - 1], row[n - 1], bound);
      Distribute(bound, AbsSum(row, n - 1), Abs(row[n - 1]));
    }
  }

  lemma {:induction false} AbsSumGrows(row: seq<sample>, n: nat, m: nat)
    requires n <= m <= |row|
    ensures AbsSum(row, n) <= AbsSum(row, m)
  {
    if n < m { AbsSumGrows(row, n, m - 1); }
  }

  /** Four more coefficients of a row. */
  lemma FourMore(row: seq<sample>, n: nat)
    requires n + 4 <= |row|
    ensures AbsSum(row, n + 4) == AbsSum(row, n) + Abs(row[n]) + Abs(row[n + 1]) + Abs(row[n + 2]) + Abs(row[n + 3])
  {
    assert AbsSum(row, n + 2) == AbsSum(row, n) + Abs(row[n]) + Abs(row[n + 1]);
  }

  lemma RowSum(row: seq<sample>)
    requires |row| == US_COEF_NUM
    ensures AbsSum(row, US_COEF_NUM) ==
            Abs(row[0]) + Abs(row[1]) + Abs(row[2]) + Abs(row[3]) + Abs(row[4]) + Abs(row[5])
            + Abs(row[6]) + Abs(row[7]) + Abs(row[8]) + Abs(row[9]) + Abs(row[10]) + Abs(row[11])
            + Abs(row[12]) + Abs(row[13]) + Abs(row[14]) + Abs(row[15]) + Abs(row[16]) + Abs(row[17])
            + Abs(row[18]) + Abs(row[19]) + Abs(row[20]) + Abs(row[21]) + Abs(row[22]) + Abs(row[23])
  {
    hide Abs;
    FourMore(row, 0);
    FourMore(row, 4);
    FourMore(row, 8);
    FourMore(row, 12);
    FourMore(row, 16);
    FourMore(row, 20);
  }

  lemma FirstRows8k()
    ensures AbsSum(Row(6, 0), US_COEF_NUM) == 47690
    ensures AbsSum(Row(6, 1), US_COEF_NUM) == 62181
    ensures AbsSum(Row(6, 2), US_COEF_NUM) == 71978
  {
    hide AbsSum;
    RowSum(Row(6, 0));
    RowSum(Row(6, 1));
    RowSum(Row(6, 2));
  }

  lemma LastRows8k()
    ensures AbsSum(Row(6, 3), US_COEF_NUM) == 71978
    ensures AbsSum(Row(6, 4), US_COEF_NUM) == 62181
    ensures AbsSum(Row(6, 5), US_COEF_NUM) == 47690
  {
    hide AbsSum;
    RowSum(Row(6, 3));
    RowSum(Row(6, 4));
    RowSum(Row(6, 5));
  }

  lemma OuterRows16k()
    ensures AbsSum(Row(3, 0), US_COEF_NUM) == AbsSum(Row(3, 2), US_COEF_NUM) == 55423
  {
    hide AbsSum;
    RowSum(Row(3, 0));
    RowSum(Row(3, 2));
  }

  lemma MiddleRow16k()
    ensures AbsSum(Row(3, 1), US_COEF_NUM) == 70524
  {
    hide AbsSum;
    RowSum(Row(3, 1));
  }

  /** The largest absolute row sum of either table is 71978, reached by phase 2 at 8 kHz. */
  lemma LargestRowSum(ratio: nat, phase: nat)
    requires IsRatio(ratio) && phase < ratio
    ensures AbsSum(Row(ratio, phase), US_COEF_NUM) <= 71978
    ensures AbsSum(Row(6, 2), US_COEF_NUM) == 71978
  {
    hide AbsSum;
    FirstRows8k();
    LastRows8k();
    OuterRows16k();
    MiddleRow16k();
  }

  /** With samples of magnitude at most 29835 no partial sum of any phase leaves 32 bits, so
      the accumulator is the true sum. */
  lemma {:induction false} NoWrap(w: seq<sample>, ratio: nat, phase: nat, n: nat)
    requires IsRatio(ratio) && phase < ratio && |w| == US_COEF_NUM && n <= US_COEF_NUM
    requires forall i :: 0 <= i < US_COEF_NUM ==> Abs(w[i]) <= MAX_SAFE
    ensures Acc(w, Row(ratio, phase), n) == Exact(w, Row(ratio, phase), n)
    ensures -0x8000_0000 <= Exact(w, Row(ratio, phase), n) < 0x8000_0000
  {
    hide Row, AbsSum, Abs;
    var row := Row(ratio, phase);
    LargestRowSum(ratio, phase);
    AbsSumGrows(row, n, US_COEF_NUM);
    SumBound(w, row, n, MAX_SAFE);
    BoundFits(AbsSum(row, n));
    if n > 0 {
      NoWrap(w, ratio, phase, n - 1);
    }
  }

  lemma BoundFits(sum: nat)
    requires sum <= 71978
    ensures MAX_SAFE * sum < 0x8000_0000
  {
  }

  /** Samples of one magnitude that all push the sum upwards. */
  function WorstWindow(row: seq<sample>, magnitude: nat): (w: seq<sample>)
    requires magnitude < 32768
    ensures |w| == |row| && forall i :: 0 <= i < |w| ==> Abs(w[i]) == magnitude
  {
    seq(|row|, i requires 0 <= i < |row| =>
      if row[i] < 0 then 0 - (magnitude as int) else magnitude as int)
  }

  lemma {:induction false} WorstSum(row: seq<sample>, magnitude: nat, n: nat)
    requires magnitude < 32768 && n <= |row|
    ensures Exact(WorstWindow(row, magnitude), row, n) == magnitude * AbsSum(row, n)
  {
    if n > 0 {
      WorstSum(row, magnitude, n - 1);
      Distribute(magnitude, AbsSum(row, n - 1), Abs(row[n - 1]));
    }
  }

  /** The bound is tight: with magnitude 29836 there is a window whose sum leaves 32 bits. */
  lemma BoundIsTight()
    ensures var w := WorstWindow(Row(6, 2), MAX_SAFE + 1);
            Exact(w, Row(6, 2), US_COEF_NUM) >= 0x8000_0000
  {
    hide Row;
    LargestRowSum(6, 2);
    WorstSum(Row(6, 2), MAX_SAFE + 1, US_COEF_NUM);
  }

  // ---------- What an output sample is worth ----------

  /** With samples of magnitude at most 29835 an output is the exact 24-tap sum over 65536,
      rounded down. */
  lemma TapIsFloor(w: seq<sample>, ratio: nat, phase: nat)
    requires IsRatio(ratio) && phase < ratio && |w| == US_COEF_NUM
    requires forall i :: 0 <= i < US_COEF_NUM ==> Abs(w[i]) <= MAX_SAFE
    ensures var exact, out := Exact(w, Row(ratio, phase), US_COEF_NUM), Tap(w, Row(ratio, phase)) as int;
            65536 * out <= exact < 65536 * out + 65536
  {
    hide Row, Exact, Acc, Abs;
    NoWrap(w, ratio, phase, US_COEF_NUM);
  }

  /** So every output of a stream is that of its own window: sample i, phase by phase. */
  lemma ConvIsFloor(x: seq<sample>, ratio: nat, i: nat, phase: nat)
    requires IsRatio(ratio) && i + US_COEF_NUM <= |x| && phase < ratio
    requires forall j :: 0 <= j < |x| ==> Abs(x[j]) <= MAX_SAFE
    ensures OutLen(i, ratio) + phase < |Conv(x, ratio)|
    ensures var exact := Exact(x[i..i + US_COEF_NUM], Row(ratio, phase), US_COEF_NUM);
            var out := Conv(x, ratio)[OutLen(i, ratio) + phase] as int;
            65536 * out <= exact < 65536 * out + 65536
  {
    hide Row, Exact, Acc, Abs, Conv, Tap;
    ConvAt(x, ratio, i, phase);
    TapIsFloor(x[i..i + US_COEF_NUM], ratio, phase);
  }

  const MODULUS := 0x1_0000_0000

  /** Whatever the samples, the accumulator is the exact sum modulo 2 to the 32. */
  lemma {:induction false} AccIsExactModulo(w: seq<sample>, row: seq<sample>, n: nat)
    requires n <= |w| && n <= |row|
    ensures (Acc(w, row, n) - Exact(w, row, n)) % MODULUS == 0
  {
    if n > 0 {
      AccIsExactModulo(w, row, n - 1);
      var before, term := Acc(w, row, n - 1), (w[n - 1] as int) * (row[n - 1] as int);
      hide Wrap32;
      SumOfMultiples(Acc(w, row, n) - (before + term), before - Exact(w, row, n - 1));
    }
  }

  lemma SumOfMultiples(a: int, b: int)
    requires a % MODULUS == 0 && b % MODULUS == 0
    ensures (a + b) % MODULUS == 0
  {
    assert a + b == MODULUS * (a / MODULUS + b / MODULUS);
  }

  /** The impulse response is the coefficients, in the order of the rows: a window that is
      silent but for v at place k gives v times coefficient k. */
  lemma ImpulseResponse(w: seq<sample>, row: seq<sample>, k: nat)
    requires |w| == US_COEF_NUM == |row| && k < US_COEF_NUM
    requires forall i :: 0 <= i < US_COEF_NUM && i != k ==> w[i] == 0
    ensures var exact, out := (w[k] as int) * (row[k] as int), Tap(w, row) as int;
            65536 * out <= exact < 65536 * out + 65536
  {
    hide Wrap32;
    ImpulseSum(w, row, k, US_COEF_NUM);
  }

  lemma {:induction false} ImpulseSum(w: seq<sample>, row: seq<sample>, k: nat, n: nat)
    requires |w| == US_COEF_NUM == |row| && k < US_COEF_NUM && n <= US_COEF_NUM
    requires forall i :: 0 <= i < US_COEF_NUM && i != k ==> w[i] == 0
    ensures Acc(w, row, n) == if k < n then (w[k] as int) * (row[k] as int) else 0
  {
    hide Wrap32;
    if n > 0 {
      ImpulseSum(w, row, k, n - 1);
      SmallProduct(w[n - 1], row[n - 1]);
      assert n - 1 != k ==> (w[n - 1] as int) * (row[n - 1] as int) == 0;
    }
  }

  lemma SmallProduct(a: sample, b: sample)
    ensures -0x4000_0000 <= (a as int) * (b as int) <= 0x4000_0000
  {
    ProductBound(a as int, b as int, 32768);
  }
}
