/** The three PCM slots through which the co-processor (CP) hands decoded audio back to the
    MCU. A slot is idle, being worked on, done or failed. The CP owns one index and turns
    idle slots into finished ones; the MCU owns the other index and frees finished slots. */
module CpSlots {
  import opened Bytes

  const SLOT_CNT := 3

  datatype SlotState = Idle | Working | Done | Failed

  predicate Finished(st: SlotState) { st == Done || st == Failed }

  /** The shared slot words and the two indices, one private to each core. */
  datatype Table = Table(st: seq<SlotState>, len: seq<nat>, cpIdx: nat, mcuIdx: nat)

  predicate ValidTable(t: Table) {
    |t.st| == SLOT_CNT && |t.len| == SLOT_CNT && t.cpIdx < SLOT_CNT && t.mcuIdx < SLOT_CNT
  }

  function NextIdx(i: nat): nat { if i + 1 >= SLOT_CNT then 0 else i + 1 }

  /** What the CP makes of its slot when it starts a decoding pass: cp_a2dp_main drops the
      length of an overfull slot, cp_decode_a2dp_begin claims an idle one. */
  function BeginPass(t: Table, loopSize: nat): (r: Table)
    requires ValidTable(t)
    ensures ValidTable(r)
  {
    if t.st[t.cpIdx] == Idle then t.(st := t.st[t.cpIdx := Working], len := t.len[t.cpIdx := 0])
    else if t.st[t.cpIdx] == Working && t.len[t.cpIdx] >= loopSize then t.(len := t.len[t.cpIdx := 0])
    else t
  }

  /** cp_decode_a2dp_end without the move of the index: a pass that ran out of input leaves
      the slot in work, any other one finishes it. */
  function EndPass(t: Table, loopSize: nat, outLen: nat, retry: bool): (r: Table)
    requires ValidTable(t)
    ensures ValidTable(r)
  {
    var len := t.len[t.cpIdx := t.len[t.cpIdx] + outLen];
    if retry then t.(len := len)
    else t.(len := len, st := t.st[t.cpIdx := if outLen == loopSize then Done else Failed])
  }

  /** The state of the table set up by mcu_decode_a2dp_init: the slots from first on start
      out finished, so that the MCU has something to play while the CP begins. */
  function Primed(first: nat, loopSize: nat): (t: Table)
    requires first < SLOT_CNT
    ensures ValidTable(t)
  {
    Table(seq(SLOT_CNT, i => if i < first then Idle else Done),
          seq(SLOT_CNT, i => if i < first then 0 else loopSize), 0, first)
  }

  /** The return value of mcu_decode_a2dp_process for a slot in this state. */
  function ProcessRet(t: Table, outMax: nat): int
    requires ValidTable(t)
  {
    if t.st[t.mcuIdx] != Done then 1 else if t.len[t.mcuIdx] != outMax then 2 else 0
  }

  /** The PCM it copies out. */
  function ProcessPcm(t: Table, out: seq<byte>, loopSize: nat, outMax: nat): seq<byte>
    requires ValidTable(t)
    requires ProcessRet(t, outMax) == 0 ==> loopSize * t.mcuIdx + outMax <= |out|
  {
    if ProcessRet(t, outMax) != 0 then []
    else
      assert loopSize * t.mcuIdx >= 0;
      out[loopSize * t.mcuIdx..][..outMax]
  }

  /** The table after it. */
  function Freed(t: Table): Table
    requires ValidTable(t)
  {
    if Finished(t.st[t.mcuIdx]) then t.(st := t.st[t.mcuIdx := Idle], mcuIdx := NextIdx(t.mcuIdx)) else t
  }

  class Slots {
    const loopSize: nat
    const st: array<SlotState>
    const len: array<nat>
    const out: array<byte>
    var cpIdx: nat
    var mcuIdx: nat

    ghost predicate Valid()
      reads this
    {
      && st.Length == SLOT_CNT && len.Length == SLOT_CNT
      && SLOT_CNT * loopSize <= out.Length && loopSize > 0
      && cpIdx < SLOT_CNT && mcuIdx < SLOT_CNT
    }

    ghost function View(): (t: Table)
      requires Valid()
      reads this, st, len
      ensures ValidTable(t)
    {
      Table(st[..], len[..], cpIdx, mcuIdx)
    }

    /** mcu_decode_a2dp_init; lhdc selects the deeper priming of the LHDC build. */
    constructor (outMax: nat, cache: array<byte>, lhdc: bool)
      requires outMax > 0 && SLOT_CNT * outMax <= cache.Length
      ensures Valid() && loopSize == outMax && out == cache && fresh(st) && fresh(len)
      ensures View() == Primed(if lhdc then 1 else SLOT_CNT - 1, outMax)
    {
      var first := if lhdc then 1 else SLOT_CNT - 1;
      loopSize := outMax;
      out := cache;
      st := new SlotState[SLOT_CNT](_ => Idle);
      len := new nat[SLOT_CNT](_ => 0);
      cpIdx, mcuIdx := 0, first;
      new;
      var i := first;
      while i < SLOT_CNT
        invariant first <= i <= SLOT_CNT && Valid() && cpIdx == 0 && mcuIdx == first
        invariant loopSize == outMax && out == cache && fresh(st) && fresh(len)
        invariant forall j :: 0 <= j < SLOT_CNT ==> st[j] == if first <= j < i then Done else Idle
        invariant forall j :: 0 <= j < SLOT_CNT ==> len[j] == if first <= j < i then outMax else 0
      {
        st[i] := Done;
        len[i] := outMax;
        i := i + 1;
      }
      assert View() == Primed(first, outMax);
    }

    /** The start of a pass in cp_a2dp_main and cp_decode_a2dp_begin; base is where in the
        slot the decoder will write. */
    method CpBegin() returns (ok: bool, base: nat)
      requires Valid()
      modifies st, len
      ensures Valid()
      ensures ok == !Finished(old(View()).st[cpIdx])
      ensures View() == BeginPass(old(View()), loopSize)
      ensures ok ==> base == View().len[cpIdx] && base < loopSize
      ensures ok && old(View()).st[cpIdx] == Idle ==> base == 0
      ensures ok && old(View()).st[cpIdx] == Working ==>
                base == if old(View()).len[cpIdx] < loopSize then old(View()).len[cpIdx] else 0
    {
      base := 0;
      if st[cpIdx] == Working {
        if len[cpIdx] < loopSize {
          base := len[cpIdx];
        } else {
          len[cpIdx] := 0;
        }
      }
      if st[cpIdx] != Idle && st[cpIdx] != Working {
        return false, base;
      }
      if st[cpIdx] == Idle {
        st[cpIdx] := Working;
        len[cpIdx] := 0;
      }
      ok := true;
    }

    /** cp_decode_a2dp_end. */
    method CpEnd(outLen: nat, retry: bool)
      requires Valid()
      modifies st, len, this`cpIdx
      ensures Valid()
      ensures View() ==
              EndPass(old(View()), loopSize, outLen, retry).(cpIdx := if retry then old(cpIdx) else NextIdx(old(cpIdx)))
    {
      len[cpIdx] := len[cpIdx] + outLen;
      if !retry {
        if loopSize == outLen {
          st[cpIdx] := Done;
        } else {
          st[cpIdx] := Failed;
        }
        cpIdx := NextIdx(cpIdx);
      }
    }

    /** mcu_decode_a2dp_process, with nothing of the CP's in between: a good slot is copied
        out, and any finished slot is freed. The copy has to stay within the output cache. */
    method McuProcess(outMax: nat) returns (ret: int, pcm: seq<byte>)
      requires Valid()
      requires ProcessRet(View(), outMax) == 0 ==> loopSize * mcuIdx + outMax <= out.Length
      modifies st, this`mcuIdx
      ensures Valid()
      ensures ret == ProcessRet(old(View()), outMax)
      ensures ret == 1 <==> old(View()).st[old(mcuIdx)] != Done
      ensures ret == 2 <==> old(View()).st[old(mcuIdx)] == Done && old(View()).len[old(mcuIdx)] != outMax
      ensures pcm == ProcessPcm(old(View()), out[..], loopSize, outMax)
      ensures View() == Freed(old(View()))
    {
      ret, pcm := 0, [];
      if st[mcuIdx] != Done {
        ret := 1;
      } else if len[mcuIdx] != outMax {
        ret := 2;
      } else {
        SlotFits(mcuIdx, loopSize);
        pcm := out[loopSize * mcuIdx..][..outMax];
        assert out[..][loopSize * mcuIdx..][..outMax] == pcm;
      }
      if st[mcuIdx] == Done || st[mcuIdx] == Failed {
        st[mcuIdx] := Idle;
        mcuIdx := NextIdx(mcuIdx);
      }
    }
  }

  lemma SlotFits(i: nat, size: nat)
    requires i < SLOT_CNT
    ensures size * i + size <= SLOT_CNT * size
  {
  }
}
