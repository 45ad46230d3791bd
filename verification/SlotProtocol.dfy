/** The slot protocol as interleaved steps of the two cores. Each step touches the shared
    slot words once; in particular the MCU looks at the state of its slot twice, once to
    decide whether to copy PCM out and once more to decide whether to free the slot, and it
    copies PCM byte by byte while the CP goes on. The logs record every finished and every
    freed slot. */
module SlotProtocol {
  import opened Bytes
  import opened CpSlots

  /** base is where in the slot the pass writes, produced what it has written so far. */
  datatype Cp = CpIdle | CpPass(base: nat, produced: seq<byte>) | CpRetired

  /** McuLooked remembers the first look at the state. While PCM is copied, foreign tells of
      each copied byte whether it had been spilled over by then, and with what. */
  datatype Mcu =
    | McuIdle
    | McuLooked(sawDone: bool)
    | McuCopying(copied: seq<byte>, foreign: seq<Option<byte>>)
    | McuLeaving(sawDone: bool)
    | McuFreed

  /** passes are what the passes before the last one have produced since the CP claimed the
      slot; they ended because the input ran out. */
  datatype Finish = Finish(slot: nat, done: bool, base: nat, pcm: seq<byte>, passes: seq<seq<byte>>)
  datatype Retire = Retire(slot: nat, sawDone: bool, didCopy: bool, pcm: seq<byte>, foreign: seq<Option<byte>>)

  /** passes are those on the CP's slot since it claimed it, but for the one it is in.
      spill[i] is what passes on the slot before i have written over the beginning of slot i
      since the CP finished slot i last. */
  datatype State = State(
    loopSize: nat, first: nat, tab: Table, out: seq<byte>, cp: Cp, mcu: Mcu,
    finished: seq<Finish>, retired: seq<Retire>, spill: seq<seq<byte>>, passes: seq<seq<byte>>)

  datatype Step =
    | CpBegin
    | CpWrite(data: seq<byte>)
    | CpEnd(retry: bool)
    | CpAdvance
    | McuLook
    | McuCheck
    | McuCopyByte
    | McuExit
    | McuAdvance

  function SlotAt(i: nat, loopSize: nat): (p: nat)
    requires i < SLOT_CNT
    ensures p == loopSize * i
  {
    if i == 0 then 0 else if i == 1 then loopSize else loopSize + loopSize
  }

  function Piece(out: seq<byte>, i: nat, loopSize: nat): (p: seq<byte>)
    requires i < SLOT_CNT && SLOT_CNT * loopSize <= |out|
    ensures |p| == loopSize
  {
    out[SlotAt(i, loopSize)..SlotAt(i, loopSize) + loopSize]
  }

  predicate InRange(s: State) {
    && s.loopSize > 0 && s.first < SLOT_CNT && ValidTable(s.tab) && SLOT_CNT * s.loopSize <= |s.out|
    && |s.spill| == SLOT_CNT && (s.cp.CpPass? ==> s.cp.base < s.loopSize)
  }

  predicate Init(s: State) {
    && InRange(s)
    && s.tab == Primed(s.first, s.loopSize)
    && s.cp == CpIdle && s.mcu == McuIdle && s.retired == [] && s.spill == [[], [], []] && s.passes == []
    && s.finished == seq(SLOT_CNT - s.first, j requires 0 <= j < SLOT_CNT - s.first =>
                           Finish(s.first + j, true, 0, Piece(s.out, s.first + j, s.loopSize), []))
  }

  function WriteAt(s: State): nat
    requires InRange(s) && s.cp.CpPass?
  {
    SlotAt(s.tab.cpIdx, s.loopSize) + s.cp.base + |s.cp.produced|
  }

  /** A copy to position p. What lies beyond the output cache is other memory, which no slot
      is read from. */
  function Stored(out: seq<byte>, p: nat, data: seq<byte>): (r: seq<byte>)
    ensures |r| == |out|
  {
    seq(|out|, i requires 0 <= i < |out| => if p <= i < p + |data| then data[i - p] else out[i])
  }

  /** Whether the pass has written past the end of its slot with all that it has produced. */
  predicate Overruns(s: State, produced: seq<byte>)
    requires s.cp.CpPass?
  {
    s.cp.base + |produced| > s.loopSize
  }

  /** What it has written there. */
  function Overrun(s: State, produced: seq<byte>): seq<byte>
    requires InRange(s) && s.cp.CpPass? && Overruns(s, produced)
  {
    produced[s.loopSize - s.cp.base..]
  }

  /** under with its beginning written over. */
  function Overlaid(top: seq<byte>, under: seq<byte>): (r: seq<byte>)
    ensures |r| == if |top| > |under| then |top| else |under|
    ensures top <= r
  {
    top + if |top| <= |under| then under[|top|..] else []
  }

  predicate Enabled(s: State, step: Step)
    requires InRange(s)
  {
    match step
    case CpBegin => s.cp.CpIdle? && !Finished(s.tab.st[s.tab.cpIdx])
    case CpWrite(data) => s.cp.CpPass? && |s.cp.produced| + |data| <= s.loopSize
    case CpEnd(retry) => s.cp.CpPass? && (retry ==> |s.cp.produced| < s.loopSize)
    case CpAdvance => s.cp.CpRetired?
    case McuLook => s.mcu.McuIdle?
    case McuCheck => s.mcu.McuLooked?
    case McuCopyByte => s.mcu.McuCopying? && |s.mcu.copied| < s.loopSize
    case McuExit => s.mcu.McuLeaving? || (s.mcu.McuCopying? && |s.mcu.copied| == s.loopSize)
    case McuAdvance => s.mcu.McuFreed?
  }

  function Apply(s: State, step: Step): State
    requires InRange(s) && Enabled(s, step)
  {
    match step
    case CpBegin =>
      var tab := BeginPass(s.tab, s.loopSize);
      s.(tab := tab, cp := CpPass(tab.len[tab.cpIdx], []),
         passes := if s.tab.st[s.tab.cpIdx] == Idle then [] else s.passes)
    case CpWrite(data) =>
      var next, produced := s.tab.cpIdx + 1, s.cp.produced + data;
      s.(out := Stored(s.out, WriteAt(s), data), cp := s.cp.(produced := produced),
         spill := if next < SLOT_CNT && Overruns(s, produced)
                  then s.spill[next := Overlaid(Overrun(s, produced), s.spill[next])] else s.spill)
    case CpEnd(retry) =>
      var n := |s.cp.produced|;
      var tab := EndPass(s.tab, s.loopSize, n, retry);
      if retry then s.(tab := tab, cp := CpIdle, passes := s.passes + [s.cp.produced])
      else
        s.(tab := tab, cp := CpRetired, spill := s.spill[s.tab.cpIdx := []],
           finished := s.finished + [Finish(s.tab.cpIdx, n == s.loopSize, s.cp.base, s.cp.produced, s.passes)])
    case CpAdvance => s.(tab := s.tab.(cpIdx := NextIdx(s.tab.cpIdx)), cp := CpIdle)
    case McuLook => s.(mcu := McuLooked(s.tab.st[s.tab.mcuIdx] == Done))
    case McuCheck =>
      if s.mcu.sawDone && s.tab.len[s.tab.mcuIdx] == s.loopSize then s.(mcu := McuCopying([], []))
      else s.(mcu := McuLeaving(s.mcu.sawDone))
    case McuCopyByte =>
      var i, x := s.tab.mcuIdx, |s.mcu.copied|;
      s.(mcu := McuCopying(s.mcu.copied + [Piece(s.out, i, s.loopSize)[x]],
                           s.mcu.foreign + [if x < |s.spill[i]| then Some(s.spill[i][x]) else None]))
    case McuExit =>
      if Finished(s.tab.st[s.tab.mcuIdx])
      then s.(tab := s.tab.(st := s.tab.st[s.tab.mcuIdx := Idle]), mcu := McuFreed,
              retired := s.retired + [Retired(s)])
      else s.(mcu := McuIdle)
    case McuAdvance => s.(tab := s.tab.(mcuIdx := NextIdx(s.tab.mcuIdx)), mcu := McuIdle)
  }

  /** What is noted down when a slot is freed. */
  function Retired(s: State): Retire {
    match s.mcu
    case McuCopying(copied, foreign) => Retire(s.tab.mcuIdx, true, true, copied, foreign)
    case McuLeaving(sawDone) => Retire(s.tab.mcuIdx, sawDone, false, [], [])
    case _ => Retire(s.tab.mcuIdx, false, false, [], [])
  }

  predicate StepsTo(s: State, step: Step, t: State) {
    InRange(s) && Enabled(s, step) && t == Apply(s, step)
  }

  ghost predicate Next(s: State, t: State) {
    exists step :: StepsTo(s, step, t)
  }

  ghost predicate Run(run: seq<State>) {
    run != [] && Init(run[0]) && forall i :: 0 <= i < |run| - 1 ==> Next(run[i], run[i + 1])
  }

  /** Where the next pass has to write: behind what the passes since the claim have produced,
      or at the start again when that fills the slot. */
  function ResumeAt(passes: seq<seq<byte>>, loopSize: nat): nat {
    var held := Held(passes, loopSize);
    if held < loopSize then held else 0
  }

  function Held(passes: seq<seq<byte>>, loopSize: nat): nat
    decreases |passes|, 0
  {
    if passes == [] then 0
    else
      var before := Held(passes[..|passes| - 1], loopSize);
      (if before < loopSize then before else 0) + |passes[|passes| - 1]|
  }

  /** Where each core's index will be once a move it still owes is made. */
  function CpNext(s: State): (i: nat)
    requires ValidTable(s.tab)
    ensures i < SLOT_CNT
  {
    if s.cp.CpRetired? then NextIdx(s.tab.cpIdx) else s.tab.cpIdx
  }

  function McuNext(s: State): (i: nat)
    requires ValidTable(s.tab)
    ensures i < SLOT_CNT
  {
    if s.mcu.McuFreed? then NextIdx(s.tab.mcuIdx) else s.tab.mcuIdx
  }

  /** How far slot i is ahead of slot m in cyclic order. */
  function Ahead(i: nat, m: nat): (d: nat)
    requires i < SLOT_CNT && m < SLOT_CNT
    ensures d < SLOT_CNT
  {
    if i >= m then i - m else i + SLOT_CNT - m
  }

  /** Finished and not yet freed. */
  function Count(s: State): int { |s.finished| - |s.retired| }

  predicate Indices(s: State)
    requires InRange(s)
  {
    && 0 <= Count(s) <= SLOT_CNT
    && (if Count(s) == SLOT_CNT then CpNext(s) == McuNext(s) else Ahead(CpNext(s), McuNext(s)) == Count(s))
    && (s.cp.CpPass? ==> Count(s) < SLOT_CNT)
  }

  /** A slot within Count places of the MCU's index holds the finish of that order; any
      other one is idle, or in work if the CP is on it. */
  predicate SlotOk(s: State, i: nat)
    requires InRange(s) && i < SLOT_CNT
  {
    var d := Ahead(i, McuNext(s));
    if d < Count(s) then
      var f := s.finished[|s.retired| + d];
      && f.slot == i && s.tab.st[i] == (if f.done then Done else Failed)
      && s.tab.len[i] == f.base + |f.pcm| && f.done == (|f.pcm| == s.loopSize)
      && (f.done && f.base == 0 ==> Piece(s.out, i, s.loopSize) == Overlaid(s.spill[i], f.pcm))
    else s.tab.st[i] == Idle || (s.tab.st[i] == Working && i == s.tab.cpIdx && !s.cp.CpRetired?)
  }

  /** A slot in work holds what the passes since its claim have left. */
  predicate PassesOk(s: State)
    requires InRange(s)
  {
    var i := s.tab.cpIdx;
    && (s.tab.st[i] == Working && s.cp == CpIdle ==> s.tab.len[i] == Held(s.passes, s.loopSize))
    && (s.cp.CpPass? ==> s.cp.base == ResumeAt(s.passes, s.loopSize))
    && forall j :: 0 <= j < |s.finished| ==> s.finished[j].base == ResumeAt(s.finished[j].passes, s.loopSize)
  }

  predicate CpOk(s: State)
    requires InRange(s)
  {
    s.cp.CpPass? ==>
      && s.tab.st[s.tab.cpIdx] == Working && s.tab.len[s.tab.cpIdx] == s.cp.base
      && |s.cp.produced| <= s.loopSize
      && (s.tab.cpIdx + 1 < SLOT_CNT && Overruns(s, s.cp.produced) ==>
            Overrun(s, s.cp.produced) <= s.spill[s.tab.cpIdx + 1])
      && (s.cp.base == 0 ==> Piece(s.out, s.tab.cpIdx, s.loopSize)[..|s.cp.produced|] == s.cp.produced)
  }

  predicate McuOk(s: State)
    requires InRange(s)
  {
    match s.mcu
    case McuIdle => true
    case McuFreed => true
    case McuLooked(sawDone) => sawDone ==> Count(s) > 0 && s.finished[|s.retired|].done
    case McuCopying(copied, foreign) =>
      && Count(s) > 0 && s.finished[|s.retired|].done && s.finished[|s.retired|].base == 0
      && |copied| <= s.loopSize && CopyOf(s.finished[|s.retired|].pcm, copied, foreign)
    case McuLeaving(sawDone) =>
      sawDone ==> Count(s) > 0 && s.finished[|s.retired|].done && s.finished[|s.retired|].base != 0
  }

  /** Copied bytes are those of pcm but for the foreign ones. */
  predicate CopyOf(pcm: seq<byte>, copied: seq<byte>, foreign: seq<Option<byte>>) {
    && |copied| == |foreign| <= |pcm|
    && forall x :: 0 <= x < |copied| ==> copied[x] == if foreign[x].Some? then foreign[x].value else pcm[x]
  }

  /** What the freeing of the j-th finish must have been. */
  predicate RetireOk(f: Finish, r: Retire) {
    && r.slot == f.slot
    && (r.sawDone ==> f.done)
    && (r.didCopy <==> r.sawDone && f.base == 0)
    && (if r.didCopy then |r.pcm| == |f.pcm| && CopyOf(f.pcm, r.pcm, r.foreign) else r.pcm == [])
  }

  ghost predicate LogOk(s: State) {
    && |s.retired| <= |s.finished|
    && forall j :: 0 <= j < |s.retired| ==> RetireOk(s.finished[j], s.retired[j])
  }

  ghost predicate Inv(s: State) {
    && InRange(s) && Indices(s) && CpOk(s) && McuOk(s) && LogOk(s)
    && (forall i :: 0 <= i < SLOT_CNT ==> |s.spill[i]| < s.loopSize)
    && forall i :: 0 <= i < SLOT_CNT ==> SlotOk(s, i)
  }

  lemma InitInv(s: State)
    requires Init(s)
    ensures Inv(s)
  {
    forall i | 0 <= i < SLOT_CNT ensures SlotOk(s, i) {
      if i >= s.first {
        assert s.finished[i - s.first] == Finish(i, true, 0, Piece(s.out, i, s.loopSize), []);
      }
    }
  }

  /** A write leaves the bytes of every slot alone but its own and, when the pass runs past
      the end of its slot, the next one. */
  lemma WriteTouches(s: State, data: seq<byte>, i: nat)
    requires InRange(s) && Enabled(s, CpWrite(data))
    requires i < SLOT_CNT && i != s.tab.cpIdx && (i == s.tab.cpIdx + 1 ==> !Overruns(s, s.cp.produced + data))
    ensures Piece(Apply(s, CpWrite(data)).out, i, s.loopSize) == Piece(s.out, i, s.loopSize)
  {
    var t, o := Apply(s, CpWrite(data)), SlotAt(i, s.loopSize);
    hide Overlaid;
    forall k | 0 <= k < s.loopSize ensures Piece(t.out, i, s.loopSize)[k] == Piece(s.out, i, s.loopSize)[k] {
      assert t.out[o + k] == s.out[o + k];
    }
  }

  /** There it lays all that it has produced beyond its slot over what was there. */
  lemma WriteOverlays(s: State, data: seq<byte>)
    requires InRange(s) && Enabled(s, CpWrite(data))
    requires s.tab.cpIdx + 1 < SLOT_CNT && Overruns(s, s.cp.produced + data)
    requires Overruns(s, s.cp.produced) ==>
               Overrun(s, s.cp.produced) <= Piece(s.out, s.tab.cpIdx + 1, s.loopSize)
    ensures var i := s.tab.cpIdx + 1;
            Piece(Apply(s, CpWrite(data)).out, i, s.loopSize) ==
            Overlaid(Overrun(s, s.cp.produced + data), Piece(s.out, i, s.loopSize))
  {
    var i, p, at := s.tab.cpIdx + 1, s.cp.produced + data, WriteAt(s);
    var o, top, was := SlotAt(i, s.loopSize), Overrun(s, p), Piece(s.out, i, s.loopSize);
    var out := Stored(s.out, at, data);
    forall k | 0 <= k < s.loopSize ensures Piece(out, i, s.loopSize)[k] == Overlaid(top, was)[k] {
      assert Piece(out, i, s.loopSize)[k] == out[o + k] && was[k] == s.out[o + k];
      if k < |top| {
        assert top[k] == p[s.loopSize - s.cp.base + k];
        if o + k < at {
          assert Overrun(s, s.cp.produced)[k] == s.cp.produced[s.loopSize - s.cp.base + k];
        }
      }
    }
  }

  lemma OverlayTwice(a: seq<byte>, b: seq<byte>, c: seq<byte>)
    requires |a| <= |c| && |b| <= |c|
    ensures Overlaid(a, Overlaid(b, c)) == Overlaid(Overlaid(a, b), c)
  {
  }

  /** A pass that starts at the beginning of its slot stays inside it, whatever passes were
      resumed before; what it has produced is what its slot holds. */
  lemma WriteStaysInSlot(s: State, data: seq<byte>)
    requires Inv(s) && Enabled(s, CpWrite(data)) && s.cp.base == 0
    ensures var t := Apply(s, CpWrite(data));
            && t.spill == s.spill
            && Piece(t.out, s.tab.cpIdx, s.loopSize)[..|t.cp.produced|] == t.cp.produced
            && forall i :: 0 <= i < SLOT_CNT && i != s.tab.cpIdx ==>
                  Piece(t.out, i, s.loopSize) == Piece(s.out, i, s.loopSize)
  {
    var t := Apply(s, CpWrite(data));
    var c := s.tab.cpIdx;
    var o := SlotAt(c, s.loopSize);
    hide Overlaid;
    forall k | 0 <= k < |t.cp.produced| ensures Piece(t.out, c, s.loopSize)[k] == t.cp.produced[k] {
      if k < |s.cp.produced| {
        assert Piece(s.out, c, s.loopSize)[..|s.cp.produced|][k] == s.cp.produced[k];
        assert s.out[o + k] == t.out[o + k];
      }
    }
    forall i | 0 <= i < SLOT_CNT && i != c ensures Piece(t.out, i, s.loopSize) == Piece(s.out, i, s.loopSize) {
      WriteTouches(s, data, i);
    }
  }

  lemma EndKeepsSlots(s: State, retry: bool)
    requires Inv(s) && Enabled(s, CpEnd(retry))
    ensures forall i :: 0 <= i < SLOT_CNT ==> SlotOk(Apply(s, CpEnd(retry)), i)
  {
    forall i | 0 <= i < SLOT_CNT ensures SlotOk(Apply(s, CpEnd(retry)), i) { EndKeepsSlot(s, retry, i); }
  }

  lemma EndKeepsSlot(s: State, retry: bool, i: nat)
    requires InRange(s) && Enabled(s, CpEnd(retry)) && i < SLOT_CNT && Indices(s) && CpOk(s) && SlotOk(s, i)
    ensures SlotOk(Apply(s, CpEnd(retry)), i)
  {
    var p := Piece(s.out, s.tab.cpIdx, s.loopSize);
    assert |s.cp.produced| == s.loopSize ==> p[..s.loopSize] == p == Overlaid([], p);
    hide Piece, Overlaid, Overrun;
  }

  lemma WriteKeepsSlot(s: State, data: seq<byte>, i: nat)
    requires Inv(s) && Enabled(s, CpWrite(data)) && i < SLOT_CNT
    ensures SlotOk(Apply(s, CpWrite(data)), i)
  {
    if i == s.tab.cpIdx + 1 && Overruns(s, s.cp.produced + data) {
      SpillKeepsSlot(s, data);
    } else {
      if i != s.tab.cpIdx { WriteTouches(s, data, i); }
      hide Piece, Stored, Overlaid;
      assert SlotOk(s, i);
    }
  }

  lemma SpillKeepsSlot(s: State, data: seq<byte>)
    requires Inv(s) && Enabled(s, CpWrite(data))
    requires s.tab.cpIdx + 1 < SLOT_CNT && Overruns(s, s.cp.produced + data)
    ensures SlotOk(Apply(s, CpWrite(data)), s.tab.cpIdx + 1)
  {
    var i := s.tab.cpIdx + 1;
    var d := Ahead(i, McuNext(s));
    assert SlotOk(s, i);
    if d < Count(s) && s.finished[|s.retired| + d].done && s.finished[|s.retired| + d].base == 0 {
      SpillOverlays(s, data, s.finished[|s.retired| + d].pcm);
    }
    hide Piece, Stored, Overlaid, Overrun;
  }

  lemma SpillOverlays(s: State, data: seq<byte>, pcm: seq<byte>)
    requires InRange(s) && Enabled(s, CpWrite(data)) && |pcm| == s.loopSize
    requires s.tab.cpIdx + 1 < SLOT_CNT && Overruns(s, s.cp.produced + data)
    requires var i := s.tab.cpIdx + 1;
             && |s.spill[i]| <= |pcm| && Piece(s.out, i, s.loopSize) == Overlaid(s.spill[i], pcm)
             && (Overruns(s, s.cp.produced) ==> Overrun(s, s.cp.produced) <= s.spill[i])
    ensures var t, i := Apply(s, CpWrite(data)), s.tab.cpIdx + 1;
            Piece(t.out, i, s.loopSize) == Overlaid(t.spill[i], pcm)
  {
    var p, i := s.cp.produced + data, s.tab.cpIdx + 1;
    assert s.spill[i] <= Piece(s.out, i, s.loopSize);
    WriteOverlays(s, data);
    OverlayTwice(Overrun(s, p), s.spill[i], pcm);
    hide Piece, Stored, Overlaid;
  }

  lemma WriteKeepsInv(s: State, data: seq<byte>)
    requires Inv(s) && Enabled(s, CpWrite(data))
    ensures Inv(Apply(s, CpWrite(data)))
  {
    var t := Apply(s, CpWrite(data));
    if s.cp.base == 0 { WriteStaysInSlot(s, data); }
    forall i | 0 <= i < SLOT_CNT ensures SlotOk(t, i) {
      WriteKeepsSlot(s, data, i);
    }
    hide Piece, Stored, SlotOk;
  }

  lemma BeginKeepsInv(s: State)
    requires Inv(s) && Enabled(s, CpBegin)
    ensures Inv(Apply(s, CpBegin))
  {
    assert SlotOk(s, s.tab.cpIdx);
    forall i | 0 <= i < SLOT_CNT ensures SlotOk(Apply(s, CpBegin), i) { BeginKeepsSlot(s, i); }
    hide SlotOk, Piece, Overlaid, LogOk;
  }

  lemma BeginKeepsSlot(s: State, i: nat)
    requires InRange(s) && Enabled(s, CpBegin) && i < SLOT_CNT && Indices(s) && SlotOk(s, i)
    ensures SlotOk(Apply(s, CpBegin), i)
  {
    hide Piece, Overlaid;
  }

  lemma CpStepKeepsInv(s: State, step: Step)
    requires Inv(s) && Enabled(s, step) && (step.CpBegin? || step.CpWrite? || step.CpEnd? || step.CpAdvance?)
    ensures Inv(Apply(s, step))
  {
    match step
    case CpBegin => BeginKeepsInv(s);
    case CpWrite(data) => WriteKeepsInv(s, data);
    case CpEnd(retry) => EndKeepsSlots(s, retry);
    case CpAdvance => SlotsStayOk(s, step);
  }

  lemma SlotsStayOk(s: State, step: Step)
    requires Inv(s) && Enabled(s, step)
    requires step.CpAdvance? || step.McuLook? || step.McuCheck? || step.McuCopyByte? || step.McuAdvance?
    ensures forall i :: 0 <= i < SLOT_CNT ==> SlotOk(Apply(s, step), i)
  {
    forall i | 0 <= i < SLOT_CNT ensures SlotOk(Apply(s, step), i) { SlotStaysOk(s, step, i); }
  }

  lemma SlotStaysOk(s: State, step: Step, i: nat)
    requires InRange(s) && Enabled(s, step) && i < SLOT_CNT && Indices(s) && SlotOk(s, i)
    requires step.CpAdvance? || step.McuLook? || step.McuCheck? || step.McuCopyByte? || step.McuAdvance?
    ensures SlotOk(Apply(s, step), i)
  {
    hide Piece, Overlaid;
    var t := Apply(s, step);
    assert McuNext(t) == McuNext(s) && CpNext(t) == CpNext(s) && Count(t) == Count(s);
  }

  lemma LookKeepsInv(s: State)
    requires Inv(s) && Enabled(s, McuLook)
    ensures Inv(Apply(s, McuLook))
  {
    assert SlotOk(s, s.tab.mcuIdx);
    SlotsStayOk(s, McuLook);
    hide SlotOk, Piece, Overlaid;
  }

  lemma CheckKeepsInv(s: State)
    requires Inv(s) && Enabled(s, McuCheck)
    ensures Inv(Apply(s, McuCheck))
  {
    assert SlotOk(s, s.tab.mcuIdx);
    SlotsStayOk(s, McuCheck);
    hide SlotOk, Piece, Overlaid;
  }

  lemma CopyByteKeepsInv(s: State)
    requires Inv(s) && Enabled(s, McuCopyByte)
    ensures Inv(Apply(s, McuCopyByte))
  {
    assert SlotOk(s, s.tab.mcuIdx);
    SlotsStayOk(s, McuCopyByte);
    hide SlotOk, Piece;
  }

  lemma ExitKeepsInv(s: State)
    requires Inv(s) && Enabled(s, McuExit)
    ensures Inv(Apply(s, McuExit))
  {
    assert SlotOk(s, s.tab.mcuIdx);
    ExitKeepsSlots(s);
    ExitKeepsLog(s);
    hide SlotOk, Piece, CopyOf, Overlaid, LogOk, Retired;
  }

  lemma ExitKeepsLog(s: State)
    requires Inv(s) && Enabled(s, McuExit)
    ensures LogOk(Apply(s, McuExit))
  {
    assert SlotOk(s, s.tab.mcuIdx);
    hide SlotOk, Piece, CopyOf, Overlaid;
    if Finished(s.tab.st[s.tab.mcuIdx]) {
      assert RetireOk(s.finished[|s.retired|], Retired(s));
      hide RetireOk, Retired;
    }
  }

  lemma McuStepKeepsInv(s: State, step: Step)
    requires Inv(s) && Enabled(s, step)
    requires step.McuLook? || step.McuCheck? || step.McuCopyByte? || step.McuExit? || step.McuAdvance?
    ensures Inv(Apply(s, step))
  {
    match step
    case McuLook => LookKeepsInv(s);
    case McuCheck => CheckKeepsInv(s);
    case McuCopyByte => CopyByteKeepsInv(s);
    case McuExit => ExitKeepsInv(s);
    case McuAdvance =>
      SlotsStayOk(s, step);
      hide SlotOk;
  }

  lemma ExitKeepsSlots(s: State)
    requires Inv(s) && Enabled(s, McuExit)
    ensures forall i :: 0 <= i < SLOT_CNT ==> SlotOk(Apply(s, McuExit), i)
  {
    forall i | 0 <= i < SLOT_CNT ensures SlotOk(Apply(s, McuExit), i) { ExitKeepsSlot(s, i); }
  }

  lemma ExitKeepsSlot(s: State, i: nat)
    requires InRange(s) && Enabled(s, McuExit) && i < SLOT_CNT && Indices(s)
    requires SlotOk(s, i) && SlotOk(s, s.tab.mcuIdx)
    ensures SlotOk(Apply(s, McuExit), i)
  {
    hide Piece, Overlaid, Retired;
  }

  lemma BeginKeepsPasses(s: State)
    requires Inv(s) && PassesOk(s) && Enabled(s, CpBegin)
    ensures PassesOk(Apply(s, CpBegin))
  {
    hide SlotOk, LogOk, McuOk;
  }

  lemma EndKeepsPasses(s: State, retry: bool)
    requires Inv(s) && PassesOk(s) && Enabled(s, CpEnd(retry))
    ensures PassesOk(Apply(s, CpEnd(retry)))
  {
    hide SlotOk, LogOk, McuOk, Piece, Overlaid, Overrun;
    if retry {
      OnePassMore(s.passes, s.cp.produced, s.loopSize);
    }
    hide Held;
  }

  lemma OnePassMore(passes: seq<seq<byte>>, p: seq<byte>, loopSize: nat)
    ensures Held(passes + [p], loopSize) == ResumeAt(passes, loopSize) + |p|
  {
    assert (passes + [p])[..|passes|] == passes;
  }

  lemma OtherKeepsPasses(s: State, step: Step)
    requires Inv(s) && PassesOk(s) && Enabled(s, step) && !step.CpBegin? && !step.CpEnd?
    ensures PassesOk(Apply(s, step))
  {
    assert SlotOk(s, CpNext(s));
    hide LogOk, Piece, Overlaid, Overrun, Stored, Held, ResumeAt;
  }

  lemma StepKeepsPasses(s: State, step: Step)
    requires Inv(s) && PassesOk(s) && Enabled(s, step)
    ensures PassesOk(Apply(s, step))
  {
    match step
    case CpBegin => BeginKeepsPasses(s);
    case CpEnd(retry) => EndKeepsPasses(s, retry);
    case _ => OtherKeepsPasses(s, step);
  }

  lemma StepKeepsInv(s: State, step: Step)
    requires Inv(s) && Enabled(s, step)
    ensures Inv(Apply(s, step))
  {
    if step.CpBegin? || step.CpWrite? || step.CpEnd? || step.CpAdvance? {
      CpStepKeepsInv(s, step);
    } else {
      McuStepKeepsInv(s, step);
    }
  }

  lemma {:induction false} RunInv(run: seq<State>, k: nat)
    requires Run(run) && k < |run|
    ensures Inv(run[k]) && PassesOk(run[k])
  {
    if k == 0 {
      InitInv(run[0]);
    } else {
      RunInv(run, k - 1);
      var step :| StepsTo(run[k - 1], step, run[k]);
      StepKeepsInv(run[k - 1], step);
      StepKeepsPasses(run[k - 1], step);
    }
  }

  /** In every reachable state the finished slots are exactly the cyclic range from the
      MCU's index up to the CP's, all three when the indices meet on a finished slot. */
  lemma FinishedSlotsAreTheRange(run: seq<State>, k: nat, i: nat)
    requires Run(run) && k < |run| && i < SLOT_CNT
    ensures InRange(run[k])
    ensures Finished(run[k].tab.st[i]) <==>
            if CpNext(run[k]) == McuNext(run[k]) then Finished(run[k].tab.st[McuNext(run[k])])
            else Ahead(i, McuNext(run[k])) < Ahead(CpNext(run[k]), McuNext(run[k]))
  {
    RunInv(run, k);
    assert SlotOk(run[k], i);
    assert SlotOk(run[k], McuNext(run[k]));
  }

  /** The CP changes only slots that are idle or in work, the MCU frees only finished ones. */
  lemma CoresKeepToTheirSlots(run: seq<State>, k: nat, step: Step, i: nat)
    requires Run(run) && k < |run| && i < SLOT_CNT
    requires InRange(run[k]) && Enabled(run[k], step)
    requires Apply(run[k], step).tab.st[i] != run[k].tab.st[i]
    ensures step.CpBegin? || step.CpEnd? ==> !Finished(run[k].tab.st[i])
    ensures !step.CpBegin? && !step.CpEnd? ==> step.McuExit? && Finished(run[k].tab.st[i])
  {
    RunInv(run, k);
  }

  /** In every reachable state a slot that the CP finished as done, in one pass from its
      start, holds the decoded PCM with the spill laid over its beginning. */
  lemma DoneSlotHolds(run: seq<State>, k: nat, d: nat)
    requires Run(run) && k < |run| && |run[k].retired| + d < |run[k].finished|
    requires var f := run[k].finished[|run[k].retired| + d]; f.done && f.base == 0
    ensures var f := run[k].finished[|run[k].retired| + d];
            && InRange(run[k]) && f.slot < SLOT_CNT && |f.pcm| == run[k].loopSize
            && Piece(run[k].out, f.slot, run[k].loopSize) == Overlaid(run[k].spill[f.slot], f.pcm)
  {
    RunInv(run, k);
    var m := McuNext(run[k]) + d;
    assert SlotOk(run[k], if m < SLOT_CNT then m else m - SLOT_CNT);
  }

  /** Where the spill comes from: only a pass that was resumed, and only into the slot behind
      its own; it is then all that this pass has produced beyond its slot, over what had been
      spilled before. Only the next finish of the slot clears it. */
  lemma OnlyResumedPassesSpill(run: seq<State>, k: nat, step: Step, i: nat)
    requires Run(run) && k < |run| && i < SLOT_CNT
    requires InRange(run[k]) && Enabled(run[k], step)
    ensures var s, t := run[k], Apply(run[k], step);
            t.spill[i] != s.spill[i] ==>
              || (step == CpEnd(false) && s.tab.cpIdx == i && t.spill[i] == [])
              || (&& step.CpWrite? && s.tab.cpIdx + 1 == i && s.cp.base > 0 && t.cp.CpPass?
                  && Overruns(t, t.cp.produced)
                  && t.spill[i] == Overlaid(Overrun(t, t.cp.produced), s.spill[i]))
  {
    RunInv(run, k);
  }

  /** Finished slots are freed once each and in the order in which the CP finished them.
      PCM is copied out of the j-th one exactly if the MCU's first look saw it done and it
      was filled from its start in its last pass (base is 0), so a slot that was resumed
      half filled is always thrown away. Each byte copied is the one that was decoded, unless
      the slot had been spilled over there when it was copied. */
  lemma SlotsRetireInOrder(run: seq<State>, k: nat, j: nat)
    requires Run(run) && k < |run| && j < |run[k].retired|
    ensures j < |run[k].finished| && run[k].retired[j].slot == run[k].finished[j].slot
    ensures run[k].retired[j].didCopy <==> run[k].retired[j].sawDone && run[k].finished[j].base == 0
    ensures run[k].finished[j].base == ResumeAt(run[k].finished[j].passes, run[k].loopSize)
    ensures var f, r := run[k].finished[j], run[k].retired[j];
            && (!r.didCopy ==> r.pcm == [])
            && (r.didCopy ==>
                  && f.done && |r.pcm| == |f.pcm| && CopyOf(f.pcm, r.pcm, r.foreign)
                  && (r.pcm == f.pcm <==>
                        forall x :: 0 <= x < |f.pcm| && r.foreign[x].Some? ==> r.foreign[x].value == f.pcm[x]))
  {
    RunInv(run, k);
    assert RetireOk(run[k].finished[j], run[k].retired[j]);
    SameIfForeignSame(run[k].finished[j].pcm, run[k].retired[j].pcm, run[k].retired[j].foreign);
  }

  lemma SameIfForeignSame(pcm: seq<byte>, copied: seq<byte>, foreign: seq<Option<byte>>)
    ensures CopyOf(pcm, copied, foreign) && |copied| == |pcm| ==>
              (copied == pcm <==>
                 forall x :: 0 <= x < |pcm| && foreign[x].Some? ==> foreign[x].value == pcm[x])
  {
  }

  /** Where a pass begins: at the start of a slot just claimed, and of any slot that no pass has
      been retried on; behind the bytes of the passes since the claim otherwise, or at the start
      again when these fill the slot. The same holds of the last pass of every finish, so a
      block decoded without a retry always counts as filled from its start. */
  lemma PassesBeginInPlace(run: seq<State>, k: nat, j: nat)
    requires Run(run) && k < |run|
    ensures InRange(run[k])
    ensures Enabled(run[k], CpBegin) ==>
              var s, t := run[k], Apply(run[k], CpBegin);
              && t.cp.base == ResumeAt(t.passes, s.loopSize)
              && t.passes == if s.tab.st[s.tab.cpIdx] == Idle then [] else s.passes
    ensures run[k].cp.CpPass? && run[k].passes == [] ==> run[k].cp.base == 0
    ensures j < |run[k].finished| ==>
              var f := run[k].finished[j];
              f.base == ResumeAt(f.passes, run[k].loopSize) && (f.passes == [] ==> f.base == 0)
  {
    RunInv(run, k);
    if Enabled(run[k], CpBegin) {
      BeginKeepsPasses(run[k]);
      BeginKeepsInv(run[k]);
    }
  }

  /** passes is a log: a claim empties it, a retry adds what its pass has produced, and nothing
      else changes it; a finish takes it over. */
  lemma PassesAreLogged(s: State, step: Step)
    requires InRange(s) && Enabled(s, step)
    ensures var t := Apply(s, step);
            && (t.passes != s.passes ==>
                  || (step.CpBegin? && s.tab.st[s.tab.cpIdx] == Idle && t.passes == [])
                  || (step == CpEnd(true) && t.passes == s.passes + [s.cp.produced]))
            && (step == CpEnd(false) ==>
                  && t.finished[..|s.finished|] == s.finished && |t.finished| == |s.finished| + 1
                  && t.finished[|s.finished|].passes == s.passes && t.finished[|s.finished|].pcm == s.cp.produced)
  {
  }

  /** What foreign records is the spill at the time of the copy. */
  lemma ForeignIsSpilled(run: seq<State>, k: nat)
    requires Run(run) && k < |run| && InRange(run[k]) && Enabled(run[k], McuCopyByte)
    ensures var s, t, x := run[k], Apply(run[k], McuCopyByte), |run[k].mcu.copied|;
            && |s.mcu.foreign| == x && t.mcu.copied[..x] == s.mcu.copied && t.mcu.foreign[..x] == s.mcu.foreign
            && t.mcu.copied[x] == s.out[SlotAt(s.tab.mcuIdx, s.loopSize) + x]
            && (t.mcu.foreign[x].Some? <==> x < |s.spill[s.tab.mcuIdx]|)
            && (t.mcu.foreign[x].Some? ==> t.mcu.copied[x] == t.mcu.foreign[x].value == s.spill[s.tab.mcuIdx][x])
  {
    RunInv(run, k);
    assert SlotOk(run[k], run[k].tab.mcuIdx);
  }

  /** The logs only grow, so the order above is the order of events. */
  lemma {:induction false} LogsOnlyGrow(run: seq<State>, i: nat, k: nat)
    requires Run(run) && i <= k < |run|
    ensures run[i].finished <= run[k].finished && run[i].retired <= run[k].retired
  {
    if i < k {
      LogsOnlyGrow(run, i, k - 1);
      var step :| StepsTo(run[k - 1], step, run[k]);
    }
  }

  /** The state after the MCU has copied what is left of its slot, with nothing in between. */
  function CopyRest(s: State): (t: State)
    requires InRange(s) && s.mcu.McuCopying? && |s.mcu.copied| <= s.loopSize
    ensures t.mcu.McuCopying? && t == s.(mcu := t.mcu) && |t.mcu.copied| == s.loopSize
    decreases s.loopSize - |s.mcu.copied|
  {
    if |s.mcu.copied| == s.loopSize then s else CopyRest(Apply(s, McuCopyByte))
  }

  lemma {:induction false} CopyRestIsPiece(s: State)
    requires InRange(s) && s.mcu.McuCopying? && |s.mcu.copied| <= s.loopSize
    ensures CopyRest(s).mcu.copied == s.mcu.copied + Piece(s.out, s.tab.mcuIdx, s.loopSize)[|s.mcu.copied|..]
    decreases s.loopSize - |s.mcu.copied|
  {
    if |s.mcu.copied| < s.loopSize {
      CopyRestIsPiece(Apply(s, McuCopyByte));
    }
  }

  /** The MCU's steps in a row are what Slots.McuProcess promises: the same table, PCM copied
      exactly when the call returns 0, and the same PCM. */
  lemma McuStepsAreProcess(s: State)
    requires InRange(s) && s.mcu == McuIdle
    ensures var s2 := Apply(Apply(s, McuLook), McuCheck);
            var s3 := if s2.mcu.McuCopying? then CopyRest(s2) else s2;
            var s4 := Apply(s3, McuExit);
            var t := if s4.mcu.McuFreed? then Apply(s4, McuAdvance) else s4;
            && t.tab == Freed(s.tab)
            && (s3.mcu.McuCopying? <==> ProcessRet(s.tab, s.loopSize) == 0)
            && (s3.mcu.McuCopying? ==> s3.mcu.copied == ProcessPcm(s.tab, s.out, s.loopSize, s.loopSize))
  {
    hide CopyRest;
    SlotFits(s.tab.mcuIdx, s.loopSize);
    var o := s.loopSize * s.tab.mcuIdx;
    assert SlotAt(s.tab.mcuIdx, s.loopSize) == o;
    assert s.out[o..][..s.loopSize] == s.out[o..o + s.loopSize];
    var s2 := Apply(Apply(s, McuLook), McuCheck);
    if s2.mcu.McuCopying? {
      CopyRestIsPiece(s2);
      assert Piece(s.out, s.tab.mcuIdx, s.loopSize)[0..] == Piece(s.out, s.tab.mcuIdx, s.loopSize);
    }
  }

  /** The condition on the first look is needed. In this run the CP finishes a complete slot
      between the two looks of the MCU: the slot is freed and its PCM is never copied. */
  lemma GoodSlotCanBeDropped() returns (run: seq<State>)
    ensures Run(run)
    ensures var s := run[|run| - 1];
            |s.retired| == 2 && |s.finished| == 2 && s.finished[1].done && s.finished[1].base == 0
            && !s.retired[1].didCopy
  {
    run := AfterFirstSlot();
    run := Extend(run, CpBegin);
    run := Extend(run, McuLook);
    run := Extend(run, CpWrite([7]));
    run := Extend(run, CpEnd(false));
    run := Extend(run, McuCheck);
    run := Extend(run, McuExit);
  }

  /** One-byte slots, the last of them primed. */
  function LastPrimed(st: SlotState, mcuIdx: nat, mcu: Mcu, retired: seq<Retire>): State {
    State(1, 2, Table([Idle, Idle, st], [0, 0, 1], 0, mcuIdx), [0, 0, 0], CpIdle, mcu,
          [Finish(2, true, 0, [0], [])], retired, [[], [], []], [])
  }

  lemma LastPrimedInit()
    ensures Init(LastPrimed(Done, 2, McuIdle, []))
  {
    var s0 := LastPrimed(Done, 2, McuIdle, []);
    assert s0.tab == Primed(2, 1) && Piece(s0.out, 2, 1) == [0];
  }

  lemma AfterFirstSlot() returns (run: seq<State>)
    ensures Run(run)
    ensures run[|run| - 1] == LastPrimed(Idle, 0, McuIdle, [Retire(2, true, true, [0], [None])])
  {
    LastPrimedInit();
    hide Init, Run, Piece;
    run := Extend([LastPrimed(Done, 2, McuIdle, [])], McuLook);
    run := Extend(run, McuCheck);
    assert run[|run| - 1] == LastPrimed(Done, 2, McuCopying([], []), []);
    FirstByte();
    run := Extend(run, McuCopyByte);
    assert run[|run| - 1] == LastPrimed(Done, 2, McuCopying([0], [None]), []);
    run := Extend(run, McuExit);
    assert [Idle, Idle, Done][2 := Idle] == [Idle, Idle, Idle];
    run := Extend(run, McuAdvance);
  }

  lemma FirstByte()
    ensures Apply(LastPrimed(Done, 2, McuCopying([], []), []), McuCopyByte).mcu == McuCopying([0], [None])
  {
    assert Piece([0, 0, 0], 2, 1)[0] == 0;
  }

  const ZEROS: seq<byte> := [0, 0, 0, 0, 0, 0, 0, 0, 0]

  /** Three-byte slots, the first one idle at first, the others primed; len is what the first
      one holds. */
  function TwoPrimed(st: SlotState, len: nat, out: seq<byte>, cp: Cp, mcu: Mcu, spill: seq<byte>): State {
    State(3, 1, Table([st, Done, Done], [len, 3, 3], 0, 1), out, cp, mcu,
          [Finish(1, true, 0, [0, 0, 0], []), Finish(2, true, 0, [0, 0, 0], [])], [],
          [[], spill, []], if len == 0 then [] else [[7, 7]])
  }

  lemma TwoPrimedInit()
    ensures Init(TwoPrimed(Idle, 0, ZEROS, CpIdle, McuIdle, []))
  {
    var s0 := TwoPrimed(Idle, 0, ZEROS, CpIdle, McuIdle, []);
    assert Piece(s0.out, 1, 3) == [0, 0, 0] && Piece(s0.out, 2, 3) == [0, 0, 0];
    assert s0.tab == Primed(1, 3);
  }

  /** The CP has filled two bytes of the first slot and is resumed on the third. */
  lemma Resumed() returns (run: seq<State>)
    ensures Run(run)
    ensures run[|run| - 1] == TwoPrimed(Working, 2, [7, 7, 0, 0, 0, 0, 0, 0, 0], CpPass(2, []), McuIdle, [])
  {
    TwoPrimedInit();
    hide Init, Run;
    run := Extend([TwoPrimed(Idle, 0, ZEROS, CpIdle, McuIdle, [])], CpBegin);
    assert [Idle, Done, Done][0 := Working] == [Working, Done, Done] && [0, 3, 3][0 := 0] == [0, 3, 3];
    assert run[|run| - 1] == TwoPrimed(Working, 0, ZEROS, CpPass(0, []), McuIdle, []);
    run := Extend(run, CpWrite([7, 7]));
    assert Stored(ZEROS, 0, [7, 7]) == [7, 7, 0, 0, 0, 0, 0, 0, 0] && [] + [7, 7] == [7, 7];
    run := Extend(run, CpEnd(true));
    assert [0, 3, 3][0 := 2] == [2, 3, 3];
    run := Extend(run, CpBegin);
  }

  /** The resumed pass writes on into the second slot, which is finished. */
  lemma Spill(before: seq<State>, mcu: Mcu) returns (run: seq<State>)
    requires Run(before)
    requires before[|before| - 1] == TwoPrimed(Working, 2, [7, 7, 0, 0, 0, 0, 0, 0, 0], CpPass(2, []), mcu, [])
    ensures Run(run)
    ensures run[|run| - 1] ==
            TwoPrimed(Working, 2, [7, 7, 6, 8, 9, 0, 0, 0, 0], CpPass(2, [6, 8, 9]), mcu, [8, 9])
  {
    run := Extend(before, CpWrite([6, 8, 9]));
    assert Stored([7, 7, 0, 0, 0, 0, 0, 0, 0], 2, [6, 8, 9]) == [7, 7, 6, 8, 9, 0, 0, 0, 0];
    assert [] + [6, 8, 9] == [6, 8, 9] && [6, 8, 9][1..] == [8, 9] && Overlaid([8, 9], []) == [8, 9];
    assert [[], [], []][1 := [8, 9]] == [[], [8, 9], []];
  }

  /** The MCU's next byte out of the second slot. */
  lemma CopyOne(before: seq<State>, s: State, b: byte, over: Option<byte>) returns (run: seq<State>)
    requires Run(before) && before[|before| - 1] == s && InRange(s) && Enabled(s, McuCopyByte)
    requires s.tab.mcuIdx == 1 && s.loopSize == 3
    requires var x := |s.mcu.copied|;
             b == s.out[3 + x] && over == if x < |s.spill[1]| then Some(s.spill[1][x]) else None
    ensures Run(run) && run[|run| - 1] == s.(mcu := McuCopying(s.mcu.copied + [b], s.mcu.foreign + [over]))
  {
    run := Extend(before, McuCopyByte);
    assert Piece(s.out, 1, 3)[|s.mcu.copied|] == b;
  }

  /** A spilled slot is copied as it stands: the CP resumes its pass on the first slot and
      writes on into the second one, which is finished and waits for the MCU, and what is
      copied out of that is not what was decoded into it. */
  lemma ResumedPassCorruptsNextSlot() returns (run: seq<State>)
    ensures Run(run)
    ensures var s := run[|run| - 1];
            && |s.retired| == 1 && |s.finished| == 2 && s.finished[0] == Finish(1, true, 0, [0, 0, 0], [])
            && s.retired[0] == Retire(1, true, true, [8, 9, 0], [Some(8), Some(9), None])
  {
    run := Resumed();
    run := Spill(run, McuIdle);
    hide TwoPrimed, Overlaid, Stored;
    run := Extend(run, McuLook);
    run := Extend(run, McuCheck);
    run := CopyOne(run, run[|run| - 1], 8, Some(8));
    run := CopyOne(run, run[|run| - 1], 9, Some(9));
    run := CopyOne(run, run[|run| - 1], 0, None);
    assert [] + [8] + [9] + [0] == [8, 9, 0];
    run := Extend(run, McuExit);
  }

  /** And the spill may come while the MCU is copying: what it gets is then neither what was
      decoded nor what the slot holds afterwards. */
  lemma SpillDuringCopy() returns (run: seq<State>)
    ensures Run(run)
    ensures var s := run[|run| - 1];
            && |s.retired| == 1 && |s.finished| == 2 && s.finished[0] == Finish(1, true, 0, [0, 0, 0], [])
            && s.retired[0] == Retire(1, true, true, [0, 9, 0], [None, Some(9), None])
            && s.out == [7, 7, 6, 8, 9, 0, 0, 0, 0]
  {
    run := Resumed();
    hide Run, Init, Piece;
    run := Extend(run, McuLook);
    run := Extend(run, McuCheck);
    run := CopyOne(run, run[|run| - 1], 0, None);
    assert [] + [0] == [0] && [] + [Option<byte>.None] == [None];
    run := Spill(run, McuCopying([0], [None]));
    run := CopyOne(run, run[|run| - 1], 9, Some(9));
    run := CopyOne(run, run[|run| - 1], 0, None);
    assert [0] + [9] + [0] == [0, 9, 0];
    run := Extend(run, McuExit);
  }

  /** One more step at the end of a run. */
  lemma Extend(run: seq<State>, step: Step) returns (longer: seq<State>)
    requires Run(run) && InRange(run[|run| - 1]) && Enabled(run[|run| - 1], step)
    ensures Run(longer) && run <= longer && longer[|longer| - 1] == Apply(run[|run| - 1], step)
  {
    var s := run[|run| - 1];
    longer := run + [Apply(s, step)];
    assert StepsTo(s, step, Apply(s, step));
    forall i | 0 <= i < |longer| - 1 ensures Next(longer[i], longer[i + 1]) {
      assert i < |run| - 1 ==> Next(run[i], run[i + 1]);
    }
  }

  // ---------- Neither core is ever stuck ----------

  /** The step of the MCU that is due. */
  function McuDue(s: State): Step {
    match s.mcu
    case McuFreed => McuAdvance
    case McuIdle => McuLook
    case McuLooked(_) => McuCheck
    case McuCopying(copied, _) => if |copied| < s.loopSize then McuCopyByte else McuExit
    case McuLeaving(_) => McuExit
  }

  /** How far it is from its second look. */
  function McuRank(s: State): nat {
    match s.mcu
    case McuFreed => s.loopSize + 4
    case McuIdle => s.loopSize + 3
    case McuLooked(_) => s.loopSize + 2
    case McuCopying(copied, _) => if |copied| < s.loopSize then s.loopSize + 1 - |copied| else 1
    case McuLeaving(_) => 0
  }

  lemma McuGetsOn(s: State)
    requires Inv(s) && Count(s) > 0
    ensures InRange(s) && Enabled(s, McuDue(s))
    ensures var t := Apply(s, McuDue(s));
            && t.finished == s.finished
            && if McuDue(s) == McuExit then |t.retired| == |s.retired| + 1
               else t.retired == s.retired && McuRank(t) < McuRank(s)
  {
    InvShape(s);
    hide Inv, Piece, Retired;
  }

  lemma InvShape(s: State)
    requires Inv(s)
    ensures InRange(s) && (s.mcu.McuCopying? ==> |s.mcu.copied| <= s.loopSize)
    ensures Count(s) > 0 && !s.mcu.McuFreed? ==> Finished(s.tab.st[s.tab.mcuIdx])
    ensures Count(s) < SLOT_CNT && s.cp.CpIdle? ==> Enabled(s, CpBegin)
  {
    assert SlotOk(s, s.tab.mcuIdx) && SlotOk(s, s.tab.cpIdx);
    hide Piece, Overlaid;
  }

  /** From every reachable state with a finished slot, steps of the MCU alone free the next
      one, so the CP can never fill up the slots for good. */
  lemma {:induction false} NextSlotCanRetire(run: seq<State>) returns (longer: seq<State>)
    requires Run(run) && Count(run[|run| - 1]) > 0
    ensures Run(longer) && run <= longer
    ensures longer[|longer| - 1].finished == run[|run| - 1].finished
    ensures |longer[|longer| - 1].retired| == |run[|run| - 1].retired| + 1
    decreases McuRank(run[|run| - 1])
  {
    var s := run[|run| - 1];
    RunInv(run, |run| - 1);
    McuGetsOn(s);
    hide Run, Inv, Apply, Enabled, McuRank;
    longer := Extend(run, McuDue(s));
    if McuDue(s) != McuExit {
      longer := NextSlotCanRetire(longer);
    }
  }

  /** From every reachable state with a slot to spare, steps of the CP alone finish another
      one; begun anew, it holds whatever block the decoder produces. */
  lemma NextSlotCanFinish(run: seq<State>, pcm: seq<byte>) returns (longer: seq<State>)
    requires Run(run) && Count(run[|run| - 1]) < SLOT_CNT && |pcm| == run[|run| - 1].loopSize
    ensures Run(longer) && run <= longer
    ensures var s, t := run[|run| - 1], longer[|longer| - 1];
            && t.retired == s.retired && |t.finished| == |s.finished| + 1 && t.finished[..|s.finished|] == s.finished
            && (!s.cp.CpPass? ==> t.finished[|s.finished|].done && t.finished[|s.finished|].pcm == pcm)
  {
    assert run != [];
    hide Run, Inv, PassesOk, Piece, Stored, Overlaid, EndPass;
    RunInv(run, |run| - 1);
    InvShape(run[|run| - 1]);
    match run[|run| - 1].cp
    case CpPass(_, _) => longer := Extend(run, CpEnd(false));
    case CpIdle => longer := FinishBlock(run, pcm);
    case CpRetired =>
      longer := Extend(run, CpAdvance);
      RunInv(longer, |longer| - 1);
      InvShape(longer[|longer| - 1]);
      longer := FinishBlock(longer, pcm);
  }

  lemma FinishBlock(run: seq<State>, pcm: seq<byte>) returns (longer: seq<State>)
    requires Run(run) && InRange(run[|run| - 1]) && Enabled(run[|run| - 1], CpBegin)
    requires |pcm| == run[|run| - 1].loopSize
    ensures Run(longer) && run <= longer
    ensures var s, t := run[|run| - 1], longer[|longer| - 1];
            && t.retired == s.retired && |t.finished| == |s.finished| + 1 && t.finished[..|s.finished|] == s.finished
            && t.finished[|s.finished|].done && t.finished[|s.finished|].pcm == pcm
  {
    var s := run[|run| - 1];
    longer := Extend(run, CpBegin);
    var t := longer[|longer| - 1];
    assert t.cp.base < s.loopSize && t.cp.produced == [] && t.retired == s.retired && t.finished == s.finished;
    hide Run, BeginPass, EndPass, Piece, Stored, Overlaid, Overrun;
    assert [] + pcm == pcm;
    longer := Extend(longer, CpWrite(pcm));
    longer := Extend(longer, CpEnd(false));
  }
}
