/** The flash patch unit: comparators that replace a word of code by a word of RAM, the bitmap
    by which they are handed out, and the patching of a function by a branch. */
module CodePatch {
  import opened ThumbBranch

  datatype Kind = Code | Data | Func | Other

  /** FP_COMP: the low 29 bits of an address and the enable bit. */
  datatype Comparator = Off | On(addr: nat)

  /** Slots taken in the bitmap, comparators, and the words they replace with. */
  datatype Patches = Patches(taken: set<nat>, comp: seq<Comparator>, remap: seq<u32>)

  /** How many code and literal comparators the chip has; the identifiers are bytes. */
  datatype Chip = Chip(code: nat, lit: nat)

  const REGION := 0x2000_0000

  predicate ValidChip(c: Chip) { 0 < c.code && c.code + c.lit <= 64 }

  predicate ValidPatches(p: Patches, c: Chip) {
    && |p.comp| == |p.remap| == c.code + c.lit
    && forall i :: i in p.taken ==> i < c.code + c.lit
  }

  function FirstFree(taken: set<nat>, i: nat, end: nat): (r: nat)
    requires i <= end
    ensures i <= r <= end && (r < end ==> r !in taken)
    ensures forall k :: i <= k < r ==> k in taken
    decreases end - i
  {
    if i == end || i !in taken then i else FirstFree(taken, i + 1, end)
  }

  function Put(p: Patches, id: nat, addr: u32, data: u32): Patches
    requires id < |p.comp| == |p.remap|
  {
    Patches(p.taken + {id}, p.comp[id := On(addr % REGION)], p.remap[id := data])
  }

  function Packed(id: nat, idfunc: nat): int { (id + 1) % 256 + (idfunc + 1) % 256 * 256 }

  type memory = nat -> u32

  function Lower(w: u32): half { w % 0x1_0000 }

  function Upper(w: u32): half { w / 0x1_0000 }

  function Joined(lo: half, hi: half): u32 { (lo as int) + (hi as int) * 0x1_0000 }

  /** The words around an instruction at a halfword that is not word aligned. */
  function Straddle(w0: u32, w1: u32, ins: (half, half)): (u32, u32) {
    (Joined(Lower(w0), ins.0), Joined(ins.1, Upper(w1)))
  }

  /** The word an address lies in, and the one after it. */
  function WordOf(addr: u32): u32 { addr - addr % 4 }

  function NextWordOf(addr: u32): u32 { WordOf((addr + 4) % WIDTH) }

  /** Patching a function with slot id taken: a second slot is needed when its address is not
      word aligned. When there is none, the slot given back is the one probed last, not the
      one that had been taken. */
  function EnableFunc(p: Patches, c: Chip, id: nat, addr: u32, ins: (half, half), mem: memory): (r: (Patches, int))
    requires ValidPatches(p, c) && id < c.code
    ensures ValidPatches(r.0, c)
  {
    if addr / 2 % 2 == 0 then (Put(p, id, addr, Joined(ins.0, ins.1)), Packed(id, 255))
    else
      var idfunc := FirstFree(p.taken + {id}, id, c.code);
      if idfunc == c.code then (p.(taken := p.taken + {id} - {c.code - 1}), -3)
      else
        var words := Straddle(mem(WordOf(addr)), mem(NextWordOf(addr)), ins);
        (Put(Put(p, id, WordOf(addr), words.0), idfunc, NextWordOf(addr), words.1), Packed(id, idfunc))
  }

  /** patch_enable: the new state and the identifier, or an error. */
  function Enable(p: Patches, c: Chip, kind: Kind, addr: u32, data: u32, mem: memory): (r: (Patches, int))
    requires ValidChip(c) && ValidPatches(p, c)
    ensures ValidPatches(r.0, c)
  {
    if kind == Other then (p, -1)
    else
      var start, end := if kind == Data then c.code else 0, if kind == Data then c.code + c.lit else c.code;
      var id := FirstFree(p.taken, start, end);
      if id == end then (p, -2)
      else if kind == Func then EnableFunc(p, c, id, addr, PatchIns(addr, data), mem)
      else (Put(p, id, addr, data), Packed(id, 255))
  }

  /** Whether there are slots enough: two for a function that is not word aligned. */
  predicate HasRoom(p: Patches, c: Chip, kind: Kind, addr: u32) {
    kind != Other &&
    var start, end := if kind == Data then c.code else 0, if kind == Data then c.code + c.lit else c.code;
    var id := FirstFree(p.taken, start, end);
    id < end && (kind == Func && addr / 2 % 2 != 0 ==> FirstFree(p.taken + {id}, id, end) < end)
  }

  lemma EnableSucceedsIff(p: Patches, c: Chip, kind: Kind, addr: u32, data: u32, mem: memory)
    requires ValidChip(c) && ValidPatches(p, c)
    ensures Enable(p, c, kind, addr, data, mem).1 >= 0 <==> HasRoom(p, c, kind, addr)
  {
    hide PatchIns, Put, Straddle, Joined, WordOf, NextWordOf, FirstFree;
  }

  /** One half of patch_disable. The bit it clears is held in a byte, so only the slots whose
      number is below 8 modulo 32 are given back. */
  function Release(p: Patches, id: nat): Patches
    requires id < |p.comp|
  {
    Patches(if id % 32 < 8 then p.taken - {id} else p.taken, p.comp[id := Off], p.remap)
  }

  /** The slots an identifier names, 255 for none. */
  function Slots(patchId: int): (nat, nat) {
    ((patchId - 1) % 256, (patchId / 256 - 1) % 256)
  }

  /** patch_disable: the new state and the status. */
  function Disable(p: Patches, c: Chip, patchId: int): (r: (Patches, int))
    requires ValidChip(c) && ValidPatches(p, c)
    ensures ValidPatches(r.0, c)
  {
    var (id0, id1) := Slots(patchId);
    if id0 == 255 then (p, 0)
    else if id0 >= c.code + c.lit then (p, -1)
    else
      var q := Release(p, id0);
      if id1 == 255 then (q, 0)
      else if id1 >= c.code + c.lit then (q, -1)
      else (Release(q, id1), 0)
  }

  // ----- What the processor fetches -----

  predicate Matches(x: Comparator, a: nat) { x.On? && x.addr / 4 == a / 4 }

  /** The first code comparator that matches, or the number of them. */
  function Match(comp: seq<Comparator>, a: nat, i: nat, n: nat): (r: nat)
    requires i <= n <= |comp|
    ensures i <= r <= n && (r < n ==> Matches(comp[r], a)) && forall k :: i <= k < r ==> !Matches(comp[k], a)
    decreases n - i
  {
    if i == n || Matches(comp[i], a) then i else Match(comp, a, i + 1, n)
  }

  /** The halfword fetched at an even address of the code region. */
  function Fetch(p: Patches, c: Chip, mem: memory, h: nat): half
    requires ValidPatches(p, c) && h < REGION
  {
    var i := Match(p.comp, h, 0, c.code);
    var w := if i < c.code then p.remap[i] else mem(h - h % 4);
    if h / 2 % 2 == 0 then Lower(w) else Upper(w)
  }

  /** A slot that is not taken has its comparator switched off. */
  predicate Clean(p: Patches) {
    forall i: nat :: i < |p.comp| && i !in p.taken ==> p.comp[i] == Off
  }

  /** No code patch covers the word of h. */
  predicate Unpatched(p: Patches, c: Chip, h: nat)
    requires ValidPatches(p, c)
  {
    forall i :: 0 <= i < c.code ==> !Matches(p.comp[i], h)
  }

  /** What putting one comparator does to every fetch. */
  lemma FetchAfterPut(p: Patches, c: Chip, mem: memory, id: nat, a: u32, data: u32, h: nat)
    requires ValidPatches(p, c) && id < c.code && p.comp[id] == Off && a < REGION && h < REGION
    requires Unpatched(p, c, a)
    ensures var q := Put(p, id, a, data);
            ValidPatches(q, c) &&
            Fetch(q, c, mem, h) ==
              if h / 4 != a / 4 then Fetch(p, c, mem, h)
              else if h / 2 % 2 == 0 then Lower(data) else Upper(data)
    ensures var q := Put(p, id, a, data); h / 4 != a / 4 && Unpatched(p, c, h) ==> Unpatched(q, c, h)
  {
    var q := Put(p, id, a, data);
    assert a % REGION == a;
    if h / 4 != a / 4 {
      SameMatch(p.comp, q.comp, h, 0, c.code, id);
    } else {
      assert Matches(q.comp[id], h);
      forall i | 0 <= i < c.code && i != id ensures !Matches(q.comp[i], h) {
        assert !Matches(p.comp[i], a);
      }
    }
  }

  lemma {:induction false} SameMatch(comp: seq<Comparator>, comp': seq<Comparator>, h: nat, i: nat, n: nat, id: nat)
    requires i <= n <= |comp| == |comp'| && id < |comp|
    requires forall k :: 0 <= k < |comp| && k != id ==> comp[k] == comp'[k]
    requires !Matches(comp[id], h) && !Matches(comp'[id], h)
    ensures Match(comp, h, i, n) == Match(comp', h, i, n)
    decreases n - i
  {
    if i < n {
      SameMatch(comp, comp', h, i + 1, n, id);
    }
  }

  lemma Halves(lo: half, hi: half)
    ensures Lower(Joined(lo, hi)) == lo && Upper(Joined(lo, hi)) == hi
  {
  }

  /** A function patched: the two halfwords at its address become the branch, whether or not
      the address is word aligned, and no other halfword of the code changes. */
  lemma OnlyTheBranchChanges(p: Patches, c: Chip, a: u32, newFunc: u32, mem: memory, h: nat)
    requires ValidChip(c) && ValidPatches(p, c) && Clean(p)
    requires a % 2 == 0 && a + 8 <= REGION && Unpatched(p, c, a) && Unpatched(p, c, a + 2)
    requires HasRoom(p, c, Func, a)
    requires h % 2 == 0 && h < REGION
    ensures var ins := PatchIns(a, newFunc);
            Fetch(Enable(p, c, Func, a, newFunc, mem).0, c, mem, h) ==
              if h == a then ins.0 else if h == a + 2 then ins.1 else Fetch(p, c, mem, h)
  {
    var ins := PatchIns(a, newFunc);
    hide *;
    if a % 4 == 0 {
      var id := EnabledAligned(p, c, a, newFunc, mem);
      AlignedPut(p, c, mem, id, a, ins.0, ins.1, h);
    } else {
      var w := a - 2;
      UpperHalfword(a);
      var id, idfunc := EnabledStraddling(p, c, a, newFunc, mem);
      SameWord(a, w);
      SameUnpatched(p, c, a, w);
      StraddlePut(p, c, mem, id, idfunc, w, ins, h);
    }
  }

  lemma UpperHalfword(a: nat)
    requires a % 2 == 0 && a % 4 != 0
    ensures a >= 2 && a % 4 == 2 && (a - 2) % 4 == 0
  {
    var k := a / 2;
    assert a == 2 * k && k % 2 == 1;
    assert a - 2 == 4 * (k / 2);
  }

  lemma EnabledAligned(p: Patches, c: Chip, a: u32, newFunc: u32, mem: memory) returns (id: nat)
    requires ValidChip(c) && ValidPatches(p, c) && Clean(p) && a % 4 == 0
    requires HasRoom(p, c, Func, a)
    ensures id < c.code && ValidPatches(p, c) && p.comp[id] == Off
    ensures var ins := PatchIns(a, newFunc);
            Enable(p, c, Func, a, newFunc, mem).0 == Put(p, id, a, Joined(ins.0, ins.1))
  {
    AlignedHalf(a);
    hide PatchIns, Put, Joined, FirstFree, WordOf, NextWordOf, Straddle, Packed;
    id := FirstFree(p.taken, 0, c.code);
    assert id < |p.comp| && id !in p.taken;
  }

  lemma EnabledStraddling(p: Patches, c: Chip, a: u32, newFunc: u32, mem: memory) returns (id: nat, idfunc: nat)
    requires ValidChip(c) && ValidPatches(p, c) && Clean(p) && a % 4 == 2 && a + 8 <= REGION
    requires HasRoom(p, c, Func, a)
    ensures id < c.code && idfunc < c.code && id != idfunc && ValidPatches(p, c)
    ensures p.comp[id] == Off && p.comp[idfunc] == Off
    ensures var words := Straddle(mem(a - 2), mem(a + 2), PatchIns(a, newFunc));
            Enable(p, c, Func, a, newFunc, mem).0 == Put(Put(p, id, a - 2, words.0), idfunc, a + 2, words.1)
  {
    StraddledWords(a - 2);
    hide PatchIns, Put, Straddle, Joined, WordOf, NextWordOf, FirstFree, Packed;
    id := FirstFree(p.taken, 0, c.code);
    idfunc := FirstFree(p.taken + {id}, id, c.code);
    assert id < |p.comp| && id !in p.taken;
    assert idfunc < |p.comp| && idfunc !in p.taken;
  }

  lemma StraddledWords(w: u32)
    requires w % 4 == 0 && w + 10 <= REGION
    ensures (w + 2) / 2 % 2 == 1 && WordOf(w + 2) == w && NextWordOf(w + 2) == w + 4
  {
    var q := w / 4;
    assert w == 4 * q && (w + 2) / 2 == 2 * q + 1;
    assert (w + 2) % 4 == 2 && (w + 6) % 4 == 2 && (w + 6) % WIDTH == w + 6;
  }

  lemma AlignedHalf(a: nat)
    requires a % 4 == 0
    ensures a / 2 % 2 == 0
  {
    var q := a / 4;
    assert a / 2 == 2 * q;
  }

  /** The two halfwords of an aligned word. */
  lemma SameWord(h: nat, w: nat)
    requires h % 2 == 0 && w % 4 == 0
    ensures h / 4 == w / 4 <==> h == w || h == w + 2
    ensures h == w ==> h / 2 % 2 == 0 && h - h % 4 == w
    ensures h == w + 2 ==> h / 2 % 2 == 1 && h - h % 4 == w
  {
    var q, k := w / 4, h / 2;
    assert w == 4 * q && h == 2 * k;
    assert h / 4 == k / 2;
    if h == w {
      assert k == 2 * q;
    } else if h == w + 2 {
      assert k == 2 * q + 1;
    }
  }

  /** Replacing one aligned word replaces its two halfwords and nothing else. */
  lemma AlignedPut(p: Patches, c: Chip, mem: memory, id: nat, w: nat, lo: half, hi: half, h: nat)
    requires ValidPatches(p, c) && id < c.code && p.comp[id] == Off
    requires w % 4 == 0 && w + 4 <= REGION && Unpatched(p, c, w) && h % 2 == 0 && h < REGION
    ensures var q := Put(p, id, w, Joined(lo, hi));
            && ValidPatches(q, c)
            && Fetch(q, c, mem, h) == (if h == w then lo else if h == w + 2 then hi else Fetch(p, c, mem, h))
            && (h / 4 != w / 4 && Unpatched(p, c, h) ==> Unpatched(q, c, h))
  {
    Halves(lo, hi);
    SameWord(h, w);
    hide Fetch, Joined, Lower, Upper, Matches, Unpatched;
    FetchAfterPut(p, c, mem, id, w, Joined(lo, hi), h);
  }

  /** The same for two neighbouring words, of which the outer halfwords are put back. */
  lemma StraddlePut(p: Patches, c: Chip, mem: memory, id: nat, idfunc: nat, w: nat, ins: (half, half), h: nat)
    requires ValidPatches(p, c) && id < c.code && idfunc < c.code && id != idfunc
    requires p.comp[id] == Off && p.comp[idfunc] == Off
    requires w % 4 == 0 && w + 8 <= REGION && Unpatched(p, c, w) && Unpatched(p, c, w + 4)
    requires h % 2 == 0 && h < REGION
    ensures var words := Straddle(mem(w), mem(w + 4), ins);
            var q := Put(Put(p, id, w, words.0), idfunc, w + 4, words.1);
            ValidPatches(q, c) &&
            Fetch(q, c, mem, h) == if h == w + 2 then ins.0 else if h == w + 4 then ins.1 else Fetch(p, c, mem, h)
  {
    hide Fetch, Unpatched, Matches, Lower, Upper;
    var lo, hi := Lower(mem(w)), Upper(mem(w + 4));
    var q1 := Put(p, id, w, Joined(lo, ins.0));
    assert Straddle(mem(w), mem(w + 4), ins) == (Joined(lo, ins.0), Joined(ins.1, hi));
    assert |q1.comp| == |q1.remap| == c.code + c.lit && q1.comp[idfunc] == Off;
    UnpatchedWord(p, c, mem, w);
    UnpatchedWord(p, c, mem, w + 4);
    NextWord(w);
    hide *;
    AlignedPut(p, c, mem, id, w, lo, ins.0, h);
    AlignedPut(p, c, mem, id, w, lo, ins.0, w + 4);
    AlignedPut(q1, c, mem, idfunc, w + 4, ins.1, hi, h);
  }

  lemma UpperOf(w: nat)
    requires w % 4 == 0
    ensures w % 2 == 0 && (w + 2) % 2 == 0
  {
    var q := w / 4;
    TwiceIsEven(2 * q);
    TwiceIsEven(2 * q + 1);
  }

  lemma TwiceIsEven(k: int)
    ensures 2 * k % 2 == 0
  {
  }

  lemma NextWord(w: nat)
    requires w % 4 == 0
    ensures (w + 4) % 4 == 0 && (w + 4) % 2 == 0 && (w + 4) / 4 != w / 4
  {
    var q := w / 4;
    assert w == 4 * q && w + 4 == 4 * (q + 1) == 2 * (2 * (q + 1));
  }

  lemma UnpatchedWord(p: Patches, c: Chip, mem: memory, w: nat)
    requires ValidPatches(p, c) && w % 4 == 0 && w + 4 <= REGION && Unpatched(p, c, w)
    ensures Fetch(p, c, mem, w) == Lower(mem(w)) && Fetch(p, c, mem, w + 2) == Upper(mem(w))
  {
    UpperOf(w);
    hide *;
    SameWord(w, w);
    SameWord(w + 2, w);
    SameUnpatched(p, c, w, w + 2);
    UnpatchedFetch(p, c, mem, w);
    UnpatchedFetch(p, c, mem, w + 2);
  }

  lemma SameUnpatched(p: Patches, c: Chip, h: nat, h': nat)
    requires ValidPatches(p, c) && h / 4 == h' / 4
    ensures Unpatched(p, c, h) <==> Unpatched(p, c, h')
  {
    forall i | 0 <= i < c.code ensures Matches(p.comp[i], h) <==> Matches(p.comp[i], h') {
    }
  }

  lemma UnpatchedFetch(p: Patches, c: Chip, mem: memory, h: nat)
    requires ValidPatches(p, c) && h < REGION && Unpatched(p, c, h)
    ensures Fetch(p, c, mem, h) == if h / 2 % 2 == 0 then Lower(mem(h - h % 4)) else Upper(mem(h - h % 4))
  {
  }

  /** The patched function itself: fetching at its address gives a branch instruction, which
      goes to the new function exactly when that is in reach. */
  lemma PatchedFunctionJumps(p: Patches, c: Chip, a: u32, newFunc: u32, mem: memory)
    requires ValidChip(c) && ValidPatches(p, c) && Clean(p)
    requires a % 2 == 0 && a + 8 <= REGION && Unpatched(p, c, a) && Unpatched(p, c, a + 2)
    requires HasRoom(p, c, Func, a)
    ensures var q := Enable(p, c, Func, a, newFunc, mem).0;
            var h1, h2 := Fetch(q, c, mem, a), Fetch(q, c, mem, a + 2);
            && IsBranchT4(h1, h2)
            && (Target(a, h1, h2) == Even(newFunc) <==> InReach(Displacement(a, newFunc)))
  {
    hide Enable, Fetch, PatchIns, IsBranchT4, Target, InReach, Unpatched;
    OnlyTheBranchChanges(p, c, a, newFunc, mem, a);
    OnlyTheBranchChanges(p, c, a, newFunc, mem, a + 2);
    BranchReaches(a, newFunc);
  }

  /** When the second slot for a function cannot be had, the bitmap comes out unchanged only
      if the first one was the last of all; otherwise that one stays taken with nothing in it,
      and the last slot, which holds a patch, is marked as free. */
  lemma ThirdErrorLeaks(p: Patches, c: Chip, a: u32, newFunc: u32, mem: memory)
    requires ValidChip(c) && ValidPatches(p, c) && Enable(p, c, Func, a, newFunc, mem).1 == -3
    ensures var q, id := Enable(p, c, Func, a, newFunc, mem).0, FirstFree(p.taken, 0, c.code);
            && (q.taken == p.taken <==> id == c.code - 1)
            && (q.taken != p.taken ==>
                 && id !in p.taken && id in q.taken && q.comp[id] == p.comp[id]
                 && c.code - 1 in p.taken && c.code - 1 !in q.taken)
  {
    hide PatchIns, Straddle, Joined;
    var id := FirstFree(p.taken, 0, c.code);
    assert id < c.code;
    assert FirstFree(p.taken + {id}, id, c.code) == c.code;
    assert c.code - 1 in p.taken + {id};
  }

  /** Bookkeeping and comparators stay in step except in that one case. */
  lemma CleanIsKept(p: Patches, c: Chip, kind: Kind, a: u32, data: u32, mem: memory)
    requires ValidChip(c) && ValidPatches(p, c) && Clean(p)
    ensures var (q, r) := Enable(p, c, kind, a, data, mem);
            Clean(q) <==> (r == -3 && q.taken != p.taken ==> p.comp[c.code - 1] == Off)
  {
    hide PatchIns, Straddle, Joined;
    var (q, r) := Enable(p, c, kind, a, data, mem);
    if r == -3 {
      ThirdErrorLeaks(p, c, a, data, mem);
    }
  }

  lemma PackedSlots(id: nat, idfunc: nat)
    requires id < 255 && idfunc <= 255
    ensures Slots(Packed(id, idfunc)) == (id, idfunc)
  {
    var k := if idfunc == 255 then 0 else idfunc + 1;
    assert (id + 1) % 256 == id + 1 && (idfunc + 1) % 256 == k;
    assert Packed(id, idfunc) - 1 == id + 256 * k;
  }

  /** Disabling what was enabled switches exactly its comparators off again, and gives back
      its slots in the bitmap exactly when all their numbers are below 8 modulo 32. */
  lemma DisableUndoesEnable(p: Patches, c: Chip, kind: Kind, a: u32, data: u32, mem: memory)
    requires ValidChip(c) && ValidPatches(p, c) && Clean(p) && HasRoom(p, c, kind, a)
    ensures var (q, r) := Enable(p, c, kind, a, data, mem);
            var (t, ret) := Disable(q, c, r);
            var (id, idfunc) := Slots(r);
            && ret == 0 && t.comp == p.comp
            && (t.taken == p.taken <==> id % 32 < 8 && (idfunc == 255 || idfunc % 32 < 8))
  {
    hide PatchIns, Straddle, Joined, Put, Release;
    var start, end := if kind == Data then c.code else 0, if kind == Data then c.code + c.lit else c.code;
    var id := FirstFree(p.taken, start, end);
    var idfunc := FirstFree(p.taken + {id}, id, end);
    if kind == Func && a / 2 % 2 != 0 {
      var words := Straddle(mem(WordOf(a)), mem(NextWordOf(a)), PatchIns(a, data));
      DisableTwo(p, c, id, idfunc, WordOf(a), words.0, NextWordOf(a), words.1);
    } else {
      var ins := PatchIns(a, data);
      DisableOne(p, c, id, a, if kind == Func then Joined(ins.0, ins.1) else data);
    }
  }

  lemma DisableOne(p: Patches, c: Chip, id: nat, a: u32, data: u32)
    requires ValidChip(c) && ValidPatches(p, c) && id < c.code + c.lit && id !in p.taken && p.comp[id] == Off
    ensures var q := Put(p, id, a, data);
            && ValidPatches(q, c)
            && Slots(Packed(id, 255)) == (id, 255)
            && var (t, ret) := Disable(q, c, Packed(id, 255));
               ret == 0 && t.comp == p.comp && (t.taken == p.taken <==> id % 32 < 8)
  {
    hide Packed;
    PackedSlots(id, 255);
  }

  lemma DisableTwo(p: Patches, c: Chip, id: nat, id2: nat, a: u32, data: u32, a2: u32, data2: u32)
    requires ValidChip(c) && ValidPatches(p, c) && id < c.code + c.lit && id2 < c.code + c.lit && id != id2
    requires id !in p.taken && p.comp[id] == Off && id2 !in p.taken && p.comp[id2] == Off
    ensures var q := Put(Put(p, id, a, data), id2, a2, data2);
            && ValidPatches(q, c)
            && Slots(Packed(id, id2)) == (id, id2)
            && var (t, ret) := Disable(q, c, Packed(id, id2));
               ret == 0 && t.comp == p.comp && (t.taken == p.taken <==> id % 32 < 8 && id2 % 32 < 8)
  {
    hide Packed;
    PackedSlots(id, id2);
  }

  // ----- Data patches, plain code patches, and errors -----

  /** The word read as data at an address of the code region. */
  function LoadWord(p: Patches, c: Chip, mem: memory, a: nat): u32
    requires ValidPatches(p, c) && a < REGION
  {
    var i := Match(p.comp, a, c.code, c.code + c.lit);
    if i < c.code + c.lit then p.remap[i] else mem(a - a % 4)
  }

  /** No data patch covers the word of a. */
  predicate Unshadowed(p: Patches, c: Chip, a: nat)
    requires ValidPatches(p, c)
  {
    forall i :: c.code <= i < c.code + c.lit ==> !Matches(p.comp[i], a)
  }

  lemma FirstIsFree(p: Patches, c: Chip, start: nat, end: nat)
    requires ValidPatches(p, c) && Clean(p) && start <= end <= c.code + c.lit && FirstFree(p.taken, start, end) < end
    ensures p.comp[FirstFree(p.taken, start, end)] == Off
  {
    hide FirstFree;
    var id := FirstFree(p.taken, start, end);
    assert id < |p.comp| && id !in p.taken;
  }

  /** One literal comparator changes the reads of its own word; fetches go by the others. */
  lemma LoadAfterPut(p: Patches, c: Chip, mem: memory, id: nat, a: u32, data: u32, b: nat)
    requires ValidPatches(p, c) && c.code <= id < c.code + c.lit && p.comp[id] == Off && a < REGION && b < REGION
    requires Unshadowed(p, c, a)
    ensures var q := Put(p, id, a, data);
            && ValidPatches(q, c)
            && LoadWord(q, c, mem, b) == (if b / 4 == a / 4 then data else LoadWord(p, c, mem, b))
            && Fetch(q, c, mem, b) == Fetch(p, c, mem, b)
  {
    var q := Put(p, id, a, data);
    assert a % REGION == a;
    SameBelow(p.comp, q.comp, b, 0, c.code);
    if b / 4 != a / 4 {
      SameMatch(p.comp, q.comp, b, c.code, c.code + c.lit, id);
    } else {
      assert Matches(q.comp[id], b);
      forall i | c.code <= i < c.code + c.lit && i != id ensures !Matches(q.comp[i], b) {
        assert !Matches(p.comp[i], a);
      }
    }
    hide Lower, Upper;
  }

  lemma {:induction false} SameBelow(comp: seq<Comparator>, comp': seq<Comparator>, h: nat, i: nat, n: nat)
    requires i <= n <= |comp| == |comp'|
    requires forall k :: i <= k < n ==> comp[k] == comp'[k]
    ensures Match(comp, h, i, n) == Match(comp', h, i, n)
    decreases n - i
  {
    if i < n {
      SameBelow(comp, comp', h, i + 1, n);
    }
  }

  /** A data patch is what loads of its word read; other loads, and all fetches, stay. */
  lemma DataPatchIsRead(p: Patches, c: Chip, a: u32, data: u32, mem: memory, b: nat)
    requires ValidChip(c) && ValidPatches(p, c) && Clean(p) && HasRoom(p, c, Data, a)
    requires a < REGION && b < REGION && Unshadowed(p, c, a)
    ensures var q := Enable(p, c, Data, a, data, mem).0;
            && LoadWord(q, c, mem, b) == (if b / 4 == a / 4 then data else LoadWord(p, c, mem, b))
            && Fetch(q, c, mem, b) == Fetch(p, c, mem, b)
  {
    var id := FirstFree(p.taken, c.code, c.code + c.lit);
    FirstIsFree(p, c, c.code, c.code + c.lit);
    LoadAfterPut(p, c, mem, id, a, data, b);
    hide Fetch, LoadWord, FirstFree, Unshadowed, Packed;
  }

  /** A code patch is what fetches from its word give; other fetches, and all loads, stay. */
  lemma CodePatchIsFetched(p: Patches, c: Chip, a: u32, data: u32, mem: memory, h: nat)
    requires ValidChip(c) && ValidPatches(p, c) && Clean(p) && HasRoom(p, c, Code, a)
    requires a < REGION && h < REGION && Unpatched(p, c, a)
    ensures var q := Enable(p, c, Code, a, data, mem).0;
            && Fetch(q, c, mem, h) ==
                 (if h / 4 != a / 4 then Fetch(p, c, mem, h)
                  else if h / 2 % 2 == 0 then Lower(data) else Upper(data))
            && LoadWord(q, c, mem, h) == LoadWord(p, c, mem, h)
  {
    var id := FirstFree(p.taken, 0, c.code);
    FirstIsFree(p, c, 0, c.code);
    FetchAfterPut(p, c, mem, id, a, data, h);
    CodePutKeepsLoads(p, c, mem, id, a, data, h);
    hide Fetch, FirstFree, Unpatched, Packed, LoadWord, Put;
  }

  lemma CodePutKeepsLoads(p: Patches, c: Chip, mem: memory, id: nat, a: u32, data: u32, b: nat)
    requires ValidPatches(p, c) && id < c.code && b < REGION
    ensures var q := Put(p, id, a, data); ValidPatches(q, c) && LoadWord(q, c, mem, b) == LoadWord(p, c, mem, b)
  {
    SameBelow(p.comp, Put(p, id, a, data).comp, b, c.code, c.code + c.lit);
  }

  /** The slots a kind of patch is given. */
  predicate SlotFor(c: Chip, kind: Kind, i: nat) {
    if kind == Data then c.code <= i < c.code + c.lit else i < c.code
  }

  ghost predicate Full(p: Patches, c: Chip, kind: Kind) {
    forall i: nat :: SlotFor(c, kind, i) ==> i in p.taken
  }

  /** Slot id is the only free one for code. */
  ghost predicate OnlyFree(p: Patches, c: Chip, id: nat) {
    id < c.code && id !in p.taken && forall i: nat :: i < c.code && i != id ==> i in p.taken
  }

  /** What the errors mean: an unknown kind; no slot free; or for a function that is not word
      aligned a single slot. The first two change nothing. */
  lemma EnableErrors(p: Patches, c: Chip, kind: Kind, a: u32, data: u32, mem: memory)
    requires ValidChip(c) && ValidPatches(p, c)
    ensures var (q, r) := Enable(p, c, kind, a, data, mem);
            && (r == -1 <==> kind == Other)
            && (r == -2 <==> kind != Other && Full(p, c, kind))
            && (r == -3 <==> kind == Func && a / 2 % 2 != 0 && exists id: nat :: OnlyFree(p, c, id))
            && (r < 0 ==> r in {-1, -2, -3}) && (r in {-1, -2} ==> q == p)
  {
    if kind != Other {
      FullIff(p, c, kind);
      EnableAnswer(p, c, kind, a, data, mem);
      if kind == Func && !Full(p, c, Func) {
        OnlyFreeIff(p, c);
      }
      hide Enable, FirstFree, Full, OnlyFree;
    }
  }

  lemma FullIff(p: Patches, c: Chip, kind: Kind)
    ensures var start, end := if kind == Data then c.code else 0, if kind == Data then c.code + c.lit else c.code;
            FirstFree(p.taken, start, end) == end <==> Full(p, c, kind)
  {
    var start, end := if kind == Data then c.code else 0, if kind == Data then c.code + c.lit else c.code;
    var id := FirstFree(p.taken, start, end);
    assert id < end ==> SlotFor(c, kind, id);
    hide FirstFree;
  }

  lemma OnlyFreeIff(p: Patches, c: Chip)
    requires !Full(p, c, Func)
    ensures var id := FirstFree(p.taken, 0, c.code);
            id < c.code && (FirstFree(p.taken + {id}, id, c.code) == c.code <==> exists i: nat :: OnlyFree(p, c, i))
  {
    FullIff(p, c, Func);
    hide FirstFree, Full;
    var id := FirstFree(p.taken, 0, c.code);
    if FirstFree(p.taken + {id}, id, c.code) == c.code {
      assert OnlyFree(p, c, id);
    }
  }

  lemma EnableAnswer(p: Patches, c: Chip, kind: Kind, a: u32, data: u32, mem: memory)
    requires ValidChip(c) && ValidPatches(p, c) && kind != Other
    ensures var start, end := if kind == Data then c.code else 0, if kind == Data then c.code + c.lit else c.code;
            var id := FirstFree(p.taken, start, end);
            var (q, r) := Enable(p, c, kind, a, data, mem);
            if id == end then q == p && r == -2
            else if kind == Func && a / 2 % 2 != 0 && FirstFree(p.taken + {id}, id, end) == end then r == -3
            else r >= 0
  {
    hide PatchIns, Put, Straddle, Joined, WordOf, NextWordOf, FirstFree;
  }

  /** Disabling switches off the slots the identifier names and no other, and leaves the words
      alone; it fails exactly when it comes to a slot the chip does not have. */
  lemma DisableTouches(p: Patches, c: Chip, patchId: int)
    requires ValidChip(c) && ValidPatches(p, c)
    ensures var (q, r) := Disable(p, c, patchId);
            var (id0, id1) := Slots(patchId);
            var n := c.code + c.lit;
            && q.remap == p.remap
            && (forall i: nat :: i < n && i != id0 && i != id1 ==>
                  q.comp[i] == p.comp[i] && (i in q.taken <==> i in p.taken))
            && (id0 < n ==> q.comp[id0] == Off)
            && (r == 0 <==> id0 == 255 || (id0 < n && (id1 == 255 || id1 < n)))
            && (r == 0 && id0 != 255 && id1 < n ==> q.comp[id1] == Off)
            && (r != 0 ==> r == -1)
            && (id0 >= n ==> q == p)
  {
  }
}
