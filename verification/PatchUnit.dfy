/** The patch unit as the driver keeps it: a bitmap of slots (bit id % 32 of word id / 32 is
    element id here), comparator registers and the remapped words, updated in place. */
module PatchUnit {
  import opened ThumbBranch
  import opened CodePatch

  function Bit(i: nat): bv32
    requires i < 32
  {
    (1 as bv32) << i
  }

  /** Cut to a byte, the bit of a slot whose number is 8 or more modulo 32 is no bit at all. */
  lemma ByteMask(i: nat)
    requires i < 32
    ensures Bit(i) & 0xff == if i < 8 then Bit(i) else 0
    ensures Bit(i) != 0
  {
  }

  ghost function SetIds(m: seq<bool>): (s: set<nat>)
    ensures forall id: nat :: id in s <==> id < |m| && m[id]
  {
    set id: nat | id < |m| && m[id]
  }

  class Unit {
    const chip: Chip
    const patchMap: array<bool>
    const comp: array<Comparator>
    const remap: array<u32>

    ghost predicate Valid() {
      && ValidChip(chip)
      && patchMap.Length == comp.Length == remap.Length == chip.code + chip.lit
      && patchMap as object != comp as object && comp as object != remap as object
      && patchMap as object != remap as object
    }

    ghost function View(): (p: Patches)
      requires Valid()
      reads patchMap, comp, remap
      ensures ValidPatches(p, chip)
    {
      Patches(Taken(), comp[..], remap[..])
    }

    ghost function Taken(): (s: set<nat>)
      requires Valid()
      reads patchMap
      ensures forall id :: id in s ==> id < chip.code + chip.lit
    {
      SetIds(patchMap[..])
    }

    constructor (chip: Chip)
      requires ValidChip(chip)
      ensures Valid() && this.chip == chip && fresh(patchMap) && fresh(comp) && fresh(remap)
      ensures View().taken == {} && Clean(View())
    {
      this.chip := chip;
      patchMap := new bool[chip.code + chip.lit](_ => false);
      comp := new Comparator[chip.code + chip.lit](_ => Off);
      remap := new u32[chip.code + chip.lit](_ => 0);
    }

    /** The allocation loops: the first slot whose bit is clear, its bit set on the way. */
    method Take(from: nat, end: nat) returns (id: nat)
      requires Valid() && from <= end <= chip.code + chip.lit
      modifies patchMap
      ensures id == FirstFree(old(Taken()), from, end)
      ensures Taken() == old(Taken()) + if id < end then {id} else {}
    {
      id := from;
      while id < end
        invariant from <= id <= end && patchMap[..] == old(patchMap[..])
        invariant FirstFree(Taken(), id, end) == FirstFree(Taken(), from, end)
      {
        if !patchMap[id] {
          patchMap[id] := true;
          assert patchMap[..] == old(patchMap[..])[id := true];
          return;
        }
        id := id + 1;
      }
    }

    method ClearMapBit(id: nat)
      requires Valid() && id < chip.code + chip.lit
      modifies patchMap
      ensures Taken() == old(Taken()) - {id}
    {
      patchMap[id] := false;
    }

    /** patch_code_enable_id and patch_data_enable_id. */
    method EnableId(id: nat, addr: u32, data: u32)
      requires Valid() && id < chip.code + chip.lit
      modifies comp, remap
      ensures comp[..] == old(comp[..])[id := On(addr % REGION)] && remap[..] == old(remap[..])[id := data]
    {
      remap[id] := data;
      comp[id] := On(addr % REGION);
    }

    method PatchEnable(kind: Kind, addr: u32, data: u32, mem: memory) returns (patchId: int)
      requires Valid()
      modifies patchMap, comp, remap
      ensures (View(), patchId) == Enable(old(View()), chip, kind, addr, data, mem)
    {
      var start, end := 0, chip.code;
      if kind == Data {
        start, end := chip.code, chip.code + chip.lit;
      } else if kind == Other {
        return -1;
      }
      var id := Take(start, end);
      assert comp[..] == old(comp[..]) && remap[..] == old(remap[..]);
      if id >= end {
        assert Taken() == old(Taken());
        return -2;
      }
      if kind == Func {
        patchId := PatchFunc(id, addr, PatchIns(addr, data), mem, old(View()));
      } else {
        EnableId(id, addr, data);
        patchId := Packed(id, 0xff);
      }
    }

    method PatchFunc(id: nat, addr: u32, ins: (half, half), mem: memory, ghost p: Patches) returns (patchId: int)
      requires Valid() && id < chip.code && View() == p.(taken := p.taken + {id}) && ValidPatches(p, chip)
      modifies patchMap, comp, remap
      ensures (View(), patchId) == EnableFunc(p, chip, id, addr, ins, mem)
    {
      hide Joined, Straddle, WordOf, NextWordOf, FirstFree, SetIds;
      if addr / 2 % 2 == 0 {
        EnableId(id, addr, Joined(ins.0, ins.1));
        assert Taken() == p.taken + {id};
        return Packed(id, 0xff);
      }
      var idfunc := Take(id, chip.code);
      if idfunc >= chip.code {
        ClearMapBit(chip.code - 1);
        assert Taken() == p.taken + {id} - {chip.code - 1};
        return -3;
      }
      var words := Straddle(mem(WordOf(addr)), mem(NextWordOf(addr)), ins);
      EnableId(id, WordOf(addr), words.0);
      EnableId(idfunc, NextWordOf(addr), words.1);
      return Packed(id, idfunc);
    }

    method PatchDisable(patchId: int) returns (ret: int)
      requires Valid()
      modifies patchMap, comp
      ensures (View(), ret) == Disable(old(View()), chip, patchId)
    {
      for i := 0 to 2
        invariant i == 1 ==>
                    && (patchId - 1) % 256 < chip.code + chip.lit
                    && View() == CodePatch.Release(old(View()), (patchId - 1) % 256)
        invariant i == 0 ==> View() == old(View())
        invariant i == 2 ==> (View(), 0) == Disable(old(View()), chip, patchId)
      {
        var id := ((if i == 0 then patchId else patchId / 256) - 1) % 256;
        if id == 0xff {
          return 0;
        }
        if id >= chip.code + chip.lit {
          return -1;
        }
        ReleaseId(id);
      }
      return 0;
    }

    method ReleaseId(id: nat)
      requires Valid() && id < chip.code + chip.lit
      modifies patchMap, comp
      ensures View() == CodePatch.Release(old(View()), id)
    {
      comp[id] := Off;
      assert comp[..] == old(comp[..])[id := Off] && remap[..] == old(remap[..]);
      ByteMask(id % 32);
      if Bit(id % 32) & 0xff != 0 {
        ClearMapBit(id);
      }
      assert Taken() == if id % 32 < 8 then old(Taken()) - {id} else old(Taken());
    }
  }
}
