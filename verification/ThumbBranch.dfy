/** The branch instruction with which a function is patched, and how a processor reads it
    (ARMv7-M Architecture Reference Manual, section A7.7.12, encoding T4). Bit fields are
    written as quotients and remainders; an OR into bits known to be zero is a sum. */
module ThumbBranch {
  const WIDTH := 0x1_0000_0000

  type u32 = x: int | 0 <= x < WIDTH

  type half = x: int | 0 <= x < 0x1_0000

  type bit = b: int | 0 <= b <= 1

  function Even(a: int): int { a - a % 2 }

  /** The distance from the old function, as its branch counts it, to the new one. */
  function Displacement(oldFunc: u32, newFunc: u32): u32 {
    (Even(newFunc) - Even((oldFunc + 4) % WIDTH)) % WIDTH
  }

  function Xor(a: bit, b: bit): bit { if a == b then 0 else 1 }

  function Not(b: bit): bit { 1 - b }

  /** func_patch_ins: the two halfwords of the instruction. */
  function PatchIns(oldFunc: u32, newFunc: u32): (half, half) {
    Encoded(Displacement(oldFunc, newFunc))
  }

  function Encoded(immd: u32): (half, half) {
    var s: bit := immd / 0x8000_0000;
    var j1 := Xor(s, Not(immd / 0x80_0000 % 2));
    var j2 := Xor(s, Not(immd / 0x40_0000 % 2));
    (0xf000 + s * 0x400 + immd / 0x1000 % 0x400, 0x9000 + j1 * 0x2000 + j2 * 0x800 + immd / 2 % 0x800)
  }

  predicate IsBranchT4(h1: half, h2: half) {
    h1 / 0x800 == 0x1e && h2 / 0x4000 == 2 && h2 / 0x1000 % 2 == 1
  }

  /** S:I1:I2:imm10:imm11:0 sign-extended, where I1 and I2 are set where J equals S. */
  function OffsetT4(h1: half, h2: half): int {
    var s: bit := h1 / 0x400 % 2;
    var i1: bit := if h2 / 0x2000 % 2 == s then 1 else 0;
    var i2: bit := if h2 / 0x800 % 2 == s then 1 else 0;
    i1 * 0x80_0000 + i2 * 0x40_0000 + h1 % 0x400 * 0x1000 + h2 % 0x800 * 2 - s * 0x100_0000
  }

  /** Where a T4 branch at address a goes: the program counter reads as a + 4. */
  function Target(a: u32, h1: half, h2: half): u32 {
    (Even((a + 4) % WIDTH) + OffsetT4(h1, h2)) % WIDTH
  }

  /** The displacement as a two's complement number. */
  function Signed(d: u32): int {
    if d < 0x8000_0000 then d else d - WIDTH
  }

  predicate InReach(d: u32) {
    -0x100_0000 <= Signed(d) <= 0x100_0000 - 2
  }

  /** The parts of an even word, from the top: sign, seven lost bits, bits 23 and 22, fields. */
  datatype Parts = Parts(s: bit, m: nat, b23: bit, b22: bit, f: nat, g: nat)

  predicate ValidParts(p: Parts) { p.m < 0x80 && p.f < 0x400 && p.g < 0x800 }

  function Whole(p: Parts): int {
    p.s * 0x8000_0000 + p.m * 0x100_0000 + p.b23 * 0x80_0000 + p.b22 * 0x40_0000 + p.f * 0x1000 + p.g * 2
  }

  lemma Split(d: u32) returns (p: Parts)
    requires d % 2 == 0
    ensures ValidParts(p) && Whole(p) == d
  {
    var q1 := d / 2;
    var q2 := q1 / 0x800;
    var q3 := q2 / 0x400;
    var q4 := q3 / 2;
    var q5 := q4 / 2;
    p := Parts(q5 / 0x80, q5 % 0x80, q4 % 2, q3 % 2, q2 % 0x400, q1 % 0x800);
  }

  lemma PartsOf(p: Parts, d: u32)
    requires ValidParts(p) && Whole(p) == d
    ensures d / 0x8000_0000 == p.s
    ensures d / 0x80_0000 % 2 == p.b23 && d / 0x40_0000 % 2 == p.b22
    ensures d / 0x1000 % 0x400 == p.f && d / 2 % 0x800 == p.g
  {
    BitsOf(p, d);
    FieldsOf(p, d);
  }

  lemma BitsOf(p: Parts, d: u32)
    requires ValidParts(p) && Whole(p) == d
    ensures d / 0x8000_0000 == p.s
    ensures d / 0x80_0000 % 2 == p.b23 && d / 0x40_0000 % 2 == p.b22
  {
    assert d / 0x80_0000 == p.s * 0x100 + p.m * 2 + p.b23;
    assert d / 0x40_0000 == p.s * 0x200 + p.m * 4 + p.b23 * 2 + p.b22;
  }

  lemma FieldsOf(p: Parts, d: u32)
    requires ValidParts(p) && Whole(p) == d
    ensures d / 0x1000 % 0x400 == p.f && d / 2 % 0x800 == p.g
  {
    assert d / 0x1000 == p.s * 0x8_0000 + p.m * 0x1000 + p.b23 * 0x800 + p.b22 * 0x400 + p.f;
    assert d / 2 == p.s * 0x4000_0000 + p.m * 0x80_0000 + p.b23 * 0x40_0000 + p.b22 * 0x20_0000 + p.f * 0x800 + p.g;
  }

  lemma Halves(s: bit, j1: bit, j2: bit, f: nat, g: nat, h1: half, h2: half)
    requires f < 0x400 && g < 0x800
    requires h1 == 0xf000 + s * 0x400 + f && h2 == 0x9000 + j1 * 0x2000 + j2 * 0x800 + g
    ensures IsBranchT4(h1, h2)
    ensures h1 / 0x400 % 2 == s && h1 % 0x400 == f
    ensures h2 / 0x2000 % 2 == j1 && h2 / 0x800 % 2 == j2 && h2 % 0x800 == g
  {
  }

  /** What a decoder makes of the parts: the lost bits read as copies of the sign. */
  lemma OffsetOfParts(p: Parts, d: u32)
    requires ValidParts(p) && Whole(p) == d
    ensures var (h1, h2) := Encoded(d);
            IsBranchT4(h1, h2) && OffsetT4(h1, h2) == Whole(p.(m := 0, s := 0)) - p.s * 0x100_0000
  {
    PartsOf(p, d);
    var (h1, h2) := Encoded(d);
    Halves(p.s, Xor(p.s, Not(p.b23)), Xor(p.s, Not(p.b22)), p.f, p.g, h1, h2);
  }

  lemma OffsetOfEncoded(d: u32)
    requires d % 2 == 0
    ensures var (h1, h2) := Encoded(d);
            && IsBranchT4(h1, h2) && -0x100_0000 <= OffsetT4(h1, h2) < 0x100_0000
            && (OffsetT4(h1, h2) == Signed(d) <==> InReach(d))
  {
    var p := Split(d);
    hide *;
    OffsetOfParts(p, d);
    SignedOfParts(p, d);
  }

  lemma SignedOfParts(p: Parts, d: u32)
    requires ValidParts(p) && Whole(p) == d
    ensures var offset := Whole(p.(m := 0, s := 0)) - p.s * 0x100_0000;
            -0x100_0000 <= offset < 0x100_0000 && (offset == Signed(d) <==> InReach(d))
  {
    assert d >= 0x8000_0000 <==> p.s == 1;
  }

  lemma DisplacementIsEven(oldFunc: u32, newFunc: u32)
    ensures Displacement(oldFunc, newFunc) % 2 == 0
  {
    var x, y := Even(newFunc), Even((oldFunc + 4) % WIDTH);
    assert (x - y) % WIDTH == if x >= y then x - y else x - y + WIDTH;
  }

  lemma Lands(pc: u32, offset: int, target: u32)
    requires -0x100_0000 <= offset < 0x100_0000
    ensures (pc + offset) % WIDTH == target <==> offset == Signed((target - pc) % WIDTH)
  {
    assert (target - pc) % WIDTH == if target >= pc then target - pc else target - pc + WIDTH;
    assert (pc + offset) % WIDTH ==
           if pc + offset < 0 then pc + offset + WIDTH
            else if pc + offset >= WIDTH then pc + offset - WIDTH else pc + offset;
  }

  /** The words are a T4 branch for every pair of functions, and it goes to the new function
      exactly when that lies in the reach of the encoding. */
  lemma BranchReaches(oldFunc: u32, newFunc: u32)
    ensures var (h1, h2) := PatchIns(oldFunc, newFunc);
            && IsBranchT4(h1, h2)
            && (Target(oldFunc, h1, h2) == Even(newFunc) <==> InReach(Displacement(oldFunc, newFunc)))
  {
    hide Encoded, OffsetT4, Signed, InReach, IsBranchT4;
    var d := Displacement(oldFunc, newFunc);
    var (h1, h2) := Encoded(d);
    DisplacementIsEven(oldFunc, newFunc);
    OffsetOfEncoded(d);
    Lands(Even((oldFunc + 4) % WIDTH), OffsetT4(h1, h2), Even(newFunc));
  }
}
