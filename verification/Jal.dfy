/** The jump the restorer writes into a hart's code slot: the encoder of
src/decode_restore.c against the J-type decoder of the RISC-V Unprivileged ISA
(sections 2.3 and 2.5). */
module Jal {
  import opened Words

  const JAL_OPCODE: nat := 0x6F
  const NOP_WORD: nat := 0x13

  /** The bit-field view of a JAL word, least significant field first. */
  datatype JalInstr = JalInstr(opcode: nat, rd: nat, imm19_12: nat, imm11: nat, imm10_1: nat, imm20: nat) {
    predicate Fits() {
      opcode < 0x80 && rd < 0x20 && imm19_12 < 0x100 && imm11 < 2 && imm10_1 < 0x400 && imm20 < 2
    }

    function Inst(): nat {
      opcode + rd * 0x80 + imm19_12 * 0x1000 + imm11 * 0x10_0000 + imm10_1 * 0x20_0000 + imm20 * 0x8000_0000
    }
  }

  /** `generate_jal`: `imm` counts halfwords; `>>` is an arithmetic shift and every
  assignment truncates to the width of its field. */
  function Fields(imm: int, rd: nat): (j: JalInstr)
    ensures j.Fits()
  {
    JalInstr(
      JAL_OPCODE,
      rd % 0x20,
      (imm / 0x800) % 0x100,
      (imm / 0x400) % 2,
      imm % 0x400,
      (imm / 0x8_0000) % 2)
  }

  function GenerateJal(imm: int, rd: nat): nat {
    Fields(imm, rd).Inst()
  }

  /** `is_valid_imm` on the 32-bit signed reading of its argument. */
  predicate IsValidImm(imm: int) {
    -0x10_0000 <= Signed32(imm) < 0x10_0000
  }

  /** `offset` of the patching code: the 64-bit difference cut to 32 bits. */
  function Offset(pc: Word, target: Word): int {
    Wrap32(target - pc)
  }

  /** The word stored at `pc`. */
  function PatchWord(pc: Word, target: Word): nat {
    GenerateJal((Offset(pc, target) / 2) % 0x10_0000, 0)
  }

  // ---------- the ISA's side ----------

  function Opcode(w: nat): nat { w % 0x80 }

  function Rd(w: nat): nat { (w / 0x80) % 0x20 }

  /** The 21-bit J-immediate: bits 31, 19..12, 20 and 30..21 of the instruction, then a zero. */
  function RawImm(w: nat): nat {
    (w / 0x8000_0000) % 2 * 0x10_0000 + (w / 0x1000) % 0x100 * 0x1000
    + (w / 0x10_0000) % 2 * 0x800 + (w / 0x20_0000) % 0x400 * 2
  }

  function JImm(w: nat): int {
    var r := RawImm(w);
    if r >= 0x10_0000 then r - 0x20_0000 else r
  }

  /** Where a JAL word at `pc` transfers control. */
  function JumpTarget(pc: Word, w: nat): Word {
    Wrap64(pc + JImm(w))
  }

  /** What a caller can test beforehand: the signed 64-bit distance is even and fits 21 bits. */
  predicate Reaches(pc: Word, target: Word) {
    var d := Signed64(target - pc);
    d % 2 == 0 && -0x10_0000 <= d < 0x10_0000
  }

  // ---------- proofs ----------

  lemma DecodeFields(j: JalInstr)
    requires j.Fits()
    ensures Opcode(j.Inst()) == j.opcode && Rd(j.Inst()) == j.rd
    ensures RawImm(j.Inst()) == j.imm20 * 0x10_0000 + j.imm19_12 * 0x1000 + j.imm11 * 0x800 + j.imm10_1 * 2
  {
    var w := j.Inst();
    DivUnique(w, 0x80, j.rd + j.imm19_12 * 0x20 + j.imm11 * 0x2000 + j.imm10_1 * 0x4000 + j.imm20 * 0x100_0000, j.opcode);
    FieldOf(w, 0x80, 0x20, j.opcode, j.rd, j.imm19_12 + j.imm11 * 0x100 + j.imm10_1 * 0x200 + j.imm20 * 0x8_0000);
    var low12 := j.opcode + j.rd * 0x80;
    FieldOf(w, 0x1000, 0x100, low12, j.imm19_12, j.imm11 + j.imm10_1 * 2 + j.imm20 * 0x800);
    var low20 := low12 + j.imm19_12 * 0x1000;
    FieldOf(w, 0x10_0000, 2, low20, j.imm11, j.imm10_1 + j.imm20 * 0x400);
    var low21 := low20 + j.imm11 * 0x10_0000;
    FieldOf(w, 0x20_0000, 0x400, low21, j.imm10_1, j.imm20);
    FieldOf(w, 0x8000_0000, 2, low21 + j.imm10_1 * 0x20_0000, j.imm20, 0);
  }

  lemma SplitHalfwords(h: nat)
    requires h < 0x10_0000
    ensures h == h % 0x400 + (h / 0x400) % 2 * 0x400 + (h / 0x800) % 0x100 * 0x800 + (h / 0x8_0000) % 2 * 0x8_0000
  {
    var a := h / 0x400;
    var b := a / 2;
    var c := b / 0x100;
    DivUnique(h, 0x800, b, a % 2 * 0x400 + h % 0x400);
    DivUnique(h, 0x8_0000, c, b % 0x100 * 0x800 + a % 2 * 0x400 + h % 0x400);
    DivUnique(c, 2, 0, c);
  }

  /** Encoding then decoding gives back twice the 20-bit halfword count. */
  lemma RawImmOfGenerated(h: nat, rd: nat)
    requires h < 0x10_0000
    ensures RawImm(GenerateJal(h, rd)) == 2 * h
    ensures Opcode(GenerateJal(h, rd)) == JAL_OPCODE && Rd(GenerateJal(h, rd)) == rd % 0x20
  {
    var j := Fields(h, rd);
    DecodeFields(j);
    SplitHalfwords(h);
    assert GenerateJal(h, rd) == j.Inst();
    assert h == j.imm10_1 + j.imm11 * 0x400 + j.imm19_12 * 0x800 + j.imm20 * 0x8_0000;
  }

  /** The low 21 bits of the distance survive both truncations, except bit 0. */
  lemma HalfwordCount(pc: Word, target: Word)
    ensures 2 * ((Offset(pc, target) / 2) % 0x10_0000) == (target - pc) % 0x20_0000 - (target - pc) % 2
  {
    var d := target - pc;
    var q := d / TWO32;
    var o := Offset(pc, target);
    assert d == q * TWO32 + o;
    var q1 := o / 0x20_0000;
    assert o == q1 * 0x20_0000 + o % 0x20_0000;
    DivUnique(d, 0x20_0000, q * 0x800 + q1, o % 0x20_0000);
    assert o % 0x20_0000 == 2 * ((o / 2) % 0x10_0000) + o % 2;
    DivUnique(d, 2, q * 0x8000_0000 + o / 2, o % 2);
  }

  /** The distance cut to 21 bits, its bit 0 cleared, and sign-extended. */
  function RoundedImm(d: int): int {
    var r := d % 0x20_0000 - d % 2;
    if r >= 0x10_0000 then r - 0x20_0000 else r
  }

  lemma PatchedImm(pc: Word, target: Word)
    ensures JImm(PatchWord(pc, target)) == RoundedImm(target - pc)
    ensures Opcode(PatchWord(pc, target)) == JAL_OPCODE && Rd(PatchWord(pc, target)) == 0
  {
    HalfwordCount(pc, target);
    RawImmOfGenerated((Offset(pc, target) / 2) % 0x10_0000, 0);
  }

  lemma SmallCongruent(a: int, b: int)
    requires Wrap64(a) == Wrap64(b)
    requires -0x8000_0000_0000_0000 <= a < 0x8000_0000_0000_0000
    ensures a == Signed64(b)
  {
  }

  lemma LowBits(d: int, s: int, k: int)
    requires d == s + k * TWO64 && s % 2 == 0 && -0x10_0000 <= s < 0x10_0000
    ensures RoundedImm(d) == s
  {
    DivUnique(d, 0x20_0000, k * 0x800_0000_0000 + (if s < 0 then -1 else 0), if s < 0 then s + 0x20_0000 else s);
    DivUnique(d, 2, k * 0x8000_0000_0000_0000 + s / 2, 0);
  }

  lemma ReachableLands(pc: Word, target: Word)
    requires Reaches(pc, target)
    ensures RoundedImm(target - pc) == Signed64(target - pc)
    ensures Wrap64(pc + RoundedImm(target - pc)) == target
  {
    var d := target - pc;
    var s := Signed64(d);
    var k := if d == s then 0 else if d > s then 1 else -1;
    assert d == s + k * TWO64;
    LowBits(d, s, k);
    WrapShift(target, -k);
    assert pc + s == target + -k * TWO64;
  }

  lemma RoundedRange(d: int)
    ensures RoundedImm(d) % 2 == 0 && -0x10_0000 <= RoundedImm(d) < 0x10_0000
  {
    var q := d / 0x20_0000;
    var o := d % 0x20_0000;
    DivUnique(d, 2, q * 0x10_0000 + o / 2, o % 2);
  }

  lemma LandingReaches(pc: Word, target: Word, i: int)
    requires -0x10_0000 <= i < 0x10_0000 && i % 2 == 0
    requires Wrap64(pc + i) == target
    ensures Reaches(pc, target)
  {
    var d: int := target - pc;
    WrapAdd(pc + i, 0 - pc as int);
    assert Wrap64(i) == Wrap64(d);
    SmallCongruent(i, d);
  }

  /** The patched word is a plain jump, and it reaches the checkpointed pc exactly when
  the signed distance is even and lies in [-2^20, 2^20). */
  lemma PatchReachesTarget(pc: Word, target: Word)
    ensures Opcode(PatchWord(pc, target)) == 0x6F && Rd(PatchWord(pc, target)) == 0
    ensures Reaches(pc, target) ==> JImm(PatchWord(pc, target)) == Signed64(target - pc)
    ensures JumpTarget(pc, PatchWord(pc, target)) == target <==> Reaches(pc, target)
  {
    PatchedImm(pc, target);
    LandsExactly(pc, target, PatchWord(pc, target));
  }

  lemma LandsExactly(pc: Word, target: Word, w: nat)
    requires JImm(w) == RoundedImm(target - pc)
    ensures Reaches(pc, target) ==> JImm(w) == Signed64(target - pc)
    ensures JumpTarget(pc, w) == target <==> Reaches(pc, target)
  {
    var i := RoundedImm(target - pc);
    assert JumpTarget(pc, w) == Wrap64(pc + i);
    RoundedRange(target - pc);
    if Reaches(pc, target) {
      ReachableLands(pc, target);
    } else if Wrap64(pc + i) == target {
      LandingReaches(pc, target, i);
    }
  }

  /** Against the guard the code evaluates: whenever the jump can reach, the guard passes; and for
  an even distance that passes the guard, the jump reaches exactly when the distance fits 32 bits. */
  lemma GuardIsTruncated(pc: Word, target: Word)
    ensures Reaches(pc, target) ==> IsValidImm(Offset(pc, target))
    ensures IsValidImm(Offset(pc, target)) && (target - pc) % 2 == 0 ==>
              (Reaches(pc, target) <==> -0x8000_0000 <= Signed64(target - pc) < 0x8000_0000)
  {
    var d := target - pc;
    var s := Signed64(d);
    Signed64Congruent(d);
    var k := (d - s) / TWO64;
    assert d == s + k * TWO64;
    assert s % 2 == d % 2;
    if -0x8000_0000 <= s < 0x8000_0000 {
      DivUnique(d, TWO32, k * TWO32 + (if s < 0 then -1 else 0), if s < 0 then s + TWO32 else s);
      assert Wrap32(Wrap32(d)) == Wrap32(d);
      assert Signed32(Offset(pc, target)) == s;
    }
  }

  /** A distance of 2^32 passes the guard although no JAL reaches that far. */
  lemma GuardAcceptsUnreachable()
    ensures IsValidImm(Offset(0x8000_0000, 0x1_8000_0000))
    ensures JumpTarget(0x8000_0000, PatchWord(0x8000_0000, 0x1_8000_0000)) != 0x1_8000_0000
  {
    DistanceTooFar(0x8000_0000, 0x1_8000_0000, PatchWord(0x8000_0000, 0x1_8000_0000)) by {
      PatchedImm(0x8000_0000, 0x1_8000_0000);
    }
  }

  lemma DistanceTooFar(pc: Word, target: Word, w: nat)
    requires target == pc + TWO32 && JImm(w) == RoundedImm(target - pc)
    ensures IsValidImm(Offset(pc, target)) && JumpTarget(pc, w) == pc
  {
    DivUnique(TWO32, 0x20_0000, 0x800, 0);
    DivUnique(TWO32, 2, 0x8000_0000, 0);
    assert RoundedImm(TWO32) == 0;
  }
}
