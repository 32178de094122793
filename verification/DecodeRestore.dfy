/** Per-hart decisions and addresses of src/decode_restore.c: where a hart's checkpoint lies,
what can be restored on the host, and the restore calls of one hart in order. */
module DecodeRestore {
  import opened Words
  import opened Options
  import opened Machine
  import opened RestorePrograms

  // ---------- memory layout ----------

  datatype Memlayout = Memlayout(
    magicNumber: Word, pc: Word, mode: Word, mtime: Word, mtimeCmp: Word, miscDone: Word, miscReserve: Word,
    intReg: Word, intRegDone: Word, floatReg: Word, floatRegDone: Word,
    csrReg: Word, csrRegDone: Word, csrReserve: Word, vectorReg: Word, vectorRegDone: Word)
  {
    /** The sixteen addresses in declaration order. */
    function Fields(): (s: seq<Word>)
      ensures |s| == 16
    {
      [magicNumber, pc, mode, mtime, mtimeCmp, miscDone, miscReserve,
       intReg, intRegDone, floatReg, floatRegDone,
       csrReg, csrRegDone, csrReserve, vectorReg, vectorRegDone]
    }
  }

  /** `get_core_memlayout`. */
  function GetCoreMemlayout(base: Word, size: Word, cpu: nat, m: Memlayout): Memlayout {
    var offset := Wrap64(cpu * size + base);
    Memlayout(
      Wrap64(m.magicNumber + offset), Wrap64(m.pc + offset), Wrap64(m.mode + offset), Wrap64(m.mtime + offset),
      Wrap64(m.mtimeCmp + offset), Wrap64(m.miscDone + offset), Wrap64(m.miscReserve + offset),
      Wrap64(m.intReg + offset), Wrap64(m.intRegDone + offset),
      Wrap64(m.floatReg + offset), Wrap64(m.floatRegDone + offset),
      Wrap64(m.csrReg + offset), Wrap64(m.csrRegDone + offset), Wrap64(m.csrReserve + offset),
      Wrap64(m.vectorReg + offset), Wrap64(m.vectorRegDone + offset))
  }

  /** How many bytes the restorer may read from field i of hart `cpu`: the mtimecmp word is
  taken at index `cpu`, the register areas hold 32 words (vectors 64) and the CSR area 4096. */
  function Extent(i: nat, cpu: nat): nat {
    if i == 4 then 8 * cpu + 8
    else if i == 7 || i == 9 then 32 * 8
    else if i == 11 then 4096 * 8
    else if i == 14 then 32 * 16
    else 8
  }

  /** Every field of every hart below n ends within one core's region. */
  predicate FitsCore(m: Memlayout, size: Word, n: nat) {
    forall i, cpu :: 0 <= i < 16 && 0 <= cpu < n ==> m.Fields()[i] + Extent(i, cpu) <= size
  }

  lemma RelocatedField(base: Word, size: Word, n: nat, cpu: nat, m: Memlayout, i: nat)
    requires cpu < n && i < 16 && FitsCore(m, size, n) && base + n * size <= TWO64
    ensures GetCoreMemlayout(base, size, cpu, m).Fields()[i] == m.Fields()[i] + cpu * size + base
    ensures cpu * size >= 0
    ensures m.Fields()[i] + cpu * size + base + Extent(i, cpu) <= (cpu + 1) * size + base
  {
    RegionBelow(base, size, n, cpu);
    var field := m.Fields()[i];
    assert field + Extent(i, cpu) <= size;
    var offset := cpu * size + base;
    WrapWord(offset);
    WrapWord(field + offset);
    assert GetCoreMemlayout(base, size, cpu, m).Fields()[i] == Wrap64(field + offset);
  }

  lemma Distribute(a: int, b: int, c: int)
    ensures (a + b) * c == a * c + b * c
  {
  }

  lemma NonNegative(a: int, b: int)
    requires a >= 0 && b >= 0
    ensures a * b >= 0
  {
  }

  lemma RegionBelow(base: int, size: int, n: int, cpu: int)
    requires 0 <= size && 0 <= base && 0 <= cpu < n && base + n * size <= TWO64
    ensures 0 <= cpu * size
    ensures (cpu + 1) * size == cpu * size + size
    ensures (cpu + 1) * size + base <= TWO64
  {
    Distribute(cpu + 1, n - cpu - 1, size);
    Distribute(cpu, 1, size);
    NonNegative(n - cpu - 1, size);
    NonNegative(cpu, size);
  }

  lemma RegionsOrdered(size: int, g: int, h: int)
    requires 0 <= size && g < h
    ensures (g + 1) * size <= h * size
  {
    Distribute(g + 1, h - g - 1, size);
    NonNegative(h - g - 1, size);
  }

  /** Relocation never makes two harts share a byte, and keeps the order of one hart's fields. */
  lemma HartsAreSeparate(base: Word, size: Word, n: nat, g: nat, h: nat, m: Memlayout, i: nat, j: nat)
    requires g < n && h < n && i < 16 && j < 16
    requires FitsCore(m, size, n) && base + n * size <= TWO64
    ensures var a := GetCoreMemlayout(base, size, g, m).Fields()[i];
            var b := GetCoreMemlayout(base, size, h, m).Fields()[j];
            && (g < h ==> a + Extent(i, g) <= b)
            && (g == h ==> (a < b <==> m.Fields()[i] < m.Fields()[j]))
  {
    RelocatedField(base, size, n, g, m, i);
    RelocatedField(base, size, n, h, m, j);
    if g < h {
      RegionsOrdered(size, g, h);
    }
  }

  // ---------- code slots ----------

  /** `pc += 3 * (cpu_id + 1) + cpu_id` on a pointer to 32-bit words. */
  function PatchAddress(core0: Word, cpu: nat): int {
    core0 + 4 * (3 * (cpu + 1) + cpu)
  }

  /** What `jump_to_core` jumps to. */
  function SlotAddress(core0: Word, cpu: nat): int {
    core0 + 16 * cpu
  }

  /** The patched words of distinct harts are distinct, and each is the last word of the slot
  `jump_to_core` selects for that hart and lies in no other hart's slot. */
  lemma PatchesOwnSlot(core0: Word, g: nat, h: nat)
    ensures PatchAddress(core0, h) == SlotAddress(core0, h) + 12
    ensures SlotAddress(core0, g) <= PatchAddress(core0, h) < SlotAddress(core0, g) + 16 <==> g == h
  {
  }

  // ---------- what can be restored ----------

  const MSTATUS_MPP: nat := 0x1800
  const MSTATUS_MPV: nat := 0x80_0000_0000
  const MISA_V: nat := 0x20_0000
  const MISA_H: nat := 0x80
  const MISA_DF: nat := 0x28

  datatype Caps = Caps(rvv: bool, rvh: bool, rvf: bool, jump: bool)

  /** The decisions as the code takes them, started from cleared flags. */
  function ExtCheck(host: Word, misa: Word, mstatus: Word, mode: Word): Caps {
    Caps(
      And(misa, MISA_V) != 0 && And(host, MISA_V) != 0
        && (And(mstatus, 0x200) == 0x200 || And(mstatus, 0x400) == 0x400 || And(mstatus, 0x600) == 0x600),
      And(misa, MISA_H) != 0 && And(host, MISA_H) != 0 && And(mstatus, MSTATUS_MPV) != 0,
      And(misa, MISA_DF) != 0 && And(host, MISA_DF) != 0
        && (And(mstatus, 0x2000) == 0x2000 || And(mstatus, 0x4000) == 0x4000 || And(mstatus, 0x6000) == 0x6000),
      Wrap64(Shl(mode, 11)) == MSTATUS_MPP)
  }

  lemma CsrFieldAddress(base: Word, id: CsrId)
    ensures Wrap64(base + Shl(id, 3)) == CsrAddr(base, id)
  {
    ShlSmall(id);
  }

  /** `checkpoint_ext_check`: the flags come in and go out through pointers; a missing V or D/F
  extension leaves its flag alone, and the jump flag is only ever set. */
  method CheckpointExtCheck(host: Word, mem: Word -> Word, csrAddress: Word, modeAddress: Word, flags: Caps)
    returns (r: Caps)
    ensures var c := ExtCheck(host, mem(CsrAddr(csrAddress, MISA)), mem(CsrAddr(csrAddress, MSTATUS)), mem(modeAddress));
            && (flags == Caps(false, false, false, false) ==> r == c)
            && r.rvh == c.rvh && r.jump == (flags.jump || c.jump)
            && (c.rvv ==> r.rvv) && (r.rvv && !flags.rvv ==> c.rvv)
            && (c.rvf ==> r.rvf) && (r.rvf && !flags.rvf ==> c.rvf)
  {
    r := flags;
    CsrFieldAddress(csrAddress, MSTATUS);
    CsrFieldAddress(csrAddress, MISA);
    var mstatus := mem(Wrap64(csrAddress + Shl(MSTATUS, 3)));
    var misa := mem(Wrap64(csrAddress + Shl(MISA, 3)));
    var mode := mem(modeAddress);
    if Wrap64(Shl(mode, 11)) == MSTATUS_MPP {
      r := r.(jump := true);
    }
    if And(misa, MISA_H) != 0 && And(host, MISA_H) != 0 && And(mstatus, MSTATUS_MPV) != 0 {
      r := r.(rvh := true);
    } else {
      r := r.(rvh := false);
    }
    if And(misa, MISA_V) != 0 && And(host, MISA_V) != 0 {
      if And(mstatus, 0x200) == 0x200 || And(mstatus, 0x400) == 0x400 || And(mstatus, 0x600) == 0x600 {
        r := r.(rvv := true);
      } else {
        r := r.(rvv := false);
      }
    }
    if And(misa, MISA_DF) != 0 && And(host, MISA_DF) != 0 {
      if And(mstatus, 0x2000) == 0x2000 || And(mstatus, 0x4000) == 0x4000 || And(mstatus, 0x6000) == 0x6000 {
        r := r.(rvf := true);
      } else {
        r := r.(rvf := false);
      }
    }
  }

  /** Bit k of a word. */
  predicate Bit(w: nat, k: nat) {
    Shr(w, k) % 2 == 1
  }

  lemma {:induction false} ShrNext(w: nat, k: nat)
    ensures Shr(w, k + 1) == Shr(w, k) / 2
    decreases k
  {
    if k > 0 {
      ShrNext(w / 2, k - 1);
    }
  }

  lemma {:induction false} ShlInjective(a: nat, b: nat, k: nat)
    ensures Shl(a, k) == Shl(b, k) <==> a == b
  {
    if k > 0 {
      ShlInjective(a, b, k - 1);
    }
  }

  lemma AndOne(w: nat)
    ensures And(w, 1) == w % 2
  {
    if w > 0 {
      AndZero(w / 2);
      assert And(w, 1) == 2 * And(w / 2, 0) + w % 2;
    }
  }

  /** A single-bit mask tests that bit, whether compared with zero or with the mask. */
  lemma SingleBit(w: nat, k: nat)
    ensures And(w, Shl(1, k)) != 0 <==> Bit(w, k)
    ensures And(w, Shl(1, k)) == Shl(1, k) <==> Bit(w, k)
  {
    AndScaled(w, 1, k);
    AndOne(Shr(w, k));
    ShlInjective(Shr(w, k) % 2, 1, k);
    ShlInjective(Shr(w, k) % 2, 0, k);
    ShlZero(k);
  }

  lemma AndThree(w: nat)
    ensures And(w, 3) == w % 4
  {
    assert And(w, 3) == 2 * And(w / 2, 1) + w % 2;
    AndOne(w / 2);
  }

  /** The three comparisons of a two-bit field at k amount to "the field is not zero". */
  lemma TwoBitField(w: nat, k: nat)
    ensures And(w, Shl(1, k)) == Shl(1, k) || And(w, Shl(1, k + 1)) == Shl(1, k + 1) || And(w, Shl(3, k)) == Shl(3, k)
            <==> Shr(w, k) % 4 != 0
  {
    SingleBit(w, k);
    SingleBit(w, k + 1);
    ShrNext(w, k);
    AndScaled(w, 3, k);
    AndThree(Shr(w, k));
    ShlInjective(Shr(w, k) % 4, 3, k);
  }

  /** `w & 0x28`: bits 3 and 5. */
  lemma DoubleOrFloat(w: nat)
    ensures And(w, MISA_DF) != 0 <==> Bit(w, 3) || Bit(w, 5)
  {
    assert Shl(5, 3) == MISA_DF by {
      ShlSmall(5);
    }
    AndScaled(w, 5, 3);
    var q := Shr(w, 3);
    AndOne(q / 2 / 2);
    assert And(q, 5) == 2 * And(q / 2, 2) + q % 2;
    assert And(q / 2, 2) == 2 * And(q / 2 / 2, 1);
    ShrNext(w, 3);
    ShrNext(w, 4);
    ShlInjective(And(q, 5), 0, 3);
    ShlZero(3);
  }

  lemma MaskValues()
    ensures Shl(1, 7) == 0x80 && Shl(1, 21) == MISA_V && Shl(1, 39) == MSTATUS_MPV
    ensures Shl(1, 9) == 0x200 && Shl(1, 10) == 0x400 && Shl(3, 9) == 0x600
    ensures Shl(1, 13) == 0x2000 && Shl(1, 14) == 0x4000 && Shl(3, 13) == 0x6000
  {
    ShlByte(1, 31);
    ShlByte(1, 23);
    ShlByte(1, 15);
  }

  lemma ModeIsMachine(mode: Word)
    ensures Wrap64(Shl(mode, 11)) == MSTATUS_MPP <==> mode % 0x20_0000_0000_0000 == 3
  {
    ShlByte(mode, 3);
    ShlSmall(mode);
    assert Shl(mode, 11) == 2048 * mode;
    var q, r := mode / 0x20_0000_0000_0000, mode % 0x20_0000_0000_0000;
    assert mode == q * 0x20_0000_0000_0000 + r;
    DivUnique(2048 * mode, TWO64, q, 2048 * r);
  }

  /** What the flags mean in terms of the checkpoint. */
  lemma ExtCheckMeaning(host: Word, misa: Word, mstatus: Word, mode: Word)
    ensures var c := ExtCheck(host, misa, mstatus, mode);
            && (c.rvv <==> Bit(misa, 21) && Bit(host, 21) && Vs(mstatus) != 0)
            && (c.rvh <==> Bit(misa, 7) && Bit(host, 7) && Bit(mstatus, 39))
            && (c.rvf <==> (Bit(misa, 3) || Bit(misa, 5)) && (Bit(host, 3) || Bit(host, 5)) && Fs(mstatus) != 0)
            && (c.jump <==> mode % 0x20_0000_0000_0000 == 3)
  {
    MaskValues();
    SingleBit(misa, 21);
    SingleBit(host, 21);
    SingleBit(misa, 7);
    SingleBit(host, 7);
    SingleBit(mstatus, 39);
    DoubleOrFloat(misa);
    DoubleOrFloat(host);
    TwoBitField(mstatus, 9);
    TwoBitField(mstatus, 13);
    ModeIsMachine(mode);
  }

  // ---------- the restore calls of one hart ----------

  /** A register file the C code may have at a call. */
  predicate RegFile(x: seq<Word>) {
    |x| == 32 && x[0] == 0
  }

  /** Calling an assembly routine with arguments a0 and a1; the other registers are whatever
  the compiled caller left in them. */
  function Call(h: Hart, x: seq<Word>, a0: Word, a1: Word): (r: Hart)
    requires h.Shaped() && RegFile(x)
    ensures r.Shaped()
  {
    h.(x := x[A0 := a0][A1 := a1])
  }

  type CsrFile = s: seq<Word> | |s| == 4096 witness seq(4096, _ => 0)

  type FloatFile = s: seq<Word> | |s| == 32 witness seq(32, _ => 0)

  type VectorFile = s: seq<(Word, Word)> | |s| == 32 witness seq(32, _ => (0, 0))

  predicate HypervisorRestored(caps: Caps, l: Memlayout, csr: CsrFile, e: Env) {
    caps.rvh ==> forall id: CsrId | IsHypervisorCsr(id) :: csr[id] == CsrWord(e, l.csrReg, id)
  }

  predicate VectorsRestored(caps: Caps, l: Memlayout, csr: CsrFile, v: VectorFile, e: Env) {
    caps.rvv ==>
      && (forall k: Reg :: v[k] == VectorWord(e, l.vectorReg, k))
      && csr[VTYPE] == CsrWord(e, l.csrReg, VTYPE)
      && csr[VL] == e.grantedVl(CsrWord(e, l.csrReg, VL), CsrWord(e, l.csrReg, VTYPE))
  }

  predicate FloatsRestored(caps: Caps, l: Memlayout, f: FloatFile, e: Env) {
    caps.rvf ==> forall k: Reg :: f[k] == RegWord(e, l.floatReg, k)
  }

  predicate ControlRestored(l: Memlayout, csr: CsrFile, e: Env) {
    && (forall id: CsrId | IsRestoredCsr(id) :: csr[id] == CsrWord(e, l.csrReg, id))
    && csr[FCSR] == WithFrm(CsrWord(e, l.csrReg, FCSR), CsrWord(e, l.csrReg, FRM))
  }

  /** Everything but the integer registers and pc. */
  predicate StateRestored(caps: Caps, l: Memlayout, csr: CsrFile, f: FloatFile, v: VectorFile, e: Env) {
    && HypervisorRestored(caps, l, csr, e)
    && VectorsRestored(caps, l, csr, v, e)
    && FloatsRestored(caps, l, f, e)
    && ControlRestored(l, csr, e)
  }

  function RestoreHypervisor(caps: Caps, l: Memlayout, h: Hart, x: seq<Word>, e: Env): (r: Option<Hart>)
    requires h.Shaped() && RegFile(x)
    ensures r.Some? ==> r.value.Shaped()
  {
    if caps.rvh then Run(RVH_CSR_RESTORE, Call(h, x, l.csrReg, x[A1]), e) else Some(h)
  }

  function RestoreVectors(caps: Caps, l: Memlayout, h: Hart, x: seq<Word>, e: Env): (r: Option<Hart>)
    requires h.Shaped() && RegFile(x)
    ensures r.Some? ==> r.value.Shaped()
  {
    if caps.rvv then Run(RVV_RESTORE, Call(h, x, l.csrReg, l.vectorReg), e) else Some(h)
  }

  function RestoreFloats(caps: Caps, l: Memlayout, h: Hart, x: seq<Word>, e: Env): (r: Option<Hart>)
    requires h.Shaped() && RegFile(x)
    ensures r.Some? ==> r.value.Shaped()
  {
    if caps.rvf then Run(RESTORE_FLOAT_VECTOR, Call(h, x, l.floatReg, x[A1]), e) else Some(h)
  }

  function RestoreCsrs(l: Memlayout, h: Hart, x: seq<Word>, e: Env): (r: Option<Hart>)
    requires h.Shaped() && RegFile(x)
    ensures r.Some? ==> r.value.Shaped()
  {
    Run(RESTORE_CSR_VECTOR, Call(h, x, l.csrReg, x[A1]), e)
  }

  /** What the CSR routines leave alone, and what the exit needs from them. */
  lemma CsrNumbers()
    ensures !IsHypervisorCsr(MHARTID) && !IsRestoredCsr(MHARTID)
    ensures !IsHypervisorCsr(VL) && !IsHypervisorCsr(VTYPE) && !IsRestoredCsr(VL) && !IsRestoredCsr(VTYPE)
    ensures IsRestoredCsr(MEPC) && IsRestoredCsr(MSTATUS) && !IsRestoredCsr(FCSR)
    ensures forall id: CsrId :: IsRestoredCsr(id) || id == FCSR ==> !IsHypervisorCsr(id)
  {
  }

  /** Each call runs without trapping, from any state, and adds its part of the checkpoint to what
  the earlier calls restored; mhartid never changes. */
  lemma RestoresHypervisorPart(caps: Caps, l: Memlayout, h: Hart, x: seq<Word>, e: Env)
    requires h.Shaped() && RegFile(x)
    ensures var r := RestoreHypervisor(caps, l, h, x, e);
            r.Some? && HypervisorRestored(caps, l, r.value.csr, e) && r.value.csr[MHARTID] == h.csr[MHARTID]
  {
    hide Run, CsrWord, IsHypervisorCsr, IsRestoredCsr, HypervisorVector;
    CsrNumbers();
    RestoresHypervisorCsrs(Call(h, x, l.csrReg, x[A1]), e);
  }

  lemma RestoresVectorPart(caps: Caps, l: Memlayout, h: Hart, x: seq<Word>, e: Env)
    requires h.Shaped() && RegFile(x) && HypervisorRestored(caps, l, h.csr, e)
    ensures var r := RestoreVectors(caps, l, h, x, e);
            && r.Some? && HypervisorRestored(caps, l, r.value.csr, e)
            && VectorsRestored(caps, l, r.value.csr, r.value.v, e)
            && r.value.csr[MHARTID] == h.csr[MHARTID] && r.value.csr[MSTATUS] == h.csr[MSTATUS]
  {
    hide Run, CsrWord, VectorWord, IsHypervisorCsr, IsRestoredCsr, VectorLoads;
    CsrNumbers();
    RestorePrograms.RestoresVectors(Call(h, x, l.csrReg, l.vectorReg), e);
  }

  lemma RestoresFloatPart(caps: Caps, l: Memlayout, h: Hart, x: seq<Word>, e: Env)
    requires h.Shaped() && RegFile(x)
    ensures var r := RestoreFloats(caps, l, h, x, e);
            r.Some? && FloatsRestored(caps, l, r.value.f, e) && r.value.csr == h.csr && r.value.v == h.v
  {
    RestorePrograms.RestoresFloats(Call(h, x, l.floatReg, x[A1]), e);
  }

  lemma RestoresCsrPart(caps: Caps, l: Memlayout, h: Hart, x: seq<Word>, e: Env)
    requires h.Shaped() && RegFile(x)
    requires HypervisorRestored(caps, l, h.csr, e) && VectorsRestored(caps, l, h.csr, h.v, e)
    requires FloatsRestored(caps, l, h.f, e)
    ensures var r := RestoreCsrs(l, h, x, e);
            && r.Some? && StateRestored(caps, l, r.value.csr, r.value.f, r.value.v, e)
            && r.value.csr[MHARTID] == h.csr[MHARTID]
  {
    hide Run, CsrWord, RegWord, VectorWord, WithFrm, IsHypervisorCsr, IsRestoredCsr, CsrVector;
    CsrNumbers();
    RestorePrograms.RestoresCsrs(Call(h, x, l.csrReg, x[A1]), e);
  }

  /** Calling a routine of src/restore.S on a hart object. */
  method Invoke(core: Core, prog: seq<Instr>, a0: Word, a1: Word, e: Env)
    requires core.State().Shaped() && !core.trapped
    modifies core
    ensures core.State().Shaped()
    ensures core.trapped <==> Run(prog, Call(old(core.State()), old(core.x), a0, a1), e).None?
    ensures !core.trapped ==> Run(prog, Call(old(core.State()), old(core.x), a0, a1), e) == Some(core.State())
  {
    core.x := core.x[A0 := a0][A1 := a1];
    core.Execute(prog, e);
  }

  /** The whole sequence on one hart object, for every checkpoint and every combination of
  extensions: no access traps, and the hart ends with the checkpointed state and mstatus. */
  method RestoreHartState(core: Core, caps: Caps, l: Memlayout, e: Env)
    requires core.State().Shaped() && !core.trapped
    modifies core
    ensures core.State().Shaped() && !core.trapped
    ensures StateRestored(caps, l, core.csr, core.f, core.v, e)
    ensures core.csr[MHARTID] == old(core.csr[MHARTID])
  {
    RestoresHypervisorPart(caps, l, core.State(), core.x, e);
    if caps.rvh {
      Invoke(core, RVH_CSR_RESTORE, l.csrReg, core.x[A1], e);
    }
    RestoresVectorPart(caps, l, core.State(), core.x, e);
    if caps.rvv {
      Invoke(core, RVV_RESTORE, l.csrReg, l.vectorReg, e);
    }
    RestoresFloatPart(caps, l, core.State(), core.x, e);
    if caps.rvf {
      Invoke(core, RESTORE_FLOAT_VECTOR, l.floatReg, core.x[A1], e);
    }
    RestoresCsrPart(caps, l, core.State(), core.x, e);
    Invoke(core, RESTORE_CSR_VECTOR, l.csrReg, core.x[A1], e);
  }
}
