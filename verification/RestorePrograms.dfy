/** The programs of src/restore.S as instruction sequences, and what each of them leaves in
a hart: which registers hold which checkpoint words, that no floating-point or vector access
traps, and the final mstatus. */
module RestorePrograms {
  import opened Words
  import opened Options
  import opened Machine

  // ---------- program text ----------

  /** `li t2, id; slli t2, t2, 3; add t2, t0, t2; ld rd, (t2)`: t0 holds the base of the CSR area. */
  function LoadCsr(id: CsrId, rd: Reg): seq<Instr> {
    [Li(T2, id), Slli(T2, T2, 3), Add(T2, T0, T2), Ld(rd, 0, T2)]
  }

  /** `CSRS_RESTORE(name, addr)`. */
  function CsrsRestore(id: CsrId): seq<Instr> {
    LoadCsr(id, T1) + [Csrw(id, T1)]
  }

  function CsrBlock(ids: seq<CsrId>): seq<Instr> {
    if ids == [] then [] else CsrsRestore(ids[0]) + CsrBlock(ids[1..])
  }

  /** `CSRS` without its first entry, frm, in order. */
  const MACHINE_CSRS: seq<CsrId> := [
    0x30a,
    0x30c, 0x30d, 0x30e, 0x30f,
    0x300, 0x302, 0x303,
    0x304, 0x305, 0x306,
    0x340, 0x341, 0x342,
    0x343, 0x344]

  const PMP_CSRS: seq<CsrId> := [
    0x3a0, 0x3a2,
    0x3b0, 0x3b1, 0x3b2, 0x3b3,
    0x3b4, 0x3b5, 0x3b6, 0x3b7,
    0x3b8, 0x3b9, 0x3ba, 0x3bb,
    0x3bc, 0x3bd, 0x3be, 0x3bf]

  const SUPERVISOR_CSRS: seq<CsrId> := [
    0x105, 0x106,
    0x140, 0x141, 0x142,
    0x143,
    0x10a,
    0x10c, 0x10d, 0x10e, 0x10f,
    0x180]

  const CSRS_AFTER_FRM: seq<CsrId> := MACHINE_CSRS + PMP_CSRS + SUPERVISOR_CSRS

  const HCSRS: seq<CsrId> := [
    0x600, 0x602, 0x603,
    0x604, 0x606, 0x607,
    0x643, 0x644, 0x645,
    0x64A, 0x60A,
    0x60c, 0x60d, 0x60e, 0x60f,
    0x680, 0x605,
    0x200, 0x204, 0x205,
    0x240, 0x241, 0x242,
    0x243, 0x244, 0x280,
    0x34b, 0x34A]

  /** The prologue of `restore_csr_vector`: fcsr is written with the unit forced on. */
  const FORCE_FCSR: seq<Instr> := [Li(T0, 0x6000), Csrs(MSTATUS, T0), Csrw(FCSR, T1), Mv(T0, A0)]

  const FCSR_PROLOGUE: seq<Instr> := [Mv(T0, A0)] + (LoadCsr(FCSR, T1) + FORCE_FCSR)

  function CsrVector(ids: seq<CsrId>): seq<Instr> {
    FCSR_PROLOGUE + (CsrBlock([FRM] + ids) + [Li(A0, 1)])
  }

  const RESTORE_CSR_VECTOR: seq<Instr> := CsrVector(CSRS_AFTER_FRM)

  function HypervisorVector(ids: seq<CsrId>): seq<Instr> {
    [Mv(T0, A0)] + (CsrBlock(ids) + [Li(A0, 1)])
  }

  const RVH_CSR_RESTORE: seq<Instr> := HypervisorVector(HCSRS)

  /** Puts back the mstatus saved in t3. */
  const EPILOGUE: seq<Instr> := [Csrw(MSTATUS, T3), Li(A0, 1)]

  const FORCE_VS: seq<Instr> := [Mv(T0, A0), Csrr(T3, MSTATUS), Li(T1, 0x600), Csrs(MSTATUS, T1)]

  const SET_VL: seq<Instr> := [Vsetvl(T2, T2, T1), Addi(A1, A1, 0)]

  const VECTOR_PROLOGUE: seq<Instr> := FORCE_VS + (LoadCsr(VTYPE, T1) + (LoadCsr(VL, T2) + SET_VL))

  /** `vl1re64.v vk, (a1)` for k from `from` on, with a1 advanced by 16 in between. */
  function VectorLoads(from: nat): seq<Instr>
    requires from < 32
    decreases 32 - from
  {
    if from == 31 then [Vl1re64(31, A1)]
    else [Vl1re64(from, A1), Addi(A1, A1, 16)] + VectorLoads(from + 1)
  }

  const RVV_RESTORE: seq<Instr> := VECTOR_PROLOGUE + (VectorLoads(0) + EPILOGUE)

  const FLOAT_PROLOGUE: seq<Instr> := [Mv(T0, A0), Csrr(T3, MSTATUS), Li(T1, 0x6000), Csrs(MSTATUS, T1)]

  function FloatLoads(from: nat): seq<Instr>
    requires from <= 32
    decreases 32 - from
  {
    if from == 32 then [] else [Fld(from, from * 8, T0)] + FloatLoads(from + 1)
  }

  const RESTORE_FLOAT_VECTOR: seq<Instr> := FLOAT_PROLOGUE + (FloatLoads(0) + EPILOGUE)

  /** `ld xk, (k*8)(sp)` for k from `from` up to 31. */
  function IntLoads(from: nat): seq<Instr>
    requires from <= 32
    decreases 32 - from
  {
    if from == 32 then [] else [Ld(from, from * 8, SP)] + IntLoads(from + 1)
  }

  /** `restore_int_vector_mret` up to its `mret`. */
  const FIRST_MRET_LOADS: seq<Instr> := [Mv(SP, A0), Ld(1, 8, SP)]

  const RESTORE_INT_VECTOR_MRET: seq<Instr> := FIRST_MRET_LOADS + (IntLoads(3) + [Ld(SP, 16, SP)])

  /** `restore_int_vector_jump` up to its `jal`; x5 and x6 are left for the slot. */
  const FIRST_INT_LOADS: seq<Instr> := [Mv(SP, A0), Ld(1, 8, SP), Ld(3, 24, SP), Ld(4, 32, SP)]

  const RESTORE_INT_VECTOR_JUMP: seq<Instr> := FIRST_INT_LOADS + IntLoads(7)

  /** `jump_to_core` up to its `jr t0`. */
  function JumpToCore(core0: Word): seq<Instr> {
    [Csrr(T0, MHARTID), Slli(T0, T0, 4), Li(T1, core0), Add(T0, T0, T1)]
  }

  // ---------- one CSR ----------

  function CsrAddr(base: Word, id: CsrId): Word {
    Wrap64(base + 8 * id)
  }

  /** The checkpointed word of a CSR. */
  function CsrWord(e: Env, base: Word, id: CsrId): Word {
    e.mem(CsrAddr(base, id))
  }

  /** h' differs from h at most in t1, t2 and the CSRs. */
  predicate OnlyCsrs(h: Hart, h': Hart) {
    && h.Shaped() && h'.Shaped()
    && h'.f == h.f && h'.v == h.v
    && forall r: Reg :: r != T1 && r != T2 ==> h'.x[r] == h.x[r]
  }

  /** A program runs through the given states when each instruction leads from one to the next. */
  predicate Traces(p: seq<Instr>, states: seq<Hart>, e: Env) {
    && |states| == |p| + 1
    && (forall k :: 0 <= k < |states| ==> states[k].Shaped())
    && forall k :: 0 <= k < |p| ==> Exec(p[k], states[k], e) == Some(states[k + 1])
  }

  lemma {:induction false} RunsThrough(p: seq<Instr>, states: seq<Hart>, e: Env)
    requires Traces(p, states, e)
    ensures Run(p, states[0], e) == Some(states[|p|])
  {
    if p != [] {
      RunsThrough(p[1..], states[1..], e);
    }
  }

  lemma RunsOne(i: Instr, h: Hart, e: Env)
    requires h.Shaped()
    ensures Run([i], h, e) == Exec(i, h, e)
  {
    assert [i][1..] == [];
  }

  lemma WrapWord(w: Word)
    ensures Wrap64(w) == w
  {
  }

  lemma LoadsCsrWord(id: CsrId, rd: Reg, h: Hart, e: Env)
    requires h.Shaped()
    ensures Run(LoadCsr(id, rd), h, e) ==
            Some(h.SetX(T2, CsrAddr(h.x[T0], id)).SetX(rd, CsrWord(e, h.x[T0], id)))
  {
    var a := CsrAddr(h.x[T0], id);
    assert Wrap64(Shl(id, 3)) == 8 * id by {
      ShlSmall(id);
      WrapWord(8 * id);
    }
    assert Wrap64(a + 0) == a by {
      WrapWord(a);
    }
    var h1 := h.SetX(T2, id);
    var h2 := h1.SetX(T2, 8 * id);
    var h3 := h2.SetX(T2, a);
    var h4 := h3.SetX(rd, CsrWord(e, h.x[T0], id));
    assert Exec(Slli(T2, T2, 3), h1, e) == Some(h2);
    assert Exec(Add(T2, T0, T2), h2, e) == Some(h3);
    assert Exec(Ld(rd, 0, T2), h3, e) == Some(h4);
    RunsThrough(LoadCsr(id, rd), [h, h1, h2, h3, h4], e);
    assert h3 == h.SetX(T2, a);
  }

  lemma RestoresOneCsr(id: CsrId, h: Hart, e: Env)
    requires h.Shaped()
    ensures var w := CsrWord(e, h.x[T0], id);
            match WriteCsr(h, id, w)
            case None => Run(CsrsRestore(id), h, e) == None
            case Some(g) => Run(CsrsRestore(id), h, e).Some?
                            && var h' := Run(CsrsRestore(id), h, e).value; h'.csr == g.csr && OnlyCsrs(h, h')
  {
    RunAppend(LoadCsr(id, T1), [Csrw(id, T1)], h, e);
    LoadsCsrWord(id, T1, h, e);
    RunsOne(Csrw(id, T1), Run(LoadCsr(id, T1), h, e).value, e);
  }

  /** A block of ordinary CSRs: each listed one holds its checkpoint word, the others keep theirs. */
  predicate BlockRestored(ids: seq<CsrId>, h: Hart, h': Hart, e: Env)
    requires h.Shaped() && h'.Shaped()
  {
    forall id: CsrId :: h'.csr[id] == if id in ids then CsrWord(e, h.x[T0], id) else h.csr[id]
  }

  lemma {:induction false} RestoresBlock(ids: seq<CsrId>, h: Hart, e: Env)
    requires h.Shaped() && FRM !in ids && FCSR !in ids
    ensures Run(CsrBlock(ids), h, e).Some?
    ensures var h' := Run(CsrBlock(ids), h, e).value; OnlyCsrs(h, h') && BlockRestored(ids, h, h', e)
  {
    if ids != [] {
      RestoresOneCsr(ids[0], h, e);
      var h1 := Run(CsrsRestore(ids[0]), h, e).value;
      RestoresBlock(ids[1..], h1, e);
      RunAppend(CsrsRestore(ids[0]), CsrBlock(ids[1..]), h, e);
      assert forall id :: id in ids <==> id == ids[0] || id in ids[1..];
    }
  }

  // ---------- restore_csr_vector ----------

  lemma ForcesFcsr(h: Hart, e: Env)
    requires h.Shaped()
    ensures Run(FORCE_FCSR, h, e).Some?
    ensures var h' := Run(FORCE_FCSR, h, e).value;
            && h'.f == h.f && h'.v == h.v
            && h'.x == h.x[T0 := h.x[A0]]
            && Fs(h'.csr[MSTATUS]) == 3
            && h'.csr == h.csr[MSTATUS := h'.csr[MSTATUS]][FCSR := h.x[T1]]
  {
    TurnsFsOn(h.csr[MSTATUS]);
    var h1 := h.SetX(T0, 0x6000);
    var h2 := h1.SetCsr(MSTATUS, OrWords(h.csr[MSTATUS], 0x6000));
    var h3 := h2.SetCsr(FCSR, h.x[T1]);
    var h4 := h3.SetX(T0, h.x[A0]);
    RunsThrough(FORCE_FCSR, [h, h1, h2, h3, h4], e);
  }

  lemma RunsFcsrPrologue(h: Hart, e: Env)
    requires h.Shaped()
    ensures Run(FCSR_PROLOGUE, h, e).Some?
    ensures var h' := Run(FCSR_PROLOGUE, h, e).value;
            && h'.f == h.f && h'.v == h.v
            && h'.x[T0] == h.x[A0] && h'.x[A0] == h.x[A0]
            && Fs(h'.csr[MSTATUS]) == 3
            && h'.csr == h.csr[MSTATUS := h'.csr[MSTATUS]][FCSR := CsrWord(e, h.x[A0], FCSR)]
  {
    RunAppend([Mv(T0, A0)], LoadCsr(FCSR, T1) + FORCE_FCSR, h, e);
    RunsOne(Mv(T0, A0), h, e);
    var h1 := h.SetX(T0, h.x[A0]);
    RunAppend(LoadCsr(FCSR, T1), FORCE_FCSR, h1, e);
    LoadsCsrWord(FCSR, T1, h1, e);
    ForcesFcsr(Run(LoadCsr(FCSR, T1), h1, e).value, e);
  }

  // ---------- which CSRs are restored, by number ----------

  /** The CSRs `restore_csr_vector` writes besides frm and fcsr: machine trap setup and handling,
  physical memory protection, and the supervisor CSRs up to satp. */
  predicate IsRestoredCsr(id: CsrId) {
    || id == 0x300 || 0x302 <= id <= 0x306 || id == 0x30a || 0x30c <= id <= 0x30f
    || 0x340 <= id <= 0x344
    || id == 0x3a0 || id == 0x3a2 || 0x3b0 <= id <= 0x3bf
    || id == 0x105 || id == 0x106 || id == 0x10a || 0x10c <= id <= 0x10f
    || 0x140 <= id <= 0x143 || id == 0x180
  }

  /** The CSRs `rvh_csr_restore` writes: hypervisor, virtual supervisor, mtinst and mtval2. */
  predicate IsHypervisorCsr(id: CsrId) {
    || id == 0x600 || 0x602 <= id <= 0x607 || id == 0x60a || 0x60c <= id <= 0x60f
    || 0x643 <= id <= 0x645 || id == 0x64a || id == 0x680
    || id == 0x200 || id == 0x204 || id == 0x205 || 0x240 <= id <= 0x244 || id == 0x280
    || id == 0x34a || id == 0x34b
  }

  lemma MachineList(id: CsrId)
    ensures id in MACHINE_CSRS <==>
            (id == 0x300 || 0x302 <= id <= 0x306 || id == 0x30a || 0x30c <= id <= 0x30f || 0x340 <= id <= 0x344)
  {
  }

  lemma PmpList(id: CsrId)
    ensures id in PMP_CSRS <==> (id == 0x3a0 || id == 0x3a2 || 0x3b0 <= id <= 0x3bf)
  {
  }

  lemma SupervisorList(id: CsrId)
    ensures id in SUPERVISOR_CSRS <==>
            (id == 0x105 || id == 0x106 || id == 0x10a || 0x10c <= id <= 0x10f || 0x140 <= id <= 0x143 || id == 0x180)
  {
  }

  lemma HypervisorList(id: CsrId)
    ensures id in HCSRS <==> IsHypervisorCsr(id)
  {
  }

  lemma RestoredList(id: CsrId)
    ensures id in CSRS_AFTER_FRM <==> IsRestoredCsr(id)
  {
    MachineList(id);
    PmpList(id);
    SupervisorList(id);
  }

  /** The CSRs after `restore_csr_vector` with the CSR area at `base`: fcsr from its own word with
  the rounding mode of the frm word, every listed CSR from its word, the rest untouched. */
  predicate ListedCsrsRestored(ids: seq<CsrId>, base: Word, h: Hart, h': Hart, e: Env)
    requires h.Shaped() && h'.Shaped()
  {
    forall id: CsrId ::
      h'.csr[id] ==
      if id == FCSR then WithFrm(CsrWord(e, base, FCSR), CsrWord(e, base, FRM))
      else if id in ids then CsrWord(e, base, id)
      else h.csr[id]
  }

  predicate CsrsRestored(base: Word, h: Hart, h': Hart, e: Env)
    requires h.Shaped() && h'.Shaped()
  {
    forall id: CsrId ::
      h'.csr[id] ==
      if id == FCSR then WithFrm(CsrWord(e, base, FCSR), CsrWord(e, base, FRM))
      else if IsRestoredCsr(id) then CsrWord(e, base, id)
      else h.csr[id]
  }

  /** frm and fcsr need the floating-point unit; no other restored CSR does. */
  lemma OrdinaryCsrs()
    ensures FRM !in CSRS_AFTER_FRM && FCSR !in CSRS_AFTER_FRM && MSTATUS in CSRS_AFTER_FRM
    ensures FRM !in HCSRS && FCSR !in HCSRS
  {
    RestoredList(FRM);
    RestoredList(FCSR);
    RestoredList(MSTATUS);
    HypervisorList(FRM);
    HypervisorList(FCSR);
  }

  lemma RestoresCsrs(h: Hart, e: Env)
    requires h.Shaped()
    ensures Run(RESTORE_CSR_VECTOR, h, e).Some?
    ensures var h' := Run(RESTORE_CSR_VECTOR, h, e).value;
            h'.f == h.f && h'.v == h.v && CsrsRestored(h.x[A0], h, h', e)
  {
    hide Run, CsrWord, WithFrm, IsRestoredCsr;
    OrdinaryCsrs();
    RestoresListedCsrs(CSRS_AFTER_FRM, h, e);
    forall id: CsrId
      ensures id in CSRS_AFTER_FRM <==> IsRestoredCsr(id)
    {
      RestoredList(id);
    }
  }

  lemma RestoresListedCsrs(ids: seq<CsrId>, h: Hart, e: Env)
    requires h.Shaped() && FRM !in ids && FCSR !in ids && MSTATUS in ids
    ensures Run(CsrVector(ids), h, e).Some?
    ensures var h' := Run(CsrVector(ids), h, e).value;
            && h'.f == h.f && h'.v == h.v
            && ListedCsrsRestored(ids, h.x[A0], h, h', e)
  {
    RunAppend(FCSR_PROLOGUE, CsrBlock([FRM] + ids) + [Li(A0, 1)], h, e);
    RunsFcsrPrologue(h, e);
    var h1 := Run(FCSR_PROLOGUE, h, e).value;
    RunAppend(CsrBlock([FRM] + ids), [Li(A0, 1)], h1, e);
    assert ([FRM] + ids)[0] == FRM && ([FRM] + ids)[1..] == ids;
    RunAppend(CsrsRestore(FRM), CsrBlock(ids), h1, e);
    RestoresOneCsr(FRM, h1, e);
    var h2 := Run(CsrsRestore(FRM), h1, e).value;
    RestoresBlock(ids, h2, e);
    var h3 := Run(CsrBlock(ids), h2, e).value;
    RunsOne(Li(A0, 1), h3, e);
  }

  // ---------- rvh_csr_restore ----------

  lemma RestoresHypervisorCsrs(h: Hart, e: Env)
    requires h.Shaped()
    ensures Run(RVH_CSR_RESTORE, h, e).Some?
    ensures var h' := Run(RVH_CSR_RESTORE, h, e).value;
            h'.f == h.f && h'.v == h.v
            && forall id: CsrId :: h'.csr[id] == if IsHypervisorCsr(id) then CsrWord(e, h.x[A0], id) else h.csr[id]
  {
    hide Run, CsrWord, IsHypervisorCsr;
    OrdinaryCsrs();
    RestoresListedHypervisorCsrs(HCSRS, h, e);
    forall id: CsrId
      ensures id in HCSRS <==> IsHypervisorCsr(id)
    {
      HypervisorList(id);
    }
  }

  lemma RestoresListedHypervisorCsrs(ids: seq<CsrId>, h: Hart, e: Env)
    requires h.Shaped() && FRM !in ids && FCSR !in ids
    ensures Run(HypervisorVector(ids), h, e).Some?
    ensures var h' := Run(HypervisorVector(ids), h, e).value;
            h'.f == h.f && h'.v == h.v
            && forall id: CsrId :: h'.csr[id] == if id in ids then CsrWord(e, h.x[A0], id) else h.csr[id]
  {
    RunAppend([Mv(T0, A0)], CsrBlock(ids) + [Li(A0, 1)], h, e);
    RunsOne(Mv(T0, A0), h, e);
    var h1 := h.SetX(T0, h.x[A0]);
    RunAppend(CsrBlock(ids), [Li(A0, 1)], h1, e);
    RestoresBlock(ids, h1, e);
    var h2 := Run(CsrBlock(ids), h1, e).value;
    RunsOne(Li(A0, 1), h2, e);
  }

  // ---------- the two epilogues that put mstatus back ----------

  lemma RunsEpilogue(h: Hart, e: Env)
    requires h.Shaped()
    ensures Run(EPILOGUE, h, e) == Some(h.SetCsr(MSTATUS, h.x[T3]).SetX(A0, 1))
  {
    var h1 := h.SetCsr(MSTATUS, h.x[T3]);
    RunsThrough(EPILOGUE, [h, h1, h1.SetX(A0, 1)], e);
  }

  // ---------- restore_float_vector ----------

  /** The k-th word of a register area. */
  function RegWord(e: Env, base: Word, k: nat): Word {
    e.mem(Wrap64(base + 8 * k))
  }

  lemma {:induction false} LoadsFloats(from: nat, h: Hart, e: Env)
    requires h.Shaped() && from <= 32 && FsOn(h)
    ensures Run(FloatLoads(from), h, e).Some?
    ensures var h' := Run(FloatLoads(from), h, e).value;
            h'.x == h.x && h'.v == h.v && h'.csr == h.csr
            && forall k: Reg :: h'.f[k] == if k >= from then RegWord(e, h.x[T0], k) else h.f[k]
    decreases 32 - from
  {
    if from < 32 {
      var h1 := h.(f := h.f[from := RegWord(e, h.x[T0], from)]);
      assert FloatLoads(from)[1..] == FloatLoads(from + 1);
      LoadsFloats(from + 1, h1, e);
    }
  }

  /** Every `fld` runs with FS on; f0..f31 hold the checkpoint words and mstatus is what it was. */
  lemma RestoresFloats(h: Hart, e: Env)
    requires h.Shaped()
    ensures Run(RESTORE_FLOAT_VECTOR, h, e).Some?
    ensures var h' := Run(RESTORE_FLOAT_VECTOR, h, e).value;
            h'.v == h.v && h'.csr == h.csr
            && forall k: Reg :: h'.f[k] == RegWord(e, h.x[A0], k)
  {
    ForcesFs(h, e);
    var h1 := Run(FLOAT_PROLOGUE, h, e).value;
    RunAppend(FLOAT_PROLOGUE, FloatLoads(0) + EPILOGUE, h, e);
    RunAppend(FloatLoads(0), EPILOGUE, h1, e);
    LoadsFloats(0, h1, e);
    var h2 := Run(FloatLoads(0), h1, e).value;
    RunsEpilogue(h2, e);
    assert h2.SetCsr(MSTATUS, h2.x[T3]).csr == h.csr;
  }

  lemma ForcesFs(h: Hart, e: Env)
    requires h.Shaped()
    ensures Run(FLOAT_PROLOGUE, h, e).Some?
    ensures var h' := Run(FLOAT_PROLOGUE, h, e).value;
            && h'.f == h.f && h'.v == h.v && FsOn(h')
            && h'.x[T0] == h.x[A0] && h'.x[T3] == h.csr[MSTATUS]
            && h'.csr == h.csr[MSTATUS := h'.csr[MSTATUS]]
  {
    TurnsFsOn(h.csr[MSTATUS]);
    var h1 := h.SetX(T0, h.x[A0]);
    var h2 := h1.SetX(T3, h.csr[MSTATUS]);
    var h3 := h2.SetX(T1, 0x6000);
    var h4 := h3.SetCsr(MSTATUS, OrWords(h.csr[MSTATUS], 0x6000));
    RunsThrough(FLOAT_PROLOGUE, [h, h1, h2, h3, h4], e);
  }

  // ---------- rvv_restore ----------

  /** The pair of words of vector register k when v0 is at `base`. */
  function VectorWord(e: Env, base: Word, k: nat): (Word, Word) {
    (e.mem(Wrap64(base + 16 * k)), e.mem(Wrap64(Wrap64(base + 16 * k) as int + 8)))
  }

  lemma NextVectorAddress(base: Word, from: nat)
    ensures Wrap64(Wrap64(base + 16 * from) + 16) == Wrap64(base + 16 * (from + 1))
  {
    WrapAdd(base + 16 * from, 16);
  }

  lemma {:induction false} LoadsVectors(from: nat, base: Word, h: Hart, e: Env)
    requires h.Shaped() && from < 32 && VsOn(h) && h.x[A1] == Wrap64(base + 16 * from)
    ensures Run(VectorLoads(from), h, e).Some?
    ensures var h' := Run(VectorLoads(from), h, e).value;
            h'.f == h.f && h'.csr == h.csr && h'.x[T3] == h.x[T3]
            && forall k: Reg :: h'.v[k] == if k >= from then VectorWord(e, base, k) else h.v[k]
    decreases 32 - from
  {
    var h1 := h.(v := h.v[from := VectorWord(e, base, from)]);
    if from == 31 {
      RunsOne(Vl1re64(31, A1), h, e);
    } else {
      NextVectorAddress(base, from);
      var h2 := h1.SetX(A1, Wrap64(base + 16 * (from + 1)));
      RunsThrough([Vl1re64(from, A1), Addi(A1, A1, 16)], [h, h1, h2], e);
      RunAppend([Vl1re64(from, A1), Addi(A1, A1, 16)], VectorLoads(from + 1), h, e);
      LoadsVectors(from + 1, base, h2, e);
    }
  }

  /** Up to the first load: VS is on, a1 is unchanged, the old mstatus is kept in t3, and
  vl and vtype were set from their checkpoint words. */
  lemma RunsVectorPrologue(h: Hart, e: Env)
    requires h.Shaped()
    ensures Run(VECTOR_PROLOGUE, h, e).Some?
    ensures var h' := Run(VECTOR_PROLOGUE, h, e).value;
            && h'.f == h.f && h'.v == h.v
            && h'.x[A1] == h.x[A1] && h'.x[T3] == h.csr[MSTATUS]
            && Vs(h'.csr[MSTATUS]) == 3
            && var vtype := CsrWord(e, h.x[A0], VTYPE);
               h'.csr == h.csr[MSTATUS := h'.csr[MSTATUS]]
                         [VL := e.grantedVl(CsrWord(e, h.x[A0], VL), vtype)][VTYPE := vtype]
  {
    ForcesVs(h, e);
    var h1 := Run(FORCE_VS, h, e).value;
    var setVl := LoadCsr(VL, T2) + SET_VL;
    RunAppend(FORCE_VS, LoadCsr(VTYPE, T1) + setVl, h, e);
    RunAppend(LoadCsr(VTYPE, T1), setVl, h1, e);
    LoadsCsrWord(VTYPE, T1, h1, e);
    var h2 := Run(LoadCsr(VTYPE, T1), h1, e).value;
    RunAppend(LoadCsr(VL, T2), SET_VL, h2, e);
    LoadsCsrWord(VL, T2, h2, e);
    SetsVl(Run(LoadCsr(VL, T2), h2, e).value, e);
  }

  lemma ForcesVs(h: Hart, e: Env)
    requires h.Shaped()
    ensures Run(FORCE_VS, h, e).Some?
    ensures var h' := Run(FORCE_VS, h, e).value;
            && h'.f == h.f && h'.v == h.v && Vs(h'.csr[MSTATUS]) == 3
            && h'.x[T0] == h.x[A0] && h'.x[A1] == h.x[A1] && h'.x[T3] == h.csr[MSTATUS]
            && h'.csr == h.csr[MSTATUS := h'.csr[MSTATUS]]
  {
    TurnsVsOn(h.csr[MSTATUS]);
    var h1 := h.SetX(T0, h.x[A0]);
    var h2 := h1.SetX(T3, h.csr[MSTATUS]);
    var h3 := h2.SetX(T1, 0x600);
    var h4 := h3.SetCsr(MSTATUS, OrWords(h.csr[MSTATUS], 0x600));
    RunsThrough(FORCE_VS, [h, h1, h2, h3, h4], e);
  }

  lemma SetsVl(h: Hart, e: Env)
    requires h.Shaped() && VsOn(h)
    ensures Run(SET_VL, h, e).Some?
    ensures var h' := Run(SET_VL, h, e).value;
            && h'.f == h.f && h'.v == h.v && h'.x == h.x[T2 := h'.x[T2]]
            && h'.csr == h.csr[VL := e.grantedVl(h.x[T2], h.x[T1])][VTYPE := h.x[T1]]
  {
    var granted := e.grantedVl(h.x[T2], h.x[T1]);
    var h1 := h.SetCsr(VL, granted).SetCsr(VTYPE, h.x[T1]).SetX(T2, granted);
    WrapWord(h1.x[A1]);
    RunsThrough(SET_VL, [h, h1, h1.SetX(A1, h1.x[A1])], e);
    assert h1.SetX(A1, h1.x[A1]).x == h1.x;
  }

  /** Every vector access runs with VS on; v0..v31 hold the checkpoint words and mstatus is what it was. */
  lemma RestoresVectors(h: Hart, e: Env)
    requires h.Shaped()
    ensures Run(RVV_RESTORE, h, e).Some?
    ensures var h' := Run(RVV_RESTORE, h, e).value;
            && h'.f == h.f
            && (forall k: Reg :: h'.v[k] == VectorWord(e, h.x[A1], k))
            && var vtype := CsrWord(e, h.x[A0], VTYPE);
               h'.csr == h.csr[VL := e.grantedVl(CsrWord(e, h.x[A0], VL), vtype)][VTYPE := vtype]
  {
    hide Run, CsrWord, VectorWord, VectorLoads;
    RunAppend(VECTOR_PROLOGUE, VectorLoads(0) + EPILOGUE, h, e);
    RunsVectorPrologue(h, e);
    var h1 := Run(VECTOR_PROLOGUE, h, e).value;
    RunAppend(VectorLoads(0), EPILOGUE, h1, e);
    WrapWord(h.x[A1]);
    LoadsVectors(0, h.x[A1], h1, e);
    var h2 := Run(VectorLoads(0), h1, e).value;
    RunsEpilogue(h2, e);
    var vtype := CsrWord(e, h.x[A0], VTYPE);
    assert h2.SetCsr(MSTATUS, h.csr[MSTATUS]).csr ==
      h.csr[VL := e.grantedVl(CsrWord(e, h.x[A0], VL), vtype)][VTYPE := vtype];
  }

  // ---------- the integer registers ----------

  lemma {:induction false} LoadsInts(from: nat, h: Hart, e: Env)
    requires h.Shaped() && 3 <= from <= 32
    ensures Run(IntLoads(from), h, e).Some?
    ensures var h' := Run(IntLoads(from), h, e).value;
            h'.f == h.f && h'.v == h.v && h'.csr == h.csr
            && forall k: Reg :: h'.x[k] == if k >= from then RegWord(e, h.x[SP], k) else h.x[k]
    decreases 32 - from
  {
    if from < 32 {
      var h1 := h.SetX(from, RegWord(e, h.x[SP], from));
      assert IntLoads(from)[1..] == IntLoads(from + 1);
      LoadsInts(from + 1, h1, e);
    }
  }

  /** Apart from x0, every integer register holds its checkpoint word. */
  predicate IntsRestored(base: Word, h: Hart, e: Env)
    requires h.Shaped()
  {
    forall k: Reg | k != 0 :: h.x[k] == RegWord(e, base, k)
  }

  lemma RestoresIntsForMret(h: Hart, e: Env)
    requires h.Shaped()
    ensures Run(RESTORE_INT_VECTOR_MRET, h, e).Some?
    ensures var h' := Run(RESTORE_INT_VECTOR_MRET, h, e).value;
            h'.f == h.f && h'.v == h.v && h'.csr == h.csr && IntsRestored(h.x[A0], h', e)
  {
    var base := h.x[A0];
    var h1 := h.SetX(SP, base);
    var h2 := h1.SetX(1, RegWord(e, base, 1));
    assert Exec(Ld(1, 8, SP), h1, e) == Some(h2);
    RunsThrough(FIRST_MRET_LOADS, [h, h1, h2], e);
    RunAppend(FIRST_MRET_LOADS, IntLoads(3) + [Ld(SP, 16, SP)], h, e);
    RunAppend(IntLoads(3), [Ld(SP, 16, SP)], h2, e);
    LoadsInts(3, h2, e);
    LoadsSpLast(Run(IntLoads(3), h2, e).value, e);
  }

  lemma LoadsSpLast(h: Hart, e: Env)
    requires h.Shaped()
    ensures Run([Ld(SP, 16, SP)], h, e) == Some(h.SetX(SP, RegWord(e, h.x[SP], SP)))
  {
    RunsOne(Ld(SP, 16, SP), h, e);
  }

  /** Everything but x5, x6 and sp is loaded, and sp points at the register area. */
  predicate ReadyForSlot(base: Word, h: Hart, e: Env)
    requires h.Shaped()
  {
    h.x[SP] == base && forall k: Reg | k !in {0, T0, T1, SP} :: h.x[k] == RegWord(e, base, k)
  }

  lemma RestoresIntsForJump(h: Hart, e: Env)
    requires h.Shaped()
    ensures Run(RESTORE_INT_VECTOR_JUMP, h, e).Some?
    ensures var h' := Run(RESTORE_INT_VECTOR_JUMP, h, e).value;
            h'.f == h.f && h'.v == h.v && h'.csr == h.csr && ReadyForSlot(h.x[A0], h', e)
  {
    RunAppend(FIRST_INT_LOADS, IntLoads(7), h, e);
    LoadsFirstInts(h, e);
    LoadsInts(7, Run(FIRST_INT_LOADS, h, e).value, e);
  }

  lemma LoadsFirstInts(h: Hart, e: Env)
    requires h.Shaped()
    ensures Run(FIRST_INT_LOADS, h, e).Some?
    ensures var h' := Run(FIRST_INT_LOADS, h, e).value;
            h'.f == h.f && h'.v == h.v && h'.csr == h.csr
            && h'.x[SP] == h.x[A0] && forall k: Reg | k in {1, 3, 4} :: h'.x[k] == RegWord(e, h.x[A0], k)
  {
    var base := h.x[A0];
    var h1 := h.SetX(SP, base);
    var h2 := h1.SetX(1, RegWord(e, base, 1));
    var h3 := h2.SetX(3, RegWord(e, base, 3));
    var h4 := h3.SetX(4, RegWord(e, base, 4));
    assert Exec(Ld(1, 8, SP), h1, e) == Some(h2);
    assert Exec(Ld(3, 24, SP), h2, e) == Some(h3);
    assert Exec(Ld(4, 32, SP), h3, e) == Some(h4);
    RunsThrough(FIRST_INT_LOADS, [h, h1, h2, h3, h4], e);
  }

  /** `jump_to_core` clobbers only t0 and t1 and leaves core0 + 16*mhartid in t0. */
  lemma SelectsSlot(core0: Word, h: Hart, e: Env)
    requires h.Shaped() && h.csr[MHARTID] < 128
    ensures Run(JumpToCore(core0), h, e).Some?
    ensures var h' := Run(JumpToCore(core0), h, e).value;
            h'.f == h.f && h'.v == h.v && h'.csr == h.csr
            && h'.x == h.x[T0 := Wrap64(core0 + 16 * h.csr[MHARTID])][T1 := core0]
  {
    var id := h.csr[MHARTID];
    ShlSmall(id);
    var h1 := h.SetX(T0, id);
    var h2 := h1.SetX(T0, Wrap64(Shl(id, 4)));
    var h3 := h2.SetX(T1, core0);
    var h4 := h3.SetX(T0, Wrap64(h3.x[T0] as int + core0));
    RunsThrough(JumpToCore(core0), [h, h1, h2, h3, h4], e);
  }
}
