/** The restore as the checkpoint image describes it: which word of the image each part of a hart's
state comes from, by offset, register number and CSR number, apart from the code that computes it. */
module Image {
  import opened Words
  import opened Options
  import opened Machine
  import opened RestorePrograms
  import opened DecodeRestore
  import opened Protocol
  import Jal

  // ---------- words of the image ----------

  /** Where byte `offset` of hart h's region lies. */
  function ImageAddress(c: Config, h: nat, offset: nat): int {
    offset + h * c.size + c.base
  }

  /** The word there; addresses are 64 bits wide. */
  function ImageWord(c: Config, h: nat, offset: nat): (w: Word)
    ensures var a := ImageAddress(c, h, offset); 0 <= a < TWO64 ==> w == c.mem(a)
  {
    c.mem(Wrap64(ImageAddress(c, h, offset)))
  }

  /** The image as it is meant to be: every field inside its hart's region, all regions in memory. */
  predicate RegionsFit(c: Config) {
    FitsCore(c.layout, c.size, c.n) && c.base + c.n * c.size <= TWO64
  }

  /** Then no address wraps: byte d of field i of hart h is at the sum of its offsets. */
  lemma ReadIsPlain(c: Config, h: nat, i: nat, d: nat)
    requires RegionsFit(c) && h < c.n && i < 16 && d + 8 <= Extent(i, h)
    ensures Holds(c, h, c.layout.Fields()[i] + d, ImageWord(c, h, c.layout.Fields()[i] + d))
  {
    RegionBelow(c.base, c.size, c.n, h);
    assert c.layout.Fields()[i] + Extent(i, h) <= c.size;
  }

  /** w is the word of memory at the plain sum of the offsets, which is an address. */
  predicate Holds(c: Config, h: nat, offset: nat, w: Word) {
    var a := offset + h * c.size + c.base;
    0 <= a && a + 8 <= TWO64 && w == c.mem(a)
  }

  /** Every word the restorer takes for hart h is in memory at its plain address. */
  lemma ReadsArePlain(c: Config, h: nat)
    requires RegionsFit(c) && h < c.n
    ensures var m := c.layout;
            && Holds(c, h, m.pc, ImageWord(c, h, m.pc))
            && Holds(c, h, m.mtimeCmp + 8 * h, ImageWord(c, h, m.mtimeCmp + 8 * h))
            && (forall k: Reg :: Holds(c, h, m.intReg + 8 * k, ImageWord(c, h, m.intReg + 8 * k)))
            && (forall k: Reg :: Holds(c, h, m.floatReg + 8 * k, ImageWord(c, h, m.floatReg + 8 * k)))
            && (forall k: Reg :: Holds(c, h, m.vectorReg + 16 * k, ImageWord(c, h, m.vectorReg + 16 * k)))
            && (forall k: Reg :: Holds(c, h, m.vectorReg + (16 * k + 8), ImageWord(c, h, m.vectorReg + (16 * k + 8))))
            && (forall id: CsrId :: Holds(c, h, m.csrReg + 8 * id, ImageWord(c, h, m.csrReg + 8 * id)))
  {
    hide ImageWord, Holds;
    ReadIsPlain(c, h, 1, 0);
    ReadIsPlain(c, h, 4, 8 * h);
    forall k: Reg
      ensures Holds(c, h, c.layout.intReg + 8 * k, ImageWord(c, h, c.layout.intReg + 8 * k))
    {
      ReadIsPlain(c, h, 7, 8 * k);
    }
    forall k: Reg
      ensures Holds(c, h, c.layout.floatReg + 8 * k, ImageWord(c, h, c.layout.floatReg + 8 * k))
    {
      ReadIsPlain(c, h, 9, 8 * k);
    }
    forall k: Reg
      ensures Holds(c, h, c.layout.vectorReg + 16 * k, ImageWord(c, h, c.layout.vectorReg + 16 * k))
      ensures Holds(c, h, c.layout.vectorReg + (16 * k + 8), ImageWord(c, h, c.layout.vectorReg + (16 * k + 8)))
    {
      ReadIsPlain(c, h, 14, 16 * k);
      ReadIsPlain(c, h, 14, 16 * k + 8);
    }
    forall id: CsrId
      ensures Holds(c, h, c.layout.csrReg + 8 * id, ImageWord(c, h, c.layout.csrReg + 8 * id))
    {
      ReadIsPlain(c, h, 11, 8 * id);
    }
  }

  // ---------- the layout code reads it ----------

  /** An address of the common layout moved to hart h. */
  function Relocate(c: Config, h: nat, field: Word): Word {
    Wrap64(field + Wrap64(h * c.size + c.base))
  }

  lemma LayoutOfHart(c: Config, h: nat)
    ensures var l, m := c.L(h), c.layout;
            && l.pc == Relocate(c, h, m.pc) && l.mode == Relocate(c, h, m.mode)
            && l.mtime == Relocate(c, h, m.mtime) && l.mtimeCmp == Relocate(c, h, m.mtimeCmp)
            && l.intReg == Relocate(c, h, m.intReg) && l.floatReg == Relocate(c, h, m.floatReg)
            && l.csrReg == Relocate(c, h, m.csrReg) && l.csrReserve == Relocate(c, h, m.csrReserve)
            && l.vectorReg == Relocate(c, h, m.vectorReg)
  {
    hide Wrap64;
  }

  lemma ReadsImage(c: Config, h: nat, field: Word, d: nat)
    ensures c.mem(Wrap64(Relocate(c, h, field) + d)) == ImageWord(c, h, field + d)
  {
    hide Wrap64;
    var region: int := h * c.size + c.base;
    WrapAdd(region, field);
    WrapAdd(region + field, d);
  }

  lemma ReadsFirstWord(c: Config, h: nat, field: Word)
    ensures c.mem(Relocate(c, h, field)) == ImageWord(c, h, field)
  {
    ReadsImage(c, h, field, 0);
    WrapWord(Relocate(c, h, field));
  }

  /** `all_cpu_num` of hart h is the signed low half of its own csr_reserve word. */
  lemma CpuCountFromImage(c: Config, h: nat)
    ensures c.AllCpu(h) == Signed32(ImageWord(c, h, c.layout.csrReserve))
  {
    hide GetCoreMemlayout, Signed32, Relocate, ImageWord;
    LayoutOfHart(c, h);
    ReadsFirstWord(c, h, c.layout.csrReserve);
  }

  lemma MtimeFromImage(c: Config, h: nat)
    ensures c.mem(c.L(h).mtime) == ImageWord(c, h, c.layout.mtime)
  {
    hide GetCoreMemlayout, Relocate, ImageWord;
    LayoutOfHart(c, h);
    ReadsFirstWord(c, h, c.layout.mtime);
  }

  lemma MtimeCmpFromImage(c: Config, h: nat)
    ensures RegWord(c.E(), c.L(h).mtimeCmp, h) == ImageWord(c, h, c.layout.mtimeCmp + 8 * h)
  {
    hide GetCoreMemlayout, Relocate, ImageWord;
    LayoutOfHart(c, h);
    ReadsImage(c, h, c.layout.mtimeCmp, 8 * h);
  }

  // ---------- what the image says can be restored ----------

  function CsrImage(c: Config, h: nat, id: CsrId): Word {
    ImageWord(c, h, c.layout.csrReg + 8 * id)
  }

  predicate HypervisorOn(c: Config, h: nat) {
    Bit(CsrImage(c, h, 0x301), 7) && Bit(c.host(h), 7) && Bit(CsrImage(c, h, 0x300), 39)
  }

  predicate VectorOn(c: Config, h: nat) {
    Bit(CsrImage(c, h, 0x301), 21) && Bit(c.host(h), 21) && Vs(CsrImage(c, h, 0x300)) != 0
  }

  predicate FloatOn(c: Config, h: nat) {
    && (Bit(CsrImage(c, h, 0x301), 3) || Bit(CsrImage(c, h, 0x301), 5))
    && (Bit(c.host(h), 3) || Bit(c.host(h), 5))
    && Fs(CsrImage(c, h, 0x300)) != 0
  }

  /** The checkpoint was taken in machine mode. */
  predicate MachineMode(c: Config, h: nat) {
    ImageWord(c, h, c.layout.mode) % 0x20_0000_0000_0000 == 3
  }

  lemma CsrFromImage(c: Config, h: nat, id: CsrId)
    ensures CsrWord(c.E(), c.L(h).csrReg, id) == CsrImage(c, h, id)
  {
    hide GetCoreMemlayout, Relocate, ImageWord;
    LayoutOfHart(c, h);
    ReadsImage(c, h, c.layout.csrReg, 8 * id);
  }

  /** The decisions of `checkpoint_ext_check` are those of the image and the host. */
  lemma CapsFromImage(c: Config, h: nat)
    ensures var caps := c.CapsOf(h);
            && (caps.rvh <==> HypervisorOn(c, h)) && (caps.rvv <==> VectorOn(c, h))
            && (caps.rvf <==> FloatOn(c, h)) && (caps.jump <==> MachineMode(c, h))
  {
    hide GetCoreMemlayout, Relocate, ImageWord, ExtCheck, Bit, Fs, Vs;
    LayoutOfHart(c, h);
    CsrFromImage(c, h, 0x301);
    CsrFromImage(c, h, 0x300);
    ReadsFirstWord(c, h, c.layout.mode);
    ExtCheckMeaning(c.host(h), CsrImage(c, h, 0x301), CsrImage(c, h, 0x300), ImageWord(c, h, c.layout.mode));
  }

  // ---------- a hart that holds its image ----------

  predicate IntsMatch(c: Config, h: nat, x: seq<Word>)
    requires RegFile(x)
  {
    forall k: Reg | k != 0 :: x[k] == ImageWord(c, h, c.layout.intReg + 8 * k)
  }

  predicate HypervisorMatches(c: Config, h: nat, csr: CsrFile) {
    HypervisorOn(c, h) ==> forall id: CsrId | IsHypervisorCsr(id) :: csr[id] == CsrImage(c, h, id)
  }

  predicate VectorsMatch(c: Config, h: nat, csr: CsrFile, v: VectorFile) {
    VectorOn(c, h) ==>
      && (forall k: Reg ::
            v[k] == (ImageWord(c, h, c.layout.vectorReg + 16 * k), ImageWord(c, h, c.layout.vectorReg + (16 * k + 8))))
      && csr[0xc21] == CsrImage(c, h, 0xc21)
      && csr[0xc20] == c.grantedVl(CsrImage(c, h, 0xc20), CsrImage(c, h, 0xc21))
  }

  predicate FloatsMatch(c: Config, h: nat, f: FloatFile) {
    FloatOn(c, h) ==> forall k: Reg :: f[k] == ImageWord(c, h, c.layout.floatReg + 8 * k)
  }

  /** Every CSR by its number; fcsr has its own flags and the rounding mode of the frm word. */
  predicate CsrsMatch(c: Config, h: nat, csr: CsrFile) {
    && (forall id: CsrId | IsRestoredCsr(id) :: csr[id] == CsrImage(c, h, id))
    && csr[3] % 0x20 == CsrImage(c, h, 3) % 0x20
    && csr[3] / 0x20 % 8 == CsrImage(c, h, 2) % 8
    && csr[3] / 0x100 == CsrImage(c, h, 3) / 0x100
  }

  /** All CSRs, floating-point and vector registers of m are those of hart h's image. */
  predicate StateMatches(c: Config, h: nat, m: Hart)
    requires m.Shaped()
  {
    && HypervisorMatches(c, h, m.csr) && VectorsMatch(c, h, m.csr, m.v) && FloatsMatch(c, h, m.f) && CsrsMatch(c, h, m.csr)
  }

  lemma VectorFromImage(c: Config, h: nat, k: nat)
    ensures VectorWord(c.E(), c.L(h).vectorReg, k) ==
            (ImageWord(c, h, c.layout.vectorReg + 16 * k), ImageWord(c, h, c.layout.vectorReg + (16 * k + 8)))
  {
    hide GetCoreMemlayout, Relocate, ImageWord, Wrap64;
    LayoutOfHart(c, h);
    ReadsImage(c, h, c.layout.vectorReg, 16 * k);
    ReadsImage(c, h, c.layout.vectorReg, 16 * k + 8);
    WrapAdd(Relocate(c, h, c.layout.vectorReg) + 16 * k, 8);
  }

  lemma HypervisorFromImage(c: Config, h: nat, csr: CsrFile)
    requires HypervisorRestored(c.CapsOf(h), c.L(h), csr, c.E())
    ensures HypervisorMatches(c, h, csr)
  {
    hide ExtCheck, GetCoreMemlayout, CsrWord, CsrImage, HypervisorOn, VectorOn, FloatOn, MachineMode, IsHypervisorCsr;
    CapsFromImage(c, h);
    if c.CapsOf(h).rvh {
      forall id: CsrId | IsHypervisorCsr(id)
        ensures csr[id] == CsrImage(c, h, id)
      {
        CsrFromImage(c, h, id);
      }
    }
  }

  lemma VectorsFromImage(c: Config, h: nat, csr: CsrFile, v: VectorFile)
    requires VectorsRestored(c.CapsOf(h), c.L(h), csr, v, c.E())
    ensures VectorsMatch(c, h, csr, v)
  {
    hide ExtCheck, GetCoreMemlayout, CsrWord, CsrImage, HypervisorOn, VectorOn, FloatOn, MachineMode, VectorWord, ImageWord;
    CapsFromImage(c, h);
    CsrFromImage(c, h, 0xc21);
    CsrFromImage(c, h, 0xc20);
    forall k: Reg
      ensures VectorWord(c.E(), c.L(h).vectorReg, k) ==
              (ImageWord(c, h, c.layout.vectorReg + 16 * k), ImageWord(c, h, c.layout.vectorReg + (16 * k + 8)))
    {
      VectorFromImage(c, h, k);
    }
  }

  lemma FloatsFromImage(c: Config, h: nat, f: FloatFile)
    requires FloatsRestored(c.CapsOf(h), c.L(h), f, c.E())
    ensures FloatsMatch(c, h, f)
  {
    hide ExtCheck, GetCoreMemlayout, CsrImage, HypervisorOn, VectorOn, FloatOn, MachineMode, ImageWord, Relocate;
    CapsFromImage(c, h);
    LayoutOfHart(c, h);
    forall k: Reg
      ensures RegWord(c.E(), c.L(h).floatReg, k) == ImageWord(c, h, c.layout.floatReg + 8 * k)
    {
      ReadsImage(c, h, c.layout.floatReg, 8 * k);
    }
  }

  lemma CsrsFromImage(c: Config, h: nat, csr: CsrFile)
    requires ControlRestored(c.L(h), csr, c.E())
    ensures CsrsMatch(c, h, csr)
  {
    hide GetCoreMemlayout, CsrWord, CsrImage, IsRestoredCsr, WithFrm;
    forall id: CsrId
      ensures CsrWord(c.E(), c.L(h).csrReg, id) == CsrImage(c, h, id)
    {
      CsrFromImage(c, h, id);
    }
    WithFrmMeaning(CsrImage(c, h, 3), CsrImage(c, h, 2));
  }

  /** What the restore routines leave is what the image says. */
  lemma StateFromImage(c: Config, h: nat, m: Hart)
    requires m.Shaped() && StateRestored(c.CapsOf(h), c.L(h), m.csr, m.f, m.v, c.E())
    ensures StateMatches(c, h, m)
  {
    hide HypervisorRestored, VectorsRestored, FloatsRestored, ControlRestored, HypervisorMatches, VectorsMatch, FloatsMatch, CsrsMatch;
    HypervisorFromImage(c, h, m.csr);
    VectorsFromImage(c, h, m.csr, m.v);
    FloatsFromImage(c, h, m.f);
    CsrsFromImage(c, h, m.csr);
  }

  lemma IntsFromImage(c: Config, h: nat, m: Hart)
    requires m.Shaped() && IntsRestored(c.L(h).intReg, m, c.E())
    ensures IntsMatch(c, h, m.x)
  {
    hide GetCoreMemlayout, ImageWord, Relocate;
    LayoutOfHart(c, h);
    forall k: Reg
      ensures RegWord(c.E(), c.L(h).intReg, k) == ImageWord(c, h, c.layout.intReg + 8 * k)
    {
      ReadsImage(c, h, c.layout.intReg, 8 * k);
    }
  }
}
