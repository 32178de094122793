/** The slice of a RISC-V hart that the restore programs of src/restore.S run on:
integer, floating-point and vector registers and the CSRs, with the FS and VS
fields of mstatus deciding whether an instruction traps (section 3.1.6 of the RISC-V
Privileged Architecture). CSRs are plain registers, except that frm is a field of fcsr. */
module Machine {
  import opened Options
  import opened Words

  type Reg = r: nat | r < 32

  type CsrId = c: nat | c < 4096

  const FRM: CsrId := 0x002
  const FCSR: CsrId := 0x003
  const MSTATUS: CsrId := 0x300
  const MISA: CsrId := 0x301
  const MEPC: CsrId := 0x341
  const VL: CsrId := 0xc20
  const VTYPE: CsrId := 0xc21
  const MHARTID: CsrId := 0xf14

  const RA: Reg := 1
  const SP: Reg := 2
  const T0: Reg := 5
  const T1: Reg := 6
  const T2: Reg := 7
  const A0: Reg := 10
  const A1: Reg := 11
  const T3: Reg := 28

  datatype Instr =
    | Mv(rd: Reg, rs: Reg)
    | Li(rd: Reg, imm: Word)
    | Addi(rd: Reg, rs: Reg, inc: int)
    | Slli(rd: Reg, rs: Reg, shamt: nat)
    | Add(rd: Reg, rs: Reg, rs2: Reg)
    | Ld(rd: Reg, off: nat, rs: Reg)
    | Csrr(rd: Reg, csr: CsrId)
    | Csrw(csr: CsrId, rs: Reg)
    | Csrs(csr: CsrId, rs: Reg)
    | Fld(fd: Reg, off: nat, rs: Reg)
    | Vsetvl(rd: Reg, rs: Reg, rs2: Reg)
    | Vl1re64(vd: Reg, rs: Reg)

  /** What a program can read but never writes: memory holding the checkpoint, and the
  vector length the implementation grants for a requested length and type. */
  datatype Env = Env(mem: Word -> Word, grantedVl: (Word, Word) -> Word)

  datatype Hart = Hart(x: seq<Word>, f: seq<Word>, v: seq<(Word, Word)>, csr: seq<Word>) {
    predicate Shaped() {
      |x| == 32 && |f| == 32 && |v| == 32 && |csr| == 4096 && x[0] == 0
    }

    /** x0 ignores writes. */
    function SetX(rd: Reg, w: Word): (h: Hart)
      requires Shaped()
      ensures h.Shaped()
    {
      if rd == 0 then this else this.(x := x[rd := w])
    }

    function SetCsr(id: CsrId, w: Word): (h: Hart)
      requires Shaped()
      ensures h.Shaped()
    {
      this.(csr := csr[id := w])
    }
  }

  /** The FS and VS fields of mstatus: bits 14..13 and 10..9. */
  function Fs(mstatus: nat): nat { Shr(mstatus, 13) % 4 }

  function Vs(mstatus: nat): nat { Shr(mstatus, 9) % 4 }

  predicate FsOn(h: Hart)
    requires h.Shaped()
  {
    Fs(h.csr[MSTATUS]) != 0
  }

  predicate VsOn(h: Hart)
    requires h.Shaped()
  {
    Vs(h.csr[MSTATUS]) != 0
  }

  /** fcsr after writing w to frm: bits 7..5 replaced. */
  function WithFrm(fcsr: Word, w: Word): Word {
    fcsr - fcsr / 0x20 % 8 * 0x20 + w % 8 * 0x20
  }

  function WriteCsr(h: Hart, id: CsrId, w: Word): (r: Option<Hart>)
    requires h.Shaped()
    ensures r.Some? ==> r.value.Shaped()
  {
    if id == FCSR then (if FsOn(h) then Some(h.SetCsr(FCSR, w)) else None)
    else if id == FRM then (if FsOn(h) then Some(h.SetCsr(FCSR, WithFrm(h.csr[FCSR], w))) else None)
    else Some(h.SetCsr(id, w))
  }

  function OrWords(a: Word, b: Word): Word {
    OrWord(a, b);
    Or(a, b)
  }

  /** One instruction; None is an illegal-instruction trap. */
  function Exec(i: Instr, h: Hart, e: Env): (r: Option<Hart>)
    requires h.Shaped()
    ensures r.Some? ==> r.value.Shaped()
  {
    match i
    case Mv(rd, rs) => Some(h.SetX(rd, h.x[rs]))
    case Li(rd, imm) => Some(h.SetX(rd, imm))
    case Addi(rd, rs, inc) => Some(h.SetX(rd, Wrap64(h.x[rs] + inc)))
    case Slli(rd, rs, shamt) => Some(h.SetX(rd, Wrap64(Shl(h.x[rs], shamt))))
    case Add(rd, rs, rs2) => Some(h.SetX(rd, Wrap64(h.x[rs] as int + h.x[rs2])))
    case Ld(rd, off, rs) => Some(h.SetX(rd, e.mem(Wrap64(h.x[rs] + off))))
    case Csrr(rd, id) => Some(h.SetX(rd, h.csr[id]))
    case Csrw(id, rs) => WriteCsr(h, id, h.x[rs])
    case Csrs(id, rs) => WriteCsr(h, id, OrWords(h.csr[id], h.x[rs]))
    case Fld(fd, off, rs) =>
      if FsOn(h) then Some(h.(f := h.f[fd := e.mem(Wrap64(h.x[rs] + off))])) else None
    case Vsetvl(rd, rs, rs2) =>
      if VsOn(h) then
        var granted := e.grantedVl(h.x[rs], h.x[rs2]);
        Some(h.SetCsr(VL, granted).SetCsr(VTYPE, h.x[rs2]).SetX(rd, granted))
      else None
    case Vl1re64(vd, rs) =>
      if VsOn(h) then
        Some(h.(v := h.v[vd := (e.mem(h.x[rs]), e.mem(Wrap64(h.x[rs] as int + 8)))]))
      else None
  }

  function Run(prog: seq<Instr>, h: Hart, e: Env): (r: Option<Hart>)
    requires h.Shaped()
    ensures r.Some? ==> r.value.Shaped()
  {
    if prog == [] then Some(h)
    else
      match Exec(prog[0], h, e)
      case None => None
      case Some(h') => Run(prog[1..], h', e)
  }

  /** A hart as an object that executes straight-line code step by step. */
  class Core {
    var x: seq<Word>
    var f: seq<Word>
    var v: seq<(Word, Word)>
    var csr: seq<Word>
    var trapped: bool

    constructor (h: Hart)
      ensures State() == h && !trapped
    {
      x, f, v, csr := h.x, h.f, h.v, h.csr;
      trapped := false;
    }

    function State(): Hart
      reads this
    {
      Hart(x, f, v, csr)
    }

    method Write(rd: Reg, w: Word)
      requires State().Shaped()
      modifies this`x
      ensures State() == old(State()).SetX(rd, w)
    {
      if rd != 0 {
        x := x[rd := w];
      }
    }

    method WriteControl(id: CsrId, w: Word)
      requires State().Shaped()
      modifies this`csr, this`trapped
      ensures match WriteCsr(old(State()), id, w)
              case None => trapped && State() == old(State())
              case Some(h) => trapped == old(trapped) && State() == h
    {
      if (id == FCSR || id == FRM) && !FsOn(State()) {
        trapped := true;
      } else if id == FRM {
        csr := csr[FCSR := WithFrm(csr[FCSR], w)];
      } else {
        csr := csr[id := w];
      }
    }

    method Step(i: Instr, e: Env)
      requires State().Shaped()
      modifies this
      ensures match Exec(i, old(State()), e)
              case None => trapped && State() == old(State())
              case Some(h) => trapped == old(trapped) && State() == h
    {
      match i
      case Mv(rd, rs) => Write(rd, x[rs]);
      case Li(rd, imm) => Write(rd, imm);
      case Addi(rd, rs, inc) => Write(rd, Wrap64(x[rs] + inc));
      case Slli(rd, rs, shamt) => Write(rd, Wrap64(Shl(x[rs], shamt)));
      case Add(rd, rs, rs2) => Write(rd, Wrap64(x[rs] as int + x[rs2]));
      case Ld(rd, off, rs) => Write(rd, e.mem(Wrap64(x[rs] + off)));
      case Csrr(rd, id) => Write(rd, csr[id]);
      case Csrw(id, rs) => WriteControl(id, x[rs]);
      case Csrs(id, rs) => WriteControl(id, OrWords(csr[id], x[rs]));
      case Fld(fd, off, rs) =>
        if FsOn(State()) {
          f := f[fd := e.mem(Wrap64(x[rs] + off))];
        } else {
          trapped := true;
        }
      case Vsetvl(rd, rs, rs2) =>
        if VsOn(State()) {
          var vtype := x[rs2];
          var granted := e.grantedVl(x[rs], vtype);
          csr := csr[VL := granted];
          csr := csr[VTYPE := vtype];
          Write(rd, granted);
        } else {
          trapped := true;
        }
      case Vl1re64(vd, rs) =>
        if VsOn(State()) {
          v := v[vd := (e.mem(x[rs]), e.mem(Wrap64(x[rs] as int + 8)))];
        } else {
          trapped := true;
        }
    }

    /** Fetch-and-execute over a straight-line program; stops at the first trap. */
    method Execute(prog: seq<Instr>, e: Env)
      requires State().Shaped() && !trapped
      modifies this
      ensures State().Shaped()
      ensures trapped <==> Run(prog, old(State()), e).None?
      ensures !trapped ==> Run(prog, old(State()), e) == Some(State())
    {
      var pc := 0;
      while pc < |prog| && !trapped
        invariant 0 <= pc <= |prog| && State().Shaped()
        invariant !trapped ==> Run(prog[pc..], State(), e) == Run(prog, old(State()), e)
        invariant trapped ==> Run(prog, old(State()), e) == None
        decreases |prog| - pc
      {
        assert prog[pc..][0] == prog[pc] && prog[pc..][1..] == prog[pc + 1..];
        Step(prog[pc], e);
        pc := pc + 1;
      }
    }
  }

  lemma {:induction false} RunAppend(p: seq<Instr>, q: seq<Instr>, h: Hart, e: Env)
    requires h.Shaped()
    ensures Run(p + q, h, e) == match Run(p, h, e) case None => None case Some(h') => Run(q, h', e)
  {
    if p == [] {
      assert p + q == q;
    } else {
      assert (p + q)[0] == p[0] && (p + q)[1..] == p[1..] + q;
      match Exec(p[0], h, e)
      case None =>
      case Some(h') => RunAppend(p[1..], q, h', e);
    }
  }

  /** Writing frm replaces bits 7..5 of fcsr and keeps the accrued exceptions and the upper bits. */
  lemma WithFrmMeaning(fcsr: Word, w: Word)
    ensures var r := WithFrm(fcsr, w); r % 0x20 == fcsr % 0x20 && r / 0x20 % 8 == w % 8 && r / 0x100 == fcsr / 0x100
  {
    var low, mid, high := fcsr % 0x20, fcsr / 0x20 % 8, fcsr / 0x20 / 8;
    assert fcsr == low + 0x20 * mid + 0x100 * high;
    var r := low + 0x20 * (w % 8) + 0x100 * high;
    DivUnique(r, 0x20, w % 8 + 8 * high, low);
    DivUnique(w % 8 + 8 * high, 8, high, w % 8);
    DivUnique(r, 0x100, high, low + 0x20 * (w % 8));
    DivUnique(fcsr, 0x100, high, low + 0x20 * mid);
  }

  // ---------- turning the units on ----------

  lemma OrLowBits(a: nat)
    ensures Or(a, 3) % 4 == 3
  {
    assert Or(a, 3) == 2 * Or(a / 2, 1) + 1;
    assert Or(a / 2, 1) == 2 * Or(a / 2 / 2, 0) + 1;
  }

  lemma TurnsFsOn(mstatus: Word)
    ensures Fs(OrWords(mstatus, 0x6000)) == 3
  {
    OrShift(mstatus, 0x6000, 13);
    assert Shr(0x6000, 13) == 3;
    OrLowBits(Shr(mstatus, 13));
  }

  lemma TurnsVsOn(mstatus: Word)
    ensures Vs(OrWords(mstatus, 0x600)) == 3
  {
    OrShift(mstatus, 0x600, 9);
    assert Shr(0x600, 9) == 3;
    OrLowBits(Shr(mstatus, 9));
  }
}
