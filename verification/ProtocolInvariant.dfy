/** The inductive invariant of the restore protocol, one predicate per concern, and its
preservation by every step of every hart. */
module ProtocolInvariant {
  import opened Words
  import opened Options
  import opened Machine
  import opened RestorePrograms
  import opened DecodeRestore
  import opened Protocol
  import Jal

  // ---------- program order ----------

  const LAST_PHASE: nat := 32

  /** The position of a program counter in program order; a spin and its trylock share one. */
  function Phase(core0: Word, pc: Pc): nat {
    match pc
    case Clear => 0
    case OpenGate => 1
    case GateSpin => 1
    case Spin(l) => LockPhase(l)
    case Try(l) => LockPhase(l)
    case Print(site) => LockPhase(Console(site)) + 1
    case Unlock(site) => LockPhase(Console(site)) + 2
    case Decode => 5
    case CheckOffset => 6
    case Signal => 10
    case Patch => 11
    case RestoreH => 12
    case RestoreV => 13
    case RestoreF => 14
    case RestoreC => 15
    case RestoreMtimeCmp => 16
    case Increment => 18
    case ReadArg => 19
    case Compare => 23
    case UnlockWait => 24
    case UnlockGo => 24
    case WaitRelease => 25
    case SetRelease => 25
    case RestoreMtime => 26
    case Exit => 27
    case Slot(a) => 28 + SlotIndex(core0, a)
    case Done(_) => 32
    case Fault => 32
  }

  function LockPhase(l: Lock): nat {
    match l
    case Console(Hello) => 2
    case Console(BadImm) => 7
    case Barrier => 17
    case Console(Arrive) => 20
  }

  function SlotIndex(core0: Word, a: Word): (k: nat)
    ensures k < 4
  {
    (a - core0) / 4 % 4
  }

  // ---------- counting harts ----------

  datatype Kind = HoldsConsole | HoldsBarrier | Counted | Unlogged

  /** Holding mt_printf_lock; holding globash_restore_lock; past its `atomic_add`; past it but with
  the arrival message still to come. */
  predicate Is(core0: Word, k: Kind, pc: Pc) {
    var i := Phase(core0, pc);
    match k
    case HoldsConsole => pc.Print? || pc.Unlock?
    case HoldsBarrier => 18 <= i <= 24
    case Counted => 19 <= i
    case Unlogged => 19 <= i <= 21
  }

  function Count(core0: Word, k: Kind, procs: seq<Proc>): (r: nat)
    ensures r <= |procs|
  {
    if procs == [] then 0
    else Count(core0, k, procs[..|procs| - 1]) + if Is(core0, k, procs[|procs| - 1].pc) then 1 else 0
  }

  lemma {:induction false} CountUpdate(core0: Word, k: Kind, procs: seq<Proc>, h: nat, q: Proc)
    requires h < |procs|
    ensures Count(core0, k, procs[h := q]) ==
            Count(core0, k, procs) - (if Is(core0, k, procs[h].pc) then 1 else 0) + if Is(core0, k, q.pc) then 1 else 0
    decreases |procs|
  {
    var last := |procs| - 1;
    if h == last {
      assert procs[h := q][..last] == procs[..last];
    } else {
      assert procs[h := q][..last] == procs[..last][h := q];
      CountUpdate(core0, k, procs[..last], h, q);
    }
  }

  lemma {:induction false} CountMember(core0: Word, k: Kind, procs: seq<Proc>, g: nat)
    requires g < |procs| && Is(core0, k, procs[g].pc)
    ensures Count(core0, k, procs) >= 1
    decreases |procs|
  {
    if g < |procs| - 1 {
      CountMember(core0, k, procs[..|procs| - 1], g);
    }
  }

  lemma {:induction false} CountTwo(core0: Word, k: Kind, procs: seq<Proc>, g: nat, h: nat)
    requires g < h < |procs| && Is(core0, k, procs[g].pc) && Is(core0, k, procs[h].pc)
    ensures Count(core0, k, procs) >= 2
    decreases |procs|
  {
    if h == |procs| - 1 {
      CountMember(core0, k, procs[..|procs| - 1], g);
    } else {
      CountTwo(core0, k, procs[..|procs| - 1], g, h);
    }
  }

  lemma {:induction false} CountFind(core0: Word, k: Kind, procs: seq<Proc>) returns (g: nat)
    requires Count(core0, k, procs) > 0
    ensures g < |procs| && Is(core0, k, procs[g].pc)
    decreases |procs|
  {
    var last := |procs| - 1;
    if Is(core0, k, procs[last].pc) {
      g := last;
    } else {
      g := CountFind(core0, k, procs[..last]);
    }
  }

  lemma {:induction false} CountNone(core0: Word, k: Kind, procs: seq<Proc>)
    requires forall g :: 0 <= g < |procs| ==> !Is(core0, k, procs[g].pc)
    ensures Count(core0, k, procs) == 0
  {
    if procs != [] {
      CountNone(core0, k, procs[..|procs| - 1]);
    }
  }

  // ---------- the invariant ----------

  /** Hart 0 has opened the gate. */
  predicate Open(s: State)
    requires |s.procs| > 0
  {
    !s.procs[0].pc.Clear? && !s.procs[0].pc.OpenGate?
  }

  /** Only hart 0 clears; until it opens the gate the others only look at bss_lock, which stays zero;
  words below the cursor are zero, and all of them once clearing is over. */
  predicate GateInv(c: Config, s: State)
    requires WF(c, s)
  {
    && !s.procs[0].pc.GateSpin?
    && (forall h :: 1 <= h < c.n ==> !s.procs[h].pc.Clear? && !s.procs[h].pc.OpenGate?)
    && (Open(s) ==> s.bss[c.bssLock] == 1)
    && (!Open(s) ==> s.bss[c.bssLock] == 0 && forall h :: 1 <= h < c.n ==> s.procs[h].pc.GateSpin?)
    && s.cleared <= 8 * c.bssWords
    && (!Open(s) ==> ClearedBelow(s.bss, s.cleared))
    && (!s.procs[0].pc.Clear? ==> s.cleared == 8 * c.bssWords)
  }

  predicate ClearedBelow(bss: seq<Word>, cleared: nat) {
    && (forall w :: 0 <= w < |bss| && w < cleared / 8 ==> bss[w] == 0)
    && (cleared / 8 < |bss| ==> LowBytesZero(bss[cleared / 8], cleared % 8))
  }

  /** At most one hart holds each lock, and the lock word says whether one does. */
  predicate LockInv(c: Config, s: State)
    requires WF(c, s)
  {
    && Count(c.core0, HoldsConsole, s.procs) <= 1
    && Count(c.core0, HoldsBarrier, s.procs) <= 1
    && (!Open(s) ==> forall k :: Count(c.core0, k, s.procs) == 0)
    && (Open(s) ==>
          && s.bss[c.printLock] == (if Count(c.core0, HoldsConsole, s.procs) == 1 then LOCKED else 0)
          && s.bss[c.restoreLock] == (if Count(c.core0, HoldsBarrier, s.procs) == 1 then LOCKED else 0)
          && s.bss[c.counter] == Count(c.core0, Counted, s.procs))
  }

  predicate HasTicket(c: Config, s: State, v: nat)
    requires WF(c, s)
  {
    exists h :: 0 <= h < c.n && Is(c.core0, Counted, s.procs[h].pc) && s.procs[h].ticket == v
  }

  /** Counted harts have different tickets, none above the counter; whoever holds the restore lock
  after counting has the counter's value, and so does the message argument it read. */
  predicate TicketsOrdered(c: Config, s: State)
    requires WF(c, s)
  {
    && (forall h :: 0 <= h < c.n && Is(c.core0, Counted, s.procs[h].pc) ==> 1 <= s.procs[h].ticket <= s.bss[c.counter])
    && (forall g, h | 0 <= g < c.n && 0 <= h < c.n && Is(c.core0, Counted, s.procs[g].pc) && Is(c.core0, Counted, s.procs[h].pc)
          :: s.procs[g].ticket == s.procs[h].ticket ==> g == h)
    && (forall h :: 0 <= h < c.n && Is(c.core0, Counted, s.procs[h].pc) && Is(c.core0, HoldsBarrier, s.procs[h].pc)
                    ==> s.procs[h].ticket == s.bss[c.counter])
    && (forall h :: 0 <= h < c.n && 20 <= Phase(c.core0, s.procs[h].pc) <= 21 ==> s.procs[h].arg == s.procs[h].ticket)
  }

  /** Tickets number the counted harts 1, 2, ... without gaps or repetition. */
  predicate TicketInv(c: Config, s: State)
    requires WF(c, s)
  {
    && TicketsOrdered(c, s)
    && (Open(s) ==> forall v :: 1 <= v <= s.bss[c.counter] ==> HasTicket(c, s, v))
  }

  /** A hart whose arrival released the others and that has set the flag. */
  predicate HasReleaser(c: Config, s: State)
    requires WF(c, s)
  {
    exists h :: 0 <= h < c.n && Phase(c.core0, s.procs[h].pc) >= 26 && c.Releases(h, s.procs[h].ticket)
                && 1 <= s.procs[h].ticket
  }

  /** The branch each hart took follows from its ticket; the flag is set only by a releasing hart, and
  no hart is past the barrier without it. */
  predicate ReleaseInv(c: Config, s: State)
    requires WF(c, s)
  {
    && (forall h :: 0 <= h < c.n ==>
          var p := s.procs[h];
          && (p.pc.UnlockWait? || p.pc.WaitRelease? ==> !c.Releases(h, p.ticket))
          && (p.pc.UnlockGo? || p.pc.SetRelease? || p.pc.RestoreMtime? ==> c.Releases(h, p.ticket))
          && (Phase(c.core0, p.pc) >= 26 ==> s.bss[c.release] == 1))
    && (Open(s) ==> s.bss[c.release] == 0 || s.bss[c.release] == 1)
    && (Open(s) && s.bss[c.release] == 1 ==> HasReleaser(c, s))
  }

  /** The counts carried by the arrival messages, in console order. */
  function Arrivals(console: seq<Message>): seq<nat> {
    if console == [] then []
    else
      var last := console[|console| - 1];
      Arrivals(console[..|console| - 1]) + if last.site == Arrive then [last.count] else []
  }

  /** The console shows arrivals 1, 2, ... in order. */
  predicate LogInv(c: Config, s: State)
    requires WF(c, s)
  {
    && (Open(s) ==> |Arrivals(s.console)| + Count(c.core0, Unlogged, s.procs) == s.bss[c.counter])
    && (!Open(s) ==> Arrivals(s.console) == [])
    && forall k :: 0 <= k < |Arrivals(s.console)| ==> Arrivals(s.console)[k] == k + 1
  }

  // ---------- what the hart itself holds ----------

  /** The registers of a hart about to fetch word k of its slot. */
  predicate SlotRegs(v: View, m: Hart, k: nat)
    requires m.Shaped()
  {
    var base := v.l.intReg;
    && (forall r: Reg | r !in {0, T0, T1, SP} :: m.x[r] == RegWord(v.e, base, r))
    && (k >= 1 ==> m.x[T0] == RegWord(v.e, base, T0))
    && (k >= 2 ==> m.x[T1] == RegWord(v.e, base, T1))
    && m.x[SP] == if k >= 3 then RegWord(v.e, base, SP) else base
  }

  /** Where a finished hart continues. */
  function ResumePc(v: View): Word
    requires v.Valid()
  {
    if v.caps.jump then Jal.JumpTarget(v.PatchPc(), v.Patch()) else CsrWord(v.e, v.l.csrReg, MEPC)
  }

  predicate ProcInv(v: View, p: Proc)
    requires v.Valid() && p.m.Shaped()
  {
    var i := Phase(v.core0, p.pc);
    && p.m.csr[MHARTID] == v.h
    && !p.pc.Fault?
    && (6 <= i <= 11 ==> v.caps.jump)
    && (i >= 13 ==> HypervisorRestored(v.caps, v.l, p.m.csr, v.e))
    && (i >= 14 ==> VectorsRestored(v.caps, v.l, p.m.csr, p.m.v, v.e))
    && (i >= 15 ==> FloatsRestored(v.caps, v.l, p.m.f, v.e))
    && (i >= 16 ==> StateRestored(v.caps, v.l, p.m.csr, p.m.f, p.m.v, v.e))
    && (p.pc.Slot? ==>
          v.caps.jump && p.pc.addr == SlotAddress(v.core0, v.h) + 4 * SlotIndex(v.core0, p.pc.addr)
          && SlotRegs(v, p.m, SlotIndex(v.core0, p.pc.addr)))
    && (p.pc.Done? ==> p.pc.at == ResumePc(v) && IntsRestored(v.l.intReg, p.m, v.e))
  }

  predicate LocalInv(c: Config, s: State, h: nat)
    requires WF(c, s) && h < c.n
  {
    && ProcInv(c.V(h), s.procs[h])
    && (Phase(c.core0, s.procs[h].pc) >= 17 ==> s.mtimecmp[h] == RegWord(c.E(), c.L(h).mtimeCmp, h))
  }

  /** The slot area: as assembled, except that each hart past its patch has its own jump in place. */
  predicate SlotsInv(c: Config, s: State)
    requires WF(c, s)
  {
    forall k :: 0 <= k < SLOT_WORDS ==>
      s.slots[k] ==
      if k % 4 == 3 && k / 4 < c.n && c.V(k / 4).caps.jump && Phase(c.core0, s.procs[k / 4].pc) >= 12
      then Raw(c.V(k / 4).Patch())
      else AssembledCell(k)
  }

  predicate Inv(c: Config, s: State) {
    && WF(c, s)
    && GateInv(c, s) && LockInv(c, s) && TicketInv(c, s) && ReleaseInv(c, s) && LogInv(c, s)
    && SlotsInv(c, s)
    && forall h :: 0 <= h < c.n ==> LocalInv(c, s, h)
  }

  // ---------- initially ----------

  /** Every valid configuration has a power-on state. */
  lemma PowerOnExists(c: Config) returns (s: State)
    requires c.Valid()
    ensures Init(c, s)
  {
    var harts := seq(c.n, (h: nat) => IdleHart(h));
    var procs := seq(c.n, (h: nat) requires h < c.n => Proc(if h == 0 then Clear else GateSpin, harts[h], 0, 0));
    s := State(
      seq(c.bssWords, _ => 0), 0, seq(SLOT_WORDS, (k: nat) => AssembledCell(k)),
      seq(c.n, _ => 0), 0, [], procs);
  }

  /** A hart with all registers zero but its number. */
  function IdleHart(h: nat): (m: Hart)
    ensures m.Shaped() && m.csr[MHARTID] == h % TWO64
  {
    Hart(seq(32, _ => 0), seq(32, _ => 0), seq(32, _ => (0, 0)), seq(4096, _ => 0)[MHARTID := h % TWO64])
  }

  lemma InitCounts(c: Config, s: State)
    requires Init(c, s)
    ensures GateInv(c, s) && LockInv(c, s) && LogInv(c, s)
  {
    forall k {
      CountNone(c.core0, k, s.procs);
    }
  }

  lemma InitHarts(c: Config, s: State)
    requires Init(c, s)
    ensures TicketInv(c, s) && ReleaseInv(c, s)
    ensures forall h :: 0 <= h < c.n ==> LocalInv(c, s, h)
  {
    hide StateRestored, SlotRegs, ResumePc, ExtCheck, GetCoreMemlayout, RegWord, ProcInv, LocalInv, Signed32;
    forall h | 0 <= h < c.n
      ensures LocalInv(c, s, h)
    {
      InitHart(c, s, h);
    }
  }

  lemma InitHart(c: Config, s: State, h: nat)
    requires Init(c, s) && h < c.n
    ensures LocalInv(c, s, h)
  {
    hide StateRestored, SlotRegs, ResumePc, ExtCheck, GetCoreMemlayout, RegWord, HypervisorRestored, VectorsRestored, FloatsRestored;
  }

  lemma InitSlots(c: Config, s: State)
    requires Init(c, s)
    ensures SlotsInv(c, s)
  {
    assert forall h :: 0 <= h < c.n ==> Phase(c.core0, s.procs[h].pc) <= 1;
  }

  lemma InitEstablishes(c: Config, s: State)
    requires Init(c, s)
    ensures Inv(c, s)
  {
    InitCounts(c, s);
    InitHarts(c, s);
    InitSlots(c, s);
  }

  // ---------- steps that run machine code ----------

  /** Enough for a hart between two restore calls, by the number of parts restored so far. */
  lemma BetweenCalls(v: View, p: Proc)
    requires v.Valid() && p.m.Shaped() && p.m.csr[MHARTID] == v.h
    requires IsRestore(p.pc) || p.pc.RestoreMtimeCmp?
    requires !p.pc.RestoreH? ==> HypervisorRestored(v.caps, v.l, p.m.csr, v.e)
    requires p.pc.RestoreF? || p.pc.RestoreC? ==> VectorsRestored(v.caps, v.l, p.m.csr, p.m.v, v.e)
    requires p.pc.RestoreC? ==> FloatsRestored(v.caps, v.l, p.m.f, v.e)
    requires p.pc.RestoreMtimeCmp? ==> StateRestored(v.caps, v.l, p.m.csr, p.m.f, p.m.v, v.e)
    ensures ProcInv(v, p)
  {
  }

  lemma HypervisorMove(v: View, p: Proc, x: seq<Word>)
    requires v.Valid() && p.m.Shaped() && RegFile(x) && p.pc.RestoreH? && ProcInv(v, p)
    ensures var q := RestoreStep(v, p, x); ProcInv(v, q) && q.pc.RestoreV?
  {
    RestoresHypervisorPart(v.caps, v.l, p.m, x, v.e);
    BetweenCalls(v, RestoreStep(v, p, x));
  }

  lemma VectorMove(v: View, p: Proc, x: seq<Word>)
    requires v.Valid() && p.m.Shaped() && RegFile(x) && p.pc.RestoreV? && ProcInv(v, p)
    ensures var q := RestoreStep(v, p, x); ProcInv(v, q) && q.pc.RestoreF?
  {
    RestoresVectorPart(v.caps, v.l, p.m, x, v.e);
    BetweenCalls(v, RestoreStep(v, p, x));
  }

  lemma FloatMove(v: View, p: Proc, x: seq<Word>)
    requires v.Valid() && p.m.Shaped() && RegFile(x) && p.pc.RestoreF? && ProcInv(v, p)
    ensures var q := RestoreStep(v, p, x); ProcInv(v, q) && q.pc.RestoreC?
  {
    RestoresFloatPart(v.caps, v.l, p.m, x, v.e);
    BetweenCalls(v, RestoreStep(v, p, x));
  }

  lemma ControlMove(v: View, p: Proc, x: seq<Word>)
    requires v.Valid() && p.m.Shaped() && RegFile(x) && p.pc.RestoreC? && ProcInv(v, p)
    ensures var q := RestoreStep(v, p, x); ProcInv(v, q) && q.pc.RestoreMtimeCmp?
  {
    RestoresCsrPart(v.caps, v.l, p.m, x, v.e);
    BetweenCalls(v, RestoreStep(v, p, x));
  }

  lemma SlotArithmetic(core0: Word, h: nat, k: nat)
    requires h < 128 && k < 4 && core0 + 16 * 128 <= TWO64
    ensures var a := SlotAddress(core0, h) + 4 * k;
            && 0 <= a < TWO64 && SlotIndex(core0, a) == k
            && a - core0 == 4 * (4 * h + k) && (a - core0) % 4 == 0 && (a - core0) / 4 == 4 * h + k
            && 4 * h + k < SLOT_WORDS
            && (k < 3 ==> Wrap64(a + 4) == a + 4)
  {
  }

  /** Loading all registers but x5, x6 and sp, then selecting the slot of mhartid. */
  lemma EntersSlot(v: View, m: Hart)
    requires v.Valid() && m.Shaped() && m.csr[MHARTID] == v.h && m.x[A0] == v.l.intReg
    ensures var r := Run(RESTORE_INT_VECTOR_JUMP + JumpToCore(v.core0), m, v.e);
            && r.Some? && r.value.x[T0] == SlotAddress(v.core0, v.h)
            && SlotRegs(v, r.value, 0)
            && r.value.csr == m.csr && r.value.f == m.f && r.value.v == m.v
  {
    hide RegWord, JumpToCore, IntLoads, Run, Wrap64, ReadyForSlot, SlotRegs, SlotIndex;
    RestoresIntsForJump(m, v.e);
    var m1 := Run(RESTORE_INT_VECTOR_JUMP, m, v.e).value;
    SelectsSlot(v.core0, m1, v.e);
    var m2 := Run(JumpToCore(v.core0), m1, v.e).value;
    RunsBoth(RESTORE_INT_VECTOR_JUMP, JumpToCore(v.core0), m, m1, m2, v.e);
    SlotArithmetic(v.core0, v.h, 0);
    WrapWord(SlotAddress(v.core0, v.h));
    KeepsSlotRegs(v, m1, m2, SlotAddress(v.core0, v.h), v.core0);
  }

  lemma RunsBoth(p: seq<Instr>, q: seq<Instr>, h: Hart, h1: Hart, h2: Hart, e: Env)
    requires h.Shaped() && h1.Shaped() && Run(p, h, e) == Some(h1) && Run(q, h1, e) == Some(h2)
    ensures Run(p + q, h, e) == Some(h2)
  {
    hide Run;
    RunAppend(p, q, h, e);
  }

  lemma KeepsSlotRegs(v: View, m1: Hart, m2: Hart, a: Word, b: Word)
    requires m1.Shaped() && m2.Shaped() && ReadyForSlot(v.l.intReg, m1, v.e) && m2.x == m1.x[T0 := a][T1 := b]
    ensures SlotRegs(v, m2, 0)
  {
    hide RegWord;
  }

  /** m has the CSRs, floating-point and vector registers of p. */
  predicate SameFiles(p: Proc, m: Hart) {
    m.Shaped() && m.csr == p.m.csr && m.f == p.m.f && m.v == p.m.v
  }

  lemma AfterJump(v: View, p: Proc, m: Hart)
    requires v.Valid() && p.m.Shaped() && SameFiles(p, m) && p.pc.Exit? && ProcInv(v, p) && v.caps.jump
    requires SlotRegs(v, m, 0) && m.x[T0] == SlotAddress(v.core0, v.h)
    ensures ProcInv(v, p.(pc := Slot(m.x[T0]), m := m))
  {
    SlotArithmetic(v.core0, v.h, 0);
  }

  lemma AfterMret(v: View, p: Proc, m: Hart)
    requires v.Valid() && p.m.Shaped() && SameFiles(p, m) && p.pc.Exit? && ProcInv(v, p) && !v.caps.jump
    requires IntsRestored(v.l.intReg, m, v.e)
    ensures ProcInv(v, p.(pc := Done(m.csr[MEPC]), m := m))
  {
    hide StateRestored, IntsRestored, HypervisorRestored, VectorsRestored, FloatsRestored, CsrWord;
    MepcRestored(v, p.m);
  }

  lemma MepcRestored(v: View, m: Hart)
    requires m.Shaped() && StateRestored(v.caps, v.l, m.csr, m.f, m.v, v.e)
    ensures m.csr[MEPC] == CsrWord(v.e, v.l.csrReg, MEPC)
  {
    hide HypervisorRestored, VectorsRestored, FloatsRestored, CsrWord;
  }

  lemma AfterLoad(v: View, p: Proc, m: Hart, k: nat)
    requires v.Valid() && p.m.Shaped() && SameFiles(p, m) && ProcInv(v, p) && k < 3
    requires p.pc.Slot? && SlotIndex(v.core0, p.pc.addr) == k && SlotRegs(v, m, k + 1)
    ensures var q := p.(pc := Slot(Wrap64(p.pc.addr + 4)), m := m);
            ProcInv(v, q) && SlotIndex(v.core0, q.pc.addr) == k + 1
  {
    hide StateRestored, SlotRegs, ResumePc;
    SlotArithmetic(v.core0, v.h, k);
    SlotArithmetic(v.core0, v.h, k + 1);
  }

  lemma ExitMove(v: View, p: Proc, x: seq<Word>)
    requires v.Valid() && p.m.Shaped() && RegFile(x) && p.pc.Exit? && ProcInv(v, p)
    ensures var q := ExitStep(v, p, x); ProcInv(v, q) && (q.pc.Slot? || q.pc.Done?)
  {
    var call := Call(p.m, x, v.l.intReg, x[A1]);
    if v.caps.jump {
      EntersSlot(v, call);
      AfterJump(v, p, Run(RESTORE_INT_VECTOR_JUMP + JumpToCore(v.core0), call, v.e).value);
    } else {
      RestoresIntsForMret(call, v.e);
      AfterMret(v, p, Run(RESTORE_INT_VECTOR_MRET, call, v.e).value);
    }
  }

  /** Words 0 to 2 of a slot load x5, x6 and sp. */
  lemma SlotLoad(v: View, p: Proc, k: nat)
    requires v.Valid() && p.m.Shaped() && ProcInv(v, p) && k < 3
    requires p.pc.Slot? && SlotIndex(v.core0, p.pc.addr) == k
    ensures var q := SlotStep(p, Some(AssembledCell(4 * v.h + k)), v.e);
            ProcInv(v, q) && q.pc.Slot? && SlotIndex(v.core0, q.pc.addr) == k + 1
  {
    hide SlotRegs, AssembledCell, StateRestored, ResumePc, Machine.Exec;
    SlotLoadRegs(v, p.m, k);
    AfterLoad(v, p, Machine.Exec(AssembledCell(4 * v.h + k).i, p.m, v.e).value, k);
  }

  lemma SlotLoadRegs(v: View, m: Hart, k: nat)
    requires v.Valid() && m.Shaped() && k < 3 && SlotRegs(v, m, k)
    ensures AssembledCell(4 * v.h + k).Asm?
    ensures var r := Machine.Exec(AssembledCell(4 * v.h + k).i, m, v.e);
            && r.Some? && SlotRegs(v, r.value, k + 1)
            && r.value.csr == m.csr && r.value.f == m.f && r.value.v == m.v
  {
  }

  /** Word 3 jumps to where the hart resumes. */
  lemma SlotJump(v: View, p: Proc)
    requires v.Valid() && p.m.Shaped() && ProcInv(v, p)
    requires p.pc.Slot? && SlotIndex(v.core0, p.pc.addr) == 3
    ensures var q := SlotStep(p, Some(Raw(v.Patch())), v.e);
            ProcInv(v, q) && q.pc.Done?
  {
    hide Jal.PatchWord, Jal.JumpTarget, StateRestored;
    Jal.PatchReachesTarget(v.PatchPc(), v.TargetPc());
    assert Jal.Opcode(Jal.NOP_WORD) == 0x13;
    SlotArithmetic(v.core0, v.h, 3);
    assert p.pc.addr == v.PatchPc();
  }
}
