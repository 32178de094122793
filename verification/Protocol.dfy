/** The multi-hart restore as an interleaving of atomic steps: src/gcpt.c (bss gate), src/utils.c
(`clear_bss`, `mt_printf`), include/spinlock.h and src/decode_restore.c (slot patching, restores,
barrier, exit), with the code slots of src/restore.S fetched from shared memory.

Every shared access is one step. A routine of src/restore.S that touches only its hart's
registers and read-only checkpoint memory is one step as well; the words of a code slot, which
harts patch, are fetched and executed one at a time. Memory is sequentially consistent. */
module Protocol {
  import opened Words
  import opened Options
  import opened Machine
  import opened RestorePrograms
  import opened DecodeRestore
  import Jal

  /** What one hart's machine code depends on: its number, the address of core0, its capabilities,
  its relocated memory layout and the memory it reads. */
  datatype View = View(h: nat, core0: Word, caps: Caps, l: Memlayout, e: Env) {
    predicate Valid() { h < 128 && core0 + 16 * 128 <= TWO64 }

    function TargetPc(): Word { e.mem(l.pc) }

    function PatchPc(): Word
      requires Valid()
    {
      PatchAddress(core0, h)
    }

    /** The word the hart writes into its slot. */
    function Patch(): nat
      requires Valid()
    {
      Jal.PatchWord(PatchPc(), TargetPc())
    }
  }

  /** What all harts share and nobody writes: the checkpoint image and header, the hosts' misa,
  the address of core0, and where the five shared variables lie in the cleared range. */
  datatype Config = Config(
    n: nat, mem: Word -> Word, grantedVl: (Word, Word) -> Word, host: nat -> Word,
    core0: Word, base: Word, size: Word, layout: Memlayout,
    bssWords: nat, bssLock: nat, printLock: nat, restoreLock: nat, release: nat, counter: nat)
  {
    predicate Valid() {
      && 1 <= n <= 128
      && core0 + 16 * 128 <= TWO64
      && bssLock < bssWords && printLock < bssWords && restoreLock < bssWords && release < bssWords && counter < bssWords
      && bssLock != printLock && bssLock != restoreLock && bssLock != release && bssLock != counter
      && printLock != restoreLock && printLock != release && printLock != counter
      && restoreLock != release && restoreLock != counter && release != counter
    }

    function E(): Env { Env(mem, grantedVl) }

    function L(h: nat): Memlayout { GetCoreMemlayout(base, size, h, layout) }

    function CapsOf(h: nat): Caps {
      ExtCheck(host(h), mem(CsrAddr(L(h).csrReg, MISA)), mem(CsrAddr(L(h).csrReg, MSTATUS)), mem(L(h).mode))
    }

    function V(h: nat): View { View(h, core0, CapsOf(h), L(h), E()) }

    /** `all_cpu_num`: the low 32 bits of the hart's own reserve word, as a signed int. */
    function AllCpu(h: nat): int { Signed32(mem(L(h).csrReserve)) }

    /** The 64-bit counter is compared with the int widened to 64 bits. */
    predicate Releases(h: nat, count: nat) {
      count == Wrap64(AllCpu(h)) || AllCpu(h) == 0
    }
  }

  /** The calls of `mt_printf`. */
  datatype Site = Hello | BadImm | Arrive

  /** What `spinlock_lock` is called on: `mt_printf_lock` for a message, or `globash_restore_lock`. */
  datatype Lock = Console(site: Site) | Barrier

  datatype Pc =
    | Clear | OpenGate | GateSpin
    | Spin(lock: Lock) | Try(lock: Lock) | Print(site: Site) | Unlock(site: Site)
    | Decode | CheckOffset | Signal | Patch
    | RestoreH | RestoreV | RestoreF | RestoreC | RestoreMtimeCmp
    | Increment | ReadArg | Compare
    | UnlockWait | WaitRelease
    | UnlockGo | SetRelease | RestoreMtime
    | Exit | Slot(addr: Word)
    | Done(at: Word) | Fault

  /** One hart: program counter, machine state, the value its `atomic_add` produced and the
  counter value it passes to `mt_printf`. */
  datatype Proc = Proc(pc: Pc, m: Hart, ticket: nat, arg: nat)

  datatype Cell = Asm(i: Instr) | Raw(w: nat)

  datatype Message = Message(hart: nat, site: Site, count: nat)

  datatype State = State(
    bss: seq<Word>, cleared: nat, slots: seq<Cell>,
    mtimecmp: seq<Word>, mtime: Word, console: seq<Message>, procs: seq<Proc>)

  const SLOT_WORDS: nat := 512
  const LOCKED: Word := 0xFFFF_FFFF_FFFF_FFFF

  predicate WF(c: Config, s: State) {
    && c.Valid()
    && |s.bss| == c.bssWords && |s.slots| == SLOT_WORDS && |s.mtimecmp| == c.n && |s.procs| == c.n
    && forall h :: 0 <= h < c.n ==> s.procs[h].m.Shaped()
  }

  /** The slot area as assembled: 128 times `ld x5; ld x6; ld sp; nop`. */
  function AssembledCell(k: nat): Cell {
    if k % 4 == 0 then Asm(Ld(5, 40, SP))
    else if k % 4 == 1 then Asm(Ld(6, 48, SP))
    else if k % 4 == 2 then Asm(Ld(SP, 16, SP))
    else Raw(Jal.NOP_WORD)
  }

  /** Power-on: bss_lock is zero, the rest of bss, the registers and the devices are arbitrary. */
  predicate Init(c: Config, s: State) {
    && WF(c, s)
    && s.bss[c.bssLock] == 0
    && s.cleared == 0
    && (forall k :: 0 <= k < SLOT_WORDS ==> s.slots[k] == AssembledCell(k))
    && s.console == []
    && (forall h :: 0 <= h < c.n ==>
          && s.procs[h].pc == (if h == 0 then Clear else GateSpin)
          && s.procs[h].m.csr[0xf14] == h)
  }

  // ---------- steps ----------

  function LockVar(c: Config, l: Lock): nat {
    if l == Barrier then c.restoreLock else c.printLock
  }

  function Acquired(l: Lock): Pc {
    match l
    case Barrier => Increment
    case Console(site) => Print(site)
  }

  /** Where a call of `mt_printf` returns to. */
  function AfterUnlock(site: Site): Pc {
    match site
    case Hello => Decode
    case BadImm => Signal
    case Arrive => Compare
  }

  /** A hart after a routine of src/restore.S, or the trap it took. */
  function AfterCall(p: Proc, r: Option<Hart>, pc: Pc): (q: Proc)
    requires p.m.Shaped() && (r.Some? ==> r.value.Shaped())
    ensures q.m.Shaped() && q.ticket == p.ticket && q.arg == p.arg
  {
    match r
    case None => p.(pc := Fault)
    case Some(m) => p.(pc := pc, m := m)
  }

  /** The program counters whose step is one of the restore calls. */
  predicate IsRestore(pc: Pc) {
    pc.RestoreH? || pc.RestoreV? || pc.RestoreF? || pc.RestoreC?
  }

  function RestoreStep(v: View, p: Proc, x: seq<Word>): (q: Proc)
    requires p.m.Shaped() && RegFile(x) && IsRestore(p.pc)
    ensures q.m.Shaped() && q.ticket == p.ticket && q.arg == p.arg
  {
    match p.pc
    case RestoreH => AfterCall(p, RestoreHypervisor(v.caps, v.l, p.m, x, v.e), RestoreV)
    case RestoreV => AfterCall(p, RestoreVectors(v.caps, v.l, p.m, x, v.e), RestoreF)
    case RestoreF => AfterCall(p, RestoreFloats(v.caps, v.l, p.m, x, v.e), RestoreC)
    case RestoreC => AfterCall(p, RestoreCsrs(v.l, p.m, x, v.e), RestoreMtimeCmp)
  }

  /** `restore_int_vector_jump` and `jump_to_core` up to `jr t0`, or `restore_int_vector_mret` up to
  `mret`; then control goes to the address in t0, or to mepc. */
  function ExitStep(v: View, p: Proc, x: seq<Word>): (q: Proc)
    requires p.m.Shaped() && RegFile(x) && p.pc.Exit?
    ensures q.m.Shaped() && q.ticket == p.ticket && q.arg == p.arg
  {
    var call := Call(p.m, x, v.l.intReg, x[A1]);
    if v.caps.jump then
      match Run(RESTORE_INT_VECTOR_JUMP + JumpToCore(v.core0), call, v.e)
      case None => p.(pc := Fault)
      case Some(m) => p.(pc := Slot(m.x[T0]), m := m)
    else
      match Run(RESTORE_INT_VECTOR_MRET, call, v.e)
      case None => p.(pc := Fault)
      case Some(m) => p.(pc := Done(m.csr[MEPC]), m := m)
  }

  predicate RunsMachineCode(pc: Pc) {
    IsRestore(pc) || pc.Exit? || pc.Slot?
  }

  /** Fetch from the slot area. */
  function Fetch(c: Config, s: State, a: Word): Option<Cell>
    requires WF(c, s)
  {
    var off := a - c.core0;
    if 0 <= off < 4 * SLOT_WORDS && off % 4 == 0 then Some(s.slots[off / 4]) else None
  }

  /** Executing what was fetched: an assembled load, or a word decoded as NOP or JAL. */
  function SlotStep(p: Proc, cell: Option<Cell>, e: Env): (q: Proc)
    requires p.m.Shaped() && p.pc.Slot?
    ensures q.m.Shaped() && q.ticket == p.ticket && q.arg == p.arg
  {
    var next := Slot(Wrap64(p.pc.addr + 4));
    match cell
    case None => p.(pc := Fault)
    case Some(Asm(i)) => AfterCall(p, Machine.Exec(i, p.m, e), next)
    case Some(Raw(w)) =>
      if w == Jal.NOP_WORD then p.(pc := next)
      else if Jal.Opcode(w) == Jal.JAL_OPCODE && Jal.Rd(w) == 0 then p.(pc := Done(Jal.JumpTarget(p.pc.addr, w)))
      else p.(pc := Fault)
  }

  /** Control flow of every other step: where it leads, given what it reads from shared memory. */
  function NextPc(c: Config, s: State, h: nat): Pc
    requires WF(c, s) && h < c.n
  {
    var p := s.procs[h].pc;
    match p
    // gcpt_c_start
    case Clear => if s.cleared < 8 * c.bssWords then p else OpenGate
    case OpenGate => Spin(Console(Hello))
    case GateSpin => if s.bss[c.bssLock] == 0 then p else Spin(Console(Hello))
    // spinlock_lock: read until zero, then swap and look at the old value
    case Spin(l) => if s.bss[LockVar(c, l)] != 0 then p else Try(l)
    case Try(l) => if s.bss[LockVar(c, l)] != 0 then Spin(l) else Acquired(l)
    // mt_printf
    case Print(site) => Unlock(site)
    case Unlock(site) => AfterUnlock(site)
    // single_core_rvv_rvh_rvgc_restore
    case Decode => if c.V(h).caps.jump then CheckOffset else RestoreH
    case CheckOffset =>
      if Jal.IsValidImm(Jal.Offset(c.V(h).PatchPc(), c.V(h).TargetPc())) then Patch else Spin(Console(BadImm))
    case Signal => Patch
    case Patch => RestoreH
    case RestoreMtimeCmp => Spin(Barrier)
    case Increment => ReadArg
    case ReadArg => Spin(Console(Arrive))
    case Compare => if c.Releases(h, s.bss[c.counter]) then UnlockGo else UnlockWait
    case UnlockWait => WaitRelease
    case WaitRelease => if s.bss[c.release] != 1 then p else Exit
    case UnlockGo => SetRelease
    case SetRelease => RestoreMtime
    case RestoreMtime => Exit
    case _ => p
  }

  /** The store a step makes to a shared variable, if any; a trylock stores -1 whatever it reads. */
  function Written(c: Config, s: State, h: nat): (r: Option<(nat, Word)>)
    requires WF(c, s) && h < c.n
    ensures r.Some? ==> r.value.0 < c.bssWords
  {
    match s.procs[h].pc
    case Clear =>
      if s.cleared < 8 * c.bssWords then
        Some((s.cleared / 8, ClearByte(s.bss[s.cleared / 8], s.cleared % 8)))
      else None
    case OpenGate => Some((c.bssLock, 1))
    case Try(l) => Some((LockVar(c, l), LOCKED))
    case Unlock(_) => Some((c.printLock, 0))
    case Increment => Some((c.counter, Wrap64(s.bss[c.counter] as int + 1)))
    case UnlockWait => Some((c.restoreLock, 0))
    case UnlockGo => Some((c.restoreLock, 0))
    case SetRelease => Some((c.release, 1))
    case _ => None
  }

  /** Loads, stores and swaps on shared memory, and branches on what was read. */
  function SharedStep(c: Config, s: State, h: nat): (t: State)
    requires WF(c, s) && h < c.n && !RunsMachineCode(s.procs[h].pc)
    ensures WF(c, t)
  {
    var p := s.procs[h];
    State(
      match Written(c, s, h) { case None => s.bss case Some((v, w)) => s.bss[v := w] },
      if p.pc.Clear? && s.cleared < 8 * c.bssWords then s.cleared + 1 else s.cleared,
      if p.pc.Patch? then s.slots[4 * h + 3 := Raw(c.V(h).Patch())] else s.slots,
      if p.pc.RestoreMtimeCmp? then s.mtimecmp[h := RegWord(c.E(), c.L(h).mtimeCmp, h)] else s.mtimecmp,
      if p.pc.RestoreMtime? then c.mem(c.L(h).mtime) else s.mtime,
      if p.pc.Print? then s.console + [Message(h, p.pc.site, p.arg)] else s.console,
      s.procs[h := p.(
        pc := NextPc(c, s, h),
        ticket := if p.pc.Increment? then Wrap64(s.bss[c.counter] as int + 1) else p.ticket,
        arg := if p.pc.ReadArg? then s.bss[c.counter] else p.arg)])
  }

  /** Hart h takes its next step; x is the register file the C code has if the step is a call. */
  function Next(c: Config, s: State, h: nat, x: seq<Word>): (t: State)
    requires WF(c, s) && h < c.n && RegFile(x)
    ensures WF(c, t)
  {
    var p := s.procs[h];
    if IsRestore(p.pc) then s.(procs := s.procs[h := RestoreStep(c.V(h), p, x)])
    else if p.pc.Exit? then s.(procs := s.procs[h := ExitStep(c.V(h), p, x)])
    else if p.pc.Slot? then s.(procs := s.procs[h := SlotStep(p, Fetch(c, s, p.pc.addr), c.E())])
    else SharedStep(c, s, h)
  }

  // ---------- runs ----------

  /** Which hart moves, and with which register file at a call. */
  datatype Choice = Choice(hart: nat, x: seq<Word>)

  predicate Schedule(c: Config, choices: seq<Choice>) {
    forall k :: 0 <= k < |choices| ==> choices[k].hart < c.n && RegFile(choices[k].x)
  }

  /** The state after a schedule, oldest choice first. */
  function After(c: Config, s: State, choices: seq<Choice>): (t: State)
    requires WF(c, s) && Schedule(c, choices)
    ensures WF(c, t)
    decreases |choices|
  {
    if choices == [] then s
    else
      var k := |choices| - 1;
      var u := After(c, s, choices[..k]);
      Next(c, u, choices[k].hart, choices[k].x)
  }

  /** Some interleaving from some power-on state leads to s. */
  ghost predicate Reachable(c: Config, s: State) {
    exists s0, choices :: Init(c, s0) && Schedule(c, choices) && s == After(c, s0, choices)
  }
}
