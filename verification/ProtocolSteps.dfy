/** Every step of every hart preserves the invariant of the restore protocol. */
module ProtocolSteps {
  import opened Words
  import opened Options
  import opened Machine
  import opened RestorePrograms
  import opened DecodeRestore
  import opened Protocol
  import opened ProtocolInvariant
  import Jal

  /** Seen from the protocol, a machine-code step moves its hart forward and touches nothing shared. */
  predicate QuietMove(c: Config, s: State, t: State, h: nat)
    requires WF(c, s) && WF(c, t) && h < c.n
  {
    var p, q := s.procs[h], t.procs[h];
    && t == s.(procs := s.procs[h := q])
    && q.ticket == p.ticket && q.arg == p.arg
    && (match p.pc
        case RestoreH => q.pc.RestoreV?
        case RestoreV => q.pc.RestoreF?
        case RestoreF => q.pc.RestoreC?
        case RestoreC => q.pc.RestoreMtimeCmp?
        case Exit => q.pc.Slot? || q.pc.Done?
        case Slot(a) => (q.pc.Slot? && SlotIndex(c.core0, q.pc.addr) == SlotIndex(c.core0, a) + 1) || q.pc.Done?
        case _ => false)
  }

  /** What the shared state and the program counters can do in one step. */
  predicate Moves(c: Config, s: State, t: State, h: nat)
    requires WF(c, s) && WF(c, t) && h < c.n
  {
    if RunsMachineCode(s.procs[h].pc) then QuietMove(c, s, t, h) else t == SharedStep(c, s, h)
  }

  lemma SlotMove(v: View, p: Proc, cell: Cell)
    requires v.Valid() && p.m.Shaped() && p.pc.Slot? && ProcInv(v, p)
    requires var k := SlotIndex(v.core0, p.pc.addr); cell == if k < 3 then AssembledCell(4 * v.h + k) else Raw(v.Patch())
    ensures var q := SlotStep(p, Some(cell), v.e);
            && ProcInv(v, q)
            && ((q.pc.Slot? && SlotIndex(v.core0, q.pc.addr) == SlotIndex(v.core0, p.pc.addr) + 1) || q.pc.Done?)
  {
    hide ProcInv, SlotStep, AssembledCell, Jal.PatchWord;
    var k := SlotIndex(v.core0, p.pc.addr);
    if k < 3 {
      SlotLoad(v, p, k);
    } else {
      SlotJump(v, p);
    }
  }

  /** The cell a hart in its slot fetches. */
  lemma FetchesOwnSlot(c: Config, s: State, h: nat)
    requires WF(c, s) && h < c.n && SlotsInv(c, s)
    requires s.procs[h].pc.Slot? && ProcInv(c.V(h), s.procs[h])
    ensures var k := SlotIndex(c.core0, s.procs[h].pc.addr);
            Fetch(c, s, s.procs[h].pc.addr) == Some(if k < 3 then AssembledCell(4 * h + k) else Raw(c.V(h).Patch()))
  {
    hide StateRestored, SlotRegs, ResumePc, ExtCheck, GetCoreMemlayout, Jal.PatchWord;
    var k := SlotIndex(c.core0, s.procs[h].pc.addr);
    SlotArithmetic(c.core0, h, k);
    DivUnique(4 * h + k, 4, h, k);
  }

  lemma MachineMove(c: Config, s: State, h: nat, x: seq<Word>)
    requires WF(c, s) && h < c.n && RegFile(x) && SlotsInv(c, s) && ProcInv(c.V(h), s.procs[h])
    requires RunsMachineCode(s.procs[h].pc)
    ensures var t := Next(c, s, h, x); QuietMove(c, s, t, h) && ProcInv(c.V(h), t.procs[h])
  {
    hide ProcInv, RestoreStep, ExitStep, SlotStep, SharedStep, SlotsInv, Fetch;
    var v, p := c.V(h), s.procs[h];
    match p.pc
    case RestoreH => HypervisorMove(v, p, x);
    case RestoreV => VectorMove(v, p, x);
    case RestoreF => FloatMove(v, p, x);
    case RestoreC => ControlMove(v, p, x);
    case Exit => ExitMove(v, p, x);
    case Slot(a) =>
      FetchesOwnSlot(c, s, h);
      SlotMove(v, p, Fetch(c, s, a).value);
  }

  // ---------- preservation, one concern at a time ----------

  /** Everything a step does to the harts happens to hart h. */
  lemma MovesOne(c: Config, s: State, t: State, h: nat)
    requires WF(c, s) && WF(c, t) && h < c.n && Moves(c, s, t, h)
    ensures t.procs == s.procs[h := t.procs[h]]
  {
    hide ExtCheck, GetCoreMemlayout, Jal.PatchWord, Jal.IsValidImm, NextPc, Written;
  }

  /** Who writes the shared words once the gate is open. */
  lemma WordEffects(c: Config, s: State, t: State, h: nat)
    requires WF(c, s) && WF(c, t) && h < c.n && Moves(c, s, t, h) && !s.procs[h].pc.Clear?
    ensures var p := s.procs[h].pc;
            && t.bss[c.printLock] == (if p.Try? && p.lock.Console? then LOCKED else if p.Unlock? then 0 else s.bss[c.printLock])
            && t.bss[c.restoreLock] == (if p.Try? && p.lock.Barrier? then LOCKED
                                        else if p.UnlockWait? || p.UnlockGo? then 0 else s.bss[c.restoreLock])
            && t.bss[c.counter] == (if p.Increment? then Wrap64(s.bss[c.counter] as int + 1) else s.bss[c.counter])
            && t.bss[c.release] == (if p.SetRelease? then 1 else s.bss[c.release])
            && t.bss[c.bssLock] == (if p.OpenGate? then 1 else s.bss[c.bssLock])
  {
    hide ExtCheck, GetCoreMemlayout, Jal.PatchWord, Jal.IsValidImm, Jal.Offset, RegWord;
  }

  lemma GatePcs(c: Config, s: State, t: State, h: nat)
    requires WF(c, s) && WF(c, t) && h < c.n && Moves(c, s, t, h)
    ensures var p, q := s.procs[h].pc, t.procs[h].pc;
            && (q.Clear? ==> p.Clear?)
            && (q.OpenGate? ==> p.Clear? && s.cleared >= 8 * c.bssWords)
            && (q.GateSpin? ==> p.GateSpin?)
            && (p.Clear? ==> q.Clear? || q.OpenGate?)
            && (p.GateSpin? && s.bss[c.bssLock] == 0 ==> q.GateSpin?)
            && (!p.Clear? ==> t.cleared == s.cleared)
            && (p.Clear? ==> t == SharedStep(c, s, h))
            && (p.GateSpin? ==> t.bss == s.bss)
  {
    hide ExtCheck, GetCoreMemlayout, Jal.PatchWord, Jal.IsValidImm, Jal.Offset, RegWord;
  }

  lemma GateStep(c: Config, s: State, t: State, h: nat)
    requires WF(c, s) && WF(c, t) && h < c.n && Moves(c, s, t, h)
    requires GateInv(c, s)
    ensures GateInv(c, t)
  {
    hide SharedStep, QuietMove, ClearedBelow;
    MovesOne(c, s, t, h);
    GatePcs(c, s, t, h);
    if s.procs[h].pc.Clear? {
      ClearedStep(c, s, h);
    } else {
      WordEffects(c, s, t, h);
    }
  }

  /** One byte further, everything below the cursor is still zero, and so is bss_lock although it
  lies in the cleared range. */
  lemma ClearedStep(c: Config, s: State, h: nat)
    requires WF(c, s) && h < c.n && s.procs[h].pc.Clear?
    requires s.cleared <= 8 * c.bssWords && ClearedBelow(s.bss, s.cleared) && s.bss[c.bssLock] == 0
    ensures var t := SharedStep(c, s, h);
            && ClearedBelow(t.bss, t.cleared) && t.bss[c.bssLock] == 0 && t.cleared <= 8 * c.bssWords
            && (t.procs[h].pc.OpenGate? ==> t.cleared == 8 * c.bssWords)
  {
    if s.cleared < 8 * c.bssWords {
      var w, k := s.cleared / 8, s.cleared % 8;
      ClearNextByte(s.bss[w], k);
      if k == 7 {
        ClearedWord(ClearByte(s.bss[w], k));
      }
    }
  }

  /** How one step changes what its hart holds and whether it counts. */
  predicate KindEffect(c: Config, s: State, p: Pc, q: Pc)
    requires WF(c, s)
  {
    && (Is(c.core0, HoldsConsole, q) <==>
          (p.Try? && p.lock.Console? && s.bss[c.printLock] == 0)
          || (Is(c.core0, HoldsConsole, p) && !p.Unlock?))
    && (Is(c.core0, HoldsBarrier, q) <==>
          (p.Try? && p.lock.Barrier? && s.bss[c.restoreLock] == 0)
          || (Is(c.core0, HoldsBarrier, p) && !p.UnlockWait? && !p.UnlockGo?))
    && (Is(c.core0, Counted, q) <==> p.Increment? || Is(c.core0, Counted, p))
    && (Is(c.core0, Unlogged, q) <==>
          p.Increment? || (Is(c.core0, Unlogged, p) && !(p.Print? && p.site.Arrive?)))
  }

  lemma KindEffects(c: Config, s: State, t: State, h: nat)
    requires WF(c, s) && WF(c, t) && h < c.n && Moves(c, s, t, h) && !s.procs[h].pc.Clear?
    ensures KindEffect(c, s, s.procs[h].pc, t.procs[h].pc)
  {
    hide SharedStep, QuietMove, KindEffect;
    var p := s.procs[h].pc;
    if RunsMachineCode(p) {
      KindEffectsMachine(c, s, t, h);
    } else if p.Spin? || p.Try? || p.Print? || p.Unlock? {
      KindEffectsConsole(c, s, t, h);
    } else {
      KindEffectsOther(c, s, t, h);
    }
  }

  lemma KindEffectsMachine(c: Config, s: State, t: State, h: nat)
    requires WF(c, s) && WF(c, t) && h < c.n && Moves(c, s, t, h) && RunsMachineCode(s.procs[h].pc)
    ensures KindEffect(c, s, s.procs[h].pc, t.procs[h].pc)
  {
    hide SharedStep;
  }

  lemma KindEffectsConsole(c: Config, s: State, t: State, h: nat)
    requires WF(c, s) && WF(c, t) && h < c.n && Moves(c, s, t, h) && (s.procs[h].pc.Spin? || s.procs[h].pc.Try? || s.procs[h].pc.Print? || s.procs[h].pc.Unlock?)
    ensures KindEffect(c, s, s.procs[h].pc, t.procs[h].pc)
  {
    hide ExtCheck, GetCoreMemlayout, Jal.PatchWord, Jal.IsValidImm, Jal.Offset, RegWord;
  }

  lemma KindEffectsOther(c: Config, s: State, t: State, h: nat)
    requires WF(c, s) && WF(c, t) && h < c.n && Moves(c, s, t, h) && !RunsMachineCode(s.procs[h].pc) && !s.procs[h].pc.Clear?
             && !(s.procs[h].pc.Spin? || s.procs[h].pc.Try? || s.procs[h].pc.Print? || s.procs[h].pc.Unlock?)
    ensures KindEffect(c, s, s.procs[h].pc, t.procs[h].pc)
  {
    hide ExtCheck, GetCoreMemlayout, Jal.PatchWord, Jal.IsValidImm, Jal.Offset, RegWord;
  }

  /** The counts after a step, given whether its hart was and is of the kind. */
  lemma CountEffect(c: Config, s: State, t: State, h: nat, k: Kind)
    requires WF(c, s) && WF(c, t) && h < c.n && t.procs == s.procs[h := t.procs[h]]
    ensures Count(c.core0, k, t.procs) ==
            Count(c.core0, k, s.procs) - (if Is(c.core0, k, s.procs[h].pc) then 1 else 0)
            + if Is(c.core0, k, t.procs[h].pc) then 1 else 0
    ensures Is(c.core0, k, s.procs[h].pc) ==> Count(c.core0, k, s.procs) >= 1
  {
    CountUpdate(c.core0, k, s.procs, h, t.procs[h]);
    if Is(c.core0, k, s.procs[h].pc) {
      CountMember(c.core0, k, s.procs, h);
    }
  }

  lemma LockStep(c: Config, s: State, t: State, h: nat)
    requires WF(c, s) && WF(c, t) && h < c.n && Moves(c, s, t, h)
    requires GateInv(c, s) && GateInv(c, t) && LockInv(c, s)
    ensures LockInv(c, t)
  {
    MovesOne(c, s, t, h);
    if Open(s) {
      OpenLockStep(c, s, t, h);
    } else {
      ClosedLockStep(c, s, t, h);
    }
  }

  lemma OpenLockStep(c: Config, s: State, t: State, h: nat)
    requires WF(c, s) && WF(c, t) && h < c.n && Moves(c, s, t, h) && t.procs == s.procs[h := t.procs[h]]
    requires GateInv(c, s) && LockInv(c, s) && Open(s)
    ensures Open(t) && LockInv(c, t)
  {
    hide Phase, Is, SharedStep, QuietMove;
    StaysOpen(c, s, t, h);
    WordEffects(c, s, t, h);
    KindEffects(c, s, t, h);
    CountEffect(c, s, t, h, HoldsConsole);
    CountEffect(c, s, t, h, HoldsBarrier);
    CountEffect(c, s, t, h, Counted);
    HeldPcs(c.core0, s.procs[h].pc);
  }

  lemma HeldPcs(core0: Word, p: Pc)
    ensures p.Unlock? ==> Is(core0, HoldsConsole, p)
    ensures p.UnlockWait? || p.UnlockGo? || p.Increment? ==> Is(core0, HoldsBarrier, p)
    ensures p.Increment? ==> !Is(core0, Counted, p)
    ensures p.Try? && p.lock.Barrier? ==> !Is(core0, HoldsBarrier, p)
    ensures p.Try? ==> !Is(core0, HoldsConsole, p)
  {
  }

  lemma StaysOpen(c: Config, s: State, t: State, h: nat)
    requires WF(c, s) && WF(c, t) && h < c.n && Moves(c, s, t, h) && t.procs == s.procs[h := t.procs[h]]
    requires GateInv(c, s) && Open(s)
    ensures Open(t) && !s.procs[h].pc.Clear? && !s.procs[h].pc.OpenGate?
  {
    hide ExtCheck, GetCoreMemlayout, Jal.PatchWord, Jal.IsValidImm, Jal.Offset, RegWord;
  }

  /** While the gate is closed nobody holds or counts; opening it finds every shared word zero. */
  lemma ClosedLockStep(c: Config, s: State, t: State, h: nat)
    requires WF(c, s) && WF(c, t) && h < c.n && Moves(c, s, t, h) && t.procs == s.procs[h := t.procs[h]]
    requires GateInv(c, s) && LockInv(c, s) && !Open(s)
    ensures LockInv(c, t)
    ensures Open(t) ==> t.bss[c.release] == 0 && t.bss[c.counter] == 0
    ensures forall k :: Count(c.core0, k, t.procs) == 0
    ensures t.console == s.console
  {
    hide SharedStep, QuietMove, Phase, Is, GateInv;
    ClosedMove(c, s, t, h);
    forall k
      ensures Count(c.core0, k, t.procs) == 0
    {
      CountEffect(c, s, t, h, k);
    }
  }

  /** Before the gate is open nobody is in a critical section or counted; opening it finds all zeros. */
  lemma ClosedMove(c: Config, s: State, t: State, h: nat)
    requires WF(c, s) && WF(c, t) && h < c.n && Moves(c, s, t, h) && t.procs == s.procs[h := t.procs[h]]
    requires GateInv(c, s) && !Open(s)
    ensures t.console == s.console
    ensures forall k :: !Is(c.core0, k, s.procs[h].pc) && !Is(c.core0, k, t.procs[h].pc)
    ensures Open(t) ==> t.bss[c.printLock] == 0 && t.bss[c.restoreLock] == 0 && t.bss[c.release] == 0 && t.bss[c.counter] == 0
  {
    hide ExtCheck, GetCoreMemlayout, Jal.PatchWord, Jal.IsValidImm, Jal.Offset, RegWord, Wrap64, Signed32, LowBytesZero;
  }

  lemma TicketWritten(c: Config, s: State, t: State, h: nat)
    requires WF(c, s) && WF(c, t) && h < c.n && Moves(c, s, t, h)
    ensures var p, q := s.procs[h], t.procs[h];
            && q.ticket == (if p.pc.Increment? then Wrap64(s.bss[c.counter] as int + 1) else p.ticket)
            && q.arg == (if p.pc.ReadArg? then s.bss[c.counter] else p.arg)
  {
    hide ExtCheck, GetCoreMemlayout, Jal.PatchWord, Jal.IsValidImm, Jal.Offset, RegWord, Signed32, Wrap64, Phase, NextPc, Written;
  }

  lemma MessagePending(c: Config, s: State, t: State, h: nat)
    requires WF(c, s) && WF(c, t) && h < c.n && Moves(c, s, t, h)
    requires 20 <= Phase(c.core0, t.procs[h].pc) <= 21
    ensures s.procs[h].pc.ReadArg? || 20 <= Phase(c.core0, s.procs[h].pc) <= 21
  {
    hide ExtCheck, GetCoreMemlayout, Jal.PatchWord, Jal.IsValidImm, Jal.Offset, RegWord, Signed32, Wrap64, Written;
  }

  /** How one step changes its hart's ticket, message argument and place in the program. */
  lemma TicketEffects(c: Config, s: State, t: State, h: nat)
    requires WF(c, s) && WF(c, t) && h < c.n && Moves(c, s, t, h)
    ensures var p, q := s.procs[h], t.procs[h];
            && q.ticket == (if p.pc.Increment? then Wrap64(s.bss[c.counter] as int + 1) else p.ticket)
            && q.arg == (if p.pc.ReadArg? then s.bss[c.counter] else p.arg)
            && (20 <= Phase(c.core0, q.pc) <= 21 ==> p.pc.ReadArg? || 20 <= Phase(c.core0, p.pc) <= 21)
  {
    hide SharedStep, QuietMove, Phase;
    TicketWritten(c, s, t, h);
    if 20 <= Phase(c.core0, t.procs[h].pc) <= 21 {
      MessagePending(c, s, t, h);
    }
  }

  lemma CountedFacts(core0: Word, p: Pc)
    ensures p.ReadArg? || 20 <= Phase(core0, p) <= 21 ==> Is(core0, Counted, p) && Is(core0, HoldsBarrier, p)
    ensures p.Compare? ==> Is(core0, Counted, p) && Is(core0, HoldsBarrier, p)
    ensures p.Increment? ==> Is(core0, HoldsBarrier, p) && !Is(core0, Counted, p)
    ensures p.Try? && p.lock.Barrier? ==> !Is(core0, Counted, p)
    ensures p.Print? && p.site.Arrive? ==> Phase(core0, p) == 21
    ensures 24 <= Phase(core0, p) ==> Is(core0, Counted, p)
    ensures p.UnlockWait? || p.UnlockGo? ==> Phase(core0, p) == 24
    ensures p.WaitRelease? || p.SetRelease? ==> Phase(core0, p) == 25
    ensures p.RestoreMtime? ==> Phase(core0, p) == 26
  {
  }

  /** The restore lock is held by one hart only. */
  lemma OneBarrierHolder(c: Config, s: State, g: nat, h: nat)
    requires WF(c, s) && LockInv(c, s) && g < c.n && h < c.n
    requires Is(c.core0, HoldsBarrier, s.procs[g].pc) && Is(c.core0, HoldsBarrier, s.procs[h].pc)
    ensures g == h
  {
    if g < h {
      CountTwo(c.core0, HoldsBarrier, s.procs, g, h);
    } else if h < g {
      CountTwo(c.core0, HoldsBarrier, s.procs, h, g);
    }
  }

  lemma TicketStep(c: Config, s: State, t: State, h: nat)
    requires WF(c, s) && WF(c, t) && h < c.n && Moves(c, s, t, h)
    requires GateInv(c, s) && LockInv(c, s) && LockInv(c, t) && TicketInv(c, s)
    ensures TicketInv(c, t)
  {
    MovesOne(c, s, t, h);
    if Open(s) {
      StaysOpen(c, s, t, h);
      OpenTicketStep(c, s, t, h);
    } else {
      ClosedLockStep(c, s, t, h);
      ClosedTickets(c, t);
    }
  }

  lemma ClosedTickets(c: Config, t: State)
    requires WF(c, t) && (forall k :: Count(c.core0, k, t.procs) == 0)
    requires Open(t) ==> t.bss[c.counter] == 0
    ensures TicketInv(c, t)
  {
    forall g | 0 <= g < c.n
      ensures !Is(c.core0, Counted, t.procs[g].pc) && !(20 <= Phase(c.core0, t.procs[g].pc) <= 21)
    {
      if Is(c.core0, Counted, t.procs[g].pc) {
        CountMember(c.core0, Counted, t.procs, g);
      }
    }
  }

  lemma OpenTicketStep(c: Config, s: State, t: State, h: nat)
    requires WF(c, s) && WF(c, t) && h < c.n && Moves(c, s, t, h) && t.procs == s.procs[h := t.procs[h]]
    requires LockInv(c, s) && TicketInv(c, s) && Open(s) && !s.procs[h].pc.Clear?
    ensures TicketInv(c, t)
  {
    hide SharedStep, QuietMove, Phase, Is, HasTicket;
    forall v | 1 <= v <= t.bss[c.counter]
      ensures HasTicket(c, t, v)
    {
      TicketKept(c, s, t, h, v);
    }
    if s.procs[h].pc.Increment? {
      NewTicket(c, s, t, h);
    } else {
      OldTickets(c, s, t, h);
    }
  }

  lemma OldTickets(c: Config, s: State, t: State, h: nat)
    requires WF(c, s) && WF(c, t) && h < c.n && Moves(c, s, t, h) && t.procs == s.procs[h := t.procs[h]]
    requires TicketInv(c, s) && !s.procs[h].pc.Clear? && !s.procs[h].pc.Increment?
    ensures TicketsOrdered(c, t)
  {
    hide SharedStep, QuietMove, Phase, Is, HasTicket;
    WordEffects(c, s, t, h);
    KindEffects(c, s, t, h);
    TicketEffects(c, s, t, h);
    CountedFacts(c.core0, s.procs[h].pc);
  }

  /** The incrementing hart gets the number after the highest one given so far. */
  lemma NewTicket(c: Config, s: State, t: State, h: nat)
    requires WF(c, s) && WF(c, t) && h < c.n && Moves(c, s, t, h) && t.procs == s.procs[h := t.procs[h]]
    requires LockInv(c, s) && TicketInv(c, s) && Open(s) && s.procs[h].pc.Increment?
    ensures TicketsOrdered(c, t)
  {
    hide SharedStep, QuietMove, Phase, Is, Wrap64;
    NextNumber(c, s, t, h);
    KindEffects(c, s, t, h);
    TicketEffects(c, s, t, h);
    CountedFacts(c.core0, s.procs[h].pc);
    OthersWait(c, s, h);
  }

  lemma NextNumber(c: Config, s: State, t: State, h: nat)
    requires WF(c, s) && WF(c, t) && h < c.n && Moves(c, s, t, h) && LockInv(c, s) && Open(s) && s.procs[h].pc.Increment?
    ensures t.procs[h].ticket == t.bss[c.counter] == s.bss[c.counter] + 1
  {
    hide SharedStep, QuietMove, Phase, Is;
    WordEffects(c, s, t, h);
    TicketWritten(c, s, t, h);
  }

  /** While one hart increments, no other hart holds the restore lock. */
  lemma OthersWait(c: Config, s: State, h: nat)
    requires WF(c, s) && LockInv(c, s) && h < c.n && s.procs[h].pc.Increment?
    ensures forall g :: 0 <= g < c.n && Is(c.core0, HoldsBarrier, s.procs[g].pc) ==> g == h
  {
    forall g | 0 <= g < c.n && Is(c.core0, HoldsBarrier, s.procs[g].pc)
      ensures g == h
    {
      OneBarrierHolder(c, s, g, h);
    }
  }

  lemma TicketKept(c: Config, s: State, t: State, h: nat, v: nat)
    requires WF(c, s) && WF(c, t) && h < c.n && Moves(c, s, t, h) && t.procs == s.procs[h := t.procs[h]]
    requires LockInv(c, s) && TicketInv(c, s) && Open(s) && !s.procs[h].pc.Clear?
    requires 1 <= v <= t.bss[c.counter]
    ensures HasTicket(c, t, v)
  {
    hide SharedStep, QuietMove, Phase, Is;
    WordEffects(c, s, t, h);
    KindEffects(c, s, t, h);
    TicketEffects(c, s, t, h);
    CountedFacts(c.core0, s.procs[h].pc);
    if v <= s.bss[c.counter] {
      assert HasTicket(c, s, v);
      var g :| 0 <= g < c.n && Is(c.core0, Counted, s.procs[g].pc) && s.procs[g].ticket == v;
      assert Is(c.core0, Counted, t.procs[g].pc) && t.procs[g].ticket == v;
    } else {
      assert Is(c.core0, Counted, t.procs[h].pc) && t.procs[h].ticket == v;
    }
  }

  // ---------- the release flag ----------

  /** Which steps lead to the two branches and past the barrier. */
  lemma BranchTaken(c: Config, s: State, t: State, h: nat)
    requires WF(c, s) && WF(c, t) && h < c.n && Moves(c, s, t, h)
    ensures var p, q := s.procs[h].pc, t.procs[h].pc;
            && (q.UnlockWait? ==> p.Compare? && !c.Releases(h, s.bss[c.counter]))
            && (q.UnlockGo? ==> p.Compare? && c.Releases(h, s.bss[c.counter]))
  {
    hide ExtCheck, GetCoreMemlayout, Jal.PatchWord, Jal.IsValidImm, Jal.Offset, RegWord, Signed32, Wrap64, Phase, Written;
  }

  lemma BranchFollowed(c: Config, s: State, t: State, h: nat)
    requires WF(c, s) && WF(c, t) && h < c.n && Moves(c, s, t, h)
    ensures var p, q := s.procs[h].pc, t.procs[h].pc;
            && (q.WaitRelease? ==> p.UnlockWait? || p.WaitRelease?)
            && (q.SetRelease? ==> p.UnlockGo?)
            && (q.RestoreMtime? ==> p.SetRelease?)
  {
    hide ExtCheck, GetCoreMemlayout, Jal.PatchWord, Jal.IsValidImm, Jal.Offset, RegWord, Signed32, Wrap64, Phase, Written;
  }

  predicate PastBarrierEffect(c: Config, s: State, p: Pc, q: Pc)
    requires WF(c, s)
  {
    Phase(c.core0, q) >= 26 <==>
      p.SetRelease? || (p.WaitRelease? && s.bss[c.release] == 1) || Phase(c.core0, p) >= 26
  }

  lemma PastBarrierMachine(c: Config, s: State, t: State, h: nat)
    requires WF(c, s) && WF(c, t) && h < c.n && Moves(c, s, t, h) && RunsMachineCode(s.procs[h].pc)
    ensures PastBarrierEffect(c, s, s.procs[h].pc, t.procs[h].pc)
  {
    hide SharedStep;
  }

  lemma PastBarrierShared(c: Config, s: State, t: State, h: nat)
    requires WF(c, s) && WF(c, t) && h < c.n && Moves(c, s, t, h) && !RunsMachineCode(s.procs[h].pc)
    ensures PastBarrierEffect(c, s, s.procs[h].pc, t.procs[h].pc)
  {
    hide Written, ExtCheck, GetCoreMemlayout, Jal.PatchWord, Jal.IsValidImm, Jal.Offset, Signed32, Wrap64;
  }

  lemma ReleaseEffects(c: Config, s: State, t: State, h: nat)
    requires WF(c, s) && WF(c, t) && h < c.n && Moves(c, s, t, h)
    ensures var p, q := s.procs[h].pc, t.procs[h].pc;
            && (q.UnlockWait? ==> p.Compare? && !c.Releases(h, s.bss[c.counter]))
            && (q.UnlockGo? ==> p.Compare? && c.Releases(h, s.bss[c.counter]))
            && (q.WaitRelease? ==> p.UnlockWait? || p.WaitRelease?)
            && (q.SetRelease? ==> p.UnlockGo?)
            && (q.RestoreMtime? ==> p.SetRelease?)
            && PastBarrierEffect(c, s, p, q)
  {
    hide SharedStep, QuietMove, PastBarrierEffect, GetCoreMemlayout, Signed32;
    BranchTaken(c, s, t, h);
    BranchFollowed(c, s, t, h);
    if RunsMachineCode(s.procs[h].pc) {
      PastBarrierMachine(c, s, t, h);
    } else {
      PastBarrierShared(c, s, t, h);
    }
  }

  lemma ReleaseStep(c: Config, s: State, t: State, h: nat)
    requires WF(c, s) && WF(c, t) && h < c.n && Moves(c, s, t, h)
    requires GateInv(c, s) && LockInv(c, s) && TicketInv(c, s) && ReleaseInv(c, s) && LockInv(c, t)
    ensures ReleaseInv(c, t)
  {
    MovesOne(c, s, t, h);
    if Open(s) {
      StaysOpen(c, s, t, h);
      OpenReleaseStep(c, s, t, h);
    } else {
      ClosedLockStep(c, s, t, h);
      ClosedRelease(c, t);
    }
  }

  lemma ClosedRelease(c: Config, t: State)
    requires WF(c, t) && (forall k :: Count(c.core0, k, t.procs) == 0)
    requires Open(t) ==> t.bss[c.release] == 0
    ensures ReleaseInv(c, t)
  {
    hide GetCoreMemlayout, Signed32;
    forall g | 0 <= g < c.n
      ensures Phase(c.core0, t.procs[g].pc) < 24
    {
      if Is(c.core0, Counted, t.procs[g].pc) {
        CountMember(c.core0, Counted, t.procs, g);
      }
    }
  }

  lemma OpenReleaseStep(c: Config, s: State, t: State, h: nat)
    requires WF(c, s) && WF(c, t) && h < c.n && Moves(c, s, t, h) && t.procs == s.procs[h := t.procs[h]]
    requires TicketInv(c, s) && ReleaseInv(c, s) && Open(s) && !s.procs[h].pc.Clear?
    ensures ReleaseInv(c, t)
  {
    hide SharedStep, QuietMove, Phase, Is, GetCoreMemlayout, Signed32, HasReleaser, HasTicket;
    WordEffects(c, s, t, h);
    TicketEffects(c, s, t, h);
    ReleaseEffects(c, s, t, h);
    CountedFacts(c.core0, s.procs[h].pc);
    if t.bss[c.release] == 1 {
      ReleaserKept(c, s, t, h);
    }
  }

  lemma ReleaserKept(c: Config, s: State, t: State, h: nat)
    requires WF(c, s) && WF(c, t) && h < c.n && Moves(c, s, t, h) && t.procs == s.procs[h := t.procs[h]]
    requires TicketInv(c, s) && ReleaseInv(c, s) && Open(s) && !s.procs[h].pc.Clear? && t.bss[c.release] == 1
    ensures HasReleaser(c, t)
  {
    hide SharedStep, QuietMove, Phase, Is, GetCoreMemlayout, Signed32, HasTicket;
    WordEffects(c, s, t, h);
    TicketEffects(c, s, t, h);
    ReleaseEffects(c, s, t, h);
    CountedFacts(c.core0, s.procs[h].pc);
    if s.procs[h].pc.SetRelease? {
      assert Phase(c.core0, t.procs[h].pc) >= 26 && c.Releases(h, t.procs[h].ticket);
    } else {
      var g :| 0 <= g < c.n && Phase(c.core0, s.procs[g].pc) >= 26 && c.Releases(g, s.procs[g].ticket)
               && 1 <= s.procs[g].ticket;
      CountedFacts(c.core0, s.procs[g].pc);
      assert Phase(c.core0, t.procs[g].pc) >= 26 && c.Releases(g, t.procs[g].ticket);
    }
  }

  // ---------- the console ----------

  lemma {:induction false} UnloggedHold(core0: Word, procs: seq<Proc>)
    ensures Count(core0, Unlogged, procs) <= Count(core0, HoldsBarrier, procs)
  {
    if procs != [] {
      UnloggedHold(core0, procs[..|procs| - 1]);
    }
  }

  lemma ConsoleEffects(c: Config, s: State, t: State, h: nat)
    requires WF(c, s) && WF(c, t) && h < c.n && Moves(c, s, t, h)
    ensures t.console ==
            if s.procs[h].pc.Print? then s.console + [Message(h, s.procs[h].pc.site, s.procs[h].arg)] else s.console
  {
    hide ExtCheck, GetCoreMemlayout, Jal.PatchWord, Jal.IsValidImm, Jal.Offset, RegWord, NextPc, Written;
  }

  lemma ArrivalsAppend(console: seq<Message>, m: Message)
    ensures Arrivals(console + [m]) == Arrivals(console) + if m.site == Arrive then [m.count] else []
  {
    assert (console + [m])[..|console|] == console;
  }

  lemma LogStep(c: Config, s: State, t: State, h: nat)
    requires WF(c, s) && WF(c, t) && h < c.n && Moves(c, s, t, h)
    requires GateInv(c, s) && LockInv(c, s) && TicketInv(c, s) && LogInv(c, s) && LockInv(c, t)
    ensures LogInv(c, t)
  {
    MovesOne(c, s, t, h);
    if Open(s) {
      StaysOpen(c, s, t, h);
      OpenLogStep(c, s, t, h);
    } else {
      ClosedLockStep(c, s, t, h);
    }
  }

  lemma OpenLogStep(c: Config, s: State, t: State, h: nat)
    requires WF(c, s) && WF(c, t) && h < c.n && Moves(c, s, t, h) && t.procs == s.procs[h := t.procs[h]]
    requires LockInv(c, s) && TicketInv(c, s) && LogInv(c, s) && Open(s) && Open(t) && !s.procs[h].pc.Clear?
    requires LockInv(c, t)
    ensures LogInv(c, t)
  {
    hide SharedStep, QuietMove, Phase, Is, HasTicket;
    WordEffects(c, s, t, h);
    KindEffects(c, s, t, h);
    CountEffect(c, s, t, h, Unlogged);
    ConsoleEffects(c, s, t, h);
    CountedFacts(c.core0, s.procs[h].pc);
    var p := s.procs[h].pc;
    IncrementIsNew(c.core0, p);
    if p.Print? {
      ArrivalsAppend(s.console, Message(h, p.site, s.procs[h].arg));
      UnloggedHold(c.core0, s.procs);
    }
  }

  lemma IncrementIsNew(core0: Word, p: Pc)
    ensures p.Increment? ==> !Is(core0, Unlogged, p)
    ensures p.Print? && p.site.Arrive? ==> Is(core0, Unlogged, p)
  {
  }

  // ---------- slots and registers ----------

  /** A hart with a jump to make cannot pass over its patch. */
  lemma PatchPassed(c: Config, s: State, t: State, h: nat)
    requires WF(c, s) && WF(c, t) && h < c.n && Moves(c, s, t, h) && c.V(h).caps.jump
    ensures Phase(c.core0, t.procs[h].pc) >= 12 <==> s.procs[h].pc.Patch? || Phase(c.core0, s.procs[h].pc) >= 12
  {
    hide Written, ExtCheck, GetCoreMemlayout, Jal.PatchWord, Jal.IsValidImm, Jal.Offset, Signed32, Wrap64;
  }

  lemma PatchEffects(c: Config, s: State, t: State, h: nat)
    requires WF(c, s) && WF(c, t) && h < c.n && Moves(c, s, t, h)
    ensures t.slots == if s.procs[h].pc.Patch? then s.slots[4 * h + 3 := Raw(c.V(h).Patch())] else s.slots
    ensures c.V(h).caps.jump ==>
              (Phase(c.core0, t.procs[h].pc) >= 12 <==> s.procs[h].pc.Patch? || Phase(c.core0, s.procs[h].pc) >= 12)
  {
    hide SharedStep, QuietMove, Phase, ExtCheck, GetCoreMemlayout, Jal.PatchWord;
    SlotsWritten(c, s, t, h);
    if c.V(h).caps.jump {
      PatchPassed(c, s, t, h);
    }
  }

  lemma SlotsWritten(c: Config, s: State, t: State, h: nat)
    requires WF(c, s) && WF(c, t) && h < c.n && Moves(c, s, t, h)
    ensures t.slots == if s.procs[h].pc.Patch? then s.slots[4 * h + 3 := Raw(c.V(h).Patch())] else s.slots
  {
    hide ExtCheck, GetCoreMemlayout, Jal.PatchWord, Jal.IsValidImm, Jal.Offset, RegWord, Signed32, Wrap64, NextPc, Written;
  }

  lemma SlotsStep(c: Config, s: State, t: State, h: nat)
    requires WF(c, s) && WF(c, t) && h < c.n && Moves(c, s, t, h) && SlotsInv(c, s)
    requires 6 <= Phase(c.core0, s.procs[h].pc) <= 11 ==> c.V(h).caps.jump
    ensures SlotsInv(c, t)
  {
    hide SharedStep, QuietMove, Phase, ExtCheck, GetCoreMemlayout, Jal.PatchWord;
    MovesOne(c, s, t, h);
    PatchEffects(c, s, t, h);
    assert s.procs[h].pc.Patch? ==> Phase(c.core0, s.procs[h].pc) == 11 by {
      PatchPhase(c.core0, s.procs[h].pc);
    }
  }

  lemma PatchPhase(core0: Word, p: Pc)
    ensures p.Patch? ==> Phase(core0, p) == 11
  {
  }

  /** A shared step keeps the hart's registers and never skips a restore call. */
  lemma SharedProgress(c: Config, s: State, h: nat)
    requires WF(c, s) && h < c.n && !RunsMachineCode(s.procs[h].pc) && !s.procs[h].pc.Fault?
    ensures var p, q := s.procs[h], SharedStep(c, s, h).procs[h];
            && q.m == p.m && !q.pc.Fault? && !q.pc.Slot?
            && (q.pc.Done? ==> q.pc == p.pc)
            && (6 <= Phase(c.core0, q.pc) <= 11 ==> c.V(h).caps.jump || 6 <= Phase(c.core0, p.pc) <= 11)
            && (13 <= Phase(c.core0, q.pc) ==> 16 <= Phase(c.core0, p.pc) && 17 <= Phase(c.core0, q.pc))
  {
    hide SharedStep, Written, ExtCheck, GetCoreMemlayout, Jal.PatchWord, Jal.IsValidImm, Jal.Offset, Signed32, Wrap64;
    SharedMove(c, s, h);
  }

  lemma SharedMove(c: Config, s: State, h: nat)
    requires WF(c, s) && h < c.n && !RunsMachineCode(s.procs[h].pc)
    ensures SharedStep(c, s, h).procs[h].m == s.procs[h].m && SharedStep(c, s, h).procs[h].pc == NextPc(c, s, h)
  {
    hide ExtCheck, GetCoreMemlayout, Jal.PatchWord, Jal.IsValidImm, Jal.Offset, RegWord, Signed32, Wrap64, NextPc, Written;
  }

  /** The mtimecmp cell of a hart is written by its own restore step only. */
  lemma MtimeCmpEffects(c: Config, s: State, t: State, h: nat)
    requires WF(c, s) && WF(c, t) && h < c.n && Moves(c, s, t, h)
    ensures t.mtimecmp ==
            if s.procs[h].pc.RestoreMtimeCmp? then s.mtimecmp[h := RegWord(c.E(), c.L(h).mtimeCmp, h)] else s.mtimecmp
    ensures Phase(c.core0, t.procs[h].pc) >= 17 ==> s.procs[h].pc.RestoreMtimeCmp? || Phase(c.core0, s.procs[h].pc) >= 17
  {
    hide ExtCheck, GetCoreMemlayout, Jal.PatchWord, Jal.IsValidImm, Jal.Offset, RegWord, Signed32, Wrap64;
  }

  lemma SharedProcInv(v: View, p: Proc, q: Proc)
    requires v.Valid() && p.m.Shaped() && ProcInv(v, p) && q.m == p.m && !q.pc.Fault? && !q.pc.Slot?
    requires q.pc.Done? ==> q.pc == p.pc
    requires 6 <= Phase(v.core0, q.pc) <= 11 ==> v.caps.jump || 6 <= Phase(v.core0, p.pc) <= 11
    requires 13 <= Phase(v.core0, q.pc) ==> 16 <= Phase(v.core0, p.pc) && 17 <= Phase(v.core0, q.pc)
    ensures ProcInv(v, q)
  {
    hide StateRestored, SlotRegs, ResumePc, IntsRestored, Phase;
    SplitRestored(v.caps, v.l, p.m, v.e);
  }

  lemma SplitRestored(caps: Caps, l: Memlayout, m: Hart, e: Env)
    requires m.Shaped()
    ensures StateRestored(caps, l, m.csr, m.f, m.v, e) ==>
              HypervisorRestored(caps, l, m.csr, e) && VectorsRestored(caps, l, m.csr, m.v, e)
              && FloatsRestored(caps, l, m.f, e)
  {
    hide HypervisorRestored, VectorsRestored, FloatsRestored, ControlRestored;
  }

  // ---------- one step, any run ----------

  lemma ProcStep(c: Config, s: State, h: nat, x: seq<Word>)
    requires Inv(c, s) && h < c.n && RegFile(x)
    ensures var t := Next(c, s, h, x); Moves(c, s, t, h) && ProcInv(c.V(h), t.procs[h])
  {
    hide ProcInv, SharedStep, QuietMove, SlotsInv, RestoreStep, ExitStep, SlotStep, Phase;
    assert LocalInv(c, s, h);
    if RunsMachineCode(s.procs[h].pc) {
      MachineMove(c, s, h, x);
    } else {
      NotFaulted(c.V(h), s.procs[h]);
      SharedProgress(c, s, h);
      SharedProcInv(c.V(h), s.procs[h], Next(c, s, h, x).procs[h]);
    }
  }

  lemma NotFaulted(v: View, p: Proc)
    requires v.Valid() && p.m.Shaped() && ProcInv(v, p)
    ensures !p.pc.Fault? && (6 <= Phase(v.core0, p.pc) <= 11 ==> v.caps.jump)
  {
    hide StateRestored, SlotRegs, ResumePc, IntsRestored, HypervisorRestored, VectorsRestored, FloatsRestored;
  }

  lemma LocalStep(c: Config, s: State, h: nat, x: seq<Word>)
    requires Inv(c, s) && h < c.n && RegFile(x)
    ensures forall g :: 0 <= g < c.n ==> LocalInv(c, Next(c, s, h, x), g)
  {
    hide ProcInv, SharedStep, QuietMove, Next, Phase, RegWord;
    var t := Next(c, s, h, x);
    ProcStep(c, s, h, x);
    MovesOne(c, s, t, h);
    MtimeCmpEffects(c, s, t, h);
    forall g | 0 <= g < c.n
      ensures LocalInv(c, t, g)
    {
      assert LocalInv(c, s, g);
    }
  }

  lemma InvStep(c: Config, s: State, h: nat, x: seq<Word>)
    requires Inv(c, s) && h < c.n && RegFile(x)
    ensures Inv(c, Next(c, s, h, x))
  {
    hide ProcInv, SharedStep, QuietMove, Next, Phase, GateInv, LockInv, TicketInv, ReleaseInv, LogInv, SlotsInv;
    var t := Next(c, s, h, x);
    ProcStep(c, s, h, x);
    assert LocalInv(c, s, h);
    NotFaulted(c.V(h), s.procs[h]);
    GateStep(c, s, t, h);
    LockStep(c, s, t, h);
    TicketStep(c, s, t, h);
    ReleaseStep(c, s, t, h);
    LogStep(c, s, t, h);
    SlotsStep(c, s, t, h);
    LocalStep(c, s, h, x);
  }

  lemma {:induction false} InvAfter(c: Config, s: State, choices: seq<Choice>)
    requires Inv(c, s) && Schedule(c, choices)
    ensures Inv(c, After(c, s, choices))
    decreases |choices|
  {
    hide Next, GateInv, LockInv, TicketInv, ReleaseInv, LogInv, SlotsInv, LocalInv;
    if choices != [] {
      var k := |choices| - 1;
      InvAfter(c, s, choices[..k]);
      InvStep(c, After(c, s, choices[..k]), choices[k].hart, choices[k].x);
    }
  }

  /** The invariant holds in every state of every run. */
  lemma InvReachable(c: Config, s: State)
    requires Reachable(c, s)
    ensures Inv(c, s)
  {
    hide Inv, After;
    var s0, choices :| Init(c, s0) && Schedule(c, choices) && s == After(c, s0, choices);
    InitEstablishes(c, s0);
    InvAfter(c, s0, choices);
  }
}
