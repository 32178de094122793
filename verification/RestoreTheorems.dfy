/** What the restore protocol guarantees in every reachable state of every interleaving. */
module RestoreTheorems {
  import opened Words
  import opened Options
  import opened Machine
  import opened RestorePrograms
  import opened DecodeRestore
  import opened Protocol
  import opened Image
  import opened ProtocolInvariant
  import opened ProtocolSteps
  import Jal

  // ---------- the resumed hart ----------

  /** A finished hart has exactly the registers, CSRs and mtimecmp of its own region of the image.
  Without a machine-mode checkpoint it continues at the checkpointed mepc; with one it continues at
  the checkpointed pc exactly when a JAL in the last word of its own slot can reach it, whatever the
  other harts wrote to the slots. */
  lemma FinishedHartIsRestored(c: Config, s: State, h: nat)
    requires Reachable(c, s) && WF(c, s) && h < c.n && s.procs[h].pc.Done?
    ensures var p, pc := s.procs[h], ImageWord(c, h, c.layout.pc);
            && IntsMatch(c, h, p.m.x)
            && StateMatches(c, h, p.m)
            && s.mtimecmp[h] == ImageWord(c, h, c.layout.mtimeCmp + 8 * h)
            && (!MachineMode(c, h) ==> p.pc.at == CsrImage(c, h, 0x341))
            && (MachineMode(c, h) ==> (p.pc.at == pc <==> Jal.Reaches(c.core0 + 16 * h + 12, pc)))
  {
    hide StateRestored, IntsRestored, StateMatches, IntsMatch, SlotRegs, ExtCheck, GetCoreMemlayout, Reachable, RegWord,
         ImageWord, MachineMode, HypervisorOn, VectorOn, FloatOn, CsrWord, CsrImage, Jal.PatchWord, Jal.JumpTarget, Jal.Reaches;
    InvReachable(c, s);
    assert LocalInv(c, s, h);
    var v := c.V(h);
    Jal.PatchReachesTarget(v.PatchPc(), v.TargetPc());
    StateFromImage(c, h, s.procs[h].m);
    IntsFromImage(c, h, s.procs[h].m);
    MtimeCmpFromImage(c, h);
    CapsFromImage(c, h);
    CsrFromImage(c, h, 0x341);
    PcFromImage(c, h);
  }

  /** If the image fits, a finished hart's state is what memory holds at the plain sums of its offsets. */
  lemma FinishedHartInPlainMemory(c: Config, s: State, h: nat)
    requires Reachable(c, s) && WF(c, s) && h < c.n && s.procs[h].pc.Done? && RegionsFit(c)
    ensures var m := s.procs[h].m;
            && (forall k: Reg | k != 0 :: Holds(c, h, c.layout.intReg + 8 * k, m.x[k]))
            && (forall id: CsrId | IsRestoredCsr(id) :: Holds(c, h, c.layout.csrReg + 8 * id, m.csr[id]))
            && (HypervisorOn(c, h) ==> forall id: CsrId | IsHypervisorCsr(id) :: Holds(c, h, c.layout.csrReg + 8 * id, m.csr[id]))
            && (FloatOn(c, h) ==> forall k: Reg :: Holds(c, h, c.layout.floatReg + 8 * k, m.f[k]))
            && (VectorOn(c, h) ==> forall k: Reg ::
                  Holds(c, h, c.layout.vectorReg + 16 * k, m.v[k].0) && Holds(c, h, c.layout.vectorReg + (16 * k + 8), m.v[k].1))
            && Holds(c, h, c.layout.mtimeCmp + 8 * h, s.mtimecmp[h])
            && (!MachineMode(c, h) ==> Holds(c, h, c.layout.csrReg + 8 * 0x341, s.procs[h].pc.at))
            && (MachineMode(c, h) && Jal.Reaches(c.core0 + 16 * h + 12, ImageWord(c, h, c.layout.pc)) ==>
                  Holds(c, h, c.layout.pc, s.procs[h].pc.at))
  {
    hide Reachable, ImageWord, MachineMode, HypervisorOn, VectorOn, FloatOn, Holds, IsRestoredCsr, IsHypervisorCsr, Jal.Reaches;
    FinishedHartIsRestored(c, s, h);
    ReadsArePlain(c, h);
  }

  lemma PcFromImage(c: Config, h: nat)
    requires c.Valid() && h < c.n
    ensures c.V(h).TargetPc() == ImageWord(c, h, c.layout.pc) && c.V(h).PatchPc() == c.core0 + 16 * h + 12
  {
    hide GetCoreMemlayout, Relocate, ImageWord, ExtCheck;
    LayoutOfHart(c, h);
    ReadsFirstWord(c, h, c.layout.pc);
  }

  /** No restore routine traps and no slot fetch goes astray, in any run. */
  lemma NoHartFaults(c: Config, s: State, h: nat)
    requires Reachable(c, s) && WF(c, s) && h < c.n
    ensures !s.procs[h].pc.Fault?
  {
    hide Reachable;
    InvReachable(c, s);
    assert LocalInv(c, s, h);
    NotFaulted(c.V(h), s.procs[h]);
  }

  // ---------- locks, counter, tickets ----------

  lemma MutualExclusion(c: Config, s: State, k: Kind, g: nat, h: nat)
    requires Reachable(c, s) && WF(c, s) && g < c.n && h < c.n && (k.HoldsConsole? || k.HoldsBarrier?)
    requires Is(c.core0, k, s.procs[g].pc) && Is(c.core0, k, s.procs[h].pc)
    ensures g == h
    ensures s.bss[if k.HoldsConsole? then c.printLock else c.restoreLock] == TWO64 - 1
  {
    hide Reachable;
    InvReachable(c, s);
    CountMember(c.core0, k, s.procs, g);
    if g < h {
      CountTwo(c.core0, k, s.procs, g, h);
    } else if h < g {
      CountTwo(c.core0, k, s.procs, h, g);
    }
  }

  /** No update of the counter is lost: once the gate is open it equals the number of harts past
  their `atomic_add`, and the values those harts compare are 1, 2, ..., one each. */
  lemma CounterCountsArrivals(c: Config, s: State)
    requires Reachable(c, s) && WF(c, s) && Open(s)
    ensures s.bss[c.counter] == Count(c.core0, Counted, s.procs) <= c.n
    ensures forall v :: 1 <= v <= s.bss[c.counter] ==> HasTicket(c, s, v)
    ensures forall g, h | 0 <= g < c.n && 0 <= h < c.n && Is(c.core0, Counted, s.procs[g].pc) && Is(c.core0, Counted, s.procs[h].pc)
              :: s.procs[g].ticket == s.procs[h].ticket ==> g == h
    ensures forall h :: 0 <= h < c.n && s.procs[h].pc.Compare? ==> s.bss[c.counter] == s.procs[h].ticket
  {
    hide Reachable;
    InvReachable(c, s);
    forall h | 0 <= h < c.n && s.procs[h].pc.Compare?
      ensures s.bss[c.counter] == s.procs[h].ticket
    {
      CountedFacts(c.core0, s.procs[h].pc);
    }
  }

  /** The arrival messages on the console read 1, 2, 3, ... whatever the interleaving. */
  lemma ArrivalsAreOrdered(c: Config, s: State, k: nat)
    requires Reachable(c, s) && WF(c, s) && k < |Arrivals(s.console)|
    ensures Arrivals(s.console)[k] == k + 1 <= c.n
  {
    hide Reachable;
    InvReachable(c, s);
  }

  // ---------- the bss gate ----------

  /** Until hart 0 opens the gate, a step of any other hart changes nothing; when it opens, every
  shared variable is zero; afterwards nobody clears again. */
  lemma GateProtectsBss(c: Config, s: State, h: nat, x: seq<Word>)
    requires Reachable(c, s) && WF(c, s) && h < c.n && RegFile(x)
    ensures !Open(s) && h != 0 ==> Next(c, s, h, x) == s
    ensures s.procs[0].pc.OpenGate? ==> forall w :: 0 <= w < c.bssWords ==> s.bss[w] == 0
    ensures Open(s) ==> Open(Next(c, s, h, x)) && !s.procs[h].pc.Clear? && s.bss[c.bssLock] == 1
  {
    hide Reachable, ExtCheck, GetCoreMemlayout, Jal.PatchWord, Jal.IsValidImm, Jal.Offset, RegWord, Signed32, RestoreStep, ExitStep, SlotStep, ProcInv;
    InvReachable(c, s);
    ProcStep(c, s, h, x);
    if Open(s) {
      MovesOne(c, s, Next(c, s, h, x), h);
      StaysOpen(c, s, Next(c, s, h, x), h);
    } else if h != 0 {
      assert s.procs[h := s.procs[h]] == s.procs;
      assert s.procs[h].pc.GateSpin?;
    }
  }

  // ---------- the barrier ----------

  /** The csr_reserve words of all harts hold the same number of CPUs. */
  predicate CommonCpus(c: Config, k: int) {
    forall h :: 0 <= h < c.n ==> Signed32(ImageWord(c, h, c.layout.csrReserve)) == k
  }

  lemma ReleasesAt(c: Config, k: int, h: nat, count: nat)
    requires CommonCpus(c, k) && h < c.n && count <= 128
    ensures c.Releases(h, count) <==> count == k || k == 0
  {
    hide GetCoreMemlayout, ImageWord;
    CpuCountFromImage(c, h);
    assert c.AllCpu(h) == k;
  }

  /** No hart is past the barrier, let alone finished, before k harts have counted themselves; and
  every hart that has counted itself has all its CSRs, floating-point and vector registers and its
  mtimecmp as in its image. */
  lemma BarrierHolds(c: Config, s: State, k: int, h: nat)
    requires Reachable(c, s) && WF(c, s) && CommonCpus(c, k) && k != 0
    requires h < c.n && Phase(c.core0, s.procs[h].pc) >= 26
    ensures 1 <= k <= Count(c.core0, Counted, s.procs) <= c.n
    ensures forall g :: 0 <= g < c.n && Is(c.core0, Counted, s.procs[g].pc) ==>
              StateMatches(c, g, s.procs[g].m) && s.mtimecmp[g] == ImageWord(c, g, c.layout.mtimeCmp + 8 * g)
  {
    hide Reachable, StateMatches, ImageWord;
    InvReachable(c, s);
    ReleasedByTicket(c, s, k, h);
    forall g | 0 <= g < c.n && Is(c.core0, Counted, s.procs[g].pc)
      ensures StateMatches(c, g, s.procs[g].m) && s.mtimecmp[g] == ImageWord(c, g, c.layout.mtimeCmp + 8 * g)
    {
      CountedIsRestored(c, s, g);
    }
  }

  lemma CountedIsRestored(c: Config, s: State, g: nat)
    requires Inv(c, s) && g < c.n && Is(c.core0, Counted, s.procs[g].pc)
    ensures StateMatches(c, g, s.procs[g].m) && s.mtimecmp[g] == ImageWord(c, g, c.layout.mtimeCmp + 8 * g)
  {
    hide StateRestored, StateMatches, GetCoreMemlayout, ExtCheck, SlotRegs, ResumePc, RegWord, IntsRestored, ImageWord,
         GateInv, LockInv, TicketInv, ReleaseInv, LogInv, SlotsInv;
    assert LocalInv(c, s, g);
    StateFromImage(c, g, s.procs[g].m);
    MtimeCmpFromImage(c, g);
  }

  lemma ReleasedByTicket(c: Config, s: State, k: int, h: nat)
    requires Inv(c, s) && CommonCpus(c, k) && k != 0 && h < c.n && Phase(c.core0, s.procs[h].pc) >= 26
    ensures Open(s) && 1 <= k <= s.bss[c.counter] == Count(c.core0, Counted, s.procs)
  {
    hide LocalInv, SlotsInv, LogInv, GetCoreMemlayout, Signed32, CommonCpus;
    assert Is(c.core0, Counted, s.procs[h].pc);
    CountMember(c.core0, Counted, s.procs, h);
    assert HasReleaser(c, s);
    var g :| 0 <= g < c.n && Phase(c.core0, s.procs[g].pc) >= 26 && c.Releases(g, s.procs[g].ticket) && 1 <= s.procs[g].ticket;
    assert Is(c.core0, Counted, s.procs[g].pc);
    ReleasesAt(c, k, g, s.procs[g].ticket);
  }

  /** A hart that takes the releasing branch is the k-th to arrive, and it finds the flag still clear:
  in a whole run the flag is set, and MTIME written, at most once. */
  lemma OneReleaser(c: Config, s: State, k: int, h: nat)
    requires Reachable(c, s) && WF(c, s) && CommonCpus(c, k) && k != 0 && h < c.n
    ensures s.procs[h].pc.UnlockGo? || s.procs[h].pc.SetRelease? || s.procs[h].pc.RestoreMtime? ==> s.procs[h].ticket == k
    ensures s.procs[h].pc.UnlockGo? || s.procs[h].pc.SetRelease? ==> s.bss[c.release] == 0
    ensures forall g | 0 <= g < c.n && Is(c.core0, Counted, s.procs[g].pc) && Is(c.core0, Counted, s.procs[h].pc)
              :: s.procs[g].ticket == k == s.procs[h].ticket ==> g == h
    ensures Open(s) && 1 <= k <= s.bss[c.counter] ==> HasTicket(c, s, k)
  {
    hide Reachable, LocalInv, SlotsInv, LogInv, GetCoreMemlayout, Signed32, CommonCpus;
    InvReachable(c, s);
    var p := s.procs[h];
    CountedFacts(c.core0, p.pc);
    if p.pc.UnlockGo? || p.pc.SetRelease? || p.pc.RestoreMtime? {
      CountMember(c.core0, Counted, s.procs, h);
      ReleasesAt(c, k, h, p.ticket);
      if s.bss[c.release] == 1 {
        var g :| 0 <= g < c.n && Phase(c.core0, s.procs[g].pc) >= 26 && c.Releases(g, s.procs[g].ticket);
        CountedFacts(c.core0, s.procs[g].pc);
        ReleasesAt(c, k, g, s.procs[g].ticket);
      }
    }
  }

  /** Once the flag is set it stays set, for every continuation of every run: late arrivals pass too. */
  lemma {:induction false} LatchStaysOpen(c: Config, s: State, choices: seq<Choice>)
    requires Inv(c, s) && Open(s) && s.bss[c.release] == 1 && Schedule(c, choices)
    ensures Open(After(c, s, choices)) && After(c, s, choices).bss[c.release] == 1
    decreases |choices|
  {
    hide Next, GateInv, LockInv, TicketInv, ReleaseInv, LogInv, SlotsInv, LocalInv;
    if choices != [] {
      var k := |choices| - 1;
      LatchStaysOpen(c, s, choices[..k]);
      InvAfter(c, s, choices[..k]);
      LatchStep(c, After(c, s, choices[..k]), choices[k].hart, choices[k].x);
    }
  }

  lemma LatchStep(c: Config, s: State, h: nat, x: seq<Word>)
    requires Inv(c, s) && Open(s) && s.bss[c.release] == 1 && h < c.n && RegFile(x)
    ensures Open(Next(c, s, h, x)) && Next(c, s, h, x).bss[c.release] == 1
  {
    hide Next, LockInv, TicketInv, ReleaseInv, LogInv, SlotsInv, LocalInv, SharedStep, QuietMove, ProcInv;
    var t := Next(c, s, h, x);
    ProcStep(c, s, h, x);
    MovesOne(c, s, t, h);
    StaysOpen(c, s, t, h);
    WordEffects(c, s, t, h);
  }

  // ---------- the timer ----------

  /** MTIME is written by the releasing branch only; a hart leaves the barrier through that write, or
  through the waiting loop. */
  lemma MtimeEffects(c: Config, s: State, t: State, h: nat)
    requires WF(c, s) && WF(c, t) && h < c.n && Moves(c, s, t, h)
    ensures t.mtime == if s.procs[h].pc.RestoreMtime? then ImageWord(c, h, c.layout.mtime) else s.mtime
    ensures Phase(c.core0, t.procs[h].pc) >= 27 ==>
              s.procs[h].pc.RestoreMtime? || s.procs[h].pc.WaitRelease? || Phase(c.core0, s.procs[h].pc) >= 27
    ensures Phase(c.core0, s.procs[h].pc) >= 24 ==> t.procs[h].ticket == s.procs[h].ticket
  {
    hide Written, ExtCheck, GetCoreMemlayout, Jal.PatchWord, Jal.IsValidImm, Jal.Offset, RegWord, Signed32, Wrap64, ImageWord;
    MtimeFromImage(c, h);
  }

  /** Once the k-th hart to arrive is past its restore, MTIME is its checkpoint word. */
  predicate MtimeRestored(c: Config, s: State, k: int)
    requires WF(c, s)
  {
    forall h :: 0 <= h < c.n && Phase(c.core0, s.procs[h].pc) >= 27 && s.procs[h].ticket == k ==>
                  s.mtime == ImageWord(c, h, c.layout.mtime)
  }

  lemma MtimeStep(c: Config, s: State, k: int, h: nat, x: seq<Word>)
    requires Inv(c, s) && CommonCpus(c, k) && k != 0 && MtimeRestored(c, s, k) && h < c.n && RegFile(x)
    ensures MtimeRestored(c, Next(c, s, h, x), k)
  {
    hide Next, GateInv, LockInv, LogInv, SlotsInv, LocalInv, SharedStep, QuietMove, ProcInv, GetCoreMemlayout, Signed32, CommonCpus, Phase, Is, ImageWord;
    var t := Next(c, s, h, x);
    ProcStep(c, s, h, x);
    MovesOne(c, s, t, h);
    MtimeEffects(c, s, t, h);
    forall g | 0 <= g < c.n && Phase(c.core0, t.procs[g].pc) >= 27 && t.procs[g].ticket == k
      ensures t.mtime == ImageWord(c, g, c.layout.mtime)
    {
      CountedFacts(c.core0, s.procs[g].pc);
      CountedFacts(c.core0, s.procs[h].pc);
      CounterBelow(c, s);
      if s.procs[h].pc.RestoreMtime? || s.procs[h].pc.WaitRelease? {
        ReleasesAt(c, k, h, s.procs[h].ticket);
      }
    }
  }

  lemma CounterBelow(c: Config, s: State)
    requires Inv(c, s)
    ensures forall h :: 0 <= h < c.n && Is(c.core0, Counted, s.procs[h].pc) ==> s.procs[h].ticket <= 128
  {
    hide GateInv, ReleaseInv, LogInv, SlotsInv, LocalInv;
    forall h | 0 <= h < c.n && Is(c.core0, Counted, s.procs[h].pc)
      ensures s.procs[h].ticket <= 128
    {
      CountMember(c.core0, Counted, s.procs, h);
    }
  }

  lemma {:induction false} MtimeAfter(c: Config, s0: State, k: int, choices: seq<Choice>)
    requires Init(c, s0) && CommonCpus(c, k) && k != 0 && Schedule(c, choices)
    ensures MtimeRestored(c, After(c, s0, choices), k)
    decreases |choices|
  {
    hide Next, CommonCpus, Inv;
    InitEstablishes(c, s0);
    if choices != [] {
      var n := |choices| - 1;
      MtimeAfter(c, s0, k, choices[..n]);
      InvAfter(c, s0, choices[..n]);
      MtimeStep(c, After(c, s0, choices[..n]), k, choices[n].hart, choices[n].x);
    }
  }

  /** In every run, from the moment the releasing hart has restored it, MTIME holds that hart's
  checkpoint word and nobody writes it again. */
  lemma ReleaserRestoresMtime(c: Config, s: State, k: int)
    requires Reachable(c, s) && WF(c, s) && CommonCpus(c, k) && k != 0
    ensures MtimeRestored(c, s, k)
  {
    hide CommonCpus, MtimeRestored;
    var s0, choices :| Init(c, s0) && Schedule(c, choices) && s == After(c, s0, choices);
    MtimeAfter(c, s0, k, choices);
  }
}
