/** Deadlock freedom of the restore protocol: some hart can always make progress, progress is
bounded by a measure, and all harts can finish exactly when the common CPU count allows it. */
module Progress {
  import opened Words
  import opened Options
  import opened Machine
  import opened RestorePrograms
  import opened DecodeRestore
  import opened Protocol
  import opened ProtocolInvariant
  import opened ProtocolSteps
  import opened RestoreTheorems
  import Jal

  /** Hart h would only re-read a word that has not changed. */
  predicate Spins(c: Config, s: State, h: nat)
    requires WF(c, s) && h < c.n
  {
    match s.procs[h].pc
    case GateSpin => s.bss[c.bssLock] == 0
    case Spin(l) => s.bss[LockVar(c, l)] != 0
    case WaitRelease => s.bss[c.release] != 1
    case _ => false
  }

  predicate Finished(s: State, h: nat)
    requires h < |s.procs|
  {
    s.procs[h].pc.Done?
  }

  predicate Productive(c: Config, s: State, h: nat)
    requires WF(c, s) && h < c.n
  {
    !Spins(c, s, h) && !Finished(s, h) && !s.procs[h].pc.Fault?
  }

  // ---------- the measure ----------

  /** Phases left over all harts. */
  function PhasesLeft(core0: Word, procs: seq<Proc>): nat {
    if procs == [] then 0
    else PhasesLeft(core0, procs[..|procs| - 1]) + (LAST_PHASE - Phase(core0, procs[|procs| - 1].pc))
  }

  lemma {:induction false} PhasesUpdate(core0: Word, procs: seq<Proc>, h: nat, q: Proc)
    requires h < |procs|
    ensures PhasesLeft(core0, procs[h := q]) == PhasesLeft(core0, procs) + Phase(core0, procs[h].pc) - Phase(core0, q.pc)
    decreases |procs|
  {
    hide Phase;
    var last := |procs| - 1;
    if h == last {
      assert procs[h := q][..last] == procs[..last];
    } else {
      assert procs[h := q][..last] == procs[..last][h := q];
      PhasesUpdate(core0, procs[..last], h, q);
    }
  }

  lemma {:induction false} PhasesBound(core0: Word, procs: seq<Proc>)
    ensures PhasesLeft(core0, procs) <= LAST_PHASE * |procs|
  {
    if procs != [] {
      PhasesBound(core0, procs[..|procs| - 1]);
    }
  }

  /** About to move within a lock without getting it or giving it up: ready to swap although the lock is
  held, or about to read it although it is free. */
  predicate Poised(pc: Pc, consoleHeld: bool, barrierHeld: bool) {
    || (pc.Try? && if pc.lock == Barrier then barrierHeld else consoleHeld)
    || (pc.Spin? && !if pc.lock == Barrier then barrierHeld else consoleHeld)
  }

  function PoisedCount(procs: seq<Proc>, consoleHeld: bool, barrierHeld: bool): (r: nat)
    ensures r <= |procs|
  {
    if procs == [] then 0
    else PoisedCount(procs[..|procs| - 1], consoleHeld, barrierHeld)
         + if Poised(procs[|procs| - 1].pc, consoleHeld, barrierHeld) then 1 else 0
  }

  lemma {:induction false} PoisedUpdate(procs: seq<Proc>, h: nat, q: Proc, consoleHeld: bool, barrierHeld: bool)
    requires h < |procs|
    ensures PoisedCount(procs[h := q], consoleHeld, barrierHeld) ==
            PoisedCount(procs, consoleHeld, barrierHeld)
            - (if Poised(procs[h].pc, consoleHeld, barrierHeld) then 1 else 0)
            + if Poised(q.pc, consoleHeld, barrierHeld) then 1 else 0
    decreases |procs|
  {
    var last := |procs| - 1;
    if h == last {
      assert procs[h := q][..last] == procs[..last];
    } else {
      assert procs[h := q][..last] == procs[..last][h := q];
      PoisedUpdate(procs[..last], h, q, consoleHeld, barrierHeld);
    }
  }

  /** Major steps left: phases of all harts and bytes of bss still to clear. */
  function Major(c: Config, s: State): int
    requires WF(c, s)
  {
    PhasesLeft(c.core0, s.procs) + 8 * c.bssWords - s.cleared
  }

  function Minor(c: Config, s: State): nat
    requires WF(c, s)
  {
    PoisedCount(s.procs, s.bss[c.printLock] != 0, s.bss[c.restoreLock] != 0)
  }

  /** Lexicographic in major steps and poised harts, as one number: at most n harts are poised. */
  function Measure(c: Config, s: State): int
    requires WF(c, s)
  {
    Major(c, s) * (c.n + 1) + Minor(c, s)
  }

  lemma MeasureNonNegative(c: Config, s: State)
    requires WF(c, s) && GateInv(c, s)
    ensures Measure(c, s) >= 0 && Major(c, s) >= 0
  {
    hide PhasesLeft, PoisedCount;
    NonNegative(Major(c, s), c.n + 1);
  }

  lemma MajorDominates(a: int, b: int, i: int, j: int, n: int)
    requires a < b && 0 <= i <= n && 0 <= j
    ensures a * (n + 1) + i < b * (n + 1) + j
  {
    assert b * (n + 1) == a * (n + 1) + (b - a) * (n + 1);
    assert (b - a) * (n + 1) == (b - a - 1) * (n + 1) + (n + 1);
    NonNegative(b - a - 1, n + 1);
  }

  // ---------- every productive step decreases it ----------

  /** A productive step clears a byte, moves its hart to a later phase, or moves it between the
  two steps of a lock it is poised at while nothing else changes. */
  predicate Advances(c: Config, s: State, t: State, h: nat)
    requires WF(c, s) && WF(c, t) && h < c.n
  {
    var p, q := s.procs[h].pc, t.procs[h].pc;
    if p.Clear? && q.Clear? then t.cleared == s.cleared + 1
    else
      && t.cleared == s.cleared
      && (Phase(c.core0, p) < Phase(c.core0, q)
          || (Phase(c.core0, p) == Phase(c.core0, q)
              && Poised(p, s.bss[c.printLock] != 0, s.bss[c.restoreLock] != 0)
              && !Poised(q, s.bss[c.printLock] != 0, s.bss[c.restoreLock] != 0)
              && (t.bss[c.printLock] != 0 <==> s.bss[c.printLock] != 0)
              && (t.bss[c.restoreLock] != 0 <==> s.bss[c.restoreLock] != 0)))
  }

  lemma MachineAdvances(c: Config, s: State, t: State, h: nat)
    requires WF(c, s) && WF(c, t) && h < c.n && Moves(c, s, t, h) && RunsMachineCode(s.procs[h].pc)
    ensures Advances(c, s, t, h)
  {
    hide SharedStep, Poised;
  }

  lemma SharedAdvances(c: Config, s: State, t: State, h: nat)
    requires WF(c, s) && WF(c, t) && h < c.n && Moves(c, s, t, h) && !RunsMachineCode(s.procs[h].pc)
    requires Productive(c, s, h)
    ensures Advances(c, s, t, h)
  {
    hide ExtCheck, GetCoreMemlayout, Jal.PatchWord, Jal.IsValidImm, Jal.Offset, RegWord, Signed32, Wrap64, ClearByte;
    if !s.procs[h].pc.Clear? {
      WordEffects(c, s, t, h);
    }
  }

  lemma AdvanceDecreases(c: Config, s: State, t: State, h: nat)
    requires WF(c, s) && WF(c, t) && h < c.n && t.procs == s.procs[h := t.procs[h]] && Advances(c, s, t, h)
    ensures Measure(c, t) < Measure(c, s)
  {
    hide Poised, PhasesLeft, PoisedCount, Phase;
    PhasesUpdate(c.core0, s.procs, h, t.procs[h]);
    var a, b := s.bss[c.printLock] != 0, s.bss[c.restoreLock] != 0;
    PoisedUpdate(s.procs, h, t.procs[h], a, b);
    if Major(c, t) < Major(c, s) {
      MajorDominates(Major(c, t), Major(c, s), Minor(c, t), Minor(c, s), c.n);
    } else {
      assert Major(c, t) == Major(c, s) && Minor(c, t) == Minor(c, s) - 1;
    }
  }

  /** Whatever the hart and the state, a step that is not a mere re-read decreases the measure, and a
  re-read leaves the state alone. */
  lemma ProductiveDecreases(c: Config, s: State, h: nat, x: seq<Word>)
    requires Inv(c, s) && h < c.n && RegFile(x)
    ensures Productive(c, s, h) ==> Measure(c, Next(c, s, h, x)) < Measure(c, s)
    ensures !Productive(c, s, h) ==> Next(c, s, h, x) == s
  {
    hide LockInv, TicketInv, ReleaseInv, LogInv, SlotsInv, ProcInv, Measure, QuietMove, Phase, RestoreStep, ExitStep, SlotStep,
         ExtCheck, GetCoreMemlayout, Jal.PatchWord, Jal.IsValidImm, Jal.Offset, Signed32, Wrap64;
    var t := Next(c, s, h, x);
    ProcStep(c, s, h, x);
    MovesOne(c, s, t, h);
    if Productive(c, s, h) {
      if RunsMachineCode(s.procs[h].pc) {
        MachineAdvances(c, s, t, h);
      } else {
        SharedAdvances(c, s, t, h);
      }
      AdvanceDecreases(c, s, t, h);
    } else {
      assert s.procs[h := s.procs[h]] == s.procs;
    }
  }

  /** The productive choices of a schedule. */
  function ProductiveSteps(c: Config, s: State, choices: seq<Choice>): nat
    requires WF(c, s) && Schedule(c, choices)
    decreases |choices|
  {
    if choices == [] then 0
    else
      var k := |choices| - 1;
      ProductiveSteps(c, s, choices[..k])
      + if Productive(c, After(c, s, choices[..k]), choices[k].hart) then 1 else 0
  }

  /** A bound on every run: however long the schedule, it makes no more productive steps than the
  measure of its first state. */
  lemma {:induction false} BoundedProgress(c: Config, s: State, choices: seq<Choice>)
    requires Inv(c, s) && Schedule(c, choices)
    ensures ProductiveSteps(c, s, choices) + Measure(c, After(c, s, choices)) <= Measure(c, s)
    ensures ProductiveSteps(c, s, choices) <= Measure(c, s)
    decreases |choices|
  {
    hide Next, GateInv, LockInv, TicketInv, ReleaseInv, LogInv, SlotsInv, LocalInv, Measure, Productive;
    if choices != [] {
      var k := |choices| - 1;
      BoundedProgress(c, s, choices[..k]);
      InvAfter(c, s, choices[..k]);
      ProductiveDecreases(c, After(c, s, choices[..k]), choices[k].hart, choices[k].x);
    }
    InvAfter(c, s, choices);
    MeasureNonNegative(c, After(c, s, choices));
  }

  /** From power-on: 32 phases per hart and one step per byte of bss, times n + 1. */
  lemma BoundedFromPowerOn(c: Config, s0: State, choices: seq<Choice>)
    requires Init(c, s0) && Schedule(c, choices)
    ensures ProductiveSteps(c, s0, choices) < (32 * c.n + 8 * c.bssWords + 1) * (c.n + 1)
  {
    hide Next, After, ProductiveSteps, PhasesLeft, PoisedCount, LocalInv;
    InitEstablishes(c, s0);
    BoundedProgress(c, s0, choices);
    PhasesBound(c.core0, s0.procs);
    MajorDominates(Major(c, s0), 32 * c.n + 8 * c.bssWords + 1, Minor(c, s0), 0, c.n);
  }

  // ---------- somebody can always move ----------

  /** Only waiting for the flag is left to everybody who has not finished. */
  predicate AllWait(c: Config, s: State)
    requires WF(c, s)
  {
    forall h :: 0 <= h < c.n ==> s.procs[h].pc.WaitRelease? || Finished(s, h)
  }

  lemma HolderMoves(c: Config, s: State, k: Kind) returns (g: nat)
    requires Inv(c, s) && Count(c.core0, k, s.procs) > 0 && (k.HoldsConsole? || k.HoldsBarrier?)
    requires k.HoldsBarrier? ==> s.bss[c.printLock] == 0
    ensures g < c.n && Productive(c, s, g)
  {
    hide GateInv, LockInv, TicketInv, ReleaseInv, LogInv, SlotsInv, ProcInv;
    g := CountFind(c.core0, k, s.procs);
    HolderIsProductive(c, s, k, g);
  }

  lemma HolderIsProductive(c: Config, s: State, k: Kind, g: nat)
    requires WF(c, s) && g < c.n && Is(c.core0, k, s.procs[g].pc) && (k.HoldsConsole? || k.HoldsBarrier?)
    requires k.HoldsBarrier? ==> s.bss[c.printLock] == 0
    ensures Productive(c, s, g)
  {
  }

  /** With free locks and an open gate, whoever cannot move is waiting for the flag. */
  lemma StuckMeansWaiting(c: Config, s: State)
    requires Inv(c, s) && Open(s)
    requires s.bss[c.printLock] == 0 && s.bss[c.restoreLock] == 0
    requires forall h :: 0 <= h < c.n ==> !Productive(c, s, h)
    ensures AllWait(c, s)
    ensures (exists h :: 0 <= h < c.n && s.procs[h].pc.WaitRelease?) ==> s.bss[c.release] != 1
  {
    hide LockInv, TicketInv, ReleaseInv, LogInv, SlotsInv, ProcInv;
    forall h | 0 <= h < c.n
      ensures s.procs[h].pc.WaitRelease? || Finished(s, h)
    {
      assert !Productive(c, s, h);
      assert LocalInv(c, s, h);
      NotFaulted(c.V(h), s.procs[h]);
    }
    forall h | 0 <= h < c.n && s.procs[h].pc.WaitRelease?
      ensures s.bss[c.release] != 1
    {
      assert !Productive(c, s, h);
    }
  }

  lemma {:induction false} AllCounted(core0: Word, procs: seq<Proc>)
    requires forall g :: 0 <= g < |procs| ==> Is(core0, Counted, procs[g].pc)
    ensures Count(core0, Counted, procs) == |procs|
  {
    if procs != [] {
      AllCounted(core0, procs[..|procs| - 1]);
    }
  }

  /** If everybody has arrived the flag is set: some hart drew the k-th ticket and did not wait. */
  lemma AllArrivedMeansReleased(c: Config, s: State, k: int)
    requires Inv(c, s) && Open(s) && CommonCpus(c, k) && 0 <= k <= c.n && AllWait(c, s)
    ensures s.bss[c.release] == 1
  {
    hide LogInv, SlotsInv, LocalInv, GetCoreMemlayout, Signed32, CommonCpus, LockInv, HasTicket, ReleaseInv;
    EverybodyCounted(c, s);
    var g := if k == 0 then 0 else TicketHolder(c, s, k);
    ReleasesAt(c, k, g, s.procs[g].ticket);
    ReleaserPassed(c, s, g);
  }

  lemma EverybodyCounted(c: Config, s: State)
    requires Inv(c, s) && Open(s) && AllWait(c, s)
    ensures s.bss[c.counter] == c.n
    ensures forall h :: 0 <= h < c.n ==> 1 <= s.procs[h].ticket <= c.n
  {
    hide LogInv, SlotsInv, LocalInv, ReleaseInv, HasTicket;
    AllCounted(c.core0, s.procs);
    forall h | 0 <= h < c.n
      ensures Is(c.core0, Counted, s.procs[h].pc)
    {
    }
  }

  ghost function TicketHolder(c: Config, s: State, k: nat): (g: nat)
    requires WF(c, s) && HasTicket(c, s, k)
    ensures g < c.n && s.procs[g].ticket == k && Is(c.core0, Counted, s.procs[g].pc)
  {
    var g :| 0 <= g < c.n && Is(c.core0, Counted, s.procs[g].pc) && s.procs[g].ticket == k;
    g
  }

  /** A hart whose ticket releases does not wait; at this point it is past the barrier. */
  lemma ReleaserPassed(c: Config, s: State, g: nat)
    requires Inv(c, s) && AllWait(c, s) && g < c.n && c.Releases(g, s.procs[g].ticket)
    ensures s.bss[c.release] == 1
  {
    hide LogInv, SlotsInv, LocalInv, LockInv, TicketInv, GateInv, GetCoreMemlayout, Signed32;
    assert Phase(c.core0, s.procs[g].pc) >= 26;
  }

  /** Deadlock freedom: as long as some hart is unfinished, some hart can make a productive step. */
  lemma SomebodyMoves(c: Config, s: State, k: int) returns (g: nat)
    requires Inv(c, s) && CommonCpus(c, k) && 0 <= k <= c.n
    requires exists h :: 0 <= h < c.n && !Finished(s, h)
    ensures g < c.n && Productive(c, s, g)
  {
    hide TicketInv, ReleaseInv, LogInv, SlotsInv, ProcInv, CommonCpus;
    g :| 0 <= g < c.n && !Finished(s, g);
    if !Open(s) {
      g := 0;
    } else if s.bss[c.printLock] != 0 {
      g := HolderMoves(c, s, HoldsConsole);
    } else if s.bss[c.restoreLock] != 0 {
      g := HolderMoves(c, s, HoldsBarrier);
    } else if exists h :: 0 <= h < c.n && Productive(c, s, h) {
      g :| g < c.n && Productive(c, s, g);
    } else {
      StuckMeansWaiting(c, s);
      AllArrivedMeansReleased(c, s, k);
      assert false;
    }
  }

  // ---------- finishing ----------

  predicate AllFinished(c: Config, s: State)
    requires WF(c, s)
  {
    forall h :: 0 <= h < c.n ==> Finished(s, h)
  }

  const ANY_REGISTERS: seq<Word> := seq(32, _ => 0)

  lemma AfterAppend(c: Config, s: State, choices: seq<Choice>, last: Choice)
    requires WF(c, s) && Schedule(c, choices) && last.hart < c.n && RegFile(last.x)
    ensures Schedule(c, choices + [last])
    ensures After(c, s, choices + [last]) == Next(c, After(c, s, choices), last.hart, last.x)
  {
    hide Next;
    assert (choices + [last])[..|choices|] == choices;
  }

  /** From every state of every run there is a continuation in which all harts finish. */
  lemma {:induction false} CanFinish(c: Config, s: State, choices: seq<Choice>, k: int) returns (all: seq<Choice>)
    requires WF(c, s) && Schedule(c, choices) && Inv(c, After(c, s, choices)) && CommonCpus(c, k) && 0 <= k <= c.n
    ensures Schedule(c, all) && choices <= all && AllFinished(c, After(c, s, all))
    decreases Measure(c, After(c, s, choices))
  {
    hide Next, After, GateInv, LockInv, TicketInv, ReleaseInv, LogInv, SlotsInv, LocalInv, Measure, Productive, CommonCpus;
    var t := After(c, s, choices);
    if AllFinished(c, t) {
      all := choices;
    } else {
      var h := SomebodyMoves(c, t, k);
      var last := Choice(h, ANY_REGISTERS);
      ProductiveDecreases(c, t, h, ANY_REGISTERS);
      InvStep(c, t, h, ANY_REGISTERS);
      AfterAppend(c, s, choices, last);
      MeasureNonNegative(c, t);
      MeasureNonNegative(c, After(c, s, choices + [last]));
      all := CanFinish(c, s, choices + [last], k);
    }
  }

  /** With a common CPU count k, the harts can all finish if and only if k is zero or at most the
  number of harts; otherwise no hart of any run ever finishes. */
  lemma FinishesExactlyWhen(c: Config, s0: State, k: int)
    requires Init(c, s0) && CommonCpus(c, k)
    ensures (exists choices :: Schedule(c, choices) && AllFinished(c, After(c, s0, choices))) <==> 0 <= k <= c.n
  {
    hide After, CommonCpus, Next;
    InitEstablishes(c, s0);
    if 0 <= k <= c.n {
      assert After(c, s0, []) == s0 by {
        AfterNone(c, s0);
      }
      var all := CanFinish(c, s0, [], k);
    } else {
      forall choices | Schedule(c, choices)
        ensures !AllFinished(c, After(c, s0, choices))
      {
        InvAfter(c, s0, choices);
        NobodyFinishes(c, After(c, s0, choices), k, 0);
      }
    }
  }

  lemma AfterNone(c: Config, s: State)
    requires WF(c, s)
    ensures After(c, s, []) == s
  {
  }

  lemma NobodyFinishes(c: Config, s: State, k: int, h: nat)
    requires Inv(c, s) && CommonCpus(c, k) && !(0 <= k <= c.n) && h < c.n
    ensures !Finished(s, h)
  {
    hide CommonCpus, LocalInv, SlotsInv;
    if Finished(s, h) {
      ReleasedByTicket(c, s, k, h);
    }
  }
}
