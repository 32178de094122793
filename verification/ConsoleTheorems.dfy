/** Who has printed what: the messages each hart sends through `mt_printf` in any run. */
module ConsoleTheorems {
  import opened Words
  import opened Options
  import opened Machine
  import opened RestorePrograms
  import opened DecodeRestore
  import opened Protocol
  import opened Image
  import opened ProtocolInvariant
  import opened ProtocolSteps
  import opened RestoreTheorems
  import Jal

  /** The checkpoint was taken in machine mode, and the distance from the last word of the hart's slot
  to the checkpointed pc, cut to 32 bits, is out of range for a JAL. */
  predicate JumpTooFar(c: Config, h: nat) {
    && MachineMode(c, h)
    && !(-0x10_0000 <= Signed32(ImageWord(c, h, c.layout.pc) - (c.core0 + 16 * h + 12)) < 0x10_0000)
  }

  predicate Logged(console: seq<Message>, h: nat, site: Site) {
    exists i :: 0 <= i < |console| && console[i].hart == h && console[i].site == site
  }

  /** Past the place where the message is printed. */
  predicate Said(core0: Word, site: Site, pc: Pc) {
    Phase(core0, pc) >= LockPhase(Console(site)) + 2
  }

  /** About to print, printing, or just past the bad-offset message. */
  predicate Complains(core0: Word, pc: Pc) {
    7 <= Phase(core0, pc) <= 10
  }

  /** Each hart has printed each message exactly if it is past it, the bad-offset message only if its
  jump is too far. */
  predicate MessagesMatch(c: Config, s: State)
    requires WF(c, s)
  {
    && (forall h, site | 0 <= h < c.n ::
          Logged(s.console, h, site) <==> Said(c.core0, site, s.procs[h].pc) && (site == BadImm ==> JumpTooFar(c, h)))
    && forall h :: 0 <= h < c.n && Complains(c.core0, s.procs[h].pc) ==> JumpTooFar(c, h)
  }

  lemma RangeFromImage(c: Config, h: nat)
    requires c.Valid() && h < c.n
    ensures JumpTooFar(c, h) <==> c.V(h).caps.jump && !Jal.IsValidImm(Jal.Offset(c.V(h).PatchPc(), c.V(h).TargetPc()))
  {
    hide GetCoreMemlayout, ImageWord, ExtCheck, MachineMode, Signed32, Wrap32, HypervisorOn, VectorOn, FloatOn;
    CapsFromImage(c, h);
    PcFromImage(c, h);
    SignedOfWrapped(ImageWord(c, h, c.layout.pc) - (c.core0 + 16 * h + 12));
  }

  lemma SignedOfWrapped(i: int)
    ensures Signed32(Wrap32(i)) == Signed32(i)
  {
  }

  /** How a move of hart h from p to q relates to a message. */
  predicate MessageMove(c: Config, h: nat, site: Site, p: Pc, q: Pc) {
    && (Said(c.core0, site, p) ==> Said(c.core0, site, q))
    && (Said(c.core0, site, q) ==> Said(c.core0, site, p) || p == Print(site) || (site == BadImm && !JumpTooFar(c, h)))
    && (p == Print(site) ==> Said(c.core0, site, q) && (site == BadImm ==> Complains(c.core0, p)))
    && (Complains(c.core0, q) ==> Complains(c.core0, p) || JumpTooFar(c, h))
  }

  lemma SharedMessages(c: Config, s: State, h: nat, site: Site)
    requires WF(c, s) && h < c.n && !RunsMachineCode(s.procs[h].pc)
    requires s.procs[h].pc.CheckOffset? ==> c.V(h).caps.jump
    ensures MessageMove(c, h, site, s.procs[h].pc, NextPc(c, s, h))
  {
    hide ExtCheck, GetCoreMemlayout, Jal.IsValidImm, Jal.Offset, Signed32, Wrap64, JumpTooFar, ImageWord;
    var p, q := s.procs[h].pc, NextPc(c, s, h);
    if p.Decode? || p.CheckOffset? {
      RangeFromImage(c, h);
      hide NextPc;
      DecisionMessages(c, h, site, p, q);
    }
  }

  lemma DecisionMessages(c: Config, h: nat, site: Site, p: Pc, q: Pc)
    requires p.Decode? || p.CheckOffset?
    requires JumpTooFar(c, h) ==> q == CheckOffset || q == Spin(Console(BadImm))
    requires q == CheckOffset || q == RestoreH || q == Patch || (q == Spin(Console(BadImm)) && JumpTooFar(c, h))
    ensures MessageMove(c, h, site, p, q)
  {
    hide JumpTooFar;
  }

  lemma MessageMoves(c: Config, s: State, t: State, h: nat, site: Site)
    requires WF(c, s) && WF(c, t) && h < c.n && Moves(c, s, t, h)
    requires s.procs[h].pc.CheckOffset? ==> c.V(h).caps.jump
    ensures MessageMove(c, h, site, s.procs[h].pc, t.procs[h].pc)
  {
    hide SharedStep, NextPc, JumpTooFar, ExtCheck, GetCoreMemlayout;
    if !RunsMachineCode(s.procs[h].pc) {
      SharedMove(c, s, h);
      SharedMessages(c, s, h, site);
    }
  }

  lemma LogGrows(console: seq<Message>, m: Message, h: nat, site: Site)
    ensures Logged(console + [m], h, site) <==> Logged(console, h, site) || (m.hart == h && m.site == site)
  {
    var longer := console + [m];
    if Logged(console, h, site) {
      var i :| 0 <= i < |console| && console[i].hart == h && console[i].site == site;
      assert longer[i] == console[i];
    }
    assert longer[|console|] == m;
  }

  lemma MessagesStep(c: Config, s: State, h: nat, x: seq<Word>)
    requires Inv(c, s) && h < c.n && RegFile(x) && MessagesMatch(c, s)
    ensures MessagesMatch(c, Next(c, s, h, x))
  {
    hide Next, GateInv, LockInv, TicketInv, ReleaseInv, LogInv, SlotsInv, SharedStep, QuietMove, StateRestored, JumpTooFar, Said, Complains, Logged,
         SlotRegs, ResumePc, IntsRestored, ExtCheck, GetCoreMemlayout;
    var t := Next(c, s, h, x);
    ProcStep(c, s, h, x);
    MovesOne(c, s, t, h);
    ConsoleEffects(c, s, t, h);
    assert LocalInv(c, s, h);
    forall g, site | 0 <= g < c.n
      ensures Logged(t.console, g, site) <==> Said(c.core0, site, t.procs[g].pc) && (site == BadImm ==> JumpTooFar(c, g))
    {
      MessageMoves(c, s, t, h, site);
      LogGrows(s.console, Message(h, if s.procs[h].pc.Print? then s.procs[h].pc.site else Hello, s.procs[h].arg), g, site);
    }
    MessageMoves(c, s, t, h, Hello);
  }

  lemma {:induction false} MessagesAfter(c: Config, s0: State, choices: seq<Choice>)
    requires Init(c, s0) && Schedule(c, choices)
    ensures MessagesMatch(c, After(c, s0, choices))
    decreases |choices|
  {
    hide Next, Inv, JumpTooFar;
    InitEstablishes(c, s0);
    if choices != [] {
      var n := |choices| - 1;
      MessagesAfter(c, s0, choices[..n]);
      InvAfter(c, s0, choices[..n]);
      MessagesStep(c, After(c, s0, choices[..n]), choices[n].hart, choices[n].x);
    }
  }

  lemma PhaseOfEnds(core0: Word, pc: Pc)
    ensures pc.Done? ==> Phase(core0, pc) == 32
    ensures pc.Signal? ==> Phase(core0, pc) == 10
  {
  }

  /** In every run, a hart reports a bad offset, and signals it, exactly if its checkpoint is a
  machine-mode one whose truncated jump distance is out of range; every hart greets before anything
  else, and every hart past the message has announced its arrival. */
  lemma HartsReportExactlyWhen(c: Config, s: State, h: nat)
    requires Reachable(c, s) && WF(c, s) && h < c.n
    ensures Logged(s.console, h, Hello) <==> Phase(c.core0, s.procs[h].pc) >= 4
    ensures Logged(s.console, h, BadImm) <==> Phase(c.core0, s.procs[h].pc) >= 9 && JumpTooFar(c, h)
    ensures Logged(s.console, h, Arrive) <==> Phase(c.core0, s.procs[h].pc) >= 22
    ensures s.procs[h].pc.Signal? ==> JumpTooFar(c, h)
    ensures s.procs[h].pc.Done? ==> (Logged(s.console, h, BadImm) <==> JumpTooFar(c, h))
  {
    hide JumpTooFar, Logged, Phase, Next;
    PhaseOfEnds(c.core0, s.procs[h].pc);
    var s0, choices :| Init(c, s0) && Schedule(c, choices) && s == After(c, s0, choices);
    MessagesAfter(c, s0, choices);
  }
}
