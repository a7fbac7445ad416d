/** The main loop of the ADCS box on its own (src/adcs/main.cpp): from wherever it stands it works through the rest of a block
    and reaches the next one. This is how schedules are built that show what can go wrong. */
module MainLoop {
  import opened AdcsRegisters
  import opened CommandProtocol

  /** Some steps of the main loop, with the same sensor values throughout. */
  function Steps(s: State, e: Sensors, n: nat): State
    decreases n
  {
    if n == 0 then s else Steps(StepMain(s, e), e, n - 1)
  }

  lemma {:induction false} StepsAdd(s: State, e: Sensors, m: nat, n: nat)
    ensures Steps(s, e, m + n) == Steps(Steps(s, e, m), e, n)
    decreases m
  {
    hide StepMain;
    if m > 0 {
      StepsAdd(StepMain(s, e), e, m - 1, n);
    }
  }

  function Mains(e: Sensors, n: nat): (events: seq<Event>)
    ensures |events| == n && forall i | 0 <= i < n :: events[i] == Main(e)
  {
    seq(n, _ => Main(e))
  }

  /** A run that goes on with the main loop only. */
  lemma {:induction false} StepsAreRun(s0: State, events: seq<Event>, e: Sensors, n: nat)
    ensures Run(s0, events + Mains(e, n)) == Steps(Run(s0, events), e, n)
    decreases n
  {
    if n == 0 {
      assert events + Mains(e, 0) == events;
    } else {
      StepsAreRun(s0, events, e, n - 1);
      OneMore(s0, events, e, n - 1);
    }
  }

  lemma OneMore(s0: State, events: seq<Event>, e: Sensors, n: nat)
    requires Run(s0, events + Mains(e, n)) == Steps(Run(s0, events), e, n)
    ensures Run(s0, events + Mains(e, n + 1)) == Steps(Run(s0, events), e, n + 1)
  {
    hide *;
    var s, sofar := Run(s0, events), events + Mains(e, n);
    calc {
      Run(s0, events + Mains(e, n + 1));
    ==  { MainsMore(events, e, n); }
      Run(s0, sofar + [Main(e)]);
    ==  { RunMore(s0, sofar, Main(e)); }
      Step(Steps(s, e, n), Main(e));
    ==  { OneStep(Steps(s, e, n), e); }
      Steps(Steps(s, e, n), e, 1);
    ==  { StepsAdd(s, e, n, 1); }
      Steps(s, e, n + 1);
    }
  }

  lemma MainsMore(events: seq<Event>, e: Sensors, n: nat)
    ensures events + Mains(e, n + 1) == events + Mains(e, n) + [Main(e)]
  {
  }

  lemma OneStep(s: State, e: Sensors)
    ensures Steps(s, e, 1) == StepMain(s, e) == Step(s, Main(e))
  {
    hide StepMain;
    assert Steps(StepMain(s, e), e, 0) == StepMain(s, e);
  }

  /** Where the loop goes when it is through with the block it is in. */
  function Gate(pc: Pc): Pc {
    match pc
    case InImu(_) => InMtr(MtrActive)
    case InMtr(_) => InRwa(RwaActive)
    case InRwa(_) => InSsa(SsaSense)
    case InSsa(_) => InHavt(HavtSense)
    case InHavt(_) => InImu(ImuSense)
  }

  /** Before the wheel flag is cleared. */
  predicate BeforeCopy(pc: Pc) {
    pc == InRwa(RwaActive) || pc == InRwa(RwaFlag) || pc == InRwa(RwaClear)
  }

  /** Before the magnetorquer flag is cleared. */
  predicate BeforeMtrCopy(pc: Pc) {
    pc == InMtr(MtrActive) || pc == InMtr(MtrFlag) || pc == InMtr(MtrClear)
  }

  /** Before the flag of a reset table is cleared. */
  predicate BeforeReset(pc: Pc) {
    pc == InHavt(HavtSense) || pc == InHavt(ResetFlag) || pc == InHavt(ResetClear)
  }

  /** Before the flag of a disable table is cleared. */
  predicate BeforeDisable(pc: Pc) {
    pc.InHavt? && pc != InHavt(DisableRead) && pc != InHavt(DisableCheck) && pc != InHavt(DisableExecute)
  }

  /** A bound on the steps left in a block. */
  function Rank(pc: Pc): nat {
    match pc
    case InImu(p) =>
      (match p case ImuSense => 15 case ImuMask => 14 case ImuStore(k) => if k < 9 then 13 - k else 4
               case ImuUnmask => 3 case ImuMag1 => 2 case ImuMag2 => 1 case ImuTemperature => 0)
    case InMtr(p) =>
      (match p case MtrActive => 8 case MtrFlag => 7 case MtrClear => 6 case MtrMode => 5
               case MtrRead(k) => if k < 3 then 4 - k else 1 case MtrCheck => 1 case MtrActuate => 0)
    case InRwa(p) =>
      (match p case RwaActive => 20 case RwaFlag => 19 case RwaClear => 18 case RwaMode => 17
               case RwaRead(k) => if k < 3 then 16 - k else 13 case RwaCheck => 12 case RwaActuate => 11
               case RwaSense => 10 case RwaMask => 9 case RwaStore(k) => if k < 6 then 8 - k else 2 case RwaUnmask => 0)
    case InSsa(p) =>
      (match p case SsaSense => 40 case SsaVoltage(k) => if k < 20 then 39 - k else 19 case SsaMode => 10
               case SsaCalculate => 9 case SsaMask => 8 case SsaStore(k) => if k < 3 then 7 - k else 4
               case SsaSetMode => 3 case SsaUnmask => 2)
    case InHavt(p) =>
      (match p case HavtSense => 10 case ResetFlag => 9 case ResetClear => 8 case ResetRead => 7 case ResetCheck => 6
               case ResetExecute => 5 case DisableFlag => 4 case DisableClear => 3 case DisableRead => 2
               case DisableCheck => 1 case DisableExecute => 0)
  }

  /** Both program counters are in the same block, the second nearer to its end. */
  predicate Nearer(pc: Pc, next: Pc) {
    Gate(next) == Gate(pc) && Rank(next) < Rank(pc)
  }

  lemma AdvanceImu(s: State, e: Sensors)
    requires s.pc.InImu? && ImuInv(s) && e.Valid()
    ensures var pc := StepImu(s, e).pc; pc == Gate(s.pc) || Nearer(s.pc, pc)
  {
  }

  lemma AdvanceMtr(s: State)
    requires s.pc.InMtr? && MtrInv(s)
    ensures var pc := StepMtr(s).pc; pc == Gate(s.pc) || Nearer(s.pc, pc)
  {
  }

  lemma AdvanceRwa(s: State, e: Sensors)
    requires s.pc.InRwa? && RwaInv(s) && WheelInv(s) && e.Valid()
    ensures var pc := StepRwa(s, e).pc; pc == Gate(s.pc) || Nearer(s.pc, pc)
  {
  }

  lemma AdvanceSsa(s: State, e: Sensors)
    requires s.pc.InSsa? && SunInv(s) && VoltInv(s) && e.Valid()
    ensures var pc := StepSsa(s, e).pc; pc == Gate(s.pc) || Nearer(s.pc, pc)
  {
  }

  lemma AdvanceHavt(s: State, e: Sensors)
    requires s.pc.InHavt?
    ensures var pc := StepHavt(s, e).pc; pc == Gate(s.pc) || Nearer(s.pc, pc)
  {
  }

  /** The loop never gets stuck. */
  lemma Advance(s: State, e: Sensors)
    requires Inv(s) && e.Valid()
    ensures var pc := StepMain(s, e).pc; pc == Gate(s.pc) || Nearer(s.pc, pc)
  {
    hide MtrInv, RwaInv, HavtInv, SunInv, ImuInv, WheelInv, VoltInv, ResponseInv, StepImu, StepMtr, StepRwa, StepSsa, StepHavt,
         Gate, Nearer;
    match s.pc
    case InImu(_) => AdvanceImu(s, e);
    case InMtr(_) => AdvanceMtr(s);
    case InRwa(_) => AdvanceRwa(s, e);
    case InSsa(_) => AdvanceSsa(s, e);
    case InHavt(_) => AdvanceHavt(s, e);
  }

  /** What the rest of a block does to the magnetorquer commands. */
  predicate MtrMoved(s: State, t: State) {
    && t.regs.mtr.mode == s.regs.mtr.mode && t.regs.mtr.cmd == s.regs.mtr.cmd && t.log.mtrSent == s.log.mtrSent
    && (!BeforeMtrCopy(s.pc) ==> t.regs.mtr.flag == s.regs.mtr.flag)
  }

  /** What it does to the device table commands. */
  predicate TablesMoved(s: State, t: State) {
    && t.regs.havt.resetTable == s.regs.havt.resetTable && t.log.resetSent == s.log.resetSent
    && t.regs.havt.disableTable == s.regs.havt.disableTable && t.log.disableSent == s.log.disableSent
    && (!BeforeReset(s.pc) ==> t.regs.havt.resetFlag == s.regs.havt.resetFlag)
    && (!BeforeDisable(s.pc) ==> t.regs.havt.disableFlag == s.regs.havt.disableFlag)
  }

  /** What it does to the wheel commands, the device tables and the modes. */
  predicate Moved(s: State, t: State) {
    && MtrMoved(s, t) && TablesMoved(s, t) && t.regs.rwa.cmd == s.regs.rwa.cmd
    && t.regs.mode == s.regs.mode && t.regs.readPtr == s.regs.readPtr && t.log.responses == s.log.responses
    && t.regs.rwa.mode == s.regs.rwa.mode && t.log.rwaSent == s.log.rwaSent && s.log.rwaDone <= t.log.rwaDone
    && (!BeforeCopy(s.pc) ==> t.regs.rwa.flag == s.regs.rwa.flag)
    && (!s.pc.InRwa? ==> t.log.rwaDone == s.log.rwaDone)
    && (!s.pc.InHavt? ==> SameTables(s, t))
  }

  lemma MovedOneStep(s: State, e: Sensors)
    ensures Moved(s, StepMain(s, e)) && NoWayBack(s.pc, StepMain(s, e).pc)
  {
    FrameMain(s, e);
    ModesStay(s, e);
    hide StepMain;
    match s.pc
    case InMtr(_) => MtrStep(s, e);
    case InRwa(_) => WheelStep(s, e);
    case InHavt(_) => TableStep(s, e);
    case _ =>
  }

  /** Within a block a step does not lead back before a copy. */
  predicate NoWayBack(pc: Pc, next: Pc) {
    && (pc.InMtr? && !BeforeMtrCopy(pc) ==> !BeforeMtrCopy(next))
    && (pc.InRwa? && !BeforeCopy(pc) ==> !BeforeCopy(next))
    && (pc.InHavt? && !BeforeReset(pc) ==> !BeforeReset(next))
    && (pc.InHavt? && !BeforeDisable(pc) ==> !BeforeDisable(next))
  }

  lemma MtrStep(s: State, e: Sensors)
    requires s.pc.InMtr?
    ensures MtrMoved(s, StepMain(s, e)) && (!BeforeMtrCopy(s.pc) ==> !BeforeMtrCopy(StepMain(s, e).pc))
  {
  }

  lemma TableStep(s: State, e: Sensors)
    requires s.pc.InHavt?
    ensures TablesMoved(s, StepMain(s, e))
    ensures !BeforeReset(s.pc) ==> !BeforeReset(StepMain(s, e).pc)
    ensures !BeforeDisable(s.pc) ==> !BeforeDisable(StepMain(s, e).pc)
  {
  }

  lemma ModesStay(s: State, e: Sensors)
    ensures var t := StepMain(s, e); t.regs.mode == s.regs.mode && t.regs.readPtr == s.regs.readPtr
  {
  }

  lemma WheelStep(s: State, e: Sensors)
    requires s.pc.InRwa?
    ensures var t := StepMain(s, e);
            && t.regs.rwa.mode == s.regs.rwa.mode && t.regs.rwa.cmd == s.regs.rwa.cmd
            && t.log.rwaSent == s.log.rwaSent && s.log.rwaDone <= t.log.rwaDone
            && (!BeforeCopy(s.pc) ==> t.regs.rwa.flag == s.regs.rwa.flag && !BeforeCopy(t.pc))
  {
  }

  /** The loop leaves the block it is in. */
  lemma {:induction false} Leave(s: State, e: Sensors) returns (n: nat)
    requires Inv(s) && e.Valid()
    ensures var t := Steps(s, e, n); t.pc == Gate(s.pc) && Inv(t) && Moved(s, t)
    decreases Rank(s.pc)
  {
    hide Inv, StepMain, Moved, NoWayBack;
    var t := StepMain(s, e);
    Advance(s, e);
    StepKeepsInv(s, Main(e));
    assert Step(s, Main(e)) == t;
    MovedOneStep(s, e);
    if t.pc == Gate(s.pc) {
      n := 1;
      OneStep(s, e);
    } else {
      var m := Leave(t, e);
      n := m + 1;
      assert Steps(s, e, n) == Steps(t, e, m);
      MovedTwice(s, t, Steps(t, e, m));
    }
  }

  lemma MovedTwice(s: State, t: State, u: State)
    requires Moved(s, t) && Moved(t, u) && Gate(t.pc) == Gate(s.pc) && NoWayBack(s.pc, t.pc)
    ensures Moved(s, u)
  {
  }
}
