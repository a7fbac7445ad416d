/** The shared-register protocol of the ADCS box (src/adcs/main.cpp): the main loop, one register access at a time, with
    the bus handlers firing between any two accesses unless interrupts are masked. */
module CommandProtocol {
  import opened AdcsRegisters

  // ----- The machine -----

  /** Where update_imu stands; the other program counters are alike. Store(k) writes the k-th reading. */
  datatype ImuPc = ImuSense | ImuMask | ImuStore(k: nat) | ImuUnmask | ImuMag1 | ImuMag2 | ImuTemperature
  datatype MtrPc = MtrActive | MtrFlag | MtrClear | MtrMode | MtrRead(k: nat) | MtrCheck | MtrActuate
  datatype RwaPc = RwaActive | RwaFlag | RwaClear | RwaMode | RwaRead(k: nat) | RwaCheck | RwaActuate
                 | RwaSense | RwaMask | RwaStore(k: nat) | RwaUnmask
  datatype SsaPc = SsaSense | SsaVoltage(k: nat) | SsaMode | SsaCalculate | SsaMask | SsaStore(k: nat) | SsaSetMode | SsaUnmask
  datatype HavtPc = HavtSense | ResetFlag | ResetClear | ResetRead | ResetCheck | ResetExecute
                  | DisableFlag | DisableClear | DisableRead | DisableCheck | DisableExecute
  datatype Pc = InImu(imu: ImuPc) | InMtr(mtr: MtrPc) | InRwa(rwa: RwaPc) | InSsa(ssa: SsaPc) | InHavt(havt: HavtPc)

  /** The copy the main loop makes of a command, and the number of the command that was newest when it cleared the flag. */
  datatype Copy = Copy(mode: byte, cmd: seq<Float>, src: nat)

  datatype Locals = Locals(mtr: Copy, rwa: Copy, imu: seq<Float>, temperature: Float, wheels: seq<Float>,
                           volts: seq<Float>, sun: SunResult, table: nat, src: nat)

  datatype WheelCommand = WheelCommand(mode: byte, cmd: seq<Float>)
  datatype SunResult = SunResult(vec: seq<Float>, mode: byte)
  datatype Executed = Executed(table: nat, src: nat)

  /** What has happened so far. Entry 0 of each list of commands and samples is the initial register content. */
  datatype Log = Log(mtrSent: seq<seq<Float>>, mtrDone: seq<Copy>, rwaSent: seq<WheelCommand>, rwaDone: seq<Copy>,
                     resetSent: seq<nat>, resetDone: seq<Executed>, disableSent: seq<nat>, disableDone: seq<Executed>,
                     sunAccepted: nat, sunResults: seq<SunResult>,
                     imuSamples: seq<seq<Float>>, temperatures: seq<Float>,
                     wheelSamples: seq<seq<Float>>, voltSamples: seq<seq<Float>>, tables: seq<nat>,
                     responses: seq<Response>)

  datatype State = State(regs: Registers, pc: Pc, masked: bool, main: Locals, log: Log)

  /** What the sensors, the sun vector algorithm and the device table deliver at a step. */
  datatype Sensors = Sensors(imu: seq<Float>, temperature: Float, wheels: seq<Float>, volts: seq<Float>, sun: seq<Float>,
                             sunFound: bool, table: nat)
  {
    predicate Valid() {
      |imu| == 9 && |wheels| == 6 && |volts| == 20 && |sun| == 3
    }
  }

  datatype Event = Main(sensors: Sensors) | Message(bytes: seq<byte>) | Request
  {
    predicate Valid() {
      Main? ==> sensors.Valid()
    }
  }

  function StepImu(s: State, e: Sensors): State
    requires s.pc.InImu?
  {
    match s.pc.imu
    case ImuSense =>
      s.(main := s.main.(imu := e.imu, temperature := e.temperature), pc := InImu(ImuMask),
         log := s.log.(imuSamples := s.log.imuSamples + [e.imu], temperatures := s.log.temperatures + [e.temperature]))
    case ImuMask => s.(masked := true, pc := InImu(ImuStore(0)))
    case ImuStore(k) =>
      if k < |s.regs.imu.rd| && k < |s.main.imu| then
        s.(regs := s.regs.(imu := s.regs.imu.(rd := s.regs.imu.rd[k := s.main.imu[k]])),
           pc := InImu(if k == 8 then ImuUnmask else ImuStore(k + 1)))
      else s
    case ImuUnmask => s.(masked := false, pc := InImu(ImuMag1))
    case ImuMag1 => s.(regs := s.regs.(imu := s.regs.imu.(mag1Mode := IMU_MAG_NORMAL)), pc := InImu(ImuMag2))
    case ImuMag2 => s.(regs := s.regs.(imu := s.regs.imu.(mag2Mode := IMU_MAG_NORMAL)), pc := InImu(ImuTemperature))
    case ImuTemperature =>
      s.(regs := s.regs.(imu := s.regs.imu.(gyrTempRd := s.main.temperature)), pc := InMtr(MtrActive))
  }

  function StepMtr(s: State): State
    requires s.pc.InMtr?
  {
    match s.pc.mtr
    case MtrActive => s.(pc := if s.regs.mode != ADCS_ACTIVE then InRwa(RwaActive) else InMtr(MtrFlag))
    case MtrFlag => s.(pc := if s.regs.mtr.flag != UPDATED then InRwa(RwaActive) else InMtr(MtrClear))
    case MtrClear =>
      s.(regs := s.regs.(mtr := s.regs.mtr.(flag := OUTDATED)),
         main := s.main.(mtr := Copy(0, [], if s.log.mtrSent == [] then 0 else |s.log.mtrSent| - 1)), pc := InMtr(MtrMode))
    case MtrMode => s.(main := s.main.(mtr := s.main.mtr.(mode := s.regs.mtr.mode)), pc := InMtr(MtrRead(0)))
    case MtrRead(k) =>
      if k < |s.regs.mtr.cmd| then
        s.(main := s.main.(mtr := s.main.mtr.(cmd := s.main.mtr.cmd + [s.regs.mtr.cmd[k]])),
           pc := InMtr(if k == 2 then MtrCheck else MtrRead(k + 1)))
      else s
    case MtrCheck => s.(pc := if s.regs.mtr.flag == OUTDATED then InMtr(MtrActuate) else InRwa(RwaActive))
    case MtrActuate => s.(log := s.log.(mtrDone := s.log.mtrDone + [s.main.mtr]), pc := InRwa(RwaActive))
  }

  function StepRwa(s: State, e: Sensors): State
    requires s.pc.InRwa?
  {
    match s.pc.rwa
    case RwaActive => s.(pc := if s.regs.mode != ADCS_ACTIVE then InSsa(SsaSense) else InRwa(RwaFlag))
    case RwaFlag => s.(pc := if s.regs.rwa.flag != UPDATED then InSsa(SsaSense) else InRwa(RwaClear))
    case RwaClear =>
      s.(regs := s.regs.(rwa := s.regs.rwa.(flag := OUTDATED)),
         main := s.main.(rwa := Copy(0, [], if s.log.rwaSent == [] then 0 else |s.log.rwaSent| - 1)), pc := InRwa(RwaMode))
    case RwaMode => s.(main := s.main.(rwa := s.main.rwa.(mode := s.regs.rwa.mode)), pc := InRwa(RwaRead(0)))
    case RwaRead(k) =>
      if k < |s.regs.rwa.cmd| then
        s.(main := s.main.(rwa := s.main.rwa.(cmd := s.main.rwa.cmd + [s.regs.rwa.cmd[k]])),
           pc := InRwa(if k == 2 then RwaCheck else RwaRead(k + 1)))
      else s
    case RwaCheck => s.(pc := InRwa(if s.regs.rwa.flag == OUTDATED then RwaActuate else RwaSense))
    case RwaActuate => s.(log := s.log.(rwaDone := s.log.rwaDone + [s.main.rwa]), pc := InRwa(RwaSense))
    case RwaSense =>
      s.(main := s.main.(wheels := e.wheels), log := s.log.(wheelSamples := s.log.wheelSamples + [e.wheels]),
         pc := InRwa(RwaMask))
    case RwaMask => s.(masked := true, pc := InRwa(RwaStore(0)))
    case RwaStore(k) =>
      if k < |s.regs.rwa.rd| && k < |s.main.wheels| then
        s.(regs := s.regs.(rwa := s.regs.rwa.(rd := s.regs.rwa.rd[k := s.main.wheels[k]])),
           pc := InRwa(if k == 5 then RwaUnmask else RwaStore(k + 1)))
      else s
    case RwaUnmask => s.(masked := false, pc := InSsa(SsaSense))
  }

  function StepSsa(s: State, e: Sensors): State
    requires s.pc.InSsa?
  {
    match s.pc.ssa
    case SsaSense =>
      s.(main := s.main.(volts := e.volts), log := s.log.(voltSamples := s.log.voltSamples + [e.volts]),
         pc := InSsa(SsaVoltage(0)))
    case SsaVoltage(k) =>
      if k < |s.regs.ssa.voltages| && k < |s.main.volts| then
        s.(regs := s.regs.(ssa := s.regs.ssa.(voltages := s.regs.ssa.voltages[k := s.main.volts[k]])),
           pc := InSsa(if k == 19 then SsaMode else SsaVoltage(k + 1)))
      else s
    case SsaMode => s.(pc := if s.regs.ssa.mode == SSA_IN_PROGRESS then InSsa(SsaCalculate) else InHavt(HavtSense))
    case SsaCalculate =>
      s.(main := s.main.(sun := SunResult(e.sun, if e.sunFound then SSA_COMPLETE else SSA_FAILURE)), pc := InSsa(SsaMask))
    case SsaMask => s.(masked := true, pc := InSsa(SsaStore(0)))
    case SsaStore(k) =>
      if k < |s.regs.ssa.sunVec| && k < |s.main.sun.vec| then
        s.(regs := s.regs.(ssa := s.regs.ssa.(sunVec := s.regs.ssa.sunVec[k := s.main.sun.vec[k]])),
           pc := InSsa(if k == 2 then SsaSetMode else SsaStore(k + 1)))
      else s
    case SsaSetMode =>
      s.(regs := s.regs.(ssa := s.regs.ssa.(mode := s.main.sun.mode)),
         log := s.log.(sunResults := s.log.sunResults + [s.main.sun]), pc := InSsa(SsaUnmask))
    case SsaUnmask => s.(masked := false, pc := InHavt(HavtSense))
  }

  function StepHavt(s: State, e: Sensors): State
    requires s.pc.InHavt?
  {
    match s.pc.havt
    case HavtSense =>
      s.(regs := s.regs.(havt := s.regs.havt.(readTable := e.table)), log := s.log.(tables := s.log.tables + [e.table]),
         pc := InHavt(ResetFlag))
    case ResetFlag => s.(pc := InHavt(if s.regs.havt.resetFlag == UPDATED then ResetClear else DisableFlag))
    case ResetClear =>
      s.(regs := s.regs.(havt := s.regs.havt.(resetFlag := OUTDATED)),
         main := s.main.(src := if s.log.resetSent == [] then 0 else |s.log.resetSent| - 1), pc := InHavt(ResetRead))
    case ResetRead => s.(main := s.main.(table := s.regs.havt.resetTable), pc := InHavt(ResetCheck))
    case ResetCheck => s.(pc := InHavt(if s.regs.havt.resetFlag == OUTDATED then ResetExecute else DisableFlag))
    case ResetExecute =>
      s.(log := s.log.(resetDone := s.log.resetDone + [Executed(s.main.table, s.main.src)]), pc := InHavt(DisableFlag))
    case DisableFlag => s.(pc := if s.regs.havt.disableFlag == UPDATED then InHavt(DisableClear) else InImu(ImuSense))
    case DisableClear =>
      s.(regs := s.regs.(havt := s.regs.havt.(disableFlag := OUTDATED)),
         main := s.main.(src := if s.log.disableSent == [] then 0 else |s.log.disableSent| - 1), pc := InHavt(DisableRead))
    case DisableRead => s.(main := s.main.(table := s.regs.havt.disableTable), pc := InHavt(DisableCheck))
    case DisableCheck => s.(pc := if s.regs.havt.disableFlag == OUTDATED then InHavt(DisableExecute) else InImu(ImuSense))
    case DisableExecute =>
      s.(log := s.log.(disableDone := s.log.disableDone + [Executed(s.main.table, s.main.src)]), pc := InImu(ImuSense))
  }

  /** One access of the main loop. */
  function StepMain(s: State, e: Sensors): State {
    match s.pc
    case InImu(_) => StepImu(s, e)
    case InMtr(_) => StepMtr(s)
    case InRwa(_) => StepRwa(s, e)
    case InSsa(_) => StepSsa(s, e)
    case InHavt(_) => StepHavt(s, e)
  }

  /** One register write of the receive handler, with what it adds to the log. */
  function StepWrite(s: State, op: Op): State
    requires op.Valid()
  {
    var r, log := Write(s.regs, op), s.log;
    s.(regs := r,
       log :=
         if op.address == MTR_COMMAND then log.(mtrSent := log.mtrSent + [r.mtr.cmd])
         else if op.address == RWA_COMMAND && ActiveWheelMode(s.regs.rwa.mode) then
           log.(rwaSent := log.rwaSent + [WheelCommand(r.rwa.mode, r.rwa.cmd)])
         else if op.address == HAVT_COMMAND_RESET then log.(resetSent := log.resetSent + [r.havt.resetTable])
         else if op.address == HAVT_COMMAND_DISABLE then log.(disableSent := log.disableSent + [r.havt.disableTable])
         else if op.address == SSA_MODE && s.regs.ssa.mode != SSA_IN_PROGRESS && r.ssa.mode == SSA_IN_PROGRESS then
           log.(sunAccepted := log.sunAccepted + 1)
         else log)
  }

  function StepWrites(s: State, ops: seq<Op>): State
    requires forall op | op in ops :: op.Valid()
    decreases |ops|
  {
    if ops == [] then s else StepWrites(StepWrite(s, ops[0]), ops[1..])
  }

  /** One event. The handlers run to completion, and not at all while interrupts are masked. */
  function Step(s: State, e: Event): State {
    match e
    case Main(sensors) => StepMain(s, sensors)
    case Message(bytes) => if s.masked then s else StepWrites(s, Decode(bytes))
    case Request => if s.masked then s else s.(log := s.log.(responses := s.log.responses + [Respond(s.regs)]))
  }

  function Run(s: State, events: seq<Event>): State
    decreases |events|
  {
    if events == [] then s else Step(Run(s, events[..|events| - 1]), events[|events| - 1])
  }

  lemma RunMore(s: State, events: seq<Event>, e: Event)
    ensures Run(s, events + [e]) == Step(Run(s, events), e)
  {
    hide Step;
    var longer := events + [e];
    assert longer[..|longer| - 1] == events && longer[|longer| - 1] == e;
  }

  /** The registers move as the receive handler moves them. */
  lemma {:induction false} MessageWritesRegisters(s: State, ops: seq<Op>)
    requires forall op | op in ops :: op.Valid()
    ensures StepWrites(s, ops).regs == ApplyAll(s.regs, ops)
    ensures StepWrites(s, ops).pc == s.pc && StepWrites(s, ops).main == s.main && StepWrites(s, ops).masked == s.masked
    decreases |ops|
  {
    if ops != [] {
      MessageWritesRegisters(StepWrite(s, ops[0]), ops[1..]);
    }
  }

  /** Power-on: clear flags, idle modes, any register content of the right shape. */
  ghost predicate Init(s: State) {
    && s.pc == InImu(ImuSense) && !s.masked
    && |s.regs.mtr.cmd| == 3 && |s.regs.rwa.cmd| == 3 && |s.regs.imu.rd| == 9 && |s.regs.rwa.rd| == 6
    && |s.regs.ssa.sunVec| == 3 && |s.regs.ssa.voltages| == 20
    && s.regs.mtr.flag == s.regs.rwa.flag == s.regs.havt.resetFlag == s.regs.havt.disableFlag == OUTDATED
    && s.regs.rwa.mode == 0 && s.regs.ssa.mode == SSA_FAILURE
    && s.log == Log([s.regs.mtr.cmd], [], [WheelCommand(0, s.regs.rwa.cmd)], [], [s.regs.havt.resetTable], [],
                    [s.regs.havt.disableTable], [], 0, [SunResult(s.regs.ssa.sunVec, SSA_FAILURE)],
                    [s.regs.imu.rd], [s.regs.imu.gyrTempRd], [s.regs.rwa.rd], [s.regs.ssa.voltages],
                    [s.regs.havt.readTable], [])
  }

  // ----- Magnetorquer commands -----

  function Newest<T>(s: seq<T>): nat {
    if s == [] then 0 else |s| - 1
  }

  /** The number of the last command acted on; 0 stands for the initial register content. */
  function LastDone(done: seq<Copy>): nat {
    if done == [] then 0 else done[|done| - 1].src
  }

  /** Each copy is, whole, the command with its number. */
  ghost predicate Whole(done: seq<Copy>, sent: seq<seq<Float>>) {
    forall i | 0 <= i < |done| :: done[i].src < |sent| && done[i].cmd == sent[done[i].src]
  }

  ghost predicate MtrInv(s: State) {
    var r, sent, done, c := s.regs.mtr, s.log.mtrSent, s.log.mtrDone, s.main.mtr;
    && sent != [] && |r.cmd| == 3 && r.cmd == sent[|sent| - 1]
    && (r.flag == OUTDATED || r.flag == UPDATED)
    && Whole(done, sent) && LastDone(done) <= Newest(sent)
    && match s.pc
       case InMtr(MtrMode) => c.cmd == [] && c.src <= Newest(sent) && (r.flag == OUTDATED ==> c.src == Newest(sent))
       case InMtr(MtrRead(k)) => k < 3 && |c.cmd| == k && c.src <= Newest(sent)
                                 && (r.flag == OUTDATED ==> c.src == Newest(sent) && c.cmd == r.cmd[..k])
       case InMtr(MtrCheck) => c.src <= Newest(sent) && (r.flag == OUTDATED ==> c.src == Newest(sent) && c.cmd == r.cmd)
       case InMtr(MtrActuate) => c.src <= Newest(sent) && c.cmd == sent[c.src] && (r.flag == OUTDATED ==> c.src == Newest(sent))
       case _ => r.flag == OUTDATED ==> LastDone(done) == Newest(sent)
  }

  // ----- Wheel commands -----

  ghost predicate WholeWheel(done: seq<Copy>, sent: seq<WheelCommand>) {
    forall i | 0 <= i < |done| :: done[i].src < |sent| && done[i].cmd == sent[done[i].src].cmd
  }

  /** The numbers of the commands acted on only go up: none is acted on twice, and the initial content never. */
  ghost predicate Rising(done: seq<Copy>) {
    forall i | 0 <= i < |done| :: done[i].src > if i == 0 then 0 else done[i - 1].src
  }

  ghost predicate RwaInv(s: State) {
    var r, sent, done, c := s.regs.rwa, s.log.rwaSent, s.log.rwaDone, s.main.rwa;
    && sent != [] && |r.cmd| == 3 && r.cmd == sent[|sent| - 1].cmd
    && (r.flag == OUTDATED || r.flag == UPDATED)
    && WholeWheel(done, sent) && Rising(done) && LastDone(done) <= Newest(sent)
    && match s.pc
       case InRwa(RwaClear) => r.flag == UPDATED && LastDone(done) < Newest(sent)
       case InRwa(RwaMode) => LastDone(done) < c.src <= Newest(sent) && c.cmd == []
                              && (r.flag == OUTDATED ==> c.src == Newest(sent))
       case InRwa(RwaRead(k)) => k < 3 && |c.cmd| == k && LastDone(done) < c.src <= Newest(sent)
                                 && (r.flag == OUTDATED ==> c.src == Newest(sent) && c.cmd == r.cmd[..k])
       case InRwa(RwaCheck) => LastDone(done) < c.src <= Newest(sent)
                               && (r.flag == OUTDATED ==> c.src == Newest(sent) && c.cmd == r.cmd)
       case InRwa(RwaActuate) => LastDone(done) < c.src <= Newest(sent) && c.cmd == sent[c.src].cmd
                                 && (r.flag == OUTDATED <==> c.src == Newest(sent))
       case _ => r.flag == OUTDATED <==> LastDone(done) == Newest(sent)
  }

  // ----- Device table commands -----

  function LastExecuted(done: seq<Executed>): nat {
    if done == [] then 0 else done[|done| - 1].src
  }

  /** How far the main loop is with one table command. */
  datatype Phase = Idle | Clearing | Reading | Checking | Executing

  function ResetPhase(pc: Pc): Phase {
    match pc
    case InHavt(ResetClear) => Clearing
    case InHavt(ResetRead) => Reading
    case InHavt(ResetCheck) => Checking
    case InHavt(ResetExecute) => Executing
    case _ => Idle
  }

  function DisablePhase(pc: Pc): Phase {
    match pc
    case InHavt(DisableClear) => Clearing
    case InHavt(DisableRead) => Reading
    case InHavt(DisableCheck) => Checking
    case InHavt(DisableExecute) => Executing
    case _ => Idle
  }

  /** Each execution is of the table with its number, and the numbers only go up. */
  ghost predicate ExecutedOnce(done: seq<Executed>, sent: seq<nat>) {
    forall i | 0 <= i < |done| :: ExecutedAt(done, sent, i)
  }

  predicate ExecutedAt(done: seq<Executed>, sent: seq<nat>, i: nat)
    requires i < |done|
  {
    && done[i].src < |sent| && done[i].table == sent[done[i].src]
    && done[i].src > if i == 0 then 0 else done[i - 1].src
  }

  ghost predicate TableInv(phase: Phase, flag: byte, table: nat, sent: seq<nat>, done: seq<Executed>, copy: nat, src: nat) {
    && sent != [] && table == sent[|sent| - 1]
    && (flag == OUTDATED || flag == UPDATED)
    && ExecutedOnce(done, sent) && LastExecuted(done) <= Newest(sent)
    && match phase
       case Idle => flag == OUTDATED <==> LastExecuted(done) == Newest(sent)
       case Clearing => flag == UPDATED && LastExecuted(done) < Newest(sent)
       case Reading => LastExecuted(done) < src <= Newest(sent) && (flag == OUTDATED ==> src == Newest(sent))
       case Checking => LastExecuted(done) < src <= Newest(sent) && (flag == OUTDATED ==> src == Newest(sent) && copy == table)
       case Executing => LastExecuted(done) < src <= Newest(sent) && copy == sent[src]
                         && (flag == OUTDATED <==> src == Newest(sent))
  }

  ghost predicate HavtInv(s: State) {
    var h := s.regs.havt;
    && TableInv(ResetPhase(s.pc), h.resetFlag, h.resetTable, s.log.resetSent, s.log.resetDone, s.main.table,
                s.main.src)
    && TableInv(DisablePhase(s.pc), h.disableFlag, h.disableTable, s.log.disableSent, s.log.disableDone, s.main.table,
                s.main.src)
  }

  // ----- Sun sensor requests and snapshots -----

  predicate MaskedAt(pc: Pc) {
    match pc
    case InImu(ImuStore(_)) => true
    case InImu(ImuUnmask) => true
    case InRwa(RwaStore(_)) => true
    case InRwa(RwaUnmask) => true
    case InSsa(SsaStore(_)) => true
    case InSsa(SsaSetMode) => true
    case InSsa(SsaUnmask) => true
    case _ => false
  }

  function Requested(s: State): nat {
    if s.regs.ssa.mode == SSA_IN_PROGRESS then 1 else 0
  }

  ghost predicate SunInv(s: State) {
    var r, results := s.regs.ssa, s.log.sunResults;
    && results != [] && |r.sunVec| == 3 && |results[|results| - 1].vec| == 3
    && s.log.sunAccepted == |results| - 1 + Requested(s)
    && (s.pc.InSsa? && (s.pc.ssa.SsaCalculate? || s.pc.ssa.SsaMask? || s.pc.ssa.SsaStore? || s.pc.ssa.SsaSetMode?) ==>
          r.mode == SSA_IN_PROGRESS)
    && (s.pc.InSsa? && (s.pc.ssa.SsaMask? || s.pc.ssa.SsaStore? || s.pc.ssa.SsaSetMode?) ==>
          |s.main.sun.vec| == 3 && s.main.sun.mode != SSA_IN_PROGRESS)
    && match s.pc
       case InSsa(SsaStore(k)) => k < 3 && r.sunVec == s.main.sun.vec[..k] + results[|results| - 1].vec[k..]
       case InSsa(SsaSetMode) => r.sunVec == s.main.sun.vec
       case _ => r.sunVec == results[|results| - 1].vec
  }

  /** How far the main loop is with storing a sample. */
  datatype Stage = Stored | Fetched | Storing(k: nat)

  /** The readings are those of one sample, or go over from the last but one to the last, one at a time. */
  ghost predicate Readings(rd: seq<Float>, local: seq<Float>, samples: seq<seq<Float>>, len: nat, stage: Stage) {
    var n := |samples|;
    && n > 0 && |rd| == len && (forall x | x in samples :: |x| == len)
    && match stage
       case Stored => rd == samples[n - 1]
       case Fetched => n > 1 && local == samples[n - 1] && rd == samples[n - 2]
       case Storing(k) => n > 1 && k < len && local == samples[n - 1] && rd == samples[n - 1][..k] + samples[n - 2][k..]
  }

  function ImuStage(pc: Pc): Stage {
    match pc
    case InImu(ImuMask) => Fetched
    case InImu(ImuStore(k)) => Storing(k)
    case _ => Stored
  }

  function WheelStage(pc: Pc): Stage {
    match pc
    case InRwa(RwaMask) => Fetched
    case InRwa(RwaStore(k)) => Storing(k)
    case _ => Stored
  }

  function VoltStage(pc: Pc): Stage {
    match pc
    case InSsa(SsaVoltage(k)) => Storing(k)
    case _ => Stored
  }

  /** The temperature of a sample is stored last, after the masked block. */
  ghost predicate TemperatureInv(s: State) {
    var temperatures := s.log.temperatures;
    var n := |temperatures|;
    && n == |s.log.imuSamples| > 0
    && if s.pc.InImu? && !s.pc.imu.ImuSense? then
         n > 1 && s.main.temperature == temperatures[n - 1] && s.regs.imu.gyrTempRd == temperatures[n - 2]
       else s.regs.imu.gyrTempRd == temperatures[n - 1]
  }

  ghost predicate ImuInv(s: State) {
    Readings(s.regs.imu.rd, s.main.imu, s.log.imuSamples, 9, ImuStage(s.pc)) && TemperatureInv(s)
  }

  ghost predicate WheelInv(s: State) {
    Readings(s.regs.rwa.rd, s.main.wheels, s.log.wheelSamples, 6, WheelStage(s.pc))
  }

  ghost predicate VoltInv(s: State) {
    Readings(s.regs.ssa.voltages, s.main.volts, s.log.voltSamples, 20, VoltStage(s.pc))
  }

  /** A response carries the readings of one single update; but the temperature of an IMU response may be that of the update
      before, and the voltages may be cut together from two updates in a row. */
  ghost predicate Untorn(r: Response, log: Log) {
    match r
    case ImuReadings(rd, temperature) =>
      exists i :: SampledTogether(log, i, rd, temperature) || SampledInARow(log, i, rd, temperature)
    case WheelReadings(rd) => rd in log.wheelSamples
    case SunVector(v) => exists result :: result in log.sunResults && result.vec == v
    case Voltages(v) =>
      exists i, k :: CutTogether(log.voltSamples, i, k, v)
    case HavtTable(table) => table in log.tables
    case _ => true
  }

  predicate SampledTogether(log: Log, i: int, rd: seq<Float>, temperature: Float) {
    0 <= i < |log.imuSamples| && i < |log.temperatures| && log.imuSamples[i] == rd && log.temperatures[i] == temperature
  }

  /** The readings are of sample i, the temperature of the one before. */
  predicate SampledInARow(log: Log, i: int, rd: seq<Float>, temperature: Float) {
    && 0 < i < |log.imuSamples| && i <= |log.temperatures|
    && log.imuSamples[i] == rd && log.temperatures[i - 1] == temperature
  }

  /** The first k voltages are of sample i, the others of the one before. */
  predicate CutTogether(samples: seq<seq<Float>>, i: int, k: int, v: seq<Float>) {
    && 0 <= i < |samples| && |samples[i]| == 20 && 0 <= k <= 20
    && if k == 20 then v == samples[i]
       else i > 0 && |samples[i - 1]| == 20 && v == samples[i][..k] + samples[i - 1][k..]
  }

  ghost predicate ResponseInv(s: State) {
    && s.masked == MaskedAt(s.pc)
    && s.log.tables != [] && s.regs.havt.readTable == s.log.tables[|s.log.tables| - 1]
    && forall r | r in s.log.responses :: Untorn(r, s.log)
  }

  ghost predicate Inv(s: State) {
    MtrInv(s) && RwaInv(s) && HavtInv(s) && SunInv(s) && ImuInv(s) && WheelInv(s) && VoltInv(s) && ResponseInv(s)
  }

  // ----- What each part of the loop leaves alone -----

  predicate SameMtr(s: State, t: State) {
    t.regs.mtr == s.regs.mtr && t.log.mtrSent == s.log.mtrSent && t.log.mtrDone == s.log.mtrDone && t.main.mtr == s.main.mtr
  }

  predicate SameWheelCommands(s: State, t: State) {
    && t.regs.rwa.mode == s.regs.rwa.mode && t.regs.rwa.cmd == s.regs.rwa.cmd && t.regs.rwa.flag == s.regs.rwa.flag
    && t.log.rwaSent == s.log.rwaSent && t.log.rwaDone == s.log.rwaDone && t.main.rwa == s.main.rwa
  }

  predicate SameWheelReadings(s: State, t: State) {
    t.regs.rwa.rd == s.regs.rwa.rd && t.log.wheelSamples == s.log.wheelSamples && t.main.wheels == s.main.wheels
  }

  predicate SameTables(s: State, t: State) {
    && t.regs.havt.resetFlag == s.regs.havt.resetFlag && t.regs.havt.resetTable == s.regs.havt.resetTable
    && t.regs.havt.disableFlag == s.regs.havt.disableFlag && t.regs.havt.disableTable == s.regs.havt.disableTable
    && t.log.resetSent == s.log.resetSent && t.log.resetDone == s.log.resetDone
    && t.log.disableSent == s.log.disableSent && t.log.disableDone == s.log.disableDone
    && t.main.table == s.main.table && t.main.src == s.main.src
  }

  predicate SameSun(s: State, t: State) {
    && t.regs.ssa.mode == s.regs.ssa.mode && t.regs.ssa.sunVec == s.regs.ssa.sunVec
    && t.log.sunAccepted == s.log.sunAccepted && t.log.sunResults == s.log.sunResults && t.main.sun == s.main.sun
  }

  predicate SameImu(s: State, t: State) {
    && t.regs.imu.rd == s.regs.imu.rd && t.regs.imu.gyrTempRd == s.regs.imu.gyrTempRd
    && t.log.imuSamples == s.log.imuSamples && t.log.temperatures == s.log.temperatures
    && t.main.imu == s.main.imu && t.main.temperature == s.main.temperature
  }

  predicate SameVolts(s: State, t: State) {
    t.regs.ssa.voltages == s.regs.ssa.voltages && t.log.voltSamples == s.log.voltSamples && t.main.volts == s.main.volts
  }

  predicate SameReadTable(s: State, t: State) {
    t.regs.havt.readTable == s.regs.havt.readTable && t.log.tables == s.log.tables
  }

  lemma FrameImu(s: State, e: Sensors)
    requires s.pc.InImu?
    ensures var t := StepImu(s, e);
            && SameMtr(s, t) && SameWheelCommands(s, t) && SameWheelReadings(s, t)
            && SameTables(s, t) && SameSun(s, t) && SameVolts(s, t)
  {
  }

  lemma NextImu(s: State, e: Sensors)
    requires s.pc.InImu?
    ensures var t := StepImu(s, e);
            && (t.pc.InImu? || t.pc == InMtr(MtrActive)) && t.log.responses == s.log.responses && SameReadTable(s, t)
            && s.log.imuSamples <= t.log.imuSamples && s.log.temperatures <= t.log.temperatures
  {
  }

  lemma FrameMtr(s: State)
    requires s.pc.InMtr?
    ensures var t := StepMtr(s);
            && SameImu(s, t) && SameWheelCommands(s, t) && SameWheelReadings(s, t)
            && SameTables(s, t) && SameSun(s, t) && SameVolts(s, t)
            && (t.pc.InMtr? || t.pc == InRwa(RwaActive)) && t.log.responses == s.log.responses && SameReadTable(s, t)
  {
  }

  lemma FrameRwa(s: State, e: Sensors)
    requires s.pc.InRwa?
    ensures var t := StepRwa(s, e);
            && SameMtr(s, t) && SameImu(s, t) && SameTables(s, t) && SameSun(s, t) && SameVolts(s, t)
  {
  }

  lemma NextRwa(s: State, e: Sensors)
    requires s.pc.InRwa?
    ensures var t := StepRwa(s, e);
            && (t.pc.InRwa? || t.pc == InSsa(SsaSense)) && t.log.responses == s.log.responses && SameReadTable(s, t)
            && s.log.wheelSamples <= t.log.wheelSamples
  {
  }

  lemma FrameSsa(s: State, e: Sensors)
    requires s.pc.InSsa?
    ensures var t := StepSsa(s, e);
            && SameMtr(s, t) && SameImu(s, t) && SameTables(s, t) && SameWheelCommands(s, t) && SameWheelReadings(s, t)
  {
  }

  lemma NextSsa(s: State, e: Sensors)
    requires s.pc.InSsa?
    ensures var t := StepSsa(s, e);
            && (t.pc.InSsa? || t.pc == InHavt(HavtSense)) && t.log.responses == s.log.responses && SameReadTable(s, t)
            && s.log.sunResults <= t.log.sunResults && s.log.voltSamples <= t.log.voltSamples
  {
  }

  lemma FrameHavt(s: State, e: Sensors)
    requires s.pc.InHavt?
    ensures var t := StepHavt(s, e);
            && SameMtr(s, t) && SameImu(s, t) && SameSun(s, t) && SameVolts(s, t)
            && SameWheelCommands(s, t) && SameWheelReadings(s, t)
            && (t.pc.InHavt? || t.pc == InImu(ImuSense)) && t.log.responses == s.log.responses
            && (s.pc.havt.HavtSense? || SameReadTable(s, t)) && s.log.tables <= t.log.tables
            && (s.pc.havt.HavtSense? ==> t.log.tables == s.log.tables + [t.regs.havt.readTable])
  {
  }

  lemma FrameMain(s: State, e: Sensors)
    ensures var t := StepMain(s, e);
            && (!s.pc.InMtr? ==> SameMtr(s, t) && (t.pc.InMtr? ==> t.pc == InMtr(MtrActive)))
            && (!s.pc.InRwa? ==> SameWheelCommands(s, t) && SameWheelReadings(s, t)
                                 && (t.pc.InRwa? ==> t.pc == InRwa(RwaActive)))
            && (!s.pc.InHavt? ==> SameTables(s, t) && (t.pc.InHavt? ==> t.pc == InHavt(HavtSense)))
            && (!s.pc.InSsa? ==> SameSun(s, t) && SameVolts(s, t) && (t.pc.InSsa? ==> t.pc == InSsa(SsaSense)))
            && (!s.pc.InImu? ==> SameImu(s, t) && (t.pc.InImu? ==> t.pc == InImu(ImuSense)))
            && t.log.responses == s.log.responses
            && s.log.imuSamples <= t.log.imuSamples && s.log.temperatures <= t.log.temperatures
            && s.log.wheelSamples <= t.log.wheelSamples
            && s.log.sunResults <= t.log.sunResults && s.log.voltSamples <= t.log.voltSamples
            && (SameReadTable(s, t) || t.log.tables == s.log.tables + [t.regs.havt.readTable])
  {
    hide StepImu, StepMtr, StepRwa, StepSsa, StepHavt;
    match s.pc
    case InImu(_) =>
      FrameImu(s, e);
      NextImu(s, e);
    case InMtr(_) => FrameMtr(s);
    case InRwa(_) =>
      FrameRwa(s, e);
      NextRwa(s, e);
    case InSsa(_) =>
      FrameSsa(s, e);
      NextSsa(s, e);
    case InHavt(_) => FrameHavt(s, e);
  }

  // ----- Every step keeps the invariants -----

  lemma InitInv(s: State)
    requires Init(s)
    ensures Inv(s)
  {
  }

  lemma MtrInvStep(s: State, e: Sensors)
    requires s.pc.InMtr? && MtrInv(s)
    ensures MtrInv(StepMtr(s))
  {
  }

  lemma MtrInvMain(s: State, e: Sensors)
    requires MtrInv(s)
    ensures MtrInv(StepMain(s, e))
  {
    if s.pc.InMtr? {
      hide MtrInv, StepImu, StepMtr, StepRwa, StepSsa, StepHavt;
      MtrInvStep(s, e);
    } else {
      hide StepImu, StepMtr, StepRwa, StepSsa, StepHavt, StepMain;
      FrameMain(s, e);
    }
  }

  lemma DoneMore(done: seq<Copy>, c: Copy, sent: seq<WheelCommand>)
    requires WholeWheel(done, sent) && Rising(done)
    requires LastDone(done) < c.src < |sent| && c.cmd == sent[c.src].cmd
    ensures WholeWheel(done + [c], sent) && Rising(done + [c]) && LastDone(done + [c]) == c.src
  {
  }

  lemma RwaInvStep(s: State, e: Sensors)
    requires s.pc.InRwa? && RwaInv(s)
    ensures RwaInv(StepRwa(s, e))
  {
    var r, c := s.regs.rwa, s.main.rwa;
    match s.pc.rwa {
      case RwaRead(k) =>
        assert r.cmd[..k] + [r.cmd[k]] == r.cmd[..k + 1];
        assert r.cmd[..3] == r.cmd;
      case RwaActuate =>
        hide Rising, WholeWheel;
        DoneMore(s.log.rwaDone, c, s.log.rwaSent);
      case _ =>
        hide Rising, WholeWheel;
    }
  }

  lemma RwaInvMain(s: State, e: Sensors)
    requires RwaInv(s)
    ensures RwaInv(StepMain(s, e))
  {
    if s.pc.InRwa? {
      hide RwaInv, StepImu, StepMtr, StepRwa, StepSsa, StepHavt;
      RwaInvStep(s, e);
    } else {
      hide StepImu, StepMtr, StepRwa, StepSsa, StepHavt, StepMain;
      FrameMain(s, e);
    }
  }

  lemma ExecutedMore(done: seq<Executed>, x: Executed, sent: seq<nat>)
    requires ExecutedOnce(done, sent)
    requires LastExecuted(done) < x.src < |sent| && x.table == sent[x.src]
    ensures ExecutedOnce(done + [x], sent) && LastExecuted(done + [x]) == x.src
  {
    var longer := done + [x];
    forall i | 0 <= i < |longer|
      ensures ExecutedAt(longer, sent, i)
    {
      if i < |done| {
        assert ExecutedAt(done, sent, i);
      }
    }
  }

  lemma SentMore(done: seq<Executed>, sent: seq<nat>, table: nat)
    requires ExecutedOnce(done, sent) && LastExecuted(done) <= Newest(sent)
    ensures ExecutedOnce(done, sent + [table]) && LastExecuted(done) <= Newest(sent + [table])
  {
    var longer := sent + [table];
    forall i | 0 <= i < |done|
      ensures ExecutedAt(done, longer, i)
    {
      assert ExecutedAt(done, sent, i);
    }
  }

  lemma HavtInvStep(s: State, e: Sensors)
    requires s.pc.InHavt? && HavtInv(s)
    ensures HavtInv(StepHavt(s, e))
  {
    hide ExecutedOnce, LastExecuted;
    match s.pc.havt {
      case ResetExecute => ExecutedMore(s.log.resetDone, Executed(s.main.table, s.main.src), s.log.resetSent);
      case DisableExecute => ExecutedMore(s.log.disableDone, Executed(s.main.table, s.main.src), s.log.disableSent);
      case _ =>
    }
  }

  lemma HavtInvMain(s: State, e: Sensors)
    requires HavtInv(s)
    ensures HavtInv(StepMain(s, e))
  {
    if s.pc.InHavt? {
      hide HavtInv, StepImu, StepMtr, StepRwa, StepSsa, StepHavt;
      HavtInvStep(s, e);
    } else {
      hide StepImu, StepMtr, StepRwa, StepSsa, StepHavt, StepMain;
      FrameMain(s, e);
    }
  }

  lemma SunInvStep(s: State, e: Sensors)
    requires s.pc.InSsa? && SunInv(s) && e.Valid()
    ensures SunInv(StepSsa(s, e))
  {
  }

  lemma SunInvMain(s: State, e: Sensors)
    requires SunInv(s) && e.Valid()
    ensures SunInv(StepMain(s, e))
  {
    if s.pc.InSsa? {
      hide SunInv, StepImu, StepMtr, StepRwa, StepSsa, StepHavt;
      SunInvStep(s, e);
    } else {
      hide StepImu, StepMtr, StepRwa, StepSsa, StepHavt, StepMain;
      FrameMain(s, e);
    }
  }

  lemma ReadingsFetched(rd: seq<Float>, local: seq<Float>, samples: seq<seq<Float>>, len: nat, now: seq<Float>)
    requires Readings(rd, local, samples, len, Stored) && |now| == len > 0
    ensures Readings(rd, now, samples + [now], len, Fetched) && Readings(rd, now, samples + [now], len, Storing(0))
  {
    assert now[..0] + samples[|samples| - 1][0..] == samples[|samples| - 1];
  }

  lemma ReadingsMasked(rd: seq<Float>, local: seq<Float>, samples: seq<seq<Float>>, len: nat)
    requires Readings(rd, local, samples, len, Fetched) && len > 0
    ensures Readings(rd, local, samples, len, Storing(0))
  {
    assert local[..0] + rd[0..] == rd;
  }

  lemma ReadingsStore(rd: seq<Float>, local: seq<Float>, samples: seq<seq<Float>>, len: nat, k: nat)
    requires Readings(rd, local, samples, len, Storing(k))
    ensures k < |rd| && k < |local| && |local| == len
    ensures Readings(rd[k := local[k]], local, samples, len, if k + 1 == len then Stored else Storing(k + 1))
  {
    var n := |samples|;
    assert |samples[n - 1]| == len && |samples[n - 2]| == len;
    assert rd[k := local[k]] == local[..k + 1] + samples[n - 2][k + 1..];
  }

  lemma ImuInvStep(s: State, e: Sensors)
    requires s.pc.InImu? && ImuInv(s) && e.Valid()
    ensures ImuInv(StepImu(s, e))
  {
    hide Readings;
    var i, log := s.regs.imu, s.log;
    match s.pc.imu {
      case ImuSense => ReadingsFetched(i.rd, s.main.imu, log.imuSamples, 9, e.imu);
      case ImuMask => ReadingsMasked(i.rd, s.main.imu, log.imuSamples, 9);
      case ImuStore(k) => ReadingsStore(i.rd, s.main.imu, log.imuSamples, 9, k);
      case _ =>
    }
  }

  lemma ImuInvMain(s: State, e: Sensors)
    requires ImuInv(s) && e.Valid()
    ensures ImuInv(StepMain(s, e))
  {
    if s.pc.InImu? {
      hide ImuInv, StepImu, StepMtr, StepRwa, StepSsa, StepHavt;
      ImuInvStep(s, e);
    } else {
      hide StepImu, StepMtr, StepRwa, StepSsa, StepHavt, StepMain;
      FrameMain(s, e);
    }
  }

  lemma WheelInvStep(s: State, e: Sensors)
    requires s.pc.InRwa? && WheelInv(s) && e.Valid()
    ensures WheelInv(StepRwa(s, e))
  {
    hide Readings;
    var rd, log := s.regs.rwa.rd, s.log;
    match s.pc.rwa {
      case RwaSense => ReadingsFetched(rd, s.main.wheels, log.wheelSamples, 6, e.wheels);
      case RwaMask => ReadingsMasked(rd, s.main.wheels, log.wheelSamples, 6);
      case RwaStore(k) => ReadingsStore(rd, s.main.wheels, log.wheelSamples, 6, k);
      case _ =>
    }
  }

  lemma WheelInvMain(s: State, e: Sensors)
    requires WheelInv(s) && e.Valid()
    ensures WheelInv(StepMain(s, e))
  {
    if s.pc.InRwa? {
      hide WheelInv, StepImu, StepMtr, StepRwa, StepSsa, StepHavt;
      WheelInvStep(s, e);
    } else {
      hide StepImu, StepMtr, StepRwa, StepSsa, StepHavt, StepMain;
      FrameMain(s, e);
    }
  }

  lemma VoltInvStep(s: State, e: Sensors)
    requires s.pc.InSsa? && VoltInv(s) && e.Valid()
    ensures VoltInv(StepSsa(s, e))
  {
    hide Readings;
    var v, log := s.regs.ssa.voltages, s.log;
    match s.pc.ssa {
      case SsaSense => ReadingsFetched(v, s.main.volts, log.voltSamples, 20, e.volts);
      case SsaVoltage(k) => ReadingsStore(v, s.main.volts, log.voltSamples, 20, k);
      case _ =>
    }
  }

  lemma VoltInvMain(s: State, e: Sensors)
    requires VoltInv(s) && e.Valid()
    ensures VoltInv(StepMain(s, e))
  {
    if s.pc.InSsa? {
      hide VoltInv, StepImu, StepMtr, StepRwa, StepSsa, StepHavt;
      VoltInvStep(s, e);
    } else {
      hide StepImu, StepMtr, StepRwa, StepSsa, StepHavt, StepMain;
      FrameMain(s, e);
    }
  }

  lemma ResponseInvMain(s: State, e: Sensors)
    requires ResponseInv(s)
    ensures ResponseInv(StepMain(s, e))
  {
    var t := StepMain(s, e);
    FrameMain(s, e);
    forall r | r in t.log.responses
      ensures Untorn(r, t.log)
    {
      hide StepImu, StepMtr, StepRwa, StepSsa, StepHavt, StepMain;
      assert Untorn(r, s.log);
      LongerLog(r, s.log, t.log);
    }
  }

  lemma LongerLog(r: Response, log: Log, longer: Log)
    requires Untorn(r, log)
    requires log.imuSamples <= longer.imuSamples && log.temperatures <= longer.temperatures
    requires log.wheelSamples <= longer.wheelSamples
    requires log.sunResults <= longer.sunResults && log.voltSamples <= longer.voltSamples
    requires log.tables <= longer.tables
    ensures Untorn(r, longer)
  {
    match r {
      case SunVector(v) =>
        var result :| result in log.sunResults && result.vec == v;
        assert result in longer.sunResults;
      case ImuReadings(rd, temperature) =>
        var i :| SampledTogether(log, i, rd, temperature) || SampledInARow(log, i, rd, temperature);
        assert SampledTogether(longer, i, rd, temperature) || SampledInARow(longer, i, rd, temperature);
      case Voltages(v) =>
        var i, k :| CutTogether(log.voltSamples, i, k, v);
        assert longer.voltSamples[i] == log.voltSamples[i] && (i > 0 ==> longer.voltSamples[i - 1] == log.voltSamples[i - 1]);
        assert CutTogether(longer.voltSamples, i, k, v);
      case _ =>
    }
  }

  /** What a register write leaves alone. */
  lemma FrameWrite(s: State, op: Op)
    requires op.Valid()
    ensures var t, a := StepWrite(s, op), op.address;
            && t.pc == s.pc && t.main == s.main && t.masked == s.masked
            && (a != MTR_MODE && a != MTR_COMMAND && a != MTR_LIMIT ==> SameMtr(s, t))
            && (a != RWA_MODE && a != RWA_COMMAND ==> SameWheelCommands(s, t))
            && (a != HAVT_COMMAND_RESET && a != HAVT_COMMAND_DISABLE ==> SameTables(s, t))
            && (a != SSA_MODE ==> SameSun(s, t))
            && SameImu(s, t) && SameWheelReadings(s, t) && SameVolts(s, t) && SameReadTable(s, t)
            && t.regs.ssa.sunVec == s.regs.ssa.sunVec && t.log.sunResults == s.log.sunResults
            && t.log.responses == s.log.responses
  {
  }

  lemma WriteKeepsMtr(s: State, op: Op)
    requires op.Valid() && MtrInv(s)
    ensures MtrInv(StepWrite(s, op))
  {
    if op.address != MTR_MODE && op.address != MTR_COMMAND && op.address != MTR_LIMIT {
      hide StepWrite;
      FrameWrite(s, op);
    }
  }

  lemma WriteKeepsRwa(s: State, op: Op)
    requires op.Valid() && RwaInv(s)
    ensures RwaInv(StepWrite(s, op))
  {
    if op.address != RWA_MODE && op.address != RWA_COMMAND {
      hide StepWrite;
      FrameWrite(s, op);
    }
  }

  /** A new table command, whatever phase the loop is in. */
  lemma TableWritten(phase: Phase, flag: byte, table: nat, sent: seq<nat>, done: seq<Executed>, copy: nat, src: nat,
                     written: nat)
    requires TableInv(phase, flag, table, sent, done, copy, src)
    ensures TableInv(phase, UPDATED, written, sent + [written], done, copy, src)
  {
    SentMore(done, sent, written);
    hide ExecutedOnce, LastExecuted;
  }

  lemma WriteKeepsHavt(s: State, op: Op)
    requires op.Valid() && HavtInv(s)
    ensures HavtInv(StepWrite(s, op))
  {
    var reset, disable := op.address == HAVT_COMMAND_RESET, op.address == HAVT_COMMAND_DISABLE;
    if reset {
      SentMore(s.log.resetDone, s.log.resetSent, Word(op.data));
      hide ExecutedOnce, LastExecuted;
      TableWritten(ResetPhase(s.pc), s.regs.havt.resetFlag, s.regs.havt.resetTable, s.log.resetSent, s.log.resetDone,
                   s.main.table, s.main.src, Word(op.data));
      hide TableInv;
    } else if disable {
      SentMore(s.log.disableDone, s.log.disableSent, Word(op.data));
      hide ExecutedOnce, LastExecuted;
      TableWritten(DisablePhase(s.pc), s.regs.havt.disableFlag, s.regs.havt.disableTable, s.log.disableSent,
                   s.log.disableDone, s.main.table, s.main.src, Word(op.data));
      hide TableInv;
    } else {
      hide StepWrite, TableInv;
      FrameWrite(s, op);
    }
  }

  lemma WriteKeepsSun(s: State, op: Op)
    requires op.Valid() && SunInv(s)
    ensures SunInv(StepWrite(s, op))
  {
    FrameWrite(s, op);
    if op.address != SSA_MODE {
      hide StepWrite;
    }
  }

  lemma WriteKeepsReadings(s: State, op: Op)
    requires op.Valid() && ImuInv(s) && WheelInv(s) && VoltInv(s) && ResponseInv(s)
    ensures ImuInv(StepWrite(s, op)) && WheelInv(StepWrite(s, op)) && VoltInv(StepWrite(s, op)) && ResponseInv(StepWrite(s, op))
  {
    hide StepWrite, Untorn;
    FrameWrite(s, op);
    var t := StepWrite(s, op);
    forall r | r in t.log.responses
      ensures Untorn(r, t.log)
    {
      assert Untorn(r, s.log);
      LongerLog(r, s.log, t.log);
    }
  }

  lemma {:induction false} WritesKeepInv(s: State, ops: seq<Op>)
    requires Inv(s) && forall op | op in ops :: op.Valid()
    ensures Inv(StepWrites(s, ops))
    decreases |ops|
  {
    hide MtrInv, RwaInv, HavtInv, SunInv, ImuInv, WheelInv, VoltInv, ResponseInv, StepWrite;
    if ops != [] {
      WriteKeepsMtr(s, ops[0]);
      WriteKeepsRwa(s, ops[0]);
      WriteKeepsHavt(s, ops[0]);
      WriteKeepsSun(s, ops[0]);
      WriteKeepsReadings(s, ops[0]);
      WritesKeepInv(StepWrite(s, ops[0]), ops[1..]);
    }
  }

  /** A response is taken from registers that hold one whole update, because the handler cannot interrupt a masked block. */
  lemma RequestKeepsInv(s: State)
    requires Inv(s)
    ensures Inv(Step(s, Request))
  {
    var t := Step(s, Request);
    if !s.masked {
      forall r | r in t.log.responses
        ensures Untorn(r, t.log)
      {
        if r in s.log.responses {
          assert Untorn(r, s.log);
          LongerLog(r, s.log, t.log);
        } else {
          UntornNow(s);
          LongerLog(r, s.log, t.log);
        }
      }
    }
    assert ResponseInv(t);
    OnlyResponsesChanged(s, t);
  }

  lemma UntornNow(s: State)
    requires SunInv(s) && ImuInv(s) && WheelInv(s) && VoltInv(s) && ResponseInv(s) && !s.masked
    ensures Untorn(Respond(s.regs), s.log)
  {
    hide SunInv, ImuInv, WheelInv, VoltInv;
    match Respond(s.regs) {
      case ImuReadings(_, _) => var i := ImuNow(s);
      case Voltages(_) => VoltsNow(s);
      case SunVector(_) => SunNow(s);
      case WheelReadings(_) => WheelsNow(s);
      case _ =>
    }
  }

  lemma SunNow(s: State)
    requires SunInv(s) && !s.masked && s.masked == MaskedAt(s.pc)
    ensures exists result :: result in s.log.sunResults && result.vec == s.regs.ssa.sunVec
  {
    assert s.log.sunResults[|s.log.sunResults| - 1] in s.log.sunResults;
  }

  lemma WheelsNow(s: State)
    requires WheelInv(s) && !s.masked && s.masked == MaskedAt(s.pc)
    ensures s.regs.rwa.rd in s.log.wheelSamples
  {
  }

  /** Between the masked block and the store of the temperature, readings and temperature are of two updates; the program
      counter tells exactly where. */
  predicate TemperatureIsLate(pc: Pc) {
    pc == InImu(ImuMag1) || pc == InImu(ImuMag2) || pc == InImu(ImuTemperature)
  }

  /** What an IMU response shows as sample i, by where the main loop stands: one whole sample, or the readings of one with
      the temperature of the one before. */
  lemma ImuNow(s: State) returns (i: nat)
    requires ImuInv(s) && !s.masked && s.masked == MaskedAt(s.pc)
    ensures if TemperatureIsLate(s.pc) then SampledInARow(s.log, i, s.regs.imu.rd, s.regs.imu.gyrTempRd)
            else SampledTogether(s.log, i, s.regs.imu.rd, s.regs.imu.gyrTempRd)
  {
    i := |s.log.imuSamples| - if s.pc == InImu(ImuMask) then 2 else 1;
  }

  /** While voltage k is due, the first k are new and the others old; everywhere else all are of one sample. */
  lemma VoltsNow(s: State)
    requires VoltInv(s)
    ensures var samples := s.log.voltSamples;
            match s.pc
            case InSsa(SsaVoltage(k)) => k < 20 && CutTogether(samples, |samples| - 1, k, s.regs.ssa.voltages)
            case _ => CutTogether(samples, |samples| - 1, 20, s.regs.ssa.voltages)
  {
  }

  lemma OnlyResponsesChanged(s: State, t: State)
    requires Inv(s) && ResponseInv(t)
    requires t == s.(log := s.log.(responses := t.log.responses))
    ensures Inv(t)
  {
  }

  lemma StepKeepsInv(s: State, e: Event)
    requires Inv(s) && e.Valid()
    ensures Inv(Step(s, e))
  {
    hide MtrInv, RwaInv, HavtInv, SunInv, ImuInv, WheelInv, VoltInv, ResponseInv, StepMain, StepWrites;
    match e
    case Main(sensors) =>
      MtrInvMain(s, sensors);
      RwaInvMain(s, sensors);
      HavtInvMain(s, sensors);
      SunInvMain(s, sensors);
      ImuInvMain(s, sensors);
      WheelInvMain(s, sensors);
      VoltInvMain(s, sensors);
      ResponseInvMain(s, sensors);
    case Message(bytes) => WritesKeepInv(s, Decode(bytes));
    case Request => RequestKeepsInv(s);
  }

  lemma {:induction false} RunKeepsInv(s: State, events: seq<Event>)
    requires Init(s) && forall e | e in events :: e.Valid()
    ensures Inv(Run(s, events))
    decreases |events|
  {
    hide Inv, Init, Step;
    if events == [] {
      InitInv(s);
    } else {
      RunKeepsInv(s, events[..|events| - 1]);
      StepKeepsInv(Run(s, events[..|events| - 1]), events[|events| - 1]);
    }
  }
}
