/** What the shared-register protocol guarantees over every run, in terms of the messages sent and the commands acted on. */
module CommandSafety {
  import opened AdcsRegisters
  import opened CommandProtocol
  import opened MainLoop

  ghost predicate ValidEvents(events: seq<Event>) {
    forall e | e in events :: e.Valid()
  }

  /** The write `op` is one of the writes of a message of the run. */
  ghost predicate WrittenBy(op: Op, events: seq<Event>) {
    exists i :: 0 <= i < |events| && events[i].Message? && op in Decode(events[i].bytes)
  }

  ghost predicate MtrOrigin(v: seq<Float>, events: seq<Event>) {
    exists op :: WrittenBy(op, events) && op.Valid() && op.address == MTR_COMMAND && v == Vector(op.data, Moment)
  }

  ghost predicate WheelOrigin(c: WheelCommand, events: seq<Event>) {
    exists op :: WrittenBy(op, events) && op.Valid() && op.address == RWA_COMMAND
                 && ((c.mode == RWA_ACCEL_CTRL && c.cmd == Vector(op.data, Torque))
                     || (c.mode == RWA_SPEED_CTRL && c.cmd == Vector(op.data, SpeedCommand)))
  }

  /** Every command of the log, after the initial register content, comes from one write of one message. */
  ghost predicate Origins(s: State, s0: State, events: seq<Event>) {
    && |s.log.mtrSent| > 0 && s.log.mtrSent[0] == s0.regs.mtr.cmd
    && |s.log.rwaSent| > 0 && s.log.rwaSent[0].cmd == s0.regs.rwa.cmd
    && (forall i | 1 <= i < |s.log.mtrSent| :: MtrOrigin(s.log.mtrSent[i], events))
    && (forall i | 1 <= i < |s.log.rwaSent| :: WheelOrigin(s.log.rwaSent[i], events))
  }

  lemma LongerRun(op: Op, events: seq<Event>, longer: seq<Event>)
    requires WrittenBy(op, events) && events <= longer
    ensures WrittenBy(op, longer)
  {
    var i :| 0 <= i < |events| && events[i].Message? && op in Decode(events[i].bytes);
    assert longer[i] == events[i];
  }

  lemma OriginsOfLongerRun(s: State, s0: State, events: seq<Event>, longer: seq<Event>)
    requires Origins(s, s0, events) && events <= longer
    ensures Origins(s, s0, longer)
  {
    forall i | 1 <= i < |s.log.mtrSent|
      ensures MtrOrigin(s.log.mtrSent[i], longer)
    {
      assert MtrOrigin(s.log.mtrSent[i], events);
      var op :| WrittenBy(op, events) && op.Valid() && op.address == MTR_COMMAND && s.log.mtrSent[i] == Vector(op.data, Moment);
      LongerRun(op, events, longer);
    }
    forall i | 1 <= i < |s.log.rwaSent|
      ensures WheelOrigin(s.log.rwaSent[i], longer)
    {
      var c := s.log.rwaSent[i];
      assert WheelOrigin(c, events);
      var op :| WrittenBy(op, events) && op.Valid() && op.address == RWA_COMMAND
                && ((c.mode == RWA_ACCEL_CTRL && c.cmd == Vector(op.data, Torque))
                    || (c.mode == RWA_SPEED_CTRL && c.cmd == Vector(op.data, SpeedCommand)));
      LongerRun(op, events, longer);
    }
  }

  lemma SentByWrite(s: State, op: Op)
    requires op.Valid()
    ensures var t := StepWrite(s, op);
            && t.log.mtrSent == s.log.mtrSent + (if op.address == MTR_COMMAND then [Vector(op.data, Moment)] else [])
            && t.log.rwaSent == s.log.rwaSent
                                + (if op.address != RWA_COMMAND then []
                                   else if s.regs.rwa.mode == RWA_ACCEL_CTRL then
                                     [WheelCommand(RWA_ACCEL_CTRL, Vector(op.data, Torque))]
                                   else if s.regs.rwa.mode == RWA_SPEED_CTRL then
                                     [WheelCommand(RWA_SPEED_CTRL, Vector(op.data, SpeedCommand))]
                                   else [])
  {
  }

  lemma WriteHasOrigin(s: State, s0: State, op: Op, events: seq<Event>)
    requires op.Valid() && WrittenBy(op, events) && Origins(s, s0, events)
    ensures Origins(StepWrite(s, op), s0, events)
  {
    hide StepWrite, WrittenBy;
    SentByWrite(s, op);
    if op.address == MTR_COMMAND {
      assert MtrOrigin(Vector(op.data, Moment), events);
      hide MtrOrigin;
    } else if op.address == RWA_COMMAND {
      assert WheelOrigin(WheelCommand(RWA_ACCEL_CTRL, Vector(op.data, Torque)), events);
      assert WheelOrigin(WheelCommand(RWA_SPEED_CTRL, Vector(op.data, SpeedCommand)), events);
      hide WheelOrigin;
    }
  }

  lemma {:induction false} WritesHaveOrigin(s: State, s0: State, ops: seq<Op>, events: seq<Event>)
    requires forall op | op in ops :: op.Valid() && WrittenBy(op, events)
    requires Origins(s, s0, events)
    ensures Origins(StepWrites(s, ops), s0, events)
    decreases |ops|
  {
    hide Origins, StepWrite, WrittenBy;
    if ops != [] {
      WriteHasOrigin(s, s0, ops[0], events);
      WritesHaveOrigin(StepWrite(s, ops[0]), s0, ops[1..], events);
    }
  }

  lemma {:induction false} RunHasOrigins(s0: State, events: seq<Event>)
    requires Init(s0)
    ensures Origins(Run(s0, events), s0, events)
    decreases |events|
  {
    if events != [] {
      var n := |events| - 1;
      var s, e := Run(s0, events[..n]), events[n];
      RunHasOrigins(s0, events[..n]);
      hide Init;
      OriginsOfLongerRun(s, s0, events[..n], events);
      if e.Message? {
        hide Origins, StepWrites;
        forall op | op in Decode(e.bytes)
          ensures WrittenBy(op, events)
        {
          assert events[n].Message?;
        }
        WritesHaveOrigin(s, s0, Decode(e.bytes), events);
      } else if e.Main? {
        MainSendsNothing(s, e.sensors);
      }
    }
  }

  lemma MainSendsNothing(s: State, e: Sensors)
    ensures StepMain(s, e).log.mtrSent == s.log.mtrSent && StepMain(s, e).log.rwaSent == s.log.rwaSent
  {
  }

  // ----- Where the device tables come from -----

  /** A message to a table register, and the table the handler makes of it: four bytes, missing ones read as 0xFF. */
  predicate SentTable(e: Event, a: byte, table: nat) {
    e.Message? && |e.bytes| >= 2 && e.bytes[0] == a && table == Word(Taken(e.bytes[1..], 4))
  }

  ghost predicate TableOrigin(table: nat, a: byte, events: seq<Event>) {
    exists i :: 0 <= i < |events| && SentTable(events[i], a, table)
  }

  ghost predicate TableOrigins(sent: seq<nat>, a: byte, events: seq<Event>) {
    sent != [] && forall i | 1 <= i < |sent| :: TableOrigin(sent[i], a, events)
  }

  lemma TableOriginsMore(sent: seq<nat>, a: byte, events: seq<Event>, e: Event)
    requires TableOrigins(sent, a, events)
    ensures TableOrigins(sent, a, events + [e])
    ensures forall table | SentTable(e, a, table) :: TableOrigins(sent + [table], a, events + [e])
  {
    var longer := events + [e];
    forall i | 1 <= i < |sent|
      ensures TableOrigin(sent[i], a, longer)
    {
      assert TableOrigin(sent[i], a, events);
      var j :| 0 <= j < |events| && SentTable(events[j], a, sent[i]);
      assert longer[j] == events[j];
    }
    forall table | SentTable(e, a, table)
      ensures TableOrigins(sent + [table], a, longer)
    {
      assert SentTable(longer[|events|], a, table);
      assert TableOrigin(table, a, longer);
    }
  }

  /** The tables among some writes. */
  function TablesOf(a: byte, ops: seq<Op>): seq<nat>
    requires a == HAVT_COMMAND_RESET || a == HAVT_COMMAND_DISABLE
    requires forall op | op in ops :: op.Valid()
    decreases |ops|
  {
    if ops == [] then []
    else
      assert ops[0].Valid();
      (if ops[0].address == a then [Word(ops[0].data)] else []) + TablesOf(a, ops[1..])
  }

  lemma {:induction false} NoTables(t: byte, a: byte, data: seq<byte>)
    requires t == HAVT_COMMAND_RESET || t == HAVT_COMMAND_DISABLE
    requires a != t
    ensures TablesOf(t, Burst(a, data)) == []
    decreases 256 - a
  {
    if Width(a) > 0 && |data| >= Needs(a) {
      var op := Op(a, Taken(data, Width(a)));
      var rest := if FallsThrough(a) then Burst(a + 1, Left(data, Width(a))) else [];
      assert Burst(a, data) == [op] + rest && ([op] + rest)[1..] == rest;
      if FallsThrough(a) {
        NoTables(t, a + 1, Left(data, Width(a)));
      }
    }
  }

  /** A message makes one table command at most, from its own bytes. */
  lemma TablesOfMessage(t: byte, m: seq<byte>)
    requires t == HAVT_COMMAND_RESET || t == HAVT_COMMAND_DISABLE
    ensures TablesOf(t, Decode(m)) == if |m| >= 2 && m[0] == t then [Word(Taken(m[1..], 4))] else []
  {
    if m != [] {
      if m[0] == t {
        if |m| >= 2 {
          var op := Op(t, Taken(m[1..], 4));
          assert Decode(m) == [op] && [op][1..] == [];
        }
      } else {
        NoTables(t, m[0], m[1..]);
      }
    }
  }

  lemma TablesByWrite(s: State, op: Op)
    requires op.Valid()
    ensures var t := StepWrite(s, op);
            && t.log.resetSent == s.log.resetSent + (if op.address == HAVT_COMMAND_RESET then [Word(op.data)] else [])
            && t.log.disableSent == s.log.disableSent + (if op.address == HAVT_COMMAND_DISABLE then [Word(op.data)] else [])
  {
  }

  lemma {:induction false} TablesByWrites(s: State, ops: seq<Op>)
    requires forall op | op in ops :: op.Valid()
    ensures var t := StepWrites(s, ops);
            && t.log.resetSent == s.log.resetSent + TablesOf(HAVT_COMMAND_RESET, ops)
            && t.log.disableSent == s.log.disableSent + TablesOf(HAVT_COMMAND_DISABLE, ops)
    decreases |ops|
  {
    hide StepWrite;
    if ops != [] {
      TablesByWrite(s, ops[0]);
      TablesByWrites(StepWrite(s, ops[0]), ops[1..]);
    }
  }

  lemma MainSendsNoTable(s: State, e: Sensors)
    ensures StepMain(s, e).log.resetSent == s.log.resetSent && StepMain(s, e).log.disableSent == s.log.disableSent
  {
  }

  /** Every table of the log, after the initial register content, was made from one message. */
  lemma {:induction false} RunHasTableOrigins(s0: State, events: seq<Event>)
    requires Init(s0)
    ensures TableOrigins(Run(s0, events).log.resetSent, HAVT_COMMAND_RESET, events)
    ensures TableOrigins(Run(s0, events).log.disableSent, HAVT_COMMAND_DISABLE, events)
    decreases |events|
  {
    if events != [] {
      var before, e := events[..|events| - 1], events[|events| - 1];
      RunHasTableOrigins(s0, before);
      TableOriginsStep(s0, before, e);
      assert events == before + [e];
    }
  }

  lemma TableOriginsStep(s0: State, before: seq<Event>, e: Event)
    requires TableOrigins(Run(s0, before).log.resetSent, HAVT_COMMAND_RESET, before)
    requires TableOrigins(Run(s0, before).log.disableSent, HAVT_COMMAND_DISABLE, before)
    ensures TableOrigins(Run(s0, before + [e]).log.resetSent, HAVT_COMMAND_RESET, before + [e])
    ensures TableOrigins(Run(s0, before + [e]).log.disableSent, HAVT_COMMAND_DISABLE, before + [e])
  {
    hide Run, TableOrigins, StepMain, StepWrites;
    var s := Run(s0, before);
    RunMore(s0, before, e);
    TableOriginsMore(s.log.resetSent, HAVT_COMMAND_RESET, before, e);
    TableOriginsMore(s.log.disableSent, HAVT_COMMAND_DISABLE, before, e);
    match e
    case Main(sensors) => MainSendsNoTable(s, sensors);
    case Message(bytes) =>
      if !s.masked {
        TablesByWrites(s, Decode(bytes));
        TablesOfMessage(HAVT_COMMAND_RESET, bytes);
        TablesOfMessage(HAVT_COMMAND_DISABLE, bytes);
        var r, d := s.log.resetSent, s.log.disableSent;
        assert r + [] == r && d + [] == d;
      }
    case Request =>
  }

  // ----- Guarantees -----

  /** The main loop is between clearing the flag and acting on the command it copied. */
  predicate CopyingMtr(pc: Pc) {
    pc.InMtr? && (pc.mtr.MtrMode? || pc.mtr.MtrRead? || pc.mtr.MtrCheck? || pc.mtr.MtrActuate?)
  }

  predicate CopyingRwa(pc: Pc) {
    pc.InRwa? && (pc.rwa.RwaMode? || pc.rwa.RwaRead? || pc.rwa.RwaCheck? || pc.rwa.RwaActuate?)
  }

  lemma CommandFacts(s: State)
    requires Inv(s)
    ensures Whole(s.log.mtrDone, s.log.mtrSent)
    ensures WholeWheel(s.log.rwaDone, s.log.rwaSent) && Rising(s.log.rwaDone)
  {
  }

  /** Every vector the magnetorquers are driven with is the initial one or was sent whole, in one write. */
  lemma MtrVectorsAreWhole(s0: State, events: seq<Event>)
    requires Init(s0) && ValidEvents(events)
    ensures forall c | c in Run(s0, events).log.mtrDone :: c.cmd == s0.regs.mtr.cmd || MtrOrigin(c.cmd, events)
  {
    hide Init, Inv, MtrOrigin, WheelOrigin;
    RunKeepsInv(s0, events);
    RunHasOrigins(s0, events);
    var log := Run(s0, events).log;
    CommandFacts(Run(s0, events));
    forall c | c in log.mtrDone
      ensures c.cmd == s0.regs.mtr.cmd || MtrOrigin(c.cmd, events)
    {
      assert c.cmd == log.mtrSent[c.src];
    }
  }

  /** The newest magnetorquer vector is never lost: unless the loop is just copying it, either its flag is still up or
      it is the last one acted on (or none was ever sent). */
  lemma MtrNewestIsNotLost(s0: State, events: seq<Event>)
    requires Init(s0) && ValidEvents(events)
    ensures var s := Run(s0, events);
            !CopyingMtr(s.pc) && s.regs.mtr.flag != UPDATED && |s.log.mtrSent| > 1 ==>
              s.log.mtrDone != [] && s.log.mtrDone[|s.log.mtrDone| - 1].cmd == s.log.mtrSent[|s.log.mtrSent| - 1]
  {
    RunKeepsInv(s0, events);
  }

  /** Every vector the wheels are driven with is the initial one or was sent whole, no command is acted on twice, and the
      initial content of the register never is. */
  lemma WheelVectorsAreWhole(s0: State, events: seq<Event>)
    requires Init(s0) && ValidEvents(events)
    ensures var log := Run(s0, events).log;
            && (forall c | c in log.rwaDone ::
                  1 <= c.src < |log.rwaSent| && c.cmd == log.rwaSent[c.src].cmd && WheelOrigin(log.rwaSent[c.src], events))
            && (forall i, j | 0 <= i < j < |log.rwaDone| :: log.rwaDone[i].src < log.rwaDone[j].src)
  {
    hide Init, Inv, MtrOrigin, WheelOrigin;
    RunKeepsInv(s0, events);
    RunHasOrigins(s0, events);
    var log := Run(s0, events).log;
    CommandFacts(Run(s0, events));
    forall i, j | 0 <= i < j < |log.rwaDone|
      ensures log.rwaDone[i].src < log.rwaDone[j].src
    {
      RisingTransitive(log.rwaDone, i, j);
    }
    forall c | c in log.rwaDone
      ensures 1 <= c.src < |log.rwaSent| && c.cmd == log.rwaSent[c.src].cmd && WheelOrigin(log.rwaSent[c.src], events)
    {
      var i :| 0 <= i < |log.rwaDone| && log.rwaDone[i] == c;
      RisingIsPositive(log.rwaDone, i);
    }
  }

  lemma RisingIsPositive(done: seq<Copy>, i: nat)
    requires Rising(done) && i < |done|
    ensures done[i].src > 0
  {
    if i == 0 {
      assert done[0].src > 0;
    } else {
      assert done[i].src > done[i - 1].src;
    }
  }

  lemma {:induction false} RisingTransitive(done: seq<Copy>, i: nat, j: nat)
    requires Rising(done) && i < j < |done|
    ensures done[i].src < done[j].src
    decreases j
  {
    if i < j - 1 {
      RisingTransitive(done, i, j - 1);
    }
    assert done[j].src > done[j - 1].src;
  }

  /** The newest wheel command is never lost. */
  lemma WheelNewestIsNotLost(s0: State, events: seq<Event>)
    requires Init(s0) && ValidEvents(events)
    ensures var s := Run(s0, events);
            !CopyingRwa(s.pc) && |s.log.rwaSent| > 1 ==>
              (s.regs.rwa.flag != UPDATED
               <==> s.log.rwaDone != [] && s.log.rwaDone[|s.log.rwaDone| - 1].src == |s.log.rwaSent| - 1)
  {
    RunKeepsInv(s0, events);
  }

  /** Each device table command is executed at most once, in order, and is the table of one message to its register. */
  lemma TablesExecutedAtMostOnce(s0: State, events: seq<Event>)
    requires Init(s0) && ValidEvents(events)
    ensures var log := Run(s0, events).log;
            && (forall x | x in log.resetDone ::
                  1 <= x.src < |log.resetSent| && x.table == log.resetSent[x.src]
                  && TableOrigin(x.table, HAVT_COMMAND_RESET, events))
            && (forall i, j | 0 <= i < j < |log.resetDone| :: log.resetDone[i].src < log.resetDone[j].src)
            && (forall x | x in log.disableDone ::
                  1 <= x.src < |log.disableSent| && x.table == log.disableSent[x.src]
                  && TableOrigin(x.table, HAVT_COMMAND_DISABLE, events))
            && (forall i, j | 0 <= i < j < |log.disableDone| :: log.disableDone[i].src < log.disableDone[j].src)
  {
    RunKeepsInv(s0, events);
    RunHasTableOrigins(s0, events);
    hide Run, Init, TableOrigin;
    var log := Run(s0, events).log;
    ExecutedRise(log.resetDone, log.resetSent);
    ExecutedRise(log.disableDone, log.disableSent);
  }

  /** A table is the four bytes that were sent exactly when the message has them; of a shorter one, missing bytes are made
      up. */
  lemma TableIsSentIff(m: seq<byte>)
    requires |m| >= 2 && (m[0] == HAVT_COMMAND_RESET || m[0] == HAVT_COMMAND_DISABLE)
    ensures OpBytes(Decode(m)) <= m[1..] <==> |m| >= 5
    ensures |m| >= 5 ==> Word(Taken(m[1..], 4)) == Word(m[1..5])
  {
    DecodeIsSentIff(m);
  }

  lemma ExecutedRise(done: seq<Executed>, sent: seq<nat>)
    requires ExecutedOnce(done, sent)
    ensures forall x | x in done :: 1 <= x.src < |sent| && x.table == sent[x.src]
    ensures forall i, j | 0 <= i < j < |done| :: done[i].src < done[j].src
  {
    forall x | x in done
      ensures 1 <= x.src < |sent| && x.table == sent[x.src]
    {
      var i :| 0 <= i < |done| && done[i] == x;
      assert ExecutedAt(done, sent, i);
    }
    forall i, j | 0 <= i < j < |done|
      ensures done[i].src < done[j].src
    {
      ExecutedTransitive(done, sent, i, j);
    }
  }

  lemma {:induction false} ExecutedTransitive(done: seq<Executed>, sent: seq<nat>, i: nat, j: nat)
    requires ExecutedOnce(done, sent) && i < j < |done|
    ensures done[i].src < done[j].src
    decreases j
  {
    if i < j - 1 {
      ExecutedTransitive(done, sent, i, j - 1);
    }
    assert ExecutedAt(done, sent, j);
  }

  /** Unless the loop is busy with it, a table command whose flag is down has been executed. */
  lemma TablesAreNotLost(s0: State, events: seq<Event>)
    requires Init(s0) && ValidEvents(events)
    ensures var s := Run(s0, events);
            && (ResetPhase(s.pc) == Idle ==>
                  (s.regs.havt.resetFlag == OUTDATED <==> LastExecuted(s.log.resetDone) == |s.log.resetSent| - 1))
            && (DisablePhase(s.pc) == Idle ==>
                  (s.regs.havt.disableFlag == OUTDATED <==> LastExecuted(s.log.disableDone) == |s.log.disableSent| - 1))
  {
    RunKeepsInv(s0, events);
  }

  /** Requests for a sun vector and calculations balance: each accepted request is answered by exactly one calculation. */
  lemma SunRequestsBalance(s0: State, events: seq<Event>)
    requires Init(s0) && ValidEvents(events)
    ensures var s := Run(s0, events);
            s.log.sunAccepted == (|s.log.sunResults| - 1) + if s.regs.ssa.mode == SSA_IN_PROGRESS then 1 else 0
  {
    RunKeepsInv(s0, events);
  }

  /** No response mixes two updates. */
  lemma ResponsesAreUntorn(s0: State, events: seq<Event>)
    requires Init(s0) && ValidEvents(events)
    ensures var log := Run(s0, events).log; forall r | r in log.responses :: Untorn(r, log)
  {
    RunKeepsInv(s0, events);
  }

  // ----- The sun sensor -----

  /** Messages ask for a sun vector or leave the sun sensor mode alone. */
  predicate SunRequestOnly(e: Event) {
    e.Message? && |e.bytes| >= 2 && e.bytes[0] == SSA_MODE ==> e.bytes[1] == SSA_IN_PROGRESS
  }

  /** Outside the masked block, a mode other than in-progress belongs to the sun vector beside it. */
  ghost predicate SunPair(s: State) {
    var results := s.log.sunResults;
    && SunInv(s)
    && (s.regs.ssa.mode != SSA_IN_PROGRESS ==> s.regs.ssa.mode == results[|results| - 1].mode)
    && (s.regs.ssa.mode == SSA_IN_PROGRESS || s.regs.ssa.mode == SSA_COMPLETE || s.regs.ssa.mode == SSA_FAILURE)
    && (s.pc.InSsa? && (s.pc.ssa.SsaMask? || s.pc.ssa.SsaStore? || s.pc.ssa.SsaSetMode?) ==>
          s.main.sun.mode == SSA_COMPLETE || s.main.sun.mode == SSA_FAILURE)
  }

  lemma SunPairMain(s: State, e: Sensors)
    requires SunPair(s) && e.Valid()
    ensures SunPair(StepMain(s, e))
  {
    SunInvMain(s, e);
    if !s.pc.InSsa? {
      hide StepImu, StepMtr, StepRwa, StepSsa, StepHavt, StepMain;
      FrameMain(s, e);
    }
  }

  lemma {:induction false} SunPairWrites(s: State, ops: seq<Op>)
    requires SunPair(s)
    requires forall op | op in ops :: op.Valid() && (op.address == SSA_MODE ==> op.data[0] == SSA_IN_PROGRESS)
    ensures SunPair(StepWrites(s, ops))
    decreases |ops|
  {
    if ops != [] {
      FrameWrite(s, ops[0]);
      WriteKeepsSun(s, ops[0]);
      assert SunPair(StepWrite(s, ops[0])) by {
        if ops[0].address != SSA_MODE {
          hide StepWrite;
        }
      }
      hide StepWrite;
      SunPairWrites(StepWrite(s, ops[0]), ops[1..]);
    }
  }

  lemma {:induction false} SunOps(a: byte, data: seq<byte>)
    requires a == SSA_MODE && |data| > 0 ==> data[0] == SSA_IN_PROGRESS
    ensures forall op | op in Burst(a, data) :: op.address == SSA_MODE ==> op.data[0] == SSA_IN_PROGRESS
    decreases 256 - a
  {
    if Width(a) > 0 && |data| >= Needs(a) && FallsThrough(a) {
      SunOps(a + 1, Left(data, Width(a)));
    }
  }

  lemma {:induction false} SunPairRun(s0: State, events: seq<Event>)
    requires Init(s0) && forall e | e in events :: e.Valid() && SunRequestOnly(e)
    ensures SunPair(Run(s0, events))
    decreases |events|
  {
    if events == [] {
      InitInv(s0);
    } else {
      hide Init, Step, SunPair, SunRequestOnly;
      SunPairRun(s0, events[..|events| - 1]);
      assert events[|events| - 1] in events;
      SunPairStep(Run(s0, events[..|events| - 1]), events[|events| - 1]);
    }
  }

  lemma SunPairStep(s: State, e: Event)
    requires SunPair(s) && e.Valid() && SunRequestOnly(e)
    ensures SunPair(Step(s, e))
  {
    hide StepMain, StepWrites;
    match e
    case Main(sensors) =>
      hide SunPair;
      SunPairMain(s, sensors);
    case Message(bytes) =>
      hide SunPair;
      SunPairMessage(s, bytes);
    case Request =>
  }

  lemma SunPairMessage(s: State, bytes: seq<byte>)
    requires SunPair(s) && SunRequestOnly(Message(bytes))
    ensures SunPair(StepWrites(s, Decode(bytes)))
  {
    hide SunPair, StepWrites;
    if bytes != [] {
      SunOps(bytes[0], bytes[1..]);
    }
    SunPairWrites(s, Decode(bytes));
  }

  /** With requests only, whenever the bus can see it, a finished mode and the sun vector are of one calculation. */
  lemma SunVectorMatchesMode(s0: State, events: seq<Event>)
    requires Init(s0) && forall e | e in events :: e.Valid() && SunRequestOnly(e)
    ensures var s := Run(s0, events);
            !s.masked && s.regs.ssa.mode != SSA_IN_PROGRESS ==>
              SunResult(s.regs.ssa.sunVec, s.regs.ssa.mode) in s.log.sunResults
  {
    SunPairRun(s0, events);
    RunKeepsInv(s0, events);
    hide Init;
    var s := Run(s0, events);
    assert s.log.sunResults[|s.log.sunResults| - 1] in s.log.sunResults;
  }

  /** Any other mode a message writes is final: from a reachable state on, whatever happens, the handler refuses all later
      writes, the loop never leaves the mode, and no sun vector is asked for or calculated again. */
  lemma {:induction false} UnknownSunModeIsFinal(s: State, events: seq<Event>)
    requires Inv(s) && ValidEvents(events) && s.regs.ssa.mode > SSA_COMPLETE
    ensures var t := Run(s, events);
            && Inv(t) && t.regs.ssa.mode == s.regs.ssa.mode
            && t.log.sunAccepted == s.log.sunAccepted && t.log.sunResults == s.log.sunResults
    decreases |events|
  {
    hide Inv, Step;
    if events != [] {
      var before, e := events[..|events| - 1], events[|events| - 1];
      UnknownSunModeIsFinal(s, before);
      assert e in events;
      StepKeepsInv(Run(s, before), e);
      UnknownSunModeStays(Run(s, before), e);
    }
  }

  lemma UnknownSunModeStays(s: State, e: Event)
    requires Inv(s) && s.regs.ssa.mode > SSA_COMPLETE
    ensures var t := Step(s, e);
            && t.regs.ssa.mode == s.regs.ssa.mode
            && t.log.sunAccepted == s.log.sunAccepted && t.log.sunResults == s.log.sunResults
  {
    match e
    case Main(sensors) =>
      SunPart(s);
      if s.pc.InSsa? {
        hide Inv, StepImu, StepMtr, StepRwa, StepHavt;
      } else {
        hide Inv, StepImu, StepMtr, StepRwa, StepSsa, StepHavt, StepMain;
        FrameMain(s, sensors);
      }
    case Message(bytes) =>
      hide Inv;
      WritesKeepUnknownMode(s, Decode(bytes));
    case Request =>
  }

  lemma SunPart(s: State)
    requires Inv(s)
    ensures SunInv(s)
  {
  }

  lemma {:induction false} WritesKeepUnknownMode(s: State, ops: seq<Op>)
    requires s.regs.ssa.mode > SSA_COMPLETE && forall op | op in ops :: op.Valid()
    ensures var t := StepWrites(s, ops);
            && t.regs.ssa.mode == s.regs.ssa.mode
            && t.log.sunAccepted == s.log.sunAccepted && t.log.sunResults == s.log.sunResults
    decreases |ops|
  {
    if ops != [] {
      WriteKeepsUnknownMode(s, ops[0]);
      hide StepWrite;
      WritesKeepUnknownMode(StepWrite(s, ops[0]), ops[1..]);
    }
  }

  lemma WriteKeepsUnknownMode(s: State, op: Op)
    requires s.regs.ssa.mode > SSA_COMPLETE && op.Valid()
    ensures var t := StepWrite(s, op);
            && t.regs.ssa.mode == s.regs.ssa.mode
            && t.log.sunAccepted == s.log.sunAccepted && t.log.sunResults == s.log.sunResults
  {
  }

  // ----- A response that mixes two updates -----

  /** The loop up to the end of the masked block, from its beginning. */
  lemma {:induction false} ToUnmask(s: State, e: Sensors) returns (n: nat)
    requires Inv(s) && e.Valid() && s.pc.InImu? && Rank(s.pc) >= Rank(InImu(ImuUnmask))
    ensures var t := Steps(s, e, n);
            && t.pc == InImu(ImuUnmask) && Inv(t) && t.regs.readPtr == s.regs.readPtr
            && t.log.imuSamples == (if s.pc == InImu(ImuSense) then s.log.imuSamples + [e.imu] else s.log.imuSamples)
            && t.log.temperatures
               == (if s.pc == InImu(ImuSense) then s.log.temperatures + [e.temperature] else s.log.temperatures)
    decreases Rank(s.pc)
  {
    hide Inv, Steps, StepMain, Moved;
    if s.pc == InImu(ImuUnmask) {
      n := 0;
      NoSteps(s, e);
    } else {
      var t := StepMain(s, e);
      ImuStepOn(s, e);
      StepKeepsInv(s, Main(e));
      assert Step(s, Main(e)) == t;
      var m := ToUnmask(t, e);
      n := m + 1;
      StepsAdd(s, e, 1, m);
      OneStep(s, e);
    }
  }

  lemma NoSteps(s: State, e: Sensors)
    ensures Steps(s, e, 0) == s
  {
  }

  lemma ImuStepOn(s: State, e: Sensors)
    requires Inv(s) && s.pc.InImu? && Rank(s.pc) > Rank(InImu(ImuUnmask))
    ensures var t := StepMain(s, e);
            && t.pc.InImu? && t.pc != InImu(ImuSense) && Rank(InImu(ImuUnmask)) <= Rank(t.pc) < Rank(s.pc)
            && t.regs.readPtr == s.regs.readPtr
            && t.log.imuSamples == (if s.pc == InImu(ImuSense) then s.log.imuSamples + [e.imu] else s.log.imuSamples)
            && t.log.temperatures
               == (if s.pc == InImu(ImuSense) then s.log.temperatures + [e.temperature] else s.log.temperatures)
  {
    ImuPart(s);
    hide Inv, StepMtr, StepRwa, StepSsa, StepHavt;
  }

  lemma ImuPart(s: State)
    requires Inv(s)
    ensures ImuInv(s) && s.masked == MaskedAt(s.pc)
  {
  }

  /** A request after some steps of the loop and one more. */
  lemma RequestAfter(s0: State, events: seq<Event>, e: Sensors, m: nat)
    ensures Run(s0, events + Mains(e, m + 1) + [Request]) == Step(StepMain(Steps(Run(s0, events), e, m), e), Request)
  {
    hide *;
    var s := Run(s0, events);
    RunMore(s0, events + Mains(e, m + 1), Request);
    StepsAreRun(s0, events, e, m + 1);
    StepsAdd(s, e, m, 1);
    OneStep(Steps(s, e, m), e);
  }

  /** From power-on: a request right after the masked block gets the new readings with the old temperature. */
  lemma TemperatureCanBeLate(s0: State, e: Sensors) returns (n: nat)
    requires Init(s0) && e.Valid()
    ensures var events := [Message([READ_POINTER, IMU_READ])] + Mains(e, n) + [Request];
            var log := Run(s0, events).log;
            && log.imuSamples == [s0.regs.imu.rd, e.imu] && log.temperatures == [s0.regs.imu.gyrTempRd, e.temperature]
            && ImuReadings(e.imu, s0.regs.imu.gyrTempRd) in log.responses
  {
    hide *;
    ReadImu(s0);
    var s1 := Run(s0, [Message([READ_POINTER, IMU_READ])]);
    var m := ToUnmask(s1, e);
    n := m + 1;
    LateAnswer(Steps(s1, e, m), e, s0.regs.imu.rd, s0.regs.imu.gyrTempRd);
    RequestAfter(s0, [Message([READ_POINTER, IMU_READ])], e, m);
  }

  lemma LateAnswer(s: State, e: Sensors, rd: seq<Float>, temperature: Float)
    requires Inv(s) && e.Valid() && s.pc == InImu(ImuUnmask) && s.regs.readPtr == IMU_READ
    requires s.log.imuSamples == [rd, e.imu] && s.log.temperatures == [temperature, e.temperature]
    ensures var t := Step(StepMain(s, e), Request);
            && t.log.imuSamples == s.log.imuSamples && t.log.temperatures == s.log.temperatures
            && ImuReadings(e.imu, temperature) in t.log.responses
  {
    hide Inv, StepMain, ImuInv;
    var t := StepMain(s, e);
    StepKeepsInv(s, Main(e));
    assert Step(s, Main(e)) == t;
    AfterUnmask(s, e);
    ImuPart(t);
    var i := ImuNow(t);
    OnlySample(t, i, rd, e.imu, temperature, e.temperature);
  }

  lemma AfterUnmask(s: State, e: Sensors)
    requires s.pc == InImu(ImuUnmask)
    ensures var t := StepMain(s, e);
            && t.pc == InImu(ImuMag1) && !t.masked && t.log == s.log && t.regs.readPtr == s.regs.readPtr
  {
  }

  lemma OnlySample(s: State, i: nat, rd0: seq<Float>, rd1: seq<Float>, t0: Float, t1: Float)
    requires SampledInARow(s.log, i, s.regs.imu.rd, s.regs.imu.gyrTempRd)
    requires s.log.imuSamples == [rd0, rd1] && s.log.temperatures == [t0, t1]
    ensures s.regs.imu.rd == rd1 && s.regs.imu.gyrTempRd == t0
  {
  }

  lemma ReadImu(s0: State)
    requires Init(s0)
    ensures var s := Run(s0, [Message([READ_POINTER, IMU_READ])]);
            && s.pc == InImu(ImuSense) && Rank(s.pc) >= Rank(InImu(ImuUnmask)) && s.regs.readPtr == IMU_READ && Inv(s)
            && s.log.imuSamples == [s0.regs.imu.rd] && s.log.temperatures == [s0.regs.imu.gyrTempRd]
  {
    var m := [READ_POINTER, IMU_READ];
    RunKeepsInv(s0, [Message(m)]);
    hide Run, Inv, Decode, StepWrites;
    RunOne(s0, Message(m));
    DecodeReadImu();
    OneWrite(s0, Op(READ_POINTER, [IMU_READ]));
  }

  lemma RunOne(s0: State, e: Event)
    ensures Run(s0, [e]) == Step(s0, e)
  {
    hide Step;
    var none: seq<Event> := [];
    RunMore(s0, none, e);
    assert none + [e] == [e];
  }

  lemma OneWrite(s: State, op: Op)
    requires op.Valid()
    ensures StepWrites(s, [op]) == StepWrite(s, op)
  {
    hide StepWrite;
    assert [op][1..] == [];
  }

  lemma DecodeReadImu()
    ensures Decode([READ_POINTER, IMU_READ]) == [Op(READ_POINTER, [IMU_READ])]
  {
    var m := [READ_POINTER, IMU_READ];
    assert m[1..] == [IMU_READ];
    assert Taken(m[1..], 1) == [IMU_READ];
  }
}
