/** From the bytes on the bus to what the ADCS does and back (src/adcs/state_controller.cpp, src/adcs/main.cpp): a command sent
    is carried out, and a request is answered with the newest readings, wherever the main loop stands. */
module CommandDelivery {
  import opened AdcsMessages
  import opened AdcsRegisters
  import opened CommandProtocol
  import opened CommandSafety
  import opened LoopPasses
  import opened MainLoop

  /** A message that finds the interrupts on. */
  lemma Arrives(s0: State, events: seq<Event>, m: seq<byte>)
    requires !Run(s0, events).masked
    ensures var s, t := Run(s0, events), Run(s0, events + [Message(m)]);
            t.regs == Receive(s.regs, m) && t.pc == s.pc && !t.masked && t.main == s.main
            && t.log == StepWrites(s, Decode(m)).log
  {
    RunMore(s0, events, Message(m));
    hide Run, StepWrites;
    MessageWritesRegisters(Run(s0, events), Decode(m));
  }

  lemma Sound(s0: State, events: seq<Event>)
    requires Init(s0) && ValidEvents(events)
    ensures Inv(Run(s0, events))
  {
    hide Init, Inv, Run;
    RunKeepsInv(s0, events);
  }

  lemma Extended(events: seq<Event>, m: seq<byte>)
    requires ValidEvents(events)
    ensures ValidEvents(events + [Message(m)])
  {
  }

  /** A magnetorquer command sent to an active ADCS drives the rods, if nothing more is sent: with the content of the mode
      register, and the three little-endian shorts of the message. */
  lemma MtrMessageIsActedOn(s0: State, events: seq<Event>, m: seq<byte>, e: Sensors) returns (n: nat)
    requires Init(s0) && ValidEvents(events) && e.Valid() && |m| == 7 && m[0] == 11
    requires !Run(s0, events).masked && Run(s0, events).regs.mode == 1
    ensures var done := Run(s0, events + [Message(m)] + Mains(e, n)).log.mtrDone;
            && done != []
            && done[|done| - 1].mode == Run(s0, events).regs.mtr.mode
            && done[|done| - 1].cmd == [Scaled(m[1] as int + 256 * m[2] as int, Moment),
                                        Scaled(m[3] as int + 256 * m[4] as int, Moment),
                                        Scaled(m[5] as int + 256 * m[6] as int, Moment)]
  {
    hide Init, Inv, Run, Steps, Receive, StepWrites, Mains;
    var s, sent := Run(s0, events), events + [Message(m)];
    Arrives(s0, events, m);
    MtrCommandMessage(s.regs, m);
    Extended(events, m);
    Sound(s0, sent);
    n := MtrComesThrough(Run(s0, sent), e);
    StepsAreRun(s0, sent, e, n);
  }

  /** A wheel command sent to an active ADCS in one of the two wheel modes drives the wheels. */
  lemma WheelMessageIsActedOn(s0: State, events: seq<Event>, m: seq<byte>, e: Sensors) returns (n: nat)
    requires Init(s0) && ValidEvents(events) && e.Valid() && |m| == 7 && m[0] == 4
    requires !Run(s0, events).masked && Run(s0, events).regs.mode == 1
    requires Run(s0, events).regs.rwa.mode == 1 || Run(s0, events).regs.rwa.mode == 2
    ensures var done, mode := Run(s0, events + [Message(m)] + Mains(e, n)).log.rwaDone, Run(s0, events).regs.rwa.mode;
            var range := if mode == 1 then SpeedCommand else Torque;
            && done != []
            && done[|done| - 1].mode == mode
            && done[|done| - 1].cmd == [Scaled(m[1] as int + 256 * m[2] as int, range),
                                        Scaled(m[3] as int + 256 * m[4] as int, range),
                                        Scaled(m[5] as int + 256 * m[6] as int, range)]
  {
    hide Init, Inv, Run, Steps, Receive, StepWrites, Mains;
    var s, sent := Run(s0, events), events + [Message(m)];
    Arrives(s0, events, m);
    WheelCommandMessage(s.regs, m);
    Extended(events, m);
    Sound(s0, sent);
    n := RwaComesThrough(Run(s0, sent), e);
    StepsAreRun(s0, sent, e, n);
  }

  /** A reset table is executed, also one that is too short. */
  lemma ResetMessageIsExecuted(s0: State, events: seq<Event>, m: seq<byte>, e: Sensors) returns (n: nat)
    requires Init(s0) && ValidEvents(events) && e.Valid() && |m| >= 2 && m[0] == 28 && !Run(s0, events).masked
    ensures var done := Run(s0, events + [Message(m)] + Mains(e, n)).log.resetDone;
            && done != []
            && done[|done| - 1] == Executed(ShortAt(m, 1) + 65536 * ShortAt(m, 3), |Run(s0, events).log.resetSent|)
  {
    hide Init, Inv, Run, Steps, Receive, StepWrites, Mains, TablesOf, Decode, Word;
    var sent := events + [Message(m)];
    Arrives(s0, events, m);
    TablesByWrites(Run(s0, events), Decode(m));
    TablesOfMessage(28, m);
    TableMessage(Run(s0, events).regs, m);
    Extended(events, m);
    Sound(s0, sent);
    n := ResetComesThrough(Run(s0, sent), e);
    StepsAreRun(s0, sent, e, n);
  }

  /** And so is a disable table. */
  lemma DisableMessageIsExecuted(s0: State, events: seq<Event>, m: seq<byte>, e: Sensors) returns (n: nat)
    requires Init(s0) && ValidEvents(events) && e.Valid() && |m| >= 2 && m[0] == 29 && !Run(s0, events).masked
    ensures var done := Run(s0, events + [Message(m)] + Mains(e, n)).log.disableDone;
            && done != []
            && done[|done| - 1] == Executed(ShortAt(m, 1) + 65536 * ShortAt(m, 3), |Run(s0, events).log.disableSent|)
  {
    hide Init, Inv, Run, Steps, Receive, StepWrites, Mains, TablesOf, Decode, Word;
    var sent := events + [Message(m)];
    Arrives(s0, events, m);
    TablesByWrites(Run(s0, events), Decode(m));
    TablesOfMessage(29, m);
    TableMessage(Run(s0, events).regs, m);
    Extended(events, m);
    Sound(s0, sent);
    n := DisableComesThrough(Run(s0, sent), e);
    StepsAreRun(s0, sent, e, n);
  }

  lemma PowerOn(s0: State)
    requires Init(s0)
    ensures Run(s0, []) == s0 && !s0.masked && ValidEvents([]) && |s0.log.resetSent| == |s0.log.disableSent| == 1
  {
  }

  /** From power-on: a message with one byte of a table has a table executed that nobody sent; of either kind. */
  lemma ShortTablesAreExecuted(s0: State, e: Sensors) returns (n: nat, k: nat)
    requires Init(s0) && e.Valid()
    ensures Executed(0xFFFF_FF01, 1) in Run(s0, [Message([28, 1])] + Mains(e, n)).log.resetDone
    ensures Executed(0xFFFF_FF01, 1) in Run(s0, [Message([29, 1])] + Mains(e, k)).log.disableDone
  {
    PowerOn(s0);
    hide Init, Run, Mains;
    var none: seq<Event> := [];
    var reset, disable: seq<byte> := [28, 1], [29, 1];
    assert none + [Message(reset)] == [Message(reset)] && none + [Message(disable)] == [Message(disable)];
    n := ResetMessageIsExecuted(s0, none, reset, e);
    k := DisableMessageIsExecuted(s0, none, disable, e);
    var resets := Run(s0, [Message(reset)] + Mains(e, n)).log.resetDone;
    var disables := Run(s0, [Message(disable)] + Mains(e, k)).log.disableDone;
    assert resets[|resets| - 1] in resets && disables[|disables| - 1] in disables;
  }

  // ----- Requests -----

  /** What the registers hold of the readings while interrupts are on: the newest, but for what the main loop has fetched
      and not yet stored. */
  lemma ReadingsNow(s: State)
    requires Inv(s) && !s.masked
    ensures var samples := s.log.wheelSamples;
            var n := |samples| - if s.pc == InRwa(RwaMask) then 2 else 1;
            0 <= n && s.regs.rwa.rd == samples[n]
    ensures s.log.sunResults != [] && s.regs.ssa.sunVec == s.log.sunResults[|s.log.sunResults| - 1].vec
    ensures s.log.tables != [] && s.regs.havt.readTable == s.log.tables[|s.log.tables| - 1]
    ensures var readings, temperatures := s.log.imuSamples, s.log.temperatures;
            var n := |readings| - if s.pc == InImu(ImuMask) then 2 else 1;
            var k := |temperatures| - if s.pc.InImu? && s.pc != InImu(ImuSense) then 2 else 1;
            0 <= n && 0 <= k && s.regs.imu.rd == readings[n] && s.regs.imu.gyrTempRd == temperatures[k]
    ensures var samples := s.log.voltSamples;
            var n := |samples| - 1;
            match s.pc
            case InSsa(SsaVoltage(k)) =>
              n > 0 && k < 20 && |samples[n]| == |samples[n - 1]| == 20
              && s.regs.ssa.voltages == samples[n][..k] + samples[n - 1][k..]
            case _ => n >= 0 && s.regs.ssa.voltages == samples[n]
  {
    assert SunInv(s) && ImuInv(s) && WheelInv(s) && VoltInv(s) && ResponseInv(s);
    hide Inv, MtrInv, RwaInv, HavtInv;
    VoltsNow(s);
  }

  /** A request is answered by the register that the read pointer selects, whole, from the newest readings: those of the wheels
      at 8, the sun sensor's mode at 14, vector at 15 and voltages at 17, the IMU at 21, the device table at 27. */
  lemma RequestIsAnswered(s0: State, events: seq<Event>)
    requires Init(s0) && ValidEvents(events) && !Run(s0, events).masked
    ensures var s, log := Run(s0, events), Run(s0, events).log;
            var responses := Run(s0, events + [Request]).log.responses;
            && |responses| == |log.responses| + 1 && responses[..|log.responses|] == log.responses
            && var r := responses[|log.responses|];
               && (s.regs.readPtr == 0 ==> r == WhoAmI)
               && (s.regs.readPtr == 8 ==>
                     var n := |log.wheelSamples| - if s.pc == InRwa(RwaMask) then 2 else 1;
                     0 <= n && r == WheelReadings(log.wheelSamples[n]))
               && (s.regs.readPtr == 14 ==> r == SunMode(s.regs.ssa.mode))
               && (s.regs.readPtr == 15 ==> log.sunResults != [] && r == SunVector(log.sunResults[|log.sunResults| - 1].vec))
               && (s.regs.readPtr == 17 ==>
                     var samples, n := log.voltSamples, |log.voltSamples| - 1;
                     match s.pc
                     case InSsa(SsaVoltage(k)) =>
                       n > 0 && k < 20 && |samples[n]| == |samples[n - 1]| == 20
                       && r == Voltages(samples[n][..k] + samples[n - 1][k..])
                     case _ => n >= 0 && r == Voltages(samples[n]))
               && (s.regs.readPtr == 21 ==>
                     var n := |log.imuSamples| - if s.pc == InImu(ImuMask) then 2 else 1;
                     var k := |log.temperatures| - if s.pc.InImu? && s.pc != InImu(ImuSense) then 2 else 1;
                     0 <= n && 0 <= k && r == ImuReadings(log.imuSamples[n], log.temperatures[k]))
               && (s.regs.readPtr == 27 ==> log.tables != [] && r == HavtTable(log.tables[|log.tables| - 1]))
               && (s.regs.readPtr !in {0, 8, 14, 15, 17, 21, 27} ==> r == NoResponse)
  {
    hide *;
    var s := Run(s0, events);
    Sound(s0, events);
    RunMore(s0, events, Request);
    RequestStep(s);
    ReadingsNow(s);
    AnswerIs(s.regs);
  }

  lemma RequestStep(s: State)
    requires !s.masked
    ensures var before, after := s.log.responses, Step(s, Request).log.responses;
            |after| == |before| + 1 && after[..|before|] == before && after[|before|] == Respond(s.regs)
  {
  }

  /** The read pointer is the one sent last; and the main loop never moves it. */
  lemma PointerIsSet(s0: State, events: seq<Event>, a: byte)
    requires !Run(s0, events).masked
    ensures var s, t := Run(s0, events), Run(s0, events + [Message([2, a])]);
            t.regs == s.regs.(readPtr := a) && t.pc == s.pc && !t.masked
  {
    hide Run, Receive;
    Arrives(s0, events, [2, a]);
    GeneralMessage(Run(s0, events).regs, [2, a]);
  }

  /** A sun vector request that is accepted shows when the mode is read back. */
  lemma SunRequestIsSeen(s0: State, events: seq<Event>)
    requires Init(s0) && ValidEvents(events) && !Run(s0, events).masked
    requires Run(s0, events).regs.ssa.mode == 0 || Run(s0, events).regs.ssa.mode == 2
    ensures var asked := events + [Message([14, 1])] + [Message([2, 14])];
            var responses := Run(s0, asked + [Request]).log.responses;
            responses != [] && responses[|responses| - 1] == SunMode(1)
  {
    hide Init, Run, Receive;
    var first := events + [Message([14, 1])];
    Arrives(s0, events, [14, 1]);
    SunMessage(Run(s0, events).regs, [14, 1]);
    PointerIsSet(s0, first, 14);
    Extended(events, [14, 1]);
    Extended(first, [2, 14]);
    RequestIsAnswered(s0, first + [Message([2, 14])]);
  }
}
