/** Mode and vector of a wheel command (src/adcs/main.cpp, src/adcs/state_controller.cpp, src/fsw/FCCode/Drivers/ADCS.cpp). The
    driver writes the mode and then, in a second message, the vector. The main loop may take a vector while the mode of
    the next command is already there: exactly when messages are safe against that, under every interleaving. */
module CommandPairing {
  import opened AdcsRegisters
  import opened CommandProtocol
  import opened CommandSafety
  import opened LoopPasses
  import opened MainLoop

  // ----- What the sender's messages do -----

  /** The ADCS mode, the wheel mode, and the mode of the newest command the handler accepted, zero if there is none. */
  datatype Wheel = Wheel(adcs: byte, mode: byte, newest: byte)

  function View(s: State): Wheel {
    var sent := s.log.rwaSent;
    Wheel(s.regs.mode, s.regs.rwa.mode, if sent == [] then 0 else sent[|sent| - 1].mode)
  }

  /** The effect of one message. */
  function After(w: Wheel, m: seq<byte>): Wheel {
    if |m| < 2 then w
    else if m[0] == ADCS_MODE then w.(adcs := m[1])
    else if m[0] == RWA_MODE then
      if |m| >= 8 && ActiveWheelMode(m[1]) then w.(mode := m[1], newest := m[1]) else w.(mode := m[1])
    else if m[0] == RWA_COMMAND && |m| >= 7 && ActiveWheelMode(w.mode) then w.(newest := w.mode)
    else w
  }

  function AfterAll(w: Wheel, messages: seq<seq<byte>>): Wheel {
    if messages == [] then w else After(AfterAll(w, messages[..|messages| - 1]), messages[|messages| - 1])
  }

  /** The mode is an active one, and another than that of the newest command. */
  predicate Switched(w: Wheel) {
    ActiveWheelMode(w.mode) && ActiveWheelMode(w.newest) && w.mode != w.newest
  }

  /** The newest command is still to be copied, or its mode is. */
  predicate Pending(s: State) {
    s.regs.rwa.flag == UPDATED || s.pc == InRwa(RwaMode)
  }

  function AfterOp(w: Wheel, op: Op): Wheel
    requires op.Valid()
  {
    if op.address == ADCS_MODE then w.(adcs := op.data[0])
    else if op.address == RWA_MODE then w.(mode := op.data[0])
    else if op.address == RWA_COMMAND && ActiveWheelMode(w.mode) then w.(newest := w.mode)
    else w
  }

  function AfterOps(w: Wheel, ops: seq<Op>): Wheel
    requires forall op | op in ops :: op.Valid()
    decreases |ops|
  {
    if ops == [] then w else AfterOps(AfterOp(w, ops[0]), ops[1..])
  }

  lemma {:induction false} NoWheelOps(w: Wheel, a: byte, data: seq<byte>)
    requires a != ADCS_MODE && a != RWA_MODE && a != RWA_COMMAND
    ensures AfterOps(w, Burst(a, data)) == w
    decreases 256 - a
  {
    if Width(a) > 0 && |data| >= Needs(a) {
      FirstOp(w, a, data);
      if FallsThrough(a) {
        NoWheelOps(w, a + 1, Left(data, Width(a)));
      }
    }
  }

  lemma FirstOp(w: Wheel, a: byte, data: seq<byte>)
    requires Width(a) > 0 && |data| >= Needs(a)
    ensures var v := AfterOp(w, Op(a, Taken(data, Width(a))));
            AfterOps(w, Burst(a, data)) == if FallsThrough(a) then AfterOps(v, Burst(a + 1, Left(data, Width(a)))) else v
  {
    var op := Op(a, Taken(data, Width(a)));
    var rest := if FallsThrough(a) then Burst(a + 1, Left(data, Width(a))) else [];
    assert Burst(a, data) == [op] + rest && ([op] + rest)[1..] == rest;
  }

  /** The handler's writes have the effect of the message. */
  lemma DecodedEffect(w: Wheel, m: seq<byte>)
    ensures AfterOps(w, Decode(m)) == After(w, m)
  {
    if m != [] {
      var a, data := m[0], m[1..];
      if a == ADCS_MODE || a == RWA_MODE || a == RWA_COMMAND {
        if |data| >= Needs(a) {
          FirstOp(w, a, data);
          hide AfterOps, Burst;
          if a == ADCS_MODE {
            NoWheelOps(w.(adcs := m[1]), READ_POINTER, Left(data, 1));
          } else if a == RWA_MODE {
            CommandBurst(w.(mode := m[1]), Left(data, 1));
          }
        }
      } else {
        NoWheelOps(w, a, data);
      }
    }
  }

  lemma CommandBurst(w: Wheel, data: seq<byte>)
    ensures AfterOps(w, Burst(RWA_COMMAND, data)) == if |data| >= 6 && ActiveWheelMode(w.mode) then w.(newest := w.mode) else w
  {
    if |data| >= 6 {
      FirstOp(w, RWA_COMMAND, data);
    }
  }

  // ----- The registers follow -----

  lemma ViewOfWrite(s: State, op: Op)
    requires op.Valid()
    ensures View(StepWrite(s, op)) == AfterOp(View(s), op)
  {
  }

  lemma {:induction false} ViewOfWrites(s: State, ops: seq<Op>)
    requires forall op | op in ops :: op.Valid()
    ensures View(StepWrites(s, ops)) == AfterOps(View(s), ops)
    decreases |ops|
  {
    hide StepWrite, AfterOp, View;
    if ops != [] {
      ViewOfWrite(s, ops[0]);
      ViewOfWrites(StepWrite(s, ops[0]), ops[1..]);
    }
  }

  lemma ViewOfMain(s: State, e: Sensors)
    ensures View(StepMain(s, e)) == View(s)
  {
    MovedOneStep(s, e);
    hide StepMain;
  }

  // ----- What keeps mode and vector together -----

  /** Every command acted on in an active mode has the mode it was sent with. */
  ghost predicate ModesPaired(log: Log) {
    forall d | d in log.rwaDone && ActiveWheelMode(d.mode) :: d.src < |log.rwaSent| && d.mode == log.rwaSent[d.src].mode
  }

  /** Commands are accepted in active modes only; entry 0 is the initial register content. */
  ghost predicate SentActive(sent: seq<WheelCommand>) {
    forall i | 0 <= i < |sent| :: ActiveWheelMode(sent[i].mode) <==> i > 0
  }

  /** What no register write breaks: from the copy of the mode on, unless a newer command has arrived, the copy is right. */
  ghost predicate PairCore(s: State) {
    var r, sent, c := s.regs.rwa, s.log.rwaSent, s.main.rwa;
    && RwaInv(s) && SentActive(sent) && ModesPaired(s.log)
    && match s.pc
       case InRwa(RwaRead(k)) => r.flag == OUTDATED && ActiveWheelMode(c.mode) ==> c.mode == sent[c.src].mode
       case InRwa(RwaCheck) => r.flag == OUTDATED && ActiveWheelMode(c.mode) ==> c.mode == sent[c.src].mode
       case InRwa(RwaActuate) => ActiveWheelMode(c.mode) ==> c.mode == sent[c.src].mode
       case _ => true
  }

  /** And no switch while the newest command is pending. */
  ghost predicate PairInv(s: State) {
    PairCore(s) && (Pending(s) ==> !Switched(View(s)))
  }

  lemma PairActuate(s: State, e: Sensors)
    requires s.pc == InRwa(RwaActuate) && PairCore(s) && RwaInv(StepRwa(s, e))
    ensures PairCore(StepRwa(s, e))
  {
    hide Rising, WholeWheel;
    var t := StepRwa(s, e);
    forall d | d in t.log.rwaDone && ActiveWheelMode(d.mode)
      ensures d.src < |t.log.rwaSent| && d.mode == t.log.rwaSent[d.src].mode
    {
      assert d in s.log.rwaDone || d == s.main.rwa;
    }
  }

  lemma PairStep(s: State, e: Sensors)
    requires s.pc.InRwa? && PairInv(s) && RwaInv(StepRwa(s, e))
    ensures PairCore(StepRwa(s, e))
  {
    hide Rising, WholeWheel;
    if s.pc.rwa.RwaActuate? {
      hide PairCore, RwaInv, StepRwa;
      PairActuate(s, e);
    } else {
      hide ModesPaired, SentActive;
      SameDone(s, e);
      if s.pc.rwa.RwaMode? {
        PendingIsActive(s);
      }
    }
  }

  lemma SameDone(s: State, e: Sensors)
    requires s.pc.InRwa? && !s.pc.rwa.RwaActuate? && ModesPaired(s.log)
    ensures var t := StepRwa(s, e);
            t.log.rwaDone == s.log.rwaDone && t.log.rwaSent == s.log.rwaSent && ModesPaired(t.log)
  {
    assert StepRwa(s, e).log.rwaDone == s.log.rwaDone && StepRwa(s, e).log.rwaSent == s.log.rwaSent;
  }

  /** A pending command was accepted in an active mode. */
  lemma PendingIsActive(s: State)
    requires RwaInv(s) && SentActive(s.log.rwaSent) && Pending(s)
    ensures ActiveWheelMode(View(s).newest) && |s.log.rwaSent| > 1
  {
  }

  /** The main loop never breaks the pairing. */
  lemma MainKeepsPair(s: State, e: Sensors)
    requires PairInv(s)
    ensures PairInv(StepMain(s, e))
  {
    hide View, Switched;
    RwaInvMain(s, e);
    ViewOfMain(s, e);
    PendingBefore(s, e);
    if s.pc.InRwa? {
      hide PairCore, RwaInv, StepRwa, Pending;
      PairStep(s, e);
    } else {
      hide StepImu, StepMtr, StepRwa, StepSsa, StepHavt, StepMain;
      FrameMain(s, e);
    }
  }

  lemma PendingBefore(s: State, e: Sensors)
    requires RwaInv(s)
    ensures Pending(StepMain(s, e)) ==> Pending(s)
  {
    if s.pc.InRwa? {
      hide StepImu, StepMtr, StepSsa, StepHavt;
    } else {
      hide StepImu, StepMtr, StepRwa, StepSsa, StepHavt, StepMain;
      FrameMain(s, e);
    }
  }

  lemma WriteKeepsPairCore(s: State, op: Op)
    requires PairCore(s) && op.Valid()
    ensures PairCore(StepWrite(s, op))
  {
    hide RwaInv;
    WriteKeepsRwa(s, op);
    FrameWrite(s, op);
    SomethingSent(s);
    if s.pc.InRwa? && (s.pc.rwa.RwaRead? || s.pc.rwa.RwaCheck? || s.pc.rwa.RwaActuate?) {
      CopyIsSent(s);
    }
    if op.address != RWA_MODE && op.address != RWA_COMMAND {
      hide StepWrite;
    }
  }

  lemma SomethingSent(s: State)
    requires RwaInv(s)
    ensures s.log.rwaSent != []
  {
  }

  lemma CopyIsSent(s: State)
    requires RwaInv(s) && s.pc.InRwa? && (s.pc.rwa.RwaRead? || s.pc.rwa.RwaCheck? || s.pc.rwa.RwaActuate?)
    ensures s.main.rwa.src < |s.log.rwaSent|
  {
  }

  lemma {:induction false} WritesKeepPairCore(s: State, ops: seq<Op>)
    requires PairCore(s) && forall op | op in ops :: op.Valid()
    ensures PairCore(StepWrites(s, ops))
    decreases |ops|
  {
    hide StepWrite, PairCore;
    if ops != [] {
      WriteKeepsPairCore(s, ops[0]);
      WritesKeepPairCore(StepWrite(s, ops[0]), ops[1..]);
    }
  }

  /** Every event keeps the pairing unless it leaves a switch while the newest command is pending. */
  lemma EventKeepsPair(s: State, e: Event)
    requires PairInv(s) && !(Pending(Step(s, e)) && Switched(View(Step(s, e))))
    ensures PairInv(Step(s, e))
  {
    hide StepMain, StepWrites, Switched;
    match e
    case Main(sensors) => MainKeepsPair(s, sensors);
    case Message(bytes) =>
      hide PairCore;
      if !s.masked {
        WritesKeepPairCore(s, Decode(bytes));
      }
    case Request =>
      assert View(Step(s, e)) == View(s);
  }

  // ----- Runs -----

  lemma InitPair(s: State)
    requires Init(s)
    ensures PairInv(s) && View(s).newest == 0
  {
    InitInv(s);
  }

  /** No state of the run has a switch while the newest command is pending. */
  ghost predicate NoPendingSwitch(s0: State, events: seq<Event>) {
    forall n | 0 <= n <= |events| :: !(Pending(Run(s0, events[..n])) && Switched(View(Run(s0, events[..n]))))
  }

  lemma {:induction false} PairRun(s0: State, events: seq<Event>)
    requires Init(s0) && NoPendingSwitch(s0, events)
    ensures PairInv(Run(s0, events))
    decreases |events|
  {
    hide Init, Step, PairInv, Pending, Switched;
    if events == [] {
      InitPair(s0);
    } else {
      var n := |events| - 1;
      var before := events[..n];
      assert forall k | 0 <= k <= n :: before[..k] == events[..k];
      PairRun(s0, before);
      assert events[..|events|] == events;
      EventKeepsPair(Run(s0, before), events[n]);
    }
  }

  /** What the wheels must never see: an active mode with the vector of a command that was sent with the other one. */
  ghost predicate Mixed(log: Log) {
    exists d :: d in log.rwaDone && MixedCopy(log, d)
  }

  predicate MixedCopy(log: Log, d: Copy) {
    ActiveWheelMode(d.mode) && d.src < |log.rwaSent| && d.mode != log.rwaSent[d.src].mode
  }

  /** Every command acted on in an active mode is, mode and vector, one command that was sent. */
  ghost predicate Paired(log: Log) {
    forall d | d in log.rwaDone && ActiveWheelMode(d.mode) ::
      d.src < |log.rwaSent| && WheelCommand(d.mode, d.cmd) == log.rwaSent[d.src]
  }

  lemma PairedNow(s: State)
    requires RwaInv(s) && ModesPaired(s.log)
    ensures Paired(s.log)
  {
    forall d | d in s.log.rwaDone && ActiveWheelMode(d.mode)
      ensures d.src < |s.log.rwaSent| && WheelCommand(d.mode, d.cmd) == s.log.rwaSent[d.src]
    {
      var i :| 0 <= i < |s.log.rwaDone| && s.log.rwaDone[i] == d;
    }
  }

  lemma MixedIsNotPaired(log: Log)
    requires Mixed(log)
    ensures !Paired(log)
  {
    var d :| d in log.rwaDone && MixedCopy(log, d);
  }

  /** Messages of any shape may arrive at any moment: as long as none switches between the active modes while a command is
      pending, mode and vector reach the wheels together. */
  lemma WheelModeMatchesVector(s0: State, events: seq<Event>)
    requires Init(s0) && NoPendingSwitch(s0, events)
    ensures Paired(Run(s0, events).log)
  {
    hide Init, NoPendingSwitch, Run, RwaInv, ModesPaired, Paired;
    PairRun(s0, events);
    PairedNow(Run(s0, events));
  }

  // ----- A switch while pending does mix -----

  /** From the copy of the mode to the action is six steps. */
  lemma MixFromMode(s: State, e: Sensors)
    requires RwaInv(s) && s.pc == InRwa(RwaMode) && s.regs.rwa.flag == OUTDATED && Switched(View(s))
    ensures var t := Steps(s, e, 6); Mixed(t.log) && t.pc == InRwa(RwaSense) && t.masked == s.masked
  {
    var c := s.main.rwa;
    var v, sent := s.regs.rwa.cmd, s.log.rwaSent;
    var t1 := s.(main := s.main.(rwa := Copy(s.regs.rwa.mode, [], c.src)), pc := InRwa(RwaRead(0)));
    assert StepMain(s, e) == t1;
    var t2 := t1.(main := s.main.(rwa := Copy(s.regs.rwa.mode, [v[0]], c.src)), pc := InRwa(RwaRead(1)));
    assert StepMain(t1, e) == t2;
    var t3 := t2.(main := s.main.(rwa := Copy(s.regs.rwa.mode, [v[0], v[1]], c.src)), pc := InRwa(RwaRead(2)));
    assert StepMain(t2, e) == t3;
    var d := Copy(s.regs.rwa.mode, [v[0], v[1], v[2]], c.src);
    var t4 := t3.(main := s.main.(rwa := d), pc := InRwa(RwaCheck));
    assert StepMain(t3, e) == t4;
    var t5 := t4.(pc := InRwa(RwaActuate));
    assert StepMain(t4, e) == t5;
    var t6 := t5.(log := s.log.(rwaDone := s.log.rwaDone + [d]), pc := InRwa(RwaSense));
    assert StepMain(t5, e) == t6;
    hide StepMain;
    SixSteps(s, t1, t2, t3, t4, t5, t6, e);
    assert d in t6.log.rwaDone && MixedCopy(t6.log, d);
  }

  lemma SixSteps(s: State, t1: State, t2: State, t3: State, t4: State, t5: State, t6: State, e: Sensors)
    requires StepMain(s, e) == t1 && StepMain(t1, e) == t2 && StepMain(t2, e) == t3
    requires StepMain(t3, e) == t4 && StepMain(t4, e) == t5 && StepMain(t5, e) == t6
    ensures Steps(s, e, 6) == t6
  {
    hide StepMain;
    assert Steps(t6, e, 0) == t6 && Steps(t5, e, 1) == t6 && Steps(t4, e, 2) == t6;
    assert Steps(t3, e, 3) == t6 && Steps(t2, e, 4) == t6 && Steps(t1, e, 5) == t6;
  }

  /** From before the copy, if the loop goes on to make one. */
  lemma MixFromBefore(s: State, e: Sensors) returns (n: nat)
    requires RwaInv(s) && SentActive(s.log.rwaSent) && Switched(View(s)) && s.regs.rwa.flag == UPDATED
    requires s.pc == InRwa(RwaClear) || s.pc == InRwa(RwaFlag) || (s.pc == InRwa(RwaActive) && s.regs.mode == ADCS_ACTIVE)
    ensures var t := Steps(s, e, n); Mixed(t.log) && t.pc == InRwa(RwaSense) && t.masked == s.masked
    decreases Rank(s.pc)
  {
    var t := StepMain(s, e);
    RwaInvMain(s, e);
    ViewOfMain(s, e);
    assert t.masked == s.masked && t.log.rwaSent == s.log.rwaSent;
    var m;
    if s.pc == InRwa(RwaClear) {
      assert t.pc == InRwa(RwaMode) && t.regs.rwa.flag == OUTDATED;
      MixFromMode(t, e);
      m := 6;
    } else {
      m := MixFromBefore(t, e);
    }
    n := m + 1;
    assert Steps(s, e, n) == Steps(t, e, m);
  }

  /** A switch while the newest command is pending has a continuation, of main loop steps alone, that mixes. */
  lemma PendingSwitchMixes(s: State, e: Sensors) returns (n: nat)
    requires Inv(s) && SentActive(s.log.rwaSent) && e.Valid()
    requires Pending(s) && Switched(View(s)) && s.regs.mode == ADCS_ACTIVE
    ensures Mixed(Steps(s, e, n).log)
  {
    hide Inv, StepMain, Steps, Mixed;
    WheelPart(s);
    if s.pc == InRwa(RwaMode) && s.regs.rwa.flag == OUTDATED {
      MixFromMode(s, e);
      n := 6;
    } else if BeforeCopy(s.pc) {
      n := MixFromBefore(s, e);
    } else {
      var m := ToRwa(s, e);
      var t := Steps(s, e, m);
      WheelPart(t);
      n := MixFromBefore(t, e);
      StepsAdd(s, e, m, n);
      n := m + n;
    }
  }

  lemma WheelPart(s: State)
    requires Inv(s)
    ensures RwaInv(s)
  {
  }

  lemma {:induction false} StepsKeepPair(s: State, e: Sensors, n: nat)
    requires PairInv(s)
    ensures PairInv(Steps(s, e, n))
    decreases n
  {
    hide PairInv, StepMain;
    if n > 0 {
      MainKeepsPair(s, e);
      StepsKeepPair(StepMain(s, e), e, n - 1);
    }
  }

  lemma PairedIsNotMixed(log: Log)
    requires ModesPaired(log)
    ensures !Mixed(log)
  {
    forall d | d in log.rwaDone
      ensures !MixedCopy(log, d)
    {
    }
  }

  /** With the ADCS active and all well so far, the main loop can go on to mix exactly when there has been a switch while the
      newest command is pending. */
  lemma CanMixIff(s: State, e: Sensors)
    requires Inv(s) && PairCore(s) && e.Valid() && s.regs.mode == ADCS_ACTIVE
    ensures (exists n: nat :: Mixed(Steps(s, e, n).log)) <==> Pending(s) && Switched(View(s))
  {
    hide Inv, Steps, Mixed, Switched, RwaInv;
    if Pending(s) && Switched(View(s)) {
      var n := PendingSwitchMixes(s, e);
    } else {
      forall n: nat
        ensures !Mixed(Steps(s, e, n).log)
      {
        StepsKeepPair(s, e, n);
        PairedIsNotMixed(Steps(s, e, n).log);
      }
    }
  }

  // ----- Which messages are safe under every interleaving -----

  /** The messages of a run that found the interrupts on. */
  function Landed(s0: State, events: seq<Event>): seq<seq<byte>>
    decreases |events|
  {
    if events == [] then []
    else
      var before, e := events[..|events| - 1], events[|events| - 1];
      if e.Message? && !Run(s0, before).masked then Landed(s0, before) + [e.bytes] else Landed(s0, before)
  }

  lemma LandedMore(s0: State, events: seq<Event>, e: Event)
    ensures Landed(s0, events + [e])
         == if e.Message? && !Run(s0, events).masked then Landed(s0, events) + [e.bytes] else Landed(s0, events)
  {
    hide Run;
    var longer := events + [e];
    assert longer[..|longer| - 1] == events && longer[|longer| - 1] == e;
  }

  lemma AfterMore(w: Wheel, messages: seq<seq<byte>>, m: seq<byte>)
    ensures AfterAll(w, messages + [m]) == After(AfterAll(w, messages), m)
  {
    hide After;
    var longer := messages + [m];
    assert longer[..|longer| - 1] == messages && longer[|longer| - 1] == m;
  }

  lemma ViewOfStep(s: State, e: Event)
    ensures View(Step(s, e)) == if e.Message? && !s.masked then After(View(s), e.bytes) else View(s)
  {
    hide StepMain, StepWrites, After;
    match e
    case Main(sensors) => ViewOfMain(s, sensors);
    case Message(bytes) =>
      if !s.masked {
        ViewOfWrites(s, Decode(bytes));
        DecodedEffect(View(s), bytes);
      }
    case Request =>
  }

  /** The registers are what the landed messages made of them, whatever the main loop did in between. */
  lemma {:induction false} ViewOfRun(s0: State, events: seq<Event>)
    ensures View(Run(s0, events)) == AfterAll(View(s0), Landed(s0, events))
    decreases |events|
  {
    hide Step, View, After;
    if events != [] {
      var before, e := events[..|events| - 1], events[|events| - 1];
      ViewOfRun(s0, before);
      ViewStep(s0, before, e);
      assert events == before + [e];
    }
  }

  lemma ViewStep(s0: State, events: seq<Event>, e: Event)
    requires View(Run(s0, events)) == AfterAll(View(s0), Landed(s0, events))
    ensures View(Run(s0, events + [e])) == AfterAll(View(s0), Landed(s0, events + [e]))
  {
    hide Run, Step, View, After, AfterAll, Landed;
    RunMore(s0, events, e);
    LandedMore(s0, events, e);
    ViewOfStep(Run(s0, events), e);
    if e.Message? {
      AfterMore(View(s0), Landed(s0, events), e.bytes);
    }
  }

  predicate ActiveAt(w: Wheel, messages: seq<seq<byte>>, i: nat)
    requires i <= |messages|
  {
    AfterAll(w, messages[..i]).adcs == ADCS_ACTIVE
  }

  predicate SwitchedAt(w: Wheel, messages: seq<seq<byte>>, i: nat)
    requires i <= |messages|
  {
    Switched(AfterAll(w, messages[..i]))
  }

  /** After some message the mode is switched, and the ADCS has been active by then. */
  ghost predicate Unsafe(w: Wheel, messages: seq<seq<byte>>) {
    exists a: nat, i: nat :: a <= i <= |messages| && ActiveAt(w, messages, a) && SwitchedAt(w, messages, i)
  }

  ghost predicate EverActive(w: Wheel, messages: seq<seq<byte>>) {
    exists a: nat :: a <= |messages| && ActiveAt(w, messages, a)
  }

  lemma UnsafeMore(w: Wheel, messages: seq<seq<byte>>, m: seq<byte>)
    ensures var longer := messages + [m];
            && (EverActive(w, longer) <==> EverActive(w, messages) || AfterAll(w, longer).adcs == ADCS_ACTIVE)
            && (Unsafe(w, longer) <==> Unsafe(w, messages) || (EverActive(w, longer) && Switched(AfterAll(w, longer))))
  {
    hide AfterAll, Switched;
    var longer := messages + [m];
    var n := |messages|;
    forall i: nat | i <= n
      ensures longer[..i] == messages[..i]
    {
    }
    assert longer[..n + 1] == longer;
    assert forall i: nat | i <= n :: ActiveAt(w, longer, i) == ActiveAt(w, messages, i);
    assert forall i: nat | i <= n :: SwitchedAt(w, longer, i) == SwitchedAt(w, messages, i);
    assert ActiveAt(w, longer, n + 1) == (AfterAll(w, longer).adcs == ADCS_ACTIVE);
    assert SwitchedAt(w, longer, n + 1) == Switched(AfterAll(w, longer));
  }

  /** Before the ADCS is ever active the loop passes the wheels by. */
  ghost predicate Asleep(s: State) {
    RwaInv(s) && SentActive(s.log.rwaSent) && s.log.rwaDone == [] && (s.pc.InRwa? ==> s.pc == InRwa(RwaActive))
  }

  lemma AsleepMain(s: State, e: Sensors)
    requires Asleep(s) && s.regs.mode != ADCS_ACTIVE
    ensures Asleep(StepMain(s, e))
  {
    RwaInvMain(s, e);
    hide RwaInv;
    if !s.pc.InRwa? {
      hide StepImu, StepMtr, StepRwa, StepSsa, StepHavt, StepMain;
      FrameMain(s, e);
    }
  }

  lemma AsleepIsPaired(s: State)
    requires Asleep(s)
    ensures PairCore(s)
  {
  }

  lemma {:induction false} AsleepWrites(s: State, ops: seq<Op>)
    requires Asleep(s) && forall op | op in ops :: op.Valid()
    ensures Asleep(StepWrites(s, ops))
    decreases |ops|
  {
    if ops != [] {
      AsleepWrite(s, ops[0]);
      hide StepWrite, Asleep;
      AsleepWrites(StepWrite(s, ops[0]), ops[1..]);
    }
  }

  lemma AsleepWrite(s: State, op: Op)
    requires Asleep(s) && op.Valid()
    ensures Asleep(StepWrite(s, op))
  {
    hide RwaInv;
    WriteKeepsRwa(s, op);
    FrameWrite(s, op);
    SomethingSent(s);
    if op.address != RWA_MODE && op.address != RWA_COMMAND {
      hide StepWrite;
    }
  }

  /** What holds while the landed messages are not unsafe. */
  ghost predicate SafeInv(s: State, w: Wheel, messages: seq<seq<byte>>) {
    if EverActive(w, messages) then PairInv(s) else Asleep(s)
  }

  lemma SafeMain(s: State, e: Sensors, w: Wheel, messages: seq<seq<byte>>)
    requires SafeInv(s, w, messages) && View(s) == AfterAll(w, messages)
    ensures SafeInv(StepMain(s, e), w, messages)
  {
    hide AfterAll, PairInv, Asleep, StepMain;
    if EverActive(w, messages) {
      MainKeepsPair(s, e);
    } else {
      assert messages[..|messages|] == messages && !ActiveAt(w, messages, |messages|);
      AsleepMain(s, e);
    }
  }

  lemma SafeMessage(s: State, bytes: seq<byte>, w: Wheel, messages: seq<seq<byte>>)
    requires SafeInv(s, w, messages) && !Unsafe(w, messages + [bytes]) && !s.masked
    requires View(Step(s, Message(bytes))) == AfterAll(w, messages + [bytes])
    ensures SafeInv(Step(s, Message(bytes)), w, messages + [bytes])
  {
    hide AfterAll, StepWrites, PairCore, Asleep, EverActive, Unsafe, Switched;
    var t, longer := Step(s, Message(bytes)), messages + [bytes];
    UnsafeMore(w, messages, bytes);
    if EverActive(w, messages) {
      WritesKeepPairCore(s, Decode(bytes));
    } else {
      AsleepWrites(s, Decode(bytes));
      AsleepIsPaired(t);
    }
  }

  lemma {:induction false} SafeRun(s0: State, events: seq<Event>)
    requires Init(s0) && !Unsafe(View(s0), Landed(s0, events))
    ensures SafeInv(Run(s0, events), View(s0), Landed(s0, events))
    decreases |events|
  {
    hide Unsafe, SafeInv, Init, Step;
    if events == [] {
      SafeStart(s0);
    } else {
      var before, e := events[..|events| - 1], events[|events| - 1];
      SafePrefix(s0, before, e);
      assert events == before + [e];
      SafeRun(s0, before);
      SafeStep(s0, before, e);
    }
  }

  lemma SafeStart(s0: State)
    requires Init(s0) && !Unsafe(View(s0), [])
    ensures SafeInv(s0, View(s0), [])
  {
    hide EverActive;
    InitPair(s0);
    if EverActive(View(s0), []) {
    } else {
      AsleepStart(s0);
    }
  }

  lemma AsleepStart(s0: State)
    requires Init(s0)
    ensures Asleep(s0)
  {
  }

  lemma SafePrefix(s0: State, before: seq<Event>, e: Event)
    requires !Unsafe(View(s0), Landed(s0, before + [e]))
    ensures !Unsafe(View(s0), Landed(s0, before))
  {
    hide Unsafe, Landed, Run, View;
    LandedMore(s0, before, e);
    if e.Message? && !Run(s0, before).masked {
      UnsafeMore(View(s0), Landed(s0, before), e.bytes);
    }
  }

  lemma SafeStep(s0: State, before: seq<Event>, e: Event)
    requires SafeInv(Run(s0, before), View(s0), Landed(s0, before)) && !Unsafe(View(s0), Landed(s0, before + [e]))
    ensures SafeInv(Run(s0, before + [e]), View(s0), Landed(s0, before + [e]))
  {
    hide Unsafe, Landed, Run, View, SafeInv, StepMain, StepWrites;
    var s := Run(s0, before);
    RunMore(s0, before, e);
    LandedMore(s0, before, e);
    ViewOfRun(s0, before);
    ViewOfRun(s0, before + [e]);
    match e
    case Main(sensors) => SafeMain(s, sensors, View(s0), Landed(s0, before));
    case Message(bytes) =>
      if !s.masked {
        SafeMessage(s, bytes, View(s0), Landed(s0, before));
      }
    case Request => SafeRequest(s, View(s0), Landed(s0, before));
  }

  lemma SafeRequest(s: State, w: Wheel, messages: seq<seq<byte>>)
    requires SafeInv(s, w, messages)
    ensures SafeInv(Step(s, Request), w, messages)
  {
    hide EverActive;
    assert View(Step(s, Request)) == View(s);
  }

  lemma SafeIsPaired(s: State, w: Wheel, messages: seq<seq<byte>>)
    requires SafeInv(s, w, messages)
    ensures Paired(s.log)
  {
    hide EverActive;
    if Asleep(s) {
      AsleepIsPaired(s);
    }
    hide RwaInv, Asleep, Paired;
    PairedNow(s);
  }

  // ----- An unsafe list has a schedule that mixes -----

  function Deliveries(messages: seq<seq<byte>>): (events: seq<Event>)
    ensures |events| == |messages|
  {
    seq(|messages|, i requires 0 <= i < |messages| => Message(messages[i]))
  }

  lemma DeliveriesMore(messages: seq<seq<byte>>, m: seq<byte>)
    ensures Deliveries(messages + [m]) == Deliveries(messages) + [Message(m)]
  {
  }

  /** Messages that arrive while the loop rests outside a masked block all land, and leave the loop where it is. */
  lemma {:induction false} Deliver(s0: State, events: seq<Event>, messages: seq<seq<byte>>)
    requires !Run(s0, events).masked
    ensures var s, t := Run(s0, events), Run(s0, events + Deliveries(messages));
            && t.pc == s.pc && !t.masked && t.log.rwaDone == s.log.rwaDone && s.log.rwaSent <= t.log.rwaSent
            && Landed(s0, events + Deliveries(messages)) == Landed(s0, events) + messages
    decreases |messages|
  {
    hide Run, Landed, Deliveries;
    if messages == [] {
      NoDeliveries(events);
    } else {
      var before, m := messages[..|messages| - 1], messages[|messages| - 1];
      Deliver(s0, events, before);
      DeliverOne(s0, events + Deliveries(before), m);
      DeliveriesMore(before, m);
      assert messages == before + [m];
      assert events + Deliveries(before) + [Message(m)] == events + (Deliveries(before) + [Message(m)]);
      assert Landed(s0, events) + before + [m] == Landed(s0, events) + (before + [m]);
    }
  }

  lemma NoDeliveries(events: seq<Event>)
    ensures events + Deliveries([]) == events
  {
  }

  lemma DeliverOne(s0: State, events: seq<Event>, m: seq<byte>)
    requires !Run(s0, events).masked
    ensures var s, t := Run(s0, events), Run(s0, events + [Message(m)]);
            && t.pc == s.pc && !t.masked && t.log.rwaDone == s.log.rwaDone && s.log.rwaSent <= t.log.rwaSent
            && Landed(s0, events + [Message(m)]) == Landed(s0, events) + [m]
  {
    hide Run, Landed, StepWrites;
    RunMore(s0, events, Message(m));
    LandedMore(s0, events, Message(m));
    WritesFrame(Run(s0, events), Decode(m));
  }

  lemma {:induction false} WritesFrame(s: State, ops: seq<Op>)
    requires forall op | op in ops :: op.Valid()
    ensures var t := StepWrites(s, ops);
            t.pc == s.pc && t.masked == s.masked && t.log.rwaDone == s.log.rwaDone && s.log.rwaSent <= t.log.rwaSent
    decreases |ops|
  {
    if ops != [] {
      WriteFrame(s, ops[0]);
      hide StepWrite;
      WritesFrame(StepWrite(s, ops[0]), ops[1..]);
    }
  }

  lemma WriteFrame(s: State, op: Op)
    requires op.Valid()
    ensures var t := StepWrite(s, op);
            t.pc == s.pc && t.masked == s.masked && t.log.rwaDone == s.log.rwaDone && s.log.rwaSent <= t.log.rwaSent
  {
  }

  /** Main loop steps let no message land. */
  lemma {:induction false} MainsLandNothing(s0: State, events: seq<Event>, e: Sensors, n: nat)
    ensures Landed(s0, events + Mains(e, n)) == Landed(s0, events)
    decreases n
  {
    hide Run, Landed, Mains;
    if n == 0 {
      NoMains(events, e);
    } else {
      MainsLandNothing(s0, events, e, n - 1);
      LandedMore(s0, events + Mains(e, n - 1), Main(e));
      MainsMore(events, e, n - 1);
    }
  }

  lemma NoMains(events: seq<Event>, e: Sensors)
    ensures events + Mains(e, 0) == events
  {
  }

  lemma {:induction false} SentAreActive(s0: State, events: seq<Event>)
    requires Init(s0)
    ensures SentActive(Run(s0, events).log.rwaSent)
  {
    RunHasOrigins(s0, events);
    SentGrows(s0, events);
    hide Run;
    var sent := Run(s0, events).log.rwaSent;
    forall i | 0 <= i < |sent|
      ensures ActiveWheelMode(sent[i].mode) <==> i > 0
    {
      if i > 0 {
        assert WheelOrigin(sent[i], events);
      } else {
        assert sent[0] == s0.log.rwaSent[0];
      }
    }
  }

  lemma {:induction false} SentGrows(s0: State, events: seq<Event>)
    ensures s0.log.rwaSent <= Run(s0, events).log.rwaSent
    decreases |events|
  {
    hide Step;
    if events != [] {
      SentGrows(s0, events[..|events| - 1]);
      SentGrowsStep(Run(s0, events[..|events| - 1]), events[|events| - 1]);
    }
  }

  lemma SentGrowsStep(s: State, e: Event)
    ensures s.log.rwaSent <= Step(s, e).log.rwaSent
  {
    hide StepMain, StepWrites;
    match e
    case Main(sensors) => MovedOneStep(s, sensors);
    case Message(bytes) => WritesFrame(s, Decode(bytes));
    case Request =>
  }

  /** Only main loop steps and messages, so any such run is valid. */
  lemma ValidRun(events: seq<Event>, messages: seq<seq<byte>>, e: Sensors, n: nat)
    requires ValidEvents(events) && e.Valid()
    ensures ValidEvents(events + Deliveries(messages)) && ValidEvents(events + Mains(e, n))
  {
  }

  /** First the messages up to a point where the ADCS is active; the loop goes on to the wheels and finds it active. */
  lemma ReachWheels(s0: State, e: Sensors, messages: seq<seq<byte>>) returns (events: seq<Event>)
    requires Init(s0) && e.Valid() && AfterAll(View(s0), messages).adcs == ADCS_ACTIVE
    ensures ValidEvents(events) && Landed(s0, events) == messages
    ensures var s := Run(s0, events); s.pc == InRwa(RwaFlag) && !s.masked && s.log.rwaDone == []
  {
    hide Run, Landed, Inv, Steps, AfterAll, StepMain, Deliveries, Mains, ValidEvents, Moved;
    var none: seq<Event> := [];
    Nothing(s0);
    Deliver(s0, none, messages);
    NoEvents(none + Deliveries(messages));
    var delivered := none + Deliveries(messages);
    ValidRun(none, messages, e, 0);
    RunKeepsInv(s0, delivered);
    ViewOfRun(s0, delivered);
    var s1 := Run(s0, delivered);
    assert Landed(s0, delivered) == messages;
    var n := Leave(s1, e);
    var s2 := Steps(s1, e, n);
    var m := Leave(s2, e);
    StepsAdd(s1, e, n, m);
    var s3 := Steps(s2, e, m);
    MovedTo(s1, s2, s3);
    StepsAdd(s1, e, n + m, 1);
    OneStep(s3, e);
    Awake(s3, e);
    events := delivered + Mains(e, n + m + 1);
    StepsAreRun(s0, delivered, e, n + m + 1);
    MainsLandNothing(s0, delivered, e, n + m + 1);
    ValidRun(delivered, [], e, n + m + 1);
    Unmasked(s3, e);
  }

  lemma Nothing(s0: State)
    requires Init(s0)
    ensures Run(s0, []) == s0 && s0.pc == InImu(ImuSense) && !s0.masked && s0.log.rwaDone == [] && Landed(s0, []) == []
    ensures ValidEvents([])
  {
  }

  lemma NoEvents(events: seq<Event>)
    ensures [] + events == events
  {
  }

  lemma MovedTo(s1: State, s2: State, s3: State)
    requires Moved(s1, s2) && Moved(s2, s3) && s1.pc == InImu(ImuSense) && s2.pc == InMtr(MtrActive)
    ensures s3.regs.mode == s1.regs.mode && s3.log.rwaDone == s1.log.rwaDone
  {
  }

  lemma Awake(s: State, e: Sensors)
    requires s.pc == InRwa(RwaActive) && s.regs.mode == ADCS_ACTIVE
    ensures StepMain(s, e).pc == InRwa(RwaFlag) && StepMain(s, e).log.rwaDone == s.log.rwaDone
  {
  }

  lemma Unmasked(s: State, e: Sensors)
    requires Inv(s) && s.pc == InRwa(RwaActive)
    ensures !StepMain(s, e).masked
  {
  }

  /** Then the messages up to the switch, with the loop about to look at the flag; it takes the newest command with the new
      mode. Whatever is sent after that comes too late. */
  lemma UnsafeMixes(s0: State, e: Sensors, messages: seq<seq<byte>>, a: nat, i: nat) returns (events: seq<Event>)
    requires Init(s0) && e.Valid() && a <= i <= |messages|
    requires ActiveAt(View(s0), messages, a) && SwitchedAt(View(s0), messages, i)
    ensures ValidEvents(events) && Landed(s0, events) == messages && Mixed(Run(s0, events).log)
  {
    hide Run, Landed, Inv, Steps, AfterAll, StepMain, Deliveries, Mains, ValidEvents, Mixed, Init, RwaInv, SentActive, Switched;
    var first := ReachWheels(s0, e, messages[..a]);
    Deliver(s0, first, messages[a..i]);
    var second := first + Deliveries(messages[a..i]);
    assert messages[..a] + messages[a..i] == messages[..i];
    ValidRun(first, messages[a..i], e, 0);
    RunIsFine(s0, second);
    ViewOfRun(s0, second);
    var s := Run(s0, second);
    SwitchedIsPending(s);
    var n := MixFromBefore(s, e);
    StepsAreRun(s0, second, e, n);
    MainsLandNothing(s0, second, e, n);
    ValidRun(second, [], e, n);
    var third := second + Mains(e, n);
    Deliver(s0, third, messages[i..]);
    ValidRun(third, messages[i..], e, 0);
    events := third + Deliveries(messages[i..]);
    assert messages[..i] + messages[i..] == messages;
    StillMixed(Run(s0, third).log, Run(s0, events).log);
  }

  lemma RunIsFine(s0: State, events: seq<Event>)
    requires Init(s0) && ValidEvents(events)
    ensures RwaInv(Run(s0, events)) && SentActive(Run(s0, events).log.rwaSent)
  {
    hide Run, Init, RwaInv;
    RunKeepsInv(s0, events);
    WheelPart(Run(s0, events));
    SentAreActive(s0, events);
  }

  lemma SwitchedIsPending(s: State)
    requires RwaInv(s) && s.pc == InRwa(RwaFlag) && s.log.rwaDone == [] && Switched(View(s))
    requires SentActive(s.log.rwaSent)
    ensures s.regs.rwa.flag == UPDATED
  {
    var sent := s.log.rwaSent;
    assert ActiveWheelMode(sent[|sent| - 1].mode);
  }

  lemma StillMixed(log: Log, longer: Log)
    requires Mixed(log) && longer.rwaDone == log.rwaDone && log.rwaSent <= longer.rwaSent
    ensures Mixed(longer)
  {
    var d :| d in log.rwaDone && MixedCopy(log, d);
    assert MixedCopy(longer, d);
  }

  /** A list of messages is safe, whenever they arrive, exactly when none leaves the mode switched once the ADCS has been
      active. */
  lemma MessagesAreSafeIff(s0: State, e: Sensors, messages: seq<seq<byte>>)
    requires Init(s0) && e.Valid()
    ensures (forall events | ValidEvents(events) && Landed(s0, events) == messages :: Paired(Run(s0, events).log))
            <==> !Unsafe(View(s0), messages)
  {
    hide Run, Landed, ValidEvents, Paired, Init, Mixed, ActiveAt, SwitchedAt;
    if Unsafe(View(s0), messages) {
      var a: nat, i: nat :| a <= i <= |messages| && ActiveAt(View(s0), messages, a) && SwitchedAt(View(s0), messages, i);
      var events := UnsafeMixes(s0, e, messages, a, i);
      MixedIsNotPaired(Run(s0, events).log);
    } else {
      forall events | ValidEvents(events) && Landed(s0, events) == messages
        ensures Paired(Run(s0, events).log)
      {
        hide SafeInv, Unsafe;
        SafeRun(s0, events);
        SafeIsPaired(Run(s0, events), View(s0), messages);
      }
    }
  }

  // ----- The driver, and senders that are safe -----

  /** One call of set_rwa_mode: a message with the mode, and one with the vector. */
  datatype Call = Call(mode: byte, data: seq<byte>)

  function CallMessages(calls: seq<Call>): (messages: seq<seq<byte>>)
  {
    if calls == [] then []
    else
      var c := calls[|calls| - 1];
      CallMessages(calls[..|calls| - 1]) + [[RWA_MODE, c.mode]] + [[RWA_COMMAND] + c.data]
  }

  /** The mode of the last call with an active one, or another if there is none. */
  function LastActive(calls: seq<Call>, otherwise: byte): byte {
    if calls == [] then otherwise
    else if ActiveWheelMode(calls[|calls| - 1].mode) then calls[|calls| - 1].mode
    else LastActive(calls[..|calls| - 1], otherwise)
  }

  /** Some two calls have different active modes. */
  ghost predicate UsesBothModes(calls: seq<Call>) {
    exists i, j :: 0 <= i < j < |calls| && ActiveWheelMode(calls[i].mode) && ActiveWheelMode(calls[j].mode)
                   && calls[i].mode != calls[j].mode
  }

  /** The set_mode call that makes the ADCS active, then calls of set_rwa_mode. */
  function DriverMessages(calls: seq<Call>): (messages: seq<seq<byte>>) {
    [[ADCS_MODE, ADCS_ACTIVE]] + CallMessages(calls)
  }

  /** What a list of calls leaves, and whether it was ever unsafe. */
  lemma {:induction false} CallsUnsafeIff(w: Wheel, calls: seq<Call>)
    requires (forall c | c in calls :: |c.data| == 6) && !ActiveWheelMode(w.newest)
    ensures var v := AfterAll(w, DriverMessages(calls));
            && v.adcs == ADCS_ACTIVE && v.newest == LastActive(calls, w.newest)
            && (calls != [] ==> v.mode == calls[|calls| - 1].mode) && (calls == [] ==> v.mode == w.mode)
    ensures EverActive(w, DriverMessages(calls)) && (Unsafe(w, DriverMessages(calls)) <==> UsesBothModes(calls))
  {
    if calls == [] {
      NoCalls(w);
    } else {
      var n := |calls| - 1;
      var before, c := calls[..n], calls[n];
      assert forall x | x in before :: x in calls;
      CallsUnsafeIff(w, before);
      assert c in calls;
      OneCall(w, before, c);
      assert calls == before + [c];
    }
  }

  lemma NoCalls(w: Wheel)
    requires !ActiveWheelMode(w.newest)
    ensures var m := DriverMessages([]);
            AfterAll(w, m) == w.(adcs := ADCS_ACTIVE) && EverActive(w, m) && !Unsafe(w, m) && !UsesBothModes([])
  {
    hide Unsafe, EverActive;
    var none: seq<seq<byte>> := [];
    assert DriverMessages([]) == none + [[ADCS_MODE, ADCS_ACTIVE]];
    AfterMore(w, none, [ADCS_MODE, ADCS_ACTIVE]);
    UnsafeMore(w, none, [ADCS_MODE, ADCS_ACTIVE]);
    NoneUnsafe(w);
  }

  lemma NoneUnsafe(w: Wheel)
    requires !ActiveWheelMode(w.newest)
    ensures !Unsafe(w, [])
  {
    assert forall i: nat | i <= 0 :: !SwitchedAt(w, [], i);
  }

  /** One more call: its mode message is the only chance for a switch. */
  lemma OneCall(w: Wheel, before: seq<Call>, c: Call)
    requires |c.data| == 6 && !ActiveWheelMode(w.newest)
    requires var v := AfterAll(w, DriverMessages(before));
             v.adcs == ADCS_ACTIVE && v.newest == LastActive(before, w.newest)
    requires EverActive(w, DriverMessages(before)) && (Unsafe(w, DriverMessages(before)) <==> UsesBothModes(before))
    ensures var v, calls := AfterAll(w, DriverMessages(before + [c])), before + [c];
            && v.adcs == ADCS_ACTIVE && v.newest == LastActive(calls, w.newest) && v.mode == c.mode
            && EverActive(w, DriverMessages(calls)) && (Unsafe(w, DriverMessages(calls)) <==> UsesBothModes(calls))
  {
    hide Unsafe, EverActive, UsesBothModes, AfterAll, DriverMessages;
    var messages := DriverMessages(before);
    var mode, command := [RWA_MODE, c.mode], [RWA_COMMAND] + c.data;
    CallMore(before, c);
    AfterMore(w, messages, mode);
    AfterMore(w, messages + [mode], command);
    UnsafeMore(w, messages, mode);
    UnsafeMore(w, messages + [mode], command);
    LastActiveMore(before, c, w.newest);
    BothModesMore(before, c, w.newest);
  }

  lemma CallMore(before: seq<Call>, c: Call)
    ensures DriverMessages(before + [c]) == DriverMessages(before) + [[RWA_MODE, c.mode]] + [[RWA_COMMAND] + c.data]
  {
    var calls := before + [c];
    assert calls[..|calls| - 1] == before && calls[|calls| - 1] == c;
  }

  lemma LastActiveMore(before: seq<Call>, c: Call, otherwise: byte)
    ensures LastActive(before + [c], otherwise) == if ActiveWheelMode(c.mode) then c.mode else LastActive(before, otherwise)
  {
    var calls := before + [c];
    assert calls[..|calls| - 1] == before && calls[|calls| - 1] == c;
  }

  lemma {:induction false} LastActiveIs(calls: seq<Call>, otherwise: byte)
    requires !ActiveWheelMode(otherwise)
    ensures var m := LastActive(calls, otherwise);
            if ActiveWheelMode(m) then exists i :: 0 <= i < |calls| && calls[i].mode == m
            else forall i | 0 <= i < |calls| :: !ActiveWheelMode(calls[i].mode)
  {
    if calls != [] {
      var n := |calls| - 1;
      LastActiveIs(calls[..n], otherwise);
      if ActiveWheelMode(calls[n].mode) {
      } else if ActiveWheelMode(LastActive(calls[..n], otherwise)) {
        var i :| 0 <= i < n && calls[..n][i].mode == LastActive(calls[..n], otherwise);
        assert calls[i].mode == LastActive(calls, otherwise);
      } else {
        assert forall i | 0 <= i < n :: calls[..n][i] == calls[i];
      }
    }
  }

  /** Another active mode comes in with a call exactly when the last active mode was another, if there was no other before. */
  lemma BothModesMore(before: seq<Call>, c: Call, otherwise: byte)
    requires !ActiveWheelMode(otherwise)
    ensures var m := LastActive(before, otherwise);
            UsesBothModes(before + [c])
            <==> UsesBothModes(before) || (ActiveWheelMode(c.mode) && ActiveWheelMode(m) && m != c.mode)
  {
    var calls, n := before + [c], |before|;
    LastActiveIs(before, otherwise);
    var m := LastActive(before, otherwise);
    assert forall i | 0 <= i < n :: calls[i] == before[i];
    if UsesBothModes(calls) {
      var i, j :| 0 <= i < j < |calls| && ActiveWheelMode(calls[i].mode) && ActiveWheelMode(calls[j].mode)
                  && calls[i].mode != calls[j].mode;
      if j < n {
        assert before[i] == calls[i] && before[j] == calls[j];
      } else if m == c.mode {
        var k :| 0 <= k < n && before[k].mode == m;
        if k < i {
          assert before[k].mode != before[i].mode;
        } else {
          assert before[i].mode != before[k].mode;
        }
      } else {
        assert before[i] == calls[i];
      }
    }
    if UsesBothModes(before) {
      var i, j :| 0 <= i < j < n && ActiveWheelMode(before[i].mode) && ActiveWheelMode(before[j].mode)
                  && before[i].mode != before[j].mode;
      assert calls[i] == before[i] && calls[j] == before[j];
    }
    if ActiveWheelMode(c.mode) && ActiveWheelMode(m) && m != c.mode {
      var k :| 0 <= k < n && before[k].mode == m;
      assert calls[k] == before[k] && calls[n] == c;
    }
  }

  /** The driver as it is: calls are safe whenever their messages arrive exactly when they all use one active mode. */
  lemma DriverIsSafeIff(s0: State, e: Sensors, calls: seq<Call>)
    requires Init(s0) && e.Valid() && forall c | c in calls :: |c.data| == 6
    ensures (forall events | ValidEvents(events) && Landed(s0, events) == DriverMessages(calls) :: Paired(Run(s0, events).log))
            <==> !UsesBothModes(calls)
  {
    InitPair(s0);
    hide Init, Run, Landed, Paired, ValidEvents, Unsafe, UsesBothModes, DriverMessages;
    CallsUnsafeIff(View(s0), calls);
    MessagesAreSafeIff(s0, e, DriverMessages(calls));
  }

  /** From power-on: a speed call and then a torque call, whose mode message reaches the loop first, drive the wheels in
      torque mode with the speed vector. */
  lemma DriverMixes(s0: State, e: Sensors, speed: seq<byte>, torque: seq<byte>) returns (events: seq<Event>)
    requires Init(s0) && e.Valid() && |speed| == 6 && |torque| == 6
    ensures ValidEvents(events) && Mixed(Run(s0, events).log)
    ensures Landed(s0, events) == [[ADCS_MODE, ADCS_ACTIVE], [RWA_MODE, RWA_SPEED_CTRL], [RWA_COMMAND] + speed,
                                   [RWA_MODE, RWA_ACCEL_CTRL], [RWA_COMMAND] + torque]
  {
    InitPair(s0);
    hide Init, Run, Landed, ValidEvents, Mixed, AfterAll;
    var w := View(s0);
    var none: seq<seq<byte>> := [];
    var m0, m1 := [ADCS_MODE, ADCS_ACTIVE], [RWA_MODE, RWA_SPEED_CTRL];
    var m2, m3 := [RWA_COMMAND] + speed, [RWA_MODE, RWA_ACCEL_CTRL];
    var messages := [m0, m1, m2, m3, [RWA_COMMAND] + torque];
    FourMessages(w, m0, m1, m2, m3);
    assert messages[..4] == [m0, m1, m2, m3];
    events := UnsafeMixes(s0, e, messages, 4, 4);
  }

  lemma FourMessages(w: Wheel, m0: seq<byte>, m1: seq<byte>, m2: seq<byte>, m3: seq<byte>)
    ensures AfterAll(w, [m0, m1, m2, m3]) == After(After(After(After(w, m0), m1), m2), m3)
  {
    hide After;
    var none: seq<seq<byte>> := [];
    AfterMore(w, none, m0);
    AfterMore(w, [m0], m1);
    AfterMore(w, [m0, m1], m2);
    AfterMore(w, [m0, m1, m2], m3);
    assert none + [m0] == [m0] && [m0] + [m1] == [m0, m1] && [m0, m1] + [m2] == [m0, m1, m2];
    assert [m0, m1, m2] + [m3] == [m0, m1, m2, m3];
  }

  /** A message that writes an active wheel mode carries its vector. */
  predicate CarriesVector(m: seq<byte>) {
    |m| >= 2 && m[0] == RWA_MODE && ActiveWheelMode(m[1]) ==> |m| >= 8
  }

  /** Full messages, lone commands and lone disabling messages are always safe. */
  lemma FullMessagesAreSafe(s0: State, events: seq<Event>)
    requires Init(s0) && forall e | e in events && e.Message? :: CarriesVector(e.bytes)
    ensures Paired(Run(s0, events).log)
  {
    InitPair(s0);
    hide Init, Run, Unsafe, SafeInv, Paired, CarriesVector, PairInv;
    LandedAreSent(s0, events);
    NeverSwitched(View(s0), Landed(s0, events));
    SafeRun(s0, events);
    SafeIsPaired(Run(s0, events), View(s0), Landed(s0, events));
  }

  lemma {:induction false} LandedAreSent(s0: State, events: seq<Event>)
    requires forall e | e in events && e.Message? :: CarriesVector(e.bytes)
    ensures forall m | m in Landed(s0, events) :: CarriesVector(m)
    decreases |events|
  {
    hide Run, CarriesVector;
    if events != [] {
      var before, e := events[..|events| - 1], events[|events| - 1];
      assert forall x | x in before :: x in events;
      LandedAreSent(s0, before);
      assert e in events;
    }
  }

  lemma {:induction false} NeverSwitched(w: Wheel, messages: seq<seq<byte>>)
    requires !ActiveWheelMode(w.newest) && forall m | m in messages :: CarriesVector(m)
    ensures !Unsafe(w, messages) && !Switched(AfterAll(w, messages))
    decreases |messages|
  {
    hide Unsafe, EverActive;
    if messages == [] {
      NoneUnsafe(w);
    } else {
      var before, m := messages[..|messages| - 1], messages[|messages| - 1];
      assert forall x | x in before :: x in messages;
      NeverSwitched(w, before);
      assert m in messages;
      UnsafeMore(w, before, m);
      assert messages == before + [m];
    }
  }
}
