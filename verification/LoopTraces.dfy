/** Why the main loop acts (src/adcs/main.cpp): behind every action of every run stand the accesses that led to it, in order,
    each with what it found in the registers at its own moment, whatever messages came in between. */
module LoopTraces {
  import opened AdcsRegisters
  import opened CommandProtocol
  import opened CommandSafety

  /** The state before event i of a run. */
  function At(s0: State, events: seq<Event>, i: nat): State
    requires i <= |events|
  {
    Run(s0, events[..i])
  }

  /** Event i is the main loop's access at a program counter. */
  predicate Access(s0: State, events: seq<Event>, i: nat, pc: Pc) {
    i < |events| && events[i].Main? && At(s0, events, i).pc == pc
  }

  lemma OnlyMainMoves(s: State, e: Event)
    requires !e.Main?
    ensures Step(s, e).pc == s.pc && Step(s, e).main == s.main
    ensures Step(s, e).log.mtrDone == s.log.mtrDone && Step(s, e).log.rwaDone == s.log.rwaDone
    ensures Step(s, e).log.resetDone == s.log.resetDone && Step(s, e).log.disableDone == s.log.disableDone
  {
    if e.Message? {
      hide StepWrites;
      HandlersDoNothing(s, Decode(e.bytes));
    }
  }

  lemma {:induction false} HandlersDoNothing(s: State, ops: seq<Op>)
    requires forall op | op in ops :: op.Valid()
    ensures var t := StepWrites(s, ops);
            && t.pc == s.pc && t.main == s.main
            && t.log.mtrDone == s.log.mtrDone && t.log.rwaDone == s.log.rwaDone
            && t.log.resetDone == s.log.resetDone && t.log.disableDone == s.log.disableDone
    decreases |ops|
  {
    if ops != [] {
      WriteDoesNothing(s, ops[0]);
      hide StepWrite;
      HandlersDoNothing(StepWrite(s, ops[0]), ops[1..]);
    }
  }

  lemma WriteDoesNothing(s: State, op: Op)
    requires op.Valid()
    ensures var t := StepWrite(s, op);
            && t.pc == s.pc && t.main == s.main
            && t.log.mtrDone == s.log.mtrDone && t.log.rwaDone == s.log.rwaDone
            && t.log.resetDone == s.log.resetDone && t.log.disableDone == s.log.disableDone
  {
  }

  /** The latest access of the main loop, if there is one that led to where it stands. */
  lemma {:induction false} LatestAccess(s0: State, events: seq<Event>, end: nat) returns (i: nat)
    requires end <= |events| && At(s0, events, end).pc != s0.pc
    ensures i < end && events[i].Main?
    ensures var t, s := StepMain(At(s0, events, i), events[i].sensors), At(s0, events, end); t.pc == s.pc && t.main == s.main
  {
    hide Step, StepMain;
    var n := end - 1;
    LastEvent(s0, events, n);
    if events[n].Main? {
      i := n;
      MainEvent(At(s0, events, n), events[n]);
    } else {
      OnlyMainMoves(At(s0, events, n), events[n]);
      i := LatestAccess(s0, events, n);
    }
  }

  lemma LastEvent(s0: State, events: seq<Event>, n: nat)
    requires n < |events|
    ensures At(s0, events, n + 1) == Step(At(s0, events, n), events[n])
  {
    hide Step;
    assert events[..n + 1][..n] == events[..n] && events[..n + 1][n] == events[n];
  }

  lemma MainEvent(s: State, e: Event)
    requires e.Main?
    ensures Step(s, e) == StepMain(s, e.sensors)
  {
  }

  /** The vectors have three components, and the loop reads no others. */
  predicate Shaped(s: State) {
    && |s.regs.mtr.cmd| == 3 && |s.regs.rwa.cmd| == 3
    && (s.pc.InMtr? && s.pc.mtr.MtrRead? ==> s.pc.mtr.k < 3)
    && (s.pc.InRwa? && s.pc.rwa.RwaRead? ==> s.pc.rwa.k < 3)
  }

  lemma RunIsShaped(s0: State, events: seq<Event>, i: nat)
    requires Init(s0) && ValidEvents(events) && i <= |events|
    ensures Shaped(At(s0, events, i))
  {
    RunKeepsInv(s0, events[..i]);
    hide Init, Run;
    var s := At(s0, events, i);
    assert MtrInv(s) && RwaInv(s);
    hide Inv;
  }

  lemma Beginning(s0: State)
    requires Init(s0)
    ensures s0.pc == InImu(ImuSense) && s0.log.mtrDone == [] && s0.log.rwaDone == []
    ensures s0.log.resetDone == [] && s0.log.disableDone == []
  {
  }

  // ----- Magnetorquers -----

  /** What the loop must have found one access before it stands where it does. */
  predicate MtrCause(s: State, pc: Pc, main: Locals)
    requires pc.InMtr? && Shaped(s)
  {
    match pc.mtr
    case MtrActive => true
    case MtrFlag => s.pc == InMtr(MtrActive) && s.regs.mode == 1
    case MtrClear => s.pc == InMtr(MtrFlag) && s.regs.mtr.flag == 1
    case MtrMode => s.pc == InMtr(MtrClear) && main.mtr.cmd == []
    case MtrRead(k) =>
      if k == 0 then s.pc == InMtr(MtrMode) && main.mtr == s.main.mtr.(mode := s.regs.mtr.mode)
      else s.pc == InMtr(MtrRead(k - 1)) && k < 3
           && main.mtr == s.main.mtr.(cmd := s.main.mtr.cmd + [s.regs.mtr.cmd[k - 1]])
    case MtrCheck => s.pc == InMtr(MtrRead(2)) && main.mtr == s.main.mtr.(cmd := s.main.mtr.cmd + [s.regs.mtr.cmd[2]])
    case MtrActuate => s.pc == InMtr(MtrCheck) && s.regs.mtr.flag == 0 && main.mtr == s.main.mtr
  }

  lemma BeforeMtr(s: State, e: Sensors)
    requires Shaped(s) && StepMain(s, e).pc.InMtr?
    ensures MtrCause(s, StepMain(s, e).pc, StepMain(s, e).main)
  {
    hide StepImu, StepRwa, StepSsa, StepHavt;
    if !s.pc.InMtr? {
      hide StepMtr, StepMain;
      FrameMain(s, e);
    }
  }

  lemma EarlierMtr(s0: State, events: seq<Event>, end: nat) returns (i: nat)
    requires Init(s0) && ValidEvents(events) && end <= |events| && At(s0, events, end).pc.InMtr?
    ensures i < end && events[i].Main? && Shaped(At(s0, events, i))
    ensures MtrCause(At(s0, events, i), At(s0, events, end).pc, At(s0, events, end).main)
  {
    Beginning(s0);
    hide Init, At, StepMain, ValidEvents, MtrCause, Shaped;
    i := LatestAccess(s0, events, end);
    RunIsShaped(s0, events, i);
    BeforeMtr(At(s0, events, i), events[i].sensors);
  }

  /** The access that acted. */
  lemma {:induction false} MtrActed(s0: State, events: seq<Event>, end: nat, d: Copy) returns (x: nat)
    requires Init(s0) && end <= |events| && d in At(s0, events, end).log.mtrDone
    ensures x < end && Access(s0, events, x, InMtr(MtrActuate)) && At(s0, events, x).main.mtr == d
  {
    Beginning(s0);
    hide Init, Step, StepMain;
    assert events[..0] == [];
    if end > 0 {
      var n := end - 1;
      LastEvent(s0, events, n);
      if d in At(s0, events, n).log.mtrDone {
        x := MtrActed(s0, events, n, d);
      } else {
        x := n;
        if events[n].Main? {
          MainEvent(At(s0, events, n), events[n]);
          MtrLogs(At(s0, events, n), events[n].sensors);
        } else {
          OnlyMainMoves(At(s0, events, n), events[n]);
        }
      }
    }
  }

  lemma MtrLogs(s: State, e: Sensors)
    ensures StepMain(s, e).log.mtrDone == s.log.mtrDone + if s.pc == InMtr(MtrActuate) then [s.main.mtr] else []
  {
    if !s.pc.InMtr? {
      FrameMain(s, e);
      hide StepMain;
    }
  }

  /** Every action of the magnetorquers: the ADCS was active when the loop looked, the flag was up when it looked, then the
      mode and the three components were read one after the other, and then the flag was down. */
  lemma MtrActionsAreExplained(s0: State, events: seq<Event>, d: Copy)
      returns (active: nat, flag: nat, clear: nat, mode: nat, x: nat, y: nat, z: nat, check: nat, act: nat)
    requires Init(s0) && ValidEvents(events) && d in Run(s0, events).log.mtrDone
    ensures active < flag < clear < mode < x < y < z < check < act < |events|
    ensures Access(s0, events, active, InMtr(MtrActive)) && At(s0, events, active).regs.mode == 1
    ensures Access(s0, events, flag, InMtr(MtrFlag)) && At(s0, events, flag).regs.mtr.flag == 1
    ensures Access(s0, events, clear, InMtr(MtrClear))
    ensures Access(s0, events, mode, InMtr(MtrMode)) && d.mode == At(s0, events, mode).regs.mtr.mode
    ensures Access(s0, events, x, InMtr(MtrRead(0))) && Access(s0, events, y, InMtr(MtrRead(1)))
    ensures Access(s0, events, z, InMtr(MtrRead(2)))
    ensures |At(s0, events, x).regs.mtr.cmd| == |At(s0, events, y).regs.mtr.cmd| == |At(s0, events, z).regs.mtr.cmd| == 3
    ensures d.cmd == [At(s0, events, x).regs.mtr.cmd[0], At(s0, events, y).regs.mtr.cmd[1], At(s0, events, z).regs.mtr.cmd[2]]
    ensures Access(s0, events, check, InMtr(MtrCheck)) && At(s0, events, check).regs.mtr.flag == 0
    ensures Access(s0, events, act, InMtr(MtrActuate))
  {
    assert events[..|events|] == events;
    act := MtrActed(s0, events, |events|, d);
    hide Init, At, ValidEvents;
    check := EarlierMtr(s0, events, act);
    z := EarlierMtr(s0, events, check);
    y := EarlierMtr(s0, events, z);
    x := EarlierMtr(s0, events, y);
    mode := EarlierMtr(s0, events, x);
    clear := EarlierMtr(s0, events, mode);
    flag := EarlierMtr(s0, events, clear);
    active := EarlierMtr(s0, events, flag);
  }

  // ----- Wheels -----

  predicate RwaCause(s: State, pc: Pc, main: Locals)
    requires pc.InRwa? && Shaped(s)
  {
    match pc.rwa
    case RwaFlag => s.pc == InRwa(RwaActive) && s.regs.mode == 1
    case RwaClear => s.pc == InRwa(RwaFlag) && s.regs.rwa.flag == 1
    case RwaMode => s.pc == InRwa(RwaClear) && main.rwa.cmd == []
    case RwaRead(k) =>
      if k == 0 then s.pc == InRwa(RwaMode) && main.rwa == s.main.rwa.(mode := s.regs.rwa.mode)
      else s.pc == InRwa(RwaRead(k - 1)) && k < 3
           && main.rwa == s.main.rwa.(cmd := s.main.rwa.cmd + [s.regs.rwa.cmd[k - 1]])
    case RwaCheck => s.pc == InRwa(RwaRead(2)) && main.rwa == s.main.rwa.(cmd := s.main.rwa.cmd + [s.regs.rwa.cmd[2]])
    case RwaActuate => s.pc == InRwa(RwaCheck) && s.regs.rwa.flag == 0 && main.rwa == s.main.rwa
    case _ => true
  }

  lemma BeforeRwa(s: State, e: Sensors)
    requires Shaped(s) && StepMain(s, e).pc.InRwa?
    ensures RwaCause(s, StepMain(s, e).pc, StepMain(s, e).main)
  {
    hide StepImu, StepMtr, StepSsa, StepHavt;
    if !s.pc.InRwa? {
      hide StepRwa, StepMain;
      FrameMain(s, e);
    }
  }

  lemma EarlierRwa(s0: State, events: seq<Event>, end: nat) returns (i: nat)
    requires Init(s0) && ValidEvents(events) && end <= |events| && At(s0, events, end).pc.InRwa?
    ensures i < end && events[i].Main? && Shaped(At(s0, events, i))
    ensures RwaCause(At(s0, events, i), At(s0, events, end).pc, At(s0, events, end).main)
  {
    Beginning(s0);
    hide Init, At, StepMain, ValidEvents, RwaCause, Shaped;
    i := LatestAccess(s0, events, end);
    RunIsShaped(s0, events, i);
    BeforeRwa(At(s0, events, i), events[i].sensors);
  }

  lemma {:induction false} RwaActed(s0: State, events: seq<Event>, end: nat, d: Copy) returns (x: nat)
    requires Init(s0) && end <= |events| && d in At(s0, events, end).log.rwaDone
    ensures x < end && Access(s0, events, x, InRwa(RwaActuate)) && At(s0, events, x).main.rwa == d
  {
    Beginning(s0);
    hide Init, Step, StepMain;
    assert events[..0] == [];
    if end > 0 {
      var n := end - 1;
      LastEvent(s0, events, n);
      if d in At(s0, events, n).log.rwaDone {
        x := RwaActed(s0, events, n, d);
      } else {
        x := n;
        if events[n].Main? {
          MainEvent(At(s0, events, n), events[n]);
          RwaLogs(At(s0, events, n), events[n].sensors);
        } else {
          OnlyMainMoves(At(s0, events, n), events[n]);
        }
      }
    }
  }

  lemma RwaLogs(s: State, e: Sensors)
    ensures StepMain(s, e).log.rwaDone == s.log.rwaDone + if s.pc == InRwa(RwaActuate) then [s.main.rwa] else []
  {
    if !s.pc.InRwa? {
      FrameMain(s, e);
      hide StepMain;
    }
  }

  /** Every action of the wheels, likewise. */
  lemma RwaActionsAreExplained(s0: State, events: seq<Event>, d: Copy)
      returns (active: nat, flag: nat, clear: nat, mode: nat, x: nat, y: nat, z: nat, check: nat, act: nat)
    requires Init(s0) && ValidEvents(events) && d in Run(s0, events).log.rwaDone
    ensures active < flag < clear < mode < x < y < z < check < act < |events|
    ensures Access(s0, events, active, InRwa(RwaActive)) && At(s0, events, active).regs.mode == 1
    ensures Access(s0, events, flag, InRwa(RwaFlag)) && At(s0, events, flag).regs.rwa.flag == 1
    ensures Access(s0, events, clear, InRwa(RwaClear))
    ensures Access(s0, events, mode, InRwa(RwaMode)) && d.mode == At(s0, events, mode).regs.rwa.mode
    ensures Access(s0, events, x, InRwa(RwaRead(0))) && Access(s0, events, y, InRwa(RwaRead(1)))
    ensures Access(s0, events, z, InRwa(RwaRead(2)))
    ensures |At(s0, events, x).regs.rwa.cmd| == |At(s0, events, y).regs.rwa.cmd| == |At(s0, events, z).regs.rwa.cmd| == 3
    ensures d.cmd == [At(s0, events, x).regs.rwa.cmd[0], At(s0, events, y).regs.rwa.cmd[1], At(s0, events, z).regs.rwa.cmd[2]]
    ensures Access(s0, events, check, InRwa(RwaCheck)) && At(s0, events, check).regs.rwa.flag == 0
    ensures Access(s0, events, act, InRwa(RwaActuate))
  {
    assert events[..|events|] == events;
    act := RwaActed(s0, events, |events|, d);
    hide Init, At, ValidEvents;
    check := EarlierRwa(s0, events, act);
    z := EarlierRwa(s0, events, check);
    y := EarlierRwa(s0, events, z);
    x := EarlierRwa(s0, events, y);
    mode := EarlierRwa(s0, events, x);
    clear := EarlierRwa(s0, events, mode);
    flag := EarlierRwa(s0, events, clear);
    active := EarlierRwa(s0, events, flag);
  }

  // ----- Device tables -----

  predicate TableCause(s: State, pc: Pc, main: Locals)
    requires pc.InHavt?
  {
    match pc.havt
    case ResetClear => s.pc == InHavt(ResetFlag) && s.regs.havt.resetFlag == 1
    case ResetRead => s.pc == InHavt(ResetClear)
    case ResetCheck => s.pc == InHavt(ResetRead) && main.table == s.regs.havt.resetTable
    case ResetExecute => s.pc == InHavt(ResetCheck) && s.regs.havt.resetFlag == 0 && main.table == s.main.table
    case DisableClear => s.pc == InHavt(DisableFlag) && s.regs.havt.disableFlag == 1
    case DisableRead => s.pc == InHavt(DisableClear)
    case DisableCheck => s.pc == InHavt(DisableRead) && main.table == s.regs.havt.disableTable
    case DisableExecute => s.pc == InHavt(DisableCheck) && s.regs.havt.disableFlag == 0 && main.table == s.main.table
    case _ => true
  }

  lemma BeforeTable(s: State, e: Sensors)
    requires StepMain(s, e).pc.InHavt?
    ensures TableCause(s, StepMain(s, e).pc, StepMain(s, e).main)
  {
    hide StepImu, StepMtr, StepRwa, StepSsa;
    if !s.pc.InHavt? {
      hide StepHavt, StepMain;
      FrameMain(s, e);
    }
  }

  lemma EarlierTable(s0: State, events: seq<Event>, end: nat) returns (i: nat)
    requires Init(s0) && end <= |events| && At(s0, events, end).pc.InHavt?
    ensures i < end && events[i].Main?
    ensures TableCause(At(s0, events, i), At(s0, events, end).pc, At(s0, events, end).main)
  {
    Beginning(s0);
    hide Init, At, StepMain, TableCause;
    i := LatestAccess(s0, events, end);
    BeforeTable(At(s0, events, i), events[i].sensors);
  }

  lemma TableLogs(s: State, e: Sensors)
    ensures StepMain(s, e).log.resetDone
         == s.log.resetDone + if s.pc == InHavt(ResetExecute) then [Executed(s.main.table, s.main.src)] else []
    ensures StepMain(s, e).log.disableDone
         == s.log.disableDone + if s.pc == InHavt(DisableExecute) then [Executed(s.main.table, s.main.src)] else []
  {
    if !s.pc.InHavt? {
      FrameMain(s, e);
      hide StepMain;
    }
  }

  lemma {:induction false} ResetActed(s0: State, events: seq<Event>, end: nat, d: Executed) returns (x: nat)
    requires Init(s0) && end <= |events| && d in At(s0, events, end).log.resetDone
    ensures x < end && Access(s0, events, x, InHavt(ResetExecute)) && At(s0, events, x).main.table == d.table
  {
    Beginning(s0);
    hide Init, Step, StepMain;
    assert events[..0] == [];
    if end > 0 {
      var n := end - 1;
      LastEvent(s0, events, n);
      if d in At(s0, events, n).log.resetDone {
        x := ResetActed(s0, events, n, d);
      } else {
        x := n;
        if events[n].Main? {
          MainEvent(At(s0, events, n), events[n]);
          TableLogs(At(s0, events, n), events[n].sensors);
        } else {
          OnlyMainMoves(At(s0, events, n), events[n]);
        }
      }
    }
  }

  lemma {:induction false} DisableActed(s0: State, events: seq<Event>, end: nat, d: Executed) returns (x: nat)
    requires Init(s0) && end <= |events| && d in At(s0, events, end).log.disableDone
    ensures x < end && Access(s0, events, x, InHavt(DisableExecute)) && At(s0, events, x).main.table == d.table
  {
    Beginning(s0);
    hide Init, Step, StepMain;
    assert events[..0] == [];
    if end > 0 {
      var n := end - 1;
      LastEvent(s0, events, n);
      if d in At(s0, events, n).log.disableDone {
        x := DisableActed(s0, events, n, d);
      } else {
        x := n;
        if events[n].Main? {
          MainEvent(At(s0, events, n), events[n]);
          TableLogs(At(s0, events, n), events[n].sensors);
        } else {
          OnlyMainMoves(At(s0, events, n), events[n]);
        }
      }
    }
  }

  /** Every reset: its flag was up, then the table was read, then the flag was down. */
  lemma ResetsAreExplained(s0: State, events: seq<Event>, d: Executed)
      returns (flag: nat, clear: nat, read: nat, check: nat, act: nat)
    requires Init(s0) && d in Run(s0, events).log.resetDone
    ensures flag < clear < read < check < act < |events|
    ensures Access(s0, events, flag, InHavt(ResetFlag)) && At(s0, events, flag).regs.havt.resetFlag == 1
    ensures Access(s0, events, clear, InHavt(ResetClear))
    ensures Access(s0, events, read, InHavt(ResetRead)) && d.table == At(s0, events, read).regs.havt.resetTable
    ensures Access(s0, events, check, InHavt(ResetCheck)) && At(s0, events, check).regs.havt.resetFlag == 0
    ensures Access(s0, events, act, InHavt(ResetExecute))
  {
    assert events[..|events|] == events;
    act := ResetActed(s0, events, |events|, d);
    hide Init, At;
    check := EarlierTable(s0, events, act);
    read := EarlierTable(s0, events, check);
    clear := EarlierTable(s0, events, read);
    flag := EarlierTable(s0, events, clear);
  }

  /** And every disabling. */
  lemma DisablesAreExplained(s0: State, events: seq<Event>, d: Executed)
      returns (flag: nat, clear: nat, read: nat, check: nat, act: nat)
    requires Init(s0) && d in Run(s0, events).log.disableDone
    ensures flag < clear < read < check < act < |events|
    ensures Access(s0, events, flag, InHavt(DisableFlag)) && At(s0, events, flag).regs.havt.disableFlag == 1
    ensures Access(s0, events, clear, InHavt(DisableClear))
    ensures Access(s0, events, read, InHavt(DisableRead)) && d.table == At(s0, events, read).regs.havt.disableTable
    ensures Access(s0, events, check, InHavt(DisableCheck)) && At(s0, events, check).regs.havt.disableFlag == 0
    ensures Access(s0, events, act, InHavt(DisableExecute))
  {
    assert events[..|events|] == events;
    act := DisableActed(s0, events, |events|, d);
    hide Init, At;
    check := EarlierTable(s0, events, act);
    read := EarlierTable(s0, events, check);
    clear := EarlierTable(s0, events, read);
    flag := EarlierTable(s0, events, clear);
  }
}
