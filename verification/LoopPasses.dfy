/** What one pass of the main loop through each of its five functions does when no message comes in between
    (src/adcs/main.cpp): the whole state afterwards. And, whatever came in before, that pending commands get through. */
module LoopPasses {
  import opened AdcsRegisters
  import opened CommandProtocol
  import opened MainLoop

  lemma {:induction false} Chain(s: State, e: Sensors, m: nat, t: State, n: nat)
    requires Steps(s, e, m) == t
    ensures Steps(s, e, m + n) == Steps(t, e, n)
  {
    hide Steps;
    StepsAdd(s, e, m, n);
  }

  /** One step and then some. */
  lemma OneMoreStep(s: State, e: Sensors, t: State, n: nat)
    requires StepMain(s, e) == t
    ensures Steps(s, e, n + 1) == Steps(t, e, n)
  {
    hide StepMain;
  }

  lemma NoStep(s: State, e: Sensors)
    ensures Steps(s, e, 0) == s
  {
  }

  // ----- update_imu -----

  lemma {:induction false} ImuStores(s: State, e: Sensors, k: nat)
    requires k < 9 && s.pc == InImu(ImuStore(k)) && |s.regs.imu.rd| == 9 && |s.main.imu| == 9
    ensures Steps(s, e, 9 - k)
         == s.(regs := s.regs.(imu := s.regs.imu.(rd := s.regs.imu.rd[..k] + s.main.imu[k..])), pc := InImu(ImuUnmask))
    decreases 9 - k
  {
    var rd := s.regs.imu.rd[k := s.main.imu[k]];
    var t := s.(regs := s.regs.(imu := s.regs.imu.(rd := rd)), pc := InImu(if k == 8 then ImuUnmask else ImuStore(k + 1)));
    assert StepMain(s, e) == t;
    hide StepMain;
    OneMoreStep(s, e, t, 8 - k);
    if k == 8 {
      NoStep(t, e);
      assert rd == s.regs.imu.rd[..8] + s.main.imu[8..];
    } else {
      ImuStores(t, e, k + 1);
      assert rd[..k + 1] + s.main.imu[k + 1..] == s.regs.imu.rd[..k] + s.main.imu[k..];
    }
  }

  lemma ImuBegin(s: State, e: Sensors)
    requires s.pc == InImu(ImuSense)
    ensures Steps(s, e, 2)
         == s.(main := s.main.(imu := e.imu, temperature := e.temperature), masked := true, pc := InImu(ImuStore(0)),
               log := s.log.(imuSamples := s.log.imuSamples + [e.imu],
                             temperatures := s.log.temperatures + [e.temperature]))
  {
    var t1 := s.(main := s.main.(imu := e.imu, temperature := e.temperature), pc := InImu(ImuMask),
                 log := s.log.(imuSamples := s.log.imuSamples + [e.imu],
                               temperatures := s.log.temperatures + [e.temperature]));
    assert StepMain(s, e) == t1;
    OneStep(t1, e);
    OneMoreStep(s, e, t1, 1);
  }

  lemma ImuStored(s: State, e: Sensors)
    requires s.pc == InImu(ImuStore(0)) && |s.regs.imu.rd| == 9 && |s.main.imu| == 9
    ensures Steps(s, e, 9) == s.(regs := s.regs.(imu := s.regs.imu.(rd := s.main.imu)), pc := InImu(ImuUnmask))
  {
    hide Steps;
    ImuStores(s, e, 0);
    assert s.regs.imu.rd[..0] + s.main.imu[0..] == s.main.imu;
  }

  /** All nine readings and the temperature are stored, and both magnetometers set back to normal operation. */
  lemma ImuPass(s: State, e: Sensors)
    requires s.pc == InImu(ImuSense) && !s.masked && |s.regs.imu.rd| == 9 && e.Valid()
    ensures Steps(s, e, 15)
         == s.(regs := s.regs.(imu := s.regs.imu.(rd := e.imu, gyrTempRd := e.temperature, mag1Mode := 0, mag2Mode := 0)),
               main := s.main.(imu := e.imu, temperature := e.temperature),
               log := s.log.(imuSamples := s.log.imuSamples + [e.imu], temperatures := s.log.temperatures + [e.temperature]),
               pc := InMtr(MtrActive))
  {
    hide Steps;
    ImuBegin(s, e);
    var t1 := Steps(s, e, 2);
    ImuStored(t1, e);
    var t2 := Steps(t1, e, 9);
    ImuEnd(t2, e);
    Chain(t1, e, 9, t2, 4);
    Chain(s, e, 2, t1, 13);
  }

  lemma ImuEnd(s: State, e: Sensors)
    requires s.pc == InImu(ImuUnmask)
    ensures Steps(s, e, 4)
         == s.(regs := s.regs.(imu := s.regs.imu.(gyrTempRd := s.main.temperature, mag1Mode := 0, mag2Mode := 0)),
               masked := false, pc := InMtr(MtrActive))
  {
    var t1 := s.(masked := false, pc := InImu(ImuMag1));
    assert StepMain(s, e) == t1;
    var t2 := t1.(regs := s.regs.(imu := s.regs.imu.(mag1Mode := 0)), pc := InImu(ImuMag2));
    assert StepMain(t1, e) == t2;
    var t3 := t1.(regs := s.regs.(imu := s.regs.imu.(mag1Mode := 0, mag2Mode := 0)), pc := InImu(ImuTemperature));
    assert StepMain(t2, e) == t3;
    var t4 := t3.(regs := s.regs.(imu := s.regs.imu.(gyrTempRd := s.main.temperature, mag1Mode := 0, mag2Mode := 0)),
                  pc := InMtr(MtrActive));
    assert StepMain(t3, e) == t4;
    hide StepMain;
    assert Steps(t4, e, 0) == t4 && Steps(t3, e, 1) == t4 && Steps(t2, e, 2) == t4 && Steps(t1, e, 3) == t4;
  }

  // ----- update_mtr -----

  /** From the clearing of the flag on: mode and vector are copied, and acted on. */
  lemma MtrCopy(s: State, e: Sensors)
    requires s.pc == InMtr(MtrClear) && |s.regs.mtr.cmd| == 3 && s.log.mtrSent != []
    ensures var c := Copy(s.regs.mtr.mode, s.regs.mtr.cmd, |s.log.mtrSent| - 1);
            Steps(s, e, 7)
            == s.(regs := s.regs.(mtr := s.regs.mtr.(flag := 0)), main := s.main.(mtr := c),
                  log := s.log.(mtrDone := s.log.mtrDone + [c]), pc := InRwa(RwaActive))
  {
    var v, m, n := s.regs.mtr.cmd, s.regs.mtr.mode, |s.log.mtrSent| - 1;
    var t1 := s.(regs := s.regs.(mtr := s.regs.mtr.(flag := 0)), main := s.main.(mtr := Copy(0, [], n)), pc := InMtr(MtrMode));
    assert StepMain(s, e) == t1;
    var t2 := t1.(main := s.main.(mtr := Copy(m, [], n)), pc := InMtr(MtrRead(0)));
    assert StepMain(t1, e) == t2;
    var t3 := t1.(main := s.main.(mtr := Copy(m, [v[0]], n)), pc := InMtr(MtrRead(1)));
    assert StepMain(t2, e) == t3;
    var t4 := t1.(main := s.main.(mtr := Copy(m, [v[0], v[1]], n)), pc := InMtr(MtrRead(2)));
    assert StepMain(t3, e) == t4;
    var t5 := t1.(main := s.main.(mtr := Copy(m, v, n)), pc := InMtr(MtrCheck));
    assert [v[0], v[1]] + [v[2]] == v;
    assert StepMain(t4, e) == t5;
    var t6 := t5.(pc := InMtr(MtrActuate));
    assert StepMain(t5, e) == t6;
    var t7 := t6.(log := s.log.(mtrDone := s.log.mtrDone + [Copy(m, v, n)]), pc := InRwa(RwaActive));
    assert StepMain(t6, e) == t7;
    hide StepMain;
    OneStep(t6, e);
    OneMoreStep(t5, e, t6, 1);
    OneMoreStep(t4, e, t5, 2);
    OneMoreStep(t3, e, t4, 3);
    OneMoreStep(t2, e, t3, 4);
    OneMoreStep(t1, e, t2, 5);
    OneMoreStep(s, e, t1, 6);
  }

  /** The rods are driven when the ADCS is active and a command is new, with the mode register and the vector; otherwise the
      pass does nothing. */
  lemma MtrPass(s: State, e: Sensors) returns (n: nat)
    requires s.pc == InMtr(MtrActive) && |s.regs.mtr.cmd| == 3 && s.log.mtrSent != []
    ensures Steps(s, e, n)
         == if s.regs.mode == 1 && s.regs.mtr.flag == 1 then
              var c := Copy(s.regs.mtr.mode, s.regs.mtr.cmd, |s.log.mtrSent| - 1);
              s.(regs := s.regs.(mtr := s.regs.mtr.(flag := 0)), main := s.main.(mtr := c),
                 log := s.log.(mtrDone := s.log.mtrDone + [c]), pc := InRwa(RwaActive))
            else s.(pc := InRwa(RwaActive))
  {
    if s.regs.mode == 1 {
      var t1 := s.(pc := InMtr(MtrFlag));
      assert StepMain(s, e) == t1;
      if s.regs.mtr.flag == 1 {
        var t2 := s.(pc := InMtr(MtrClear));
        assert StepMain(t1, e) == t2;
        hide StepMain;
        MtrCopy(t2, e);
        OneMoreStep(t1, e, t2, 7);
        OneMoreStep(s, e, t1, 8);
        n := 9;
      } else {
        assert StepMain(t1, e) == s.(pc := InRwa(RwaActive));
        OneStep(t1, e);
        OneMoreStep(s, e, t1, 1);
        n := 2;
      }
    } else {
      OneStep(s, e);
      n := 1;
    }
  }

  // ----- update_rwa -----

  lemma RwaCopy(s: State, e: Sensors)
    requires s.pc == InRwa(RwaClear) && |s.regs.rwa.cmd| == 3 && s.log.rwaSent != []
    ensures var c := Copy(s.regs.rwa.mode, s.regs.rwa.cmd, |s.log.rwaSent| - 1);
            Steps(s, e, 7)
            == s.(regs := s.regs.(rwa := s.regs.rwa.(flag := 0)), main := s.main.(rwa := c),
                  log := s.log.(rwaDone := s.log.rwaDone + [c]), pc := InRwa(RwaSense))
  {
    var v, m, n := s.regs.rwa.cmd, s.regs.rwa.mode, |s.log.rwaSent| - 1;
    var t1 := s.(regs := s.regs.(rwa := s.regs.rwa.(flag := 0)), main := s.main.(rwa := Copy(0, [], n)), pc := InRwa(RwaMode));
    assert StepMain(s, e) == t1;
    var t2 := t1.(main := s.main.(rwa := Copy(m, [], n)), pc := InRwa(RwaRead(0)));
    assert StepMain(t1, e) == t2;
    var t3 := t1.(main := s.main.(rwa := Copy(m, [v[0]], n)), pc := InRwa(RwaRead(1)));
    assert StepMain(t2, e) == t3;
    var t4 := t1.(main := s.main.(rwa := Copy(m, [v[0], v[1]], n)), pc := InRwa(RwaRead(2)));
    assert StepMain(t3, e) == t4;
    var t5 := t1.(main := s.main.(rwa := Copy(m, v, n)), pc := InRwa(RwaCheck));
    assert [v[0], v[1]] + [v[2]] == v;
    assert StepMain(t4, e) == t5;
    var t6 := t5.(pc := InRwa(RwaActuate));
    assert StepMain(t5, e) == t6;
    var t7 := t6.(log := s.log.(rwaDone := s.log.rwaDone + [Copy(m, v, n)]), pc := InRwa(RwaSense));
    assert StepMain(t6, e) == t7;
    hide StepMain;
    OneStep(t6, e);
    OneMoreStep(t5, e, t6, 1);
    OneMoreStep(t4, e, t5, 2);
    OneMoreStep(t3, e, t4, 3);
    OneMoreStep(t2, e, t3, 4);
    OneMoreStep(t1, e, t2, 5);
    OneMoreStep(s, e, t1, 6);
  }

  lemma {:induction false} WheelStores(s: State, e: Sensors, k: nat)
    requires k < 6 && s.pc == InRwa(RwaStore(k)) && |s.regs.rwa.rd| == 6 && |s.main.wheels| == 6
    ensures Steps(s, e, 6 - k)
         == s.(regs := s.regs.(rwa := s.regs.rwa.(rd := s.regs.rwa.rd[..k] + s.main.wheels[k..])), pc := InRwa(RwaUnmask))
    decreases 6 - k
  {
    var rd := s.regs.rwa.rd[k := s.main.wheels[k]];
    var t := s.(regs := s.regs.(rwa := s.regs.rwa.(rd := rd)), pc := InRwa(if k == 5 then RwaUnmask else RwaStore(k + 1)));
    assert StepMain(s, e) == t;
    hide StepMain;
    OneMoreStep(s, e, t, 5 - k);
    if k == 5 {
      NoStep(t, e);
      assert rd == s.regs.rwa.rd[..5] + s.main.wheels[5..];
    } else {
      WheelStores(t, e, k + 1);
      assert rd[..k + 1] + s.main.wheels[k + 1..] == s.regs.rwa.rd[..k] + s.main.wheels[k..];
    }
  }

  lemma WheelBegin(s: State, e: Sensors)
    requires s.pc == InRwa(RwaSense)
    ensures Steps(s, e, 2)
         == s.(main := s.main.(wheels := e.wheels), log := s.log.(wheelSamples := s.log.wheelSamples + [e.wheels]),
               masked := true, pc := InRwa(RwaStore(0)))
  {
    var t1 := s.(main := s.main.(wheels := e.wheels), log := s.log.(wheelSamples := s.log.wheelSamples + [e.wheels]),
                 pc := InRwa(RwaMask));
    assert StepMain(s, e) == t1;
    OneStep(t1, e);
    OneMoreStep(s, e, t1, 1);
  }

  lemma WheelsStored(s: State, e: Sensors)
    requires s.pc == InRwa(RwaStore(0)) && |s.regs.rwa.rd| == 6 && |s.main.wheels| == 6
    ensures Steps(s, e, 6) == s.(regs := s.regs.(rwa := s.regs.rwa.(rd := s.main.wheels)), pc := InRwa(RwaUnmask))
  {
    hide Steps;
    WheelStores(s, e, 0);
    assert s.regs.rwa.rd[..0] + s.main.wheels[0..] == s.main.wheels;
  }

  lemma WheelEnd(s: State, e: Sensors)
    requires s.pc == InRwa(RwaUnmask)
    ensures Steps(s, e, 1) == s.(masked := false, pc := InSsa(SsaSense))
  {
    OneStep(s, e);
  }

  /** The wheels are read and the six readings stored. */
  lemma WheelReading(s: State, e: Sensors)
    requires s.pc == InRwa(RwaSense) && !s.masked && |s.regs.rwa.rd| == 6 && e.Valid()
    ensures Steps(s, e, 9)
         == s.(regs := s.regs.(rwa := s.regs.rwa.(rd := e.wheels)), main := s.main.(wheels := e.wheels),
               log := s.log.(wheelSamples := s.log.wheelSamples + [e.wheels]), pc := InSsa(SsaSense))
  {
    hide Steps;
    WheelBegin(s, e);
    var t1 := Steps(s, e, 2);
    WheelsStored(t1, e);
    var t2 := Steps(t1, e, 6);
    WheelEnd(t2, e);
    Chain(t1, e, 6, t2, 1);
    Chain(s, e, 2, t1, 7);
  }

  /** With the ADCS active and a new command, the wheels are driven with the mode register and the vector, and then read;
      otherwise the pass does nothing, not even read them. */
  lemma RwaPass(s: State, e: Sensors) returns (n: nat)
    requires s.pc == InRwa(RwaActive) && !s.masked && |s.regs.rwa.cmd| == 3 && |s.regs.rwa.rd| == 6 && s.log.rwaSent != []
    requires e.Valid()
    ensures Steps(s, e, n)
         == if s.regs.mode == 1 && s.regs.rwa.flag == 1 then
              var c := Copy(s.regs.rwa.mode, s.regs.rwa.cmd, |s.log.rwaSent| - 1);
              s.(regs := s.regs.(rwa := s.regs.rwa.(flag := 0, rd := e.wheels)), main := s.main.(rwa := c, wheels := e.wheels),
                 log := s.log.(rwaDone := s.log.rwaDone + [c], wheelSamples := s.log.wheelSamples + [e.wheels]),
                 pc := InSsa(SsaSense))
            else s.(pc := InSsa(SsaSense))
  {
    if s.regs.mode == 1 {
      var t1 := s.(pc := InRwa(RwaFlag));
      assert StepMain(s, e) == t1;
      if s.regs.rwa.flag == 1 {
        var t2 := s.(pc := InRwa(RwaClear));
        assert StepMain(t1, e) == t2;
        hide StepMain, Steps;
        RwaCopy(t2, e);
        var t3 := Steps(t2, e, 7);
        WheelReading(t3, e);
        Chain(t2, e, 7, t3, 9);
        OneMoreStep(t1, e, t2, 16);
        OneMoreStep(s, e, t1, 17);
        n := 18;
      } else {
        assert StepMain(t1, e) == s.(pc := InSsa(SsaSense));
        OneStep(t1, e);
        OneMoreStep(s, e, t1, 1);
        n := 2;
      }
    } else {
      OneStep(s, e);
      n := 1;
    }
  }

  // ----- update_ssa -----

  lemma {:induction false} VoltStores(s: State, e: Sensors, k: nat)
    requires k < 20 && s.pc == InSsa(SsaVoltage(k)) && |s.regs.ssa.voltages| == 20 && |s.main.volts| == 20
    ensures Steps(s, e, 20 - k)
         == s.(regs := s.regs.(ssa := s.regs.ssa.(voltages := s.regs.ssa.voltages[..k] + s.main.volts[k..])),
               pc := InSsa(SsaMode))
    decreases 20 - k
  {
    var v := s.regs.ssa.voltages[k := s.main.volts[k]];
    var next := InSsa(if k == 19 then SsaMode else SsaVoltage(k + 1));
    var t := s.(regs := s.regs.(ssa := s.regs.ssa.(voltages := v)), pc := next);
    assert StepMain(s, e) == t;
    hide StepMain;
    OneMoreStep(s, e, t, 19 - k);
    if k == 19 {
      NoStep(t, e);
      assert v == s.regs.ssa.voltages[..19] + s.main.volts[19..];
    } else {
      VoltStores(t, e, k + 1);
      assert v[..k + 1] + s.main.volts[k + 1..] == s.regs.ssa.voltages[..k] + s.main.volts[k..];
    }
  }

  lemma {:induction false} SunStores(s: State, e: Sensors, k: nat)
    requires k < 3 && s.pc == InSsa(SsaStore(k)) && |s.regs.ssa.sunVec| == 3 && |s.main.sun.vec| == 3
    ensures Steps(s, e, 3 - k)
         == s.(regs := s.regs.(ssa := s.regs.ssa.(sunVec := s.regs.ssa.sunVec[..k] + s.main.sun.vec[k..])),
               pc := InSsa(SsaSetMode))
    decreases 3 - k
  {
    var v := s.regs.ssa.sunVec[k := s.main.sun.vec[k]];
    var t := s.(regs := s.regs.(ssa := s.regs.ssa.(sunVec := v)), pc := InSsa(if k == 2 then SsaSetMode else SsaStore(k + 1)));
    assert StepMain(s, e) == t;
    hide StepMain;
    OneMoreStep(s, e, t, 2 - k);
    if k == 2 {
      NoStep(t, e);
      assert v == s.regs.ssa.sunVec[..2] + s.main.sun.vec[2..];
    } else {
      SunStores(t, e, k + 1);
      assert v[..k + 1] + s.main.sun.vec[k + 1..] == s.regs.ssa.sunVec[..k] + s.main.sun.vec[k..];
    }
  }

  lemma SunBegin(s: State, e: Sensors)
    requires s.pc == InSsa(SsaCalculate)
    ensures Steps(s, e, 2)
         == s.(main := s.main.(sun := SunResult(e.sun, if e.sunFound then 2 else 0)), masked := true,
               pc := InSsa(SsaStore(0)))
  {
    var t1 := s.(main := s.main.(sun := SunResult(e.sun, if e.sunFound then 2 else 0)), pc := InSsa(SsaMask));
    assert StepMain(s, e) == t1;
    OneStep(t1, e);
    OneMoreStep(s, e, t1, 1);
  }

  lemma SunEnd(s: State, e: Sensors)
    requires s.pc == InSsa(SsaSetMode)
    ensures Steps(s, e, 2)
         == s.(regs := s.regs.(ssa := s.regs.ssa.(mode := s.main.sun.mode)),
               log := s.log.(sunResults := s.log.sunResults + [s.main.sun]), masked := false, pc := InHavt(HavtSense))
  {
    var t1 := s.(regs := s.regs.(ssa := s.regs.ssa.(mode := s.main.sun.mode)),
                 log := s.log.(sunResults := s.log.sunResults + [s.main.sun]), pc := InSsa(SsaUnmask));
    assert StepMain(s, e) == t1;
    OneStep(t1, e);
    OneMoreStep(s, e, t1, 1);
  }

  lemma SunStored(s: State, e: Sensors)
    requires s.pc == InSsa(SsaStore(0)) && |s.regs.ssa.sunVec| == 3 && |s.main.sun.vec| == 3
    ensures Steps(s, e, 3) == s.(regs := s.regs.(ssa := s.regs.ssa.(sunVec := s.main.sun.vec)), pc := InSsa(SsaSetMode))
  {
    hide Steps;
    SunStores(s, e, 0);
    assert s.regs.ssa.sunVec[..0] + s.main.sun.vec[0..] == s.main.sun.vec;
  }

  lemma SunCalculation(s: State, e: Sensors)
    requires s.pc == InSsa(SsaCalculate) && !s.masked && |s.regs.ssa.sunVec| == 3 && e.Valid()
    ensures var result := SunResult(e.sun, if e.sunFound then 2 else 0);
            Steps(s, e, 7)
            == s.(regs := s.regs.(ssa := s.regs.ssa.(sunVec := e.sun, mode := result.mode)), main := s.main.(sun := result),
                  log := s.log.(sunResults := s.log.sunResults + [result]), pc := InHavt(HavtSense))
  {
    hide Steps;
    SunBegin(s, e);
    var t1 := Steps(s, e, 2);
    SunStored(t1, e);
    var t2 := Steps(t1, e, 3);
    SunEnd(t2, e);
    Chain(t1, e, 3, t2, 2);
    Chain(s, e, 2, t1, 5);
  }

  lemma VoltBegin(s: State, e: Sensors)
    requires s.pc == InSsa(SsaSense)
    ensures Steps(s, e, 1)
         == s.(main := s.main.(volts := e.volts), log := s.log.(voltSamples := s.log.voltSamples + [e.volts]),
               pc := InSsa(SsaVoltage(0)))
  {
    OneStep(s, e);
  }

  lemma VoltsStored(s: State, e: Sensors)
    requires s.pc == InSsa(SsaVoltage(0)) && |s.regs.ssa.voltages| == 20 && |s.main.volts| == 20
    ensures Steps(s, e, 20) == s.(regs := s.regs.(ssa := s.regs.ssa.(voltages := s.main.volts)), pc := InSsa(SsaMode))
  {
    hide Steps;
    VoltStores(s, e, 0);
    assert s.regs.ssa.voltages[..0] + s.main.volts[0..] == s.main.volts;
  }

  lemma VoltReading(s: State, e: Sensors)
    requires s.pc == InSsa(SsaSense) && |s.regs.ssa.voltages| == 20 && e.Valid()
    ensures Steps(s, e, 21)
         == s.(regs := s.regs.(ssa := s.regs.ssa.(voltages := e.volts)), main := s.main.(volts := e.volts),
               log := s.log.(voltSamples := s.log.voltSamples + [e.volts]), pc := InSsa(SsaMode))
  {
    hide Steps;
    VoltBegin(s, e);
    var t := Steps(s, e, 1);
    VoltsStored(t, e);
    Chain(s, e, 1, t, 20);
  }

  /** The voltages are stored; and if a sun vector was requested, it is calculated and stored with the mode it ended in. */
  lemma SsaPass(s: State, e: Sensors) returns (n: nat)
    requires s.pc == InSsa(SsaSense) && !s.masked && |s.regs.ssa.voltages| == 20 && |s.regs.ssa.sunVec| == 3 && e.Valid()
    ensures var t := s.(regs := s.regs.(ssa := s.regs.ssa.(voltages := e.volts)), main := s.main.(volts := e.volts),
                        log := s.log.(voltSamples := s.log.voltSamples + [e.volts]), pc := InHavt(HavtSense));
            Steps(s, e, n)
            == if s.regs.ssa.mode == 1 then
                 var result := SunResult(e.sun, if e.sunFound then 2 else 0);
                 t.(regs := t.regs.(ssa := t.regs.ssa.(sunVec := e.sun, mode := result.mode)), main := t.main.(sun := result),
                    log := t.log.(sunResults := s.log.sunResults + [result]))
               else t
  {
    hide Steps;
    VoltReading(s, e);
    var t1 := Steps(s, e, 21);
    if s.regs.ssa.mode == 1 {
      var t2 := t1.(pc := InSsa(SsaCalculate));
      assert StepMain(t1, e) == t2;
      hide StepMain;
      SunCalculation(t2, e);
      OneMoreStep(t1, e, t2, 7);
      Chain(s, e, 21, t1, 8);
      n := 29;
    } else {
      assert StepMain(t1, e) == t1.(pc := InHavt(HavtSense));
      hide StepMain;
      OneStep(t1, e);
      Chain(s, e, 21, t1, 1);
      n := 22;
    }
  }

  // ----- update_havt -----

  lemma ResetCopy(s: State, e: Sensors)
    requires s.pc == InHavt(ResetClear) && s.log.resetSent != []
    ensures var x := Executed(s.regs.havt.resetTable, |s.log.resetSent| - 1);
            Steps(s, e, 4)
            == s.(regs := s.regs.(havt := s.regs.havt.(resetFlag := 0)), main := s.main.(table := x.table, src := x.src),
                  log := s.log.(resetDone := s.log.resetDone + [x]), pc := InHavt(DisableFlag))
  {
    var x := Executed(s.regs.havt.resetTable, |s.log.resetSent| - 1);
    var t1 := s.(regs := s.regs.(havt := s.regs.havt.(resetFlag := 0)), main := s.main.(src := x.src), pc := InHavt(ResetRead));
    assert StepMain(s, e) == t1;
    var t2 := t1.(main := s.main.(table := x.table, src := x.src), pc := InHavt(ResetCheck));
    assert StepMain(t1, e) == t2;
    var t3 := t2.(pc := InHavt(ResetExecute));
    assert StepMain(t2, e) == t3;
    var t4 := t3.(log := s.log.(resetDone := s.log.resetDone + [x]), pc := InHavt(DisableFlag));
    assert StepMain(t3, e) == t4;
    hide StepMain;
    assert Steps(t4, e, 0) == t4 && Steps(t3, e, 1) == t4 && Steps(t2, e, 2) == t4 && Steps(t1, e, 3) == t4;
  }

  lemma DisableCopy(s: State, e: Sensors)
    requires s.pc == InHavt(DisableClear) && s.log.disableSent != []
    ensures var x := Executed(s.regs.havt.disableTable, |s.log.disableSent| - 1);
            Steps(s, e, 4)
            == s.(regs := s.regs.(havt := s.regs.havt.(disableFlag := 0)), main := s.main.(table := x.table, src := x.src),
                  log := s.log.(disableDone := s.log.disableDone + [x]), pc := InImu(ImuSense))
  {
    var x := Executed(s.regs.havt.disableTable, |s.log.disableSent| - 1);
    var t1 := s.(regs := s.regs.(havt := s.regs.havt.(disableFlag := 0)), main := s.main.(src := x.src),
                 pc := InHavt(DisableRead));
    assert StepMain(s, e) == t1;
    var t2 := t1.(main := s.main.(table := x.table, src := x.src), pc := InHavt(DisableCheck));
    assert StepMain(t1, e) == t2;
    var t3 := t2.(pc := InHavt(DisableExecute));
    assert StepMain(t2, e) == t3;
    var t4 := t3.(log := s.log.(disableDone := s.log.disableDone + [x]), pc := InImu(ImuSense));
    assert StepMain(t3, e) == t4;
    hide StepMain;
    assert Steps(t4, e, 0) == t4 && Steps(t3, e, 1) == t4 && Steps(t2, e, 2) == t4 && Steps(t1, e, 3) == t4;
  }

  /** The table is read, and a new reset table executed. */
  lemma ResetPass(s: State, e: Sensors) returns (n: nat)
    requires s.pc == InHavt(HavtSense) && s.log.resetSent != []
    ensures var t := s.(regs := s.regs.(havt := s.regs.havt.(readTable := e.table)),
                        log := s.log.(tables := s.log.tables + [e.table]), pc := InHavt(DisableFlag));
            Steps(s, e, n)
            == if s.regs.havt.resetFlag == 1 then
                 var x := Executed(s.regs.havt.resetTable, |s.log.resetSent| - 1);
                 t.(regs := t.regs.(havt := t.regs.havt.(resetFlag := 0)), main := t.main.(table := x.table, src := x.src),
                    log := t.log.(resetDone := s.log.resetDone + [x]))
               else t
  {
    var t1 := s.(regs := s.regs.(havt := s.regs.havt.(readTable := e.table)),
                 log := s.log.(tables := s.log.tables + [e.table]), pc := InHavt(ResetFlag));
    assert StepMain(s, e) == t1;
    if s.regs.havt.resetFlag == 1 {
      var t2 := t1.(pc := InHavt(ResetClear));
      assert StepMain(t1, e) == t2;
      hide StepMain, Steps;
      ResetCopy(t2, e);
      OneMoreStep(t1, e, t2, 4);
      OneMoreStep(s, e, t1, 5);
      n := 6;
    } else {
      assert StepMain(t1, e) == t1.(pc := InHavt(DisableFlag));
      hide StepMain, Steps;
      OneStep(t1, e);
      OneMoreStep(s, e, t1, 1);
      n := 2;
    }
  }

  /** A new disable table is executed. */
  lemma DisablePass(s: State, e: Sensors) returns (n: nat)
    requires s.pc == InHavt(DisableFlag) && s.log.disableSent != []
    ensures Steps(s, e, n)
         == if s.regs.havt.disableFlag == 1 then
              var x := Executed(s.regs.havt.disableTable, |s.log.disableSent| - 1);
              s.(regs := s.regs.(havt := s.regs.havt.(disableFlag := 0)), main := s.main.(table := x.table, src := x.src),
                 log := s.log.(disableDone := s.log.disableDone + [x]), pc := InImu(ImuSense))
            else s.(pc := InImu(ImuSense))
  {
    if s.regs.havt.disableFlag == 1 {
      var t1 := s.(pc := InHavt(DisableClear));
      assert StepMain(s, e) == t1;
      hide StepMain, Steps;
      DisableCopy(t1, e);
      OneMoreStep(s, e, t1, 4);
      n := 5;
    } else {
      OneStep(s, e);
      n := 1;
    }
  }

  // ----- A command that came in during the copy -----

  /** The copy is dropped, and the command left for the next pass. */
  lemma MtrInterrupted(s: State, e: Sensors)
    requires s.pc == InMtr(MtrCheck) && s.regs.mtr.flag != 0
    ensures Steps(s, e, 1) == s.(pc := InRwa(RwaActive))
  {
    OneStep(s, e);
  }

  /** The copy is dropped, but the wheels are read all the same. */
  lemma RwaInterrupted(s: State, e: Sensors)
    requires s.pc == InRwa(RwaCheck) && s.regs.rwa.flag != 0 && !s.masked && |s.regs.rwa.rd| == 6 && e.Valid()
    ensures Steps(s, e, 10)
         == s.(regs := s.regs.(rwa := s.regs.rwa.(rd := e.wheels)), main := s.main.(wheels := e.wheels),
               log := s.log.(wheelSamples := s.log.wheelSamples + [e.wheels]), pc := InSsa(SsaSense))
  {
    var t := s.(pc := InRwa(RwaSense));
    assert StepMain(s, e) == t;
    hide Steps, StepMain;
    WheelReading(t, e);
    OneMoreStep(s, e, t, 9);
  }

  /** A dropped reset table does not keep the loop from the disable table. */
  lemma TablesInterrupted(s: State, e: Sensors)
    ensures s.pc == InHavt(ResetCheck) && s.regs.havt.resetFlag != 0 ==> Steps(s, e, 1) == s.(pc := InHavt(DisableFlag))
    ensures s.pc == InHavt(DisableCheck) && s.regs.havt.disableFlag != 0 ==> Steps(s, e, 1) == s.(pc := InImu(ImuSense))
  {
    OneStep(s, e);
  }

  // ----- Pending commands get through -----

  /** Where a block stands in the loop. */
  function Index(pc: Pc): nat {
    match pc
    case InImu(_) => 0
    case InMtr(_) => 1
    case InRwa(_) => 2
    case InSsa(_) => 3
    case InHavt(_) => 4
  }

  /** Blocks until the one with some index is entered. */
  function Ahead(pc: Pc, index: nat): nat
    requires index < 5
  {
    if index > Index(pc) then index - Index(pc) else index + 5 - Index(pc)
  }

  /** The pending magnetorquer command waits until the loop comes to it. */
  lemma {:induction false} ToMtr(s: State, e: Sensors) returns (n: nat)
    requires Inv(s) && e.Valid() && !BeforeMtrCopy(s.pc)
    ensures var t := Steps(s, e, n);
            t.pc == InMtr(MtrActive) && Inv(t) && t.regs.mode == s.regs.mode && t.regs.mtr.flag == s.regs.mtr.flag
            && t.regs.mtr.mode == s.regs.mtr.mode && t.regs.mtr.cmd == s.regs.mtr.cmd && t.log.mtrSent == s.log.mtrSent
    decreases Ahead(s.pc, 1)
  {
    hide Inv, StepMain, Steps;
    n := Leave(s, e);
    var t := Steps(s, e, n);
    if t.pc != InMtr(MtrActive) {
      var m := ToMtr(t, e);
      StepsAdd(s, e, n, m);
      n := n + m;
    }
  }

  lemma {:induction false} ToRwa(s: State, e: Sensors) returns (n: nat)
    requires Inv(s) && e.Valid() && !BeforeCopy(s.pc)
    ensures var t := Steps(s, e, n);
            t.pc == InRwa(RwaActive) && Inv(t) && t.regs.mode == s.regs.mode && t.regs.rwa.flag == s.regs.rwa.flag
            && t.regs.rwa.mode == s.regs.rwa.mode && t.regs.rwa.cmd == s.regs.rwa.cmd && t.log.rwaSent == s.log.rwaSent
    decreases Ahead(s.pc, 2)
  {
    hide Inv, StepMain, Steps;
    n := Leave(s, e);
    var t := Steps(s, e, n);
    if t.pc != InRwa(RwaActive) {
      var m := ToRwa(t, e);
      StepsAdd(s, e, n, m);
      n := n + m;
    }
  }

  lemma {:induction false} ToTables(s: State, e: Sensors) returns (n: nat)
    requires Inv(s) && e.Valid()
    ensures var t, h := Steps(s, e, n), s.regs.havt;
            && t.pc == InHavt(HavtSense) && Inv(t)
            && t.regs.havt.resetTable == h.resetTable && t.log.resetSent == s.log.resetSent
            && t.regs.havt.disableTable == h.disableTable && t.log.disableSent == s.log.disableSent
            && (!BeforeReset(s.pc) ==> t.regs.havt.resetFlag == h.resetFlag)
            && (!BeforeDisable(s.pc) ==> t.regs.havt.disableFlag == h.disableFlag)
    decreases Ahead(s.pc, 4)
  {
    hide Inv, StepMain, Steps;
    n := Leave(s, e);
    var t := Steps(s, e, n);
    if t.pc != InHavt(HavtSense) {
      var m := ToTables(t, e);
      StepsAdd(s, e, n, m);
      n := n + m;
    }
  }

  lemma Parts(s: State)
    requires Inv(s)
    ensures MtrInv(s) && RwaInv(s) && HavtInv(s) && WheelInv(s)
    ensures s.masked == MaskedAt(s.pc)
  {
  }

  lemma Shapes(s: State)
    requires Inv(s)
    ensures |s.regs.mtr.cmd| == 3 && s.log.mtrSent != [] && |s.regs.rwa.cmd| == 3 && s.log.rwaSent != []
    ensures |s.regs.rwa.rd| == 6 && s.log.resetSent != [] && s.log.disableSent != [] && s.masked == MaskedAt(s.pc)
  {
    Parts(s);
    hide Inv;
  }

  /** With the ADCS active, a new magnetorquer command reaches the rods if no further message comes: its vector, with the
      content of the mode register. */
  lemma MtrComesThrough(s: State, e: Sensors) returns (n: nat)
    requires Inv(s) && e.Valid() && s.regs.mode == 1 && s.regs.mtr.flag == 1
    ensures var t := Steps(s, e, n);
            && t.regs.mtr.flag == 0 && t.log.mtrDone != []
            && t.log.mtrDone[|t.log.mtrDone| - 1] == Copy(s.regs.mtr.mode, s.regs.mtr.cmd, |s.log.mtrSent| - 1)
  {
    hide Inv, Steps;
    Shapes(s);
    if s.pc == InMtr(MtrClear) {
      MtrCopy(s, e);
      n := 7;
    } else if s.pc == InMtr(MtrFlag) {
      var t := s.(pc := InMtr(MtrClear));
      assert StepMain(s, e) == t;
      MtrCopy(t, e);
      OneMoreStep(s, e, t, 7);
      n := 8;
    } else if s.pc == InMtr(MtrActive) {
      n := MtrPass(s, e);
    } else {
      var m := ToMtr(s, e);
      var t := Steps(s, e, m);
      Shapes(t);
      n := MtrPass(t, e);
      Chain(s, e, m, t, n);
      n := m + n;
    }
  }

  /** And a new wheel command reaches the wheels. */
  lemma RwaComesThrough(s: State, e: Sensors) returns (n: nat)
    requires Inv(s) && e.Valid() && s.regs.mode == 1 && s.regs.rwa.flag == 1
    ensures var t := Steps(s, e, n);
            && t.regs.rwa.flag == 0 && t.log.rwaDone != []
            && t.log.rwaDone[|t.log.rwaDone| - 1] == Copy(s.regs.rwa.mode, s.regs.rwa.cmd, |s.log.rwaSent| - 1)
  {
    hide Inv, Steps;
    Shapes(s);
    if s.pc == InRwa(RwaClear) {
      RwaCopy(s, e);
      n := 7;
    } else if s.pc == InRwa(RwaFlag) {
      var t := s.(pc := InRwa(RwaClear));
      assert StepMain(s, e) == t;
      RwaCopy(t, e);
      OneMoreStep(s, e, t, 7);
      n := 8;
    } else if s.pc == InRwa(RwaActive) {
      n := RwaPass(s, e);
    } else {
      var m := ToRwa(s, e);
      var t := Steps(s, e, m);
      Shapes(t);
      n := RwaPass(t, e);
      Chain(s, e, m, t, n);
      n := m + n;
    }
  }

  /** A new reset table is executed. */
  lemma ResetComesThrough(s: State, e: Sensors) returns (n: nat)
    requires Inv(s) && e.Valid() && s.regs.havt.resetFlag == 1
    ensures var t := Steps(s, e, n);
            && t.regs.havt.resetFlag == 0 && t.log.resetDone != []
            && t.log.resetDone[|t.log.resetDone| - 1] == Executed(s.regs.havt.resetTable, |s.log.resetSent| - 1)
  {
    hide Inv, Steps;
    Shapes(s);
    if s.pc == InHavt(ResetClear) {
      ResetCopy(s, e);
      n := 4;
    } else if s.pc == InHavt(ResetFlag) {
      var t := s.(pc := InHavt(ResetClear));
      assert StepMain(s, e) == t;
      ResetCopy(t, e);
      OneMoreStep(s, e, t, 4);
      n := 5;
    } else if s.pc == InHavt(HavtSense) {
      n := ResetPass(s, e);
    } else {
      var m := ToTables(s, e);
      var t := Steps(s, e, m);
      Shapes(t);
      n := ResetPass(t, e);
      Chain(s, e, m, t, n);
      n := m + n;
    }
  }

  /** On the way from the read table to the disable table the latter is left alone. */
  lemma {:induction false} ToDisable(s: State, e: Sensors) returns (n: nat)
    requires Inv(s) && e.Valid() && BeforeDisable(s.pc) && s.pc != InHavt(DisableClear)
    ensures var t, h := Steps(s, e, n), s.regs.havt;
            && t.pc == InHavt(DisableFlag) && Inv(t) && t.regs.havt.disableFlag == h.disableFlag
            && t.regs.havt.disableTable == h.disableTable && t.log.disableSent == s.log.disableSent
    decreases Rank(s.pc)
  {
    hide Inv, Steps, StepMain;
    if s.pc == InHavt(DisableFlag) {
      NoStep(s, e);
      n := 0;
    } else {
      var t := StepMain(s, e);
      DisableWaits(s, e);
      StepKeepsInv(s, Main(e));
      assert Step(s, Main(e)) == t;
      var m := ToDisable(t, e);
      OneMoreStep(s, e, t, m);
      n := m + 1;
    }
  }

  lemma DisableWaits(s: State, e: Sensors)
    requires BeforeDisable(s.pc) && s.pc != InHavt(DisableClear) && s.pc != InHavt(DisableFlag)
    ensures var t := StepMain(s, e);
            && BeforeDisable(t.pc) && t.pc != InHavt(DisableClear) && Rank(t.pc) < Rank(s.pc)
            && t.regs.havt.disableFlag == s.regs.havt.disableFlag && t.regs.havt.disableTable == s.regs.havt.disableTable
            && t.log.disableSent == s.log.disableSent
  {
  }

  /** A new disable table is executed. */
  lemma DisableComesThrough(s: State, e: Sensors) returns (n: nat)
    requires Inv(s) && e.Valid() && s.regs.havt.disableFlag == 1
    ensures var t := Steps(s, e, n);
            && t.regs.havt.disableFlag == 0 && t.log.disableDone != []
            && t.log.disableDone[|t.log.disableDone| - 1] == Executed(s.regs.havt.disableTable, |s.log.disableSent| - 1)
  {
    hide Inv, Steps;
    Shapes(s);
    if s.pc == InHavt(DisableClear) {
      DisableCopy(s, e);
      n := 4;
    } else {
      var m, t := 0, s;
      if !BeforeDisable(s.pc) {
        m := ToTables(s, e);
        t := Steps(s, e, m);
      } else {
        NoStep(s, e);
      }
      var k := ToDisable(t, e);
      var u := Steps(t, e, k);
      Shapes(u);
      var l := DisablePass(u, e);
      Chain(t, e, k, u, l);
      Chain(s, e, m, t, k + l);
      n := m + k + l;
    }
  }
}
