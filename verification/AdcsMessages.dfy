/** What every message does to the registers, byte by byte, in the numbers of the bus (src/adcs/state_controller.cpp,
    src/adcs/state_registers.hpp): every address, every length. */
module AdcsMessages {
  import opened AdcsRegisters

  /** Byte i of a message, or what the handler reads there. */
  function ByteAt(m: seq<byte>, i: nat): (b: byte)
    ensures b == if i < |m| then m[i] else 255
  {
    if i < |m| then m[i] else 255
  }

  /** A little-endian short of a message. */
  function ShortAt(m: seq<byte>, i: nat): (s: nat)
    ensures s == ByteAt(m, i) as int + 256 * ByteAt(m, i + 1) as int
  {
    var low: int, high: int := ByteAt(m, i), ByteAt(m, i + 1);
    low + 256 * high
  }

  lemma DataIs(m: seq<byte>, i: nat)
    ensures Taken(Left(m, i), 1) == [ByteAt(m, i)]
    ensures Taken(Left(m, i), 2) == [ByteAt(m, i), ByteAt(m, i + 1)]
    ensures Taken(Left(m, i), 4) == [ByteAt(m, i), ByteAt(m, i + 1), ByteAt(m, i + 2), ByteAt(m, i + 3)]
    ensures Taken(Left(m, i), 6) == [ByteAt(m, i), ByteAt(m, i + 1), ByteAt(m, i + 2), ByteAt(m, i + 3), ByteAt(m, i + 4),
                                     ByteAt(m, i + 5)]
  {
  }

  /** What the handler does with a message from byte i on, at the register with address a. */
  function Onward(r: Registers, a: byte, m: seq<byte>, i: nat): Registers {
    ApplyAll(r, Burst(a, Left(m, i)))
  }

  /** One register, and the next if the handler falls through. */
  lemma OneRegister(r: Registers, a: byte, m: seq<byte>, i: nat)
    ensures Onward(r, a, m, i)
         == if Width(a) == 0 || |m| < i + Needs(a) then r
            else
              var r' := Write(r, Op(a, Taken(Left(m, i), Width(a))));
              if FallsThrough(a) then Onward(r', a + 1, m, i + Width(a)) else r'
  {
    hide Write, Burst, ApplyAll, Taken;
    assert Width(a) > 0 ==> Left(Left(m, i), Width(a)) == Left(m, i + Width(a));
    BurstStep(r, a, Left(m, i));
  }

  lemma FirstRegister(r: Registers, m: seq<byte>)
    requires m != []
    ensures Receive(r, m) == Onward(r, m[0], m, 1)
  {
  }

  /** A register of one byte. */
  lemma ByteRegister(r: Registers, a: byte, m: seq<byte>, i: nat)
    requires Width(a) == 1
    ensures Onward(r, a, m, i)
         == if |m| <= i then r
            else
              var r' := Write(r, Op(a, [ByteAt(m, i)]));
              if FallsThrough(a) then Onward(r', a + 1, m, i + 1) else r'
  {
    DataIs(m, i);
    hide Write, Taken;
    OneRegister(r, a, m, i);
  }

  /** ADCS mode and read pointer. */
  lemma GeneralMessage(r: Registers, m: seq<byte>)
    requires m != []
    ensures m[0] == 1 ==> Receive(r, m) == if |m| == 1 then r
                                           else if |m| == 2 then r.(mode := m[1]) else r.(mode := m[1], readPtr := m[2])
    ensures m[0] == 2 ==> Receive(r, m) == if |m| == 1 then r else r.(readPtr := m[1])
  {
    FirstRegister(r, m);
    hide Receive, Onward;
    if m[0] == 1 {
      ByteRegister(r, 1, m, 1);
      ByteRegister(r.(mode := ByteAt(m, 1)), 2, m, 2);
    } else if m[0] == 2 {
      ByteRegister(r, 2, m, 1);
    }
  }

  /** A wheel command is three shorts, taken as speeds in mode 1 and as torques in mode 2; in any other mode it is dropped. */
  lemma WheelCommandFrom(r: Registers, m: seq<byte>, i: nat)
    ensures Onward(r, 4, m, i)
         == if |m| < i + 6 then r
            else if r.rwa.mode == 1 then
              r.(rwa := r.rwa.(flag := 1, cmd := [Scaled(ShortAt(m, i), SpeedCommand), Scaled(ShortAt(m, i + 2), SpeedCommand),
                                                  Scaled(ShortAt(m, i + 4), SpeedCommand)]))
            else if r.rwa.mode == 2 then
              r.(rwa := r.rwa.(flag := 1, cmd := [Scaled(ShortAt(m, i), Torque), Scaled(ShortAt(m, i + 2), Torque),
                                                  Scaled(ShortAt(m, i + 4), Torque)]))
            else r
  {
    DataIs(m, i);
    hide Onward, Taken;
    OneRegister(r, 4, m, i);
  }

  lemma WheelCommandMessage(r: Registers, m: seq<byte>)
    requires m != [] && m[0] == 4
    ensures Receive(r, m)
         == if |m| < 7 then r
            else if r.rwa.mode == 1 then
              r.(rwa := r.rwa.(flag := 1, cmd := [Scaled(ShortAt(m, 1), SpeedCommand), Scaled(ShortAt(m, 3), SpeedCommand),
                                                  Scaled(ShortAt(m, 5), SpeedCommand)]))
            else if r.rwa.mode == 2 then
              r.(rwa := r.rwa.(flag := 1, cmd := [Scaled(ShortAt(m, 1), Torque), Scaled(ShortAt(m, 3), Torque),
                                                  Scaled(ShortAt(m, 5), Torque)]))
            else r
  {
    FirstRegister(r, m);
    hide Receive, Onward;
    WheelCommandFrom(r, m, 1);
  }

  /** The wheel mode, and a command right behind it, which it already governs. */
  lemma WheelModeMessage(r: Registers, m: seq<byte>)
    requires m != [] && m[0] == 3
    ensures Receive(r, m)
         == if |m| == 1 then r
            else if |m| < 8 || (m[1] != 1 && m[1] != 2) then r.(rwa := r.rwa.(mode := m[1]))
            else if m[1] == 1 then
              r.(rwa := r.rwa.(mode := 1, flag := 1,
                               cmd := [Scaled(ShortAt(m, 2), SpeedCommand), Scaled(ShortAt(m, 4), SpeedCommand),
                                       Scaled(ShortAt(m, 6), SpeedCommand)]))
            else
              r.(rwa := r.rwa.(mode := 2, flag := 1, cmd := [Scaled(ShortAt(m, 2), Torque), Scaled(ShortAt(m, 4), Torque),
                                                             Scaled(ShortAt(m, 6), Torque)]))
  {
    FirstRegister(r, m);
    hide Receive, Onward;
    ByteRegister(r, 3, m, 1);
    WheelCommandFrom(r.(rwa := r.rwa.(mode := ByteAt(m, 1))), m, 2);
  }

  lemma WheelFilterMessage(r: Registers, m: seq<byte>)
    requires m != []
    ensures m[0] == 6 ==> Receive(r, m) == if |m| == 1 then r
                                           else if |m| == 2 then r.(rwa := r.rwa.(momentumFlt := Scaled(m[1], Unit)))
                                           else r.(rwa := r.rwa.(momentumFlt := Scaled(m[1], Unit),
                                                                 rampFlt := Scaled(m[2], Unit)))
    ensures m[0] == 7 ==> Receive(r, m) == if |m| == 1 then r else r.(rwa := r.rwa.(rampFlt := Scaled(m[1], Unit)))
  {
    FirstRegister(r, m);
    hide Receive, Onward;
    if m[0] == 6 {
      ByteRegister(r, 6, m, 1);
      ByteRegister(r.(rwa := r.rwa.(momentumFlt := Scaled(ByteAt(m, 1), Unit))), 7, m, 2);
    } else if m[0] == 7 {
      ByteRegister(r, 7, m, 1);
    }
  }

  lemma MtrLimitFrom(r: Registers, m: seq<byte>, i: nat)
    ensures Onward(r, 12, m, i)
         == if |m| <= i then r else r.(mtr := r.mtr.(flag := 1, limit := Scaled(ShortAt(m, i), Moment)))
  {
    DataIs(m, i);
    hide Onward, Taken;
    OneRegister(r, 12, m, i);
  }

  lemma MtrCommandFrom(r: Registers, m: seq<byte>, i: nat)
    ensures Onward(r, 11, m, i)
         == if |m| < i + 6 then r
            else
              var t := r.mtr.(flag := 1, cmd := [Scaled(ShortAt(m, i), Moment), Scaled(ShortAt(m, i + 2), Moment),
                                                 Scaled(ShortAt(m, i + 4), Moment)]);
              r.(mtr := if |m| == i + 6 then t else t.(limit := Scaled(ShortAt(m, i + 6), Moment)))
  {
    DataIs(m, i);
    hide Onward, Taken;
    OneRegister(r, 11, m, i);
    MtrLimitFrom(r.(mtr := r.mtr.(flag := 1, cmd := [Scaled(ShortAt(m, i), Moment), Scaled(ShortAt(m, i + 2), Moment),
                                                     Scaled(ShortAt(m, i + 4), Moment)])), m, i + 6);
  }

  /** A magnetorquer command is three shorts; a limit may follow. */
  lemma MtrCommandMessage(r: Registers, m: seq<byte>)
    requires m != [] && m[0] == 11
    ensures Receive(r, m)
         == if |m| < 7 then r
            else
              var t := r.mtr.(flag := 1, cmd := [Scaled(ShortAt(m, 1), Moment), Scaled(ShortAt(m, 3), Moment),
                                                 Scaled(ShortAt(m, 5), Moment)]);
              r.(mtr := if |m| == 7 then t else t.(limit := Scaled(ShortAt(m, 7), Moment)))
  {
    FirstRegister(r, m);
    hide Receive, Onward;
    MtrCommandFrom(r, m, 1);
  }

  /** The magnetorquer mode; a command may follow, and a limit behind it. */
  lemma MtrModeMessage(r: Registers, m: seq<byte>)
    requires m != [] && m[0] == 10
    ensures Receive(r, m)
         == if |m| == 1 then r
            else if |m| < 8 then r.(mtr := r.mtr.(mode := m[1]))
            else
              var t := r.mtr.(mode := m[1], flag := 1, cmd := [Scaled(ShortAt(m, 2), Moment), Scaled(ShortAt(m, 4), Moment),
                                                               Scaled(ShortAt(m, 6), Moment)]);
              r.(mtr := if |m| == 8 then t else t.(limit := Scaled(ShortAt(m, 8), Moment)))
  {
    FirstRegister(r, m);
    hide Receive, Onward;
    ByteRegister(r, 10, m, 1);
    MtrCommandFrom(r.(mtr := r.mtr.(mode := ByteAt(m, 1))), m, 2);
  }

  /** A new limit raises the flag like a command; of a limit with one byte the other is taken to be 255. */
  lemma MtrLimitMessage(r: Registers, m: seq<byte>)
    requires m != [] && m[0] == 12
    ensures Receive(r, m) == if |m| == 1 then r else r.(mtr := r.mtr.(flag := 1, limit := Scaled(ShortAt(m, 1), Moment)))
  {
    FirstRegister(r, m);
    hide Receive, Onward;
    MtrLimitFrom(r, m, 1);
  }

  /** The sun sensor's mode can be written only when it is 2 or 0. */
  lemma SunMessage(r: Registers, m: seq<byte>)
    requires m != []
    ensures m[0] == 14 ==> Receive(r, m) == if |m| > 1 && (r.ssa.mode == 2 || r.ssa.mode == 0) then
                                              r.(ssa := r.ssa.(mode := m[1])) else r
    ensures m[0] == 16 ==> Receive(r, m) == if |m| == 1 then r else r.(ssa := r.ssa.(voltageFlt := Scaled(m[1], Unit)))
  {
    FirstRegister(r, m);
    hide Receive, Onward;
    if m[0] == 14 || m[0] == 16 {
      ByteRegister(r, m[0], m, 1);
    }
  }

  /** Magnetometer modes. */
  lemma MagModeMessage(r: Registers, m: seq<byte>)
    requires m != []
    ensures m[0] == 19 ==> Receive(r, m) == if |m| == 1 then r
                                            else if |m| == 2 then r.(imu := r.imu.(mag1Mode := m[1]))
                                            else r.(imu := r.imu.(mag1Mode := m[1], mag2Mode := m[2]))
    ensures m[0] == 20 ==> Receive(r, m) == if |m| == 1 then r else r.(imu := r.imu.(mag2Mode := m[1]))
  {
    FirstRegister(r, m);
    hide Receive, Onward;
    if m[0] == 19 {
      ByteRegister(r, 19, m, 1);
      ByteRegister(r.(imu := r.imu.(mag1Mode := ByteAt(m, 1))), 20, m, 2);
    } else if m[0] == 20 {
      ByteRegister(r, 20, m, 1);
    }
  }

  /** Filters of the gyroscope and its temperature. */
  lemma GyroFilterFrom(r: Registers, m: seq<byte>, i: nat)
    ensures Onward(r, 23, m, i)
         == if |m| <= i then r
            else if |m| == i + 1 then r.(imu := r.imu.(gyrFlt := Scaled(ByteAt(m, i), Unit)))
            else r.(imu := r.imu.(gyrFlt := Scaled(ByteAt(m, i), Unit), gyrTempFlt := Scaled(ByteAt(m, i + 1), Unit)))
  {
    hide Onward;
    ByteRegister(r, 23, m, i);
    ByteRegister(r.(imu := r.imu.(gyrFlt := Scaled(ByteAt(m, i), Unit))), 24, m, i + 1);
  }

  lemma GyroFilterMessage(r: Registers, m: seq<byte>)
    requires m != []
    ensures m[0] == 23 ==>
              Receive(r, m) == if |m| == 1 then r
                               else if |m| == 2 then r.(imu := r.imu.(gyrFlt := Scaled(m[1], Unit)))
                               else r.(imu := r.imu.(gyrFlt := Scaled(m[1], Unit), gyrTempFlt := Scaled(m[2], Unit)))
    ensures m[0] == 24 ==> Receive(r, m) == if |m| == 1 then r else r.(imu := r.imu.(gyrTempFlt := Scaled(m[1], Unit)))
  {
    FirstRegister(r, m);
    hide Receive, Onward;
    if m[0] == 23 {
      GyroFilterFrom(r, m, 1);
    } else if m[0] == 24 {
      ByteRegister(r, 24, m, 1);
    }
  }

  /** The filter of the magnetometers; those of the gyroscope and its temperature may follow. */
  lemma MagFilterMessage(r: Registers, m: seq<byte>)
    requires m != [] && m[0] == 22
    ensures Receive(r, m)
         == if |m| == 1 then r
            else if |m| == 2 then r.(imu := r.imu.(magFlt := Scaled(m[1], Unit)))
            else if |m| == 3 then r.(imu := r.imu.(magFlt := Scaled(m[1], Unit), gyrFlt := Scaled(m[2], Unit)))
            else r.(imu := r.imu.(magFlt := Scaled(m[1], Unit), gyrFlt := Scaled(m[2], Unit),
                                  gyrTempFlt := Scaled(m[3], Unit)))
  {
    FirstRegister(r, m);
    hide Receive, Onward;
    ByteRegister(r, 22, m, 1);
    GyroFilterFrom(r.(imu := r.imu.(magFlt := Scaled(ByteAt(m, 1), Unit))), m, 2);
  }

  /** Gyroscope heater. */
  lemma HeaterMessage(r: Registers, m: seq<byte>)
    requires m != []
    ensures m[0] == 25 ==> Receive(r, m) == if |m| == 1 then r else r.(imu := r.imu.(gyrTempPwm := m[1]))
    ensures m[0] == 26 ==> Receive(r, m) == if |m| == 1 then r
                                            else r.(imu := r.imu.(gyrDesiredTemp := Scaled(m[1], EquilibriumTemperature)))
  {
    FirstRegister(r, m);
    hide Receive, Onward;
    if m[0] == 25 || m[0] == 26 {
      ByteRegister(r, m[0], m, 1);
    }
  }

  /** Device tables: four bytes, of which all but the first may be missing and are then 255. */
  lemma TableMessage(r: Registers, m: seq<byte>)
    requires m != []
    ensures m[0] == 28 ==> Receive(r, m) == if |m| == 1 then r
                                            else r.(havt := r.havt.(resetFlag := 1,
                                                                    resetTable := ShortAt(m, 1) + 65536 * ShortAt(m, 3)))
    ensures m[0] == 29 ==> Receive(r, m) == if |m| == 1 then r
                                            else r.(havt := r.havt.(disableFlag := 1,
                                                                    disableTable := ShortAt(m, 1) + 65536 * ShortAt(m, 3)))
  {
    FirstRegister(r, m);
    DataIs(m, 1);
    hide Receive, Onward, Taken;
    if m[0] == 28 || m[0] == 29 {
      OneRegister(r, m[0], m, 1);
    }
  }

  /** All other addresses are refused, and so is an empty message. */
  lemma RefusedMessage(r: Registers, m: seq<byte>)
    requires m == [] || m[0] !in {1, 2, 3, 4, 6, 7, 10, 11, 12, 14, 16, 19, 20, 22, 23, 24, 25, 26, 28, 29}
    ensures Receive(r, m) == r
  {
    if m != [] {
      FirstRegister(r, m);
      hide Receive, Onward;
      OneRegister(r, m[0], m, 1);
    }
  }

  /** What the register that the read pointer selects answers: who-am-I at 0, wheel readings at 8, the sun sensor's mode at 14,
      vector at 15 and voltages at 17, the IMU at 21, the device table at 27; nothing elsewhere. */
  lemma AnswerIs(r: Registers)
    ensures r.readPtr == 0 ==> Respond(r) == WhoAmI
    ensures r.readPtr == 8 ==> Respond(r) == WheelReadings(r.rwa.rd)
    ensures r.readPtr == 14 ==> Respond(r) == SunMode(r.ssa.mode)
    ensures r.readPtr == 15 ==> Respond(r) == SunVector(r.ssa.sunVec)
    ensures r.readPtr == 17 ==> Respond(r) == Voltages(r.ssa.voltages)
    ensures r.readPtr == 21 ==> Respond(r) == ImuReadings(r.imu.rd, r.imu.gyrTempRd)
    ensures r.readPtr == 27 ==> Respond(r) == HavtTable(r.havt.readTable)
    ensures r.readPtr !in {0, 8, 14, 15, 17, 21, 27} ==> Respond(r) == NoResponse
  {
  }
}
