/** The register file of the ADCS box and the interrupt handlers of its umbilical bus
    (src/adcs/state.hpp, src/adcs/state_registers.hpp, src/adcs/state_controller.cpp). */
module AdcsRegisters {

  type byte = x: int | 0 <= x < 256

  // Modes and flags (src/adcs/constants.hpp).
  const ADCS_ACTIVE: byte := 1
  const RWA_SPEED_CTRL: byte := 1
  const RWA_ACCEL_CTRL: byte := 2
  const SSA_FAILURE: byte := 0
  const SSA_IN_PROGRESS: byte := 1
  const SSA_COMPLETE: byte := 2
  const IMU_MAG_NORMAL: byte := 0
  const OUTDATED: byte := 0
  const UPDATED: byte := 1

  // Register addresses.
  const WHO_AM_I: byte := 0
  const ADCS_MODE: byte := 1
  const READ_POINTER: byte := 2
  const RWA_MODE: byte := 3
  const RWA_COMMAND: byte := 4
  const RWA_SPEED_FILTER: byte := 6
  const RWA_RAMP_FILTER: byte := 7
  const RWA_SPEED_RD: byte := 8
  const MTR_MODE: byte := 10
  const MTR_COMMAND: byte := 11
  const MTR_LIMIT: byte := 12
  const SSA_MODE: byte := 14
  const SSA_SUN_VECTOR: byte := 15
  const SSA_VOLTAGE_FILTER: byte := 16
  const SSA_VOLTAGE_READ: byte := 17
  const IMU_MAG1_MODE: byte := 19
  const IMU_MAG2_MODE: byte := 20
  const IMU_READ: byte := 21
  const IMU_MAG_FILTER: byte := 22
  const IMU_GYR_FILTER: byte := 23
  const IMU_GYR_TEMP_FILTER: byte := 24
  const IMU_GYR_TEMP_PWM: byte := 25
  const IMU_GYR_TEMP_DESIRED: byte := 26
  const HAVT_READ: byte := 27
  const HAVT_COMMAND_RESET: byte := 28
  const HAVT_COMMAND_DISABLE: byte := 29

  /** The interval an unsigned integer is scaled to. */
  datatype Range = Unit | Torque | SpeedCommand | Moment | EquilibriumTemperature

  /** A float held in a register: an initial constant, a scaled integer from the bus, or a sensor reading. */
  datatype Float = Literal(value: real) | Scaled(raw: nat, range: Range) | Sensed(reading: int)

  datatype Rwa = Rwa(mode: byte, cmd: seq<Float>, flag: byte, momentumFlt: Float, rampFlt: Float,
                     rd: seq<Float>)  // momentum_rd, then ramp_rd
  datatype Mtr = Mtr(mode: byte, cmd: seq<Float>, limit: Float, flag: byte)
  datatype Ssa = Ssa(mode: byte, sunVec: seq<Float>, voltageFlt: Float, voltages: seq<Float>)
  datatype Imu = Imu(mag1Mode: byte, mag2Mode: byte,
                     rd: seq<Float>,  // mag1_rd, then mag2_rd, then gyr_rd
                     gyrTempRd: Float, magFlt: Float, gyrFlt: Float, gyrTempFlt: Float, gyrTempPwm: byte, gyrDesiredTemp: Float)
  datatype Havt = Havt(readTable: nat, resetTable: nat, resetFlag: byte, disableTable: nat, disableFlag: byte)

  datatype Registers = Registers(mode: byte, readPtr: byte, rwa: Rwa, mtr: Mtr, ssa: Ssa, imu: Imu, havt: Havt)

  function Short(d: seq<byte>, i: nat): nat
    requires i + 1 < |d|
  {
    var low: int, high: int := d[i], d[i + 1];
    low + 256 * high
  }

  function Word(d: seq<byte>): nat
    requires |d| == 4
  {
    Short(d, 0) + 0x1_0000 * Short(d, 2)
  }

  /** Three little-endian shorts, scaled. */
  function Vector(d: seq<byte>, range: Range): (v: seq<Float>)
    requires |d| == 6
    ensures |v| == 3
  {
    [Scaled(Short(d, 0), range), Scaled(Short(d, 2), range), Scaled(Short(d, 4), range)]
  }

  /** Bytes a write to a register consumes; 0 for addresses that cannot be written. */
  function Width(a: byte): nat {
    if a == RWA_COMMAND || a == MTR_COMMAND then 6
    else if a == MTR_LIMIT then 2
    else if a == HAVT_COMMAND_RESET || a == HAVT_COMMAND_DISABLE then 4
    else if a in {ADCS_MODE, READ_POINTER, RWA_MODE, RWA_SPEED_FILTER, RWA_RAMP_FILTER, MTR_MODE, SSA_MODE,
                  SSA_VOLTAGE_FILTER, IMU_MAG1_MODE, IMU_MAG2_MODE, IMU_MAG_FILTER, IMU_GYR_FILTER, IMU_GYR_TEMP_FILTER,
                  IMU_GYR_TEMP_PWM, IMU_GYR_TEMP_DESIRED} then 1
    else 0
  }

  /** Bytes the handler asks for before it reads. It asks for one even where it then reads two or four. */
  function Needs(a: byte): nat {
    if a == RWA_COMMAND || a == MTR_COMMAND then 6 else 1
  }

  /** Registers after which the handler goes on to the next address. */
  predicate FallsThrough(a: byte) {
    a in {ADCS_MODE, RWA_MODE, RWA_SPEED_FILTER, MTR_MODE, MTR_COMMAND, IMU_MAG1_MODE, IMU_MAG_FILTER, IMU_GYR_FILTER}
  }

  /** A write to one register. */
  datatype Op = Op(address: byte, data: seq<byte>)
  {
    predicate Valid() {
      Width(address) > 0 && |data| == Width(address)
    }
  }

  predicate ActiveWheelMode(mode: byte) {
    mode == RWA_ACCEL_CTRL || mode == RWA_SPEED_CTRL
  }

  /** The effect of one write. */
  function Write(r: Registers, op: Op): Registers
    requires op.Valid()
  {
    var a, d := op.address, op.data;
    if a == ADCS_MODE then r.(mode := d[0])
    else if a == READ_POINTER then r.(readPtr := d[0])
    else if a == RWA_MODE then r.(rwa := r.rwa.(mode := d[0]))
    else if a == RWA_COMMAND then
      if r.rwa.mode == RWA_ACCEL_CTRL then r.(rwa := r.rwa.(cmd := Vector(d, Torque), flag := UPDATED))
      else if r.rwa.mode == RWA_SPEED_CTRL then r.(rwa := r.rwa.(cmd := Vector(d, SpeedCommand), flag := UPDATED))
      else r
    else if a == RWA_SPEED_FILTER then r.(rwa := r.rwa.(momentumFlt := Scaled(d[0], Unit)))
    else if a == RWA_RAMP_FILTER then r.(rwa := r.rwa.(rampFlt := Scaled(d[0], Unit)))
    else if a == MTR_MODE then r.(mtr := r.mtr.(mode := d[0]))
    else if a == MTR_COMMAND then r.(mtr := r.mtr.(cmd := Vector(d, Moment), flag := UPDATED))
    else if a == MTR_LIMIT then r.(mtr := r.mtr.(limit := Scaled(Short(d, 0), Moment), flag := UPDATED))
    else if a == SSA_MODE then
      if r.ssa.mode == SSA_COMPLETE || r.ssa.mode == SSA_FAILURE then r.(ssa := r.ssa.(mode := d[0])) else r
    else if a == SSA_VOLTAGE_FILTER then r.(ssa := r.ssa.(voltageFlt := Scaled(d[0], Unit)))
    else if a == IMU_MAG1_MODE then r.(imu := r.imu.(mag1Mode := d[0]))
    else if a == IMU_MAG2_MODE then r.(imu := r.imu.(mag2Mode := d[0]))
    else if a == IMU_MAG_FILTER then r.(imu := r.imu.(magFlt := Scaled(d[0], Unit)))
    else if a == IMU_GYR_FILTER then r.(imu := r.imu.(gyrFlt := Scaled(d[0], Unit)))
    else if a == IMU_GYR_TEMP_FILTER then r.(imu := r.imu.(gyrTempFlt := Scaled(d[0], Unit)))
    else if a == IMU_GYR_TEMP_PWM then r.(imu := r.imu.(gyrTempPwm := d[0]))
    else if a == IMU_GYR_TEMP_DESIRED then r.(imu := r.imu.(gyrDesiredTemp := Scaled(d[0], EquilibriumTemperature)))
    else if a == HAVT_COMMAND_RESET then r.(havt := r.havt.(resetTable := Word(d), resetFlag := UPDATED))
    else r.(havt := r.havt.(disableTable := Word(d), disableFlag := UPDATED))
  }

  /** The first n bytes of what was received; reading an empty buffer gives 0xFF. */
  function Taken(data: seq<byte>, n: nat): (d: seq<byte>)
    ensures |d| == n
  {
    if n <= |data| then data[..n] else data + seq(n - |data|, _ => 0xFF)
  }

  function Left(data: seq<byte>, n: nat): seq<byte> {
    if n <= |data| then data[n..] else []
  }

  /** The writes a burst makes, starting at an address. */
  function Burst(a: byte, data: seq<byte>): (ops: seq<Op>)
    ensures forall op | op in ops :: op.Valid()
    decreases 256 - a
  {
    if Width(a) == 0 || |data| < Needs(a) then []
    else
      [Op(a, Taken(data, Width(a)))]
      + if FallsThrough(a) then Burst(a + 1, Left(data, Width(a))) else []
  }

  /** The writes a message makes: its first byte is the address. */
  function Decode(message: seq<byte>): (ops: seq<Op>)
    ensures forall op | op in ops :: op.Valid()
  {
    if message == [] then [] else Burst(message[0], message[1..])
  }

  function ApplyAll(r: Registers, ops: seq<Op>): Registers
    requires forall op | op in ops :: op.Valid()
    decreases |ops|
  {
    if ops == [] then r else ApplyAll(Write(r, ops[0]), ops[1..])
  }

  /** The registers after a message. */
  function Receive(r: Registers, message: seq<byte>): Registers {
    ApplyAll(r, Decode(message))
  }

  /** One register of a burst at a time. */
  lemma BurstStep(r: Registers, a: byte, data: seq<byte>)
    ensures ApplyAll(r, Burst(a, data))
         == if Width(a) == 0 || |data| < Needs(a) then r
            else
              var r' := Write(r, Op(a, Taken(data, Width(a))));
              if FallsThrough(a) then ApplyAll(r', Burst(a + 1, Left(data, Width(a)))) else r'
  {
    if Width(a) > 0 && |data| >= Needs(a) {
      var op := Op(a, Taken(data, Width(a)));
      var rest := if FallsThrough(a) then Burst(a + 1, Left(data, Width(a))) else [];
      assert ([op] + rest)[1..] == rest;
    }
  }

  // ----- A burst is a run of single messages -----

  /** The parts are the exact data of consecutive registers of one fall-through chain. */
  predicate FitsChain(a: byte, parts: seq<seq<byte>>)
    decreases |parts|
  {
    parts != [] ==>
      && Width(a) > 0 && |parts[0]| == Width(a)
      && (|parts| > 1 ==> FallsThrough(a) && FitsChain(a + 1, parts[1..]))
  }

  function Concat(parts: seq<seq<byte>>): seq<byte> {
    if parts == [] then [] else parts[0] + Concat(parts[1..])
  }

  /** One message per register, addresses counting up. */
  function Separately(r: Registers, a: byte, parts: seq<seq<byte>>): Registers
    requires FitsChain(a, parts)
    decreases |parts|
  {
    if parts == [] then r
    else if |parts| == 1 then Receive(r, [a] + parts[0])
    else Separately(Receive(r, [a] + parts[0]), a + 1, parts[1..])
  }

  /** Writing a burst and writing its registers one message at a time leave the same registers. */
  lemma {:induction false} BurstIsAutoIncrement(r: Registers, a: byte, parts: seq<seq<byte>>)
    requires parts != [] && FitsChain(a, parts)
    ensures Receive(r, [a] + Concat(parts)) == Separately(r, a, parts)
    decreases |parts|
  {
    var d, rest := parts[0], Concat(parts[1..]);
    var r' := Write(r, Op(a, d));
    MessageStep(r, a, d, []);
    assert d + [] == d;
    assert Receive(r, [a] + d) == r' by {
      if FallsThrough(a) {
        BurstStep(r', a + 1, []);
      }
    }
    MessageStep(r, a, d, rest);
    if |parts| == 1 {
      assert rest == [];
    } else {
      BurstIsAutoIncrement(r', a + 1, parts[1..]);
      assert ([a + 1] + rest)[1..] == rest;
    }
  }

  lemma MessageStep(r: Registers, a: byte, d: seq<byte>, rest: seq<byte>)
    requires Width(a) > 0 && |d| == Width(a)
    ensures Receive(r, [a] + (d + rest))
         == if FallsThrough(a) then ApplyAll(Write(r, Op(a, d)), Burst(a + 1, rest)) else Write(r, Op(a, d))
  {
    assert ([a] + (d + rest))[1..] == d + rest;
    assert Taken(d + rest, Width(a)) == d && Left(d + rest, Width(a)) == rest;
    BurstStep(r, a, d + rest);
  }

  // ----- Messages that are too short -----

  /** All the data of some writes. */
  function OpBytes(ops: seq<Op>): seq<byte> {
    if ops == [] then [] else ops[0].data + OpBytes(ops[1..])
  }

  /** A table or limit register asks for one byte and reads more: a burst that ends inside one makes up the rest. */
  predicate Pads(a: byte, data: seq<byte>) {
    || ((a == HAVT_COMMAND_RESET || a == HAVT_COMMAND_DISABLE) && 1 <= |data| < 4)
    || (a == MTR_LIMIT && |data| == 1)
    || (a == MTR_COMMAND && |data| == 7)
    || (a == MTR_MODE && |data| == 8)
  }

  /** The writes of a message carry only bytes that were sent, exactly when it does not end inside such a register. */
  lemma DecodeIsSentIff(m: seq<byte>)
    ensures m == [] || (OpBytes(Decode(m)) <= m[1..] <==> !Pads(m[0], m[1..]))
  {
    if m != [] {
      BurstIsSentIff(m[0], m[1..]);
    }
  }

  lemma {:induction false} BurstIsSentIff(a: byte, data: seq<byte>)
    ensures OpBytes(Burst(a, data)) <= data <==> !Pads(a, data)
    decreases 256 - a
  {
    if Width(a) > 0 && |data| >= Needs(a) {
      var d, left := Taken(data, Width(a)), Left(data, Width(a));
      var rest := if FallsThrough(a) then Burst(a + 1, left) else [];
      assert ([Op(a, d)] + rest)[1..] == rest;
      assert OpBytes(Burst(a, data)) == d + OpBytes(rest);
      if FallsThrough(a) {
        BurstIsSentIff(a + 1, left);
      }
      hide OpBytes, Burst;
      if |data| >= Width(a) {
        assert data == d + left;
        assert d + OpBytes(rest) <= d + left <==> OpBytes(rest) <= left by {
          if d + OpBytes(rest) <= d + left {
            assert OpBytes(rest) == (d + OpBytes(rest))[|d|..] && left == (d + left)[|d|..];
          }
        }
      } else {
        assert |d + OpBytes(rest)| > |data|;
      }
    }
  }

  // ----- Responses -----

  datatype Response = WhoAmI | WheelReadings(rd: seq<Float>) | SunMode(mode: byte) | SunVector(v: seq<Float>)
                    | Voltages(voltages: seq<Float>) | ImuReadings(rd: seq<Float>, temperature: Float)
                    | HavtTable(table: nat) | NoResponse

  /** on_i2c_request: what the register the read pointer selects answers. */
  function Respond(r: Registers): Response {
    if r.readPtr == WHO_AM_I then WhoAmI
    else if r.readPtr == RWA_SPEED_RD then WheelReadings(r.rwa.rd)
    else if r.readPtr == SSA_MODE then SunMode(r.ssa.mode)
    else if r.readPtr == SSA_SUN_VECTOR then SunVector(r.ssa.sunVec)
    else if r.readPtr == SSA_VOLTAGE_READ then Voltages(r.ssa.voltages)
    else if r.readPtr == IMU_READ then ImuReadings(r.imu.rd, r.imu.gyrTempRd)
    else if r.readPtr == HAVT_READ then HavtTable(r.havt.readTable)
    else NoResponse
  }

  // ----- The receive handler -----

  class Umbilical {
    var registers: Registers
    var rx: seq<byte>

    /** Reads one byte off the receive buffer. */
    method Read() returns (b: byte)
      modifies this`rx
      ensures [b] == Taken(old(rx), 1) && rx == Left(old(rx), 1)
    {
      if rx == [] {
        b := 0xFF;
      } else {
        b, rx := rx[0], rx[1..];
      }
    }

    method ReadBytes(n: nat) returns (d: seq<byte>)
      modifies this`rx
      ensures d == Taken(old(rx), n) && rx == Left(old(rx), n)
    {
      d := [];
      for i := 0 to n
        invariant d == Taken(old(rx), i) && rx == Left(old(rx), i)
      {
        var b := Read();
        d := d + [b];
      }
    }

    /** on_i2c_recieve. A case that falls through goes on with the next address. */
    method OnI2cReceive()
      modifies this
      ensures registers == Receive(old(registers), old(rx))
    {
      if |rx| < 1 {
        return;
      }
      var address := Read();
      if address in {ADCS_MODE, READ_POINTER} {
        ReceiveGeneral(address);
      } else if RWA_MODE <= address <= RWA_RAMP_FILTER {
        ReceiveRwa(address);
      } else if MTR_MODE <= address <= MTR_LIMIT {
        ReceiveMtr(address);
      } else if address in {SSA_MODE, SSA_VOLTAGE_FILTER} {
        ReceiveSsa(address);
      } else if IMU_MAG1_MODE <= address <= IMU_GYR_TEMP_DESIRED {
        ReceiveImu(address);
      } else if address in {HAVT_COMMAND_RESET, HAVT_COMMAND_DISABLE} {
        ReceiveHavt(address);
      }
    }

    method ReceiveGeneral(start: byte)
      requires start in {ADCS_MODE, READ_POINTER}
      modifies this
      ensures registers == ApplyAll(old(registers), Burst(start, old(rx)))
    {
      BurstStep(registers, start, rx);
      var address := start;
      if address == ADCS_MODE {
        if |rx| < 1 { return; }
        var b := Read();
        registers := registers.(mode := b);
        address := READ_POINTER;
        BurstStep(registers, address, rx);
      }
      if |rx| < 1 { return; }
      var b := Read();
      registers := registers.(readPtr := b);
    }

    method ReceiveRwa(start: byte)
      requires RWA_MODE <= start <= RWA_RAMP_FILTER
      modifies this
      ensures registers == ApplyAll(old(registers), Burst(start, old(rx)))
    {
      BurstStep(registers, start, rx);
      var address := start;
      if address == RWA_MODE {
        if |rx| < 1 { return; }
        var b := Read();
        registers := registers.(rwa := registers.rwa.(mode := b));
        address := RWA_COMMAND;
        BurstStep(registers, address, rx);
      }
      if address == RWA_COMMAND {
        if |rx| < 6 { return; }
        var t := ReadBytes(6);
        var f;
        if registers.rwa.mode == RWA_ACCEL_CTRL {
          f := Vector(t, Torque);
        } else if registers.rwa.mode == RWA_SPEED_CTRL {
          f := Vector(t, SpeedCommand);
        } else {
          return;
        }
        registers := registers.(rwa := registers.rwa.(cmd := f));
        registers := registers.(rwa := registers.rwa.(flag := UPDATED));
        return;
      }
      if address == RWA_SPEED_FILTER {
        if |rx| < 1 { return; }
        var b := Read();
        registers := registers.(rwa := registers.rwa.(momentumFlt := Scaled(b, Unit)));
        address := RWA_RAMP_FILTER;
        BurstStep(registers, address, rx);
      }
      if address == RWA_RAMP_FILTER {
        if |rx| < 1 { return; }
        var b := Read();
        registers := registers.(rwa := registers.rwa.(rampFlt := Scaled(b, Unit)));
      }
    }

    method ReceiveMtr(start: byte)
      requires MTR_MODE <= start <= MTR_LIMIT
      modifies this
      ensures registers == ApplyAll(old(registers), Burst(start, old(rx)))
    {
      BurstStep(registers, start, rx);
      var address := start;
      if address == MTR_MODE {
        if |rx| < 1 { return; }
        var b := Read();
        registers := registers.(mtr := registers.mtr.(mode := b));
        address := MTR_COMMAND;
        BurstStep(registers, address, rx);
      }
      if address == MTR_COMMAND {
        if |rx| < 6 { return; }
        var t := ReadBytes(6);
        registers := registers.(mtr := registers.mtr.(cmd := Vector(t, Moment)));
        registers := registers.(mtr := registers.mtr.(flag := UPDATED));
        address := MTR_LIMIT;
        BurstStep(registers, address, rx);
      }
      if |rx| < 1 { return; }
      var t := ReadBytes(2);
      registers := registers.(mtr := registers.mtr.(limit := Scaled(Short(t, 0), Moment)));
      registers := registers.(mtr := registers.mtr.(flag := UPDATED));
    }

    method ReceiveSsa(address: byte)
      requires address in {SSA_MODE, SSA_VOLTAGE_FILTER}
      modifies this
      ensures registers == ApplyAll(old(registers), Burst(address, old(rx)))
    {
      BurstStep(registers, address, rx);
      if |rx| < 1 { return; }
      if address == SSA_MODE {
        if registers.ssa.mode == SSA_COMPLETE || registers.ssa.mode == SSA_FAILURE {
          var b := Read();
          registers := registers.(ssa := registers.ssa.(mode := b));
        }
      } else {
        var b := Read();
        registers := registers.(ssa := registers.ssa.(voltageFlt := Scaled(b, Unit)));
      }
    }

    method ReceiveImu(start: byte)
      requires IMU_MAG1_MODE <= start <= IMU_GYR_TEMP_DESIRED
      modifies this
      ensures registers == ApplyAll(old(registers), Burst(start, old(rx)))
    {
      var address := start;
      BurstStep(registers, start, rx);
      if |rx| < 1 || address == IMU_READ { return; }
      if address == IMU_MAG1_MODE {
        var b := Read();
        registers := registers.(imu := registers.imu.(mag1Mode := b));
        address := IMU_MAG2_MODE;
        BurstStep(registers, address, rx);
        if |rx| < 1 { return; }
      }
      if address == IMU_MAG2_MODE {
        var b := Read();
        registers := registers.(imu := registers.imu.(mag2Mode := b));
        return;
      }
      if address == IMU_MAG_FILTER {
        var b := Read();
        registers := registers.(imu := registers.imu.(magFlt := Scaled(b, Unit)));
        address := IMU_GYR_FILTER;
        BurstStep(registers, address, rx);
        if |rx| < 1 { return; }
      }
      if address == IMU_GYR_FILTER {
        var b := Read();
        registers := registers.(imu := registers.imu.(gyrFlt := Scaled(b, Unit)));
        address := IMU_GYR_TEMP_FILTER;
        BurstStep(registers, address, rx);
        if |rx| < 1 { return; }
      }
      var b := Read();
      if address == IMU_GYR_TEMP_FILTER {
        registers := registers.(imu := registers.imu.(gyrTempFlt := Scaled(b, Unit)));
      } else if address == IMU_GYR_TEMP_PWM {
        registers := registers.(imu := registers.imu.(gyrTempPwm := b));
      } else {
        registers := registers.(imu := registers.imu.(gyrDesiredTemp := Scaled(b, EquilibriumTemperature)));
      }
    }

    method ReceiveHavt(address: byte)
      requires address in {HAVT_COMMAND_RESET, HAVT_COMMAND_DISABLE}
      modifies this
      ensures registers == ApplyAll(old(registers), Burst(address, old(rx)))
    {
      BurstStep(registers, address, rx);
      if |rx| < 1 { return; }
      var d := ReadBytes(4);
      if address == HAVT_COMMAND_RESET {
        registers := registers.(havt := registers.havt.(resetTable := Word(d)));
        registers := registers.(havt := registers.havt.(resetFlag := UPDATED));
      } else {
        registers := registers.(havt := registers.havt.(disableTable := Word(d)));
        registers := registers.(havt := registers.havt.(disableFlag := UPDATED));
      }
    }
  }
}
