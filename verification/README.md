# Verification of the PAN flight software model

A Dafny model of the parts of the PAN CubeSat software in which state, interleaving or arithmetic make mistakes likely, and
proofs of what they guarantee. `dafny verify dfyconfig.toml` checks all of it.

- **Command registers of the ADCS** (`AdcsRegisters.dfy`, `AdcsMessages.dfy`, `CommandProtocol.dfy`, `MainLoop.dfy`,
  `LoopPasses.dfy`, `LoopTraces.dfy`, `CommandSafety.dfy`, `CommandPairing.dfy`, `CommandDelivery.dfy`). The main loop and the I2C handlers share one register file. The main loop is a state machine that
  makes one register access a step; a received message or a request is one event that may happen between any two steps, except
  while interrupts are masked. A log of what was sent, acted on, measured and answered turns safety into statements over whole
  runs; schedules that go wrong are built by letting the loop run from gate to gate. What each message does to the registers
  and what each request is answered is stated in the bytes of the bus, what an undisturbed pass of the loop does as a whole
  new state, and why it acted as the list of accesses behind every action.
- **Downlink** (`BitArray.dfy`, `DownlinkFraming.dfy`, `FlowLists.dfy`, `DownlinkProducer.dfy`). Fields of any width are packed into 560-bit
  packets with a header bit each. The specification is a frame of plain bits and its inverse. The code finds the byte of a
  later header by dividing a bit offset by 70 where 8 was meant; both divisors are modelled, and when the one of the source
  does no harm is characterised.
- **Bit stream and bit arrays** (`Bitstream.dfy`, `BitNumbers.dfy`). A least-significant-bit-first cursor over bytes refines a
  sequence of bits and a position. Numbers go into bit arrays and come back, and the test of whether they fit, which compares
  doubles, is characterised with its rounding.
- **Faults and events** (`Faults.dfy`, `Events.dfy`). Fault persistence is tied to the whole history of calls and ground
  commands; the event ring to the list of all signals.
- **Registry and EEPROM** (`Registry.dfy`, `Eeprom.dfy`). The registry's lists keep a joint invariant; the EEPROM controller
  relies on it, and what survives a restart is stated exactly.
- **GPS time, paged search, hex uplink** (`GpsTime.dfy`, `PagedSearch.dfy`, `HexUplink.dfy`).
- `Remainders.dfy` and `Options.dfy` hold shared arithmetic and the option type.

Where code and comments or intent disagree, the model follows the code:

- The header byte of a later packet is `downlink_frame_offset / 70` (`src/fsw/FCCode/DownlinkProducer.cpp:99`): it clears frame
  bit 64k instead of 560k.
- The set that should catch repeated flow IDs is never filled (`src/fsw/FCCode/DownlinkProducer.cpp:29-36`); distinct IDs are a
  hypothesis where they are needed.
- The move assignment of a flow does not resize its field list (`src/fsw/FCCode/DownlinkProducer.hpp:110-117`); a longer list
  is modelled as a write out of bounds.
- The comment at `src/fsw/FCCode/DownlinkProducer.hpp:148-150` says that a shift also swaps activity; each flow keeps its own.
- The driver sends the mode of a wheel command and its vector as two messages (`src/fsw/FCCode/Drivers/ADCS.cpp:79-93`); the
  main loop can take one command's vector with the next one's mode.
- The final zero fill clears a whole further byte when a frame ends on a byte boundary
  (`src/fsw/FCCode/DownlinkProducer.cpp:163-167`), and the size formula falls short for some payloads from 4480 bits on; the model reports a
  write past the reserved buffer as an outcome, and says exactly when there is one.
- `editN` clamps its number of iterations against the sum of offset and length (`src/common/bitstream.cpp:171-172`), not the
  difference, and then writes past the end of the stream and reports more bits than there were; the model reports that as
  an outcome too, with its exact condition.
- The gyroscope temperature and the sun sensor voltages are stored outside the masked blocks (`src/adcs/main.cpp:161`,
  `226-227`), so a response can mix two updates in a row.
- A table or limit register asks for one byte before it reads four or two (`src/adcs/state_controller.cpp:198-201`, `297-299`);
  a message that ends inside one has bytes made up.

## Model

| member | source | states |
|---|---|---|
| `CommandProtocol.RunKeepsInv` | src/adcs/main.cpp:108-239 | every run of single-access steps of the main loop, with the receive and request handlers firing whole between any two of them (and not at all while masked), keeps the invariants of all five register blocks |
| `CommandProtocol.MtrInvStep` | src/adcs/main.cpp:171-184 | each step of `update_mtr` keeps: with the flag down, what has been copied so far is a prefix of the newest vector |
| `CommandProtocol.RwaInvStep` | src/adcs/main.cpp:188-214 | each step of `update_rwa` keeps the same for the wheels, and that the flag is down exactly when the newest command is the one acted on or being copied |
| `CommandProtocol.HavtInvStep` | src/adcs/main.cpp:108-138 | each step of `update_havt` keeps both table commands executed in order, each at most once |
| `CommandProtocol.SunInvStep` | src/adcs/main.cpp:220-239 | each step of `update_ssa` keeps accepted requests and calculations balanced, and the stored sun vector whole whenever interrupts are on |
| `CommandProtocol.ImuInvStep` | src/adcs/main.cpp:140-162 | each step of `update_imu` keeps the nine readings those of one update whenever interrupts are on |
| `CommandProtocol.WheelInvStep` | src/adcs/main.cpp:205-213 | each step keeps the six wheel readings those of one update whenever interrupts are on |
| `CommandProtocol.VoltInvStep` | src/adcs/main.cpp:225-227 | each step keeps the voltages those of one update outside the loop that stores them, and inside it a new part followed by an old one |
| `CommandProtocol.ImuNow` | src/adcs/state_controller.cpp:444-486 | an IMU response shows one whole sample, except exactly at the three program counters between the masked block and the store of the temperature, where the temperature is that of the sample before |
| `CommandProtocol.VoltsNow` | src/adcs/state_controller.cpp:427-442 | a voltage response shows one whole sample, except while voltage k is due, where the first k are of the new sample and the others of the old |
| `CommandProtocol.WritesKeepInv` | src/adcs/state_controller.cpp:97-353 | the register writes of any message keep every invariant, wherever the main loop stands |
| `CommandProtocol.MessageWritesRegisters` | src/adcs/state_controller.cpp:97-353 | the protocol moves the registers exactly as the receive handler does and leaves the main loop where it is |
| `CommandProtocol.InitInv` | src/adcs/main.cpp:108-239 | the power-on state satisfies every invariant |
| `CommandSafety.RunHasOrigins` | src/adcs/state_controller.cpp:132-196 | every command vector in the registers after power-on was written whole by one register write of one message |
| `CommandSafety.MtrVectorsAreWhole` | src/adcs/main.cpp:171-184 | every vector passed to the magnetorquers is the initial one or was sent whole in one message, under every interleaving |
| `CommandSafety.MtrNewestIsNotLost` | src/adcs/main.cpp:175-183 | outside the copy, either the flag is up or the newest magnetorquer vector is the last one acted on |
| `CommandSafety.WheelVectorsAreWhole` | src/adcs/main.cpp:188-200 | every vector passed to the wheels was sent whole in one message, none is acted on twice, and the initial register content never is |
| `CommandSafety.WheelNewestIsNotLost` | src/adcs/main.cpp:193-200 | outside the copy the flag is down exactly when the newest wheel command is the last one acted on |
| `CommandSafety.RunHasTableOrigins` | src/adcs/state_controller.cpp:297-346 | every table in the registers after power-on was made of one message to its register |
| `CommandSafety.TablesExecutedAtMostOnce` | src/adcs/main.cpp:116-137 | each device table write is executed at most once and in order, and every table executed was made of one message to its register |
| `CommandSafety.TableIsSentIff` | src/adcs/state_controller.cpp:297-299 | that table is four bytes of the message exactly when the message has five bytes or more |
| `CommandSafety.TablesAreNotLost` | src/adcs/main.cpp:116-137 | outside the copy a table flag is down exactly when the newest table command has been executed |
| `CommandSafety.SunRequestsBalance` | src/adcs/main.cpp:230-238 | accepted sun vector requests are the completed calculations plus one while the mode is in progress |
| `CommandSafety.ResponsesAreUntorn` | src/adcs/state_controller.cpp:373-486 | over every run, every response comes from the log: the nine readings of an IMU response, the six of a wheel response, and a sun vector response each come from one single main-loop update; the temperature comes from that update or the one before, the voltages from two in a row cut together |
| `CommandSafety.TemperatureCanBeLate` | src/adcs/main.cpp:158-161 | from power-on, a run whose IMU response pairs new readings with the old temperature |
| `CommandDelivery.RequestIsAnswered` | src/adcs/state_controller.cpp:355-521 | over every run, a request adds exactly one answer, chosen by the read pointer: at 8, 15, 17, 21 and 27 the newest wheel readings, sun vector, voltages, IMU readings and device table, but for what the main loop has fetched and not yet stored; at 14 the sun sensor mode |
| `CommandDelivery.PointerIsSet` | src/adcs/state_controller.cpp:114-122 | the read pointer is what was last sent to it, and nothing else changes |
| `CommandDelivery.SunRequestIsSeen` | src/adcs/state_controller.cpp:210-221 | a sun vector request that is accepted is read back as mode 1 |
| `MainLoop.Advance` | src/adcs/main.cpp:108-239 | in every reachable state a step of the main loop brings it nearer to the end of its block or to the next one |
| `MainLoop.Leave` | src/adcs/main.cpp:108-239 | so it reaches the next block, and leaves wheel commands, tables and modes of the other blocks alone |
| `LoopPasses.ImuPass` | src/adcs/main.cpp:140-162 | an undisturbed pass through `update_imu`, as the whole new state: nine readings and temperature stored, both magnetometer modes normal, all else as before |
| `LoopPasses.MtrPass` | src/adcs/main.cpp:171-184 | through `update_mtr`: with ADCS mode 1 and the flag up, the flag is lowered and the rods are driven with the mode register and the vector; otherwise nothing changes |
| `LoopPasses.RwaPass` | src/adcs/main.cpp:188-214 | through `update_rwa`: the same for the wheels, which are then read; otherwise nothing changes, and they are not read |
| `LoopPasses.SsaPass` | src/adcs/main.cpp:220-239 | through `update_ssa`: voltages stored; if the mode is 1 a sun vector is calculated and stored with mode 2 or 0 |
| `LoopPasses.ResetPass` | src/adcs/main.cpp:108-127 | through the first half of `update_havt`: table read, a new reset table executed |
| `LoopPasses.DisablePass` | src/adcs/main.cpp:129-137 | through the second half: a new disable table executed |
| `LoopPasses.RwaInterrupted` | src/adcs/main.cpp:199-213 | when a command arrives during the copy, the copy is dropped, but the wheels are read |
| `LoopPasses.TablesInterrupted` | src/adcs/main.cpp:122-137 | and a dropped reset table does not keep the loop from the disable table |
| `LoopPasses.MtrComesThrough` | src/adcs/main.cpp:171-184 | from every reachable state with ADCS mode 1 and the magnetorquer flag up, steps of the main loop alone drive the rods with the newest vector and the mode register |
| `LoopPasses.RwaComesThrough` | src/adcs/main.cpp:188-200 | the same for the wheels |
| `LoopPasses.ResetComesThrough` | src/adcs/main.cpp:116-127 | from every reachable state with its flag up, the newest reset table is executed |
| `LoopPasses.DisableComesThrough` | src/adcs/main.cpp:129-137 | the same for a disable table |
| `LoopTraces.MtrActionsAreExplained` | src/adcs/main.cpp:176-183 | behind every action of the rods, in every run, stand in this order: the ADCS mode found 1, the flag found up, the flag lowered, the mode read, the three components read, the flag found down; mode and components acted on are those read then |
| `LoopTraces.RwaActionsAreExplained` | src/adcs/main.cpp:193-200 | the same for the wheels |
| `LoopTraces.ResetsAreExplained` | src/adcs/main.cpp:117-126 | behind every reset: flag found up, lowered, table read, flag found down |
| `LoopTraces.DisablesAreExplained` | src/adcs/main.cpp:130-136 | the same for every disabling |
| `CommandDelivery.MtrMessageIsActedOn` | src/adcs/main.cpp:171-184 | after any run, a magnetorquer command of seven bytes to an active ADCS drives the rods, if nothing more is sent, with the mode register and the three shorts of the message |
| `CommandDelivery.WheelMessageIsActedOn` | src/adcs/main.cpp:188-200 | a wheel command in mode 1 or 2 drives the wheels in that mode with the three shorts |
| `CommandDelivery.ResetMessageIsExecuted` | src/adcs/main.cpp:116-127 | a reset table message has exactly its word executed, also when it is too short |
| `CommandDelivery.DisableMessageIsExecuted` | src/adcs/main.cpp:129-137 | the same for a disable table |
| `CommandDelivery.ShortTablesAreExecuted` | src/adcs/state_controller.cpp:297-325 | from power-on, a message with one byte of a table, of either kind, has a table executed that nobody sent |
| `CommandPairing.EventKeepsPair` | src/adcs/main.cpp:188-200 | every step of the main loop and every message keeps mode and vector of a wheel command together, unless a message leaves an active mode other than that of the newest command while this command is still to be copied |
| `CommandPairing.WheelModeMatchesVector` | src/adcs/main.cpp:188-200 | over every run without such a switch, every actuation in speed or acceleration mode has mode and vector of one command that was sent, for messages of any shape |
| `CommandPairing.PendingSwitchMixes` | src/adcs/main.cpp:193-200 | after such a switch, with the ADCS active, steps of the main loop alone lead to an actuation that mixes |
| `CommandPairing.CanMixIff` | src/adcs/main.cpp:193-200 | so the main loop can go on to mix exactly when there is such a switch |
| `CommandPairing.DecodedEffect` | src/adcs/state_controller.cpp:106-155 | what a message does to ADCS mode, wheel mode and newest accepted command |
| `CommandPairing.ViewOfRun` | src/adcs/state_controller.cpp:97-155 | over every run these are what the messages that landed make of them, whatever the main loop did |
| `CommandPairing.MessagesAreSafeIff` | src/adcs/main.cpp:188-200 | a list of messages is safe whenever they arrive exactly when none of them leaves the mode switched once the ADCS has been active |
| `CommandPairing.DriverIsSafeIff` | src/fsw/FCCode/Drivers/ADCS.cpp:79-93 | calls of the driver are safe whenever their messages arrive exactly when no two of them use different active modes |
| `CommandPairing.DriverMixes` | src/fsw/FCCode/Drivers/ADCS.cpp:79-93 | from power-on, a speed call and a torque call of the driver have a schedule that drives the wheels in torque mode with the speed vector |
| `CommandPairing.FullMessagesAreSafe` | src/adcs/state_controller.cpp:124-155 | messages in which an active mode carries its vector, lone commands and lone disabling messages are always safe |
| `CommandSafety.SunVectorMatchesMode` | src/adcs/main.cpp:232-237 | if requests write only the in-progress mode, a completed or failed mode stands beside the vector of the same calculation |
| `CommandSafety.UnknownSunModeIsFinal` | src/adcs/state_controller.cpp:210-221 | any other mode written by a request is never left again in any run, and no sun vector is accepted or calculated again |
| `AdcsRegisters.BurstIsAutoIncrement` | src/adcs/state_controller.cpp:97-275 | an exact-length burst to a fall-through chain leaves the same registers as separate messages to consecutive addresses with the same bytes |
| `AdcsRegisters.DecodeIsSentIff` | src/adcs/state_controller.cpp:175-208 | the writes of a message carry only bytes that were sent exactly when the message does not end inside a table or limit register: not with one to three bytes of a table, nor with one byte of a limit, alone or behind a magnetorquer mode and command |
| `AdcsRegisters.Umbilical.OnI2cReceive` | src/adcs/state_controller.cpp:97-353 | the imperative handler, consuming bytes, leaves the registers the message decodes to |
| `AdcsRegisters.Umbilical.ReceiveGeneral` | src/adcs/state_controller.cpp:106-122 | the mode and read-pointer cases |
| `AdcsRegisters.Umbilical.ReceiveRwa` | src/adcs/state_controller.cpp:124-173 | the wheel cases, including the command that is read and then dropped when the mode is not an active one |
| `AdcsRegisters.Umbilical.ReceiveMtr` | src/adcs/state_controller.cpp:175-208 | the magnetorquer cases, including a limit of which only one byte was sent |
| `AdcsRegisters.Umbilical.ReceiveSsa` | src/adcs/state_controller.cpp:210-231 | the sun sensor cases: a request is refused unless the last one has ended |
| `AdcsRegisters.Umbilical.ReceiveImu` | src/adcs/state_controller.cpp:233-295 | the IMU cases |
| `AdcsRegisters.Umbilical.ReceiveHavt` | src/adcs/state_controller.cpp:297-346 | the device table cases |
| `AdcsMessages.GeneralMessage` | src/adcs/state_controller.cpp:106-122 | byte by byte, for messages of every length: address 1 sets the ADCS mode and, with a further byte, the read pointer; address 2 the pointer; every other register stays |
| `AdcsMessages.WheelModeMessage` | src/adcs/state_controller.cpp:124-155 | address 3 sets the wheel mode; six further bytes are a command under that mode, and dropped unless it is 1 or 2 |
| `AdcsMessages.WheelCommandMessage` | src/adcs/state_controller.cpp:132-155 | address 4: components 0, 1, 2 are the little-endian shorts at bytes 1, 3, 5, speeds in mode 1 and torques in mode 2, and the flag goes up; in other modes and with fewer bytes nothing changes |
| `AdcsMessages.WheelFilterMessage` | src/adcs/state_controller.cpp:157-173 | addresses 6 and 7: the speed filter, then the ramp filter |
| `AdcsMessages.MtrModeMessage` | src/adcs/state_controller.cpp:175-208 | address 10 sets the magnetorquer mode, and goes on to command and limit |
| `AdcsMessages.MtrCommandMessage` | src/adcs/state_controller.cpp:183-208 | address 11: components 0, 1, 2 are the little-endian shorts at bytes 1, 3, 5, and the flag goes up; a limit may follow |
| `AdcsMessages.MtrLimitMessage` | src/adcs/state_controller.cpp:198-208 | address 12: a new limit raises the flag like a command; a missing byte is taken to be 255 |
| `AdcsMessages.SunMessage` | src/adcs/state_controller.cpp:210-231 | address 14 sets the sun sensor mode when it is 2 or 0, and never otherwise; address 16 the voltage filter |
| `AdcsMessages.MagModeMessage` | src/adcs/state_controller.cpp:233-249 | addresses 19 and 20: the two magnetometer modes |
| `AdcsMessages.MagFilterMessage` | src/adcs/state_controller.cpp:251-275 | address 22: the magnetometer filter, and those of the gyroscope and its temperature behind it |
| `AdcsMessages.GyroFilterMessage` | src/adcs/state_controller.cpp:259-275 | addresses 23 and 24 |
| `AdcsMessages.HeaterMessage` | src/adcs/state_controller.cpp:277-295 | addresses 25 and 26: heater duty and desired temperature |
| `AdcsMessages.TableMessage` | src/adcs/state_controller.cpp:297-346 | addresses 28 and 29: the little-endian word of four bytes, missing ones taken to be 255, and the flag of that table |
| `AdcsMessages.RefusedMessage` | src/adcs/state_controller.cpp:347-351 | every other address changes nothing |
| `DownlinkFraming.DeframeFrame` | src/fsw/FCCode/DownlinkProducer.cpp:74-109 | dropping the first bit of every 560 from a frame gives back the payload |
| `DownlinkFraming.FrameAt` | src/fsw/FCCode/DownlinkProducer.cpp:74-126 | bit 0 of a frame is 1, every other multiple of 560 is 0, every other bit is the payload bit it should be |
| `DownlinkFraming.FieldSpansTwoPackets` | src/fsw/FCCode/DownlinkProducer.cpp:89-108 | a field of at most 559 bits, anywhere in a payload, lies in one packet of the frame or in two neighbouring ones, with nothing but the header bit in between |
| `DownlinkFraming.AddBitsToDownlinkFrame` | src/fsw/FCCode/DownlinkProducer.cpp:74-109 | appending a field to a frame that holds a payload leaves a frame that holds the payload and the field, and both offsets right, for the divisor of the source and for the intended one; or runs past the buffer, exactly when that frame is longer |
| `DownlinkFraming.IntendedDivisorFrames` | src/fsw/FCCode/DownlinkProducer.cpp:98-101 | with the header byte found by dividing by 8 the buffer holds exactly the frame |
| `DownlinkFraming.IntendedDivisorDelivers` | src/fsw/FCCode/DownlinkProducer.cpp:98-101 | and the ground gets exactly the payload |
| `DownlinkFraming.SourceDivisorFramesIff` | src/fsw/FCCode/DownlinkProducer.cpp:98-101 | with the divisor 70 of the source the buffer holds the frame exactly when for every later packet k the bit 64k it clears carries nothing and the header bit 560k it leaves alone is already clear |
| `DownlinkFraming.SourceDivisorDeliversIff` | src/fsw/FCCode/DownlinkProducer.cpp:98-101 | the ground gets exactly the payload if and only if no payload bit that lands on frame bit 64k, for a later packet k, is set |
| `DownlinkFraming.SinglePacketIsRight` | src/fsw/FCCode/DownlinkProducer.cpp:83-88 | a payload of one packet always arrives |
| `DownlinkFraming.SourceDivisorDamages` | src/fsw/FCCode/DownlinkProducer.cpp:98-101 | 560 set bits do not arrive: payload bit 63 is cleared |
| `DownlinkFraming.ComputedSizeExactIff` | src/fsw/FCCode/DownlinkProducer.cpp:50-68 | for every payload the size formula is the size the framing loop needs exactly when the bits left in its last byte hold the headers of the packets it does not count; otherwise it is too small, up to 559 packets by one byte |
| `DownlinkFraming.ComputedSizeBelow4480` | src/fsw/FCCode/DownlinkProducer.cpp:50-68 | the formula is exact for every payload below 4480 bits, and 4480 bits is the first for which it is one byte short |
| `DownlinkFraming.ReservedBufferCoversFillIff` | src/fsw/FCCode/DownlinkProducer.cpp:161-167 | for every payload, the final zero fill stays inside a buffer of the computed size exactly when the formula is exact and the frame does not end on a byte boundary |
| `DownlinkFraming.CapacityIff` | src/fsw/FCCode/DownlinkProducer.cpp:111-167 | a buffer takes a frame and its zero fill exactly for payloads up to a size given in closed form |
| `DownlinkFraming.InactiveBitsMakeRoom` | src/fsw/FCCode/DownlinkProducer.cpp:41-47 | the buffer reserved for all flows takes the frame of the active ones as soon as the others have more bits than the formula misses packets |
| `DownlinkProducers.WriteFrame` | src/fsw/FCCode/DownlinkProducer.cpp:111-167 | the framing loop writes cycle count and then each active flow's ID and fields in priority order as one frame, which is delivered with each of them in its place, ends at exactly the frame's length, and clears the rest of the byte it ends in and nothing else; or runs past the snapshot, exactly when frame and fill do not fit |
| `DownlinkProducers.WriteFlow` | src/fsw/FCCode/DownlinkProducer.cpp:134-159 | one flow: its ID, then its fields in order |
| `FlowLists.FlowsInPayload` | src/fsw/FCCode/DownlinkProducer.cpp:134-159 | the payload by index: the cycle count in front; the ID of each active flow behind the IDs and fields of the active flows before it; each of its fields behind its ID and the fields before; inactive flows take no bits, and there are no others |
| `DownlinkProducers.FlowsAreDelivered` | src/fsw/FCCode/DownlinkProducer.cpp:111-167 | the ground gets each of these in its place, always with the intended divisor, and with that of the source if no header write clears a set bit |
| `DownlinkProducers.ZeroFill` | src/fsw/FCCode/DownlinkProducer.cpp:161-167 | clears the bits from the end of the frame to the end of the byte that holds it, if the snapshot has that byte |
| `DownlinkProducers.ComputeDownlinkSize` | src/fsw/FCCode/DownlinkProducer.cpp:50-72 | the size formula on the active flows, or on all of them |
| `FlowLists.PacketSizeIs` | src/fsw/FCCode/DownlinkProducer.cpp:231-241 | the size of a flow is the width of its ID plus the widths of its fields |
| `FlowLists.TotalSizeIsPayload` | src/fsw/FCCode/DownlinkProducer.cpp:50-68 | the bits it counts are the bits the loop frames, and never more than the reserved ones |
| `DownlinkProducers.DownlinkProducer.InitFlows` | src/fsw/FCCode/DownlinkProducer.cpp:16-48 | the flow list in the given order, the active count right, and a snapshot of the largest computed size |
| `DownlinkProducers.DownlinkProducer.Execute` | src/fsw/FCCode/DownlinkProducer.cpp:111-180 | writes the frame of the flows as they were, then moves the flow with the first ID to the place of the second, toggles the flow with the third, and clears the commands it obeyed; or runs past the snapshot, exactly when the payload exceeds its capacity |
| `DownlinkProducers.ReservedSnapshotLasts` | src/fsw/FCCode/DownlinkProducer.cpp:41-47 | the snapshot reserved at the start, against the frames after any run of shifts and toggles: with all flows active, frame and fill fit exactly under the two conditions above; with enough bits inactive they always do |
| `FlowLists.RunKeepsTotal` | src/fsw/FCCode/DownlinkProducer.cpp:243-296 | shifts and toggles keep the size that init_flows reserves for |
| `DownlinkProducers.DownlinkProducer.ToggleFlow` | src/fsw/FCCode/DownlinkProducer.cpp:243-260 | flips the flow with the ID and no other, of repeated IDs the first, and keeps the active count right |
| `DownlinkProducers.DownlinkProducer.ShiftFlowPriorities` | src/fsw/FCCode/DownlinkProducer.cpp:262-296 | moves the flow with the first ID to the place of the flow with the second, those in between over by one, all others staying; or fails as the assertions do, or writes out of bounds when the field lists it swaps differ in length |
| `DownlinkProducers.DownlinkProducer.MoveFlow` | src/fsw/FCCode/DownlinkProducer.cpp:286-295 | the swapping loops take the flow out and put it back at the other index, exactly when all field lists in between are equally long |
| `FlowLists.MoveToAt` | src/fsw/FCCode/DownlinkProducer.cpp:286-295 | the moved flow lands at the index, those in between move over by one, all others stay |
| `FlowLists.ShiftById` | src/fsw/FCCode/DownlinkProducer.cpp:262-296 | on IDs: the flow with the first ID stands where the flow with the second stood, those in between moved over by one towards the place it left, all others stayed; exactly when all of these have equally many fields |
| `FlowLists.ToggleById` | src/fsw/FCCode/DownlinkProducer.cpp:243-260 | the flow with the ID, and no other, is flipped |
| `FlowLists.ObeyById` | src/fsw/FCCode/DownlinkProducer.cpp:169-179 | the commands of a cycle on IDs: shift if both IDs are given, and the toggle |
| `FlowLists.ObeyFails` | src/fsw/FCCode/DownlinkProducer.cpp:169-179 | which of them fails how, the shift before the toggle |
| `FlowLists.ShiftComesFirst` | src/fsw/FCCode/DownlinkProducer.cpp:169-179 | with a repeated ID, a list on which the order shows |
| `FlowLists.SwapExchangesIff` | src/fsw/FCCode/DownlinkProducer.hpp:107-117 | two flows are exchanged exactly when their field lists are equally long |
| `FlowLists.RunKeepsFlows` | src/fsw/FCCode/DownlinkProducer.cpp:243-296 | any run of shifts and toggles keeps the flows up to order and activity, and their IDs distinct and in range |
| `FlowLists.RunSucceedsIff` | src/fsw/FCCode/DownlinkProducer.cpp:262-296 | all commands that name existing IDs succeed, in every run, exactly when all field lists are equally long |
| `FlowLists.EveryIdIsPresent` | src/fsw/FCCode/DownlinkProducer.cpp:197-200 | n distinct IDs in 1..n are all of them, so a requested flow is always found |
| `FlowLists.ShiftFailsExample` | src/fsw/FCCode/DownlinkProducer.hpp:107-117 | a concrete shift that writes out of bounds |
| `FlowLists.CountActiveSwap` | src/fsw/FCCode/DownlinkProducer.cpp:286-295 | exchanging two flows keeps the active count |
| `FlowLists.CountActiveIs` | src/fsw/FCCode/DownlinkProducer.cpp:38 | the active count is the number of active flows |
| `BitArray.ModifyBitAt` | src/common/fixed_array.hpp:232-237 | `modify_bit` changes the named bit to the given value and no other |
| `BitArray.BufferBit` | src/common/fixed_array.hpp:250-255 | bit 8i+k of a frame is the bit of byte i worth 2^(7-k), bit 8i+k of a bit stream the one worth 2^k |
| `BitArray.ToString` | src/common/fixed_array.hpp:250-258 | writes the chosen bits from a bit offset on, most significant bit of each byte first, and changes nothing else |
| `BitNumbers.NumValBitsOk` | src/common/fixed_array.hpp:260-277 | the test accepts a number exactly when it is below a limit: two to the size, less half a unit in the last place of a double when the size is above 53 |
| `BitNumbers.RoundedFitsIff` | src/common/fixed_array.hpp:264-277 | a number rounded to a double stays below two to the size exactly when it is below that limit |
| `BitNumbers.SetUllong` | src/common/fixed_array.hpp:166-188 | stores the bits of an accepted number least significant first and clears the others; a refused one changes nothing |
| `BitNumbers.ToUllong` | src/common/fixed_array.hpp:218-228 | the number the bits spell, modulo 2^64, for an array of any size |
| `BitNumbers.BitsOfAt` | src/common/fixed_array.hpp:166-188 | bit k of the array is the one worth 2^k |
| `BitNumbers.StoreAndRead` | src/common/fixed_array.hpp:172-228 | an accepted number comes back, whatever the size of the array |
| `Bitstreams.Bitstream.Next` | src/common/bitstream.cpp:35-57 | up to eight bits, fewer at the end of the stream, at any alignment; the other bits of the byte stay |
| `Bitstreams.Bitstream.NextN` | src/common/bitstream.cpp:59-75 | delivers the next min(n, remaining) bits of the stream, zeros for the rest, and moves the cursor by as many |
| `Bitstreams.Bitstream.NextBits` | src/common/bitstream.cpp:77-97 | the same bits and the same cursor, one bit at a time; nothing when the vector is too short |
| `Bitstreams.Bitstream.PeekN` | src/common/bitstream.cpp:99-106 | the same bits, cursor and stream unchanged |
| `Bitstreams.Bitstream.PeekBits` | src/common/bitstream.cpp:108-115 | the same, one bit at a time |
| `Bitstreams.Bitstream.SeekG` | src/common/bitstream.cpp:117-137 | moves to the target or, when the target is outside, nowhere; with its 32-bit arithmetic |
| `Bitstreams.SeekIsExactIff` | src/common/bitstream.cpp:117-137 | the seek does what is documented exactly when amount plus distance from the end it leaves stays below 2^32 |
| `Bitstreams.Bitstream.Edit` | src/common/bitstream.cpp:139-166 | overwrites up to eight bits at any alignment and no other; at the end of the stream it writes the byte behind, reports the bits, and the cursor stays |
| `Bitstreams.Bitstream.EditN` | src/common/bitstream.cpp:168-184 | overwrites the next min(n, remaining) bits with the given ones, all other bits stay; and goes on to write past the end of the stream exactly when the n bits neither end in its last byte nor are whole bytes beyond the clamp |
| `Bitstreams.Bitstream.EditNFrom` | src/common/bitstream.cpp:186-199 | copies the source's next bits at any misalignment of the two cursors, with the same outcome |
| `Bitstreams.Bitstream.CopyRest` | src/common/bitstream.cpp:257-262 | the stream operator overwrites with all that is left of the source, with the same outcome |
| `Bitstreams.Bitstream.HasNext` | src/common/bitstream.cpp:30-33 | true exactly while bits remain |
| `Bitstreams.Bitstream.constructor` | src/common/bitstream.cpp:5-11 | starts at bit 0 of the given bytes |
| `Bitstreams.StaysInsideIff` | src/common/bitstream.cpp:168-184 | the closed form of that condition: it holds exactly when `editN` makes no more calls than there are bytes left, and always when the bits fit |
| `Bitstreams.SixteenBitsPastTheEnd` | src/common/bitstream.cpp:168-184 | 16 bits with one byte left of two: the calls report 16 bits and overwrite the byte behind the stream |
| `Bitstreams.WriteThenRead` | src/common/bitstream.cpp:59-184 | write n bits, seek back n, read n: the same bits, the cursor behind them, every bit outside unchanged |
| `Faults.CounterFollowsHistory` | src/common/Fault.cpp:23-42 | the counter is the number of control cycles whose first signal came after the latest reset, plus the repeated signals of cycle zero |
| `Faults.CounterIsCountedCyclesIff` | src/common/Fault.cpp:28-31 | it is that number of cycles exactly when no signal of cycle zero was repeated, so always over positive cycle counts |
| `Faults.CycleZeroCountsEveryCall` | src/common/Fault.cpp:29 | two signals in cycle zero count twice |
| `Faults.FieldsFollowHistory` | src/common/Fault.cpp:77-91 | override, suppress, unsignal, persistence and the previous flags are what the history of commands and calls says |
| `Faults.LastFaultTimeIsLatest` | src/common/Fault.cpp:28-32 | the last fault time is the latest cycle that signalled |
| `Faults.CounterNeverExceedsTime` | src/common/Fault.cpp:28-31 | over positive cycle counts the counter never exceeds the cycle count, so it cannot wrap first |
| `Faults.Fault.Signal` | src/common/Fault.cpp:28-38 | refines the history by a signal |
| `Faults.Fault.Unsignal` | src/common/Fault.cpp:40-42 | refines the history by an unsignal |
| `Faults.Fault.Evaluate` | src/common/Fault.cpp:23-26 | signals or unsignals by the flag |
| `Faults.Fault.IsFaulted` | src/common/Fault.cpp:59-91 | answers override, or not suppressed and counter above persistence, with all of these read off the history |
| `Events.Event.constructor` | src/common/Event.cpp:5-21 | room for 32 bits of cycle count and every field, all zero |
| `Events.Event.Signal` | src/common/Event.cpp:27-55 | stores the cycle count and the concatenated bits of all fields, for any widths |
| `Events.Event.Deserialize` | src/common/Event.cpp:61-82 | from the snapshot of fields of the same widths restores the cycle count and every field |
| `Events.Event.SetBitArray` | src/common/Event.cpp:84-91 | replaces the stored bits |
| `Events.Transmit` | src/common/Event.cpp:27-91 | signal, transfer of the bits to another event, deserialize: the other side has cycle count and fields as they were |
| `Events.EventStorage.constructor` | src/common/EventStorage.cpp:4-20 | the given number of sub-events that share the data fields, holding the snapshot of all zeros |
| `Events.EventStorage.Signal` | src/common/EventStorage.cpp:54-60 | after every signal the slots hold, bit by bit, what the whole history of signals says, and the pointer stands where it says |
| `Events.EventStorage.DeserializeSlot` | src/common/EventStorage.cpp:22-28 | deserializing any sub-event restores cycle count and every field as they were at the latest signal that went to its slot |
| `Events.EventStorage.Deserialize` | src/common/EventStorage.cpp:47-50 | deserializing at the pointer restores them as they were at the oldest signal of a full storage, and zeros of one that is not full |
| `Events.RingHoldsLatest` | src/common/EventStorage.cpp:54-60 | after n signals on s slots the pointer is n mod s and slot i holds the latest signal k with k mod s = i, or what it held at first |
| `Events.StorageReadsOldest` | src/common/EventStorage.cpp:30-60 | what the full storage reads from the slot at the pointer is its oldest signal |
| `Registries.StateFieldRegistry.AddReadableField` | src/common/StateFieldRegistry.cpp:67-75 | refused exactly when a readable field has the name; the saved list stays the readable fields with a positive period, so the second check never fires |
| `Registries.StateFieldRegistry.AddWritableField` | src/common/StateFieldRegistry.cpp:77-82 | all or nothing, so the check after the readable list has changed never fires; writable fields stay readable |
| `Registries.StateFieldRegistry.AddInternalField` | src/common/StateFieldRegistry.cpp:61-65 | refused exactly when an internal field has the name |
| `Registries.StateFieldRegistry.AddEvent` | src/common/StateFieldRegistry.cpp:84-88 | refused exactly when an event has the name |
| `Registries.StateFieldRegistry.AddFault` | src/common/StateFieldRegistry.cpp:90-100 | added exactly when its five names are new and different; otherwise the fields before the first clash stay behind |
| `Registries.StateFieldRegistry.FindFault` | src/common/StateFieldRegistry.cpp:52-59 | the fault with the name, if there is one |
| `Registries.AddFaultTwice` | src/common/StateFieldRegistry.cpp:90-100 | a second try always fails, and leaves the readable fields as the first left them |
| `Registries.NewFaultClashIff` | src/common/StateFieldRegistry.cpp:90-96 | a constructed fault clashes exactly when a readable field already has one of its five names |
| `Registries.ClashAtEndIff` | src/common/StateFieldRegistry.cpp:90-96 | no clash exactly when the names are new and pairwise different |
| `Registries.ClashAtIs` | src/common/StateFieldRegistry.cpp:90-96 | otherwise the first that clashes is the first whose name is there by then |
| `Registries.SavedIff` | src/common/StateFieldRegistry.cpp:67-75 | the saved fields are exactly the readable ones with a positive period |
| `Registries.SavedIsUnique` | src/common/StateFieldRegistry.cpp:67-75 | their names are unique |
| `Registries.Find` | src/common/StateFieldRegistry.cpp:5-50 | the find loops: the field with the name, none exactly when there is none |
| `Eeprom.ReprRoundTrip` | src/common/StateFieldTypes.inl:103-158 | setting a field from what was stored for a value gives the value, for every saveable type and whatever the field held |
| `Eeprom.SaveAt` | src/fsw/FCCode/EEPROMControllerCommon.cpp:22-29 | one cycle stores exactly the fields whose period divides the count |
| `Eeprom.StoredAfterRun` | src/fsw/FCCode/EEPROMControllerCommon.cpp:22-29 | after any run of consecutive cycles what is stored for a field is its value c mod p cycles before the end (c the last count, p the period): the latest cycle p divides, less than p cycles old, also across the wrap of the count; a run too short for one stores nothing |
| `Eeprom.RestoreAt` | src/fsw/FCCode/EEPROMControllerDesktop.cpp:23-36 | each field is set from its own stored number alone, the mission state only to docking or docked |
| `Eeprom.RestartRecovers` | src/fsw/FCCode/EEPROMControllerDesktop.cpp:23-42 | after a run and a restart every saved field has the value of c mod p cycles before the end, except a mission state other than docking or docked |
| `Eeprom.NothingStored` | src/fsw/FCCode/EEPROMControllerCommon.cpp:13-19 | with nothing stored a restore would change nothing |
| `Eeprom.EepromController.SavedFieldsAreSaveable` | src/fsw/FCCode/EEPROMControllerCommon.cpp:25 | the registry's invariant gives unique names and positive periods, so the modulus is never zero |
| `Eeprom.EepromController.Init` | src/fsw/FCCode/EEPROMControllerCommon.cpp:3-20 | disjoint five-byte addresses inside the EEPROM, and the fields restored |
| `Eeprom.EepromController.Execute` | src/fsw/FCCode/EEPROMControllerCommon.cpp:22-29 | saves each field whose period divides the count |
| `Eeprom.EepromController.ReadEeprom` | src/fsw/FCCode/EEPROMControllerDesktop.cpp:23-36 | restores the saved fields in order |
| `GpsTimes.CountSurvives` | src/common/GPSTime.hpp:32-49 | every 64-bit count survives conversion to parts and back, with all parts in range |
| `GpsTimes.TripleSurvivesIff` | src/common/GPSTime.hpp:32-49 | a time survives the other way exactly when it is set, its parts are in range and its count fits 64 bits |
| `GpsTimes.LessIsLexicographic` | src/common/GPSTime.hpp:52-69 | on such times `<` is the strict lexicographic order and `==` equality |
| `GpsTimes.GreaterIsConverseIff` | src/common/GPSTime.hpp:72-73 | `>` is the converse of `<` exactly when both times are set; with an unset time it holds both ways round |
| `GpsTimes.AddThenSubtractIff` | src/common/GPSTime.hpp:80-101 | adding and subtracting the same amount restores the count exactly when the sum fits 64 bits, and unsets the time otherwise |
| `GpsTimes.SubtractThenAddIff` | src/common/GPSTime.hpp:80-101 | subtracting and adding restores the count exactly when the time was unset or not earlier than the amount |
| `GpsTimes.PlusPlus` | src/common/GPSTime.hpp:80-84 | adding in two steps is adding the sum modulo 2^64 |
| `GpsTimes.ElapsedIff` | src/common/GPSTime.hpp:80-108 | the difference of a time and what it became by adding is what was added, exactly when the sum fits |
| `GpsTimes.GpsTime.PlusAssign` | src/common/GPSTime.hpp:80-84 | `+=` in place |
| `GpsTimes.GpsTime.MinusAssign` | src/common/GPSTime.hpp:92-101 | `-=` in place, unsetting the time when the amount exceeds it |
| `GpsTimes.PanCountSurvives` | ptest/gpstime.py:14-36 | every count since the epoch, of either sign, survives, with parts in range |
| `GpsTimes.GroundTripleSurvivesIff` | ptest/gpstime.py:9-36 | a triple survives the other way exactly when its parts are in range |
| `GpsTimes.GroundMirrorsFlightIff` | ptest/gpstime.py:9-36 | ground and flight make the same parts of a count, and the same count of parts, exactly when the count is not negative and fits 64 bits |
| `PagedSearch.PitSearch` | es_routing/webservice.py:168-223 | the recursion over pages, with early return, ends and gives the hits of the window before the first hit that is too early, whatever the page size; the single not-found point when there are no hits at all |
| `PagedSearch.EarlyExitIsHarmlessIff` | es_routing/webservice.py:211-218 | the early return loses nothing exactly when no hit of the window comes after one that is too early |
| `PagedSearch.CollectIsFilter` | es_routing/webservice.py:211-218 | with the early return the answer is that of the hits before the first that is too early |
| `PagedSearch.FilterMore` | es_routing/webservice.py:211-216 | one more hit is one more point exactly when its time is in the window, both bounds included |
| `PagedSearch.DescendingIsHarmless` | es_routing/webservice.py:181-187 | as in every list in descending time |
| `PagedSearch.SearchAll` | es_routing/webservice.py:168-223 | from the start, on hits in descending time: exactly the in-order filter by the window |
| `HexUplink.DecodeUplink` | src/common/debug_console.cpp:371-396 | the console's decoder, with its text buffer and reused token buffer, returns for a packet of three bytes or more exactly the packet, whatever the token buffer held |
| `HexUplink.DecodeInvertsEncodeIff` | src/common/debug_console.cpp:385-396 | the decoder inverts the encoder for all old contents of the token buffer exactly when every byte has fewer digits than the packet has bytes |
| `HexUplink.DecodeCanBeWrong` | src/common/debug_console.cpp:387-395 | otherwise some old contents give a wrong packet |
| `HexUplink.LongPacketsDecode` | ptest/usb_session.py:377 | so unpadded encoding is safe for every packet of three bytes or more |
| `HexUplink.TextFitsIff` | src/common/debug_console.cpp:373-376 | text, sentinel and terminator fit the 300-byte buffer for every packet of n bytes exactly when n is at most 74 |
| `HexUplink.EncodeAt` | ptest/usb_session.py:377 | each byte's digits stand behind its escape and before the next backslash |
| `HexUplink.HexIsDigits` | ptest/usb_session.py:377 | the digits spell the byte, in lower case, two of them exactly from 16 on |
| `HexUplink.CopyDigits` | src/common/debug_console.cpp:390-392 | the inner loop copies the characters up to the next backslash |
| `HexUplink.DecodeByte` | src/common/debug_console.cpp:386-395 | one round of the outer loop |

## Left out

- Device drivers, actuation, motor and sensor control, and the estimation code: `actuate`, `execute_cmd_*` and
  `calculate_sun_vector` are actions whose arguments are logged.
- Interrupt priorities and nested handlers: a handler runs whole between two steps of the main loop. An event while
  interrupts are masked has no effect; a delayed interrupt is the same event later.
- The moment limit, the filter settings and the sensor modes that the main loop reads as call arguments are not part of the
  protocol's log; each sensor update is one step.
- Scaling of registers to floating point: a scaled value is kept as the raw number and the range it is scaled to.
- `i2c_t3` is not part of this model; reading its empty buffer is taken to give 0xFF.
- Serializer contents: a field's serialized bits are an abstract sequence of fixed width; its own deserialize inverts them.
- A field that is listed twice in one event: the model's fields are separate.
- Faults.CounterFollowsHistory: covers histories in which the control cycle count never goes back, so not the cycle in which
  it wraps; the counter itself never exceeds the cycle count and cannot wrap before it.
- Bit streams of 2^28 bytes or more, whose bit offsets overflow the integer that a seek computes with.
- Assertions that stop the program: `InitFlows`, `EepromController.Init` and the event constructors state them as
  preconditions; the commands from the ground return them as failures.
- DownlinkProducers.DownlinkProducer.Execute: does not say what a write past the snapshot does to memory behind it.
- Bitstreams.Bitstream.EditN: stops before the first call of `edit` past the end of the stream; what that call does is stated
  by Edit where the byte exists, and is undefined where it does not.
- The bit vector constructor of the bit stream and its formatting operators: they add only easy members.
- Aliasing of the edit source with the stream's own bytes.
- The Teensy variant of the EEPROM controller, whose `EEPROM.h` is not part of this model.
- Fields registered after the EEPROM controller has been initialised: a run is over one list of saved fields.
- Reading and writing the JSON file behind the EEPROM store.
- HexUplink.DecodeUplink: covers text that the encoder made; on other text the decoder has no defined behaviour. A prefix `0x`
  and the overflow of `strtol` concern only tokens that are already wrong.
- The search engine itself: it is the sequence of all hits with a resume position; times are integers, the source compares
  strings of one fixed format.
- The second copy of the paged search in `tlm/webservice.py`, HTTP endpoints, mail, serial ports, JSON and logging.
- DCDC, docking, clock and commander tasks: small branch tables that would add only easy members.
