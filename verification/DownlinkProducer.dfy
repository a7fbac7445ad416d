/** The downlink producer (src/fsw/FCCode/DownlinkProducer.cpp and .hpp): the frame written from the flows every control cycle,
    and the commands obeyed after it. */
module DownlinkProducers {
  import opened BitArray
  import opened DownlinkFraming
  import opened FlowLists
  import opened Options

  class DownlinkProducer {
    var flows: seq<Flow>
    var numActiveFlows: nat
    var snapshot: array<bv8>
    var snapshotSizeBytes: nat
    var shiftFlowsId1: nat
    var shiftFlowsId2: nat
    var toggleFlowId: nat

    ghost predicate Valid()
      reads this
    {
      numActiveFlows == CountActive(flows)
    }

    /** init_flows: builds the flow list and reserves the largest snapshot. A flow is refused for an ID outside 1..n, a
        field name that is not exactly one of event and field, or its size. Repeated IDs pass: the set that should catch
        them is never filled. */
    constructor InitFlows(flowData: seq<Flow>, t: Telemetry)
      requires forall f | f in flowData :: 1 <= f.id <= |flowData| && t.FlowOk(f)
      requires forall f, name | f in flowData && name in f.fields :: name in t.events <==> name !in t.fields
      ensures Valid() && flows == flowData && fresh(snapshot)
      ensures snapshot.Length == snapshotSizeBytes == ComputedSize(32 + TotalSize(t, flowData, true))
      ensures shiftFlowsId1 == shiftFlowsId2 == toggleFlowId == 0
    {
      flows := flowData;
      shiftFlowsId1, shiftFlowsId2, toggleFlowId := 0, 0, 0;
      numActiveFlows := 0;
      var n := ComputeDownlinkSize(flowData, t, true);
      snapshotSizeBytes := n;
      snapshot := new bv8[n];
      new;
      for i := 0 to |flowData|
        invariant flows == flowData && shiftFlowsId1 == shiftFlowsId2 == toggleFlowId == 0
        invariant snapshot.Length == snapshotSizeBytes == n && fresh(snapshot)
        invariant numActiveFlows == CountActive(flows[..i])
      {
        assert flows[..i + 1][..i] == flows[..i];
        if flows[i].active {
          numActiveFlows := numActiveFlows + 1;
        }
      }
      assert flows[..|flowData|] == flows;
    }

    /** execute: writes the frame, then obeys the commands received from the ground. */
    method Execute(cycleCountBits: seq<bool>, t: Telemetry) returns (r: Result)
      requires Valid() && |cycleCountBits| == 32
      requires forall f | f in flows :: t.FlowOk(f)
      modifies this, snapshot
      ensures snapshot == old(snapshot)
      ensures snapshotSizeBytes == ComputedSize(32 + |t.ActiveBits(old(flows))|)
      ensures var payload := cycleCountBits + t.ActiveBits(old(flows));
              if |payload| <= Capacity(snapshot.Length) then
                && FrameWritten(HEADER_DIVISOR, old(snapshot[..]), payload, snapshot[..])
                && ZeroFilled(old(snapshot[..]), snapshot[..], |Frame(payload)|)
                && r == Obey(old(flows), Command(old(shiftFlowsId1), old(shiftFlowsId2), old(toggleFlowId)))
              else r == OutOfBounds
      ensures r.Done? ==> Valid() && flows == r.flows && toggleFlowId == 0
      ensures r.Done? ==> if old(shiftFlowsId1) > 0 && old(shiftFlowsId2) > 0 then shiftFlowsId1 == shiftFlowsId2 == 0
                          else shiftFlowsId1 == old(shiftFlowsId1) && shiftFlowsId2 == old(shiftFlowsId2)
      ensures r.Done? && GoodIds(old(flows)) ==>
                if old(shiftFlowsId1) > 0 && old(shiftFlowsId2) > 0 then
                  MovedById(old(flows), flows, old(shiftFlowsId1), old(shiftFlowsId2), old(toggleFlowId))
                else ToggledById(old(flows), flows, old(toggleFlowId))
    {
      hide Frame, MsbBit, FrameWritten, ZeroFilled, ShiftResult, ToggleResult, Capacity, Headers, GoodIds, MovedById,
           ToggledById;
      snapshotSizeBytes := ComputeDownlinkSize(flows, t, false);
      TotalSizeIsPayload(t, flows);
      CapacityIff(32 + |t.ActiveBits(flows)|, snapshot.Length);
      var inside, end := WriteFrame(cycleCountBits, flows, t, snapshot, HEADER_DIVISOR);
      if !inside {
        return OutOfBounds;
      }
      ghost var written := snapshot[..];
      r := ObeyCommands();
      assert snapshot[..] == written;
    }

    /** The end of execute: a shift if both its IDs are given, then a toggle if its ID is. */
    method ObeyCommands() returns (r: Result)
      requires Valid()
      modifies this`flows, this`numActiveFlows, this`shiftFlowsId1, this`shiftFlowsId2, this`toggleFlowId
      ensures r == Obey(old(flows), Command(old(shiftFlowsId1), old(shiftFlowsId2), old(toggleFlowId)))
      ensures r.Done? ==> Valid() && flows == r.flows && toggleFlowId == 0
      ensures r.Done? ==> if old(shiftFlowsId1) > 0 && old(shiftFlowsId2) > 0 then shiftFlowsId1 == shiftFlowsId2 == 0
                          else shiftFlowsId1 == old(shiftFlowsId1) && shiftFlowsId2 == old(shiftFlowsId2)
      ensures r.Done? && GoodIds(old(flows)) ==>
                if old(shiftFlowsId1) > 0 && old(shiftFlowsId2) > 0 then
                  MovedById(old(flows), flows, old(shiftFlowsId1), old(shiftFlowsId2), old(toggleFlowId))
                else ToggledById(old(flows), flows, old(toggleFlowId))
    {
      hide ShiftResult, ToggleResult, GoodIds, MovedById, ToggledById;
      ObeyIsById(flows, Command(shiftFlowsId1, shiftFlowsId2, toggleFlowId));
      r := Done(flows);
      if shiftFlowsId1 > 0 && shiftFlowsId2 > 0 {
        r := ShiftFlowPriorities(shiftFlowsId1, shiftFlowsId2);
        if !r.Done? {
          return;
        }
        shiftFlowsId1, shiftFlowsId2 := 0, 0;
      }
      if toggleFlowId > 0 {
        r := ToggleFlow(toggleFlowId);
        if !r.Done? {
          return;
        }
        toggleFlowId := 0;
      }
    }

    /** toggle_flow. */
    method ToggleFlow(id: nat) returns (r: Result)
      requires Valid()
      modifies this`flows, this`numActiveFlows
      ensures r == ToggleResult(old(flows), id)
      ensures Valid() && flows == if r.Done? then r.flows else old(flows)
      ensures r == AssertionFailed <==> id > |old(flows)|
      ensures r.Done? && GoodIds(old(flows)) && id > 0 ==> ToggledById(old(flows), flows, id)
    {
      hide GoodIds, ToggledById;
      if id > |flows| {
        return AssertionFailed;
      }
      var idx := 0;
      while idx < |flows| && flows[idx].id != id
        invariant idx <= |flows|
        invariant forall k | 0 <= k < idx :: flows[k].id != id
      {
        idx := idx + 1;
      }
      FirstIndexUnique(flows, id, idx);
      ToggleIsById(flows, id);
      if idx < |flows| {
        var active := flows[idx].active;
        CountActiveUpdate(flows, idx, flows[idx].(active := !active));
        numActiveFlows := if active then numActiveFlows - 1 else numActiveFlows + 1;
        flows := flows[idx := flows[idx].(active := !active)];
      }
      r := Done(flows);
    }

    /** shift_flow_priorities. */
    method ShiftFlowPriorities(id1: nat, id2: nat) returns (r: Result)
      requires Valid()
      modifies this`flows
      ensures r == ShiftResult(old(flows), id1, id2)
      ensures r.Done? ==> Valid() && flows == r.flows
      ensures r.AssertionFailed? ==> Valid() && flows == old(flows)
      ensures r == AssertionFailed <==> id1 > |old(flows)| || id2 > |old(flows)|
      ensures r.Done? && GoodIds(old(flows)) ==> MovedById(old(flows), flows, id1, id2, 0)
    {
      hide GoodIds, MovedById, MoveTo;
      ShiftIsById(flows, id1, id2);
      if id1 > |flows| || id2 > |flows| {
        return AssertionFailed;
      }
      var idx1, idx2 := FindFlows(id1, id2);
      if flows != [] {
        var ok := MoveFlow(idx1, idx2);
        if !ok {
          return OutOfBounds;
        }
      }
      r := Done(flows);
    }

    /** The search of shift_flow_priorities: of flows with the same ID the last one is found, of an ID that is not there the
        first flow. */
    method FindFlows(id1: nat, id2: nat) returns (idx1: nat, idx2: nat)
      ensures idx1 == LastIndexOf(flows, id1) && idx2 == LastIndexOf(flows, id2)
    {
      idx1, idx2 := 0, 0;
      for idx := 0 to |flows|
        invariant idx1 == LastIndexOf(flows[..idx], id1) && idx2 == LastIndexOf(flows[..idx], id2)
      {
        assert flows[..idx + 1][..idx] == flows[..idx];
        if flows[idx].id == id1 {
          idx1 := idx;
        }
        if flows[idx].id == id2 {
          idx2 := idx;
        }
      }
      assert flows[..|flows|] == flows;
    }

    /** The swapping loops of shift_flow_priorities; false stands for the write out of bounds. */
    method MoveFlow(idx1: nat, idx2: nat) returns (ok: bool)
      requires Valid() && idx1 < |flows| && idx2 < |flows|
      modifies this`flows
      ensures ok == SameLengths(old(flows), idx1, idx2)
      ensures ok ==> Valid() && flows == MoveTo(old(flows), idx1, idx2)
    {
      hide MoveTo, Swap;
      ghost var before := flows;
      var i := idx1;
      MoveToStart(before, idx1);
      while i != idx2
        invariant idx2 <= i <= idx1 || idx1 <= i <= idx2
        invariant |flows| == |before| && flows == MoveTo(before, idx1, i)
        invariant SameLengths(before, idx1, i)
        invariant Valid()
        decreases if i > idx2 then i - idx2 else idx2 - i
      {
        var next := if i > idx2 then i - 1 else i + 1;
        NextSwap(before, idx1, i, next);
        var swapped := Swap(flows[i], flows[next]);
        if swapped == None {
          assert |before[next].fields| != |before[idx1].fields|;
          return false;
        }
        CountActiveSwap(flows, i, next);
        flows := flows[i := swapped.value.0][next := swapped.value.1];
        i := next;
      }
      ok := true;
    }
  }

  /** The bits from the end of the frame to the end of the byte after it are cleared, the rest is untouched. */
  ghost predicate ZeroFilled(before: seq<bv8>, after: seq<bv8>, end: nat) {
    && |after| == |before|
    && forall j {:trigger MsbBit(after, j)} | end <= j < 8 * |after| ::
         MsbBit(after, j) == (j >= 8 * (end / 8 + 1) && MsbBit(before, j))
  }

  /** The part of execute that fills the snapshot: header, cycle count, active flows, zero fill. It stops where it would write
      past the end of the snapshot. */
  method WriteFrame(cycleCountBits: seq<bool>, flows: seq<Flow>, t: Telemetry, snapshot: array<bv8>, divisor: nat)
      returns (inside: bool, end: nat)
    requires divisor == HEADER_DIVISOR || divisor == INTENDED_DIVISOR
    requires |cycleCountBits| == 32
    requires forall f | f in flows :: t.FlowOk(f)
    modifies snapshot
    ensures inside <==> |Frame(cycleCountBits + t.ActiveBits(flows))| / 8 < snapshot.Length
    ensures var payload := cycleCountBits + t.ActiveBits(flows);
            inside ==>
            && end == |Frame(payload)|
            && FrameWritten(divisor, old(snapshot[..]), payload, snapshot[..])
            && ZeroFilled(old(snapshot[..]), snapshot[..], end)
    ensures var payload := cycleCountBits + t.ActiveBits(flows);
            inside && (divisor == INTENDED_DIVISOR || Undamaged(payload)) ==>
              |Frame(payload)| <= 8 * snapshot.Length
              && Carries(Deframe(FirstBits(snapshot[..], |Frame(payload)|)), t, cycleCountBits, flows)
    ensures inside ==> forall j {:trigger MsbBit(snapshot[..], j)} | end <= j < 8 * snapshot.Length ::
              MsbBit(snapshot[..], j) == (j >= 8 * (end / 8 + 1) && old(MsbBit(snapshot[..], j)))
  {
    hide Packets, MsbBit, Written, OffsetsOf, Carries, Undamaged, Deframe, FrameWritten;
    ghost var stale, whole := snapshot[..], cycleCountBits + t.ActiveBits(flows);
    if snapshot.Length == 0 {
      return false, 0;
    }
    LongerPayloadsLongerFrames(32, |whole|);
    var packetOffset, offset;
    inside, packetOffset, offset := WriteStart(cycleCountBits, snapshot, divisor, stale);
    if !inside {
      return false, 0;
    }
    inside, packetOffset, offset :=
      WriteFlows(flows, t, snapshot, packetOffset, offset, divisor, stale, cycleCountBits);
    if !inside {
      return false, 0;
    }
    end := offset;
    ghost var framed := snapshot[..];
    EndOfFrame(divisor, stale, whole, framed, packetOffset, end);
    inside := ZeroFill(snapshot, end);
    if !inside {
      return false, end;
    }
    FrameIsFilled(divisor, stale, whole, framed, snapshot[..]);
    FlowsAreDelivered(divisor, stale, cycleCountBits, flows, t, snapshot[..]);
  }

  /** The header of the first packet, and the cycle count. */
  method WriteStart(cycleCountBits: seq<bool>, snapshot: array<bv8>, divisor: nat, ghost stale: seq<bv8>)
      returns (inside: bool, packetOffset: nat, offset: nat)
    requires divisor == HEADER_DIVISOR || divisor == INTENDED_DIVISOR
    requires |cycleCountBits| == 32 && snapshot.Length > 0 && stale == snapshot[..]
    modifies snapshot
    ensures inside <==> |Frame(cycleCountBits)| <= 8 * snapshot.Length
    ensures inside ==> Written(divisor, stale, cycleCountBits, snapshot[..])
    ensures inside ==> OffsetsOf(cycleCountBits, packetOffset, offset)
  {
    hide Packets, MsbBit, Written, OffsetsOf;
    PutMsbBit(snapshot, 0, true);
    WrittenStart(divisor, stale, snapshot[..]);
    inside, packetOffset, offset := AddBitsToDownlinkFrame(divisor, cycleCountBits, snapshot, 1, 1, stale, []);
    assert [] + cycleCountBits == cycleCountBits;
  }

  /** The active flows, in order. */
  method WriteFlows(flows: seq<Flow>, t: Telemetry, snapshot: array<bv8>, packetOffset: nat, offset: nat, divisor: nat,
                    ghost stale: seq<bv8>, ghost payload: seq<bool>)
      returns (inside: bool, packetOffset': nat, offset': nat)
    requires divisor == HEADER_DIVISOR || divisor == INTENDED_DIVISOR
    requires forall f | f in flows :: t.FlowOk(f)
    requires Written(divisor, stale, payload, snapshot[..]) && OffsetsOf(payload, packetOffset, offset)
    requires |Frame(payload)| <= 8 * snapshot.Length
    modifies snapshot
    ensures inside <==> |Frame(payload + t.ActiveBits(flows))| <= 8 * snapshot.Length
    ensures inside ==> Written(divisor, stale, payload + t.ActiveBits(flows), snapshot[..])
    ensures inside ==> OffsetsOf(payload + t.ActiveBits(flows), packetOffset', offset')
  {
    hide Packets, MsbBit, Written, OffsetsOf;
    ghost var whole, done := payload + t.ActiveBits(flows), payload;
    inside, packetOffset', offset' := true, packetOffset, offset;
    for i := 0 to |flows|
      invariant inside && |Frame(done)| <= 8 * snapshot.Length
      invariant Written(divisor, stale, done, snapshot[..])
      invariant OffsetsOf(done, packetOffset', offset')
      invariant done + t.ActiveBits(flows[i..]) == whole
    {
      assert flows[i..][1..] == flows[i + 1..];
      if flows[i].active {
        assert flows[i] in flows;
        ghost var rest := t.ActiveBits(flows[i + 1..]);
        LongerPayloadsLongerFrames(|done + t.FlowBits(flows[i])|, |whole|);
        inside, packetOffset', offset' :=
          WriteFlow(flows[i], t, snapshot, packetOffset', offset', divisor, stale, done);
        if !inside {
          return;
        }
        assert done + (t.FlowBits(flows[i]) + rest) == done + t.FlowBits(flows[i]) + rest;
        done := done + t.FlowBits(flows[i]);
      }
    }
    assert done == whole;
  }

  /** No set payload bit is cleared by the header write of a later packet. */
  ghost predicate Undamaged(payload: seq<bool>) {
    forall k {:trigger Damages(payload, k)} | 1 <= k < Headers(|payload|) :: !Damages(payload, k)
  }

  /** The ground gets cycle count, IDs and fields, each in its place: always with the intended divisor, and with that of the
      source if no header write does damage. */
  lemma FlowsAreDelivered(divisor: nat, stale: seq<bv8>, cycleCountBits: seq<bool>, flows: seq<Flow>, t: Telemetry,
                          buffer: seq<bv8>)
    requires divisor == HEADER_DIVISOR || divisor == INTENDED_DIVISOR
    requires FrameWritten(divisor, stale, cycleCountBits + t.ActiveBits(flows), buffer)
    ensures var payload := cycleCountBits + t.ActiveBits(flows);
            divisor == INTENDED_DIVISOR || Undamaged(payload) ==>
              Carries(Deframe(FirstBits(buffer, |Frame(payload)|)), t, cycleCountBits, flows)
  {
    hide FrameWritten, Carries, Deframe, FirstBits, Damages, Telemetry.ActiveBits;
    var payload := cycleCountBits + t.ActiveBits(flows);
    FlowsStand(t, cycleCountBits, flows);
    if divisor == INTENDED_DIVISOR {
      IntendedDivisorDelivers(stale, payload, buffer);
    } else if Undamaged(payload) {
      SourceDivisorDeliversIff(stale, payload, buffer);
    }
  }

  lemma EndOfFrame(divisor: nat, stale: seq<bv8>, payload: seq<bool>, buffer: seq<bv8>, packetOffset: nat, offset: nat)
    requires divisor == HEADER_DIVISOR || divisor == INTENDED_DIVISOR
    requires Written(divisor, stale, payload, buffer) && OffsetsOf(payload, packetOffset, offset)
    ensures |buffer| == |stale| && offset == |Frame(payload)|
  {
  }

  lemma FrameIsFilled(divisor: nat, stale: seq<bv8>, payload: seq<bool>, framed: seq<bv8>, buffer: seq<bv8>)
    requires divisor == HEADER_DIVISOR || divisor == INTENDED_DIVISOR
    requires Written(divisor, stale, payload, framed) && |buffer| == |framed|
    requires |Frame(payload)| <= 8 * |buffer|
    requires var end := |Frame(payload)|;
             forall j {:trigger MsbBit(buffer, j)} | 0 <= j < 8 * |buffer| ::
               MsbBit(buffer, j) == (!(end <= j < 8 * (end / 8 + 1)) && MsbBit(framed, j))
    ensures FrameWritten(divisor, stale, payload, buffer) && ZeroFilled(stale, buffer, |Frame(payload)|)
  {
    hide MsbBit, Packets;
    forall j {:trigger MsbBit(buffer, j)} | |Frame(payload)| <= j < 8 * |buffer|
      ensures MsbBit(buffer, j) == (j >= 8 * (|Frame(payload)| / 8 + 1) && MsbBit(stale, j))
    {
      BeyondFrame(divisor, stale, payload, j);
      assert MsbBit(framed, j) == WrittenBit(divisor, stale, payload, j);
    }
  }

  /** No header write reaches past the frame. */
  lemma BeyondFrame(divisor: nat, stale: seq<bv8>, payload: seq<bool>, j: nat)
    requires divisor == HEADER_DIVISOR || divisor == INTENDED_DIVISOR
    requires |Frame(payload)| <= j < 8 * |stale|
    ensures WrittenBit(divisor, stale, payload, j) == MsbBit(stale, j)
  {
    hide MsbBit, Packets;
    var c := Spacing(divisor);
    assert 64 * (Headers(|payload|) - 1) < |Frame(payload)| && 560 * (Headers(|payload|) - 1) < |Frame(payload)|;
  }

  /** Writes a flow: its ID, then its fields one at a time. */
  method WriteFlow(flow: Flow, t: Telemetry, snapshot: array<bv8>, packetOffset: nat, offset: nat, divisor: nat,
                   ghost stale: seq<bv8>, ghost payload: seq<bool>) returns (inside: bool, packetOffset': nat, offset': nat)
    requires divisor == HEADER_DIVISOR || divisor == INTENDED_DIVISOR
    requires t.FlowOk(flow)
    requires Written(divisor, stale, payload, snapshot[..])
    requires OffsetsOf(payload, packetOffset, offset)
    requires |Frame(payload)| <= 8 * snapshot.Length
    modifies snapshot
    ensures inside <==> |Frame(payload + t.FlowBits(flow))| <= 8 * snapshot.Length
    ensures inside ==> Written(divisor, stale, payload + t.FlowBits(flow), snapshot[..])
    ensures inside ==> OffsetsOf(payload + t.FlowBits(flow), packetOffset', offset')
  {
    hide Packets, MsbBit, Written, OffsetsOf;
    ghost var whole := payload + t.FlowBits(flow);
    LongerPayloadsLongerFrames(|payload + flow.idBits|, |whole|);
    inside, packetOffset', offset' :=
      AddBitsToDownlinkFrame(divisor, flow.idBits, snapshot, packetOffset, offset, stale, payload);
    assert payload + flow.idBits + t.FieldBits(flow.fields) == whole;
    if inside {
      inside, packetOffset', offset' :=
        WriteFields(flow.fields, t, snapshot, packetOffset', offset', divisor, stale, payload + flow.idBits);
    }
  }

  /** The fields of a flow, one at a time: an event was serialized when it was signalled, a field is serialized now. */
  method WriteFields(names: seq<string>, t: Telemetry, snapshot: array<bv8>, packetOffset: nat, offset: nat, divisor: nat,
                     ghost stale: seq<bv8>, ghost payload: seq<bool>)
      returns (inside: bool, packetOffset': nat, offset': nat)
    requires divisor == HEADER_DIVISOR || divisor == INTENDED_DIVISOR
    requires (forall name | name in names :: t.Knows(name)) && |t.FieldBits(names)| <= 559
    requires Written(divisor, stale, payload, snapshot[..]) && OffsetsOf(payload, packetOffset, offset)
    requires |Frame(payload)| <= 8 * snapshot.Length
    modifies snapshot
    ensures inside <==> |Frame(payload + t.FieldBits(names))| <= 8 * snapshot.Length
    ensures inside ==> Written(divisor, stale, payload + t.FieldBits(names), snapshot[..])
    ensures inside ==> OffsetsOf(payload + t.FieldBits(names), packetOffset', offset')
  {
    hide Packets, MsbBit, Written, OffsetsOf;
    ghost var whole, done := payload + t.FieldBits(names), payload;
    inside, packetOffset', offset' := true, packetOffset, offset;
    for j := 0 to |names|
      invariant inside && |Frame(done)| <= 8 * snapshot.Length
      invariant Written(divisor, stale, done, snapshot[..])
      invariant OffsetsOf(done, packetOffset', offset')
      invariant done + t.FieldBits(names[j..]) == whole
    {
      BitsOfOneField(t, names, j);
      assert names[j..][1..] == names[j + 1..];
      ghost var rest := t.FieldBits(names[j + 1..]);
      var name := names[j];
      assert name in names;
      var bits := if name in t.events then t.events[name] else t.fields[name];
      assert bits == t.Bits(name);
      LongerPayloadsLongerFrames(|done + bits|, |whole|);
      inside, packetOffset', offset' := AddBitsToDownlinkFrame(divisor, bits, snapshot, packetOffset', offset', stale, done);
      if !inside {
        assert |done + bits| <= |whole|;
        return;
      }
      assert done + (bits + rest) == done + bits + rest;
      done := done + bits;
    }
    assert done == whole;
  }

  /** Clears the bits that remain in the last byte; a whole byte when the frame ends on a byte boundary. */
  method ZeroFill(snapshot: array<bv8>, end: nat) returns (inside: bool)
    modifies snapshot
    ensures inside <==> end / 8 < snapshot.Length
    ensures inside ==> forall j {:trigger MsbBit(snapshot[..], j)} | 0 <= j < 8 * snapshot.Length ::
              MsbBit(snapshot[..], j) == (!(end <= j < 8 * (end / 8 + 1)) && old(MsbBit(snapshot[..], j)))
  {
    hide MsbBit;
    inside := end / 8 < snapshot.Length;
    if !inside {
      return;
    }
    var i := 8 - end % 8;
    while i > 0
      invariant 0 <= i <= 8 - end % 8
      invariant forall j {:trigger MsbBit(snapshot[..], j)} | 0 <= j < 8 * snapshot.Length ::
                  MsbBit(snapshot[..], j) == (!(end <= j < 8 * (end / 8 + 1) - i) && old(MsbBit(snapshot[..], j)))
    {
      i := i - 1;
      PutMsbBit(snapshot, 8 * (end / 8) + (7 - i), false);
    }
  }

  /** The snapshot that init_flows reserves, and the frames that any later list of flows needs, as long as the widths of the
      fields stay. With all flows active it takes the frame exactly when the formula is exact, and the zero fill exactly when
      the frame does not end on a byte boundary besides; it takes both always as soon as the inactive flows have more bits than
      the formula misses packets. */
  lemma ReservedSnapshotLasts(t: Telemetry, flows: seq<Flow>, commands: seq<Command>)
    requires Run(flows, commands).Done?
    ensures var all, n := 32 + TotalSize(t, flows, true), 32 + |t.ActiveBits(Run(flows, commands).flows)|;
            && n <= all
            && (n + ExtraPackets(all) < all ==> n <= Capacity(ComputedSize(all)))
            && (n == all ==> (all + Headers(all) <= 8 * ComputedSize(all) <==> ExtraPackets(all) <= (-Overrun(all)) % 8))
            && (n == all ==> (n <= Capacity(ComputedSize(all))
                              <==> (all + Headers(all)) % 8 != 0 && ExtraPackets(all) <= (-Overrun(all)) % 8))
  {
    hide Run, Capacity, Headers, ExtraPackets, Overrun;
    var all, n := 32 + TotalSize(t, flows, true), 32 + |t.ActiveBits(Run(flows, commands).flows)|;
    RunKeepsTotal(t, flows, commands);
    TotalSizeIsPayload(t, Run(flows, commands).flows);
    if n + ExtraPackets(all) < all {
      InactiveBitsMakeRoom(n, all);
    }
    CapacityIff(all, ComputedSize(all));
    ReservedBufferCoversFillIff(all);
    ComputedSizeExactIff(all);
  }

  /** compute_downlink_size. */
  method ComputeDownlinkSize(flows: seq<Flow>, t: Telemetry, computeMax: bool) returns (bytes: nat)
    ensures bytes == ComputedSize(32 + TotalSize(t, flows, computeMax))
  {
    var bits := 0;
    for i := 0 to |flows|
      invariant bits + TotalSize(t, flows[i..], computeMax) == TotalSize(t, flows, computeMax)
    {
      if flows[i].active || computeMax {
        bits := bits + t.PacketSize(flows[i]);
      }
    }
    bits := bits + 32;
    bits := bits + (bits + PACKET_BITS - 1) / PACKET_BITS;
    bytes := (bits + 7) / 8;
  }
}
