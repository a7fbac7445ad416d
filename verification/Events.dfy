/** Events and the ring that stores them (src/common/Event.cpp, src/common/EventStorage.cpp): a snapshot of the cycle count
    and of a list of fields of any widths, packed bit by bit. */
module Events {
  import opened BitNumbers
  import opened Remainders

  function Concat(fields: seq<seq<bool>>): seq<bool> {
    if fields == [] then [] else fields[0] + Concat(fields[1..])
  }

  lemma {:induction false} ConcatMore(fields: seq<seq<bool>>, f: seq<bool>)
    ensures Concat(fields + [f]) == Concat(fields) + f
  {
    if fields == [] {
      assert Concat([f]) == f + Concat([]);
    } else {
      ConcatMore(fields[1..], f);
      assert (fields + [f])[1..] == fields[1..] + [f];
      assert fields[0] + (Concat(fields[1..]) + f) == fields[0] + Concat(fields[1..]) + f;
    }
  }

  lemma {:induction false} ConcatLength(fields: seq<seq<bool>>, j: nat)
    requires j <= |fields|
    ensures |Concat(fields[..j])| <= |Concat(fields)|
  {
    if j > 0 {
      ConcatLength(fields[1..], j - 1);
      assert fields[..j][1..] == fields[1..][..j - 1];
    }
  }

  /** Widths of a list of bit strings. */
  function Widths(fields: seq<seq<bool>>): (w: seq<nat>)
    ensures |w| == |fields|
  {
    seq(|fields|, i requires 0 <= i < |fields| => |fields[i]|)
  }

  lemma {:induction false} SameWidthsSameLength(a: seq<seq<bool>>, b: seq<seq<bool>>)
    requires Widths(a) == Widths(b)
    ensures |Concat(a)| == |Concat(b)|
  {
    if a != [] {
      assert Widths(a)[0] == Widths(b)[0];
      assert Widths(a)[1..] == Widths(a[1..]) && Widths(b)[1..] == Widths(b[1..]);
      SameWidthsSameLength(a[1..], b[1..]);
    }
  }

  /** What a signal stores. */
  function Snapshot(cc: nat, fields: seq<seq<bool>>): (bits: seq<bool>)
    ensures |bits| == 32 + |Concat(fields)|
  {
    BitsOf(cc, 32) + Concat(fields)
  }

  /** The cycle count and the data fields an event refers to, as their current bits. */
  class Telemetry {
    var ccno: nat
    var fields: seq<seq<bool>>

    constructor (ccno: nat, fields: seq<seq<bool>>)
      ensures this.ccno == ccno && this.fields == fields
    {
      this.ccno, this.fields := ccno, fields;
    }
  }

  class Event {
    const data: Telemetry
    var fieldData: array<bool>

    ghost predicate Valid()
      reads this, data
    {
      fieldData.Length == 32 + |Concat(data.fields)| && data.ccno < 0x1_0000_0000
    }

    constructor (data: Telemetry)
      requires data.ccno < 0x1_0000_0000
      ensures Valid() && this.data == data && fresh(fieldData)
      ensures forall i | 0 <= i < fieldData.Length :: !fieldData[i]
    {
      this.data := data;
      var sizeBits := 0;
      for i := 0 to |data.fields|
        invariant sizeBits == |Concat(data.fields[..i])|
      {
        ConcatMore(data.fields[..i], data.fields[i]);
        assert data.fields[..i + 1] == data.fields[..i] + [data.fields[i]];
        sizeBits := sizeBits + |data.fields[i]|;
      }
      assert data.fields[..|data.fields|] == data.fields;
      fieldData := new bool[32 + sizeBits](_ => false);
    }

    /** serialize, which signal calls: the cycle count and then every field, one bit at a time. */
    method Signal()
      requires Valid()
      modifies fieldData
      ensures Valid()
      ensures fieldData[..] == Snapshot(data.ccno, data.fields)
    {
      var bits := BitsOf(data.ccno, 32);
      for i := 0 to 32
        invariant fieldData[..i] == bits[..i]
      {
        fieldData[i] := bits[i];
      }
      var ptr := 32;
      for j := 0 to |data.fields|
        invariant ptr == 32 + |Concat(data.fields[..j])| <= fieldData.Length
        invariant fieldData[..ptr] == bits + Concat(data.fields[..j])
      {
        ConcatMore(data.fields[..j], data.fields[j]);
        assert data.fields[..j + 1] == data.fields[..j] + [data.fields[j]];
        ConcatLength(data.fields, j + 1);
        ptr := CopyIn(data.fields[j], ptr);
      }
      assert data.fields[..|data.fields|] == data.fields;
    }

    /** The inner loop of serialize: appends one field at the moving pointer. */
    method CopyIn(field: seq<bool>, start: nat) returns (ptr: nat)
      requires start + |field| <= fieldData.Length
      modifies fieldData
      ensures ptr == start + |field|
      ensures fieldData[..ptr] == old(fieldData[..start]) + field
    {
      ptr := start;
      for i := 0 to |field|
        invariant ptr == start + i
        invariant fieldData[..ptr] == old(fieldData[..start]) + field[..i]
      {
        fieldData[ptr] := field[i];
        ptr := ptr + 1;
      }
    }

    /** deserialize: puts the stored bits back into the cycle count and the fields. The bits are those of a snapshot
        of fields of the same widths. */
    method Deserialize(ghost cc: nat, ghost fields: seq<seq<bool>>)
      requires Valid() && cc < 0x1_0000_0000
      requires Widths(fields) == Widths(data.fields) && fieldData[..] == Snapshot(cc, fields)
      modifies data
      ensures Valid() && data.ccno == cc && data.fields == fields
    {
      CycleCountAt(cc, fields);
      hide Concat, BitsOf, ValueOf, Snapshot;
      data.ccno := ValueOf(fieldData[..32]);
      var ptr := 32;
      ghost var widths := Widths(data.fields);
      for j := 0 to |data.fields|
        invariant Widths(data.fields) == widths == Widths(fields)
        invariant ptr == FieldStart(fields, j)
        invariant data.fields[..j] == fields[..j]
        invariant data.ccno == cc
      {
        FieldAt(cc, fields, j);
        assert Widths(data.fields)[j] == Widths(fields)[j];
        var width := |data.fields[j]|;
        var bits := CopyOut(ptr, width);
        data.fields := data.fields[j := bits];
        ptr := ptr + width;
      }
      assert fields[..|fields|] == fields && data.fields[..|fields|] == data.fields;
    }

    /** The inner loop of deserialize. */
    method CopyOut(start: nat, width: nat) returns (bits: seq<bool>)
      requires start + width <= fieldData.Length
      ensures bits == fieldData[start..start + width]
    {
      bits := [];
      for i := 0 to width
        invariant bits == fieldData[start..start + i]
      {
        bits := bits + [fieldData[start + i]];
      }
    }

    /** set_bit_array: overwrites the stored bits. */
    method SetBitArray(arr: seq<bool>)
      requires |arr| == fieldData.Length
      modifies fieldData
      ensures fieldData[..] == arr
    {
      for i := 0 to |arr|
        invariant fieldData[..i] == arr[..i]
      {
        fieldData[i] := arr[i];
      }
    }
  }

  /** Field j of a snapshot starts where the fields before it end. */
  lemma {:induction false} ConcatSlice(fields: seq<seq<bool>>, j: nat)
    requires j < |fields|
    ensures var p := |Concat(fields[..j])|;
            p + |fields[j]| <= |Concat(fields)| && Concat(fields)[p..p + |fields[j]|] == fields[j]
  {
    if j > 0 {
      ConcatSlice(fields[1..], j - 1);
      assert fields[..j][1..] == fields[1..][..j - 1];
      var p := |Concat(fields[1..][..j - 1])|;
      assert Concat(fields)[|fields[0]| + p..|fields[0]| + p + |fields[j]|] == Concat(fields[1..])[p..p + |fields[j]|];
    }
  }

  /** The bit at which field j of a snapshot starts. */
  function FieldStart(fields: seq<seq<bool>>, j: nat): nat
    requires j <= |fields|
  {
    32 + |Concat(fields[..j])|
  }

  lemma FieldAt(cc: nat, fields: seq<seq<bool>>, j: nat)
    requires j < |fields|
    ensures var p := FieldStart(fields, j);
            && FieldStart(fields, j + 1) == p + |fields[j]| <= |Snapshot(cc, fields)|
            && Snapshot(cc, fields)[p..p + |fields[j]|] == fields[j]
  {
    hide BitsOf;
    ConcatMore(fields[..j], fields[j]);
    assert fields[..j + 1] == fields[..j] + [fields[j]];
    ConcatSlice(fields, j);
    var p := FieldStart(fields, j);
    assert Snapshot(cc, fields)[p..p + |fields[j]|] == Concat(fields)[p - 32..p - 32 + |fields[j]|];
  }

  lemma CycleCountAt(cc: nat, fields: seq<seq<bool>>)
    requires cc < 0x1_0000_0000
    ensures ValueOf(Snapshot(cc, fields)[..32]) == cc && FieldStart(fields, 0) == 32
  {
    Pow2Of32();
    ValueOfBits(cc, 32);
    assert Snapshot(cc, fields)[..32] == BitsOf(cc, 32);
  }

  /** Sending an event's bits to a copy of it on the ground and deserializing there restores cycle count and fields. */
  method Transmit(flight: Event, ground: Event)
    requires flight.Valid() && ground.Valid() && flight.data != ground.data
    requires flight.fieldData != ground.fieldData
    requires Widths(flight.data.fields) == Widths(ground.data.fields)
    modifies flight.fieldData, ground.fieldData, ground.data
    ensures ground.data.ccno == flight.data.ccno && ground.data.fields == flight.data.fields
  {
    SameWidthsSameLength(flight.data.fields, ground.data.fields);
    flight.Signal();
    ground.SetBitArray(flight.fieldData[..]);
    ground.Deserialize(flight.data.ccno, flight.data.fields);
  }

  // ----- The ring -----

  /** A ring of slots and a pointer to the one that is written next. */
  datatype Ring<T> = Ring(slots: seq<T>, ptr: nat)
  {
    predicate Valid() {
      ptr < |slots|
    }

    /** signal: overwrite the slot at the pointer, advance, wrap. */
    function Signal(x: T): (r: Ring<T>)
      requires Valid()
      ensures r.Valid() && |r.slots| == |slots|
    {
      Ring(slots[ptr := x], if ptr + 1 == |slots| then 0 else ptr + 1)
    }
  }

  function SignalAll<T>(initial: seq<T>, signals: seq<T>): (r: Ring<T>)
    requires initial != []
    ensures r.Valid() && |r.slots| == |initial|
  {
    if signals == [] then Ring(initial, 0)
    else SignalAll(initial, signals[..|signals| - 1]).Signal(signals[|signals| - 1])
  }

  /** After n signals the pointer is n mod s, and slot i holds the latest signal k with k mod s = i. */
  lemma {:induction false} RingHoldsLatest<T>(initial: seq<T>, signals: seq<T>)
    requires initial != []
    ensures var n, s, r := |signals|, |initial|, SignalAll(initial, signals);
            && r.ptr == n % s
            && (forall i | 0 <= i < s && n <= i :: r.slots[i] == initial[i])
            && forall k {:trigger signals[k]} | 0 <= k < n && n <= k + s :: r.slots[k % s] == signals[k]
  {
    if signals != [] {
      var n, s := |signals| - 1, |initial|;
      var before := signals[..n];
      RingHoldsLatest(initial, before);
      var q, r := SignalAll(initial, before), SignalAll(initial, signals);
      ModNext(n, s);
      forall k {:trigger signals[k]} | 0 <= k < n + 1 && n + 1 <= k + s
        ensures r.slots[k % s] == signals[k]
      {
        if k < n {
          assert before[k] == signals[k];
          DifferentSlots(k, n, s);
        }
      }
      forall i | 0 <= i < s && n + 1 <= i
        ensures r.slots[i] == initial[i]
      {
        SmallMod(n, s);
      }
    }
  }

  lemma DifferentSlots(k: nat, n: nat, s: nat)
    requires k < n && n < k + s
    ensures k % s != n % s
  {
    var a, b := k / s, n / s;
    assert k == a * s + k % s && n == b * s + n % s;
    if k % s == n % s {
      assert (b - a) * s == b * s - a * s == n - k;
      MulAtLeast(b - a, s);
    }
  }

  /** The slot the storage reads from is the one it writes next: once full, its oldest signal. */
  lemma StorageReadsOldest<T>(initial: seq<T>, signals: seq<T>)
    requires initial != [] && |signals| >= |initial|
    ensures var r := SignalAll(initial, signals); r.slots[r.ptr] == signals[|signals| - |initial|]
  {
    hide SignalAll;
    var n, s := |signals|, |initial|;
    RingHoldsLatest(initial, signals);
    ModLess(n, s);
    assert signals[n - s] == SignalAll(initial, signals).slots[(n - s) % s];
  }

  // ----- The storage -----

  /** The cycle count and the data fields at one signal. */
  datatype Moment = Moment(cc: nat, fields: seq<seq<bool>>)
  {
    function Bits(): seq<bool> {
      Snapshot(cc, fields)
    }

    predicate Fits(widths: seq<nat>) {
      cc < 0x1_0000_0000 && Widths(fields) == widths
    }
  }

  /** What a slot holds before it is ever signalled: all zeros. */
  function Nothing(widths: seq<nat>): (m: Moment)
    ensures m.Fits(widths)
  {
    var m := Moment(0, seq(|widths|, i requires 0 <= i < |widths| => seq(widths[i], _ => false)));
    assert Widths(m.fields) == widths;
    m
  }

  lemma NothingIsZeros(widths: seq<nat>)
    ensures forall k | 0 <= k < |Nothing(widths).Bits()| :: !Nothing(widths).Bits()[k]
  {
    ZeroBits(32);
    var fields := Nothing(widths).fields;
    ZeroConcat(fields);
  }

  lemma {:induction false} ZeroConcat(fields: seq<seq<bool>>)
    requires forall i, k | 0 <= i < |fields| && 0 <= k < |fields[i]| :: !fields[i][k]
    ensures forall k | 0 <= k < |Concat(fields)| :: !Concat(fields)[k]
  {
    if fields != [] {
      ZeroConcat(fields[1..]);
    }
  }

  lemma NewIsNothing(fields: seq<seq<bool>>, bits: seq<bool>)
    requires |bits| == 32 + |Concat(fields)| && forall k | 0 <= k < |bits| :: !bits[k]
    ensures bits == Nothing(Widths(fields)).Bits()
  {
    NothingIsZeros(Widths(fields));
    SameWidthsSameLength(fields, Nothing(Widths(fields)).fields);
  }

  lemma RecordedNothing(size: nat, widths: seq<nat>)
    requires size > 0
    ensures var r := Recorded(size, widths, []); r.ptr == 0 && forall i | 0 <= i < size :: r.slots[i] == Nothing(widths)
  {
  }

  /** The slots as they should be after some signals. */
  function Recorded(size: nat, widths: seq<nat>, history: seq<Moment>): (r: Ring<Moment>)
    requires size > 0
    ensures r.Valid() && |r.slots| == size
  {
    SignalAll(seq(size, _ => Nothing(widths)), history)
  }

  lemma RecordedMore(size: nat, widths: seq<nat>, history: seq<Moment>, m: Moment)
    requires size > 0
    ensures Recorded(size, widths, history + [m]) == Recorded(size, widths, history).Signal(m)
  {
    var longer := history + [m];
    assert longer[..|longer| - 1] == history && longer[|longer| - 1] == m;
  }

  lemma {:induction false} RecordedFit(size: nat, widths: seq<nat>, history: seq<Moment>)
    requires size > 0 && forall m | m in history :: m.Fits(widths)
    ensures forall i | 0 <= i < size :: Recorded(size, widths, history).slots[i].Fits(widths)
  {
    if history != [] {
      var before, last := history[..|history| - 1], history[|history| - 1];
      RecordedFit(size, widths, before);
      RecordedMore(size, widths, before, last);
      assert last in history && history == before + [last];
    }
  }

  /** The slots in terms of the history. */
  lemma RecordedLatest(size: nat, widths: seq<nat>, history: seq<Moment>)
    requires size > 0
    ensures var r, n := Recorded(size, widths, history), |history|;
            && (forall k | 0 <= k < n && n <= k + size :: r.slots[k % size] == history[k])
            && r.slots[r.ptr] == if n >= size then history[n - size] else Nothing(widths)
  {
    var zeros := seq(size, _ => Nothing(widths));
    RingHoldsLatest(zeros, history);
    if |history| >= size {
      StorageReadsOldest(zeros, history);
    } else {
      SmallMod(|history|, size);
    }
  }

  /** The sub-events of a new storage. */
  method MakeEvents(data: Telemetry, size: nat) returns (events: seq<Event>)
    requires data.ccno < 0x1_0000_0000
    ensures |events| == size
    ensures forall i | 0 <= i < size ::
              && events[i].data == data && events[i].Valid() && fresh(events[i]) && fresh(events[i].fieldData)
              && events[i].fieldData[..] == Nothing(Widths(data.fields)).Bits()
    ensures forall i, j | 0 <= i < j < size :: events[i].fieldData != events[j].fieldData
  {
    hide Nothing, Snapshot, Concat, Widths;
    ghost var zeros := Nothing(Widths(data.fields)).Bits();
    events := [];
    for n := 0 to size
      invariant |events| == n
      invariant forall i | 0 <= i < n :: fresh(events[i]) && fresh(events[i].fieldData)
      invariant forall i | 0 <= i < n :: events[i].data == data && events[i].Valid() && events[i].fieldData[..] == zeros
      invariant forall i, j | 0 <= i < j < n :: events[i].fieldData != events[j].fieldData
    {
      var e := new Event(data);
      NewIsNothing(data.fields, e.fieldData[..]);
      events := events + [e];
    }
  }

  /** EventStorage: the sub-events share the data fields they snapshot. The history is that of all signals so far. */
  class EventStorage {
    const data: Telemetry
    var subEvents: seq<Event>
    var eventPtr: nat
    ghost var history: seq<Moment>

    ghost predicate Shape()
      reads this, data, subEvents
    {
      && eventPtr < |subEvents|
      && (forall i | 0 <= i < |subEvents| :: subEvents[i].data == data && subEvents[i].Valid())
      && forall i, j | 0 <= i < j < |subEvents| :: subEvents[i].fieldData != subEvents[j].fieldData
    }

    /** The slots hold, bit by bit, what the history says. */
    ghost predicate Valid()
      reads this, data, subEvents, set i | 0 <= i < |subEvents| :: subEvents[i].fieldData
    {
      && Shape()
      && (forall m | m in history :: m.Fits(Widths(data.fields)))
      && var ring := Recorded(|subEvents|, Widths(data.fields), history);
         && eventPtr == ring.ptr
         && forall i | 0 <= i < |subEvents| :: subEvents[i].fieldData[..] == ring.slots[i].Bits()
    }

    /** storage_size sub-events, all zero, and the pointer at the first. */
    constructor (data: Telemetry, size: nat)
      requires 0 < size <= 99 && data.ccno < 0x1_0000_0000
      ensures Valid() && this.data == data && |subEvents| == size && history == []
      ensures forall i | 0 <= i < size :: fresh(subEvents[i].fieldData)
    {
      var events := MakeEvents(data, size);
      this.data := data;
      subEvents, eventPtr, history := events, 0, [];
      RecordedNothing(size, Widths(data.fields));
      new;
      hide Nothing, Snapshot, Recorded, Concat, Widths;
    }

    /** One slot is overwritten with the snapshot of now, all others stay. */
    method Record()
      requires Shape()
      modifies subEvents[eventPtr].fieldData
      ensures Shape() && subEvents[eventPtr].fieldData[..] == Moment(data.ccno, data.fields).Bits()
      ensures forall i | 0 <= i < |subEvents| && i != eventPtr ::
                subEvents[i].fieldData[..] == old(subEvents[i].fieldData[..])
    {
      subEvents[eventPtr].Signal();
    }

    /** Signalling records the moment: the slot at the pointer is overwritten, and the pointer goes on. */
    method Signal()
      requires Valid()
      modifies this`eventPtr, this`history, subEvents[eventPtr].fieldData
      ensures Valid() && subEvents == old(subEvents)
      ensures history == old(history) + [Moment(data.ccno, data.fields)]
    {
      hide Snapshot, Recorded, Concat, Widths;
      ghost var now := Moment(data.ccno, data.fields);
      RecordedMore(|subEvents|, Widths(data.fields), history, now);
      Record();
      eventPtr := eventPtr + 1;
      if eventPtr == |subEvents| {
        eventPtr := 0;
      }
      history := history + [now];
    }

    /** deserialize of one sub-event: cycle count and fields are again as they were at the latest signal that went to its slot;
        or zero, before the first. */
    method DeserializeSlot(i: nat)
      requires Valid() && i < |subEvents|
      modifies data
      ensures Valid() && Moment(data.ccno, data.fields) == Recorded(|subEvents|, old(Widths(data.fields)), history).slots[i]
      ensures forall k | 0 <= k < |history| && |history| <= k + |subEvents| && k % |subEvents| == i ::
                Moment(data.ccno, data.fields) == history[k]
    {
      hide Snapshot, Recorded, Nothing;
      ghost var widths := Widths(data.fields);
      RecordedFit(|subEvents|, widths, history);
      RecordedLatest(|subEvents|, widths, history);
      ghost var m := Recorded(|subEvents|, widths, history).slots[i];
      SameWidthsSameLength(m.fields, data.fields);
      subEvents[i].Deserialize(m.cc, m.fields);
    }

    /** deserialize: of the slot at the pointer, which is the oldest signal of a full storage. */
    method Deserialize()
      requires Valid()
      modifies data
      ensures Valid()
      ensures |history| >= |subEvents| ==> Moment(data.ccno, data.fields) == history[|history| - |subEvents|]
      ensures |history| < |subEvents| ==> Moment(data.ccno, data.fields) == Nothing(old(Widths(data.fields)))
    {
      hide Snapshot, Recorded, Nothing;
      RecordedLatest(|subEvents|, Widths(data.fields), history);
      DeserializeSlot(eventPtr);
    }
  }
}
