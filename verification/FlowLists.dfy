/** The telemetry flows of the downlink producer as a list (src/fsw/FCCode/DownlinkProducer.cpp and .hpp): the bits they make,
    and their reordering and toggling by commands from the ground. */
module FlowLists {
  import opened DownlinkFraming
  import opened Options

  /** A telemetry flow: its ID with the fixed-width bits the ID serializer makes of it, and the names of its fields. */
  datatype Flow = Flow(id: nat, idBits: seq<bool>, active: bool, fields: seq<string>)

  /** The serialized bits of every registered event and readable field, by name. */
  datatype Telemetry = Telemetry(events: map<string, seq<bool>>, fields: map<string, seq<bool>>)
  {
    predicate Knows(name: string) {
      name in events || name in fields
    }

    /** A name is looked up among the events first. */
    function Bits(name: string): seq<bool> {
      if name in events then events[name] else if name in fields then fields[name] else []
    }

    function FieldBits(names: seq<string>): seq<bool> {
      if names == [] then [] else Bits(names[0]) + FieldBits(names[1..])
    }

    function FlowBits(flow: Flow): seq<bool> {
      flow.idBits + FieldBits(flow.fields)
    }

    /** The bits of the active flows, in priority order. */
    function ActiveBits(flows: seq<Flow>): seq<bool> {
      if flows == [] then []
      else (if flows[0].active then FlowBits(flows[0]) else []) + ActiveBits(flows[1..])
    }

    /** get_packet_size. */
    function PacketSize(flow: Flow): nat {
      |FlowBits(flow)|
    }

    /** The checks of the Flow constructor on fields and size. */
    predicate FlowOk(flow: Flow) {
      && (forall name | name in flow.fields :: Knows(name))
      && PacketSize(flow) <= PACKET_BITS - 1 - 32
    }
  }

  // ----- Where ID and fields of a flow stand -----

  /** The widths of some fields together. */
  function FieldsWidth(t: Telemetry, names: seq<string>): nat {
    if names == [] then 0 else FieldsWidth(t, names[..|names| - 1]) + |t.Bits(names[|names| - 1])|
  }

  /** The widths of the IDs and fields of the active flows of a list together. */
  function FlowsWidth(t: Telemetry, flows: seq<Flow>): nat {
    if flows == [] then 0
    else
      var f := flows[|flows| - 1];
      FlowsWidth(t, flows[..|flows| - 1]) + if f.active then |f.idBits| + FieldsWidth(t, f.fields) else 0
  }

  lemma {:induction false} FieldsWidthFirst(t: Telemetry, names: seq<string>)
    requires names != []
    ensures FieldsWidth(t, names) == |t.Bits(names[0])| + FieldsWidth(t, names[1..])
  {
    var n := |names| - 1;
    if n > 0 {
      FieldsWidthFirst(t, names[..n]);
      assert names[..n][1..] == names[1..][..n - 1] && names[1..][n - 1] == names[n];
    }
  }

  lemma {:induction false} FlowsWidthFirst(t: Telemetry, flows: seq<Flow>)
    requires flows != []
    ensures FlowsWidth(t, flows)
         == (if flows[0].active then |flows[0].idBits| + FieldsWidth(t, flows[0].fields) else 0) + FlowsWidth(t, flows[1..])
  {
    var n := |flows| - 1;
    if n > 0 {
      FlowsWidthFirst(t, flows[..n]);
      assert flows[..n][1..] == flows[1..][..n - 1] && flows[1..][n - 1] == flows[n];
    }
  }

  /** Some bits stand at a place among others. */
  predicate Stands(bits: seq<bool>, p: nat, part: seq<bool>) {
    p + |part| <= |bits| && bits[p..p + |part|] == part
  }

  lemma StandsFirst(part: seq<bool>, rest: seq<bool>)
    ensures Stands(part + rest, 0, part)
  {
  }

  lemma StandsBehind(before: seq<bool>, bits: seq<bool>, p: nat, part: seq<bool>)
    requires Stands(bits, p, part)
    ensures Stands(before + bits, |before| + p, part)
  {
    assert (before + bits)[|before| + p..|before| + p + |part|] == bits[p..p + |part|];
  }

  lemma StandsWithin(bits: seq<bool>, p: nat, part: seq<bool>, q: nat, smaller: seq<bool>)
    requires Stands(bits, p, part) && Stands(part, q, smaller)
    ensures Stands(bits, p + q, smaller)
  {
    forall k | 0 <= k < |smaller|
      ensures bits[p + q + k] == smaller[k]
    {
      assert smaller[k] == part[q..q + |smaller|][k] && part[q + k] == bits[p..p + |part|][q + k];
    }
  }

  lemma Prefixes<T>(s: seq<T>, j: nat)
    requires 0 < j <= |s|
    ensures |s[..j]| == j && s[..j][0] == s[0] && s[..j][1..] == s[1..][..j - 1]
    ensures j < |s| ==> s[1..][j - 1] == s[j]
  {
  }

  lemma {:induction false} FieldBitsLength(t: Telemetry, names: seq<string>)
    ensures |t.FieldBits(names)| == FieldsWidth(t, names)
  {
    if names != [] {
      FieldBitsLength(t, names[1..]);
      FieldsWidthFirst(t, names);
    }
  }

  lemma BitsOfOneField(t: Telemetry, names: seq<string>, j: nat)
    requires j < |names|
    ensures |t.Bits(names[j])| <= |t.FieldBits(names)|
  {
    FieldInFlow(t, names, j);
  }

  /** Field j of a flow stands behind the fields before it. */
  lemma {:induction false} FieldInFlow(t: Telemetry, names: seq<string>, j: nat)
    requires j < |names|
    ensures Stands(t.FieldBits(names), FieldsWidth(t, names[..j]), t.Bits(names[j]))
  {
    hide *;
    FieldBitsFirst(t, names);
    if j > 0 {
      Prefixes(names, j);
      FieldsWidthFirst(t, names[..j]);
      FieldInFlow(t, names[1..], j - 1);
      StandsBehind(t.Bits(names[0]), t.FieldBits(names[1..]), FieldsWidth(t, names[1..][..j - 1]), t.Bits(names[j]));
    } else {
      StandsFirst(t.Bits(names[0]), t.FieldBits(names[1..]));
    }
  }

  lemma FieldBitsFirst(t: Telemetry, names: seq<string>)
    requires names != []
    ensures t.FieldBits(names) == t.Bits(names[0]) + t.FieldBits(names[1..])
    ensures FieldsWidth(t, names[..0]) == 0
  {
  }

  /** The size of a flow is its ID and its fields. */
  lemma PacketSizeIs(t: Telemetry, flow: Flow)
    ensures t.PacketSize(flow) == |flow.idBits| + FieldsWidth(t, flow.fields)
  {
    FieldBitsLength(t, flow.fields);
  }

  /** A flow is its ID and then its fields. */
  lemma FlowBitsAre(t: Telemetry, flow: Flow)
    ensures Stands(t.FlowBits(flow), 0, flow.idBits)
    ensures forall j | 0 <= j < |flow.fields| ::
              Stands(t.FlowBits(flow), |flow.idBits| + FieldsWidth(t, flow.fields[..j]), t.Bits(flow.fields[j]))
  {
    StandsFirst(flow.idBits, t.FieldBits(flow.fields));
    hide Telemetry.FieldBits, Telemetry.Bits, Stands, FieldsWidth;
    forall j | 0 <= j < |flow.fields|
      ensures Stands(t.FlowBits(flow), |flow.idBits| + FieldsWidth(t, flow.fields[..j]), t.Bits(flow.fields[j]))
    {
      FieldInFlow(t, flow.fields, j);
      StandsBehind(flow.idBits, t.FieldBits(flow.fields), FieldsWidth(t, flow.fields[..j]), t.Bits(flow.fields[j]));
    }
  }

  lemma {:induction false} ActiveBitsLength(t: Telemetry, flows: seq<Flow>)
    ensures |t.ActiveBits(flows)| == FlowsWidth(t, flows)
  {
    if flows != [] {
      hide FieldsWidth;
      ActiveBitsLength(t, flows[1..]);
      FlowsWidthFirst(t, flows);
      PacketSizeIs(t, flows[0]);
    }
  }

  /** An active flow stands behind the active flows before it. */
  lemma {:induction false} FlowInList(t: Telemetry, flows: seq<Flow>, k: nat)
    requires k < |flows| && flows[k].active
    ensures Stands(t.ActiveBits(flows), FlowsWidth(t, flows[..k]), t.FlowBits(flows[k]))
  {
    hide *;
    var head := if flows[0].active then t.FlowBits(flows[0]) else [];
    ActiveBitsFirst(t, flows);
    if k > 0 {
      Prefixes(flows, k);
      FlowsWidthFirst(t, flows[..k]);
      FlowInList(t, flows[1..], k - 1);
      StandsBehind(head, t.ActiveBits(flows[1..]), FlowsWidth(t, flows[1..][..k - 1]), t.FlowBits(flows[k]));
    } else {
      StandsFirst(head, t.ActiveBits(flows[1..]));
    }
  }

  lemma ActiveBitsFirst(t: Telemetry, flows: seq<Flow>)
    requires flows != []
    ensures t.ActiveBits(flows) == (if flows[0].active then t.FlowBits(flows[0]) else []) + t.ActiveBits(flows[1..])
    ensures |t.FlowBits(flows[0])| == |flows[0].idBits| + FieldsWidth(t, flows[0].fields)
    ensures FlowsWidth(t, flows[..0]) == 0
  {
    PacketSizeIs(t, flows[0]);
  }

  lemma FlowsStand(t: Telemetry, cycleCountBits: seq<bool>, flows: seq<Flow>)
    ensures Carries(cycleCountBits + t.ActiveBits(flows), t, cycleCountBits, flows)
  {
    hide FlowsWidth, FieldsWidth, Stands, Telemetry.ActiveBits, Telemetry.Bits;
    var payload, n := cycleCountBits + t.ActiveBits(flows), |cycleCountBits|;
    ActiveBitsLength(t, flows);
    forall k | 0 <= k < |flows| && flows[k].active
      ensures var p, f := n + FlowsWidth(t, flows[..k]), flows[k];
              && Stands(payload, p, f.idBits)
              && forall j | 0 <= j < |f.fields| ::
                   Stands(payload, p + |f.idBits| + FieldsWidth(t, f.fields[..j]), t.Bits(f.fields[j]))
    {
      OneFlowInPayload(t, cycleCountBits, flows, k);
    }
  }

  /** What a frame carries: the cycle count, and of each active flow, behind the IDs and fields of the active flows before it,
      the ID and then each field, an event or else a readable field; inactive flows take no bits. */
  lemma FlowsInPayload(t: Telemetry, cycleCountBits: seq<bool>, flows: seq<Flow>)
    ensures var payload, n := cycleCountBits + t.ActiveBits(flows), |cycleCountBits|;
            && |payload| == n + FlowsWidth(t, flows) && payload[..n] == cycleCountBits
            && forall k | 0 <= k < |flows| && flows[k].active ::
                 var p, f := n + FlowsWidth(t, flows[..k]), flows[k];
                 && p + |f.idBits| <= |payload| && payload[p..p + |f.idBits|] == f.idBits
                 && forall j | 0 <= j < |f.fields| ::
                      var q, name := p + |f.idBits| + FieldsWidth(t, f.fields[..j]), f.fields[j];
                      var bits := if name in t.events then t.events[name]
                                  else if name in t.fields then t.fields[name] else [];
                      q + |bits| <= |payload| && payload[q..q + |bits|] == bits
  {
    hide FlowsWidth, FieldsWidth, Telemetry.ActiveBits, Telemetry.FlowBits;
    FlowsStand(t, cycleCountBits, flows);
  }

  /** The bits are the cycle count, and the IDs and fields of the active flows, each in its place, and nothing else. */
  ghost predicate Carries(bits: seq<bool>, t: Telemetry, cycleCountBits: seq<bool>, flows: seq<Flow>) {
    var n := |cycleCountBits|;
    && |bits| == n + FlowsWidth(t, flows) && bits[..n] == cycleCountBits
    && forall k | 0 <= k < |flows| && flows[k].active ::
         var p, f := n + FlowsWidth(t, flows[..k]), flows[k];
         && Stands(bits, p, f.idBits)
         && forall j | 0 <= j < |f.fields| ::
              Stands(bits, p + |f.idBits| + FieldsWidth(t, f.fields[..j]), t.Bits(f.fields[j]))
  }

  lemma OneFlowInPayload(t: Telemetry, cycleCountBits: seq<bool>, flows: seq<Flow>, k: nat)
    requires k < |flows| && flows[k].active
    ensures var payload, f := cycleCountBits + t.ActiveBits(flows), flows[k];
            var p := |cycleCountBits| + FlowsWidth(t, flows[..k]);
            && Stands(payload, p, f.idBits)
            && forall j | 0 <= j < |f.fields| ::
                 Stands(payload, p + |f.idBits| + FieldsWidth(t, f.fields[..j]), t.Bits(f.fields[j]))
  {
    hide FlowsWidth, FieldsWidth, Stands, Telemetry.ActiveBits, Telemetry.FlowBits, Telemetry.Bits;
    var f, payload, p := flows[k], cycleCountBits + t.ActiveBits(flows), |cycleCountBits| + FlowsWidth(t, flows[..k]);
    FlowInList(t, flows, k);
    FlowBitsAre(t, f);
    StandsBehind(cycleCountBits, t.ActiveBits(flows), FlowsWidth(t, flows[..k]), t.FlowBits(f));
    StandsWithin(payload, p, t.FlowBits(f), 0, f.idBits);
    forall j | 0 <= j < |f.fields|
      ensures Stands(payload, p + |f.idBits| + FieldsWidth(t, f.fields[..j]), t.Bits(f.fields[j]))
    {
      StandsWithin(payload, p, t.FlowBits(f), |f.idBits| + FieldsWidth(t, f.fields[..j]), t.Bits(f.fields[j]));
    }
  }

  // ----- Reordering -----

  /** Flow's move assignment: it copies field by field without resizing, so a longer list runs past the end. */
  function MoveAssign(lhs: Flow, rhs: Flow): Option<Flow> {
    if |rhs.fields| > |lhs.fields| then None
    else Some(Flow(rhs.id, rhs.idBits, rhs.active, rhs.fields + lhs.fields[|rhs.fields|..]))
  }

  /** std::swap on two flows: a copy and two move assignments. */
  function Swap(a: Flow, b: Flow): Option<(Flow, Flow)> {
    var tmp := a;
    var a' := MoveAssign(a, b);
    var b' := MoveAssign(b, tmp);
    if a'.Some? && b'.Some? then Some((a'.value, b'.value)) else None
  }

  /** Swapping exchanges two flows exactly when their field lists are equally long; otherwise it writes out of bounds. */
  lemma SwapExchangesIff(a: Flow, b: Flow)
    ensures Swap(a, b) == Some((b, a)) <==> |a.fields| == |b.fields|
    ensures Swap(a, b) == None <==> |a.fields| != |b.fields|
  {
    if |a.fields| == |b.fields| {
      assert b.fields + a.fields[|b.fields|..] == b.fields;
      assert a.fields + b.fields[|a.fields|..] == a.fields;
    }
  }

  predicate SameLengths(flows: seq<Flow>, i: nat, j: nat)
    requires i < |flows| && j < |flows|
  {
    forall k | 0 <= k < |flows| && (i <= k <= j || j <= k <= i) :: |flows[k].fields| == |flows[i].fields|
  }

  function RemoveAt<T>(s: seq<T>, i: nat): seq<T>
    requires i < |s|
  {
    s[..i] + s[i + 1..]
  }

  function InsertAt<T>(s: seq<T>, i: nat, x: T): seq<T>
    requires i <= |s|
  {
    s[..i] + [x] + s[i..]
  }

  /** The list with element i taken out and put back at index j: all others keep their order. */
  function MoveTo<T>(s: seq<T>, i: nat, j: nat): (r: seq<T>)
    requires i < |s| && j < |s|
    ensures |r| == |s|
  {
    InsertAt(RemoveAt(s, i), j, s[i])
  }

  /** Pointwise: the element lands at j, those in between move over by one, the others stay. */
  lemma MoveToAt<T>(s: seq<T>, i: nat, j: nat, k: nat)
    requires i < |s| && j < |s| && k < |s|
    ensures MoveTo(s, i, j)[k] ==
            if k == j then s[i] else if i <= k < j then s[k + 1] else if j < k <= i then s[k - 1] else s[k]
  {
  }

  lemma MoveToMultiset<T>(s: seq<T>, i: nat, j: nat)
    requires i < |s| && j < |s|
    ensures multiset(MoveTo(s, i, j)) == multiset(s)
  {
    var r := RemoveAt(s, i);
    assert s == s[..i] + [s[i]] + s[i + 1..];
    assert r == r[..j] + r[j..];
    assert multiset(s) == multiset(r) + multiset{s[i]};
  }

  /** The index of the last flow with an ID, or 0. */
  function LastIndexOf(flows: seq<Flow>, id: nat): (i: nat)
    ensures i == 0 || i < |flows|
    ensures (exists k :: 0 <= k < |flows| && flows[k].id == id) ==> i < |flows| && flows[i].id == id
    ensures forall k | i < k < |flows| :: flows[k].id != id
    ensures (forall k | 0 <= k < |flows| :: flows[k].id != id) ==> i == 0
  {
    if flows == [] then 0
    else if flows[|flows| - 1].id == id then |flows| - 1
    else LastIndexOf(flows[..|flows| - 1], id)
  }

  /** The index of the first flow with an ID, or the length of the list. */
  function FirstIndexOf(flows: seq<Flow>, id: nat): (i: nat)
    ensures i <= |flows|
    ensures i < |flows| ==> flows[i].id == id
    ensures forall k | 0 <= k < i :: flows[k].id != id
  {
    if flows == [] then 0 else if flows[0].id == id then 0 else 1 + FirstIndexOf(flows[1..], id)
  }

  function Toggled(flows: seq<Flow>, id: nat): seq<Flow> {
    var i := FirstIndexOf(flows, id);
    if i < |flows| then flows[i := flows[i].(active := !flows[i].active)] else flows
  }

  function CountActive(flows: seq<Flow>): nat {
    if flows == [] then 0 else CountActive(flows[..|flows| - 1]) + if flows[|flows| - 1].active then 1 else 0
  }

  /** The count is that of the places with an active flow. */
  lemma {:induction false} CountActiveIs(flows: seq<Flow>)
    ensures CountActive(flows) == |set k | 0 <= k < |flows| && flows[k].active|
  {
    if flows != [] {
      var n := |flows| - 1;
      CountActiveIs(flows[..n]);
      ActivePlacesMore(flows);
    }
  }

  lemma ActivePlacesMore(flows: seq<Flow>)
    requires flows != []
    ensures var n, places := |flows| - 1, set k | 0 <= k < |flows| && flows[k].active;
            var before := set k | 0 <= k < |flows[..n]| && flows[..n][k].active;
            places == before + (if flows[n].active then {n} else {}) && n !in before
  {
  }

  lemma {:induction false} CountActiveUpdate(flows: seq<Flow>, i: nat, f: Flow)
    requires i < |flows|
    ensures CountActive(flows[i := f]) + (if flows[i].active then 1 else 0)
         == CountActive(flows) + (if f.active then 1 else 0)
  {
    var n := |flows| - 1;
    if i < n {
      CountActiveUpdate(flows[..n], i, f);
      assert flows[i := f][..n] == flows[..n][i := f];
    } else {
      assert flows[i := f][..n] == flows[..n];
    }
  }

  /** Exchanging two flows keeps the count. */
  lemma CountActiveSwap(flows: seq<Flow>, i: nat, j: nat)
    requires i < |flows| && j < |flows| && i != j
    ensures CountActive(flows[i := flows[j]][j := flows[i]]) == CountActive(flows)
  {
    CountActiveUpdate(flows, i, flows[j]);
    CountActiveUpdate(flows[i := flows[j]], j, flows[i]);
  }

  /** IDs as init_flows should leave them: n flows with different IDs between 1 and n. */
  ghost predicate GoodIds(flows: seq<Flow>) {
    && (forall i | 0 <= i < |flows| :: 1 <= flows[i].id <= |flows|)
    && forall i, j | 0 <= i < j < |flows| :: flows[i].id != flows[j].id
  }

  function IdSet(flows: seq<Flow>): set<nat> {
    set i | 0 <= i < |flows| :: flows[i].id
  }

  function UpTo(n: nat): (s: set<nat>)
    ensures |s| == n && forall k :: k in s <==> 1 <= k <= n
  {
    if n == 0 then {} else UpTo(n - 1) + {n}
  }

  lemma IdSetMore(flows: seq<Flow>)
    requires flows != []
    ensures IdSet(flows) == IdSet(flows[..|flows| - 1]) + {flows[|flows| - 1].id}
  {
    var n := |flows| - 1;
    forall x | x in IdSet(flows)
      ensures x in IdSet(flows[..n]) + {flows[n].id}
    {
      var i :| 0 <= i < |flows| && flows[i].id == x;
      assert i < n ==> flows[..n][i].id == x;
    }
    forall x | x in IdSet(flows[..n])
      ensures x in IdSet(flows)
    {
      var i :| 0 <= i < n && flows[..n][i].id == x;
      assert flows[i].id == x;
    }
  }

  lemma {:induction false} DistinctIdsCount(flows: seq<Flow>)
    requires forall i, j | 0 <= i < j < |flows| :: flows[i].id != flows[j].id
    ensures |IdSet(flows)| == |flows|
  {
    if flows != [] {
      var n := |flows| - 1;
      DistinctIdsCount(flows[..n]);
      IdSetMore(flows);
      assert flows[n].id !in IdSet(flows[..n]);
      hide IdSet;
    }
  }

  lemma SubsetOfSameSize(a: set<nat>, b: set<nat>)
    requires a <= b && |a| == |b|
    ensures a == b
  {
    var rest := b - a;
    assert b == a + rest && |b| == |a| + |rest|;
  }

  /** Pigeonhole: n different IDs between 1 and n are all of them, so every requested flow is found. */
  lemma EveryIdIsPresent(flows: seq<Flow>, id: nat)
    requires GoodIds(flows) && 1 <= id <= |flows|
    ensures FirstIndexOf(flows, id) < |flows|
    ensures LastIndexOf(flows, id) == FirstIndexOf(flows, id)
  {
    DistinctIdsCount(flows);
    forall x | x in IdSet(flows)
      ensures x in UpTo(|flows|)
    {
      var i :| 0 <= i < |flows| && flows[i].id == x;
      assert 1 <= flows[i].id <= |flows|;
    }
    SubsetOfSameSize(IdSet(flows), UpTo(|flows|));
    assert id in IdSet(flows);
    var i :| 0 <= i < |flows| && flows[i].id == id;
    LastIndexFinds(flows, id, i);
  }

  lemma {:induction false} LastIndexFinds(flows: seq<Flow>, id: nat, i: nat)
    requires i < |flows| && flows[i].id == id
    requires forall j | 0 <= j < |flows| && j != i :: flows[j].id != id
    ensures LastIndexOf(flows, id) == i
  {
    var n := |flows| - 1;
    if i < n {
      assert flows[n].id != id;
      LastIndexFinds(flows[..n], id, i);
    }
  }

  // ----- Commands from the ground -----

  /** What a cycle leaves behind: a new list, a failed assertion, or a write past the end of a field list or of the
      snapshot. */
  datatype Result = Done(flows: seq<Flow>) | AssertionFailed | OutOfBounds

  function ShiftResult(flows: seq<Flow>, id1: nat, id2: nat): Result {
    if id1 > |flows| || id2 > |flows| then AssertionFailed
    else if flows == [] then Done(flows)
    else
      var i, j := LastIndexOf(flows, id1), LastIndexOf(flows, id2);
      if SameLengths(flows, i, j) then Done(MoveTo(flows, i, j)) else OutOfBounds
  }

  function ToggleResult(flows: seq<Flow>, id: nat): Result {
    if id > |flows| then AssertionFailed else Done(Toggled(flows, id))
  }

  /** The command fields of one control cycle; zero stands for no command. */
  datatype Command = Command(shiftId1: nat, shiftId2: nat, toggleId: nat)

  function Obey(flows: seq<Flow>, c: Command): Result {
    var shifted := if c.shiftId1 > 0 && c.shiftId2 > 0 then ShiftResult(flows, c.shiftId1, c.shiftId2) else Done(flows);
    if !shifted.Done? then shifted
    else if c.toggleId > 0 then ToggleResult(shifted.flows, c.toggleId) else shifted
  }

  function Run(flows: seq<Flow>, commands: seq<Command>): Result
    decreases |commands|
  {
    if commands == [] then Done(flows)
    else
      var first := Obey(flows, commands[0]);
      if first.Done? then Run(first.flows, commands[1..]) else first
  }

  // ----- What the commands do, by ID -----

  /** The flow with one ID moves to the place of the flow with another; those in between move over by one towards the place it
      left, all others stay. It works when all of these have equally many fields. */
  lemma ShiftById(flows: seq<Flow>, i: nat, j: nat)
    requires GoodIds(flows) && i < |flows| && j < |flows|
    ensures var r := ShiftResult(flows, flows[i].id, flows[j].id);
            && (r.Done? <==> forall k | 0 <= k < |flows| && (i <= k <= j || j <= k <= i) ::
                               |flows[k].fields| == |flows[i].fields|)
            && (!r.Done? ==> r == OutOfBounds)
            && (r.Done? ==>
                  && |r.flows| == |flows| && r.flows[j] == flows[i]
                  && (forall k | i < k <= j :: r.flows[k - 1] == flows[k])
                  && (forall k | j <= k < i :: r.flows[k + 1] == flows[k])
                  && forall k | 0 <= k < |flows| && !(i <= k <= j) && !(j <= k <= i) :: r.flows[k] == flows[k])
  {
    hide *;
    ShiftIsMove(flows, i, j);
    MovePlaces(flows, i, j);
  }

  lemma MovePlaces<T>(s: seq<T>, i: nat, j: nat)
    requires i < |s| && j < |s|
    ensures var r := MoveTo(s, i, j);
            && |r| == |s| && r[j] == s[i]
            && (forall k | i < k <= j :: r[k - 1] == s[k]) && (forall k | j <= k < i :: r[k + 1] == s[k])
            && forall k | 0 <= k < |s| && !(i <= k <= j) && !(j <= k <= i) :: r[k] == s[k]
  {
    hide *;
    forall k | i < k <= j
      ensures MoveTo(s, i, j)[k - 1] == s[k]
    {
      MoveToAt(s, i, j, k - 1);
    }
    forall k | j <= k < i
      ensures MoveTo(s, i, j)[k + 1] == s[k]
    {
      MoveToAt(s, i, j, k + 1);
    }
    forall k | 0 <= k < |s| && !(i <= k <= j) && !(j <= k <= i)
      ensures MoveTo(s, i, j)[k] == s[k]
    {
      MoveToAt(s, i, j, k);
    }
    MoveToAt(s, i, j, j);
  }

  lemma ShiftIsMove(flows: seq<Flow>, i: nat, j: nat)
    requires GoodIds(flows) && i < |flows| && j < |flows|
    ensures var r := ShiftResult(flows, flows[i].id, flows[j].id);
            && (r.Done? <==> forall k | 0 <= k < |flows| && (i <= k <= j || j <= k <= i) ::
                               |flows[k].fields| == |flows[i].fields|)
            && r == if r.Done? then Done(MoveTo(flows, i, j)) else OutOfBounds
  {
    hide MoveTo, LastIndexOf;
    LastIndexFinds(flows, flows[i].id, i);
    LastIndexFinds(flows, flows[j].id, j);
  }

  /** A shift with an ID beyond the number of flows fails an assertion. */
  lemma ShiftFailsIff(flows: seq<Flow>, id1: nat, id2: nat)
    ensures ShiftResult(flows, id1, id2) == AssertionFailed <==> id1 > |flows| || id2 > |flows|
  {
  }

  /** The flow with the ID, and no other, goes from active to inactive or back; an ID beyond the number of flows fails an
      assertion. */
  lemma ToggleById(flows: seq<Flow>, id: nat)
    requires GoodIds(flows)
    ensures ToggleResult(flows, id) == AssertionFailed <==> id > |flows|
    ensures id <= |flows| ==>
              var r := ToggleResult(flows, id);
              && r.Done? && |r.flows| == |flows|
              && forall k | 0 <= k < |flows| ::
                   r.flows[k] == if flows[k].id == id then flows[k].(active := !flows[k].active) else flows[k]
  {
    var i := FirstIndexOf(flows, id);
    hide FirstIndexOf;
    assert i < |flows| ==> forall k | 0 <= k < |flows| && k != i :: flows[k].id != id;
  }

  /** A flow after a toggle command for some ID, or none. */
  function Flipped(f: Flow, id: nat): (g: Flow)
    ensures g == if id > 0 && f.id == id then f.(active := !f.active) else f
  {
    if id > 0 && f.id == id then f.(active := !f.active) else f
  }

  /** What a control cycle's commands do: the shift, if both its IDs are given, and then the toggle, if its ID is. */
  lemma ObeyById(flows: seq<Flow>, c: Command, i: nat, j: nat)
    requires GoodIds(flows) && Obey(flows, c).Done? && i < |flows| && j < |flows|
    ensures |Obey(flows, c).flows| == |flows|
    ensures var after := Obey(flows, c).flows;
            if c.shiftId1 > 0 && c.shiftId2 > 0 then
              c.shiftId1 == flows[i].id && c.shiftId2 == flows[j].id ==>
                && after[j] == Flipped(flows[i], c.toggleId)
                && (forall k | i < k <= j :: after[k - 1] == Flipped(flows[k], c.toggleId))
                && (forall k | j <= k < i :: after[k + 1] == Flipped(flows[k], c.toggleId))
                && forall k | 0 <= k < |flows| && !(i <= k <= j) && !(j <= k <= i) ::
                     after[k] == Flipped(flows[k], c.toggleId)
            else forall k | 0 <= k < |flows| :: after[k] == Flipped(flows[k], c.toggleId)
  {
    var r := Obey(flows, c);
    var shifted := ObeyShift(flows, c);
    hide *;
    if c.shiftId1 > 0 && c.shiftId2 > 0 && c.shiftId1 == flows[i].id && c.shiftId2 == flows[j].id {
      ShiftById(flows, i, j);
    }
  }

  /** The list between shift and toggle. */
  lemma ObeyShift(flows: seq<Flow>, c: Command) returns (shifted: seq<Flow>)
    requires GoodIds(flows) && Obey(flows, c).Done?
    ensures |shifted| == |flows| == |Obey(flows, c).flows|
    ensures if c.shiftId1 > 0 && c.shiftId2 > 0 then ShiftResult(flows, c.shiftId1, c.shiftId2) == Done(shifted)
            else shifted == flows
    ensures forall k | 0 <= k < |flows| :: Obey(flows, c).flows[k] == Flipped(shifted[k], c.toggleId)
  {
    shifted := flows;
    if c.shiftId1 > 0 && c.shiftId2 > 0 {
      ShiftKeepsIds(flows, c.shiftId1, c.shiftId2);
      shifted := ShiftResult(flows, c.shiftId1, c.shiftId2).flows;
    }
    hide ShiftResult, ToggleResult, GoodIds;
    ToggleById(shifted, c.toggleId);
    NoZeroId(flows, shifted);
  }

  /** How a control cycle's commands fail: the shift before the toggle; an assertion for an ID beyond the number of flows, a
      write out of bounds for field lists of different lengths. */
  lemma ObeyFails(flows: seq<Flow>, c: Command, i: nat, j: nat)
    requires GoodIds(flows) && i < |flows| && j < |flows|
    ensures var shift := c.shiftId1 > 0 && c.shiftId2 > 0;
            var equal := forall k | 0 <= k < |flows| && (i <= k <= j || j <= k <= i) ::
                           |flows[k].fields| == |flows[i].fields|;
            var toggled := if c.toggleId > |flows| then Obey(flows, c) == AssertionFailed else Obey(flows, c).Done?;
            if shift && (c.shiftId1 > |flows| || c.shiftId2 > |flows|) then Obey(flows, c) == AssertionFailed
            else if shift then
              c.shiftId1 == flows[i].id && c.shiftId2 == flows[j].id ==>
                if equal then toggled else Obey(flows, c) == OutOfBounds
            else toggled
  {
    hide GoodIds, MoveTo, LastIndexOf, SameLengths, Toggled;
    ShiftIsMove(flows, i, j);
  }

  /** With a repeated ID the order shows: the shift takes the last flow with it to the front, and the toggle finds that one. */
  lemma ShiftComesFirst(a: Flow, b: Flow, c: Flow)
    requires a.id == 2 && b.id == 1 && c.id == 1 && |a.fields| == |b.fields| == |c.fields|
    ensures Obey([a, b, c], Command(1, 2, 1)) == Done([c.(active := !c.active), a, b])
  {
    var flows := [a, b, c];
    assert LastIndexOf(flows, 1) == 2;
    assert LastIndexOf(flows, 2) == 0;
    assert RemoveAt(flows, 2) == [a, b];
    assert MoveTo(flows, 2, 0) == [c, a, b];
    assert FirstIndexOf([c, a, b], 1) == 0;
  }

  /** One flow moved to the place of another, those in between over by one; and the flow with some ID toggled. */
  predicate MovedOver(before: seq<Flow>, after: seq<Flow>, i: nat, j: nat, toggle: nat)
    requires i < |before| == |after| && j < |before|
  {
    && after[j] == Flipped(before[i], toggle)
    && (forall k | i < k <= j :: after[k - 1] == Flipped(before[k], toggle))
    && (forall k | j <= k < i :: after[k + 1] == Flipped(before[k], toggle))
    && forall k | 0 <= k < |before| && !(i <= k <= j) && !(j <= k <= i) :: after[k] == Flipped(before[k], toggle)
  }

  ghost predicate MovedById(before: seq<Flow>, after: seq<Flow>, id1: nat, id2: nat, toggle: nat) {
    && |after| == |before|
    && forall i, j | 0 <= i < |before| && 0 <= j < |before| && before[i].id == id1 && before[j].id == id2 ::
         MovedOver(before, after, i, j, toggle)
  }

  predicate ToggledById(before: seq<Flow>, after: seq<Flow>, toggle: nat) {
    |after| == |before| && forall k | 0 <= k < |before| :: after[k] == Flipped(before[k], toggle)
  }

  lemma ShiftIsById(flows: seq<Flow>, id1: nat, id2: nat)
    ensures GoodIds(flows) && ShiftResult(flows, id1, id2).Done? ==>
              MovedById(flows, ShiftResult(flows, id1, id2).flows, id1, id2, 0)
  {
    hide ShiftResult, GoodIds;
    if GoodIds(flows) && ShiftResult(flows, id1, id2).Done? {
      ShiftKeepsIds(flows, id1, id2);
      forall i, j | 0 <= i < |flows| && 0 <= j < |flows| && flows[i].id == id1 && flows[j].id == id2
        ensures MovedOver(flows, ShiftResult(flows, id1, id2).flows, i, j, 0)
      {
        ShiftById(flows, i, j);
      }
    }
  }

  lemma ToggleIsById(flows: seq<Flow>, id: nat)
    ensures GoodIds(flows) && 0 < id && ToggleResult(flows, id).Done? ==>
              ToggledById(flows, ToggleResult(flows, id).flows, id)
  {
    hide ToggleResult, GoodIds;
    if GoodIds(flows) && 0 < id {
      ToggleById(flows, id);
    }
  }

  lemma ObeyIsById(flows: seq<Flow>, c: Command)
    ensures GoodIds(flows) && Obey(flows, c).Done? ==>
              if c.shiftId1 > 0 && c.shiftId2 > 0 then
                MovedById(flows, Obey(flows, c).flows, c.shiftId1, c.shiftId2, c.toggleId)
              else ToggledById(flows, Obey(flows, c).flows, c.toggleId)
  {
    hide Obey, GoodIds;
    if GoodIds(flows) && Obey(flows, c).Done? {
      var shifted := ObeyShift(flows, c);
      if c.shiftId1 > 0 && c.shiftId2 > 0 {
        forall i, j | 0 <= i < |flows| && 0 <= j < |flows| && flows[i].id == c.shiftId1 && flows[j].id == c.shiftId2
          ensures MovedOver(flows, Obey(flows, c).flows, i, j, c.toggleId)
        {
          ObeyById(flows, c, i, j);
        }
      }
    }
  }

  lemma ShiftKeepsIds(flows: seq<Flow>, id1: nat, id2: nat)
    requires GoodIds(flows) && ShiftResult(flows, id1, id2).Done?
    ensures GoodIds(ShiftResult(flows, id1, id2).flows) && |ShiftResult(flows, id1, id2).flows| == |flows|
  {
    if flows != [] {
      hide GoodIds, MoveTo;
      MoveToKeepsIds(flows, LastIndexOf(flows, id1), LastIndexOf(flows, id2));
    }
  }

  lemma NoZeroId(flows: seq<Flow>, shifted: seq<Flow>)
    requires GoodIds(flows) && GoodIds(shifted)
    ensures forall k | 0 <= k < |flows| :: flows[k].id > 0
    ensures forall k | 0 <= k < |shifted| :: shifted[k].id > 0
  {
  }

  /** The flows without their activity. */
  function Stripped(flows: seq<Flow>): (r: seq<Flow>)
    ensures |r| == |flows|
  {
    seq(|flows|, k requires 0 <= k < |flows| => flows[k].(active := false))
  }

  /** The index an element of MoveTo(s, i, j) had before. */
  function Source(i: nat, j: nat, k: nat): int {
    if k == j then i else if i <= k < j then k + 1 else if j < k <= i then k - 1 else k
  }

  lemma MoveToKeepsIds(flows: seq<Flow>, i: nat, j: nat)
    requires i < |flows| && j < |flows| && GoodIds(flows)
    ensures GoodIds(MoveTo(flows, i, j))
  {
    hide MoveTo;
    var r := MoveTo(flows, i, j);
    forall k | 0 <= k < |r|
      ensures r[k] == flows[Source(i, j, k)]
    {
      MoveToAt(flows, i, j, k);
    }
    forall a, b | 0 <= a < b < |r|
      ensures r[a].id != r[b].id
    {
      var x, y := Source(i, j, a), Source(i, j, b);
      assert x != y;
      assert r[a] == flows[x] && r[b] == flows[y];
    }
  }

  lemma MoveToKeepsFlows(flows: seq<Flow>, i: nat, j: nat)
    requires i < |flows| && j < |flows|
    ensures multiset(Stripped(MoveTo(flows, i, j))) == multiset(Stripped(flows))
  {
    var r, s := MoveTo(flows, i, j), MoveTo(Stripped(flows), i, j);
    forall k | 0 <= k < |r|
      ensures Stripped(r)[k] == s[k]
    {
      MoveToAt(flows, i, j, k);
      MoveToAt(Stripped(flows), i, j, k);
    }
    assert Stripped(r) == s;
    MoveToMultiset(Stripped(flows), i, j);
  }

  lemma ToggledKeepsFlows(flows: seq<Flow>, id: nat)
    requires GoodIds(flows)
    ensures GoodIds(Toggled(flows, id)) && Stripped(Toggled(flows, id)) == Stripped(flows)
  {
  }

  lemma ObeyKeepsFlows(flows: seq<Flow>, c: Command)
    requires GoodIds(flows) && Obey(flows, c).Done?
    ensures GoodIds(Obey(flows, c).flows)
    ensures multiset(Stripped(Obey(flows, c).flows)) == multiset(Stripped(flows))
  {
    hide MoveTo, Toggled, Stripped, GoodIds;
    var shifted := flows;
    if c.shiftId1 > 0 && c.shiftId2 > 0 && flows != [] {
      var i, j := LastIndexOf(flows, c.shiftId1), LastIndexOf(flows, c.shiftId2);
      MoveToKeepsIds(flows, i, j);
      MoveToKeepsFlows(flows, i, j);
      shifted := MoveTo(flows, i, j);
    }
    ToggledKeepsFlows(shifted, c.toggleId);
  }

  /** Any run of shifts and toggles keeps the flows, up to order and activity, and their IDs good. */
  lemma {:induction false} RunKeepsFlows(flows: seq<Flow>, commands: seq<Command>)
    requires GoodIds(flows) && Run(flows, commands).Done?
    ensures GoodIds(Run(flows, commands).flows)
    ensures multiset(Stripped(Run(flows, commands).flows)) == multiset(Stripped(flows))
    decreases |commands|
  {
    if commands != [] {
      ObeyKeepsFlows(flows, commands[0]);
      RunKeepsFlows(Obey(flows, commands[0]).flows, commands[1..]);
    }
  }

  ghost predicate EqualLists(flows: seq<Flow>, m: nat) {
    forall i | 0 <= i < |flows| :: |flows[i].fields| == m
  }

  /** Commands that name existing flows never fail as long as all flows have equally many fields. */
  lemma {:induction false} RunSucceeds(flows: seq<Flow>, commands: seq<Command>, m: nat)
    requires EqualLists(flows, m)
    requires forall c | c in commands :: c.shiftId1 <= |flows| && c.shiftId2 <= |flows| && c.toggleId <= |flows|
    ensures Run(flows, commands).Done?
    decreases |commands|
  {
    if commands != [] {
      var c := commands[0];
      assert c in commands;
      var i, j := LastIndexOf(flows, c.shiftId1), LastIndexOf(flows, c.shiftId2);
      if flows != [] {
        assert EqualLists(MoveTo(flows, i, j), m) by {
          forall k | 0 <= k < |flows|
            ensures |MoveTo(flows, i, j)[k].fields| == m
          {
            MoveToAt(flows, i, j, k);
          }
        }
      }
      RunSucceeds(Obey(flows, c).flows, commands[1..], m);
    }
  }

  ghost predicate AllEquallyLong(flows: seq<Flow>) {
    forall i, j | 0 <= i < |flows| && 0 <= j < |flows| :: |flows[i].fields| == |flows[j].fields|
  }

  /** The commands name IDs of flows, or none. */
  ghost predicate Existing(flows: seq<Flow>, commands: seq<Command>) {
    forall c | c in commands :: c.shiftId1 <= |flows| && c.shiftId2 <= |flows| && c.toggleId <= |flows|
  }

  /** With good IDs, commands that name existing flows are safe whatever they are exactly when all flows have equally many
      fields: any two flows that do not can be shifted into each other's way. */
  lemma RunSucceedsIff(flows: seq<Flow>)
    requires GoodIds(flows)
    ensures (forall commands | Existing(flows, commands) :: Run(flows, commands).Done?) <==> AllEquallyLong(flows)
  {
    if AllEquallyLong(flows) {
      forall commands | Existing(flows, commands)
        ensures Run(flows, commands).Done?
      {
        RunSucceeds(flows, commands, if flows == [] then 0 else |flows[0].fields|);
      }
    } else {
      var i, j :| 0 <= i < |flows| && 0 <= j < |flows| && |flows[i].fields| != |flows[j].fields|;
      var c := Command(flows[i].id, flows[j].id, 0);
      ShiftFails(flows, i, j);
      assert Existing(flows, [c]);
      assert !Run(flows, [c]).Done?;
    }
  }

  lemma ShiftFails(flows: seq<Flow>, i: nat, j: nat)
    requires GoodIds(flows) && i < |flows| && j < |flows| && |flows[i].fields| != |flows[j].fields|
    ensures Obey(flows, Command(flows[i].id, flows[j].id, 0)) == OutOfBounds
  {
    LastIndexFinds(flows, flows[i].id, i);
    LastIndexFinds(flows, flows[j].id, j);
    assert !SameLengths(flows, i, j);
  }

  /** Two flows whose field lists differ in length cannot be exchanged. */
  lemma ShiftFailsExample(a: Flow, b: Flow)
    requires a.id == 1 && b.id == 2 && |a.fields| == 1 && |b.fields| == 2
    ensures ShiftResult([a, b], 1, 2) == OutOfBounds
  {
    var flows := [a, b];
    LastIndexFinds(flows, 1, 0);
    LastIndexFinds(flows, 2, 1);
    assert |flows[1].fields| != |flows[0].fields|;
  }

  // ----- The swapping loops -----

  lemma MoveToStart<T>(s: seq<T>, i: nat)
    requires i < |s|
    ensures MoveTo(s, i, i) == s
  {
  }

  /** One step of the swapping loops: it works exactly when the two field lists are equally long. */
  lemma NextSwap(before: seq<Flow>, idx: nat, i: nat, next: nat)
    requires idx < |before| && i < |before| && next < |before| && SameLengths(before, idx, i)
    requires (idx <= i && next == i + 1) || (i <= idx && next == i - 1)
    ensures var flows := MoveTo(before, idx, i);
            if |before[next].fields| == |before[idx].fields| then
              && Swap(flows[i], flows[next]) == Some((flows[next], flows[i]))
              && MoveTo(before, idx, next) == flows[i := flows[next]][next := flows[i]]
              && SameLengths(before, idx, next)
            else Swap(flows[i], flows[next]) == None
  {
    hide MoveTo, Swap;
    var flows := MoveTo(before, idx, i);
    MoveToAt(before, idx, i, i);
    MoveToAt(before, idx, i, next);
    SwapExchangesIff(flows[i], flows[next]);
    MoveToStep(before, idx, i, next);
  }

  lemma FirstIndexUnique(flows: seq<Flow>, id: nat, idx: nat)
    requires idx <= |flows| && (idx < |flows| ==> flows[idx].id == id)
    requires forall k | 0 <= k < idx :: flows[k].id != id
    ensures FirstIndexOf(flows, id) == idx
  {
    var k := FirstIndexOf(flows, id);
    assert k >= idx && idx >= k;
  }

  /** Exchanging the moved element with its next neighbour moves it one place further. */
  lemma MoveToStep<T>(s: seq<T>, i: nat, k: nat, next: nat)
    requires i < |s| && k < |s| && next < |s|
    requires (i <= k && next == k + 1) || (k <= i && next == k - 1)
    ensures var r := MoveTo(s, i, k); MoveTo(s, i, next) == r[k := r[next]][next := r[k]]
  {
    var r, r' := MoveTo(s, i, k), MoveTo(s, i, next);
    forall m | 0 <= m < |s|
      ensures r'[m] == r[k := r[next]][next := r[k]][m]
    {
      MoveToAt(s, i, k, m);
      MoveToAt(s, i, next, m);
      MoveToAt(s, i, k, k);
      MoveToAt(s, i, k, next);
    }
  }

  /** Payload bits of the flows that count: the active ones, or all of them. */
  function TotalSize(t: Telemetry, flows: seq<Flow>, all: bool): nat {
    if flows == [] then 0
    else (if flows[0].active || all then t.PacketSize(flows[0]) else 0) + TotalSize(t, flows[1..], all)
  }

  lemma {:induction false} TotalSizeIsPayload(t: Telemetry, flows: seq<Flow>)
    ensures TotalSize(t, flows, false) == |t.ActiveBits(flows)| <= TotalSize(t, flows, true)
  {
    if flows != [] {
      TotalSizeIsPayload(t, flows[1..]);
    }
  }

  lemma {:induction false} TotalSizeConcat(t: Telemetry, a: seq<Flow>, b: seq<Flow>)
    ensures TotalSize(t, a + b, true) == TotalSize(t, a, true) + TotalSize(t, b, true)
  {
    if a == [] {
      assert a + b == b;
    } else {
      TotalSizeConcat(t, a[1..], b);
      assert (a + b)[1..] == a[1..] + b;
    }
  }

  lemma MoveToKeepsTotal(t: Telemetry, flows: seq<Flow>, i: nat, j: nat)
    requires i < |flows| && j < |flows|
    ensures TotalSize(t, MoveTo(flows, i, j), true) == TotalSize(t, flows, true)
  {
    hide TotalSize;
    var r, x := RemoveAt(flows, i), [flows[i]];
    TotalSizeConcat(t, flows[..i], x + flows[i + 1..]);
    TotalSizeConcat(t, x, flows[i + 1..]);
    TotalSizeConcat(t, flows[..i], flows[i + 1..]);
    TotalSizeConcat(t, r[..j], x + r[j..]);
    TotalSizeConcat(t, x, r[j..]);
    TotalSizeConcat(t, r[..j], r[j..]);
    assert flows == flows[..i] + (x + flows[i + 1..]) && r == r[..j] + r[j..];
    assert MoveTo(flows, i, j) == r[..j] + (x + r[j..]);
  }

  lemma ReplacedKeepsTotal(t: Telemetry, flows: seq<Flow>, i: nat, f: Flow)
    requires i < |flows| && t.PacketSize(f) == t.PacketSize(flows[i])
    ensures TotalSize(t, flows[i := f], true) == TotalSize(t, flows, true)
  {
    OneFlow(t, flows[i]);
    OneFlow(t, f);
    hide TotalSize;
    var rest := flows[i + 1..];
    TotalSizeConcat(t, flows[..i], [flows[i]] + rest);
    TotalSizeConcat(t, flows[..i], [f] + rest);
    TotalSizeConcat(t, [flows[i]], rest);
    TotalSizeConcat(t, [f], rest);
    assert flows == flows[..i] + ([flows[i]] + rest) && flows[i := f] == flows[..i] + ([f] + rest);
  }

  lemma OneFlow(t: Telemetry, f: Flow)
    ensures TotalSize(t, [f], true) == t.PacketSize(f)
  {
    assert [f][1..] == [];
  }

  lemma ToggledKeepsTotal(t: Telemetry, flows: seq<Flow>, id: nat)
    ensures TotalSize(t, Toggled(flows, id), true) == TotalSize(t, flows, true)
  {
    var i := FirstIndexOf(flows, id);
    if i < |flows| {
      ReplacedKeepsTotal(t, flows, i, flows[i].(active := !flows[i].active));
    }
  }

  lemma {:induction false} RunKeepsTotal(t: Telemetry, flows: seq<Flow>, commands: seq<Command>)
    requires Run(flows, commands).Done?
    ensures TotalSize(t, Run(flows, commands).flows, true) == TotalSize(t, flows, true)
    decreases |commands|
  {
    hide TotalSize, MoveTo, Toggled;
    if commands != [] {
      var c := commands[0];
      var shifted := flows;
      if c.shiftId1 > 0 && c.shiftId2 > 0 && flows != [] {
        var i, j := LastIndexOf(flows, c.shiftId1), LastIndexOf(flows, c.shiftId2);
        MoveToKeepsTotal(t, flows, i, j);
        shifted := MoveTo(flows, i, j);
      }
      ToggledKeepsTotal(t, shifted, c.toggleId);
      RunKeepsTotal(t, Obey(flows, c).flows, commands[1..]);
    }
  }
}
