/** Faults with persistence (src/common/Fault.cpp, src/common/Fault.hpp): the counter of consecutive signals, tied to the
    whole history of calls and ground commands. */
module Faults {

  /** What can happen to a fault, in the order it happens. Signal carries the control cycle count. */
  datatype Op = Signal(cc: nat) | Unsignal | IsFaulted
              | SetOverride(b: bool) | SetSuppress(b: bool) | SetUnsignal(b: bool) | SetPersistence(n: nat)

  /** The fields of a fault. */
  datatype State = State(faulted: bool, lastFaultTime: nat, numConsecutiveSignals: nat, prevSuppress: bool, prevOverride: bool,
                         suppress: bool, override: bool, unsignal: bool, persistence: nat)

  function Initial(persistence: nat): State {
    State(false, 0, 0, false, false, false, false, false, persistence)
  }

  /** process_commands. */
  function ProcessCommands(s: State): State {
    var reset := (!s.prevOverride && s.override) || (!s.prevSuppress && s.suppress) || s.unsignal;
    s.(prevOverride := s.override, prevSuppress := s.suppress, unsignal := false,
       numConsecutiveSignals := if reset then 0 else s.numConsecutiveSignals)
  }

  function Apply(s: State, op: Op): State {
    match op
    case Signal(cc) =>
      var counted := if cc > s.lastFaultTime || cc == 0
                     then s.(numConsecutiveSignals := s.numConsecutiveSignals + 1, lastFaultTime := cc) else s;
      counted.(faulted := counted.numConsecutiveSignals > s.persistence)
    case Unsignal => s.(numConsecutiveSignals := 0)
    case IsFaulted =>
      var p := ProcessCommands(s);
      p.(faulted := p.numConsecutiveSignals > p.persistence)
    case SetOverride(b) => s.(override := b)
    case SetSuppress(b) => s.(suppress := b)
    case SetUnsignal(b) => s.(unsignal := b)
    case SetPersistence(n) => s.(persistence := n)
  }

  function Run(persistence: nat, ops: seq<Op>): State {
    if ops == [] then Initial(persistence) else Apply(Run(persistence, ops[..|ops| - 1]), ops[|ops| - 1])
  }

  // ----- The same, read off the history -----

  /** The last value written to the override field, and the value the last is_faulted saw; likewise below. */
  function Override(ops: seq<Op>): bool {
    if ops == [] then false
    else match ops[|ops| - 1] case SetOverride(b) => b case _ => Override(ops[..|ops| - 1])
  }

  function SeenOverride(ops: seq<Op>): bool {
    if ops == [] then false
    else if ops[|ops| - 1].IsFaulted? then Override(ops) else SeenOverride(ops[..|ops| - 1])
  }

  function Suppress(ops: seq<Op>): bool {
    if ops == [] then false
    else match ops[|ops| - 1] case SetSuppress(b) => b case _ => Suppress(ops[..|ops| - 1])
  }

  function SeenSuppress(ops: seq<Op>): bool {
    if ops == [] then false
    else if ops[|ops| - 1].IsFaulted? then Suppress(ops) else SeenSuppress(ops[..|ops| - 1])
  }

  /** A ground unsignal is pending: written and not yet seen by is_faulted. */
  function PendingUnsignal(ops: seq<Op>): bool {
    if ops == [] then false
    else match ops[|ops| - 1]
      case SetUnsignal(b) => b
      case IsFaulted => false
      case _ => PendingUnsignal(ops[..|ops| - 1])
  }

  function Persistence(persistence: nat, ops: seq<Op>): nat {
    if ops == [] then persistence
    else match ops[|ops| - 1] case SetPersistence(n) => n case _ => Persistence(persistence, ops[..|ops| - 1])
  }

  /** The last operation resets the counter: an unsignal, or an is_faulted that sees a rising edge of override or suppress
      or a ground unsignal. */
  predicate Resets(ops: seq<Op>)
    requires ops != []
  {
    var before := ops[..|ops| - 1];
    match ops[|ops| - 1]
    case Unsignal => true
    case IsFaulted =>
      (Override(before) && !SeenOverride(before)) || (Suppress(before) && !SeenSuppress(before)) || PendingUnsignal(before)
    case _ => false
  }

  /** The number of operations up to and including the latest reset. */
  function LastReset(ops: seq<Op>): (n: nat)
    ensures n <= |ops|
  {
    if ops == [] then 0 else if Resets(ops) then |ops| else LastReset(ops[..|ops| - 1])
  }

  /** Operation i is the first signal of its control cycle. */
  predicate FirstSignal(ops: seq<Op>, i: nat)
    requires i < |ops|
  {
    ops[i].Signal? && forall j | 0 <= j < i :: ops[j] != ops[i]
  }

  /** The cycles whose first signal is at some operation or later. */
  function CyclesFrom(ops: seq<Op>, from: nat): set<nat> {
    set i | from <= i < |ops| && FirstSignal(ops, i) :: ops[i].cc
  }

  /** The cycles whose first signal came after the latest reset. */
  function CountedCycles(ops: seq<Op>): set<nat> {
    CyclesFrom(ops, LastReset(ops))
  }

  /** The repeated signals of cycle zero since the latest reset. */
  function RepeatsInCycleZero(ops: seq<Op>): nat {
    if ops == [] || Resets(ops) then 0
    else RepeatsInCycleZero(ops[..|ops| - 1])
         + if ops[|ops| - 1] == Signal(0) && !FirstSignal(ops, |ops| - 1) then 1 else 0
  }

  /** Control cycle counts never go back. */
  ghost predicate CyclesAdvance(ops: seq<Op>) {
    forall i, j | 0 <= i < j < |ops| && ops[i].Signal? && ops[j].Signal? :: ops[i].cc <= ops[j].cc
  }

  ghost predicate CyclesPositive(ops: seq<Op>) {
    forall i | 0 <= i < |ops| && ops[i].Signal? :: ops[i].cc > 0
  }

  lemma RunMore(persistence: nat, ops: seq<Op>, op: Op)
    ensures Run(persistence, ops + [op]) == Apply(Run(persistence, ops), op)
  {
    hide Apply;
    var longer := ops + [op];
    assert longer[..|longer| - 1] == ops && longer[|longer| - 1] == op;
  }

  lemma RunLast(persistence: nat, ops: seq<Op>)
    requires ops != []
    ensures Run(persistence, ops) == Apply(Run(persistence, ops[..|ops| - 1]), ops[|ops| - 1])
  {
    hide Apply;
  }

  /** What one operation does to the fields the ground can write. */
  lemma ApplyToCommands(s: State, op: Op)
    ensures var t := Apply(s, op);
            && t.override == (if op.SetOverride? then op.b else s.override)
            && t.suppress == (if op.SetSuppress? then op.b else s.suppress)
            && t.prevOverride == (if op.IsFaulted? then s.override else s.prevOverride)
            && t.prevSuppress == (if op.IsFaulted? then s.suppress else s.prevSuppress)
            && t.unsignal == (if op.SetUnsignal? then op.b else s.unsignal && !op.IsFaulted?)
            && t.persistence == (if op.SetPersistence? then op.n else s.persistence)
  {
  }

  /** What one operation does to the counter and to the last fault time. */
  lemma ApplyToCounter(s: State, op: Op)
    ensures var t := Apply(s, op);
            var counts := op.Signal? && (op.cc > s.lastFaultTime || op.cc == 0);
            && t.lastFaultTime == (if counts then op.cc else s.lastFaultTime)
            && t.numConsecutiveSignals
               == if counts then s.numConsecutiveSignals + 1
                  else if op.Unsignal?
                          || (op.IsFaulted?
                              && ((s.override && !s.prevOverride) || (s.suppress && !s.prevSuppress) || s.unsignal)) then 0
                  else s.numConsecutiveSignals
  {
  }

  lemma {:induction false} OverrideFollowsHistory(persistence: nat, ops: seq<Op>)
    ensures Run(persistence, ops).override == Override(ops) && Run(persistence, ops).prevOverride == SeenOverride(ops)
  {
    if ops != [] {
      hide Run, Apply;
      OverrideFollowsHistory(persistence, ops[..|ops| - 1]);
      RunLast(persistence, ops);
      ApplyToCommands(Run(persistence, ops[..|ops| - 1]), ops[|ops| - 1]);
    }
  }

  lemma {:induction false} SuppressFollowsHistory(persistence: nat, ops: seq<Op>)
    ensures Run(persistence, ops).suppress == Suppress(ops) && Run(persistence, ops).prevSuppress == SeenSuppress(ops)
  {
    if ops != [] {
      hide Run, Apply;
      SuppressFollowsHistory(persistence, ops[..|ops| - 1]);
      RunLast(persistence, ops);
      ApplyToCommands(Run(persistence, ops[..|ops| - 1]), ops[|ops| - 1]);
    }
  }

  lemma {:induction false} UnsignalFollowsHistory(persistence: nat, ops: seq<Op>)
    ensures Run(persistence, ops).unsignal == PendingUnsignal(ops)
    ensures Run(persistence, ops).persistence == Persistence(persistence, ops)
  {
    if ops != [] {
      hide Run, Apply;
      UnsignalFollowsHistory(persistence, ops[..|ops| - 1]);
      RunLast(persistence, ops);
      ApplyToCommands(Run(persistence, ops[..|ops| - 1]), ops[|ops| - 1]);
    }
  }

  /** The fields of a fault are functions of its history. */
  lemma FieldsFollowHistory(persistence: nat, ops: seq<Op>)
    ensures var s := Run(persistence, ops);
            && s.override == Override(ops) && s.prevOverride == SeenOverride(ops)
            && s.suppress == Suppress(ops) && s.prevSuppress == SeenSuppress(ops)
            && s.unsignal == PendingUnsignal(ops) && s.persistence == Persistence(persistence, ops)
  {
    hide Run, Override, SeenOverride, Suppress, SeenSuppress, PendingUnsignal, Persistence;
    OverrideFollowsHistory(persistence, ops);
    SuppressFollowsHistory(persistence, ops);
    UnsignalFollowsHistory(persistence, ops);
  }

  /** The last fault time is the latest cycle that signalled. */
  lemma {:induction false} LastFaultTimeIsLatest(persistence: nat, ops: seq<Op>)
    requires CyclesAdvance(ops)
    ensures var t := Run(persistence, ops).lastFaultTime;
            && (forall i | 0 <= i < |ops| && ops[i].Signal? :: ops[i].cc <= t)
            && (t > 0 ==> Signal(t) in ops)
  {
    if ops != [] {
      hide Run, Apply;
      var before := ops[..|ops| - 1];
      LastFaultTimeIsLatest(persistence, before);
      RunLast(persistence, ops);
      ApplyToCounter(Run(persistence, before), ops[|ops| - 1]);
      assert forall i | 0 <= i < |before| :: before[i] == ops[i];
    }
  }

  /** The counter equals the number of control cycles whose first signal came after the latest reset, and, because cycle
      zero counts every call, the repeats in cycle zero. */
  lemma {:induction false} CounterFollowsHistory(persistence: nat, ops: seq<Op>)
    requires CyclesAdvance(ops)
    ensures Run(persistence, ops).numConsecutiveSignals == |CountedCycles(ops)| + RepeatsInCycleZero(ops)
  {
    if ops != [] {
      hide Run, Apply, CountedCycles, Override, Suppress, SeenOverride, SeenSuppress, PendingUnsignal, Persistence;
      var n := |ops| - 1;
      var before, op := ops[..n], ops[n];
      CounterFollowsHistory(persistence, before);
      FieldsFollowHistory(persistence, before);
      RunLast(persistence, ops);
      ApplyToCounter(Run(persistence, before), op);
      if Resets(ops) {
        NothingCounted(ops);
      } else {
        CountedCyclesStep(ops);
        if op.Signal? && op.cc > 0 {
          FirstSignalIsLater(persistence, ops);
        }
      }
    }
  }

  /** Over positive cycle counts the counter is a count of cycles; in general exactly when no signal of cycle zero has been
      repeated since the latest reset. */
  lemma CounterIsCountedCyclesIff(persistence: nat, ops: seq<Op>)
    requires CyclesAdvance(ops)
    ensures Run(persistence, ops).numConsecutiveSignals == |CountedCycles(ops)| <==> RepeatsInCycleZero(ops) == 0
    ensures CyclesPositive(ops) ==> RepeatsInCycleZero(ops) == 0
  {
    hide Run, CountedCycles, RepeatsInCycleZero;
    CounterFollowsHistory(persistence, ops);
    if CyclesPositive(ops) {
      NoRepeats(ops);
    }
  }

  lemma {:induction false} NoRepeats(ops: seq<Op>)
    requires CyclesPositive(ops)
    ensures RepeatsInCycleZero(ops) == 0
  {
    if ops != [] && !Resets(ops) {
      assert forall i | 0 <= i < |ops| - 1 :: ops[..|ops| - 1][i] == ops[i];
      NoRepeats(ops[..|ops| - 1]);
    }
  }

  lemma NothingCounted(ops: seq<Op>)
    requires ops != [] && Resets(ops)
    ensures CountedCycles(ops) == {}
  {
    assert LastReset(ops) == |ops|;
  }

  /** A signal is the first of its positive cycle exactly when its cycle is later than the last fault time. */
  lemma FirstSignalIsLater(persistence: nat, ops: seq<Op>)
    requires ops != [] && ops[|ops| - 1].Signal? && ops[|ops| - 1].cc > 0 && CyclesAdvance(ops)
    ensures var n := |ops| - 1;
            FirstSignal(ops, n) <==> ops[n].cc > Run(persistence, ops[..n]).lastFaultTime
  {
    var n := |ops| - 1;
    var before := ops[..n];
    assert CyclesAdvance(before);
    LastFaultTimeIsLatest(persistence, before);
    var t := Run(persistence, before).lastFaultTime;
    hide Run;
    if ops[n].cc > t {
      forall j | 0 <= j < n
        ensures ops[j] != ops[n]
      {
        assert before[j] == ops[j];
      }
    } else {
      var j :| 0 <= j < n && before[j] == Signal(t);
      assert ops[j] == Signal(t) && ops[j].cc <= ops[n].cc;
    }
  }

  lemma CyclesFromMore(ops: seq<Op>, from: nat)
    requires ops != [] && from < |ops|
    ensures var n := |ops| - 1;
            if FirstSignal(ops, n) then
              CyclesFrom(ops, from) == CyclesFrom(ops[..n], from) + {ops[n].cc} && ops[n].cc !in CyclesFrom(ops[..n], from)
            else CyclesFrom(ops, from) == CyclesFrom(ops[..n], from)
  {
    var n := |ops| - 1;
    var before := ops[..n];
    assert forall i | 0 <= i < n :: FirstSignal(ops, i) == FirstSignal(before, i);
    assert forall i | from <= i < n && FirstSignal(before, i) :: before[i].cc in CyclesFrom(ops, from) by {
      forall i | from <= i < n && FirstSignal(before, i)
        ensures before[i].cc in CyclesFrom(ops, from)
      {
        assert FirstSignal(ops, i) && ops[i].cc == before[i].cc;
      }
    }
    forall c | c in CyclesFrom(ops, from)
      ensures c in CyclesFrom(before, from) || (FirstSignal(ops, n) && c == ops[n].cc)
    {
      var i :| from <= i < |ops| && FirstSignal(ops, i) && ops[i].cc == c;
      assert i < n ==> FirstSignal(before, i) && before[i].cc == c;
    }
    if FirstSignal(ops, n) {
      NotBefore(ops, from);
    }
  }

  lemma NotBefore(ops: seq<Op>, from: nat)
    requires ops != [] && FirstSignal(ops, |ops| - 1)
    ensures ops[|ops| - 1].cc !in CyclesFrom(ops[..|ops| - 1], from)
  {
    var n := |ops| - 1;
    forall i | 0 <= i < n && ops[..n][i].Signal?
      ensures ops[..n][i].cc != ops[n].cc
    {
      assert ops[i] != ops[n];
    }
  }

  lemma CountedCyclesStep(ops: seq<Op>)
    requires ops != [] && !Resets(ops)
    ensures var n := |ops| - 1;
            if FirstSignal(ops, n) then
              CountedCycles(ops) == CountedCycles(ops[..n]) + {ops[n].cc} && ops[n].cc !in CountedCycles(ops[..n])
            else CountedCycles(ops) == CountedCycles(ops[..n])
  {
    assert LastReset(ops) == LastReset(ops[..|ops| - 1]);
    hide LastReset, Resets, CyclesFrom, FirstSignal;
    CyclesFromMore(ops, LastReset(ops));
  }

  /** The counter never exceeds the cycle count, so it cannot wrap before the cycle count does. */
  lemma {:induction false} CounterNeverExceedsTime(persistence: nat, ops: seq<Op>)
    requires CyclesAdvance(ops) && CyclesPositive(ops)
    ensures Run(persistence, ops).numConsecutiveSignals <= Run(persistence, ops).lastFaultTime
  {
    if ops != [] {
      hide Run, Apply;
      var before := ops[..|ops| - 1];
      assert forall i | 0 <= i < |before| :: before[i] == ops[i];
      CounterNeverExceedsTime(persistence, before);
      RunLast(persistence, ops);
      ApplyToCounter(Run(persistence, before), ops[|ops| - 1]);
    }
  }

  /** What is_faulted answers after a history: override, or else not suppressed and persistent. */
  function Answer(persistence: nat, ops: seq<Op>): bool {
    var asked := ops + [IsFaulted];
    Override(ops)
    || (!Suppress(ops) && |CountedCycles(asked)| + RepeatsInCycleZero(asked) > Persistence(persistence, ops))
  }

  /** Cycle zero is not a cycle: while the count is zero every call counts. */
  lemma CycleZeroCountsEveryCall(persistence: nat)
    ensures Run(persistence, [Signal(0), Signal(0)]).numConsecutiveSignals == 2
    ensures |CountedCycles([Signal(0), Signal(0)])| == 1
  {
    var ops := [Signal(0), Signal(0)];
    RunMore(persistence, [], Signal(0));
    RunMore(persistence, [Signal(0)], Signal(0));
    assert [] + [Signal(0)] == [Signal(0)] && [Signal(0)] + [Signal(0)] == ops;
    assert FirstSignal(ops, 0) && !FirstSignal(ops, 1);
    assert LastReset(ops) == 0;
    assert CountedCycles(ops) == {0};
  }

  class Fault {
    var faulted: bool
    var lastFaultTime: nat
    var numConsecutiveSignals: nat
    var prevSuppress: bool
    var prevOverride: bool
    var suppressF: bool
    var overrideF: bool
    var unsignalF: bool
    var persistenceF: nat
    ghost var initialPersistence: nat
    ghost var history: seq<Op>

    ghost predicate Valid()
      reads this
    {
      Run(initialPersistence, history)
      == State(faulted, lastFaultTime, numConsecutiveSignals, prevSuppress, prevOverride,
               suppressF, overrideF, unsignalF, persistenceF)
    }

    constructor (persistence: nat)
      ensures Valid() && history == [] && initialPersistence == persistence
      ensures !faulted && lastFaultTime == 0 && numConsecutiveSignals == 0 && persistenceF == persistence
      ensures !prevSuppress && !prevOverride && !suppressF && !overrideF && !unsignalF
    {
      faulted, lastFaultTime, numConsecutiveSignals := false, 0, 0;
      prevSuppress, prevOverride, suppressF, overrideF, unsignalF := false, false, false, false, false;
      persistenceF, initialPersistence, history := persistence, persistence, [];
    }

    method Signal(cc: nat)
      requires Valid()
      modifies this`faulted, this`lastFaultTime, this`numConsecutiveSignals, this`history
      ensures Valid() && history == old(history) + [Op.Signal(cc)]
      ensures if cc > old(lastFaultTime) || cc == 0 then
                numConsecutiveSignals == old(numConsecutiveSignals) + 1 && lastFaultTime == cc
              else numConsecutiveSignals == old(numConsecutiveSignals) && lastFaultTime == old(lastFaultTime)
      ensures faulted <==> numConsecutiveSignals > persistenceF
    {
      hide Run;
      RunMore(initialPersistence, history, Op.Signal(cc));
      if cc > lastFaultTime || cc == 0 {
        numConsecutiveSignals := numConsecutiveSignals + 1;
        lastFaultTime := cc;
      }
      faulted := numConsecutiveSignals > persistenceF;
      history := history + [Op.Signal(cc)];
    }

    method Unsignal()
      requires Valid()
      modifies this`numConsecutiveSignals, this`history
      ensures Valid() && history == old(history) + [Op.Unsignal] && numConsecutiveSignals == 0
    {
      hide Run;
      RunMore(initialPersistence, history, Op.Unsignal);
      numConsecutiveSignals := 0;
      history := history + [Op.Unsignal];
    }

    method Evaluate(flag: bool, cc: nat)
      requires Valid()
      modifies this`faulted, this`lastFaultTime, this`numConsecutiveSignals, this`history
      ensures Valid()
      ensures history == old(history) + [if flag then Op.Signal(cc) else Op.Unsignal]
    {
      if flag {
        Signal(cc);
      } else {
        Unsignal();
      }
    }

    /** A write of the ground to one of the fields. */
    method Command(op: Op)
      requires Valid() && (op.SetOverride? || op.SetSuppress? || op.SetUnsignal? || op.SetPersistence?)
      modifies this`overrideF, this`suppressF, this`unsignalF, this`persistenceF, this`history
      ensures Valid() && history == old(history) + [op]
      ensures overrideF == (if op.SetOverride? then op.b else old(overrideF))
      ensures suppressF == (if op.SetSuppress? then op.b else old(suppressF))
      ensures unsignalF == (if op.SetUnsignal? then op.b else old(unsignalF))
      ensures persistenceF == if op.SetPersistence? then op.n else old(persistenceF)
    {
      hide Run;
      RunMore(initialPersistence, history, op);
      match op {
        case SetOverride(b) => overrideF := b;
        case SetSuppress(b) => suppressF := b;
        case SetUnsignal(b) => unsignalF := b;
        case SetPersistence(n) => persistenceF := n;
      }
      history := history + [op];
    }

    /** process_commands: a rising edge of override or suppress, or an unsignal, resets the counter. */
    method ProcessCommands()
      modifies this`numConsecutiveSignals, this`prevOverride, this`prevSuppress, this`unsignalF
      ensures numConsecutiveSignals == if (overrideF && !old(prevOverride)) || (suppressF && !old(prevSuppress))
                                          || old(unsignalF) then 0 else old(numConsecutiveSignals)
      ensures prevOverride == overrideF && prevSuppress == suppressF && !unsignalF
    {
      if !prevOverride && overrideF {
        numConsecutiveSignals := 0;
      }
      if !prevSuppress && suppressF {
        numConsecutiveSignals := 0;
      }
      prevOverride, prevSuppress := overrideF, suppressF;
      if unsignalF {
        unsignalF := false;
        numConsecutiveSignals := 0;
      }
    }

    /** is_faulted: its answer depends on the history of calls and commands alone. */
    method IsFaulted() returns (r: bool)
      requires Valid()
      modifies this`faulted, this`numConsecutiveSignals, this`prevOverride, this`prevSuppress, this`unsignalF, this`history
      ensures Valid() && history == old(history) + [Op.IsFaulted]
      ensures numConsecutiveSignals == if (overrideF && !old(prevOverride)) || (suppressF && !old(prevSuppress))
                                          || old(unsignalF) then 0 else old(numConsecutiveSignals)
      ensures prevOverride == overrideF && prevSuppress == suppressF && !unsignalF
      ensures faulted <==> numConsecutiveSignals > persistenceF
      ensures r == if overrideF then true else if suppressF then false else faulted
      ensures CyclesAdvance(history) ==> r == Answer(initialPersistence, old(history))
    {
      hide Run, CyclesAdvance, CountedCycles, RepeatsInCycleZero, Override, Suppress, Persistence;
      ghost var before := history;
      FieldsFollowHistory(initialPersistence, before);
      RunMore(initialPersistence, before, Op.IsFaulted);
      ProcessCommands();
      faulted := numConsecutiveSignals > persistenceF;
      history := history + [Op.IsFaulted];
      if CyclesAdvance(history) {
        CounterFollowsHistory(initialPersistence, history);
      }
      if overrideF {
        r := true;
      } else if suppressF {
        r := false;
      } else {
        r := faulted;
      }
    }
  }
}
