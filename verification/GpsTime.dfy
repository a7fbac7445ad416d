/** GPS time as week, millisecond and nanosecond (src/common/GPSTime.hpp) and its mirror on the ground (ptest/gpstime.py). */
module GpsTimes {
  import opened Remainders

  const WEEK := 7 * 24 * 60 * 60 * 1_000_000_000
  const WEEK_MS := 7 * 24 * 60 * 60 * 1000
  const MS := 1_000_000
  const U64 := 0x1_0000_0000_0000_0000

  /** wn is an unsigned short, tow an unsigned int, ns an int. */
  datatype Time = Time(wn: nat, tow: nat, ns: int, isSet: bool)

  predicate Typed(x: Time) {
    x.wn < 0x1_0000 && x.tow < 0x1_0000_0000 && -0x8000_0000 <= x.ns < 0x8000_0000
  }

  /** Every part is in its own range. */
  predicate Normal(x: Time) {
    x.wn < 0x1_0000 && x.tow < WEEK_MS && 0 <= x.ns < MS
  }

  /** The nanoseconds a triple stands for. */
  function Count(x: Time): int {
    x.wn * WEEK + x.tow * MS + x.ns
  }

  // ----- The conversions and operators of the flight software -----

  function FromNs(t: nat): (x: Time)
    requires t < U64
    ensures Typed(x)
  {
    Parts(t);
    var wn := t / WEEK;
    Time(wn % 0x1_0000, (t - wn * WEEK) / MS % 0x1_0000_0000, (t - wn * WEEK) % MS, true)
  }

  /** A 64-bit count never overflows the week and millisecond fields. */
  lemma Parts(t: nat)
    requires t < U64
    ensures t / WEEK < 0x1_0000 && 0 <= t - t / WEEK * WEEK < WEEK
    ensures (t - t / WEEK * WEEK) / MS < WEEK_MS
  {
  }

  /** The cast to unsigned long long: a negative count and one past 64 bits wrap. */
  function ToNs(x: Time): (t: nat)
    ensures t < U64
  {
    Count(x) % U64
  }

  predicate EqualsNs(x: Time, t: nat) {
    x.isSet && ToNs(x) == t
  }

  predicate Equals(x: Time, y: Time) {
    y.isSet && EqualsNs(x, ToNs(y))
  }

  predicate LessNs(x: Time, t: nat) {
    x.isSet && ToNs(x) < t
  }

  predicate Less(x: Time, y: Time) {
    y.isSet && LessNs(x, ToNs(y))
  }

  predicate Greater(x: Time, y: Time) {
    !(Less(x, y) || Equals(x, y))
  }

  function Plus(x: Time, d: nat): Time {
    FromNs((ToNs(x) + d) % U64)
  }

  /** Subtracting more than a set time unsets it; an unset time is not compared and wraps instead. */
  function Minus(x: Time, d: nat): Time {
    if LessNs(x, d) then x.(isSet := false) else FromNs((ToNs(x) - d) % U64)
  }

  class GpsTime {
    var wn: nat
    var tow: nat
    var ns: int
    var isSet: bool

    /** The fields as a value. */
    function Value(): Time
      reads this
    {
      Time(wn, tow, ns, isSet)
    }

    constructor (x: Time)
      ensures Value() == x
    {
      wn, tow, ns, isSet := x.wn, x.tow, x.ns, x.isSet;
    }

    method Assign(x: Time)
      modifies this
      ensures Value() == x
    {
      wn, tow, ns, isSet := x.wn, x.tow, x.ns, x.isSet;
    }

    method PlusAssign(d: nat)
      requires d < U64
      modifies this
      ensures Value() == Plus(old(Value()), d)
      ensures isSet && Normal(Value()) && Count(Value()) == (ToNs(old(Value())) + d) % U64
    {
      CountSurvives((ToNs(Value()) + d) % U64);
      isSet := true;
      Assign(FromNs((ToNs(Value()) + d) % U64));
    }

    method MinusAssign(d: nat)
      requires d < U64
      modifies this
      ensures Value() == Minus(old(Value()), d)
      ensures if old(isSet) && ToNs(old(Value())) < d then Value() == old(Value()).(isSet := false)
              else isSet && Normal(Value()) && Count(Value()) == (ToNs(old(Value())) - d) % U64
    {
      CountSurvives((ToNs(Value()) - d) % U64);
      if LessNs(Value(), d) {
        isSet := false;
        return;
      }
      isSet := true;
      Assign(FromNs((ToNs(Value()) - d) % U64));
    }
  }

  // ----- What they mean -----

  /** Every 64-bit count survives, and its parts are in range. */
  lemma CountSurvives(t: nat)
    requires t < U64
    ensures Normal(FromNs(t)) && FromNs(t).isSet && ToNs(FromNs(t)) == t == Count(FromNs(t))
    ensures var x := FromNs(t);
            t == x.wn * 604_800_000_000_000 + x.tow * 1_000_000 + x.ns && x.tow < 604_800_000 && 0 <= x.ns < 1_000_000
  {
    Parts(t);
    var rest := t - t / WEEK * WEEK;
    assert rest == rest / MS * MS + rest % MS;
  }

  /** Counts of times with parts in range are ordered as the parts are. */
  lemma CountIsLexicographic(x: Time, y: Time)
    requires Normal(x) && Normal(y)
    ensures Count(x) < Count(y) <==> x.wn < y.wn || (x.wn == y.wn && (x.tow < y.tow || (x.tow == y.tow && x.ns < y.ns)))
  {
    assert 0 <= x.tow * MS + x.ns < WEEK && 0 <= y.tow * MS + y.ns < WEEK;
    if x.wn == y.wn {
    } else if x.wn < y.wn {
      assert (y.wn - x.wn) * WEEK >= WEEK;
    } else {
      assert (x.wn - y.wn) * WEEK >= WEEK;
    }
  }

  lemma NormalIsUnique(x: Time, y: Time)
    requires Normal(x) && Normal(y) && x.isSet == y.isSet && Count(x) == Count(y)
    ensures x == y
  {
    hide Count;
    CountIsLexicographic(x, y);
    CountIsLexicographic(y, x);
  }

  /** A time survives the other way exactly when it is set, its parts are in range, and its count fits 64 bits. */
  lemma TripleSurvivesIff(x: Time)
    requires Typed(x)
    ensures FromNs(ToNs(x)) == x <==> x.isSet && Normal(x) && Count(x) < U64
  {
    hide FromNs;
    CountSurvives(ToNs(x));
    if x.isSet && Normal(x) && Count(x) < U64 {
      NormalIsUnique(x, FromNs(ToNs(x)));
    }
  }

  /** On times that survive, < is the lexicographic order of the parts and == is equality. */
  lemma LessIsLexicographic(x: Time, y: Time)
    requires x.isSet && y.isSet && Normal(x) && Normal(y) && Count(x) < U64 && Count(y) < U64
    ensures Less(x, y) <==> x.wn < y.wn || (x.wn == y.wn && (x.tow < y.tow || (x.tow == y.tow && x.ns < y.ns)))
    ensures Equals(x, y) <==> x == y
  {
    assert ToNs(x) == Count(x) && ToNs(y) == Count(y);
    hide ToNs, Count;
    CountIsLexicographic(x, y);
    if Equals(x, y) {
      NormalIsUnique(x, y);
    }
  }

  /** > is the converse of < exactly when both times are set: it holds of every pair with an unset time, both ways round. */
  lemma GreaterIsConverseIff(x: Time, y: Time)
    ensures (Greater(x, y) <==> Less(y, x)) <==> x.isSet && y.isSet
    ensures !(x.isSet && y.isSet) ==> Greater(x, y) && Greater(y, x)
  {
  }

  /** Adding and subtracting the same amount restores the count exactly when the sum fits 64 bits; otherwise the time ends
      unset. */
  lemma AddThenSubtractIff(x: Time, d: nat)
    requires d < U64
    ensures Minus(Plus(x, d), d) == FromNs(ToNs(x)) <==> ToNs(x) + d < U64
    ensures Minus(Plus(x, d), d).isSet <==> ToNs(x) + d < U64
  {
    hide FromNs;
    CountSurvives((ToNs(x) + d) % U64);
    CountSurvives(ToNs(x));
    if ToNs(x) + d >= U64 {
      assert (ToNs(x) + d) % U64 == ToNs(x) + d - U64;
    }
  }

  /** Subtracting and adding restores the count exactly when the time was unset or no earlier than the amount. */
  lemma SubtractThenAddIff(x: Time, d: nat)
    requires d < U64
    ensures Plus(Minus(x, d), d) == FromNs(ToNs(x)) <==> x.isSet ==> d <= ToNs(x)
  {
    hide FromNs;
    var c := ToNs(x);
    CountSurvives(c);
    if LessNs(x, d) {
      assert ToNs(x.(isSet := false)) == c;
      assert (c + d) % U64 != c by {
        assert c + d < 2 * U64;
      }
      CountSurvives((c + d) % U64);
    } else {
      CountSurvives((c - d) % U64);
      assert ((c - d) % U64 + d) % U64 == c;
    }
  }

  /** Adding in two steps is adding the sum, with wrap-around. */
  lemma PlusPlus(x: Time, d: nat, e: nat)
    requires d < U64 && e < U64
    ensures Plus(Plus(x, d), e) == Plus(x, (d + e) % U64)
  {
    hide FromNs;
    var c := ToNs(x);
    CountSurvives((c + d) % U64);
    WrapOnce(c + d, e);
    WrapOnce(d + e, c);
  }

  lemma WrapOnce(a: nat, b: nat)
    ensures (a % U64 + b) % U64 == (a + b) % U64
  {
    var s := a % U64 + b;
    ModUnique(a + b, a / U64 + s / U64, U64, s % U64);
  }

  /** What was added to a time is the difference of the two times exactly when the sum fits 64 bits. */
  lemma ElapsedIff(x: Time, d: nat)
    requires d < U64
    ensures Minus(Plus(x, d), ToNs(x)) == FromNs(d) <==> ToNs(x) + d < U64
  {
    hide FromNs;
    var c := ToNs(x);
    var y := Plus(x, d);
    CountSurvives((c + d) % U64);
    CountSurvives(d);
    hide ToNs, Plus, Normal, Count;
    assert ToNs(y) == if c + d < U64 then c + d else c + d - U64;
  }

  // ----- The mirror on the ground -----

  const EPOCH_WN := 2045

  datatype GroundTime = GroundTime(wn: int, tow: int, ns: int)

  /** A count since the mission's epoch; any integer. */
  function FromPanNs(p: int): GroundTime {
    var count := EPOCH_WN * WEEK + p;
    var wn := count / WEEK;
    GroundTime(wn, (count - wn * WEEK) / MS, (count - wn * WEEK) % MS)
  }

  function GroundCount(g: GroundTime): int {
    g.wn * WEEK + g.tow * MS + g.ns
  }

  function ToPanNs(g: GroundTime): int {
    GroundCount(g) - GroundCount(FromPanNs(0))
  }

  /** Every count, before or after the epoch, survives, and its parts are in range. */
  lemma PanCountSurvives(p: int)
    ensures ToPanNs(FromPanNs(p)) == p
    ensures 0 <= FromPanNs(p).tow < WEEK_MS && 0 <= FromPanNs(p).ns < MS
    ensures FromPanNs(0) == GroundTime(2045, 0, 0)
  {
    var count := EPOCH_WN * WEEK + p;
    var rest := count - count / WEEK * WEEK;
    assert 0 <= rest < WEEK && rest == rest / MS * MS + rest % MS;
    assert FromPanNs(0) == GroundTime(EPOCH_WN, 0, 0);
  }

  lemma GroundIsUnique(g: GroundTime, h: GroundTime)
    requires 0 <= g.tow < WEEK_MS && 0 <= g.ns < MS && 0 <= h.tow < WEEK_MS && 0 <= h.ns < MS
    requires GroundCount(g) == GroundCount(h)
    ensures g == h
  {
    assert (g.wn - h.wn) * WEEK == (h.tow * MS + h.ns) - (g.tow * MS + g.ns);
    assert g.wn == h.wn;
  }

  /** A time survives the other way exactly when its parts are in range. */
  lemma GroundTripleSurvivesIff(g: GroundTime)
    ensures FromPanNs(ToPanNs(g)) == g <==> 0 <= g.tow < WEEK_MS && 0 <= g.ns < MS
  {
    var h := FromPanNs(ToPanNs(g));
    PanCountSurvives(ToPanNs(g));
    assert GroundCount(h) == GroundCount(g);
    hide FromPanNs, ToPanNs;
    if 0 <= g.tow < WEEK_MS && 0 <= g.ns < MS {
      GroundIsUnique(g, h);
    }
  }

  /** Flight and ground agree: they make the same parts of a count since the epoch, which the flight software wraps, and the
      same count of parts, exactly when the count is not negative and fits 64 bits. */
  lemma GroundMirrorsFlightIff(p: int, x: Time)
    ensures var t := FromNs((EPOCH_WN * WEEK + p) % U64);
            FromPanNs(p) == GroundTime(t.wn, t.tow, t.ns) <==> 0 <= EPOCH_WN * WEEK + p < U64
    ensures ToPanNs(GroundTime(x.wn, x.tow, x.ns)) == ToNs(x) - EPOCH_WN * WEEK <==> 0 <= Count(x) < U64
  {
    var count := EPOCH_WN * WEEK + p;
    if 0 <= count < U64 {
      Parts(count);
    } else {
      OtherCount(p);
    }
    assert FromPanNs(0) == GroundTime(EPOCH_WN, 0, 0);
  }

  lemma OtherCount(p: int)
    requires !(0 <= EPOCH_WN * WEEK + p < U64)
    ensures var t := FromNs((EPOCH_WN * WEEK + p) % U64); FromPanNs(p) != GroundTime(t.wn, t.tow, t.ns)
  {
    CountSurvives((EPOCH_WN * WEEK + p) % U64);
    PanCountSurvives(p);
    assert FromPanNs(0) == GroundTime(EPOCH_WN, 0, 0);
    hide FromNs, FromPanNs;
    assert GroundCount(FromPanNs(p)) == EPOCH_WN * WEEK + p;
  }
}
