/** Saving state fields across restarts (src/fsw/FCCode/EEPROMControllerCommon.cpp, src/fsw/FCCode/EEPROMControllerDesktop.cpp,
    src/common/StateFieldTypes.inl): each saved field is stored when its period divides the control cycle count, and
    restored when the software starts. */
module Eeprom {
  import opened Registries
  import opened Remainders

  const WORD := 0x1_0000_0000
  const EEPROM_SIZE := 4096
  const DOCKING := 8
  const DOCKED := 9

  /** The values of a field's C++ type. */
  predicate InRange(kind: Kind, v: int) {
    match kind
    case UnsignedInt => 0 <= v < WORD
    case SignedInt => -WORD / 2 <= v < WORD / 2
    case UnsignedChar => 0 <= v < 256
    case SignedChar => -128 <= v < 128
    case Bool => 0 <= v < 2
    case Other => true
  }

  /** get_eeprom_repr: the unsigned number that is stored for a value. */
  function Repr(kind: Kind, v: int): (r: nat)
    requires InRange(kind, v)
    ensures r < WORD
  {
    match kind
    case UnsignedInt | UnsignedChar | Bool => v
    case SignedInt => v % WORD
    case SignedChar => v % 256
    case Other => 0
  }

  /** set_from_eeprom: the value of a field that held v, after it is set from a stored number; a number too large for a
      character or a boolean is ignored. */
  function SetFrom(kind: Kind, v: int, stored: nat): (r: int)
    requires InRange(kind, v) && stored < WORD
    ensures InRange(kind, r)
  {
    match kind
    case UnsignedInt => stored
    case SignedInt => if stored >= WORD / 2 then stored - WORD else stored
    case UnsignedChar => if stored > 255 then v else stored
    case SignedChar => if stored > 255 then v else if stored >= 128 then stored - 256 else stored
    case Bool => if stored > 1 then v else stored
    case Other => v
  }

  /** The numbers that are stored: negative values in two's complement, of 32 bits for integers and of 8 for characters. */
  lemma ReprIs(kind: Kind, v: int)
    requires InRange(kind, v) && kind != Other
    ensures Repr(kind, v) == if v >= 0 then v else if kind == SignedInt then v + 4294967296 else v + 256
  {
  }

  /** A stored number that does not fit a character or a boolean is ignored, any other is taken as what was stored. */
  lemma SetFromIs(kind: Kind, held: int, stored: nat)
    requires InRange(kind, held) && stored < 4294967296 && kind != Other
    ensures SetFrom(kind, held, stored)
         == match kind
            case UnsignedInt => stored
            case SignedInt => if stored < 2147483648 then stored else stored - 4294967296
            case UnsignedChar => if stored < 256 then stored else held
            case SignedChar => if stored < 128 then stored else if stored < 256 then stored - 256 else held
            case _ => if stored < 2 then stored else held
  {
  }

  /** What is stored for a value sets a field of that type back to the value, whatever it held. */
  lemma ReprRoundTrip(kind: Kind, v: int, held: int)
    requires InRange(kind, v) && InRange(kind, held)
    ensures SetFrom(kind, held, Repr(kind, v)) == if kind == Other then held else v
  {
    match kind {
      case SignedInt => assert v % WORD == if v < 0 then v + WORD else v;
      case SignedChar => assert v % 256 == if v < 0 then v + 256 else v;
      case _ =>
    }
  }

  /** The saved fields of a registry: names are unique, periods positive, types saveable. */
  predicate Saveable(saved: seq<Field>) {
    Unique(saved) && forall i | 0 <= i < |saved| :: saved[i].period > 0 && saved[i].kind != Other
  }

  /** The current values of state fields, by name; every saved field has one, of its type. */
  predicate Known(saved: seq<Field>, values: map<string, int>) {
    forall i | 0 <= i < |saved| :: saved[i].name in values && InRange(saved[i].kind, values[saved[i].name])
  }

  /** Every stored number is an unsigned int. */
  predicate Words(data: map<string, nat>) {
    forall name | name in data :: data[name] < WORD
  }

  /** One control cycle: its count and the values the fields have when the controller runs. */
  datatype Cycle = Cycle(count: nat, values: map<string, int>)

  /** The stored data after one cycle's loop over the saved fields. */
  function Save(saved: seq<Field>, data: map<string, nat>, c: Cycle): map<string, nat>
    requires Saveable(saved) && Known(saved, c.values)
  {
    if saved == [] then data
    else
      var f := saved[|saved| - 1];
      var before := Save(saved[..|saved| - 1], data, c);
      if c.count % f.period == 0 then before[f.name := Repr(f.kind, c.values[f.name])] else before
  }

  ghost predicate AllKnown(saved: seq<Field>, cycles: seq<Cycle>) {
    forall i | 0 <= i < |cycles| :: Known(saved, cycles[i].values)
  }

  function SaveAll(saved: seq<Field>, data: map<string, nat>, cycles: seq<Cycle>): map<string, nat>
    requires Saveable(saved) && AllKnown(saved, cycles)
  {
    if cycles == [] then data
    else Save(saved, SaveAll(saved, data, cycles[..|cycles| - 1]), cycles[|cycles| - 1])
  }

  /** The control cycle count goes up by one and wraps at 32 bits. */
  predicate Consecutive(cycles: seq<Cycle>) {
    && (forall i | 0 <= i < |cycles| :: cycles[i].count < WORD)
    && forall i | 0 < i < |cycles| :: cycles[i].count == (cycles[i - 1].count + 1) % WORD
  }

  /** How many cycles ago, at a given count, the period divided the count. */
  function Age(count: nat, period: nat): (age: nat)
    requires period > 0
    ensures age < period && age <= count && (exists q: nat :: count == q * period + age)
    ensures age == 0 <==> count % period == 0
  {
    assert count == count / period * period + count % period;
    count % period
  }

  /** One cycle stores exactly the fields whose period divides the count, and leaves every other name alone. */
  lemma {:induction false} SaveAt(saved: seq<Field>, data: map<string, nat>, c: Cycle, name: string)
    requires Saveable(saved) && Known(saved, c.values)
    ensures (forall i | 0 <= i < |saved| && saved[i].name == name :: c.count % saved[i].period != 0)
            ==> (name in Save(saved, data, c) <==> name in data) && (name in data ==> Save(saved, data, c)[name] == data[name])
    ensures forall i | 0 <= i < |saved| && saved[i].name == name && c.count % saved[i].period == 0 ::
              name in Save(saved, data, c) && Save(saved, data, c)[name] == Repr(saved[i].kind, c.values[name])
  {
    if saved != [] {
      var n := |saved| - 1;
      SaveAt(saved[..n], data, c, name);
      assert forall i | 0 <= i < n :: saved[..n][i] == saved[i];
    }
  }

  /** What is stored for field k after some cycles is its value age cycles before the last; or, if there are not so many
      cycles, what was stored before. */
  ghost predicate StoredFrom(saved: seq<Field>, data: map<string, nat>, cycles: seq<Cycle>, k: nat, age: nat)
    requires Saveable(saved) && AllKnown(saved, cycles) && k < |saved|
  {
    var f, n, after := saved[k], |cycles|, SaveAll(saved, data, cycles);
    if age < n then
      f.name in after && after[f.name] == Repr(f.kind, cycles[n - 1 - age].values[f.name])
    else
      (f.name in after <==> f.name in data) && (f.name in data ==> after[f.name] == data[f.name])
  }

  /** After any run, what is stored for a field is its value c mod p cycles ago, where c is the last cycle count and p the
      field's period: the value at the latest cycle that p divides, never p or more cycles old, also when the count wraps. If
      the run is too short to contain that cycle, what was stored before is untouched. */
  lemma {:induction false} StoredAfterRun(saved: seq<Field>, data: map<string, nat>, cycles: seq<Cycle>, k: nat)
    requires Saveable(saved) && AllKnown(saved, cycles) && Consecutive(cycles)
    requires k < |saved| && cycles != []
    ensures StoredFrom(saved, data, cycles, k, Age(cycles[|cycles| - 1].count, saved[k].period))
  {
    hide Save, SaveAll, Age, Repr, Known, StoredFrom;
    var n := |cycles|;
    var before, c := cycles[..n - 1], cycles[n - 1];
    if Age(c.count, saved[k].period) == 0 {
      StoredNow(saved, data, cycles, k);
    } else if n == 1 {
      NeverStored(saved, data, cycles, k);
    } else {
      StoredAfterRun(saved, data, before, k);
      OneEarlier(before[n - 2].count, c.count, saved[k].period);
      StoredEarlier(saved, data, cycles, k);
    }
  }

  lemma StoredNow(saved: seq<Field>, data: map<string, nat>, cycles: seq<Cycle>, k: nat)
    requires Saveable(saved) && AllKnown(saved, cycles) && k < |saved| && cycles != []
    requires Age(cycles[|cycles| - 1].count, saved[k].period) == 0
    ensures StoredFrom(saved, data, cycles, k, 0)
  {
    hide Save, SaveAll, Age, Repr, Saveable, Known;
    SaveAllLast(saved, data, cycles);
    SaveOne(saved, SaveAll(saved, data, cycles[..|cycles| - 1]), cycles[|cycles| - 1], k);
  }

  lemma NeverStored(saved: seq<Field>, data: map<string, nat>, cycles: seq<Cycle>, k: nat)
    requires Saveable(saved) && AllKnown(saved, cycles) && k < |saved| && |cycles| == 1
    requires Age(cycles[0].count, saved[k].period) != 0
    ensures StoredFrom(saved, data, cycles, k, Age(cycles[0].count, saved[k].period))
  {
    hide Save, SaveAll, Age, Repr, Saveable, Known;
    SaveAllLast(saved, data, cycles);
    SaveOne(saved, data, cycles[0], k);
  }

  lemma StoredEarlier(saved: seq<Field>, data: map<string, nat>, cycles: seq<Cycle>, k: nat)
    requires Saveable(saved) && AllKnown(saved, cycles) && k < |saved| && |cycles| > 1
    requires var age := Age(cycles[|cycles| - 1].count, saved[k].period);
             age != 0 && AllKnown(saved, cycles[..|cycles| - 1])
             && StoredFrom(saved, data, cycles[..|cycles| - 1], k, age - 1)
    ensures StoredFrom(saved, data, cycles, k, Age(cycles[|cycles| - 1].count, saved[k].period))
  {
    hide Save, SaveAll, Age, Repr, Saveable, Known;
    SaveAllLast(saved, data, cycles);
    SaveOne(saved, SaveAll(saved, data, cycles[..|cycles| - 1]), cycles[|cycles| - 1], k);
  }

  lemma SaveAllLast(saved: seq<Field>, data: map<string, nat>, cycles: seq<Cycle>)
    requires Saveable(saved) && AllKnown(saved, cycles) && cycles != []
    ensures var n := |cycles| - 1; var earlier := SaveAll(saved, data, cycles[..n]);
            SaveAll(saved, data, cycles) == Save(saved, earlier, cycles[n]) && (n == 0 ==> earlier == data)
  {
    hide Save;
  }

  lemma SaveOne(saved: seq<Field>, data: map<string, nat>, c: Cycle, k: nat)
    requires Saveable(saved) && Known(saved, c.values) && k < |saved|
    ensures var f, after := saved[k], Save(saved, data, c);
            if Age(c.count, f.period) == 0 then f.name in after && after[f.name] == Repr(f.kind, c.values[f.name])
            else (f.name in after <==> f.name in data) && (f.name in data ==> after[f.name] == data[f.name])
  {
    hide Save, Repr;
    SaveAt(saved, data, c, saved[k].name);
    assert forall i | 0 <= i < |saved| && saved[i].name == saved[k].name :: i == k;
  }

  lemma OneEarlier(before: nat, count: nat, period: nat)
    requires period > 0 && before < WORD && count == (before + 1) % WORD && Age(count, period) != 0
    ensures before == count - 1 && Age(before, period) == Age(count, period) - 1
  {
    SmallMod(0, period);
    var q, r := count / period, count % period;
    assert count - 1 == q * period + (r - 1);
    ModUnique(count - 1, q, period, r - 1);
  }

  /** The fields after the loop of read_EEPROM: each saved field that has a stored number is set from it, but the mission state
      only to docking or docked. */
  function Restore(saved: seq<Field>, data: map<string, nat>, values: map<string, int>): (restored: map<string, int>)
    requires Saveable(saved) && Known(saved, values) && Words(data)
    ensures restored.Keys == values.Keys
    ensures forall name | name in values && !Has(saved, name) :: restored[name] == values[name]
  {
    if saved == [] then values
    else
      var n := |saved| - 1;
      var f := saved[n];
      var before := Restore(saved[..n], data, values);
      assert forall name | Has(saved[..n], name) :: Has(saved, name) by { HasMore(saved); }
      assert Has(saved, f.name) && !Has(saved[..n], f.name);
      if f.name !in data || (f.name == "pan.state" && data[f.name] != DOCKING && data[f.name] != DOCKED) then before
      else before[f.name := SetFrom(f.kind, before[f.name], data[f.name])]
  }

  lemma HasMore(saved: seq<Field>)
    requires saved != []
    ensures forall name | Has(saved[..|saved| - 1], name) :: Has(saved, name)
  {
    forall name | Has(saved[..|saved| - 1], name)
      ensures Has(saved, name)
    {
      var i :| 0 <= i < |saved| - 1 && saved[..|saved| - 1][i].name == name;
      assert saved[i].name == name;
    }
  }

  /** What one field holds after the restore, from its own stored number and the value it started with. */
  function Restored(f: Field, data: map<string, nat>, held: int): int
    requires InRange(f.kind, held) && Words(data)
  {
    if f.name in data && (f.name == "pan.state" ==> data[f.name] == DOCKING || data[f.name] == DOCKED)
    then SetFrom(f.kind, held, data[f.name])
    else held
  }

  lemma {:induction false} RestoreAt(saved: seq<Field>, data: map<string, nat>, values: map<string, int>, k: nat)
    requires Saveable(saved) && Known(saved, values) && Words(data) && k < |saved|
    ensures Restore(saved, data, values)[saved[k].name] == Restored(saved[k], data, values[saved[k].name])
  {
    var n := |saved| - 1;
    hide SetFrom;
    if k < n {
      RestoreAt(saved[..n], data, values, k);
      assert saved[k].name != saved[n].name;
    } else {
      assert !Has(saved[..n], saved[n].name);
    }
  }

  lemma {:induction false} StoredAreWords(saved: seq<Field>, data: map<string, nat>, cycles: seq<Cycle>)
    requires Saveable(saved) && AllKnown(saved, cycles) && Words(data)
    ensures Words(SaveAll(saved, data, cycles))
  {
    if cycles != [] {
      var before := cycles[..|cycles| - 1];
      StoredAreWords(saved, data, before);
      SaveKeepsWords(saved, SaveAll(saved, data, before), cycles[|cycles| - 1]);
    }
  }

  lemma {:induction false} SaveKeepsWords(saved: seq<Field>, data: map<string, nat>, c: Cycle)
    requires Saveable(saved) && Known(saved, c.values) && Words(data)
    ensures Words(Save(saved, data, c))
  {
    if saved != [] {
      hide Repr;
      SaveKeepsWords(saved[..|saved| - 1], data, c);
    }
  }

  /** A run and a restart: every saved field gets back the value it had c mod p cycles before the end, except that the mission
      state survives only if it was docking or docked, and the new software's own values stand otherwise. */
  lemma RestartRecovers(saved: seq<Field>, data: map<string, nat>, cycles: seq<Cycle>, startup: map<string, int>, k: nat)
    requires Saveable(saved) && AllKnown(saved, cycles) && Consecutive(cycles) && Words(data) && Known(saved, startup)
    requires k < |saved| && cycles != [] && Age(cycles[|cycles| - 1].count, saved[k].period) < |cycles|
    ensures Words(SaveAll(saved, data, cycles))
    ensures var f, n := saved[k], |cycles|;
            var v := cycles[n - 1 - Age(cycles[n - 1].count, f.period)].values[f.name];
            Restore(saved, SaveAll(saved, data, cycles), startup)[f.name]
            == if f.name == "pan.state" && Repr(f.kind, v) != 8 && Repr(f.kind, v) != 9 then startup[f.name] else v
  {
    hide Save, SaveAll, Restore, Age, Repr, SetFrom;
    var f, n := saved[k], |cycles|;
    StoredAreWords(saved, data, cycles);
    StoredAfterRun(saved, data, cycles, k);
    RestoreAt(saved, SaveAll(saved, data, cycles), startup, k);
    ReprRoundTrip(f.kind, cycles[n - 1 - Age(cycles[n - 1].count, f.period)].values[f.name], startup[f.name]);
  }

  lemma PrefixesAreFine(saved: seq<Field>, values: map<string, int>)
    requires Saveable(saved) && Known(saved, values)
    ensures forall i | 0 <= i <= |saved| :: Saveable(saved[..i]) && Known(saved[..i], values)
  {
  }

  lemma EmptyRestore(data: map<string, nat>, values: map<string, int>)
    requires Words(data)
    ensures Restore([], data, values) == values
  {
  }

  /** One round of the loop of read_EEPROM. */
  lemma RestoreStep(saved: seq<Field>, data: map<string, nat>, values: map<string, int>, i: nat)
    requires i < |saved| && Words(data)
    requires Saveable(saved[..i + 1]) && Known(saved[..i + 1], values) && Saveable(saved[..i]) && Known(saved[..i], values)
    ensures var f, before := saved[i], Restore(saved[..i], data, values);
            && f.name in before && InRange(f.kind, before[f.name])
            && Restore(saved[..i + 1], data, values)
               == if f.name !in data || (f.name == "pan.state" && data[f.name] != DOCKING && data[f.name] != DOCKED) then before
                  else before[f.name := SetFrom(f.kind, before[f.name], data[f.name])]
  {
    assert saved[..i + 1][..i] == saved[..i] && saved[..i + 1][i] == saved[i];
    assert !Has(saved[..i], saved[i].name);
    hide SetFrom, InRange;
  }

  lemma KnownAfterSet(saved: seq<Field>, values: map<string, int>, i: nat, v: int)
    requires Saveable(saved) && Known(saved, values) && i < |saved| && InRange(saved[i].kind, v)
    ensures Known(saved, values[saved[i].name := v])
  {
  }

  /** The controller on the desktop: data is the keyed store, values the current values of the state fields. */
  class EepromController {
    const registry: StateFieldRegistry
    var addresses: seq<nat>
    var data: map<string, nat>
    var values: map<string, int>

    ghost predicate Valid()
      reads this, registry
    {
      && registry.Valid() && Words(data) && Known(registry.eepromSavedFields, values)
      && forall i | 0 <= i < |registry.eepromSavedFields| :: registry.eepromSavedFields[i].kind != Other
    }

    /** What the registry guarantees is what saving and restoring need. */
    lemma SavedFieldsAreSaveable()
      requires Valid()
      ensures Saveable(registry.eepromSavedFields)
    {
      SavedIsUnique(registry.readableFields);
      var saved := registry.eepromSavedFields;
      forall i | 0 <= i < |saved|
        ensures saved[i].period > 0
      {
        SavedIff(registry.readableFields, saved[i]);
      }
    }

    constructor (registry: StateFieldRegistry, data: map<string, nat>, values: map<string, int>)
      requires registry.Valid() && Words(data) && Known(registry.eepromSavedFields, values)
      requires forall i | 0 <= i < |registry.eepromSavedFields| :: registry.eepromSavedFields[i].kind != Other
      ensures Valid() && this.registry == registry && this.data == data && this.values == values && addresses == []
    {
      this.registry, this.data, this.values, addresses := registry, data, values, [];
    }

    /** Lays out five bytes of EEPROM a field and restores the fields if anything is stored. */
    method Init()
      requires Valid() && |registry.eepromSavedFields| <= EEPROM_SIZE / 5 && addresses == []
      modifies this`addresses, this`values
      ensures Valid() && Saveable(registry.eepromSavedFields)
      ensures |addresses| == |registry.eepromSavedFields|
      ensures forall i | 0 <= i < |addresses| :: addresses[i] == 5 * i && addresses[i] + 5 <= 4096
      ensures forall i, j | 0 <= i < j < |addresses| :: addresses[i] + 5 <= addresses[j]
      ensures values == Restore(registry.eepromSavedFields, data, old(values))
    {
      SavedFieldsAreSaveable();
      NothingStored(registry.eepromSavedFields, data, values);
      hide Restore, Saveable, Known, Words;
      for i := 0 to |registry.eepromSavedFields|
        invariant values == old(values) && |addresses| == i
        invariant forall j | 0 <= j < i :: addresses[j] == 5 * j
      {
        addresses := addresses + [5 * i];
      }
      if |data| != 0 {
        ReadEeprom();
      }
    }

    /** read_EEPROM. */
    method ReadEeprom()
      requires Valid()
      modifies this`values
      ensures Valid() && Saveable(registry.eepromSavedFields)
      ensures values == Restore(registry.eepromSavedFields, data, old(values))
    {
      SavedFieldsAreSaveable();
      var saved := registry.eepromSavedFields;
      PrefixesAreFine(saved, values);
      hide Restore, Saveable, InRange, SetFrom;
      EmptyRestore(data, values);
      for i := 0 to |saved|
        invariant Known(saved, values)
        invariant values == Restore(saved[..i], data, old(values))
      {
        var f := saved[i];
        RestoreStep(saved, data, old(values), i);
        if f.name in data {
          var val := data[f.name];
          var isDocking := val == DOCKING;
          var isDocked := val == DOCKED;
          if f.name == "pan.state" && !isDocking && !isDocked {
            continue;
          }
          KnownAfterSet(saved, values, i, SetFrom(f.kind, values[f.name], val));
          values := values[f.name := SetFrom(f.kind, values[f.name], val)];
        }
      }
      assert saved[..|saved|] == saved;
    }

    /** Saves every field whose period divides the control cycle count. */
    method Execute(count: nat)
      requires Valid()
      modifies this`data
      ensures Valid() && Saveable(registry.eepromSavedFields)
      ensures data == Save(registry.eepromSavedFields, old(data), Cycle(count, values))
    {
      SavedFieldsAreSaveable();
      var saved := registry.eepromSavedFields;
      for i := 0 to |saved|
        invariant Words(data)
        invariant data == Save(saved[..i], old(data), Cycle(count, values))
      {
        assert saved[..i + 1][..i] == saved[..i];
        if count % saved[i].period == 0 {
          UpdateEeprom(i);
        }
      }
      assert saved[..|saved|] == saved;
    }

    /** update_EEPROM. */
    method UpdateEeprom(position: nat)
      requires Known(registry.eepromSavedFields, values) && position < |registry.eepromSavedFields|
      modifies this`data
      ensures var f := registry.eepromSavedFields[position]; data == old(data)[f.name := Repr(f.kind, values[f.name])]
    {
      var f := registry.eepromSavedFields[position];
      data := data[f.name := Repr(f.kind, values[f.name])];
    }
  }

  /** With nothing stored a restore would change nothing, so skipping it is no special case. */
  lemma {:induction false} NothingStored(saved: seq<Field>, data: map<string, nat>, values: map<string, int>)
    requires Saveable(saved) && Known(saved, values) && Words(data)
    ensures |data| == 0 ==> Restore(saved, data, values) == values
  {
    if saved != [] && |data| == 0 {
      NothingStored(saved[..|saved| - 1], data, values);
      assert saved[|saved| - 1].name !in data;
    }
  }
}
