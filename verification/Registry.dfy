/** The registry of state fields (src/common/StateFieldRegistry.cpp). */
module Registries {
  import opened Options

  /** The C++ types a field can have, as far as saving to EEPROM tells them apart; Other types are not saveable. */
  datatype Kind = UnsignedInt | SignedInt | UnsignedChar | SignedChar | Bool | Other

  /** A state field: its name, its type, and the period in control cycles at which it is saved to EEPROM, zero for never. */
  datatype Field = Field(name: string, kind: Kind, period: nat)

  /** A fault with its own field, its three flags and its persistence. */
  datatype Fault = Fault(base: Field, suppress: Field, overriding: Field, unsignal: Field, persistence: Field)
  {
    function Fields(): (fields: seq<Field>)
      ensures |fields| == 5
    {
      [base, suppress, overriding, unsignal, persistence]
    }
  }

  /** The fields the constructor of a fault makes. */
  function NewFault(name: string): Fault {
    Fault(Field(name + ".base", Bool, 0), Field(name + ".suppress", Bool, 0), Field(name + ".override", Bool, 0),
          Field(name + ".unsignal", Bool, 0), Field(name + ".persistence", UnsignedInt, 0))
  }

  /** Some field of the list has the name. */
  predicate Has(fields: seq<Field>, name: string) {
    exists i | 0 <= i < |fields| :: fields[i].name == name
  }

  predicate Unique(fields: seq<Field>) {
    forall i, j | 0 <= i < j < |fields| :: fields[i].name != fields[j].name
  }

  /** The fields with a positive period, in order. */
  function Saved(fields: seq<Field>): seq<Field> {
    if fields == [] then []
    else Saved(fields[..|fields| - 1]) + if fields[|fields| - 1].period > 0 then [fields[|fields| - 1]] else []
  }

  /** How many of the fields can be added before one clashes with the list or with a field added before it. */
  function ClashAt(list: seq<Field>, fields: seq<Field>): (k: nat)
    ensures k <= |fields|
    decreases fields
  {
    if fields == [] || Has(list, fields[0].name) then 0
    else 1 + ClashAt(list + [fields[0]], fields[1..])
  }

  lemma SavedMore(fields: seq<Field>, f: Field)
    ensures Saved(fields + [f]) == Saved(fields) + if f.period > 0 then [f] else []
  {
    assert (fields + [f])[..|fields + [f]| - 1] == fields;
  }

  /** The saved fields are the readable fields with a positive period. */
  lemma {:induction false} SavedIff(fields: seq<Field>, f: Field)
    ensures f in Saved(fields) <==> f in fields && f.period > 0
  {
    if fields != [] {
      var before, last := fields[..|fields| - 1], fields[|fields| - 1];
      SavedIff(before, f);
      assert fields == before + [last];
    }
  }

  lemma {:induction false} SavedIsUnique(fields: seq<Field>)
    requires Unique(fields)
    ensures Unique(Saved(fields))
  {
    if fields != [] {
      var n := |fields| - 1;
      var before := fields[..n];
      assert Unique(before);
      SavedIsUnique(before);
      forall i | 0 <= i < |Saved(before)|
        ensures Saved(before)[i].name != fields[n].name
      {
        SavedIff(before, Saved(before)[i]);
      }
    }
  }

  /** A name that no readable field has, no saved field has. */
  lemma NotSavedTwice(fields: seq<Field>, name: string)
    requires !Has(fields, name)
    ensures !Has(Saved(fields), name)
  {
    forall i | 0 <= i < |Saved(fields)|
      ensures Saved(fields)[i].name != name
    {
      SavedIff(fields, Saved(fields)[i]);
    }
  }

  /** A list that can be added whole can be added because its names are new and differ from each other. */
  lemma {:induction false} ClashAtEndIff(list: seq<Field>, fields: seq<Field>)
    ensures ClashAt(list, fields) == |fields|
            <==> Unique(fields) && forall i | 0 <= i < |fields| :: !Has(list, fields[i].name)
    decreases fields
  {
    if fields != [] && !Has(list, fields[0].name) {
      var more, rest := list + [fields[0]], fields[1..];
      ClashAtEndIff(more, rest);
      assert more[|list|] == fields[0];
      assert forall name | Has(list, name) :: Has(more, name) by {
        forall name | Has(list, name)
          ensures Has(more, name)
        {
          var i :| 0 <= i < |list| && list[i].name == name;
          assert more[i].name == name;
        }
      }
      if Unique(fields) && forall i | 0 <= i < |fields| :: !Has(list, fields[i].name) {
        assert Unique(rest);
        forall i | 0 <= i < |rest|
          ensures !Has(more, rest[i].name)
        {
          assert rest[i] == fields[i + 1];
        }
      }
      if Unique(rest) && forall i | 0 <= i < |rest| :: !Has(more, rest[i].name) {
        forall i | 0 < i < |fields|
          ensures !Has(list, fields[i].name) && fields[i].name != fields[0].name
        {
          assert rest[i - 1] == fields[i];
        }
        forall i, j | 0 <= i < j < |fields|
          ensures fields[i].name != fields[j].name
        {
          assert i > 0 ==> rest[i - 1] == fields[i];
          assert rest[j - 1] == fields[j];
        }
      }
    }
  }

  /** The five names of a fault always differ from each other. */
  lemma FaultNamesDiffer(name: string)
    ensures Unique(NewFault(name).Fields())
  {
    var n := |name|;
    var fields := NewFault(name).Fields();
    assert fields[0].name[n..] == ".base" && fields[1].name[n..] == ".suppress" && fields[2].name[n..] == ".override";
    assert fields[3].name[n..] == ".unsignal" && fields[4].name[n..] == ".persistence";
    assert ".base"[1] == 'b' && ".suppress"[1] == 's' && ".override"[1] == 'o';
    assert ".unsignal"[1] == 'u' && ".persistence"[1] == 'p';
  }

  /** So adding a new fault fails exactly when a readable field already has one of its five names. */
  lemma NewFaultClashIff(list: seq<Field>, name: string)
    ensures ClashAt(list, NewFault(name).Fields()) == 5
            <==> && !Has(list, name + ".base") && !Has(list, name + ".suppress") && !Has(list, name + ".override")
                 && !Has(list, name + ".unsignal") && !Has(list, name + ".persistence")
  {
    FaultNamesDiffer(name);
    hide Unique, ClashAt, Has;
    var fields := NewFault(name).Fields();
    ClashAtEndIff(list, fields);
    assert fields[0].name == name + ".base" && fields[1].name == name + ".suppress";
    assert fields[2].name == name + ".override" && fields[3].name == name + ".unsignal";
    assert fields[4].name == name + ".persistence";
  }

  /** The field that clashes is the first whose name is on the list by then. */
  lemma {:induction false} ClashAtIs(list: seq<Field>, fields: seq<Field>)
    ensures var k := ClashAt(list, fields);
            && (forall i | 0 <= i < k :: !Has(list + fields[..i], fields[i].name))
            && (k < |fields| ==> Has(list + fields[..k], fields[k].name))
    decreases fields
  {
    var k := ClashAt(list, fields);
    assert list + fields[..0] == list;
    if fields != [] && !Has(list, fields[0].name) {
      var more, rest := list + [fields[0]], fields[1..];
      ClashAtIs(more, rest);
      hide Has;
      if k < |fields| {
        OneFurther(list, fields, k);
      }
      forall i | 0 < i < k
        ensures !Has(list + fields[..i], fields[i].name)
      {
        OneFurther(list, fields, i);
      }
    }
  }

  lemma OneFurther(list: seq<Field>, fields: seq<Field>, i: nat)
    requires 0 < i < |fields|
    ensures list + fields[..i] == list + [fields[0]] + fields[1..][..i - 1] && fields[i] == fields[1..][i - 1]
  {
  }

  /** The loop of every find function: the first field with the name. */
  method Find(fields: seq<Field>, name: string) returns (found: Option<Field>)
    ensures found.Some? <==> Has(fields, name)
    ensures found.Some? ==> found.value in fields && found.value.name == name
    ensures Unique(fields) ==> forall f | f in fields && f.name == name :: found == Some(f)
  {
    for i := 0 to |fields|
      invariant forall j | 0 <= j < i :: fields[j].name != name
    {
      if fields[i].name == name {
        return Some(fields[i]);
      }
    }
    return None;
  }

  class StateFieldRegistry {
    var internalFields: seq<Field>
    var readableFields: seq<Field>
    var writableFields: seq<Field>
    var eepromSavedFields: seq<Field>
    var events: seq<Field>
    var faults: seq<Fault>

    /** Names are unique in every list, writable fields are readable, the saved fields are the readable ones with a positive
        period, and all fields of every fault are writable. */
    ghost predicate Valid()
      reads this
    {
      && Unique(internalFields) && Unique(readableFields) && Unique(writableFields) && Unique(events)
      && (forall i, j | 0 <= i < j < |faults| :: faults[i].base.name != faults[j].base.name)
      && (forall f | f in writableFields :: f in readableFields)
      && eepromSavedFields == Saved(readableFields)
      && (forall fault, f | fault in faults && f in fault.Fields() :: f in writableFields)
    }

    constructor ()
      ensures Valid()
      ensures internalFields == readableFields == writableFields == eepromSavedFields == events == [] && faults == []
    {
      internalFields, readableFields, writableFields, eepromSavedFields, events, faults := [], [], [], [], [], [];
    }

    method AddInternalField(field: Field) returns (ok: bool)
      requires Valid()
      modifies this`internalFields
      ensures Valid() && ok == !Has(old(internalFields), field.name)
      ensures internalFields == old(internalFields) + if ok then [field] else []
    {
      var found := Find(internalFields, field.name);
      if found.Some? {
        return false;
      }
      internalFields := internalFields + [field];
      return true;
    }

    /** The second check never fires: the name is refused exactly when a readable field has it. */
    method AddReadableField(field: Field) returns (ok: bool)
      requires Valid()
      modifies this`readableFields, this`eepromSavedFields
      ensures Valid() && ok == !Has(old(readableFields), field.name)
      ensures readableFields == old(readableFields) + if ok then [field] else []
      ensures eepromSavedFields == old(eepromSavedFields) + if ok && field.period > 0 then [field] else []
    {
      var found := Find(readableFields, field.name);
      if found.Some? {
        return false;
      }
      hide Saved;
      SavedMore(readableFields, field);
      NotSavedTwice(readableFields, field.name);
      if field.period > 0 {
        found := Find(eepromSavedFields, field.name);
        if found.Some? {
          return false;
        }
        eepromSavedFields := eepromSavedFields + [field];
      }
      readableFields := readableFields + [field];
      return true;
    }

    /** All or nothing: the check after the readable list has changed never fires. */
    method AddWritableField(field: Field) returns (ok: bool)
      requires Valid()
      modifies this`readableFields, this`eepromSavedFields, this`writableFields
      ensures Valid() && ok == !Has(old(readableFields), field.name)
      ensures readableFields == old(readableFields) + if ok then [field] else []
      ensures writableFields == old(writableFields) + if ok then [field] else []
      ensures eepromSavedFields == old(eepromSavedFields) + if ok && field.period > 0 then [field] else []
    {
      ok := AddReadableField(field);
      if !ok {
        return false;
      }
      var found := Find(writableFields, field.name);
      if found.Some? {
        return false;
      }
      writableFields := writableFields + [field];
    }

    method AddEvent(event: Field) returns (ok: bool)
      requires Valid()
      modifies this`events
      ensures Valid() && ok == !Has(old(events), event.name)
      ensures events == old(events) + if ok then [event] else []
    {
      var found := Find(events, event.name);
      if found.Some? {
        return false;
      }
      events := events + [event];
      return true;
    }

    method FindFault(name: string) returns (found: Option<Fault>)
      ensures found.Some? <==> exists i | 0 <= i < |faults| :: faults[i].base.name == name
      ensures found.Some? ==> found.value in faults && found.value.base.name == name
    {
      for i := 0 to |faults|
        invariant forall j | 0 <= j < i :: faults[j].base.name != name
      {
        if faults[i].base.name == name {
          return Some(faults[i]);
        }
      }
      return None;
    }

    /** A fault is added if its five names are new and different; otherwise the fields before the first clash stay behind in
        the readable and writable lists. */
    method AddFault(fault: Fault) returns (ok: bool)
      requires Valid()
      modifies this`readableFields, this`eepromSavedFields, this`writableFields, this`faults
      ensures Valid()
      ensures var fields := [fault.base, fault.suppress, fault.overriding, fault.unsignal, fault.persistence];
              var k := ClashAt(old(readableFields), fields);
              && ok == (k == 5)
              && readableFields == old(readableFields) + fields[..k]
              && writableFields == old(writableFields) + fields[..k]
      ensures faults == old(faults) + if ok then [fault] else []
    {
      var fields := fault.Fields();
      var found := FindFault(fault.base.name);
      if found.Some? {
        assert found.value.Fields()[0] == found.value.base;
        assert found.value.base in found.value.Fields() && found.value.base in readableFields;
        return false;
      }
      assert fields[0] == fault.base;
      ok := AddFields(fields);
      if !ok {
        return false;
      }
      faults := faults + [fault];
    }

    /** The calls of add_writable_field in add_fault, which stop at the first that fails. */
    method AddFields(fields: seq<Field>) returns (ok: bool)
      requires Valid()
      modifies this`readableFields, this`eepromSavedFields, this`writableFields
      ensures Valid()
      ensures var k := ClashAt(old(readableFields), fields);
              && ok == (k == |fields|)
              && readableFields == old(readableFields) + fields[..k]
              && writableFields == old(writableFields) + fields[..k]
      decreases |fields|
    {
      if fields == [] {
        return true;
      }
      ok := AddWritableField(fields[0]);
      if !ok {
        return false;
      }
      ok := AddFields(fields[1..]);
    }
  }

  /** Trying again never helps: the field left behind by the first try is in the way. */
  method AddFaultTwice(registry: StateFieldRegistry, fault: Fault) returns (first: bool, second: bool)
    requires registry.Valid()
    modifies registry
    ensures registry.Valid() && !second
    ensures registry.readableFields == old(registry.readableFields)
                                       + fault.Fields()[..ClashAt(old(registry.readableFields), fault.Fields())]
  {
    first := registry.AddFault(fault);
    var fields := fault.Fields();
    ghost var before := old(registry.readableFields);
    ghost var k := ClashAt(before, fields);
    if k == 0 {
      assert registry.readableFields == before;
    } else {
      assert registry.readableFields[|before|] == fields[0];
      assert Has(registry.readableFields, fields[0].name);
    }
    second := registry.AddFault(fault);
    assert fields[..0] == [];
  }
}
