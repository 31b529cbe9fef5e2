/** The meaning of `Delta` on instance state, as the source computes it, and the comparison
    its name and documentation promise. */
module Comparison {
  import opened Wrappers
  import opened Reflection
  import opened Accessors
  import opened Instances

  /** The names of the property rows whose values in `a` and `b` are equal (`equal`) or
      differ (`!equal`), in row order. */
  function PropertyNames(rows: seq<Entry<PropertyInfo>>, a: Slots, b: Slots, equal: bool): (names: seq<string>)
    requires forall e :: e in rows ==> PropertySlot(e.slot) in a && PropertySlot(e.slot) in b
    ensures forall n :: n in names <==>
      exists e :: e in rows && e.member.name == n && (a[PropertySlot(e.slot)] == b[PropertySlot(e.slot)]) == equal
    decreases |rows|
  {
    if rows == [] then []
    else
      var e := rows[0];
      assert forall x :: x in rows <==> x == e || x in rows[1..];
      (if (a[PropertySlot(e.slot)] == b[PropertySlot(e.slot)]) == equal then [e.member.name] else [])
        + PropertyNames(rows[1..], a, b, equal)
  }

  /** The names of the field rows whose values in `a` and `b` differ, in row order. */
  function FieldNames(rows: seq<Entry<FieldInfo>>, a: Slots, b: Slots): (names: seq<string>)
    requires forall e :: e in rows ==> FieldSlot(e.slot) in a && FieldSlot(e.slot) in b
    ensures forall n :: n in names <==>
      exists e :: e in rows && e.member.name == n && a[FieldSlot(e.slot)] != b[FieldSlot(e.slot)]
    decreases |rows|
  {
    if rows == [] then []
    else
      var e := rows[0];
      assert forall x :: x in rows <==> x == e || x in rows[1..];
      (if a[FieldSlot(e.slot)] != b[FieldSlot(e.slot)] then [e.member.name] else [])
        + FieldNames(rows[1..], a, b)
  }

  /** The table's rows all name slots of the instance. */
  lemma TableInSlots(t: TypeInfo, a: Slots)
    requires Fits(t, a)
    ensures forall e :: e in Accessor(t).properties ==> PropertySlot(e.slot) in a
    ensures forall e :: e in Accessor(t).fields ==> FieldSlot(e.slot) in a
  {
    AccessorKeepsExactly(t);
  }

  /** `Delta(target, comparand)` for two distinct instances, as written: the property loop
      yields a name when `Compare` finds the two values EQUAL, and the field loop compares
      `target`'s field with itself. */
  function DeltaNames(t: TypeInfo, a: Slots, b: Slots): seq<string>
    requires Fits(t, a) && Fits(t, b)
  {
    TableInSlots(t, a);
    TableInSlots(t, b);
    PropertyNames(Accessor(t).properties, a, b, true) + FieldNames(Accessor(t).fields, a, a)
  }

  /** The corrected comparison: the names of the properties and of the fields whose values
      differ between `a` and `b`, in table order. */
  function Changes(t: TypeInfo, a: Slots, b: Slots): seq<string>
    requires Fits(t, a) && Fits(t, b)
  {
    TableInSlots(t, a);
    TableInSlots(t, b);
    PropertyNames(Accessor(t).properties, a, b, false) + FieldNames(Accessor(t).fields, a, b)
  }

  /** A field compared with itself never differs: the field loop yields nothing. */
  lemma {:induction false} SelfComparedFieldsYieldNothing(rows: seq<Entry<FieldInfo>>, a: Slots)
    requires forall e :: e in rows ==> FieldSlot(e.slot) in a
    ensures FieldNames(rows, a, a) == []
    decreases |rows|
  {
    if rows != [] {
      assert forall x :: x in rows[1..] ==> x in rows;
      SelfComparedFieldsYieldNothing(rows[1..], a);
    }
  }

  /** As written, `Delta` yields exactly the names of the properties whose values are EQUAL in
      the two instances, and never the name of a field. */
  lemma DeltaYieldsEqualProperties(t: TypeInfo, a: Slots, b: Slots)
    requires Fits(t, a) && Fits(t, b)
    ensures forall n :: n in DeltaNames(t, a, b) <==>
      exists e :: e in Accessor(t).properties && e.member.name == n && a[PropertySlot(e.slot)] == b[PropertySlot(e.slot)]
    ensures DeltaNames(t, a, b) == PropertyNames(Accessor(t).properties, a, b, true)
  {
    TableInSlots(t, a);
    TableInSlots(t, b);
    SelfComparedFieldsYieldNothing(Accessor(t).fields, a);
  }

  /** Comparing equal states, every property row yields its name. */
  lemma {:induction false} EqualStatesYieldEveryProperty(rows: seq<Entry<PropertyInfo>>, a: Slots)
    requires forall e :: e in rows ==> PropertySlot(e.slot) in a
    ensures PropertyNames(rows, a, a, true) == seq(|rows|, k requires 0 <= k < |rows| => rows[k].member.name)
    decreases |rows|
  {
    if rows != [] {
      assert forall x :: x in rows[1..] ==> x in rows;
      EqualStatesYieldEveryProperty(rows[1..], a);
    }
  }

  /** The corrected comparison yields exactly the names of the members, property or field,
      whose values differ. */
  lemma ChangesYieldDifferingMembers(t: TypeInfo, a: Slots, b: Slots)
    requires Fits(t, a) && Fits(t, b)
    ensures forall n :: n in Changes(t, a, b) <==>
      (exists e :: e in Accessor(t).properties && e.member.name == n && a[PropertySlot(e.slot)] != b[PropertySlot(e.slot)]) ||
      (exists e :: e in Accessor(t).fields && e.member.name == n && a[FieldSlot(e.slot)] != b[FieldSlot(e.slot)])
  {
    TableInSlots(t, a);
    TableInSlots(t, b);
  }

  /** The corrected comparison of a state with itself yields nothing. */
  lemma {:induction false} ChangesOfEqualStatesAreEmpty(t: TypeInfo, a: Slots)
    requires Fits(t, a)
    ensures Changes(t, a, a) == []
  {
    TableInSlots(t, a);
    SelfComparedFieldsYieldNothing(Accessor(t).fields, a);
    NoDifferingProperties(Accessor(t).properties, a);
  }

  lemma {:induction false} NoDifferingProperties(rows: seq<Entry<PropertyInfo>>, a: Slots)
    requires forall e :: e in rows ==> PropertySlot(e.slot) in a
    ensures PropertyNames(rows, a, a, false) == []
    decreases |rows|
  {
    if rows != [] {
      assert forall x :: x in rows[1..] ==> x in rows;
      NoDifferingProperties(rows[1..], a);
    }
  }

  /** No two rows of the table share a name. */
  ghost predicate DistinctNames(t: TypeInfo)
  {
    var props := Accessor(t).properties;
    forall k, l :: 0 <= k < l < |props| ==> props[k].member.name != props[l].member.name
  }

  /** For a type with no public fields and no two properties of one name, the corrected
      comparison yields a name exactly when `GetProperty` of that name differs. */
  lemma ChangesAgreeWithGet(t: TypeInfo, a: Slots, b: Slots, n: string)
    requires Fits(t, a) && Fits(t, b)
    requires Accessor(t).fields == [] && DistinctNames(t)
    ensures n in Changes(t, a, b) <==> Get(t, a, Some(n)) != Get(t, b, Some(n))
  {
    ChangesYieldDifferingMembers(t, a, b);
    LocateFindsFirstMatch(t, n);
    var props := Accessor(t).properties;
    if n in Changes(t, a, b) {
      var e :| e in props && e.member.name == n && a[PropertySlot(e.slot)] != b[PropertySlot(e.slot)];
      var k :| 0 <= k < |props| && props[k] == e;
      assert FirstNamedAt(props, PropertyName, k, n);
    }
  }

  /** The test the property loop applies to one row: its values in `a` and `b` are equal
      (`equal`) or differ (`!equal`). */
  function PropertyTest(a: Slots, b: Slots, equal: bool): Entry<PropertyInfo> -> bool
  {
    (e: Entry<PropertyInfo>) => PropertySlot(e.slot) in a && PropertySlot(e.slot) in b
      && (a[PropertySlot(e.slot)] == b[PropertySlot(e.slot)]) == equal
  }

  /** The test the field loop applies to one row: its values in `a` and `b` differ. */
  function FieldTest(a: Slots, b: Slots): Entry<FieldInfo> -> bool
  {
    (e: Entry<FieldInfo>) => FieldSlot(e.slot) in a && FieldSlot(e.slot) in b && a[FieldSlot(e.slot)] != b[FieldSlot(e.slot)]
  }

  /** The member names of the selected rows, one per row, in order. */
  function SelectedNames<M>(kept: seq<Entry<Entry<M>>>, nameOf: M -> string): seq<string>
  {
    seq(|kept|, k requires 0 <= k < |kept| => nameOf(kept[k].member.member))
  }

  lemma SelectedNamesAppend<M>(x: seq<Entry<Entry<M>>>, y: seq<Entry<Entry<M>>>, nameOf: M -> string)
    ensures SelectedNames(x + y, nameOf) == SelectedNames(x, nameOf) + SelectedNames(y, nameOf)
  {
  }

  /** The property loop yields, once per row and in row order, the name of each row that
      passes its test. */
  lemma {:induction false} PropertyNamesAreSelected(rows: seq<Entry<PropertyInfo>>, a: Slots, b: Slots, equal: bool, offset: nat)
    requires forall e :: e in rows ==> PropertySlot(e.slot) in a && PropertySlot(e.slot) in b
    ensures PropertyNames(rows, a, b, equal) == SelectedNames(Select(rows, PropertyTest(a, b, equal), offset), PropertyName)
    decreases |rows|
  {
    if rows != [] {
      assert forall x :: x in rows[1..] ==> x in rows;
      PropertyNamesAreSelected(rows[1..], a, b, equal, offset + 1);
      var keep := PropertyTest(a, b, equal);
      var e := rows[0];
      assert e in rows;
      var passes := (a[PropertySlot(e.slot)] == b[PropertySlot(e.slot)]) == equal;
      assert keep(e) == passes;
      var head: seq<Entry<Entry<PropertyInfo>>> := if passes then [Entry(e, offset)] else [];
      var rest := Select(rows[1..], keep, offset + 1);
      assert Select(rows, keep, offset) == head + rest;
      if passes {
        assert head == [Entry(e, offset)] && PropertyName(e.member) == e.member.name;
        assert |SelectedNames(head, PropertyName)| == 1 && SelectedNames(head, PropertyName)[0] == e.member.name;
      }
      assert SelectedNames(head, PropertyName) == if passes then [e.member.name] else [];
      SelectedNamesAppend(head, rest, PropertyName);
    }
  }

  /** The field loop yields, once per row and in row order, the name of each row whose values
      differ. */
  lemma {:induction false} FieldNamesAreSelected(rows: seq<Entry<FieldInfo>>, a: Slots, b: Slots, offset: nat)
    requires forall e :: e in rows ==> FieldSlot(e.slot) in a && FieldSlot(e.slot) in b
    ensures FieldNames(rows, a, b) == SelectedNames(Select(rows, FieldTest(a, b), offset), FieldName)
    decreases |rows|
  {
    if rows != [] {
      assert forall x :: x in rows[1..] ==> x in rows;
      FieldNamesAreSelected(rows[1..], a, b, offset + 1);
      var keep := FieldTest(a, b);
      var e := rows[0];
      assert e in rows;
      var passes := a[FieldSlot(e.slot)] != b[FieldSlot(e.slot)];
      assert keep(e) == passes;
      var head: seq<Entry<Entry<FieldInfo>>> := if passes then [Entry(e, offset)] else [];
      var rest := Select(rows[1..], keep, offset + 1);
      assert Select(rows, keep, offset) == head + rest;
      if passes {
        assert head == [Entry(e, offset)] && FieldName(e.member) == e.member.name;
        assert |SelectedNames(head, FieldName)| == 1 && SelectedNames(head, FieldName)[0] == e.member.name;
      }
      assert SelectedNames(head, FieldName) == if passes then [e.member.name] else [];
      SelectedNamesAppend(head, rest, FieldName);
    }
  }

  /** The property rows a test keeps are exactly the rows that pass it, each with its position
      in the table, and those positions strictly increase. */
  lemma SelectedPropertyRows(rows: seq<Entry<PropertyInfo>>, a: Slots, b: Slots, equal: bool)
    requires forall e :: e in rows ==> PropertySlot(e.slot) in a && PropertySlot(e.slot) in b
    ensures var kept := Select(rows, PropertyTest(a, b, equal), 0);
      && (forall e :: e in kept ==> e.slot < |rows| && e.member == rows[e.slot])
      && (forall k, l :: 0 <= k < l < |kept| ==> kept[k].slot < kept[l].slot)
      && (forall i :: 0 <= i < |rows| ==>
            (Entry(rows[i], i) in kept <==> (a[PropertySlot(rows[i].slot)] == b[PropertySlot(rows[i].slot)]) == equal))
  {
    SelectExactly(rows, PropertyTest(a, b, equal));
    forall i | 0 <= i < |rows|
      ensures PropertyTest(a, b, equal)(rows[i]) == ((a[PropertySlot(rows[i].slot)] == b[PropertySlot(rows[i].slot)]) == equal)
    {
      assert rows[i] in rows;
    }
  }

  /** The field rows the test keeps are exactly those whose values differ, each with its
      position in the table, and those positions strictly increase. */
  lemma SelectedFieldRows(rows: seq<Entry<FieldInfo>>, a: Slots, b: Slots)
    requires forall e :: e in rows ==> FieldSlot(e.slot) in a && FieldSlot(e.slot) in b
    ensures var kept := Select(rows, FieldTest(a, b), 0);
      && (forall e :: e in kept ==> e.slot < |rows| && e.member == rows[e.slot])
      && (forall k, l :: 0 <= k < l < |kept| ==> kept[k].slot < kept[l].slot)
      && (forall i :: 0 <= i < |rows| ==>
            (Entry(rows[i], i) in kept <==> a[FieldSlot(rows[i].slot)] != b[FieldSlot(rows[i].slot)]))
  {
    SelectExactly(rows, FieldTest(a, b));
    forall i | 0 <= i < |rows|
      ensures FieldTest(a, b)(rows[i]) == (a[FieldSlot(rows[i].slot)] != b[FieldSlot(rows[i].slot)])
    {
      assert rows[i] in rows;
    }
  }

  /** As written, `Delta` yields the names of the property rows whose values are equal, once
      per row and in table order (the rows kept are described by `SelectedPropertyRows`). */
  lemma DeltaInTableOrder(t: TypeInfo, a: Slots, b: Slots)
    requires Fits(t, a) && Fits(t, b)
    ensures DeltaNames(t, a, b) == SelectedNames(Select(Accessor(t).properties, PropertyTest(a, b, true), 0), PropertyName)
  {
    TableInSlots(t, a);
    TableInSlots(t, b);
    DeltaYieldsEqualProperties(t, a, b);
    PropertyNamesAreSelected(Accessor(t).properties, a, b, true, 0);
  }

  /** The corrected comparison yields the names of the differing property rows, then those of
      the differing field rows, once per row and each in table order. */
  lemma ChangesInTableOrder(t: TypeInfo, a: Slots, b: Slots)
    requires Fits(t, a) && Fits(t, b)
    ensures Changes(t, a, b) ==
      SelectedNames(Select(Accessor(t).properties, PropertyTest(a, b, false), 0), PropertyName)
      + SelectedNames(Select(Accessor(t).fields, FieldTest(a, b), 0), FieldName)
  {
    TableInSlots(t, a);
    TableInSlots(t, b);
    PropertyNamesAreSelected(Accessor(t).properties, a, b, false, 0);
    FieldNamesAreSelected(Accessor(t).fields, a, b, 0);
  }
}
