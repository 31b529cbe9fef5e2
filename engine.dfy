/** `ObjectExtensions`: the operations callers use, over objects whose member slots they
    update in place. */
module ObjectExtensions {
  import opened Wrappers
  import opened Reflection
  import opened Accessors
  import opened Instances
  import opened Patch
  import opened Comparison

  /** An object of a record-shaped class: its runtime type and the values of its slots. */
  class Instance {
    const runtimeType: TypeInfo
    var values: Slots

    ghost predicate Valid()
      reads this
    {
      WellTyped(runtimeType, values)
    }

    constructor (runtimeType: TypeInfo, values: Slots)
      requires WellTyped(runtimeType, values)
      ensures this.runtimeType == runtimeType && this.values == values && Valid()
    {
      this.runtimeType := runtimeType;
      this.values := values;
    }
  }

  /** The `object.MemberwiseClone` delegate: a new object of the same runtime type holding
      the same slot values (referenced objects are shared, not copied). */
  method Clone(target: Instance) returns (clone: Instance)
    requires target.Valid()
    ensures fresh(clone) && clone.Valid()
    ensures clone.runtimeType == target.runtimeType && clone.values == target.values
  {
    clone := new Instance(target.runtimeType, target.values);
  }

  /** `MemberwiseClone<T>`: a null target is returned as it is. */
  method MemberwiseClone(target: Instance?) returns (clone: Instance?)
    requires target != null ==> target.Valid()
    ensures target == null ==> clone == null
    ensures target != null ==>
      && clone != null && fresh(clone) && clone.Valid()
      && clone.runtimeType == target.runtimeType && clone.values == target.values
  {
    if target == null {
      return null;
    }
    clone := Clone(target);
  }

  /** The two `foreach` loops every operation runs to find a member: the properties, then
      the fields, stopping at the first whose name equals `name`. */
  method FindMember(table: Table, name: Option<string>) returns (target: Target)
    ensures target == Resolve(table, name)
  {
    var i := 0;
    while i < |table.properties|
      invariant 0 <= i <= |table.properties|
      invariant forall j :: 0 <= j < i ==> Some(table.properties[j].member.name) != name
    {
      if Some(table.properties[i].member.name) == name {
        return PropertyTarget(table.properties[i]);
      }
      i := i + 1;
    }
    i := 0;
    while i < |table.fields|
      invariant 0 <= i <= |table.fields|
      invariant forall j :: 0 <= j < i ==> Some(table.fields[j].member.name) != name
    {
      if Some(table.fields[i].member.name) == name {
        return FieldTarget(table.fields[i]);
      }
      i := i + 1;
    }
    return NoTarget;
  }

  /** `GetProperty`: the value of the first property, else the first field, called `name`;
      `null` when there is none. */
  method GetProperty(target: Instance, name: Option<string>) returns (value: Value)
    requires target.Valid()
    ensures value == Get(target.runtimeType, target.values, name)
  {
    var member := FindMember(Accessor(target.runtimeType), name);
    if member.NoTarget? {
      return Null;
    }
    value := target.values[LocOf(member)];
  }

  /** `SetProperty`: store `value` in the first property, else the first field, called `name`,
      through the member's setter; no member of that name is a silent no-op. A value the
      setter cannot take throws and leaves the target as it was. */
  method SetProperty(target: Instance, name: Option<string>, value: Value) returns (outcome: Outcome<Error>)
    requires target.Valid()
    modifies target
    ensures target.Valid()
    ensures match Set(target.runtimeType, old(target.values), name, value)
      case Success(s) => outcome == Pass && target.values == s
      case Failure(e) => outcome == Fail(e) && target.values == old(target.values)
  {
    var member := FindMember(Accessor(target.runtimeType), name);
    if member.NoTarget? {
      return Pass;
    }
    var converted := Convert(member, value);
    if converted.Failure? {
      return Fail(converted.error);
    }
    SetPreservesWellTyped(target.runtimeType, target.values, name, value);
    target.values := target.values[LocOf(member) := converted.value];
    return Pass;
  }

  /** The loop body of every `With` overload: find `name` and copy that one member from
      `change` into `result`. */
  method CopyMember(result: Instance, change: Instance, name: Option<string>)
    requires result.Valid() && change.Valid() && change.runtimeType == result.runtimeType
    modifies result
    ensures result.Valid()
    ensures result.values == WithOne(result.runtimeType, old(result.values), old(change.values), name)
  {
    var member := FindMember(Accessor(result.runtimeType), name);
    if !member.NoTarget? {
      result.values := result.values[LocOf(member) := change.values[LocOf(member)]];
    }
  }

  /** `With(target, change, property)`: a clone of `target` whose member `property` is copied
      from `change`. Neither `target` nor `change` is modified. */
  method With(target: Instance, change: Instance, name: Option<string>) returns (result: Instance)
    requires target.Valid() && change.Valid() && change.runtimeType == target.runtimeType
    ensures fresh(result) && result.Valid() && result.runtimeType == target.runtimeType
    ensures result.values == WithOne(target.runtimeType, target.values, change.values, name)
  {
    result := Clone(target);
    CopyMember(result, change, name);
  }

  /** The `params` overload's leading name: copied unless it is null. */
  method CopyLeading(result: Instance, change: Instance, name: Option<string>)
    requires result.Valid() && change.Valid() && change.runtimeType == result.runtimeType
    modifies result
    ensures result.Valid()
    ensures result.values == WithNames(result.runtimeType, old(result.values), old(change.values), [name])
  {
    ghost var s, c := result.values, change.values;
    if name.Some? {
      CopyMember(result, change, name);
    } else {
      WithOneOfNullIsIdentity(result.runtimeType, s, c);
    }
    WithNamesSnoc(result.runtimeType, s, c, [], name);
    assert [] + [name] == [name];
  }

  /** The loop over a list of names shared by the multi-name `With` overloads: the single-name
      copy for each name, in order. */
  method CopyEach(result: Instance, change: Instance, names: seq<Option<string>>)
    requires result.Valid() && change.Valid() && change.runtimeType == result.runtimeType
    modifies result
    ensures result.Valid()
    ensures result.values == WithNames(result.runtimeType, old(result.values), old(change.values), names)
  {
    ghost var s, c := result.values, change.values;
    var i := 0;
    while i < |names|
      invariant 0 <= i <= |names|
      invariant result.Valid() && change.values == c
      invariant result.values == WithNames(result.runtimeType, s, c, names[..i])
    {
      CopyMember(result, change, names[i]);
      WithNamesSnoc(result.runtimeType, s, c, names[..i], names[i]);
      assert names[..i + 1] == names[..i] + [names[i]];
      i := i + 1;
    }
    assert names[..|names|] == names;
  }

  /** `With(target, change, property, params properties)`: the leading name (skipped when
      null), then each further name in order. */
  method WithParams(target: Instance, change: Instance, name: Option<string>, names: seq<Option<string>>)
    returns (result: Instance)
    requires target.Valid() && change.Valid() && change.runtimeType == target.runtimeType
    ensures fresh(result) && result.Valid() && result.runtimeType == target.runtimeType
    ensures result.values == WithNames(target.runtimeType, target.values, change.values, [name] + names)
  {
    result := Clone(target);
    CopyLeading(result, change, name);
    CopyEach(result, change, names);
    WithNamesAppend(target.runtimeType, target.values, change.values, [name], names);
  }

  /** `With(target, change, IEnumerable<string> properties)`: each name in order. */
  method WithEnumerable(target: Instance, change: Instance, names: seq<Option<string>>) returns (result: Instance)
    requires target.Valid() && change.Valid() && change.runtimeType == target.runtimeType
    ensures fresh(result) && result.Valid() && result.runtimeType == target.runtimeType
    ensures result.values == WithNames(target.runtimeType, target.values, change.values, names)
  {
    result := Clone(target);
    CopyEach(result, change, names);
  }

  /** `With(target, changes)`: a null or empty dictionary returns `target` itself; otherwise a
      clone in which each key is stored with `SetProperty`, in the dictionary's (unspecified)
      enumeration order. A value the member cannot take throws. */
  method WithDictionary(target: Instance, changes: Option<map<string, Value>>) returns (r: Result<Instance, Error>)
    requires target.Valid()
    ensures changes.None? || |changes.value| == 0 ==> r == Success(target)
    ensures changes.Some? && |changes.value| > 0 ==>
      && (r.Failure? <==> ChangesFail(target.runtimeType, changes.value))
      && (r.Success? ==>
            && fresh(r.value) && r.value.Valid() && r.value.runtimeType == target.runtimeType
            && r.value.values == Applied(target.runtimeType, target.values, changes.value))
  {
    if changes.None? || |changes.value| <= 0 {
      return Success(target);
    }
    var m := changes.value;
    var result := Clone(target);
    var pending := m.Keys;
    ghost var done: map<string, Value> := map[];
    AppliedNothing(target.runtimeType, target.values);
    while pending != {}
      invariant pending !! done.Keys && pending + done.Keys == m.Keys
      invariant forall k :: k in done ==> done[k] == m[k]
      invariant fresh(result) && result.Valid() && result.runtimeType == target.runtimeType
      invariant result.values == Applied(target.runtimeType, target.values, done)
      invariant !ChangesFail(target.runtimeType, done)
      decreases pending
    {
      var k :| k in pending;
      var outcome := SetProperty(result, Some(k), m[k]);
      SetFailsOnBadKey(target.runtimeType, Applied(target.runtimeType, target.values, done), m, k);
      if outcome.Fail? {
        return Failure(outcome.error);
      }
      AppliedStep(target.runtimeType, target.values, done, k, m[k]);
      GoodKeyKeepsChangesClean(target.runtimeType, done, k, m[k]);
      done := done[k := m[k]];
      pending := pending - {k};
    }
    assert done == m;
    return Success(result);
  }

  /** Slot `loc` is among those the first `np` property rows and `nf` field rows accepted by
      `accept` have copied. */
  ghost predicate CopiedBy(table: Table, accept: MemberInfo -> bool, np: nat, nf: nat, loc: Loc)
  {
    match loc
    case PropertySlot(j) =>
      exists k :: 0 <= k < np && k < |table.properties| && table.properties[k].slot == j
        && accept(PropertyMember(table.properties[k].member))
    case FieldSlot(j) =>
      exists k :: 0 <= k < nf && k < |table.fields| && table.fields[k].slot == j
        && accept(FieldMember(table.fields[k].member))
  }

  /** The target's state once the first `np` property rows and `nf` field rows have been
      visited. */
  ghost function MergedRows(t: TypeInfo, s: Slots, c: Slots, accept: MemberInfo -> bool, np: nat, nf: nat): Slots
    requires Fits(t, s) && Fits(t, c)
  {
    map loc | loc in s :: if CopiedBy(Accessor(t), accept, np, nf, loc) then c[loc] else s[loc]
  }

  /** Visiting property row `i` copies its slot when `accept` takes the property. */
  lemma PropertyRowStep(t: TypeInfo, s: Slots, c: Slots, accept: MemberInfo -> bool, i: nat)
    requires Fits(t, s) && Fits(t, c)
    requires i < |Accessor(t).properties|
    ensures var row := Accessor(t).properties[i];
      var before := MergedRows(t, s, c, accept, i, 0);
      && PropertySlot(row.slot) in before
      && MergedRows(t, s, c, accept, i + 1, 0) ==
           if accept(PropertyMember(row.member)) then before[PropertySlot(row.slot) := c[PropertySlot(row.slot)]]
           else before
  {
    var table := Accessor(t);
    var row := table.properties[i];
    var before := MergedRows(t, s, c, accept, i, 0);
    var after := MergedRows(t, s, c, accept, i + 1, 0);
    var expected := if accept(PropertyMember(row.member)) then before[PropertySlot(row.slot) := c[PropertySlot(row.slot)]] else before;
    forall loc | loc in s
      ensures after[loc] == expected[loc]
    {
      if loc == PropertySlot(row.slot) && accept(PropertyMember(row.member)) {
        assert CopiedBy(table, accept, i + 1, 0, loc);
      }
    }
    SlotsExtensional(t, after, expected);
  }

  /** Visiting field row `i`, after every property row, copies its slot when `accept` takes
      the field. */
  lemma FieldRowStep(t: TypeInfo, s: Slots, c: Slots, accept: MemberInfo -> bool, i: nat)
    requires Fits(t, s) && Fits(t, c)
    requires i < |Accessor(t).fields|
    ensures var np := |Accessor(t).properties|;
      var row := Accessor(t).fields[i];
      var before := MergedRows(t, s, c, accept, np, i);
      && FieldSlot(row.slot) in before
      && MergedRows(t, s, c, accept, np, i + 1) ==
           if accept(FieldMember(row.member)) then before[FieldSlot(row.slot) := c[FieldSlot(row.slot)]]
           else before
  {
    var table := Accessor(t);
    var np := |table.properties|;
    var row := table.fields[i];
    var before := MergedRows(t, s, c, accept, np, i);
    var after := MergedRows(t, s, c, accept, np, i + 1);
    var expected := if accept(FieldMember(row.member)) then before[FieldSlot(row.slot) := c[FieldSlot(row.slot)]] else before;
    forall loc | loc in s
      ensures after[loc] == expected[loc]
    {
      if loc == FieldSlot(row.slot) && accept(FieldMember(row.member)) {
        assert CopiedBy(table, accept, np, i + 1, loc);
      }
    }
    SlotsExtensional(t, after, expected);
  }

  /** Once every row has been visited, the state is the merged one. */
  lemma AllRowsMerged(t: TypeInfo, s: Slots, c: Slots, accept: MemberInfo -> bool)
    requires Fits(t, s) && Fits(t, c)
    ensures var table := Accessor(t);
      MergedRows(t, s, c, accept, |table.properties|, |table.fields|) == Merged(t, s, c, accept)
  {
    var table := Accessor(t);
    AccessorKeepsExactly(t);
    var after := MergedRows(t, s, c, accept, |table.properties|, |table.fields|);
    forall loc | loc in s
      ensures after[loc] == Merged(t, s, c, accept)[loc]
    {
      match loc
      case PropertySlot(j) =>
        var p := AllProperties(Some(t))[j];
        if IsReadWrite(p) {
          var k :| 0 <= k < |table.properties| && table.properties[k] == Entry(p, j);
        }
      case FieldSlot(j) =>
        var f := AllFields(Some(t))[j];
        if IsPublicField(f) {
          var k :| 0 <= k < |table.fields| && table.fields[k] == Entry(f, j);
        }
    }
    SlotsExtensional(t, after, Merged(t, s, c, accept));
  }

  /** `Merge(target, change, predicate)`: unless both are the same object, copy into `target`
      every property, then every field, of the table that `predicate` accepts. Returns
      `target`. */
  method MergeWhere(target: Instance, change: Instance, accept: MemberInfo -> bool) returns (r: Instance)
    requires target.Valid() && change.Valid() && change.runtimeType == target.runtimeType
    modifies target
    ensures r == target && target.Valid()
    ensures target == change ==> target.values == old(target.values)
    ensures target != change ==>
      target.values == Merged(target.runtimeType, old(target.values), change.values, accept)
  {
    if target == change {
      return target;
    }
    var t := target.runtimeType;
    var table := Accessor(t);
    ghost var s := target.values;
    assert MergedRows(t, s, change.values, accept, 0, 0) == s;
    var i := 0;
    while i < |table.properties|
      invariant 0 <= i <= |table.properties|
      invariant target.values == MergedRows(t, s, change.values, accept, i, 0)
    {
      var row := table.properties[i];
      PropertyRowStep(t, s, change.values, accept, i);
      if accept(PropertyMember(row.member)) {
        target.values := target.values[PropertySlot(row.slot) := change.values[PropertySlot(row.slot)]];
      }
      i := i + 1;
    }
    i := 0;
    while i < |table.fields|
      invariant 0 <= i <= |table.fields|
      invariant target.values == MergedRows(t, s, change.values, accept, |table.properties|, i)
    {
      var row := table.fields[i];
      FieldRowStep(t, s, change.values, accept, i);
      if accept(FieldMember(row.member)) {
        target.values := target.values[FieldSlot(row.slot) := change.values[FieldSlot(row.slot)]];
      }
      i := i + 1;
    }
    AllRowsMerged(t, s, change.values, accept);
    MergePreservesWellTyped(t, s, change.values, accept);
    return target;
  }

  /** `Merge(target, change)`: `MergeWhere` with a predicate that accepts every member. */
  method Merge(target: Instance, change: Instance) returns (r: Instance)
    requires target.Valid() && change.Valid() && change.runtimeType == target.runtimeType
    modifies target
    ensures r == target && target.Valid()
    ensures target == change ==> target.values == old(target.values)
    ensures target != change ==>
      target.values == Merged(target.runtimeType, old(target.values), change.values, AnyMember)
  {
    r := MergeWhere(target, change, AnyMember);
  }

  /** `Delta(target, comparand)`, as written: nothing for the same object; otherwise, in
      table order, the names of the properties whose values are EQUAL, and no field. */
  function Delta(target: Instance, comparand: Instance): (names: seq<string>)
    reads target, comparand
    requires target.Valid() && comparand.Valid() && comparand.runtimeType == target.runtimeType
    ensures target == comparand ==> names == []
    ensures forall n :: n in names <==>
      && target != comparand
      && exists e :: e in Accessor(target.runtimeType).properties && e.member.name == n
           && target.values[PropertySlot(e.slot)] == comparand.values[PropertySlot(e.slot)]
    ensures target != comparand ==>
      names == SelectedNames(
        Select(Accessor(target.runtimeType).properties, PropertyTest(target.values, comparand.values, true), 0),
        PropertyName)
  {
    DeltaYieldsEqualProperties(target.runtimeType, target.values, comparand.values);
    DeltaInTableOrder(target.runtimeType, target.values, comparand.values);
    if target == comparand then [] else DeltaNames(target.runtimeType, target.values, comparand.values)
  }
}
