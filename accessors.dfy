/** `Accessor<T>`: the per-type table of the members the engine can reach, and the
    name lookup every operation shares (properties first, then fields, first match wins). */
module Accessors {
  import opened Wrappers
  import opened Reflection

  /** One row of the table: the member, and the index of its storage slot in the walk of all
      declared members of its kind (`AllProperties` or `AllFields`). */
  datatype Entry<M> = Entry(member: M, slot: nat)

  /** `Accessor<T>.Properties` and `Accessor<T>.Fields`. */
  datatype Table = Table(properties: seq<Entry<PropertyInfo>>, fields: seq<Entry<FieldInfo>>)

  /** The property filter: a getter and a setter, both present and both public. */
  predicate IsReadWrite(p: PropertyInfo)
  {
    && p.getMethod.Some? && p.getMethod.value.isPublic
    && p.setMethod.Some? && p.setMethod.value.isPublic
  }

  /** The field filter: `fi.IsPublic`. */
  predicate IsPublicField(f: FieldInfo)
  {
    f.isPublic
  }

  /** The members of `all` that `keep` accepts, in order, each with its index (plus `offset`):
      the `where` clause of the LINQ query that builds the table. */
  function Select<M>(all: seq<M>, keep: M -> bool, offset: nat): seq<Entry<M>>
    decreases |all|
  {
    if all == [] then []
    else if keep(all[0]) then [Entry(all[0], offset)] + Select(all[1..], keep, offset + 1)
    else Select(all[1..], keep, offset + 1)
  }

  /** Every selected row is an accepted member paired with its own index. */
  lemma {:induction false} SelectSound<M>(all: seq<M>, keep: M -> bool, offset: nat)
    ensures forall e :: e in Select(all, keep, offset) ==>
      && offset <= e.slot < offset + |all|
      && e.member == all[e.slot - offset]
      && keep(e.member)
    decreases |all|
  {
    if all != [] {
      SelectSound(all[1..], keep, offset + 1);
    }
  }

  /** Every accepted member is selected, with its own index. */
  lemma {:induction false} SelectComplete<M>(all: seq<M>, keep: M -> bool, offset: nat)
    ensures forall i :: 0 <= i < |all| && keep(all[i]) ==> Entry(all[i], offset + i) in Select(all, keep, offset)
    decreases |all|
  {
    if all != [] {
      SelectComplete(all[1..], keep, offset + 1);
      forall i | 1 <= i < |all| && keep(all[i])
        ensures Entry(all[i], offset + i) in Select(all, keep, offset)
      {
        assert all[i] == all[1..][i - 1];
      }
    }
  }

  /** Selection keeps the walk order: slots strictly increase along the rows. */
  lemma {:induction false} SelectOrdered<M>(all: seq<M>, keep: M -> bool, offset: nat)
    ensures forall k, l :: 0 <= k < l < |Select(all, keep, offset)| ==>
      Select(all, keep, offset)[k].slot < Select(all, keep, offset)[l].slot
    decreases |all|
  {
    if all != [] {
      var rest := Select(all[1..], keep, offset + 1);
      SelectOrdered(all[1..], keep, offset + 1);
      SelectSound(all[1..], keep, offset + 1);
      assert forall l :: 0 <= l < |rest| ==> rest[l] in rest;
    }
  }

  /** The table of type `t`, built once per type by the static initialiser of `Accessor<T>`. */
  function Accessor(t: TypeInfo): (table: Table)
    ensures forall e :: e in table.properties ==>
      e.slot < |AllProperties(Some(t))| && e.member == AllProperties(Some(t))[e.slot]
    ensures forall e :: e in table.fields ==>
      e.slot < |AllFields(Some(t))| && e.member == AllFields(Some(t))[e.slot]
  {
    SelectSound(AllProperties(Some(t)), IsReadWrite, 0);
    SelectSound(AllFields(Some(t)), IsPublicField, 0);
    Table(Select(AllProperties(Some(t)), IsReadWrite, 0), Select(AllFields(Some(t)), IsPublicField, 0))
  }

  /** Selection keeps exactly the accepted members, each paired with its own slot, in walk order. */
  lemma SelectExactly<M>(all: seq<M>, keep: M -> bool)
    ensures forall i :: 0 <= i < |all| ==> (Entry(all[i], i) in Select(all, keep, 0) <==> keep(all[i]))
    ensures forall e :: e in Select(all, keep, 0) ==> e.slot < |all| && e.member == all[e.slot] && keep(e.member)
    ensures forall k, l :: 0 <= k < l < |Select(all, keep, 0)| ==>
      Select(all, keep, 0)[k].slot < Select(all, keep, 0)[l].slot
  {
    var rows := Select(all, keep, 0);
    SelectSound(all, keep, 0);
    SelectComplete(all, keep, 0);
    SelectOrdered(all, keep, 0);
    forall i | 0 <= i < |all|
      ensures Entry(all[i], i) in rows <==> keep(all[i])
    {
      var e := Entry(all[i], i);
      if e in rows {
        assert keep(e.member);
      } else {
        assert !keep(all[i]);
      }
    }
  }

  /** The table of `t` holds exactly the read/write properties and exactly the public
      fields, each paired with its own slot, in walk order. */
  lemma AccessorKeepsExactly(t: TypeInfo)
    ensures var all := AllProperties(Some(t)); var rows := Accessor(t).properties;
      && (forall i :: 0 <= i < |all| ==> (Entry(all[i], i) in rows <==> IsReadWrite(all[i])))
      && (forall e :: e in rows ==> e.slot < |all| && e.member == all[e.slot])
      && (forall k, l :: 0 <= k < l < |rows| ==> rows[k].slot < rows[l].slot)
    ensures var all := AllFields(Some(t)); var rows := Accessor(t).fields;
      && (forall i :: 0 <= i < |all| ==> (Entry(all[i], i) in rows <==> IsPublicField(all[i])))
      && (forall e :: e in rows ==> e.slot < |all| && e.member == all[e.slot])
      && (forall k, l :: 0 <= k < l < |rows| ==> rows[k].slot < rows[l].slot)
  {
    SelectExactly(AllProperties(Some(t)), IsReadWrite);
    SelectExactly(AllFields(Some(t)), IsPublicField);
  }

  function PropertyName(p: PropertyInfo): string
  {
    p.name
  }

  function FieldName(f: FieldInfo): string
  {
    f.name
  }

  /** Row `k` is the first row whose member is called `name`. */
  predicate FirstNamedAt<M>(rows: seq<Entry<M>>, nameOf: M -> string, k: nat, name: string)
  {
    && k < |rows|
    && nameOf(rows[k].member) == name
    && forall j :: 0 <= j < k ==> nameOf(rows[j].member) != name
  }

  /** The index of the first row called `name`, if any: the `foreach` that stops at the
      first match. */
  function FirstNamed<M>(rows: seq<Entry<M>>, nameOf: M -> string, name: string): (k: Option<nat>)
    ensures k.Some? ==> FirstNamedAt(rows, nameOf, k.value, name)
    ensures k.None? ==> forall j :: 0 <= j < |rows| ==> nameOf(rows[j].member) != name
    decreases |rows|
  {
    if rows == [] then None
    else if nameOf(rows[0].member) == name then Some(0)
    else
      match FirstNamed(rows[1..], nameOf, name)
      case None => None
      case Some(k) => Some(k + 1)
  }

  /** Where a lookup by name lands. */
  datatype Target = PropertyTarget(property: Entry<PropertyInfo>) | FieldTarget(field: Entry<FieldInfo>) | NoTarget

  /** The lookup shared by `GetProperty`, `SetProperty` and `With`: the first property
      called `name`, else the first field called `name`, else nothing. A null name matches
      no member. */
  function Resolve(table: Table, name: Option<string>): (target: Target)
    ensures target.PropertyTarget? ==>
      && name.Some?
      && target.property in table.properties
      && exists k: nat :: FirstNamedAt(table.properties, PropertyName, k, name.value) && table.properties[k] == target.property
    ensures target.FieldTarget? ==>
      && name.Some?
      && target.field in table.fields
      && (forall e :: e in table.properties ==> e.member.name != name.value)
      && exists k: nat :: FirstNamedAt(table.fields, FieldName, k, name.value) && table.fields[k] == target.field
    ensures target.NoTarget? <==>
      name.None? ||
      ((forall e :: e in table.properties ==> e.member.name != name.value) &&
       (forall e :: e in table.fields ==> e.member.name != name.value))
  {
    if name.None? then NoTarget
    else
      match FirstNamed(table.properties, PropertyName, name.value)
      case Some(k) => PropertyTarget(table.properties[k])
      case None =>
        match FirstNamed(table.fields, FieldName, name.value)
        case Some(k) => FieldTarget(table.fields[k])
        case None => NoTarget
  }

  /** The exceptions a store can raise. */
  datatype Error =
    | NullReference  // unboxing null into a value-typed property
    | InvalidCast    // a value of the wrong type handed to a property setter
    | Argument       // a value of the wrong type handed to `FieldInfo.SetValue`

  /** The `(TValue)value` cast in `PropertyAccessor.SetValue`. */
  function CastTo(t: ClrType, v: Value): (r: Result<Value, Error>)
    ensures r.Success? <==> HasType(v, t)
    ensures r.Success? ==> r.value == v
    ensures r.Failure? ==> r.error == (if v.Null? then NullReference else InvalidCast)
  {
    if HasType(v, t) then Success(v)
    else if v.Null? then Failure(NullReference)
    else Failure(InvalidCast)
  }

  /** The conversion `FieldInfo.SetValue` applies: null stores the field type's default. */
  function ConvertForField(t: ClrType, v: Value): (r: Result<Value, Error>)
    ensures r.Success? <==> HasType(v, t) || v.Null?
    ensures r.Success? ==> HasType(r.value, t)
    ensures r.Success? && HasType(v, t) ==> r.value == v
    ensures r.Failure? ==> r.error == Argument
    ensures v.Null? ==> r == Success(DefaultOf(t))
  {
    if v.Null? && IsValueType(t) then Success(DefaultOf(t))
    else if HasType(v, t) then Success(v)
    else Failure(Argument)
  }

  /** The value a store through `target` actually writes, or the exception it raises. */
  function Convert(target: Target, v: Value): (r: Result<Value, Error>)
    requires !target.NoTarget?
  {
    match target
    case PropertyTarget(e) => CastTo(e.member.propertyType, v)
    case FieldTarget(e) => ConvertForField(e.member.fieldType, v)
  }
}
