/** The state of an instance, seen as the values of its member slots, and the meaning of
    `GetProperty` and `SetProperty` on that state. */
module Instances {
  import opened Wrappers
  import opened Reflection
  import opened Accessors

  /** A storage slot of an instance: the `i`-th property or field of the walk of all declared
      members (public or not, so a base member hidden with `new` keeps a slot of its own;
      virtual overrides, which share storage at run time, are not modelled). */
  datatype Loc = PropertySlot(i: nat) | FieldSlot(i: nat)

  /** The member values of one instance. */
  type Slots = map<Loc, Value>

  predicate IsLoc(t: TypeInfo, loc: Loc)
  {
    match loc
    case PropertySlot(i) => i < |AllProperties(Some(t))|
    case FieldSlot(i) => i < |AllFields(Some(t))|
  }

  function DeclaredType(t: TypeInfo, loc: Loc): ClrType
    requires IsLoc(t, loc)
  {
    match loc
    case PropertySlot(i) => AllProperties(Some(t))[i].propertyType
    case FieldSlot(i) => AllFields(Some(t))[i].fieldType
  }

  function NameAt(t: TypeInfo, loc: Loc): string
    requires IsLoc(t, loc)
  {
    match loc
    case PropertySlot(i) => AllProperties(Some(t))[i].name
    case FieldSlot(i) => AllFields(Some(t))[i].name
  }

  /** `s` has exactly the slots of an instance of `t`. */
  ghost predicate Fits(t: TypeInfo, s: Slots)
  {
    forall loc :: loc in s <==> IsLoc(t, loc)
  }

  /** ...and every slot holds a value of its declared type, as the runtime guarantees. */
  ghost predicate WellTyped(t: TypeInfo, s: Slots)
  {
    && Fits(t, s)
    && forall loc :: loc in s ==> HasType(s[loc], DeclaredType(t, loc))
  }

  /** The slot a lookup landed on. */
  function LocOf(target: Target): Loc
    requires !target.NoTarget?
  {
    match target
    case PropertyTarget(e) => PropertySlot(e.slot)
    case FieldTarget(e) => FieldSlot(e.slot)
  }

  /** The declared type of the member a lookup landed on. */
  function TargetType(target: Target): ClrType
    requires !target.NoTarget?
  {
    match target
    case PropertyTarget(e) => e.member.propertyType
    case FieldTarget(e) => e.member.fieldType
  }

  /** The lookup of `name` on an instance of `t`. A successful lookup lands on a slot of the
      instance that belongs to a member of that name, whose declared type is the target's. */
  function Locate(t: TypeInfo, name: Option<string>): (target: Target)
    ensures !target.NoTarget? ==>
      && IsLoc(t, LocOf(target))
      && name == Some(NameAt(t, LocOf(target)))
      && TargetType(target) == DeclaredType(t, LocOf(target))
  {
    AccessorKeepsExactly(t);
    Resolve(Accessor(t), name)
  }

  /** The lookup returns the first property of that name; it looks at the fields only when
      no property has the name, and finds nothing when neither list has it. */
  lemma LocateFindsFirstMatch(t: TypeInfo, name: string)
    ensures var props := Accessor(t).properties;
      forall k: nat :: FirstNamedAt(props, PropertyName, k, name) ==> Locate(t, Some(name)) == PropertyTarget(props[k])
    ensures var props, fields := Accessor(t).properties, Accessor(t).fields;
      (forall e :: e in props ==> e.member.name != name) ==>
        forall k: nat :: FirstNamedAt(fields, FieldName, k, name) ==> Locate(t, Some(name)) == FieldTarget(fields[k])
    ensures var props, fields := Accessor(t).properties, Accessor(t).fields;
      (forall e :: e in props ==> e.member.name != name) && (forall e :: e in fields ==> e.member.name != name) ==>
        Locate(t, Some(name)).NoTarget?
    ensures Locate(t, None).NoTarget?
  {
  }

  /** `GetProperty`: the value of the member the lookup lands on; `null` when there is none. */
  function Get(t: TypeInfo, s: Slots, name: Option<string>): Value
    requires Fits(t, s)
  {
    var target := Locate(t, name);
    if target.NoTarget? then Null else s[LocOf(target)]
  }

  /** `SetProperty`: convert `v` for the member the lookup lands on and store it there; a
      name that matches nothing leaves the instance as it is. */
  function Set(t: TypeInfo, s: Slots, name: Option<string>, v: Value): Result<Slots, Error>
    requires Fits(t, s)
  {
    var target := Locate(t, name);
    if target.NoTarget? then Success(s)
    else
      match Convert(target, v)
      case Success(x) => Success(s[LocOf(target) := x])
      case Failure(e) => Failure(e)
  }

  /** `GetProperty` of a name no member has, or of a null name, is `null`. */
  lemma GetUnknownNameIsNull(t: TypeInfo, s: Slots, name: Option<string>)
    requires Fits(t, s)
    requires name.None? ||
      ((forall e :: e in Accessor(t).properties ==> e.member.name != name.value) &&
       (forall e :: e in Accessor(t).fields ==> e.member.name != name.value))
    ensures Get(t, s, name) == Null
  {
  }

  /** `SetProperty` with a name no member has, or a null name, changes nothing and raises nothing. */
  lemma SetUnknownNameIsNoOp(t: TypeInfo, s: Slots, name: Option<string>, v: Value)
    requires Fits(t, s)
    requires name.None? ||
      ((forall e :: e in Accessor(t).properties ==> e.member.name != name.value) &&
       (forall e :: e in Accessor(t).fields ==> e.member.name != name.value))
    ensures Set(t, s, name, v) == Success(s)
  {
  }

  /** `SetProperty` writes exactly the slot `GetProperty` reads: it fails exactly when the value
      does not convert to that member's type, and otherwise the member afterwards reads as the
      converted value while every other slot keeps its value. */
  lemma SetWritesOnlyResolvedMember(t: TypeInfo, s: Slots, name: Option<string>, v: Value)
    requires Fits(t, s)
    requires !Locate(t, name).NoTarget?
    ensures var target := Locate(t, name);
      && (Set(t, s, name, v).Failure? <==> Convert(target, v).Failure?)
      && (Set(t, s, name, v).Success? ==>
            && Fits(t, Set(t, s, name, v).value)
            && Get(t, Set(t, s, name, v).value, name) == Convert(target, v).value
            && forall loc :: loc in s && loc != LocOf(target) ==> Set(t, s, name, v).value[loc] == s[loc])
  {
  }

  /** A store that succeeds leaves every slot holding a value of its declared type. */
  lemma SetPreservesWellTyped(t: TypeInfo, s: Slots, name: Option<string>, v: Value)
    requires WellTyped(t, s)
    ensures Set(t, s, name, v).Success? ==> WellTyped(t, Set(t, s, name, v).value)
  {
  }

  /** A value of the member's declared type is stored as it is; `null` into a value-typed member
      fails on a property and stores the default on a field. */
  lemma SetConvertsLikeTheRuntime(t: TypeInfo, s: Slots, name: Option<string>, v: Value)
    requires Fits(t, s)
    requires !Locate(t, name).NoTarget?
    ensures var target := Locate(t, name);
      && (HasType(v, DeclaredType(t, LocOf(target))) ==> Set(t, s, name, v) == Success(s[LocOf(target) := v]))
      && (v.Null? && IsValueType(DeclaredType(t, LocOf(target))) ==>
            if target.PropertyTarget? then Set(t, s, name, v) == Failure(NullReference)
            else Set(t, s, name, v) == Success(s[LocOf(target) := DefaultOf(DeclaredType(t, LocOf(target)))]))
  {
  }
}
