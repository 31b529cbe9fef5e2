/** What the engine sees of a type through reflection: declared properties and fields,
    and the chain of base types. */
module Reflection {
  import opened Wrappers

  /** The declared type of a member, as far as the casts of the engine tell types apart. */
  datatype ClrType = Int32Type | BooleanType | StringType | ObjectType

  /** A member value as the engine handles it, boxed in an `object`. Structural equality
      stands for `object.Equals` on boxed numbers, booleans and strings, and for reference
      identity on other objects. */
  datatype Value = Null | Int32(i: int) | Boolean(b: bool) | Str(s: string) | Reference(id: nat)

  predicate IsValueType(t: ClrType)
  {
    t == Int32Type || t == BooleanType
  }

  /** `v` can be stored, unchanged, in a member declared as `t`. */
  predicate HasType(v: Value, t: ClrType)
  {
    match t
    case Int32Type => v.Int32?
    case BooleanType => v.Boolean?
    case StringType => v.Null? || v.Str?
    case ObjectType => true
  }

  /** `default(t)`: the value a fresh member of type `t` holds. */
  function DefaultOf(t: ClrType): (v: Value)
    ensures HasType(v, t)
    ensures v.Null? <==> !IsValueType(t)
  {
    match t
    case Int32Type => Int32(0)
    case BooleanType => Boolean(false)
    case StringType => Null
    case ObjectType => Null
  }

  /** A property accessor (`get` or `set` method). */
  datatype MethodInfo = MethodInfo(isPublic: bool)

  /** `PropertyInfo`: `getMethod`/`setMethod` are `None` when the property has no such accessor. */
  datatype PropertyInfo = PropertyInfo(
    name: string,
    propertyType: ClrType,
    getMethod: Option<MethodInfo>,
    setMethod: Option<MethodInfo>)

  datatype FieldInfo = FieldInfo(name: string, fieldType: ClrType, isPublic: bool)

  /** `MemberInfo`, the argument handed to a merge predicate. */
  datatype MemberInfo = PropertyMember(property: PropertyInfo) | FieldMember(field: FieldInfo)
  {
    function Name(): string
    {
      match this
      case PropertyMember(p) => p.name
      case FieldMember(f) => f.name
    }
  }

  /** A type: its own declared members, in declaration order, and its base type
      (`None` above `object`). */
  datatype TypeInfo = TypeInfo(
    name: string,
    declaredProperties: seq<PropertyInfo>,
    declaredFields: seq<FieldInfo>,
    baseType: Option<TypeInfo>)

  function DeclaredProperties(t: TypeInfo): seq<PropertyInfo>
  {
    t.declaredProperties
  }

  function DeclaredFields(t: TypeInfo): seq<FieldInfo>
  {
    t.declaredFields
  }

  /** The types visited by following `BaseType` from `start`. */
  function Chain(start: Option<TypeInfo>): (chain: seq<TypeInfo>)
    ensures start.Some? ==> |chain| > 0 && chain[0] == start.value
  {
    match start
    case None => []
    case Some(t) => [t] + Chain(t.baseType)
  }

  /** The members `declared` yields for each type of the chain, the starting type's own first. */
  function Walk<M>(start: Option<TypeInfo>, declared: TypeInfo -> seq<M>): seq<M>
  {
    match start
    case None => []
    case Some(t) => declared(t) + Walk(t.baseType, declared)
  }

  /** `GetAllProperties(typeof(T))` */
  function AllProperties(start: Option<TypeInfo>): seq<PropertyInfo>
  {
    Walk(start, DeclaredProperties)
  }

  /** `GetAllFields(typeof(T))` */
  function AllFields(start: Option<TypeInfo>): seq<FieldInfo>
  {
    Walk(start, DeclaredFields)
  }

  /** The position in `Chain(start)` of the type that declares the `i`-th walked member. */
  function Level<M(==)>(start: Option<TypeInfo>, declared: TypeInfo -> seq<M>, i: nat): (level: nat)
    requires i < |Walk(start, declared)|
    ensures level < |Chain(start)|
    ensures Walk(start, declared)[i] in declared(Chain(start)[level])
  {
    var t := start.value;
    if i < |declared(t)| then 0 else 1 + Level(t.baseType, declared, i - |declared(t)|)
  }

  /** The walk lists the starting type's own members first, then those of each successive
      base type: a member never comes after a member declared further up the chain. */
  lemma {:induction false} MostDerivedFirst<M>(start: Option<TypeInfo>, declared: TypeInfo -> seq<M>, i: nat, j: nat)
    requires i <= j < |Walk(start, declared)|
    ensures Level(start, declared, i) <= Level(start, declared, j)
  {
    var t := start.value;
    if i >= |declared(t)| {
      MostDerivedFirst(t.baseType, declared, i - |declared(t)|, j - |declared(t)|);
    }
  }

  /** `GetAllProperties`/`GetAllFields`: follow `BaseType` until it is null, yielding each
      type's declared members on the way. */
  method GetAllMembers<M>(start: Option<TypeInfo>, declared: TypeInfo -> seq<M>) returns (all: seq<M>)
    ensures all == Walk(start, declared)
  {
    all := [];
    var current := start;
    while current.Some?
      invariant all + Walk(current, declared) == Walk(start, declared)
      decreases current
    {
      var ti := current.value;
      all := all + declared(ti);
      current := ti.baseType;
    }
  }
}
