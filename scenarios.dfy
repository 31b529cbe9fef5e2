/** Concrete objects that pin the model down, including the inputs that show the two
    `Delta` discrepancies. */
module Scenarios {
  import opened Wrappers
  import opened Reflection
  import opened Accessors
  import opened Instances
  import opened Patch
  import opened Comparison

  /** `int` property with a public getter and setter. */
  function AutoProperty(name: string): PropertyInfo
  {
    PropertyInfo(name, Int32Type, Some(MethodInfo(true)), Some(MethodInfo(true)))
  }

  /** `class Point { public int X { get; set; } public int Y { get; set; } }` */
  function Point(): TypeInfo
  {
    TypeInfo("Point", [AutoProperty("X"), AutoProperty("Y")], [], None)
  }

  function PointAt(x: int, y: int): Slots
  {
    map[PropertySlot(0) := Int32(x), PropertySlot(1) := Int32(y)]
  }

  lemma PointTable()
    ensures Accessor(Point()).properties == [Entry(AutoProperty("X"), 0), Entry(AutoProperty("Y"), 1)]
    ensures Accessor(Point()).fields == []
  {
    assert AllProperties(Some(Point())) == [AutoProperty("X"), AutoProperty("Y")];
    assert AllFields(Some(Point())) == [];
  }

  lemma PointFits(x: int, y: int)
    ensures WellTyped(Point(), PointAt(x, y))
  {
    assert AllProperties(Some(Point())) == [AutoProperty("X"), AutoProperty("Y")];
    assert AllFields(Some(Point())) == [];
  }

  /** Copying only "Y" from (1, 5) into (1, 2) gives (1, 5). */
  lemma WithCopiesY()
    ensures WithOne(Point(), PointAt(1, 2), PointAt(1, 5), Some("Y")) == PointAt(1, 5)
  {
    PointTable();
    PointFits(1, 2);
    assert Locate(Point(), Some("Y")) == PropertyTarget(Entry(AutoProperty("Y"), 1));
    assert PointAt(1, 2)[PropertySlot(1) := Int32(5)] == PointAt(1, 5);
  }

  /** A name that is no member copies nothing. */
  lemma WithUnknownNameCopiesNothing()
    ensures WithOne(Point(), PointAt(1, 2), PointAt(1, 5), Some("Z")) == PointAt(1, 2)
  {
    PointTable();
    PointFits(1, 2);
    assert Locate(Point(), Some("Z")) == NoTarget;
  }

  /** Line 266 keeps the names whose values are EQUAL: between (1, 2) and (1, 5) the
      as-written `Delta` yields "X", where the member that changed is "Y". */
  lemma DeltaReportsUnchangedProperty()
    ensures DeltaNames(Point(), PointAt(1, 2), PointAt(1, 5)) == ["X"]
    ensures Changes(Point(), PointAt(1, 2), PointAt(1, 5)) == ["Y"]
  {
    PointTable();
    PointFits(1, 2);
    PointFits(1, 5);
  }

  /** `class Counter { public int Count; }` */
  function Counter(): TypeInfo
  {
    TypeInfo("Counter", [], [FieldInfo("Count", Int32Type, true)], None)
  }

  function CounterAt(n: int): Slots
  {
    map[FieldSlot(0) := Int32(n)]
  }

  /** Lines 274-275 compare `target` with itself: a public field that changed from 1 to 2 is
      never reported. */
  lemma DeltaMissesChangedField()
    ensures DeltaNames(Counter(), CounterAt(1), CounterAt(2)) == []
    ensures Changes(Counter(), CounterAt(1), CounterAt(2)) == ["Count"]
  {
    assert AllProperties(Some(Counter())) == [];
    assert AllFields(Some(Counter())) == [FieldInfo("Count", Int32Type, true)];
    assert Accessor(Counter()).fields == [Entry(FieldInfo("Count", Int32Type, true), 0)];
  }

  /** `class Config { public int timeout { get; set; } public int retries { get; set; } }` */
  function Config(): TypeInfo
  {
    TypeInfo("Config", [AutoProperty("timeout"), AutoProperty("retries")], [], None)
  }

  function ConfigAt(timeout: int, retries: int): Slots
  {
    map[PropertySlot(0) := Int32(timeout), PropertySlot(1) := Int32(retries)]
  }

  function IsTimeout(m: MemberInfo): bool
  {
    m.Name() == "timeout"
  }

  /** Merging with a predicate copies the accepted member and leaves the others. */
  lemma MergeOnlyTimeout()
    ensures Merged(Config(), ConfigAt(5, 1), ConfigAt(9, 7), IsTimeout) == ConfigAt(9, 1)
    ensures Merged(Config(), ConfigAt(5, 1), ConfigAt(9, 7), AnyMember) == ConfigAt(9, 7)
  {
    assert AllProperties(Some(Config())) == [AutoProperty("timeout"), AutoProperty("retries")];
    assert AllFields(Some(Config())) == [];
  }

  /** A property without a public setter is not in the table: `With` cannot copy it. */
  lemma ReadOnlyPropertyIsNotCopied()
    ensures var t := TypeInfo("Id", [PropertyInfo("Key", Int32Type, Some(MethodInfo(true)), None)], [], None);
      && Accessor(t).properties == []
      && WithOne(t, map[PropertySlot(0) := Int32(1)], map[PropertySlot(0) := Int32(2)], Some("Key"))
           == map[PropertySlot(0) := Int32(1)]
  {
    var t := TypeInfo("Id", [PropertyInfo("Key", Int32Type, Some(MethodInfo(true)), None)], [], None);
    assert AllProperties(Some(t)) == [PropertyInfo("Key", Int32Type, Some(MethodInfo(true)), None)];
    assert AllFields(Some(t)) == [];
  }

  /** Null into an `int` property throws. */
  lemma NullIntoIntPropertyThrows()
    ensures Set(Point(), PointAt(1, 2), Some("X"), Null) == Failure(NullReference)
  {
    PointTable();
    PointFits(1, 2);
    assert Locate(Point(), Some("X")) == PropertyTarget(Entry(AutoProperty("X"), 0));
  }

  /** Null into an `int` field stores 0. */
  lemma NullIntoIntFieldStoresZero()
    ensures Set(Counter(), CounterAt(3), Some("Count"), Null) == Success(CounterAt(0))
  {
    assert AllProperties(Some(Counter())) == [];
    assert AllFields(Some(Counter())) == [FieldInfo("Count", Int32Type, true)];
    assert Accessor(Counter()).fields == [Entry(FieldInfo("Count", Int32Type, true), 0)];
    assert Locate(Counter(), Some("Count")) == FieldTarget(Entry(FieldInfo("Count", Int32Type, true), 0));
    assert Convert(Locate(Counter(), Some("Count")), Null) == Success(Int32(0));
    assert CounterAt(3)[FieldSlot(0) := Int32(0)] == CounterAt(0);
  }
}
