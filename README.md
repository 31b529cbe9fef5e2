# ObjectExtensions: member access and patching by name

This project models the reflection-driven helpers in `ObjectExtensions` (yufeih/Nine.Common, C#), and proves properties of that model. The helpers read, write, copy, merge and compare the members of plain record-like objects by name.

- **Member table.** `Accessor<T>` builds a static, per-type table. It holds every property with a public getter and a public setter, then every public field. For each, the type's own declarations come first, followed by each base type's, most derived first.
- **Lookup.** Every operation finds a member the same way. It scans the properties, then the fields, and stops at the first whose name equals the given name. A name that matches nothing is silently ignored.
- **Operations.**
  - `GetProperty` and `SetProperty` read and write one member.
  - The four `With` overloads clone the target with `MemberwiseClone` and copy named members into the clone. The copied values come from a `change` object or, for the dictionary overload, from the dictionary's values.
  - The two `Merge` overloads copy every member, or every member a predicate accepts, from `change` into the target itself.
  - `Delta` lists member names by comparing two objects.

Modules, in dependency order:

- `Wrappers` (`wrappers.dfy`): `Option`, `Result`, `Outcome`.
- `Reflection` (`reflection.dfy`): runtime types and values, the declared members of a type, its base-type chain, and `GetAllProperties`/`GetAllFields`. The imperative walk is `GetAllMembers`. Its specification is `Walk`.
- `Accessors` (`accessors.dfy`): the `Accessor<T>` table, the first-match lookup `Resolve`, and the conversions a store goes through. The `(TValue)value` cast of a property setter is `CastTo`. The `FieldInfo.SetValue` rule is `ConvertForField`.
- `Instances` (`instances.dfy`): the state of an object is a map from member slots to values. `Get` and `Set` are the specification of `GetProperty` and `SetProperty`.
- `Patch` (`patch.dfy`): the specifications of the `With` overloads (`WithOne`, `WithNames`, `Applied`) and of `Merge` (`Merged`), with their properties.
- `Comparison` (`comparison.dfy`):
  - `Delta` as written (`DeltaNames`);
  - the comparison it evidently intends (`Changes`);
  - their properties.
- `ObjectExtensions` (`engine.dfy`): the class `Instance`, whose `values` the methods update in place. It holds the imperative operations, each proved against the specification functions above.
- `Scenarios` (`scenarios.dfy`): concrete objects, including the inputs behind the findings below.

An object's slots are indexed by position in the type's full member walk, not by name. A member that hides a base-type member of the same name with `new` therefore keeps its own slot. The lookup always lands on the first row of the name, as the source's `foreach` loops do. Virtual overrides are the exception; see "## Left out".

## Model

| member | source | states |
|---|---|---|
| Reflection.GetAllMembers | src/ObjectExtensions.cs:323-347 | the loop over `type`/`BaseType` yields exactly `Walk`: the start type's declared members, then each base type's in turn |
| Reflection.MostDerivedFirst | src/ObjectExtensions.cs:325-333 | a member earlier in the walk is declared at the same or a more derived level of the chain than any later one |
| Reflection.Level | src/ObjectExtensions.cs:325-333 | every member of the walk is declared by some type of the base-type chain |
| Accessors.Accessor | src/ObjectExtensions.cs:312-321 | each table row is the member at its slot in the full walk of properties or fields |
| Accessors.AccessorKeepsExactly | src/ObjectExtensions.cs:314-321 | a property is in the table if and only if its getter and setter both exist and are public; a field is there if and only if it is public; rows keep walk order, with strictly increasing slots |
| Accessors.SelectExactly | src/ObjectExtensions.cs:315-316 | the `where` filter keeps exactly the members satisfying the condition, at their own positions, in order |
| Accessors.FirstNamed | src/ObjectExtensions.cs:24-30 | the lookup returns the first row whose name matches, and nothing when no row matches |
| Accessors.Resolve | src/ObjectExtensions.cs:24-40 | the first property named `name`, else the first field named `name` (only when no property has it), else nothing; a null name matches no member |
| Accessors.CastTo | src/ObjectExtensions.cs:307 | the `(TValue)value` cast succeeds exactly on a value of the declared type; it fails with a null reference for null into a value type, otherwise with an invalid cast |
| Accessors.ConvertForField | src/ObjectExtensions.cs:58 | `FieldInfo.SetValue` accepts a value of the field type, or null, which stores the field type's default (0 or false for a value type, null otherwise); anything else raises an argument error |
| Instances.Locate | src/ObjectExtensions.cs:24-38 | a found member is a slot of the object, carries the looked-up name and the declared type of that slot |
| Instances.LocateFindsFirstMatch | src/ObjectExtensions.cs:24-38 | the lookup lands on the first property of the name, looks at fields only when no property has it, and finds nothing otherwise or for a null name |
| Instances.GetUnknownNameIsNull | src/ObjectExtensions.cs:40 | `GetProperty` of a name no member has, or of null, returns null |
| Instances.SetUnknownNameIsNoOp | src/ObjectExtensions.cs:43-62 | `SetProperty` of a name no member has, or of null, changes nothing and raises nothing |
| Instances.SetWritesOnlyResolvedMember | src/ObjectExtensions.cs:43-62 | `SetProperty` fails exactly when the value does not convert; on success `GetProperty` of the name returns the converted value and every other slot is unchanged |
| Instances.SetPreservesWellTyped | src/ObjectExtensions.cs:49 | a successful store leaves every slot holding a value of its declared type |
| Instances.SetConvertsLikeTheRuntime | src/ObjectExtensions.cs:49-58 | a well-typed value is stored unchanged; null into a value-typed property throws, and into a value-typed field stores the default |
| ObjectExtensions.Clone | src/ObjectExtensions.cs:8-14 | a fresh object of the same runtime type holding the same slot values |
| ObjectExtensions.MemberwiseClone | src/ObjectExtensions.cs:16-20 | null is returned as null; otherwise a fresh object equal slot for slot |
| ObjectExtensions.FindMember | src/ObjectExtensions.cs:24-38 | the two `foreach` loops with early return compute exactly `Resolve` |
| ObjectExtensions.GetProperty | src/ObjectExtensions.cs:22-41 | returns `Get` of the object's state: the found member's value, or null |
| ObjectExtensions.SetProperty | src/ObjectExtensions.cs:43-62 | the new state is `Set`'s on success; on failure it raises `Set`'s error and the object is unchanged; the object stays well typed |
| ObjectExtensions.CopyMember | src/ObjectExtensions.cs:68-84 | copies the one found member from `change` (`pi.Copy` / `fi.SetValue(fi.GetValue)`), which is `WithOne` |
| ObjectExtensions.CopyLeading | src/ObjectExtensions.cs:93-118 | the leading name is copied unless it is null; the state is `WithNames` of that one name |
| ObjectExtensions.CopyEach | src/ObjectExtensions.cs:120-145 | the loop over the names copies each in order: the state is `WithNames` of the names on top of the state before |
| ObjectExtensions.With | src/ObjectExtensions.cs:64-87 | a fresh, well-typed clone whose state is `WithOne` of the target's; target and change are not modified |
| ObjectExtensions.WithParams | src/ObjectExtensions.cs:89-148 | a fresh clone whose state is `WithNames` of the leading name followed by the others, in order |
| ObjectExtensions.WithEnumerable | src/ObjectExtensions.cs:150-182 | a fresh clone whose state is `WithNames` of the names, in order |
| ObjectExtensions.WithDictionary | src/ObjectExtensions.cs:184-218 | a null or empty dictionary returns the target itself; otherwise it throws exactly when some key lands on a member its value does not convert to, and else returns a fresh clone whose state is `Applied`, whatever order the keys are visited in |
| ObjectExtensions.PropertyRowStep | src/ObjectExtensions.cs:241-247 | visiting one property row copies its slot exactly when the predicate accepts it |
| ObjectExtensions.FieldRowStep | src/ObjectExtensions.cs:249-255 | visiting one field row copies its slot exactly when the predicate accepts it |
| ObjectExtensions.AllRowsMerged | src/ObjectExtensions.cs:241-255 | after both loops, the copied slots are exactly the accepted table members: the state is `Merged` |
| ObjectExtensions.MergeWhere | src/ObjectExtensions.cs:237-258 | returns the target; the same object is left unchanged; otherwise the target's new state is `Merged` with the predicate |
| ObjectExtensions.Merge | src/ObjectExtensions.cs:220-235 | returns the target; the same object is left unchanged; otherwise the new state is `Merged` accepting every member |
| ObjectExtensions.Delta | src/ObjectExtensions.cs:260-280 | nothing for the same object; otherwise, as written, the names of the property rows whose values are EQUAL in both objects, once per row and in table order; a name is listed if and only if some property of that name has equal values |
| Patch.WithOneCopiesOnlyNamedMember | src/ObjectExtensions.cs:64-87 | after `With`, the named member reads as in `change` and every other name reads as in the target; an unmatched name gives the target's state |
| Patch.WithNamesCopiesNamedSlots | src/ObjectExtensions.cs:120-145 | each slot holds `change`'s value if some listed name lands on it, and the target's otherwise |
| Patch.WithNamesReadsListedFromChange | src/ObjectExtensions.cs:150-182 | a listed name reads as in `change`, and an unlisted one reads as in the target |
| Patch.WithOneOfNullIsIdentity | src/ObjectExtensions.cs:95 | a null name copies nothing |
| Patch.WithNamesSnoc | src/ObjectExtensions.cs:154-179 | one more name is the single-name copy on top of the copy of the earlier names |
| Patch.WithNamesAppend | src/ObjectExtensions.cs:89-148 | copying the names of `xs + ys` is copying `xs`, then `ys` on top, which is why the leading name and the `params` array compose |
| Patch.WithNamesSkipsUnmatched | src/ObjectExtensions.cs:154-179 | a name that matches no member, wherever it sits in the list, can be dropped without changing the result |
| Patch.WithParamsSkipsNullLeadingName | src/ObjectExtensions.cs:95 | a null leading name is skipped: the result is that of the remaining names |
| Patch.WithNamesPreservesWellTyped | src/ObjectExtensions.cs:89-182 | copying members between well-typed objects of one type keeps the clone well typed |
| Patch.SetFailsOnBadKey | src/ObjectExtensions.cs:194-213 | storing one dictionary entry throws exactly when its key lands on a member its value does not convert to |
| Patch.GoodKeyKeepsChangesClean | src/ObjectExtensions.cs:190-215 | an entry that stores without error does not make the set of visited entries fail |
| Patch.AppliedStep | src/ObjectExtensions.cs:190-215 | storing one more entry with `SetProperty` on top of the others gives `Applied` of all of them, so the enumeration order does not matter |
| Patch.AppliedReadsKeysFromChanges | src/ObjectExtensions.cs:184-218 | when nothing throws, each key that names a member reads as its converted value, and every other name reads as in the target |
| Patch.AppliedIgnoresUnknownKeys | src/ObjectExtensions.cs:204-214 | a key that names no member does not change the result |
| Patch.FailureIgnoresUnknownKeys | src/ObjectExtensions.cs:204-214 | a key that names no member does not decide whether the call throws |
| Patch.AppliedPreservesWellTyped | src/ObjectExtensions.cs:198-210 | the patched clone is well typed |
| Patch.MergeCopiesEveryMember | src/ObjectExtensions.cs:220-235 | after `Merge`, every name reads as in `change` |
| Patch.MergeCopiesAcceptedMembers | src/ObjectExtensions.cs:237-258 | after a predicate `Merge`, a name whose member the predicate accepts reads as in `change`, and one it rejects reads as in the target |
| Patch.MergeSelfIsIdentity | src/ObjectExtensions.cs:222 | merging a state into itself changes nothing |
| Patch.MergePreservesWellTyped | src/ObjectExtensions.cs:224-232 | merging keeps the target well typed |
| Patch.LocatedMembersAreInTable | src/ObjectExtensions.cs:24-38 | whatever a name finds is a row of the table, so `Merge` (which visits every row) reaches it |
| Comparison.PropertyNames | src/ObjectExtensions.cs:264-270 | the property loop lists a name exactly when some row of that name has values that are equal or differ, as selected, in the two states (order and repetition: `PropertyNamesAreSelected`) |
| Comparison.FieldNames | src/ObjectExtensions.cs:272-279 | the field loop lists a name exactly when some field row of that name has differing values in the two states it compares (order and repetition: `FieldNamesAreSelected`) |
| Comparison.PropertyNamesAreSelected | src/ObjectExtensions.cs:264-270 | the property loop yields, once per row and in row order, the name of each row that passes `Compare` (or its negation) |
| Comparison.FieldNamesAreSelected | src/ObjectExtensions.cs:272-279 | the field loop yields, once per row and in row order, the name of each row whose two values differ |
| Comparison.SelectedPropertyRows | src/ObjectExtensions.cs:264-270 | the rows kept are exactly those whose values are equal (or differ, as selected), each with its position in the table, in strictly increasing order |
| Comparison.SelectedFieldRows | src/ObjectExtensions.cs:272-279 | the field rows kept are exactly those whose values differ, each with its position in the table, in strictly increasing order |
| Comparison.DeltaInTableOrder | src/ObjectExtensions.cs:260-280 | as written, `Delta` is the names of the equal-valued property rows, once per row, in table order |
| Comparison.ChangesInTableOrder | src/ObjectExtensions.cs:260-280 | the corrected comparison is the names of the differing property rows, then of the differing field rows, once per row, each in table order |
| Comparison.DeltaYieldsEqualProperties | src/ObjectExtensions.cs:260-280 | as written, `Delta` lists exactly the properties whose values are equal, and no field |
| Comparison.SelfComparedFieldsYieldNothing | src/ObjectExtensions.cs:274-275 | comparing a field with itself never lists it |
| Comparison.EqualStatesYieldEveryProperty | src/ObjectExtensions.cs:264-270 | as written, comparing equal states lists every property of the table |
| Comparison.ChangesYieldDifferingMembers | src/ObjectExtensions.cs:260-280 | the corrected comparison lists exactly the properties and fields whose values differ |
| Comparison.ChangesOfEqualStatesAreEmpty | src/ObjectExtensions.cs:260-280 | the corrected comparison of equal states is empty |
| Comparison.ChangesAgreeWithGet | src/ObjectExtensions.cs:260-280 | without public fields and with distinct names, the corrected comparison lists a name if and only if `GetProperty` of it differs |
| Scenarios.WithCopiesY | src/ObjectExtensions.cs:64-87 | copying "Y" from (1, 5) into (1, 2) gives (1, 5) |
| Scenarios.WithUnknownNameCopiesNothing | src/ObjectExtensions.cs:86 | a name that is no member copies nothing |
| Scenarios.MergeOnlyTimeout | src/ObjectExtensions.cs:237-258 | a predicate accepting only "timeout" copies that member alone; the plain merge copies both |
| Scenarios.ReadOnlyPropertyIsNotCopied | src/ObjectExtensions.cs:316 | a property without a setter is not in the table, so `With` does not copy it |
| Scenarios.NullIntoIntPropertyThrows | src/ObjectExtensions.cs:49 | null into an `int` property throws a null reference |
| Scenarios.NullIntoIntFieldStoresZero | src/ObjectExtensions.cs:58 | null into an `int` field stores 0 |
| Scenarios.DeltaReportsUnchangedProperty | src/ObjectExtensions.cs:266 | as written, `Delta` of (1, 2) and (1, 5) is ["X"], whereas the member that changed is "Y" |
| Scenarios.DeltaMissesChangedField | src/ObjectExtensions.cs:274-275 | as written, `Delta` does not report a public field that changed from 1 to 2 |

## Left out

- Reflection mechanics are not modelled: `CreateDelegate`, `MakeGenericType`, `Activator.CreateInstance` and the static constructor. Each table row is the member itself, and its getter and setter read and write the member's slot.
- Every property is modelled as an auto-property: its getter returns the slot and its setter stores into it. Getters and setters with side effects or computed values are not modelled.
- Static and `const` members are not modelled as such. The model keeps each as an ordinary per-object row and slot, which breaks three of its contracts:
  - **Public `const` field.** It is in `Fields`, and `FieldInfo.SetValue` on it throws `FieldAccessException`. The plain `Merge` of a type with such a field therefore throws at line 231, after the property loop at lines 224-227 has already overwritten the target, a partial in-place update. `SetProperty`, `With` and the dictionary `With` throw when a name lands on it. The model stores into its slot instead.
  - **Public static field.** It is one storage location shared by every object. A `SetProperty`, or a dictionary `With` that stores into it, changes what the target and every other object read, although the model promises the target is untouched.
  - **Public static read/write property.** It passes the filter at line 316, but `CreateDelegate` at lines 302-303 cannot bind a parameterless static accessor to `Func<T, TValue>`. As with indexers, the `Accessor<T>` initialiser throws and every operation on `T` throws.
- The runtime type of an object is the `T` of the call. A subclass instance passed as a base-class `T` (which the source handles through `Accessor<T>`, not the runtime type) is not modelled. Neither are value-type `T` and boxing: objects are references.
- The methods other than `MemberwiseClone` require non-null objects. In the source, a null `target` or `change` throws a null reference only once a member of it is read or written. The null cases that complete are not modelled:
  - `GetProperty` and `SetProperty` on a null target with a name no member has (lines 24-40 and 45-61): null is returned, or nothing is done.
  - `Merge(x, x)` with both arguments null (lines 222 and 239): null is returned.
  - `Delta(x, x)` with both arguments null (line 262): nothing is yielded.
  - The dictionary `With` on a null target with a null or empty dictionary (line 186): null is returned.
  - `With(target, null, name)` with a name no member has (lines 68-86): the clone is returned.
- A null `properties` array or enumerable is not modelled.
- Virtual property overrides are not modelled. The rows of an overridden base property and of its override read and write one slot each. In the source, the delegates built at lines 302-303 for the base accessors dispatch virtually to the override, so both rows share the override's storage. For example, take `Base { virtual int X }` and `Derived : Base { override int X }`, and set `X` to 5 on one of two fresh `Derived` objects. The source's `Delta` of the two then yields nothing, while the model's yields "X" (its base row reads a slot still 0 in both). `Merge`, `GetProperty` and `SetProperty` differ in the same way.
- Indexers are not modelled. A public read/write indexer passes the filter at line 316, but `CreateDelegate` at lines 302-303 cannot build a two-argument accessor for it. The `Accessor<T>` initialiser then throws, and every operation on such a `T` throws. The model instead keeps the indexer as an ordinary row named "Item".
- `Delta` is a lazy iterator that reads the objects while it is enumerated. The model computes the whole sequence from the state at the call.
- The merge predicate sees only the member's descriptor: its name, its declared type, and for a property, whether its accessors exist and are public. The source hands it the real `MemberInfo`, with its declaring type and attributes. For example, a property hidden with `new` and the base property it hides give the predicate the same value, so no predicate in the model can accept one and reject the other.
- `Equals` is value equality for integers, booleans and strings, and reference identity for objects. User-defined `Equals` overrides are not modelled.
- The thread safety of the static `Accessor<T>` initialisation is not modelled.
- The model has exactly four member types: `int`, `bool`, `string` and `object`. No other type of the source is modelled, notably:
  - **`Nullable<T>` members (`int?` and so on).** They accept null. The cast at line 307 turns null into an empty `int?`, and `FieldInfo.SetValue` at line 58 stores null. In the model, only `string` and `object` members accept null as such.
  - **The other numeric types (`long`, `double`, `byte`, ...).** The cast at line 307 unboxes, and unboxing demands the exact type: a boxed `int` stored into a `long` property throws `InvalidCastException`. The model has one numeric value kind, so it has no such mismatch.
- ObjectExtensions.WithDictionary: visits the keys in an unspecified order. When several keys fail, the model does not say which error is raised, only that one is.
- ObjectExtensions.Delta: its contract is the as-written behaviour: the names of the equal-valued property rows, once per row, in table order. The intended behaviour is stated about `Comparison.Changes`.

## Findings

| source | as written | input that shows it | evidently intended | confidence | as-written member | corrected member |
|---|---|---|---|---|---|---|
| src/ObjectExtensions.cs:266 | a property name is yielded when `Compare` returns true, that is when the two values are EQUAL | `Point` with `X`, `Y`: target (1, 2), comparand (1, 5) gives ["X"] | yield the names whose values differ: ["Y"] | high, not executed | Scenarios.DeltaReportsUnchangedProperty | Comparison.ChangesYieldDifferingMembers |
| src/ObjectExtensions.cs:274-275 | the field loop compares `fi.GetValue(target)` with `fi.GetValue(target)`, so no field is ever yielded | a public field `Count`: target 1, comparand 2 gives [] | compare `target` with `comparand`: ["Count"] | high, not executed | Scenarios.DeltaMissesChangedField | Comparison.ChangesYieldDifferingMembers |
