/** The meaning of the patch operations on instance state: the `With` overloads (copy named
    members into a clone) and `Merge` (copy every accepted member into the target). */
module Patch {
  import opened Wrappers
  import opened Reflection
  import opened Accessors
  import opened Instances

  /** Single-name `With`, applied to the clone `s`: copy the member `name` lands on from `c`
      (`pi.Copy(change, result)` or `fi.SetValue(result, fi.GetValue(change))`). */
  function WithOne(t: TypeInfo, s: Slots, c: Slots, name: Option<string>): Slots
    requires Fits(t, s) && Fits(t, c)
  {
    var target := Locate(t, name);
    if target.NoTarget? then s else s[LocOf(target) := c[LocOf(target)]]
  }

  /** Two lookups that land on the same slot were lookups of the same name. */
  lemma SameSlotSameName(t: TypeInfo, m: Option<string>, n: Option<string>)
    requires !Locate(t, m).NoTarget? && !Locate(t, n).NoTarget?
    requires LocOf(Locate(t, m)) == LocOf(Locate(t, n))
    ensures m == n
  {
  }

  /** Single-name `With`: the named member reads as in `change`, every other name reads as in
      `target`, and a name that matches nothing yields an unchanged copy. */
  lemma WithOneCopiesOnlyNamedMember(t: TypeInfo, s: Slots, c: Slots, name: Option<string>)
    requires Fits(t, s) && Fits(t, c)
    ensures Fits(t, WithOne(t, s, c, name))
    ensures Get(t, WithOne(t, s, c, name), name) == Get(t, c, name)
    ensures forall m :: m != name ==> Get(t, WithOne(t, s, c, name), m) == Get(t, s, m)
    ensures Locate(t, name).NoTarget? ==> WithOne(t, s, c, name) == s
  {
    var r := WithOne(t, s, c, name);
    forall m | m != name
      ensures Get(t, r, m) == Get(t, s, m)
    {
      if !Locate(t, m).NoTarget? && !Locate(t, name).NoTarget? && LocOf(Locate(t, m)) == LocOf(Locate(t, name)) {
        SameSlotSameName(t, m, name);
      }
    }
  }

  /** The multi-name `With` overloads: the single-name copy, for each listed name in order. */
  function WithNames(t: TypeInfo, s: Slots, c: Slots, names: seq<Option<string>>): (r: Slots)
    requires Fits(t, s) && Fits(t, c)
    ensures Fits(t, r)
  {
    if |names| == 0 then s
    else WithOne(t, WithNames(t, s, c, names[..|names| - 1]), c, names[|names| - 1])
  }

  /** Some name of `names` lands on slot `loc`. */
  ghost predicate Named(t: TypeInfo, names: seq<Option<string>>, loc: Loc)
  {
    exists j :: 0 <= j < |names| && !Locate(t, names[j]).NoTarget? && LocOf(Locate(t, names[j])) == loc
  }

  /** After the multi-name `With`, a slot some listed name lands on holds `change`'s value;
      every other slot holds `target`'s. */
  lemma {:induction false} WithNamesCopiesNamedSlots(t: TypeInfo, s: Slots, c: Slots, names: seq<Option<string>>)
    requires Fits(t, s) && Fits(t, c)
    ensures forall loc :: loc in s ==>
      WithNames(t, s, c, names)[loc] == if Named(t, names, loc) then c[loc] else s[loc]
  {
    if |names| > 0 {
      var init, last := names[..|names| - 1], names[|names| - 1];
      WithNamesCopiesNamedSlots(t, s, c, init);
      forall loc | loc in s
        ensures WithNames(t, s, c, names)[loc] == if Named(t, names, loc) then c[loc] else s[loc]
      {
        if Named(t, init, loc) {
          var j :| 0 <= j < |init| && !Locate(t, init[j]).NoTarget? && LocOf(Locate(t, init[j])) == loc;
          assert names[j] == init[j];
        }
        if !Locate(t, last).NoTarget? && LocOf(Locate(t, last)) == loc {
          assert names[|names| - 1] == last;
        }
        if Named(t, names, loc) {
          var j :| 0 <= j < |names| && !Locate(t, names[j]).NoTarget? && LocOf(Locate(t, names[j])) == loc;
          if j < |names| - 1 {
            assert init[j] == names[j];
          }
        }
      }
    }
  }

  /** Multi-name `With`: a listed name reads as in `change`, an unlisted one as in `target`. */
  lemma WithNamesReadsListedFromChange(t: TypeInfo, s: Slots, c: Slots, names: seq<Option<string>>)
    requires Fits(t, s) && Fits(t, c)
    ensures forall m :: Get(t, WithNames(t, s, c, names), m) == if m in names then Get(t, c, m) else Get(t, s, m)
  {
    WithNamesCopiesNamedSlots(t, s, c, names);
    forall m
      ensures Get(t, WithNames(t, s, c, names), m) == if m in names then Get(t, c, m) else Get(t, s, m)
    {
      var target := Locate(t, m);
      if !target.NoTarget? {
        if m in names {
          var j :| 0 <= j < |names| && names[j] == m;
          assert Named(t, names, LocOf(target));
        }
      }
    }
  }

  /** Slot maps of the same type that agree on every slot are equal. */
  lemma SlotsExtensional(t: TypeInfo, a: Slots, b: Slots)
    requires Fits(t, a) && Fits(t, b)
    requires forall loc :: loc in a ==> a[loc] == b[loc]
    ensures a == b
  {
  }

  /** A null name copies nothing. */
  lemma WithOneOfNullIsIdentity(t: TypeInfo, s: Slots, c: Slots)
    requires Fits(t, s) && Fits(t, c)
    ensures WithOne(t, s, c, None) == s
  {
    assert Locate(t, None).NoTarget?;
  }

  /** One more name: the multi-name copy is the single-name copy on top of the others. */
  lemma WithNamesSnoc(t: TypeInfo, s: Slots, c: Slots, names: seq<Option<string>>, n: Option<string>)
    requires Fits(t, s) && Fits(t, c)
    ensures WithNames(t, s, c, names + [n]) == WithOne(t, WithNames(t, s, c, names), c, n)
  {
    assert (names + [n])[..|names|] == names;
  }

  /** Copying the names of `xs + ys` is copying those of `xs`, then those of `ys` on top. */
  lemma {:induction false} WithNamesAppend(t: TypeInfo, s: Slots, c: Slots, xs: seq<Option<string>>, ys: seq<Option<string>>)
    requires Fits(t, s) && Fits(t, c)
    ensures WithNames(t, s, c, xs + ys) == WithNames(t, WithNames(t, s, c, xs), c, ys)
    decreases |ys|
  {
    if |ys| == 0 {
      assert xs + ys == xs;
    } else {
      var init, last := ys[..|ys| - 1], ys[|ys| - 1];
      WithNamesAppend(t, s, c, xs, init);
      assert xs + ys == (xs + init) + [last];
      assert ys == init + [last];
      WithNamesSnoc(t, s, c, xs + init, last);
      WithNamesSnoc(t, WithNames(t, s, c, xs), c, init, last);
    }
  }

  /** A listed name that matches nothing (a null name, an unknown name) is skipped: dropping
      it from the list gives the same copy. */
  lemma {:induction false} WithNamesSkipsUnmatched(t: TypeInfo, s: Slots, c: Slots, xs: seq<Option<string>>, n: Option<string>, ys: seq<Option<string>>)
    requires Fits(t, s) && Fits(t, c)
    requires Locate(t, n).NoTarget?
    ensures WithNames(t, s, c, xs + [n] + ys) == WithNames(t, s, c, xs + ys)
    decreases |ys|
  {
    if |ys| == 0 {
      assert xs + [n] + ys == xs + [n] && xs + ys == xs;
      WithNamesSnoc(t, s, c, xs, n);
    } else {
      var init, last := ys[..|ys| - 1], ys[|ys| - 1];
      WithNamesSkipsUnmatched(t, s, c, xs, n, init);
      assert xs + [n] + ys == (xs + [n] + init) + [last];
      assert xs + ys == (xs + init) + [last];
      WithNamesSnoc(t, s, c, xs + [n] + init, last);
      WithNamesSnoc(t, s, c, xs + init, last);
    }
  }

  /** The `params` overload's null test on its leading name changes nothing: a null leading
      name is skipped like any name that matches nothing. */
  lemma WithParamsSkipsNullLeadingName(t: TypeInfo, s: Slots, c: Slots, names: seq<Option<string>>)
    requires Fits(t, s) && Fits(t, c)
    ensures WithNames(t, s, c, [None] + names) == WithNames(t, s, c, names)
  {
    WithNamesSkipsUnmatched(t, s, c, [], None, names);
    assert [] + [None] + names == [None] + names;
    assert [] + names == names;
  }

  /** Key `n` of `changes` lands on a member and its value does not convert to that
      member's type: the dictionary `With` throws. */
  predicate BadKey(t: TypeInfo, changes: map<string, Value>, n: string)
  {
    n in changes && !Locate(t, Some(n)).NoTarget? && Convert(Locate(t, Some(n)), changes[n]).Failure?
  }

  ghost predicate ChangesFail(t: TypeInfo, changes: map<string, Value>)
  {
    exists n :: BadKey(t, changes, n)
  }

  /** Some key of `changes` lands on `loc`; that key is the name of the member stored there. */
  predicate KeyedAt(t: TypeInfo, changes: map<string, Value>, loc: Loc)
    requires IsLoc(t, loc)
  {
    var n := NameAt(t, loc);
    n in changes && !Locate(t, Some(n)).NoTarget? && LocOf(Locate(t, Some(n))) == loc
  }

  /** Dictionary `With`, applied to the clone `s`: every slot a key lands on holds the key's
      value, converted to the member's type; every other slot keeps its value. */
  function Applied(t: TypeInfo, s: Slots, changes: map<string, Value>): (r: Slots)
    requires Fits(t, s)
    ensures Fits(t, r)
  {
    map loc | loc in s ::
      if KeyedAt(t, changes, loc) && Convert(Locate(t, Some(NameAt(t, loc))), changes[NameAt(t, loc)]).Success?
      then Convert(Locate(t, Some(NameAt(t, loc))), changes[NameAt(t, loc)]).value
      else s[loc]
  }

  /** `SetProperty` of one key throws exactly when that key is a bad one. */
  lemma SetFailsOnBadKey(t: TypeInfo, s: Slots, changes: map<string, Value>, k: string)
    requires Fits(t, s)
    requires k in changes
    ensures Set(t, s, Some(k), changes[k]).Failure? <==> BadKey(t, changes, k)
  {
  }

  /** A key whose value converts, added to keys none of which is bad, adds no bad key. */
  lemma GoodKeyKeepsChangesClean(t: TypeInfo, changes: map<string, Value>, k: string, v: Value)
    requires k !in changes
    requires !ChangesFail(t, changes)
    requires !BadKey(t, changes[k := v], k)
    ensures !ChangesFail(t, changes[k := v])
  {
    var updated := changes[k := v];
    forall n
      ensures !BadKey(t, updated, n)
    {
      if n != k {
        assert !BadKey(t, changes, n);
      }
    }
  }

  /** No key yet: the clone is the target's copy. */
  lemma AppliedNothing(t: TypeInfo, s: Slots)
    requires Fits(t, s)
    ensures Applied(t, s, map[]) == s
  {
  }

  /** One more key, whose value converts: applying it with `SetProperty` after the others
      gives the state of applying all of them, whatever the order of the keys. */
  lemma AppliedStep(t: TypeInfo, s: Slots, changes: map<string, Value>, k: string, v: Value)
    requires Fits(t, s)
    requires k !in changes
    requires !BadKey(t, changes[k := v], k)
    ensures Set(t, Applied(t, s, changes), Some(k), v) == Success(Applied(t, s, changes[k := v]))
  {
    var before, after := Applied(t, s, changes), Applied(t, s, changes[k := v]);
    var target := Locate(t, Some(k));
    if !target.NoTarget? {
      forall loc | loc in s
        ensures before[LocOf(target) := Convert(target, v).value][loc] == after[loc]
      {
        if loc != LocOf(target) && NameAt(t, loc) == k {
          assert !KeyedAt(t, changes[k := v], loc);
        }
      }
      SlotsExtensional(t, before[LocOf(target) := Convert(target, v).value], after);
    } else {
      forall loc | loc in s
        ensures before[loc] == after[loc]
      {
        if NameAt(t, loc) == k {
          assert !KeyedAt(t, changes[k := v], loc);
        }
      }
      SlotsExtensional(t, before, after);
    }
  }

  /** Dictionary `With`: each key that names a member makes that member read as the key's
      (converted) value; every name that is not a key reads as in `target`. */
  lemma AppliedReadsKeysFromChanges(t: TypeInfo, s: Slots, changes: map<string, Value>)
    requires Fits(t, s)
    requires !ChangesFail(t, changes)
    ensures forall n :: n in changes && !Locate(t, Some(n)).NoTarget? ==>
      && Convert(Locate(t, Some(n)), changes[n]).Success?
      && Get(t, Applied(t, s, changes), Some(n)) == Convert(Locate(t, Some(n)), changes[n]).value
    ensures forall m: Option<string> :: (m.None? || m.value !in changes) ==> Get(t, Applied(t, s, changes), m) == Get(t, s, m)
  {
    forall n | n in changes && !Locate(t, Some(n)).NoTarget?
      ensures && Convert(Locate(t, Some(n)), changes[n]).Success?
              && Get(t, Applied(t, s, changes), Some(n)) == Convert(Locate(t, Some(n)), changes[n]).value
    {
      assert !BadKey(t, changes, n);
    }
  }

  /** Dictionary `With` ignores a key that names no member: removing it does not change the
      result. */
  lemma AppliedIgnoresUnknownKeys(t: TypeInfo, s: Slots, changes: map<string, Value>, k: string)
    requires Fits(t, s)
    requires Locate(t, Some(k)).NoTarget?
    ensures Applied(t, s, changes) == Applied(t, s, changes - {k})
  {
    var with, without := Applied(t, s, changes), Applied(t, s, changes - {k});
    forall loc | loc in s
      ensures with[loc] == without[loc]
    {
      if NameAt(t, loc) == k {
        assert !KeyedAt(t, changes, loc) && !KeyedAt(t, changes - {k}, loc);
      } else {
        assert KeyedAt(t, changes, loc) == KeyedAt(t, changes - {k}, loc);
      }
    }
    SlotsExtensional(t, with, without);
  }

  /** ...nor whether the call throws. */
  lemma FailureIgnoresUnknownKeys(t: TypeInfo, changes: map<string, Value>, k: string)
    requires Locate(t, Some(k)).NoTarget?
    ensures ChangesFail(t, changes) <==> ChangesFail(t, changes - {k})
  {
    if ChangesFail(t, changes) {
      var n :| BadKey(t, changes, n);
      assert BadKey(t, changes - {k}, n);
    }
    if ChangesFail(t, changes - {k}) {
      var n :| BadKey(t, changes - {k}, n);
      assert BadKey(t, changes, n);
    }
  }

  /** A dictionary `With` that does not throw leaves every slot holding a value of its type. */
  lemma AppliedPreservesWellTyped(t: TypeInfo, s: Slots, changes: map<string, Value>)
    requires WellTyped(t, s)
    ensures WellTyped(t, Applied(t, s, changes))
  {
    forall loc | loc in s && KeyedAt(t, changes, loc)
      ensures var x := Convert(Locate(t, Some(NameAt(t, loc))), changes[NameAt(t, loc)]);
        x.Success? ==> HasType(x.value, DeclaredType(t, loc))
    {
    }
  }

  /** The predicate of the plain `Merge`: every member. */
  function AnyMember(m: MemberInfo): bool
  {
    true
  }

  /** `Merge` copies slot `loc`: it belongs to a table member that `accept` accepts. */
  predicate Accepts(t: TypeInfo, loc: Loc, accept: MemberInfo -> bool)
    requires IsLoc(t, loc)
  {
    match loc
    case PropertySlot(i) =>
      var p := AllProperties(Some(t))[i];
      IsReadWrite(p) && accept(PropertyMember(p))
    case FieldSlot(i) =>
      var f := AllFields(Some(t))[i];
      IsPublicField(f) && accept(FieldMember(f))
  }

  /** `Merge` with the predicate `accept`, applied to the target's state `s`: every accepted member takes
      `c`'s value, every other slot keeps its own. */
  function Merged(t: TypeInfo, s: Slots, c: Slots, accept: MemberInfo -> bool): (r: Slots)
    requires Fits(t, s) && Fits(t, c)
    ensures Fits(t, r)
  {
    map loc | loc in s :: if Accepts(t, loc, accept) then c[loc] else s[loc]
  }

  /** Every lookup lands on a member of the table, which the plain `Merge` copies. */
  lemma LocatedMembersAreInTable(t: TypeInfo, m: Option<string>)
    ensures var target := Locate(t, m);
      !target.NoTarget? ==> Accepts(t, LocOf(target), AnyMember)
  {
    AccessorKeepsExactly(t);
    var target := Locate(t, m);
    if target.PropertyTarget? {
      assert target.property == Entry(AllProperties(Some(t))[target.property.slot], target.property.slot);
    } else if target.FieldTarget? {
      assert target.field == Entry(AllFields(Some(t))[target.field.slot], target.field.slot);
    }
  }

  /** Plain `Merge`: afterwards every name reads as in `change`. */
  lemma MergeCopiesEveryMember(t: TypeInfo, s: Slots, c: Slots)
    requires Fits(t, s) && Fits(t, c)
    ensures forall m :: Get(t, Merged(t, s, c, AnyMember), m) == Get(t, c, m)
  {
    forall m
      ensures Get(t, Merged(t, s, c, AnyMember), m) == Get(t, c, m)
    {
      LocatedMembersAreInTable(t, m);
    }
  }

  /** `Merge` with a predicate: a name reads as in `change` when the predicate accepts the
      member it lands on, and as before otherwise. */
  lemma MergeCopiesAcceptedMembers(t: TypeInfo, s: Slots, c: Slots, accept: MemberInfo -> bool)
    requires Fits(t, s) && Fits(t, c)
    ensures forall m :: !Locate(t, m).NoTarget? ==>
      var target := Locate(t, m);
      var info := match target
        case PropertyTarget(e) => PropertyMember(e.member)
        case FieldTarget(e) => FieldMember(e.member);
      Get(t, Merged(t, s, c, accept), m) == if accept(info) then Get(t, c, m) else Get(t, s, m)
  {
    AccessorKeepsExactly(t);
    forall m | !Locate(t, m).NoTarget?
      ensures var target := Locate(t, m);
        var info := match target
          case PropertyTarget(e) => PropertyMember(e.member)
          case FieldTarget(e) => FieldMember(e.member);
        Get(t, Merged(t, s, c, accept), m) == if accept(info) then Get(t, c, m) else Get(t, s, m)
    {
      LocatedMembersAreInTable(t, m);
    }
  }

  /** Merging an instance's state into itself changes nothing. */
  lemma MergeSelfIsIdentity(t: TypeInfo, s: Slots, accept: MemberInfo -> bool)
    requires Fits(t, s)
    ensures Merged(t, s, s, accept) == s
  {
    SlotsExtensional(t, Merged(t, s, s, accept), s);
  }

  /** Merging two well-typed states gives a well-typed state. */
  lemma MergePreservesWellTyped(t: TypeInfo, s: Slots, c: Slots, accept: MemberInfo -> bool)
    requires WellTyped(t, s) && WellTyped(t, c)
    ensures WellTyped(t, Merged(t, s, c, accept))
  {
  }

  /** The multi-name `With` of two well-typed states is well-typed. */
  lemma WithNamesPreservesWellTyped(t: TypeInfo, s: Slots, c: Slots, names: seq<Option<string>>)
    requires WellTyped(t, s) && WellTyped(t, c)
    ensures WellTyped(t, WithNames(t, s, c, names))
  {
    WithNamesCopiesNamedSlots(t, s, c, names);
  }
}
