/** The Property Object itself: the fields the engine updates in place and the methods that
    update them. Each method is proved to leave the object in the state, and to return the
    result, that the corresponding operation of the object model prescribes. */
module PropertyObjects {
  import opened Values
  import opened Properties
  import opened PropertyNames
  import opened UpdateStack
  import opened ValueStore
  import opened ObjectModel
  import Ordering

  class PropertyObject {
    var frozen: bool
    var updateCount: nat
    var updatingPropsAndValues: seq<PendingAction>
    var localProperties: seq<Property>
    const classProperties: seq<Property>
    var propValues: Store
    const updatePropertyStack: PropertyUpdateStack
    var customOrder: seq<string>
    var path: string
    var owner: Option<ObjId>

    ghost predicate Valid()
      reads this, updatePropertyStack
    {
      updatePropertyStack.Valid()
    }

    /** The object's fields as a value of the model. */
    function State(): ObjState
      reads this, updatePropertyStack
    {
      ObjState(frozen, updateCount, updatingPropsAndValues, localProperties, classProperties,
               propValues, updatePropertyStack.items, customOrder, path, owner)
    }

    /** A fresh object of a class: nothing stored, nothing pending, no local property. */
    constructor (classProperties: seq<Property>)
      ensures Valid() && fresh(updatePropertyStack)
      ensures State() == ObjState(false, 0, [], [], classProperties, map[], map[], [], [], None)
    {
      this.classProperties := classProperties;
      frozen := false;
      updateCount := 0;
      updatingPropsAndValues := [];
      localProperties := [];
      propValues := map[];
      updatePropertyStack := new PropertyUpdateStack();
      customOrder := [];
      path := [];
      owner := None;
    }

    // -------------------------------------------------------------------------------------
    // The value store

    /** `writeLocalValue`, given the default of the property being written. */
    method WriteLocalValue(name: string, value: Value, default: Value, forceWrite: bool) returns (written: bool)
      modifies this
      ensures (written, propValues) == ValueStore.WriteLocalValue(old(propValues), name, value, default, forceWrite)
      ensures State() == old(State()).(values := propValues)
    {
      if name in propValues {
        if propValues[name] == value {
          return false;
        }
        propValues := propValues[name := value];
      } else if forceWrite {
        propValues := propValues[name := value];
      } else {
        if default != value {
          propValues := propValues[name := value];
        } else {
          return false;
        }
      }
      written := true;
    }

    // -------------------------------------------------------------------------------------
    // Writes and clears

    /** `setPropertyValue`: an ordinary write, with events, batched while an update is open. */
    method SetPropertyValue(name: string, value: Value, hooks: Hooks) returns (outcome: Outcome)
      requires Valid()
      modifies this, updatePropertyStack
      ensures Valid()
      ensures (outcome, State()) == SetValue(old(State()), name, value, true, false, old(updateCount) > 0, hooks)
    {
      outcome := SetPropertyValueInternal(name, value, true, false, updateCount > 0, hooks);
    }

    /** `setProtectedPropertyValue`: a write that may change read-only and object-typed
        properties. */
    method SetProtectedPropertyValue(name: string, value: Value, hooks: Hooks) returns (outcome: Outcome)
      requires Valid()
      modifies this, updatePropertyStack
      ensures Valid()
      ensures (outcome, State()) == SetValue(old(State()), name, value, true, true, old(updateCount) > 0, hooks)
    {
      outcome := SetPropertyValueInternal(name, value, true, true, updateCount > 0, hooks);
    }

    /** `setPropertyValueInternal`. */
    method SetPropertyValueInternal(name: string, value: Value, triggerEvent: bool, protectedAccess: bool,
                                    batch: bool, hooks: Hooks) returns (outcome: Outcome)
      requires Valid()
      modifies this, updatePropertyStack
      ensures Valid()
      ensures (outcome, State()) == SetValue(old(State()), name, value, triggerEvent, protectedAccess, batch, hooks)
      decreases if triggerEvent then 6 else 1
    {
      if value == Null {
        return Done(Failed(ArgumentNull));
      }
      if frozen {
        return Done(Failed(Frozen));
      }
      if batch {
        updatingPropsAndValues := updatingPropsAndValues + [PendingAction(name, true, protectedAccess, value)];
        return Done(Success);
      }
      if IsParentProperty(name) {
        return Done(Failed(AccessDenied));
      }
      outcome := SetNamedPropertyValue(name, value, triggerEvent, protectedAccess, hooks);
    }

    /** The part of `setPropertyValueInternal` after the front checks. */
    method SetNamedPropertyValue(name: string, value: Value, triggerEvent: bool, protectedAccess: bool, hooks: Hooks)
      returns (outcome: Outcome)
      requires Valid()
      modifies this, updatePropertyStack
      ensures Valid()
      ensures (outcome, State()) == SetNamedValue(old(State()), name, value, triggerEvent, protectedAccess, hooks)
      decreases if triggerEvent then 5 else 0
    {
      if IsChildProperty(name) {
        var child := ChildRequest(State(), name);
        if child.Err? {
          return Done(Failed(child.err));
        }
        return ForwardSet(child.value.0, child.value.1, value, protectedAccess);
      }
      var found := FindProperty(localProperties, classProperties, name);
      if found.None? {
        return Done(Failed(NotFound));
      }
      var prop := found.value;
      var checked := CheckWrite(prop, value, protectedAccess, hooks);
      if checked.Err? {
        return Done(Failed(checked.err));
      }
      var checkedValue := checked.value;
      if !triggerEvent {
        var written := WriteLocalValue(prop.name, checkedValue, prop.defaultValue, false);
        return Done(if written then Success else Ignored);
      }
      var written, newValue := CallPropertyValueWrite(prop, checkedValue, false, hooks);
      if written == Done(Ignored) {
        return Done(Success);
      }
      if written == Done(Success) && newValue == checkedValue {
        var _ := WriteLocalValue(prop.name, newValue, prop.defaultValue, false);
        return Done(Success);
      }
      outcome := written;
    }

    /** `callPropertyValueWrite`: registers the write, runs the write handler, unregisters, and
        writes the handler's replacement through a nested protected write. */
    method CallPropertyValueWrite(prop: Property, newValue: Value, isClear: bool, hooks: Hooks)
      returns (outcome: Outcome, finalValue: Value)
      requires Valid()
      modifies this, updatePropertyStack
      ensures Valid()
      ensures (outcome, finalValue, State()) == ObjectModel.CallPropertyValueWrite(old(State()), prop, newValue, isClear, hooks)
      decreases 4
    {
      ghost var s0 := State();
      var registered := updatePropertyStack.RegisterPropertyUpdating(prop.name, newValue);
      if !registered {
        return Done(Ignored), newValue;
      }
      outcome, finalValue := RunWriteHandler(prop, newValue, isClear, hooks, s0);
    }

    /** `callPropertyValueWrite` once the write is registered; `before` is the object as it was
        before the registration. */
    method RunWriteHandler(prop: Property, newValue: Value, isClear: bool, hooks: Hooks, ghost before: ObjState)
      returns (outcome: Outcome, finalValue: Value)
      requires Valid() && WellFormed(before.stack)
      requires Register(before.stack, prop.name, newValue) == (true, updatePropertyStack.items)
      requires State() == before.(stack := updatePropertyStack.items)
      modifies this, updatePropertyStack
      ensures Valid()
      ensures (outcome, finalValue, State())
                == ObjectModel.RunWriteHandler(before, old(updatePropertyStack.items), prop, newValue, isClear, hooks)
      decreases 3
    {
      var name := prop.name;
      ghost var t1 := updatePropertyStack.items;
      var isBaseStackLevel := updatePropertyStack.IsBaseStackLevel(name);
      assert isBaseStackLevel <==> name !in before.stack;
      if isBaseStackLevel && newValue != Null && !ShouldWriteLocalValue(propValues, name, newValue, prop.defaultValue) {
        var _ := updatePropertyStack.UnregisterPropertyUpdating(name);
        return Done(Ignored), newValue;
      }
      var oldValue := OldValue(propValues, name, prop.defaultValue);
      var handled := hooks.onWrite(name, if isClear then prop.defaultValue else newValue, oldValue);
      var shouldUpdate := updatePropertyStack.UnregisterPropertyUpdating(name);
      assert State() == before.(stack := Unregister(t1, name).1);
      outcome, finalValue := ApplyHandlerResult(prop, newValue, isClear, handled, shouldUpdate, hooks);
    }

    /** The end of `callPropertyValueWrite`, once the handler has run. */
    method ApplyHandlerResult(prop: Property, newValue: Value, isClear: bool, handled: Result<Value>,
                              shouldUpdate: bool, hooks: Hooks)
      returns (outcome: Outcome, finalValue: Value)
      requires Valid()
      modifies this, updatePropertyStack
      ensures Valid()
      ensures (outcome, finalValue, State())
                == ObjectModel.ApplyHandlerResult(old(State()), prop, newValue, isClear, handled, shouldUpdate, hooks)
      decreases 2
    {
      if handled.Err? {
        return Done(Failed(handled.err)), newValue;
      }
      var replacement := handled.value;
      if !shouldUpdate {
        return Done(Ignored), newValue;
      }
      if isClear && replacement == prop.defaultValue {
        return Done(Success), newValue;
      }
      if newValue == replacement {
        return Done(Success), newValue;
      }
      outcome := SetPropertyValueInternal(prop.name, replacement, false, true, false, hooks);
      finalValue := replacement;
    }

    /** `clearPropertyValue`: an ordinary clear, batched while an update is open. */
    method ClearPropertyValue(name: string, hooks: Hooks) returns (outcome: Outcome)
      requires Valid()
      modifies this, updatePropertyStack
      ensures Valid()
      ensures (outcome, State()) == ClearValue(old(State()), name, false, old(updateCount) > 0, hooks)
    {
      outcome := ClearPropertyValueInternal(name, false, updateCount > 0, hooks);
    }

    /** `clearPropertyValueInternal`. */
    method ClearPropertyValueInternal(name: string, protectedAccess: bool, batch: bool, hooks: Hooks)
      returns (outcome: Outcome)
      requires Valid()
      modifies this, updatePropertyStack
      ensures Valid()
      ensures (outcome, State()) == ClearValue(old(State()), name, protectedAccess, batch, hooks)
      decreases 6
    {
      if frozen {
        return Done(Failed(Frozen));
      }
      if batch {
        updatingPropsAndValues := updatingPropsAndValues + [PendingAction(name, false, protectedAccess, Null)];
        return Done(Success);
      }
      if IsParentProperty(name) {
        return Done(Failed(AccessDenied));
      }
      outcome := ClearNamedPropertyValue(name, protectedAccess, hooks);
    }

    /** The part of `clearPropertyValueInternal` after the front checks. */
    method ClearNamedPropertyValue(name: string, protectedAccess: bool, hooks: Hooks) returns (outcome: Outcome)
      requires Valid()
      modifies this, updatePropertyStack
      ensures Valid()
      ensures (outcome, State()) == ClearNamedValue(old(State()), name, protectedAccess, hooks)
      decreases 5
    {
      if IsChildProperty(name) {
        var child := ChildRequest(State(), name);
        if child.Err? {
          return Done(Failed(child.err));
        }
        return ForwardClear(child.value.0, child.value.1, protectedAccess);
      }
      var found := FindProperty(localProperties, classProperties, name);
      if found.None? {
        return Done(Failed(NotFound));
      }
      var prop := found.value;
      if !protectedAccess && prop.readOnly {
        return Done(Failed(AccessDenied));
      }
      if prop.name !in propValues {
        return Done(Ignored);
      }
      if prop.valueType == CtObject {
        var stored := propValues[prop.name];
        if stored.ObjV? {
          return ClearChildren(stored.id, protectedAccess);
        }
        return if stored == Null then Done(Success) else Done(Failed(NoInterface));
      }
      var written, newValue := CallPropertyValueWrite(prop, Null, true, hooks);
      if written == Done(Ignored) {
        return Done(Success);
      }
      if written == Done(Success) && newValue == Null {
        propValues := propValues - {prop.name};
        return Done(Success);
      }
      outcome := written;
    }

    // -------------------------------------------------------------------------------------
    // Update transactions

    /** `beginUpdate` (without the deep variant). */
    method BeginUpdate() returns (status: Status)
      modifies this
      ensures (status, State()) == ObjectModel.BeginUpdate(old(State()))
    {
      if frozen {
        return Failed(Frozen);
      }
      updateCount := updateCount + 1;
      status := Success;
    }

    /** `endUpdate` (without the deep variant), replaying the pending actions as
        `endApplyUpdate` does when the last open update closes. */
    method EndUpdate(hooks: Hooks) returns (status: Status, report: EndReport)
      requires Valid()
      modifies this, updatePropertyStack
      ensures Valid()
      ensures (status, State(), report) == ObjectModel.EndUpdate(old(State()), hooks)
    {
      if updateCount == 0 {
        return Failed(InvalidState), EndReport([], map[], []);
      }
      updateCount := updateCount - 1;
      if updateCount > 0 {
        return Success, EndReport([], map[], []);
      }
      var actions := updatingPropsAndValues;
      updatingPropsAndValues := [];
      var done, ignoredProps, forwarded, failure := ReplayActions(actions, hooks);
      if failure.Some? {
        updatingPropsAndValues := done + actions[|done|..];
        return Failed(failure.value), EndReport([], map[], forwarded);
      }
      updatingPropsAndValues := done;
      EraseIgnored(ignoredProps);
      var names, changes := EndApplyPropertiesLoop();
      updatingPropsAndValues := [];
      status := Success;
      report := EndReport(names, changes, forwarded);
    }

    /** The loop of `endApplyUpdate`: each action is replayed with events and without batching;
        an ignored one is remembered, any other has its value re-read; a re-read that throws,
        or else the first failing action, ends the loop (`checkErrorInfo` throws). */
    method ReplayActions(actions: seq<PendingAction>, hooks: Hooks)
      returns (done: seq<PendingAction>, ignoredProps: seq<string>, forwarded: seq<Outcome>, failure: Option<ErrKind>)
      requires Valid()
      modifies this, updatePropertyStack
      ensures Valid()
      ensures Replay(State(), done, ignoredProps, forwarded, failure) == ReplayAll(old(State()), actions, hooks)
    {
      ghost var start := State();
      done, ignoredProps, forwarded, failure := [], [], [], None;
      var i := 0;
      while i < |actions|
        invariant 0 <= i <= |actions|
        invariant Valid()
        invariant ReplayFrom(Replay(State(), done, ignoredProps, forwarded, None), actions[i..], hooks) == ReplayAll(start, actions, hooks)
      {
        var item := actions[i];
        ghost var p := Replay(State(), done, ignoredProps, forwarded, None);
        var err := ApplyPendingAction(item, hooks);
        var s1 := State();
        var ignored := err == Done(Ignored);
        var reread := if ignored then Ok(item.value) else RereadValue(s1, item.name, item.value);
        done := done + [if reread.Ok? then item.(value := reread.value) else item];
        ignoredProps := ignoredProps + (if ignored then [item.name] else []);
        forwarded := forwarded + (if err.Done? then [] else [err]);
        ReplayStepFrom(p, item, hooks, err, s1);
        ReplayAdvances(p, actions[i..], hooks);
        assert actions[i..][1..] == actions[i + 1..];
        if reread.Err? {
          failure := Some(reread.err);
          assert Replay(s1, done, ignoredProps, forwarded, failure) == ReplayStep(p, item, hooks);
          return;
        }
        if err.Done? && err.status.Failed? {
          failure := Some(err.status.err);
          assert Replay(s1, done, ignoredProps, forwarded, failure) == ReplayStep(p, item, hooks);
          return;
        }
        assert Replay(s1, done, ignoredProps, forwarded, None) == ReplayStep(p, item, hooks);
        i := i + 1;
      }
    }

    /** One replayed action: a write with events or a clear, never batched. */
    method ApplyPendingAction(item: PendingAction, hooks: Hooks) returns (outcome: Outcome)
      requires Valid()
      modifies this, updatePropertyStack
      ensures Valid()
      ensures (outcome, State()) == ApplyPending(old(State()), item, hooks)
    {
      if item.setValue {
        outcome := SetPropertyValueInternal(item.name, item.value, true, item.protectedAccess, false, hooks);
      } else {
        outcome := ClearPropertyValueInternal(item.name, item.protectedAccess, false, hooks);
      }
    }

    /** Erases, for each ignored name, the first pending action recorded under it. */
    method EraseIgnored(ignoredProps: seq<string>)
      modifies this
      ensures updatingPropsAndValues == RemoveAllIgnored(old(updatingPropsAndValues), ignoredProps)
      ensures State() == old(State()).(pending := updatingPropsAndValues)
    {
      var pending := updatingPropsAndValues;
      var j := 0;
      while j < |ignoredProps|
        invariant 0 <= j <= |ignoredProps|
        invariant pending == RemoveAllIgnored(updatingPropsAndValues, ignoredProps[..j])
        modifies {}
      {
        RemoveAllIgnoredStep(updatingPropsAndValues, ignoredProps, j);
        pending := EraseFirstNamed(pending, ignoredProps[j]);
        j := j + 1;
      }
      assert ignoredProps[..j] == ignoredProps;
      updatingPropsAndValues := pending;
    }

    /** `endApplyProperties`: the names and the change set of the pending actions. */
    method EndApplyPropertiesLoop() returns (names: seq<string>, changes: map<string, Value>)
      ensures (names, changes) == EndApplyProperties(updatingPropsAndValues)
    {
      names := [];
      changes := map[];
      var k := 0;
      while k < |updatingPropsAndValues|
        invariant 0 <= k <= |updatingPropsAndValues|
        invariant (names, changes) == EndApplyProperties(updatingPropsAndValues[..k])
      {
        var item := updatingPropsAndValues[k];
        assert updatingPropsAndValues[..k + 1][..k] == updatingPropsAndValues[..k];
        names := names + [item.name];
        changes := changes[item.name := item.value];
        k := k + 1;
      }
      assert updatingPropsAndValues[..k] == updatingPropsAndValues;
    }

    // -------------------------------------------------------------------------------------
    // Schema operations and flags

    /** `addProperty`; `cloneId` names the clone made of an object-typed default. */
    method AddProperty(prop: Property, cloneId: ObjId) returns (status: Status)
      modifies this
      ensures (status, State()) == ObjectModel.AddProperty(old(State()), prop, cloneId)
    {
      if frozen {
        return Failed(Frozen);
      }
      if IndexOfName(localProperties, prop.name).Some? {
        return Failed(AlreadyExists);
      }
      if prop.valueType == CtObject && prop.defaultValue != Null {
        if !prop.defaultValue.ObjV? {
          localProperties := localProperties + [prop];
          return Failed(InvalidType);
        }
        var _ := WriteLocalValue(prop.name, prop.defaultValue, prop.defaultValue, true);
        localProperties := localProperties + [prop.(defaultValue := ObjV(cloneId))];
        return Success;
      }
      localProperties := localProperties + [prop];
      status := Success;
    }

    /** `removeProperty`. */
    method RemoveProperty(name: string) returns (status: Status)
      modifies this
      ensures (status, State()) == ObjectModel.RemoveProperty(old(State()), name)
    {
      if frozen {
        return Failed(Frozen);
      }
      var k := IndexOfName(localProperties, name);
      if k.None? {
        return Failed(NotFound);
      }
      localProperties := localProperties[..k.value] + localProperties[k.value + 1..];
      propValues := propValues - {name};
      status := Success;
    }

    /** `setPropertyOrder`. */
    method SetPropertyOrder(orderedPropertyNames: Option<seq<string>>) returns (status: Status)
      modifies this
      ensures (status, State()) == ObjectModel.SetPropertyOrder(old(State()), orderedPropertyNames)
    {
      if frozen {
        return Failed(Frozen);
      }
      customOrder := if orderedPropertyNames.Some? then orderedPropertyNames.value else [];
      status := Success;
    }

    method Freeze() returns (status: Status)
      modifies this
      ensures (status, State()) == ObjectModel.Freeze(old(State()))
    {
      if frozen {
        return Ignored;
      }
      frozen := true;
      status := Success;
    }

    method SetPath(newPath: string) returns (status: Status)
      modifies this
      ensures (status, State()) == ObjectModel.SetPath(old(State()), newPath)
    {
      if |path| > 0 {
        return Ignored;
      }
      path := newPath;
      status := Success;
    }

    method SetOwner(newOwner: Option<ObjId>) returns (status: Status)
      modifies this
      ensures (status, State()) == ObjectModel.SetOwner(old(State()), newOwner)
    {
      if owner == newOwner {
        return Ignored;
      }
      owner := newOwner;
      status := Success;
    }

    // -------------------------------------------------------------------------------------
    // Listings

    /** `getPropertiesInternal`: builds the lookup, then takes the custom order out of it,
        then appends what is left. */
    method GetProperties(includeInvisible: bool, bind: bool) returns (list: Result<seq<Property>>)
      ensures list == Ordering.GetProperties(localProperties, classProperties, customOrder, includeInvisible, bind)
    {
      if !includeInvisible && !bind {
        return Err(InvalidParameter);
      }
      var lookup := BuildLookup(classProperties + localProperties, includeInvisible, bind);
      var front, rest := TakeInCustomOrder(lookup, customOrder);
      var properties := AppendEach(front, rest);
      return Ok(properties);
    }

    /** `serializePropertyValues`: counts the serializable values, then writes the values of
        the sorted copy, the custom order first, each only when it may be read. */
    method SerializePropertyValues(serializable: Value -> bool, readable: Value -> bool)
      returns (written: Option<seq<Ordering.Entry>>)
      ensures written == Ordering.SerializePropertyValues(propValues, customOrder, serializable, readable)
    {
      var vals := propValues;
      var sorted := Ordering.SortedKeys(vals.Keys);
      var count := CountSerializableValues(vals, sorted, serializable);
      if count == 0 {
        return None;
      }
      var front, rest := WriteInCustomOrder(vals, sorted, customOrder, serializable, readable);
      var tail := WriteEach(vals, rest, serializable, readable);
      var out := front + tail;
      return Some(out);
    }
  }

  /** The lookup loop of `getPropertiesInternal` over the class properties, then the local
      ones. */
  method BuildLookup(all: seq<Property>, includeInvisible: bool, bind: bool) returns (lookup: seq<Property>)
    ensures lookup == Ordering.BuildLookup(all, includeInvisible, bind)
  {
    lookup := [];
    var i := 0;
    while i < |all|
      invariant 0 <= i <= |all|
      invariant lookup == Ordering.BuildLookup(all[..i], includeInvisible, bind)
    {
      assert all[..i + 1][..i] == all[..i];
      var prop := all[i];
      var at := Ordering.IndexOfKey(lookup, Ordering.NameOf, prop.name);
      if !bind {
        if at.None? {
          lookup := lookup + [prop];
        }
      } else if Ordering.Listed(prop, includeInvisible) {
        if at.Some? {
          lookup := lookup[at.value := prop];
        } else {
          lookup := lookup + [prop];
        }
      }
      i := i + 1;
    }
    assert all[..|all|] == all;
  }

  /** The custom-order loop of `getPropertiesInternal`: each name found in the lookup moves
      its property to the list and erases it from the lookup. */
  method TakeInCustomOrder(lookup: seq<Property>, order: seq<string>) returns (properties: seq<Property>, rest: seq<Property>)
    ensures (properties, rest) == Ordering.TakeOrdered(lookup, Ordering.NameOf, Ordering.Always, order)
  {
    properties := [];
    rest := lookup;
    var j := 0;
    while j < |order|
      invariant 0 <= j <= |order|
      invariant (properties, rest) == Ordering.TakeOrdered(lookup, Ordering.NameOf, Ordering.Always, order[..j])
    {
      Ordering.TakeOrderedStep(lookup, Ordering.NameOf, Ordering.Always, order, j);
      var at := Ordering.IndexOfKey(rest, Ordering.NameOf, order[j]);
      if at.Some? {
        properties := properties + [rest[at.value]];
        rest := rest[..at.value] + rest[at.value + 1..];
      }
      j := j + 1;
    }
    assert order[..|order|] == order;
  }

  /** The loop that appends the rest of the lookup to the list. */
  method AppendEach(properties: seq<Property>, rest: seq<Property>) returns (list: seq<Property>)
    ensures list == properties + rest
  {
    list := properties;
    var k := 0;
    while k < |rest|
      invariant 0 <= k <= |rest|
      invariant list == properties + rest[..k]
    {
      assert rest[..k + 1] == rest[..k] + [rest[k]];
      list := list + [rest[k]];
      k := k + 1;
    }
    assert rest[..|rest|] == rest;
  }

  /** The `count_if` over the stored values that support serialization. */
  method CountSerializableValues(vals: Ordering.ValueMap, keys: seq<string>, serializable: Value -> bool)
    returns (count: nat)
    ensures count == Ordering.CountSerializable(vals, keys, serializable)
  {
    count := 0;
    var i := 0;
    while i < |keys|
      invariant 0 <= i <= |keys|
      invariant count == Ordering.CountSerializable(vals, keys[..i], serializable)
    {
      Ordering.CountStep(vals, keys, i, serializable);
      var key := keys[i];
      if key in vals && vals[key] != Null && serializable(vals[key]) {
        count := count + 1;
      }
      i := i + 1;
    }
    assert keys[..|keys|] == keys;
  }

  /** The first loop of `serializePropertyValues`: each name of the custom order still in the
      sorted copy whose value may be read is written and erased from the copy. */
  method WriteInCustomOrder(vals: Ordering.ValueMap, sorted: seq<string>, order: seq<string>,
                            serializable: Value -> bool, readable: Value -> bool)
    returns (out: seq<Ordering.Entry>, rest: seq<string>)
    ensures rest == Ordering.TakeOrdered(sorted, Ordering.Itself, Ordering.ReadableKey(vals, readable), order).1
    ensures out == Ordering.WriteAll(vals, Ordering.TakeOrdered(sorted, Ordering.Itself, Ordering.ReadableKey(vals, readable), order).0,
                                     serializable, readable)
  {
    ghost var movable := Ordering.ReadableKey(vals, readable);
    ghost var front: seq<string> := [];
    out := [];
    rest := sorted;
    var j := 0;
    while j < |order|
      invariant 0 <= j <= |order|
      invariant (front, rest) == Ordering.TakeOrdered(sorted, Ordering.Itself, movable, order[..j])
      invariant out == Ordering.WriteAll(vals, front, serializable, readable)
    {
      Ordering.TakeOrderedStep(sorted, Ordering.Itself, movable, order, j);
      var at := Ordering.IndexOfKey(rest, Ordering.Itself, order[j]);
      if at.Some? {
        var key := rest[at.value];
        if key in vals && readable(vals[key]) {
          out := out + Ordering.EntryOf(vals, key, serializable, readable);
          assert (front + [key])[..|front|] == front;
          front := front + [key];
          rest := rest[..at.value] + rest[at.value + 1..];
        }
      }
      j := j + 1;
    }
    assert order[..|order|] == order;
  }

  /** The second loop of `serializePropertyValues`: the remaining keys in turn, each written
      when its value may be read. */
  method WriteEach(vals: Ordering.ValueMap, keys: seq<string>, serializable: Value -> bool, readable: Value -> bool)
    returns (out: seq<Ordering.Entry>)
    ensures out == Ordering.WriteAll(vals, keys, serializable, readable)
  {
    out := [];
    var k := 0;
    while k < |keys|
      invariant 0 <= k <= |keys|
      invariant out == Ordering.WriteAll(vals, keys[..k], serializable, readable)
    {
      Ordering.WriteAllStep(vals, keys, k, serializable, readable);
      var key := keys[k];
      if key in vals && readable(vals[key]) {
        out := out + Ordering.EntryOf(vals, key, serializable, readable);
      }
      k := k + 1;
    }
    assert keys[..|keys|] == keys;
  }

  /** Erases the first pending action recorded under `name`, if any (`find_if`, `erase`). */
  method EraseFirstNamed(actions: seq<PendingAction>, name: string) returns (r: seq<PendingAction>)
    ensures r == RemoveFirstNamed(actions, name)
  {
    var k := 0;
    while k < |actions| && actions[k].name != name
      invariant 0 <= k <= |actions|
      invariant forall m :: 0 <= m < k ==> actions[m].name != name
    {
      k := k + 1;
    }
    if k < |actions| {
      RemoveFirstNamedAt(actions, name, k);
      r := actions[..k] + actions[k + 1..];
    } else {
      RemoveFirstNamedShape(actions, name);
      r := actions;
    }
  }

  lemma RemoveAllIgnoredStep(actions: seq<PendingAction>, ignored: seq<string>, j: nat)
    requires j < |ignored|
    ensures RemoveAllIgnored(actions, ignored[..j + 1]) == RemoveFirstNamed(RemoveAllIgnored(actions, ignored[..j]), ignored[j])
  {
    assert ignored[..j + 1][..j] == ignored[..j];
  }

  /** Erasing at the first position holding `name` is `RemoveFirstNamed`. */
  lemma {:induction false} RemoveFirstNamedAt(actions: seq<PendingAction>, name: string, k: nat)
    requires k < |actions| && actions[k].name == name
    requires forall m :: 0 <= m < k ==> actions[m].name != name
    ensures RemoveFirstNamed(actions, name) == actions[..k] + actions[k + 1..]
    decreases k
  {
    if k > 0 {
      var tail := actions[1..];
      assert forall m :: 0 <= m < k - 1 ==> tail[m] == actions[m + 1];
      RemoveFirstNamedAt(tail, name, k - 1);
      assert RemoveFirstNamed(actions, name) == [actions[0]] + RemoveFirstNamed(tail, name);
      assert actions[..k] == [actions[0]] + tail[..k - 1];
      assert actions[k + 1..] == tail[k..];
      assert [actions[0]] + (tail[..k - 1] + tail[k..]) == actions[..k] + actions[k + 1..];
    }
  }
}
