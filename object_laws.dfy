/** Properties of the Property Object operations: what a frozen object refuses, what batching
    records, what a write or clear leaves behind for a later read, how the update stack is
    restored, how transactions replay, and how the schema operations and one-shot flags
    behave. */
module ObjectLaws {
  import opened Values
  import opened Properties
  import opened PropertyNames
  import opened UpdateStack
  import opened ValueStore
  import opened ObjectModel
  import Ordering

  /** A name that addresses a property of this object directly: no path, no index. */
  predicate PlainName(name: string)
  {
    '.' !in name && '[' !in name
  }

  /** Write-event handlers that accept the proposed value. */
  ghost predicate AcceptingHandlers(hooks: Hooks)
  {
    forall n, a, b :: hooks.onWrite(n, a, b) == Ok(a)
  }

  /** A write event for a name with no write in flight that is not skipped as a no-op reaches
      the handler, and the update stack is back to where it was when the handler's result is
      applied. */
  lemma {:induction false} HandlerReached(s: ObjState, prop: Property, newValue: Value, isClear: bool, hooks: Hooks)
    requires WellFormed(s.stack) && prop.name !in s.stack
    requires newValue == Null || ShouldWriteLocalValue(s.values, prop.name, newValue, prop.defaultValue)
    ensures CallPropertyValueWrite(s, prop, newValue, isClear, hooks)
              == ApplyHandlerResult(s, prop, newValue, isClear,
                                    hooks.onWrite(prop.name, if isClear then prop.defaultValue else newValue,
                                                  OldValue(s.values, prop.name, prop.defaultValue)),
                                    true, hooks)
  {
    RegisterUnregister(s.stack, prop.name, newValue);
    var t1 := Register(s.stack, prop.name, newValue).1;
    assert CallPropertyValueWrite(s, prop, newValue, isClear, hooks) == RunWriteHandler(s, t1, prop, newValue, isClear, hooks);
    assert s.(stack := Unregister(t1, prop.name).1) == s;
  }

  // ---------------------------------------------------------------------------------------
  // Frozen objects and batching

  /** A frozen object refuses every write, clear and schema change and stays as it is. */
  lemma {:induction false} FrozenRefusesChanges(s: ObjState, name: string, v: Value, te: bool, prot: bool, batch: bool,
                             hooks: Hooks, prop: Property, cloneId: ObjId, order: Option<seq<string>>)
    requires s.frozen && WellFormed(s.stack) && v != Null
    ensures SetValue(s, name, v, te, prot, batch, hooks) == (Done(Failed(Frozen)), s)
    ensures ClearValue(s, name, prot, batch, hooks) == (Done(Failed(Frozen)), s)
    ensures AddProperty(s, prop, cloneId) == (Failed(Frozen), s)
    ensures RemoveProperty(s, name) == (Failed(Frozen), s)
    ensures SetPropertyOrder(s, order) == (Failed(Frozen), s)
    ensures BeginUpdate(s) == (Failed(Frozen), s)
    ensures Freeze(s) == (Ignored, s)
  {
  }

  /** In batch mode a write or clear only appends its request, in call order, and succeeds. */
  lemma {:induction false} BatchRecords(s: ObjState, name: string, v: Value, te: bool, prot: bool, hooks: Hooks)
    requires !s.frozen && WellFormed(s.stack) && v != Null
    ensures SetValue(s, name, v, te, prot, true, hooks)
              == (Done(Success), s.(pending := s.pending + [PendingAction(name, true, prot, v)]))
    ensures ClearValue(s, name, prot, true, hooks)
              == (Done(Success), s.(pending := s.pending + [PendingAction(name, false, prot, Null)]))
  {
  }

  /** Writes and clears of parent-relative names are refused. */
  lemma {:induction false} ParentRelativeRefused(s: ObjState, name: string, v: Value, te: bool, prot: bool, hooks: Hooks)
    requires !s.frozen && WellFormed(s.stack) && v != Null && IsParentProperty(name)
    ensures SetValue(s, name, v, te, prot, false, hooks) == (Done(Failed(AccessDenied)), s)
    ensures ClearValue(s, name, prot, false, hooks) == (Done(Failed(AccessDenied)), s)
  {
  }

  /** A write without protected access to a read-only or object-typed property, and a clear of a
      read-only one, are refused. */
  lemma {:induction false} ReadOnlyRefused(s: ObjState, name: string, v: Value, te: bool, hooks: Hooks)
    requires !s.frozen && WellFormed(s.stack) && v != Null && PlainName(name)
    requires FindProperty(s.local, s.cls, name).Some?
    ensures var p := FindProperty(s.local, s.cls, name).value;
            p.readOnly || p.valueType == CtObject ==>
              SetValue(s, name, v, te, false, false, hooks) == (Done(Failed(AccessDenied)), s)
    ensures FindProperty(s.local, s.cls, name).value.readOnly ==>
              ClearValue(s, name, false, false, hooks) == (Done(Failed(AccessDenied)), s)
  {
    ParentAndChildExclusive(name);
  }

  /** Clearing a property that has no stored value is Ignored and changes nothing. */
  lemma {:induction false} ClearAbsentIgnored(s: ObjState, name: string, prot: bool, hooks: Hooks)
    requires !s.frozen && WellFormed(s.stack) && PlainName(name)
    requires FindProperty(s.local, s.cls, name).Some? && name !in s.values
    requires prot || !FindProperty(s.local, s.cls, name).value.readOnly
    ensures ClearValue(s, name, prot, false, hooks) == (Done(Ignored), s)
  {
    ParentAndChildExclusive(name);
  }

  /** A name that names no property is NotFound for writes and clears. */
  lemma {:induction false} UnknownNameNotFound(s: ObjState, name: string, v: Value, te: bool, prot: bool, hooks: Hooks)
    requires !s.frozen && WellFormed(s.stack) && v != Null && PlainName(name)
    requires FindProperty(s.local, s.cls, name).None?
    ensures SetValue(s, name, v, te, prot, false, hooks) == (Done(Failed(NotFound)), s)
    ensures ClearValue(s, name, prot, false, hooks) == (Done(Failed(NotFound)), s)
  {
    ParentAndChildExclusive(name);
  }

  // ---------------------------------------------------------------------------------------
  // Writes, clears and reads

  /** A write that passes the checks, made without events, stores the checked value: a read
      afterwards returns it, and the write is Ignored exactly when it changed nothing. */
  lemma {:induction false} SetWithoutEventThenRead(s: ObjState, name: string, v: Value, prot: bool, hooks: Hooks)
    requires !s.frozen && WellFormed(s.stack) && v != Null && PlainName(name)
    requires FindProperty(s.local, s.cls, name).Some?
    requires CheckWrite(FindProperty(s.local, s.cls, name).value, v, prot, hooks).Ok?
    ensures var w := CheckWrite(FindProperty(s.local, s.cls, name).value, v, prot, hooks).value;
            var r := SetValue(s, name, v, false, prot, false, hooks);
            && r.0.Done? && r.0.status.Succeeded()
            && ReadValue(r.1.local, r.1.cls, r.1.values, r.1.stack, name, false) == Ok(w)
            && (r.0 == Done(Ignored) <==> r.1 == s)
  {
    ParentAndChildExclusive(name);
    var prop := FindProperty(s.local, s.cls, name).value;
    var w := CheckWrite(prop, v, prot, hooks).value;
    ReadAfterWrite(s.local, s.cls, s.values, s.stack, name, w, false, false);
  }

  /** With handlers that accept the proposed value and no write of the name in flight, a write
      with events also stores the checked value, succeeds, and leaves the update stack as it
      found it. */
  lemma {:induction false} SetWithEventThenRead(s: ObjState, name: string, v: Value, prot: bool, hooks: Hooks)
    requires !s.frozen && WellFormed(s.stack) && v != Null && PlainName(name) && name !in s.stack
    requires AcceptingHandlers(hooks)
    requires FindProperty(s.local, s.cls, name).Some?
    requires CheckWrite(FindProperty(s.local, s.cls, name).value, v, prot, hooks).Ok?
    requires CheckWrite(FindProperty(s.local, s.cls, name).value, v, prot, hooks).value != Null
    ensures var w := CheckWrite(FindProperty(s.local, s.cls, name).value, v, prot, hooks).value;
            var r := SetValue(s, name, v, true, prot, false, hooks);
            && r.0 == Done(Success)
            && r.1.stack == s.stack
            && ReadValue(r.1.local, r.1.cls, r.1.values, r.1.stack, name, true) == Ok(w)
  {
    ParentAndChildExclusive(name);
    var prop := FindProperty(s.local, s.cls, name).value;
    var w := CheckWrite(prop, v, prot, hooks).value;
    assert SetValue(s, name, v, true, prot, false, hooks) == SetNamedValue(s, name, v, true, prot, hooks);
    if ShouldWriteLocalValue(s.values, name, w, prop.defaultValue) {
      HandlerReached(s, prop, w, false, hooks);
      assert hooks.onWrite(name, w, OldValue(s.values, name, prop.defaultValue)) == Ok(w);
      assert CallPropertyValueWrite(s, prop, w, false, hooks) == (Done(Success), w, s);
    } else {
      RegisterUnregister(s.stack, name, w);
      var t1 := Register(s.stack, name, w).1;
      assert CallPropertyValueWrite(s, prop, w, false, hooks) == RunWriteHandler(s, t1, prop, w, false, hooks);
    }
    ReadAfterWrite(s.local, s.cls, s.values, s.stack, name, w, false, true);
  }

  /** A handler that replaces the value has its replacement checked again, with protected
      access, and stored; a replacement that fails the checks fails the write and stores
      nothing. */
  lemma {:induction false} HandlerReplacementIsChecked(s: ObjState, name: string, v: Value, prot: bool, hooks: Hooks, h: Value)
    requires !s.frozen && WellFormed(s.stack) && v != Null && PlainName(name) && name !in s.stack
    requires FindProperty(s.local, s.cls, name).Some?
    requires CheckWrite(FindProperty(s.local, s.cls, name).value, v, prot, hooks).Ok?
    requires var w := CheckWrite(FindProperty(s.local, s.cls, name).value, v, prot, hooks).value;
             && w != Null && h != Null && h != w
             && ShouldWriteLocalValue(s.values, name, w, FindProperty(s.local, s.cls, name).value.defaultValue)
             && hooks.onWrite(name, w, OldValue(s.values, name, FindProperty(s.local, s.cls, name).value.defaultValue)) == Ok(h)
    ensures var prop := FindProperty(s.local, s.cls, name).value;
            var r := SetValue(s, name, v, true, prot, false, hooks);
            && r.1.stack == s.stack
            && (CheckWrite(prop, h, true, hooks).Ok? ==>
                  r.0 == Done(Success)
                  && ReadValue(r.1.local, r.1.cls, r.1.values, r.1.stack, name, false) == Ok(CheckWrite(prop, h, true, hooks).value))
            && (CheckWrite(prop, h, true, hooks).Err? ==>
                  r.0 == Done(Failed(CheckWrite(prop, h, true, hooks).err)) && r.1.values == s.values)
  {
    ParentAndChildExclusive(name);
    var prop := FindProperty(s.local, s.cls, name).value;
    var w := CheckWrite(prop, v, prot, hooks).value;
    assert SetValue(s, name, v, true, prot, false, hooks) == SetNamedValue(s, name, v, true, prot, hooks);
    ReplacementWritten(s, prop, w, h, hooks);
    if CheckWrite(prop, h, true, hooks).Ok? {
      ReadAfterWrite(s.local, s.cls, s.values, s.stack, name, CheckWrite(prop, h, true, hooks).value, false, false);
    }
  }

  /** A replacement from the handler is written by a nested protected write without events. */
  lemma {:induction false} ReplacementWritten(s: ObjState, prop: Property, w: Value, h: Value, hooks: Hooks)
    requires !s.frozen && WellFormed(s.stack) && prop.name !in s.stack && PlainName(prop.name)
    requires w != Null && h != Null && h != w
    requires ShouldWriteLocalValue(s.values, prop.name, w, prop.defaultValue)
    requires hooks.onWrite(prop.name, w, OldValue(s.values, prop.name, prop.defaultValue)) == Ok(h)
    ensures CallPropertyValueWrite(s, prop, w, false, hooks)
              == (SetNamedValue(s, prop.name, h, false, true, hooks).0, h, SetNamedValue(s, prop.name, h, false, true, hooks).1)
  {
    HandlerReached(s, prop, w, false, hooks);
    ParentAndChildExclusive(prop.name);
    assert SetValue(s, prop.name, h, false, true, false, hooks) == SetNamedValue(s, prop.name, h, false, true, hooks);
  }

  /** A failing handler fails the write, stores nothing and unwinds the update stack. */
  lemma {:induction false} HandlerFailureStoresNothing(s: ObjState, name: string, v: Value, prot: bool, hooks: Hooks, e: ErrKind)
    requires !s.frozen && WellFormed(s.stack) && v != Null && PlainName(name) && name !in s.stack
    requires FindProperty(s.local, s.cls, name).Some?
    requires CheckWrite(FindProperty(s.local, s.cls, name).value, v, prot, hooks).Ok?
    requires var w := CheckWrite(FindProperty(s.local, s.cls, name).value, v, prot, hooks).value;
             && w != Null
             && ShouldWriteLocalValue(s.values, name, w, FindProperty(s.local, s.cls, name).value.defaultValue)
             && hooks.onWrite(name, w, OldValue(s.values, name, FindProperty(s.local, s.cls, name).value.defaultValue)) == Err(e)
    ensures SetValue(s, name, v, true, prot, false, hooks) == (Done(Failed(e)), s)
  {
    ParentAndChildExclusive(name);
    var prop := FindProperty(s.local, s.cls, name).value;
    var w := CheckWrite(prop, v, prot, hooks).value;
    assert SetValue(s, name, v, true, prot, false, hooks) == SetNamedValue(s, name, v, true, prot, hooks);
    HandlerReached(s, prop, w, false, hooks);
  }

  /** Repeating a write without events is Ignored and changes nothing. */
  lemma {:induction false} SetWithoutEventIdempotent(s: ObjState, name: string, v: Value, prot: bool, hooks: Hooks)
    requires !s.frozen && WellFormed(s.stack) && v != Null && PlainName(name)
    requires FindProperty(s.local, s.cls, name).Some?
    requires CheckWrite(FindProperty(s.local, s.cls, name).value, v, prot, hooks).Ok?
    ensures var s1 := SetValue(s, name, v, false, prot, false, hooks).1;
            SetValue(s1, name, v, false, prot, false, hooks) == (Done(Ignored), s1)
  {
    ParentAndChildExclusive(name);
  }

  /** With handlers that accept the proposed value, clearing a stored value of a property that
      is not object-typed removes it, so that the property reads its default again. */
  lemma {:induction false} ClearThenReadDefault(s: ObjState, name: string, prot: bool, hooks: Hooks)
    requires !s.frozen && WellFormed(s.stack) && PlainName(name) && name !in s.stack
    requires AcceptingHandlers(hooks)
    requires FindProperty(s.local, s.cls, name).Some? && name in s.values
    requires FindProperty(s.local, s.cls, name).value.valueType != CtObject
    requires prot || !FindProperty(s.local, s.cls, name).value.readOnly
    ensures var r := ClearValue(s, name, prot, false, hooks);
            && r.0 == Done(Success)
            && r.1.values == s.values - {name}
            && r.1.stack == s.stack
            && ReadValue(r.1.local, r.1.cls, r.1.values, r.1.stack, name, false)
                 == Ok(FindProperty(s.local, s.cls, name).value.defaultValue)
  {
    ParentAndChildExclusive(name);
    var prop := FindProperty(s.local, s.cls, name).value;
    assert ClearValue(s, name, prot, false, hooks) == ClearNamedValue(s, name, prot, hooks);
    HandlerReached(s, prop, Null, true, hooks);
    assert CallPropertyValueWrite(s, prop, Null, true, hooks) == (Done(Success), Null, s);
    ReadValuePlain(s.local, s.cls, s.values - {name}, s.stack, name, false);
  }

  /** Clearing an object-typed property with a stored object hands the clearing of that object's
      properties to it and keeps the object stored. */
  lemma {:induction false} ClearObjectClearsChildren(s: ObjState, name: string, prot: bool, hooks: Hooks, c: ObjId)
    requires !s.frozen && WellFormed(s.stack) && PlainName(name)
    requires FindProperty(s.local, s.cls, name).Some? && name in s.values && s.values[name] == ObjV(c)
    requires FindProperty(s.local, s.cls, name).value.valueType == CtObject
    requires prot || !FindProperty(s.local, s.cls, name).value.readOnly
    ensures ClearValue(s, name, prot, false, hooks) == (ClearChildren(c, prot), s)
  {
    ParentAndChildExclusive(name);
  }

  /** A child-relative write goes, unchecked here, to the object stored under its first segment;
      the read-only flag of that segment does not stop it. */
  lemma {:induction false} ChildWriteForwarded(s: ObjState, head: string, sub: string, v: Value, te: bool, prot: bool, hooks: Hooks, c: ObjId)
    requires !s.frozen && WellFormed(s.stack) && v != Null && PlainName(head) && head != []
    requires FindProperty(s.local, s.cls, head).Some? && head in s.values && s.values[head] == ObjV(c)
    ensures SetValue(s, head + "." + sub, v, te, prot, false, hooks) == (ForwardSet(c, sub, v, prot), s)
    ensures ClearValue(s, head + "." + sub, prot, false, hooks) == (ForwardClear(c, sub, prot), s)
  {
    var name := head + "." + sub;
    assert name[0] == head[0];
    assert name[|head|] == '.';
    SplitOnFirstDotUnique(name, head, sub, "");
    ReadValuePlain(s.local, s.cls, s.values, s.stack, head, false);
  }

  /** Reads of parent-relative names: `.a` reads `a` on the object itself, a name made only of
      dots is InvalidParameter. */
  lemma {:induction false} ParentReads(s: ObjState, self: ObjId, owners: map<ObjId, ObjId>, rest: string, ru: bool)
    requires rest != [] && rest[0] != '.'
    ensures GetValue(s, self, owners, "." + rest, ru) == ForwardRead(self, rest)
    ensures GetValue(s, self, owners, "..", ru) == Read(Err(InvalidParameter))
  {
    SingleDotIsSelf(self, rest, owners);
    assert LeadingDots("..") == 2 by {
      assert ".."[1..] == ".";
      assert "."[1..] == "";
    }
  }

  /** A read of a name without a dot is the value read of the store, the stack consulted; for
      a property without an index and no write in flight, that is its stored value, or its
      default when nothing is stored. */
  lemma {:induction false} PlainReadIsStoreRead(s: ObjState, self: ObjId, owners: map<ObjId, ObjId>, name: string, ru: bool)
    requires '.' !in name
    ensures GetValue(s, self, owners, name, ru) == Read(ReadValue(s.local, s.cls, s.values, s.stack, name, ru))
    ensures PlainName(name) && FindProperty(s.local, s.cls, name).Some? && (!ru || name !in s.stack) ==>
              GetValue(s, self, owners, name, ru)
                == Read(Ok(if name in s.values then s.values[name] else FindProperty(s.local, s.cls, name).value.defaultValue))
  {
    ParentAndChildExclusive(name);
    if PlainName(name) && FindProperty(s.local, s.cls, name).Some? && (!ru || name !in s.stack) {
      ReadValuePlain(s.local, s.cls, s.values, s.stack, name, ru);
    }
  }

  // ---------------------------------------------------------------------------------------
  // The update stack between calls

  /** When no write is in flight before a write or clear, none is in flight after it: every
      registration on the update stack is matched by its unregistration. */
  lemma {:induction false} SetRestoresEmptyStack(s: ObjState, name: string, v: Value, te: bool, prot: bool, batch: bool, hooks: Hooks)
    requires s.stack == map[]
    ensures SetValue(s, name, v, te, prot, batch, hooks).1.stack == map[]
  {
    if v != Null && !s.frozen && !batch && !IsParentProperty(name) {
      assert SetValue(s, name, v, te, prot, batch, hooks) == SetNamedValue(s, name, v, te, prot, hooks);
      SetNamedRestoresEmptyStack(s, name, v, te, prot, hooks);
    }
  }

  lemma {:induction false} SetNamedRestoresEmptyStack(s: ObjState, name: string, v: Value, te: bool, prot: bool, hooks: Hooks)
    requires s.stack == map[]
    ensures SetNamedValue(s, name, v, te, prot, hooks).1.stack == map[]
  {
    var found := FindProperty(s.local, s.cls, name);
    if te && !IsChildProperty(name) && found.Some? && CheckWrite(found.value, v, prot, hooks).Ok? {
      var w := CheckWrite(found.value, v, prot, hooks).value;
      assert found.value.name !in s.stack;
      var s3 := CallPropertyValueWrite(s, found.value, w, false, hooks).2;
      assert s3.stack == map[];
      assert SetNamedValue(s, name, v, te, prot, hooks).1.stack == s3.stack;
    }
  }

  lemma {:induction false} ClearRestoresEmptyStack(s: ObjState, name: string, prot: bool, batch: bool, hooks: Hooks)
    requires s.stack == map[]
    ensures ClearValue(s, name, prot, batch, hooks).1.stack == map[]
  {
    if !s.frozen && !batch && !IsParentProperty(name) {
      assert ClearValue(s, name, prot, batch, hooks) == ClearNamedValue(s, name, prot, hooks);
      var found := FindProperty(s.local, s.cls, name);
      if !IsChildProperty(name) && found.Some? {
        assert CallPropertyValueWrite(s, found.value, Null, true, hooks).2.stack == map[];
      }
    }
  }

  // ---------------------------------------------------------------------------------------
  // Update transactions

  /** Closing a transaction that is not open is InvalidState and changes nothing; closing a
      nested one only lowers the depth. */
  lemma {:induction false} EndUpdateDepth(s: ObjState, hooks: Hooks)
    requires WellFormed(s.stack)
    ensures s.updateCount == 0 ==> EndUpdate(s, hooks).0 == Failed(InvalidState) && EndUpdate(s, hooks).1 == s
    ensures s.updateCount > 1 ==>
              EndUpdate(s, hooks).0 == Success && EndUpdate(s, hooks).1 == s.(updateCount := s.updateCount - 1)
  {
  }

  /** Opening and closing a transaction with nothing recorded leaves the object as it was. */
  lemma {:induction false} BeginEndEmpty(s: ObjState, hooks: Hooks)
    requires !s.frozen && WellFormed(s.stack) && s.pending == []
    ensures EndUpdate(BeginUpdate(s).1, hooks) == (Success, s, EndReport([], map[], []))
  {
  }

  /** A replay that gets through every action empties the pending list and closes the
      transaction. */
  lemma {:induction false} EndUpdateEmptiesPending(s: ObjState, hooks: Hooks)
    requires WellFormed(s.stack) && s.updateCount == 1
    requires ReplayAll(s.(updateCount := 0, pending := []), s.pending, hooks).failure.None?
    ensures EndUpdate(s, hooks).0 == Success
    ensures EndUpdate(s, hooks).1.pending == [] && EndUpdate(s, hooks).1.updateCount == 0
  {
  }

  /** A replay whose first step fails stops there. The failure is InvalidParameter when the
      re-read after that action throws, and otherwise the action's own failure. The pending
      list keeps every action, the first one with the value the re-read left in it. */
  lemma {:induction false} EndUpdateStopsAtFailure(s: ObjState, hooks: Hooks)
    requires WellFormed(s.stack) && s.updateCount == 1 && |s.pending| > 0
    requires var (o, s2) := ApplyPending(s.(updateCount := 0, pending := []), s.pending[0], hooks);
             || (o.Done? && o.status.Failed?)
             || (o != Done(Ignored) && RereadValue(s2, s.pending[0].name, s.pending[0].value).Err?)
    ensures var (o, s2) := ApplyPending(s.(updateCount := 0, pending := []), s.pending[0], hooks);
            var reread := RereadValue(s2, s.pending[0].name, s.pending[0].value);
            && EndUpdate(s, hooks).0 == Failed(if reread.Err? then InvalidParameter else o.status.err)
            && EndUpdate(s, hooks).1.pending[0]
                 == if reread.Ok? then s.pending[0].(value := reread.value) else s.pending[0]
    ensures |EndUpdate(s, hooks).1.pending| == |s.pending|
    ensures EndUpdate(s, hooks).1.pending[1..] == s.pending[1..]
  {
    var s1 := s.(updateCount := 0, pending := []);
    var p0 := Replay(s1, [], [], [], None);
    var p1 := ReplayStep(p0, s.pending[0], hooks);
    assert ReplayAll(s1, s.pending, hooks) == ReplayRest(p0, s.pending, hooks) == ReplayFrom(p1, s.pending[1..], hooks);
  }

  /** Replaying a write of `a[x]` to an object with a property `a` fails with InvalidParameter:
      the re-read of `a[x]` throws while parsing its index, whatever the write returned. */
  lemma {:induction false} EndUpdateUnparsableIndex(s: ObjState, hooks: Hooks)
    requires WellFormed(s.stack) && s.updateCount == 1
    requires FindProperty(s.local, s.cls, "a").Some?
    requires s.pending == [PendingAction("a[x]", true, false, IntV(1))]
    ensures EndUpdate(s, hooks).0 == Failed(InvalidParameter)
  {
    var s1 := s.(updateCount := 0, pending := []);
    var s2 := ApplyPending(s1, s.pending[0], hooks).1;
    UnparsableIndexThrows(s2, IntV(1));
    EndUpdateStopsAtFailure(s, hooks);
  }

  /** The re-read of `a[x]` throws InvalidParameter once a property `a` exists. */
  lemma UnparsableIndexThrows(s: ObjState, recorded: Value)
    requires FindProperty(s.local, s.cls, "a").Some?
    ensures RereadValue(s, "a[x]", recorded) == Err(InvalidParameter)
  {
    assert "a" + ['['] + "x]" == "a[x]";
    BaseBeforeBracket("a", "x]");
    assert "a[x]"[2..] == "x]";
    assert Strtol("x]").0 == 0;
  }

  /** Batching a write and closing the transaction stores what the write would have stored
      had it been made directly. */
  lemma {:induction false} BatchedWriteReplays(s: ObjState, name: string, v: Value, prot: bool, hooks: Hooks)
    requires !s.frozen && WellFormed(s.stack) && v != Null && s.updateCount == 1 && s.pending == []
    ensures var t := SetValue(s, name, v, true, prot, true, hooks).1;
            var direct := SetValue(s.(updateCount := 0), name, v, true, prot, false, hooks);
            EndUpdate(t, hooks).1.values == direct.1.values
  {
    var a := PendingAction(name, true, prot, v);
    BatchRecords(s, name, v, true, prot, hooks);
    assert SetValue(s, name, v, true, prot, true, hooks).1 == s.(pending := [a]);
    EndUpdateSingle(s.(pending := [a]), hooks);
  }

  /** Closing a transaction with one recorded action stores what replaying it stores. */
  lemma {:induction false} EndUpdateSingle(t: ObjState, hooks: Hooks)
    requires WellFormed(t.stack) && t.updateCount == 1 && |t.pending| == 1
    ensures EndUpdate(t, hooks).1.values == ApplyPending(t.(updateCount := 0, pending := []), t.pending[0], hooks).1.values
  {
    var t0 := t.(updateCount := 0, pending := []);
    var p0 := Replay(t0, [], [], [], None);
    var p1 := ReplayStep(p0, t.pending[0], hooks);
    assert ReplayAll(t0, t.pending, hooks) == ReplayRest(p0, t.pending, hooks) == ReplayFrom(p1, t.pending[1..], hooks);
    assert p1.state == ApplyPending(t0, t.pending[0], hooks).1;
  }

  /** The change set of the end-of-update event maps each name to the value of the last action
      recorded under it. */
  lemma {:induction false} ChangesKeepLastValue(actions: seq<PendingAction>, k: nat)
    requires k < |actions|
    requires forall j :: k < j < |actions| ==> actions[j].name != actions[k].name
    ensures EndApplyProperties(actions).1[actions[k].name] == actions[k].value
    decreases |actions|
  {
    if k < |actions| - 1 {
      var prefix := actions[..|actions| - 1];
      assert forall j :: k < j < |prefix| ==> prefix[j] == actions[j];
      ChangesKeepLastValue(prefix, k);
    }
  }

  // ---------------------------------------------------------------------------------------
  // Schema operations and flags

  /** A property added to this object is found under its name, shadowing a class property,
      and removing it again restores the object when it stored nothing. */
  lemma {:induction false} AddThenRemove(s: ObjState, prop: Property, cloneId: ObjId)
    requires !s.frozen && IndexOfName(s.local, prop.name).None?
    requires prop.valueType != CtObject && prop.name !in s.values
    ensures AddProperty(s, prop, cloneId) == (Success, s.(local := s.local + [prop]))
    ensures FindProperty(s.local + [prop], s.cls, prop.name) == Some(prop)
    ensures RemoveProperty(AddProperty(s, prop, cloneId).1, prop.name) == (Success, s)
  {
    AppendedIsFound(s.local, prop);
    var l := s.local + [prop];
    var t := s.(local := l);
    assert l[..|s.local|] + l[|s.local| + 1..] == s.local;
    assert s.values - {prop.name} == s.values;
    assert RemoveProperty(t, prop.name) == (Success, t.(local := s.local, values := s.values));
  }

  lemma {:induction false} AppendedIsFound(props: seq<Property>, prop: Property)
    requires IndexOfName(props, prop.name).None?
    ensures IndexOfName(props + [prop], prop.name) == Some(|props|)
  {
    var r := IndexOfName(props + [prop], prop.name);
    assert (props + [prop])[|props|].name == prop.name;
    assert forall k :: 0 <= k < |props| ==> (props + [prop])[k] == props[k];
  }

  /** Adding keeps local names unique; a second add of the same name is AlreadyExists. */
  lemma {:induction false} AddKeepsNamesUnique(s: ObjState, prop: Property, cloneId: ObjId, other: Property, cloneId2: ObjId)
    requires UniqueNames(s.local) && other.name == prop.name
    ensures UniqueNames(AddProperty(s, prop, cloneId).1.local)
    ensures AddProperty(s, prop, cloneId).0 != Failed(Frozen) ==>
              AddProperty(AddProperty(s, prop, cloneId).1, other, cloneId2) == (Failed(AlreadyExists), AddProperty(s, prop, cloneId).1)
  {
    var r := AddProperty(s, prop, cloneId).1;
    if !s.frozen && IndexOfName(s.local, prop.name).None? {
      var added := r.local[|r.local| - 1];
      assert r.local == s.local + [added] && added.name == prop.name;
      AppendedIsFound(s.local, added);
      forall i, j | 0 <= i < j < |r.local|
        ensures r.local[i].name != r.local[j].name
      {
        if j == |s.local| {
          assert r.local[i] == s.local[i];
        } else {
          assert r.local[i] == s.local[i] && r.local[j] == s.local[j];
        }
      }
    }
  }

  /** An object-typed property with an object default stores that object as its value and
      keeps a fresh clone as its default, so reads see the stored object. */
  lemma {:induction false} AddObjectProperty(s: ObjState, prop: Property, cloneId: ObjId, d: ObjId)
    requires !s.frozen && IndexOfName(s.local, prop.name).None?
    requires prop.valueType == CtObject && prop.defaultValue == ObjV(d) && PlainName(prop.name)
    ensures var r := AddProperty(s, prop, cloneId);
            && r.0 == Success
            && r.1.values == s.values[prop.name := ObjV(d)]
            && FindProperty(r.1.local, r.1.cls, prop.name) == Some(prop.(defaultValue := ObjV(cloneId)))
            && ReadValue(r.1.local, r.1.cls, r.1.values, r.1.stack, prop.name, false) == Ok(ObjV(d))
  {
    AppendedIsFound(s.local, prop.(defaultValue := ObjV(cloneId)));
    var r := AddProperty(s, prop, cloneId).1;
    ReadValuePlain(r.local, r.cls, r.values, r.stack, prop.name, false);
  }

  /** Only local properties can be removed, and removal keeps names unique. */
  lemma {:induction false} RemoveOnlyLocal(s: ObjState, name: string)
    requires !s.frozen && UniqueNames(s.local)
    ensures IndexOfName(s.local, name).None? ==> RemoveProperty(s, name) == (Failed(NotFound), s)
    ensures UniqueNames(RemoveProperty(s, name).1.local)
    ensures RemoveProperty(s, name).0 == Success ==>
              IndexOfName(RemoveProperty(s, name).1.local, name).None? && name !in RemoveProperty(s, name).1.values
  {
    match IndexOfName(s.local, name)
    case None =>
    case Some(k) =>
      var l := s.local[..k] + s.local[k + 1..];
      forall i | 0 <= i < |l|
        ensures l[i].name != name
      {
        if i < k { assert l[i] == s.local[i]; } else { assert l[i] == s.local[i + 1]; }
      }
      forall i, j | 0 <= i < j < |l|
        ensures l[i].name != l[j].name
      {
        var i' := if i < k then i else i + 1;
        var j' := if j < k then j else j + 1;
        assert l[i] == s.local[i'] && l[j] == s.local[j'];
      }
  }

  /** A custom order set on the object decides the listing: the properties it names come
      first, at most once each and in its order, and the listing stays a permutation of the
      merged lookup. Clearing the order lists the lookup itself. */
  lemma {:induction false} OrderDecidesListing(s: ObjState, order: seq<string>, includeInvisible: bool, bind: bool)
    requires !s.frozen && (includeInvisible || bind)
    ensures var t := SetPropertyOrder(s, Some(order));
            var r := Ordering.GetProperties(t.1.local, t.1.cls, t.1.customOrder, includeInvisible, bind);
            && t.0 == Success && r.Ok?
            && multiset(r.value) == multiset(Ordering.BuildLookup(s.cls + s.local, includeInvisible, bind))
            && forall i, j :: 0 <= i < j < |r.value| && r.value[j].name in order ==>
                 r.value[i].name in order && Ordering.Position(order, r.value[i].name) < Ordering.Position(order, r.value[j].name)
    ensures var t := SetPropertyOrder(s, None);
            Ordering.GetProperties(t.1.local, t.1.cls, t.1.customOrder, includeInvisible, bind)
              == Ok(Ordering.BuildLookup(s.cls + s.local, includeInvisible, bind))
  {
    Ordering.GetPropertiesShape(s.local, s.cls, order, includeInvisible, bind);
    Ordering.NoOrderIsLookup(s.local, s.cls, includeInvisible, bind);
  }

  /** Freezing is final and once: a second freeze is Ignored. */
  lemma {:induction false} FreezeOnce(s: ObjState)
    ensures Freeze(s).1.frozen
    ensures Freeze(Freeze(s).1) == (Ignored, Freeze(s).1)
  {
  }

  /** A path can be assigned once; later assignments are Ignored. */
  lemma {:induction false} SetPathOnce(s: ObjState, p: string, q: string)
    requires s.path == [] && p != []
    ensures SetPath(s, p) == (Success, s.(path := p))
    ensures SetPath(SetPath(s, p).1, q) == (Ignored, SetPath(s, p).1)
  {
  }

  /** Assigning the current owner again is Ignored. */
  lemma {:induction false} SetOwnerOnce(s: ObjState, o: Option<ObjId>)
    ensures SetOwner(SetOwner(s, o).1, o) == (Ignored, SetOwner(s, o).1)
    ensures SetOwner(s, o).1.owner == o
  {
  }
}
