/** The state of one Property Object and the meaning of its operations: writes and clears with
    their check pipeline and write events, reads, update transactions, schema changes and the
    one-shot flags. Requests on child- or parent-relative names that the source forwards to
    another object are returned as forwarding outcomes. */
module ObjectModel {
  import opened Values
  import opened Properties
  import opened PropertyNames
  import opened UpdateStack
  import opened ValueStore

  /** A write or clear recorded while an update transaction is open (`UpdatingAction`). */
  datatype PendingAction = PendingAction(name: string, setValue: bool, protectedAccess: bool, value: Value)

  /** The fields of a Property Object that the engine reads and updates. */
  datatype ObjState = ObjState(
    frozen: bool,
    updateCount: nat,
    pending: seq<PendingAction>,
    local: seq<Property>,
    cls: seq<Property>,
    values: Store,
    stack: Table,
    customOrder: seq<string>,
    path: string,
    owner: Option<ObjId>)

  /** What a write or clear did: finished here with a status, or handed on to a child object
      (`setPropertyValue`/`setProtectedPropertyValue`, `clearPropertyValue`, or the clearing of
      every property of an object-typed value). */
  datatype Outcome =
    | Done(status: Status)
    | ForwardSet(child: ObjId, subName: string, value: Value, protectedAccess: bool)
    | ForwardClear(child: ObjId, subName: string, protectedAccess: bool)
    | ClearChildren(child: ObjId, protectedAccess: bool)

  /** Writes and clears change only the stored values, the update stack and the pending list. */
  predicate SameSchema(s: ObjState, t: ObjState)
  {
    t.(values := s.values, stack := s.stack, pending := s.pending) == s
  }

  /** The object stored under the name of a child-relative path's first segment. */
  function ChildObject(s: ObjState, head: string): Result<ObjId>
  {
    match ReadValue(s.local, s.cls, s.values, s.stack, head, false)
    case Err(e) => Err(e)
    case Ok(ObjV(c)) => Ok(c)
    case Ok(_) => Err(NoInterface)
  }

  /** The value a write event reports as the old one: the stored value, the default when there
      is none, and an unassigned value when the stored one cannot be read. */
  function OldValue(vals: Store, name: string, default: Value): (r: Value)
    ensures '[' !in name && name in vals ==> r == vals[name]
    ensures '[' !in name && name !in vals ==> r == default
  {
    match ReadLocalValue(vals, name)
    case Ok(v) => v
    case Err(NotFound) => default
    case Err(_) => Null
  }

  /** The object a child-relative name descends into and the rest of the name: the first
      segment must name a property whose value is an object. */
  function ChildRequest(s: ObjState, name: string): (r: Result<(ObjId, string)>)
    ensures r.Ok? ==> r.value.1 == SplitOnFirstDot(name, "").1
  {
    var (head, subName) := SplitOnFirstDot(name, "");
    if FindProperty(s.local, s.cls, head).None? then Err(NotFound)
    else
      match ChildObject(s, head)
      case Err(e) => Err(e)
      case Ok(c) => Ok((c, subName))
  }

  /** `setPropertyValueInternal`. The checks run in this order: an unassigned value, a frozen
      object, batching, a parent-relative name; a child-relative name is handed to the object
      its first segment holds, a plain name is written here. */
  function SetValue(s: ObjState, name: string, v: Value, triggerEvent: bool, protectedAccess: bool,
                    batch: bool, hooks: Hooks): (r: (Outcome, ObjState))
    requires WellFormed(s.stack)
    ensures WellFormed(r.1.stack) && SameSchema(s, r.1)
    ensures !triggerEvent ==> r.1.stack == s.stack
    ensures triggerEvent && !batch ==> r.0 != Done(Ignored)
    decreases if triggerEvent then 6 else 1
  {
    if v == Null then (Done(Failed(ArgumentNull)), s)
    else if s.frozen then (Done(Failed(Frozen)), s)
    else if batch then (Done(Success), s.(pending := s.pending + [PendingAction(name, true, protectedAccess, v)]))
    else if IsParentProperty(name) then (Done(Failed(AccessDenied)), s)
    else SetNamedValue(s, name, v, triggerEvent, protectedAccess, hooks)
  }

  /** The rest of a write once the front checks have passed. A child-relative name is handed to
      the object its first segment holds. A plain name is looked up and checked by
      `CheckWrite`; then the value is stored directly, or through the write event when
      `triggerEvent` is set. A write the event path ignores still succeeds; the checked value
      is stored only when the handler kept it. */
  function SetNamedValue(s: ObjState, name: string, v: Value, triggerEvent: bool, protectedAccess: bool,
                         hooks: Hooks): (r: (Outcome, ObjState))
    requires WellFormed(s.stack)
    ensures WellFormed(r.1.stack) && SameSchema(s, r.1)
    ensures !triggerEvent ==> r.1.stack == s.stack
    ensures triggerEvent ==> r.0 != Done(Ignored)
    decreases if triggerEvent then 5 else 0
  {
    if IsChildProperty(name) then
      match ChildRequest(s, name)
      case Err(e) => (Done(Failed(e)), s)
      case Ok((c, subName)) => (ForwardSet(c, subName, v, protectedAccess), s)
    else
      match FindProperty(s.local, s.cls, name)
      case None => (Done(Failed(NotFound)), s)
      case Some(prop) =>
        match CheckWrite(prop, v, protectedAccess, hooks)
        case Err(e) => (Done(Failed(e)), s)
        case Ok(w) =>
          if !triggerEvent then
            var (written, vals) := WriteLocalValue(s.values, prop.name, w, prop.defaultValue, false);
            (Done(if written then Success else Ignored), s.(values := vals))
          else
            var (o, newValue, s3) := CallPropertyValueWrite(s, prop, w, false, hooks);
            if o == Done(Ignored) then (Done(Success), s3)
            else if o == Done(Success) && newValue == w then
              (Done(Success), s3.(values := WriteLocalValue(s3.values, prop.name, w, prop.defaultValue, false).1))
            else (o, s3)
  }

  /** `callPropertyValueWrite`: the write is registered on the update stack (a repeat of the
      value already being written is ignored); at the outermost level a write that would not
      change the store is ignored. Otherwise the handler sees the proposed value (the default
      for a clear) and the old one and may replace it; when it does, the replacement is written
      through a nested protected write without events. Returns the outcome, the value to store
      and the new state. */
  function CallPropertyValueWrite(s: ObjState, prop: Property, newValue: Value, isClear: bool, hooks: Hooks)
    : (r: (Outcome, Value, ObjState))
    requires WellFormed(s.stack)
    ensures WellFormed(r.2.stack) && SameSchema(s, r.2)
    ensures prop.name !in s.stack ==> r.2.stack == s.stack
    decreases 4
  {
    var (registered, t1) := Register(s.stack, prop.name, newValue);
    if !registered then (Done(Ignored), newValue, s.(stack := t1))
    else RunWriteHandler(s, t1, prop, newValue, isClear, hooks)
  }

  /** `callPropertyValueWrite` once the write is registered (`t1` is the stack after the
      registration, `s` the object before it). */
  function RunWriteHandler(s: ObjState, t1: Table, prop: Property, newValue: Value, isClear: bool, hooks: Hooks)
    : (r: (Outcome, Value, ObjState))
    requires WellFormed(s.stack) && Register(s.stack, prop.name, newValue) == (true, t1)
    ensures WellFormed(r.2.stack) && SameSchema(s, r.2)
    ensures prop.name !in s.stack ==> r.2.stack == s.stack
    decreases 3
  {
    var name := prop.name;
    if name !in s.stack && newValue != Null && !ShouldWriteLocalValue(s.values, name, newValue, prop.defaultValue) then
      (Done(Ignored), newValue, s.(stack := Unregister(t1, name).1))
    else
      var oldValue := OldValue(s.values, name, prop.defaultValue);
      var handled := hooks.onWrite(name, if isClear then prop.defaultValue else newValue, oldValue);
      var (shouldUpdate, t2) := Unregister(t1, name);
      ApplyHandlerResult(s.(stack := t2), prop, newValue, isClear, handled, shouldUpdate, hooks)
  }

  /** The end of `callPropertyValueWrite`, once the handler has run and the write has been
      unregistered: a handler failure is returned; a write the stack says is superseded is
      Ignored; a replacement equal to what was proposed (or the default, for a clear) needs no
      further write; any other replacement is written through a nested protected write without
      events. */
  function ApplyHandlerResult(s: ObjState, prop: Property, newValue: Value, isClear: bool,
                              handled: Result<Value>, shouldUpdate: bool, hooks: Hooks)
    : (r: (Outcome, Value, ObjState))
    requires WellFormed(s.stack)
    ensures WellFormed(r.2.stack) && SameSchema(s, r.2) && r.2.stack == s.stack
    decreases 2
  {
    match handled
    case Err(e) => (Done(Failed(e)), newValue, s)
    case Ok(h) =>
      if !shouldUpdate then (Done(Ignored), newValue, s)
      else if isClear && h == prop.defaultValue then (Done(Success), newValue, s)
      else if newValue == h then (Done(Success), newValue, s)
      else
        var (o, s3) := SetValue(s, prop.name, h, false, true, false, hooks);
        (o, h, s3)
  }

  /** `clearPropertyValueInternal`: the same front checks as a write (frozen, batch,
      parent-relative name, child-relative name); a plain name is cleared here. */
  function ClearValue(s: ObjState, name: string, protectedAccess: bool, batch: bool, hooks: Hooks)
    : (r: (Outcome, ObjState))
    requires WellFormed(s.stack)
    ensures WellFormed(r.1.stack) && SameSchema(s, r.1)
    decreases 6
  {
    if s.frozen then (Done(Failed(Frozen)), s)
    else if batch then (Done(Success), s.(pending := s.pending + [PendingAction(name, false, protectedAccess, Null)]))
    else if IsParentProperty(name) then (Done(Failed(AccessDenied)), s)
    else ClearNamedValue(s, name, protectedAccess, hooks)
  }

  /** The rest of a clear once the front checks have passed. A child-relative name is handed to
      the object its first segment holds. A plain name is looked up and checked for read-only
      access; then a property without a stored value is Ignored, an object-typed one has its
      child's properties cleared, and any other goes through the write event, after which the
      stored value is removed unless the handler supplied a replacement. */
  function ClearNamedValue(s: ObjState, name: string, protectedAccess: bool, hooks: Hooks)
    : (r: (Outcome, ObjState))
    requires WellFormed(s.stack)
    ensures WellFormed(r.1.stack) && SameSchema(s, r.1)
    decreases 5
  {
    if IsChildProperty(name) then
      match ChildRequest(s, name)
      case Err(e) => (Done(Failed(e)), s)
      case Ok((c, subName)) => (ForwardClear(c, subName, protectedAccess), s)
    else
      match FindProperty(s.local, s.cls, name)
      case None => (Done(Failed(NotFound)), s)
      case Some(prop) =>
        if !protectedAccess && prop.readOnly then (Done(Failed(AccessDenied)), s)
        else if prop.name !in s.values then (Done(Ignored), s)
        else if prop.valueType == CtObject then
          match s.values[prop.name]
          case ObjV(c) => (ClearChildren(c, protectedAccess), s)
          case Null => (Done(Success), s)
          case _ => (Done(Failed(NoInterface)), s)
        else
          var (o, newValue, s3) := CallPropertyValueWrite(s, prop, Null, true, hooks);
          if o == Done(Ignored) then (Done(Success), s3)
          else if o == Done(Success) && newValue == Null then (Done(Success), s3.(values := s3.values - {prop.name}))
          else (o, s3)
  }

  /** What a read found: a value or failure here, or a path to read on another object. */
  datatype ReadOutcome = Read(result: Result<Value>) | ForwardRead(target: ObjId, subName: string)

  /** `getPropertyValueInternal`: a parent-relative name climbs the owner chain (`owners` maps
      each object to its owner) and reads the rest of the path there; a child-relative name
      reads its first segment, which must hold an object, and reads the rest there; a plain
      name is read here. */
  function GetValue(s: ObjState, self: ObjId, owners: map<ObjId, ObjId>, name: string, retrieveUpdatingValue: bool)
    : (r: ReadOutcome)
    ensures r.ForwardRead? ==> '.' in name && |r.subName| < |name|
    ensures r.ForwardRead? && IsParentProperty(name) ==> r.subName == ParentRemainder(name)
    ensures r.ForwardRead? && IsChildProperty(name) ==> r.subName == SplitOnFirstDot(name, "").1
  {
    if IsParentProperty(name) then
      if ParentRemainder(name) == [] then Read(Err(InvalidParameter))
      else
        match Ancestor(self, ParentLevels(name), owners)
        case Err(e) => Read(Err(e))
        case Ok(target) => ForwardRead(target, ParentRemainder(name))
    else if IsChildProperty(name) then
      match ChildRequest(s, name)
      case Err(e) => Read(Err(e))
      case Ok((c, subName)) => ForwardRead(c, subName)
    else Read(ReadValue(s.local, s.cls, s.values, s.stack, name, retrieveUpdatingValue))
  }

  // ---------------------------------------------------------------------------------------
  // Update transactions

  /** `beginUpdateInternal` (without the deep variant). */
  function BeginUpdate(s: ObjState): (r: (Status, ObjState))
    ensures r.0 == Success <==> !s.frozen
    ensures r.0 != Success ==> r == (Failed(Frozen), s)
    ensures r.0 == Success ==> r.1.updateCount == s.updateCount + 1 && r.1.(updateCount := s.updateCount) == s
  {
    if s.frozen then (Failed(Frozen), s) else (Success, s.(updateCount := s.updateCount + 1))
  }

  /** Replays one pending action as `endApplyUpdate` does: with events, not batched. */
  function ApplyPending(s: ObjState, a: PendingAction, hooks: Hooks): (r: (Outcome, ObjState))
    requires WellFormed(s.stack)
    ensures WellFormed(r.1.stack) && SameSchema(s, r.1)
    ensures a.setValue ==> r.0 != Done(Ignored)
  {
    if a.setValue then SetValue(s, a.name, a.value, true, a.protectedAccess, false, hooks)
    else ClearValue(s, a.name, a.protectedAccess, false, hooks)
  }

  /** The progress of a replay: the state, the actions replayed so far (with their values
      re-read), the names whose replay was ignored, the requests forwarded to children, and
      the failure that ended the replay, if any. */
  datatype Replay = Replay(state: ObjState, done: seq<PendingAction>, ignored: seq<string>,
                           forwarded: seq<Outcome>, failure: Option<ErrKind>)

  /** The replay of the remaining actions `rest` after the progress `p`; it stops at the first
      failure. An action that was not ignored has its recorded value replaced by the value read
      back after it. */
  function ReplayFrom(p: Replay, rest: seq<PendingAction>, hooks: Hooks): (r: Replay)
    requires WellFormed(p.state.stack)
    ensures WellFormed(r.state.stack) && SameSchema(p.state, r.state)
    ensures p.failure.Some? ==> r == p
    ensures |p.done| <= |r.done| <= |p.done| + |rest|
    ensures r.failure.None? ==> |r.done| == |p.done| + |rest|
    decreases |rest|, 1
  {
    if rest == [] || p.failure.Some? then p else ReplayRest(p, rest, hooks)
  }

  /** One step of the replay followed by the replay of what remains. */
  function ReplayRest(p: Replay, rest: seq<PendingAction>, hooks: Hooks): (r: Replay)
    requires WellFormed(p.state.stack) && rest != []
    ensures WellFormed(r.state.stack) && SameSchema(p.state, r.state)
    ensures |p.done| < |r.done| <= |p.done| + |rest|
    ensures r.failure.None? ==> |r.done| == |p.done| + |rest|
    decreases |rest|, 0
  {
    ReplayFrom(ReplayStep(p, rest[0], hooks), rest[1..], hooks)
  }

  /** The replay of a whole pending list from the state `s`. */
  function ReplayAll(s: ObjState, actions: seq<PendingAction>, hooks: Hooks): (r: Replay)
    requires WellFormed(s.stack)
    ensures WellFormed(r.state.stack) && SameSchema(s, r.state)
    ensures |r.done| <= |actions|
    ensures r.failure.None? ==> |r.done| == |actions|
  {
    ReplayFrom(Replay(s, [], [], [], None), actions, hooks)
  }

  /** The replay keeps what it has done and adds the remaining actions in order, each with its
      name and flags. */
  lemma {:induction false} ReplayKeepsActions(p: Replay, rest: seq<PendingAction>, hooks: Hooks)
    requires WellFormed(p.state.stack)
    ensures ReplayFrom(p, rest, hooks).done[..|p.done|] == p.done
    ensures SameActions(ReplayFrom(p, rest, hooks).done[|p.done|..], rest)
    decreases |rest|
  {
    var r := ReplayFrom(p, rest, hooks);
    if rest != [] && p.failure.None? {
      var p1 := ReplayStep(p, rest[0], hooks);
      ReplayKeepsActions(p1, rest[1..], hooks);
      assert r == ReplayRest(p, rest, hooks) == ReplayFrom(p1, rest[1..], hooks);
      assert r.done[..|p1.done|] == p1.done;
      assert r.done[..|p.done|] == r.done[..|p1.done|][..|p.done|];
      var tail := r.done[|p.done|..];
      assert tail[0] == p1.done[|p.done|];
      assert forall k :: 1 <= k < |tail| ==> tail[k] == r.done[|p1.done|..][k - 1];
    }
  }

  /** `done` replays a prefix of `actions`. */
  predicate SameActions(done: seq<PendingAction>, actions: seq<PendingAction>)
  {
    |done| <= |actions| && forall k :: 0 <= k < |done| ==> SameAction(done[k], actions[k])
  }

  /** The same action, except perhaps for its recorded value. */
  predicate SameAction(a: PendingAction, b: PendingAction)
  {
    a.name == b.name && a.setValue == b.setValue && a.protectedAccess == b.protectedAccess
  }

  /** One step of the replay loop. */
  function ReplayStep(p: Replay, a: PendingAction, hooks: Hooks): (r: Replay)
    requires WellFormed(p.state.stack)
    ensures WellFormed(r.state.stack) && SameSchema(p.state, r.state)
    ensures |r.done| == |p.done| + 1 && r.done[..|p.done|] == p.done && SameAction(r.done[|p.done|], a)
  {
    var (o, s1) := ApplyPending(p.state, a, hooks);
    var reread := if o == Done(Ignored) then Ok(a.value) else RereadValue(s1, a.name, a.value);
    Replay(s1, p.done + [if reread.Ok? then a.(value := reread.value) else a],
           p.ignored + (if o == Done(Ignored) then [a.name] else []),
           p.forwarded + (if o.Done? then [] else [o]),
           StepFailure(o, reread))
  }

  /** How a step ends the replay: an exception thrown by the re-read escapes before
      `checkErrorInfo` looks at the action's own status. */
  function StepFailure(o: Outcome, reread: Result<Value>): Option<ErrKind>
  {
    if reread.Err? then Some(reread.err)
    else if o.Done? && o.status.Failed? then Some(o.status.err)
    else None
  }

  /** The re-read `endApplyUpdate` makes after a replayed action that was not ignored
      (`getPropertyAndValueInternal` into the action's value): the value it leaves there, or the
      InvalidParameter that the index parse throws once the property is found. A read that
      fails leaves the recorded value, except that with nothing stored the default is assigned
      before a list index is found out of range. */
  function RereadValue(s: ObjState, name: string, recorded: Value): (r: Result<Value>)
    ensures r.Err? <==> && FindProperty(s.local, s.cls, NameWithoutIndex(name).0).Some?
                        && NameWithoutIndex(name).1.Some?
                        && ParseIndex(name[NameWithoutIndex(name).1.value + 1..]).Err?
    ensures r.Err? ==> r.err == InvalidParameter
    ensures ReadValue(s.local, s.cls, s.values, s.stack, name, false).Ok? ==>
              r == ReadValue(s.local, s.cls, s.values, s.stack, name, false)
    ensures FindProperty(s.local, s.cls, NameWithoutIndex(name).0).None? ==> r == Ok(recorded)
    ensures r.Ok? && FindProperty(s.local, s.cls, NameWithoutIndex(name).0).Some?
              && ReadValue(s.local, s.cls, s.values, s.stack, name, false).Err? ==>
              r.value == if ReadLocalValue(s.values, name) == Err(NotFound)
                         then FindProperty(s.local, s.cls, NameWithoutIndex(name).0).value.defaultValue
                         else recorded
  {
    var bracket := NameWithoutIndex(name).1;
    match FindProperty(s.local, s.cls, NameWithoutIndex(name).0)
    case None => Ok(recorded)
    case Some(prop) =>
      if bracket.Some? && ParseIndex(name[bracket.value + 1..]).Err? then Err(InvalidParameter)
      else
        match ReadValue(s.local, s.cls, s.values, s.stack, name, false)
        case Ok(v) => Ok(v)
        case Err(_) => Ok(if ReadLocalValue(s.values, name) == Err(NotFound) then prop.defaultValue else recorded)
  }

  /** A replay that has not failed takes its next step and replays the rest. */
  lemma ReplayAdvances(p: Replay, rest: seq<PendingAction>, hooks: Hooks)
    requires WellFormed(p.state.stack) && rest != [] && p.failure.None?
    ensures ReplayFrom(p, rest, hooks) == ReplayFrom(ReplayStep(p, rest[0], hooks), rest[1..], hooks)
  {
    assert ReplayFrom(p, rest, hooks) == ReplayRest(p, rest, hooks);
  }

  /** The step of a replay, given the outcome and the state its action produced. */
  lemma ReplayStepFrom(p: Replay, a: PendingAction, hooks: Hooks, o: Outcome, s1: ObjState)
    requires WellFormed(p.state.stack) && ApplyPending(p.state, a, hooks) == (o, s1)
    ensures ReplayStep(p, a, hooks).state == s1
    ensures var reread := if o == Done(Ignored) then Ok(a.value) else RereadValue(s1, a.name, a.value);
            && ReplayStep(p, a, hooks).done == p.done + [if reread.Ok? then a.(value := reread.value) else a]
            && ReplayStep(p, a, hooks).failure == StepFailure(o, reread)
    ensures ReplayStep(p, a, hooks).ignored == p.ignored + (if o == Done(Ignored) then [a.name] else [])
    ensures ReplayStep(p, a, hooks).forwarded == p.forwarded + (if o.Done? then [] else [o])
  {
  }

  /** The actions without the first one recorded under `name`. */
  function RemoveFirstNamed(actions: seq<PendingAction>, name: string): seq<PendingAction>
    decreases |actions|
  {
    if actions == [] then []
    else if actions[0].name == name then actions[1..]
    else [actions[0]] + RemoveFirstNamed(actions[1..], name)
  }

  /** Erasing leaves a list without the name as it is, and otherwise drops exactly one action
      and adds none. */
  lemma {:induction false} RemoveFirstNamedShape(actions: seq<PendingAction>, name: string)
    ensures (forall k :: 0 <= k < |actions| ==> actions[k].name != name) ==> RemoveFirstNamed(actions, name) == actions
    ensures (exists k :: 0 <= k < |actions| && actions[k].name == name) ==> |RemoveFirstNamed(actions, name)| == |actions| - 1
    ensures multiset(RemoveFirstNamed(actions, name)) <= multiset(actions)
    decreases |actions|
  {
    if actions != [] {
      var tail := actions[1..];
      assert actions == [actions[0]] + tail;
      RemoveFirstNamedShape(tail, name);
      assert forall k :: 0 <= k < |tail| ==> tail[k] == actions[k + 1];
      if exists k :: 0 <= k < |actions| && actions[k].name == name {
        var k :| 0 <= k < |actions| && actions[k].name == name;
        if actions[0].name != name {
          assert tail[k - 1].name == name;
        }
      }
    }
  }

  /** The actions without, for each ignored name in turn, the first action recorded under it. */
  function RemoveAllIgnored(actions: seq<PendingAction>, ignored: seq<string>): seq<PendingAction>
    decreases |ignored|
  {
    if ignored == [] then actions
    else RemoveFirstNamed(RemoveAllIgnored(actions, ignored[..|ignored| - 1]), ignored[|ignored| - 1])
  }

  /** Erasing the ignored names removes at most one action per ignored name, adds none, and
      leaves a list that holds none of those names as it is. */
  lemma {:induction false} RemoveAllIgnoredShape(actions: seq<PendingAction>, ignored: seq<string>)
    ensures multiset(RemoveAllIgnored(actions, ignored)) <= multiset(actions)
    ensures |actions| - |ignored| <= |RemoveAllIgnored(actions, ignored)| <= |actions|
    ensures (forall k :: 0 <= k < |actions| ==> actions[k].name !in ignored) ==> RemoveAllIgnored(actions, ignored) == actions
    decreases |ignored|
  {
    if ignored != [] {
      var prefix := ignored[..|ignored| - 1];
      var last := ignored[|ignored| - 1];
      RemoveAllIgnoredShape(actions, prefix);
      var before := RemoveAllIgnored(actions, prefix);
      RemoveFirstNamedShape(before, last);
      assert multiset(RemoveFirstNamed(before, last)) <= multiset(before);
      assert |RemoveFirstNamed(before, last)| >= |before| - 1 by {
        if exists k :: 0 <= k < |before| && before[k].name == last {
        } else {
          assert forall k :: 0 <= k < |before| ==> before[k].name != last;
        }
      }
      assert |multiset(RemoveFirstNamed(before, last))| <= |multiset(before)|;
      assert forall x :: x in prefix ==> x in ignored;
      if forall k :: 0 <= k < |actions| ==> actions[k].name !in ignored {
        assert before == actions;
        assert last == ignored[|ignored| - 1];
        assert forall k :: 0 <= k < |before| ==> before[k].name != last;
      }
    }
  }

  /** `endApplyProperties`: the names of the replayed actions in order, duplicates kept, and
      the change set that maps each name to the value of its last action. */
  function EndApplyProperties(actions: seq<PendingAction>): (r: (seq<string>, map<string, Value>))
    ensures |r.0| == |actions| && forall k :: 0 <= k < |actions| ==> r.0[k] == actions[k].name
    ensures r.1.Keys == set k | 0 <= k < |actions| :: actions[k].name
    decreases |actions|
  {
    if actions == [] then ([], map[])
    else
      var (names, changes) := EndApplyProperties(actions[..|actions| - 1]);
      var a := actions[|actions| - 1];
      (names + [a.name], changes[a.name := a.value])
  }

  /** What closing an update transaction reports besides its status: the names and the change
      set of the end-of-update event, and the requests forwarded to children during the
      replay. */
  datatype EndReport = EndReport(names: seq<string>, changes: map<string, Value>, forwarded: seq<Outcome>)

  /** `endUpdateInternal` (without the deep variant) with `endApplyUpdate`: closing the last open
      transaction replays the pending actions in order. A failing action ends the replay with
      its failure and leaves the pending list in place; otherwise the first action of each
      ignored name is dropped, the change set is built and the pending list is emptied. */
  function EndUpdate(s: ObjState, hooks: Hooks): (r: (Status, ObjState, EndReport))
    requires WellFormed(s.stack)
    ensures WellFormed(r.1.stack)
  {
    if s.updateCount == 0 then (Failed(InvalidState), s, EndReport([], map[], []))
    else if s.updateCount > 1 then (Success, s.(updateCount := s.updateCount - 1), EndReport([], map[], []))
    else
      var s1 := s.(updateCount := 0, pending := []);
      var p := ReplayAll(s1, s.pending, hooks);
      if p.failure.Some? then
        (Failed(p.failure.value), p.state.(pending := p.done + s.pending[|p.done|..]), EndReport([], map[], p.forwarded))
      else
        var kept := RemoveAllIgnored(p.done, p.ignored);
        var (names, changes) := EndApplyProperties(kept);
        (Success, p.state.(pending := []), EndReport(names, changes, p.forwarded))
  }

  // ---------------------------------------------------------------------------------------
  // Schema operations and flags

  /** `addProperty`: refused on a frozen object or when a local property has the name (a class
      property of that name is shadowed). An object-typed property with a property-object
      default stores that object as its value and keeps a clone (`cloneId`) as its default; an
      object-typed property with any other default is added but reported InvalidType. */
  function AddProperty(s: ObjState, prop: Property, cloneId: ObjId): (r: (Status, ObjState))
    ensures r.0 != Success && r.0 != Failed(InvalidType) ==> r.1 == s
    ensures r.0 == Success || r.0 == Failed(InvalidType) ==>
              && IndexOfName(s.local, prop.name).None?
              && |r.1.local| == |s.local| + 1 && r.1.local[..|s.local|] == s.local
              && r.1.local[|s.local|].name == prop.name
              && r.1.cls == s.cls && r.1.pending == s.pending
  {
    if s.frozen then (Failed(Frozen), s)
    else if IndexOfName(s.local, prop.name).Some? then (Failed(AlreadyExists), s)
    else if prop.valueType == CtObject && prop.defaultValue != Null then
      if prop.defaultValue.ObjV? then
        (Success, s.(local := s.local + [prop.(defaultValue := ObjV(cloneId))],
                     values := WriteLocalValue(s.values, prop.name, prop.defaultValue, prop.defaultValue, true).1))
      else (Failed(InvalidType), s.(local := s.local + [prop]))
    else (Success, s.(local := s.local + [prop]))
  }

  /** `removeProperty`: only local properties can be removed; the stored value goes with it. */
  function RemoveProperty(s: ObjState, name: string): (r: (Status, ObjState))
    ensures r.0 != Success ==> r.1 == s
    ensures r.0 == Success <==> !s.frozen && IndexOfName(s.local, name).Some?
    ensures r.0 == Success ==>
              && |r.1.local| == |s.local| - 1 && name !in r.1.values
              && r.1.cls == s.cls && r.1.values == s.values - {name}
  {
    if s.frozen then (Failed(Frozen), s)
    else
      match IndexOfName(s.local, name)
      case None => (Failed(NotFound), s)
      case Some(k) => (Success, s.(local := s.local[..k] + s.local[k + 1..], values := s.values - {name}))
  }

  /** `setPropertyOrderInternal`: an absent list clears the custom order. */
  function SetPropertyOrder(s: ObjState, order: Option<seq<string>>): (r: (Status, ObjState))
  {
    if s.frozen then (Failed(Frozen), s)
    else (Success, s.(customOrder := if order.Some? then order.value else []))
  }

  function Freeze(s: ObjState): (r: (Status, ObjState))
  {
    if s.frozen then (Ignored, s) else (Success, s.(frozen := true))
  }

  /** `setPath`: a path can be set once. */
  function SetPath(s: ObjState, path: string): (r: (Status, ObjState))
  {
    if |s.path| > 0 then (Ignored, s) else (Success, s.(path := path))
  }

  function SetOwner(s: ObjState, owner: Option<ObjId>): (r: (Status, ObjState))
  {
    if s.owner == owner then (Ignored, s) else (Success, s.(owner := owner))
  }
}
