# openDAQ Property Object engine in Dafny

This project models the core of openDAQ's Property Object, the per-instance store of named
values with a schema that `GenericPropertyObjectImpl` implements in
`core/coreobjects/include/coreobjects/property_object_impl.h`, and proves what that engine
promises. The parts, one module each:

- `Values`: values (`Null`, booleans, integers, strings, lists, property objects by id), core
  types and error codes. `Ignored` is a status of its own, distinct from success and failure.
- `Properties`: property definitions (name, value type, read-only, visible, referenced,
  default, selection list or dictionary, integer bounds), `checkSelectionValues`,
  `coerceMinMax` and the fixed order of checks a write passes through. Conversion, the
  container, struct and enumeration checks, the coercer, the validator and the write handlers
  are a `Hooks` record of functions passed in.
- `PropertyNames`: the grammar of property names. A leading `.` is parent-relative and `N`
  dots climb `N - 1` owners. An embedded `.` is child-relative. A `name[idx]` suffix is parsed
  with `strtol` on a 64-bit `long`, saturation and 32-bit truncation included.
- `UpdateStack`: `PropertyUpdateStack`, a class over a `map<string, Item>`. It de-duplicates
  the re-entrant writes that write handlers make.
- `ValueStore`: the explicit-value store `propValues`. It covers `writeLocalValue` with
  default elision, `shouldWriteLocalValue`, `readLocalValue` and the read resolution of
  `getPropertyAndValueInternal`.
- `ObjectModel`: the object's state as a value. It covers the write and clear pipelines with
  write events, reads, update transactions with their replay, the schema operations and the
  one-shot flags. Requests that the source hands to another object (a child-relative name, a
  parent path, the clearing of an object-typed value) are returned as forwarding outcomes.
- `ObjectLaws`: the properties of `ObjectModel`.
- `Ordering`: the custom-order pass shared by `getPropertiesInternal` and
  `serializePropertyValues`, and the properties of both listings.
- `PropertyObjects`: the `PropertyObject` class. Its fields are updated in place by methods
  with loops, and each method is proved equal to its `ObjectModel` or `Ordering` function.

Behaviours of the code a reader may not expect, which the model follows:

- A failing action during the replay at the end of an update ends the replay. `checkErrorInfo`
  throws, so the pending list is not cleared and the later actions do not run.
- A write with events that the event path ignores still returns success (lines 1278-1279).
  Only a write without events and a clear of an absent value return `Ignored`.
- The values that the custom order does not name are serialized in ascending name order, which
  is the order of the sorted copy. The custom-order names come first.
- An unbound property listing (`insert`) keeps the class property when a local property has the
  same name. A bound listing (`insert_or_assign`) keeps the last listed one.
- `checkSelectionValues` converts the value to `SizeT` before it looks at a selection
  dictionary. A value that does not convert fails with `ConversionFailed` even for a
  dictionary.

## Model

| member | source | states |
|---|---|---|
| Properties.ToSizeT | core/coreobjects/include/coreobjects/property_object_impl.h:1140 | A `SizeT` conversion gives a value in [0, 2^64); an integer already in that range is unchanged. |
| Properties.CheckSelectionValues | core/coreobjects/include/coreobjects/property_object_impl.h:1134-1153 | Always Success without a selection. With a selection, a value that does not convert to `SizeT` fails with ConversionFailed; one that does passes iff it is below the list's length, or is a key of the dictionary. Every failure is NotFound or ConversionFailed. |
| Properties.SelectionListIndices | core/coreobjects/include/coreobjects/property_object_impl.h:1140-1143 | A 64-bit integer passes a selection list iff it is a valid index: a negative one wraps past every list. |
| Properties.CoerceMinMax | core/coreobjects/include/coreobjects/property_object_impl.h:962-993 | Non-integers are unchanged. An integer result never exceeds the maximum, is at least the minimum when the bounds are ordered, and is unchanged when already within bounds. |
| Properties.CoerceMinMaxInvertedBounds | core/coreobjects/include/coreobjects/property_object_impl.h:968-992 | The minimum is applied before the maximum, so inverted bounds send every value below the minimum to the maximum. |
| Properties.CoerceMinMaxIdempotent | core/coreobjects/include/coreobjects/property_object_impl.h:962-993 | With ordered bounds, clamping twice is clamping once. |
| Properties.CheckWrite | core/coreobjects/include/coreobjects/property_object_impl.h:1231-1256 | Without protected access a read-only or object-typed property is AccessDenied. An integer that passes is at most the maximum, and at least the minimum when the bounds are ordered. |
| Properties.CheckWriteAccess | core/coreobjects/include/coreobjects/property_object_impl.h:1231-1237 | Without protected access a read-only or object-typed property is AccessDenied before any other check. With protected access the outcome differs only for such properties. |
| Properties.CheckWriteSelection | core/coreobjects/include/coreobjects/property_object_impl.h:1239-1246 | An integer that indexes no element of the selection list is refused with NotFound once the type and container checks pass. |
| Properties.CheckWriteBounds | core/coreobjects/include/coreobjects/property_object_impl.h:1254-1256 | Whatever the collaborators return, an integer that passes the write checks lies within ordered bounds. |
| Properties.CheckWriteQuiet | core/coreobjects/include/coreobjects/property_object_impl.h:1239-1256 | With collaborators that accept everything, an in-range integer written to an integer property is stored unchanged. |
| PropertyNames.ParentAndChildExclusive | core/coreobjects/include/coreobjects/property_object_impl.h:672-686 | No name is both parent-relative and child-relative; a name is one of them iff it contains a dot. |
| PropertyNames.LeadingDots | core/coreobjects/include/coreobjects/property_object_impl.h:694-696 | The count is the length of the run of leading dots. |
| PropertyNames.GetParentLevels | core/coreobjects/include/coreobjects/property_object_impl.h:689-698 | The counting loop returns the number of leading dots minus one for a parent-relative name and 0 otherwise. |
| PropertyNames.ParentRemainder | core/coreobjects/include/coreobjects/property_object_impl.h:775-777 | What follows the dots is the name without its leading dots; it is empty iff the name is all dots. |
| PropertyNames.ResolveParentPath | core/coreobjects/include/coreobjects/property_object_impl.h:769-792 | An empty remainder is InvalidParameter. Otherwise the loop climbs `ParentLevels` owners and returns the object reached with the remainder, or NotFound when the owner chain ends first. |
| PropertyNames.AncestorSplit | core/coreobjects/include/coreobjects/property_object_impl.h:780-788 | Climbing `a + b` owners is climbing `a` and then `b`. |
| PropertyNames.Ancestor | core/coreobjects/include/coreobjects/property_object_impl.h:780-788 | Climbing no owner is the start object. Climbing from an object without an owner is NotFound, the only failure. |
| PropertyNames.ParseIndexAsWritten | core/coreobjects/include/coreobjects/property_object_impl.h:1590-1607 | As written, `parseIndex` returns a 32-bit index and fails only with InvalidParameter, which it always gives when no `]` follows. |
| PropertyNames.GetPropertyNameInfoAsWritten | core/coreobjects/include/coreobjects/property_object_impl.h:1614-1633 | As written, the name is the base before `[`. A name without `[` has the index -1. A failure is InvalidParameter and occurs only on a name with a `[`. |
| PropertyNames.SingleDotIsSelf | core/coreobjects/include/coreobjects/property_object_impl.h:774-787 | `.name` climbs no owner: it resolves `name` on the object itself. |
| PropertyNames.FirstIndexOf | core/coreobjects/include/coreobjects/property_object_impl.h:708 | `find` gives the first position of the character, or none iff it is absent. |
| PropertyNames.LastIndexOf | core/coreobjects/include/coreobjects/property_object_impl.h:724 | `rfind` gives the last position of the character, or none iff it is absent. |
| PropertyNames.SplitOnFirstDot | core/coreobjects/include/coreobjects/property_object_impl.h:701-714 | With no dot the head is the input and the tail is unchanged. Otherwise input == head + "." + tail and the head has no dot. |
| PropertyNames.SplitOnLastDot | core/coreobjects/include/coreobjects/property_object_impl.h:717-730 | With no dot the head is the input and the tail is unchanged. Otherwise input == head + "." + tail and the tail has no dot. |
| PropertyNames.SplitOnFirstDotUnique | core/coreobjects/include/coreobjects/property_object_impl.h:701-714 | Any head without a dot and any tail that reassemble the input are exactly what the first-dot split returns. |
| PropertyNames.LeadingSpaces | core/coreobjects/include/coreobjects/property_object_impl.h:1597 | The whitespace `strtol` skips lies within the text. |
| PropertyNames.LeadingDigits | core/coreobjects/include/coreobjects/property_object_impl.h:1597 | The digit run `strtol` consumes is the longest prefix of digits. |
| PropertyNames.DigitsValue | core/coreobjects/include/coreobjects/property_object_impl.h:1597 | A string of digits has a non-negative decimal value. |
| PropertyNames.Strtol | core/coreobjects/include/coreobjects/property_object_impl.h:1597 | `strtol` consumes at most the whole text and returns a value in the range of a 64-bit `long`. |
| PropertyNames.ToInt32 | core/coreobjects/include/coreobjects/property_object_impl.h:1597 | Storing the `long` in an `int` gives a 32-bit value, unchanged when it already fits. |
| PropertyNames.StrtolFromDigit | core/coreobjects/include/coreobjects/property_object_impl.h:1597 | On text that starts with a digit, `strtol` consumes exactly the leading digits and, when no saturation occurs, returns their value. |
| PropertyNames.EmptyBracketsAsWritten | core/coreobjects/include/coreobjects/property_object_impl.h:1590-1607 | As written, `parseIndex` reads `[]` as index 0. |
| PropertyNames.ParseIndex | core/coreobjects/include/coreobjects/property_object_impl.h:1590-1607 | The parser agrees with the code everywhere it succeeds, returns a 32-bit index, and fails only with InvalidParameter. |
| PropertyNames.ParseIndexAccepts | core/coreobjects/include/coreobjects/property_object_impl.h:1593-1604 | A number that ends exactly at the first `]` is accepted with its value. |
| PropertyNames.ParseIndexDigits | core/coreobjects/include/coreobjects/property_object_impl.h:1593-1604 | A digit string closed by `]` parses to its decimal value. |
| PropertyNames.ParseIndexNoBracket | core/coreobjects/include/coreobjects/property_object_impl.h:1593-1606 | Without a `]` the index is InvalidParameter. |
| PropertyNames.ParseIndexDiffers | core/coreobjects/include/coreobjects/property_object_impl.h:1597-1604 | The code and the intended parser differ only on an empty index, which the code reads as 0. |
| PropertyNames.NameWithoutIndex | core/coreobjects/include/coreobjects/property_object_impl.h:1635-1651 | The base name is what precedes the first `[`, and the position of that `[` is returned; with no `[` the base is the whole name. |
| PropertyNames.GetPropertyNameInfo | core/coreobjects/include/coreobjects/property_object_impl.h:1614-1633 | The name is the base before `[`. An index is present iff the name has a `[`. A failure is InvalidParameter and occurs only on a name with a `[`. |
| PropertyNames.MinusOneIsNoIndexAsWritten | core/coreobjects/include/coreobjects/property_object_impl.h:1614-1633 | As written, `a[-1]` and `a` produce the same name information, an index of -1. |
| PropertyNames.MinusOneIsIndex | core/coreobjects/include/coreobjects/property_object_impl.h:1614-1633 | With the index kept apart, `a[-1]` carries the index -1. |
| PropertyNames.IndexedName | core/coreobjects/include/coreobjects/property_object_impl.h:1614-1633 | `base[digits]` parses to the name `base` with the index the digits spell. |
| UpdateStack.Register | core/coreobjects/include/coreobjects/property_object_impl.h:198-207 | A new name is entered at level 1, pushed, and reported. Repeating the value being written is reported as not registered and changes nothing. A different value replaces it, is pushed, raises the level by exactly one, and is reported. Well-formedness is kept and only that name's entry changes. |
| UpdateStack.Unregister | core/coreobjects/include/coreobjects/property_object_impl.h:210-221 | An unknown name is false and changes nothing. Otherwise the result is the entry's pushed flag and the level drops by one with the flag cleared. The entry is erased exactly when its level reaches 0. |
| UpdateStack.RegisterUnregister | core/coreobjects/include/coreobjects/property_object_impl.h:198-221 | A registration that goes ahead followed by an unregistration reports that the write must be applied. It restores an absent entry and leaves a nested entry at its level with the new value. |
| UpdateStack.RegisterAllLevel | core/coreobjects/include/coreobjects/property_object_impl.h:165-174 | Nested registrations of ever-changing values raise the level by one per registration and leave the last value pushed. |
| UpdateStack.PropertyUpdateStack.constructor | core/coreobjects/include/coreobjects/property_object_impl.h:195 | A new stack is empty. |
| UpdateStack.PropertyUpdateStack.RegisterPropertyUpdating | core/coreobjects/include/coreobjects/property_object_impl.h:198-207 | The in-place update returns and stores exactly what `Register` gives. |
| UpdateStack.PropertyUpdateStack.UnregisterPropertyUpdating | core/coreobjects/include/coreobjects/property_object_impl.h:210-221 | The in-place update returns and stores exactly what `Unregister` gives. |
| UpdateStack.PropertyUpdateStack.IsBaseStackLevel | core/coreobjects/include/coreobjects/property_object_impl.h:223-230 | True iff the name is registered at level 1. |
| UpdateStack.PropertyUpdateStack.GetPropertyValue | core/coreobjects/include/coreobjects/property_object_impl.h:232-241 | A value is found iff the name is registered, and it is the value being written. |
| ValueStore.IndexOfName | core/coreobjects/include/coreobjects/property_object_impl.h:1443-1445 | The position found holds the first property with that name; none is found iff no property has it. |
| ValueStore.FindProperty | core/coreobjects/include/coreobjects/property_object_impl.h:1441-1460 | A property of that name from the local ones, else from the class. None iff neither has the name. A local property always wins. |
| ValueStore.WriteLocalValue | core/coreobjects/include/coreobjects/property_object_impl.h:1371-1402 | The store is left unchanged and the result is false iff an entry already holds the value, or there is no entry, no force and the value is the default. Otherwise the value is stored under the name and no other key changes, so an existing entry overwritten with the default stays. |
| ValueStore.ShouldWriteLocalValue | core/coreobjects/include/coreobjects/property_object_impl.h:1350-1368 | True iff an unforced `writeLocalValue` would change the store. |
| ValueStore.IndexInto | core/coreobjects/include/coreobjects/property_object_impl.h:1566-1578 | An element is returned iff the value is a list and the index is within it. A non-list is InvalidParameter; an index out of bounds is OutOfRange. |
| ValueStore.ReadLocalValuePlain | core/coreobjects/include/coreobjects/property_object_impl.h:1559-1588 | A name without an index reads its entry, or NotFound. |
| ValueStore.ReadLocalValueIndexed | core/coreobjects/include/coreobjects/property_object_impl.h:1559-1588 | `base[i]` reads element `i` of the stored value of `base`, with InvalidParameter for a non-list and OutOfRange past its end. |
| ValueStore.MinusOneReadsWholeList | core/coreobjects/include/coreobjects/property_object_impl.h:1561-1583 | As written, `a[-1]` on a stored list returns the whole list. With the index kept apart it is OutOfRange. |
| ValueStore.ReadValuePlain | core/coreobjects/include/coreobjects/property_object_impl.h:1661-1752 | A plain name of an existing property reads its stored value, else its default. |
| ValueStore.ReadAfterWrite | core/coreobjects/include/coreobjects/property_object_impl.h:1371-1402 | After `writeLocalValue`, a read returns the value written, whether the write stored it or skipped it and whatever the force flag. |
| ValueStore.WriteLeavesOthers | core/coreobjects/include/coreobjects/property_object_impl.h:1371-1402 | A write of one name never changes what another name reads. |
| ValueStore.WriteWhatIsReadIsIgnored | core/coreobjects/include/coreobjects/property_object_impl.h:1373-1399 | Writing back the value a property reads, without force, changes nothing and returns false. |
| ValueStore.ReadSeesWriteInFlight | core/coreobjects/include/coreobjects/property_object_impl.h:1699-1703 | While a write of a name is registered, a read that asks for the in-flight value gets it. |
| ValueStore.ReadValueIndexedDefault | core/coreobjects/include/coreobjects/property_object_impl.h:1715-1738 | An indexed read of a property with no stored value indexes its list default. |
| ValueStore.ReadLocalValue | core/coreobjects/include/coreobjects/property_object_impl.h:1559-1588 | A failure is NotFound, InvalidParameter or OutOfRange. A base name with no entry always fails. A name without an index reads successfully iff it has an entry. |
| ValueStore.ReadLocalValueAsWritten | core/coreobjects/include/coreobjects/property_object_impl.h:1559-1588 | As written: the same failures, and a name without an index that has an entry reads that entry. |
| ValueStore.ReadValue | core/coreobjects/include/coreobjects/property_object_impl.h:1661-1752 | With no property of the base name the read is NotFound. Every failure is NotFound, InvalidParameter or OutOfRange. |
| ValueStore.ReadValueAsWritten | core/coreobjects/include/coreobjects/property_object_impl.h:1661-1752 | As written, with the same guarantees as `ReadValue`. |
| ValueStore.ReadValueAgreesPlain | core/coreobjects/include/coreobjects/property_object_impl.h:1661-1752 | The code's read and the corrected read agree on every name without an index. |
| ValueStore.ReadValueFromStore | core/coreobjects/include/coreobjects/property_object_impl.h:1706-1713 | A read that finds a stored value, or fails for a reason other than its absence, is the store read, in both versions. |
| ValueStore.ReadValueEmptyBrackets | core/coreobjects/include/coreobjects/property_object_impl.h:1706-1738 | On a stored non-empty list, the code reads `a[]` as element 0, while the corrected read refuses it with InvalidParameter. |
| ValueStore.ReadValueMinusOne | core/coreobjects/include/coreobjects/property_object_impl.h:1706-1738 | On a stored list, the code reads `a[-1]` as the whole list, while the corrected read gives OutOfRange. |
| ObjectModel.ChildRequest | core/coreobjects/include/coreobjects/property_object_impl.h:1185-1215 | A forwarded child request carries the tail of the first-dot split. |
| ObjectModel.SetValue | core/coreobjects/include/coreobjects/property_object_impl.h:1156-1304 | A write keeps the update stack well-formed and changes only values, stack and pending list. Without events it leaves the stack as it was. A write with events that is not batched is never Ignored. |
| ObjectModel.SetNamedValue | core/coreobjects/include/coreobjects/property_object_impl.h:1185-1296 | As `SetValue`, for the part after the front checks. With events it is never Ignored: an ignored write event still succeeds (lines 1278-1279). |
| ObjectModel.CallPropertyValueWrite | core/coreobjects/include/coreobjects/property_object_impl.h:800-872 | The write event changes only values and stack. When the name was not in flight before, the stack is restored afterwards. |
| ObjectModel.RunWriteHandler | core/coreobjects/include/coreobjects/property_object_impl.h:811-856 | As `CallPropertyValueWrite`, once the registration has gone ahead. |
| ObjectModel.ApplyHandlerResult | core/coreobjects/include/coreobjects/property_object_impl.h:854-871 | After unregistration, applying the handler's result leaves the stack as it is and changes only values and pending list. |
| ObjectModel.ClearValue | core/coreobjects/include/coreobjects/property_object_impl.h:1887-2012 | A clear keeps the stack well-formed and changes only values, stack and pending list. |
| ObjectModel.ClearNamedValue | core/coreobjects/include/coreobjects/property_object_impl.h:1912-2004 | As `ClearValue`, for the part after the front checks. |
| ObjectModel.ApplyPending | core/coreobjects/include/coreobjects/property_object_impl.h:2589-2598 | Replaying one action changes only values, stack and pending list. A replayed write is never Ignored. |
| ObjectModel.ReplayFrom | core/coreobjects/include/coreobjects/property_object_impl.h:2587-2611 | A replay that has failed does nothing more. Otherwise each action adds one entry unless a failure stops the replay; without a failure every action is replayed. |
| ObjectModel.ReplayRest | core/coreobjects/include/coreobjects/property_object_impl.h:2587-2611 | A step replays at least the next action and at most all of them. |
| ObjectModel.ReplayAll | core/coreobjects/include/coreobjects/property_object_impl.h:2587-2611 | The replay of a pending list covers all of it unless it fails. |
| ObjectModel.ReplayKeepsActions | core/coreobjects/include/coreobjects/property_object_impl.h:2587-2611 | The replay keeps every earlier action. It handles the remaining ones in order, with their names and flags, changing at most their recorded values. |
| ObjectModel.ReplayStep | core/coreobjects/include/coreobjects/property_object_impl.h:2589-2610 | One step appends exactly one action, the same except for its value. |
| ObjectModel.RereadValue | core/coreobjects/include/coreobjects/property_object_impl.h:2605-2607 | The re-read after a replayed action throws InvalidParameter iff the property of the base name exists and the name's index does not parse. A successful read is returned. A name with no property keeps the recorded value. Any other failed read keeps the recorded value, except that with nothing stored the default is assigned before the read fails (lines 1715-1735). |
| ObjectModel.RemoveFirstNamedShape | core/coreobjects/include/coreobjects/property_object_impl.h:2613-2623 | Erasing by name leaves a list without the name as it is. Otherwise it removes exactly one action and adds none. |
| ObjectModel.OldValue | core/coreobjects/include/coreobjects/property_object_impl.h:821-828 | The old value handed to the write handler is the stored value of a plain name, or the default when none is stored. |
| ObjectModel.GetValue | core/coreobjects/include/coreobjects/property_object_impl.h:2015-2053 | A read is forwarded only for a name with a dot, and with a shorter name. A parent-relative read carries the name after the dots, and a child-relative read carries what follows the first dot. |
| ObjectModel.BeginUpdate | core/coreobjects/include/coreobjects/property_object_impl.h:2517-2528 | Opening a transaction succeeds iff the object is not frozen. It then raises the depth by one and changes nothing else; otherwise it is Frozen and changes nothing. |
| ObjectModel.AddProperty | core/coreobjects/include/coreobjects/property_object_impl.h:2169-2227 | On success, and on an InvalidType failure raised after the insertion, the name was free among the local properties, exactly one property with that name is appended after them, and the class properties and pending list are unchanged. Any other failure changes nothing. |
| ObjectModel.RemoveProperty | core/coreobjects/include/coreobjects/property_object_impl.h:2230-2256 | Removal succeeds iff the object is not frozen and a local property has the name; otherwise nothing changes. On success one local property goes, the name's stored value is erased and nothing else is stored or dropped. |
| ObjectModel.RemoveAllIgnoredShape | core/coreobjects/include/coreobjects/property_object_impl.h:2613-2623 | Erasing the ignored names only removes actions, no more of them than there are ignored names, and leaves a list that holds no ignored name as it is. |
| ObjectModel.EndApplyProperties | core/coreobjects/include/coreobjects/property_object_impl.h:3428-3447 | The name list holds every action's name, in order and with duplicates. The change set has exactly those names as keys. |
| ObjectModel.EndUpdate | core/coreobjects/include/coreobjects/property_object_impl.h:2531-2566 | Closing a transaction keeps the update stack well-formed. |
| ObjectLaws.HandlerReached | core/coreobjects/include/coreobjects/property_object_impl.h:808-856 | A write that is not in flight and would change the store reaches the handler. The handler gets the proposed value (the default for a clear) and the old value, and the write must then be applied. |
| ObjectLaws.FrozenRefusesChanges | core/coreobjects/include/coreobjects/property_object_impl.h:1166-1167 | A frozen object refuses writes, clears, property addition and removal, ordering and `beginUpdate` with Frozen and stays as it is; `freeze` is Ignored. |
| ObjectLaws.BatchRecords | core/coreobjects/include/coreobjects/property_object_impl.h:1174-1178 | In batch mode a write or clear only appends `(name, setValue, protectedAccess, value)` to the pending list and succeeds. |
| ObjectLaws.ParentRelativeRefused | core/coreobjects/include/coreobjects/property_object_impl.h:1180-1183 | Writes and clears of parent-relative names are AccessDenied and change nothing. |
| ObjectLaws.ReadOnlyRefused | core/coreobjects/include/coreobjects/property_object_impl.h:1231-1237 | A non-protected write to a read-only or object-typed property, or a non-protected clear of a read-only one, is AccessDenied and changes nothing. |
| ObjectLaws.ClearAbsentIgnored | core/coreobjects/include/coreobjects/property_object_impl.h:1957-1958 | Clearing a property with no stored value is Ignored and changes nothing. |
| ObjectLaws.UnknownNameNotFound | core/coreobjects/include/coreobjects/property_object_impl.h:1192-1198 | Writes and clears of a name with no property are NotFound and change nothing. |
| ObjectLaws.SetWithoutEventThenRead | core/coreobjects/include/coreobjects/property_object_impl.h:1290-1295 | A write without events that passes the write checks succeeds, and a read afterwards returns the checked value. It is Ignored exactly when the state is unchanged. |
| ObjectLaws.SetWithEventThenRead | core/coreobjects/include/coreobjects/property_object_impl.h:1272-1289 | With handlers that accept the value, a write with events succeeds, restores the update stack, and the checked value is read back. |
| ObjectLaws.HandlerReplacementIsChecked | core/coreobjects/include/coreobjects/property_object_impl.h:858-869 | A handler's replacement goes through the write checks again with protected access. When it passes, the write succeeds and the checked replacement is read back. When it fails, the failure is returned and no value is stored. |
| ObjectLaws.ReplacementWritten | core/coreobjects/include/coreobjects/property_object_impl.h:864-869 | A replacement from the handler is written by a nested protected write without events. |
| ObjectLaws.HandlerFailureStoresNothing | core/coreobjects/include/coreobjects/property_object_impl.h:854-856 | A failing handler fails the write with its error and leaves the object as it was, update stack included. |
| ObjectLaws.SetWithoutEventIdempotent | core/coreobjects/include/coreobjects/property_object_impl.h:1290-1293 | Repeating a write without events is Ignored and changes nothing. |
| ObjectLaws.ClearThenReadDefault | core/coreobjects/include/coreobjects/property_object_impl.h:1984-1998 | With accepting handlers, clearing a stored value of a non-object property succeeds and removes exactly that entry, so the default is read again. |
| ObjectLaws.ClearObjectClearsChildren | core/coreobjects/include/coreobjects/property_object_impl.h:1960-1983 | Clearing an object-typed property that holds an object hands the clearing of that object's properties to it and changes nothing here. |
| ObjectLaws.ChildWriteForwarded | core/coreobjects/include/coreobjects/property_object_impl.h:1211-1227 | A child-relative write or clear goes to the object under its first segment, with the rest of the name, whatever that segment's read-only flag. |
| ObjectLaws.ParentReads | core/coreobjects/include/coreobjects/property_object_impl.h:769-792 | A read of `.name` reads `name` on the object itself; a name of only dots is InvalidParameter. |
| ObjectLaws.PlainReadIsStoreRead | core/coreobjects/include/coreobjects/property_object_impl.h:2038-2042 | A read of a name without a dot is the value resolution of the store. When the name has no index and no write of it is in flight, it reads the stored value, or the default when none is stored. |
| ObjectLaws.SetRestoresEmptyStack | core/coreobjects/include/coreobjects/property_object_impl.h:808-856 | With no write in flight before a write, none is in flight after it. |
| ObjectLaws.SetNamedRestoresEmptyStack | core/coreobjects/include/coreobjects/property_object_impl.h:808-856 | The same for the part of a write after the front checks. |
| ObjectLaws.ClearRestoresEmptyStack | core/coreobjects/include/coreobjects/property_object_impl.h:808-856 | With no write in flight before a clear, none is in flight after it. |
| ObjectLaws.EndUpdateDepth | core/coreobjects/include/coreobjects/property_object_impl.h:2531-2536 | Closing with no open transaction is InvalidState and changes nothing; closing a nested one only lowers the depth. |
| ObjectLaws.BeginEndEmpty | core/coreobjects/include/coreobjects/property_object_impl.h:2517-2566 | Opening and closing a transaction with nothing recorded leaves the object as it was and reports nothing. |
| ObjectLaws.EndUpdateEmptiesPending | core/coreobjects/include/coreobjects/property_object_impl.h:2584-2627 | When the last transaction closes and the replay does not fail, the pending list is emptied and the depth is 0. |
| ObjectLaws.EndUpdateStopsAtFailure | core/coreobjects/include/coreobjects/property_object_impl.h:2587-2611 | A replay whose first action fails, or whose re-read after it throws, stops there. It returns InvalidParameter when the re-read throws and the action's own failure otherwise. The pending list keeps its length. Its first action holds the value the re-read left, and every later action is unchanged. |
| ObjectLaws.EndUpdateUnparsableIndex | core/coreobjects/include/coreobjects/property_object_impl.h:2600-2610 | Replaying a write of `a[x]` on an object with a property `a` makes closing the transaction fail with InvalidParameter, the exception of the re-read's index parse (lines 1562, 1601). |
| ObjectLaws.UnparsableIndexThrows | core/coreobjects/include/coreobjects/property_object_impl.h:1590-1607 | Once a property `a` exists, the re-read of `a[x]` throws InvalidParameter. |
| ObjectLaws.BatchedWriteReplays | core/coreobjects/include/coreobjects/property_object_impl.h:2589-2598 | A batched write followed by closing the transaction stores what the write would have stored had it been made directly. |
| ObjectLaws.EndUpdateSingle | core/coreobjects/include/coreobjects/property_object_impl.h:2584-2627 | Closing a transaction with one recorded action stores what replaying that action stores. |
| ObjectLaws.ChangesKeepLastValue | core/coreobjects/include/coreobjects/property_object_impl.h:3431-3436 | The change set maps each name to the value of the last action recorded under it. |
| ObjectLaws.AddThenRemove | core/coreobjects/include/coreobjects/property_object_impl.h:2169-2256 | A new local property that is not object-typed and has nothing stored is added and found under its name, shadowing a class property. Removing it again restores the object. |
| ObjectLaws.AddKeepsNamesUnique | core/coreobjects/include/coreobjects/property_object_impl.h:2188-2190 | Adding keeps local names unique; adding a second property of the same name is AlreadyExists and changes nothing. |
| ObjectLaws.AddObjectProperty | core/coreobjects/include/coreobjects/property_object_impl.h:2210-2221 | An object-typed property with an object default stores that object as its value and keeps a clone as its default, so reads see the stored object. |
| ObjectLaws.RemoveOnlyLocal | core/coreobjects/include/coreobjects/property_object_impl.h:2230-2256 | A name with no local property is NotFound and changes nothing. Removal keeps names unique; after a successful removal the name is gone from the local properties and from the store. |
| ObjectLaws.OrderDecidesListing | core/coreobjects/include/coreobjects/property_object_impl.h:2271-2286 | When invisible properties or binding are asked for: after `setPropertyOrder` with a list, the listing is a permutation of the lookup with the listed names first and in that order. With no list, the listing is the lookup itself. |
| ObjectLaws.FreezeOnce | core/coreobjects/include/coreobjects/property_object_impl.h:3288-3295 | Freezing makes the object frozen; a second freeze is Ignored. |
| ObjectLaws.SetPathOnce | core/coreobjects/include/coreobjects/property_object_impl.h:2885-2895 | The first non-empty path is set; every later one is Ignored. |
| ObjectLaws.SetOwnerOnce | core/coreobjects/include/coreobjects/property_object_impl.h:3268-3285 | Setting the owner stores it; setting the same owner again is Ignored. |
| Ordering.IndexOfKey | core/coreobjects/include/coreobjects/property_object_impl.h:2368 | The lookup finds the first item with that key, or none iff no item has it. |
| Ordering.Position | core/coreobjects/include/coreobjects/property_object_impl.h:2366 | The position of a name in the custom order is below its length iff the name is in the order; it is the first occurrence. |
| Ordering.EraseIsWithout | core/coreobjects/include/coreobjects/property_object_impl.h:2368-2372 | Erasing the item found for a key from a list with unique keys is the pass's removal of that key. |
| Ordering.TakeOrderedRest | core/coreobjects/include/coreobjects/property_object_impl.h:2363-2380 | The items the custom-order loops leave behind are those the order does not name, in their original order. |
| Ordering.TakeOrderedMember | core/coreobjects/include/coreobjects/property_object_impl.h:2366-2374 | An item is taken out in custom order iff it is present, movable and named by the order. |
| Ordering.TakeOrderedPositions | core/coreobjects/include/coreobjects/property_object_impl.h:2366-2374 | The items taken out follow the order in which the custom order first names them. |
| Ordering.TakeOrderedPermutes | core/coreobjects/include/coreobjects/property_object_impl.h:2362-2388 | The pass loses and gains no item: its two parts together are a permutation of the input. |
| Ordering.TakeOrderedShape | core/coreobjects/include/coreobjects/property_object_impl.h:2362-2388 | An item that is named and movable is preceded only by named, movable items that the custom order names earlier. |
| Ordering.TakeOrderedUnique | core/coreobjects/include/coreobjects/property_object_impl.h:2362-2388 | The output of the pass has unique keys when its input has. |
| Ordering.TakeOrderedWithout | core/coreobjects/include/coreobjects/property_object_impl.h:2362-2388 | Leaving the named items out of the pass's output gives the same list as leaving them out of its input. |
| Ordering.LookupUnique | core/coreobjects/include/coreobjects/property_object_impl.h:2320-2360 | The lookup holds each name at most once. |
| Ordering.UnboundLookupIsFirst | core/coreobjects/include/coreobjects/property_object_impl.h:2323-2326 | Without binding, the lookup holds exactly the first property of each name among the class properties followed by the local ones. |
| Ordering.BoundLookupIsLast | core/coreobjects/include/coreobjects/property_object_impl.h:2329-2348 | With binding, the lookup holds exactly the last listed property of each name; an unlisted (invisible or referenced) property is skipped unless invisible ones are asked for. |
| Ordering.GetPropertiesShape | core/coreobjects/include/coreobjects/property_object_impl.h:2295-2392 | The listing fails iff neither invisible properties nor binding is asked for. On success it is a permutation of the lookup with unique names. Names in the custom order come first, at most once each and in that order. The rest keep lookup order. |
| Ordering.NoOrderIsLookup | core/coreobjects/include/coreobjects/property_object_impl.h:2382-2388 | With no custom order the listing is the lookup itself. |
| Ordering.GetPropertiesMember | core/coreobjects/include/coreobjects/property_object_impl.h:2304-2360 | A property is listed iff it is the last listed of its name (bound) or the first of its name (unbound) among the class then local properties. |
| Ordering.ClassShadowsLocal | core/coreobjects/include/coreobjects/property_object_impl.h:2323-2326 | An unbound listing shows the class property where a local one has the same name. |
| Ordering.LocalOverridesClass | core/coreobjects/include/coreobjects/property_object_impl.h:2348 | A bound listing shows the local property where a class property has the same name, as long as the local one is listed. |
| Ordering.LexIrreflexive | core/coreobjects/include/coreobjects/property_object_impl.h:3001 | The order of the sorted copy is irreflexive. |
| Ordering.LexAsymmetric | core/coreobjects/include/coreobjects/property_object_impl.h:3001 | The order of the sorted copy is asymmetric. |
| Ordering.LexTransitive | core/coreobjects/include/coreobjects/property_object_impl.h:3001 | The order of the sorted copy is transitive. |
| Ordering.LexTotal | core/coreobjects/include/coreobjects/property_object_impl.h:3001 | Any two distinct names are ordered one way or the other. |
| Ordering.SortedKeys | core/coreobjects/include/coreobjects/property_object_impl.h:3001 | The sorted copy iterates over exactly the stored names, in strictly ascending order. |
| Ordering.CountZero | core/coreobjects/include/coreobjects/property_object_impl.h:2990-2993 | The count over the names is 0 iff none of them holds a non-null serializable value. |
| Ordering.WriteAllMember | core/coreobjects/include/coreobjects/property_object_impl.h:2940-2973 | A name and value is written iff the name was visited, is stored with that value, may be read, and the value is null or serializable. |
| Ordering.SerializeNothing | core/coreobjects/include/coreobjects/property_object_impl.h:2990-2996 | Nothing is written iff every stored value is null or not serializable. |
| Ordering.SerializeEntries | core/coreobjects/include/coreobjects/property_object_impl.h:2986-3032 | The pairs written are exactly the stored values that may be read and are null or serializable. |
| Ordering.SerializeOrder | core/coreobjects/include/coreobjects/property_object_impl.h:3001-3026 | Written names are distinct. Those in the custom order come first, in that order. A name outside the custom order is below, in ascending order, every name written after it. |
| Ordering.UnorderedIsAscending | core/coreobjects/include/coreobjects/property_object_impl.h:3018-3026 | With no custom order the values are written in ascending name order. |
| PropertyObjects.PropertyObject.constructor | core/coreobjects/include/coreobjects/property_object_impl.h:594-628 | A new object of a class has nothing stored, nothing pending and no local property. |
| PropertyObjects.PropertyObject.WriteLocalValue | core/coreobjects/include/coreobjects/property_object_impl.h:1371-1402 | The in-place update of `propValues` returns and stores what `ValueStore.WriteLocalValue` gives; nothing else changes. |
| PropertyObjects.PropertyObject.SetPropertyValue | core/coreobjects/include/coreobjects/property_object_impl.h:1003-1013 | An ordinary write with events, batched while an update is open, gives the outcome and new state of `SetValue`. |
| PropertyObjects.PropertyObject.SetProtectedPropertyValue | core/coreobjects/include/coreobjects/property_object_impl.h:996-1000 | The same with protected access. |
| PropertyObjects.PropertyObject.SetPropertyValueInternal | core/coreobjects/include/coreobjects/property_object_impl.h:1156-1304 | The outcome and new state are those of `SetValue`; the update stack stays valid. |
| PropertyObjects.PropertyObject.SetNamedPropertyValue | core/coreobjects/include/coreobjects/property_object_impl.h:1185-1296 | The outcome and new state are those of `SetNamedValue`. |
| PropertyObjects.PropertyObject.CallPropertyValueWrite | core/coreobjects/include/coreobjects/property_object_impl.h:800-872 | The outcome, final value and new state are those of `ObjectModel.CallPropertyValueWrite`. |
| PropertyObjects.PropertyObject.RunWriteHandler | core/coreobjects/include/coreobjects/property_object_impl.h:811-856 | The outcome, final value and new state are those of `ObjectModel.RunWriteHandler`. |
| PropertyObjects.PropertyObject.ApplyHandlerResult | core/coreobjects/include/coreobjects/property_object_impl.h:854-871 | The outcome, final value and new state are those of `ObjectModel.ApplyHandlerResult`. |
| PropertyObjects.PropertyObject.ClearPropertyValue | core/coreobjects/include/coreobjects/property_object_impl.h:1873-1884 | An ordinary clear, batched while an update is open, gives the outcome and new state of `ClearValue`. |
| PropertyObjects.PropertyObject.ClearPropertyValueInternal | core/coreobjects/include/coreobjects/property_object_impl.h:1887-2012 | The outcome and new state are those of `ClearValue`. |
| PropertyObjects.PropertyObject.ClearNamedPropertyValue | core/coreobjects/include/coreobjects/property_object_impl.h:1912-2004 | The outcome and new state are those of `ClearNamedValue`. |
| PropertyObjects.PropertyObject.BeginUpdate | core/coreobjects/include/coreobjects/property_object_impl.h:2517-2528 | The status and new state are those of `ObjectModel.BeginUpdate`. |
| PropertyObjects.PropertyObject.EndUpdate | core/coreobjects/include/coreobjects/property_object_impl.h:2531-2566 | The status, new state and end-of-update report are those of `ObjectModel.EndUpdate`. |
| PropertyObjects.PropertyObject.ReplayActions | core/coreobjects/include/coreobjects/property_object_impl.h:2587-2611 | The replay loop ends in the state, replayed actions, ignored names, forwarded requests and failure of `ReplayAll`. |
| PropertyObjects.PropertyObject.ApplyPendingAction | core/coreobjects/include/coreobjects/property_object_impl.h:2589-2598 | One replayed action gives the outcome and new state of `ApplyPending`. |
| PropertyObjects.PropertyObject.EraseIgnored | core/coreobjects/include/coreobjects/property_object_impl.h:2613-2623 | The erase loop leaves the pending list as `RemoveAllIgnored` gives it; nothing else changes. |
| PropertyObjects.PropertyObject.EndApplyPropertiesLoop | core/coreobjects/include/coreobjects/property_object_impl.h:3431-3436 | The loop builds the names and change set of `EndApplyProperties`. |
| PropertyObjects.PropertyObject.AddProperty | core/coreobjects/include/coreobjects/property_object_impl.h:2169-2227 | The status and new state are those of `ObjectModel.AddProperty`. |
| PropertyObjects.PropertyObject.RemoveProperty | core/coreobjects/include/coreobjects/property_object_impl.h:2230-2256 | The status and new state are those of `ObjectModel.RemoveProperty`. |
| PropertyObjects.PropertyObject.SetPropertyOrder | core/coreobjects/include/coreobjects/property_object_impl.h:2271-2286 | The status and new state are those of `ObjectModel.SetPropertyOrder`. |
| PropertyObjects.PropertyObject.Freeze | core/coreobjects/include/coreobjects/property_object_impl.h:3288-3295 | The status and new state are those of `ObjectModel.Freeze`. |
| PropertyObjects.PropertyObject.SetPath | core/coreobjects/include/coreobjects/property_object_impl.h:2885-2895 | The status and new state are those of `ObjectModel.SetPath`. |
| PropertyObjects.PropertyObject.SetOwner | core/coreobjects/include/coreobjects/property_object_impl.h:3268-3285 | The status and new state are those of `ObjectModel.SetOwner`. |
| PropertyObjects.PropertyObject.GetProperties | core/coreobjects/include/coreobjects/property_object_impl.h:2295-2392 | The listing built by the loops is `Ordering.GetProperties` of the object's properties and custom order. |
| PropertyObjects.PropertyObject.SerializePropertyValues | core/coreobjects/include/coreobjects/property_object_impl.h:2986-3032 | What the loops write is `Ordering.SerializePropertyValues` of the stored values and custom order. |
| PropertyObjects.BuildLookup | core/coreobjects/include/coreobjects/property_object_impl.h:2320-2360 | The lookup loop gives `Ordering.BuildLookup`. |
| PropertyObjects.TakeInCustomOrder | core/coreobjects/include/coreobjects/property_object_impl.h:2363-2374 | The custom-order loop gives the pass `Ordering.TakeOrdered` with every property movable. |
| PropertyObjects.AppendEach | core/coreobjects/include/coreobjects/property_object_impl.h:2376-2388 | The rest of the lookup is appended after the ordered properties. |
| PropertyObjects.CountSerializableValues | core/coreobjects/include/coreobjects/property_object_impl.h:2990-2993 | The `count_if` loop gives `Ordering.CountSerializable`. |
| PropertyObjects.WriteInCustomOrder | core/coreobjects/include/coreobjects/property_object_impl.h:3003-3016 | The loop writes the readable values the custom order names, in that order. It leaves the other names in the sorted copy, as `Ordering.TakeOrdered` gives them. |
| PropertyObjects.WriteEach | core/coreobjects/include/coreobjects/property_object_impl.h:3018-3026 | The loop over the rest of the sorted copy writes what `Ordering.WriteAll` gives. |
| PropertyObjects.EraseFirstNamed | core/coreobjects/include/coreobjects/property_object_impl.h:2615-2622 | `find_if` and `erase` remove the first action recorded under the name, if any. |
| PropertyObjects.RemoveFirstNamedAt | core/coreobjects/include/coreobjects/property_object_impl.h:2615-2622 | Erasing at the first position holding the name is `RemoveFirstNamed`. |

## Left out

- Locking (`sync`, the recursive config lock guards, the external-call thread and depth) is left out: it only provides cross-thread exclusion, and the model is sequential.
- Read events, the any-property and class-level write listeners, the end-update event and core events are left out. They are callbacks into foreign code. The property-specific write handler is the one `Hooks.onWrite` function, which may replace the value or fail.
- Type conversion (`convertTo`), `checkContainerType`, `checkStructType`, `checkEnumerationType`, the coercer and the validator are parameters in `Hooks`, because their type introspection is not part of this model.
- Referenced properties (`checkForRefPropAndGetBoundProp`, `hasDuplicateReferences`) are left out: they evaluate foreign expressions. A property is never a reference here, and `isReferenced` is only a flag that the listing consults.
- Float bounds are left out of `coerceMinMax`: only integer bounds are modelled. A failed comparison leaves the value as it is.
- List and dictionary cloning on write and read, `setOwnerToPropertyValue`, `configureClonedObj` and `clone` are left out: values are immutable in the model, so copies are the same value.
- The deep variants of `beginUpdate` and `endUpdate` (updating children), `isParentUpdating` and `beginApplyUpdate` are left out: they act on other objects.
- PropertyObjects.PropertyObject.constructor: the type manager and class lookup are left out, and a class is given as its list of properties. The clones of child-object defaults that the source stores for object-typed class properties are not created, so a new object stores nothing.
- The permission manager is left out. `hasUserReadAccess` is the `readable` parameter of `serializePropertyValues`.
- The serializer backend and its write errors are left out: the serialization result is the list of name and value pairs written, and `None` when no values object would be started. Whether a value supports serialization is the `serializable` parameter.
- In the bound listing of `getPropertiesInternal`, `cloneWithOwner` and freezing of the bound copy are left out. So are the exceptions while evaluating `visible`: NotFound aborts in the source, CalcFailed and NoInterface skip the property. Visibility is a plain flag here.
- PropertyObjects.PropertyObject.GetProperties: the class properties are given as a sequence in the order the class lists them; how the class builds that order is not part of this model. `localProperties` is a `tsl::ordered_map` (lines 55 and 387), which iterates in insertion order and keeps the order of the rest on erase, so the sequence the model appends to and erases from has that order exactly.
- Ordering.SortedKeys: the `StringPtr` order of the sorted copy is taken as the lexicographic order of characters.
- Ordering.CountSerializable: a null value does not support serialization and is not counted. It is still written when another value makes the count positive.
- ValueStore.IndexInto: a negative index other than -1 passes the source's `>= count` guard and reaches the list's own element access, which is not part of this model. The model reports OutOfRange.
- PropertyNames.Strtol: assumes a 64-bit `long` (LP64), so a saturated index is 2^63 - 1 or -2^63 before the 32-bit truncation. Where `long` is 32 bits (LLP64, as on Windows) `strtol` saturates at 2^31 - 1 and -2^31 instead, which the model does not cover.
- ValueStore.ReadValue: the read path, and `ObjectModel.GetValue` and `ObjectModel.RereadValue` through it, uses the corrected index parse of the findings below, not the code's. So the replay's re-read of `a[]` throws InvalidParameter where the code reads element 0, and its re-read of `a[-1]` keeps the recorded value where the code stores the whole list in it. On `a[]` the model gives InvalidParameter where the code returns element 0 of a stored list or of a list default, and on `a[-1]` of a stored list it gives OutOfRange where the code returns the whole list. The code's read is `ValueStore.ReadValueAsWritten`. `ValueStore.ReadValueAgreesPlain` proves the two agree on every name without an index, and `ValueStore.ReadValueEmptyBrackets` and `ValueStore.ReadValueMinusOne` prove the two differences.
- ObjectModel.GetValue: a plain read is `ValueStore.ReadValue`, so it shares the difference on `a[]` and `a[-1]` stated on the line above.
- ObjectModel.RereadValue: the re-read uses the corrected index parse, so it shares the difference on `a[]` and `a[-1]` stated on the `ValueStore.ReadValue` line above.
- ObjectModel.ReplayStep: a replayed child-relative action becomes a forwarding outcome and is taken to succeed. In the source the forwarded write to the child can fail, and `checkErrorInfo` then aborts the replay (lines 2587-2611); the model's replay continues past it.
- ObjectModel.SetValue: an unassigned name is not modelled: names are always strings.
- `isUpdating` only suppresses core events, so it is not modelled.
- `hasProperty` is not modelled beyond `splitOnLastDot`: its child branch reads another object.
- `getChildPropertyValue` is not modelled further than `ChildRequest`: the value read on the child object is a forwarding outcome.

## Findings

| source | as written | input that shows it | evidently intended | confidence | as-written member | corrected member |
|---|---|---|---|---|---|---|
| core/coreobjects/include/coreobjects/property_object_impl.h:1590-1607 | `strtol` leaves `end` at the `[` + 1 position when no digits follow, so `end == last` for `]` right after `[` | the name `a[]` is read as `a[0]` | an empty index is InvalidParameter | not executed | PropertyNames.EmptyBracketsAsWritten | PropertyNames.ParseIndex |
| core/coreobjects/include/coreobjects/property_object_impl.h:1559-1588 | `getPropertyNameInfo` reports "no index" as -1, the same value `a[-1]` parses to | `a[-1]` on a stored list returns the whole list | `a[-1]` is an index out of range | not executed | ValueStore.MinusOneReadsWholeList | ValueStore.ReadLocalValue |
