/** The explicit-value store of a Property Object (`propValues`) and how a value is read: the
    stored value, otherwise the property default, optionally indexed into a list. */
module ValueStore {
  import opened Values
  import opened Properties
  import opened PropertyNames
  import opened UpdateStack

  /** Explicitly stored values by property name. A property without an entry reads as its
      default. */
  type Store = map<string, Value>

  /** The position of the property called `name`, if any. */
  function IndexOfName(props: seq<Property>, name: string): (r: Option<nat>)
    ensures r.Some? ==> r.value < |props| && props[r.value].name == name
    ensures r.Some? ==> forall k :: 0 <= k < r.value ==> props[k].name != name
    ensures r.None? <==> forall k :: 0 <= k < |props| ==> props[k].name != name
    decreases |props|
  {
    if props == [] then None
    else if props[0].name == name then Some(0)
    else match IndexOfName(props[1..], name)
      case None => None
      case Some(k) => Some(k + 1)
  }

  /** No two properties share a name. */
  predicate UniqueNames(props: seq<Property>)
  {
    forall i, j :: 0 <= i < j < |props| ==> props[i].name != props[j].name
  }

  /** `getUnboundPropertyOrNull`: a local property of that name, otherwise the class property
      of that name. */
  function FindProperty(local: seq<Property>, cls: seq<Property>, name: string): (r: Option<Property>)
    ensures r.Some? ==> r.value.name == name
    ensures r.Some? ==> r.value in local || r.value in cls
    ensures r.None? <==> IndexOfName(local, name).None? && IndexOfName(cls, name).None?
    ensures IndexOfName(local, name).Some? ==> r == Some(local[IndexOfName(local, name).value])
  {
    match IndexOfName(local, name)
    case Some(k) => Some(local[k])
    case None =>
      match IndexOfName(cls, name)
      case Some(k) => Some(cls[k])
      case None => None
  }

  // ---------------------------------------------------------------------------------------
  // `shouldWriteLocalValue` and `writeLocalValue`

  /** `writeLocalValue`: a write that would not change what the property reads is skipped. An
      existing entry equal to the new value is left alone; an absent entry is not created for
      the default unless the write is forced. Otherwise the value is stored under the name and
      nothing else changes. In particular an existing entry overwritten with the default stays
      in the store. */
  function WriteLocalValue(vals: Store, name: string, v: Value, default: Value, force: bool): (r: (bool, Store))
    ensures !r.0 <==> (name in vals && vals[name] == v) || (name !in vals && !force && v == default)
    ensures !r.0 ==> r.1 == vals
    ensures r.0 ==> r.1 == vals[name := v]
  {
    if name in vals then
      if vals[name] == v then (false, vals) else (true, vals[name := v])
    else if force || default != v then (true, vals[name := v])
    else (false, vals)
  }

  /** `shouldWriteLocalValue` decides, without writing, exactly whether an unforced
      `writeLocalValue` would change the store. */
  function ShouldWriteLocalValue(vals: Store, name: string, v: Value, default: Value): (r: bool)
    ensures r <==> WriteLocalValue(vals, name, v, default, false).0
  {
    if name in vals then vals[name] != v else default != v
  }

  // ---------------------------------------------------------------------------------------
  // `readLocalValue`

  /** An element of a list value, with the failures of an indexed access. */
  function IndexInto(v: Value, i: int): (r: Result<Value>)
    ensures r.Ok? <==> v.ListV? && 0 <= i < |v.items|
    ensures r.Ok? ==> r.value == v.items[i]
    ensures !v.ListV? ==> r == Err(InvalidParameter)
    ensures v.ListV? && !(0 <= i < |v.items|) ==> r == Err(OutOfRange)
  {
    if !v.ListV? then Err(InvalidParameter)
    else if i < 0 || i >= |v.items| then Err(OutOfRange)
    else Ok(v.items[i])
  }

  /** `readLocalValue` with the index parsed as evidently intended: the stored value of the
      name before `[`, indexed when the name carries an index. */
  function ReadLocalValue(vals: Store, name: string): (r: Result<Value>)
    ensures r.Err? ==> r.err in {NotFound, InvalidParameter, OutOfRange}
    ensures NameWithoutIndex(name).0 !in vals ==> r.Err?
    ensures '[' !in name ==> (r.Ok? <==> name in vals)
  {
    match GetPropertyNameInfo(name)
    case Err(e) => Err(e)
    case Ok(info) =>
      if info.name !in vals then Err(NotFound)
      else
        match info.index
        case None => Ok(vals[info.name])
        case Some(i) => IndexInto(vals[info.name], i)
  }

  /** A plain name reads its entry, or NotFound. */
  lemma ReadLocalValuePlain(vals: Store, name: string)
    requires '[' !in name
    ensures name in vals ==> ReadLocalValue(vals, name) == Ok(vals[name])
    ensures name !in vals ==> ReadLocalValue(vals, name) == Err(NotFound)
  {
  }

  /** `name[i]` reads element `i` of the stored list; a stored value that is not a list is
      InvalidParameter and an index past its end is OutOfRange. */
  lemma ReadLocalValueIndexed(vals: Store, base: string, digits: string)
    requires '[' !in base && base in vals
    requires digits != [] && forall k :: 0 <= k < |digits| ==> IsDigit(digits[k])
    requires DigitsValue(digits) < 0x8000_0000
    ensures ReadLocalValue(vals, base + "[" + digits + "]") == IndexInto(vals[base], DigitsValue(digits))
  {
    IndexedName(base, digits);
  }

  /** `readLocalValue` as written: an index of -1 counts as no index. */
  function ReadLocalValueAsWritten(vals: Store, name: string): (r: Result<Value>)
    ensures r.Err? ==> r.err in {NotFound, InvalidParameter, OutOfRange}
    ensures NameWithoutIndex(name).0 !in vals ==> r.Err?
    ensures '[' !in name ==> (r.Ok? <==> name in vals)
    ensures '[' !in name && name in vals ==> r == Ok(vals[name])
  {
    match GetPropertyNameInfoAsWritten(name)
    case Err(e) => Err(e)
    case Ok(info) =>
      if info.name !in vals then Err(NotFound)
      else if info.index == -1 then Ok(vals[info.name])
      else IndexInto(vals[info.name], info.index)
  }

  /** `name[-1]` on a stored list returns the whole list as written; as intended it is an index
      out of range. */
  lemma MinusOneReadsWholeList(vals: Store)
    requires "a" in vals && vals["a"].ListV?
    ensures ReadLocalValueAsWritten(vals, "a[-1]") == Ok(vals["a"])
    ensures ReadLocalValue(vals, "a[-1]") == Err(OutOfRange)
  {
    MinusOneIsNoIndexAsWritten();
    MinusOneIsIndex();
  }

  // ---------------------------------------------------------------------------------------
  // `getPropertyAndValueInternal`

  /** The value of a plain (not parent- or child-relative) name: while a write of that name is
      in flight and the caller asks for it, the value being written (the default while it is
      being cleared); otherwise the stored value, or, when there is none, the default, indexed
      when the default is a list and the name carries an index. */
  function ReadValue(local: seq<Property>, cls: seq<Property>, vals: Store, stack: Table,
                     name: string, retrieveUpdatingValue: bool): (r: Result<Value>)
    ensures FindProperty(local, cls, NameWithoutIndex(name).0).None? ==> r == Err(NotFound)
    ensures r.Err? ==> r.err in {NotFound, InvalidParameter, OutOfRange}
  {
    var propName := NameWithoutIndex(name).0;
    var bracket := NameWithoutIndex(name).1;
    match FindProperty(local, cls, propName)
    case None => Err(NotFound)
    case Some(prop) =>
      if retrieveUpdatingValue && name in stack then
        Ok(if stack[name].value == Null then prop.defaultValue else stack[name].value)
      else
        match ReadLocalValue(vals, name)
        case Ok(v) => Ok(v)
        case Err(e) =>
          if e != NotFound then Err(e)
          else if prop.defaultValue == Null then Ok(Null)
          else if prop.defaultValue.ListV? && bracket.Some? then
            match ParseIndex(name[bracket.value + 1..])
            case Err(e2) => Err(e2)
            case Ok(i) => IndexInto(prop.defaultValue, i)
          else Ok(prop.defaultValue)
  }

  /** The value resolution of `getPropertyAndValueInternal` as written: the stored value is read
      by `readLocalValue` as written and a list default is indexed with `parseIndex` as
      written. */
  function ReadValueAsWritten(local: seq<Property>, cls: seq<Property>, vals: Store, stack: Table,
                              name: string, retrieveUpdatingValue: bool): (r: Result<Value>)
    ensures FindProperty(local, cls, NameWithoutIndex(name).0).None? ==> r == Err(NotFound)
    ensures r.Err? ==> r.err in {NotFound, InvalidParameter, OutOfRange}
  {
    var propName := NameWithoutIndex(name).0;
    var bracket := NameWithoutIndex(name).1;
    match FindProperty(local, cls, propName)
    case None => Err(NotFound)
    case Some(prop) =>
      if retrieveUpdatingValue && name in stack then
        Ok(if stack[name].value == Null then prop.defaultValue else stack[name].value)
      else
        match ReadLocalValueAsWritten(vals, name)
        case Ok(v) => Ok(v)
        case Err(e) =>
          if e != NotFound then Err(e)
          else if prop.defaultValue == Null then Ok(Null)
          else if prop.defaultValue.ListV? && bracket.Some? then
            match ParseIndexAsWritten(name[bracket.value + 1..])
            case Err(e2) => Err(e2)
            case Ok(i) => IndexInto(prop.defaultValue, i)
          else Ok(prop.defaultValue)
  }

  /** The code and the corrected read agree on every name without an index. */
  lemma ReadValueAgreesPlain(local: seq<Property>, cls: seq<Property>, vals: Store, stack: Table,
                             name: string, retrieveUpdatingValue: bool)
    requires '[' !in name
    ensures ReadValueAsWritten(local, cls, vals, stack, name, retrieveUpdatingValue)
              == ReadValue(local, cls, vals, stack, name, retrieveUpdatingValue)
  {
  }

  /** A read that finds a stored value, or fails for a reason other than its absence, is that
      read of the store, in both versions. */
  lemma ReadValueFromStore(local: seq<Property>, cls: seq<Property>, vals: Store, stack: Table, name: string)
    requires FindProperty(local, cls, NameWithoutIndex(name).0).Some?
    ensures ReadLocalValue(vals, name).Ok? || ReadLocalValue(vals, name).err != NotFound ==>
              ReadValue(local, cls, vals, stack, name, false) == ReadLocalValue(vals, name)
    ensures ReadLocalValueAsWritten(vals, name).Ok? || ReadLocalValueAsWritten(vals, name).err != NotFound ==>
              ReadValueAsWritten(local, cls, vals, stack, name, false) == ReadLocalValueAsWritten(vals, name)
  {
  }

  /** As written, `a[]` reads element 0 of a stored list; the corrected read refuses it. */
  lemma ReadValueEmptyBrackets(local: seq<Property>, cls: seq<Property>, vals: Store, stack: Table)
    requires FindProperty(local, cls, "a").Some?
    requires "a" in vals && vals["a"].ListV? && vals["a"].items != []
    ensures ReadValueAsWritten(local, cls, vals, stack, "a[]", false) == Ok(vals["a"].items[0])
    ensures ReadValue(local, cls, vals, stack, "a[]", false) == Err(InvalidParameter)
  {
    BaseBeforeBracket("a", "]");
    assert "a" + ['['] + "]" == "a[]";
    assert "a[]"[2..] == "]";
    EmptyBracketsAsWritten();
    assert FirstIndexOf("]", ']') == Some(0);
    assert ParseIndex("]") == Err(InvalidParameter);
    assert GetPropertyNameInfoAsWritten("a[]") == Ok(NameInfoAsWritten("a", 0));
    assert GetPropertyNameInfo("a[]") == Err(InvalidParameter);
    assert ReadLocalValueAsWritten(vals, "a[]") == Ok(vals["a"].items[0]);
    assert ReadLocalValue(vals, "a[]") == Err(InvalidParameter);
    ReadValueFromStore(local, cls, vals, stack, "a[]");
  }

  /** As written, `a[-1]` reads the whole stored list; the corrected read reports it out of
      range. */
  lemma ReadValueMinusOne(local: seq<Property>, cls: seq<Property>, vals: Store, stack: Table)
    requires FindProperty(local, cls, "a").Some?
    requires "a" in vals && vals["a"].ListV?
    ensures ReadValueAsWritten(local, cls, vals, stack, "a[-1]", false) == Ok(vals["a"])
    ensures ReadValue(local, cls, vals, stack, "a[-1]", false) == Err(OutOfRange)
  {
    NameWithoutIndexMinusOne();
    MinusOneReadsWholeList(vals);
    ReadValueFromStore(local, cls, vals, stack, "a[-1]");
  }

  /** A plain name of an existing property reads its stored value, and its default when it has
      none. */
  lemma ReadValuePlain(local: seq<Property>, cls: seq<Property>, vals: Store, stack: Table,
                       name: string, retrieveUpdatingValue: bool)
    requires '[' !in name && FindProperty(local, cls, name).Some?
    requires !retrieveUpdatingValue || name !in stack
    ensures ReadValue(local, cls, vals, stack, name, retrieveUpdatingValue)
              == Ok(if name in vals then vals[name] else FindProperty(local, cls, name).value.defaultValue)
  {
  }

  /** Reading back what `writeLocalValue` was given yields that value, whether the write
      stored it or skipped it, and whatever the force flag. */
  lemma {:induction false} ReadAfterWrite(local: seq<Property>, cls: seq<Property>, vals: Store, stack: Table,
                                          name: string, v: Value, force: bool, retrieveUpdatingValue: bool)
    requires '[' !in name && FindProperty(local, cls, name).Some?
    requires !retrieveUpdatingValue || name !in stack
    ensures ReadValue(local, cls, WriteLocalValue(vals, name, v, FindProperty(local, cls, name).value.defaultValue, force).1,
                      stack, name, retrieveUpdatingValue) == Ok(v)
  {
    ReadValuePlain(local, cls, WriteLocalValue(vals, name, v, FindProperty(local, cls, name).value.defaultValue, force).1,
                   stack, name, retrieveUpdatingValue);
  }

  /** A write of one name leaves what every other name reads unchanged. */
  lemma WriteLeavesOthers(local: seq<Property>, cls: seq<Property>, vals: Store, stack: Table,
                          name: string, v: Value, default: Value, force: bool, other: string, retrieveUpdatingValue: bool)
    requires '[' !in other && other != name
    ensures ReadValue(local, cls, WriteLocalValue(vals, name, v, default, force).1, stack, other, retrieveUpdatingValue)
              == ReadValue(local, cls, vals, stack, other, retrieveUpdatingValue)
  {
  }

  /** Writing the value a property already reads never changes the store unless forced: the
      round trip read-then-write is a no-op. */
  lemma WriteWhatIsReadIsIgnored(local: seq<Property>, cls: seq<Property>, vals: Store, stack: Table, name: string)
    requires '[' !in name && FindProperty(local, cls, name).Some?
    ensures ReadValue(local, cls, vals, stack, name, false).Ok?
    ensures WriteLocalValue(vals, name, ReadValue(local, cls, vals, stack, name, false).value,
                            FindProperty(local, cls, name).value.defaultValue, false) == (false, vals)
  {
    ReadValuePlain(local, cls, vals, stack, name, false);
  }

  /** While a write is in flight, a read that asks for it sees the value being written. */
  lemma ReadSeesWriteInFlight(local: seq<Property>, cls: seq<Property>, vals: Store, stack: Table, name: string, v: Value)
    requires '[' !in name && FindProperty(local, cls, name).Some? && v != Null
    ensures ReadValue(local, cls, vals, Register(stack, name, v).1, name, true) == Ok(v)
  {
  }

  /** An indexed read of a property without a stored value indexes its list default. */
  lemma ReadValueIndexedDefault(local: seq<Property>, cls: seq<Property>, vals: Store, stack: Table,
                                base: string, digits: string)
    requires '[' !in base && base !in vals && FindProperty(local, cls, base).Some?
    requires FindProperty(local, cls, base).value.defaultValue.ListV?
    requires digits != [] && forall k :: 0 <= k < |digits| ==> IsDigit(digits[k])
    requires DigitsValue(digits) < 0x8000_0000
    ensures ReadValue(local, cls, vals, stack, base + "[" + digits + "]", false)
              == IndexInto(FindProperty(local, cls, base).value.defaultValue, DigitsValue(digits))
  {
    IndexedName(base, digits);
    IndexedDefault(local, cls, vals, stack, base + "[" + digits + "]", base, |base|, DigitsValue(digits));
  }

  lemma IndexedDefault(local: seq<Property>, cls: seq<Property>, vals: Store, stack: Table,
                       name: string, base: string, p: nat, i: int)
    requires NameWithoutIndex(name) == (base, Some(p)) && p < |name|
    requires ParseIndex(name[p + 1..]) == Ok(i)
    requires GetPropertyNameInfo(name) == Ok(NameInfo(base, Some(i)))
    requires base !in vals && FindProperty(local, cls, base).Some?
    requires FindProperty(local, cls, base).value.defaultValue.ListV?
    ensures ReadValue(local, cls, vals, stack, name, false) == IndexInto(FindProperty(local, cls, base).value.defaultValue, i)
  {
    var prop := FindProperty(local, cls, base).value;
    assert ReadLocalValue(vals, name) == Err(NotFound);
  }
}
