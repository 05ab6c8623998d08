/** Property definitions and the value checks they impose on a write (`checkSelectionValues`,
    `coerceMinMax` and the ordered check chain of `setPropertyValueInternal`). */
module Properties {
  import opened Values

  /** The value set of a selection property: a list addressed by index or a dictionary
      addressed by key. */
  datatype Selection = SelList(values: seq<Value>) | SelDict(entries: map<Value, Value>)

  /** A property definition, reduced to what the engine consults. */
  datatype Property = Property(
    name: string,
    valueType: CoreType,
    readOnly: bool,
    visible: bool,
    isReferenced: bool,
    defaultValue: Value,
    selection: Option<Selection>,
    minValue: Option<int>,
    maxValue: Option<int>)

  /** The calls the engine makes into collaborators that are not part of this model: type
      conversion (`convertTo`), the container, struct and enumeration type checks, the
      property's coercer and validator, and the write-event handlers, which may replace the
      value being written or fail. A check returns `None` when it passes. */
  datatype Hooks = Hooks(
    convert: (CoreType, Value) -> Result<Value>,
    checkContainer: (Property, Value) -> Option<ErrKind>,
    checkStruct: (Property, Value) -> Option<ErrKind>,
    checkEnumeration: (Property, Value) -> Option<ErrKind>,
    coerce: (Property, Value) -> Result<Value>,
    validate: (Property, Value) -> Option<ErrKind>,
    onWrite: (string, Value, Value) -> Result<Value>)

  /** Collaborators that accept everything and change nothing: no conversion is possible, no
      coercer, no validator, no event handler. */
  function Quiet(): Hooks
  {
    Hooks(
      (t, v) => Err(ConversionFailed),
      (p, v) => None, (p, v) => None, (p, v) => None,
      (p, v) => Ok(v), (p, v) => None,
      (n, nv, ov) => Ok(nv))
  }

  const SizeTModulus: int := 0x1_0000_0000_0000_0000

  /** `const SizeT key = value;`: integers wrap to an unsigned 64-bit count, booleans become 0
      or 1, any other value fails to convert. */
  function ToSizeT(v: Value): (r: Option<int>)
    ensures r.Some? ==> 0 <= r.value < SizeTModulus
    ensures v.IntV? && 0 <= v.i < SizeTModulus ==> r == Some(v.i)
  {
    match v
    case IntV(i) => Some(i % SizeTModulus)
    case BoolV(b) => Some(if b then 1 else 0)
    case _ => None
  }

  /** `checkSelectionValues`: with a selection list the value must be an index below its
      length, with a selection dictionary one of its keys; anything else is NotFound. */
  function CheckSelectionValues(prop: Property, v: Value): (r: Status)
    ensures r == Success || r == Failed(NotFound) || r == Failed(ConversionFailed)
    ensures prop.selection.None? ==> r == Success
    ensures prop.selection.Some? && ToSizeT(v).Some? ==>
              (r == Success <==>
                 match prop.selection.value
                 case SelList(values) => ToSizeT(v).value < |values|
                 case SelDict(entries) => v in entries)
    ensures prop.selection.Some? && ToSizeT(v).None? ==> r == Failed(ConversionFailed)
  {
    match prop.selection
    case None => Success
    case Some(sel) =>
      match ToSizeT(v)
      case None => Failed(ConversionFailed)
      case Some(key) =>
        match sel
        case SelList(values) => if key < |values| then Success else Failed(NotFound)
        case SelDict(entries) => if v in entries then Success else Failed(NotFound)
  }

  /** A selection list accepts exactly the 64-bit integers that index it: a negative integer
      wraps to a count beyond any list. */
  lemma SelectionListIndices(prop: Property, values: seq<Value>, i: int)
    requires prop.selection == Some(SelList(values))
    requires |values| < 0x8000_0000_0000_0000
    requires -0x8000_0000_0000_0000 <= i < 0x8000_0000_0000_0000
    ensures CheckSelectionValues(prop, IntV(i)) == Success <==> 0 <= i < |values|
  {
    if i < 0 {
      assert i / SizeTModulus == -1;
      assert i % SizeTModulus == i + SizeTModulus;
    }
  }

  predicate OrderedBounds(prop: Property)
  {
    prop.minValue.None? || prop.maxValue.None? || prop.minValue.value <= prop.maxValue.value
  }

  predicate WithinBounds(prop: Property, i: int)
  {
    (prop.minValue.None? || prop.minValue.value <= i) && (prop.maxValue.None? || i <= prop.maxValue.value)
  }

  /** `coerceMinMax`: an integer below the minimum becomes the minimum, then one above the
      maximum becomes the maximum. A value that cannot be compared with the bounds is left
      as it is (the source swallows the failed comparison). */
  function CoerceMinMax(prop: Property, v: Value): (r: Value)
    ensures !v.IntV? ==> r == v
    ensures v.IntV? ==> r.IntV?
    ensures v.IntV? && prop.maxValue.Some? ==> r.i <= prop.maxValue.value
    ensures v.IntV? && prop.minValue.Some? && OrderedBounds(prop) ==> r.i >= prop.minValue.value
    ensures v.IntV? && WithinBounds(prop, v.i) ==> r == v
  {
    match v
    case IntV(i) =>
      var low := if prop.minValue.Some? && i < prop.minValue.value then prop.minValue.value else i;
      var high := if prop.maxValue.Some? && low > prop.maxValue.value then prop.maxValue.value else low;
      IntV(high)
    case _ => v
  }

  /** Bounds in the wrong order clamp every value below the minimum to the maximum. */
  lemma CoerceMinMaxInvertedBounds(prop: Property, i: int)
    requires prop.minValue.Some? && prop.maxValue.Some?
    requires prop.maxValue.value < prop.minValue.value && i < prop.minValue.value
    ensures CoerceMinMax(prop, IntV(i)) == IntV(prop.maxValue.value)
  {
  }

  /** Clamping twice is clamping once, whenever the bounds are in order. */
  lemma CoerceMinMaxIdempotent(prop: Property, v: Value)
    requires prop.minValue.Some? && prop.maxValue.Some? ==> prop.minValue.value <= prop.maxValue.value
    ensures CoerceMinMax(prop, CoerceMinMax(prop, v)) == CoerceMinMax(prop, v)
  {
  }

  function FirstFailure(s: Option<ErrKind>): Result<()>
  {
    match s
    case None => Ok(())
    case Some(e) => Err(e)
  }

  /** The checks that run, in this order, on a write to a plain (not child-relative) property
      once it has been found: access (read-only or object-typed without protected access),
      type conversion, container type, selection values, struct type, enumeration type, the
      coercer, the validator and the min/max clamp. The first failure ends the write; on
      success the value to store is returned. */
  function CheckWrite(prop: Property, v: Value, protectedAccess: bool, hooks: Hooks): (r: Result<Value>)
    ensures !protectedAccess && (prop.readOnly || prop.valueType == CtObject) ==> r == Err(AccessDenied)
    ensures r.Ok? && r.value.IntV? && prop.maxValue.Some? ==> r.value.i <= prop.maxValue.value
    ensures r.Ok? && r.value.IntV? && OrderedBounds(prop) && prop.minValue.Some? ==> prop.minValue.value <= r.value.i
  {
    if !protectedAccess && (prop.readOnly || prop.valueType == CtObject) then Err(AccessDenied)
    else
      var converted :=
        if v == Null || CoreTypeOf(v) == prop.valueType then Ok(v) else hooks.convert(prop.valueType, v);
      match converted
      case Err(e) => Err(e)
      case Ok(c) =>
        if hooks.checkContainer(prop, c).Some? then Err(hooks.checkContainer(prop, c).value)
        else if CheckSelectionValues(prop, c).Failed? then Err(CheckSelectionValues(prop, c).err)
        else if hooks.checkStruct(prop, c).Some? then Err(hooks.checkStruct(prop, c).value)
        else if hooks.checkEnumeration(prop, c).Some? then Err(hooks.checkEnumeration(prop, c).value)
        else
          match hooks.coerce(prop, c)
          case Err(e) => Err(e)
          case Ok(coerced) =>
            if hooks.validate(prop, coerced).Some? then Err(hooks.validate(prop, coerced).value)
            else Ok(CoerceMinMax(prop, coerced))
  }

  /** A write without protected access to a read-only or object-typed property is denied
      before any other check runs; protected access never fails for that reason. */
  lemma CheckWriteAccess(prop: Property, v: Value, protectedAccess: bool, hooks: Hooks)
    ensures !protectedAccess && (prop.readOnly || prop.valueType == CtObject) ==>
              CheckWrite(prop, v, protectedAccess, hooks) == Err(AccessDenied)
    ensures CheckWrite(prop, v, true, hooks) == CheckWrite(prop, v, false, hooks)
              || (prop.readOnly || prop.valueType == CtObject)
  {
  }

  /** An integer outside a selection list is refused with NotFound when it already has the
      property's type and the container check passes. */
  lemma CheckWriteSelection(prop: Property, values: seq<Value>, i: int, protectedAccess: bool, hooks: Hooks)
    requires prop.selection == Some(SelList(values)) && |values| < 0x8000_0000_0000_0000
    requires -0x8000_0000_0000_0000 <= i < 0x8000_0000_0000_0000
    requires prop.valueType == CtInt && (protectedAccess || !prop.readOnly)
    requires hooks.checkContainer(prop, IntV(i)).None?
    requires i < 0 || i >= |values|
    ensures CheckWrite(prop, IntV(i), protectedAccess, hooks) == Err(NotFound)
  {
    SelectionListIndices(prop, values, i);
  }

  /** Whatever the collaborators do, an integer the write stores lies within the property's
      bounds when they are in order. */
  lemma CheckWriteBounds(prop: Property, v: Value, protectedAccess: bool, hooks: Hooks)
    requires prop.minValue.Some? && prop.maxValue.Some? && prop.minValue.value <= prop.maxValue.value
    requires CheckWrite(prop, v, protectedAccess, hooks).Ok?
    requires CheckWrite(prop, v, protectedAccess, hooks).value.IntV?
    ensures prop.minValue.value <= CheckWrite(prop, v, protectedAccess, hooks).value.i <= prop.maxValue.value
  {
  }

  /** With quiet collaborators an integer property takes an in-range integer unchanged. */
  lemma CheckWriteQuiet(prop: Property, i: int)
    requires prop.valueType == CtInt && !prop.readOnly && prop.selection.None?
    requires prop.minValue.None? || prop.minValue.value <= i
    requires prop.maxValue.None? || i <= prop.maxValue.value
    ensures CheckWrite(prop, IntV(i), false, Quiet()) == Ok(IntV(i))
  {
  }
}
