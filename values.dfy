/** Values, core types and error codes of the Property Object engine. */
module Values {

  /** Identity of a Property Object; object-typed values and owner links refer to objects by id. */
  type ObjId = nat

  /** The subset of core values the engine stores and compares. `Null` stands for an
      unassigned object pointer (an unset default, the value a clear registers). */
  datatype Value =
    | Null
    | BoolV(b: bool)
    | IntV(i: int)
    | StrV(s: string)
    | ListV(items: seq<Value>)
    | ObjV(id: ObjId)

  datatype CoreType =
    | CtBool | CtInt | CtFloat | CtString | CtList | CtDict | CtRatio | CtComplexNumber
    | CtStruct | CtEnumeration | CtObject | CtProc | CtFunc | CtBinaryData | CtUndefined

  function CoreTypeOf(v: Value): CoreType
  {
    match v
    case Null => CtUndefined
    case BoolV(_) => CtBool
    case IntV(_) => CtInt
    case StrV(_) => CtString
    case ListV(_) => CtList
    case ObjV(_) => CtObject
  }

  /** Failure codes the core returns. */
  datatype ErrKind =
    | NotFound
    | AccessDenied
    | Frozen
    | InvalidParameter
    | InvalidState
    | InvalidValue
    | InvalidType
    | OutOfRange
    | AlreadyExists
    | ArgumentNull
    | NoInterface
    | ConversionFailed
    | CoerceFailed
    | ValidateFailed
    | GeneralError

  /** The tri-state result of a mutating call: `Ignored` is a success that changed nothing. */
  datatype Status = Success | Ignored | Failed(err: ErrKind)
  {
    predicate Succeeded() { !Failed? }
  }

  datatype Option<T> = None | Some(value: T)

  datatype Result<T> = Ok(value: T) | Err(err: ErrKind)
}
