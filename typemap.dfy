/**
 * The type-directed part of accessor generation: the native declaration
 * (with its default) of the value a getter returns, and the conversion that
 * hands that value back to the script engine.
 */
module TypeMap {
  import opened WebIdl

  datatype NativeType = ObjectHandle | EngineBool | NativeDouble | Int16 | UInt16 | Int32 | UInt32 | StringHandle

  datatype DefaultValue = NullValue | FalseValue | ZeroValue

  datatype Conversion = ObjectToJsval | BooleanToJsval | DoubleToJsval | IntToJsval | StringToJsval

  datatype Declaration = Declaration(native: NativeType, default: DefaultValue)

  /** Outcome of a type switch: a mapping, a warning about an unhandled type
      and nothing written, or (void, unknown) nothing at all. */
  datatype Mapping<T> = Mapped(value: T) | Unsupported | NoMapping

  /** Categories the generator warns about instead of handling. */
  predicate IsUnhandled(t: BaseType) {
    t in {Byte, Octet, LongLong, Sequence, Date}
  }

  /** output_return_declaration: type and default of the return local. */
  function ReturnDeclaration(t: BaseType, unsigned: bool): Mapping<Declaration> {
    match t
    case User => Mapped(Declaration(ObjectHandle, NullValue))
    case Bool => Mapped(Declaration(EngineBool, FalseValue))
    case Byte => Unsupported
    case Octet => Unsupported
    case Float => Mapped(Declaration(NativeDouble, ZeroValue))
    case Double => Mapped(Declaration(NativeDouble, ZeroValue))
    case Short => Mapped(Declaration(if unsigned then UInt16 else Int16, ZeroValue))
    case LongLong => Unsupported
    case Long => Mapped(Declaration(if unsigned then UInt32 else Int32, ZeroValue))
    case String => Mapped(Declaration(StringHandle, NullValue))
    case Sequence => Unsupported
    case Object => Mapped(Declaration(ObjectHandle, NullValue))
    case Date => Unsupported
    case Void => NoMapping
    case Unrecognised => NoMapping
  }

  /** output_return: conversion of the return local to a script value. */
  function ReturnConversion(t: BaseType): Mapping<Conversion> {
    match t
    case User => Mapped(ObjectToJsval)
    case Bool => Mapped(BooleanToJsval)
    case Byte => Unsupported
    case Octet => Unsupported
    case Float => Mapped(DoubleToJsval)
    case Double => Mapped(DoubleToJsval)
    case Short => Mapped(IntToJsval)
    case LongLong => Unsupported
    case Long => Mapped(IntToJsval)
    case String => Mapped(StringToJsval)
    case Sequence => Unsupported
    case Object => Mapped(ObjectToJsval)
    case Date => Unsupported
    case Void => NoMapping
    case Unrecognised => NoMapping
  }

  /** Reference: how the engine receives a value of each native type. */
  function ConversionOf(n: NativeType): Conversion {
    match n
    case ObjectHandle => ObjectToJsval
    case EngineBool => BooleanToJsval
    case NativeDouble => DoubleToJsval
    case StringHandle => StringToJsval
    case _ => IntToJsval
  }

  /** Reference: the zero value of each native type. */
  function ZeroOf(n: NativeType): DefaultValue {
    match n
    case ObjectHandle => NullValue
    case StringHandle => NullValue
    case EngineBool => FalseValue
    case _ => ZeroValue
  }

  predicate IsUnsignedInt(n: NativeType) {
    n == UInt16 || n == UInt32
  }

  /** Bit width of the integer native types, 0 for the others. */
  function IntWidth(n: NativeType): nat {
    match n
    case Int16 => 16
    case UInt16 => 16
    case Int32 => 32
    case UInt32 => 32
    case _ => 0
  }

  /** The two switches agree: a type is declared exactly when it is converted,
      unhandled in one exactly when unhandled in the other, the conversion is
      the one for the declared native type and the default is its zero. */
  lemma DeclarationMatchesConversion(t: BaseType, unsigned: bool)
    ensures ReturnDeclaration(t, unsigned).Mapped? <==> ReturnConversion(t).Mapped?
    ensures ReturnDeclaration(t, unsigned).Unsupported? <==> IsUnhandled(t)
    ensures ReturnConversion(t).Unsupported? <==> IsUnhandled(t)
    ensures ReturnDeclaration(t, unsigned).NoMapping? <==> t == Void || t == Unrecognised
    ensures ReturnDeclaration(t, unsigned).Mapped? ==>
      && ReturnConversion(t).value == ConversionOf(ReturnDeclaration(t, unsigned).value.native)
      && ReturnDeclaration(t, unsigned).value.default == ZeroOf(ReturnDeclaration(t, unsigned).value.native)
  {
  }

  /** short and long map to 16- and 32-bit integers, unsigned exactly when
      the type carries the unsigned modifier. */
  lemma IntegerSignedness(t: BaseType, unsigned: bool)
    requires t == Short || t == Long
    ensures ReturnDeclaration(t, unsigned).Mapped?
    ensures IsUnsignedInt(ReturnDeclaration(t, unsigned).value.native) <==> unsigned
    ensures IntWidth(ReturnDeclaration(t, unsigned).value.native) == if t == Short then 16 else 32
  {
  }

  /** The signedness modifier matters for short and long only. */
  lemma UnsignedOnlyForIntegers(t: BaseType)
    requires t != Short && t != Long
    ensures ReturnDeclaration(t, true) == ReturnDeclaration(t, false)
  {
  }
}
