/** Checker types (common/type.h): what their kind, name and parameters are. Equal types are equal values. */
module Types {
  import opened Results

  /** Types without parts. */
  datatype Basic =
    | DynType | AnyType | NullType | BoolType | IntType | UintType | DoubleType | StringType | BytesType
    | BoolWrapperType | IntWrapperType | UintWrapperType | DoubleWrapperType | StringWrapperType | BytesWrapperType
    | DurationType | TimestampType | UnknownType | ErrorType

  datatype Type =
    | Simple(basic: Basic)
    | ListType(element: Type)
    | MapType(key: Type, value: Type)
    | OpaqueType(opaqueName: string, parameters: seq<Type>)
    | StructType(structName: string)
    | EnumType(enumName: string)
    | TypeType(parameter: Option<Type>)
    | TypeParamType(paramName: string)
    | FunctionType(result: Type, args: seq<Type>)

  datatype TypeKind = KBasic(basic: Basic) | KList | KMap | KOpaque | KStruct | KEnum | KType | KTypeParam | KFunction

  function Kind(t: Type): TypeKind {
    match t
    case Simple(basic) => KBasic(basic)
    case ListType(_) => KList
    case MapType(_, _) => KMap
    case OpaqueType(_, _) => KOpaque
    case StructType(_) => KStruct
    case EnumType(_) => KEnum
    case TypeType(_) => KType
    case TypeParamType(_) => KTypeParam
    case FunctionType(_, _) => KFunction
  }

  function BasicName(basic: Basic): string {
    match basic
    case DynType => "dyn"
    case AnyType => "google.protobuf.Any"
    case NullType => "null_type"
    case BoolType => "bool"
    case IntType => "int"
    case UintType => "uint"
    case DoubleType => "double"
    case StringType => "string"
    case BytesType => "bytes"
    case BoolWrapperType => "google.protobuf.BoolValue"
    case IntWrapperType => "google.protobuf.Int64Value"
    case UintWrapperType => "google.protobuf.UInt64Value"
    case DoubleWrapperType => "google.protobuf.DoubleValue"
    case StringWrapperType => "google.protobuf.StringValue"
    case BytesWrapperType => "google.protobuf.BytesValue"
    case DurationType => "google.protobuf.Duration"
    case TimestampType => "google.protobuf.Timestamp"
    case UnknownType => "*unknown*"
    case ErrorType => "*error*"
  }

  predicate IsWrapper(basic: Basic) {
    || basic.BoolWrapperType? || basic.IntWrapperType? || basic.UintWrapperType?
    || basic.DoubleWrapperType? || basic.StringWrapperType? || basic.BytesWrapperType?
  }

  function Name(t: Type): string {
    match t
    case Simple(basic) => BasicName(basic)
    case ListType(_) => "list"
    case MapType(_, _) => "map"
    case OpaqueType(name, _) => name
    case StructType(name) => name
    case EnumType(name) => name
    case TypeType(_) => "type"
    case TypeParamType(name) => name
    case FunctionType(_, _) => "function"
  }

  function GetParameters(t: Type): (params: seq<Type>)
    ensures forall i | 0 <= i < |params| :: params[i] < t
  {
    match t
    case ListType(element) => [element]
    case MapType(key, value) => [key, value]
    case OpaqueType(_, parameters) => parameters
    case TypeType(parameter) => if parameter.Some? then [parameter.value] else []
    case FunctionType(result, args) => [result] + args
    case _ => []
  }

  /** Kind, name and parameters make up a type. */
  lemma TypeIsItsParts(a: Type, b: Type)
    requires Kind(a) == Kind(b) && Name(a) == Name(b) && GetParameters(a) == GetParameters(b)
    ensures a == b
  {
    match a {
      case ListType(_) => assert GetParameters(a)[0] == GetParameters(b)[0];
      case MapType(_, _) =>
        assert GetParameters(a)[0] == GetParameters(b)[0] && GetParameters(a)[1] == GetParameters(b)[1];
      case FunctionType(_, _) =>
        assert GetParameters(a)[0] == GetParameters(b)[0] && GetParameters(a)[1..] == GetParameters(b)[1..];
      case TypeType(_) =>
        assert |GetParameters(a)| == |GetParameters(b)|
        && (GetParameters(a) != [] ==> GetParameters(a)[0] == GetParameters(b)[0]);
      case _ =>
    }
  }
}
