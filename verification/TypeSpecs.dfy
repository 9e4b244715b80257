/** Type specifications (common/ast/metadata.h) and the reading of one as a head name with parameters. */
module TypeSpecs {
  datatype PrimitiveType = PrimitiveUnspecified | Bool | Int64 | Uint64 | Double | String | Bytes

  datatype WellKnownType = WellKnownUnspecified | Any | Timestamp | Duration

  // An absent element, key, value or result type reads as `Unset` through the source's accessors.
  datatype TypeSpec =
    | Unset
    | Dyn
    | Null
    | ErrorType
    | Primitive(primitive: PrimitiveType)
    | Wrapper(wrapped: PrimitiveType)
    | WellKnown(wellKnown: WellKnownType)
    | List(elem: TypeSpec)
    | Map(key: TypeSpec, value: TypeSpec)
    | Function(result: TypeSpec, args: seq<TypeSpec>)
    | Message(messageName: string)
    | Param(paramName: string)
    | Type(inner: TypeSpec)
    | Abstract(name: string, params: seq<TypeSpec>)

  /** An unset list, map or result slot is printed as `dyn`. */
  function OrDyn(t: TypeSpec): TypeSpec {
    if t.Unset? then Dyn else t
  }

  function PrimitiveName(p: PrimitiveType): string {
    match p
    case PrimitiveUnspecified => ""
    case Bool => "bool"
    case Int64 => "int"
    case Uint64 => "uint"
    case Double => "double"
    case String => "string"
    case Bytes => "bytes"
  }

  function WrapperName(p: PrimitiveType): string {
    match p
    case PrimitiveUnspecified => ""
    case Bool => "bool_wrapper"
    case Int64 => "int_wrapper"
    case Uint64 => "uint_wrapper"
    case Double => "double_wrapper"
    case String => "string_wrapper"
    case Bytes => "bytes_wrapper"
  }

  function WellKnownName(w: WellKnownType): string {
    match w
    case WellKnownUnspecified => ""
    case Any => "any"
    case Timestamp => "timestamp"
    case Duration => "duration"
  }

  /** The name a printed type starts with (for a type parameter, the name after `~`). */
  function Head(t: TypeSpec): string {
    match t
    case Unset | ErrorType => ""
    case Dyn => "dyn"
    case Null => "null"
    case Primitive(p) => PrimitiveName(p)
    case Wrapper(p) => WrapperName(p)
    case WellKnown(w) => WellKnownName(w)
    case List(_) => "list"
    case Map(_, _) => "map"
    case Function(_, _) => "function"
    case Message(n) => n
    case Param(n) => n
    case Type(_) => "type"
    case Abstract(n, _) => n
  }

  /** Types the printer names with a keyword of its own. */
  predicate Keyword(t: TypeSpec) {
    !t.Param? && !t.Message? && !t.Abstract?
  }

  /** The types printed between the angle brackets; none means no brackets. */
  function Parts(t: TypeSpec): seq<TypeSpec> {
    match t
    case List(e) => [OrDyn(e)]
    case Map(k, v) => [OrDyn(k), OrDyn(v)]
    case Function(r, args) => [OrDyn(r)] + args
    case Type(i) => [i]
    case Abstract(_, ps) => ps
    case _ => []
  }

  /** Size of a specification; every part of a type is smaller than the type. */
  function Size(t: TypeSpec): nat {
    match t
    case List(e) => 2 + Size(e)
    case Map(k, v) => 3 + Size(k) + Size(v)
    case Function(r, args) => 2 + Size(r) + Sizes(args)
    case Type(i) => 2 + Size(i)
    case Abstract(_, ps) => 1 + Sizes(ps)
    case _ => 1
  }

  function Sizes(ts: seq<TypeSpec>): nat {
    if ts == [] then 0 else 1 + Size(ts[0]) + Sizes(ts[1..])
  }

  lemma PartsAreSmaller(t: TypeSpec)
    ensures Size(t) == 1 + Sizes(Parts(t))
  {
    match t
    case List(e) => assert Sizes([OrDyn(e)]) == 1 + Size(OrDyn(e));
    case Map(k, v) =>
      assert [OrDyn(k), OrDyn(v)][1..] == [OrDyn(v)];
      assert Sizes([OrDyn(v)]) == 1 + Size(v);
    case Function(r, args) => assert ([OrDyn(r)] + args)[1..] == args;
    case Type(i) => assert Sizes([i]) == 1 + Size(i);
    case _ =>
  }

  /** The head is one the printer supports. */
  predicate PrintableHead(t: TypeSpec) {
    match t
    case Unset | ErrorType => false
    case Primitive(p) => p != PrimitiveUnspecified
    case Wrapper(p) => p != PrimitiveUnspecified
    case WellKnown(w) => w != WellKnownUnspecified
    case _ => true
  }

  predicate Printable(t: TypeSpec)
    decreases Size(t)
  {
    PartsAreSmaller(t);
    PrintableHead(t) && AllPrintable(Parts(t))
  }

  predicate AllPrintable(ts: seq<TypeSpec>)
    decreases Sizes(ts)
  {
    ts == [] || (Printable(ts[0]) && AllPrintable(ts[1..]))
  }
}
