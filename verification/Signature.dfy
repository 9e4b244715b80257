/**
 * The signature language of common/signature.cc as functions: what is printed for a type or an
 * overload, what is read from a signature, and how the two fit together.
 */
module Signature {
  import opened Results
  import opened TypeSpecs
  import opened SignatureText

  // ---------- printing ----------

  /** What AppendTypeDesc adds for a printable type. */
  function Desc(t: TypeSpec): string
    decreases Size(t)
  {
    PartsAreSmaller(t);
    if t.Param? then "~" + Escape(t.paramName, true)
    else Escape(Head(t), false) + (if Parts(t) == [] then "" else "<" + Join(Descs(Parts(t)), ',') + ">")
  }

  function Descs(ts: seq<TypeSpec>): (ds: seq<string>)
    ensures |ds| == |ts|
    decreases Sizes(ts)
  {
    if ts == [] then [] else [Desc(ts[0])] + Descs(ts[1..])
  }

  lemma JoinedCons(ts: seq<TypeSpec>)
    requires |ts| > 1
    ensures Join(Descs(ts), ',') == Desc(ts[0]) + ("," + Join(Descs(ts[1..]), ','))
  {
    hide Desc;
    var ds, rest := Descs(ts), Descs(ts[1..]);
    assert ds[0] == Desc(ts[0]) && ds[1..] == rest;
    assert ds[0] + [','] + Join(rest, ',') == ds[0] + ([','] + Join(rest, ','));
  }

  function MakeTypeSpecSignature(t: TypeSpec): Result<string> {
    if Printable(t) then Ok(Desc(t)) else Error
  }

  /** The receiver with its dot, or nothing. */
  function ReceiverText(args: seq<TypeSpec>, isMember: bool): string
    requires isMember ==> args != []
  {
    if isMember then Desc(args[0]) + "." else ""
  }

  /** The arguments between the parentheses: all but the receiver. */
  function CallArgs(args: seq<TypeSpec>, isMember: bool): seq<TypeSpec>
    requires isMember ==> args != []
  {
    if isMember then args[1..] else args
  }

  function OverloadDesc(name: string, args: seq<TypeSpec>, isMember: bool): string
    requires isMember ==> args != []
  {
    ReceiverText(args, isMember) + Escape(name, true)
    + ("(" + (Join(Descs(CallArgs(args, isMember)), ',') + ")"))
  }

  function MakeOverloadSignature(name: string, args: seq<TypeSpec>, isMember: bool): Result<string> {
    if (isMember && args == []) || !AllPrintable(args) then Error
    else Ok(OverloadDesc(name, args, isMember))
  }

  // ---------- parsing ----------

  function ParseBuiltinOrWrapper(name: string): Option<TypeSpec> {
    var builtin := ParseBuiltin(name);
    if builtin.Some? then builtin else ParseWrapper(name)
  }

  function ParseBuiltin(name: string): (r: Option<TypeSpec>)
    ensures r.Some? ==> Keyword(r.value) && PrintableHead(r.value) && Parts(r.value) == []
  {
    if name == "null" then Some(Null)
    else if name == "bool" then Some(Primitive(Bool))
    else if name == "int" then Some(Primitive(Int64))
    else if name == "uint" then Some(Primitive(Uint64))
    else if name == "double" then Some(Primitive(Double))
    else if name == "string" then Some(Primitive(String))
    else if name == "bytes" then Some(Primitive(Bytes))
    else if name == "any" || name == "google.protobuf.Any" then Some(WellKnown(Any))
    else if name == "timestamp" || name == "google.protobuf.Timestamp" then Some(WellKnown(Timestamp))
    else if name == "duration" || name == "google.protobuf.Duration" then Some(WellKnown(Duration))
    else if name == "dyn" || name == "google.protobuf.Value" then Some(Dyn)
    else None
  }

  /** The wrapper types, and the two protobuf collection types that read as a list and a map. */
  function ParseWrapper(name: string): (r: Option<TypeSpec>)
    ensures r.Some? ==> Keyword(r.value) && PrintableHead(r.value)
    ensures r.Some? && Parts(r.value) != [] ==> r.value == List(Dyn) || r.value == Map(Primitive(String), Dyn)
  {
    if name == "bool_wrapper" || name == "google.protobuf.BoolValue" then Some(Wrapper(Bool))
    else if name == "int_wrapper" || name == "google.protobuf.Int64Value"
      || name == "google.protobuf.Int32Value" then Some(Wrapper(Int64))
    else if name == "uint_wrapper" || name == "google.protobuf.UInt64Value"
      || name == "google.protobuf.UInt32Value" then Some(Wrapper(Uint64))
    else if name == "double_wrapper" || name == "google.protobuf.DoubleValue"
      || name == "google.protobuf.FloatValue" then Some(Wrapper(Double))
    else if name == "string_wrapper" || name == "google.protobuf.StringValue" then Some(Wrapper(String))
    else if name == "bytes_wrapper" || name == "google.protobuf.BytesValue" then Some(Wrapper(Bytes))
    else if name == "google.protobuf.ListValue" then Some(List(Dyn))
    else if name == "google.protobuf.Struct" then Some(Map(Primitive(String), Dyn))
    else None
  }

  predicate HasDotDot(name: string) {
    exists i :: 0 <= i < |name| - 1 && name[i] == '.' && name[i + 1] == '.'
  }

  function ParamOrDyn(params: seq<TypeSpec>, i: nat): TypeSpec {
    if i < |params| then params[i] else Dyn
  }

  /** The type named `name` with parameters `params`, as the end of ParseTypeSignature decides. */
  function Build(name: string, params: seq<TypeSpec>): Result<TypeSpec> {
    var builtin := ParseBuiltinOrWrapper(name);
    if builtin.Some? then (if params == [] then Ok(builtin.value) else Error)
    else if name == "type" then
      if |params| > 1 then Error else Ok(Type(ParamOrDyn(params, 0)))
    else if name == "list" then
      if |params| > 1 then Error else Ok(List(ParamOrDyn(params, 0)))
    else if name == "map" then
      if params != [] && |params| != 2 then Error
      else Ok(Map(ParamOrDyn(params, 0), ParamOrDyn(params, 1)))
    else if name == "function" then
      Ok(Function(ParamOrDyn(params, 0), if params == [] then [] else params[1..]))
    else if name == "" || HasDotDot(name) then Error
    else Ok(Abstract(name, params))
  }

  /** ParseTypeSignature. Every parameter is a strictly shorter piece, so the recursion ends. */
  function ParseType(sig: string): Result<TypeSpec>
    decreases |sig|, 0
  {
    if sig == "" then Error
    else if sig[0] == '~' then
      var name := sig[1..];
      if name == "" || !Balanced(name) || First(name, '<').Some? || First(name, ',').Some? then Error
      else Ok(Param(Unescape(name)))
    else
      var d :- Dissect(sig);
      var params :- ParseTypes(d.pieces, |sig| - 1);
      Build(Unescape(d.name), params)
  }

  datatype Dissected = Dissected(name: string, pieces: seq<string>)

  /** `name` or `name<piece,...>`; without brackets there are no pieces. */
  function Dissect(sig: string): (r: Result<Dissected>)
    requires sig != ""
    ensures r.Ok? ==> forall p | p in r.value.pieces :: |p| < |sig| - 1
  {
    var less := First(sig, '<');
    if !Balanced(sig) then Error
    else if less.None? then Ok(Dissected(sig, []))
    else if sig[|sig| - 1] != '>' then Error
    else
      var inner := sig[less.value + 1..|sig| - 1];
      JoinInvertsSplit(Start, inner, ',');
      if !Balanced(inner) then Error
      else Ok(Dissected(sig[..less.value], Split(Start, inner, ',')))
  }

  /** The types of `pieces`, each of length below `bound`, in order; the first failure wins. */
  function ParseTypes(pieces: seq<string>, bound: nat): Result<seq<TypeSpec>>
    requires forall p | p in pieces :: |p| < bound
    decreases bound, |pieces|
  {
    if pieces == [] then Ok([])
    else
      var t :- ParseType(pieces[0]);
      var ts :- ParseTypes(pieces[1..], bound);
      Ok([t] + ts)
  }

  function ParseTypeSpec(s: string): Result<TypeSpec> {
    ParseType(Strip(s))
  }

  datatype ParsedOverload = ParsedOverload(functionName: string, isMember: bool, signatureType: TypeSpec)

  datatype OverloadTexts = OverloadTexts(receiver: Option<string>, name: string, args: string)

  /** `receiver.name(args)` or `name(args)`, cut at the first top-level `(` and the last dot before it. */
  function DissectOverload(sig: string): Result<OverloadTexts> {
    if sig == "" || !Balanced(sig) then Error
    else
      var paren := First(sig, '(');
      if paren.None? || sig[|sig| - 1] != ')' then Error
      else
        var prefix := sig[..paren.value];
        var args := sig[paren.value + 1..|sig| - 1];
        if !Balanced(prefix) then Error else Ok(DissectPrefix(prefix, args))
  }

  function DissectPrefix(prefix: string, args: string): OverloadTexts {
    match Last(prefix, '.')
    case None => OverloadTexts(None, prefix, args)
    case Some(dot) => OverloadTexts(Some(prefix[..dot]), prefix[dot + 1..], args)
  }

  /** ParseFunctionSignature after whitespace has been stripped. */
  function ParseStrippedFunction(sig: string): Result<ParsedOverload> {
    var d :- DissectOverload(sig);
    var receiver :- ParseReceiver(d.receiver);
    var name := Unescape(d.name);
    if name == "" then Error
    else
      var args :- ParseArguments(d.args);
      Ok(ParsedOverload(name, d.receiver.Some?, Function(Dyn, receiver + args)))
  }

  function ParseReceiver(text: Option<string>): Result<seq<TypeSpec>> {
    if text.None? then Ok([])
    else
      var t :- ParseType(text.value);
      Ok([t])
  }

  /** The argument list between the parentheses; no text means no arguments. */
  function ParseArguments(text: string): Result<seq<TypeSpec>> {
    if text == "" then Ok([])
    else if !Balanced(text) then Error
    else
      JoinInvertsSplit(Start, text, ',');
      ParseTypes(Split(Start, text, ','), |text| + 1)
  }

  function ParseFunctionSignature(s: string): Result<ParsedOverload> {
    ParseStrippedFunction(Strip(s))
  }
}
