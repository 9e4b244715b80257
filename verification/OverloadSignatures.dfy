/**
 * The signature of an overload whose arguments are checker types (common/signature.cc:222-232 over
 * common/type_spec_resolver.cc:226-324), and which overloads share one.
 */
module OverloadSignatures {
  import opened Results
  import opened Types
  import T = TypeSpecs
  import S = Signature
  import N = SignatureNames
  import R = SignatureRoundTrip

  function BasicSpec(basic: Basic): Result<T.TypeSpec> {
    match basic
    case NullType => Ok(T.Null)
    case DynType => Ok(T.Dyn)
    case BoolType => Ok(T.Primitive(T.Bool))
    case IntType => Ok(T.Primitive(T.Int64))
    case UintType => Ok(T.Primitive(T.Uint64))
    case DoubleType => Ok(T.Primitive(T.Double))
    case StringType => Ok(T.Primitive(T.String))
    case BytesType => Ok(T.Primitive(T.Bytes))
    case AnyType => Ok(T.WellKnown(T.Any))
    case TimestampType => Ok(T.WellKnown(T.Timestamp))
    case DurationType => Ok(T.WellKnown(T.Duration))
    case BoolWrapperType => Ok(T.Wrapper(T.Bool))
    case IntWrapperType => Ok(T.Wrapper(T.Int64))
    case UintWrapperType => Ok(T.Wrapper(T.Uint64))
    case DoubleWrapperType => Ok(T.Wrapper(T.Double))
    case StringWrapperType => Ok(T.Wrapper(T.String))
    case BytesWrapperType => Ok(T.Wrapper(T.Bytes))
    case ErrorType => Ok(T.ErrorType)
    case UnknownType => Error
  }

  /** ConvertTypeToTypeSpec, where the messages are the structs in `pool`; it refuses the others. */
  function ToSpec(pool: set<string>, t: Type): (r: Result<T.TypeSpec>)
    ensures r.Ok? ==> !r.value.Unset?
  {
    match t
    case Simple(basic) => BasicSpec(basic)
    case ListType(element) =>
      var e :- ToSpec(pool, element);
      Ok(T.List(e))
    case MapType(key, value) =>
      var k :- ToSpec(pool, key);
      var v :- ToSpec(pool, value);
      Ok(T.Map(k, v))
    case FunctionType(result, args) =>
      var res :- ToSpec(pool, result);
      var specs :- ToSpecs(pool, args);
      Ok(T.Function(res, specs))
    case TypeParamType(name) => Ok(T.Param(name))
    case StructType(name) => if name in pool then Ok(T.Message(name)) else Error
    case OpaqueType(name, parameters) =>
      var specs :- ToSpecs(pool, parameters);
      Ok(T.Abstract(name, specs))
    case TypeType(parameter) =>
      if parameter.None? then Ok(T.Type(T.Dyn))
      else
        var inner :- ToSpec(pool, parameter.value);
        Ok(T.Type(inner))
    case EnumType(name) => Ok(T.Abstract(name, []))
  }

  function ToSpecs(pool: set<string>, ts: seq<Type>): (r: Result<seq<T.TypeSpec>>)
    ensures r.Ok? ==> |r.value| == |ts|
  {
    if ts == [] then Ok([])
    else
      var first :- ToSpec(pool, ts[0]);
      var rest :- ToSpecs(pool, ts[1..]);
      Ok([first] + rest)
  }

  /** The specification of a type without parts is what its name reads as. */
  lemma BasicNamesRead(basic: Basic)
    requires basic !in {NullType, UnknownType, ErrorType}
    ensures BasicSpec(basic).Ok? && S.ParseTypeSpec(BasicName(basic)) == BasicSpec(basic)
  {
    hide S.ParseTypeSpec;
    hide N.ProtobufReads;
    hide N.KeywordReads;
    BasicNamesAreListed(basic);
    N.NamesRead(BasicName(basic), BasicSpec(basic).value);
  }

  lemma BasicNamesAreListed(basic: Basic)
    requires basic !in {NullType, UnknownType, ErrorType}
    ensures BasicSpec(basic).Ok? && N.NameReads(BasicName(basic), BasicSpec(basic).value)
  {
    hide N.NameReads;
    if IsWrapper(basic) {
      WrapperNamesAreListed(basic);
    } else {
      OtherNamesAreListed(basic);
    }
  }

  lemma WrapperNamesAreListed(basic: Basic)
    requires IsWrapper(basic)
    ensures BasicSpec(basic).Ok? && N.NameReads(BasicName(basic), BasicSpec(basic).value)
  {
    hide N.KeywordReads;
    hide N.GenericReads;
    hide N.ProtobufOtherReads;
  }

  lemma OtherNamesAreListed(basic: Basic)
    requires basic !in {NullType, UnknownType, ErrorType} && !IsWrapper(basic)
    ensures BasicSpec(basic).Ok? && N.NameReads(BasicName(basic), BasicSpec(basic).value)
  {
    hide N.GenericReads;
    hide N.WrapperReads;
    hide N.ProtobufIntegerReads;
    hide N.ProtobufFloatReads;
    hide N.ProtobufScalarReads;
    hide N.ProtobufContainerReads;
  }

  /** MakeOverloadSignature over types. */
  function MakeOverloadSignature(pool: set<string>, name: string, args: seq<Type>, isMember: bool): Result<string> {
    var specs :- ToSpecs(pool, args);
    S.MakeOverloadSignature(name, specs, isMember)
  }

  /**
   * The type as its signature tells it: enums and messages read as opaque types of that name, `type` as `type(dyn)`.
   */
  function Blurred(t: Type): Type {
    match t
    case ListType(element) => ListType(Blurred(element))
    case MapType(key, value) => MapType(Blurred(key), Blurred(value))
    case FunctionType(result, args) => FunctionType(Blurred(result), AllBlurred(args))
    case StructType(name) => OpaqueType(name, [])
    case EnumType(name) => OpaqueType(name, [])
    case OpaqueType(name, parameters) => OpaqueType(name, AllBlurred(parameters))
    case TypeType(parameter) => TypeType(Some(if parameter.None? then Simple(DynType) else Blurred(parameter.value)))
    case _ => t
  }

  function AllBlurred(ts: seq<Type>): (bs: seq<Type>)
    ensures |bs| == |ts|
  {
    if ts == [] then [] else [Blurred(ts[0])] + AllBlurred(ts[1..])
  }

  // ---------- which types have a specification ----------

  /** No part of the type is unknown or a struct that is no message. */
  predicate Convertible(pool: set<string>, t: Type) {
    && t != Simple(UnknownType)
    && (t.StructType? ==> t.structName in pool)
    && forall i | 0 <= i < |GetParameters(t)| :: Convertible(pool, GetParameters(t)[i])
  }

  predicate AllConvertible(pool: set<string>, ts: seq<Type>) {
    forall i | 0 <= i < |ts| :: Convertible(pool, ts[i])
  }

  lemma {:induction false} SpecsExist(pool: set<string>, t: Type)
    ensures ToSpec(pool, t).Ok? <==> Convertible(pool, t)
    decreases t, 1, 0
  {
    hide ToSpec;
    hide GetParameters;
    SpecNeedsParts(pool, t);
    AllSpecsExist(pool, GetParameters(t), t);
  }

  lemma {:induction false} AllSpecsExist(pool: set<string>, ts: seq<Type>, bound: Type)
    requires forall i | 0 <= i < |ts| :: ts[i] < bound
    ensures ToSpecs(pool, ts).Ok? <==> AllConvertible(pool, ts)
    decreases bound, 0, |ts|
  {
    hide ToSpec;
    hide Convertible;
    if ts != [] {
      SpecsExist(pool, ts[0]);
      AllSpecsExist(pool, ts[1..], bound);
      assert forall i | 0 < i < |ts| :: ts[i] == ts[1..][i - 1];
    }
  }

  lemma SpecNeedsParts(pool: set<string>, t: Type)
    ensures ToSpec(pool, t).Ok? <==>
      t != Simple(UnknownType) && (t.StructType? ==> t.structName in pool) && ToSpecs(pool, GetParameters(t)).Ok?
  {
    NoSpecs(pool);
    match t {
      case ListType(element) => SpecsOf(pool, element, []);
      case MapType(key, value) => SpecsOf(pool, key, [value]); SpecsOf(pool, value, []);
      case FunctionType(result, args) => SpecsOf(pool, result, args);
      case TypeType(parameter) => if parameter.Some? { SpecsOf(pool, parameter.value, []); }
      case _ =>
    }
  }

  /** A specification's parts are those of the type, in order. */
  lemma SpecKeepsParts(pool: set<string>, t: Type)
    requires ToSpec(pool, t).Ok? && (t.TypeType? ==> t.parameter.Some?)
    ensures ToSpecs(pool, GetParameters(t)) == Ok(T.Parts(ToSpec(pool, t).value))
  {
    hide ToSpecs;
    NoSpecs(pool);
    match t {
      case ListType(element) => OneSpecOf(pool, element);
      case MapType(key, value) =>
        OneSpecOf(pool, value);
        SpecsOfCons(pool, key, [value]);
        var k, v := ToSpec(pool, key).value, ToSpec(pool, value).value;
        assert [key] + [value] == [key, value] && [k] + [v] == [k, v];
      case FunctionType(result, args) => SpecsOfCons(pool, result, args);
      case TypeType(parameter) => OneSpecOf(pool, parameter.value);
      case _ =>
    }
  }

  lemma OneSpecOf(pool: set<string>, t: Type)
    requires ToSpec(pool, t).Ok?
    ensures ToSpecs(pool, [t]) == Ok([ToSpec(pool, t).value])
  {
    hide ToSpec;
    NoSpecs(pool);
    SpecsOfCons(pool, t, []);
    var spec := ToSpec(pool, t).value;
    assert [t] + [] == [t] && [spec] + [] == [spec];
  }

  lemma SpecsOfCons(pool: set<string>, t: Type, ts: seq<Type>)
    requires ToSpec(pool, t).Ok? && ToSpecs(pool, ts).Ok?
    ensures ToSpecs(pool, [t] + ts) == Ok([ToSpec(pool, t).value] + ToSpecs(pool, ts).value)
  {
    hide ToSpec;
    assert ([t] + ts)[1..] == ts;
  }

  lemma NoSpecs(pool: set<string>)
    ensures ToSpecs(pool, []) == Ok([])
  {
  }

  lemma SpecsOf(pool: set<string>, t: Type, ts: seq<Type>)
    ensures ToSpecs(pool, [t] + ts).Ok? <==> ToSpec(pool, t).Ok? && ToSpecs(pool, ts).Ok?
  {
    hide ToSpec;
    assert ([t] + ts)[1..] == ts;
  }

  // ---------- what a specification keeps of a type ----------

  lemma {:induction false} SpecOfBlurred(pool: set<string>, t: Type)
    requires ToSpec(pool, t).Ok?
    ensures ToSpec(pool, Blurred(t)) == Ok(R.Normal(ToSpec(pool, t).value))
  {
    match t {
      case ListType(element) => SpecOfBlurred(pool, element);
      case MapType(key, value) => SpecOfBlurred(pool, key); SpecOfBlurred(pool, value);
      case FunctionType(result, args) => SpecOfBlurred(pool, result); SpecsOfBlurred(pool, args);
      case OpaqueType(name, parameters) => SpecsOfBlurred(pool, parameters);
      case TypeType(parameter) => if parameter.Some? { SpecOfBlurred(pool, parameter.value); }
      case _ =>
    }
  }

  lemma {:induction false} SpecsOfBlurred(pool: set<string>, ts: seq<Type>)
    requires ToSpecs(pool, ts).Ok?
    ensures ToSpecs(pool, AllBlurred(ts)) == Ok(R.Normals(ToSpecs(pool, ts).value))
  {
    if ts != [] {
      SpecOfBlurred(pool, ts[0]);
      SpecsOfBlurred(pool, ts[1..]);
      assert AllBlurred(ts)[1..] == AllBlurred(ts[1..]);
      var specs := ToSpecs(pool, ts).value;
      assert specs[1..] == ToSpecs(pool, ts[1..]).value;
    }
  }

  lemma {:induction false} BlurredSpecsDiffer(pool: set<string>, a: Type, b: Type)
    requires ToSpec(pool, a).Ok? && ToSpec(pool, Blurred(a)) == ToSpec(pool, Blurred(b))
    ensures Blurred(a) == Blurred(b)
    decreases a, 1
  {
    hide ToSpecs;
    hide AllBlurred;
    hide R.Normals;
    SpecOfBlurred(pool, a);
    match a {
      case ListType(element) => BlurredSpecsDiffer(pool, element, b.element);
      case MapType(key, value) => BlurredSpecsDiffer(pool, key, b.key); BlurredSpecsDiffer(pool, value, b.value);
      case FunctionType(result, args) =>
        BlurredSpecsDiffer(pool, result, b.result);
        AllBlurredSpecsDiffer(pool, args, b.args);
      case OpaqueType(name, parameters) => BlurredNominal(pool, a, b);
      case StructType(_) => BlurredNominal(pool, a, b);
      case EnumType(_) => BlurredNominal(pool, a, b);
      case TypeType(parameter) => BlurredTypeType(pool, a, b);
      case _ =>
    }
  }

  /** The types that read as opaque ones. */
  predicate Nominal(t: Type) {
    t.OpaqueType? || t.StructType? || t.EnumType?
  }

  lemma BlurredNominal(pool: set<string>, a: Type, b: Type)
    requires Nominal(a) && ToSpec(pool, a).Ok? && ToSpec(pool, Blurred(a)) == ToSpec(pool, Blurred(b))
    ensures Blurred(a) == Blurred(b)
    decreases a, 0
  {
    SpecOfBlurred(pool, a);
    assert Nominal(b);
    var as_ := if a.OpaqueType? then a.parameters else [];
    var bs := if b.OpaqueType? then b.parameters else [];
    assert ToSpecs(pool, as_).Ok? && ToSpecs(pool, AllBlurred(as_)) == ToSpecs(pool, AllBlurred(bs));
    if a.OpaqueType? {
      AllBlurredSpecsDiffer(pool, a.parameters, bs);
    } else {
      assert |AllBlurred(bs)| == 0;
    }
  }

  lemma BlurredTypeType(pool: set<string>, a: Type, b: Type)
    requires a.TypeType? && ToSpec(pool, a).Ok? && ToSpec(pool, Blurred(a)) == ToSpec(pool, Blurred(b))
    ensures Blurred(a) == Blurred(b)
    decreases a, 0
  {
    hide ToSpecs;
    hide AllBlurred;
    hide R.Normals;
    SpecOfBlurred(pool, a);
    var other := if b.parameter.None? then Simple(DynType) else b.parameter.value;
    if a.parameter.Some? {
      BlurredSpecsDiffer(pool, a.parameter.value, other);
    } else {
      BlurredDyn(pool, other);
    }
  }

  lemma AllBlurredSpecsDiffer(pool: set<string>, as_: seq<Type>, bs: seq<Type>)
    requires ToSpecs(pool, as_).Ok? && ToSpecs(pool, AllBlurred(as_)) == ToSpecs(pool, AllBlurred(bs))
    ensures AllBlurred(as_) == AllBlurred(bs)
    decreases as_
  {
    hide ToSpec;
    hide Blurred;
    SpecsOfBlurred(pool, as_);
    if as_ != [] {
      SpecsCons(pool, as_);
      SpecsCons(pool, AllBlurred(as_));
      SpecsCons(pool, AllBlurred(bs));
      assert AllBlurred(as_)[1..] == AllBlurred(as_[1..]) && AllBlurred(bs)[1..] == AllBlurred(bs[1..]);
      BlurredSpecsDiffer(pool, as_[0], bs[0]);
      AllBlurredSpecsDiffer(pool, as_[1..], bs[1..]);
    }
  }

  lemma SpecsCons(pool: set<string>, ts: seq<Type>)
    requires ToSpecs(pool, ts).Ok? && ts != []
    ensures ToSpec(pool, ts[0]) == Ok(ToSpecs(pool, ts).value[0])
    ensures ToSpecs(pool, ts[1..]) == Ok(ToSpecs(pool, ts).value[1..])
  {
    hide ToSpec;
    var specs := [ToSpec(pool, ts[0]).value] + ToSpecs(pool, ts[1..]).value;
    assert specs[1..] == ToSpecs(pool, ts[1..]).value;
  }

  lemma BlurredDyn(pool: set<string>, t: Type)
    requires ToSpec(pool, Blurred(t)) == Ok(T.Dyn)
    ensures Blurred(t) == Simple(DynType)
  {
  }

  // ---------- signatures ----------

  /** A specification and its normal form print alike. */
  lemma {:induction false} NormalPrintsAlike(t: T.TypeSpec)
    ensures S.Desc(R.Normal(t)) == S.Desc(t)
    decreases T.Size(t)
  {
    hide R.Normal;
    hide T.Head;
    hide T.Parts;
    hide R.Normals;
    NormalHead(t);
    PartsOfNormal(t);
    T.PartsAreSmaller(t);
    NormalsPrintAlike(T.Parts(t));
  }

  lemma NormalsCons(first: T.TypeSpec, rest: seq<T.TypeSpec>)
    ensures R.Normals([first] + rest) == [R.Normal(first)] + R.Normals(rest)
  {
    hide R.Normal;
    assert ([first] + rest)[1..] == rest;
  }

  lemma PartsOfNormal(t: T.TypeSpec)
    ensures T.Parts(R.Normal(t)) == R.Normals(T.Parts(t))
  {
    hide R.Normals;
    NoNormals();
    match t {
      case List(e) => OneNormal(T.OrDyn(e));
      case Type(i) => OneNormal(i);
      case Map(k, v) => TwoNormals(T.OrDyn(k), T.OrDyn(v));
      case Function(r, args) => NormalsCons(T.OrDyn(r), args);
      case _ =>
    }
  }

  lemma NoNormals()
    ensures R.Normals([]) == []
  {
  }

  lemma OneNormal(t: T.TypeSpec)
    ensures R.Normals([t]) == [R.Normal(t)]
  {
    hide R.Normal;
    NormalsCons(t, []);
    assert [t] + [] == [t];
  }

  lemma TwoNormals(t: T.TypeSpec, u: T.TypeSpec)
    ensures R.Normals([t, u]) == [R.Normal(t), R.Normal(u)]
  {
    hide R.Normal;
    hide R.Normals;
    NormalsCons(t, [u]);
    OneNormal(u);
    assert [t] + [u] == [t, u];
  }

  lemma NormalHead(t: T.TypeSpec)
    ensures R.Normal(t).Param? <==> t.Param?
    ensures t.Param? ==> R.Normal(t) == t
    ensures T.Head(R.Normal(t)) == T.Head(t)
  {
    hide T.PrimitiveName;
    hide T.WrapperName;
    hide T.WellKnownName;
  }

  lemma {:induction false} NormalsPrintAlike(ts: seq<T.TypeSpec>)
    ensures S.Descs(R.Normals(ts)) == S.Descs(ts)
    decreases T.Sizes(ts)
  {
    if ts != [] {
      NormalPrintsAlike(ts[0]);
      NormalsPrintAlike(ts[1..]);
      assert R.Normals(ts)[1..] == R.Normals(ts[1..]);
    }
  }

  /** What a signature tells of argument types that have specifications. */
  function Told(pool: set<string>, args: seq<Type>, isMember: bool): (Option<T.TypeSpec>, seq<T.TypeSpec>)
    requires ToSpecs(pool, args).Ok? && (isMember ==> args != [])
  {
    R.ArgumentOutlines(ToSpecs(pool, args).value, isMember)
  }

  /**
   * Two overloads share a signature exactly when they have one name, are both members or both not, and the signature
   * tells the same of their argument types: names and parts, and nothing about the kind of type that has a name.
   */
  lemma SignaturesCollide(
      pool: set<string>, name: string, args: seq<Type>, isMember: bool,
      name': string, args': seq<Type>, isMember': bool)
    requires MakeOverloadSignature(pool, name, args, isMember).Ok?
    requires MakeOverloadSignature(pool, name', args', isMember').Ok?
    ensures
      MakeOverloadSignature(pool, name, args, isMember) == MakeOverloadSignature(pool, name', args', isMember')
      <==> name == name' && isMember == isMember' && Told(pool, args, isMember) == Told(pool, args', isMember')
  {
    var specs, specs' := ToSpecs(pool, args).value, ToSpecs(pool, args').value;
    R.SignaturesIdentifyOverloads(name, specs, isMember, name', specs', isMember');
  }

  lemma OneSpec(pool: set<string>, t: Type, spec: T.TypeSpec)
    requires ToSpec(pool, t) == Ok(spec)
    ensures ToSpecs(pool, [t]) == Ok([spec]) && AllBlurred([t]) == [Blurred(t)]
  {
    assert [t][1..] == [] && [spec] + [] == [spec];
    assert ToSpecs(pool, []) == Ok([]) && AllBlurred([]) == [];
  }

  lemma OnePrints(t: T.TypeSpec)
    ensures S.Descs([t]) == [S.Desc(t)]
    ensures T.AllPrintable([t]) <==> T.Printable(t)
  {
    assert [t][1..] == [];
  }

  lemma MessageNamedInt(pool: set<string>)
    requires "int" in pool
    ensures ToSpec(pool, StructType("int")) == Ok(T.Message("int"))
    ensures ToSpec(pool, Simple(IntType)) == Ok(T.Primitive(T.Int64))
    ensures Blurred(StructType("int")) != Blurred(Simple(IntType))
    ensures T.Printable(T.Message("int")) && T.Printable(T.Primitive(T.Int64))
    ensures S.Desc(T.Message("int")) == S.Desc(T.Primitive(T.Int64))
  {
  }

  /** A message type may take a name that the signature language uses: it then prints as the type it is named after. */
  lemma NamedAfterInt(pool: set<string>, name: string, isMember: bool)
    requires "int" in pool
    ensures MakeOverloadSignature(pool, name, [StructType("int")], isMember)
         == MakeOverloadSignature(pool, name, [Simple(IntType)], isMember)
    ensures MakeOverloadSignature(pool, name, [StructType("int")], isMember).Ok?
    ensures AllBlurred([StructType("int")]) != AllBlurred([Simple(IntType)])
  {
    hide AllBlurred;
    hide Blurred;
    hide ToSpec;
    hide ToSpecs;
    hide S.OverloadDesc;
    hide S.Desc;
    hide T.Printable;
    MessageNamedInt(pool);
    OneSpec(pool, StructType("int"), T.Message("int"));
    OneSpec(pool, Simple(IntType), T.Primitive(T.Int64));
    OnePrints(T.Message("int"));
    OnePrints(T.Primitive(T.Int64));
    DescsDecide(name, [T.Message("int")], [T.Primitive(T.Int64)], isMember);
  }

  /** With readable names that is: the argument types are the same once blurred. */
  lemma ReadableSignaturesCollide(
      pool: set<string>, name: string, args: seq<Type>, isMember: bool,
      name': string, args': seq<Type>, isMember': bool)
    requires MakeOverloadSignature(pool, name, args, isMember).Ok?
    requires MakeOverloadSignature(pool, name', args', isMember').Ok?
    requires R.ReadableOverload(name, ToSpecs(pool, args).value)
    requires R.ReadableOverload(name', ToSpecs(pool, args').value)
    ensures
      MakeOverloadSignature(pool, name, args, isMember) == MakeOverloadSignature(pool, name', args', isMember')
      <==> name == name' && isMember == isMember' && AllBlurred(args) == AllBlurred(args')
  {
    var specs, specs' := ToSpecs(pool, args).value, ToSpecs(pool, args').value;
    SpecsOfBlurred(pool, args);
    SpecsOfBlurred(pool, args');
    if MakeOverloadSignature(pool, name, args, isMember) == MakeOverloadSignature(pool, name', args', isMember') {
      R.SignaturesIdentifyOverloads(name, specs, isMember, name', specs', isMember');
      AllBlurredSpecsDiffer(pool, args, args');
    }
    if name == name' && isMember == isMember' && AllBlurred(args) == AllBlurred(args') {
      NormalsPrintAlike(specs);
      NormalsPrintAlike(specs');
      DescsDecide(name, specs, specs', isMember);
    }
  }

  /** An overload's text depends on its argument types only through theirs. */
  lemma DescsDecide(name: string, specs: seq<T.TypeSpec>, specs': seq<T.TypeSpec>, isMember: bool)
    requires S.Descs(specs) == S.Descs(specs') && (isMember ==> specs != [])
    ensures isMember ==> specs' != []
    ensures S.OverloadDesc(name, specs, isMember) == S.OverloadDesc(name, specs', isMember)
  {
    hide S.Desc;
    if specs != [] {
      assert S.Descs(specs)[0] == S.Desc(specs[0]) && S.Descs(specs)[1..] == S.Descs(specs[1..]);
      assert S.Descs(specs')[0] == S.Desc(specs'[0]) && S.Descs(specs')[1..] == S.Descs(specs'[1..]);
    }
  }
}
