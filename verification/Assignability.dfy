/** common/decl.cc: which types can be assigned to which, and what kind of order that is. */
module Assignability {
  import opened Results
  import opened Types

  const DYN := Simple(DynType)
  const NULL := Simple(NullType)

  /** The type that a wrapper wraps. */
  function Unwrapped(t: Type): Option<Type> {
    if !t.Simple? then None
    else
      match t.basic
      case BoolWrapperType => Some(Simple(BoolType))
      case IntWrapperType => Some(Simple(IntType))
      case UintWrapperType => Some(Simple(UintType))
      case DoubleWrapperType => Some(Simple(DoubleType))
      case BytesWrapperType => Some(Simple(BytesType))
      case StringWrapperType => Some(Simple(StringType))
      case _ => None
  }

  /** The two types differ at most in their parameters, and have equally many of them. */
  predicate SameConstructor(a: Type, b: Type) {
    Kind(a) == Kind(b) && Name(a) == Name(b) && |GetParameters(a)| == |GetParameters(b)|
  }

  /** The rules of assignability: `to` accepts values of type `from`. */
  predicate Assignable(to: Type, from: Type)
    decreases to
  {
    || to == from
    || to == DYN
    || (Unwrapped(to).Some? && (from == NULL || from == Unwrapped(to).value))
    || (SameConstructor(to, from)
        && forall i | 0 <= i < |GetParameters(to)| :: Assignable(GetParameters(to)[i], GetParameters(from)[i]))
  }

  /** Wrappers count as one higher than what they wrap. */
  ghost function Height(t: Type): (h: nat)
    ensures h >= 1 && (Unwrapped(t).Some? ==> h == 2)
    ensures Unwrapped(t).None? ==> forall i | 0 <= i < |GetParameters(t)| :: Height(GetParameters(t)[i]) < h
    decreases t, 1, 0
  {
    if Unwrapped(t).Some? then 2 else 1 + HeightFrom(t, 0)
  }

  ghost function HeightFrom(t: Type, i: nat): (h: nat)
    requires i <= |GetParameters(t)|
    ensures forall j | i <= j < |GetParameters(t)| :: Height(GetParameters(t)[j]) <= h
    decreases t, 0, |GetParameters(t)| - i
  {
    if i == |GetParameters(t)| then 0
    else
      var rest := HeightFrom(t, i + 1);
      var first := Height(GetParameters(t)[i]);
      if first > rest then first else rest
  }

  /** What a type without parameters accepts besides itself is settled by what it is. */
  lemma SimpleAccepts(to: Type, from: Type)
    requires to.Simple? && to != DYN
    ensures Assignable(to, from)
      <==> to == from || (Unwrapped(to).Some? && (from == NULL || from == Unwrapped(to).value))
  {
    hide BasicName;
  }

  /** TypeIsAssignable: the recursion over wrappers and parameters decides the rules. */
  method TypeIsAssignable(to: Type, from: Type) returns (assignable: bool)
    ensures assignable == Assignable(to, from)
    decreases Height(to), 1
  {
    hide BasicName;
    if to == from {
      return true;
    }
    if Kind(to) == KBasic(DynType) {
      return true;
    }
    var wrapped := Unwrapped(to);
    if wrapped.Some? {
      SimpleAccepts(to, from);
      SimpleAccepts(NULL, from);
      SimpleAccepts(wrapped.value, from);
      hide Assignable;
      assignable := TypeIsAssignable(NULL, from);
      if !assignable {
        assignable := TypeIsAssignable(wrapped.value, from);
      }
      return;
    }
    if Kind(to) != Kind(from) || Name(to) != Name(from) {
      return false;
    }
    if |GetParameters(to)| != |GetParameters(from)| {
      return false;
    }
    assignable := ParametersAreAssignable(to, from);
  }

  /** TypeIsAssignable's loop over the parameters. */
  method ParametersAreAssignable(to: Type, from: Type) returns (assignable: bool)
    requires Unwrapped(to).None? && |GetParameters(to)| == |GetParameters(from)|
    ensures assignable == forall i | 0 <= i < |GetParameters(to)| ::
      Assignable(GetParameters(to)[i], GetParameters(from)[i])
    decreases Height(to), 0
  {
    hide Assignable;
    var toParams, fromParams := GetParameters(to), GetParameters(from);
    for i := 0 to |toParams|
      invariant forall k | 0 <= k < i :: Assignable(toParams[k], fromParams[k])
    {
      var fits := TypeIsAssignable(toParams[i], fromParams[i]);
      if !fits {
        return false;
      }
    }
    return true;
  }

  // ---------- a partial order with `dyn` on top ----------

  lemma {:induction false} AssignableIsTransitive(a: Type, b: Type, c: Type)
    requires Assignable(a, b) && Assignable(b, c)
    ensures Assignable(a, c)
    decreases a
  {
    hide BasicName;
    if SameConstructor(a, b) && SameConstructor(b, c) && a != b && b != c && a != DYN {
      forall i | 0 <= i < |GetParameters(a)|
        ensures Assignable(GetParameters(a)[i], GetParameters(c)[i])
      {
        AssignableIsTransitive(GetParameters(a)[i], GetParameters(b)[i], GetParameters(c)[i]);
      }
    }
  }

  lemma {:induction false} AssignableIsAntisymmetric(a: Type, b: Type)
    requires Assignable(a, b) && Assignable(b, a)
    ensures a == b
    decreases a
  {
    if a != b {
      assert SameConstructor(a, b);
      forall i | 0 <= i < |GetParameters(a)|
        ensures GetParameters(a)[i] == GetParameters(b)[i]
      {
        AssignableIsAntisymmetric(GetParameters(a)[i], GetParameters(b)[i]);
      }
      TypeIsItsParts(a, b);
    }
  }

  /** The six wrappers with what each is a wrapper of. */
  predicate Wraps(wrapper: Type, wrapped: Type) {
    || (wrapper == Simple(BoolWrapperType) && wrapped == Simple(BoolType))
    || (wrapper == Simple(IntWrapperType) && wrapped == Simple(IntType))
    || (wrapper == Simple(UintWrapperType) && wrapped == Simple(UintType))
    || (wrapper == Simple(DoubleWrapperType) && wrapped == Simple(DoubleType))
    || (wrapper == Simple(StringWrapperType) && wrapped == Simple(StringType))
    || (wrapper == Simple(BytesWrapperType) && wrapped == Simple(BytesType))
  }

  /** Closed under the rules that the design names: itself, `dyn`, a wrapper's two types, and parameter by parameter. */
  ghost predicate FollowsRules(accepts: (Type, Type) -> bool) {
    && (forall t :: accepts(t, t) && accepts(Simple(DynType), t))
    && (forall t, u | Wraps(t, u) :: accepts(t, Simple(NullType)) && accepts(t, u))
    && (forall a, b | SameConstructor(a, b) && PairwiseAccepts(accepts, a, b) :: accepts(a, b))
  }

  ghost predicate PairwiseAccepts(accepts: (Type, Type) -> bool, a: Type, b: Type)
    requires SameConstructor(a, b)
  {
    forall i | 0 <= i < |GetParameters(a)| :: accepts(GetParameters(a)[i], GetParameters(b)[i])
  }

  lemma WrapsIsUnwrapped(t: Type)
    ensures forall u :: Wraps(t, u) <==> Unwrapped(t) == Some(u)
  {
  }

  /** Assignability is the least relation that follows the rules: nothing is assignable that the rules do not force. */
  lemma {:induction false} AssignableIsLeast(accepts: (Type, Type) -> bool, a: Type, b: Type)
    requires FollowsRules(accepts) && Assignable(a, b)
    ensures accepts(a, b)
    decreases a
  {
    hide BasicName;
    WrapsIsUnwrapped(a);
    if a != b && a != DYN && Unwrapped(a).None? {
      forall i | 0 <= i < |GetParameters(a)|
        ensures accepts(GetParameters(a)[i], GetParameters(b)[i])
      {
        AssignableIsLeast(accepts, GetParameters(a)[i], GetParameters(b)[i]);
      }
      assert PairwiseAccepts(accepts, a, b);
    }
  }

  lemma AssignableFollowsRules()
    ensures FollowsRules((a, b) => Assignable(a, b))
  {
    hide BasicName;
    var accepts := (a, b) => Assignable(a, b);
    forall t, u | Wraps(t, u) ensures accepts(t, Simple(NullType)) && accepts(t, u) {
      WrapsIsUnwrapped(t);
    }
    forall a, b | SameConstructor(a, b) && PairwiseAccepts(accepts, a, b)
      ensures Assignable(a, b)
    {
      assert forall i | 0 <= i < |GetParameters(a)| :: accepts(GetParameters(a)[i], GetParameters(b)[i]);
    }
  }

  // ---------- what each type accepts ----------

  /** A wrapper accepts itself, null and its own primitive type, and nothing else. */
  lemma WrappersAccept(from: Type)
    ensures Assignable(Simple(BoolWrapperType), from)
      <==> from in {Simple(BoolWrapperType), Simple(NullType), Simple(BoolType)}
    ensures Assignable(Simple(IntWrapperType), from)
      <==> from in {Simple(IntWrapperType), Simple(NullType), Simple(IntType)}
    ensures Assignable(Simple(UintWrapperType), from)
      <==> from in {Simple(UintWrapperType), Simple(NullType), Simple(UintType)}
    ensures Assignable(Simple(DoubleWrapperType), from)
      <==> from in {Simple(DoubleWrapperType), Simple(NullType), Simple(DoubleType)}
    ensures Assignable(Simple(StringWrapperType), from)
      <==> from in {Simple(StringWrapperType), Simple(NullType), Simple(StringType)}
    ensures Assignable(Simple(BytesWrapperType), from)
      <==> from in {Simple(BytesWrapperType), Simple(NullType), Simple(BytesType)}
  {
    hide Assignable;
    SimpleAccepts(Simple(BoolWrapperType), from);
    SimpleAccepts(Simple(IntWrapperType), from);
    SimpleAccepts(Simple(UintWrapperType), from);
    SimpleAccepts(Simple(DoubleWrapperType), from);
    SimpleAccepts(Simple(StringWrapperType), from);
    SimpleAccepts(Simple(BytesWrapperType), from);
  }

  /** `dyn` accepts everything, and every other type without parts that is no wrapper only itself. */
  lemma BasicsAccept(basic: Basic, from: Type)
    requires !IsWrapper(basic)
    ensures Assignable(Simple(basic), from) <==> basic == DynType || from == Simple(basic)
  {
    hide BasicName;
    if basic != DynType {
      SimpleAccepts(Simple(basic), from);
    }
  }

  predicate PairwiseAssignable(a: Type, b: Type)
    requires |GetParameters(a)| == |GetParameters(b)|
  {
    forall i | 0 <= i < |GetParameters(a)| :: Assignable(GetParameters(a)[i], GetParameters(b)[i])
  }

  lemma {:induction false} SelfAssignable(t: Type)
    ensures Assignable(t, t) && PairwiseAssignable(t, t)
  {
    hide BasicName;
  }

  /** Types with parts are compared part by part. */
  lemma AcceptsByParts(to: Type, from: Type)
    requires !to.Simple?
    ensures Assignable(to, from) <==> SameConstructor(to, from) && PairwiseAssignable(to, from)
  {
    hide Name;
    SelfAssignable(to);
  }

  lemma ListAccepts(element: Type, from: Type)
    ensures Assignable(ListType(element), from) <==> from.ListType? && Assignable(element, from.element)
  {
    hide Assignable;
    AcceptsByParts(ListType(element), from);
    if from.ListType? {
      assert GetParameters(from)[0] == from.element && GetParameters(ListType(element))[0] == element;
    }
  }

  lemma MapAccepts(key: Type, value: Type, from: Type)
    ensures Assignable(MapType(key, value), from)
      <==> from.MapType? && Assignable(key, from.key) && Assignable(value, from.value)
  {
    hide Assignable;
    AcceptsByParts(MapType(key, value), from);
    if from.MapType? {
      var ps, qs := GetParameters(MapType(key, value)), GetParameters(from);
      assert ps[0] == key && ps[1] == value && qs[0] == from.key && qs[1] == from.value;
    }
  }

  predicate AllAssignable(to: seq<Type>, from: seq<Type>) {
    |to| == |from| && forall i | 0 <= i < |to| :: Assignable(to[i], from[i])
  }

  lemma FunctionAccepts(result: Type, args: seq<Type>, from: Type)
    ensures Assignable(FunctionType(result, args), from)
      <==> from.FunctionType? && Assignable(result, from.result) && AllAssignable(args, from.args)
  {
    hide Assignable;
    hide PairwiseAssignable;
    AcceptsByParts(FunctionType(result, args), from);
    if from.FunctionType? && |args| == |from.args| {
      FunctionPartsAccept(result, args, from);
    }
  }

  lemma FunctionPartsAccept(result: Type, args: seq<Type>, from: Type)
    requires from.FunctionType? && |args| == |from.args|
    ensures |GetParameters(FunctionType(result, args))| == |GetParameters(from)|
    ensures PairwiseAssignable(FunctionType(result, args), from)
      <==> Assignable(result, from.result) && AllAssignable(args, from.args)
  {
    hide Assignable;
    var ps, qs := GetParameters(FunctionType(result, args)), GetParameters(from);
    assert ps == [result] + args && qs == [from.result] + from.args;
    if PairwiseAssignable(FunctionType(result, args), from) {
      assert Assignable(ps[0], qs[0]);
      forall i | 0 <= i < |args| ensures Assignable(args[i], from.args[i]) {
        assert Assignable(ps[i + 1], qs[i + 1]);
      }
    }
    if Assignable(result, from.result) && AllAssignable(args, from.args) {
      forall i | 0 <= i < |ps| ensures Assignable(ps[i], qs[i]) {
        assert i > 0 ==> Assignable(args[i - 1], from.args[i - 1]);
      }
    }
  }

  lemma OpaqueAccepts(name: string, parameters: seq<Type>, from: Type)
    ensures Assignable(OpaqueType(name, parameters), from)
      <==> from.OpaqueType? && name == from.opaqueName && AllAssignable(parameters, from.parameters)
  {
    hide Assignable;
    AcceptsByParts(OpaqueType(name, parameters), from);
  }

  lemma TypeAccepts(parameter: Option<Type>, from: Type)
    ensures Assignable(TypeType(parameter), from)
      <==>
      && from.TypeType? && (parameter.Some? <==> from.parameter.Some?)
      && (parameter.Some? ==> Assignable(parameter.value, from.parameter.value))
  {
    hide Assignable;
    AcceptsByParts(TypeType(parameter), from);
    if from.TypeType? && parameter.Some? && from.parameter.Some? {
      assert GetParameters(TypeType(parameter))[0] == parameter.value;
      assert GetParameters(from)[0] == from.parameter.value;
    }
  }

  /** Structs, enums and type parameters accept only their own kind under their own name. */
  lemma NamesAccept(to: Type, from: Type)
    requires to.StructType? || to.EnumType? || to.TypeParamType?
    ensures Assignable(to, from) <==> to == from
  {
    hide Assignable;
    AcceptsByParts(to, from);
  }

  // ---------- types with a common value type ----------

  predicate TakesNull(t: Type) {
    t == DYN || t == NULL || Unwrapped(t).Some?
  }

  /** One is assignable to the other, both take null, or they differ only in parameters that meet in turn. */
  predicate Meet(a: Type, b: Type)
    decreases a
  {
    || Assignable(a, b)
    || Assignable(b, a)
    || (TakesNull(a) && TakesNull(b))
    || (SameConstructor(a, b)
        && forall i | 0 <= i < |GetParameters(a)| :: Meet(GetParameters(a)[i], GetParameters(b)[i]))
  }

  /** The type with its parameters replaced. */
  function WithParameters(t: Type, ps: seq<Type>): (r: Type)
    requires |ps| == |GetParameters(t)|
    ensures Kind(r) == Kind(t) && Name(r) == Name(t) && GetParameters(r) == ps
  {
    match t
    case ListType(_) => ListType(ps[0])
    case MapType(_, _) => MapType(ps[0], ps[1])
    case OpaqueType(name, _) => OpaqueType(name, ps)
    case TypeType(parameter) => if parameter.Some? then TypeType(Some(ps[0])) else t
    case FunctionType(_, _) => FunctionType(ps[0], ps[1..])
    case _ => t
  }

  lemma AssignableByParameters(a: Type, b: Type)
    requires SameConstructor(a, b) && PairwiseAssignable(a, b)
    ensures Assignable(a, b)
  {
    hide BasicName;
  }

  lemma {:induction false} MeetingPoint(a: Type, b: Type) returns (c: Type)
    requires Meet(a, b)
    ensures Assignable(a, c) && Assignable(b, c)
    decreases a, 1
  {
    if Assignable(a, b) {
      c := b;
    } else if Assignable(b, a) {
      c := a;
    } else if TakesNull(a) && TakesNull(b) {
      c := NULL;
    } else {
      c := MeetingParameters(a, b);
    }
  }

  lemma MeetingParameters(a: Type, b: Type) returns (c: Type)
    requires SameConstructor(a, b)
    requires forall i | 0 <= i < |GetParameters(a)| :: Meet(GetParameters(a)[i], GetParameters(b)[i])
    ensures Assignable(a, c) && Assignable(b, c)
    decreases a, 0
  {
    hide Meet;
    hide Assignable;
    hide BasicName;
    var ps, qs := GetParameters(a), GetParameters(b);
    var cs: seq<Type> := [];
    for i := 0 to |ps|
      invariant |cs| == i
      invariant forall k | 0 <= k < i :: Assignable(ps[k], cs[k]) && Assignable(qs[k], cs[k])
    {
      var p := MeetingPoint(ps[i], qs[i]);
      cs := cs + [p];
    }
    c := WithParameters(a, cs);
    AssignableByParameters(a, c);
    AssignableByParameters(b, c);
  }

  lemma {:induction false} CommonMeansMeet(a: Type, b: Type, c: Type)
    requires Assignable(a, c) && Assignable(b, c)
    ensures Meet(a, b)
    decreases a, 1
  {
    hide BasicName;
    if !Assignable(a, b) && !Assignable(b, a) {
      if Unwrapped(a).Some? || Unwrapped(b).Some? {
        WrappersMeetInNull(a, b, c);
      } else {
        CommonInParameters(a, b, c);
        CommonParametersMeet(a, b, c);
      }
    }
  }

  lemma CommonInParameters(a: Type, b: Type, c: Type)
    requires Assignable(a, c) && Assignable(b, c) && !Assignable(a, b) && !Assignable(b, a)
    requires Unwrapped(a).None? && Unwrapped(b).None?
    ensures SameConstructor(a, c) && PairwiseAssignable(a, c)
    ensures SameConstructor(b, c) && PairwiseAssignable(b, c)
  {
    hide BasicName;
    hide Name;
  }

  lemma CommonParametersMeet(a: Type, b: Type, c: Type)
    requires SameConstructor(a, c) && PairwiseAssignable(a, c)
    requires SameConstructor(b, c) && PairwiseAssignable(b, c)
    ensures Meet(a, b)
    decreases a, 0
  {
    hide BasicName;
    hide Assignable;
    forall i | 0 <= i < |GetParameters(a)| ensures Meet(GetParameters(a)[i], GetParameters(b)[i]) {
      CommonMeansMeet(GetParameters(a)[i], GetParameters(b)[i], GetParameters(c)[i]);
    }
  }

  lemma WrappersMeetInNull(a: Type, b: Type, c: Type)
    requires Assignable(a, c) && Assignable(b, c) && !Assignable(a, b) && !Assignable(b, a)
    requires Unwrapped(a).Some? || Unwrapped(b).Some?
    ensures TakesNull(a) && TakesNull(b)
  {
    hide Name;
    hide BasicName;
  }

  /** Types meet exactly when some type is assignable to both. */
  lemma MeetIsCommon(a: Type, b: Type)
    ensures Meet(a, b) <==> exists c :: Assignable(a, c) && Assignable(b, c)
  {
    hide Meet;
    hide Assignable;
    if Meet(a, b) {
      var c := MeetingPoint(a, b);
      assert Assignable(a, c) && Assignable(b, c);
    }
    forall c | Assignable(a, c) && Assignable(b, c) ensures Meet(a, b) {
      CommonMeansMeet(a, b, c);
    }
  }
}
