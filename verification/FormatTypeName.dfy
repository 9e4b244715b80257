/**
 * common/format_type_name.cc: writing out a type with a stack of types and places within them, against the
 * recursive rendering.
 */
module FormatTypeName {
  import opened Results
  import opened Types

  function BasicText(basic: Basic): string {
    match basic
    case DynType => "dyn"
    case AnyType => "any"
    case BoolType => "bool"
    case BoolWrapperType => "wrapper(bool)"
    case BytesType => "bytes"
    case BytesWrapperType => "wrapper(bytes)"
    case DoubleType => "double"
    case DoubleWrapperType => "wrapper(double)"
    case DurationType => "google.protobuf.Duration"
    case IntType => "int"
    case IntWrapperType => "wrapper(int)"
    case NullType => "null_type"
    case StringType => "string"
    case StringWrapperType => "wrapper(string)"
    case TimestampType => "google.protobuf.Timestamp"
    case UintType => "uint"
    case UintWrapperType => "wrapper(uint)"
    case UnknownType => "*unknown*"
    case ErrorType => "*error*"
  }

  /** A type as it is shown to users. */
  function Render(t: Type): string
    decreases t, 1, 0
  {
    match t
    case Simple(basic) => BasicText(basic)
    case EnumType(_) => "int"
    case ListType(element) => "list(" + Render(element) + ")"
    case MapType(key, value) => "map(" + Render(key) + ", " + Render(value) + ")"
    case OpaqueType(name, parameters) => name + if parameters == [] then "" else "(" + RenderAll(t, 0) + ")"
    case StructType(name) => name
    case TypeType(parameter) => "type" + if parameter.None? then "" else "(" + Render(parameter.value) + ")"
    case TypeParamType(name) => name
    case FunctionType(_, _) => "*error*"
  }

  /** The parameters of an opaque type from the `i`-th on, with commas between. */
  function RenderAll(t: Type, i: nat): string
    requires t.OpaqueType? && i < |t.parameters|
    decreases t, 0, |t.parameters| - i
  {
    Render(t.parameters[i]) + if i + 1 == |t.parameters| then "" else ", " + RenderAll(t, i + 1)
  }

  /** Wrappers are shown by what they wrap. */
  lemma WrappersAreShown()
    ensures Render(Simple(BoolWrapperType)) == "wrapper(" + Render(Simple(BoolType)) + ")"
    ensures Render(Simple(IntWrapperType)) == "wrapper(" + Render(Simple(IntType)) + ")"
    ensures Render(Simple(UintWrapperType)) == "wrapper(" + Render(Simple(UintType)) + ")"
    ensures Render(Simple(DoubleWrapperType)) == "wrapper(" + Render(Simple(DoubleType)) + ")"
    ensures Render(Simple(StringWrapperType)) == "wrapper(" + Render(Simple(StringType)) + ")"
    ensures Render(Simple(BytesWrapperType)) == "wrapper(" + Render(Simple(BytesType)) + ")"
  {
    hide Render;
    NumberWrappersAreShown();
    OtherWrappersAreShown();
  }

  lemma NumberWrappersAreShown()
    ensures Render(Simple(IntWrapperType)) == "wrapper(" + Render(Simple(IntType)) + ")"
    ensures Render(Simple(UintWrapperType)) == "wrapper(" + Render(Simple(UintType)) + ")"
    ensures Render(Simple(DoubleWrapperType)) == "wrapper(" + Render(Simple(DoubleType)) + ")"
  {
  }

  lemma OtherWrappersAreShown()
    ensures Render(Simple(BoolWrapperType)) == "wrapper(" + Render(Simple(BoolType)) + ")"
    ensures Render(Simple(StringWrapperType)) == "wrapper(" + Render(Simple(StringType)) + ")"
    ensures Render(Simple(BytesWrapperType)) == "wrapper(" + Render(Simple(BytesType)) + ")"
  {
  }

  /** Other types without parts are shown by their names, `any` for short. */
  lemma BasicsAreShown(basic: Basic)
    requires !IsWrapper(basic)
    ensures Render(Simple(basic)) == if basic.AnyType? then "any" else Name(Simple(basic))
  {
  }

  /** Types with parts, for example. */
  lemma PartsAreShown()
    ensures Render(ListType(Simple(IntType))) == "list(int)"
    ensures Render(MapType(Simple(IntType), Simple(BoolType))) == "map(int, bool)"
    ensures Render(OpaqueType("opaque", [Simple(IntType), Simple(BoolType)])) == "opaque(int, bool)"
    ensures Render(TypeType(Some(Simple(IntType)))) == "type(int)"
  {
    var o := OpaqueType("opaque", [Simple(IntType), Simple(BoolType)]);
    assert RenderAll(o, 1) == "bool";
    assert RenderAll(o, 0) == "int" + (", " + "bool");
  }

  // ---------- the stack machine ----------

  datatype FormatImplRecord = FormatImplRecord(type_: Type, offset: nat)

  /** The places within a type that the machine can come back to. */
  predicate Reachable(r: FormatImplRecord) {
    match r.type_
    case ListType(_) => r.offset <= 1
    case MapType(_, _) => r.offset <= 2
    case OpaqueType(_, parameters) => r.offset == 0 || r.offset <= |parameters|
    case TypeType(parameter) => r.offset == 0 || (parameter.Some? && r.offset == 1)
    case _ => r.offset == 0
  }

  predicate AllReachable(stack: seq<FormatImplRecord>) {
    forall i | 0 <= i < |stack| :: Reachable(stack[i])
  }

  /** The text still to be written for a record. */
  function Owed(r: FormatImplRecord): string {
    if r.offset == 0 then Render(r.type_)
    else
      match r.type_
      case MapType(_, value) => if r.offset == 1 then ", " + Render(value) + ")" else ")"
      case OpaqueType(_, parameters) =>
        if r.offset < |parameters| then ", " + RenderAll(r.type_, r.offset) + ")" else ")"
      case _ => ")"
  }

  /** The text still to be written for the stack, whose top is its last record. */
  function Pending(stack: seq<FormatImplRecord>): string
    decreases |stack|
  {
    if stack == [] then "" else Owed(stack[|stack| - 1]) + Pending(stack[..|stack| - 1])
  }

  // ---------- steps left ----------

  ghost function Steps(t: Type): (n: nat)
    ensures n >= 1
    decreases t, 1, 0
  {
    match t
    case ListType(element) => 2 + Steps(element)
    case MapType(key, value) => 3 + Steps(key) + Steps(value)
    case OpaqueType(_, parameters) => if parameters == [] then 1 else 1 + StepsFrom(t, 0)
    case TypeType(parameter) => if parameter.None? then 1 else 2 + Steps(parameter.value)
    case _ => 1
  }

  ghost function StepsFrom(t: Type, i: nat): nat
    requires t.OpaqueType? && i < |t.parameters|
    decreases t, 0, |t.parameters| - i
  {
    1 + Steps(t.parameters[i]) + if i + 1 == |t.parameters| then 0 else StepsFrom(t, i + 1)
  }

  ghost function StepsOwed(r: FormatImplRecord): (n: nat)
    ensures n >= 1
  {
    if r.offset == 0 then Steps(r.type_)
    else
      match r.type_
      case MapType(_, value) => if r.offset == 1 then 2 + Steps(value) else 1
      case OpaqueType(_, parameters) => if r.offset < |parameters| then 1 + StepsFrom(r.type_, r.offset) else 1
      case _ => 1
  }

  ghost function StepsLeft(stack: seq<FormatImplRecord>): nat
    decreases |stack|
  {
    if stack == [] then 0 else StepsOwed(stack[|stack| - 1]) + StepsLeft(stack[..|stack| - 1])
  }

  lemma PushOne(stack: seq<FormatImplRecord>, r: FormatImplRecord)
    ensures Pending(stack + [r]) == Owed(r) + Pending(stack)
    ensures StepsLeft(stack + [r]) == StepsOwed(r) + StepsLeft(stack)
  {
    assert (stack + [r])[..|stack|] == stack;
  }

  /** A record that waits, and a type before it. */
  lemma PushTwo(stack: seq<FormatImplRecord>, r: FormatImplRecord, t: Type)
    ensures
      var pushed := stack + [r] + [FormatImplRecord(t, 0)];
      && Pending(pushed) == Render(t) + Owed(r) + Pending(stack)
      && StepsLeft(pushed) == Steps(t) + StepsOwed(r) + StepsLeft(stack)
  {
    PushOne(stack, r);
    PushOne(stack + [r], FormatImplRecord(t, 0));
  }

  /** What a record owes, when a piece of it is written, one part of it comes next, and `rest` waits. */
  ghost predicate Splits(r: FormatImplRecord, piece: string, t: Type, rest: FormatImplRecord) {
    && Owed(r) == piece + (Render(t) + Owed(rest))
    && StepsOwed(r) == 1 + Steps(t) + StepsOwed(rest)
    && Reachable(rest)
  }

  lemma PushParts(stack: seq<FormatImplRecord>, r: FormatImplRecord, piece: string, t: Type, rest: FormatImplRecord)
    requires Splits(r, piece, t, rest)
    ensures
      var pushed := stack + [rest] + [FormatImplRecord(t, 0)];
      && piece + Pending(pushed) == Owed(r) + Pending(stack)
      && StepsLeft(pushed) == StepsOwed(r) + StepsLeft(stack) - 1
  {
    hide Owed;
    hide StepsOwed;
    hide Render;
    hide Steps;
    hide Pending;
    hide StepsLeft;
    PushTwo(stack, rest, t);
    var a, b, c := Render(t), Owed(rest), Pending(stack);
    assert piece + (a + b + c) == piece + (a + b) + c;
  }

  lemma ListSplits(cur: Type)
    requires cur.ListType?
    ensures Splits(FormatImplRecord(cur, 0), "list(", cur.element, FormatImplRecord(cur, 1))
  {
    hide BasicText;
    var a := Render(cur.element);
    assert "list(" + a + ")" == "list(" + (a + ")");
  }

  lemma MapSplits(cur: Type)
    requires cur.MapType?
    ensures Splits(FormatImplRecord(cur, 0), "map(", cur.key, FormatImplRecord(cur, 1))
    ensures Splits(FormatImplRecord(cur, 1), ", ", cur.value, FormatImplRecord(cur, 2))
  {
    hide BasicText;
    var a, b := Render(cur.key), Render(cur.value);
    assert "map(" + a + ", " + b + ")" == "map(" + (a + (", " + b + ")"));
    assert ", " + b + ")" == ", " + (b + ")");
  }

  lemma TypeSplits(cur: Type)
    requires cur.TypeType? && cur.parameter.Some?
    ensures Splits(FormatImplRecord(cur, 0), "type" + "(", cur.parameter.value, FormatImplRecord(cur, 1))
  {
    hide BasicText;
    var a := Render(cur.parameter.value);
    assert "type" + ("(" + a + ")") == "type" + "(" + (a + ")");
  }

  lemma OpaqueSplits(cur: Type)
    requires cur.OpaqueType? && cur.parameters != []
    ensures Splits(FormatImplRecord(cur, 0), cur.opaqueName + "(", cur.parameters[0], FormatImplRecord(cur, 1))
  {
    hide BasicText;
    var first, owed := Render(cur.parameters[0]), Owed(FormatImplRecord(cur, 1));
    OpaqueRest(cur, 0);
    assert cur.opaqueName + ("(" + RenderAll(cur, 0) + ")") == cur.opaqueName + "(" + (RenderAll(cur, 0) + ")");
  }

  lemma OpaqueSplitsAt(cur: Type, offset: nat)
    requires cur.OpaqueType? && 0 < offset < |cur.parameters|
    ensures Splits(FormatImplRecord(cur, offset), ", ", cur.parameters[offset], FormatImplRecord(cur, offset + 1))
  {
    hide BasicText;
    OpaqueRest(cur, offset);
    assert ", " + RenderAll(cur, offset) + ")" == ", " + (RenderAll(cur, offset) + ")");
  }

  lemma OpaqueRest(cur: Type, i: nat)
    requires cur.OpaqueType? && i < |cur.parameters|
    ensures RenderAll(cur, i) + ")" == Render(cur.parameters[i]) + Owed(FormatImplRecord(cur, i + 1))
    ensures StepsFrom(cur, i) == Steps(cur.parameters[i]) + StepsOwed(FormatImplRecord(cur, i + 1))
  {
    hide BasicText;
    hide Render;
    hide Steps;
    var a := Render(cur.parameters[i]);
    if i + 1 < |cur.parameters| {
      var b := RenderAll(cur, i + 1);
      assert a + (", " + b) + ")" == a + (", " + b + ")");
    } else {
      assert a + "" + ")" == a + ")";
    }
  }

  /** The pieces that a record ends with. */
  lemma LastPieces(r: FormatImplRecord)
    requires Reachable(r)
    ensures r.type_.ListType? && r.offset != 0 ==> Owed(r) == ")" && StepsOwed(r) == 1
    ensures r.type_.MapType? && r.offset >= 2 ==> Owed(r) == ")" && StepsOwed(r) == 1
    ensures r.type_.OpaqueType? && r.offset != 0 && r.offset >= |r.type_.parameters|
      ==> Owed(r) == ")" && StepsOwed(r) == 1
    ensures r.type_.OpaqueType? && r.type_.parameters == [] ==> Owed(r) == r.type_.opaqueName && StepsOwed(r) == 1
    ensures r.type_.TypeType? && r.offset != 0 ==> Owed(r) == ")" && StepsOwed(r) == 1
    ensures r.type_.TypeType? && r.offset == 0 && r.type_.parameter.None? ==> Owed(r) == "type" && StepsOwed(r) == 1
  {
    hide BasicText;
    if r.type_.OpaqueType? && r.type_.parameters == [] {
      assert r.type_.opaqueName + "" == r.type_.opaqueName;
    }
    if r.type_.TypeType? && r.offset == 0 && r.type_.parameter.None? {
      assert "type" + "" == "type";
    }
  }

  /** Types that are written in one piece. */
  predicate Plain(t: Type) {
    t.Simple? || t.EnumType? || t.StructType? || t.TypeParamType? || t.FunctionType?
  }

  method FormatPlain(cur: Type) returns (out: string)
    requires Plain(cur)
    ensures out == Owed(FormatImplRecord(cur, 0)) && StepsOwed(FormatImplRecord(cur, 0)) == 1
  {
    hide BasicText;
    match cur {
      case Simple(basic) => out := BasicText(basic);
      case EnumType(_) => out := "int";
      case StructType(name) => out := name;
      case TypeParamType(name) => out := name;
      case FunctionType(_, _) => out := "*error*";
    }
  }

  /** FormatImpl: writes a piece of the record's text, and pushes what is left of it with the part that comes first. */
  method FormatImpl(r: FormatImplRecord, stack0: seq<FormatImplRecord>)
      returns (out: string, stack: seq<FormatImplRecord>)
    requires Reachable(r) && AllReachable(stack0)
    ensures AllReachable(stack)
    ensures out + Pending(stack) == Owed(r) + Pending(stack0)
    ensures StepsLeft(stack) == StepsOwed(r) + StepsLeft(stack0) - 1
  {
    hide Owed;
    hide StepsOwed;
    hide Render;
    hide Steps;
    hide Pending;
    hide StepsLeft;
    hide BasicText;
    var cur, offset := r.type_, r.offset;
    stack := stack0;
    LastPieces(r);
    match cur {
      case ListType(element) =>
        if offset == 0 {
          out := "list(";
          ListSplits(cur);
          stack := Push(stack, r, out, FormatImplRecord(cur, 1), element);
        } else {
          out := ")";
        }
      case MapType(key, value) =>
        MapSplits(cur);
        if offset == 0 {
          out := "map(";
          stack := Push(stack, r, out, FormatImplRecord(cur, 1), key);
          return;
        }
        if offset == 1 {
          out := ", ";
          stack := Push(stack, r, out, FormatImplRecord(cur, 2), value);
          return;
        }
        out := ")";
      case OpaqueType(name, parameters) =>
        if offset == 0 {
          out := name;
          if parameters != [] {
            out := out + "(";
            OpaqueSplits(cur);
            stack := Push(stack, r, out, FormatImplRecord(cur, 1), parameters[0]);
          }
          return;
        }
        if offset >= |parameters| {
          out := ")";
          return;
        }
        out := ", ";
        OpaqueSplitsAt(cur, offset);
        stack := Push(stack, r, out, FormatImplRecord(cur, offset + 1), parameters[offset]);
      case TypeType(parameter) =>
        if offset == 0 {
          out := "type";
          if parameter.Some? {
            out := out + "(";
            TypeSplits(cur);
            stack := Push(stack, r, out, FormatImplRecord(cur, 1), parameter.value);
          }
        } else {
          out := ")";
        }
      case _ => out := FormatPlain(cur);
    }
  }

  /** Pushes the rest of a record, and over it the part that comes next. */
  method Push(stack0: seq<FormatImplRecord>, r: FormatImplRecord, ghost piece: string, rest: FormatImplRecord, t: Type)
    returns (stack: seq<FormatImplRecord>)
    requires AllReachable(stack0) && Splits(r, piece, t, rest)
    ensures stack == stack0 + [rest] + [FormatImplRecord(t, 0)] && AllReachable(stack)
    ensures piece + Pending(stack) == Owed(r) + Pending(stack0)
    ensures StepsLeft(stack) == StepsOwed(r) + StepsLeft(stack0) - 1
  {
    hide Owed;
    hide StepsOwed;
    hide Render;
    hide Steps;
    hide Pending;
    hide StepsLeft;
    PushParts(stack0, r, piece, t, rest);
    stack := stack0 + [rest];
    stack := stack + [FormatImplRecord(t, 0)];
  }

  /** FormatTypeName ends, and writes the recursive rendering. */
  method FormatTypeName(t: Type) returns (out: string)
    ensures out == Render(t)
  {
    hide Owed;
    hide StepsOwed;
    hide Render;
    var stack := [FormatImplRecord(t, 0)];
    PushOne([], stack[0]);
    assert [] + stack == stack;
    out := "";
    WholeOwed(t);
    while stack != []
      invariant AllReachable(stack) && out + Pending(stack) == Render(t)
      decreases StepsLeft(stack)
    {
      var top := stack[|stack| - 1];
      var piece;
      piece, stack := FormatImpl(top, stack[..|stack| - 1]);
      out := out + piece;
    }
  }

  lemma WholeOwed(t: Type)
    ensures Reachable(FormatImplRecord(t, 0)) && Owed(FormatImplRecord(t, 0)) == Render(t)
  {
  }
}
