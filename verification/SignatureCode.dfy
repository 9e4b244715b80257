/** The loops of common/signature.cc, each proved against its function in SignatureText or Signature. */
module SignatureCode {
  import opened Results
  import opened TypeSpecs
  import opened SignatureText
  import opened Signature

  /** The `std::string* result` every printing routine appends to. */
  class Output {
    var text: string

    constructor ()
      ensures text == ""
    {
      text := "";
    }

    method Append(s: string)
      modifies this
      ensures text == old(text) + s
    {
      text := text + s;
    }
  }

  // ---------- printing ----------

  method AppendEscaped(out: Output, str: string, escapeDot: bool)
    modifies out
    ensures out.text == old(out.text) + Escape(str, escapeDot)
  {
    for i := 0 to |str|
      invariant out.text + Escape(str[i..], escapeDot) == old(out.text) + Escape(str, escapeDot)
    {
      var c := str[i];
      EscapeStep(out.text, str, i, escapeDot);
      if c in {'\\', '(', ')', '<', '>', '"', ',', '~'} {
        out.Append("\\");
      } else if c == '.' {
        if escapeDot {
          out.Append("\\");
        }
      }
      out.Append([c]);
    }
  }

  lemma EscapeStep(before: string, str: string, i: nat, escapeDot: bool)
    requires i < |str|
    ensures before + Escape(str[i..], escapeDot)
         == before + EscapeChar(str[i], escapeDot) + Escape(str[i + 1..], escapeDot)
    ensures Special(str[i], escapeDot) ==> before + "\\" + [str[i]] == before + EscapeChar(str[i], escapeDot)
  {
    assert str[i..][0] == str[i] && str[i..][1..] == str[i + 1..];
  }

  /** One step of a loop that writes a list: the first element, a comma if more follow, the rest. */
  lemma JoinStep(ts: seq<TypeSpec>, i: nat)
    requires i < |ts|
    ensures Join(Descs(ts[i..]), ',')
         == Desc(ts[i]) + ((if i < |ts| - 1 then "," else "") + Join(Descs(ts[i + 1..]), ','))
    ensures AllPrintable(ts[i..]) <==> Printable(ts[i]) && AllPrintable(ts[i + 1..])
    ensures Sizes(ts[i..]) == 1 + Size(ts[i]) + Sizes(ts[i + 1..])
  {
    var rest := ts[i..];
    assert rest[0] == ts[i] && rest[1..] == ts[i + 1..];
    assert Descs(rest) == [Desc(ts[i])] + Descs(ts[i + 1..]);
    assert Descs(rest)[1..] == Descs(ts[i + 1..]);
  }

  lemma NothingLeft(ts: seq<TypeSpec>)
    ensures AllPrintable(ts[|ts|..]) && Join(Descs(ts[|ts|..]), ',') == "" && LedByCommas(ts[|ts|..]) == ""
  {
    assert ts[|ts|..] == [];
  }

  /** The parameters separated by commas, without the brackets. */
  method AppendList(out: Output, params: seq<TypeSpec>) returns (ok: bool)
    modifies out
    ensures ok <==> AllPrintable(params)
    ensures ok ==> out.text == old(out.text) + Join(Descs(params), ',')
    decreases Sizes(params), 0
  {
    hide Desc, Descs, Join, Printable, AllPrintable, Sizes;
    ghost var start := out.text;
    var i := 0;
    assert params[0..] == params;
    while i < |params|
      invariant 0 <= i <= |params|
      invariant AllPrintable(params) <==> AllPrintable(params[i..])
      invariant Sizes(params[i..]) <= Sizes(params)
      invariant out.text + Join(Descs(params[i..]), ',') == start + Join(Descs(params), ',')
    {
      JoinStep(params, i);
      ghost var before := out.text;
      ok := AppendTypeDesc(out, params[i]);
      if !ok {
        return;
      }
      ghost var rest := Join(Descs(params[i + 1..]), ',');
      if i < |params| - 1 {
        assert before + (Desc(params[i]) + ("," + rest)) == before + Desc(params[i]) + "," + rest;
        out.Append(",");
      } else {
        assert before + (Desc(params[i]) + ("" + rest)) == before + Desc(params[i]) + rest;
      }
      i := i + 1;
    }
    NothingLeft(params);
    ok := true;
  }

  method AppendTypeSpecList(out: Output, params: seq<TypeSpec>) returns (ok: bool)
    modifies out
    ensures ok <==> AllPrintable(params)
    ensures ok ==>
      out.text == old(out.text) + if params == [] then "" else "<" + Join(Descs(params), ',') + ">"
    decreases Sizes(params), 1
  {
    hide Descs, Join, AllPrintable;
    NothingLeft(params);
    ok := true;
    if params != [] {
      out.Append("<");
      ok := AppendList(out, params);
      if !ok {
        return;
      }
      out.Append(">");
    }
  }

  /** A slot of a list, map or function type: its type, or `dyn` when unset. */
  method AppendSlot(out: Output, t: TypeSpec) returns (ok: bool)
    modifies out
    ensures ok <==> Printable(OrDyn(t))
    ensures ok ==> out.text == old(out.text) + Desc(OrDyn(t))
    decreases Size(t), 5
  {
    if !t.Unset? {
      ok := AppendTypeDesc(out, t);
    } else {
      NothingToEscape("dyn");
      assert Printable(Dyn) && Desc(Dyn) == "dyn";
      out.Append("dyn");
      ok := true;
    }
  }

  method AppendTypeDesc(out: Output, t: TypeSpec) returns (ok: bool)
    modifies out
    ensures ok <==> Printable(t)
    ensures ok ==> out.text == old(out.text) + Desc(t)
    decreases Size(t), 4
  {
    PartsAreSmaller(t);
    NamedDesc(t);
    match t
    case List(e) => ok := AppendListType(out, t);
    case Map(k, v) => ok := AppendMapType(out, t);
    case Function(r, args) => ok := AppendFunctionType(out, t);
    case Type(i) => ok := AppendTypeType(out, t);
    case Param(n) =>
      out.Append("~");
      AppendEscaped(out, n, true);
      ok := true;
    case Abstract(n, params) => ok := AppendAbstractType(out, t);
    case Message(n) =>
      AppendEscaped(out, n, false);
      ok := true;
    case _ => ok := AppendSimple(out, t);
  }

  lemma NamedDesc(t: TypeSpec)
    ensures t.Message? ==> Desc(t) == Escape(t.messageName, false)
    ensures t.Param? ==> Desc(t) == "~" + Escape(t.paramName, true)
    ensures t.Message? || t.Param? ==> Printable(t)
  {
  }

  lemma AbstractDesc(t: TypeSpec)
    requires t.Abstract?
    ensures
      Desc(t) == Escape(t.name, false) + if t.params == [] then "" else "<" + Join(Descs(t.params), ',') + ">"
    ensures Printable(t) <==> AllPrintable(t.params)
  {
    hide Escape, Descs, Join;
  }

  method AppendAbstractType(out: Output, t: TypeSpec) returns (ok: bool)
    requires t.Abstract?
    modifies out
    ensures ok <==> Printable(t)
    ensures ok ==> out.text == old(out.text) + Desc(t)
    decreases Size(t), 3
  {
    hide Escape, Descs, Join;
    AbstractDesc(t);
    AppendEscaped(out, t.name, false);
    ok := AppendTypeSpecList(out, t.params);
  }

  /** Null, dyn, primitive, well-known and wrapper types; unspecified ones and all others are refused. */
  method AppendSimple(out: Output, t: TypeSpec) returns (ok: bool)
    requires Keyword(t) && Parts(t) == []
    modifies out
    ensures ok <==> Printable(t)
    ensures ok ==> out.text == old(out.text) + Desc(t)
  {
    SimpleDesc(t);
    ok := true;
    match t
    case Null => out.Append("null");
    case Dyn => out.Append("dyn");
    case Primitive(p) =>
      if p == PrimitiveUnspecified {
        return false;
      }
      out.Append(PrimitiveName(p));
    case WellKnown(w) =>
      if w == WellKnownUnspecified {
        return false;
      }
      out.Append(WellKnownName(w));
    case Wrapper(p) =>
      if p == PrimitiveUnspecified {
        return false;
      }
      out.Append(WrapperName(p));
    case _ => ok := false;
  }

  lemma SimpleDesc(t: TypeSpec)
    requires Keyword(t) && Parts(t) == []
    ensures Desc(t) == Head(t)
    ensures Printable(t) <==> PrintableHead(t)
  {
    KeywordsAreNotEscaped(t);
  }

  lemma ListDesc(t: TypeSpec)
    requires t.List?
    ensures Desc(t) == "list<" + Desc(OrDyn(t.elem)) + ">"
    ensures Printable(t) <==> Printable(OrDyn(t.elem))
  {
    hide Desc, Printable;
    CompositeDesc(t, OrDyn(t.elem), []);
    assert "list" + "<" == "list<";
    assert "list<" + Desc(OrDyn(t.elem)) + "" == "list<" + Desc(OrDyn(t.elem));
  }

  lemma MapDesc(t: TypeSpec)
    requires t.Map?
    ensures Desc(t) == "map<" + Desc(OrDyn(t.key)) + "," + Desc(OrDyn(t.value)) + ">"
    ensures Printable(t) <==> Printable(OrDyn(t.key)) && Printable(OrDyn(t.value))
  {
    hide Desc, Printable, LedByCommas;
    var key, value := Desc(OrDyn(t.key)), Desc(OrDyn(t.value));
    CompositeDesc(t, OrDyn(t.key), [OrDyn(t.value)]);
    assert "map" + "<" == "map<";
    assert "map<" + key + ("," + value) + ">" == "map<" + key + "," + value + ">";
  }

  /** The result comes first, then the arguments, each after a comma. */
  lemma FunctionDesc(t: TypeSpec)
    requires t.Function?
    ensures Desc(t) == "function<" + Desc(OrDyn(t.result)) + LedByCommas(t.args) + ">"
    ensures Printable(t) <==> Printable(OrDyn(t.result)) && AllPrintable(t.args)
  {
    hide Desc, Printable, LedByCommas;
    CompositeDesc(t, OrDyn(t.result), t.args);
    assert "function" + "<" == "function<";
  }

  lemma Reassociate(a: string, b: string, c: string, d: string)
    ensures a + b + c + d == a + (b + c + d) == a + (b + (c + d))
  {
  }

  method AppendListType(out: Output, t: TypeSpec) returns (ok: bool)
    requires t.List?
    modifies out
    ensures ok <==> Printable(t)
    ensures ok ==> out.text == old(out.text) + Desc(t)
    decreases Size(t), 3
  {
    hide Desc, Printable;
    ListDesc(t);
    ghost var before, first := out.text, Desc(OrDyn(t.elem));
    out.Append("list<");
    ok := AppendSlot(out, t.elem);
    if !ok {
      return;
    }
    out.Append(">");
    Reassociate(before, "list<", first, ">");
  }

  method AppendMapType(out: Output, t: TypeSpec) returns (ok: bool)
    requires t.Map?
    modifies out
    ensures ok <==> Printable(t)
    ensures ok ==> out.text == old(out.text) + Desc(t)
    decreases Size(t), 3
  {
    hide Desc, Printable;
    MapDesc(t);
    ghost var before, first, second := out.text, Desc(OrDyn(t.key)), Desc(OrDyn(t.value));
    out.Append("map<");
    ok := AppendSlot(out, t.key);
    if !ok {
      return;
    }
    out.Append(",");
    ok := AppendSlot(out, t.value);
    if !ok {
      return;
    }
    out.Append(">");
    assert before + "map<" + first + "," + second + ">" == before + ("map<" + first + "," + second + ">");
  }

  method AppendFunctionType(out: Output, t: TypeSpec) returns (ok: bool)
    requires t.Function?
    modifies out
    ensures ok <==> Printable(t)
    ensures ok ==> out.text == old(out.text) + Desc(t)
    decreases Size(t), 3
  {
    hide Desc, Printable, LedByCommas;
    FunctionDesc(t);
    ghost var start := out.text;
    assert "function<" == "function" + "<";
    out.Append("function<");
    ok := AppendSlot(out, t.result);
    if !ok {
      return;
    }
    ok := AppendArguments(out, t.args);
    if !ok {
      return;
    }
    out.Append(">");
    Bracketed(start, "function", Desc(OrDyn(t.result)), LedByCommas(t.args));
  }

  method AppendTypeType(out: Output, t: TypeSpec) returns (ok: bool)
    requires t.Type?
    modifies out
    ensures ok <==> Printable(t)
    ensures ok ==> out.text == old(out.text) + Desc(t)
    decreases Size(t), 3
  {
    CompositeDesc(t, t.inner, []);
    hide Desc, Printable;
    ghost var start := out.text;
    out.Append("type");
    out.Append("<");
    ok := AppendTypeDesc(out, t.inner);
    if !ok {
      return;
    }
    out.Append(">");
    Bracketed(start, "type", Desc(t.inner), "");
  }

  lemma Bracketed(start: string, head: string, first: string, more: string)
    ensures start + (head + "<") + first + more + ">" == start + (head + "<" + first + more + ">")
    ensures start + head + "<" + first + more + ">" == start + (head + "<" + first + more + ">")
    ensures head + ("<" + (first + more) + ">") == head + "<" + first + more + ">"
    ensures first + "" == first
  {
  }

  /** Arguments each led by a comma, as the function type prints them. */
  method AppendArguments(out: Output, args: seq<TypeSpec>) returns (ok: bool)
    modifies out
    ensures ok <==> AllPrintable(args)
    ensures ok ==> out.text == old(out.text) + LedByCommas(args)
    decreases Sizes(args), 0
  {
    hide Desc, Descs, Join, Printable, AllPrintable, Sizes;
    ghost var start := out.text;
    var i := 0;
    assert args[0..] == args;
    while i < |args|
      invariant 0 <= i <= |args|
      invariant AllPrintable(args) <==> AllPrintable(args[i..])
      invariant Sizes(args[i..]) <= Sizes(args)
      invariant out.text + LedByCommas(args[i..]) == start + LedByCommas(args)
    {
      JoinStep(args, i);
      ghost var before, rest := out.text, LedByCommas(args[i + 1..]);
      assert args[i..][0] == args[i] && args[i..][1..] == args[i + 1..];
      assert before + ("," + Desc(args[i]) + rest) == before + "," + Desc(args[i]) + rest;
      out.Append(",");
      ok := AppendTypeDesc(out, args[i]);
      if !ok {
        return;
      }
      i := i + 1;
    }
    NothingLeft(args);
    ok := true;
  }

  function LedByCommas(args: seq<TypeSpec>): string {
    if args == [] then "" else "," + Desc(args[0]) + LedByCommas(args[1..])
  }

  lemma {:induction false} JoinLedByCommas(t: TypeSpec, args: seq<TypeSpec>)
    ensures Join(Descs([t] + args), ',') == Desc(t) + LedByCommas(args)
    decreases |args|
  {
    hide Desc;
    hide Descs;
    hide Join;
    if args == [] {
      OneJoined(t);
      assert [t] + args == [t] && Desc(t) + "" == Desc(t);
    } else {
      var joined := Join(Descs(args), ',');
      JoinLedByCommas(args[0], args[1..]);
      assert args == [args[0]] + args[1..] && ([t] + args)[1..] == args;
      JoinedCons([t] + args);
      assert "," + Desc(args[0]) + LedByCommas(args[1..]) == "," + (Desc(args[0]) + LedByCommas(args[1..]));
    }
  }

  lemma OneJoined(t: TypeSpec)
    ensures Join(Descs([t]), ',') == Desc(t)
  {
    assert Descs([t]) == [Desc(t)];
  }

  /** The layout of a keyword type with a first part and further ones. */
  lemma CompositeDesc(t: TypeSpec, first: TypeSpec, more: seq<TypeSpec>)
    requires Keyword(t) && Parts(t) == [first] + more
    ensures Desc(t) == Head(t) + "<" + Desc(first) + LedByCommas(more) + ">"
    ensures Printable(t) <==> Printable(first) && AllPrintable(more)
    ensures |more| == 1 ==> LedByCommas(more) == "," + Desc(more[0])
    ensures |more| == 1 ==> (AllPrintable(more) <==> Printable(more[0]))
  {
    CompositeText(t, first, more);
    CompositePrintable(t, first, more);
    if |more| == 1 { assert more[1..] == []; }
  }

  lemma CompositeText(t: TypeSpec, first: TypeSpec, more: seq<TypeSpec>)
    requires Keyword(t) && Parts(t) == [first] + more
    ensures Desc(t) == Head(t) + "<" + Desc(first) + LedByCommas(more) + ">"
  {
    hide Escape, LedByCommas, Descs, Join;
    KeywordsAreNotEscaped(t);
    JoinLedByCommas(first, more);
    Bracketed("", Head(t), Desc(first), LedByCommas(more));
  }

  lemma CompositePrintable(t: TypeSpec, first: TypeSpec, more: seq<TypeSpec>)
    requires Keyword(t) && Parts(t) == [first] + more
    ensures Printable(t) <==> Printable(first) && AllPrintable(more)
  {
    assert Parts(t)[1..] == more;
  }

  predicate NothingSpecial(s: string) {
    forall i | 0 <= i < |s| :: !Special(s[i], false)
  }

  lemma {:induction false} NothingToEscape(s: string)
    requires NothingSpecial(s)
    ensures Escape(s, false) == s
  {
    if s != [] {
      NothingToEscape(s[1..]);
    }
  }

  lemma KeywordsAreNotEscaped(t: TypeSpec)
    requires Keyword(t)
    ensures Escape(Head(t), false) == Head(t)
  {
    match t
    case Primitive(p) => PrimitiveNamesAreNotEscaped(p);
    case Wrapper(p) => WrapperNamesAreNotEscaped(p);
    case WellKnown(w) => WellKnownNamesAreNotEscaped(w);
    case _ => NothingToEscape(Head(t));
  }

  lemma PrimitiveNamesAreNotEscaped(p: PrimitiveType)
    ensures Escape(PrimitiveName(p), false) == PrimitiveName(p)
  {
    NothingToEscape(PrimitiveName(p));
  }

  lemma WellKnownNamesAreNotEscaped(w: WellKnownType)
    ensures Escape(WellKnownName(w), false) == WellKnownName(w)
  {
    NothingToEscape(WellKnownName(w));
  }

  lemma WrapperNamesAreNotEscaped(p: PrimitiveType)
    ensures Escape(WrapperName(p), false) == WrapperName(p)
  {
    if p.Double? || p.String? || p.Bytes? {
      LongWrapperNames(p);
    } else {
      ShortWrapperNames(p);
    }
    hide NothingSpecial;
    hide WrapperName;
    NothingToEscape(WrapperName(p));
  }

  lemma LongWrapperNames(p: PrimitiveType)
    requires p.Double? || p.String? || p.Bytes?
    ensures NothingSpecial(WrapperName(p))
  {
  }

  lemma ShortWrapperNames(p: PrimitiveType)
    requires !(p.Double? || p.String? || p.Bytes?)
    ensures NothingSpecial(WrapperName(p))
  {
  }

  method MakeTypeSpecSignature(t: TypeSpec) returns (r: Result<string>)
    ensures r == Signature.MakeTypeSpecSignature(t)
  {
    var out := new Output();
    assert "" + Desc(t) == Desc(t);
    var ok := AppendTypeDesc(out, t);
    r := if ok then Ok(out.text) else Error;
  }

  method MakeOverloadSignature(name: string, args: seq<TypeSpec>, isMember: bool) returns (r: Result<string>)
    ensures r == Signature.MakeOverloadSignature(name, args, isMember)
  {
    if isMember && args == [] {
      return Error;
    }
    var out := new Output();
    if isMember {
      var printed := AppendTypeDesc(out, args[0]);
      if !printed {
        return Error;
      }
      out.Append(".");
    }
    assert out.text == ReceiverText(args, isMember);
    AppendEscaped(out, name, true);
    var ok := AppendCall(out, CallArgs(args, isMember));
    r := if ok then Ok(out.text) else Error;
  }

  method AppendCall(out: Output, args: seq<TypeSpec>) returns (ok: bool)
    modifies out
    ensures ok <==> AllPrintable(args)
    ensures ok ==> out.text == old(out.text) + ("(" + (Join(Descs(args), ',') + ")"))
  {
    ghost var start, inner := out.text, Join(Descs(args), ',');
    out.Append("(");
    ok := AppendList(out, args);
    assert ok ==> out.text == start + "(" + inner;
    out.Append(")");
    Reassociate(start, "(", inner, ")");
  }

  // ---------- scanning and parsing ----------

  lemma StripStep(result: string, str: string, i: nat, escaped: bool)
    requires i < |str|
    ensures result + StripFrom(str[i..], escaped) ==
            if escaped then result + [str[i]] + StripFrom(str[i + 1..], false)
            else if str[i] == '\\' then result + [str[i]] + StripFrom(str[i + 1..], true)
            else if White(str[i]) then result + StripFrom(str[i + 1..], false)
            else result + [str[i]] + StripFrom(str[i + 1..], false)
  {
    assert str[i..][0] == str[i] && str[i..][1..] == str[i + 1..];
  }

  method StripUnescapedWhitespace(str: string) returns (result: string)
    ensures result == Strip(str)
  {
    result := "";
    var escaped := false;
    for i := 0 to |str|
      invariant result + StripFrom(str[i..], escaped) == Strip(str)
    {
      var c := str[i];
      StripStep(result, str, i, escaped);
      if escaped {
        result := result + [c];
        escaped := false;
        continue;
      }
      if c == '\\' {
        result := result + [c];
        escaped := true;
        continue;
      }
      if c == ' ' || c == '\t' || c == '\n' || c == '\r' {
        continue;
      }
      result := result + [c];
    }
  }

  lemma UnescapeStep(result: string, str: string, i: nat, escaped: bool)
    requires i < |str|
    ensures result + UnescapeFrom(str[i..], escaped) ==
            if !escaped && str[i] == '\\' then result + UnescapeFrom(str[i + 1..], true)
            else result + [str[i]] + UnescapeFrom(str[i + 1..], false)
  {
    assert str[i..][0] == str[i] && str[i..][1..] == str[i + 1..];
  }

  method UnescapeText(str: string) returns (result: string)
    ensures result == Unescape(str)
  {
    var first := 0;
    while first < |str| && str[first] != '\\'
      invariant 0 <= first <= |str|
      invariant str[..first] + UnescapeFrom(str[first..], false) == Unescape(str)
    {
      UnescapeStep(str[..first], str, first, false);
      assert str[..first + 1] == str[..first] + [str[first]];
      first := first + 1;
    }
    if first == |str| {
      assert str[..first] == str;
      return str;
    }
    result := str[..first];
    var escaped := false;
    for i := first to |str|
      invariant result + UnescapeFrom(str[i..], escaped) == Unescape(str)
    {
      var c := str[i];
      UnescapeStep(result, str, i, escaped);
      if escaped {
        result := result + [c];
        escaped := false;
      } else if c == '\\' {
        escaped := true;
      } else {
        result := result + [c];
      }
    }
    if escaped {
      result := result + "\\";
    }
  }

  /** One character of either scan loop, when it is not the one after a backslash. */
  lemma ScanStep(st: ScanState, s: string, i: nat, delim: char)
    requires i < |s|
    ensures Run(st, s[i..]) == Run(Step(st, s[i]), s[i + 1..])
    ensures Split(st, s[i..], delim) ==
            var ps := Split(Step(st, s[i]), s[i + 1..], delim);
            if s[i] == delim && TopLevel(st, s[i]) then [[]] + ps else Prepend([s[i]], ps)
  {
    assert s[i..][0] == s[i] && s[i..][1..] == s[i + 1..];
  }

  /** Once a bracket closes that was never opened, the whole text is unbalanced. */
  lemma {:induction false} BadStaysBad(s: string)
    ensures Run(Bad, s) == Bad
    decreases s
  {
    if s != [] { BadStaysBad(s[1..]); }
  }

  /**
   * How far a scan of `input` has come: the pieces closed so far, the start of the open piece,
   * and the rest still to be split.
   */
  ghost predicate ScannedTo(input: string, i: nat, st: ScanState, delim: char, done: seq<string>, start: nat) {
    && start <= i <= |input| && st.At?
    && Run(Start, input) == Run(st, input[i..])
    && Split(Start, input, delim) == done + Prepend(input[start..i], Split(st, input[i..], delim))
  }

  lemma ScanBegins(input: string, delim: char)
    ensures ScannedTo(input, 0, Start, delim, [], 0)
  {
    assert input[0..] == input;
    assert "" + Split(Start, input, delim)[0] == Split(Start, input, delim)[0];
  }

  /** The scan moves over one character, closing a piece at a top-level delimiter. */
  lemma ScanMoves(input: string, i: nat, st: ScanState, delim: char, done: seq<string>, start: nat)
    requires ScannedTo(input, i, st, delim, done, start) && i < |input|
    ensures Step(st, input[i]).Bad? ==> !Balanced(input)
    ensures Step(st, input[i]).At? ==>
      if input[i] == delim && TopLevel(st, input[i]) then
        ScannedTo(input, i + 1, Step(st, input[i]), delim, done + [input[start..i]], i + 1)
      else
        ScannedTo(input, i + 1, Step(st, input[i]), delim, done, start)
  {
    var c := input[i];
    ScanStep(st, input, i, delim);
    BadStaysBad(input[i + 1..]);
    var after := Split(Step(st, c), input[i + 1..], delim);
    if c == delim && TopLevel(st, c) {
      assert input[i + 1..i + 1] == "" && "" + after[0] == after[0];
      assert input[start..i] + "" == input[start..i];
      assert done + Prepend(input[start..i], [""] + after) == done + [input[start..i]] + after;
    } else {
      PrependTwice(input[start..i], [c], after);
      assert input[start..i] + [c] == input[start..i + 1];
    }
  }

  lemma ScanEnds(input: string, st: ScanState, delim: char, done: seq<string>, start: nat)
    requires ScannedTo(input, |input|, st, delim, done, start)
    ensures Balanced(input) <==> st.nesting == 0
    ensures Split(Start, input, delim) == done + [input[start..]]
    ensures First(input, delim) == if done == [] then None else Some(|done[0]|)
    ensures Last(input, delim) == if done == [] then None else Some(start - 1)
  {
    assert input[|input|..] == "" && input[start..|input|] == input[start..];
    assert input[start..] + "" == input[start..];
  }

  method SplitTopLevel(input: string, delimiter: char) returns (r: Result<seq<string>>)
    ensures r == if Balanced(input) then Ok(Split(Start, input, delimiter)) else Error
  {
    var result: seq<string> := [];
    var nesting := 0;
    var escaped := false;
    var start := 0;
    hide Split, Run;
    ScanBegins(input, delimiter);
    for i := 0 to |input|
      invariant 0 <= nesting && 0 <= start
      invariant ScannedTo(input, i, At(nesting, escaped), delimiter, result, start)
    {
      var c := input[i];
      ScanMoves(input, i, At(nesting, escaped), delimiter, result, start);
      if escaped {
        escaped := false;
        continue;
      }
      if c == '\\' {
        escaped := true;
        continue;
      }
      if c == delimiter && nesting == 0 {
        result := result + [input[start..i]];
        start := i + 1;
      }
      if c == '<' {
        nesting := nesting + 1;
      } else if c == '>' {
        nesting := nesting - 1;
        if nesting < 0 {
          return Error;
        }
      }
    }
    ScanEnds(input, At(nesting, escaped), delimiter, result, start);
    if nesting != 0 {
      return Error;
    }
    r := Ok(result + [input[start..]]);
  }

  /** What has been found, when the pieces `done` end before `start`. */
  ghost function FoundIn(done: seq<string>, start: nat, findLast: bool): Option<nat>
    requires done != [] ==> start > 0
  {
    if done == [] then None else Some(if findLast then start - 1 else |done[0]|)
  }

  lemma FoundMoves(input: string, done: seq<string>, start: nat, i: nat, findLast: bool)
    requires (done != [] ==> start > 0) && (done == [] ==> start == 0) && start <= i <= |input|
    ensures
      var found := FoundIn(done, start, findLast);
      FoundIn(done + [input[start..i]], i + 1, findLast) == if findLast || found.None? then Some(i) else found
  {
  }

  method FindTopLevelChar(input: string, target: char, findLast: bool) returns (r: Result<Option<nat>>)
    ensures r == if !Balanced(input) then Error else Ok(if findLast then Last(input, target) else First(input, target))
  {
    var found: Option<nat> := None;
    var nesting := 0;
    var escaped := false;
    ghost var done: seq<string>, start: nat := [], 0;
    assert FoundIn(done, start, findLast) == None;
    hide Split, Run, First, Last, Balanced, ScannedTo, FoundIn;
    ScanBegins(input, target);
    for i := 0 to |input|
      invariant 0 <= nesting && start <= i
      invariant ScannedTo(input, i, At(nesting, escaped), target, done, start)
      invariant (done != [] ==> start > 0) && (done == [] ==> start == 0)
      invariant found == FoundIn(done, start, findLast)
    {
      var c := input[i];
      ScanMoves(input, i, At(nesting, escaped), target, done, start);
      if escaped {
        escaped := false;
        continue;
      }
      if c == '\\' {
        escaped := true;
        continue;
      }
      if c == target && nesting == 0 {
        FoundMoves(input, done, start, i, findLast);
        done, start := done + [input[start..i]], i + 1;
        if findLast || found.None? {
          found := Some(i);
        }
      }
      if c == '<' {
        nesting := nesting + 1;
      } else if c == '>' {
        nesting := nesting - 1;
        if nesting < 0 {
          return Error;
        }
      }
    }
    FoundAtEnd(input, At(nesting, escaped), target, done, start, findLast);
    if nesting != 0 {
      return Error;
    }
    r := Ok(found);
  }

  lemma FoundAtEnd(input: string, st: ScanState, delim: char, done: seq<string>, start: nat, findLast: bool)
    requires ScannedTo(input, |input|, st, delim, done, start) && (done != [] ==> start > 0)
    ensures Balanced(input) <==> st.nesting == 0
    ensures FoundIn(done, start, findLast) == if findLast then Last(input, delim) else First(input, delim)
  {
    hide ScannedTo, First, Last, Balanced;
    ScanEnds(input, st, delim, done, start);
  }

  method ParseTypeSignature(signature: string) returns (r: Result<TypeSpec>)
    ensures r == ParseType(signature)
    decreases |signature|, 0
  {
    if signature == "" {
      return Error;
    }
    if signature[0] == '~' {
      assert signature == "~" + signature[1..];
      r := ParseTypeParameter(signature[1..]);
      return;
    }
    var texts := CutType(signature);
    if texts.Error? {
      return Error;
    }
    var params := ParseEach(texts.value.pieces, |signature| - 1);
    if params.Error? {
      return Error;
    }
    var name := UnescapeText(texts.value.name);
    r := Build(name, params.value);
  }

  method ParseTypeParameter(paramName: string) returns (r: Result<TypeSpec>)
    ensures r == ParseType("~" + paramName)
  {
    assert ("~" + paramName)[1..] == paramName;
    if paramName == "" {
      return Error;
    }
    var less := FindTopLevelChar(paramName, '<', false);
    if less.Error? {
      return Error;
    }
    var comma := FindTopLevelChar(paramName, ',', false);
    if comma.Error? || less.value.Some? || comma.value.Some? {
      return Error;
    }
    var name := UnescapeText(paramName);
    r := Ok(Param(name));
  }

  method CutType(signature: string) returns (r: Result<Dissected>)
    requires signature != ""
    ensures r == Dissect(signature)
  {
    var less := FindTopLevelChar(signature, '<', false);
    if less.Error? {
      return Error;
    }
    if less.value.None? {
      return Ok(Dissected(signature, []));
    }
    if signature[|signature| - 1] != '>' {
      return Error;
    }
    var pieces := SplitTopLevel(signature[less.value.value + 1..|signature| - 1], ',');
    if pieces.Error? {
      return Error;
    }
    r := Ok(Dissected(signature[..less.value.value], pieces.value));
  }

  method ParseEach(pieces: seq<string>, ghost bound: nat) returns (r: Result<seq<TypeSpec>>)
    requires forall p | p in pieces :: |p| < bound
    ensures r == ParseTypes(pieces, bound)
    decreases bound, |pieces| + 1
  {
    var params: seq<TypeSpec> := [];
    assert pieces[0..] == pieces;
    PrecedeNothing(ParseTypes(pieces, bound));
    for i := 0 to |pieces|
      invariant ParseTypes(pieces, bound) == Precede(params, ParseTypes(pieces[i..], bound))
    {
      ParseStep(pieces, i, bound);
      var param := ParseTypeSignature(pieces[i]);
      if param.Error? {
        return Error;
      }
      PrecedeTwice(params, param.value, ParseTypes(pieces[i + 1..], bound));
      params := params + [param.value];
    }
    assert pieces[|pieces|..] == [] && params + [] == params;
    r := Ok(params);
  }

  function Precede(ts: seq<TypeSpec>, r: Result<seq<TypeSpec>>): Result<seq<TypeSpec>> {
    if r.Error? then Error else Ok(ts + r.value)
  }

  lemma PrecedeNothing(r: Result<seq<TypeSpec>>)
    ensures Precede([], r) == r
  {
    if r.Ok? { assert [] + r.value == r.value; }
  }

  lemma PrecedeTwice(ts: seq<TypeSpec>, t: TypeSpec, r: Result<seq<TypeSpec>>)
    ensures Precede(ts, Precede([t], r)) == Precede(ts + [t], r)
  {
    if r.Ok? { assert ts + ([t] + r.value) == ts + [t] + r.value; }
  }

  lemma ParseStep(pieces: seq<string>, i: nat, bound: nat)
    requires i < |pieces| && forall p | p in pieces :: |p| < bound
    ensures
      var t := ParseType(pieces[i]);
      ParseTypes(pieces[i..], bound)
      == if t.Error? then Error else Precede([t.value], ParseTypes(pieces[i + 1..], bound))
  {
    assert pieces[i..][0] == pieces[i] && pieces[i..][1..] == pieces[i + 1..];
  }

  method ParseTypeSpec(signature: string) returns (r: Result<TypeSpec>)
    ensures r == Signature.ParseTypeSpec(signature)
  {
    var stripped := StripUnescapedWhitespace(signature);
    r := ParseTypeSignature(stripped);
  }

  method ParseFunctionSignature(signature: string) returns (r: Result<ParsedOverload>)
    ensures r == Signature.ParseFunctionSignature(signature)
  {
    var stripped := StripUnescapedWhitespace(signature);
    var texts := CutOverload(stripped);
    if texts.Error? {
      return Error;
    }
    var argTypes: seq<TypeSpec> := [];
    if texts.value.receiver.Some? {
      var receiver := ParseTypeSignature(texts.value.receiver.value);
      if receiver.Error? {
        return Error;
      }
      argTypes := [receiver.value];
    }
    var name := UnescapeText(texts.value.name);
    if name == "" {
      return Error;
    }
    var args := ParseArgumentText(texts.value.args);
    if args.Error? {
      return Error;
    }
    r := Ok(ParsedOverload(name, texts.value.receiver.Some?, Function(Dyn, argTypes + args.value)));
  }

  method CutOverload(stripped: string) returns (r: Result<OverloadTexts>)
    ensures r == DissectOverload(stripped)
  {
    if stripped == "" {
      return Error;
    }
    var paren := FindTopLevelChar(stripped, '(', false);
    if paren.Error? || paren.value.None? || stripped[|stripped| - 1] != ')' {
      return Error;
    }
    var prefix := stripped[..paren.value.value];
    var argText := stripped[paren.value.value + 1..|stripped| - 1];
    var dot := FindTopLevelChar(prefix, '.', true);
    if dot.Error? {
      return Error;
    }
    if dot.value.Some? {
      r := Ok(OverloadTexts(Some(prefix[..dot.value.value]), prefix[dot.value.value + 1..], argText));
    } else {
      r := Ok(OverloadTexts(None, prefix, argText));
    }
  }

  method ParseArgumentText(argText: string) returns (r: Result<seq<TypeSpec>>)
    ensures r == ParseArguments(argText)
  {
    if argText == "" {
      return Ok([]);
    }
    var pieces := SplitTopLevel(argText, ',');
    if pieces.Error? {
      return Error;
    }
    JoinInvertsSplit(Start, argText, ',');
    r := ParseEach(pieces.value, |argText| + 1);
  }
}
