/** Printing a type or an overload and parsing the result: what comes back, and exactly when it is the same. */
module SignatureRoundTrip {
  import opened Results
  import opened TypeSpecs
  import opened SignatureText
  import opened Signature

  // ---------- what is read back ----------

  /** The parser's answer for a printed type, computed on the type instead of its text. */
  function ReadBack(t: TypeSpec): Result<TypeSpec>
    decreases Size(t)
  {
    PartsAreSmaller(t);
    if t.Param? then (if t.paramName == "" then Error else Ok(t))
    else BuildFrom(Head(t), ReadBacks(Parts(t)))
  }

  function BuildFrom(name: string, params: Result<seq<TypeSpec>>): Result<TypeSpec> {
    if params.Error? then Error else Build(name, params.value)
  }

  function ReadBacks(ts: seq<TypeSpec>): Result<seq<TypeSpec>>
    decreases Sizes(ts)
  {
    if ts == [] then Ok([])
    else
      var first :- ReadBack(ts[0]);
      var rest :- ReadBacks(ts[1..]);
      Ok([first] + rest)
  }

  /** Message types come back as parameterless abstract types, unset slots as `dyn`. */
  function Normal(t: TypeSpec): TypeSpec
    decreases Size(t)
  {
    match t
    case List(e) => List(Normal(OrDyn(e)))
    case Map(k, v) => Map(Normal(OrDyn(k)), Normal(OrDyn(v)))
    case Function(r, args) => Function(Normal(OrDyn(r)), Normals(args))
    case Message(n) => Abstract(n, [])
    case Type(i) => Type(Normal(i))
    case Abstract(n, ps) => Abstract(n, Normals(ps))
    case _ => t
  }

  function Normals(ts: seq<TypeSpec>): (ns: seq<TypeSpec>)
    ensures |ns| == |ts|
    decreases Sizes(ts)
  {
    if ts == [] then [] else [Normal(ts[0])] + Normals(ts[1..])
  }

  /** The type with the whitespace taken out of every name in it. */
  function StripNames(t: TypeSpec): TypeSpec
    decreases Size(t)
  {
    match t
    case List(e) => List(StripNames(e))
    case Map(k, v) => Map(StripNames(k), StripNames(v))
    case Function(r, args) => Function(StripNames(r), StripAllNames(args))
    case Message(n) => Message(RemoveWhite(n))
    case Param(n) => Param(RemoveWhite(n))
    case Type(i) => Type(StripNames(i))
    case Abstract(n, ps) => Abstract(RemoveWhite(n), StripAllNames(ps))
    case _ => t
  }

  function StripAllNames(ts: seq<TypeSpec>): (ss: seq<TypeSpec>)
    ensures |ss| == |ts|
    decreases Sizes(ts)
  {
    if ts == [] then [] else [StripNames(ts[0])] + StripAllNames(ts[1..])
  }

  /** Names the parser takes for something other than an abstract type. */
  predicate Reserved(name: string) {
    ParseBuiltinOrWrapper(name).Some? || name in {"type", "list", "map", "function"}
  }

  predicate ReadableHead(t: TypeSpec) {
    match t
    case Param(n) => n != "" && NoWhite(n)
    case Message(n) => n != "" && NoWhite(n) && !Reserved(n) && !HasDotDot(n)
    case Abstract(n, _) => n != "" && NoWhite(n) && !Reserved(n) && !HasDotDot(n)
    case _ => true
  }

  /** The caller's condition for a faithful round trip: it looks only at the names in the type. */
  predicate Readable(t: TypeSpec)
    decreases Size(t)
  {
    PartsAreSmaller(t);
    ReadableHead(t) && AllReadable(Parts(t))
  }

  predicate AllReadable(ts: seq<TypeSpec>)
    decreases Sizes(ts)
  {
    ts == [] || (Readable(ts[0]) && AllReadable(ts[1..]))
  }

  // ---------- printed types are inert for the scanner ----------

  /** Scanned at depth `n`, the text `a` changes no state and holds no piece boundary. */
  predicate Inert(n: nat, a: string, rest: string, c: char) {
    && Run(At(n, false), a + rest) == Run(At(n, false), rest)
    && Split(At(n, false), a + rest, c) == Prepend(a, Split(At(n, false), rest, c))
  }

  lemma InertConcat(n: nat, a: string, b: string, rest: string, c: char)
    requires Inert(n, a, b + rest, c) && Inert(n, b, rest, c)
    ensures Inert(n, a + b, rest, c)
  {
    assert a + b + rest == a + (b + rest);
    PrependTwice(a, b, Split(At(n, false), rest, c));
  }

  lemma InertEmpty(n: nat, rest: string, c: char)
    ensures Inert(n, "", rest, c)
  {
    assert "" + rest == rest;
    assert "" + Split(At(n, false), rest, c)[0] == Split(At(n, false), rest, c)[0];
  }

  /** A character that is no bracket and no backslash, and no delimiter at this depth. */
  lemma InertChar(n: nat, x: char, rest: string, c: char)
    requires x !in {'\\', '<', '>'} && (x != c || n > 0)
    ensures Inert(n, [x], rest, c)
  {
    assert ([x] + rest)[1..] == rest;
  }

  /** The text `"<" + inner + ">"` is inert when `inner` is inert one level down. */
  lemma InertBrackets(n: nat, inner: string, rest: string, c: char)
    requires c in {',', '('}
    requires Inert(n + 1, inner, ">" + rest, c)
    ensures Inert(n, "<" + inner + ">", rest, c)
  {
    var s := "<" + inner + ">" + rest;
    var closed := Split(At(n, false), rest, c);
    assert s[1..] == inner + (">" + rest);
    assert (">" + rest)[1..] == rest;
    assert Split(At(n + 1, false), ">" + rest, c) == Prepend(">", closed);
    PrependTwice(inner, ">", closed);
    PrependTwice("<", inner + ">", closed);
    assert "<" + (inner + ">") == "<" + inner + ">";
  }

  lemma {:induction false} InertDesc(n: nat, t: TypeSpec, rest: string, c: char)
    requires c in {',', '('}
    ensures Inert(n, Desc(t), rest, c)
    decreases Size(t), 1
  {
    PartsAreSmaller(t);
    if t.Param? {
      var name := Escape(t.paramName, true);
      SkipEscaped(n, t.paramName, true, rest, c);
      InertChar(n, '~', name + rest, c);
      InertConcat(n, "~", name, rest, c);
    } else if Parts(t) == [] {
      assert Desc(t) == Escape(Head(t), false);
      SkipEscaped(n, Head(t), false, rest, c);
    } else {
      var name := Escape(Head(t), false);
      var inner := Join(Descs(Parts(t)), ',');
      InertJoined(n + 1, Parts(t), ">" + rest, c);
      InertBrackets(n, inner, rest, c);
      SkipEscaped(n, Head(t), false, "<" + inner + ">" + rest, c);
      InertConcat(n, name, "<" + inner + ">", rest, c);
    }
  }

  /** A printed parameter list is inert where its own commas do not count. */
  lemma {:induction false} InertJoined(n: nat, ts: seq<TypeSpec>, rest: string, c: char)
    requires c == '(' || (c == ',' && n > 0)
    ensures Inert(n, Join(Descs(ts), ','), rest, c)
    decreases Sizes(ts), 0
  {
    if ts == [] {
      InertEmpty(n, rest, c);
    } else if |ts| == 1 {
      assert Descs(ts) == [Desc(ts[0])];
      InertDesc(n, ts[0], rest, c);
    } else {
      var first, more := Desc(ts[0]), Join(Descs(ts[1..]), ',');
      JoinedCons(ts);
      InertJoined(n, ts[1..], rest, c);
      InertChar(n, ',', more + rest, c);
      InertConcat(n, ",", more, rest, c);
      InertDesc(n, ts[0], "," + more + rest, c);
      InertConcat(n, first, "," + more, rest, c);
    }
  }

  /** Splitting a printed parameter list at its commas gives the printed parameters. */
  lemma {:induction false} SplitJoined(ts: seq<TypeSpec>)
    requires ts != []
    ensures Balanced(Join(Descs(ts), ','))
    ensures Split(Start, Join(Descs(ts), ','), ',') == Descs(ts)
    decreases |ts|
  {
    var text := Join(Descs(ts), ',');
    assert text + "" == text;
    InertJoined(0, ts, "", '(');
    if |ts| == 1 {
      assert Descs(ts) == [Desc(ts[0])];
      InertDesc(0, ts[0], "", ',');
    } else {
      var more := Join(Descs(ts[1..]), ',');
      JoinedCons(ts);
      InertDesc(0, ts[0], "," + more, ',');
      SplitJoined(ts[1..]);
      assert ("," + more)[1..] == more;
      assert Split(Start, "," + more, ',') == [[]] + Descs(ts[1..]);
      assert Desc(ts[0]) + "" == Desc(ts[0]);
      assert Descs(ts) == [Desc(ts[0])] + Descs(ts[1..]);
    }
  }

  // ---------- the parser reads a printed type as ReadBack says ----------

  /** What the scanner sees in a printed type other than a parameter: where the name ends, what is inside. */
  lemma ScanDesc(t: TypeSpec)
    requires !t.Param?
    ensures Balanced(Desc(t))
    ensures First(Desc(t), '<') == if Parts(t) == [] then None else Some(|Escape(Head(t), false)|)
    ensures Desc(t) != "" ==> Desc(t)[0] != '~'
  {
    var name := Escape(Head(t), false);
    var tail := if Parts(t) == [] then "" else "<" + Join(Descs(Parts(t)), ',') + ">";
    assert Desc(t) == name + tail && Desc(t) + "" == Desc(t);
    InertDesc(0, t, "", ',');
    SkipEscaped(0, Head(t), false, tail, '<');
  }

  lemma BracketedDesc(t: TypeSpec)
    requires !t.Param? && Parts(t) != []
    ensures Desc(t) == Escape(Head(t), false) + ("<" + (Join(Descs(Parts(t)), ',') + ">"))
  {
  }

  /** A printed type other than a parameter falls apart into its head and its printed parts. */
  lemma DissectDesc(t: TypeSpec)
    requires !t.Param? && Desc(t) != ""
    ensures Desc(t)[0] != '~'
    ensures Dissect(Desc(t)) == Ok(Dissected(Escape(Head(t), false), Descs(Parts(t))))
  {
    ScanDesc(t);
    if Parts(t) == [] {
      assert Desc(t) == Escape(Head(t), false);
    } else {
      SplitJoined(Parts(t));
      BracketedDesc(t);
      DissectBrackets(Escape(Head(t), false), Join(Descs(Parts(t)), ','));
    }
  }

  lemma DissectBrackets(name: string, inner: string)
    requires Balanced(inner) && Balanced(name + ("<" + (inner + ">")))
    requires First(name + ("<" + (inner + ">")), '<') == Some(|name|)
    ensures Dissect(name + ("<" + (inner + ">"))) == Ok(Dissected(name, Split(Start, inner, ',')))
  {
    var sig := name + ("<" + (inner + ">"));
    assert sig[..|name|] == name;
    assert sig[|name| + 1..|sig| - 1] == inner;
  }

  lemma ParseDissected(sig: string)
    requires sig != "" && sig[0] != '~' && Dissect(sig).Ok?
    ensures var d := Dissect(sig).value;
      ParseType(sig) == BuildFrom(Unescape(d.name), ParseTypes(d.pieces, |sig| - 1))
  {
    hide Build;
  }

  lemma {:induction false} ParseDesc(t: TypeSpec)
    ensures ParseType(Desc(t)) == ReadBack(t)
    decreases Size(t), 1
  {
    hide Build;
    if t.Param? {
      ParseParam(t);
    } else if Desc(t) == "" {
      EmptyDesc(t);
    } else {
      ParseParts(t);
      ParseDescFromParts(t);
    }
  }

  lemma {:induction false} ParseParts(t: TypeSpec)
    requires !t.Param? && Desc(t) != ""
    ensures forall p | p in Descs(Parts(t)) :: |p| < |Desc(t)| - 1
    ensures ParseTypes(Descs(Parts(t)), |Desc(t)| - 1) == ReadBacks(Parts(t))
    decreases Size(t), 0
  {
    hide Desc, Descs, Dissect, ParseType, Escape, Build;
    PartsAreSmaller(t);
    DissectDesc(t);
    assert forall p | p in Dissect(Desc(t)).value.pieces :: |p| < |Desc(t)| - 1;
    ParseDescs(Parts(t), |Desc(t)| - 1);
  }

  lemma ParseDescFromParts(t: TypeSpec)
    requires !t.Param? && Desc(t) != ""
    requires forall p | p in Descs(Parts(t)) :: |p| < |Desc(t)| - 1
    requires ParseTypes(Descs(Parts(t)), |Desc(t)| - 1) == ReadBacks(Parts(t))
    ensures ParseType(Desc(t)) == ReadBack(t)
  {
    hide Desc, Descs, Dissect, ParseType, Escape, Build;
    DissectDesc(t);
    UnescapeInvertsEscape(Head(t), false);
    ParseDissected(Desc(t));
  }

  lemma EmptyDesc(t: TypeSpec)
    requires !t.Param? && Desc(t) == ""
    ensures ReadBack(t).Error?
  {
    hide ParseBuiltinOrWrapper;
    EmptyIsNotBuiltin();
    assert Head(t) == "" && Parts(t) == [];
  }

  lemma EmptyIsNotBuiltin()
    ensures ParseBuiltinOrWrapper("").None?
  {
  }

  lemma ParseParam(t: TypeSpec)
    requires t.Param?
    ensures ParseType(Desc(t)) == ReadBack(t)
  {
    hide Build;
    var text := Escape(t.paramName, true);
    assert Desc(t)[1..] == text && text + "" == text;
    UnescapeInvertsEscape(t.paramName, true);
    SkipEscaped(0, t.paramName, true, "", '<');
    SkipEscaped(0, t.paramName, true, "", ',');
  }

  lemma {:induction false} ParseDescs(ts: seq<TypeSpec>, bound: nat)
    requires forall d | d in Descs(ts) :: |d| < bound
    ensures ParseTypes(Descs(ts), bound) == ReadBacks(ts)
    decreases Sizes(ts), 2
  {
    hide Build;
    if ts != [] {
      assert Descs(ts)[0] == Desc(ts[0]) && Descs(ts)[1..] == Descs(ts[1..]);
      ParseDesc(ts[0]);
      ParseDescs(ts[1..], bound);
    }
  }

  // ---------- stripping whitespace from a printed type strips it from the names ----------

  lemma {:induction false} StripNamesParts(t: TypeSpec)
    ensures Parts(StripNames(t)) == StripAllNames(Parts(t))
    ensures t.Param? || Head(StripNames(t)) == if t.Message? || t.Abstract? then RemoveWhite(Head(t)) else Head(t)
  {
    match t
    case List(e) => assert StripAllNames([OrDyn(e)]) == [StripNames(OrDyn(e))];
    case Map(k, v) =>
      assert [OrDyn(k), OrDyn(v)][1..] == [OrDyn(v)];
      assert StripAllNames([OrDyn(v)]) == [StripNames(OrDyn(v))];
    case Function(r, args) => assert ([OrDyn(r)] + args)[1..] == args;
    case Type(i) => assert StripAllNames([i]) == [StripNames(i)];
    case _ =>
  }

  /** The printer's own keywords hold no whitespace. */
  lemma KeywordsHaveNoWhite(t: TypeSpec)
    requires Keyword(t)
    ensures NoWhite(Head(t))
  {
    match t
    case Wrapper(p) => WrapperNamesHaveNoWhite(p);
    case _ =>
  }

  lemma WrapperNamesHaveNoWhite(p: PrimitiveType)
    ensures NoWhite(WrapperName(p))
  {
    match p { case Bool => case Int64 => case Uint64 => case Double => case String => case _ => }
  }

  /** A name is stripped to its letters; a keyword is kept. */
  lemma StripHead(t: TypeSpec, rest: string)
    requires !t.Param?
    ensures StripsTo(Escape(Head(t), false), Escape(Head(StripNames(t)), false), rest)
  {
    StripNamesParts(t);
    StripEscaped(Head(t), false, rest);
    if Keyword(t) {
      KeywordsHaveNoWhite(t);
      RemoveWhiteKeeps(Head(t));
    }
  }

  lemma {:induction false} StripDesc(t: TypeSpec, rest: string)
    ensures StripsTo(Desc(t), Desc(StripNames(t)), rest)
    decreases Size(t), 1
  {
    hide Head;
    PartsAreSmaller(t);
    if t.Param? {
      var name := Escape(t.paramName, true);
      StripPlain('~', name + rest);
      StripEscaped(t.paramName, true, rest);
      StripsConcat("~", "~", name, Escape(RemoveWhite(t.paramName), true), rest);
    } else {
      StripNamesParts(t);
      var name, name' := Escape(Head(t), false), Escape(Head(StripNames(t)), false);
      if Parts(t) == [] {
        assert Desc(t) == name && Desc(StripNames(t)) == name';
        StripHead(t, rest);
      } else {
        var inner, inner' := Join(Descs(Parts(t)), ','), Join(Descs(StripAllNames(Parts(t))), ',');
        StripPlain('>', rest);
        StripJoined(Parts(t), ">" + rest);
        StripsConcat(inner, inner', ">", ">", rest);
        StripPlain('<', inner + ">" + rest);
        StripsConcat("<", "<", inner + ">", inner' + ">", rest);
        StripHead(t, "<" + (inner + ">") + rest);
        StripsConcat(name, name', "<" + (inner + ">"), "<" + (inner' + ">"), rest);
        BracketedDesc(t);
        BracketedDesc(StripNames(t));
      }
    }
  }

  lemma {:induction false} StripJoined(ts: seq<TypeSpec>, rest: string)
    ensures StripsTo(Join(Descs(ts), ','), Join(Descs(StripAllNames(ts)), ','), rest)
    decreases Sizes(ts), 2
  {
    if ts == [] {
      assert "" + rest == rest;
      assert "" + Strip(rest) == Strip(rest);
    } else if |ts| == 1 {
      assert Descs(ts) == [Desc(ts[0])];
      assert StripAllNames(ts) == [StripNames(ts[0])];
      assert Descs(StripAllNames(ts)) == [Desc(StripNames(ts[0]))];
      StripDesc(ts[0], rest);
    } else {
      var more, more' := Join(Descs(ts[1..]), ','), Join(Descs(StripAllNames(ts[1..])), ',');
      JoinedCons(ts);
      JoinedCons(StripAllNames(ts));
      assert StripAllNames(ts)[1..] == StripAllNames(ts[1..]);
      StripJoined(ts[1..], rest);
      StripPlain(',', more + rest);
      StripsConcat(",", ",", more, more', rest);
      StripDesc(ts[0], "," + more + rest);
      StripsConcat(Desc(ts[0]), Desc(StripNames(ts[0])), "," + more, "," + more', rest);
    }
  }

  // ---------- the exact condition of the round trip ----------

  /** `t` with its parts replaced, in the parser's form. */
  function WithParts(t: TypeSpec, ps: seq<TypeSpec>): TypeSpec
    requires |ps| == |Parts(t)|
  {
    match t
    case List(_) => List(ps[0])
    case Map(_, _) => Map(ps[0], ps[1])
    case Function(_, _) => Function(ps[0], ps[1..])
    case Message(n) => Abstract(n, [])
    case Type(_) => Type(ps[0])
    case Abstract(n, _) => Abstract(n, ps)
    case _ => t
  }

  lemma NormalParts(t: TypeSpec)
    ensures Normal(t) == WithParts(t, Normals(Parts(t)))
  {
    match t
    case Map(k, v) => assert [OrDyn(k), OrDyn(v)][1..] == [OrDyn(v)];
    case Function(r, args) => assert ([OrDyn(r)] + args)[1..] == args;
    case _ =>
  }

  /** Wrapper names are longer than the composite keywords. */
  lemma WrapperNamesAreLong(name: string)
    ensures ParseWrapper(name).Some? ==> |name| > 10
  {
  }

  lemma WrapperIsNotBuiltin(p: PrimitiveType)
    requires p != PrimitiveUnspecified
    ensures ParseBuiltin(WrapperName(p)).None?
  {
    var name := WrapperName(p);
    assert |name| > 3 && name[|name| - 4] == 'p';
  }

  lemma WrapperIsParsed(p: PrimitiveType)
    requires p != PrimitiveUnspecified
    ensures ParseWrapper(WrapperName(p)) == Some(Wrapper(p))
  {
    hide ParseWrapper;
    hide WrapperName;
    if p.Double? || p.String? {
      LongWrapperIsParsed(p);
    } else if p.Bytes? {
      BytesWrapperIsParsed();
    } else {
      ShortWrapperIsParsed(p);
    }
  }

  lemma LongWrapperIsParsed(p: PrimitiveType)
    requires p.Double? || p.String?
    ensures ParseWrapper(WrapperName(p)) == Some(Wrapper(p))
  {
    match p { case Double => case String => }
  }

  lemma BytesWrapperIsParsed()
    ensures ParseWrapper(WrapperName(Bytes)) == Some(Wrapper(Bytes))
  {
  }

  lemma ShortWrapperIsParsed(p: PrimitiveType)
    requires p.Bool? || p.Int64? || p.Uint64?
    ensures ParseWrapper(WrapperName(p)) == Some(Wrapper(p))
  {
    match p { case Bool => case Int64 => case Uint64 => }
  }

  lemma BuildWrapper(p: PrimitiveType)
    requires p != PrimitiveUnspecified
    ensures Build(WrapperName(p), []) == Ok(Wrapper(p))
  {
    hide ParseBuiltin;
    hide ParseWrapper;
    hide WrapperName;
    hide HasDotDot;
    WrapperIsNotBuiltin(p);
    WrapperIsParsed(p);
  }

  lemma BuildPrimitive(p: PrimitiveType)
    requires p != PrimitiveUnspecified
    ensures Build(PrimitiveName(p), []) == Ok(Primitive(p))
  {
    match p { case Bool => case Int64 => case Uint64 => case Double => case String => case Bytes => }
  }

  lemma BuildLeaf(t: TypeSpec)
    requires PrintableHead(t) && Keyword(t) && Parts(t) == []
    ensures Build(Head(t), []) == Ok(t)
  {
    match t
    case Primitive(p) => BuildPrimitive(p);
    case Wrapper(p) => BuildWrapper(p);
    case WellKnown(w) => match w { case Any => case Timestamp => case Duration => }
    case Null =>
    case Dyn =>
  }

  /** The composite keywords are none of the builtin names. */
  lemma ListIsNotBuiltin()
    ensures ParseBuiltinOrWrapper("list").None?
  {
    hide ParseWrapper;
    WrapperNamesAreLong("list");
  }

  lemma MapIsNotBuiltin()
    ensures ParseBuiltinOrWrapper("map").None?
  {
    hide ParseWrapper;
    WrapperNamesAreLong("map");
  }

  lemma FunctionIsNotBuiltin()
    ensures ParseBuiltinOrWrapper("function").None?
  {
    hide ParseWrapper;
    WrapperNamesAreLong("function");
  }

  lemma TypeIsNotBuiltin()
    ensures ParseBuiltinOrWrapper("type").None?
  {
    hide ParseWrapper;
    WrapperNamesAreLong("type");
  }

  lemma BuildComposite(t: TypeSpec, ps: seq<TypeSpec>)
    requires Keyword(t) && |ps| == |Parts(t)| > 0
    ensures Build(Head(t), ps) == Ok(WithParts(t, ps))
  {
    hide ParseBuiltinOrWrapper;
    match t
    case List(_) => ListIsNotBuiltin();
    case Map(_, _) => MapIsNotBuiltin();
    case Function(_, _) => FunctionIsNotBuiltin();
    case Type(_) => TypeIsNotBuiltin();
  }

  /** Types printed with one of the printer's keywords are rebuilt around the parameters read. */
  lemma BuildKeyword(t: TypeSpec, ps: seq<TypeSpec>)
    requires PrintableHead(t) && Keyword(t) && |ps| == |Parts(t)|
    ensures Build(Head(t), ps) == Ok(WithParts(t, ps))
  {
    if Parts(t) == [] {
      assert ps == [];
      BuildLeaf(t);
    } else {
      BuildComposite(t, ps);
    }
  }

  predicate DefaultParts(ps: seq<TypeSpec>) {
    ps == [] || ps == [Dyn] || ps == [Dyn, Dyn] || ps == [Primitive(String), Dyn]
  }

  lemma BuiltinShape(name: string)
    ensures var b := ParseBuiltinOrWrapper(name);
      b.Some? ==>
        && Keyword(b.value) && PrintableHead(b.value) && DefaultParts(Parts(b.value))
        && WithParts(b.value, Parts(b.value)) == b.value
  {
    hide ParseBuiltin, ParseWrapper;
  }

  /** An abstract type is built exactly from a name with no other meaning. */
  lemma BuildNamed(name: string, ps: seq<TypeSpec>, t: TypeSpec)
    requires t.Abstract?
    ensures Build(name, ps) == Ok(t) <==>
            t == Abstract(name, ps) && name != "" && !Reserved(name) && !HasDotDot(name)
  {
    hide ParseBuiltinOrWrapper;
    BuiltinShape(name);
  }

  /** A readable head is rebuilt as it was. */
  lemma BuildReadable(t: TypeSpec, ps: seq<TypeSpec>)
    requires PrintableHead(t) && ReadableHead(t) && !t.Param? && |ps| == |Parts(t)|
    ensures Build(Head(t), ps) == Ok(WithParts(t, ps))
  {
    if Keyword(t) {
      BuildKeyword(t, ps);
    } else {
      assert t.Message? ==> ps == [];
      BuildNamed(Head(t), ps, WithParts(t, ps));
    }
  }

  lemma WithPartsInjective(t: TypeSpec, ps: seq<TypeSpec>, qs: seq<TypeSpec>)
    requires |ps| == |qs| == |Parts(t)| && WithParts(t, ps) == WithParts(t, qs)
    ensures ps == qs
  {
    if t.Function? { assert ps == [ps[0]] + ps[1..] && qs == [qs[0]] + qs[1..]; }
  }

  /** Only a readable head is rebuilt as it was, and then its parts were too. */
  lemma BuildExact(t: TypeSpec, ps: seq<TypeSpec>)
    requires PrintableHead(t) && !t.Param? && |ps| == |Parts(t)|
    requires Build(Head(StripNames(t)), ps) == Ok(WithParts(t, Normals(Parts(t))))
    ensures ReadableHead(t) && ps == Normals(Parts(t))
  {
    StripNamesParts(t);
    if Keyword(t) {
      BuildKeyword(t, ps);
      WithPartsInjective(t, ps, Normals(Parts(t)));
    } else {
      RemoveWhiteKeeps(Head(t));
      BuildNamed(RemoveWhite(Head(t)), ps, WithParts(t, Normals(Parts(t))));
    }
  }

  lemma {:induction false} ReadBackReadable(t: TypeSpec)
    requires Printable(t) && Readable(t)
    ensures ReadBack(t) == Ok(Normal(t)) && StripNames(t) == t
    decreases Size(t), 0
  {
    hide Build;
    PartsAreSmaller(t);
    NormalParts(t);
    if t.Param? {
      RemoveWhiteKeeps(t.paramName);
    } else {
      ReadBacksReadable(Parts(t));
      BuildReadable(t, Normals(Parts(t)));
      StripReadable(t);
    }
  }

  lemma StripReadable(t: TypeSpec)
    requires Readable(t) && StripAllNames(Parts(t)) == Parts(t)
    ensures StripNames(t) == t
  {
    RemoveWhiteKeeps(Head(t));
    match t
    case List(e) => assert StripAllNames(Parts(t))[0] == StripNames(OrDyn(e));
    case Map(k, v) =>
      assert [OrDyn(k), OrDyn(v)][1..] == [OrDyn(v)];
      assert StripAllNames(Parts(t)) == [StripNames(OrDyn(k)), StripNames(OrDyn(v))];
    case Function(r, args) =>
      assert ([OrDyn(r)] + args)[1..] == args;
      assert StripAllNames(Parts(t))[1..] == StripAllNames(args);
    case _ =>
  }

  lemma {:induction false} ReadBacksReadable(ts: seq<TypeSpec>)
    requires AllPrintable(ts) && AllReadable(ts)
    ensures ReadBacks(ts) == Ok(Normals(ts)) && StripAllNames(ts) == ts
    decreases Sizes(ts), 1
  {
    hide Build;
    if ts != [] {
      ReadBackReadable(ts[0]);
      ReadBacksReadable(ts[1..]);
    }
  }

  lemma {:induction false} ReadBackExact(t: TypeSpec)
    requires Printable(t) && ReadBack(StripNames(t)) == Ok(Normal(t))
    ensures Readable(t)
    decreases Size(t), 0
  {
    hide Build;
    PartsAreSmaller(t);
    NormalParts(t);
    if t.Param? {
      RemoveWhiteKeeps(t.paramName);
    } else {
      StripNamesParts(t);
      var ps := ReadBacks(StripAllNames(Parts(t))).value;
      ReadBacksLength(StripAllNames(Parts(t)));
      BuildExact(t, ps);
      ReadBacksExact(Parts(t));
    }
  }

  lemma ReadBacksLength(ts: seq<TypeSpec>)
    ensures ReadBacks(ts).Ok? ==> |ReadBacks(ts).value| == |ts|
  {
    hide Build;
  }

  lemma {:induction false} ReadBacksExact(ts: seq<TypeSpec>)
    requires AllPrintable(ts) && ReadBacks(StripAllNames(ts)) == Ok(Normals(ts))
    ensures AllReadable(ts)
    decreases Sizes(ts), 1
  {
    hide Build;
    if ts != [] {
      assert StripAllNames(ts)[1..] == StripAllNames(ts[1..]);
      assert Normals(ts)[1..] == Normals(ts[1..]);
      ReadBackExact(ts[0]);
      ReadBacksExact(ts[1..]);
    }
  }

  /** The type round trip: a printed type parses back to its normal form exactly when its names are readable. */
  lemma TypeRoundTrip(t: TypeSpec)
    requires MakeTypeSpecSignature(t).Ok?
    ensures ParseTypeSpec(MakeTypeSpecSignature(t).value) == Ok(Normal(t)) <==> Readable(t)
  {
    hide Build;
    ParsePrinted(t);
    if Readable(t) {
      ReadBackReadable(t);
    } else if ReadBack(StripNames(t)) == Ok(Normal(t)) {
      ReadBackExact(t);
    }
  }

  /** For every type, readable or not, what the parser makes of its printed form. */
  lemma ParsePrinted(t: TypeSpec)
    ensures ParseTypeSpec(Desc(t)) == ReadBack(StripNames(t))
  {
    hide Build;
    assert Desc(t) + "" == Desc(t);
    StripDesc(t, "");
    assert Desc(StripNames(t)) + "" == Desc(StripNames(t));
    ParseDesc(StripNames(t));
  }

  // ---------- what a signature tells ----------

  /** All that a description tells of a type: its name, and that much of its parts; or that it is a parameter. */
  function Outline(t: TypeSpec): TypeSpec
    decreases Size(t)
  {
    PartsAreSmaller(t);
    if t.Param? then t else Abstract(Head(t), Outlines(Parts(t)))
  }

  function Outlines(ts: seq<TypeSpec>): (os: seq<TypeSpec>)
    ensures |os| == |ts|
    decreases Sizes(ts)
  {
    if ts == [] then [] else [Outline(ts[0])] + Outlines(ts[1..])
  }

  lemma {:induction false} OutlinePrintsAlike(t: TypeSpec)
    ensures Desc(Outline(t)) == Desc(t)
    decreases Size(t)
  {
    hide Head;
    hide Parts;
    OutlineHead(t);
    PartsAreSmaller(t);
    OutlinesPrintAlike(Parts(t));
  }

  lemma OutlineHead(t: TypeSpec)
    ensures Outline(t).Param? <==> t.Param?
    ensures t.Param? ==> Outline(t) == t
    ensures !t.Param? ==> Head(Outline(t)) == Head(t) && Parts(Outline(t)) == Outlines(Parts(t))
  {
    hide PrimitiveName;
    hide WrapperName;
    hide WellKnownName;
  }

  lemma {:induction false} OutlinesPrintAlike(ts: seq<TypeSpec>)
    ensures Descs(Outlines(ts)) == Descs(ts)
    decreases Sizes(ts)
  {
    if ts != [] {
      OutlinePrintsAlike(ts[0]);
      OutlinesPrintAlike(ts[1..]);
      assert Outlines(ts)[1..] == Outlines(ts[1..]);
    }
  }

  lemma {:induction false} DescTellsOutline(t: TypeSpec, u: TypeSpec)
    requires Desc(t) == Desc(u)
    ensures Outline(t) == Outline(u)
    decreases Size(t)
  {
    hide Head;
    hide Parts;
    hide Dissect;
    hide Escape;
    PartsAreSmaller(t);
    DescOfParam(t);
    DescOfParam(u);
    if t.Param? {
      ParamsDiffer(t, u);
    } else if Desc(t) == "" {
      EmptyName(t);
      EmptyName(u);
    } else {
      DissectDesc(t);
      DissectDesc(u);
      UnescapeInvertsEscape(Head(t), false);
      UnescapeInvertsEscape(Head(u), false);
      DescsTellOutlines(Parts(t), Parts(u));
    }
  }

  lemma DescOfParam(t: TypeSpec)
    ensures t.Param? <==> Desc(t) != "" && Desc(t)[0] == '~'
  {
    hide Dissect;
    if !t.Param? && Desc(t) != "" {
      DissectDesc(t);
    }
  }

  lemma ParamsDiffer(t: TypeSpec, u: TypeSpec)
    requires t.Param? && u.Param? && Desc(t) == Desc(u)
    ensures t == u
  {
    hide Escape;
    UnescapeInvertsEscape(t.paramName, true);
    UnescapeInvertsEscape(u.paramName, true);
    assert Desc(t)[1..] == Escape(t.paramName, true) && Desc(u)[1..] == Escape(u.paramName, true);
  }

  lemma EmptyName(t: TypeSpec)
    requires !t.Param? && Desc(t) == ""
    ensures Head(t) == "" && Parts(t) == []
  {
  }

  lemma {:induction false} DescsTellOutlines(ts: seq<TypeSpec>, us: seq<TypeSpec>)
    requires Descs(ts) == Descs(us)
    ensures Outlines(ts) == Outlines(us)
    decreases Sizes(ts)
  {
    hide Desc;
    hide Outline;
    if ts != [] {
      DescsCons(ts);
      DescsCons(us);
      DescTellsOutline(ts[0], us[0]);
      DescsTellOutlines(ts[1..], us[1..]);
    }
  }

  lemma DescsCons(ts: seq<TypeSpec>)
    requires ts != []
    ensures Descs(ts)[0] == Desc(ts[0]) && Descs(ts)[1..] == Descs(ts[1..])
  {
  }

  /** Types have one signature exactly when they have one outline; readable ones then have one normal form. */
  lemma SignaturesIdentifyTypes(t: TypeSpec, u: TypeSpec)
    requires MakeTypeSpecSignature(t).Ok? && MakeTypeSpecSignature(u).Ok?
    ensures MakeTypeSpecSignature(t) == MakeTypeSpecSignature(u) <==> Outline(t) == Outline(u)
    ensures Readable(t) && Readable(u) && MakeTypeSpecSignature(t) == MakeTypeSpecSignature(u)
      ==> Normal(t) == Normal(u)
  {
    hide Desc;
    hide Outline;
    hide Readable;
    OutlinePrintsAlike(t);
    OutlinePrintsAlike(u);
    if Desc(t) == Desc(u) {
      DescTellsOutline(t, u);
      TypeRoundTrip(t);
      TypeRoundTrip(u);
    }
  }

  // ---------- the parser's own output ----------

  /** `t` prints, reads back as itself, and is in normal form. */
  predicate Fixed(t: TypeSpec) {
    Printable(t) && ReadBack(t) == Ok(t) && Normal(t) == t
  }

  predicate AllFixed(ts: seq<TypeSpec>) {
    AllPrintable(ts) && ReadBacks(ts) == Ok(ts) && Normals(ts) == ts
  }

  lemma AllFixedCons(t: TypeSpec, ts: seq<TypeSpec>)
    requires Fixed(t) && AllFixed(ts)
    ensures AllFixed([t] + ts)
  {
    hide Build;
    assert ([t] + ts)[1..] == ts;
  }

  lemma DefaultsAreFixed()
    ensures AllFixed([]) && AllFixed([Dyn]) && AllFixed([Dyn, Dyn]) && AllFixed([Primitive(String), Dyn])
  {
    hide ParseBuiltinOrWrapper;
    BuildLeaf(Dyn);
    BuildLeaf(Primitive(String));
    AllFixedCons(Dyn, []);
    assert [Dyn] + [] == [Dyn];
    AllFixedCons(Dyn, [Dyn]);
    assert [Dyn] + [Dyn] == [Dyn, Dyn];
    AllFixedCons(Primitive(String), [Dyn]);
    assert [Primitive(String)] + [Dyn] == [Primitive(String), Dyn];
  }

  /** What Build can answer: an abstract type as named, or a keyword type whose parts were read. */
  lemma BuildShape(name: string, ps: seq<TypeSpec>)
    requires Build(name, ps).Ok? && AllPrintable(ps)
    ensures var t := Build(name, ps).value;
      || t == Abstract(name, ps)
      || (Keyword(t) && PrintableHead(t) && WithParts(t, Parts(t)) == t
          && (Parts(t) == ps || DefaultParts(Parts(t))))
  {
    hide ParseBuiltinOrWrapper;
    BuiltinShape(name);
    if ParseBuiltinOrWrapper(name).None? && ps != [] {
      assert !ps[0].Unset?;
      if |ps| == 2 { assert AllPrintable(ps[1..]) && Printable(ps[1..][0]) && !ps[1].Unset?; }
      assert [ps[0]] + ps[1..] == ps;
    }
  }

  lemma BuildFixed(name: string, ps: seq<TypeSpec>)
    requires Build(name, ps).Ok? && AllFixed(ps)
    ensures Fixed(Build(name, ps).value)
  {
    hide ParseBuiltinOrWrapper;
    var t := Build(name, ps).value;
    BuildShape(name, ps);
    NormalParts(t);
    if t != Abstract(name, ps) {
      DefaultsAreFixed();
      BuildKeyword(t, Parts(t));
    }
  }

  lemma ParameterIsFixed(name: string)
    requires name != ""
    ensures Fixed(Param(name))
  {
  }

  lemma {:induction false} ParsedIsFixed(s: string)
    ensures ParseType(s).Ok? ==> Fixed(ParseType(s).value)
    decreases |s|, 0
  {
    hide Build, Fixed, Dissect, First, Balanced;
    if ParseType(s).Error? {
      return;
    }
    if s[0] == '~' {
      UnescapeKeepsNonEmpty(s[1..], false);
      ParameterIsFixed(Unescape(s[1..]));
    } else {
      var d := Dissect(s).value;
      ParsedAreFixed(d.pieces, |s| - 1);
      BuildFixed(Unescape(d.name), ParseTypes(d.pieces, |s| - 1).value);
    }
  }

  lemma {:induction false} ParsedAreFixed(pieces: seq<string>, bound: nat)
    requires forall p | p in pieces :: |p| < bound
    ensures ParseTypes(pieces, bound).Ok? ==> AllFixed(ParseTypes(pieces, bound).value)
    decreases bound, |pieces|
  {
    hide Build;
    if pieces != [] && ParseTypes(pieces, bound).Ok? {
      ParsedIsFixed(pieces[0]);
      ParsedAreFixed(pieces[1..], bound);
      AllFixedCons(ParseType(pieces[0]).value, ParseTypes(pieces[1..], bound).value);
    }
  }

  /**
   * Whatever the parser accepts can be printed, and the printed form parses to the same type
   * exactly when no name in it holds whitespace (which only an escaped blank can put there).
   */
  lemma AcceptedTypesReprint(s: string)
    ensures ParseTypeSpec(s).Ok? ==>
      var t := ParseTypeSpec(s).value;
      && MakeTypeSpecSignature(t).Ok?
      && (ParseTypeSpec(MakeTypeSpecSignature(t).value) == Ok(t) <==> StripNames(t) == t)
  {
    hide Build;
    if ParseTypeSpec(s).Error? {
      return;
    }
    var t := ParseTypeSpec(s).value;
    ParsedIsFixed(Strip(s));
    ParsePrinted(t);
    if ReadBack(StripNames(t)) == Ok(t) {
      ReadBackExact(t);
      ReadBackReadable(t);
    }
  }

  // ---------- overloads ----------

  lemma InertPrefix(name: string, args: seq<TypeSpec>, isMember: bool, rest: string)
    requires isMember ==> args != []
    ensures Inert(0, ReceiverText(args, isMember) + Escape(name, true), rest, '(')
  {
    SkipEscaped(0, name, true, rest, '(');
    if isMember {
      InertChar(0, '.', Escape(name, true) + rest, '(');
      InertDesc(0, args[0], "." + (Escape(name, true) + rest), '(');
      InertConcat(0, Desc(args[0]), ".", Escape(name, true) + rest, '(');
    } else {
      InertEmpty(0, Escape(name, true) + rest, '(');
    }
    InertConcat(0, ReceiverText(args, isMember), Escape(name, true), rest, '(');
  }

  /** The last top-level dot before the parenthesis is the receiver's, if there is a receiver. */
  lemma DotOfPrefix(name: string, args: seq<TypeSpec>, isMember: bool)
    requires isMember ==> args != []
    ensures Last(ReceiverText(args, isMember) + Escape(name, true), '.')
         == if isMember then Some(|Desc(args[0])|) else None
  {
    hide Desc;
    hide Escape;
    var text := Escape(name, true);
    assert text + "" == text;
    SkipEscaped(0, name, true, "", '.');
    if isMember {
      var desc := Desc(args[0]);
      assert desc + "" == desc && desc + "." + text == ReceiverText(args, true) + text;
      InertDesc(0, args[0], "", '(');
      SplitAtDelimiter(Start, desc, text, '.');
    } else {
      assert "" + text == text;
    }
  }

  /** The first top-level parenthesis of `prefix(inner)` ends the prefix. */
  lemma DissectCall(prefix: string, inner: string)
    requires Inert(0, prefix, "(" + (inner + ")"), '(') && Inert(0, inner, ")", '(') && Balanced(prefix)
    ensures DissectOverload(prefix + ("(" + (inner + ")"))) == Ok(DissectPrefix(prefix, inner))
  {
    hide Inert;
    hide Split;
    hide Run;
    hide Balanced;
    hide DissectPrefix;
    var sig := prefix + ("(" + (inner + ")"));
    CallScanned(prefix, inner);
    assert sig[..|prefix|] == prefix && sig[|prefix| + 1..|sig| - 1] == inner;
  }

  lemma CallScanned(prefix: string, inner: string)
    requires Inert(0, prefix, "(" + (inner + ")"), '(') && Inert(0, inner, ")", '(')
    ensures var sig := prefix + ("(" + (inner + ")")); Balanced(sig) && First(sig, '(') == Some(|prefix|)
  {
    hide Step;
    var call := "(" + (inner + ")");
    ClosedCall(inner);
    assert Split(Start, call, '(')[0] == [] && |Split(Start, call, '(')| > 1;
    assert prefix + [] == prefix;
  }

  lemma ClosedCall(inner: string)
    requires Inert(0, inner, ")", '(')
    ensures var call := "(" + (inner + ")"); Run(Start, call) == Start && |Split(Start, call, '(')| > 1
    ensures Split(Start, "(" + (inner + ")"), '(')[0] == []
  {
    var call := "(" + (inner + ")");
    assert call[1..] == inner + ")" && ")"[1..] == "";
    assert Run(Start, ")") == Start;
  }

  lemma DissectOverloadDesc(name: string, args: seq<TypeSpec>, isMember: bool)
    requires isMember ==> args != []
    ensures DissectOverload(OverloadDesc(name, args, isMember)) == Ok(OverloadTexts(
      if isMember then Some(Desc(args[0])) else None, Escape(name, true),
      Join(Descs(CallArgs(args, isMember)), ',')))
  {
    var prefix := ReceiverText(args, isMember) + Escape(name, true);
    var inner := Join(Descs(CallArgs(args, isMember)), ',');
    InertPrefix(name, args, isMember, "(" + (inner + ")"));
    InertJoined(0, CallArgs(args, isMember), ")", '(');
    InertPrefix(name, args, isMember, "");
    assert prefix + "" == prefix;
    DissectCall(prefix, inner);
    PrefixOfOverload(name, args, isMember, inner);
  }

  lemma PrefixOfOverload(name: string, args: seq<TypeSpec>, isMember: bool, inner: string)
    requires isMember ==> args != []
    ensures DissectPrefix(ReceiverText(args, isMember) + Escape(name, true), inner)
         == OverloadTexts(if isMember then Some(Desc(args[0])) else None, Escape(name, true), inner)
  {
    var prefix := ReceiverText(args, isMember) + Escape(name, true);
    DotOfPrefix(name, args, isMember);
    if isMember {
      assert prefix[..|Desc(args[0])|] == Desc(args[0]);
      assert prefix[|Desc(args[0])| + 1..] == Escape(name, true);
    } else {
      assert prefix == Escape(name, true);
    }
  }

  /** What the parser makes of the argument text: no text at all reads as no arguments. */
  function ReadBackArguments(ts: seq<TypeSpec>): Result<seq<TypeSpec>> {
    if Join(Descs(ts), ',') == "" then Ok([]) else ReadBacks(ts)
  }

  lemma ParseArgumentDescs(ts: seq<TypeSpec>)
    ensures ParseArguments(Join(Descs(ts), ',')) == ReadBackArguments(ts)
  {
    hide Build;
    var text := Join(Descs(ts), ',');
    if text != "" {
      SplitJoined(ts);
      JoinInvertsSplit(Start, text, ',');
      ParseDescs(ts, |text| + 1);
    }
  }

  /** For every overload, readable or not, what the parser makes of its printed form. */
  function ReadBackOverload(name: string, args: seq<TypeSpec>, isMember: bool): Result<ParsedOverload>
    requires isMember ==> args != []
  {
    var receiver :- ReadBackReceiver(args, isMember);
    if name == "" then Error
    else
      var rest :- ReadBackArguments(CallArgs(args, isMember));
      Ok(ParsedOverload(name, isMember, Function(Dyn, receiver + rest)))
  }

  function ReadBackReceiver(args: seq<TypeSpec>, isMember: bool): Result<seq<TypeSpec>>
    requires isMember ==> args != []
  {
    if !isMember then Ok([])
    else
      var t :- ReadBack(args[0]);
      Ok([t])
  }

  lemma ParseReceiverDesc(args: seq<TypeSpec>, isMember: bool)
    requires isMember ==> args != []
    ensures ParseReceiver(if isMember then Some(Desc(args[0])) else None) == ReadBackReceiver(args, isMember)
  {
    hide Build;
    if isMember {
      ParseDesc(args[0]);
    }
  }

  lemma ParseOverloadDesc(name: string, args: seq<TypeSpec>, isMember: bool)
    requires isMember ==> args != []
    ensures ParseStrippedFunction(OverloadDesc(name, args, isMember)) == ReadBackOverload(name, args, isMember)
  {
    hide Build;
    DissectOverloadDesc(name, args, isMember);
    UnescapeInvertsEscape(name, true);
    ParseArgumentDescs(CallArgs(args, isMember));
    ParseReceiverDesc(args, isMember);
  }

  /** A member's signature is its receiver's, a dot, and the signature of the call without the receiver. */
  lemma MemberIsDotted(name: string, receiver: TypeSpec, args: seq<TypeSpec>)
    requires Printable(receiver) && AllPrintable(args)
    ensures MakeOverloadSignature(name, [receiver] + args, true).Ok? && MakeOverloadSignature(name, args, false).Ok?
    ensures MakeOverloadSignature(name, [receiver] + args, true).value
         == MakeTypeSpecSignature(receiver).value + "." + MakeOverloadSignature(name, args, false).value
  {
    hide Desc;
    hide Escape;
    hide Join;
    hide Descs;
    hide Printable;
    assert ([receiver] + args)[1..] == args;
    assert AllPrintable([receiver] + args);
    hide AllPrintable;
    var call := "(" + (Join(Descs(args), ',') + ")");
    assert Desc(receiver) + "." + Escape(name, true) + call == Desc(receiver) + "." + (Escape(name, true) + call);
    assert "" + Escape(name, true) == Escape(name, true);
  }

  lemma StripOverload(name: string, args: seq<TypeSpec>, isMember: bool)
    requires isMember ==> args != []
    ensures Strip(OverloadDesc(name, args, isMember))
         == OverloadDesc(RemoveWhite(name), StripAllNames(args), isMember)
  {
    var rest, args' := CallArgs(args, isMember), StripAllNames(args);
    var text, text' := Escape(name, true), Escape(RemoveWhite(name), true);
    var receiver, receiver' := ReceiverText(args, isMember), ReceiverText(args', isMember);
    var inner, inner' := Join(Descs(rest), ','), Join(Descs(StripAllNames(rest)), ',');
    assert CallArgs(args', isMember) == StripAllNames(rest);
    StripPlain(')', "");
    StripJoined(rest, ")" + "");
    StripsConcat(inner, inner', ")", ")", "");
    StripPlain('(', inner + ")" + "");
    StripsConcat("(", "(", inner + ")", inner' + ")", "");
    var call, call' := "(" + (inner + ")"), "(" + (inner' + ")");
    StripEscaped(name, true, call + "");
    StripReceiver(args, isMember, text + (call + ""));
    StripsConcat(receiver, receiver', text, text', call + "");
    StripsConcat(receiver + text, receiver' + text', call, call', "");
    assert OverloadDesc(name, args, isMember) + "" == OverloadDesc(name, args, isMember);
    assert receiver' + text' + call' + "" == receiver' + text' + call';
  }

  lemma StripReceiver(args: seq<TypeSpec>, isMember: bool, rest: string)
    requires isMember ==> args != []
    ensures StripsTo(ReceiverText(args, isMember), ReceiverText(StripAllNames(args), isMember), rest)
  {
    if isMember {
      StripPlain('.', rest);
      StripDesc(args[0], "." + rest);
      StripsConcat(Desc(args[0]), Desc(StripNames(args[0])), ".", ".", rest);
    } else {
      assert "" + rest == rest && "" + Strip(rest) == Strip(rest);
    }
  }

  predicate ReadableOverload(name: string, args: seq<TypeSpec>) {
    name != "" && NoWhite(name) && AllReadable(args)
  }

  function NormalOverload(name: string, args: seq<TypeSpec>, isMember: bool): ParsedOverload {
    ParsedOverload(name, isMember, Function(Dyn, Normals(args)))
  }

  /** Only an empty name prints as nothing, and no readable type has one. */
  lemma ReadableArgumentsPrint(ts: seq<TypeSpec>)
    requires AllPrintable(ts) && AllReadable(ts) && ts != []
    ensures Join(Descs(ts), ',') != ""
  {
    hide Build;
    if Desc(ts[0]) == "" {
      EmptyDesc(ts[0]);
      ReadBackReadable(ts[0]);
    }
  }

  /**
   * The overload round trip: a printed overload parses back to its name, member flag and
   * normalised arguments exactly when the names in it are readable.
   */
  lemma OverloadRoundTrip(name: string, args: seq<TypeSpec>, isMember: bool)
    requires MakeOverloadSignature(name, args, isMember).Ok?
    ensures
      var printed := MakeOverloadSignature(name, args, isMember).value;
      ParseFunctionSignature(printed) == Ok(NormalOverload(name, args, isMember)) <==> ReadableOverload(name, args)
  {
    hide Build;
    var name', args' := RemoveWhite(name), StripAllNames(args);
    StripOverload(name, args, isMember);
    ParseOverloadDesc(name', args', isMember);
    RemoveWhiteKeeps(name);
    if ReadableOverload(name, args) {
      ReadableOverloadReadsBack(name, args, isMember);
    } else if ReadBackOverload(name', args', isMember) == Ok(NormalOverload(name, args, isMember)) {
      ReadBackOverloadExact(name, args, isMember);
    }
  }

  lemma ReadableOverloadReadsBack(name: string, args: seq<TypeSpec>, isMember: bool)
    requires MakeOverloadSignature(name, args, isMember).Ok? && ReadableOverload(name, args)
    ensures StripAllNames(args) == args
    ensures ReadBackOverload(name, args, isMember) == Ok(NormalOverload(name, args, isMember))
  {
    hide Build;
    ReadBacksReadable(args);
    if isMember {
      assert args == [args[0]] + args[1..];
      ReadBackReadable(args[0]);
      ReadBacksReadable(args[1..]);
      if args[1..] != [] { ReadableArgumentsPrint(args[1..]); }
    } else {
      if args != [] { ReadableArgumentsPrint(args); }
      assert [] + Normals(args) == Normals(args);
    }
  }

  lemma ReadBackOverloadExact(name: string, args: seq<TypeSpec>, isMember: bool)
    requires MakeOverloadSignature(name, args, isMember).Ok?
    requires ReadBackOverload(RemoveWhite(name), StripAllNames(args), isMember)
          == Ok(NormalOverload(name, args, isMember))
    ensures ReadableOverload(name, args)
  {
    hide Build;
    RemoveWhiteKeeps(name);
    assert RemoveWhite(name) == name && name != "";
    if isMember {
      MemberExact(args);
    } else {
      var args' := StripAllNames(args);
      assert [] + ReadBackArguments(args').value == ReadBackArguments(args').value;
      AllArgumentsRead(args', Normals(args));
      ReadBacksExact(args);
    }
  }

  lemma MemberExact(args: seq<TypeSpec>)
    requires AllPrintable(args) && args != []
    requires ReadBack(StripNames(args[0])).Ok? && ReadBackArguments(StripAllNames(args[1..])).Ok?
    requires [ReadBack(StripNames(args[0])).value] + ReadBackArguments(StripAllNames(args[1..])).value == Normals(args)
    ensures AllReadable(args)
  {
    hide Build;
    var read := ReadBackArguments(StripAllNames(args[1..])).value;
    assert Normals(args)[0] == Normal(args[0]) && Normals(args)[1..] == Normals(args[1..]) == read;
    ReadBackExact(args[0]);
    AllArgumentsRead(StripAllNames(args[1..]), read);
    ReadBacksExact(args[1..]);
  }

  lemma AllArgumentsRead(ts: seq<TypeSpec>, ns: seq<TypeSpec>)
    requires ReadBackArguments(ts) == Ok(ns) && |ns| == |ts|
    ensures ReadBacks(ts) == Ok(ns)
  {
    hide Build;
  }

  /** The arguments of an accepted overload print and read back as themselves. */
  lemma AcceptedOverloadIsFixed(s: string)
    requires ParseFunctionSignature(s).Ok?
    ensures
      var o := ParseFunctionSignature(s).value;
      && o.functionName != "" && o == NormalOverload(o.functionName, o.signatureType.args, o.isMember)
      && AllFixed(o.signatureType.args) && (o.isMember ==> o.signatureType.args != [])
  {
    hide ParseType, ParseTypes, DissectOverload, Balanced, Split, Unescape, AllFixed;
    var d := DissectOverload(Strip(s)).value;
    var rest := ParseArguments(d.args).value;
    ParsedArgumentsAreFixed(d.args);
    if d.receiver.Some? {
      ParsedIsFixed(d.receiver.value);
      AllFixedCons(ParseType(d.receiver.value).value, rest);
    } else {
      assert [] + rest == rest;
    }
    FixedIsNormal(ParseFunctionSignature(s).value.signatureType.args);
  }

  lemma FixedIsNormal(ts: seq<TypeSpec>)
    requires AllFixed(ts)
    ensures Normals(ts) == ts
  {
  }

  lemma ParsedArgumentsAreFixed(text: string)
    requires ParseArguments(text).Ok?
    ensures AllFixed(ParseArguments(text).value)
  {
    hide ParseTypes, Split, AllFixed;
    DefaultsAreFixed();
    if text != "" {
      JoinInvertsSplit(Start, text, ',');
      ParsedAreFixed(Split(Start, text, ','), |text| + 1);
    }
  }

  /** Arguments that read back as themselves are readable exactly when no name in them holds whitespace. */
  lemma FixedAreReadable(ts: seq<TypeSpec>)
    requires AllFixed(ts)
    ensures AllReadable(ts) <==> StripAllNames(ts) == ts
  {
    hide Build;
    if AllReadable(ts) {
      ReadBacksReadable(ts);
    } else if StripAllNames(ts) == ts {
      ReadBacksExact(ts);
    }
  }

  /**
   * Whatever the overload parser accepts can be printed, and the printed form parses to the same overload exactly when
   * neither its name nor one in its arguments holds whitespace.
   */
  lemma AcceptedOverloadsReprint(s: string)
    ensures ParseFunctionSignature(s).Ok? ==>
      var o := ParseFunctionSignature(s).value;
      var printed := MakeOverloadSignature(o.functionName, o.signatureType.args, o.isMember);
      && printed.Ok?
      && (ParseFunctionSignature(printed.value) == Ok(o)
          <==> NoWhite(o.functionName) && StripAllNames(o.signatureType.args) == o.signatureType.args)
  {
    hide ParseFunctionSignature, OverloadDesc, StripAllNames, AllReadable, ReadBacks, Normals;
    if ParseFunctionSignature(s).Error? {
      return;
    }
    var o := ParseFunctionSignature(s).value;
    AcceptedOverloadIsFixed(s);
    FixedAreReadable(o.signatureType.args);
    OverloadRoundTrip(o.functionName, o.signatureType.args, o.isMember);
  }

  /** What a signature tells of the arguments other than the receiver: a single nameless one looks like none. */
  function CallOutlines(ts: seq<TypeSpec>): seq<TypeSpec> {
    if Outlines(ts) == [Abstract("", [])] then [] else Outlines(ts)
  }

  /** What it tells of all the arguments. */
  function ArgumentOutlines(args: seq<TypeSpec>, isMember: bool): (Option<TypeSpec>, seq<TypeSpec>)
    requires isMember ==> args != []
  {
    (if isMember then Some(Outline(args[0])) else None, CallOutlines(CallArgs(args, isMember)))
  }

  lemma JoinedTellsOutlines(ts: seq<TypeSpec>, us: seq<TypeSpec>)
    ensures Join(Descs(ts), ',') == Join(Descs(us), ',') <==> CallOutlines(ts) == CallOutlines(us)
  {
    hide Desc;
    hide Outline;
    hide Join;
    OutlinesPrintAlike(ts);
    OutlinesPrintAlike(us);
    NamelessIsNothing(ts);
    NamelessIsNothing(us);
    if Join(Descs(ts), ',') == Join(Descs(us), ',') && Join(Descs(ts), ',') != "" {
      NothingJoined();
      SplitJoined(ts);
      SplitJoined(us);
      DescsTellOutlines(ts, us);
    }
  }

  lemma NothingJoined()
    ensures Join(Descs([]), ',') == ""
  {
  }

  lemma NamelessIsNothing(ts: seq<TypeSpec>)
    ensures Join(Descs(ts), ',') == "" <==> CallOutlines(ts) == []
  {
    hide Desc;
    hide Outline;
    if |ts| == 1 {
      NamelessDesc(ts[0]);
      assert Descs(ts) == [Desc(ts[0])] && Outlines(ts) == [Outline(ts[0])];
    } else if |ts| > 1 {
      JoinedCons(ts);
    }
  }

  lemma NamelessDesc(t: TypeSpec)
    ensures Desc(t) == "" <==> Outline(t) == Abstract("", [])
  {
    hide Desc;
    hide Head;
    hide Parts;
    OutlinePrintsAlike(t);
    NamelessIsEmpty();
    if Desc(t) == "" {
      DescOfParam(t);
      EmptyName(t);
    }
  }

  lemma NamelessIsEmpty()
    ensures Desc(Abstract("", [])) == ""
  {
  }

  /**
   * Overloads have one signature exactly when they have one name, are both members or both not, and their arguments
   * have the same outlines; readable ones then have the same arguments up to normal form.
   */
  lemma SignaturesIdentifyOverloads(
      name: string, args: seq<TypeSpec>, isMember: bool, name': string, args': seq<TypeSpec>, isMember': bool)
    requires MakeOverloadSignature(name, args, isMember).Ok? && MakeOverloadSignature(name', args', isMember').Ok?
    ensures
      MakeOverloadSignature(name, args, isMember) == MakeOverloadSignature(name', args', isMember')
      <==>
      name == name' && isMember == isMember' && ArgumentOutlines(args, isMember) == ArgumentOutlines(args', isMember')
    ensures
      && ReadableOverload(name, args) && ReadableOverload(name', args')
      && MakeOverloadSignature(name, args, isMember) == MakeOverloadSignature(name', args', isMember')
      ==> Normals(args) == Normals(args')
  {
    hide OverloadDesc;
    hide ArgumentOutlines;
    hide ReadableOverload;
    OverloadTextsTell(name, args, isMember, name', args', isMember');
    if MakeOverloadSignature(name, args, isMember) == MakeOverloadSignature(name', args', isMember') {
      OverloadRoundTrip(name, args, isMember);
      OverloadRoundTrip(name', args', isMember');
    }
  }

  lemma OverloadTextsTell(
      name: string, args: seq<TypeSpec>, isMember: bool, name': string, args': seq<TypeSpec>, isMember': bool)
    requires (isMember ==> args != []) && (isMember' ==> args' != [])
    ensures
      OverloadDesc(name, args, isMember) == OverloadDesc(name', args', isMember')
      <==>
      name == name' && isMember == isMember' && ArgumentOutlines(args, isMember) == ArgumentOutlines(args', isMember')
  {
    hide Desc;
    hide Outline;
    hide Escape;
    hide Join;
    hide CallOutlines;
    hide DissectOverload;
    JoinedTellsOutlines(CallArgs(args, isMember), CallArgs(args', isMember'));
    if isMember && isMember' {
      OutlinePrintsAlike(args[0]);
      OutlinePrintsAlike(args'[0]);
    }
    if OverloadDesc(name, args, isMember) == OverloadDesc(name', args', isMember') {
      DissectOverloadDesc(name, args, isMember);
      DissectOverloadDesc(name', args', isMember');
      UnescapeInvertsEscape(name, true);
      UnescapeInvertsEscape(name', true);
      if isMember {
        DescTellsOutline(args[0], args'[0]);
      }
    }
  }
}
