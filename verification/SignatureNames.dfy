/**
 * The names that the signature language gives to types without parameters (common/signature.cc:285-331 and 519-549):
 * its own keywords, and the protobuf names that read as the same types. The tables say what each name reads as, for
 * every text that spells it.
 */
module SignatureNames {
  import opened Results
  import opened TypeSpecs
  import opened SignatureText
  import opened Signature
  import R = SignatureRoundTrip

  // ---------- the tables ----------

  /** The language's own keywords, as a printed type starts with them. */
  predicate KeywordReads(name: string, t: TypeSpec) {
    || PrimitiveReads(name, t)
    || WrapperReads(name, t)
    || (name == "null" && t == Null)
    || (name == "dyn" && t == Dyn)
    || (name == "any" && t == WellKnown(Any))
    || (name == "timestamp" && t == WellKnown(Timestamp))
    || (name == "duration" && t == WellKnown(Duration))
  }

  predicate PrimitiveReads(name: string, t: TypeSpec) {
    || (name == "bool" && t == Primitive(Bool))
    || (name == "int" && t == Primitive(Int64))
    || (name == "uint" && t == Primitive(Uint64))
    || (name == "double" && t == Primitive(Double))
    || (name == "string" && t == Primitive(String))
    || (name == "bytes" && t == Primitive(Bytes))
  }

  predicate WrapperReads(name: string, t: TypeSpec) {
    || (name == "bool_wrapper" && t == Wrapper(Bool))
    || (name == "int_wrapper" && t == Wrapper(Int64))
    || (name == "uint_wrapper" && t == Wrapper(Uint64))
    || (name == "double_wrapper" && t == Wrapper(Double))
    || (name == "string_wrapper" && t == Wrapper(String))
    || (name == "bytes_wrapper" && t == Wrapper(Bytes))
  }

  /** The protobuf messages that stand for a type of the language. */
  predicate ProtobufReads(name: string, t: TypeSpec) {
    || ProtobufIntegerReads(name, t)
    || ProtobufFloatReads(name, t)
    || ProtobufScalarReads(name, t)
    || ProtobufOtherReads(name, t)
    || ProtobufContainerReads(name, t)
  }

  predicate ProtobufIntegerReads(name: string, t: TypeSpec) {
    || (name == "google.protobuf.Int64Value" && t == Wrapper(Int64))
    || (name == "google.protobuf.Int32Value" && t == Wrapper(Int64))
    || (name == "google.protobuf.UInt64Value" && t == Wrapper(Uint64))
    || (name == "google.protobuf.UInt32Value" && t == Wrapper(Uint64))
  }

  predicate ProtobufFloatReads(name: string, t: TypeSpec) {
    || (name == "google.protobuf.DoubleValue" && t == Wrapper(Double))
    || (name == "google.protobuf.FloatValue" && t == Wrapper(Double))
  }

  predicate ProtobufScalarReads(name: string, t: TypeSpec) {
    || (name == "google.protobuf.BoolValue" && t == Wrapper(Bool))
    || (name == "google.protobuf.StringValue" && t == Wrapper(String))
    || (name == "google.protobuf.BytesValue" && t == Wrapper(Bytes))
  }

  predicate ProtobufOtherReads(name: string, t: TypeSpec) {
    || (name == "google.protobuf.Any" && t == WellKnown(Any))
    || (name == "google.protobuf.Timestamp" && t == WellKnown(Timestamp))
    || (name == "google.protobuf.Duration" && t == WellKnown(Duration))
    || (name == "google.protobuf.Value" && t == Dyn)
  }

  predicate ProtobufContainerReads(name: string, t: TypeSpec) {
    || (name == "google.protobuf.ListValue" && t == List(Dyn))
    || (name == "google.protobuf.Struct" && t == Map(Primitive(String), Dyn))
  }

  /** The keywords that take parameters, without them. */
  predicate GenericReads(name: string, t: TypeSpec) {
    || (name == "list" && t == List(Dyn))
    || (name == "map" && t == Map(Dyn, Dyn))
    || (name == "type" && t == Type(Dyn))
    || (name == "function" && t == Function(Dyn, []))
  }

  predicate NameReads(name: string, t: TypeSpec) {
    KeywordReads(name, t) || ProtobufReads(name, t) || GenericReads(name, t)
  }

  // ---------- the names are plain text ----------

  /** Text that is spelled as it is: nothing to escape, strip, or take for brackets. */
  predicate Plain(name: string) {
    name != "" && name[0] != '~' && forall c | c in name :: c !in {'\\', '<', '>', ' ', '\t', '\n', '\r'}
  }

  lemma NamesArePlain(name: string, t: TypeSpec)
    requires NameReads(name, t)
    ensures Plain(name)
  {
    hide Plain;
    hide PrimitiveReads;
    hide WrapperReads;
    hide ProtobufIntegerReads;
    hide ProtobufFloatReads;
    hide ProtobufScalarReads;
    hide ProtobufOtherReads;
    hide ProtobufContainerReads;
    hide GenericReads;
    if PrimitiveReads(name, t) {
      PrimitiveNamesArePlain(name, t);
    } else if WrapperReads(name, t) {
      WrapperNamesArePlain(name, t);
    } else if ProtobufIntegerReads(name, t) {
      ProtobufIntegerNamesArePlain(name, t);
    } else if ProtobufFloatReads(name, t) {
      ProtobufFloatNamesArePlain(name, t);
    } else if ProtobufScalarReads(name, t) {
      ProtobufScalarNamesArePlain(name, t);
    } else if ProtobufOtherReads(name, t) {
      ProtobufOtherNamesArePlain(name, t);
    } else if GenericReads(name, t) {
      GenericNamesArePlain(name, t);
    } else if KeywordReads(name, t) {
      OtherKeywordsArePlain(name, t);
    } else {
      ProtobufContainerNamesArePlain(name, t);
    }
  }

  lemma PrimitiveNamesArePlain(name: string, t: TypeSpec)
    requires PrimitiveReads(name, t)
    ensures Plain(name)
  {
  }

  lemma WrapperNamesArePlain(name: string, t: TypeSpec)
    requires WrapperReads(name, t)
    ensures Plain(name)
  {
  }

  lemma ProtobufIntegerNamesArePlain(name: string, t: TypeSpec)
    requires ProtobufIntegerReads(name, t)
    ensures Plain(name)
  {
  }

  lemma ProtobufFloatNamesArePlain(name: string, t: TypeSpec)
    requires ProtobufFloatReads(name, t)
    ensures Plain(name)
  {
  }

  lemma ProtobufScalarNamesArePlain(name: string, t: TypeSpec)
    requires ProtobufScalarReads(name, t)
    ensures Plain(name)
  {
  }

  lemma ProtobufOtherNamesArePlain(name: string, t: TypeSpec)
    requires ProtobufOtherReads(name, t)
    ensures Plain(name)
  {
  }

  lemma ProtobufContainerNamesArePlain(name: string, t: TypeSpec)
    requires ProtobufContainerReads(name, t)
    ensures Plain(name)
  {
  }

  lemma GenericNamesArePlain(name: string, t: TypeSpec)
    requires GenericReads(name, t)
    ensures Plain(name)
  {
  }

  lemma OtherKeywordsArePlain(name: string, t: TypeSpec)
    requires KeywordReads(name, t) && !PrimitiveReads(name, t) && !WrapperReads(name, t)
    ensures Plain(name)
  {
    hide PrimitiveReads;
    hide WrapperReads;
  }

  // ---------- what the parser makes of each name ----------

  lemma ParsedIsNamed(name: string)
    ensures ParseBuiltinOrWrapper(name).Some? ==>
      var t := ParseBuiltinOrWrapper(name).value;
      KeywordReads(name, t) || ProtobufReads(name, t)
  {
    hide ParseBuiltin;
    hide ParseWrapper;
    hide KeywordReads;
    hide ProtobufReads;
    BuiltinIsNamed(name);
    ParsedWrapperIsNamed(name);
  }

  lemma BuiltinIsNamed(name: string)
    ensures ParseBuiltin(name).Some? ==>
      KeywordReads(name, ParseBuiltin(name).value) || ProtobufReads(name, ParseBuiltin(name).value)
  {
    hide WrapperReads;
    hide ProtobufIntegerReads;
    hide ProtobufFloatReads;
    hide ProtobufScalarReads;
    hide ProtobufContainerReads;
  }

  lemma ParsedWrapperIsNamed(name: string)
    ensures ParseWrapper(name).Some? ==>
      KeywordReads(name, ParseWrapper(name).value) || ProtobufReads(name, ParseWrapper(name).value)
  {
    hide PrimitiveReads;
    hide ProtobufOtherReads;
  }

  lemma NamedIsParsed(name: string, t: TypeSpec)
    requires KeywordReads(name, t) || ProtobufReads(name, t)
    ensures ParseBuiltinOrWrapper(name) == Some(t)
  {
    hide ParseBuiltin;
    hide ParseWrapper;
    hide PrimitiveReads;
    hide WrapperReads;
    hide ProtobufIntegerReads;
    hide ProtobufFloatReads;
    hide ProtobufScalarReads;
    hide ProtobufOtherReads;
    hide ProtobufContainerReads;
    if PrimitiveReads(name, t) {
      PrimitiveNamesParse(name, t);
    } else if WrapperReads(name, t) {
      WrapperNamesParse(name, t);
    } else if ProtobufIntegerReads(name, t) {
      ProtobufIntegerNamesParse(name, t);
    } else if ProtobufFloatReads(name, t) {
      ProtobufFloatNamesParse(name, t);
    } else if ProtobufScalarReads(name, t) {
      ProtobufScalarNamesParse(name, t);
    } else if ProtobufOtherReads(name, t) {
      ProtobufOtherNamesParse(name, t);
    } else if ProtobufContainerReads(name, t) {
      ProtobufContainerNamesParse(name, t);
    } else {
      OtherKeywordsParse(name, t);
    }
  }

  lemma PrimitiveNamesParse(name: string, t: TypeSpec)
    requires PrimitiveReads(name, t)
    ensures ParseBuiltin(name) == Some(t)
  {
  }

  lemma WrapperNamesParse(name: string, t: TypeSpec)
    requires WrapperReads(name, t)
    ensures ParseBuiltin(name).None? && ParseWrapper(name) == Some(t)
  {
    hide ParseBuiltin;
    hide ParseWrapper;
    R.WrapperIsNotBuiltin(t.wrapped);
    R.WrapperIsParsed(t.wrapped);
  }

  lemma OtherKeywordsParse(name: string, t: TypeSpec)
    requires KeywordReads(name, t) && !PrimitiveReads(name, t) && !WrapperReads(name, t)
    ensures ParseBuiltin(name) == Some(t)
  {
    hide PrimitiveReads;
    hide WrapperReads;
  }

  lemma ProtobufOtherNamesParse(name: string, t: TypeSpec)
    requires ProtobufOtherReads(name, t)
    ensures ParseBuiltin(name) == Some(t)
  {
  }

  lemma ProtobufIntegerNamesParse(name: string, t: TypeSpec)
    requires ProtobufIntegerReads(name, t)
    ensures ParseBuiltin(name).None? && ParseWrapper(name) == Some(t)
  {
    hide ParseBuiltin;
    ProtobufIntegerNamesAreNotBuiltin(name, t);
  }

  lemma ProtobufIntegerNamesAreNotBuiltin(name: string, t: TypeSpec)
    requires ProtobufIntegerReads(name, t)
    ensures ParseBuiltin(name).None?
  {
  }

  lemma ProtobufFloatNamesParse(name: string, t: TypeSpec)
    requires ProtobufFloatReads(name, t)
    ensures ParseBuiltin(name).None? && ParseWrapper(name) == Some(t)
  {
    hide ParseBuiltin;
    ProtobufFloatNamesAreNotBuiltin(name, t);
  }

  lemma ProtobufFloatNamesAreNotBuiltin(name: string, t: TypeSpec)
    requires ProtobufFloatReads(name, t)
    ensures ParseBuiltin(name).None?
  {
  }

  lemma ProtobufScalarNamesParse(name: string, t: TypeSpec)
    requires ProtobufScalarReads(name, t)
    ensures ParseBuiltin(name).None? && ParseWrapper(name) == Some(t)
  {
    hide ParseBuiltin;
    ProtobufScalarNamesAreNotBuiltin(name, t);
  }

  lemma ProtobufScalarNamesAreNotBuiltin(name: string, t: TypeSpec)
    requires ProtobufScalarReads(name, t)
    ensures ParseBuiltin(name).None?
  {
  }

  lemma ProtobufContainerNamesParse(name: string, t: TypeSpec)
    requires ProtobufContainerReads(name, t)
    ensures ParseBuiltin(name).None? && ParseWrapper(name) == Some(t)
  {
    hide ParseBuiltin;
    ProtobufContainerNamesAreNotBuiltin(name, t);
  }

  lemma ProtobufContainerNamesAreNotBuiltin(name: string, t: TypeSpec)
    requires ProtobufContainerReads(name, t)
    ensures ParseBuiltin(name).None?
  {
  }

  /** Without parameters, a name builds the type it reads as, and no other name builds a type of the language. */
  lemma BuildsNamed(name: string, t: TypeSpec)
    requires !t.Abstract?
    ensures Build(name, []) == Ok(t) <==> NameReads(name, t)
  {
    hide ParseBuiltinOrWrapper;
    hide KeywordReads;
    hide ProtobufReads;
    hide HasDotDot;
    ParsedIsNamed(name);
    if KeywordReads(name, t) || ProtobufReads(name, t) {
      NamedIsParsed(name, t);
    } else if GenericReads(name, t) {
      GenericNamesBuild(name, t);
    }
  }

  lemma GenericNamesBuild(name: string, t: TypeSpec)
    requires GenericReads(name, t)
    ensures Build(name, []) == Ok(t)
  {
    hide ParseWrapper;
    R.WrapperNamesAreLong(name);
  }

  // ---------- texts that spell a name ----------

  lemma {:induction false} PlainStays(s: string)
    requires forall c | c in s :: c != '\\' && !White(c)
    ensures Strip(s) == s && Unescape(s) == s
  {
    if s != [] {
      assert forall c | c in s[1..] :: c in s;
      PlainStays(s[1..]);
    }
  }

  lemma {:induction false} UnescapeKeeps(s: string, escaped: bool, c: char)
    requires c != '\\'
    ensures c in UnescapeFrom(s, escaped) <==> c in s
  {
    if s != [] {
      assert s == [s[0]] + s[1..];
      if !escaped && s[0] == '\\' {
        UnescapeKeeps(s[1..], true, c);
      } else {
        UnescapeKeeps(s[1..], false, c);
        assert UnescapeFrom(s, escaped) == [s[0]] + UnescapeFrom(s[1..], false);
      }
    }
  }

  lemma {:induction false} NothingToSplit(st: ScanState, s: string, c: char)
    requires c !in s
    ensures |Split(st, s, c)| == 1
    decreases s
  {
    hide Step;
    hide TopLevel;
    if s != [] {
      NothingToSplit(Step(st, s[0]), s[1..], c);
    }
  }

  lemma {:induction false} NoBrackets(escaped: bool, s: string)
    requires '<' !in s && '>' !in s
    ensures Run(At(0, escaped), s).At? && Run(At(0, escaped), s).nesting == 0
    decreases s
  {
    if s != [] {
      NoBrackets(!escaped && s[0] == '\\', s[1..]);
    }
  }

  /** A text without an opening bracket is a name as a whole. */
  lemma Unbracketed(sig: string)
    requires sig != "" && sig[0] != '~' && '<' !in sig
    ensures ParseType(sig) == if Balanced(sig) then Build(Unescape(sig), []) else Error
  {
    hide Build;
    hide Balanced;
    NothingToSplit(Start, sig, '<');
  }

  lemma BuildWithoutParts(name: string, params: seq<TypeSpec>, t: TypeSpec)
    requires Build(name, params) == Ok(t) && !t.Abstract? && Parts(t) == []
    ensures params == []
  {
    hide ParseBuiltinOrWrapper;
    hide HasDotDot;
  }

  lemma NoTypesOfPieces(pieces: seq<string>, bound: nat)
    requires (forall p | p in pieces :: |p| < bound) && ParseTypes(pieces, bound) == Ok([])
    ensures pieces == []
  {
    hide ParseType;
  }

  /** A text that reads as a type without parts has no brackets. */
  lemma LeavesHaveNoBrackets(sig: string, t: TypeSpec)
    requires ParseType(sig) == Ok(t) && !t.Param? && !t.Abstract? && Parts(t) == []
    ensures Build(Unescape(sig), []) == Ok(t)
  {
    hide Build;
    hide Balanced;
    hide Unescape;
    hide ParseTypes;
    hide Split;
    var d := Dissect(sig).value;
    var params := ParseTypes(d.pieces, |sig| - 1).value;
    BuildWithoutParts(Unescape(d.name), params, t);
    NoTypesOfPieces(d.pieces, |sig| - 1);
  }

  /**
   * What every text reads as: a type without parts exactly when it spells one of that type's names, and any type that
   * is neither named by the text nor a parameter likewise, as long as no brackets are opened.
   */
  lemma TextsRead(s: string, t: TypeSpec)
    requires !t.Param? && !t.Abstract?
    requires Parts(t) == [] || '<' !in Strip(s)
    ensures ParseTypeSpec(s) == Ok(t) <==> NameReads(Unescape(Strip(s)), t)
  {
    hide NameReads;
    hide Build;
    hide Unescape;
    hide Strip;
    var sig := Strip(s);
    var name := Unescape(sig);
    BuildsNamed(name, t);
    if ParseTypeSpec(s) == Ok(t) {
      if '<' !in sig {
        Unbracketed(sig);
      } else {
        LeavesHaveNoBrackets(sig, t);
      }
    }
    if NameReads(name, t) {
      SpellsAName(sig, t);
      Unbracketed(sig);
    }
  }

  lemma SpellsAName(sig: string, t: TypeSpec)
    requires NameReads(Unescape(sig), t)
    ensures sig != "" && sig[0] != '~' && '<' !in sig && Balanced(sig)
  {
    hide NameReads;
    NamesArePlain(Unescape(sig), t);
    UnescapeKeeps(sig, false, '<');
    UnescapeKeeps(sig, false, '>');
    NoBrackets(false, sig);
  }

  /** So each name in the tables reads as its type. */
  lemma NamesRead(name: string, t: TypeSpec)
    requires NameReads(name, t)
    ensures ParseTypeSpec(name) == Ok(t)
  {
    hide NameReads;
    hide ParseTypeSpec;
    NamesArePlain(name, t);
    PlainStays(name);
    NamedIsNoAbstract(name, t);
    TextsRead(name, t);
  }

  lemma NamedIsNoAbstract(name: string, t: TypeSpec)
    requires NameReads(name, t)
    ensures !t.Param? && !t.Abstract?
  {
  }
}
