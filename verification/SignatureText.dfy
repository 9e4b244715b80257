/**
 * The character level of common/signature.cc: escaping, whitespace stripping, and the
 * scanner that finds characters outside brackets and outside escapes.
 */
module SignatureText {
  import opened Results

  // ---------- escaping ----------

  predicate Special(c: char, escapeDot: bool) {
    || c in {'\\', '(', ')', '<', '>', '"', ',', '~'}
    || (c == '.' && escapeDot)
  }

  function EscapeChar(c: char, escapeDot: bool): string {
    if Special(c, escapeDot) then ['\\', c] else [c]
  }

  /** What AppendEscaped adds for `s`. */
  function Escape(s: string, escapeDot: bool): string {
    if s == [] then [] else EscapeChar(s[0], escapeDot) + Escape(s[1..], escapeDot)
  }

  /** A backslash comes before these characters and no others, and before dots where they would divide. */
  lemma EscapedCharacters(c: char, escapeDot: bool)
    ensures Escape([c], escapeDot) == ['\\', c]
      <==> c in {'\\', '(', ')', '<', '>', '"', ',', '~'} || (c == '.' && escapeDot)
    ensures Escape([c], escapeDot) != ['\\', c] ==> Escape([c], escapeDot) == [c]
  {
    assert [c][1..] == [];
  }

  /** Drops escaping backslashes; a final lone backslash is kept. `escaped` says one was just read. */
  function UnescapeFrom(s: string, escaped: bool): string {
    if s == [] then (if escaped then "\\" else [])
    else if escaped then [s[0]] + UnescapeFrom(s[1..], false)
    else if s[0] == '\\' then UnescapeFrom(s[1..], true)
    else [s[0]] + UnescapeFrom(s[1..], false)
  }

  function Unescape(s: string): string {
    UnescapeFrom(s, false)
  }

  lemma {:induction false} UnescapeInvertsEscape(s: string, escapeDot: bool)
    ensures Unescape(Escape(s, escapeDot)) == s
  {
    if s != [] {
      UnescapeInvertsEscape(s[1..], escapeDot);
      UnescapeChar(s[0], escapeDot, Escape(s[1..], escapeDot));
    }
  }

  lemma UnescapeChar(c: char, escapeDot: bool, rest: string)
    ensures Unescape(EscapeChar(c, escapeDot) + rest) == [c] + Unescape(rest)
  {
    var e := EscapeChar(c, escapeDot) + rest;
    if Special(c, escapeDot) {
      assert e[1..] == [c] + rest && ([c] + rest)[1..] == rest;
      assert UnescapeFrom([c] + rest, true) == [c] + Unescape(rest);
    } else {
      assert e[1..] == rest;
    }
  }

  lemma UnescapeKeepsNonEmpty(s: string, escaped: bool)
    requires s != [] || escaped
    ensures UnescapeFrom(s, escaped) != []
  {
  }

  // ---------- whitespace ----------

  predicate White(c: char) {
    c in {' ', '\t', '\n', '\r'}
  }

  predicate NoWhite(s: string) {
    forall i | 0 <= i < |s| :: !White(s[i])
  }

  function RemoveWhite(s: string): string {
    if s == [] then [] else (if White(s[0]) then [] else [s[0]]) + RemoveWhite(s[1..])
  }

  /** StripUnescapedWhitespace, with the scan state made explicit. */
  function StripFrom(s: string, escaped: bool): string {
    if s == [] then []
    else if escaped then [s[0]] + StripFrom(s[1..], false)
    else if s[0] == '\\' then [s[0]] + StripFrom(s[1..], true)
    else if White(s[0]) then StripFrom(s[1..], false)
    else [s[0]] + StripFrom(s[1..], false)
  }

  function Strip(s: string): string {
    StripFrom(s, false)
  }

  /** Blanks, tabs and line breaks are stripped, and nothing else. */
  lemma StrippedCharacters(c: char)
    ensures Strip([c]) == if c in {' ', '\t', '\n', '\r'} then [] else [c]
  {
    assert [c][1..] == [] && StripFrom([], true) == [] && StripFrom([], false) == [];
  }

  lemma {:induction false} RemoveWhiteKeeps(s: string)
    ensures |RemoveWhite(s)| <= |s|
    ensures RemoveWhite(s) == s <==> NoWhite(s)
  {
    if s != [] {
      RemoveWhiteKeeps(s[1..]);
      assert s == [s[0]] + s[1..];
      assert NoWhite(s) <==> !White(s[0]) && NoWhite(s[1..]);
      assert !White(s[0]) ==> RemoveWhite(s)[1..] == RemoveWhite(s[1..]);
    }
  }

  /** Before `rest`, the text `a` is stripped to `b`. */
  predicate StripsTo(a: string, b: string, rest: string) {
    Strip(a + rest) == b + Strip(rest)
  }

  lemma StripsConcat(a: string, a': string, b: string, b': string, rest: string)
    requires StripsTo(a, a', b + rest) && StripsTo(b, b', rest)
    ensures StripsTo(a + b, a' + b', rest)
  {
    assert a + b + rest == a + (b + rest);
    assert a' + b' + Strip(rest) == a' + (b' + Strip(rest));
  }

  lemma {:induction false} StripEscaped(s: string, escapeDot: bool, rest: string)
    ensures StripsTo(Escape(s, escapeDot), Escape(RemoveWhite(s), escapeDot), rest)
  {
    if s == [] {
      assert "" + rest == rest && "" + Strip(rest) == Strip(rest);
    } else {
      var c, name := s[0], RemoveWhite(s[1..]);
      StripEscaped(s[1..], escapeDot, rest);
      StripChar(c, escapeDot, Escape(s[1..], escapeDot) + rest);
      var kept := if White(c) then [] else EscapeChar(c, escapeDot);
      StripsConcat(EscapeChar(c, escapeDot), kept, Escape(s[1..], escapeDot), Escape(name, escapeDot), rest);
      assert ([c] + name)[1..] == name;
      assert RemoveWhite(s) == if White(c) then name else [c] + name;
      assert Escape(RemoveWhite(s), escapeDot) == kept + Escape(name, escapeDot);
    }
  }

  lemma StripChar(c: char, escapeDot: bool, rest: string)
    ensures Strip(EscapeChar(c, escapeDot) + rest)
         == (if White(c) then [] else EscapeChar(c, escapeDot)) + Strip(rest)
  {
    var e := EscapeChar(c, escapeDot) + rest;
    if Special(c, escapeDot) {
      assert e[1..] == [c] + rest && ([c] + rest)[1..] == rest;
      assert StripFrom([c] + rest, true) == [c] + Strip(rest);
    } else {
      assert e[1..] == rest;
    }
  }

  /** A character that is neither white nor a backslash passes through Strip. */
  lemma StripPlain(c: char, rest: string)
    requires c != '\\' && !White(c)
    ensures Strip([c] + rest) == [c] + Strip(rest)
  {
    assert ([c] + rest)[1..] == rest;
  }

  // ---------- scanning ----------

  // `Bad` is a closing bracket without its opening one.
  datatype ScanState = Bad | At(nesting: nat, escaped: bool)

  const Start := At(0, false)

  function Step(st: ScanState, c: char): ScanState {
    match st
    case Bad => Bad
    case At(n, escaped) =>
      if escaped then At(n, false)
      else if c == '\\' then At(n, true)
      else if c == '<' then At(n + 1, false)
      else if c == '>' then (if n == 0 then Bad else At(n - 1, false))
      else st
  }

  function Run(st: ScanState, s: string): ScanState
    decreases s
  {
    if s == [] then st else Run(Step(st, s[0]), s[1..])
  }

  /** Brackets outside escapes match. A final lone backslash is not an error. */
  predicate Balanced(s: string) {
    Run(Start, s).At? && Run(Start, s).nesting == 0
  }

  /** `c` counts here: no open bracket, not escaped, not itself a backslash. */
  predicate TopLevel(st: ScanState, c: char) {
    st == Start && c != '\\'
  }

  /** The stretches of `s` between the top-level occurrences of `delim`, scanning from `st`. */
  function Split(st: ScanState, s: string, delim: char): (ps: seq<string>)
    ensures |ps| > 0
    decreases s
  {
    if s == [] then [[]]
    else
      var ps := Split(Step(st, s[0]), s[1..], delim);
      if s[0] == delim && TopLevel(st, s[0]) then [[]] + ps else Prepend([s[0]], ps)
  }

  function Prepend(a: string, ps: seq<string>): seq<string>
    requires |ps| > 0
  {
    [a + ps[0]] + ps[1..]
  }

  function Join(ps: seq<string>, delim: char): string {
    if ps == [] then []
    else if |ps| == 1 then ps[0]
    else ps[0] + [delim] + Join(ps[1..], delim)
  }

  /** Position of the first top-level `c`. */
  function First(s: string, c: char): (r: Option<nat>)
    ensures r.Some? ==> r.value < |s| && s[r.value] == c
  {
    var ps := Split(Start, s, c);
    JoinInvertsSplit(Start, s, c);
    if |ps| == 1 then None else Some(|ps[0]|)
  }

  /** Position of the last top-level `c`. */
  function Last(s: string, c: char): (r: Option<nat>)
    ensures r.Some? ==> r.value < |s| && s[r.value] == c
  {
    var ps := Split(Start, s, c);
    JoinInvertsSplit(Start, s, c);
    LastPieceEnds(ps, c);
    if |ps| == 1 then None else Some(|s| - |ps[|ps| - 1]| - 1)
  }

  lemma PrependTwice(a: string, b: string, ps: seq<string>)
    requires |ps| > 0
    ensures Prepend(a, Prepend(b, ps)) == Prepend(a + b, ps)
  {
    assert a + (b + ps[0]) == a + b + ps[0];
  }

  lemma JoinPrepend(a: string, ps: seq<string>, c: char)
    requires |ps| > 0
    ensures Join(Prepend(a, ps), c) == a + Join(ps, c)
  {
  }

  lemma JoinCons(a: string, ps: seq<string>, c: char)
    requires |ps| > 0
    ensures Join([a] + ps, c) == a + ([c] + Join(ps, c))
  {
    assert ([a] + ps)[1..] == ps;
  }

  lemma NothingJoins(c: char)
    ensures Join([[]], c) == []
  {
  }

  /** Splitting loses nothing. */
  lemma {:induction false} JoinInvertsSplit(st: ScanState, s: string, c: char)
    ensures Join(Split(st, s, c), c) == s
    ensures forall p | p in Split(st, s, c) :: |p| <= |s|
    decreases s
  {
    hide Step;
    hide TopLevel;
    hide Join;
    NothingJoins(c);
    if s != [] {
      var ps := Split(Step(st, s[0]), s[1..], c);
      JoinInvertsSplit(Step(st, s[0]), s[1..], c);
      JoinPrepend([s[0]], ps, c);
      JoinCons([], ps, c);
    }
  }

  lemma {:induction false} LastPieceEnds(ps: seq<string>, c: char)
    requires |ps| > 0
    ensures |ps| > 1 ==>
              var k := |Join(ps, c)| - |ps[|ps| - 1]| - 1;
              k >= 0 && Join(ps, c)[k] == c && Join(ps, c)[k + 1..] == ps[|ps| - 1]
    ensures |ps| == 1 ==> Join(ps, c) == ps[0]
  {
    if |ps| > 1 {
      LastPieceEnds(ps[1..], c);
    }
  }

  /** A stretch that ends at the start state followed by a delimiter closes its own pieces. */
  lemma {:induction false} SplitAtDelimiter(st: ScanState, a: string, b: string, c: char)
    requires c !in {'\\', '<', '>'}
    requires Run(st, a) == Start
    ensures Split(st, a + [c] + b, c) == Split(st, a, c) + Split(Start, b, c)
    decreases a
  {
    var s := a + [c] + b;
    if a == [] {
      assert s[1..] == b;
    } else {
      assert s[1..] == a[1..] + [c] + b;
      SplitAtDelimiter(Step(st, a[0]), a[1..], b, c);
    }
  }

  // ---------- escaped text is inert ----------

  /** Escaped text moves neither the scan state nor a piece boundary. */
  lemma {:induction false} SkipEscaped(n: nat, s: string, escapeDot: bool, rest: string, c: char)
    requires c in {'<', ',', '('} || (c == '.' && escapeDot)
    ensures Run(At(n, false), Escape(s, escapeDot) + rest) == Run(At(n, false), rest)
    ensures Split(At(n, false), Escape(s, escapeDot) + rest, c)
         == Prepend(Escape(s, escapeDot), Split(At(n, false), rest, c))
  {
    var st := At(n, false);
    if s == [] {
      assert Escape(s, escapeDot) + rest == rest;
      assert [] + Split(st, rest, c)[0] == Split(st, rest, c)[0];
    } else {
      SkipEscaped(n, s[1..], escapeDot, rest, c);
      var head, tail := EscapeChar(s[0], escapeDot), Escape(s[1..], escapeDot);
      assert head + tail + rest == head + (tail + rest);
      SkipChar(n, s[0], escapeDot, tail + rest, c);
      PrependTwice(head, tail, Split(st, rest, c));
    }
  }

  lemma SkipChar(n: nat, x: char, escapeDot: bool, rest: string, c: char)
    requires c in {'<', ',', '('} || (c == '.' && escapeDot)
    ensures Run(At(n, false), EscapeChar(x, escapeDot) + rest) == Run(At(n, false), rest)
    ensures Split(At(n, false), EscapeChar(x, escapeDot) + rest, c)
         == Prepend(EscapeChar(x, escapeDot), Split(At(n, false), rest, c))
  {
    var e := EscapeChar(x, escapeDot) + rest;
    if Special(x, escapeDot) {
      assert e[1..] == [x] + rest && ([x] + rest)[1..] == rest;
      assert Split(At(n, true), [x] + rest, c) == Prepend([x], Split(At(n, false), rest, c));
      PrependTwice(['\\'], [x], Split(At(n, false), rest, c));
      assert ['\\'] + [x] == EscapeChar(x, escapeDot);
    } else {
      assert e[1..] == rest;
    }
  }
}
