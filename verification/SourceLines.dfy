/**
 * common/source.cc and common/ast.cc: positions, lines and columns, snippets, and views of a part of a source.
 */
module SourceLines {
  import opened Results
  import opened Utf8
  import opened Sources
  import opened SourcePositions

  const LINE_FEED := 10

  datatype Location = Location(line: int, column: int)

  // ---------- the line table ----------

  /** The entries of the line table are the places after line feeds, in order, and one past the end. */
  lemma {:induction false} NewlinesAre(cps: seq<int>)
    ensures forall x :: x in Newlines(cps) <==> 1 <= x <= |cps| && cps[x - 1] == LINE_FEED
    ensures forall i, j | 0 <= i < j < |Newlines(cps)| :: Newlines(cps)[i] < Newlines(cps)[j]
    decreases |cps|
  {
    if cps != [] {
      var init := cps[..|cps| - 1];
      NewlinesAre(init);
      forall i | 0 <= i < |Newlines(init)| ensures Newlines(init)[i] <= |init| {
        assert Newlines(init)[i] in Newlines(init);
      }
      forall x ensures x in Newlines(cps) <==> 1 <= x <= |cps| && cps[x - 1] == LINE_FEED {
        assert x in Newlines(init) <==> 1 <= x <= |init| && cps[x - 1] == LINE_FEED;
      }
    }
  }

  ghost predicate Increasing(offsets: seq<nat>) {
    forall i, j | 0 <= i < j < |offsets| :: offsets[i] < offsets[j]
  }

  lemma TableIncreases(cps: seq<int>)
    ensures
      var offsets := LineOffsets(cps);
      && Increasing(offsets) && offsets[0] > 0 && offsets[|offsets| - 1] == |cps| + 1
      && forall i | 0 <= i < |offsets| - 1 :: 1 <= offsets[i] <= |cps| && cps[offsets[i] - 1] == LINE_FEED
  {
    NewlinesAre(cps);
    forall i | 0 <= i < |Newlines(cps)|
      ensures 1 <= Newlines(cps)[i] <= |cps| && cps[Newlines(cps)[i] - 1] == LINE_FEED {
      assert Newlines(cps)[i] in Newlines(cps);
    }
  }

  // ---------- finding lines ----------

  /** How many entries at the front are no further than a position. */
  function Passed(offsets: seq<nat>, position: int): nat {
    if offsets == [] || offsets[0] > position then 0 else 1 + Passed(offsets[1..], position)
  }

  /** Where a line starts, lines counted from 1: after the line feed before it. */
  function StartOf(offsets: seq<nat>, line: int): Option<int> {
    if line < 1 then None
    else if line == 1 then Some(0)
    else if line <= |offsets| then Some(offsets[line - 2])
    else None
  }

  function LocationAt(offsets: seq<nat>, position: int): (l: Option<Location>) {
    if position < 0 then None
    else
      var line := 1 + Passed(offsets, position);
      Some(Location(line, position - if line == 1 then 0 else if line - 2 < |offsets| then offsets[line - 2] else 0))
  }

  function PositionAt(offsets: seq<nat>, location: Location): Option<int> {
    if location.line < 1 || location.column < 0 then None
    else
      var start := StartOf(offsets, location.line);
      if start.None? then None else Some(start.value + location.column)
  }

  lemma {:induction false} PassedIs(offsets: seq<nat>, position: int)
    ensures Passed(offsets, position) <= |offsets|
    ensures forall k | 0 <= k < Passed(offsets, position) :: offsets[k] <= position
    ensures Passed(offsets, position) < |offsets| ==> offsets[Passed(offsets, position)] > position
    decreases |offsets|
  {
    if offsets != [] && offsets[0] <= position {
      PassedIs(offsets[1..], position);
    }
  }

  /** In an increasing table the place where a position stops is determined. */
  lemma PassedUnique(offsets: seq<nat>, position: int, n: nat)
    requires Increasing(offsets) && n <= |offsets|
    requires n > 0 ==> offsets[n - 1] <= position
    requires n < |offsets| ==> offsets[n] > position
    ensures Passed(offsets, position) == n
  {
    PassedIs(offsets, position);
  }

  method FindLinePosition(offsets: seq<nat>, line: int) returns (start: Option<int>)
    ensures start == StartOf(offsets, line)
  {
    if line < 1 {
      return None;
    }
    if line == 1 {
      return Some(0);
    }
    if line <= |offsets| {
      return Some(offsets[line - 2]);
    }
    return None;
  }

  method FindLine(offsets: seq<nat>, position: int) returns (found: Option<(int, int)>)
    ensures found.None? <==> position < 0
    ensures found.Some? ==>
      found.value.0 == 1 + Passed(offsets, position)
        && LocationAt(offsets, position) == Some(Location(found.value.0, position - found.value.1))
  {
    if position < 0 {
      return None;
    }
    var line := 1;
    PassedIs(offsets, position);
    assert offsets[0..] == offsets;
    for i := 0 to |offsets|
      invariant line == i + 1
      invariant Passed(offsets, position) == i + Passed(offsets[i..], position)
    {
      assert offsets[i..][1..] == offsets[i + 1..];
      if offsets[i] > position {
        break;
      }
      line := line + 1;
    }
    if line == 1 {
      return Some((line, 0));
    }
    return Some((line, offsets[line - 2]));
  }

  method GetLocation(source: Source, position: int) returns (location: Option<Location>)
    ensures location == LocationAt(source.lineOffsets, position)
  {
    var found := FindLine(source.lineOffsets, position);
    if found.Some? {
      return Some(Location(found.value.0, position - found.value.1));
    }
    return None;
  }

  method GetPosition(source: Source, location: Location) returns (position: Option<int>)
    ensures position == PositionAt(source.lineOffsets, location)
  {
    if location.line < 1 || location.column < 0 {
      return None;
    }
    var start := FindLinePosition(source.lineOffsets, location.line);
    if start.Some? {
      return Some(start.value + location.column);
    }
    return None;
  }

  // ---------- what a location means ----------

  function CountLineFeeds(cps: seq<int>): nat
    decreases |cps|
  {
    if cps == [] then 0
    else CountLineFeeds(cps[..|cps| - 1]) + if cps[|cps| - 1] == LINE_FEED then 1 else 0
  }

  /** The start of the line a position is on. */
  function LineStart(cps: seq<int>, p: nat): nat
    requires p <= |cps|
  {
    if p == 0 || cps[p - 1] == LINE_FEED then p else LineStart(cps, p - 1)
  }

  lemma {:induction false} LineFeedsPassed(cps: seq<int>, p: nat)
    requires p <= |cps|
    ensures
      var offsets, n := LineOffsets(cps), CountLineFeeds(cps[..p]);
      && n < |offsets| && (n > 0 ==> offsets[n - 1] <= p) && offsets[n] > p
      && LineStart(cps, p) == if n == 0 then 0 else offsets[n - 1]
    decreases p
  {
    TableIncreases(cps);
    NewlinesAre(cps);
    var offsets := LineOffsets(cps);
    hide Newlines;
    if p > 0 {
      LineFeedsPassed(cps, p - 1);
      assert cps[..p][..p - 1] == cps[..p - 1];
      if cps[p - 1] == LINE_FEED {
        assert p in Newlines(cps);
        var k :| 0 <= k < |Newlines(cps)| && Newlines(cps)[k] == p;
        assert offsets[k] == p && k == CountLineFeeds(cps[..p - 1]);
      }
    }
  }

  /** GetLocation gives the number of line feeds before a position, and how far it is into its line. */
  lemma LocationMeans(cps: seq<int>, p: nat)
    requires p <= |cps|
    ensures LocationAt(LineOffsets(cps), p) == Some(Location(1 + CountLineFeeds(cps[..p]), p - LineStart(cps, p)))
  {
    hide LineOffsets;
    hide LineStart;
    LineFeedsPassed(cps, p);
    TableIncreases(cps);
    PassedUnique(LineOffsets(cps), p, CountLineFeeds(cps[..p]));
  }

  /** At `s` the line begins: after the line feed that ends the line before it. */
  predicate StartsLine(cps: seq<int>, line: int, s: int) {
    0 <= s <= |cps| && CountLineFeeds(cps[..s]) == line - 1 && (s == 0 || cps[s - 1] == LINE_FEED)
  }

  lemma TableCountsLines(cps: seq<int>)
    ensures |LineOffsets(cps)| == 1 + CountLineFeeds(cps)
  {
    hide LineOffsets;
    LineFeedsPassed(cps, |cps|);
    TableIncreases(cps);
    assert cps[..|cps|] == cps;
  }

  /** FindLinePosition knows the lines of the text, one more than it has line feeds, and where each begins. */
  lemma StartMeans(cps: seq<int>, line: int)
    ensures StartOf(LineOffsets(cps), line).Some? <==> 1 <= line <= 1 + CountLineFeeds(cps)
    ensures StartOf(LineOffsets(cps), line).Some? ==> StartsLine(cps, line, StartOf(LineOffsets(cps), line).value)
  {
    hide LineOffsets;
    TableCountsLines(cps);
    TableIncreases(cps);
    if 1 < line <= |LineOffsets(cps)| {
      LineFeedsPassed(cps, LineOffsets(cps)[line - 2]);
    }
  }

  /** GetPosition counts the column from where the line begins, for each line of the text. */
  lemma PositionMeans(cps: seq<int>, location: Location)
    ensures
      PositionAt(LineOffsets(cps), location).Some?
      <==> 1 <= location.line <= 1 + CountLineFeeds(cps) && location.column >= 0
    ensures
      PositionAt(LineOffsets(cps), location).Some? ==>
        StartsLine(cps, location.line, PositionAt(LineOffsets(cps), location).value - location.column)
  {
    hide LineOffsets;
    hide StartsLine;
    StartMeans(cps, location.line);
  }

  // ---------- locations and positions are inverse ----------

  /** A position comes back exactly when it is in the text or at its end. */
  lemma PositionComesBack(cps: seq<int>, p: int)
    ensures
      var offsets := LineOffsets(cps);
      (LocationAt(offsets, p).Some? && PositionAt(offsets, LocationAt(offsets, p).value) == Some(p))
        <==> 0 <= p <= |cps|
  {
    var offsets := LineOffsets(cps);
    TableIncreases(cps);
    if p >= 0 {
      PassedIs(offsets, p);
    }
  }

  /** A location comes back exactly when its line is there and its column within the line, the line's end included. */
  lemma LocationComesBack(cps: seq<int>, location: Location)
    ensures
      var offsets := LineOffsets(cps);
      (PositionAt(offsets, location).Some?
        && LocationAt(offsets, PositionAt(offsets, location).value) == Some(location))
      <==>
      (1 <= location.line <= |offsets| && location.column >= 0
       && StartOf(offsets, location.line).value + location.column < offsets[location.line - 1])
  {
    var offsets := LineOffsets(cps);
    TableIncreases(cps);
    if PositionAt(offsets, location).Some? {
      var p := PositionAt(offsets, location).value;
      PassedIs(offsets, p);
      if location.line <= |offsets| && p < offsets[location.line - 1] {
        PassedUnique(offsets, p, location.line - 1);
      }
    }
  }

  // ---------- Ast::ComputeSourceLocation ----------

  const NO_LOCATION := Location(-1, -1)

  function Before(offsets: seq<int>, i: nat): int
    requires i <= |offsets|
  {
    if i == 0 then 0 else offsets[i - 1]
  }

  /** Line `i + 1` of a table that is sound so far holds the position. */
  ghost predicate OnLine(offsets: seq<int>, position: int, i: nat) {
    && i < |offsets|
    && (forall k | 0 <= k <= i :: Before(offsets, k) < offsets[k])
    && (forall k | 0 <= k < i :: offsets[k] <= position)
    && position < offsets[i]
  }

  method ComputeSourceLocation(positions: map<int, int>, offsets: seq<int>, exprId: int) returns (location: Location)
    ensures exprId !in positions || positions[exprId] < 0 ==> location == NO_LOCATION
    ensures exprId in positions && positions[exprId] >= 0 ==>
      var p := positions[exprId];
      if exists i: nat :: OnLine(offsets, p, i)
      then exists i: nat :: OnLine(offsets, p, i) && location == Location(i + 1, p - Before(offsets, i))
      else location == NO_LOCATION
  {
    if exprId !in positions {
      return NO_LOCATION;
    }
    var absolutePosition := positions[exprId];
    if absolutePosition < 0 {
      return NO_LOCATION;
    }
    var lineIdx, offset := -1, 0;
    for i := 0 to |offsets|
      invariant lineIdx == -1 && offset == Before(offsets, i)
      invariant forall k | 0 <= k < i :: Before(offsets, k) < offsets[k] && offsets[k] <= absolutePosition
    {
      var nextOffset := offsets[i];
      if nextOffset <= offset {
        assert forall j: nat :: !OnLine(offsets, absolutePosition, j);
        return NO_LOCATION;
      }
      if absolutePosition < nextOffset {
        lineIdx := i;
        assert OnLine(offsets, absolutePosition, i);
        break;
      }
      offset := nextOffset;
    }
    if lineIdx < 0 || lineIdx >= |offsets| {
      return NO_LOCATION;
    }
    return Location(lineIdx + 1, absolutePosition - offset);
  }

  /** On a source's own table it agrees with GetLocation, and gives nothing past the end. */
  lemma ComputedIsLocation(cps: seq<int>, p: nat, i: nat)
    requires OnLine(LineOffsets(cps), p, i)
    ensures p <= |cps| && LocationAt(LineOffsets(cps), p) == Some(Location(i + 1, p - Before(LineOffsets(cps), i)))
  {
    TableIncreases(cps);
    PassedUnique(LineOffsets(cps), p, i);
  }

  lemma ComputedWithinText(cps: seq<int>, p: nat)
    ensures (exists i: nat :: OnLine(LineOffsets(cps), p, i)) <==> p <= |cps|
  {
    var offsets := LineOffsets(cps);
    TableIncreases(cps);
    PassedIs(offsets, p);
    if p <= |cps| {
      assert OnLine(offsets, p, Passed(offsets, p));
    }
  }

  // ---------- snippets ----------

  /** SourceContentView::ToString: ASCII bytes as they are, code points of the other storages encoded again. */
  method ToString(content: Content, begin: nat, end: nat) returns (s: seq<Byte>)
    requires begin <= end <= content.Size() && Scalars(Shown(content))
    requires content.Ascii? ==> AllUpTo(Shown(content), 0x7f)
    ensures Scalars(Shown(content)[begin..end]) && s == EncodeAll(Shown(content)[begin..end])
  {
    if content.Ascii? {
      s := AsciiToString(content.chars, begin, end);
      AsciiIsItself(Shown(content)[begin..end]);
    } else {
      s := EncodeUnits(content, begin, end);
    }
  }

  method AsciiToString(chars: seq<int>, begin: nat, end: nat) returns (s: seq<Byte>)
    requires begin <= end <= |chars|
    ensures s == Shown(Ascii(chars))[begin..end]
  {
    ghost var cps := Shown(Ascii(chars));
    s := [];
    for i := begin to end
      invariant s == cps[begin..i]
    {
      assert AsUint8(chars[i]) == cps[i];
      s := s + [AsUint8(chars[i])];
    }
  }

  method EncodeUnits(content: Content, begin: nat, end: nat) returns (s: seq<Byte>)
    requires begin <= end <= content.Size() && Scalars(Shown(content))
    ensures Scalars(Shown(content)[begin..end]) && s == EncodeAll(Shown(content)[begin..end])
  {
    hide Encode;
    hide IsScalar;
    ghost var cps := Shown(content);
    assert cps[begin..begin] == [];
    s := [];
    for i := begin to end
      invariant Scalars(cps[begin..i]) && s == EncodeAll(cps[begin..i])
    {
      EncodeAppend(cps[begin..i], cps[i]);
      assert cps[begin..i + 1] == cps[begin..i] + [cps[i]];
      s := s + Encode(content.Codepoint(i));
    }
  }

  /** The code points of a line. */
  function LineOf(cps: seq<int>, line: int): seq<int>
    requires 1 <= line <= |LineOffsets(cps)|
    requires StartOf(LineOffsets(cps), line).value <= LineOffsets(cps)[line - 1] - 1 <= |cps|
  {
    cps[StartOf(LineOffsets(cps), line).value..LineOffsets(cps)[line - 1] - 1]
  }

  lemma LineBounds(cps: seq<int>, line: int)
    requires 1 <= line <= |LineOffsets(cps)|
    ensures 0 <= StartOf(LineOffsets(cps), line).value <= LineOffsets(cps)[line - 1] - 1 <= |cps|
  {
    TableIncreases(cps);
  }

  method Snippet(source: Source, line: int) returns (snippet: Option<seq<Byte>>)
    requires IsSource(source)
    ensures snippet.None? <==> Text(source) == [] || !(1 <= line <= |LineOffsets(Text(source))|)
    ensures snippet.Some? ==>
      0 <= StartOf(LineOffsets(Text(source)), line).value <= LineOffsets(Text(source))[line - 1] - 1 <= |Text(source)|
    ensures snippet.Some?
      ==> Scalars(LineOf(Text(source), line)) && snippet.value == EncodeAll(LineOf(Text(source), line))
  {
    hide Encode;
    hide EncodeAll;
    hide Newlines;
    hide Wide;
    ghost var cps := Text(source);
    TableIncreases(cps);
    var start := FindLinePosition(source.lineOffsets, line);
    if start.None? || source.content.Size() == 0 {
      return None;
    }
    var end := FindLinePosition(source.lineOffsets, line + 1);
    LineBounds(cps, line);
    var s;
    if end.Some? {
      s := ToString(source.content, start.value, end.value - 1);
    } else {
      s := ToString(source.content, start.value, source.content.Size());
    }
    return Some(s);
  }

  /** The lines from one on, with line feeds between them. */
  ghost function JoinLines(cps: seq<int>, line: int): seq<int>
    requires 1 <= line <= |LineOffsets(cps)|
    decreases |LineOffsets(cps)| - line
  {
    LineBounds(cps, line);
    LineOf(cps, line) + if line == |LineOffsets(cps)| then [] else [LINE_FEED] + JoinLines(cps, line + 1)
  }

  /** The lines joined with line feeds are the text. */
  lemma {:induction false} LinesRebuild(cps: seq<int>, line: int)
    requires 1 <= line <= |LineOffsets(cps)|
    ensures 0 <= StartOf(LineOffsets(cps), line).value <= |cps|
    ensures JoinLines(cps, line) == cps[StartOf(LineOffsets(cps), line).value..]
    decreases |LineOffsets(cps)| - line
  {
    LineBounds(cps, line);
    TableIncreases(cps);
    var offsets := LineOffsets(cps);
    hide Newlines;
    if line < |offsets| {
      LinesRebuild(cps, line + 1);
      var start, next := StartOf(offsets, line).value, offsets[line - 1];
      assert cps[next - 1] == LINE_FEED;
      SplitAtLineFeed(cps, start, next);
    }
  }

  lemma SplitAtLineFeed(cps: seq<int>, start: nat, next: nat)
    requires start < next <= |cps| && cps[next - 1] == LINE_FEED
    ensures cps[start..] == cps[start..next - 1] + ([LINE_FEED] + cps[next..])
  {
  }

  /** The bytes of snippets 1..N joined with line feeds are the bytes of the source, if it is not empty. */
  ghost function JoinSnippets(cps: seq<int>, line: int): seq<Byte>
    requires Scalars(cps) && 1 <= line <= |LineOffsets(cps)|
    decreases |LineOffsets(cps)| - line
  {
    LineBounds(cps, line);
    assert Scalars(LineOf(cps, line));
    EncodeAll(LineOf(cps, line)) + if line == |LineOffsets(cps)| then [] else [10] + JoinSnippets(cps, line + 1)
  }

  lemma {:induction false} SnippetsEncodeLines(cps: seq<int>, line: int)
    requires Scalars(cps) && 1 <= line <= |LineOffsets(cps)|
    ensures Scalars(JoinLines(cps, line)) && JoinSnippets(cps, line) == EncodeAll(JoinLines(cps, line))
    decreases |LineOffsets(cps)| - line
  {
    hide Encode;
    LineBounds(cps, line);
    var here := LineOf(cps, line);
    assert Scalars(here);
    if line < |LineOffsets(cps)| {
      SnippetsEncodeLines(cps, line + 1);
      var rest := JoinLines(cps, line + 1);
      LineFeedIsItself();
      EncodeConcat([LINE_FEED], rest);
      EncodeConcat(here, [LINE_FEED] + rest);
    } else {
      assert here + [] == here;
    }
  }

  lemma LineFeedIsItself()
    ensures Scalars([LINE_FEED]) && EncodeAll([LINE_FEED]) == [10]
  {
    EncodeAppend([], LINE_FEED);
    assert [] + [LINE_FEED] == [LINE_FEED];
  }

  lemma SnippetsRebuild(cps: seq<int>)
    requires Scalars(cps)
    ensures JoinSnippets(cps, 1) == EncodeAll(cps)
  {
    SnippetsEncodeLines(cps, 1);
    LinesRebuild(cps, 1);
    assert cps[0..] == cps;
  }

  // ---------- parts of a source ----------

  /** SourceSubrange: its range, clamped to the source, and its own line table. */
  datatype Subrange = Subrange(begin: nat, end: nat, lineOffsets: seq<nat>)

  function Clamp(x: int, low: int, high: int): int
    requires low <= high
  {
    if x < low then low else if x > high then high else x
  }

  /** The entries within a range, moved to its start. */
  function Kept(offsets: seq<nat>, begin: nat, end: nat): seq<nat>
    decreases |offsets|
  {
    if offsets == [] then []
    else
      var last := offsets[|offsets| - 1];
      Kept(offsets[..|offsets| - 1], begin, end) + if begin < last <= end then [last - begin] else []
  }

  lemma KeptAppend(offsets: seq<nat>, x: nat, begin: nat, end: nat)
    ensures Kept(offsets + [x], begin, end) == Kept(offsets, begin, end) + if begin < x <= end then [x - begin] else []
  {
    assert (offsets + [x])[..|offsets|] == offsets;
  }

  /** The line table of a subrange is the one its text would get by itself. */
  method NewSubrange(source: Source, rangeBegin: int, rangeEnd: int) returns (subrange: Subrange)
    requires IsSource(source)
    ensures
      var size := |Text(source)|;
      var begin := Clamp(rangeBegin, 0, size);
      && subrange.begin == begin && subrange.end == Clamp(rangeEnd, begin, size)
      && subrange.lineOffsets == LineOffsets(Text(source)[subrange.begin..subrange.end])
  {
    hide Wide;
    hide EncodeAll;
    hide Newlines;
    hide IsScalar;
    var size := source.content.Size();
    var begin, end := rangeBegin, rangeEnd;
    if begin < 0 {
      begin := 0;
    }
    if begin > size {
      begin := size;
    }
    if end < begin {
      end := begin;
    }
    if end > size {
      end := size;
    }
    var lineOffsets := KeepWithin(source.lineOffsets, begin, end);
    KeptIsOwn(Text(source), begin, end);
    lineOffsets := lineOffsets + [end - begin + 1];
    subrange := Subrange(begin, end, lineOffsets);
  }

  /** The loop of the constructor. */
  method KeepWithin(all: seq<nat>, begin: nat, end: nat) returns (lineOffsets: seq<nat>)
    ensures lineOffsets == Kept(all, begin, end)
  {
    lineOffsets := [];
    for i := 0 to |all|
      invariant lineOffsets == Kept(all[..i], begin, end)
    {
      KeptAppend(all[..i], all[i], begin, end);
      assert all[..i + 1] == all[..i] + [all[i]];
      if all[i] > begin && all[i] <= end {
        lineOffsets := lineOffsets + [all[i] - begin];
      }
    }
    assert all[..|all|] == all;
  }

  lemma KeptIsOwn(cps: seq<int>, begin: nat, end: nat)
    requires begin <= end <= |cps|
    ensures Kept(LineOffsets(cps), begin, end) == Newlines(cps[begin..end])
  {
    KeptNewlines(cps, begin, end);
    KeptAppend(Newlines(cps), |cps| + 1, begin, end);
  }

  lemma {:induction false} KeptNewlines(cps: seq<int>, begin: nat, end: nat)
    requires begin <= end <= |cps|
    ensures Kept(Newlines(cps), begin, end) == Newlines(cps[begin..end])
    decreases |cps|
  {
    hide Kept;
    hide Newlines;
    NothingKept(Newlines(cps), begin);
    NoNewlines();
    if begin < end {
      var n := |cps| - 1;
      var init := cps[..n];
      KeptAppend(Newlines(init), |cps|, begin, end);
      NewlinesLast(cps);
      assert Newlines(init) + [] == Newlines(init);
      if end < |cps| {
        KeptNewlines(init, begin, end);
        assert init[begin..end] == cps[begin..end];
      } else {
        KeptNewlines(init, begin, n);
        NewlinesBelow(init);
        KeptWider(Newlines(init), begin, n, end);
        var part := cps[begin..end];
        NewlinesLast(part);
        assert part[|part| - 1] == cps[n] && part[..|part| - 1] == init[begin..n];
      }
    } else {
      assert cps[begin..end] == [];
    }
  }

  lemma NoNewlines()
    ensures Newlines([]) == []
  {
  }

  lemma NewlinesLast(cps: seq<int>)
    requires cps != []
    ensures
      var n := |cps| - 1;
      Newlines(cps) == Newlines(cps[..n]) + if cps[n] == LINE_FEED then [|cps|] else []
  {
  }

  lemma NewlinesBelow(cps: seq<int>)
    ensures forall i | 0 <= i < |Newlines(cps)| :: Newlines(cps)[i] <= |cps|
  {
    NewlinesAre(cps);
    hide Newlines;
    forall i | 0 <= i < |Newlines(cps)| ensures Newlines(cps)[i] <= |cps| {
      assert Newlines(cps)[i] in Newlines(cps);
    }
  }

  lemma {:induction false} KeptWider(offsets: seq<nat>, begin: nat, end: nat, wider: nat)
    requires end <= wider && forall i | 0 <= i < |offsets| :: offsets[i] <= end
    ensures Kept(offsets, begin, end) == Kept(offsets, begin, wider)
    decreases |offsets|
  {
    if offsets != [] {
      KeptWider(offsets[..|offsets| - 1], begin, end, wider);
    }
  }

  lemma {:induction false} NothingKept(offsets: seq<nat>, begin: nat)
    ensures Kept(offsets, begin, begin) == []
    decreases |offsets|
  {
    if offsets != [] {
      NothingKept(offsets[..|offsets| - 1], begin);
    }
  }
}
