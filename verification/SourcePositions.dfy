/**
 * common/source.cc and common/ast.cc: from byte offsets to code points, and between positions and lines.
 */
module SourcePositions {
  import opened Results
  import opened Utf8
  import opened Sources

  // ---------- byte offsets ----------

  /** The byte at which code point `k` starts. */
  ghost function ByteStart(cps: seq<int>, k: nat): nat
    requires Scalars(cps) && k <= |cps|
  {
    |EncodeAll(cps[..k])|
  }

  /** Code point `k` holds byte `b`; the end of the text belongs to the end of the code points. */
  ghost predicate CodePointHolds(cps: seq<int>, k: nat, b: int)
    requires Scalars(cps)
  {
    if k < |cps| then ByteStart(cps, k) <= b < ByteStart(cps, k + 1)
    else k == |cps| && b == ByteStart(cps, k)
  }

  lemma StartNext(cps: seq<int>, k: nat)
    requires Scalars(cps) && k < |cps|
    ensures ByteStart(cps, k + 1) == ByteStart(cps, k) + |Encode(cps[k])|
  {
    EncodeAppend(cps[..k], cps[k]);
    assert cps[..k + 1] == cps[..k] + [cps[k]];
  }

  lemma {:induction false} StartsIncrease(cps: seq<int>, i: nat, j: nat)
    requires Scalars(cps) && i <= j <= |cps|
    ensures ByteStart(cps, j) - ByteStart(cps, i) >= j - i
    decreases j - i
  {
    if i < j {
      StartsIncrease(cps, i, j - 1);
      StartNext(cps, j - 1);
    }
  }

  /** At most one code point holds a byte. */
  lemma HolderIsUnique(cps: seq<int>, i: nat, j: nat, b: int)
    requires Scalars(cps) && CodePointHolds(cps, i, b) && CodePointHolds(cps, j, b)
    ensures i == j
  {
    if i < j {
      StartsIncrease(cps, i + 1, j);
    } else if j < i {
      StartsIncrease(cps, j + 1, i);
    }
  }

  lemma {:induction false} AsciiStretch(cps: seq<int>, i: nat, j: nat)
    requires Scalars(cps) && i <= j <= |cps| && forall k | i <= k < j :: cps[k] <= 0x7f
    ensures ByteStart(cps, j) - ByteStart(cps, i) == j - i
    decreases j - i
  {
    if i < j {
      AsciiStretch(cps, i, j - 1);
      StartNext(cps, j - 1);
    }
  }

  /** The entries mark every wide code point of the first `n`, in order, with the byte it starts at. */
  ghost predicate Marks(entries: seq<OffsetEntry>, cps: seq<int>, n: nat)
    requires Scalars(cps) && n <= |cps|
  {
    && (forall j | 0 <= j < |entries| :: entries[j].codepoint < n)
    && (forall j | 0 <= j < |entries| :: entries[j].byteOffset == ByteStart(cps, entries[j].codepoint))
    && (forall i, j | 0 <= i < j < |entries| :: entries[i].codepoint < entries[j].codepoint)
    && (forall k | 0 <= k < n && cps[k] > 0x7f :: Marked(entries, k))
  }

  ghost predicate Marked(entries: seq<OffsetEntry>, k: nat) {
    exists j :: 0 <= j < |entries| && entries[j].codepoint == k
  }

  lemma {:induction false} WideMarks(cps: seq<int>, n: nat)
    requires Scalars(cps) && n <= |cps|
    ensures Marks(Wide(cps[..n]), cps, n)
    decreases n
  {
    hide Encode;
    hide Marks;
    hide EncodeAll;
    hide IsScalar;
    if n == 0 {
      NoMarks(cps);
    } else {
      WideMarks(cps, n - 1);
      assert cps[..n] == cps[..n - 1] + [cps[n - 1]];
      TablesGrow(cps[..n - 1], cps[n - 1]);
      MarkNext(Wide(cps[..n - 1]), cps, n - 1);
    }
  }

  lemma NoMarks(cps: seq<int>)
    requires Scalars(cps)
    ensures Marks(Wide(cps[..0]), cps, 0)
  {
  }

  lemma MarkNext(entries: seq<OffsetEntry>, cps: seq<int>, n: nat)
    requires Scalars(cps) && n < |cps| && Marks(entries, cps, n)
    ensures Marks(entries + if cps[n] > 0x7f then [OffsetEntry(ByteStart(cps, n), n)] else [], cps, n + 1)
  {
    hide ByteStart;
    hide IsScalar;
    var more := entries + if cps[n] > 0x7f then [OffsetEntry(ByteStart(cps, n), n)] else [];
    forall k | 0 <= k < n + 1 && cps[k] > 0x7f ensures Marked(more, k) {
      if k < n {
        var j :| 0 <= j < |entries| && entries[j].codepoint == k;
        assert more[j].codepoint == k;
      } else {
        assert more[|entries|].codepoint == k;
      }
    }
  }

  /** No code point strictly between two neighbouring entries is wide. */
  lemma AsciiBetween(entries: seq<OffsetEntry>, cps: seq<int>, j: nat, k: nat)
    requires Scalars(cps) && Marks(entries, cps, |cps|) && j <= |entries| && k < |cps|
    requires j > 0 ==> entries[j - 1].codepoint < k
    requires j < |entries| ==> k < entries[j].codepoint
    ensures cps[k] <= 0x7f
  {
    hide ByteStart;
    hide IsScalar;
    forall i | 0 <= i < |entries| ensures entries[i].codepoint != k {
    }
    assert !Marked(entries, k);
  }

  /** std::upper_bound on the byte offsets. */
  method UpperBound(entries: seq<OffsetEntry>, byteOffset: int) returns (it: nat)
    requires forall i, j | 0 <= i < j < |entries| :: entries[i].byteOffset <= entries[j].byteOffset
    ensures it <= |entries|
    ensures forall k | 0 <= k < it :: entries[k].byteOffset <= byteOffset
    ensures forall k | it <= k < |entries| :: byteOffset < entries[k].byteOffset
  {
    var low, high := 0, |entries|;
    while low < high
      invariant 0 <= low <= high <= |entries|
      invariant forall k | 0 <= k < low :: entries[k].byteOffset <= byteOffset
      invariant forall k | high <= k < |entries| :: byteOffset < entries[k].byteOffset
    {
      var mid := (low + high) / 2;
      if byteOffset < entries[mid].byteOffset {
        high := mid;
      } else {
        low := mid + 1;
      }
    }
    it := low;
  }

  lemma OffsetsIncrease(entries: seq<OffsetEntry>, cps: seq<int>)
    requires Scalars(cps) && Marks(entries, cps, |cps|)
    ensures
      var all := entries + [OffsetEntry(ByteStart(cps, |cps|), |cps|)];
      forall i, j | 0 <= i < j < |all| :: all[i].byteOffset < all[j].byteOffset && all[i].codepoint < all[j].codepoint
  {
    var all := entries + [OffsetEntry(ByteStart(cps, |cps|), |cps|)];
    forall i, j | 0 <= i < j < |all|
      ensures all[i].byteOffset < all[j].byteOffset && all[i].codepoint < all[j].codepoint {
      StartsIncrease(cps, all[i].codepoint, all[j].codepoint);
    }
  }

  /** Between an entry's code point and the next entry's, bytes and code points keep the next entry's distance. */
  lemma ShiftBetween(entries: seq<OffsetEntry>, cps: seq<int>, j: nat, k: nat)
    requires Scalars(cps) && Marks(entries, cps, |cps|) && j <= |entries|
    requires var next := if j < |entries| then entries[j].codepoint else |cps|;
      (if j > 0 then entries[j - 1].codepoint + 1 else 0) <= k <= next
    ensures var next := if j < |entries| then entries[j].codepoint else |cps|;
      ByteStart(cps, next) - ByteStart(cps, k) == next - k
  {
    var next := if j < |entries| then entries[j].codepoint else |cps|;
    forall i | k <= i < next ensures cps[i] <= 0x7f {
      AsciiBetween(entries, cps, j, i);
    }
    AsciiStretch(cps, k, next);
  }

  /** Before the first wide code point bytes and code points agree. */
  lemma HeldBefore(entries: seq<OffsetEntry>, cps: seq<int>, b: nat)
    requires Scalars(cps) && Marks(entries, cps, |cps|)
    requires if entries == [] then b <= |cps| else b < entries[0].byteOffset
    ensures b <= |cps| && CodePointHolds(cps, b, b)
    ensures entries == [] ==> ByteStart(cps, |cps|) == |cps|
  {
    hide EncodeAll;
    ShiftBetween(entries, cps, 0, 0);
    assert cps[..0] == [] && ByteStart(cps, 0) == 0 by {
      StartOfFirst(cps);
    }
    ShiftBetween(entries, cps, 0, b);
    if b < |cps| {
      ShiftBetween(entries, cps, 0, b + 1);
    }
  }

  lemma StartOfFirst(cps: seq<int>)
    requires Scalars(cps)
    ensures ByteStart(cps, 0) == 0 && ByteStart(cps, |cps|) == |EncodeAll(cps)|
  {
    assert cps[..0] == [] && cps[..|cps|] == cps;
  }

  /**
   * From an entry on, up to the next or the end, the byte is in the entry's code point or in the run of ASCII after
   * it.
   */
  lemma HeldBetween(entries: seq<OffsetEntry>, cps: seq<int>, j: nat, b: nat)
    requires Scalars(cps) && Marks(entries, cps, |cps|) && 0 < j <= |entries|
    requires var next := if j < |entries| then entries[j] else OffsetEntry(ByteStart(cps, |cps|), |cps|);
      entries[j - 1].byteOffset <= b < next.byteOffset
    ensures
      var next := if j < |entries| then entries[j] else OffsetEntry(ByteStart(cps, |cps|), |cps|);
      var shifted := b - (next.byteOffset - next.codepoint);
      var k := if entries[j - 1].codepoint > shifted then entries[j - 1].codepoint else shifted;
      0 <= k < |cps| && CodePointHolds(cps, k, b)
  {
    hide EncodeAll;
    var next := if j < |entries| then entries[j] else OffsetEntry(ByteStart(cps, |cps|), |cps|);
    var p := entries[j - 1].codepoint;
    var shifted := b - (next.byteOffset - next.codepoint);
    ShiftBetween(entries, cps, j, p + 1);
    if shifted > p {
      ShiftBetween(entries, cps, j, shifted);
      ShiftBetween(entries, cps, j, shifted + 1);
    }
  }

  /** What a source's content is. */
  function Text(source: Source): seq<int> {
    Shown(source.content)
  }

  ghost predicate IsSource(source: Source) {
    Holds(source, Text(source))
  }

  /** The code point that holds a byte, from the entries for wide code points alone. */
  method GetPositionFromByteOffset(source: Source, byteOffset: int) returns (position: Option<int>)
    requires IsSource(source)
    ensures position.None? <==> byteOffset < 0 || byteOffset > |EncodeAll(Text(source))|
    ensures position.Some? ==> position.value >= 0 && CodePointHolds(Text(source), position.value, byteOffset)
  {
    hide Encode;
    hide EncodeAll;
    hide Marks;
    hide Wide;
    hide CodePointHolds;
    ghost var cps := Text(source);
    ghost var wide := Wide(cps);
    assert cps[..|cps|] == cps;
    WideMarks(cps, |cps|);
    OffsetsIncrease(wide, cps);
    StartOfFirst(cps);
    EndHeld(cps);
    var entries := source.byteOffsets;
    assert entries != [] ==> wide != [] && entries == wide + [OffsetEntry(ByteStart(cps, |cps|), |cps|)];
    if byteOffset < 0 {
      return None;
    }
    if entries == [] {
      HeldBefore(wide, cps, 0);
      if byteOffset > source.content.Size() {
        return None;
      }
      HeldBefore(wide, cps, byteOffset);
      return Some(byteOffset);
    }
    if byteOffset > entries[|entries| - 1].byteOffset {
      return None;
    }
    var it := UpperBound(entries, byteOffset);
    if it == 0 {
      assert entries[0] == wide[0] && byteOffset < entries[0].byteOffset;
      HeldBefore(wide, cps, byteOffset);
      return Some(byteOffset);
    }
    var prev := entries[it - 1];
    if it == |entries| {
      return Some(prev.codepoint);
    }
    var nextDelta := entries[it].byteOffset - entries[it].codepoint;
    HeldBetween(wide, cps, it, byteOffset);
    return Some(if prev.codepoint > byteOffset - nextDelta then prev.codepoint else byteOffset - nextDelta);
  }

  lemma EndHeld(cps: seq<int>)
    requires Scalars(cps)
    ensures CodePointHolds(cps, |cps|, |EncodeAll(cps)|)
  {
    StartOfFirst(cps);
  }
}
