/**
 * common/source.cc: reading UTF-8 text into the narrowest storage that holds its code points, with a table of
 * lines and a table of byte offsets.
 */
module Sources {
  import opened Results
  import opened Utf8

  datatype OffsetEntry = OffsetEntry(byteOffset: nat, codepoint: nat)

  datatype SourceError = TooManyBytes | TooManyCodePoints | MalformedUtf8

  const INT32_MAX: nat := 0x7fff_ffff
  const SIZE_MAX: nat := 0xffff_ffff_ffff_ffff

  // The casts of the source.
  function AsUint8(c: int): Byte {
    c % 0x100
  }

  function AsUint16(c: int): nat {
    c % 0x1_0000
  }

  function AsUint32(c: int): nat {
    c % 0x1_0000_0000
  }

  /** A byte read through `char`, which may be signed. */
  function AsChar(b: Byte): int {
    if b < 0x80 then b else b - 0x100
  }

  /** The four storages, by the width of their elements. */
  datatype Content =
    | Ascii(chars: seq<int>)
    | Latin1(units8: seq<Byte>)
    | Basic(units16: seq<nat>)
    | Supplemental(units32: seq<nat>)
  {
    function Size(): nat {
      match this
      case Ascii(chars) => |chars|
      case Latin1(units) => |units|
      case Basic(units) => |units|
      case Supplemental(units) => |units|
    }

    /** SourceContentView::at. */
    function Codepoint(position: nat): int
      requires position < Size()
    {
      match this
      case Ascii(chars) => AsUint8(chars[position])
      case Latin1(units) => units[position]
      case Basic(units) => units[position]
      case Supplemental(units) => units[position]
    }
  }

  /** The code points a content view shows. */
  function Shown(content: Content): (cps: seq<int>)
    ensures |cps| == content.Size() && forall i | 0 <= i < |cps| :: cps[i] == content.Codepoint(i)
  {
    seq(content.Size(), i requires 0 <= i < content.Size() => content.Codepoint(i))
  }

  datatype Source = Source(content: Content, lineOffsets: seq<nat>, byteOffsets: seq<OffsetEntry>)

  // ---------- what the tables hold ----------

  /** The positions after the line feeds. */
  function Newlines(cps: seq<int>): seq<nat>
    decreases |cps|
  {
    if cps == [] then []
    else Newlines(cps[..|cps| - 1]) + if cps[|cps| - 1] == 10 then [|cps|] else []
  }

  function LineOffsets(cps: seq<int>): seq<nat> {
    Newlines(cps) + [|cps| + 1]
  }

  /** Where the code points of more than one byte are. */
  function Wide(cps: seq<int>): seq<OffsetEntry>
    requires Scalars(cps)
    decreases |cps|
  {
    if cps == [] then []
    else
      var init := cps[..|cps| - 1];
      Wide(init) + if cps[|cps| - 1] > 0x7f then [OffsetEntry(|EncodeAll(init)|, |init|)] else []
  }

  function ByteOffsets(cps: seq<int>): seq<OffsetEntry>
    requires Scalars(cps)
  {
    if Wide(cps) == [] then [] else Wide(cps) + [OffsetEntry(|EncodeAll(cps)|, |cps|)]
  }

  /** The source of a text that is the encoding of `cps`. */
  ghost predicate Holds(source: Source, cps: seq<int>) {
    && Scalars(cps) && Shown(source.content) == cps && (source.content.Ascii? ==> AllUpTo(cps, 0x7f))
    && source.lineOffsets == LineOffsets(cps) && source.byteOffsets == ByteOffsets(cps)
  }

  ghost predicate AllUpTo(cps: seq<int>, limit: int) {
    forall i | 0 <= i < |cps| :: 0 <= cps[i] <= limit
  }

  lemma AsciiByte(c: int)
    requires 0 <= c <= 0x7f
    ensures IsScalar(c) && Encode(c) == [c]
  {
  }

  lemma {:induction false} AsciiIsItself(cps: seq<int>)
    requires Scalars(cps) && AllUpTo(cps, 0x7f)
    ensures EncodeAll(cps) == cps && Wide(cps) == []
    decreases |cps|
  {
    hide Encode;
    if cps != [] {
      var init, last := cps[..|cps| - 1], cps[|cps| - 1];
      AsciiIsItself(init);
      AsciiByte(last);
      assert cps == init + [last];
      EncodeAppend(init, last);
      TablesGrow(init, last);
      hide EncodeAll;
      hide Wide;
      hide Newlines;
    }
  }

  // ---------- reading ----------

  /** What comes after a loop: the labels of the source's jumps, its return, or an error. */
  datatype Next = Done | ToLatin1 | ToBasic | ToSupplemental | Failed(error: SourceError)

  /** The local variables of NewSourceImpl. */
  class SourceReader {
    const text: seq<Byte>
    const maxCodepoints: nat
    var index: nat
    var offset: nat
    var data8: seq<Byte>
    var data16: seq<nat>
    var data32: seq<nat>
    var lineOffsets: seq<nat>
    var byteOffsets: seq<OffsetEntry>

    // The code points read so far.
    ghost var cps: seq<int>

    constructor (text: seq<Byte>, maxCodepoints: nat)
      ensures this.text == text && this.maxCodepoints == maxCodepoints && Read() && cps == []
      ensures data8 == [] && data16 == [] && data32 == []
    {
      this.text := text;
      this.maxCodepoints := maxCodepoints;
      index, offset := 0, 0;
      data8, data16, data32 := [], [], [];
      lineOffsets, byteOffsets := [], [];
      cps := [];
    }

    /** The tables describe what has been read. */
    ghost predicate Read()
      reads this
    {
      && Scalars(cps) && index <= |text| && text[..index] == EncodeAll(cps)
      && offset == |cps| <= maxCodepoints
      && lineOffsets == Newlines(cps) && byteOffsets == Wide(cps)
    }

    /** Why reading stopped before the end. */
    ghost predicate StoppedBy(error: SourceError)
      reads this
    {
      && Read() && index < |text|
      && match error
         case TooManyCodePoints => offset >= maxCodepoints
         case MalformedUtf8 => Malformed(Decode(text[index..]))
         case TooManyBytes => false
    }

    /** The code point that comes next, unless the limit is reached or the text malformed. */
    ghost predicate Comes(codePoint: int, codeUnits: nat)
      reads this
    {
      && Read() && index < |text| && offset < maxCodepoints
      && IsScalar(codePoint) && codeUnits == |Encode(codePoint)| && index + codeUnits <= |text|
      && text[index..index + codeUnits] == Encode(codePoint)
    }

    /** The head of each loop's body. */
    method Peek() returns (error: Option<SourceError>, codePoint: int, codeUnits: nat)
      requires Read() && index < |text|
      ensures if error.Some? then StoppedBy(error.value) else Comes(codePoint, codeUnits)
    {
      codePoint, codeUnits := 0, 0;
      if offset >= maxCodepoints {
        return Some(TooManyCodePoints), codePoint, codeUnits;
      }
      var (c, n) := Decode(text[index..]);
      if c == REPLACEMENT && n == 1 {
        return Some(MalformedUtf8), codePoint, codeUnits;
      }
      EncodeDecode(text[index..]);
      assert text[index..][..n] == text[index..index + n];
      return None, c, n;
    }

    /** The bookkeeping of each loop's body: lines, places of wide code points, and moving on. */
    method Take(codePoint: int, codeUnits: nat)
      requires Comes(codePoint, codeUnits)
      modifies this`index, this`offset, this`lineOffsets, this`byteOffsets, this`cps
      ensures Read() && cps == old(cps) + [codePoint] && index > old(index)
    {
      hide Encode;
      hide EncodeAll;
      hide Newlines;
      hide Wide;
      hide Scalars;
      EncodeAppend(cps, codePoint);
      TablesGrow(cps, codePoint);
      UnitsTellWidth(codePoint);
      assert text[..index + codeUnits] == text[..index] + text[index..index + codeUnits];
      if codePoint == 10 {
        lineOffsets := lineOffsets + [offset + 1];
      }
      if codeUnits > 1 {
        byteOffsets := byteOffsets + [OffsetEntry(index, offset)];
      }
      index := index + codeUnits;
      offset := offset + 1;
      cps := cps + [codePoint];
    }

    // Moving what has been read to a wider storage.

    method TextTo16()
      requires data16 == [] && index <= |text| && AllUpTo(text[..index], 0x7f)
      modifies this`data16
      ensures data16 == text[..index]
    {
      for i := 0 to index
        invariant data16 == text[..i]
      {
        assert text[..index][i] == text[i];
        data16 := data16 + [AsUint8(AsChar(text[i])) as nat];
      }
    }

    method TextTo32()
      requires data32 == [] && index <= |text| && AllUpTo(text[..index], 0x7f)
      modifies this`data32
      ensures data32 == text[..index]
    {
      for i := 0 to index
        invariant data32 == text[..i]
      {
        assert text[..index][i] == text[i];
        data32 := data32 + [AsUint32(AsChar(text[i]))];
      }
    }

    method Data8To16()
      requires data16 == []
      modifies this`data8, this`data16
      ensures data16 == old(data8) && data8 == []
    {
      for i := 0 to |data8|
        invariant data8 == old(data8) && data16 == old(data8)[..i]
      {
        data16 := data16 + [data8[i] as nat];
      }
      assert data8[..|data8|] == data8;
      data8 := [];
    }

    method Data8To32()
      requires data32 == []
      modifies this`data8, this`data32
      ensures data32 == old(data8) && data8 == []
    {
      for i := 0 to |data8|
        invariant data8 == old(data8) && data32 == old(data8)[..i]
      {
        data32 := data32 + [data8[i] as nat];
      }
      assert data8[..|data8|] == data8;
      data8 := [];
    }

    method Data16To32()
      requires data32 == []
      modifies this`data16, this`data32
      ensures data32 == old(data16) && data16 == []
    {
      for i := 0 to |data16|
        invariant data16 == old(data16) && data32 == old(data16)[..i]
      {
        data32 := data32 + [data16[i]];
      }
      assert data16[..|data16|] == data16;
      data16 := [];
    }

    // The ends of the ASCII loop's body, for the first code point that is not ASCII.

    method LeaveAsciiFor8(codePoint: int, codeUnits: nat)
      requires Comes(codePoint, codeUnits) && AllUpTo(cps, 0x7f) && 0x7f < codePoint <= 0xff && data8 == []
      modifies this`index, this`offset, this`lineOffsets, this`byteOffsets, this`cps, this`data8
      ensures Read() && data8 == cps && AllUpTo(cps, 0xff) && Wide(cps) != []
    {
      hide Encode;
      hide EncodeAll;
      hide Newlines;
      hide Wide;
      AsciiIsItself(cps);
      LastIsWide(cps, codePoint);
      data8 := data8 + text[..index];
      data8 := data8 + [AsUint8(codePoint)];
      Take(codePoint, codeUnits);
    }

    method LeaveAsciiFor16(codePoint: int, codeUnits: nat)
      requires Comes(codePoint, codeUnits) && AllUpTo(cps, 0x7f) && 0x7f < codePoint <= 0xffff && data16 == []
      modifies this`index, this`offset, this`lineOffsets, this`byteOffsets, this`cps, this`data16
      ensures Read() && data16 == cps && AllUpTo(cps, 0xffff) && Wide(cps) != []
    {
      hide Encode;
      hide EncodeAll;
      hide Newlines;
      hide Wide;
      AsciiIsItself(cps);
      LastIsWide(cps, codePoint);
      TextTo16();
      data16 := data16 + [AsUint16(codePoint)];
      Take(codePoint, codeUnits);
    }

    method LeaveAsciiFor32(codePoint: int, codeUnits: nat)
      requires Comes(codePoint, codeUnits) && AllUpTo(cps, 0x7f) && 0x7f < codePoint && data32 == []
      modifies this`index, this`offset, this`lineOffsets, this`byteOffsets, this`cps, this`data32
      ensures Read() && data32 == cps && Wide(cps) != []
    {
      hide Encode;
      hide EncodeAll;
      hide Newlines;
      hide Wide;
      AsciiIsItself(cps);
      LastIsWide(cps, codePoint);
      TextTo32();
      data32 := data32 + [codePoint];
      Take(codePoint, codeUnits);
    }

    /** While only ASCII has been read the text itself is the content. */
    method AsciiLoop() returns (next: Next)
      requires Read() && cps == [] && data8 == [] && data16 == [] && data32 == []
      modifies this
      ensures next.Failed? ==> StoppedBy(next.error)
      ensures !next.Failed? ==> Read()
      ensures next.Done? ==> index == |text| && AllUpTo(cps, 0x7f)
      ensures next.ToLatin1? ==> data8 == cps && data16 == [] && data32 == [] && AllUpTo(cps, 0xff) && Wide(cps) != []
      ensures next.ToBasic? ==> data16 == cps && data32 == [] && AllUpTo(cps, 0xffff) && Wide(cps) != []
      ensures next.ToSupplemental? ==> data32 == cps && Wide(cps) != []
    {
      hide Encode;
      hide EncodeAll;
      hide Wide;
      hide Newlines;
      while index < |text|
        invariant Read() && AllUpTo(cps, 0x7f)
        invariant data8 == [] && data16 == [] && data32 == []
        decreases |text| - index
      {
        var error, codePoint, codeUnits := Peek();
        if error.Some? {
          return Failed(error.value);
        }
        if codePoint <= 0x7f {
          Take(codePoint, codeUnits);
          continue;
        }
        if codePoint <= 0xff {
          LeaveAsciiFor8(codePoint, codeUnits);
          return ToLatin1;
        }
        if codePoint <= 0xffff {
          LeaveAsciiFor16(codePoint, codeUnits);
          return ToBasic;
        }
        LeaveAsciiFor32(codePoint, codeUnits);
        return ToSupplemental;
      }
      return Done;
    }

    /** Code points up to 0xff, a byte each. */
    method Latin1Loop() returns (next: Next)
      requires Read() && data8 == cps && data16 == [] && data32 == [] && AllUpTo(cps, 0xff) && Wide(cps) != []
      modifies this
      ensures next.Failed? ==> StoppedBy(next.error)
      ensures !next.Failed? ==> Read() && !next.ToLatin1? && Wide(cps) != []
      ensures next.Done? ==> index == |text| && data8 == cps && AllUpTo(cps, 0xff)
      ensures next.ToBasic? ==> data16 == cps && data32 == [] && AllUpTo(cps, 0xffff)
      ensures next.ToSupplemental? ==> data32 == cps
    {
      hide Encode;
      hide EncodeAll;
      hide Wide;
      hide Newlines;
      while index < |text|
        invariant Read() && data8 == cps && data16 == [] && data32 == [] && AllUpTo(cps, 0xff) && Wide(cps) != []
        decreases |text| - index
      {
        var error, codePoint, codeUnits := Peek();
        if error.Some? {
          return Failed(error.value);
        }
        StillWide(cps, codePoint);
        if codePoint <= 0xff {
          data8 := data8 + [AsUint8(codePoint)];
          Take(codePoint, codeUnits);
          continue;
        }
        if codePoint <= 0xffff {
          Data8To16();
          data16 := data16 + [AsUint16(codePoint)];
          Take(codePoint, codeUnits);
          return ToBasic;
        }
        Data8To32();
        data32 := data32 + [codePoint];
        Take(codePoint, codeUnits);
        return ToSupplemental;
      }
      return Done;
    }

    /** Code points up to 0xffff, two bytes each. */
    method BasicLoop() returns (next: Next)
      requires Read() && data16 == cps && data32 == [] && AllUpTo(cps, 0xffff) && Wide(cps) != []
      modifies this
      ensures next.Failed? ==> StoppedBy(next.error)
      ensures !next.Failed? ==> Read() && (next.Done? || next.ToSupplemental?) && Wide(cps) != []
      ensures next.Done? ==> index == |text| && data16 == cps && AllUpTo(cps, 0xffff)
      ensures next.ToSupplemental? ==> data32 == cps
    {
      hide Encode;
      hide EncodeAll;
      hide Wide;
      hide Newlines;
      while index < |text|
        invariant Read() && data16 == cps && data32 == [] && AllUpTo(cps, 0xffff) && Wide(cps) != []
        decreases |text| - index
      {
        var error, codePoint, codeUnits := Peek();
        if error.Some? {
          return Failed(error.value);
        }
        StillWide(cps, codePoint);
        if codePoint <= 0xffff {
          data16 := data16 + [AsUint16(codePoint)];
          Take(codePoint, codeUnits);
          continue;
        }
        Data16To32();
        data32 := data32 + [codePoint];
        Take(codePoint, codeUnits);
        return ToSupplemental;
      }
      return Done;
    }

    /** All code points, four bytes each. */
    method SupplementalLoop() returns (next: Next)
      requires Read() && data32 == cps && Wide(cps) != []
      modifies this
      ensures next.Failed? ==> StoppedBy(next.error)
      ensures !next.Failed? ==> next.Done? && Read() && index == |text| && data32 == cps && Wide(cps) != []
    {
      hide Encode;
      hide EncodeAll;
      hide Wide;
      hide Newlines;
      while index < |text|
        invariant Read() && data32 == cps && Wide(cps) != []
        decreases |text| - index
      {
        var error, codePoint, codeUnits := Peek();
        if error.Some? {
          return Failed(error.value);
        }
        StillWide(cps, codePoint);
        data32 := data32 + [codePoint];
        Take(codePoint, codeUnits);
      }
      return Done;
    }

    /** The loops one after the other, as the source's jumps chain them, and the source each return makes. */
    method Run() returns (source: Option<Source>, error: Option<SourceError>)
      requires Read() && cps == [] && data8 == [] && data16 == [] && data32 == []
      modifies this
      ensures if error.Some? then source.None? && StoppedBy(error.value) else source.Some?
      ensures source.Some? ==>
        Scalars(cps) && EncodeAll(cps) == text && |cps| <= maxCodepoints && Holds(source.value, cps)
    {
      hide Encode;
      hide EncodeAll;
      hide Newlines;
      hide Wide;
      hide Malformed;
      hide Decode;
      var next := AsciiLoop();
      if next.Done? {
        source := Some(Source(Ascii(Chars(text)), lineOffsets + [offset + 1], []));
        assert text[..index] == text;
        AsciiHolds(text, cps);
        return source, None;
      }
      if next.ToLatin1? {
        next := Latin1Loop();
        if next.Done? {
          source := Finish(Latin1(data8));
          return source, None;
        }
      }
      if next.ToBasic? {
        next := BasicLoop();
        if next.Done? {
          source := Finish(Basic(data16));
          return source, None;
        }
      }
      if next.ToSupplemental? {
        next := SupplementalLoop();
        if next.Done? {
          source := Finish(Supplemental(data32));
          return source, None;
        }
      }
      return None, Some(next.error);
    }

    /** The return of the loops other than the first. */
    method Finish(content: Content) returns (source: Option<Source>)
      requires Read() && index == |text| && Wide(cps) != [] && Shown(content) == cps && !content.Ascii?
      ensures source.Some? && Scalars(cps) && EncodeAll(cps) == text && |cps| <= maxCodepoints
        && Holds(source.value, cps)
    {
      assert text[..index] == text;
      source := Some(Source(content, lineOffsets + [offset + 1], byteOffsets + [OffsetEntry(|text|, offset)]));
    }
  }

  lemma UnitsTellWidth(c: int)
    requires IsScalar(c)
    ensures |Encode(c)| > 1 <==> c > 0x7f
    ensures |Encode(c)| >= 1
  {
  }

  lemma TablesGrow(cps: seq<int>, c: int)
    requires Scalars(cps) && IsScalar(c)
    ensures Newlines(cps + [c]) == Newlines(cps) + if c == 10 then [|cps| + 1] else []
    ensures Scalars(cps + [c])
    ensures Wide(cps + [c]) == Wide(cps) + if c > 0x7f then [OffsetEntry(|EncodeAll(cps)|, |cps|)] else []
  {
    assert (cps + [c])[..|cps|] == cps;
  }

  lemma LastIsWide(cps: seq<int>, c: int)
    requires Scalars(cps) && IsScalar(c) && c > 0x7f
    ensures Scalars(cps + [c]) && Wide(cps + [c]) != []
  {
    TablesGrow(cps, c);
  }

  lemma StillWide(cps: seq<int>, c: int)
    requires Scalars(cps) && IsScalar(c) && Wide(cps) != []
    ensures Scalars(cps + [c]) && Wide(cps + [c]) != []
  {
    TablesGrow(cps, c);
  }

  /** What made reading stop rules out that the whole text is well formed and within the limit. */
  lemma StoppedMeansBad(reader: SourceReader, error: SourceError, full: seq<int>)
    requires reader.StoppedBy(error) && Scalars(full) && EncodeAll(full) == reader.text
    ensures error == TooManyCodePoints && |full| > reader.maxCodepoints
  {
    hide Encode;
    var text, index := reader.text, reader.index;
    PrefixCodePoints(full, reader.cps);
    var k := |reader.cps|;
    assert full[..k] == reader.cps && full[..|full|] == full;
    assert k < |full|;
    NextIsEncoded(full, k);
  }

  lemma ShortTextsFit(full: seq<int>, max: nat)
    requires Scalars(full) && |EncodeAll(full)| / 4 > max
    ensures |full| > max
  {
    EncodedSize(full);
  }

  /** The text copied into a vector of `char`. */
  function Chars(text: seq<Byte>): (chars: seq<int>)
    ensures |chars| == |text| && forall i | 0 <= i < |text| :: chars[i] == AsChar(text[i])
  {
    seq(|text|, i requires 0 <= i < |text| => AsChar(text[i]))
  }

  lemma AsciiHolds(text: seq<Byte>, cps: seq<int>)
    requires Scalars(cps) && AllUpTo(cps, 0x7f) && text == EncodeAll(cps)
    ensures Holds(Source(Ascii(Chars(text)), LineOffsets(cps), []), cps)
  {
    hide Encode;
    hide Newlines;
    AsciiIsItself(cps);
    forall i | 0 <= i < |text| ensures AsUint8(Chars(text)[i]) == cps[i] {
      CharKeepsByte(text[i]);
    }
    hide AsUint8;
    hide AsChar;
    hide EncodeAll;
    hide Wide;
    assert Shown(Ascii(Chars(text))) == cps;
  }

  lemma CharKeepsByte(b: Byte)
    ensures AsUint8(AsChar(b)) == b
  {
  }

  /**
   * NewSourceImpl: a source for exactly the texts that are well-formed UTF-8 of no more than 2^31 - 1 bytes and
   * within the limit of code points. It shows the code points of the text, whichever storage they end up in.
   */
  method NewSourceImpl(text: seq<Byte>, maxCodepoints: nat) returns (source: Option<Source>, error: Option<SourceError>)
    ensures source.Some? <==>
      |text| <= INT32_MAX && exists cps :: Scalars(cps) && EncodeAll(cps) == text && |cps| <= maxCodepoints
    ensures source.Some? ==> forall cps | Scalars(cps) && EncodeAll(cps) == text :: Holds(source.value, cps)
    ensures source.Some? <==> error.None?
    ensures error == Some(TooManyBytes) <==> |text| > INT32_MAX
    ensures error == Some(TooManyCodePoints)
      ==> forall cps | Scalars(cps) && EncodeAll(cps) == text :: |cps| > maxCodepoints
    ensures error == Some(MalformedUtf8) ==> !WellFormed(text)
  {
    hide Encode;
    hide EncodeAll;
    hide Holds;
    if |text| > INT32_MAX {
      return None, Some(TooManyBytes);
    }
    if |text| / 4 > maxCodepoints {
      forall cps | Scalars(cps) && EncodeAll(cps) == text ensures |cps| > maxCodepoints {
        ShortTextsFit(cps, maxCodepoints);
      }
      return None, Some(TooManyCodePoints);
    }
    var reader := new SourceReader(text, maxCodepoints);
    source, error := reader.Run();
    forall cps | Scalars(cps) && EncodeAll(cps) == text
      ensures if error.Some? then error.value == TooManyCodePoints && |cps| > maxCodepoints else cps == reader.cps
    {
      if error.Some? {
        StoppedMeansBad(reader, error.value, cps);
      } else {
        EncodingIsUnique(cps, reader.cps);
      }
    }
  }

  /** A negative limit means none. */
  function ClampLimit(value: int): nat {
    if value < 0 then SIZE_MAX else value
  }

  /** NewSource: without a limit, every well-formed text that is not too large. */
  method NewSource(text: seq<Byte>, maxCodepointSize: int) returns (source: Option<Source>, error: Option<SourceError>)
    ensures source.Some? <==>
      |text| <= INT32_MAX && exists cps ::
        Scalars(cps) && EncodeAll(cps) == text && (maxCodepointSize < 0 || |cps| <= maxCodepointSize)
    ensures source.Some? ==> forall cps | Scalars(cps) && EncodeAll(cps) == text :: Holds(source.value, cps)
  {
    hide Encode;
    hide EncodeAll;
    hide Holds;
    source, error := NewSourceImpl(text, ClampLimit(maxCodepointSize));
    forall cps | Scalars(cps) && EncodeAll(cps) == text ensures |cps| <= |text| {
      EncodedSize(cps);
    }
  }
}
