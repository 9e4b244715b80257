/**
 * UTF-8 as internal/utf8.cc reads and writes it. The source's masks and shifts on bytes of known ranges are
 * written as differences, quotients and remainders here.
 */
module Utf8 {
  type Byte = b: int | 0 <= b < 0x100

  /** Unicode scalar values: UnicodeIsValid in internal/unicode.h. */
  predicate IsScalar(c: int) {
    0 <= c < 0xd800 || 0xdfff < c <= 0x10ffff
  }

  const REPLACEMENT: int := 0xfffd

  /** Utf8Encode for scalar values, as section 3 of RFC 3629 lays the bits out. */
  function Encode(c: int): (s: seq<Byte>)
    requires IsScalar(c)
    ensures 1 <= |s| <= 4 && (|s| == 1 <==> c <= 0x7f)
  {
    if c <= 0x7f then [c]
    else if c <= 0x7ff then [0xc0 + c / 64, 0x80 + c % 64]
    else if c <= 0xffff then [0xe0 + c / 4096, 0x80 + c / 64 % 64, 0x80 + c % 64]
    else [0xf0 + c / 262144, 0x80 + c / 4096 % 64, 0x80 + c / 64 % 64, 0x80 + c % 64]
  }

  /** The bits of a byte in front of its last `n`, and those last ones: `unit` is the `n`-th power of two. */
  function Front(b: int, unit: int): int
    requires unit > 0
  {
    b / unit
  }

  function Back(b: int, unit: int): int
    requires unit > 0
  {
    b % unit
  }

  /** A byte that goes on from another: a one and a zero, and six bits more. */
  predicate Trails(b: int) {
    Front(b, 64) == 0x2
  }

  /**
   * The bits as the table in section 3 of RFC 3629 lays them out: as many bytes as the code point needs, that many ones
   * and a zero at the front of the first, and the remaining bits, read as one number, the code point.
   */
  lemma EncodedAsInRfc(c: int)
    requires IsScalar(c)
    ensures c < 0x80 ==> Encode(c) == [c]
    ensures 0x80 <= c < 0x800 ==>
      var s := Encode(c);
      && |s| == 2 && Front(s[0], 32) == 0x6 && Trails(s[1])
      && c == Back(s[0], 32) * 64 + Back(s[1], 64)
    ensures 0x800 <= c < 0x10000 ==>
      var s := Encode(c);
      && |s| == 3 && Front(s[0], 16) == 0xe && Trails(s[1]) && Trails(s[2])
      && c == (Back(s[0], 16) * 64 + Back(s[1], 64)) * 64 + Back(s[2], 64)
    ensures 0x10000 <= c ==>
      var s := Encode(c);
      && |s| == 4 && Front(s[0], 8) == 0x1e && Trails(s[1]) && Trails(s[2]) && Trails(s[3])
      && c == ((Back(s[0], 8) * 64 + Back(s[1], 64)) * 64 + Back(s[2], 64)) * 64 + Back(s[3], 64)
  {
    if c >= 0x800 {
      Digits(c);
    }
  }

  /** How many bytes follow a leading byte, by kLeading; none for a byte that leads nothing. */
  function Following(b: Byte): nat {
    if 0xc2 <= b <= 0xdf then 1
    else if 0xe0 <= b <= 0xef then 2
    else if 0xf0 <= b <= 0xf4 then 3
    else 0
  }

  /** The range kAccept allows the second byte. */
  function AcceptLow(b: Byte): Byte {
    if b == 0xe0 then 0xa0 else if b == 0xf0 then 0x90 else 0x80
  }

  function AcceptHigh(b: Byte): Byte {
    if b == 0xed then 0x9f else if b == 0xf4 then 0x8f else 0xbf
  }

  predicate Continues(b: Byte) {
    0x80 <= b <= 0xbf
  }

  /** The six bits of a continuation byte. */
  function Tail(b: Byte): int {
    b - 0x80
  }

  function Join2(x: int, y: int): int {
    x * 64 + y
  }

  function Join3(x: int, y: int, z: int): int {
    x * 4096 + y * 64 + z
  }

  function Join4(x: int, y: int, z: int, w: int): int {
    x * 262144 + y * 4096 + z * 64 + w
  }

  /** Utf8Decode: the code point and its length; the replacement character of length 1 for malformed input. */
  function Decode(s: seq<Byte>): (r: (int, nat))
    requires s != []
    ensures 1 <= r.1 <= |s|
  {
    var b: int := s[0];
    var n := Following(b);
    if b < 0x80 then (b, 1)
    else if n == 0 || n > |s| - 1 then (REPLACEMENT, 1)
    else if s[1] < AcceptLow(b) || s[1] > AcceptHigh(b) then (REPLACEMENT, 1)
    else if n == 1 then (Join2(b - 0xc0, Tail(s[1])), 2)
    else if !Continues(s[2]) then (REPLACEMENT, 1)
    else if n == 2 then (Join3(b - 0xe0, Tail(s[1]), Tail(s[2])), 3)
    else if !Continues(s[3]) then (REPLACEMENT, 1)
    else (Join4(b - 0xf0, Tail(s[1]), Tail(s[2]), Tail(s[3])), 4)
  }

  predicate Malformed(r: (int, nat)) {
    r.0 == REPLACEMENT && r.1 == 1
  }

  lemma Bits(x: int, y: int, z: int, w: int)
    requires 0 <= x && 0 <= y < 64 && 0 <= z < 64 && 0 <= w < 64
    ensures Join4(x, y, z, w) % 64 == w && Join4(x, y, z, w) / 64 == Join3(x, y, z)
    ensures Join3(x, y, z) % 64 == z && Join3(x, y, z) / 64 == Join2(x, y)
    ensures Join2(x, y) % 64 == y && Join2(x, y) / 64 == x
    ensures Join3(x, y, z) / 4096 == x && Join4(x, y, z, w) / 4096 == Join2(x, y) && Join4(x, y, z, w) / 262144 == x
  {
    LastDigit(x, y);
    LastDigit(Join2(x, y), z);
    LastDigit(Join3(x, y, z), w);
    TwoDigits(x, y * 64 + z);
    TwoDigits(Join2(x, y), z * 64 + w);
    ThreeDigits(x, y * 4096 + z * 64 + w);
  }

  lemma LastDigit(a: int, b: int)
    requires 0 <= a && 0 <= b < 64
    ensures (a * 64 + b) % 64 == b && (a * 64 + b) / 64 == a
  {
  }

  lemma TwoDigits(a: int, b: int)
    requires 0 <= a && 0 <= b < 4096
    ensures (a * 4096 + b) / 4096 == a
  {
  }

  lemma ThreeDigits(a: int, b: int)
    requires 0 <= a && 0 <= b < 262144
    ensures (a * 262144 + b) / 262144 == a
  {
  }

  lemma DecodeEncodeShort(c: int, rest: seq<Byte>)
    requires IsScalar(c) && c <= 0x7ff
    ensures Decode(Encode(c) + rest) == (c, |Encode(c)|)
  {
  }

  lemma Digits(c: int)
    requires 0 <= c
    ensures 0 <= c / 64 % 64 < 64 && 0 <= c / 4096 % 64 < 64 && 0 <= c % 64 < 64
    ensures c == Join3(c / 4096, c / 64 % 64, c % 64)
    ensures c == Join4(c / 262144, c / 4096 % 64, c / 64 % 64, c % 64)
  {
    var d := c / 64;
    var e := d / 64;
    assert c / 4096 == e && c / 262144 == e / 64;
  }

  lemma ThreeFit(x: int, y: int, z: int)
    requires 0 <= y < 64 && 0 <= z < 64
    requires 0x7ff < Join3(x, y, z) <= 0xffff && IsScalar(Join3(x, y, z))
    ensures 0 <= x < 16 && (x == 0 ==> y >= 32) && (x == 13 ==> y < 32)
  {
  }

  lemma FourFit(x: int, y: int, z: int, w: int)
    requires 0 <= y < 64 && 0 <= z < 64 && 0 <= w < 64 && 0xffff < Join4(x, y, z, w) <= 0x10ffff
    ensures 0 <= x <= 4 && (x == 0 ==> y >= 16) && (x == 4 ==> y < 16)
  {
  }

  lemma DecodeThree(x: int, y: int, z: int, rest: seq<Byte>)
    requires 0 <= x < 16 && 0 <= y < 64 && 0 <= z < 64 && (x == 0 ==> y >= 32) && (x == 13 ==> y < 32)
    ensures Decode([0xe0 + x, 0x80 + y, 0x80 + z] + rest) == (Join3(x, y, z), 3)
  {
    hide Join3;
    var s: seq<Byte> := [0xe0 + x, 0x80 + y, 0x80 + z] + rest;
    assert s[0] == 0xe0 + x && s[1] == 0x80 + y && s[2] == 0x80 + z;
  }

  lemma DecodeFour(x: int, y: int, z: int, w: int, rest: seq<Byte>)
    requires 0 <= x <= 4 && 0 <= y < 64 && 0 <= z < 64 && 0 <= w < 64 && (x == 0 ==> y >= 16) && (x == 4 ==> y < 16)
    ensures Decode([0xf0 + x, 0x80 + y, 0x80 + z, 0x80 + w] + rest) == (Join4(x, y, z, w), 4)
  {
    hide Join4;
    var s: seq<Byte> := [0xf0 + x, 0x80 + y, 0x80 + z, 0x80 + w] + rest;
    assert s[0] == 0xf0 + x && s[1] == 0x80 + y && s[2] == 0x80 + z && s[3] == 0x80 + w;
  }

  /** Reading undoes writing, whatever follows. */
  lemma DecodeEncode(c: int, rest: seq<Byte>)
    requires IsScalar(c)
    ensures Decode(Encode(c) + rest) == (c, |Encode(c)|)
  {
    hide Decode;
    hide Join3;
    hide Join4;
    if c <= 0x7ff {
      DecodeEncodeShort(c, rest);
    } else if c <= 0xffff {
      Digits(c);
      ThreeFit(c / 4096, c / 64 % 64, c % 64);
      DecodeThree(c / 4096, c / 64 % 64, c % 64, rest);
    } else {
      Digits(c);
      FourFit(c / 262144, c / 4096 % 64, c / 64 % 64, c % 64);
      DecodeFour(c / 262144, c / 4096 % 64, c / 64 % 64, c % 64, rest);
    }
  }

  /** What is read is what is written there, unless the input is malformed. */
  lemma EncodeDecode(s: seq<Byte>)
    requires s != [] && !Malformed(Decode(s))
    ensures
      var (c, n) := Decode(s);
      IsScalar(c) && s[..n] == Encode(c)
  {
    var (c, n) := Decode(s);
    if n == 1 {
      assert s[..1] == [s[0]];
    } else if n == 2 {
      DecodedTwo(s[0], s[1]);
      assert s[..2] == [s[0], s[1]];
    } else if n == 3 {
      DecodedThree(s[0], s[1], s[2]);
      assert s[..3] == [s[0], s[1], s[2]];
    } else {
      DecodedFour(s[0], s[1], s[2], s[3]);
      assert s[..4] == [s[0], s[1], s[2], s[3]];
    }
  }

  lemma DecodedTwo(b: Byte, b1: Byte)
    requires 0xc2 <= b <= 0xdf && Continues(b1)
    ensures
      var c := Join2(b - 0xc0, Tail(b1));
      IsScalar(c) && 0x7f < c <= 0x7ff && Encode(c) == [b, b1]
  {
    Bits(0, 0, (b as int) - 0xc0, Tail(b1));
  }

  lemma DecodedThree(b: Byte, b1: Byte, b2: Byte)
    requires 0xe0 <= b <= 0xef && AcceptLow(b) <= b1 <= AcceptHigh(b) && Continues(b2)
    ensures
      var c := Join3(b - 0xe0, Tail(b1), Tail(b2));
      IsScalar(c) && 0x7ff < c <= 0xffff && Encode(c) == [b, b1, b2]
  {
    ThreeInRange((b as int) - 0xe0, Tail(b1), Tail(b2));
    EncodeThree((b as int) - 0xe0, Tail(b1), Tail(b2));
  }

  lemma ThreeInRange(x: int, y: int, z: int)
    requires 0 <= x < 16 && 0 <= y < 64 && 0 <= z < 64 && (x == 0 ==> y >= 32) && (x == 13 ==> y < 32)
    ensures 0x7ff < Join3(x, y, z) <= 0xffff && IsScalar(Join3(x, y, z))
  {
  }

  lemma EncodeThree(x: int, y: int, z: int)
    requires 0 <= x < 16 && 0 <= y < 64 && 0 <= z < 64
    requires 0x7ff < Join3(x, y, z) <= 0xffff && IsScalar(Join3(x, y, z))
    ensures Encode(Join3(x, y, z)) == [0xe0 + x, 0x80 + y, 0x80 + z]
  {
    hide Join2;
    hide Join3;
    hide Join4;
    Bits(x, y, z, 0);
  }

  lemma DecodedFour(b: Byte, b1: Byte, b2: Byte, b3: Byte)
    requires 0xf0 <= b <= 0xf4 && AcceptLow(b) <= b1 <= AcceptHigh(b) && Continues(b2) && Continues(b3)
    ensures
      var c := Join4(b - 0xf0, Tail(b1), Tail(b2), Tail(b3));
      IsScalar(c) && 0xffff < c && Encode(c) == [b, b1, b2, b3]
  {
    var x, y, z, w := (b as int) - 0xf0, Tail(b1), Tail(b2), Tail(b3);
    var c := Join4(x, y, z, w);
    Bits(x, y, z, w);
    assert 0xffff < c <= 0x10ffff;
    hide Join4;
    hide Join3;
    hide Join2;
    assert c / 262144 == x && c / 4096 % 64 == y && c / 64 % 64 == z && c % 64 == w;
  }

  // ---------- texts ----------

  predicate Scalars(cps: seq<int>) {
    forall i | 0 <= i < |cps| :: IsScalar(cps[i])
  }

  function EncodeAll(cps: seq<int>): (s: seq<Byte>)
    requires Scalars(cps)
    decreases |cps|
  {
    if cps == [] then [] else EncodeAll(cps[..|cps| - 1]) + Encode(cps[|cps| - 1])
  }

  /** Well-formed UTF-8: the encoding of some scalar values. */
  ghost predicate WellFormed(text: seq<Byte>) {
    exists cps :: Scalars(cps) && EncodeAll(cps) == text
  }

  lemma EncodeAppend(cps: seq<int>, c: int)
    requires Scalars(cps) && IsScalar(c)
    ensures Scalars(cps + [c]) && EncodeAll(cps + [c]) == EncodeAll(cps) + Encode(c)
  {
    assert (cps + [c])[..|cps|] == cps;
  }

  lemma {:induction false} EncodeConcat(a: seq<int>, b: seq<int>)
    requires Scalars(a) && Scalars(b)
    ensures Scalars(a + b) && EncodeAll(a + b) == EncodeAll(a) + EncodeAll(b)
    decreases |b|
  {
    hide Encode;
    if b == [] {
      assert a + b == a;
    } else {
      var init, last := b[..|b| - 1], b[|b| - 1];
      EncodeConcat(a, init);
      assert a + b == (a + init) + [last];
      EncodeAppend(a + init, last);
    }
  }

  /** Every code point takes one to four bytes. */
  lemma {:induction false} EncodedSize(cps: seq<int>)
    requires Scalars(cps)
    ensures |cps| <= |EncodeAll(cps)| <= 4 * |cps|
    decreases |cps|
  {
    if cps != [] {
      EncodedSize(cps[..|cps| - 1]);
    }
  }

  /** After a part that has been read, the text goes on with the next code point, or is malformed there. */
  lemma NextIsEncoded(cps: seq<int>, k: nat)
    requires Scalars(cps) && k < |cps|
    ensures Scalars(cps[..k])
    ensures
      var text, index := EncodeAll(cps), |EncodeAll(cps[..k])|;
      && index < |text| && text[..index] == EncodeAll(cps[..k])
      && Decode(text[index..]) == (cps[k], |Encode(cps[k])|)
  {
    var a, b := cps[..k], cps[k + 1..];
    assert cps == a + ([cps[k]] + b);
    EncodeConcat(a, [cps[k]] + b);
    EncodeConcat([cps[k]], b);
    assert EncodeAll([cps[k]]) == Encode(cps[k]) by {
      EncodeAppend([], cps[k]);
      assert [] + [cps[k]] == [cps[k]];
    }
    var text, index := EncodeAll(cps), |EncodeAll(a)|;
    assert text[index..] == Encode(cps[k]) + EncodeAll(b);
    DecodeEncode(cps[k], EncodeAll(b));
  }

  /** Texts that agree this far were read as the same code points. */
  lemma BeginningsEncode(a: seq<int>, k: nat)
    requires Scalars(a) && k == |a| - 1
    ensures Scalars(a[..k]) && EncodeAll(a) == EncodeAll(a[..k]) + Encode(a[k])
    ensures EncodeAll(a[..k]) <= EncodeAll(a)
  {
    hide Encode;
  }

  lemma {:induction false} PrefixCodePoints(cps: seq<int>, a: seq<int>)
    requires Scalars(cps) && Scalars(a) && EncodeAll(a) <= EncodeAll(cps)
    ensures a <= cps
    decreases |a|
  {
    hide Encode;
    hide Decode;
    hide IsScalar;
    if a != [] {
      var k := |a| - 1;
      BeginningsEncode(a, k);
      PrefixCodePoints(cps, a[..k]);
      var index := |EncodeAll(a[..k])|;
      assert a[..k] == cps[..k];
      assert cps[..|cps|] == cps;
      if k < |cps| {
        NextIsEncoded(cps, k);
        var text := EncodeAll(cps);
        assert text[index..] == Encode(a[k]) + text[|EncodeAll(a)|..];
        DecodeEncode(a[k], text[|EncodeAll(a)|..]);
      }
    }
  }

  /** A text is the encoding of one sequence of code points only. */
  lemma EncodingIsUnique(a: seq<int>, b: seq<int>)
    requires Scalars(a) && Scalars(b) && EncodeAll(a) == EncodeAll(b)
    ensures a == b
  {
    PrefixCodePoints(a, b);
    PrefixCodePoints(b, a);
  }
}
