/**
 What well-formed UTF-8 is: the text check of the codec accepts exactly the concatenations of encoded
 code points.
 */
module ScValText {
  import opened Bytes
  import opened ScVal

  /** A Unicode scalar value: a code point that is no surrogate. */
  predicate IsScalarValue(c: nat) {
    c <= 0x10FFFF && !(0xD800 <= c <= 0xDFFF)
  }

  /** The lowest six bits of a number, in a continuation byte. */
  function Tail(c: nat): (b: byte) {
    128 + c % 64
  }

  /** UTF-8 (RFC 3629, section 3): the shortest of four forms that has room for the code point. */
  function EncodePoint(c: nat): (s: bytes)
    requires IsScalarValue(c)
  {
    if c < 0x80 then [c]
    else if c < 0x800 then [192 + c / 64, Tail(c)]
    else if c < 0x1_0000 then [224 + c / 4096, Tail(c / 64), Tail(c)]
    else [240 + c / 262144, Tail(c / 4096), Tail(c / 64), Tail(c)]
  }

  predicate AllScalarValues(points: seq<nat>) {
    forall c | c in points :: IsScalarValue(c)
  }

  function EncodePoints(points: seq<nat>): bytes
    requires AllScalarValues(points)
  {
    if points == [] then [] else EncodePoint(points[0]) + EncodePoints(points[1..])
  }

  /** An encoded code point in front of anything is recognised, with its length. */
  lemma PointRecognised(c: nat, rest: bytes)
    requires IsScalarValue(c)
    ensures SequenceLength(EncodePoint(c) + rest) == |EncodePoint(c)| > 0
  {
    var s := EncodePoint(c) + rest;
    assert forall i | 0 <= i < |EncodePoint(c)| :: s[i] == EncodePoint(c)[i];
    Digits(c);
  }

  /** The base-64 digits of a code point. */
  lemma Digits(c: nat)
    requires c <= 0x10FFFF
    ensures c == c / 64 * 64 + c % 64 && c / 64 == c / 4096 * 64 + c / 64 % 64
    ensures c / 4096 == c / 262144 * 64 + c / 4096 % 64
  {
  }

  /** A number with the six bits of a continuation byte behind it. */
  function Append(high: nat, b: byte): nat
    requires Continuation(b)
  {
    high * 64 + (b as int - 128)
  }

  lemma AppendDigits(high: nat, b: byte)
    requires Continuation(b)
    ensures Append(high, b) / 64 == high && Tail(Append(high, b)) == b
  {
  }

  /** The code point of a recognised sequence. */
  function PointOf(s: bytes): nat
    requires SequenceLength(s) > 0
  {
    var first := s[0] as int;
    if SequenceLength(s) == 1 then first
    else if SequenceLength(s) == 2 then Append(first - 192, s[1])
    else if SequenceLength(s) == 3 then Append(Append(first - 224, s[1]), s[2])
    else Append(Append(Append(first - 240, s[1]), s[2]), s[3])
  }

  lemma FromTwo(first: byte, b: byte)
    requires 0xC2 <= first <= 0xDF && Continuation(b)
    ensures var c := Append(first as int - 192, b); IsScalarValue(c) && EncodePoint(c) == [first, b]
  {
    AppendDigits(first as int - 192, b);
  }

  lemma FromThree(first: byte, b: byte, d: byte)
    requires 0xE0 <= first <= 0xEF && Continuation(b) && Continuation(d)
    requires (first == 0xE0 ==> b >= 0xA0) && (first == 0xED ==> b <= 0x9F)
    ensures var c := Append(Append(first as int - 224, b), d); IsScalarValue(c) && EncodePoint(c) == [first, b, d]
  {
    var high := Append(first as int - 224, b);
    var c := Append(high, d);
    AppendDigits(first as int - 224, b);
    AppendDigits(high, d);
    assert c / 4096 == c / 64 / 64;
  }

  lemma DivideTwice(c: nat)
    ensures c / 4096 == c / 64 / 64
  {
  }

  lemma FourBytes(c: nat)
    requires 0x1_0000 <= c <= 0x10FFFF
    ensures IsScalarValue(c)
    ensures EncodePoint(c) == [240 + c / 64 / 64 / 64, Tail(c / 64 / 64), Tail(c / 64), Tail(c)]
  {
    DivideTwice(c);
    DivideTwice(c / 64);
    assert c / 262144 == c / 64 / 4096;
  }

  lemma FourBounds(first: byte, b: byte, d: byte, e: byte)
    requires 0xF0 <= first <= 0xF4 && Continuation(b) && Continuation(d) && Continuation(e)
    requires (first == 0xF0 ==> b >= 0x90) && (first == 0xF4 ==> b <= 0x8F)
    ensures 0x1_0000 <= Append(Append(Append(first as int - 240, b), d), e) <= 0x10FFFF
  {
    var top := Append(first as int - 240, b);
    assert 16 <= top <= 0x10F;
    hide Append;
    AppendBounds(top, d);
    AppendBounds(Append(top, d), e);
  }

  lemma AppendBounds(high: nat, b: byte)
    requires Continuation(b)
    ensures high * 64 <= Append(high, b) <= high * 64 + 63
  {
  }

  lemma FromFour(first: byte, b: byte, d: byte, e: byte)
    requires 0xF0 <= first <= 0xF4 && Continuation(b) && Continuation(d) && Continuation(e)
    requires (first == 0xF0 ==> b >= 0x90) && (first == 0xF4 ==> b <= 0x8F)
    ensures var c := Append(Append(Append(first as int - 240, b), d), e);
            IsScalarValue(c) && EncodePoint(c) == [first, b, d, e]
  {
    hide Append, EncodePoint, IsScalarValue, Tail;
    var top := Append(first as int - 240, b);
    var high := Append(top, d);
    AppendDigits(first as int - 240, b);
    AppendDigits(top, d);
    AppendDigits(high, e);
    FourBounds(first, b, d, e);
    FourBytes(Append(high, e));
  }

  /** A recognised sequence is the encoding of one code point. */
  lemma RecognisedIsPoint(s: bytes)
    requires SequenceLength(s) > 0
    ensures IsScalarValue(PointOf(s)) && EncodePoint(PointOf(s)) == s[..SequenceLength(s)]
  {
    hide EncodePoint, Append, IsScalarValue;
    var n := SequenceLength(s);
    if n == 1 {
      FromOne(s[0]);
    } else if n == 2 {
      FromTwo(s[0], s[1]);
    } else if n == 3 {
      FromThree(s[0], s[1], s[2]);
    } else {
      FromFour(s[0], s[1], s[2], s[3]);
    }
  }

  lemma FromOne(first: byte)
    requires first <= 0x7F
    ensures IsScalarValue(first) && EncodePoint(first) == [first]
  {
  }

  lemma {:induction false} EncodedIsValid(points: seq<nat>)
    requires AllScalarValues(points)
    ensures ValidUtf8(EncodePoints(points))
  {
    if points != [] {
      var first, rest := EncodePoint(points[0]), EncodePoints(points[1..]);
      PointRecognised(points[0], rest);
      EncodedIsValid(points[1..]);
      hide SequenceLength, EncodePoint;
      assert (first + rest)[|first|..] == rest;
    }
  }

  lemma PointsCons(c: nat, rest: seq<nat>)
    requires IsScalarValue(c) && AllScalarValues(rest)
    ensures AllScalarValues([c] + rest) && EncodePoints([c] + rest) == EncodePoint(c) + EncodePoints(rest)
  {
    hide EncodePoint, IsScalarValue;
    assert ([c] + rest)[1..] == rest;
  }

  lemma {:induction false} ValidIsEncoded(s: bytes) returns (points: seq<nat>)
    requires ValidUtf8(s)
    ensures AllScalarValues(points) && s == EncodePoints(points)
    decreases |s|
  {
    if s == [] {
      points := [];
    } else {
      hide SequenceLength, EncodePoint, PointOf, IsScalarValue;
      var n, c := SequenceLength(s), PointOf(s);
      RecognisedIsPoint(s);
      var rest := ValidIsEncoded(s[n..]);
      PointsCons(c, rest);
      points := [c] + rest;
      hide EncodePoints, AllScalarValues, ValidUtf8;
      assert s == s[..n] + s[n..];
    }
  }

  /** The text check accepts exactly the encodings of sequences of code points without surrogates. */
  lemma ValidTextExactly(s: bytes)
    ensures ValidUtf8(s) <==> exists points :: AllScalarValues(points) && s == EncodePoints(points)
  {
    if ValidUtf8(s) {
      var points := ValidIsEncoded(s);
    }
    if exists points :: AllScalarValues(points) && s == EncodePoints(points) {
      var points :| AllScalarValues(points) && s == EncodePoints(points);
      EncodedIsValid(points);
    }
  }
}
