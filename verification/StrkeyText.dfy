/**
 The text form of strkeys: base32 without padding (RFC 4648, section 6) and the acceptance rules.
 */
module StrkeyText {
  import opened Bytes
  import opened Strkey

  const ALPHABET: string := "ABCDEFGHIJKLMNOPQRSTUVWXYZ234567"

  predicate InAlphabet(c: char) {
    'A' <= c <= 'Z' || '2' <= c <= '7'
  }

  /** The five bits a letter stands for. */
  function Digit(c: char): (d: bv8)
    requires InAlphabet(c)
  {
    (if 'A' <= c <= 'Z' then c as int - 'A' as int else c as int - '2' as int + 26) as bv8
  }

  function Letter(d: bv8): char
    requires d < 32
  {
    ALPHABET[d as int]
  }

  // ------------------------------------------------------------------- base32

  predicate Base32(s: string) {
    |s| == 56 && forall i | 0 <= i < |s| :: InAlphabet(s[i])
  }

  // Eight digits of five bits against five bytes, piece by piece.

  function Byte0(d0: bv8, d1: bv8): bv8 {
    (d0 << 3) | (d1 >> 2)
  }

  function Byte1(d1: bv8, d2: bv8, d3: bv8): bv8 {
    (d1 << 6) | (d2 << 1) | (d3 >> 4)
  }

  function Byte2(d3: bv8, d4: bv8): bv8 {
    (d3 << 4) | (d4 >> 1)
  }

  function Byte3(d4: bv8, d5: bv8, d6: bv8): bv8 {
    (d4 << 7) | (d5 << 2) | (d6 >> 3)
  }

  function Byte4(d6: bv8, d7: bv8): bv8 {
    (d6 << 5) | d7
  }

  function Outer(b: bv8, shift: nat): bv8
    requires shift < 8
  {
    (b >> shift) & 31
  }

  function Inner(b: bv8, left: nat, c: bv8, right: nat): bv8
    requires left < 8 && right < 8
  {
    ((b << left) | (c >> right)) & 31
  }

  /** The five bytes that eight digits spell. */
  function ToBytes(d: seq<bv8>): (b: seq<bv8>)
    requires |d| == 8
    ensures |b| == 5
  {
    [Byte0(d[0], d[1]), Byte1(d[1], d[2], d[3]), Byte2(d[3], d[4]), Byte3(d[4], d[5], d[6]), Byte4(d[6], d[7])]
  }

  /** The eight digits that five bytes are spelled with. */
  function ToDigits(b: seq<bv8>): (d: seq<bv8>)
    requires |b| == 5
    ensures |d| == 8
  {
    [Outer(b[0], 3), Inner(b[0], 2, b[1], 6), Outer(b[1], 1), Inner(b[1], 4, b[2], 4),
     Inner(b[2], 1, b[3], 7), Outer(b[3], 2), Inner(b[3], 3, b[4], 5), Outer(b[4], 0)]
  }

  predicate Small(d: seq<bv8>) {
    forall i | 0 <= i < |d| :: d[i] < 32
  }

  lemma SmallDigits(b: seq<bv8>)
    requires |b| == 5
    ensures Small(ToDigits(b))
  {
  }

  lemma Digits012(d0: bv8, d1: bv8, d2: bv8, d3: bv8)
    requires d0 < 32 && d1 < 32 && d2 < 32 && d3 < 32
    ensures Outer(Byte0(d0, d1), 3) == d0
    ensures Inner(Byte0(d0, d1), 2, Byte1(d1, d2, d3), 6) == d1
    ensures Outer(Byte1(d1, d2, d3), 1) == d2
  {
  }

  lemma Digit3(d1: bv8, d2: bv8, d3: bv8, d4: bv8)
    requires d1 < 32 && d2 < 32 && d3 < 32 && d4 < 32
    ensures Inner(Byte1(d1, d2, d3), 4, Byte2(d3, d4), 4) == d3
  {
  }

  lemma Digit4(d3: bv8, d4: bv8, d5: bv8, d6: bv8)
    requires d3 < 32 && d4 < 32 && d5 < 32 && d6 < 32
    ensures Inner(Byte2(d3, d4), 1, Byte3(d4, d5, d6), 7) == d4
    ensures Outer(Byte3(d4, d5, d6), 2) == d5
  {
  }

  lemma Digits67(d4: bv8, d5: bv8, d6: bv8, d7: bv8)
    requires d4 < 32 && d5 < 32 && d6 < 32 && d7 < 32
    ensures Inner(Byte3(d4, d5, d6), 3, Byte4(d6, d7), 5) == d6
    ensures Outer(Byte4(d6, d7), 0) == d7
  {
  }

  /** Eight digits are recovered from the bytes they spell. */
  lemma DigitsRecovered(d: seq<bv8>)
    requires |d| == 8 && Small(d)
    ensures ToDigits(ToBytes(d)) == d
  {
    hide Byte0, Byte1, Byte2, Byte3, Byte4, Outer, Inner;
    Digits012(d[0], d[1], d[2], d[3]);
    Digit3(d[1], d[2], d[3], d[4]);
    Digit4(d[3], d[4], d[5], d[6]);
    Digits67(d[4], d[5], d[6], d[7]);
  }

  lemma Join0(b0: bv8, b1: bv8)
    ensures Byte0(Outer(b0, 3), Inner(b0, 2, b1, 6)) == b0
  {
  }

  lemma Join1(b0: bv8, b1: bv8, b2: bv8)
    ensures Byte1(Inner(b0, 2, b1, 6), Outer(b1, 1), Inner(b1, 4, b2, 4)) == b1
  {
  }

  lemma Join2(b1: bv8, b2: bv8, b3: bv8)
    ensures Byte2(Inner(b1, 4, b2, 4), Inner(b2, 1, b3, 7)) == b2
  {
  }

  lemma Join3(b2: bv8, b3: bv8, b4: bv8)
    ensures Byte3(Inner(b2, 1, b3, 7), Outer(b3, 2), Inner(b3, 3, b4, 5)) == b3
  {
  }

  lemma Join4(b3: bv8, b4: bv8)
    ensures Byte4(Inner(b3, 3, b4, 5), Outer(b4, 0)) == b4
  {
  }

  /** Five bytes are recovered from the digits that spell them. */
  lemma BytesRecovered(b: seq<bv8>)
    requires |b| == 5
    ensures ToBytes(ToDigits(b)) == b
  {
    hide Byte0, Byte1, Byte2, Byte3, Byte4, Outer, Inner;
    Join0(b[0], b[1]);
    Join1(b[0], b[1], b[2]);
    Join2(b[1], b[2], b[3]);
    Join3(b[2], b[3], b[4]);
    Join4(b[3], b[4]);
  }

  // ------------------------------------------------------------ whole strings

  /** The digits of the `q`-th group of eight letters. */
  function Group(s: string, q: nat): (d: seq<bv8>)
    requires Base32(s) && q < 7
    ensures |d| == 8
  {
    seq(8, j requires 0 <= j < 8 => Digit(s[8 * q + j]))
  }

  /** `base64.b32decode` of 56 letters: 35 bytes. */
  function Raw(s: string): (raw: seq<bv8>)
    requires Base32(s)
    ensures |raw| == 35
  {
    seq(35, i requires 0 <= i < 35 => ToBytes(Group(s, i / 5))[i % 5])
  }

  /** The `q`-th group of five bytes. */
  function Five(raw: seq<bv8>, q: nat): (b: seq<bv8>)
    requires |raw| == 35 && q < 7
    ensures |b| == 5
  {
    raw[5 * q..5 * q + 5]
  }

  /** The letters that spell 35 bytes. */
  function Spell(raw: seq<bv8>): (s: string)
    requires |raw| == 35
    ensures |s| == 56
  {
    seq(56, k requires 0 <= k < 56 => Letter(SpellDigit(raw, k)))
  }

  function SpellDigit(raw: seq<bv8>, k: nat): (d: bv8)
    requires |raw| == 35 && k < 56
    ensures d < 32
  {
    SmallDigits(Five(raw, k / 8));
    ToDigits(Five(raw, k / 8))[k % 8]
  }

  lemma DigitLetter(c: char)
    requires InAlphabet(c)
    ensures Digit(c) < 32 && Letter(Digit(c)) == c
  {
  }

  lemma LetterDigit(d: bv8)
    requires d < 32
    ensures InAlphabet(Letter(d)) && Digit(Letter(d)) == d
  {
  }

  lemma SameDigit(c: char, d: char)
    requires InAlphabet(c) && InAlphabet(d)
    ensures Digit(c) == Digit(d) <==> c == d
  {
    hide Digit, Letter;
    DigitLetter(c);
    DigitLetter(d);
  }

  lemma GroupRecovered(s: string, q: nat)
    requires Base32(s) && q < 7
    ensures ToDigits(Five(Raw(s), q)) == Group(s, q)
  {
    hide ToBytes, ToDigits, Digit, Letter;
    var d := Group(s, q);
    forall j | 0 <= j < 8
      ensures d[j] < 32
    {
      DigitLetter(s[8 * q + j]);
    }
    assert Five(Raw(s), q) == ToBytes(d);
    DigitsRecovered(d);
  }

  /** Decoding loses nothing: the letters are recovered from the bytes. */
  lemma SpellRaw(s: string)
    requires Base32(s)
    ensures Spell(Raw(s)) == s
  {
    hide ToBytes, ToDigits, Digit, Letter, Raw, Five;
    forall k | 0 <= k < 56
      ensures Letter(SpellDigit(Raw(s), k)) == s[k]
    {
      GroupRecovered(s, k / 8);
      DigitLetter(s[k]);
    }
  }

  lemma SpelledIsBase32(raw: seq<bv8>)
    requires |raw| == 35
    ensures Base32(Spell(raw)) && forall k | 0 <= k < 56 :: Digit(Spell(raw)[k]) == SpellDigit(raw, k)
  {
    hide SpellDigit, Digit, Letter, InAlphabet;
    forall k | 0 <= k < 56
      ensures InAlphabet(Spell(raw)[k]) && Digit(Spell(raw)[k]) == SpellDigit(raw, k)
    {
      LetterDigit(SpellDigit(raw, k));
    }
  }

  lemma GroupSpelled(raw: seq<bv8>, q: nat)
    requires |raw| == 35 && Base32(Spell(raw)) && q < 7
    ensures ToBytes(Group(Spell(raw), q)) == Five(raw, q)
  {
    hide ToBytes, ToDigits, Digit, Letter, Spell, Five, Base32;
    SpelledIsBase32(raw);
    var d := Group(Spell(raw), q);
    forall j | 0 <= j < 8
      ensures d[j] == ToDigits(Five(raw, q))[j]
    {
      assert (8 * q + j) / 8 == q && (8 * q + j) % 8 == j;
    }
    assert d == ToDigits(Five(raw, q));
    BytesRecovered(Five(raw, q));
  }

  /** Every 35 bytes are decoded from the letters that spell them. */
  lemma RawSpell(raw: seq<bv8>)
    requires |raw| == 35
    ensures Base32(Spell(raw)) && Raw(Spell(raw)) == raw
  {
    hide ToBytes, Spell, Base32, Group;
    SpelledIsBase32(raw);
    forall i | 0 <= i < 35
      ensures ToBytes(Group(Spell(raw), i / 5))[i % 5] == raw[i]
    {
      GroupSpelled(raw, i / 5);
    }
  }

  // ------------------------------------------------- base32 in absolute terms

  /** The alphabet is A to Z, then 2 to 7. */
  lemma AlphabetOrder(d: bv8)
    requires d < 32
    ensures Letter(d) as int == if d < 26 then 'A' as int + d as int else '2' as int + d as int - 26
  {
  }

  function Wide(b: bv8): bv64 {
    b as bv64
  }

  function Digits40(d: seq<bv8>): bv64
    requires |d| == 8
  {
    (Wide(d[0]) << 35) | (Wide(d[1]) << 30) | (Wide(d[2]) << 25) | (Wide(d[3]) << 20)
    | (Wide(d[4]) << 15) | (Wide(d[5]) << 10) | (Wide(d[6]) << 5) | Wide(d[7])
  }

  function Bytes40(b: seq<bv8>): bv64
    requires |b| == 5
  {
    (Wide(b[0]) << 32) | (Wide(b[1]) << 24) | (Wide(b[2]) << 16) | (Wide(b[3]) << 8) | Wide(b[4])
  }

  /** Eight digits of five bits and the five bytes they spell are one number of 40 bits, highest first. */
  lemma SameNumber(d: seq<bv8>)
    requires |d| == 8 && Small(d)
    ensures Digits40(d) == Bytes40(ToBytes(d))
  {
  }

  lemma GroupIsSmall(s: string, q: nat)
    requires Base32(s) && q < 7
    ensures Small(Group(s, q)) && Five(Raw(s), q) == ToBytes(Group(s, q))
  {
    hide ToBytes, Digit, Letter;
    var d := Group(s, q);
    forall j | 0 <= j < 8
      ensures d[j] < 32
    {
      DigitLetter(s[8 * q + j]);
    }
  }

  /** Each eight letters in turn are the next five bytes, as one number of 40 bits. */
  lemma GroupsInOrder(s: string, q: nat)
    requires Base32(s) && q < 7
    ensures Bytes40(Raw(s)[5 * q..5 * q + 5]) == Digits40(seq(8, j requires 0 <= j < 8 => Digit(s[8 * q + j])))
  {
    hide Digits40, Bytes40, Digit, ToBytes, Raw;
    GroupIsSmall(s, q);
    SameNumber(Group(s, q));
  }

  // --------------------------------------------------------------- acceptance

  function FromLE(low: bv8, high: bv8): bv16 {
    High(high) | (low as bv16)
  }

  function LowByte(c: bv16): bv8 {
    (c & 0xFF) as bv8
  }

  function HighByte(c: bv16): bv8 {
    (c >> 8) as bv8
  }

  lemma LittleEndian(c: bv16)
    ensures FromLE(LowByte(c), HighByte(c)) == c
  {
  }

  lemma LittleEndianBytes(low: bv8, high: bv8)
    ensures LowByte(FromLE(low, high)) == low && HighByte(FromLE(low, high)) == high
  {
  }

  /** The stored checksum is a 16-bit number with its low byte first. */
  lemma LowByteFirst(low: bv8, high: bv8)
    ensures FromLE(low, high) == (low as bv16) + 256 * (high as bv16)
  {
  }

  const ACCOUNT_VERSION: bv8 := 48
  const CONTRACT_VERSION: bv8 := 16

  function TopFive(b: bv8): bv8 {
    b >> 3
  }

  /** The checksum in the last two bytes, low byte first, is that of the bytes before them. */
  predicate ChecksumOk(raw: seq<bv8>)
    requires |raw| == 35
  {
    Crc(raw[..33]) == FromLE(raw[33], raw[34])
  }

  /** `decode_strkey`: the 32-byte payload, or nothing for any of its failure reasons. */
  function DecodeStrkey(s: string, expected: Option<bv8>): Option<seq<bv8>> {
    if |s| != 56 then None
    else if exists i | 0 <= i < |s| :: !InAlphabet(s[i]) then None
    else if s[0] == 'S' || s[0] == 'M' then None
    else if expected == Some(ACCOUNT_VERSION) && s[0] != 'G' then None
    else if expected == Some(CONTRACT_VERSION) && s[0] != 'C' then None
    else if expected.Some? && Raw(s)[0] != expected.value then None
    else if !ChecksumOk(Raw(s)) then None
    else Some(Raw(s)[1..33])
  }

  /** The version bytes a caller can get: not a secret seed, not a muxed account, and the expected one. */
  predicate Allowed(version: bv8, expected: Option<bv8>) {
    TopFive(version) != 18 && TopFive(version) != 12 && (expected.Some? ==> version == expected.value)
  }

  /** The strkey of a payload: version byte, payload, checksum with its low byte first, in base32. */
  function EncodeStrkey(version: bv8, payload: seq<bv8>): string
    requires |payload| == 32
  {
    Spell(Checked([version] + payload))
  }

  function Checked(body: seq<bv8>): (raw: seq<bv8>)
    requires |body| == 33
    ensures |raw| == 35
  {
    body + [LowByte(Crc(body)), HighByte(Crc(body))]
  }

  /** The checksum rule leaves no choice: only the two bytes appended by the encoder satisfy it. */
  lemma CheckedExactly(raw: seq<bv8>)
    requires |raw| == 35
    ensures ChecksumOk(raw) <==> raw == Checked(raw[..33])
  {
    hide Crc, FromLE, LowByte, HighByte;
    LittleEndian(Crc(raw[..33]));
    LittleEndianBytes(raw[33], raw[34]);
    assert raw == raw[..33] + [raw[33], raw[34]];
  }

  /** The prefix letter shows the top five bits of the version byte. */
  lemma PrefixLetter(s: string, c: char)
    requires Base32(s) && InAlphabet(c)
    ensures s[0] == c <==> TopFive(Raw(s)[0]) == Digit(c)
  {
    hide ToBytes, Digit, Letter, Raw, Outer;
    GroupRecovered(s, 0);
    SameDigit(s[0], c);
    assert ToDigits(Five(Raw(s), 0))[0] == Outer(Raw(s)[0], 3);
    OuterIsTop(Raw(s)[0]);
  }

  lemma OuterIsTop(b: bv8)
    ensures Outer(b, 3) == TopFive(b)
  {
  }

  lemma Prefixes(s: string)
    requires Base32(s)
    ensures s[0] == 'S' <==> TopFive(Raw(s)[0]) == 18
    ensures s[0] == 'M' <==> TopFive(Raw(s)[0]) == 12
    ensures Raw(s)[0] == ACCOUNT_VERSION ==> s[0] == 'G'
    ensures Raw(s)[0] == CONTRACT_VERSION ==> s[0] == 'C'
  {
    hide Raw;
    PrefixLetter(s, 'S');
    PrefixLetter(s, 'M');
    PrefixLetter(s, 'G');
    PrefixLetter(s, 'C');
  }

  /** Everything `decode_strkey` checks, in terms of the bytes. */
  lemma AcceptedBytes(s: string, expected: Option<bv8>)
    ensures DecodeStrkey(s, expected).Some?
       <==> Base32(s) && Allowed(Raw(s)[0], expected) && Raw(s) == Checked(Raw(s)[..33])
  {
    hide Raw, Checked, ChecksumOk, TopFive, Digit;
    if Base32(s) {
      Prefixes(s);
      CheckedExactly(Raw(s));
    }
  }

  /** A string is accepted with a payload exactly when it is that payload's strkey of an allowed version. */
  lemma AcceptedExactly(s: string, expected: Option<bv8>, payload: seq<bv8>)
    requires |payload| == 32
    ensures DecodeStrkey(s, expected) == Some(payload)
       <==> exists version :: Allowed(version, expected) && s == EncodeStrkey(version, payload)
  {
    hide Raw, Spell, Checked, ChecksumOk, Allowed, Crc;
    AcceptedBytes(s, expected);
    if DecodeStrkey(s, expected) == Some(payload) {
      var raw := Raw(s);
      SpellRaw(s);
      assert raw[..33] == [raw[0]] + payload;
      assert s == EncodeStrkey(raw[0], payload);
    }
    forall version | Allowed(version, expected) && s == EncodeStrkey(version, payload)
      ensures DecodeStrkey(s, expected) == Some(payload)
    {
      CheckedFront([version] + payload);
      RawSpell(Checked([version] + payload));
      assert Raw(s)[1..33] == ([version] + payload)[1..];
    }
  }

  lemma CheckedFront(body: seq<bv8>)
    requires |body| == 33
    ensures Checked(body)[..33] == body && Checked(body)[0] == body[0] && Checked(body)[1..33] == body[1..]
  {
    hide Crc, LowByte, HighByte;
  }

  /** Two accepted strings with one version byte and one payload are the same string. */
  lemma OneSpelling(s: string, t: string, expected: Option<bv8>, other: Option<bv8>)
    requires DecodeStrkey(s, expected).Some? && DecodeStrkey(s, expected) == DecodeStrkey(t, other)
    requires Raw(s)[0] == Raw(t)[0]
    ensures s == t
  {
    hide Raw, Spell, Checked, ChecksumOk, Allowed, Crc;
    AcceptedBytes(s, expected);
    AcceptedBytes(t, other);
    assert Raw(s)[..33] == [Raw(s)[0]] + Raw(s)[1..33];
    assert Raw(t)[..33] == [Raw(t)[0]] + Raw(t)[1..33];
    SpellRaw(s);
    SpellRaw(t);
  }

  // ----------------------------------------------------- single-character errors

  ghost predicate DifferOnlyAt(s: string, t: string, p: nat) {
    p < |s| == |t| && s[p] != t[p] && forall k | 0 <= k < |s| && k != p :: s[k] == t[k]
  }

  /** Changing letter `p` changes at most the bytes its five bits lie in, and at least one of them. */
  lemma LetterSpan(s: string, t: string, p: nat)
    requires Base32(s) && Base32(t) && DifferOnlyAt(s, t, p)
    ensures Raw(s) != Raw(t)
    ensures forall i | 0 <= i < 35 && i != 5 * p / 8 && i != (5 * p + 4) / 8 :: Raw(s)[i] == Raw(t)[i]
  {
    hide Digit, Raw;
    SpellRaw(s);
    SpellRaw(t);
    forall i | 0 <= i < 35 && i != 5 * p / 8 && i != (5 * p + 4) / 8
      ensures Raw(s)[i] == Raw(t)[i]
    {
      LetterFar(s, t, p, i);
    }
  }

  lemma LetterFar(s: string, t: string, p: nat, i: nat)
    requires Base32(s) && Base32(t) && DifferOnlyAt(s, t, p)
    requires i < 35 && i != 5 * p / 8 && i != (5 * p + 4) / 8
    ensures Raw(s)[i] == Raw(t)[i]
  {
    hide Digit, Byte0, Byte1, Byte2, Byte3, Byte4;
    var q := i / 5;
    if p / 8 != q {
      assert Group(s, q) == Group(t, q);
    } else {
      var r, j := i % 5, p % 8;
      assert p == 8 * q + j && i == 5 * q + r;
      assert r != 5 * j / 8 && r != (5 * j + 4) / 8;
      GroupFar(Group(s, q), Group(t, q), j, r);
    }
  }

  lemma GroupFar(d: seq<bv8>, e: seq<bv8>, j: nat, r: nat)
    requires |d| == |e| == 8 && j < 8 && r < 5 && r != 5 * j / 8 && r != (5 * j + 4) / 8
    requires forall k | 0 <= k < 8 && k != j :: d[k] == e[k]
    ensures ToBytes(d)[r] == ToBytes(e)[r]
  {
    hide Byte0, Byte1, Byte2, Byte3, Byte4;
  }

  /** A change of the last payload byte by `x` and of the low checksum byte by `y` that one letter can make. */
  predicate Straddle(x: bv8, y: bv8) {
    x < 16 && (y == 0 || y == 0x80) && (x != 0 || y != 0)
  }

  /** Letter 52 is the one whose bits lie on both sides of the payload and the checksum. */
  lemma StraddlingLetter(s: string, t: string)
    requires Base32(s) && Base32(t) && DifferOnlyAt(s, t, 52)
    ensures Straddle(Xor8(Raw(s)[32], Raw(t)[32]), Xor8(Raw(s)[33], Raw(t)[33]))
  {
    hide Digit, ToBytes, Xor8, Straddle;
    var d, e := Group(s, 6), Group(t, 6);
    SameDigit(s[52], t[52]);
    DigitLetter(s[52]);
    DigitLetter(t[52]);
    DigitLetter(s[53]);
    StraddlingGroup(d, e);
    assert Raw(s)[32] == ToBytes(d)[2] && Raw(s)[33] == ToBytes(d)[3];
    assert Raw(t)[32] == ToBytes(e)[2] && Raw(t)[33] == ToBytes(e)[3];
  }

  lemma StraddlingGroup(d: seq<bv8>, e: seq<bv8>)
    requires |d| == |e| == 8 && d[4] != e[4] && d[4] < 32 && e[4] < 32 && d[5] < 32
    requires d[3] == e[3] && d[5] == e[5] && d[6] == e[6]
    ensures Straddle(Xor8(ToBytes(d)[2], ToBytes(e)[2]), Xor8(ToBytes(d)[3], ToBytes(e)[3]))
  {
    hide Byte0, Byte1, Byte2, Byte3, Byte4, Xor8, Straddle;
    StraddlingDigit(d[3], d[4], e[4], d[5], d[6]);
  }

  lemma StraddlingDigit(before: bv8, d: bv8, e: bv8, after: bv8, last: bv8)
    requires d < 32 && e < 32 && d != e && after < 32
    ensures Straddle(Xor8(Byte2(before, d), Byte2(before, e)), Xor8(Byte3(d, after, last), Byte3(e, after, last)))
  {
    PayloadSide(before, d, e);
    ChecksumSide(d, e, after, last);
  }

  lemma PayloadSide(before: bv8, d: bv8, e: bv8)
    requires d < 32 && e < 32
    ensures Xor8(Byte2(before, d), Byte2(before, e)) == (d ^ e) >> 1
    ensures (d ^ e) >> 1 < 16
  {
  }

  lemma ChecksumSide(d: bv8, e: bv8, after: bv8, last: bv8)
    requires after < 32
    ensures Xor8(Byte3(d, after, last), Byte3(e, after, last)) & 0x7F == 0
    ensures Xor8(Byte3(d, after, last), Byte3(e, after, last)) & 0x80 == (d ^ e) << 7
  {
  }

  /** A change in the low four bits of the last payload byte never moves the checksum by 0 or 0x80. */
  lemma NibbleMoves(x: bv8)
    requires 0 < x < 16
    ensures CrcByte(0, x) != 0 && CrcByte(0, x) != 0x80
  {
    EightShifts(Xor16(0, High(x)));
  }

  /** Changing any one character of an accepted strkey gives a string that is rejected. */
  lemma OneCharacterRejected(s: string, t: string, p: nat, expected: Option<bv8>, other: Option<bv8>)
    requires DecodeStrkey(s, expected).Some? && DifferOnlyAt(s, t, p)
    ensures DecodeStrkey(t, other).None?
  {
    hide Crc, Digit, Raw, FromLE;
    if Base32(t) {
      var a, b := Raw(s), Raw(t);
      LetterSpan(s, t, p);
      if p == 52 {
        StraddlingLetter(s, t);
        StraddleRejected(a, b);
      } else if p < 52 {
        BurstDetected(a[..33], b[..33], 5 * p / 8);
      } else {
        assert a[..33] == b[..33];
        CheckedExactly(a);
        CheckedExactly(b);
      }
    }
  }

  lemma StraddleRejected(a: seq<bv8>, b: seq<bv8>)
    requires |a| == |b| == 35 && a[34] == b[34] && forall i | 0 <= i < 32 :: a[i] == b[i]
    requires Straddle(Xor8(a[32], b[32]), Xor8(a[33], b[33]))
    requires ChecksumOk(a)
    ensures !ChecksumOk(b)
  {
    hide Crc, FromLE, Xor8, Xor16, CrcByte;
    var x, y := Xor8(a[32], b[32]), Xor8(a[33], b[33]);
    LastByteMoves(a[..33], b[..33]);
    StoredMoves(a[33], b[33], a[34]);
    if x != 0 {
      NibbleMoves(x);
    } else {
      ZeroMoves();
    }
  }

  lemma ZeroMoves()
    ensures CrcByte(0, 0) == 0
  {
    Zero(8);
  }

  lemma LastByteMoves(a: seq<bv8>, b: seq<bv8>)
    requires |a| == |b| == 33 && forall i | 0 <= i < 32 :: a[i] == b[i]
    ensures Xor16(Crc(a), Crc(b)) == CrcByte(0, Xor8(a[32], b[32]))
  {
    hide CrcByte, Xor16, Xor8;
    var d := Xor(a, b);
    CrcLinear(a, b);
    forall i | 0 <= i < 32
      ensures d[i] == 0
    {
      SelfXor(a[i]);
    }
    LeadingZeros(d, 32);
  }

  lemma SelfXor(x: bv8)
    ensures Xor8(x, x) == 0
  {
  }

  lemma StoredMoves(low: bv8, other: bv8, high: bv8)
    ensures Xor16(FromLE(low, high), FromLE(other, high)) == Xor8(low, other) as bv16
  {
  }
}
