/**
 Decimal and hexadecimal literals of 128- and 256-bit integers: what the validator accepts, and that
 everything it accepts survives the wire.
 */
module WideLiterals {
  import opened Bytes
  import ScVal
  import ScValScalars
  import ScValTheorems

  datatype Kind = Unsigned128 | Signed128 | Unsigned256 | Signed256

  /** What the check says; `int` itself raises on more decimal digits than the interpreter allows. */
  datatype Verdict =
    | Accepted(value: int)
    | Malformed
    | NegativeUnsigned
    | BelowMinimum
    | AboveMaximum
    | TooManyDigits

  const MAX_STR_DIGITS: nat := 4300

  predicate IsUnsigned(kind: Kind) {
    kind.Unsigned128? || kind.Unsigned256?
  }

  function Lower(kind: Kind): int {
    match kind
    case Unsigned128 => 0
    case Signed128 => -(ScVal.TWO128 / 2)
    case Unsigned256 => 0
    case Signed256 => -(ScVal.TWO256 / 2)
  }

  function Upper(kind: Kind): int {
    match kind
    case Unsigned128 => ScVal.TWO128 - 1
    case Signed128 => ScVal.TWO128 / 2 - 1
    case Unsigned256 => ScVal.TWO256 - 1
    case Signed256 => ScVal.TWO256 / 2 - 1
  }

  predicate IsDigit(c: char, radix: nat) {
    '0' <= c <= '9' || (radix == 16 && ('a' <= c <= 'f' || 'A' <= c <= 'F'))
  }

  function DigitValue(c: char, radix: nat): (d: nat)
    requires IsDigit(c, radix)
    ensures d < 16
  {
    if '0' <= c <= '9' then c as int - '0' as int
    else if 'a' <= c <= 'f' then c as int - 'a' as int + 10
    else c as int - 'A' as int + 10
  }

  predicate AllDigits(text: string, radix: nat) {
    forall i | 0 <= i < |text| :: IsDigit(text[i], radix)
  }

  /** `int(text, radix)`. */
  function Magnitude(text: string, radix: nat): (m: int)
    requires AllDigits(text, radix)
    ensures m >= 0
  {
    if text == [] then 0
    else Magnitude(text[..|text| - 1], radix) * radix + DigitValue(text[|text| - 1], radix)
  }

  // ------------------------------------------------------------ the check itself

  /** What is left after an optional sign, and whether the sign was a minus. */
  function StripSign(text: string): (string, bool) {
    if text != [] && text[0] == '-' then (text[1..], true)
    else if text != [] && text[0] == '+' then (text[1..], false)
    else (text, false)
  }

  /** What is left after an optional hexadecimal prefix, and the radix. */
  function StripPrefix(text: string): (string, nat) {
    if |text| >= 2 && text[0] == '0' && (text[1] == 'x' || text[1] == 'X') then (text[2..], 16) else (text, 10)
  }

  /** The sign, radix and digits of a text that has the shape of a literal. */
  function Parse(text: string): Option<(bool, nat, string)> {
    var (unsigned, negative) := StripSign(text);
    var (digits, radix) := StripPrefix(unsigned);
    if digits == [] || !AllDigits(digits, radix) then None else Some((negative, radix, digits))
  }

  function ValueOf(negative: bool, radix: nat, digits: string): int
    requires AllDigits(digits, radix)
  {
    if negative then -Magnitude(digits, radix) else Magnitude(digits, radix)
  }

  /** `_wide_integer_problem` on a string. */
  function Check(kind: Kind, text: string): Verdict {
    match Parse(text)
    case None => Malformed
    case Some((negative, radix, digits)) =>
      if radix == 10 && |digits| > MAX_STR_DIGITS then TooManyDigits
      else if IsUnsigned(kind) && negative then NegativeUnsigned
      else
        var parsed := ValueOf(negative, radix, digits);
        if parsed < Lower(kind) then BelowMinimum
        else if parsed > Upper(kind) then AboveMaximum
        else Accepted(parsed)
  }

  // ----------------------------------------------------------------- the grammar

  /** An optional sign, an optional 0x, at least one digit, and nothing else. */
  ghost predicate Literal(text: string, negative: bool, radix: nat, digits: string) {
    && digits != [] && AllDigits(digits, radix) && (radix == 10 || radix == 16)
    && exists sign: string, prefix: string ::
         && text == sign + prefix + digits
         && (if negative then sign == "-" else sign == "" || sign == "+")
         && (if radix == 16 then prefix == "0x" || prefix == "0X" else prefix == "")
  }

  /** A string is a literal in at most one way, the one found by stripping its front. */
  lemma LiteralIsParsed(text: string, negative: bool, radix: nat, digits: string)
    ensures Literal(text, negative, radix, digits) <==> Parse(text) == Some((negative, radix, digits))
  {
    if Literal(text, negative, radix, digits) {
      var sign: string, prefix: string :|
        && text == sign + prefix + digits
        && (if negative then sign == "-" else sign == "" || sign == "+")
        && (if radix == 16 then prefix == "0x" || prefix == "0X" else prefix == "");
      SignIsStripped(sign, prefix, digits, radix);
      Assoc(sign, prefix, digits);
      PrefixIsStripped(prefix, digits, radix);
    }
    if Parse(text) == Some((negative, radix, digits)) {
      ParsedIsLiteral(text);
    }
  }

  lemma ParsedIsLiteral(text: string)
    requires Parse(text).Some?
    ensures var (negative, radix, digits) := Parse(text).value; Literal(text, negative, radix, digits)
  {
    var (rest, n) := StripSign(text);
    var (digits, radix) := StripPrefix(rest);
    var sign := text[..|text| - |rest|];
    var prefix := rest[..|rest| - |digits|];
    assert text == sign + prefix + digits;
  }

  lemma SignIsStripped(sign: string, prefix: string, digits: string, radix: nat)
    requires sign in {"", "+", "-"} && digits != [] && AllDigits(digits, radix)
    requires if radix == 16 then prefix == "0x" || prefix == "0X" else prefix == ""
    ensures StripSign(sign + (prefix + digits)) == (prefix + digits, sign == "-")
  {
    var body := prefix + digits;
    assert IsDigit(digits[0], radix);
    assert body[0] != '-' && body[0] != '+';
    assert sign != "" ==> (sign + body)[1..] == body;
    assert sign == "" ==> sign + body == body;
  }

  lemma PrefixIsStripped(prefix: string, digits: string, radix: nat)
    requires digits != [] && AllDigits(digits, radix) && (radix == 10 || radix == 16)
    requires if radix == 16 then prefix == "0x" || prefix == "0X" else prefix == ""
    ensures StripPrefix(prefix + digits) == (digits, radix)
  {
    var body := prefix + digits;
    if radix == 10 {
      assert body == digits;
      assert |digits| >= 2 ==> IsDigit(digits[1], 10);
    } else {
      assert body[2..] == digits;
    }
  }

  /** Accepted with value `v`: a literal of `v`, signed only where allowed, in range, and not too long for `int`. */
  lemma AcceptedExactly(kind: Kind, text: string, v: int)
    ensures Check(kind, text) == Accepted(v)
       <==> exists negative, radix: nat, digits ::
              && Literal(text, negative, radix, digits)
              && ValueOf(negative, radix, digits) == v
              && (negative ==> !IsUnsigned(kind))
              && Lower(kind) <= v <= Upper(kind)
              && (radix == 10 ==> |digits| <= 4300)
  {
    hide Literal, Parse, Lower, Upper, Magnitude, AllDigits;
    forall negative, radix: nat, digits
      ensures Literal(text, negative, radix, digits) <==> Parse(text) == Some((negative, radix, digits))
    {
      LiteralIsParsed(text, negative, radix, digits);
    }
    if Check(kind, text) == Accepted(v) {
      var (negative, radix, digits) := Parse(text).value;
      assert Literal(text, negative, radix, digits);
    }
  }

  /** Why a text is refused: no literal, a minus sign on an unsigned kind, too small, or too large. */
  lemma RejectedExactly(kind: Kind, text: string)
    ensures Check(kind, text).Malformed? <==> forall negative, radix, digits :: !Literal(text, negative, radix, digits)
    ensures Check(kind, text).NegativeUnsigned?
       <==> exists radix, digits :: Literal(text, true, radix, digits) && Short(radix, digits) && IsUnsigned(kind)
    ensures Check(kind, text).BelowMinimum?
       <==> exists negative, radix, digits ::
              && Literal(text, negative, radix, digits) && Short(radix, digits) && !(negative && IsUnsigned(kind))
              && ValueOf(negative, radix, digits) < Lower(kind)
    ensures Check(kind, text).AboveMaximum?
       <==> exists negative, radix, digits ::
              && Literal(text, negative, radix, digits) && Short(radix, digits) && !(negative && IsUnsigned(kind))
              && ValueOf(negative, radix, digits) > Upper(kind)
  {
    hide Literal, Parse, Lower, Upper, Magnitude, AllDigits;
    forall negative, radix: nat, digits
      ensures Literal(text, negative, radix, digits) <==> Parse(text) == Some((negative, radix, digits))
    {
      LiteralIsParsed(text, negative, radix, digits);
    }
    LowerLimit(kind);
    if Parse(text).Some? {
      var (negative, radix, digits) := Parse(text).value;
      assert Literal(text, negative, radix, digits);
    }
  }

  /** Digits that `int` converts. */
  predicate Short(radix: nat, digits: string) {
    radix == 10 ==> |digits| <= 4300
  }

  /** The check gives no verdict at all exactly on decimal literals of more than 4300 digits. */
  lemma RaisesExactly(kind: Kind, text: string)
    ensures Check(kind, text).TooManyDigits?
       <==> exists negative, digits :: Literal(text, negative, 10, digits) && |digits| > 4300
  {
    hide Literal, Parse, Lower, Upper, Magnitude, AllDigits;
    forall negative, radix: nat, digits
      ensures Literal(text, negative, radix, digits) <==> Parse(text) == Some((negative, radix, digits))
    {
      LiteralIsParsed(text, negative, radix, digits);
    }
    if Check(kind, text).TooManyDigits? {
      var (negative, radix, digits) := Parse(text).value;
      assert Literal(text, negative, 10, digits);
    }
  }

  function Zeros(n: nat): (z: string)
    ensures |z| == n && AllDigits(z, 10)
  {
    seq(n, _ => '0')
  }

  lemma {:induction false} ZerosMagnitude(n: nat)
    ensures Magnitude(Zeros(n), 10) == 0
  {
    if n > 0 {
      assert Zeros(n)[..n - 1] == Zeros(n - 1);
      ZerosMagnitude(n - 1);
    }
  }

  /** A literal of every kind whose value is 1, written with 4300 leading zeros: the conversion raises on it. */
  lemma LongOneRaises(kind: Kind)
    ensures var text := Zeros(MAX_STR_DIGITS) + "1";
            && Literal(text, false, 10, text) && ValueOf(false, 10, text) == 1 && Lower(kind) <= 1 <= Upper(kind)
            && Check(kind, text) == TooManyDigits
  {
    var zeros, text := Zeros(MAX_STR_DIGITS), Zeros(MAX_STR_DIGITS) + "1";
    ZerosMagnitude(MAX_STR_DIGITS);
    assert text[..|text| - 1] == zeros && text[|text| - 1] == '1';
    assert "" + "" + text == text;
    RaisesExactly(kind, text);
  }

  // ------------------------------------------------------------------ digits

  const HEX: string := "0123456789abcdef"
  const UPPER_HEX: string := "0123456789ABCDEF"

  /** The digits and their values: decimal ones, and hexadecimal ones in either case. */
  lemma DigitTable(c: char, d: nat)
    requires d < 16
    ensures IsDigit(c, 10) <==> c in DIGITS
    ensures IsDigit(c, 16) <==> c in HEX || c in UPPER_HEX
    ensures IsDigit(HEX[d], 16) && DigitValue(HEX[d], 16) == d
    ensures IsDigit(UPPER_HEX[d], 16) && DigitValue(UPPER_HEX[d], 16) == d
    ensures d < 10 ==> IsDigit(DIGITS[d], 10) && DigitValue(DIGITS[d], 10) == d
  {
    if IsDigit(c, 16) {
      assert c == HEX[DigitValue(c, 16)] || c == UPPER_HEX[DigitValue(c, 16)];
    }
    if IsDigit(c, 10) {
      assert c == DIGITS[DigitValue(c, 10)];
    }
  }

  /** The decimal numeral of a number reads as that number. */
  lemma {:induction false} DecimalReads(n: nat)
    ensures AllDigits(Decimal(n), 10) && Magnitude(Decimal(n), 10) == n
  {
    var s := Decimal(n);
    DigitTable('0', n % 10);
    if n < 10 {
      assert s[..|s| - 1] == [];
    } else {
      DecimalReads(n / 10);
      assert s[..|s| - 1] == Decimal(n / 10);
    }
    hide DigitValue, IsDigit;
  }

  /** A number of so many bytes has at most three decimal digits for each. */
  lemma {:induction false} DecimalLength(n: nat, width: nat)
    requires n < Pow256(width) && width > 0
    ensures |Decimal(n)| <= 3 * width
  {
    ThreeDigits(n);
    if n >= 1000 {
      assert Pow256(1) == 256;
      DecimalLength(n / 1000, width - 1);
    }
  }

  lemma ThreeDigits(n: nat)
    ensures |Decimal(n)| <= 3 + if n >= 1000 then |Decimal(n / 1000)| else 0
  {
    assert n / 10 / 10 == n / 100 && n / 100 / 10 == n / 1000;
    assert |Decimal(n / 10)| <= 1 + if n / 10 >= 10 then |Decimal(n / 100)| else 0;
    assert |Decimal(n / 100)| <= 1 + if n / 100 >= 10 then |Decimal(n / 1000)| else 0;
  }

  lemma WideSize()
    ensures ScVal.TWO256 == Pow256(32)
  {
    WordSizes();
    PowSum(8, 8);
    PowSum(16, 16);
  }

  lemma {:induction false} PowSum(a: nat, b: nat)
    ensures Pow256(a + b) == Pow256(a) * Pow256(b)
  {
    if b > 0 {
      PowSum(a, b - 1);
      assert Pow256(a + b) == 256 * (Pow256(a) * Pow256(b - 1));
    }
  }

  /** Every value in range is accepted as its decimal numeral, with a minus sign if it is negative. */
  lemma DecimalAccepted(kind: Kind, v: int)
    requires Lower(kind) <= v <= Upper(kind)
    ensures Check(kind, if v < 0 then "-" + Decimal(-v) else Decimal(v)) == Accepted(v)
  {
    hide Parse, Magnitude, AllDigits, Lower, Upper, Literal, Decimal;
    var n := if v < 0 then -v else v;
    var text := if v < 0 then "-" + Decimal(-v) else Decimal(v);
    DecimalReads(n);
    WideBound(kind, v);
    DecimalLength(n, 32);
    DecimalIsLiteral(v);
    LiteralIsParsed(text, v < 0, 10, Decimal(n));
    LowerLimit(kind);
  }

  lemma WideBound(kind: Kind, v: int)
    requires Lower(kind) <= v <= Upper(kind)
    ensures v < Pow256(32) && -v < Pow256(32)
  {
    hide Pow256;
    WideSize();
  }

  lemma DecimalIsLiteral(v: int)
    ensures v < 0 ==> Literal("-" + Decimal(-v), true, 10, Decimal(-v))
    ensures v >= 0 ==> Literal(Decimal(v), false, 10, Decimal(v))
  {
    DecimalReads(if v < 0 then -v else v);
    hide Decimal, AllDigits;
    var sign := if v < 0 then "-" else "";
    assert v < 0 ==> "-" + Decimal(-v) == sign + "" + Decimal(-v);
    assert v >= 0 ==> Decimal(v) == sign + "" + Decimal(v);
  }

  function SwapCase(c: char): char {
    if 'a' <= c <= 'z' then (c as int - 32) as char else if 'A' <= c <= 'Z' then (c as int + 32) as char else c
  }

  /** Two texts that differ at most in the case of letters. */
  predicate SameButCase(s: string, t: string) {
    |s| == |t| && forall i | 0 <= i < |s| :: t[i] == s[i] || t[i] == SwapCase(s[i])
  }

  lemma CaseOfDigit(c: char, d: char, radix: nat)
    requires d == c || d == SwapCase(c)
    ensures IsDigit(c, radix) <==> IsDigit(d, radix)
    ensures IsDigit(c, radix) ==> DigitValue(c, radix) == DigitValue(d, radix)
  {
  }

  lemma CaseOfDigits(s: string, t: string, radix: nat)
    requires SameButCase(s, t)
    ensures AllDigits(s, radix) <==> AllDigits(t, radix)
  {
    hide IsDigit, SwapCase;
    forall i | 0 <= i < |s|
      ensures IsDigit(s[i], radix) <==> IsDigit(t[i], radix)
    {
      CaseOfDigit(s[i], t[i], radix);
    }
  }

  lemma {:induction false} CaseOfMagnitude(s: string, t: string, radix: nat)
    requires SameButCase(s, t) && AllDigits(s, radix)
    ensures AllDigits(t, radix) && Magnitude(s, radix) == Magnitude(t, radix)
  {
    hide IsDigit, SwapCase, DigitValue;
    CaseOfDigits(s, t, radix);
    if s != [] {
      CaseOfMagnitude(s[..|s| - 1], t[..|t| - 1], radix);
      CaseOfDigit(s[|s| - 1], t[|t| - 1], radix);
    }
  }

  /** The case of letters, in digits or in the prefix, makes no difference. */
  lemma CaseInsensitive(kind: Kind, s: string, t: string)
    requires SameButCase(s, t)
    ensures Check(kind, s) == Check(kind, t)
  {
    hide AllDigits, Magnitude;
    var (u, negative) := StripSign(s);
    var (v, also) := StripSign(t);
    assert negative == also && SameButCase(u, v);
    var (digits, radix) := StripPrefix(u);
    var (others, other) := StripPrefix(v);
    assert radix == other && SameButCase(digits, others);
    CaseOfDigits(digits, others, radix);
    if AllDigits(digits, radix) {
      CaseOfMagnitude(digits, others, radix);
    }
    hide StripSign, StripPrefix, SwapCase, Lower, Upper;
  }

  // --------------------------------------------------------------- completeness

  function HexDigits(n: nat): (s: string)
    ensures s != [] && AllDigits(s, 16)
  {
    if n < 16 then [HEX[n]] else HexDigits(n / 16) + [HEX[n % 16]]
  }

  lemma {:induction false} HexMagnitude(n: nat)
    ensures Magnitude(HexDigits(n), 16) == n
  {
    var s := HexDigits(n);
    HexDigitValue(n % 16);
    if n < 16 {
      assert s[..|s| - 1] == [];
    } else {
      HexMagnitude(n / 16);
      assert s[..|s| - 1] == HexDigits(n / 16);
    }
  }

  lemma HexDigitValue(d: nat)
    requires d < 16
    ensures IsDigit(HEX[d], 16) && DigitValue(HEX[d], 16) == d
  {
  }

  function Render(v: int): string {
    if v < 0 then "-" + "0x" + HexDigits(-v) else "" + "0x" + HexDigits(v)
  }

  lemma RenderIsLiteral(v: int)
    ensures Literal(Render(v), v < 0, 16, HexDigits(if v < 0 then -v else v))
  {
    hide HexDigits;
    var sign, prefix := if v < 0 then "-" else "", "0x";
    assert Render(v) == sign + prefix + HexDigits(if v < 0 then -v else v);
  }

  /** Every value in range has a literal that is accepted with that value. */
  lemma EveryValueHasALiteral(kind: Kind, v: int)
    requires Lower(kind) <= v <= Upper(kind)
    ensures Check(kind, Render(v)) == Accepted(v)
  {
    hide Parse, Render, Magnitude, HexDigits, AllDigits, Lower, Upper, Literal;
    var digits := HexDigits(if v < 0 then -v else v);
    HexMagnitude(if v < 0 then -v else v);
    RenderIsLiteral(v);
    LiteralIsParsed(Render(v), v < 0, 16, digits);
    LowerLimit(kind);
  }

  lemma LowerLimit(kind: Kind)
    ensures Lower(kind) <= Upper(kind) && (IsUnsigned(kind) ==> Lower(kind) == 0)
  {
  }

  // ------------------------------------------------------------------- end to end

  function ToScVal(kind: Kind, v: int): ScVal.Value {
    match kind
    case Unsigned128 => ScVal.U128(v)
    case Signed128 => ScVal.I128(v)
    case Unsigned256 => ScVal.U256(v)
    case Signed256 => ScVal.I256(v)
  }

  function LimbBytes(kind: Kind): nat {
    if kind.Unsigned128? || kind.Signed128? then 16 else 32
  }

  /** An accepted literal is encodable, in limbs that decode to its value. */
  lemma AcceptedSurvivesTheWire(kind: Kind, text: string)
    requires Check(kind, text).Accepted?
    ensures var v := ToScVal(kind, Check(kind, text).value);
            && ScVal.Encodable(v)
            && |ScVal.Encode(v)| == 4 + LimbBytes(kind)
            && ScVal.DecodeAll(ScVal.Encode(v), None) == Some(v)
  {
    hide ScVal.Decode, ScVal.DecodeAll, Parse, Magnitude;
    var v := ToScVal(kind, Check(kind, text).value);
    ScValTheorems.RoundTrip(v, [], 0);
  }

  /** The integer in a wide value. */
  function Payload(v: ScVal.Value): int
    requires v.U128? || v.I128? || v.U256? || v.I256?
  {
    match v
    case U128(x) => x
    case I128(x) => x
    case U256(x) => x
    case I256(x) => x
  }

  /** Every sequence of limbs is an integer in range: it has an accepted literal, and is its only encoding. */
  lemma EveryLimbsHaveALiteral(kind: Kind, limbs: bytes)
    requires |limbs| == LimbBytes(kind)
    ensures var b := ScVal.Word(ScVal.Code(ToScVal(kind, 0))) + limbs;
            exists v: int ::
              && ScVal.DecodeAll(b, None) == Some(ToScVal(kind, v))
              && Check(kind, Render(v)) == Accepted(v)
              && ScVal.Encodable(ToScVal(kind, v)) && ScVal.Encode(ToScVal(kind, v)) == b
  {
    var code := ScVal.Code(ToScVal(kind, 0));
    var b := ScVal.Word(code) + limbs;
    var p := ScVal.DecodeScalar(code, limbs);
    LimbsDecode(kind, limbs);
    hide ScVal.DecodeScalar, ScVal.EncodeScalar, Check, Render, ScVal.Word;
    ScValScalars.ScalarExact(code, limbs);
    var v := Payload(p.value);
    EveryValueHasALiteral(kind, v);
    assert limbs == ScVal.EncodeScalar(p.value) + [] == ScVal.EncodeScalar(p.value);
    assert ScVal.Encode(ToScVal(kind, v)) == b;
    ScValTheorems.RoundTrip(ToScVal(kind, v), [], 0);
  }

  /** Reading limbs never fails. */
  lemma LimbsDecode(kind: Kind, limbs: bytes)
    requires |limbs| == LimbBytes(kind)
    ensures var p := ScVal.DecodeScalar(ScVal.Code(ToScVal(kind, 0)), limbs);
            p.Got? && p.rest == [] && p.value == ToScVal(kind, Payload(p.value))
  {
    hide FromBE;
  }
}
