/**
 What the checksum is: the remainder of a polynomial division over GF(2). A polynomial is the set of the
 exponents whose coefficient is 1.
 */
module CrcPolynomial {
  import opened Strkey

  type Poly = iset<nat>

  ghost function Plus(p: Poly, q: Poly): Poly {
    iset e: nat | (e in p) != (e in q)
  }

  /** `p` times the `n`th power of x. */
  ghost function Raise(p: Poly, n: nat): Poly {
    iset d: nat | d in p :: d + n
  }

  lemma RaiseAt(p: Poly, n: nat, e: nat)
    ensures e in Raise(p, n) <==> e >= n && e - n in p
  {
    if e >= n && e - n in p {
      assert e == (e - n) + n;
    }
  }

  /** The product of a polynomial given by its coefficients, highest first, and another one (Horner's rule). */
  ghost function Times(bits: seq<bool>, g: Poly): Poly {
    if bits == [] then iset{}
    else Plus(Raise(Times(bits[..|bits| - 1], g), 1), if bits[|bits| - 1] then g else iset{})
  }

  ghost const ONE: Poly := iset{0}

  /** The polynomial with these coefficients, highest first. */
  ghost function Polynomial(bits: seq<bool>): Poly {
    Times(bits, ONE)
  }

  /** CRC-16/XMODEM: x^16 + x^12 + x^5 + 1. */
  ghost const GENERATOR: Poly := iset{16, 12, 5, 0}

  // ----------------------------------------------------------------- algebra

  lemma {:induction false} TimesConcat(a: seq<bool>, b: seq<bool>, g: Poly)
    ensures Times(a + b, g) == Plus(Raise(Times(a, g), |b|), Times(b, g))
  {
    if b == [] {
      assert a + b == a;
      RaiseNone(Times(a, g));
    } else {
      var front, last := b[..|b| - 1], b[|b| - 1];
      var tail := if last then g else iset{};
      assert (a + b)[..|a + b| - 1] == a + front;
      TimesConcat(a, front, g);
      RaisePlus(Raise(Times(a, g), |front|), Times(front, g), 1);
      RaiseTwice(Times(a, g), |front|, 1);
      PlusAssoc(Raise(Times(a, g), |b|), Raise(Times(front, g), 1), tail);
      hide Plus, Raise;
    }
  }

  lemma RaiseTwice(p: Poly, m: nat, n: nat)
    ensures Raise(Raise(p, m), n) == Raise(p, m + n)
  {
    forall e: nat
      ensures e in Raise(Raise(p, m), n) <==> e in Raise(p, m + n)
    {
      RaiseAt(Raise(p, m), n, e);
      RaiseAt(p, m + n, e);
      if e >= n {
        RaiseAt(p, m, e - n);
      }
    }
  }

  lemma RaisePlus(p: Poly, q: Poly, n: nat)
    ensures Raise(Plus(p, q), n) == Plus(Raise(p, n), Raise(q, n))
  {
    forall e: nat
      ensures e in Raise(Plus(p, q), n) <==> e in Plus(Raise(p, n), Raise(q, n))
    {
      RaiseAt(Plus(p, q), n, e);
      RaiseAt(p, n, e);
      RaiseAt(q, n, e);
    }
  }

  lemma RaiseNone(p: Poly)
    ensures Raise(p, 0) == p && Raise(iset{}, 1) == iset{} && Plus(p, iset{}) == p && Plus(iset{}, p) == p
  {
    forall e: nat
      ensures e in Raise(p, 0) <==> e in p
    {
      RaiseAt(p, 0, e);
    }
  }

  lemma PlusAssoc(p: Poly, q: Poly, r: Poly)
    ensures Plus(Plus(p, q), r) == Plus(p, Plus(q, r))
  {
  }

  // ---------------------------------------------------------------- registers

  const MASKS: seq<bv16> := [
    0x0001, 0x0002, 0x0004, 0x0008, 0x0010, 0x0020, 0x0040, 0x0080,
    0x0100, 0x0200, 0x0400, 0x0800, 0x1000, 0x2000, 0x4000, 0x8000 ]

  /** Whether a register has a bit of a mask. */
  predicate Has(c: bv16, mask: bv16) {
    And16(c, mask) != 0
  }

  function And16(x: bv16, y: bv16): bv16 {
    x & y
  }

  /** The polynomial in a 16-bit register: bit e is the coefficient of x^e. */
  ghost function Register(c: bv16): Poly {
    iset e: nat | e < 16 && Has(c, MASKS[e])
  }

  const BYTE_MASKS: seq<bv8> := [0x01, 0x02, 0x04, 0x08, 0x10, 0x20, 0x40, 0x80]

  /** The coefficients of a byte, highest first. */
  function Bits(b: bv8): (s: seq<bool>)
    ensures |s| == 8
  {
    seq(8, i requires 0 <= i < 8 => b & BYTE_MASKS[7 - i] != 0)
  }

  function AllBits(data: seq<bv8>): seq<bool> {
    if data == [] then [] else AllBits(data[..|data| - 1]) + Bits(data[|data| - 1])
  }

  predicate Single(mask: bv16) {
    mask != 0 && mask & (mask - 1) == 0
  }

  lemma MaskXor(c: bv16, d: bv16, mask: bv16)
    requires Single(mask)
    ensures Has(Xor16(c, d), mask) <==> Has(c, mask) != Has(d, mask)
  {
    hide And16, Xor16, Single;
    MaskDistributes(c, d, mask);
    OneBit(c, mask);
    OneBit(d, mask);
    TwoBits(And16(c, mask), And16(d, mask), mask);
  }

  lemma MaskDistributes(c: bv16, d: bv16, mask: bv16)
    ensures And16(Xor16(c, d), mask) == Xor16(And16(c, mask), And16(d, mask))
  {
  }

  lemma OneBit(c: bv16, mask: bv16)
    requires Single(mask)
    ensures And16(c, mask) == 0 || And16(c, mask) == mask
  {
  }

  lemma TwoBits(x: bv16, y: bv16, mask: bv16)
    requires (x == 0 || x == mask) && (y == 0 || y == mask)
    ensures Xor16(x, y) != 0 <==> (x != 0) != (y != 0)
  {
    hide Xor16;
    Cancel(x, y);
  }

  lemma MaskShift(c: bv16, mask: bv16)
    requires Single(mask)
    ensures Has(c << 1, mask) <==> Has(c, mask >> 1)
  {
  }

  lemma Masks(e: nat)
    requires e < 16
    ensures Single(MASKS[e]) && MASKS[e] >> 1 == if e == 0 then 0 else MASKS[e - 1]
    ensures Has(0x1021, MASKS[e]) <==> e in {12, 5, 0}
  {
  }

  lemma NoMask(c: bv16)
    ensures !Has(c, 0)
  {
  }

  lemma RegisterXor(c: bv16, d: bv16)
    ensures Register(Xor16(c, d)) == Plus(Register(c), Register(d))
  {
    hide Has, Xor16, Single;
    forall e: nat | e < 16
      ensures Has(Xor16(c, d), MASKS[e]) <==> Has(c, MASKS[e]) != Has(d, MASKS[e])
    {
      Masks(e);
      MaskXor(c, d, MASKS[e]);
    }
  }

  lemma ShiftIs(c: bv16)
    ensures Shift(c) == if Has(c, 0x8000) then Xor16(c << 1, 0x1021) else c << 1
  {
  }

  /** One shift multiplies by x, and takes the generator away when x^16 appears. */
  lemma ShiftDivides(c: bv16)
    ensures Raise(Register(c), 1) == Plus(if Has(c, 0x8000) then GENERATOR else iset{}, Register(Shift(c)))
  {
    hide Has, Xor16, Single, Shift, Raise;
    ShiftIs(c);
    forall e: nat
      ensures e in Raise(Register(c), 1)
         <==> e in Plus(if Has(c, 0x8000) then GENERATOR else iset{}, Register(Shift(c)))
    {
      RaiseAt(Register(c), 1, e);
      if e < 16 {
        Masks(e);
        MaskShift(c, MASKS[e]);
        NoMask(c);
        MaskXor(c << 1, 0x1021, MASKS[e]);
      }
    }
  }

  lemma {:induction false} ShiftsDivide(c: bv16, n: nat) returns (q: seq<bool>)
    ensures |q| == n && Raise(Register(c), n) == Plus(Times(q, GENERATOR), Register(Shifts(c, n)))
  {
    hide Has, Raise, Plus, Register, Shift;
    if n == 0 {
      q := [];
      RaiseNone(Register(c));
    } else {
      var front := ShiftsDivide(c, n - 1);
      var r := Shifts(c, n - 1);
      q := front + [Has(r, 0x8000)];
      assert q[..|q| - 1] == front;
      var top := if Has(r, 0x8000) then GENERATOR else iset{};
      RaiseTwice(Register(c), n - 1, 1);
      RaisePlus(Times(front, GENERATOR), Register(r), 1);
      ShiftDivides(r);
      PlusAssoc(Raise(Times(front, GENERATOR), 1), top, Register(Shift(r)));
    }
  }

  // -------------------------------------------------------------------- bytes

  lemma HighMask(b: bv8, mask: bv8)
    ensures Has(High(b), High(mask)) <==> b & mask != 0
  {
  }

  lemma LowMask(b: bv8, mask: bv16)
    requires mask < 256
    ensures !Has(High(b), mask)
  {
  }

  lemma MaskHalves(e: nat)
    requires e < 16
    ensures if e < 8 then MASKS[e] < 256 else MASKS[e] == High(BYTE_MASKS[e - 8])
  {
  }

  lemma BitsAt(b: bv8, k: nat)
    requires k < 8
    ensures Bits(b)[7 - k] <==> b & BYTE_MASKS[k] != 0
  {
  }

  lemma HighMasks(b: bv8, e: nat)
    requires e < 16
    ensures Has(High(b), MASKS[e]) <==> e >= 8 && Bits(b)[15 - e]
  {
    hide Has, High, Bits;
    MaskHalves(e);
    if e < 8 {
      LowMask(b, MASKS[e]);
    } else {
      HighMask(b, BYTE_MASKS[e - 8]);
      BitsAt(b, e - 8);
    }
  }

  /** A byte is added to the register eight places up. */
  lemma HighIsRaised(b: bv8)
    ensures Register(High(b)) == Raise(Polynomial(Bits(b)), 8)
  {
    hide Has, High, Raise, Bits, Times;
    forall e: nat
      ensures e in Register(High(b)) <==> e in Raise(Polynomial(Bits(b)), 8)
    {
      RaiseAt(Polynomial(Bits(b)), 8, e);
      if e < 16 {
        HighMasks(b, e);
      }
      if e >= 8 {
        PolynomialAt(Bits(b), e - 8);
      }
    }
  }

  lemma {:induction false} PolynomialAt(bits: seq<bool>, e: nat)
    ensures e in Polynomial(bits) <==> e < |bits| && bits[|bits| - 1 - e]
  {
    hide Raise;
    if bits != [] {
      var front := bits[..|bits| - 1];
      RaiseAt(Polynomial(front), 1, e);
      if e > 0 {
        PolynomialAt(front, e - 1);
      }
    }
  }

  // -------------------------------------------------------------- the theorem

  /**
   The checksum of a message M(x) is the remainder of M(x) * x^16 divided by the generator: what is left
   after a multiple of the generator, all of it below x^16.
   */
  lemma {:induction false} CrcDivides(data: seq<bv8>) returns (q: seq<bool>)
    ensures Raise(Polynomial(AllBits(data)), 16) == Plus(Times(q, GENERATOR), Register(Crc(data)))
    ensures forall e | e in Register(Crc(data)) :: e < 16
  {
    hide Has, High, Raise, Bits, Times, Plus, Shifts, Xor16;
    if data == [] {
      q := [];
      NothingLeft();
    } else {
      var front, b := data[..|data| - 1], data[|data| - 1];
      var q1 := CrcDivides(front);
      q := OneMoreByte(AllBits(front), q1, Crc(front), b);
    }
  }

  lemma NothingLeft()
    ensures Raise(Polynomial([]), 16) == iset{} && Times([], GENERATOR) == iset{}
    ensures Register(0) == iset{} && Plus(iset{}, iset{}) == iset{}
  {
    forall e: nat
      ensures e !in Raise(Polynomial([]), 16)
    {
      RaiseAt(Polynomial([]), 16, e);
    }
  }

  /** If a register is the remainder for a message, then after one more byte it is that for the longer message. */
  lemma OneMoreByte(message: seq<bool>, q: seq<bool>, c: bv16, b: bv8) returns (q': seq<bool>)
    requires Raise(Polynomial(message), 16) == Plus(Times(q, GENERATOR), Register(c))
    ensures Raise(Polynomial(message + Bits(b)), 16) == Plus(Times(q', GENERATOR), Register(CrcByte(c, b)))
  {
    hide Has, High, Raise, Bits, Times, Plus, Shifts, Xor16, Register;
    var added := Xor16(c, High(b));
    var p, m, t := Polynomial(Bits(b)), Polynomial(message), Times(q, GENERATOR);
    var q8 := ShiftsDivide(added, 8);
    q' := q + q8;
    TimesConcat(message, Bits(b), ONE);
    TimesConcat(q, q8, GENERATOR);
    RaisePlus(Raise(m, 8), p, 16);
    RaiseTwice(m, 8, 16);
    RaiseTwice(m, 16, 8);
    RaisePlus(t, Register(c), 8);
    RegisterXor(c, High(b));
    HighIsRaised(b);
    RaisePlus(Register(c), Raise(p, 8), 8);
    RaiseTwice(p, 8, 8);
    PlusAssoc(Raise(t, 8), Raise(Register(c), 8), Raise(p, 16));
    PlusAssoc(Raise(t, 8), Times(q8, GENERATOR), Register(Shifts(added, 8)));
  }
}
