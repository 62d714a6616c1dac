/**
 Strkeys: base32 text over a version byte, a 32-byte payload and a CRC16-XModem checksum. The
 checksum catches every change of one character, and each payload has one spelling per version.
 */
module Strkey {
  import opened Bytes

  // ----------------------------------------------------------------- checksum

  /** One bit of the shift register (polynomial 0x1021). */
  function Shift(crc: bv16): bv16 {
    if crc & 0x8000 != 0 then (crc << 1) ^ 0x1021 else crc << 1
  }

  function Shifts(crc: bv16, n: nat): bv16 {
    if n == 0 then crc else Shift(Shifts(crc, n - 1))
  }

  function Xor16(x: bv16, y: bv16): bv16 {
    x ^ y
  }

  function Xor8(x: bv8, y: bv8): bv8 {
    x ^ y
  }

  function High(b: bv8): bv16 {
    (b as bv16) << 8
  }

  function CrcByte(crc: bv16, b: bv8): bv16 {
    Shifts(Xor16(crc, High(b)), 8)
  }

  function Crc(data: seq<bv8>): bv16 {
    if data == [] then 0 else CrcByte(Crc(data[..|data| - 1]), data[|data| - 1])
  }

  /** The body of the inner loop; the masks keep the register at 16 bits. */
  method ShiftBit(crc: bv16) returns (r: bv16)
    ensures r == Shift(crc)
  {
    if crc & 0x8000 != 0 {
      r := ((crc << 1) ^ 0x1021) & 0xFFFF;
    } else {
      r := (crc << 1) & 0xFFFF;
    }
  }

  /** `crc16_xmodem`: the bitwise double loop. */
  method Crc16Xmodem(data: seq<bv8>) returns (crc: bv16)
    ensures crc == Crc(data)
  {
    crc := 0;
    for i := 0 to |data|
      invariant crc == Crc(data[..i])
    {
      hide Shift, Xor16, High;
      assert data[..i + 1][..i] == data[..i];
      crc := Xor16(crc, High(data[i]));
      ghost var before := crc;
      for k := 0 to 8
        invariant crc == Shifts(before, k)
      {
        crc := ShiftBit(crc);
      }
    }
    assert data[..|data|] == data;
  }

  function Xor(a: seq<bv8>, b: seq<bv8>): (x: seq<bv8>)
    requires |a| == |b|
    ensures |x| == |a|
  {
    seq(|a|, i requires 0 <= i < |a| => Xor8(a[i], b[i]))
  }

  lemma ShiftLinear(x: bv16, y: bv16)
    ensures Shift(Xor16(x, y)) == Xor16(Shift(x), Shift(y))
  {
    if x & 0x8000 != 0 {
      ShiftLinearTop(x, y);
    } else if y & 0x8000 != 0 {
      ShiftLinearTop(y, x);
      assert x ^ y == y ^ x && Shift(x) ^ Shift(y) == Shift(y) ^ Shift(x);
    } else {
      assert (x ^ y) & 0x8000 == 0;
    }
  }

  lemma ShiftLinearTop(x: bv16, y: bv16)
    requires x & 0x8000 != 0
    ensures Shift(x ^ y) == Shift(x) ^ Shift(y)
  {
    if y & 0x8000 != 0 {
      assert (x ^ y) & 0x8000 == 0;
    } else {
      assert (x ^ y) & 0x8000 != 0;
    }
  }

  lemma {:induction false} ShiftsLinear(x: bv16, y: bv16, n: nat)
    ensures Shifts(Xor16(x, y), n) == Xor16(Shifts(x, n), Shifts(y, n))
  {
    hide Shift, Xor16;
    if n > 0 {
      ShiftsLinear(x, y, n - 1);
      ShiftLinear(Shifts(x, n - 1), Shifts(y, n - 1));
    }
  }

  lemma {:induction false} ShiftsInjective(x: bv16, y: bv16, n: nat)
    requires Shifts(x, n) == Shifts(y, n)
    ensures x == y
  {
    hide Shift;
    if n > 0 {
      ShiftInjective(Shifts(x, n - 1), Shifts(y, n - 1));
      ShiftsInjective(x, y, n - 1);
    }
  }

  lemma ShiftInjective(x: bv16, y: bv16)
    requires Shift(x) == Shift(y)
    ensures x == y
  {
    ShiftLinear(x, y);
    Cancel(Shift(x), Shift(y));
    ShiftKernel(Xor16(x, y));
    Cancel(x, y);
  }

  lemma Cancel(x: bv16, y: bv16)
    ensures Xor16(x, y) == 0 <==> x == y
  {
    hide Xor16;
    XorTwice(x, y);
    XorNothing(y);
    XorItself(y);
  }

  lemma XorTwice(x: bv16, y: bv16)
    ensures Xor16(Xor16(x, y), y) == x
  {
  }

  lemma XorNothing(x: bv16)
    ensures Xor16(0, x) == x
  {
  }

  lemma XorItself(x: bv16)
    ensures Xor16(x, x) == 0
  {
  }

  lemma ShiftKernel(x: bv16)
    requires Shift(x) == 0
    ensures x == 0
  {
  }

  lemma CrcByteLinear(c: bv16, d: bv16, x: bv8, y: bv8)
    ensures CrcByte(Xor16(c, d), Xor8(x, y)) == Xor16(CrcByte(c, x), CrcByte(d, y))
  {
    hide Shifts, Xor16, Xor8, High;
    ShiftsLinear(Xor16(c, High(x)), Xor16(d, High(y)), 8);
    Regroup(c, d, x, y);
  }

  lemma Regroup(c: bv16, d: bv16, x: bv8, y: bv8)
    ensures Xor16(Xor16(c, d), High(Xor8(x, y))) == Xor16(Xor16(c, High(x)), Xor16(d, High(y)))
  {
  }

  lemma XorFront(a: seq<bv8>, b: seq<bv8>)
    requires |a| == |b|
    ensures a == [] ==> Xor(a, b) == [] && Xor16(0, 0) == 0
    ensures a != [] ==> var n := |a| - 1; Xor(a, b)[..n] == Xor(a[..n], b[..n]) && Xor(a, b)[n] == Xor8(a[n], b[n])
  {
  }

  /** The checksum is linear over the XOR of equally long inputs. */
  lemma {:induction false} CrcLinear(a: seq<bv8>, b: seq<bv8>)
    requires |a| == |b|
    ensures Crc(Xor(a, b)) == Xor16(Crc(a), Crc(b))
  {
    hide CrcByte, Xor, Xor16, Xor8;
    XorFront(a, b);
    if a != [] {
      var n := |a| - 1;
      CrcLinear(a[..n], b[..n]);
      CrcByteLinear(Crc(a[..n]), Crc(b[..n]), a[n], b[n]);
    }
  }

  lemma EightShifts(x: bv16)
    ensures Shifts(x, 8) == Shift(Shift(Shift(Shift(Shift(Shift(Shift(Shift(x))))))))
  {
    hide Shift;
    assert Shifts(x, 1) == Shift(Shifts(x, 0)) == Shift(x);
    assert Shifts(x, 3) == Shift(Shift(Shifts(x, 1)));
    assert Shifts(x, 5) == Shift(Shift(Shifts(x, 3)));
    assert Shifts(x, 7) == Shift(Shift(Shifts(x, 5)));
  }

  /** A low byte is shifted into the high byte unchanged. */
  lemma LowByteShift(e: bv16)
    requires e < 256
    ensures Shifts(e, 8) == e << 8
  {
    EightShifts(e);
  }

  /** Two bytes that are not both zero, read from an empty register, leave it nonzero. */
  lemma TwoBytesNonzero(x: bv8, y: bv8)
    requires x != 0 || y != 0
    ensures CrcByte(CrcByte(0, x), y) != 0
  {
    hide Shifts;
    var c := CrcByte(0, x);
    Zero(8);
    if CrcByte(c, y) == 0 {
      ShiftsInjective(Xor16(c, High(y)), 0, 8);
      Cancel(c, High(y));
      LowByteShift(y as bv16);
      ShiftsInjective(Xor16(0, High(x)), y as bv16, 8);
      HighLow(x, y);
    }
  }

  lemma HighLow(x: bv8, y: bv8)
    requires Xor16(0, High(x)) == y as bv16
    ensures x == 0 && y == 0
  {
  }

  lemma {:induction false} Zero(n: nat)
    ensures Shifts(0, n) == 0
  {
    if n > 0 {
      Zero(n - 1);
    }
  }

  /** Nothing but zeros before `k`, so the register is still empty there. */
  lemma {:induction false} LeadingZeros(d: seq<bv8>, k: nat)
    requires k <= |d| && forall i | 0 <= i < k :: d[i] == 0
    ensures Crc(d[..k]) == 0
  {
    if k > 0 {
      LeadingZeros(d, k - 1);
      assert d[..k][..k - 1] == d[..k - 1];
      Zero(8);
    }
  }

  /** Zeros from `k` on keep a nonzero register nonzero. */
  lemma {:induction false} TrailingZeros(d: seq<bv8>, k: nat, n: nat)
    requires k <= n <= |d| && (forall i | k <= i < n :: d[i] == 0) && Crc(d[..k]) != 0
    ensures Crc(d[..n]) != 0
  {
    if k < n {
      TrailingZeros(d, k, n - 1);
      assert d[..n][..n - 1] == d[..n - 1];
      if Crc(d[..n]) == 0 {
        Zero(8);
        ShiftsInjective(Crc(d[..n - 1]), 0, 8);
      }
    }
  }

  /** Any two different inputs that differ only in two adjacent bytes have different checksums. */
  lemma BurstDetected(a: seq<bv8>, b: seq<bv8>, k: nat)
    requires |a| == |b| && a != b
    requires forall i | 0 <= i < |a| && i != k && i != k + 1 :: a[i] == b[i]
    ensures Crc(a) != Crc(b)
  {
    var d := Xor(a, b);
    CrcLinear(a, b);
    Cancel(Crc(a), Crc(b));
    assert d[..|d|] == d;
    assert forall i | 0 <= i < |d| :: d[i] == 0 <==> a[i] == b[i];
    BurstNonzero(d, k);
  }

  lemma BurstNonzero(d: seq<bv8>, k: nat)
    requires forall i | 0 <= i < |d| && i != k && i != k + 1 :: d[i] == 0
    requires exists i | 0 <= i < |d| :: d[i] != 0
    ensures Crc(d) != 0
  {
    LeadingZeros(d, k);
    var x := d[k];
    assert d[..k + 1][..k] == d[..k];
    assert Crc(d[..k + 1]) == CrcByte(0, x);
    if k + 1 == |d| {
      TwoBytesNonzero(0, x);
      Zero(8);
      assert d[..k + 1] == d;
      assert CrcByte(0, 0) == 0;
    } else {
      assert d[..k + 2][..k + 1] == d[..k + 1];
      TwoBytesNonzero(x, d[k + 1]);
      TrailingZeros(d, k + 2, |d|);
      assert d[..|d|] == d;
    }
  }

  /** Appending two bytes gives checksum 0 exactly when they are the checksum, high byte first. */
  lemma Residue(data: seq<bv8>, high: bv8, low: bv8)
    ensures Crc(data + [high, low]) == 0 <==> High(high) | (low as bv16) == Crc(data)
  {
    hide CrcByte;
    var m := data + [high];
    assert m[..|data|] == data && (data + [high, low])[..|m|] == m;
    ResidueRegister(Crc(data), high, low);
  }

  lemma ResidueRegister(c: bv16, high: bv8, low: bv8)
    ensures CrcByte(CrcByte(c, high), low) == 0 <==> High(high) | (low as bv16) == c
  {
    hide Shifts, Xor16, High;
    var d, e := Xor16(c, High(high)), low as bv16;
    Zero(8);
    Joined(c, high, low);
    LowByteShift(e);
    Cancel(CrcByte(c, high), High(low));
    assert High(low) == e << 8 by {
      HighIsShift(low);
    }
    if CrcByte(CrcByte(c, high), low) == 0 {
      ShiftsInjective(Xor16(CrcByte(c, high), High(low)), 0, 8);
      ShiftsInjective(d, e, 8);
    }
  }

  lemma HighIsShift(b: bv8)
    ensures High(b) == (b as bv16) << 8
  {
  }

  lemma Joined(c: bv16, high: bv8, low: bv8)
    ensures High(high) | (low as bv16) == c <==> Xor16(c, High(high)) == low as bv16
  {
    hide Xor16, High;
    OrIsXor(high, low);
    MoveXor(c, High(high), low as bv16);
  }

  lemma OrIsXor(high: bv8, low: bv8)
    ensures High(high) | (low as bv16) == Xor16(High(high), low as bv16)
  {
  }

  lemma MoveXor(c: bv16, h: bv16, l: bv16)
    ensures Xor16(h, l) == c <==> Xor16(c, h) == l
  {
    hide Xor16;
    XorTwice(c, h);
    XorTwice(l, h);
    XorSwap(h, l);
    XorSwap(c, h);
  }

  lemma XorSwap(x: bv16, y: bv16)
    ensures Xor16(x, y) == Xor16(y, x)
  {
  }
}
