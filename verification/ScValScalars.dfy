/**
 Every reader of the codec inverts its writer, in both directions: the written bytes are read back
 under any continuation, and whatever was read is exactly what would have been written.
 */
module ScValScalars {
  import opened Bytes
  import opened ScVal

  // ------------------------------------------------------------- fixed words

  lemma WordRead(v: nat, s: bytes)
    requires v < TWO32
    ensures ReadWord(Word(v) + s) == Got(v, s)
  {
    WordSizes();
    FromToBE(v, 4);
    assert (Word(v) + s)[..4] == Word(v);
  }

  lemma HyperRead(v: nat, s: bytes)
    requires v < TWO64
    ensures ReadHyper(Hyper(v) + s) == Got(v, s)
  {
    WordSizes();
    FromToBE(v, 8);
    assert (Hyper(v) + s)[..8] == Hyper(v);
  }

  lemma SignedHyperRead(v: int, s: bytes)
    requires FitsSigned(v, TWO64)
    ensures ReadSignedHyper(Hyper(Unsigned(v, TWO64)) + s) == Got(v, s)
  {
    HyperRead(Unsigned(v, TWO64), s);
  }

  lemma FixedRead(p: bytes, s: bytes)
    ensures Take(p + s, |p|) == Got(p, s)
  {
  }

  lemma WordExact(b: bytes)
    requires ReadWord(b).Got?
    ensures ReadWord(b).value < TWO32 && b == Word(ReadWord(b).value) + ReadWord(b).rest
  {
    WordSizes();
    FromBEBound(b[..4]);
    ToFromBE(b[..4]);
  }

  lemma HyperExact(b: bytes)
    requires ReadHyper(b).Got?
    ensures ReadHyper(b).value < TWO64 && b == Hyper(ReadHyper(b).value) + ReadHyper(b).rest
  {
    WordSizes();
    FromBEBound(b[..8]);
    ToFromBE(b[..8]);
  }

  lemma SignedHyperExact(b: bytes)
    requires ReadSignedHyper(b).Got?
    ensures var p := ReadSignedHyper(b);
            FitsSigned(p.value, TWO64) && b == Hyper(Unsigned(p.value, TWO64)) + p.rest
  {
    HyperExact(b);
  }

  // ---------------------------------------------------------- padded opaques

  lemma OpaqueRead(p: bytes, s: bytes, limit: Option<nat>)
    requires |p| < TWO32 && (limit.Some? ==> |p| <= limit.value)
    ensures ReadOpaque(EncodeOpaque(p) + s, limit) == Got(p, s)
  {
    var z := Zeros(Pad(|p|));
    assert EncodeOpaque(p) + s == Word(|p|) + (p + (z + s));
    WordRead(|p|, p + (z + s));
    FixedRead(p, z + s);
    FixedRead(z, s);
  }

  lemma OpaqueExact(b: bytes, limit: Option<nat>)
    requires ReadOpaque(b, limit).Got?
    ensures var p := ReadOpaque(b, limit);
            && |p.value| < TWO32 && (limit.Some? ==> |p.value| <= limit.value)
            && b == EncodeOpaque(p.value) + p.rest
  {
    hide ReadWord, Word, Pad;
    WordExact(b);
    var b1 := ReadWord(b).rest;
    var n := ReadWord(b).value;
    assert b1 == b1[..n] + (b1[n..][..Pad(n)] + b1[n..][Pad(n)..]);
  }

  lemma TextRead(p: bytes, s: bytes, limit: Option<nat>)
    requires |p| < TWO32 && (limit.Some? ==> |p| <= limit.value) && ValidUtf8(p)
    ensures ReadText(EncodeOpaque(p) + s, limit) == Got(p, s)
  {
    OpaqueRead(p, s, limit);
  }

  // ----------------------------------------------------------- nested unions

  lemma FlagRead(f: bool, s: bytes)
    ensures ReadFlag(Word(if f then 1 else 0) + s) == Got(f, s)
  {
    WordRead(if f then 1 else 0, s);
  }

  lemma FlagExact(b: bytes)
    requires ReadFlag(b).Got?
    ensures b == Word(if ReadFlag(b).value then 1 else 0) + ReadFlag(b).rest
  {
    WordExact(b);
  }

  lemma AddressRead(a: Address, s: bytes)
    requires AddressOk(a)
    ensures DecodeAddress(EncodeAddress(a) + s) == Got(a, s)
  {
    hide ReadWord, ReadHyper, Word, Hyper;
    match a
    case Account(key) =>
      assert EncodeAddress(a) + s == Word(0) + (Word(0) + (key + s));
      WordRead(0, Word(0) + (key + s));
      WordRead(0, key + s);
      FixedRead(key, s);
    case Contract(id) =>
      assert EncodeAddress(a) + s == Word(1) + (id + s);
      WordRead(1, id + s);
      FixedRead(id, s);
    case MuxedContract(id, contractId) =>
      assert EncodeAddress(a) + s == Word(5) + (Hyper(id) + (contractId + s));
      WordRead(5, Hyper(id) + (contractId + s));
      HyperRead(id, contractId + s);
      FixedRead(contractId, s);
  }

  lemma AddressExact(b: bytes)
    requires DecodeAddress(b).Got?
    ensures var p := DecodeAddress(b); AddressOk(p.value) && b == EncodeAddress(p.value) + p.rest
  {
    WordExact(b);
    var kind, b1 := ReadWord(b).value, ReadWord(b).rest;
    if kind == 0 {
      WordExact(b1);
      var b2 := ReadWord(b1).rest;
      assert b == Word(0) + Word(0) + b2[..32] + b2[32..];
    } else if kind == 1 {
      assert b == Word(1) + b1[..32] + b1[32..];
    } else {
      HyperExact(b1);
      var b2 := ReadHyper(b1).rest;
      assert b == Word(5) + Hyper(ReadHyper(b1).value) + b2[..32] + b2[32..];
    }
  }

  lemma ErrorRead(e: ScError, s: bytes)
    requires ErrorOkay(e)
    ensures DecodeError(EncodeError(e) + s) == Got(e, s)
  {
    match e
    case ErrorOk =>
      WordRead(0, s);
    case ErrorCode(t, code) =>
      assert EncodeError(e) + s == Word(ErrorTypeCode(t)) + (Word(code) + s);
      WordRead(ErrorTypeCode(t), Word(code) + s);
      WordRead(code, s);
      ErrorTypeRoundTrip(t);
  }

  lemma ErrorTypeRoundTrip(t: ErrorType)
    ensures ErrorTypeOf(ErrorTypeCode(t)) == Some(t)
  {
  }

  lemma ErrorExact(b: bytes)
    requires DecodeError(b).Got?
    ensures var p := DecodeError(b); ErrorOkay(p.value) && b == EncodeError(p.value) + p.rest
  {
    WordExact(b);
    var kind, b1 := ReadWord(b).value, ReadWord(b).rest;
    if kind != 0 {
      WordExact(b1);
      var code, b2 := ReadWord(b1).value, ReadWord(b1).rest;
      assert b == Word(kind) + Word(code) + b2;
    }
  }

  lemma ExecutableRead(x: Executable, s: bytes)
    requires ExecutableOk(x)
    ensures DecodeExecutable(EncodeExecutable(x) + s) == Got(x, s)
  {
    hide ReadWord, Word;
    match x
    case Wasm(hash) =>
      assert EncodeExecutable(x) + s == Word(0) + (hash + s);
      WordRead(0, hash + s);
      FixedRead(hash, s);
    case StellarAsset =>
      WordRead(1, s);
    case ExternalRef(owner, tag) =>
      ExternalRefRead(owner, tag, s);
  }

  lemma ExternalRefRead(owner: Address, tag: bytes, s: bytes)
    requires ExecutableOk(ExternalRef(owner, tag))
    ensures DecodeExecutable(EncodeExecutable(ExternalRef(owner, tag)) + s) == Got(ExternalRef(owner, tag), s)
  {
    hide ReadWord, Word, DecodeAddress, EncodeAddress, ReadText, EncodeOpaque, ValidUtf8;
    var t := EncodeOpaque(tag) + s;
    var u := EncodeAddress(owner) + t;
    assert EncodeExecutable(ExternalRef(owner, tag)) + s == Word(2) + u;
    WordRead(2, u);
    AddressRead(owner, t);
    TextRead(tag, s, None);
  }

  lemma ExecutableExact(b: bytes)
    requires DecodeExecutable(b).Got?
    ensures var p := DecodeExecutable(b); ExecutableOk(p.value) && b == EncodeExecutable(p.value) + p.rest
  {
    hide ReadWord, Word, DecodeAddress, EncodeAddress, AddressOk, ReadOpaque, EncodeOpaque, ValidUtf8;
    WordExact(b);
    var kind, b1 := ReadWord(b).value, ReadWord(b).rest;
    if kind == 0 {
      assert b1 == b1[..32] + b1[32..];
      Assoc(Word(0), b1[..32], b1[32..]);
    } else if kind == 2 {
      AddressExact(b1);
      var owner, b2 := DecodeAddress(b1).value, DecodeAddress(b1).rest;
      OpaqueExact(b2, None);
      var tag, b3 := ReadOpaque(b2, None).value, ReadOpaque(b2, None).rest;
      Assoc(EncodeAddress(owner), EncodeOpaque(tag), b3);
      Assoc(Word(2), EncodeAddress(owner), EncodeOpaque(tag) + b3);
      Assoc(Word(2) + EncodeAddress(owner), EncodeOpaque(tag), b3);
    }
  }

  lemma StorageRead(x: Option<Executable>, s: bytes)
    requires x.Some? ==> ExecutableOk(x.value)
    ensures DecodeStorage(EncodeStorage(x) + s) == Got(x, s)
  {
    if x.None? {
      FlagRead(false, s);
    } else {
      assert EncodeStorage(x) + s == Word(1) + (EncodeExecutable(x.value) + s);
      FlagRead(true, EncodeExecutable(x.value) + s);
      ExecutableRead(x.value, s);
    }
  }

  lemma StorageExact(b: bytes)
    requires DecodeStorage(b).Got?
    ensures var p := DecodeStorage(b);
            (p.value.Some? ==> ExecutableOk(p.value.value)) && b == EncodeStorage(p.value) + p.rest
  {
    FlagExact(b);
    if ReadFlag(b).value {
      var b1 := ReadFlag(b).rest;
      ExecutableExact(b1);
      var x := DecodeExecutable(b1);
      assert b == Word(1) + EncodeExecutable(x.value) + x.rest;
    }
  }

  // ----------------------------------------------------------- wide integers

  /** The low limbs carry exactly the value modulo 2^192, whatever the sign. */
  lemma LimbsRead(x: int, s: bytes)
    ensures DecodeLimbs(Limbs(x) + s) == Got(x % TWO192, s)
  {
    var h1, h2, h3 := x / TWO128 % TWO64, x / TWO64 % TWO64, x % TWO64;
    assert Limbs(x) + s == Hyper(h1) + (Hyper(h2) + (Hyper(h3) + s));
    HyperRead(h1, Hyper(h2) + (Hyper(h3) + s));
    HyperRead(h2, Hyper(h3) + s);
    HyperRead(h3, s);
    LimbSum(x);
  }

  lemma LimbSum(x: int)
    ensures (x / TWO128 % TWO64) * TWO128 + (x / TWO64 % TWO64) * TWO64 + x % TWO64 == x % TWO192
  {
    TwoLimbs(x);
    TwoLimbs(x / TWO64);
    ThreeLimbs(x);
  }

  lemma TwoLimbs(x: int)
    ensures x / TWO128 == x / TWO64 / TWO64
  {
    var q, r := x / TWO64, x % TWO64;
    var q2, r2 := q / TWO64, q % TWO64;
    assert x == q2 * TWO128 + (r2 * TWO64 + r);
  }

  lemma ThreeLimbs(x: int)
    ensures x / TWO192 == x / TWO128 / TWO64
  {
    var q, r := x / TWO128, x % TWO128;
    var q2, r2 := q / TWO64, q % TWO64;
    assert x == q2 * TWO192 + (r2 * TWO128 + r);
  }

  /** Any three limbs are the low limbs of a 256-bit integer whose high limb is arbitrary. */
  lemma LimbsExact(b: bytes, hi: int)
    requires DecodeLimbs(b).Got?
    ensures var p := DecodeLimbs(b);
            && p.value < TWO192 && b == Limbs(hi * TWO192 + p.value) + p.rest
            && (hi * TWO192 + p.value) / TWO192 == hi
  {
    HyperExact(b);
    var p1, b1 := ReadHyper(b).value, ReadHyper(b).rest;
    HyperExact(b1);
    var p2, b2 := ReadHyper(b1).value, ReadHyper(b1).rest;
    HyperExact(b2);
    var p3, b3 := ReadHyper(b2).value, ReadHyper(b2).rest;
    assert b == Hyper(p1) + Hyper(p2) + Hyper(p3) + b3;
    LimbSplit(hi, p1, p2, p3);
  }

  lemma LimbSplit(hi: int, p1: nat, p2: nat, p3: nat)
    requires p1 < TWO64 && p2 < TWO64 && p3 < TWO64
    ensures var low := p1 * TWO128 + p2 * TWO64 + p3;
            var x := hi * TWO192 + low;
            && low < TWO192 && x / TWO192 == hi
            && x / TWO128 % TWO64 == p1 && x / TWO64 % TWO64 == p2 && x % TWO64 == p3
  {
    var q1 := hi * TWO64 + p1;
    var q2 := q1 * TWO64 + p2;
    var x := q2 * TWO64 + p3;
    DropLimb(hi, p1);
    DropLimb(q1, p2);
    DropLimb(q2, p3);
    TwoLimbs(x);
    ThreeLimbs(x);
  }

  lemma DropLimb(q: int, r: nat)
    requires r < TWO64
    ensures (q * TWO64 + r) / TWO64 == q && (q * TWO64 + r) % TWO64 == r
  {
  }

  lemma U128Read(x: int, s: bytes)
    requires Fits(x, TWO128)
    ensures DecodeU128(EncodeU128(x) + s) == Got(x, s)
  {
    hide ReadHyper, Hyper;
    assert EncodeU128(x) + s == Hyper(x / TWO64) + (Hyper(x % TWO64) + s);
    HyperRead(x / TWO64, Hyper(x % TWO64) + s);
    HyperRead(x % TWO64, s);
  }

  lemma U128Exact(b: bytes)
    requires DecodeU128(b).Got?
    ensures var p := DecodeU128(b); Fits(p.value, TWO128) && b == EncodeU128(p.value) + p.rest
  {
    hide ReadHyper, Hyper;
    HyperExact(b);
    var hi, b1 := ReadHyper(b).value, ReadHyper(b).rest;
    HyperExact(b1);
    var lo, b2 := ReadHyper(b1).value, ReadHyper(b1).rest;
    DropLimb(hi, lo);
    Assoc(Hyper(hi), Hyper(lo), b2);
  }

  lemma I128Read(x: int, s: bytes)
    requires FitsSigned(x, TWO128)
    ensures DecodeI128(EncodeI128(x) + s) == Got(x, s)
  {
    hide ReadHyper, ReadSignedHyper, Hyper;
    assert EncodeI128(x) + s == Hyper(Unsigned(x / TWO64, TWO64)) + (Hyper(x % TWO64) + s);
    SignedHyperRead(x / TWO64, Hyper(x % TWO64) + s);
    HyperRead(x % TWO64, s);
  }

  lemma I128Exact(b: bytes)
    requires DecodeI128(b).Got?
    ensures var p := DecodeI128(b); FitsSigned(p.value, TWO128) && b == EncodeI128(p.value) + p.rest
  {
    hide ReadHyper, ReadSignedHyper, Hyper;
    SignedHyperExact(b);
    var hi, b1 := ReadSignedHyper(b).value, ReadSignedHyper(b).rest;
    HyperExact(b1);
    var lo, b2 := ReadHyper(b1).value, ReadHyper(b1).rest;
    DropLimb(hi, lo);
    Assoc(Hyper(Unsigned(hi, TWO64)), Hyper(lo), b2);
  }

  lemma U256Read(x: int, s: bytes)
    requires Fits(x, TWO256)
    ensures DecodeU256(EncodeU256(x) + s) == Got(x, s)
  {
    hide ReadHyper, ReadSignedHyper, Hyper, DecodeLimbs, Limbs;
    assert EncodeU256(x) + s == Hyper(x / TWO192) + (Limbs(x) + s);
    HyperRead(x / TWO192, Limbs(x) + s);
    LimbsRead(x, s);
  }

  lemma U256Exact(b: bytes)
    requires DecodeU256(b).Got?
    ensures var p := DecodeU256(b); Fits(p.value, TWO256) && b == EncodeU256(p.value) + p.rest
  {
    hide ReadHyper, ReadSignedHyper, Hyper, DecodeLimbs, Limbs;
    HyperExact(b);
    var hi, b1 := ReadHyper(b).value, ReadHyper(b).rest;
    LimbsExact(b1, hi);
    assert b == Hyper(hi) + Limbs(hi * TWO192 + DecodeLimbs(b1).value) + DecodeLimbs(b1).rest;
  }

  lemma I256Read(x: int, s: bytes)
    requires FitsSigned(x, TWO256)
    ensures DecodeI256(EncodeI256(x) + s) == Got(x, s)
  {
    hide ReadHyper, ReadSignedHyper, Hyper, DecodeLimbs, Limbs;
    assert EncodeI256(x) + s == Hyper(Unsigned(x / TWO192, TWO64)) + (Limbs(x) + s);
    SignedHyperRead(x / TWO192, Limbs(x) + s);
    LimbsRead(x, s);
  }

  lemma I256Exact(b: bytes)
    requires DecodeI256(b).Got?
    ensures var p := DecodeI256(b); FitsSigned(p.value, TWO256) && b == EncodeI256(p.value) + p.rest
  {
    hide ReadHyper, ReadSignedHyper, Hyper, DecodeLimbs, Limbs;
    SignedHyperExact(b);
    var hi, b1 := ReadSignedHyper(b).value, ReadSignedHyper(b).rest;
    LimbsExact(b1, hi);
    assert b == Hyper(Unsigned(hi, TWO64)) + Limbs(hi * TWO192 + DecodeLimbs(b1).value) + DecodeLimbs(b1).rest;
  }

  // --------------------------------------------------------- two-part structs

  lemma InstanceRead(x: Executable, st: Option<Executable>, s: bytes)
    requires ScalarOk(ContractInstance(x, st))
    ensures DecodeInstance(EncodeInstance(x, st) + s) == Got(ContractInstance(x, st), s)
  {
    hide DecodeExecutable, DecodeStorage, EncodeExecutable, EncodeStorage, ExecutableOk;
    assert EncodeInstance(x, st) + s == EncodeExecutable(x) + (EncodeStorage(st) + s);
    ExecutableRead(x, EncodeStorage(st) + s);
    StorageRead(st, s);
  }

  lemma InstanceExact(b: bytes)
    requires DecodeInstance(b).Got?
    ensures var p := DecodeInstance(b);
            && p.value.ContractInstance? && ScalarOk(p.value)
            && b == EncodeScalar(p.value) + p.rest
  {
    hide DecodeExecutable, DecodeStorage, EncodeExecutable, EncodeStorage, ExecutableOk;
    ExecutableExact(b);
    var x, b1 := DecodeExecutable(b).value, DecodeExecutable(b).rest;
    StorageExact(b1);
    assert b == EncodeExecutable(x) + EncodeStorage(DecodeStorage(b1).value) + DecodeStorage(b1).rest;
  }

  lemma NonceKeyRead(a: Address, n: int, s: bytes)
    requires AddressOk(a) && Fits(n, TWO64)
    ensures DecodeNonceKey(EncodeNonceKey(a, n) + s) == Got(LedgerKeyNonce(a, n), s)
  {
    assert EncodeNonceKey(a, n) + s == EncodeAddress(a) + (Hyper(n) + s);
    AddressRead(a, Hyper(n) + s);
    HyperRead(n, s);
  }

  lemma NonceKeyExact(b: bytes)
    requires DecodeNonceKey(b).Got?
    ensures var p := DecodeNonceKey(b);
            && p.value.LedgerKeyNonce? && ScalarOk(p.value)
            && b == EncodeScalar(p.value) + p.rest
  {
    AddressExact(b);
    var a, b1 := DecodeAddress(b).value, DecodeAddress(b).rest;
    HyperExact(b1);
    assert b == EncodeAddress(a) + Hyper(ReadHyper(b1).value) + ReadHyper(b1).rest;
  }

  // ------------------------------------------------- all arms without children

  lemma {:induction false} ScalarRead(v: Value, s: bytes)
    requires ScalarOk(v) && !Container(v)
    ensures DecodeScalar(Code(v), EncodeScalar(v) + s) == Got(v, s)
  {
    hide DecodeError, EncodeError, ErrorOkay, DecodeAddress, EncodeAddress, AddressOk,
         DecodeExecutable, EncodeExecutable, ExecutableOk, DecodeInstance, EncodeInstance,
         DecodeNonceKey, EncodeNonceKey, DecodeU128, EncodeU128, DecodeI128, EncodeI128,
         DecodeU256, EncodeU256, DecodeI256, EncodeI256, ReadOpaque, EncodeOpaque, ValidUtf8,
         ReadHyper, ReadSignedHyper, ReadWord, Hyper, Word;
    match v
    case Bool(f) => WordRead(if f then 1 else 0, s);
    case Void => assert [] + s == s;
    case Error(e) => ErrorRead(e, s);
    case U32(x) => WordRead(x, s);
    case I32(x) => WordRead(Unsigned(x, TWO32), s);
    case U64(x) => HyperRead(x, s);
    case I64(x) => SignedHyperRead(x, s);
    case Timepoint(x) => HyperRead(x, s);
    case Duration(x) => HyperRead(x, s);
    case U128(x) => U128Read(x, s);
    case I128(x) => I128Read(x, s);
    case U256(x) => U256Read(x, s);
    case I256(x) => I256Read(x, s);
    case Blob(b) => OpaqueRead(b, s, None);
    case Text(t) => TextRead(t, s, None);
    case Symbol(t) => TextRead(t, s, Some(SC_SYMBOL_LIMIT));
    case AddressVal(a) => AddressRead(a, s);
    case ContractInstance(x, st) => InstanceRead(x, st, s);
    case LedgerKeyContractInstance => assert [] + s == s;
    case LedgerKeyNonce(a, n) => NonceKeyRead(a, n, s);
    case ExecutableTag(x) => ExecutableRead(x, s);
  }

  /** Apart from the lenient bool word, the bytes read are the bytes that would be written. */
  lemma {:induction false} ScalarExact(code: nat, b: bytes)
    requires code != 0 && DecodeScalar(code, b).Got?
    ensures var p := DecodeScalar(code, b);
            && ScalarOk(p.value) && !Container(p.value) && Code(p.value) == code && !p.value.Bool?
            && b == EncodeScalar(p.value) + p.rest
  {
    hide DecodeError, EncodeError, ErrorOkay, DecodeAddress, EncodeAddress, AddressOk,
         DecodeExecutable, EncodeExecutable, ExecutableOk, DecodeInstance, EncodeInstance,
         DecodeNonceKey, EncodeNonceKey, DecodeU128, EncodeU128, DecodeI128, EncodeI128,
         DecodeU256, EncodeU256, DecodeI256, EncodeI256, ReadOpaque, EncodeOpaque, ValidUtf8,
         ReadHyper, ReadSignedHyper, ReadWord, Hyper, Word;
    match code
    case 1 => assert [] + b == b;
    case 2 => ErrorExact(b);
    case 3 => WordExact(b);
    case 4 => WordExact(b);
    case 5 => HyperExact(b);
    case 6 => SignedHyperExact(b);
    case 7 => HyperExact(b);
    case 8 => HyperExact(b);
    case 9 => U128Exact(b);
    case 10 => I128Exact(b);
    case 11 => U256Exact(b);
    case 12 => I256Exact(b);
    case 13 => OpaqueExact(b, None);
    case 14 => OpaqueExact(b, None);
    case 15 => OpaqueExact(b, Some(SC_SYMBOL_LIMIT));
    case 18 => AddressExact(b);
    case 19 => InstanceExact(b);
    case 20 => assert [] + b == b;
    case 21 => NonceKeyExact(b);
    case 22 => ExecutableExact(b);
    case _ =>
  }
}
