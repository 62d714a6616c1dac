/**
 The wire format in absolute terms: big-endian words, two's complement, the discriminants of the arms
 and the layout of what follows them.
 */
module ScValLayout {
  import opened Bytes
  import opened ScVal
  import ScValScalars
  import opened ScValText
  import opened ScValTheorems

  // ------------------------------------------------------------------- words

  /** An XDR integer is four bytes, most significant first (RFC 4506, section 4.1). */
  lemma WordDigits(v: nat)
    ensures Word(v) == [v / 0x100_0000 % 256, v / 0x1_0000 % 256, v / 256 % 256, v % 256]
  {
    LowBytes(v, 4);
    assert ToBE(v / TWO32, 0) == [];
  }

  lemma LowBytes(v: nat, width: nat)
    requires width >= 4
    ensures ToBE(v, width) == ToBE(v / TWO32, width - 4)
                              + [v / 0x100_0000 % 256, v / 0x1_0000 % 256, v / 256 % 256, v % 256]
  {
    assert v / 256 / 256 == v / 0x1_0000 && v / 0x1_0000 / 256 == v / 0x100_0000 && v / 0x100_0000 / 256 == v / TWO32;
    assert ToBE(v, width) == ToBE(v / 256, width - 1) + [v % 256];
    assert ToBE(v / 256, width - 1) == ToBE(v / 0x1_0000, width - 2) + [v / 256 % 256];
    assert ToBE(v / 0x1_0000, width - 2) == ToBE(v / 0x100_0000, width - 3) + [v / 0x1_0000 % 256];
    assert ToBE(v / 0x100_0000, width - 3) == ToBE(v / TWO32, width - 4) + [v / 0x100_0000 % 256];
  }

  lemma LastWord(v: nat, width: nat)
    requires width >= 4
    ensures ToBE(v, width) == ToBE(v / TWO32, width - 4) + Word(v)
  {
    hide ToBE, Word;
    LowBytes(v, width);
    WordDigits(v);
  }

  /** A hyper integer is two words, the high one first (RFC 4506, section 4.5). */
  lemma HyperWords(v: nat)
    ensures Hyper(v) == Word(v / TWO32) + Word(v)
  {
    LastWord(v, 8);
  }

  lemma SmallWord(v: nat)
    requires v < 256
    ensures Word(v) == [0, 0, 0, v]
  {
    WordDigits(v);
  }

  // ---------------------------------------------------------- wide integers

  lemma {:induction false} FromBEConcat(a: bytes, b: bytes)
    ensures FromBE(a + b) == FromBE(a) * Pow256(|b|) + FromBE(b)
  {
    if b == [] {
      assert a + b == a;
    } else {
      var front, last := b[..|b| - 1], b[|b| - 1];
      FromBEConcat(a, front);
      assert (a + b)[..|a + b| - 1] == a + front;
      OneMoreDigit(FromBE(a), Pow256(|front|), FromBE(front), last);
      hide FromBE;
    }
  }

  lemma OneMoreDigit(a: nat, p: nat, b: nat, last: nat)
    ensures 256 * (a * p + b) + last == a * (256 * p) + (256 * b + last)
  {
  }

  lemma HyperValue(v: nat)
    requires v < TWO64
    ensures FromBE(Hyper(v)) == v
  {
    WordSizes();
    FromToBE(v, 8);
  }

  lemma TwoHypers(hi: nat, lo: nat)
    requires hi < TWO64 && lo < TWO64
    ensures FromBE(Hyper(hi) + Hyper(lo)) == hi * TWO64 + lo
  {
    hide Hyper, FromBE;
    WordSizes();
    FromBEConcat(Hyper(hi), Hyper(lo));
    HyperValue(hi);
    HyperValue(lo);
  }

  /** A 128-bit integer is 16 bytes, read as one number; a negative one in two's complement. */
  lemma Wide128(x: int)
    requires -(TWO128 / 2) <= x < TWO128
    ensures x >= 0 ==> |EncodeU128(x)| == 16 && FromBE(EncodeU128(x)) == x
    ensures x < TWO128 / 2 ==>
              |EncodeI128(x)| == 16 && FromBE(EncodeI128(x)) == if x < 0 then x + TWO128 else x
  {
    hide Hyper, FromBE;
    if x >= 0 {
      TwoHypers(x / TWO64, x % TWO64);
    }
    if x < TWO128 / 2 {
      TwoHypers(Unsigned(x / TWO64, TWO64), x % TWO64);
    }
  }

  lemma FourHypers(a: nat, b: nat, c: nat, d: nat)
    requires a < TWO64 && b < TWO64 && c < TWO64 && d < TWO64
    ensures FromBE(Hyper(a) + (Hyper(b) + Hyper(c) + Hyper(d))) == a * TWO192 + b * TWO128 + c * TWO64 + d
  {
    hide Hyper, FromBE;
    WordSizes();
    TwoHypers(a, b);
    FromBEConcat(Hyper(a) + Hyper(b), Hyper(c));
    FromBEConcat(Hyper(a) + Hyper(b) + Hyper(c), Hyper(d));
    HyperValue(c);
    HyperValue(d);
    assert Hyper(a) + (Hyper(b) + Hyper(c) + Hyper(d)) == Hyper(a) + Hyper(b) + Hyper(c) + Hyper(d);
  }

  /** A 256-bit integer is 32 bytes, read as one number; a negative one in two's complement. */
  lemma Wide256(x: int)
    requires -(TWO256 / 2) <= x < TWO256
    ensures x >= 0 ==> |EncodeU256(x)| == 32 && FromBE(EncodeU256(x)) == x
    ensures x < TWO256 / 2 ==>
              |EncodeI256(x)| == 32 && FromBE(EncodeI256(x)) == if x < 0 then x + TWO256 else x
  {
    hide Hyper, FromBE;
    var b, c, d := x / TWO128 % TWO64, x / TWO64 % TWO64, x % TWO64;
    ScValScalars.LimbSum(x);
    if x >= 0 {
      FourHypers(x / TWO192, b, c, d);
    }
    if x < TWO256 / 2 {
      FourHypers(Unsigned(x / TWO192, TWO64), b, c, d);
    }
  }

  // ------------------------------------------------------------ discriminants

  /** The kinds in the order of their discriminants. */
  const KINDS: seq<string> := [
    "bool", "void", "error", "u32", "i32", "u64", "i64", "timepoint", "duration", "u128", "i128", "u256", "i256",
    "bytes", "string", "symbol", "vec", "map", "address", "contract-instance", "ledger-key-contract-instance",
    "ledger-key-nonce", "executable-tag" ]

  function Kind(v: Value): string {
    match v
    case Bool(_) => "bool"
    case Void => "void"
    case Error(_) => "error"
    case U32(_) => "u32"
    case I32(_) => "i32"
    case U64(_) => "u64"
    case I64(_) => "i64"
    case Timepoint(_) => "timepoint"
    case Duration(_) => "duration"
    case U128(_) => "u128"
    case I128(_) => "i128"
    case U256(_) => "u256"
    case I256(_) => "i256"
    case Blob(_) => "bytes"
    case Text(_) => "string"
    case Symbol(_) => "symbol"
    case Vec(_) => "vec"
    case AbsentVec => "vec"
    case Map(_) => "map"
    case AbsentMap => "map"
    case AddressVal(_) => "address"
    case ContractInstance(_, _) => "contract-instance"
    case LedgerKeyContractInstance => "ledger-key-contract-instance"
    case LedgerKeyNonce(_, _) => "ledger-key-nonce"
    case ExecutableTag(_) => "executable-tag"
  }

  lemma KindOfCode(v: Value)
    ensures KINDS[Code(v)] == Kind(v)
  {
  }

  /** Every encoding begins with the position of its kind in the list. */
  lemma Discriminants(v: Value)
    requires Encodable(v)
    ensures |Encode(v)| >= 4
    ensures Encode(v)[..3] == [0, 0, 0] && Encode(v)[3] < |KINDS| && KINDS[Encode(v)[3]] == Kind(v)
  {
    hide Word, EncodeScalar, EncodeItems, EncodeEntries, Kind;
    SmallWord(Code(v));
    KindOfCode(v);
    FirstWord(v);
    hide Encode, Code;
    assert Encode(v)[..4] == [0, 0, 0, Code(v)];
  }

  lemma FirstWord(v: Value)
    requires Encodable(v)
    ensures Word(Code(v)) <= Encode(v)
  {
    hide Word, EncodeScalar, EncodeItems, EncodeEntries;
  }

  const ERROR_TYPES: seq<ErrorType> := [
    TypeError, ValueError, AccessError, BudgetError, ContextError, ContractError, WasmVmError, StorageError,
    CryptoError ]

  /** The error types are numbered from 1 in this order, and are followed by their code. */
  lemma ErrorNumbers(k: nat, code: nat)
    requires 1 <= k <= |ERROR_TYPES| && code < TWO32
    ensures Encode(Error(ErrorCode(ERROR_TYPES[k - 1], code))) == [0, 0, 0, 2, 0, 0, 0, k] + Word(code)
  {
    hide Word;
    SmallWord(2);
    SmallWord(k);
    assert ErrorTypeCode(ERROR_TYPES[k - 1]) == k;
  }

  // ------------------------------------------------------------------ layouts

  /** Variable-length opaque data (RFC 4506, section 4.10): length, bytes, fewer than four zeros up to a whole word. */
  lemma OpaqueLayout(payload: bytes) returns (zeros: bytes)
    requires |payload| < TWO32
    ensures Encode(Blob(payload)) == [0, 0, 0, 13] + Word(|payload|) + payload + zeros
    ensures ValidUtf8(payload) ==> Encode(Text(payload)) == [0, 0, 0, 14] + Word(|payload|) + payload + zeros
    ensures ValidUtf8(payload) && |payload| <= 32 ==>
              Encode(Symbol(payload)) == [0, 0, 0, 15] + Word(|payload|) + payload + zeros
    ensures Encodable(Symbol(payload)) <==> ValidUtf8(payload) && |payload| <= 32
    ensures |zeros| < 4 && (|payload| + |zeros|) % 4 == 0 && forall i | 0 <= i < |zeros| :: zeros[i] == 0
  {
    hide Word, ValidUtf8;
    SmallWord(13);
    SmallWord(14);
    SmallWord(15);
    zeros := Zeros(Pad(|payload|));
    Behind([0, 0, 0, 13], Word(|payload|), payload, zeros);
    Behind([0, 0, 0, 14], Word(|payload|), payload, zeros);
    Behind([0, 0, 0, 15], Word(|payload|), payload, zeros);
  }

  lemma Behind(head: bytes, a: bytes, b: bytes, c: bytes)
    ensures head + (a + b + c) == head + a + b + c
  {
  }

  /** A vec or map is optional data (RFC 4506, section 4.19): a flag, then a count and that many elements in order. */
  lemma ContainerLayout(items: seq<Value>, entries: seq<Entry>)
    requires Encodable(Vec(items)) && Encodable(Map(entries))
    ensures Encode(AbsentVec) == [0, 0, 0, 16, 0, 0, 0, 0] && Encode(AbsentMap) == [0, 0, 0, 17, 0, 0, 0, 0]
    ensures Encode(Vec(items)) == [0, 0, 0, 16, 0, 0, 0, 1] + Word(|items|) + EncodeItems(items)
    ensures Encode(Map(entries)) == [0, 0, 0, 17, 0, 0, 0, 1] + Word(|entries|) + EncodeEntries(entries)
  {
    hide Word, EncodeItems, EncodeEntries;
    SmallWord(0);
    SmallWord(1);
    SmallWord(16);
    SmallWord(17);
    var n, m := Word(|items|), Word(|entries|);
    hide Encodable, ScalarOk;
    assert Word(16) + Word(1) == [0, 0, 0, 16, 0, 0, 0, 1] && Word(17) + Word(1) == [0, 0, 0, 17, 0, 0, 0, 1];
  }

  /** The arms of an address. */
  lemma AddressLayout(key: bytes, id: nat)
    requires |key| == 32 && id < TWO64
    ensures EncodeAddress(Account(key)) == [0, 0, 0, 0, 0, 0, 0, 0] + key
    ensures EncodeAddress(Contract(key)) == [0, 0, 0, 1] + key
    ensures EncodeAddress(MuxedContract(id, key)) == [0, 0, 0, 5] + Hyper(id) + key
  {
    hide Word;
    SmallWord(0);
    SmallWord(1);
    SmallWord(5);
  }

  /** The arms of an executable, and an instance with and without its storage. */
  lemma ExecutableLayout(hash: bytes, owner: Address, tag: bytes, x: Executable, storage: Executable)
    requires |hash| == 32 && ExecutableOk(ExternalRef(owner, tag)) && ExecutableOk(x) && ExecutableOk(storage)
    ensures EncodeExecutable(Wasm(hash)) == [0, 0, 0, 0] + hash && EncodeExecutable(StellarAsset) == [0, 0, 0, 1]
    ensures EncodeExecutable(ExternalRef(owner, tag)) == [0, 0, 0, 2] + EncodeAddress(owner) + EncodeOpaque(tag)
    ensures EncodeInstance(x, None) == EncodeExecutable(x) + [0, 0, 0, 0]
    ensures EncodeInstance(x, Some(storage)) == EncodeExecutable(x) + [0, 0, 0, 1] + EncodeExecutable(storage)
  {
    hide Word, EncodeAddress, EncodeOpaque, ExecutableOk;
    SmallWord(0);
    SmallWord(1);
    SmallWord(2);
    Assoc(EncodeExecutable(x), [0, 0, 0, 1], EncodeExecutable(storage));
  }

  // ------------------------------------------------------------------ vectors

  /** A text with a two-byte code point, with the bytes the parity vectors give for it. */
  lemma TextVector()
    ensures var v := Text([0x68, 0xC3, 0xA9, 0x6C, 0x6C, 0x6F]);
            && Encodable(v)
            && Encode(v) == [0, 0, 0, 14, 0, 0, 0, 6, 0x68, 0xC3, 0xA9, 0x6C, 0x6C, 0x6F, 0, 0]
            && DecodeAll(Encode(v), None) == Some(v)
  {
    hide Word, ValidUtf8, Encode, DecodeAll, EncodePoints;
    TextPoints();
    var t: bytes := [0x68, 0xC3, 0xA9, 0x6C, 0x6C, 0x6F];
    SmallWord(6);
    var zeros := OpaqueLayout(t);
    assert zeros == [0, 0];
    assert Encode(Text(t)) == [0, 0, 0, 14, 0, 0, 0, 6] + t + [0, 0];
    RoundTrip(Text(t), [], 0);
  }

  lemma TextPoints()
    ensures ValidUtf8([0x68, 0xC3, 0xA9, 0x6C, 0x6C, 0x6F])
  {
    var points: seq<nat> := [0x68, 0xE9, 0x6C, 0x6C, 0x6F];
    assert EncodePoints(points[4..]) == [0x6F];
    assert EncodePoints(points[3..]) == [0x6C, 0x6F] by {
      assert points[3..][1..] == points[4..];
    }
    assert EncodePoints(points[2..]) == [0x6C, 0x6C, 0x6F] by {
      assert points[2..][1..] == points[3..];
    }
    assert EncodePoints(points[1..]) == [0xC3, 0xA9, 0x6C, 0x6C, 0x6F] by {
      assert points[1..][1..] == points[2..];
    }
    EncodedIsValid(points);
  }
}
