/**
 The ScVal union and its XDR wire format as specification functions: which values can be
 encoded, their canonical bytes, and what the decoder reads from the front of a byte string.
 */
module ScVal {
  import opened Bytes

  const SC_SYMBOL_LIMIT: nat := 32

  // ------------------------------------------------------------------ values

  datatype Address =
    | Account(ed25519: bytes)
    | Contract(contractId: bytes)
    | MuxedContract(id: int, muxedContractId: bytes)

  datatype ErrorType =
    | TypeError | ValueError | AccessError | BudgetError | ContextError
    | ContractError | WasmVmError | StorageError | CryptoError

  datatype ScError = ErrorOk | ErrorCode(errorType: ErrorType, code: int)

  datatype Executable =
    | Wasm(wasmHash: bytes)
    | StellarAsset
    | ExternalRef(owner: Address, tag: bytes)

  datatype Entry = Entry(key: Value, val: Value)

  /** The 23 arms. Text payloads are kept as the UTF-8 bytes they are encoded from. */
  datatype Value =
    | Bool(flag: bool)
    | Void
    | Error(error: ScError)
    | U32(u32: int)
    | I32(i32: int)
    | U64(u64: int)
    | I64(i64: int)
    | Timepoint(seconds: int)
    | Duration(span: int)
    | U128(u128: int)
    | I128(i128: int)
    | U256(u256: int)
    | I256(i256: int)
    | Blob(blob: bytes)
    | Text(text: bytes)
    | Symbol(symbol: bytes)
    | Vec(items: seq<Value>)
    | AbsentVec
    | Map(entries: seq<Entry>)
    | AbsentMap
    | AddressVal(address: Address)
    | ContractInstance(executable: Executable, storage: Option<Executable>)
    | LedgerKeyContractInstance
    | LedgerKeyNonce(owner: Address, nonce: int)
    | ExecutableTag(tagged: Executable)

  const TWO128: nat := TWO64 * TWO64
  const TWO192: nat := TWO128 * TWO64
  const TWO256: nat := TWO128 * TWO128

  predicate Fits(v: int, modulus: nat) {
    0 <= v < modulus
  }

  predicate FitsSigned(v: int, modulus: nat) {
    -(modulus / 2) <= v < modulus / 2
  }

  // -------------------------------------------------------------- UTF-8 text

  predicate Continuation(b: byte) {
    0x80 <= b <= 0xBF
  }

  /** The length of the well-formed UTF-8 sequence at the front of `s`, or 0 when there is none. */
  function SequenceLength(s: bytes): (n: nat)
    ensures n <= |s|
  {
    if |s| >= 1 && s[0] <= 0x7F then 1
    else if |s| >= 2 && 0xC2 <= s[0] <= 0xDF && Continuation(s[1]) then 2
    else if |s| >= 3 && Continuation(s[2])
            && ((s[0] == 0xE0 && 0xA0 <= s[1] <= 0xBF)
                || (0xE1 <= s[0] <= 0xEF && s[0] != 0xED && Continuation(s[1]))
                || (s[0] == 0xED && 0x80 <= s[1] <= 0x9F)) then 3
    else if |s| >= 4 && Continuation(s[2]) && Continuation(s[3])
            && ((s[0] == 0xF0 && 0x90 <= s[1] <= 0xBF)
                || (0xF1 <= s[0] <= 0xF3 && Continuation(s[1]))
                || (s[0] == 0xF4 && 0x80 <= s[1] <= 0x8F)) then 4
    else 0
  }

  predicate ValidUtf8(s: bytes) {
    s == [] || (SequenceLength(s) > 0 && ValidUtf8(s[SequenceLength(s)..]))
  }

  // ---------------------------------------------------------------- encoding

  function Word(v: nat): (w: bytes)
    ensures |w| == 4
  {
    ToBE(v, 4)
  }

  function Hyper(v: nat): (h: bytes)
    ensures |h| == 8
  {
    ToBE(v, 8)
  }

  function Unsigned(v: int, modulus: nat): nat
    requires 0 <= v + modulus
  {
    if v < 0 then v + modulus else v
  }

  function Pad(n: nat): nat {
    (4 - n % 4) % 4
  }

  function Zeros(n: nat): (z: bytes)
    ensures |z| == n
  {
    seq(n, _ => 0)
  }

  function EncodeOpaque(payload: bytes): (r: bytes)
    ensures |r| % 4 == 0
  {
    Word(|payload|) + payload + Zeros(Pad(|payload|))
  }

  predicate AddressOk(a: Address) {
    match a
    case Account(key) => |key| == 32
    case Contract(id) => |id| == 32
    case MuxedContract(id, contractId) => Fits(id, TWO64) && |contractId| == 32
  }

  function EncodeAddress(a: Address): (r: bytes)
    requires AddressOk(a)
    ensures |r| % 4 == 0
  {
    match a
    case Account(key) => Word(0) + Word(0) + key
    case Contract(id) => Word(1) + id
    case MuxedContract(id, contractId) => Word(5) + Hyper(id) + contractId
  }

  function ErrorTypeCode(t: ErrorType): nat {
    match t
    case TypeError => 1
    case ValueError => 2
    case AccessError => 3
    case BudgetError => 4
    case ContextError => 5
    case ContractError => 6
    case WasmVmError => 7
    case StorageError => 8
    case CryptoError => 9
  }

  predicate ErrorOkay(e: ScError) {
    e.ErrorCode? ==> Fits(e.code, TWO32)
  }

  function EncodeError(e: ScError): (r: bytes)
    requires ErrorOkay(e)
    ensures |r| % 4 == 0
  {
    match e
    case ErrorOk => Word(0)
    case ErrorCode(t, code) => Word(ErrorTypeCode(t)) + Word(code)
  }

  predicate ExecutableOk(x: Executable) {
    match x
    case Wasm(hash) => |hash| == 32
    case StellarAsset => true
    case ExternalRef(owner, tag) => AddressOk(owner) && ValidUtf8(tag) && |tag| < TWO32
  }

  function EncodeExecutable(x: Executable): (r: bytes)
    requires ExecutableOk(x)
    ensures |r| % 4 == 0
  {
    match x
    case Wasm(hash) => Word(0) + hash
    case StellarAsset => Word(1)
    case ExternalRef(owner, tag) => Word(2) + EncodeAddress(owner) + EncodeOpaque(tag)
  }

  function EncodeStorage(x: Option<Executable>): (r: bytes)
    requires x.Some? ==> ExecutableOk(x.value)
    ensures |r| % 4 == 0
  {
    if x.None? then Word(0) else Word(1) + EncodeExecutable(x.value)
  }

  /** The discriminant of a value's arm. */
  function Code(v: Value): (c: nat)
    ensures c < 23
  {
    match v
    case Bool(_) => 0
    case Void => 1
    case Error(_) => 2
    case U32(_) => 3
    case I32(_) => 4
    case U64(_) => 5
    case I64(_) => 6
    case Timepoint(_) => 7
    case Duration(_) => 8
    case U128(_) => 9
    case I128(_) => 10
    case U256(_) => 11
    case I256(_) => 12
    case Blob(_) => 13
    case Text(_) => 14
    case Symbol(_) => 15
    case Vec(_) => 16
    case AbsentVec => 16
    case Map(_) => 17
    case AbsentMap => 17
    case AddressVal(_) => 18
    case ContractInstance(_, _) => 19
    case LedgerKeyContractInstance => 20
    case LedgerKeyNonce(_, _) => 21
    case ExecutableTag(_) => 22
  }

  predicate Container(v: Value) {
    v.Vec? || v.AbsentVec? || v.Map? || v.AbsentMap?
  }

  /** The range and shape checks of every arm without children. */
  predicate ScalarOk(v: Value) {
    match v
    case U32(x) => Fits(x, TWO32)
    case I32(x) => FitsSigned(x, TWO32)
    case U64(x) => Fits(x, TWO64)
    case I64(x) => FitsSigned(x, TWO64)
    case Timepoint(x) => Fits(x, TWO64)
    case Duration(x) => Fits(x, TWO64)
    case U128(x) => Fits(x, TWO128)
    case I128(x) => FitsSigned(x, TWO128)
    case U256(x) => Fits(x, TWO256)
    case I256(x) => FitsSigned(x, TWO256)
    case Error(e) => ErrorOkay(e)
    case Blob(b) => |b| < TWO32
    case Text(t) => ValidUtf8(t) && |t| < TWO32
    case Symbol(t) => ValidUtf8(t) && |t| <= SC_SYMBOL_LIMIT
    case AddressVal(a) => AddressOk(a)
    case ContractInstance(x, s) => ExecutableOk(x) && (s.Some? ==> ExecutableOk(s.value))
    case LedgerKeyNonce(a, n) => AddressOk(a) && Fits(n, TWO64)
    case ExecutableTag(x) => ExecutableOk(x)
    case _ => true
  }

  /** The values `encode` accepts. */
  predicate Encodable(v: Value) {
    if v.Vec? then |v.items| < TWO32 && forall x | x in v.items :: Encodable(x)
    else if v.Map? then
      |v.entries| < TWO32 && forall e | e in v.entries :: Encodable(e.key) && Encodable(e.val)
    else v.AbsentVec? || v.AbsentMap? || ScalarOk(v)
  }

  // Wide integers are written as 64-bit limbs, most significant first; the high limb of a
  // signed one keeps the sign.

  function EncodeU128(x: int): (r: bytes)
    requires Fits(x, TWO128)
    ensures |r| % 4 == 0
  {
    Hyper(x / TWO64) + Hyper(x % TWO64)
  }

  function EncodeI128(x: int): (r: bytes)
    requires FitsSigned(x, TWO128)
    ensures |r| % 4 == 0
  {
    Hyper(Unsigned(x / TWO64, TWO64)) + Hyper(x % TWO64)
  }

  function EncodeU256(x: int): (r: bytes)
    requires Fits(x, TWO256)
    ensures |r| % 4 == 0
  {
    Hyper(x / TWO192) + Limbs(x)
  }

  function EncodeI256(x: int): (r: bytes)
    requires FitsSigned(x, TWO256)
    ensures |r| % 4 == 0
  {
    Hyper(Unsigned(x / TWO192, TWO64)) + Limbs(x)
  }

  /** The three low 64-bit limbs of a 256-bit integer. */
  function Limbs(x: int): (r: bytes)
    ensures |r| % 4 == 0
  {
    Hyper(x / TWO128 % TWO64) + Hyper(x / TWO64 % TWO64) + Hyper(x % TWO64)
  }

  function EncodeInstance(x: Executable, s: Option<Executable>): bytes
    requires ExecutableOk(x) && (s.Some? ==> ExecutableOk(s.value))
  {
    EncodeExecutable(x) + EncodeStorage(s)
  }

  function EncodeNonceKey(a: Address, n: int): (r: bytes)
    requires AddressOk(a) && Fits(n, TWO64)
    ensures |r| % 4 == 0
  {
    EncodeAddress(a) + Hyper(n)
  }

  /** What follows the discriminant in an arm without children. */
  function EncodeScalar(v: Value): bytes
    requires ScalarOk(v) && !Container(v)
  {
    match v
    case Bool(b) => Word(if b then 1 else 0)
    case Void => []
    case Error(e) => EncodeError(e)
    case U32(x) => Word(x)
    case I32(x) => Word(Unsigned(x, TWO32))
    case U64(x) => Hyper(x)
    case I64(x) => Hyper(Unsigned(x, TWO64))
    case Timepoint(x) => Hyper(x)
    case Duration(x) => Hyper(x)
    case U128(x) => EncodeU128(x)
    case I128(x) => EncodeI128(x)
    case U256(x) => EncodeU256(x)
    case I256(x) => EncodeI256(x)
    case Blob(b) => EncodeOpaque(b)
    case Text(t) => EncodeOpaque(t)
    case Symbol(t) => EncodeOpaque(t)
    case AddressVal(a) => EncodeAddress(a)
    case ContractInstance(x, s) => EncodeInstance(x, s)
    case LedgerKeyContractInstance => []
    case LedgerKeyNonce(a, n) => EncodeNonceKey(a, n)
    case ExecutableTag(x) => EncodeExecutable(x)
  }

  /** The canonical encoding. */
  function Encode(v: Value): bytes
    requires Encodable(v)
    decreases v
  {
    if v.Vec? then Word(16) + Word(1) + Word(|v.items|) + EncodeItems(v.items)
    else if v.AbsentVec? then Word(16) + Word(0)
    else if v.Map? then Word(17) + Word(1) + Word(|v.entries|) + EncodeEntries(v.entries)
    else if v.AbsentMap? then Word(17) + Word(0)
    else Word(Code(v)) + EncodeScalar(v)
  }

  function EncodeItems(items: seq<Value>): bytes
    requires forall x | x in items :: Encodable(x)
    decreases items
  {
    if items == [] then [] else Encode(items[0]) + EncodeItems(items[1..])
  }

  function EncodeEntries(entries: seq<Entry>): bytes
    requires forall e | e in entries :: Encodable(e.key) && Encodable(e.val)
    decreases entries
  {
    if entries == [] then [] else EncodeEntry(entries[0]) + EncodeEntries(entries[1..])
  }

  function EncodeEntry(e: Entry): bytes
    requires Encodable(e.key) && Encodable(e.val)
    decreases e
  {
    Encode(e.key) + Encode(e.val)
  }

  // ---------------------------------------------------------------- decoding

  /** A failed read, or a value together with the bytes that follow it. */
  datatype Parsed<+T> = Fail | Got(value: T, rest: bytes) {
    predicate IsFailure() {
      Fail?
    }

    function PropagateFailure<U>(): Parsed<U>
      requires Fail?
    {
      Fail
    }

    function Extract(): (T, bytes)
      requires Got?
    {
      (value, rest)
    }
  }

  function Take(b: bytes, n: nat): Parsed<bytes> {
    if n > |b| then Fail else Got(b[..n], b[n..])
  }

  function ReadWord(b: bytes): Parsed<nat> {
    var (w, rest) :- Take(b, 4);
    Got(FromBE(w), rest)
  }

  function ReadHyper(b: bytes): Parsed<nat> {
    var (w, rest) :- Take(b, 8);
    Got(FromBE(w), rest)
  }

  function Signed(u: nat, modulus: nat): int {
    if u < modulus / 2 then u else u - modulus
  }

  function ReadSignedHyper(b: bytes): Parsed<int> {
    var (u, rest) :- ReadHyper(b);
    Got(Signed(u, TWO64), rest)
  }

  function ReadOpaque(b: bytes, limit: Option<nat>): (p: Parsed<bytes>)
    ensures p.Got? ==> |p.rest| <= |b|
  {
    var (length, b1) :- ReadWord(b);
    if limit.Some? && length > limit.value then Fail
    else
      var (payload, b2) :- Take(b1, length);
      var (padding, b3) :- Take(b2, Pad(length));
      if padding != Zeros(Pad(length)) then Fail else Got(payload, b3)
  }

  function ReadText(b: bytes, limit: Option<nat>): (p: Parsed<bytes>)
    ensures p.Got? ==> |p.rest| <= |b|
  {
    var (payload, rest) :- ReadOpaque(b, limit);
    if ValidUtf8(payload) then Got(payload, rest) else Fail
  }

  function ReadFlag(b: bytes): Parsed<bool> {
    var (flag, rest) :- ReadWord(b);
    if flag > 1 then Fail else Got(flag == 1, rest)
  }

  function DecodeAddress(b: bytes): (p: Parsed<Address>)
    ensures p.Got? ==> |p.rest| <= |b|
  {
    var (kind, b1) :- ReadWord(b);
    if kind == 0 then
      var (keyType, b2) :- ReadWord(b1);
      if keyType != 0 then Fail
      else
        var (key, b3) :- Take(b2, 32);
        Got(Account(key), b3)
    else if kind == 1 then
      var (id, b2) :- Take(b1, 32);
      Got(Contract(id), b2)
    else if kind == 5 then
      var (id, b2) :- ReadHyper(b1);
      var (contractId, b3) :- Take(b2, 32);
      Got(MuxedContract(id, contractId), b3)
    else Fail
  }

  function ErrorTypeOf(code: nat): (t: Option<ErrorType>)
    ensures t.Some? <==> 1 <= code <= 9
    ensures t.Some? ==> ErrorTypeCode(t.value) == code
  {
    match code
    case 1 => Some(TypeError)
    case 2 => Some(ValueError)
    case 3 => Some(AccessError)
    case 4 => Some(BudgetError)
    case 5 => Some(ContextError)
    case 6 => Some(ContractError)
    case 7 => Some(WasmVmError)
    case 8 => Some(StorageError)
    case 9 => Some(CryptoError)
    case _ => None
  }

  function DecodeError(b: bytes): (p: Parsed<ScError>)
    ensures p.Got? ==> |p.rest| <= |b|
  {
    var (kind, b1) :- ReadWord(b);
    if kind == 0 then Got(ErrorOk, b1)
    else if ErrorTypeOf(kind).None? then Fail
    else
      var (code, b2) :- ReadWord(b1);
      Got(ErrorCode(ErrorTypeOf(kind).value, code), b2)
  }

  function DecodeExecutable(b: bytes): (p: Parsed<Executable>)
    ensures p.Got? ==> |p.rest| <= |b|
  {
    var (kind, b1) :- ReadWord(b);
    if kind == 0 then
      var (hash, b2) :- Take(b1, 32);
      Got(Wasm(hash), b2)
    else if kind == 1 then Got(StellarAsset, b1)
    else if kind == 2 then
      var (owner, b2) :- DecodeAddress(b1);
      var (tag, b3) :- ReadText(b2, None);
      Got(ExternalRef(owner, tag), b3)
    else Fail
  }

  function DecodeStorage(b: bytes): (p: Parsed<Option<Executable>>)
    ensures p.Got? ==> |p.rest| <= |b|
  {
    var (present, b1) :- ReadFlag(b);
    if !present then Got(None, b1)
    else
      var (x, b2) :- DecodeExecutable(b1);
      Got(Some(x), b2)
  }

  function DecodeInstance(b: bytes): (p: Parsed<Value>)
    ensures p.Got? ==> |p.rest| <= |b|
  {
    var (x, b1) :- DecodeExecutable(b);
    var (s, r) :- DecodeStorage(b1);
    Got(ContractInstance(x, s), r)
  }

  function DecodeNonceKey(b: bytes): (p: Parsed<Value>)
    ensures p.Got? ==> |p.rest| <= |b|
  {
    var (a, b1) :- DecodeAddress(b);
    var (n, r) :- ReadHyper(b1);
    Got(LedgerKeyNonce(a, n), r)
  }

  function DecodeU128(b: bytes): (p: Parsed<int>)
    ensures p.Got? ==> |p.rest| <= |b|
  {
    var (hi, b1) :- ReadHyper(b);
    var (lo, r) :- ReadHyper(b1);
    Got(hi * TWO64 + lo, r)
  }

  function DecodeI128(b: bytes): (p: Parsed<int>)
    ensures p.Got? ==> |p.rest| <= |b|
  {
    var (hi, b1) :- ReadSignedHyper(b);
    var (lo, r) :- ReadHyper(b1);
    Got(hi * TWO64 + lo, r)
  }

  function DecodeU256(b: bytes): (p: Parsed<int>)
    ensures p.Got? ==> |p.rest| <= |b|
  {
    var (p0, b1) :- ReadHyper(b);
    var (low, b2) :- DecodeLimbs(b1);
    Got(p0 * TWO192 + low, b2)
  }

  function DecodeI256(b: bytes): (p: Parsed<int>)
    ensures p.Got? ==> |p.rest| <= |b|
  {
    var (p0, b1) :- ReadSignedHyper(b);
    var (low, b2) :- DecodeLimbs(b1);
    Got(p0 * TWO192 + low, b2)
  }

  function DecodeLimbs(b: bytes): (p: Parsed<nat>)
    ensures p.Got? ==> |p.rest| <= |b|
  {
    var (p1, b1) :- ReadHyper(b);
    var (p2, b2) :- ReadHyper(b1);
    var (p3, b3) :- ReadHyper(b2);
    Got(p1 * TWO128 + p2 * TWO64 + p3, b3)
  }

  /** The arms without children, after their discriminant has been read. */
  function DecodeScalar(code: nat, b: bytes): (p: Parsed<Value>)
    ensures p.Got? ==> |p.rest| <= |b|
  {
    match code
    case 0 => var (w, r) :- ReadWord(b); Got(Bool(w == 1), r)
    case 1 => Got(Void, b)
    case 2 => var (e, r) :- DecodeError(b); Got(Error(e), r)
    case 3 => var (w, r) :- ReadWord(b); Got(U32(w), r)
    case 4 => var (w, r) :- ReadWord(b); Got(I32(Signed(w, TWO32)), r)
    case 5 => var (w, r) :- ReadHyper(b); Got(U64(w), r)
    case 6 => var (w, r) :- ReadSignedHyper(b); Got(I64(w), r)
    case 7 => var (w, r) :- ReadHyper(b); Got(Timepoint(w), r)
    case 8 => var (w, r) :- ReadHyper(b); Got(Duration(w), r)
    case 9 => var (x, r) :- DecodeU128(b); Got(U128(x), r)
    case 10 => var (x, r) :- DecodeI128(b); Got(I128(x), r)
    case 11 => var (x, r) :- DecodeU256(b); Got(U256(x), r)
    case 12 => var (x, r) :- DecodeI256(b); Got(I256(x), r)
    case 13 => var (p, r) :- ReadOpaque(b, None); Got(Blob(p), r)
    case 14 => var (p, r) :- ReadText(b, None); Got(Text(p), r)
    case 15 => var (p, r) :- ReadText(b, Some(SC_SYMBOL_LIMIT)); Got(Symbol(p), r)
    case 18 => var (a, r) :- DecodeAddress(b); Got(AddressVal(a), r)
    case 19 => DecodeInstance(b)
    case 20 => Got(LedgerKeyContractInstance, b)
    case 21 => DecodeNonceKey(b)
    case 22 => var (x, r) :- DecodeExecutable(b); Got(ExecutableTag(x), r)
    case _ => Fail
  }

  /** One value from the front of `b`; containers at nesting depth `limit` and beyond are refused. */
  function Decode(b: bytes, depth: nat, limit: Option<nat>): (p: Parsed<Value>)
    ensures p.Got? ==> |p.rest| + 4 <= |b|
    decreases |b|, 0
  {
    var (code, b1) :- ReadWord(b);
    if code == 16 then
      if limit.Some? && depth >= limit.value then Fail
      else
        var (present, b2) :- ReadFlag(b1);
        if !present then Got(AbsentVec, b2)
        else
          var (count, b3) :- ReadWord(b2);
          var (items, rest) :- DecodeItems(b3, count, depth + 1, limit);
          Got(Vec(items), rest)
    else if code == 17 then
      if limit.Some? && depth >= limit.value then Fail
      else
        var (present, b2) :- ReadFlag(b1);
        if !present then Got(AbsentMap, b2)
        else
          var (count, b3) :- ReadWord(b2);
          var (entries, rest) :- DecodeEntries(b3, count, depth + 1, limit);
          Got(Map(entries), rest)
    else DecodeScalar(code, b1)
  }

  function DecodeItems(b: bytes, count: nat, depth: nat, limit: Option<nat>): (p: Parsed<seq<Value>>)
    ensures p.Got? ==> |p.rest| + 4 * count <= |b| && |p.value| == count
    decreases |b|, 1
  {
    if count == 0 then Got([], b)
    else
      var (v, b1) :- Decode(b, depth, limit);
      var (vs, rest) :- DecodeItems(b1, count - 1, depth, limit);
      Got([v] + vs, rest)
  }

  function DecodeEntries(b: bytes, count: nat, depth: nat, limit: Option<nat>): (p: Parsed<seq<Entry>>)
    ensures p.Got? ==> |p.rest| + 8 * count <= |b| && |p.value| == count
    decreases |b|, 1
  {
    if count == 0 then Got([], b)
    else
      var (k, b1) :- Decode(b, depth, limit);
      var (v, b2) :- Decode(b1, depth, limit);
      var (es, rest) :- DecodeEntries(b2, count - 1, depth, limit);
      Got([Entry(k, v)] + es, rest)
  }

  /** `decode`: one value and nothing after it. */
  function DecodeAll(data: bytes, limit: Option<nat>): Option<Value> {
    match Decode(data, 0, limit)
    case Fail => None
    case Got(v, rest) => if rest == [] then Some(v) else None
  }
}
