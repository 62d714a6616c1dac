/**
 The encoder as the program runs it: a buffer that is only appended to, proved to produce the
 canonical encoding of every encodable value and to fail on every other value.
 */
module ScValWriter {
  import opened Bytes
  import opened ScVal

  class Writer {
    var buf: bytes

    constructor ()
      ensures buf == []
    {
      buf := [];
    }

    // `int.to_bytes` raises on a value that does not fit; only a length can be that large.

    method PutU32(value: nat)
      requires value < TWO32
      modifies this
      ensures buf == old(buf) + Word(value)
    {
      buf := buf + Word(value);
    }

    method PutU64(value: nat)
      requires value < TWO64
      modifies this
      ensures buf == old(buf) + Hyper(value)
    {
      buf := buf + Hyper(value);
    }

    method PutI64(value: int)
      requires FitsSigned(value, TWO64)
      modifies this
      ensures buf == old(buf) + Hyper(Unsigned(value, TWO64))
    {
      buf := buf + Hyper(Unsigned(value, TWO64));
    }

    method Fixed(payload: bytes)
      modifies this
      ensures buf == old(buf) + payload
    {
      buf := buf + payload;
    }

    method OpaqueVar(payload: bytes) returns (r: Option<()>)
      modifies this
      ensures r.Some? <==> |payload| < TWO32
      ensures r.Some? ==> buf == old(buf) + EncodeOpaque(payload)
    {
      if |payload| >= TWO32 {
        return None;
      }
      PutU32(|payload|);
      buf := buf + payload;
      buf := buf + Zeros(Pad(|payload|));
      assert buf == old(buf) + EncodeOpaque(payload);
      return Some(());
    }

    method PutU128(value: int) returns (r: Option<()>)
      modifies this
      ensures r.Some? <==> Fits(value, TWO128)
      ensures r.Some? ==> buf == old(buf) + EncodeU128(value)
    {
      if !Fits(value, TWO128) {
        return None;
      }
      PutU64(value / TWO64);
      PutU64(value % TWO64);
      assert buf == old(buf) + EncodeU128(value);
      return Some(());
    }

    method PutI128(value: int) returns (r: Option<()>)
      modifies this
      ensures r.Some? <==> FitsSigned(value, TWO128)
      ensures r.Some? ==> buf == old(buf) + EncodeI128(value)
    {
      if !FitsSigned(value, TWO128) {
        return None;
      }
      PutI64(value / TWO64);
      PutU64(value % TWO64);
      assert buf == old(buf) + EncodeI128(value);
      return Some(());
    }

    method PutLimbs(value: int)
      modifies this
      ensures buf == old(buf) + Limbs(value)
    {
      hide Hyper;
      PutU64(value / TWO128 % TWO64);
      PutU64(value / TWO64 % TWO64);
      PutU64(value % TWO64);
      assert buf == old(buf) + Limbs(value);
    }

    method PutU256(value: int) returns (r: Option<()>)
      modifies this
      ensures r.Some? <==> Fits(value, TWO256)
      ensures r.Some? ==> buf == old(buf) + EncodeU256(value)
    {
      hide Hyper, Limbs;
      if !Fits(value, TWO256) {
        return None;
      }
      PutU64(value / TWO192 % TWO64);
      PutLimbs(value);
      assert buf == old(buf) + EncodeU256(value);
      return Some(());
    }

    method PutI256(value: int) returns (r: Option<()>)
      modifies this
      ensures r.Some? <==> FitsSigned(value, TWO256)
      ensures r.Some? ==> buf == old(buf) + EncodeI256(value)
    {
      hide Hyper, Limbs;
      if !FitsSigned(value, TWO256) {
        return None;
      }
      PutI64(value / TWO192);
      PutLimbs(value);
      assert buf == old(buf) + EncodeI256(value);
      return Some(());
    }

    method PutAddress(a: Address) returns (r: Option<()>)
      modifies this
      ensures r.Some? <==> AddressOk(a)
      ensures r.Some? ==> buf == old(buf) + EncodeAddress(a)
    {
      hide Word, Hyper;
      match a {
        case Account(key) =>
          if |key| != 32 {
            return None;
          }
          PutU32(0);
          PutU32(0);
          Fixed(key);
        case Contract(id) =>
          if |id| != 32 {
            return None;
          }
          PutU32(1);
          Fixed(id);
        case MuxedContract(id, contractId) =>
          if !Fits(id, TWO64) || |contractId| != 32 {
            return None;
          }
          PutU32(5);
          PutU64(id);
          Fixed(contractId);
      }
      assert buf == old(buf) + EncodeAddress(a);
      return Some(());
    }

    method PutError(e: ScError) returns (r: Option<()>)
      modifies this
      ensures r.Some? <==> ErrorOkay(e)
      ensures r.Some? ==> buf == old(buf) + EncodeError(e)
    {
      hide Word;
      match e {
        case ErrorOk =>
          PutU32(0);
        case ErrorCode(t, code) =>
          PutU32(ErrorTypeCode(t));
          if !Fits(code, TWO32) {
            return None;
          }
          PutU32(code);
      }
      assert buf == old(buf) + EncodeError(e);
      return Some(());
    }

    method PutExecutable(x: Executable) returns (r: Option<()>)
      modifies this
      ensures r.Some? <==> ExecutableOk(x)
      ensures r.Some? ==> buf == old(buf) + EncodeExecutable(x)
    {
      hide Word, EncodeAddress, EncodeOpaque, ValidUtf8, AddressOk;
      match x {
        case Wasm(hash) =>
          if |hash| != 32 {
            return None;
          }
          PutU32(0);
          Fixed(hash);
        case StellarAsset =>
          PutU32(1);
        case ExternalRef(owner, tag) =>
          PutU32(2);
          var _ :- PutAddress(owner);
          if !ValidUtf8(tag) {
            return None;
          }
          var _ :- OpaqueVar(tag);
      }
      assert buf == old(buf) + EncodeExecutable(x);
      return Some(());
    }

    method PutInstance(x: Executable, storage: Option<Executable>) returns (r: Option<()>)
      modifies this
      ensures r.Some? <==> ScalarOk(ContractInstance(x, storage))
      ensures r.Some? ==> buf == old(buf) + EncodeInstance(x, storage)
    {
      hide Word, ExecutableOk, EncodeExecutable;
      var _ :- PutExecutable(x);
      if storage.None? {
        PutU32(0);
      } else {
        PutU32(1);
        var _ :- PutExecutable(storage.value);
      }
      assert buf == old(buf) + EncodeInstance(x, storage);
      return Some(());
    }

    method PutNonceKey(a: Address, nonce: int) returns (r: Option<()>)
      modifies this
      ensures r.Some? <==> AddressOk(a) && Fits(nonce, TWO64)
      ensures r.Some? ==> buf == old(buf) + EncodeNonceKey(a, nonce)
    {
      hide Hyper, EncodeAddress, AddressOk;
      var _ :- PutAddress(a);
      if !Fits(nonce, TWO64) {
        return None;
      }
      PutU64(nonce);
      assert buf == old(buf) + EncodeNonceKey(a, nonce);
      return Some(());
    }

    /** The arms without children. */
    method PutScalar(v: Value) returns (r: Option<()>)
      requires !Container(v)
      modifies this
      ensures r.Some? <==> ScalarOk(v)
      ensures r.Some? ==> buf == old(buf) + EncodeScalar(v)
    {
      hide Word, Hyper, EncodeAddress, AddressOk, EncodeExecutable, ExecutableOk, EncodeInstance, EncodeNonceKey,
           EncodeError, ErrorOkay, EncodeOpaque, ValidUtf8, EncodeU128, EncodeI128, EncodeU256, EncodeI256;
      match v {
        case Bool(flag) =>
          PutU32(if flag then 1 else 0);
          r := Some(());
        case Void =>
          assert buf == buf + [];
          r := Some(());
        case Error(e) => r := PutError(e);
        case U32(x) =>
          if !Fits(x, TWO32) {
            return None;
          }
          PutU32(x);
          r := Some(());
        case I32(x) =>
          if !FitsSigned(x, TWO32) {
            return None;
          }
          PutU32(Unsigned(x, TWO32));
          r := Some(());
        case U64(x) =>
          if !Fits(x, TWO64) {
            return None;
          }
          PutU64(x);
          r := Some(());
        case I64(x) =>
          if !FitsSigned(x, TWO64) {
            return None;
          }
          PutI64(x);
          r := Some(());
        case Timepoint(x) =>
          if !Fits(x, TWO64) {
            return None;
          }
          PutU64(x);
          r := Some(());
        case Duration(x) =>
          if !Fits(x, TWO64) {
            return None;
          }
          PutU64(x);
          r := Some(());
        case U128(x) => r := PutU128(x);
        case I128(x) => r := PutI128(x);
        case U256(x) => r := PutU256(x);
        case I256(x) => r := PutI256(x);
        case Blob(b) => r := OpaqueVar(b);
        case Text(t) =>
          if !ValidUtf8(t) {
            return None;
          }
          r := OpaqueVar(t);
        case Symbol(t) =>
          if !ValidUtf8(t) || |t| > SC_SYMBOL_LIMIT {
            return None;
          }
          r := OpaqueVar(t);
        case AddressVal(a) => r := PutAddress(a);
        case ContractInstance(x, storage) => r := PutInstance(x, storage);
        case LedgerKeyContractInstance =>
          assert buf == buf + [];
          r := Some(());
        case LedgerKeyNonce(a, n) => r := PutNonceKey(a, n);
        case ExecutableTag(x) => r := PutExecutable(x);
      }
    }
  }

  /** `encode`: the canonical bytes of every encodable value, and a failure for any other. */
  method EncodeValue(v: Value) returns (r: Option<bytes>)
    ensures r == if Encodable(v) then Some(Encode(v)) else None
    decreases v, 1
  {
    hide Word, EncodeScalar, ScalarOk;
    var w := new Writer();
    w.PutU32(Code(v));
    if v.Vec? {
      w.PutU32(1);
      var body :- EncodeVecBody(v.items);
      w.Fixed(body);
    } else if v.Map? {
      w.PutU32(1);
      var body :- EncodeMapBody(v.entries);
      w.Fixed(body);
    } else if v.AbsentVec? || v.AbsentMap? {
      w.PutU32(0);
    } else {
      var _ :- w.PutScalar(v);
    }
    assert w.buf == Encode(v);
    return Some(w.buf);
  }

  method EncodeVecBody(items: seq<Value>) returns (r: Option<bytes>)
    ensures r.Some? <==> |items| < TWO32 && forall x | x in items :: Encodable(x)
    ensures r.Some? ==> r.value == Word(|items|) + EncodeItems(items)
    decreases items, 0
  {
    hide Word, Encode, Encodable;
    var w := new Writer();
    if |items| >= TWO32 {
      return None;
    }
    w.PutU32(|items|);
    for i := 0 to |items|
      invariant forall x | x in items[..i] :: Encodable(x)
      invariant w.buf == Word(|items|) + EncodeItems(items[..i])
    {
      var item :- EncodeValue(items[i]);
      w.Fixed(item);
      assert items[..i + 1] == items[..i] + [items[i]];
      EncodeItemsSnoc(items[..i], items[i]);
    }
    assert items[..|items|] == items;
    return Some(w.buf);
  }

  method EncodeMapBody(entries: seq<Entry>) returns (r: Option<bytes>)
    ensures r.Some? <==> |entries| < TWO32 && forall e | e in entries :: Encodable(e.key) && Encodable(e.val)
    ensures r.Some? ==> r.value == Word(|entries|) + EncodeEntries(entries)
    decreases entries, 0
  {
    hide Word, Encode, Encodable;
    var w := new Writer();
    if |entries| >= TWO32 {
      return None;
    }
    w.PutU32(|entries|);
    for i := 0 to |entries|
      invariant forall e | e in entries[..i] :: Encodable(e.key) && Encodable(e.val)
      invariant w.buf == Word(|entries|) + EncodeEntries(entries[..i])
    {
      var entry := entries[i];
      var pair :- EncodePair(entry);
      w.Fixed(pair);
      assert entries[..i + 1] == entries[..i] + [entry];
      EncodeEntriesSnoc(entries[..i], entry);
    }
    assert entries[..|entries|] == entries;
    return Some(w.buf);
  }

  method EncodePair(entry: Entry) returns (r: Option<bytes>)
    ensures r.Some? <==> Encodable(entry.key) && Encodable(entry.val)
    ensures r.Some? ==> r.value == EncodeEntry(entry)
    decreases entry
  {
    var key :- EncodeValue(entry.key);
    var val :- EncodeValue(entry.val);
    return Some(key + val);
  }

  lemma {:induction false} EncodeItemsSnoc(items: seq<Value>, v: Value)
    requires (forall x | x in items :: Encodable(x)) && Encodable(v)
    ensures forall x | x in items + [v] :: Encodable(x)
    ensures EncodeItems(items + [v]) == EncodeItems(items) + Encode(v)
  {
    hide Encode, Encodable;
    if items == [] {
      assert [v] == [] + [v] && [v][1..] == [];
    } else {
      EncodeItemsSnoc(items[1..], v);
      assert (items + [v])[1..] == items[1..] + [v];
    }
  }

  lemma {:induction false} EncodeEntriesSnoc(entries: seq<Entry>, last: Entry)
    requires (forall e | e in entries :: Encodable(e.key) && Encodable(e.val))
    requires Encodable(last.key) && Encodable(last.val)
    ensures forall e | e in entries + [last] :: Encodable(e.key) && Encodable(e.val)
    ensures EncodeEntries(entries + [last]) == EncodeEntries(entries) + EncodeEntry(last)
  {
    hide Encode, Encodable;
    if entries == [] {
      assert [last] == [] + [last] && [last][1..] == [];
    } else {
      EncodeEntriesSnoc(entries[1..], last);
      assert (entries + [last])[1..] == entries[1..] + [last];
    }
  }
}
