/**
 The decoder as the program runs it: a cursor that only moves forward, proved against the
 specification functions, with a count of how many times the recursive decoder is entered.
 */
module ScValReader {
  import opened Bytes
  import opened ScVal
  import opened ScValScalars

  /** A cursor's answer agrees with the specification, and so does what it left unread. */
  ghost predicate Mirrors<T>(p: Parsed<T>, r: Option<T>, rest: bytes) {
    match p
    case Fail => r.None?
    case Got(v, tail) => r == Some(v) && rest == tail
  }

  class Reader {
    const data: bytes
    var pos: nat
    ghost var activations: nat

    ghost predicate Valid()
      reads this
    {
      pos <= |data|
    }

    ghost function Rest(): bytes
      requires Valid()
      reads this
    {
      data[pos..]
    }

    constructor (data: bytes)
      ensures this.data == data && pos == 0 && activations == 0 && Valid() && Rest() == data
    {
      this.data := data;
      pos := 0;
      activations := 0;
    }

    method TakeBytes(n: int) returns (r: Option<bytes>)
      requires Valid()
      modifies this`pos
      ensures Valid() && pos >= old(pos)
      ensures if n < 0 then r.None? && pos == old(pos) else Mirrors(Take(old(Rest()), n), r, Rest())
    {
      if n < 0 || n > |data| - pos {
        return None;
      }
      var chunk := data[pos..pos + n];
      pos := pos + n;
      assert chunk == old(Rest())[..n];
      return Some(chunk);
    }

    method NextU32() returns (r: Option<nat>)
      requires Valid()
      modifies this`pos
      ensures Valid() && pos >= old(pos)
      ensures Mirrors(ReadWord(old(Rest())), r, Rest())
      ensures r.Some? ==> pos == old(pos) + 4 && r.value < TWO32
    {
      var chunk :- TakeBytes(4);
      WordExact(old(Rest()));
      return Some(FromBE(chunk));
    }

    method NextU64() returns (r: Option<nat>)
      requires Valid()
      modifies this`pos
      ensures Valid() && pos >= old(pos)
      ensures Mirrors(ReadHyper(old(Rest())), r, Rest())
    {
      var chunk :- TakeBytes(8);
      return Some(FromBE(chunk));
    }

    method NextI64() returns (r: Option<int>)
      requires Valid()
      modifies this`pos
      ensures Valid() && pos >= old(pos)
      ensures Mirrors(ReadSignedHyper(old(Rest())), r, Rest())
    {
      var u :- NextU64();
      return Some(Signed(u, TWO64));
    }

    method OpaqueVar(limit: Option<nat>) returns (r: Option<bytes>)
      requires Valid()
      modifies this`pos
      ensures Valid() && pos >= old(pos)
      ensures Mirrors(ReadOpaque(old(Rest()), limit), r, Rest())
    {
      var length :- NextU32();
      if limit.Some? && length > limit.value {
        return None;
      }
      // A length that is not there is refused before anything is read for it.
      if length > |data| - pos {
        return None;
      }
      var taken := TakeBytes(length);
      var payload := taken.value;
      var pad := Pad(length);
      if pad != 0 {
        var padding :- TakeBytes(pad);
        if padding != Zeros(pad) {
          return None;
        }
      }
      return Some(payload);
    }

    method TextVar(limit: Option<nat>) returns (r: Option<bytes>)
      requires Valid()
      modifies this`pos
      ensures Valid() && pos >= old(pos)
      ensures Mirrors(ReadText(old(Rest()), limit), r, Rest())
    {
      var payload :- OpaqueVar(limit);
      if !ValidUtf8(payload) {
        return None;
      }
      return Some(payload);
    }

    method PresentFlag() returns (r: Option<bool>)
      requires Valid()
      modifies this`pos
      ensures Valid() && pos >= old(pos)
      ensures Mirrors(ReadFlag(old(Rest())), r, Rest())
    {
      var flag :- NextU32();
      if flag == 0 {
        return Some(false);
      }
      if flag == 1 {
        return Some(true);
      }
      return None;
    }

    method NextAddress() returns (r: Option<Address>)
      requires Valid()
      modifies this`pos
      ensures Valid() && pos >= old(pos)
      ensures Mirrors(DecodeAddress(old(Rest())), r, Rest())
    {
      hide ReadWord, ReadHyper, Take;
      var kind :- NextU32();
      if kind == 0 {
        var keyType :- NextU32();
        if keyType != 0 {
          return None;
        }
        var key :- TakeBytes(32);
        return Some(Account(key));
      }
      if kind == 1 {
        var id :- TakeBytes(32);
        return Some(Contract(id));
      }
      if kind == 5 {
        var id :- NextU64();
        var contractId :- TakeBytes(32);
        return Some(MuxedContract(id, contractId));
      }
      return None;
    }

    method NextError() returns (r: Option<ScError>)
      requires Valid()
      modifies this`pos
      ensures Valid() && pos >= old(pos)
      ensures Mirrors(DecodeError(old(Rest())), r, Rest())
    {
      hide ReadWord;
      var kind :- NextU32();
      if kind == 0 {
        return Some(ErrorOk);
      }
      var errorType := ErrorTypeOf(kind);
      if errorType.None? {
        return None;
      }
      var code :- NextU32();
      return Some(ErrorCode(errorType.value, code));
    }

    method NextExecutable() returns (r: Option<Executable>)
      requires Valid()
      modifies this`pos
      ensures Valid() && pos >= old(pos)
      ensures Mirrors(DecodeExecutable(old(Rest())), r, Rest())
    {
      hide ReadWord, ReadText, DecodeAddress, Take;
      var kind :- NextU32();
      if kind == 0 {
        var hash :- TakeBytes(32);
        return Some(Wasm(hash));
      }
      if kind == 1 {
        return Some(StellarAsset);
      }
      if kind == 2 {
        var owner :- NextAddress();
        var tag :- TextVar(None);
        return Some(ExternalRef(owner, tag));
      }
      return None;
    }

    method NextInstance() returns (r: Option<Value>)
      requires Valid()
      modifies this`pos
      ensures Valid() && pos >= old(pos)
      ensures Mirrors(DecodeInstance(old(Rest())), r, Rest())
    {
      hide ReadFlag, DecodeExecutable;
      var executable :- NextExecutable();
      var present :- PresentFlag();
      if !present {
        return Some(ContractInstance(executable, None));
      }
      var storage :- NextExecutable();
      return Some(ContractInstance(executable, Some(storage)));
    }

    method NextNonceKey() returns (r: Option<Value>)
      requires Valid()
      modifies this`pos
      ensures Valid() && pos >= old(pos)
      ensures Mirrors(DecodeNonceKey(old(Rest())), r, Rest())
    {
      hide ReadHyper, DecodeAddress;
      var address :- NextAddress();
      var nonce :- NextU64();
      return Some(LedgerKeyNonce(address, nonce));
    }

    method NextU128() returns (r: Option<int>)
      requires Valid()
      modifies this`pos
      ensures Valid() && pos >= old(pos)
      ensures Mirrors(DecodeU128(old(Rest())), r, Rest())
    {
      hide ReadHyper;
      var hi :- NextU64();
      var lo :- NextU64();
      return Some(hi * TWO64 + lo);
    }

    method NextI128() returns (r: Option<int>)
      requires Valid()
      modifies this`pos
      ensures Valid() && pos >= old(pos)
      ensures Mirrors(DecodeI128(old(Rest())), r, Rest())
    {
      hide ReadHyper, ReadSignedHyper;
      var hi :- NextI64();
      var lo :- NextU64();
      return Some(hi * TWO64 + lo);
    }

    method NextU256() returns (r: Option<int>)
      requires Valid()
      modifies this`pos
      ensures Valid() && pos >= old(pos)
      ensures Mirrors(DecodeU256(old(Rest())), r, Rest())
    {
      hide ReadHyper;
      var p0 :- NextU64();
      var p1 :- NextU64();
      var p2 :- NextU64();
      var p3 :- NextU64();
      return Some(((p0 * TWO64 + p1) * TWO64 + p2) * TWO64 + p3);
    }

    method NextI256() returns (r: Option<int>)
      requires Valid()
      modifies this`pos
      ensures Valid() && pos >= old(pos)
      ensures Mirrors(DecodeI256(old(Rest())), r, Rest())
    {
      hide ReadHyper, ReadSignedHyper;
      var hiHi :- NextI64();
      var p1 :- NextU64();
      var p2 :- NextU64();
      var p3 :- NextU64();
      return Some(hiHi * TWO192 + p1 * TWO128 + p2 * TWO64 + p3);
    }

    /** The arms without children. */
    method NextScalar(code: nat) returns (r: Option<Value>)
      requires Valid()
      modifies this`pos
      ensures Valid() && pos >= old(pos)
      ensures Mirrors(DecodeScalar(code, old(Rest())), r, Rest())
    {
      hide ReadHyper, ReadSignedHyper, ReadWord, ReadText, ReadOpaque, DecodeAddress, DecodeError,
           DecodeExecutable, DecodeInstance, DecodeNonceKey, DecodeU128, DecodeI128, DecodeU256, DecodeI256;
      match code {
        case 0 => var w :- NextU32(); return Some(Bool(w == 1));
        case 1 => return Some(Void);
        case 2 => var e :- NextError(); return Some(Error(e));
        case 3 => var w :- NextU32(); return Some(U32(w));
        case 4 => var w :- NextU32(); return Some(I32(Signed(w, TWO32)));
        case 5 => var w :- NextU64(); return Some(U64(w));
        case 6 => var w :- NextI64(); return Some(I64(w));
        case 7 => var w :- NextU64(); return Some(Timepoint(w));
        case 8 => var w :- NextU64(); return Some(Duration(w));
        case 9 => var x :- NextU128(); return Some(U128(x));
        case 10 => var x :- NextI128(); return Some(I128(x));
        case 11 => var x :- NextU256(); return Some(U256(x));
        case 12 => var x :- NextI256(); return Some(I256(x));
        case 13 => var p :- OpaqueVar(None); return Some(Blob(p));
        case 14 => var p :- TextVar(None); return Some(Text(p));
        case 15 => var p :- TextVar(Some(SC_SYMBOL_LIMIT)); return Some(Symbol(p));
        case 18 => var a :- NextAddress(); return Some(AddressVal(a));
        case 19 => r := NextInstance(); return r;
        case 20 => return Some(LedgerKeyContractInstance);
        case 21 => r := NextNonceKey(); return r;
        case 22 => var x :- NextExecutable(); return Some(ExecutableTag(x));
        case _ => return None;
      }
    }

    /**
     One value at the cursor. Every activation but a failing last one consumes its own four
     discriminant bytes, so a hostile element count buys no work the input does not pay for.
     */
    method NextScVal(depth: nat, limit: Option<nat>) returns (r: Option<Value>)
      requires Valid()
      modifies this
      ensures Valid() && pos >= old(pos)
      ensures Mirrors(Decode(old(Rest()), depth, limit), r, Rest())
      ensures r.Some? ==> 4 * (activations - old(activations)) <= pos - old(pos)
      ensures r.None? ==> 4 * (activations - old(activations) - 1) <= |data| - old(pos)
      decreases |data| - pos, 1
    {
      hide ReadWord, ReadFlag, DecodeScalar, DecodeItems, DecodeEntries;
      activations := activations + 1;
      var code :- NextU32();
      if (code == 16 || code == 17) && limit.Some? && depth >= limit.value {
        return None;
      }
      if code == 16 {
        var present :- PresentFlag();
        if !present {
          return Some(AbsentVec);
        }
        var count :- NextU32();
        var items :- NextItems(count, depth + 1, limit);
        return Some(Vec(items));
      }
      if code == 17 {
        var present :- PresentFlag();
        if !present {
          return Some(AbsentMap);
        }
        var count :- NextU32();
        var entries :- NextEntries(count, depth + 1, limit);
        return Some(Map(entries));
      }
      r := NextScalar(code);
    }

    method NextItems(count: nat, depth: nat, limit: Option<nat>) returns (r: Option<seq<Value>>)
      requires Valid()
      modifies this
      ensures Valid() && pos >= old(pos)
      ensures Mirrors(DecodeItems(old(Rest()), count, depth, limit), r, Rest())
      ensures r.Some? ==> 4 * (activations - old(activations)) <= pos - old(pos)
      ensures r.None? ==> 4 * (activations - old(activations) - 1) <= |data| - old(pos)
      decreases |data| - pos, 2
    {
      hide Decode;
      var items: seq<Value> := [];
      var i := 0;
      ghost var start := Rest();
      BehindStart(DecodeItems(start, count, depth, limit));
      while i < count
        invariant Valid() && pos >= old(pos) && i <= count && |items| == i
        invariant Behind(DecodeItems(start, count, depth, limit), items,
                         DecodeItems(Rest(), count - i, depth, limit))
        invariant 4 * (activations - old(activations)) <= pos - old(pos)
      {
        ghost var todo := DecodeItems(Rest(), count - i, depth, limit);
        var item :- NextScVal(depth, limit);
        BehindStep(DecodeItems(start, count, depth, limit), items, item, todo,
                   DecodeItems(Rest(), count - i - 1, depth, limit));
        items := items + [item];
        i := i + 1;
      }
      BehindEnd(DecodeItems(start, count, depth, limit), items, Rest());
      return Some(items);
    }

    method NextEntries(count: nat, depth: nat, limit: Option<nat>) returns (r: Option<seq<Entry>>)
      requires Valid()
      modifies this
      ensures Valid() && pos >= old(pos)
      ensures Mirrors(DecodeEntries(old(Rest()), count, depth, limit), r, Rest())
      ensures r.Some? ==> 4 * (activations - old(activations)) <= pos - old(pos)
      ensures r.None? ==> 4 * (activations - old(activations) - 1) <= |data| - old(pos)
      decreases |data| - pos, 2
    {
      hide Decode;
      var entries: seq<Entry> := [];
      var i := 0;
      ghost var start := Rest();
      BehindStart(DecodeEntries(start, count, depth, limit));
      while i < count
        invariant Valid() && pos >= old(pos) && i <= count && |entries| == i
        invariant Behind(DecodeEntries(start, count, depth, limit), entries,
                         DecodeEntries(Rest(), count - i, depth, limit))
        invariant 4 * (activations - old(activations)) <= pos - old(pos)
      {
        ghost var todo := DecodeEntries(Rest(), count - i, depth, limit);
        var key :- NextScVal(depth, limit);
        var val :- NextScVal(depth, limit);
        BehindStep(DecodeEntries(start, count, depth, limit), entries, Entry(key, val), todo,
                   DecodeEntries(Rest(), count - i - 1, depth, limit));
        entries := entries + [Entry(key, val)];
        i := i + 1;
      }
      BehindEnd(DecodeEntries(start, count, depth, limit), entries, Rest());
      return Some(entries);
    }
  }

  /** The whole result is what has been read so far, followed by what the remaining reads give. */
  ghost predicate Behind<T>(whole: Parsed<seq<T>>, done: seq<T>, todo: Parsed<seq<T>>) {
    match todo
    case Fail => whole.Fail?
    case Got(vs, rest) => whole == Got(done + vs, rest)
  }

  lemma BehindStart<T>(whole: Parsed<seq<T>>)
    ensures Behind(whole, [], whole)
  {
    if whole.Got? {
      assert [] + whole.value == whole.value;
    }
  }

  lemma BehindStep<T>(whole: Parsed<seq<T>>, done: seq<T>, v: T, todo: Parsed<seq<T>>, next: Parsed<seq<T>>)
    requires Behind(whole, done, todo)
    requires todo == if next.Fail? then Fail else Got([v] + next.value, next.rest)
    ensures Behind(whole, done + [v], next)
  {
    if next.Got? {
      assert done + ([v] + next.value) == done + [v] + next.value;
    }
  }

  lemma BehindEnd<T>(whole: Parsed<seq<T>>, done: seq<T>, rest: bytes)
    requires Behind(whole, done, Got([], rest))
    ensures whole == Got(done, rest)
  {
    assert done + [] == done;
  }

  /**
   `decode`: accepts exactly what the specification accepts, and enters the recursive decoder at
   most once per four input bytes plus one, whatever element counts the input claims.
   */
  method DecodeBytes(data: bytes, limit: Option<nat>) returns (r: Option<Value>, ghost activations: nat)
    ensures r == DecodeAll(data, limit)
    ensures activations <= |data| / 4 + 1
  {
    var reader := new Reader(data);
    var value := reader.NextScVal(0, limit);
    activations := reader.activations;
    if value.None? || reader.pos < |data| {
      return None, activations;
    }
    return value, activations;
  }
}
