/**
 The promises of the codec: round trip under any continuation, canonical form, prefix freedom,
 rejection of truncated and extended input, and depth limits that only filter.
 */
module ScValTheorems {
  import opened Bytes
  import opened ScVal
  import opened ScValCodec
  import opened ScValScalars

  // ------------------------------------------------------------- word by word

  /** The `j`-th four-byte word. */
  function WordAt(c: bytes, j: nat): bytes
    requires 4 * j + 4 <= |c|
  {
    c[4 * j..4 * j + 4]
  }

  lemma {:induction false} CanonicalWords(c: bytes, m: seq<bool>, j: nat)
    requires |c| == 4 * |m| && j < |m|
    ensures WordAt(Canonical(c, m), j) == CanonicalWord(m[j], WordAt(c, j))
  {
    hide Canonical, CanonicalWord;
    var w, c' := c[..4], c[4..];
    var head, tail := CanonicalWord(m[0], w), Canonical(c', m[1..]);
    assert c == w + c' && m == [m[0]] + m[1..];
    CanonicalCons(m[0], w, m[1..], c');
    if j == 0 {
      assert WordAt(head + tail, 0) == head;
    } else {
      CanonicalWords(c', m[1..], j - 1);
      NextWord(w, c', j - 1);
      NextWord(head, tail, j - 1);
    }
  }

  lemma NextWord(head: bytes, tail: bytes, j: nat)
    requires |head| == 4 && 4 * j + 4 <= |tail|
    ensures WordAt(head + tail, j + 1) == WordAt(tail, j)
  {
  }

  lemma {:induction false} WordsDetermine(b: bytes, c: bytes, n: nat)
    requires |b| == |c| == 4 * n && forall j: nat | j < n :: WordAt(b, j) == WordAt(c, j)
    ensures b == c
  {
    forall i: nat | i < |b|
      ensures b[i] == c[i]
    {
      assert WordAt(b, i / 4)[i % 4] == WordAt(c, i / 4)[i % 4];
    }
  }

  lemma {:induction false} CanonicalFixed(c: bytes, m: seq<bool>)
    requires |c| == 4 * |m|
    ensures Canonical(c, m) == c
       <==> forall j: nat | j < |m| && m[j] :: WordAt(c, j) in {[0, 0, 0, 0], [0, 0, 0, 1]}
  {
    forall j: nat | j < |m|
      ensures WordAt(Canonical(c, m), j) == CanonicalWord(m[j], WordAt(c, j))
    {
      CanonicalWords(c, m, j);
    }
    if forall j: nat | j < |m| && m[j] :: WordAt(c, j) in {[0, 0, 0, 0], [0, 0, 0, 1]} {
      WordsDetermine(Canonical(c, m), c, |m|);
    }
  }

  // ------------------------------------------- an encoding spells its own value

  lemma {:induction false} EncodingIsSpelling(v: Value)
    requires Encodable(v)
    ensures |Encode(v)| == 4 * |BoolWords(v)| && Canonical(Encode(v), BoolWords(v)) == Encode(v)
    decreases v
  {
    hide EncodeScalar, ScalarOk, Word, ToBE;
    Aligned(v);
    if v.Bool? {
      BoolSpelling(v.flag);
    } else if v.Vec? {
      ItemsAligned(v.items);
      ItemsAreSpelling(v.items);
      HeaderSpelling(Word(16) + Word(1) + Word(|v.items|), EncodeItems(v.items), ItemBoolWords(v.items));
    } else if v.Map? {
      EntriesAligned(v.entries);
      EntriesAreSpelling(v.entries);
      HeaderSpelling(Word(17) + Word(1) + Word(|v.entries|), EncodeEntries(v.entries), EntryBoolWords(v.entries));
    } else {
      CanonicalPlain(Encode(v), |Encode(v)| / 4);
    }
  }

  lemma BoolSpelling(flag: bool)
    ensures Canonical(Encode(Bool(flag)), [false, true]) == Encode(Bool(flag))
  {
    WordBytes();
    var w := Word(if flag then 1 else 0);
    CanonicalCons(false, Word(0), [true], w);
    OneBoolWord(w);
    assert [false] + [true] == [false, true];
  }

  lemma HeaderSpelling(head: bytes, e: bytes, m: seq<bool>)
    requires |head| == 12 && |e| == 4 * |m| && Canonical(e, m) == e
    ensures Canonical(head + e, Plain(3) + m) == head + e
  {
    CanonicalPlain(head, 3);
    CanonicalConcat(head, Plain(3), e, m);
  }

  lemma {:induction false} ItemsAreSpelling(items: seq<Value>)
    requires forall x | x in items :: Encodable(x)
    requires |EncodeItems(items)| == 4 * |ItemBoolWords(items)|
    ensures Canonical(EncodeItems(items), ItemBoolWords(items)) == EncodeItems(items)
    decreases items
  {
    if items != [] {
      ItemsAligned(items[1..]);
      EncodingIsSpelling(items[0]);
      ItemsAreSpelling(items[1..]);
      CanonicalConcat(Encode(items[0]), BoolWords(items[0]), EncodeItems(items[1..]), ItemBoolWords(items[1..]));
    }
  }

  lemma {:induction false} EntriesAreSpelling(entries: seq<Entry>)
    requires forall e | e in entries :: Encodable(e.key) && Encodable(e.val)
    requires |EncodeEntries(entries)| == 4 * |EntryBoolWords(entries)|
    ensures Canonical(EncodeEntries(entries), EntryBoolWords(entries)) == EncodeEntries(entries)
    decreases entries
  {
    if entries != [] {
      EntriesAligned(entries[1..]);
      PairAligned(entries[0]);
      PairIsSpelling(entries[0]);
      EntriesAreSpelling(entries[1..]);
      CanonicalConcat(EncodeEntry(entries[0]), PairBoolWords(entries[0]),
                      EncodeEntries(entries[1..]), EntryBoolWords(entries[1..]));
    }
  }

  lemma {:induction false} PairIsSpelling(e: Entry)
    requires Encodable(e.key) && Encodable(e.val)
    requires |EncodeEntry(e)| == 4 * |PairBoolWords(e)|
    ensures Canonical(EncodeEntry(e), PairBoolWords(e)) == EncodeEntry(e)
    decreases e
  {
    EncodingIsSpelling(e.key);
    EncodingIsSpelling(e.val);
    CanonicalConcat(Encode(e.key), BoolWords(e.key), Encode(e.val), BoolWords(e.val));
  }

  // ------------------------------------------------------------- main results

  /** `decode` accepts exactly the spellings of encodable values. */
  lemma AcceptsExactly(b: bytes, v: Value)
    ensures DecodeAll(b, None) == Some(v)
       <==> Encodable(v) && |b| == 4 * |BoolWords(v)| && Canonical(b, BoolWords(v)) == Encode(v)
  {
    hide Decode, Encode, BoolWords, Encodable;
    if DecodeAll(b, None) == Some(v) {
      DecodeSound(b, 0, None);
      assert b[..4 * |BoolWords(v)|] == b;
    }
    if Encodable(v) && |b| == 4 * |BoolWords(v)| && Canonical(b, BoolWords(v)) == Encode(v) {
      assert b[..4 * |BoolWords(v)|] == b;
      DecodeComplete(v, b, [], 0);
    }
  }

  /** An encoded value is read back under any continuation, leaving the cursor at the continuation. */
  lemma {:induction false} RoundTrip(v: Value, s: bytes, depth: nat)
    requires Encodable(v)
    ensures Decode(Encode(v) + s, depth, None) == Got(v, s)
    ensures DecodeAll(Encode(v), None) == Some(v)
  {
    hide Decode, Encode, BoolWords, Encodable;
    EncodingIsSpelling(v);
    var e := Encode(v);
    assert (e + s)[..|e|] == e;
    DecodeComplete(v, e + s, s, depth);
    AcceptsExactly(e, v);
  }

  /** No encoding is a prefix of the encoding of a different value. */
  lemma PrefixFree(v: Value, w: Value)
    requires Encodable(v) && Encodable(w) && Encode(v) <= Encode(w)
    ensures v == w
  {
    hide Decode, Encode, BoolWords, Encodable;
    var s := Encode(w)[|Encode(v)|..];
    assert Encode(w) == Encode(v) + s && Encode(w) == Encode(w) + [];
    RoundTrip(v, s, 0);
    RoundTrip(w, [], 0);
  }

  /**
   Re-encoding what was decoded only normalises bool words; it is the identity exactly when all of
   them are 0 or 1, and decoding the result gives the same value.
   */
  lemma {:induction false} CanonicalForm(b: bytes)
    requires DecodeAll(b, None).Some?
    ensures var v := DecodeAll(b, None).value;
            && Encodable(v) && |Encode(v)| == |b| == 4 * |BoolWords(v)|
            && Encode(v) == Canonical(b, BoolWords(v))
            && (Encode(v) == b <==>
                forall j: nat | j < |BoolWords(v)| && BoolWords(v)[j] :: WordAt(b, j) in {[0, 0, 0, 0], [0, 0, 0, 1]})
            && DecodeAll(Encode(v), None) == Some(v)
  {
    hide Decode, Encode, BoolWords, Encodable;
    var v := DecodeAll(b, None).value;
    AcceptsExactly(b, v);
    CanonicalFixed(b, BoolWords(v));
    RoundTrip(v, [], 0);
  }

  /** Two inputs with one value agree everywhere except in bool words, where neither is 1 or both are. */
  lemma SameValueSameWords(b: bytes, c: bytes, j: nat)
    requires DecodeAll(b, None).Some? && DecodeAll(b, None) == DecodeAll(c, None)
    requires 4 * j + 4 <= |b|
    ensures |b| == |c|
    ensures var v := DecodeAll(b, None).value;
            && Encodable(v) && j < |BoolWords(v)|
            && (if BoolWords(v)[j] then WordAt(b, j) == [0, 0, 0, 1] <==> WordAt(c, j) == [0, 0, 0, 1]
                else WordAt(b, j) == WordAt(c, j))
  {
    hide Decode, Encode, BoolWords, Encodable;
    var v := DecodeAll(b, None).value;
    AcceptsExactly(b, v);
    AcceptsExactly(c, v);
    CanonicalWords(b, BoolWords(v), j);
    CanonicalWords(c, BoolWords(v), j);
  }

  /** Truncating or extending an accepted input makes it rejected, under any depth limits. */
  lemma NoPartialInput(b: bytes, c: bytes, limit: Option<nat>, otherLimit: Option<nat>)
    requires DecodeAll(b, limit).Some?
    requires b != c && (b <= c || c <= b)
    ensures DecodeAll(c, otherLimit).None?
  {
    hide Decode, Encode, BoolWords, Encodable;
    LimitOnlyRejects(b, limit);
    if DecodeAll(c, otherLimit).Some? {
      LimitOnlyRejects(c, otherLimit);
      if b <= c {
        assert c == b + c[|b|..];
        ExtensionRejected(b, c[|b|..]);
      } else {
        assert b == c + b[|c|..];
        ExtensionRejected(c, b[|c|..]);
      }
    }
  }

  lemma ExtensionRejected(b: bytes, t: bytes)
    requires DecodeAll(b, None).Some? && t != []
    ensures DecodeAll(b + t, None).None?
  {
    hide Decode, Encode, BoolWords, Encodable;
    var v := DecodeAll(b, None).value;
    AcceptsExactly(b, v);
    assert (b + t)[..|b|] == b;
    DecodeComplete(v, b + t, t, 0);
  }

  // ------------------------------------------------------------- depth limits

  /** Container nesting; an absent or empty container counts as one level. */
  function Nesting(v: Value): nat
    decreases v
  {
    if v.Vec? then 1 + ItemsNesting(v.items)
    else if v.Map? then 1 + EntriesNesting(v.entries)
    else if v.AbsentVec? || v.AbsentMap? then 1
    else 0
  }

  function Max(a: nat, b: nat): nat {
    if a < b then b else a
  }

  function ItemsNesting(items: seq<Value>): nat
    decreases items
  {
    if items == [] then 0 else Max(Nesting(items[0]), ItemsNesting(items[1..]))
  }

  function EntriesNesting(entries: seq<Entry>): nat
    decreases entries
  {
    if entries == [] then 0 else Max(EntryNesting(entries[0]), EntriesNesting(entries[1..]))
  }

  function EntryNesting(e: Entry): nat
    decreases e
  {
    Max(Nesting(e.key), Nesting(e.val))
  }

  lemma ScalarNesting(code: nat, b: bytes)
    requires DecodeScalar(code, b).Got?
    ensures Nesting(DecodeScalar(code, b).value) == 0
  {
    if code != 0 {
      hide DecodeScalar, EncodeScalar, ScalarOk;
      ScalarExact(code, b);
    }
  }

  /** A depth limit filters the unlimited decoder by the nesting of its result. */
  lemma {:induction false} DepthFilter(b: bytes, depth: nat, limit: nat)
    requires depth <= limit
    ensures var p := Decode(b, depth, None);
            Decode(b, depth, Some(limit)) == if p.Got? && depth + Nesting(p.value) <= limit then p else Fail
    decreases |b|, 0
  {
    hide DecodeScalar, ReadWord, ReadFlag, DecodeItems, DecodeEntries, ItemsNesting, EntriesNesting;
    if ReadWord(b).Got? {
      var code, b1 := ReadWord(b).value, ReadWord(b).rest;
      HeaderSound(b);
      if code != 16 && code != 17 {
        if DecodeScalar(code, b1).Got? {
          ScalarNesting(code, b1);
        }
      } else if depth < limit && ReadFlag(b1).Got? && ReadFlag(b1).value && ReadWord(ReadFlag(b1).rest).Got? {
        PointerSound(b);
        var b2 := ReadFlag(b1).rest;
        HeaderSound(b2);
        if code == 16 {
          ItemsDepthFilter(ReadWord(b2).rest, ReadWord(b2).value, depth + 1, limit);
        } else {
          EntriesDepthFilter(ReadWord(b2).rest, ReadWord(b2).value, depth + 1, limit);
        }
      }
    }
  }

  lemma {:induction false} ItemsDepthFilter(b: bytes, count: nat, depth: nat, limit: nat)
    requires depth <= limit
    ensures var p := DecodeItems(b, count, depth, None);
            DecodeItems(b, count, depth, Some(limit))
            == if p.Got? && depth + ItemsNesting(p.value) <= limit then p else Fail
    decreases |b|, 1
  {
    hide Decode, Nesting;
    if count > 0 {
      DepthFilter(b, depth, limit);
      var p := Decode(b, depth, None);
      if p.Got? {
        ItemsDepthFilter(p.rest, count - 1, depth, limit);
        var q := DecodeItems(p.rest, count - 1, depth, None);
        if q.Got? {
          assert ([p.value] + q.value)[1..] == q.value;
        }
      }
    }
  }

  lemma {:induction false} EntriesDepthFilter(b: bytes, count: nat, depth: nat, limit: nat)
    requires depth <= limit
    ensures var p := DecodeEntries(b, count, depth, None);
            DecodeEntries(b, count, depth, Some(limit))
            == if p.Got? && depth + EntriesNesting(p.value) <= limit then p else Fail
    decreases |b|, 1
  {
    hide Decode, Nesting;
    if count > 0 {
      DepthFilter(b, depth, limit);
      var k := Decode(b, depth, None);
      if k.Got? {
        DepthFilter(k.rest, depth, limit);
        var v := Decode(k.rest, depth, None);
        if v.Got? {
          EntriesDepthFilter(v.rest, count - 1, depth, limit);
          var q := DecodeEntries(v.rest, count - 1, depth, None);
          if q.Got? {
            assert ([Entry(k.value, v.value)] + q.value)[1..] == q.value;
          }
        }
      }
    }
  }

  /** `decode(data, limit)` succeeds with `v` exactly when `decode(data)` does and `v` nests at most that deep. */
  lemma DepthLimit(b: bytes, limit: nat, v: Value)
    ensures DecodeAll(b, Some(limit)) == Some(v) <==> DecodeAll(b, None) == Some(v) && Nesting(v) <= limit
  {
    hide Decode, Nesting;
    DepthFilter(b, 0, limit);
  }

  lemma LimitOnlyRejects(b: bytes, limit: Option<nat>)
    requires DecodeAll(b, limit).Some?
    ensures DecodeAll(b, None) == DecodeAll(b, limit)
  {
    hide Decode, Nesting;
    if limit.Some? {
      DepthLimit(b, limit.value, DecodeAll(b, limit).value);
    }
  }
}
