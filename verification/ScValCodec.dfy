/**
 What the decoder accepts, exactly: the canonical encodings, with the one leniency that a bool
 payload word other than 1 reads as false.
 */
module ScValCodec {
  import opened Bytes
  import opened ScVal
  import opened ScValScalars

  // ------------------------------------------------------ canonical bool words

  function Plain(n: nat): (m: seq<bool>)
    ensures |m| == n
  {
    seq(n, _ => false)
  }

  /** Which four-byte words of a value's encoding are bool payloads. */
  function BoolWords(v: Value): seq<bool>
    requires Encodable(v)
    decreases v
  {
    if v.Bool? then [false, true]
    else if v.Vec? then Plain(3) + ItemBoolWords(v.items)
    else if v.Map? then Plain(3) + EntryBoolWords(v.entries)
    else Plain(|Encode(v)| / 4)
  }

  function ItemBoolWords(items: seq<Value>): seq<bool>
    requires forall x | x in items :: Encodable(x)
    decreases items
  {
    if items == [] then [] else BoolWords(items[0]) + ItemBoolWords(items[1..])
  }

  function EntryBoolWords(entries: seq<Entry>): seq<bool>
    requires forall e | e in entries :: Encodable(e.key) && Encodable(e.val)
    decreases entries
  {
    if entries == [] then [] else PairBoolWords(entries[0]) + EntryBoolWords(entries[1..])
  }

  function PairBoolWords(e: Entry): seq<bool>
    requires Encodable(e.key) && Encodable(e.val)
    decreases e
  {
    BoolWords(e.key) + BoolWords(e.val)
  }

  /** A word as the encoder would write it: any bool payload other than 1 becomes 0. */
  function CanonicalWord(isBool: bool, w: bytes): (r: bytes)
    requires |w| == 4
    ensures |r| == 4
  {
    if isBool && w != [0, 0, 0, 1] then [0, 0, 0, 0] else w
  }

  /** `c` with every bool payload word other than 1 set to 0. */
  function Canonical(c: bytes, boolWords: seq<bool>): (r: bytes)
    requires |c| == 4 * |boolWords|
    ensures |r| == |c|
  {
    if boolWords == [] then []
    else CanonicalWord(boolWords[0], c[..4]) + Canonical(c[4..], boolWords[1..])
  }

  lemma CanonicalCons(isBool: bool, w: bytes, m: seq<bool>, c: bytes)
    requires |w| == 4 && |c| == 4 * |m|
    ensures Canonical(w + c, [isBool] + m) == CanonicalWord(isBool, w) + Canonical(c, m)
  {
    assert (w + c)[..4] == w && (w + c)[4..] == c && ([isBool] + m)[1..] == m;
  }

  lemma {:induction false} CanonicalConcat(c1: bytes, m1: seq<bool>, c2: bytes, m2: seq<bool>)
    requires |c1| == 4 * |m1| && |c2| == 4 * |m2|
    ensures Canonical(c1 + c2, m1 + m2) == Canonical(c1, m1) + Canonical(c2, m2)
  {
    if m1 == [] {
      assert c1 + c2 == c2 && m1 + m2 == m2;
    } else {
      CanonicalConcatStep(m1[0], c1[..4], m1[1..], c1[4..], c2, m2);
      assert m1 == [m1[0]] + m1[1..] && c1 == c1[..4] + c1[4..];
    }
  }

  lemma {:induction false} CanonicalConcatStep(isBool: bool, w: bytes, m: seq<bool>, c: bytes, c2: bytes, m2: seq<bool>)
    requires |w| == 4 && |c| == 4 * |m| && |c2| == 4 * |m2|
    ensures Canonical(w + c + c2, [isBool] + m + m2) == Canonical(w + c, [isBool] + m) + Canonical(c2, m2)
    decreases c
  {
    hide Canonical, CanonicalWord;
    CanonicalCons(isBool, w, m, c);
    CanonicalCons(isBool, w, m + m2, c + c2);
    CanonicalConcat(c, m, c2, m2);
    Assoc(w, c, c2);
    Assoc([isBool], m, m2);
    Assoc(CanonicalWord(isBool, w), Canonical(c, m), Canonical(c2, m2));
  }

  lemma {:induction false} CanonicalPlain(c: bytes, n: nat)
    requires |c| == 4 * n
    ensures Canonical(c, Plain(n)) == c
  {
    if n > 0 {
      assert Plain(n)[1..] == Plain(n - 1);
      CanonicalPlain(c[4..], n - 1);
    }
  }

  // ------------------------------------------------- reading from the front

  /** `b` is some spelling of the canonical bytes `e` followed by `rest`. */
  ghost predicate Front(b: bytes, e: bytes, m: seq<bool>, rest: bytes) {
    && |b| == 4 * |m| + |rest|
    && b[4 * |m|..] == rest
    && Canonical(b[..4 * |m|], m) == e
  }

  lemma FrontJoin(b: bytes, e1: bytes, m1: seq<bool>, b1: bytes, e2: bytes, m2: seq<bool>, b2: bytes)
    requires Front(b, e1, m1, b1) && Front(b1, e2, m2, b2)
    ensures Front(b, e1 + e2, m1 + m2, b2)
  {
    var c1, c2 := b[..4 * |m1|], b1[..4 * |m2|];
    CanonicalConcat(c1, m1, c2, m2);
    assert b[..4 * |m1 + m2|] == c1 + c2;
  }

  lemma FrontSplit(b: bytes, e1: bytes, m1: seq<bool>, e2: bytes, m2: seq<bool>, b2: bytes)
    requires |e1| == 4 * |m1| && Front(b, e1 + e2, m1 + m2, b2)
    ensures Front(b, e1, m1, b[4 * |m1|..]) && Front(b[4 * |m1|..], e2, m2, b2)
  {
    var n1, n2 := 4 * |m1|, 4 * |m2|;
    var c1, c2 := b[..n1], b[n1..][..n2];
    assert |m1 + m2| == |m1| + |m2| && c2 == b[n1..n1 + n2];
    assert b[..n1 + n2] == c1 + c2;
    CanonicalConcat(c1, m1, c2, m2);
    hide Canonical;
    assert e1 == (e1 + e2)[..n1] && e2 == (e1 + e2)[n1..];
    assert Canonical(c1, m1) == (e1 + e2)[..n1];
    assert b[n1..][n2..] == b[n1 + n2..];
  }

  lemma FrontPlain(b: bytes, e: bytes, n: nat, rest: bytes)
    requires |e| == 4 * n
    ensures Front(b, e, Plain(n), rest) <==> b == e + rest
  {
    if |b| >= 4 * n {
      CanonicalPlain(b[..4 * n], n);
      assert b == b[..4 * n] + b[4 * n..];
    }
  }

  // --------------------------------------------------------------- alignment

  lemma {:induction false} ScalarAligned(v: Value)
    requires ScalarOk(v) && !Container(v)
    ensures |EncodeScalar(v)| % 4 == 0 && (v.Bool? ==> |EncodeScalar(v)| == 4)
  {
    hide EncodeExecutable, EncodeStorage, EncodeAddress, EncodeError, EncodeOpaque, EncodeNonceKey,
         EncodeU128, EncodeI128, EncodeU256, EncodeI256, ExecutableOk, AddressOk, ErrorOkay, ValidUtf8;
  }

  lemma {:induction false} Aligned(v: Value)
    requires Encodable(v)
    ensures |Encode(v)| == 4 * |BoolWords(v)| >= 4
    decreases v
  {
    hide EncodeScalar, Word;
    if v.Vec? {
      ItemsAligned(v.items);
    } else if v.Map? {
      EntriesAligned(v.entries);
    } else if !Container(v) {
      ScalarAligned(v);
    }
  }

  lemma {:induction false} ItemsAligned(items: seq<Value>)
    requires forall x | x in items :: Encodable(x)
    ensures |EncodeItems(items)| == 4 * |ItemBoolWords(items)|
    decreases items
  {
    if items != [] {
      Aligned(items[0]);
      ItemsAligned(items[1..]);
    }
  }

  lemma {:induction false} EntriesAligned(entries: seq<Entry>)
    requires forall e | e in entries :: Encodable(e.key) && Encodable(e.val)
    ensures |EncodeEntries(entries)| == 4 * |EntryBoolWords(entries)|
    decreases entries
  {
    if entries != [] {
      PairAligned(entries[0]);
      EntriesAligned(entries[1..]);
    }
  }

  lemma {:induction false} PairAligned(e: Entry)
    requires Encodable(e.key) && Encodable(e.val)
    ensures |EncodeEntry(e)| == 4 * |PairBoolWords(e)|
    decreases e
  {
    Aligned(e.key);
    Aligned(e.val);
  }

  // ---------------------------------------------------------------- soundness

  /** Whatever is decoded is an encodable value, and what was consumed is a spelling of its encoding. */
  lemma {:induction false} DecodeSound(b: bytes, depth: nat, limit: Option<nat>)
    requires Decode(b, depth, limit).Got?
    ensures var p := Decode(b, depth, limit);
            Encodable(p.value) && Front(b, Encode(p.value), BoolWords(p.value), p.rest)
    decreases |b|, 1
  {
    hide DecodeScalar, EncodeScalar, ReadWord, Word, Front, ReadFlag;
    HeaderSound(b);
    var code, b1 := ReadWord(b).value, ReadWord(b).rest;
    var p := Decode(b, depth, limit);
    if code == 16 || code == 17 {
      ContainerSound(b, depth, limit);
    } else if code == 0 {
      BoolSound(b1);
      FrontJoin(b, Word(0), Plain(1), b1, EncodeScalar(p.value), [true], p.rest);
      assert Plain(1) + [true] == [false, true];
    } else {
      ScalarExact(code, b1);
      ScalarAligned(p.value);
      var e := EncodeScalar(p.value);
      FrontPlain(b1, e, |e| / 4, p.rest);
      FrontJoin(b, Word(code), Plain(1), b1, e, Plain(|e| / 4), p.rest);
      Aligned(p.value);
      assert Plain(1) + Plain(|e| / 4) == BoolWords(p.value);
    }
  }

  lemma HeaderSound(b: bytes)
    requires ReadWord(b).Got?
    ensures |Word(ReadWord(b).value)| == 4 && Front(b, Word(ReadWord(b).value), Plain(1), ReadWord(b).rest)
    ensures ReadWord(b).value < TWO32 && |ReadWord(b).rest| + 4 == |b|
  {
    WordExact(b);
    FrontPlain(b, Word(ReadWord(b).value), 1, ReadWord(b).rest);
  }

  lemma BoolSound(b: bytes)
    requires DecodeScalar(0, b).Got?
    ensures var p := DecodeScalar(0, b);
            p.value.Bool? && Front(b, EncodeScalar(p.value), [true], p.rest)
  {
    WordExact(b);
    var w, c := ReadWord(b).value, b[..4];
    WordBytes();
    assert c == Word(w);
    if c == [0, 0, 0, 1] {
      WordRead(1, []);
      WordRead(w, []);
      assert Word(1) + [] == Word(w) + [];
    }
    OneBoolWord(c);
  }

  lemma OneBoolWord(w: bytes)
    requires |w| == 4
    ensures Canonical(w, [true]) == CanonicalWord(true, w)
  {
    CanonicalCons(true, w, [], []);
    assert w + [] == w && [true] + [] == [true];
  }

  lemma WordBytes()
    ensures Word(0) == [0, 0, 0, 0] && Word(1) == [0, 0, 0, 1]
  {
    assert ToBE(0, 2) == [0, 0];
    assert ToBE(0, 3) == [0, 0, 0];
  }

  lemma {:induction false} ContainerSound(b: bytes, depth: nat, limit: Option<nat>)
    requires Decode(b, depth, limit).Got?
    requires ReadWord(b).Got? && (ReadWord(b).value == 16 || ReadWord(b).value == 17)
    ensures var p := Decode(b, depth, limit);
            Encodable(p.value) && Front(b, Encode(p.value), BoolWords(p.value), p.rest)
    decreases |b|, 0
  {
    hide DecodeScalar, EncodeScalar, ScalarOk, ReadWord, ReadFlag, Word, Front, DecodeItems, DecodeEntries,
         EncodeItems, EncodeEntries, ItemBoolWords, EntryBoolWords;
    var code, b1 := ReadWord(b).value, ReadWord(b).rest;
    var present, b2 := ReadFlag(b1).value, ReadFlag(b1).rest;
    var p := Decode(b, depth, limit);
    PointerSound(b);
    if present {
      var head := Word(code) + Word(1);
      var count, b3 := ReadWord(b2).value, ReadWord(b2).rest;
      HeaderSound(b2);
      FrontJoin(b, head, Plain(2), b2, Word(count), Plain(1), b3);
      assert Plain(2) + Plain(1) == Plain(3);
      if code == 16 {
        ItemsSound(b3, count, depth + 1, limit);
        FrontJoin(b, head + Word(count), Plain(3), b3,
                  EncodeItems(p.value.items), ItemBoolWords(p.value.items), p.rest);
      } else {
        EntriesSound(b3, count, depth + 1, limit);
        FrontJoin(b, head + Word(count), Plain(3), b3,
                  EncodeEntries(p.value.entries), EntryBoolWords(p.value.entries), p.rest);
      }
    }
  }

  /** The discriminant and the present flag in front of a container. */
  lemma PointerSound(b: bytes)
    requires ReadWord(b).Got? && ReadFlag(ReadWord(b).rest).Got?
    ensures var f := ReadFlag(ReadWord(b).rest);
            && |b| == 8 + |f.rest|
            && Front(b, Word(ReadWord(b).value) + Word(if f.value then 1 else 0), Plain(2), f.rest)
  {
    hide ReadWord, Word, Front;
    var b1 := ReadWord(b).rest;
    HeaderSound(b);
    HeaderSound(b1);
    FrontJoin(b, Word(ReadWord(b).value), Plain(1), b1, Word(ReadWord(b1).value), Plain(1), ReadWord(b1).rest);
    assert Plain(1) + Plain(1) == Plain(2);
  }

  lemma {:induction false} ItemsSound(b: bytes, count: nat, depth: nat, limit: Option<nat>)
    requires DecodeItems(b, count, depth, limit).Got?
    ensures var p := DecodeItems(b, count, depth, limit);
            && (forall x | x in p.value :: Encodable(x))
            && Front(b, EncodeItems(p.value), ItemBoolWords(p.value), p.rest)
    decreases |b|, 2
  {
    hide Decode, Encodable, Encode, BoolWords;
    if count > 0 {
      var p := DecodeItems(b, count, depth, limit);
      var v, b1 := Decode(b, depth, limit).value, Decode(b, depth, limit).rest;
      var q := DecodeItems(b1, count - 1, depth, limit);
      DecodeSound(b, depth, limit);
      ItemsSound(b1, count - 1, depth, limit);
      assert p.value[0] == v && p.value[1..] == q.value;
      FrontJoin(b, Encode(v), BoolWords(v), b1, EncodeItems(q.value), ItemBoolWords(q.value), p.rest);
    }
  }

  lemma {:induction false} EntriesSound(b: bytes, count: nat, depth: nat, limit: Option<nat>)
    requires DecodeEntries(b, count, depth, limit).Got?
    ensures var p := DecodeEntries(b, count, depth, limit);
            && (forall e | e in p.value :: Encodable(e.key) && Encodable(e.val))
            && Front(b, EncodeEntries(p.value), EntryBoolWords(p.value), p.rest)
    decreases |b|, 2
  {
    hide Decode, Encodable, Encode, BoolWords;
    if count > 0 {
      var p := DecodeEntries(b, count, depth, limit);
      var k, b1 := Decode(b, depth, limit).value, Decode(b, depth, limit).rest;
      var v, b2 := Decode(b1, depth, limit).value, Decode(b1, depth, limit).rest;
      var q := DecodeEntries(b2, count - 1, depth, limit);
      DecodeSound(b, depth, limit);
      DecodeSound(b1, depth, limit);
      EntriesSound(b2, count - 1, depth, limit);
      assert p.value[0] == Entry(k, v) && p.value[1..] == q.value;
      FrontJoin(b, Encode(k), BoolWords(k), b1, Encode(v), BoolWords(v), b2);
      FrontJoin(b, Encode(k) + Encode(v), BoolWords(k) + BoolWords(v), b2,
                EncodeEntries(q.value), EntryBoolWords(q.value), p.rest);
    }
  }

  // ------------------------------------------------------------- completeness

  /** Every spelling of an encodable value is decoded to it, whatever follows. */
  lemma {:induction false} DecodeComplete(v: Value, b: bytes, rest: bytes, depth: nat)
    requires Encodable(v) && Front(b, Encode(v), BoolWords(v), rest)
    ensures Decode(b, depth, None) == Got(v, rest)
    decreases v
  {
    hide DecodeScalar, EncodeScalar, ReadWord, Word, Front, ReadFlag;
    if Container(v) {
      ContainerComplete(v, b, rest, depth);
    } else {
      var e := EncodeScalar(v);
      ScalarAligned(v);
      Aligned(v);
      if v.Bool? {
        assert [false, true] == Plain(1) + [true];
        HeaderComplete(b, Code(v), e, [true], rest);
        BoolComplete(v.flag, b[4..], rest);
      } else {
        assert BoolWords(v) == Plain(1) + Plain(|e| / 4);
        HeaderComplete(b, Code(v), e, Plain(|e| / 4), rest);
        FrontPlain(b[4..], e, |e| / 4, rest);
        ScalarRead(v, rest);
      }
    }
  }

  lemma HeaderComplete(b: bytes, w: nat, e: bytes, m: seq<bool>, rest: bytes)
    requires w < TWO32 && Front(b, Word(w) + e, Plain(1) + m, rest)
    ensures |b| >= 4 && ReadWord(b) == Got(w, b[4..]) && Front(b[4..], e, m, rest)
  {
    FrontSplit(b, Word(w), Plain(1), e, m, rest);
    FrontPlain(b, Word(w), 1, b[4..]);
    WordRead(w, b[4..]);
  }

  lemma BoolComplete(flag: bool, b: bytes, rest: bytes)
    requires Front(b, EncodeScalar(Bool(flag)), [true], rest)
    ensures DecodeScalar(0, b) == Got(Bool(flag), rest)
  {
    var c := b[..4];
    WordBytes();
    OneBoolWord(c);
    WordExact(b);
    assert c == Word(ReadWord(b).value);
    WordRead(1, []);
    assert Word(1)[..4] == Word(1) == Word(1) + [];
  }

  lemma {:induction false} ContainerComplete(v: Value, b: bytes, rest: bytes, depth: nat)
    requires Encodable(v) && Container(v) && Front(b, Encode(v), BoolWords(v), rest)
    ensures Decode(b, depth, None) == Got(v, rest)
    decreases v, 0
  {
    hide DecodeScalar, EncodeScalar, ScalarOk, ReadWord, Word, Front, DecodeItems, DecodeEntries,
         EncodeItems, EncodeEntries, ItemBoolWords, EntryBoolWords;
    var present := v.Vec? || v.Map?;
    var flag := if present then 1 else 0;
    var count := if v.Vec? then |v.items| else if v.Map? then |v.entries| else 0;
    var e := if v.Vec? then EncodeItems(v.items) else if v.Map? then EncodeEntries(v.entries) else [];
    var m := if v.Vec? then ItemBoolWords(v.items) else if v.Map? then EntryBoolWords(v.entries) else [];
    var body := if present then Word(count) + e else [];
    var mask := if present then Plain(1) + m else [];
    assert Encode(v) == Word(Code(v)) + (Word(flag) + body);
    assert BoolWords(v) == Plain(1) + (Plain(1) + mask);
    HeaderComplete(b, Code(v), Word(flag) + body, Plain(1) + mask, rest);
    HeaderComplete(b[4..], flag, body, mask, rest);
    var b2 := b[4..][4..];
    if present {
      HeaderComplete(b2, count, e, m, rest);
      if v.Vec? {
        ItemsComplete(v.items, b2[4..], rest, depth + 1);
      } else {
        EntriesComplete(v.entries, b2[4..], rest, depth + 1);
      }
    } else {
      FrontPlain(b2, [], 0, rest);
      assert Plain(0) == [];
    }
  }

  lemma {:induction false} ItemsComplete(items: seq<Value>, b: bytes, rest: bytes, depth: nat)
    requires forall x | x in items :: Encodable(x)
    requires Front(b, EncodeItems(items), ItemBoolWords(items), rest)
    ensures DecodeItems(b, |items|, depth, None) == Got(items, rest)
    decreases items
  {
    hide Decode, Encodable, Encode, BoolWords;
    if items != [] {
      var v := items[0];
      Aligned(v);
      FrontSplit(b, Encode(v), BoolWords(v), EncodeItems(items[1..]), ItemBoolWords(items[1..]), rest);
      var b1 := b[4 * |BoolWords(v)|..];
      DecodeComplete(v, b, b1, depth);
      ItemsComplete(items[1..], b1, rest, depth);
      assert items == [v] + items[1..];
    }
  }

  lemma {:induction false} EntriesComplete(entries: seq<Entry>, b: bytes, rest: bytes, depth: nat)
    requires forall e | e in entries :: Encodable(e.key) && Encodable(e.val)
    requires Front(b, EncodeEntries(entries), EntryBoolWords(entries), rest)
    ensures DecodeEntries(b, |entries|, depth, None) == Got(entries, rest)
    decreases entries
  {
    hide Decode, Encodable, Encode, BoolWords;
    if entries != [] {
      var e := entries[0];
      PairAligned(e);
      FrontSplit(b, EncodeEntry(e), PairBoolWords(e),
                 EncodeEntries(entries[1..]), EntryBoolWords(entries[1..]), rest);
      var b2 := b[4 * |PairBoolWords(e)|..];
      PairComplete(e, b, b2, depth);
      EntriesComplete(entries[1..], b2, rest, depth);
      assert entries == [e] + entries[1..];
    }
  }

  lemma {:induction false} PairComplete(e: Entry, b: bytes, rest: bytes, depth: nat)
    requires Encodable(e.key) && Encodable(e.val) && Front(b, EncodeEntry(e), PairBoolWords(e), rest)
    ensures Decode(b, depth, None).Got? && Decode(b, depth, None).value == e.key
    ensures Decode(Decode(b, depth, None).rest, depth, None) == Got(e.val, rest)
    decreases e
  {
    hide Decode, Encodable, Encode, BoolWords;
    Aligned(e.key);
    FrontSplit(b, Encode(e.key), BoolWords(e.key), Encode(e.val), BoolWords(e.val), rest);
    var b1 := b[4 * |BoolWords(e.key)|..];
    DecodeComplete(e.key, b, b1, depth);
    DecodeComplete(e.val, b1, rest, depth);
  }
}
