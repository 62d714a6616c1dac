/**
 Locating a byte difference between two tar streams: the block walk over the members, the member
 that contains an offset, and the first offset where two streams differ.
 */
module TarWalk {
  import opened Bytes

  const BLOCK: nat := 512

  /** How a 512-byte header is read; the parsing of its name and octal size fields is not modelled. */
  datatype Header = Header(name: bytes -> string, size: bytes -> int)

  datatype Member = Member(name: string, start: nat, size: int)

  function Padded(size: int): int {
    (size + 511) / BLOCK * BLOCK
  }

  /** The block that ends an archive. */
  predicate ZeroBlock(b: bytes) {
    b == seq(BLOCK, _ => 0)
  }

  /** Where a member's header begins and where its padding ends. */
  function From(m: Member): int {
    m.start - BLOCK
  }

  function To(m: Member): int {
    m.start + Padded(m.size)
  }

  function End(members: seq<Member>): int {
    if members == [] then 0 else To(members[|members| - 1])
  }

  /** A member whose header begins at `from` and is what the member says. */
  ghost predicate MemberAt(stream: bytes, h: Header, m: Member, from: int) {
    && 0 <= from == From(m) && from % BLOCK == 0 && m.start <= |stream| && m.size > -512
    && var block := stream[from..m.start];
       !ZeroBlock(block) && m.name == h.name(block) && m.size == h.size(block)
  }

  /** The members are what their headers say, and follow each other from 0 without gap or overlap. */
  ghost predicate Tiles(stream: bytes, h: Header, members: seq<Member>) {
    members == [] || (
      var front := members[..|members| - 1];
      Tiles(stream, h, front) && MemberAt(stream, h, members[|members| - 1], End(front)))
  }

  /** Every size field the walk can come to is more than -512, in particular when none is negative. */
  ghost predicate Sizes(stream: bytes, h: Header) {
    forall members | Tiles(stream, h, members) :: SizeAfter(stream, h, End(members))
  }

  predicate SizeAfter(stream: bytes, h: Header, offset: int) {
    0 <= offset && offset + BLOCK <= |stream| && !ZeroBlock(stream[offset..offset + BLOCK]) ==>
      h.size(stream[offset..offset + BLOCK]) > -512
  }

  lemma PaddedFits(size: int)
    ensures Padded(size) % BLOCK == 0
    ensures size > -512 ==> 0 <= Padded(size) && size <= Padded(size) < (if size < 0 then 0 else size) + BLOCK
    ensures size <= -512 ==> Padded(size) <= -512
  {
  }

  /** The walk moves forward exactly when the size field is more than -512. */
  lemma AdvancesExactly(offset: int, size: int)
    ensures offset + BLOCK + Padded(size) > offset <==> size > -512
  {
    PaddedFits(size);
  }

  /** The member whose header begins at an offset. */
  function HeaderAt(stream: bytes, h: Header, offset: nat): Member
    requires offset + BLOCK <= |stream|
  {
    var header := stream[offset..offset + BLOCK];
    Member(h.name(header), offset + BLOCK, h.size(header))
  }

  /** A header that is no zero block, right behind some members, is that of one more. */
  lemma OneMoreMember(stream: bytes, h: Header, members: seq<Member>)
    requires Tiles(stream, h, members) && Sizes(stream, h)
    requires 0 <= End(members) && End(members) % BLOCK == 0 && End(members) + BLOCK <= |stream|
    requires !ZeroBlock(stream[End(members)..End(members) + BLOCK])
    ensures var m := HeaderAt(stream, h, End(members));
            && Tiles(stream, h, members + [m]) && m.size > -512
            && End(members + [m]) == End(members) + BLOCK + Padded(m.size)
  {
    hide Padded, ZeroBlock;
    var offset := End(members);
    var m := HeaderAt(stream, h, offset);
    assert SizeAfter(stream, h, offset);
    assert (members + [m])[..|members|] == members;
    assert MemberAt(stream, h, m, offset);
  }

  /** `tar_members`: the members tile the stream up to a zero block or a short remainder. */
  method TarMembers(stream: bytes, h: Header) returns (members: seq<Member>)
    requires Sizes(stream, h)
    ensures Tiles(stream, h, members)
    ensures var end := End(members);
            0 <= end && end % BLOCK == 0 && (end + BLOCK > |stream| || ZeroBlock(stream[end..end + BLOCK]))
  {
    hide Padded, ZeroBlock, Tiles, Sizes, End;
    members := [];
    NoMembers(stream, h);
    var offset := 0;
    while offset + BLOCK <= |stream|
      invariant 0 <= offset == End(members) && offset % BLOCK == 0 && Tiles(stream, h, members)
      decreases |stream| - offset
    {
      var header := stream[offset..offset + BLOCK];
      if ZeroBlock(header) {
        break;
      }
      OneMoreMember(stream, h, members);
      var size := h.size(header);
      PaddedFits(size);
      members := members + [Member(h.name(header), offset + BLOCK, size)];
      offset := offset + BLOCK + Padded(size);
    }
  }

  lemma NoMembers(stream: bytes, h: Header)
    ensures Tiles(stream, h, []) && End([]) == 0
  {
  }

  /** Every member of a tiling is where the ones before it end. */
  lemma {:induction false} TileAt(stream: bytes, h: Header, members: seq<Member>, k: nat)
    requires Tiles(stream, h, members) && k < |members|
    ensures MemberAt(stream, h, members[k], End(members[..k])) && From(members[k]) < members[k].start <= To(members[k])
  {
    hide Padded;
    var front := members[..|members| - 1];
    if k < |front| {
      TileAt(stream, h, front, k);
      assert front[..k] == members[..k];
    }
    PaddedFits(members[k].size);
  }

  lemma {:induction false} EndsGrow(stream: bytes, h: Header, members: seq<Member>, j: nat, k: nat)
    requires Tiles(stream, h, members) && j < k <= |members|
    ensures To(members[j]) <= End(members[..k])
  {
    hide Padded, MemberAt, Tiles;
    assert members[..k][k - 1] == members[k - 1];
    if j < k - 1 {
      EndsGrow(stream, h, members, j, k - 1);
      FromIsEnd(stream, h, members, k - 1);
    }
  }

  lemma FromIsEnd(stream: bytes, h: Header, members: seq<Member>, k: nat)
    requires Tiles(stream, h, members) && k < |members|
    ensures 0 <= End(members[..k]) == From(members[k]) < members[k].start <= To(members[k])
    ensures members[k].size > -512 && members[k].start + members[k].size <= To(members[k])
  {
    hide Padded, Tiles;
    TileAt(stream, h, members, k);
    PaddedFits(members[k].size);
  }

  /** No two members overlap. */
  lemma MembersDisjoint(stream: bytes, h: Header, members: seq<Member>, j: nat, k: nat, offset: int)
    requires Tiles(stream, h, members) && j < |members| && k < |members|
    requires From(members[j]) <= offset < To(members[j]) && From(members[k]) <= offset < To(members[k])
    ensures j == k
  {
    hide Padded, Tiles;
    FromIsEnd(stream, h, members, j);
    FromIsEnd(stream, h, members, k);
    if j < k {
      EndsGrow(stream, h, members, j, k);
    } else if k < j {
      EndsGrow(stream, h, members, k, j);
    }
  }

  /** What the report says about an offset: which member, and which part of it. */
  datatype Place = InHeader(member: nat) | InData(member: nat) | InPadding(member: nat) | Outside

  ghost predicate Describes(members: seq<Member>, offset: int, place: Place) {
    match place
    case InHeader(k) => k < |members| && From(members[k]) <= offset < members[k].start
    case InData(k) => k < |members| && members[k].start <= offset < members[k].start + members[k].size
    case InPadding(k) =>
      k < |members| && members[k].start + members[k].size <= offset < To(members[k]) && members[k].start <= offset
    case Outside => !(0 <= offset < End(members))
  }

  lemma PlaceInMember(stream: bytes, h: Header, members: seq<Member>, offset: int, place: Place)
    requires Tiles(stream, h, members) && Describes(members, offset, place) && !place.Outside?
    ensures From(members[place.member]) <= offset < To(members[place.member])
    ensures 0 <= offset < End(members)
  {
    hide Padded, Tiles;
    FromIsEnd(stream, h, members, place.member);
    EndsGrow(stream, h, members, place.member, |members|);
    assert members[..|members|] == members;
  }

  /** Exactly one description fits an offset: header, data and padding of all members tile [0, end). */
  lemma OnePlace(stream: bytes, h: Header, members: seq<Member>, offset: int, place: Place, other: Place)
    requires Tiles(stream, h, members)
    requires Describes(members, offset, place) && Describes(members, offset, other)
    ensures place == other
  {
    hide Padded, Tiles;
    if !place.Outside? {
      PlaceInMember(stream, h, members, offset, place);
    }
    if !other.Outside? {
      PlaceInMember(stream, h, members, offset, other);
    }
    if !place.Outside? && !other.Outside? {
      MembersDisjoint(stream, h, members, place.member, other.member, offset);
    }
  }

  /** `member_at_offset`: the one description that fits, found by walking the members in order. */
  method MemberAtOffset(stream: bytes, h: Header, offset: int) returns (place: Place, members: seq<Member>)
    requires Sizes(stream, h)
    ensures Tiles(stream, h, members) && Describes(members, offset, place)
  {
    hide Padded, Tiles;
    members := TarMembers(stream, h);
    assert members[..0] == [];
    for k := 0 to |members|
      invariant !(0 <= offset < End(members[..k]))
    {
      var m := members[k];
      FromIsEnd(stream, h, members, k);
      assert members[..k + 1][k] == m;
      var padded := Padded(m.size);
      var entryStart := m.start - BLOCK;
      var entryEnd := m.start + padded;
      if !(entryStart <= offset < entryEnd) {
        continue;
      }
      if m.start <= offset < m.start + m.size {
        return InData(k), members;
      }
      if offset < m.start {
        return InHeader(k), members;
      }
      return InPadding(k), members;
    }
    assert members[..|members|] == members;
    return Outside, members;
  }

  /** The streams agree before an offset, and there they differ or one of them has ended. */
  predicate FirstAt(left: bytes, right: bytes, offset: nat) {
    && offset <= |left| && offset <= |right| && left[..offset] == right[..offset]
    && (if offset < |left| && offset < |right| then left[offset] != right[offset] else |left| != |right|)
  }

  /** `first_difference`: nothing exactly when the streams are equal, else the least differing offset. */
  method FirstDifference(left: bytes, right: bytes) returns (r: Option<nat>)
    ensures r.None? <==> left == right
    ensures r.Some? ==> FirstAt(left, right, r.value)
  {
    var limit := if |left| < |right| then |left| else |right|;
    for offset := 0 to limit
      invariant left[..offset] == right[..offset]
    {
      if left[offset] != right[offset] {
        return Some(offset);
      }
    }
    if |left| != |right| {
      return Some(limit);
    }
    assert left == left[..limit] && right == right[..limit];
    return None;
  }

  /** `compare_streams`: reports nothing for equal streams, else the place of the first difference. */
  method CompareStreams(reference: bytes, other: bytes, h: Header)
    returns (difference: Option<(nat, Place)>, members: seq<Member>)
    requires Sizes(reference, h)
    ensures difference.None? <==> reference == other
    ensures difference.Some? ==>
              && FirstAt(reference, other, difference.value.0)
              && Tiles(reference, h, members) && Describes(members, difference.value.0, difference.value.1)
  {
    var offset := FirstDifference(reference, other);
    if offset.None? {
      return None, [];
    }
    var place, found := MemberAtOffset(reference, h, offset.value);
    return Some((offset.value, place)), found;
  }
}
