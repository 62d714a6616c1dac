/**
 What extraction guarantees about the destination, and that the consumer gets back exactly the
 members the producer archived.
 */
module PackRoundTrip {
  import opened Bytes
  import opened PackPaths
  import opened PackScan
  import opened PackArchive
  import opened PackExtract

  // ------------------------------------------------------------------ safety

  /** Following path segments from a directory, as the operating system does. */
  function Resolve(base: seq<string>, parts: seq<string>): seq<string>
    decreases |parts|
  {
    if parts == [] then base
    else if parts[0] == "" || parts[0] == "." then Resolve(base, parts[1..])
    else if parts[0] == ".." then Resolve(if base == [] then [] else base[..|base| - 1], parts[1..])
    else Resolve(base + [parts[0]], parts[1..])
  }

  lemma {:induction false} ResolvePlain(base: seq<string>, parts: seq<string>)
    requires forall part | part in parts :: part !in {"", ".", ".."}
    ensures Resolve(base, parts) == base + parts
    decreases |parts|
  {
    if parts == [] {
      assert base + [] == base;
    } else {
      assert parts[0] in parts && forall part | part in parts[1..] :: part in parts;
      ResolvePlain(base + [parts[0]], parts[1..]);
      Assoc(base, [parts[0]], parts[1..]);
      assert parts == [parts[0]] + parts[1..];
    }
  }

  /** A valid path leads to a place strictly inside the destination, at most eight levels down. */
  lemma InsideDestination(destination: seq<string>, path: string)
    requires CheckPackPath(path)
    ensures Resolve(destination, Split(path)) == destination + Split(path)
    ensures 0 < |Split(path)| <= MAX_DEPTH
  {
    hide PortableSegment;
    ResolvePlain(destination, Split(path));
  }

  ghost predicate PlainDistinct(entries: seq<ArchiveEntry>) {
    forall i, j | 0 <= i < j < |entries| :: entries[i].name != entries[j].name
  }

  lemma FrontDistinct(front: seq<ArchiveEntry>, e: ArchiveEntry)
    requires PlainDistinct(front + [e])
    ensures PlainDistinct(front) && e.name !in NamesIn(front)
  {
    var all := front + [e];
    assert all[|front|] == e && forall i | 0 <= i < |front| :: all[i] == front[i];
  }

  /** The files of a stream without repeated names are its file entries, each with its bytes. */
  lemma {:induction false} FilesHold(entries: seq<ArchiveEntry>)
    requires PlainDistinct(entries)
    ensures forall e | e in entries :: e.kind.RegularFile? <==> e.name in FilesIn(entries)
    ensures forall e | e in entries && e.kind.RegularFile? :: FilesIn(entries)[e.name] == e.data
    ensures forall n | n in FilesIn(entries) :: exists e | e in entries :: e.name == n && e.kind.RegularFile?
    ensures SumBytes(entries) == TotalBytes(FilesIn(entries))
  {
    if entries == [] {
      NoBytes();
    } else {
      var front, e := entries[..|entries| - 1], entries[|entries| - 1];
      assert entries == front + [e];
      FrontDistinct(front, e);
      FilesHold(front);
      FilesAreNamed(front);
      ContentGrows(front, e);
      if e.kind.RegularFile? {
        TotalAdd(FilesIn(front), e.name, e.data);
      }
      assert forall x | x in front :: x.name in NamesIn(front);
      hide FilesIn, SumBytes, TotalBytes, PlainDistinct, NamesIn;
      assert e in entries && forall x | x in front :: x in entries;
    }
  }

  lemma DistinctIsPlain(fold: string -> string, entries: seq<ArchiveEntry>)
    requires NamesDistinct(fold, entries)
    ensures PlainDistinct(entries) && FoldDistinct(fold, NamesIn(entries))
  {
    forall p, q | p in NamesIn(entries) && q in NamesIn(entries) && fold(p) == fold(q)
      ensures p == q
    {
      var i :| 0 <= i < |entries| && entries[i].name == p;
      var j :| 0 <= j < |entries| && entries[j].name == q;
      if i < j {
        assert fold(entries[i].name) != fold(entries[j].name);
      } else if j < i {
        assert fold(entries[j].name) != fold(entries[i].name);
      }
    }
  }

  lemma PlacedValid(entries: seq<ArchiveEntry>, p: string)
    requires (forall e | e in entries :: EntryValid(e)) && p in Placed(entries)
    ensures CheckPackPath(p)
  {
    hide CheckPackPath;
    if p !in NamesIn(entries) {
      var n :| n in NamesIn(entries) && p in Parents(n);
      ParentsValid(n, p);
    }
  }

  lemma ParentIsAbove(p: string)
    ensures '/' in p ==> Parent(p) in Parents(p)
  {
    ParentSplits(p);
  }

  lemma PlacedWellFormed(entries: seq<ArchiveEntry>)
    requires (forall e | e in entries :: EntryValid(e)) && NothingInTheWay(entries)
    ensures WellFormed(TreeOf(entries))
  {
    hide CheckPackPath, EntryValid, FilesIn, NamesIn, DirectoriesOf, Parents;
    forall p | p in TreeOf(entries)
      ensures p != "" && ('/' in p ==> Parent(p) in TreeOf(entries) && TreeOf(entries)[Parent(p)].Directory?)
    {
      PlacedValid(entries, p);
      NotEmpty(p);
      ParentIsAbove(p);
      if '/' in p {
        ParentIsName(NamesIn(entries), p, Parent(p));
      }
    }
  }

  lemma NotEmpty(p: string)
    requires CheckPackPath(p)
    ensures p != ""
  {
  }

  lemma TreeFiles(entries: seq<ArchiveEntry>)
    ensures FilesAmong(TreeOf(entries), Placed(entries)) == FilesIn(entries)
  {
    FilesAreNamed(entries);
    hide FilesIn, NamesIn, DirectoriesOf;
  }

  /**
   What every extraction guarantees, since what it leaves is the tree of an extractable stream: only
   valid paths, a well-formed tree, every file once with the bytes of its entry, and the limits.
   */
  lemma ExtractionIsSafe(fold: string -> string, entries: seq<ArchiveEntry>)
    requires Extractable(fold, entries)
    ensures forall p | p in TreeOf(entries) :: CheckPackPath(p)
    ensures WellFormed(TreeOf(entries))
    ensures forall e | e in entries ::
              && e.name in TreeOf(entries)
              && TreeOf(entries)[e.name] == if e.kind.RegularFile? then File(e.data) else Directory
    ensures FilesAmong(TreeOf(entries), Placed(entries)) == FilesIn(entries)
    ensures |entries| <= MAX_ENTRIES && TotalBytes(FilesIn(entries)) <= MAX_TOTAL_BYTES
    ensures forall p | p in FilesIn(entries) :: |FilesIn(entries)[p]| <= MAX_FILE_BYTES
    ensures FoldDistinct(fold, NamesIn(entries)) && PlainDistinct(entries)
  {
    hide CheckPackPath, FilesIn, SumBytes, TotalBytes, NamesIn, FilesAmong;
    DistinctIsPlain(fold, entries);
    FilesHold(entries);
    TreeFiles(entries);
    PlacedWellFormed(entries);
    forall p | p in TreeOf(entries)
      ensures CheckPackPath(p)
    {
      PlacedValid(entries, p);
    }
    EntriesAreNamed(entries);
    hide TreeOf, Placed;
    assert TreeOf(entries).Keys == Placed(entries) by {
      TreeKeys(entries);
    }
    forall e | e in entries
      ensures e.name in TreeOf(entries)
      ensures TreeOf(entries)[e.name] == if e.kind.RegularFile? then File(e.data) else Directory
    {
      TreeAt(entries, e.name);
    }
  }

  lemma EntriesAreNamed(entries: seq<ArchiveEntry>)
    ensures forall e | e in entries :: e.name in Placed(entries)
  {
  }

  // ------------------------------------------------------- producer, consumer

  /** The entries the producer writes for some members. */
  ghost function ArchiveOf(members: Files): seq<ArchiveEntry> {
    EntriesFor(members, Sorted(Names(members)))
  }

  lemma {:induction false} EntriesHold(members: Files, names: seq<string>)
    ensures NamesIn(EntriesFor(members, names)) == Elements(names)
    ensures FilesIn(EntriesFor(members, names)).Keys == members.Keys * Elements(names)
    ensures forall p | p in FilesIn(EntriesFor(members, names)) :: FilesIn(EntriesFor(members, names))[p] == members[p]
  {
    var entries := EntriesFor(members, names);
    if names != [] {
      var front, n := names[..|names| - 1], names[|names| - 1];
      EntriesHold(members, front);
      assert names == front + [n];
      assert entries == EntriesFor(members, front) + [EntryFor(members, n)];
      NamesGrow(EntriesFor(members, front), EntryFor(members, n));
      ContentGrows(EntriesFor(members, front), EntryFor(members, n));
      assert Elements(names) == Elements(front) + {n};
      hide NamesIn, FilesIn, Elements, EntriesFor;
    }
  }

  lemma NamesClosed(members: Files)
    ensures DirectoriesOf(Names(members)) == DirectoriesOf(members.Keys)
  {
    hide Parents;
    forall d | d in DirectoriesOf(Names(members))
      ensures d in DirectoriesOf(members.Keys)
    {
      var p :| p in Names(members) && d in Parents(p);
      ParentIsName(members.Keys, p, d);
    }
    forall d | d in DirectoriesOf(members.Keys)
      ensures d in DirectoriesOf(Names(members))
    {
      var p :| p in members && d in Parents(p);
      assert p in Names(members);
    }
  }

  lemma SortedPlain(members: Files, names: seq<string>)
    requires StrictlySorted(names)
    ensures PlainDistinct(EntriesFor(members, names))
  {
    var entries := EntriesFor(members, names);
    forall i, j | 0 <= i < j < |entries|
      ensures entries[i].name != entries[j].name
    {
      LessTotal(names[i], names[j]);
    }
  }

  /** What an archive of some members contains. */
  lemma ArchiveHolds(members: Files)
    ensures var entries := ArchiveOf(members);
            && FilesIn(entries) == members && NamesIn(entries) == Names(members) && Placed(entries) == Names(members)
            && DirectoriesOf(NamesIn(entries)) == DirectoriesOf(members.Keys)
            && PlainDistinct(entries) && |entries| == |Names(members)|
  {
    hide FilesIn, NamesIn, DirectoriesOf, EntriesFor, PlainDistinct, StrictlySorted, Elements;
    var names, entries := Sorted(Names(members)), ArchiveOf(members);
    EntriesHold(members, names);
    NamesClosed(members);
    SortedSize(names);
    SortedPlain(members, names);
    assert FilesIn(entries).Keys == members.Keys;
  }

  /** Paths that can be members together: valid, distinct when folded, and no file where a directory is needed. */
  ghost predicate MembersOk(fold: string -> string, members: Files) {
    && (forall p | p in members :: CheckPackPath(p))
    && FoldDistinct(fold, Names(members)) && members.Keys !! DirectoriesOf(members.Keys)
  }

  lemma NamesValid(members: Files, n: string)
    requires (forall p | p in members :: CheckPackPath(p)) && n in Names(members)
    ensures CheckPackPath(n)
  {
    hide CheckPackPath;
    if n !in members {
      var p :| p in members && n in Parents(p);
      ParentsValid(p, n);
    }
  }

  lemma EntryForValid(members: Files, n: string)
    requires (n in members ==> MemberOk(n, members[n])) && CheckPackPath(n)
    ensures EntryValid(EntryFor(members, n))
  {
    hide CheckPackPath, Split;
  }

  lemma EntriesValid(members: Files)
    requires LimitsOk(members)
    ensures (forall e | e in ArchiveOf(members) :: EntryValid(e)) <==> forall p | p in members :: CheckPackPath(p)
  {
    hide CheckPackPath, TotalBytes, DirectoriesOf, EntryFor, EntryValid, MemberOk, StrictlySorted;
    var names, entries := Sorted(Names(members)), ArchiveOf(members);
    if forall p | p in members :: CheckPackPath(p) {
      forall e | e in entries
        ensures EntryValid(e)
      {
        var i :| 0 <= i < |entries| && entries[i] == e;
        assert names[i] in Elements(names);
        NamesValid(members, names[i]);
        EntryForValid(members, names[i]);
      }
    }
    if forall e | e in entries :: EntryValid(e) {
      forall p | p in members
        ensures CheckPackPath(p)
      {
        assert p in Elements(names);
        var i :| 0 <= i < |names| && names[i] == p;
        assert EntryValid(entries[i]);
        ValidName(members, p);
      }
    }
  }

  lemma ValidName(members: Files, n: string)
    requires EntryValid(EntryFor(members, n))
    ensures CheckPackPath(n)
  {
    hide CheckPackPath;
  }

  lemma NamesFew(members: Files)
    requires LimitsOk(members)
    ensures |Names(members)| <= MAX_ENTRIES
  {
  }

  lemma FoldedNames(fold: string -> string, entries: seq<ArchiveEntry>)
    requires PlainDistinct(entries)
    ensures NamesDistinct(fold, entries) <==> FoldDistinct(fold, NamesIn(entries))
  {
    if NamesDistinct(fold, entries) {
      DistinctIsPlain(fold, entries);
    }
    if FoldDistinct(fold, NamesIn(entries)) {
      forall i, j | 0 <= i < j < |entries|
        ensures fold(entries[i].name) != fold(entries[j].name)
      {
        assert entries[i].name in NamesIn(entries) && entries[j].name in NamesIn(entries);
      }
    }
  }

  /**
   The consumer extracts the archive of some members exactly when those can be members together, and
   then the destination holds these files with their bytes and their directories, nothing else.
   */
  lemma ExtractsBack(fold: string -> string, members: Files)
    requires LimitsOk(members)
    ensures Extractable(fold, ArchiveOf(members)) <==> MembersOk(fold, members)
    ensures FilesIn(ArchiveOf(members)) == members
    ensures TreeOf(ArchiveOf(members))
         == map n | n in Names(members) :: if n in members then File(members[n]) else Directory
  {
    hide CheckPackPath, FilesIn, NamesIn, TotalBytes, SumBytes, DirectoriesOf;
    var entries := ArchiveOf(members);
    ArchiveHolds(members);
    EntriesValid(members);
    NamesFew(members);
    FilesHold(entries);
    FoldedNames(fold, entries);
    hide EntryValid, NamesDistinct, FoldDistinct, PlainDistinct, Names, ArchiveOf, MemberOk;
  }
}
