/**
 The producer of a pack archive: which entries are written, in which order and within which limits.
 */
module PackArchive {
  import opened Bytes
  import opened PackPaths
  import opened PackScan

  // ----------------------------------------------------------------- entries

  datatype Kind = RegularFile | DirectoryEntry | SymbolicLink | HardLink | SpecialFile

  /** One archive entry; `data` is empty for a directory. */
  datatype ArchiveEntry = ArchiveEntry(name: string, kind: Kind, mode: nat, data: bytes)

  const MAX_ENTRIES: nat := 2000
  const FILE_MODE: nat := 420
  const DIRECTORY_MODE: nat := 493

  // ---------------------------------------------------------------- producer

  /** Every directory above one of the paths. */
  function DirectoriesOf(paths: set<string>): set<string> {
    set p, d | p in paths && d in Parents(p) :: d
  }

  function Names(members: Files): set<string> {
    members.Keys + DirectoriesOf(members.Keys)
  }

  function EntryFor(members: Files, name: string): ArchiveEntry {
    if name in members then ArchiveEntry(name, RegularFile, FILE_MODE, members[name])
    else ArchiveEntry(name, DirectoryEntry, DIRECTORY_MODE, [])
  }

  function EntriesFor(members: Files, names: seq<string>): (r: seq<ArchiveEntry>)
    ensures |r| == |names|
  {
    seq(|names|, i requires 0 <= i < |names| => EntryFor(members, names[i]))
  }

  /** One member's own limits. */
  predicate MemberOk(path: string, data: bytes) {
    |data| <= MAX_FILE_BYTES && |Split(path)| <= MAX_DEPTH
  }

  /** The limits on the archive as it will be written. */
  ghost predicate LimitsOk(members: Files) {
    && |members| + |DirectoriesOf(members.Keys)| <= MAX_ENTRIES
    && (forall p | p in members :: MemberOk(p, members[p]))
    && TotalBytes(members) <= MAX_TOTAL_BYTES
  }

  /** The archive of some members: files and their directories in path order. */
  ghost function Rendered(members: Files): Option<seq<ArchiveEntry>> {
    if LimitsOk(members) then Some(EntriesFor(members, Sorted(Names(members)))) else None
  }

  /** The archive, if there is one: 2000 entries, 1 MiB a file, 16 MiB in all, eight levels; modes 644 and 755. */
  lemma RenderedExactly(members: Files)
    ensures Rendered(members).Some? <==>
              && |members| + |DirectoriesOf(members.Keys)| <= 2000 && TotalBytes(members) <= 16 * 1024 * 1024
              && forall p | p in members :: |members[p]| <= 1024 * 1024 && |Split(p)| <= 8
    ensures Rendered(members).Some? ==>
              forall e | e in Rendered(members).value ::
                if e.name in members then e == ArchiveEntry(e.name, RegularFile, 6 * 64 + 4 * 8 + 4, members[e.name])
                else e == ArchiveEntry(e.name, DirectoryEntry, 7 * 64 + 5 * 8 + 5, [])
  {
    hide Sorted, TotalBytes, Split, DirectoriesOf;
  }

  /** `directories_of`: the leading parts of each split path, joined again, without repetition. */
  method DirectoryList(paths: set<string>) returns (r: seq<string>)
    ensures StrictlySorted(r) && Elements(r) == DirectoriesOf(paths)
  {
    var found: set<string> := {};
    var left := paths;
    while left != {}
      invariant left <= paths && found == DirectoriesOf(paths - left)
      decreases left
    {
      var path :| path in left;
      var parts := Split(path);
      ghost var before := found;
      for end := 1 to |parts|
        invariant found == before + (set k | 1 <= k < end :: Join(parts[..k]))
      {
        found := found + {Join(parts[..end])};
      }
      PartsAreAllParents(path);
      left := left - {path};
      OneMorePath(paths - left - {path}, path);
      assert paths - left == paths - left - {path} + {path};
    }
    assert paths - left == paths;
    r := Sort(found);
  }

  lemma PartsAreAllParents(path: string)
    ensures (set k | 1 <= k < |Split(path)| :: Join(Split(path)[..k])) == Parents(path)
  {
    forall k | 1 <= k < |Split(path)|
      ensures Join(Split(path)[..k]) in Parents(path)
    {
      PartsAreParents(path, k);
    }
    forall d | d in Parents(path)
      ensures d in (set k | 1 <= k < |Split(path)| :: Join(Split(path)[..k]))
    {
      var k := ParentsAreParts(path, d);
    }
  }

  lemma OneMorePath(paths: set<string>, path: string)
    ensures DirectoriesOf(paths + {path}) == DirectoriesOf(paths) + Parents(path)
  {
    forall d | d in Parents(path)
      ensures d in DirectoriesOf(paths + {path})
    {
      assert path in paths + {path};
    }
  }

  /** `check_limits`. */
  method CheckLimits(members: Files, directories: seq<string>) returns (ok: bool)
    requires StrictlySorted(directories) && Elements(directories) == DirectoriesOf(members.Keys)
    ensures ok <==> LimitsOk(members)
  {
    hide TotalBytes, MemberOk, DirectoriesOf, StrictlySorted;
    SortedSize(directories);
    if |members| + |directories| > MAX_ENTRIES {
      return false;
    }
    var total, left := 0, members.Keys;
    NoBytes();
    ghost var done: Files := map[];
    while left != {}
      invariant done.Keys == members.Keys - left && left <= members.Keys
      invariant forall p | p in done :: done[p] == members[p] && MemberOk(p, done[p])
      invariant total == TotalBytes(done)
      decreases left
    {
      var path :| path in left;
      if !MemberOk(path, members[path]) {
        return false;
      }
      TotalAdd(done, path, members[path]);
      done := done[path := members[path]];
      left, total := left - {path}, total + |members[path]|;
    }
    assert done == members;
    ok := total <= MAX_TOTAL_BYTES;
  }

  lemma NoBytes()
    ensures TotalBytes(map[]) == 0
  {
  }

  lemma {:induction false} SortedSize(s: seq<string>)
    requires StrictlySorted(s)
    ensures |Elements(s)| == |s|
  {
    if s == [] {
      assert Elements(s) == {};
    } else {
      TailElements(s);
      SortedSize(s[1..]);
      assert s[0] in Elements(s);
    }
  }

  /** `render_archive`, entry order and content. */
  method RenderArchive(members: Files) returns (r: Option<seq<ArchiveEntry>>)
    ensures r == Rendered(members)
  {
    hide LimitsOk;
    var directories := DirectoryList(members.Keys);
    var ok := CheckLimits(members, directories);
    if !ok {
      return None;
    }
    var names := Sort(members.Keys + set d | d in directories);
    assert (set d | d in directories) == Elements(directories);
    SortedIs(names);
    var entries: seq<ArchiveEntry> := [];
    for i := 0 to |names|
      invariant |entries| == i && forall k | 0 <= k < i :: entries[k] == EntryFor(members, names[k])
    {
      var name := names[i];
      if name in members {
        entries := entries + [ArchiveEntry(name, RegularFile, FILE_MODE, members[name])];
      } else {
        entries := entries + [ArchiveEntry(name, DirectoryEntry, DIRECTORY_MODE, [])];
      }
    }
    assert entries == EntriesFor(members, names);
    return Some(entries);
  }

  /** In the archive of some members every directory comes before what is inside it. */
  lemma DirectoriesFirst(members: Files, names: seq<string>, i: nat, d: string)
    requires StrictlySorted(names) && Elements(names) == Names(members)
    requires i < |names| && d in Parents(names[i])
    ensures exists j | 0 <= j < i :: names[j] == d
  {
    var path := names[i];
    ParentIsName(members.Keys, path, d);
    assert d in Elements(names);
    var j :| 0 <= j < |names| && names[j] == d;
    var k :| 0 <= k < |path| && path[k] == '/' && path[..k] == d;
    PrefixLess(d, path);
    SortedBefore(names, j, i);
  }

  lemma SortedBefore(names: seq<string>, j: nat, i: nat)
    requires StrictlySorted(names) && j < |names| && i < |names| && Less(names[j], names[i])
    ensures j < i
  {
    LessTotal(names[i], names[j]);
  }

  /** The paths of a set and their directories contain every directory above any of them. */
  lemma ParentIsName(paths: set<string>, path: string, d: string)
    requires path in paths + DirectoriesOf(paths) && d in Parents(path)
    ensures d in DirectoriesOf(paths)
  {
    if path in paths {
      assert d in DirectoriesOf(paths);
    } else {
      var p :| p in paths && path in Parents(p);
      ParentsTransitive(p, path, d);
    }
  }

  lemma ParentsTransitive(p: string, q: string, d: string)
    requires q in Parents(p) && d in Parents(q)
    ensures d in Parents(p)
  {
    var i :| 0 <= i < |p| && p[i] == '/' && p[..i] == q;
    var j :| 0 <= j < |q| && q[j] == '/' && q[..j] == d;
    assert p[j] == '/' && p[..j] == d;
  }
}
