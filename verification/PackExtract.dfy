/**
 The consumer of a pack archive: what an archive must be to be extracted, what extraction leaves in
 the destination, and the extractor's loop, which decides and does this entry by entry.
 */
module PackExtract {
  import opened Bytes
  import opened PackPaths
  import opened PackScan
  import opened PackArchive

  /** How a stream ends: properly, at a header that cannot be read, or inside the data of a last entry. */
  datatype End = Complete | DamagedHeader | DamagedData(last: ArchiveEntry)

  datatype Archive = Archive(entries: seq<ArchiveEntry>, end: End)

  /** The setuid, setgid and sticky bits, `mode & 0o7000`. */
  predicate SpecialBits(mode: nat) {
    mode / 512 % 8 != 0
  }

  // ---------------------------------------------------- what a stream contains

  function NamesIn(entries: seq<ArchiveEntry>): set<string> {
    set e | e in entries :: e.name
  }

  /** The files of a stream by name; a later entry of the same name wins. */
  function FilesIn(entries: seq<ArchiveEntry>): Files {
    if entries == [] then map[]
    else
      var e, before := entries[|entries| - 1], FilesIn(entries[..|entries| - 1]);
      if e.kind.RegularFile? then before[e.name := e.data] else before
  }

  /** The sizes of the file entries, added up. */
  function SumBytes(entries: seq<ArchiveEntry>): nat {
    if entries == [] then 0
    else
      var e, before := entries[|entries| - 1], SumBytes(entries[..|entries| - 1]);
      if e.kind.RegularFile? then before + |e.data| else before
  }

  /** The names a stream creates: its own and those of the directories above them. */
  function Placed(entries: seq<ArchiveEntry>): set<string> {
    NamesIn(entries) + DirectoriesOf(NamesIn(entries))
  }

  /** The destination after a stream has been extracted. */
  function TreeOf(entries: seq<ArchiveEntry>): Tree {
    map n | n in Placed(entries) :: if n in FilesIn(entries) then File(FilesIn(entries)[n]) else Directory
  }

  // ------------------------------------------------------ what is extractable

  predicate EntryValid(e: ArchiveEntry) {
    && CheckPackPath(e.name) && (e.kind.RegularFile? || e.kind.DirectoryEntry?) && !SpecialBits(e.mode)
    && (e.kind.RegularFile? ==> |e.data| <= MAX_FILE_BYTES)
  }

  /** An entry is valid when it is a file of at most 1 MiB or a directory, has a valid path and no special bit. */
  lemma EntryExactly(e: ArchiveEntry)
    ensures EntryValid(e) <==>
              && CheckPackPath(e.name)
              && (e.kind.DirectoryEntry? || (e.kind.RegularFile? && |e.data| <= 1024 * 1024))
              && e.mode / 2048 % 2 == 0 && e.mode / 1024 % 2 == 0 && e.mode / 512 % 2 == 0
  {
    hide CheckPackPath;
    OctalDigit(e.mode / 512);
    Halves(e.mode);
  }

  lemma Halves(mode: nat)
    ensures mode / 1024 == mode / 512 / 2 && mode / 2048 == mode / 512 / 2 / 2
  {
  }

  lemma OctalDigit(high: nat)
    ensures high % 8 == 0 <==> high % 2 == 0 && high / 2 % 2 == 0 && high / 2 / 2 % 2 == 0
  {
    Halve(high);
    Halve(high / 2);
    Halve(high / 2 / 2);
    ThreeBits(high, high / 2 / 2 / 2, high % 2, high / 2 % 2, high / 2 / 2 % 2);
  }

  lemma Halve(n: nat)
    ensures n == 2 * (n / 2) + n % 2
  {
  }

  lemma ThreeBits(high: nat, q: nat, a: nat, b: nat, c: nat)
    requires a < 2 && b < 2 && c < 2 && high == 8 * q + 4 * c + 2 * b + a
    ensures high % 8 == 0 <==> a == 0 && b == 0 && c == 0
  {
  }

  /** No two entries have the same name, even after case folding. */
  ghost predicate NamesDistinct(fold: string -> string, entries: seq<ArchiveEntry>) {
    forall i, j | 0 <= i < j < |entries| :: fold(entries[i].name) != fold(entries[j].name)
  }

  ghost predicate Admissible(fold: string -> string, entries: seq<ArchiveEntry>) {
    && |entries| <= MAX_ENTRIES && (forall e | e in entries :: EntryValid(e))
    && NamesDistinct(fold, entries) && SumBytes(entries) <= MAX_TOTAL_BYTES
  }

  /** No file is where another entry needs a directory. */
  ghost predicate NothingInTheWay(entries: seq<ArchiveEntry>) {
    FilesIn(entries).Keys !! DirectoriesOf(NamesIn(entries))
  }

  ghost predicate Extractable(fold: string -> string, entries: seq<ArchiveEntry>) {
    Admissible(fold, entries) && NothingInTheWay(entries)
  }

  lemma NamesGrow(front: seq<ArchiveEntry>, e: ArchiveEntry)
    ensures NamesIn(front + [e]) == NamesIn(front) + {e.name}
    ensures DirectoriesOf(NamesIn(front + [e])) == DirectoriesOf(NamesIn(front)) + Parents(e.name)
    ensures Placed(front + [e]) == Placed(front) + Parents(e.name) + {e.name}
  {
    assert NamesIn(front + [e]) == NamesIn(front) + {e.name};
    OneMorePath(NamesIn(front), e.name);
    hide Parents, DirectoriesOf;
  }

  lemma ContentGrows(front: seq<ArchiveEntry>, e: ArchiveEntry)
    ensures FilesIn(front + [e]) == if e.kind.RegularFile? then FilesIn(front)[e.name := e.data] else FilesIn(front)
    ensures SumBytes(front + [e]) == SumBytes(front) + if e.kind.RegularFile? then |e.data| else 0
  {
    assert (front + [e])[..|front|] == front;
  }

  lemma {:induction false} FilesAreNamed(entries: seq<ArchiveEntry>)
    ensures FilesIn(entries).Keys <= NamesIn(entries)
  {
    if entries != [] {
      var front, e := entries[..|entries| - 1], entries[|entries| - 1];
      assert entries == front + [e];
      FilesAreNamed(front);
      NamesGrow(front, e);
      hide NamesIn;
    }
  }

  lemma ParentsShorter(path: string, d: string)
    requires d in Parents(path)
    ensures |d| < |path|
  {
  }

  /** Admitting one more entry, in terms of what is already known of the entries before it. */
  lemma AdmitOne(fold: string -> string, front: seq<ArchiveEntry>, e: ArchiveEntry)
    ensures Admissible(fold, front + [e])
       <==> && Admissible(fold, front) && |front| < 2000 && EntryValid(e)
            && (forall n | n in NamesIn(front) :: fold(n) != fold(e.name))
            && SumBytes(front + [e]) <= 16 * 1024 * 1024
  {
    hide EntryValid, SumBytes, FilesIn;
    var all := front + [e];
    ContentGrows(front, e);
    forall x
      ensures x in all <==> x in front || x == e
    {
    }
    if NamesDistinct(fold, all) {
      forall n | n in NamesIn(front)
        ensures fold(n) != fold(e.name)
      {
        var i :| 0 <= i < |front| && front[i].name == n;
        assert all[i] == front[i] && all[|front|] == e;
      }
      assert NamesDistinct(fold, front) by {
        assert forall i | 0 <= i < |front| :: all[i] == front[i];
      }
    }
    if NamesDistinct(fold, front) && forall n | n in NamesIn(front) :: fold(n) != fold(e.name) {
      forall i, j | 0 <= i < j < |all|
        ensures fold(all[i].name) != fold(all[j].name)
      {
        assert all[i] == front[i] && front[i].name in NamesIn(front);
      }
    }
  }

  /** The attempt to create a further entry fails exactly when a file is in the way. */
  lemma WayOfOne(front: seq<ArchiveEntry>, e: ArchiveEntry)
    requires NothingInTheWay(front) && e.name !in NamesIn(front)
    ensures NothingInTheWay(front + [e])
       <==> && (forall d | d in Parents(e.name) && d in TreeOf(front) :: TreeOf(front)[d].Directory?)
            && (e.kind.RegularFile? ==> e.name !in TreeOf(front))
  {
    NamesGrow(front, e);
    ContentGrows(front, e);
    FilesAreNamed(front);
    assert e.name !in Parents(e.name) by {
      if e.name in Parents(e.name) {
        ParentsShorter(e.name, e.name);
      }
    }
    hide FilesIn, NamesIn, DirectoriesOf, Parents;
  }

  /** A destination after `mkdir` has made some directories. */
  function WithDirectories(tree: Tree, dirs: set<string>): Tree {
    tree + map d | d in dirs :: Directory
  }

  lemma TreeAt(entries: seq<ArchiveEntry>, n: string)
    requires n in Placed(entries)
    ensures n in TreeOf(entries)
    ensures TreeOf(entries)[n] == if n in FilesIn(entries) then File(FilesIn(entries)[n]) else Directory
  {
  }

  lemma TreeKeys(entries: seq<ArchiveEntry>)
    ensures TreeOf(entries).Keys == Placed(entries)
  {
  }

  lemma TreeGrows(front: seq<ArchiveEntry>, e: ArchiveEntry)
    requires NothingInTheWay(front + [e]) && e.name !in NamesIn(front)
    ensures var node := if e.kind.RegularFile? then File(e.data) else Directory;
            TreeOf(front + [e]) == WithDirectories(TreeOf(front), Parents(e.name))[e.name := node]
  {
    var all, node := front + [e], if e.kind.RegularFile? then File(e.data) else Directory;
    var grown := WithDirectories(TreeOf(front), Parents(e.name))[e.name := node];
    hide TreeOf, Placed, NamesIn, FilesIn, DirectoriesOf, Parents, NothingInTheWay;
    NamesGrow(front, e);
    ContentGrows(front, e);
    FilesAreNamed(front);
    TreeKeys(front);
    TreeKeys(all);
    assert grown.Keys == Placed(all);
    forall n | n in Placed(all)
      ensures TreeOf(all)[n] == grown[n]
    {
      NodeGrows(front, e, n);
    }
  }

  /** What one name is before and after one more entry. */
  lemma NodeGrows(front: seq<ArchiveEntry>, e: ArchiveEntry, n: string)
    requires NothingInTheWay(front + [e]) && e.name !in NamesIn(front) && n in Placed(front + [e])
    ensures var was, now := TreeOf(front), TreeOf(front + [e]);
            && n in now
            && (if n == e.name then now[n] == if e.kind.RegularFile? then File(e.data) else Directory
                else if n in Parents(e.name) then now[n] == Directory
                else n in was && now[n] == was[n])
  {
    NamesGrow(front, e);
    ContentGrows(front, e);
    FilesAreNamed(front);
    TreeAt(front + [e], n);
    if n in Placed(front) {
      TreeAt(front, n);
    }
    hide FilesIn, NamesIn, DirectoriesOf, Parents, TreeOf, Placed;
  }

  lemma WayBack(front: seq<ArchiveEntry>, e: ArchiveEntry)
    requires NothingInTheWay(front + [e])
    ensures NothingInTheWay(front)
  {
    NamesGrow(front, e);
    ContentGrows(front, e);
    hide FilesIn, NamesIn, DirectoriesOf, Parents;
  }

  /** Every prefix of an extractable stream is extractable. */
  lemma {:induction false} PrefixExtractable(fold: string -> string, entries: seq<ArchiveEntry>, k: nat)
    requires k <= |entries| && Extractable(fold, entries)
    ensures Extractable(fold, entries[..k])
  {
    if k == |entries| {
      assert entries[..k] == entries;
    } else {
      var front, e := entries[..|entries| - 1], entries[|entries| - 1];
      assert entries == front + [e] && entries[..k] == front[..k];
      hide Admissible, NothingInTheWay, EntryValid, NamesIn;
      AdmitOne(fold, front, e);
      WayBack(front, e);
      PrefixExtractable(fold, front, k);
    }
  }

  // ------------------------------------------------------------ the extractor

  /** The extractor's tables and counters, and the directory it extracts into. */
  datatype Extracting = Extracting(
    tree: Tree, seen: set<string>, folded: map<string, string>, entries: nat, total: nat, written: nat)

  datatype Refusal = Invalid | Unreadable

  /** The variables after some entries have been extracted. */
  ghost predicate Reached(fold: string -> string, s: Extracting, entries: seq<ArchiveEntry>) {
    && s.tree == TreeOf(entries) && s.seen == NamesIn(entries) && FoldTable(fold, s.folded, s.seen)
    && s.entries == |entries| && s.total == SumBytes(entries) && s.written == |FilesIn(entries)|
  }

  /** `mkdir(parents=True, exist_ok=True)` fails when something else than a directory is in the way. */
  method MakeDirectories(tree: Tree, dirs: set<string>) returns (ok: bool, tree': Tree)
    ensures ok <==> forall d | d in dirs && d in tree :: tree[d].Directory?
    ensures tree' == if ok then WithDirectories(tree, dirs) else tree
  {
    if d :| d in dirs && d in tree && !tree[d].Directory? {
      return false, tree;
    }
    return true, WithDirectories(tree, dirs);
  }

  /** Every check that does not look at the destination, against the tables. */
  predicate ChecksPass(fold: string -> string, s: Extracting, e: ArchiveEntry) {
    && s.entries < MAX_ENTRIES && CheckMemberPath(e.name) && (e.kind.RegularFile? || e.kind.DirectoryEntry?)
    && !SpecialBits(e.mode) && e.name !in s.seen && fold(e.name) !in s.folded
    && (e.kind.RegularFile? ==> |e.data| <= MAX_FILE_BYTES && s.total + |e.data| <= MAX_TOTAL_BYTES)
  }

  lemma ChecksDecide(fold: string -> string, s: Extracting, front: seq<ArchiveEntry>, e: ArchiveEntry)
    requires Reached(fold, s, front) && Admissible(fold, front)
    ensures ChecksPass(fold, s, e) <==> Admissible(fold, front + [e])
  {
    hide CheckMemberPath, CheckPackPath, SpecialBits, NamesDistinct, FilesIn, TreeOf, SumBytes, NamesIn;
    MemberPathAgrees(e.name);
    AdmitOne(fold, front, e);
    ContentGrows(front, e);
    if e.name in s.seen {
      assert fold(e.name) in s.folded;
    }
  }

  /** The tables with one more entry in them. */
  function AfterMember(fold: string -> string, s: Extracting, e: ArchiveEntry, tree: Tree): Extracting {
    var t := Extracting(tree, s.seen + {e.name}, s.folded[fold(e.name) := e.name], s.entries + 1, s.total, s.written);
    if e.kind.RegularFile? then t.(total := s.total + |e.data|, written := s.written + 1) else t
  }

  lemma TablesGrow(fold: string -> string, s: Extracting, front: seq<ArchiveEntry>, e: ArchiveEntry, tree: Tree)
    requires Reached(fold, s, front) && tree == TreeOf(front + [e]) && e.name !in s.seen && fold(e.name) !in s.folded
    ensures Reached(fold, AfterMember(fold, s, e, tree), front + [e])
  {
    hide FilesIn, TreeOf, SumBytes, NamesIn, FoldTable;
    CountsGrow(front, e);
    FoldTableGrows(fold, s.folded, s.seen, e.name);
  }

  lemma CountsGrow(front: seq<ArchiveEntry>, e: ArchiveEntry)
    requires e.name !in NamesIn(front)
    ensures NamesIn(front + [e]) == NamesIn(front) + {e.name}
    ensures |FilesIn(front + [e])| == |FilesIn(front)| + if e.kind.RegularFile? then 1 else 0
    ensures SumBytes(front + [e]) == SumBytes(front) + if e.kind.RegularFile? then |e.data| else 0
  {
    NamesGrow(front, e);
    ContentGrows(front, e);
    FilesAreNamed(front);
    hide FilesIn, SumBytes, NamesIn, Placed, DirectoriesOf, Parents;
    if e.kind.RegularFile? {
      assert FilesIn(front + [e]).Keys == FilesIn(front).Keys + {e.name};
    }
  }

  /** An entry whose data turns out to be unreadable: its file has been created but stays empty. */
  function Emptied(e: ArchiveEntry): ArchiveEntry {
    e.(data := [])
  }

  /** A name that exists already has its directories already. */
  lemma DirectoriesExist(entries: seq<ArchiveEntry>, name: string)
    requires NothingInTheWay(entries) && name in TreeOf(entries)
    ensures WithDirectories(TreeOf(entries), Parents(name)) == TreeOf(entries)
  {
    forall d | d in Parents(name)
      ensures d in TreeOf(entries) && TreeOf(entries)[d] == Directory
    {
      ParentIsName(NamesIn(entries), name, d);
    }
  }

  lemma OneMoreDirectory(tree: Tree, dirs: set<string>, n: string)
    ensures WithDirectories(tree, dirs + {n}) == WithDirectories(tree, dirs)[n := Directory]
  {
  }

  /** What the attempt to create a directory does, given the destination so far. */
  lemma DirectoryDecides(front: seq<ArchiveEntry>, e: ArchiveEntry)
    requires NothingInTheWay(front) && e.name !in NamesIn(front) && e.kind.DirectoryEntry?
    ensures var tree, needed := TreeOf(front), Parents(e.name) + {e.name};
            && (NothingInTheWay(front + [e]) <==> forall d | d in needed && d in tree :: tree[d].Directory?)
            && (NothingInTheWay(front + [e]) ==> TreeOf(front + [e]) == WithDirectories(tree, needed))
  {
    hide NothingInTheWay;
    WayOfOne(front, e);
    if NothingInTheWay(front + [e]) {
      TreeGrows(front, e);
      OneMoreDirectory(TreeOf(front), Parents(e.name), e.name);
    }
    hide TreeOf, NamesIn, Parents, WithDirectories;
    if e.name in TreeOf(front) {
      NotAFile(front, e.name);
    }
  }

  /** What the attempt to create a file does, given the destination so far. */
  lemma FileDecides(front: seq<ArchiveEntry>, e: ArchiveEntry)
    requires NothingInTheWay(front) && e.name !in NamesIn(front) && e.kind.RegularFile?
    ensures var tree, made := TreeOf(front), WithDirectories(TreeOf(front), Parents(e.name));
            && (NothingInTheWay(front + [e])
                <==> (forall d | d in Parents(e.name) && d in tree :: tree[d].Directory?) && e.name !in made)
            && (NothingInTheWay(front + [e]) ==> TreeOf(front + [e]) == made[e.name := File(e.data)])
            && (e.name in made ==> made == tree)
  {
    hide NothingInTheWay;
    WayOfOne(front, e);
    if NothingInTheWay(front + [e]) {
      TreeGrows(front, e);
    }
    if e.name in Parents(e.name) {
      ParentsShorter(e.name, e.name);
    }
    if e.name in TreeOf(front) {
      DirectoriesExist(front, e.name);
    }
    hide TreeOf, NamesIn, Parents;
  }

  lemma NotAFile(entries: seq<ArchiveEntry>, name: string)
    requires name !in NamesIn(entries) && name in TreeOf(entries)
    ensures TreeOf(entries)[name] == Directory
  {
    FilesAreNamed(entries);
  }

  /** An entry with and without its bytes needs the same directories. */
  lemma EmptyFile(front: seq<ArchiveEntry>, e: ArchiveEntry)
    requires NothingInTheWay(front + [e])
    ensures NothingInTheWay(front + [Emptied(e)])
    ensures e.kind.RegularFile? ==> TreeOf(front + [Emptied(e)]) == TreeOf(front + [e])[e.name := File([])]
    ensures e.kind.DirectoryEntry? ==> TreeOf(front + [Emptied(e)]) == TreeOf(front + [e])
  {
    NamesGrow(front, e);
    NamesGrow(front, Emptied(e));
    ContentGrows(front, e);
    ContentGrows(front, Emptied(e));
    hide FilesIn, NamesIn, DirectoriesOf, Parents;
  }

  /** What a run may leave of an entry it did not finish: nothing, or its file without its bytes. */
  ghost function Leftover(fold: string -> string, front: seq<ArchiveEntry>, e: ArchiveEntry): Tree {
    if Extractable(fold, front + [e]) then TreeOf(front + [Emptied(e)]) else TreeOf(front)
  }

  lemma EmptiedValid(e: ArchiveEntry)
    requires EntryValid(e)
    ensures EntryValid(Emptied(e))
  {
    hide CheckPackPath, SpecialBits;
  }

  /** What is left is in every case the tree of an extractable stream. */
  lemma LeftoverExtractable(fold: string -> string, front: seq<ArchiveEntry>, e: ArchiveEntry)
    requires Extractable(fold, front)
    ensures exists es :: Extractable(fold, es) && Leftover(fold, front, e) == TreeOf(es)
  {
    if Extractable(fold, front + [e]) {
      hide EntryValid, NamesIn, NothingInTheWay, TreeOf, FilesIn, SumBytes;
      AdmitOne(fold, front, e);
      AdmitOne(fold, front, Emptied(e));
      ContentGrows(front, e);
      ContentGrows(front, Emptied(e));
      EmptiedValid(e);
      EmptyFile(front, e);
      assert Extractable(fold, front + [Emptied(e)]);
    } else {
      hide Extractable, TreeOf;
      assert Leftover(fold, front, e) == TreeOf(front);
    }
  }

  /** One entry of the stream, from the counter to the file: the checks in the order the program makes them. */
  method ExtractMember(fold: string -> string, s: Extracting, e: ArchiveEntry, readable: bool,
                       ghost front: seq<ArchiveEntry>)
    returns (failure: Option<Refusal>, s': Extracting)
    requires Reached(fold, s, front) && Extractable(fold, front)
    ensures failure.None? <==> Extractable(fold, front + [e]) && (readable || e.kind.DirectoryEntry?)
    ensures failure == Some(Invalid) <==> !Admissible(fold, front + [e])
    ensures failure.None? ==> Reached(fold, s', front + [e])
    ensures failure.Some? ==> s'.tree == Leftover(fold, front, e)
  {
    hide CheckMemberPath, SpecialBits, NothingInTheWay, Admissible, NamesIn, FilesIn, SumBytes, FoldTable;
    hide TreeOf, Parents;
    ChecksDecide(fold, s, front, e);
    s' := s.(entries := s.entries + 1);
    if s'.entries > MAX_ENTRIES {
      return Some(Invalid), s';
    }
    if !CheckMemberPath(e.name) || !(e.kind.RegularFile? || e.kind.DirectoryEntry?) || SpecialBits(e.mode) {
      return Some(Invalid), s';
    }
    if e.name in s.seen || fold(e.name) in s.folded {
      return Some(Invalid), s';
    }
    s' := s'.(seen := s.seen + {e.name}, folded := s.folded[fold(e.name) := e.name]);
    if e.kind.DirectoryEntry? {
      DirectoryDecides(front, e);
      var ok, tree := MakeDirectories(s.tree, Parents(e.name) + {e.name});
      if !ok {
        return Some(Unreadable), s';
      }
      s' := s'.(tree := tree);
      TablesGrow(fold, s, front, e, tree);
      return None, s';
    }
    if |e.data| > MAX_FILE_BYTES {
      return Some(Invalid), s';
    }
    s' := s'.(total := s.total + |e.data|);
    if s'.total > MAX_TOTAL_BYTES {
      return Some(Invalid), s';
    }
    FileDecides(front, e);
    var ok, tree := MakeDirectories(s.tree, Parents(e.name));
    s' := s'.(tree := tree);
    if !ok || e.name in tree {
      return Some(Unreadable), s';
    }
    s' := s'.(tree := tree[e.name := File([])]);
    if !readable {
      EmptyFile(front, e);
      return Some(Unreadable), s';
    }
    s' := s'.(tree := tree[e.name := File(e.data)], written := s.written + 1);
    TablesGrow(fold, s, front, e, s'.tree);
    return None, s';
  }

  /** The last entry of a stream that is damaged inside or right after it. */
  method ExtractDamaged(fold: string -> string, s: Extracting, e: ArchiveEntry, ghost front: seq<ArchiveEntry>)
    returns (refusal: Refusal, s': Extracting)
    requires Reached(fold, s, front) && Extractable(fold, front)
    ensures refusal == Invalid <==> !Admissible(fold, front + [e])
    ensures s'.tree == Leftover(fold, front, e)
  {
    hide NothingInTheWay, Admissible, TreeOf;
    var failure;
    failure, s' := ExtractMember(fold, s, e, false, front);
    if failure.None? {
      EmptyFile(front, e);
      return Unreadable, s';
    }
    return failure.value, s';
  }

  datatype Outcome = Extracted(files: nat) | Failed(refusal: Refusal)

  /** How far a stream gets: its longest extractable prefix. */
  ghost predicate LongestExtractable(fold: string -> string, entries: seq<ArchiveEntry>, k: nat) {
    k <= |entries| && Extractable(fold, entries[..k]) && (k < |entries| ==> !Extractable(fold, entries[..k + 1]))
  }

  lemma NothingReached(fold: string -> string)
    ensures Reached(fold, Extracting(map[], {}, map[], 0, 0, 0), []) && Extractable(fold, [])
  {
  }

  /**
   `extract_safely`: it succeeds exactly on a complete extractable stream, returns the number of files
   written, and on every run, failed ones included, leaves what the longest extractable prefix puts
   there, with at most one empty file more.
   */
  method ExtractSafely(fold: string -> string, archive: Archive)
    returns (r: Outcome, tree: Tree, ghost accepted: nat)
    ensures LongestExtractable(fold, archive.entries, accepted)
    ensures exists es :: Extractable(fold, es) && tree == TreeOf(es)
    ensures r.Extracted? <==> archive.end.Complete? && Extractable(fold, archive.entries)
    ensures r.Extracted? ==> r.files == |FilesIn(archive.entries)| && tree == TreeOf(archive.entries)
    ensures accepted < |archive.entries| ==>
              && tree == TreeOf(archive.entries[..accepted])
              && (r == Failed(Invalid) <==> !Admissible(fold, archive.entries[..accepted + 1]))
    ensures accepted == |archive.entries| && archive.end.DamagedHeader? ==>
              r == Failed(Unreadable) && tree == TreeOf(archive.entries)
    ensures accepted == |archive.entries| && archive.end.DamagedData? ==>
              && tree == Leftover(fold, archive.entries, archive.end.last)
              && (r == Failed(Invalid) <==> !Admissible(fold, archive.entries + [archive.end.last]))
  {
    hide Reached, Extractable, Admissible, TreeOf;
    var s := Extracting(map[], {}, map[], 0, 0, 0);
    NothingReached(fold);
    var failure: Option<Refusal>;
    for i := 0 to |archive.entries|
      invariant Reached(fold, s, archive.entries[..i]) && Extractable(fold, archive.entries[..i])
    {
      accepted := i;
      var e := archive.entries[i];
      assert archive.entries[..i + 1] == archive.entries[..i] + [e];
      failure, s := ExtractMember(fold, s, e, true, archive.entries[..i]);
      if failure.Some? {
        if Extractable(fold, archive.entries) {
          PrefixExtractable(fold, archive.entries, i + 1);
        }
        return Failed(failure.value), s.tree, accepted;
      }
    }
    accepted := |archive.entries|;
    assert archive.entries[..accepted] == archive.entries;
    AsReached(fold, s, archive.entries);
    match archive.end
    case Complete =>
      return Extracted(s.written), s.tree, accepted;
    case DamagedHeader =>
      return Failed(Unreadable), s.tree, accepted;
    case DamagedData(last) =>
      var refusal;
      refusal, s := ExtractDamaged(fold, s, last, archive.entries);
      LeftoverExtractable(fold, archive.entries, last);
      return Failed(refusal), s.tree, accepted;
  }

  lemma AsReached(fold: string -> string, s: Extracting, entries: seq<ArchiveEntry>)
    requires Reached(fold, s, entries)
    ensures s.tree == TreeOf(entries) && s.written == |FilesIn(entries)|
  {
  }
}
