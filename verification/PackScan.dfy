/**
 Scanning a pack directory: an explicit stack of directories, whose entries the operating system
 lists in any order, with path rules, a case-folding table and size limits checked along the way.
 */
module PackScan {
  import opened Bytes
  import opened PackPaths

  const MAX_FILES: nat := 2000
  const MAX_TOTAL_BYTES: nat := 16 * 1024 * 1024
  const MAX_FILE_BYTES: nat := 1024 * 1024

  datatype Node = File(data: bytes) | Directory | Link | Special

  /** A directory tree by path; `""` is the root and has no entry of its own. */
  type Tree = map<string, Node>

  /** What a file system guarantees: every entry but the top ones lies in a directory. */
  ghost predicate WellFormed(fs: Tree) {
    forall p | p in fs :: p != "" && ('/' in p ==> Parent(p) in fs && fs[Parent(p)].Directory?)
  }

  /** The entries a scan reaches: nothing named `.git` and nothing below it. */
  predicate Visible(fs: Tree, p: string)
    decreases |p|
  {
    p in fs && Name(p) != ".git" && (Parent(p) == "" || Visible(fs, Parent(p)))
  }

  function VisiblePaths(fs: Tree): set<string> {
    set p | p in fs && Visible(fs, p)
  }

  /** The files among some paths, with their bytes. */
  function FilesAmong(fs: Tree, paths: set<string>): Files {
    map p | p in paths && p in fs && fs[p].File? :: fs[p].data
  }

  ghost function TotalBytes(files: Files): nat {
    if files == map[] then 0
    else
      var p :| p in files;
      |files[p]| + TotalBytes(files - {p})
  }

  lemma {:induction false} TotalRemove(files: Files, p: string)
    requires p in files
    ensures TotalBytes(files) == |files[p]| + TotalBytes(files - {p})
  {
    var q :| q in files && TotalBytes(files) == |files[q]| + TotalBytes(files - {q});
    if p != q {
      TotalRemove(files - {q}, p);
      TotalRemove(files - {p}, q);
      assert files - {q} - {p} == files - {p} - {q};
    }
  }

  lemma TotalAdd(files: Files, p: string, data: bytes)
    requires p !in files
    ensures TotalBytes(files[p := data]) == |data| + TotalBytes(files)
  {
    TotalRemove(files[p := data], p);
    assert files[p := data] - {p} == files;
  }

  lemma {:induction false} TotalMonotone(part: Files, whole: Files)
    requires part.Keys <= whole.Keys && forall p | p in part :: part[p] == whole[p]
    ensures TotalBytes(part) <= TotalBytes(whole)
    decreases |part|
  {
    if part != map[] {
      var p :| p in part;
      TotalRemove(part, p);
      TotalRemove(whole, p);
      TotalMonotone(part - {p}, whole - {p});
    }
  }

  /** No two paths are equal after case folding. */
  ghost predicate FoldDistinct(fold: string -> string, paths: set<string>) {
    forall p, q | p in paths && q in paths && fold(p) == fold(q) :: p == q
  }

  ghost predicate SizesOk(files: Files) {
    && |files| <= MAX_FILES
    && (forall p | p in files :: |files[p]| <= MAX_FILE_BYTES)
    && TotalBytes(files) <= MAX_TOTAL_BYTES
  }

  /** What the scan requires of a set of entries. */
  ghost predicate Acceptable(fold: string -> string, fs: Tree, paths: set<string>) {
    && (forall p | p in paths :: p in fs && CheckPackPath(p) && (fs[p].File? || fs[p].Directory?))
    && FoldDistinct(fold, paths)
    && SizesOk(FilesAmong(fs, paths))
  }

  lemma AcceptableMonotone(fold: string -> string, fs: Tree, part: set<string>, whole: set<string>)
    requires part <= whole && Acceptable(fold, fs, whole)
    ensures Acceptable(fold, fs, part)
  {
    hide CheckPackPath;
    var few, all := FilesAmong(fs, part), FilesAmong(fs, whole);
    assert few.Keys <= all.Keys;
    SubsetSize(few.Keys, all.Keys);
    TotalMonotone(few, all);
  }

  lemma {:induction false} SubsetSize<T>(a: set<T>, b: set<T>)
    requires a <= b
    ensures |a| <= |b|
  {
    if a != {} {
      var x :| x in a;
      SubsetSize(a - {x}, b - {x});
    }
  }

  /** The entries found once the directories `done` have been listed. */
  function Found(fs: Tree, done: set<string>): set<string> {
    set p | p in fs && Visible(fs, p) && Parent(p) in done
  }

  /** The scanner's variables: bytes read so far, the case-folding table, their sum, directories to do. */
  datatype Scan = Scan(files: Files, folded: map<string, string>, total: nat, stack: seq<string>)

  /** The tables describe the entries in `seen`, which are acceptable so far. */
  ghost predicate Tables(fold: string -> string, fs: Tree, s: Scan, seen: set<string>) {
    && Acceptable(fold, fs, seen)
    && s.files == FilesAmong(fs, seen) && s.total == TotalBytes(s.files)
    && FoldTable(fold, s.folded, seen)
  }

  ghost predicate FoldTable(fold: string -> string, folded: map<string, string>, seen: set<string>) {
    && folded.Keys == (set p | p in seen :: fold(p))
    && forall p | p in seen :: folded[fold(p)] == p
  }

  lemma FoldTableGrows(fold: string -> string, folded: map<string, string>, seen: set<string>, rel: string)
    requires FoldTable(fold, folded, seen) && fold(rel) !in folded
    ensures FoldTable(fold, folded[fold(rel) := rel], seen + {rel})
  {
    var after := folded[fold(rel) := rel];
    forall k
      ensures k in after.Keys <==> k in (set p | p in seen + {rel} :: fold(p))
    {
      if k == fold(rel) {
        assert rel in seen + {rel};
      } else if k in folded {
        var p :| p in seen && fold(p) == k;
        assert p in seen + {rel};
      }
    }
  }

  lemma TablesIgnoreStack(fold: string -> string, fs: Tree, s: Scan, t: Scan, seen: set<string>)
    requires Tables(fold, fs, s, seen) && t == s.(stack := t.stack)
    ensures Tables(fold, fs, t, seen)
  {
  }

  lemma NothingSeen(fold: string -> string, fs: Tree, s: Scan)
    requires s.files == map[] && s.folded == map[] && s.total == 0
    ensures Tables(fold, fs, s, {})
  {
    assert FilesAmong(fs, {}) == map[];
  }

  /** Every check the scan makes of one more entry, against its tables. */
  predicate EntryOk(fold: string -> string, fs: Tree, rel: string, s: Scan)
    requires rel in fs
  {
    && CheckPackPath(rel) && fold(rel) !in s.folded
    && match fs[rel]
       case File(data) =>
         |s.files| < MAX_FILES && |data| <= MAX_FILE_BYTES && s.total + |data| <= MAX_TOTAL_BYTES
       case Directory => true
       case Link => false
       case Special => false
  }

  function AfterEntry(fold: string -> string, fs: Tree, rel: string, s: Scan): Scan
    requires rel in fs
  {
    var folded := s.folded[fold(rel) := rel];
    match fs[rel]
    case File(data) => Scan(s.files[rel := data], folded, s.total + |data|, s.stack)
    case Directory => s.(folded := folded, stack := s.stack + [rel])
    case Link => s
    case Special => s
  }

  lemma FilesGrow(fs: Tree, seen: set<string>, rel: string)
    requires rel in fs && rel !in seen
    ensures var few, all := FilesAmong(fs, seen), FilesAmong(fs, seen + {rel});
            all == if fs[rel].File? then few[rel := fs[rel].data] else few
    ensures rel !in FilesAmong(fs, seen)
  {
  }

  /** The checks against the tables decide exactly whether the entries with this one are acceptable. */
  lemma EntryDecides(fold: string -> string, fs: Tree, rel: string, s: Scan, seen: set<string>)
    requires rel in fs && rel !in seen && Tables(fold, fs, s, seen)
    ensures EntryOk(fold, fs, rel, s) <==> Acceptable(fold, fs, seen + {rel})
  {
    hide CheckPackPath, TotalBytes, FilesAmong;
    FilesGrow(fs, seen, rel);
    var all := seen + {rel};
    assert rel in all;
    if fold(rel) in s.folded {
      var p :| p in seen && fold(p) == fold(rel);
      assert p in all && !FoldDistinct(fold, all);
    } else if fs[rel].File? {
      TotalAdd(s.files, rel, fs[rel].data);
      SizesGrow(s.files, rel, fs[rel].data);
    }
  }

  lemma SizesGrow(files: Files, rel: string, data: bytes)
    requires rel !in files && SizesOk(files)
    ensures SizesOk(files[rel := data])
       <==> |files| < MAX_FILES && |data| <= MAX_FILE_BYTES && TotalBytes(files) + |data| <= MAX_TOTAL_BYTES
  {
    hide TotalBytes;
    TotalAdd(files, rel, data);
    assert files[rel := data].Keys == files.Keys + {rel};
    assert rel in files[rel := data];
  }

  /**
   One more entry is acceptable when its path is valid and new after case folding, and it is a directory, or a
   file of at most 1 MiB that does not make more than 2000 files or 16 MiB.
   */
  lemma AcceptOne(fold: string -> string, fs: Tree, rel: string, s: Scan, seen: set<string>)
    requires rel in fs && rel !in seen && Tables(fold, fs, s, seen)
    ensures Acceptable(fold, fs, seen + {rel})
       <==> && CheckPackPath(rel) && (fs[rel].File? || fs[rel].Directory?)
            && (forall p | p in seen :: fold(p) != fold(rel))
            && (fs[rel].File? ==>
                  && |FilesAmong(fs, seen)| < 2000 && |fs[rel].data| <= 1024 * 1024
                  && TotalBytes(FilesAmong(fs, seen)) + |fs[rel].data| <= 16 * 1024 * 1024)
  {
    hide CheckPackPath, Acceptable, FilesAmong, TotalBytes;
    EntryDecides(fold, fs, rel, s, seen);
  }

  lemma EntryAdded(fold: string -> string, fs: Tree, rel: string, s: Scan, seen: set<string>)
    requires rel in fs && rel !in seen && Tables(fold, fs, s, seen) && EntryOk(fold, fs, rel, s)
    ensures Tables(fold, fs, AfterEntry(fold, fs, rel, s), seen + {rel})
  {
    EntryDecides(fold, fs, rel, s, seen);
    FilesGrow(fs, seen, rel);
    FoldTableGrows(fold, s.folded, seen, rel);
    if fs[rel].File? {
      TotalAdd(s.files, rel, fs[rel].data);
    }
    hide CheckPackPath, TotalBytes, FilesAmong, Acceptable, FoldTable;
    var t := AfterEntry(fold, fs, rel, s);
    assert t.folded == s.folded[fold(rel) := rel];
    assert t.files == FilesAmong(fs, seen + {rel}) && t.total == TotalBytes(t.files);
  }

  lemma EntryStep(fold: string -> string, fs: Tree, rel: string, s: Scan, seen: set<string>)
    requires rel in fs && rel !in seen && Tables(fold, fs, s, seen)
    ensures EntryOk(fold, fs, rel, s) <==> Acceptable(fold, fs, seen + {rel})
    ensures EntryOk(fold, fs, rel, s) ==> Tables(fold, fs, AfterEntry(fold, fs, rel, s), seen + {rel})
    ensures fold(rel) in s.folded ==> s.folded[fold(rel)] != rel
  {
    EntryDecides(fold, fs, rel, s, seen);
    if EntryOk(fold, fs, rel, s) {
      EntryAdded(fold, fs, rel, s, seen);
    }
    hide Acceptable, FilesAmong, EntryOk;
  }

  /** One entry of a directory: the checks in the order the program makes them. */
  method ScanEntry(fold: string -> string, fs: Tree, rel: string, s: Scan, ghost seen: set<string>)
    returns (ok: bool, s': Scan)
    requires rel in fs && rel !in seen && Tables(fold, fs, s, seen)
    ensures ok <==> Acceptable(fold, fs, seen + {rel})
    ensures ok ==> Tables(fold, fs, s', seen + {rel})
    ensures ok ==> s'.stack == if fs[rel].Directory? then s.stack + [rel] else s.stack
  {
    hide CheckPackPath, Acceptable, Tables;
    EntryStep(fold, fs, rel, s, seen);
    ok, s' := false, s;
    if !CheckPackPath(rel) || fs[rel].Link? {
      return;
    }
    var key := fold(rel);
    if key in s.folded && s.folded[key] != rel {
      return;
    }
    var folded := s.folded[key := rel];
    if fs[rel].Directory? {
      ok, s' := true, s.(folded := folded, stack := s.stack + [rel]);
    } else if fs[rel].File? {
      var data := fs[rel].data;
      if |s.files| >= MAX_FILES || |data| > MAX_FILE_BYTES {
        return;
      }
      var total := s.total + |data|;
      if total > MAX_TOTAL_BYTES {
        return;
      }
      ok, s' := true, Scan(s.files[rel := data], folded, total, s.stack);
    }
  }

  /** `os.scandir`: the entries of a directory, in whatever order the system gives them. */
  method Scandir(fs: Tree, d: string) returns (entries: seq<string>)
    ensures forall p :: p in entries <==> p in fs && Parent(p) == d
    ensures forall i, j | 0 <= i < j < |entries| :: entries[i] != entries[j]
  {
    entries := [];
    var left := set p | p in fs && Parent(p) == d;
    while left != {}
      invariant forall p :: p in entries || p in left <==> p in fs && Parent(p) == d
      invariant forall p :: p in entries ==> p !in left
      invariant forall i, j | 0 <= i < j < |entries| :: entries[i] != entries[j]
      decreases left
    {
      var p :| p in left;
      entries, left := entries + [p], left - {p};
    }
  }

  ghost predicate NoRepeats(s: seq<string>) {
    forall i, j | 0 <= i < j < |s| :: s[i] != s[j]
  }

  /** The directories among the entries of `d`. */
  function Subdirectories(fs: Tree, d: string): set<string> {
    set p | p in Found(fs, {d}) && fs[p].Directory?
  }

  lemma FoundGrows(fs: Tree, done: set<string>, d: string)
    ensures Found(fs, done + {d}) == Found(fs, done) + Found(fs, {d})
    ensures d !in done ==> Found(fs, done) !! Found(fs, {d})
  {
  }

  /** The entries that are not skipped. */
  function Shown(entries: seq<string>): set<string> {
    set p | p in entries && Name(p) != ".git"
  }

  lemma ShownSnoc(entries: seq<string>, p: string)
    ensures Shown(entries + [p]) == if Name(p) != ".git" then Shown(entries) + {p} else Shown(entries)
    ensures p !in entries ==> p !in Shown(entries)
  {
  }

  /** The entries of one directory: the inner loop. */
  method ScanDirectory(fold: string -> string, fs: Tree, d: string, s: Scan, ghost done: set<string>)
    returns (ok: bool, s': Scan)
    requires Tables(fold, fs, s, Found(fs, done)) && d !in done && (d == "" || Visible(fs, d))
    ensures ok ==> Tables(fold, fs, s', Found(fs, done + {d}))
    ensures !ok ==> !Acceptable(fold, fs, Found(fs, done + {d}))
    ensures ok ==> exists more ::
                     s'.stack == s.stack + more && NoRepeats(more) && Elements(more) == Subdirectories(fs, d)
  {
    hide Tables, Acceptable, CheckPackPath;
    FoundGrows(fs, done, d);
    var entries := Scandir(fs, d);
    s' := s;
    ghost var seen, more := Found(fs, done), [];
    for i := 0 to |entries|
      invariant Tables(fold, fs, s', seen)
      invariant seen == Found(fs, done) + Shown(entries[..i])
      invariant s'.stack == s.stack + more && NoRepeats(more)
      invariant Elements(more) == set p | p in Shown(entries[..i]) && p in fs && fs[p].Directory?
    {
      var rel := entries[i];
      assert entries[..i + 1] == entries[..i] + [rel];
      ShownSnoc(entries[..i], rel);
      assert forall k | 0 <= k < i :: entries[k] != rel;
      if Name(rel) != ".git" {
        assert rel !in seen;
        ghost var grown := seen + {rel};
        ok, s' := ScanEntry(fold, fs, rel, s', seen);
        if !ok {
          assert grown <= Found(fs, done + {d});
          if Acceptable(fold, fs, Found(fs, done + {d})) {
            AcceptableMonotone(fold, fs, grown, Found(fs, done + {d}));
          }
          return;
        }
        seen := grown;
        if fs[rel].Directory? {
          assert rel !in Elements(more);
          assert Elements(more + [rel]) == Elements(more) + {rel};
          more := more + [rel];
        }
      }
    }
    assert entries[..|entries|] == entries;
    assert Shown(entries) == Found(fs, {d});
    assert Elements(more) == Subdirectories(fs, d);
    ok := true;
  }

  /** Directories on the stack and directories listed are exactly the root and the directories found. */
  ghost predicate StackOk(fs: Tree, stack: seq<string>, done: set<string>) {
    && NoRepeats(stack) && Elements(stack) !! done
    && forall d :: d in Elements(stack) || d in done <==> d == "" || (d in Found(fs, done) && fs[d].Directory?)
  }

  lemma StackGrows(fs: Tree, front: seq<string>, d: string, more: seq<string>, done: set<string>)
    requires WellFormed(fs) && StackOk(fs, front + [d], done)
    requires NoRepeats(more) && Elements(more) == Subdirectories(fs, d)
    ensures StackOk(fs, front + more, done + {d})
  {
    FoundGrows(fs, done, d);
    var stack := front + [d];
    assert d in Elements(stack) && stack[|front|] == d;
    forall x
      ensures x in Elements(stack) <==> x in Elements(front) || x == d
      ensures x in Elements(front + more) <==> x in Elements(front) || x in Elements(more)
    {
    }
    forall x | x in Elements(front)
      ensures x != d
    {
      var i :| 0 <= i < |front| && front[i] == x;
      assert stack[i] == x;
    }
    forall x | x in Elements(more)
      ensures x !in Elements(stack) && x !in done
    {
      assert x in fs && Parent(x) == d && x != "" && x !in Found(fs, done);
    }
    forall i, j | 0 <= i < j < |front + more|
      ensures (front + more)[i] != (front + more)[j]
    {
      if j < |front| {
        assert stack[i] != stack[j];
      } else if i < |front| {
        assert stack[i] in Elements(stack) && more[j - |front|] in Elements(more);
      }
    }
  }

  lemma {:induction false} AllFound(fs: Tree, done: set<string>, p: string)
    requires WellFormed(fs) && StackOk(fs, [], done) && p in VisiblePaths(fs)
    ensures p in Found(fs, done)
    decreases |p|
  {
    ParentSplits(p);
    if Parent(p) == "" {
      assert "" in done;
    } else {
      AllFound(fs, done, Parent(p));
    }
  }

  lemma EverythingFound(fs: Tree, done: set<string>)
    requires WellFormed(fs) && StackOk(fs, [], done)
    ensures Found(fs, done) == VisiblePaths(fs)
  {
    forall p | p in VisiblePaths(fs)
      ensures p in Found(fs, done)
    {
      AllFound(fs, done, p);
    }
  }

  /**
   `scan_pack`: whatever order directories are listed in, it returns the visible files, and does so
   exactly when every visible entry is acceptable.
   */
  method ScanPack(fold: string -> string, fs: Tree) returns (r: Option<Files>)
    requires WellFormed(fs)
    ensures r.Some? <==> Acceptable(fold, fs, VisiblePaths(fs))
    ensures r.Some? ==> r.value == FilesAmong(fs, VisiblePaths(fs))
  {
    hide Tables, Acceptable, FilesAmong;
    var s := Scan(map[], map[], 0, [""]);
    ghost var done: set<string> := {};
    NothingSeen(fold, fs, s);
    assert Found(fs, {}) == {};
    while s.stack != []
      invariant Tables(fold, fs, s, Found(fs, done))
      invariant StackOk(fs, s.stack, done) && done <= fs.Keys + {""}
      decreases fs.Keys + {""} - done
    {
      var d, front := s.stack[|s.stack| - 1], s.stack[..|s.stack| - 1];
      assert s.stack == front + [d] && d in Elements(s.stack);
      TablesIgnoreStack(fold, fs, s, s.(stack := front), Found(fs, done));
      var ok;
      ok, s := ScanDirectory(fold, fs, d, s.(stack := front), done);
      if !ok {
        if Acceptable(fold, fs, VisiblePaths(fs)) {
          AcceptableMonotone(fold, fs, Found(fs, done + {d}), VisiblePaths(fs));
        }
        return None;
      }
      ghost var more :| s.stack == front + more && NoRepeats(more) && Elements(more) == Subdirectories(fs, d);
      StackGrows(fs, front, d, more, done);
      done := done + {d};
    }
    EverythingFound(fs, done);
    TablesGive(fold, fs, s, VisiblePaths(fs));
    return Some(s.files);
  }

  lemma TablesGive(fold: string -> string, fs: Tree, s: Scan, seen: set<string>)
    requires Tables(fold, fs, s, seen)
    ensures Acceptable(fold, fs, seen) && s.files == FilesAmong(fs, seen)
  {
  }
}
