/**
 Building a pack archive and extracting it again: when the result is the pack, and when the three
 tools that compute its digest agree.
 */
module PackTheorems {
  import opened Bytes
  import opened PackPaths
  import opened PackScan
  import opened PackRegistry
  import opened PackRegistryProofs
  import opened PackArchive
  import opened PackExtract
  import opened PackRoundTrip
  import opened PackRelease

  // ------------------------------------------------------- the registry's name

  lemma {:induction false} StemPlain(s: string, rest: string)
    requires '.' !in s
    ensures Stem(s + "." + rest) == s
  {
    if s == "" {
      assert "" + "." + rest == ['.'] + rest;
    } else {
      var t := s + "." + rest;
      StemPlain(s[1..], rest);
      assert t[1..] == s[1..] + "." + rest;
      assert s == [s[0]] + s[1..];
    }
  }

  lemma ReservedAreShort(name: string)
    requires |name| > 4
    ensures name !in RESERVED_NAMES
  {
  }

  lemma NotStripped(s: string)
    requires s != "" && s[|s| - 1] !in " ."
    ensures StripRight(s) == s
  {
  }

  predicate LowerOrDot(c: char) {
    'a' <= c <= 'z' || c == '.'
  }

  lemma LowerOrDotAllowed(c: char)
    requires LowerOrDot(c)
    ensures c !in FORBIDDEN && c != '/' && c != '\\' && !IsControl(c)
  {
  }

  /** A segment made of a word of more than four letters and an extension, all in lower case, is portable. */
  lemma WordPortable(word: string, extension: string, name: string)
    requires name == word + "." + extension && |word| > 4 && extension != ""
    requires '.' !in word && '.' !in extension && forall c | c in name :: LowerOrDot(c)
    ensures PortableSegment(name)
  {
    hide Stem, StripRight, Upper, RESERVED_NAMES;
    forall c | c in name
      ensures c !in FORBIDDEN
    {
      LowerOrDotAllowed(c);
    }
    StemPlain(word, extension);
    var last, end := word[|word| - 1], extension[|extension| - 1];
    assert last in word && last in name && end in extension && end in name;
    assert name[|name| - 1] == end;
    NotStripped(word);
    UpperLength(word);
    ReservedAreShort(Upper(word));
  }

  lemma UpperLength(s: string)
    ensures |Upper(s)| == |s|
  {
  }

  /** A lower-case word of more than four letters with a lower-case extension is a valid path. */
  lemma WordValid(word: string, extension: string, name: string)
    requires name == word + "." + extension && |word| > 4 && extension != ""
    requires '.' !in word && '.' !in extension && forall c | c in name :: LowerOrDot(c)
    ensures CheckPackPath(name) && '/' !in name
  {
    hide Split, PortableSegment, LowerOrDot, IsControl;
    forall c | c in name
      ensures c != '/' && c != '\\' && !IsControl(c)
    {
      LowerOrDotAllowed(c);
    }
    SplitPlain(name);
    WordPortable(word, extension, name);
    assert name[0] in name && |name| > 2;
  }

  lemma RegistryNameParts()
    ensures REGISTRY_NAME == "registry" + "." + "json" && !IsFixture(REGISTRY_NAME)
    ensures forall c | c in REGISTRY_NAME :: LowerOrDot(c)
  {
    assert REGISTRY_NAME[|REGISTRY_NAME| - 5..] == ".json";
  }

  lemma RegistryNameValid()
    ensures CheckPackPath(REGISTRY_NAME) && Parents(REGISTRY_NAME) == {} && Parent(REGISTRY_NAME) == ""
    ensures Name(REGISTRY_NAME) == REGISTRY_NAME && !IsFixture(REGISTRY_NAME)
  {
    hide CheckPackPath, Parents, Parent, Name, IsFixture;
    RegistryNameParts();
    WordValid("registry", "json", REGISTRY_NAME);
    ParentSplits(REGISTRY_NAME);
  }

  // ------------------------------------------------ the extracted tree, scanned

  lemma {:induction false} AncestorsVisible(fs: Tree, p: string, d: string)
    requires WellFormed(fs) && Visible(fs, p) && d in Parents(p)
    ensures d in fs && fs[d].Directory? && Visible(fs, d)
    decreases |p|
  {
    ParentSplits(p);
    if d != Parent(p) {
      AncestorsVisible(fs, Parent(p), d);
    }
  }

  lemma {:induction false} VisibleTransfers(fs: Tree, tree: Tree, p: string)
    requires Visible(fs, p) && p in tree && forall d | d in Parents(p) :: d in tree
    ensures Visible(tree, p)
    decreases |p|
  {
    ParentSplits(p);
    if Parent(p) != "" {
      VisibleTransfers(fs, tree, Parent(p));
    }
  }

  /** The files of a scanned pack are no directories of it, and both are visible and distinct when folded. */
  lemma ScannedNames(fs: Tree, paths: set<string>)
    requires WellFormed(fs) && paths <= Scanned(fs).Keys
    ensures forall p | p in paths :: p in fs && fs[p].File? && Visible(fs, p)
    ensures forall d | d in DirectoriesOf(paths) :: d in fs && fs[d].Directory? && Visible(fs, d)
  {
    forall d | d in DirectoriesOf(paths)
      ensures d in fs && fs[d].Directory? && Visible(fs, d)
    {
      var p :| p in paths && d in Parents(p);
      AncestorsVisible(fs, p, d);
    }
  }

  /** A pack's files together with a rendered registry. */
  function WithRegistry(files: Files, paths: set<string>, registry: bytes): Files {
    Restrict(files, paths)[REGISTRY_NAME := registry]
  }

  /** Neither a directory is called `registry.json`, nor does any other name fold to it. */
  ghost predicate RegistryFits(fold: string -> string, paths: set<string>) {
    && REGISTRY_NAME !in DirectoriesOf(paths)
    && forall p | p in paths + DirectoriesOf(paths) && p != REGISTRY_NAME :: fold(p) != fold(REGISTRY_NAME)
  }

  lemma NamesWithRegistry(files: Files, paths: set<string>, registry: bytes)
    requires paths <= files.Keys
    ensures var members := WithRegistry(files, paths, registry);
            && members.Keys == paths + {REGISTRY_NAME} && DirectoriesOf(members.Keys) == DirectoriesOf(paths)
            && Names(members) == paths + {REGISTRY_NAME} + DirectoriesOf(paths)
  {
    hide CheckPackPath, DirectoriesOf, Parents, Parent, Name, IsFixture;
    RegistryNameValid();
    OneMorePath(paths, REGISTRY_NAME);
    assert WithRegistry(files, paths, registry).Keys == paths + {REGISTRY_NAME};
  }

  /** Files of a pack and its registry can be members together exactly when the registry's name is free. */
  lemma MembersFit(fold: string -> string, fs: Tree, paths: set<string>, registry: bytes)
    requires WellFormed(fs) && Acceptable(fold, fs, VisiblePaths(fs)) && paths <= Scanned(fs).Keys
    ensures MembersOk(fold, WithRegistry(Scanned(fs), paths, registry)) <==> RegistryFits(fold, paths)
  {
    hide CheckPackPath, DirectoriesOf, SizesOk, Parents, Parent, Name, IsFixture;
    var members := WithRegistry(Scanned(fs), paths, registry);
    NamesWithRegistry(Scanned(fs), paths, registry);
    ScannedNames(fs, paths);
    RegistryNameValid();
    hide Names, Visible, Scanned, WithRegistry;
    assert forall p | p in paths + DirectoriesOf(paths) :: p in VisiblePaths(fs);
    assert REGISTRY_NAME in Names(members);
  }

  /** What extracting the archive of a pack leaves in the destination. */
  ghost function ExtractedTree(members: Files): Tree {
    TreeOf(ArchiveOf(members))
  }

  /** Everything in the extracted tree of a pack is visible to a scan. */
  lemma AllVisible(fs: Tree, paths: set<string>, registry: bytes)
    requires WellFormed(fs) && paths <= Scanned(fs).Keys && LimitsOk(WithRegistry(Scanned(fs), paths, registry))
    ensures var members := WithRegistry(Scanned(fs), paths, registry);
            VisiblePaths(ExtractedTree(members)) == Names(members)
  {
    hide CheckPackPath, DirectoriesOf, LimitsOk, Parents, Parent, Name, IsFixture, ArchiveOf, TreeOf;
    var members := WithRegistry(Scanned(fs), paths, registry);
    var tree := ExtractedTree(members);
    ExtractsBack(x => x, members);
    NamesWithRegistry(Scanned(fs), paths, registry);
    ScannedNames(fs, paths);
    RegistryNameValid();
    assert tree.Keys == Names(members);
    forall n | n in Names(members)
      ensures Visible(tree, n)
    {
      forall d | d in Parents(n)
        ensures d in tree
      {
        ParentIsName(members.Keys, n, d);
      }
      if n != REGISTRY_NAME {
        VisibleTransfers(fs, tree, n);
      }
    }
  }

  /** A scan of the extracted tree of a pack succeeds and finds exactly the members. */
  lemma ScansBack(fold: string -> string, fs: Tree, paths: set<string>, registry: bytes)
    requires WellFormed(fs) && paths <= Scanned(fs).Keys && LimitsOk(WithRegistry(Scanned(fs), paths, registry))
    requires MembersOk(fold, WithRegistry(Scanned(fs), paths, registry))
    ensures var members := WithRegistry(Scanned(fs), paths, registry);
            var tree := ExtractedTree(members);
            && Acceptable(fold, tree, VisiblePaths(tree)) && Scanned(tree) == members
            && REGISTRY_NAME in tree && tree[REGISTRY_NAME] == File(registry)
  {
    hide CheckPackPath, DirectoriesOf, VisiblePaths, TotalBytes, ArchiveOf, TreeOf, FoldDistinct, Split;
    var members := WithRegistry(Scanned(fs), paths, registry);
    var tree := ExtractedTree(members);
    AllVisible(fs, paths, registry);
    ExtractsBack(fold, members);
    forall n | n in Names(members)
      ensures CheckPackPath(n)
    {
      NamesValid(members, n);
    }
    TreeFiles(ArchiveOf(members));
    ArchiveHolds(members);
    NamesWithRegistry(Scanned(fs), paths, registry);
    LimitsAreScanLimits(members);
    assert FilesAmong(tree, Names(members)) == members;
    RegistryStored(Scanned(fs), paths, registry);
    hide WithRegistry, Names, FilesAmong, SizesOk;
  }

  lemma RegistryStored(files: Files, paths: set<string>, registry: bytes)
    ensures REGISTRY_NAME in WithRegistry(files, paths, registry)
    ensures WithRegistry(files, paths, registry)[REGISTRY_NAME] == registry
  {
  }

  lemma LimitsAreScanLimits(members: Files)
    requires LimitsOk(members)
    ensures SizesOk(members)
  {
  }

  // ------------------------------------------------------- build, then extract

  /** No file of the pack and no directory above one is called `registry.json`, not even after case folding. */
  ghost predicate RegistryNameFree(fold: string -> string, paths: set<string>) {
    forall p | p in paths + DirectoriesOf(paths) :: fold(p) != fold(REGISTRY_NAME)
  }

  /** A directory from which `collect_members` and `render_archive` make an archive. */
  ghost predicate Packable(env: Env, fs: Tree) {
    && WellFormed(fs) && Acceptable(env.fold, fs, VisiblePaths(fs)) && FixturesOk(env, Scanned(fs))
    && LimitsOk(MembersOf(env, Scanned(fs)))
  }

  ghost function RegistryOf(env: Env, fs: Tree): Registry
    requires Packable(env, fs)
  {
    BuildRegistry(env, Scanned(fs)).value
  }

  ghost function Archived(env: Env, fs: Tree): Files
    requires Packable(env, fs)
  {
    MembersOf(env, Scanned(fs))
  }

  lemma MembersExist(env: Env, files: Files)
    requires FixturesOk(env, files)
    ensures MemberPaths(env, files) <= files.Keys
  {
    hide ReadFixture, FixturesOk;
  }

  lemma ArchivedIs(env: Env, fs: Tree)
    requires Packable(env, fs)
    ensures MemberPaths(env, Scanned(fs)) <= Scanned(fs).Keys
    ensures Archived(env, fs)
         == WithRegistry(Scanned(fs), MemberPaths(env, Scanned(fs)), env.render(RegistryOf(env, fs)))
  {
    hide ReadFixture, BuildRegistry, FixturesOk, MemberPaths, Acceptable, LimitsOk, WellFormed, Scanned, Restrict;
    MembersExist(env, Scanned(fs));
  }

  /** Setting the registry aside leaves the member files, unless one of these had its name. */
  lemma WithoutRegistry(files: Files, paths: set<string>, registry: bytes)
    ensures WithRegistry(files, paths, registry) - {REGISTRY_NAME} == Restrict(files, paths - {REGISTRY_NAME})
  {
  }

  lemma RestrictIsPart(files: Files, paths: set<string>)
    ensures PartOf(Restrict(files, paths), files) && Restrict(files, paths).Keys == paths * files.Keys
  {
  }

  /** A pack without one of its payloads has no registry. */
  lemma PayloadMissing(env: Env, files: Files, part: Files, missing: string)
    requires FixturesOk(env, files) && PartOf(part, files) && missing in MemberPaths(env, files) && missing !in part
    requires FixturePaths(files) <= part.Keys
    ensures !FixturesOk(env, part)
  {
    hide ReadFixture;
    var q :| q in FixturePaths(files) && missing in Read(env, files, q).payloads;
    ReadNeedsPayloads(env, part, files, q);
    assert q in FixturePaths(part);
  }

  /** What the registry is rebuilt from after extraction. */
  lemma PackFilesBack(env: Env, fs: Tree)
    requires Packable(env, fs) && MembersOk(env.fold, Archived(env, fs))
    ensures PackFiles(ExtractedTree(Archived(env, fs)))
         == Restrict(Scanned(fs), MemberPaths(env, Scanned(fs)) - {REGISTRY_NAME})
  {
    hide Acceptable, Scanned, MembersOf, LimitsOk, MembersOk, FixturesOk, BuildRegistry, MemberPaths, IsFixture;
    hide WithRegistry, Restrict, FilesAmong;
    var paths, registry := MemberPaths(env, Scanned(fs)), env.render(RegistryOf(env, fs));
    ArchivedIs(env, fs);
    PackableParts(env, fs);
    ScansBack(env.fold, fs, paths, registry);
    WithoutRegistry(Scanned(fs), paths, registry);
  }

  /** The registry rebuilt from the member files apart from one called `registry.json`. */
  lemma Rebuilt(env: Env, files: Files)
    requires FixturesOk(env, files)
    ensures var part := Restrict(files, MemberPaths(env, files) - {REGISTRY_NAME});
            if REGISTRY_NAME in MemberPaths(env, files) then !FixturesOk(env, part)
            else FixturesOk(env, part) && BuildRegistry(env, part) == BuildRegistry(env, files)
  {
    hide FixturesOk, BuildRegistry, MemberPaths, IsFixture, Restrict;
    var paths := MemberPaths(env, files);
    var part := Restrict(files, paths - {REGISTRY_NAME});
    MembersExist(env, files);
    RestrictIsPart(files, paths - {REGISTRY_NAME});
    FixturesAreMembers(env, files);
    if REGISTRY_NAME in paths {
      PayloadMissing(env, files, part, REGISTRY_NAME);
    } else {
      DependsOnMembersOnly(env, part, files);
    }
  }

  lemma FixturesAreMembers(env: Env, files: Files)
    requires FixturesOk(env, files)
    ensures FixturePaths(files) <= MemberPaths(env, files) - {REGISTRY_NAME}
  {
    hide ReadFixture, FixturesOk;
    RegistryNameValid();
  }

  /**
   Build then extract is the identity, exactly when the name of the registry is free: the archive of a
   pack is extracted, and the destination is the pack its own registry describes, if and only if no
   file of the pack and no directory above one folds to `registry.json`. The files that come back are
   then the members, and the registry and digest rebuilt from them are those of the pack.
   */
  lemma BuildThenExtract(env: Env, load: bytes -> Option<string>, fs: Tree)
    requires Packable(env, fs)
    requires load(env.render(RegistryOf(env, fs))) == Some(RegistryOf(env, fs).packDigest)
    ensures var members, registry := Archived(env, fs), RegistryOf(env, fs);
            var tree := ExtractedTree(members);
            && ((Extractable(env.fold, ArchiveOf(members)) && Describes(env, load, tree, Some(registry.packDigest)))
                <==> RegistryNameFree(env.fold, MemberPaths(env, Scanned(fs))))
            && (RegistryNameFree(env.fold, MemberPaths(env, Scanned(fs))) ==>
                  && FilesIn(ArchiveOf(members)) == members && Scanned(tree) == members
                  && BuildRegistry(env, PackFiles(tree)) == Some(registry))
  {
    hide Acceptable, Scanned, MembersOf, LimitsOk, MembersOk, FixturesOk, BuildRegistry, MemberPaths, IsFixture;
    hide Extractable, DirectoriesOf, FilesIn, FilesAmong, WithRegistry;
    var members := Archived(env, fs);
    var paths, registry := MemberPaths(env, Scanned(fs)), env.render(RegistryOf(env, fs));
    ArchivedIs(env, fs);
    PackableParts(env, fs);
    ExtractsBack(env.fold, members);
    MembersFit(env.fold, fs, paths, registry);
    Rebuilt(env, Scanned(fs));
    FreeMeansFits(env.fold, paths);
    hide RegistryNameFree, RegistryFits, PackFiles;
    if MembersOk(env.fold, members) {
      PackFilesBack(env, fs);
      ScansBack(env.fold, fs, paths, registry);
    }
  }

  lemma FreeMeansFits(fold: string -> string, paths: set<string>)
    ensures RegistryNameFree(fold, paths) <==> RegistryFits(fold, paths) && REGISTRY_NAME !in paths
  {
    hide DirectoriesOf;
    if RegistryNameFree(fold, paths) {
      assert REGISTRY_NAME !in paths + DirectoriesOf(paths);
    }
  }

  lemma PackableParts(env: Env, fs: Tree)
    requires Packable(env, fs)
    ensures WellFormed(fs) && Acceptable(env.fold, fs, VisiblePaths(fs)) && LimitsOk(Archived(env, fs))
    ensures FixturesOk(env, Scanned(fs)) && BuildRegistry(env, Scanned(fs)) == Some(RegistryOf(env, fs))
  {
  }

  // ----------------------------------------------------- three tools, one digest

  /** Hashes are 64 characters and contain no line break. */
  ghost predicate HexHashes(env: Env) {
    forall data :: |env.sha256(data)| == 64 && '\n' !in env.sha256(data)
  }

  /** The digest text of all files is that of some of them only when these are all. */
  lemma TextOfPart(env: Env, files: Files, paths: set<string>)
    requires HexHashes(env) && paths <= files.Keys && forall p | p in files :: CheckPackPath(p)
    ensures DigestText(Records(env, files, files.Keys)) == DigestText(Records(env, files, paths))
       <==> files.Keys == paths
  {
    hide CheckPackPath, DigestText;
    var all, some := Records(env, files, files.Keys), Records(env, files, paths);
    assert RecordsOk(all) && RecordsOk(some);
    DigestTextInjective(all, some);
    assert all.Keys == files.Keys && some.Keys == paths;
  }

  lemma RecordsSame(env: Env, part: Files, whole: Files, paths: set<string>)
    requires PartOf(part, whole) && paths <= part.Keys
    ensures Records(env, part, paths) == Records(env, whole, paths)
  {
  }

  lemma PackFilesArePart(entries: seq<ArchiveEntry>)
    ensures PartOf(PackFiles(TreeOf(entries)), FilesIn(entries) - {REGISTRY_NAME})
    ensures REGISTRY_NAME in TreeOf(entries) && TreeOf(entries)[REGISTRY_NAME].File? ==>
              && REGISTRY_NAME in FilesIn(entries)
              && FilesIn(entries)[REGISTRY_NAME] == TreeOf(entries)[REGISTRY_NAME].data
  {
    hide FilesIn, NamesIn, DirectoriesOf;
  }

  /**
   The verifier hashes the files its rebuilt registry names, the manifest tool every archived file but
   the registry. On an archive the verifier accepts, the two hash the same text exactly when the
   archive holds no other file; then the manifest tool, which reads the registry with `read`, accepts
   the archive exactly when it finds the same digest in it as the verifier.
   */
  lemma VerifierAndManifest(env: Env, load: bytes -> Option<string>, read: bytes -> Option<string>,
                            entries: seq<ArchiveEntry>, expected: Option<string>)
    requires HexHashes(env) && Extractable(env.fold, entries) && Describes(env, load, TreeOf(entries), expected)
    ensures var tree := TreeOf(entries);
            var archived, listed := FilesIn(entries) - {REGISTRY_NAME}, MemberPaths(env, PackFiles(tree));
            && listed <= PackFiles(tree).Keys && listed <= archived.Keys
            && (DigestText(Records(env, archived, archived.Keys)) == DigestText(Records(env, PackFiles(tree), listed))
                <==> archived.Keys == listed)
            && REGISTRY_NAME in FilesIn(entries)
            && var registry := FilesIn(entries)[REGISTRY_NAME];
               (archived.Keys == listed ==>
                  (read(registry) == Some(PackDigest(env, Records(env, archived, archived.Keys)))
                   <==> read(registry) == load(registry)))
  {
    hide CheckPackPath, TreeOf, FilesIn, Acceptable, FixturesOk, MemberPaths, DigestText, PackFiles, Extractable;
    hide Records;
    var tree := TreeOf(entries);
    var pack, archived := PackFiles(tree), FilesIn(entries) - {REGISTRY_NAME};
    var listed := MemberPaths(env, pack);
    MembersExist(env, pack);
    PackFilesArePart(entries);
    FilesValid(env.fold, entries);
    TextOfPart(env, archived, listed);
    RecordsSame(env, pack, archived, listed);
    RegistryDigest(env, pack);
  }

  lemma RegistryDigest(env: Env, files: Files)
    requires FixturesOk(env, files) && MemberPaths(env, files) <= files.Keys
    ensures BuildRegistry(env, files).Some?
    ensures BuildRegistry(env, files).value.packDigest == PackDigest(env, Records(env, files, MemberPaths(env, files)))
  {
    hide FixturesOk, MemberPaths;
  }

  lemma FilesValid(fold: string -> string, entries: seq<ArchiveEntry>)
    requires Extractable(fold, entries)
    ensures forall p | p in FilesIn(entries) :: CheckPackPath(p)
  {
    hide CheckPackPath, FilesIn;
    FilesAreNamed(entries);
  }

  /** The archive of a pack: what the manifest tool counts in it, and that it finds the pack's own digest. */
  lemma PackManifest(env: Env, load: bytes -> Option<string>, fs: Tree)
    requires Packable(env, fs) && RegistryNameFree(env.fold, MemberPaths(env, Scanned(fs)))
    requires load(env.render(RegistryOf(env, fs))) == Some(RegistryOf(env, fs).packDigest)
    ensures var members := Archived(env, fs);
            var entries, pack := ArchiveOf(members), members - {REGISTRY_NAME};
            && |entries| == |Names(members)| && SumBytes(entries) == TotalBytes(members) <= READ_CAP
            && FilesIn(entries) == members && REGISTRY_NAME in members && pack.Keys == MemberPaths(env, Scanned(fs))
            && load(members[REGISTRY_NAME]) == Some(PackDigest(env, Records(env, pack, pack.Keys)))
  {
    hide CheckPackPath, FilesIn, FixturesOk, MemberPaths, DigestText, Extractable, Records, WithRegistry;
    hide Restrict, ArchiveOf, SumBytes, TotalBytes, Names, Scanned, MembersOf, MemberOk, Acceptable;
    hide BuildRegistry, DirectoriesOf, PackDigest;
    var members, files := Archived(env, fs), Scanned(fs);
    var paths, registry := MemberPaths(env, files), env.render(RegistryOf(env, fs));
    ArchivedIs(env, fs);
    PackableParts(env, fs);
    ArchiveHolds(members);
    FilesHold(ArchiveOf(members));
    FreeMeansFits(env.fold, paths);
    WithoutRegistry(files, paths, registry);
    assert paths - {REGISTRY_NAME} == paths;
    RestrictIsPart(files, paths);
    RecordsSame(env, members - {REGISTRY_NAME}, files, paths);
    RegistryDigest(env, files);
    RegistryStored(files, paths, registry);
  }

  // ------------------------------------------------------------ the two programs

  /** `build_archive`, up to the archive's entries: it makes one exactly for a packable directory that conforms. */
  method BuildArchive(env: Env, conforms: Registry -> bool, fs: Tree) returns (r: Option<seq<ArchiveEntry>>)
    requires WellFormed(fs)
    ensures r.Some? <==> Packable(env, fs) && conforms(RegistryOf(env, fs))
    ensures r.Some? ==> r.value == ArchiveOf(Archived(env, fs))
  {
    hide Acceptable, FixturesOk, Scanned, BuildRegistry, MembersOf, LimitsOk;
    var collected := CollectMembers(env, conforms, fs);
    if collected.None? {
      return None;
    }
    r := RenderArchive(collected.value.members);
  }

  /**
   `verify_archive`: the pinned hash, extraction, and the checks of the extracted tree. `open` reads the
   compressed stream, `lower` is `str.lower`.
   */
  method VerifyArchive(env: Env, load: bytes -> Option<string>, validator: Tree -> bool, open: bytes -> Archive,
                       lower: string -> string, archive: bytes, pin: Option<string>, expected: Option<string>)
    returns (ok: bool)
    ensures ok <==> && (pin.Some? ==> env.sha256(archive) == lower(pin.value))
                    && open(archive).end.Complete? && Extractable(env.fold, open(archive).entries)
                    && Describes(env, load, TreeOf(open(archive).entries), expected)
                    && validator(TreeOf(open(archive).entries))
  {
    hide Extractable, Describes, TreeOf, FilesIn;
    if pin.Some? && env.sha256(archive) != lower(pin.value) {
      return false;
    }
    var outcome, tree, accepted := ExtractSafely(env.fold, open(archive));
    if outcome.Failed? {
      return false;
    }
    ExtractionIsSafe(env.fold, open(archive).entries);
    var problems := VerifyExtracted(env, load, validator, tree, expected);
    ok := problems == {};
  }
}
