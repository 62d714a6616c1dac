/**
 Small packs and archives on which the pack tools do, and do not, agree: the conditions of the
 theorems about them can be met, and can fail.
 */
module PackExamples {
  import opened Bytes
  import opened PackPaths
  import opened PackScan
  import opened PackRegistry
  import opened PackRegistryProofs
  import opened PackArchive
  import opened PackExtract
  import opened PackRoundTrip
  import opened PackRelease
  import opened PackTheorems

  const FIXTURE: string := "fixture" + "." + "toml"
  const INPUT: string := "input" + "." + "json"
  const EXTRA: string := "extra" + "." + "json"

  /** A fixture with one payload. */
  function SmallFixture(payload: string): Fixture {
    map["id" := TString("a"), "surface" := TString("xdr"), "category" := TString("b"), "description" := TString("c"),
        "protocol" := TInteger(28), "input_file" := TString(payload)]
  }

  const HASH: string := seq(64, _ => '0')

  /** Every fixture file reads as the one with this payload; paths are distinct when they differ at all. */
  function SmallEnv(payload: string): Env {
    Env(path => path, data => HASH, text => [], data => Some(SmallFixture(payload)), registry => [])
  }

  /** Empty files. */
  function Flat(names: set<string>): Files {
    map n | n in names :: []
  }

  /** A directory of empty files. */
  function FlatTree(names: set<string>): Tree {
    map n | n in names :: File([])
  }

  predicate FlatName(n: string) {
    CheckPackPath(n) && '/' !in n && n != ".git"
  }

  predicate FlatNames(names: set<string>) {
    |names| <= MAX_FILES && forall n | n in names :: FlatName(n)
  }

  lemma NoneAbove(n: string)
    requires '/' !in n
    ensures Parents(n) == {} && Parent(n) == "" && Name(n) == n
  {
    ParentSplits(n);
  }

  lemma FlatDirectories(names: set<string>)
    requires FlatNames(names)
    ensures DirectoriesOf(names) == {} && Names(Flat(names)) == names
  {
    hide CheckPackPath, Parents, Parent, Name;
    forall n | n in names
      ensures Parents(n) == {}
    {
      NoneAbove(n);
    }
    assert Flat(names).Keys == names;
  }

  lemma {:induction false} FlatBytes(names: set<string>)
    ensures TotalBytes(Flat(names)) == 0
  {
    if names == {} {
      assert Flat(names) == map[];
    } else {
      var n :| n in names;
      FlatBytes(names - {n});
      TotalRemove(Flat(names), n);
      assert Flat(names) - {n} == Flat(names - {n});
    }
  }

  lemma FlatLimits(names: set<string>)
    requires FlatNames(names)
    ensures LimitsOk(Flat(names)) && SizesOk(Flat(names))
  {
    hide TotalBytes, Parents, Split, Parent, Name, DirectoriesOf;
    FlatDirectories(names);
    FlatBytes(names);
    assert Flat(names).Keys == names;
    forall n | n in names
      ensures MemberOk(n, [])
    {
      ShortEnough(n);
    }
  }

  lemma ShortEnough(n: string)
    requires CheckPackPath(n)
    ensures MemberOk(n, [])
  {
  }

  /** A flat directory is scanned as it is. */
  lemma FlatScan(names: set<string>)
    requires FlatNames(names)
    ensures var fs := FlatTree(names);
            && WellFormed(fs) && VisiblePaths(fs) == names && Scanned(fs) == Flat(names)
            && Acceptable(path => path, fs, names)
  {
    hide CheckPackPath, TotalBytes, Parents, Parent, Name;
    var fs := FlatTree(names);
    forall n | n in names
      ensures n != "" && Parent(n) == "" && Name(n) == n && '/' !in n
    {
      NotEmpty(n);
      NoneAbove(n);
    }
    FlatLimits(names);
    assert FilesAmong(fs, names) == Flat(names);
  }

  /** Reading the small fixture of a flat directory. */
  lemma SmallRead(payload: string, names: set<string>)
    requires FlatNames(names) && FIXTURE in names && payload in names
    ensures var r := ReadFixture(SmallEnv(payload), Flat(names), FIXTURE);
            r.Some? && r.value.payloads == {payload}
  {
    hide Split, PortableSegment, Parents, PayloadEntries;
    NoneAbove(FIXTURE);
    hide Parent, Name;
    SplitPlain(payload);
    NotEmpty(payload);
    PlainReference(payload);
    var f, files := SmallFixture(payload), Flat(names);
    assert PayloadPath(FIXTURE, payload) == payload;
    hide CheckPackPath, CheckReference, PayloadPath;
    assert FieldPayload(files, f, FIXTURE, "input_file") == Some({payload});
    assert FieldPayload(files, f, FIXTURE, "expected_file") == Some({});
    assert {payload} + {} == {payload};
  }

  lemma PlainReference(path: string)
    requires CheckPackPath(path) && '/' !in path
    ensures CheckReference(path)
  {
    SplitPlain(path);
    hide Split, PortableSegment;
    assert path in Split(path);
    assert IsControl('\0');
    assert ':' in FORBIDDEN;
  }

  predicate OneFixture(payload: string, names: set<string>) {
    FlatNames(names) && FIXTURE in names && payload in names && forall n | n in names && n != FIXTURE :: !IsFixture(n)
  }

  lemma OnlyFixture(names: set<string>)
    requires FIXTURE in names && forall n | n in names && n != FIXTURE :: !IsFixture(n)
    ensures FixturePaths(Flat(names)) == {FIXTURE}
  {
    SmallNames();
    hide IsFixture;
  }

  /** The pack in a flat directory with one fixture: that fixture and its payload. */
  lemma SmallPack(payload: string, names: set<string>)
    requires OneFixture(payload, names)
    ensures FixturesOk(SmallEnv(payload), Flat(names))
    ensures MemberPaths(SmallEnv(payload), Flat(names)) == {FIXTURE, payload}
  {
    hide FlatNames, ReadFixture, IsFixture, FixturePaths, SmallEnv;
    SmallRead(payload, names);
    OnlyFixture(names);
    var env, files := SmallEnv(payload), Flat(names);
    assert FixturesOk(env, files);
    assert Read(env, files, FIXTURE).payloads == {payload};
    hide FixturesOk;
    var named := set p | p in files && exists q | q in FixturePaths(files) :: p in Read(env, files, q).payloads;
    assert named == {payload};
  }

  predicate Lower(word: string) {
    forall c | c in word :: 'a' <= c <= 'z'
  }

  lemma WordName(word: string, extension: string)
    requires Lower(word) && Lower(extension) && |word| > 4 && |extension| == 4
    ensures var n := word + "." + extension; FlatName(n) && (IsFixture(n) <==> extension == "toml")
  {
    var n := word + "." + extension;
    assert forall c | c in n :: LowerOrDot(c);
    WordValid(word, extension, n);
    assert n[|n| - 5..] == "." + extension;
    assert ("." + extension)[1..] == extension && ".toml"[1..] == "toml" && ".toml" == "." + "toml";
    hide CheckPackPath;
  }

  lemma LowerWords()
    ensures Lower("fixture") && Lower("input") && Lower("extra") && Lower("registry") && Lower("toml") && Lower("json")
    ensures "json" != "toml" && INPUT != EXTRA
  {
    assert "json"[0] != "toml"[0] && INPUT[0] != EXTRA[0];
  }

  lemma SmallNames()
    ensures FlatName(FIXTURE) && FlatName(INPUT) && FlatName(EXTRA) && FlatName(REGISTRY_NAME)
    ensures IsFixture(FIXTURE) && !IsFixture(INPUT) && !IsFixture(EXTRA) && !IsFixture(REGISTRY_NAME)
    ensures INPUT != EXTRA && INPUT != REGISTRY_NAME && EXTRA != REGISTRY_NAME
  {
    hide FlatName, IsFixture, Lower;
    LowerWords();
    RegistryNameParts();
    WordName("fixture", "toml");
    WordName("input", "json");
    WordName("extra", "json");
    WordName("registry", "json");
    assert |INPUT| == |EXTRA| == 10 && |REGISTRY_NAME| == 13;
  }

  lemma Few(names: set<string>)
    requires names <= {FIXTURE, INPUT, EXTRA, REGISTRY_NAME}
    ensures FlatNames(names)
  {
    hide FlatName, IsFixture;
    SmallNames();
    SubsetSize(names, {FIXTURE, INPUT, EXTRA, REGISTRY_NAME});
  }

  /** Reads any registry, and says what digest it declares. */
  function SmallLoad(): bytes -> Option<string> {
    data => Some("sha256:" + HASH)
  }

  /** The registry of a flat directory, and the members of its archive. */
  lemma SmallMembers(payload: string, names: set<string>)
    requires OneFixture(payload, names)
    ensures FixturesOk(SmallEnv(payload), Flat(names))
    ensures MembersOf(SmallEnv(payload), Flat(names)) == Flat({FIXTURE, payload, REGISTRY_NAME})
    ensures BuildRegistry(SmallEnv(payload), Flat(names)).Some?
    ensures BuildRegistry(SmallEnv(payload), Flat(names)).value.packDigest == "sha256:" + HASH
  {
    hide FixturesOk, MemberPaths, BuildRegistry, FlatNames, IsFixture;
    var env, files := SmallEnv(payload), Flat(names);
    SmallPack(payload, names);
    RegistryDigest(env, files);
    assert Restrict(files, {FIXTURE, payload}) == Flat({FIXTURE, payload});
    assert Flat({FIXTURE, payload})[REGISTRY_NAME := []] == Flat({FIXTURE, payload, REGISTRY_NAME});
  }

  /** A directory with just the small fixture and its payload can be packed. */
  lemma SmallPackable(payload: string)
    requires OneFixture(payload, {FIXTURE, payload}) && FlatNames({FIXTURE, payload, REGISTRY_NAME})
    ensures var env, fs := SmallEnv(payload), FlatTree({FIXTURE, payload});
            && Packable(env, fs) && RegistryOf(env, fs).packDigest == "sha256:" + HASH
            && MemberPaths(env, Scanned(fs)) == {FIXTURE, payload}
            && Archived(env, fs) == Flat({FIXTURE, payload, REGISTRY_NAME})
  {
    hide FlatNames, IsFixture, FlatTree, Flat, LimitsOk, Acceptable, FixturesOk, MemberPaths, Scanned, MembersOf;
    hide BuildRegistry, WellFormed, SmallEnv, SizesOk, VisiblePaths;
    var names := {FIXTURE, payload};
    FlatScan(names);
    SmallPack(payload, names);
    SmallMembers(payload, names);
    FlatLimits({FIXTURE, payload, REGISTRY_NAME});
    SmallFold(payload);
  }

  lemma SmallFold(payload: string)
    ensures SmallEnv(payload).fold == (path => path)
  {
  }

  lemma FreeExactly(payload: string)
    requires payload == INPUT || payload == REGISTRY_NAME
    ensures OneFixture(payload, {FIXTURE, payload}) && FlatNames({FIXTURE, payload, REGISTRY_NAME})
    ensures RegistryNameFree(path => path, {FIXTURE, payload}) <==> payload == INPUT
  {
    hide FlatName, FlatNames, IsFixture, DirectoriesOf;
    SmallNames();
    Few({FIXTURE, payload});
    Few({FIXTURE, payload, REGISTRY_NAME});
    FlatDirectories({FIXTURE, payload});
  }

  /** What packing, extracting and verifying the small pack comes to. */
  ghost predicate ComesBack(payload: string)
    requires Packable(SmallEnv(payload), FlatTree({FIXTURE, payload}))
  {
    var env, fs := SmallEnv(payload), FlatTree({FIXTURE, payload});
    && Extractable(env.fold, ArchiveOf(Archived(env, fs)))
    && Describes(env, SmallLoad(), ExtractedTree(Archived(env, fs)), Some(RegistryOf(env, fs).packDigest))
  }

  /** A fixture whose payload is called `registry.json`: the pack is built, but its archive is not the pack. */
  lemma TakenName()
    ensures var env, fs := SmallEnv(REGISTRY_NAME), FlatTree({FIXTURE, REGISTRY_NAME});
            Packable(env, fs) && !RegistryNameFree(env.fold, MemberPaths(env, Scanned(fs))) && !ComesBack(REGISTRY_NAME)
  {
    hide Packable, RegistryOf, Archived, Extractable, Describes, ExtractedTree, Scanned, MemberPaths, RegistryNameFree;
    hide OneFixture, FlatNames, FlatTree;
    FreeExactly(REGISTRY_NAME);
    SmallNames();
    SmallPackable(REGISTRY_NAME);
    SmallFold(REGISTRY_NAME);
    BuildThenExtract(SmallEnv(REGISTRY_NAME), SmallLoad(), FlatTree({FIXTURE, REGISTRY_NAME}));
  }

  /** The same with any other name for the payload: the archive is the pack. */
  lemma FreeName()
    ensures var env, fs := SmallEnv(INPUT), FlatTree({FIXTURE, INPUT});
            Packable(env, fs) && RegistryNameFree(env.fold, MemberPaths(env, Scanned(fs))) && ComesBack(INPUT)
  {
    hide Packable, RegistryOf, Archived, Extractable, Describes, ExtractedTree, Scanned, MemberPaths, RegistryNameFree;
    hide OneFixture, FlatNames, FlatTree;
    FreeExactly(INPUT);
    SmallPackable(INPUT);
    SmallFold(INPUT);
    BuildThenExtract(SmallEnv(INPUT), SmallLoad(), FlatTree({FIXTURE, INPUT}));
  }

  /** An archive of flat names puts just these files into the destination. */
  lemma FlatArchive(names: set<string>)
    requires FlatNames(names)
    ensures var entries := ArchiveOf(Flat(names));
            Extractable(path => path, entries) && TreeOf(entries) == FlatTree(names) && FilesIn(entries) == Flat(names)
  {
    hide FlatName, DirectoriesOf, Extractable, LimitsOk, ArchiveOf, TreeOf, FilesIn;
    FlatDirectories(names);
    FlatLimits(names);
    ExtractsBack(path => path, Flat(names));
    FlatValid(names);
    assert Flat(names).Keys == names;
  }

  lemma FlatValid(names: set<string>)
    requires FlatNames(names)
    ensures forall n | n in names :: CheckPackPath(n)
  {
    hide CheckPackPath;
  }

  lemma FlatWithout(names: set<string>, n: string)
    requires n !in names
    ensures Flat(names + {n}) - {n} == Flat(names)
  {
  }

  /** A flat directory with the small pack, its registry and anything else is the pack its registry describes. */
  lemma FlatDescribes(payload: string, names: set<string>)
    requires OneFixture(payload, names) && FlatNames(names + {REGISTRY_NAME}) && REGISTRY_NAME !in names
    ensures var env, tree := SmallEnv(payload), FlatTree(names + {REGISTRY_NAME});
            && Describes(env, SmallLoad(), tree, Some("sha256:" + HASH))
            && PackFiles(tree) == Flat(names) && MemberPaths(env, PackFiles(tree)) == {FIXTURE, payload}
  {
    hide FlatName, FlatNames, IsFixture, Acceptable, FixturesOk, MemberPaths, BuildRegistry, WellFormed;
    hide OneFixture, Flat;
    var tree := FlatTree(names + {REGISTRY_NAME});
    FlatScan(names + {REGISTRY_NAME});
    SmallPack(payload, names);
    SmallMembers(payload, names);
    FlatWithout(names, REGISTRY_NAME);
    hide VisiblePaths, Scanned;
    assert tree[REGISTRY_NAME] == File([]);
  }

  lemma SmallHashes(payload: string)
    ensures HexHashes(SmallEnv(payload))
  {
  }

  /** The manifest tool and the verifier hash the same text of an archive. */
  ghost predicate OneText(env: Env, entries: seq<ArchiveEntry>)
    requires FixturesOk(env, PackFiles(TreeOf(entries)))
  {
    var archived, pack := FilesIn(entries) - {REGISTRY_NAME}, PackFiles(TreeOf(entries));
    MembersExist(env, pack);
    DigestText(Records(env, archived, archived.Keys)) == DigestText(Records(env, pack, MemberPaths(env, pack)))
  }

  /** What `ExtraFile` says, of any names. */
  lemma ExtraFileAmong(payload: string, extra: string, names: set<string>)
    requires OneFixture(payload, names) && FlatNames(names + {REGISTRY_NAME}) && REGISTRY_NAME !in names
    requires extra in names && extra !in {FIXTURE, payload}
    ensures var env, entries := SmallEnv(payload), ArchiveOf(Flat(names + {REGISTRY_NAME}));
            && HexHashes(env) && Extractable(env.fold, entries)
            && Describes(env, SmallLoad(), TreeOf(entries), Some("sha256:" + HASH))
            && FixturesOk(env, PackFiles(TreeOf(entries))) && !OneText(env, entries)
  {
    hide FlatNames, Extractable, ArchiveOf, TreeOf, FilesIn, MemberPaths, DigestText, Records, Describes, PackFiles;
    hide OneFixture, SmallLoad, FlatTree, HexHashes, SmallEnv, Flat;
    var env, entries := SmallEnv(payload), ArchiveOf(Flat(names + {REGISTRY_NAME}));
    FlatArchive(names + {REGISTRY_NAME});
    FlatDescribes(payload, names);
    FlatWithout(names, REGISTRY_NAME);
    SmallFold(payload);
    SmallHashes(payload);
    DescribedHasPack(env, SmallLoad(), TreeOf(entries), Some("sha256:" + HASH));
    VerifierAndManifest(env, SmallLoad(), SmallLoad(), entries, Some("sha256:" + HASH));
    FlatKeys(names);
  }

  lemma FlatKeys(names: set<string>)
    ensures Flat(names).Keys == names
  {
  }

  lemma DescribedHasPack(env: Env, load: bytes -> Option<string>, tree: Tree, expected: Option<string>)
    requires Describes(env, load, tree, expected)
    ensures FixturesOk(env, PackFiles(tree))
  {
  }

  /**
   The small pack with its registry and one file more: the verifier accepts it, but the text that the
   manifest tool hashes is not the one the declared digest was computed from.
   */
  lemma ExtraFile()
    ensures var env, entries := SmallEnv(INPUT), ArchiveOf(Flat({FIXTURE, INPUT, EXTRA} + {REGISTRY_NAME}));
            && HexHashes(env) && Extractable(env.fold, entries)
            && Describes(env, SmallLoad(), TreeOf(entries), Some("sha256:" + HASH))
            && FixturesOk(env, PackFiles(TreeOf(entries))) && !OneText(env, entries)
  {
    hide FlatNames, Extractable, ArchiveOf, TreeOf, FilesIn, MemberPaths, DigestText, Records, Describes, PackFiles;
    hide SmallLoad, FlatTree, HexHashes, SmallEnv, Flat, IsFixture, FlatName, FixturesOk;
    SmallNames();
    Few({FIXTURE, INPUT, EXTRA});
    Few({FIXTURE, INPUT, EXTRA} + {REGISTRY_NAME});
    assert EXTRA != FIXTURE && REGISTRY_NAME != FIXTURE;
    ExtraFileAmong(INPUT, EXTRA, {FIXTURE, INPUT, EXTRA});
  }
}
