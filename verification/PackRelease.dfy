/**
 From a pack directory to a verified archive: collecting the members, checking an extracted tree
 against its own registry, and the release manifest's reading of an archive.
 */
module PackRelease {
  import opened Bytes
  import opened PackPaths
  import opened PackScan
  import opened PackRegistry
  import opened PackRegistryProofs
  import opened PackRegistryProgram
  import opened PackArchive
  import opened PackExtract

  const REGISTRY_NAME: string := "registry.json"

  /** What a scan of a directory returns when it succeeds. */
  function Scanned(fs: Tree): Files {
    FilesAmong(fs, VisiblePaths(fs))
  }

  function Restrict(files: Files, paths: set<string>): Files {
    map p | p in paths && p in files :: files[p]
  }

  // -------------------------------------------------------------- collecting

  /** The members of the archive: the member files and the rendered registry. */
  ghost function MembersOf(env: Env, files: Files): Files
    requires FixturesOk(env, files)
  {
    Restrict(files, MemberPaths(env, files))[REGISTRY_NAME := env.render(BuildRegistry(env, files).value)]
  }

  lemma RestrictSnoc(files: Files, paths: set<string>, p: string)
    requires p in files
    ensures Restrict(files, paths)[p := files[p]] == Restrict(files, paths + {p})
  {
  }

  lemma RegistryPathsSnoc(fixtures: seq<Entry>, e: Entry)
    ensures RegistryPaths(fixtures + [e]) == RegistryPaths(fixtures) + EntryPaths(e)
  {
    assert e in fixtures + [e];
  }

  function PayloadPathsOf(payloads: seq<Payload>): set<string> {
    set p | p in payloads :: p.path
  }

  lemma PayloadPathsSnoc(payloads: seq<Payload>, p: Payload)
    ensures PayloadPathsOf(payloads + [p]) == PayloadPathsOf(payloads) + {p.path}
  {
    assert p in payloads + [p];
  }

  /** The files one registry entry names are added to the members. */
  method CollectEntry(files: Files, e: Entry, members: Files, ghost done: set<string>)
    returns (members': Files)
    requires e.path in files && (forall p | p in e.payloads :: p.path in files) && members == Restrict(files, done)
    ensures members' == Restrict(files, done + EntryPaths(e))
  {
    hide Restrict, PayloadPathsOf, EntryPaths;
    RestrictSnoc(files, done, e.path);
    members' := members[e.path := files[e.path]];
    ghost var so := done + {e.path};
    EmptyPaths(files);
    assert so + PayloadPathsOf([]) == so;
    for j := 0 to |e.payloads|
      invariant members' == Restrict(files, so + PayloadPathsOf(e.payloads[..j]))
    {
      var p := e.payloads[j];
      assert e.payloads[..j + 1] == e.payloads[..j] + [p];
      PayloadPathsSnoc(e.payloads[..j], p);
      RestrictSnoc(files, so + PayloadPathsOf(e.payloads[..j]), p.path);
      assert so + PayloadPathsOf(e.payloads[..j]) + {p.path} == so + PayloadPathsOf(e.payloads[..j + 1]);
      members' := members'[p.path := files[p.path]];
    }
    assert e.payloads[..|e.payloads|] == e.payloads;
    NamedPaths(e);
    assert so + PayloadPathsOf(e.payloads) == done + EntryPaths(e);
  }

  lemma EmptyPaths(files: Files)
    ensures PayloadPathsOf([]) == {} && RegistryPaths([]) == {} && Restrict(files, {}) == map[]
  {
  }

  lemma NamedPaths(e: Entry)
    ensures EntryPaths(e) == {e.path} + PayloadPathsOf(e.payloads)
  {
  }

  method CollectEntries(files: Files, fixtures: seq<Entry>) returns (members: Files)
    requires forall e | e in fixtures :: e.path in files && forall p | p in e.payloads :: p.path in files
    ensures members == Restrict(files, RegistryPaths(fixtures))
  {
    hide Restrict, RegistryPaths, EntryPaths;
    members := map[];
    EmptyPaths(files);
    for i := 0 to |fixtures|
      invariant members == Restrict(files, RegistryPaths(fixtures[..i]))
    {
      assert fixtures[..i + 1] == fixtures[..i] + [fixtures[i]];
      RegistryPathsSnoc(fixtures[..i], fixtures[i]);
      members := CollectEntry(files, fixtures[i], members, RegistryPaths(fixtures[..i]));
    }
    assert fixtures[..|fixtures|] == fixtures;
  }

  datatype Collected = Collected(members: Files, registry: Registry)

  /** `collect_members`: it stops exactly when the scan, the registry or the schema refuses the pack. */
  method CollectMembers(env: Env, conforms: Registry -> bool, fs: Tree) returns (r: Option<Collected>)
    requires WellFormed(fs)
    ensures r.Some? <==> && Acceptable(env.fold, fs, VisiblePaths(fs)) && FixturesOk(env, Scanned(fs))
                         && conforms(BuildRegistry(env, Scanned(fs)).value)
    ensures r.Some? ==> r.value == Collected(MembersOf(env, Scanned(fs)), BuildRegistry(env, Scanned(fs)).value)
  {
    hide Acceptable, FixturesOk, MemberPaths, RegistryPaths, FilesAmong, Restrict;
    var scanned := ScanPack(env.fold, fs);
    if scanned.None? {
      return None;
    }
    var registry := BuildRegistryFrom(env, scanned.value);
    if registry.None? || !conforms(registry.value) {
      return None;
    }
    RegistryHolds(env, scanned.value);
    var members := CollectEntries(scanned.value, registry.value.fixtures);
    return Some(Collected(members[REGISTRY_NAME := env.render(registry.value)], registry.value));
  }

  // --------------------------------------------------------------- verifying

  /** The problems `verify_extracted` can report; those of the fixture validator count as one. */
  datatype Problem =
    | NoRegistry | BadRegistry | InvalidPack | OtherDigest | UnexpectedDigest | NotGenerated | InvalidFixtures

  /** The extracted pack's files: what the scan finds, the registry set aside. */
  function PackFiles(tree: Tree): Files {
    Scanned(tree) - {REGISTRY_NAME}
  }

  /**
   A tree that is the pack its own registry describes. `load` reads and checks the registry file and
   gives the digest it declares.
   */
  ghost predicate Describes(env: Env, load: bytes -> Option<string>, tree: Tree, expected: Option<string>) {
    && REGISTRY_NAME in tree && tree[REGISTRY_NAME].File?
    && Acceptable(env.fold, tree, VisiblePaths(tree)) && FixturesOk(env, PackFiles(tree))
    && var registry := BuildRegistry(env, PackFiles(tree)).value;
       && tree[REGISTRY_NAME].data == env.render(registry)
       && load(tree[REGISTRY_NAME].data) == Some(registry.packDigest)
       && (expected.Some? ==> expected.value == registry.packDigest)
  }

  /**
   `verify_extracted`: it reports nothing exactly when the tree is as described and the fixture validator
   has nothing to say.
   */
  method VerifyExtracted(env: Env, load: bytes -> Option<string>, validator: Tree -> bool, tree: Tree,
                         expected: Option<string>)
    returns (problems: set<Problem>)
    requires WellFormed(tree)
    ensures problems == {} <==> Describes(env, load, tree, expected) && validator(tree)
  {
    hide Acceptable, FixturesOk, FilesAmong, VisiblePaths;
    if !(REGISTRY_NAME in tree && tree[REGISTRY_NAME].File?) {
      return {NoRegistry};
    }
    var stored := tree[REGISTRY_NAME].data;
    var declared := load(stored);
    if declared.None? {
      return {BadRegistry};
    }
    var scanned := ScanPack(env.fold, tree);
    if scanned.None? {
      return {InvalidPack};
    }
    var rebuilt := BuildRegistryFrom(env, scanned.value - {REGISTRY_NAME});
    if rebuilt.None? {
      return {InvalidPack};
    }
    problems := {};
    if rebuilt.value.packDigest != declared.value {
      problems := problems + {OtherDigest};
    }
    if expected.Some? && rebuilt.value.packDigest != expected.value {
      problems := problems + {UnexpectedDigest};
    }
    if env.render(rebuilt.value) != stored {
      problems := problems + {NotGenerated};
    }
    if !validator(tree) {
      problems := problems + {InvalidFixtures};
    }
  }

  // ---------------------------------------------------------------- manifest

  const READ_CAP: nat := 128 * 1024 * 1024

  datatype Content = Content(entries: nat, uncompressed: nat, files: Files)

  lemma {:induction false} SumBytesMonotone(entries: seq<ArchiveEntry>, k: nat)
    requires k <= |entries|
    ensures SumBytes(entries[..k]) <= SumBytes(entries)
  {
    if k == |entries| {
      assert entries[..k] == entries;
    } else {
      var front := entries[..|entries| - 1];
      SumBytesMonotone(front, k);
      assert front[..k] == entries[..k];
    }
  }

  /** `inspect_archive`: counts and files of a complete stream of files and directories under the cap. */
  method InspectArchive(archive: Archive) returns (r: Option<Content>)
    ensures r.Some? <==>
              && archive.end.Complete? && SumBytes(archive.entries) <= 128 * 1024 * 1024
              && forall e | e in archive.entries :: e.kind.RegularFile? || e.kind.DirectoryEntry?
    ensures r.Some? ==>
              r.value == Content(|archive.entries|, SumBytes(archive.entries), FilesIn(archive.entries))
  {
    var entries, total, files := 0, 0, map[];
    hide SumBytes, FilesIn;
    assert SumBytes([]) == 0 && FilesIn([]) == map[] by {
      NothingRead();
    }
    for i := 0 to |archive.entries|
      invariant entries == i && total == SumBytes(archive.entries[..i]) <= READ_CAP
      invariant files == FilesIn(archive.entries[..i])
      invariant forall k | 0 <= k < i :: archive.entries[k].kind.RegularFile? || archive.entries[k].kind.DirectoryEntry?
    {
      var member := archive.entries[i];
      assert archive.entries[..i + 1] == archive.entries[..i] + [member];
      ContentGrows(archive.entries[..i], member);
      entries := entries + 1;
      if !member.kind.DirectoryEntry? {
        if !member.kind.RegularFile? {
          return None;
        }
        total := total + |member.data|;
        if total > READ_CAP {
          SumBytesMonotone(archive.entries, i + 1);
          return None;
        }
        files := files[member.name := member.data];
      }
    }
    assert archive.entries[..|archive.entries|] == archive.entries;
    if !archive.end.Complete? {
      return None;
    }
    return Some(Content(entries, total, files));
  }

  lemma NothingRead()
    ensures SumBytes([]) == 0 && FilesIn([]) == map[]
  {
  }

  lemma LineOf(env: Env, files: Files)
    ensures Records(env, files, files.Keys).Keys == files.Keys
    ensures forall p | p in files ::
              Line(p, Records(env, files, files.Keys)[p])
              == env.sha256(files[p]) + " " + Decimal(|files[p]|) + " " + p + "\n"
  {
  }

  /** `_pack_digest`: the digest text written from the raw bytes of the files. */
  method DigestOfFiles(env: Env, files: Files) returns (digest: string)
    ensures digest == PackDigest(env, Records(env, files, files.Keys))
  {
    hide Sorted, StrictlySorted, Records, Line, Decimal, Lines;
    var paths := Sort(files.Keys);
    SortedIs(paths);
    ghost var records := Records(env, files, files.Keys);
    LineOf(env, files);
    assert forall p | p in paths :: p in Elements(paths);
    var text := HEADER;
    NoLines(records);
    for i := 0 to |paths|
      invariant text == HEADER + Lines(paths[..i], records)
    {
      var path, data := paths[i], files[paths[i]];
      assert paths[..i + 1] == paths[..i] + [path];
      LinesSnoc(paths[..i], path, records);
      Assoc(HEADER, Lines(paths[..i], records), Line(path, records[path]));
      text := text + (env.sha256(data) + " " + Decimal(|data|) + " " + path + "\n");
    }
    assert paths[..|paths|] == paths;
    digest := "sha256:" + env.sha256(env.utf8(text));
  }

  lemma NoLines(records: map<string, PackFile>)
    ensures HEADER + Lines([], records) == HEADER
  {
  }

  /** The digest check of `build_manifest`: the digest declared by a registry that describes its own archive. */
  method ManifestDigest(env: Env, load: bytes -> Option<string>, archive: Archive) returns (r: Option<string>)
    ensures var files := FilesIn(archive.entries);
            r.Some? <==>
              && archive.end.Complete? && SumBytes(archive.entries) <= READ_CAP
              && (forall e | e in archive.entries :: e.kind.RegularFile? || e.kind.DirectoryEntry?)
              && REGISTRY_NAME in files
              && var pack := files - {REGISTRY_NAME};
                 load(files[REGISTRY_NAME]) == Some(PackDigest(env, Records(env, pack, pack.Keys)))
    ensures r.Some? ==> r == load(FilesIn(archive.entries)[REGISTRY_NAME])
  {
    hide SumBytes, FilesIn, PackDigest, Records;
    var content := InspectArchive(archive);
    if content.None? || REGISTRY_NAME !in content.value.files {
      return None;
    }
    var declared := load(content.value.files[REGISTRY_NAME]);
    var actual := DigestOfFiles(env, content.value.files - {REGISTRY_NAME});
    if declared != Some(actual) {
      return None;
    }
    return declared;
  }
}
