/**
 What the registry says about a pack, that it depends on nothing but the pack's own files, and that
 the digest text determines the files it was computed from.
 */
module PackRegistryProofs {
  import opened Bytes
  import opened PackPaths
  import opened PackRegistry

  // ------------------------------------------------------ what an entry holds

  /** The files an entry names. */
  function EntryPaths(e: Entry): set<string> {
    {e.path} + set p | p in e.payloads :: p.path
  }

  function RegistryPaths(fixtures: seq<Entry>): set<string> {
    set e, p | e in fixtures && p in EntryPaths(e) :: p
  }

  lemma PayloadEntriesHold(env: Env, files: Files, paths: set<string>)
    requires paths <= files.Keys
    ensures (set p | p in PayloadEntries(env, files, paths) :: p.path) == paths
    ensures forall p | p in PayloadEntries(env, files, paths) ::
              p.path in files && p.sha256 == env.sha256(files[p.path])
  {
    var sorted, entries := Sorted(paths), PayloadEntries(env, files, paths);
    assert Elements(sorted) == paths;
    forall x | x in paths
      ensures x in (set p | p in entries :: p.path)
    {
      assert x in Elements(sorted);
      var i :| 0 <= i < |sorted| && sorted[i] == x;
      assert entries[i] in entries && entries[i].path == x;
    }
    forall p | p in entries
      ensures p.path in paths && p.sha256 == env.sha256(files[p.path])
    {
      var i :| 0 <= i < |entries| && entries[i] == p;
      assert sorted[i] in Elements(sorted);
    }
  }

  // ------------------------------------------------- what a fixture must say

  /** A text taken relative to the directory a file is in. */
  ghost predicate Beside(path: string, reference: string, p: string) {
    Split(p) == Split(path)[..|Split(path)| - 1] + Split(reference)
  }

  lemma PayloadBeside(path: string, reference: string, p: string)
    requires path == "" || path[0] != '/'
    ensures Beside(path, reference, p) <==> p == PayloadPath(path, reference)
  {
    ParentSplits(path);
    hide Split, Parent, Name, Parents;
    SplitInjective(p, PayloadPath(path, reference));
    if '/' in path {
      NamePlain(path);
      SplitPlain(Name(path));
      SplitConcat(Parent(path), Name(path));
      SplitConcat(Parent(path), reference);
      assert path[|Parent(path)|] == '/';
    } else {
      SplitPlain(path);
    }
  }

  /** Field `field` of a fixture names the pack file `p`, relative to the fixture. */
  ghost predicate NamedIn(f: Fixture, path: string, field: string, p: string) {
    field in f && f[field].TString? && Beside(path, f[field].text, p)
  }

  /** One of the two payload fields names the file `p`, relative to the fixture. */
  ghost predicate Referenced(f: Fixture, path: string, p: string) {
    exists field | field in {"input_file", "expected_file"} ::
      field in f && f[field].TString? && Split(p) == Split(path)[..|Split(path)| - 1] + Split(f[field].text)
  }

  /** A plain relative path: no root, drive, backslash or NUL, no empty or dotted segment. */
  ghost predicate Plain(t: string) {
    && !([] < t && t[0] == '/') && '\\' !in t && '\0' !in t
    && !(|t| > 1 && t[1] == ':' && ('a' <= t[0] <= 'z' || 'A' <= t[0] <= 'Z'))
    && "" !in Split(t) && "." !in Split(t) && ".." !in Split(t)
  }

  /** A field that is given is a plain relative path to a file of the pack. */
  ghost predicate FieldOk(files: Files, f: Fixture, path: string, field: string) {
    field in f ==>
      && f[field].TString? && Plain(f[field].text)
      && exists p | p in files :: CheckPackPath(p) && NamedIn(f, path, field, p)
  }

  lemma FieldExactly(files: Files, f: Fixture, path: string, field: string)
    requires path == "" || path[0] != '/'
    ensures FieldPayload(files, f, path, field).Some? <==> FieldOk(files, f, path, field)
    ensures FieldPayload(files, f, path, field).Some? ==>
              forall p :: p in FieldPayload(files, f, path, field).value <==> NamedIn(f, path, field, p)
  {
    hide CheckPackPath, PayloadPath, Beside;
    if field in f && f[field].TString? {
      var t := f[field].text;
      assert CheckReference(t) <==> Plain(t);
      hide CheckReference, Plain;
      forall p
        ensures Beside(path, t, p) <==> p == PayloadPath(path, t)
      {
        PayloadBeside(path, t, p);
      }
    }
  }

  lemma {:induction false} StringsExactly(items: seq<Toml>)
    ensures Strings(items).Some? <==> forall item | item in items :: item.TString? && item.text != ""
    ensures Strings(items).Some? ==>
              && |Strings(items).value| == |items|
              && forall i | 0 <= i < |items| :: items[i] == TString(Strings(items).value[i])
  {
    if items != [] {
      StringsExactly(items[1..]);
      assert items == [items[0]] + items[1..];
    }
  }

  ghost predicate HasText(f: Fixture, key: string) {
    key in f && f[key].TString? && f[key].text != ""
  }

  /** The fields a fixture must have, and those it may have, are of the right kind. */
  ghost predicate FieldsOk(f: Fixture) {
    && HasText(f, "id") && HasText(f, "surface") && HasText(f, "category") && HasText(f, "description")
    && f["surface"].text in {"xdr", "rpc", "soroban"}
    && "protocol" in f && f["protocol"].TInteger? && f["protocol"].value >= 0
    && ("source_reference" in f ==> HasText(f, "source_reference"))
    && ("required_capabilities" in f ==>
          && f["required_capabilities"].TList?
          && forall item | item in f["required_capabilities"].items :: item.TString? && item.text != "")
  }

  /** An entry repeats what the fixture says. */
  ghost predicate Repeats(f: Fixture, e: Entry)
    requires FieldsOk(f)
  {
    && e.id == f["id"].text && e.surface == f["surface"].text
    && e.category == f["category"].text && e.description == f["description"].text
    && (if "source_reference" in f then e.sourceReference == Some(f["source_reference"].text)
        else e.sourceReference == None)
    && (if "required_capabilities" in f
        then e.capabilities.Some? && |e.capabilities.value| == |f["required_capabilities"].items|
             && forall i | 0 <= i < |e.capabilities.value| ::
                  f["required_capabilities"].items[i] == TString(e.capabilities.value[i])
        else e.capabilities == None)
  }

  /**
   A fixture can be read exactly when it parses, its fields are of the right kind, and the payloads it
   names are plain references to files of the pack.
   */
  lemma ReadExactly(env: Env, files: Files, path: string)
    requires path in files && (path == "" || path[0] != '/')
    ensures ReadFixture(env, files, path).Some? <==>
              && env.parse(files[path]).Some?
              && var f := env.parse(files[path]).value;
                 FieldsOk(f) && FieldOk(files, f, path, "input_file") && FieldOk(files, f, path, "expected_file")
  {
    if env.parse(files[path]).Some? {
      var f := env.parse(files[path]).value;
      ReadByParts(env, files, path, f);
      hide ReadFixture;
      PartsExactly(f);
      FieldExactly(files, f, path, "input_file");
      FieldExactly(files, f, path, "expected_file");
      hide FieldPayload, FieldOk, FieldsOk, PartsOk;
    }
  }

  /** The checks on the fields that name no file. */
  predicate PartsOk(f: Fixture) {
    && RequiredString(f, "id").Some? && RequiredString(f, "surface").Some?
    && RequiredString(f, "category").Some? && RequiredString(f, "description").Some?
    && Protocol(f).Some? && OptionalString(f, "source_reference").Some? && Capabilities(f).Some?
    && RequiredString(f, "surface").value in SURFACES
  }

  lemma ReadByParts(env: Env, files: Files, path: string, f: Fixture)
    requires path in files && env.parse(files[path]) == Some(f)
    ensures ReadFixture(env, files, path).Some? <==> PartsOk(f) && PayloadPaths(files, f, path).Some?
  {
    hide RequiredString, Protocol, OptionalString, Capabilities, PayloadPaths, PayloadEntries;
  }

  lemma PartsExactly(f: Fixture)
    ensures PartsOk(f) <==> FieldsOk(f)
  {
    if "required_capabilities" in f && f["required_capabilities"].TList? {
      StringsExactly(f["required_capabilities"].items);
    }
    hide Strings;
  }

  /** An entry names its own file and payloads that exist, each with the hash of its bytes. */
  lemma EntryHolds(env: Env, files: Files, path: string)
    requires path in files && ReadFixture(env, files, path).Some?
    ensures var c := Read(env, files, path);
            && c.entry.path == path && c.entry.sha256 == env.sha256(files[path])
            && c.payloads <= files.Keys && EntryPaths(c.entry) == {path} + c.payloads
            && (forall p | p in c.entry.payloads :: p.path in files && p.sha256 == env.sha256(files[p.path]))
  {
    var f := env.parse(files[path]).value;
    PayloadPathsExist(files, f, path);
    PayloadEntriesHold(env, files, PayloadPaths(files, f, path).value);
  }

  lemma FieldsHold(env: Env, files: Files, path: string)
    requires path in files && ReadFixture(env, files, path).Some?
    ensures var (c, f) := (Read(env, files, path), env.parse(files[path]).value);
            FieldsOk(f) && Repeats(f, c.entry) && f["protocol"] == TInteger(c.protocol)
  {
    var f := env.parse(files[path]).value;
    if "required_capabilities" in f && f["required_capabilities"].TList? {
      StringsExactly(f["required_capabilities"].items);
    }
    hide Strings, PayloadEntries, PayloadPaths;
  }

  lemma ReferencedTwice(f: Fixture, path: string, p: string)
    ensures Referenced(f, path, p) <==> NamedIn(f, path, "input_file", p) || NamedIn(f, path, "expected_file", p)
  {
    hide Split;
    forall field
      ensures NamedIn(f, path, field, p) <==>
              field in f && f[field].TString? && Split(p) == Split(path)[..|Split(path)| - 1] + Split(f[field].text)
    {
    }
  }

  lemma PayloadsNamed(env: Env, files: Files, path: string)
    requires path in files && ReadFixture(env, files, path).Some? && (path == "" || path[0] != '/')
    ensures var (c, f) := (Read(env, files, path), env.parse(files[path]).value);
            forall p :: p in c.payloads <==> Referenced(f, path, p)
  {
    var f := env.parse(files[path]).value;
    FieldExactly(files, f, path, "input_file");
    FieldExactly(files, f, path, "expected_file");
    hide FieldPayload, FieldOk, NamedIn, Referenced, PayloadEntries, Capabilities, RequiredString, Protocol;
    var input := FieldPayload(files, f, path, "input_file").value;
    var expected := FieldPayload(files, f, path, "expected_file").value;
    assert Read(env, files, path).payloads == input + expected;
    forall p
      ensures p in input + expected <==> Referenced(f, path, p)
    {
      assert p in input <==> NamedIn(f, path, "input_file", p);
      assert p in expected <==> NamedIn(f, path, "expected_file", p);
      ReferencedTwice(f, path, p);
    }
  }

  /**
   An entry repeats what its fixture says and names its own file and the payloads, each with the hash of
   its bytes. The payloads are the files the two fields name, relative to the directory of the fixture.
   */
  lemma ContributionHolds(env: Env, files: Files, path: string)
    requires path in files && ReadFixture(env, files, path).Some?
    ensures var (c, f) := (Read(env, files, path), env.parse(files[path]).value);
            && c.entry.path == path && c.entry.sha256 == env.sha256(files[path])
            && c.payloads <= files.Keys && EntryPaths(c.entry) == {path} + c.payloads
            && (forall p | p in c.entry.payloads :: p.path in files && p.sha256 == env.sha256(files[p.path]))
            && FieldsOk(f) && Repeats(f, c.entry) && f["protocol"] == TInteger(c.protocol)
            && (path == "" || path[0] != '/' ==>
                  forall p :: p in c.payloads <==> Referenced(f, path, p))
  {
    hide ReadFixture, FieldsOk, Repeats, EntryPaths, Split, Referenced;
    EntryHolds(env, files, path);
    FieldsHold(env, files, path);
    if path == "" || path[0] != '/' {
      PayloadsNamed(env, files, path);
    }
  }

  /** Where every id comes from. */
  lemma EntryOfId(env: Env, files: Files, id: string) returns (path: string)
    requires FixturesOk(env, files) && id in EntriesById(env, files)
    ensures path in FixturePaths(files) && Read(env, files, path).entry == EntriesById(env, files)[id]
    ensures Read(env, files, path).entry.id == id
  {
    hide ReadFixture;
    path :| path in FixturePaths(files) && Read(env, files, path).entry.id == id;
  }

  /**
   The registry lists exactly the fixtures of the pack, strictly sorted by unique id, and names
   exactly the member files, each present with the hash of its bytes.
   */
  lemma RegistryHolds(env: Env, files: Files)
    requires FixturesOk(env, files)
    ensures var r := BuildRegistry(env, files).value;
            && (forall i, j | 0 <= i < j < |r.fixtures| :: Less(r.fixtures[i].id, r.fixtures[j].id))
            && (set e | e in r.fixtures :: e.path) == FixturePaths(files)
            && RegistryPaths(r.fixtures) == MemberPaths(env, files)
            && (forall e | e in r.fixtures ::
                  && e.path in files && e.sha256 == env.sha256(files[e.path])
                  && forall p | p in e.payloads :: p.path in files && p.sha256 == env.sha256(files[p.path]))
  {
    hide ReadFixture, MemberPaths, RegistryPaths;
    var fixtures := BuildRegistry(env, files).value.fixtures;
    forall i | 0 <= i < |fixtures|
      ensures fixtures[i].path in FixturePaths(files) && fixtures[i] == Read(env, files, fixtures[i].path).entry
      ensures fixtures[i].id == IdsOf(env, files)[i]
    {
      EntryAt(env, files, i);
    }
    forall p | p in FixturePaths(files)
      ensures Read(env, files, p).entry in fixtures && Read(env, files, p).entry.path == p
      ensures EntryPaths(Read(env, files, p).entry) == {p} + Read(env, files, p).payloads
    {
      EntryListed(env, files, p);
    }
    forall e | e in fixtures
      ensures e.path in files && e.sha256 == env.sha256(files[e.path])
      ensures forall p | p in e.payloads :: p.path in files && p.sha256 == env.sha256(files[p.path])
    {
      FixtureReads(env, files, e.path);
      EntryHolds(env, files, e.path);
    }
    PathsHold(env, files, fixtures);
  }

  /**
   It takes over the entry each fixture makes and the protocol they all declare, and carries the digest of
   the hashes and sizes of exactly the member files.
   */
  lemma RegistryCarries(env: Env, files: Files)
    requires FixturesOk(env, files)
    ensures var r := BuildRegistry(env, files).value;
            && (forall p | p in FixturePaths(files) ::
                  && p in files && ReadFixture(env, files, p).Some?
                  && ReadFixture(env, files, p).value.entry in r.fixtures
                  && ReadFixture(env, files, p).value.protocol == r.protocol)
            && exists records: map<string, PackFile> ::
                 && records.Keys == MemberPaths(env, files) <= files.Keys
                 && (forall p | p in records :: records[p] == PackFile(env.sha256(files[p]), |files[p]|))
                 && r.packDigest == "sha256:" + env.sha256(env.utf8(DigestText(records)))
  {
    hide ReadFixture, DigestText, Sorted;
    forall p | p in FixturePaths(files)
      ensures p in files && Read(env, files, p).entry in BuildRegistry(env, files).value.fixtures
    {
      EntryListed(env, files, p);
    }
    var records := Records(env, files, MemberPaths(env, files));
    hide MemberPaths;
    assert records.Keys == MemberPaths(env, files);
  }

  /** The fixtures are the files whose names end in `.toml`, in any directory. */
  lemma FixtureNames(files: Files, p: string)
    ensures p in FixturePaths(files) <==> p in files && exists base :: p == base + ".toml"
  {
    if p in FixturePaths(files) {
      assert p == p[..|p| - 5] + ".toml";
    }
  }

  lemma FixtureReads(env: Env, files: Files, p: string)
    requires FixturesOk(env, files) && p in FixturePaths(files)
    ensures p in files && ReadFixture(env, files, p).Some?
  {
  }

  ghost function IdsOf(env: Env, files: Files): (ids: seq<string>)
    requires FixturesOk(env, files)
    ensures StrictlySorted(ids) && forall id | id in ids :: id in EntriesById(env, files)
  {
    var ids := Sorted(EntriesById(env, files).Keys);
    assert forall id | id in ids :: id in Elements(ids);
    ids
  }

  lemma EntryAt(env: Env, files: Files, i: nat)
    requires FixturesOk(env, files) && i < |BuildRegistry(env, files).value.fixtures|
    ensures var e := BuildRegistry(env, files).value.fixtures[i];
            && |BuildRegistry(env, files).value.fixtures| == |IdsOf(env, files)| && e.id == IdsOf(env, files)[i]
            && e.path in FixturePaths(files) && e == Read(env, files, e.path).entry
  {
    hide ReadFixture;
    var id := IdsOf(env, files)[i];
    assert id in IdsOf(env, files);
    var path := EntryOfId(env, files, id);
    EntryHolds(env, files, path);
  }

  lemma EntryListed(env: Env, files: Files, p: string)
    requires FixturesOk(env, files) && p in FixturePaths(files)
    ensures var e := Read(env, files, p).entry;
            && e in BuildRegistry(env, files).value.fixtures && e.path == p
            && EntryPaths(e) == {p} + Read(env, files, p).payloads
  {
    hide ReadFixture;
    EntryHolds(env, files, p);
    var id, ids := Read(env, files, p).entry.id, IdsOf(env, files);
    assert id in EntriesById(env, files) && id in Elements(ids);
    var i :| 0 <= i < |ids| && ids[i] == id;
    assert BuildRegistry(env, files).value.fixtures[i] == EntriesById(env, files)[id];
  }

  lemma PathsHold(env: Env, files: Files, fixtures: seq<Entry>)
    requires FixturesOk(env, files)
    requires forall e | e in fixtures ::
               e.path in FixturePaths(files) && e == Read(env, files, e.path).entry
    requires forall p | p in FixturePaths(files) ::
               && Read(env, files, p).entry in fixtures && Read(env, files, p).entry.path == p
               && EntryPaths(Read(env, files, p).entry) == {p} + Read(env, files, p).payloads
    ensures RegistryPaths(fixtures) == MemberPaths(env, files)
    ensures (set e | e in fixtures :: e.path) == FixturePaths(files)
  {
    hide ReadFixture, EntryPaths;
    forall q | q in RegistryPaths(fixtures)
      ensures q in MemberPaths(env, files)
    {
      var e :| e in fixtures && q in EntryPaths(e);
      if q != e.path {
        EntryHolds(env, files, e.path);
        assert q in Read(env, files, e.path).payloads;
      }
    }
    forall q | q in MemberPaths(env, files)
      ensures q in RegistryPaths(fixtures)
    {
      var p :| p in FixturePaths(files) && (p == q || q in Read(env, files, p).payloads);
      assert q in EntryPaths(Read(env, files, p).entry);
    }
    forall p | p in FixturePaths(files)
      ensures p in (set e | e in fixtures :: e.path)
    {
      assert Read(env, files, p).entry in fixtures;
    }
  }

  // --------------------------------------------- nothing but the member files

  /** Every file of a part is one of the whole, with the same bytes. */
  ghost predicate PartOf(part: Files, whole: Files) {
    part.Keys <= whole.Keys && forall p | p in part :: part[p] == whole[p]
  }

  lemma ReadSame(env: Env, part: Files, whole: Files, path: string)
    requires PartOf(part, whole) && path in part && ReadFixture(env, whole, path).Some?
    requires Read(env, whole, path).payloads <= part.Keys
    ensures ReadFixture(env, part, path) == ReadFixture(env, whole, path)
  {
    hide CheckPackPath, CheckReference, PayloadPath, RequiredString, OptionalString, Capabilities, Protocol;
    hide Sorted, PayloadEntries;
    var f := env.parse(whole[path]).value;
    var payloads := PayloadPaths(whole, f, path).value;
    PayloadPathsExist(whole, f, path);
    assert PayloadPaths(part, f, path) == PayloadPaths(whole, f, path);
    PayloadEntriesSame(env, part, whole, payloads);
  }

  lemma PayloadEntriesSame(env: Env, part: Files, whole: Files, paths: set<string>)
    requires PartOf(part, whole) && paths <= part.Keys
    ensures PayloadEntries(env, part, paths) == PayloadEntries(env, whole, paths)
  {
    var sorted := Sorted(paths);
    forall i | 0 <= i < |sorted|
      ensures part[sorted[i]] == whole[sorted[i]]
    {
      assert sorted[i] in Elements(sorted);
    }
  }

  /** A fixture that names a file the part lacks cannot be read from the part. */
  lemma ReadNeedsPayloads(env: Env, part: Files, whole: Files, path: string)
    requires PartOf(part, whole) && path in part && ReadFixture(env, whole, path).Some?
    requires !(Read(env, whole, path).payloads <= part.Keys)
    ensures ReadFixture(env, part, path).None?
  {
    hide CheckPackPath, CheckReference, PayloadPath, RequiredString, OptionalString, Capabilities, Protocol;
    hide Sorted, PayloadEntries;
  }

  lemma FixturesSame(env: Env, part: Files, whole: Files)
    requires PartOf(part, whole) && FixturesOk(env, whole) && MemberPaths(env, whole) <= part.Keys
    ensures FixturePaths(part) == FixturePaths(whole)
    ensures forall p | p in FixturePaths(whole) :: ReadFixture(env, part, p) == ReadFixture(env, whole, p)
  {
    hide ReadFixture, Sorted;
    forall p | p in FixturePaths(whole)
      ensures p in part && ReadFixture(env, part, p) == ReadFixture(env, whole, p)
    {
      EntryHolds(env, whole, p);
      assert Read(env, whole, p).payloads <= MemberPaths(env, whole);
      ReadSame(env, part, whole, p);
    }
  }

  lemma MembersSame(env: Env, part: Files, whole: Files)
    requires PartOf(part, whole) && FixturesOk(env, whole) && MemberPaths(env, whole) <= part.Keys
    requires FixturesOk(env, part) && FixturePaths(part) == FixturePaths(whole)
    requires forall p | p in FixturePaths(whole) :: ReadFixture(env, part, p) == ReadFixture(env, whole, p)
    ensures MemberPaths(env, part) == MemberPaths(env, whole)
  {
    hide ReadFixture;
  }

  lemma EntriesSame(env: Env, part: Files, whole: Files)
    requires FixturesOk(env, whole) && FixturesOk(env, part) && FixturePaths(part) == FixturePaths(whole)
    requires forall p | p in FixturePaths(whole) :: ReadFixture(env, part, p) == ReadFixture(env, whole, p)
    ensures EntriesById(env, part) == EntriesById(env, whole)
  {
    hide ReadFixture;
  }

  /** The registry of any part that keeps the member files is the registry of the whole. */
  lemma DependsOnMembersOnly(env: Env, part: Files, whole: Files)
    requires PartOf(part, whole) && FixturesOk(env, whole) && MemberPaths(env, whole) <= part.Keys
    ensures FixturesOk(env, part) && MemberPaths(env, part) == MemberPaths(env, whole)
    ensures BuildRegistry(env, part) == BuildRegistry(env, whole)
  {
    hide ReadFixture, Sorted;
    FixturesSame(env, part, whole);
    MembersSame(env, part, whole);
    EntriesSame(env, part, whole);
    hide MemberPaths, EntriesById;
    assert Records(env, part, MemberPaths(env, part)) == Records(env, whole, MemberPaths(env, whole));
  }

  // ------------------------------------------------------ the digest's text

  /** The digest text of nothing is the header. */
  lemma DigestTextEmpty()
    ensures DigestText(map[]) == "canary-pack-v1\n"
  {
    var nothing: map<string, PackFile> := map[];
    assert nothing.Keys == {};
    SortedUnique(Sorted({}), []);
  }

  /** One more file adds a line to the digest text, at the end when its path comes last. */
  lemma DigestTextGrows(records: map<string, PackFile>, path: string, f: PackFile, grown: map<string, PackFile>)
    requires grown == records[path := f] && forall p | p in records :: Less(p, path)
    ensures DigestText(grown) == DigestText(records) + f.sha256 + " " + Decimal(f.size) + " " + path + "\n"
  {
    hide Decimal, Line, Lines, Less, Sorted;
    AllListed(records);
    AllListed(grown);
    LinesGrow(records, path, f, grown);
    LineConcat(HEADER, Lines(Sorted(records.Keys), records), path, f);
  }

  lemma AllListed(records: map<string, PackFile>)
    ensures forall p | p in Sorted(records.Keys) :: p in records
  {
    assert forall p | p in Sorted(records.Keys) :: p in Elements(Sorted(records.Keys));
  }

  lemma LinesGrow(records: map<string, PackFile>, path: string, f: PackFile, grown: map<string, PackFile>)
    requires grown == records[path := f] && forall p | p in records :: Less(p, path)
    requires forall p | p in Sorted(records.Keys) :: p in records
    requires forall p | p in Sorted(grown.Keys) :: p in grown
    ensures Lines(Sorted(grown.Keys), grown) == Lines(Sorted(records.Keys), records) + Line(path, f)
  {
    hide Line, Lines, Less;
    var s := Sorted(records.Keys);
    forall p | p in s
      ensures p != path && p in grown && grown[p] == records[p]
    {
      LessTotal(p, path);
    }
    SortedGrows(records.Keys, path);
    assert grown.Keys == records.Keys + {path};
    LinesSame(s, records, grown);
    LinesSnoc(s, path, grown);
  }

  lemma SortedGrows(names: set<string>, last: string)
    requires forall p | p in names :: Less(p, last)
    ensures Sorted(names + {last}) == Sorted(names) + [last]
  {
    hide Less;
    var s := Sorted(names);
    forall p | p in s
      ensures Less(p, last)
    {
      assert p in Elements(s);
    }
    var t := s + [last];
    assert Elements(t) == names + {last};
    SortedIs(t);
  }

  lemma LineConcat(header: string, lines: string, path: string, f: PackFile)
    ensures header + (lines + Line(path, f)) == header + lines + f.sha256 + " " + Decimal(f.size) + " " + path + "\n"
  {
    hide Decimal;
  }

  lemma {:induction false} LinesSame(paths: seq<string>, a: map<string, PackFile>, b: map<string, PackFile>)
    requires forall p | p in paths :: p in a && p in b && a[p] == b[p]
    ensures Lines(paths, a) == Lines(paths, b)
  {
    if paths != [] {
      LinesSame(paths[1..], a, b);
    }
  }

  lemma {:induction false} LinesSnoc(paths: seq<string>, p: string, records: map<string, PackFile>)
    requires (forall q | q in paths :: q in records) && p in records
    ensures Lines(paths + [p], records) == Lines(paths, records) + Line(p, records[p])
  {
    hide Line;
    if paths == [] {
      assert [] + [p] == [p] && [p][1..] == [];
    } else {
      assert (paths + [p])[1..] == paths[1..] + [p];
      LinesSnoc(paths[1..], p, records);
    }
  }

  /** What the digest format assumes of hashes and paths. */
  ghost predicate RecordsOk(records: map<string, PackFile>) {
    forall p | p in records ::
      |records[p].sha256| == 64 && '\n' !in records[p].sha256 && CheckPackPath(p)
  }

  lemma NoNewline(path: string)
    requires CheckPackPath(path)
    ensures '\n' !in path
  {
    assert IsControl('\n');
  }

  lemma NoNewlineInDecimal(n: nat)
    ensures '\n' !in Decimal(n) && ' ' !in Decimal(n)
  {
    assert '\n' !in DIGITS && ' ' !in DIGITS;
  }

  /** Two texts that each end at their first separator agree in front of it and behind it. */
  lemma FirstSeparator(a: string, b: string, c: string, d: string, mark: char)
    requires mark !in a && mark !in c && a + [mark] + b == c + [mark] + d
    ensures a == c && b == d
  {
    var s := a + [mark] + b;
    assert s[|a|] == mark && s[|c|] == mark;
    assert forall i | 0 <= i < |a| :: s[i] == a[i] != mark;
    assert forall i | 0 <= i < |c| :: s[i] == c[i] != mark;
    assert a == s[..|a|] && c == s[..|c|];
    assert b == s[|a| + 1..] && d == s[|c| + 1..];
  }

  /** A line determines its path, hash and size. */
  lemma LineInjective(p: string, f: PackFile, q: string, g: PackFile, rest: string, other: string)
    requires |f.sha256| == 64 && |g.sha256| == 64 && '\n' !in f.sha256 && '\n' !in g.sha256
    requires CheckPackPath(p) && CheckPackPath(q)
    requires Line(p, f) + rest == Line(q, g) + other
    ensures p == q && f == g && rest == other
  {
    hide CheckPackPath, Decimal;
    var a := f.sha256 + " " + Decimal(f.size) + " " + p;
    var c := g.sha256 + " " + Decimal(g.size) + " " + q;
    NoNewline(p);
    NoNewline(q);
    NoNewlineInDecimal(f.size);
    NoNewlineInDecimal(g.size);
    assert Line(p, f) + rest == a + ['\n'] + rest && Line(q, g) + other == c + ['\n'] + other;
    FirstSeparator(a, rest, c, other, '\n');
    assert f.sha256 == a[..64] && g.sha256 == c[..64];
    assert a[65..] == Decimal(f.size) + [' '] + p && c[65..] == Decimal(g.size) + [' '] + q;
    FirstSeparator(Decimal(f.size), p, Decimal(g.size), q, ' ');
    DecimalInjective(f.size, g.size);
  }

  lemma {:induction false} LinesInjective(s: seq<string>, a: map<string, PackFile>,
                                          t: seq<string>, b: map<string, PackFile>)
    requires RecordsOk(a) && RecordsOk(b)
    requires (forall p | p in s :: p in a) && (forall p | p in t :: p in b)
    requires Lines(s, a) == Lines(t, b)
    ensures s == t && forall p | p in s :: a[p] == b[p]
  {
    hide CheckPackPath;
    if s != [] && t != [] {
      LineInjective(s[0], a[s[0]], t[0], b[t[0]], Lines(s[1..], a), Lines(t[1..], b));
      LinesInjective(s[1..], a, t[1..], b);
      assert s == [s[0]] + s[1..] && t == [t[0]] + t[1..];
    }
  }

  /** Two sets of pack files with one digest text are equal. */
  lemma DigestTextInjective(a: map<string, PackFile>, b: map<string, PackFile>)
    requires RecordsOk(a) && RecordsOk(b)
    ensures DigestText(a) == DigestText(b) <==> a == b
  {
    if DigestText(a) == DigestText(b) {
      hide CheckPackPath, RecordsOk;
      var s, t := Sorted(a.Keys), Sorted(b.Keys);
      assert Lines(s, a) == DigestText(a)[|HEADER|..] && Lines(t, b) == DigestText(b)[|HEADER|..];
      assert forall p | p in s :: p in Elements(s);
      assert forall p | p in t :: p in Elements(t);
      LinesInjective(s, a, t, b);
      forall p | p in a
        ensures p in b && a[p] == b[p]
      {
        assert p in Elements(s);
      }
      assert a.Keys == Elements(s) == Elements(t) == b.Keys;
    }
  }
}
