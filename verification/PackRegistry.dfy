/**
 The fixture registry of a pack: which files belong to it, its entries in canonical order, and the
 digest over the canonical text of its files.
 */
module PackRegistry {
  import opened Bytes
  import opened PackPaths

  /** Parsed TOML values, as far as the generator looks at them. */
  datatype Toml = TString(text: string) | TInteger(value: int) | TBoolean(flag: bool) | TList(items: seq<Toml>) | TOther

  type Fixture = map<string, Toml>

  datatype Payload = Payload(path: string, sha256: string)

  datatype Entry = Entry(
    id: string, path: string, sha256: string, surface: string, category: string, description: string,
    sourceReference: Option<string>, capabilities: Option<seq<string>>, payloads: seq<Payload>)

  datatype Registry = Registry(protocol: int, fixtures: seq<Entry>, packDigest: string)

  /** Case folding, SHA-256 in hexadecimal, UTF-8, TOML parsing and JSON rendering are given functions. */
  datatype Env = Env(
    fold: string -> string,
    sha256: bytes -> string,
    utf8: string -> bytes,
    parse: bytes -> Option<Fixture>,
    render: Registry -> bytes)

  // ---------------------------------------------------------------- fixtures

  const SURFACES: set<string> := {"xdr", "rpc", "soroban"}

  predicate IsFixture(path: string) {
    |path| >= 5 && path[|path| - 5..] == ".toml"
  }

  function RequiredString(f: Fixture, key: string): Option<string> {
    if key in f && f[key].TString? && f[key].text != "" then Some(f[key].text) else None
  }

  predicate IsLetter(c: char) {
    'A' <= c <= 'Z' || 'a' <= c <= 'z'
  }

  /** `check_reference`: a plain relative path. */
  predicate CheckReference(value: string) {
    && value != "" && value[0] != '/' && '\\' !in value && '\0' !in value
    && !(|value| >= 2 && IsLetter(value[0]) && value[1] == ':')
    && forall segment | segment in Split(value) :: segment !in {"", ".", ".."}
  }

  function PayloadPath(path: string, reference: string): string {
    if Parent(path) == "" then reference else Parent(path) + "/" + reference
  }

  /** The payload a field names: nothing when the field is absent, a failure when it is unusable. */
  function FieldPayload(files: Files, f: Fixture, path: string, field: string): Option<set<string>> {
    if field !in f then Some({})
    else if !f[field].TString? || !CheckReference(f[field].text) then None
    else
      var payload := PayloadPath(path, f[field].text);
      if CheckPackPath(payload) && payload in files then Some({payload}) else None
  }

  function PayloadPaths(files: Files, f: Fixture, path: string): Option<set<string>> {
    var input :- FieldPayload(files, f, path, "input_file");
    var expected :- FieldPayload(files, f, path, "expected_file");
    Some(input + expected)
  }

  function Strings(items: seq<Toml>): Option<seq<string>> {
    if items == [] then Some([])
    else if !items[0].TString? || items[0].text == "" then None
    else
      var rest :- Strings(items[1..]);
      Some([items[0].text] + rest)
  }

  /** An optional field: absent, valid, or a failure. */
  function OptionalString(f: Fixture, key: string): Option<Option<string>> {
    if key !in f then Some(None)
    else
      var text :- RequiredString(f, key);
      Some(Some(text))
  }

  function Capabilities(f: Fixture): Option<Option<seq<string>>> {
    if "required_capabilities" !in f then Some(None)
    else if !f["required_capabilities"].TList? then None
    else
      var names :- Strings(f["required_capabilities"].items);
      Some(Some(names))
  }

  function Protocol(f: Fixture): Option<int> {
    if "protocol" in f && f["protocol"].TInteger? && f["protocol"].value >= 0 then Some(f["protocol"].value) else None
  }

  /** What one fixture contributes: its entry, its protocol and the payload files it names. */
  datatype Contribution = Contribution(entry: Entry, protocol: int, payloads: set<string>)

  ghost function PayloadEntries(env: Env, files: Files, paths: set<string>): seq<Payload>
    requires paths <= files.Keys
  {
    var sorted := Sorted(paths);
    seq(|sorted|, i requires 0 <= i < |sorted| =>
      assert sorted[i] in Elements(sorted); Payload(sorted[i], env.sha256(files[sorted[i]])))
  }

  lemma PayloadPathsExist(files: Files, f: Fixture, path: string)
    ensures PayloadPaths(files, f, path).Some? ==> PayloadPaths(files, f, path).value <= files.Keys
  {
  }

  ghost function ReadFixture(env: Env, files: Files, path: string): Option<Contribution>
    requires path in files
  {
    var f :- env.parse(files[path]);
    var id :- RequiredString(f, "id");
    var surface :- RequiredString(f, "surface");
    var category :- RequiredString(f, "category");
    var description :- RequiredString(f, "description");
    var protocol :- Protocol(f);
    var payloads :- PayloadPaths(files, f, path);
    var source :- OptionalString(f, "source_reference");
    var capabilities :- Capabilities(f);
    if surface !in SURFACES then None
    else
      PayloadPathsExist(files, f, path);
      Some(Contribution(
        Entry(id, path, env.sha256(files[path]), surface, category, description, source, capabilities,
              PayloadEntries(env, files, payloads)),
        protocol, payloads))
  }

  // ------------------------------------------------------------------ digest

  const HEADER: string := "canary-pack-v1\n"

  /** A pack file as the digest sees it. */
  datatype PackFile = PackFile(sha256: string, size: nat)

  function Line(path: string, f: PackFile): string {
    f.sha256 + " " + Decimal(f.size) + " " + path + "\n"
  }

  function Lines(paths: seq<string>, records: map<string, PackFile>): string
    requires forall p | p in paths :: p in records
  {
    if paths == [] then "" else Line(paths[0], records[paths[0]]) + Lines(paths[1..], records)
  }

  /** The canonical text of a set of pack files: a header, then one line per file in path order. */
  ghost function DigestText(records: map<string, PackFile>): string {
    HEADER + Lines(Sorted(records.Keys), records)
  }

  function RecordOf(env: Env, data: bytes): PackFile {
    PackFile(env.sha256(data), |data|)
  }

  function Records(env: Env, files: Files, paths: set<string>): map<string, PackFile>
    requires paths <= files.Keys
  {
    map p | p in paths :: RecordOf(env, files[p])
  }

  ghost function PackDigest(env: Env, records: map<string, PackFile>): string {
    "sha256:" + env.sha256(env.utf8(DigestText(records)))
  }

  // ---------------------------------------------------------------- registry

  function FixturePaths(files: Files): set<string> {
    set p | p in files && IsFixture(p)
  }

  /** Every fixture is readable, ids are unique and one protocol is declared. */
  ghost predicate FixturesOk(env: Env, files: Files) {
    && FixturePaths(files) != {}
    && (forall p | p in FixturePaths(files) :: ReadFixture(env, files, p).Some?)
    && (forall p, q | p in FixturePaths(files) && q in FixturePaths(files) ::
          && Read(env, files, p).protocol == Read(env, files, q).protocol
          && (Read(env, files, p).entry.id == Read(env, files, q).entry.id ==> p == q))
  }

  ghost function Read(env: Env, files: Files, p: string): Contribution
    requires p in files && ReadFixture(env, files, p).Some?
  {
    ReadFixture(env, files, p).value
  }

  /** The pack: the fixtures and the payloads they name. */
  ghost function MemberPaths(env: Env, files: Files): set<string>
    requires FixturesOk(env, files)
  {
    FixturePaths(files) + set p | p in files && exists q | q in FixturePaths(files) :: p in Read(env, files, q).payloads
  }

  ghost function EntriesById(env: Env, files: Files): map<string, Entry>
    requires FixturesOk(env, files)
  {
    map p | p in FixturePaths(files) :: Read(env, files, p).entry.id := Read(env, files, p).entry
  }

  function InOrder(ids: seq<string>, entries: map<string, Entry>): (r: seq<Entry>)
    requires forall id | id in ids :: id in entries
    ensures |r| == |ids| && forall i | 0 <= i < |ids| :: r[i] == entries[ids[i]]
  {
    seq(|ids|, i requires 0 <= i < |ids| => entries[ids[i]])
  }

  ghost function BuildRegistry(env: Env, files: Files): Option<Registry> {
    if !FixturesOk(env, files) then None
    else
      var p :| p in FixturePaths(files);
      var entries := EntriesById(env, files);
      var ids := Sorted(entries.Keys);
      assert forall id | id in ids :: id in Elements(ids);
      Some(Registry(Read(env, files, p).protocol, InOrder(ids, entries),
                    PackDigest(env, Records(env, files, MemberPaths(env, files)))))
  }
}
