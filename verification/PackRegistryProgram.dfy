/**
 `build_registry` and `pack_digest` as the program runs them, proved against the specification.
 */
module PackRegistryProgram {
  import opened Bytes
  import opened PackPaths
  import opened PackRegistry
  import opened PackRegistryProofs

  /** `pack_digest`: the records sorted by path, one line each, hashed. */
  method DigestOf(env: Env, records: map<string, PackFile>) returns (digest: string)
    ensures digest == PackDigest(env, records)
  {
    var paths := Sort(records.Keys);
    hide Sorted, Line, StrictlySorted;
    SortedIs(paths);
    assert forall p | p in paths :: p in Elements(paths);
    var text := HEADER;
    for i := 0 to |paths|
      invariant text == HEADER + Lines(paths[..i], records)
    {
      assert paths[..i + 1] == paths[..i] + [paths[i]];
      LinesSnoc(paths[..i], paths[i], records);
      text := text + Line(paths[i], records[paths[i]]);
    }
    assert paths[..|paths|] == paths;
    digest := "sha256:" + env.sha256(env.utf8(text));
  }

  /** The payload list of an entry, sorted by path. */
  method PayloadList(env: Env, files: Files, paths: set<string>) returns (r: seq<Payload>)
    requires paths <= files.Keys
    ensures r == PayloadEntries(env, files, paths)
  {
    var sorted := Sort(paths);
    SortedIs(sorted);
    r := [];
    for i := 0 to |sorted|
      invariant |r| == i && forall k | 0 <= k < i :: r[k] == PayloadEntries(env, files, paths)[k]
    {
      assert sorted[i] in Elements(sorted);
      r := r + [Payload(sorted[i], env.sha256(files[sorted[i]]))];
    }
  }

  /** The checks and the entry of one fixture. */
  method ReadFixtureFrom(env: Env, files: Files, path: string) returns (r: Option<Contribution>)
    requires path in files
    ensures r == ReadFixture(env, files, path)
  {
    hide RequiredString, Protocol, PayloadPaths, OptionalString, Capabilities, PayloadEntries;
    var f :- env.parse(files[path]);
    var id :- RequiredString(f, "id");
    var surface :- RequiredString(f, "surface");
    if surface !in SURFACES {
      return None;
    }
    var category :- RequiredString(f, "category");
    var description :- RequiredString(f, "description");
    var protocol :- Protocol(f);
    var payloads :- PayloadPaths(files, f, path);
    var source :- OptionalString(f, "source_reference");
    var capabilities :- Capabilities(f);
    PayloadPathsExist(files, f, path);
    var list := PayloadList(env, files, payloads);
    return Some(Contribution(
      Entry(id, path, env.sha256(files[path]), surface, category, description, source, capabilities, list),
      protocol, payloads));
  }

  /** What the loop has collected from the fixtures `done`. */
  ghost predicate Collected(env: Env, files: Files, done: set<string>, byId: map<string, Entry>,
                            protocols: set<int>, records: map<string, PackFile>) {
    && done <= FixturePaths(files)
    && (forall p | p in done :: ReadFixture(env, files, p).Some?)
    && (forall p | p in done ::
          Read(env, files, p).entry.id in byId && byId[Read(env, files, p).entry.id] == Read(env, files, p).entry)
    && (forall id | id in byId :: exists p | p in done :: Read(env, files, p).entry.id == id)
    && protocols == (set p | p in done :: Read(env, files, p).protocol)
    && NamedBy(env, files, done) <= files.Keys
    && records == Records(env, files, NamedBy(env, files, done))
  }

  /** Some fixtures and the payloads they name. */
  ghost function NamedBy(env: Env, files: Files, done: set<string>): set<string>
    requires done <= files.Keys && forall p | p in done :: ReadFixture(env, files, p).Some?
  {
    done + set q | q in files && exists p | p in done :: q in Read(env, files, p).payloads
  }

  lemma CollectOne(env: Env, files: Files, done: set<string>, path: string, byId: map<string, Entry>,
                   protocols: set<int>, records: map<string, PackFile>)
    requires Collected(env, files, done, byId, protocols, records)
    requires path in FixturePaths(files) && path !in done && ReadFixture(env, files, path).Some?
    requires Read(env, files, path).entry.id !in byId
    ensures var c := Read(env, files, path);
            && c.payloads <= files.Keys
            && Collected(env, files, done + {path}, byId[c.entry.id := c.entry], protocols + {c.protocol},
                         records + Records(env, files, {path} + c.payloads))
  {
    hide ReadFixture, NamedBy, Records;
    EntryHolds(env, files, path);
    var c := Read(env, files, path);
    NamedGrows(env, files, done, path);
    RecordsJoin(env, files, NamedBy(env, files, done), {path} + c.payloads);
    ProtocolsGrow(env, files, done, path);
    var after := byId[c.entry.id := c.entry];
    forall id | id in after
      ensures exists p | p in done + {path} :: Read(env, files, p).entry.id == id
    {
      if id in byId {
        var p :| p in done && Read(env, files, p).entry.id == id;
        assert p in done + {path};
      } else {
        assert path in done + {path};
      }
    }
  }

  lemma RecordsJoin(env: Env, files: Files, a: set<string>, b: set<string>)
    requires a <= files.Keys && b <= files.Keys
    ensures Records(env, files, a) + Records(env, files, b) == Records(env, files, a + b)
  {
  }

  lemma ProtocolsGrow(env: Env, files: Files, done: set<string>, path: string)
    requires done <= files.Keys && path in files && forall p | p in done + {path} :: ReadFixture(env, files, p).Some?
    ensures (set p | p in done + {path} :: Read(env, files, p).protocol)
         == (set p | p in done :: Read(env, files, p).protocol) + {Read(env, files, path).protocol}
  {
    hide ReadFixture;
    forall p | p in done
      ensures Read(env, files, p).protocol in (set q | q in done + {path} :: Read(env, files, q).protocol)
    {
      assert p in done + {path};
    }
    assert path in done + {path};
  }

  lemma NamedGrows(env: Env, files: Files, done: set<string>, path: string)
    requires done <= files.Keys && path in files && forall p | p in done + {path} :: ReadFixture(env, files, p).Some?
    requires Read(env, files, path).payloads <= files.Keys
    ensures NamedBy(env, files, done + {path}) == NamedBy(env, files, done) + ({path} + Read(env, files, path).payloads)
  {
    hide ReadFixture;
    assert path in done + {path};
  }

  lemma AllCollected(env: Env, files: Files, byId: map<string, Entry>, protocols: set<int>,
                     records: map<string, PackFile>)
    requires Collected(env, files, FixturePaths(files), byId, protocols, records) && FixturePaths(files) != {}
    requires forall p, q | p in FixturePaths(files) && q in FixturePaths(files) ::
               Read(env, files, p).entry.id == Read(env, files, q).entry.id ==> p == q
    ensures FixturesOk(env, files) <==> |protocols| == 1
    ensures FixturesOk(env, files) ==>
              && byId == EntriesById(env, files) && records == Records(env, files, MemberPaths(env, files))
              && forall p | p in FixturePaths(files) :: protocols == {Read(env, files, p).protocol}
  {
    hide ReadFixture, Records;
    var f :| f in FixturePaths(files);
    var x := Read(env, files, f).protocol;
    assert x in protocols;
    if |protocols| == 1 {
      OneProtocol(protocols, x);
      forall p | p in FixturePaths(files)
        ensures Read(env, files, p).protocol == x
      {
        assert Read(env, files, p).protocol in protocols;
      }
    }
    if FixturesOk(env, files) {
      assert protocols == {x};
      assert NamedBy(env, files, FixturePaths(files)) == MemberPaths(env, files);
      SameEntries(env, files, byId, protocols, records);
    }
  }

  lemma SameEntries(env: Env, files: Files, byId: map<string, Entry>, protocols: set<int>,
                    records: map<string, PackFile>)
    requires FixturesOk(env, files) && Collected(env, files, FixturePaths(files), byId, protocols, records)
    ensures byId == EntriesById(env, files)
  {
    hide ReadFixture, Records;
  }

  lemma OneProtocol(protocols: set<int>, x: int)
    requires |protocols| == 1 && x in protocols
    ensures protocols == {x}
  {
    assert |protocols - {x}| == 0;
  }

  /** The variables of the loop over fixtures. */
  datatype Collection = Collection(byId: map<string, Entry>, protocols: set<int>, records: map<string, PackFile>)

  ghost predicate Holds(env: Env, files: Files, done: set<string>, c: Collection) {
    Collected(env, files, done, c.byId, c.protocols, c.records) && IdsDistinct(env, files, done)
  }

  /** One turn of the loop over fixtures: read it, refuse a duplicate id, register its files. */
  method CollectFixture(env: Env, files: Files, path: string, c: Collection, ghost done: set<string>)
    returns (r: Option<Collection>)
    requires path in FixturePaths(files) && path !in done && Holds(env, files, done, c)
    ensures r.None? ==> BuildRegistry(env, files).None?
    ensures r.Some? ==> Holds(env, files, done + {path}, r.value)
  {
    hide ReadFixture, Collected, BuildRegistry, IdsDistinct;
    var read := ReadFixtureFrom(env, files, path);
    if read.None? {
      Unreadable(env, files, path);
      return None;
    }
    var entry := read.value.entry;
    if entry.id in c.byId {
      DuplicateId(env, files, done, path, c.byId, c.protocols, c.records);
      return None;
    }
    CollectOne(env, files, done, path, c.byId, c.protocols, c.records);
    IdsGrow(env, files, done, path, c.byId, c.protocols, c.records);
    var records := Records(env, files, {path} + read.value.payloads);
    return Some(Collection(c.byId[entry.id := entry], c.protocols + {read.value.protocol}, c.records + records));
  }

  /** The loop over fixtures in path order. */
  method CollectFixtures(env: Env, files: Files, paths: seq<string>) returns (r: Option<Collection>)
    requires StrictlySorted(paths) && Elements(paths) == FixturePaths(files)
    ensures r.None? ==> BuildRegistry(env, files).None?
    ensures r.Some? ==> Holds(env, files, FixturePaths(files), r.value)
  {
    hide Holds, BuildRegistry, FixturePaths;
    var c := Collection(map[], {}, map[]);
    NothingCollected(env, files);
    assert Elements(paths[..0]) == {};
    for i := 0 to |paths|
      invariant Holds(env, files, Elements(paths[..i]), c)
    {
      SortedNext(paths, i);
      var next := CollectFixture(env, files, paths[i], c, Elements(paths[..i]));
      if next.None? {
        return None;
      }
      c := next.value;
    }
    assert paths[..|paths|] == paths;
    return Some(c);
  }

  /** `build_registry` with its default options. */
  method BuildRegistryFrom(env: Env, files: Files) returns (r: Option<Registry>)
    ensures r == BuildRegistry(env, files)
  {
    hide ReadFixture, Collected, FixturesOk, BuildRegistry;
    var paths := Sort(FixturePaths(files));
    if paths == [] {
      NoFixtures(env, files);
      return None;
    }
    HasElement(paths);
    var collected := CollectFixtures(env, files, paths);
    if collected.None? {
      return None;
    }
    var Collection(byId, protocols, records) := collected.value;
    FinallyDistinct(env, files, byId, protocols, records);
    if |protocols| != 1 {
      return None;
    }
    var protocol :| protocol in protocols;
    var ids := Sort(byId.Keys);
    SortedIs(ids);
    var digest := DigestOf(env, records);
    assert forall id | id in ids :: id in Elements(ids);
    Assemble(env, files, byId, protocols, records, protocol, ids);
    return Some(Registry(protocol, InOrder(ids, byId), digest));
  }

  /** The generator's options: whether a pack may be empty, the protocol it must have, the one its name gives. */
  datatype Options = Options(allowEmpty: bool, protocol: Option<int>, nameProtocol: Option<int>)

  /** An empty pack needs a positive protocol, and not another one than its directory's name gives. */
  predicate OptionsOk(o: Options) {
    o.allowEmpty ==>
      && o.protocol.Some? && o.protocol.value > 0
      && (o.nameProtocol.Some? ==> o.nameProtocol == o.protocol)
  }

  /**
   `build_registry` with its options: they can refuse a registry, or allow one without fixtures, but they
   never change one.
   */
  method BuildRegistryWith(env: Env, files: Files, o: Options) returns (r: Option<Registry>)
    ensures r.Some? <==>
              && OptionsOk(o)
              && (if FixturePaths(files) == {} then o.allowEmpty
                  else BuildRegistry(env, files).Some?
                       && (o.protocol.Some? ==> o.protocol.value == BuildRegistry(env, files).value.protocol))
    ensures r.Some? && FixturePaths(files) != {} ==> r == BuildRegistry(env, files)
    ensures r.Some? && FixturePaths(files) == {} ==>
              r.value == Registry(o.protocol.value, [], PackDigest(env, map[]))
    ensures !o.allowEmpty && o.protocol.None? ==> r == BuildRegistry(env, files)
  {
    hide BuildRegistry, PackDigest;
    if o.allowEmpty {
      if o.protocol.None? || o.protocol.value <= 0 {
        return None;
      }
      if o.nameProtocol.Some? && o.protocol != o.nameProtocol {
        return None;
      }
    }
    if FixturePaths(files) == {} {
      NoFixtures(env, files);
      if !o.allowEmpty {
        return None;
      }
      var digest := DigestOf(env, map[]);
      return Some(Registry(o.protocol.value, [], digest));
    }
    r := BuildRegistryFrom(env, files);
    if r.Some? && o.protocol.Some? && o.protocol.value != r.value.protocol {
      return None;
    }
  }

  /** Ids of different fixtures among `done` differ. */
  ghost predicate IdsDistinct(env: Env, files: Files, done: set<string>) {
    && done <= files.Keys && (forall p | p in done :: ReadFixture(env, files, p).Some?)
    && forall p, q | p in done && q in done :: Read(env, files, p).entry.id == Read(env, files, q).entry.id ==> p == q
  }

  lemma NoFixtures(env: Env, files: Files)
    requires FixturePaths(files) == {}
    ensures BuildRegistry(env, files).None?
  {
  }

  lemma NothingCollected(env: Env, files: Files)
    ensures Holds(env, files, {}, Collection(map[], {}, map[]))
  {
    assert NamedBy(env, files, {}) == {};
    assert Records(env, files, {}) == map[];
  }

  lemma SortedNext(paths: seq<string>, i: nat)
    requires StrictlySorted(paths) && i < |paths|
    ensures Elements(paths[..i + 1]) == Elements(paths[..i]) + {paths[i]} && paths[i] !in Elements(paths[..i])
    ensures paths[i] in Elements(paths)
  {
    assert paths[..i + 1] == paths[..i] + [paths[i]];
    forall k | 0 <= k < i
      ensures paths[k] != paths[i]
    {
      LessTotal(paths[k], paths[i]);
    }
  }

  lemma Unreadable(env: Env, files: Files, path: string)
    requires path in FixturePaths(files) && ReadFixture(env, files, path).None?
    ensures BuildRegistry(env, files).None?
  {
  }

  lemma DuplicateId(env: Env, files: Files, done: set<string>, path: string, byId: map<string, Entry>,
                    protocols: set<int>, records: map<string, PackFile>)
    requires Collected(env, files, done, byId, protocols, records)
    requires path in FixturePaths(files) && path !in done && ReadFixture(env, files, path).Some?
    requires Read(env, files, path).entry.id in byId
    ensures BuildRegistry(env, files).None?
  {
    hide ReadFixture;
    var p :| p in done && Read(env, files, p).entry.id == Read(env, files, path).entry.id;
    assert p in FixturePaths(files) && p != path;
  }

  lemma IdsGrow(env: Env, files: Files, done: set<string>, path: string, byId: map<string, Entry>,
                protocols: set<int>, records: map<string, PackFile>)
    requires Collected(env, files, done, byId, protocols, records) && IdsDistinct(env, files, done)
    requires path in FixturePaths(files) && ReadFixture(env, files, path).Some?
    requires Read(env, files, path).entry.id !in byId
    ensures IdsDistinct(env, files, done + {path})
  {
    hide ReadFixture;
  }

  lemma FinallyDistinct(env: Env, files: Files, byId: map<string, Entry>, protocols: set<int>,
                        records: map<string, PackFile>)
    requires Collected(env, files, FixturePaths(files), byId, protocols, records) && FixturePaths(files) != {}
    requires IdsDistinct(env, files, FixturePaths(files))
    ensures BuildRegistry(env, files).Some? <==> |protocols| == 1
    ensures FixturesOk(env, files) <==> |protocols| == 1
    ensures exists x :: x in protocols
  {
    hide ReadFixture;
    AllCollected(env, files, byId, protocols, records);
    var f :| f in FixturePaths(files);
    assert Read(env, files, f).protocol in protocols;
  }

  lemma Assemble(env: Env, files: Files, byId: map<string, Entry>, protocols: set<int>, records: map<string, PackFile>,
                 protocol: int, ids: seq<string>)
    requires Collected(env, files, FixturePaths(files), byId, protocols, records) && FixturePaths(files) != {}
    requires IdsDistinct(env, files, FixturePaths(files)) && FixturesOk(env, files)
    requires protocol in protocols && ids == Sorted(byId.Keys) && forall id | id in ids :: id in byId
    ensures BuildRegistry(env, files) == Some(Registry(protocol, InOrder(ids, byId), PackDigest(env, records)))
  {
    hide ReadFixture, Collected;
    AllCollected(env, files, byId, protocols, records);
  }
}
