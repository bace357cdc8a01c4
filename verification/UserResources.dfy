/** Operations on user resources and their receipts (`ResourceService` in app/corpus/resources.py). */
module UserResources {
  import opened Common
  import opened CorpusTables
  import opened CorpusGenerations
  import opened CorpusSources
  import opened CorpusInstall
  import opened CorpusChanges
  import opened CorpusResources
  import opened CorpusStorage
  import opened Receipts
  import EmbeddingCommits
  import EmbeddingIndexer

  /**
    What every resource operation does, whatever it is: a receipt is answered from and
    changes nothing; an error changes no table; a success stores its receipt. Nothing
    stored before is lost, and a complete core corpus stays complete.
   */
  ghost predicate Operates(catalog: Catalog, before: State, after: State, id: string,
                           r: Result<ResourceResult, CorpusError>, now: Time)
  {
    && StateOk(catalog, after)
    && Preserves(before.db, after.db) && Advances(before.db, after.db, now) && KeepsCore(catalog, before.db, after.db)
    && ReceiptsKept(before.receipts, after.receipts) && StoresNow(before.db.versions, after.db.versions, now)
    && (ReceiptFor(before.receipts, id).Some? ==> r == Ok(ReceiptFor(before.receipts, id).value) && after == before)
    && (r.Err? ==> after.db == before.db && after.receipts == before.receipts)
    && (r.Ok? && ReceiptFor(before.receipts, id).None? ==>
          && (r.value.duplicateOf.None? ==>
                Receipted(before.receipts, after.receipts, id, r.value) && NoEmptyField(r.value))
          && (r.value.duplicateOf.Some? ==> after == before))
  }

  lemma Refused(catalog: Catalog, s: State, id: string, error: CorpusError, now: Time)
    requires StateOk(catalog, s) && ReceiptFor(s.receipts, id).None?
    ensures Operates(catalog, s, s, id, Err(error), now)
  {
  }

  lemma Replayed(catalog: Catalog, s: State, id: string, now: Time)
    requires StateOk(catalog, s) && ReceiptFor(s.receipts, id).Some?
    ensures Operates(catalog, s, s, id, Ok(ReceiptFor(s.receipts, id).value), now)
  {
  }

  lemma Unreceipted(catalog: Catalog, s: State, id: string)
    requires ReceiptsOk(s.receipts) && ReceiptFor(s.receipts, id).None?
    ensures id == "" || id !in s.receipts
  {
    if id in s.receipts {
      assert ReceiptOk(s.receipts[id]);
      var r :| NoEmptyField(r) && s.receipts[id] == Encode(r);
      RoundTrip(r);
    }
  }

  lemma ReceiptedOk(before: map<string, Payload>, after: map<string, Payload>, id: string, result: ResourceResult)
    requires ReceiptsOk(before) && Receipted(before, after, id, result) && NoEmptyField(result)
    ensures ReceiptsOk(after) && ReceiptsKept(before, after)
  {
    ReceiptStored(before, after, id, result);
    assert ReceiptOk(Encode(result));
  }

  /** A transaction that commits its tables together with its receipt. */
  lemma Committed(catalog: Catalog, s: State, after: State, id: string, result: ResourceResult, now: Time)
    requires StateOk(catalog, s) && ReceiptFor(s.receipts, id).None?
    requires Wf(catalog, after.db) && FilesOk(after.db.versions, after.files)
    requires Preserves(s.db, after.db) && Advances(s.db, after.db, now) && KeepsCore(catalog, s.db, after.db)
    requires StoresNow(s.db.versions, after.db.versions, now)
    requires Receipted(s.receipts, after.receipts, id, result) && NoEmptyField(result) && result.duplicateOf.None?
    ensures Operates(catalog, s, after, id, Ok(result), now)
  {
    ReceiptedOk(s.receipts, after.receipts, id, result);
  }

  function Named<T>(name: T -> string, x: Option<T>): Option<string> {
    if x.Some? then Some(name(x.value)) else None
  }

  /** `_install_version`: the file first, then one transaction; a failed transaction takes its file back. */
  method InstallVersion(catalog: Catalog, naming: Naming, s: State, resource: nat, content: Bytes, metadata: Metadata,
                        parsed: ParsedResource, replacing: bool, id: string, now: Time)
    returns (r: Result<ResourceResult, CorpusError>, after: State)
    requires StateOk(catalog, s) && naming.Valid() && ReceiptFor(s.receipts, id).None?
    ensures Operates(catalog, s, after, id, r, now)
    ensures r.Err? ==> Tidy(s.db.versions, s.files, after.files, [UserUri(resource, content, parsed)])
    ensures r.Ok? <==>
              (replacing == (User(resource) in s.db.modules)
               && UserStorable(catalog, s.db, resource, content, metadata, parsed))
    ensures r.Err? ==>
              r.error == if replacing == (User(resource) in s.db.modules) then IntegrityError else ResourceNotFound
    ensures r.Ok? ==>
              r.value.duplicateOf.None? && InstalledAs(catalog, naming, s.db, after.db, resource, content, metadata,
                                                       parsed, r.value)
  {
    hide Wf, Preserves, Advances, SelectsUser, InstalledAs;
    var v, uri := UserVersion(catalog, resource, content, metadata), UserUri(resource, content, parsed);
    var written := WriteFiles(s.db.versions, s.files, [uri]);
    assert [uri][0] in written.Keys;
    var stored, db := InstallUserVersion(catalog, s.db, written, resource, content, metadata, parsed, now);
    if stored.Err? || replacing != (User(resource) in s.db.modules) {
      var files := RemoveUnreferenced(s.db.versions, written, [uri]);
      TidyFiles(s.db.versions, s.files, written, files, [uri]);
      after := s.(files := files);
      Refused(catalog, after, id, ResourceNotFound, now);
      return Err(if replacing != (User(resource) in s.db.modules) then ResourceNotFound else stored.error), after;
    }
    var result;
    result, after := CommitVersion(catalog, naming, s, db, written, resource, content, metadata, parsed, stored.value,
                                   id, now);
    r := Ok(result);
  }

  /** The receipt of an installed version is committed with it. */
  method CommitVersion(catalog: Catalog, naming: Naming, s: State, db: Db, written: Files, resource: nat,
                       content: Bytes, metadata: Metadata, parsed: ParsedResource, g: GenId, id: string, now: Time)
    returns (result: ResourceResult, after: State)
    requires StateOk(catalog, s) && naming.Valid() && ReceiptFor(s.receipts, id).None?
    requires Wf(catalog, db) && FilesOk(db.versions, written) && StoresNow(s.db.versions, db.versions, now)
    requires var v := UserVersion(catalog, resource, content, metadata);
             SelectsUser(catalog, s.db, db, resource, v, g, now)
             && InstalledRows(catalog, s.db, db, resource, v, metadata, parsed)
    ensures after.db == db && Operates(catalog, s, after, id, Ok(result), now) && result.duplicateOf.None?
    ensures InstalledAs(catalog, naming, s.db, db, resource, content, metadata, parsed, result)
  {
    var v := UserVersion(catalog, resource, content, metadata);
    var status := if v in ActiveSources(s.db) then "unchanged"
                  else if User(resource) in s.db.modules then "replaced" else "added";
    result := ResourceResult(status, naming.resource(resource), "user-" + naming.resource(resource),
                             Some(naming.version(v)), Some(naming.generation(g)),
                             |parsed.sections|, parsed.warnings, None);
    Unreceipted(catalog, s, id);
    var receipts := StoreReceipt(s.receipts, id, result);
    after := State(db, written, receipts);
    Committed(catalog, s, after, id, result, now);
  }

  /** The rows of an installed version, and exactly when a denied resource has no ready chunk afterwards. */
  ghost predicate InstalledRows(catalog: Catalog, before: Db, after: Db, resource: nat, v: VersionId,
                                metadata: Metadata, parsed: ParsedResource)
  {
    && v in after.versions && StoresParsed(before, after, v, parsed.sections)
    && NamesFile(before.versions, after.versions, v, parsed.extension)
    && after.modules == before.modules[User(resource) := Module(false, metadata.modelUse, true)]
    && (!metadata.modelUse ==>
          (NotSearched(after, resource) <==> v !in ActiveSources(before) || NotSearched(before, resource)))
  }

  lemma EligibleSection(catalog: Catalog, db: Db, v: VersionId, s: Section)
    requires Wf(catalog, db) && v in ActiveSources(db) && IdOf(v, s) in db.chunks
    requires v.slug in db.modules && db.modules[v.slug].modelUse
    ensures IdOf(v, s) in EmbeddingCommits.EligibleActive(db)
  {
    assert GenerationOk(db, db.generations[db.active.value]);
  }

  /**
    Replacing a file by the version that is active already overwrites the module's model use but
    keeps the generation: added without model use, then allowed, indexed and replaced by itself,
    a resource is denied and still has ready chunks.
   */
  method DeniedButReady() returns (db: Db)
    ensures User(0) in db.modules && !db.modules[User(0)].modelUse && !NotSearched(db, 0)
  {
    hide Wf, FilesOk, Preserves, Advances, Fresh, KeepsCore, EmbeddingCommits.Missing, EmbeddingCommits.Added;
    var section := Section("document", "chunk-00001", None, "title", "text");
    var parsed := ParsedResource(".txt", [section], []);
    var catalog := Catalog(map[], (name, content) => None, (name, content) => Some(parsed), m => Some(m),
                           m => "digest");
    var metadata, profile := Metadata("notes", false), "profile";
    var files: Files := map[UserUri(0, "text", parsed) := "text"];
    var empty := Db(map[], map[], map[], map[], multiset{}, multiset{}, map[], None);
    ghost var v := UserVersion(catalog, 0, "text", metadata);
    EmptyOk(catalog, empty, files, UserUri(0, "text", parsed));
    KeysCount(parsed.sections);
    var first, added := InstallUserVersion(catalog, empty, files, 0, "text", metadata, parsed, 1);
    assert HoldsSection(added.chunks, v, parsed.sections[0]);
    var allowed := CorpusResources.SetModelUse(catalog, added, 0, true, 2);
    SameChunks(added, allowed, IdOf(v, section));
    EligibleSection(catalog, allowed, v, section);
    var steps := EmbeddingIndexer.StepsNeeded(allowed, profile, 32);
    var run, indexed, stored := EmbeddingIndexer.IndexRun(catalog, allowed, profile, _ => "", 32, steps, 3);
    var last;
    last, db := InstallUserVersion(catalog, indexed, files, 0, "text", metadata, parsed, 4);
  }

  lemma EmptyOk(catalog: Catalog, db: Db, files: Files, uri: Uri)
    requires db == Db(map[], map[], map[], map[], multiset{}, multiset{}, map[], None)
    requires files == map[uri := uri.hash.content]
    ensures Wf(catalog, db) && FilesOk(db.versions, files)
  {
  }

  lemma SameChunks(a: Db, b: Db, c: ChunkId)
    requires Preserves(a, b) && c in a.chunks
    ensures c in b.chunks
  {
  }

  /** The version is stored and the resource's only active one, and the result says so. */
  ghost predicate InstalledAs(catalog: Catalog, naming: Naming, before: Db, after: Db, resource: nat, content: Bytes,
                              metadata: Metadata, parsed: ParsedResource, result: ResourceResult)
  {
    var v := UserVersion(catalog, resource, content, metadata);
    var status := if v in ActiveSources(before) then "unchanged"
                  else if User(resource) in before.modules then "replaced" else "added";
    && ActiveSources(after) == Except(ActiveSources(before), {User(resource)}) + {v}
    && InstalledRows(catalog, before, after, resource, v, metadata, parsed)
    && Reports(naming, after, result, status, resource, Some(v), |parsed.sections|, parsed.warnings)
  }

  /** The metadata is valid and the file can be parsed. */
  predicate Readable(catalog: Catalog, content: Bytes, filename: string, metadata: Metadata) {
    catalog.validate(metadata).Some? && catalog.parseResource(filename, content).Some?
  }

  ghost predicate UserCopy(versions: map<VersionId, Version>, content: Bytes, v: VersionId) {
    v in versions && v.slug.User? && v.hash == Sha256(content)
  }

  /** `_duplicate_resource`: a version of any user resource, removed or not, with the same content. */
  method FindDuplicate(versions: map<VersionId, Version>, content: Bytes) returns (found: Option<VersionId>)
    ensures found.None? ==> forall v :: !UserCopy(versions, content, v)
    ensures found.Some? ==>
              && UserCopy(versions, content, found.value)
              && forall w | UserCopy(versions, content, w) ::
                   versions[w].retrievedAt <= versions[found.value].retrievedAt
  {
    found := None;
    var rest := versions.Keys;
    while rest != {}
      invariant rest <= versions.Keys
      invariant found.None? ==> forall v | v in versions.Keys - rest :: !UserCopy(versions, content, v)
      invariant found.Some? ==>
                  && UserCopy(versions, content, found.value)
                  && forall w | w in versions.Keys - rest && UserCopy(versions, content, w) ::
                       versions[w].retrievedAt <= versions[found.value].retrievedAt
      decreases rest
    {
      var v :| v in rest;
      if v.slug.User? && v.hash == Sha256(content)
         && (found.None? || versions[found.value].retrievedAt < versions[v].retrievedAt) {
        found := Some(v);
      }
      rest := rest - {v};
    }
  }

  /** A resource number no module uses, as a fresh uuid is. */
  method NewResource(modules: map<Slug, Module>) returns (resource: nat)
    ensures User(resource) !in modules
  {
    var used: set<nat> := set slug | slug in modules && slug.User? :: slug.resource;
    ghost var unused := FreshId(used);
    resource :| resource !in used;
  }

  /** A new resource whose version joins the active ones. */
  ghost predicate Added(catalog: Catalog, naming: Naming, before: Db, after: Db, content: Bytes, filename: string,
                        metadata: Metadata, result: ResourceResult)
    requires Readable(catalog, content, filename, metadata)
  {
    exists resource :: AddedAs(catalog, naming, before, after, resource, content, filename, metadata, result)
  }

  ghost predicate AddedAs(catalog: Catalog, naming: Naming, before: Db, after: Db, resource: nat, content: Bytes,
                          filename: string, metadata: Metadata, result: ResourceResult)
    requires Readable(catalog, content, filename, metadata)
  {
    var valid := catalog.validate(metadata).value;
    && User(resource) !in before.modules
    && ActiveSources(after) == ActiveSources(before) + {UserVersion(catalog, resource, content, valid)}
    && InstalledAs(catalog, naming, before, after, resource, content, valid,
                   catalog.parseResource(filename, content).value, result)
  }

  /** The result names the latest user version that has the content already. */
  ghost predicate Duplicates(naming: Naming, db: Db, content: Bytes, result: ResourceResult) {
    exists v :: IsDuplicate(naming, db, content, v, result)
  }

  ghost predicate IsDuplicate(naming: Naming, db: Db, content: Bytes, v: VersionId, result: ResourceResult) {
    && UserCopy(db.versions, content, v)
    && (forall w | UserCopy(db.versions, content, w) :: db.versions[w].retrievedAt <= db.versions[v].retrievedAt)
    && Reports(naming, db, result, "duplicate", v.slug.resource, Some(v), |ChunksOf(db, {v})|, [])
    && result.duplicateOf == Some(naming.resource(v.slug.resource))
  }

  /** The resource's active version is now the given content under the given metadata. */
  ghost predicate Replaced(catalog: Catalog, naming: Naming, before: Db, after: Db, resource: nat, content: Bytes,
                           filename: string, metadata: Metadata, result: ResourceResult)
    requires Readable(catalog, content, filename, metadata)
  {
    InstalledAs(catalog, naming, before, after, resource, content, catalog.validate(metadata).value,
                catalog.parseResource(filename, content).value, result)
  }

  ghost predicate HasCopy(db: Db, content: Bytes) {
    exists v :: UserCopy(db.versions, content, v)
  }

  /** Exactly when a file can be added: it can be read, and is a duplicate or can be stored. */
  ghost predicate Addable(catalog: Catalog, db: Db, content: Bytes, filename: string, metadata: Metadata) {
    && Readable(catalog, content, filename, metadata)
    && (HasCopy(db, content) || HasKeys(catalog.parseResource(filename, content).value.sections))
  }

  /** The expected version, if one is given, is the active one of the resource. */
  predicate Expected(db: Db, resource: nat, expected: Option<VersionId>) {
    expected.Some? ==> expected.value in ActiveSources(db) && expected.value.slug == User(resource)
  }

  /** Exactly when a file can replace that of a resource. */
  ghost predicate Replaceable(catalog: Catalog, db: Db, resource: nat, content: Bytes, filename: string,
                              metadata: Metadata, expected: Option<VersionId>)
  {
    && User(resource) in db.modules && Expected(db, resource, expected) && Readable(catalog, content, filename,
                                                                                    metadata)
    && UserStorable(catalog, db, resource, content, catalog.validate(metadata).value,
                    catalog.parseResource(filename, content).value)
  }

  /** Exactly when metadata can be edited: the active file can replace itself under them. */
  ghost predicate Editable(catalog: Catalog, db: Db, resource: nat, filename: string, metadata: Metadata,
                           expected: Option<VersionId>)
  {
    exists was :: was in ActiveSources(db) && was.slug == User(resource)
                  && Replaceable(catalog, db, resource, was.hash.content, filename, metadata, expected)
  }

  /** The active version is the content of the former one under the new metadata. */
  ghost predicate Edited(catalog: Catalog, naming: Naming, before: Db, after: Db, resource: nat, filename: string,
                         metadata: Metadata, result: ResourceResult)
  {
    exists was :: was in ActiveSources(before) && was.slug == User(resource)
                  && Readable(catalog, was.hash.content, filename, metadata)
                  && Replaced(catalog, naming, before, after, resource, was.hash.content, filename, metadata, result)
  }

  lemma EditsActive(catalog: Catalog, db: Db, resource: nat, d: Resource, filename: string, metadata: Metadata,
                    expected: Option<VersionId>)
    requires Wf(catalog, db) && Describes(db, resource, d) && d.active.Some? && Expected(db, resource, expected)
    ensures Replaceable(catalog, db, resource, d.active.value.hash.content, filename, metadata, d.active)
            <==> Editable(catalog, db, resource, filename, metadata, expected)
  {
    ExpectedActive(catalog, db, resource, d, expected);
    assert Expected(db, resource, d.active);
  }

  lemma ExpectedActive(catalog: Catalog, db: Db, resource: nat, d: Resource, expected: Option<VersionId>)
    requires Wf(catalog, db) && Describes(db, resource, d)
    ensures Expected(db, resource, expected) <==> expected.None? || d.active == expected
    ensures forall v | v in ActiveSources(db) && v.slug == User(resource) :: d.active == Some(v)
  {
    ActiveMapOk(catalog, db);
    forall v | v in ActiveSources(db) && v.slug == User(resource) ensures d.active == Some(v) {
      assert User(resource) in Slugs(ActiveSources(db));
    }
  }

  lemma NewVersionUnknown(catalog: Catalog, db: Db, resource: nat, content: Bytes, metadata: Metadata)
    requires Wf(catalog, db) && User(resource) !in db.modules
    ensures UserVersion(catalog, resource, content, metadata) !in db.versions
  {
  }

  lemma NewResourceAdded(catalog: Catalog, db: Db, resource: nat)
    requires Wf(catalog, db) && User(resource) !in db.modules
    ensures Except(ActiveSources(db), {User(resource)}) == ActiveSources(db)
  {
    if db.active.Some? {
      assert GenerationOk(db, db.generations[db.active.value]);
    }
  }

  lemma Duplicated(catalog: Catalog, s: State, id: string, result: ResourceResult, now: Time)
    requires StateOk(catalog, s) && ReceiptFor(s.receipts, id).None? && result.duplicateOf.Some?
    ensures Operates(catalog, s, s, id, Ok(result), now)
  {
  }

  /** The original file of an active version is there and unaltered. */
  method ReadArtifact(catalog: Catalog, s: State, v: VersionId) returns (content: Bytes)
    requires StateOk(catalog, s) && v in ActiveSources(s.db)
    ensures content == v.hash.content
  {
    assert GenerationOk(s.db, s.db.generations[s.db.active.value]);
    content := s.files[s.db.versions[v].uri];
  }

  /** The result names the resource, the version and the generation that is active afterwards. */
  ghost predicate Reports(naming: Naming, db: Db, result: ResourceResult, status: string, resource: nat,
                          version: Option<VersionId>, chunkCount: nat, warnings: seq<string>)
  {
    && result.status == status && result.resourceId == naming.resource(resource)
    && result.slug == "user-" + result.resourceId && result.versionId == Named(naming.version, version)
    && result.generationId == Named(naming.generation, db.active)
    && result.chunkCount == chunkCount && result.warnings == warnings
  }

  /** The resource's version left the active ones; the result names the version it had. */
  ghost predicate Removed(naming: Naming, before: Db, after: Db, resource: nat, result: ResourceResult) {
    exists d :: RemovedFrom(naming, before, after, resource, d, result)
  }

  ghost predicate RemovedFrom(naming: Naming, before: Db, after: Db, resource: nat, d: Resource,
                              result: ResourceResult)
  {
    && ActiveSources(after) == Except(ActiveSources(before), {User(resource)})
    && Describes(before, resource, d) && Reports(naming, after, result, "removed", resource, d.active, d.chunkCount, [])
  }

  lemma RemovedBy(naming: Naming, before: Db, after: Db, resource: nat, d: Resource, g: GenId, result: ResourceResult)
    requires ActiveSources(after) == Except(ActiveSources(before), {User(resource)}) && after.active == Some(g)
    requires Describes(before, resource, d)
    requires result == ResourceResult("removed", naming.resource(resource), "user-" + naming.resource(resource),
                                      Named(naming.version, d.active), Some(naming.generation(g)), d.chunkCount, [],
                                      None)
    ensures Removed(naming, before, after, resource, result)
  {
    assert RemovedFrom(naming, before, after, resource, d, result);
  }

  /** The given version, or one retrieved last, is now the resource's active one. */
  ghost predicate Restored(naming: Naming, before: Db, after: Db, resource: nat, version: Option<VersionId>,
                           result: ResourceResult)
  {
    exists v :: RestoredTo(naming, before, after, resource, version, v, result)
  }

  ghost predicate RestoredTo(naming: Naming, before: Db, after: Db, resource: nat, version: Option<VersionId>,
                             v: VersionId, result: ResourceResult)
  {
    && (if version.Some? then v == version.value else IsLatest(before.versions, User(resource), v))
    && ActiveSources(after) == Except(ActiveSources(before), {User(resource)}) + {v}
    && Reports(naming, after, result, "restored", resource, Some(v), |ChunksOf(after, {v})|, [])
  }

  lemma RestoredBy(naming: Naming, before: Db, after: Db, resource: nat, version: Option<VersionId>, v: VersionId,
                   g: GenId, result: ResourceResult)
    requires ActiveSources(after) == Except(ActiveSources(before), {User(resource)}) + {v} && after.active == Some(g)
    requires if version.Some? then v == version.value else IsLatest(before.versions, User(resource), v)
    requires result == ResourceResult("restored", naming.resource(resource), "user-" + naming.resource(resource),
                                      Some(naming.version(v)), Some(naming.generation(g)),
                                      |ChunksOf(after, {v})|, [], None)
    ensures Restored(naming, before, after, resource, version, result)
  {
    assert RestoredTo(naming, before, after, resource, version, v, result);
  }

  /** The result names the active version, or the latest one of an inactive resource. */
  ghost predicate ModelUseSet(naming: Naming, before: Db, after: Db, resource: nat, result: ResourceResult) {
    exists d :: ModelUseReported(naming, before, after, resource, d, result)
  }

  ghost predicate ModelUseReported(naming: Naming, before: Db, after: Db, resource: nat, d: Resource,
                                   result: ResourceResult)
  {
    && Describes(before, resource, d)
    && Reports(naming, after, result, "model_use_updated", resource, if d.active.Some? then d.active else d.latest,
               d.chunkCount, [])
  }

  // ----- Exactly when each operation succeeds, and what it then does

  type Outcome = Result<ResourceResult, CorpusError>

  /** The error of an operation on a resource: the first reason in the order in which they are looked for. */
  ghost function ReplaceError(catalog: Catalog, db: Db, resource: nat, content: Bytes, filename: string,
                              metadata: Metadata, expected: Option<VersionId>): CorpusError
  {
    if User(resource) !in db.modules then ResourceNotFound
    else if !Expected(db, resource, expected) then ResourceChanged
    else if !Readable(catalog, content, filename, metadata) then InvalidResource
    else IntegrityError
  }

  ghost function AddError(catalog: Catalog, content: Bytes, filename: string, metadata: Metadata): CorpusError {
    if !Readable(catalog, content, filename, metadata) then InvalidResource else IntegrityError
  }

  /** Without an active version there is nothing to edit; else it is replaced by itself. */
  ghost predicate EditError(catalog: Catalog, db: Db, resource: nat, filename: string, metadata: Metadata,
                            expected: Option<VersionId>, error: CorpusError)
  {
    if User(resource) !in db.modules then error == ResourceNotFound
    else if !Expected(db, resource, expected) then error == ResourceChanged
    else if User(resource) !in Slugs(ActiveSources(db)) then error == VersionNotFound
    else exists was :: was in ActiveSources(db) && was.slug == User(resource)
                       && error == if Readable(catalog, was.hash.content, filename, metadata) then IntegrityError
                                   else InvalidResource
  }

  ghost predicate AddEffect(catalog: Catalog, naming: Naming, before: Db, after: Db, content: Bytes, filename: string,
                            metadata: Metadata, r: Outcome)
  {
    && (r.Ok? <==> Addable(catalog, before, content, filename, metadata))
    && (r.Err? ==> r.error == AddError(catalog, content, filename, metadata))
    && (r.Ok? && HasCopy(before, content) ==> Duplicates(naming, before, content, r.value))
    && (r.Ok? && !HasCopy(before, content) ==>
          && r.value.duplicateOf.None?
          && Added(catalog, naming, before, after, content, filename, metadata, r.value))
  }

  ghost predicate ReplaceEffect(catalog: Catalog, naming: Naming, before: Db, after: Db, resource: nat, content: Bytes,
                                filename: string, metadata: Metadata, expected: Option<VersionId>, r: Outcome)
  {
    && (r.Ok? <==> Replaceable(catalog, before, resource, content, filename, metadata, expected))
    && (r.Err? ==> r.error == ReplaceError(catalog, before, resource, content, filename, metadata, expected))
    && (r.Ok? ==> Replaced(catalog, naming, before, after, resource, content, filename, metadata, r.value))
  }

  ghost predicate EditEffect(catalog: Catalog, naming: Naming, before: Db, after: Db, resource: nat, filename: string,
                             metadata: Metadata, expected: Option<VersionId>, r: Outcome)
  {
    && (r.Ok? <==> Editable(catalog, before, resource, filename, metadata, expected))
    && (r.Err? ==> EditError(catalog, before, resource, filename, metadata, expected, r.error))
    && (r.Ok? ==> Edited(catalog, naming, before, after, resource, filename, metadata, r.value))
  }

  ghost predicate RemoveEffect(naming: Naming, before: Db, after: Db, resource: nat, r: Outcome) {
    && (r.Ok? <==> User(resource) in before.modules) && (r.Err? ==> r.error == ResourceNotFound)
    && (r.Ok? ==> Removed(naming, before, after, resource, r.value))
  }

  ghost predicate RestoreEffect(naming: Naming, before: Db, after: Db, resource: nat, version: Option<VersionId>,
                                r: Outcome)
  {
    && (r.Ok? <==> Restorable(before, resource, version))
    && (r.Err? ==> r.error == if User(resource) in before.modules then VersionNotFound else ResourceNotFound)
    && (r.Ok? ==> Restored(naming, before, after, resource, version, r.value))
  }

  /** The resource is known and the given version, or any, is one of its own. */
  ghost predicate Restorable(db: Db, resource: nat, version: Option<VersionId>) {
    && User(resource) in db.modules && HasVersion(db.versions, User(resource))
    && (version.Some? ==> version.value in db.versions && version.value.slug == User(resource))
  }

  ghost predicate ModelUseEffect(naming: Naming, before: Db, after: Db, resource: nat, allowed: bool, r: Outcome) {
    && (r.Ok? <==> User(resource) in before.modules) && ActiveSources(after) == ActiveSources(before)
    && (r.Err? ==> r.error == ResourceNotFound)
    && (r.Ok? ==>
          && User(resource) in after.modules && after.modules[User(resource)].modelUse == allowed
          && (!allowed ==> NotSearched(after, resource))
          && (User(resource) in Slugs(ActiveSources(before)) ==> Republished(before, after))
          && ModelUseSet(naming, before, after, resource, r.value))
  }

  class ResourceService {
    const storage: LocalStorage

    constructor (storage: LocalStorage)
      ensures this.storage == storage
    {
      this.storage := storage;
    }

    /** `remove`. */
    method Remove(resource: nat, id: string, now: Time) returns (r: Result<ResourceResult, CorpusError>)
      requires storage.Valid()
      modifies storage
      ensures storage.Valid() && Operates(storage.catalog, old(storage.Contents()), storage.Contents(), id, r, now)
      ensures ReceiptFor(old(storage.receipts), id).None? ==>
                RemoveEffect(storage.naming, old(storage.db), storage.db, resource, r)
    {
      var s := storage.Contents();
      if ReceiptFor(s.receipts, id).Some? {
        Replayed(storage.catalog, s, id, now);
        return Ok(ReceiptFor(s.receipts, id).value);
      }
      if User(resource) !in s.db.modules {
        Refused(storage.catalog, s, id, ResourceNotFound, now);
        return Err(ResourceNotFound);
      }
      var d := GetResource(storage.catalog, s.db, resource);
      var g, db := RemoveUser(storage.catalog, s.db, resource, now);
      var name := storage.naming.resource(resource);
      var result := ResourceResult("removed", name, "user-" + name,
                                   Named(storage.naming.version, d.active), Some(storage.naming.generation(g)),
                                   d.chunkCount, [], None);
      RemovedBy(storage.naming, s.db, db, resource, d, g, result);
      Unreceipted(storage.catalog, s, id);
      var receipts := StoreReceipt(s.receipts, id, result);
      var after := State(db, s.files, receipts);
      Committed(storage.catalog, s, after, id, result, now);
      storage.Commit(after);
      r := Ok(result);
    }

    /** `restore`, of a given version or a latest one. */
    method Restore(resource: nat, version: Option<VersionId>, id: string, now: Time)
      returns (r: Result<ResourceResult, CorpusError>)
      requires storage.Valid()
      modifies storage
      ensures storage.Valid() && Operates(storage.catalog, old(storage.Contents()), storage.Contents(), id, r, now)
      ensures ReceiptFor(old(storage.receipts), id).None? ==>
                RestoreEffect(storage.naming, old(storage.db), storage.db, resource, version, r)
    {
      var s := storage.Contents();
      if ReceiptFor(s.receipts, id).Some? {
        Replayed(storage.catalog, s, id, now);
        return Ok(ReceiptFor(s.receipts, id).value);
      }
      if User(resource) !in s.db.modules {
        Refused(storage.catalog, s, id, ResourceNotFound, now);
        return Err(ResourceNotFound);
      }
      var d := GetResource(storage.catalog, s.db, resource);
      var selected := if version.Some? then version else d.latest;
      if selected.None? || selected.value !in s.db.versions || selected.value.slug != User(resource) {
        Refused(storage.catalog, s, id, VersionNotFound, now);
        return Err(VersionNotFound);
      }
      var v := selected.value;
      var g, db := RestoreUser(storage.catalog, s.db, resource, v, now);
      var name := storage.naming.resource(resource);
      var result := ResourceResult("restored", name, "user-" + name,
                                   Some(storage.naming.version(v)), Some(storage.naming.generation(g)),
                                   |ChunksOf(db, {v})|, [], None);
      RestoredBy(storage.naming, s.db, db, resource, version, v, g, result);
      Unreceipted(storage.catalog, s, id);
      var receipts := StoreReceipt(s.receipts, id, result);
      var after := State(db, s.files, receipts);
      Committed(storage.catalog, s, after, id, result, now);
      storage.Commit(after);
      r := Ok(result);
    }

    /** `set_model_use`. */
    method SetModelUse(resource: nat, allowed: bool, id: string, now: Time)
        returns (r: Result<ResourceResult, CorpusError>)
      requires storage.Valid()
      modifies storage
      ensures storage.Valid() && Operates(storage.catalog, old(storage.Contents()), storage.Contents(), id, r, now)
      ensures ReceiptFor(old(storage.receipts), id).None? ==>
                ModelUseEffect(storage.naming, old(storage.db), storage.db, resource, allowed, r)
    {
      var s := storage.Contents();
      if ReceiptFor(s.receipts, id).Some? {
        Replayed(storage.catalog, s, id, now);
        return Ok(ReceiptFor(s.receipts, id).value);
      }
      if User(resource) !in s.db.modules {
        Refused(storage.catalog, s, id, ResourceNotFound, now);
        return Err(ResourceNotFound);
      }
      var d := GetResource(storage.catalog, s.db, resource);
      var db := CorpusResources.SetModelUse(storage.catalog, s.db, resource, allowed, now);
      var name := storage.naming.resource(resource);
      var result := ResourceResult("model_use_updated", name, "user-" + name,
                                   Named(storage.naming.version, if d.active.Some? then d.active else d.latest),
                                   Named(storage.naming.generation, db.active), d.chunkCount, [], None);
      assert ModelUseReported(storage.naming, s.db, db, resource, d, result);
      Unreceipted(storage.catalog, s, id);
      var receipts := StoreReceipt(s.receipts, id, result);
      var after := State(db, s.files, receipts);
      Committed(storage.catalog, s, after, id, result, now);
      storage.Commit(after);
      r := Ok(result);
    }

    /** `add`. */
    method Add(content: Bytes, filename: string, metadata: Metadata, id: string, now: Time)
      returns (r: Result<ResourceResult, CorpusError>)
      requires storage.Valid()
      modifies storage
      ensures storage.Valid() && Operates(storage.catalog, old(storage.Contents()), storage.Contents(), id, r, now)
      ensures ReceiptFor(old(storage.receipts), id).None? ==>
                AddEffect(storage.catalog, storage.naming, old(storage.db), storage.db, content, filename, metadata, r)
    {
      var s := storage.Contents();
      if ReceiptFor(s.receipts, id).Some? {
        Replayed(storage.catalog, s, id, now);
        return Ok(ReceiptFor(s.receipts, id).value);
      }
      var valid, parsed := storage.catalog.validate(metadata), storage.catalog.parseResource(filename, content);
      if valid.None? || parsed.None? {
        Refused(storage.catalog, s, id, InvalidResource, now);
        return Err(InvalidResource);
      }
      var duplicate := FindDuplicate(s.db.versions, content);
      if duplicate.Some? {
        var v := duplicate.value;
        var name := storage.naming.resource(v.slug.resource);
        r := Ok(ResourceResult("duplicate", name, "user-" + name, Some(storage.naming.version(v)),
                               Named(storage.naming.generation, s.db.active), |ChunksOf(s.db, {v})|, [], Some(name)));
        Duplicated(storage.catalog, s, id, r.value, now);
        assert IsDuplicate(storage.naming, s.db, content, v, r.value);
        return;
      }
      var resource := NewResource(s.db.modules);
      var after;
      r, after := InstallVersion(storage.catalog, storage.naming, s, resource, content, valid.value, parsed.value,
                                 false, id, now);
      NewResourceAdded(storage.catalog, s.db, resource);
      NewVersionUnknown(storage.catalog, s.db, resource, content, valid.value);
      if r.Ok? {
        assert AddedAs(storage.catalog, storage.naming, s.db, after.db, resource, content, filename, metadata, r.value);
      }
      storage.Commit(after);
    }

    /** `replace_file`. */
    method ReplaceFile(resource: nat, content: Bytes, filename: string, metadata: Metadata, expected: Option<VersionId>,
                       id: string, now: Time)
      returns (r: Result<ResourceResult, CorpusError>)
      requires storage.Valid()
      modifies storage
      ensures storage.Valid() && Operates(storage.catalog, old(storage.Contents()), storage.Contents(), id, r, now)
      ensures ReceiptFor(old(storage.receipts), id).None? ==>
                ReplaceEffect(storage.catalog, storage.naming, old(storage.db), storage.db, resource, content, filename,
                              metadata, expected, r)
    {
      hide Wf, InstalledAs, Preserves, Advances;
      var s := storage.Contents();
      if ReceiptFor(s.receipts, id).Some? {
        Replayed(storage.catalog, s, id, now);
        return Ok(ReceiptFor(s.receipts, id).value);
      }
      if User(resource) !in s.db.modules {
        Refused(storage.catalog, s, id, ResourceNotFound, now);
        return Err(ResourceNotFound);
      }
      var d := GetResource(storage.catalog, s.db, resource);
      ExpectedActive(storage.catalog, s.db, resource, d, expected);
      if expected.Some? && d.active != expected {
        Refused(storage.catalog, s, id, ResourceChanged, now);
        return Err(ResourceChanged);
      }
      var valid, parsed := storage.catalog.validate(metadata), storage.catalog.parseResource(filename, content);
      if valid.None? || parsed.None? {
        Refused(storage.catalog, s, id, InvalidResource, now);
        return Err(InvalidResource);
      }
      var after;
      r, after := InstallVersion(storage.catalog, storage.naming, s, resource, content, valid.value, parsed.value,
                                 true, id, now);
      storage.Commit(after);
    }

    /** `edit_metadata`: the active file again, under other metadata. */
    method EditMetadata(resource: nat, filename: string, metadata: Metadata, expected: Option<VersionId>, id: string,
                        now: Time)
      returns (r: Result<ResourceResult, CorpusError>)
      requires storage.Valid()
      modifies storage
      ensures storage.Valid() && Operates(storage.catalog, old(storage.Contents()), storage.Contents(), id, r, now)
      ensures ReceiptFor(old(storage.receipts), id).None? ==>
                EditEffect(storage.catalog, storage.naming, old(storage.db), storage.db, resource, filename, metadata,
                           expected, r)
    {
      var s := storage.Contents();
      if ReceiptFor(s.receipts, id).Some? {
        Replayed(storage.catalog, s, id, now);
        return Ok(ReceiptFor(s.receipts, id).value);
      }
      if User(resource) !in s.db.modules {
        Refused(storage.catalog, s, id, ResourceNotFound, now);
        return Err(ResourceNotFound);
      }
      var d := GetResource(storage.catalog, s.db, resource);
      ExpectedActive(storage.catalog, s.db, resource, d, expected);
      if expected.Some? && d.active != expected {
        Refused(storage.catalog, s, id, ResourceChanged, now);
        return Err(ResourceChanged);
      }
      if d.active.None? {
        Refused(storage.catalog, s, id, VersionNotFound, now);
        return Err(VersionNotFound);
      }
      var content := ReadArtifact(storage.catalog, s, d.active.value);
      EditsActive(storage.catalog, s.db, resource, d, filename, metadata, expected);
      r := ReplaceFile(resource, content, filename, metadata, d.active, id, now);
    }
  }
}
