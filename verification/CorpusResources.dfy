/** Storing a version of a user resource (`_install_version` in app/corpus/resources.py). */
module CorpusResources {
  import opened Common
  import opened CorpusTables
  import opened CorpusGenerations
  import opened CorpusSources
  import opened CorpusInstall
  import opened CorpusChanges

  /** The version id covers the file and the metadata. */
  function UserVersion(catalog: Catalog, resource: nat, content: Bytes, metadata: Metadata): VersionId {
    VersionId(User(resource), Sha256(content), "user-resource-v1:" + catalog.digest(metadata))
  }

  function UserUri(resource: nat, content: Bytes, parsed: ParsedResource): Uri {
    SourceFile(User(resource), Sha256(content), parsed.extension)
  }

  function WithUserModule(db: Db, resource: nat, m: Module): Db {
    db.(modules := db.modules[User(resource) := m])
  }

  lemma WithUserModuleKeeps(catalog: Catalog, db: Db, resource: nat, m: Module)
    requires Wf(catalog, db) && !m.law
    ensures Wf(catalog, WithUserModule(db, resource, m)) && Extends(db, WithUserModule(db, resource, m))
  {
    ExtendsGenerations(db, WithUserModule(db, resource, m));
  }

  /** The chunk rows of a new version: some, and no key twice. */
  predicate StorableSections(sections: seq<Section>) {
    sections != [] && DistinctSections(sections)
  }

  /** There are sections, and as many keys as sections. */
  ghost predicate HasKeys(sections: seq<Section>) {
    sections != [] && KeysDiffer(sections)
  }

  /** The tables accept the version: it is there, or its sections can be stored. */
  ghost predicate UserStorable(catalog: Catalog, db: Db, resource: nat, content: Bytes, metadata: Metadata,
                         parsed: ParsedResource)
  {
    UserVersion(catalog, resource, content, metadata) in db.versions || HasKeys(parsed.sections)
  }

  /** Up to publication: the module row, and version and chunk rows if the version is new. */
  function StoreUserVersion(catalog: Catalog, db: Db, resource: nat, content: Bytes, metadata: Metadata,
                            parsed: ParsedResource, now: Time): Result<Db, CorpusError>
  {
    var v := UserVersion(catalog, resource, content, metadata);
    var tx := WithUserModule(db, resource, Module(false, metadata.modelUse, true));
    if v in db.versions then Ok(tx)
    else if !StorableSections(parsed.sections) then Err(IntegrityError)
    else
      var version := Version(UserUri(resource, content, parsed), SemanticOf(parsed.sections), "", now);
      Ok(WithVersion(tx, v, version, parsed.sections))
  }

  /** Versions stored before keep their rows, and a new one is retrieved now. */
  ghost predicate StoresNow(before: map<VersionId, Version>, after: map<VersionId, Version>, now: Time) {
    && before.Keys <= after.Keys && (forall v | v in before :: after[v] == before[v])
    && forall v | v in after && v !in before :: after[v].retrievedAt == now
  }

  /** The only version that may be new is `v`, and its file is the uploaded one under the resource's name. */
  ghost predicate NamesFile(before: map<VersionId, Version>, after: map<VersionId, Version>, v: VersionId,
                            extension: string)
  {
    && after.Keys == before.Keys + {v}
    && (v !in before ==> after[v].uri == SourceFile(v.slug, v.hash, extension))
  }

  /** Versions of a resource are the same only for the same file under the same metadata. */
  lemma UserVersionTells(catalog: Catalog, resource: nat, content: Bytes, metadata: Metadata, other: nat,
                         content': Bytes, metadata': Metadata)
    ensures UserVersion(catalog, resource, content, metadata) == UserVersion(catalog, other, content', metadata') <==>
              resource == other && content == content' && catalog.digest(metadata) == catalog.digest(metadata')
  {
    var prefix := "user-resource-v1:";
    assert forall s: string :: (prefix + s)[|prefix|..] == s;
  }

  /** A version that was not there before has exactly the parsed sections as its chunks; one that was keeps its own. */
  ghost predicate StoresParsed(before: Db, after: Db, v: VersionId, sections: seq<Section>) {
    if v in before.versions then after.chunks == before.chunks else HoldsSections(after.chunks, v, sections)
  }

  lemma UserRowsKeep(catalog: Catalog, db: Db, files: Files, v: VersionId, version: Version, sections: seq<Section>)
    requires Wf(catalog, db) && FilesOk(db.versions, files) && v !in db.versions && v.slug.User? && v.slug in db.modules
    requires version.uri in files && version.uri.hash == v.hash
    requires DistinctSections(sections) && version.semantic == SemanticOf(sections)
    ensures var after := WithVersion(db, v, version, sections);
            && Wf(catalog, after) && FilesOk(after.versions, files) && Extends(db, after)
            && HoldsSections(after.chunks, v, sections)
  {
    WithVersionKeeps(catalog, db, v, version, sections);
    NewVersionFiles(db.versions, files, v, version);
  }

  lemma StoreUserVersionKeeps(catalog: Catalog, db: Db, files: Files, resource: nat, content: Bytes, metadata: Metadata,
                              parsed: ParsedResource, now: Time)
    requires Wf(catalog, db) && FilesOk(db.versions, files) && UserUri(resource, content, parsed) in files
    requires StoreUserVersion(catalog, db, resource, content, metadata, parsed, now).Ok?
    ensures var after := StoreUserVersion(catalog, db, resource, content, metadata, parsed, now).value;
            && Wf(catalog, after) && FilesOk(after.versions, files) && Extends(db, after)
            && UserVersion(catalog, resource, content, metadata) in after.versions
            && StoresParsed(db, after, UserVersion(catalog, resource, content, metadata), parsed.sections)
  {
    var v := UserVersion(catalog, resource, content, metadata);
    var m := Module(false, metadata.modelUse, true);
    var tx := WithUserModule(db, resource, m);
    WithUserModuleKeeps(catalog, db, resource, m);
    if v !in db.versions {
      var version := Version(UserUri(resource, content, parsed), SemanticOf(parsed.sections), "", now);
      UserRowsKeep(catalog, tx, files, v, version, parsed.sections);
      ExtendsTransitive(db, tx, WithVersion(tx, v, version, parsed.sections));
    }
  }

  lemma StoreUserVersionRows(catalog: Catalog, db: Db, resource: nat, content: Bytes, metadata: Metadata,
                             parsed: ParsedResource, now: Time)
    requires StoreUserVersion(catalog, db, resource, content, metadata, parsed, now).Ok?
    ensures var after := StoreUserVersion(catalog, db, resource, content, metadata, parsed, now).value;
            && StoresNow(db.versions, after.versions, now)
            && NamesFile(db.versions, after.versions, UserVersion(catalog, resource, content, metadata),
                         parsed.extension)
  {
  }

  lemma StoredModules(catalog: Catalog, db: Db, resource: nat, content: Bytes, metadata: Metadata,
                      parsed: ParsedResource, now: Time)
    requires StoreUserVersion(catalog, db, resource, content, metadata, parsed, now).Ok?
    ensures StoreUserVersion(catalog, db, resource, content, metadata, parsed, now).value.modules
            == db.modules[User(resource) := Module(false, metadata.modelUse, true)]
  {
  }

  /** What a change of one slug's version does, as a caller sees it. */
  ghost predicate Selects(catalog: Catalog, before: Db, after: Db, sources: set<VersionId>, now: Time) {
    && Wf(catalog, after) && Preserves(before, after) && Advances(before, after, now)
    && ActiveSources(after) == sources && after.active.Some?
    && (CompleteCore(catalog, before) && catalog.CoreSlugs() <= Slugs(sources) ==> CompleteCore(catalog, after))
  }

  lemma ExtendThenReselect(catalog: Catalog, db: Db, tx: Db, after: Db, g: GenId, sources: set<VersionId>, now: Time)
    requires Extends(db, tx) && Reselects(catalog, tx, after, g, sources) && Advances(tx, after, now)
    ensures Selects(catalog, db, after, sources, now) && after.versions == tx.versions
  {
    ExtendsAdvances(db, tx, after, now);
    ExtendsPreserves(db, tx);
    PreservesTransitive(db, tx, after);
  }

  lemma ExtendOnly(catalog: Catalog, db: Db, tx: Db, now: Time)
    requires Wf(catalog, tx) && Extends(db, tx) && db.active.Some?
    ensures Selects(catalog, db, tx, ActiveSources(db), now)
  {
    ExtendsAdvances(db, tx, tx, now);
    ExtendsPreserves(db, tx);
  }

  lemma AlreadySelected(sources: set<VersionId>, v: VersionId)
    requires OnePerSlug(sources) && v in sources
    ensures Except(sources, {v.slug}) + {v} == sources
  {
  }

  /** No ready chunk of the active generation belongs to the resource. */
  ghost predicate NotSearched(db: Db, resource: nat) {
    db.active.Some? && db.active.value in db.generations ==>
      forall c | c in ReadyChunks(db.generations[db.active.value]) :: c.version.slug != User(resource)
  }

  lemma AbsentNotSearched(catalog: Catalog, db: Db, resource: nat)
    requires Wf(catalog, db) && User(resource) !in Slugs(ActiveSources(db))
    ensures NotSearched(db, resource)
  {
    if db.active.Some? {
      assert GenerationOk(db, db.generations[db.active.value]);
    }
  }

  lemma DeniedNotSearched(db: Db, g: GenId, resource: nat)
    requires db.active == Some(g) && g in db.generations && Fresh(db, db.generations[g])
    requires User(resource) in db.modules && !db.modules[User(resource)].modelUse
    ensures NotSearched(db, resource)
  {
  }

  lemma SameNotSearched(a: Db, b: Db, resource: nat)
    requires b.generations == a.generations && b.active == a.active
    ensures NotSearched(b, resource) <==> NotSearched(a, resource)
  {
  }

  /** What selecting the stored version of a resource does. */
  ghost predicate SelectsUser(catalog: Catalog, db: Db, after: Db, resource: nat, v: VersionId, g: GenId, now: Time) {
    && Selects(catalog, db, after, Except(ActiveSources(db), {User(resource)}) + {v}, now)
    && after.active == Some(g) && (g in db.generations <==> v in ActiveSources(db))
    && KeepsCore(catalog, db, after)
  }

  /** The end of `_install_version`: the version is current already, or is published. */
  method SelectUserVersion(catalog: Catalog, db: Db, tx: Db, resource: nat, v: VersionId, now: Time)
    returns (g: GenId, after: Db)
    requires Wf(catalog, tx) && Extends(db, tx) && v in tx.versions && v.slug == User(resource)
    requires User(resource) in tx.modules
    ensures SelectsUser(catalog, db, after, resource, v, g, now)
    ensures after.versions == tx.versions && after.chunks == tx.chunks && after.modules == tx.modules
    ensures !tx.modules[User(resource)].modelUse ==>
              (NotSearched(after, resource) <==> v !in ActiveSources(db) || NotSearched(db, resource))
  {
    hide Wf, Preserves, Advances, Fresh, NotSearched;
    ActiveMapOk(catalog, tx);
    if v in ActiveSources(db) {
      AlreadySelected(ActiveSources(db), v);
      ExtendOnly(catalog, db, tx, now);
      SameNotSearched(db, tx, resource);
      return tx.active.value, tx;
    }
    WithValues(ActiveMap(tx), User(resource), v);
    g, after := SelectVersions(catalog, tx, ActiveMap(tx)[User(resource) := v], now);
    ExtendThenReselect(catalog, db, tx, after, g, Except(ActiveSources(db), {User(resource)}) + {v}, now);
    UserKeepsCore(catalog, db, after, resource, {v});
    if !tx.modules[User(resource)].modelUse {
      DeniedNotSearched(after, g, resource);
    }
  }

  /** The transaction of `_install_version`, without its receipt. */
  method InstallUserVersion(catalog: Catalog, db: Db, ghost files: Files, resource: nat, content: Bytes,
                            metadata: Metadata, parsed: ParsedResource, now: Time)
    returns (r: Result<GenId, CorpusError>, after: Db)
    requires Wf(catalog, db) && FilesOk(db.versions, files) && UserUri(resource, content, parsed) in files
    ensures Wf(catalog, after) && FilesOk(after.versions, files) && StoresNow(db.versions, after.versions, now)
    ensures r.Err? ==> after == db
    ensures r.Ok? <==> UserStorable(catalog, db, resource, content, metadata, parsed)
    ensures r.Err? ==> r.error == IntegrityError
    ensures r.Ok? ==>
              && var v := UserVersion(catalog, resource, content, metadata);
              && SelectsUser(catalog, db, after, resource, v, r.value, now)
              && v in after.versions && StoresParsed(db, after, v, parsed.sections)
              && NamesFile(db.versions, after.versions, v, parsed.extension)
              && after.modules == db.modules[User(resource) := Module(false, metadata.modelUse, true)]
              && (!metadata.modelUse ==>
                    (NotSearched(after, resource) <==> v !in ActiveSources(db) || NotSearched(db, resource)))
  {
    var v := UserVersion(catalog, resource, content, metadata);
    KeysCount(parsed.sections);
    match StoreUserVersion(catalog, db, resource, content, metadata, parsed, now) {
      case Err(error) =>
        r, after := Err(error), db;
      case Ok(tx) =>
        StoreUserVersionKeeps(catalog, db, files, resource, content, metadata, parsed, now);
        StoredModules(catalog, db, resource, content, metadata, parsed, now);
        StoreUserVersionRows(catalog, db, resource, content, metadata, parsed, now);
        var g;
        g, after := SelectUserVersion(catalog, db, tx, resource, v, now);
        r := Ok(g);
    }
  }

  lemma UserKeepsCore(catalog: Catalog, before: Db, after: Db, resource: nat, added: set<VersionId>)
    requires var sources := Except(ActiveSources(before), {User(resource)}) + added;
             CompleteCore(catalog, before) && catalog.CoreSlugs() <= Slugs(sources) ==> CompleteCore(catalog, after)
    ensures KeepsCore(catalog, before, after)
  {
    if CompleteCore(catalog, before) {
      CoreKept(catalog, ActiveSources(before), {User(resource)}, added);
    }
  }

  /** The transaction of `remove`: the module is disabled and its version leaves the active generation. */
  method RemoveUser(catalog: Catalog, db: Db, resource: nat, now: Time) returns (g: GenId, after: Db)
    requires Wf(catalog, db) && User(resource) in db.modules
    ensures Selects(catalog, db, after, Except(ActiveSources(db), {User(resource)}), now)
    ensures KeepsCore(catalog, db, after)
    ensures after.active == Some(g) && after.versions == db.versions
    ensures after.modules == db.modules[User(resource) := db.modules[User(resource)].(enabled := false)]
  {
    var m := db.modules[User(resource)].(enabled := false);
    var tx := WithUserModule(db, resource, m);
    WithUserModuleKeeps(catalog, db, resource, m);
    ActiveMapOk(catalog, tx);
    WithoutValues(ActiveMap(tx), {User(resource)});
    g, after := SelectVersions(catalog, tx, Without(ActiveMap(tx), {User(resource)}), now);
    ExtendThenReselect(catalog, db, tx, after, g, Except(ActiveSources(db), {User(resource)}), now);
    NothingAdded(Except(ActiveSources(db), {User(resource)}));
    UserKeepsCore(catalog, db, after, resource, {});
  }

  /** The transaction of `restore`: the module is enabled and the given version selected. */
  method RestoreUser(catalog: Catalog, db: Db, resource: nat, v: VersionId, now: Time) returns (g: GenId, after: Db)
    requires Wf(catalog, db) && User(resource) in db.modules && v in db.versions && v.slug == User(resource)
    ensures Selects(catalog, db, after, Except(ActiveSources(db), {User(resource)}) + {v}, now)
    ensures KeepsCore(catalog, db, after)
    ensures after.active == Some(g) && after.versions == db.versions
    ensures after.modules == db.modules[User(resource) := db.modules[User(resource)].(enabled := true)]
  {
    var m := db.modules[User(resource)].(enabled := true);
    var tx := WithUserModule(db, resource, m);
    WithUserModuleKeeps(catalog, db, resource, m);
    ActiveMapOk(catalog, tx);
    WithValues(ActiveMap(tx), User(resource), v);
    g, after := SelectVersions(catalog, tx, ActiveMap(tx)[User(resource) := v], now);
    ExtendThenReselect(catalog, db, tx, after, g, Except(ActiveSources(db), {User(resource)}) + {v}, now);
    UserKeepsCore(catalog, db, after, resource, {v});
  }

  /** A new generation with fresh flags, and the profile of the last one, is active. */
  ghost predicate Republished(before: Db, after: Db) {
    && after.active.Some? && after.active.value !in before.generations && after.active.value in after.generations
    && Fresh(after, after.generations[after.active.value])
    && after.generations[after.active.value].profile == ActiveProfile(before)
  }

  /**
    The transaction of `set_model_use`: the active sources stay, and a resource that
    may no longer be used has no ready chunk in the active generation. If the resource is
    active a new generation with fresh flags is.
   */
  method SetModelUse(catalog: Catalog, db: Db, resource: nat, allowed: bool, now: Time) returns (after: Db)
    requires Wf(catalog, db) && User(resource) in db.modules
    ensures Wf(catalog, after) && Preserves(db, after) && Advances(db, after, now) && after.versions == db.versions
    ensures after.modules == db.modules[User(resource) := db.modules[User(resource)].(modelUse := allowed)]
    ensures ActiveSources(after) == ActiveSources(db) && KeepsCore(catalog, db, after)
    ensures !allowed ==> NotSearched(after, resource)
    ensures User(resource) !in Slugs(ActiveSources(db)) ==> after.active == db.active
    ensures User(resource) in Slugs(ActiveSources(db)) ==> Republished(db, after)
  {
    hide ContentOk, SemanticsDistinct, SemanticsFaithful, IndexOk, GenerationsOk, Preserves, Advances, Fresh;
    var m := db.modules[User(resource)].(modelUse := allowed);
    var tx := WithUserModule(db, resource, m);
    WithUserModuleKeeps(catalog, db, resource, m);
    ExtendsPreserves(db, tx);
    ExtendsAdvances(db, tx, tx, now);
    after := tx;
    if User(resource) in Slugs(ActiveSources(tx)) {
      ActiveMapOk(catalog, tx);
      var g;
      g, after := SelectVersions(catalog, tx, ActiveMap(tx), now);
      ExtendThenReselect(catalog, db, tx, after, g, ActiveSources(db), now);
      if !allowed {
        DeniedNotSearched(after, g, resource);
      }
    } else {
      AbsentNotSearched(catalog, tx, resource);
    }
  }

  datatype Resource = Resource(active: Option<VersionId>, latest: Option<VersionId>, chunkCount: nat)

  ghost predicate Describes(db: Db, resource: nat, d: Resource) {
    && (d.active.Some? ==> d.active.value in ActiveSources(db) && d.active.value.slug == User(resource))
    && (d.active.None? ==> User(resource) !in Slugs(ActiveSources(db)))
    && (d.latest.Some? ==> IsLatest(db.versions, User(resource), d.latest.value))
    && (d.latest.None? ==> !HasVersion(db.versions, User(resource)))
    && d.chunkCount == if d.active.Some? then |ChunksOf(db, {d.active.value})|
                       else if d.latest.Some? then |ChunksOf(db, {d.latest.value})| else 0
  }

  /** `get`, as far as the operations use it. */
  method GetResource(catalog: Catalog, db: Db, resource: nat) returns (d: Resource)
    requires Wf(catalog, db)
    ensures Describes(db, resource, d)
  {
    ActiveMapOk(catalog, db);
    var selected := ActiveMap(db);
    var latest := LatestVersion(db.versions, User(resource));
    var active := if User(resource) in selected then Some(selected[User(resource)]) else None;
    var shown := if active.Some? then active else latest;
    d := Resource(active, latest, if shown.Some? then |ChunksOf(db, {shown.value})| else 0);
  }
}
