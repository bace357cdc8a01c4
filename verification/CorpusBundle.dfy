/** Portable bundles of the official corpus (app/corpus/bundle.py). */
module CorpusBundle {
  import opened Common
  import opened CorpusTables
  import opened CorpusGenerations
  import opened CorpusSources
  import opened CorpusInstall
  import opened EmbeddingIndexer
  import EmbeddingCommits

  /** The records and artifacts of an archive. */
  datatype Bundle = Bundle(
    generation: GenId,
    profile: Option<ProfileId>,
    readiness: Readiness,
    partial: bool,
    modules: map<Slug, Module>,
    versions: map<VersionId, Version>,
    artifacts: map<Hash, Bytes>,
    chunks: map<ChunkId, Chunk>,
    embeddings: map<Embedded, Bytes>,
    sources: set<VersionId>,
    members: map<ChunkId, bool>)

  // ----- Export

  function OfficialOnly(sources: set<VersionId>): set<VersionId> {
    set v | v in sources && v.slug.Official?
  }

  function OfficialMembers(members: map<ChunkId, bool>, sources: set<VersionId>): map<ChunkId, bool> {
    map c | c in members && c.version in sources :: members[c]
  }

  /** `_export_records`. A missing or altered artifact file stops the export. */
  function ExportBundle(db: Db, files: Files, g: GenId): Result<Bundle, CorpusError> {
    if g !in db.generations then Err(UnknownGeneration)
    else
      var gen := db.generations[g];
      var sources := set v | v in OfficialOnly(gen.sources) && v in db.versions;
      var members := OfficialMembers(gen.members, sources);
      if sources == {} then Err(NothingToExport)
      else if exists v :: v in sources && (db.versions[v].uri !in files || Sha256(files[db.versions[v].uri]) != v.hash)
        then Err(InvalidArtifacts)
      else Ok(Bundle(
        g, gen.profile, gen.readiness, gen.partial,
        map slug | slug in db.modules && slug in Slugs(sources) :: db.modules[slug],
        map v | v in db.versions && v in sources :: db.versions[v],
        map v | v in sources :: v.hash := v.hash.content,
        map c | c in db.chunks && c in members :: db.chunks[c],
        map e | e in db.embeddings && e.chunk in members && e.chunk in db.chunks :: db.embeddings[e],
        sources,
        map c | c in members && c in db.chunks :: members[c]))
  }

  /** `_validate_records`. */
  predicate Validates(b: Bundle) {
    && (forall slug | slug in b.modules :: slug.Official?)
    && (forall v | v in b.versions ::
          v.slug in b.modules && v.hash in b.artifacts && Sha256(b.artifacts[v.hash]) == v.hash)
    && (forall c | c in b.chunks :: c.version in b.versions && c.version.slug in b.modules)
    && (forall e | e in b.embeddings :: e.chunk in b.chunks)
  }

  /** Official rows that refer to each other, and artifacts with the content they are named by. */
  ghost predicate Closed(b: Bundle) {
    && (forall slug | slug in b.modules :: !slug.User?)
    && Slugs(b.versions.Keys) <= b.modules.Keys
    && (forall v | v in b.versions :: v.hash in b.artifacts && b.artifacts[v.hash] == v.hash.content)
    && VersionsOf(b.chunks.Keys) <= b.versions.Keys && ChunksIn(b.embeddings.Keys) <= b.chunks.Keys
  }

  ghost function VersionsOf(chunks: set<ChunkId>): set<VersionId> {
    set c | c in chunks :: c.version
  }

  ghost function ChunksIn(embeddings: set<Embedded>): set<ChunkId> {
    set e | e in embeddings :: e.chunk
  }

  /** The validator accepts exactly the closed bundles. */
  lemma ValidatesExactly(b: Bundle)
    ensures Validates(b) <==> Closed(b)
  {
    if Closed(b) {
      forall v | v in b.versions ensures v.slug in b.modules {
        assert v.slug in Slugs(b.versions.Keys);
      }
      forall c | c in b.chunks ensures c.version in b.versions {
        assert c.version in VersionsOf(b.chunks.Keys);
      }
      forall e | e in b.embeddings ensures e.chunk in b.chunks {
        assert e.chunk in ChunksIn(b.embeddings.Keys);
      }
    }
  }

  /** What the validator does not look at and the exporter nevertheless guarantees. */
  ghost predicate Coherent(catalog: Catalog, b: Bundle) {
    && b.sources == b.versions.Keys && OnePerSlug(b.sources) && b.members.Keys == b.chunks.Keys
    && (forall c | c in b.members && b.members[c] :: b.profile.Some? && Embedded(c, b.profile.value) in b.embeddings)
    && SourcesOk(catalog, b.modules, b.versions, b.chunks) && ContentOk(b.versions, b.chunks)
    && SemanticsDistinct(b.versions) && SemanticsFaithful(catalog, b.versions)
  }

  lemma ExportSucceeds(catalog: Catalog, db: Db, files: Files, g: GenId)
    requires Sound(catalog, db) && FilesOk(db.versions, files)
    ensures ExportBundle(db, files, g).Ok? <==> g in db.generations && OfficialOnly(db.generations[g].sources) != {}
  {
    if g in db.generations {
      assert GenerationOk(db, db.generations[g]);
      var official := OfficialOnly(db.generations[g].sources);
      assert (set v | v in official && v in db.versions) == official;
    }
  }

  /** What a bundle holds of a generation: its official part, row by row. */
  ghost predicate Exports(db: Db, g: GenId, b: Bundle) {
    && g in db.generations
    && var gen := db.generations[g];
    && b.generation == g && b.profile == gen.profile && b.readiness == gen.readiness && b.partial == gen.partial
    && b.sources == OfficialOnly(gen.sources) == b.versions.Keys
    && b.members == OfficialMembers(gen.members, b.sources) && b.chunks.Keys == b.members.Keys
    && ExportedRows(db, b)
  }

  ghost predicate ExportedRows(db: Db, b: Bundle) {
    && (forall v | v in b.versions :: v in db.versions && b.versions[v] == db.versions[v] && v.slug.Official?)
    && (forall c | c in b.chunks :: c in db.chunks && b.chunks[c] == db.chunks[c] && c.version in b.versions)
    && (forall slug | slug in b.modules :: slug in db.modules && b.modules[slug] == db.modules[slug] && slug.Official?)
    && (forall v | v in b.versions && v.slug in db.modules :: v.slug in b.modules)
    && (forall v | v in b.versions :: v.hash in b.artifacts && b.artifacts[v.hash] == v.hash.content)
    && (forall e :: e in b.embeddings <==> e in db.embeddings && e.chunk in b.chunks)
    && (forall e | e in b.embeddings :: b.embeddings[e] == db.embeddings[e])
  }

  lemma ExportRows(db: Db, files: Files, g: GenId)
    requires ExportBundle(db, files, g).Ok?
    ensures ExportedRows(db, ExportBundle(db, files, g).value)
  {
  }

  lemma ExportSources(db: Db, files: Files, g: GenId)
    requires ExportBundle(db, files, g).Ok? && db.generations[g].sources <= db.versions.Keys
    ensures var b := ExportBundle(db, files, g).value;
            b.sources == OfficialOnly(db.generations[g].sources) == b.versions.Keys
  {
    var official := OfficialOnly(db.generations[g].sources);
    assert (set v | v in official && v in db.versions) == official;
  }

  lemma ExportMembers(db: Db, files: Files, g: GenId)
    requires ExportBundle(db, files, g).Ok? && db.generations[g].members.Keys <= db.chunks.Keys
    ensures var b := ExportBundle(db, files, g).value;
            b.members == OfficialMembers(db.generations[g].members, b.sources) && b.chunks.Keys == b.members.Keys
  {
  }

  lemma ExportContents(db: Db, files: Files, g: GenId)
    requires GenerationsOk(db) && ExportBundle(db, files, g).Ok?
    ensures Exports(db, g, ExportBundle(db, files, g).value)
  {
    assert GenerationOk(db, db.generations[g]);
    ExportRows(db, files, g);
    ExportSources(db, files, g);
    ExportMembers(db, files, g);
  }

  lemma ExportedValidates(catalog: Catalog, db: Db, b: Bundle)
    requires SourcesOk(catalog, db.modules, db.versions, db.chunks) && ExportedRows(db, b)
    ensures Validates(b) && SourcesOk(catalog, b.modules, b.versions, b.chunks)
  {
  }

  lemma ExportedSemantics(catalog: Catalog, db: Db, b: Bundle)
    requires SemanticsDistinct(db.versions) && SemanticsFaithful(catalog, db.versions) && ExportedRows(db, b)
    ensures SemanticsDistinct(b.versions) && SemanticsFaithful(catalog, b.versions)
  {
  }

  lemma ExportedFlags(db: Db, g: GenId, b: Bundle)
    requires Exports(db, g, b) && GenerationOk(db, db.generations[g])
    ensures OnePerSlug(b.sources)
    ensures forall c | c in b.members && b.members[c] :: b.profile.Some? && Embedded(c, b.profile.value) in b.embeddings
  {
  }

  /** The chunks of an exported version are all there. */
  lemma ExportedContent(db: Db, g: GenId, b: Bundle)
    requires Exports(db, g, b) && GenerationOk(db, db.generations[g]) && ContentOk(db.versions, db.chunks)
    ensures ContentOk(b.versions, b.chunks)
  {
    forall v | v in b.versions ensures HoldsMeaning(b.chunks, v, b.versions[v].semantic) {
      ExportedMeaning(db, g, b, v);
    }
  }

  lemma ExportedMeaning(db: Db, g: GenId, b: Bundle, v: VersionId)
    requires Exports(db, g, b) && GenerationOk(db, db.generations[g]) && v in b.versions
    requires v in db.versions && HoldsMeaning(db.chunks, v, db.versions[v].semantic)
    ensures HoldsMeaning(b.chunks, v, b.versions[v].semantic)
  {
    var semantic := b.versions[v].semantic;
    forall i | 0 <= i < |semantic| ensures HoldsNormalised(b.chunks, v, semantic[i]) {
      assert HoldsNormalised(db.chunks, v, semantic[i]);
      var c := IdOf(v, semantic[i]);
      assert c in db.generations[g].members && c in b.members && c in b.chunks;
    }
  }

  /** A bundle exported from a corpus that keeps its invariant passes the validator and is coherent. */
  lemma ExportValidates(catalog: Catalog, db: Db, files: Files, g: GenId)
    requires Wf(catalog, db) && ExportBundle(db, files, g).Ok?
    ensures var b := ExportBundle(db, files, g).value;
            Exports(db, g, b) && Validates(b) && Coherent(catalog, b)
  {
    var b := ExportBundle(db, files, g).value;
    ExportContents(db, files, g);
    ExportedIsCoherent(catalog, db, g, b);
  }

  lemma ExportedIsCoherent(catalog: Catalog, db: Db, g: GenId, b: Bundle)
    requires Wf(catalog, db) && Exports(db, g, b)
    ensures Validates(b) && Coherent(catalog, b)
  {
    assert GenerationOk(db, db.generations[g]);
    ExportedValidates(catalog, db, b);
    ExportedSemantics(catalog, db, b);
    ExportedFlags(db, g, b);
    ExportedContent(db, g, b);
  }

  // ----- Inserting records

  predicate Compatible<K(==), V>(existing: map<K, V>, incoming: map<K, V>, same: (V, V) -> bool) {
    forall k | k in incoming :: k in existing ==> same(existing[k], incoming[k])
  }

  /** One table of `_insert_records`: a row that exists must be the same and stays as it is. */
  method MergeRows<K(==), V>(existing: map<K, V>, incoming: map<K, V>, same: (V, V) -> bool)
      returns (merged: Option<map<K, V>>)
    ensures merged == if Compatible(existing, incoming, same) then Some(incoming + existing) else None
  {
    var rows, rest := existing, incoming.Keys;
    while rest != {}
      invariant rest <= incoming.Keys
      invariant forall k | k in incoming.Keys - rest :: k in existing ==> same(existing[k], incoming[k])
      invariant rows.Keys == existing.Keys + (incoming.Keys - rest)
      invariant forall k | k in rows :: rows[k] == if k in existing then existing[k] else incoming[k]
      decreases rest
    {
      var k :| k in rest;
      if k !in rows {
        rows := rows[k := incoming[k]];
      } else if !same(rows[k], incoming[k]) {
        return None;
      }
      rest := rest - {k};
    }
    assert rows == incoming + existing;
    merged := Some(rows);
  }

  /** `_same_record` ignores model use and enablement of modules, and place and time of versions. */
  predicate SameModule(a: Module, b: Module) {
    a.law == b.law
  }

  predicate SameVersion(a: Version, b: Version) {
    a.semantic == b.semantic && a.validators == b.validators
  }

  predicate Same<V(==)>(a: V, b: V) {
    a == b
  }

  function BundleRows(versions: map<VersionId, Version>): map<VersionId, Version> {
    map v | v in versions :: versions[v].(uri := BundleFile(v.hash))
  }

  function BundleGeneration(b: Bundle): Generation {
    Generation(Staged, b.profile, b.readiness, b.partial, b.sources, b.members, None)
  }

  /** The tables with the rows of the bundle they did not have. */
  function MergedRows(db: Db, b: Bundle): Db {
    db.(modules := b.modules + db.modules, versions := BundleRows(b.versions) + db.versions,
        chunks := b.chunks + db.chunks, embeddings := b.embeddings + db.embeddings)
  }

  function Inserted(db: Db, b: Bundle): Db {
    WithGeneration(MergedRows(db, b), b.generation, BundleGeneration(b))
  }

  /** No row conflicts, and the generation refers to rows that exist then. */
  predicate Insertable(db: Db, b: Bundle) {
    && b.generation !in db.generations && Comparable(db, b)
    && b.sources <= b.versions.Keys + db.versions.Keys
    && b.members.Keys <= b.chunks.Keys + db.chunks.Keys
  }

  /**
    What keeps a bundle out: its generation is there already, a row it shares with the tables says
    something else, or its generation refers to a row that would not exist. Where a shared version is
    stored and when it was retrieved makes no difference, nor what a shared module allows.
   */
  ghost predicate NoConflicts(db: Db, b: Bundle) {
    && b.generation !in db.generations && RowsAgree(db, b)
    && (forall v | v in b.sources :: v in b.versions || v in db.versions)
    && (forall c | c in b.members :: c in b.chunks || c in db.chunks)
  }

  /** No shared row says something else. */
  ghost predicate RowsAgree(db: Db, b: Bundle) {
    && (forall slug | slug in b.modules && slug in db.modules :: db.modules[slug].law == b.modules[slug].law)
    && (forall v | v in b.versions && v in db.versions ::
          && db.versions[v].semantic == b.versions[v].semantic
          && db.versions[v].validators == b.versions[v].validators)
    && (forall c | c in b.chunks && c in db.chunks :: db.chunks[c] == b.chunks[c])
    && (forall e | e in b.embeddings && e in db.embeddings :: db.embeddings[e] == b.embeddings[e])
  }

  ghost function InsertError(db: Db, b: Bundle): CorpusError {
    if b.generation in db.generations then AlreadyInstalled
    else if !RowsAgree(db, b) then BundleConflict
    else IntegrityError
  }

  lemma SameVersionRows(db: Db, b: Bundle)
    ensures Compatible(db.versions, BundleRows(b.versions), SameVersion) <==>
              forall v | v in b.versions && v in db.versions ::
                && db.versions[v].semantic == b.versions[v].semantic
                && db.versions[v].validators == b.versions[v].validators
  {
    var rows := BundleRows(b.versions);
    assert rows.Keys == b.versions.Keys;
    assert forall v | v in b.versions ::
        rows[v].semantic == b.versions[v].semantic && rows[v].validators == b.versions[v].validators;
  }

  lemma SameOtherRows(db: Db, b: Bundle)
    ensures Compatible(db.modules, b.modules, SameModule) <==>
              forall slug | slug in b.modules && slug in db.modules :: db.modules[slug].law == b.modules[slug].law
    ensures Compatible(db.chunks, b.chunks, Same) <==>
              forall c | c in b.chunks && c in db.chunks :: db.chunks[c] == b.chunks[c]
    ensures Compatible(db.embeddings, b.embeddings, Same) <==>
              forall e | e in b.embeddings && e in db.embeddings :: db.embeddings[e] == b.embeddings[e]
  {
  }

  /** All four row comparisons succeed. */
  predicate Comparable(db: Db, b: Bundle) {
    && Compatible(db.modules, b.modules, SameModule) && Compatible(db.versions, BundleRows(b.versions), SameVersion)
    && Compatible(db.chunks, b.chunks, Same) && Compatible(db.embeddings, b.embeddings, Same)
  }

  lemma ComparableExactly(db: Db, b: Bundle)
    ensures Comparable(db, b) <==> RowsAgree(db, b)
  {
    SameVersionRows(db, b);
    SameOtherRows(db, b);
    hide Compatible;
  }

  lemma InsertableExactly(db: Db, b: Bundle)
    ensures Insertable(db, b) <==> NoConflicts(db, b)
  {
    ComparableExactly(db, b);
    hide RowsAgree, Comparable;
  }

  /** The rows of a bundle beside those of the tables: a row that was there stays, one that was not is the bundle's. */
  ghost predicate RowsMerged(db: Db, b: Bundle, after: Db) {
    && after.modules.Keys == db.modules.Keys + b.modules.Keys
    && (forall slug | slug in after.modules ::
          after.modules[slug] == if slug in db.modules then db.modules[slug] else b.modules[slug])
    && after.versions.Keys == db.versions.Keys + b.versions.Keys
    && (forall v | v in db.versions :: after.versions[v] == db.versions[v])
    && (forall v | v in b.versions && v !in db.versions ::
          after.versions[v] == Version(BundleFile(v.hash), b.versions[v].semantic, b.versions[v].validators,
                                       b.versions[v].retrievedAt))
    && after.chunks.Keys == db.chunks.Keys + b.chunks.Keys
    && (forall c | c in after.chunks :: after.chunks[c] == if c in db.chunks then db.chunks[c] else b.chunks[c])
    && after.embeddings.Keys == db.embeddings.Keys + b.embeddings.Keys
    && (forall e | e in after.embeddings ::
          after.embeddings[e] == if e in db.embeddings then db.embeddings[e] else b.embeddings[e])
  }

  lemma InsertedRows(db: Db, b: Bundle)
    ensures RowsMerged(db, b, Inserted(db, b))
  {
  }

  /** `_insert_records` and `_build_fts`. */
  method InsertRecords(db: Db, b: Bundle) returns (r: Result<Db, CorpusError>)
    ensures r.Ok? <==> NoConflicts(db, b)
    ensures r.Err? ==> r.error == InsertError(db, b)
    ensures r.Ok? ==> r.value == Inserted(db, b) && Insertable(db, b) && RowsMerged(db, b, r.value)
  {
    InsertableExactly(db, b);
    ComparableExactly(db, b);
    InsertedRows(db, b);
    if b.generation in db.generations {
      return Err(AlreadyInstalled);
    }
    var modules := MergeRows(db.modules, b.modules, SameModule);
    var versions := MergeRows(db.versions, BundleRows(b.versions), SameVersion);
    var chunks := MergeRows(db.chunks, b.chunks, Same);
    var embeddings := MergeRows(db.embeddings, b.embeddings, Same);
    if modules.None? || versions.None? || chunks.None? || embeddings.None? {
      return Err(BundleConflict);
    }
    if !(b.sources <= versions.value.Keys && b.members.Keys <= chunks.value.Keys) {
      return Err(IntegrityError);
    }
    var rows := db.(modules := modules.value, versions := versions.value, chunks := chunks.value,
                    embeddings := embeddings.value);
    r := Ok(WithGeneration(rows, b.generation, BundleGeneration(b)));
  }

  lemma MergePreserves(db: Db, b: Bundle)
    requires b.generation !in db.generations
    ensures Preserves(db, Inserted(db, b))
    ensures Inserted(db, b).generations == db.generations[b.generation := BundleGeneration(b)]
    ensures Inserted(db, b).active == db.active
  {
    WithGenerationSame(MergedRows(db, b), b.generation, BundleGeneration(b));
  }

  lemma JoinedSources(catalog: Catalog, modules: map<Slug, Module>, more: map<Slug, Module>,
                      versions: map<VersionId, Version>, others: map<VersionId, Version>, chunks: map<ChunkId, Chunk>,
                      rest: map<ChunkId, Chunk>)
    requires SourcesOk(catalog, modules, versions, chunks) && SourcesOk(catalog, more, others, rest)
    ensures SourcesOk(catalog, more + modules, others + versions, rest + chunks)
  {
  }

  lemma MergedSources(catalog: Catalog, db: Db, b: Bundle)
    requires SourcesOk(catalog, db.modules, db.versions, db.chunks)
    requires SourcesOk(catalog, b.modules, b.versions, b.chunks)
    ensures var rows := MergedRows(db, b);
            SourcesOk(catalog, rows.modules, rows.versions, rows.chunks)
  {
    assert BundleRows(b.versions).Keys == b.versions.Keys;
    JoinedSources(catalog, db.modules, b.modules, db.versions, BundleRows(b.versions), db.chunks, b.chunks);
  }

  /** Tables and bundle hold the same chunks of a version they share. */
  lemma SharedChunks(a: map<ChunkId, Chunk>, b: map<ChunkId, Chunk>, v: VersionId, semantic: seq<Section>, c: ChunkId)
    requires HoldsMeaning(a, v, semantic) && HoldsMeaning(b, v, semantic) && c.version == v
    ensures c in a <==> c in b
  {
    if c in a {
      assert IsSection(c, v, semantic);
      var i :| 0 <= i < |semantic| && c == IdOf(v, semantic[i]);
      assert HoldsNormalised(b, v, semantic[i]);
    }
    if c in b {
      assert IsSection(c, v, semantic);
      var i :| 0 <= i < |semantic| && c == IdOf(v, semantic[i]);
      assert HoldsNormalised(a, v, semantic[i]);
    }
  }

  /** What the tables and a bundle that can be inserted have to agree on. */
  ghost predicate Agreeing(db: Db, b: Bundle) {
    && ContentOk(db.versions, db.chunks) && ContentOk(b.versions, b.chunks)
    && (forall c | c in db.chunks :: c.version in db.versions) && (forall c | c in b.chunks :: c.version in b.versions)
    && (forall v | v in b.versions && v in db.versions :: db.versions[v].semantic == b.versions[v].semantic)
    && (forall c | c in b.chunks && c in db.chunks :: db.chunks[c] == b.chunks[c])
  }

  lemma InsertableAgrees(catalog: Catalog, db: Db, b: Bundle)
    requires Sound(catalog, db) && Coherent(catalog, b) && Insertable(db, b)
    ensures Agreeing(db, b)
  {
    forall v | v in b.versions && v in db.versions ensures db.versions[v].semantic == b.versions[v].semantic {
      assert v in BundleRows(b.versions);
    }
  }

  lemma SharedVersion(db: Db, b: Bundle, c: ChunkId)
    requires Agreeing(db, b) && c.version in db.versions && c.version in b.versions
    ensures c in db.chunks <==> c in b.chunks
  {
    var v := c.version;
    assert HoldsMeaning(db.chunks, v, db.versions[v].semantic) && HoldsMeaning(b.chunks, v, b.versions[v].semantic);
    SharedChunks(db.chunks, b.chunks, v, db.versions[v].semantic, c);
  }

  lemma MergedGrows(db: Db, b: Bundle)
    requires Agreeing(db, b)
    ensures Grows(db, MergedRows(db, b))
  {
    forall c | c in MergedRows(db, b).chunks && c !in db.chunks ensures c.version !in db.versions {
      if c.version in db.versions {
        SharedVersion(db, b, c);
      }
    }
  }

  lemma MergedContent(db: Db, b: Bundle)
    requires Agreeing(db, b)
    ensures ContentOk(MergedRows(db, b).versions, MergedRows(db, b).chunks)
  {
    var rows := MergedRows(db, b);
    forall v | v in rows.versions ensures HoldsMeaning(rows.chunks, v, rows.versions[v].semantic) {
      if v in db.versions {
        assert HoldsMeaning(db.chunks, v, db.versions[v].semantic);
        MergedMeaning(db, b, v, db.versions[v].semantic, db.chunks);
      } else {
        assert HoldsMeaning(b.chunks, v, b.versions[v].semantic);
        MergedMeaning(db, b, v, b.versions[v].semantic, b.chunks);
      }
    }
  }

  lemma MergedMeaning(db: Db, b: Bundle, v: VersionId, semantic: seq<Section>, chunks: map<ChunkId, Chunk>)
    requires Agreeing(db, b) && HoldsMeaning(chunks, v, semantic)
    requires if v in db.versions then chunks == db.chunks else v in b.versions && chunks == b.chunks
    ensures HoldsMeaning(b.chunks + db.chunks, v, semantic)
  {
    var rows := b.chunks + db.chunks;
    forall i | 0 <= i < |semantic| ensures HoldsNormalised(rows, v, semantic[i]) {
      assert HoldsNormalised(chunks, v, semantic[i]);
    }
    forall c | c in rows && c.version == v ensures IsSection(c, v, semantic) {
      if c !in chunks && v in db.versions {
        SharedVersion(db, b, c);
      }
    }
  }

  lemma MergedSound(catalog: Catalog, db: Db, b: Bundle)
    requires Sound(catalog, db) && SourcesOk(catalog, b.modules, b.versions, b.chunks) && Agreeing(db, b)
    ensures Sound(catalog, MergedRows(db, b))
  {
    var rows := MergedRows(db, b);
    MergedSources(catalog, db, b);
    MergedContent(db, b);
    MergedGrows(db, b);
    forall g | g in rows.generations ensures GenerationOk(rows, rows.generations[g]) {
      GenerationGrows(db, rows, db.generations[g]);
    }
  }

  lemma BundleMembers(catalog: Catalog, db: Db, b: Bundle, c: ChunkId)
    requires Agreeing(db, b) && b.sources == b.versions.Keys && b.members.Keys == b.chunks.Keys
    ensures c in b.members <==> c in (b.chunks + db.chunks) && c.version in b.sources
  {
    if c in db.chunks && c.version in b.versions {
      SharedVersion(db, b, c);
    }
  }

  lemma BundleGenerationOk(catalog: Catalog, db: Db, b: Bundle)
    requires IndexOk(db.fts) && Validates(b) && Coherent(catalog, b) && Agreeing(db, b)
    ensures GenerationOk(Inserted(db, b), BundleGeneration(b))
  {
    var gen := BundleGeneration(b);
    var rows := MergedRows(db, b);
    var inserted := rows.(generations := rows.generations[b.generation := gen]);
    BuildFtsIndexes(inserted);
    forall c ensures c in gen.members <==> c in rows.chunks && c.version in gen.sources {
      BundleMembers(catalog, db, b, c);
    }
    forall c | c in gen.members ensures c in BuildFts(inserted).fts {
      assert b.generation in inserted.generations && c in inserted.chunks;
      assert c in inserted.generations[b.generation].members;
    }
  }

  /** Inserting an exported bundle leaves tables that `verify` accepts. */
  lemma InsertedSound(catalog: Catalog, db: Db, b: Bundle)
    requires Sound(catalog, db) && Validates(b) && Coherent(catalog, b) && Insertable(db, b)
    ensures Sound(catalog, Inserted(db, b))
  {
    InsertableAgrees(catalog, db, b);
    MergedSound(catalog, db, b);
    BundleGenerationOk(catalog, db, b);
    WithGenerationSound(catalog, MergedRows(db, b), b.generation, BundleGeneration(b));
  }

  // ----- Import

  /** `_publish_artifacts`: one file per content, and a file that exists stays. */
  method PublishArtifacts(ghost versions: map<VersionId, Version>, files: Files, b: Bundle) returns (after: Files)
    requires FilesOk(versions, files) && Validates(b)
    ensures FilesOk(versions, after) && FilesOk(BundleRows(b.versions) + versions, after)
    ensures forall u :: u in after <==> u in files || exists v :: v in b.versions && u == BundleFile(v.hash)
  {
    after := files;
    var rest := b.versions.Keys;
    while rest != {}
      invariant rest <= b.versions.Keys && FilesOk(versions, after)
      invariant forall v | v in b.versions.Keys - rest :: BundleFile(v.hash) in after
      invariant forall u :: u in after <==> u in files || exists v ::
                  v in b.versions.Keys - rest && u == BundleFile(v.hash)
      decreases rest
    {
      var v :| v in rest;
      if BundleFile(v.hash) !in after {
        after := after[BundleFile(v.hash) := b.artifacts[v.hash]];
      }
      rest := rest - {v};
    }
  }

  /** `_active_user_versions`. */
  function ActiveUsers(db: Db): set<VersionId> {
    set v | v in ActiveSources(db) && v.slug.User?
  }

  /** `_payload_versions_by_slug`: of two versions of one slug the one read last. */
  method PayloadVersions(sources: set<VersionId>) returns (selected: Selection)
    ensures Proper(selected) && selected.Values <= sources && selected.Keys == Slugs(sources)
    ensures OnePerSlug(sources) ==> selected.Values == sources
  {
    selected := map[];
    var rest := sources;
    while rest != {}
      invariant rest <= sources && Proper(selected) && selected.Keys == Slugs(sources - rest)
      invariant forall slug | slug in selected :: selected[slug] in sources
      decreases rest
    {
      var v :| v in rest;
      selected := selected[v.slug := v];
      rest := rest - {v};
    }
    if OnePerSlug(sources) {
      forall v | v in sources ensures v in selected.Values {
        assert v.slug in Slugs(sources);
        assert selected[v.slug] == v;
      }
    }
  }

  lemma UsersSelected(db: Db, payload: Selection)
    requires OnePerSlug(ActiveSources(db)) && Proper(payload) && forall slug | slug in payload :: slug.Official?
    ensures OnePerSlug(ActiveUsers(db))
    ensures var selected := VersionsBySlug(ActiveUsers(db)) + payload;
            Proper(selected) && selected.Values == ActiveUsers(db) + payload.Values
  {
    var users := VersionsBySlug(ActiveUsers(db));
    var selected := users + payload;
    forall v | v in ActiveUsers(db) + payload.Values ensures v in selected.Values {
      if v in ActiveUsers(db) {
        assert users[v.slug] == v && selected[v.slug] == v;
      } else {
        assert payload[v.slug] == v && selected[v.slug] == v;
      }
    }
  }

  ghost predicate SameSourceRows(a: Db, b: Db) {
    b.modules == a.modules && b.versions == a.versions && b.chunks == a.chunks && b.embeddings == a.embeddings
  }

  lemma SameRowsMerged(db: Db, b: Bundle, inserted: Db, after: Db)
    requires RowsMerged(db, b, inserted) && SameSourceRows(inserted, after)
    ensures RowsMerged(db, b, after)
  {
  }

  /** What an import that succeeds makes of the tables with the inserted records. */
  ghost predicate Imports(catalog: Catalog, db: Db, inserted: Db, after: Db, b: Bundle, activate: bool, now: Time) {
    && Preserves(db, after) && Preserves(inserted, after) && SameSourceRows(inserted, after)
    && (Sound(catalog, inserted) ==> Sound(catalog, after))
    && (!activate ==> after == inserted)
    && (activate && ActiveUsers(db) == {} ==>
          b.generation in inserted.generations && after == Activate(inserted, b.generation, now))
    && (activate && ActiveUsers(db) != {} && OnePerSlug(b.sources) ==>
          ActiveSources(after) == ActiveUsers(db) + b.sources)
    && (ActiveUsers(after) == ActiveUsers(db) <==> (activate ==> forall v | v in b.sources :: v.slug.Official?))
    && (PointerOk(inserted.generations, inserted.active) ==>
          (PointerOk(after.generations, after.active) <==> Searchable(db, b, activate)))
  }

  /** The generation that an import activates can be searched: only the bundle's own may still be embedding. */
  ghost predicate Searchable(db: Db, b: Bundle, activate: bool) {
    activate && ActiveUsers(db) == {} ==> b.readiness != EmbeddingStaging
  }

  /** A merged publication succeeds: the bundle names its own versions, and the core is complete or need not be. */
  predicate Mergeable(catalog: Catalog, b: Bundle, allowPartial: bool) {
    b.sources <= b.versions.Keys && (allowPartial || catalog.CoreSlugs() <= Slugs(b.sources))
  }

  /** Exactly when an import succeeds. */
  ghost predicate Importable(catalog: Catalog, db: Db, b: Bundle, activate: bool, allowPartial: bool) {
    && (b.partial ==> allowPartial) && Validates(b) && NoConflicts(db, b)
    && (activate && ActiveUsers(db) != {} ==> Mergeable(catalog, b, allowPartial))
  }

  /** Why an import fails: the first reason in the order in which they are looked for. */
  ghost function ImportError(db: Db, b: Bundle, allowPartial: bool): CorpusError {
    if b.partial && !allowPartial then PartialNotAllowed
    else if !Validates(b) then InvalidBundle
    else if !NoConflicts(db, b) then InsertError(db, b)
    else if !(b.sources <= b.versions.Keys) then InvalidBundle
    else MissingCore
  }

  /** The generation of the bundle is staged beside the others. */
  ghost predicate StagedBeside(db: Db, inserted: Db, b: Bundle) {
    && b.generation !in db.generations && Preserves(db, inserted) && inserted.active == db.active
    && (db.active.Some? ==> db.active.value in db.generations)
    && inserted.generations == db.generations[b.generation := BundleGeneration(b)]
  }

  lemma ImportsStaged(catalog: Catalog, db: Db, inserted: Db, b: Bundle, now: Time)
    requires StagedBeside(db, inserted, b)
    ensures Imports(catalog, db, inserted, inserted, b, false, now)
  {
    assert ActiveSources(inserted) == ActiveSources(db);
  }

  lemma OnlyOfficial(db: Db)
    ensures ActiveUsers(db) == {} <==> forall v | v in ActiveSources(db) :: v.slug.Official?
  {
    if v :| v in ActiveSources(db) && v.slug.User? {
      assert v in ActiveUsers(db);
    }
  }

  lemma ActivatedSources(inserted: Db, b: Bundle, now: Time)
    requires b.generation in inserted.generations && inserted.generations[b.generation].sources == b.sources
    ensures ActiveSources(Activate(inserted, b.generation, now)) == b.sources
  {
    ActivateContent(inserted, b.generation, now);
  }

  lemma ActivateSound(catalog: Catalog, db: Db, g: GenId, now: Time)
    requires Sound(catalog, db) && g in db.generations
    ensures Sound(catalog, Activate(db, g, now))
  {
    ActivateGenerations(db, g, now);
  }

  lemma ImportsAlone(catalog: Catalog, db: Db, inserted: Db, b: Bundle, now: Time)
    requires StagedBeside(db, inserted, b) && ActiveUsers(db) == {}
    ensures b.generation in inserted.generations
    ensures Imports(catalog, db, inserted, Activate(inserted, b.generation, now), b, true, now)
  {
    var after := Activate(inserted, b.generation, now);
    ActivateSame(inserted, b.generation, now);
    PreservesTransitive(db, inserted, after);
    ActivatedSources(inserted, b, now);
    OnlyOfficial(after);
    if Sound(catalog, inserted) {
      ActivateSound(catalog, inserted, b.generation, now);
    }
    if PointerOk(inserted.generations, inserted.active) {
      ActivatedPointer(inserted, b, now);
    }
  }

  lemma ActivatedPointer(inserted: Db, b: Bundle, now: Time)
    requires PointerOk(inserted.generations, inserted.active) && b.generation in inserted.generations
    requires inserted.generations[b.generation].readiness == b.readiness
    ensures PointerOk(Activate(inserted, b.generation, now).generations, Some(b.generation)) <==>
              b.readiness != EmbeddingStaging
  {
    if b.readiness != EmbeddingStaging {
      ActivatePointer(inserted, b.generation, now);
    }
  }

  lemma UserPart(db: Db, after: Db, official: set<VersionId>)
    requires ActiveSources(after) == ActiveUsers(db) + official && forall v | v in official :: v.slug.Official?
    ensures ActiveUsers(after) == ActiveUsers(db)
  {
  }

  lemma ImportsMerged(catalog: Catalog, db: Db, inserted: Db, after: Db, b: Bundle, payload: set<VersionId>, now: Time)
    requires Preserves(db, inserted) && Preserves(inserted, after) && SameSourceRows(inserted, after)
    requires Sound(catalog, inserted) ==> Sound(catalog, after)
    requires ActiveUsers(db) != {} && ActiveSources(after) == ActiveUsers(db) + payload
    requires payload <= b.sources && (OnePerSlug(b.sources) ==> payload == b.sources)
    requires forall v | v in b.sources :: v.slug.Official?
    requires PointerOk(inserted.generations, inserted.active) ==> PointerOk(after.generations, after.active)
    ensures Imports(catalog, db, inserted, after, b, true, now)
  {
    PreservesTransitive(db, inserted, after);
    UserPart(db, after, payload);
  }

  lemma PublishesMerged(catalog: Catalog, inserted: Db, selected: Selection, allowPartial: bool, now: Time, g: GenId)
    requires Proper(selected) && g !in inserted.generations
    requires Publish(catalog, inserted, selected, allowPartial, true, now, g).Ok?
    ensures var after := Publish(catalog, inserted, selected, allowPartial, true, now, g).value;
            && Preserves(inserted, after) && SameSourceRows(inserted, after)
            && ActiveSources(after) == selected.Values
            && (Sound(catalog, inserted) ==> Sound(catalog, after))
            && (PointerOk(inserted.generations, inserted.active) ==> PointerOk(after.generations, after.active))
  {
    var after := Publish(catalog, inserted, selected, allowPartial, true, now, g).value;
    if PointerOk(inserted.generations, inserted.active) {
      PublishedPointer(catalog, inserted, selected, allowPartial, now, g);
    }
    PublishPreserves(catalog, inserted, selected, allowPartial, true, now, g);
    PublishReadsBack(catalog, inserted, selected, allowPartial, now, g);
    PublishFrame(catalog, inserted, selected, allowPartial, true, now, g);
    ReadBackSources(after, selected);
    if Sound(catalog, inserted) {
      PublishSound(catalog, inserted, selected, allowPartial, true, now, g);
    }
  }

  lemma PublishedPointer(catalog: Catalog, db: Db, selected: Selection, allowPartial: bool, now: Time, g: GenId)
    requires PointerOk(db.generations, db.active) && g !in db.generations
    requires Publish(catalog, db, selected, allowPartial, true, now, g).Ok?
    ensures var after := Publish(catalog, db, selected, allowPartial, true, now, g).value;
            PointerOk(after.generations, after.active)
  {
    var gen := NewGeneration(catalog, db, selected);
    StagedPointer(db.generations, db.active, g, gen);
    assert gen.readiness != EmbeddingStaging;
    ActivatePointer(WithGeneration(db, g, gen), g, now);
  }

  lemma ReadBackSources(db: Db, selected: Selection)
    requires OnePerSlug(ActiveSources(db)) && VersionsBySlug(ActiveSources(db)) == selected
    ensures ActiveSources(db) == selected.Values
  {
    forall v | v in ActiveSources(db) ensures v in selected.Values {
      assert selected[v.slug] == v;
    }
  }

  lemma MergedCore(catalog: Catalog, db: Db, payload: Selection, sources: set<VersionId>)
    requires OnePerSlug(ActiveUsers(db)) && payload.Keys == Slugs(sources)
    ensures catalog.CoreSlugs() <= (VersionsBySlug(ActiveUsers(db)) + payload).Keys <==>
              catalog.CoreSlugs() <= Slugs(sources)
  {
    forall slug | slug in catalog.CoreSlugs() ensures slug !in VersionsBySlug(ActiveUsers(db)) {
    }
  }

  lemma MergedSelection(catalog: Catalog, db: Db, versions: set<VersionId>, b: Bundle, payload: Selection)
    requires OnePerSlug(ActiveSources(db)) && ActiveSources(db) <= versions && b.versions.Keys <= versions
    requires Validates(b) && b.sources <= b.versions.Keys
    requires Proper(payload) && payload.Values <= b.sources && payload.Keys == Slugs(b.sources)
    ensures OnePerSlug(ActiveUsers(db)) && forall v | v in b.sources :: v.slug.Official?
    ensures var selected := VersionsBySlug(ActiveUsers(db)) + payload;
            && Proper(selected) && selected.Values == ActiveUsers(db) + payload.Values && selected.Values <= versions
            && (catalog.CoreSlugs() <= selected.Keys <==> catalog.CoreSlugs() <= Slugs(b.sources))
  {
    UsersSelected(db, payload);
    MergedCore(catalog, db, payload, b.sources);
  }

  /** The part of `import_bundle` that keeps the active user resources. */
  method MergeUsers(catalog: Catalog, db: Db, inserted: Db, b: Bundle, allowPartial: bool, now: Time)
    returns (r: Result<GenId, CorpusError>, after: Db)
    requires OnePerSlug(ActiveSources(db)) && ActiveUsers(db) != {} && Validates(b) && Preserves(db, inserted)
    requires ActiveSources(db) <= db.versions.Keys && b.versions.Keys <= inserted.versions.Keys
    ensures r.Err? ==> after == db
    ensures r.Ok? ==> Imports(catalog, db, inserted, after, b, true, now)
    ensures r.Ok? <==> Mergeable(catalog, b, allowPartial)
    ensures r.Err? ==> r.error == if b.sources <= b.versions.Keys then MissingCore else InvalidBundle
  {
    if !(b.sources <= b.versions.Keys) {
      return Err(InvalidBundle), db;
    }
    var payload := PayloadVersions(b.sources);
    MergedSelection(catalog, db, inserted.versions.Keys, b, payload);
    r, after := PublishMerged(catalog, db, inserted, b, payload, VersionsBySlug(ActiveUsers(db)) + payload,
                              allowPartial, now);
  }

  /** The publication of the merged selection. */
  method PublishMerged(catalog: Catalog, db: Db, inserted: Db, b: Bundle, payload: Selection, selected: Selection,
                       allowPartial: bool, now: Time)
    returns (r: Result<GenId, CorpusError>, after: Db)
    requires ActiveUsers(db) != {} && Preserves(db, inserted)
    requires Proper(selected) && selected.Values == ActiveUsers(db) + payload.Values
    requires selected.Values <= inserted.versions.Keys
    requires payload.Values <= b.sources && (OnePerSlug(b.sources) ==> payload.Values == b.sources)
    requires forall v | v in b.sources :: v.slug.Official?
    ensures r.Err? ==> after == db
    ensures r.Ok? ==> Imports(catalog, db, inserted, after, b, true, now)
    ensures r.Ok? <==> allowPartial || catalog.CoreSlugs() <= selected.Keys
    ensures r.Err? ==> r.error == MissingCore
  {
    ghost var unused := FreshId(inserted.generations.Keys);
    var g: nat :| g !in inserted.generations.Keys;
    match Publish(catalog, inserted, selected, allowPartial, true, now, g) {
      case Err(error) =>
        r, after := Err(error), db;
      case Ok(published) =>
        PublishesMerged(catalog, inserted, selected, allowPartial, now, g);
        ImportsMerged(catalog, db, inserted, published, b, payload.Values, now);
        r, after := Ok(g), published;
    }
  }

  /** `import_bundle`. */
  method Import(catalog: Catalog, db: Db, files: Files, b: Bundle, activate: bool, allowPartial: bool, now: Time)
    returns (r: Result<GenId, CorpusError>, after: Db, left: Files)
    requires Sound(catalog, db) && FilesOk(db.versions, files) && PointerOk(db.generations, db.active)
    ensures FilesOk(after.versions, left)
    ensures r.Err? ==> after == db
    ensures r.Ok? ==>
              && Validates(b) && Insertable(db, b) && RowsMerged(db, b, after)
              && Imports(catalog, db, Inserted(db, b), after, b, activate, now)
    ensures r.Err? ==> r.error == ImportError(db, b, allowPartial)
    ensures r.Ok? <==> Importable(catalog, db, b, activate, allowPartial)
  {
    hide SourcesOk, ContentOk, IndexOk, GenerationsOk, RowsMerged, Imports, RowsAgree, Inserted, Preserves;
    if b.partial && !allowPartial {
      return Err(PartialNotAllowed), db, files;
    }
    if !Validates(b) {
      return Err(InvalidBundle), db, files;
    }
    left := PublishArtifacts(db.versions, files, b);
    var records := InsertRecords(db, b);
    if records.Err? {
      return Err(records.error), db, left;
    }
    InsertedBeside(db, b);
    r, after := PublishBundle(catalog, db, records.value, b, activate, allowPartial, now);
    if r.Ok? {
      SameRowsMerged(db, b, records.value, after);
    }
  }

  lemma InsertedBeside(db: Db, b: Bundle)
    requires b.generation !in db.generations && PointerOk(db.generations, db.active)
    ensures StagedBeside(db, Inserted(db, b), b) && Inserted(db, b).versions == BundleRows(b.versions) + db.versions
    ensures PointerOk(Inserted(db, b).generations, Inserted(db, b).active)
    ensures b.versions.Keys <= Inserted(db, b).versions.Keys
  {
    MergePreserves(db, b);
    StagedPointer(db.generations, db.active, b.generation, BundleGeneration(b));
  }

  /** The rest of the transaction of `import_bundle`. */
  method PublishBundle(catalog: Catalog, db: Db, inserted: Db, b: Bundle, activate: bool, allowPartial: bool, now: Time)
    returns (r: Result<GenId, CorpusError>, after: Db)
    requires Sound(catalog, db) && StagedBeside(db, inserted, b) && Validates(b)
    requires b.versions.Keys <= inserted.versions.Keys
    ensures r.Err? ==> after == db
    ensures r.Ok? ==> Imports(catalog, db, inserted, after, b, activate, now)
    ensures r.Ok? <==> (activate && ActiveUsers(db) != {} ==> Mergeable(catalog, b, allowPartial))
    ensures r.Err? ==> r.error == if b.sources <= b.versions.Keys then MissingCore else InvalidBundle
  {
    if !activate {
      ImportsStaged(catalog, db, inserted, b, now);
      return Ok(b.generation), inserted;
    }
    if ActiveUsers(db) == {} {
      ImportsAlone(catalog, db, inserted, b, now);
      return Ok(b.generation), Activate(inserted, b.generation, now);
    }
    assert GenerationOk(db, db.generations[db.active.value]);
    r, after := MergeUsers(catalog, db, inserted, b, allowPartial, now);
  }

  // ----- From one workspace to another

  /** A coherent bundle of official sources, imported. */
  method ImportCoherent(catalog: Catalog, b: Bundle, target: Db, files: Files, activate: bool, allowPartial: bool,
                        now: Time)
    returns (r: Result<GenId, CorpusError>, after: Db, left: Files)
    requires Validates(b) && Coherent(catalog, b) && forall v | v in b.sources :: v.slug.Official?
    requires Sound(catalog, target) && FilesOk(target.versions, files) && PointerOk(target.generations, target.active)
    ensures Sound(catalog, after) && FilesOk(after.versions, left)
    ensures Preserves(target, after) && ActiveUsers(after) == ActiveUsers(target)
    ensures r.Ok? && activate ==> ActiveSources(after) == ActiveUsers(target) + b.sources
    ensures r.Err? ==> after == target
    ensures r.Ok? <==> Importable(catalog, target, b, activate, allowPartial)
    ensures r.Ok? ==> RowsMerged(target, b, after)
    ensures r.Ok? && SemanticsFaithful(catalog, target.versions) ==>
              (Wf(catalog, after) <==>
                 Searchable(target, b, activate) && SemanticsDistinct(BundleRows(b.versions) + target.versions))
  {
    hide SourcesOk, ContentOk, IndexOk, GenerationsOk, FilesOk, Validates;
    r, after, left := Import(catalog, target, files, b, activate, allowPartial, now);
    if r.Ok? {
      InsertedSound(catalog, target, b);
      InsertedBeside(target, b);
      TransferredSources(catalog, target, Inserted(target, b), after, b, activate, now);
      if SemanticsFaithful(catalog, target.versions) {
        MergedFaithful(catalog, target.versions, b.versions);
      }
    }
  }

  lemma MergedFaithful(catalog: Catalog, versions: map<VersionId, Version>, more: map<VersionId, Version>)
    requires SemanticsFaithful(catalog, versions) && SemanticsFaithful(catalog, more)
    ensures SemanticsFaithful(catalog, BundleRows(more) + versions)
  {
  }

  /**
    An exported bundle imported into any workspace: `verify` accepts every generation there,
    nothing stored there is lost, and the active user resources stay exactly as they were.
   */
  method Transfer(catalog: Catalog, source: Db, sourceFiles: Files, g: GenId, target: Db, files: Files, activate: bool,
                  allowPartial: bool, now: Time)
    returns (r: Result<GenId, CorpusError>, after: Db, left: Files)
    requires Wf(catalog, source) && FilesOk(source.versions, sourceFiles) && ExportBundle(source, sourceFiles, g).Ok?
    requires Sound(catalog, target) && FilesOk(target.versions, files) && PointerOk(target.generations, target.active)
    ensures forall h | h in after.generations :: Verify(after, left, h) == None
    ensures Preserves(target, after) && ActiveUsers(after) == ActiveUsers(target)
    ensures r.Ok? && activate ==>
              ActiveSources(after) == ActiveUsers(target) + OfficialOnly(source.generations[g].sources)
    ensures r.Err? ==> after == target
    ensures var b := ExportBundle(source, sourceFiles, g).value;
            && (r.Ok? <==>
                  && (source.generations[g].partial ==> allowPartial) && Agree(source, g, target)
                  && (activate && ActiveUsers(target) != {} ==>
                        allowPartial || catalog.CoreSlugs() <= Slugs(OfficialOnly(source.generations[g].sources))))
            && (r.Ok? ==> RowsMerged(target, b, after))
            && (r.Ok? && SemanticsFaithful(catalog, target.versions) ==>
                  (Wf(catalog, after) <==>
                     && (activate && ActiveUsers(target) == {} ==> source.generations[g].readiness != EmbeddingStaging)
                     && SemanticsDistinct(target.versions) && NewMeanings(source, g, target)))
  {
    hide SourcesOk, ContentOk, IndexOk, GenerationsOk, FilesOk, Validates, Coherent, Exports, RowsMerged, Agree, Holds;
    hide NewMeanings, NoConflicts, SemanticsDistinct, PointerOk;
    ExportValidates(catalog, source, sourceFiles, g);
    var b := ExportBundle(source, sourceFiles, g).value;
    ExportedMembers(catalog, source, g);
    ExportedKeys(source, g, b);
    AgreeExactly(catalog, source, g, target, b);
    OfficialSources(source, g, b);
    if Agree(source, g, target) {
      MeaningsExactly(source, g, target, b);
    }
    r, after, left := ImportCoherent(catalog, b, target, files, activate, allowPartial, now);
    AllVerify(catalog, after, left);
  }

  /** The official part of a generation and another workspace say the same where they share a row. */
  ghost predicate Agree(source: Db, g: GenId, target: Db) {
    && g in source.generations && g !in target.generations
    && var gen := source.generations[g];
    && (forall v | v in gen.sources && v.slug.Official? && v in source.versions && v in target.versions ::
          && target.versions[v].semantic == source.versions[v].semantic
          && target.versions[v].validators == source.versions[v].validators)
    && (forall c | c in gen.members && c.version.slug.Official? && c in source.chunks && c in target.chunks ::
          target.chunks[c] == source.chunks[c])
    && forall e | e in source.embeddings && e.chunk in gen.members && e.chunk.version.slug.Official?
                  && e in target.embeddings :: target.embeddings[e] == source.embeddings[e]
  }

  /** No two versions of one source mean the same, one in the generation and another in the target. */
  ghost predicate NewMeanings(source: Db, g: GenId, target: Db) {
    && g in source.generations
    && forall a, b | a in source.generations[g].sources && a.slug.Official? && a in source.versions
                     && b in target.versions && a.slug == b.slug && a.parser == b.parser
                     && source.versions[a].semantic == target.versions[b].semantic :: a == b
  }

  lemma OfficialSources(source: Db, g: GenId, b: Bundle)
    requires Exports(source, g, b)
    ensures g in source.generations && b.generation == g && b.sources == OfficialOnly(source.generations[g].sources)
    ensures b.partial == source.generations[g].partial && b.readiness == source.generations[g].readiness
    ensures b.sources <= b.versions.Keys && forall v | v in b.sources :: v.slug.Official?
  {
  }

  lemma ExportedIsWhole(db: Db, g: GenId, b: Bundle)
    requires Exports(db, g, b)
    ensures b.sources == b.versions.Keys && b.members.Keys == b.chunks.Keys
  {
  }

  /** Which rows a bundle holds of a generation. */
  ghost predicate Holds(source: Db, gen: Generation, b: Bundle) {
    && b.sources == b.versions.Keys && b.members.Keys == b.chunks.Keys
    && (forall v :: v in b.versions <==> v in gen.sources && v.slug.Official? && v in source.versions)
    && (forall v | v in b.versions :: b.versions[v] == source.versions[v])
    && (forall c :: c in b.chunks <==> c in gen.members && c.version.slug.Official? && c in source.chunks)
    && (forall c | c in b.chunks :: b.chunks[c] == source.chunks[c])
    && (forall e :: e in b.embeddings <==> e in source.embeddings && e.chunk in b.chunks)
    && (forall e | e in b.embeddings :: b.embeddings[e] == source.embeddings[e])
  }

  lemma ExportedKeys(source: Db, g: GenId, b: Bundle)
    requires Exports(source, g, b) && GenerationOk(source, source.generations[g])
    ensures b.generation == g && Holds(source, source.generations[g], b)
  {
  }

  lemma HeldDisagree(source: Db, g: GenId, target: Db, b: Bundle)
    requires g in source.generations && b.generation == g && Holds(source, source.generations[g], b)
    requires forall c | c in source.generations[g].members :: c in source.chunks
    requires NoConflicts(target, b)
    ensures Agree(source, g, target)
  {
    var gen := source.generations[g];
    forall v | v in gen.sources && v.slug.Official? && v in source.versions && v in target.versions
      ensures target.versions[v].semantic == source.versions[v].semantic
      ensures target.versions[v].validators == source.versions[v].validators
    {
      assert v in b.versions;
    }
    forall e | e in source.embeddings && e.chunk in gen.members && e.chunk.version.slug.Official?
               && e in target.embeddings
      ensures target.embeddings[e] == source.embeddings[e]
    {
      assert e.chunk in b.chunks && e in b.embeddings;
    }
  }

  lemma HeldAgree(source: Db, g: GenId, target: Db, b: Bundle)
    requires g in source.generations && b.generation == g && Holds(source, source.generations[g], b)
    requires forall slug | slug in b.modules && slug in target.modules ::
               target.modules[slug].law == b.modules[slug].law
    requires Agree(source, g, target)
    ensures NoConflicts(target, b)
  {
  }

  /** Two workspaces with the same packaged sources never disagree about a module. */
  lemma AgreeExactly(catalog: Catalog, source: Db, g: GenId, target: Db, b: Bundle)
    requires Wf(catalog, source) && Sound(catalog, target) && Exports(source, g, b) && Coherent(catalog, b)
    requires g in source.generations
    ensures NoConflicts(target, b) <==> Agree(source, g, target)
  {
    hide Exports, NoConflicts, Agree, Coherent, Holds;
    ExportedMembers(catalog, source, g);
    ExportedKeys(source, g, b);
    SameLaws(catalog, target, b);
    if NoConflicts(target, b) {
      HeldDisagree(source, g, target, b);
    }
    if Agree(source, g, target) {
      HeldAgree(source, g, target, b);
    }
  }

  lemma ExportedMembers(catalog: Catalog, source: Db, g: GenId)
    requires Wf(catalog, source) && g in source.generations
    ensures GenerationOk(source, source.generations[g])
    ensures forall c | c in source.generations[g].members :: c in source.chunks
  {
    assert GenerationOk(source, source.generations[g]);
  }

  lemma SameLaws(catalog: Catalog, target: Db, b: Bundle)
    requires Sound(catalog, target) && Coherent(catalog, b)
    ensures forall slug | slug in b.modules && slug in target.modules :: target.modules[slug].law == b.modules[slug].law
  {
  }

  lemma MeaningsExactly(source: Db, g: GenId, target: Db, b: Bundle)
    requires g in source.generations && Holds(source, source.generations[g], b)
    requires SemanticsDistinct(source.versions) && Agree(source, g, target)
    ensures SemanticsDistinct(BundleRows(b.versions) + target.versions) <==>
              SemanticsDistinct(target.versions) && NewMeanings(source, g, target)
  {
    var merged := BundleRows(b.versions) + target.versions;
    assert merged.Keys == b.versions.Keys + target.versions.Keys;
    forall v | v in merged
      ensures v in target.versions ==> merged[v].semantic == target.versions[v].semantic
      ensures v in b.versions ==> v in source.versions && merged[v].semantic == source.versions[v].semantic
    {
    }
    hide Agree;
    if SemanticsDistinct(merged) {
      MergedApart(source, g, target, b, merged);
    }
    if SemanticsDistinct(target.versions) && NewMeanings(source, g, target) {
      ApartMerged(source, g, target, b, merged);
    }
  }

  lemma MergedApart(source: Db, g: GenId, target: Db, b: Bundle, merged: map<VersionId, Version>)
    requires g in source.generations && Holds(source, source.generations[g], b)
    requires merged.Keys == b.versions.Keys + target.versions.Keys && SemanticsDistinct(merged)
    requires forall v | v in target.versions :: merged[v].semantic == target.versions[v].semantic
    requires forall v | v in b.versions :: v in source.versions && merged[v].semantic == source.versions[v].semantic
    ensures SemanticsDistinct(target.versions) && NewMeanings(source, g, target)
  {
    forall x, y | x in source.generations[g].sources && x.slug.Official? && x in source.versions
                  && y in target.versions && x.slug == y.slug && x.parser == y.parser
                  && source.versions[x].semantic == target.versions[y].semantic
      ensures x == y
    {
      assert x in b.versions;
    }
  }

  lemma ApartMerged(source: Db, g: GenId, target: Db, b: Bundle, merged: map<VersionId, Version>)
    requires g in source.generations && Holds(source, source.generations[g], b) && SemanticsDistinct(source.versions)
    requires merged.Keys == b.versions.Keys + target.versions.Keys
    requires forall v | v in target.versions :: merged[v].semantic == target.versions[v].semantic
    requires forall v | v in b.versions :: v in source.versions && merged[v].semantic == source.versions[v].semantic
    requires SemanticsDistinct(target.versions) && NewMeanings(source, g, target)
    ensures SemanticsDistinct(merged)
  {
    forall x, y | x in merged && y in merged && x.slug.Official? && x.slug == y.slug && x.parser == y.parser
                  && merged[x].semantic == merged[y].semantic
      ensures x == y
    {
      if x in b.versions && y in b.versions {
        assert x in source.versions && y in source.versions;
      }
    }
  }

  lemma TransferredSources(catalog: Catalog, db: Db, inserted: Db, after: Db, b: Bundle, activate: bool, now: Time)
    requires Imports(catalog, db, inserted, after, b, activate, now) && StagedBeside(db, inserted, b)
    requires OnePerSlug(b.sources) && forall v | v in b.sources :: v.slug.Official?
    ensures ActiveUsers(after) == ActiveUsers(db)
    ensures activate ==> ActiveSources(after) == ActiveUsers(db) + b.sources
  {
    if activate && ActiveUsers(db) == {} {
      ActivatedSources(inserted, b, now);
    }
  }

  function EmptyDb(): Db {
    Db(map[], map[], map[], map[], multiset{}, multiset{}, map[], None)
  }

  lemma EmptyKeeps(catalog: Catalog)
    ensures Sound(catalog, EmptyDb()) && FilesOk(EmptyDb().versions, map[])
    ensures PointerOk(EmptyDb().generations, EmptyDb().active)
    ensures ActiveUsers(EmptyDb()) == {}
  {
  }

  lemma RightEmpty<K, V>(m: map<K, V>)
    ensures m + map[] == m
  {
  }

  lemma EmptyInsert(b: Bundle)
    requires b.sources == b.versions.Keys && b.members.Keys == b.chunks.Keys
    ensures NoConflicts(EmptyDb(), b) && OnlyRows(Inserted(EmptyDb(), b), b)
  {
    RightEmpty(b.modules);
    RightEmpty(BundleRows(b.versions));
    RightEmpty(b.chunks);
    RightEmpty(b.embeddings);
  }

  /** The tables hold the bundle's rows and nothing else. */
  ghost predicate OnlyRows(db: Db, b: Bundle) {
    && db.modules == b.modules && db.versions == BundleRows(b.versions) && db.chunks == b.chunks
    && db.embeddings == b.embeddings
    && db.generations == map[b.generation := BundleGeneration(b)]
  }

  /** The workspace `after` holds the official part of generation `g` of `db` and nothing else. */
  ghost predicate Reproduces(db: Db, g: GenId, after: Db, now: Time) {
    && g in db.generations && after.generations.Keys == {g} && after.active == Some(g)
    && var was, copy := db.generations[g], after.generations[g];
    && copy == Generation(Active, was.profile, was.readiness, was.partial, OfficialOnly(was.sources),
                          OfficialMembers(was.members, OfficialOnly(was.sources)), Some(now))
    && after.versions.Keys == copy.sources && after.chunks.Keys == copy.members.Keys
    && (forall v | v in after.versions :: v in db.versions && after.versions[v].semantic == db.versions[v].semantic)
    && (forall c | c in after.chunks :: c in db.chunks && after.chunks[c] == db.chunks[c])
    && (forall e :: e in after.embeddings <==> e in db.embeddings && e.chunk in copy.members)
    && (forall e | e in after.embeddings :: after.embeddings[e] == db.embeddings[e])
  }

  lemma OnlyRowsReproduce(db: Db, g: GenId, b: Bundle, rows: Db, now: Time)
    requires Exports(db, g, b) && OnlyRows(rows, b)
    ensures b.generation in rows.generations && Reproduces(db, g, Activate(rows, b.generation, now), now)
  {
    var after := Activate(rows, b.generation, now);
    OnlyGeneration(rows, b, now);
    RowsReproduce(db, b, after);
  }

  lemma OnlyGeneration(rows: Db, b: Bundle, now: Time)
    requires rows.generations == map[b.generation := BundleGeneration(b)]
    ensures var after := Activate(rows, b.generation, now);
            && after.generations.Keys == {b.generation} && after.active == Some(b.generation)
            && after.generations[b.generation] == BundleGeneration(b).(status := Active, activatedAt := Some(now))
  {
  }

  lemma RowsReproduce(db: Db, b: Bundle, after: Db)
    requires ExportedRows(db, b) && b.chunks.Keys == b.members.Keys
    requires after.versions == BundleRows(b.versions) && after.chunks == b.chunks && after.embeddings == b.embeddings
    ensures after.versions.Keys == b.versions.Keys
    ensures forall v | v in after.versions :: v in db.versions && after.versions[v].semantic == db.versions[v].semantic
    ensures forall c | c in after.chunks :: c in db.chunks && after.chunks[c] == db.chunks[c]
    ensures forall e :: e in after.embeddings <==> e in db.embeddings && e.chunk in b.members
    ensures forall e | e in after.embeddings :: after.embeddings[e] == db.embeddings[e]
  {
  }

  lemma EmptyKeepsInvariant(catalog: Catalog, b: Bundle, after: Db)
    requires Coherent(catalog, b) && Sound(catalog, after)
    requires after.versions == BundleRows(b.versions)
    requires after.generations.Keys == {b.generation} && after.active == Some(b.generation)
    requires after.generations[b.generation].status == Active && after.generations[b.generation].activatedAt.Some?
    requires after.generations[b.generation].readiness == b.readiness
    ensures Wf(catalog, after) <==> b.readiness != EmbeddingStaging
  {
    assert forall h | h in after.generations :: h == b.generation;
  }

  /**
    Exporting a generation and importing it into an empty workspace gives exactly its official
    sources, chunks and embeddings. The import does not look at the readiness, so the whole
    invariant holds there if and only if the generation was not still being embedded.
   */
  method RoundTrip(catalog: Catalog, db: Db, files: Files, g: GenId, allowPartial: bool, now: Time)
    returns (r: Result<GenId, CorpusError>, after: Db, left: Files)
    requires Wf(catalog, db) && FilesOk(db.versions, files) && ExportBundle(db, files, g).Ok?
    ensures r.Ok? <==> (db.generations[g].partial ==> allowPartial)
    ensures r.Ok? ==> Reproduces(db, g, after, now) && Verify(after, left, g) == None
    ensures r.Ok? ==> (Wf(catalog, after) <==> db.generations[g].readiness != EmbeddingStaging)
  {
    hide RowsMerged, Coherent, Exports, ExportBundle, Validates, Preserves, NoConflicts;
    ExportValidates(catalog, db, files, g);
    var b := ExportBundle(db, files, g).value;
    EmptyKeeps(catalog);
    OfficialSources(db, g, b);
    ExportedIsWhole(db, g, b);
    EmptyInsert(b);
    r, after, left := Import(catalog, EmptyDb(), map[], b, true, allowPartial, now);
    if r.Ok? {
      OnlyRowsReproduce(db, g, b, Inserted(EmptyDb(), b), now);
      InsertedSound(catalog, EmptyDb(), b);
      EmptyKeepsInvariant(catalog, b, after);
      VerifyAccepts(catalog, after, left, g);
    }
  }

  lemma ActivatedInstall(catalog: Catalog, before: Db, after: Db, artifacts: seq<Artifact>, g: GenId)
    requires Installs(catalog, before, after, artifacts, true, g)
    ensures after.active == Some(g)
  {
  }

  /** The staged copy of a generation with one official source can be exported. */
  lemma StagedExports(catalog: Catalog, db: Db, staged: Db, files: Files, g: GenId, v: VersionId)
    requires EmbeddingCommits.Indexing(catalog, db, staged, g, "profile", _ => "", {}, {})
    requires FilesOk(db.versions, files) && db.active.Some? && db.active.value in db.generations
    requires db.generations[db.active.value].sources == {v} && v.slug.Official?
    ensures Wf(catalog, staged) && FilesOk(staged.versions, files) && g in staged.generations
    ensures ExportBundle(staged, files, g).Ok? && staged.generations[g].readiness == EmbeddingStaging
  {
    assert v in OfficialOnly(staged.generations[g].sources);
    ExportSucceeds(catalog, staged, files, g);
  }

  /**
    A generation that is still being embedded, exported and imported elsewhere, becomes the
    active one there, although no local operation can activate it.
   */
  method EmbeddingBundleActivates() returns (catalog: Catalog, after: Db)
    ensures after.active.Some? && after.active.value in after.generations
    ensures after.generations[after.active.value].readiness == EmbeddingStaging && !Wf(catalog, after)
  {
    hide Wf, FilesOk, Installs, ExportBundle, NewText, EmbeddingCommits.Added, EmbeddingCommits.Missing;
    var a := Artifact("code", "bytes", ".xml", "", 0);
    catalog := OneSource(a.name);
    var db, files, first := InstallAlone(a);
    OnlyInstalled(catalog, db, a, true, first);
    ActivatedInstall(catalog, EmptyDb(), db, [a], first);
    var g, staged, missing, reused := StageActive(catalog, db, "profile", _ => "");
    StagedExports(catalog, db, staged, files, g, VersionOf(catalog, a));
    var imported, left;
    imported, after, left := RoundTrip(catalog, staged, files, g, true, 2);
  }

  /** The only version of a corpus that a single source was installed into, as its row says. */
  lemma OnlyInstalled(catalog: Catalog, db: Db, a: Artifact, activate: bool, g: GenId)
    requires Wf(catalog, db) && ValidSource(catalog, a) && Installs(catalog, EmptyDb(), db, [a], activate, g)
    ensures db.versions.Keys == {VersionOf(catalog, a)} && db.generations[g].sources == {VersionOf(catalog, a)}
    ensures db.versions[VersionOf(catalog, a)] == Version(UriOf(a), Meaning(catalog, a), a.validators, a.retrievedAt)
    ensures NewText(catalog, db, a, VersionOf(catalog, a))
  {
    var v := VersionOf(catalog, a);
    forall w | w in db.versions ensures w == v && NewRow(catalog, db, a, w) && NewText(catalog, db, a, w) {
      assert IsNewRow(catalog, db, [a], 1, w);
    }
    assert MeantBy(catalog, db, [a][0], db.generations[g].sources);
    assert GenerationOk(db, db.generations[g]);
  }

  /** The same chunk of a version is the same row wherever the version was stored from its artifact. */
  lemma SameText(catalog: Catalog, a: Db, b: Db, artifact: Artifact, v: VersionId)
    requires NewText(catalog, a, artifact, v) && NewText(catalog, b, artifact, v)
    ensures forall c | c in a.chunks && c in b.chunks && c.version == v :: a.chunks[c] == b.chunks[c]
  {
    var sections := catalog.parse(artifact.name, artifact.content).value.sections;
    forall c | c in a.chunks && c in b.chunks && c.version == v ensures a.chunks[c] == b.chunks[c] {
      assert IsSection(c, v, sections);
      var i :| 0 <= i < |sections| && c == IdOf(v, sections[i]);
      assert HoldsSection(a.chunks, v, sections[i]) && HoldsSection(b.chunks, v, sections[i]);
    }
  }

  /** A workspace that has stored one download and nothing else. */
  lemma StoredAlone(catalog: Catalog, a: Artifact) returns (db: Db)
    requires ValidSource(catalog, a) && DistinctSections(catalog.parse(a.name, a.content).value.sections)
    ensures var files: Files := map[UriOf(a) := a.content]; Wf(catalog, db) && FilesOk(db.versions, files)
    ensures StoreSource(catalog, EmptyDb(), a) == Ok(Stored(db, VersionOf(catalog, a)))
    ensures var version := Version(UriOf(a), Meaning(catalog, a), a.validators, a.retrievedAt);
            db.versions == map[VersionOf(catalog, a) := version]
    ensures NewText(catalog, db, a, VersionOf(catalog, a))
    ensures db.embeddings == map[] && db.generations == map[] && db.active == None
  {
    var files: Files := map[UriOf(a) := a.content];
    EmptyKeeps(catalog);
    EmptyStored(catalog, a);
    StoreSourceKeeps(catalog, EmptyDb(), files, a);
    db := StoreSource(catalog, EmptyDb(), a).value.db;
  }

  lemma EmptyStored(catalog: Catalog, a: Artifact)
    requires ValidSource(catalog, a) && DistinctSections(catalog.parse(a.name, a.content).value.sections)
    ensures Wf(catalog, EmptyDb())
    ensures var r, v := StoreSource(catalog, EmptyDb(), a), VersionOf(catalog, a);
            && r.Ok? && r.value.version == v && r.value.db.embeddings == map[]
            && r.value.db.versions == map[v := Version(UriOf(a), Meaning(catalog, a), a.validators, a.retrievedAt)]
            && r.value.db.generations == map[] && r.value.db.active == None
  {
  }

  lemma SharedAgree(catalog: Catalog, source: Db, g: GenId, target: Db, a: Artifact, b: Artifact)
    requires ValidSource(catalog, a) && b == a.(retrievedAt := b.retrievedAt)
    requires g in source.generations && target.generations == map[] && target.embeddings == map[]
    requires var v := VersionOf(catalog, a);
             && source.versions.Keys == {v} == target.versions.Keys
             && source.versions[v].semantic == target.versions[v].semantic
             && source.versions[v].validators == target.versions[v].validators
             && NewText(catalog, source, a, v) && NewText(catalog, target, b, v)
    requires forall c | c in source.generations[g].members :: c.version in source.versions
    ensures Agree(source, g, target)
  {
    SameText(catalog, source, target, a, VersionOf(catalog, a));
  }

  lemma InstalledExports(catalog: Catalog, db: Db, files: Files, g: GenId, v: VersionId)
    requires Wf(catalog, db) && FilesOk(db.versions, files) && g in db.generations
    requires db.generations[g].sources == {v} && v.slug.Official? && db.versions.Keys == {v}
    ensures ExportBundle(db, files, g).Ok? && OfficialOnly(db.generations[g].sources) == {v}
    ensures forall c | c in db.generations[g].members :: c.version in db.versions
  {
    assert GenerationOk(db, db.generations[g]);
    assert v in OfficialOnly(db.generations[g].sources);
    ExportSucceeds(catalog, db, files, g);
  }

  lemma WfSound(catalog: Catalog, db: Db)
    requires Wf(catalog, db)
    ensures Sound(catalog, db) && PointerOk(db.generations, db.active)
  {
  }

  lemma KeptRow(db: Db, b: Bundle, after: Db, v: VersionId)
    requires RowsMerged(db, b, after) && v in db.versions
    ensures v in after.versions && after.versions[v] == db.versions[v]
  {
  }

  /** Two workspaces that have downloaded the same source, one of them with a generation of it. */
  ghost predicate BothDownloaded(catalog: Catalog, source: Db, files: Files, g: GenId, target: Db, written: Files,
                                 v: VersionId, later: Time)
  {
    && Wf(catalog, source) && FilesOk(source.versions, files) && ExportBundle(source, files, g).Ok?
    && Wf(catalog, target) && FilesOk(target.versions, written) && target.active == None
    && Agree(source, g, target) && OfficialOnly(source.generations[g].sources) == {v}
    && target.versions.Keys == {v} && target.versions[v].uri.SourceFile? && target.versions[v].retrievedAt == later
  }

  /** The packaged sources of a witness: one of law and core, which every file parses to one section. */
  function OneSource(name: string): Catalog {
    Catalog(map[name := Manifest(true, true, "v1")],
            (name, content) => Some(Parsed([Section("code", "1", Some("s. 1"), "title", "text")], true)),
            (name, content) => None, metadata => None, metadata => "")
  }

  lemma OneSourceValid(a: Artifact)
    ensures var catalog := OneSource(a.name);
            && ValidSource(catalog, a) && DistinctSections(catalog.parse(a.name, a.content).value.sections)
            && Storable(catalog, EmptyDb(), a)
  {
    SomeText();
    KeysCount(OneSource(a.name).parse(a.name, a.content).value.sections);
  }

  /** The workspace of somebody else who installed the download. */
  method InstallAlone(a: Artifact) returns (source: Db, files: Files, g: GenId)
    ensures var catalog := OneSource(a.name);
            && Wf(catalog, source) && FilesOk(source.versions, files) && g in source.generations
            && ValidSource(catalog, a) && Installs(catalog, EmptyDb(), source, [a], true, g)
  {
    hide ValidSource, Wf, Installs, FilesOk, Storable;
    EmptyKeeps(OneSource(a.name));
    OneSourceValid(a);
    EmptyStored(OneSource(a.name), a);
    var first;
    first, source, files := Install(OneSource(a.name), EmptyDb(), map[], [a], true, true, 1);
    g := first.value;
    InstalledKnown(OneSource(a.name), EmptyDb(), source, [a], g);
  }

  lemma InstalledKnown(catalog: Catalog, before: Db, after: Db, artifacts: seq<Artifact>, g: GenId)
    requires Installs(catalog, before, after, artifacts, true, g)
    ensures g in after.generations
  {
  }

  method DownloadTwice(a: Artifact, later: Time)
    returns (catalog: Catalog, source: Db, files: Files, g: GenId, target: Db, written: Files, ghost v: VersionId)
    ensures BothDownloaded(catalog, source, files, g, target, written, v, later)
  {
    hide Wf, Installs, Agree, NewText, FilesOk, ExportBundle, Storable;
    catalog := OneSource(a.name);
    var b := a.(retrievedAt := later);
    OneSourceValid(a);
    OneSourceValid(b);
    EmptyStored(catalog, b);
    v := VersionOf(catalog, a);
    source, files, g := InstallAlone(a);
    OnlyInstalled(catalog, source, a, true, g);
    ghost var stored := StoredAlone(catalog, b);
    target, written := StoreSource(catalog, EmptyDb(), b).value.db, map[UriOf(b) := b.content];
    InstalledExports(catalog, source, files, g, v);
    SharedAgree(catalog, source, g, target, a, b);
  }

  /**
    A workspace that has stored a download itself can import a bundle with the same download, made
    elsewhere at another time: it keeps its own row, and the version becomes active.
   */
  method SharedSourceImports(a: Artifact, later: Time) returns (imported: bool, target: Db, after: Db)
    ensures imported && |target.versions| == 1
    ensures forall v | v in target.versions ::
              && target.versions[v].uri.SourceFile? && target.versions[v].retrievedAt == later
              && v in ActiveSources(after) && v in after.versions && after.versions[v] == target.versions[v]
  {
    hide Wf, Agree, FilesOk, Preserves, RowsMerged, Sound, ExportBundle, NewMeanings;
    var catalog, source, files, g, written;
    ghost var v;
    catalog, source, files, g, target, written, v := DownloadTwice(a, later);
    WfSound(catalog, target);
    var r, left;
    r, after, left := Transfer(catalog, source, files, g, target, written, true, true, 2);
    imported := r.Ok?;
    KeptRow(target, ExportBundle(source, files, g).value, after, v);
    assert |target.versions| == |target.versions.Keys|;
  }

  /** A hand-made bundle whose generation names a stored user version makes it active, though no user version was. */
  method UserBundleActivates() returns (before: Db, after: Db)
    ensures ActiveUsers(before) == {} && ActiveUsers(after) != {}
  {
    var catalog := Catalog(map[], (name, content) => None, (name, content) => None, metadata => None, metadata => "");
    var uri, v := SourceFile(User(0), Sha256("x"), ""), VersionId(User(0), Sha256("x"), "");
    var files: Files := map[uri := "x"];
    before := EmptyDb().(modules := map[User(0) := Module(false, true, true)],
                         versions := map[v := Version(uri, [], "", 0)]);
    var b := Bundle(0, None, TextReady, false, map[], map[], map[], map[], map[], {v}, map[]);
    assert Sound(catalog, before) && FilesOk(before.versions, files) && PointerOk(before.generations, before.active);
    assert NoConflicts(before, b);
    var r, left;
    r, after, left := Import(catalog, before, files, b, true, true, 1);
    assert v in b.sources && !v.slug.Official?;
  }
}
