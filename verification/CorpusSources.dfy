/** Storing a parsed official source (`_store_source` in app/corpus/service.py). */
module CorpusSources {
  import opened Common
  import opened CorpusTables
  import Whitespace

  datatype Artifact = Artifact(name: string, content: Bytes, extension: string, validators: string, retrievedAt: Time)

  function UriOf(a: Artifact): Uri {
    SourceFile(Official(a.name), Sha256(a.content), a.extension)
  }

  function VersionOf(catalog: Catalog, a: Artifact): VersionId
    requires a.name in catalog.manifests
  {
    VersionId(Official(a.name), Sha256(a.content), catalog.manifests[a.name].parser)
  }

  /** A known source whose content parses and passes `_validate_source`. */
  predicate ValidSource(catalog: Catalog, a: Artifact) {
    && a.name in catalog.manifests
    && catalog.parse(a.name, a.content).Some?
    && var parsed := catalog.parse(a.name, a.content).value;
    && parsed.acceptable && parsed.sections != []
    && (forall s | s in parsed.sections :: Whitespace.Strip(s.text) != [])
    && (catalog.manifests[a.name].law ==> forall s | s in parsed.sections :: s.citation.Some?)
  }

  lemma SomeText()
    ensures Whitespace.Strip("text") != []
  {
    Whitespace.StripTrimmed("text");
  }

  /** Parsing and `_validate_source`: each reason to refuse a source, one after the other. */
  method CheckSource(catalog: Catalog, a: Artifact) returns (ok: bool)
    ensures ok <==> ValidSource(catalog, a)
  {
    if a.name !in catalog.manifests {
      return false;
    }
    var parsed := catalog.parse(a.name, a.content);
    if parsed.None? || !parsed.value.acceptable || |parsed.value.sections| == 0 {
      return false;
    }
    var sections, law := parsed.value.sections, catalog.manifests[a.name].law;
    ok := true;
    for i := 0 to |sections|
      invariant ok <==> forall j | 0 <= j < i ::
                  Whitespace.Strip(sections[j].text) != [] && (law ==> sections[j].citation.Some?)
    {
      ok := ok && Whitespace.Strip(sections[i].text) != [] && (law ==> sections[i].citation.Some?);
    }
  }

  function Meaning(catalog: Catalog, a: Artifact): seq<Section>
    requires ValidSource(catalog, a)
  {
    SemanticOf(catalog.parse(a.name, a.content).value.sections)
  }

  /** The unique constraint on version and section key. */
  predicate DistinctSections(sections: seq<Section>) {
    forall i, j | 0 <= i < j < |sections| :: sections[i].key != sections[j].key
  }

  /** There are as many keys as sections. */
  ghost predicate KeysDiffer(sections: seq<Section>) {
    |KeysOf(sections)| == |sections|
  }

  ghost function KeysOf(sections: seq<Section>): set<string> {
    set s | s in sections :: s.key
  }

  lemma KeysOfSnoc(front: seq<Section>, last: Section)
    ensures KeysOf(front + [last]) == KeysOf(front) + {last.key}
  {
    assert forall s :: s in front + [last] <==> s in front || s == last;
  }

  lemma DistinctSnoc(front: seq<Section>, last: Section)
    ensures DistinctSections(front + [last]) <==> DistinctSections(front) && last.key !in KeysOf(front)
  {
    var all := front + [last];
    assert forall i | 0 <= i < |front| :: all[i] == front[i] && front[i] in front;
    assert all[|front|] == last;
  }

  lemma {:induction false} KeysCount(sections: seq<Section>)
    ensures |KeysOf(sections)| <= |sections|
    ensures DistinctSections(sections) <==> KeysDiffer(sections)
  {
    if sections != [] {
      var front, last := sections[..|sections| - 1], sections[|sections| - 1];
      KeysCount(front);
      assert sections == front + [last];
      KeysOfSnoc(front, last);
      DistinctSnoc(front, last);
      if last.key in KeysOf(front) {
        assert KeysOf(front) + {last.key} == KeysOf(front);
      }
    }
  }

  function ChunkRows(v: VersionId, sections: seq<Section>): map<ChunkId, Chunk> {
    if sections == [] then map[]
    else
      var s := sections[|sections| - 1];
      ChunkRows(v, sections[..|sections| - 1])[ChunkId(v, s.document, s.key) := Chunk(s.citation, s.title, s.text)]
  }

  lemma {:induction false} ChunkRowsOf(v: VersionId, sections: seq<Section>)
    ensures forall c | c in ChunkRows(v, sections) :: c.version == v
    ensures (forall s | s in sections :: s.citation.Some?) ==>
              forall c | c in ChunkRows(v, sections) :: ChunkRows(v, sections)[c].citation.Some?
  {
    if sections != [] {
      var front := sections[..|sections| - 1];
      ChunkRowsOf(v, front);
      assert forall s | s in front :: s in sections;
    }
  }

  /** A section of a version is stored under its own id with its own citation and text. */
  predicate HoldsSection(rows: map<ChunkId, Chunk>, v: VersionId, s: Section) {
    ChunkId(v, s.document, s.key) in rows && rows[ChunkId(v, s.document, s.key)] == Chunk(s.citation, s.title, s.text)
  }

  lemma {:induction false} ChunkRowHolds(v: VersionId, sections: seq<Section>, i: nat)
    requires DistinctSections(sections) && i < |sections|
    ensures HoldsSection(ChunkRows(v, sections), v, sections[i])
  {
    var front := sections[..|sections| - 1];
    if i < |front| {
      ChunkRowHolds(v, front, i);
      assert front[i] == sections[i] && sections[i].key != sections[|sections| - 1].key;
    }
  }

  lemma {:induction false} ChunkRowSource(v: VersionId, sections: seq<Section>, c: ChunkId) returns (i: nat)
    requires c in ChunkRows(v, sections)
    ensures i < |sections| && c == ChunkId(v, sections[i].document, sections[i].key)
  {
    var front := sections[..|sections| - 1];
    if c in ChunkRows(v, front) {
      i := ChunkRowSource(v, front, c);
    } else {
      i := |sections| - 1;
    }
  }

  lemma {:induction false} ChunkRowsCount(v: VersionId, sections: seq<Section>)
    requires DistinctSections(sections)
    ensures |ChunkRows(v, sections)| == |sections|
  {
    if sections != [] {
      var front, last := sections[..|sections| - 1], sections[|sections| - 1];
      ChunkRowsCount(v, front);
      var c := ChunkId(v, last.document, last.key);
      if c in ChunkRows(v, front) {
        var i := ChunkRowSource(v, front, c);
        assert false;
      }
    }
  }

  lemma NewVersionChunks(v: VersionId, chunks: map<ChunkId, Chunk>, rows: map<ChunkId, Chunk>)
    requires (forall c | c in chunks :: c.version != v) && (forall c | c in rows :: c.version == v)
    ensures (set c | c in chunks + rows && c.version == v) == rows.Keys
  {
  }

  /** The chunks of a version are exactly the given sections, word for word. */
  ghost predicate HoldsSections(chunks: map<ChunkId, Chunk>, v: VersionId, sections: seq<Section>) {
    && (forall i | 0 <= i < |sections| :: HoldsSection(chunks, v, sections[i]))
    && (forall c | c in chunks && c.version == v :: IsSection(c, v, sections))
  }

  lemma NewVersionHolds(chunks: map<ChunkId, Chunk>, v: VersionId, sections: seq<Section>)
    requires DistinctSections(sections) && forall c | c in chunks :: c.version != v
    ensures HoldsSections(chunks + ChunkRows(v, sections), v, sections)
  {
    var after := chunks + ChunkRows(v, sections);
    forall i | 0 <= i < |sections| ensures HoldsSection(after, v, sections[i]) {
      ChunkRowHolds(v, sections, i);
    }
    forall c | c in after && c.version == v ensures IsSection(c, v, sections) {
      var i := ChunkRowSource(v, sections, c);
      assert c == IdOf(v, sections[i]);
    }
  }

  lemma SectionsMean(chunks: map<ChunkId, Chunk>, v: VersionId, sections: seq<Section>)
    requires HoldsSections(chunks, v, sections)
    ensures HoldsMeaning(chunks, v, SemanticOf(sections))
  {
    var semantic := SemanticOf(sections);
    forall i | 0 <= i < |semantic| ensures HoldsNormalised(chunks, v, semantic[i]) {
      assert HoldsSection(chunks, v, sections[i]) && IdOf(v, semantic[i]) == IdOf(v, sections[i]);
    }
    forall c | c in chunks && c.version == v ensures IsSection(c, v, semantic) {
      assert IsSection(c, v, sections);
      var i :| 0 <= i < |sections| && c == IdOf(v, sections[i]);
      assert c == IdOf(v, semantic[i]);
    }
  }

  /** Rows of another version do not change what a version holds. */
  lemma MeaningKept(chunks: map<ChunkId, Chunk>, more: map<ChunkId, Chunk>, v: VersionId, semantic: seq<Section>)
    requires HoldsMeaning(chunks, v, semantic) && forall c | c in more :: c.version != v
    ensures HoldsMeaning(chunks + more, v, semantic)
  {
    forall i | 0 <= i < |semantic| ensures HoldsNormalised(chunks + more, v, semantic[i]) {
      assert HoldsNormalised(chunks, v, semantic[i]) && IdOf(v, semantic[i]).version == v;
    }
  }

  lemma WithVersionContent(catalog: Catalog, db: Db, v: VersionId, version: Version, sections: seq<Section>)
    requires SourcesOk(catalog, db.modules, db.versions, db.chunks) && ContentOk(db.versions, db.chunks)
    requires v !in db.versions && DistinctSections(sections) && version.semantic == SemanticOf(sections)
    ensures var after := WithVersion(db, v, version, sections);
            ContentOk(after.versions, after.chunks) && HoldsSections(after.chunks, v, sections)
  {
    var after := WithVersion(db, v, version, sections);
    NewVersionHolds(db.chunks, v, sections);
    SectionsMean(after.chunks, v, sections);
    ChunkRowsOf(v, sections);
    forall w | w in after.versions ensures HoldsMeaning(after.chunks, w, after.versions[w].semantic) {
      if w != v {
        MeaningKept(db.chunks, ChunkRows(v, sections), w, db.versions[w].semantic);
      }
    }
  }

  /** A new version's chunks in the tables are exactly its sections, one row each. */
  lemma WithVersionChunks(catalog: Catalog, db: Db, v: VersionId, version: Version, sections: seq<Section>)
    requires SourcesOk(catalog, db.modules, db.versions, db.chunks) && v !in db.versions && DistinctSections(sections)
    ensures var after := WithVersion(db, v, version, sections);
            && (forall i | 0 <= i < |sections| :: HoldsSection(after.chunks, v, sections[i]))
            && |set c | c in after.chunks && c.version == v| == |sections|
  {
    var rows := ChunkRows(v, sections);
    ChunkRowsOf(v, sections);
    ChunkRowsCount(v, sections);
    NewVersionChunks(v, db.chunks, rows);
    assert |rows.Keys| == |rows|;
    forall i | 0 <= i < |sections| ensures HoldsSection(db.chunks + rows, v, sections[i]) {
      ChunkRowHolds(v, sections, i);
    }
  }

  /** The tables with a further version and its chunks. */
  function WithVersion(db: Db, v: VersionId, version: Version, sections: seq<Section>): Db {
    db.(versions := db.versions[v := version], chunks := db.chunks + ChunkRows(v, sections))
  }

  datatype Stored = Stored(db: Db, version: VersionId)

  predicate SameMeaning(catalog: Catalog, db: Db, a: Artifact, v: VersionId)
    requires ValidSource(catalog, a)
  {
    && v in db.versions && v.slug == Official(a.name) && v.parser == catalog.manifests[a.name].parser
    && db.versions[v].semantic == Meaning(catalog, a)
  }

  /** A stored version with the meaning of the artifact. */
  function PriorVersion(catalog: Catalog, db: Db, a: Artifact): (prior: Option<VersionId>)
    requires ValidSource(catalog, a) && SemanticsDistinct(db.versions)
    ensures prior.Some? ==> SameMeaning(catalog, db, a, prior.value)
    ensures prior.None? ==> forall v | v in db.versions :: !SameMeaning(catalog, db, a, v)
  {
    if v :| v in db.versions && SameMeaning(catalog, db, a, v) then Some(v) else None
  }

  /** A version that was downloaded again gets the new validators. */
  function Rechecked(db: Db, v: VersionId, validators: string): Db
    requires v in db.versions
  {
    db.(versions := db.versions[v := db.versions[v].(validators := validators)])
  }

  /** `_store_source`: an existing version, one that means the same, or a new one. */
  function StoreSource(catalog: Catalog, db: Db, a: Artifact): Result<Stored, CorpusError>
    requires ValidSource(catalog, a) && SemanticsDistinct(db.versions)
  {
    var v := VersionOf(catalog, a);
    var parsed := catalog.parse(a.name, a.content).value;
    var tx := WithModule(catalog, db, a.name);
    var prior := PriorVersion(catalog, db, a);
    if v in db.versions then Ok(Stored(Rechecked(tx, v, a.validators), v))
    else if prior.Some? then Ok(Stored(Rechecked(tx, prior.value, a.validators), prior.value))
    else if !DistinctSections(parsed.sections) then Err(IntegrityError)
    else
      var version := Version(UriOf(a), SemanticOf(parsed.sections), a.validators, a.retrievedAt);
      Ok(Stored(WithVersion(tx, v, version, parsed.sections), v))
  }

  /** Everything but modules, versions and chunks is untouched, and those only grow. */
  ghost predicate Extends(a: Db, b: Db) {
    && b.embeddings == a.embeddings && b.fts == a.fts && b.legacyFts == a.legacyFts
    && b.generations == a.generations && b.active == a.active
    && a.versions.Keys <= b.versions.Keys && (forall v | v in a.versions :: SameRow(a.versions[v], b.versions[v]))
    && a.chunks.Keys <= b.chunks.Keys && (forall c | c in a.chunks :: b.chunks[c] == a.chunks[c])
    && NewChunksOf(a, b)
  }

  lemma ExtendsTransitive(a: Db, b: Db, c: Db)
    requires Extends(a, b) && Extends(b, c)
    ensures Extends(a, c)
  {
  }

  lemma ExtendsPreserves(a: Db, b: Db)
    requires Extends(a, b)
    ensures Preserves(a, b)
  {
  }

  lemma ExtendsGenerations(a: Db, b: Db)
    requires GenerationsOk(a) && Extends(a, b)
    ensures GenerationsOk(b)
  {
    forall g | g in b.generations ensures GenerationOk(b, b.generations[g]) {
      GenerationGrows(a, b, a.generations[g]);
    }
  }

  lemma WithVersionSources(catalog: Catalog, db: Db, v: VersionId, version: Version, sections: seq<Section>)
    requires SourcesOk(catalog, db.modules, db.versions, db.chunks) && v.slug in db.modules && v !in db.versions
    requires catalog.IsLaw(v.slug) ==> forall s | s in sections :: s.citation.Some?
    ensures var after := WithVersion(db, v, version, sections);
            SourcesOk(catalog, after.modules, after.versions, after.chunks) && Extends(db, after)
  {
    ChunkRowsOf(v, sections);
  }

  lemma WithVersionSemantics(catalog: Catalog, versions: map<VersionId, Version>, v: VersionId, version: Version)
    requires SemanticsDistinct(versions) && SemanticsFaithful(catalog, versions)
    requires v.slug.Official? && v.slug.name in catalog.manifests
             && v.parser == catalog.manifests[v.slug.name].parser ==>
               && catalog.parse(v.slug.name, v.hash.content).Some?
               && version.semantic == SemanticOf(catalog.parse(v.slug.name, v.hash.content).value.sections)
    requires v.slug.Official? ==> forall p | p in versions && p.slug == v.slug && p.parser == v.parser ::
                                    versions[p].semantic != version.semantic
    ensures SemanticsDistinct(versions[v := version]) && SemanticsFaithful(catalog, versions[v := version])
  {
  }

  lemma WithVersionKeeps(catalog: Catalog, db: Db, v: VersionId, version: Version, sections: seq<Section>)
    requires Wf(catalog, db) && v.slug in db.modules && v !in db.versions
    requires DistinctSections(sections) && version.semantic == SemanticOf(sections)
    requires catalog.IsLaw(v.slug) ==> forall s | s in sections :: s.citation.Some?
    requires v.slug.Official? ==>
               && v.slug.name in catalog.manifests && v.parser == catalog.manifests[v.slug.name].parser
               && catalog.parse(v.slug.name, v.hash.content).Some?
               && sections == catalog.parse(v.slug.name, v.hash.content).value.sections
    requires v.slug.Official? ==> forall p | p in db.versions && p.slug == v.slug && p.parser == v.parser ::
                                    db.versions[p].semantic != version.semantic
    ensures Wf(catalog, WithVersion(db, v, version, sections)) && Extends(db, WithVersion(db, v, version, sections))
    ensures HoldsSections(WithVersion(db, v, version, sections).chunks, v, sections)
  {
    WithVersionSources(catalog, db, v, version, sections);
    WithVersionContent(catalog, db, v, version, sections);
    WithVersionSemantics(catalog, db.versions, v, version);
    ExtendsGenerations(db, WithVersion(db, v, version, sections));
  }

  /** The module row of an official source, as `_store_source` writes it. */
  function WithModule(catalog: Catalog, db: Db, name: string): Db
    requires name in catalog.manifests
  {
    db.(modules := db.modules[Official(name) := Module(catalog.manifests[name].law, true, true)])
  }

  lemma WithModuleKeeps(catalog: Catalog, db: Db, name: string)
    requires Wf(catalog, db) && name in catalog.manifests
    ensures Wf(catalog, WithModule(catalog, db, name)) && Extends(db, WithModule(catalog, db, name))
  {
    ExtendsGenerations(db, WithModule(catalog, db, name));
  }

  lemma NewVersionFiles(versions: map<VersionId, Version>, files: Files, v: VersionId, version: Version)
    requires FilesOk(versions, files) && version.uri in files && version.uri.hash == v.hash
    ensures FilesOk(versions[v := version], files)
  {
  }

  lemma NewVersionKeeps(catalog: Catalog, db: Db, files: Files, a: Artifact)
    requires Wf(catalog, db) && FilesOk(db.versions, files) && ValidSource(catalog, a) && UriOf(a) in files
    requires Official(a.name) in db.modules && VersionOf(catalog, a) !in db.versions
    requires DistinctSections(catalog.parse(a.name, a.content).value.sections)
    requires forall p | p in db.versions :: !SameMeaning(catalog, db, a, p)
    ensures var sections := catalog.parse(a.name, a.content).value.sections;
            var version := Version(UriOf(a), SemanticOf(sections), a.validators, a.retrievedAt);
            var after := WithVersion(db, VersionOf(catalog, a), version, sections);
            && Wf(catalog, after) && FilesOk(after.versions, files) && Extends(db, after)
            && HoldsSections(after.chunks, VersionOf(catalog, a), sections)
  {
    var v := VersionOf(catalog, a);
    var sections := catalog.parse(a.name, a.content).value.sections;
    var version := Version(UriOf(a), SemanticOf(sections), a.validators, a.retrievedAt);
    WithVersionKeeps(catalog, db, v, version, sections);
    NewVersionFiles(db.versions, files, v, version);
  }

  lemma RecheckedRows(catalog: Catalog, versions: map<VersionId, Version>, files: Files, v: VersionId,
                      validators: string)
    requires SemanticsDistinct(versions) && SemanticsFaithful(catalog, versions) && FilesOk(versions, files)
    requires v in versions
    ensures var after := versions[v := versions[v].(validators := validators)];
            SemanticsDistinct(after) && SemanticsFaithful(catalog, after) && FilesOk(after, files)
  {
  }

  lemma RecheckedContent(versions: map<VersionId, Version>, chunks: map<ChunkId, Chunk>, v: VersionId,
                         validators: string)
    requires ContentOk(versions, chunks) && v in versions
    ensures ContentOk(versions[v := versions[v].(validators := validators)], chunks)
  {
  }

  lemma RecheckedExtends(db: Db, v: VersionId, validators: string)
    requires v in db.versions
    ensures Extends(db, Rechecked(db, v, validators))
  {
  }

  lemma RecheckedKeeps(catalog: Catalog, db: Db, files: Files, v: VersionId, validators: string)
    requires Wf(catalog, db) && FilesOk(db.versions, files) && v in db.versions
    ensures var after := Rechecked(db, v, validators);
            && Wf(catalog, after) && FilesOk(after.versions, files) && Extends(db, after)
            && after.versions.Keys == db.versions.Keys
  {
    RecheckedRows(catalog, db.versions, files, v, validators);
    RecheckedContent(db.versions, db.chunks, v, validators);
    RecheckedExtends(db, v, validators);
    ExtendsGenerations(db, Rechecked(db, v, validators));
  }

  lemma OwnVersionMeans(catalog: Catalog, db: Db, a: Artifact)
    requires SemanticsFaithful(catalog, db.versions) && ValidSource(catalog, a) && VersionOf(catalog, a) in db.versions
    ensures SameMeaning(catalog, db, a, VersionOf(catalog, a))
  {
  }

  lemma KnownVersionKeeps(catalog: Catalog, db: Db, tx: Db, files: Files, a: Artifact, v: VersionId)
    requires Wf(catalog, tx) && FilesOk(tx.versions, files) && Extends(db, tx) && tx.versions == db.versions
    requires ValidSource(catalog, a) && SameMeaning(catalog, db, a, v)
    ensures var after := Rechecked(tx, v, a.validators);
            && Wf(catalog, after) && FilesOk(after.versions, files) && Extends(db, after)
            && SameMeaning(catalog, after, a, v) && after.versions.Keys == db.versions.Keys
  {
    RecheckedKeeps(catalog, tx, files, v, a.validators);
    ExtendsTransitive(db, tx, Rechecked(tx, v, a.validators));
  }

  /** The row of a version that an artifact was stored as: its file, its headers and when it was retrieved. */
  ghost predicate NewRow(catalog: Catalog, db: Db, a: Artifact, v: VersionId) {
    && a.name in catalog.manifests
    && v == VersionId(Official(a.name), Sha256(a.content), catalog.manifests[a.name].parser)
    && v in db.versions && db.versions[v].uri == SourceFile(Official(a.name), Sha256(a.content), a.extension)
    && db.versions[v].retrievedAt == a.retrievedAt
  }

  /** Its chunks are the parsed sections word for word. */
  ghost predicate NewText(catalog: Catalog, db: Db, a: Artifact, v: VersionId) {
    && catalog.parse(a.name, a.content).Some?
    && HoldsSections(db.chunks, v, catalog.parse(a.name, a.content).value.sections)
  }

  lemma SectionsKept(a: Db, b: Db, v: VersionId, sections: seq<Section>)
    requires HoldsSections(a.chunks, v, sections) && Extends(a, b) && v in a.versions
    ensures HoldsSections(b.chunks, v, sections)
  {
    forall i | 0 <= i < |sections| ensures HoldsSection(b.chunks, v, sections[i]) {
      assert HoldsSection(a.chunks, v, sections[i]);
    }
  }

  /** The headers of the last download are recorded with the version it was stored as. */
  ghost predicate Recorded(db: Db, a: Artifact, v: VersionId) {
    v in db.versions && db.versions[v].validators == a.validators
  }

  /**
    What storing a source writes besides chunks: its module allows model use and is enabled, its version
    has the new validators, a new version the artifact's file, and no other row changes.
   */
  ghost predicate StoredRows(catalog: Catalog, before: Db, after: Db, a: Artifact, v: VersionId) {
    && a.name in catalog.manifests
    && after.modules == before.modules[Official(a.name) := Module(catalog.manifests[a.name].law, true, true)]
    && Recorded(after, a, v) && after.versions.Keys == before.versions.Keys + {v}
    && (v !in before.versions ==> NewRow(catalog, after, a, v))
    && forall w | w in before.versions && w != v :: after.versions[w] == before.versions[w]
  }

  /** Storing a source keeps the invariant and every file reference, and returns a version that means the artifact. */
  lemma StoreSourceKeeps(catalog: Catalog, db: Db, files: Files, a: Artifact)
    requires Wf(catalog, db) && FilesOk(db.versions, files) && ValidSource(catalog, a) && UriOf(a) in files
    requires StoreSource(catalog, db, a).Ok?
    ensures var r := StoreSource(catalog, db, a).value;
            && Wf(catalog, r.db) && FilesOk(r.db.versions, files) && Extends(db, r.db)
            && SameMeaning(catalog, r.db, a, r.version)
            && r.version in r.db.versions && r.version.slug == Official(a.name)
            && db.versions.Keys <= r.db.versions.Keys
            && (forall v | v in r.db.versions && v !in db.versions :: v.slug == Official(a.name))
            && (r.version !in db.versions ==>
                  HoldsSections(r.db.chunks, r.version, catalog.parse(a.name, a.content).value.sections))
            && HoldsMeaning(r.db.chunks, r.version, Meaning(catalog, a))
  {
    var tx := WithModule(catalog, db, a.name);
    WithModuleKeeps(catalog, db, a.name);
    if VersionOf(catalog, a) in db.versions {
      OwnVersionMeans(catalog, db, a);
      KnownVersionKeeps(catalog, db, tx, files, a, VersionOf(catalog, a));
    } else if PriorVersion(catalog, db, a).Some? {
      KnownVersionKeeps(catalog, db, tx, files, a, PriorVersion(catalog, db, a).value);
    } else {
      assert forall p | p in tx.versions :: SameMeaning(catalog, tx, a, p) == SameMeaning(catalog, db, a, p);
      NewVersionKeeps(catalog, tx, files, a);
      ExtendsTransitive(db, tx, StoreSource(catalog, db, a).value.db);
    }
  }

  lemma StoreSourceRows(catalog: Catalog, db: Db, a: Artifact)
    requires SemanticsDistinct(db.versions) && ValidSource(catalog, a) && StoreSource(catalog, db, a).Ok?
    ensures var r := StoreSource(catalog, db, a).value; StoredRows(catalog, db, r.db, a, r.version)
  {
    hide SemanticOf, DistinctSections, SameMeaning, ChunkRows;
    var own, prior, tx := VersionOf(catalog, a), PriorVersion(catalog, db, a), WithModule(catalog, db, a.name);
    if own in db.versions {
      RecheckedRow(tx, own, a);
    } else if prior.Some? {
      PriorStored(catalog, db, a);
      RecheckedRow(tx, prior.value, a);
    }
  }

  lemma PriorStored(catalog: Catalog, db: Db, a: Artifact)
    requires ValidSource(catalog, a) && SemanticsDistinct(db.versions)
    ensures PriorVersion(catalog, db, a).Some? ==> PriorVersion(catalog, db, a).value in db.versions
  {
  }

  lemma RecheckedRow(db: Db, v: VersionId, a: Artifact)
    requires v in db.versions
    ensures var after := Rechecked(db, v, a.validators);
            && Recorded(after, a, v) && after.modules == db.modules && after.versions.Keys == db.versions.Keys
            && forall w | w in db.versions && w != v :: after.versions[w] == db.versions[w]
  {
  }

  /** Some stored version means what the artifact means. */
  ghost predicate Known(catalog: Catalog, db: Db, a: Artifact) {
    ValidSource(catalog, a) && exists v :: v in db.versions && SameMeaning(catalog, db, a, v)
  }

  /** The tables refuse a new version with a section key twice. */
  ghost predicate Storable(catalog: Catalog, db: Db, a: Artifact) {
    && ValidSource(catalog, a)
    && (Known(catalog, db, a) || KeysDiffer(catalog.parse(a.name, a.content).value.sections))
  }

  lemma StoreSourceSucceeds(catalog: Catalog, db: Db, a: Artifact)
    requires SemanticsDistinct(db.versions) && SemanticsFaithful(catalog, db.versions) && ValidSource(catalog, a)
    ensures StoreSource(catalog, db, a).Ok? <==> Storable(catalog, db, a)
    ensures StoreSource(catalog, db, a).Err? ==> StoreSource(catalog, db, a).error == IntegrityError
  {
    KeysCount(catalog.parse(a.name, a.content).value.sections);
    if VersionOf(catalog, a) in db.versions {
      OwnVersionMeans(catalog, db, a);
    }
  }

  /** Only one stored version means what the artifact means. */
  lemma MeaningIsUnique(catalog: Catalog, db: Db, a: Artifact, v: VersionId)
    requires SemanticsDistinct(db.versions) && SemanticsFaithful(catalog, db.versions)
    requires ValidSource(catalog, a) && SameMeaning(catalog, db, a, v)
    ensures StoreSource(catalog, db, a).Ok? && StoreSource(catalog, db, a).value.version == v
    ensures StoreSource(catalog, db, a).value.db.versions.Keys == db.versions.Keys
    ensures StoreSource(catalog, db, a).value.db.chunks == db.chunks
  {
    var own := VersionOf(catalog, a);
    if own in db.versions {
      assert SameMeaning(catalog, db, a, own);
    }
  }
}
