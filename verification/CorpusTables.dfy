/**
  The tables of the legal corpus (app/storage/schema.py) and what its transactions do
  to them (app/corpus/service.py). A transaction is a function from the tables it
  reads to the tables it commits.
 */
module CorpusTables {
  import opened Common
  import LegalText

  type Time = int
  type Bytes = string
  type ProfileId = string
  type GenId = nat

  /** A SHA-256 digest, taken to be injective. */
  datatype Hash = Sha256(content: Bytes)

  /** A source module is identified by its slug; a user slug carries the resource id. */
  datatype Slug = Official(name: string) | User(resource: nat)

  /** uuid5 of module, content hash and parser version. */
  datatype VersionId = VersionId(slug: Slug, hash: Hash, parser: string)

  /** Hash of version, document and section. */
  datatype ChunkId = ChunkId(version: VersionId, document: string, section: string)

  datatype Uri = SourceFile(slug: Slug, hash: Hash, extension: string) | BundleFile(hash: Hash)

  datatype Module = Module(law: bool, modelUse: bool, enabled: bool)

  /** `validators` are the HTTP headers and the address recorded with the meaning when a source was last downloaded. */
  datatype Version = Version(uri: Uri, semantic: seq<Section>, validators: string, retrievedAt: Time)

  /** A version never changes except for its validators. */
  predicate SameRow(a: Version, b: Version) {
    b.(validators := a.validators) == a
  }

  datatype Chunk = Chunk(citation: Option<string>, title: string, text: string)

  datatype Embedded = Embedded(chunk: ChunkId, profile: ProfileId)

  datatype Status = Staged | Active | Retained

  datatype Readiness = TextReady | PartialTextReady | HybridReady | HybridPartial | EmbeddingStaging

  /** A generation with its rows of generation_sources and generation_chunks (chunk to embedding_ready). */
  datatype Generation = Generation(
    status: Status,
    profile: Option<ProfileId>,
    readiness: Readiness,
    partial: bool,
    sources: set<VersionId>,
    members: map<ChunkId, bool>,
    activatedAt: Option<Time>)

  /** The full-text index may hold a chunk several times; `legacyFts` are rows of other generations' own indexes. */
  datatype Db = Db(
    modules: map<Slug, Module>,
    versions: map<VersionId, Version>,
    chunks: map<ChunkId, Chunk>,
    embeddings: map<Embedded, Bytes>,
    fts: multiset<ChunkId>,
    legacyFts: multiset<ChunkId>,
    generations: map<GenId, Generation>,
    active: Option<GenId>)

  type Files = map<Uri, Bytes>

  type Selection = map<Slug, VersionId>

  datatype Section = Section(document: string, key: string, citation: Option<string>, title: string, text: string)

  /** `_semantic_hash`, taken to be injective: the sections with normalised text. */
  function SemanticOf(sections: seq<Section>): (semantic: seq<Section>)
    ensures |semantic| == |sections|
  {
    seq(|sections|, i requires 0 <= i < |sections| => sections[i].(text := LegalText.NormalizeText(sections[i].text)))
  }

  datatype Parsed = Parsed(sections: seq<Section>, acceptable: bool)

  datatype Manifest = Manifest(core: bool, law: bool, parser: string)

  /** What a user says about a resource. */
  datatype Metadata = Metadata(description: string, modelUse: bool)

  datatype ParsedResource = ParsedResource(extension: string, sections: seq<Section>, warnings: seq<string>)

  /**
    The packaged manifests and their parsers as functions of the downloaded bytes;
    for user resources the parser by file name, metadata validation and the metadata digest.
   */
  datatype Catalog = Catalog(
    manifests: map<string, Manifest>,
    parse: (string, Bytes) -> Option<Parsed>,
    parseResource: (string, Bytes) -> Option<ParsedResource>,
    validate: Metadata -> Option<Metadata>,
    digest: Metadata -> string)
  {
    function CoreSlugs(): set<Slug> {
      set name | name in manifests && manifests[name].core :: Official(name)
    }

    predicate IsLaw(slug: Slug) {
      slug.Official? && slug.name in manifests && manifests[slug.name].law
    }
  }

  datatype CorpusError =
    | InvalidArtifacts
    | MissingCore
    | UnknownVersion
    | UnknownGeneration
    | NotSearchable
    | PartialNotAllowed
    | NothingRetained
    | InvalidSlugs
    | NothingInstalled
    | IntegrityError
    | NoActiveCorpus
    | InvalidBatchSize
    | CoverageIncomplete
    | ResourceNotFound
    | VersionNotFound
    | InvalidResource
    | ResourceChanged
    | Interrupted
    | NothingToExport
    | InvalidBundle
    | AlreadyInstalled
    | BundleConflict

  // ----- Reading

  ghost predicate OnePerSlug(sources: set<VersionId>) {
    forall a, b | a in sources && b in sources && a.slug == b.slug :: a == b
  }

  /** `_active_versions_by_slug`. */
  function VersionsBySlug(sources: set<VersionId>): Selection
    requires OnePerSlug(sources)
  {
    map v | v in sources :: v.slug := v
  }

  function ActiveSources(db: Db): set<VersionId> {
    if db.active.Some? && db.active.value in db.generations then db.generations[db.active.value].sources else {}
  }

  function Slugs(sources: set<VersionId>): set<Slug> {
    set v | v in sources :: v.slug
  }

  function Except(sources: set<VersionId>, slugs: set<Slug>): set<VersionId> {
    set v | v in sources && v.slug !in slugs
  }

  /** Every slug maps to one of its own versions. */
  ghost predicate Proper(selected: Selection) {
    forall slug | slug in selected :: selected[slug].slug == slug
  }

  // ----- Writing

  /** The chunks that belong to some generation and are not indexed yet. */
  function Unindexed(db: Db): set<ChunkId> {
    set g, c | g in db.generations && c in db.generations[g].members && c in db.chunks && c !in db.fts :: c
  }

  /** `_build_fts`: one shared row for every member chunk that has none. */
  function BuildFts(db: Db): Db {
    db.(legacyFts := multiset{}, fts := db.fts + multiset(Unindexed(db)))
  }

  /** `_activate_in_transaction`. */
  function Activate(db: Db, g: GenId, now: Time): Db
    requires g in db.generations
  {
    var demoted := if db.active.Some? && db.active.value != g && db.active.value in db.generations
                   then db.generations[db.active.value := db.generations[db.active.value].(status := Retained)]
                   else db.generations;
    db.(generations := demoted[g := demoted[g].(status := Active, activatedAt := Some(now))], active := Some(g))
  }

  /** The chunks of the selected versions. */
  function ChunksOf(db: Db, sources: set<VersionId>): set<ChunkId> {
    set c | c in db.chunks && c.version in sources
  }

  function Eligible(db: Db, chunks: set<ChunkId>): set<ChunkId> {
    set c | c in chunks && c.version.slug in db.modules && db.modules[c.version.slug].modelUse
  }

  function Embeddings(db: Db, chunks: set<ChunkId>, profile: Option<ProfileId>): set<ChunkId> {
    set c | c in chunks && profile.Some? && Embedded(c, profile.value) in db.embeddings
  }

  function ActiveProfile(db: Db): Option<ProfileId> {
    if db.active.Some? && db.active.value in db.generations then db.generations[db.active.value].profile else None
  }

  /** The generation `_publish_generation` inserts. */
  function NewGeneration(catalog: Catalog, db: Db, selected: Selection): Generation {
    var complete := catalog.CoreSlugs() <= selected.Keys;
    var profile := ActiveProfile(db);
    var chunks := ChunksOf(db, selected.Values);
    var eligible := Eligible(db, chunks);
    var ready := Embeddings(db, chunks, profile) * eligible;
    var readiness := if profile.Some? && ready != {} then (if ready == eligible then HybridReady else HybridPartial)
                     else if complete then TextReady else PartialTextReady;
    Generation(Staged, profile, readiness, !complete, selected.Values, map c | c in chunks :: c in ready, None)
  }

  /** The tables with a further generation, indexed. */
  function WithGeneration(db: Db, g: GenId, gen: Generation): Db {
    BuildFts(db.(generations := db.generations[g := gen]))
  }

  /** `_publish_generation` under the fresh id `g`. */
  function Publish(catalog: Catalog, db: Db, selected: Selection, allowPartial: bool, activate: bool, now: Time,
                   g: GenId)
    : Result<Db, CorpusError>
  {
    if !(catalog.CoreSlugs() <= selected.Keys) && !allowPartial then Err(MissingCore)
    else if !(selected.Values <= db.versions.Keys) then Err(UnknownVersion)
    else
      var staged := WithGeneration(db, g, NewGeneration(catalog, db, selected));
      Ok(if activate then Activate(staged, g, now) else staged)
  }

  // ----- Verification, as `verify` computes it

  datatype VerifyError =
    | NoSuchGeneration
    | MissingArtifact
    | HashMismatch
    | FtsMismatch
    | LawWithoutCitation
    | EmbeddingMismatch

  /** How many index rows join with the given chunks. */
  ghost function JoinCount(fts: multiset<ChunkId>, chunks: set<ChunkId>): nat {
    if chunks == {} then 0
    else
      var c :| c in chunks;
      fts[c] + JoinCount(fts, chunks - {c})
  }

  function ReadyChunks(gen: Generation): set<ChunkId> {
    set c | c in gen.members && gen.members[c]
  }

  /** How many stored embeddings join with the ready chunks under the generation's profile. */
  function MatchedEmbeddings(db: Db, gen: Generation): set<Embedded> {
    set e | e in db.embeddings && e.chunk in ReadyChunks(gen) && gen.profile == Some(e.profile)
  }

  ghost function Verify(db: Db, files: Files, g: GenId): Option<VerifyError> {
    if g !in db.generations then Some(NoSuchGeneration)
    else
      var gen := db.generations[g];
      if exists v | v in gen.sources && v in db.versions :: db.versions[v].uri !in files then Some(MissingArtifact)
      else if exists v | v in gen.sources && v in db.versions ::
          Sha256(files[db.versions[v].uri]) != v.hash then Some(HashMismatch)
      else if JoinCount(db.fts, gen.members.Keys) != |gen.members| then Some(FtsMismatch)
      else if exists c :: c in gen.members && c in db.chunks && c.version.slug in db.modules
                          && db.modules[c.version.slug].law && db.chunks[c].citation.None? then Some(LawWithoutCitation)
      else if ReadyChunks(gen) != {} && |MatchedEmbeddings(db, gen)| != |ReadyChunks(gen)| then Some(EmbeddingMismatch)
      else None
  }

  // ----- The invariant

  /** Sources refer to each other, and a chunk of a law has its citation. */
  ghost predicate SourcesOk(catalog: Catalog, modules: map<Slug, Module>, versions: map<VersionId, Version>,
                            chunks: map<ChunkId, Chunk>)
  {
    && (forall slug | slug in modules :: modules[slug].law == catalog.IsLaw(slug))
    && (forall v | v in versions :: v.slug in modules)
    && (forall c | c in chunks :: c.version in versions)
    && (forall c | c in chunks && catalog.IsLaw(c.version.slug) :: chunks[c].citation.Some?)
  }

  /** Within one parser version, two stored versions of an official source differ in meaning. */
  ghost predicate SemanticsDistinct(versions: map<VersionId, Version>) {
    forall a, b | a in versions && b in versions && a.slug.Official? && a.slug == b.slug && a.parser == b.parser
                  && versions[a].semantic == versions[b].semantic :: a == b
  }

  /** The recorded meaning of a version is what its parser makes of its file. */
  ghost predicate SemanticsFaithful(catalog: Catalog, versions: map<VersionId, Version>) {
    forall v | v in versions && v.slug.Official? && v.slug.name in catalog.manifests
               && v.parser == catalog.manifests[v.slug.name].parser ::
      var parsed := catalog.parse(v.slug.name, v.hash.content);
      parsed.Some? && versions[v].semantic == SemanticOf(parsed.value.sections)
  }

  function IdOf(v: VersionId, s: Section): ChunkId {
    ChunkId(v, s.document, s.key)
  }

  /**
    The chunks of a version are exactly the sections of its meaning, each with its citation, title and, up
    to whitespace, its text.
   */
  ghost predicate HoldsMeaning(chunks: map<ChunkId, Chunk>, v: VersionId, semantic: seq<Section>) {
    && (forall i | 0 <= i < |semantic| :: HoldsNormalised(chunks, v, semantic[i]))
    && (forall c | c in chunks && c.version == v :: IsSection(c, v, semantic))
  }

  ghost predicate HoldsNormalised(chunks: map<ChunkId, Chunk>, v: VersionId, s: Section) {
    && IdOf(v, s) in chunks
    && chunks[IdOf(v, s)].citation == s.citation && chunks[IdOf(v, s)].title == s.title
    && LegalText.NormalizeText(chunks[IdOf(v, s)].text) == s.text
  }

  ghost predicate IsSection(c: ChunkId, v: VersionId, sections: seq<Section>) {
    exists i :: 0 <= i < |sections| && c == IdOf(v, sections[i])
  }

  ghost predicate ContentOk(versions: map<VersionId, Version>, chunks: map<ChunkId, Chunk>) {
    forall v | v in versions :: HoldsMeaning(chunks, v, versions[v].semantic)
  }

  ghost predicate IndexOk(fts: multiset<ChunkId>) {
    forall c :: fts[c] <= 1
  }

  /**
    What a generation refers to exists, its members are all chunks of its sources, each is
    indexed, and every ready flag has its embedding.
   */
  ghost predicate GenerationOk(db: Db, gen: Generation) {
    && gen.sources <= db.versions.Keys
    && OnePerSlug(gen.sources)
    && (forall c :: c in gen.members <==> c in db.chunks && c.version in gen.sources)
    && (forall c | c in gen.members :: c in db.fts)
    && (forall c | c in gen.members && gen.members[c] ::
          gen.profile.Some? && Embedded(c, gen.profile.value) in db.embeddings)
  }

  ghost predicate GenerationsOk(db: Db) {
    forall g | g in db.generations :: GenerationOk(db, db.generations[g])
  }

  /** The active pointer names the only active generation, and whatever was active can be searched. */
  ghost predicate PointerOk(generations: map<GenId, Generation>, active: Option<GenId>) {
    && (active.Some? ==> active.value in generations)
    && (forall g | g in generations :: generations[g].status == Active <==> active == Some(g))
    && (forall g | g in generations && generations[g].status != Staged ::
          generations[g].readiness != EmbeddingStaging && generations[g].activatedAt.Some?)
  }

  ghost predicate Wf(catalog: Catalog, db: Db) {
    && SourcesOk(catalog, db.modules, db.versions, db.chunks)
    && ContentOk(db.versions, db.chunks)
    && SemanticsDistinct(db.versions)
    && SemanticsFaithful(catalog, db.versions)
    && IndexOk(db.fts)
    && GenerationsOk(db)
    && PointerOk(db.generations, db.active)
  }

  /** The part of the invariant that `verify` looks at. */
  ghost predicate Sound(catalog: Catalog, db: Db) {
    && SourcesOk(catalog, db.modules, db.versions, db.chunks) && ContentOk(db.versions, db.chunks)
    && IndexOk(db.fts) && GenerationsOk(db)
  }

  /** The tables a generation refers to have only grown. */
  ghost predicate Grows(a: Db, b: Db) {
    && a.versions.Keys <= b.versions.Keys && a.chunks.Keys <= b.chunks.Keys && a.embeddings.Keys <= b.embeddings.Keys
    && (forall c | c in a.fts :: c in b.fts)
    && NewChunksOf(a, b)
  }

  /** New chunks belong to new versions. */
  ghost predicate NewChunksOf(a: Db, b: Db) {
    forall c | c in b.chunks && c !in a.chunks :: c.version !in a.versions
  }

  lemma GenerationGrows(a: Db, b: Db, gen: Generation)
    requires GenerationOk(a, gen) && Grows(a, b)
    ensures GenerationOk(b, gen)
  {
  }

  /**
    Nothing stored is ever lost or altered: versions, chunks and embeddings keep their
    rows, a version up to its HTTP validators, and of a generation only status and
    activation time may change.
   */
  ghost predicate Preserves(a: Db, b: Db) {
    && a.versions.Keys <= b.versions.Keys && (forall v | v in a.versions :: SameRow(a.versions[v], b.versions[v]))
    && a.chunks.Keys <= b.chunks.Keys && (forall c | c in a.chunks :: b.chunks[c] == a.chunks[c])
    && a.embeddings.Keys <= b.embeddings.Keys && (forall e | e in a.embeddings :: b.embeddings[e] == a.embeddings[e])
    && a.generations.Keys <= b.generations.Keys
    && (forall g | g in a.generations :: SameContent(a.generations[g], b.generations[g]))
  }

  predicate SameContent(a: Generation, b: Generation) {
    b.(status := a.status, activatedAt := a.activatedAt) == a
  }

  lemma PreservesTransitive(a: Db, b: Db, c: Db)
    requires Preserves(a, b) && Preserves(b, c)
    ensures Preserves(a, c)
  {
  }

  /**
    The activation times after a step at time `now`: either nothing was activated, or
    the active generation was, just now. A new generation that is not active has none.
   */
  ghost predicate Advances(a: Db, b: Db, now: Time) {
    && (b.active == a.active || (b.active.Some? && ActivatedAt(b, b.active.value) == Some(now)))
    && forall g | g in b.generations ::
         ActivatedAt(b, g) == ActivatedAt(a, g) || (b.active == Some(g) && ActivatedAt(b, g) == Some(now))
  }

  function ActivatedAt(db: Db, g: GenId): Option<Time> {
    if g in db.generations then db.generations[g].activatedAt else None
  }

  /** Files are named by their content, and every stored version has its file. */
  ghost predicate FilesOk(versions: map<VersionId, Version>, files: Files) {
    && (forall u | u in files :: files[u] == u.hash.content)
    && (forall v | v in versions :: versions[v].uri in files && versions[v].uri.hash == v.hash)
  }

  // ----- What the invariant is for

  lemma {:induction false} PairsCount(chunks: set<ChunkId>, profile: ProfileId, pairs: set<Embedded>)
    requires forall e :: e in pairs <==> e.chunk in chunks && e.profile == profile
    ensures |pairs| == |chunks|
  {
    if chunks == {} {
      assert pairs == {};
    } else {
      var c :| c in chunks;
      var e := Embedded(c, profile);
      assert e in pairs;
      PairsCount(chunks - {c}, profile, pairs - {e});
    }
  }

  /** With at most one row for each chunk, the rows are as many as the chunks only if no chunk lacks its row. */
  lemma {:induction false} JoinCountFull(fts: multiset<ChunkId>, chunks: set<ChunkId>)
    requires forall c | c in chunks :: fts[c] <= 1
    ensures JoinCount(fts, chunks) <= |chunks|
    ensures JoinCount(fts, chunks) == |chunks| <==> forall c | c in chunks :: c in fts
  {
    if chunks != {} {
      var c :| c in chunks && JoinCount(fts, chunks) == fts[c] + JoinCount(fts, chunks - {c});
      JoinCountFull(fts, chunks - {c});
    }
  }

  lemma SubsetFull<T>(part: set<T>, whole: set<T>)
    requires part <= whole && |part| == |whole|
    ensures part == whole
  {
    assert |whole - part| == |whole| - |part|;
  }

  /** The embeddings are as many as the ready chunks exactly when every ready chunk has its own. */
  lemma MatchedFull(db: Db, gen: Generation)
    requires ReadyChunks(gen) != {}
    ensures |MatchedEmbeddings(db, gen)| == |ReadyChunks(gen)| <==>
              forall c | c in ReadyChunks(gen) :: gen.profile.Some? && Embedded(c, gen.profile.value) in db.embeddings
  {
    var ready, matched := ReadyChunks(gen), MatchedEmbeddings(db, gen);
    if gen.profile.None? {
      assert matched == {};
    } else {
      var pairs := set c | c in ready :: Embedded(c, gen.profile.value);
      PairsCount(ready, gen.profile.value, pairs);
      assert matched <= pairs;
      assert (forall c | c in ready :: Embedded(c, gen.profile.value) in db.embeddings) ==> matched == pairs;
      if |matched| == |ready| {
        SubsetFull(matched, pairs);
        forall c | c in ready ensures Embedded(c, gen.profile.value) in db.embeddings {
          assert Embedded(c, gen.profile.value) in pairs;
        }
      }
    }
  }

  /**
    `verify` accepts a generation exactly when each of its sources has its file with the content it was
    stored for, each member is indexed, each chunk of a law has its citation, and each ready chunk has
    an embedding of the generation's profile.
   */
  lemma VerifyDecides(db: Db, files: Files, g: GenId)
    requires IndexOk(db.fts)
    ensures Verify(db, files, g) == None <==>
              && g in db.generations
              && var gen := db.generations[g];
              && (forall v | v in gen.sources && v in db.versions ::
                    db.versions[v].uri in files && files[db.versions[v].uri] == v.hash.content)
              && (forall c | c in gen.members :: c in db.fts)
              && (forall c | c in gen.members && c in db.chunks && c.version.slug in db.modules
                             && db.modules[c.version.slug].law :: db.chunks[c].citation.Some?)
              && (forall c | c in gen.members && gen.members[c] ::
                    gen.profile.Some? && Embedded(c, gen.profile.value) in db.embeddings)
  {
    if g in db.generations {
      var gen := db.generations[g];
      JoinCountFull(db.fts, gen.members.Keys);
      if ReadyChunks(gen) != {} {
        MatchedFull(db, gen);
      }
      assert forall c | c in gen.members && gen.members[c] :: c in ReadyChunks(gen);
      assert forall v | v in gen.sources && v in db.versions && db.versions[v].uri in files ::
          Sha256(files[db.versions[v].uri]) == v.hash <==> files[db.versions[v].uri] == v.hash.content;
    }
  }

  /** The code's own `verify` accepts every generation of a sound corpus. */
  lemma VerifyAccepts(catalog: Catalog, db: Db, files: Files, g: GenId)
    requires Sound(catalog, db) && FilesOk(db.versions, files) && g in db.generations
    ensures Verify(db, files, g) == None
  {
    assert GenerationOk(db, db.generations[g]);
    VerifyDecides(db, files, g);
  }

  lemma AllVerify(catalog: Catalog, db: Db, files: Files)
    requires Sound(catalog, db) && FilesOk(db.versions, files)
    ensures forall g | g in db.generations :: Verify(db, files, g) == None
  {
    forall g | g in db.generations ensures Verify(db, files, g) == None {
      VerifyAccepts(catalog, db, files, g);
    }
  }
}
