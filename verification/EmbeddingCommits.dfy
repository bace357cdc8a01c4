/** The commits of an embedding run (app/corpus/indexing.py, app/corpus/embeddings.py). */
module EmbeddingCommits {
  import opened Common
  import opened CorpusTables
  import opened CorpusGenerations

  function ActiveMembers(db: Db): set<ChunkId> {
    if db.active.Some? && db.active.value in db.generations then db.generations[db.active.value].members.Keys else {}
  }

  /** The active chunks whose source allows model use. */
  function EligibleActive(db: Db): set<ChunkId> {
    Eligible(db, ActiveMembers(db))
  }

  function Missing(db: Db, profile: ProfileId): set<ChunkId> {
    set c | c in EligibleActive(db) && Embedded(c, profile) !in db.embeddings
  }

  function Reusable(db: Db, profile: ProfileId): set<ChunkId> {
    set c | c in EligibleActive(db) && Embedded(c, profile) in db.embeddings
  }

  /** The generation `_stage` inserts, after the given chunks were flagged. */
  function StagedCopy(db: Db, profile: ProfileId, flagged: set<ChunkId>): Generation
    requires db.active.Some? && db.active.value in db.generations
  {
    var active := db.generations[db.active.value];
    Generation(Staged, Some(profile), EmbeddingStaging, active.partial, active.sources,
               map c | c in active.members :: c in Reusable(db, profile) || c in flagged, None)
  }

  /** The commit of `_stage`. */
  function Stage(db: Db, profile: ProfileId, g: GenId): Db
    requires db.active.Some? && db.active.value in db.generations
  {
    WithGeneration(db, g, StagedCopy(db, profile, {}))
  }

  /** The commit of `put`. */
  function Put(db: Db, c: ChunkId, profile: ProfileId, vector: Bytes): Db {
    db.(embeddings := db.embeddings[Embedded(c, profile) := vector])
  }

  /** The commit that flags a batch of the staged generation. */
  function Flag(db: Db, g: GenId, batch: set<ChunkId>): Db
    requires g in db.generations
  {
    var gen := db.generations[g];
    db.(generations := db.generations[g := gen.(members := Flagged(gen.members, batch))])
  }

  /** The last commit: the coverage guard, the readiness and the activation. */
  function Finalize(db: Db, g: GenId, now: Time): Result<Db, CorpusError>
    requires g in db.generations
  {
    var gen := db.generations[g];
    var total := Eligible(db, gen.members.Keys);
    var ready := Eligible(db, ReadyChunks(gen));
    if |total| != |ready| then Err(CoverageIncomplete)
    else
      var readiness := if |total| != 0 then HybridReady else if gen.partial then PartialTextReady else TextReady;
      Ok(Activate(db.(generations := db.generations[g := gen.(readiness := readiness)]), g, now))
  }

  /** The coverage guard lets a generation through exactly when every eligible member is ready. */
  lemma FinalizeGuards(db: Db, g: GenId, now: Time)
    requires g in db.generations
    ensures Finalize(db, g, now).Ok? <==>
              forall c | c in Eligible(db, db.generations[g].members.Keys) :: c in ReadyChunks(db.generations[g])
    ensures Finalize(db, g, now).Err? ==> Finalize(db, g, now).error == CoverageIncomplete
  {
    var gen := db.generations[g];
    var total, ready := Eligible(db, gen.members.Keys), Eligible(db, ReadyChunks(gen));
    assert ready <= total;
    if |total| == |ready| {
      SubsetFull(ready, total);
    }
    if forall c | c in total :: c in ReadyChunks(gen) {
      assert total == ready;
    }
  }

  function EmbeddedAll(chunks: set<ChunkId>, profile: ProfileId): set<Embedded> {
    set c | c in chunks :: Embedded(c, profile)
  }

  /** The embeddings of `before` with one more for each stored chunk: its own vector. */
  ghost predicate Added(before: map<Embedded, Bytes>, after: map<Embedded, Bytes>, profile: ProfileId,
                        vectors: ChunkId -> Bytes, stored: set<ChunkId>)
  {
    && after.Keys == before.Keys + EmbeddedAll(stored, profile)
    && (forall e | e in before :: after[e] == before[e])
    && forall c | c in stored :: after[Embedded(c, profile)] == vectors(c)
  }

  /** Where a run that started from `before` stands. */
  ghost predicate Indexing(catalog: Catalog, before: Db, db: Db, g: GenId, profile: ProfileId,
                           vectors: ChunkId -> Bytes, stored: set<ChunkId>, flagged: set<ChunkId>)
  {
    Wf(catalog, db) && Copying(before, db, g, profile, vectors, stored, flagged)
  }

  ghost predicate Copying(before: Db, db: Db, g: GenId, profile: ProfileId, vectors: ChunkId -> Bytes,
                          stored: set<ChunkId>, flagged: set<ChunkId>)
  {
    && before.active.Some? && before.active.value in before.generations && g !in before.generations
    && db.modules == before.modules && db.versions == before.versions && db.chunks == before.chunks
    && db.active == before.active
    && db.generations == before.generations[g := StagedCopy(before, profile, flagged)]
    && flagged <= stored <= Missing(before, profile)
    && Added(before.embeddings, db.embeddings, profile, vectors, stored)
  }

  lemma StagedCopyOk(db: Db, profile: ProfileId, g: GenId)
    requires IndexOk(db.fts) && db.active.Some? && db.active.value in db.generations
    requires GenerationOk(db, db.generations[db.active.value])
    ensures var gen := StagedCopy(db, profile, {});
            GenerationOk(WithGeneration(db, g, gen), gen)
  {
    var gen := StagedCopy(db, profile, {});
    BuildFtsIndexes(db.(generations := db.generations[g := gen]));
  }

  lemma StageIndexes(catalog: Catalog, db: Db, profile: ProfileId, vectors: ChunkId -> Bytes, g: GenId)
    requires Wf(catalog, db) && db.active.Some? && g !in db.generations
    ensures Indexing(catalog, db, Stage(db, profile, g), g, profile, vectors, {}, {})
  {
    StagedCopyOk(db, profile, g);
    WithGenerationKeeps(catalog, db, g, StagedCopy(db, profile, {}));
  }

  lemma PutKeeps(catalog: Catalog, db: Db, c: ChunkId, profile: ProfileId, vector: Bytes)
    requires Wf(catalog, db)
    ensures Wf(catalog, Put(db, c, profile, vector))
  {
    var after := Put(db, c, profile, vector);
    forall g | g in after.generations ensures GenerationOk(after, after.generations[g]) {
      GenerationGrows(db, after, db.generations[g]);
    }
  }

  lemma PutAdds(before: map<Embedded, Bytes>, after: map<Embedded, Bytes>, profile: ProfileId,
                vectors: ChunkId -> Bytes, stored: set<ChunkId>, c: ChunkId)
    requires Added(before, after, profile, vectors, stored) && Embedded(c, profile) !in before
    ensures Added(before, after[Embedded(c, profile) := vectors(c)], profile, vectors, stored + {c})
  {
    assert EmbeddedAll(stored + {c}, profile) == EmbeddedAll(stored, profile) + {Embedded(c, profile)};
  }

  lemma PutIndexes(catalog: Catalog, before: Db, db: Db, g: GenId, profile: ProfileId, vectors: ChunkId -> Bytes,
                   stored: set<ChunkId>, flagged: set<ChunkId>, c: ChunkId)
    requires Indexing(catalog, before, db, g, profile, vectors, stored, flagged) && c in Missing(before, profile)
    ensures Indexing(catalog, before, Put(db, c, profile, vectors(c)), g, profile, vectors, stored + {c}, flagged)
  {
    PutKeeps(catalog, db, c, profile, vectors(c));
    PutCopies(before, db, g, profile, vectors, stored, flagged, c);
  }

  lemma PutCopies(before: Db, db: Db, g: GenId, profile: ProfileId, vectors: ChunkId -> Bytes, stored: set<ChunkId>,
                  flagged: set<ChunkId>, c: ChunkId)
    requires Copying(before, db, g, profile, vectors, stored, flagged) && c in Missing(before, profile)
    ensures Copying(before, Put(db, c, profile, vectors(c)), g, profile, vectors, stored + {c}, flagged)
  {
    PutAdds(before.embeddings, db.embeddings, profile, vectors, stored, c);
  }

  /** A staged generation may be replaced by another one that is backed by the tables. */
  lemma RestagedKeeps(catalog: Catalog, db: Db, g: GenId, gen: Generation)
    requires Wf(catalog, db) && GenerationOk(db, gen) && gen.status == Staged
    requires g in db.generations && db.generations[g].status == Staged
    ensures Wf(catalog, db.(generations := db.generations[g := gen]))
  {
    hide SourcesOk, ContentOk, SemanticsDistinct, SemanticsFaithful, IndexOk;
    var after := db.(generations := db.generations[g := gen]);
    forall h | h in after.generations ensures GenerationOk(after, after.generations[h]) {
      GenerationGrows(db, after, if h == g then gen else db.generations[h]);
    }
  }

  function Flagged(members: map<ChunkId, bool>, batch: set<ChunkId>): map<ChunkId, bool> {
    map c | c in members :: members[c] || c in batch
  }

  lemma FlaggedCopy(db: Db, profile: ProfileId, flagged: set<ChunkId>, batch: set<ChunkId>)
    requires db.active.Some? && db.active.value in db.generations
    ensures var copy := StagedCopy(db, profile, flagged);
            copy.(members := Flagged(copy.members, batch)) == StagedCopy(db, profile, flagged + batch)
  {
    var copy := StagedCopy(db, profile, flagged);
    assert Flagged(copy.members, batch) == StagedCopy(db, profile, flagged + batch).members;
  }

  lemma FlagGenerations(before: Db, db: Db, g: GenId, profile: ProfileId, flagged: set<ChunkId>, batch: set<ChunkId>)
    requires before.active.Some? && before.active.value in before.generations
    requires db.generations == before.generations[g := StagedCopy(before, profile, flagged)]
    ensures Flag(db, g, batch).generations == before.generations[g := StagedCopy(before, profile, flagged + batch)]
  {
    FlaggedCopy(before, profile, flagged, batch);
  }

  lemma FlaggedOk(db: Db, gen: Generation, profile: ProfileId, batch: set<ChunkId>)
    requires GenerationOk(db, gen) && gen.profile == Some(profile)
    requires forall c | c in batch :: Embedded(c, profile) in db.embeddings
    ensures GenerationOk(db, gen.(members := Flagged(gen.members, batch)))
  {
  }

  lemma FlagKeeps(catalog: Catalog, db: Db, g: GenId, profile: ProfileId, batch: set<ChunkId>)
    requires Wf(catalog, db) && g in db.generations
    requires db.generations[g].status == Staged && db.generations[g].profile == Some(profile)
    requires forall c | c in batch :: Embedded(c, profile) in db.embeddings
    ensures Wf(catalog, Flag(db, g, batch))
  {
    var gen := db.generations[g];
    assert GenerationOk(db, gen);
    FlaggedOk(db, gen, profile, batch);
    RestagedKeeps(catalog, db, g, gen.(members := Flagged(gen.members, batch)));
  }

  lemma FlagIndexes(catalog: Catalog, before: Db, db: Db, g: GenId, profile: ProfileId, vectors: ChunkId -> Bytes,
                    stored: set<ChunkId>, flagged: set<ChunkId>, batch: set<ChunkId>)
    requires Indexing(catalog, before, db, g, profile, vectors, stored, flagged) && batch <= stored
    ensures Indexing(catalog, before, Flag(db, g, batch), g, profile, vectors, stored, flagged + batch)
  {
    forall c | c in batch ensures Embedded(c, profile) in db.embeddings {
      assert Embedded(c, profile) in EmbeddedAll(stored, profile);
    }
    FlagKeeps(catalog, db, g, profile, batch);
    FlagGenerations(before, db, g, profile, flagged, batch);
  }

  /** A run stopped here has changed no generation and lost no embedding. */
  lemma IndexingPreserves(before: Db, db: Db, g: GenId, copy: Generation, profile: ProfileId,
                          vectors: ChunkId -> Bytes, stored: set<ChunkId>)
    requires db.versions == before.versions && db.chunks == before.chunks && db.active == before.active
    requires before.active.Some? && before.active.value in before.generations
    requires g !in before.generations && db.generations == before.generations[g := copy]
    requires Added(before.embeddings, db.embeddings, profile, vectors, stored)
    ensures Preserves(before, db) && ActiveMembers(db) == ActiveMembers(before)
  {
  }

  /** What the next run has to store is exactly what this one has not. */
  lemma IndexingMisses(before: Db, db: Db, profile: ProfileId, vectors: ChunkId -> Bytes, stored: set<ChunkId>)
    requires db.modules == before.modules && ActiveMembers(db) == ActiveMembers(before)
    requires Added(before.embeddings, db.embeddings, profile, vectors, stored)
    ensures EligibleActive(db) == EligibleActive(before)
    ensures Missing(db, profile) == Missing(before, profile) - stored
  {
  }

  // ----- The last commit

  /** The run is complete: the active generation is a copy whose ready chunks are exactly the eligible ones. */
  ghost predicate Indexed(before: Db, after: Db, g: GenId, profile: ProfileId) {
    && before.active.Some? && before.active.value in before.generations
    && after.active == Some(g) && g !in before.generations && g in after.generations
    && var was, now := before.generations[before.active.value], after.generations[g];
    && now.sources == was.sources && now.members.Keys == was.members.Keys && now.partial == was.partial
    && now.profile == Some(profile) && ReadyChunks(now) == EligibleActive(before)
    && now.readiness == (if EligibleActive(before) != {} then HybridReady
                        else if was.partial then PartialTextReady else TextReady)
  }

  lemma CompleteCopy(db: Db, profile: ProfileId)
    requires db.active.Some? && db.active.value in db.generations
    ensures ReadyChunks(StagedCopy(db, profile, Missing(db, profile))) == EligibleActive(db)
  {
    var copy := StagedCopy(db, profile, Missing(db, profile));
    forall c ensures c in ReadyChunks(copy) <==> c in EligibleActive(db) {
      assert c in EligibleActive(db) ==> c in copy.members;
    }
  }

  lemma EligibleTwice(db: Db, chunks: set<ChunkId>)
    ensures Eligible(db, Eligible(db, chunks)) == Eligible(db, chunks)
  {
  }

  lemma FinalizeActivates(catalog: Catalog, db: Db, g: GenId, gen: Generation, now: Time)
    requires Wf(catalog, db) && g in db.generations && db.generations[g].status == Staged
    requires gen == db.generations[g].(readiness := gen.readiness) && gen.readiness != EmbeddingStaging
    ensures var after := Activate(db.(generations := db.generations[g := gen]), g, now);
            && Wf(catalog, after) && after.active == Some(g) && g in after.generations
            && after.generations[g] == gen.(status := Active, activatedAt := Some(now))
  {
    hide SourcesOk, ContentOk, SemanticsDistinct, SemanticsFaithful, IndexOk, PointerOk;
    var staged := db.(generations := db.generations[g := gen]);
    assert GenerationOk(db, db.generations[g]);
    RestagedKeeps(catalog, db, g, gen);
    ActivateKeeps(catalog, staged, g, now);
  }

  lemma FinalizePreserves(before: Db, db: Db, g: GenId, gen: Generation, now: Time)
    requires Preserves(before, db) && g !in before.generations
    ensures Preserves(before, Activate(db.(generations := db.generations[g := gen]), g, now))
  {
    var staged := db.(generations := db.generations[g := gen]);
    ActivateSame(staged, g, now);
    PreservesTransitive(before, staged, Activate(staged, g, now));
  }

  /** With every missing chunk stored and flagged, the coverage guard lets the run finish. */
  lemma FinalizeSucceeds(catalog: Catalog, before: Db, db: Db, g: GenId, profile: ProfileId, vectors: ChunkId -> Bytes,
                         now: Time)
    requires Indexing(catalog, before, db, g, profile, vectors, Missing(before, profile), Missing(before, profile))
    ensures Finalize(db, g, now).Ok?
    ensures var after := Finalize(db, g, now).value;
            && Wf(catalog, after) && Preserves(before, after) && Indexed(before, after, g, profile)
            && after.modules == before.modules && after.versions == before.versions
            && Added(before.embeddings, after.embeddings, profile, vectors, Missing(before, profile))
  {
    var gen := db.generations[g];
    CompleteCopy(before, profile);
    assert gen.members.Keys == ActiveMembers(before);
    assert Eligible(db, gen.members.Keys) == EligibleActive(before);
    EligibleTwice(db, ActiveMembers(before));
    var readiness := if |EligibleActive(before)| != 0 then HybridReady
                     else if gen.partial then PartialTextReady else TextReady;
    var finished := gen.(readiness := readiness);
    FinalizeActivates(catalog, db, g, finished, now);
    IndexingPreserves(before, db, g, StagedCopy(before, profile, Missing(before, profile)), profile, vectors,
                      Missing(before, profile));
    FinalizePreserves(before, db, g, finished, now);
  }

  // ----- What a run does, whether it finishes or not

  /**
    Nothing stored is lost, one embedding is added for each stored chunk, and what the
    next run would have to store is exactly what this one has not.
   */
  ghost predicate RunEffect(catalog: Catalog, before: Db, after: Db, profile: ProfileId, vectors: ChunkId -> Bytes,
                            stored: set<ChunkId>)
  {
    && Wf(catalog, after) && Preserves(before, after) && after.versions == before.versions
    && Added(before.embeddings, after.embeddings, profile, vectors, stored)
    && stored <= Missing(before, profile)
    && EligibleActive(after) == EligibleActive(before)
    && Missing(after, profile) == Missing(before, profile) - stored
  }

  lemma NoEffect(catalog: Catalog, db: Db, profile: ProfileId, vectors: ChunkId -> Bytes)
    requires Wf(catalog, db)
    ensures RunEffect(catalog, db, db, profile, vectors, {})
  {
    assert EmbeddedAll({}, profile) == {};
  }

  lemma StoppedEffect(catalog: Catalog, before: Db, db: Db, g: GenId, profile: ProfileId, vectors: ChunkId -> Bytes,
                      stored: set<ChunkId>, flagged: set<ChunkId>)
    requires Indexing(catalog, before, db, g, profile, vectors, stored, flagged)
    ensures RunEffect(catalog, before, db, profile, vectors, stored)
    ensures forall h | h in db.generations :: ActivatedAt(db, h) == ActivatedAt(before, h)
  {
    IndexingPreserves(before, db, g, StagedCopy(before, profile, flagged), profile, vectors, stored);
    IndexingMisses(before, db, profile, vectors, stored);
  }

  lemma IndexedMembers(before: Db, after: Db, g: GenId, profile: ProfileId)
    requires Indexed(before, after, g, profile)
    ensures ActiveMembers(after) == ActiveMembers(before)
  {
  }

  lemma FinalizeAdvances(before: Db, db: Db, g: GenId, copy: Generation, now: Time)
    requires db.generations == before.generations[g := copy] && g !in before.generations && copy.activatedAt.None?
    requires Finalize(db, g, now).Ok?
    ensures Advances(before, Finalize(db, g, now).value, now)
  {
    var gen := copy.(readiness := Finalize(db, g, now).value.generations[g].readiness);
    ActivateAdvances(before, db.(generations := db.generations[g := gen]), g, now);
  }

  lemma FinishedEffect(catalog: Catalog, before: Db, db: Db, g: GenId, profile: ProfileId, vectors: ChunkId -> Bytes,
                       now: Time)
    requires Indexing(catalog, before, db, g, profile, vectors, Missing(before, profile), Missing(before, profile))
    ensures Finalize(db, g, now).Ok? && Advances(before, Finalize(db, g, now).value, now)
    ensures var after := Finalize(db, g, now).value;
            && RunEffect(catalog, before, after, profile, vectors, Missing(before, profile))
            && Indexed(before, after, g, profile)
  {
    FinalizeSucceeds(catalog, before, db, g, profile, vectors, now);
    FinalizeAdvances(before, db, g, StagedCopy(before, profile, Missing(before, profile)), now);
    IndexedMembers(before, Finalize(db, g, now).value, g, profile);
    IndexingMisses(before, Finalize(db, g, now).value, profile, vectors, Missing(before, profile));
  }

  lemma AddedTwice(a: map<Embedded, Bytes>, b: map<Embedded, Bytes>, c: map<Embedded, Bytes>, profile: ProfileId,
                   vectors: ChunkId -> Bytes, first: set<ChunkId>, second: set<ChunkId>)
    requires Added(a, b, profile, vectors, first) && Added(b, c, profile, vectors, second)
    ensures Added(a, c, profile, vectors, first + second)
  {
    assert EmbeddedAll(first + second, profile) == EmbeddedAll(first, profile) + EmbeddedAll(second, profile);
  }

  lemma TwoParts(whole: set<ChunkId>, first: set<ChunkId>, second: set<ChunkId>)
    requires first <= whole && second <= whole - first
    ensures first !! second && first + second <= whole && |first + second| == |first| + |second|
    ensures whole - first - second == whole - (first + second)
    ensures second == whole - first ==> first + second == whole
  {
  }

  /** Two runs in a row store no chunk twice and together do what one run would. */
  lemma RunsCompose(catalog: Catalog, a: Db, b: Db, c: Db, profile: ProfileId, vectors: ChunkId -> Bytes,
                    first: set<ChunkId>, second: set<ChunkId>)
    requires RunEffect(catalog, a, b, profile, vectors, first) && RunEffect(catalog, b, c, profile, vectors, second)
    ensures RunEffect(catalog, a, c, profile, vectors, first + second) && first !! second
    ensures second == Missing(b, profile) ==> first + second == Missing(a, profile)
    ensures |first + second| == |first| + |second| && EligibleActive(c) == EligibleActive(a)
  {
    TwoParts(Missing(a, profile), first, second);
    PreservesTransitive(a, b, c);
    AddedTwice(a.embeddings, b.embeddings, c.embeddings, profile, vectors, first, second);
  }
}
