/** What publishing, activating and rolling back keep. */
module CorpusGenerations {
  import opened Common
  import opened CorpusTables

  /** Indexing adds the one missing row of each member chunk and nothing else. */
  lemma BuildFtsIndexes(db: Db)
    requires IndexOk(db.fts)
    ensures IndexOk(BuildFts(db).fts) && Grows(db, BuildFts(db))
    ensures forall c | c in BuildFts(db).fts && c !in db.fts ::
              c in db.chunks && exists g :: g in db.generations && c in db.generations[g].members
    ensures BuildFts(db).legacyFts == multiset{}
    ensures forall g, c | g in db.generations && c in db.generations[g].members && c in db.chunks ::
              c in BuildFts(db).fts
  {
  }

  lemma ProperValues(selected: Selection)
    requires Proper(selected)
    ensures OnePerSlug(selected.Values) && VersionsBySlug(selected.Values) == selected
  {
    var back := VersionsBySlug(selected.Values);
    forall slug | slug in selected ensures slug in back && back[slug] == selected[slug] {
      assert selected[slug] in selected.Values;
    }
  }

  lemma SlugsOfValues(selected: Selection)
    requires Proper(selected)
    ensures Slugs(selected.Values) == selected.Keys
  {
    forall slug | slug in selected ensures slug in Slugs(selected.Values) {
      assert selected[slug] in selected.Values;
    }
  }

  lemma NewGenerationOk(catalog: Catalog, db: Db, selected: Selection, g: GenId)
    requires IndexOk(db.fts) && Proper(selected) && selected.Values <= db.versions.Keys
    ensures var gen := NewGeneration(catalog, db, selected);
            GenerationOk(WithGeneration(db, g, gen), gen)
  {
    var gen := NewGeneration(catalog, db, selected);
    var inserted := db.(generations := db.generations[g := gen]);
    ProperValues(selected);
    BuildFtsIndexes(inserted);
    forall c | c in gen.members ensures c in BuildFts(inserted).fts {
      assert g in inserted.generations && c in inserted.generations[g].members && c in inserted.chunks;
    }
  }

  lemma ActivatePointer(db: Db, g: GenId, now: Time)
    requires PointerOk(db.generations, db.active) && g in db.generations
    requires db.generations[g].readiness != EmbeddingStaging
    ensures PointerOk(Activate(db, g, now).generations, Some(g))
  {
  }

  /** Activation touches nothing of a generation but its status and time. */
  lemma ActivateContent(db: Db, g: GenId, now: Time)
    requires g in db.generations
    ensures var after := Activate(db, g, now);
            && after.generations.Keys == db.generations.Keys
            && forall h | h in db.generations ::
                 && after.generations[h].sources == db.generations[h].sources
                 && after.generations[h].members == db.generations[h].members
                 && after.generations[h].profile == db.generations[h].profile
                 && after.generations[h].readiness == db.generations[h].readiness
                 && after.generations[h].partial == db.generations[h].partial
  {
  }

  lemma ActivateGenerations(db: Db, g: GenId, now: Time)
    requires GenerationsOk(db) && g in db.generations
    ensures GenerationsOk(Activate(db, g, now))
  {
    var after := Activate(db, g, now);
    ActivateContent(db, g, now);
    forall h | h in after.generations ensures GenerationOk(after, after.generations[h]) {
      assert GenerationOk(db, db.generations[h]);
    }
  }

  lemma ActivateKeeps(catalog: Catalog, db: Db, g: GenId, now: Time)
    requires Wf(catalog, db) && g in db.generations && db.generations[g].readiness != EmbeddingStaging
    ensures Wf(catalog, Activate(db, g, now))
  {
    ActivatePointer(db, g, now);
    ActivateGenerations(db, g, now);
  }

  lemma StagedPointer(generations: map<GenId, Generation>, active: Option<GenId>, g: GenId, gen: Generation)
    requires PointerOk(generations, active) && g !in generations && gen.status == Staged
    ensures PointerOk(generations[g := gen], active)
  {
  }

  lemma WithGenerationSound(catalog: Catalog, db: Db, g: GenId, gen: Generation)
    requires Sound(catalog, db) && g !in db.generations
    requires GenerationOk(WithGeneration(db, g, gen), gen)
    ensures Sound(catalog, WithGeneration(db, g, gen))
  {
    var inserted := db.(generations := db.generations[g := gen]);
    var after := WithGeneration(db, g, gen);
    BuildFtsIndexes(inserted);
    forall h | h in after.generations ensures GenerationOk(after, after.generations[h]) {
      if h != g {
        GenerationGrows(db, after, db.generations[h]);
      }
    }
  }

  lemma WithGenerationKeeps(catalog: Catalog, db: Db, g: GenId, gen: Generation)
    requires Wf(catalog, db) && g !in db.generations && gen.status == Staged
    requires GenerationOk(WithGeneration(db, g, gen), gen)
    ensures Wf(catalog, WithGeneration(db, g, gen))
  {
    WithGenerationSound(catalog, db, g, gen);
    StagedPointer(db.generations, db.active, g, gen);
  }

  /** Publishing keeps the invariant. */
  lemma PublishKeeps(catalog: Catalog, db: Db, selected: Selection, allowPartial: bool, activate: bool, now: Time,
                     g: GenId)
    requires Wf(catalog, db) && Proper(selected) && g !in db.generations
    ensures var r := Publish(catalog, db, selected, allowPartial, activate, now, g);
            r.Ok? ==> Wf(catalog, r.value)
  {
    var r := Publish(catalog, db, selected, allowPartial, activate, now, g);
    if r.Ok? {
      var staged := StagedGenerationKeeps(catalog, db, selected, g);
      if activate {
        ActivateKeeps(catalog, staged, g, now);
        assert r.value == Activate(staged, g, now);
      }
    }
  }

  lemma StagedGenerationKeeps(catalog: Catalog, db: Db, selected: Selection, g: GenId) returns (staged: Db)
    requires Wf(catalog, db) && Proper(selected) && selected.Values <= db.versions.Keys && g !in db.generations
    ensures staged == WithGeneration(db, g, NewGeneration(catalog, db, selected))
    ensures Wf(catalog, staged) && g in staged.generations && staged.generations[g].readiness != EmbeddingStaging
  {
    var gen := NewGeneration(catalog, db, selected);
    assert gen.status == Staged && gen.readiness != EmbeddingStaging;
    NewGenerationOk(catalog, db, selected, g);
    WithGenerationKeeps(catalog, db, g, gen);
    staged := WithGeneration(db, g, gen);
  }

  lemma PublishSound(catalog: Catalog, db: Db, selected: Selection, allowPartial: bool, activate: bool, now: Time,
                     g: GenId)
    requires Sound(catalog, db) && Proper(selected) && g !in db.generations
    requires Publish(catalog, db, selected, allowPartial, activate, now, g).Ok?
    ensures Sound(catalog, Publish(catalog, db, selected, allowPartial, activate, now, g).value)
  {
    var gen := NewGeneration(catalog, db, selected);
    NewGenerationOk(catalog, db, selected, g);
    WithGenerationSound(catalog, db, g, gen);
    if activate {
      ActivateGenerations(WithGeneration(db, g, gen), g, now);
    }
  }

  /** Publishing a source-to-version map with activation and reading the active map back is the identity. */
  lemma PublishReadsBack(catalog: Catalog, db: Db, selected: Selection, allowPartial: bool, now: Time, g: GenId)
    requires Proper(selected) && g !in db.generations
    requires Publish(catalog, db, selected, allowPartial, true, now, g).Ok?
    ensures var after := Publish(catalog, db, selected, allowPartial, true, now, g).value;
            && after.active == Some(g) && g in after.generations
            && OnePerSlug(ActiveSources(after)) && VersionsBySlug(ActiveSources(after)) == selected
            && (after.generations[g].partial <==>
                  exists name :: name in catalog.manifests && catalog.manifests[name].core
                                 && Official(name) !in selected)
            && after.generations[g].members.Keys == ChunksOf(after, selected.Values)
  {
    var gen := NewGeneration(catalog, db, selected);
    ProperValues(selected);
    ActivateContent(WithGeneration(db, g, gen), g, now);
  }

  /** What publishing leaves alone. */
  lemma PublishFrame(catalog: Catalog, db: Db, selected: Selection, allowPartial: bool, activate: bool, now: Time,
                     g: GenId)
    requires g !in db.generations && Publish(catalog, db, selected, allowPartial, activate, now, g).Ok?
    ensures var after := Publish(catalog, db, selected, allowPartial, activate, now, g).value;
            && after.modules == db.modules && after.versions == db.versions && after.chunks == db.chunks
            && after.embeddings == db.embeddings
            && after.generations.Keys == db.generations.Keys + {g}
            && after.active == (if activate then Some(g) else db.active)
            && (!activate ==> forall h | h in db.generations :: after.generations[h] == db.generations[h])
  {
  }

  /** A published generation has exactly the selected versions as its sources. */
  lemma PublishedSources(catalog: Catalog, db: Db, selected: Selection, allowPartial: bool, activate: bool, now: Time,
                         g: GenId)
    requires g !in db.generations && Publish(catalog, db, selected, allowPartial, activate, now, g).Ok?
    ensures var after := Publish(catalog, db, selected, allowPartial, activate, now, g).value;
            g in after.generations && after.generations[g].sources == selected.Values
  {
    if activate {
      ActivateContent(WithGeneration(db, g, NewGeneration(catalog, db, selected)), g, now);
    }
  }

  lemma ActivateSame(db: Db, g: GenId, now: Time)
    requires g in db.generations
    ensures Preserves(db, Activate(db, g, now))
  {
  }

  lemma WithGenerationSame(db: Db, g: GenId, gen: Generation)
    requires g !in db.generations
    ensures Preserves(db, WithGeneration(db, g, gen))
  {
  }

  /** Publishing alters nothing that was stored before. */
  lemma PublishPreserves(catalog: Catalog, db: Db, selected: Selection, allowPartial: bool, activate: bool, now: Time,
                         g: GenId)
    requires g !in db.generations && Publish(catalog, db, selected, allowPartial, activate, now, g).Ok?
    ensures Preserves(db, Publish(catalog, db, selected, allowPartial, activate, now, g).value)
  {
    var staged := WithGeneration(db, g, NewGeneration(catalog, db, selected));
    WithGenerationSame(db, g, NewGeneration(catalog, db, selected));
    if activate {
      ActivateSame(staged, g, now);
      PreservesTransitive(db, staged, Activate(staged, g, now));
    }
  }

  lemma ActivateAdvances(a: Db, b: Db, g: GenId, now: Time)
    requires g in b.generations && forall h | h in b.generations :: ActivatedAt(b, h) == ActivatedAt(a, h)
    ensures Advances(a, Activate(b, g, now), now)
  {
  }

  lemma PublishAdvances(catalog: Catalog, db: Db, selected: Selection, allowPartial: bool, activate: bool, now: Time,
                        g: GenId)
    requires g !in db.generations && Publish(catalog, db, selected, allowPartial, activate, now, g).Ok?
    ensures Advances(db, Publish(catalog, db, selected, allowPartial, activate, now, g).value, now)
  {
    var staged := WithGeneration(db, g, NewGeneration(catalog, db, selected));
    if activate {
      ActivateAdvances(db, staged, g, now);
    }
  }

  /** A newly published generation flags only chunks whose source still allows model use. */
  lemma PublishedFlagsAreEligible(catalog: Catalog, db: Db, selected: Selection, c: ChunkId)
    requires c in NewGeneration(catalog, db, selected).members && NewGeneration(catalog, db, selected).members[c]
    ensures c.version.slug in db.modules && db.modules[c.version.slug].modelUse
    ensures c.version in selected.Values
  {
  }

  /**
    The flags of a generation are exactly the eligible chunks with an embedding of its profile,
    and it is called hybrid exactly when there are some, ready when they are all.
   */
  ghost predicate Fresh(db: Db, gen: Generation) {
    var eligible := set c | c in gen.members && c.version.slug in db.modules && db.modules[c.version.slug].modelUse;
    && (forall c :: c in ReadyChunks(gen) <==>
                      c in eligible && gen.profile.Some? && Embedded(c, gen.profile.value) in db.embeddings)
    && (gen.readiness == HybridReady <==> ReadyChunks(gen) == eligible != {})
    && (gen.readiness == HybridPartial <==> {} < ReadyChunks(gen) < eligible)
    && (gen.readiness == TextReady <==> ReadyChunks(gen) == {} && !gen.partial)
    && (gen.readiness == PartialTextReady <==> ReadyChunks(gen) == {} && gen.partial)
  }

  /** A new generation inherits the profile, and its flags and readiness are fresh. */
  lemma PublishedReadiness(catalog: Catalog, db: Db, selected: Selection)
    ensures var gen := NewGeneration(catalog, db, selected);
            && gen.profile == (match db.active
                               case Some(g) => if g in db.generations then db.generations[g].profile else None
                               case None => None)
            && (forall c :: c in gen.members <==> c in db.chunks && c.version in selected.Values) && Fresh(db, gen)
  {
    var gen := NewGeneration(catalog, db, selected);
    var chunks := ChunksOf(db, selected.Values);
    var ready := Embeddings(db, chunks, ActiveProfile(db)) * Eligible(db, chunks);
    assert gen.members.Keys == chunks;
    assert ReadyChunks(gen) == ready;
  }

  lemma FreshKept(a: Db, b: Db, gen: Generation, other: Generation)
    requires Fresh(a, gen) && b.modules == a.modules && b.embeddings == a.embeddings
    requires other.members == gen.members && other.profile == gen.profile
    requires other.readiness == gen.readiness && other.partial == gen.partial
    ensures Fresh(b, other)
  {
    assert ReadyChunks(other) == ReadyChunks(gen);
  }

  // ----- Rollback

  /** A retained generation that was activated last: what ORDER BY activated_at DESC LIMIT 1 returns. */
  ghost predicate RollbackTarget(db: Db, g: GenId) {
    && g in db.generations && db.generations[g].status == Retained && db.generations[g].activatedAt.Some?
    && forall h | h in db.generations && db.generations[h].status == Retained && db.generations[h].activatedAt.Some? ::
         db.generations[h].activatedAt.value <= db.generations[g].activatedAt.value
  }

  /** No generation was activated as late as the active one, and none later than `now`. */
  ghost predicate ActiveIsNewest(db: Db, now: Time) {
    && db.active.Some? && db.active.value in db.generations
    && var latest := db.generations[db.active.value].activatedAt;
    && latest.Some? && latest.value <= now
    && forall g | g in db.generations && g != db.active.value && db.generations[g].activatedAt.Some? ::
         db.generations[g].activatedAt.value < latest.value
  }

  /** The active generation is the newest, or nothing was ever activated. */
  ghost predicate Chronological(db: Db, now: Time) {
    if db.active.Some? then ActiveIsNewest(db, now) else forall g | g in db.generations ::
        db.generations[g].activatedAt.None?
  }

  /** With increasing activation times, every step keeps the active generation the newest. */
  lemma AdvancesInOrder(a: Db, b: Db, before: Time, now: Time)
    requires Chronological(a, before) && before < now && Advances(a, b, now)
    requires (b.active.Some? ==> b.active.value in b.generations) && a.generations.Keys <= b.generations.Keys
    ensures Chronological(b, now)
  {
    if b.active.Some? {
      forall g | g in b.generations && g != b.active.value && b.generations[g].activatedAt.Some?
        ensures b.generations[g].activatedAt.value < b.generations[b.active.value].activatedAt.value
      {
        assert ActivatedAt(b, g) == ActivatedAt(a, g);
      }
      assert ActivatedAt(b, b.active.value).Some?;
    } else {
      forall g | g in b.generations ensures b.generations[g].activatedAt.None? {
        assert ActivatedAt(b, g) == ActivatedAt(a, g);
      }
    }
  }

  /** Two rollbacks return to the generation they started from. */
  lemma TwoRollbacks(catalog: Catalog, db: Db, first: GenId, second: GenId, t0: Time, t1: Time)
    requires Wf(catalog, db) && ActiveIsNewest(db, t0) && t0 < t1
    requires RollbackTarget(db, first)
    requires RollbackTarget(Activate(db, first, t1), second)
    ensures second == db.active.value
  {
    var middle := Activate(db, first, t1);
    var start := db.active.value;
    assert db.generations[start].status == Active;
    assert start != first && middle.generations[start].status == Retained;
  }
}
