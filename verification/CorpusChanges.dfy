/**
  Transactions that select other versions and publish them: pack removal and restoral
  (app/corpus/service.py) and the operations on user resources (app/corpus/resources.py).
 */
module CorpusChanges {
  import opened Common
  import opened CorpusTables
  import opened CorpusGenerations
  import opened CorpusInstall

  /** The active generation has every core source and says so. */
  ghost predicate CompleteCore(catalog: Catalog, db: Db) {
    && db.active.Some? && db.active.value in db.generations && !db.generations[db.active.value].partial
    && catalog.CoreSlugs() <= Slugs(ActiveSources(db))
  }

  lemma PublishFresh(catalog: Catalog, db: Db, selected: Selection, now: Time, g: GenId)
    requires g !in db.generations && Publish(catalog, db, selected, true, true, now, g).Ok?
    ensures var after := Publish(catalog, db, selected, true, true, now, g).value;
            g in after.generations && Fresh(after, after.generations[g])
            && after.generations[g].profile == ActiveProfile(db)
  {
    var gen := NewGeneration(catalog, db, selected);
    var staged := WithGeneration(db, g, gen);
    PublishedReadiness(catalog, db, selected);
    ActivateContent(staged, g, now);
    FreshKept(db, Activate(staged, g, now), gen, Activate(staged, g, now).generations[g]);
  }

  /** `after` is `before` with the given sources published and active as generation `g`. */
  ghost predicate Reselects(catalog: Catalog, before: Db, after: Db, g: GenId, sources: set<VersionId>) {
    && Wf(catalog, after) && Preserves(before, after)
    && g !in before.generations && after.active == Some(g) && after.versions == before.versions
    && after.modules == before.modules && after.chunks == before.chunks && after.embeddings == before.embeddings
    && ActiveSources(after) == sources
    && g in after.generations && Fresh(after, after.generations[g])
    && after.generations[g].profile == ActiveProfile(before)
    && (catalog.CoreSlugs() <= Slugs(sources) ==> CompleteCore(catalog, after))
  }

  /** Publishing with partial coverage allowed never fails on stored versions. */
  lemma Republishes(catalog: Catalog, db: Db, selected: Selection, now: Time, g: GenId) returns (after: Db)
    requires Wf(catalog, db) && Proper(selected) && selected.Values <= db.versions.Keys && g !in db.generations
    ensures Publish(catalog, db, selected, true, true, now, g) == Ok(after)
    ensures Reselects(catalog, db, after, g, selected.Values) && Advances(db, after, now)
  {
    PublishFresh(catalog, db, selected, now, g);
    PublishAdvances(catalog, db, selected, true, true, now, g);
    after := Publish(catalog, db, selected, true, true, now, g).value;
    PublishKeeps(catalog, db, selected, true, true, now, g);
    PublishReadsBack(catalog, db, selected, true, now, g);
    PublishFrame(catalog, db, selected, true, true, now, g);
    PublishPreserves(catalog, db, selected, true, true, now, g);
    SlugsOfValues(selected);
    ActiveMapOk(catalog, after);
  }

  /** `publish_versions` under a new id. */
  method SelectVersions(catalog: Catalog, db: Db, selected: Selection, now: Time) returns (g: GenId, after: Db)
    requires Wf(catalog, db) && Proper(selected) && selected.Values <= db.versions.Keys
    ensures Reselects(catalog, db, after, g, selected.Values) && Advances(db, after, now)
  {
    ghost var unused := FreshId(db.generations.Keys);
    g :| g !in db.generations.Keys;
    ghost var published := Republishes(catalog, db, selected, now, g);
    after := Publish(catalog, db, selected, true, true, now, g).value;
  }

  // ----- Selections

  function Without(selected: Selection, slugs: set<Slug>): Selection {
    map slug | slug in selected && slug !in slugs :: selected[slug]
  }

  lemma WithoutValues(selected: Selection, slugs: set<Slug>)
    requires Proper(selected)
    ensures Proper(Without(selected, slugs)) && Without(selected, slugs).Values == Except(selected.Values, slugs)
  {
    forall v | v in Except(selected.Values, slugs) ensures v in Without(selected, slugs).Values {
      assert v.slug in selected && selected[v.slug] == v;
      assert Without(selected, slugs)[v.slug] == v;
    }
  }

  lemma WithValues(selected: Selection, slug: Slug, v: VersionId)
    requires Proper(selected) && v.slug == slug
    ensures Proper(selected[slug := v]) && selected[slug := v].Values == Except(selected.Values, {slug}) + {v}
  {
    var after := selected[slug := v];
    assert after[slug] == v;
    forall w | w in Except(selected.Values, {slug}) ensures w in after.Values {
      assert selected[w.slug] == w && after[w.slug] == w;
    }
  }

  // ----- The latest version of a source

  /** What ORDER BY retrieved_at DESC LIMIT 1 may return. */
  ghost predicate IsLatest(versions: map<VersionId, Version>, slug: Slug, v: VersionId) {
    && v in versions && v.slug == slug
    && forall w | w in versions && w.slug == slug :: versions[w].retrievedAt <= versions[v].retrievedAt
  }

  method LatestVersion(versions: map<VersionId, Version>, slug: Slug) returns (latest: Option<VersionId>)
    ensures latest.None? ==> forall v | v in versions :: v.slug != slug
    ensures latest.Some? ==> IsLatest(versions, slug, latest.value)
  {
    latest := None;
    var rest := versions.Keys;
    while rest != {}
      invariant rest <= versions.Keys
      invariant latest.None? ==> forall v | v in versions.Keys - rest :: v.slug != slug
      invariant latest.Some? ==>
                  && latest.value in versions && latest.value.slug == slug
                  && forall w | w in versions.Keys - rest && w.slug == slug ::
                       versions[w].retrievedAt <= versions[latest.value].retrievedAt
      decreases rest
    {
      var v :| v in rest;
      if v.slug == slug && (latest.None? || versions[latest.value].retrievedAt < versions[v].retrievedAt) {
        latest := Some(v);
      }
      rest := rest - {v};
    }
  }

  // ----- Packs

  /** What can be removed or restored: some packaged sources outside the core. */
  ghost predicate ValidPack(catalog: Catalog, names: seq<string>) {
    names != [] && forall name | name in names :: name in catalog.manifests && !catalog.manifests[name].core
  }

  /** `_validated_optional_slugs`. */
  method CheckPack(catalog: Catalog, names: seq<string>) returns (ok: bool)
    ensures ok <==> ValidPack(catalog, names)
  {
    var selected := set name | name in names;
    var unknown := selected - catalog.manifests.Keys;
    var core := set slug | slug in selected && Official(slug) in catalog.CoreSlugs();
    ok := selected != {} && unknown == {} && core == {};
    if names != [] {
      assert names[0] in selected;
    }
    if exists name :: name in names && !(name in catalog.manifests && !catalog.manifests[name].core) {
      var name :| name in names && !(name in catalog.manifests && !catalog.manifests[name].core);
      assert name in unknown || name in core;
    }
  }

  function PackSlugs(names: seq<string>): set<Slug> {
    set name | name in names :: Official(name)
  }

  ghost predicate KeepsCore(catalog: Catalog, before: Db, after: Db) {
    CompleteCore(catalog, before) ==> CompleteCore(catalog, after)
  }

  lemma CoreKept(catalog: Catalog, sources: set<VersionId>, slugs: set<Slug>, added: set<VersionId>)
    requires slugs !! catalog.CoreSlugs() && catalog.CoreSlugs() <= Slugs(sources)
    ensures catalog.CoreSlugs() <= Slugs(Except(sources, slugs) + added)
  {
    forall slug | slug in catalog.CoreSlugs() ensures slug in Slugs(Except(sources, slugs) + added) {
      var v :| v in sources && v.slug == slug;
      assert v in Except(sources, slugs) + added;
    }
  }

  lemma ReselectKeepsCore(catalog: Catalog, before: Db, after: Db, g: GenId, slugs: set<Slug>, added: set<VersionId>)
    requires Reselects(catalog, before, after, g, Except(ActiveSources(before), slugs) + added)
    requires slugs !! catalog.CoreSlugs()
    ensures KeepsCore(catalog, before, after)
  {
    if CompleteCore(catalog, before) {
      CoreKept(catalog, ActiveSources(before), slugs, added);
    }
  }

  lemma PackIsNotCore(catalog: Catalog, names: seq<string>)
    requires ValidPack(catalog, names)
    ensures PackSlugs(names) !! catalog.CoreSlugs()
  {
  }

  /** The loop of `remove_sources` over the installed slugs. */
  method PopAll(selected: Selection, names: seq<string>) returns (rest: Selection)
    ensures rest == Without(selected, PackSlugs(names))
  {
    rest := selected;
    for i := 0 to |names|
      invariant rest == Without(selected, PackSlugs(names[..i]))
    {
      PrefixSnoc(names, i);
      rest := rest - {Official(names[i])};
    }
    assert names[..|names|] == names;
  }

  /** `remove_sources`. */
  method RemovePack(catalog: Catalog, db: Db, names: seq<string>, now: Time)
      returns (r: Result<GenId, CorpusError>, after: Db)
    requires Wf(catalog, db)
    ensures Advances(db, after, now)
    ensures r.Err? ==> after == db
    ensures r.Ok? <==> ValidPack(catalog, names) && PackSlugs(names) * Slugs(ActiveSources(db)) != {}
    ensures r.Err? ==> r.error == if ValidPack(catalog, names) then NothingInstalled else InvalidSlugs
    ensures r.Ok? ==> Reselects(catalog, db, after, r.value, Except(ActiveSources(db), PackSlugs(names)))
    ensures KeepsCore(catalog, db, after)
  {
    var valid := CheckPack(catalog, names);
    if !valid {
      return Err(InvalidSlugs), db;
    }
    if PackSlugs(names) * Slugs(ActiveSources(db)) == {} {
      return Err(NothingInstalled), db;
    }
    ActiveMapOk(catalog, db);
    var rest := PopAll(ActiveMap(db), names);
    WithoutValues(ActiveMap(db), PackSlugs(names));
    var g;
    g, after := SelectVersions(catalog, db, rest, now);
    PackIsNotCore(catalog, names);
    NothingAdded(Except(ActiveSources(db), PackSlugs(names)));
    ReselectKeepsCore(catalog, db, after, g, PackSlugs(names), {});
    r := Ok(g);
  }

  lemma NothingAdded(sources: set<VersionId>)
    ensures sources + {} == sources
  {
  }

  /** Every slug of the pack that has a stored version gets its latest one; the others keep theirs. */
  ghost predicate Restores(versions: map<VersionId, Version>, slugs: set<Slug>, before: Selection, after: Selection) {
    forall slug {:trigger slug in after} ::
      if slug in slugs && HasVersion(versions, slug) then slug in after && IsLatest(versions, slug, after[slug])
      else (slug in after <==> slug in before) && (slug in before ==> after[slug] == before[slug])
  }

  ghost predicate HasVersion(versions: map<VersionId, Version>, slug: Slug) {
    exists v :: v in versions && v.slug == slug
  }

  /** The loop of `restore_sources`. */
  method SelectLatest(versions: map<VersionId, Version>, selected: Selection, names: seq<string>)
    returns (after: Selection, restored: bool)
    requires Proper(selected) && selected.Values <= versions.Keys
    ensures Proper(after) && after.Values <= versions.Keys && selected.Keys <= after.Keys
    ensures Restores(versions, PackSlugs(names), selected, after)
    ensures restored <==> exists slug :: slug in PackSlugs(names) && HasVersion(versions, slug)
  {
    after, restored := selected, false;
    for i := 0 to |names|
      invariant Proper(after) && after.Values <= versions.Keys && selected.Keys <= after.Keys
      invariant Restores(versions, PackSlugs(names[..i]), selected, after)
      invariant restored <==> exists slug :: slug in PackSlugs(names[..i]) && HasVersion(versions, slug)
    {
      PrefixSnoc(names, i);
      PackSlugsSnoc(names[..i], names[i]);
      var latest := LatestVersion(versions, Official(names[i]));
      if latest.Some? {
        after := after[Official(names[i]) := latest.value];
        restored := true;
      }
    }
    assert names[..|names|] == names;
  }

  lemma PackSlugsSnoc(names: seq<string>, name: string)
    ensures PackSlugs(names + [name]) == PackSlugs(names) + {Official(name)}
  {
  }

  /** `restore_sources`. */
  method RestorePack(catalog: Catalog, db: Db, names: seq<string>, now: Time)
      returns (r: Result<GenId, CorpusError>, after: Db)
    requires Wf(catalog, db)
    ensures Wf(catalog, after) && Preserves(db, after) && after.versions == db.versions && Advances(db, after, now)
    ensures r.Err? ==> after == db
    ensures r.Ok? <==>
              (ValidPack(catalog, names) && exists slug :: slug in PackSlugs(names) && HasVersion(db.versions, slug))
    ensures r.Err? ==> r.error == if ValidPack(catalog, names) then NothingInstalled else InvalidSlugs
    ensures r.Ok? ==>
              && OnePerSlug(ActiveSources(db)) && OnePerSlug(ActiveSources(after)) && after.active == Some(r.value)
              && Restores(db.versions, PackSlugs(names), ActiveMap(db), ActiveMap(after))
    ensures KeepsCore(catalog, db, after)
  {
    var valid := CheckPack(catalog, names);
    if !valid {
      return Err(InvalidSlugs), db;
    }
    ActiveMapOk(catalog, db);
    var selected, restored := SelectLatest(db.versions, ActiveMap(db), names);
    if !restored {
      return Err(NothingInstalled), db;
    }
    var g;
    g, after := SelectVersions(catalog, db, selected, now);
    ProperValues(selected);
    LongerKeepsCore(catalog, db, after, g, ActiveMap(db), selected);
    r := Ok(g);
  }

  lemma LongerKeepsCore(catalog: Catalog, before: Db, after: Db, g: GenId, selected: Selection, longer: Selection)
    requires Proper(selected) && Proper(longer) && selected.Keys <= longer.Keys
    requires selected.Values == ActiveSources(before)
    requires Reselects(catalog, before, after, g, longer.Values)
    ensures KeepsCore(catalog, before, after)
  {
    SlugsOfValues(selected);
    SlugsOfValues(longer);
  }

  // ----- Activation and rollback

  /** `activate`. */
  function ActivateChecked(db: Db, g: GenId, allowPartial: bool, now: Time): Result<Db, CorpusError> {
    if g !in db.generations then Err(UnknownGeneration)
    else if db.generations[g].readiness == EmbeddingStaging then Err(NotSearchable)
    else if db.generations[g].partial && !allowPartial then Err(PartialNotAllowed)
    else Ok(Activate(db, g, now))
  }

  lemma ActivateCheckedKeeps(catalog: Catalog, db: Db, g: GenId, allowPartial: bool, now: Time)
    requires Wf(catalog, db) && ActivateChecked(db, g, allowPartial, now).Ok?
    ensures var after := ActivateChecked(db, g, allowPartial, now).value;
            && Wf(catalog, after) && Preserves(db, after) && after.versions == db.versions && after.active == Some(g)
            && ActiveSources(after) == db.generations[g].sources && Advances(db, after, now)
  {
    ActivateAdvances(db, db, g, now);
    ActivateKeeps(catalog, db, g, now);
    ActivateSame(db, g, now);
    ActivateContent(db, g, now);
  }

  predicate IsRetained(db: Db, g: GenId) {
    g in db.generations && db.generations[g].status == Retained && db.generations[g].activatedAt.Some?
  }

  predicate IsLater(db: Db, g: GenId, h: GenId)
    requires IsRetained(db, g) && IsRetained(db, h)
  {
    db.generations[h].activatedAt.value < db.generations[g].activatedAt.value
  }

  /** The retained generation that was active last. */
  method LastRetained(db: Db) returns (last: Option<GenId>)
    ensures last.None? ==> forall g | g in db.generations :: !IsRetained(db, g)
    ensures last.Some? ==> RollbackTarget(db, last.value)
  {
    last := None;
    var rest := db.generations.Keys;
    while rest != {}
      invariant rest <= db.generations.Keys
      invariant last.None? ==> forall g | g in db.generations.Keys - rest :: !IsRetained(db, g)
      invariant last.Some? ==>
                  && IsRetained(db, last.value)
                  && forall h | h in db.generations.Keys - rest && IsRetained(db, h) ::
                       db.generations[h].activatedAt.value <= db.generations[last.value].activatedAt.value
      decreases rest
    {
      var g :| g in rest;
      if IsRetained(db, g) && (last.None? || IsLater(db, g, last.value)) {
        last := Some(g);
      }
      rest := rest - {g};
    }
  }

  /** `rollback`. */
  method Rollback(catalog: Catalog, db: Db, now: Time) returns (r: Result<GenId, CorpusError>, after: Db)
    requires Wf(catalog, db)
    ensures Wf(catalog, after) && Preserves(db, after) && after.versions == db.versions && Advances(db, after, now)
    ensures r.Err? ==> r.error == NothingRetained
    ensures r.Err? ==> after == db && forall g | g in db.generations :: db.generations[g].status != Retained
    ensures r.Ok? ==> RollbackTarget(db, r.value) && after == Activate(db, r.value, now)
  {
    var last := LastRetained(db);
    if last.None? {
      return Err(NothingRetained), db;
    }
    ActivateKeeps(catalog, db, last.value, now);
    ActivateSame(db, last.value, now);
    ActivateAdvances(db, db, last.value, now);
    r, after := Ok(last.value), Activate(db, last.value, now);
  }
}
