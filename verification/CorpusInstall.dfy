/** The transaction of `install_artifacts` (app/corpus/service.py). */
module CorpusInstall {
  import opened Common
  import opened CorpusTables
  import opened CorpusGenerations
  import opened CorpusSources
  import EmbeddingCommits

  /** Every artifact already has a selected version that means the same. */
  ghost predicate Redundant(catalog: Catalog, db: Db, artifacts: seq<Artifact>, selected: Selection) {
    forall i | 0 <= i < |artifacts| :: Covered(catalog, db, artifacts[i], selected)
  }

  ghost predicate Covered(catalog: Catalog, db: Db, a: Artifact, selected: Selection) {
    && ValidSource(catalog, a) && Official(a.name) in selected
    && SameMeaning(catalog, db, a, selected[Official(a.name)])
  }

  ghost predicate ValidArtifacts(catalog: Catalog, artifacts: seq<Artifact>) {
    && artifacts != []
    && (forall i | 0 <= i < |artifacts| :: ValidSource(catalog, artifacts[i]))
    && (forall i, j | 0 <= i < j < |artifacts| :: artifacts[i].name != artifacts[j].name)
  }

  /** The first loop of `install_artifacts`: no source twice, and each of them valid. */
  method CheckArtifacts(catalog: Catalog, artifacts: seq<Artifact>) returns (ok: bool)
    ensures ok <==> ValidArtifacts(catalog, artifacts)
  {
    ok := artifacts != [];
    var seen: set<string> := {};
    for i := 0 to |artifacts|
      invariant seen == set j | 0 <= j < i :: artifacts[j].name
      invariant ok <==>
                  && artifacts != [] && (forall j | 0 <= j < i :: ValidSource(catalog, artifacts[j]))
                  && forall j, k | 0 <= j < k < i :: artifacts[j].name != artifacts[k].name
    {
      var valid := CheckSource(catalog, artifacts[i]);
      ok := ok && valid && artifacts[i].name !in seen;
      seen := seen + {artifacts[i].name};
    }
  }

  ghost function ArtifactSlugs(artifacts: seq<Artifact>, n: nat): set<Slug>
    requires n <= |artifacts|
  {
    set i | 0 <= i < n :: Official(artifacts[i].name)
  }

  /** Exactly the slugs of the first `n` artifacts are selected anew; the others keep their versions. */
  ghost predicate Reselected(artifacts: seq<Artifact>, n: nat, previous: Selection, selected: Selection) {
    && n <= |artifacts| && selected.Keys == previous.Keys + ArtifactSlugs(artifacts, n)
    && forall slug | slug in previous && slug !in ArtifactSlugs(artifacts, n) :: selected[slug] == previous[slug]
  }

  /** New versions belong to the first `n` artifacts. */
  ghost predicate OnlyNew(db: Db, tx: Db, artifacts: seq<Artifact>, n: nat) {
    n <= |artifacts| && forall v | v in tx.versions && v !in db.versions :: v.slug in ArtifactSlugs(artifacts, n)
  }

  /** The first `n` artifacts allow model use and are enabled; the other modules are as before. */
  ghost predicate ModulesWritten(catalog: Catalog, before: map<Slug, Module>, after: map<Slug, Module>,
                                 artifacts: seq<Artifact>, n: nat)
  {
    && n <= |artifacts| && after.Keys == before.Keys + ArtifactSlugs(artifacts, n)
    && forall slug | slug in after ::
         if slug in ArtifactSlugs(artifacts, n) then after[slug] == Module(catalog.IsLaw(slug), true, true)
         else slug in before && after[slug] == before[slug]
  }

  /** The selected version of each of the first `n` artifacts has the validators of its download. */
  ghost predicate AllRecorded(db: Db, artifacts: seq<Artifact>, n: nat, selected: Selection) {
    n <= |artifacts| && forall i | 0 <= i < n ::
      Official(artifacts[i].name) in selected && Recorded(db, artifacts[i], selected[Official(artifacts[i].name)])
  }

  /** Every new version is one of the first `n` artifacts, with its file and time. */
  ghost predicate NewRows(catalog: Catalog, before: Db, after: Db, artifacts: seq<Artifact>, n: nat) {
    && n <= |artifacts|
    && forall v | v in after.versions && v !in before.versions :: IsNewRow(catalog, after, artifacts, n, v)
  }

  ghost predicate IsNewRow(catalog: Catalog, after: Db, artifacts: seq<Artifact>, n: nat, v: VersionId)
    requires n <= |artifacts|
  {
    exists i :: 0 <= i < n && NewRow(catalog, after, artifacts[i], v) && NewText(catalog, after, artifacts[i], v)
  }

  /** Modules and version rows after the first `n` sources. */
  ghost predicate RowsWritten(catalog: Catalog, before: Db, after: Db, artifacts: seq<Artifact>, n: nat,
                              selected: Selection)
  {
    && ModulesWritten(catalog, before.modules, after.modules, artifacts, n)
    && AllRecorded(after, artifacts, n, selected) && NewRows(catalog, before, after, artifacts, n)
  }

  lemma ModulesNext(catalog: Catalog, before: map<Slug, Module>, middle: map<Slug, Module>, after: map<Slug, Module>,
                    artifacts: seq<Artifact>, n: nat)
    requires ModulesWritten(catalog, before, middle, artifacts, n) && n < |artifacts|
    requires artifacts[n].name in catalog.manifests
    requires var law := catalog.manifests[artifacts[n].name].law;
             after == middle[Official(artifacts[n].name) := Module(law, true, true)]
    ensures ModulesWritten(catalog, before, after, artifacts, n + 1)
  {
    assert ArtifactSlugs(artifacts, n + 1) == ArtifactSlugs(artifacts, n) + {Official(artifacts[n].name)};
  }

  lemma NewRowsNext(catalog: Catalog, before: Db, middle: Db, after: Db, artifacts: seq<Artifact>, n: nat, v: VersionId)
    requires NewRows(catalog, before, middle, artifacts, n) && n < |artifacts|
    requires StoredRows(catalog, middle, after, artifacts[n], v) && Extends(middle, after)
    requires v !in middle.versions ==> NewText(catalog, after, artifacts[n], v)
    ensures NewRows(catalog, before, after, artifacts, n + 1)
  {
    forall w | w in after.versions && w !in before.versions ensures IsNewRow(catalog, after, artifacts, n + 1, w) {
      if w in middle.versions {
        assert IsNewRow(catalog, middle, artifacts, n, w);
        var i :| 0 <= i < n && NewRow(catalog, middle, artifacts[i], w) && NewText(catalog, middle, artifacts[i], w);
        assert SameRow(middle.versions[w], after.versions[w]);
        SectionsKept(middle, after, w, catalog.parse(artifacts[i].name, artifacts[i].content).value.sections);
        assert NewRow(catalog, after, artifacts[i], w);
      } else {
        assert NewRow(catalog, after, artifacts[n], w);
      }
    }
  }

  lemma RowsNext(catalog: Catalog, before: Db, middle: Db, after: Db, artifacts: seq<Artifact>, n: nat,
                 selected: Selection, v: VersionId)
    requires RowsWritten(catalog, before, middle, artifacts, n, selected) && ValidArtifacts(catalog, artifacts)
    requires n < |artifacts| && Proper(selected) && v.slug == Official(artifacts[n].name)
    requires StoredRows(catalog, middle, after, artifacts[n], v) && Extends(middle, after)
    requires v !in middle.versions ==> NewText(catalog, after, artifacts[n], v)
    ensures RowsWritten(catalog, before, after, artifacts, n + 1, selected[Official(artifacts[n].name) := v])
  {
    hide ModulesWritten, NewRows, AllRecorded, Extends, ValidArtifacts;
    assert artifacts[n].name in catalog.manifests;
    ModulesNext(catalog, before.modules, middle.modules, after.modules, artifacts, n);
    NewRowsNext(catalog, before, middle, after, artifacts, n, v);
    RecordedNext(catalog, middle, after, artifacts, n, selected, v);
  }

  lemma RecordedNext(catalog: Catalog, middle: Db, after: Db, artifacts: seq<Artifact>, n: nat, selected: Selection,
                     v: VersionId)
    requires ValidArtifacts(catalog, artifacts) && AllRecorded(middle, artifacts, n, selected)
    requires n < |artifacts| && Proper(selected) && v.slug == Official(artifacts[n].name)
    requires StoredRows(catalog, middle, after, artifacts[n], v)
    ensures AllRecorded(after, artifacts, n + 1, selected[Official(artifacts[n].name) := v])
  {
    forall i | 0 <= i < n ensures Recorded(after, artifacts[i], selected[Official(artifacts[i].name)]) {
      assert Recorded(middle, artifacts[i], selected[Official(artifacts[i].name)]);
    }
  }

  /** Where the install transaction stands after its first `n` sources. */
  ghost predicate Storing(catalog: Catalog, db: Db, tx: Db, files: Files, artifacts: seq<Artifact>, n: nat,
                          previous: Selection, selected: Selection)
  {
    && Wf(catalog, tx) && FilesOk(tx.versions, files) && Extends(db, tx)
    && Proper(selected) && selected.Values <= tx.versions.Keys
    && Reselected(artifacts, n, previous, selected) && OnlyNew(db, tx, artifacts, n)
    && (forall i | 0 <= i < n :: Covered(catalog, tx, artifacts[i], selected))
    && (Redundant(catalog, db, artifacts, previous) ==> selected == previous)
    && RowsWritten(catalog, db, tx, artifacts, n, selected)
  }

  lemma CoveredKept(catalog: Catalog, a: Db, b: Db, artifact: Artifact, selected: Selection, longer: Selection)
    requires Covered(catalog, a, artifact, selected) && Extends(a, b)
    requires Official(artifact.name) in longer && longer[Official(artifact.name)] == selected[Official(artifact.name)]
    ensures Covered(catalog, b, artifact, longer)
  {
  }

  lemma RedundantStored(catalog: Catalog, db: Db, tx: Db, a: Artifact, previous: Selection)
    requires Wf(catalog, tx) && Extends(db, tx) && Covered(catalog, db, a, previous)
    ensures StoreSource(catalog, tx, a).Ok?
    ensures StoreSource(catalog, tx, a).value.version == previous[Official(a.name)]
  {
    CoveredKept(catalog, db, tx, a, previous, previous);
    MeaningIsUnique(catalog, tx, a, previous[Official(a.name)]);
  }

  lemma SelectionGrows(selected: Selection, versions: set<VersionId>, slug: Slug, v: VersionId)
    requires Proper(selected) && selected.Values <= versions && v in versions && v.slug == slug
    ensures Proper(selected[slug := v]) && selected[slug := v].Values <= versions
  {
  }

  lemma CoveredAll(catalog: Catalog, a: Db, b: Db, artifacts: seq<Artifact>, n: nat, selected: Selection, v: VersionId)
    requires ValidArtifacts(catalog, artifacts) && n < |artifacts| && Extends(a, b)
    requires forall i | 0 <= i < n :: Covered(catalog, a, artifacts[i], selected)
    requires SameMeaning(catalog, b, artifacts[n], v)
    ensures forall i | 0 <= i < n + 1 :: Covered(catalog, b, artifacts[i], selected[Official(artifacts[n].name) := v])
  {
    forall i | 0 <= i < n ensures Covered(catalog, b, artifacts[i], selected[Official(artifacts[n].name) := v]) {
      CoveredKept(catalog, a, b, artifacts[i], selected, selected[Official(artifacts[n].name) := v]);
    }
  }

  lemma RedundantSelection(catalog: Catalog, db: Db, tx: Db, artifacts: seq<Artifact>, n: nat, previous: Selection)
    requires Wf(catalog, tx) && Extends(db, tx) && n < |artifacts| && Redundant(catalog, db, artifacts, previous)
    ensures ValidSource(catalog, artifacts[n]) && StoreSource(catalog, tx, artifacts[n]).Ok?
    ensures previous[Official(artifacts[n].name) := StoreSource(catalog, tx, artifacts[n]).value.version] == previous
  {
    assert Covered(catalog, db, artifacts[n], previous);
    RedundantStored(catalog, db, tx, artifacts[n], previous);
  }

  lemma StoringStep(catalog: Catalog, db: Db, tx: Db, files: Files, artifacts: seq<Artifact>, n: nat,
                    previous: Selection, selected: Selection, after: Db, v: VersionId)
    requires Storing(catalog, db, tx, files, artifacts, n, previous, selected)
    requires ValidArtifacts(catalog, artifacts) && n < |artifacts|
    requires Wf(catalog, after) && FilesOk(after.versions, files) && Extends(tx, after)
    requires SameMeaning(catalog, after, artifacts[n], v) && StoredRows(catalog, tx, after, artifacts[n], v)
    requires forall w | w in after.versions && w !in tx.versions :: w.slug == Official(artifacts[n].name)
    requires v !in tx.versions ==> NewText(catalog, after, artifacts[n], v)
    requires Redundant(catalog, db, artifacts, previous) ==> previous[Official(artifacts[n].name) := v] == previous
    ensures Storing(catalog, db, after, files, artifacts, n + 1, previous, selected[Official(artifacts[n].name) := v])
  {
    ExtendsTransitive(db, tx, after);
    SelectionGrows(selected, after.versions.Keys, Official(artifacts[n].name), v);
    CoveredAll(catalog, tx, after, artifacts, n, selected, v);
    ReselectedNext(artifacts, n, previous, selected, v);
    OnlyNewNext(db, tx, after, artifacts, n);
    RowsNext(catalog, db, tx, after, artifacts, n, selected, v);
  }

  lemma ReselectedNext(artifacts: seq<Artifact>, n: nat, previous: Selection, selected: Selection, v: VersionId)
    requires Reselected(artifacts, n, previous, selected) && n < |artifacts|
    ensures Reselected(artifacts, n + 1, previous, selected[Official(artifacts[n].name) := v])
  {
    assert ArtifactSlugs(artifacts, n + 1) == ArtifactSlugs(artifacts, n) + {Official(artifacts[n].name)};
  }

  lemma OnlyNewNext(db: Db, tx: Db, after: Db, artifacts: seq<Artifact>, n: nat)
    requires OnlyNew(db, tx, artifacts, n) && n < |artifacts|
    requires forall w | w in after.versions && w !in tx.versions :: w.slug == Official(artifacts[n].name)
    ensures OnlyNew(db, after, artifacts, n + 1)
  {
    assert ArtifactSlugs(artifacts, n + 1) == ArtifactSlugs(artifacts, n) + {Official(artifacts[n].name)};
  }

  /** Storing other sources does not change whether an artifact can be stored. */
  lemma StorableKept(catalog: Catalog, db: Db, tx: Db, artifacts: seq<Artifact>, n: nat)
    requires ValidArtifacts(catalog, artifacts) && n < |artifacts| && Extends(db, tx) && OnlyNew(db, tx, artifacts, n)
    ensures Storable(catalog, db, artifacts[n]) <==> Storable(catalog, tx, artifacts[n])
  {
    forall v | v in tx.versions && SameMeaning(catalog, tx, artifacts[n], v)
      ensures SameMeaning(catalog, db, artifacts[n], v)
    {
    }
    assert forall v | v in db.versions && SameMeaning(catalog, db, artifacts[n], v) ::
        SameMeaning(catalog, tx, artifacts[n], v);
  }

  ghost predicate AllStorable(catalog: Catalog, db: Db, artifacts: seq<Artifact>) {
    forall i | 0 <= i < |artifacts| :: Storable(catalog, db, artifacts[i])
  }

  lemma StoringStart(catalog: Catalog, db: Db, files: Files, artifacts: seq<Artifact>, previous: Selection)
    requires Wf(catalog, db) && FilesOk(db.versions, files) && Proper(previous) && previous.Values <= db.versions.Keys
    ensures Storing(catalog, db, db, files, artifacts, 0, previous, previous)
  {
  }

  /** One turn of the loop over parsed sources. */
  method StoreNext(catalog: Catalog, ghost db: Db, tx: Db, ghost files: Files, artifacts: seq<Artifact>, n: nat,
                   ghost previous: Selection, selected: Selection)
    returns (r: Result<Db, CorpusError>, selected': Selection)
    requires ValidArtifacts(catalog, artifacts) && n < |artifacts| && UriOf(artifacts[n]) in files
    requires Storing(catalog, db, tx, files, artifacts, n, previous, selected)
    ensures r.Ok? <==> Storable(catalog, db, artifacts[n])
    ensures r.Err? ==> r.error == IntegrityError
    ensures r.Ok? ==> Storing(catalog, db, r.value, files, artifacts, n + 1, previous, selected')
  {
    selected' := selected;
    StorableKept(catalog, db, tx, artifacts, n);
    StoreSourceSucceeds(catalog, tx, artifacts[n]);
    match StoreSource(catalog, tx, artifacts[n]) {
      case Err(error) =>
        r := Err(error);
      case Ok(stored) =>
        if Redundant(catalog, db, artifacts, previous) {
          RedundantSelection(catalog, db, tx, artifacts, n, previous);
        }
        StoreSourceKeeps(catalog, tx, files, artifacts[n]);
        StoreSourceRows(catalog, tx, artifacts[n]);
        StoringStep(catalog, db, tx, files, artifacts, n, previous, selected, stored.db, stored.version);
        selected' := selected[Official(artifacts[n].name) := stored.version];
        r := Ok(stored.db);
    }
  }

  /** The loop over parsed sources inside the install transaction. */
  method StoreSources(catalog: Catalog, db: Db, ghost files: Files, artifacts: seq<Artifact>, previous: Selection)
    returns (r: Result<Db, CorpusError>, selected: Selection)
    requires Wf(catalog, db) && FilesOk(db.versions, files) && Proper(previous) && previous.Values <= db.versions.Keys
    requires ValidArtifacts(catalog, artifacts) && forall i | 0 <= i < |artifacts| :: UriOf(artifacts[i]) in files
    ensures r.Ok? ==> Storing(catalog, db, r.value, files, artifacts, |artifacts|, previous, selected)
    ensures r.Ok? <==> AllStorable(catalog, db, artifacts)
    ensures r.Err? ==> r.error == IntegrityError
  {
    hide Storing, Storable;
    r, selected := Ok(db), previous;
    StoringStart(catalog, db, files, artifacts, previous);
    var i := 0;
    while i < |artifacts| && r.Ok?
      invariant 0 <= i <= |artifacts|
      invariant r.Ok? ==> Storing(catalog, db, r.value, files, artifacts, i, previous, selected)
      invariant r.Ok? ==> forall j | 0 <= j < i :: Storable(catalog, db, artifacts[j])
      invariant r.Err? ==> !AllStorable(catalog, db, artifacts) && r.error == IntegrityError
      decreases |artifacts| - i
    {
      r, selected := StoreNext(catalog, db, r.value, files, artifacts, i, previous, selected);
      i := i + 1;
    }
  }

  lemma RedundantBack(catalog: Catalog, a: Db, b: Db, artifacts: seq<Artifact>, selected: Selection)
    requires Extends(a, b) && selected.Values <= a.versions.Keys
    ensures Redundant(catalog, a, artifacts, selected) <==> Redundant(catalog, b, artifacts, selected)
  {
    forall i | 0 <= i < |artifacts|
      ensures Covered(catalog, a, artifacts[i], selected) <==> Covered(catalog, b, artifacts[i], selected)
    {
      if Official(artifacts[i].name) in selected {
        assert selected[Official(artifacts[i].name)] in selected.Values;
      }
    }
  }

  function ActiveMap(db: Db): Selection
    requires OnePerSlug(ActiveSources(db))
  {
    VersionsBySlug(ActiveSources(db))
  }

  lemma ActiveMapOk(catalog: Catalog, db: Db)
    requires Wf(catalog, db)
    ensures OnePerSlug(ActiveSources(db)) && Proper(ActiveMap(db)) && ActiveMap(db).Values <= db.versions.Keys
    ensures ActiveMap(db).Values == ActiveSources(db)
  {
    if db.active.Some? {
      assert GenerationOk(db, db.generations[db.active.value]);
    }
    forall v | v in ActiveSources(db) ensures v in ActiveMap(db).Values {
      assert ActiveMap(db)[v.slug] == v;
    }
  }

  /** Some source means the artifact, and its chunks are the artifact's sections. */
  ghost predicate MeantBy(catalog: Catalog, db: Db, a: Artifact, sources: set<VersionId>) {
    ValidSource(catalog, a) && exists v :: v in sources && Represents(catalog, db, a, v)
  }

  ghost predicate Represents(catalog: Catalog, db: Db, a: Artifact, v: VersionId)
    requires ValidSource(catalog, a)
  {
    SameMeaning(catalog, db, a, v) && HoldsMeaning(db.chunks, v, Meaning(catalog, a)) && Recorded(db, a, v)
  }

  /**
    The members of an installed generation that belong to the artifact: every parsed section,
    with its citation, title and, up to whitespace, its text, is a member and indexed.
   */
  lemma InstalledMembers(catalog: Catalog, db: Db, g: GenId, a: Artifact, v: VersionId, i: nat)
    requires Wf(catalog, db) && g in db.generations && ValidSource(catalog, a)
    requires v in db.generations[g].sources && Represents(catalog, db, a, v)
    requires i < |Meaning(catalog, a)|
    ensures var c := IdOf(v, Meaning(catalog, a)[i]);
            && c in db.generations[g].members && c in db.fts
            && HoldsNormalised(db.chunks, v, Meaning(catalog, a)[i])
  {
    assert GenerationOk(db, db.generations[g]);
    assert HoldsNormalised(db.chunks, v, Meaning(catalog, a)[i]);
  }

  /**
    The sources of an install: for each artifact a version that means it, and for every other slug
    the version it had.
   */
  ghost predicate InstalledFrom(catalog: Catalog, db: Db, artifacts: seq<Artifact>, before: set<VersionId>,
                                sources: set<VersionId>)
  {
    var slugs := ArtifactSlugs(artifacts, |artifacts|);
    && OnePerSlug(sources) && Slugs(sources) == Slugs(before) + slugs
    && Except(sources, slugs) == Except(before, slugs)
    && forall i | 0 <= i < |artifacts| :: MeantBy(catalog, db, artifacts[i], sources)
  }

  lemma OthersKept(artifacts: seq<Artifact>, previous: Selection, selected: Selection)
    requires Proper(previous) && Proper(selected) && Reselected(artifacts, |artifacts|, previous, selected)
    ensures var slugs := ArtifactSlugs(artifacts, |artifacts|);
            Except(selected.Values, slugs) == Except(previous.Values, slugs)
  {
    var slugs := ArtifactSlugs(artifacts, |artifacts|);
    forall v | v in Except(previous.Values, slugs) ensures v in selected.Values {
      assert previous[v.slug] == v && selected[v.slug] == v;
    }
    forall v | v in Except(selected.Values, slugs) ensures v in previous.Values {
      assert selected[v.slug] == v && previous[v.slug] == v;
    }
  }

  lemma SelectionInstalls(catalog: Catalog, tx: Db, artifacts: seq<Artifact>, previous: Selection, selected: Selection)
    requires Proper(previous) && Proper(selected) && Reselected(artifacts, |artifacts|, previous, selected)
    requires forall i | 0 <= i < |artifacts| :: Covered(catalog, tx, artifacts[i], selected)
    requires ContentOk(tx.versions, tx.chunks) && AllRecorded(tx, artifacts, |artifacts|, selected)
    ensures InstalledFrom(catalog, tx, artifacts, previous.Values, selected.Values)
  {
    OthersKept(artifacts, previous, selected);
    ProperValues(selected);
    SlugsOfValues(previous);
    SlugsOfValues(selected);
    forall i | 0 <= i < |artifacts| ensures MeantBy(catalog, tx, artifacts[i], selected.Values) {
      assert Covered(catalog, tx, artifacts[i], selected);
      assert selected[Official(artifacts[i].name)] in selected.Values;
      assert Represents(catalog, tx, artifacts[i], selected[Official(artifacts[i].name)]);
    }
  }

  /** The core is there once the artifacts are. */
  ghost predicate CoreCovered(catalog: Catalog, db: Db, artifacts: seq<Artifact>) {
    catalog.CoreSlugs() <= Slugs(ActiveSources(db)) + ArtifactSlugs(artifacts, |artifacts|)
  }

  /** Exactly when an install succeeds. */
  ghost predicate Installable(catalog: Catalog, db: Db, artifacts: seq<Artifact>, allowPartial: bool) {
    && ValidArtifacts(catalog, artifacts) && AllStorable(catalog, db, artifacts)
    && (allowPartial || CoreCovered(catalog, db, artifacts) || Reinstalls(catalog, db, artifacts))
  }

  /** Why an install fails: the first reason in the order in which they are looked for. */
  ghost function InstallError(catalog: Catalog, db: Db, artifacts: seq<Artifact>): CorpusError {
    if !ValidArtifacts(catalog, artifacts) then InvalidArtifacts
    else if !AllStorable(catalog, db, artifacts) then IntegrityError
    else MissingCore
  }

  /** The artifacts say nothing that the active generation does not. */
  ghost predicate Reinstalls(catalog: Catalog, db: Db, artifacts: seq<Artifact>) {
    && ValidArtifacts(catalog, artifacts) && db.active.Some? && OnePerSlug(ActiveSources(db))
    && Redundant(catalog, db, artifacts, ActiveMap(db))
  }

  /** What an install does to the tables, once its files are written. */
  ghost predicate Installs(catalog: Catalog, before: Db, after: Db, artifacts: seq<Artifact>, activate: bool,
                           g: GenId)
  {
    && OnePerSlug(ActiveSources(before)) && OnePerSlug(ActiveSources(after))
    && g in after.generations
    && after.active == (if activate then Some(g) else before.active)
    && (g in before.generations <==> before.active.Some? && Redundant(catalog, before, artifacts, ActiveMap(before)))
    && (g in before.generations ==> before.active == Some(g) && after.generations == before.generations)
    && (after.active == Some(g) ==> Redundant(catalog, after, artifacts, ActiveMap(after)))
    && InstalledFrom(catalog, after, artifacts, ActiveSources(before), after.generations[g].sources)
    && Preserves(before, after)
    && ModulesWritten(catalog, before.modules, after.modules, artifacts, |artifacts|)
    && NewRows(catalog, before, after, artifacts, |artifacts|)
  }

  lemma Meant(catalog: Catalog, db: Db, artifacts: seq<Artifact>, before: set<VersionId>, sources: set<VersionId>,
              i: nat)
    requires InstalledFrom(catalog, db, artifacts, before, sources) && i < |artifacts|
    ensures MeantBy(catalog, db, artifacts[i], sources)
  {
  }

  /** After an activated install every section of every artifact waits to be searched by embedding, or is already. */
  lemma InstalledEligible(catalog: Catalog, before: Db, after: Db, artifacts: seq<Artifact>, g: GenId, i: nat)
    returns (v: VersionId)
    requires Wf(catalog, after) && Installs(catalog, before, after, artifacts, true, g) && i < |artifacts|
    ensures ValidSource(catalog, artifacts[i])
    ensures v in ActiveSources(after) && Represents(catalog, after, artifacts[i], v)
    ensures forall j | 0 <= j < |Meaning(catalog, artifacts[i])| ::
              IdOf(v, Meaning(catalog, artifacts[i])[j]) in EmbeddingCommits.EligibleActive(after)
  {
    Meant(catalog, after, artifacts, ActiveSources(before), after.generations[g].sources, i);
    v :| v in after.generations[g].sources && Represents(catalog, after, artifacts[i], v);
    var semantic := Meaning(catalog, artifacts[i]);
    forall j | 0 <= j < |semantic| ensures IdOf(v, semantic[j]) in EmbeddingCommits.EligibleActive(after) {
      hide Wf, Represents, HoldsMeaning, Installs, NewRows, HoldsNormalised;
      InstalledMembers(catalog, after, g, artifacts[i], v, j);
      MayBeUsed(catalog, before.modules, after, artifacts, i, IdOf(v, semantic[j]));
    }
  }

  lemma MayBeUsed(catalog: Catalog, before: map<Slug, Module>, after: Db, artifacts: seq<Artifact>, i: nat, c: ChunkId)
    requires ModulesWritten(catalog, before, after.modules, artifacts, |artifacts|) && i < |artifacts|
    requires c in EmbeddingCommits.ActiveMembers(after) && c.version.slug == Official(artifacts[i].name)
    ensures c in EmbeddingCommits.EligibleActive(after)
  {
    assert Official(artifacts[i].name) in ArtifactSlugs(artifacts, |artifacts|);
  }

  lemma ExtendsAdvances(a: Db, b: Db, c: Db, now: Time)
    requires Extends(a, b) && Advances(b, c, now)
    ensures Advances(a, c, now)
  {
    forall g ensures ActivatedAt(b, g) == ActivatedAt(a, g) {
    }
  }

  lemma InstallsExisting(catalog: Catalog, db: Db, tx: Db, files: Files, artifacts: seq<Artifact>, activate: bool)
    requires Wf(catalog, db) && db.active.Some? && OnePerSlug(ActiveSources(db))
    requires Storing(catalog, db, tx, files, artifacts, |artifacts|, ActiveMap(db), ActiveMap(db))
    ensures Installs(catalog, db, tx, artifacts, activate, db.active.value)
  {
    ActiveMapOk(catalog, db);
    assert Redundant(catalog, tx, artifacts, ActiveMap(db));
    RedundantBack(catalog, db, tx, artifacts, ActiveMap(db));
    SelectionInstalls(catalog, tx, artifacts, ActiveMap(db), ActiveMap(db));
    ExtendsPreserves(db, tx);
  }

  lemma PublishedFrame(catalog: Catalog, db: Db, tx: Db, selected: Selection, allowPartial: bool, activate: bool,
                       now: Time, g: GenId, after: Db)
    requires Extends(db, tx) && g !in db.generations
    requires Publish(catalog, tx, selected, allowPartial, activate, now, g) == Ok(after)
    ensures Preserves(db, after) && Advances(db, after, now)
    ensures after.versions == tx.versions && after.chunks == tx.chunks && after.modules == tx.modules
    ensures g in after.generations && after.active == if activate then Some(g) else db.active
  {
    PublishAdvances(catalog, tx, selected, allowPartial, activate, now, g);
    ExtendsAdvances(db, tx, after, now);
    PublishFrame(catalog, tx, selected, allowPartial, activate, now, g);
    PublishPreserves(catalog, tx, selected, allowPartial, activate, now, g);
    ExtendsPreserves(db, tx);
    PreservesTransitive(db, tx, after);
  }

  lemma RedundantPublished(catalog: Catalog, tx: Db, after: Db, artifacts: seq<Artifact>, selected: Selection)
    requires after.versions == tx.versions
    requires forall i | 0 <= i < |artifacts| :: Covered(catalog, tx, artifacts[i], selected)
    ensures Redundant(catalog, after, artifacts, selected)
  {
    forall i | 0 <= i < |artifacts| ensures Covered(catalog, after, artifacts[i], selected) {
      assert Covered(catalog, tx, artifacts[i], selected);
    }
  }

  lemma InstalledSame(catalog: Catalog, tx: Db, after: Db, artifacts: seq<Artifact>, before: set<VersionId>,
                      sources: set<VersionId>)
    requires after.versions == tx.versions && after.chunks == tx.chunks
    requires InstalledFrom(catalog, tx, artifacts, before, sources)
    ensures InstalledFrom(catalog, after, artifacts, before, sources)
  {
    forall i | 0 <= i < |artifacts| ensures MeantBy(catalog, after, artifacts[i], sources) {
      assert MeantBy(catalog, tx, artifacts[i], sources);
      var v :| v in sources && Represents(catalog, tx, artifacts[i], v);
      assert Represents(catalog, after, artifacts[i], v);
    }
  }

  lemma InstallsSelection(catalog: Catalog, db: Db, tx: Db, files: Files, artifacts: seq<Artifact>, selected: Selection,
                          after: Db)
    requires Wf(catalog, db) && OnePerSlug(ActiveSources(db))
    requires Storing(catalog, db, tx, files, artifacts, |artifacts|, ActiveMap(db), selected)
    requires after.versions == tx.versions && after.chunks == tx.chunks
    ensures InstalledFrom(catalog, after, artifacts, ActiveSources(db), selected.Values)
  {
    ActiveMapOk(catalog, db);
    SelectionInstalls(catalog, tx, artifacts, ActiveMap(db), selected);
    InstalledSame(catalog, tx, after, artifacts, ActiveSources(db), selected.Values);
  }

  lemma PublishedActive(catalog: Catalog, tx: Db, selected: Selection, allowPartial: bool, activate: bool, now: Time,
                        g: GenId, after: Db)
    requires Wf(catalog, tx) && Proper(selected) && g !in tx.generations
    requires Publish(catalog, tx, selected, allowPartial, activate, now, g) == Ok(after)
    ensures Wf(catalog, after) && OnePerSlug(ActiveSources(after))
    ensures g in after.generations && after.generations[g].sources == selected.Values
    ensures activate ==> ActiveMap(after) == selected
  {
    PublishKeeps(catalog, tx, selected, allowPartial, activate, now, g);
    PublishedSources(catalog, tx, selected, allowPartial, activate, now, g);
    ActiveMapOk(catalog, after);
    if activate {
      PublishReadsBack(catalog, tx, selected, allowPartial, now, g);
    }
  }

  /** What the loop over all sources has achieved. */
  lemma StoringTells(catalog: Catalog, db: Db, tx: Db, files: Files, artifacts: seq<Artifact>, previous: Selection,
                     selected: Selection)
    requires Storing(catalog, db, tx, files, artifacts, |artifacts|, previous, selected)
    ensures Wf(catalog, tx) && Extends(db, tx) && tx.generations == db.generations && Proper(selected)
    ensures forall i | 0 <= i < |artifacts| :: Covered(catalog, tx, artifacts[i], selected)
    ensures Redundant(catalog, db, artifacts, previous) ==> selected == previous
    ensures ModulesWritten(catalog, db.modules, tx.modules, artifacts, |artifacts|)
    ensures NewRows(catalog, db, tx, artifacts, |artifacts|)
  {
  }

  lemma ActiveKnown(catalog: Catalog, db: Db)
    requires Wf(catalog, db)
    ensures db.active.Some? ==> db.active.value in db.generations
  {
  }

  lemma NewRowsSame(catalog: Catalog, db: Db, tx: Db, after: Db, artifacts: seq<Artifact>)
    requires NewRows(catalog, db, tx, artifacts, |artifacts|)
    requires after.versions == tx.versions && after.chunks == tx.chunks
    ensures NewRows(catalog, db, after, artifacts, |artifacts|)
  {
    forall v | v in after.versions && v !in db.versions ensures IsNewRow(catalog, after, artifacts, |artifacts|, v) {
      assert IsNewRow(catalog, tx, artifacts, |artifacts|, v);
      var i :| 0 <= i < |artifacts| && NewRow(catalog, tx, artifacts[i], v) && NewText(catalog, tx, artifacts[i], v);
      assert NewRow(catalog, after, artifacts[i], v) && NewText(catalog, after, artifacts[i], v);
    }
  }

  lemma AssembleInstall(catalog: Catalog, db: Db, after: Db, artifacts: seq<Artifact>, selected: Selection,
                        activate: bool, g: GenId)
    requires OnePerSlug(ActiveSources(db)) && OnePerSlug(ActiveSources(after)) && g !in db.generations
    requires db.active.Some? ==> db.active.value in db.generations && selected != ActiveMap(db)
    requires Redundant(catalog, db, artifacts, ActiveMap(db)) ==> selected == ActiveMap(db)
    requires g in after.generations && after.generations[g].sources == selected.Values
    requires after.active == (if activate then Some(g) else db.active) && Preserves(db, after)
    requires activate ==> ActiveMap(after) == selected && Redundant(catalog, after, artifacts, selected)
    requires InstalledFrom(catalog, after, artifacts, ActiveSources(db), selected.Values)
    requires ModulesWritten(catalog, db.modules, after.modules, artifacts, |artifacts|)
    requires NewRows(catalog, db, after, artifacts, |artifacts|)
    ensures Installs(catalog, db, after, artifacts, activate, g)
  {
  }

  lemma InstallsNew(catalog: Catalog, db: Db, tx: Db, files: Files, artifacts: seq<Artifact>, selected: Selection,
                    allowPartial: bool, activate: bool, now: Time, g: GenId, after: Db)
    requires Wf(catalog, db) && OnePerSlug(ActiveSources(db)) && g !in db.generations
    requires Storing(catalog, db, tx, files, artifacts, |artifacts|, ActiveMap(db), selected)
    requires db.active.Some? ==> selected != ActiveMap(db)
    requires Publish(catalog, tx, selected, allowPartial, activate, now, g) == Ok(after)
    ensures Wf(catalog, after) && Installs(catalog, db, after, artifacts, activate, g) && after.versions == tx.versions
    ensures Advances(db, after, now)
  {
    hide Storing, NewRows, ModulesWritten, Publish, Preserves, Advances, Wf, Extends, InstalledFrom;
    StoringTells(catalog, db, tx, files, artifacts, ActiveMap(db), selected);
    PublishedFrame(catalog, db, tx, selected, allowPartial, activate, now, g, after);
    PublishedActive(catalog, tx, selected, allowPartial, activate, now, g, after);
    InstallsSelection(catalog, db, tx, files, artifacts, selected, after);
    ActiveKnown(catalog, db);
    if activate {
      RedundantPublished(catalog, tx, after, artifacts, selected);
    }
    NewRowsSame(catalog, db, tx, after, artifacts);
    AssembleInstall(catalog, db, after, artifacts, selected, activate, g);
  }

  /** The transaction of an install. A failure commits nothing. */
  method InstallTransaction(catalog: Catalog, db: Db, ghost files: Files, artifacts: seq<Artifact>, activate: bool,
                            allowPartial: bool, now: Time)
    returns (r: Result<GenId, CorpusError>, after: Db)
    requires Wf(catalog, db) && FilesOk(db.versions, files) && ValidArtifacts(catalog, artifacts)
    requires forall i | 0 <= i < |artifacts| :: UriOf(artifacts[i]) in files
    ensures Wf(catalog, after) && FilesOk(after.versions, files)
    ensures r.Err? ==> after == db
    ensures r.Ok? ==> Installs(catalog, db, after, artifacts, activate, r.value)
    ensures Advances(db, after, now)
    ensures r.Ok? <==> Installable(catalog, db, artifacts, allowPartial)
    ensures r.Err? ==> r.error == InstallError(catalog, db, artifacts)
  {
    after := db;
    ActiveMapOk(catalog, db);
    var previous := ActiveMap(db);
    var stored, selected := StoreSources(catalog, db, files, artifacts, previous);
    if stored.Err? {
      return Err(stored.error), db;
    }
    r, after := PublishInstall(catalog, db, stored.value, files, artifacts, previous, selected, activate, allowPartial,
                               now);
  }

  /** What the selection says about the conditions of success. */
  lemma SelectionTells(catalog: Catalog, db: Db, tx: Db, files: Files, artifacts: seq<Artifact>, selected: Selection)
    requires Wf(catalog, db) && OnePerSlug(ActiveSources(db)) && ValidArtifacts(catalog, artifacts)
    requires Storing(catalog, db, tx, files, artifacts, |artifacts|, ActiveMap(db), selected)
    ensures catalog.CoreSlugs() <= selected.Keys <==> CoreCovered(catalog, db, artifacts)
    ensures db.active.Some? && selected == ActiveMap(db) <==> Reinstalls(catalog, db, artifacts)
  {
    ActiveMapOk(catalog, db);
    SlugsOfValues(ActiveMap(db));
    if selected == ActiveMap(db) {
      assert Redundant(catalog, tx, artifacts, selected);
      RedundantBack(catalog, db, tx, artifacts, selected);
    }
  }

  /** The rest of the transaction: the active generation, or a new one. */
  method PublishInstall(catalog: Catalog, db: Db, tx: Db, ghost files: Files, artifacts: seq<Artifact>,
                        previous: Selection, selected: Selection, activate: bool, allowPartial: bool, now: Time)
    returns (r: Result<GenId, CorpusError>, after: Db)
    requires Wf(catalog, db) && OnePerSlug(ActiveSources(db)) && ValidArtifacts(catalog, artifacts)
    requires FilesOk(db.versions, files) && previous == ActiveMap(db)
    requires Storing(catalog, db, tx, files, artifacts, |artifacts|, ActiveMap(db), selected)
    ensures Wf(catalog, after) && FilesOk(after.versions, files) && Advances(db, after, now)
    ensures r.Err? ==> after == db
    ensures r.Ok? ==> Installs(catalog, db, after, artifacts, activate, r.value)
    ensures r.Ok? <==> allowPartial || CoreCovered(catalog, db, artifacts) || Reinstalls(catalog, db, artifacts)
    ensures r.Err? ==> r.error == MissingCore
  {
    SelectionTells(catalog, db, tx, files, artifacts, selected);
    if db.active.Some? && selected == previous {
      InstallsExisting(catalog, db, tx, files, artifacts, activate);
      return Ok(db.active.value), tx;
    }
    ghost var unused := FreshId(db.generations.Keys);
    var g: nat :| g !in db.generations.Keys;
    match Publish(catalog, tx, selected, allowPartial, activate, now, g) {
      case Err(error) =>
        r, after := Err(error), db;
      case Ok(published) =>
        InstallsNew(catalog, db, tx, files, artifacts, selected, allowPartial, activate, now, g, published);
        r, after := Ok(g), published;
    }
  }

  // ----- Files

  /** `_write_artifact` for every source; a file that is there already has the same content. */
  method WriteFiles(ghost versions: map<VersionId, Version>, files: Files, uris: seq<Uri>) returns (after: Files)
    requires FilesOk(versions, files)
    ensures FilesOk(versions, after)
    ensures after.Keys == files.Keys + set i | 0 <= i < |uris| :: uris[i]
  {
    after := files;
    for i := 0 to |uris|
      invariant FilesOk(versions, after)
      invariant after.Keys == files.Keys + set j | 0 <= j < i :: uris[j]
    {
      if uris[i] !in after {
        after := after[uris[i] := uris[i].hash.content];
      }
    }
  }

  predicate Referenced(versions: map<VersionId, Version>, uri: Uri) {
    exists v :: v in versions && versions[v].uri == uri
  }

  /** `_remove_unreferenced_artifacts`: exactly the given files that no version names. */
  method RemoveUnreferenced(versions: map<VersionId, Version>, files: Files, uris: seq<Uri>) returns (after: Files)
    requires FilesOk(versions, files)
    ensures FilesOk(versions, after)
    ensures after.Keys == set u | u in files && (Referenced(versions, u) || u !in uris)
  {
    after := files;
    for i := 0 to |uris|
      invariant FilesOk(versions, after)
      invariant after.Keys == set u | u in files && (Referenced(versions, u) || u !in uris[..i])
    {
      PrefixSnoc(uris, i);
      if !Referenced(versions, uris[i]) {
        after := after - {uris[i]};
      }
    }
    assert uris[..|uris|] == uris;
  }

  function Uris(artifacts: seq<Artifact>): (uris: seq<Uri>)
    ensures |uris| == |artifacts| && forall i | 0 <= i < |artifacts| :: uris[i] == UriOf(artifacts[i])
  {
    seq(|artifacts|, i requires 0 <= i < |artifacts| => UriOf(artifacts[i]))
  }

  /** Every stored version has its file, and every file of the call or new file belongs to a version. */
  ghost predicate Tidy(versions: map<VersionId, Version>, before: Files, after: Files, uris: seq<Uri>) {
    && FilesOk(versions, after)
    && (forall u | u in after && (u in uris || u !in before) :: Referenced(versions, u))
    && (forall u | u in before && u !in uris :: u in after)
  }

  /**
    `install_artifacts`: validate everything, write the files, run the transaction,
    and in any case remove the files of this call that no version names.
   */
  method Install(catalog: Catalog, db: Db, files: Files, artifacts: seq<Artifact>, activate: bool, allowPartial: bool,
                 now: Time)
    returns (r: Result<GenId, CorpusError>, after: Db, left: Files)
    requires Wf(catalog, db) && FilesOk(db.versions, files)
    ensures Wf(catalog, after) && FilesOk(after.versions, left)
    ensures !ValidArtifacts(catalog, artifacts) ==> r == Err(InvalidArtifacts) && left == files
    ensures r.Err? ==> after == db
    ensures r.Ok? ==> ValidArtifacts(catalog, artifacts) && Installs(catalog, db, after, artifacts, activate, r.value)
    ensures ValidArtifacts(catalog, artifacts) ==> Tidy(after.versions, files, left, Uris(artifacts))
    ensures r.Ok? <==> Installable(catalog, db, artifacts, allowPartial)
    ensures r.Err? ==> r.error == InstallError(catalog, db, artifacts)
    ensures Advances(db, after, now)
  {
    var valid := CheckArtifacts(catalog, artifacts);
    if !valid {
      return Err(InvalidArtifacts), db, files;
    }
    var written := WriteFiles(db.versions, files, Uris(artifacts));
    forall i | 0 <= i < |artifacts| ensures UriOf(artifacts[i]) in written {
      assert Uris(artifacts)[i] in written.Keys;
    }
    r, after := InstallTransaction(catalog, db, written, artifacts, activate, allowPartial, now);
    left := RemoveUnreferenced(after.versions, written, Uris(artifacts));
    TidyFiles(after.versions, files, written, left, Uris(artifacts));
  }

  lemma TidyFiles(versions: map<VersionId, Version>, files: Files, written: Files, left: Files, uris: seq<Uri>)
    requires FilesOk(versions, left)
    requires written.Keys == files.Keys + set i | 0 <= i < |uris| :: uris[i]
    requires left.Keys == set u | u in written && (Referenced(versions, u) || u !in uris)
    ensures Tidy(versions, files, left, uris)
  {
    forall u | u in left && (u in uris || u !in files) ensures Referenced(versions, u) {
      assert u in left.Keys;
    }
  }

  /** What was installed can be installed again. */
  lemma InstallableAgain(catalog: Catalog, db: Db, after: Db, artifacts: seq<Artifact>, activate: bool,
                         allowPartial: bool, g: GenId)
    requires Wf(catalog, db) && Wf(catalog, after) && Installable(catalog, db, artifacts, allowPartial)
    requires Installs(catalog, db, after, artifacts, activate, g)
    ensures Installable(catalog, after, artifacts, allowPartial)
  {
    forall i | 0 <= i < |artifacts| ensures Storable(catalog, after, artifacts[i]) {
      assert MeantBy(catalog, after, artifacts[i], after.generations[g].sources);
      assert GenerationOk(after, after.generations[g]);
    }
    if after.active != Some(g) {
      SameActiveSources(db, after);
    }
  }

  lemma SameActiveSources(db: Db, after: Db)
    requires Preserves(db, after) && after.active == db.active
    requires (db.active.Some? ==> db.active.value in db.generations)
    ensures ActiveSources(after) == ActiveSources(db)
  {
  }

  /**
    Installing the same artifacts again returns the first generation exactly when
    the first install activated it or found nothing new.
   */
  method InstallTwice(catalog: Catalog, db: Db, files: Files, artifacts: seq<Artifact>, activate: bool,
                      allowPartial: bool, t1: Time, t2: Time)
    returns (first: Result<GenId, CorpusError>, second: Result<GenId, CorpusError>)
    requires Wf(catalog, db) && FilesOk(db.versions, files)
    ensures first.Ok? <==> Installable(catalog, db, artifacts, allowPartial)
    ensures first.Ok? ==> second.Ok? && (second == first <==> activate || Reinstalls(catalog, db, artifacts))
  {
    var middle, written, after, left;
    first, middle, written := Install(catalog, db, files, artifacts, activate, allowPartial, t1);
    if first.Ok? {
      InstallableAgain(catalog, db, middle, artifacts, activate, allowPartial, first.value);
    }
    second, after, left := Install(catalog, middle, written, artifacts, activate, allowPartial, t2);
  }

  /** Without activation the same artifacts can be staged under two different generations. */
  method StagedInstallsDiffer() returns (first: Result<GenId, CorpusError>, second: Result<GenId, CorpusError>)
    ensures first.Ok? && second.Ok? && first != second
  {
    var section := Section("code", "1", Some("s. 1"), "title", "text");
    var catalog := Catalog(map["code" := Manifest(true, true, "v1")],
                           (name, content) => Some(Parsed([section], true)),
                           (name, content) => None, metadata => None, metadata => "");
    var artifacts := [Artifact("code", "bytes", ".xml", "", 0)];
    var empty := Db(map[], map[], map[], map[], multiset{}, multiset{}, map[], None);
    KeysCount([section]);
    SomeText();
    first, second := InstallTwice(catalog, empty, map[], artifacts, false, true, 1, 2);
  }
}
