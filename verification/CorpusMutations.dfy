/** The corpus service over its storage (`CorpusService` in app/corpus/service.py). */
module CorpusMutations {
  import opened Common
  import opened CorpusTables
  import opened CorpusGenerations
  import opened CorpusSources
  import opened CorpusInstall
  import opened CorpusChanges
  import opened CorpusStorage

  /** What every corpus mutation keeps: the invariant, everything stored, and the order of activations. */
  ghost predicate Mutates(catalog: Catalog, before: State, after: State, now: Time) {
    && StateOk(catalog, after) && after.receipts == before.receipts
    && Preserves(before.db, after.db) && Advances(before.db, after.db, now)
  }

  lemma Installed(catalog: Catalog, s: State, after: State, artifacts: seq<Artifact>, activate: bool,
                  r: Result<GenId, CorpusError>, now: Time)
    requires StateOk(catalog, s) && after.receipts == s.receipts
    requires Wf(catalog, after.db) && FilesOk(after.db.versions, after.files) && Advances(s.db, after.db, now)
    requires r.Err? ==> after.db == s.db
    requires r.Ok? ==> Installs(catalog, s.db, after.db, artifacts, activate, r.value)
    ensures Mutates(catalog, s, after, now)
  {
  }

  lemma Changed(catalog: Catalog, s: State, db: Db, now: Time)
    requires StateOk(catalog, s) && Wf(catalog, db) && db.versions == s.db.versions
    requires Preserves(s.db, db) && Advances(s.db, db, now)
    ensures Mutates(catalog, s, s.(db := db), now)
  {
  }

  lemma Refuses(catalog: Catalog, s: State, now: Time)
    requires StateOk(catalog, s)
    ensures Mutates(catalog, s, s, now)
  {
  }

  class CorpusService {
    const storage: LocalStorage

    constructor (storage: LocalStorage)
      ensures this.storage == storage
    {
      this.storage := storage;
    }

    /** `install_artifacts`. */
    method InstallArtifacts(artifacts: seq<Artifact>, activate: bool, allowPartial: bool, now: Time)
      returns (r: Result<GenId, CorpusError>)
      requires storage.Valid()
      modifies storage
      ensures storage.Valid() && Mutates(storage.catalog, old(storage.Contents()), storage.Contents(), now)
      ensures r.Ok? <==> Installable(storage.catalog, old(storage.db), artifacts, allowPartial)
      ensures r.Err? ==> storage.db == old(storage.db)
      ensures r.Err? ==> r.error == InstallError(storage.catalog, old(storage.db), artifacts)
      ensures r.Ok? ==> Installs(storage.catalog, old(storage.db), storage.db, artifacts, activate, r.value)
      ensures if ValidArtifacts(storage.catalog, artifacts)
              then Tidy(storage.db.versions, old(storage.files), storage.files, Uris(artifacts))
              else r == Err(InvalidArtifacts) && storage.files == old(storage.files)
    {
      var s := storage.Contents();
      var db, files;
      r, db, files := Install(storage.catalog, s.db, s.files, artifacts, activate, allowPartial, now);
      Installed(storage.catalog, s, State(db, files, s.receipts), artifacts, activate, r, now);
      storage.Commit(State(db, files, s.receipts));
    }

    /** `activate`. */
    method Activate(g: GenId, allowPartial: bool, now: Time) returns (r: Result<GenId, CorpusError>)
      requires storage.Valid()
      modifies storage
      ensures storage.Valid() && Mutates(storage.catalog, old(storage.Contents()), storage.Contents(), now)
      ensures r.Err? ==> storage.db == old(storage.db)
      ensures r.Ok? <==>
                (&& g in old(storage.db).generations && old(storage.db).generations[g].readiness != EmbeddingStaging)
                         && (old(storage.db).generations[g].partial ==> allowPartial)
      ensures r.Err? ==>
                r.error == if g !in old(storage.db).generations then UnknownGeneration
                           else if old(storage.db).generations[g].readiness == EmbeddingStaging then NotSearchable
                           else PartialNotAllowed
      ensures r.Ok? ==> r.value == g && storage.db.active == Some(g)
                        && ActiveSources(storage.db) == old(storage.db).generations[g].sources
    {
      var s := storage.Contents();
      var activated := ActivateChecked(s.db, g, allowPartial, now);
      if activated.Err? {
        Refuses(storage.catalog, s, now);
        return Err(activated.error);
      }
      ActivateCheckedKeeps(storage.catalog, s.db, g, allowPartial, now);
      Changed(storage.catalog, s, activated.value, now);
      storage.Commit(s.(db := activated.value));
      r := Ok(g);
    }

    /** `rollback`. */
    method Rollback(now: Time) returns (r: Result<GenId, CorpusError>)
      requires storage.Valid()
      modifies storage
      ensures storage.Valid() && Mutates(storage.catalog, old(storage.Contents()), storage.Contents(), now)
      ensures r.Err? ==> storage.db == old(storage.db)
      ensures r.Err? ==> r.error == NothingRetained
      ensures r.Err? <==>
                forall g | g in old(storage.db).generations :: old(storage.db).generations[g].status != Retained
      ensures r.Ok? ==>
                && RollbackTarget(old(storage.db), r.value)
                && storage.db == CorpusTables.Activate(old(storage.db), r.value, now)
    {
      var s := storage.Contents();
      var db;
      r, db := CorpusChanges.Rollback(storage.catalog, s.db, now);
      Changed(storage.catalog, s, db, now);
      storage.Commit(s.(db := db));
    }

    /** `remove_sources`. */
    method RemoveSources(names: seq<string>, now: Time) returns (r: Result<GenId, CorpusError>)
      requires storage.Valid()
      modifies storage
      ensures storage.Valid() && Mutates(storage.catalog, old(storage.Contents()), storage.Contents(), now)
      ensures r.Err? ==> storage.db == old(storage.db)
      ensures r.Ok? <==>
                (ValidPack(storage.catalog, names) && PackSlugs(names) * Slugs(ActiveSources(old(storage.db))) != {})
      ensures r.Err? ==> r.error == if ValidPack(storage.catalog, names) then NothingInstalled else InvalidSlugs
      ensures r.Ok? ==> ActiveSources(storage.db) == Except(ActiveSources(old(storage.db)), PackSlugs(names))
      ensures KeepsCore(storage.catalog, old(storage.db), storage.db)
    {
      var s := storage.Contents();
      var db;
      r, db := RemovePack(storage.catalog, s.db, names, now);
      if r.Err? {
        Refuses(storage.catalog, s, now);
      } else {
        Changed(storage.catalog, s, db, now);
      }
      storage.Commit(s.(db := db));
    }

    /** `restore_sources`. */
    method RestoreSources(names: seq<string>, now: Time) returns (r: Result<GenId, CorpusError>)
      requires storage.Valid()
      modifies storage
      ensures storage.Valid() && Mutates(storage.catalog, old(storage.Contents()), storage.Contents(), now)
      ensures r.Err? ==> storage.db == old(storage.db)
      ensures r.Ok? <==> && ValidPack(storage.catalog, names)
                         && exists slug :: slug in PackSlugs(names) && HasVersion(old(storage.db).versions, slug)
      ensures r.Err? ==> r.error == if ValidPack(storage.catalog, names) then NothingInstalled else InvalidSlugs
      ensures r.Ok? ==> && OnePerSlug(ActiveSources(old(storage.db))) && OnePerSlug(ActiveSources(storage.db))
                        && Restores(old(storage.db).versions, PackSlugs(names), ActiveMap(old(storage.db)),
                                    ActiveMap(storage.db))
      ensures KeepsCore(storage.catalog, old(storage.db), storage.db)
    {
      var s := storage.Contents();
      var db;
      r, db := RestorePack(storage.catalog, s.db, names, now);
      Changed(storage.catalog, s, db, now);
      storage.Commit(s.(db := db));
    }
  }
}
