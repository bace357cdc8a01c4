/** The embedding run (`CorpusEmbeddingIndexer` in app/corpus/indexing.py). */
module EmbeddingIndexer {
  import opened Common
  import opened CorpusTables
  import opened EmbeddingCommits
  import opened CorpusStorage
  import opened CommitBudget

  datatype IndexingResult = IndexingResult(generation: GenId, embedded: nat, reused: nat)

  datatype IndexingEstimate = IndexingEstimate(total: nat, requiring: nat, reusable: nat)

  function Elements(chunks: seq<ChunkId>): set<ChunkId> {
    set c | c in chunks
  }

  lemma ElementsAppend(a: seq<ChunkId>, b: seq<ChunkId>)
    ensures Elements(a + b) == Elements(a) + Elements(b)
  {
  }

  lemma BatchElements(chunks: seq<ChunkId>, i: nat, j: nat)
    requires i <= j <= |chunks|
    ensures Elements(chunks[i..j]) <= Elements(chunks)
    ensures chunks[..|chunks|] == chunks
  {
  }

  lemma BatchPrefix(chunks: seq<ChunkId>, i: nat, j: nat, count: nat)
    requires i <= j <= |chunks| && count <= j - i
    ensures Elements(chunks[..i]) + Elements(chunks[i..j][..count]) == Elements(chunks[..i + count])
  {
    assert chunks[..i + count] == chunks[..i] + chunks[i..j][..count];
    ElementsAppend(chunks[..i], chunks[i..j][..count]);
  }

  lemma ElementsSnoc(stored: set<ChunkId>, chunks: seq<ChunkId>, i: nat)
    requires i < |chunks|
    ensures stored + Elements(chunks[..i]) + {chunks[i]} == stored + Elements(chunks[..i + 1])
    ensures chunks[i] in Elements(chunks)
  {
    assert chunks[..i + 1] == chunks[..i] + [chunks[i]];
  }

  lemma {:induction false} ElementsCount(chunks: seq<ChunkId>)
    ensures |Elements(chunks)| <= |chunks|
  {
    if chunks != [] {
      var n := |chunks| - 1;
      ElementsCount(chunks[..n]);
      ElementsSnoc({}, chunks, n);
      assert {} + Elements(chunks[..n]) + {chunks[n]} == Elements(chunks[..n]) + {chunks[n]};
      assert chunks[..n + 1] == chunks;
    }
  }

  /** Of different chunks, any prefix has as many elements as its length. */
  lemma PrefixCount(chunks: seq<ChunkId>, n: nat)
    requires |Elements(chunks)| == |chunks| && n <= |chunks|
    ensures |Elements(chunks[..n])| == n
  {
    var front, rest := chunks[..n], chunks[n..];
    assert chunks == front + rest;
    ElementsAppend(front, rest);
    ElementsCount(front);
    ElementsCount(rest);
    assert |Elements(front) + Elements(rest)| <= |Elements(front)| + |Elements(rest)|;
  }

  lemma MissingAndReusable(db: Db, profile: ProfileId)
    ensures |Missing(db, profile)| + |Reusable(db, profile)| == |EligibleActive(db)|
  {
    assert Missing(db, profile) + Reusable(db, profile) == EligibleActive(db);
    assert Missing(db, profile) !! Reusable(db, profile);
  }

  /** The rows of a query, in some order. */
  method ListChunks(chunks: set<ChunkId>) returns (rows: seq<ChunkId>)
    ensures Elements(rows) == chunks && |rows| == |chunks|
  {
    rows := [];
    var rest := chunks;
    while rest != {}
      invariant rest <= chunks && Elements(rows) == chunks - rest && |rows| + |rest| == |chunks|
      decreases rest
    {
      var c :| c in rest;
      ElementsAppend(rows, [c]);
      rows := rows + [c];
      rest := rest - {c};
    }
  }

  /** One `put` commit. */
  method PutOne(catalog: Catalog, ghost before: Db, db: Db, ghost g: GenId, profile: ProfileId,
                vectors: ChunkId -> Bytes, c: ChunkId, ghost stored: set<ChunkId>, ghost flagged: set<ChunkId>)
    returns (after: Db)
    requires Indexing(catalog, before, db, g, profile, vectors, stored, flagged) && c in Missing(before, profile)
    ensures Indexing(catalog, before, after, g, profile, vectors, stored + {c}, flagged)
  {
    PutIndexes(catalog, before, db, g, profile, vectors, stored, flagged, c);
    after := Put(db, c, profile, vectors(c));
  }

  /** The `put` commits of one batch, as far as the budget of commits goes. */
  method PutBatch(catalog: Catalog, ghost before: Db, start: Db, ghost g: GenId, profile: ProfileId,
                  vectors: ChunkId -> Bytes, batch: seq<ChunkId>, budget: nat, ghost stored: set<ChunkId>,
                  ghost flagged: set<ChunkId>)
    returns (db: Db, done: nat)
    requires Indexing(catalog, before, start, g, profile, vectors, stored, flagged)
    requires Elements(batch) <= Missing(before, profile)
    ensures done == Min(|batch|, budget)
    ensures Indexing(catalog, before, db, g, profile, vectors, stored + Elements(batch[..done]), flagged)
  {
    hide Indexing;
    db, done := start, 0;
    ghost var all := stored;
    assert stored + Elements(batch[..0]) == stored;
    while done < |batch| && done < budget
      invariant done <= |batch| && done <= budget
      invariant all == stored + Elements(batch[..done])
      invariant Indexing(catalog, before, db, g, profile, vectors, all, flagged)
    {
      ElementsSnoc(stored, batch, done);
      db := PutOne(catalog, before, db, g, profile, vectors, batch[done], all, flagged);
      all := all + {batch[done]};
      done := done + 1;
    }
  }

  /** One batch: stored chunk by chunk, then flagged. */
  method StoreBatch(catalog: Catalog, ghost before: Db, start: Db, g: GenId, profile: ProfileId,
                    vectors: ChunkId -> Bytes, batch: seq<ChunkId>, budget: nat, ghost stored: set<ChunkId>)
    returns (db: Db, done: nat, finished: bool, ghost flagged: set<ChunkId>)
    requires Indexing(catalog, before, start, g, profile, vectors, stored, stored)
    requires Elements(batch) <= Missing(before, profile)
    ensures done == Min(|batch|, budget) && (finished <==> |batch| < budget)
    ensures Indexing(catalog, before, db, g, profile, vectors, stored + Elements(batch[..done]), flagged)
    ensures finished ==> flagged == stored + Elements(batch[..done])
  {
    flagged := stored;
    db, done := PutBatch(catalog, before, start, g, profile, vectors, batch, budget, stored, stored);
    finished := done < budget;
    if finished {
      assert batch[..done] == batch;
      FlagIndexes(catalog, before, db, g, profile, vectors, stored + Elements(batch), stored, Elements(batch));
      db := Flag(db, g, Elements(batch));
      flagged := stored + Elements(batch);
    }
  }

  /** The batches of a run. */
  method StoreBatches(catalog: Catalog, ghost before: Db, start: Db, g: GenId, profile: ProfileId,
                      vectors: ChunkId -> Bytes, missing: seq<ChunkId>, batchSize: nat, budget: nat)
    returns (db: Db, done: nat, left: nat, finished: bool, ghost flagged: set<ChunkId>)
    requires Indexing(catalog, before, start, g, profile, vectors, {}, {})
    requires Elements(missing) == Missing(before, profile) && batchSize > 0
    ensures done == Min(|missing|, Puts(budget, batchSize))
    ensures finished <==> budget >= |missing| + Batches(|missing|, batchSize)
    ensures finished ==> done == |missing| && left == budget - |missing| - Batches(|missing|, batchSize)
    ensures Indexing(catalog, before, db, g, profile, vectors, Elements(missing[..done]), flagged)
    ensures finished ==> flagged == Elements(missing[..done])
  {
    hide Indexing;
    db, done, left, finished, flagged := start, 0, budget, true, {};
    ghost var stored, q := {}, 0;
    assert Elements(missing[..0]) == {};
    while done < |missing| && finished
      invariant done <= |missing| && stored == Elements(missing[..done]) && (finished ==> flagged == stored)
      invariant Indexing(catalog, before, db, g, profile, vectors, stored, flagged)
      invariant Accounts(|missing|, batchSize, budget, done, left, finished, q) && (|missing| == 0 ==> q == 0)
      decreases |missing| - done, finished
    {
      var end := Min(done + batchSize, |missing|);
      var batch := missing[done..end];
      BatchElements(missing, done, end);
      AccountsNext(|missing|, batchSize, budget, done, left, q);
      var count;
      db, count, finished, flagged := StoreBatch(catalog, before, db, g, profile, vectors, batch, left, stored);
      stored := stored + Elements(batch[..count]);
      BatchPrefix(missing, done, end, count);
      if finished {
        left := left - count - 1;
        q := q + 1;
      }
      done := done + count;
    }
    if finished {
      AccountsEnd(|missing|, batchSize, budget, left, q);
    }
  }

  /** `_stage`: the staged copy of the active generation, the chunks to embed and how many need not be. */
  method StageActive(catalog: Catalog, db: Db, profile: ProfileId, ghost vectors: ChunkId -> Bytes)
    returns (g: GenId, staged: Db, missing: seq<ChunkId>, reused: nat)
    requires Wf(catalog, db) && db.active.Some?
    ensures Indexing(catalog, db, staged, g, profile, vectors, {}, {})
    ensures Elements(missing) == Missing(db, profile) && |missing| == |Elements(missing)|
    ensures |missing| + reused == |EligibleActive(db)|
  {
    ghost var unused := FreshId(db.generations.Keys);
    g :| g !in db.generations.Keys;
    missing := ListChunks(Missing(db, profile));
    reused := |Reusable(db, profile)|;
    MissingAndReusable(db, profile);
    StageIndexes(catalog, db, profile, vectors, g);
    staged := Stage(db, profile, g);
  }

  /** Everything after `_stage`. */
  method FillStaged(catalog: Catalog, ghost before: Db, staged: Db, g: GenId, profile: ProfileId,
                    vectors: ChunkId -> Bytes, missing: seq<ChunkId>, reused: nat, batchSize: nat, budget: nat,
                    now: Time)
    returns (r: Result<IndexingResult, CorpusError>, db: Db, stored: set<ChunkId>)
    requires Indexing(catalog, before, staged, g, profile, vectors, {}, {})
    requires Elements(missing) == Missing(before, profile) && |missing| == |Elements(missing)| && batchSize > 0
    ensures RunEffect(catalog, before, db, profile, vectors, stored) && Advances(before, db, now)
    ensures r.Err? ==> db.active == before.active && r.error == Interrupted
    ensures r.Ok? <==> budget > |missing| + Batches(|missing|, batchSize)
    ensures |stored| == Min(|missing|, Puts(budget, batchSize))
    ensures r.Ok? ==>
              && stored == Missing(before, profile) && Indexed(before, db, g, profile)
              && r.value == IndexingResult(g, |stored|, reused)
  {
    var done, left, finished;
    ghost var flagged;
    db, done, left, finished, flagged := StoreBatches(catalog, before, staged, g, profile, vectors, missing, batchSize,
                                                      budget);
    stored := Elements(missing[..done]);
    PrefixCount(missing, done);
    if !finished || left == 0 {
      StoppedEffect(catalog, before, db, g, profile, vectors, stored, flagged);
      return Err(Interrupted), db, stored;
    }
    BatchElements(missing, done, done);
    FinishedEffect(catalog, before, db, g, profile, vectors, now);
    match Finalize(db, g, now) {
      case Err(error) =>
        r := Err(error);
      case Ok(after) =>
        db := after;
        r := Ok(IndexingResult(g, done, reused));
    }
  }

  /** The batch size is valid, there is something to index, and the run gets to stage it. */
  predicate Starts(db: Db, batchSize: int, steps: nat) {
    1 <= batchSize <= 128 && db.active.Some? && steps >= 1
  }

  /** The commits of a whole run: one to stage, one per chunk and per batch, one to finish. */
  function StepsNeeded(db: Db, profile: ProfileId, batchSize: nat): nat
    requires batchSize > 0
  {
    |Missing(db, profile)| + Batches(|Missing(db, profile)|, batchSize) + 2
  }

  predicate Enough(db: Db, profile: ProfileId, batchSize: int, steps: nat) {
    Starts(db, batchSize, steps) && steps >= StepsNeeded(db, profile, batchSize)
  }

  /** How many chunks a run stores. */
  function StoredCount(db: Db, profile: ProfileId, batchSize: int, steps: nat): nat {
    if Starts(db, batchSize, steps) then Min(|Missing(db, profile)|, Puts(steps - 1, batchSize)) else 0
  }

  /**
    What a run does. It stores exactly as many chunks as its commits allow. Stopped, it leaves
    the active generation alone; with enough commits, and only then, it finishes, and what it
    embedded and reused is what was eligible.
   */
  ghost predicate Ran(catalog: Catalog, before: Db, after: Db, profile: ProfileId, vectors: ChunkId -> Bytes,
                      batchSize: int, steps: nat, now: Time, r: Result<IndexingResult, CorpusError>,
                      stored: set<ChunkId>)
  {
    && RunEffect(catalog, before, after, profile, vectors, stored) && Advances(before, after, now)
    && (r.Err? ==>
          && after.active == before.active
          && r.error == if batchSize < 1 || batchSize > 128 then InvalidBatchSize
                        else if before.active.None? then NoActiveCorpus else Interrupted)
    && (r.Ok? <==> Enough(before, profile, batchSize, steps))
    && |stored| == StoredCount(before, profile, batchSize, steps)
    && (r.Ok? ==>
          && stored == Missing(before, profile) && Indexed(before, after, r.value.generation, profile)
          && r.value.embedded == |stored| && r.value.embedded + r.value.reused == |EligibleActive(before)|)
  }

  lemma AdvancesNot(db: Db, now: Time)
    ensures Advances(db, db, now)
  {
  }

  /** A run of `index_active` from the tables `before` to the tables it leaves. */
  method IndexRun(catalog: Catalog, before: Db, profile: ProfileId, vectors: ChunkId -> Bytes, batchSize: int,
                  steps: nat, now: Time)
    returns (r: Result<IndexingResult, CorpusError>, db: Db, stored: set<ChunkId>)
    requires Wf(catalog, before)
    ensures Ran(catalog, before, db, profile, vectors, batchSize, steps, now, r, stored)
  {
    hide Wf, RunEffect, Indexing, Indexed, Advances;
    NoEffect(catalog, before, profile, vectors);
    AdvancesNot(before, now);
    if !(1 <= batchSize <= 128) {
      return Err(InvalidBatchSize), before, {};
    }
    if before.active.None? {
      return Err(NoActiveCorpus), before, {};
    }
    if steps == 0 {
      return Err(Interrupted), before, {};
    }
    var g, staged, missing, reused := StageActive(catalog, before, profile, vectors);
    r, db, stored := FillStaged(catalog, before, staged, g, profile, vectors, missing, reused, batchSize, steps - 1,
                                now);
  }

  /** Two commits get a run ahead, or finish it if nothing is missing. */
  lemma RunProgresses(db: Db, profile: ProfileId, batchSize: int, steps: nat)
    requires Starts(db, batchSize, steps) && steps >= 2
    ensures Missing(db, profile) != {} ==> StoredCount(db, profile, batchSize, steps) >= 1
    ensures Missing(db, profile) == {} ==> Enough(db, profile, batchSize, steps)
  {
    PutsPositive(steps - 1, batchSize);
    BatchesAre(0, batchSize, 0);
  }

  /** One more run after runs that have stored `all`. */
  method IndexAgain(catalog: Catalog, ghost before: Db, db: Db, profile: ProfileId, vectors: ChunkId -> Bytes,
                    batchSize: int, steps: nat, now: Time, ghost all: set<ChunkId>, total: nat)
    returns (r: Result<IndexingResult, CorpusError>, after: Db, ghost more: set<ChunkId>, count: nat)
    requires Wf(catalog, db) && RunEffect(catalog, before, db, profile, vectors, all) && total == |all|
    requires db.active.Some? && 1 <= batchSize <= 128
    ensures Wf(catalog, after) && RunEffect(catalog, before, after, profile, vectors, more) && count == |more|
    ensures after.active.Some?
    ensures r.Err? ==> count >= total + if steps >= 2 then 1 else 0
    ensures r.Ok? ==> more == Missing(before, profile) && Covered(after, EligibleActive(before))
  {
    hide Wf, Preserves, Added, Advances;
    var stored;
    r, after, stored := IndexRun(catalog, db, profile, vectors, batchSize, steps, now);
    if steps >= 2 {
      RunProgresses(db, profile, batchSize, steps);
    }
    RunsCompose(catalog, before, db, after, profile, vectors, all, stored);
    more, count := all + stored, total + |stored|;
    if r.Ok? {
      IndexedCovers(db, after, r.value.generation, profile);
    }
  }

  lemma IndexedCovers(before: Db, after: Db, g: GenId, profile: ProfileId)
    requires Indexed(before, after, g, profile)
    ensures Covered(after, EligibleActive(before)) && after.active.Some?
  {
  }

  /** The active generation is ready for exactly the given chunks. */
  ghost predicate Covered(db: Db, chunks: set<ChunkId>) {
    db.active.Some? && db.active.value in db.generations && ReadyChunks(db.generations[db.active.value]) == chunks
  }

  /** How many of the first `n` attempts make at least two commits. */
  function Attempts(schedule: seq<nat>, n: nat): nat
    requires n <= |schedule|
  {
    if n == 0 then 0 else Attempts(schedule, n - 1) + if schedule[n - 1] >= 2 then 1 else 0
  }

  lemma StoredWithin(catalog: Catalog, before: Db, db: Db, profile: ProfileId, vectors: ChunkId -> Bytes,
                     all: set<ChunkId>)
    requires RunEffect(catalog, before, db, profile, vectors, all)
    ensures |all| <= |Missing(before, profile)|
  {
    SubsetCount(all, Missing(before, profile));
  }

  lemma SubsetCount(a: set<ChunkId>, b: set<ChunkId>)
    requires a <= b
    ensures |a| <= |b|
  {
    assert b == a + (b - a);
  }

  /**
    A run that is stopped and started again stores each missing chunk once, and completes the
    coverage as soon as more attempts make two commits than chunks are missing.
   */
  method IndexUntilDone(catalog: Catalog, before: Db, profile: ProfileId, vectors: ChunkId -> Bytes, batchSize: int,
                        schedule: seq<nat>, now: Time)
    returns (db: Db, total: nat, done: bool)
    requires Wf(catalog, before) && before.active.Some? && 1 <= batchSize <= 128
    ensures exists all :: RunEffect(catalog, before, db, profile, vectors, all) && total == |all|
    ensures Attempts(schedule, |schedule|) > |Missing(before, profile)| ==> done
    ensures done ==> RunEffect(catalog, before, db, profile, vectors, Missing(before, profile))
    ensures done ==> total == |Missing(before, profile)| && Covered(db, EligibleActive(before))
  {
    hide Wf, RunEffect;
    db, total, done := before, 0, false;
    ghost var all := {};
    var i := 0;
    NoEffect(catalog, before, profile, vectors);
    while i < |schedule| && !done
      invariant i <= |schedule| && Wf(catalog, db) && db.active.Some?
      invariant RunEffect(catalog, before, db, profile, vectors, all) && total == |all|
      invariant !done ==> total >= Attempts(schedule, i)
      invariant done ==> all == Missing(before, profile) && Covered(db, EligibleActive(before))
    {
      var r;
      r, db, all, total := IndexAgain(catalog, before, db, profile, vectors, batchSize, schedule[i], now, all, total);
      done := r.Ok?;
      i := i + 1;
    }
    StoredWithin(catalog, before, db, profile, vectors, all);
  }

  lemma SameVersionsOk(catalog: Catalog, s: State, db: Db)
    requires StateOk(catalog, s) && Wf(catalog, db) && db.versions == s.db.versions
    ensures StateOk(catalog, s.(db := db))
  {
  }

  class CorpusEmbeddingIndexer {
    const storage: LocalStorage

    constructor (storage: LocalStorage)
      ensures this.storage == storage
    {
      this.storage := storage;
    }

    /** `estimate_active`: what a run would have to embed. */
    method EstimateActive(profile: ProfileId) returns (r: Result<IndexingEstimate, CorpusError>)
      ensures r.Err? <==> storage.db.active.None?
      ensures r.Ok? ==>
                && r.value.requiring == |Missing(storage.db, profile)|
                && r.value.requiring + r.value.reusable == r.value.total == |EligibleActive(storage.db)|
    {
      if storage.db.active.None? {
        return Err(NoActiveCorpus);
      }
      MissingAndReusable(storage.db, profile);
      var rows, reusable := EligibleActive(storage.db), Reusable(storage.db, profile);
      assert Missing(storage.db, profile) == rows - reusable;
      r := Ok(IndexingEstimate(|rows|, |rows - reusable|, |reusable|));
    }

    /**
      `index_active`. The process may be stopped before any commit; `steps` is the
      number of commits it gets to make, and `stored` what it has stored by then.
     */
    method IndexActive(profile: ProfileId, vectors: ChunkId -> Bytes, batchSize: int, steps: nat, now: Time)
      returns (r: Result<IndexingResult, CorpusError>, stored: set<ChunkId>)
      requires storage.Valid()
      modifies storage
      ensures storage.Valid() && storage.Contents() == old(storage.Contents()).(db := storage.db)
      ensures Ran(storage.catalog, old(storage.db), storage.db, profile, vectors, batchSize, steps, now, r, stored)
    {
      var s := storage.Contents();
      var db;
      r, db, stored := IndexRun(storage.catalog, s.db, profile, vectors, batchSize, steps, now);
      SameVersionsOk(storage.catalog, s, db);
      storage.Commit(s.(db := db));
    }
  }
}
