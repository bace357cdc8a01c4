/**
  Whole runs: any sequence of corpus mutations, resource operations and complete or
  interrupted indexing runs, one after the other on the same storage.
 */
module CorpusRuns {
  import opened Common
  import opened CorpusTables
  import opened CorpusGenerations
  import opened CorpusSources
  import opened CorpusInstall
  import opened CorpusChanges
  import opened CorpusStorage
  import opened Receipts
  import CorpusMutations
  import UserResources
  import EmbeddingCommits
  import EmbeddingIndexer

  datatype Request =
    | Install(artifacts: seq<Artifact>, activate: bool, allowPartial: bool)
    | ActivateGeneration(generation: GenId, allowPartial: bool)
    | RollBack
    | RemoveSources(names: seq<string>)
    | RestoreSources(names: seq<string>)
    | Index(profile: ProfileId, vectors: ChunkId -> Bytes, batchSize: int, steps: nat)
    | Resource(operation: Operation, id: string)
  {
    /** Pack and user-resource operations. */
    predicate LeavesCore() {
      RemoveSources? || RestoreSources? || Resource?
    }
  }

  datatype Operation =
    | Add(content: Bytes, filename: string, metadata: Metadata)
    | ReplaceFile(resource: nat, content: Bytes, filename: string, metadata: Metadata, expected: Option<VersionId>)
    | EditMetadata(resource: nat, filename: string, metadata: Metadata, expected: Option<VersionId>)
    | Remove(resource: nat)
    | Restore(resource: nat, version: Option<VersionId>)
    | SetModelUse(resource: nat, allowed: bool)

  /** What every step keeps. */
  ghost predicate Steps(catalog: Catalog, before: State, after: State, now: Time) {
    && StateOk(catalog, after)
    && Preserves(before.db, after.db) && Advances(before.db, after.db, now)
    && ReceiptsKept(before.receipts, after.receipts)
  }

  datatype Answer =
    | Published(generation: Result<GenId, CorpusError>)
    | Indexed(indexing: Result<EmbeddingIndexer.IndexingResult, CorpusError>)
    | Operated(result: Result<ResourceResult, CorpusError>)

  /** Exactly when a corpus mutation succeeds, and what it then does. */
  ghost predicate Mutated(catalog: Catalog, before: Db, after: Db, request: Request, r: Result<GenId, CorpusError>)
    requires !request.Index? && !request.Resource?
  {
    && (r.Err? ==> after == before)
    && match request
       case Install(artifacts, activate, allowPartial) =>
         && (r.Ok? <==> Installable(catalog, before, artifacts, allowPartial))
         && (r.Ok? ==> Installs(catalog, before, after, artifacts, activate, r.value))
       case ActivateGeneration(g, allowPartial) =>
         && (r.Ok? <==> && g in before.generations && before.generations[g].readiness != EmbeddingStaging
                        && (before.generations[g].partial ==> allowPartial))
         && (r.Ok? ==> r.value == g && after.active == Some(g))
       case RollBack =>
         && (r.Ok? <==> exists g :: g in before.generations && before.generations[g].status == Retained)
         && (r.Ok? ==> RollbackTarget(before, r.value) && after.active == Some(r.value))
       case RemoveSources(names) =>
         && (r.Ok? <==> ValidPack(catalog, names) && PackSlugs(names) * Slugs(ActiveSources(before)) != {})
         && (r.Ok? ==> ActiveSources(after) == Except(ActiveSources(before), PackSlugs(names)))
       case RestoreSources(names) =>
         && (r.Ok? <==> ValidPack(catalog, names) && exists slug ::
               slug in PackSlugs(names) && HasVersion(before.versions, slug))
         && (r.Ok? ==> && OnePerSlug(ActiveSources(before)) && OnePerSlug(ActiveSources(after))
                       && Restores(before.versions, PackSlugs(names), ActiveMap(before), ActiveMap(after)))
  }

  /** Exactly when a resource operation without a receipt succeeds, and what it then does. */
  ghost predicate Changed(catalog: Catalog, naming: Naming, before: Db, after: Db, operation: Operation,
                          r: Result<ResourceResult, CorpusError>)
  {
    match operation
    case Add(content, filename, metadata) =>
      UserResources.AddEffect(catalog, naming, before, after, content, filename, metadata, r)
    case ReplaceFile(resource, content, filename, metadata, expected) =>
      UserResources.ReplaceEffect(catalog, naming, before, after, resource, content, filename, metadata, expected, r)
    case EditMetadata(resource, filename, metadata, expected) =>
      UserResources.EditEffect(catalog, naming, before, after, resource, filename, metadata, expected, r)
    case Remove(resource) => UserResources.RemoveEffect(naming, before, after, resource, r)
    case Restore(resource, version) => UserResources.RestoreEffect(naming, before, after, resource, version, r)
    case SetModelUse(resource, allowed) =>
      UserResources.ModelUseEffect(naming, before, after, resource, allowed, r)
  }

  /** One resource operation. */
  method Operate(storage: LocalStorage, operation: Operation, id: string, now: Time)
    returns (r: Result<ResourceResult, CorpusError>)
    requires storage.Valid()
    modifies storage
    ensures storage.Valid()
    ensures UserResources.Operates(storage.catalog, old(storage.Contents()), storage.Contents(), id, r, now)
    ensures ReceiptFor(old(storage.receipts), id).None? ==>
              Changed(storage.catalog, storage.naming, old(storage.db), storage.db, operation, r)
  {
    var service := new UserResources.ResourceService(storage);
    match operation {
      case Add(content, filename, metadata) => r := service.Add(content, filename, metadata, id, now);
      case ReplaceFile(resource, content, filename, metadata, expected) =>
        r := service.ReplaceFile(resource, content, filename, metadata, expected, id, now);
      case EditMetadata(resource, filename, metadata, expected) =>
        r := service.EditMetadata(resource, filename, metadata, expected, id, now);
      case Remove(resource) => r := service.Remove(resource, id, now);
      case Restore(resource, version) => r := service.Restore(resource, version, id, now);
      case SetModelUse(resource, allowed) => r := service.SetModelUse(resource, allowed, id, now);
    }
  }

  /** One install, activation or rollback. */
  method Mutate(storage: LocalStorage, request: Request, now: Time) returns (r: Result<GenId, CorpusError>)
    requires storage.Valid() && (request.Install? || request.ActivateGeneration? || request.RollBack?)
    modifies storage
    ensures storage.Valid()
    ensures CorpusMutations.Mutates(storage.catalog, old(storage.Contents()), storage.Contents(), now)
    ensures Mutated(storage.catalog, old(storage.db), storage.db, request, r)
  {
    var service := new CorpusMutations.CorpusService(storage);
    match request {
      case Install(artifacts, activate, allowPartial) =>
        r := service.InstallArtifacts(artifacts, activate, allowPartial, now);
      case ActivateGeneration(g, allowPartial) =>
        r := service.Activate(g, allowPartial, now);
      case RollBack =>
        r := service.Rollback(now);
    }
  }

  /** One removal or restoral of a pack. */
  method ChangePack(storage: LocalStorage, request: Request, now: Time) returns (r: Result<GenId, CorpusError>)
    requires storage.Valid() && (request.RemoveSources? || request.RestoreSources?)
    modifies storage
    ensures storage.Valid()
    ensures CorpusMutations.Mutates(storage.catalog, old(storage.Contents()), storage.Contents(), now)
    ensures KeepsCore(storage.catalog, old(storage.Contents()).db, storage.Contents().db)
    ensures Mutated(storage.catalog, old(storage.db), storage.db, request, r)
  {
    var service := new CorpusMutations.CorpusService(storage);
    match request {
      case RemoveSources(names) =>
        r := service.RemoveSources(names, now);
      case RestoreSources(names) =>
        r := service.RestoreSources(names, now);
    }
  }

  /** A run that is stopped keeps the active generation, one with enough commits replaces it by its indexed copy. */
  ghost predicate RanIndex(before: Db, after: Db, profile: ProfileId, batchSize: int, steps: nat,
                           r: Result<EmbeddingIndexer.IndexingResult, CorpusError>)
  {
    && (r.Err? ==> after.active == before.active)
    && (r.Ok? ==> EmbeddingCommits.Indexed(before, after, r.value.generation, profile))
    && (r.Ok? <==> EmbeddingIndexer.Enough(before, profile, batchSize, steps))
  }

  /** One indexing run, stopped or not. */
  method RunIndex(storage: LocalStorage, profile: ProfileId, vectors: ChunkId -> Bytes, batchSize: int, steps: nat,
                  now: Time)
    returns (r: Result<EmbeddingIndexer.IndexingResult, CorpusError>)
    requires storage.Valid()
    modifies storage
    ensures storage.Valid()
    ensures CorpusMutations.Mutates(storage.catalog, old(storage.Contents()), storage.Contents(), now)
    ensures RanIndex(old(storage.db), storage.db, profile, batchSize, steps, r)
  {
    var s := storage.Contents();
    var indexer := new EmbeddingIndexer.CorpusEmbeddingIndexer(storage);
    var stored;
    r, stored := indexer.IndexActive(profile, vectors, batchSize, steps, now);
    CorpusMutations.Changed(storage.catalog, s, storage.db, now);
  }

  /** What performing one request does: what every step keeps, and what the request asks for. */
  ghost predicate Performed(catalog: Catalog, naming: Naming, before: State, after: State, request: Request,
                            answer: Answer, now: Time)
  {
    && Steps(catalog, before, after, now) && (request.LeavesCore() ==> KeepsCore(catalog, before.db, after.db))
    && Answers(catalog, naming, before, after, request, answer, now)
  }

  ghost predicate Answers(catalog: Catalog, naming: Naming, before: State, after: State, request: Request,
                          answer: Answer, now: Time)
  {
    match request
    case Resource(operation, id) =>
      && answer.Operated? && UserResources.Operates(catalog, before, after, id, answer.result, now)
      && (ReceiptFor(before.receipts, id).None? ==>
            Changed(catalog, naming, before.db, after.db, operation, answer.result))
    case Index(profile, vectors, batchSize, steps) =>
      answer.Indexed? && RanIndex(before.db, after.db, profile, batchSize, steps, answer.indexing)
    case _ => answer.Published? && Mutated(catalog, before.db, after.db, request, answer.generation)
  }

  lemma MutationSteps(catalog: Catalog, before: State, after: State, now: Time)
    requires CorpusMutations.Mutates(catalog, before, after, now)
    ensures Steps(catalog, before, after, now)
  {
  }

  lemma OperationSteps(catalog: Catalog, before: State, after: State, id: string,
                       r: Result<ResourceResult, CorpusError>, now: Time)
    requires UserResources.Operates(catalog, before, after, id, r, now)
    ensures Steps(catalog, before, after, now) && KeepsCore(catalog, before.db, after.db)
  {
  }

  method Perform(storage: LocalStorage, request: Request, now: Time) returns (answer: Answer)
    requires storage.Valid()
    modifies storage
    ensures storage.Valid()
    ensures Performed(storage.catalog, storage.naming, old(storage.Contents()), storage.Contents(), request, answer,
                      now)
  {
    ghost var s := storage.Contents();
    if request.Resource? {
      var r := Operate(storage, request.operation, request.id, now);
      OperationSteps(storage.catalog, s, storage.Contents(), request.id, r, now);
      answer := Operated(r);
    } else {
      if request.Index? {
        var r := RunIndex(storage, request.profile, request.vectors, request.batchSize, request.steps, now);
        answer := Indexed(r);
      } else if request.LeavesCore() {
        var r := ChangePack(storage, request, now);
        answer := Published(r);
      } else {
        var r := Mutate(storage, request, now);
        answer := Published(r);
      }
      MutationSteps(storage.catalog, s, storage.Contents(), now);
    }
  }

  // ----- Runs

  ghost predicate Increasing(start: Time, times: seq<Time>) {
    && (forall i | 0 <= i < |times| :: start < times[i])
    && (forall i, j | 0 <= i < j < |times| :: times[i] < times[j])
  }

  function LastTime(start: Time, times: seq<Time>, n: nat): Time
    requires n <= |times|
  {
    if n == 0 then start else times[n - 1]
  }

  /** What every run keeps, from its first state to any later one. */
  ghost predicate Runs(catalog: Catalog, before: State, after: State) {
    && StateOk(catalog, after) && Preserves(before.db, after.db) && ReceiptsKept(before.receipts, after.receipts)
  }

  /** The state after the first `n` requests, performed at the given times. */
  ghost predicate Reached(catalog: Catalog, before: State, after: State, requests: seq<Request>,
                          start: Time, times: seq<Time>, n: nat)
  {
    && n <= |requests| == |times| && Runs(catalog, before, after)
    && (Increasing(start, times) && Chronological(before.db, start) ==>
          Chronological(after.db, LastTime(start, times, n)))
    && ((forall i | 0 <= i < n :: requests[i].LeavesCore()) ==> KeepsCore(catalog, before.db, after.db))
  }

  lemma ReachedStart(catalog: Catalog, s: State, requests: seq<Request>, start: Time, times: seq<Time>)
    requires StateOk(catalog, s) && |requests| == |times|
    ensures Reached(catalog, s, s, requests, start, times, 0)
  {
  }

  lemma RunsNext(catalog: Catalog, first: State, a: State, b: State, now: Time)
    requires Runs(catalog, first, a) && Steps(catalog, a, b, now)
    ensures Runs(catalog, first, b)
  {
    PreservesTransitive(first.db, a.db, b.db);
  }

  lemma OrderNext(catalog: Catalog, a: State, b: State, last: Time, now: Time)
    requires Steps(catalog, a, b, now) && Chronological(a.db, last) && last < now
    ensures Chronological(b.db, now)
  {
    AdvancesInOrder(a.db, b.db, last, now);
  }

  lemma ReachedNext(catalog: Catalog, first: State, a: State, b: State, requests: seq<Request>,
                    start: Time, times: seq<Time>, n: nat)
    requires Reached(catalog, first, a, requests, start, times, n) && n < |requests|
    requires Steps(catalog, a, b, times[n]) && (requests[n].LeavesCore() ==> KeepsCore(catalog, a.db, b.db))
    ensures Reached(catalog, first, b, requests, start, times, n + 1)
  {
    RunsNext(catalog, first, a, b, times[n]);
    if Increasing(start, times) && Chronological(first.db, start) {
      OrderNext(catalog, a, b, LastTime(start, times, n), times[n]);
    }
  }

  /** The states a run goes through: each request does what it asks for. */
  ghost predicate Trace(catalog: Catalog, naming: Naming, requests: seq<Request>, answers: seq<Answer>,
                        times: seq<Time>, trace: seq<State>)
  {
    && |answers| <= |requests| == |times| && |trace| == |answers| + 1
    && forall i | 0 <= i < |answers| :: StepAt(catalog, naming, requests, answers, times, trace, i)
  }

  ghost predicate StepAt(catalog: Catalog, naming: Naming, requests: seq<Request>, answers: seq<Answer>,
                         times: seq<Time>, trace: seq<State>, i: nat)
    requires i < |answers| <= |requests| == |times| && |trace| == |answers| + 1
  {
    Performed(catalog, naming, trace[i], trace[i + 1], requests[i], answers[i], times[i])
  }

  lemma StepKept(catalog: Catalog, naming: Naming, requests: seq<Request>, answers: seq<Answer>, longer: seq<Answer>,
                 times: seq<Time>, trace: seq<State>, states: seq<State>, i: nat)
    requires i < |answers| && |longer| <= |requests| == |times|
    requires |trace| == |answers| + 1 && |states| == |longer| + 1 && answers <= longer && trace <= states
    requires StepAt(catalog, naming, requests, answers, times, trace, i)
    ensures StepAt(catalog, naming, requests, longer, times, states, i)
  {
    assert states[i] == trace[i] && states[i + 1] == trace[i + 1] && longer[i] == answers[i];
  }

  lemma TraceNext(catalog: Catalog, naming: Naming, requests: seq<Request>, answers: seq<Answer>, times: seq<Time>,
                  trace: seq<State>, answer: Answer, after: State)
    requires Trace(catalog, naming, requests, answers, times, trace) && |answers| < |requests|
    requires Performed(catalog, naming, trace[|answers|], after, requests[|answers|], answer, times[|answers|])
    ensures Trace(catalog, naming, requests, answers + [answer], times, trace + [after])
  {
    var longer, states := answers + [answer], trace + [after];
    forall i | 0 <= i < |longer| ensures StepAt(catalog, naming, requests, longer, times, states, i) {
      if i < |answers| {
        StepKept(catalog, naming, requests, answers, longer, times, trace, states, i);
      }
    }
  }

  /** The next request of a run. */
  method PerformNext(storage: LocalStorage, requests: seq<Request>, ghost start: Time, times: seq<Time>,
                     answers: seq<Answer>, ghost trace: seq<State>)
    returns (answers': seq<Answer>, ghost trace': seq<State>)
    requires storage.Valid() && Trace(storage.catalog, storage.naming, requests, answers, times, trace)
    requires |answers| < |requests| && trace[|answers|] == storage.Contents()
    requires Reached(storage.catalog, trace[0], storage.Contents(), requests, start, times, |answers|)
    modifies storage
    ensures storage.Valid() && Trace(storage.catalog, storage.naming, requests, answers', times, trace')
    ensures |answers'| == |answers| + 1 && trace'[0] == trace[0] && trace'[|answers'|] == storage.Contents()
    ensures Reached(storage.catalog, trace[0], storage.Contents(), requests, start, times, |answers'|)
  {
    var n := |answers|;
    ghost var s := storage.Contents();
    var answer := Perform(storage, requests[n], times[n]);
    TraceNext(storage.catalog, storage.naming, requests, answers, times, trace, answer, storage.Contents());
    ReachedNext(storage.catalog, trace[0], s, storage.Contents(), requests, start, times, n);
    answers', trace' := answers + [answer], trace + [storage.Contents()];
  }

  /** Any requests, one after the other. */
  method PerformAll(storage: LocalStorage, requests: seq<Request>, ghost start: Time, times: seq<Time>)
    returns (answers: seq<Answer>, ghost trace: seq<State>)
    requires storage.Valid() && |times| == |requests|
    modifies storage
    ensures storage.Valid() && Trace(storage.catalog, storage.naming, requests, answers, times, trace)
    ensures |answers| == |requests| && trace[0] == old(storage.Contents()) && trace[|answers|] == storage.Contents()
    ensures Reached(storage.catalog, trace[0], storage.Contents(), requests, start, times, |requests|)
  {
    hide Reached, StepAt;
    answers, trace := [], [storage.Contents()];
    ReachedStart(storage.catalog, storage.Contents(), requests, start, times);
    while |answers| < |requests|
      invariant storage.Valid() && Trace(storage.catalog, storage.naming, requests, answers, times, trace)
      invariant trace[0] == old(storage.Contents()) && trace[|answers|] == storage.Contents()
      invariant Reached(storage.catalog, trace[0], storage.Contents(), requests, start, times, |answers|)
    {
      answers, trace := PerformNext(storage, requests, start, times, answers, trace);
    }
  }

  /**
    Every request of a run does what it asks for. Afterwards `verify` accepts every
    generation, `corpus_state` names the only active one and nothing stored before is lost.
    If there were only pack and resource operations a complete core corpus is still
    complete, and if time advanced with every request the active generation is the one
    activated last.
   */
  method Run(storage: LocalStorage, requests: seq<Request>, ghost start: Time, times: seq<Time>)
    returns (answers: seq<Answer>, ghost trace: seq<State>)
    requires storage.Valid() && |times| == |requests|
    modifies storage
    ensures storage.Valid() && Trace(storage.catalog, storage.naming, requests, answers, times, trace)
    ensures |answers| == |requests| && trace[0] == old(storage.Contents()) && trace[|answers|] == storage.Contents()
    ensures Preserves(old(storage.db), storage.db)
    ensures forall g | g in storage.db.generations :: Verify(storage.db, storage.files, g) == None
    ensures PointerOk(storage.db.generations, storage.db.active)
    ensures (forall i | 0 <= i < |requests| :: requests[i].LeavesCore()) ==>
              KeepsCore(storage.catalog, old(storage.db), storage.db)
    ensures Increasing(start, times) && Chronological(old(storage.db), start) ==>
              Chronological(storage.db, LastTime(start, times, |times|))
  {
    answers, trace := PerformAll(storage, requests, start, times);
    AllVerify(storage.catalog, storage.db, storage.files);
  }

  /** Two rollbacks in a row return to the generation that was active; the second never fails. */
  method RollBackTwice(storage: LocalStorage, ghost before: Time, t1: Time, t2: Time) returns (ok: bool)
    requires storage.Valid() && Chronological(storage.db, before) && before < t1 < t2
    modifies storage
    ensures storage.Valid()
    ensures ok <==> exists g :: g in old(storage.db).generations && old(storage.db).generations[g].status == Retained
    ensures ok ==> storage.db.active == old(storage.db).active
  {
    ghost var db := storage.db;
    var service := new CorpusMutations.CorpusService(storage);
    var first := service.Rollback(t1);
    ok := first.Ok?;
    if ok {
      ghost var middle := storage.db;
      assert middle.generations[db.active.value].status == Retained;
      var second := service.Rollback(t2);
      TwoRollbacks(storage.catalog, db, first.value, second.value, before, t1);
    }
  }

  /** A finished indexing run makes every section of the artifacts installed before searchable by embedding. */
  lemma InstalledSearchable(catalog: Catalog, before: Db, installed: Db, after: Db, artifacts: seq<Artifact>, g: GenId,
                            h: GenId, profile: ProfileId, i: nat)
    returns (v: VersionId)
    requires Wf(catalog, installed) && Installs(catalog, before, installed, artifacts, true, g) && i < |artifacts|
    requires EmbeddingCommits.Indexed(installed, after, h, profile)
    ensures ValidSource(catalog, artifacts[i]) && Represents(catalog, installed, artifacts[i], v)
    ensures after.active.Some? && after.active.value in after.generations
    ensures forall j | 0 <= j < |Meaning(catalog, artifacts[i])| ::
              IdOf(v, Meaning(catalog, artifacts[i])[j]) in ReadyChunks(after.generations[after.active.value])
  {
    v := InstalledEligible(catalog, before, installed, artifacts, g, i);
    EmbeddingIndexer.IndexedCovers(installed, after, h, profile);
  }

  // ----- Receipts

  lemma ReceiptLasts(catalog: Catalog, s: State, a: State, b: State, id: string, result: ResourceResult, now: Time)
    requires UserResources.Operates(catalog, s, a, id, Ok(result), now) && ReceiptsKept(a.receipts, b.receipts)
    requires id != "" && result.duplicateOf.None?
    ensures ReceiptFor(b.receipts, id) == Some(result)
  {
    if ReceiptFor(s.receipts, id).None? {
      ReceiptStored(s.receipts, a.receipts, id, result);
    }
    assert ReceiptFor(a.receipts, id) == Some(result);
  }

  /**
    A committed resource operation that is asked for again under its operation id, whatever
    happened in between and whatever it asks now, answers as it did and changes nothing.
   */
  method Replay(storage: LocalStorage, operation: Operation, again: Operation, id: string, between: seq<Request>,
                times: seq<Time>, t1: Time, t2: Time)
    returns (first: Result<ResourceResult, CorpusError>, second: Result<ResourceResult, CorpusError>, same: bool)
    requires storage.Valid() && id != "" && |times| == |between|
    modifies storage
    ensures storage.Valid()
    ensures first.Ok? && first.value.duplicateOf.None? ==> second == first && same
  {
    ghost var s := storage.Contents();
    first := Operate(storage, operation, id, t1);
    ghost var a := storage.Contents();
    var answers, trace := PerformAll(storage, between, t1, times);
    var b := storage.Contents();
    if first.Ok? && first.value.duplicateOf.None? {
      ReceiptLasts(storage.catalog, s, a, b, id, first.value, t1);
    }
    second := Operate(storage, again, id, t2);
    same := storage.Contents() == b;
  }
}
