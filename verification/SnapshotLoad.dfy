/**
  The resumable HPD snapshot load (app/ingestion/hpd_violations.py): full runs by
  violation id, delta runs by status date with an overlap, a checkpoint, a manifest,
  and commits between which the process may die.
 */
module SnapshotLoad {
  import opened Common
  import opened Ordering
  import opened ViolationTable
  import opened CommitBudget

  const OVERLAP_DAYS: Day := 14

  datatype Mode = Full | Delta

  datatype RequestedMode = Auto | Only(mode: Mode)

  /** The key of the last record of a page; a full run keeps only the id. */
  datatype PageKey = PageKey(status: Option<Day>, id: nat)

  datatype PageQuery = PageQuery(mode: Mode, key: Option<PageKey>, start: Day, size: nat)

  datatype Manifest = Manifest(mode: Mode, timestamp: int, queries: seq<PageQuery>, pages: seq<seq<Record>>)

  datatype Checkpoint = Checkpoint(
    mode: Mode,
    lastKey: Option<PageKey>,
    manifest: Option<Manifest>,
    sourceVersion: Option<nat>,
    complete: bool,
    watermark: Option<Day>)

  // ----- What a run reads

  ghost predicate UniqueIds(ds: set<Record>) {
    forall a, b | a in ds && b in ds && a.id == b.id :: a == b
  }

  predicate Precedes(mode: Mode, a: Record, b: Record) {
    match mode
    case Full => a.id < b.id
    case Delta =>
      && a.status.Some? && b.status.Some?
      && (a.status.value < b.status.value || (a.status == b.status && a.id < b.id))
  }

  function Order(mode: Mode): (Record, Record) -> bool {
    (a, b) => Precedes(mode, a, b)
  }

  /** The records a run is about: all of them, or those with a recent status. */
  function Scope(ds: set<Record>, mode: Mode, start: Day): set<Record> {
    match mode
    case Full => ds
    case Delta => set r | r in ds && r.status.Some? && r.status.value >= start
  }

  /** The records a page URL selects. */
  function Selected(ds: set<Record>, q: PageQuery): set<Record> {
    match q.mode
    case Full => set r | r in ds && (q.key.Some? ==> r.id > q.key.value.id)
    case Delta =>
      if q.key.Some? && q.key.value.status.Some? then
        var key := q.key.value;
        set r | r in ds && r.status.Some? &&
                (r.status.value > key.status.value || (r.status == key.status && r.id > key.id))
      else
        set r | r in ds && r.status.Some? && r.status.value >= q.start
  }

  function KeyOf(mode: Mode, r: Record): PageKey {
    PageKey(if mode == Full then None else r.status, r.id)
  }

  lemma OrderIsTotal(ds: set<Record>, mode: Mode)
    requires UniqueIds(ds)
    requires mode == Delta ==> forall r | r in ds :: r.status.Some?
    ensures StrictTotal(Order(mode), ds)
  {
  }

  /** The publisher's answer to a page URL. */
  function Fetched(ds: set<Record>, q: PageQuery): seq<Record>
    requires UniqueIds(ds)
  {
    OrderIsTotal(Selected(ds, q), q.mode);
    var all := Sorted(Order(q.mode), Selected(ds, q));
    all[..Min(q.size, |all|)]
  }

  /** The specification of a run: its scope, sorted once. */
  function Listing(ds: set<Record>, mode: Mode, start: Day): seq<Record>
    requires UniqueIds(ds)
  {
    OrderIsTotal(Scope(ds, mode, start), mode);
    Sorted(Order(mode), Scope(ds, mode, start))
  }

  function KeyAfter(mode: Mode, done: seq<Record>): Option<PageKey> {
    if done == [] then None else Some(KeyOf(mode, done[|done| - 1]))
  }

  lemma SelectedBeyond(ds: set<Record>, mode: Mode, start: Day, last: Record, q: PageQuery, r: Record)
    requires last in Scope(ds, mode, start)
    requires q.mode == mode && q.key == Some(KeyOf(mode, last))
    ensures r in Selected(ds, q) <==> r in Scope(ds, mode, start) && Order(mode)(last, r)
  {
  }

  lemma ListedInScope(ds: set<Record>, mode: Mode, start: Day, k: nat)
    requires UniqueIds(ds) && k < |Listing(ds, mode, start)|
    ensures Listing(ds, mode, start)[k] in Scope(ds, mode, start)
    ensures forall j | k < j < |Listing(ds, mode, start)| :: Listing(ds, mode, start)[k] != Listing(ds, mode, start)[j]
  {
    var scope := Scope(ds, mode, start);
    OrderIsTotal(scope, mode);
    SortedLists(Order(mode), scope);
    assert Listing(ds, mode, start)[k] in Listing(ds, mode, start);
  }

  lemma SelectedListing(ds: set<Record>, mode: Mode, start: Day, n: nat, q: PageQuery)
    requires UniqueIds(ds) && 0 < n <= |Listing(ds, mode, start)|
    requires q.mode == mode && q.key == Some(KeyOf(mode, Listing(ds, mode, start)[n - 1]))
    ensures StrictTotal(Order(mode), Selected(ds, q))
    ensures Sorted(Order(mode), Selected(ds, q)) == Listing(ds, mode, start)[n..]
  {
    var scope, last := Scope(ds, mode, start), Listing(ds, mode, start)[n - 1];
    ListedInScope(ds, mode, start, n - 1);
    forall r ensures r in Selected(ds, q) <==> r in scope && Order(mode)(last, r) {
      SelectedBeyond(ds, mode, start, last, q, r);
    }
    OrderIsTotal(scope, mode);
    SortedAfter(Order(mode), scope, n - 1, Selected(ds, q));
  }

  /** A page fetched after the first `n` records of the listing is the next stretch of it. */
  lemma FetchedContinues(ds: set<Record>, mode: Mode, start: Day, n: nat, q: PageQuery)
    requires UniqueIds(ds) && n <= |Listing(ds, mode, start)|
    requires q.mode == mode && q.key == KeyAfter(mode, Listing(ds, mode, start)[..n])
    requires n == 0 ==> q.start == start
    ensures var all := Listing(ds, mode, start);
            Fetched(ds, q) == all[n..Min(n + q.size, |all|)]
  {
    if n == 0 {
      assert Selected(ds, q) == Scope(ds, mode, start);
    } else {
      SelectedListing(ds, mode, start, n, q);
    }
  }

  // ----- How far a run has come

  /** The recorded pages are a prefix of the listing, none is empty, and the key points behind them. */
  ghost predicate Scanned(ds: set<Record>, mode: Mode, start: Day, pages: seq<seq<Record>>, key: Option<PageKey>)
    requires UniqueIds(ds)
  {
    && Flatten(pages) <= Listing(ds, mode, start)
    && (forall i | 0 <= i < |pages| :: pages[i] != [])
    && key == KeyAfter(mode, Flatten(pages))
    && (mode == Full && key.Some? ==> key.value.status.None?)
  }

  /** Every recorded page is what its recorded query fetches. */
  ghost predicate RecordsQueries(ds: set<Record>, m: Manifest)
    requires UniqueIds(ds)
  {
    |m.queries| == |m.pages| && forall i | 0 <= i < |m.pages| :: m.pages[i] == Fetched(ds, m.queries[i])
  }

  lemma ScannedInDataset(ds: set<Record>, mode: Mode, start: Day, pages: seq<seq<Record>>)
    requires UniqueIds(ds) && Flatten(pages) <= Listing(ds, mode, start)
    ensures forall r | r in Flatten(pages) :: r in Scope(ds, mode, start)
    ensures Flatten(pages) == Listing(ds, mode, start) ==> forall r | r in Scope(ds, mode, start) :: r in Flatten(pages)
  {
    OrderIsTotal(Scope(ds, mode, start), mode);
    SortedLists(Order(mode), Scope(ds, mode, start));
    assert forall r | r in Flatten(pages) :: r in Listing(ds, mode, start);
  }

  lemma ScannedNext(ds: set<Record>, mode: Mode, start: Day, pages: seq<seq<Record>>, q: PageQuery)
    requires UniqueIds(ds) && Scanned(ds, mode, start, pages, q.key)
    requires q.mode == mode && q.size >= 1 && (q.key.None? ==> q.start == start)
    ensures var page := Fetched(ds, q);
            if page == [] then Flatten(pages) == Listing(ds, mode, start)
            else
              && Scanned(ds, mode, start, pages + [page], Some(KeyOf(mode, page[|page| - 1])))
              && |Flatten(pages)| < |Flatten(pages + [page])|
                 == Min(|Flatten(pages)| + q.size, |Listing(ds, mode, start)|)
  {
    var all := Listing(ds, mode, start);
    var done := Flatten(pages);
    assert all[..|done|] == done;
    FetchedContinues(ds, mode, start, |done|, q);
    FlattenSnoc(pages, Fetched(ds, q));
  }

  lemma {:induction false} FlattenHas<T>(parts: seq<seq<T>>, i: nat, x: T)
    requires i < |parts| && x in parts[i]
    ensures x in Flatten(parts)
  {
    if i > 0 {
      FlattenHas(parts[1..], i - 1, x);
    }
  }

  lemma LongerFlatten<T>(a: seq<seq<T>>, b: seq<seq<T>>)
    requires a <= b
    ensures |Flatten(a)| <= |Flatten(b)|
  {
    assert b == a + b[|a|..];
    FlattenAppend(a, b[|a|..]);
  }

  ghost predicate NoRepeats<T>(xs: seq<T>) {
    forall i, j | 0 <= i < j < |xs| :: xs[i] != xs[j]
  }

  lemma {:induction false} PartsAreDisjoint<T>(parts: seq<seq<T>>, i: nat, j: nat, x: T)
    requires NoRepeats(Flatten(parts)) && i < j < |parts| && x in parts[i]
    ensures x !in parts[j]
  {
    var rest := Flatten(parts[1..]);
    if i > 0 {
      assert NoRepeats(rest) by {
        forall a, b | 0 <= a < b < |rest| ensures rest[a] != rest[b] {
          assert rest[a] == Flatten(parts)[|parts[0]| + a] && rest[b] == Flatten(parts)[|parts[0]| + b];
        }
      }
      PartsAreDisjoint(parts[1..], i - 1, j - 1, x);
    } else {
      var a :| 0 <= a < |parts[0]| && parts[0][a] == x;
      assert Flatten(parts)[a] == x;
      forall y | y in parts[j] ensures y != x {
        FlattenHas(parts[1..], j - 1, y);
        var b :| 0 <= b < |rest| && rest[b] == y;
        assert Flatten(parts)[|parts[0]| + b] == y;
      }
    }
  }

  /** No page is recorded twice: different pages share no record. */
  lemma PagesAreDisjoint(ds: set<Record>, mode: Mode, start: Day, pages: seq<seq<Record>>, i: nat, j: nat)
    requires UniqueIds(ds) && Flatten(pages) <= Listing(ds, mode, start)
    requires i < j < |pages|
    ensures forall r | r in pages[i] :: r !in pages[j]
  {
    var all := Listing(ds, mode, start);
    forall a, b | 0 <= a < b < |Flatten(pages)| ensures Flatten(pages)[a] != Flatten(pages)[b] {
      ListedInScope(ds, mode, start, a);
      assert all[a] == Flatten(pages)[a] && all[b] == Flatten(pages)[b];
    }
    forall r | r in pages[i] ensures r !in pages[j] {
      PartsAreDisjoint(pages, i, j, r);
    }
  }

  // ----- Agreement of the table with the dataset

  /** Every record of `rows` is in the table, as the publisher has it. */
  ghost predicate Holds(table: Table, rows: set<Record>) {
    forall r | r in rows :: r.id in table && table[r.id] == r
  }

  /** Rows only ever change into records of `ds`, and none is deleted. */
  ghost predicate MovesTowards(before: Table, after: Table, ds: set<Record>) {
    && before.Keys <= after.Keys
    && forall id | id in after :: (id in before && after[id] == before[id]) || (after[id] in ds && after[id].id == id)
  }

  lemma HoldsKept(before: Table, after: Table, ds: set<Record>, rows: set<Record>)
    requires UniqueIds(ds) && rows <= ds && Holds(before, rows) && MovesTowards(before, after, ds)
    ensures Holds(after, rows)
  {
  }

  /** What was outside the scope and agreed still does, so everything agrees. */
  lemma FinishedAgrees(before: Table, after: Table, ds: set<Record>, mode: Mode, start: Day)
    requires UniqueIds(ds) && MovesTowards(before, after, ds) && Holds(after, Scope(ds, mode, start))
    ensures mode == Full ==> Holds(after, ds)
    ensures Holds(before, ds - Scope(ds, mode, start)) ==> Holds(after, ds)
  {
    if Holds(before, ds - Scope(ds, mode, start)) {
      HoldsKept(before, after, ds, ds - Scope(ds, mode, start));
    }
  }

  lemma MovesTransitively(a: Table, b: Table, c: Table, ds: set<Record>)
    requires MovesTowards(a, b, ds) && MovesTowards(b, c, ds)
    ensures MovesTowards(a, c, ds)
  {
  }

  lemma UpsertMoves(table: Table, page: seq<Record>, ds: set<Record>)
    requires UniqueIds(ds) && DistinctIds(page) && forall r | r in page :: r in ds
    ensures MovesTowards(table, Upserted(table, page), ds)
    ensures Holds(Upserted(table, page), set r | r in page)
  {
    UpsertedKeys(table, page);
    forall i | 0 <= i < |page|
      ensures page[i].id in Upserted(table, page) && Upserted(table, page)[page[i].id] == page[i]
    {
      UpsertedHolds(table, page, i);
    }
  }

  lemma ListedRecords(rows: set<Record>, mode: Mode, all: seq<Record>)
    requires Lists(Order(mode), rows, all) && UniqueIds(rows)
    ensures forall r | r in all :: r in rows
    ensures DistinctIds(all)
  {
    forall i, j | 0 <= i < j < |all| ensures all[i].id != all[j].id {
      assert Order(mode)(all[i], all[j]) && all[i] in all && all[j] in all;
    }
  }

  /** A page of the listing consists of records of the dataset with different ids. */
  lemma PageOfDataset(ds: set<Record>, q: PageQuery)
    requires UniqueIds(ds)
    ensures DistinctIds(Fetched(ds, q)) && forall r | r in Fetched(ds, q) :: r in ds
  {
    var rows := Selected(ds, q);
    OrderIsTotal(rows, q.mode);
    SortedLists(Order(q.mode), rows);
    var all := Sorted(Order(q.mode), rows);
    ListedRecords(rows, q.mode, all);
    assert forall r | r in Fetched(ds, q) :: r in all;
  }

  // ----- Mode and watermark

  /** `auto` continues with a delta only after a completed run; without a watermark every run is full. */
  function ResolveMode(checkpoint: Option<Checkpoint>, requested: RequestedMode): Mode {
    var wanted := match requested
                  case Auto => if checkpoint.Some? && checkpoint.value.complete then Delta else Full
                  case Only(mode) => mode;
    if wanted == Delta && (checkpoint.None? || checkpoint.value.watermark.None?) then Full else wanted
  }

  predicate Resuming(checkpoint: Option<Checkpoint>, mode: Mode) {
    checkpoint.Some? && !checkpoint.value.complete && checkpoint.value.mode == mode
  }

  /**
    After an interruption `auto` continues the run exactly when that was a full one; a delta starts
    over as a full run.
   */
  lemma AutoResumesOnlyFull(cp: Checkpoint)
    requires !cp.complete
    ensures ResolveMode(Some(cp), Auto) == Full
    ensures Resuming(Some(cp), ResolveMode(Some(cp), Auto)) <==> cp.mode == Full
  {
  }

  /** After a completed run `auto` loads the changes since its watermark, or everything if it left none. */
  lemma AutoFollows(cp: Checkpoint)
    requires cp.complete
    ensures ResolveMode(Some(cp), Auto) == Delta <==> cp.watermark.Some?
    ensures !Resuming(Some(cp), ResolveMode(Some(cp), Auto))
  {
  }

  /** A first run is full, and a requested mode is obeyed except for a delta without a watermark. */
  lemma RequestedModes(checkpoint: Option<Checkpoint>, mode: Mode)
    ensures ResolveMode(None, Auto) == Full
    ensures ResolveMode(checkpoint, Only(Full)) == Full
    ensures ResolveMode(checkpoint, Only(Delta)) == Delta <==> checkpoint.Some? && checkpoint.value.watermark.Some?
  {
  }

  /** Where the scope of a run begins: only a delta run looks at it. */
  function StartFrom(watermark: Option<Day>): Day {
    if watermark.Some? then watermark.value - OVERLAP_DAYS else 0
  }

  /** The records a delta run leaves alone: without a status date, or with one over 14 days before the watermark. */
  ghost function Settled(ds: set<Record>, watermark: Day): set<Record> {
    set r | r in ds && (r.status.None? || r.status.value < watermark - 14)
  }

  lemma DeltaScope(ds: set<Record>, watermark: Day)
    ensures Scope(ds, Delta, StartFrom(Some(watermark))) == ds - Settled(ds, watermark)
    ensures ds - Scope(ds, Delta, StartFrom(Some(watermark))) == Settled(ds, watermark)
  {
  }

  function StartOf(cp: Checkpoint): Day {
    StartFrom(cp.watermark)
  }

  ghost predicate IsLatestStatus(table: Table, latest: Option<Day>) {
    match latest
    case None => forall id | id in table :: table[id].status.None?
    case Some(day) =>
      && (exists id :: id in table && table[id].status == latest)
      && forall id | id in table && table[id].status.Some? :: table[id].status.value <= day
  }

  method LatestStatus(table: Table) returns (latest: Option<Day>)
    ensures IsLatestStatus(table, latest)
  {
    latest := None;
    var left := table.Keys;
    while left != {}
      invariant left <= table.Keys
      invariant latest.Some? ==> exists id :: id in table && table[id].status == latest
      invariant forall id | id in table && id !in left && table[id].status.Some? ::
                  latest.Some? && table[id].status.value <= latest.value
      decreases |left|
    {
      var id :| id in left;
      var status := table[id].status;
      if status.Some? && (latest.None? || status.value > latest.value) {
        latest := status;
      }
      left := left - {id};
    }
  }

  /** The source version of a run that is resumed. */
  function OwnVersion(checkpoint: Option<Checkpoint>, mode: Mode): Option<nat> {
    if Resuming(checkpoint, mode) then checkpoint.value.sourceVersion else None
  }

  /** Source versions are never lost, and only that of the run may get another manifest. */
  ghost predicate KeepsVersions(before: map<nat, Manifest>, after: map<nat, Manifest>, own: Option<nat>) {
    before.Keys <= after.Keys && forall id | id in before && own != Some(id) :: after[id] == before[id]
  }

  /** A run has the source version it was resumed with, or one that was not there before. */
  ghost predicate VersionIsNew(own: Option<nat>, was: Option<nat>, before: map<nat, Manifest>) {
    own.None? || own == was || own.value !in before
  }

  lemma VersionsKept(before: map<nat, Manifest>, middle: map<nat, Manifest>, after: map<nat, Manifest>,
                     was: Option<nat>, own: Option<nat>)
    requires KeepsVersions(before, middle, None) && VersionIsNew(own, was, before)
    ensures KeepsVersions(before, middle, was) && VersionIsNew(None, was, before)
    ensures KeepsVersions(middle, after, own) ==> KeepsVersions(before, after, was)
  {
  }

  /** The commits a run makes before its first page: a checkpoint, a source version, and both together. */
  function BeginCommits(checkpoint: Option<Checkpoint>, mode: Mode): nat {
    if !Resuming(checkpoint, mode) then 3 else if checkpoint.value.sourceVersion.None? then 2 else 0
  }

  /** The page loop after some turns: a full page for every two commits, until nothing is left. */
  ghost predicate Reading(all: nat, done: nat, now: nat, size: nat, commits: nat, budget: int, turns: nat) {
    && done <= all && budget == commits - 2 * turns >= 0
    && (turns > 0 ==> size * (turns - 1) < all - done) && now == Min(all, done + size * turns)
  }

  lemma ReadingStarts(all: nat, done: nat, size: nat, commits: nat)
    requires done <= all
    ensures Reading(all, done, done, size, commits, commits, 0)
  {
  }

  lemma ReadingNext(all: nat, done: nat, now: nat, size: nat, commits: nat, budget: int, turns: nat)
    requires Reading(all, done, now, size, commits, budget, turns) && now < all && budget >= 2
    ensures Reading(all, done, Min(now + size, all), size, commits, budget - 2, turns + 1)
  {
    assert size * (turns + 1) == size * turns + size;
  }

  lemma ReadingEnds(all: nat, done: nat, now: nat, size: nat, commits: nat, budget: int, turns: nat, exhausted: bool)
    requires size >= 1 && Reading(all, done, now, size, commits, budget, turns)
    requires if exhausted then now == all else now < all && budget < 2
    ensures done <= all && now == Min(all, done + size * (commits / 2))
    ensures if exhausted then budget == commits - 2 * Batches(all - done, size)
            else commits < 2 * Batches(all - done, size)
  {
    TurnsMade(all - done, size, commits, turns, exhausted);
  }

  // ----- The loader

  /** How one turn of the page loop ends. */
  datatype Turn = Recorded | Exhausted | Died

  class HpdLoader {
    var table: Table
    var checkpoint: Option<Checkpoint>
    /** Stored manifest files; a manifest URI is the hash of its content. */
    var manifests: set<Manifest>
    /** The manifest each source version points at. */
    var versions: map<nat, Manifest>

    constructor (table: Table)
      ensures this.table == table && checkpoint == None && manifests == {} && versions == map[]
    {
      this.table, checkpoint, manifests, versions := table, None, {}, map[];
    }

    /** An interrupted run can be continued: what its manifest records has been written. */
    ghost predicate Resumable(ds: set<Record>, cp: Checkpoint)
      requires UniqueIds(ds)
      reads this
    {
      && (cp.mode == Delta ==> cp.watermark.Some?)
      && (cp.sourceVersion.None? ==> cp.manifest.None?)
      && (cp.sourceVersion.Some? ==> cp.manifest.Some? && cp.sourceVersion.value in versions)
      && (cp.manifest.Some? ==>
            && cp.manifest.value in manifests && cp.manifest.value.mode == cp.mode
            && RecordsQueries(ds, cp.manifest.value))
      && var pages := if cp.manifest.Some? then cp.manifest.value.pages else [];
      && Scanned(ds, cp.mode, StartOf(cp), pages, cp.lastKey)
      && Holds(table, set r | r in Flatten(pages))
    }

    /** Between runs of `mode` over `ds`: a checkpoint the next one would resume is one that `ds` can continue. */
    ghost predicate Consistent(ds: set<Record>, mode: Mode)
      requires UniqueIds(ds)
      reads this
    {
      Resuming(checkpoint, mode) ==> Resumable(ds, checkpoint.value)
    }

    /** A finished run: its manifest is the whole listing, and the listing is in the table. */
    ghost predicate Finished(ds: set<Record>, mode: Mode, start: Day)
      requires UniqueIds(ds)
      reads this
    {
      && checkpoint.Some? && checkpoint.value.complete && checkpoint.value.mode == mode
      && checkpoint.value.lastKey == None
      && checkpoint.value.manifest.Some?
      && var m := checkpoint.value.manifest.value;
      && m in manifests
      && checkpoint.value.sourceVersion.Some?
      && checkpoint.value.sourceVersion.value in versions
      && versions[checkpoint.value.sourceVersion.value] == m
      && Flatten(m.pages) == Listing(ds, mode, start) && RecordsQueries(ds, m)
      && (forall i | 0 <= i < |m.pages| :: m.pages[i] != [])
      && Holds(table, Scope(ds, mode, start))
    }

    /** A run of `mode` is under way: incomplete, resumable, and attached to a source version. */
    ghost predicate Running(ds: set<Record>, mode: Mode)
      requires UniqueIds(ds)
      reads this
    {
      && checkpoint.Some? && !checkpoint.value.complete && checkpoint.value.mode == mode
      && checkpoint.value.sourceVersion.Some?
      && Resumable(ds, checkpoint.value)
    }

    function Watermark(): Option<Day>
      reads this
    {
      if checkpoint.Some? then checkpoint.value.watermark else None
    }

    /**
      The beginning of a run: the checkpoint is created, reset or kept, and a
      provisional source version is attached. Dies after `commits` commits.
     */
    method Begin(ds: set<Record>, requested: RequestedMode, now: int, commits: nat)
      returns (mode: Mode, left: Option<nat>)
      requires UniqueIds(ds) && Consistent(ds, ResolveMode(checkpoint, requested))
      modifies this`checkpoint, this`manifests, this`versions
      ensures Consistent(ds, mode) && mode == ResolveMode(old(checkpoint), requested)
      ensures Watermark() == old(Watermark())
      ensures left.Some? ==> Running(ds, mode)
      ensures Resuming(old(checkpoint), mode) ==> Resuming(checkpoint, mode) && PagesSoFar() == old(PagesSoFar())
      ensures Resuming(old(checkpoint), mode) && left.None? ==> checkpoint == old(checkpoint)
      ensures !Resuming(old(checkpoint), mode) ==>
                if commits == 0 then checkpoint == old(checkpoint) else Resuming(checkpoint, mode) && PagesSoFar() == []
      ensures old(checkpoint).Some? ==> checkpoint.Some?
      ensures old(manifests) <= manifests && KeepsVersions(old(versions), versions, None)
      ensures VersionIsNew(OwnVersion(checkpoint, mode), OwnVersion(old(checkpoint), mode), old(versions))
      ensures var needed := BeginCommits(old(checkpoint), mode);
              left == if commits >= needed then Some(commits - needed) else None
    {
      mode := ResolveMode(checkpoint, requested);
      left := None;
      var budget := commits;
      if !Resuming(checkpoint, mode) {
        if budget == 0 {
          return;
        }
        budget := budget - 1;
        checkpoint := Some(Checkpoint(mode, None, None, None, false, Watermark()));
      }
      var cp := checkpoint.value;
      if cp.sourceVersion.None? {
        var manifest := Manifest(mode, now, [], []);
        manifests := manifests + {manifest};
        if budget == 0 {
          return;
        }
        ghost var unused := FreshId(versions.Keys);
        var id: nat :| id !in versions.Keys;
        versions := versions[id := manifest];
        if budget == 1 {
          return;
        }
        budget := budget - 2;
        checkpoint := Some(cp.(sourceVersion := Some(id), manifest := Some(manifest)));
      }
      left := Some(budget);
    }

    ghost function PagesSoFar(): seq<seq<Record>>
      reads this
    {
      if checkpoint.Some? && checkpoint.value.manifest.Some? then checkpoint.value.manifest.value.pages else []
    }

    /**
      One turn of the page loop. The upsert is committed before the checkpoint that
      records the page, so a death in between repeats the page.
     */
    method LoadPage(ds: set<Record>, mode: Mode, size: nat, commits: nat) returns (r: Turn)
      requires UniqueIds(ds) && Running(ds, mode) && size >= 1
      modifies this`table, this`checkpoint, this`manifests
      ensures Running(ds, mode) && MovesTowards(old(table), table, ds)
      ensures checkpoint.value.watermark == old(checkpoint).value.watermark
      ensures checkpoint.value.sourceVersion == old(checkpoint).value.sourceVersion
      ensures old(PagesSoFar()) <= PagesSoFar() && old(manifests) <= manifests
      ensures r != Recorded ==> checkpoint == old(checkpoint)
      ensures r == Died ==> commits < 2 && |Flatten(PagesSoFar())| < |Listing(ds, mode, StartOf(checkpoint.value))|
      ensures r == Exhausted ==> Flatten(PagesSoFar()) == Listing(ds, mode, StartOf(checkpoint.value))
      ensures r == Recorded ==>
                var all, done := |Listing(ds, mode, StartOf(checkpoint.value))|, |Flatten(old(PagesSoFar()))|;
                commits >= 2 && done < |Flatten(PagesSoFar())| == Min(done + size, all)
                && |PagesSoFar()| == |old(PagesSoFar())| + 1
    {
      hide Listing, Fetched, Holds;
      var cp := checkpoint.value;
      var manifest := cp.manifest.value;
      var query := PageQuery(mode, cp.lastKey, StartOf(cp), size);
      var records := Fetched(ds, query);
      ScannedNext(ds, mode, StartOf(cp), manifest.pages, query);
      if records == [] {
        return Exhausted;
      }
      if commits == 0 {
        return Died;
      }
      ScannedInDataset(ds, mode, StartOf(cp), manifest.pages);
      table := WriteRecords(ds, query, records, manifest.pages);
      var longer := manifest.(queries := manifest.queries + [query], pages := manifest.pages + [records]);
      manifests := manifests + {longer};
      if commits == 1 {
        return Died;
      }
      checkpoint := Some(cp.(lastKey := Some(KeyOf(mode, records[|records| - 1])), manifest := Some(longer)));
      r := Recorded;
    }

    /** The committed upsert of one page. */
    method WriteRecords(ds: set<Record>, query: PageQuery, records: seq<Record>, ghost pages: seq<seq<Record>>)
      returns (written: Table)
      requires UniqueIds(ds) && records == Fetched(ds, query)
      requires (forall r | r in Flatten(pages) :: r in ds) && Holds(table, set r | r in Flatten(pages))
      ensures MovesTowards(table, written, ds)
      ensures Holds(written, set r | r in Flatten(pages))
      ensures Holds(written, set r | r in Flatten(pages + [records]))
    {
      var created, updated;
      written, created, updated := UpsertEach(table, records);
      PageOfDataset(ds, query);
      UpsertMoves(table, records, ds);
      HoldsKept(table, written, ds, set r | r in Flatten(pages));
      FlattenSnoc(pages, records);
    }

    lemma WithinListing(ds: set<Record>, mode: Mode)
      requires UniqueIds(ds) && Running(ds, mode)
      ensures |Flatten(PagesSoFar())| <= |Listing(ds, mode, StartOf(checkpoint.value))|
      ensures MovesTowards(table, table, ds)
    {
    }

    /** The page loop, dying after `commits` commits. */
    method LoadPages(ds: set<Record>, mode: Mode, size: nat, commits: nat) returns (left: Option<nat>)
      requires UniqueIds(ds) && Running(ds, mode) && size >= 1
      modifies this`table, this`checkpoint, this`manifests
      ensures Running(ds, mode) && MovesTowards(old(table), table, ds)
      ensures checkpoint.value.watermark == old(checkpoint).value.watermark
      ensures checkpoint.value.sourceVersion == old(checkpoint).value.sourceVersion
      ensures old(PagesSoFar()) <= PagesSoFar() && old(manifests) <= manifests
      ensures left.Some? ==> Flatten(PagesSoFar()) == Listing(ds, mode, StartOf(checkpoint.value))
      ensures var all, done := |Listing(ds, mode, StartOf(checkpoint.value))|, |Flatten(old(PagesSoFar()))|;
              && done <= all && |Flatten(PagesSoFar())| == Min(all, done + size * (commits / 2))
              && var needed := 2 * Batches(all - done, size);
              && left == if commits >= needed then Some(commits - needed) else None
    {
      hide Listing, Scanned, RecordsQueries, MovesTowards, Reading;
      var budget: int := commits;
      ghost var all := Listing(ds, mode, StartOf(checkpoint.value));
      ghost var done, turns := |Flatten(PagesSoFar())|, 0;
      WithinListing(ds, mode);
      ReadingStarts(|all|, done, size, commits);
      var turn := Recorded;
      while turn == Recorded
        invariant Running(ds, mode) && MovesTowards(old(table), table, ds) && budget >= 0
        invariant checkpoint.value.watermark == old(checkpoint).value.watermark
        invariant checkpoint.value.sourceVersion == old(checkpoint).value.sourceVersion
        invariant old(PagesSoFar()) <= PagesSoFar() && old(manifests) <= manifests
        invariant turn == Exhausted ==> Flatten(PagesSoFar()) == all
        invariant Reading(|all|, done, |Flatten(PagesSoFar())|, size, commits, budget, turns)
        invariant turn == Died ==> budget < 2 && |Flatten(PagesSoFar())| < |all|
        decreases turn == Recorded, |all| - |Flatten(PagesSoFar())|
      {
        ghost var before, now := table, |Flatten(PagesSoFar())|;
        turn := LoadPage(ds, mode, size, budget);
        MovesTransitively(old(table), before, table, ds);
        if turn == Recorded {
          ReadingNext(|all|, done, now, size, commits, budget, turns);
          budget, turns := budget - 2, turns + 1;
        }
      }
      ReadingEnds(|all|, done, |Flatten(PagesSoFar())|, size, commits, budget, turns, turn == Exhausted);
      left := if turn == Exhausted then Some(budget) else None;
    }

    /** The end of a run: one commit publishes the manifest, the watermark and completion together. */
    method Finish(ds: set<Record>, mode: Mode)
      requires UniqueIds(ds) && Running(ds, mode)
      requires Flatten(PagesSoFar()) == Listing(ds, mode, StartOf(checkpoint.value))
      modifies this`checkpoint, this`versions
      ensures Finished(ds, mode, StartOf(old(checkpoint).value)) && PagesSoFar() == old(PagesSoFar())
      ensures LatestWatermark(old(checkpoint).value.watermark)
      ensures KeepsVersions(old(versions), versions, old(checkpoint).value.sourceVersion)
    {
      var cp := checkpoint.value;
      var latest := LatestStatus(table);
      ScannedInDataset(ds, mode, StartOf(cp), cp.manifest.value.pages);
      versions := versions[cp.sourceVersion.value := cp.manifest.value];
      checkpoint := Some(cp.(lastKey := None, complete := true,
                             watermark := if latest.Some? then latest else cp.watermark));
    }

    /** `load_hpd_violations_snapshot`, dying after `commits` commits. */
    method Load(ds: set<Record>, requested: RequestedMode, size: nat, now: int, commits: nat)
      returns (finished: bool, mode: Mode)
      requires UniqueIds(ds) && Consistent(ds, ResolveMode(checkpoint, requested)) && size >= 1
      modifies this
      ensures Consistent(ds, mode) && MovesTowards(old(table), table, ds)
      ensures mode == ResolveMode(old(checkpoint), requested)
      ensures finished ==> Finished(ds, mode, StartFrom(old(Watermark())))
      ensures !finished ==> Watermark() == old(Watermark())
      ensures Resuming(old(checkpoint), mode) ==> old(PagesSoFar()) <= PagesSoFar()
      ensures !finished && commits > 0 ==> Resuming(checkpoint, mode)
      ensures !finished && Resuming(old(checkpoint), mode) ==> Resuming(checkpoint, mode)
      ensures Progresses(|Listing(ds, mode, StartFrom(old(Watermark())))|, old(Progress(mode)), Progress(mode), size,
                         commits, BeginCommits(old(checkpoint), mode), finished)
      ensures finished ==> LatestWatermark(old(Watermark()))
      ensures old(manifests) <= manifests
      ensures KeepsVersions(old(versions), versions, OwnVersion(old(checkpoint), mode))
      ensures VersionIsNew(OwnVersion(checkpoint, mode), OwnVersion(old(checkpoint), mode), old(versions))
    {
      hide Listing, Scanned, RecordsQueries, Batches, KeepsVersions, VersionIsNew, Holds;
      var left;
      finished := false;
      ghost var before, was := versions, OwnVersion(checkpoint, ResolveMode(checkpoint, requested));
      mode, left := Begin(ds, requested, now, commits);
      ghost var begun, own := versions, OwnVersion(checkpoint, mode);
      VersionsKept(before, begun, begun, was, own);
      if left.None? {
        return;
      }
      left := LoadPages(ds, mode, size, left.value);
      if left.None? || left.value == 0 {
        return;
      }
      Finish(ds, mode);
      VersionsKept(before, begun, versions, was, own);
      finished := true;
    }

    /**
      How far a run gets: with enough commits for the beginning, two for every page and one for the end
      it finishes; with fewer it has recorded a full page for every two commits after the beginning.
     */
    ghost predicate Progresses(all: nat, before: nat, after: nat, size: nat, commits: nat, begin: nat, finished: bool)
      requires size >= 1
    {
      && before <= all && (finished <==> commits >= begin + 2 * Batches(all - before, size) + 1)
      && (!finished ==> after == if commits < begin then before else Min(all, before + size * ((commits - begin) / 2)))
    }

    /** How many records the manifest of the run of `mode` records so far. */
    ghost function Progress(mode: Mode): nat
      reads this
    {
      if Resuming(checkpoint, mode) then |Flatten(PagesSoFar())| else 0
    }

    lemma ProgressWithin(ds: set<Record>, mode: Mode)
      requires UniqueIds(ds) && Consistent(ds, mode)
      ensures Progress(mode) <= |Listing(ds, mode, StartFrom(Watermark()))|
    {
    }

    /** The watermark is the greatest status date of the table, or the old one if there is none. */
    ghost predicate LatestWatermark(was: Option<Day>)
      reads this
    {
      if IsLatestStatus(table, None) then Watermark() == was else IsLatestStatus(table, Watermark())
    }

    /** One attempt: it never falls back, and with six commits it finishes or gets ahead. */
    method Attempt(ds: set<Record>, mode: Mode, size: nat, now: int, commits: nat) returns (finished: bool)
      requires UniqueIds(ds) && Consistent(ds, mode) && size >= 1
      requires mode == Delta ==> Watermark().Some?
      modifies this
      ensures Consistent(ds, mode) && MovesTowards(old(table), table, ds)
      ensures Resuming(old(checkpoint), mode) ==>
                old(PagesSoFar()) <= PagesSoFar() && (finished || Resuming(checkpoint, mode))
      ensures finished ==> Finished(ds, mode, StartFrom(old(Watermark())))
      ensures !finished ==> Watermark() == old(Watermark())
      ensures finished ==> LatestWatermark(old(Watermark()))
      ensures old(manifests) <= manifests
      ensures KeepsVersions(old(versions), versions, OwnVersion(old(checkpoint), mode))
      ensures VersionIsNew(OwnVersion(checkpoint, mode), OwnVersion(old(checkpoint), mode), old(versions))
      ensures !finished ==> Progress(mode) >= old(Progress(mode)) + if commits >= 6 then 1 else 0
      ensures commits > 3 + 2 * |Listing(ds, mode, StartFrom(old(Watermark())))| ==> finished
    {
      ghost var all, before := |Listing(ds, mode, StartFrom(Watermark()))|, Progress(mode);
      ghost var begin, pages := BeginCommits(checkpoint, mode), PagesSoFar();
      var resolved;
      finished, resolved := Load(ds, Only(mode), size, now, commits);
      if pages <= PagesSoFar() {
        LongerFlatten(pages, PagesSoFar());
      }
      LongEnough(all, before, Progress(mode), size, commits, begin, finished);
    }

    /** Six commits finish a run or record more, and two for every record are always enough. */
    lemma LongEnough(all: nat, before: nat, after: nat, size: nat, commits: nat, begin: nat, finished: bool)
      requires size >= 1 && begin <= 3 && Progresses(all, before, after, size, commits, begin, finished)
      ensures !finished ==> after >= before + if commits >= 6 then 1 else 0
      ensures commits > 3 + 2 * all ==> finished
    {
      BatchesAtMost(all - before, size);
      if commits >= 6 && !finished {
        var turns := (commits - begin) / 2;
        MulGrows(size, 1, turns);
        BatchesAre(0, size, 0);
      }
    }

    /** Where a retried run stands after `n` attempts, seen from the loader `was` it started from. */
    ghost predicate Underway(ds: set<Record>, mode: Mode, was: Start, schedule: seq<nat>, n: nat, finished: bool)
      requires UniqueIds(ds) && n <= |schedule|
      reads this
    {
      && Consistent(ds, mode) && MovesTowards(was.table, table, ds)
      && was.manifests <= manifests && KeepsVersions(was.versions, versions, was.own)
      && VersionIsNew(OwnVersion(checkpoint, mode), was.own, was.versions)
      && (was.resumes ==> was.pages <= PagesSoFar() && (finished || Resuming(checkpoint, mode)))
      && (finished ==> Finished(ds, mode, StartFrom(was.watermark)) && LatestWatermark(was.watermark))
      && (!finished ==>
            && Watermark() == was.watermark
            && Progress(mode) >= was.progress + LongAttempts(schedule, n)
            && forall j | 0 <= j < n :: schedule[j] <= 3 + 2 * |Listing(ds, mode, StartFrom(was.watermark))|)
    }

    ghost function StartHere(mode: Mode): Start
      reads this
    {
      Start(table, Watermark(), PagesSoFar(), Resuming(checkpoint, mode), Progress(mode), manifests, versions,
            OwnVersion(checkpoint, mode))
    }

    /** The next attempt of a retried run. */
    method TryAgain(ds: set<Record>, mode: Mode, size: nat, now: int, ghost was: Start, schedule: seq<nat>, n: nat)
      returns (finished: bool)
      requires UniqueIds(ds) && size >= 1 && n < |schedule| && Underway(ds, mode, was, schedule, n, false)
      requires mode == Delta ==> was.watermark.Some?
      modifies this
      ensures Underway(ds, mode, was, schedule, n + 1, finished)
    {
      ghost var before := table;
      finished := Attempt(ds, mode, size, now, schedule[n]);
      MovesTransitively(was.table, before, table, ds);
    }

    /**
      A run that is started again after every death, with the same mode, until it
      finishes or the schedule of deaths is exhausted. Every attempt of at least six
      commits records more of the listing than the one before, so enough of them finish.
     */
    method RunUntilFinished(ds: set<Record>, mode: Mode, size: nat, now: int, schedule: seq<nat>)
        returns (finished: bool)
      requires UniqueIds(ds) && Consistent(ds, mode) && size >= 1
      requires mode == Delta ==> Watermark().Some?
      modifies this
      ensures Consistent(ds, mode) && MovesTowards(old(table), table, ds)
      ensures Resuming(old(checkpoint), mode) ==> old(PagesSoFar()) <= PagesSoFar()
      ensures finished ==> Finished(ds, mode, StartFrom(old(Watermark()))) && LatestWatermark(old(Watermark()))
      ensures !finished ==> Watermark() == old(Watermark())
      ensures old(manifests) <= manifests
      ensures KeepsVersions(old(versions), versions, OwnVersion(old(checkpoint), mode))
      ensures var size := |Listing(ds, mode, StartFrom(old(Watermark())))|;
              && (old(Progress(mode)) + LongAttempts(schedule, |schedule|) > size ==> finished)
              && ((exists i :: 0 <= i < |schedule| && schedule[i] > 3 + 2 * size) ==> finished)
      ensures finished && mode == Full ==> Holds(table, ds)
      ensures finished && mode == Delta && Holds(old(table), Settled(ds, old(Watermark()).value)) ==> Holds(table, ds)
      ensures finished ==> forall r :: r in Flatten(PagesSoFar()) <==>
                                         r in ds && (mode == Delta ==> r !in Settled(ds, old(Watermark()).value))
    {
      finished := false;
      var i := 0;
      ghost var was := StartHere(mode);
      while i < |schedule| && !finished
        invariant 0 <= i <= |schedule| && Underway(ds, mode, was, schedule, i, finished)
      {
        finished := TryAgain(ds, mode, size, now, was, schedule, i);
        i := i + 1;
      }
      ProgressWithin(ds, mode);
      if finished {
        FinishedAgrees(was.table, table, ds, mode, StartFrom(was.watermark));
        ScannedInDataset(ds, mode, StartFrom(was.watermark), PagesSoFar());
        if mode == Delta {
          DeltaScope(ds, was.watermark.value);
        }
      }
    }
  }

  /** What a retried run starts from. */
  datatype Start = Start(
    table: Table,
    watermark: Option<Day>,
    pages: seq<seq<Record>>,
    resumes: bool,
    progress: nat,
    manifests: set<Manifest>,
    versions: map<nat, Manifest>,
    own: Option<nat>)

  /** How many of the first `n` attempts make at least six commits: three to begin, two for a page, one to finish. */
  ghost function LongAttempts(schedule: seq<nat>, n: nat): nat
    requires n <= |schedule|
  {
    if n == 0 then 0 else LongAttempts(schedule, n - 1) + if schedule[n - 1] >= 6 then 1 else 0
  }
}
