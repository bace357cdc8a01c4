/**
  The complete property export (app/hpd/complete.py): a loop over cached pages that
  pins what it reads, removes repeated violations, and decides whether the result
  may be called complete.
 */
module CompleteExport {
  import opened Common
  import opened PropertyConnector
  import opened PropertyCache

  // ----- Combining pages

  function Ids(rows: seq<Row>): set<nat> {
    set row | row in rows :: row.id
  }

  lemma IdsSnoc(rows: seq<Row>, last: Row)
    ensures Ids(rows + [last]) == Ids(rows) + {last.id}
  {
    forall id | id in Ids(rows) + {last.id} ensures id in Ids(rows + [last]) {
      if id in Ids(rows) {
        var row :| row in rows && row.id == id;
        assert row in rows + [last];
      } else {
        assert last in rows + [last];
      }
    }
  }

  /** The rows whose id did not occur before, in order. */
  function KeepFirst(rows: seq<Row>): seq<Row> {
    if rows == [] then []
    else
      var kept, last := KeepFirst(rows[..|rows| - 1]), rows[|rows| - 1];
      if last.id in Ids(kept) then kept else kept + [last]
  }

  ghost predicate DistinctIds(rows: seq<Row>) {
    forall i, j | 0 <= i < j < |rows| :: rows[i].id != rows[j].id
  }

  lemma DistinctIdsSnoc(rows: seq<Row>, last: Row)
    requires DistinctIds(rows) && last.id !in Ids(rows)
    ensures DistinctIds(rows + [last])
  {
    assert forall i | 0 <= i < |rows| :: rows[i] in rows && rows[i].id in Ids(rows);
  }

  /** Every id survives, and only once. */
  lemma {:induction false} KeepFirstKeepsIds(rows: seq<Row>)
    ensures DistinctIds(KeepFirst(rows)) && Ids(KeepFirst(rows)) == Ids(rows)
  {
    if rows != [] {
      var front, last := rows[..|rows| - 1], rows[|rows| - 1];
      KeepFirstKeepsIds(front);
      assert rows == front + [last];
      IdsSnoc(front, last);
      if last.id !in Ids(KeepFirst(front)) {
        IdsSnoc(KeepFirst(front), last);
        DistinctIdsSnoc(KeepFirst(front), last);
      }
    }
  }

  /** The record kept under an id is the first one that was fetched. */
  lemma {:induction false} KeepFirstKeepsFirst(rows: seq<Row>, row: Row) returns (i: nat)
    requires row in KeepFirst(rows)
    ensures i < |rows| && rows[i] == row
    ensures row.id !in Ids(rows[..i])
  {
    var front, last := rows[..|rows| - 1], rows[|rows| - 1];
    if row in KeepFirst(front) {
      i := KeepFirstKeepsFirst(front, row);
      assert rows[..i] == front[..i];
    } else {
      i := |rows| - 1;
      KeepFirstKeepsIds(front);
    }
  }

  lemma {:induction false} KeepFirstOfDistinct(rows: seq<Row>)
    requires DistinctIds(rows)
    ensures KeepFirst(rows) == rows
  {
    if rows != [] {
      KeepFirstOfDistinct(rows[..|rows| - 1]);
      assert rows == rows[..|rows| - 1] + [rows[|rows| - 1]];
    }
  }

  lemma {:induction false} RowsOfAppend(a: seq<Page>, b: seq<Page>)
    ensures RowsOf(a + b) == RowsOf(a) + RowsOf(b)
  {
    if a == [] {
      assert a + b == b;
    } else {
      assert (a + b)[1..] == a[1..] + b;
      RowsOfAppend(a[1..], b);
    }
  }

  /** What one record more does. */
  lemma KeepFirstNext(before: seq<Row>, page: seq<Row>, j: nat)
    requires j < |page|
    ensures var kept := KeepFirst(before + page[..j]);
            KeepFirst(before + page[..j + 1]) == if page[j].id in Ids(kept) then kept else kept + [page[j]]
  {
    var longer := before + page[..j + 1];
    assert longer[..|longer| - 1] == before + page[..j];
  }

  /** The inner loop of `_combine`: `setdefault` for every record of one page. */
  method AddPage(records: seq<Row>, page: seq<Row>, ghost before: seq<Row>) returns (combined: seq<Row>)
    requires records == KeepFirst(before)
    ensures combined == KeepFirst(before + page)
  {
    hide KeepFirst, Ids;
    combined := records;
    assert before + page[..0] == before;
    for j := 0 to |page|
      invariant combined == KeepFirst(before + page[..j])
    {
      KeepFirstNext(before, page, j);
      if page[j].id !in Ids(combined) {
        combined := combined + [page[j]];
      }
    }
    assert page[..|page|] == page;
  }

  /** `_combine`: a dictionary that keeps the first record under each violation id. */
  method Combine(pages: seq<Page>) returns (records: seq<Row>)
    ensures records == KeepFirst(RowsOf(pages))
  {
    records := [];
    var i := 0;
    while i < |pages|
      invariant 0 <= i <= |pages|
      invariant records == KeepFirst(RowsOf(pages[..i]))
    {
      records := AddPage(records, pages[i].records, RowsOf(pages[..i]));
      RowsOfSnoc(pages[..i], pages[i]);
      assert pages[..i + 1] == pages[..i] + [pages[i]];
      i := i + 1;
    }
    assert pages[..i] == pages;
  }

  lemma RowsOfSnoc(pages: seq<Page>, page: Page)
    ensures RowsOf(pages + [page]) == RowsOf(pages) + page.records
  {
    RowsOfAppend(pages, [page]);
    assert RowsOf([page]) == page.records + RowsOf([]);
  }

  // ----- Following the chain

  lemma {:induction false} ChainSuffix(ds: set<Row>, q: PropertyQuery, i: nat)
    requires UniqueIds(ds) && Answer(ds, q).Ok? && i < |Chain(ds, q)|
    ensures var at := Chain(ds, q)[i].query;
            && Answer(ds, at).Ok? && Chain(ds, at) == Chain(ds, q)[i..]
            && at.identity == q.identity
            && (i > 0 ==> Left(ds, at) < Left(ds, q))
    decreases i
  {
    var page := Answer(ds, q).value;
    assert page.query == q;
    if i > 0 {
      NextContinues(ds, q, TargetOf(ds, q).number);
      ChainSuffix(ds, Next(q, page), i - 1);
    }
  }

  /** The i-th page answers its own query, and its continuation leads to the next page. */
  lemma ChainStep(ds: set<Row>, q: PropertyQuery, i: nat)
    requires UniqueIds(ds) && Answer(ds, q).Ok? && i < |Chain(ds, q)|
    ensures var pages := Chain(ds, q);
            && Answer(ds, pages[i].query) == Ok(pages[i])
            && pages[0].query == q
            && (pages[i].continuation.Some? <==> i + 1 < |pages|)
            && (i + 1 < |pages| ==> pages[i + 1].query == PropertyQuery(q.identity, pages[i].continuation))
  {
    ChainSuffix(ds, q, i);
    var at := Chain(ds, q)[i].query;
    assert Chain(ds, at)[0] == Chain(ds, q)[i];
    if Answer(ds, at).value.continuation.Some? {
      NextContinues(ds, at, TargetOf(ds, at).number);
      assert Chain(ds, at)[1] == Chain(ds, q)[i + 1];
    }
  }

  /** Every page has its own query, so storing one page never replaces another. */
  lemma ChainQueriesDiffer(ds: set<Row>, q: PropertyQuery, i: nat, j: nat)
    requires UniqueIds(ds) && Answer(ds, q).Ok? && i < j < |Chain(ds, q)|
    ensures Chain(ds, q)[i].query != Chain(ds, q)[j].query
  {
    var at := Chain(ds, q)[i].query;
    ChainSuffix(ds, q, i);
    ChainSuffix(ds, at, j - i);
    assert Chain(ds, at)[j - i] == Chain(ds, q)[j];
  }

  // ----- The export

  /** What happens around one iteration of the page loop. */
  datatype Conditions = Conditions(
    cancelled: bool,
    deadlineExpired: bool,
    access: Access,
    now: Time,
    fetchedAt: Time,
    storeWritable: bool,
    pinWritable: bool,
    jobsReachable: bool)

  datatype Interruption = OperationCancelled | OperationDeadlineExceeded | PropertyConnectorError | MaxPagesReached

  datatype ExportError =
    | InvalidRequest
    | SelectionRequired
    | Stopped(reason: Interruption)
    | CacheFailed(error: CacheError)
    | JobsUnreachable
    | WriteFailed

  /** Errors that end the page loop but keep the pages read so far. */
  function InterruptionFor(e: CacheError): Option<Interruption> {
    match e
    case DeadlineExceeded => Some(OperationDeadlineExceeded)
    case Connector(c) => if Outage(e) then Some(PropertyConnectorError) else None
    case _ => None
  }

  /** Nothing stands in the way of the loop in this iteration. */
  ghost predicate Calm(c: Conditions) {
    && !c.cancelled && !c.deadlineExpired && c.access.Reachable? && c.access.answered >= 3
    && c.storeWritable && c.pinWritable && c.jobsReachable
  }

  datatype Fetch = Fetched(page: Page) | Interrupted(reason: Interruption) | Raised(error: ExportError)

  /** The outcome of an attempt, by the cause that comes first. */
  ghost function Attempted(repo: CachedPropertyRepository, table: Table, ds: set<Row>, q: PropertyQuery,
                           c: Conditions): Fetch
    requires UniqueIds(ds)
  {
    if c.cancelled then Interrupted(OperationCancelled)
    else if c.deadlineExpired then Interrupted(OperationDeadlineExceeded)
    else
      match repo.Due(table, ds, q, false, c.now, c.access, c.fetchedAt, c.storeWritable)
      case Ok(served) => Fetched(served.response.page)
      case Err(error) =>
        var reason := InterruptionFor(error);
        if reason.Some? then Interrupted(reason.value) else Raised(CacheFailed(error))
  }

  type Outcome = Result<Option<Interruption>, ExportError>

  /** An interruption ends the loop: before the first page with an error, later with the pages read so far. */
  ghost function Broken(n: nat, reason: Interruption): Outcome {
    if n == 0 then Err(Stopped(reason)) else Ok(Some(reason))
  }

  /** In this iteration the page can be read from the publisher. */
  ghost predicate Readable(ds: set<Row>, q: PropertyQuery, c: Conditions)
    requires UniqueIds(ds)
  {
    && !c.cancelled && !c.deadlineExpired && c.access.Reachable? && c.access.answered >= RequestsNeeded(ds, q)
    && c.storeWritable
  }

  /** ... and pinned and reported. */
  ghost predicate Goes(ds: set<Row>, q: PropertyQuery, c: Conditions)
    requires UniqueIds(ds)
  {
    Readable(ds, q, c) && c.pinWritable && c.jobsReachable
  }

  /**
    How the loop ends in an iteration after `n` pages, where the circumstances leave it no choice.
    A page that is not cached has to come from the publisher.
   */
  ghost function Upset(ds: set<Row>, q: PropertyQuery, cached: bool, c: Conditions, n: nat): Option<Outcome>
    requires UniqueIds(ds)
  {
    if c.cancelled then Some(Broken(n, OperationCancelled))
    else if c.deadlineExpired then Some(Broken(n, OperationDeadlineExceeded))
    else if !cached && c.access.NetworkDenied? then Some(Err(CacheFailed(AccessDenied)))
    else if !cached && c.access.answered < RequestsNeeded(ds, q) then
      Some(Broken(n, if c.access.deadlineExpires then OperationDeadlineExceeded else PropertyConnectorError))
    else if !cached && !c.storeWritable then Some(Err(CacheFailed(MaintenanceActive)))
    else if Readable(ds, q, c) && !c.pinWritable then Some(Err(CacheFailed(MaintenanceActive)))
    else if Readable(ds, q, c) && !c.jobsReachable then Some(Err(JobsUnreachable))
    else None
  }

  lemma GoesOn(ds: set<Row>, q: PropertyQuery, cached: bool, c: Conditions, n: nat)
    requires UniqueIds(ds) && Goes(ds, q, c)
    ensures Upset(ds, q, cached, c, n) == None
  {
  }

  /** A readable page with an answer is read, whatever the cache holds. */
  lemma ReadableAttempt(repo: CachedPropertyRepository, table: Table, ds: set<Row>, q: PropertyQuery, c: Conditions)
    requires UniqueIds(ds) && Readable(ds, q, c) && Answer(ds, q).Ok?
    ensures Attempted(repo, table, ds, q, c).Fetched?
  {
  }

  /** An attempt at a page that cannot be read is interrupted or raises. */
  lemma UpsetAttempt(repo: CachedPropertyRepository, table: Table, ds: set<Row>, q: PropertyQuery, cached: bool,
                     c: Conditions, n: nat)
    requires UniqueIds(ds) && Answer(ds, q).Ok? && (!cached ==> repo.Key(q) !in table)
    requires Upset(ds, q, cached, c, n).Some? && !Readable(ds, q, c)
    ensures match Attempted(repo, table, ds, q, c)
            case Interrupted(reason) => Upset(ds, q, cached, c, n) == Some(Broken(n, reason))
            case Raised(error) => Upset(ds, q, cached, c, n) == Some(Err(error))
            case Fetched(_) => false
  {
  }

  /** One attempt to read a page: cancellation, deadline, then the cached lookup. */
  method FetchPage(repo: CachedPropertyRepository, ds: set<Row>, q: PropertyQuery, c: Conditions) returns (r: Fetch)
    requires repo.Valid() && UniqueIds(ds) && Mirrors(repo.rows, repo.version, ds)
    modifies repo
    ensures repo.Valid() && Mirrors(repo.rows, repo.version, ds)
    ensures KeepsOthers(old(repo.rows), repo.rows, {repo.Key(q)}) && NoNewPins(old(repo.rows), repo.rows, {})
    ensures r.Fetched? ==> Answer(ds, q) == Ok(r.page) && r.page.query == q
    ensures r == Attempted(repo, old(repo.rows), ds, q, c)
    ensures r.Raised? ==> r.error.CacheFailed?
  {
    if c.cancelled {
      return Interrupted(OperationCancelled);
    }
    if c.deadlineExpired {
      return Interrupted(OperationDeadlineExceeded);
    }
    ghost var before := repo.rows;
    var found := repo.Lookup(ds, q, false, c.now, c.access, c.fetchedAt, c.storeWritable);
    MirrorsKept(before, repo.rows, repo.version, ds, repo.Key(q));
    if found.Err? {
      var reason := InterruptionFor(found.error);
      return if reason.Some? then Interrupted(reason.value) else Raised(CacheFailed(found.error));
    }
    r := Fetched(found.value.response.page);
  }

  /** `pages` are the first pages of the chain that starts at `first`. */
  ghost predicate ReadsChain(ds: set<Row>, first: PropertyQuery, pages: seq<Page>)
    requires UniqueIds(ds)
  {
    pages != [] ==> Answer(ds, first).Ok? && |pages| <= |Chain(ds, first)| && pages == Chain(ds, first)[..|pages|]
  }

  /** The query the loop asks after `pages`. */
  ghost predicate Follows(ds: set<Row>, first: PropertyQuery, pages: seq<Page>, next: PropertyQuery)
    requires UniqueIds(ds)
  {
    && ReadsChain(ds, first, pages)
    && (pages == [] ==> next == first)
    && (pages != [] ==> |pages| < |Chain(ds, first)| && Chain(ds, first)[|pages|].query == next)
  }

  lemma ChainGrows(ds: set<Row>, first: PropertyQuery, pages: seq<Page>, next: PropertyQuery, page: Page)
    requires UniqueIds(ds) && Follows(ds, first, pages, next) && Answer(ds, next) == Ok(page)
    ensures ReadsChain(ds, first, pages + [page])
    ensures page.continuation.Some? ==>
              Follows(ds, first, pages + [page], PropertyQuery(first.identity, page.continuation))
    ensures page.continuation.None? <==> |pages| + 1 == |Chain(ds, first)|
  {
    var chain := Chain(ds, first);
    var n := |pages|;
    ChainStep(ds, first, 0);
    ChainStep(ds, first, n);
    assert chain[..n + 1] == chain[..n] + [chain[n]];
  }

  lemma NextIsNew(ds: set<Row>, first: PropertyQuery, pages: seq<Page>, next: PropertyQuery)
    requires UniqueIds(ds) && Follows(ds, first, pages, next)
    ensures forall i | 0 <= i < |pages| :: pages[i].query != next
  {
    forall i | 0 <= i < |pages| ensures pages[i].query != next {
      ChainQueriesDiffer(ds, first, i, |pages|);
    }
  }

  /**
    The pins of one export: only rows under `keys` were pinned by it, and the rows
    under `held`, whose pin took effect, are still there and still pinned. A page of the
    run that is cached is held.
   */
  ghost predicate Pins(before: Table, after: Table, keys: set<CacheKey>, held: set<CacheKey>) {
    && NoNewPins(before, after, keys)
    && held <= keys
    && (forall k | k in held :: k in after && after[k].pinned)
    && (forall k | k in keys && k in after :: k in held)
  }

  /** A lookup of another page, with its store and eviction, leaves the pins alone. */
  lemma PinsOutliveLookup(before: Table, mid: Table, after: Table, keys: set<CacheKey>, held: set<CacheKey>,
                          key: CacheKey)
    requires Pins(before, mid, keys, held) && key !in keys
    requires KeepsOthers(mid, after, {key}) && NoNewPins(mid, after, {})
    ensures Pins(before, after, keys, held)
  {
  }

  ghost predicate Distinct<T>(xs: seq<T>) {
    forall i, j | 0 <= i < j < |xs| :: xs[i] != xs[j]
  }

  function KeysOf(version: string, queries: seq<PropertyQuery>): set<CacheKey> {
    set q | q in queries :: CacheKey(version, q)
  }

  lemma KeysOfSnoc(version: string, queries: seq<PropertyQuery>, q: PropertyQuery)
    ensures KeysOf(version, queries + [q]) == KeysOf(version, queries) + {CacheKey(version, q)}
  {
    assert forall p :: p in queries + [q] <==> p in queries || p == q;
  }

  lemma PinnedAreDistinct(ds: set<Row>, first: PropertyQuery, pages: seq<Page>, pinned: seq<PropertyQuery>)
    requires UniqueIds(ds) && ReadsChain(ds, first, pages)
    requires |pinned| <= |pages| && forall i | 0 <= i < |pinned| :: pinned[i] == pages[i].query
    ensures Distinct(pinned)
  {
    forall i, j | 0 <= i < j < |pinned| ensures pinned[i] != pinned[j] {
      ChainQueriesDiffer(ds, first, i, j);
    }
  }

  /** Pins one page; a page evicted at once has no row left to pin. */
  method PinPage(repo: CachedPropertyRepository, q: PropertyQuery, writable: bool, pinned: seq<PropertyQuery>,
                 ghost before: Table, ghost held: set<CacheKey>)
    returns (pinned': seq<PropertyQuery>, ghost held': set<CacheKey>)
    requires repo.Valid() && Pins(before, repo.rows, KeysOf(repo.version, pinned), held)
    modifies repo
    ensures repo.Valid()
    ensures Pins(before, repo.rows, KeysOf(repo.version, pinned'), held')
    ensures pinned' == if writable then pinned + [q] else pinned
    ensures repo.rows.Keys == old(repo.rows).Keys
    ensures held' == if writable && repo.Key(q) in old(repo.rows) then held + {repo.Key(q)} else held
    ensures repo.Key(q) in held' && writable ==> repo.rows[repo.Key(q)].pinned
    ensures forall ds, v | UniqueIds(ds) && Mirrors(old(repo.rows), v, ds) :: Mirrors(repo.rows, v, ds)
  {
    pinned', held' := pinned, held;
    var effect := repo.Pin(q, true, writable);
    if effect.Ok? {
      KeysOfSnoc(repo.version, pinned, q);
      pinned' := pinned + [q];
      held' := if effect.value then held + {repo.Key(q)} else held;
    }
  }

  /** Where the page loop stands: what it has read and pinned, and whether and why it has ended. */
  ghost predicate Progress(ds: set<Row>, first: PropertyQuery, pages: seq<Page>, pinned: seq<PropertyQuery>,
                           next: PropertyQuery, r: Outcome, done: bool)
    requires UniqueIds(ds)
  {
    && (if done then ReadsChain(ds, first, pages) else Follows(ds, first, pages, next))
    && |pinned| <= |pages| <= |pinned| + 1 && (forall i | 0 <= i < |pinned| :: pinned[i] == pages[i].query)
    && (!done ==> r == Ok(None)) && (r.Ok? ==> |pinned| == |pages|)
    && (!done && pages != [] ==> pages[|pages| - 1].continuation.Some?)
    && (r.Ok? && done ==> pages != [])
    && (r.Ok? && pages != [] ==> !pages[0].requiresSelection)
    && (r.Ok? && done ==> (r.value.Some? <==> pages[|pages| - 1].continuation.Some?))
  }

  lemma ProgressWithPage(ds: set<Row>, first: PropertyQuery, pages: seq<Page>, pinned: seq<PropertyQuery>,
                         next: PropertyQuery, page: Page)
    requires UniqueIds(ds) && Progress(ds, first, pages, pinned, next, Ok(None), false)
    requires Answer(ds, next) == Ok(page) && !page.requiresSelection
    ensures var more := PropertyQuery(first.identity, page.continuation);
            && Progress(ds, first, pages + [page], pinned + [next], more, Ok(None), page.continuation.None?)
            && forall p, e | p == pinned || p == pinned + [next] ::
                 Progress(ds, first, pages + [page], p, more, Err(e), true)
  {
    ChainGrows(ds, first, pages, next, page);
    assert page.query == next;
  }

  /** The answer can be read, and names several buildings. */
  ghost predicate NeedsSelection(ds: set<Row>, q: PropertyQuery, c: Conditions)
    requires UniqueIds(ds)
  {
    Readable(ds, q, c) && Answer(ds, q).Ok? && Answer(ds, q).value.requiresSelection
  }

  /** The query has an answer that needs no selection. */
  ghost predicate Answerable(ds: set<Row>, q: PropertyQuery)
    requires UniqueIds(ds)
  {
    Answer(ds, q).Ok? && !Answer(ds, q).value.requiresSelection
  }

  /** The loop has not been disturbed: it goes on exactly as long as the chain does. */
  ghost predicate Smooth(ds: set<Row>, first: PropertyQuery, pages: seq<Page>, r: Outcome, done: bool)
    requires UniqueIds(ds)
  {
    r == Ok(None) && Answer(ds, first).Ok? && (done <==> |pages| == |Chain(ds, first)|)
  }

  lemma NextKeyIsNew(ds: set<Row>, first: PropertyQuery, pages: seq<Page>, pinned: seq<PropertyQuery>,
                     next: PropertyQuery, version: string)
    requires UniqueIds(ds) && Follows(ds, first, pages, next)
    requires |pinned| <= |pages| && forall i | 0 <= i < |pinned| :: pinned[i] == pages[i].query
    ensures CacheKey(version, next) !in KeysOf(version, pinned)
  {
    NextIsNew(ds, first, pages, next);
  }

  /** Every page of a chain that starts without a selection can be asked for. */
  lemma NextAnswerable(ds: set<Row>, first: PropertyQuery, pages: seq<Page>, next: PropertyQuery)
    requires UniqueIds(ds) && Follows(ds, first, pages, next) && first.continuation.None? && Answerable(ds, first)
    ensures Answerable(ds, next)
  {
    if pages != [] {
      ChainStep(ds, first, |pages|);
      PagingReadsListing(ds, first.identity);
    }
  }

  /** How the i-th turn must end. */
  ghost function UpsetAt(ds: set<Row>, first: PropertyQuery, before: Table, version: string,
                         conditions: nat -> Conditions, i: nat): Option<Outcome>
    requires UniqueIds(ds) && Answer(ds, first).Ok? && i < |Chain(ds, first)|
  {
    var q := Chain(ds, first)[i].query;
    Upset(ds, q, CacheKey(version, q) in before, conditions(i), i)
  }

  ghost predicate GoesUntil(ds: set<Row>, first: PropertyQuery, conditions: nat -> Conditions, n: nat)
    requires UniqueIds(ds) && Answer(ds, first).Ok?
  {
    n <= |Chain(ds, first)| && forall i | 0 <= i < n :: Goes(ds, Chain(ds, first)[i].query, conditions(i))
  }

  /**
    The loop is bound to end after `n` pages with this outcome: everything before goes well, and
    then the circumstances leave no choice, or there is nothing more to read.
   */
  ghost predicate Ends(ds: set<Row>, first: PropertyQuery, before: Table, version: string,
                       conditions: nat -> Conditions, maxPages: nat, n: nat, outcome: Outcome)
    requires UniqueIds(ds)
  {
    && Answerable(ds, first) && first.continuation.None? && GoesUntil(ds, first, conditions, n)
    && var most := Min(maxPages, |Chain(ds, first)|);
    && if n < most then UpsetAt(ds, first, before, version, conditions, n) == Some(outcome)
       else n == most && outcome == Ok(None)
  }

  /** The first `turns` turns of the loop: none that had to end it went on, and without disturbance it goes on. */
  ghost predicate Turned(ds: set<Row>, first: PropertyQuery, before: Table, version: string,
                         conditions: nat -> Conditions, pages: seq<Page>, r: Outcome, done: bool, turns: nat)
    requires UniqueIds(ds) && Answer(ds, first).Ok?
  {
    && turns <= |Chain(ds, first)|
    && (GoesUntil(ds, first, conditions, turns) ==> Smooth(ds, first, pages, r, done))
    && (forall i | 0 <= i < turns - 1 :: UpsetAt(ds, first, before, version, conditions, i) == None)
    && (turns > 0 && UpsetAt(ds, first, before, version, conditions, turns - 1).Some? ==>
          && done && r == UpsetAt(ds, first, before, version, conditions, turns - 1).value
          && (r.Ok? ==> |pages| == turns - 1))
  }

  lemma LoopStart(ds: set<Row>, first: PropertyQuery, before: Table, version: string, conditions: nat -> Conditions)
    requires UniqueIds(ds)
    ensures Answer(ds, first).Ok? ==> Turned(ds, first, before, version, conditions, [], Ok(None), false, 0)
    ensures OnlyAsked(before, before, []) && Pins(before, before, KeysOf(version, []), {})
  {
    if Answer(ds, first).Ok? {
      ChainStep(ds, first, 0);
    }
  }

  lemma TurnedNext(ds: set<Row>, first: PropertyQuery, before: Table, version: string, conditions: nat -> Conditions,
                   was: seq<Page>, asked: PropertyQuery, pages: seq<Page>, r: Outcome, done: bool)
    requires UniqueIds(ds) && Answer(ds, first).Ok? && Follows(ds, first, was, asked)
    requires Turned(ds, first, before, version, conditions, was, Ok(None), false, |was|)
    requires Goes(ds, asked, conditions(|was|)) ==> Smooth(ds, first, pages, r, done)
    requires Obeys(Upset(ds, asked, CacheKey(version, asked) in before, conditions(|was|), |was|), was, pages, r, done)
    ensures Turned(ds, first, before, version, conditions, pages, r, done, |was| + 1)
  {
    ChainStep(ds, first, 0);
    assert Chain(ds, first)[|was|].query == asked;
    assert UpsetAt(ds, first, before, version, conditions, |was|)
           == Upset(ds, asked, CacheKey(version, asked) in before, conditions(|was|), |was|);
    if |was| > 0 {
      assert UpsetAt(ds, first, before, version, conditions, |was| - 1) == None;
    }
  }

  lemma TurnedEnds(ds: set<Row>, first: PropertyQuery, before: Table, version: string,
                   conditions: nat -> Conditions, maxPages: nat, pages: seq<Page>, r: Outcome, done: bool, turns: nat,
                   n: nat, outcome: Outcome)
    requires UniqueIds(ds) && Ends(ds, first, before, version, conditions, maxPages, n, outcome)
    requires Turned(ds, first, before, version, conditions, pages, r, done, turns)
    requires |pages| <= turns <= |pages| + 1 && turns <= maxPages && (done || |pages| >= maxPages)
    ensures r == outcome && (r.Ok? ==> |pages| == n)
  {
    if turns > n {
      assert UpsetAt(ds, first, before, version, conditions, n).Some?;
    } else {
      assert GoesUntil(ds, first, conditions, turns);
    }
  }

  /** Every row is from before the export or answers a query of one of the pages. */
  ghost predicate OnlyAsked(before: Table, after: Table, pages: seq<Page>) {
    forall k | k in after && k !in before :: Asked(pages, k.query)
  }

  ghost predicate Asked(pages: seq<Page>, q: PropertyQuery) {
    exists i :: 0 <= i < |pages| && pages[i].query == q
  }

  lemma NotAskedYet(ds: set<Row>, first: PropertyQuery, before: Table, mid: Table, pages: seq<Page>,
                    next: PropertyQuery, key: CacheKey)
    requires UniqueIds(ds) && Follows(ds, first, pages, next) && OnlyAsked(before, mid, pages) && key.query == next
    ensures key !in before ==> key !in mid
  {
    NextIsNew(ds, first, pages, next);
  }

  lemma AskedNow(before: Table, mid: Table, after: Table, pages: seq<Page>, page: Page, key: CacheKey)
    requires OnlyAsked(before, mid, pages) && KeepsOthers(mid, after, {key}) && page.query == key.query
    ensures OnlyAsked(before, after, pages + [page])
  {
    var longer := pages + [page];
    assert longer[|pages|] == page;
    forall k | k in after && k !in before ensures Asked(longer, k.query) {
      if k != key {
        var i :| 0 <= i < |pages| && pages[i].query == k.query;
        assert longer[i] == pages[i];
      }
    }
  }

  lemma AskedSameKeys(before: Table, a: Table, b: Table, pages: seq<Page>)
    requires OnlyAsked(before, a, pages) && a.Keys == b.Keys
    ensures OnlyAsked(before, b, pages)
  {
  }

  /** Circumstances that leave no choice end the loop as they must. */
  ghost predicate Obeys(upset: Option<Outcome>, pages: seq<Page>, pages': seq<Page>, r: Outcome, done: bool) {
    upset.Some? ==> done && r == upset.value && (r.Ok? ==> pages' == pages)
  }

  /** What an attempt tells about the circumstances it was made in. */
  lemma AttemptTells(repo: CachedPropertyRepository, table: Table, ds: set<Row>, q: PropertyQuery, cached: bool,
                     c: Conditions, n: nat)
    requires UniqueIds(ds) && Answer(ds, q).Ok? && (!cached ==> repo.Key(q) !in table)
    ensures Readable(ds, q, c) ==> Attempted(repo, table, ds, q, c).Fetched?
    ensures var upset := Upset(ds, q, cached, c, n);
            match Attempted(repo, table, ds, q, c)
            case Interrupted(reason) => !Goes(ds, q, c) && (upset.Some? ==> upset == Some(Broken(n, reason)))
            case Raised(error) => !Goes(ds, q, c) && (upset.Some? ==> upset == Some(Err(error)))
            case Fetched(_) =>
              && (Goes(ds, q, c) ==> c.pinWritable && c.jobsReachable)
              && (upset.Some? ==>
                    if !c.pinWritable then upset == Some(Err(CacheFailed(MaintenanceActive)))
                    else !c.jobsReachable && upset == Some(Err(JobsUnreachable)))
  {
    if Readable(ds, q, c) {
      ReadableAttempt(repo, table, ds, q, c);
    } else if Upset(ds, q, cached, c, n).Some? {
      UpsetAttempt(repo, table, ds, q, cached, c, n);
    }
  }

  lemma ProgressEnds(ds: set<Row>, first: PropertyQuery, pages: seq<Page>, pinned: seq<PropertyQuery>,
                     next: PropertyQuery, r: Outcome)
    requires UniqueIds(ds) && Progress(ds, first, pages, pinned, next, Ok(None), false)
    requires r.Ok? ==> pages != [] && r.value.Some?
    ensures Progress(ds, first, pages, pinned, next, r, true)
  {
  }

  /** What one turn does with a page it has read. */
  method TakePage(repo: CachedPropertyRepository, ds: set<Row>, ghost first: PropertyQuery, c: Conditions,
                  pages: seq<Page>, pinned: seq<PropertyQuery>, next: PropertyQuery, page: Page, ghost before: Table,
                  ghost held: set<CacheKey>)
    returns (pages': seq<Page>, pinned': seq<PropertyQuery>, next': PropertyQuery, r: Outcome, done: bool,
             ghost held': set<CacheKey>)
    requires repo.Valid() && UniqueIds(ds) && Mirrors(repo.rows, repo.version, ds) && next.identity == first.identity
    requires Pins(before, repo.rows, KeysOf(repo.version, pinned), held)
    requires Progress(ds, first, pages, pinned, next, Ok(None), false)
    requires Answer(ds, next) == Ok(page) && !page.requiresSelection
    modifies repo
    ensures repo.Valid() && Mirrors(repo.rows, repo.version, ds)
    ensures Pins(before, repo.rows, KeysOf(repo.version, pinned'), held')
    ensures Progress(ds, first, pages', pinned', next', r, done) && |pages'| == |pages| + 1
    ensures next'.identity == first.identity && pages' == pages + [page] && repo.rows.Keys == old(repo.rows).Keys
    ensures r != Err(InvalidRequest)
    ensures c.pinWritable && c.jobsReachable ==> Smooth(ds, first, pages', r, done)
    ensures !c.pinWritable ==> done && r == Err(CacheFailed(MaintenanceActive))
    ensures c.pinWritable && !c.jobsReachable ==> done && r == Err(JobsUnreachable)
  {
    ChainGrows(ds, first, pages, next, page);
    ProgressWithPage(ds, first, pages, pinned, next, page);
    pages', r := pages + [page], Ok(None);
    pinned', held' := PinPage(repo, next, c.pinWritable, pinned, before, held);
    next' := PropertyQuery(next.identity, page.continuation);
    if !c.pinWritable {
      r, done := Err(CacheFailed(MaintenanceActive)), true;
    } else if !c.jobsReachable {
      r, done := Err(JobsUnreachable), true;
    } else {
      done := page.isComplete || page.continuation.None?;
    }
  }

  /** One turn of the page loop. */
  method NextPage(repo: CachedPropertyRepository, ds: set<Row>, ghost first: PropertyQuery, c: Conditions,
                  pages: seq<Page>, pinned: seq<PropertyQuery>, next: PropertyQuery, ghost before: Table,
                  ghost held: set<CacheKey>)
    returns (pages': seq<Page>, pinned': seq<PropertyQuery>, next': PropertyQuery, r: Outcome, done: bool,
             ghost held': set<CacheKey>)
    requires repo.Valid() && UniqueIds(ds) && Mirrors(repo.rows, repo.version, ds) && next.identity == first.identity
    requires Pins(before, repo.rows, KeysOf(repo.version, pinned), held)
    requires Progress(ds, first, pages, pinned, next, Ok(None), false) && OnlyAsked(before, repo.rows, pages)
    modifies repo
    ensures repo.Valid() && Mirrors(repo.rows, repo.version, ds) && next'.identity == first.identity
    ensures Pins(before, repo.rows, KeysOf(repo.version, pinned'), held')
    ensures Progress(ds, first, pages', pinned', next', r, done)
    ensures |pages| <= |pages'| <= |pages| + 1 && (!done ==> |pages'| > |pages|) && r != Err(InvalidRequest)
    ensures !done ==> OnlyAsked(before, repo.rows, pages')
    ensures Answerable(ds, next) && Goes(ds, next, c) ==> Smooth(ds, first, pages', r, done)
    ensures NeedsSelection(ds, next, c) ==> done && r == Err(SelectionRequired)
    ensures Answerable(ds, next) ==>
              Obeys(Upset(ds, next, repo.Key(next) in before, c, |pages|), pages, pages', r, done)
  {
    hide Pins, Mirrors, OnlyAsked, KeepsOthers, NoNewPins, Attempted, Upset, Readable, Goes, Smooth, Answer;
    ghost var mid := repo.rows;
    pages', pinned', next', held', done := pages, pinned, next, held, true;
    var fetched := FetchPage(repo, ds, next, c);
    NotAskedYet(ds, first, before, mid, pages, next, repo.Key(next));
    if Answer(ds, next).Ok? {
      AttemptTells(repo, mid, ds, next, repo.Key(next) in before, c, |pages|);
    }
    NextKeyIsNew(ds, first, pages, pinned, next, repo.version);
    PinsOutliveLookup(before, mid, repo.rows, KeysOf(repo.version, pinned), held, repo.Key(next));
    match fetched {
      case Interrupted(reason) =>
        r := if pages == [] then Err(Stopped(reason)) else Ok(Some(reason));
        ProgressEnds(ds, first, pages, pinned, next, r);
      case Raised(error) =>
        r := Err(error);
        ProgressEnds(ds, first, pages, pinned, next, r);
      case Fetched(page) =>
        if page.requiresSelection {
          r := Err(SelectionRequired);
          ProgressEnds(ds, first, pages, pinned, next, r);
        } else {
          AskedNow(before, mid, repo.rows, pages, page, repo.Key(next));
          ghost var stored := repo.rows;
          pages', pinned', next', r, done, held' := TakePage(repo, ds, first, c, pages, pinned, next, page, before,
                                                             held);
          AskedSameKeys(before, stored, repo.rows, pages');
        }
    }
  }

  /** The page loop. Pages are pinned as they arrive. */
  method FetchPages(repo: CachedPropertyRepository, ds: set<Row>, q: Identity, maxPages: nat,
                    conditions: nat -> Conditions)
    returns (pages: seq<Page>, pinned: seq<PropertyQuery>, r: Outcome, ghost held: set<CacheKey>)
    requires repo.Valid() && UniqueIds(ds) && Mirrors(repo.rows, repo.version, ds) && maxPages >= 1
    modifies repo
    ensures repo.Valid() && |pages| <= maxPages
    ensures Pins(old(repo.rows), repo.rows, KeysOf(repo.version, pinned), held)
    ensures ReadsChain(ds, PropertyQuery(q, None), pages)
    ensures |pinned| <= |pages| <= |pinned| + 1 && forall i | 0 <= i < |pinned| :: pinned[i] == pages[i].query
    ensures r.Ok? ==> |pinned| == |pages|
    ensures r != Err(InvalidRequest)
    ensures r.Ok? ==> pages != [] && !pages[0].requiresSelection
    ensures r.Ok? && r.value.Some? ==> pages[|pages| - 1].continuation.Some?
    ensures r.Ok? && r.value.None? ==> pages[|pages| - 1].continuation.None? || |pages| == maxPages
    ensures NeedsSelection(ds, PropertyQuery(q, None), conditions(0)) ==> r == Err(SelectionRequired)
    ensures forall n, outcome | Ends(ds, PropertyQuery(q, None), old(repo.rows), repo.version, conditions, maxPages, n,
                                     outcome) :: r == outcome && (r.Ok? ==> |pages| == n)
  {
    hide Upset, UpsetAt, Goes, GoesUntil, Readable, Obeys, Pins, OnlyAsked, Asked, Mirrors, Turned;
    var first := PropertyQuery(q, None);
    var next, done := first, false;
    ghost var before, turns := repo.rows, 0;
    pages, pinned, held, r := [], [], {}, Ok(None);
    LoopStart(ds, first, before, repo.version, conditions);
    while !done && |pages| < maxPages
      invariant repo.Valid() && Mirrors(repo.rows, repo.version, ds) && |pages| <= maxPages && next.identity == q
      invariant Pins(before, repo.rows, KeysOf(repo.version, pinned), held)
      invariant Progress(ds, first, pages, pinned, next, r, done)
      invariant !done ==> OnlyAsked(before, repo.rows, pages)
      invariant |pages| <= turns <= |pages| + 1 && (turns > |pages| ==> done) && (done ==> turns > 0)
      invariant turns <= maxPages && r != Err(InvalidRequest)
      invariant Answerable(ds, first) ==>
                  Turned(ds, first, before, repo.version, conditions, pages, r, done, turns)
      invariant turns > 0 && NeedsSelection(ds, first, conditions(0)) ==> done && r == Err(SelectionRequired)
      decreases !done, maxPages - |pages|
    {
      if Answerable(ds, first) {
        NextAnswerable(ds, first, pages, next);
      }
      ghost var was, asked := pages, next;
      pages, pinned, next, r, done, held := NextPage(repo, ds, first, conditions(|pages|), pages, pinned, next, before,
                                                     held);
      if Answerable(ds, first) {
        TurnedNext(ds, first, before, repo.version, conditions, was, asked, pages, r, done);
      }
      turns := turns + 1;
    }
    forall n, outcome | Ends(ds, first, before, repo.version, conditions, maxPages, n, outcome)
      ensures r == outcome && (r.Ok? ==> |pages| == n)
    {
      TurnedEnds(ds, first, before, repo.version, conditions, maxPages, pages, r, done, turns, n, outcome);
    }
  }

  /** No row under `keys` is pinned, and no other row gained a pin. */
  ghost predicate AllReleased(before: Table, after: Table, keys: set<CacheKey>) {
    NoNewPins(before, after, {}) && forall k | k in keys && k in after :: !after[k].pinned
  }

  function Unpinned(rows: Table, key: CacheKey): Table {
    if key in rows then rows[key := rows[key].(pinned := false)] else rows
  }

  /**
    The pins from the `from`-th on have been released, each exactly when the
    workspace was writable at that moment; the earlier ones are untouched.
   */
  ghost predicate ReleasedWhere(before: Table, after: Table, version: string, pinned: seq<PropertyQuery>, from: nat,
                                writable: nat -> bool)
  {
    && before.Keys == after.Keys
    && NoNewPins(before, after, {})
    && (forall j | 0 <= j < |pinned| && CacheKey(version, pinned[j]) in before ::
          var key := CacheKey(version, pinned[j]);
          after[key].pinned == (before[key].pinned && (j < from || !writable(j))))
  }

  lemma ReleaseStep(before: Table, mid: Table, version: string, pinned: seq<PropertyQuery>, i: nat,
                    writable: nat -> bool)
    requires i < |pinned| && Distinct(pinned) && ReleasedWhere(before, mid, version, pinned, i + 1, writable)
    ensures ReleasedWhere(before, if writable(i) then Unpinned(mid, CacheKey(version, pinned[i])) else mid,
                          version, pinned, i, writable)
  {
  }

  /** With best effort a pin goes when it can be written, otherwise when it and all later ones can. */
  ghost predicate Released(before: Table, after: Table, version: string, pinned: seq<PropertyQuery>,
                           writable: nat -> bool, bestEffort: bool)
  {
    && before.Keys == after.Keys
    && forall j | 0 <= j < |pinned| && CacheKey(version, pinned[j]) in before ::
         var key := CacheKey(version, pinned[j]);
         after[key].pinned == (before[key].pinned && !ReleasedAt(|pinned|, writable, bestEffort, j))
  }

  ghost predicate ReleasedAt(count: nat, writable: nat -> bool, bestEffort: bool, j: nat) {
    if bestEffort then writable(j) else forall k | j <= k < count :: writable(k)
  }

  lemma ReleasedFrom(before: Table, after: Table, version: string, pinned: seq<PropertyQuery>, i: nat,
                     writable: nat -> bool, bestEffort: bool)
    requires i <= |pinned| && ReleasedWhere(before, after, version, pinned, i, writable)
    requires i == 0 || (!bestEffort && i < |pinned| && !writable(i))
    requires bestEffort || (forall j | i <= j < |pinned| ::
                              writable(j)) || (i < |pinned| && !writable(i) && forall j | i < j < |pinned| ::
                                                 writable(j))
    ensures Released(before, after, version, pinned, writable, bestEffort)
  {
    forall j | 0 <= j < |pinned| && CacheKey(version, pinned[j]) in before
      ensures (j < i || !writable(j)) == !ReleasedAt(|pinned|, writable, bestEffort, j)
    {
    }
  }

  /**
    Unpins in reverse order. The normal path stops at the first failure, the
    `finally` block goes on.
   */
  method Release(repo: CachedPropertyRepository, pinned: seq<PropertyQuery>, writable: nat -> bool, bestEffort: bool)
    returns (ok: bool)
    requires repo.Valid() && Distinct(pinned)
    modifies repo
    ensures repo.Valid() && NoNewPins(old(repo.rows), repo.rows, {})
    ensures ok || bestEffort ==> ReleasedWhere(old(repo.rows), repo.rows, repo.version, pinned, 0, writable)
    ensures ok <==> forall j | 0 <= j < |pinned| :: writable(j)
    ensures Released(old(repo.rows), repo.rows, repo.version, pinned, writable, bestEffort)
  {
    ok := true;
    var i := |pinned|;
    while i > 0 && (ok || bestEffort)
      invariant 0 <= i <= |pinned|
      invariant repo.Valid()
      invariant ReleasedWhere(old(repo.rows), repo.rows, repo.version, pinned, i, writable)
      invariant ok <==> forall j | i <= j < |pinned| :: writable(j)
      invariant bestEffort || ok || (i < |pinned| && !writable(i) && forall j | i < j < |pinned| :: writable(j))
    {
      i := i - 1;
      ReleaseStep(old(repo.rows), repo.rows, repo.version, pinned, i, writable);
      var released := repo.Pin(pinned[i], false, writable(i));
      ok := ok && released.Ok?;
    }
    ReleasedFrom(old(repo.rows), repo.rows, repo.version, pinned, i, writable, bestEffort);
  }

  /** While the workspace is under maintenance, even the `finally` block releases nothing. */
  method ReleaseDuringMaintenance(repo: CachedPropertyRepository, pinned: seq<PropertyQuery>)
    requires repo.Valid() && Distinct(pinned)
    requires forall j | 0 <= j < |pinned| :: repo.Key(pinned[j]) in repo.rows && repo.rows[repo.Key(pinned[j])].pinned
    modifies repo
    ensures repo.Valid()
    ensures forall j | 0 <= j < |pinned| :: repo.Key(pinned[j]) in repo.rows && repo.rows[repo.Key(pinned[j])].pinned
  {
    var released := Release(repo, pinned, _ => false, true);
  }

  lemma ReleaseFreesAll(before: Table, mid: Table, after: Table, version: string, pinned: seq<PropertyQuery>,
                        writable: nat -> bool)
    requires NoNewPins(before, mid, KeysOf(version, pinned))
    requires ReleasedWhere(mid, after, version, pinned, 0, writable)
    requires forall j | 0 <= j < |pinned| :: writable(j)
    ensures AllReleased(before, after, KeysOf(version, pinned))
  {
    forall k | k in KeysOf(version, pinned) && k in after ensures !after[k].pinned {
      var j :| 0 <= j < |pinned| && pinned[j] == k.query;
      assert CacheKey(version, pinned[j]) == k;
    }
  }

  datatype Exported = Exported(
    records: seq<Row>,
    pageCount: nat,
    isComplete: bool,
    interruption: Option<Interruption>,
    continuation: Option<Cursor>)

  /**
    An export of `n` pages of the chain: their rows and nothing else, called
    complete exactly when the chain ends there.
   */
  ghost predicate FaithfulExport(ds: set<Row>, q: Identity, e: Exported)
    requires UniqueIds(ds)
  {
    && Answer(ds, PropertyQuery(q, None)).Ok?
    && var chain := Chain(ds, PropertyQuery(q, None));
    && 1 <= e.pageCount <= |chain|
    && e.records == RowsOf(chain[..e.pageCount])
    && e.records <= Listing(ds, q)
    && e.continuation == chain[e.pageCount - 1].continuation
    && (e.isComplete <==> e.pageCount == |chain|)
    && (e.isComplete <==> e.interruption.None?)
    && (e.isComplete ==> e.records == Listing(ds, q))
  }

  /** On a stable dataset `_combine` drops nothing: the pages are a prefix of the listing. */
  lemma CombineDropsNothing(ds: set<Row>, q: Identity, n: nat)
    requires UniqueIds(ds)
    requires var first := Answer(ds, PropertyQuery(q, None)); first.Ok? && !first.value.requiresSelection
    requires n <= |Chain(ds, PropertyQuery(q, None))|
    ensures var pages := Chain(ds, PropertyQuery(q, None))[..n];
            KeepFirst(RowsOf(pages)) == RowsOf(pages) <= Listing(ds, q)
  {
    var chain := Chain(ds, PropertyQuery(q, None));
    PagingReadsListing(ds, q);
    assert chain == chain[..n] + chain[n..];
    RowsOfAppend(chain[..n], chain[n..]);
    var rows, listing := RowsOf(chain[..n]), Listing(ds, q);
    forall i, j | 0 <= i < j < |rows| ensures rows[i].id != rows[j].id {
      assert Before(listing[i], listing[j]);
      assert listing[i] in listing && listing[j] in listing;
    }
    KeepFirstOfDistinct(rows);
  }

  /** Nothing stands in the way of an export of an unambiguous building. */
  ghost predicate Undisturbed(ds: set<Row>, q: PropertyQuery, maxPages: int, conditions: nat -> Conditions,
                              fileWritten: bool, releaseWritable: nat -> bool, jobsReachable: bool)
    requires UniqueIds(ds)
  {
    && q.continuation.None? && 1 <= maxPages <= 100 && Answerable(ds, q)
    && (forall n :: Calm(conditions(n))) && fileWritten && (forall n :: releaseWritable(n)) && jobsReachable
  }

  lemma UndisturbedEnds(ds: set<Row>, q: PropertyQuery, before: Table, version: string, conditions: nat -> Conditions,
                        maxPages: nat)
    requires UniqueIds(ds) && q.continuation.None? && Answerable(ds, q) && forall n :: Calm(conditions(n))
    ensures Ends(ds, q, before, version, conditions, maxPages, Min(maxPages, |Chain(ds, q)|), Ok(None))
  {
  }

  /**
    What the caller gets after the loop ended with `n` pages and this outcome: the first failure on
    the way, or the pages that were read, with the reason why there are no more.
   */
  ghost predicate Concluded(ds: set<Row>, q: PropertyQuery, maxPages: nat, n: nat, outcome: Outcome, fileWritten: bool,
                            releaseWritable: nat -> bool, jobsReachable: bool, r: Result<Exported, ExportError>)
    requires UniqueIds(ds)
  {
    match outcome
    case Err(error) => r == Err(error)
    case Ok(reason) =>
      if !fileWritten then r == Err(WriteFailed)
      else if exists j :: 0 <= j < n && !releaseWritable(j) then r == Err(CacheFailed(MaintenanceActive))
      else if !jobsReachable then r == Err(JobsUnreachable)
      else r.Ok? && EndsAfter(ds, q, maxPages, n, reason, r.value)
  }

  ghost predicate EndsAfter(ds: set<Row>, q: PropertyQuery, maxPages: nat, n: nat, reason: Option<Interruption>,
                            e: Exported)
    requires UniqueIds(ds)
  {
    && Answer(ds, q).Ok? && 1 <= n <= |Chain(ds, q)| && e.pageCount == n
    && e.continuation == Chain(ds, q)[n - 1].continuation
    && e.interruption == (if e.continuation.Some? && n == maxPages then Some(MaxPagesReached) else reason)
    && (e.isComplete <==> n == |Chain(ds, q)|)
  }

  /**
    Which held pages remain pinned: those that neither the normal path, if it was reached,
    nor the `finally` block could release.
   */
  ghost predicate PinsLeft(after: Table, version: string, order: seq<PropertyQuery>, held: set<CacheKey>, reached: bool,
                           releaseWritable: nat -> bool, finallyWritable: nat -> bool)
  {
    forall j | 0 <= j < |order| :: PinLeft(after, CacheKey(version, order[j]), held, |order|, j, reached,
                                           releaseWritable, finallyWritable)
  }

  ghost predicate PinLeft(after: Table, key: CacheKey, held: set<CacheKey>, count: nat, j: nat, reached: bool,
                          releaseWritable: nat -> bool, finallyWritable: nat -> bool)
  {
    && (key in after <==> key in held)
    && (key in held ==>
          (after[key].pinned <==> !finallyWritable(j) && !(reached && ReleasedAt(count, releaseWritable, false, j))))
  }

  lemma PinsLeftAfter(before: Table, mid: Table, normal: Table, after: Table, version: string,
                      order: seq<PropertyQuery>, held: set<CacheKey>, reached: bool, released: bool,
                      releaseWritable: nat -> bool, finallyWritable: nat -> bool)
    requires Pins(before, mid, KeysOf(version, order), held)
    requires if reached then Released(mid, normal, version, order, releaseWritable, false) else normal == mid
    requires released ==> reached && after == normal && forall j | 0 <= j < |order| :: releaseWritable(j)
    requires !released ==> Released(normal, after, version, order, finallyWritable, true)
    ensures PinsLeft(after, version, order, held, reached, releaseWritable, finallyWritable)
  {
    forall j | 0 <= j < |order|
      ensures PinLeft(after, CacheKey(version, order[j]), held, |order|, j, reached, releaseWritable, finallyWritable)
    {
      var key := CacheKey(version, order[j]);
      assert order[j] in order && key in KeysOf(version, order);
    }
  }

  /** The part of the export after its pages are fetched and the file is written. */
  method Conclude(repo: CachedPropertyRepository, ds: set<Row>, q: PropertyQuery, maxPages: nat, pages: seq<Page>,
                  pinned: seq<PropertyQuery>, fetched: Option<Interruption>, releaseWritable: nat -> bool,
                  jobsReachable: bool)
    returns (r: Result<Exported, ExportError>, released: bool)
    requires repo.Valid() && UniqueIds(ds) && q.continuation.None? && Distinct(pinned)
    requires pages != [] && |pages| <= maxPages && ReadsChain(ds, q, pages) && !pages[0].requiresSelection
    requires fetched.Some? ==> pages[|pages| - 1].continuation.Some?
    requires fetched.None? ==> pages[|pages| - 1].continuation.None? || |pages| == maxPages
    modifies repo
    ensures repo.Valid() && Released(old(repo.rows), repo.rows, repo.version, pinned, releaseWritable, false)
    ensures NoNewPins(old(repo.rows), repo.rows, {})
    ensures released <==> forall j | 0 <= j < |pinned| :: releaseWritable(j)
    ensures released ==> ReleasedWhere(old(repo.rows), repo.rows, repo.version, pinned, 0, releaseWritable)
    ensures r.Ok? <==> released && jobsReachable
    ensures r.Ok? ==> FaithfulExport(ds, q.identity, r.value) && EndsAfter(ds, q, maxPages, |pages|, fetched, r.value)
    ensures !released ==> r == Err(CacheFailed(MaintenanceActive))
    ensures released && !jobsReachable ==> r == Err(JobsUnreachable)
  {
    var last := pages[|pages| - 1];
    var interruption := fetched;
    if last.continuation.Some? && |pages| == maxPages {
      interruption := Some(MaxPagesReached);
    }
    var records := Combine(pages);
    released := Release(repo, pinned, releaseWritable, false);
    ExportIsFaithful(ds, q.identity, pages, interruption, records);
    if !released {
      r := Err(CacheFailed(MaintenanceActive));
    } else if !jobsReachable {
      r := Err(JobsUnreachable);
    } else {
      r := Ok(Exported(records, |pages|, interruption.None? && last.isComplete, interruption, last.continuation));
    }
  }

  /** The pinned queries are those of the first pages of the chain. */
  ghost predicate PinsChain(ds: set<Row>, first: PropertyQuery, order: seq<PropertyQuery>)
    requires UniqueIds(ds)
  {
    order != [] ==>
      && Answer(ds, first).Ok? && |order| <= |Chain(ds, first)|
      && forall i | 0 <= i < |order| :: order[i] == Chain(ds, first)[i].query
  }

  /**
    `export_complete_property_result` over a dataset that has been stable since the
    oldest cached page was fetched. `order` are the queries this run pinned, `held` the
    rows whose pin took effect, and `reached` says whether it got to release them itself.
   */
  method Export(repo: CachedPropertyRepository, ds: set<Row>, q: PropertyQuery, maxPages: int,
                conditions: nat -> Conditions, fileWritten: bool, releaseWritable: nat -> bool,
                jobsReachable: bool, finallyWritable: nat -> bool)
    returns (r: Result<Exported, ExportError>, ghost order: seq<PropertyQuery>, ghost held: set<CacheKey>,
             ghost reached: bool)
    requires repo.Valid() && UniqueIds(ds) && Mirrors(repo.rows, repo.version, ds)
    modifies repo
    ensures repo.Valid()
    ensures r.Ok? ==> FaithfulExport(ds, q.identity, r.value) && r.value.pageCount <= maxPages
    ensures PinsChain(ds, q, order) && (r.Ok? ==> |order| == r.value.pageCount)
    ensures r.Ok? ==> AllReleased(old(repo.rows), repo.rows, KeysOf(repo.version, order))
    ensures (forall n :: finallyWritable(n)) ==> AllReleased(old(repo.rows), repo.rows, KeysOf(repo.version, order))
    ensures PinsLeft(repo.rows, repo.version, order, held, reached, releaseWritable, finallyWritable)
    ensures (r.Ok? ==> reached) && (reached ==> fileWritten)
    ensures r == Err(InvalidRequest) <==> q.continuation.Some? || maxPages < 1 || maxPages > 100
    ensures q.continuation.None? && 1 <= maxPages <= 100 && NeedsSelection(ds, q, conditions(0)) ==>
              r == Err(SelectionRequired)
    ensures q.continuation.None? && 1 <= maxPages <= 100 ==>
              forall n, outcome | Ends(ds, q, old(repo.rows), repo.version, conditions, maxPages, n, outcome) ::
                Concluded(ds, q, maxPages, n, outcome, fileWritten, releaseWritable, jobsReachable, r)
    ensures Undisturbed(ds, q, maxPages, conditions, fileWritten, releaseWritable, jobsReachable) ==>
              && r.Ok? && r.value.pageCount == Min(maxPages, |Chain(ds, q)|)
              && (r.value.isComplete <==> |Chain(ds, q)| <= maxPages)
  {
    hide Ends, Pins, Mirrors, FaithfulExport, Released, NeedsSelection, PinsLeft, ReleasedAt;
    order, held, reached := [], {}, false;
    if q.continuation.Some? || !(1 <= maxPages <= 100) {
      NothingPinned(repo.rows, repo.version, reached, releaseWritable, finallyWritable);
      return Err(InvalidRequest), [], {}, false;
    }
    var pinned, released;
    ghost var mid;
    r, pinned, released, held, reached, mid := RunExport(repo, ds, q, maxPages, conditions, fileWritten,
                                                         releaseWritable, jobsReachable);
    order := pinned;
    ghost var normal := repo.rows;
    PinsAllow(old(repo.rows), mid, repo.version, order, held);
    if released {
      ReleaseFreesAll(old(repo.rows), mid, repo.rows, repo.version, pinned, releaseWritable);
    } else {
      var freed := Release(repo, pinned, finallyWritable, true);
      if freed {
        ReleaseFreesAll(old(repo.rows), normal, repo.rows, repo.version, pinned, finallyWritable);
      }
    }
    PinsLeftAfter(old(repo.rows), mid, normal, repo.rows, repo.version, pinned, held, reached, released,
                  releaseWritable, finallyWritable);
    UndisturbedConcludes(ds, q, old(repo.rows), repo.version, conditions, maxPages, fileWritten, releaseWritable,
                         jobsReachable, r);
  }

  lemma NothingPinned(rows: Table, version: string, reached: bool, releaseWritable: nat -> bool,
                      finallyWritable: nat -> bool)
    ensures PinsLeft(rows, version, [], {}, reached, releaseWritable, finallyWritable)
  {
  }

  lemma PinsAllow(before: Table, mid: Table, version: string, order: seq<PropertyQuery>, held: set<CacheKey>)
    requires Pins(before, mid, KeysOf(version, order), held)
    ensures NoNewPins(before, mid, KeysOf(version, order))
  {
  }

  lemma UndisturbedConcludes(ds: set<Row>, q: PropertyQuery, before: Table, version: string,
                             conditions: nat -> Conditions, maxPages: nat, fileWritten: bool,
                             releaseWritable: nat -> bool, jobsReachable: bool, r: Result<Exported, ExportError>)
    requires UniqueIds(ds)
    requires forall n, outcome | Ends(ds, q, before, version, conditions, maxPages, n, outcome) ::
               Concluded(ds, q, maxPages, n, outcome, fileWritten, releaseWritable, jobsReachable, r)
    ensures Undisturbed(ds, q, maxPages, conditions, fileWritten, releaseWritable, jobsReachable) ==>
              && r.Ok? && r.value.pageCount == Min(maxPages, |Chain(ds, q)|)
              && (r.value.isComplete <==> |Chain(ds, q)| <= maxPages)
  {
    if Undisturbed(ds, q, maxPages, conditions, fileWritten, releaseWritable, jobsReachable) {
      var most := Min(maxPages, |Chain(ds, q)|);
      UndisturbedEnds(ds, q, before, version, conditions, maxPages);
      assert Concluded(ds, q, maxPages, most, Ok(None), fileWritten, releaseWritable, jobsReachable, r);
    }
  }

  /** The export up to its `finally` block. */
  method RunExport(repo: CachedPropertyRepository, ds: set<Row>, q: PropertyQuery, maxPages: nat,
                   conditions: nat -> Conditions, fileWritten: bool, releaseWritable: nat -> bool, jobsReachable: bool)
    returns (r: Result<Exported, ExportError>, pinned: seq<PropertyQuery>, released: bool, ghost held: set<CacheKey>,
             ghost reached: bool, ghost mid: Table)
    requires repo.Valid() && UniqueIds(ds) && Mirrors(repo.rows, repo.version, ds)
    requires q.continuation.None? && maxPages >= 1
    modifies repo
    ensures repo.Valid() && PinsChain(ds, q, pinned) && Distinct(pinned)
    ensures r.Ok? ==> FaithfulExport(ds, q.identity, r.value) && r.value.pageCount <= maxPages && released
    ensures r.Ok? ==> |pinned| == r.value.pageCount
    ensures Pins(old(repo.rows), mid, KeysOf(repo.version, pinned), held)
    ensures if reached then Released(mid, repo.rows, repo.version, pinned, releaseWritable, false) else repo.rows == mid
    ensures NoNewPins(mid, repo.rows, {})
    ensures released ==> && reached && (forall j | 0 <= j < |pinned| :: releaseWritable(j))
                         && ReleasedWhere(mid, repo.rows, repo.version, pinned, 0, releaseWritable)
    ensures reached ==> fileWritten
    ensures r != Err(InvalidRequest) && (NeedsSelection(ds, q, conditions(0)) ==> r == Err(SelectionRequired))
    ensures forall n, outcome | Ends(ds, q, old(repo.rows), repo.version, conditions, maxPages, n, outcome) ::
              Concluded(ds, q, maxPages, n, outcome, fileWritten, releaseWritable, jobsReachable, r)
  {
    hide Ends, Pins, Mirrors, FaithfulExport, Released, ReleasedWhere, ReleasedAt, NeedsSelection, EndsAfter;
    assert q == PropertyQuery(q.identity, None);
    var pages, fetched;
    pages, pinned, fetched, held := FetchPages(repo, ds, q.identity, maxPages, conditions);
    PinnedAreDistinct(ds, q, pages, pinned);
    mid, released, reached := repo.rows, false, false;
    if fetched.Err? {
      return Err(fetched.error), pinned, false, held, false, mid;
    }
    if !fileWritten {
      return Err(WriteFailed), pinned, false, held, false, mid;
    }
    reached := true;
    r, released := Conclude(repo, ds, q, maxPages, pages, pinned, fetched.value, releaseWritable, jobsReachable);
  }

  lemma ExportIsFaithful(ds: set<Row>, q: Identity, pages: seq<Page>, interruption: Option<Interruption>,
                         records: seq<Row>)
    requires UniqueIds(ds) && ReadsChain(ds, PropertyQuery(q, None), pages)
    requires pages != [] && !pages[0].requiresSelection
    requires interruption.Some? <==> pages[|pages| - 1].continuation.Some?
    requires records == KeepFirst(RowsOf(pages))
    ensures var last := pages[|pages| - 1];
            FaithfulExport(ds, q, Exported(records, |pages|, interruption.None? && last.isComplete, interruption,
                                           last.continuation))
  {
    var first := PropertyQuery(q, None);
    var chain := Chain(ds, first);
    assert pages[0] == chain[0];
    ChainStep(ds, first, 0);
    ChainStep(ds, first, |pages| - 1);
    CombineDropsNothing(ds, q, |pages|);
    PagingReadsListing(ds, q);
    assert |pages| == |chain| ==> chain[..|pages|] == chain;
  }
}
