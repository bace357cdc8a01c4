/**
  The property cache in front of the connector (app/hpd/cache.py): rows in a table,
  responses in files named by the hash of their content. Rows and files change in
  separate steps, so the process may die between any two of them.
 */
module PropertyCache {
  import opened Common
  import opened PropertyConnector

  type Time = int

  const SUCCESS_TTL: Time := 24 * 3600
  const EMPTY_TTL: Time := 3600
  const DAY: Time := 24 * 3600

  datatype Response = Response(page: Page, version: string, fetchedAt: Time)

  /** The hashed identity of a request. */
  datatype CacheKey = CacheKey(version: string, query: PropertyQuery)

  function KeyOf(r: Response): CacheKey {
    CacheKey(r.version, r.page.query)
  }

  /** A file name: the hash of the encoded response, taken to be injective. */
  datatype Artifact = Sha256(content: Response)

  datatype CacheRow = CacheRow(
    artifact: Artifact,
    fetchedAt: Time,
    expiresAt: Time,
    staleUntil: Time,
    lastAccessed: Time,
    size: nat,
    pinned: bool)

  /** A response the connector returned, for which request and when. */
  datatype Received = Received(key: CacheKey, response: Response, at: Time)

  function Ttl(status: SourceStatus): Time {
    if status == VerifiedZero then EMPTY_TTL else SUCCESS_TTL
  }

  datatype CacheStatus = Live | FreshCache | StaleCache

  datatype Served = Served(response: Response, status: CacheStatus)

  /**
    What stands between the application and the publisher during one call: the network
    may be denied, and after `answered` requests the publisher becomes unavailable or
    the deadline expires.
   */
  datatype Access = NetworkDenied | Reachable(answered: nat, deadlineExpires: bool)

  datatype CacheError =
    | Connector(error: ConnectorError)
    | AccessDenied
    | DeadlineExceeded
    | MaintenanceActive
    | NotCached
    | Expired

  /** The errors `search` answers with a stale response. */
  predicate Outage(e: CacheError) {
    match e
    case Connector(c) => c == Unavailable || c == TooManyBuildings || c == InvalidCandidate
    case AccessDenied => true
    case DeadlineExceeded => true
    case _ => false
  }

  /** What the connector answers under these circumstances. */
  ghost function LiveAnswer(ds: set<Row>, q: PropertyQuery, access: Access): Result<Page, CacheError>
    requires UniqueIds(ds)
  {
    if !q.identity.Valid() then Err(Connector(InvalidQuery))
    else if access.NetworkDenied? then Err(AccessDenied)
    else if access.answered < RequestsNeeded(ds, q) then
      Err(if access.deadlineExpires then DeadlineExceeded else Connector(Unavailable))
    else
      match Answer(ds, q)
      case Ok(page) => Ok(page)
      case Err(e) => Err(Connector(e))
  }

  // ----- Sizes and recency

  type Table = map<CacheKey, CacheRow>

  ghost function Total(rows: Table): nat {
    if rows.Keys == {} then 0
    else
      var k :| k in rows.Keys;
      rows[k].size + Total(rows - {k})
  }

  lemma {:induction false} TotalWithout(rows: Table, k: CacheKey)
    requires k in rows
    ensures Total(rows) == rows[k].size + Total(rows - {k})
    decreases |rows|
  {
    var c :| c in rows.Keys && Total(rows) == rows[c].size + Total(rows - {c});
    if c != k {
      TotalWithout(rows - {c}, k);
      TotalWithout(rows - {k}, c);
      assert rows - {c} - {k} == rows - {k} - {c};
    }
  }

  function Without(rows: Table, keys: seq<CacheKey>): Table {
    map k | k in rows && k !in keys :: rows[k]
  }

  /** An answer to "unpinned rows ORDER BY last_accessed_at": ties in any order. */
  ghost predicate LruOrder(rows: Table, order: seq<CacheKey>) {
    && (forall i | 0 <= i < |order| :: order[i] in rows && !rows[order[i]].pinned)
    && (forall k | k in rows && !rows[k].pinned :: k in order)
    && (forall i, j | 0 <= i < j < |order| :: order[i] != order[j])
    && (forall i, j | 0 <= i < j < |order| :: rows[order[i]].lastAccessed <= rows[order[j]].lastAccessed)
  }

  /**
    Eviction drops the shortest least-recently-used prefix of the unpinned rows
    after which the total is within the limit, or all of them if none suffices.
   */
  ghost predicate Evicts(rows: Table, order: seq<CacheKey>, n: nat, limit: int) {
    && LruOrder(rows, order)
    && n <= |order|
    && (forall m | 0 <= m < n :: Total(Without(rows, order[..m])) > limit)
    && (n < |order| ==> Total(Without(rows, order[..n])) <= limit)
  }

  /** Rows outside `keys` never change, and a pinned one never disappears. */
  ghost predicate KeepsOthers(before: Table, after: Table, keys: set<CacheKey>) {
    && (forall k | k in after && k !in keys :: k in before && after[k] == before[k])
    && (forall k | k in before && k !in keys && before[k].pinned :: k in after)
  }

  /** Only rows in `keys` are pinned that were not pinned before. */
  ghost predicate NoNewPins(before: Table, after: Table, keys: set<CacheKey>) {
    forall k | k in after && after[k].pinned && k !in keys :: k in before && before[k].pinned
  }

  /** The cached pages of this connector version are pages of `ds`. */
  ghost predicate Mirrors(rows: Table, version: string, ds: set<Row>)
    requires UniqueIds(ds)
  {
    forall k | k in rows && k.version == version :: Answer(ds, k.query) == Ok(rows[k].artifact.content.page)
  }

  /** A lookup leaves a row's file alone or replaces it with the publisher's answer. */
  ghost predicate Refreshes(before: Table, after: Table, key: CacheKey, ds: set<Row>)
    requires UniqueIds(ds)
  {
    key in after ==>
      || (key in before && after[key].artifact == before[key].artifact)
      || Answer(ds, key.query) == Ok(after[key].artifact.content.page)
  }

  lemma MirrorsKept(before: Table, after: Table, version: string, ds: set<Row>, key: CacheKey)
    requires UniqueIds(ds) && Mirrors(before, version, ds)
    requires KeepsOthers(before, after, {key}) && Refreshes(before, after, key, ds)
    ensures Mirrors(after, version, ds)
  {
  }

  /** The table after a row was read. */
  function Accessed(rows: Table, key: CacheKey, now: Time): Table {
    if key in rows then rows[key := rows[key].(lastAccessed := now)] else rows
  }

  /** The table after a row was stored and the cache evicted down to its limit. */
  ghost predicate Caches(before: Table, after: Table, key: CacheKey, row: CacheRow, limit: int) {
    EvictsFrom(before[key := row], after, limit)
  }

  ghost predicate EvictsFrom(rows: Table, after: Table, limit: int) {
    exists order, n :: EvictsTo(rows, order, n, limit, after)
  }

  ghost predicate EvictsTo(rows: Table, order: seq<CacheKey>, n: nat, limit: int, after: Table) {
    Evicts(rows, order, n, limit) && after == Without(rows, order[..n])
  }

  lemma AccessedCaches(before: Table, after: Table, key: CacheKey, row: CacheRow, limit: int, now: Time)
    requires Caches(Accessed(before, key, now), after, key, row, limit)
    ensures Caches(before, after, key, row, limit)
  {
    assert Accessed(before, key, now)[key := row] == before[key := row];
  }

  lemma AccessedKeeps(before: Table, mid: Table, after: Table, key: CacheKey, now: Time, ds: set<Row>)
    requires UniqueIds(ds) && mid == Accessed(before, key, now)
    requires KeepsOthers(mid, after, {key}) && Refreshes(mid, after, key, ds) && NoNewPins(mid, after, {})
    ensures KeepsOthers(before, after, {key}) && Refreshes(before, after, key, ds) && NoNewPins(before, after, {})
  {
  }

  lemma EvictsUnpinned(rows: Table, order: seq<CacheKey>, n: nat, limit: int)
    requires Evicts(rows, order, n, limit)
    ensures n <= |order| && (forall i | 0 <= i < |order| :: order[i] in rows)
    ensures forall i, j | 0 <= i < j < |order| :: order[i] != order[j]
  {
  }

  lemma EvictionKeepsPinned(rows: Table, order: seq<CacheKey>, n: nat, limit: int)
    requires Evicts(rows, order, n, limit)
    ensures forall k | k in rows && rows[k].pinned :: k in Without(rows, order[..n])
  {
    assert forall k | k in order[..n] :: k in order;
  }

  /** Afterwards the rest fits, or only pinned rows are left. */
  lemma EvictionFits(rows: Table, order: seq<CacheKey>, n: nat, limit: int)
    requires Evicts(rows, order, n, limit)
    ensures var kept := Without(rows, order[..n]);
            Total(kept) <= limit || forall k | k in kept :: k in rows && rows[k].pinned
  {
    if n == |order| {
      assert order[..n] == order;
    }
  }

  lemma WithoutNext(rows: Table, order: seq<CacheKey>, n: nat)
    requires n < |order| && order[n] in rows
    requires forall i | 0 <= i < n :: order[i] != order[n]
    ensures order[n] in Without(rows, order[..n])
    ensures Without(rows, order[..n + 1]) == Without(rows, order[..n]) - {order[n]}
  {
    assert order[..n + 1] == order[..n] + [order[n]];
  }

  method SumSizes(rows: Table) returns (total: nat)
    ensures total == Total(rows)
  {
    total := 0;
    var left := rows;
    while left.Keys != {}
      invariant total + Total(left) == Total(rows)
      decreases |left|
    {
      var k :| k in left.Keys;
      TotalWithout(left, k);
      total := total + left[k].size;
      left := left - {k};
    }
  }

  /** The files of the first `n` rows in order. */
  ghost function FilesOf(rows: Table, order: seq<CacheKey>, n: nat): set<Artifact> {
    set i | 0 <= i < n && i < |order| && order[i] in rows :: rows[order[i]].artifact
  }

  lemma VictimFiles(rows: Table, order: seq<CacheKey>, n: nat, removed: seq<Artifact>)
    requires n <= |order| && |removed| == n
    requires forall i | 0 <= i < n :: order[i] in rows && removed[i] == rows[order[i]].artifact
    ensures (set i | 0 <= i < n :: removed[i]) == FilesOf(rows, order, n)
  {
    forall a | a in FilesOf(rows, order, n) ensures a in set i | 0 <= i < n :: removed[i] {
      var i :| 0 <= i < n && rows[order[i]].artifact == a;
      assert removed[i] == a;
    }
  }

  lemma UnlinkedFiles(rows: Table, order: seq<CacheKey>, n: nat, removed: seq<Artifact>, steps: nat)
    requires n <= |order| && |removed| == n
    requires forall i | 0 <= i < n :: order[i] in rows && removed[i] == rows[order[i]].artifact
    ensures (set i | 0 <= i < Min(steps, |removed|) :: removed[i]) == FilesOf(rows, order, Min(steps, n))
  {
    var m := Min(steps, n);
    VictimFiles(rows, order, m, removed[..m]);
    assert forall i | 0 <= i < m :: removed[..m][i] == removed[i];
  }

  /** A row that is gone or names another file leaves no file behind. */
  ghost predicate NoFilesLeft(before: Table, after: Table, files: map<Artifact, Response>) {
    forall k | k in before && !(k in after && after[k].artifact == before[k].artifact) :: before[k].artifact !in files
  }

  lemma EvictionLeavesNoFiles(rows: Table, order: seq<CacheKey>, n: nat, limit: int, files: map<Artifact, Response>)
    requires Evicts(rows, order, n, limit) && files.Keys !! FilesOf(rows, order, n)
    ensures forall k | k in rows && k !in Without(rows, order[..n]) :: rows[k].artifact !in files
  {
    forall k | k in rows && k !in Without(rows, order[..n]) ensures rows[k].artifact !in files {
      var i :| 0 <= i < n && order[i] == k;
      assert rows[order[i]].artifact in FilesOf(rows, order, n);
    }
  }

  lemma EvictedTidy(before: Table, key: CacheKey, row: CacheRow, order: seq<CacheKey>, n: nat, limit: int, after: Table,
                    files: map<Artifact, Response>)
    requires EvictsTo(before[key := row], order, n, limit, after) && files.Keys !! FilesOf(before[key := row], order, n)
    requires key in before && before[key].artifact != row.artifact ==> before[key].artifact !in files
    ensures NoFilesLeft(before, after, files) && KeepsOthers(before, after, {key})
  {
    EvictionKeepsPinned(before[key := row], order, n, limit);
    var table := before[key := row];
    EvictionLeavesNoFiles(table, order, n, limit, files);
    forall k | k in before && !(k in after && after[k].artifact == before[k].artifact)
      ensures before[k].artifact !in files
    {
      if k != key {
        assert table[k] == before[k];
      }
    }
  }

  /** The eviction loop after its first `n` rows. */
  ghost predicate Evicting(rows: Table, order: seq<CacheKey>, n: nat, limit: int, kept: Table, removed: seq<Artifact>,
                           total: int)
  {
    && LruOrder(rows, order) && n <= |order| && |removed| == n
    && kept == Without(rows, order[..n]) && total == Total(kept)
    && (forall i | 0 <= i < n :: removed[i] == rows[order[i]].artifact)
    && (forall m | 0 <= m < n :: Total(Without(rows, order[..m])) > limit)
  }

  lemma EvictingNext(rows: Table, order: seq<CacheKey>, n: nat, limit: int, kept: Table, removed: seq<Artifact>,
                     total: int)
    requires Evicting(rows, order, n, limit, kept, removed, total) && n < |order| && total > limit
    ensures order[n] in kept && kept[order[n]] == rows[order[n]]
    ensures Evicting(rows, order, n + 1, limit, kept - {order[n]}, removed + [kept[order[n]].artifact],
                     total - kept[order[n]].size)
  {
    WithoutNext(rows, order, n);
    TotalWithout(kept, order[n]);
  }

  /** The eviction loop: walks the unpinned rows from the oldest until the rest fits. */
  method ChooseVictims(rows: Table, limit: int)
    returns (kept: Table, removed: seq<Artifact>, ghost order: seq<CacheKey>, ghost evicted: nat)
    ensures Evicts(rows, order, evicted, limit) && kept == Without(rows, order[..evicted])
    ensures |removed| == evicted && forall i | 0 <= i < evicted :: removed[i] == rows[order[i]].artifact
  {
    var total: int := SumSizes(rows);
    var unpinned := OrderByLastAccess(rows);
    var n := 0;
    kept, removed := rows, [];
    assert Without(rows, unpinned[..0]) == rows;
    while n < |unpinned| && total > limit
      invariant Evicting(rows, unpinned, n, limit, kept, removed, total)
    {
      var k := unpinned[n];
      EvictingNext(rows, unpinned, n, limit, kept, removed, total);
      total := total - kept[k].size;
      removed := removed + [kept[k].artifact];
      kept := kept - {k};
      n := n + 1;
    }
    order, evicted := unpinned, n;
  }

  lemma {:induction false} HasOldest(rows: Table, keys: set<CacheKey>)
    requires keys != {} && keys <= rows.Keys
    ensures exists k :: k in keys && forall j | j in keys :: rows[k].lastAccessed <= rows[j].lastAccessed
  {
    var k :| k in keys;
    if keys != {k} {
      HasOldest(rows, keys - {k});
      var m :| m in keys - {k} && forall j | j in keys - {k} :: rows[m].lastAccessed <= rows[j].lastAccessed;
      var best := if rows[m].lastAccessed <= rows[k].lastAccessed then m else k;
      assert best in keys && forall j | j in keys :: rows[best].lastAccessed <= rows[j].lastAccessed;
    }
  }

  /** `order` lists some unpinned rows by recency, all older than the ones in `left`. */
  ghost predicate Ordered(rows: Table, order: seq<CacheKey>, left: set<CacheKey>) {
    && left <= rows.Keys
    && (forall k | k in order :: k in rows && !rows[k].pinned && k !in left)
    && (forall i, j | 0 <= i < j < |order| :: order[i] != order[j])
    && (forall i, j | 0 <= i < j < |order| :: rows[order[i]].lastAccessed <= rows[order[j]].lastAccessed)
    && (forall j, k | j in order && k in left :: rows[j].lastAccessed <= rows[k].lastAccessed)
  }

  lemma OrderedStep(rows: Table, order: seq<CacheKey>, left: set<CacheKey>, k: CacheKey)
    requires Ordered(rows, order, left)
    requires k in left && !rows[k].pinned && forall j | j in left :: rows[k].lastAccessed <= rows[j].lastAccessed
    ensures Ordered(rows, order + [k], left - {k})
  {
    var longer := order + [k];
    assert forall j | j in longer :: j in order || j == k;
    forall i, j | 0 <= i < j < |longer|
      ensures longer[i] != longer[j] && rows[longer[i]].lastAccessed <= rows[longer[j]].lastAccessed
    {
      assert longer[i] == order[i] && order[i] in order;
    }
  }

  method OrderByLastAccess(rows: Table) returns (order: seq<CacheKey>)
    ensures LruOrder(rows, order)
  {
    order := [];
    var left := set k | k in rows && !rows[k].pinned;
    while left != {}
      invariant Ordered(rows, order, left) && forall k | k in left :: !rows[k].pinned
      invariant forall k | k in rows && !rows[k].pinned :: k in order || k in left
      decreases |left|
    {
      HasOldest(rows, left);
      var k :| k in left && forall j | j in left :: rows[k].lastAccessed <= rows[j].lastAccessed;
      OrderedStep(rows, order, left, k);
      order := order + [k];
      left := left - {k};
    }
  }

  // ----- The repository

  class CachedPropertyRepository {
    const version: string
    const maxBytes: int
    const retention: Time
    const sizeOf: Response -> nat

    var rows: Table
    var files: map<Artifact, Response>

    /** Everything the connector has returned to this workspace so far. */
    ghost var received: set<Received>

    /** Every row's file exists and decodes to a response to that row's request. */
    ghost predicate Valid()
      reads this
    {
      && (forall a | a in files :: files[a] == a.content)
      && (forall k | k in rows :: RowOk(k, rows[k]))
    }

    ghost predicate RowOk(k: CacheKey, row: CacheRow)
      reads this
    {
      var r := row.artifact.content;
      && row.artifact in files
      && KeyOf(r) == k
      && row.fetchedAt == r.fetchedAt
      && row.size == sizeOf(r)
      && Received(k, r, row.expiresAt - Ttl(r.page.status)) in received
    }

    constructor (version: string, maxBytes: int, retentionDays: int, sizeOf: Response -> nat)
      requires 1 <= retentionDays <= 365
      ensures Valid() && rows == map[] && files == map[] && received == {}
      ensures this.version == version && this.maxBytes == maxBytes && this.sizeOf == sizeOf
      ensures this.retention == retentionDays * DAY
    {
      this.version, this.maxBytes, this.sizeOf := version, maxBytes, sizeOf;
      this.retention := retentionDays * DAY;
      rows, files, received := map[], map[], {};
    }

    function Key(q: PropertyQuery): CacheKey {
      CacheKey(version, q)
    }

    /** `_read`: the access time is committed before the file is opened. */
    method Read(key: CacheKey, now: Time) returns (hit: Option<Response>, expiresAt: Time, staleUntil: Time)
      requires Valid()
      modifies this`rows
      ensures Valid()
      ensures hit.None? <==> key !in old(rows)
      ensures rows == Accessed(old(rows), key, now)
      ensures hit.Some? ==>
                && var row := old(rows)[key];
                && hit.value == row.artifact.content
                && expiresAt == row.expiresAt
                && staleUntil == Min(row.staleUntil, row.fetchedAt + retention)
    {
      if key !in rows {
        return None, 0, 0;
      }
      var row := rows[key];
      rows := rows[key := row.(lastAccessed := now)];
      hit := Some(files[row.artifact]);
      expiresAt := row.expiresAt;
      staleUntil := Min(row.staleUntil, row.fetchedAt + retention);
    }

    /** The first effect of a store: the response file, unless it is there already. */
    method WriteFile(response: Response, now: Time)
      requires Valid()
      modifies this`files, this`received
      ensures Valid()
      ensures received == old(received) + {Received(KeyOf(response), response, now)}
      ensures files == old(files)[Sha256(response) := response]
    {
      received := received + {Received(KeyOf(response), response, now)};
      var destination := Sha256(response);
      if destination !in files {
        files := files[destination := response];
      }
    }

    function FreshRow(response: Response, now: Time): CacheRow {
      CacheRow(Sha256(response), response.fetchedAt, now + Ttl(response.page.status), now + retention, now,
               sizeOf(response), false)
    }

    /** The last effect of a store: a file the row no longer names, if no row does. */
    method RemoveIfUnreferenced(name: Artifact)
      requires Valid()
      modifies this`files
      ensures Valid()
      ensures files == if exists k :: k in rows && rows[k].artifact == name then old(files) else old(files) - {name}
    {
      if !exists k :: k in rows && rows[k].artifact == name {
        files := files - {name};
      }
    }

    /**
      `_store`, dying after `steps` durable effects: the file, the row, and the
      removal of a file that the row no longer names.
     */
    method Store(response: Response, now: Time, writable: bool, steps: nat) returns (done: bool)
      requires Valid()
      modifies this
      ensures Valid()
      ensures received == if steps == 0 then old(received)
                          else old(received) + {Received(KeyOf(response), response, now)}
      ensures done <==> writable && steps >= 3
      ensures rows == if writable && steps >= 2 then old(rows)[KeyOf(response) := FreshRow(response, now)]
                      else old(rows)
      ensures done ==>
                var was := old(ArtifactOf(KeyOf(response)));
                files == old(files)[Sha256(response) := response]
                         - if was.Some? && was.value != Sha256(response) then {was.value} else {}
    {
      if steps == 0 {
        return false;
      }
      WriteFile(response, now);
      if !writable || steps == 1 {
        return false;
      }
      var key := KeyOf(response);
      var previous := ArtifactOf(key);
      rows := rows[key := FreshRow(response, now)];
      if steps == 2 {
        return false;
      }
      if previous.Some? && previous.value != Sha256(response) {
        assert forall k | k in rows && k != key :: KeyOf(rows[k].artifact.content) == k;
        RemoveIfUnreferenced(previous.value);
      }
      done := true;
    }

    function ArtifactOf(key: CacheKey): Option<Artifact>
      reads this
    {
      if key in rows then Some(rows[key].artifact) else None
    }

    /** Unlinks files that no row names, dying after `steps` of them. */
    method Unlink(names: seq<Artifact>, steps: nat)
      requires Valid()
      requires forall k | k in rows :: rows[k].artifact !in names
      modifies this`files
      ensures Valid()
      ensures files == old(files) - set i | 0 <= i < Min(steps, |names|) :: names[i]
    {
      var n := 0;
      while n < |names| && n < steps
        invariant n <= |names| && n <= steps
        invariant files == old(files) - set i | 0 <= i < n :: names[i]
        invariant Valid()
      {
        files := files - {names[n]};
        n := n + 1;
      }
    }

    /**
      `_evict`, dying after `steps` durable effects: one transaction that deletes
      rows, then one unlink per deleted row without looking for other references.
     */
    method Evict(steps: nat) returns (ghost order: seq<CacheKey>, ghost evicted: nat)
      requires Valid()
      modifies this`rows, this`files
      ensures Valid()
      ensures steps == 0 ==> rows == old(rows) && files == old(files)
      ensures steps > 0 ==> Evicts(old(rows), order, evicted, maxBytes) && rows == Without(old(rows), order[..evicted])
      ensures steps > 0 ==> files == old(files) - FilesOf(old(rows), order, Min(steps - 1, evicted))
    {
      if steps == 0 {
        return [], 0;
      }
      hide Evicts, FilesOf, Total;
      var kept, removed;
      kept, removed, order, evicted := ChooseVictims(rows, maxBytes);
      EvictsUnpinned(rows, order, evicted, maxBytes);
      EvictedUnreferenced(rows, order, evicted, removed);
      UnlinkedFiles(rows, order, evicted, removed, steps - 1);
      rows := kept;
      Unlink(removed, steps - 1);
    }

    /** `clear`, dying after `steps` durable effects; it is refused during maintenance. */
    method Clear(writable: bool, steps: nat) returns (r: Result<(), CacheError>, ghost names: seq<Artifact>)
      requires Valid()
      modifies this`rows, this`files
      ensures Valid()
      ensures r == if writable then Ok(()) else Err(MaintenanceActive)
      ensures !writable || steps == 0 ==> rows == old(rows) && files == old(files)
      ensures writable && steps > 0 ==> rows == map[]
      ensures writable && steps > 0 ==>
                && |names| == |old(rows)| && (forall k | k in old(rows) :: old(rows)[k].artifact in names)
                && files == old(files) - set i | 0 <= i < Min(steps - 1, |names|) :: names[i]
      ensures writable && steps > |old(rows)| ==> files == old(files) - set k | k in old(rows) :: old(rows)[k].artifact
    {
      names := [];
      if !writable {
        return Err(MaintenanceActive), [];
      }
      r := Ok(());
      if steps == 0 {
        return;
      }
      var listed := ArtifactNames(rows);
      names := listed;
      ghost var gone := set k | k in rows :: rows[k].artifact;
      rows := map[];
      Unlink(listed, steps - 1);
      assert steps > |old(rows)| ==> gone == set i | 0 <= i < |names| :: names[i];
    }

    /** `pin`: true when the row was there. */
    method Pin(q: PropertyQuery, pinned: bool, writable: bool) returns (r: Result<bool, CacheError>)
      requires Valid()
      modifies this`rows
      ensures Valid()
      ensures r == if writable then Ok(Key(q) in old(rows)) else Err(MaintenanceActive)
      ensures rows == if r == Ok(true) then old(rows)[Key(q) := old(rows)[Key(q)].(pinned := pinned)] else old(rows)
    {
      if !writable {
        return Err(MaintenanceActive);
      }
      if Key(q) in rows {
        rows := rows[Key(q) := rows[Key(q)].(pinned := pinned)];
        return Ok(true);
      }
      return Ok(false);
    }

    /** `cached`: the cache alone. */
    method Cached(q: PropertyQuery, allowStale: bool, now: Time) returns (r: Result<Served, CacheError>)
      requires Valid()
      modifies this`rows
      ensures Valid()
      ensures r.Ok? ==> r.value.status != Live && Honest(old(received), old(rows), q, now, r.value)
      ensures r.Ok? && r.value.status == StaleCache ==> allowStale
      ensures r.Ok? <==> q.identity.Valid() && Key(q) in old(rows) && Servable(old(rows)[Key(q)], allowStale, now)
      ensures rows == if q.identity.Valid() then Accessed(old(rows), Key(q), now) else old(rows)
    {
      if !q.identity.Valid() {
        return Err(Connector(InvalidQuery));
      }
      var hit, expiresAt, staleUntil := Read(Key(q), now);
      if hit.None? {
        return Err(NotCached);
      }
      if expiresAt > now {
        return Ok(Served(hit.value, FreshCache));
      }
      if allowStale && staleUntil > now && hit.value.page.status != VerifiedZero {
        return Ok(Served(hit.value, StaleCache));
      }
      return Err(Expired);
    }

    ghost predicate Servable(row: CacheRow, allowStale: bool, now: Time) {
      || row.expiresAt > now
      || (allowStale && now < row.staleUntil && now < row.fetchedAt + retention
          && row.artifact.content.page.status != VerifiedZero)
    }

    /**
      What a served response promises: it was received for this very query, a fresh
      one less than its time to live ago, a stale one before both stale limits and
      never for a verified zero.
     */
    ghost predicate Honest(known: set<Received>, table: Table, q: PropertyQuery, now: Time, served: Served) {
      match served.status
      case Live => Received(Key(q), served.response, now) in known
      case FreshCache =>
        exists at :: Received(Key(q), served.response, at) in known && now < at + Ttl(served.response.page.status)
      case StaleCache =>
        && (exists at :: Received(Key(q), served.response, at) in known)
        && served.response.page.status != VerifiedZero
        && Key(q) in table
        && now < table[Key(q)].staleUntil
        && now < served.response.fetchedAt + retention
    }

    method Fetch(ds: set<Row>, q: PropertyQuery, access: Access, fetchedAt: Time)
        returns (r: Result<Response, CacheError>)
      requires UniqueIds(ds)
      ensures match LiveAnswer(ds, q, access)
              case Ok(page) => r == Ok(Response(page, version, fetchedAt)) && KeyOf(r.value) == Key(q)
              case Err(e) => r == Err(e)
    {
      if !q.identity.Valid() {
        return Err(Connector(InvalidQuery));
      }
      match access {
        case NetworkDenied => return Err(AccessDenied);
        case Reachable(answered, deadlineExpires) =>
          var found := Search(ds, q, answered);
          match found {
            case Err(e) => return Err(if e == Unavailable && deadlineExpires then DeadlineExceeded else Connector(e));
            case Ok(page) => return Ok(Response(page, version, fetchedAt));
          }
      }
    }

    ghost predicate FreshHit(table: Table, q: PropertyQuery, refresh: bool, now: Time) {
      q.identity.Valid() && Key(q) in table && !refresh && now < table[Key(q)].expiresAt
    }

    ghost predicate StaleHit(table: Table, q: PropertyQuery, now: Time) {
      && Key(q) in table && now < table[Key(q)].staleUntil && now < table[Key(q)].fetchedAt + retention
      && table[Key(q)].artifact.content.page.status != VerifiedZero
    }

    /** Which response, if any, a lookup has to serve. */
    ghost function Due(table: Table, ds: set<Row>, q: PropertyQuery, refresh: bool, now: Time, access: Access,
                       fetchedAt: Time, writable: bool): Result<Served, CacheError>
      requires UniqueIds(ds)
    {
      if FreshHit(table, q, refresh, now) then Ok(Served(table[Key(q)].artifact.content, FreshCache))
      else
        match LiveAnswer(ds, q, access)
        case Ok(page) =>
          if writable then Ok(Served(Response(page, version, fetchedAt), Live)) else Err(MaintenanceActive)
        case Err(e) =>
          if Outage(e) && StaleHit(table, q, now) then Ok(Served(table[Key(q)].artifact.content, StaleCache))
          else Err(e)
    }

    /**
      A response stored at `now` is served as fresh for 24 hours, a verified zero for one. While the network
      is denied it is then served as stale until the retention has passed since it was stored or fetched.
     */
    lemma StoredServes(table: Table, response: Response, now: Time, later: Time, ds: set<Row>, q: PropertyQuery,
                       fetchedAt: Time, writable: bool)
      requires UniqueIds(ds) && q.identity.Valid() && KeyOf(response) == Key(q)
      requires Key(q) in table && table[Key(q)] == FreshRow(response, now)
      ensures var zero := response.page.status == VerifiedZero;
              Due(table, ds, q, false, later, NetworkDenied, fetchedAt, writable) ==
              if later < now + (if zero then 3_600 else 86_400) then Ok(Served(response, FreshCache))
              else if !zero && later < now + retention && later < response.fetchedAt + retention
                then Ok(Served(response, StaleCache))
              else Err(AccessDenied)
    {
    }

    /** A stale row answers for every failure of the connector except a refusal of the query. */
    lemma StaleUnlessRefused(table: Table, ds: set<Row>, q: PropertyQuery, refresh: bool, now: Time, access: Access,
                             fetchedAt: Time, writable: bool)
      requires UniqueIds(ds) && !FreshHit(table, q, refresh, now) && StaleHit(table, q, now)
      requires LiveAnswer(ds, q, access).Err?
      ensures var due := Due(table, ds, q, refresh, now, access, fetchedAt, writable);
              if LiveAnswer(ds, q, access).error in {Connector(InvalidQuery), Connector(InvalidContinuation)}
              then due == Err(LiveAnswer(ds, q, access).error)
              else due == Ok(Served(table[Key(q)].artifact.content, StaleCache))
    {
    }

    /** The row stored last is evicted last: only when every other unpinned row is. */
    lemma StoredLast(before: Table, after: Table, response: Response, now: Time)
      requires Caches(before, after, KeyOf(response), FreshRow(response, now), maxBytes)
      requires forall k | k in before && k != KeyOf(response) :: before[k].lastAccessed < now
      ensures KeyOf(response) !in after ==> forall k | k in after :: after[k].pinned
    {
      var key, table := KeyOf(response), before[KeyOf(response) := FreshRow(response, now)];
      if key !in after {
        var order, n :| EvictsTo(table, order, n, maxBytes, after);
        var j :| 0 <= j < n && order[j] == key;
        assert forall k | k in after && !table[k].pinned :: k in order && k !in order[..n];
      }
    }

    /** What the connector returned to the workspace during a lookup. */
    ghost function Learned(table: Table, ds: set<Row>, q: PropertyQuery, refresh: bool, now: Time, access: Access,
                           fetchedAt: Time): set<Received>
      requires UniqueIds(ds)
    {
      var live := LiveAnswer(ds, q, access);
      if FreshHit(table, q, refresh, now) || live.Err? then {}
      else {Received(Key(q), Response(live.value, version, fetchedAt), now)}
    }

    /** Stores a live response, then evicts. */
    method Remember(response: Response, now: Time, writable: bool) returns (stored: bool)
      requires Valid()
      modifies this
      ensures Valid() && received == old(received) + {Received(KeyOf(response), response, now)}
      ensures stored == writable
      ensures KeepsOthers(old(rows), rows, {KeyOf(response)})
      ensures if stored then Caches(old(rows), rows, KeyOf(response), FreshRow(response, now), maxBytes)
              else rows == old(rows)
      ensures stored ==> NoFilesLeft(old(rows), rows, files)
    {
      stored := Store(response, now, writable, 3);
      if stored {
        ghost var table := rows;
        ghost var order, n;
        order, n := Evict(|rows| + 1);
        EvictsUnpinned(table, order, n, maxBytes);
        DistinctFit(order, table.Keys);
        assert EvictsTo(table, order, n, maxBytes, rows);
        EvictedTidy(old(rows), KeyOf(response), FreshRow(response, now), order, n, maxBytes, rows, files);
      }
    }

    /** The part of `search` behind the cache: the connector, then a stale response. */
    method Refetch(ds: set<Row>, q: PropertyQuery, hit: Option<Response>, staleUntil: Time, now: Time, access: Access,
                   fetchedAt: Time, writable: bool)
      returns (r: Result<Served, CacheError>)
      requires Valid() && UniqueIds(ds)
      requires hit == if Key(q) in rows then Some(rows[Key(q)].artifact.content) else None
      requires hit.Some? ==> staleUntil == Min(rows[Key(q)].staleUntil, rows[Key(q)].fetchedAt + retention)
      modifies this
      ensures Valid()
      ensures r == Due(old(rows), ds, q, true, now, access, fetchedAt, writable)
      ensures received == old(received) + Learned(old(rows), ds, q, true, now, access, fetchedAt)
      ensures KeepsOthers(old(rows), rows, {Key(q)}) && Refreshes(old(rows), rows, Key(q), ds)
      ensures NoNewPins(old(rows), rows, {})
      ensures if r.Ok? && r.value.status == Live
              then Caches(old(rows), rows, Key(q), FreshRow(r.value.response, now), maxBytes)
              else rows == old(rows)
    {
      var fetched := Fetch(ds, q, access, fetchedAt);
      if fetched.Ok? {
        var stored := Remember(fetched.value, now, writable);
        return if stored then Ok(Served(fetched.value, Live)) else Err(MaintenanceActive);
      }
      if Outage(fetched.error) && hit.Some? && staleUntil > now && hit.value.page.status != VerifiedZero {
        return Ok(Served(hit.value, StaleCache));
      }
      r := Err(fetched.error);
    }

    /** The access time makes no difference to what is due. */
    lemma AccessedServes(before: Table, ds: set<Row>, q: PropertyQuery, refresh: bool, now: Time,
                         access: Access, fetchedAt: Time, writable: bool)
      requires UniqueIds(ds) && !FreshHit(before, q, refresh, now)
      ensures var mid := Accessed(before, Key(q), now);
              && Due(mid, ds, q, true, now, access, fetchedAt, writable)
                 == Due(before, ds, q, refresh, now, access, fetchedAt, writable)
              && Learned(mid, ds, q, true, now, access, fetchedAt)
                 == Learned(before, ds, q, refresh, now, access, fetchedAt)
    {
    }

    /** Serving what is due is honest. */
    lemma DueIsHonest(ds: set<Row>, q: PropertyQuery, refresh: bool, now: Time, access: Access, fetchedAt: Time,
                      writable: bool)
      requires Valid() && UniqueIds(ds)
      ensures var due := Due(rows, ds, q, refresh, now, access, fetchedAt, writable);
              due.Ok? ==>
                && Honest(received + Learned(rows, ds, q, refresh, now, access, fetchedAt), rows, q, now, due.value)
                && (due.value.status == FreshCache ==> !refresh)
                && (due.value.status == StaleCache ==> LiveAnswer(ds, q, access).Err?)
                && (due.value.status == Live ==> Answer(ds, q) == Ok(due.value.response.page))
    {
      if Key(q) in rows {
        assert RowOk(Key(q), rows[Key(q)]);
      }
    }

    /**
      What a lookup leaves in the table: a live answer is stored and the cache evicted; otherwise
      the row was read, unless the query was refused.
     */
    ghost predicate Remembers(before: Table, after: Table, q: PropertyQuery, now: Time, r: Result<Served, CacheError>) {
      if r.Ok? && r.value.status == Live
      then Caches(before, after, Key(q), FreshRow(r.value.response, now), maxBytes)
      else after == if q.identity.Valid() then Accessed(before, Key(q), now) else before
    }

    /** The cache first, then the connector, then a stale response. */
    method ServeDue(ds: set<Row>, q: PropertyQuery, refresh: bool, now: Time, access: Access, fetchedAt: Time,
                    writable: bool)
      returns (r: Result<Served, CacheError>)
      requires Valid() && UniqueIds(ds)
      modifies this
      ensures Valid()
      ensures r == Due(old(rows), ds, q, refresh, now, access, fetchedAt, writable)
      ensures received == old(received) + Learned(old(rows), ds, q, refresh, now, access, fetchedAt)
      ensures KeepsOthers(old(rows), rows, {Key(q)}) && Refreshes(old(rows), rows, Key(q), ds)
      ensures NoNewPins(old(rows), rows, {})
      ensures Remembers(old(rows), rows, q, now, r)
    {
      if !q.identity.Valid() {
        return Err(Connector(InvalidQuery));
      }
      var hit, expiresAt, staleUntil := Read(Key(q), now);
      if hit.Some? && !refresh && expiresAt > now {
        return Ok(Served(hit.value, FreshCache));
      }
      ghost var mid := rows;
      AccessedServes(old(rows), ds, q, refresh, now, access, fetchedAt, writable);
      r := Refetch(ds, q, hit, staleUntil, now, access, fetchedAt, writable);
      AccessedKeeps(old(rows), mid, rows, Key(q), now, ds);
      if r.Ok? && r.value.status == Live {
        AccessedCaches(old(rows), rows, Key(q), FreshRow(r.value.response, now), maxBytes, now);
      }
    }

    /** `search`: it serves exactly what is due, and that is honest. */
    method Lookup(ds: set<Row>, q: PropertyQuery, refresh: bool, now: Time, access: Access, fetchedAt: Time,
                  writable: bool)
      returns (r: Result<Served, CacheError>)
      requires Valid() && UniqueIds(ds)
      modifies this
      ensures Valid()
      ensures r == Due(old(rows), ds, q, refresh, now, access, fetchedAt, writable)
      ensures received == old(received) + Learned(old(rows), ds, q, refresh, now, access, fetchedAt)
      ensures r.Ok? ==> Honest(received, old(rows), q, now, r.value)
      ensures r.Ok? && r.value.status == FreshCache ==> !refresh
      ensures r.Ok? && r.value.status == StaleCache ==> LiveAnswer(ds, q, access).Err?
      ensures r.Ok? && r.value.status == Live ==> Answer(ds, q) == Ok(r.value.response.page)
      ensures KeepsOthers(old(rows), rows, {Key(q)}) && Refreshes(old(rows), rows, Key(q), ds)
      ensures NoNewPins(old(rows), rows, {})
      ensures Remembers(old(rows), rows, q, now, r)
    {
      DueIsHonest(ds, q, refresh, now, access, fetchedAt, writable);
      r := ServeDue(ds, q, refresh, now, access, fetchedAt, writable);
    }

    /** Two rows never share a file, because a file's content names its row. */
    lemma EvictedUnreferenced(table: Table, order: seq<CacheKey>, n: nat, removed: seq<Artifact>)
      requires n <= |order| && |removed| == n
      requires forall k | k in table :: KeyOf(table[k].artifact.content) == k
      requires forall i | 0 <= i < n :: order[i] in table && removed[i] == table[order[i]].artifact
      ensures forall k | k in Without(table, order[..n]) :: table[k].artifact !in removed
    {
    }
  }

  method ArtifactNames(rows: Table) returns (names: seq<Artifact>)
    ensures |names| == |rows|
    ensures forall i | 0 <= i < |names| :: exists k :: k in rows && names[i] == rows[k].artifact
    ensures forall k | k in rows :: rows[k].artifact in names
  {
    names := [];
    var left := rows.Keys;
    while left != {}
      invariant left <= rows.Keys && |names| + |left| == |rows.Keys|
      invariant forall i | 0 <= i < |names| :: exists k :: k in rows && names[i] == rows[k].artifact
      invariant forall k | k in rows && k !in left :: rows[k].artifact in names
      decreases |left|
    {
      var k :| k in left;
      names := names + [rows[k].artifact];
      left := left - {k};
    }
  }

  lemma {:induction false} DistinctFit<T>(xs: seq<T>, s: set<T>)
    requires forall x | x in xs :: x in s
    requires forall i, j | 0 <= i < j < |xs| :: xs[i] != xs[j]
    ensures |xs| <= |s|
  {
    if xs != [] {
      var last := xs[|xs| - 1];
      assert last in xs;
      DistinctFit(xs[..|xs| - 1], s - {last});
    }
  }
}
