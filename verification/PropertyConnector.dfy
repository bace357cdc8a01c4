/**
  The HPD violation connector (app/hpd/connector.py). A lookup pages by keyset
  through two partitions of the publisher's dataset, inspected rows newest first
  and rows without an inspection date by violation id. The partner definition is
  one filter and one sort of the whole dataset.
 */
module PropertyConnector {
  import opened Common
  import opened Ordering

  type Date = int

  datatype ViolationClass = A | B | C | I

  datatype ViolationStatus = Open | Close

  /** A violation row. The id stands for the publisher's order on violation ids. */
  datatype Row = Row(
    id: nat,
    group: Group,
    violationClass: Option<ViolationClass>,
    status: Option<ViolationStatus>,
    date: Option<Date>,
    details: string)
  {
    function Key(): SortKey { SortKey(date, id) }
  }

  /** The columns that identify a building, as the candidate request groups them. */
  datatype Group = Group(
    building: Option<nat>,
    registration: Option<nat>,
    borough: Option<string>,
    house: Option<string>,
    street: Option<string>,
    zip: Option<string>)

  /** Everything in a property query except its continuation. */
  datatype Identity = Identity(
    building: Option<nat>,
    registration: Option<nat>,
    house: Option<string>,
    street: Option<string>,
    borough: Option<string>,
    zip: Option<string>,
    violationClass: Option<ViolationClass>,
    status: Option<ViolationStatus>,
    dateFrom: Option<Date>,
    dateTo: Option<Date>,
    limit: int)
  {
    predicate Valid() {
      && (building.Some? || registration.Some? || (house.Some? && street.Some?))
      && (house.Some? <==> street.Some?)
      && 1 <= limit <= 100
      && (dateFrom.Some? && dateTo.Some? ==> dateFrom.value <= dateTo.value)
    }
  }

  /** A continuation token. The request hash is the identity it was issued for. */
  datatype Cursor = Cursor(identity: Identity, building: Option<nat>, date: Option<Date>, id: nat) {
    function Key(): SortKey { SortKey(date, id) }
  }

  datatype PropertyQuery = PropertyQuery(identity: Identity, continuation: Option<Cursor>)

  datatype SourceStatus = Success | VerifiedZero

  datatype Page = Page(
    query: PropertyQuery,
    candidates: set<Group>,
    records: seq<Row>,
    requiresSelection: bool,
    continuation: Option<Cursor>,
    isComplete: bool,
    status: SourceStatus)

  datatype ConnectorError =
    | InvalidQuery
    | InvalidContinuation
    | TooManyBuildings
    | InvalidCandidate
    | Unavailable

  // ----- Filters and orders

  predicate Agrees<T(==)>(wanted: Option<T>, column: Option<T>) {
    wanted.None? || wanted == column
  }

  /** The building is one the query is about. */
  ghost predicate MatchesIdentity(q: Identity, g: Group) {
    && Agrees(q.building, g.building)
    && Agrees(q.registration, g.registration)
    && Agrees(q.house, g.house)
    && Agrees(q.street, g.street)
    && Agrees(q.borough, g.borough)
    && Agrees(q.zip, g.zip)
  }

  /** The violation is one the query is about: both dates are inclusive, and either excludes undated rows. */
  ghost predicate Matches(q: Identity, row: Row) {
    && MatchesIdentity(q, row.group)
    && Agrees(q.violationClass, row.violationClass)
    && Agrees(q.status, row.status)
    && (q.dateFrom.Some? ==> row.date.Some? && row.date.value >= q.dateFrom.value)
    && (q.dateTo.Some? ==> row.date.Some? && row.date.value <= q.dateTo.value)
  }

  /** One comparison of a WHERE text. */
  datatype Clause =
    | BuildingIs(building: nat)
    | RegistrationIs(registration: nat)
    | HouseIs(house: string)
    | StreetIs(street: string)
    | BoroughIs(borough: string)
    | ZipIs(zip: string)
    | ClassIs(violationClass: ViolationClass)
    | StatusIs(status: ViolationStatus)
    | DatedFrom(start: Date)
    | DatedBefore(end: Date)

  /** What the publisher makes of a comparison: with a missing value it is never true. */
  predicate Satisfies(row: Row, clause: Clause) {
    match clause
    case BuildingIs(building) => row.group.building == Some(building)
    case RegistrationIs(registration) => row.group.registration == Some(registration)
    case HouseIs(house) => row.group.house == Some(house)
    case StreetIs(street) => row.group.street == Some(street)
    case BoroughIs(borough) => row.group.borough == Some(borough)
    case ZipIs(zip) => row.group.zip == Some(zip)
    case ClassIs(violationClass) => row.violationClass == Some(violationClass)
    case StatusIs(status) => row.status == Some(status)
    case DatedFrom(start) => row.date.Some? && row.date.value >= start
    case DatedBefore(end) => row.date.Some? && row.date.value < end
  }

  predicate SatisfiesAll(row: Row, clauses: seq<Clause>) {
    forall clause | clause in clauses :: Satisfies(row, clause)
  }

  function When<T>(filter: Option<T>, clause: T -> Clause): seq<Clause> {
    if filter.Some? then [clause(filter.value)] else []
  }

  /** `_identity_where_clause`: an address counts only as a whole. */
  function IdentityClauses(q: Identity): seq<Clause> {
    When(q.building, n => BuildingIs(n)) + When(q.registration, n => RegistrationIs(n))
    + (if q.house.Some? && q.street.Some? then [HouseIs(q.house.value), StreetIs(q.street.value)] else [])
    + When(q.borough, s => BoroughIs(s)) + When(q.zip, s => ZipIs(s))
  }

  /** `_where_clause`: the last day is included by asking for what is before the next one. */
  function WhereClauses(q: Identity): seq<Clause> {
    IdentityClauses(q) + When(q.violationClass, c => ClassIs(c)) + When(q.status, s => StatusIs(s))
    + When(q.dateFrom, d => DatedFrom(d)) + When(q.dateTo, d => DatedBefore(d + 1))
  }

  lemma JoinedClauses(row: Row, a: seq<Clause>, b: seq<Clause>)
    ensures SatisfiesAll(row, a + b) <==> SatisfiesAll(row, a) && SatisfiesAll(row, b)
  {
    assert forall clause | clause in a :: clause in a + b;
    assert forall clause | clause in b :: clause in a + b;
  }

  lemma GivenClause<T>(row: Row, filter: Option<T>, clause: T -> Clause)
    ensures SatisfiesAll(row, When(filter, clause)) <==> (filter.Some? ==> Satisfies(row, clause(filter.value)))
  {
    if filter.Some? {
      assert clause(filter.value) in When(filter, clause);
    }
  }

  /** The identity part of the WHERE text selects the rows of the buildings the query is about. */
  lemma IdentityClausesSelect(q: Identity, row: Row)
    requires q.Valid()
    ensures SatisfiesAll(row, IdentityClauses(q)) <==> MatchesIdentity(q, row.group)
  {
    var building, registration := When(q.building, n => BuildingIs(n)), When(q.registration, n => RegistrationIs(n));
    var address := if q.house.Some? && q.street.Some? then [HouseIs(q.house.value), StreetIs(q.street.value)] else [];
    var borough, zip := When(q.borough, s => BoroughIs(s)), When(q.zip, s => ZipIs(s));
    GivenClause(row, q.building, n => BuildingIs(n));
    GivenClause(row, q.registration, n => RegistrationIs(n));
    GivenClause(row, q.borough, s => BoroughIs(s));
    GivenClause(row, q.zip, s => ZipIs(s));
    if q.house.Some? && q.street.Some? {
      assert address[0] in address && address[1] in address;
    }
    JoinedClauses(row, building, registration);
    JoinedClauses(row, building + registration, address);
    JoinedClauses(row, building + registration + address, borough);
    JoinedClauses(row, building + registration + address + borough, zip);
  }

  /** The whole WHERE text selects exactly the violations the query is about. */
  lemma WhereClausesSelect(q: Identity, row: Row)
    requires q.Valid()
    ensures SatisfiesAll(row, WhereClauses(q)) <==> Matches(q, row)
  {
    IdentityClausesSelect(q, row);
    var identity := IdentityClauses(q);
    var violation, status := When(q.violationClass, c => ClassIs(c)), When(q.status, s => StatusIs(s));
    var start, end := When(q.dateFrom, d => DatedFrom(d)), When(q.dateTo, d => DatedBefore(d + 1));
    GivenClause(row, q.violationClass, c => ClassIs(c));
    GivenClause(row, q.status, s => StatusIs(s));
    GivenClause(row, q.dateFrom, d => DatedFrom(d));
    GivenClause(row, q.dateTo, d => DatedBefore(d + 1));
    JoinedClauses(row, identity, violation);
    JoinedClauses(row, identity + violation, status);
    JoinedClauses(row, identity + violation + status, start);
    JoinedClauses(row, identity + violation + status + start, end);
  }

  predicate NewestFirst(a: Row, b: Row) {
    && a.date.Some? && b.date.Some?
    && (a.date.value > b.date.value || (a.date == b.date && a.id < b.id))
  }

  predicate ById(a: Row, b: Row) {
    a.id < b.id
  }

  datatype SortKey = SortKey(date: Option<Date>, id: nat)

  /** The order of a complete result: dated rows newest first, then undated rows. */
  predicate KeyBefore(a: SortKey, b: SortKey) {
    if a.date.Some? && b.date.Some? then
      a.date.value > b.date.value || (a.date == b.date && a.id < b.id)
    else if a.date.None? && b.date.None? then a.id < b.id
    else a.date.Some?
  }

  predicate Before(a: Row, b: Row) {
    KeyBefore(a.Key(), b.Key())
  }

  ghost predicate UniqueIds(ds: set<Row>) {
    forall a, b | a in ds && b in ds && a.id == b.id :: a == b
  }

  function Dated(rows: set<Row>): set<Row> {
    set row | row in rows && row.date.Some?
  }

  function Undated(rows: set<Row>): set<Row> {
    set row | row in rows && row.date.None?
  }

  lemma BeforeIsTotal(rows: set<Row>)
    requires UniqueIds(rows)
    ensures StrictTotal(Before, rows)
  {
  }

  /** The three ORDER BY clauses: of a whole result, and of each partition. */
  function InOrder(rows: set<Row>): seq<Row>
    requires UniqueIds(rows)
  {
    BeforeIsTotal(rows);
    Sorted(Before, rows)
  }

  function DatedInOrder(rows: set<Row>): seq<Row>
    requires UniqueIds(rows)
  {
    Sorted(NewestFirst, Dated(rows))
  }

  function UndatedInOrder(rows: set<Row>): seq<Row>
    requires UniqueIds(rows)
  {
    Sorted(ById, Undated(rows))
  }

  /** The publisher's LIMIT. */
  function Limit(listing: seq<Row>, limit: nat): seq<Row> {
    listing[..Min(limit, |listing|)]
  }

  // ----- The one-shot specification

  ghost function Groups(ds: set<Row>, q: Identity): set<Group> {
    set row | row in ds && MatchesIdentity(q, row.group) :: row.group
  }

  ghost function MatchingRows(ds: set<Row>, q: Identity): set<Row> {
    set row | row in ds && Matches(q, row)
  }

  /** "Filter and sort the dataset once." */
  ghost function Listing(ds: set<Row>, q: Identity): (rows: seq<Row>)
    requires UniqueIds(ds)
  {
    InOrder(MatchingRows(ds, q))
  }

  /** The building a lookup is about, or the reason it stops before reading violations. */
  datatype Target = Building(number: nat) | Stop(groups: set<Group>) | Refused(error: ConnectorError)

  ghost function TargetOf(ds: set<Row>, q: PropertyQuery): Target {
    if !q.identity.Valid() then Refused(InvalidQuery)
    else if q.continuation.Some? then
      var c := q.continuation.value;
      if c.identity == q.identity && c.building.Some? then Building(c.building.value)
      else Refused(InvalidContinuation)
    else if q.identity.building.Some? then Building(q.identity.building.value)
    else
      var groups := Groups(ds, q.identity);
      if |groups| > 100 then Refused(TooManyBuildings)
      else if exists g | g in groups :: g.building.None? then Refused(InvalidCandidate)
      else if |groups| != 1 then Stop(groups)
      else OnlyElement(groups); var g :| g in groups; Building(g.building.value)
  }

  lemma OnlyElement<T>(s: set<T>)
    requires |s| == 1
    ensures exists x :: x in s
    ensures forall x, y | x in s && y in s :: x == y
  {
    var x :| x in s;
    assert |s - {x}| == 0;
    assert forall y | y in s :: y == x || y in s - {x};
  }

  /** The matching rows of building `b` that the continuation has not passed yet. */
  ghost function Remaining(ds: set<Row>, q: PropertyQuery, b: nat): set<Row> {
    set row | row in ds && Matches(q.identity, row) && row.group.building == Some(b)
              && (q.continuation.Some? ==> KeyBefore(q.continuation.value.Key(), row.Key()))
  }

  function Continuation(q: Identity, last: Row): Cursor {
    Cursor(q, last.group.building, last.date, last.id)
  }

  /** Cuts the first page off a listing. */
  ghost function PageOf(q: PropertyQuery, listing: seq<Row>): Page
    requires q.identity.limit >= 1
  {
    var records := Limit(listing, q.identity.limit);
    var more := |listing| > q.identity.limit;
    Page(q, CandidatesOf(records), records, false,
         if more then Some(Continuation(q.identity, records[|records| - 1])) else None,
         !more,
         if listing == [] then VerifiedZero else Success)
  }

  /** The page of a query that is not about exactly one building: the buildings to choose from. */
  ghost function StopPage(q: PropertyQuery, groups: set<Group>): Page {
    Page(q, groups, [], |groups| > 1, None, |groups| == 0,
         if |groups| == 0 then VerifiedZero else Success)
  }

  /** The answer to a query: the next page of the one-shot listing of its building. */
  ghost function Answer(ds: set<Row>, q: PropertyQuery): Result<Page, ConnectorError>
    requires UniqueIds(ds)
  {
    match TargetOf(ds, q)
    case Refused(e) => Err(e)
    case Stop(groups) => Ok(StopPage(q, groups))
    case Building(b) =>
      Ok(PageOf(q, InOrder(Remaining(ds, q, b))))
  }

  // ----- Candidates

  /** One candidate per building on the page; the last row seen for a building wins. */
  function LastByBuilding(records: seq<Row>): map<nat, Group> {
    if records == [] then map[]
    else
      var rest := LastByBuilding(records[..|records| - 1]);
      var g := records[|records| - 1].group;
      if g.building.None? then rest else rest[g.building.value := g]
  }

  function CandidatesOf(records: seq<Row>): set<Group> {
    LastByBuilding(records).Values
  }

  lemma {:induction false} OneBuildingOneCandidate(records: seq<Row>, b: nat)
    requires forall row | row in records :: row.group.building == Some(b)
    ensures LastByBuilding(records).Keys <= {b}
    ensures |CandidatesOf(records)| <= 1
  {
    if records != [] {
      OneBuildingOneCandidate(records[..|records| - 1], b);
    }
    var m := LastByBuilding(records);
    if b in m {
      assert m.Values == {m[b]};
    } else {
      assert m.Values == {};
    }
  }

  // ----- One page from two partitions

  lemma DatedOrderAgrees(rows: set<Row>)
    requires UniqueIds(rows)
    ensures DatedInOrder(rows) == InOrder(Dated(rows))
  {
    var xs := DatedInOrder(rows);
    SortedLists(NewestFirst, Dated(rows));
    assert Ascending(Before, xs) by {
      assert Ascending(NewestFirst, xs);
    }
    BeforeIsTotal(Dated(rows));
    SortedUnique(Before, Dated(rows), xs);
  }

  lemma UndatedOrderAgrees(rows: set<Row>)
    requires UniqueIds(rows)
    ensures UndatedInOrder(rows) == InOrder(Undated(rows))
  {
    var xs := UndatedInOrder(rows);
    SortedLists(ById, Undated(rows));
    forall i, j | 0 <= i < j < |xs| ensures Before(xs[i], xs[j]) {
      assert ById(xs[i], xs[j]) && xs[i] in Undated(rows) && xs[j] in Undated(rows);
    }
    BeforeIsTotal(Undated(rows));
    SortedUnique(Before, Undated(rows), xs);
  }

  /** A complete result is its dated partition followed by its undated one. */
  lemma PartitionsJoin(rows: set<Row>)
    requires UniqueIds(rows)
    ensures InOrder(rows) == DatedInOrder(rows) + UndatedInOrder(rows)
  {
    DatedOrderAgrees(rows);
    UndatedOrderAgrees(rows);
    BeforeIsTotal(rows);
    assert Dated(rows) + Undated(rows) == rows;
    SortedAppend(Before, Dated(rows), Undated(rows));
  }

  /** Reading the second partition for what the first leaves room for reads their join. */
  lemma LimitJoin(a: seq<Row>, b: seq<Row>, limit: nat)
    ensures var page := Limit(a, limit);
            Limit(a + b, limit) == if |page| < limit then page + Limit(b, limit - |page|) else page
  {
  }

  function Matching(ds: set<Row>, q: Identity, building: nat): set<Row> {
    set row | row in ds && SatisfiesAll(row, WhereClauses(q)) && Satisfies(row, BuildingIs(building))
  }

  lemma MatchingSelects(ds: set<Row>, q: Identity, building: nat)
    requires q.Valid()
    ensures Matching(ds, q, building)
            == set row | row in ds && Matches(q, row) && row.group.building == Some(building)
  {
    forall row | row in ds ensures SatisfiesAll(row, WhereClauses(q)) <==> Matches(q, row) {
      WhereClausesSelect(q, row);
    }
  }

  lemma IdentitySelects(ds: set<Row>, q: Identity)
    requires q.Valid()
    ensures (set row | row in ds && SatisfiesAll(row, IdentityClauses(q)) :: row.group) == Groups(ds, q)
  {
    forall row | row in ds ensures SatisfiesAll(row, IdentityClauses(q)) <==> MatchesIdentity(q, row.group) {
      IdentityClausesSelect(q, row);
    }
  }

  /** The rows a page request selects: the matching ones its cursor clause lets through. */
  function PastCursor(rows: set<Row>, cursor: Option<Cursor>): set<Row> {
    match cursor
    case None => rows
    case Some(c) =>
      if c.date.None? then set row | row in rows && row.id > c.id
      else set row | row in rows && row.date.Some? &&
                     (row.date.value < c.date.value || (row.date == c.date && row.id > c.id))
  }

  /** The partitions of what remains are the ones the two requests select. */
  lemma RequestsSelectRemaining(ds: set<Row>, q: PropertyQuery, building: nat)
    requires q.identity.Valid()
    ensures var rest, matching := Remaining(ds, q, building), Matching(ds, q.identity, building);
            var rows := PastCursor(matching, q.continuation);
            if q.continuation.Some? && q.continuation.value.date.None? then
              Dated(rest) == {} && Undated(rows) == Undated(rest)
            else
              && Dated(rows) == Dated(rest)
              && Undated(matching) == Undated(rest)
              && (q.identity.dateFrom.Some? || q.identity.dateTo.Some? ==> Undated(rest) == {})
  {
    MatchingSelects(ds, q.identity, building);
  }

  lemma PagesOfPartitions(ds: set<Row>, q: PropertyQuery, building: nat)
    requires UniqueIds(ds) && q.identity.Valid()
    ensures var limit, matching := q.identity.limit + 1, Matching(ds, q.identity, building);
            var rows := PastCursor(matching, q.continuation);
            var expected := Limit(InOrder(Remaining(ds, q, building)), limit);
            if q.continuation.Some? && q.continuation.value.date.None? then
              Limit(UndatedInOrder(rows), limit) == expected
            else
              var dated := Limit(DatedInOrder(rows), limit);
              expected == if |dated| < limit && q.identity.dateFrom.None? && q.identity.dateTo.None?
                          then dated + Limit(UndatedInOrder(matching), limit - |dated|)
                          else dated
  {
    var rest := Remaining(ds, q, building);
    RequestsSelectRemaining(ds, q, building);
    PartitionsJoin(rest);
    LimitJoin(DatedInOrder(rest), UndatedInOrder(rest), q.identity.limit + 1);
  }

  /**
    How many requests a page takes: a second one exactly when the dated rows that are
    left do not fill it and no date filter excludes the undated ones.
   */
  ghost function PageRequests(ds: set<Row>, q: PropertyQuery, building: nat): nat {
    var undatedOnly := q.continuation.Some? && q.continuation.value.date.None?;
    var filtered := q.identity.dateFrom.Some? || q.identity.dateTo.Some?;
    if !undatedOnly && !filtered && |Dated(Remaining(ds, q, building))| <= q.identity.limit then 2 else 1
  }

  /** How many requests the publisher has to answer. */
  ghost function RequestsNeeded(ds: set<Row>, q: PropertyQuery): (n: nat)
    ensures n <= 3
  {
    var resolves := q.identity.Valid() && q.identity.building.None? && q.continuation.None?;
    match TargetOf(ds, q)
    case Building(b) => (if resolves then 1 else 0) + PageRequests(ds, q, b)
    case _ => if resolves then 1 else 0
  }

  lemma DatedPageLength(ds: set<Row>, q: PropertyQuery, building: nat, limit: nat)
    requires UniqueIds(ds) && q.identity.Valid()
    requires !(q.continuation.Some? && q.continuation.value.date.None?)
    ensures var rows := PastCursor(Matching(ds, q.identity, building), q.continuation);
            |Limit(DatedInOrder(rows), limit)| == Min(limit, |Dated(Remaining(ds, q, building))|)
  {
    RequestsSelectRemaining(ds, q, building);
    SortedLists(NewestFirst, Dated(Remaining(ds, q, building)));
  }

  /**
    The page request, and the request for undated rows when the dated ones leave
    room. Both WHERE texts select on the building, one also on the cursor.
   */
  method ReadRows(ds: set<Row>, q: PropertyQuery, building: nat, answered: nat) returns (page: Option<seq<Row>>)
    requires UniqueIds(ds) && q.identity.Valid()
    ensures page == if answered < PageRequests(ds, q, building) then None
                    else Some(Limit(InOrder(Remaining(ds, q, building)), q.identity.limit + 1))
  {
    if answered == 0 {
      return None;
    }
    var limit := q.identity.limit + 1;
    var matching := Matching(ds, q.identity, building);
    var rows := PastCursor(matching, q.continuation);
    ghost var expected := Limit(InOrder(Remaining(ds, q, building)), limit);
    PagesOfPartitions(ds, q, building);
    if q.continuation.Some? && q.continuation.value.date.None? {
      page := Some(Limit(UndatedInOrder(rows), limit));
      assert page == Some(expected);
    } else {
      var records := Limit(DatedInOrder(rows), limit);
      DatedPageLength(ds, q, building, limit);
      if |records| < limit && q.identity.dateFrom.None? && q.identity.dateTo.None? {
        if answered == 1 {
          return None;
        }
        records := records + Limit(UndatedInOrder(matching), limit - |records|);
        assert records == expected;
      }
      page := Some(records);
    }
  }

  /**
    `HpdSocrataConnector.search` on a dataset that does not change during the call.
    `answered` is how many requests the publisher answers before it becomes
    unavailable; a search needs at most three.
   */
  method Search(ds: set<Row>, q: PropertyQuery, answered: nat) returns (r: Result<Page, ConnectorError>)
    requires UniqueIds(ds)
    ensures r == if answered < RequestsNeeded(ds, q) then Err(Unavailable) else Answer(ds, q)
  {
    if !q.identity.Valid() {
      return Err(InvalidQuery);
    }
    var left := answered;
    var building := q.identity.building;
    if q.identity.building.None? && q.continuation.None? {
      if left == 0 {
        return Err(Unavailable);
      }
      left := left - 1;
      var groups := set row | row in ds && SatisfiesAll(row, IdentityClauses(q.identity)) :: row.group;
      IdentitySelects(ds, q.identity);
      if |groups| > 100 {
        return Err(TooManyBuildings);
      }
      if exists g | g in groups :: g.building.None? {
        return Err(InvalidCandidate);
      }
      if |groups| != 1 {
        return Ok(Page(q, groups, [], |groups| > 1, None, |groups| == 0,
                       if groups == {} then VerifiedZero else Success));
      }
      OnlyElement(groups);
      var g :| g in groups;
      building := g.building;
    }
    if q.continuation.Some? {
      var c := q.continuation.value;
      if c.identity != q.identity || c.building.None? {
        return Err(InvalidContinuation);
      }
      building := c.building;
    }
    var read := ReadRows(ds, q, building.value, left);
    if read.None? {
      return Err(Unavailable);
    }
    var rows := read.value;
    var page := Assemble(q, rows);
    RemainingInBuilding(ds, q, building.value);
    AssembleCutsPage(q, InOrder(Remaining(ds, q, building.value)), building.value);
    r := Ok(page);
  }

  /** What `search` returns for the at most `limit + 1` rows it has read. */
  function Assemble(q: PropertyQuery, rows: seq<Row>): Page
    requires q.identity.limit >= 1
  {
    var read := Limit(rows, q.identity.limit);
    var candidates := CandidatesOf(read);
    var requiresSelection := q.identity.building.None? && |candidates| > 1;
    var records := if requiresSelection then [] else read;
    var hasMore := |rows| > q.identity.limit && records != [];
    Page(q, candidates, records, requiresSelection,
         if hasMore then Some(Continuation(q.identity, records[|records| - 1])) else None,
         !hasMore && !requiresSelection,
         if rows == [] then VerifiedZero else Success)
  }

  /** One row beyond the limit decides whether there is more, and one building needs no selection. */
  lemma AssembleCutsPage(q: PropertyQuery, listing: seq<Row>, building: nat)
    requires q.identity.limit >= 1
    requires forall row | row in listing :: row.group.building == Some(building)
    ensures Assemble(q, Limit(listing, q.identity.limit + 1)) == PageOf(q, listing)
  {
    var rows := Limit(listing, q.identity.limit + 1);
    assert Limit(rows, q.identity.limit) == Limit(listing, q.identity.limit);
    OneBuildingOneCandidate(Limit(listing, q.identity.limit), building);
  }

  lemma RemainingInBuilding(ds: set<Row>, q: PropertyQuery, building: nat)
    requires UniqueIds(ds)
    ensures forall row | row in InOrder(Remaining(ds, q, building)) :: row.group.building == Some(building)
  {
    SortedLists(Before, Remaining(ds, q, building));
  }

  // ----- Following continuations

  function Next(q: PropertyQuery, page: Page): PropertyQuery {
    PropertyQuery(q.identity, page.continuation)
  }

  /** The rows a query can still return. */
  ghost function Left(ds: set<Row>, q: PropertyQuery): set<Row> {
    match TargetOf(ds, q)
    case Building(b) => Remaining(ds, q, b)
    case _ => {}
  }

  function Beyond(rows: set<Row>, last: Row): set<Row> {
    set row | row in rows && Before(last, row)
  }

  lemma BeyondLast(ds: set<Row>, q: PropertyQuery, b: nat, last: Row)
    requires last in Remaining(ds, q, b)
    ensures Remaining(ds, PropertyQuery(q.identity, Some(Continuation(q.identity, last))), b)
            == Beyond(Remaining(ds, q, b), last)
  {
  }

  lemma InOrderBeyond(rows: set<Row>, limit: nat)
    requires UniqueIds(rows) && 1 <= limit < |InOrder(rows)|
    ensures var last := InOrder(rows)[limit - 1];
            && last in rows
            && Beyond(rows, last) < rows
            && InOrder(Beyond(rows, last)) == InOrder(rows)[limit..]
  {
    BeforeIsTotal(rows);
    var last := InOrder(rows)[limit - 1];
    SortedAfter(Before, rows, limit - 1, Beyond(rows, last));
  }

  /** A continuation picks up exactly after the page that issued it, in either partition. */
  lemma NextContinues(ds: set<Row>, q: PropertyQuery, b: nat)
    requires UniqueIds(ds) && TargetOf(ds, q) == Building(b)
    requires Answer(ds, q).value.continuation.Some?
    ensures var next := Next(q, Answer(ds, q).value);
            && TargetOf(ds, next) == Building(b)
            && Remaining(ds, next, b) < Remaining(ds, q, b)
            && InOrder(Remaining(ds, next, b)) == InOrder(Remaining(ds, q, b))[q.identity.limit..]
  {
    var rest := Remaining(ds, q, b);
    InOrderBeyond(rest, q.identity.limit);
    BeyondLast(ds, q, b, InOrder(rest)[q.identity.limit - 1]);
  }

  /** Every page obtained by following continuations from `q`. */
  ghost function Chain(ds: set<Row>, q: PropertyQuery): seq<Page>
    requires UniqueIds(ds) && Answer(ds, q).Ok?
    decreases Left(ds, q)
  {
    var page := Answer(ds, q).value;
    if page.continuation.None? then [page]
    else
      NextContinues(ds, q, TargetOf(ds, q).number);
      [page] + Chain(ds, Next(q, page))
  }

  function RowsOf(pages: seq<Page>): seq<Row> {
    if pages == [] then [] else pages[0].records + RowsOf(pages[1..])
  }

  /** Only the last page claims completeness, and every earlier page is full. */
  ghost predicate ProperChain(pages: seq<Page>, limit: int) {
    && pages != []
    && (forall i | 0 <= i < |pages| :: pages[i].isComplete <==> i == |pages| - 1)
    && (forall i | 0 <= i < |pages| :: pages[i].continuation.None? <==> i == |pages| - 1)
    && (forall i | 0 <= i < |pages| - 1 :: |pages[i].records| == limit)
    && (forall i | 0 <= i < |pages| :: |pages[i].records| <= limit && !pages[i].requiresSelection)
  }

  lemma {:induction false} ChainReadsRemaining(ds: set<Row>, q: PropertyQuery, b: nat)
    requires UniqueIds(ds) && TargetOf(ds, q) == Building(b)
    ensures RowsOf(Chain(ds, q)) == InOrder(Remaining(ds, q, b))
    ensures ProperChain(Chain(ds, q), q.identity.limit)
    decreases Remaining(ds, q, b)
  {
    var listing := InOrder(Remaining(ds, q, b));
    var page := Answer(ds, q).value;
    if page.continuation.None? {
      assert RowsOf([page]) == page.records + RowsOf([]);
    } else {
      NextContinues(ds, q, b);
      var rest := Chain(ds, Next(q, page));
      ChainReadsRemaining(ds, Next(q, page), b);
      assert Chain(ds, q) == [page] + rest && ([page] + rest)[1..] == rest;
      assert listing == listing[..q.identity.limit] + listing[q.identity.limit..];
    }
  }

  /** Resolving to one building, or to none, loses no matching row. */
  lemma FirstPageCoversMatches(ds: set<Row>, q: Identity)
    requires UniqueIds(ds)
    requires var first := Answer(ds, PropertyQuery(q, None)); first.Ok? && !first.value.requiresSelection
    ensures Left(ds, PropertyQuery(q, None)) == MatchingRows(ds, q)
  {
    var first := PropertyQuery(q, None);
    var groups := Groups(ds, q);
    forall row | row in ds && Matches(q, row) ensures row in Left(ds, first) {
      assert row.group in groups;
      if q.building.None? {
        OnlyElement(groups);
      }
    }
  }

  /** A query is refused for no other reason than these. */
  lemma RefusedQueries(ds: set<Row>, q: PropertyQuery)
    requires UniqueIds(ds)
    ensures Answer(ds, q) == Err(InvalidQuery) <==>
              var i := q.identity;
              || (i.building.None? && i.registration.None? && i.house.None?)
              || i.house.Some? != i.street.Some?
              || i.limit < 1 || i.limit > 100
              || (i.dateFrom.Some? && i.dateTo.Some? && i.dateTo.value < i.dateFrom.value)
    ensures Answer(ds, q) == Err(InvalidContinuation) <==>
              && q.identity.Valid() && q.continuation.Some?
              && (q.continuation.value.identity != q.identity || q.continuation.value.building.None?)
  {
  }

  /**
    An address of several buildings: the page offers exactly the buildings with a row at that address
    and nothing else, and choosing one of them asks for exactly its rows, so no matching row is lost.
   */
  lemma ChoosingCoversMatches(ds: set<Row>, q: Identity)
    requires UniqueIds(ds)
    requires var first := Answer(ds, PropertyQuery(q, None)); first.Ok? && first.value.requiresSelection
    ensures var page := Answer(ds, PropertyQuery(q, None)).value;
            && page.records == [] && page.continuation == None && !page.isComplete && page.status == Success
            && |page.candidates| > 1
            && (forall g :: g in page.candidates <==>
                              exists row :: row in ds && row.group == g && MatchesIdentity(q, g))
            && (forall g | g in page.candidates ::
                  && g.building.Some?
                  && var chosen := Answer(ds, PropertyQuery(q.(building := g.building), None));
                  && chosen.Ok? && !chosen.value.requiresSelection)
            && (forall row :: row in MatchingRows(ds, q) <==>
                  exists g :: g in page.candidates && row in MatchingRows(ds, q.(building := g.building)))
  {
    var page := Answer(ds, PropertyQuery(q, None)).value;
    forall row | row in MatchingRows(ds, q)
      ensures exists g :: g in page.candidates && row in MatchingRows(ds, q.(building := g.building))
    {
      assert row.group in page.candidates && row in MatchingRows(ds, q.(building := row.group.building));
    }
  }

  /** A first page that needs no selection is a verified zero exactly when no row matches. */
  lemma VerifiedZeroMeansNone(ds: set<Row>, q: Identity)
    requires UniqueIds(ds)
    requires var first := Answer(ds, PropertyQuery(q, None)); first.Ok? && !first.value.requiresSelection
    ensures Answer(ds, PropertyQuery(q, None)).value.status == VerifiedZero <==> MatchingRows(ds, q) == {}
  {
    var first := PropertyQuery(q, None);
    FirstPageCoversMatches(ds, q);
    match TargetOf(ds, first) {
      case Building(b) =>
        BeforeIsTotal(Remaining(ds, first, b));
        SortedLists(Before, Remaining(ds, first, b));
      case _ =>
    }
  }

  /** A page of violations names the one building they are at, as its last record spells it. */
  lemma PageNamesBuilding(ds: set<Row>, q: PropertyQuery, b: nat)
    requires UniqueIds(ds) && TargetOf(ds, q) == Building(b)
    ensures var page := Answer(ds, q).value;
            page.candidates == if page.records == [] then {} else {page.records[|page.records| - 1].group}
  {
    var listing := InOrder(Remaining(ds, q, b));
    RemainingInBuilding(ds, q, b);
    LastGroup(Limit(listing, q.identity.limit), b);
  }

  lemma LastGroup(records: seq<Row>, b: nat)
    requires forall row | row in records :: row.group.building == Some(b)
    ensures CandidatesOf(records) == if records == [] then {} else {records[|records| - 1].group}
  {
    if records != [] {
      var front := records[..|records| - 1];
      OneBuildingOneCandidate(front, b);
      var m := LastByBuilding(records);
      assert m.Keys == {b} && m[b] == records[|records| - 1].group;
      assert m.Values == {m[b]};
    }
  }

  /**
    Following continuations from a first page that needs no selection reads the
    one-shot listing: every matching row exactly once and in order, whatever the
    limit and wherever the dated rows end.
   */
  lemma PagingReadsListing(ds: set<Row>, q: Identity)
    requires UniqueIds(ds)
    requires var first := Answer(ds, PropertyQuery(q, None)); first.Ok? && !first.value.requiresSelection
    ensures var pages := Chain(ds, PropertyQuery(q, None));
            && RowsOf(pages) == Listing(ds, q)
            && Lists(Before, MatchingRows(ds, q), RowsOf(pages))
            && ProperChain(pages, q.limit)
  {
    var first := PropertyQuery(q, None);
    FirstPageCoversMatches(ds, q);
    BeforeIsTotal(Left(ds, first));
    SortedLists(Before, Left(ds, first));
    match TargetOf(ds, first) {
      case Building(b) => ChainReadsRemaining(ds, first, b);
      case Stop(groups) => assert RowsOf([StopPage(first, groups)]) == RowsOf([]);
      case Refused(_) =>
    }
  }
}
