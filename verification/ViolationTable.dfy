/** Upserting violation rows (app/ingestion/hpd_violations.py): row by row, and in batches. */
module ViolationTable {
  import opened Common

  type Day = int

  /** A violation record. Its status date is known to the day. */
  datatype Record = Record(id: nat, status: Option<Day>, body: string)

  type Table = map<nat, Record>

  /** The table after the records have been written in order. */
  function Upserted(table: Table, records: seq<Record>): Table {
    if records == [] then table
    else
      var last := records[|records| - 1];
      Upserted(table, records[..|records| - 1])[last.id := last]
  }

  /** How many of the records find no row to update when they are written in order. */
  function CreatedBy(table: Table, records: seq<Record>): nat {
    if records == [] then 0
    else
      var front, last := records[..|records| - 1], records[|records| - 1];
      CreatedBy(table, front) + if last.id in Upserted(table, front) then 0 else 1
  }

  function IdsOf(records: seq<Record>): set<nat> {
    set record | record in records :: record.id
  }

  predicate DistinctIds(records: seq<Record>) {
    forall i, j | 0 <= i < j < |records| :: records[i].id != records[j].id
  }

  lemma {:induction false} UpsertedKeys(table: Table, records: seq<Record>)
    ensures Upserted(table, records).Keys == table.Keys + IdsOf(records)
    ensures forall id | id in table && id !in IdsOf(records) :: Upserted(table, records)[id] == table[id]
  {
    if records != [] {
      UpsertedKeys(table, records[..|records| - 1]);
    }
  }

  /** Each record ends up in the table unless a later one has its id. */
  lemma {:induction false} UpsertedHolds(table: Table, records: seq<Record>, i: nat)
    requires DistinctIds(records) && i < |records|
    ensures records[i].id in Upserted(table, records) && Upserted(table, records)[records[i].id] == records[i]
  {
    var front := records[..|records| - 1];
    if i < |front| {
      UpsertedHolds(table, front, i);
    }
  }

  lemma {:induction false} UpsertedAppend(table: Table, a: seq<Record>, b: seq<Record>)
    ensures Upserted(table, a + b) == Upserted(Upserted(table, a), b)
    ensures CreatedBy(table, a + b) == CreatedBy(table, a) + CreatedBy(Upserted(table, a), b)
  {
    if b == [] {
      assert a + b == a;
    } else {
      UpsertedAppend(table, a, b[..|b| - 1]);
      assert (a + b)[..|a + b| - 1] == a + b[..|b| - 1];
    }
  }

  lemma IdsOfSnoc(records: seq<Record>)
    requires DistinctIds(records) && records != []
    ensures var front, last := records[..|records| - 1], records[|records| - 1];
            last.id !in IdsOf(front) && IdsOf(records) == IdsOf(front) + {last.id}
  {
  }

  lemma CountInserted(ids: set<nat>, id: nat, keys: set<nat>)
    requires id !in ids
    ensures |(ids + {id}) * keys| == |ids * keys| + if id in keys then 1 else 0
  {
    assert (ids + {id}) * keys == if id in keys then ids * keys + {id} else ids * keys;
  }

  /** In a batch without repeated ids, the rows created are those whose id was not there before. */
  lemma {:induction false} CreatedByDistinct(table: Table, records: seq<Record>)
    requires DistinctIds(records)
    ensures CreatedBy(table, records) + |IdsOf(records) * table.Keys| == |records|
  {
    if records != [] {
      var front, last := records[..|records| - 1], records[|records| - 1];
      CreatedByDistinct(table, front);
      UpsertedKeys(table, front);
      IdsOfSnoc(records);
      CountInserted(IdsOf(front), last.id, table.Keys);
    }
  }

  /** `upsert_hpd_violations` on other databases: one query and one write per record. */
  method UpsertEach(table: Table, records: seq<Record>) returns (table': Table, created: nat, updated: nat)
    ensures table' == Upserted(table, records)
    ensures created == CreatedBy(table, records) && created + updated == |records|
  {
    table', created, updated := table, 0, 0;
    var i := 0;
    while i < |records|
      invariant 0 <= i <= |records|
      invariant table' == Upserted(table, records[..i])
      invariant created == CreatedBy(table, records[..i]) && created + updated == i
    {
      assert records[..i + 1][..i] == records[..i];
      if records[i].id in table' {
        updated := updated + 1;
      } else {
        created := created + 1;
      }
      table' := table'[records[i].id := records[i]];
      i := i + 1;
    }
    assert records[..i] == records;
  }

  /**
    One set-based statement. It counts the ids already present, and fails when it
    would touch a row twice.
   */
  method UpsertBatch(table: Table, batch: seq<Record>) returns (r: Option<Table>, created: nat, updated: nat)
    ensures r == if DistinctIds(batch) then Some(Upserted(table, batch)) else None
    ensures r.Some? ==> created == CreatedBy(table, batch) && created + updated == |batch|
  {
    if !DistinctIds(batch) {
      return None, 0, 0;
    }
    CreatedByDistinct(table, batch);
    updated := |IdsOf(batch) * table.Keys|;
    created := |batch| - updated;
    r := Some(Upserted(table, batch));
  }

  /** `bulk_upsert_hpd_violations`: one statement per batch, and one commit at the end. */
  method BulkUpsert(table: Table, records: seq<Record>, batchSize: nat)
    returns (r: Option<Table>, created: nat, updated: nat)
    requires batchSize >= 1
    ensures DistinctIds(records) ==> r.Some?
    ensures r.Some? ==> r.value == Upserted(table, records)
    ensures r.Some? ==> created == CreatedBy(table, records) && created + updated == |records|
  {
    r, created, updated := Some(table), 0, 0;
    var i := 0;
    while i < |records|
      invariant 0 <= i <= |records|
      invariant r == Some(Upserted(table, records[..i]))
      invariant created == CreatedBy(table, records[..i]) && created + updated == i
    {
      var end := Min(i + batchSize, |records|);
      var written, inserted, replaced := UpsertBatch(r.value, records[i..end]);
      if written.None? {
        return None, 0, 0;
      }
      UpsertedAppend(table, records[..i], records[i..end]);
      assert records[..end] == records[..i] + records[i..end];
      r, created, updated := written, created + inserted, updated + replaced;
      i := end;
    }
    assert records[..i] == records;
  }
}
