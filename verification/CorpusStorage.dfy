/** The stored state every corpus service works on (`LocalStorage` in app/storage/database.py). */
module CorpusStorage {
  import opened Common
  import opened CorpusTables
  import opened Receipts

  /** Identifiers as the receipts spell them. */
  datatype Naming = Naming(version: VersionId -> string, generation: GenId -> string, resource: nat -> string)
  {
    ghost predicate Valid() {
      && (forall v :: version(v) != "")
      && (forall g :: generation(g) != "")
      && (forall r :: resource(r) != "")
    }
  }

  /** The corpus tables, the artifact files and the operation receipts. */
  datatype State = State(db: Db, files: Files, receipts: map<string, Payload>)

  ghost predicate StateOk(catalog: Catalog, s: State) {
    Wf(catalog, s.db) && FilesOk(s.db.versions, s.files) && ReceiptsOk(s.receipts)
  }

  /** Every receipt was stored from a result it reads back as. */
  ghost predicate ReceiptsOk(receipts: map<string, Payload>) {
    forall id | id in receipts :: ReceiptOk(receipts[id])
  }

  ghost predicate ReceiptOk(p: Payload) {
    exists r :: NoEmptyField(r) && p == Encode(r)
  }

  class LocalStorage {
    const catalog: Catalog
    const naming: Naming
    var db: Db
    var files: Files
    var receipts: map<string, Payload>

    function Contents(): State
      reads this
    {
      State(db, files, receipts)
    }

    ghost predicate Valid()
      reads this
    {
      StateOk(catalog, Contents()) && naming.Valid()
    }

    constructor (catalog: Catalog, naming: Naming)
      requires naming.Valid()
      ensures Valid() && this.catalog == catalog && this.naming == naming
      ensures db == Db(map[], map[], map[], map[], multiset{}, multiset{}, map[], None) && files == map[]
      ensures receipts == map[]
    {
      this.catalog := catalog;
      this.naming := naming;
      db := Db(map[], map[], map[], map[], multiset{}, multiset{}, map[], None);
      files := map[];
      receipts := map[];
    }

    method Commit(s: State)
      modifies this
      ensures Contents() == s
    {
      db, files, receipts := s.db, s.files, s.receipts;
    }
  }
}
