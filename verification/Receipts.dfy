/**
  Receipts of resource operations (app/corpus/resources.py): a result is stored as a
  JSON object under its operation id and decoded when the operation is asked for again.
 */
module Receipts {
  import opened Common

  datatype ResourceResult = ResourceResult(
    status: string,
    resourceId: string,
    slug: string,
    versionId: Option<string>,
    generationId: Option<string>,
    chunkCount: nat,
    warnings: seq<string>,
    duplicateOf: Option<string>)

  datatype Json = Null | Text(text: string) | Number(number: nat) | List(items: seq<Json>)

  type Payload = map<string, Json>

  function Optional(s: Option<string>): Json {
    if s.Some? then Text(s.value) else Null
  }

  /** `as_dict` followed by `json.dumps`. */
  function Encode(r: ResourceResult): Payload {
    map[
      "status" := Text(r.status),
      "resource_id" := Text(r.resourceId),
      "slug" := Text(r.slug),
      "version_id" := Optional(r.versionId),
      "generation_id" := Optional(r.generationId),
      "chunk_count" := Number(r.chunkCount),
      "warnings" := List(seq(|r.warnings|, i requires 0 <= i < |r.warnings| => Text(r.warnings[i]))),
      "duplicate_of" := Optional(r.duplicateOf)]
  }

  predicate HasText(p: Payload, key: string) {
    key in p && p[key].Text?
  }

  /** The fields `_result_from_receipt` subscripts, with the types it can read. */
  predicate Decodable(p: Payload) {
    && HasText(p, "status") && HasText(p, "resource_id") && HasText(p, "slug")
    && "chunk_count" in p && p["chunk_count"].Number?
    && ("warnings" in p ==> p["warnings"].List? && forall i | 0 <= i < |p["warnings"].items| ::
          p["warnings"].items[i].Text?)
  }

  /** `str(payload[key]) if payload.get(key) else None`: an empty string is false. */
  function Truthy(p: Payload, key: string): Option<string> {
    if HasText(p, key) && p[key].text != "" then Some(p[key].text) else None
  }

  function Decode(p: Payload): ResourceResult
    requires Decodable(p)
  {
    var warnings := if "warnings" in p then p["warnings"].items else [];
    ResourceResult(
      p["status"].text, p["resource_id"].text, p["slug"].text,
      Truthy(p, "version_id"), Truthy(p, "generation_id"), p["chunk_count"].number,
      seq(|warnings|, i requires 0 <= i < |warnings| => if warnings[i].Text? then warnings[i].text else ""),
      Truthy(p, "duplicate_of"))
  }

  /** No optional field is present but empty. */
  predicate NoEmptyField(r: ResourceResult) {
    r.versionId != Some("") && r.generationId != Some("") && r.duplicateOf != Some("")
  }

  lemma EncodeDecodable(r: ResourceResult)
    ensures Decodable(Encode(r))
  {
  }

  lemma TruthyOptional(r: ResourceResult)
    ensures Truthy(Encode(r), "version_id") == (if r.versionId == Some("") then None else r.versionId)
    ensures Truthy(Encode(r), "generation_id") == (if r.generationId == Some("") then None else r.generationId)
    ensures Truthy(Encode(r), "duplicate_of") == (if r.duplicateOf == Some("") then None else r.duplicateOf)
  {
    var p := Encode(r);
    assert p["version_id"] == Optional(r.versionId);
    assert p["generation_id"] == Optional(r.generationId);
    assert p["duplicate_of"] == Optional(r.duplicateOf);
  }

  /** A receipt reads back as the result it was stored from, exactly when no optional field is empty. */
  lemma RoundTrip(r: ResourceResult)
    ensures Decodable(Encode(r))
    ensures Decode(Encode(r)) == r <==> NoEmptyField(r)
  {
    EncodeDecodable(r);
    TruthyOptional(r);
    assert Decode(Encode(r)).warnings == r.warnings;
  }

  // ----- The table of receipts

  /** `_operation_result`: an empty operation id has no receipt. */
  function ReceiptFor(receipts: map<string, Payload>, id: string): Option<ResourceResult> {
    if id != "" && id in receipts && Decodable(receipts[id]) then Some(Decode(receipts[id])) else None
  }

  /** `result` was stored under the operation id, or under a new one if there was none. */
  ghost predicate Receipted(before: map<string, Payload>, after: map<string, Payload>, id: string,
                            result: ResourceResult)
  {
    exists key :: key != "" && key !in before && (id != "" ==> key == id) && after == before[key := Encode(result)]
  }

  /** Every receipt that could be read still reads the same. */
  ghost predicate ReceiptsKept(before: map<string, Payload>, after: map<string, Payload>) {
    forall id | ReceiptFor(before, id).Some? :: ReceiptFor(after, id) == ReceiptFor(before, id)
  }

  lemma ReceiptStored(before: map<string, Payload>, after: map<string, Payload>, id: string, result: ResourceResult)
    requires Receipted(before, after, id, result) && NoEmptyField(result)
    ensures ReceiptsKept(before, after)
    ensures id != "" ==> ReceiptFor(after, id) == Some(result)
  {
    RoundTrip(result);
  }

  lemma UnusedKey(receipts: map<string, Payload>) returns (key: string)
    ensures key != "" && key !in receipts
  {
    var lengths: set<nat> := set id | id in receipts :: |id|;
    var n := FreshId(lengths);
    key := seq(n + 1, _ => 'x');
    assert key in receipts ==> |key| in lengths;
  }

  /** `_store_receipt` with `operation_id or uuid4()`. */
  method StoreReceipt(receipts: map<string, Payload>, id: string, result: ResourceResult)
      returns (after: map<string, Payload>)
    requires id == "" || id !in receipts
    ensures Receipted(receipts, after, id, result)
  {
    var key := id;
    if id == "" {
      ghost var unused := UnusedKey(receipts);
      key :| key != "" && key !in receipts.Keys;
    }
    after := receipts[key := Encode(result)];
  }
}
