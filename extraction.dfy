/** Record extraction: one flat row per `Record` element, its attributes merged
    with positionally named metadata values, and the running set of metadata
    column names (Source/preprocessing.py, the loop of the second
    `xml_to_excel`). */
module Extraction {
  import opened Wrappers
  import opened Digits
  import opened ElementTree

  /** A flat row: column name to raw cell.  Attribute values are always
      present; a `MetadataEntry` without a `value` attribute gives None. */
  type FlatRow = map<string, Option<string>>

  const RecordTag := "Record"
  const MetadataTag := "MetadataEntry"

  /** `f"Metadata_{i}"` */
  function MetaKey(i: nat): string
  {
    "Metadata_" + NatToString(i)
  }

  lemma MetaKeyInjective(i: nat, j: nat)
    requires MetaKey(i) == MetaKey(j)
    ensures i == j
  {
    assert NatToString(i) == MetaKey(i)[9..];
    assert NatToString(j) == MetaKey(j)[9..];
    NatToStringInjective(i, j);
  }

  /** The synthetic key names of the first n metadata entries. */
  function MetaKeys(n: nat): set<string>
  {
    set i | 0 <= i < n :: MetaKey(i)
  }

  lemma MetaKeysMonotone(m: nat, n: nat)
    requires m <= n
    ensures MetaKeys(m) <= MetaKeys(n)
  {
  }

  lemma MetaKeysSucc(n: nat)
    ensures MetaKeys(n + 1) == MetaKeys(n) + {MetaKey(n)}
  {
  }

  /** Adding the keys of a shorter run of entries to a longer one adds nothing. */
  lemma MetaKeysUnion(m: nat, n: nat)
    ensures MetaKeys(m) + MetaKeys(n) == MetaKeys(if m <= n then n else m)
  {
    if m <= n { MetaKeysMonotone(m, n); } else { MetaKeysMonotone(n, m); }
  }

  /** The comprehension `{f"Metadata_{i}": entry.get('value') for i, entry in
      enumerate(entries)}`, built entry by entry. */
  function MetadataValues(entries: seq<Element>): (m: map<string, Option<string>>)
    ensures m.Keys == MetaKeys(|entries|)
    ensures forall i :: 0 <= i < |entries| ==> m[MetaKey(i)] == Get(entries[i], "value")
  {
    if entries == [] then map[]
    else
      var n := |entries| - 1;
      var prev := MetadataValues(entries[..n]);
      MetadataValuesStep(entries, prev);
      prev[MetaKey(n) := Get(entries[n], "value")]
  }

  lemma MetadataValuesStep(entries: seq<Element>, prev: map<string, Option<string>>)
    requires entries != []
    requires prev.Keys == MetaKeys(|entries| - 1)
    requires forall i :: 0 <= i < |entries| - 1 ==> prev[MetaKey(i)] == Get(entries[i], "value")
    ensures var m := prev[MetaKey(|entries| - 1) := Get(entries[|entries| - 1], "value")];
      && m.Keys == MetaKeys(|entries|)
      && forall i :: 0 <= i < |entries| ==> m[MetaKey(i)] == Get(entries[i], "value")
  {
    var n := |entries| - 1;
    var m := prev[MetaKey(n) := Get(entries[n], "value")];
    MetaKeysSucc(n);
    forall i | 0 <= i < |entries| ensures m[MetaKey(i)] == Get(entries[i], "value") {
      if i < n && MetaKey(i) == MetaKey(n) { MetaKeyInjective(i, n); }
    }
  }

  /** The MetadataEntry elements of a record (`record.findall('.//MetadataEntry')`). */
  function Entries(record: Element): seq<Element>
  {
    FindAll(record, MetadataTag)
  }

  /** `record.attrib.copy()` updated with the metadata values. */
  function Flatten(record: Element): FlatRow
  {
    var attrs := map k | k in record.attrib :: Some(record.attrib[k]);
    attrs + MetadataValues(Entries(record))
  }

  /** A flat row has the record's attributes and its metadata keys; the i-th
      metadata entry's `value` sits under `Metadata_i` even when the record
      has an attribute of that name, and every other attribute keeps its value. */
  lemma FlattenSpec(record: Element)
    ensures Flatten(record).Keys == record.attrib.Keys + MetaKeys(|Entries(record)|)
    ensures forall i :: 0 <= i < |Entries(record)| ==>
              Flatten(record)[MetaKey(i)] == Get(Entries(record)[i], "value")
    ensures forall k :: k in record.attrib && k !in MetaKeys(|Entries(record)|) ==>
              Flatten(record)[k] == Some(record.attrib[k])
  {
  }

  /** The records of a document, `root.findall('.//Record')`. */
  function Records(root: Element): seq<Element>
  {
    FindAll(root, RecordTag)
  }

  /** One flat row per record, in document order. */
  function FlatRows(records: seq<Element>): (rows: seq<FlatRow>)
    ensures |rows| == |records|
    ensures forall i :: 0 <= i < |records| ==> rows[i] == Flatten(records[i])
  {
    seq(|records|, i requires 0 <= i < |records| => Flatten(records[i]))
  }

  /** The largest number of metadata entries any one record has. */
  function MaxEntries(records: seq<Element>): (n: nat)
    ensures forall i :: 0 <= i < |records| ==> |Entries(records[i])| <= n
    ensures records == [] ==> n == 0
    ensures records != [] ==> exists i :: 0 <= i < |records| && |Entries(records[i])| == n
  {
    if records == [] then 0
    else
      var n := MaxEntries(records[..|records| - 1]);
      var last := |Entries(records[|records| - 1])|;
      if last <= n then n else last
  }

  /** The metadata columns a document needs: `Metadata_0` up to one less than
      the largest number of entries in any record. */
  function MetadataColumns(records: seq<Element>): set<string>
  {
    MetaKeys(MaxEntries(records))
  }

  /** The extraction loop: appends each record's flat row to `data` and adds
      its metadata keys to `metadataColumns`. */
  method ExtractRows(root: Element) returns (data: seq<FlatRow>, metadataColumns: set<string>)
    ensures data == FlatRows(Records(root))
    ensures metadataColumns == MetadataColumns(Records(root))
  {
    var records := Records(root);
    data := [];
    metadataColumns := {};
    var i := 0;
    while i < |records|
      invariant 0 <= i <= |records|
      invariant data == FlatRows(records[..i])
      invariant metadataColumns == MetadataColumns(records[..i])
    {
      var record := records[i];
      var metadataValues := MetadataValues(Entries(record));
      MetadataColumnsStep(records, i);
      FlatRowsStep(records, i);
      metadataColumns := metadataColumns + metadataValues.Keys;
      data := data + [Flatten(record)];
      i := i + 1;
    }
    assert records[..i] == records;
  }

  lemma FlatRowsStep(records: seq<Element>, i: nat)
    requires i < |records|
    ensures FlatRows(records[..i + 1]) == FlatRows(records[..i]) + [Flatten(records[i])]
  {
    var lhs, rhs := FlatRows(records[..i + 1]), FlatRows(records[..i]) + [Flatten(records[i])];
    assert |lhs| == |rhs|;
    forall j | 0 <= j < |lhs| ensures lhs[j] == rhs[j] {
      assert records[..i + 1][j] == records[j];
    }
  }

  lemma MetadataColumnsStep(records: seq<Element>, i: nat)
    requires i < |records|
    ensures MetadataColumns(records[..i + 1]) == MetadataColumns(records[..i]) + MetaKeys(|Entries(records[i])|)
  {
    assert records[..i + 1][..i] == records[..i];
    MetaKeysUnion(MaxEntries(records[..i]), |Entries(records[i])|);
  }

  /** The metadata columns are exactly the union of the synthetic keys of all
      rows: each row's keys are among them, and each of them is some row's. */
  lemma {:induction false} MetadataColumnsIsUnion(records: seq<Element>)
    ensures forall i :: 0 <= i < |records| ==> MetaKeys(|Entries(records[i])|) <= MetadataColumns(records)
    ensures forall k :: k in MetadataColumns(records) ==>
              exists i :: 0 <= i < |records| && k in MetaKeys(|Entries(records[i])|)
  {
    forall i | 0 <= i < |records|
      ensures MetaKeys(|Entries(records[i])|) <= MetadataColumns(records)
    {
      MetaKeysMonotone(|Entries(records[i])|, MaxEntries(records));
    }
    if records != [] {
      var i :| 0 <= i < |records| && |Entries(records[i])| == MaxEntries(records);
      assert MetadataColumns(records) == MetaKeys(|Entries(records[i])|);
    }
  }

  /** Processing more records never removes a metadata column. */
  lemma MetadataColumnsGrow(records: seq<Element>, more: seq<Element>)
    ensures MetadataColumns(records) <= MetadataColumns(records + more)
  {
    var all := records + more;
    if records != [] {
      var i :| 0 <= i < |records| && |Entries(records[i])| == MaxEntries(records);
      assert all[i] == records[i];
      MetaKeysMonotone(MaxEntries(records), MaxEntries(all));
    }
  }
}
