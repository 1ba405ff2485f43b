/**
 * `MongoDBUploader` (pd_DB.py, and the same class in push_data.py): clears a
 * collection, inserts a batch of sanitised records, exports the collection as a
 * table, and the clear-then-upload replace run of the scripts' entry points.
 * The collection is a sequence of documents; whether the store call failed is an
 * explicit parameter of each operation.
 */
module RecordStore {
  import opened Tables
  import opened KeySanitizer

  /** `[self.preprocess_data(record) for record in json_data]`. */
  function PreprocessAll(records: seq<Record>): (docs: seq<Record>)
    ensures |docs| == |records|
    ensures forall i :: 0 <= i < |records| ==> docs[i] == Preprocess(records[i])
    ensures forall i, k :: 0 <= i < |docs| && k in Keys(docs[i]) ==> IsClean(k)
    ensures forall i :: 0 <= i < |docs| ==> IsDict(docs[i])
  {
    var docs := seq(|records|, i requires 0 <= i < |records| => Preprocess(records[i]));
    assert forall i :: 0 <= i < |docs| ==> IsDict(docs[i]) && forall k :: k in Keys(docs[i]) ==> IsClean(k) by {
      forall i | 0 <= i < |docs| ensures IsDict(docs[i]) && forall k :: k in Keys(docs[i]) ==> IsClean(k) {
        PreprocessKeys(records[i]);
        PreprocessClean(records[i]);
      }
    }
    docs
  }

  /** The cell a DataFrame built from a dict shows for key `k`: the value, or missing. */
  function CellOf(d: Record, k: string): Cell
  {
    match Lookup(d, k)
    case Some(v) => v
    case None => Null
  }

  /** Some document of `docs` has key `k`. */
  predicate InSomeDoc(docs: seq<Record>, k: string)
  {
    exists i :: 0 <= i < |docs| && k in Keys(docs[i])
  }

  lemma InSomeDocSplit(docs: seq<Record>, k: string)
    requires docs != []
    ensures InSomeDoc(docs, k) <==> InSomeDoc(docs[..|docs| - 1], k) || k in Keys(docs[|docs| - 1])
  {
    var init := docs[..|docs| - 1];
    if InSomeDoc(init, k) {
      var i :| 0 <= i < |init| && k in Keys(init[i]);
      assert docs[i] == init[i];
    }
    if InSomeDoc(docs, k) {
      var i :| 0 <= i < |docs| && k in Keys(docs[i]);
      if i < |init| { assert init[i] == docs[i]; }
    }
  }

  /** The keys of all documents, in order. */
  function AllKeys(docs: seq<Record>): (ks: seq<string>)
    ensures forall k :: k in ks <==> InSomeDoc(docs, k)
  {
    if docs == [] then []
    else
      assert forall k :: InSomeDoc(docs, k) <==> InSomeDoc(docs[..|docs| - 1], k) || k in Keys(docs[|docs| - 1]) by {
        forall k ensures InSomeDoc(docs, k) <==> InSomeDoc(docs[..|docs| - 1], k) || k in Keys(docs[|docs| - 1]) {
          InSomeDocSplit(docs, k);
        }
      }
      AllKeys(docs[..|docs| - 1]) + Keys(docs[|docs| - 1])
  }

  function DocRow(d: Record, i: nat, columns: seq<string>): Row
  {
    Row(i, map c | c in columns :: CellOf(d, c))
  }

  /**
   * `pd.DataFrame(list_of_dicts)`: one row per document, labelled 0, 1, ...; the columns are
   * every key of every document in order of first appearance; a key a document lacks reads
   * as missing.
   */
  function ToDataFrame(docs: seq<Record>): (t: Table)
    ensures WellFormed(t)
    ensures |t.rows| == |docs|
    ensures forall i :: 0 <= i < |docs| ==> t.rows[i].index == i
    ensures forall c :: c in t.columns <==> InSomeDoc(docs, c)
    ensures forall i, k :: 0 <= i < |docs| ==> Get(t.rows[i], k) == CellOf(docs[i], k)
  {
    var columns := Unique(AllKeys(docs));
    var rows := seq(|docs|, i requires 0 <= i < |docs| => DocRow(docs[i], i, columns));
    DocRowsWellFormed(docs, columns, rows);
    forall i, k | 0 <= i < |docs| ensures Get(rows[i], k) == CellOf(docs[i], k) {
      if k !in columns {
        assert !InSomeDoc(docs, k);
        assert k !in Keys(docs[i]);
      }
    }
    Table(columns, rows)
  }

  lemma DocRowsWellFormed(docs: seq<Record>, columns: seq<string>, rows: seq<Row>)
    requires Distinct(columns) && |rows| == |docs|
    requires forall i :: 0 <= i < |docs| ==> rows[i] == DocRow(docs[i], i, columns)
    ensures WellFormed(Table(columns, rows))
  {
    forall r | r in rows ensures r.cells.Keys == ColumnSet(Table(columns, rows)) {
      var i :| 0 <= i < |rows| && rows[i] == r;
    }
  }

  /** The collection of one database, with the uploader's operations on it. */
  class MongoDBUploader {
    /** The documents of the collection, in insertion order. */
    var documents: seq<Record>

    constructor (existing: seq<Record>)
      ensures documents == existing
    {
      documents := existing;
    }

    /** `clear_collection`: `delete_many({})`; a store error is logged and changes nothing. */
    method ClearCollection(failed: bool)
      modifies this
      ensures documents == if failed then old(documents) else []
    {
      if !failed {
        documents := [];
      }
    }

    /**
     * `upload_to_mongo`: with no records (`None` or an empty list) nothing is inserted; otherwise
     * every record is sanitised and all are inserted in one batch, in order; a store error is
     * logged and inserts nothing.
     */
    method UploadToMongo(jsonData: Option<seq<Record>>, failed: bool)
      modifies this
      ensures jsonData.None? || jsonData.value == [] || failed ==> documents == old(documents)
      ensures jsonData.Some? && jsonData.value != [] && !failed ==>
                documents == old(documents) + PreprocessAll(jsonData.value)
    {
      if jsonData.Some? && jsonData.value != [] {
        var processed := PreprocessAll(jsonData.value);
        if !failed {
          documents := documents + processed;
        }
      }
    }

    /** `export_from_mongo`: the collection as a table, or an empty table when the store call fails. */
    method ExportFromMongo(failed: bool) returns (t: Table)
      ensures failed ==> t == Empty
      ensures !failed ==> t == ToDataFrame(documents)
      ensures WellFormed(t) && |t.rows| == if failed then 0 else |documents|
    {
      if failed {
        t := Empty;
      } else {
        t := ToDataFrame(documents);
      }
    }
  }

  /**
   * The collection after the entry point's run: when the spreadsheet conversion gave records,
   * clear the collection and upload them; otherwise touch nothing.
   */
  function Synced(prior: seq<Record>, converted: Option<seq<Record>>, clearFailed: bool, insertFailed: bool): seq<Record>
  {
    if converted.None? || converted.value == [] then prior
    else
      var cleared := if clearFailed then prior else [];
      if insertFailed then cleared else cleared + PreprocessAll(converted.value)
  }

  /** The `__main__` run: convert, clear, upload, then export the collection. */
  method SyncFromSpreadsheet(uploader: MongoDBUploader, converted: Option<seq<Record>>,
                             clearFailed: bool, insertFailed: bool, exportFailed: bool)
    returns (t: Table)
    modifies uploader
    ensures uploader.documents == Synced(old(uploader.documents), converted, clearFailed, insertFailed)
    ensures t == if exportFailed then Empty else ToDataFrame(uploader.documents)
  {
    if converted.Some? && converted.value != [] {
      uploader.ClearCollection(clearFailed);
      uploader.UploadToMongo(converted, insertFailed);
    }
    t := uploader.ExportFromMongo(exportFailed);
  }

  /** A failed or empty conversion neither clears nor writes the collection. */
  lemma SyncSkipsFailedConversion(prior: seq<Record>, converted: Option<seq<Record>>, clearFailed: bool, insertFailed: bool)
    requires converted.None? || converted.value == []
    ensures Synced(prior, converted, clearFailed, insertFailed) == prior
  {
  }

  /** A successful run replaces the collection by the sanitised records, whatever it held before. */
  lemma SyncReplaces(prior: seq<Record>, records: seq<Record>)
    requires records != []
    ensures Synced(prior, Some(records), false, false) == PreprocessAll(records)
  {
  }

  /** Re-running with the same source gives the same collection: a full overwrite, not an addition. */
  lemma SyncIdempotent(prior: seq<Record>, converted: Option<seq<Record>>)
    ensures Synced(Synced(prior, converted, false, false), converted, false, false) == Synced(prior, converted, false, false)
  {
  }

  /** Clear succeeded and the insert failed: the collection is left empty (no transaction spans the two). */
  lemma SyncFailureWindow(prior: seq<Record>, records: seq<Record>)
    requires records != []
    ensures Synced(prior, Some(records), false, true) == []
  {
  }

  /**
   * After a successful run, the exported table has one row per source record, in order, and row
   * `i` holds under each sanitised key the value of the last field of record `i` mapped to it.
   */
  lemma SyncedExport(prior: seq<Record>, records: seq<Record>, i: nat, k: string)
    requires records != [] && i < |records|
    ensures |ToDataFrame(Synced(prior, Some(records), false, false)).rows| == |records|
    ensures Get(ToDataFrame(Synced(prior, Some(records), false, false)).rows[i], k) ==
              match LastWithKey(records[i], k) case Some(v) => v case None => Null
  {
    var docs := Synced(prior, Some(records), false, false);
    assert docs == PreprocessAll(records);
    PreprocessLookup(records[i], k);
  }
}
