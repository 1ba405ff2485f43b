/**
 * `DataFrameManager` (data_transformation.py): holds the table exported from the
 * collection and drops a configured list of unwanted columns from it in place.
 */
module DataTransformation {
  import opened Tables
  import opened RecordStore

  class DataFrameManager {
    const uploader: MongoDBUploader
    const dropColumns: seq<string>
    /** `self.df`: `None` until the first export. */
    var df: Option<Table>

    constructor (uploader: MongoDBUploader, dropColumns: seq<string>)
      ensures this.uploader == uploader && this.dropColumns == dropColumns
      ensures df == None
    {
      this.uploader := uploader;
      this.dropColumns := dropColumns;
      df := None;
    }

    /** `export_data`: `df` becomes the exported collection (an empty table if the store call fails). */
    method ExportData(failed: bool)
      modifies this`df
      ensures df == Some(if failed then Empty else ToDataFrame(uploader.documents))
    {
      var t := uploader.ExportFromMongo(failed);
      df := Some(t);
    }

    /**
     * `drop_unwanted_columns`: with no table, nothing happens; otherwise the names of
     * `dropColumns` the table lacks are reported, in `dropColumns` order, and every listed
     * column the table has is removed.
     */
    method DropUnwantedColumns() returns (missing: seq<string>)
      modifies this`df
      ensures old(df).None? ==> df == None && missing == []
      ensures old(df).Some? ==> df == Some(DropColumns(old(df).value, dropColumns))
      ensures old(df).Some? ==> missing == Without(dropColumns, old(df).value.columns)
    {
      missing := [];
      if df.Some? {
        missing := Without(dropColumns, df.value.columns);
        df := Some(DropColumns(df.value, dropColumns));
      }
    }

    /** `get_dataframe`: the current table, as it is. */
    method GetDataFrame() returns (r: Option<Table>)
      ensures r == df
    {
      r := df;
    }
  }

  /** A failed export followed by the drop leaves an empty table with no columns, and reports every listed name. */
  lemma DropOnFailedExport(drop: seq<string>)
    ensures DropColumns(Empty, drop) == Empty
    ensures Without(drop, Empty.columns) == drop
  {
    WithoutNothing(drop);
  }

  lemma {:induction false} WithoutNothing(s: seq<string>)
    ensures Without(s, []) == s
  {
    if s != [] {
      WithoutNothing(s[1..]);
      assert [s[0]] + s[1..] == s;
    }
  }
}
