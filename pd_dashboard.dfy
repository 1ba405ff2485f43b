/**
 * The PD dashboard (app1.py): keep the rows with a 2025 PD count, offer sorted Cluster and
 * CE choices, narrow to the chosen pair, prefill the five RCA inputs from the chosen site's
 * rows and write the entered values onto that site's rows of the full table.
 */
module PdDashboard {
  import opened Tables
  import opened CellOrder

  /** The columns shown for the filtered rows; selecting them stops the script with a `KeyError` if one is absent. */
  const DisplayColumns: seq<string> :=
    ["Site ID", "Global ID", "Site Name", "Cluster", "CE", "RCA-1", "RCA-2", "Action Plan", "Status",
     "Closure Date/TAT", "Jan-25", "Feb-25", "Mar-25", "2025 PD Count"]

  predicate HasPdColumns(df1: Table)
  {
    forall c :: c in DisplayColumns ==> c in df1.columns
  }

  /** `pd_data`: the rows whose 2025 PD count is neither missing nor the empty string. */
  function PdData(df1: Table): (r: Table)
    ensures r.columns == df1.columns
    ensures forall x :: x in r.rows <==> x in df1.rows && Get(x, "2025 PD Count") != Null && Get(x, "2025 PD Count") != Str("")
    ensures WellFormed(df1) ==> WellFormed(r)
  {
    HoldsSingle(Filled("2025 PD Count"));
    Where(df1, [Filled("2025 PD Count")])
  }

  /** `sorted(pd_data['Cluster'].dropna().unique())`; `None` is the `TypeError` of mixed kinds. */
  function ClusterOptions(pdData: Table): (r: Option<seq<Cell>>)
    ensures r.None? <==> MixedKinds(Column(pdData, "Cluster"))
    ensures r.Some? ==> StrictlySorted(r.value) && Distinct(r.value)
    ensures r.Some? ==> forall x :: x in r.value <==>
              x != Null && exists row :: row in pdData.rows && Get(row, "Cluster") == x
  {
    var vals := Column(pdData, "Cluster");
    assert forall x :: x in vals <==> exists row :: row in pdData.rows && Get(row, "Cluster") == x by {
      forall x | x in vals ensures exists row :: row in pdData.rows && Get(row, "Cluster") == x {
        var i :| 0 <= i < |vals| && vals[i] == x;
        assert pdData.rows[i] in pdData.rows;
      }
      forall x | exists row :: row in pdData.rows && Get(row, "Cluster") == x ensures x in vals {
        var row :| row in pdData.rows && Get(row, "Cluster") == x;
        var i :| 0 <= i < |pdData.rows| && pdData.rows[i] == row;
        assert vals[i] == x;
      }
    }
    SortedOptions(vals)
  }

  /** The rows of the chosen cluster. */
  function InCluster(cluster: Cell): seq<Cond>
  {
    [Eq("Cluster", cluster)]
  }

  /**
   * `sorted(pd_data[pd_data['Cluster'] == cluster]['CE'].dropna().unique())`: the CE values of
   * the chosen cluster's rows, ascending, each once.
   */
  function CeOptions(pdData: Table, cluster: Cell): (r: Option<seq<Cell>>)
    ensures r.None? <==> MixedKinds(Column(Where(pdData, InCluster(cluster)), "CE"))
    ensures r.Some? ==> StrictlySorted(r.value) && Distinct(r.value)
    ensures r.Some? ==> forall x :: x in r.value <==>
              x != Null && exists row :: row in pdData.rows && Matches(Get(row, "Cluster"), cluster) && Get(row, "CE") == x
  {
    var vals := Column(Where(pdData, InCluster(cluster)), "CE");
    forall x ensures x in vals <==> x in Options(pdData, InCluster(cluster), "CE") {
      OptionsExact(pdData, InCluster(cluster), "CE", x);
    }
    HoldsSingle(Eq("Cluster", cluster));
    forall x ensures x in Options(pdData, InCluster(cluster), "CE") <==>
      exists row :: row in pdData.rows && Matches(Get(row, "Cluster"), cluster) && Get(row, "CE") == x
    {
      OptionsExact(pdData, InCluster(cluster), "CE", x);
    }
    SortedOptions(vals)
  }

  /** The cluster and CE equalities of `filtered_pd_data`. */
  function ClusterCe(cluster: Cell, ce: Cell): seq<Cond>
  {
    [Eq("Cluster", cluster), Eq("CE", ce)]
  }

  /** `filtered_pd_data`: the `pd_data` rows matching both the chosen cluster and the chosen CE. */
  function FilteredPd(pdData: Table, cluster: Cell, ce: Cell): (r: Table)
    ensures r.columns == pdData.columns
    ensures forall x :: x in r.rows <==> x in pdData.rows && Matches(Get(x, "Cluster"), cluster) && Matches(Get(x, "CE"), ce)
    ensures WellFormed(pdData) ==> WellFormed(r)
  {
    assert forall x :: Holds(x, ClusterCe(cluster, ce)) <==> Matches(Get(x, "Cluster"), cluster) && Matches(Get(x, "CE"), ce) by {
      forall x ensures Holds(x, ClusterCe(cluster, ce)) <==> Matches(Get(x, "Cluster"), cluster) && Matches(Get(x, "CE"), ce) {
        assert ClusterCe(cluster, ce)[0] == Eq("Cluster", cluster) && ClusterCe(cluster, ce)[1] == Eq("CE", ce);
      }
    }
    Where(pdData, ClusterCe(cluster, ce))
  }

  /** Every CE offered for a cluster leaves at least one row after narrowing to the pair. */
  lemma CeCascade(pdData: Table, cluster: Cell, ce: Cell)
    requires CeOptions(pdData, cluster).Some? && ce in CeOptions(pdData, cluster).value
    ensures FilteredPd(pdData, cluster, ce).rows != []
  {
    var row :| row in pdData.rows && Matches(Get(row, "Cluster"), cluster) && Get(row, "CE") == ce;
    assert row in FilteredPd(pdData, cluster, ce).rows;
  }

  /** `filtered_pd_data["Site Name"].unique()`: the site names of the narrowed rows, each once. */
  function SiteOptions(filtered: Table): (r: seq<Cell>)
    ensures Distinct(r)
    ensures forall x :: x in r <==> exists row :: row in filtered.rows && Get(row, "Site Name") == x
  {
    forall x ensures x in Options(filtered, [], "Site Name") <==> exists row :: row in filtered.rows && Holds(row, []) && Get(row, "Site Name") == x {
      OptionsExact(filtered, [], "Site Name", x);
    }
    Options(filtered, [], "Site Name")
  }

  /** `site_data` as written: the narrowed rows whose Site ID equals the chosen site name. */
  function SiteDataAsWritten(filtered: Table, site: Cell): (r: Table)
    ensures forall x :: x in r.rows <==> x in filtered.rows && Matches(Get(x, "Site ID"), site)
  {
    HoldsSingle(Eq("Site ID", site));
    Where(filtered, [Eq("Site ID", site)])
  }

  /**
   * `site_data` keyed as intended: the narrowed rows of the chosen site name; every site
   * offered for the narrowed rows has rows of its own there.
   */
  function SiteData(filtered: Table, site: Cell): (r: Table)
    ensures forall x :: x in r.rows <==> x in filtered.rows && Matches(Get(x, "Site Name"), site)
    ensures site in SiteOptions(filtered) && site != Null ==> r.rows != []
  {
    HoldsSingle(Eq("Site Name", site));
    var r := Where(filtered, [Eq("Site Name", site)]);
    assert site in SiteOptions(filtered) && site != Null ==> r.rows != [] by {
      if site in SiteOptions(filtered) && site != Null {
        var row :| row in filtered.rows && Get(row, "Site Name") == site;
        assert row in r.rows;
      }
    }
    r
  }

  /**
   * The default of one input box: the first site row's value of that column, unless the site
   * has no rows or every one of them is missing that value, when it is the empty string.
   */
  function Prefill(siteData: Table, col: string): (r: Cell)
    ensures (forall x :: x in siteData.rows ==> Get(x, col) == Null) ==> r == Str("")
    ensures (exists x :: x in siteData.rows && Get(x, col) != Null) ==> r == Get(siteData.rows[0], col)
  {
    if forall x :: x in siteData.rows ==> Get(x, col) == Null then Str("") else Get(siteData.rows[0], col)
  }

  /** The five input boxes of the update form. */
  datatype PdEntry = PdEntry(rca1: string, rca2: string, actionPlan: string, status: string, closureDateTat: string)

  /** The columns the Update PD Data button writes, with the entered values. */
  function PdFields(e: PdEntry): map<string, Cell>
  {
    map["RCA-1" := Str(e.rca1), "RCA-2" := Str(e.rca2), "Action Plan" := Str(e.actionPlan),
        "Status" := Str(e.status), "Closure Date/TAT" := Str(e.closureDateTat)]
  }

  /** All five entered values stand in the row. */
  predicate Written(x: Row, e: PdEntry)
  {
    forall c :: c in PdFields(e) ==> Get(x, c) == PdFields(e)[c]
  }

  /**
   * The update as written: the five values go onto every row of the full table whose Site ID
   * equals the chosen site name; nothing else changes.
   */
  function UpdateAsWritten(df1: Table, site: Cell, e: PdEntry): (r: Table)
    requires WellFormed(df1) && HasPdColumns(df1)
    ensures WellFormed(r) && r.columns == df1.columns && |r.rows| == |df1.rows|
    ensures forall i :: 0 <= i < |df1.rows| && Matches(Get(df1.rows[i], "Site ID"), site) ==> Written(r.rows[i], e)
    ensures forall i :: 0 <= i < |df1.rows| && !Matches(Get(df1.rows[i], "Site ID"), site) ==> r.rows[i] == df1.rows[i]
    ensures forall i, c :: 0 <= i < |df1.rows| && c !in PdFields(e) ==> Get(r.rows[i], c) == Get(df1.rows[i], c)
    ensures (forall x :: x in df1.rows ==> !Matches(Get(x, "Site ID"), site)) ==> r == df1
  {
    SetWhereOnPdTable(df1, "Site ID", site, e);
    var r := SetWhere(df1, [Eq("Site ID", site)], PdFields(e));
    assert (forall x :: x in df1.rows ==> !Matches(Get(x, "Site ID"), site)) ==> r == df1 by {
      if forall x :: x in df1.rows ==> !Matches(Get(x, "Site ID"), site) {
        forall i | 0 <= i < |df1.rows| ensures r.rows[i] == df1.rows[i] {
          assert df1.rows[i] in df1.rows;
        }
        assert r.rows == df1.rows;
      }
    }
    r
  }

  /** The update keyed as intended: the five values go onto every row of the chosen site name. */
  function UpdatePd(df1: Table, site: Cell, e: PdEntry): (r: Table)
    requires WellFormed(df1) && HasPdColumns(df1)
    ensures WellFormed(r) && r.columns == df1.columns && |r.rows| == |df1.rows|
    ensures forall i :: 0 <= i < |df1.rows| && Matches(Get(df1.rows[i], "Site Name"), site) ==> Written(r.rows[i], e)
    ensures forall i :: 0 <= i < |df1.rows| && !Matches(Get(df1.rows[i], "Site Name"), site) ==> r.rows[i] == df1.rows[i]
    ensures forall i, c :: 0 <= i < |df1.rows| && c !in PdFields(e) ==> Get(r.rows[i], c) == Get(df1.rows[i], c)
    ensures forall j :: 0 <= j < |df1.rows| ==> Get(r.rows[j], "Site Name") == Get(df1.rows[j], "Site Name")
  {
    SetWhereOnPdTable(df1, "Site Name", site, e);
    var r := SetWhere(df1, [Eq("Site Name", site)], PdFields(e));
    forall j | 0 <= j < |df1.rows| ensures Get(r.rows[j], "Site Name") == Get(df1.rows[j], "Site Name") {
      assert "Site Name" !in PdFields(e);
      assert r.rows[j] == SetRow(df1.rows[j], [Eq("Site Name", site)], PdFields(e));
    }
    r
  }

  lemma SetWhereOnPdTable(df1: Table, key: string, site: Cell, e: PdEntry)
    requires WellFormed(df1) && HasPdColumns(df1)
    ensures var r := SetWhere(df1, [Eq(key, site)], PdFields(e));
            && (forall i :: 0 <= i < |df1.rows| && Matches(Get(df1.rows[i], key), site) ==> Written(r.rows[i], e))
            && (forall i :: 0 <= i < |df1.rows| && !Matches(Get(df1.rows[i], key), site) ==> r.rows[i] == df1.rows[i])
            && (forall i, c :: 0 <= i < |df1.rows| && c !in PdFields(e) ==> Get(r.rows[i], c) == Get(df1.rows[i], c))
  {
    var r := SetWhere(df1, [Eq(key, site)], PdFields(e));
    HoldsSingle(Eq(key, site));
    forall i | 0 <= i < |df1.rows| && Matches(Get(df1.rows[i], key), site) ensures Written(r.rows[i], e) {
      assert df1.rows[i] in df1.rows;
      forall c | c in PdFields(e) ensures Get(r.rows[i], c) == PdFields(e)[c] {
        assert c in DisplayColumns;
      }
    }
    forall i | 0 <= i < |df1.rows| && !Matches(Get(df1.rows[i], key), site) ensures r.rows[i] == df1.rows[i] {
      assert r.rows[i] == SetRow(df1.rows[i], [Eq(key, site)], PdFields(e));
    }
  }

  /** `df1.loc[df1["Site ID"] == selected_site, five columns] = entered values`, in place, as written. */
  method UpdatePdData(df1: Frame, site: Cell, e: PdEntry)
    requires WellFormed(df1.table) && HasPdColumns(df1.table)
    modifies df1
    ensures df1.table == UpdateAsWritten(old(df1.table), site, e)
  {
    PdFieldsAreColumns(df1.table, e);
    df1.LocAssign([Eq("Site ID", site)], PdFields(e));
  }

  /** The same in-place write keyed as intended, by Site Name. */
  method UpdatePdDataByName(df1: Frame, site: Cell, e: PdEntry)
    requires WellFormed(df1.table) && HasPdColumns(df1.table)
    modifies df1
    ensures df1.table == UpdatePd(old(df1.table), site, e)
  {
    PdFieldsAreColumns(df1.table, e);
    df1.LocAssign([Eq("Site Name", site)], PdFields(e));
  }

  lemma PdFieldsAreColumns(df1: Table, e: PdEntry)
    requires HasPdColumns(df1)
    ensures PdFields(e).Keys <= ColumnSet(df1)
  {
    forall c | c in PdFields(e) ensures c in ColumnSet(df1) { assert c in DisplayColumns; }
  }

  /** The cells of the one PD row of the counterexample: site `S1` named `Alpha`, PD count 3, nothing else filled. */
  function AlphaCell(c: string): Cell
  {
    if c == "Site ID" then Str("S1")
    else if c == "Site Name" then Str("Alpha")
    else if c == "2025 PD Count" then Int(3)
    else Null
  }

  function AlphaRow(): Row
  {
    Row(0, map c | c in DisplayColumns :: AlphaCell(c))
  }

  function AlphaTable(): Table
  {
    Table(DisplayColumns, [AlphaRow()])
  }

  lemma DisplayColumnsDistinct()
    ensures Distinct(DisplayColumns)
  {
  }

  lemma AlphaTableWellFormed()
    ensures WellFormed(AlphaTable()) && HasPdColumns(AlphaTable())
  {
    DisplayColumnsDistinct();
    assert AlphaTable().rows == [AlphaRow()];
  }

  /**
   * With the one-row table of site `S1` named `Alpha`, the site list offers `Alpha`; keyed by
   * Site ID, its site rows are empty (every input box starts empty) and the update writes
   * nothing, whereas keyed by Site Name the site's row is found and written.
   */
  lemma AlphaIsOfferedButNotUpdated(e: PdEntry)
    ensures WellFormed(AlphaTable()) && HasPdColumns(AlphaTable())
    ensures Str("Alpha") in SiteOptions(AlphaTable())
    ensures SiteDataAsWritten(AlphaTable(), Str("Alpha")).rows == []
    ensures UpdateAsWritten(AlphaTable(), Str("Alpha"), e) == AlphaTable()
    ensures Written(UpdatePd(AlphaTable(), Str("Alpha"), e).rows[0], e)
  {
    AlphaTableWellFormed();
    AlphaCells();
    AlphaAsWrittenEmpty(AlphaTable(), AlphaRow());
  }

  lemma AlphaCells()
    ensures AlphaTable().rows == [AlphaRow()]
    ensures Get(AlphaRow(), "Site Name") == Str("Alpha") && Get(AlphaRow(), "Site ID") == Str("S1")
  {
    assert "Site Name" in DisplayColumns && "Site ID" in DisplayColumns;
  }

  lemma AlphaAsWrittenEmpty(t: Table, r: Row)
    requires forall x :: x in t.rows ==> x == r
    requires Get(r, "Site ID") == Str("S1")
    ensures SiteDataAsWritten(t, Str("Alpha")).rows == []
  {
    HoldsSingle(Eq("Site ID", Str("Alpha")));
    NarrowNone(t.rows, [Eq("Site ID", Str("Alpha"))]);
  }

  /**
   * Keyed by Site Name, choosing any offered site of the narrowed rows writes the five values
   * onto at least one row of the full table, and onto every row of that site.
   */
  lemma ChosenSiteIsUpdated(df1: Table, cluster: Cell, ce: Cell, site: Cell, e: PdEntry)
    requires WellFormed(df1) && HasPdColumns(df1)
    requires site in SiteOptions(FilteredPd(PdData(df1), cluster, ce)) && site != Null
    ensures exists i :: 0 <= i < |df1.rows| && Matches(Get(df1.rows[i], "Site Name"), site) && Written(UpdatePd(df1, site, e).rows[i], e)
  {
    var i := OfferedSiteRow(df1, cluster, ce, site);
    assert Written(UpdatePd(df1, site, e).rows[i], e);
  }

  /** An offered site names some row of the full table. */
  lemma OfferedSiteRow(df1: Table, cluster: Cell, ce: Cell, site: Cell) returns (i: int)
    requires HasPdColumns(df1)
    requires site in SiteOptions(FilteredPd(PdData(df1), cluster, ce)) && site != Null
    ensures 0 <= i < |df1.rows| && Matches(Get(df1.rows[i], "Site Name"), site)
  {
    var pd := PdData(df1);
    var filtered := FilteredPd(pd, cluster, ce);
    var row :| row in filtered.rows && Get(row, "Site Name") == site;
    assert row in pd.rows;
    assert row in df1.rows;
    i := PositionOf(df1.rows, row);
  }

  lemma PositionOf(rows: seq<Row>, row: Row) returns (i: int)
    requires row in rows
    ensures 0 <= i < |rows| && rows[i] == row
  {
    i :| 0 <= i < |rows| && rows[i] == row;
  }

  /** After the update, each input box of the same site prefills with the value just entered. */
  lemma PrefillAfterUpdate(df1: Table, site: Cell, e: PdEntry, col: string)
    requires WellFormed(df1) && HasPdColumns(df1)
    requires exists x :: x in df1.rows && Matches(Get(x, "Site Name"), site)
    requires col in PdFields(e)
    ensures Prefill(SiteData(UpdatePd(df1, site, e), site), col) == PdFields(e)[col]
  {
    var sd := SiteData(UpdatePd(df1, site, e), site);
    UpdatedSiteRows(df1, site, e);
    assert sd.rows[0] in sd.rows;
    PrefillOfWritten(sd, e, col);
  }

  lemma PrefillOfWritten(sd: Table, e: PdEntry, col: string)
    requires sd.rows != [] && Written(sd.rows[0], e) && col in PdFields(e)
    ensures Prefill(sd, col) == PdFields(e)[col]
  {
    assert sd.rows[0] in sd.rows;
    assert Get(sd.rows[0], col) == PdFields(e)[col];
    assert PdFields(e)[col] != Null;
  }

  /** After the update the site still has rows, and every one of them holds the entered values. */
  lemma UpdatedSiteRows(df1: Table, site: Cell, e: PdEntry)
    requires WellFormed(df1) && HasPdColumns(df1)
    requires exists x :: x in df1.rows && Matches(Get(x, "Site Name"), site)
    ensures SiteData(UpdatePd(df1, site, e), site).rows != []
    ensures forall y :: y in SiteData(UpdatePd(df1, site, e), site).rows ==> Written(y, e)
  {
    var x :| x in df1.rows && Matches(Get(x, "Site Name"), site);
    var i :| 0 <= i < |df1.rows| && df1.rows[i] == x;
    SiteRowsRemain(df1, site, e, i);
    forall y | y in SiteData(UpdatePd(df1, site, e), site).rows ensures Written(y, e) {
      SiteRowWritten(df1, site, e, y);
    }
  }

  lemma SiteRowsRemain(df1: Table, site: Cell, e: PdEntry, i: int)
    requires WellFormed(df1) && HasPdColumns(df1)
    requires 0 <= i < |df1.rows| && Matches(Get(df1.rows[i], "Site Name"), site)
    ensures SiteData(UpdatePd(df1, site, e), site).rows != []
  {
    var u := UpdatePd(df1, site, e);
    assert u.rows[i] in SiteData(u, site).rows;
  }

  lemma SiteRowWritten(df1: Table, site: Cell, e: PdEntry, y: Row)
    requires WellFormed(df1) && HasPdColumns(df1)
    requires y in SiteData(UpdatePd(df1, site, e), site).rows
    ensures Written(y, e)
  {
    var u := UpdatePd(df1, site, e);
    var j :| 0 <= j < |u.rows| && u.rows[j] == y;
  }

}
