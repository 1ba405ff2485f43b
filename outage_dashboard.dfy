/**
 * The outage dashboard (app.py): load and normalise the cleaned table, offer
 * cascading Cluster -> CE -> GID choices, narrow to the chosen rows and dates,
 * broadcast the analyst's annotation onto them and merge it back into the table.
 */
module OutageDashboard {
  import opened Tables

  // ---------------------------------------------------------------------
  // load_data: trim column names, fill missing GIDs with 0
  // ---------------------------------------------------------------------

  /**
   * The characters Python's `str.strip()` removes: those `str.isspace` accepts (the Unicode
   * space separators and the bidirectional whitespace, segment and paragraph separators).
   */
  predicate IsSpace(ch: char)
  {
    if ch <= ' ' then '\t' <= ch <= '\r' || '\U{001C}' <= ch
    else if ch <= '\U{00A0}' then ch == '\U{0085}' || ch == '\U{00A0}'
    else
      || ch == '\U{1680}' || '\U{2000}' <= ch <= '\U{200A}' || ch == '\U{2028}' || ch == '\U{2029}'
      || ch == '\U{202F}' || ch == '\U{205F}' || ch == '\U{3000}'
  }

  function TrimLeft(s: string): (r: string)
    ensures |r| <= |s| && r == s[|s| - |r|..]
    ensures forall i :: 0 <= i < |s| - |r| ==> IsSpace(s[i])
    ensures r != [] ==> !IsSpace(r[0])
  {
    if s != [] && IsSpace(s[0]) then TrimLeft(s[1..]) else s
  }

  function TrimRight(s: string): (r: string)
    ensures |r| <= |s| && r == s[..|r|]
    ensures forall i :: |r| <= i < |s| ==> IsSpace(s[i])
    ensures r != [] ==> !IsSpace(r[|r| - 1])
  {
    if s != [] && IsSpace(s[|s| - 1]) then TrimRight(s[..|s| - 1]) else s
  }

  /** `r` sits at offset `i` of `s` with only whitespace before and after it. */
  predicate StrippedAt(s: string, r: string, i: int)
  {
    && 0 <= i <= |s| - |r| && r == s[i..i + |r|]
    && (forall k :: 0 <= k < i ==> IsSpace(s[k]))
    && (forall k :: i + |r| <= k < |s| ==> IsSpace(s[k]))
  }

  /** `str.strip()`: the name with the whitespace at both ends removed. */
  function Strip(s: string): (r: string)
    ensures exists i :: StrippedAt(s, r, i)
    ensures r != [] ==> !IsSpace(r[0]) && !IsSpace(r[|r| - 1])
  {
    var l := TrimLeft(s);
    var r := TrimRight(l);
    StripWitness(s, l, r);
    r
  }

  /** What the two trims establish, put together without reference to the trims themselves. */
  lemma StripWitness(s: string, l: string, r: string)
    requires |l| <= |s| && l == s[|s| - |l|..]
    requires forall k :: 0 <= k < |s| - |l| ==> IsSpace(s[k])
    requires l != [] ==> !IsSpace(l[0])
    requires |r| <= |l| && r == l[..|r|]
    requires forall k :: |r| <= k < |l| ==> IsSpace(l[k])
    requires r != [] ==> !IsSpace(r[|r| - 1])
    ensures StrippedAt(s, r, |s| - |l|)
    ensures r != [] ==> !IsSpace(r[0]) && !IsSpace(r[|r| - 1])
  {
    var i := |s| - |l|;
    forall k | i + |r| <= k < |s| ensures IsSpace(s[k]) {
      assert s[k] == l[k - i];
    }
    assert r == s[i..i + |r|];
    if r != [] {
      assert r[0] == l[0];
    }
  }

  /** Stripping an already stripped name changes nothing. */
  lemma StripIdempotent(s: string)
    ensures Strip(Strip(s)) == Strip(s)
  {
    var r := Strip(s);
    assert TrimLeft(r) == r;
    assert TrimRight(r) == r;
  }

  /** A name followed by one whitespace character strips back to the name. */
  lemma StripTrailingSpace(d: string, sp: char)
    requires d != [] && !IsSpace(d[0]) && !IsSpace(d[|d| - 1]) && IsSpace(sp)
    ensures Strip(d + [sp]) == d
  {
    var s := d + [sp];
    assert s[0] == d[0] && s[..|s| - 1] == d;
    assert TrimLeft(s) == s;
  }

  /** A header ending in an ideographic space (U+3000) strips to the bare name. */
  lemma StripIdeographicSpace(name: string)
    requires name == "Date"
    ensures Strip(name + ['\U{3000}']) == name
  {
    assert name[0] == 'D' && name[3] == 'e';
    StripTrailingSpace(name, '\U{3000}');
  }

  function StripAll(cols: seq<string>): (r: seq<string>)
    ensures |r| == |cols|
    ensures forall i :: 0 <= i < |cols| ==> r[i] == Strip(cols[i])
  {
    seq(|cols|, i requires 0 <= i < |cols| => Strip(cols[i]))
  }

  function IndexOf(s: seq<string>, x: string): (k: nat)
    requires x in s
    ensures k < |s| && s[k] == x
    ensures forall j :: 0 <= j < k ==> s[j] != x
  {
    if s[0] == x then 0 else 1 + IndexOf(s[1..], x)
  }

  /** A row with its cells re-keyed by the trimmed column names. */
  function RenameRow(r: Row, cols: seq<string>): (o: Row)
    requires Distinct(StripAll(cols))
    ensures o.index == r.index
    ensures forall c :: c in o.cells <==> c in StripAll(cols)
    ensures forall j :: 0 <= j < |cols| ==> Get(o, Strip(cols[j])) == Get(r, cols[j])
  {
    var names := StripAll(cols);
    var o := Row(r.index, map c | c in names :: Get(r, cols[IndexOf(names, c)]));
    forall j | 0 <= j < |cols| ensures Get(o, Strip(cols[j])) == Get(r, cols[j]) {
      assert names[j] in names;
      var k := IndexOf(names, names[j]);
      assert k == j;
    }
    o
  }

  /** `data.columns = data.columns.str.strip()`: every column renamed to its trimmed name, cells kept. */
  function StripColumns(raw: Table): (t: Table)
    requires WellFormed(raw)
    requires Distinct(StripAll(raw.columns))
    ensures WellFormed(t)
    ensures t.columns == StripAll(raw.columns)
    ensures |t.rows| == |raw.rows|
    ensures forall i :: 0 <= i < |raw.rows| ==> t.rows[i].index == raw.rows[i].index
    ensures forall i, j :: 0 <= i < |raw.rows| && 0 <= j < |raw.columns| ==>
              Get(t.rows[i], Strip(raw.columns[j])) == Get(raw.rows[i], raw.columns[j])
  {
    var names := StripAll(raw.columns);
    var rows := seq(|raw.rows|, i requires 0 <= i < |raw.rows| => RenameRow(raw.rows[i], raw.columns));
    var t := Table(names, rows);
    StripColumnsWellFormed(raw, t);
    t
  }

  lemma StripColumnsWellFormed(raw: Table, t: Table)
    requires WellFormed(raw)
    requires Distinct(StripAll(raw.columns))
    requires t.columns == StripAll(raw.columns) && |t.rows| == |raw.rows|
    requires forall i :: 0 <= i < |raw.rows| ==> t.rows[i] == RenameRow(raw.rows[i], raw.columns)
    ensures WellFormed(t)
  {
    forall x | x in t.rows ensures x.cells.Keys == ColumnSet(t) {
      var i :| 0 <= i < |t.rows| && t.rows[i] == x;
      RenamedKeys(raw.rows[i], raw.columns, t);
    }
    forall i, j | 0 <= i < j < |t.rows| ensures t.rows[i].index != t.rows[j].index {
      assert raw.rows[i].index != raw.rows[j].index;
    }
  }

  lemma RenamedKeys(r: Row, cols: seq<string>, t: Table)
    requires Distinct(StripAll(cols)) && t.columns == StripAll(cols)
    ensures RenameRow(r, cols).cells.Keys == ColumnSet(t)
  {
    var o := RenameRow(r, cols);
    forall c ensures c in o.cells.Keys <==> c in ColumnSet(t) {
    }
  }

  /** `fillna(0).astype(int)` accepts a missing value or an integer. */
  predicate GidConvertible(c: Cell)
  {
    c.Null? || c.Int?
  }

  function FillGid(r: Row): (o: Row)
    ensures o.index == r.index
    ensures "GID" in r.cells ==> o.cells.Keys == r.cells.Keys
    ensures Get(o, "GID") == if Get(r, "GID") == Null then Int(0) else Get(r, "GID")
    ensures forall c :: c != "GID" ==> Get(o, c) == Get(r, c)
  {
    Row(r.index, r.cells["GID" := if Get(r, "GID") == Null then Int(0) else Get(r, "GID")])
  }

  /** Some row's GID is neither missing nor an integer. */
  predicate BadGid(t: Table)
  {
    exists i :: 0 <= i < |t.rows| && !GidConvertible(Get(t.rows[i], "GID"))
  }

  /** `data['GID'] = data['GID'].fillna(0).astype(int)` on a table whose GIDs all convert. */
  function FillGids(t: Table): (r: Table)
    requires WellFormed(t) && "GID" in t.columns && !BadGid(t)
    ensures WellFormed(r) && r.columns == t.columns && |r.rows| == |t.rows|
    ensures forall i :: 0 <= i < |t.rows| ==> r.rows[i] == FillGid(t.rows[i])
    ensures forall x :: x in r.rows ==> Get(x, "GID").Int?
  {
    var rows := seq(|t.rows|, i requires 0 <= i < |t.rows| => FillGid(t.rows[i]));
    forall x | x in rows ensures Get(x, "GID").Int? {
      var i :| 0 <= i < |rows| && rows[i] == x;
      assert GidConvertible(Get(t.rows[i], "GID"));
    }
    forall i | 0 <= i < |rows| ensures rows[i].cells.Keys == t.rows[i].cells.Keys {
      assert t.rows[i] in t.rows;
    }
    WellFormedRows(t, rows);
    Table(t.columns, rows)
  }

  /**
   * `load_data` after the spreadsheet is read: trim the column names, then fill missing GIDs
   * with 0. A missing `Date` or `GID` column (a `KeyError`) or a GID that is not an integer
   * (a conversion error) fails the load. Otherwise every cell is kept under its trimmed name,
   * except that a missing GID becomes 0.
   */
  function LoadData(raw: Table): (r: Option<Table>)
    requires WellFormed(raw)
    requires Distinct(StripAll(raw.columns))
    ensures r.None? <==>
              || "Date" !in StripAll(raw.columns) || "GID" !in StripAll(raw.columns) || BadGid(StripColumns(raw))
    ensures r.Some? ==> WellFormed(r.value) && r.value.columns == StripAll(raw.columns)
    ensures r.Some? ==> |r.value.rows| == |raw.rows|
    ensures r.Some? ==> forall x :: x in r.value.rows ==> Get(x, "GID").Int?
    ensures r.Some? ==> forall i, j :: 0 <= i < |raw.rows| && 0 <= j < |raw.columns| ==>
              r.value.rows[i].index == raw.rows[i].index &&
              Get(r.value.rows[i], Strip(raw.columns[j])) ==
                if Strip(raw.columns[j]) == "GID" && Get(raw.rows[i], raw.columns[j]) == Null then Int(0)
                else Get(raw.rows[i], raw.columns[j])
  {
    var t := StripColumns(raw);
    if "Date" !in t.columns || "GID" !in t.columns || BadGid(t) then None
    else
      LoadedCells(raw, t);
      Some(FillGids(t))
  }

  lemma LoadedCells(raw: Table, t: Table)
    requires WellFormed(raw) && Distinct(StripAll(raw.columns)) && t == StripColumns(raw)
    requires "GID" in t.columns && !BadGid(t)
    ensures forall i, j :: 0 <= i < |raw.rows| && 0 <= j < |raw.columns| ==>
              FillGids(t).rows[i].index == raw.rows[i].index &&
              Get(FillGids(t).rows[i], Strip(raw.columns[j])) ==
                if Strip(raw.columns[j]) == "GID" && Get(raw.rows[i], raw.columns[j]) == Null then Int(0)
                else Get(raw.rows[i], raw.columns[j])
  {
    var f := FillGids(t);
    forall i, j | 0 <= i < |raw.rows| && 0 <= j < |raw.columns|
      ensures f.rows[i].index == raw.rows[i].index
      ensures Get(f.rows[i], Strip(raw.columns[j])) ==
                if Strip(raw.columns[j]) == "GID" && Get(raw.rows[i], raw.columns[j]) == Null then Int(0)
                else Get(raw.rows[i], raw.columns[j])
    {
      assert f.rows[i] == FillGid(t.rows[i]);
      assert Get(t.rows[i], Strip(raw.columns[j])) == Get(raw.rows[i], raw.columns[j]);
    }
  }

  // ---------------------------------------------------------------------
  // The Cluster -> CE -> GID cascade
  // ---------------------------------------------------------------------

  /** The columns the dashboard reads: a table without them stops the script with a `KeyError`. */
  predicate HasDashboardColumns(data: Table)
  {
    "Cluster" in data.columns && "CE" in data.columns && "GID" in data.columns && "Date" in data.columns
  }

  /** `data['Cluster'].unique()`. */
  function ClusterOptions(data: Table): (r: seq<Cell>)
    requires HasDashboardColumns(data)
    ensures Distinct(r)
    ensures forall x :: x in r <==> exists row :: row in data.rows && Get(row, "Cluster") == x
  {
    OptionsExactAll(data, [], "Cluster");
    Options(data, [], "Cluster")
  }

  /** `get_ce_options`: the CE values of the rows of the chosen cluster, each once. */
  function CeOptions(data: Table, cluster: Cell): (r: seq<Cell>)
    requires HasDashboardColumns(data)
    ensures Distinct(r)
    ensures forall x :: x in r <==>
              exists row :: row in data.rows && Holds(row, [Eq("Cluster", cluster)]) && Get(row, "CE") == x
  {
    OptionsExactAll(data, [Eq("Cluster", cluster)], "CE");
    Options(data, [Eq("Cluster", cluster)], "CE")
  }

  /** The cluster and CE equalities of `get_gid_options`. */
  function ClusterCe(cluster: Cell, ce: Cell): seq<Cond>
  {
    [Eq("Cluster", cluster), Eq("CE", ce)]
  }

  /** `get_gid_options`: the GIDs of the rows of the chosen cluster and CE, each once. */
  function GidOptions(data: Table, cluster: Cell, ce: Cell): (r: seq<Cell>)
    requires HasDashboardColumns(data)
    ensures Distinct(r)
    ensures forall x :: x in r <==>
              exists row :: row in data.rows && Holds(row, ClusterCe(cluster, ce)) && Get(row, "GID") == x
  {
    OptionsExactAll(data, ClusterCe(cluster, ce), "GID");
    Options(data, ClusterCe(cluster, ce), "GID")
  }

  lemma OptionsExactAll(data: Table, cs: seq<Cond>, c: string)
    ensures Distinct(Options(data, cs, c))
    ensures forall x :: x in Options(data, cs, c) <==> exists row :: row in data.rows && Holds(row, cs) && Get(row, c) == x
  {
    forall x ensures x in Options(data, cs, c) <==> exists row :: row in data.rows && Holds(row, cs) && Get(row, c) == x {
      OptionsExact(data, cs, c, x);
    }
  }

  /** The three equalities of `filter_data`. */
  function Selection(cluster: Cell, ce: Cell, gid: Cell): seq<Cond>
  {
    ClusterCe(cluster, ce) + [Eq("GID", gid)]
  }

  /** `filter_data`: the rows matching cluster, CE and GID, in their order, with their index labels. */
  function FilterData(data: Table, cluster: Cell, ce: Cell, gid: Cell): (r: Table)
    requires HasDashboardColumns(data)
    ensures r.columns == data.columns
    ensures forall x :: x in r.rows <==>
              x in data.rows && Matches(Get(x, "Cluster"), cluster) && Matches(Get(x, "CE"), ce) && Matches(Get(x, "GID"), gid)
    ensures WellFormed(data) ==> WellFormed(r)
  {
    var r := Where(data, Selection(cluster, ce, gid));
    assert forall x :: Holds(x, Selection(cluster, ce, gid)) <==>
      Matches(Get(x, "Cluster"), cluster) && Matches(Get(x, "CE"), ce) && Matches(Get(x, "GID"), gid) by {
      forall x ensures Holds(x, Selection(cluster, ce, gid)) <==>
        Matches(Get(x, "Cluster"), cluster) && Matches(Get(x, "CE"), ce) && Matches(Get(x, "GID"), gid)
      {
        var s := Selection(cluster, ce, gid);
        assert s[0] == Eq("Cluster", cluster) && s[1] == Eq("CE", ce) && s[2] == Eq("GID", gid);
      }
    }
    r
  }

  /** On loaded data, every GID offered for a cluster and CE selects at least one row. */
  lemma GidCascade(data: Table, cluster: Cell, ce: Cell, gid: Cell)
    requires HasDashboardColumns(data)
    requires forall x :: x in data.rows ==> Get(x, "GID").Int?
    requires gid in GidOptions(data, cluster, ce)
    ensures FilterData(data, cluster, ce, gid).rows != []
  {
    var row :| row in data.rows && Holds(row, ClusterCe(cluster, ce)) && Get(row, "GID") == gid;
    OptionChosenIsNonEmpty(data, ClusterCe(cluster, ce), "GID", gid);
  }

  /** Every CE offered for a cluster (other than a missing one) offers at least one GID. */
  lemma CeCascade(data: Table, cluster: Cell, ce: Cell)
    requires HasDashboardColumns(data)
    requires ce in CeOptions(data, cluster) && ce != Null
    ensures GidOptions(data, cluster, ce) != []
  {
    var row :| row in data.rows && Holds(row, [Eq("Cluster", cluster)]) && Get(row, "CE") == ce;
    HoldsSingle(Eq("Cluster", cluster));
    assert Holds(row, ClusterCe(cluster, ce)) by {
      assert ClusterCe(cluster, ce)[0] == Eq("Cluster", cluster);
    }
    assert Get(row, "GID") in GidOptions(data, cluster, ce);
  }

  // ---------------------------------------------------------------------
  // Date narrowing, broadcast annotation and merge
  // ---------------------------------------------------------------------

  /** `filtered_data['Date'].unique()`. */
  function DateOptions(filtered: Table): (r: seq<Cell>)
    ensures Distinct(r)
    ensures forall x :: x in r <==> exists row :: row in filtered.rows && Get(row, "Date") == x
  {
    OptionsExactAll(filtered, [], "Date");
    Options(filtered, [], "Date")
  }

  /** `filtered_data[filtered_data['Date'].isin(selected_dates)]`. */
  function RowsToUpdate(filtered: Table, dates: set<Cell>): (r: Table)
    ensures r.columns == filtered.columns
    ensures forall x :: x in r.rows <==> x in filtered.rows && Get(x, "Date") in dates
    ensures dates == {} ==> r.rows == []
  {
    var r := Where(filtered, [IsIn("Date", dates)]);
    HoldsSingle(IsIn("Date", dates));
    if dates == {} then
      NarrowNone(filtered.rows, [IsIn("Date", dates)]);
      r
    else r
  }

  /** The five text inputs of the update form. */
  datatype Annotation = Annotation(rca1: string, rca2: string, actionPlan: string, status: string, tat: string)

  /** The columns the Apply button writes, with the entered values. */
  function AnnotationFields(a: Annotation): map<string, Cell>
  {
    map["RCA1" := Str(a.rca1), "RCA2" := Str(a.rca2), "Action Plan" := Str(a.actionPlan),
        "Status" := Str(a.status), "TAT" := Str(a.tat)]
  }

  /** The whole row selection: cluster, CE and GID equal, date among the chosen ones. */
  function DateSelection(cluster: Cell, ce: Cell, gid: Cell, dates: set<Cell>): seq<Cond>
  {
    Selection(cluster, ce, gid) + [IsIn("Date", dates)]
  }

  /**
   * The Apply Updates step of `main`: narrow to the selected rows and dates; when that leaves
   * rows, broadcast the five fields onto them and merge them back with `data.update`.
   * The table then differs from before exactly in the five annotation columns of the selected rows.
   */
  method ApplyUpdates(data: Frame, cluster: Cell, ce: Cell, gid: Cell, dates: set<Cell>, a: Annotation)
    requires WellFormed(data.table) && HasDashboardColumns(data.table)
    modifies data
    ensures data.table == SetWhere(old(data.table), DateSelection(cluster, ce, gid, dates), AnnotationFields(a))
  {
    var filtered := FilterData(data.table, cluster, ce, gid);
    SelectedRows(data.table, cluster, ce, gid, dates);
    var rowsToUpdate := new Frame(RowsToUpdate(filtered, dates));
    if rowsToUpdate.table.rows != [] {
      rowsToUpdate.AssignColumn("RCA1", Str(a.rca1));
      rowsToUpdate.AssignColumn("RCA2", Str(a.rca2));
      rowsToUpdate.AssignColumn("Action Plan", Str(a.actionPlan));
      rowsToUpdate.AssignColumn("Status", Str(a.status));
      rowsToUpdate.AssignColumn("TAT", Str(a.tat));
      MergeFive(data.table, DateSelection(cluster, ce, gid, dates), a, rowsToUpdate.table);
      data.Update(rowsToUpdate.table);
    } else {
      NothingSelected(data.table, DateSelection(cluster, ce, gid, dates), a);
    }
  }

  /** Narrowing by cluster, CE and GID, then by date, selects the rows of the whole selection. */
  lemma SelectedRows(t: Table, cluster: Cell, ce: Cell, gid: Cell, dates: set<Cell>)
    requires HasDashboardColumns(t)
    ensures RowsToUpdate(FilterData(t, cluster, ce, gid), dates) == Where(t, DateSelection(cluster, ce, gid, dates))
  {
    NarrowCompose(t.rows, Selection(cluster, ce, gid), [IsIn("Date", dates)]);
  }

  lemma NothingSelected(t: Table, sel: seq<Cond>, a: Annotation)
    requires Where(t, sel).rows == []
    ensures SetWhere(t, sel, AnnotationFields(a)) == t
  {
    SetWhereNoMatch(t, sel, AnnotationFields(a));
  }

  /** Merging back the selected rows with the five fields broadcast onto them is the masked write. */
  lemma MergeFive(t: Table, sel: seq<Cond>, a: Annotation, o: Table)
    requires WellFormed(t)
    requires o == WithColumn(WithColumn(WithColumn(WithColumn(WithColumn(Where(t, sel),
                  "RCA1", Str(a.rca1)), "RCA2", Str(a.rca2)), "Action Plan", Str(a.actionPlan)),
                  "Status", Str(a.status)), "TAT", Str(a.tat))
    ensures UpdateFrom(t, o) == SetWhere(t, sel, AnnotationFields(a))
  {
    BroadcastFive(Where(t, sel), o, a);
    MergeBroadcast(t, sel, AnnotationFields(a), o);
  }

  lemma BroadcastFive(src: Table, o: Table, a: Annotation)
    requires o == WithColumn(WithColumn(WithColumn(WithColumn(WithColumn(src,
                  "RCA1", Str(a.rca1)), "RCA2", Str(a.rca2)), "Action Plan", Str(a.actionPlan)),
                  "Status", Str(a.status)), "TAT", Str(a.tat))
    ensures BroadcastOf(o, src, AnnotationFields(a))
  {
    var t1 := WithColumn(src, "RCA1", Str(a.rca1));
    var t2 := WithColumn(t1, "RCA2", Str(a.rca2));
    var t3 := WithColumn(t2, "Action Plan", Str(a.actionPlan));
    var t4 := WithColumn(t3, "Status", Str(a.status));
    assert |o.rows| == |src.rows|;
    forall i | 0 <= i < |o.rows|
      ensures o.rows[i] == Row(src.rows[i].index, src.rows[i].cells + AnnotationFields(a))
    {
      var c := src.rows[i].cells;
      assert t1.rows[i] == Row(src.rows[i].index, c["RCA1" := Str(a.rca1)]);
      assert t2.rows[i] == Row(src.rows[i].index, c["RCA1" := Str(a.rca1)]["RCA2" := Str(a.rca2)]);
      assert t3.rows[i].index == src.rows[i].index;
      assert t4.rows[i].index == src.rows[i].index;
      assert o.rows[i].cells == t4.rows[i].cells["TAT" := Str(a.tat)];
      FiveUpdates(c, a);
    }
    assert ColumnSet(o) == ColumnSet(src) + {"RCA1", "RCA2", "Action Plan", "Status", "TAT"};
  }

  /** Writing the five fields one by one is adding the five-field map. */
  lemma FiveUpdates(c: map<string, Cell>, a: Annotation)
    ensures c["RCA1" := Str(a.rca1)]["RCA2" := Str(a.rca2)]["Action Plan" := Str(a.actionPlan)]
             ["Status" := Str(a.status)]["TAT" := Str(a.tat)] == c + AnnotationFields(a)
  {
  }

  /** With no date chosen nothing is selected, and Apply changes nothing. */
  lemma NoDatesNoUpdate(data: Table, cluster: Cell, ce: Cell, gid: Cell, a: Annotation)
    ensures SetWhere(data, DateSelection(cluster, ce, gid, {}), AnnotationFields(a)) == data
  {
    forall x | x in data.rows ensures !Holds(x, DateSelection(cluster, ce, gid, {})) {
      assert !HoldsOne(x, DateSelection(cluster, ce, gid, {})[3]);
    }
    SetWhereNoMatch(data, DateSelection(cluster, ce, gid, {}), AnnotationFields(a));
  }

  /** One row of the two-date scenario: cluster A, CE X, GID 1, the given day, no RCA1 yet. */
  function ScenarioRow(index: nat, day: int): Row
  {
    Row(index, map["Cluster" := Str("A"), "CE" := Str("X"), "GID" := Int(1), "Date" := Date(day), "RCA1" := Null])
  }

  /**
   * Two rows of one cluster, CE and GID on consecutive days: choosing the first day and
   * entering RCA1 "Fiber cut" writes that row only; the other keeps its missing RCA1.
   */
  lemma TwoDateScenario(a: Annotation)
    requires a.rca1 == "Fiber cut"
    ensures var u := SetWhere(Table(["Cluster", "CE", "GID", "Date", "RCA1"], [ScenarioRow(0, 1), ScenarioRow(1, 2)]),
                              DateSelection(Str("A"), Str("X"), Int(1), {Date(1)}), AnnotationFields(a));
            Get(u.rows[0], "RCA1") == Str("Fiber cut") && Get(u.rows[1], "RCA1") == Null
  {
    var t := Table(["Cluster", "CE", "GID", "Date", "RCA1"], [ScenarioRow(0, 1), ScenarioRow(1, 2)]);
    var sel := DateSelection(Str("A"), Str("X"), Int(1), {Date(1)});
    ScenarioSelection();
    assert t.rows[0] == ScenarioRow(0, 1) && t.rows[1] == ScenarioRow(1, 2);
    assert "RCA1" in AnnotationFields(a) && AnnotationFields(a)["RCA1"] == Str("Fiber cut");
    assert "RCA1" in ScenarioRow(0, 1).cells && Get(ScenarioRow(1, 2), "RCA1") == Null;
    TwoRowWrite(t, sel, AnnotationFields(a), "RCA1");
  }

  /** A masked write over two rows of which only the first matches. */
  lemma TwoRowWrite(t: Table, cs: seq<Cond>, fields: map<string, Cell>, c: string)
    requires |t.rows| == 2 && Holds(t.rows[0], cs) && !Holds(t.rows[1], cs)
    requires c in fields && c in t.rows[0].cells
    ensures Get(SetWhere(t, cs, fields).rows[0], c) == fields[c]
    ensures Get(SetWhere(t, cs, fields).rows[1], c) == Get(t.rows[1], c)
  {
  }

  /** The first scenario row satisfies the selection; the second fails its date condition. */
  lemma ScenarioSelection()
    ensures Holds(ScenarioRow(0, 1), DateSelection(Str("A"), Str("X"), Int(1), {Date(1)}))
    ensures !Holds(ScenarioRow(1, 2), DateSelection(Str("A"), Str("X"), Int(1), {Date(1)}))
  {
    var sel := DateSelection(Str("A"), Str("X"), Int(1), {Date(1)});
    var r0, r1 := ScenarioRow(0, 1), ScenarioRow(1, 2);
    assert sel == [Eq("Cluster", Str("A")), Eq("CE", Str("X")), Eq("GID", Int(1)), IsIn("Date", {Date(1)})];
    assert Get(r0, "Cluster") == Str("A") && Get(r0, "CE") == Str("X") && Get(r0, "GID") == Int(1);
    assert Get(r0, "Date") == Date(1) && Get(r1, "Date") == Date(2);
    forall i | 0 <= i < 4 ensures HoldsOne(r0, sel[i]) {}
    assert !HoldsOne(r1, sel[3]);
  }
}
