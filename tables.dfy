/**
 * The part of pandas DataFrame behaviour that the reporting scripts rely on,
 * over an abstract table: an ordered sequence of rows, each carrying a stable
 * index label and a column-to-cell map.
 */
module Tables {

  datatype Option<T> = None | Some(value: T)

  /** A spreadsheet cell. Dates are opaque, already-parsed day numbers; floats are not modelled. */
  datatype Cell = Null | Str(s: string) | Int(i: int) | Date(day: int)

  /** One row: its index label and its cells, keyed by column name. */
  datatype Row = Row(index: nat, cells: map<string, Cell>)

  /** A DataFrame: the column names in order and the rows in order. */
  datatype Table = Table(columns: seq<string>, rows: seq<Row>)

  /** `pd.DataFrame()`: no columns, no rows. */
  const Empty: Table := Table([], [])

  /** The cell of column `c`; a column the row does not have reads as missing. */
  function Get(r: Row, c: string): Cell
  {
    if c in r.cells then r.cells[c] else Null
  }

  /** pandas `column == v`: a missing value compares equal to nothing, not even to a missing value. */
  predicate Matches(cell: Cell, v: Cell)
  {
    cell != Null && cell == v
  }

  predicate Distinct<T(==)>(s: seq<T>)
  {
    forall i, j :: 0 <= i < j < |s| ==> s[i] != s[j]
  }

  predicate DistinctIndexes(rows: seq<Row>)
  {
    forall i, j :: 0 <= i < j < |rows| ==> rows[i].index != rows[j].index
  }

  function ColumnSet(t: Table): set<string>
  {
    set c | c in t.columns
  }

  /** Distinct column names, every row holding exactly those columns, distinct index labels. */
  predicate WellFormed(t: Table)
  {
    && Distinct(t.columns)
    && (forall r :: r in t.rows ==> r.cells.Keys == ColumnSet(t))
    && DistinctIndexes(t.rows)
  }

  lemma SameIndexSameRow(t: Table, x: Row, y: Row)
    requires WellFormed(t)
    requires x in t.rows && y in t.rows && x.index == y.index
    ensures x == y
  {
    var i :| 0 <= i < |t.rows| && t.rows[i] == x;
    var j :| 0 <= j < |t.rows| && t.rows[j] == y;
    if i < j {
      assert t.rows[i].index != t.rows[j].index;
    } else if j < i {
      assert t.rows[j].index != t.rows[i].index;
    }
  }

  // ---------------------------------------------------------------------
  // Row selection: boolean indexing with a conjunction of conditions
  // ---------------------------------------------------------------------

  /** One condition of a boolean mask. */
  datatype Cond =
    | Eq(col: string, v: Cell)          // df[col] == v
    | IsIn(col: string, vs: set<Cell>)  // df[col].isin(vs)
    | Filled(col: string)               // df[col].notna() & (df[col] != '')

  predicate HoldsOne(r: Row, c: Cond)
  {
    match c
    case Eq(col, v) => Matches(Get(r, col), v)
    case IsIn(col, vs) => Get(r, col) in vs
    case Filled(col) => Get(r, col) != Null && Get(r, col) != Str("")
  }

  /** The row satisfies every condition (the `&` of the masks). */
  predicate Holds(r: Row, cs: seq<Cond>)
  {
    forall i :: 0 <= i < |cs| ==> HoldsOne(r, cs[i])
  }

  /** The rows satisfying `cs`, in their original order and with their original labels. */
  function Narrow(rows: seq<Row>, cs: seq<Cond>): (r: seq<Row>)
    ensures |r| <= |rows|
    ensures forall x :: x in r <==> x in rows && Holds(x, cs)
  {
    if rows == [] then []
    else
      assert rows == [rows[0]] + rows[1..];
      (if Holds(rows[0], cs) then [rows[0]] else []) + Narrow(rows[1..], cs)
  }

  /** A one-condition mask is that condition. */
  lemma HoldsSingle(c: Cond)
    ensures forall x :: Holds(x, [c]) <==> HoldsOne(x, c)
  {
    forall x ensures Holds(x, [c]) <==> HoldsOne(x, c) {
      assert [c][0] == c;
    }
  }

  /** No row satisfying the mask leaves no row. */
  lemma {:induction false} NarrowNone(rows: seq<Row>, cs: seq<Cond>)
    requires forall x :: x in rows ==> !Holds(x, cs)
    ensures Narrow(rows, cs) == []
  {
    if rows != [] {
      assert rows[0] in rows;
      NarrowNone(rows[1..], cs);
    }
  }

  /** `df[mask]`: same columns, the rows satisfying the mask. */
  function Where(t: Table, cs: seq<Cond>): (r: Table)
    ensures r.columns == t.columns
    ensures forall x :: x in r.rows <==> x in t.rows && Holds(x, cs)
    ensures WellFormed(t) ==> WellFormed(r)
  {
    assert WellFormed(t) ==> DistinctIndexes(Narrow(t.rows, cs)) by {
      if WellFormed(t) { NarrowKeepsDistinctIndexes(t.rows, cs); }
    }
    Table(t.columns, Narrow(t.rows, cs))
  }

  lemma {:induction false} NarrowKeepsDistinctIndexes(rows: seq<Row>, cs: seq<Cond>)
    requires DistinctIndexes(rows)
    ensures DistinctIndexes(Narrow(rows, cs))
  {
    if rows != [] {
      var tail := rows[1..];
      assert DistinctIndexes(tail) by {
        forall i, j | 0 <= i < j < |tail| ensures tail[i].index != tail[j].index {
          assert tail[i] == rows[i + 1] && tail[j] == rows[j + 1];
        }
      }
      NarrowKeepsDistinctIndexes(tail, cs);
      var rest := Narrow(tail, cs);
      forall x | x in rest ensures x.index != rows[0].index {
        var k :| 0 <= k < |tail| && tail[k] == x;
        assert rows[k + 1] == x;
      }
    }
  }

  /** Narrowing distributes over concatenation: rows keep their relative order. */
  lemma {:induction false} NarrowAppend(a: seq<Row>, b: seq<Row>, cs: seq<Cond>)
    ensures Narrow(a + b, cs) == Narrow(a, cs) + Narrow(b, cs)
  {
    if a == [] {
      assert a + b == b;
    } else {
      assert (a + b)[0] == a[0];
      assert (a + b)[1..] == a[1..] + b;
      NarrowAppend(a[1..], b, cs);
    }
  }

  /** Narrowing by `a` and then by `b` is narrowing by both at once (the cascade). */
  lemma {:induction false} NarrowCompose(rows: seq<Row>, a: seq<Cond>, b: seq<Cond>)
    ensures Narrow(Narrow(rows, a), b) == Narrow(rows, a + b)
  {
    if rows != [] {
      var x := rows[0];
      assert Holds(x, a + b) <==> Holds(x, a) && Holds(x, b) by {
        if Holds(x, a) && Holds(x, b) {
          forall i | 0 <= i < |a + b| ensures HoldsOne(x, (a + b)[i]) {
            if i < |a| { assert (a + b)[i] == a[i]; } else { assert (a + b)[i] == b[i - |a|]; }
          }
        }
        if Holds(x, a + b) {
          forall i | 0 <= i < |a| ensures HoldsOne(x, a[i]) { assert (a + b)[i] == a[i]; }
          forall i | 0 <= i < |b| ensures HoldsOne(x, b[i]) { assert (a + b)[|a| + i] == b[i]; }
        }
      }
      NarrowCompose(rows[1..], a, b);
      if Holds(x, a) {
        assert Narrow(rows, a) == [x] + Narrow(rows[1..], a);
        NarrowAppend([x], Narrow(rows[1..], a), b);
        assert Narrow([x], b) == (if Holds(x, b) then [x] else []) + Narrow([], b);
      } else {
        assert Narrow(rows, a) == Narrow(rows[1..], a);
      }
    }
  }

  /** Narrowing twice by the same conditions is narrowing once. */
  lemma WhereIdempotent(t: Table, cs: seq<Cond>)
    ensures Where(Where(t, cs), cs) == Where(t, cs)
  {
    NarrowCompose(t.rows, cs, cs);
    assert forall x :: Holds(x, cs + cs) == Holds(x, cs) by {
      forall x ensures Holds(x, cs + cs) == Holds(x, cs) {
        if Holds(x, cs) {
          forall i | 0 <= i < |cs + cs| ensures HoldsOne(x, (cs + cs)[i]) {
            if i < |cs| { assert (cs + cs)[i] == cs[i]; } else { assert (cs + cs)[i] == cs[i - |cs|]; }
          }
        }
        if Holds(x, cs + cs) {
          forall i | 0 <= i < |cs| ensures HoldsOne(x, cs[i]) { assert (cs + cs)[i] == cs[i]; }
        }
      }
    }
    NarrowSameCondition(t.rows, cs + cs, cs);
  }

  lemma {:induction false} NarrowSameCondition(rows: seq<Row>, a: seq<Cond>, b: seq<Cond>)
    requires forall x :: Holds(x, a) == Holds(x, b)
    ensures Narrow(rows, a) == Narrow(rows, b)
  {
    if rows != [] {
      NarrowSameCondition(rows[1..], a, b);
    }
  }

  // ---------------------------------------------------------------------
  // Column values and distinct-value option lists
  // ---------------------------------------------------------------------

  /** `df[c]` as a sequence of cells, one per row. */
  function Column(t: Table, c: string): (vs: seq<Cell>)
    ensures |vs| == |t.rows|
    ensures forall i :: 0 <= i < |t.rows| ==> vs[i] == Get(t.rows[i], c)
  {
    seq(|t.rows|, i requires 0 <= i < |t.rows| => Get(t.rows[i], c))
  }

  /** `Series.unique()`: each value once, in order of first appearance; a missing value is kept. */
  function Unique<T(==,!new)>(s: seq<T>): (r: seq<T>)
    ensures Distinct(r)
    ensures forall x :: x in r <==> x in s
    ensures |r| <= |s|
  {
    if s == [] then []
    else
      var u := Unique(s[..|s| - 1]);
      assert s == s[..|s| - 1] + [s[|s| - 1]];
      if s[|s| - 1] in u then u else u + [s[|s| - 1]]
  }

  /** `df[mask][c].unique()`: the values of column `c` among the rows satisfying `cs`. */
  function Options(t: Table, cs: seq<Cond>, c: string): seq<Cell>
  {
    Unique(Column(Where(t, cs), c))
  }

  /** An option list holds exactly the values of `c` on the rows satisfying `cs`, each once. */
  lemma OptionsExact(t: Table, cs: seq<Cond>, c: string, x: Cell)
    ensures Distinct(Options(t, cs, c))
    ensures x in Options(t, cs, c) <==> exists r :: r in t.rows && Holds(r, cs) && Get(r, c) == x
  {
    var w := Where(t, cs);
    if exists r :: r in t.rows && Holds(r, cs) && Get(r, c) == x {
      var r :| r in t.rows && Holds(r, cs) && Get(r, c) == x;
      var k :| 0 <= k < |w.rows| && w.rows[k] == r;
      assert Column(w, c)[k] == x;
    }
  }

  /** Every present value offered for `c` under `cs` leaves a non-empty selection once chosen. */
  lemma OptionChosenIsNonEmpty(t: Table, cs: seq<Cond>, c: string, x: Cell)
    requires x in Options(t, cs, c) && x != Null
    ensures Where(t, cs + [Eq(c, x)]).rows != []
  {
    OptionsExact(t, cs, c, x);
    var r :| r in t.rows && Holds(r, cs) && Get(r, c) == x;
    assert Holds(r, cs + [Eq(c, x)]) by {
      forall i | 0 <= i < |cs + [Eq(c, x)]| ensures HoldsOne(r, (cs + [Eq(c, x)])[i]) {
        if i < |cs| { assert (cs + [Eq(c, x)])[i] == cs[i]; }
      }
    }
  }

  // ---------------------------------------------------------------------
  // Writing cells
  // ---------------------------------------------------------------------

  /** The row with `fields` written on the columns it already has. */
  function Overwrite(r: Row, fields: map<string, Cell>): Row
  {
    Row(r.index, map c | c in r.cells :: if c in fields then fields[c] else r.cells[c])
  }

  /** One row of a masked write: overwritten when it satisfies the mask, as it was otherwise. */
  function SetRow(r: Row, cs: seq<Cond>, fields: map<string, Cell>): (o: Row)
    ensures o.index == r.index && o.cells.Keys == r.cells.Keys
    ensures forall c :: Get(o, c) == if Holds(r, cs) && c in fields && c in r.cells then fields[c] else Get(r, c)
  {
    if Holds(r, cs) then Overwrite(r, fields) else r
  }

  /** Rows that keep their index labels and column keys keep a table well formed. */
  lemma WellFormedRows(t: Table, rows: seq<Row>)
    requires |rows| == |t.rows|
    requires forall i :: 0 <= i < |rows| ==> rows[i].index == t.rows[i].index && rows[i].cells.Keys == t.rows[i].cells.Keys
    ensures WellFormed(t) ==> WellFormed(Table(t.columns, rows))
  {
    if WellFormed(t) {
      forall x | x in rows ensures x.cells.Keys == ColumnSet(t) {
        var i :| 0 <= i < |rows| && rows[i] == x;
        assert t.rows[i] in t.rows;
      }
      forall i, j | 0 <= i < j < |rows| ensures rows[i].index != rows[j].index {
        assert t.rows[i].index != t.rows[j].index;
      }
    }
  }

  /**
   * `df.loc[mask, list(fields)] = list(fields.values())` over existing columns:
   * the rows satisfying `cs` get the field values, nothing else changes.
   */
  function SetWhere(t: Table, cs: seq<Cond>, fields: map<string, Cell>): (r: Table)
    ensures r.columns == t.columns && |r.rows| == |t.rows|
    ensures forall i :: 0 <= i < |t.rows| ==> r.rows[i].index == t.rows[i].index
    ensures forall i, c :: 0 <= i < |t.rows| && Holds(t.rows[i], cs) && c in fields && c in t.rows[i].cells ==>
              Get(r.rows[i], c) == fields[c]
    ensures forall i, c :: 0 <= i < |t.rows| && (!Holds(t.rows[i], cs) || c !in fields) ==>
              Get(r.rows[i], c) == Get(t.rows[i], c)
    ensures WellFormed(t) ==> WellFormed(r)
  {
    var rows := seq(|t.rows|, i requires 0 <= i < |t.rows| => SetRow(t.rows[i], cs, fields));
    WellFormedRows(t, rows);
    Table(t.columns, rows)
  }

  /** With no row satisfying the mask, a masked write changes nothing. */
  lemma SetWhereNoMatch(t: Table, cs: seq<Cond>, fields: map<string, Cell>)
    requires forall r :: r in t.rows ==> !Holds(r, cs)
    ensures SetWhere(t, cs, fields) == t
  {
    var r := SetWhere(t, cs, fields);
    forall i | 0 <= i < |t.rows| ensures r.rows[i] == t.rows[i] {
      assert t.rows[i] in t.rows;
    }
  }

  /** `df[col] = v`: every row gets `v` in `col`; a new column is appended at the end. */
  function WithColumn(t: Table, col: string, v: Cell): (r: Table)
    ensures ColumnSet(r) == ColumnSet(t) + {col}
    ensures |r.rows| == |t.rows|
    ensures forall i :: 0 <= i < |t.rows| ==> r.rows[i] == Row(t.rows[i].index, t.rows[i].cells[col := v])
  {
    Table(if col in t.columns then t.columns else t.columns + [col],
          seq(|t.rows|, i requires 0 <= i < |t.rows| => Row(t.rows[i].index, t.rows[i].cells[col := v])))
  }

  /** `o` is `src` with every field of `fields` broadcast onto every row. */
  predicate BroadcastOf(o: Table, src: Table, fields: map<string, Cell>)
  {
    && |o.rows| == |src.rows|
    && (forall i :: 0 <= i < |o.rows| ==> o.rows[i] == Row(src.rows[i].index, src.rows[i].cells + fields))
    && (forall c :: c in fields ==> c in o.columns)
  }

  /** The first row carrying index `l` (pandas aligns rows by index label). */
  function Find(rows: seq<Row>, l: nat): (r: Option<Row>)
    ensures r.Some? ==> r.value in rows && r.value.index == l
    ensures r.None? <==> forall x :: x in rows ==> x.index != l
  {
    if rows == [] then None
    else if rows[0].index == l then Some(rows[0])
    else
      assert rows == [rows[0]] + rows[1..];
      Find(rows[1..], l)
  }

  /** One row of `t.update(o)`. */
  function MergeRow(r: Row, o: Table): (m: Row)
    ensures m.index == r.index && m.cells.Keys == r.cells.Keys
    ensures (forall x :: x in o.rows ==> x.index != r.index) ==> m == r
    ensures forall c :: c !in o.columns ==> Get(m, c) == Get(r, c)
    ensures forall c :: Find(o.rows, r.index).Some? && c in o.columns && c in r.cells ==>
              Get(m, c) == if Get(Find(o.rows, r.index).value, c) != Null then Get(Find(o.rows, r.index).value, c) else Get(r, c)
  {
    match Find(o.rows, r.index)
    case None => r
    case Some(src) =>
      Row(r.index, map c | c in r.cells :: if c in o.columns && Get(src, c) != Null then Get(src, c) else r.cells[c])
  }

  /**
   * `t.update(o)`: aligned on index labels, every cell of `t` whose row index and column also
   * occur in `o` takes `o`'s value unless that value is missing; nothing else changes and
   * no row or column is added.
   */
  function UpdateFrom(t: Table, o: Table): (r: Table)
    ensures r.columns == t.columns && |r.rows| == |t.rows|
    ensures forall i :: 0 <= i < |t.rows| ==> r.rows[i].index == t.rows[i].index
    ensures forall i :: 0 <= i < |t.rows| ==> r.rows[i].cells.Keys == t.rows[i].cells.Keys
    ensures forall i :: 0 <= i < |t.rows| && (forall x :: x in o.rows ==> x.index != t.rows[i].index) ==>
              r.rows[i] == t.rows[i]
    ensures forall i, c :: 0 <= i < |t.rows| && c !in o.columns ==> Get(r.rows[i], c) == Get(t.rows[i], c)
    ensures forall i, c :: 0 <= i < |t.rows| && Find(o.rows, t.rows[i].index).Some? && c in o.columns && c in t.rows[i].cells ==>
              Get(r.rows[i], c) ==
                var s := Find(o.rows, t.rows[i].index).value;
                if Get(s, c) != Null then Get(s, c) else Get(t.rows[i], c)
    ensures WellFormed(t) ==> WellFormed(r)
  {
    var rows := seq(|t.rows|, i requires 0 <= i < |t.rows| => MergeRow(t.rows[i], o));
    WellFormedRows(t, rows);
    Table(t.columns, rows)
  }

  /**
   * Merging back a broadcast copy of the selected rows writes the broadcast fields on exactly
   * those rows (on columns the table already has), provided no broadcast value is missing.
   */
  lemma MergeBroadcast(t: Table, cs: seq<Cond>, fields: map<string, Cell>, o: Table)
    requires WellFormed(t)
    requires forall c :: c in fields ==> fields[c] != Null
    requires BroadcastOf(o, Where(t, cs), fields)
    ensures UpdateFrom(t, o) == SetWhere(t, cs, fields)
  {
    var u := UpdateFrom(t, o);
    var s := SetWhere(t, cs, fields);
    forall i | 0 <= i < |t.rows| ensures u.rows[i] == s.rows[i] {
      assert t.rows[i] in t.rows;
      MergeBroadcastRow(t, cs, fields, o, t.rows[i]);
    }
  }

  lemma MergeBroadcastRow(t: Table, cs: seq<Cond>, fields: map<string, Cell>, o: Table, r: Row)
    requires WellFormed(t) && r in t.rows
    requires forall c :: c in fields ==> fields[c] != Null
    requires BroadcastOf(o, Where(t, cs), fields)
    ensures MergeRow(r, o) == SetRow(r, cs, fields)
  {
    if Holds(r, cs) {
      FindBroadcastRow(t, cs, fields, o, r);
      MergeOverwrite(r, o, fields);
    } else {
      NoBroadcastRow(t, cs, fields, o, r);
    }
  }

  lemma MergeOverwrite(r: Row, o: Table, fields: map<string, Cell>)
    requires Find(o.rows, r.index) == Some(Row(r.index, r.cells + fields))
    requires forall c :: c in fields ==> c in o.columns && fields[c] != Null
    ensures MergeRow(r, o) == Overwrite(r, fields)
  {
    var b := Row(r.index, r.cells + fields);
    var m := MergeRow(r, o);
    assert m.cells == map c | c in r.cells :: if c in o.columns && Get(b, c) != Null then Get(b, c) else r.cells[c];
    forall c | c in r.cells ensures m.cells[c] == Overwrite(r, fields).cells[c] {
      if c in fields {
        assert Get(b, c) == fields[c];
      } else {
        assert Get(b, c) == r.cells[c];
      }
    }
    assert m.cells == Overwrite(r, fields).cells;
  }

  lemma FindBroadcastRow(t: Table, cs: seq<Cond>, fields: map<string, Cell>, o: Table, r: Row)
    requires WellFormed(t) && r in t.rows && Holds(r, cs)
    requires BroadcastOf(o, Where(t, cs), fields)
    ensures Find(o.rows, r.index) == Some(Row(r.index, r.cells + fields))
  {
    var w := Where(t, cs);
    var j :| 0 <= j < |w.rows| && w.rows[j] == r;
    assert o.rows[j] in o.rows;
    var f := Find(o.rows, r.index);
    var k :| 0 <= k < |o.rows| && o.rows[k] == f.value;
    assert w.rows[k] in w.rows;
    SameIndexSameRow(t, w.rows[k], r);
  }

  lemma NoBroadcastRow(t: Table, cs: seq<Cond>, fields: map<string, Cell>, o: Table, r: Row)
    requires WellFormed(t) && r in t.rows && !Holds(r, cs)
    requires BroadcastOf(o, Where(t, cs), fields)
    ensures forall x :: x in o.rows ==> x.index != r.index
  {
    var w := Where(t, cs);
    forall x | x in o.rows ensures x.index != r.index {
      var k :| 0 <= k < |o.rows| && o.rows[k] == x;
      assert w.rows[k] in w.rows;
      if x.index == r.index {
        SameIndexSameRow(t, w.rows[k], r);
      }
    }
  }

  // ---------------------------------------------------------------------
  // Dropping columns
  // ---------------------------------------------------------------------

  /** The elements of `s` not in `t`, in their order in `s`. */
  function Without<T(==,!new)>(s: seq<T>, t: seq<T>): (r: seq<T>)
    ensures |r| <= |s|
    ensures forall x :: x in r <==> x in s && x !in t
  {
    if s == [] then []
    else
      assert s == [s[0]] + s[1..];
      (if s[0] in t then [] else [s[0]]) + Without(s[1..], t)
  }

  lemma {:induction false} WithoutAppend<T(!new)>(a: seq<T>, b: seq<T>, t: seq<T>)
    ensures Without(a + b, t) == Without(a, t) + Without(b, t)
  {
    if a == [] {
      assert a + b == b;
    } else {
      assert (a + b)[0] == a[0];
      assert (a + b)[1..] == a[1..] + b;
      WithoutAppend(a[1..], b, t);
    }
  }

  lemma {:induction false} WithoutDistinct<T(!new)>(s: seq<T>, t: seq<T>)
    requires Distinct(s)
    ensures Distinct(Without(s, t))
  {
    if s != [] {
      assert Distinct(s[1..]) by {
        forall i, j | 0 <= i < j < |s[1..]| ensures s[1..][i] != s[1..][j] {
          assert s[1..][i] == s[i + 1] && s[1..][j] == s[j + 1];
        }
      }
      WithoutDistinct(s[1..], t);
      assert s[0] !in s[1..] by {
        forall k | 0 <= k < |s[1..]| ensures s[1..][k] != s[0] { assert s[1..][k] == s[k + 1]; }
      }
    }
  }

  lemma {:induction false} WithoutIdempotent<T(!new)>(s: seq<T>, t: seq<T>)
    ensures Without(Without(s, t), t) == Without(s, t)
  {
    if s != [] {
      WithoutIdempotent(s[1..], t);
      WithoutAppend(if s[0] in t then [] else [s[0]], Without(s[1..], t), t);
      assert Without([s[0]], t) == (if s[0] in t then [] else [s[0]]) + Without([], t);
    }
  }

  function DropCells(r: Row, drop: seq<string>): Row
  {
    Row(r.index, map c | c in r.cells && c !in drop :: r.cells[c])
  }

  /**
   * `df.drop(columns=drop, errors='ignore')`: the columns not in `drop`, in their order;
   * names in `drop` the table does not have are ignored; rows and surviving cells unchanged.
   */
  function DropColumns(t: Table, drop: seq<string>): (r: Table)
    ensures r.columns == Without(t.columns, drop)
    ensures |r.rows| == |t.rows|
    ensures forall i :: 0 <= i < |t.rows| ==> r.rows[i].index == t.rows[i].index
    ensures forall i, c :: 0 <= i < |t.rows| && c !in drop ==> Get(r.rows[i], c) == Get(t.rows[i], c)
    ensures forall i, c :: 0 <= i < |t.rows| && c in drop ==> c !in r.rows[i].cells
    ensures WellFormed(t) ==> WellFormed(r)
  {
    var rows := seq(|t.rows|, i requires 0 <= i < |t.rows| => DropCells(t.rows[i], drop));
    WellFormedDrop(t, drop, rows);
    Table(Without(t.columns, drop), rows)
  }

  lemma WellFormedDrop(t: Table, drop: seq<string>, rows: seq<Row>)
    requires |rows| == |t.rows|
    requires forall i :: 0 <= i < |t.rows| ==> rows[i] == DropCells(t.rows[i], drop)
    ensures WellFormed(t) ==> WellFormed(Table(Without(t.columns, drop), rows))
  {
    if WellFormed(t) {
      WithoutDistinct(t.columns, drop);
      var r := Table(Without(t.columns, drop), rows);
      forall x | x in rows ensures x.cells.Keys == ColumnSet(r) {
        var i :| 0 <= i < |rows| && rows[i] == x;
        assert t.rows[i] in t.rows;
      }
      forall i, j | 0 <= i < j < |rows| ensures rows[i].index != rows[j].index {
        assert rows[i].index == t.rows[i].index && rows[j].index == t.rows[j].index;
      }
    }
  }

  /** Dropping the same columns twice gives the table dropping them once gives. */
  lemma DropIdempotent(t: Table, drop: seq<string>)
    ensures DropColumns(DropColumns(t, drop), drop) == DropColumns(t, drop)
  {
    var once := DropColumns(t, drop);
    var twice := DropColumns(once, drop);
    WithoutIdempotent(t.columns, drop);
    forall i | 0 <= i < |t.rows| ensures twice.rows[i] == once.rows[i] {
      assert twice.rows[i].cells == once.rows[i].cells;
    }
  }

  // ---------------------------------------------------------------------
  // In-place mutation of a DataFrame object
  // ---------------------------------------------------------------------

  /** A DataFrame object that the scripts mutate in place. */
  class Frame {
    var table: Table

    constructor (t: Table)
      ensures table == t
    {
      table := t;
    }

    /** `df[col] = v`. */
    method AssignColumn(col: string, v: Cell)
      modifies this
      ensures table == WithColumn(old(table), col, v)
    {
      table := WithColumn(table, col, v);
    }

    /** `df.update(other)`. */
    method Update(other: Table)
      modifies this
      ensures table == UpdateFrom(old(table), other)
    {
      table := UpdateFrom(table, other);
    }

    /** `df.loc[mask, cols] = values` with every column of `fields` already present. */
    method LocAssign(cs: seq<Cond>, fields: map<string, Cell>)
      requires fields.Keys <= ColumnSet(table)
      modifies this
      ensures table == SetWhere(old(table), cs, fields)
    {
      table := SetWhere(table, cs, fields);
    }
  }
}
