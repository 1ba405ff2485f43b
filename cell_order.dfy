/**
 * Python's `sorted` on the distinct non-missing values of a column: strings compare by
 * code point, numbers and dates by value, and two values of different kinds cannot be
 * compared at all (a `TypeError`).
 */
module CellOrder {
  import opened Tables

  /** `a < b` on Python strings: lexicographic by code point, a proper prefix first. */
  predicate StrLt(a: string, b: string)
  {
    if a == [] then b != []
    else if b == [] then false
    else if a[0] != b[0] then a[0] < b[0]
    else StrLt(a[1..], b[1..])
  }

  lemma {:induction false} StrLtIrreflexive(a: string)
    ensures !StrLt(a, a)
  {
    if a != [] {
      StrLtIrreflexive(a[1..]);
    }
  }

  lemma {:induction false} StrLtTransitive(a: string, b: string, c: string)
    requires StrLt(a, b) && StrLt(b, c)
    ensures StrLt(a, c)
  {
    if a != [] && b != [] && c != [] && a[0] == b[0] && b[0] == c[0] {
      StrLtTransitive(a[1..], b[1..], c[1..]);
    }
  }

  lemma {:induction false} StrLtTotal(a: string, b: string)
    requires a != b
    ensures StrLt(a, b) || StrLt(b, a)
  {
    if a != [] && b != [] && a[0] == b[0] {
      assert a == [a[0]] + a[1..] && b == [b[0]] + b[1..];
      StrLtTotal(a[1..], b[1..]);
    }
  }

  /** The kind of a value; values of two different kinds do not compare. */
  function Kind(c: Cell): nat
  {
    match c
    case Null => 0
    case Str(_) => 1
    case Int(_) => 2
    case Date(_) => 3
  }

  /** `a < b` on two values of the same kind; false across kinds. */
  predicate CellLt(a: Cell, b: Cell)
  {
    match (a, b)
    case (Str(x), Str(y)) => StrLt(x, y)
    case (Int(x), Int(y)) => x < y
    case (Date(x), Date(y)) => x < y
    case _ => false
  }

  /** `<` is a strict total order on the non-missing values of one kind. */
  lemma CellLtOrder(a: Cell, b: Cell, c: Cell)
    ensures !CellLt(a, a)
    ensures CellLt(a, b) && CellLt(b, c) ==> CellLt(a, c)
    ensures a != Null && a != b && Kind(a) == Kind(b) ==> CellLt(a, b) || CellLt(b, a)
  {
    if a.Str? {
      StrLtIrreflexive(a.s);
      if b.Str? && c.Str? && CellLt(a, b) && CellLt(b, c) { StrLtTransitive(a.s, b.s, c.s); }
      if b.Str? && a != b { StrLtTotal(a.s, b.s); }
    }
  }

  predicate StrictlySorted(s: seq<Cell>)
  {
    forall i, j :: 0 <= i < j < |s| ==> CellLt(s[i], s[j])
  }

  /** All values of `s` have one kind. */
  predicate SameKind(s: seq<Cell>)
  {
    forall x, y :: x in s && y in s ==> Kind(x) == Kind(y)
  }

  /** `x` put into its place in the sorted `s`. */
  function Insert(x: Cell, s: seq<Cell>): (r: seq<Cell>)
    requires x != Null && x !in s && StrictlySorted(s)
    requires forall y :: y in s ==> Kind(y) == Kind(x)
    ensures StrictlySorted(r)
    ensures multiset(r) == multiset(s) + multiset{x}
  {
    if s == [] then [x]
    else if CellLt(x, s[0]) then
      forall j | 0 < j < |s| ensures CellLt(x, s[j]) {
        CellLtOrder(x, s[0], s[j]);
      }
      [x] + s
    else
      CellLtOrder(x, s[0], s[0]);
      assert s == [s[0]] + s[1..];
      var rest := Insert(x, s[1..]);
      InsertHead(x, s, rest);
      [s[0]] + rest
  }

  lemma InsertHead(x: Cell, s: seq<Cell>, rest: seq<Cell>)
    requires s != [] && StrictlySorted(s) && StrictlySorted(rest) && CellLt(s[0], x)
    requires multiset(rest) == multiset(s[1..]) + multiset{x}
    ensures StrictlySorted([s[0]] + rest)
  {
    forall y | y in rest ensures CellLt(s[0], y) {
      assert y in multiset(rest);
      if y != x {
        assert y in s[1..];
      }
    }
    var r := [s[0]] + rest;
    forall i, j | 0 <= i < j < |r| ensures CellLt(r[i], r[j]) {
      if i > 0 {
        assert r[i] == rest[i - 1] && r[j] == rest[j - 1];
      } else {
        assert r[j] == rest[j - 1] && r[j] in rest;
      }
    }
  }

  /** `sorted(s)` for distinct non-missing values of one kind: the same values, ascending. */
  function Sort(s: seq<Cell>): (r: seq<Cell>)
    requires SameKind(s) && Distinct(s)
    requires forall x :: x in s ==> x != Null
    ensures StrictlySorted(r)
    ensures multiset(r) == multiset(s)
  {
    if s == [] then []
    else
      var init := s[..|s| - 1];
      var last := s[|s| - 1];
      assert s == init + [last];
      assert last in s && forall x :: x in init ==> x in s;
      assert SameKind(init) && Distinct(init) by {
        forall i, j | 0 <= i < j < |init| ensures init[i] != init[j] {
          assert init[i] == s[i] && init[j] == s[j];
        }
      }
      var sorted := Sort(init);
      assert last !in init by {
        forall i | 0 <= i < |init| ensures init[i] != last { assert init[i] == s[i]; }
      }
      forall y | y in sorted ensures Kind(y) == Kind(last) {
        assert y in multiset(sorted);
      }
      assert last !in sorted by {
        assert last !in multiset(init);
      }
      Insert(last, sorted)
  }

  /** A strictly sorted sequence has no repeated value. */
  lemma StrictlySortedDistinct(s: seq<Cell>)
    requires StrictlySorted(s)
    ensures Distinct(s)
  {
    forall i, j | 0 <= i < j < |s| ensures s[i] != s[j] {
      CellLtOrder(s[i], s[j], s[j]);
    }
  }

  /** Two non-missing values of `vals` have different kinds. */
  predicate MixedKinds(vals: seq<Cell>)
  {
    exists x, y :: x in vals && y in vals && x != Null && y != Null && Kind(x) != Kind(y)
  }

  /**
   * `sorted(col.dropna().unique())`: the distinct non-missing values, ascending; `None` when
   * two of them have kinds Python cannot compare.
   */
  function SortedOptions(vals: seq<Cell>): (r: Option<seq<Cell>>)
    ensures r.None? <==> MixedKinds(vals)
    ensures r.Some? ==> StrictlySorted(r.value) && Distinct(r.value)
    ensures r.Some? ==> forall x :: x in r.value <==> x in vals && x != Null
  {
    var u := Unique(Without(vals, [Null]));
    if MixedKinds(vals) then None
    else
      assert SameKind(u);
      var r := Sort(u);
      StrictlySortedDistinct(r);
      assert forall x :: x in r <==> x in multiset(u);
      Some(r)
  }
}
