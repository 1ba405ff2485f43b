/**
 * `MongoDBUploader.preprocess_data`: the dict comprehension that rewrites every
 * `.` and `$` in a record's keys to `_`, since the document store refuses field
 * names containing them.
 */
module KeySanitizer {
  import opened Tables

  /** A Python dict: its (key, value) pairs in insertion order. */
  type Record = seq<(string, Cell)>

  function Keys(d: Record): (ks: seq<string>)
    ensures |ks| == |d|
    ensures forall i :: 0 <= i < |d| ==> ks[i] == d[i].0
  {
    if d == [] then [] else [d[0].0] + Keys(d[1..])
  }

  /** The keys of a dict are distinct. */
  predicate IsDict(d: Record)
  {
    Distinct(Keys(d))
  }

  /** `d.get(k)`. */
  function Lookup(d: Record, k: string): (v: Option<Cell>)
    ensures v.None? <==> k !in Keys(d)
  {
    if d == [] then None
    else if d[0].0 == k then Some(d[0].1)
    else
      assert Keys(d) == [d[0].0] + Keys(d[1..]);
      Lookup(d[1..], k)
  }

  /** `s.replace(from, to)` for single characters. */
  function ReplaceChar(s: string, from: char, to: char): (r: string)
    ensures |r| == |s|
    ensures forall i :: 0 <= i < |s| ==> r[i] == if s[i] == from then to else s[i]
  {
    if s == [] then [] else [if s[0] == from then to else s[0]] + ReplaceChar(s[1..], from, to)
  }

  /** A key the store accepts as it is. */
  predicate IsClean(k: string)
  {
    '.' !in k && '$' !in k
  }

  /** `k.replace('.', '_').replace('$', '_')`. */
  function SanitizeKey(k: string): (r: string)
    ensures |r| == |k|
    ensures IsClean(r)
    ensures forall i :: 0 <= i < |k| ==> r[i] == if k[i] == '.' || k[i] == '$' then '_' else k[i]
    ensures IsClean(k) ==> r == k
  {
    ReplaceChar(ReplaceChar(k, '.', '_'), '$', '_')
  }

  /** `d[k] = v`: an existing key keeps its place and takes the new value; a new key goes last. */
  function Put(d: Record, k: string, v: Cell): (r: Record)
    ensures Keys(r) == if k in Keys(d) then Keys(d) else Keys(d) + [k]
    ensures Lookup(r, k) == Some(v)
    ensures forall k' :: k' != k ==> Lookup(r, k') == Lookup(d, k')
  {
    if d == [] then [(k, v)]
    else
      assert Keys(d) == [d[0].0] + Keys(d[1..]);
      if d[0].0 == k then
        var r := [(k, v)] + d[1..];
        assert r[1..] == d[1..];
        r
      else
        var rest := Put(d[1..], k, v);
        var r := [d[0]] + rest;
        assert r[0] == d[0] && r[1..] == rest;
        assert Keys(r) == [d[0].0] + Keys(rest);
        r
  }

  /**
   * `{k.replace('.', '_').replace('$', '_'): v for k, v in data.items()}`:
   * the fields are visited in order, so a later field overwrites an earlier one
   * whose key sanitises the same way.
   */
  function Preprocess(data: Record): (r: Record)
    ensures |r| <= |data|
  {
    if data == [] then []
    else
      var last := data[|data| - 1];
      Put(Preprocess(data[..|data| - 1]), SanitizeKey(last.0), last.1)
  }

  /** The value of the last field of `data` whose key sanitises to `k`. */
  function LastWithKey(data: Record, k: string): Option<Cell>
  {
    if data == [] then None
    else if SanitizeKey(data[|data| - 1].0) == k then Some(data[|data| - 1].1)
    else LastWithKey(data[..|data| - 1], k)
  }

  /** Each sanitised key holds the value of the LAST source field mapped to it, and only such keys occur. */
  lemma {:induction false} PreprocessLookup(data: Record, k: string)
    ensures Lookup(Preprocess(data), k) == LastWithKey(data, k)
  {
    if data != [] {
      PreprocessLookup(data[..|data| - 1], k);
    }
  }

  /** The output is a dict whose keys are exactly the sanitised source keys. */
  lemma PreprocessKeys(data: Record)
    ensures IsDict(Preprocess(data))
    ensures forall k :: k in Keys(Preprocess(data)) <==> SomeFieldMapsTo(data, k)
  {
    PreprocessIsDict(data);
    forall k ensures k in Keys(Preprocess(data)) <==> SomeFieldMapsTo(data, k) {
      PreprocessHasKey(data, k);
    }
  }

  lemma {:induction false} PreprocessIsDict(data: Record)
    ensures IsDict(Preprocess(data))
  {
    if data != [] {
      var init := data[..|data| - 1];
      var last := data[|data| - 1];
      PreprocessIsDict(init);
      var d := Preprocess(init);
      var nk := SanitizeKey(last.0);
      assert Preprocess(data) == Put(d, nk, last.1);
      if nk !in Keys(d) {
        var ks := Keys(d) + [nk];
        assert Keys(Preprocess(data)) == ks;
        forall i, j | 0 <= i < j < |ks| ensures ks[i] != ks[j] {
          if j == |ks| - 1 {
            assert ks[i] == Keys(d)[i];
          } else {
            assert ks[i] == Keys(d)[i] && ks[j] == Keys(d)[j];
          }
        }
      }
    }
  }

  lemma {:induction false} PreprocessHasKey(data: Record, k: string)
    ensures k in Keys(Preprocess(data)) <==> SomeFieldMapsTo(data, k)
  {
    if data != [] {
      var init := data[..|data| - 1];
      var last := data[|data| - 1];
      PreprocessHasKey(init, k);
      var d := Preprocess(init);
      var nk := SanitizeKey(last.0);
      assert Preprocess(data) == Put(d, nk, last.1);
      assert k in Keys(Preprocess(data)) <==> k in Keys(d) || k == nk;
      SanitizedAmongSplit(data, k);
    }
  }

  /** Some field of `data` has a key that sanitises to `k`. */
  predicate SomeFieldMapsTo(data: Record, k: string)
  {
    exists i :: 0 <= i < |data| && SanitizeKey(data[i].0) == k
  }

  lemma SanitizedAmongSplit(data: Record, k: string)
    requires data != []
    ensures SomeFieldMapsTo(data, k) <==>
            SomeFieldMapsTo(data[..|data| - 1], k) || SanitizeKey(data[|data| - 1].0) == k
  {
    if SomeFieldMapsTo(data[..|data| - 1], k) {
      SanitizedInInit(data, k);
    }
    if SanitizeKey(data[|data| - 1].0) == k {
      assert SomeFieldMapsTo(data, k);
    }
    if SomeFieldMapsTo(data, k) && SanitizeKey(data[|data| - 1].0) != k {
      SanitizedBeforeLast(data, k);
    }
  }

  lemma SanitizedInInit(data: Record, k: string)
    requires data != [] && SomeFieldMapsTo(data[..|data| - 1], k)
    ensures SomeFieldMapsTo(data, k)
  {
    var init := data[..|data| - 1];
    var i :| 0 <= i < |init| && SanitizeKey(init[i].0) == k;
    assert data[i] == init[i];
  }

  lemma SanitizedBeforeLast(data: Record, k: string)
    requires data != [] && SomeFieldMapsTo(data, k) && SanitizeKey(data[|data| - 1].0) != k
    ensures SomeFieldMapsTo(data[..|data| - 1], k)
  {
    var init := data[..|data| - 1];
    var i :| 0 <= i < |data| && SanitizeKey(data[i].0) == k;
    assert i < |data| - 1;
    assert init[i] == data[i];
  }

  /** No key of a sanitised record contains `.` or `$`. */
  lemma PreprocessClean(data: Record)
    ensures forall k :: k in Keys(Preprocess(data)) ==> IsClean(k)
  {
    PreprocessKeys(data);
  }

  /** A key with neither `.` nor `$` survives unchanged, and every value comes from the source record. */
  lemma PreprocessPreserves(data: Record, i: nat, k: string)
    requires i < |data| && IsClean(data[i].0)
    ensures data[i].0 in Keys(Preprocess(data))
    ensures Lookup(Preprocess(data), k).Some? ==> exists j :: 0 <= j < |data| && data[j].1 == Lookup(Preprocess(data), k).value
  {
    PreprocessKeys(data);
    PreprocessLookup(data, k);
    LastWithKeyFrom(data, k);
  }

  lemma {:induction false} LastWithKeyFrom(data: Record, k: string)
    ensures LastWithKey(data, k).Some? ==>
              exists j :: 0 <= j < |data| && SanitizeKey(data[j].0) == k && data[j].1 == LastWithKey(data, k).value
  {
    if data != [] && SanitizeKey(data[|data| - 1].0) != k {
      var init := data[..|data| - 1];
      LastWithKeyFrom(init, k);
      if LastWithKey(init, k).Some? {
        var j :| 0 <= j < |init| && SanitizeKey(init[j].0) == k && init[j].1 == LastWithKey(init, k).value;
        assert data[j] == init[j];
      }
    }
  }

  /** On a collision the later field wins: if field `j` is the last one mapped to its key, its value is kept. */
  lemma {:induction false} LaterKeyWins(data: Record, j: nat)
    requires j < |data|
    requires forall m :: j < m < |data| ==> SanitizeKey(data[m].0) != SanitizeKey(data[j].0)
    ensures Lookup(Preprocess(data), SanitizeKey(data[j].0)) == Some(data[j].1)
  {
    PreprocessLookup(data, SanitizeKey(data[j].0));
    LastWithKeyIs(data, j);
  }

  lemma {:induction false} LastWithKeyIs(data: Record, j: nat)
    requires j < |data|
    requires forall m :: j < m < |data| ==> SanitizeKey(data[m].0) != SanitizeKey(data[j].0)
    ensures LastWithKey(data, SanitizeKey(data[j].0)) == Some(data[j].1)
  {
    if j < |data| - 1 {
      var init := data[..|data| - 1];
      assert init[j] == data[j];
      LastWithKeyIs(init, j);
    }
  }

  /** A dict whose keys are all clean comes out of the comprehension as it went in. */
  lemma {:induction false} PreprocessCleanDictUnchanged(data: Record)
    requires IsDict(data)
    requires forall i :: 0 <= i < |data| ==> IsClean(data[i].0)
    ensures Preprocess(data) == data
  {
    if data != [] {
      var init := data[..|data| - 1];
      var last := data[|data| - 1];
      CleanInit(data, init);
      PreprocessCleanDictUnchanged(init);
      PreprocessLast(init, last);
      InitLast(data);
    }
  }

  lemma CleanInit(data: Record, init: Record)
    requires IsDict(data) && data != [] && init == data[..|data| - 1]
    requires forall i :: 0 <= i < |data| ==> IsClean(data[i].0)
    ensures IsDict(init) && data[|data| - 1].0 !in Keys(init)
    ensures forall i :: 0 <= i < |init| ==> IsClean(init[i].0)
  {
    DictSplit(data);
    forall i | 0 <= i < |init| ensures IsClean(init[i].0) {
      assert init[i] == data[i];
    }
  }

  /** The comprehension over `init` followed by one more field. */
  lemma PreprocessSnoc(init: Record, last: (string, Cell))
    ensures Preprocess(init + [last]) == Put(Preprocess(init), SanitizeKey(last.0), last.1)
  {
    var data := init + [last];
    assert data[..|data| - 1] == init && data[|data| - 1] == last;
  }

  lemma PreprocessLast(init: Record, last: (string, Cell))
    requires Preprocess(init) == init && IsClean(last.0) && last.0 !in Keys(init)
    ensures Preprocess(init + [last]) == init + [last]
  {
    PreprocessSnoc(init, last);
    PutAppends(init, last.0, last.1);
  }

  /** Dropping the last field of a dict leaves a dict that does not hold the last key. */
  lemma DictSplit(data: Record)
    requires IsDict(data) && data != []
    ensures IsDict(data[..|data| - 1])
    ensures data[|data| - 1].0 !in Keys(data[..|data| - 1])
  {
    var init := data[..|data| - 1];
    forall i, j | 0 <= i < j < |init| ensures Keys(init)[i] != Keys(init)[j] {
      assert Keys(init)[i] == Keys(data)[i] && Keys(init)[j] == Keys(data)[j];
    }
    forall i | 0 <= i < |init| ensures Keys(init)[i] != data[|data| - 1].0 {
      assert Keys(init)[i] == Keys(data)[i] && Keys(data)[|data| - 1] == data[|data| - 1].0;
    }
  }

  lemma {:induction false} PutAppends(d: Record, k: string, v: Cell)
    requires k !in Keys(d)
    ensures Put(d, k, v) == d + [(k, v)]
  {
    if d != [] {
      KeysOfTail(d, k);
      PutAppends(d[1..], k, v);
      PutPastHead(d, k, v);
      ConsSnoc(d, (k, v));
    }
  }

  lemma InitLast<T>(s: seq<T>)
    requires s != []
    ensures s == s[..|s| - 1] + [s[|s| - 1]]
  {
  }

  lemma ConsSnoc<T>(s: seq<T>, y: T)
    requires s != []
    ensures [s[0]] + (s[1..] + [y]) == s + [y]
  {
  }

  lemma KeysOfTail(d: Record, k: string)
    requires d != [] && k !in Keys(d)
    ensures d[0].0 != k && k !in Keys(d[1..])
  {
    assert Keys(d) == [d[0].0] + Keys(d[1..]);
  }

  /** Assigning a key the head does not hold keeps the head and assigns in the rest. */
  lemma PutPastHead(d: Record, k: string, v: Cell)
    requires d != [] && d[0].0 != k
    ensures Put(d, k, v) == [d[0]] + Put(d[1..], k, v)
  {
  }

  /** `{"a.b": 1, "a_b": 2}` sanitises to `{"a_b": 2}`: the two keys collide and the later value wins. */
  lemma CollisionExample()
    ensures Preprocess([("a.b", Int(1)), ("a_b", Int(2))]) == [("a_b", Int(2))]
  {
    var data: Record := [("a.b", Int(1)), ("a_b", Int(2))];
    assert SanitizeKey("a.b") == "a_b";
    assert SanitizeKey("a_b") == "a_b";
    assert data[..1] == [("a.b", Int(1))];
    assert Preprocess(data[..1]) == [("a_b", Int(1))] by {
      assert data[..1][..0] == [];
    }
  }
}
