/** CREATE INDEX on a table that already has rows. */
module Backfills {
  import opened Bytes
  import opened Entries
  import opened Pages
  import opened Recovery
  import opened Values
  import opened Rows
  import opened Expressions
  import opened Tables
  import opened RowStatements
  import opened Seek
  import opened Loading

  /** `hasIndexEntryForValue`. */
  method HasEntry(d: Data, target: Bytes, v: Value) returns (r: bool)
    ensures r <==> SomeKeyWith(d, target, SortKey(v))
  {
    var es := Listing(d, target, SortKey(v));
    FirstKeyDecides(d, target, SortKey(v), es);
    if |es| == 0 {
      return false;
    }
    r := HasPrefix(es[0].key, SortKey(v));
  }

  function WithIndex(s: Schema, ix: Index): Schema { s.(indexes := s.indexes + [ix]) }

  ghost predicate Addable(s: Schema, ix: Index) {
    SchemaOk(s) && ColumnIndex(s.columns, ix.column).Some? && forall i :: 0 <= i < |s.indexes| ==>
      s.indexes[i].name != ix.name
  }

  lemma {:induction false} WithIndexOk(s: Schema, ix: Index)
    requires Addable(s, ix)
    ensures SchemaOk(WithIndex(s, ix))
    ensures forall i :: 0 <= i < |s.indexes| ==> IndexColumn(WithIndex(s, ix), i) == IndexColumn(s, i)
    ensures IndexColumn(WithIndex(s, ix), |s.indexes|) == ColumnIndex(s.columns, ix.column).value
  {
    var w := WithIndex(s, ix);
    forall i | 0 <= i < |w.indexes| ensures IndexOk(w, i) {
      if i < |s.indexes| {
        assert IndexOk(s, i);
      }
    }
    forall i, j | 0 <= i < j < |w.indexes| ensures NamesDiffer(w, i, j) {
      if j < |s.indexes| {
        assert NamesDiffer(s, i, j);
      }
    }
  }

  /** The first n rows of a scan. */
  ghost function FirstRows(rows: RowMap, es: seq<Entry>, n: nat): RowMap
    requires n <= |es|
  {
    map rk | rk in rows && rk in KeysOf(es)[..n] :: rows[rk]
  }

  lemma {:induction false} FirstRowsSnoc(rows: RowMap, es: seq<Entry>, n: nat)
    requires n < |es| && Rising(KeysOf(es)) && es[n].key in rows
    ensures es[n].key !in FirstRows(rows, es, n)
    ensures FirstRows(rows, es, n + 1) == FirstRows(rows, es, n)[es[n].key := rows[es[n].key]]
  {
    var ks := KeysOf(es);
    RisingNoRepeats(ks);
    assert ks[..n + 1] == ks[..n] + [ks[n]];
  }

  lemma {:induction false} FirstRowsAll(rows: RowMap, es: seq<Entry>)
    requires forall k :: k in KeysOf(es) <==> k in rows
    ensures FirstRows(rows, es, |es|) == rows && FirstRows(rows, es, 0) == map[]
  {
    assert KeysOf(es)[..|es|] == KeysOf(es);
  }

  /** Entry j of the scan is a row of the table. */
  ghost predicate RowAt(s: Schema, rows: RowMap, es: seq<Entry>, j: nat)
    requires j < |es|
  {
    es[j].key in rows && RowFits(s, es[j].key, rows[es[j].key])
  }

  /** Row j of the scan can be indexed after the rows before it: its key is not too large and, in a unique index, no
      earlier key starts with its value. This counts NULL as a value, which INSERT does not. */
  ghost predicate RowIndexed(s: Schema, ix: Index, rows: RowMap, es: seq<Entry>, j: nat)
    requires Addable(s, ix) && j < |es| && RowAt(s, rows, es, j)
  {
    var c := ColumnIndex(s.columns, ix.column).value;
    var v := rows[es[j].key][c];
    && |IndexKey(v, es[j].key)| <= MAX_KEY_VALUE
    && (ix.unique ==> !RowsWithKey(FirstRows(rows, es, j), c, SortKey(v)))
  }

  ghost predicate ScanOk(d: Data, s: Schema, rows: RowMap, n: nat, es: seq<Entry>) {
    HeapAgrees(d, s, rows) && RowsOk(s, rows, n) && ListsFrom(d, TableTarget(s.name), [], es)
  }

  /** Each of the first n rows can be indexed in its turn. */
  ghost predicate RowsIndexed(s: Schema, ix: Index, rows: RowMap, es: seq<Entry>, n: nat)
    requires Addable(s, ix) && n <= |es|
  {
    n == 0 || (RowsIndexed(s, ix, rows, es, n - 1) && RowAt(s, rows, es, n - 1) && RowIndexed(s, ix, rows, es, n - 1))
  }

  lemma {:induction false} RowsIndexedFirst(s: Schema, ix: Index, rows: RowMap, es: seq<Entry>, m: nat, n: nat)
    requires Addable(s, ix) && m <= n <= |es| && RowsIndexed(s, ix, rows, es, n)
    ensures RowsIndexed(s, ix, rows, es, m)
    decreases n
  {
    if m < n {
      RowsIndexedFirst(s, ix, rows, es, m, n - 1);
    }
  }

  lemma {:induction false} ScanRow(d: Data, s: Schema, rows: RowMap, n: nat, es: seq<Entry>, j: nat)
    requires ScanOk(d, s, rows, n, es) && j < |es|
    ensures RowAt(s, rows, es, j)
    ensures RowOf(es[j].val, Types(s)) == Some(rows[es[j].key])
  {
    ScannedRow(d, s, rows, n, es, j);
    assert RowOk(s, es[j].key, rows[es[j].key]);
  }

  /** The tree holds the entries of an index on column c. */
  ghost predicate TreeShows(d: Data, target: Bytes, rows: RowMap, c: nat) {
    forall k: Bytes :: At(d, Loc(target, k)) == IndexAt(rows, c, k)
  }

  lemma {:induction false} TreeIsIndex(d: Data, s: Schema, ix: Index, rows: RowMap)
    requires Addable(s, ix)
    ensures SchemaOk(WithIndex(s, ix)) && Target(WithIndex(s, ix), |s.indexes|) == IndexTarget(s.name, ix.name)
    ensures TreeShows(d, IndexTarget(s.name, ix.name), rows, ColumnIndex(s.columns, ix.column).value) <==>
            IndexAgrees(d, WithIndex(s, ix), |s.indexes|, rows)
  {
    WithIndexOk(s, ix);
  }

  /** The first j rows of the scan are in the new index and nothing else has changed. */
  ghost predicate Filled(d: Data, d': Data, s: Schema, ix: Index, rows: RowMap, es: seq<Entry>, j: nat)
    requires Addable(s, ix) && j <= |es|
  {
    var t := IndexTarget(s.name, ix.name);
    SameOutside(d, d', t) && TreeShows(d', t, FirstRows(rows, es, j), ColumnIndex(s.columns, ix.column).value)
  }

  /** No tree of that name is there yet. */
  ghost predicate NoTree(d: Data, target: Bytes) { forall k: Bytes :: Loc(target, k) !in d }

  lemma {:induction false} FilledStart(d: Data, s: Schema, ix: Index, rows: RowMap, es: seq<Entry>)
    requires Addable(s, ix) && NoTree(d, IndexTarget(s.name, ix.name))
    ensures FillProgress(d, d, s, ix, rows, es, 0, true)
  {
    var t := IndexTarget(s.name, ix.name);
    assert FirstRows(rows, es, 0) == map[];
    forall k: Bytes ensures At(d, Loc(t, k)) == None {
    }
  }

  lemma {:induction false} FilledStep(d: Data, d': Data, s: Schema, ix: Index, rows: RowMap, n: nat, es: seq<Entry>,
                                      j: nat)
    requires Addable(s, ix) && j < |es| && ScanOk(d, s, rows, n, es) && Filled(d, d', s, ix, rows, es, j)
    requires RowAt(s, rows, es, j)
    ensures var v := rows[es[j].key][ColumnIndex(s.columns, ix.column).value];
            Filled(d, d'[Loc(IndexTarget(s.name, ix.name), IndexKey(v, es[j].key)) := es[j].key], s, ix, rows, es,
                   j + 1)
  {
    var w, rk := WithIndex(s, ix), es[j].key;
    var v := rows[rk][ColumnIndex(s.columns, ix.column).value];
    var l := Loc(IndexTarget(s.name, ix.name), IndexKey(v, rk));
    WithIndexOk(s, ix);
    TreeIsIndex(d', s, ix, FirstRows(rows, es, j));
    TreeIsIndex(d'[l := rk], s, ix, FirstRows(rows, es, j + 1));
    ScanKeys(d, s, rows, es);
    FirstRowsSnoc(rows, es, j);
    assert Types(w) == Types(s);
    SameOutsidePut(d', l, rk);
    EntryAdded(d', w, |s.indexes|, FirstRows(rows, es, j), rk, rows[rk], d'[l := rk]);
  }

  ghost predicate FillProgress(d: Data, cur: Data, s: Schema, ix: Index, rows: RowMap, es: seq<Entry>, j: nat, ok: bool)
    requires Addable(s, ix) && j <= |es|
  {
    (ok <==> RowsIndexed(s, ix, rows, es, j)) && (ok ==> Filled(d, cur, s, ix, rows, es, j))
  }

  lemma {:induction false} FillEnds(d: Data, cur: Data, s: Schema, ix: Index, rows: RowMap, es: seq<Entry>, j: nat,
                                    ok: bool)
    requires Addable(s, ix) && j <= |es| && (ok ==> j == |es|) && FillProgress(d, cur, s, ix, rows, es, j, ok)
    ensures FillProgress(d, cur, s, ix, rows, es, |es|, ok)
  {
    if RowsIndexed(s, ix, rows, es, |es|) {
      RowsIndexedFirst(s, ix, rows, es, j, |es|);
    }
  }

  /** The whole backfill succeeds exactly when each row of the scan can be indexed in its turn; the new index then
      holds one entry for every row, and nothing else has changed. */
  method Backfill(d: Data, s: Schema, ix: Index, ghost rows: RowMap, ghost n: nat)
    returns (ok: bool, cur: Data, ghost es: seq<Entry>)
    requires Addable(s, ix) && HeapAgrees(d, s, rows) && RowsOk(s, rows, n) && NoTree(d, IndexTarget(s.name, ix.name))
    ensures ScanOk(d, s, rows, n, es) && FillProgress(d, cur, s, ix, rows, es, |es|, ok)
  {
    var scan := Listing(d, TableTarget(s.name), []);
    es := scan;
    FilledStart(d, s, ix, rows, es);
    cur, ok := d, true;
    var j := 0;
    while j < |scan| && ok
      invariant 0 <= j <= |es| && FillProgress(d, cur, s, ix, rows, es, j, ok)
    {
      ok, cur := BackfillRow(d, cur, s, ix, scan, j, rows, n);
      j := j + 1;
    }
    FillEnds(d, cur, s, ix, rows, es, j, ok);
  }

  method BackfillRow(ghost d: Data, cur: Data, s: Schema, ix: Index, es: seq<Entry>, j: nat, ghost rows: RowMap,
                     ghost n: nat)
    returns (ok: bool, next: Data)
    requires Addable(s, ix) && j < |es| && ScanOk(d, s, rows, n, es) && FillProgress(d, cur, s, ix, rows, es, j, true)
    ensures FillProgress(d, next, s, ix, rows, es, j + 1, ok)
  {
    var k, target := es[j].key, IndexTarget(s.name, ix.name);
    ScanRow(d, s, rows, n, es, j);
    FilledStep(d, cur, s, ix, rows, n, es, j);
    next := cur;
    var vals := DecodeRow(es[j].val, Types(s));
    var v := vals.value[ColumnIndex(s.columns, ix.column).value];
    WithIndexOk(s, ix);
    TreeIsIndex(cur, s, ix, FirstRows(rows, es, j));
    KeysOfRows(cur, WithIndex(s, ix), |s.indexes|, FirstRows(rows, es, j), SortKey(v));
    if ix.unique {
      var dup := HasEntry(cur, target, v);
      if dup {
        return false, cur;
      }
    }
    if |IndexKey(v, k)| > MAX_KEY_VALUE || |k| > MAX_KEY_VALUE {
      return false, cur;
    }
    return true, cur[Loc(target, IndexKey(v, k)) := k];
  }

  /** With the new index in the schema, the heap and all indexes agree on the same rows. */
  lemma {:induction false} BackfillAgrees(d: Data, d': Data, s: Schema, ix: Index, rows: RowMap, n: nat, es: seq<Entry>)
    requires Addable(s, ix) && Agrees(d, s, rows) && ScanOk(d, s, rows, n, es) && Filled(d, d', s, ix, rows, es, |es|)
    ensures SchemaOk(WithIndex(s, ix)) && Agrees(d', WithIndex(s, ix), rows)
  {
    WithIndexOk(s, ix);
    var w, m := WithIndex(s, ix), |s.indexes|;
    ScanKeys(d, s, rows, es);
    FirstRowsAll(rows, es);
    TreeIsIndex(d', s, ix, rows);
    TargetsDiffer(w, m, m);
    HeapFrame(d, d', s, rows, Target(w, m));
    forall i | 0 <= i < |w.indexes| ensures IndexAgrees(d', w, i, rows) {
      if i < m {
        TargetsDiffer(w, i, m);
        assert IndexAgrees(d, s, i, rows);
        forall k: Bytes ensures At(d', Loc(Target(w, i), k)) == IndexAt(rows, IndexColumn(w, i), k) {
          assert At(d, Loc(Target(s, i), k)) == IndexAt(rows, IndexColumn(s, i), k);
        }
      }
    }
  }

  /** A unique index that could be built has no two rows with one value. */
  lemma {:induction false} BackfillUnique(d: Data, s: Schema, ix: Index, rows: RowMap, n: nat, es: seq<Entry>)
    requires Addable(s, ix) && ix.unique && ScanOk(d, s, rows, n, es) && RowsIndexed(s, ix, rows, es, |es|)
    ensures Distinct(rows, ColumnIndex(s.columns, ix.column).value)
  {
    var c := ColumnIndex(s.columns, ix.column).value;
    ScanKeys(d, s, rows, es);
    forall a, b | a in rows && b in rows && a != b && c < |rows[a]| && c < |rows[b]|
      ensures Apart(rows[a][c], rows[b][c])
    {
      PairDiffers(d, s, ix, rows, n, es, a, b);
    }
  }

  lemma {:induction false} KeyIndex(es: seq<Entry>, k: Bytes) returns (i: nat)
    requires k in KeysOf(es)
    ensures i < |es| && es[i].key == k
  {
    i :| 0 <= i < |es| && KeysOf(es)[i] == k;
  }

  lemma {:induction false} PairDiffers(d: Data, s: Schema, ix: Index, rows: RowMap, n: nat, es: seq<Entry>, a: Bytes,
                                       b: Bytes)
    requires Addable(s, ix) && ix.unique && ScanOk(d, s, rows, n, es) && RowsIndexed(s, ix, rows, es, |es|)
    requires a in KeysOf(es) && b in KeysOf(es) && a != b
    ensures var c := ColumnIndex(s.columns, ix.column).value;
            a in rows && b in rows && c < |rows[a]| && c < |rows[b]| && SortKey(rows[a][c]) != SortKey(rows[b][c])
  {
    var i := KeyIndex(es, a);
    var j := KeyIndex(es, b);
    ScanRow(d, s, rows, n, es, i);
    ScanRow(d, s, rows, n, es, j);
    PlacesDiffer(s, ix, rows, es, i, j, ColumnIndex(s.columns, ix.column).value);
  }

  lemma {:induction false} PlacesDiffer(s: Schema, ix: Index, rows: RowMap, es: seq<Entry>, i: nat, j: nat, c: nat)
    requires Addable(s, ix) && ix.unique && i < |es| && j < |es| && i != j
    requires RowAt(s, rows, es, i) && RowAt(s, rows, es, j) && RowsIndexed(s, ix, rows, es, |es|)
    requires c == ColumnIndex(s.columns, ix.column).value
    ensures c < |rows[es[i].key]| && c < |rows[es[j].key]| && SortKey(rows[es[i].key][c]) != SortKey(rows[es[j].key][c])
  {
    if i < j {
      EarlierDiffers(s, ix, rows, es, i, j);
    } else {
      EarlierDiffers(s, ix, rows, es, j, i);
    }
  }

  lemma {:induction false} KeyOfRow(rows: RowMap, c: nat, rk: Bytes)
    requires rk in rows && |rk| == 8 && c < |rows[rk]|
    ensures RowsWithKey(rows, c, SortKey(rows[rk][c]))
  {
    var k := IndexKey(rows[rk][c], rk);
    KeyEnds(rows[rk][c], rk);
    assert SortKey(rows[rk][c]) <= k && IndexAt(rows, c, k) == Some(rk);
  }

  lemma {:induction false} EarlierDiffers(s: Schema, ix: Index, rows: RowMap, es: seq<Entry>, i: nat, j: nat)
    requires Addable(s, ix) && ix.unique && i < j < |es| && RowAt(s, rows, es, i) && RowAt(s, rows, es, j)
    requires RowsIndexed(s, ix, rows, es, |es|)
    ensures var c := ColumnIndex(s.columns, ix.column).value;
            SortKey(rows[es[i].key][c]) != SortKey(rows[es[j].key][c])
  {
    var c, a := ColumnIndex(s.columns, ix.column).value, es[i].key;
    var first := FirstRows(rows, es, j);
    assert !RowsWithKey(first, c, SortKey(rows[es[j].key][c])) by {
      RowsIndexedFirst(s, ix, rows, es, j + 1, |es|);
      assert RowIndexed(s, ix, rows, es, j);
    }
    assert KeysOf(es)[..j][i] == a;
    assert a in first && first[a] == rows[a];
    KeyOfRow(first, c, a);
  }

  /** At most one row has no value. */
  ghost predicate OneNull(rows: RowMap, c: nat) {
    forall a, b :: a in rows && b in rows && a != b && c < |rows[a]| && c < |rows[b]| ==>
      !rows[a][c].Null? || !rows[b][c].Null?
  }

  /** On a column of fixed width a unique index can be built exactly when no two rows share a value and at most one is
      NULL, although INSERT takes any number of NULLs into the same index. */
  lemma {:induction false} BackfillUniqueIff(d: Data, s: Schema, ix: Index, rows: RowMap, n: nat, es: seq<Entry>)
    requires Addable(s, ix) && ix.unique && ScanOk(d, s, rows, n, es)
    requires FixedWidth(Types(s)[ColumnIndex(s.columns, ix.column).value])
    ensures var c := ColumnIndex(s.columns, ix.column).value;
            RowsIndexed(s, ix, rows, es, |es|) <==> Distinct(rows, c) && OneNull(rows, c)
  {
    var c := ColumnIndex(s.columns, ix.column).value;
    if RowsIndexed(s, ix, rows, es, |es|) {
      BackfillUnique(d, s, ix, rows, n, es);
      ScanKeys(d, s, rows, es);
      forall a, b | a in rows && b in rows && a != b && c < |rows[a]| && c < |rows[b]|
        ensures !rows[a][c].Null? || !rows[b][c].Null?
      {
        PairDiffers(d, s, ix, rows, n, es, a, b);
      }
    }
    if Distinct(rows, c) && OneNull(rows, c) {
      forall j | 0 <= j < |es| ensures RowAt(s, rows, es, j) && RowIndexed(s, ix, rows, es, j) {
        OneIndexed(d, s, ix, rows, n, es, j);
      }
      AllIndexed(s, ix, rows, es, |es|);
    }
  }

  lemma {:induction false} AllIndexed(s: Schema, ix: Index, rows: RowMap, es: seq<Entry>, m: nat)
    requires Addable(s, ix) && m <= |es|
    requires forall j :: 0 <= j < m ==> RowAt(s, rows, es, j) && RowIndexed(s, ix, rows, es, j)
    ensures RowsIndexed(s, ix, rows, es, m)
  {
    if m > 0 {
      AllIndexed(s, ix, rows, es, m - 1);
    }
  }

  lemma {:induction false} OneIndexed(d: Data, s: Schema, ix: Index, rows: RowMap, n: nat, es: seq<Entry>, j: nat)
    requires Addable(s, ix) && ix.unique && ScanOk(d, s, rows, n, es) && j < |es|
    requires var c := ColumnIndex(s.columns, ix.column).value;
             FixedWidth(Types(s)[c]) && Distinct(rows, c) && OneNull(rows, c)
    ensures RowAt(s, rows, es, j) && RowIndexed(s, ix, rows, es, j)
  {
    var c := ColumnIndex(s.columns, ix.column).value;
    ScanRow(d, s, rows, n, es, j);
    FixedKeyFits(rows[es[j].key][c], es[j].key);
    ScanKeys(d, s, rows, es);
    FirstRowsSnoc(rows, es, j);
    NoneEarlier(s, rows, n, FirstRows(rows, es, j), c, es[j].key);
  }

  lemma {:induction false} FixedKeyFits(v: Value, rk: Bytes)
    requires FixedWidth(TypeOf(v)) && |rk| == 8
    ensures |IndexKey(v, rk)| <= MAX_KEY_VALUE
  {
  }

  /** Rows without this one that share no value with it have no key that starts with its value. */
  lemma {:induction false} NoneEarlier(s: Schema, rows: RowMap, n: nat, first: RowMap, c: nat, rk: Bytes)
    requires RowsOk(s, rows, n) && first.Keys <= rows.Keys && (forall a :: a in first ==> first[a] == rows[a])
    requires rk in rows && rk !in first && c < |Types(s)| && c < |rows[rk]| && FixedWidth(Types(s)[c])
    requires Distinct(rows, c) && OneNull(rows, c)
    ensures !RowsWithKey(first, c, SortKey(rows[rk][c]))
  {
    var v := rows[rk][c];
    assert RowOk(s, rk, rows[rk]);
    forall k: Bytes | IndexAt(first, c, k).Some? ensures !(SortKey(v) <= k) {
      var a := k[|k| - 8..];
      assert RowOk(s, a, rows[a]);
      assert Apart(rows[a][c], v) && (!rows[a][c].Null? || !v.Null?);
      KeysDiffer(rows[a][c], v);
      FixedWidthPrefix(v, rows[a][c], a);
    }
  }

  lemma {:induction false} KeysDiffer(v: Value, w: Value)
    requires Apart(v, w) && (!v.Null? || !w.Null?)
    ensures SortKey(v) != SortKey(w)
  {
    if v.Null? != w.Null? {
      assert SortKey(v)[0] != SortKey(w)[0];
    }
  }
}
