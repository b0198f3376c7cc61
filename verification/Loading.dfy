/** Reading a table's rows: by full scan, or by an index seek when the clause allows one. */
module Loading {
  import opened Bytes
  import opened Entries
  import opened Recovery
  import opened Transactions
  import opened Values
  import opened Rows
  import opened Expressions
  import opened Tables
  import opened RowStatements
  import opened Seek

  datatype Loaded = Loaded(keys: seq<Bytes>, vals: seq<Row>)

  /** Stored rows with their keys. */
  ghost predicate RowsAt(rows: RowMap, l: Loaded) {
    |l.keys| == |l.vals| && forall i :: 0 <= i < |l.keys| ==> Shows(rows, l.keys[i], l.vals[i])
  }

  /** The whole table in key order. */
  method FetchAllRows(t: Txn, s: Schema, ghost rows: RowMap, ghost n: nat) returns (r: Option<Loaded>)
    requires t.Valid() && Known(t.store.targets, s) && HeapAgrees(t.store.data, s, rows) && RowsOk(s, rows, n)
    ensures r.Some? && RowsAt(rows, r.value)
    ensures exists es :: ListsFrom(t.store.data, TableTarget(s.name), [], es) && r.value.keys == KeysOf(es)
  {
    var c := Cursor(t, TableTarget(s.name), []);
    var es := c.value;
    ScanKeys(t.store.data, s, rows, es);
    var keys: seq<Bytes>, vals: seq<Row>, i, ok := [], [], 0, true;
    while i < |es| && ok
      invariant i <= |es| && ok && Fetched(rows, es, i, Loaded(keys, vals))
    {
      ScannedRow(t.store.data, s, rows, n, es, i);
      var v := DecodeRow(es[i].val, Types(s));
      ok := v.Some?;
      if ok {
        FetchStep(rows, es, i, Loaded(keys, vals), v.value);
        keys, vals := keys + [es[i].key], vals + [v.value];
      }
      i := i + 1;
    }
    assert KeysOf(es)[..|es|] == KeysOf(es);
    r := if ok then Some(Loaded(keys, vals)) else None;
  }

  ghost predicate Fetched(rows: RowMap, es: seq<Entry>, i: nat, l: Loaded)
    requires i <= |es|
  {
    l.keys == KeysOf(es)[..i] && RowsAt(rows, l)
  }

  lemma {:induction false} FetchStep(rows: RowMap, es: seq<Entry>, i: nat, l: Loaded, r: Row)
    requires i < |es| && Fetched(rows, es, i, l) && es[i].key in rows && rows[es[i].key] == r
    ensures Fetched(rows, es, i + 1, Loaded(l.keys + [es[i].key], l.vals + [r]))
  {
    assert KeysOf(es)[..i + 1] == KeysOf(es)[..i] + [es[i].key];
  }

  lemma {:induction false} ScannedRow(d: Data, s: Schema, rows: RowMap, n: nat, es: seq<Entry>, i: nat)
    requires HeapAgrees(d, s, rows) && RowsOk(s, rows, n) && ListsFrom(d, TableTarget(s.name), [], es) && i < |es|
    ensures es[i].key in rows && RowOf(es[i].val, Types(s)) == Some(rows[es[i].key])
  {
    var k := es[i].key;
    assert At(d, Loc(TableTarget(s.name), k)) == Some(es[i].val);
    assert At(d, Loc(TableTarget(s.name), k)) == if k in rows then Some(RowBytes(rows[k])) else None;
    StoredRowDecodes(s, k, rows[k]);
  }

  /** The row keys whose index key starts with the value's sort key. */
  method IndexEqualityLookup(t: Txn, s: Schema, i: nat, v: Value) returns (out: seq<Bytes>)
    requires t.Valid() && Known(t.store.targets, s) && i < |s.indexes|
    ensures exists es :: ListsFrom(t.store.data, Target(s, i), SortKey(v), es) && out == SeekKeys(es, SortKey(v))
  {
    var c := Cursor(t, Target(s, i), SortKey(v));
    out := TakeWhilePrefixed(c.value, SortKey(v));
  }

  method TakeWhilePrefixed(es: seq<Entry>, p: Bytes) returns (out: seq<Bytes>)
    ensures out == SeekKeys(es, p)
  {
    out := [];
    var j := 0;
    assert es[0..] == es;
    while j < |es|
      invariant 0 <= j <= PrefixCount(es, p) && out == SeekKeys(es, p)[..j]
    {
      var more := HasPrefix(es[j].key, p);
      if !more {
        break;
      }
      out := out + [es[j].val];
      j := j + 1;
    }
    assert j == PrefixCount(es, p);
  }

  /** The rows an index lookup found; a key without a row is skipped. */
  method FetchRows(t: Txn, s: Schema, found: seq<Bytes>, ghost rows: RowMap, ghost n: nat) returns (r: Option<Loaded>)
    requires t.Valid() && Known(t.store.targets, s) && HeapAgrees(t.store.data, s, rows) && RowsOk(s, rows, n)
    requires forall i :: 0 <= i < |found| ==> found[i] in rows
    ensures r.Some? && RowsAt(rows, r.value) && r.value.keys == found
  {
    var keys: seq<Bytes>, vals: seq<Row>, i, ok := [], [], 0, true;
    while i < |found| && ok
      invariant 0 <= i <= |found| && ok && keys == found[..i] && RowsAt(rows, Loaded(keys, vals))
    {
      var raw, err := t.Get(TableTarget(s.name), found[i]);
      FoundRow(t.store.data, s, rows, n, found[i]);
      if raw.Some? {
        var v := DecodeRow(raw.value, Types(s));
        ok := v.Some?;
        if ok {
          keys, vals := keys + [found[i]], vals + [v.value];
        }
      }
      i := i + 1;
    }
    r := if ok then Some(Loaded(keys, vals)) else None;
  }

  lemma {:induction false} FoundRow(d: Data, s: Schema, rows: RowMap, n: nat, rk: Bytes)
    requires HeapAgrees(d, s, rows) && RowsOk(s, rows, n) && rk in rows
    ensures At(d, Loc(TableTarget(s.name), rk)) == Some(RowBytes(rows[rk]))
    ensures RowOf(RowBytes(rows[rk]), Types(s)) == Some(rows[rk])
  {
    StoredRowDecodes(s, rk, rows[rk]);
  }

  /** The keys that loading a table for a clause yields. */
  ghost predicate LoadsKeys(d: Data, s: Schema, where: Option<Expr>, alias: Bytes, keys: seq<Bytes>)
    requires SchemaOk(s)
  {
    var p := FindEqualityIndex(s, where, alias);
    if p.Some? then
      exists es :: ListsFrom(d, Target(s, p.value.index), SortKey(p.value.lit), es)
        && keys == SeekKeys(es, SortKey(p.value.lit))
    else
      exists es :: ListsFrom(d, TableTarget(s.name), [], es) && keys == KeysOf(es)
  }

  lemma {:induction false} SeekKeysStored(d: Data, s: Schema, i: nat, rows: RowMap, n: nat, p: Bytes, es: seq<Entry>)
    requires SchemaOk(s) && i < |s.indexes| && IndexAgrees(d, s, i, rows) && RowsOk(s, rows, n)
    requires ListsFrom(d, Target(s, i), p, es)
    ensures forall j :: 0 <= j < |SeekKeys(es, p)| ==> SeekKeys(es, p)[j] in rows
  {
    forall j | 0 <= j < |SeekKeys(es, p)| ensures SeekKeys(es, p)[j] in rows {
      SeekEntry(d, s, i, rows, n, p, es, j);
    }
  }

  method LoadRows(t: Txn, s: Schema, where: Option<Expr>, alias: Bytes, ghost rows: RowMap, ghost n: nat)
    returns (r: Option<Loaded>)
    requires t.Valid() && SchemaOk(s) && Known(t.store.targets, s) && Agrees(t.store.data, s, rows)
             && RowsOk(s, rows, n)
    ensures r.Some? && RowsAt(rows, r.value) && LoadsKeys(t.store.data, s, where, alias, r.value.keys)
  {
    var p := FindEqualityIndex(s, where, alias);
    if p.Some? {
      var found := IndexEqualityLookup(t, s, p.value.index, p.value.lit);
      ghost var es :| ListsFrom(t.store.data, Target(s, p.value.index), SortKey(p.value.lit), es)
                      && found == SeekKeys(es, SortKey(p.value.lit));
      SeekKeysStored(t.store.data, s, p.value.index, rows, n, SortKey(p.value.lit), es);
      r := FetchRows(t, s, found, rows, n);
    } else {
      r := FetchAllRows(t, s, rows, n);
    }
  }

  // ---- What loading means --------------------------------------------------

  ghost predicate NoRepeats(ks: seq<Bytes>) { forall i, j :: 0 <= i < j < |ks| ==> ks[i] != ks[j] }

  lemma {:induction false} RisingNoRepeats(ks: seq<Bytes>)
    requires Rising(ks)
    ensures NoRepeats(ks)
  {
    forall i, j | 0 <= i < j < |ks| ensures ks[i] != ks[j] {
      LessAsymmetric(ks[i], ks[j]);
    }
  }

  lemma {:induction false} SeekNoRepeats(d: Data, s: Schema, i: nat, rows: RowMap, n: nat, p: Bytes, es: seq<Entry>)
    requires SchemaOk(s) && i < |s.indexes| && IndexAgrees(d, s, i, rows) && RowsOk(s, rows, n)
    requires ListsFrom(d, Target(s, i), p, es)
    ensures NoRepeats(SeekKeys(es, p))
  {
    var ks := SeekKeys(es, p);
    forall j, k | 0 <= j < k < |ks| ensures ks[j] != ks[k] {
      SeekEntry(d, s, i, rows, n, p, es, j);
      SeekEntry(d, s, i, rows, n, p, es, k);
      LessAsymmetric(es[j].key, es[k].key);
    }
  }

  ghost predicate Exact(s: Schema, rows: RowMap, where: Option<Expr>, alias: Bytes)
    requires SchemaOk(s)
  {
    var p := FindEqualityIndex(s, where, alias);
    p.Some? ==> NoConfusion(s, rows, p.value)
  }

  /** No row is loaded twice, and a statement that works on the loaded rows that satisfy the clause works on all
      such rows of the table, in key order, exactly when the literal is not confusable with a stored double. */
  lemma {:induction false} LoadedSelects(fa: FloatArith, d: Data, s: Schema, rows: RowMap, n: nat, where: Option<Expr>,
                                         alias: Bytes, keys: seq<Bytes>, heap: seq<Entry>)
    requires SchemaOk(s) && Agrees(d, s, rows) && RowsOk(s, rows, n) && LoadsKeys(d, s, where, alias, keys)
    requires ListsFrom(d, TableTarget(s.name), [], heap)
    ensures NoRepeats(keys)
    ensures Kept(Selected(fa, s, alias, where, rows), keys) == Kept(Selected(fa, s, alias, where, rows), KeysOf(heap))
            <==> Exact(s, rows, where, alias)
  {
    var p, keep := FindEqualityIndex(s, where, alias), Selected(fa, s, alias, where, rows);
    if p.Some? {
      var es :| ListsFrom(d, Target(s, p.value.index), SortKey(p.value.lit), es)
        && keys == SeekKeys(es, SortKey(p.value.lit));
      SeekNoRepeats(d, s, p.value.index, rows, n, SortKey(p.value.lit), es);
      SeekIsScanIff(fa, d, s, rows, n, where, alias, heap, es);
    } else {
      var es :| ListsFrom(d, TableTarget(s.name), [], es) && keys == KeysOf(es);
      ScanKeys(d, s, rows, es);
      ScanKeys(d, s, rows, heap);
      RisingNoRepeats(keys);
      RisingUnique(keys, KeysOf(heap));
    }
  }
}
