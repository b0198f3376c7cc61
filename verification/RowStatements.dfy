/** What INSERT, UPDATE and DELETE do to one row: the heap write and the maintenance of every index. */
module RowStatements {
  import opened Bytes
  import opened Entries
  import opened Pages
  import opened Recovery
  import opened Transactions
  import opened Values
  import opened Rows
  import opened Tables

  /** The catalog knows the table and its indexes. */
  ghost predicate Known(targets: set<Bytes>, s: Schema) {
    TableTarget(s.name) in targets && forall i :: 0 <= i < |s.indexes| ==> Target(s, i) in targets
  }

  // ---- Cursors -------------------------------------------------------------

  /** es lists the entries of a tree at or above a start key, as far as the keys have been looked at. */
  ghost predicate ListsSome(d: Data, seen: set<Loc>, target: Bytes, start: Bytes, es: seq<Entry>) {
    && Ascending(es)
    && (forall e :: e in es ==> Leq(start, e.key) && At(d, Loc(target, e.key)) == Some(e.val))
    && (forall k: Bytes :: Leq(start, k) && Loc(target, k) in seen && Loc(target, k) in d ==>
          Cell(k, d[Loc(target, k)]) in es)
  }

  lemma {:induction false} ListOne(d: Data, seen: set<Loc>, target: Bytes, start: Bytes, es: seq<Entry>, k: Bytes)
    requires ListsSome(d, seen, target, start, es) && Loc(target, k) in d && Leq(start, k)
    ensures ListsSome(d, seen + {Loc(target, k)}, target, start, Upsert(es, k, d[Loc(target, k)]))
  {
    UpsertAscending(es, k, d[Loc(target, k)]);
    UpsertMembership(es, k, d[Loc(target, k)]);
  }

  lemma {:induction false} ListedAll(d: Data, target: Bytes, start: Bytes, es: seq<Entry>)
    requires ListsSome(d, d.Keys, target, start, es)
    ensures ListsFrom(d, target, start, es)
  {
    forall i | 0 <= i < |es| ensures Leq(start, es[i].key) && At(d, Loc(target, es[i].key)) == Some(es[i].val) {
      assert es[i] in es;
    }
    forall k: Bytes | Leq(start, k) && Loc(target, k) in d ensures Listed(es, k) {
      assert Cell(k, d[Loc(target, k)]) in es;
      var i :| 0 <= i < |es| && es[i] == Cell(k, d[Loc(target, k)]);
      assert es[i].key == k;
    }
  }

  /** All that a cursor over a tree would yield from the start key on. */
  method Listing(d: Data, target: Bytes, start: Bytes) returns (es: seq<Entry>)
    ensures ListsFrom(d, target, start, es)
  {
    var left := d.Keys;
    es := [];
    while left != {}
      invariant left <= d.Keys && ListsSome(d, d.Keys - left, target, start, es)
      decreases |left|
    {
      var l :| l in left;
      NotLess(l.key, start);
      if l.target == target && !Less(l.key, start) {
        ListOne(d, d.Keys - left, target, start, es, l.key);
        es := Upsert(es, l.key, d[l]);
        assert l == Loc(target, l.key);
        assert d.Keys - (left - {l}) == d.Keys - left + {l};
      }
      left := left - {l};
    }
    assert d.Keys - left == d.Keys;
    ListedAll(d, target, start, es);
  }

  /** `Txn.Cursor`. */
  method Cursor(t: Txn, target: Bytes, start: Bytes) returns (es: Option<seq<Entry>>)
    requires t.Valid()
    ensures es.Some? <==> target in t.store.targets
    ensures es.Some? ==> ListsFrom(t.store.data, target, start, es.value)
  {
    if target !in t.store.targets {
      return None;
    }
    var l := Listing(t.store.data, target, start);
    return Some(l);
  }

  /** `hasPrefix`. */
  method HasPrefix(b: Bytes, p: Bytes) returns (r: bool)
    ensures r <==> p <= b
  {
    if |b| < |p| {
      return false;
    }
    for i := 0 to |p|
      invariant p[..i] == b[..i]
    {
      if b[i] != p[i] {
        return false;
      }
      assert p[..i + 1] == p[..i] + [p[i]] && b[..i + 1] == b[..i] + [b[i]];
    }
    assert p[..|p|] == p;
    return true;
  }

  /** The value may be used: no key of the index starts with its sort key. */
  method CheckUnique(t: Txn, target: Bytes, v: Value) returns (ok: bool)
    requires t.Valid() && target in t.store.targets
    ensures ok <==> !SomeKeyWith(t.store.data, target, SortKey(v))
  {
    var es := Cursor(t, target, SortKey(v));
    FirstKeyDecides(t.store.data, target, SortKey(v), es.value);
    if |es.value| == 0 {
      return true;
    }
    var hit := HasPrefix(es.value[0].key, SortKey(v));
    return !hit;
  }

  // ---- One row -------------------------------------------------------------

  /** Index i takes the row's entry: its key is not too large and a unique value is not taken. */
  ghost predicate EntryFits(s: Schema, i: nat, rows: RowMap, rk: Bytes, v: Value)
    requires SchemaOk(s) && i < |s.indexes|
  {
    && (s.indexes[i].unique && !v.Null? ==> !RowsWithKey(rows, IndexColumn(s, i), SortKey(v)))
    && |IndexKey(v, rk)| <= MAX_KEY_VALUE
  }

  ghost predicate EntriesFit(s: Schema, n: nat, rows: RowMap, rk: Bytes, r: Row)
    requires SchemaOk(s) && Typed(r, Types(s)) && n <= |s.indexes|
  {
    n == 0 || (EntriesFit(s, n - 1, rows, rk, r) && EntryFits(s, n - 1, rows, rk, r[IndexColumn(s, n - 1)]))
  }

  lemma {:induction false} EntriesFitFirst(s: Schema, m: nat, n: nat, rows: RowMap, rk: Bytes, r: Row)
    requires SchemaOk(s) && Typed(r, Types(s)) && m <= n <= |s.indexes| && EntriesFit(s, n, rows, rk, r)
    ensures EntriesFit(s, m, rows, rk, r)
    decreases n
  {
    if m < n {
      EntriesFitFirst(s, m, n - 1, rows, rk, r);
    }
  }

  ghost predicate Insertable(s: Schema, rows: RowMap, rk: Bytes, r: Row)
    requires SchemaOk(s) && Typed(r, Types(s))
  {
    EntriesFit(s, |s.indexes|, rows, rk, r) && |RowBytes(r)| <= MAX_KEY_VALUE
  }

  lemma {:induction false} EntryFitsAt(s: Schema, i: nat, rows: RowMap, rk: Bytes, r: Row)
    requires SchemaOk(s) && Typed(r, Types(s)) && i < |s.indexes| && EntriesFit(s, |s.indexes|, rows, rk, r)
    ensures EntryFits(s, i, rows, rk, r[IndexColumn(s, i)])
  {
    EntriesFitFirst(s, i + 1, |s.indexes|, rows, rk, r);
  }

  lemma {:induction false} SameOutsidePut(d: Data, l: Loc, v: Bytes)
    ensures SameOutside(d, d[l := v], l.target) && SameOutside(d, d - {l}, l.target)
  {
  }

  /** The first n indexes show the later rows. */
  ghost function ViewsUpTo(s: Schema, n: nat, rows: RowMap, later: RowMap): (v: seq<RowMap>)
    ensures |v| == |s.indexes| && forall i :: 0 <= i < |v| ==> v[i] == if i < n then later else rows
  {
    seq(|s.indexes|, i => if i < n then later else rows)
  }

  lemma {:induction false} ViewsMove(s: Schema, n: nat, rows: RowMap, later: RowMap)
    requires n < |s.indexes|
    ensures ViewsUpTo(s, n, rows, later)[n := later] == ViewsUpTo(s, n + 1, rows, later)
  {
  }

  lemma {:induction false} ViewsEnds(d: Data, s: Schema, rows: RowMap, later: RowMap)
    requires SchemaOk(s)
    ensures Agrees(d, s, rows) ==> IndexesHold(d, s, ViewsUpTo(s, 0, rows, later))
    ensures IndexesHold(d, s, ViewsUpTo(s, |s.indexes|, rows, later)) && HeapAgrees(d, s, later) ==> Agrees(d, s, later)
  {
    var v, w := ViewsUpTo(s, 0, rows, later), ViewsUpTo(s, |s.indexes|, rows, later);
    if Agrees(d, s, rows) {
      assert forall i :: 0 <= i < |v| ==> v[i] == rows;
    }
    if IndexesHold(d, s, w) {
      forall i | 0 <= i < |s.indexes| ensures IndexAgrees(d, s, i, later) {
        assert w[i] == later;
      }
    }
  }

  /** Halfway through the statement: the first n indexes show the later rows, the rest and the heap the old. */
  ghost predicate Midway(d: Data, s: Schema, n: nat, rows: RowMap, later: RowMap)
    requires SchemaOk(s)
  {
    IndexesHold(d, s, ViewsUpTo(s, n, rows, later)) && HeapAgrees(d, s, rows)
  }

  lemma {:induction false} MidwayStep(d: Data, d': Data, s: Schema, n: nat, rows: RowMap, later: RowMap)
    requires SchemaOk(s) && n < |s.indexes| && Midway(d, s, n, rows, later)
    requires SameOutside(d, d', Target(s, n)) && IndexAgrees(d', s, n, later)
    ensures Midway(d', s, n + 1, rows, later)
  {
    IndexStep(d, d', s, n, rows, ViewsUpTo(s, n, rows, later), later);
    ViewsMove(s, n, rows, later);
  }

  lemma {:induction false} MidwayIndex(d: Data, s: Schema, n: nat, rows: RowMap, later: RowMap)
    requires SchemaOk(s) && n < |s.indexes| && Midway(d, s, n, rows, later)
    ensures IndexAgrees(d, s, n, rows)
  {
    assert IndexAgrees(d, s, n, ViewsUpTo(s, n, rows, later)[n]);
  }

  /** The heap write ends the statement. */
  lemma {:induction false} MidwayEnd(d: Data, d': Data, s: Schema, rows: RowMap, later: RowMap)
    requires SchemaOk(s) && Midway(d, s, |s.indexes|, rows, later)
    requires SameOutside(d, d', TableTarget(s.name)) && HeapAgrees(d', s, later)
    ensures Agrees(d', s, later)
  {
    HeapStep(d, d', s, ViewsUpTo(s, |s.indexes|, rows, later));
    ViewsEnds(d', s, rows, later);
  }

  /** The row's entry goes into one index, after the uniqueness check. */
  method AddEntry(t: Txn, s: Schema, i: nat, rk: Bytes, r: Row, ghost rows: RowMap) returns (ok: bool)
    requires t.Valid() && !t.done && SchemaOk(s) && i < |s.indexes| && Known(t.store.targets, s)
    requires Midway(t.store.data, s, i, rows, rows[rk := r]) && rk !in rows && RowFits(s, rk, r)
    modifies t`undo, t.store`data, t.store`log, t.store`state, t.store`past
    ensures t.Valid() && t.store.Committed() == old(t.store.Committed())
    ensures ok <==> EntryFits(s, i, rows, rk, r[IndexColumn(s, i)])
    ensures if ok then Midway(t.store.data, s, i + 1, rows, rows[rk := r]) else t.store.data == old(t.store.data)
    ensures Others(t.store.data, s) == Others(old(t.store.data), s)
  {
    var v := r[IndexColumn(s, i)];
    ghost var d := t.store.data;
    MidwayIndex(d, s, i, rows, rows[rk := r]);
    KeysOfRows(d, s, i, rows, SortKey(v));
    if s.indexes[i].unique && !v.Null? {
      var free := CheckUnique(t, Target(s, i), v);
      if !free {
        return false;
      }
    }
    var err := t.Put(Target(s, i), IndexKey(v, rk), rk);
    if err.Some? {
      return false;
    }
    SameOutsidePut(d, Loc(Target(s, i), IndexKey(v, rk)), rk);
    OthersKept(d, s, Loc(Target(s, i), IndexKey(v, rk)), rk);
    EntryAdded(d, s, i, rows, rk, r, t.store.data);
    MidwayStep(d, t.store.data, s, i, rows, rows[rk := r]);
    return true;
  }

  method AddEntries(t: Txn, s: Schema, rk: Bytes, r: Row, ghost rows: RowMap) returns (ok: bool)
    requires t.Valid() && !t.done && SchemaOk(s) && Known(t.store.targets, s)
    requires Midway(t.store.data, s, 0, rows, rows[rk := r]) && rk !in rows && RowFits(s, rk, r)
    modifies t`undo, t.store`data, t.store`log, t.store`state, t.store`past
    ensures t.Valid() && t.store.Committed() == old(t.store.Committed())
    ensures ok <==> EntriesFit(s, |s.indexes|, rows, rk, r)
    ensures ok ==> Midway(t.store.data, s, |s.indexes|, rows, rows[rk := r])
    ensures ok && |s.indexes| == 0 ==> t.store.data == old(t.store.data)
    ensures !ok ==> if InsertTears(s, rows, rk, r) then HalfDone(t.store.data, s) else t.store.data == old(t.store.data)
    ensures Others(t.store.data, s) == Others(old(t.store.data), s)
  {
    var i := 0;
    ok := true;
    while i < |s.indexes| && ok
      invariant t.Valid() && t.store.Committed() == old(t.store.Committed())
      invariant Others(t.store.data, s) == Others(old(t.store.data), s)
      invariant EntriesDone(old(t.store.data), t.store.data, s, i, rows, rk, r, ok)
    {
      ghost var d := t.store.data;
      ok := AddEntry(t, s, i, rk, r, rows);
      EntriesStep(old(t.store.data), d, t.store.data, s, i, rows, rk, r, ok);
      i := i + 1;
    }
    EntriesEnd(old(t.store.data), t.store.data, s, i, rows, rk, r, ok);
  }

  /** The insert of a row that is refused leaves entries behind: the first index has taken its own. */
  ghost predicate InsertTears(s: Schema, rows: RowMap, rk: Bytes, r: Row)
    requires SchemaOk(s) && Typed(r, Types(s))
  {
    |s.indexes| > 0 && EntryFits(s, 0, rows, rk, r[IndexColumn(s, 0)])
  }

  /** After i indexes were tried: all took the row's entry, or the last one tried did not. */
  ghost predicate EntriesDone(d0: Data, d: Data, s: Schema, i: nat, rows: RowMap, rk: Bytes, r: Row, ok: bool)
    requires SchemaOk(s) && Typed(r, Types(s))
  {
    && i <= |s.indexes|
    && (ok <==> EntriesFit(s, i, rows, rk, r))
    && (ok ==> Midway(d, s, i, rows, rows[rk := r]) && (i == 0 ==> d == d0))
    && (!ok ==> if InsertTears(s, rows, rk, r) then HalfDone(d, s) else d == d0)
  }

  lemma {:induction false} EntriesStep(d0: Data, d: Data, d': Data, s: Schema, i: nat, rows: RowMap, rk: Bytes, r: Row,
                                       ok: bool)
    requires SchemaOk(s) && RowFits(s, rk, r) && rk !in rows && i < |s.indexes|
             && EntriesDone(d0, d, s, i, rows, rk, r, true)
    requires ok <==> EntryFits(s, i, rows, rk, r[IndexColumn(s, i)])
    requires if ok then Midway(d', s, i + 1, rows, rows[rk := r]) else d' == d
    ensures EntriesDone(d0, d', s, i + 1, rows, rk, r, ok)
  {
    if !ok && i > 0 {
      EntriesFitFirst(s, 1, i, rows, rk, r);
      NeverAgrees(d', s, i, rows, rk, r);
    }
  }

  lemma {:induction false} EntriesEnd(d0: Data, d: Data, s: Schema, i: nat, rows: RowMap, rk: Bytes, r: Row, ok: bool)
    requires SchemaOk(s) && Typed(r, Types(s)) && EntriesDone(d0, d, s, i, rows, rk, r, ok) && (ok ==> i == |s.indexes|)
    ensures ok <==> EntriesFit(s, |s.indexes|, rows, rk, r)
  {
    if EntriesFit(s, |s.indexes|, rows, rk, r) {
      EntriesFitFirst(s, i, |s.indexes|, rows, rk, r);
    }
  }

  /** INSERT of one row: its entry into every index, then the row. It succeeds exactly when nothing is too
      large and no unique value is taken, and then heap and indexes agree on the rows with the new one. When it
      fails, either nothing has changed or heap and indexes no longer agree on anything; which of the two depends
      on the first index alone. */
  method InsertRow(t: Txn, s: Schema, rk: Bytes, r: Row, ghost rows: RowMap) returns (ok: bool)
    requires t.Valid() && !t.done && SchemaOk(s) && Known(t.store.targets, s)
    requires Agrees(t.store.data, s, rows) && rk !in rows && RowFits(s, rk, r)
    modifies t`undo, t.store`data, t.store`log, t.store`state, t.store`past
    ensures t.Valid() && t.store.Committed() == old(t.store.Committed())
    ensures ok <==> Insertable(s, rows, rk, r)
    ensures ok ==> Agrees(t.store.data, s, rows[rk := r])
    ensures !ok ==> if InsertTears(s, rows, rk, r) then HalfDone(t.store.data, s) else t.store.data == old(t.store.data)
    ensures Others(t.store.data, s) == Others(old(t.store.data), s)
  {
    ViewsEnds(t.store.data, s, rows, rows[rk := r]);
    ok := AddEntries(t, s, rk, r, rows);
    if ok {
      ok := PutRow(t, s, rk, r, rows, rows[rk := r]);
      if !ok && |s.indexes| > 0 {
        EntryFitsAt(s, 0, rows, rk, r);
        NeverAgrees(t.store.data, s, |s.indexes|, rows, rk, r);
      }
    }
  }

  /** The heap and the indexes agree on no set of rows at all. */
  ghost predicate HalfDone(d: Data, s: Schema)
    requires SchemaOk(s)
  {
    forall rows: RowMap :: !Agrees(d, s, rows)
  }

  /** An index has the entry of a row that the heap does not have. */
  lemma {:induction false} NeverAgrees(d: Data, s: Schema, n: nat, rows: RowMap, rk: Bytes, r: Row)
    requires SchemaOk(s) && 0 < n <= |s.indexes| && rk !in rows && RowFits(s, rk, r)
    requires Midway(d, s, n, rows, rows[rk := r])
    ensures HalfDone(d, s)
  {
    var later := rows[rk := r];
    assert IndexAgrees(d, s, 0, ViewsUpTo(s, n, rows, later)[0]);
    EntryPresent(d, s, 0, later, rk);
    assert At(d, Loc(TableTarget(s.name), rk)) == None;
    forall m: RowMap ensures !Agrees(d, s, m) {
      if Agrees(d, s, m) {
        IndexedIsStored(d, s, m, IndexKey(r[IndexColumn(s, 0)], rk), rk);
      }
    }
  }

  /** Where heap and indexes agree, the row of every index entry is in the heap. */
  lemma {:induction false} IndexedIsStored(d: Data, s: Schema, rows: RowMap, k: Bytes, rk: Bytes)
    requires SchemaOk(s) && |s.indexes| > 0 && Agrees(d, s, rows) && At(d, Loc(Target(s, 0), k)) == Some(rk)
    ensures At(d, Loc(TableTarget(s.name), rk)) != None
  {
    assert IndexAgrees(d, s, 0, rows);
    assert At(d, Loc(Target(s, 0), k)) == IndexAt(rows, IndexColumn(s, 0), k);
    assert At(d, Loc(TableTarget(s.name), rk)) == if rk in rows then Some(RowBytes(rows[rk])) else None;
  }

  method PutRow(t: Txn, s: Schema, rk: Bytes, r: Row, ghost rows: RowMap, ghost later: RowMap) returns (ok: bool)
    requires t.Valid() && !t.done && SchemaOk(s) && Known(t.store.targets, s)
    requires Midway(t.store.data, s, |s.indexes|, rows, later) && |rk| == 8 && later == rows[rk := r]
    modifies t`undo, t.store`data, t.store`log, t.store`state, t.store`past
    ensures t.Valid() && t.store.Committed() == old(t.store.Committed())
    ensures ok <==> |RowBytes(r)| <= MAX_KEY_VALUE
    ensures if ok then Agrees(t.store.data, s, later) else t.store.data == old(t.store.data)
    ensures Others(t.store.data, s) == Others(old(t.store.data), s)
  {
    ghost var d := t.store.data;
    OthersKept(d, s, Loc(TableTarget(s.name), rk), RowBytes(r));
    var buf := EncodeRow(r);
    var err := t.Put(TableTarget(s.name), rk, buf);
    if err.Some? {
      return false;
    }
    HeapPut(d, s, rows, rk, r, t.store.data);
    MidwayEnd(d, t.store.data, s, rows, later);
    return true;
  }

  /** The row's entry is taken out of one index; it is there. */
  method RemoveEntry(t: Txn, s: Schema, i: nat, rk: Bytes, r: Row, ghost rows: RowMap) returns (ok: bool)
    requires t.Valid() && !t.done && SchemaOk(s) && i < |s.indexes| && Known(t.store.targets, s)
    requires IndexAgrees(t.store.data, s, i, rows) && rk in rows && rows[rk] == r && RowFits(s, rk, r)
    modifies t`undo, t.store`data, t.store`log, t.store`state, t.store`past
    ensures t.Valid() && t.store.Committed() == old(t.store.Committed())
    ensures ok && SameOutside(old(t.store.data), t.store.data, Target(s, i))
    ensures IndexAgrees(t.store.data, s, i, rows - {rk})
    ensures Others(t.store.data, s) == Others(old(t.store.data), s)
  {
    var v := r[IndexColumn(s, i)];
    ghost var d := t.store.data;
    OthersKept(d, s, Loc(Target(s, i), IndexKey(v, rk)), rk);
    EntryPresent(d, s, i, rows, rk);
    var err := t.Delete(Target(s, i), IndexKey(v, rk));
    SameOutsidePut(d, Loc(Target(s, i), IndexKey(v, rk)), rk);
    EntryRemoved(d, s, i, rows, rk, t.store.data);
    return err.None?;
  }

  /** DELETE of one row. Because heap and indexes agree, no delete can miss. */
  method DeleteRow(t: Txn, s: Schema, rk: Bytes, r: Row, ghost rows: RowMap) returns (ok: bool)
    requires t.Valid() && !t.done && SchemaOk(s) && Known(t.store.targets, s)
    requires Agrees(t.store.data, s, rows) && rk in rows && rows[rk] == r && RowFits(s, rk, r)
    modifies t`undo, t.store`data, t.store`log, t.store`state, t.store`past
    ensures t.Valid() && t.store.Committed() == old(t.store.Committed())
    ensures ok && Agrees(t.store.data, s, rows - {rk})
    ensures Others(t.store.data, s) == Others(old(t.store.data), s)
  {
    ok := true;
    var i := 0;
    ViewsEnds(t.store.data, s, rows, rows - {rk});
    while i < |s.indexes| && ok
      invariant t.Valid() && t.store.Committed() == old(t.store.Committed())
      invariant i <= |s.indexes| && ok && Midway(t.store.data, s, i, rows, rows - {rk})
      invariant Others(t.store.data, s) == Others(old(t.store.data), s)
    {
      ghost var d := t.store.data;
      MidwayIndex(d, s, i, rows, rows - {rk});
      ok := RemoveEntry(t, s, i, rk, r, rows);
      MidwayStep(d, t.store.data, s, i, rows, rows - {rk});
      i := i + 1;
    }
    ghost var d := t.store.data;
    assert At(d, Loc(TableTarget(s.name), rk)).Some?;
    OthersKept(d, s, Loc(TableTarget(s.name), rk), []);
    var err := t.Delete(TableTarget(s.name), rk);
    HeapDelete(d, s, rows, rk, t.store.data);
    MidwayEnd(d, t.store.data, s, rows, rows - {rk});
    return err.None?;
  }

  // ---- UPDATE of one row ---------------------------------------------------

  /** UPDATE skips an index when old and new value compare as equal. That leaves the index behind when the two
      have different sort keys. */
  predicate Stale(s: Schema, i: nat, r: Row, r': Row)
    requires i < |s.indexes| && IndexOk(s, i) && |r| == |r'| == |s.columns|
  {
    Confusable(r[IndexColumn(s, i)], r'[IndexColumn(s, i)])
  }

  ghost predicate NoneStale(s: Schema, r: Row, r': Row)
    requires SchemaOk(s) && |r| == |r'| == |s.columns|
  {
    forall i :: 0 <= i < |s.indexes| ==> !Stale(s, i, r, r')
  }

  /** All indexes hold an entry for the row, under the row's present value. */
  ghost predicate AllShow(s: Schema, views: seq<RowMap>, rk: Bytes, r: Row) {
    |views| == |s.indexes| && forall i :: 0 <= i < |views| ==> Shows(views[i], rk, r)
  }

  ghost predicate Shows(view: RowMap, rk: Bytes, r: Row) { rk in view && view[rk] == r }

  ghost predicate EntryMoves(s: Schema, i: nat, view: RowMap, rk: Bytes, v: Value, w: Value)
    requires SchemaOk(s) && i < |s.indexes|
  {
    CompareValues(v, w) != 0 ==> EntryFits(s, i, view, rk, w)
  }

  ghost predicate EntriesMove(s: Schema, n: nat, views: seq<RowMap>, rk: Bytes, r: Row, r': Row)
    requires SchemaOk(s) && Typed(r, Types(s)) && Typed(r', Types(s)) && n <= |s.indexes| == |views|
  {
    n == 0 || (EntriesMove(s, n - 1, views, rk, r, r')
               && EntryMoves(s, n - 1, views[n - 1], rk, r[IndexColumn(s, n - 1)], r'[IndexColumn(s, n - 1)]))
  }

  ghost predicate Updatable(s: Schema, views: seq<RowMap>, rk: Bytes, r: Row, r': Row)
    requires SchemaOk(s) && Typed(r, Types(s)) && Typed(r', Types(s)) && |s.indexes| == |views|
  {
    EntriesMove(s, |s.indexes|, views, rk, r, r') && |RowBytes(r')| <= MAX_KEY_VALUE
  }

  lemma {:induction false} EntriesMoveFirst(s: Schema, m: nat, n: nat, views: seq<RowMap>, rk: Bytes, r: Row, r': Row)
    requires SchemaOk(s) && Typed(r, Types(s)) && Typed(r', Types(s)) && m <= n <= |s.indexes| == |views|
    requires EntriesMove(s, n, views, rk, r, r')
    ensures EntriesMove(s, m, views, rk, r, r')
    decreases n
  {
    if m < n {
      EntriesMoveFirst(s, m, n - 1, views, rk, r, r');
    }
  }

  /** What one index shows once it has followed the row. */
  ghost function Followed(s: Schema, i: nat, view: RowMap, rk: Bytes, r: Row, r': Row): RowMap
    requires SchemaOk(s) && i < |s.indexes| && |r| == |r'| == |s.columns|
  {
    if Stale(s, i, r, r') then view else view[rk := r']
  }

  /** What the indexes show when the first n have followed. */
  ghost function FollowedUpTo(s: Schema, n: nat, views: seq<RowMap>, rk: Bytes, r: Row, r': Row): (v: seq<RowMap>)
    requires SchemaOk(s) && |views| == |s.indexes| && |r| == |r'| == |s.columns|
    ensures |v| == |views|
    ensures forall i :: 0 <= i < |v| ==> v[i] == if i < n then Followed(s, i, views[i], rk, r, r') else views[i]
  {
    seq(|views|, i requires 0 <= i < |views| => if i < n then Followed(s, i, views[i], rk, r, r') else views[i])
  }

  ghost predicate MidUpdate(d: Data, s: Schema, n: nat, views: seq<RowMap>, rows: RowMap, rk: Bytes, r: Row, r': Row)
    requires SchemaOk(s) && |views| == |s.indexes| && |r| == |r'| == |s.columns|
  {
    IndexesHold(d, s, FollowedUpTo(s, n, views, rk, r, r')) && HeapAgrees(d, s, rows)
  }

  lemma {:induction false} MidUpdateIndex(d: Data, s: Schema, n: nat, views: seq<RowMap>, rows: RowMap, rk: Bytes,
                                          r: Row, r': Row)
    requires SchemaOk(s) && |views| == |s.indexes| && |r| == |r'| == |s.columns|
    requires n < |s.indexes| && MidUpdate(d, s, n, views, rows, rk, r, r')
    ensures IndexAgrees(d, s, n, views[n])
  {
    assert IndexAgrees(d, s, n, FollowedUpTo(s, n, views, rk, r, r')[n]);
  }

  lemma {:induction false} MidUpdateStep(d: Data, d': Data, s: Schema, n: nat, views: seq<RowMap>, rows: RowMap,
                                         rk: Bytes, r: Row, r': Row)
    requires SchemaOk(s) && |views| == |s.indexes| && |r| == |r'| == |s.columns|
    requires n < |s.indexes| && MidUpdate(d, s, n, views, rows, rk, r, r') && SameOutside(d, d', Target(s, n))
    requires IndexAgrees(d', s, n, Followed(s, n, views[n], rk, r, r'))
    ensures MidUpdate(d', s, n + 1, views, rows, rk, r, r')
  {
    var view := Followed(s, n, views[n], rk, r, r');
    IndexStep(d, d', s, n, rows, FollowedUpTo(s, n, views, rk, r, r'), view);
    assert FollowedUpTo(s, n, views, rk, r, r')[n := view] == FollowedUpTo(s, n + 1, views, rk, r, r');
  }

  /** One index follows the row to its new value, or is skipped. */
  method MoveEntry(t: Txn, s: Schema, i: nat, rk: Bytes, r: Row, r': Row, ghost view: RowMap) returns (ok: bool)
    requires t.Valid() && !t.done && SchemaOk(s) && i < |s.indexes| && Known(t.store.targets, s)
    requires IndexAgrees(t.store.data, s, i, view) && Shows(view, rk, r) && RowFits(s, rk, r) && RowFits(s, rk, r')
    modifies t`undo, t.store`data, t.store`log, t.store`state, t.store`past
    ensures t.Valid() && t.store.Committed() == old(t.store.Committed())
    ensures SameOutside(old(t.store.data), t.store.data, Target(s, i))
    ensures ok <==> EntryMoves(s, i, view, rk, r[IndexColumn(s, i)], r'[IndexColumn(s, i)])
    ensures ok ==> IndexAgrees(t.store.data, s, i, Followed(s, i, view, rk, r, r'))
    ensures !Moves(s, i, r, r') || Refused(s, i, view, r') ==> t.store.data == old(t.store.data)
    ensures !ok && !Refused(s, i, view, r') ==> IndexAgrees(t.store.data, s, i, view - {rk})
    ensures Others(t.store.data, s) == Others(old(t.store.data), s)
  {
    var v, w := r[IndexColumn(s, i)], r'[IndexColumn(s, i)];
    EqualKeysIff(v, w);
    EntryKeptIff(t.store.data, s, i, view, rk, r');
    if CompareValues(v, w) == 0 {
      return true;
    }
    KeysOfRows(t.store.data, s, i, view, SortKey(w));
    if s.indexes[i].unique && !w.Null? {
      var free := CheckUnique(t, Target(s, i), w);
      if !free {
        return false;
      }
    }
    ok := ReplaceEntry(t, s, i, rk, r, r', view);
  }

  method ReplaceEntry(t: Txn, s: Schema, i: nat, rk: Bytes, r: Row, r': Row, ghost view: RowMap) returns (ok: bool)
    requires t.Valid() && !t.done && SchemaOk(s) && i < |s.indexes| && Known(t.store.targets, s)
    requires IndexAgrees(t.store.data, s, i, view) && Shows(view, rk, r) && RowFits(s, rk, r) && RowFits(s, rk, r')
    modifies t`undo, t.store`data, t.store`log, t.store`state, t.store`past
    ensures t.Valid() && t.store.Committed() == old(t.store.Committed())
    ensures SameOutside(old(t.store.data), t.store.data, Target(s, i))
    ensures ok <==> |IndexKey(r'[IndexColumn(s, i)], rk)| <= MAX_KEY_VALUE
    ensures IndexAgrees(t.store.data, s, i, if ok then view[rk := r'] else view - {rk})
    ensures Others(t.store.data, s) == Others(old(t.store.data), s)
  {
    ok := RemoveEntry(t, s, i, rk, r, view);
    var w := r'[IndexColumn(s, i)];
    ghost var d := t.store.data;
    SameOutsidePut(d, Loc(Target(s, i), IndexKey(w, rk)), rk);
    OthersKept(d, s, Loc(Target(s, i), IndexKey(w, rk)), rk);
    var err := t.Put(Target(s, i), IndexKey(w, rk), rk);
    if err.Some? {
      return false;
    }
    EntryAdded(d, s, i, view - {rk}, rk, r', t.store.data);
    assert (view - {rk})[rk := r'] == view[rk := r'];
  }

  // ---- An update that fails ------------------------------------------------

  predicate Moves(s: Schema, i: nat, r: Row, r': Row)
    requires i < |s.indexes| && IndexOk(s, i) && |r| == |r'| == |s.columns|
  {
    CompareValues(r[IndexColumn(s, i)], r'[IndexColumn(s, i)]) != 0
  }

  /** The uniqueness check turns the new value down before index i is touched. */
  ghost predicate Refused(s: Schema, i: nat, view: RowMap, r': Row)
    requires SchemaOk(s) && i < |s.indexes| && |r'| == |s.columns|
  {
    var w := r'[IndexColumn(s, i)];
    s.indexes[i].unique && !w.Null? && RowsWithKey(view, IndexColumn(s, i), SortKey(w))
  }

  /** The first of the first n indexes whose entry moves, or n. */
  ghost function FirstMoved(s: Schema, n: nat, r: Row, r': Row): (i: nat)
    requires SchemaOk(s) && n <= |s.indexes| && |r| == |r'| == |s.columns|
    ensures i <= n && (i < n ==> Moves(s, i, r, r')) && forall j :: 0 <= j < i ==> !Moves(s, j, r, r')
  {
    if n == 0 then 0 else
    var i := FirstMoved(s, n - 1, r, r');
    if i < n - 1 || Moves(s, n - 1, r, r') then i else n
  }

  /** The update of a row that is refused leaves the indexes changed: the first index whose entry moves has
      given up the old one. */
  ghost predicate UpdateTears(s: Schema, views: seq<RowMap>, r: Row, r': Row)
    requires SchemaOk(s) && |views| == |s.indexes| && |r| == |r'| == |s.columns|
  {
    var i := FirstMoved(s, |s.indexes|, r, r');
    i < |s.indexes| && !Refused(s, i, views[i], r')
  }

  /** Heap and indexes agree on no rows of the schema. */
  ghost predicate OutOfStep(d: Data, s: Schema)
    requires SchemaOk(s)
  {
    forall rows: RowMap, n: nat :: RowsOk(s, rows, n) ==> !Agrees(d, s, rows)
  }

  /** Index i has no entry for a row of the heap. */
  ghost predicate Missing(d: Data, s: Schema, i: nat, rk: Bytes, r: Row)
    requires SchemaOk(s) && i < |s.indexes| && |r| == |s.columns|
  {
    At(d, Loc(Target(s, i), IndexKey(r[IndexColumn(s, i)], rk))) == None
  }

  lemma {:induction false} MissingIsOut(d: Data, s: Schema, i: nat, rows: RowMap, rk: Bytes, r: Row)
    requires SchemaOk(s) && i < |s.indexes| && HeapAgrees(d, s, rows) && Shows(rows, rk, r) && RowFits(s, rk, r)
    requires Missing(d, s, i, rk, r)
    ensures OutOfStep(d, s)
  {
    forall m: RowMap, n: nat | RowsOk(s, m, n) ensures !Agrees(d, s, m) {
      if Agrees(d, s, m) {
        SameHeapRow(d, s, rows, m, n, rk, r);
        assert IndexAgrees(d, s, i, m);
        EntryPresent(d, s, i, m, rk);
      }
    }
  }

  /** The heap determines its rows. */
  lemma {:induction false} SameHeapRow(d: Data, s: Schema, rows: RowMap, m: RowMap, n: nat, rk: Bytes, r: Row)
    requires HeapAgrees(d, s, rows) && HeapAgrees(d, s, m) && RowsOk(s, m, n) && Shows(rows, rk, r) && RowFits(s, rk, r)
    ensures Shows(m, rk, r) && RowFits(s, rk, m[rk])
  {
    assert At(d, Loc(TableTarget(s.name), rk)) == Some(RowBytes(r));
    assert At(d, Loc(TableTarget(s.name), rk)) == if rk in m then Some(RowBytes(m[rk])) else None;
    assert RowOk(s, rk, m[rk]);
    StoredRowDecodes(s, rk, m[rk]);
    StoredRowDecodes(s, rk, r);
  }

  /** An index that shows another value of the row, or none, lacks the entry of this one. */
  lemma {:induction false} GoneIsMissing(d: Data, s: Schema, i: nat, view: RowMap, rk: Bytes, r: Row)
    requires SchemaOk(s) && i < |s.indexes| && RowFits(s, rk, r) && IndexAgrees(d, s, i, view)
    requires rk in view ==> RowFits(s, rk, view[rk]) && Moves(s, i, r, view[rk])
    ensures Missing(d, s, i, rk, r)
  {
    var c := IndexColumn(s, i);
    var k := IndexKey(r[c], rk);
    assert IndexAt(view, c, k) == None by {
      KeyEnds(r[c], rk);
      if rk in view {
        MovedKey(r[c], view[rk][c], rk);
      }
    }
    assert At(d, Loc(Target(s, i), k)) == IndexAt(view, c, k);
  }

  lemma {:induction false} MovedKey(v: Value, w: Value, rk: Bytes)
    requires CompareValues(v, w) != 0 && TypeOf(v) == TypeOf(w) && |rk| == 8
    ensures IndexKey(v, rk) != IndexKey(w, rk)
  {
    EqualKeysIff(v, w);
    KeysInjective(v, rk, w, rk);
  }

  lemma {:induction false} MissingElsewhere(d: Data, d': Data, s: Schema, i: nat, j: nat, rk: Bytes, r: Row)
    requires SchemaOk(s) && i < |s.indexes| && j < |s.indexes| && i != j && |r| == |s.columns|
    requires SameOutside(d, d', Target(s, j)) && Missing(d, s, i, rk, r)
    ensures Missing(d', s, i, rk, r)
  {
    TargetsDiffer(s, i, j);
  }

  /** After i indexes: all followed, or the last one tried did not; the first that moves decides what is left. */
  ghost predicate MovesDone(d0: Data, d: Data, s: Schema, i: nat, views: seq<RowMap>, rows: RowMap, rk: Bytes, r: Row,
                            r': Row, ok: bool)
    requires SchemaOk(s) && |views| == |s.indexes| && Typed(r, Types(s)) && Typed(r', Types(s))
  {
    var f := FirstMoved(s, |s.indexes|, r, r');
    && i <= |s.indexes|
    && (ok <==> EntriesMove(s, i, views, rk, r, r'))
    && (ok ==> MidUpdate(d, s, i, views, rows, rk, r, r'))
    && (ok && i <= f ==> d == d0)
    && (ok && i > f ==> Missing(d, s, f, rk, r) && UpdateTears(s, views, r, r'))
    && (!ok ==> if UpdateTears(s, views, r, r') then OutOfStep(d, s) else d == d0)
  }

  /** What trying one index has done. */
  ghost predicate Tried(d: Data, d': Data, s: Schema, i: nat, view: RowMap, rk: Bytes, r: Row, r': Row, ok: bool)
    requires SchemaOk(s) && i < |s.indexes| && Typed(r, Types(s)) && Typed(r', Types(s))
  {
    && SameOutside(d, d', Target(s, i))
    && (ok <==> EntryMoves(s, i, view, rk, r[IndexColumn(s, i)], r'[IndexColumn(s, i)]))
    && (ok ==> IndexAgrees(d', s, i, Followed(s, i, view, rk, r, r')))
    && (!Moves(s, i, r, r') || Refused(s, i, view, r') ==> d' == d)
    && (!ok && !Refused(s, i, view, r') ==> IndexAgrees(d', s, i, view - {rk}))
  }

  lemma {:induction false} MovesStep(d0: Data, d: Data, d': Data, s: Schema, i: nat, views: seq<RowMap>, rows: RowMap,
                                     rk: Bytes, r: Row, r': Row, ok: bool)
    requires SchemaOk(s) && AllShow(s, views, rk, r) && RowFits(s, rk, r) && RowFits(s, rk, r') && Shows(rows, rk, r)
    requires i < |s.indexes| && MovesDone(d0, d, s, i, views, rows, rk, r, r', true)
    requires Tried(d, d', s, i, views[i], rk, r, r', ok)
    ensures MovesDone(d0, d', s, i + 1, views, rows, rk, r, r', ok)
  {
    if ok {
      MidUpdateStep(d, d', s, i, views, rows, rk, r, r');
      MovedOn(d0, d, d', s, i, views, rows, rk, r, r');
    } else {
      StoppedAt(d0, d, d', s, i, views, rows, rk, r, r');
    }
  }

  lemma {:induction false} MovedOn(d0: Data, d: Data, d': Data, s: Schema, i: nat, views: seq<RowMap>, rows: RowMap,
                                   rk: Bytes, r: Row, r': Row)
    requires SchemaOk(s) && AllShow(s, views, rk, r) && RowFits(s, rk, r) && RowFits(s, rk, r') && Shows(rows, rk, r)
    requires i < |s.indexes| && MovesDone(d0, d, s, i, views, rows, rk, r, r', true)
    requires Tried(d, d', s, i, views[i], rk, r, r', true)
    ensures var f := FirstMoved(s, |s.indexes|, r, r');
            && (i + 1 <= f ==> d' == d0)
            && (i + 1 > f ==> Missing(d', s, f, rk, r) && UpdateTears(s, views, r, r'))
  {
    var f := FirstMoved(s, |s.indexes|, r, r');
    if i == f {
      assert Shows(views[i], rk, r);
      ConfusableOnlyEqual(r[IndexColumn(s, i)], r'[IndexColumn(s, i)]);
      GoneIsMissing(d', s, i, Followed(s, i, views[i], rk, r, r'), rk, r);
    } else if i > f {
      MissingElsewhere(d, d', s, f, i, rk, r);
    }
  }

  lemma {:induction false} ConfusableOnlyEqual(v: Value, w: Value)
    ensures Confusable(v, w) ==> CompareValues(v, w) == 0
  {
  }

  lemma {:induction false} StoppedAt(d0: Data, d: Data, d': Data, s: Schema, i: nat, views: seq<RowMap>, rows: RowMap,
                                     rk: Bytes, r: Row, r': Row)
    requires SchemaOk(s) && AllShow(s, views, rk, r) && RowFits(s, rk, r) && RowFits(s, rk, r') && Shows(rows, rk, r)
    requires i < |s.indexes| && MovesDone(d0, d, s, i, views, rows, rk, r, r', true)
    requires Tried(d, d', s, i, views[i], rk, r, r', false)
    ensures if UpdateTears(s, views, r, r') then OutOfStep(d', s) else d' == d0
  {
    var f := FirstMoved(s, |s.indexes|, r, r');
    assert Moves(s, i, r, r');
    TargetsDiffer(s, i, i);
    HeapFrame(d, d', s, rows, Target(s, i));
    if i > f {
      MissingElsewhere(d, d', s, f, i, rk, r);
      MissingIsOut(d', s, f, rows, rk, r);
    } else if !Refused(s, i, views[i], r') {
      GoneIsMissing(d', s, i, views[i] - {rk}, rk, r);
      MissingIsOut(d', s, i, rows, rk, r);
    }
  }

  lemma {:induction false} MovesEnd(d0: Data, d: Data, s: Schema, i: nat, views: seq<RowMap>, rows: RowMap, rk: Bytes,
                                    r: Row, r': Row, ok: bool)
    requires SchemaOk(s) && |views| == |s.indexes| && Typed(r, Types(s)) && Typed(r', Types(s))
    requires MovesDone(d0, d, s, i, views, rows, rk, r, r', ok) && (ok ==> i == |s.indexes|)
    ensures ok <==> EntriesMove(s, |s.indexes|, views, rk, r, r')
  {
    if EntriesMove(s, |s.indexes|, views, rk, r, r') {
      EntriesMoveFirst(s, i, |s.indexes|, views, rk, r, r');
    }
  }

  method UpdateEntry(t: Txn, s: Schema, i: nat, rk: Bytes, r: Row, r': Row, ghost d0: Data, ghost views: seq<RowMap>,
                     ghost rows: RowMap) returns (ok: bool)
    requires t.Valid() && !t.done && SchemaOk(s) && i < |s.indexes| && Known(t.store.targets, s)
    requires AllShow(s, views, rk, r) && RowFits(s, rk, r) && RowFits(s, rk, r') && Shows(rows, rk, r)
    requires MovesDone(d0, t.store.data, s, i, views, rows, rk, r, r', true)
    modifies t`undo, t.store`data, t.store`log, t.store`state, t.store`past
    ensures t.Valid() && t.store.Committed() == old(t.store.Committed())
    ensures MovesDone(d0, t.store.data, s, i + 1, views, rows, rk, r, r', ok)
    ensures Others(t.store.data, s) == Others(old(t.store.data), s)
  {
    ghost var d := t.store.data;
    MidUpdateIndex(d, s, i, views, rows, rk, r, r');
    assert Shows(views[i], rk, r);
    ok := MoveEntry(t, s, i, rk, r, r', views[i]);
    MovesStep(d0, d, t.store.data, s, i, views, rows, rk, r, r', ok);
  }

  method UpdateEntries(t: Txn, s: Schema, rk: Bytes, r: Row, r': Row, ghost views: seq<RowMap>, ghost rows: RowMap)
    returns (ok: bool)
    requires t.Valid() && !t.done && SchemaOk(s) && Known(t.store.targets, s)
    requires AllShow(s, views, rk, r) && RowFits(s, rk, r) && RowFits(s, rk, r') && Shows(rows, rk, r)
    requires MidUpdate(t.store.data, s, 0, views, rows, rk, r, r')
    modifies t`undo, t.store`data, t.store`log, t.store`state, t.store`past
    ensures t.Valid() && t.store.Committed() == old(t.store.Committed())
    ensures ok <==> EntriesMove(s, |s.indexes|, views, rk, r, r')
    ensures ok ==> MovesDone(old(t.store.data), t.store.data, s, |s.indexes|, views, rows, rk, r, r', true)
    ensures !ok ==> if UpdateTears(s, views, r, r') then OutOfStep(t.store.data, s)
            else t.store.data == old(t.store.data)
    ensures Others(t.store.data, s) == Others(old(t.store.data), s)
  {
    var i;
    ok, i := MoveEntries(t, s, rk, r, r', views, rows);
    MovesEnd(old(t.store.data), t.store.data, s, i, views, rows, rk, r, r', ok);
  }

  /** The loop over the indexes; it stops at the first one that refuses. */
  method MoveEntries(t: Txn, s: Schema, rk: Bytes, r: Row, r': Row, ghost views: seq<RowMap>, ghost rows: RowMap)
    returns (ok: bool, i: nat)
    requires t.Valid() && !t.done && SchemaOk(s) && Known(t.store.targets, s)
    requires AllShow(s, views, rk, r) && RowFits(s, rk, r) && RowFits(s, rk, r') && Shows(rows, rk, r)
    requires MidUpdate(t.store.data, s, 0, views, rows, rk, r, r')
    modifies t`undo, t.store`data, t.store`log, t.store`state, t.store`past
    ensures t.Valid() && t.store.Committed() == old(t.store.Committed()) && (ok ==> i == |s.indexes|)
    ensures MovesDone(old(t.store.data), t.store.data, s, i, views, rows, rk, r, r', ok)
    ensures Others(t.store.data, s) == Others(old(t.store.data), s)
  {
    MovesBegin(t.store.data, s, views, rows, rk, r, r');
    i, ok := 0, true;
    while i < |s.indexes| && ok
      invariant t.Valid() && t.store.Committed() == old(t.store.Committed())
      invariant MovesDone(old(t.store.data), t.store.data, s, i, views, rows, rk, r, r', ok)
      invariant Others(t.store.data, s) == Others(old(t.store.data), s)
    {
      ok := UpdateEntry(t, s, i, rk, r, r', old(t.store.data), views, rows);
      i := i + 1;
    }
  }

  lemma {:induction false} MovesBegin(d: Data, s: Schema, views: seq<RowMap>, rows: RowMap, rk: Bytes, r: Row, r': Row)
    requires SchemaOk(s) && |views| == |s.indexes| && Typed(r, Types(s)) && Typed(r', Types(s))
    requires MidUpdate(d, s, 0, views, rows, rk, r, r')
    ensures MovesDone(d, d, s, 0, views, rows, rk, r, r', true)
  {
  }

  /** UPDATE of one row. It succeeds exactly when nothing is too large and no unique value is taken. The heap then
      holds the new row, and so does every index except those that were left behind. When it fails, either nothing
      has changed or heap and indexes no longer agree on anything. */
  method UpdateRow(t: Txn, s: Schema, rk: Bytes, r: Row, r': Row, ghost views: seq<RowMap>, ghost rows: RowMap)
    returns (ok: bool)
    requires t.Valid() && !t.done && SchemaOk(s) && Known(t.store.targets, s)
    requires IndexesHold(t.store.data, s, views) && AllShow(s, views, rk, r) && HeapAgrees(t.store.data, s, rows)
    requires RowFits(s, rk, r) && RowFits(s, rk, r') && Shows(rows, rk, r)
    modifies t`undo, t.store`data, t.store`log, t.store`state, t.store`past
    ensures t.Valid() && t.store.Committed() == old(t.store.Committed())
    ensures ok <==> Updatable(s, views, rk, r, r')
    ensures ok ==> IndexesHold(t.store.data, s, FollowedUpTo(s, |s.indexes|, views, rk, r, r'))
    ensures ok ==> HeapAgrees(t.store.data, s, rows[rk := r'])
    ensures !ok ==> if UpdateTears(s, views, r, r') then OutOfStep(t.store.data, s)
            else t.store.data == old(t.store.data)
    ensures Others(t.store.data, s) == Others(old(t.store.data), s)
  {
    assert FollowedUpTo(s, 0, views, rk, r, r') == views;
    ok := UpdateEntries(t, s, rk, r, r', views, rows);
    if ok {
      ok := RewriteRow(t, s, rk, r', FollowedUpTo(s, |s.indexes|, views, rk, r, r'), rows);
      if !ok && UpdateTears(s, views, r, r') {
        MissingIsOut(t.store.data, s, FirstMoved(s, |s.indexes|, r, r'), rows, rk, r);
      }
    }
  }

  method RewriteRow(t: Txn, s: Schema, rk: Bytes, r: Row, ghost views: seq<RowMap>, ghost rows: RowMap)
    returns (ok: bool)
    requires t.Valid() && !t.done && SchemaOk(s) && Known(t.store.targets, s) && |rk| == 8
    requires IndexesHold(t.store.data, s, views) && HeapAgrees(t.store.data, s, rows)
    modifies t`undo, t.store`data, t.store`log, t.store`state, t.store`past
    ensures t.Valid() && t.store.Committed() == old(t.store.Committed())
    ensures ok <==> |RowBytes(r)| <= MAX_KEY_VALUE
    ensures ok ==> IndexesHold(t.store.data, s, views) && HeapAgrees(t.store.data, s, rows[rk := r])
    ensures !ok ==> t.store.data == old(t.store.data)
    ensures Others(t.store.data, s) == Others(old(t.store.data), s)
  {
    ghost var d := t.store.data;
    OthersKept(d, s, Loc(TableTarget(s.name), rk), RowBytes(r));
    var buf := EncodeRow(r);
    var err := t.Put(TableTarget(s.name), rk, buf);
    if err.Some? {
      return false;
    }
    HeapPut(d, s, rows, rk, r, t.store.data);
    HeapStep(d, t.store.data, s, views);
    return true;
  }
}
