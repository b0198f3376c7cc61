/** UPDATE and DELETE statements as a whole. */
module Statements {
  import opened Bytes
  import opened Entries
  import opened Recovery
  import opened Transactions
  import opened Values
  import opened Rows
  import opened Expressions
  import opened Tables
  import opened RowStatements
  import opened RowBuilding
  import opened Seek
  import opened Loading
  import opened Inserts
  import opened Updates
  import opened UpdateMeaning

  lemma {:induction false} LoadsNoRepeats(d: Data, s: Schema, rows: RowMap, n: nat, where: Option<Expr>, alias: Bytes,
                                          l: Loaded)
    requires SchemaOk(s) && Agrees(d, s, rows) && RowsOk(s, rows, n) && LoadsKeys(d, s, where, alias, l.keys)
             && RowsAt(rows, l)
    ensures LoadedOk(s, rows, l)
  {
    var p := FindEqualityIndex(s, where, alias);
    if p.Some? {
      var es :| ListsFrom(d, Target(s, p.value.index), SortKey(p.value.lit), es)
        && l.keys == SeekKeys(es, SortKey(p.value.lit));
      SeekNoRepeats(d, s, p.value.index, rows, n, SortKey(p.value.lit), es);
    } else {
      var es :| ListsFrom(d, TableTarget(s.name), [], es) && l.keys == KeysOf(es);
      ScanKeys(d, s, rows, es);
      RisingNoRepeats(l.keys);
    }
    forall i | 0 <= i < |l.keys| ensures RowFits(s, l.keys[i], l.vals[i]) {
      assert Shows(rows, l.keys[i], l.vals[i]);
      assert RowOk(s, l.keys[i], rows[l.keys[i]]);
    }
  }

  // ---- UPDATE --------------------------------------------------------------

  lemma {:induction false} RowsOkTyped(s: Schema, rows: RowMap, n: nat)
    requires RowsOk(s, rows, n)
    ensures RowsTyped(s, rows)
  {
    forall rk | rk in rows ensures RowFits(s, rk, rows[rk]) {
      assert RowOk(s, rk, rows[rk]);
    }
  }

  /** What the store holds when an UPDATE has dealt with the rows ks: in the heap the chosen ones are reassigned and all
      others as before, and the indexes agree with it exactly when all of them followed. */
  ghost predicate UpdatedTo(d: Data, u: Update, rows: RowMap, ks: set<Bytes>, n: nat)
    requires UpdateOk(u) && RowsTyped(u.s, rows)
  {
    var after := UpdatedRows(u, rows, ks);
    && Rewritten(u, rows, ks, after) && HeapAgrees(d, u.s, after)
    && (Agrees(d, u.s, after) <==> AllFollowed(u, rows, ks))
    && (AllFollowed(u, rows, ks) ==> Consistent(d, u.s, after, n)
                                     && (ValuesUnique(u.s, after) <==> KeysTell(u.s, after)))
  }

  /** The loaded rows of which the clause holds. */
  ghost function ChosenKeys(u: Update, rows: RowMap, ks: seq<Bytes>): set<Bytes> {
    KeySet(ks) * Selected(u.fa, u.s, u.alias, u.where, rows)
  }

  lemma {:induction false} StoredIsUpdated(d: Data, u: Update, l: Loaded, rows: RowMap, i: nat, n: nat)
    requires UpdateOk(u) && RowsTyped(u.s, rows) && LoadedOk(u.s, rows, l) && Sane(u.s, rows, n) && i <= |l.keys|
    requires Fold(UpdateStep(u, l), Start(u.s, rows), i).Some?
    requires Stores(d, u.s, Fold(UpdateStep(u, l), Start(u.s, rows), i).value)
    ensures UpdatedTo(d, u, rows, KeySet(l.keys[..i]), n)
    ensures Fold(UpdateStep(u, l), Start(u.s, rows), i).value.changed == |ChosenKeys(u, rows, l.keys[..i])|
  {
    var h := Fold(UpdateStep(u, l), Start(u.s, rows), i).value;
    FoldMeans(u, rows, l, i);
    StepsJudge(u, rows, l, UpdateStep(u, l), Start(u.s, rows), i);
    UpdatedIsRewritten(u, rows, KeySet(l.keys[..i]));
    UpdateAgreesIff(d, u, rows, KeySet(l.keys[..i]), h);
    if AllFollowed(u, rows, KeySet(l.keys[..i])) {
      FoldSane(u, rows, l, i, n);
      ValuesUniqueIff(u.s, h.rows, n);
    }
  }

  /** How many of the loaded rows an UPDATE gets through. */
  ghost function Through(u: Update, l: Loaded, rows: RowMap): (i: nat)
    requires UpdateOk(u)
    ensures i <= |l.keys|
  {
    Reach(UpdateStep(u, l), Start(u.s, rows), |l.keys|)
  }

  /** The row that stops the statement leaves the indexes changed. */
  ghost predicate StopsTorn(u: Update, l: Loaded, rows: RowMap)
    requires UpdateOk(u)
  {
    var i := Through(u, l, rows);
    var h := Fold(UpdateStep(u, l), Start(u.s, rows), i).value;
    i < |l.keys| && i < |l.vals| && Typed(l.vals[i], Types(u.s)) && |h.views| == |u.s.indexes|
      && RowTears(u, h, l.vals[i])
  }

  /** What an UPDATE over the loaded rows must report and leave behind. */
  ghost predicate UpdateDone(d: Data, u: Update, l: Loaded, rows: RowMap, n: nat, count: Option<nat>)
    requires UpdateOk(u) && RowsTyped(u.s, rows)
  {
    var i := Through(u, l, rows);
    && (count.Some? <==> i == |l.keys|)
    && (count.Some? ==> count.value == |ChosenKeys(u, rows, l.keys)|)
    && if StopsTorn(u, l, rows) then OutOfStep(d, u.s) else UpdatedTo(d, u, rows, KeySet(l.keys[..i]), n)
  }

  lemma {:induction false} UpdateFinished(d: Data, u: Update, l: Loaded, rows: RowMap, n: nat, count: Option<nat>)
    requires UpdateOk(u) && RowsTyped(u.s, rows) && LoadedOk(u.s, rows, l) && Sane(u.s, rows, n)
    requires Outcome(d, u, l, count, UpdateStep(u, l), Start(u.s, rows))
    ensures UpdateDone(d, u, l, rows, n, count)
  {
    if !StopsTorn(u, l, rows) {
      StoredIsUpdated(d, u, l, rows, Through(u, l, rows), n);
    }
    if count.Some? {
      WholeList(l.keys, Through(u, l, rows));
    }
  }

  lemma {:induction false} WholeList(ks: seq<Bytes>, n: nat)
    requires n == |ks|
    ensures ks[..n] == ks
  {
  }

  /** The same for a statement: an unknown column in SET is an error. */
  ghost predicate UpdateReport(d0: Data, d: Data, fa: FloatArith, s: Schema, sets: seq<Assignment>, where: Option<Expr>,
                               l: Loaded, rows: RowMap, n: nat, count: Option<nat>)
  {
    var pos := Positions(s, SetNames(sets));
    if pos.None? then count.None? && d == d0 else
    var u := Update(fa, s, s.name, where, pos.value, SetValues(sets));
    UpdateOk(u) && RowsTyped(s, rows) && UpdateDone(d, u, l, rows, n, count)
  }

  /** UPDATE: rows are loaded, those that satisfy the clause get their new values, and the indexes follow. */
  method ExecUpdate(t: Txn, tb: Table, fa: FloatArith, sets: seq<Assignment>, where: Option<Expr>, ghost rows: RowMap)
    returns (count: Option<nat>, ghost l: Loaded)
    requires t.Valid() && !t.done && Known(t.store.targets, tb.schema)
             && Consistent(t.store.data, tb.schema, rows, tb.nextRow)
    modifies t`undo, t.store`data, t.store`log, t.store`state, t.store`past
    ensures t.Valid() && t.store.Committed() == old(t.store.Committed())
    ensures LoadsKeys(old(t.store.data), tb.schema, where, tb.schema.name, l.keys) && LoadedOk(tb.schema, rows, l)
    ensures UpdateReport(old(t.store.data), t.store.data, fa, tb.schema, sets, where, l, rows, tb.nextRow, count)
    ensures Others(t.store.data, tb.schema) == Others(old(t.store.data), tb.schema)
  {
    var s := tb.schema;
    var r := LoadRows(t, s, where, s.name, rows, tb.nextRow);
    l := r.value;
    LoadsNoRepeats(t.store.data, s, rows, tb.nextRow, where, s.name, l);
    RowsOkTyped(s, rows, tb.nextRow);
    var pos := Positions(s, SetNames(sets));
    if pos.None? {
      return None, l;
    }
    var u := Update(fa, s, s.name, where, pos.value, SetValues(sets));
    UpdateBegins(t.store.data, u, r.value, rows);
    count := UpdateAll(t, u, r.value, UpdateStep(u, r.value), Start(s, rows));
    UpdateFinished(t.store.data, u, l, rows, tb.nextRow, count);
  }

  lemma {:induction false} UpdateBegins(d: Data, u: Update, l: Loaded, rows: RowMap)
    requires UpdateOk(u) && Agrees(d, u.s, rows) && LoadedOk(u.s, rows, l)
    ensures Progress(d, u, l, UpdateStep(u, l), Start(u.s, rows), 0, 0, true)
  {
    StartHolds(d, u.s, rows);
    PendingStart(u.s, rows, l, 0);
  }

  // ---- DELETE --------------------------------------------------------------

  /** The clause can be evaluated on each of the first n loaded rows. */
  ghost predicate AllJudged(fa: FloatArith, s: Schema, where: Option<Expr>, l: Loaded, n: nat)
    requires n <= |l.vals|
  {
    forall i :: 0 <= i < n ==> Satisfies(fa, where, Alone(s, s.name, l.vals[i])).Some?
  }

  /** How many leading rows the clause can be evaluated on, at most n. */
  ghost function JudgedTo(fa: FloatArith, s: Schema, where: Option<Expr>, l: Loaded, n: nat): (i: nat)
    requires n <= |l.vals|
    ensures i <= n && AllJudged(fa, s, where, l, i)
    ensures i < n ==> Satisfies(fa, where, Alone(s, s.name, l.vals[i])).None?
  {
    if n == 0 then 0 else
    var i := JudgedTo(fa, s, where, l, n - 1);
    if i == n - 1 && Satisfies(fa, where, Alone(s, s.name, l.vals[n - 1])).Some? then n else i
  }

  lemma {:induction false} JudgedToIs(fa: FloatArith, s: Schema, where: Option<Expr>, l: Loaded, i: nat, n: nat)
    requires i <= n <= |l.vals| && AllJudged(fa, s, where, l, i)
    requires i < n ==> Satisfies(fa, where, Alone(s, s.name, l.vals[i])).None?
    ensures JudgedTo(fa, s, where, l, n) == i
    decreases n
  {
    if n != 0 {
      JudgedToIs(fa, s, where, l, if i < n then i else n - 1, n - 1);
    }
  }

  /** The rows among the first n loaded that satisfy the clause. */
  ghost function Gone(fa: FloatArith, s: Schema, where: Option<Expr>, l: Loaded, rows: RowMap, n: nat): set<Bytes>
    requires n <= |l.keys|
  {
    KeySet(l.keys[..n]) * Selected(fa, s, s.name, where, rows)
  }

  /** After i rows: those that satisfy the clause are gone, or the clause could not be evaluated on the last one. */
  ghost predicate DeleteProgress(d: Data, fa: FloatArith, s: Schema, where: Option<Expr>, l: Loaded, rows: RowMap,
                                 i: nat, n: nat, ok: bool)
    requires SchemaOk(s) && i <= |l.keys| == |l.vals|
  {
    && (ok ==> DeletedTo(d, fa, s, where, l, rows, i, n))
    && (!ok ==> i > 0 && DeletedTo(d, fa, s, where, l, rows, i - 1, n)
                && Satisfies(fa, where, Alone(s, s.name, l.vals[i - 1])).None?)
  }

  ghost predicate DeletedTo(d: Data, fa: FloatArith, s: Schema, where: Option<Expr>, l: Loaded, rows: RowMap, i: nat,
                            n: nat)
    requires SchemaOk(s) && i <= |l.keys| == |l.vals|
  {
    && AllJudged(fa, s, where, l, i) && Agrees(d, s, rows - Gone(fa, s, where, l, rows, i))
    && n == |Gone(fa, s, where, l, rows, i)|
  }

  lemma {:induction false} GoneStep(fa: FloatArith, s: Schema, where: Option<Expr>, l: Loaded, rows: RowMap, i: nat)
    requires LoadedOk(s, rows, l) && i < |l.keys|
    ensures l.keys[i] in rows && rows[l.keys[i]] == l.vals[i] && l.keys[i] !in Gone(fa, s, where, l, rows, i)
    ensures var g := Gone(fa, s, where, l, rows, i);
            Gone(fa, s, where, l, rows, i + 1) ==
            if Satisfies(fa, where, Alone(s, s.name, l.vals[i])) == Some(true) then g + {l.keys[i]} else g
  {
    assert Shows(rows, l.keys[i], l.vals[i]);
    KeySetSnoc(l.keys, i);
  }

  lemma {:induction false} AllJudgedSnoc(fa: FloatArith, s: Schema, where: Option<Expr>, l: Loaded, i: nat)
    requires i < |l.vals|
    ensures AllJudged(fa, s, where, l, i + 1) <==>
            AllJudged(fa, s, where, l, i) && Satisfies(fa, where, Alone(s, s.name, l.vals[i])).Some?
  {
  }

  lemma {:induction false} DeleteBegins(d: Data, fa: FloatArith, s: Schema, where: Option<Expr>, l: Loaded,
                                        rows: RowMap)
    requires SchemaOk(s) && Agrees(d, s, rows) && |l.keys| == |l.vals|
    ensures DeleteProgress(d, fa, s, where, l, rows, 0, 0, true)
  {
    assert Gone(fa, s, where, l, rows, 0) == {} && rows - {} == rows;
  }

  method DeleteNext(t: Txn, fa: FloatArith, s: Schema, where: Option<Expr>, l: Loaded, i: nat, n: nat,
                    ghost rows: RowMap)
    returns (ok: bool, m: nat)
    requires t.Valid() && !t.done && SchemaOk(s) && Known(t.store.targets, s) && LoadedOk(s, rows, l) && i < |l.keys|
    requires DeletedTo(t.store.data, fa, s, where, l, rows, i, n)
    modifies t`undo, t.store`data, t.store`log, t.store`state, t.store`past
    ensures t.Valid() && t.store.Committed() == old(t.store.Committed())
    ensures DeleteProgress(t.store.data, fa, s, where, l, rows, i + 1, m, ok)
    ensures Others(t.store.data, s) == Others(old(t.store.data), s)
  {
    GoneStep(fa, s, where, l, rows, i);
    AllJudgedSnoc(fa, s, where, l, i);
    ghost var g := Gone(fa, s, where, l, rows, i);
    var v := Satisfies(fa, where, Alone(s, s.name, l.vals[i]));
    if v.None? {
      return false, n;
    }
    if !v.value {
      return true, n;
    }
    ok := DeleteRow(t, s, l.keys[i], l.vals[i], rows - g);
    assert rows - g - {l.keys[i]} == rows - (g + {l.keys[i]});
    m := n + 1;
  }

  lemma {:induction false} DeleteEnds(d: Data, fa: FloatArith, s: Schema, where: Option<Expr>, l: Loaded, rows: RowMap,
                                      next: nat, i: nat, n: nat, ok: bool)
    requires SchemaOk(s) && i <= |l.keys| == |l.vals| && DeleteProgress(d, fa, s, where, l, rows, i, n, ok)
    requires Sane(s, rows, next) && (ok ==> i == |l.keys|)
    ensures DeleteDone(d, fa, s, where, l, rows, next, if ok then Some(n) else None)
  {
    var j := if ok then i else i - 1;
    JudgedToIs(fa, s, where, l, j, |l.vals|);
    SaneWithout(s, rows, next, Gone(fa, s, where, l, rows, j));
  }

  lemma {:induction false} SaneWithout(s: Schema, rows: RowMap, next: nat, g: set<Bytes>)
    requires SchemaOk(s) && Sane(s, rows, next)
    ensures Sane(s, rows - g, next)
  {
    forall i | 0 <= i < |s.indexes| && s.indexes[i].unique ensures Distinct(rows - g, IndexColumn(s, i)) {
      DistinctWithout(rows, IndexColumn(s, i), g);
    }
  }

  lemma {:induction false} DistinctWithout(rows: RowMap, c: nat, g: set<Bytes>)
    requires Distinct(rows, c)
    ensures Distinct(rows - g, c)
  {
    var later := rows - g;
    forall a, b | a in later && b in later && a != b && c < |later[a]| && c < |later[b]|
      ensures Apart(later[a][c], later[b][c])
    {
      assert Apart(rows[a][c], rows[b][c]);
    }
  }

  /** What a DELETE reports and leaves behind: the rows that satisfy the clause are gone; or only those before the
      row on which it could not be evaluated. */
  ghost predicate DeleteDone(d: Data, fa: FloatArith, s: Schema, where: Option<Expr>, l: Loaded, rows: RowMap,
                             next: nat, count: Option<nat>)
    requires SchemaOk(s) && |l.keys| == |l.vals|
  {
    var i := JudgedTo(fa, s, where, l, |l.vals|);
    var g := Gone(fa, s, where, l, rows, i);
    && (count.Some? <==> i == |l.vals|)
    && (count.Some? ==> count.value == |g|)
    && Consistent(d, s, rows - g, next)
  }

  /** DELETE removes exactly the loaded rows that satisfy the clause. It fails only if the clause cannot be
      evaluated. */
  method ExecDelete(t: Txn, tb: Table, fa: FloatArith, where: Option<Expr>, ghost rows: RowMap)
    returns (count: Option<nat>, ghost l: Loaded)
    requires t.Valid() && !t.done && Known(t.store.targets, tb.schema)
             && Consistent(t.store.data, tb.schema, rows, tb.nextRow)
    modifies t`undo, t.store`data, t.store`log, t.store`state, t.store`past
    ensures t.Valid() && t.store.Committed() == old(t.store.Committed())
    ensures LoadsKeys(old(t.store.data), tb.schema, where, tb.schema.name, l.keys) && LoadedOk(tb.schema, rows, l)
    ensures DeleteDone(t.store.data, fa, tb.schema, where, l, rows, tb.nextRow, count)
    ensures Others(t.store.data, tb.schema) == Others(old(t.store.data), tb.schema)
  {
    var s := tb.schema;
    var r := LoadRows(t, s, where, s.name, rows, tb.nextRow);
    l := r.value;
    LoadsNoRepeats(t.store.data, s, rows, tb.nextRow, where, s.name, l);
    DeleteBegins(t.store.data, fa, s, where, l, rows);
    count := DeleteAll(t, fa, s, where, r.value, rows, tb.nextRow);
  }

  /** The loop over the loaded rows. */
  method DeleteAll(t: Txn, fa: FloatArith, s: Schema, where: Option<Expr>, l: Loaded, ghost rows: RowMap,
                   ghost next: nat)
    returns (count: Option<nat>)
    requires t.Valid() && !t.done && SchemaOk(s) && Known(t.store.targets, s) && LoadedOk(s, rows, l)
             && Sane(s, rows, next)
    requires DeleteProgress(t.store.data, fa, s, where, l, rows, 0, 0, true)
    modifies t`undo, t.store`data, t.store`log, t.store`state, t.store`past
    ensures t.Valid() && t.store.Committed() == old(t.store.Committed())
    ensures DeleteDone(t.store.data, fa, s, where, l, rows, next, count)
    ensures Others(t.store.data, s) == Others(old(t.store.data), s)
  {
    var i, n, ok := 0, 0, true;
    while i < |l.keys| && ok
      invariant t.Valid() && t.store.Committed() == old(t.store.Committed())
      invariant i <= |l.keys| && DeleteProgress(t.store.data, fa, s, where, l, rows, i, n, ok)
      invariant Others(t.store.data, s) == Others(old(t.store.data), s)
    {
      ok, n := DeleteNext(t, fa, s, where, l, i, n, rows);
      i := i + 1;
    }
    DeleteEnds(t.store.data, fa, s, where, l, rows, next, i, n, ok);
    count := if ok then Some(n) else None;
  }

  // ---- Which rows were meant -----------------------------------------------

  /** The loaded rows that satisfy the clause are all the rows that satisfy it, exactly when the literal of a seek is
      not confusable with a stored double. */
  lemma {:induction false} LoadedAllIff(fa: FloatArith, d: Data, s: Schema, rows: RowMap, n: nat, where: Option<Expr>,
                                        alias: Bytes, keys: seq<Bytes>)
    requires SchemaOk(s) && Agrees(d, s, rows) && RowsOk(s, rows, n) && LoadsKeys(d, s, where, alias, keys)
    ensures KeySet(keys) * Selected(fa, s, alias, where, rows) == Selected(fa, s, alias, where, rows) <==>
            Exact(s, rows, where, alias)
  {
    var p, keep := FindEqualityIndex(s, where, alias), Selected(fa, s, alias, where, rows);
    if p.Some? {
      var es :| ListsFrom(d, Target(s, p.value.index), SortKey(p.value.lit), es)
        && keys == SeekKeys(es, SortKey(p.value.lit));
      forall rk ensures rk in keep ==> (rk in keys <==>
                                        !Confusable(rows[rk][IndexColumn(s, p.value.index)], p.value.lit))
      {
        if rk in keep {
          SelectedIff(fa, d, s, rows, n, where, alias, rk);
          SeekFinds(d, s, p.value.index, rows, n, SortKey(p.value.lit), es, rk);
          PrefixOfEqual(rows[rk][IndexColumn(s, p.value.index)], p.value.lit, rk);
        }
      }
      if KeySet(keys) * keep == keep {
        forall rk | rk in rows && IndexColumn(s, p.value.index) < |rows[rk]|
          ensures !Confusable(rows[rk][IndexColumn(s, p.value.index)], p.value.lit)
        {
          ConfusedIsSelected(fa, d, s, rows, n, where, alias, rk);
          assert rk in keep ==> rk in KeySet(keys);
        }
      }
    } else {
      var es :| ListsFrom(d, TableTarget(s.name), [], es) && keys == KeysOf(es);
      ScanKeys(d, s, rows, es);
    }
  }

  lemma {:induction false} ConfusedIsSelected(fa: FloatArith, d: Data, s: Schema, rows: RowMap, n: nat,
                                              where: Option<Expr>, alias: Bytes, rk: Bytes)
    requires Setting(fa, d, s, rows, n, where, alias) && rk in rows
    ensures var p := FindEqualityIndex(s, where, alias).value;
            && RowOk(s, rk, rows[rk])
            && (Confusable(rows[rk][IndexColumn(s, p.index)], p.lit) ==> rk in Selected(fa, s, alias, where, rows))
  {
    var p := FindEqualityIndex(s, where, alias).value;
    assert RowOk(s, rk, rows[rk]);
    if Confusable(rows[rk][IndexColumn(s, p.index)], p.lit) {
      ConfusableEqual(rows[rk][IndexColumn(s, p.index)], p.lit);
      SelectedIff(fa, d, s, rows, n, where, alias, rk);
    }
  }
}
