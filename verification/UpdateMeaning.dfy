/** What an UPDATE that succeeds has done: which rows changed, whether the indexes followed, and uniqueness. */
module UpdateMeaning {
  import opened Bytes
  import opened Entries
  import opened Recovery
  import opened Values
  import opened Rows
  import opened Expressions
  import opened Tables
  import opened RowStatements
  import opened RowBuilding
  import opened Seek
  import opened Loading
  import opened Inserts
  import opened Updates

  ghost predicate RowsTyped(s: Schema, rows: RowMap) { forall rk :: rk in rows ==> RowFits(s, rk, rows[rk]) }

  function KeySet(ks: seq<Bytes>): set<Bytes> { set k <- ks }

  // ---- What becomes of a row -----------------------------------------------

  ghost predicate Chosen(u: Update, r: Row) { Satisfies(u.fa, u.where, Alone(u.s, u.alias, r)) == Some(true) }

  /** Every assigned column holds the value of the last expression for it, taken on the old row and fitted to the
      column; the other columns keep their values; no NOT NULL column is NULL. */
  ghost predicate Reassigned(u: Update, r: Row, r': Row)
    requires UpdateOk(u) && Typed(r, Types(u.s))
  {
    var tp := Alone(u.s, u.alias, r);
    && AllConvert(u.fa, u.s, tp, u.pos, u.es, |u.es|) && Placed(u.fa, u.s, tp, u.pos, u.es, |u.es|, r, r')
    && forall c :: 0 <= c < |r'| && u.s.columns[c].notNull ==> !r'[c].Null?
  }

  /** An expression fails or does not fit its column, or a NOT NULL column would be NULL. */
  ghost predicate CannotAssign(u: Update, r: Row)
    requires UpdateOk(u) && Typed(r, Types(u.s))
  {
    var tp := Alone(u.s, u.alias, r);
    || !AllConvert(u.fa, u.s, tp, u.pos, u.es, |u.es|)
    || exists c :: 0 <= c < |r| && u.s.columns[c].notNull && LeftNull(u.fa, u.s, tp, u.pos, u.es, r, c)
  }

  /** The clause and the assignments decide what becomes of a row. */
  lemma {:induction false} JudgeIff(u: Update, r: Row, r': Row)
    requires UpdateOk(u) && Typed(r, Types(u.s))
    ensures Judge(u, r) == Change(r') <==> Chosen(u, r) && Reassigned(u, r, r')
    ensures Judge(u, r).Skip? <==> Satisfies(u.fa, u.where, Alone(u.s, u.alias, r)) == Some(false)
    ensures Judge(u, r).Fail? <==>
            Satisfies(u.fa, u.where, Alone(u.s, u.alias, r)).None? || (Chosen(u, r) && CannotAssign(u, r))
  {
    BuiltRowIff(u.fa, u.s, Alone(u.s, u.alias, r), u.pos, u.es, r, r');
    BuiltRowFailsIff(u.fa, u.s, Alone(u.s, u.alias, r), u.pos, u.es, r);
  }

  /** The new row by the names in SET. */
  lemma {:induction false} ReassignedByName(u: Update, names: seq<Bytes>, r: Row, r': Row)
    requires UpdateOk(u) && Typed(r, Types(u.s)) && Positions(u.s, names) == Some(u.pos) && Reassigned(u, r, r')
    ensures MadeOf(u.fa, u.s, Alone(u.s, u.alias, r), names, u.es, r, r')
  {
    BuiltRowIff(u.fa, u.s, Alone(u.s, u.alias, r), u.pos, u.es, r, r');
    BuiltRowByName(u.fa, u.s, Alone(u.s, u.alias, r), names, u.pos, u.es, r, r');
  }

  // ---- What becomes of the table -------------------------------------------

  /** The chosen rows among ks are reassigned and all others are as before. */
  ghost predicate Rewritten(u: Update, rows: RowMap, ks: set<Bytes>, after: RowMap)
    requires UpdateOk(u) && RowsTyped(u.s, rows)
  {
    after.Keys == rows.Keys && forall rk :: rk in rows ==>
      if rk in ks && Chosen(u, rows[rk]) then Reassigned(u, rows[rk], after[rk]) else after[rk] == rows[rk]
  }

  /** A row once the statement has come past it. */
  ghost function NewRow(u: Update, r: Row): Row
    requires UpdateOk(u) && Typed(r, Types(u.s))
  {
    if Judge(u, r).Change? then Judge(u, r).row else r
  }

  /** The rows when the statement has come past the keys in ks. */
  ghost function UpdatedRows(u: Update, rows: RowMap, ks: set<Bytes>): RowMap
    requires UpdateOk(u) && RowsTyped(u.s, rows)
  {
    map rk | rk in rows :: if rk in ks then NewRow(u, rows[rk]) else rows[rk]
  }

  /** The rows among them that the statement changes. */
  ghost function ChangedKeys(u: Update, rows: RowMap, ks: set<Bytes>): set<Bytes>
    requires UpdateOk(u) && RowsTyped(u.s, rows)
  {
    set rk | rk in ks && rk in rows && Judge(u, rows[rk]).Change?
  }

  /** The rows that index i then shows. */
  ghost function UpdatedView(u: Update, i: nat, rows: RowMap, ks: set<Bytes>): RowMap
    requires UpdateOk(u) && RowsTyped(u.s, rows) && i < |u.s.indexes|
  {
    map rk | rk in rows ::
      if rk in ks && !Stale(u.s, i, rows[rk], NewRow(u, rows[rk])) then NewRow(u, rows[rk]) else rows[rk]
  }

  /** The state is what the statement makes of these rows. */
  ghost predicate Means(u: Update, rows: RowMap, ks: set<Bytes>, h: Held)
    requires UpdateOk(u) && RowsTyped(u.s, rows)
  {
    && h.rows == UpdatedRows(u, rows, ks) && h.changed == |ChangedKeys(u, rows, ks)|
    && |h.views| == |u.s.indexes|
    && forall i :: 0 <= i < |h.views| ==> h.views[i] == UpdatedView(u, i, rows, ks)
  }

  lemma {:induction false} ViewStep(u: Update, i: nat, rows: RowMap, ks: set<Bytes>, view: RowMap, rk: Bytes)
    requires UpdateOk(u) && RowsTyped(u.s, rows) && i < |u.s.indexes| && rk in rows && rk !in ks
    requires view == UpdatedView(u, i, rows, ks)
    ensures Judge(u, rows[rk]).Change? ==>
              Followed(u.s, i, view, rk, rows[rk], NewRow(u, rows[rk])) == UpdatedView(u, i, rows, ks + {rk})
    ensures !Judge(u, rows[rk]).Change? ==> view == UpdatedView(u, i, rows, ks + {rk})
  {
  }

  lemma {:induction false} RowsStep(u: Update, rows: RowMap, ks: set<Bytes>, rk: Bytes)
    requires UpdateOk(u) && RowsTyped(u.s, rows) && rk in rows && rk !in ks
    ensures UpdatedRows(u, rows, ks)[rk := NewRow(u, rows[rk])] == UpdatedRows(u, rows, ks + {rk})
  {
  }

  lemma {:induction false} ChangedStep(u: Update, rows: RowMap, ks: set<Bytes>, rk: Bytes)
    requires UpdateOk(u) && RowsTyped(u.s, rows) && rk in rows && rk !in ks
    ensures |ChangedKeys(u, rows, ks + {rk})| == |ChangedKeys(u, rows, ks)| + if Judge(u, rows[rk]).Change? then 1
            else 0
  {
    var a, b := ChangedKeys(u, rows, ks), ChangedKeys(u, rows, ks + {rk});
    assert b == if Judge(u, rows[rk]).Change? then a + {rk} else a;
  }

  lemma {:induction false} MeansStep(u: Update, rows: RowMap, ks: set<Bytes>, h: Held, rk: Bytes, h': Held)
    requires UpdateOk(u) && RowsTyped(u.s, rows) && rk in rows && rk !in ks && Means(u, rows, ks, h)
    requires UpdateOne(u, h, rk, rows[rk]) == Some(h')
    ensures Means(u, rows, ks + {rk}, h')
  {
    RowsStep(u, rows, ks, rk);
    ChangedStep(u, rows, ks, rk);
    assert !Judge(u, rows[rk]).Change? ==> UpdatedRows(u, rows, ks)[rk := rows[rk]] == UpdatedRows(u, rows, ks);
    forall i | 0 <= i < |h'.views| ensures h'.views[i] == UpdatedView(u, i, rows, ks + {rk}) {
      ViewStep(u, i, rows, ks, h.views[i], rk);
    }
  }

  lemma {:induction false} StartMeans(u: Update, rows: RowMap)
    requires UpdateOk(u) && RowsTyped(u.s, rows)
    ensures Means(u, rows, {}, Start(u.s, rows))
  {
    assert UpdatedRows(u, rows, {}) == rows && ChangedKeys(u, rows, {}) == {};
    forall i | 0 <= i < |u.s.indexes| ensures Start(u.s, rows).views[i] == UpdatedView(u, i, rows, {}) {
    }
  }

  lemma {:induction false} KeySetSnoc(ks: seq<Bytes>, n: nat)
    requires n < |ks| && NoRepeats(ks)
    ensures KeySet(ks[..n + 1]) == KeySet(ks[..n]) + {ks[n]} && ks[n] !in KeySet(ks[..n])
  {
    assert ks[..n + 1] == ks[..n] + [ks[n]];
  }

  /** A loaded row and the step it takes. */
  lemma {:induction false} FoldRow(u: Update, rows: RowMap, l: Loaded, n: nat, h: Held)
    requires UpdateOk(u) && RowsTyped(u.s, rows) && LoadedOk(u.s, rows, l) && n < |l.keys| && |h.views| == |u.s.indexes|
    ensures l.keys[n] in rows && l.vals[n] == rows[l.keys[n]]
    ensures UpdateStep(u, l)(h, n) == UpdateOne(u, h, l.keys[n], rows[l.keys[n]])
  {
    assert Shows(rows, l.keys[n], l.vals[n]);
    StepApplied(u, l, h, n);
  }

  /** The state after i rows is what the statement makes of them. */
  ghost function MeansAfter(u: Update, rows: RowMap, l: Loaded): (Held, nat) -> bool
    requires UpdateOk(u) && RowsTyped(u.s, rows)
  {
    (h: Held, i: nat) => i <= |l.keys| && Means(u, rows, KeySet(l.keys[..i]), h)
  }

  lemma {:induction false} MeansAfterIs(u: Update, rows: RowMap, l: Loaded, inv: (Held, nat) -> bool, h: Held, i: nat)
    requires UpdateOk(u) && RowsTyped(u.s, rows) && inv == MeansAfter(u, rows, l)
    ensures inv(h, i) <==> i <= |l.keys| && Means(u, rows, KeySet(l.keys[..i]), h)
  {
  }

  /** The statement's outcome row by row. */
  lemma {:induction false} FoldMeans(u: Update, rows: RowMap, l: Loaded, n: nat)
    requires UpdateOk(u) && RowsTyped(u.s, rows) && LoadedOk(u.s, rows, l) && n <= |l.keys|
    requires Fold(UpdateStep(u, l), Start(u.s, rows), n).Some?
    ensures Means(u, rows, KeySet(l.keys[..n]), Fold(UpdateStep(u, l), Start(u.s, rows), n).value)
  {
    StepsMean(u, rows, l, UpdateStep(u, l), MeansAfter(u, rows, l), Start(u.s, rows), n);
    MeansAfterIs(u, rows, l, MeansAfter(u, rows, l), Fold(UpdateStep(u, l), Start(u.s, rows), n).value, n);
  }

  lemma {:induction false} StepsMean(u: Update, rows: RowMap, l: Loaded, step: (Held, nat) -> Option<Held>,
                                     inv: (Held, nat) -> bool, start: Held, n: nat)
    requires UpdateOk(u) && RowsTyped(u.s, rows) && LoadedOk(u.s, rows, l) && n <= |l.keys|
    requires step == UpdateStep(u, l) && inv == MeansAfter(u, rows, l) && start == Start(u.s, rows)
    requires Fold(step, start, n).Some?
    ensures inv(Fold(step, start, n).value, n)
  {
    StartMeans(u, rows);
    assert KeySet(l.keys[..0]) == {};
    MeansAfterIs(u, rows, l, inv, start, 0);
    forall h, i | 0 <= i < n ensures Keeps(step, inv, h, i) {
      MeansKept(u, rows, l, step, inv, h, i);
    }
    FoldKeeps(step, inv, start, n);
  }

  lemma {:induction false} MeansKept(u: Update, rows: RowMap, l: Loaded, step: (Held, nat) -> Option<Held>,
                                     inv: (Held, nat) -> bool, h: Held, i: nat)
    requires UpdateOk(u) && RowsTyped(u.s, rows) && LoadedOk(u.s, rows, l) && i < |l.keys|
    requires step == UpdateStep(u, l) && inv == MeansAfter(u, rows, l)
    ensures Keeps(step, inv, h, i)
  {
    MeansAfterIs(u, rows, l, inv, h, i);
    if inv(h, i) && step(h, i).Some? {
      MeansNext(u, rows, l, i, h, step(h, i).value);
      MeansAfterIs(u, rows, l, inv, step(h, i).value, i + 1);
    }
  }

  lemma {:induction false} MeansNext(u: Update, rows: RowMap, l: Loaded, n: nat, h: Held, h': Held)
    requires UpdateOk(u) && RowsTyped(u.s, rows) && LoadedOk(u.s, rows, l) && n < |l.keys|
             && Means(u, rows, KeySet(l.keys[..n]), h)
    requires UpdateStep(u, l)(h, n) == Some(h')
    ensures Means(u, rows, KeySet(l.keys[..n + 1]), h')
  {
    FoldRow(u, rows, l, n, h);
    KeySetSnoc(l.keys, n);
    MeansStep(u, rows, KeySet(l.keys[..n]), h, l.keys[n], h');
  }

  /** The statement did not stop at any of these rows. */
  ghost predicate NoneFails(u: Update, rows: RowMap, ks: set<Bytes>)
    requires UpdateOk(u) && RowsTyped(u.s, rows)
  {
    forall rk :: rk in rows && rk in ks ==> !Judge(u, rows[rk]).Fail?
  }

  lemma {:induction false} StepsJudge(u: Update, rows: RowMap, l: Loaded, step: (Held, nat) -> Option<Held>,
                                      start: Held, n: nat)
    requires UpdateOk(u) && RowsTyped(u.s, rows) && LoadedOk(u.s, rows, l) && n <= |l.keys|
    requires step == UpdateStep(u, l) && Fold(step, start, n).Some?
    ensures NoneFails(u, rows, KeySet(l.keys[..n]))
    decreases n
  {
    if n == 0 {
      assert KeySet(l.keys[..0]) == {};
    } else {
      StepsJudge(u, rows, l, step, start, n - 1);
      KeySetSnoc(l.keys, n - 1);
      StepJudges(u, rows, l, n - 1, Fold(step, start, n - 1).value, Fold(step, start, n));
    }
  }

  lemma {:induction false} StepJudges(u: Update, rows: RowMap, l: Loaded, n: nat, h: Held, h': Option<Held>)
    requires UpdateOk(u) && RowsTyped(u.s, rows) && LoadedOk(u.s, rows, l) && n < |l.keys|
    requires h' == UpdateStep(u, l)(h, n) && h'.Some?
    ensures l.keys[n] in rows && !Judge(u, rows[l.keys[n]]).Fail?
  {
    assert Shows(rows, l.keys[n], l.vals[n]);
    StepApplied(u, l, h, n);
  }

  /** What the table holds, without the way there. */
  lemma {:induction false} UpdatedIsRewritten(u: Update, rows: RowMap, ks: set<Bytes>)
    requires UpdateOk(u) && RowsTyped(u.s, rows) && NoneFails(u, rows, ks)
    ensures Rewritten(u, rows, ks, UpdatedRows(u, rows, ks))
    ensures ChangedKeys(u, rows, ks) == ks * Selected(u.fa, u.s, u.alias, u.where, rows)
  {
    forall rk | rk in rows
      ensures Judge(u, rows[rk]).Change? ==> Chosen(u, rows[rk]) && Reassigned(u, rows[rk], Judge(u, rows[rk]).row)
      ensures rk in ks && !Judge(u, rows[rk]).Change? ==> !Chosen(u, rows[rk])
    {
      var v := Judge(u, rows[rk]);
      JudgeIff(u, rows[rk], if v.Change? then v.row else rows[rk]);
    }
  }

  // ---- Agreement -----------------------------------------------------------

  /** No row that the statement came past left an index behind. */
  ghost predicate AllFollowed(u: Update, rows: RowMap, ks: set<Bytes>)
    requires UpdateOk(u) && RowsTyped(u.s, rows)
  {
    forall rk :: rk in rows && rk in ks ==> NoneStale(u.s, rows[rk], NewRow(u, rows[rk]))
  }

  lemma {:induction false} LeftBehind(d: Data, u: Update, rows: RowMap, ks: set<Bytes>, i: nat, rk: Bytes)
    requires UpdateOk(u) && RowsTyped(u.s, rows) && i < |u.s.indexes| && rk in rows && rk in ks
    requires IndexAgrees(d, u.s, i, UpdatedView(u, i, rows, ks)) && Stale(u.s, i, rows[rk], NewRow(u, rows[rk]))
    ensures !IndexAgrees(d, u.s, i, UpdatedRows(u, rows, ks))
  {
    var c, s := IndexColumn(u.s, i), u.s;
    var v, w := rows[rk][c], NewRow(u, rows[rk])[c];
    EqualKeysIff(v, w);
    KeysInjective(v, rk, w, rk);
    KeyEnds(w, rk);
    var k := IndexKey(w, rk);
    assert At(d, Loc(Target(s, i), k)) == IndexAt(UpdatedView(u, i, rows, ks), c, k) == None;
    assert IndexAt(UpdatedRows(u, rows, ks), c, k) == Some(rk);
  }

  /** After a successful UPDATE heap and indexes agree exactly when every index followed every changed row. */
  lemma {:induction false} UpdateAgreesIff(d: Data, u: Update, rows: RowMap, ks: set<Bytes>, h: Held)
    requires UpdateOk(u) && RowsTyped(u.s, rows) && Means(u, rows, ks, h) && Stores(d, u.s, h)
    ensures Agrees(d, u.s, h.rows) <==> AllFollowed(u, rows, ks)
  {
    if AllFollowed(u, rows, ks) {
      forall i | 0 <= i < |u.s.indexes| ensures IndexAgrees(d, u.s, i, h.rows) {
        FollowedIsRows(u, rows, ks, i);
        assert IndexAgrees(d, u.s, i, h.views[i]);
      }
    } else {
      var rk :| rk in rows && rk in ks && !NoneStale(u.s, rows[rk], NewRow(u, rows[rk]));
      var i :| 0 <= i < |u.s.indexes| && Stale(u.s, i, rows[rk], NewRow(u, rows[rk]));
      assert IndexAgrees(d, u.s, i, h.views[i]);
      LeftBehind(d, u, rows, ks, i, rk);
    }
  }

  lemma {:induction false} FollowedIsRows(u: Update, rows: RowMap, ks: set<Bytes>, i: nat)
    requires UpdateOk(u) && RowsTyped(u.s, rows) && i < |u.s.indexes| && AllFollowed(u, rows, ks)
    ensures UpdatedView(u, i, rows, ks) == UpdatedRows(u, rows, ks)
  {
    forall rk | rk in rows && rk in ks ensures !Stale(u.s, i, rows[rk], NewRow(u, rows[rk])) {
      assert NoneStale(u.s, rows[rk], NewRow(u, rows[rk]));
    }
  }

  // ---- Row numbers, sizes and uniqueness -----------------------------------

  lemma {:induction false} EntryMovesAt(s: Schema, i: nat, views: seq<RowMap>, rk: Bytes, r: Row, r': Row)
    requires SchemaOk(s) && Typed(r, Types(s)) && Typed(r', Types(s)) && i < |s.indexes| == |views|
    requires EntriesMove(s, |s.indexes|, views, rk, r, r')
    ensures EntryMoves(s, i, views[i], rk, r[IndexColumn(s, i)], r'[IndexColumn(s, i)])
  {
    EntriesMoveFirst(s, i + 1, |s.indexes|, views, rk, r, r');
  }

  lemma {:induction false} MoveKeepsDistinct(s: Schema, i: nat, rows: RowMap, n: nat, rk: Bytes, r: Row)
    requires SchemaOk(s) && i < |s.indexes| && s.indexes[i].unique && RowsOk(s, rows, n)
             && Distinct(rows, IndexColumn(s, i))
    requires rk in rows && RowFits(s, rk, r) && !Stale(s, i, rows[rk], r)
    requires EntryMoves(s, i, rows, rk, rows[rk][IndexColumn(s, i)], r[IndexColumn(s, i)])
    ensures Distinct(rows[rk := r], IndexColumn(s, i))
  {
    var c := IndexColumn(s, i);
    assert RowOk(s, rk, rows[rk]);
    EqualKeysIff(rows[rk][c], r[c]);
    if SomeRowWith(rows, c, r[c]) {
      RowMeansKey(s, i, rows, n, r[c]);
    }
    DistinctAdded(rows, c, rk, r);
  }

  ghost predicate Sane(s: Schema, rows: RowMap, n: nat)
    requires SchemaOk(s)
  {
    RowsOk(s, rows, n) && UniqueOk(s, rows)
  }

  lemma {:induction false} UpdateKeepsUnique(u: Update, h: Held, n: nat, rk: Bytes, r: Row)
    requires UpdateOk(u) && Sane(u.s, h.rows, n) && rk in h.rows && RowFits(u.s, rk, r)
    requires |h.views| == |u.s.indexes| && forall i :: 0 <= i < |h.views| ==> h.views[i] == h.rows
    requires RowFits(u.s, rk, h.rows[rk]) && NoneStale(u.s, h.rows[rk], r) && Updatable(u.s, h.views, rk, h.rows[rk], r)
    ensures Sane(u.s, h.rows[rk := r], n)
  {
    forall i | 0 <= i < |u.s.indexes| && u.s.indexes[i].unique ensures Distinct(h.rows[rk := r], IndexColumn(u.s, i)) {
      EntryMovesAt(u.s, i, h.views, rk, h.rows[rk], r);
      MoveKeepsDistinct(u.s, i, h.rows, n, rk, r);
    }
  }

  lemma {:induction false} SaneStep(u: Update, rows: RowMap, ks: set<Bytes>, h: Held, n: nat, rk: Bytes, h': Held)
    requires UpdateOk(u) && RowsTyped(u.s, rows) && rk in rows && rk !in ks && Means(u, rows, ks, h)
    requires UpdateOne(u, h, rk, rows[rk]) == Some(h') && AllFollowed(u, rows, ks + {rk}) && Sane(u.s, h.rows, n)
    ensures Sane(u.s, h'.rows, n)
  {
    if Judge(u, rows[rk]).Change? {
      var r := NewRow(u, rows[rk]);
      assert NoneStale(u.s, rows[rk], r);
      assert AllFollowed(u, rows, ks);
      forall i | 0 <= i < |h.views| ensures h.views[i] == h.rows {
        FollowedIsRows(u, rows, ks, i);
      }
      assert h.rows[rk] == rows[rk];
      UpdateKeepsUnique(u, h, n, rk, r);
    }
  }

  lemma {:induction false} FollowedBefore(u: Update, rows: RowMap, ks: set<Bytes>, more: set<Bytes>)
    requires UpdateOk(u) && RowsTyped(u.s, rows) && AllFollowed(u, rows, more) && ks <= more
    ensures AllFollowed(u, rows, ks)
  {
  }

  lemma {:induction false} FoldSane(u: Update, rows: RowMap, l: Loaded, n: nat, next: nat)
    requires UpdateOk(u) && RowsTyped(u.s, rows) && LoadedOk(u.s, rows, l) && n <= |l.keys| && Sane(u.s, rows, next)
    requires Fold(UpdateStep(u, l), Start(u.s, rows), n).Some? && AllFollowed(u, rows, KeySet(l.keys[..n]))
    ensures Sane(u.s, Fold(UpdateStep(u, l), Start(u.s, rows), n).value.rows, next)
    decreases n
  {
    if n > 0 {
      var h := Fold(UpdateStep(u, l), Start(u.s, rows), n - 1).value;
      var ks := KeySet(l.keys[..n - 1]);
      KeySetSnoc(l.keys, n - 1);
      FollowedBefore(u, rows, ks, KeySet(l.keys[..n]));
      FoldSane(u, rows, l, n - 1, next);
      FoldMeans(u, rows, l, n - 1);
      FoldRow(u, rows, l, n - 1, h);
      SaneStep(u, rows, ks, h, next, l.keys[n - 1], Fold(UpdateStep(u, l), Start(u.s, rows), n).value);
    }
  }
}
