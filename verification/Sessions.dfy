/** A client's session: explicit transactions, and statements that commit or roll back by themselves. */
module Sessions {
  import opened Bytes
  import opened Entries
  import opened Recovery
  import opened Transactions
  import opened Expressions
  import opened Tables
  import opened RowStatements
  import opened Loading
  import opened Inserts
  import opened Updates
  import opened UpdateMeaning
  import opened Statements
  import opened Databases

  const CHECKPOINT_WRITES: nat := 2000

  class Session {
    const store: Store
    var txn: Txn?

    /** The session's transaction, if it has one, is open and holds the lock. */
    ghost predicate Valid()
      reads this, store, txn
    {
      store.Valid() && (txn != null ==> txn.store == store && txn.Valid() && !txn.done)
    }

    constructor (store: Store)
      requires store.Valid()
      ensures Valid() && this.store == store && txn == null
    {
      this.store, txn := store, null;
    }

    /** BEGIN fails in an open transaction. The source waits for the lock, so it is free when the transaction begins. */
    method ExecBegin() returns (ok: bool)
      requires Valid() && (txn == null ==> !store.locked)
      modifies this, store
      ensures Valid() && txn != null && (ok <==> old(txn) == null)
      ensures store.data == old(store.data) && (!ok ==> txn == old(txn) && unchanged(store))
      ensures ok ==> fresh(txn) && store.Committed() == store.data
    {
      if txn != null {
        return false;
      }
      txn := store.Begin();
      return true;
    }

    /** COMMIT makes the transaction's data the committed data. */
    method ExecCommit() returns (ok: bool)
      requires Valid()
      modifies this, store, txn
      ensures Valid() && txn == null && (ok <==> old(txn) != null) && store.data == old(store.data)
      ensures if ok then !store.locked && store.Committed() == store.data else unchanged(store)
    {
      if txn == null {
        return false;
      }
      txn.Commit();
      txn := null;
      store.MaybeCheckpoint(CHECKPOINT_WRITES);
      return true;
    }

    /** ROLLBACK, and closing the session, take the trees back to the committed data. */
    method ExecRollback() returns (ok: bool)
      requires Valid()
      modifies this, store, txn
      ensures Valid() && txn == null && (ok <==> old(txn) != null) && store.Committed() == old(store.Committed())
      ensures if ok then !store.locked && store.data == store.Committed() else unchanged(store)
    {
      if txn == null {
        return false;
      }
      txn.Rollback();
      txn := null;
      return true;
    }

    method Close()
      requires Valid()
      modifies this, store, txn
      ensures Valid() && txn == null && store.Committed() == old(store.Committed())
      ensures store.data == if old(txn) != null then store.Committed() else old(store.data)
    {
      if txn != null {
        txn.Rollback();
        txn := null;
      }
    }

    /** The first half of `runInTxn`: the open transaction, or one for this statement alone. */
    method Enter() returns (t: Txn)
      requires Valid() && (txn == null ==> !store.locked)
      modifies store
      ensures t.store == store && t.Valid() && !t.done && txn == old(txn) && Valid()
      ensures store.data == old(store.data) && store.Committed() == old(store.Committed())
      ensures if txn != null then t == txn else fresh(t) && store.Committed() == store.data
    {
      if txn != null {
        return txn;
      }
      t := store.Begin();
    }

    /** The second half: a statement on its own commits when it succeeds and is undone when it fails. In an explicit
        transaction nothing is undone. */
    method Leave(t: Txn, failed: bool)
      requires t.store == store && t.Valid() && !t.done && (txn != null ==> t == txn)
      modifies store, t
      ensures Valid() && txn == old(txn)
      ensures txn != null ==> store.data == old(store.data) && store.Committed() == old(store.Committed())
      ensures txn == null ==> !store.locked && store.data == store.Committed()
      ensures txn == null ==> store.data == if failed then old(store.Committed()) else old(store.data)
    {
      if txn != null {
        return;
      }
      if failed {
        t.Rollback();
        return;
      }
      t.Commit();
      store.MaybeCheckpoint(CHECKPOINT_WRITES);
    }

    /** INSERT: a step of `Databases.Does` on its table. */
    method ExecuteInsert(tb: Table, fa: FloatArith, columns: seq<Bytes>, lists: seq<seq<Expr>>, ghost rows: RowMap)
      returns (count: Option<nat>, ghost after: TableState)
      requires Valid() && (txn == null ==> !store.locked)
      requires Known(store.targets, tb.schema) && tb.nextRow + |lists| < TWO64
      requires Consistent(store.data, tb.schema, rows, tb.nextRow)
      modifies store, txn, tb`nextRow
      ensures Valid() && txn == old(txn) && after.next == tb.nextRow
      ensures InsertRan(fa, old(store.data), TableState(tb.schema, rows, old(tb.nextRow)), txn == null, columns, lists,
                        count, store.data, after)
      ensures if txn == null then !store.locked && store.data == store.Committed()
              else store.Committed() == old(store.Committed())
    {
      var t := Enter();
      ghost var d, n := store.data, tb.nextRow;
      count := ExecInsert(t, tb, fa, columns, lists, rows);
      ghost var d', before := store.data, TableState(tb.schema, rows, n);
      Leave(t, count.None?);
      after := before.(next := tb.nextRow);
      if txn != null || count.Some? {
        after := after.(rows := RowsIn(fa, before, columns, lists));
      }
      InsertStepIs(fa, d, before, txn == null, columns, lists, count, d', store.data, after);
    }

    /** UPDATE. */
    method ExecuteUpdate(tb: Table, fa: FloatArith, sets: seq<Assignment>, where: Option<Expr>, ghost rows: RowMap)
      returns (count: Option<nat>, ghost l: Loaded, ghost after: TableState)
      requires Valid() && (txn == null ==> !store.locked)
      requires Known(store.targets, tb.schema) && Consistent(store.data, tb.schema, rows, tb.nextRow)
      modifies store, txn
      ensures Valid() && txn == old(txn) && after.next == tb.nextRow
      ensures RowsTyped(tb.schema, rows)
      ensures UpdateRan(fa, old(store.data), TableState(tb.schema, rows, tb.nextRow), txn == null, sets, where, l,
                        count, store.data, after)
      ensures if txn == null then !store.locked && store.data == store.Committed()
              else store.Committed() == old(store.Committed())
    {
      RowsOkTyped(tb.schema, rows, tb.nextRow);
      var t := Enter();
      ghost var d, before := store.data, TableState(tb.schema, rows, tb.nextRow);
      count, l := ExecUpdate(t, tb, fa, sets, where, rows);
      ghost var d' := store.data;
      Leave(t, count.None?);
      after := before;
      if txn != null || count.Some? {
        after := before.(rows := RowsAfter(fa, before, sets, where, l));
      }
      UpdateStepIs(fa, d, before, txn == null, sets, where, l, count, d', store.data, after);
    }

    /** DELETE. */
    method ExecuteDelete(tb: Table, fa: FloatArith, where: Option<Expr>, ghost rows: RowMap)
      returns (count: Option<nat>, ghost l: Loaded, ghost after: TableState)
      requires Valid() && (txn == null ==> !store.locked)
      requires Known(store.targets, tb.schema) && Consistent(store.data, tb.schema, rows, tb.nextRow)
      modifies store, txn
      ensures Valid() && txn == old(txn) && after.next == tb.nextRow
      ensures DeleteRan(fa, old(store.data), TableState(tb.schema, rows, tb.nextRow), txn == null, where, l, count,
                        store.data, after)
      ensures if txn == null then !store.locked && store.data == store.Committed()
              else store.Committed() == old(store.Committed())
    {
      var t := Enter();
      ghost var d, before := store.data, TableState(tb.schema, rows, tb.nextRow);
      count, l := ExecDelete(t, tb, fa, where, rows);
      ghost var d' := store.data;
      Leave(t, count.None?);
      after := before;
      if txn != null || count.Some? {
        after := before.(rows := RowsLeft(fa, before, where, l));
      }
    }
  }

  lemma {:induction false} InsertStepIs(fa: FloatArith, d: Data, t: TableState, alone: bool, columns: seq<Bytes>,
                                        lists: seq<seq<Expr>>, count: Option<nat>, ran: Data, d': Data, t': TableState)
    requires SchemaOk(t.s) && InsertDone(d, ran, fa, t.s, columns, lists, t.rows, t.next, t'.next, count)
    requires Others(ran, t.s) == Others(d, t.s) && t'.s == t.s
    requires if alone && count.None? then d' == d && t'.rows == t.rows
             else d' == ran && t'.rows == RowsIn(fa, t, columns, lists)
    ensures InsertRan(fa, d, t, alone, columns, lists, count, d', t')
  {
  }

  lemma {:induction false} UpdateStepIs(fa: FloatArith, d: Data, t: TableState, alone: bool, sets: seq<Assignment>,
                                        where: Option<Expr>, l: Loaded, count: Option<nat>, ran: Data, d': Data,
                                          t': TableState)
    requires SchemaOk(t.s) && RowsTyped(t.s, t.rows)
             && UpdateReport(d, ran, fa, t.s, sets, where, l, t.rows, t.next, count)
    requires LoadsKeys(d, t.s, where, t.s.name, l.keys) && LoadedOk(t.s, t.rows, l)
    requires Others(ran, t.s) == Others(d, t.s) && t'.s == t.s && t'.next == t.next
    requires if alone && count.None? then d' == d && t'.rows == t.rows
             else d' == ran && t'.rows == RowsAfter(fa, t, sets, where, l)
    ensures UpdateRan(fa, d, t, alone, sets, where, l, count, d', t')
  {
  }
}
