/** A session over a catalog of tables: its calls are a run of commands, and what a crash makes of such a run. */
module Engines {
  import opened Bytes
  import opened Entries
  import opened WalRecords
  import opened Recovery
  import opened TxnMachine
  import opened Transactions
  import Replaying
  import opened Expressions
  import opened RowStatements
  import opened Loading
  import opened Inserts
  import opened Updates
  import opened Databases
  import opened Sessions

  class Engine {
    const session: Session
    const tables: seq<Table>
    const fa: FloatArith
    ghost var dbs: seq<Db>
    ghost var commands: seq<Command>

    ghost function Now(): Db
      requires |dbs| > 0
      reads this
    {
      dbs[|dbs| - 1]
    }

    /** The calls so far are a run of commands from a whole database, and its last state is what is there. */
    ghost predicate Valid()
      reads this, session, session.store, session.txn, tables
    {
      && session.Valid() && DistinctTables()
      && InRun(fa, dbs, commands)
      && ShowsTables(Now()) && ShowsStore(Now())
    }

    predicate DistinctTables() { forall i, j :: 0 <= i < j < |tables| ==> tables[i] != tables[j] }

    ghost predicate ShowsTables(db: Db)
      reads tables
    {
      ShowsOthers(db, |tables|)
    }

    /** All tables but one are as in the database. */
    ghost predicate ShowsOthers(db: Db, k: nat)
      reads tables
    {
      && |db.tables| == |tables|
      && forall i :: 0 <= i < |tables| && i != k ==>
           db.tables[i].s == tables[i].schema && db.tables[i].next == tables[i].nextRow
             && Known(session.store.targets, tables[i].schema)
    }

    lemma {:induction false} ShowsAfter(db: Db, k: nat, t: TableState, db': Db)
      requires ShowsOthers(db, k) && k < |tables| && db'.tables == db.tables[k := t]
      requires t.s == tables[k].schema && t.next == tables[k].nextRow && Known(session.store.targets, tables[k].schema)
      ensures ShowsTables(db')
    {
    }

    ghost predicate ShowsStore(db: Db)
      reads session, session.store
    {
      && db.data == session.store.data
      && (db.saved.Some? <==> session.txn != null)
      && (db.saved.None? ==> !session.store.locked)
      && session.store.Committed() == if db.saved.Some? then db.saved.value.data else db.data
    }

    /** The tables that the committed data stand for. */
    ghost function CommittedTables(): seq<TableState>
      requires |dbs| > 0 && (Now().saved.Some? ==> |Now().saved.value.rows| == |Now().tables|)
      reads this
    {
      if Now().saved.Some? then WithRows(Now().tables, Now().saved.value.rows) else Now().tables
    }

    /** At any time, the committed data are those of whole tables unless a committed statement tore one. */
    lemma {:induction false} CommittedWhole()
      requires Valid()
      ensures Now().saved.Some? ==> |Now().saved.value.rows| == |Now().tables|
      ensures !(if Now().saved.Some? then Now().saved.value.torn else Now().torn) ==>
                Databases.Whole(session.store.Committed(), CommittedTables())
    {
      LastOk(fa, dbs, commands);
    }

    /** A session on a store whose tables are whole. */
    constructor (store: Store, tables: seq<Table>, fa: FloatArith, ghost ts: seq<TableState>)
      requires store.Valid() && !store.locked && store.data == store.Committed()
      requires forall i, j :: 0 <= i < j < |tables| ==> tables[i] != tables[j]
      requires |ts| == |tables| && Databases.Whole(store.data, ts) && Separate(ts)
      requires forall i :: 0 <= i < |tables| ==>
                 ts[i].s == tables[i].schema && ts[i].next == tables[i].nextRow
                   && Known(store.targets, tables[i].schema)
      ensures Valid() && this.tables == tables && fresh(session) && session.store == store && session.txn == null
      ensures dbs == [Db(store.data, ts, None, false)] && commands == []
    {
      session := new Session(store);
      this.tables, this.fa := tables, fa;
      dbs, commands := [Db(store.data, ts, None, false)], [];
    }

    /** The next state of the run. */
    ghost method Record(c: Command, db: Db)
      requires InRun(fa, dbs, commands) && Does(fa, Now(), c, db)
      modifies this`dbs, this`commands
      ensures dbs == old(dbs) + [db] && commands == old(commands) + [c] && InRun(fa, dbs, commands)
    {
      InRunThen(fa, dbs, commands, c, db);
      dbs, commands := dbs + [db], commands + [c];
    }

    /** A statement has run: its table is as after, all other tables are as they were. */
    ghost method RecordStatement(c: Command, after: TableState)
      requires InRun(fa, dbs, commands) && Statement(c) && c.table < |tables| && session.Valid() && DistinctTables()
      requires ShowsOthers(Now(), c.table) && ShowsStore(Now().(data := session.store.data))
      requires Ready(Now(), c.table) && !Now().torn && Ran(fa, Now(), c, session.store.data, c.table, after)
      requires after.next == tables[c.table].nextRow && after.s == tables[c.table].schema
      requires Known(session.store.targets, tables[c.table].schema)
      modifies this`dbs, this`commands
      ensures Valid() && commands == old(commands) + [c] && dbs[..|old(dbs)|] == old(dbs)
    {
      var db, d := Now(), session.store.data;
      StatementDoes(fa, db, c, d, after);
      ShowsAfter(db, c.table, after, AfterStatement(fa, db, c, d, after));
      Record(c, AfterStatement(fa, db, c, d, after));
    }

    method Begin() returns (ok: bool)
      requires Valid()
      modifies this`dbs, this`commands, session, session.store
      ensures Valid() && commands == old(commands) + [BeginCmd] && dbs[..|old(dbs)|] == old(dbs)
      ensures ok <==> old(Now()).saved.None?
    {
      ghost var db := Now();
      ok := session.ExecBegin();
      Record(BeginCmd, if ok then db.(saved := Some(Saved(db.data, RowsOf(db.tables), db.torn))) else db);
    }

    method Commit() returns (ok: bool)
      requires Valid()
      modifies this`dbs, this`commands, session, session.store, session.txn
      ensures Valid() && commands == old(commands) + [CommitCmd] && dbs[..|old(dbs)|] == old(dbs)
      ensures ok <==> old(Now()).saved.Some?
    {
      ghost var db := Now();
      ok := session.ExecCommit();
      Record(CommitCmd, db.(saved := None));
    }

    method Rollback() returns (ok: bool)
      requires Valid()
      modifies this`dbs, this`commands, session, session.store, session.txn
      ensures Valid() && commands == old(commands) + [RollbackCmd] && dbs[..|old(dbs)|] == old(dbs)
      ensures ok <==> old(Now()).saved.Some?
    {
      ghost var db := Now();
      LastOk(fa, dbs, commands);
      ok := session.ExecRollback();
      Record(RollbackCmd, if db.saved.None? then db
                          else Db(db.saved.value.data, WithRows(db.tables, db.saved.value.rows), None,
                                  db.saved.value.torn));
    }

    method Insert(i: nat, columns: seq<Bytes>, lists: seq<seq<Expr>>) returns (count: Option<nat>)
      requires Valid() && i < |tables| && !Now().torn && tables[i].nextRow + |lists| < TWO64
      modifies this`dbs, this`commands, session.store, session.txn, {tables[i]}
      ensures Valid() && commands == old(commands) + [InsertCmd(i, columns, lists, count)]
              && dbs[..|old(dbs)|] == old(dbs)
    {
      ghost var t := Now().tables[i];
      LastReady(fa, dbs, commands, i);
      ghost var after;
      count, after := session.ExecuteInsert(tables[i], fa, columns, lists, t.rows);
      RecordStatement(InsertCmd(i, columns, lists, count), after);
    }

    method Update(i: nat, sets: seq<Assignment>, where: Option<Expr>) returns (count: Option<nat>, ghost l: Loaded)
      requires Valid() && i < |tables| && !Now().torn
      modifies this`dbs, this`commands, session.store, session.txn
      ensures Valid() && commands == old(commands) + [UpdateCmd(i, sets, where, l, count)]
              && dbs[..|old(dbs)|] == old(dbs)
    {
      ghost var t := Now().tables[i];
      LastReady(fa, dbs, commands, i);
      ghost var after;
      count, l, after := session.ExecuteUpdate(tables[i], fa, sets, where, t.rows);
      RecordStatement(UpdateCmd(i, sets, where, l, count), after);
    }

    method Delete(i: nat, where: Option<Expr>) returns (count: Option<nat>, ghost l: Loaded)
      requires Valid() && i < |tables| && !Now().torn
      modifies this`dbs, this`commands, session.store, session.txn
      ensures Valid() && commands == old(commands) + [DeleteCmd(i, where, l, count)] && dbs[..|old(dbs)|] == old(dbs)
    {
      ghost var t := Now().tables[i];
      LastReady(fa, dbs, commands, i);
      ghost var after;
      count, l, after := session.ExecuteDelete(tables[i], fa, where, t.rows);
      DeleteIsRan(fa, Now(), i, where, l, count, session.store.data, after);
      RecordStatement(DeleteCmd(i, where, l, count), after);
    }
  }

  /** The states of a run from a whole database. */
  ghost predicate InRun(fa: FloatArith, dbs: seq<Db>, cs: seq<Command>) { IsTrace(fa, dbs, cs) && DbOk(dbs[0]) }

  lemma {:induction false} InRunThen(fa: FloatArith, dbs: seq<Db>, cs: seq<Command>, c: Command, db: Db)
    requires InRun(fa, dbs, cs) && Does(fa, dbs[|dbs| - 1], c, db)
    ensures InRun(fa, dbs + [db], cs + [c])
  {
    var ds, es := dbs + [db], cs + [c];
    forall i | 0 <= i < |es| ensures Does(fa, ds[i], es[i], ds[i + 1]) {
      if i < |cs| {
        assert Does(fa, dbs[i], cs[i], dbs[i + 1]);
      }
    }
  }

  lemma {:induction false} LastOk(fa: FloatArith, dbs: seq<Db>, cs: seq<Command>)
    requires InRun(fa, dbs, cs)
    ensures |dbs| > 0 && DbOk(dbs[|dbs| - 1])
  {
    RunsStayWhole(fa, dbs, cs, |cs|);
  }

  lemma {:induction false} LastReady(fa: FloatArith, dbs: seq<Db>, cs: seq<Command>, i: nat)
    requires InRun(fa, dbs, cs) && i < |dbs[|dbs| - 1].tables| && !dbs[|dbs| - 1].torn
    ensures var db := dbs[|dbs| - 1]; Ready(db, i) && WholeTable(db.data, db.tables[i])
  {
    LastOk(fa, dbs, cs);
    var db := dbs[|dbs| - 1];
    assert WholeTable(db.data, db.tables[i]);
    Statements.RowsOkTyped(db.tables[i].s, db.tables[i].rows, db.tables[i].next);
  }

  lemma {:induction false} DeleteIsRan(fa: FloatArith, db: Db, i: nat, where: Option<Expr>, l: Loaded,
                                       count: Option<nat>, d: Data, t: TableState)
    requires Ready(db, i) && DeleteRan(fa, db.data, db.tables[i], db.saved.None?, where, l, count, d, t)
    ensures Ran(fa, db, DeleteCmd(i, where, l, count), d, i, t)
  {
  }

  predicate Statement(c: Command) { !c.BeginCmd? && !c.CommitCmd? && !c.RollbackCmd? }

  ghost function AfterStatement(fa: FloatArith, db: Db, c: Command, d: Data, t: TableState): Db
    requires Statement(c) && c.table < |db.tables|
  {
    Db(d, db.tables[c.table := t], db.saved, Tears(fa, db, c))
  }

  lemma {:induction false} StatementDoes(fa: FloatArith, db: Db, c: Command, d: Data, t: TableState)
    requires Statement(c) && Ready(db, c.table) && !db.torn && Ran(fa, db, c, d, c.table, t)
    ensures Does(fa, db, c, AfterStatement(fa, db, c, d, t)) && t.s == db.tables[c.table].s
  {
  }

  /** Opening the store after a crash. The tables that the committed data stood for are whole again, under the row
      numbers that the catalog has on disk, if and only if these are above all numbers of their rows. */
  method Reopen(targets: set<Bytes>, disk: Data, log: seq<Record>, ghost past: Past, ghost s: Sys,
                ghost ts: seq<TableState>, ghost ms: seq<nat>)
    returns (r: Option<Store>)
    requires Reached(past, s) && s.phase.Down? && s.data == disk && s.log == log
    requires Databases.Whole(CommittedBy(past.events), ts) && |ms| == |ts|
    ensures r.Some? <==> NoOversizeCommit(log)
    ensures r.Some? ==> fresh(r.value) && r.value.Valid() && !r.value.locked && r.value.data == r.value.Committed()
    ensures r.Some? ==> (Databases.Whole(r.value.data, Numbered(ts, ms)) <==> NumbersCover(ts, ms))
  {
    r := Replaying.Open(targets, disk, log, past, s);
    NumberedWholeIff(CommittedBy(past.events), ts, ms);
  }
}
