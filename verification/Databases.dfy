/** A database of several tables under any run of commands: which commands keep heaps, indexes and uniqueness in
    step. */
module Databases {
  import opened Bytes
  import opened Entries
  import opened Recovery
  import opened Expressions
  import opened Tables
  import opened Targets
  import opened RowStatements
  import opened RowBuilding
  import opened Loading
  import opened Inserts
  import opened Updates
  import opened UpdateMeaning
  import opened Statements

  /** A table as its rows: what its heap and indexes should show, and its next row number. */
  datatype TableState = TableState(s: Schema, rows: RowMap, next: nat)

  ghost predicate WholeTable(d: Data, t: TableState) { Consistent(d, t.s, t.rows, t.next) }

  ghost predicate Whole(d: Data, ts: seq<TableState>) { forall i :: 0 <= i < |ts| ==> WholeTable(d, ts[i]) }

  /** The tables share no tree. */
  ghost predicate Separate(ts: seq<TableState>) {
    forall i, j :: 0 <= i < |ts| && 0 <= j < |ts| && i != j ==> TreesOf(ts[i].s) !! TreesOf(ts[j].s)
  }

  function Schemas(ts: seq<TableState>): (cat: seq<Schema>)
    ensures |cat| == |ts| && forall i :: 0 <= i < |ts| ==> cat[i] == ts[i].s
  {
    seq(|ts|, i requires 0 <= i < |ts| => ts[i].s)
  }

  /** A catalog whose indexed tables have no colon in their names separates its tables, and all their targets lead to
      their own trees. */
  lemma {:induction false} PlainNamesSeparate(ts: seq<TableState>)
    requires CatalogOk(Schemas(ts)) && forall i :: 0 <= i < |ts| ==> ts[i].s.indexes == [] || Plain(ts[i].s.name)
    ensures Separate(ts)
    ensures forall i, j :: 0 <= i < |ts| && 0 <= j < |ts[i].s.indexes| ==>
              TreeAt(Schemas(ts), Target(ts[i].s, j)) == Some(IndexOf(i, j))
  {
    var cat := Schemas(ts);
    forall i, j | 0 <= i < |ts| && 0 <= j < |ts| && i != j ensures TreesOf(ts[i].s) !! TreesOf(ts[j].s) {
      assert cat[i].name != cat[j].name;
      TreesDisjoint(ts[i].s, ts[j].s);
    }
    forall i, j | 0 <= i < |ts| && 0 <= j < |ts[i].s.indexes|
      ensures TreeAt(cat, Target(ts[i].s, j)) == Some(IndexOf(i, j))
    {
      IndexResolvesIff(cat, i, j);
    }
  }

  // ---- Frames --------------------------------------------------------------

  lemma {:induction false} OthersAt(d: Data, d': Data, s: Schema, l: Loc)
    requires Others(d', s) == Others(d, s) && l.target !in TreesOf(s)
    ensures At(d', l) == At(d, l)
  {
    assert l in d <==> l in Others(d, s);
    assert l in d' <==> l in Others(d', s);
    if l in d {
      assert d[l] == Others(d, s)[l] == Others(d', s)[l] == d'[l];
    }
  }

  /** Work on one table leaves another whole. */
  lemma {:induction false} OtherTableKept(d: Data, d': Data, s: Schema, t: TableState)
    requires Others(d', s) == Others(d, s) && TreesOf(s) !! TreesOf(t.s) && WholeTable(d, t)
    ensures WholeTable(d', t)
  {
    forall k: Bytes ensures At(d', Loc(TableTarget(t.s.name), k)) == At(d, Loc(TableTarget(t.s.name), k)) {
      assert TableTarget(t.s.name) in TreesOf(t.s);
      OthersAt(d, d', s, Loc(TableTarget(t.s.name), k));
    }
    assert HeapAgrees(d', t.s, t.rows);
    forall i | 0 <= i < |t.s.indexes| ensures IndexAgrees(d', t.s, i, t.rows) {
      assert IndexAgrees(d, t.s, i, t.rows);
      OtherIndexKept(d, d', s, t.s, i, t.rows);
    }
  }

  lemma {:induction false} OtherIndexKept(d: Data, d': Data, s: Schema, t: Schema, i: nat, rows: RowMap)
    requires Others(d', s) == Others(d, s) && TreesOf(s) !! TreesOf(t) && SchemaOk(t) && i < |t.indexes|
             && IndexAgrees(d, t, i, rows)
    ensures IndexAgrees(d', t, i, rows)
  {
    assert Target(t, i) in TreesOf(t);
    forall k: Bytes ensures At(d', Loc(Target(t, i), k)) == IndexAt(rows, IndexColumn(t, i), k) {
      OthersAt(d, d', s, Loc(Target(t, i), k));
      assert At(d, Loc(Target(t, i), k)) == IndexAt(rows, IndexColumn(t, i), k);
    }
  }

  /** After work on table i the database is whole exactly when that table is. */
  lemma {:induction false} WholeIff(d: Data, d': Data, ts: seq<TableState>, i: nat, t: TableState)
    requires i < |ts| && Separate(ts) && Whole(d, ts) && Others(d', ts[i].s) == Others(d, ts[i].s) && t.s == ts[i].s
    ensures Whole(d', ts[i := t]) <==> WholeTable(d', t)
    ensures Separate(ts[i := t])
  {
    var after := ts[i := t];
    assert after[i] == t;
    if WholeTable(d', t) {
      forall j | 0 <= j < |after| ensures WholeTable(d', after[j]) {
        if j != i {
          assert WholeTable(d, ts[j]) && TreesOf(ts[i].s) !! TreesOf(ts[j].s);
          OtherTableKept(d, d', ts[i].s, ts[j]);
        }
      }
    }
    forall j, k | 0 <= j < |after| && 0 <= k < |after| && j != k ensures TreesOf(after[j].s) !! TreesOf(after[k].s) {
      assert TreesOf(ts[j].s) !! TreesOf(ts[k].s);
    }
  }

  // ---- One statement on one table ------------------------------------------

  /** The rows an INSERT gets in before a list fails. */
  ghost function RowsIn(fa: FloatArith, t: TableState, columns: seq<Bytes>, lists: seq<seq<Expr>>): RowMap
    requires SchemaOk(t.s)
  {
    var pos := Positions(t.s, ListedNames(t.s, columns));
    if pos.None? then t.rows else
    var step := StepsOf(Insert(fa, t.s, pos.value, lists, t.next));
    Fold(step, t.rows, Reach(step, t.rows, |lists|)).value
  }

  /** An INSERT in an open transaction tears the table when a list fails after the first index took the row's entry. */
  ghost predicate InsertTore(fa: FloatArith, t: TableState, alone: bool, columns: seq<Bytes>, lists: seq<seq<Expr>>)
    requires SchemaOk(t.s)
  {
    var pos := Positions(t.s, ListedNames(t.s, columns));
    && !alone && pos.Some?
    && var i := Reach(StepsOf(Insert(fa, t.s, pos.value, lists, t.next)), t.rows, |lists|);
       i < |lists| && ListTears(fa, t.s, pos.value, lists[i], RowsIn(fa, t, columns, lists), t.next + i)
  }

  /** What an INSERT has done to the store and its table. On its own a failed one is undone, except for row numbers. */
  ghost predicate InsertRan(fa: FloatArith, d: Data, t: TableState, alone: bool, columns: seq<Bytes>,
                            lists: seq<seq<Expr>>, count: Option<nat>, d': Data, t': TableState)
    requires SchemaOk(t.s)
  {
    && t'.s == t.s && t.next <= t'.next && Others(d', t.s) == Others(d, t.s)
    && if alone && count.None? then d' == d && t'.rows == t.rows
       else t'.rows == RowsIn(fa, t, columns, lists)
            && InsertDone(d, d', fa, t.s, columns, lists, t.rows, t.next, t'.next, count)
  }

  lemma {:induction false} OutIsNotWhole(d: Data, t: TableState)
    requires SchemaOk(t.s) && OutOfStep(d, t.s)
    ensures !WholeTable(d, t)
  {
  }

  lemma {:induction false} InsertWholeIff(fa: FloatArith, d: Data, t: TableState, alone: bool, columns: seq<Bytes>,
                                          lists: seq<seq<Expr>>, count: Option<nat>, d': Data, t': TableState)
    requires WholeTable(d, t) && InsertRan(fa, d, t, alone, columns, lists, count, d', t')
    ensures WholeTable(d', t') <==> !InsertTore(fa, t, alone, columns, lists)
  {
    var pos := Positions(t.s, ListedNames(t.s, columns));
    if (alone && count.None?) || pos.None? {
      LaterNumbers(t.s, t.rows, t.next, t'.next);
    } else {
      InsertReported(fa, d', t, alone, columns, lists, count, t', pos.value);
    }
  }

  lemma {:induction false} InsertReported(fa: FloatArith, d': Data, t: TableState, alone: bool, columns: seq<Bytes>,
                                          lists: seq<seq<Expr>>, count: Option<nat>, t': TableState, pos: seq<nat>)
    requires SchemaOk(t.s) && Positions(t.s, ListedNames(t.s, columns)) == Some(pos)
    requires t'.s == t.s && t'.rows == RowsIn(fa, t, columns, lists) && (alone ==> count.Some?)
    requires InsertReport(d', Insert(fa, t.s, pos, lists, t.next), t.rows, t'.next, count)
    ensures WholeTable(d', t') <==> !InsertTore(fa, t, alone, columns, lists)
  {
    if InsertTore(fa, t, alone, columns, lists) {
      OutIsNotWhole(d', t');
    }
  }

  function UpdateOf(fa: FloatArith, s: Schema, sets: seq<Assignment>, where: Option<Expr>): (u: Option<Update>)
  {
    var pos := Positions(s, SetNames(sets));
    if pos.None? then None else Some(Update(fa, s, s.name, where, pos.value, SetValues(sets)))
  }

  /** The rows that an UPDATE gets through. */
  ghost function RowsSeen(u: Update, l: Loaded, rows: RowMap): set<Bytes>
    requires UpdateOk(u)
  {
    KeySet(l.keys[..Through(u, l, rows)])
  }

  /** An UPDATE tears the table when it stops in an open transaction with indexes changed, or leaves an index behind
      on a row it got through and is not undone. */
  ghost predicate UpdateTore(fa: FloatArith, t: TableState, alone: bool, sets: seq<Assignment>, where: Option<Expr>,
                             l: Loaded)
    requires SchemaOk(t.s) && RowsTyped(t.s, t.rows)
  {
    var u := UpdateOf(fa, t.s, sets, where);
    && u.Some?
    && (!alone || Through(u.value, l, t.rows) == |l.keys|)
    && (StopsTorn(u.value, l, t.rows) || !AllFollowed(u.value, t.rows, RowsSeen(u.value, l, t.rows)))
  }

  ghost function RowsAfter(fa: FloatArith, t: TableState, sets: seq<Assignment>, where: Option<Expr>, l: Loaded): RowMap
    requires SchemaOk(t.s) && RowsTyped(t.s, t.rows)
  {
    var u := UpdateOf(fa, t.s, sets, where);
    if u.None? then t.rows else UpdatedRows(u.value, t.rows, RowsSeen(u.value, l, t.rows))
  }

  ghost predicate UpdateRan(fa: FloatArith, d: Data, t: TableState, alone: bool, sets: seq<Assignment>,
                            where: Option<Expr>, l: Loaded, count: Option<nat>, d': Data, t': TableState)
    requires SchemaOk(t.s) && RowsTyped(t.s, t.rows)
  {
    && t'.s == t.s && t'.next == t.next && Others(d', t.s) == Others(d, t.s)
    && LoadsKeys(d, t.s, where, t.s.name, l.keys) && LoadedOk(t.s, t.rows, l)
    && (count.Some? <==> UpdateOf(fa, t.s, sets, where).Some?
                         && Through(UpdateOf(fa, t.s, sets, where).value, l, t.rows) == |l.keys|)
    && if alone && count.None? then d' == d && t'.rows == t.rows
       else t'.rows == RowsAfter(fa, t, sets, where, l)
            && UpdateReport(d, d', fa, t.s, sets, where, l, t.rows, t.next, count)
  }

  lemma {:induction false} UpdateWholeIff(fa: FloatArith, d: Data, t: TableState, alone: bool, sets: seq<Assignment>,
                                          where: Option<Expr>, l: Loaded, count: Option<nat>, d': Data, t': TableState)
    requires WholeTable(d, t) && RowsTyped(t.s, t.rows) && UpdateRan(fa, d, t, alone, sets, where, l, count, d', t')
    ensures WholeTable(d', t') <==> !UpdateTore(fa, t, alone, sets, where, l)
  {
    var u := UpdateOf(fa, t.s, sets, where);
    if u.Some? && !(alone && count.None?) {
      if StopsTorn(u.value, l, t.rows) {
        OutIsNotWhole(d', t');
      }
    }
  }

  /** The rows that a DELETE removes before it stops. */
  ghost function RowsLeft(fa: FloatArith, t: TableState, where: Option<Expr>, l: Loaded): RowMap
    requires |l.keys| == |l.vals|
  {
    t.rows - Gone(fa, t.s, where, l, t.rows, JudgedTo(fa, t.s, where, l, |l.vals|))
  }

  ghost predicate DeleteRan(fa: FloatArith, d: Data, t: TableState, alone: bool, where: Option<Expr>, l: Loaded,
                            count: Option<nat>, d': Data, t': TableState)
    requires SchemaOk(t.s)
  {
    && t'.s == t.s && t'.next == t.next && Others(d', t.s) == Others(d, t.s)
    && LoadsKeys(d, t.s, where, t.s.name, l.keys) && LoadedOk(t.s, t.rows, l)
    && if alone && count.None? then d' == d && t'.rows == t.rows
       else t'.rows == RowsLeft(fa, t, where, l) && DeleteDone(d', fa, t.s, where, l, t.rows, t.next, count)
  }

  // ---- Commands ------------------------------------------------------------

  datatype Command =
    | BeginCmd
    | CommitCmd
    | RollbackCmd
    | InsertCmd(table: nat, columns: seq<Bytes>, lists: seq<seq<Expr>>, count: Option<nat>)
    | UpdateCmd(table: nat, sets: seq<Assignment>, where: Option<Expr>, l: Loaded, count: Option<nat>)
    | DeleteCmd(table: nat, where: Option<Expr>, l: Loaded, count: Option<nat>)

  /** What BEGIN puts aside: the committed data, the rows they stand for, and whether they are torn. */
  datatype Saved = Saved(data: Data, rows: seq<RowMap>, torn: bool)

  /** The data as the session sees them, the tables, the state to go back to if a transaction is open, and whether some
      command has torn a table. */
  datatype Db = Db(data: Data, tables: seq<TableState>, saved: Option<Saved>, torn: bool)

  function RowsOf(ts: seq<TableState>): (rs: seq<RowMap>)
    ensures |rs| == |ts| && forall i :: 0 <= i < |ts| ==> rs[i] == ts[i].rows
  {
    seq(|ts|, i requires 0 <= i < |ts| => ts[i].rows)
  }

  function WithRows(ts: seq<TableState>, rs: seq<RowMap>): (us: seq<TableState>)
    requires |rs| == |ts|
    ensures |us| == |ts| && forall i :: 0 <= i < |ts| ==> us[i] == ts[i].(rows := rs[i])
  {
    seq(|ts|, i requires 0 <= i < |ts| => ts[i].(rows := rs[i]))
  }

  ghost predicate Ready(db: Db, i: nat) {
    i < |db.tables| && SchemaOk(db.tables[i].s) && RowsTyped(db.tables[i].s, db.tables[i].rows)
  }

  /** Whether a statement tears its table: decided by the table's rows and the statement alone. */
  ghost predicate Tears(fa: FloatArith, db: Db, c: Command) {
    match c
    case InsertCmd(i, columns, lists, _) => Ready(db, i) && InsertTore(fa, db.tables[i], db.saved.None?, columns, lists)
    case UpdateCmd(i, sets, where, l, _) => Ready(db, i) && UpdateTore(fa, db.tables[i], db.saved.None?, sets, where, l)
    case _ => false
  }

  /** What a statement on table i has done when no table is torn. */
  ghost predicate Ran(fa: FloatArith, db: Db, c: Command, d': Data, i: nat, t': TableState)
    requires Ready(db, i)
  {
    var t, alone := db.tables[i], db.saved.None?;
    match c
    case InsertCmd(j, columns, lists, count) => j == i
      && InsertRan(fa, db.data, t, alone, columns, lists, count, d', t')
    case UpdateCmd(j, sets, where, l, count) => j == i
      && UpdateRan(fa, db.data, t, alone, sets, where, l, count, d', t')
    case DeleteCmd(j, where, l, count) => j == i && DeleteRan(fa, db.data, t, alone, where, l, count, d', t')
    case _ => false
  }

  /** One command. On a torn table nothing is promised of a statement but that it leaves the saved state alone. */
  ghost predicate Does(fa: FloatArith, db: Db, c: Command, db': Db) {
    match c
    case BeginCmd =>
      if db.saved.Some? then db' == db else db' == db.(saved := Some(Saved(db.data, RowsOf(db.tables), db.torn)))
    case CommitCmd => db' == db.(saved := None)
    case RollbackCmd =>
      if db.saved.None? then db' == db
      else |db.saved.value.rows| == |db.tables|
           && db' == Db(db.saved.value.data, WithRows(db.tables, db.saved.value.rows), None, db.saved.value.torn)
    case _ =>
      db'.saved == db.saved
      && if db.torn then db'.torn && SameSchemas(db.tables, db'.tables)
         else db'.torn == Tears(fa, db, c) && Ready(db, c.table) && c.table < |db'.tables|
              && Ran(fa, db, c, db'.data, c.table, db'.tables[c.table])
              && db'.tables == db.tables[c.table := db'.tables[c.table]]
  }

  /** The definitions stay and row numbers only go up. */
  ghost predicate SameSchemas(ts: seq<TableState>, us: seq<TableState>) {
    |ts| == |us| && forall i :: 0 <= i < |ts| ==> us[i].s == ts[i].s && ts[i].next <= us[i].next
  }

  /** Unless it is torn, the database is whole; and so is what a rollback would bring back. */
  ghost predicate DbOk(db: Db) {
    && Separate(db.tables)
    && (!db.torn ==> Whole(db.data, db.tables))
    && (db.saved.Some? ==> |db.saved.value.rows| == |db.tables|)
    && (db.saved.Some? && !db.saved.value.torn ==> Whole(db.saved.value.data, WithRows(db.tables, db.saved.value.rows)))
  }

  lemma {:induction false} RanKeeps(fa: FloatArith, db: Db, c: Command, d': Data, i: nat, t': TableState)
    requires Ready(db, i) && Ran(fa, db, c, d', i, t') && WholeTable(db.data, db.tables[i])
    ensures t'.s == db.tables[i].s && db.tables[i].next <= t'.next && Others(d', t'.s) == Others(db.data, t'.s)
    ensures WholeTable(d', t') <==> !Tears(fa, db, c)
  {
    var t, alone := db.tables[i], db.saved.None?;
    match c
    case InsertCmd(_, columns, lists, count) => InsertWholeIff(fa, db.data, t, alone, columns, lists, count, d', t');
    case UpdateCmd(_, sets, where, l, count) => UpdateWholeIff(fa, db.data, t, alone, sets, where, l, count, d', t');
    case DeleteCmd(_, where, l, count) =>
  }

  /** One statement on a whole database leaves it whole exactly when the statement does not tear its table. */
  lemma {:induction false} StatementWholeIff(fa: FloatArith, db: Db, c: Command, db': Db)
    requires DbOk(db) && !db.torn && Does(fa, db, c, db') && !c.BeginCmd? && !c.CommitCmd? && !c.RollbackCmd?
    ensures Whole(db'.data, db'.tables) <==> !Tears(fa, db, c)
    ensures Separate(db'.tables) && SameSchemas(db.tables, db'.tables)
  {
    var i := c.table;
    var t' := db'.tables[i];
    assert WholeTable(db.data, db.tables[i]);
    RanKeeps(fa, db, c, db'.data, i, t');
    WholeIff(db.data, db'.data, db.tables, i, t');
  }

  /** Later row numbers and unchanged definitions keep the saved state good. */
  lemma {:induction false} SavedKept(d: Data, ts: seq<TableState>, us: seq<TableState>, rs: seq<RowMap>)
    requires SameSchemas(ts, us) && |rs| == |ts| && Whole(d, WithRows(ts, rs))
    ensures Whole(d, WithRows(us, rs))
  {
    forall i | 0 <= i < |us| ensures WholeTable(d, WithRows(us, rs)[i]) {
      assert WholeTable(d, WithRows(ts, rs)[i]);
      LaterNumbers(ts[i].s, rs[i], ts[i].next, us[i].next);
    }
  }

  lemma {:induction false} SeparateKept(ts: seq<TableState>, us: seq<TableState>)
    requires SameSchemas(ts, us) && Separate(ts)
    ensures Separate(us)
  {
    forall i, j | 0 <= i < |us| && 0 <= j < |us| && i != j ensures TreesOf(us[i].s) !! TreesOf(us[j].s) {
      assert TreesOf(ts[i].s) !! TreesOf(ts[j].s);
    }
  }

  lemma {:induction false} StatementKeeps(fa: FloatArith, db: Db, c: Command, db': Db)
    requires DbOk(db) && Does(fa, db, c, db') && !c.BeginCmd? && !c.CommitCmd? && !c.RollbackCmd?
    ensures DbOk(db')
  {
    if !db.torn {
      StatementWholeIff(fa, db, c, db');
    }
    SeparateKept(db.tables, db'.tables);
    if db.saved.Some? && !db.saved.value.torn {
      SavedKept(db.saved.value.data, db.tables, db'.tables, db.saved.value.rows);
    }
  }

  lemma {:induction false} CommandKeeps(fa: FloatArith, db: Db, c: Command, db': Db)
    requires DbOk(db) && Does(fa, db, c, db')
    ensures DbOk(db')
  {
    match c
    case BeginCmd =>
      if db.saved.None? {
        assert WithRows(db.tables, RowsOf(db.tables)) == db.tables;
      }
    case CommitCmd =>
    case RollbackCmd =>
      if db.saved.Some? {
        var back := WithRows(db.tables, db.saved.value.rows);
        SeparateKept(db.tables, back);
      }
    case _ => StatementKeeps(fa, db, c, db');
  }

  /** The states of a run, one more than its commands. */
  ghost predicate IsTrace(fa: FloatArith, dbs: seq<Db>, cs: seq<Command>) {
    |dbs| == |cs| + 1 && forall i :: 0 <= i < |cs| ==> Does(fa, dbs[i], cs[i], dbs[i + 1])
  }

  /** In every run over any number of tables, every state that is not torn has heaps, indexes and unique columns in
      step, and a rollback goes back to such a state. */
  lemma {:induction false} RunsStayWhole(fa: FloatArith, dbs: seq<Db>, cs: seq<Command>, n: nat)
    requires IsTrace(fa, dbs, cs) && DbOk(dbs[0]) && n <= |cs|
    ensures DbOk(dbs[n])
  {
    if n != 0 {
      RunsStayWhole(fa, dbs, cs, n - 1);
      assert Does(fa, dbs[n - 1], cs[n - 1], dbs[n]);
      CommandKeeps(fa, dbs[n - 1], cs[n - 1], dbs[n]);
    }
  }

  /** A run in which no statement tears a table is whole throughout. */
  lemma {:induction false} CleanRunsWhole(fa: FloatArith, dbs: seq<Db>, cs: seq<Command>, n: nat)
    requires IsTrace(fa, dbs, cs) && n <= |cs| && DbOk(dbs[0]) && !dbs[0].torn && dbs[0].saved.None?
    requires forall i :: 0 <= i < n ==> !Tears(fa, dbs[i], cs[i])
    ensures Whole(dbs[n].data, dbs[n].tables) && !dbs[n].torn
    ensures dbs[n].saved.Some? ==> !dbs[n].saved.value.torn
  {
    if n != 0 {
      CleanRunsWhole(fa, dbs, cs, n - 1);
      assert Does(fa, dbs[n - 1], cs[n - 1], dbs[n]);
    }
    RunsStayWhole(fa, dbs, cs, n);
  }

  // ---- After a crash -------------------------------------------------------

  /** The tables with the row numbers that the catalog on disk has for them. */
  function Numbered(ts: seq<TableState>, ms: seq<nat>): (us: seq<TableState>)
    requires |ms| == |ts|
    ensures |us| == |ts| && forall i :: 0 <= i < |ts| ==> us[i] == ts[i].(next := ms[i])
  {
    seq(|ts|, i requires 0 <= i < |ts| => ts[i].(next := ms[i]))
  }

  ghost predicate NumberCovers(t: TableState, m: nat) { forall rk :: rk in t.rows ==> |rk| == 8 && U64(rk, 0) < m }

  ghost predicate NumbersCover(ts: seq<TableState>, ms: seq<nat>)
    requires |ms| == |ts|
  {
    forall i :: 0 <= i < |ts| ==> NumberCovers(ts[i], ms[i])
  }

  /** Row numbers are saved without a log record. Tables that were whole are whole under the saved numbers exactly when
      no row that recovery brought back has a number that is to be given out again. */
  lemma {:induction false} NumberedWholeIff(d: Data, ts: seq<TableState>, ms: seq<nat>)
    requires Whole(d, ts) && |ms| == |ts|
    ensures Whole(d, Numbered(ts, ms)) <==> NumbersCover(ts, ms)
    ensures (forall i :: 0 <= i < |ts| ==> ts[i].next <= ms[i]) ==> NumbersCover(ts, ms)
  {
    forall i | 0 <= i < |ts| ensures WholeTable(d, Numbered(ts, ms)[i]) <==> NumberCovers(ts[i], ms[i])
      ensures ts[i].next <= ms[i] ==> NumberCovers(ts[i], ms[i])
    {
      assert WholeTable(d, ts[i]);
      NumberedTableIff(d, ts[i], ms[i]);
    }
    var us := Numbered(ts, ms);
    if Whole(d, us) {
      forall i | 0 <= i < |ts| ensures NumberCovers(ts[i], ms[i]) {
        assert WholeTable(d, us[i]);
      }
    }
  }

  lemma {:induction false} NumberedTableIff(d: Data, t: TableState, m: nat)
    requires WholeTable(d, t)
    ensures WholeTable(d, t.(next := m)) <==> NumberCovers(t, m)
    ensures t.next <= m ==> NumberCovers(t, m)
  {
    forall rk | rk in t.rows ensures RowOk(t.s, rk, t.rows[rk]) && U64(rk, 0) < t.next {
    }
  }
}
