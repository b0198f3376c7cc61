/** INSERT: rows are built, numbered and written one after another. */
module Inserts {
  import opened Bytes
  import opened Entries
  import opened Recovery
  import opened Transactions
  import opened Values
  import opened Rows
  import opened Expressions
  import opened Tables
  import opened RowStatements
  import opened RowBuilding

  /** Heap and indexes agree, row numbers are below the next one, and unique columns are unique. */
  ghost predicate Consistent(d: Data, s: Schema, rows: RowMap, nextRow: nat) {
    SchemaOk(s) && Agrees(d, s, rows) && RowsOk(s, rows, nextRow) && UniqueOk(s, rows)
  }

  /** A table's definition, with the number of its next row. */
  class Table {
    var schema: Schema
    var nextRow: nat

    constructor (schema: Schema)
      ensures this.schema == schema && nextRow == 0
    {
      this.schema, nextRow := schema, 0;
    }
  }

  // ---- The statement -------------------------------------------------------

  /** The row built for the VALUES list of a row. */
  function ListedRow(fa: FloatArith, s: Schema, pos: seq<nat>, es: seq<Expr>): (v: Option<Row>)
    requires forall i :: 0 <= i < |pos| ==> pos[i] < |s.columns|
    ensures v.Some? ==> Typed(v.value, Types(s))
  {
    if |es| != |pos| then None else BuiltRow(fa, s, [], pos, es, Blank(s))
  }

  /** A step taken n times, until one of them fails. */
  ghost function Fold<S>(step: (S, nat) -> Option<S>, start: S, n: nat): Option<S> {
    if n == 0 then Some(start) else
    var p := Fold(step, start, n - 1);
    if p.None? then None else step(p.value, n - 1)
  }

  lemma {:induction false} FoldFails<S>(step: (S, nat) -> Option<S>, start: S, m: nat, n: nat)
    requires m <= n && Fold(step, start, m).None?
    ensures Fold(step, start, n).None?
    decreases n
  {
    if m < n {
      FoldFails(step, start, m, n - 1);
    }
  }

  /** Step i keeps the invariant. */
  ghost predicate Keeps<S>(step: (S, nat) -> Option<S>, inv: (S, nat) -> bool, x: S, i: nat) {
    inv(x, i) && step(x, i).Some? ==> inv(step(x, i).value, i + 1)
  }

  lemma {:induction false} FoldKeeps<S(!new)>(step: (S, nat) -> Option<S>, inv: (S, nat) -> bool, start: S, n: nat)
    requires inv(start, 0) && (forall x, i :: 0 <= i < n ==> Keeps(step, inv, x, i)) && Fold(step, start, n).Some?
    ensures inv(Fold(step, start, n).value, n)
  {
    if n > 0 {
      FoldKeeps(step, inv, start, n - 1);
      assert Keeps(step, inv, Fold(step, start, n - 1).value, n - 1);
    }
  }

  /** How many steps can be taken, at most n. */
  ghost function Reach<S>(step: (S, nat) -> Option<S>, start: S, n: nat): (i: nat)
    ensures i <= n && Fold(step, start, i).Some? && (i < n ==> Fold(step, start, i + 1).None?)
  {
    if n == 0 then 0 else if Fold(step, start, n).Some? then n else Reach(step, start, n - 1)
  }

  lemma {:induction false} ReachIs<S>(step: (S, nat) -> Option<S>, start: S, i: nat, n: nat)
    requires i <= n && Fold(step, start, i).Some? && (i < n ==> Fold(step, start, i + 1).None?)
    ensures Reach(step, start, n) == i
    decreases n
  {
    if i < n {
      FoldFails(step, start, i + 1, n);
      ReachIs(step, start, i, n - 1);
    }
  }

  /** The rows of the table after one more row of the statement, which gets number `number`. */
  ghost function WithListed(fa: FloatArith, s: Schema, pos: seq<nat>, es: seq<Expr>, rows: RowMap,
                            number: nat): Option<RowMap>
    requires SchemaOk(s) && forall i :: 0 <= i < |pos| ==> pos[i] < |s.columns|
  {
    var r := ListedRow(fa, s, pos, es);
    if r.None? || !Insertable(s, rows, U64Bytes(number), r.value) then None else Some(rows[U64Bytes(number) := r.value])
  }

  ghost function InsertStep(fa: FloatArith, s: Schema, pos: seq<nat>, lists: seq<seq<Expr>>, next: nat)
    : (RowMap, nat) -> Option<RowMap>
    requires SchemaOk(s) && forall i :: 0 <= i < |pos| ==> pos[i] < |s.columns|
  {
    (rows: RowMap, i: nat) => WithNext(fa, s, pos, lists, rows, i, next + i)
  }

  ghost function WithNext(fa: FloatArith, s: Schema, pos: seq<nat>, lists: seq<seq<Expr>>, rows: RowMap, i: nat,
                          number: nat): Option<RowMap>
    requires SchemaOk(s) && forall i :: 0 <= i < |pos| ==> pos[i] < |s.columns|
  {
    if i < |lists| then WithListed(fa, s, pos, lists[i], rows, number) else None
  }

  lemma {:induction false} StepIs(fa: FloatArith, s: Schema, pos: seq<nat>, lists: seq<seq<Expr>>, next: nat,
                                  rows: RowMap, i: nat, n: nat, after: Option<RowMap>)
    requires SchemaOk(s) && i < |lists| && forall i :: 0 <= i < |pos| ==> pos[i] < |s.columns|
    requires n == next + i && after == InsertStep(fa, s, pos, lists, next)(rows, i)
    ensures after == WithListed(fa, s, pos, lists[i], rows, n)
  {
    StepIsNext(fa, s, pos, lists, next, rows, i, n, InsertStep(fa, s, pos, lists, next));
  }

  lemma {:induction false} StepIsNext(fa: FloatArith, s: Schema, pos: seq<nat>, lists: seq<seq<Expr>>, next: nat,
                                      rows: RowMap, i: nat, n: nat, step: (RowMap, nat) -> Option<RowMap>)
    requires SchemaOk(s) && n == next + i && forall i :: 0 <= i < |pos| ==> pos[i] < |s.columns|
    requires step == InsertStep(fa, s, pos, lists, next)
    ensures step(rows, i) == WithNext(fa, s, pos, lists, rows, i, n)
  {
  }

  lemma {:induction false} NumberIsFresh(s: Schema, rows: RowMap, n: nat)
    requires RowsOk(s, rows, n) && n < TWO64
    ensures U64Bytes(n) !in rows && U64(U64Bytes(n), 0) == n
  {
    U64RoundTrip(n);
  }

  /** A row with the value has a key that starts with the value's sort key, so the probe misses no duplicate. */
  lemma {:induction false} RowMeansKey(s: Schema, i: nat, rows: RowMap, n: nat, v: Value)
    requires SchemaOk(s) && i < |s.indexes| && RowsOk(s, rows, n) && SomeRowWith(rows, IndexColumn(s, i), v)
    ensures RowsWithKey(rows, IndexColumn(s, i), SortKey(v))
  {
    var c := IndexColumn(s, i);
    var rk :| rk in rows && c < |rows[rk]| && SortKey(rows[rk][c]) == SortKey(v);
    assert RowOk(s, rk, rows[rk]);
    var k := IndexKey(rows[rk][c], rk);
    KeyEnds(rows[rk][c], rk);
    assert SortKey(v) <= k && IndexAt(rows, c, k) == Some(rk);
  }

  /** For the fixed-width types the probe hits only a true duplicate. */
  lemma {:induction false} KeyMeansRow(s: Schema, i: nat, rows: RowMap, n: nat, v: Value)
    requires SchemaOk(s) && i < |s.indexes| && RowsOk(s, rows, n)
    requires TypeOf(v) == Types(s)[IndexColumn(s, i)] && FixedWidth(TypeOf(v))
    ensures RowsWithKey(rows, IndexColumn(s, i), SortKey(v)) <==> SomeRowWith(rows, IndexColumn(s, i), v)
  {
    var c := IndexColumn(s, i);
    if RowsWithKey(rows, c, SortKey(v)) {
      var k: Bytes :| SortKey(v) <= k && IndexAt(rows, c, k).Some?;
      var rk := k[|k| - 8..];
      assert RowOk(s, rk, rows[rk]);
      FixedWidthPrefix(v, rows[rk][c], rk);
    }
    if SomeRowWith(rows, c, v) {
      RowMeansKey(s, i, rows, n, v);
    }
  }

  /** The text starts the index key of the row, which is the row's text and then its row key. */
  ghost predicate StartsKeyOf(v: Bytes, rows: RowMap, c: nat, rk: Bytes) {
    rk in rows && c < |rows[rk]| && rows[rk][c].TextV? && v <= rows[rk][c].s + rk
  }

  /** For TEXT the probe hits a row whose text, followed by its row key, starts with the value. It is wrong about the
      value exactly when there is such a row and none has the value. */
  lemma {:induction false} TextKeyIff(s: Schema, i: nat, rows: RowMap, n: nat, v: Bytes)
    requires SchemaOk(s) && i < |s.indexes| && RowsOk(s, rows, n) && Types(s)[IndexColumn(s, i)] == Text
    ensures var c := IndexColumn(s, i);
            && (RowsWithKey(rows, c, SortKey(TextV(v))) <==> exists rk :: StartsKeyOf(v, rows, c, rk))
            && (RowsWithKey(rows, c, SortKey(TextV(v))) && !SomeRowWith(rows, c, TextV(v)) <==>
                  (exists rk :: StartsKeyOf(v, rows, c, rk)) && forall rk :: rk in rows && c < |rows[rk]| ==>
                    rows[rk][c] != TextV(v))
  {
    var c := IndexColumn(s, i);
    if RowsWithKey(rows, c, SortKey(TextV(v))) {
      TextHit(s, rows, n, c, v);
    }
    if rk :| StartsKeyOf(v, rows, c, rk) {
      TextFound(s, rows, n, c, v, rk);
    }
    forall rk | rk in rows && c < |rows[rk]|
      ensures SortKey(rows[rk][c]) == SortKey(TextV(v)) <==> rows[rk][c] == TextV(v)
    {
      assert RowOk(s, rk, rows[rk]);
      EqualTextKeys(rows[rk][c], v);
    }
  }

  lemma {:induction false} TextHit(s: Schema, rows: RowMap, n: nat, c: nat, v: Bytes)
    requires RowsOk(s, rows, n) && c < |s.columns| && Types(s)[c] == Text && RowsWithKey(rows, c, SortKey(TextV(v)))
    ensures exists rk :: StartsKeyOf(v, rows, c, rk)
  {
    var k: Bytes :| SortKey(TextV(v)) <= k && IndexAt(rows, c, k).Some?;
    var rk := k[|k| - 8..];
    assert RowOk(s, rk, rows[rk]);
    TextKeyStarts(v, rows[rk][c], rk);
    assert StartsKeyOf(v, rows, c, rk);
  }

  lemma {:induction false} TextFound(s: Schema, rows: RowMap, n: nat, c: nat, v: Bytes, rk: Bytes)
    requires RowsOk(s, rows, n) && StartsKeyOf(v, rows, c, rk)
    ensures RowsWithKey(rows, c, SortKey(TextV(v)))
  {
    assert RowOk(s, rk, rows[rk]);
    var k := IndexKey(rows[rk][c], rk);
    KeyEnds(rows[rk][c], rk);
    TextKeyStarts(v, rows[rk][c], rk);
    assert SortKey(TextV(v)) <= k && IndexAt(rows, c, k) == Some(rk);
  }

  lemma {:induction false} TextKeyStarts(v: Bytes, w: Value, rk: Bytes)
    requires TypeOf(w) == Text
    ensures SortKey(TextV(v)) <= IndexKey(w, rk) <==> w.TextV? && v <= w.s + rk
  {
    var k := IndexKey(w, rk);
    if w.TextV? {
      assert k == [1] + (w.s + rk);
      assert SortKey(TextV(v)) == [1] + v;
      assert k[1..] == w.s + rk && SortKey(TextV(v))[1..] == v;
      if SortKey(TextV(v)) <= k {
        assert k[..1 + |v|] == [1] + v;
        assert k[1..][..|v|] == k[1..1 + |v|] == v;
      }
      if v <= w.s + rk {
        assert k[..1 + |v|] == [1] + (w.s + rk)[..|v|];
      }
    } else {
      assert k[0] == 0 && SortKey(TextV(v))[0] == 1;
    }
  }

  lemma {:induction false} EqualTextKeys(w: Value, v: Bytes)
    requires TypeOf(w) == Text
    ensures SortKey(w) == SortKey(TextV(v)) <==> w == TextV(v)
  {
    if w.TextV? {
      assert SortKey(w)[1..] == w.s && SortKey(TextV(v))[1..] == v;
    } else {
      assert SortKey(w)[0] == 0 && SortKey(TextV(v))[0] == 1;
    }
  }

  lemma {:induction false} InsertKeepsDistinct(s: Schema, i: nat, rows: RowMap, n: nat, rk: Bytes, r: Row)
    requires SchemaOk(s) && i < |s.indexes| && RowsOk(s, rows, n) && Distinct(rows, IndexColumn(s, i))
             && RowFits(s, rk, r)
    requires s.indexes[i].unique && EntryFits(s, i, rows, rk, r[IndexColumn(s, i)])
    ensures Distinct(rows[rk := r], IndexColumn(s, i))
  {
    var v := r[IndexColumn(s, i)];
    if SomeRowWith(rows, IndexColumn(s, i), v) {
      RowMeansKey(s, i, rows, n, v);
    }
    DistinctAdded(rows, IndexColumn(s, i), rk, r);
  }

  lemma {:induction false} InsertKeepsUnique(s: Schema, rows: RowMap, n: nat, rk: Bytes, r: Row)
    requires SchemaOk(s) && RowsOk(s, rows, n) && UniqueOk(s, rows) && RowFits(s, rk, r) && Insertable(s, rows, rk, r)
    ensures UniqueOk(s, rows[rk := r])
  {
    forall i | 0 <= i < |s.indexes| && s.indexes[i].unique ensures Distinct(rows[rk := r], IndexColumn(s, i)) {
      EntryFitsAt(s, i, rows, rk, r);
      InsertKeepsDistinct(s, i, rows, n, rk, r);
    }
  }

  lemma {:induction false} InsertKeeps(s: Schema, rows: RowMap, n: nat, rk: Bytes, r: Row, d: Data)
    requires SchemaOk(s) && RowsOk(s, rows, n) && UniqueOk(s, rows) && RowFits(s, rk, r) && Insertable(s, rows, rk, r)
    requires U64(rk, 0) == n && Agrees(d, s, rows[rk := r])
    ensures Consistent(d, s, rows[rk := r], n + 1)
  {
    InsertKeepsUnique(s, rows, n, rk, r);
  }

  /** A VALUES list that fails leaves entries of its row behind. */
  ghost predicate ListTears(fa: FloatArith, s: Schema, pos: seq<nat>, es: seq<Expr>, rows: RowMap, number: nat)
    requires SchemaOk(s) && forall i :: 0 <= i < |pos| ==> pos[i] < |s.columns|
  {
    var r := ListedRow(fa, s, pos, es);
    r.Some? && InsertTears(s, rows, U64Bytes(number), r.value)
  }

  /** One VALUES list: its row went in; or it did not, and the table is as before, or torn. A row that could be built
      has used up its number. */
  ghost predicate ListDone(after: Option<RowMap>, built: bool, tears: bool, d: Data, s: Schema, rows: RowMap, n: nat,
                           next: nat, ok: bool)
  {
    && (ok <==> after.Some?)
    && (ok ==> built) && next == (if built then n + 1 else n)
    && (ok ==> Consistent(d, s, after.value, next))
    && (!ok ==> if tears then SchemaOk(s) && OutOfStep(d, s) else Consistent(d, s, rows, next))
  }

  /** One VALUES list: a row that can be built takes the next number, whether or not it can be written. */
  method InsertList(t: Txn, tb: Table, fa: FloatArith, pos: seq<nat>, es: seq<Expr>, ghost rows: RowMap,
                    ghost after: Option<RowMap>)
    returns (ok: bool)
    requires t.Valid() && !t.done && Known(t.store.targets, tb.schema) && tb.nextRow < TWO64
    requires Consistent(t.store.data, tb.schema, rows, tb.nextRow)
    requires forall i :: 0 <= i < |pos| ==> pos[i] < |tb.schema.columns|
    requires after == WithListed(fa, tb.schema, pos, es, rows, tb.nextRow)
    modifies tb`nextRow, t`undo, t.store`data, t.store`log, t.store`state, t.store`past
    ensures t.Valid() && t.store.Committed() == old(t.store.Committed())
    ensures Others(t.store.data, tb.schema) == Others(old(t.store.data), tb.schema)
    ensures ListDone(after, ListedRow(fa, tb.schema, pos, es).Some?,
                     ListTears(fa, tb.schema, pos, es, rows, old(tb.nextRow)),
                     t.store.data, tb.schema, rows, old(tb.nextRow), tb.nextRow, ok)
  {
    if |es| != |pos| {
      return false;
    }
    var s := tb.schema;
    var r := BuildRow(fa, s, [], pos, es, Blank(s));
    if r.None? {
      return false;
    }
    assert ListedRow(fa, s, pos, es) == r;
    ok := InsertBuilt(t, tb, r.value, rows, after, ListTears(fa, s, pos, es, rows, tb.nextRow));
  }

  /** The second half: the row is numbered and written. */
  method InsertBuilt(t: Txn, tb: Table, r: Row, ghost rows: RowMap, ghost after: Option<RowMap>, ghost tears: bool)
    returns (ok: bool)
    requires t.Valid() && !t.done && Known(t.store.targets, tb.schema) && tb.nextRow < TWO64
    requires Consistent(t.store.data, tb.schema, rows, tb.nextRow) && Typed(r, Types(tb.schema))
    requires var rk := U64Bytes(tb.nextRow);
             && after == (if Insertable(tb.schema, rows, rk, r) then Some(rows[rk := r]) else None)
             && tears == InsertTears(tb.schema, rows, rk, r)
    modifies tb`nextRow, t`undo, t.store`data, t.store`log, t.store`state, t.store`past
    ensures t.Valid() && t.store.Committed() == old(t.store.Committed())
    ensures Others(t.store.data, tb.schema) == Others(old(t.store.data), tb.schema)
    ensures ListDone(after, true, tears, t.store.data, tb.schema, rows, old(tb.nextRow), tb.nextRow, ok)
  {
    var s := tb.schema;
    ghost var n, d := tb.nextRow, t.store.data;
    NumberIsFresh(s, rows, n);
    var rk := U64Bytes(tb.nextRow);
    tb.nextRow := tb.nextRow + 1;
    ok := InsertRow(t, s, rk, r, rows);
    ListEnds(d, t.store.data, s, rows, n, rk, r, ok);
  }

  lemma {:induction false} ListEnds(d0: Data, d: Data, s: Schema, rows: RowMap, n: nat, rk: Bytes, r: Row, ok: bool)
    requires Consistent(d0, s, rows, n) && RowFits(s, rk, r) && U64(rk, 0) == n && (ok <==> Insertable(s, rows, rk, r))
    requires ok ==> Agrees(d, s, rows[rk := r])
    requires !ok ==> if InsertTears(s, rows, rk, r) then HalfDone(d, s) else d == d0
    ensures ListDone(if Insertable(s, rows, rk, r) then Some(rows[rk := r])
                     else None, true, InsertTears(s, rows, rk, r), d, s, rows, n, n + 1, ok)
  {
    if ok {
      InsertKeeps(s, rows, n, rk, r, d);
    } else {
      LaterNumbers(s, rows, n, n + 1);
    }
  }

  /** Row numbers that a failed statement used up do no harm. */
  lemma {:induction false} LaterNumbers(s: Schema, rows: RowMap, m: nat, n: nat)
    requires RowsOk(s, rows, m) && m <= n
    ensures RowsOk(s, rows, n)
  {
  }

  /** Everything about an INSERT that does not change while it runs. */
  datatype Insert = Insert(fa: FloatArith, s: Schema, pos: seq<nat>, lists: seq<seq<Expr>>, first: nat)

  ghost predicate InsertOk(q: Insert) {
    SchemaOk(q.s) && forall i :: 0 <= i < |q.pos| ==> q.pos[i] < |q.s.columns|
  }

  ghost function StepsOf(q: Insert): (RowMap, nat) -> Option<RowMap>
    requires InsertOk(q)
  {
    InsertStep(q.fa, q.s, q.pos, q.lists, q.first)
  }

  /** List i fails on top of these rows: what the table holds then, and the next row number. */
  ghost predicate InsertFailed(d: Data, q: Insert, rows: RowMap, i: nat, next: nat)
    requires InsertOk(q) && i < |q.lists|
  {
    && next == q.first + i + (if ListedRow(q.fa, q.s, q.pos, q.lists[i]).Some? then 1 else 0)
    && if ListTears(q.fa, q.s, q.pos, q.lists[i], rows, q.first + i) then OutOfStep(d, q.s)
      else Consistent(d, q.s, rows, next)
  }

  /** After i lists: all are in, or the last one failed. */
  ghost predicate InsertProgress(d: Data, q: Insert, step: (RowMap, nat) -> Option<RowMap>, rows: RowMap, i: nat,
                                 next: nat, ok: bool)
    requires InsertOk(q)
  {
    && i <= |q.lists|
    && (ok <==> Fold(step, rows, i).Some?)
    && (ok ==> next == q.first + i && Consistent(d, q.s, Fold(step, rows, i).value, next))
    && (!ok ==> i > 0 && Fold(step, rows, i - 1).Some?
                && InsertFailed(d, q, Fold(step, rows, i - 1).value, i - 1, next))
  }

  lemma {:induction false} InsertProgressStep(d: Data, q: Insert, step: (RowMap, nat) -> Option<RowMap>, rows: RowMap,
                                              i: nat, next: nat, ok: bool, cur: RowMap, after: Option<RowMap>)
    requires InsertOk(q) && i < |q.lists| && Fold(step, rows, i) == Some(cur) && after == step(cur, i)
    requires ListDone(after, ListedRow(q.fa, q.s, q.pos, q.lists[i]).Some?,
                      ListTears(q.fa, q.s, q.pos, q.lists[i], cur, q.first + i), d, q.s, cur, q.first + i, next, ok)
    ensures InsertProgress(d, q, step, rows, i + 1, next, ok)
  {
    assert Fold(step, rows, i + 1) == after;
  }

  method InsertNext(t: Txn, tb: Table, q: Insert, i: nat, ghost step: (RowMap, nat) -> Option<RowMap>,
                    ghost rows: RowMap)
    returns (ok: bool)
    requires t.Valid() && !t.done && Known(t.store.targets, q.s) && tb.schema == q.s && i < |q.lists|
             && q.first + i < TWO64
    requires InsertOk(q) && step == StepsOf(q) && InsertProgress(t.store.data, q, step, rows, i, tb.nextRow, true)
    modifies tb`nextRow, t`undo, t.store`data, t.store`log, t.store`state, t.store`past
    ensures t.Valid() && t.store.Committed() == old(t.store.Committed())
    ensures Others(t.store.data, q.s) == Others(old(t.store.data), q.s)
    ensures InsertProgress(t.store.data, q, step, rows, i + 1, tb.nextRow, ok)
  {
    ghost var cur := Fold(step, rows, i).value;
    StepIs(q.fa, q.s, q.pos, q.lists, q.first, cur, i, tb.nextRow, step(cur, i));
    ok := InsertList(t, tb, q.fa, q.pos, q.lists[i], cur, step(cur, i));
    InsertProgressStep(t.store.data, q, step, rows, i, tb.nextRow, ok, cur, step(cur, i));
  }

  /** What an INSERT reports and leaves behind: all its rows; or those before the list that failed, unless that one has
      torn the table. */
  ghost predicate InsertReport(d: Data, q: Insert, rows: RowMap, next: nat, count: Option<nat>)
    requires InsertOk(q)
  {
    var i := Reach(StepsOf(q), rows, |q.lists|);
    var cur := Fold(StepsOf(q), rows, i).value;
    && (count.Some? <==> i == |q.lists|)
    && (count.Some? ==> count.value == i && next == q.first + i && Consistent(d, q.s, cur, next))
    && (count.Some? ==> (ValuesUnique(q.s, cur) <==> KeysTell(q.s, cur)))
    && (count.None? ==> InsertFailed(d, q, cur, i, next))
  }

  lemma {:induction false} InsertBegins(d: Data, q: Insert, step: (RowMap, nat) -> Option<RowMap>, rows: RowMap)
    requires InsertOk(q) && Consistent(d, q.s, rows, q.first)
    ensures InsertProgress(d, q, step, rows, 0, q.first, true)
  {
  }

  lemma {:induction false} InsertEnds(d: Data, q: Insert, rows: RowMap, i: nat, next: nat, ok: bool)
    requires InsertOk(q) && InsertProgress(d, q, StepsOf(q), rows, i, next, ok) && (ok ==> i == |q.lists|)
    ensures InsertReport(d, q, rows, next, if ok then Some(|q.lists|) else None)
  {
    ReachIs(StepsOf(q), rows, if ok then i else i - 1, |q.lists|);
    if ok {
      ValuesUniqueIff(q.s, Fold(StepsOf(q), rows, i).value, next);
    }
  }

  method InsertLists(t: Txn, tb: Table, q: Insert, ghost rows: RowMap) returns (count: Option<nat>)
    requires t.Valid() && !t.done && Known(t.store.targets, q.s) && tb.schema == q.s && tb.nextRow == q.first
    requires InsertOk(q) && q.first + |q.lists| < TWO64 && Consistent(t.store.data, q.s, rows, q.first)
    modifies tb`nextRow, t`undo, t.store`data, t.store`log, t.store`state, t.store`past
    ensures t.Valid() && t.store.Committed() == old(t.store.Committed())
    ensures Others(t.store.data, q.s) == Others(old(t.store.data), q.s)
    ensures InsertReport(t.store.data, q, rows, tb.nextRow, count)
  {
    ghost var step := StepsOf(q);
    InsertBegins(t.store.data, q, step, rows);
    var i, ok := 0, true;
    while i < |q.lists| && ok
      invariant t.Valid() && t.store.Committed() == old(t.store.Committed())
      invariant Others(t.store.data, q.s) == Others(old(t.store.data), q.s)
      invariant InsertProgress(t.store.data, q, step, rows, i, tb.nextRow, ok)
    {
      ok := InsertNext(t, tb, q, i, step, rows);
      i := i + 1;
    }
    InsertEnds(t.store.data, q, rows, i, tb.nextRow, ok);
    count := if ok then Some(|q.lists|) else None;
  }

  // ---- The new rows by column name -----------------------------------------

  /** The columns that a statement lists; without a list it is all of them. */
  function ListedNames(s: Schema, columns: seq<Bytes>): seq<Bytes> { if columns == [] then Names(s) else columns }

  /** A row is what a VALUES list makes of a blank one. */
  ghost function MadeBy(fa: FloatArith, s: Schema, names: seq<Bytes>): (seq<Expr>, Row) -> bool {
    (es, r) => MadeOf(fa, s, [], names, es, Blank(s), r)
  }

  /** The keys of rows numbered from first on. */
  ghost function KeysFrom(first: nat): nat -> Bytes { i => U64Bytes(first + i) }

  /** The rows before and n new ones, each made of its list. */
  ghost predicate Grown(made: (seq<Expr>, Row) -> bool, lists: seq<seq<Expr>>, key: nat -> Bytes, n: nat, rows: RowMap,
                        after: RowMap)
    requires n <= |lists|
  {
    && (forall rk :: rk in after ==> rk in rows || KeyBelow(key, n, rk))
    && (forall rk :: rk in rows ==> rk in after && after[rk] == rows[rk])
    && forall i :: 0 <= i < n ==> key(i) in after && made(lists[i], after[key(i)])
  }

  ghost predicate KeyBelow(key: nat -> Bytes, n: nat, rk: Bytes) { exists i :: 0 <= i < n && key(i) == rk }

  /** The keys are not in use and differ. */
  ghost predicate KeysNew(key: nat -> Bytes, n: nat, rows: RowMap) {
    && (forall i :: 0 <= i < n ==> key(i) !in rows)
    && forall i, j :: 0 <= i < j < n ==> key(i) != key(j)
  }

  /** A step that succeeds has added a row made of the list. */
  ghost predicate Adds(after: Option<RowMap>, made: (seq<Expr>, Row) -> bool, rk: Bytes, es: seq<Expr>, cur: RowMap) {
    after.Some? ==> exists r :: after == Some(cur[rk := r]) && made(es, r)
  }

  lemma {:induction false} GrownNext(made: (seq<Expr>, Row) -> bool, lists: seq<seq<Expr>>, key: nat -> Bytes, n: nat,
                                     rows: RowMap, cur: RowMap, r: Row)
    requires n < |lists| && KeysNew(key, n + 1, rows) && Grown(made, lists, key, n, rows, cur) && made(lists[n], r)
    ensures Grown(made, lists, key, n + 1, rows, cur[key(n) := r])
  {
    var after := cur[key(n) := r];
    forall rk | rk in after ensures rk in rows || KeyBelow(key, n + 1, rk) {
      if rk in cur && rk !in rows {
        var i :| 0 <= i < n && key(i) == rk;
        assert 0 <= i < n + 1 && key(i) == rk;
      }
    }
  }

  lemma {:induction false} FoldGrows(step: (RowMap, nat) -> Option<RowMap>, made: (seq<Expr>, Row) -> bool,
                                     lists: seq<seq<Expr>>, key: nat -> Bytes, rows: RowMap, n: nat)
    requires n <= |lists| && KeysNew(key, |lists|, rows) && Fold(step, rows, n).Some?
    requires forall cur, i :: 0 <= i < |lists| ==> Adds(step(cur, i), made, key(i), lists[i], cur)
    ensures Grown(made, lists, key, n, rows, Fold(step, rows, n).value)
    decreases n
  {
    if n > 0 {
      FoldGrows(step, made, lists, key, rows, n - 1);
      var cur := Fold(step, rows, n - 1).value;
      GrownStep(made, lists, key, n - 1, rows, cur, step(cur, n - 1));
    }
  }

  lemma {:induction false} GrownStep(made: (seq<Expr>, Row) -> bool, lists: seq<seq<Expr>>, key: nat -> Bytes, n: nat,
                                     rows: RowMap, cur: RowMap, after: Option<RowMap>)
    requires n < |lists| && KeysNew(key, |lists|, rows) && Grown(made, lists, key, n, rows, cur)
    requires after.Some? && Adds(after, made, key(n), lists[n], cur)
    ensures Grown(made, lists, key, n + 1, rows, after.value)
  {
    var r :| after == Some(cur[key(n) := r]) && made(lists[n], r);
    GrownNext(made, lists, key, n, rows, cur, r);
  }

  lemma {:induction false} ListAdds(q: Insert, names: seq<Bytes>, step: (RowMap, nat) -> Option<RowMap>,
                                    made: (seq<Expr>, Row) -> bool, key: nat -> Bytes, cur: RowMap, i: nat)
    requires InsertOk(q) && Positions(q.s, names) == Some(q.pos) && i < |q.lists|
    requires step == StepsOf(q) && made == MadeBy(q.fa, q.s, names) && key == KeysFrom(q.first)
    ensures Adds(step(cur, i), made, key(i), q.lists[i], cur)
  {
    ListAddsAt(q, names, step, made, key, q.lists[i], cur, i, q.first + i, step(cur, i), key(i));
  }

  lemma {:induction false} ListAddsAt(q: Insert, names: seq<Bytes>, step: (RowMap, nat) -> Option<RowMap>,
                                      made: (seq<Expr>, Row) -> bool, key: nat -> Bytes, es: seq<Expr>, cur: RowMap,
                                      i: nat, number: nat, after: Option<RowMap>, rk: Bytes)
    requires InsertOk(q) && Positions(q.s, names) == Some(q.pos) && i < |q.lists| && es == q.lists[i]
    requires step == StepsOf(q) && made == MadeBy(q.fa, q.s, names) && key == KeysFrom(q.first)
    requires number == q.first + i && after == step(cur, i) && rk == key(i)
    ensures Adds(after, made, rk, es, cur)
  {
    StepIs(q.fa, q.s, q.pos, q.lists, q.first, cur, i, number, after);
    KeyIs(key, q.first, i, number);
    ListedAdds(q, names, made, es, cur, number, after, rk);
  }

  lemma {:induction false} ListedAdds(q: Insert, names: seq<Bytes>, made: (seq<Expr>, Row) -> bool, es: seq<Expr>,
                                      cur: RowMap, number: nat, after: Option<RowMap>, rk: Bytes)
    requires InsertOk(q) && Positions(q.s, names) == Some(q.pos) && made == MadeBy(q.fa, q.s, names)
    requires after == WithListed(q.fa, q.s, q.pos, es, cur, number) && rk == U64Bytes(number)
    ensures Adds(after, made, rk, es, cur)
  {
    if after.Some? {
      ListMade(q, names, made, es, ListedRow(q.fa, q.s, q.pos, es).value);
    }
  }

  lemma {:induction false} ListMade(q: Insert, names: seq<Bytes>, made: (seq<Expr>, Row) -> bool, es: seq<Expr>, r: Row)
    requires InsertOk(q) && Positions(q.s, names) == Some(q.pos) && made == MadeBy(q.fa, q.s, names)
    requires ListedRow(q.fa, q.s, q.pos, es) == Some(r)
    ensures made(es, r)
  {
    BuiltRowByName(q.fa, q.s, [], names, q.pos, es, Blank(q.s), r);
  }

  lemma {:induction false} KeyIs(key: nat -> Bytes, first: nat, i: nat, number: nat)
    requires key == KeysFrom(first) && number == first + i
    ensures key(i) == U64Bytes(number)
  {
  }

  lemma {:induction false} NextKeysNew(s: Schema, rows: RowMap, key: nat -> Bytes, first: nat, n: nat)
    requires RowsOk(s, rows, first) && first + n <= TWO64 && key == KeysFrom(first)
    ensures KeysNew(key, n, rows)
  {
    forall i | 0 <= i < n ensures key(i) !in rows {
      KeyNumber(key, first, i);
    }
    forall i, j | 0 <= i < j < n ensures key(i) != key(j) {
      KeyNumber(key, first, i);
      KeyNumber(key, first, j);
    }
  }

  lemma {:induction false} KeyNumber(key: nat -> Bytes, first: nat, i: nat)
    requires key == KeysFrom(first) && first + i < TWO64
    ensures |key(i)| == 8 && U64(key(i), 0) == first + i
  {
    U64RoundTrip(first + i);
  }

  /** A statement that succeeds leaves a consistent table with the old rows and its own, under the next numbers. */
  ghost predicate InsertedByName(d: Data, fa: FloatArith, s: Schema, columns: seq<Bytes>, lists: seq<seq<Expr>>,
                                 rows: RowMap, first: nat, next: nat)
  {
    exists after :: Consistent(d, s, after, next)
      && Grown(MadeBy(fa, s, ListedNames(s, columns)), lists, KeysFrom(first), |lists|, rows, after)
  }

  lemma {:induction false} ReportByName(d: Data, q: Insert, step: (RowMap, nat) -> Option<RowMap>, columns: seq<Bytes>,
                                        made: (seq<Expr>, Row) -> bool, key: nat -> Bytes, rows: RowMap, next: nat,
                                        count: Option<nat>)
    requires InsertOk(q) && Positions(q.s, ListedNames(q.s, columns)) == Some(q.pos) && RowsOk(q.s, rows, q.first)
    requires step == StepsOf(q) && made == MadeBy(q.fa, q.s, ListedNames(q.s, columns)) && key == KeysFrom(q.first)
    requires q.first + |q.lists| < TWO64 && InsertReport(d, q, rows, next, count) && count.Some?
    ensures InsertedByName(d, q.fa, q.s, columns, q.lists, rows, q.first, next)
  {
    ReportEnds(d, q, step, rows, |q.lists|, next, count);
    NextKeysNew(q.s, rows, key, q.first, |q.lists|);
    forall cur, i | 0 <= i < |q.lists| ensures Adds(step(cur, i), made, key(i), q.lists[i], cur) {
      ListAdds(q, ListedNames(q.s, columns), step, made, key, cur, i);
    }
    FoldGrows(step, made, q.lists, key, rows, |q.lists|);
  }

  lemma {:induction false} ReportEnds(d: Data, q: Insert, step: (RowMap, nat) -> Option<RowMap>, rows: RowMap, n: nat,
                                      next: nat, count: Option<nat>)
    requires InsertOk(q) && step == StepsOf(q) && n == |q.lists| && InsertReport(d, q, rows, next, count) && count.Some?
    ensures Fold(step, rows, n).Some? && Consistent(d, q.s, Fold(step, rows, n).value, next)
  {
  }

  /** The same for a statement: an unknown column is an error. */
  ghost predicate InsertDone(d0: Data, d: Data, fa: FloatArith, s: Schema, columns: seq<Bytes>, lists: seq<seq<Expr>>,
                             rows: RowMap, first: nat, next: nat, count: Option<nat>)
    requires SchemaOk(s)
  {
    var pos := Positions(s, ListedNames(s, columns));
    if pos.None? then count.None? && d == d0 && next == first else
    InsertReport(d, Insert(fa, s, pos.value, lists, first), rows, next, count)
  }

  /** INSERT succeeds exactly when every row can be built and inserted in turn; the table then holds the old rows
      and the new ones under fresh numbers, indexes agree and unique columns are unique. */
  method ExecInsert(t: Txn, tb: Table, fa: FloatArith, columns: seq<Bytes>, lists: seq<seq<Expr>>, ghost rows: RowMap)
    returns (count: Option<nat>)
    requires t.Valid() && !t.done && Known(t.store.targets, tb.schema) && tb.nextRow + |lists| < TWO64
    requires Consistent(t.store.data, tb.schema, rows, tb.nextRow)
    modifies tb`nextRow, t`undo, t.store`data, t.store`log, t.store`state, t.store`past
    ensures t.Valid() && t.store.Committed() == old(t.store.Committed())
    ensures Others(t.store.data, tb.schema) == Others(old(t.store.data), tb.schema)
    ensures InsertDone(old(t.store.data), t.store.data, fa, tb.schema, columns, lists, rows, old(tb.nextRow),
                       tb.nextRow, count)
    ensures count.Some? ==> InsertedByName(t.store.data, fa, tb.schema, columns, lists, rows, old(tb.nextRow),
                                           tb.nextRow)
  {
    var pos := Positions(tb.schema, ListedNames(tb.schema, columns));
    if pos.None? {
      return None;
    }
    var q := Insert(fa, tb.schema, pos.value, lists, tb.nextRow);
    count := InsertLists(t, tb, q, rows);
    if count.Some? {
      ReportByName(t.store.data, q, StepsOf(q), columns, MadeBy(fa, q.s, ListedNames(q.s, columns)), KeysFrom(q.first),
                   rows, tb.nextRow, count);
    }
  }
}
