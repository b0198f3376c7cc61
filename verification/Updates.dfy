/** UPDATE and DELETE: rows are loaded, filtered, and rewritten or removed one after another. */
module Updates {
  import opened Bytes
  import opened Entries
  import opened Recovery
  import opened Transactions
  import opened Rows
  import opened Expressions
  import opened Tables
  import opened RowStatements
  import opened RowBuilding
  import opened Seek
  import opened Loading
  import opened Inserts

  datatype Assignment = Assignment(column: Bytes, val: Expr)

  function SetNames(sets: seq<Assignment>): (ns: seq<Bytes>)
    ensures |ns| == |sets| && forall i :: 0 <= i < |ns| ==> ns[i] == sets[i].column
  {
    seq(|sets|, i requires 0 <= i < |sets| => sets[i].column)
  }

  function SetValues(sets: seq<Assignment>): (es: seq<Expr>)
    ensures |es| == |sets| && forall i :: 0 <= i < |es| ==> es[i] == sets[i].val
  {
    seq(|sets|, i requires 0 <= i < |sets| => sets[i].val)
  }

  /** Everything about a statement that does not change while it runs. */
  datatype Update = Update(fa: FloatArith, s: Schema, alias: Bytes, where: Option<Expr>, pos: seq<nat>, es: seq<Expr>)

  ghost predicate UpdateOk(u: Update) {
    SchemaOk(u.s) && |u.es| == |u.pos| && forall i :: 0 <= i < |u.pos| ==> u.pos[i] < |u.s.columns|
  }

  /** What to do with a loaded row. */
  datatype Verdict = Fail | Skip | Change(row: Row)

  /** The clause decides whether the row changes, and the assignments, evaluated on the old row, to what. */
  function Judge(u: Update, r: Row): (v: Verdict)
    requires |u.es| == |u.pos| && (forall i :: 0 <= i < |u.pos| ==> u.pos[i] < |u.s.columns|) && Typed(r, Types(u.s))
    ensures v.Change? ==> Typed(v.row, Types(u.s))
  {
    var m := Satisfies(u.fa, u.where, Alone(u.s, u.alias, r));
    if m.None? then Fail
    else if !m.value then Skip
    else
      var n := BuiltRow(u.fa, u.s, Alone(u.s, u.alias, r), u.pos, u.es, r);
      if n.None? then Fail else Change(n.value)
  }

  /** The heap's rows, the rows each index shows, and the number of rows changed. */
  datatype Held = Held(views: seq<RowMap>, rows: RowMap, changed: nat)

  ghost predicate Stores(d: Data, s: Schema, h: Held)
    requires SchemaOk(s)
  {
    IndexesHold(d, s, h.views) && HeapAgrees(d, s, h.rows)
  }

  ghost function UpdateOne(u: Update, h: Held, rk: Bytes, r: Row): Option<Held>
    requires UpdateOk(u) && Typed(r, Types(u.s)) && |h.views| == |u.s.indexes|
  {
    match Judge(u, r)
    case Fail => None
    case Skip => Some(h)
    case Change(r') =>
      if Updatable(u.s, h.views, rk, r, r')
      then Some(Held(FollowedUpTo(u.s, |u.s.indexes|, h.views, rk, r, r'), h.rows[rk := r'], h.changed + 1))
      else None
  }

  ghost function UpdateStep(u: Update, l: Loaded): (Held, nat) -> Option<Held>
    requires UpdateOk(u)
  {
    (h: Held, i: nat) =>
      if i < |l.keys| && i < |l.vals| && Typed(l.vals[i], Types(u.s)) && |h.views| == |u.s.indexes|
      then UpdateOne(u, h, l.keys[i], l.vals[i]) else None
  }

  /** The state before the first row: every index shows the heap's rows. */
  ghost function Start(s: Schema, rows: RowMap): Held { Held(seq(|s.indexes|, _ => rows), rows, 0) }

  lemma {:induction false} StartHolds(d: Data, s: Schema, rows: RowMap)
    requires SchemaOk(s) && Agrees(d, s, rows)
    ensures Stores(d, s, Start(s, rows))
  {
    var v := Start(s, rows).views;
    assert forall i :: 0 <= i < |v| ==> v[i] == rows;
  }

  // ---- One loaded row ------------------------------------------------------

  /** A row's key is in the state everywhere with the loaded value. */
  ghost predicate Fresh(s: Schema, h: Held, rk: Bytes, r: Row) {
    RowFits(s, rk, r) && AllShow(s, h.views, rk, r) && Shows(h.rows, rk, r)
  }

  /** A row whose update fails leaves the indexes changed. */
  ghost predicate RowTears(u: Update, h: Held, r: Row)
    requires UpdateOk(u) && Typed(r, Types(u.s)) && |h.views| == |u.s.indexes|
  {
    Judge(u, r).Change? && UpdateTears(u.s, h.views, r, Judge(u, r).row)
  }

  method UpdateLoaded(t: Txn, u: Update, rk: Bytes, r: Row, ghost h: Held) returns (ok: bool, wrote: bool)
    requires t.Valid() && !t.done && UpdateOk(u) && Known(t.store.targets, u.s)
    requires Fresh(u.s, h, rk, r) && Stores(t.store.data, u.s, h)
    modifies t`undo, t.store`data, t.store`log, t.store`state, t.store`past
    ensures t.Valid() && t.store.Committed() == old(t.store.Committed())
    ensures ok <==> UpdateOne(u, h, rk, r).Some?
    ensures ok ==> UpdateOne(u, h, rk, r).value.changed == h.changed + if wrote then 1 else 0
    ensures ok ==> Stores(t.store.data, u.s, UpdateOne(u, h, rk, r).value)
    ensures !ok ==> if RowTears(u, h, r) then OutOfStep(t.store.data, u.s) else t.store.data == old(t.store.data)
    ensures Others(t.store.data, u.s) == Others(old(t.store.data), u.s)
  {
    var m := Satisfies(u.fa, u.where, Alone(u.s, u.alias, r));
    if m.None? {
      return false, false;
    }
    if !m.value {
      return true, false;
    }
    var n := BuildRow(u.fa, u.s, Alone(u.s, u.alias, r), u.pos, u.es, r);
    if n.None? {
      return false, false;
    }
    ok := UpdateRow(t, u.s, rk, r, n.value, h.views, h.rows);
    wrote := true;
  }

  // ---- What the steps leave alone ------------------------------------------

  lemma {:induction false} UpdateOneFrame(u: Update, h: Held, rk: Bytes, r: Row, k: Bytes, v: Row)
    requires UpdateOk(u) && Typed(r, Types(u.s)) && |h.views| == |u.s.indexes| && k != rk
    requires UpdateOne(u, h, rk, r).Some? && Fresh(u.s, h, k, v)
    ensures Fresh(u.s, UpdateOne(u, h, rk, r).value, k, v)
  {
    var h' := UpdateOne(u, h, rk, r).value;
    forall i | 0 <= i < |h'.views| ensures Shows(h'.views[i], k, v) {
      assert Shows(h.views[i], k, v);
    }
  }

  /** Rows from n on, not yet reached, are still as they were loaded. */
  ghost predicate Pending(s: Schema, h: Held, l: Loaded, n: nat)
    requires |l.keys| == |l.vals|
    decreases |l.keys| - n
  {
    n < |l.keys| ==> Fresh(s, h, l.keys[n], l.vals[n]) && Pending(s, h, l, n + 1)
  }

  lemma {:induction false} PendingStart(s: Schema, rows: RowMap, l: Loaded, n: nat)
    requires LoadedOk(s, rows, l)
    ensures Pending(s, Start(s, rows), l, n)
    decreases |l.keys| - n
  {
    if n < |l.keys| {
      assert Shows(rows, l.keys[n], l.vals[n]);
      PendingStart(s, rows, l, n + 1);
    }
  }

  lemma {:induction false} PendingStep(u: Update, h: Held, l: Loaded, m: nat, n: nat)
    requires UpdateOk(u) && |l.keys| == |l.vals| && m < |l.keys| && m < n && NoRepeats(l.keys) && Pending(u.s, h, l, n)
    requires Typed(l.vals[m], Types(u.s)) && |h.views| == |u.s.indexes| && UpdateOne(u, h, l.keys[m], l.vals[m]).Some?
    ensures Pending(u.s, UpdateOne(u, h, l.keys[m], l.vals[m]).value, l, n)
    decreases |l.keys| - n
  {
    if n < |l.keys| {
      assert l.keys[m] != l.keys[n];
      UpdateOneFrame(u, h, l.keys[m], l.vals[m], l.keys[n], l.vals[n]);
      PendingStep(u, h, l, m, n + 1);
    }
  }

  // ---- The statement -------------------------------------------------------

  ghost predicate LoadedOk(s: Schema, rows: RowMap, l: Loaded) {
    RowsAt(rows, l) && NoRepeats(l.keys) && forall i :: 0 <= i < |l.keys| ==> RowFits(s, l.keys[i], l.vals[i])
  }

  /** After i rows: n of them were written, and either all went well and the store holds the outcome, or the last
      one failed. */
  ghost predicate Progress(d: Data, u: Update, l: Loaded, step: (Held, nat) -> Option<Held>, start: Held, i: nat,
                           n: nat, ok: bool)
    requires UpdateOk(u) && |l.keys| == |l.vals|
  {
    var h := Fold(step, start, i);
    && (ok <==> h.Some?)
    && (ok ==> n == h.value.changed && Stores(d, u.s, h.value) && Pending(u.s, h.value, l, i))
    && (!ok ==> 0 < i <= |l.keys| && Fold(step, start, i - 1).Some?
                && UpdateFailed(d, u, l, Fold(step, start, i - 1).value, i - 1))
  }

  /** Row i fails on top of this state: what the store holds then. */
  ghost predicate UpdateFailed(d: Data, u: Update, l: Loaded, h: Held, i: nat)
    requires UpdateOk(u) && i < |l.keys| == |l.vals|
  {
    && Typed(l.vals[i], Types(u.s)) && |h.views| == |u.s.indexes|
    && if RowTears(u, h, l.vals[i]) then OutOfStep(d, u.s) else Stores(d, u.s, h)
  }

  lemma {:induction false} ProgressRow(d: Data, u: Update, l: Loaded, step: (Held, nat) -> Option<Held>, start: Held,
                                       i: nat, n: nat)
    requires UpdateOk(u) && i < |l.keys| == |l.vals| && Progress(d, u, l, step, start, i, n, true)
    ensures var h := Fold(step, start, i).value;
            Fresh(u.s, h, l.keys[i], l.vals[i]) && Stores(d, u.s, h) && h.changed == n && Pending(u.s, h, l, i)
  {
  }

  lemma {:induction false} StepApplied(u: Update, l: Loaded, h: Held, i: nat)
    requires UpdateOk(u) && i < |l.keys| == |l.vals| && Typed(l.vals[i], Types(u.s)) && |h.views| == |u.s.indexes|
    ensures UpdateStep(u, l)(h, i) == UpdateOne(u, h, l.keys[i], l.vals[i])
  {
  }

  lemma {:induction false} ProgressStep(d: Data, u: Update, l: Loaded, step: (Held, nat) -> Option<Held>, start: Held,
                                        i: nat, m: nat, h': Option<Held>)
    requires UpdateOk(u) && i < |l.keys| == |l.vals| && Fold(step, start, i).Some?
    requires h' == step(Fold(step, start, i).value, i)
    requires h'.Some? ==> Stores(d, u.s, h'.value) && h'.value.changed == m && Pending(u.s, h'.value, l, i + 1)
    requires h'.None? ==> UpdateFailed(d, u, l, Fold(step, start, i).value, i)
    ensures Progress(d, u, l, step, start, i + 1, m, h'.Some?)
  {
  }

  lemma {:induction false} PendingNext(u: Update, h: Held, l: Loaded, i: nat, h': Option<Held>)
    requires UpdateOk(u) && i < |l.keys| == |l.vals| && NoRepeats(l.keys) && Pending(u.s, h, l, i)
             && |h.views| == |u.s.indexes|
    requires Typed(l.vals[i], Types(u.s)) && h' == UpdateOne(u, h, l.keys[i], l.vals[i])
    ensures UpdateStep(u, l)(h, i) == h'
    ensures h'.Some? ==> Pending(u.s, h'.value, l, i + 1)
  {
    StepApplied(u, l, h, i);
    if h'.Some? {
      PendingStep(u, h, l, i, i + 1);
    }
  }

  method UpdateNext(t: Txn, u: Update, l: Loaded, i: nat, n: nat, ghost step: (Held, nat) -> Option<Held>,
                    ghost start: Held)
    returns (ok: bool, m: nat)
    requires t.Valid() && !t.done && UpdateOk(u) && Known(t.store.targets, u.s) && i < |l.keys| == |l.vals|
    requires NoRepeats(l.keys) && step == UpdateStep(u, l) && Progress(t.store.data, u, l, step, start, i, n, true)
    modifies t`undo, t.store`data, t.store`log, t.store`state, t.store`past
    ensures t.Valid() && t.store.Committed() == old(t.store.Committed())
    ensures Progress(t.store.data, u, l, step, start, i + 1, m, ok)
    ensures Others(t.store.data, u.s) == Others(old(t.store.data), u.s)
  {
    ghost var h := Fold(step, start, i).value;
    ProgressRow(t.store.data, u, l, step, start, i, n);
    var wrote;
    ok, wrote := UpdateLoaded(t, u, l.keys[i], l.vals[i], h);
    m := if wrote then n + 1 else n;
    PendingNext(u, h, l, i, UpdateOne(u, h, l.keys[i], l.vals[i]));
    ProgressStep(t.store.data, u, l, step, start, i, m, UpdateOne(u, h, l.keys[i], l.vals[i]));
  }

  /** What the statement reports and leaves behind: all loaded rows were dealt with; or only those before the one that
      failed, unless that one has torn the table. */
  ghost predicate Outcome(d: Data, u: Update, l: Loaded, count: Option<nat>, step: (Held, nat) -> Option<Held>,
                          start: Held)
    requires UpdateOk(u) && |l.keys| == |l.vals|
  {
    var i := Reach(step, start, |l.keys|);
    var h := Fold(step, start, i).value;
    && (count.Some? <==> i == |l.keys|)
    && (count.Some? ==> count.value == h.changed && Stores(d, u.s, h))
    && (count.None? ==> UpdateFailed(d, u, l, h, i))
  }

  lemma {:induction false} ProgressEnds(d: Data, u: Update, l: Loaded, step: (Held, nat) -> Option<Held>, start: Held,
                                        i: nat, n: nat, ok: bool)
    requires UpdateOk(u) && |l.keys| == |l.vals| && Progress(d, u, l, step, start, i, n, ok)
    requires i <= |l.keys| && (ok ==> i == |l.keys|)
    ensures Outcome(d, u, l, if ok then Some(n) else None, step, start)
  {
    ReachIs(step, start, if ok then i else i - 1, |l.keys|);
  }

  /** The loop over the loaded rows. */
  method UpdateAll(t: Txn, u: Update, l: Loaded, ghost step: (Held, nat) -> Option<Held>, ghost start: Held)
    returns (count: Option<nat>)
    requires t.Valid() && !t.done && UpdateOk(u) && Known(t.store.targets, u.s) && |l.keys| == |l.vals|
             && NoRepeats(l.keys)
    requires step == UpdateStep(u, l) && Progress(t.store.data, u, l, step, start, 0, 0, true)
    modifies t`undo, t.store`data, t.store`log, t.store`state, t.store`past
    ensures t.Valid() && t.store.Committed() == old(t.store.Committed())
    ensures Outcome(t.store.data, u, l, count, step, start)
    ensures Others(t.store.data, u.s) == Others(old(t.store.data), u.s)
  {
    var i, n, ok := 0, 0, true;
    while i < |l.keys| && ok
      invariant t.Valid() && t.store.Committed() == old(t.store.Committed())
      invariant i <= |l.keys| && Progress(t.store.data, u, l, step, start, i, n, ok)
      invariant Others(t.store.data, u.s) == Others(old(t.store.data), u.s)
    {
      ok, n := UpdateNext(t, u, l, i, n, step, start);
      i := i + 1;
    }
    ProgressEnds(t.store.data, u, l, step, start, i, n, ok);
    count := if ok then Some(n) else None;
  }
}
