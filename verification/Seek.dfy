/** The index seek that stands in for a full scan, and when the two give the same rows. */
module Seek {
  import opened Bytes
  import opened Entries
  import opened Recovery
  import opened Values
  import opened Rows
  import opened Expressions
  import opened Tables

  // ---- Recognising column = literal ----------------------------------------

  datatype Match = Match(col: Bytes, lit: Literal)

  function MatchColumnLiteral(a: Expr, b: Expr, alias: Bytes): Option<Match> {
    if !a.Ref? || (a.table != [] && a.table != alias) || !b.Lit? then None else Some(Match(a.name, b.lit))
  }

  function MatchEquality(where: Expr, alias: Bytes): Option<Match> {
    if !where.Binary? || where.bop != Eq then None else
    var m := MatchColumnLiteral(where.left, where.right, alias);
    if m.Some? then m else MatchColumnLiteral(where.right, where.left, alias)
  }

  /** The first index on a column. */
  function IndexOn(indexes: seq<Index>, col: Bytes): (i: Option<nat>)
    ensures i.Some? ==> i.value < |indexes| && indexes[i.value].column == col
  {
    if |indexes| == 0 then None
    else if indexes[0].column == col then Some(0)
    else
      var i := IndexOn(indexes[1..], col);
      if i.None? then None else Some(i.value + 1)
  }

  datatype Plan = Plan(index: nat, lit: Value)

  /** `findEqualityIndex`: the index to seek in and the literal in the column's type. */
  function FindEqualityIndex(s: Schema, where: Option<Expr>, alias: Bytes): (p: Option<Plan>)
    requires SchemaOk(s)
    ensures p.Some? ==> p.value.index < |s.indexes|
    ensures p.Some? ==> TypeOf(p.value.lit) == Types(s)[IndexColumn(s, p.value.index)]
  {
    if where.None? then None else
    var m := MatchEquality(where.value, alias);
    if m.None? then None else
    var i := IndexOn(s.indexes, m.value.col);
    if i.None? then None else
    var v := Coerce(LiteralValue(m.value.lit), s.columns[IndexColumn(s, i.value)].t);
    if v.None? then None else Some(Plan(i.value, v.value))
  }

  function Alone(s: Schema, alias: Bytes, r: Row): Tuple { [Binding(alias, s.columns, r)] }

  /** The row satisfies the clause; an evaluation error counts as no. */
  predicate Matches(fa: FloatArith, s: Schema, alias: Bytes, where: Option<Expr>, r: Row) {
    Satisfies(fa, where, Alone(s, alias, r)) == Some(true)
  }

  lemma {:induction false} ResolvesAlone(s: Schema, alias: Bytes, r: Row, table: Bytes, name: Bytes, c: nat)
    requires table == [] || table == alias
    requires ColumnIndex(s.columns, name) == Some(c) && c < |r|
    ensures Resolve(Alone(s, alias, r), table, name) == Some(r[c])
  {
    var tp := Alone(s, alias, r);
    assert tp[1..] == [];
    assert Candidates([], table, name) == [];
    assert Candidates(tp, table, name) == [r[c]] + [];
  }

  ghost predicate EqualValues(v: Value, w: Value) { !v.Null? && !w.Null? && CompareValues(v, w) == 0 }

  lemma {:induction false} CompareCoerced(v: Value, l: Value, t: Type)
    requires TypeOf(v) == t && Coerce(l, t).Some?
    ensures var w := Coerce(l, t).value;
            && (EqualValues(v, l) <==> EqualValues(v, w))
            && (EqualValues(l, v) <==> EqualValues(v, w))
  {
    if v.TextV? && l.TextV? {
      LessTotal(v.s, l.s);
    }
  }

  lemma {:induction false} EvalEquality(fa: FloatArith, a: Expr, b: Expr, tp: Tuple, v: Value, w: Value)
    requires Eval(fa, a, tp) == Some(v) && Eval(fa, b, tp) == Some(w)
    ensures Satisfies(fa, Some(Binary(Eq, a, b)), tp) == Some(EqualValues(v, w))
  {
  }

  /** When the seek applies, the clause holds of a row exactly when the column equals the converted literal, and
      evaluating it cannot fail. */
  lemma {:induction false} PlanIsClause(fa: FloatArith, s: Schema, alias: Bytes, where: Option<Expr>, r: Row)
    requires SchemaOk(s) && Typed(r, Types(s)) && FindEqualityIndex(s, where, alias).Some?
    ensures var p := FindEqualityIndex(s, where, alias).value;
            Satisfies(fa, where, Alone(s, alias, r)) == Some(EqualValues(r[IndexColumn(s, p.index)], p.lit))
  {
    var p := FindEqualityIndex(s, where, alias).value;
    var c, e := IndexColumn(s, p.index), where.value;
    var m := MatchEquality(e, alias).value;
    var tp := Alone(s, alias, r);
    CompareCoerced(r[c], LiteralValue(m.lit), s.columns[c].t);
    if MatchColumnLiteral(e.left, e.right, alias).Some? {
      ResolvesAlone(s, alias, r, e.left.table, m.col, c);
      EvalEquality(fa, e.left, e.right, tp, r[c], LiteralValue(m.lit));
    } else {
      ResolvesAlone(s, alias, r, e.right.table, m.col, c);
      EvalEquality(fa, e.left, e.right, tp, LiteralValue(m.lit), r[c]);
    }
  }

  /** A column of the table on one side of the sign and a literal on the other. */
  predicate ColumnAndLiteral(a: Expr, b: Expr, alias: Bytes, col: Bytes, lit: Literal) {
    (a == Ref([], col) || a == Ref(alias, col)) && b == Lit(lit)
  }

  /** The clause equates the column and the literal, either way round. */
  predicate Equates(e: Expr, alias: Bytes, col: Bytes, lit: Literal) {
    && e.Binary? && e.bop == Eq
    && (ColumnAndLiteral(e.left, e.right, alias, col, lit) || ColumnAndLiteral(e.right, e.left, alias, col, lit))
  }

  lemma {:induction false} IndexOnIff(indexes: seq<Index>, col: Bytes)
    ensures IndexOn(indexes, col).Some? <==> exists i :: 0 <= i < |indexes| && indexes[i].column == col
    decreases |indexes|
  {
    if |indexes| != 0 {
      IndexOnIff(indexes[1..], col);
      assert forall i :: 0 < i < |indexes| ==> indexes[i] == indexes[1..][i - 1];
      assert forall i :: 0 <= i < |indexes| - 1 ==> indexes[1..][i] == indexes[i + 1];
    }
  }

  /** The clause and the schema allow a seek for this column and literal. */
  ghost predicate Seekable(s: Schema, e: Expr, alias: Bytes, col: Bytes, lit: Literal)
    requires SchemaOk(s)
  {
    && Equates(e, alias, col, lit)
    && exists i :: 0 <= i < |s.indexes| && s.indexes[i].column == col
                   && Coerce(LiteralValue(lit), s.columns[IndexColumn(s, i)].t).Some?
  }

  /** An index is used exactly when the clause equates one of the table's indexed columns and a literal of a type that
      fits the column. */
  lemma {:induction false} PlanFoundIff(s: Schema, e: Expr, alias: Bytes)
    requires SchemaOk(s)
    ensures FindEqualityIndex(s, Some(e), alias).Some? <==> exists col, lit :: Seekable(s, e, alias, col, lit)
  {
    var m := MatchEquality(e, alias);
    if m.Some? {
      IndexOnIff(s.indexes, m.value.col);
      var i := IndexOn(s.indexes, m.value.col);
      if i.Some? {
        SameColumn(s, i.value, m.value.col);
      }
      assert Equates(e, alias, m.value.col, m.value.lit);
      assert FindEqualityIndex(s, Some(e), alias).Some? ==> Seekable(s, e, alias, m.value.col, m.value.lit);
    }
    if col, lit :| Seekable(s, e, alias, col, lit) {
      EquatesOne(e, alias, col, lit);
    }
  }

  lemma {:induction false} EquatesOne(e: Expr, alias: Bytes, col: Bytes, lit: Literal)
    requires Equates(e, alias, col, lit)
    ensures MatchEquality(e, alias) == Some(Match(col, lit))
  {
  }

  /** All indexes on a column name the same column. */
  lemma {:induction false} SameColumn(s: Schema, i: nat, col: Bytes)
    requires SchemaOk(s) && i < |s.indexes| && s.indexes[i].column == col
    ensures forall j :: 0 <= j < |s.indexes| && s.indexes[j].column == col ==> IndexColumn(s, j) == IndexColumn(s, i)
  {
  }

  // ---- Lists of row keys ---------------------------------------------------

  function KeysOf(es: seq<Entry>): (ks: seq<Bytes>)
    ensures |ks| == |es| && forall i :: 0 <= i < |es| ==> ks[i] == es[i].key
  {
    seq(|es|, i requires 0 <= i < |es| => es[i].key)
  }

  /** The row keys that the lookup loop collects. */
  function SeekKeys(es: seq<Entry>, p: Bytes): (ks: seq<Bytes>)
    ensures |ks| == PrefixCount(es, p) && forall i :: 0 <= i < |ks| ==> ks[i] == es[i].val
  {
    seq(PrefixCount(es, p), i requires 0 <= i < PrefixCount(es, p) => es[i].val)
  }

  ghost predicate Rising(ks: seq<Bytes>) { forall i, j :: 0 <= i < j < |ks| ==> Less(ks[i], ks[j]) }

  /** The keys whose rows satisfy the clause, in the given order. */
  ghost function Kept(keep: set<Bytes>, ks: seq<Bytes>): (r: seq<Bytes>)
    ensures forall k :: k in r <==> k in ks && k in keep
    decreases |ks|
  {
    if |ks| == 0 then [] else
    var n := |ks| - 1;
    var r := Kept(keep, ks[..n]);
    assert ks == ks[..n] + [ks[n]];
    if ks[n] in keep then r + [ks[n]] else r
  }

  lemma {:induction false} KeptRising(keep: set<Bytes>, ks: seq<Bytes>)
    requires forall i, j :: 0 <= i < j < |ks| && ks[i] in keep && ks[j] in keep ==> Less(ks[i], ks[j])
    ensures Rising(Kept(keep, ks))
    decreases |ks|
  {
    if |ks| != 0 {
      var n := |ks| - 1;
      KeptRising(keep, ks[..n]);
      var r := Kept(keep, ks[..n]);
      if ks[n] in keep {
        forall i | 0 <= i < |r| ensures Less(r[i], ks[n]) {
          assert r[i] in r;
          var j :| 0 <= j < n && ks[..n][j] == r[i];
          assert ks[j] == r[i];
        }
      }
    }
  }

  ghost predicate SameKeys(a: seq<Bytes>, b: seq<Bytes>) { forall k :: k in a <==> k in b }

  lemma {:induction false} SomeKey(a: seq<Bytes>)
    requires |a| > 0
    ensures exists k :: k in a
  {
    assert a[0] in a;
  }

  lemma {:induction false} RisingUnique(a: seq<Bytes>, b: seq<Bytes>)
    requires Rising(a) && Rising(b) && SameKeys(a, b)
    ensures a == b
    decreases |a|
  {
    if |a| > 0 {
      SomeKey(a);
    }
    if |b| > 0 {
      SomeKey(b);
    }
    if |a| > 0 && |b| > 0 {
      LastEqual(a, b);
      SameButLast(a, b);
      RisingUnique(a[..|a| - 1], b[..|b| - 1]);
      assert a == a[..|a| - 1] + [a[|a| - 1]] && b == b[..|b| - 1] + [b[|b| - 1]];
    }
  }

  lemma {:induction false} SameButLast(a: seq<Bytes>, b: seq<Bytes>)
    requires Rising(a) && Rising(b) && |a| > 0 && |b| > 0 && SameKeys(a, b)
    requires a[|a| - 1] == b[|b| - 1]
    ensures Rising(a[..|a| - 1]) && Rising(b[..|b| - 1]) && SameKeys(a[..|a| - 1], b[..|b| - 1])
  {
    var a', b' := a[..|a| - 1], b[..|b| - 1];
    forall k ensures k in a' <==> k in b' {
      NotLast(a, k);
      NotLast(b, k);
    }
  }

  lemma {:induction false} NotLast(a: seq<Bytes>, k: Bytes)
    requires Rising(a) && |a| > 0
    ensures k in a[..|a| - 1] <==> k in a && k != a[|a| - 1]
  {
    var m := |a| - 1;
    LessIrreflexive(a[m]);
    assert a == a[..m] + [a[m]];
  }

  lemma {:induction false} LastEqual(a: seq<Bytes>, b: seq<Bytes>)
    requires Rising(a) && Rising(b) && |a| > 0 && |b| > 0 && SameKeys(a, b)
    ensures a[|a| - 1] == b[|b| - 1]
  {
    var x, y := a[|a| - 1], b[|b| - 1];
    assert x in b && y in a;
    var i :| 0 <= i < |b| && b[i] == x;
    var j :| 0 <= j < |a| && a[j] == y;
    if x != y {
      assert Less(x, y) && Less(y, x);
      LessAsymmetric(x, y);
    }
  }

  // ---- Seek against scan ---------------------------------------------------

  /** The rows that satisfy the clause. */
  ghost function Selected(fa: FloatArith, s: Schema, alias: Bytes, where: Option<Expr>, rows: RowMap): set<Bytes> {
    set rk | rk in rows && Matches(fa, s, alias, where, rows[rk])
  }

  lemma {:induction false} ScanKeys(d: Data, s: Schema, rows: RowMap, heap: seq<Entry>)
    requires HeapAgrees(d, s, rows) && ListsFrom(d, TableTarget(s.name), [], heap)
    ensures forall k :: k in KeysOf(heap) <==> k in rows
    ensures Rising(KeysOf(heap))
  {
    var t, ks := TableTarget(s.name), KeysOf(heap);
    forall k ensures k in ks <==> k in rows {
      assert At(d, Loc(t, k)) == if k in rows then Some(RowBytes(rows[k])) else None;
      if k in ks {
        var i :| 0 <= i < |ks| && ks[i] == k;
        assert At(d, Loc(t, heap[i].key)) == Some(heap[i].val);
      }
      if k in rows {
        PrefixLeq([], k);
        assert Listed(heap, k);
        var i :| 0 <= i < |heap| && heap[i].key == k;
        assert ks[i] == k;
      }
    }
  }

  lemma {:induction false} SeekReaches(d: Data, s: Schema, i: nat, rows: RowMap, p: Bytes, es: seq<Entry>, rk: Bytes)
    requires SchemaOk(s) && i < |s.indexes| && IndexAgrees(d, s, i, rows) && ListsFrom(d, Target(s, i), p, es)
    requires rk in rows && RowFits(s, rk, rows[rk]) && p <= IndexKey(rows[rk][IndexColumn(s, i)], rk)
    ensures rk in SeekKeys(es, p)
  {
    var k := IndexKey(rows[rk][IndexColumn(s, i)], rk);
    EntryPresent(d, s, i, rows, rk);
    PrefixCountAll(d, Target(s, i), p, es, k);
    var j :| 0 <= j < PrefixCount(es, p) && es[j].key == k;
    assert SeekKeys(es, p)[j] == rk;
  }

  /** The lookup collects the rows whose key in the index starts with the literal's sort key. */
  lemma {:induction false} SeekFinds(d: Data, s: Schema, i: nat, rows: RowMap, n: nat, p: Bytes, es: seq<Entry>,
                                     rk: Bytes)
    requires SchemaOk(s) && i < |s.indexes| && IndexAgrees(d, s, i, rows) && RowsOk(s, rows, n)
    requires ListsFrom(d, Target(s, i), p, es)
    ensures rk in rows ==> RowFits(s, rk, rows[rk])
    ensures rk in SeekKeys(es, p) <==> rk in rows && p <= IndexKey(rows[rk][IndexColumn(s, i)], rk)
  {
    var ks := SeekKeys(es, p);
    if rk in ks {
      var j :| 0 <= j < |ks| && ks[j] == rk;
      SeekEntry(d, s, i, rows, n, p, es, j);
    }
    if rk in rows {
      assert RowOk(s, rk, rows[rk]);
      if p <= IndexKey(rows[rk][IndexColumn(s, i)], rk) {
        SeekReaches(d, s, i, rows, p, es, rk);
      }
    }
  }

  lemma {:induction false} SeekEntry(d: Data, s: Schema, i: nat, rows: RowMap, n: nat, p: Bytes, es: seq<Entry>, j: nat)
    requires SchemaOk(s) && i < |s.indexes| && IndexAgrees(d, s, i, rows) && RowsOk(s, rows, n)
    requires ListsFrom(d, Target(s, i), p, es) && j < PrefixCount(es, p)
    ensures var rk := es[j].val;
            rk in rows && RowOk(s, rk, rows[rk]) && es[j].key == IndexKey(rows[rk][IndexColumn(s, i)], rk)
              && p <= es[j].key
  {
    assert At(d, Loc(Target(s, i), es[j].key)) == Some(es[j].val);
    assert At(d, Loc(Target(s, i), es[j].key)) == IndexAt(rows, IndexColumn(s, i), es[j].key);
  }

  /** Among rows with a column equal to the literal, the index's prefix test is equality of sort keys. */
  lemma {:induction false} PrefixOfEqual(v: Value, w: Value, rk: Bytes)
    requires TypeOf(v) == TypeOf(w) && EqualValues(v, w) && |rk| == 8
    ensures SortKey(w) <= IndexKey(v, rk) <==> !Confusable(v, w)
    ensures !Confusable(v, w) ==> SortKey(v) == SortKey(w)
  {
    EqualKeysIff(v, w);
    if v.TextV? {
      LessTotal(v.s, w.s);
      assert SortKey(w) <= IndexKey(v, rk);
    } else {
      FixedWidthPrefix(w, v, rk);
    }
  }

  lemma {:induction false} ConfusableEqual(v: Value, w: Value)
    requires TypeOf(v) == TypeOf(w) && Confusable(v, w)
    ensures EqualValues(v, w)
  {
    EqualKeysIff(v, w);
  }

  lemma {:induction false} SameHeadOrder(p: Bytes, a: Bytes, b: Bytes)
    requires Less(p + a, p + b)
    ensures Less(a, b)
  {
    LessConcat(p, p, a, b);
    LessIrreflexive(p);
  }

  /** Everything the theorem is about, in one place. */
  ghost predicate Setting(fa: FloatArith, d: Data, s: Schema, rows: RowMap, n: nat, where: Option<Expr>, alias: Bytes) {
    SchemaOk(s) && Agrees(d, s, rows) && RowsOk(s, rows, n) && FindEqualityIndex(s, where, alias).Some?
  }

  lemma {:induction false} SelectedIff(fa: FloatArith, d: Data, s: Schema, rows: RowMap, n: nat, where: Option<Expr>,
                                       alias: Bytes, rk: Bytes)
    requires Setting(fa, d, s, rows, n, where, alias)
    ensures var p := FindEqualityIndex(s, where, alias).value;
            rk in Selected(fa, s, alias, where, rows) <==>
            rk in rows && RowOk(s, rk, rows[rk]) && EqualValues(rows[rk][IndexColumn(s, p.index)], p.lit)
  {
    if rk in rows {
      assert RowOk(s, rk, rows[rk]);
      PlanIsClause(fa, s, alias, where, rows[rk]);
    }
  }

  /** The selected rows come out of the index in row order. */
  lemma {:induction false} SeekRising(fa: FloatArith, d: Data, s: Schema, rows: RowMap, n: nat, where: Option<Expr>,
                                      alias: Bytes, es: seq<Entry>)
    requires Setting(fa, d, s, rows, n, where, alias)
    requires var p := FindEqualityIndex(s, where, alias).value; ListsFrom(d, Target(s, p.index), SortKey(p.lit), es)
    ensures var p := FindEqualityIndex(s, where, alias).value;
            Rising(Kept(Selected(fa, s, alias, where, rows), SeekKeys(es, SortKey(p.lit))))
  {
    var p := FindEqualityIndex(s, where, alias).value;
    var keep, ks := Selected(fa, s, alias, where, rows), SeekKeys(es, SortKey(p.lit));
    forall i, j | 0 <= i < j < |ks| && ks[i] in keep && ks[j] in keep ensures Less(ks[i], ks[j]) {
      KeptKey(fa, d, s, rows, n, where, alias, es, i);
      KeptKey(fa, d, s, rows, n, where, alias, es, j);
      SameHeadOrder(SortKey(p.lit), ks[i], ks[j]);
    }
    KeptRising(keep, ks);
  }

  lemma {:induction false} KeptKey(fa: FloatArith, d: Data, s: Schema, rows: RowMap, n: nat, where: Option<Expr>,
                                   alias: Bytes, es: seq<Entry>, j: nat)
    requires Setting(fa, d, s, rows, n, where, alias)
    requires var p := FindEqualityIndex(s, where, alias).value;
             && ListsFrom(d, Target(s, p.index), SortKey(p.lit), es) && j < PrefixCount(es, SortKey(p.lit))
             && es[j].val in Selected(fa, s, alias, where, rows)
    ensures es[j].key == SortKey(FindEqualityIndex(s, where, alias).value.lit) + es[j].val
  {
    var p := FindEqualityIndex(s, where, alias).value;
    SeekEntry(d, s, p.index, rows, n, SortKey(p.lit), es, j);
    SelectedIff(fa, d, s, rows, n, where, alias, es[j].val);
    PrefixOfEqual(rows[es[j].val][IndexColumn(s, p.index)], p.lit, es[j].val);
  }

  ghost predicate NoConfusion(s: Schema, rows: RowMap, p: Plan)
    requires SchemaOk(s) && p.index < |s.indexes|
  {
    forall rk :: rk in rows && IndexColumn(s, p.index) < |rows[rk]| ==>
      !Confusable(rows[rk][IndexColumn(s, p.index)], p.lit)
  }

  /** Index seek then filter gives the same rows in the same order as full scan then filter, exactly when no row
      holds a double that compares equal to the literal under another key. */
  lemma {:induction false} SeekIsScanIff(fa: FloatArith, d: Data, s: Schema, rows: RowMap, n: nat, where: Option<Expr>,
                                         alias: Bytes, heap: seq<Entry>, es: seq<Entry>)
    requires Setting(fa, d, s, rows, n, where, alias) && ListsFrom(d, TableTarget(s.name), [], heap)
    requires var p := FindEqualityIndex(s, where, alias).value; ListsFrom(d, Target(s, p.index), SortKey(p.lit), es)
    ensures var p, keep := FindEqualityIndex(s, where, alias).value, Selected(fa, s, alias, where, rows);
            Kept(keep, SeekKeys(es, SortKey(p.lit))) == Kept(keep, KeysOf(heap)) <==> NoConfusion(s, rows, p)
  {
    var p, keep := FindEqualityIndex(s, where, alias).value, Selected(fa, s, alias, where, rows);
    var a, b := Kept(keep, SeekKeys(es, SortKey(p.lit))), Kept(keep, KeysOf(heap));
    ScanKeys(d, s, rows, heap);
    KeptRising(keep, KeysOf(heap));
    SeekRising(fa, d, s, rows, n, where, alias, es);
    forall rk ensures rk in a <==> rk in b && !Confusable(rows[rk][IndexColumn(s, p.index)], p.lit) {
      SelectedIff(fa, d, s, rows, n, where, alias, rk);
      SeekFinds(d, s, p.index, rows, n, SortKey(p.lit), es, rk);
      if rk in b {
        PrefixOfEqual(rows[rk][IndexColumn(s, p.index)], p.lit, rk);
      }
    }
    if NoConfusion(s, rows, p) {
      RisingUnique(a, b);
    }
    if a == b {
      forall rk | rk in rows && IndexColumn(s, p.index) < |rows[rk]|
        ensures !Confusable(rows[rk][IndexColumn(s, p.index)], p.lit)
      {
        var v := rows[rk][IndexColumn(s, p.index)];
        assert RowOk(s, rk, rows[rk]);
        if Confusable(v, p.lit) {
          ConfusableEqual(v, p.lit);
        }
        SelectedIff(fa, d, s, rows, n, where, alias, rk);
        if EqualValues(v, p.lit) {
          assert rk in b;
        }
      }
    }
  }
}
