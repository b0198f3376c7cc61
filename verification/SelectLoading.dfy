/** A SELECT without joins gives the same answer whichever way its table was loaded. */
module SelectLoading {
  import opened Bytes
  import opened Entries
  import opened Recovery
  import opened Rows
  import opened Expressions
  import opened Tables
  import opened RowStatements
  import opened Seek
  import opened Loading
  import opened Sorting
  import opened Selects

  function Bound(s: Schema, alias: Bytes, vals: seq<Row>): (ts: seq<Tuple>)
    ensures |ts| == |vals| && forall i :: 0 <= i < |vals| ==> ts[i] == Alone(s, alias, vals[i])
  {
    seq(|vals|, i requires 0 <= i < |vals| => Alone(s, alias, vals[i]))
  }

  /** The rows with these keys. */
  ghost function RowsOf(rows: RowMap, ks: seq<Bytes>): (vs: seq<Row>)
    requires forall i :: 0 <= i < |ks| ==> ks[i] in rows
    ensures |vs| == |ks| && forall i :: 0 <= i < |ks| ==> vs[i] == rows[ks[i]]
  {
    seq(|ks|, i requires 0 <= i < |ks| => rows[ks[i]])
  }

  lemma {:induction false} KeptStored(keep: set<Bytes>, ks: seq<Bytes>, rows: RowMap)
    requires forall i :: 0 <= i < |ks| ==> ks[i] in rows
    ensures forall i :: 0 <= i < |Kept(keep, ks)| ==> Kept(keep, ks)[i] in rows
  {
    var r := Kept(keep, ks);
    forall i | 0 <= i < |r| ensures r[i] in rows {
      assert r[i] in ks;
    }
  }

  /** WHERE applied to the loaded rows leaves the rows of the keys that are selected. */
  lemma {:induction false} FilterIsKept(fa: FloatArith, s: Schema, alias: Bytes, where: Option<Expr>, rows: RowMap,
                                        l: Loaded, n: nat)
    requires RowsAt(rows, l) && n <= |l.keys| && forall i :: 0 <= i < |l.keys| ==> l.keys[i] in rows
    ensures var ks := Kept(Selected(fa, s, alias, where, rows), l.keys[..n]);
            && (forall i :: 0 <= i < |ks| ==> ks[i] in rows)
            && FilteredUpTo(fa, where, Bound(s, alias, l.vals), n) == Bound(s, alias, RowsOf(rows, ks))
    decreases n
  {
    var keep := Selected(fa, s, alias, where, rows);
    KeptStored(keep, l.keys[..n], rows);
    if n != 0 {
      FilterIsKept(fa, s, alias, where, rows, l, n - 1);
      assert Shows(rows, l.keys[n - 1], l.vals[n - 1]);
      assert l.keys[..n][..n - 1] == l.keys[..n - 1];
    }
  }

  ghost function KeptTuples(s: Schema, alias: Bytes, rows: RowMap, ks: seq<Bytes>): seq<Tuple>
    requires forall i :: 0 <= i < |ks| ==> ks[i] in rows
  {
    Bound(s, alias, RowsOf(rows, ks))
  }

  lemma {:induction false} FilterAll(fa: FloatArith, s: Schema, alias: Bytes, where: Option<Expr>, rows: RowMap,
                                     l: Loaded)
    requires RowsAt(rows, l)
    ensures var ks, ts := Kept(Selected(fa, s, alias, where, rows), l.keys), Bound(s, alias, l.vals);
            && (forall i :: 0 <= i < |ks| ==> ks[i] in rows)
            && FilteredUpTo(fa, where, ts, |ts|) == KeptTuples(s, alias, rows, ks)
  {
    forall i | 0 <= i < |l.keys| ensures l.keys[i] in rows {
      assert Shows(rows, l.keys[i], l.vals[i]);
    }
    FilterIsKept(fa, s, alias, where, rows, l, |l.keys|);
    assert l.keys[..|l.keys|] == l.keys;
  }

  /** What is kept decides the answer. */
  lemma {:induction false} SameKeptSameAnswer(fa: FloatArith, s: Schema, alias: Bytes, where: Option<Expr>,
                                              rows: RowMap, a: Loaded,
                                              b: Loaded, countOnly: bool, terms: seq<OrderTerm>, limit: Option<nat>)
    requires RowsAt(rows, a) && RowsAt(rows, b)
    requires Kept(Selected(fa, s, alias, where, rows), a.keys) == Kept(Selected(fa, s, alias, where, rows), b.keys)
    ensures AnswerTo(fa, Bound(s, alias, a.vals), where, countOnly, terms, limit) ==
            AnswerTo(fa, Bound(s, alias, b.vals), where, countOnly, terms, limit)
  {
    FilterAll(fa, s, alias, where, rows, a);
    FilterAll(fa, s, alias, where, rows, b);
  }

  /** The answer from an index seek is the answer from a full scan when the literal is not confusable with a stored
      double (`Loading.LoadedSelects` has the converse for the rows themselves). */
  lemma {:induction false} SeekAnswers(fa: FloatArith, d: Data, s: Schema, rows: RowMap, n: nat, where: Option<Expr>,
                                       alias: Bytes,
                                       seek: Loaded, scan: Loaded, heap: seq<Entry>, countOnly: bool,
                                         terms: seq<OrderTerm>,
                                       limit: Option<nat>)
    requires SchemaOk(s) && Agrees(d, s, rows) && RowsOk(s, rows, n) && Exact(s, rows, where, alias)
    requires RowsAt(rows, seek) && LoadsKeys(d, s, where, alias, seek.keys)
    requires RowsAt(rows, scan) && ListsFrom(d, TableTarget(s.name), [], heap) && scan.keys == KeysOf(heap)
    ensures AnswerTo(fa, Bound(s, alias, seek.vals), where, countOnly, terms, limit) ==
            AnswerTo(fa, Bound(s, alias, scan.vals), where, countOnly, terms, limit)
  {
    LoadedSelects(fa, d, s, rows, n, where, alias, seek.keys, heap);
    SameKeptSameAnswer(fa, s, alias, where, rows, seek, scan, countOnly, terms, limit);
  }
}
