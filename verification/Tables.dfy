/** A table's row heap and secondary indexes as parts of one store, and when they agree. */
module Tables {
  import opened Bytes
  import opened Entries
  import opened Pages
  import opened Recovery
  import opened Values
  import opened Rows
  import opened Expressions

  datatype Index = Index(name: Bytes, column: Bytes, unique: bool)

  datatype Schema = Schema(name: Bytes, columns: seq<Column>, indexes: seq<Index>)

  /** "T:" and the table's name. */
  function TableTarget(table: Bytes): Bytes { [84, 58] + table }

  /** "I:", the table's name, ":" and the index's name. */
  function IndexTarget(table: Bytes, index: Bytes): Bytes { [73, 58] + table + [58] + index }

  function Types(s: Schema): (ts: seq<Type>)
    ensures |ts| == |s.columns| && forall i :: 0 <= i < |ts| ==> ts[i] == s.columns[i].t
  {
    seq(|s.columns|, i requires 0 <= i < |s.columns| => s.columns[i].t)
  }

  predicate IndexOk(s: Schema, i: nat)
    requires i < |s.indexes|
  {
    ColumnIndex(s.columns, s.indexes[i].column).Some?
  }

  predicate NamesDiffer(s: Schema, i: nat, j: nat)
    requires i < |s.indexes| && j < |s.indexes|
  {
    s.indexes[i].name != s.indexes[j].name
  }

  /** Index columns exist and index names differ. */
  ghost predicate SchemaOk(s: Schema) {
    && (forall i :: 0 <= i < |s.indexes| ==> IndexOk(s, i))
    && (forall i, j :: 0 <= i < j < |s.indexes| ==> NamesDiffer(s, i, j))
  }

  function IndexColumn(s: Schema, i: nat): (c: nat)
    requires i < |s.indexes| && IndexOk(s, i)
    ensures c < |s.columns|
  {
    ColumnIndex(s.columns, s.indexes[i].column).value
  }

  function Target(s: Schema, i: nat): Bytes
    requires i < |s.indexes|
  {
    IndexTarget(s.name, s.indexes[i].name)
  }

  lemma {:induction false} TargetsDiffer(s: Schema, i: nat, j: nat)
    requires SchemaOk(s) && i < |s.indexes| && j < |s.indexes|
    ensures Target(s, i) == Target(s, j) <==> i == j
    ensures Target(s, i) != TableTarget(s.name)
  {
    assert i < j ==> NamesDiffer(s, i, j);
    assert j < i ==> NamesDiffer(s, j, i);
    var head := [73, 58] + s.name + [58];
    EqualConcat(head, head, s.indexes[i].name, s.indexes[j].name);
    assert Target(s, i)[0] == 73 && TableTarget(s.name)[0] == 84;
  }

  /** The trees of a table: its heap and its indexes. */
  function TreesOf(s: Schema): set<Bytes> {
    {TableTarget(s.name)} + set i | 0 <= i < |s.indexes| :: Target(s, i)
  }

  /** What the store holds apart from a table. */
  ghost function Others(d: Data, s: Schema): Data {
    map l | l in d && l.target !in TreesOf(s) :: d[l]
  }

  /** A write to one of a table's trees leaves everything else alone. */
  lemma {:induction false} OthersKept(d: Data, s: Schema, l: Loc, v: Bytes)
    requires l.target in TreesOf(s)
    ensures Others(d[l := v], s) == Others(d, s) == Others(d - {l}, s)
  {
  }

  function IndexKey(v: Value, rk: Bytes): Bytes { SortKey(v) + rk }

  /** Rows by row key. */
  type RowMap = map<Bytes, Row>

  /** A row key is the row's number, 8 bytes big-endian. */
  ghost predicate RowsOk(s: Schema, rows: RowMap, nextRow: nat) {
    forall rk :: rk in rows ==> RowOk(s, rk, rows[rk]) && U64(rk, 0) < nextRow
  }

  ghost predicate RowOk(s: Schema, rk: Bytes, r: Row) { RowFits(s, rk, r) && |RowBytes(r)| <= MAX_KEY_VALUE }

  ghost predicate RowFits(s: Schema, rk: Bytes, r: Row) { |rk| == 8 && Typed(r, Types(s)) }

  /** What an index on column c holds under k: the row key is the last 8 bytes. */
  function IndexAt(rows: RowMap, c: nat, k: Bytes): Option<Bytes> {
    if |k| < 8 then None else
    var rk := k[|k| - 8..];
    if rk in rows && c < |rows[rk]| && k == IndexKey(rows[rk][c], rk) then Some(rk) else None
  }

  ghost predicate HeapAgrees(d: Data, s: Schema, rows: RowMap) {
    forall k: Bytes :: At(d, Loc(TableTarget(s.name), k)) == if k in rows then Some(RowBytes(rows[k])) else None
  }

  ghost predicate IndexAgrees(d: Data, s: Schema, i: nat, rows: RowMap)
    requires SchemaOk(s) && i < |s.indexes|
  {
    forall k: Bytes :: At(d, Loc(Target(s, i), k)) == IndexAt(rows, IndexColumn(s, i), k)
  }

  /** The heap holds these rows and every index holds exactly one entry for each of them. */
  ghost predicate Agrees(d: Data, s: Schema, rows: RowMap)
    requires SchemaOk(s)
  {
    HeapAgrees(d, s, rows) && forall i :: 0 <= i < |s.indexes| ==> IndexAgrees(d, s, i, rows)
  }

  /** Each index holds the entries of its own set of rows: how things stand halfway through a statement. */
  ghost predicate IndexesHold(d: Data, s: Schema, views: seq<RowMap>)
    requires SchemaOk(s)
  {
    |views| == |s.indexes| && forall i :: 0 <= i < |s.indexes| ==> IndexAgrees(d, s, i, views[i])
  }

  // ---- One index and one row -----------------------------------------------

  lemma {:induction false} KeyEnds(v: Value, rk: Bytes)
    requires |rk| == 8
    ensures var k := IndexKey(v, rk); |k| > 8 && k[|k| - 8..] == rk
  {
  }

  /** Entries of different values or rows have different keys. */
  lemma {:induction false} KeysInjective(v: Value, a: Bytes, w: Value, b: Bytes)
    requires |a| == |b| == 8
    ensures IndexKey(v, a) == IndexKey(w, b) <==> a == b && SortKey(v) == SortKey(w)
  {
    KeyEnds(v, a);
    KeyEnds(w, b);
    var k, l := IndexKey(v, a), IndexKey(w, b);
    assert k[..|k| - 8] == SortKey(v) && l[..|l| - 8] == SortKey(w);
  }

  /** An index holds the entry of each of its rows, so deleting that entry cannot miss. */
  lemma {:induction false} EntryPresent(d: Data, s: Schema, i: nat, rows: RowMap, rk: Bytes)
    requires SchemaOk(s) && i < |s.indexes| && IndexAgrees(d, s, i, rows)
    requires rk in rows && RowFits(s, rk, rows[rk])
    ensures At(d, Loc(Target(s, i), IndexKey(rows[rk][IndexColumn(s, i)], rk))) == Some(rk)
  {
    var k := IndexKey(rows[rk][IndexColumn(s, i)], rk);
    KeyEnds(rows[rk][IndexColumn(s, i)], rk);
    assert IndexAt(rows, IndexColumn(s, i), k) == Some(rk);
  }

  lemma {:induction false} IndexAtOther(rows: RowMap, c: nat, rk: Bytes, r: Row, k: Bytes)
    requires |rk| == 8
    ensures !(|k| >= 8 && k[|k| - 8..] == rk) ==>
              IndexAt(rows[rk := r], c, k) == IndexAt(rows, c, k) == IndexAt(rows - {rk}, c, k)
  {
  }

  /** Removing a row's entry and, for a changed row, adding the new one. */
  lemma {:induction false} EntryRemoved(d: Data, s: Schema, i: nat, rows: RowMap, rk: Bytes, d': Data)
    requires SchemaOk(s) && i < |s.indexes| && IndexAgrees(d, s, i, rows)
    requires rk in rows && RowFits(s, rk, rows[rk])
    requires d' == d - {Loc(Target(s, i), IndexKey(rows[rk][IndexColumn(s, i)], rk))}
    ensures IndexAgrees(d', s, i, rows - {rk})
  {
    var t, c := Target(s, i), IndexColumn(s, i);
    var v := rows[rk][c];
    KeyEnds(v, rk);
    forall k: Bytes ensures At(d', Loc(t, k)) == IndexAt(rows - {rk}, c, k) {
      IndexAtOther(rows, c, rk, rows[rk], k);
      assert At(d, Loc(t, k)) == IndexAt(rows, c, k);
      assert At(d', Loc(t, k)) == if k == IndexKey(v, rk) then None else At(d, Loc(t, k));
    }
  }

  lemma {:induction false} EntryAdded(d: Data, s: Schema, i: nat, rows: RowMap, rk: Bytes, r: Row, d': Data)
    requires SchemaOk(s) && i < |s.indexes| && IndexAgrees(d, s, i, rows)
    requires rk !in rows && RowFits(s, rk, r)
    requires d' == d[Loc(Target(s, i), IndexKey(r[IndexColumn(s, i)], rk)) := rk]
    ensures IndexAgrees(d', s, i, rows[rk := r])
  {
    var t, c := Target(s, i), IndexColumn(s, i);
    var v := r[c];
    KeyEnds(v, rk);
    forall k: Bytes ensures At(d', Loc(t, k)) == IndexAt(rows[rk := r], c, k) {
      IndexAtOther(rows, c, rk, r, k);
      assert At(d, Loc(t, k)) == IndexAt(rows, c, k);
      assert At(d', Loc(t, k)) == if k == IndexKey(v, rk) then Some(rk) else At(d, Loc(t, k));
    }
  }

  /** An index left alone still fits a changed row exactly when the row's sort key has not changed. */
  lemma {:induction false} EntryKeptIff(d: Data, s: Schema, i: nat, rows: RowMap, rk: Bytes, r: Row)
    requires SchemaOk(s) && i < |s.indexes| && IndexAgrees(d, s, i, rows)
    requires rk in rows && RowFits(s, rk, rows[rk]) && RowFits(s, rk, r)
    ensures IndexAgrees(d, s, i, rows[rk := r]) <==>
            SortKey(rows[rk][IndexColumn(s, i)]) == SortKey(r[IndexColumn(s, i)])
  {
    var t, c := Target(s, i), IndexColumn(s, i);
    var v, w := rows[rk][c], r[c];
    KeysInjective(v, rk, w, rk);
    KeyEnds(w, rk);
    if IndexKey(v, rk) == IndexKey(w, rk) {
      forall k: Bytes ensures At(d, Loc(t, k)) == IndexAt(rows[rk := r], c, k) {
        IndexAtOther(rows, c, rk, r, k);
        assert At(d, Loc(t, k)) == IndexAt(rows, c, k);
      }
    } else {
      var k := IndexKey(w, rk);
      assert At(d, Loc(t, k)) == IndexAt(rows, c, k) == None;
      assert IndexAt(rows[rk := r], c, k) == Some(rk);
    }
  }

  lemma {:induction false} FieldLength(r: Row, i: nat)
    requires i < |r|
    ensures |ValueBytes(r[i])| <= |Fields(r)|
  {
    if i != 0 {
      FieldLength(r[1..], i - 1);
    }
  }

  /** A row that fits its heap can be read back. */
  lemma {:induction false} StoredRowDecodes(s: Schema, rk: Bytes, r: Row)
    requires RowOk(s, rk, r)
    ensures RowOf(RowBytes(r), Types(s)) == Some(r)
  {
    forall i | 0 <= i < |r| && r[i].TextV? ensures |r[i].s| < TWO32 {
      FieldLength(r, i);
    }
    RowRoundTripIff(r, Types(s));
  }

  // ---- Frames --------------------------------------------------------------

  ghost predicate SameOutside(d: Data, d': Data, t: Bytes) {
    forall l: Loc :: l.target != t ==> At(d', l) == At(d, l)
  }

  lemma {:induction false} IndexFrame(d: Data, d': Data, s: Schema, i: nat, rows: RowMap, t: Bytes)
    requires SchemaOk(s) && i < |s.indexes| && t != Target(s, i) && SameOutside(d, d', t)
    ensures IndexAgrees(d, s, i, rows) <==> IndexAgrees(d', s, i, rows)
  {
    forall k: Bytes ensures At(d', Loc(Target(s, i), k)) == At(d, Loc(Target(s, i), k)) {
    }
  }

  lemma {:induction false} HeapFrame(d: Data, d': Data, s: Schema, rows: RowMap, t: Bytes)
    requires t != TableTarget(s.name) && SameOutside(d, d', t) && HeapAgrees(d, s, rows)
    ensures HeapAgrees(d', s, rows)
  {
    forall k: Bytes ensures At(d', Loc(TableTarget(s.name), k)) == At(d, Loc(TableTarget(s.name), k)) {
    }
  }

  /** Work on one index leaves the heap and the other indexes as they were. */
  lemma {:induction false} IndexStep(d: Data, d': Data, s: Schema, n: nat, rows: RowMap, views: seq<RowMap>,
                                     view: RowMap)
    requires SchemaOk(s) && n < |s.indexes| && IndexesHold(d, s, views) && HeapAgrees(d, s, rows)
    requires SameOutside(d, d', Target(s, n)) && IndexAgrees(d', s, n, view)
    ensures IndexesHold(d', s, views[n := view]) && HeapAgrees(d', s, rows)
  {
    TargetsDiffer(s, n, n);
    HeapFrame(d, d', s, rows, Target(s, n));
    var after := views[n := view];
    forall i | 0 <= i < |s.indexes| ensures IndexAgrees(d', s, i, after[i]) {
      TargetsDiffer(s, i, n);
      if i != n {
        IndexFrame(d, d', s, i, views[i], Target(s, n));
      }
    }
  }

  /** A heap write leaves the indexes as they were. */
  lemma {:induction false} HeapStep(d: Data, d': Data, s: Schema, views: seq<RowMap>)
    requires SchemaOk(s) && IndexesHold(d, s, views) && SameOutside(d, d', TableTarget(s.name))
    ensures IndexesHold(d', s, views)
  {
    forall i | 0 <= i < |s.indexes| ensures IndexAgrees(d', s, i, views[i]) {
      TargetsDiffer(s, i, i);
      IndexFrame(d, d', s, i, views[i], TableTarget(s.name));
    }
  }

  ghost predicate RowsWithKey(rows: RowMap, c: nat, p: Bytes) {
    exists k: Bytes :: p <= k && IndexAt(rows, c, k).Some?
  }

  /** Whether some key has a prefix depends on the rows alone. */
  lemma {:induction false} KeysOfRows(d: Data, s: Schema, i: nat, rows: RowMap, p: Bytes)
    requires SchemaOk(s) && i < |s.indexes| && IndexAgrees(d, s, i, rows)
    ensures SomeKeyWith(d, Target(s, i), p) <==> RowsWithKey(rows, IndexColumn(s, i), p)
  {
    var t, c := Target(s, i), IndexColumn(s, i);
    if SomeKeyWith(d, t, p) {
      var k: Bytes :| p <= k && Loc(t, k) in d;
      assert At(d, Loc(t, k)) == IndexAt(rows, c, k);
    }
    if RowsWithKey(rows, c, p) {
      var k: Bytes :| p <= k && IndexAt(rows, c, k).Some?;
      assert At(d, Loc(t, k)) == IndexAt(rows, c, k);
    }
  }

  lemma {:induction false} HeapPut(d: Data, s: Schema, rows: RowMap, rk: Bytes, r: Row, d': Data)
    requires HeapAgrees(d, s, rows) && d' == d[Loc(TableTarget(s.name), rk) := RowBytes(r)]
    ensures HeapAgrees(d', s, rows[rk := r]) && SameOutside(d, d', TableTarget(s.name))
  {
    forall k: Bytes
      ensures At(d', Loc(TableTarget(s.name), k)) == if k in rows[rk := r] then Some(RowBytes(rows[rk := r][k]))
              else None
    {
      assert At(d, Loc(TableTarget(s.name), k)) == if k in rows then Some(RowBytes(rows[k])) else None;
    }
  }

  lemma {:induction false} HeapDelete(d: Data, s: Schema, rows: RowMap, rk: Bytes, d': Data)
    requires HeapAgrees(d, s, rows) && d' == d - {Loc(TableTarget(s.name), rk)}
    ensures HeapAgrees(d', s, rows - {rk}) && SameOutside(d, d', TableTarget(s.name))
  {
    forall k: Bytes
      ensures At(d', Loc(TableTarget(s.name), k)) == if k in rows - {rk} then Some(RowBytes((rows - {rk})[k])) else None
    {
      assert At(d, Loc(TableTarget(s.name), k)) == if k in rows then Some(RowBytes(rows[k])) else None;
    }
  }

  // ---- Listings and prefixes -----------------------------------------------

  /** What a cursor over a tree yields from a start key on. */
  ghost predicate ListsFrom(d: Data, target: Bytes, start: Bytes, es: seq<Entry>) {
    && Ascending(es)
    && (forall i :: 0 <= i < |es| ==> Leq(start, es[i].key) && At(d, Loc(target, es[i].key)) == Some(es[i].val))
    && (forall k: Bytes :: Leq(start, k) && Loc(target, k) in d ==> Listed(es, k))
  }

  ghost predicate Listed(es: seq<Entry>, k: Bytes) { exists i :: 0 <= i < |es| && es[i].key == k }

  lemma {:induction false} PrefixLeq(p: Bytes, k: Bytes)
    requires p <= k
    ensures Leq(p, k)
    decreases |p|
  {
    if |p| != 0 {
      assert p[1..] <= k[1..];
      PrefixLeq(p[1..], k[1..]);
      assert p == [p[0]] + p[1..] && k == [k[0]] + k[1..];
    }
  }

  /** Keys between a prefix and a key with that prefix have the prefix. */
  lemma {:induction false} PrefixBlock(p: Bytes, a: Bytes, b: Bytes)
    requires Leq(p, a) && Less(a, b) && p <= b
    ensures p <= a
    decreases |p|
  {
    if |p| != 0 && p != a {
      assert a[0] == p[0] == b[0];
      assert p[1..] <= b[1..];
      PrefixBlock(p[1..], a[1..], b[1..]);
      assert p == [p[0]] + p[1..] && a == [a[0]] + a[1..];
    }
  }

  /** The number of leading entries whose key has the prefix: where the index lookup loop stops. */
  function PrefixCount(es: seq<Entry>, p: Bytes): (n: nat)
    ensures n <= |es|
    ensures forall i :: 0 <= i < n ==> p <= es[i].key
    ensures n < |es| ==> !(p <= es[n].key)
    decreases |es|
  {
    if |es| == 0 || !(p <= es[0].key) then 0 else
    var n := PrefixCount(es[1..], p);
    assert forall i :: 0 < i <= n ==> es[i] == es[1..][i - 1];
    1 + n
  }

  /** The lookup loop stops after all keys with the prefix. */
  lemma {:induction false} PrefixCountAll(d: Data, target: Bytes, p: Bytes, es: seq<Entry>, k: Bytes)
    requires ListsFrom(d, target, p, es) && Loc(target, k) in d && p <= k
    ensures exists i :: 0 <= i < PrefixCount(es, p) && es[i].key == k
  {
    PrefixLeq(p, k);
    assert Listed(es, k);
    var i :| 0 <= i < |es| && es[i].key == k;
    var n := PrefixCount(es, p);
    if n <= i {
      if n < i {
        PrefixBlock(p, es[n].key, es[i].key);
      }
      assert false;
    }
  }

  ghost predicate SomeKeyWith(d: Data, target: Bytes, p: Bytes) {
    exists k: Bytes :: p <= k && Loc(target, k) in d
  }

  /** `checkUniqueViaTxn` and `hasIndexEntryForValue` look at the first key at or after the prefix only; that
      decides whether any key has it. */
  lemma {:induction false} FirstKeyDecides(d: Data, target: Bytes, p: Bytes, es: seq<Entry>)
    requires ListsFrom(d, target, p, es)
    ensures (|es| > 0 && p <= es[0].key) <==> SomeKeyWith(d, target, p)
  {
    if |es| > 0 && p <= es[0].key {
      assert At(d, Loc(target, es[0].key)).Some?;
    }
    if SomeKeyWith(d, target, p) {
      var k: Bytes :| p <= k && Loc(target, k) in d;
      PrefixCountAll(d, target, p, es, k);
    }
  }

  // ---- Uniqueness ----------------------------------------------------------

  ghost predicate SomeRowWith(rows: RowMap, c: nat, v: Value) {
    exists rk :: rk in rows && c < |rows[rk]| && SortKey(rows[rk][c]) == SortKey(v)
  }

  ghost predicate Apart(v: Value, w: Value) { !v.Null? && !w.Null? ==> SortKey(v) != SortKey(w) }

  /** No two rows share a value of the column, NULL aside. */
  ghost predicate Distinct(rows: RowMap, c: nat) {
    forall a, b :: a in rows && b in rows && a != b && c < |rows[a]| && c < |rows[b]| ==> Apart(rows[a][c], rows[b][c])
  }

  ghost predicate UniqueOk(s: Schema, rows: RowMap)
    requires SchemaOk(s)
  {
    forall i :: 0 <= i < |s.indexes| && s.indexes[i].unique ==> Distinct(rows, IndexColumn(s, i))
  }

  // Uniqueness as SQL means it: no two rows have values that `=` calls equal. The indexes keep sort keys apart, which
  // is the same except for confusable doubles.

  predicate Unequal(v: Value, w: Value) { !v.Null? && !w.Null? ==> CompareValues(v, w) != 0 }

  ghost predicate ValuesDiffer(rows: RowMap, c: nat) {
    forall a, b :: a in rows && b in rows && a != b && c < |rows[a]| && c < |rows[b]| ==>
      Unequal(rows[a][c], rows[b][c])
  }

  ghost predicate NoneConfused(rows: RowMap, c: nat) {
    forall a, b :: a in rows && b in rows && a != b && c < |rows[a]| && c < |rows[b]| ==>
      !Confusable(rows[a][c], rows[b][c])
  }

  lemma {:induction false} ValuesDifferIff(s: Schema, rows: RowMap, n: nat, c: nat)
    requires RowsOk(s, rows, n) && c < |s.columns|
    ensures ValuesDiffer(rows, c) <==> Distinct(rows, c) && NoneConfused(rows, c)
  {
    forall a, b | a in rows && b in rows
      ensures c < |rows[a]| && c < |rows[b]|
      ensures Unequal(rows[a][c], rows[b][c]) <==> Apart(rows[a][c], rows[b][c]) && !Confusable(rows[a][c], rows[b][c])
    {
      assert RowOk(s, a, rows[a]) && RowOk(s, b, rows[b]);
      UnequalIff(rows[a][c], rows[b][c]);
    }
  }

  lemma {:induction false} UnequalIff(v: Value, w: Value)
    requires TypeOf(v) == TypeOf(w)
    ensures Unequal(v, w) <==> Apart(v, w) && !Confusable(v, w)
  {
    EqualKeysIff(v, w);
  }

  /** Every unique column is unique in SQL's sense. */
  ghost predicate ValuesUnique(s: Schema, rows: RowMap)
    requires SchemaOk(s)
  {
    forall i :: 0 <= i < |s.indexes| && s.indexes[i].unique ==> ValuesDiffer(rows, IndexColumn(s, i))
  }

  ghost predicate KeysTell(s: Schema, rows: RowMap)
    requires SchemaOk(s)
  {
    forall i :: 0 <= i < |s.indexes| && s.indexes[i].unique ==> NoneConfused(rows, IndexColumn(s, i))
  }

  /** What the indexes enforce is uniqueness exactly when no two rows hold confusable doubles. */
  lemma {:induction false} ValuesUniqueIff(s: Schema, rows: RowMap, n: nat)
    requires SchemaOk(s) && RowsOk(s, rows, n)
    ensures ValuesUnique(s, rows) <==> UniqueOk(s, rows) && KeysTell(s, rows)
  {
    forall i | 0 <= i < |s.indexes| && s.indexes[i].unique
      ensures ValuesDiffer(rows, IndexColumn(s, i)) <==>
              Distinct(rows, IndexColumn(s, i)) && NoneConfused(rows, IndexColumn(s, i))
    {
      ValuesDifferIff(s, rows, n, IndexColumn(s, i));
    }
  }

  /** A row may be added, or a row's value changed, when no row has the new value. */
  lemma {:induction false} DistinctAdded(rows: RowMap, c: nat, rk: Bytes, r: Row)
    requires Distinct(rows, c) && c < |r|
    requires r[c].Null? || !SomeRowWith(rows, c, r[c])
             || (rk in rows && c < |rows[rk]| && SortKey(rows[rk][c]) == SortKey(r[c]))
    ensures Distinct(rows[rk := r], c)
  {
    var later := rows[rk := r];
    forall a, b | a in later && b in later && a != b && c < |later[a]| && c < |later[b]|
      ensures Apart(later[a][c], later[b][c])
    {
      if rk in rows && c < |rows[rk]| && SortKey(rows[rk][c]) == SortKey(r[c]) {
        SameNullness(rows[rk][c], r[c]);
        assert a in rows && b in rows && Apart(rows[a][c], rows[b][c]);
      } else if a != rk && b != rk {
        assert Apart(rows[a][c], rows[b][c]);
      }
    }
  }

  lemma {:induction false} SameNullness(v: Value, w: Value)
    requires SortKey(v) == SortKey(w)
    ensures v.Null? <==> w.Null?
  {
    assert SortKey(v)[0] == SortKey(w)[0];
  }
}
