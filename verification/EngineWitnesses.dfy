/** Small inputs that show where the engine does less than it seems to promise. */
module EngineWitnesses {
  import opened Bytes
  import opened Entries
  import opened Pages
  import opened Recovery
  import opened Values
  import opened Rows
  import opened Expressions
  import opened Tables
  import opened RowStatements
  import opened RowBuilding
  import opened Inserts
  import opened Updates
  import opened UpdateMeaning
  import opened Backfills
  import opened Sorting

  /** Zero and negative zero compare as equal and lie under different index keys; so do a NaN and one. */
  lemma {:induction false} ZeroesAreConfusable()
    ensures Confusable(FloatV(NEGATIVE_ZERO), FloatV(0)) && Confusable(FloatV(QUIET_NAN), FloatV(ONE))
    ensures CompareValues(FloatV(NEGATIVE_ZERO), FloatV(0)) == 0 && SortKey(FloatV(NEGATIVE_ZERO)) != SortKey(FloatV(0))
  {
    EqualKeysIff(FloatV(NEGATIVE_ZERO), FloatV(0));
  }

  function TextSchema(): Schema { Schema([], [Column([], Text, false)], [Index([], [], true)]) }

  /** A unique TEXT column that holds "ab" refuses "a", which no row has. */
  lemma {:induction false} TextOverRejects(rk: Bytes)
    requires |rk| == 8
    ensures var rows: RowMap := map[rk := [TextV([97, 98])]];
            && SchemaOk(TextSchema())
            && !SomeRowWith(rows, 0, TextV([97]))
            && !EntryFits(TextSchema(), 0, rows, U64Bytes(1), TextV([97]))
  {
    var s, rows: RowMap := TextSchema(), map[rk := [TextV([97, 98])]];
    assert IndexOk(s, 0);
    assert IndexColumn(s, 0) == 0;
    var k := IndexKey(TextV([97, 98]), rk);
    KeyEnds(TextV([97, 98]), rk);
    assert k[..2] == [1, 97];
    assert SortKey(TextV([97])) == [1, 97] <= k;
    assert IndexAt(rows, 0, k) == Some(rk);
    assert SortKey(TextV([97, 98])) == [1, 97, 98];
  }

  /** An insert whose row is too large for the heap but whose index key is not: the index entry is written, the
      row is not (`RowStatements.InsertRow`). */
  lemma {:induction false} LargeRowFitsItsIndex(rk: Bytes, text: Bytes)
    requires |rk| == 8 && MAX_KEY_VALUE < |text| < TWO32
    ensures var s := Schema([], [Column([1], Integer, false), Column([2], Text, false)], [Index([], [1], false)]);
            var r := [IntV(7), TextV(text)];
            && SchemaOk(s) && Typed(r, Types(s))
            && EntriesFit(s, 1, map[], rk, r) && !Insertable(s, map[], rk, r)
  {
    var s := Schema([], [Column([1], Integer, false), Column([2], Text, false)], [Index([], [1], false)]);
    var r := [IntV(7), TextV(text)];
    assert IndexOk(s, 0);
    assert IndexColumn(s, 0) == 0;
    assert EntriesFit(s, 0, map[], rk, r);
    assert EntryFits(s, 0, map[], rk, r[0]);
    assert r[1..] == [TextV(text)];
    assert |Fields(r)| >= |Fields(r[1..])| >= |text|;
  }

  function TwoUnique(): Schema {
    Schema([], [Column([1], Integer, false), Column([2], Integer, false)],
           [Index([1], [1], true), Index([2], [2], true)])
  }

  /** A row with a new value for the first unique column and a taken one for the second: the first index keeps its
      entry (`RowStatements.InsertRow`). */
  lemma {:induction false} SecondIndexTears(a: Bytes, b: Bytes)
    requires |a| == |b| == 8
    ensures var s, rows: RowMap, r := TwoUnique(), map[a := [IntV(1), IntV(5)]], [IntV(2), IntV(5)];
            SchemaOk(s) && Typed(r, Types(s)) && InsertTears(s, rows, b, r) && !Insertable(s, rows, b, r)
  {
    var s, rows: RowMap, r := TwoUnique(), map[a := [IntV(1), IntV(5)]], [IntV(2), IntV(5)];
    TwoUniqueOk(s);
    FirstFree(rows, a);
    SecondTaken(rows, a);
    assert EntryFits(s, 0, rows, b, r[0]);
    assert !EntryFits(s, 1, rows, b, r[1]);
  }

  lemma {:induction false} TwoUniqueOk(s: Schema)
    requires s == TwoUnique()
    ensures SchemaOk(s) && IndexColumn(s, 0) == 0 && IndexColumn(s, 1) == 1
  {
    assert IndexOk(s, 0) && IndexOk(s, 1);
    assert NamesDiffer(s, 0, 1);
  }

  lemma {:induction false} FirstFree(rows: RowMap, a: Bytes)
    requires |a| == 8 && rows == map[a := [IntV(1), IntV(5)]]
    ensures !RowsWithKey(rows, 0, SortKey(IntV(2)))
  {
    forall k: Bytes | SortKey(IntV(2)) <= k ensures IndexAt(rows, 0, k).None? {
      if IndexAt(rows, 0, k).Some? {
        FixedWidthPrefix(IntV(2), IntV(1), a);
        EqualKeysIff(IntV(2), IntV(1));
      }
    }
  }

  lemma {:induction false} SecondTaken(rows: RowMap, a: Bytes)
    requires |a| == 8 && rows == map[a := [IntV(1), IntV(5)]]
    ensures RowsWithKey(rows, 1, SortKey(IntV(5)))
  {
    var k := IndexKey(IntV(5), a);
    KeyEnds(IntV(5), a);
    assert SortKey(IntV(5)) <= k && IndexAt(rows, 1, k) == Some(a);
  }

  /** A unique column of doubles takes zero and negative zero, which are equal. */
  lemma {:induction false} ZeroesPassAsUnique(a: Bytes, b: Bytes)
    requires a != b
    ensures var rows: RowMap := map[a := [FloatV(0)], b := [FloatV(NEGATIVE_ZERO)]];
            Distinct(rows, 0) && !ValuesDiffer(rows, 0)
  {
    var rows: RowMap := map[a := [FloatV(0)], b := [FloatV(NEGATIVE_ZERO)]];
    ZeroesAreConfusable();
    assert !Unequal(rows[b][0], rows[a][0]);
  }

  /** It also refuses "ab" with a zero byte, with which no text starts: the probe runs on into the row key. */
  lemma {:induction false} RowKeyOverRejects(rk: Bytes)
    requires |rk| == 8 && rk[0] == 0
    ensures var rows: RowMap := map[rk := [TextV([97, 98])]];
            && SchemaOk(TextSchema())
            && !SomeRowWith(rows, 0, TextV([97, 98, 0]))
            && !EntryFits(TextSchema(), 0, rows, U64Bytes(1), TextV([97, 98, 0]))
  {
    var s, rows: RowMap, w := TextSchema(), map[rk := [TextV([97, 98])]], TextV([97, 98]);
    assert IndexOk(s, 0);
    assert IndexColumn(s, 0) == 0;
    var k := IndexKey(w, rk);
    KeyEnds(w, rk);
    assert ([97, 98] + rk)[..3] == [97, 98, 0];
    TextKeyStarts([97, 98, 0], w, rk);
    assert IndexAt(rows, 0, k) == Some(rk);
    EqualTextKeys(w, [97, 98, 0]);
  }

  // ---- UPDATE --------------------------------------------------------------

  ghost predicate HasInt(rows: RowMap, c: nat, x: int64)
  { exists rk :: rk in rows && c < |rows[rk]| && rows[rk][c] == IntV(x) }

  lemma {:induction false} IntProbe(s: Schema, i: nat, rows: RowMap, n: nat, x: int64)
    requires SchemaOk(s) && i < |s.indexes| && RowsOk(s, rows, n) && Types(s)[IndexColumn(s, i)] == Integer
    ensures RowsWithKey(rows, IndexColumn(s, i), SortKey(IntV(x))) <==> HasInt(rows, IndexColumn(s, i), x)
  {
    var c := IndexColumn(s, i);
    KeyMeansRow(s, i, rows, n, IntV(x));
    forall rk | rk in rows && c < |rows[rk]| ensures SortKey(rows[rk][c]) == SortKey(IntV(x)) <==>
      rows[rk][c] == IntV(x)
    {
      assert RowOk(s, rk, rows[rk]);
      IntKey(rows[rk][c], x);
    }
  }

  lemma {:induction false} IntKey(v: Value, x: int64)
    requires TypeOf(v) == Integer
    ensures SortKey(v) == SortKey(IntV(x)) <==> v == IntV(x)
  {
    if v.Null? {
      assert SortKey(v)[0] != SortKey(IntV(x))[0];
    } else {
      EqualKeysIff(v, IntV(x));
    }
  }

  function IntRow(x: int64, y: int64): Row { [IntV(x), IntV(y)] }

  lemma {:induction false} IntRowFits(s: Schema, rk: Bytes, x: int64, y: int64)
    requires s == TwoUnique() && |rk| == 8
    ensures SchemaOk(s) && RowOk(s, rk, IntRow(x, y))
  {
    TwoUniqueOk(s);
    var r := IntRow(x, y);
    assert r[1..] == [IntV(y)] && [IntV(y)][1..] == [];
    assert Fields(r) == ValueBytes(r[0]) + (ValueBytes(r[1]) + Fields([]));
  }

  lemma {:induction false} IntRowInserts(s: Schema, rows: RowMap, n: nat, rk: Bytes, x: int64, y: int64)
    requires s == TwoUnique() && SchemaOk(s) && RowsOk(s, rows, n) && |rk| == 8 && !HasInt(rows, 0, x)
             && !HasInt(rows, 1, y)
    ensures Typed(IntRow(x, y), Types(s)) && Insertable(s, rows, rk, IntRow(x, y))
  {
    IntRowFits(s, rk, x, y);
    TwoUniqueOk(s);
    IntProbe(s, 0, rows, n, x);
    IntProbe(s, 1, rows, n, y);
    var r := IntRow(x, y);
    assert EntriesFit(s, 0, rows, rk, r);
    assert EntryFits(s, 0, rows, rk, r[0]) && EntryFits(s, 1, rows, rk, r[1]);
    assert EntriesFit(s, 1, rows, rk, r);
  }

  function TwoRows(a: Bytes, x: int64, y: int64, b: Bytes, x': int64, y': int64): RowMap {
    map[a := IntRow(x, y)][b := IntRow(x', y')]
  }

  /** Two rows that INSERT takes. An UPDATE gives the second a new value in the first unique column and a taken one in
      the second: the first index has moved its entry when the second refuses (`RowStatements.UpdateRow`). */
  lemma {:induction false} SecondIndexTearsUpdate(a: Bytes, b: Bytes, x: int64, y: int64, x': int64, y': int64,
                                                  z: int64)
    requires |a| == |b| == 8 && a != b && y != y' && x != x' && z != x && z != x'
    ensures var s, rows: RowMap := TwoUnique(), TwoRows(a, x, y, b, x', y');
            && SchemaOk(s) && Typed(IntRow(x, y), Types(s)) && Typed(IntRow(x', y'), Types(s))
              && Typed(IntRow(z, y), Types(s))
            && Insertable(s, map[], a, IntRow(x, y)) && Insertable(s, map[a := IntRow(x, y)], b, IntRow(x', y'))
            && UpdateTears(s, [rows, rows], IntRow(x', y'), IntRow(z, y))
            && !Updatable(s, [rows, rows], b, IntRow(x', y'), IntRow(z, y))
  {
    var s, rows: RowMap := TwoUnique(), TwoRows(a, x, y, b, x', y');
    TwoRowsInsert(s, a, x, y, b, x', y');
    IntRowFits(s, b, z, y);
    var n := U64(a, 0) + U64(b, 0) + 1;
    TwoRowsHold(s, n, a, x, y, b, x', y', z);
    SecondRefuses(s, rows, n, b, x', y', z, y);
  }

  lemma {:induction false} TwoRowsInsert(s: Schema, a: Bytes, x: int64, y: int64, b: Bytes, x': int64, y': int64)
    requires s == TwoUnique() && |a| == |b| == 8 && y != y' && x != x'
    ensures SchemaOk(s) && Typed(IntRow(x, y), Types(s)) && Typed(IntRow(x', y'), Types(s))
    ensures Insertable(s, map[], a, IntRow(x, y)) && Insertable(s, map[a := IntRow(x, y)], b, IntRow(x', y'))
  {
    IntRowFits(s, a, x, y);
    IntRowInserts(s, map[], 0, a, x, y);
    IntRowInserts(s, map[a := IntRow(x, y)], U64(a, 0) + 1, b, x', y');
  }

  lemma {:induction false} TwoRowsHold(s: Schema, n: nat, a: Bytes, x: int64, y: int64, b: Bytes, x': int64, y': int64,
                                       z: int64)
    requires s == TwoUnique() && |a| == |b| == 8 && a != b && n > U64(a, 0) && n > U64(b, 0) && z != x && z != x'
    ensures var rows := TwoRows(a, x, y, b, x', y'); RowsOk(s, rows, n) && !HasInt(rows, 0, z) && HasInt(rows, 1, y)
  {
    var rows := TwoRows(a, x, y, b, x', y');
    IntRowFits(s, a, x, y);
    IntRowFits(s, b, x', y');
    assert a in rows && rows[a][1] == IntV(y);
  }

  lemma {:induction false} SecondRefuses(s: Schema, rows: RowMap, n: nat, rk: Bytes, x: int64, y: int64, x': int64,
                                         y': int64)
    requires s == TwoUnique() && RowsOk(s, rows, n) && |rk| == 8 && x' != x && y' != y
    requires !HasInt(rows, 0, x') && HasInt(rows, 1, y')
    ensures SchemaOk(s) && Typed(IntRow(x, y), Types(s)) && Typed(IntRow(x', y'), Types(s))
    ensures UpdateTears(s, [rows, rows], IntRow(x, y), IntRow(x', y'))
    ensures !Updatable(s, [rows, rows], rk, IntRow(x, y), IntRow(x', y'))
  {
    IntRowFits(s, rk, x, y);
    IntRowFits(s, rk, x', y');
    TwoUniqueOk(s);
    IntProbe(s, 0, rows, n, x');
    IntProbe(s, 1, rows, n, y');
    FirstMoves(s, [rows, rows], rk, IntRow(x, y), IntRow(x', y'));
  }

  lemma {:induction false} FirstMoves(s: Schema, views: seq<RowMap>, rk: Bytes, r: Row, r': Row)
    requires s == TwoUnique() && SchemaOk(s) && Typed(r, Types(s)) && Typed(r', Types(s)) && |views| == 2
    requires IndexColumn(s, 0) == 0 && IndexColumn(s, 1) == 1
    requires CompareValues(r[0], r'[0]) != 0 && CompareValues(r[1], r'[1]) != 0 && !r'[1].Null?
    requires !RowsWithKey(views[0], 0, SortKey(r'[0])) && RowsWithKey(views[1], 1, SortKey(r'[1]))
    ensures UpdateTears(s, views, r, r') && !Updatable(s, views, rk, r, r')
  {
    assert Moves(s, 0, r, r');
    assert FirstMoved(s, 1, r, r') == 0;
    assert !EntryMoves(s, 1, views[1], rk, r[1], r'[1]);
  }

  function FloatSchema(): Schema { Schema([], [Column([1], Float, false)], [Index([], [1], false)]) }

  /** UPDATE SET to minus zero. */
  function ToNegativeZero(fa: FloatArith): Update {
    Update(fa, FloatSchema(), [], None, [0], [Unary(Neg, Lit(FloatL(0)))])
  }

  /** A row with zero in an indexed column, which INSERT takes. The UPDATE to minus zero succeeds and leaves the index
      with the entry of zero. */
  lemma {:induction false} NegativeZeroGoesStale(fa: FloatArith, rk: Bytes)
    requires |rk| == 8
    ensures var u, rows: RowMap := ToNegativeZero(fa), map[rk := [FloatV(0)]];
            && UpdateOk(u) && RowsTyped(u.s, rows) && Insertable(u.s, map[], rk, [FloatV(0)])
            && Judge(u, [FloatV(0)]) == Change([FloatV(NEGATIVE_ZERO)])
            && Updatable(u.s, [rows], rk, [FloatV(0)], [FloatV(NEGATIVE_ZERO)])
            && !AllFollowed(u, rows, {rk})
  {
    var u, rows: RowMap := ToNegativeZero(fa), map[rk := [FloatV(0)]];
    NegatesZero(fa);
    ZeroUpdates(u.s, rows, rk, [FloatV(0)], [FloatV(NEGATIVE_ZERO)]);
    assert Stale(u.s, 0, rows[rk], NewRow(u, rows[rk]));
  }

  lemma {:induction false} ZeroUpdates(s: Schema, rows: RowMap, rk: Bytes, r: Row, r': Row)
    requires s == FloatSchema() && r == [FloatV(0)] && r' == [FloatV(NEGATIVE_ZERO)] && |rk| == 8
    ensures SchemaOk(s) && Typed(r, Types(s)) && Typed(r', Types(s)) && IndexColumn(s, 0) == 0
    ensures Insertable(s, map[], rk, r) && Updatable(s, [rows], rk, r, r') && Stale(s, 0, r, r')
  {
    assert IndexOk(s, 0) && IndexColumn(s, 0) == 0;
    OneFloat(r, rk);
    OneFloat(r', rk);
    assert EntriesFit(s, 0, map[], rk, r);
    ZeroesAreConfusable();
    assert CompareValues(r[0], r'[0]) == 0;
    assert EntriesMove(s, 0, [rows], rk, r, r');
  }

  lemma {:induction false} OneFloat(r: Row, rk: Bytes)
    requires |r| == 1 && r[0].FloatV? && |rk| == 8
    ensures |RowBytes(r)| <= MAX_KEY_VALUE && |IndexKey(r[0], rk)| <= MAX_KEY_VALUE
  {
    assert r[1..] == [];
    assert Fields(r) == ValueBytes(r[0]) + Fields([]);
  }

  lemma {:induction false} NegatesZero(fa: FloatArith)
    ensures UpdateOk(ToNegativeZero(fa)) && Typed([FloatV(0)], Types(FloatSchema()))
    ensures Judge(ToNegativeZero(fa), [FloatV(0)]) == Change([FloatV(NEGATIVE_ZERO)])
  {
    var u, r := ToNegativeZero(fa), [FloatV(0)];
    assert IndexOk(u.s, 0);
    var tp := Seek.Alone(u.s, u.alias, r);
    assert Eval(fa, u.es[0], tp) == Some(FloatV(NEGATIVE_ZERO));
    assert Assigned(fa, u.s, tp, u.pos, u.es, r, 0) == Some(r);
    assert Coerce(FloatV(NEGATIVE_ZERO), u.s.columns[0].t) == Some(FloatV(NEGATIVE_ZERO));
    assert r[0 := FloatV(NEGATIVE_ZERO)] == [FloatV(NEGATIVE_ZERO)];
    assert Assigned(fa, u.s, tp, u.pos, u.es, r, 1) == Some([FloatV(NEGATIVE_ZERO)]);
  }

  // ---- CREATE UNIQUE INDEX -------------------------------------------------

  function PlainSchema(): Schema { Schema([], [Column([1], Integer, false)], []) }

  /** Two rows without a value: with the unique index in place INSERT takes both; afterwards it cannot be built. */
  lemma {:induction false} NullsRefuseBackfill(a: Bytes, b: Bytes, d: Data, n: nat, es: seq<Entry>)
    requires |a| == |b| == 8 && a != b
    requires ScanOk(d, PlainSchema(), map[a := [Null(Integer)], b := [Null(Integer)]], n, es)
    ensures var s, ix, r := PlainSchema(), Index([2], [1], true), [Null(Integer)];
            && Addable(s, ix) && SchemaOk(WithIndex(s, ix)) && Typed(r, Types(WithIndex(s, ix)))
            && Insertable(WithIndex(s, ix), map[], a, r) && Insertable(WithIndex(s, ix), map[a := r], b, r)
            && !RowsIndexed(s, ix, map[a := r, b := r], es, |es|)
  {
    var s, ix, r := PlainSchema(), Index([2], [1], true), [Null(Integer)];
    var w, rows: RowMap := WithIndex(s, ix), map[a := r, b := r];
    assert ColumnIndex(s.columns, [1]) == Some(0);
    WithIndexOk(s, ix);
    assert r[1..] == [];
    assert EntriesFit(w, 0, map[], a, r) && EntriesFit(w, 0, map[a := r], b, r);
    BackfillUniqueIff(d, s, ix, rows, n, es);
    assert rows[a][0].Null? && rows[b][0].Null?;
  }
}
