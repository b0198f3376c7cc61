/** A row's values from a list of expressions and the columns they are for. */
module RowBuilding {
  import opened Bytes
  import opened Entries
  import opened Values
  import opened Rows
  import opened Expressions
  import opened Tables

  function Names(s: Schema): (ns: seq<Bytes>)
    ensures |ns| == |s.columns| && forall i :: 0 <= i < |ns| ==> ns[i] == s.columns[i].name
  {
    seq(|s.columns|, i requires 0 <= i < |s.columns| => s.columns[i].name)
  }

  /** Where the named columns are; None if one does not exist. */
  function Positions(s: Schema, names: seq<Bytes>): (p: Option<seq<nat>>)
    ensures p.Some? ==> |p.value| == |names| && forall i :: 0 <= i < |names| ==> p.value[i] < |s.columns|
    decreases |names|
  {
    if |names| == 0 then Some([]) else
    var p, c := Positions(s, names[..|names| - 1]), ColumnIndex(s.columns, names[|names| - 1]);
    if p.None? || c.None? then None else Some(p.value + [c.value])
  }

  function Blank(s: Schema): (r: Row)
    ensures Typed(r, Types(s)) && forall i :: 0 <= i < |r| ==> r[i].Null?
  {
    seq(|s.columns|, i requires 0 <= i < |s.columns| => Null(s.columns[i].t))
  }

  /** The row with the first n expressions evaluated, converted and put in place. */
  function Assigned(fa: FloatArith, s: Schema, tp: Tuple, pos: seq<nat>, es: seq<Expr>, r: Row,
                    n: nat): (v: Option<Row>)
    requires n <= |es| == |pos| && (forall i :: 0 <= i < |pos| ==> pos[i] < |s.columns|) && Typed(r, Types(s))
    ensures v.Some? ==> Typed(v.value, Types(s))
    decreases n
  {
    if n == 0 then Some(r) else
    var p := Assigned(fa, s, tp, pos, es, r, n - 1);
    if p.None? then None else
    var x := Eval(fa, es[n - 1], tp);
    if x.None? then None else
    var c := Coerce(x.value, s.columns[pos[n - 1]].t);
    if c.None? then None else Some(p.value[pos[n - 1] := c.value])
  }

  predicate NotNullOk(s: Schema, r: Row)
    requires |r| == |s.columns|
  {
    forall i :: 0 <= i < |r| && s.columns[i].notNull ==> !r[i].Null?
  }

  /** The row after all assignments, if they succeed and leave no NOT NULL column null. */
  function BuiltRow(fa: FloatArith, s: Schema, tp: Tuple, pos: seq<nat>, es: seq<Expr>, r: Row): (v: Option<Row>)
    requires |es| == |pos| && (forall i :: 0 <= i < |pos| ==> pos[i] < |s.columns|) && Typed(r, Types(s))
    ensures v.Some? ==> Typed(v.value, Types(s))
  {
    var a := Assigned(fa, s, tp, pos, es, r, |es|);
    if a.None? || !NotNullOk(s, a.value) then None else a
  }

  lemma {:induction false} AssignedFails(fa: FloatArith, s: Schema, tp: Tuple, pos: seq<nat>, es: seq<Expr>, r: Row,
                                         m: nat, n: nat)
    requires m <= n <= |es| == |pos| && (forall i :: 0 <= i < |pos| ==> pos[i] < |s.columns|) && Typed(r, Types(s))
    requires Assigned(fa, s, tp, pos, es, r, m).None?
    ensures Assigned(fa, s, tp, pos, es, r, n).None?
    decreases n
  {
    if m < n {
      AssignedFails(fa, s, tp, pos, es, r, m, n - 1);
    }
  }

  method BuildRow(fa: FloatArith, s: Schema, tp: Tuple, pos: seq<nat>, es: seq<Expr>, r: Row) returns (v: Option<Row>)
    requires |es| == |pos| && (forall i :: 0 <= i < |pos| ==> pos[i] < |s.columns|) && Typed(r, Types(s))
    ensures v == BuiltRow(fa, s, tp, pos, es, r)
  {
    var values := r;
    for i := 0 to |es|
      invariant Assigned(fa, s, tp, pos, es, r, i) == Some(values)
    {
      var x := Eval(fa, es[i], tp);
      if x.None? {
        AssignedFails(fa, s, tp, pos, es, r, i + 1, |es|);
        return None;
      }
      var c := Coerce(x.value, s.columns[pos[i]].t);
      if c.None? {
        AssignedFails(fa, s, tp, pos, es, r, i + 1, |es|);
        return None;
      }
      values := values[pos[i] := c.value];
    }
    for i := 0 to |s.columns|
      invariant forall j :: 0 <= j < i && s.columns[j].notNull ==> !values[j].Null?
    {
      if s.columns[i].notNull && values[i].Null? {
        return None;
      }
    }
    return Some(values);
  }

  // ---- What is built -------------------------------------------------------

  /** The value of expression i in the type of its column. */
  function Converted(fa: FloatArith, s: Schema, tp: Tuple, pos: seq<nat>, es: seq<Expr>, i: nat): Option<Value>
    requires i < |es| == |pos| && pos[i] < |s.columns|
  {
    var x := Eval(fa, es[i], tp);
    if x.None? then None else Coerce(x.value, s.columns[pos[i]].t)
  }

  /** Of the first n expressions, i is the last one for column c. */
  predicate LastFor(pos: seq<nat>, n: nat, c: nat, i: nat)
    requires n <= |pos|
  {
    i < n && pos[i] == c && forall j :: i < j < n ==> pos[j] != c
  }

  predicate NoneFor(pos: seq<nat>, n: nat, c: nat)
    requires n <= |pos|
  {
    forall j :: 0 <= j < n ==> pos[j] != c
  }

  lemma {:induction false} LastExists(pos: seq<nat>, n: nat, c: nat) returns (i: nat)
    requires n <= |pos| && !NoneFor(pos, n, c)
    ensures LastFor(pos, n, c, i)
    decreases n
  {
    if pos[n - 1] == c {
      i := n - 1;
    } else {
      i := LastExists(pos, n - 1, c);
    }
  }

  ghost predicate AllConvert(fa: FloatArith, s: Schema, tp: Tuple, pos: seq<nat>, es: seq<Expr>, n: nat)
    requires n <= |es| == |pos| && forall i :: 0 <= i < |pos| ==> pos[i] < |s.columns|
  {
    forall i :: 0 <= i < n ==> Converted(fa, s, tp, pos, es, i).Some?
  }

  /** Column c after the first n expressions: the value of the last one for it, or what the row r held. */
  ghost predicate ColumnHolds(fa: FloatArith, s: Schema, tp: Tuple, pos: seq<nat>, es: seq<Expr>, n: nat, r: Row,
                              c: nat, v: Value)
    requires n <= |es| == |pos| && (forall i :: 0 <= i < |pos| ==> pos[i] < |s.columns|) && c < |r|
  {
    && (NoneFor(pos, n, c) ==> v == r[c])
    && forall i: nat :: LastFor(pos, n, c, i) ==> Converted(fa, s, tp, pos, es, i) == Some(v)
  }

  ghost predicate Placed(fa: FloatArith, s: Schema, tp: Tuple, pos: seq<nat>, es: seq<Expr>, n: nat, r: Row, r': Row)
    requires n <= |es| == |pos| && (forall i :: 0 <= i < |pos| ==> pos[i] < |s.columns|) && |r| == |s.columns|
  {
    |r'| == |r| && forall c :: 0 <= c < |r| ==> ColumnHolds(fa, s, tp, pos, es, n, r, c, r'[c])
  }

  lemma {:induction false} HoldsNext(fa: FloatArith, s: Schema, tp: Tuple, pos: seq<nat>, es: seq<Expr>, n: nat, r: Row,
                                     c: nat, v: Value)
    requires n < |es| == |pos| && (forall i :: 0 <= i < |pos| ==> pos[i] < |s.columns|) && c < |r|
    requires if pos[n] == c then Converted(fa, s, tp, pos, es, n) == Some(v)
             else ColumnHolds(fa, s, tp, pos, es, n, r, c, v)
    ensures ColumnHolds(fa, s, tp, pos, es, n + 1, r, c, v)
  {
    forall i: nat | LastFor(pos, n + 1, c, i) ensures Converted(fa, s, tp, pos, es, i) == Some(v) {
      if pos[n] != c {
        assert LastFor(pos, n, c, i);
      }
    }
  }

  lemma {:induction false} AssignedPlaces(fa: FloatArith, s: Schema, tp: Tuple, pos: seq<nat>, es: seq<Expr>, r: Row,
                                          n: nat)
    requires n <= |es| == |pos| && (forall i :: 0 <= i < |pos| ==> pos[i] < |s.columns|) && Typed(r, Types(s))
    ensures var a := Assigned(fa, s, tp, pos, es, r, n);
            (a.Some? <==> AllConvert(fa, s, tp, pos, es, n)) && (a.Some? ==> Placed(fa, s, tp, pos, es, n, r, a.value))
    decreases n
  {
    if n != 0 {
      AssignedPlaces(fa, s, tp, pos, es, r, n - 1);
      var a := Assigned(fa, s, tp, pos, es, r, n);
      assert a.Some? <==> AllConvert(fa, s, tp, pos, es, n - 1) && Converted(fa, s, tp, pos, es, n - 1).Some?;
      if a.Some? {
        var p := Assigned(fa, s, tp, pos, es, r, n - 1).value;
        forall c | 0 <= c < |r| ensures ColumnHolds(fa, s, tp, pos, es, n, r, c, a.value[c]) {
          assert ColumnHolds(fa, s, tp, pos, es, n - 1, r, c, p[c]);
          HoldsNext(fa, s, tp, pos, es, n - 1, r, c, a.value[c]);
        }
      }
    }
  }

  lemma {:induction false} PlacedUnique(fa: FloatArith, s: Schema, tp: Tuple, pos: seq<nat>, es: seq<Expr>, n: nat,
                                        r: Row, a: Row, b: Row)
    requires n <= |es| == |pos| && (forall i :: 0 <= i < |pos| ==> pos[i] < |s.columns|) && |r| == |s.columns|
    requires Placed(fa, s, tp, pos, es, n, r, a) && Placed(fa, s, tp, pos, es, n, r, b)
    ensures a == b
  {
    forall c | 0 <= c < |r| ensures a[c] == b[c] {
      assert ColumnHolds(fa, s, tp, pos, es, n, r, c, a[c]) && ColumnHolds(fa, s, tp, pos, es, n, r, c, b[c]);
      if !NoneFor(pos, n, c) {
        var i := LastExists(pos, n, c);
      }
    }
  }

  /** The row is built with these values exactly when every expression evaluates and fits its column, each column holds
      the value of the last expression for it or what it held, and no NOT NULL column is NULL. */
  lemma {:induction false} BuiltRowIff(fa: FloatArith, s: Schema, tp: Tuple, pos: seq<nat>, es: seq<Expr>, r: Row,
                                       r': Row)
    requires |es| == |pos| && (forall i :: 0 <= i < |pos| ==> pos[i] < |s.columns|) && Typed(r, Types(s))
    ensures BuiltRow(fa, s, tp, pos, es, r) == Some(r') <==>
            && AllConvert(fa, s, tp, pos, es, |es|) && Placed(fa, s, tp, pos, es, |es|, r, r')
            && forall c :: 0 <= c < |r'| && s.columns[c].notNull ==> !r'[c].Null?
  {
    AssignedPlaces(fa, s, tp, pos, es, r, |es|);
    if AllConvert(fa, s, tp, pos, es, |es|) && Placed(fa, s, tp, pos, es, |es|, r, r') {
      PlacedUnique(fa, s, tp, pos, es, |es|, r, Assigned(fa, s, tp, pos, es, r, |es|).value, r');
    }
  }

  /** A column that would be NULL. */
  ghost predicate LeftNull(fa: FloatArith, s: Schema, tp: Tuple, pos: seq<nat>, es: seq<Expr>, r: Row, c: nat)
    requires |es| == |pos| && (forall i :: 0 <= i < |pos| ==> pos[i] < |s.columns|) && c < |r|
  {
    exists v: Value :: v.Null? && ColumnHolds(fa, s, tp, pos, es, |es|, r, c, v)
  }

  /** It is not built exactly when an expression fails or does not fit, or a NOT NULL column would be NULL. */
  lemma {:induction false} BuiltRowFailsIff(fa: FloatArith, s: Schema, tp: Tuple, pos: seq<nat>, es: seq<Expr>, r: Row)
    requires |es| == |pos| && (forall i :: 0 <= i < |pos| ==> pos[i] < |s.columns|) && Typed(r, Types(s))
    ensures BuiltRow(fa, s, tp, pos, es, r).None? <==>
            || !AllConvert(fa, s, tp, pos, es, |es|)
            || exists c :: 0 <= c < |r| && s.columns[c].notNull && LeftNull(fa, s, tp, pos, es, r, c)
  {
    AssignedPlaces(fa, s, tp, pos, es, r, |es|);
    if AllConvert(fa, s, tp, pos, es, |es|) {
      var a := Assigned(fa, s, tp, pos, es, r, |es|).value;
      forall c | 0 <= c < |r| ensures LeftNull(fa, s, tp, pos, es, r, c) <==> a[c].Null? {
        NullHeld(fa, s, tp, pos, es, r, c, a[c]);
      }
    }
  }

  lemma {:induction false} NullHeld(fa: FloatArith, s: Schema, tp: Tuple, pos: seq<nat>, es: seq<Expr>, r: Row, c: nat,
                                    v: Value)
    requires |es| == |pos| && (forall i :: 0 <= i < |pos| ==> pos[i] < |s.columns|) && c < |r|
    requires ColumnHolds(fa, s, tp, pos, es, |es|, r, c, v)
    ensures LeftNull(fa, s, tp, pos, es, r, c) <==> v.Null?
  {
    if LeftNull(fa, s, tp, pos, es, r, c) {
      var w: Value :| w.Null? && ColumnHolds(fa, s, tp, pos, es, |es|, r, c, w);
      if !NoneFor(pos, |es|, c) {
        var i := LastExists(pos, |es|, c);
      }
      assert v == w;
    }
  }

  // ---- Columns by name -----------------------------------------------------

  ghost predicate IsColumn(s: Schema, name: Bytes) { exists c :: 0 <= c < |s.columns| && s.columns[c].name == name }

  /** The positions are those of the first column of each name, and there are none when a name is unknown. */
  lemma {:induction false} PositionsIff(s: Schema, names: seq<Bytes>)
    ensures var p := Positions(s, names);
            && (p.Some? <==> forall i :: 0 <= i < |names| ==> IsColumn(s, names[i]))
            && (p.Some? ==> forall i :: 0 <= i < |names| ==> FirstNamed(s.columns, names[i], p.value[i]))
    decreases |names|
  {
    if |names| != 0 {
      var front, last := names[..|names| - 1], names[|names| - 1];
      PositionsIff(s, front);
      var c := ColumnIndex(s.columns, last);
      ColumnIndexIff(s.columns, last, if c.Some? then c.value else 0);
      assert IsColumn(s, last) <==> c.Some?;
      assert forall i :: 0 <= i < |front| ==> front[i] == names[i];
    }
  }

  /** Of the expressions listed for these names, i is the last one for the name. */
  predicate LastNamed(names: seq<Bytes>, name: Bytes, i: nat) {
    i < |names| && names[i] == name && forall j :: i < j < |names| ==> names[j] != name
  }

  /** A column filled by name: the first column of a name takes the value of the last expression for it, and a column
      that gets none keeps what it held. */
  ghost predicate Fills(fa: FloatArith, s: Schema, tp: Tuple, names: seq<Bytes>, es: seq<Expr>, r: Row, c: nat,
                        v: Value)
    requires |es| == |names| && c < |r| == |s.columns|
  {
    var col := s.columns[c];
    && (forall i: nat :: LastNamed(names, col.name, i) && FirstNamed(s.columns, col.name, c) ==>
          exists x :: Eval(fa, es[i], tp) == Some(x) && Coerce(x, col.t) == Some(v))
    && (col.name !in names || !FirstNamed(s.columns, col.name, c) ==> v == r[c])
  }

  /** The row r with the listed columns filled. */
  ghost predicate MadeOf(fa: FloatArith, s: Schema, tp: Tuple, names: seq<Bytes>, es: seq<Expr>, r: Row, r': Row) {
    && |es| == |names| && |r'| == |r| == |s.columns|
    && (forall c :: 0 <= c < |r| ==> Fills(fa, s, tp, names, es, r, c, r'[c]))
    && forall c :: 0 <= c < |r| && s.columns[c].notNull ==> !r'[c].Null?
  }

  lemma {:induction false} PositionIsColumn(s: Schema, names: seq<Bytes>, pos: seq<nat>, i: nat, c: nat)
    requires Positions(s, names) == Some(pos) && i < |names| && c < |s.columns|
    ensures pos[i] == c <==> names[i] == s.columns[c].name && FirstNamed(s.columns, s.columns[c].name, c)
  {
    PositionsIff(s, names);
    assert FirstNamed(s.columns, names[i], pos[i]);
  }

  lemma {:induction false} HoldsFills(fa: FloatArith, s: Schema, tp: Tuple, names: seq<Bytes>, pos: seq<nat>,
                                      es: seq<Expr>, r: Row, c: nat, v: Value)
    requires Positions(s, names) == Some(pos) && |es| == |names| && c < |r| == |s.columns|
    requires ColumnHolds(fa, s, tp, pos, es, |es|, r, c, v)
    ensures Fills(fa, s, tp, names, es, r, c, v)
  {
    var name := s.columns[c].name;
    forall i | 0 <= i < |names| ensures pos[i] == c <==> names[i] == name && FirstNamed(s.columns, name, c) {
      PositionIsColumn(s, names, pos, i, c);
    }
    forall i: nat | LastNamed(names, name, i) && FirstNamed(s.columns, name, c)
      ensures exists x :: Eval(fa, es[i], tp) == Some(x) && Coerce(x, s.columns[c].t) == Some(v)
    {
      assert LastFor(pos, |es|, c, i);
      assert Converted(fa, s, tp, pos, es, i) == Some(v);
    }
    if name !in names || !FirstNamed(s.columns, name, c) {
      assert NoneFor(pos, |es|, c);
    }
  }

  /** What is built, by the names of the columns. */
  lemma {:induction false} BuiltRowByName(fa: FloatArith, s: Schema, tp: Tuple, names: seq<Bytes>, pos: seq<nat>,
                                          es: seq<Expr>, r: Row, r': Row)
    requires Positions(s, names) == Some(pos) && |es| == |names| && Typed(r, Types(s))
    requires BuiltRow(fa, s, tp, pos, es, r) == Some(r')
    ensures MadeOf(fa, s, tp, names, es, r, r')
  {
    BuiltRowIff(fa, s, tp, pos, es, r, r');
    forall c | 0 <= c < |r| ensures Fills(fa, s, tp, names, es, r, c, r'[c]) {
      HoldsFills(fa, s, tp, names, pos, es, r, c, r'[c]);
    }
  }

  /** A list without column names fills the columns in their order, if their names differ. */
  lemma {:induction false} WholeListFills(fa: FloatArith, s: Schema, tp: Tuple, es: seq<Expr>, r: Row, r': Row, c: nat)
    requires forall i, j :: 0 <= i < j < |s.columns| ==> s.columns[i].name != s.columns[j].name
    requires MadeOf(fa, s, tp, Names(s), es, r, r') && c < |s.columns|
    ensures exists x :: Eval(fa, es[c], tp) == Some(x) && Coerce(x, s.columns[c].t) == Some(r'[c])
  {
    var name := s.columns[c].name;
    assert LastNamed(Names(s), name, c) && FirstNamed(s.columns, name, c);
    assert Fills(fa, s, tp, Names(s), es, r, c, r'[c]);
  }
}
