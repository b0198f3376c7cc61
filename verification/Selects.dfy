/** SELECT after its tables are loaded: nested-loop joins, WHERE, ORDER BY and LIMIT. */
module Selects {
  import opened Bytes
  import opened Entries
  import opened Values
  import opened Rows
  import opened Expressions
  import opened Sorting

  /** A table's rows as a join sees them. */
  datatype Source = Source(alias: Bytes, columns: seq<Column>, rows: seq<Row>)

  datatype Join = Join(src: Source, on: Expr)

  datatype Query = Query(base: Source, joins: seq<Join>)

  function SourceAt(qu: Query, i: nat): Source
    requires i <= |qu.joins|
  {
    if i == 0 then qu.base else qu.joins[i - 1].src
  }

  /** One row number for each of the first tables. */
  predicate InRange(qu: Query, v: seq<nat>) {
    0 < |v| <= |qu.joins| + 1 && forall i :: 0 <= i < |v| ==> v[i] < |SourceAt(qu, i).rows|
  }

  function Bind(src: Source, j: nat): Binding
    requires j < |src.rows|
  {
    Binding(src.alias, src.columns, src.rows[j])
  }

  /** The tuple made of those rows. */
  function TupleOf(qu: Query, v: seq<nat>): (tp: Tuple)
    requires InRange(qu, v)
    ensures |tp| == |v|
  {
    seq(|v|, i requires 0 <= i < |v| => Bind(SourceAt(qu, i), v[i]))
  }

  lemma {:induction false} TupleOfSnoc(qu: Query, v: seq<nat>, j: nat)
    requires InRange(qu, v) && |v| <= |qu.joins| && j < |SourceAt(qu, |v|).rows|
    ensures InRange(qu, v + [j]) && TupleOf(qu, v + [j]) == TupleOf(qu, v) + [Bind(SourceAt(qu, |v|), j)]
  {
    var w := v + [j];
    assert forall i :: 0 <= i < |w| ==> w[i] == if i < |v| then v[i] else j;
  }

  // ---- The joins as they run -----------------------------------------------

  /** The first n rows of a join table set against one tuple; None when ON cannot be evaluated. */
  function JoinedRow(fa: FloatArith, join: Join, left: Tuple, n: nat): Option<seq<Tuple>>
    requires n <= |join.src.rows|
  {
    if n == 0 then Some([]) else
    var p := JoinedRow(fa, join, left, n - 1);
    if p.None? then None else
    var tp := left + [Bind(join.src, n - 1)];
    var v := Eval(fa, join.on, tp);
    if v.None? then None else if Truthy(v.value) then Some(p.value + [tp]) else p
  }

  function JoinedAll(fa: FloatArith, join: Join, tuples: seq<Tuple>, m: nat): Option<seq<Tuple>>
    requires m <= |tuples|
  {
    if m == 0 then Some([]) else
    var p, r := JoinedAll(fa, join, tuples, m - 1), JoinedRow(fa, join, tuples[m - 1], |join.src.rows|);
    if p.None? || r.None? then None else Some(p.value + r.value)
  }

  lemma {:induction false} JoinedRowFails(fa: FloatArith, join: Join, left: Tuple, m: nat, n: nat)
    requires m <= n <= |join.src.rows| && JoinedRow(fa, join, left, m).None?
    ensures JoinedRow(fa, join, left, n).None?
    decreases n
  {
    if m < n {
      JoinedRowFails(fa, join, left, m, n - 1);
    }
  }

  lemma {:induction false} JoinedAllFails(fa: FloatArith, join: Join, tuples: seq<Tuple>, m: nat, n: nat)
    requires m <= n <= |tuples| && JoinedAll(fa, join, tuples, m).None?
    ensures JoinedAll(fa, join, tuples, n).None?
    decreases n
  {
    if m < n {
      JoinedAllFails(fa, join, tuples, m, n - 1);
    }
  }

  method JoinTuples(fa: FloatArith, join: Join, tuples: seq<Tuple>) returns (next: Option<seq<Tuple>>)
    ensures next == JoinedAll(fa, join, tuples, |tuples|)
  {
    var out: seq<Tuple> := [];
    for i := 0 to |tuples|
      invariant JoinedAll(fa, join, tuples, i) == Some(out)
    {
      var before := out;
      for j := 0 to |join.src.rows|
        invariant JoinedRow(fa, join, tuples[i], j).Some? && out == before + JoinedRow(fa, join, tuples[i], j).value
      {
        var tp := tuples[i] + [Bind(join.src, j)];
        var v := Eval(fa, join.on, tp);
        if v.None? {
          JoinedRowFails(fa, join, tuples[i], j + 1, |join.src.rows|);
          JoinedAllFails(fa, join, tuples, i + 1, |tuples|);
          return None;
        }
        if Truthy(v.value) {
          out := out + [tp];
        }
      }
    }
    return Some(out);
  }

  /** The tuples after the first k joins. */
  function Joined(fa: FloatArith, qu: Query, k: nat): Option<seq<Tuple>>
    requires k <= |qu.joins|
  {
    if k == 0 then Some(seq(|qu.base.rows|, i requires 0 <= i < |qu.base.rows| => [Bind(qu.base, i)])) else
    var p := Joined(fa, qu, k - 1);
    if p.None? then None else JoinedAll(fa, qu.joins[k - 1], p.value, |p.value|)
  }

  lemma {:induction false} JoinedFails(fa: FloatArith, qu: Query, m: nat, n: nat)
    requires m <= n <= |qu.joins| && Joined(fa, qu, m).None?
    ensures Joined(fa, qu, n).None?
    decreases n
  {
    if m < n {
      JoinedFails(fa, qu, m, n - 1);
    }
  }

  function FilteredUpTo(fa: FloatArith, where: Option<Expr>, tuples: seq<Tuple>, n: nat): seq<Tuple>
    requires n <= |tuples|
  {
    if n == 0 then [] else
    var p := FilteredUpTo(fa, where, tuples, n - 1);
    if Satisfies(fa, where, tuples[n - 1]) == Some(true) then p + [tuples[n - 1]] else p
  }

  /** Tuples on which WHERE cannot be evaluated are dropped. */
  method FilterTuples(fa: FloatArith, where: Option<Expr>, tuples: seq<Tuple>) returns (out: seq<Tuple>)
    ensures out == FilteredUpTo(fa, where, tuples, |tuples|)
  {
    out := [];
    for i := 0 to |tuples|
      invariant out == FilteredUpTo(fa, where, tuples, i)
    {
      if Satisfies(fa, where, tuples[i]) == Some(true) {
        out := out + [tuples[i]];
      }
    }
  }

  function Arranged<T>(xs: seq<T>, order: seq<nat>): (r: seq<T>)
    requires forall a :: 0 <= a < |order| ==> order[a] < |xs|
    ensures |r| == |order| && forall a :: 0 <= a < |r| ==> r[a] == xs[order[a]]
  {
    seq(|order|, a requires 0 <= a < |order| => xs[order[a]])
  }

  /** The library's stable sort, as the insertion of one element after another. */
  method SortTuples(fa: FloatArith, terms: seq<OrderTerm>, ts: seq<Tuple>) returns (r: seq<Tuple>)
    ensures r == Arranged(ts, SortedUpTo(ByTerms(fa, terms), ts, |ts|))
  {
    var order: seq<nat> := [];
    ghost var less := ByTerms(fa, terms);
    for k := 0 to |ts|
      invariant order == SortedUpTo(less, ts, k)
    {
      var p := FindPlace(fa, terms, ts, order, k);
      order := order[..p] + [k] + order[p..];
    }
    r := Arranged(ts, order);
  }

  method FindPlace(fa: FloatArith, terms: seq<OrderTerm>, ts: seq<Tuple>, order: seq<nat>, k: nat) returns (p: nat)
    requires (forall a :: 0 <= a < |order| ==> order[a] < |ts|) && k < |ts|
    ensures p == Place(ByTerms(fa, terms), ts, order, ts[k])
  {
    ghost var less := ByTerms(fa, terms);
    p := 0;
    while p < |order|
      invariant 0 <= p <= Place(less, ts, order, ts[k])
    {
      var before := ComesFirst(fa, terms, ts[k], ts[order[p]]);
      if before {
        return;
      }
      p := p + 1;
    }
  }

  datatype Answer = Count(n: nat) | Listed(tuples: seq<Tuple>)

  function Limited(limit: Option<nat>, ts: seq<Tuple>): seq<Tuple> {
    if limit.Some? && limit.value < |ts| then ts[..limit.value] else ts
  }

  /** The answer to a query whose join evaluates. */
  function AnswerTo(fa: FloatArith, tuples: seq<Tuple>, where: Option<Expr>, countOnly: bool, terms: seq<OrderTerm>,
                    limit: Option<nat>): Answer
  {
    var kept := FilteredUpTo(fa, where, tuples, |tuples|);
    if countOnly then Count(|kept|)
    else Listed(Limited(limit, Arranged(kept, SortedUpTo(ByTerms(fa, terms), kept, |kept|))))
  }

  method ExecSelect(fa: FloatArith, qu: Query, where: Option<Expr>, countOnly: bool, terms: seq<OrderTerm>,
                    limit: Option<nat>)
    returns (r: Option<Answer>)
    ensures var j := Joined(fa, qu, |qu.joins|);
            r == if j.None? then None else Some(AnswerTo(fa, j.value, where, countOnly, terms, limit))
  {
    var tuples := seq(|qu.base.rows|, i requires 0 <= i < |qu.base.rows| => [Bind(qu.base, i)]);
    for k := 0 to |qu.joins|
      invariant Joined(fa, qu, k) == Some(tuples)
    {
      var next := JoinTuples(fa, qu.joins[k], tuples);
      if next.None? {
        JoinedFails(fa, qu, k + 1, |qu.joins|);
        return None;
      }
      tuples := next.value;
    }
    var kept := FilterTuples(fa, where, tuples);
    if countOnly {
      return Some(Count(|kept|));
    }
    if |terms| > 0 {
      kept := SortTuples(fa, terms, kept);
    } else {
      UnsortedIsSorted(fa, kept);
    }
    return Some(Listed(Limited(limit, kept)));
  }

  /** Without ORDER BY nothing moves. */
  lemma {:induction false} UnsortedIsSorted(fa: FloatArith, ts: seq<Tuple>)
    ensures Arranged(ts, SortedUpTo(ByTerms(fa, []), ts, |ts|)) == ts
  {
    IdentityOrder(fa, ts, |ts|);
  }

  lemma {:induction false} IdentityOrder(fa: FloatArith, ts: seq<Tuple>, n: nat)
    requires n <= |ts|
    ensures var o := SortedUpTo(ByTerms(fa, []), ts, n); |o| == n && forall i :: 0 <= i < n ==> o[i] == i
  {
    if n != 0 {
      IdentityOrder(fa, ts, n - 1);
      var o := SortedUpTo(ByTerms(fa, []), ts, n - 1);
      var p := Place(ByTerms(fa, []), ts, o, ts[n - 1]);
      assert p == |o|;
    }
  }

  // ---- What the joins produce ----------------------------------------------

  /** Row-number vectors in the order of nested loops. */
  predicate LexLess(u: seq<nat>, v: seq<nat>)
    requires |u| == |v|
    decreases |u|
  {
    |u| > 0 && (u[0] < v[0] || (u[0] == v[0] && LexLess(u[1..], v[1..])))
  }

  lemma {:induction false} LexSnoc(u: seq<nat>, v: seq<nat>, a: nat, b: nat)
    requires |u| == |v|
    ensures LexLess(u, v) ==> LexLess(u + [a], v + [b])
    ensures u == v && a < b ==> LexLess(u + [a], v + [b])
    decreases |u|
  {
    if |u| == 0 {
      assert u + [a] == [a] && v + [b] == [b];
    } else {
      assert (u + [a])[1..] == u[1..] + [a] && (v + [b])[1..] == v[1..] + [b];
      LexSnoc(u[1..], v[1..], a, b);
    }
  }

  /** The last ON clause holds of the rows a vector names. */
  predicate On(fa: FloatArith, qu: Query, v: seq<nat>)
    requires InRange(qu, v) && |v| > 1
  {
    var x := Eval(fa, qu.joins[|v| - 2].on, TupleOf(qu, v));
    x.Some? && Truthy(x.value)
  }

  lemma {:induction false} ShorterInRange(qu: Query, v: seq<nat>)
    requires InRange(qu, v) && |v| > 1
    ensures InRange(qu, v[..|v| - 1])
  {
    var u := v[..|v| - 1];
    assert forall i :: 0 <= i < |u| ==> u[i] == v[i];
  }

  /** The rows satisfy every ON clause, each on the tables joined so far. */
  predicate Qualifies(fa: FloatArith, qu: Query, v: seq<nat>)
    requires InRange(qu, v)
    decreases |v|
  {
    |v| == 1 || (On(fa, qu, v) && (ShorterInRange(qu, v); Qualifies(fa, qu, v[..|v| - 1])))
  }

  /** The vectors that extend u by a row below n and satisfy the ON clause. */
  function Extensions(fa: FloatArith, qu: Query, u: seq<nat>, n: nat): seq<seq<nat>>
    requires InRange(qu, u) && |u| <= |qu.joins| && n <= |SourceAt(qu, |u|).rows|
  {
    if n == 0 then [] else
    var p := Extensions(fa, qu, u, n - 1);
    TupleOfSnoc(qu, u, n - 1);
    if On(fa, qu, u + [n - 1]) then p + [u + [n - 1]] else p
  }

  ghost predicate Extends(fa: FloatArith, qu: Query, u: seq<nat>, v: seq<nat>, n: nat) {
    0 < |u| && |v| == |u| + 1 && v == u + [v[|u|]] && v[|u|] < n && InRange(qu, v) && On(fa, qu, v)
  }

  ghost predicate Ordered(u: seq<nat>, v: seq<nat>) { |u| == |v| && LexLess(u, v) }

  ghost predicate Ascending(vs: seq<seq<nat>>) { forall i, j :: 0 <= i < j < |vs| ==> Ordered(vs[i], vs[j]) }

  lemma {:induction false} ExtensionsAre(fa: FloatArith, qu: Query, u: seq<nat>, n: nat)
    requires InRange(qu, u) && |u| <= |qu.joins| && n <= |SourceAt(qu, |u|).rows|
    ensures var vs := Extensions(fa, qu, u, n);
            Ascending(vs) && forall i :: 0 <= i < |vs| ==> Extends(fa, qu, u, vs[i], n)
  {
    if n != 0 {
      var p, w := Extensions(fa, qu, u, n - 1), u + [n - 1];
      ExtensionsAre(fa, qu, u, n - 1);
      TupleOfSnoc(qu, u, n - 1);
      forall i | 0 <= i < |p| ensures Extends(fa, qu, u, p[i], n) && Ordered(p[i], w) {
        assert Extends(fa, qu, u, p[i], n - 1);
        LexSnoc(u, u, p[i][|u|], n - 1);
      }
    }
  }

  lemma {:induction false} ExtensionsHave(fa: FloatArith, qu: Query, u: seq<nat>, n: nat, j: nat)
    requires InRange(qu, u) && |u| <= |qu.joins| && j < n <= |SourceAt(qu, |u|).rows|
    requires InRange(qu, u + [j]) && On(fa, qu, u + [j])
    ensures u + [j] in Extensions(fa, qu, u, n)
  {
    if j < n - 1 {
      ExtensionsHave(fa, qu, u, n - 1, j);
    }
  }

  /** The tuples of a list of vectors. */
  ghost predicate TuplesOf(qu: Query, vs: seq<seq<nat>>, ts: seq<Tuple>) {
    |vs| == |ts| && forall i :: 0 <= i < |vs| ==> IsTupleOf(qu, vs[i], ts[i])
  }

  ghost predicate IsTupleOf(qu: Query, v: seq<nat>, tp: Tuple) { InRange(qu, v) && tp == TupleOf(qu, v) }

  lemma {:induction false} RowTuples(fa: FloatArith, qu: Query, u: seq<nat>, n: nat)
    requires InRange(qu, u) && |u| <= |qu.joins| && n <= |SourceAt(qu, |u|).rows|
    requires JoinedRow(fa, qu.joins[|u| - 1], TupleOf(qu, u), n).Some?
    ensures TuplesOf(qu, Extensions(fa, qu, u, n), JoinedRow(fa, qu.joins[|u| - 1], TupleOf(qu, u), n).value)
  {
    if n != 0 {
      RowTuples(fa, qu, u, n - 1);
      TupleOfSnoc(qu, u, n - 1);
    }
  }

  /** The vectors that extend the first m of a list. */
  function AllExtensions(fa: FloatArith, qu: Query, k: nat, us: seq<seq<nat>>, m: nat): seq<seq<nat>>
    requires 0 < k <= |qu.joins| && m <= |us| && forall i :: 0 <= i < |us| ==> Reachable(fa, qu, k - 1, us[i])
  {
    if m == 0 then []
    else AllExtensions(fa, qu, k, us, m - 1) + Extensions(fa, qu, us[m - 1], |SourceAt(qu, k).rows|)
  }

  /** A vector over the first k joins that qualifies. */
  predicate Reachable(fa: FloatArith, qu: Query, k: nat, v: seq<nat>) {
    k <= |qu.joins| && |v| == k + 1 && InRange(qu, v) && Qualifies(fa, qu, v)
  }

  lemma {:induction false} ExtensionReachable(fa: FloatArith, qu: Query, k: nat, u: seq<nat>, v: seq<nat>, n: nat)
    requires 0 < k <= |qu.joins| && Reachable(fa, qu, k - 1, u) && Extends(fa, qu, u, v, n)
    ensures Reachable(fa, qu, k, v)
  {
    assert v[..|v| - 1] == u;
  }

  /** Everything from the earlier blocks comes before the last block. */
  lemma {:induction false} BlocksAscend(fa: FloatArith, qu: Query, u: seq<nat>, v: seq<nat>, x: seq<nat>, y: seq<nat>,
                                        n: nat)
    requires Ordered(u, v) && Extends(fa, qu, u, x, n) && Extends(fa, qu, v, y, n)
    ensures Ordered(x, y)
  {
    LexSnoc(u, v, x[|u|], y[|v|]);
  }

  ghost predicate FromBlock(fa: FloatArith, qu: Query, us: seq<seq<nat>>, m: nat, v: seq<nat>, n: nat) {
    exists i :: 0 <= i < m && i < |us| && Extends(fa, qu, us[i], v, n)
  }

  lemma {:induction false} AllExtensionsAre(fa: FloatArith, qu: Query, k: nat, us: seq<seq<nat>>, m: nat)
    requires 0 < k <= |qu.joins| && m <= |us| && (forall i :: 0 <= i < |us| ==> Reachable(fa, qu, k - 1, us[i]))
             && Ascending(us)
    ensures var vs, n := AllExtensions(fa, qu, k, us, m), |SourceAt(qu, k).rows|;
            Ascending(vs) && forall i :: 0 <= i < |vs| ==>
              FromBlock(fa, qu, us, m, vs[i], n) && Reachable(fa, qu, k, vs[i])
    decreases m
  {
    if m != 0 {
      var n, u := |SourceAt(qu, k).rows|, us[m - 1];
      var p, r := AllExtensions(fa, qu, k, us, m - 1), Extensions(fa, qu, u, n);
      AllExtensionsAre(fa, qu, k, us, m - 1);
      ExtensionsAre(fa, qu, u, n);
      forall i | 0 <= i < |p| ensures FromBlock(fa, qu, us, m, p[i], n) {
        assert FromBlock(fa, qu, us, m - 1, p[i], n);
      }
      forall j | 0 <= j < |r| ensures FromBlock(fa, qu, us, m, r[j], n) && Reachable(fa, qu, k, r[j]) {
        assert Extends(fa, qu, us[m - 1], r[j], n);
        ExtensionReachable(fa, qu, k, u, r[j], n);
      }
      forall i, j | 0 <= i < |p| && 0 <= j < |r| ensures Ordered(p[i], r[j]) {
        assert FromBlock(fa, qu, us, m - 1, p[i], n) && Extends(fa, qu, u, r[j], n);
        var b :| 0 <= b < m - 1 && b < |us| && Extends(fa, qu, us[b], p[i], n);
        BlocksAscend(fa, qu, us[b], u, p[i], r[j], n);
      }
    }
  }

  lemma {:induction false} AllExtensionsHave(fa: FloatArith, qu: Query, k: nat, us: seq<seq<nat>>, m: nat, i: nat,
                                             j: nat)
    requires 0 < k <= |qu.joins| && i < m <= |us| && forall i :: 0 <= i < |us| ==> Reachable(fa, qu, k - 1, us[i])
    requires j < |SourceAt(qu, k).rows| && |us[i]| > 0 && InRange(qu, us[i] + [j]) && On(fa, qu, us[i] + [j])
    ensures us[i] + [j] in AllExtensions(fa, qu, k, us, m)
    decreases m
  {
    if i == m - 1 {
      ExtensionsHave(fa, qu, us[i], |SourceAt(qu, k).rows|, j);
    } else {
      AllExtensionsHave(fa, qu, k, us, m - 1, i, j);
    }
  }

  lemma {:induction false} AllTuples(fa: FloatArith, qu: Query, k: nat, us: seq<seq<nat>>, ts: seq<Tuple>, m: nat)
    requires 0 < k <= |qu.joins| && m <= |us| && (forall i :: 0 <= i < |us| ==> Reachable(fa, qu, k - 1, us[i]))
    requires TuplesOf(qu, us, ts) && JoinedAll(fa, qu.joins[k - 1], ts, m).Some?
    ensures TuplesOf(qu, AllExtensions(fa, qu, k, us, m), JoinedAll(fa, qu.joins[k - 1], ts, m).value)
    decreases m
  {
    if m != 0 {
      AllTuples(fa, qu, k, us, ts, m - 1);
      assert Reachable(fa, qu, k - 1, us[m - 1]) && IsTupleOf(qu, us[m - 1], ts[m - 1]);
      var n := |SourceAt(qu, k).rows|;
      RowTuples(fa, qu, us[m - 1], n);
      TuplesJoin(qu, AllExtensions(fa, qu, k, us, m - 1), JoinedAll(fa, qu.joins[k - 1], ts, m - 1).value,
                 Extensions(fa, qu, us[m - 1], n), JoinedRow(fa, qu.joins[k - 1], ts[m - 1], n).value);
    }
  }

  lemma {:induction false} TuplesJoin(qu: Query, vs: seq<seq<nat>>, ts: seq<Tuple>, vs': seq<seq<nat>>, ts': seq<Tuple>)
    requires TuplesOf(qu, vs, ts) && TuplesOf(qu, vs', ts')
    ensures TuplesOf(qu, vs + vs', ts + ts')
  {
    forall i | 0 <= i < |vs + vs'| ensures IsTupleOf(qu, (vs + vs')[i], (ts + ts')[i]) {
      if i >= |vs| {
        assert IsTupleOf(qu, vs'[i - |vs|], ts'[i - |vs|]);
      }
    }
  }

  /** The tuples are those of the vectors that qualify: each once, in the order of the nested loops, none missing. */
  ghost predicate Produces(fa: FloatArith, qu: Query, k: nat, vs: seq<seq<nat>>, ts: seq<Tuple>) {
    && TuplesOf(qu, vs, ts) && Ascending(vs)
    && (forall v :: v in vs <==> Reachable(fa, qu, k, v))
  }

  lemma {:induction false} BaseProduces(fa: FloatArith, qu: Query) returns (vs: seq<seq<nat>>)
    ensures Produces(fa, qu, 0, vs, Joined(fa, qu, 0).value)
  {
    vs := seq(|qu.base.rows|, i => [i]);
    forall v ensures v in vs <==> Reachable(fa, qu, 0, v) {
      if Reachable(fa, qu, 0, v) {
        assert v == [v[0]] == vs[v[0]];
      }
    }
    forall i, j | 0 <= i < j < |vs| ensures Ordered(vs[i], vs[j]) {
    }
  }

  lemma {:induction false} StepProduces(fa: FloatArith, qu: Query, k: nat, us: seq<seq<nat>>, ts: seq<Tuple>)
    returns (vs: seq<seq<nat>>)
    requires 0 < k <= |qu.joins| && Produces(fa, qu, k - 1, us, ts) && JoinedAll(fa, qu.joins[k - 1], ts, |ts|).Some?
    ensures Produces(fa, qu, k, vs, JoinedAll(fa, qu.joins[k - 1], ts, |ts|).value)
  {
    forall i | 0 <= i < |us| ensures Reachable(fa, qu, k - 1, us[i]) {
      assert us[i] in us;
    }
    vs := AllExtensions(fa, qu, k, us, |us|);
    AllExtensionsAre(fa, qu, k, us, |us|);
    AllTuples(fa, qu, k, us, ts, |us|);
    forall v ensures v in vs <==> Reachable(fa, qu, k, v) {
      if Reachable(fa, qu, k, v) {
        ReachedFrom(fa, qu, k, us, v);
      }
    }
  }

  lemma {:induction false} ReachedFrom(fa: FloatArith, qu: Query, k: nat, us: seq<seq<nat>>, v: seq<nat>)
    requires 0 < k <= |qu.joins| && (forall i :: 0 <= i < |us| ==> Reachable(fa, qu, k - 1, us[i]))
    requires (forall u :: u in us <==> Reachable(fa, qu, k - 1, u)) && Reachable(fa, qu, k, v)
    ensures v in AllExtensions(fa, qu, k, us, |us|)
  {
    var u := v[..k];
    ShorterInRange(qu, v);
    assert u == v[..|v| - 1] && Reachable(fa, qu, k - 1, u);
    assert u in us;
    var i :| 0 <= i < |us| && us[i] == u;
    assert v == us[i] + [v[k]];
    AllExtensionsHave(fa, qu, k, us, |us|, i, v[k]);
  }

  /** The join's tuples, in nested-loop order, are exactly the row combinations that satisfy each ON on its prefix. */
  lemma {:induction false} JoinProduces(fa: FloatArith, qu: Query, k: nat) returns (vs: seq<seq<nat>>)
    requires k <= |qu.joins| && Joined(fa, qu, k).Some?
    ensures Produces(fa, qu, k, vs, Joined(fa, qu, k).value)
  {
    if k == 0 {
      vs := BaseProduces(fa, qu);
    } else {
      var us := JoinProduces(fa, qu, k - 1);
      vs := StepProduces(fa, qu, k, us, Joined(fa, qu, k - 1).value);
    }
  }

  // ---- What the answer is --------------------------------------------------

  /** When the ORDER BY terms order the tuples that satisfy WHERE, the list is the start of their one stable order. */
  lemma {:induction false} AnswerIsStableSort(fa: FloatArith, tuples: seq<Tuple>, where: Option<Expr>,
                                              terms: seq<OrderTerm>, limit: Option<nat>, order: seq<nat>)
    requires var kept := FilteredUpTo(fa, where, tuples, |tuples|);
             && StrictWeak(ByTerms(fa, terms), kept)
             && Indices(order, |kept|) && StableOrder(ByTerms(fa, terms), kept, order)
    ensures AnswerTo(fa, tuples, where, false, terms, limit) ==
            Listed(Limited(limit, Arranged(FilteredUpTo(fa, where, tuples, |tuples|), order)))
  {
    var kept := FilteredUpTo(fa, where, tuples, |tuples|);
    SortIsStable(ByTerms(fa, terms), kept, |kept|);
    StableUnique(ByTerms(fa, terms), kept, SortedUpTo(ByTerms(fa, terms), kept, |kept|), order);
  }
}
