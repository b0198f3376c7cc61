/** What a SELECT answers: which row combinations, in which order, and how many of them. */
module Answers {
  import opened Bytes
  import opened Entries
  import opened Values
  import opened Expressions
  import opened Evaluation
  import opened Sorting
  import opened Selects

  // ---- Which of two tuples comes first -------------------------------------

  /** NULL is below every value. */
  predicate Lower(v: Value, w: Value) { (v.Null? && !w.Null?) || (Comparable(v, w) && Below(v, w)) }

  ghost predicate BothHave(fa: FloatArith, e: Expr, a: Tuple, b: Tuple) { HasValue(fa, e, a) && HasValue(fa, e, b) }

  /** The term's values, where there are any, can be compared. */
  ghost predicate Sortable(fa: FloatArith, e: Expr, a: Tuple, b: Tuple) {
    BothHave(fa, e, a, b) ==>
      var v, w := Eval(fa, e, a).value, Eval(fa, e, b).value;
      v.Null? || w.Null? || Comparable(v, w)
  }

  /** The term puts a before b: its value is the lower one, the higher one under DESC. */
  ghost predicate Puts(fa: FloatArith, term: OrderTerm, a: Tuple, b: Tuple) {
    BothHave(fa, term.e, a, b) &&
    var v, w := Eval(fa, term.e, a).value, Eval(fa, term.e, b).value;
    if term.desc then Lower(w, v) else Lower(v, w)
  }

  ghost predicate Ties(fa: FloatArith, term: OrderTerm, a: Tuple, b: Tuple) {
    !Puts(fa, term, a, b) && !Puts(fa, term, b, a)
  }

  /** Term i tells the tuples apart and no earlier one does. */
  ghost predicate PutsAt(fa: FloatArith, terms: seq<OrderTerm>, a: Tuple, b: Tuple, i: nat) {
    i < |terms| && Puts(fa, terms[i], a, b) && forall j :: 0 <= j < i ==> Ties(fa, terms[j], a, b)
  }

  lemma {:induction false} TermPuts(fa: FloatArith, term: OrderTerm, a: Tuple, b: Tuple)
    requires Sortable(fa, term.e, a, b)
    ensures CompareTerm(fa, term, a, b) < 0 <==> Puts(fa, term, a, b)
    ensures CompareTerm(fa, term, a, b) > 0 <==> Puts(fa, term, b, a)
  {
    if BothHave(fa, term.e, a, b) {
      var v, w := Eval(fa, term.e, a).value, Eval(fa, term.e, b).value;
      if Comparable(v, w) {
        CompareSays(v, w);
      }
    }
  }

  /** The comparator: the first term that tells the tuples apart decides, each term by its own direction. */
  lemma {:induction false} TupleLessIff(fa: FloatArith, terms: seq<OrderTerm>, a: Tuple, b: Tuple)
    requires forall i :: 0 <= i < |terms| ==> Sortable(fa, terms[i].e, a, b)
    ensures TupleLess(fa, terms, a, b) <==> exists i: nat :: PutsAt(fa, terms, a, b, i)
    decreases |terms|
  {
    if |terms| != 0 {
      var rest := terms[1..];
      TermPuts(fa, terms[0], a, b);
      assert forall i :: 0 <= i < |rest| ==> rest[i] == terms[i + 1];
      TupleLessIff(fa, rest, a, b);
      if Ties(fa, terms[0], a, b) {
        FirstTies(fa, terms, rest, a, b);
      } else {
        FirstDecides(fa, terms, a, b);
      }
    }
  }

  lemma {:induction false} FirstTies(fa: FloatArith, terms: seq<OrderTerm>, rest: seq<OrderTerm>, a: Tuple, b: Tuple)
    requires |terms| > 0 && rest == terms[1..] && Ties(fa, terms[0], a, b)
    ensures (exists i: nat :: PutsAt(fa, terms, a, b, i)) <==> exists i: nat :: PutsAt(fa, rest, a, b, i)
  {
    assert forall i :: 0 <= i < |rest| ==> rest[i] == terms[i + 1];
    if i: nat :| PutsAt(fa, terms, a, b, i) {
      assert i > 0;
      assert forall j :: 0 <= j < i - 1 ==> rest[j] == terms[j + 1];
      assert PutsAt(fa, rest, a, b, i - 1);
    }
    if i: nat :| PutsAt(fa, rest, a, b, i) {
      forall j | 0 <= j < i + 1 ensures Ties(fa, terms[j], a, b) {
        assert j > 0 ==> terms[j] == rest[j - 1];
      }
      assert PutsAt(fa, terms, a, b, i + 1);
    }
  }

  lemma {:induction false} FirstDecides(fa: FloatArith, terms: seq<OrderTerm>, a: Tuple, b: Tuple)
    requires |terms| > 0 && !Ties(fa, terms[0], a, b)
    ensures (exists i: nat :: PutsAt(fa, terms, a, b, i)) <==> Puts(fa, terms[0], a, b)
  {
    if Puts(fa, terms[0], a, b) {
      assert PutsAt(fa, terms, a, b, 0);
    }
  }

  // ---- The same by sort keys -----------------------------------------------

  /** The term's values, where there are any, are of one type and ordered as their sort keys are. */
  ghost predicate KeysFit(fa: FloatArith, e: Expr, a: Tuple, b: Tuple) {
    BothHave(fa, e, a, b) ==>
      var v, w := Eval(fa, e, a).value, Eval(fa, e, b).value;
      TypeOf(v) == TypeOf(w) && (v.FloatV? && w.FloatV? ==> FloatsInOrder(v.f, w.f))
  }

  ghost predicate KeysPut(fa: FloatArith, term: OrderTerm, a: Tuple, b: Tuple) {
    BothHave(fa, term.e, a, b) &&
    var v, w := Eval(fa, term.e, a).value, Eval(fa, term.e, b).value;
    if term.desc then Less(SortKey(w), SortKey(v)) else Less(SortKey(v), SortKey(w))
  }

  ghost predicate KeysTie(fa: FloatArith, e: Expr, a: Tuple, b: Tuple) {
    BothHave(fa, e, a, b) ==> SortKey(Eval(fa, e, a).value) == SortKey(Eval(fa, e, b).value)
  }

  lemma {:induction false} CompareIsLess(a: Bytes, b: Bytes)
    ensures Compare(a, b) < 0 <==> Less(a, b)
    ensures Compare(a, b) > 0 <==> Less(b, a)
    ensures Compare(a, b) == 0 <==> a == b
  {
    LessTotal(a, b);
    LessIrreflexive(a);
    if Less(a, b) {
      LessAsymmetric(a, b);
    }
  }

  lemma {:induction false} TermByKeys(fa: FloatArith, term: OrderTerm, a: Tuple, b: Tuple)
    requires KeysFit(fa, term.e, a, b)
    ensures CompareTerm(fa, term, a, b) < 0 <==> KeysPut(fa, term, a, b)
    ensures CompareTerm(fa, term, a, b) == 0 <==> KeysTie(fa, term.e, a, b)
  {
    if BothHave(fa, term.e, a, b) {
      var v, w := Eval(fa, term.e, a).value, Eval(fa, term.e, b).value;
      SortKeyOrderIff(v, w);
      CompareIsLess(SortKey(v), SortKey(w));
    }
  }

  /** With one term: ascending, a comes first when its sort key is the smaller one; descending, when it is the larger
      one. */
  lemma {:induction false} OneTermByKeys(fa: FloatArith, term: OrderTerm, a: Tuple, b: Tuple, v: Value, w: Value)
    requires Eval(fa, term.e, a) == Some(v) && Eval(fa, term.e, b) == Some(w) && TypeOf(v) == TypeOf(w)
    requires v.FloatV? && w.FloatV? ==> FloatsInOrder(v.f, w.f)
    ensures !term.desc ==> (TupleLess(fa, [term], a, b) <==> Less(SortKey(v), SortKey(w)))
    ensures term.desc ==> (TupleLess(fa, [term], a, b) <==> Less(SortKey(w), SortKey(v)))
  {
    TermByKeys(fa, term, a, b);
    OneTermLess(fa, term, a, b);
  }

  ghost predicate KeysPutAt(fa: FloatArith, terms: seq<OrderTerm>, a: Tuple, b: Tuple, i: nat) {
    i < |terms| && KeysPut(fa, terms[i], a, b) && forall j :: 0 <= j < i ==> KeysTie(fa, terms[j].e, a, b)
  }

  /** With several: some term tells them apart that way, and every earlier one ties or cannot be evaluated. */
  lemma {:induction false} TupleLessByKeys(fa: FloatArith, terms: seq<OrderTerm>, a: Tuple, b: Tuple)
    requires forall i :: 0 <= i < |terms| ==> KeysFit(fa, terms[i].e, a, b)
    ensures TupleLess(fa, terms, a, b) <==> exists i: nat :: KeysPutAt(fa, terms, a, b, i)
    decreases |terms|
  {
    if |terms| != 0 {
      var rest := terms[1..];
      TermByKeys(fa, terms[0], a, b);
      assert forall i :: 0 <= i < |rest| ==> rest[i] == terms[i + 1];
      TupleLessByKeys(fa, rest, a, b);
      if CompareTerm(fa, terms[0], a, b) == 0 {
        FirstKeysTie(fa, terms, rest, a, b);
      } else if KeysPut(fa, terms[0], a, b) {
        assert KeysPutAt(fa, terms, a, b, 0);
      }
    }
  }

  lemma {:induction false} FirstKeysTie(fa: FloatArith, terms: seq<OrderTerm>, rest: seq<OrderTerm>, a: Tuple, b: Tuple)
    requires |terms| > 0 && rest == terms[1..] && KeysTie(fa, terms[0].e, a, b) && !KeysPut(fa, terms[0], a, b)
    ensures (exists i: nat :: KeysPutAt(fa, terms, a, b, i)) <==> exists i: nat :: KeysPutAt(fa, rest, a, b, i)
  {
    assert forall i :: 0 <= i < |rest| ==> rest[i] == terms[i + 1];
    if i: nat :| KeysPutAt(fa, terms, a, b, i) {
      assert i > 0;
      assert forall j :: 0 <= j < i - 1 ==> rest[j] == terms[j + 1];
      assert KeysPutAt(fa, rest, a, b, i - 1);
    }
    if i: nat :| KeysPutAt(fa, rest, a, b, i) {
      forall j | 0 <= j < i + 1 ensures KeysTie(fa, terms[j].e, a, b) {
        assert j > 0 ==> terms[j] == rest[j - 1];
      }
      assert KeysPutAt(fa, terms, a, b, i + 1);
    }
  }

  // ---- What a reference means in a join ------------------------------------

  /** In the tuple of a combination, a column of table i is that of the table's row in the combination. */
  lemma {:induction false} JoinedReference(qu: Query, v: seq<nat>, i: nat, name: Bytes, c: nat)
    requires InRange(qu, v) && i < |v| && SourceAt(qu, i).alias != []
    requires forall j :: 0 <= j < |v| && j != i ==> SourceAt(qu, j).alias != SourceAt(qu, i).alias
    requires FirstNamed(SourceAt(qu, i).columns, name, c) && c < |SourceAt(qu, i).rows[v[i]]|
    ensures Resolve(TupleOf(qu, v), SourceAt(qu, i).alias, name) == Some(SourceAt(qu, i).rows[v[i]][c])
  {
    var tp, table, x := TupleOf(qu, v), SourceAt(qu, i).alias, SourceAt(qu, i).rows[v[i]][c];
    assert Offers(tp[i], table, name, x);
    forall j | 0 <= j < |tp| && j != i ensures Silent(tp[j], table, name) {
    }
    assert OnlyAt(tp, table, name, i, x);
    ResolveIff(tp, table, name, x);
  }

  // ---- Which joins can be made ---------------------------------------------

  /** The ON clause of the next join can be evaluated on the combination u and row j of its table. */
  ghost predicate OnEvaluates(fa: FloatArith, qu: Query, u: seq<nat>, j: nat)
    requires InRange(qu, u) && |u| <= |qu.joins| && j < |SourceAt(qu, |u|).rows|
  {
    TupleOfSnoc(qu, u, j);
    Eval(fa, qu.joins[|u| - 1].on, TupleOf(qu, u + [j])).Some?
  }

  /** It can on every row of the table. */
  ghost predicate RowsEvaluate(fa: FloatArith, qu: Query, u: seq<nat>) {
    InRange(qu, u) && |u| <= |qu.joins| && forall j :: 0 <= j < |SourceAt(qu, |u|).rows| ==> OnEvaluates(fa, qu, u, j)
  }

  lemma {:induction false} JoinedRowIff(fa: FloatArith, qu: Query, u: seq<nat>, n: nat)
    requires InRange(qu, u) && |u| <= |qu.joins| && n <= |SourceAt(qu, |u|).rows|
    ensures JoinedRow(fa, qu.joins[|u| - 1], TupleOf(qu, u), n).Some? <==>
            forall j :: 0 <= j < n ==> OnEvaluates(fa, qu, u, j)
    decreases n
  {
    if n != 0 {
      JoinedRowIff(fa, qu, u, n - 1);
      TupleOfSnoc(qu, u, n - 1);
      var join := qu.joins[|u| - 1];
      assert OnEvaluates(fa, qu, u, n - 1) <==>
             Eval(fa, join.on, TupleOf(qu, u) + [Bind(join.src, n - 1)]).Some?;
    }
  }

  lemma {:induction false} JoinedAllIff(fa: FloatArith, qu: Query, k: nat, us: seq<seq<nat>>, ts: seq<Tuple>, m: nat)
    requires 0 < k <= |qu.joins| && m <= |us| && TuplesOf(qu, us, ts)
    requires forall i :: 0 <= i < |us| ==> Reachable(fa, qu, k - 1, us[i])
    ensures JoinedAll(fa, qu.joins[k - 1], ts, m).Some? <==> forall i :: 0 <= i < m ==> RowsEvaluate(fa, qu, us[i])
    decreases m
  {
    if m != 0 {
      JoinedAllIff(fa, qu, k, us, ts, m - 1);
      assert Reachable(fa, qu, k - 1, us[m - 1]) && IsTupleOf(qu, us[m - 1], ts[m - 1]);
      JoinedRowIff(fa, qu, us[m - 1], |SourceAt(qu, k).rows|);
    }
  }

  /** The joins fail exactly when some ON clause cannot be evaluated on a combination that the earlier ones let
      through. */
  lemma {:induction false} JoinedIff(fa: FloatArith, qu: Query, k: nat)
    requires k <= |qu.joins|
    ensures Joined(fa, qu, k).Some? <==> forall u :: 0 < |u| <= k && Reachable(fa, qu, |u| - 1, u) ==>
            RowsEvaluate(fa, qu, u)
    decreases k
  {
    if k != 0 {
      JoinedIff(fa, qu, k - 1);
      if Joined(fa, qu, k - 1).Some? {
        var ts := Joined(fa, qu, k - 1).value;
        var us := JoinProduces(fa, qu, k - 1);
        forall i | 0 <= i < |us| ensures Reachable(fa, qu, k - 1, us[i]) {
          assert us[i] in us;
        }
        JoinedAllIff(fa, qu, k, us, ts, |us|);
        if Joined(fa, qu, k).Some? {
          forall u | |u| == k && Reachable(fa, qu, k - 1, u) ensures RowsEvaluate(fa, qu, u) {
            assert u in us;
          }
        }
      }
    }
  }

  // ---- Which combinations are answered -------------------------------------

  /** The combination qualifies and satisfies WHERE. */
  ghost predicate Wanted(fa: FloatArith, qu: Query, where: Option<Expr>, v: seq<nat>) {
    Reachable(fa, qu, |qu.joins|, v) && Satisfies(fa, where, TupleOf(qu, v)) == Some(true)
  }

  lemma {:induction false} FilteredVectors(fa: FloatArith, qu: Query, where: Option<Expr>, vs: seq<seq<nat>>,
                                           ts: seq<Tuple>, n: nat)
    returns (ws: seq<seq<nat>>)
    requires TuplesOf(qu, vs, ts) && Selects.Ascending(vs) && n <= |ts|
    ensures TuplesOf(qu, ws, FilteredUpTo(fa, where, ts, n)) && Selects.Ascending(ws)
    ensures forall w :: w in ws <==>
              (w in vs[..n] && InRange(qu, w) && Satisfies(fa, where, TupleOf(qu, w)) == Some(true))
    decreases n
  {
    if n == 0 {
      ws := [];
    } else {
      var p := FilteredVectors(fa, qu, where, vs, ts, n - 1);
      var v := vs[n - 1];
      assert IsTupleOf(qu, v, ts[n - 1]);
      assert vs[..n] == vs[..n - 1] + [v];
      if Satisfies(fa, where, ts[n - 1]) == Some(true) {
        ws := p + [v];
        forall i | 0 <= i < |p| ensures Ordered(p[i], v) {
          assert p[i] in p;
          assert p[i] in vs[..n - 1];
        }
      } else {
        ws := p;
      }
    }
  }

  /** The tuples left by WHERE are those of the wanted combinations, each once, in nested-loop order. */
  lemma {:induction false} KeptAreWanted(fa: FloatArith, qu: Query, where: Option<Expr>) returns (vs: seq<seq<nat>>)
    requires Joined(fa, qu, |qu.joins|).Some?
    ensures var ts := Joined(fa, qu, |qu.joins|).value;
            && TuplesOf(qu, vs, FilteredUpTo(fa, where, ts, |ts|)) && Selects.Ascending(vs)
            && forall v :: v in vs <==> Wanted(fa, qu, where, v)
  {
    var ts := Joined(fa, qu, |qu.joins|).value;
    var us := JoinProduces(fa, qu, |qu.joins|);
    vs := FilteredVectors(fa, qu, where, us, ts, |ts|);
    assert us[..|ts|] == us;
  }

  lemma {:induction false} LexIrreflexive(v: seq<nat>)
    ensures !LexLess(v, v)
    decreases |v|
  {
    if |v| > 0 {
      LexIrreflexive(v[1..]);
    }
  }

  function Members(vs: seq<seq<nat>>): set<seq<nat>> { set v | v in vs }

  lemma {:induction false} AscendingSet(vs: seq<seq<nat>>, n: nat)
    requires Selects.Ascending(vs) && n <= |vs|
    ensures |Members(vs[..n])| == n
    decreases n
  {
    if n != 0 {
      AscendingSet(vs, n - 1);
      var v := vs[n - 1];
      assert vs[..n] == vs[..n - 1] + [v];
      assert Members(vs[..n]) == Members(vs[..n - 1]) + {v};
      if v in vs[..n - 1] {
        var i :| 0 <= i < n - 1 && vs[i] == v;
        assert Ordered(vs[i], v);
        LexIrreflexive(v);
      }
    }
  }

  /** COUNT is the number of wanted combinations. */
  lemma {:induction false} CountIsWanted(fa: FloatArith, qu: Query, where: Option<Expr>, terms: seq<OrderTerm>,
                                         limit: Option<nat>)
    returns (wanted: set<seq<nat>>)
    requires Joined(fa, qu, |qu.joins|).Some?
    ensures forall v :: v in wanted <==> Wanted(fa, qu, where, v)
    ensures AnswerTo(fa, Joined(fa, qu, |qu.joins|).value, where, true, terms, limit) == Count(|wanted|)
  {
    var vs := KeptAreWanted(fa, qu, where);
    AscendingSet(vs, |vs|);
    assert vs[..|vs|] == vs;
    wanted := Members(vs);
  }

  function Smaller(a: nat, b: nat): nat { if a < b then a else b }

  /** The list is the start of the list without a limit, as long as the limit allows; that one has every tuple that
      WHERE leaves, as often as it is left. */
  lemma {:induction false} LimitIsPrefix(fa: FloatArith, tuples: seq<Tuple>, where: Option<Expr>,
                                         terms: seq<OrderTerm>, limit: Option<nat>)
    ensures var all, some := AnswerTo(fa, tuples, where, false, terms, None),
            AnswerTo(fa, tuples, where, false, terms, limit);
            && all.Listed? && some.Listed? && some.tuples <= all.tuples
            && |some.tuples| == (if limit.None? then |all.tuples| else Smaller(limit.value, |all.tuples|))
            && multiset(all.tuples) == multiset(FilteredUpTo(fa, where, tuples, |tuples|))
  {
    var kept := FilteredUpTo(fa, where, tuples, |tuples|);
    SortPermutes(ByTerms(fa, terms), kept, |kept|);
    assert kept[..|kept|] == kept;
  }

  lemma {:induction false} SortPermutes<T(!new)>(less: (T, T) -> bool, xs: seq<T>, n: nat)
    requires n <= |xs|
    ensures multiset(Arranged(xs, SortedUpTo(less, xs, n))) == multiset(xs[..n])
    decreases n
  {
    if n != 0 {
      SortPermutes(less, xs, n - 1);
      var order := SortedUpTo(less, xs, n - 1);
      StepPermutes(xs, order, Place(less, xs, order, xs[n - 1]), n - 1, SortedUpTo(less, xs, n));
    } else {
      assert Arranged(xs, SortedUpTo(less, xs, n)) == [];
    }
  }

  lemma {:induction false} StepPermutes<T>(xs: seq<T>, order: seq<nat>, p: nat, k: nat, order': seq<nat>)
    requires (forall a :: 0 <= a < |order| ==> order[a] < |xs|) && (forall a :: 0 <= a < |order'| ==> order'[a] < |xs|)
    requires p <= |order| && k < |xs| && order' == order[..p] + [k] + order[p..]
    requires multiset(Arranged(xs, order)) == multiset(xs[..k])
    ensures multiset(Arranged(xs, order')) == multiset(xs[..k + 1])
  {
    ArrangedInserted(xs, order, p, k);
    InsertCounts(Arranged(xs, order), p, xs[k]);
    assert xs[..k + 1] == xs[..k] + [xs[k]];
  }

  lemma {:induction false} ArrangedInserted<T>(xs: seq<T>, order: seq<nat>, p: nat, k: nat)
    requires (forall a :: 0 <= a < |order| ==> order[a] < |xs|) && p <= |order| && k < |xs|
    ensures var o, all := order[..p] + [k] + order[p..], Arranged(xs, order);
            (forall a :: 0 <= a < |o| ==> o[a] < |xs|) && Arranged(xs, o) == all[..p] + [xs[k]] + all[p..]
  {
    var o, all := order[..p] + [k] + order[p..], Arranged(xs, order);
    var r := all[..p] + [xs[k]] + all[p..];
    assert forall a :: 0 <= a < |o| ==> o[a] == if a < p then order[a] else if a == p then k else order[a - 1];
    assert forall a :: 0 <= a < |r| ==> r[a] == if a < p then all[a] else if a == p then xs[k] else all[a - 1];
    forall a | 0 <= a < |r| ensures Arranged(xs, o)[a] == r[a] {
    }
  }

  lemma {:induction false} InsertCounts<T>(all: seq<T>, p: nat, x: T)
    requires p <= |all|
    ensures multiset(all[..p] + [x] + all[p..]) == multiset(all) + multiset{x}
  {
    assert all == all[..p] + all[p..];
  }
}
