/** ORDER BY: the comparator, when it orders, and the stable sort. */
module Sorting {
  import opened Bytes
  import opened Values
  import opened Expressions

  datatype OrderTerm = OrderTerm(e: Expr, desc: bool)

  /** One term's verdict: a term that cannot be evaluated on both tuples is passed over. */
  function CompareTerm(fa: FloatArith, term: OrderTerm, a: Tuple, b: Tuple): int {
    var v, w := Eval(fa, term.e, a), Eval(fa, term.e, b);
    if v.None? || w.None? then 0
    else if term.desc then -CompareValues(v.value, w.value) else CompareValues(v.value, w.value)
  }

  /** The first term that tells the tuples apart decides. */
  function CompareTuples(fa: FloatArith, terms: seq<OrderTerm>, a: Tuple, b: Tuple): int
    decreases |terms|
  {
    if |terms| == 0 then 0 else
    var c := CompareTerm(fa, terms[0], a, b);
    if c != 0 then c else CompareTuples(fa, terms[1..], a, b)
  }

  predicate TupleLess(fa: FloatArith, terms: seq<OrderTerm>, a: Tuple, b: Tuple) { CompareTuples(fa, terms, a, b) < 0 }

  /** The comparator passed to the sort. */
  method ComesFirst(fa: FloatArith, terms: seq<OrderTerm>, a: Tuple, b: Tuple) returns (r: bool)
    ensures r == TupleLess(fa, terms, a, b)
  {
    assert terms[0..] == terms;
    for i := 0 to |terms|
      invariant CompareTuples(fa, terms, a, b) == CompareTuples(fa, terms[i..], a, b)
    {
      assert terms[i..][1..] == terms[i + 1..];
      var v, w := Eval(fa, terms[i].e, a), Eval(fa, terms[i].e, b);
      if v.Some? && w.Some? {
        var c := CompareValues(v.value, w.value);
        if c != 0 {
          return if terms[i].desc then c > 0 else c < 0;
        }
      }
    }
    return false;
  }

  // ---- When the comparator orders ------------------------------------------

  /** A value that has its place among the values of its type. */
  predicate Ranked(v: Value, t: Type) { TypeOf(v) == t && !(v.FloatV? && IsNaN(v.f)) }

  /** Three comparisons as a total preorder gives them: opposite signs both ways, and transitive, strictly so if one
      of the steps is strict. */
  predicate Coherent(ab: int, ba: int, bc: int, ac: int) {
    && ab == -ba
    && (ab <= 0 && bc <= 0 ==> ac <= 0)
    && (ab <= 0 && bc <= 0 && (ab < 0 || bc < 0) ==> ac < 0)
  }

  lemma {:induction false} BytesCompared(a: Bytes, b: Bytes, c: Bytes)
    ensures Coherent(Compare(a, b), Compare(b, a), Compare(b, c), Compare(a, c))
  {
    LessTotal(a, b);
    LessTotal(b, c);
    if Less(a, b) {
      LessAsymmetric(a, b);
    }
    if Less(b, a) {
      LessAsymmetric(b, a);
    }
    if Less(b, c) {
      LessAsymmetric(b, c);
    }
    if Less(a, b) && Less(b, c) {
      LessTransitive(a, b, c);
      LessAsymmetric(a, c);
    }
  }

  /** Values of one type, NaN aside, are totally preordered. */
  lemma {:induction false} ValuesCompared(a: Value, b: Value, c: Value, t: Type)
    requires Ranked(a, t) && Ranked(b, t) && Ranked(c, t)
    ensures Coherent(CompareValues(a, b), CompareValues(b, a), CompareValues(b, c), CompareValues(a, c))
  {
    if t == Text {
      BytesCompared(TextField(a), TextField(b), TextField(c));
    }
  }

  // ---- The stable sort -----------------------------------------------------

  /** On these elements the relation is a strict order whose ties are themselves transitive. */
  ghost predicate StrictWeak<T(!new)>(less: (T, T) -> bool, xs: seq<T>) {
    && (forall a :: a in xs ==> !less(a, a))
    && (forall a, b :: a in xs && b in xs && less(a, b) ==> !less(b, a))
    && (forall a, b, c :: a in xs && b in xs && c in xs && less(a, b) ==> less(a, c) || less(c, b))
  }

  function ByTerms(fa: FloatArith, terms: seq<OrderTerm>): (Tuple, Tuple) -> bool {
    (a, b) => TupleLess(fa, terms, a, b)
  }

  const QUIET_NAN: bits64 := 0x7FF8_0000_0000_0001
  const ONE: bits64 := 0x3FF0_0000_0000_0000
  const TWO: bits64 := 0x4000_0000_0000_0000

  // For a single term the exact condition: a tuple without a value ties with every other, a NaN with every number.

  ghost predicate HasValue(fa: FloatArith, e: Expr, a: Tuple) { Eval(fa, e, a).Some? }

  ghost predicate Solid(fa: FloatArith, e: Expr, a: Tuple) { HasValue(fa, e, a) && !Eval(fa, e, a).value.Null? }

  ghost predicate NaNAt(fa: FloatArith, e: Expr, a: Tuple) {
    HasValue(fa, e, a) && Eval(fa, e, a).value.FloatV? && IsNaN(Eval(fa, e, a).value.f)
  }

  ghost predicate OneType(fa: FloatArith, e: Expr, t: Type, ts: seq<Tuple>) {
    forall x :: x in ts && HasValue(fa, e, x) ==> TypeOf(Eval(fa, e, x).value) == t
  }

  /** No value is missing unless all values tie; none is NaN unless all values but NULL tie. */
  ghost predicate TermOrders(fa: FloatArith, term: OrderTerm, ts: seq<Tuple>) {
    && ((forall x :: x in ts ==> HasValue(fa, term.e, x))
        || (forall a, b :: a in ts && b in ts ==> CompareTerm(fa, term, a, b) == 0))
    && ((forall x :: x in ts ==> !NaNAt(fa, term.e, x))
        || (forall a, b :: a in ts && b in ts && Solid(fa, term.e, a) && Solid(fa, term.e, b) ==>
            CompareTerm(fa, term, a, b) == 0))
  }

  lemma {:induction false} TermSigns(fa: FloatArith, term: OrderTerm, t: Type, ts: seq<Tuple>, a: Tuple, b: Tuple)
    requires OneType(fa, term.e, t, ts) && a in ts && b in ts
    ensures CompareTerm(fa, term, a, b) == -CompareTerm(fa, term, b, a)
  {
    if HasValue(fa, term.e, a) && HasValue(fa, term.e, b) {
      var v, w := Eval(fa, term.e, a).value, Eval(fa, term.e, b).value;
      if t == Text {
        BytesCompared(TextField(v), TextField(w), TextField(v));
      }
    }
  }

  lemma {:induction false} TermTriple(fa: FloatArith, term: OrderTerm, t: Type, ts: seq<Tuple>, a: Tuple, b: Tuple,
                                      c: Tuple)
    requires OneType(fa, term.e, t, ts) && TermOrders(fa, term, ts) && a in ts && b in ts && c in ts
             && CompareTerm(fa, term, a, b) < 0
    ensures CompareTerm(fa, term, a, c) < 0 || CompareTerm(fa, term, c, b) < 0
  {
    assert HasValue(fa, term.e, a) && HasValue(fa, term.e, b) && HasValue(fa, term.e, c);
    var x, y, z := Eval(fa, term.e, a).value, Eval(fa, term.e, b).value, Eval(fa, term.e, c).value;
    if NaNAt(fa, term.e, a) || NaNAt(fa, term.e, b) || NaNAt(fa, term.e, c) {
      assert !(Solid(fa, term.e, a) && Solid(fa, term.e, b));
    } else {
      ValuesCompared(x, z, y, t);
      ValuesCompared(y, z, x, t);
      ValuesCompared(z, x, y, t);
      ValuesCompared(x, y, z, t);
      ValuesCompared(z, y, x, t);
    }
  }

  /** Each term on its own orders the tuples. */
  ghost predicate Orderly(fa: FloatArith, terms: seq<OrderTerm>, types: seq<Type>, ts: seq<Tuple>) {
    |types| == |terms| && forall i :: 0 <= i < |terms| ==>
      OneType(fa, terms[i].e, types[i], ts) && TermOrders(fa, terms[i], ts)
  }

  lemma {:induction false} TermsCompared(fa: FloatArith, term: OrderTerm, t: Type, ts: seq<Tuple>, a: Tuple, b: Tuple,
                                         c: Tuple)
    requires OneType(fa, term.e, t, ts) && TermOrders(fa, term, ts) && a in ts && b in ts && c in ts
    ensures Coherent(CompareTerm(fa, term, a, b), CompareTerm(fa, term, b, a), CompareTerm(fa, term, b, c),
                     CompareTerm(fa, term, a, c))
  {
    TermSigns(fa, term, t, ts, a, b);
    TermSigns(fa, term, t, ts, b, c);
    TermSigns(fa, term, t, ts, a, c);
    if CompareTerm(fa, term, a, b) < 0 {
      TermTriple(fa, term, t, ts, a, b, c);
    }
    if CompareTerm(fa, term, b, c) < 0 {
      TermTriple(fa, term, t, ts, b, c, a);
    }
    if CompareTerm(fa, term, c, a) < 0 {
      TermTriple(fa, term, t, ts, c, a, b);
    }
  }

  lemma {:induction false} TuplesCompared(fa: FloatArith, terms: seq<OrderTerm>, types: seq<Type>, ts: seq<Tuple>,
                                          a: Tuple, b: Tuple, c: Tuple)
    requires Orderly(fa, terms, types, ts) && a in ts && b in ts && c in ts
    ensures Coherent(CompareTuples(fa, terms, a, b), CompareTuples(fa, terms, b, a), CompareTuples(fa, terms, b, c),
                     CompareTuples(fa, terms, a, c))
    decreases |terms|
  {
    if |terms| != 0 {
      TermsCompared(fa, terms[0], types[0], ts, a, b, c);
      TermSigns(fa, terms[0], types[0], ts, b, c);
      TuplesCompared(fa, terms[1..], types[1..], ts, a, b, c);
    }
  }

  /** The multi-term comparator, ascending and descending terms mixed, is a strict weak order when each of its terms
      is. */
  lemma {:induction false} ComparatorOrders(fa: FloatArith, terms: seq<OrderTerm>, types: seq<Type>, ts: seq<Tuple>)
    requires Orderly(fa, terms, types, ts)
    ensures StrictWeak(ByTerms(fa, terms), ts)
  {
    var less := ByTerms(fa, terms);
    forall a | a in ts ensures !less(a, a) {
      TuplesCompared(fa, terms, types, ts, a, a, a);
    }
    forall a, b | a in ts && b in ts && less(a, b) ensures !less(b, a) {
      TuplesCompared(fa, terms, types, ts, a, b, a);
    }
    forall a, b, c | a in ts && b in ts && c in ts && less(a, b) ensures less(a, c) || less(c, b) {
      TuplesCompared(fa, terms, types, ts, c, a, b);
      TuplesCompared(fa, terms, types, ts, a, c, b);
    }
  }

  /** A single-term comparator is a strict weak order exactly under that condition. */
  lemma {:induction false} OneTermOrdersIff(fa: FloatArith, term: OrderTerm, t: Type, ts: seq<Tuple>)
    requires OneType(fa, term.e, t, ts)
    ensures StrictWeak(ByTerms(fa, [term]), ts) <==> TermOrders(fa, term, ts)
  {
    if TermOrders(fa, term, ts) {
      OneTermOrders(fa, term, t, ts);
    }
    if StrictWeak(ByTerms(fa, [term]), ts) {
      if c :| c in ts && !HasValue(fa, term.e, c) {
        forall a, b | a in ts && b in ts ensures CompareTerm(fa, term, a, b) == 0 {
          WildTies(fa, term, t, ts, a, b, c);
        }
      }
      if c :| c in ts && NaNAt(fa, term.e, c) {
        forall a, b | a in ts && b in ts && Solid(fa, term.e, a) && Solid(fa, term.e, b)
          ensures CompareTerm(fa, term, a, b) == 0
        {
          WildTies(fa, term, t, ts, a, b, c);
        }
      }
    }
  }

  lemma {:induction false} OneTermOrders(fa: FloatArith, term: OrderTerm, t: Type, ts: seq<Tuple>)
    requires OneType(fa, term.e, t, ts) && TermOrders(fa, term, ts)
    ensures StrictWeak(ByTerms(fa, [term]), ts)
  {
    var less := ByTerms(fa, [term]);
    forall a, b ensures less(a, b) <==> CompareTerm(fa, term, a, b) < 0 {
      OneTermLess(fa, term, a, b);
    }
    forall a | a in ts ensures !less(a, a) {
      TermSigns(fa, term, t, ts, a, a);
    }
    forall a, b | a in ts && b in ts && less(a, b) ensures !less(b, a) {
      TermSigns(fa, term, t, ts, a, b);
    }
    forall a, b, c | a in ts && b in ts && c in ts && less(a, b) ensures less(a, c) || less(c, b) {
      TermTriple(fa, term, t, ts, a, b, c);
    }
  }

  lemma {:induction false} OneTermLess(fa: FloatArith, term: OrderTerm, a: Tuple, b: Tuple)
    ensures TupleLess(fa, [term], a, b) <==> CompareTerm(fa, term, a, b) < 0
  {
    var terms := [term];
    assert terms[0] == term && terms[1..] == [];
    assert CompareTuples(fa, terms[1..], a, b) == 0;
  }

  /** c ties with a and with b whatever they are. */
  ghost predicate Wild(fa: FloatArith, e: Expr, c: Tuple, a: Tuple, b: Tuple) {
    !HasValue(fa, e, c) || (NaNAt(fa, e, c) && Solid(fa, e, a) && Solid(fa, e, b))
  }

  lemma {:induction false} WildTies(fa: FloatArith, term: OrderTerm, t: Type, ts: seq<Tuple>, a: Tuple, b: Tuple,
                                    c: Tuple)
    requires OneType(fa, term.e, t, ts) && StrictWeak(ByTerms(fa, [term]), ts) && a in ts && b in ts && c in ts
    requires Wild(fa, term.e, c, a, b)
    ensures CompareTerm(fa, term, a, b) == 0
  {
    var less := ByTerms(fa, [term]);
    OneTermLess(fa, term, a, b);
    OneTermLess(fa, term, b, a);
    OneTermLess(fa, term, a, c);
    OneTermLess(fa, term, c, a);
    OneTermLess(fa, term, b, c);
    OneTermLess(fa, term, c, b);
    TermSigns(fa, term, t, ts, a, b);
    assert less(a, b) ==> less(a, c) || less(c, b);
    assert less(b, a) ==> less(b, c) || less(c, a);
  }

  /** With a NaN among the values it is not: 1 is below 2, but NaN ties with both. */
  lemma {:induction false} NaNBreaksOrder()
    ensures CompareValues(FloatV(ONE), FloatV(TWO)) < 0
    ensures CompareValues(FloatV(ONE), FloatV(QUIET_NAN)) == 0 == CompareValues(FloatV(QUIET_NAN), FloatV(TWO))
  {
  }

  /** Element i goes before element j: it is smaller, or they tie and it came first. */
  ghost predicate Before<T(!new)>(less: (T, T) -> bool, xs: seq<T>, i: nat, j: nat)
    requires i < |xs| && j < |xs|
  {
    less(xs[i], xs[j]) || (!less(xs[j], xs[i]) && i < j)
  }

  ghost predicate Indices(order: seq<nat>, n: nat) {
    |order| == n && (forall k :: k in order <==> 0 <= k < n)
  }

  /** Positions of a list in stable order. */
  ghost predicate StableOrder<T(!new)>(less: (T, T) -> bool, xs: seq<T>, order: seq<nat>) {
    && (forall a :: 0 <= a < |order| ==> order[a] < |xs|)
    && forall a, b :: 0 <= a < b < |order| ==> Before(less, xs, order[a], order[b])
  }

  /** Where a later element goes: before the first one it is smaller than. */
  function Place<T(!new)>(less: (T, T) -> bool, xs: seq<T>, order: seq<nat>, x: T): (p: nat)
    requires forall a :: 0 <= a < |order| ==> order[a] < |xs|
    ensures p <= |order| && (forall a :: 0 <= a < p ==> !less(x, xs[order[a]]))
            && (p < |order| ==> less(x, xs[order[p]]))
  {
    if |order| == 0 || less(x, xs[order[0]]) then 0 else
    var p := Place(less, xs, order[1..], x);
    assert forall a :: 0 < a <= p && a < |order| ==> order[a] == order[1..][a - 1];
    1 + p
  }

  function Inserted<T(!new)>(less: (T, T) -> bool, xs: seq<T>, order: seq<nat>, k: nat): seq<nat>
    requires (forall a :: 0 <= a < |order| ==> order[a] < |xs|) && k < |xs|
  {
    var p := Place(less, xs, order, xs[k]);
    order[..p] + [k] + order[p..]
  }

  lemma {:induction false} InsertedIndices<T(!new)>(less: (T, T) -> bool, xs: seq<T>, order: seq<nat>, k: nat)
    requires (forall a :: 0 <= a < |order| ==> order[a] < |xs|) && k < |xs| && Indices(order, k)
    ensures Indices(Inserted(less, xs, order, k), k + 1)
  {
    var p, r := Place(less, xs, order, xs[k]), Inserted(less, xs, order, k);
    assert order == order[..p] + order[p..];
    forall x ensures x in r <==> 0 <= x < k + 1 {
      assert x in order <==> 0 <= x < k;
    }
  }

  lemma {:induction false} InsertedOrder<T(!new)>(less: (T, T) -> bool, xs: seq<T>, order: seq<nat>, k: nat)
    requires StrictWeak(less, xs) && StableOrder(less, xs, order) && k < |xs|
    requires forall a :: 0 <= a < |order| ==> order[a] < k
    ensures StableOrder(less, xs, Inserted(less, xs, order, k))
  {
    var p, r := Place(less, xs, order, xs[k]), Inserted(less, xs, order, k);
    assert forall a :: 0 <= a < |r| ==> r[a] == if a < p then order[a] else if a == p then k else order[a - 1];
    forall a, b | 0 <= a < b < |r| ensures Before(less, xs, r[a], r[b]) {
      if a == p {
        Above(less, xs, order, k, p, b - 1);
      } else if b == p {
        assert order[a] < k && !less(xs[k], xs[order[a]]);
      } else {
        OldPair(less, xs, order, if a < p then a else a - 1, if b < p then b else b - 1);
      }
    }
  }

  lemma {:induction false} OldPair<T(!new)>(less: (T, T) -> bool, xs: seq<T>, order: seq<nat>, i: nat, j: nat)
    requires StableOrder(less, xs, order) && i < j < |order|
    ensures Before(less, xs, order[i], order[j])
  {
  }

  /** What comes after the place is larger than the element put there. */
  lemma {:induction false} Above<T(!new)>(less: (T, T) -> bool, xs: seq<T>, order: seq<nat>, k: nat, p: nat, b: nat)
    requires StrictWeak(less, xs) && StableOrder(less, xs, order) && k < |xs| && p <= b < |order|
    requires less(xs[k], xs[order[p]])
    ensures less(xs[k], xs[order[b]])
  {
    if p < b {
      assert Before(less, xs, order[p], order[b]);
      assert xs[k] in xs && xs[order[p]] in xs && xs[order[b]] in xs;
    }
  }

  function SortedUpTo<T(!new)>(less: (T, T) -> bool, xs: seq<T>, n: nat): (order: seq<nat>)
    requires n <= |xs|
    ensures forall a :: 0 <= a < |order| ==> order[a] < |xs|
  {
    if n == 0 then [] else Inserted(less, xs, SortedUpTo(less, xs, n - 1), n - 1)
  }

  lemma {:induction false} IndicesBelow(order: seq<nat>, n: nat)
    requires Indices(order, n)
    ensures forall a :: 0 <= a < |order| ==> order[a] < n
  {
    assert forall a :: 0 <= a < |order| ==> order[a] in order;
  }

  /** The sort puts every element in its stable place. */
  lemma {:induction false} SortIsStable<T(!new)>(less: (T, T) -> bool, xs: seq<T>, n: nat)
    requires StrictWeak(less, xs) && n <= |xs|
    ensures StableOrder(less, xs, SortedUpTo(less, xs, n)) && Indices(SortedUpTo(less, xs, n), n)
  {
    if n != 0 {
      SortIsStable(less, xs, n - 1);
      var order := SortedUpTo(less, xs, n - 1);
      IndicesBelow(order, n - 1);
      InsertedOrder(less, xs, order, n - 1);
      InsertedIndices(less, xs, order, n - 1);
    }
  }

  lemma {:induction false} BeforeOneWay<T(!new)>(less: (T, T) -> bool, xs: seq<T>, i: nat, j: nat)
    requires StrictWeak(less, xs) && i < |xs| && j < |xs| && Before(less, xs, i, j)
    ensures i != j && !Before(less, xs, j, i)
  {
    assert xs[i] in xs && xs[j] in xs;
  }

  lemma {:induction false} StableLast<T(!new)>(less: (T, T) -> bool, xs: seq<T>, a: seq<nat>, b: seq<nat>)
    requires StrictWeak(less, xs) && StableOrder(less, xs, a) && StableOrder(less, xs, b) && |a| > 0 && |b| > 0
    requires forall k :: k in a <==> k in b
    ensures a[|a| - 1] == b[|b| - 1]
  {
    var x, y := a[|a| - 1], b[|b| - 1];
    assert x in b && y in a;
    var i :| 0 <= i < |b| && b[i] == x;
    var j :| 0 <= j < |a| && a[j] == y;
    assert j < |a| - 1 ==> Before(less, xs, y, x);
    if i < |b| - 1 {
      assert Before(less, xs, x, y);
      BeforeOneWay(less, xs, x, y);
    }
  }

  lemma {:induction false} LastApart<T(!new)>(less: (T, T) -> bool, xs: seq<T>, a: seq<nat>, k: nat)
    requires StrictWeak(less, xs) && StableOrder(less, xs, a) && |a| > 0
    ensures k in a[..|a| - 1] <==> k in a && k != a[|a| - 1]
  {
    var m := |a| - 1;
    assert a == a[..m] + [a[m]];
    if k in a[..m] {
      var i :| 0 <= i < m && a[..m][i] == k;
      assert Before(less, xs, a[i], a[m]);
      BeforeOneWay(less, xs, a[i], a[m]);
    }
  }

  /** There is only one stable order, so the sort's result does not depend on how it is done. */
  lemma {:induction false} StableUnique<T(!new)>(less: (T, T) -> bool, xs: seq<T>, a: seq<nat>, b: seq<nat>)
    requires StrictWeak(less, xs) && StableOrder(less, xs, a) && StableOrder(less, xs, b)
    requires |a| == |b| && forall k :: k in a <==> k in b
    ensures a == b
    decreases |a|
  {
    if |a| > 0 {
      var m := |a| - 1;
      StableLast(less, xs, a, b);
      var a', b' := a[..m], b[..m];
      forall k ensures k in a' <==> k in b' {
        LastApart(less, xs, a, k);
        LastApart(less, xs, b, k);
      }
      StableUnique(less, xs, a', b');
      assert a == a' + [a[m]] && b == b' + [b[m]];
    }
  }
}
