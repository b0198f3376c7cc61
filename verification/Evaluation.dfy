/** What expressions mean: references, comparisons, logic and arithmetic. */
module Evaluation {
  import opened Bytes
  import opened Entries
  import opened Values
  import opened Doubles
  import opened Expressions
  import opened Tables
  import opened Seek

  // ---- References ----------------------------------------------------------

  /** A table's row has this value for the reference. */
  ghost predicate Offers(b: Binding, table: Bytes, name: Bytes, v: Value) {
    (table == [] || table == b.alias)
    && exists c: nat :: FirstNamed(b.columns, name, c) && c < |b.values| && b.values[c] == v
  }

  ghost predicate Silent(b: Binding, table: Bytes, name: Bytes) { forall v :: !Offers(b, table, name, v) }

  ghost predicate OnlyAt(tp: Tuple, table: Bytes, name: Bytes, i: nat, v: Value) {
    i < |tp| && Offers(tp[i], table, name, v) && forall j :: 0 <= j < |tp| && j != i ==> Silent(tp[j], table, name)
  }

  lemma {:induction false} ValueInIff(b: Binding, table: Bytes, name: Bytes, v: Value)
    ensures ValueIn(b, table, name) == Some(v) <==> Offers(b, table, name, v)
    ensures ValueIn(b, table, name).None? <==> Silent(b, table, name)
  {
    var i := ColumnIndex(b.columns, name);
    if i.Some? {
      ColumnIndexIff(b.columns, name, i.value);
    } else {
      ColumnIndexIff(b.columns, name, 0);
    }
    if ValueIn(b, table, name).Some? {
      assert FirstNamed(b.columns, name, i.value);
      assert Offers(b, table, name, b.values[i.value]);
    }
    forall c: nat | FirstNamed(b.columns, name, c) ensures i == Some(c) {
      ColumnIndexIff(b.columns, name, c);
    }
  }

  lemma {:induction false} CandidatesNone(tp: Tuple, table: Bytes, name: Bytes)
    ensures Candidates(tp, table, name) == [] <==> forall j :: 0 <= j < |tp| ==> Silent(tp[j], table, name)
    decreases |tp|
  {
    if |tp| != 0 {
      CandidatesNone(tp[1..], table, name);
      ValueInIff(tp[0], table, name, Null(Text));
      assert forall j :: 0 < j < |tp| ==> tp[j] == tp[1..][j - 1];
      assert forall j :: 0 <= j < |tp| - 1 ==> tp[1..][j] == tp[j + 1];
    }
  }

  /** A reference means the one value that the tables of the tuple have for it; with none or with two it is an
      error. */
  lemma {:induction false} ResolveIff(tp: Tuple, table: Bytes, name: Bytes, v: Value)
    ensures Resolve(tp, table, name) == Some(v) <==> exists i: nat :: OnlyAt(tp, table, name, i, v)
    decreases |tp|
  {
    if |tp| != 0 {
      var rest := tp[1..];
      ValueInIff(tp[0], table, name, v);
      CandidatesNone(rest, table, name);
      ResolveIff(rest, table, name, v);
      assert forall j :: 0 < j < |tp| ==> tp[j] == rest[j - 1];
      assert forall j :: 0 <= j < |rest| ==> rest[j] == tp[j + 1];
      if ValueIn(tp[0], table, name).Some? {
        FirstOffers(tp, rest, table, name, v);
      } else {
        FirstSilent(tp, rest, table, name, v);
      }
    }
  }

  lemma {:induction false} FirstOffers(tp: Tuple, rest: Tuple, table: Bytes, name: Bytes, v: Value)
    requires |tp| > 0 && rest == tp[1..] && !Silent(tp[0], table, name) && ValueIn(tp[0], table, name).Some?
    requires ValueIn(tp[0], table, name) == Some(v) <==> Offers(tp[0], table, name, v)
    requires Candidates(rest, table, name) == [] <==> forall j :: 0 <= j < |rest| ==> Silent(rest[j], table, name)
    ensures Resolve(tp, table, name) == Some(v) <==> exists i: nat :: OnlyAt(tp, table, name, i, v)
  {
    var c := Candidates(rest, table, name);
    assert Candidates(tp, table, name) == [ValueIn(tp[0], table, name).value] + c;
    assert forall j :: 0 <= j < |rest| ==> rest[j] == tp[j + 1];
    if Resolve(tp, table, name) == Some(v) {
      assert c == [];
      forall j | 0 < j < |tp| ensures Silent(tp[j], table, name) {
        assert tp[j] == rest[j - 1];
      }
      assert OnlyAt(tp, table, name, 0, v);
    }
    if i: nat :| OnlyAt(tp, table, name, i, v) {
      assert i == 0;
      assert c == [];
    }
  }

  lemma {:induction false} FirstSilent(tp: Tuple, rest: Tuple, table: Bytes, name: Bytes, v: Value)
    requires |tp| > 0 && rest == tp[1..] && Silent(tp[0], table, name) && ValueIn(tp[0], table, name).None?
    requires Resolve(rest, table, name) == Some(v) <==> exists i: nat :: OnlyAt(rest, table, name, i, v)
    ensures Resolve(tp, table, name) == Some(v) <==> exists i: nat :: OnlyAt(tp, table, name, i, v)
  {
    assert Candidates(tp, table, name) == Candidates(rest, table, name);
    assert forall j :: 0 <= j < |rest| ==> rest[j] == tp[j + 1];
    assert forall j :: 0 < j < |tp| ==> tp[j] == rest[j - 1];
    if i: nat :| OnlyAt(rest, table, name, i, v) {
      assert OnlyAt(tp, table, name, i + 1, v);
    }
    if i: nat :| OnlyAt(tp, table, name, i, v) {
      assert i > 0;
      assert OnlyAt(rest, table, name, i - 1, v);
    }
  }

  // ---- Comparisons ---------------------------------------------------------

  predicate IsNumber(v: Value) { v.IntV? || v.FloatV? }

  /** Two values of one type, or two numbers. */
  predicate Comparable(v: Value, w: Value) {
    !v.Null? && !w.Null? && (TypeOf(v) == TypeOf(w) || (IsNumber(v) && IsNumber(w)))
  }

  /** Integers and texts in their own order, false before true, and doubles as section 5.11 of IEEE 754-2008 has them;
      an integer meets a double as the double nearest to it. */
  predicate Below(v: Value, w: Value)
    requires Comparable(v, w)
  {
    if v.IntV? && w.IntV? then v.i < w.i
    else if v.TextV? then Less(v.s, w.s)
    else if v.BoolV? then !v.b && w.b
    else FloatLess(AsFloat(v), AsFloat(w))
  }

  predicate Same(v: Value, w: Value)
    requires Comparable(v, w)
  {
    if v.IntV? && w.IntV? then v.i == w.i
    else if v.TextV? then v.s == w.s
    else if v.BoolV? then v.b == w.b
    else IsNaN(AsFloat(v)) || IsNaN(AsFloat(w)) || Rank(AsFloat(v)) == Rank(AsFloat(w))
  }

  /** What a comparison says. */
  predicate Says(op: BinOp, v: Value, w: Value)
    requires IsComparison(op) && Comparable(v, w)
  {
    match op
    case Eq => Same(v, w)
    case Ne => !Same(v, w)
    case Lt => Below(v, w)
    case Gt => Below(w, v)
    case Le => Below(v, w) || Same(v, w)
    case Ge => Below(w, v) || Same(v, w)
  }

  lemma {:induction false} CompareSays(v: Value, w: Value)
    requires Comparable(v, w)
    ensures CompareValues(v, w) < 0 <==> Below(v, w)
    ensures CompareValues(v, w) > 0 <==> Below(w, v)
    ensures CompareValues(v, w) == 0 <==> Same(v, w)
  {
    if v.TextV? {
      LessTotal(v.s, w.s);
      LessIrreflexive(v.s);
      if Less(v.s, w.s) {
        LessAsymmetric(v.s, w.s);
      }
    }
  }

  /** A comparison with NULL is NULL, one of two comparable values is true or false by their order, and it fails only
      when an operand does. */
  lemma {:induction false} ComparisonMeans(fa: FloatArith, op: BinOp, a: Expr, b: Expr, tp: Tuple)
    requires op in {Eq, Ne, Lt, Le, Gt, Ge}
    ensures var l, r, x := Eval(fa, a, tp), Eval(fa, b, tp), Eval(fa, Binary(op, a, b), tp);
            && (x.None? <==> l.None? || r.None?)
            && (x.Some? && (l.value.Null? || r.value.Null?) ==> x == Some(Null(Boolean)))
            && (x.Some? && Comparable(l.value, r.value) ==> x == Some(BoolV(Says(op, l.value, r.value))))
  {
    var l, r := Eval(fa, a, tp), Eval(fa, b, tp);
    if l.Some? && r.Some? && Comparable(l.value, r.value) {
      CompareSays(l.value, r.value);
    }
  }

  /** `>` and `>=` are `<` and `<=` with the operands exchanged. */
  lemma {:induction false} ComparisonsExchange(fa: FloatArith, a: Expr, b: Expr, tp: Tuple, v: Value, w: Value)
    requires Eval(fa, a, tp) == Some(v) && Eval(fa, b, tp) == Some(w) && Comparable(v, w)
    ensures Eval(fa, Binary(Gt, a, b), tp) == Eval(fa, Binary(Lt, b, a), tp)
    ensures Eval(fa, Binary(Ge, a, b), tp) == Eval(fa, Binary(Le, b, a), tp)
  {
    ComparisonMeans(fa, Gt, a, b, tp);
    ComparisonMeans(fa, Lt, b, a, tp);
    ComparisonMeans(fa, Ge, a, b, tp);
    ComparisonMeans(fa, Le, b, a, tp);
    SameBothWays(v, w);
  }

  /** `<=` is `<` or `=`, and `<>` is not `=`. */
  lemma {:induction false} ComparisonsAgree(fa: FloatArith, a: Expr, b: Expr, tp: Tuple, v: Value, w: Value)
    requires Eval(fa, a, tp) == Some(v) && Eval(fa, b, tp) == Some(w) && Comparable(v, w)
    ensures Eval(fa, Binary(Le, a, b), tp) == Eval(fa, Binary(Or, Binary(Lt, a, b), Binary(Eq, a, b)), tp)
    ensures Eval(fa, Binary(Ne, a, b), tp) == Eval(fa, Unary(Not, Binary(Eq, a, b)), tp)
  {
    ComparisonMeans(fa, Le, a, b, tp);
    ComparisonMeans(fa, Lt, a, b, tp);
    ComparisonMeans(fa, Eq, a, b, tp);
    ComparisonMeans(fa, Ne, a, b, tp);
  }

  lemma {:induction false} SameBothWays(v: Value, w: Value)
    requires Comparable(v, w)
    ensures Same(v, w) <==> Same(w, v)
    ensures Below(v, w) ==> !Same(v, w) && !Below(w, v)
  {
    CompareSays(v, w);
  }

  function ZeroOf(t: Type): Literal {
    match t
    case Integer => IntL(0)
    case Float => FloatL(0)
    case Text => StringL([])
    case Boolean => BoolL(false)
  }

  /** Of values that are not comparable, the right one counts as the zero of the left one's type. */
  lemma {:induction false} MixedReadsZero(fa: FloatArith, op: BinOp, a: Expr, b: Expr, tp: Tuple, v: Value, w: Value)
    requires op in {Eq, Ne, Lt, Le, Gt, Ge} && Eval(fa, a, tp) == Some(v) && Eval(fa, b, tp) == Some(w)
    requires !v.Null? && !w.Null? && !Comparable(v, w)
    ensures Eval(fa, Binary(op, a, b), tp) == Eval(fa, Binary(op, a, Lit(ZeroOf(TypeOf(v)))), tp)
  {
    var zero := LiteralValue(ZeroOf(TypeOf(v)));
    assert CompareValues(v, w) == CompareValues(v, zero);
  }

  /** So `=` is not the same both ways round: zero equals every text, and a text that is not empty does not equal
      zero. */
  lemma {:induction false} MixedOneWay(fa: FloatArith, tp: Tuple, s: Bytes)
    requires s != []
    ensures Eval(fa, Binary(Eq, Lit(IntL(0)), Lit(StringL(s))), tp) == Some(BoolV(true))
    ensures Eval(fa, Binary(Eq, Lit(StringL(s)), Lit(IntL(0))), tp) == Some(BoolV(false))
  {
  }

  // ---- Logic ---------------------------------------------------------------

  /** Zero of either sign, the empty text, false and NULL are not true; everything else is. */
  lemma {:induction false} TruthyIff(v: Value)
    ensures !Truthy(v) <==>
            v.Null? || v == FloatV(NEGATIVE_ZERO) || exists t :: v == LiteralValue(ZeroOf(t))
  {
    if !v.Null? {
      var zero := LiteralValue(ZeroOf(TypeOf(v)));
      assert v == zero ==> exists t :: v == LiteralValue(ZeroOf(t));
    }
  }

  /** AND is true when both sides are, and does not look at the right side when the left one decides. */
  lemma {:induction false} AndTable(fa: FloatArith, a: Expr, b: Expr, tp: Tuple)
    ensures var l, r, x := Eval(fa, a, tp), Eval(fa, b, tp), Eval(fa, Binary(And, a, b), tp);
            && (x.Some? ==> x.value.BoolV?)
            && (x == Some(BoolV(true)) <==> l.Some? && Truthy(l.value) && r.Some? && Truthy(r.value))
            && (x == Some(BoolV(false)) <==> l.Some? && (!Truthy(l.value) || (r.Some? && !Truthy(r.value))))
  {
  }

  lemma {:induction false} OrTable(fa: FloatArith, a: Expr, b: Expr, tp: Tuple)
    ensures var l, r, x := Eval(fa, a, tp), Eval(fa, b, tp), Eval(fa, Binary(Or, a, b), tp);
            && (x.Some? ==> x.value.BoolV?)
            && (x == Some(BoolV(true)) <==> l.Some? && (Truthy(l.value) || (r.Some? && Truthy(r.value))))
            && (x == Some(BoolV(false)) <==> l.Some? && !Truthy(l.value) && r.Some? && !Truthy(r.value))
  {
  }

  lemma {:induction false} NotTable(fa: FloatArith, a: Expr, tp: Tuple)
    ensures var v, x := Eval(fa, a, tp), Eval(fa, Unary(Not, a), tp);
            && (x == Some(BoolV(true)) <==> v.Some? && !Truthy(v.value))
            && (x == Some(BoolV(false)) <==> v.Some? && Truthy(v.value))
            && (x.None? <==> v.None?)
  {
  }

  /** NOT exchanges AND and OR, errors and operands left unlooked at included. */
  lemma {:induction false} DeMorgan(fa: FloatArith, a: Expr, b: Expr, tp: Tuple)
    ensures Eval(fa, Unary(Not, Binary(And, a, b)), tp) == Eval(fa, Binary(Or, Unary(Not, a), Unary(Not, b)), tp)
    ensures Eval(fa, Unary(Not, Binary(Or, a, b)), tp) == Eval(fa, Binary(And, Unary(Not, a), Unary(Not, b)), tp)
  {
    NotTable(fa, a, tp);
    NotTable(fa, b, tp);
    AndTable(fa, a, b, tp);
    OrTable(fa, a, b, tp);
    AndTable(fa, Unary(Not, a), Unary(Not, b), tp);
    OrTable(fa, Unary(Not, a), Unary(Not, b), tp);
    NotTable(fa, Binary(And, a, b), tp);
    NotTable(fa, Binary(Or, a, b), tp);
  }

  // ---- Arithmetic ----------------------------------------------------------

  const LOWEST: int64 := -0x8000_0000_0000_0000

  predicate Congruent(x: int, y: int) { (x - y) % TWO64 == 0 }

  /** k is x divided by y, with a remainder smaller than y and of the sign of x. */
  predicate Truncates(x: int, y: int, k: int) {
    var rest := x - k * y;
    AbsInt(rest) < AbsInt(y) && (rest != 0 ==> (rest < 0 <==> x < 0))
  }

  lemma {:induction false} WrapCongruent(i: int)
    ensures Congruent(Wrap(i), i)
    ensures LOWEST <= i < TWO63 ==> Wrap(i) == i
  {
  }

  lemma {:induction false} QuotientTruncates(x: int, y: int)
    requires y != 0
    ensures Truncates(x, y, Quotient(x, y)) && AbsInt(Quotient(x, y)) <= AbsInt(x)
  {
    var n, d := AbsInt(x), AbsInt(y);
    var q := n / d;
    QuotientSmall(n, d);
    Signs(x, y, q, n - q * d);
  }

  lemma {:induction false} Signs(x: int, y: int, q: nat, r: nat)
    requires y != 0 && AbsInt(x) == q * AbsInt(y) + r && r < AbsInt(y)
    ensures Truncates(x, y, if (x < 0) == (y < 0) then q else -(q as int))
  {
    assert -(q as int) * y == -(q * y);
    assert q * (-y) == -(q * y);
  }

  lemma {:induction false} QuotientSmall(n: nat, d: nat)
    requires d > 0
    ensures n / d <= n && 0 <= n - n / d * d < d
  {
    var q := n / d;
    assert n == d * q + n % d;
    MulMonotone(q, 1, d);
  }

  /** A value that integer arithmetic is done on; one that is no number counts as zero. */
  predicate Whole(v: Value) { !v.Null? && !v.FloatV? }

  /** The integer that is n modulo 2^64. */
  predicate IsInt(x: Option<Value>, n: int) { x.Some? && x.value.IntV? && Congruent(x.value.i, n) }

  lemma {:induction false} WrapIs(n: int)
    ensures IsInt(Some(IntV(Wrap(n))), n)
  {
    WrapCongruent(n);
  }

  /** Integer sums, differences and products are right modulo 2^64. */
  lemma {:induction false} IntegerArithmetic(fa: FloatArith, a: Expr, b: Expr, tp: Tuple, v: Value, w: Value)
    requires Eval(fa, a, tp) == Some(v) && Eval(fa, b, tp) == Some(w) && Whole(v) && Whole(w)
    ensures IsInt(Eval(fa, Binary(Add, a, b), tp), IntField(v) + IntField(w))
    ensures IsInt(Eval(fa, Binary(Sub, a, b), tp), IntField(v) - IntField(w))
    ensures IsInt(Eval(fa, Binary(Mul, a, b), tp), IntField(v) * IntField(w))
  {
    Added(fa, a, b, tp, v, w, IntField(v), IntField(w));
    Multiplied(fa, a, b, tp, v, w, IntField(v) * IntField(w));
  }

  lemma {:induction false} Added(fa: FloatArith, a: Expr, b: Expr, tp: Tuple, v: Value, w: Value, x: int, y: int)
    requires Eval(fa, a, tp) == Some(v) && Eval(fa, b, tp) == Some(w) && Whole(v) && Whole(w)
    requires x == IntField(v) && y == IntField(w)
    ensures IsInt(Eval(fa, Binary(Add, a, b), tp), x + y)
    ensures IsInt(Eval(fa, Binary(Sub, a, b), tp), x - y)
  {
    assert Eval(fa, Binary(Add, a, b), tp) == Arith(fa, Add, v, w) == Some(IntV(Wrap(x + y)));
    assert Eval(fa, Binary(Sub, a, b), tp) == Arith(fa, Sub, v, w) == Some(IntV(Wrap(x - y)));
    WrapIs(x + y);
    WrapIs(x - y);
  }

  lemma {:induction false} Multiplied(fa: FloatArith, a: Expr, b: Expr, tp: Tuple, v: Value, w: Value, n: int)
    requires Eval(fa, a, tp) == Some(v) && Eval(fa, b, tp) == Some(w) && Whole(v) && Whole(w)
    requires n == IntField(v) * IntField(w)
    ensures IsInt(Eval(fa, Binary(Mul, a, b), tp), n)
  {
    assert Eval(fa, Binary(Mul, a, b), tp) == Some(IntV(Wrap(n)));
    WrapIs(n);
  }

  /** Integer division truncates toward zero and fails on zero; the one quotient out of range wraps around. */
  lemma {:induction false} IntegerDivision(fa: FloatArith, a: Expr, b: Expr, tp: Tuple, v: Value, w: Value)
    requires Eval(fa, a, tp) == Some(v) && Eval(fa, b, tp) == Some(w) && Whole(v) && Whole(w)
    ensures var x, y, q := IntField(v), IntField(w), Eval(fa, Binary(Div, a, b), tp);
            && (q.None? <==> y == 0)
            && (q.Some? ==> q.value.IntV?)
            && (q.Some? ==> if x == LOWEST && y == -1 then q.value.i == x else Truncates(x, y, q.value.i))
  {
    var x, y := IntField(v), IntField(w);
    if y != 0 {
      QuotientTruncates(x, y);
      WrapCongruent(Quotient(x, y));
      if Quotient(x, y) == TWO63 {
        OnlyOverflow(x, y, TWO63);
      }
    }
  }

  /** A quotient as large as 2^63 needs the largest dividend and a divisor of one. */
  lemma {:induction false} OnlyOverflow(x: int64, y: int64, k: nat)
    requires k == TWO63 && Truncates(x, y, k)
    ensures x == LOWEST && y == -1
  {
  }

  /** As soon as one operand is a double both are, and the result is the double arithmetic's; division fails on zero of
      either sign. NULL makes everything NULL. */
  lemma {:induction false} DoubleArithmetic(fa: FloatArith, op: BinOp, a: Expr, b: Expr, tp: Tuple, v: Value, w: Value)
    requires op in {Add, Sub, Mul, Div} && Eval(fa, a, tp) == Some(v) && Eval(fa, b, tp) == Some(w)
    ensures v.Null? || w.Null? ==> Eval(fa, Binary(op, a, b), tp) == Some(Null(Float))
    ensures !v.Null? && !w.Null? && (v.FloatV? || w.FloatV?) ==>
              Eval(fa, Binary(op, a, b), tp) == DoubleResult(fa, op, AsFloat(v), AsFloat(w))
  {
    assert Eval(fa, Binary(op, a, b), tp) == Arith(fa, op, v, w);
    if !v.Null? && !w.Null? && (v.FloatV? || w.FloatV?) {
      ZeroMagnitude(AsFloat(w));
    }
  }

  function DoubleResult(fa: FloatArith, op: BinOp, x: bits64, y: bits64): Option<Value> {
    if op == Div && (y == 0 || y == NEGATIVE_ZERO) then None else Some(FloatV(fa(op, x, y)))
  }

  lemma {:induction false} ZeroMagnitude(f: bits64)
    ensures Magnitude(f) == 0 <==> f == 0 || f == NEGATIVE_ZERO
  {
  }

  /** The same magnitude with the other sign. */
  predicate Flipped(f: bits64, g: bits64) { g != f && Units(g) == -Units(f) && (IsNaN(g) <==> IsNaN(f)) }

  lemma {:induction false} NegateFlips(f: bits64)
    ensures Flipped(f, NegateFloat(f))
  {
    Opposite(f);
  }

  /** The minus sign: a double changes its sign bit, everything else counts as an integer, NULL as zero. */
  lemma {:induction false} NegationMeans(fa: FloatArith, a: Expr, tp: Tuple, v: Value)
    requires Eval(fa, a, tp) == Some(v)
    ensures var x := Eval(fa, Unary(Neg, a), tp);
            if TypeOf(v) == Float then x.Some? && x.value.FloatV? && Flipped(FloatField(v), x.value.f)
            else IsInt(x, -(IntField(v) as int))
  {
    if TypeOf(v) == Float {
      NegateFlips(FloatField(v));
    } else {
      WrapCongruent(-(IntField(v) as int));
    }
  }

  // ---- Literals, conversion and clauses ------------------------------------

  /** How a value is written. */
  function AsLiteral(v: Value): Literal {
    match v
    case Null(_) => NullL
    case IntV(i) => IntL(i)
    case FloatV(f) => FloatL(f)
    case TextV(s) => StringL(s)
    case BoolV(b) => BoolL(b)
  }

  /** A value is what its literal evaluates to; NULL is, but for its type. */
  lemma {:induction false} LiteralRoundTrip(fa: FloatArith, v: Value, tp: Tuple)
    ensures var x := Eval(fa, Lit(AsLiteral(v)), tp);
            x.Some? && if v.Null? then x.value.Null? else x.value == v
  {
  }

  /** A value fits a column if it is NULL, of its type, or an integer for a FLOAT column. It stays what it is: equal to
      `=`, the nearest double if it was an integer, NULL if it was NULL. */
  lemma {:induction false} CoerceIff(v: Value, t: Type)
    ensures Coerce(v, t).Some? <==> v.Null? || TypeOf(v) == t || (v.IntV? && t == Float)
    ensures Coerce(v, t).Some? ==> (Coerce(v, t).value.Null? <==> v.Null?)
    ensures TypeOf(v) == t ==> Coerce(v, t) == Some(v)
    ensures Coerce(v, t).Some? && v.IntV? && t == Float ==>
              Coerce(v, t).value.FloatV? && NearestEven(Coerce(v, t).value.f, IntUnits(v.i))
    ensures Coerce(v, t).Some? && !v.Null? ==> Comparable(v, Coerce(v, t).value) && Same(v, Coerce(v, t).value)
  {
    if v.IntV? {
      ToFloatNearest(v.i);
    }
  }

  /** A missing clause holds; a clause holds when it evaluates to something true. */
  lemma {:induction false} SatisfiesIff(fa: FloatArith, where: Option<Expr>, tp: Tuple)
    ensures Satisfies(fa, where, tp) == Some(true) <==>
            where.None? || exists v :: Eval(fa, where.value, tp) == Some(v) && Truthy(v)
    ensures Satisfies(fa, where, tp).None? <==> where.Some? && Eval(fa, where.value, tp).None?
  {
  }

  /** The rows that a clause `column op literal` selects: those whose value is not NULL and compares that way. */
  lemma {:induction false} ComparisonSelects(fa: FloatArith, s: Schema, alias: Bytes, rows: RowMap, rk: Bytes,
                                             table: Bytes, name: Bytes, c: nat, op: BinOp, lit: Literal)
    requires op in {Eq, Ne, Lt, Le, Gt, Ge} && (table == [] || table == alias) && FirstNamed(s.columns, name, c)
    requires rk in rows && c < |rows[rk]| && (rows[rk][c].Null? || Comparable(rows[rk][c], LiteralValue(lit)))
    ensures rk in Selected(fa, s, alias, Some(Binary(op, Ref(table, name), Lit(lit))), rows) <==>
            !rows[rk][c].Null? && Says(op, rows[rk][c], LiteralValue(lit))
  {
    var r := rows[rk];
    var tp := Alone(s, alias, r);
    ColumnIndexIff(s.columns, name, c);
    ResolvesAlone(s, alias, r, table, name, c);
    ComparisonMeans(fa, op, Ref(table, name), Lit(lit), tp);
  }
}
