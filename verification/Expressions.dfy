/** Expressions and their evaluation over a tuple of table rows. */
module Expressions {
  import opened Bytes
  import opened Entries
  import opened Values
  import opened Rows

  datatype BinOp = Or | And | Eq | Ne | Lt | Le | Gt | Ge | Add | Sub | Mul | Div

  datatype UnOp = Not | Neg

  datatype Literal = IntL(i: int64) | FloatL(f: bits64) | StringL(s: Bytes) | BoolL(b: bool) | NullL

  /** A column reference without a qualifier has an empty table name. */
  datatype Expr =
    | Lit(lit: Literal)
    | Ref(table: Bytes, name: Bytes)
    | Unary(op: UnOp, arg: Expr)
    | Binary(bop: BinOp, left: Expr, right: Expr)
    | CountStar

  datatype Column = Column(name: Bytes, t: Type, notNull: bool)

  /** One table's part of the current row. */
  datatype Binding = Binding(alias: Bytes, columns: seq<Column>, values: Row)

  type Tuple = seq<Binding>

  /** `ColumnIndex`: the first column of that name. */
  function ColumnIndex(columns: seq<Column>, name: Bytes): (i: Option<nat>)
    ensures i.Some? ==> i.value < |columns|
  {
    if |columns| == 0 then None
    else if columns[0].name == name then Some(0)
    else
      var i := ColumnIndex(columns[1..], name);
      if i.None? then None else Some(i.value + 1)
  }

  /** Column i has the name and no earlier one has. */
  predicate FirstNamed(columns: seq<Column>, name: Bytes, i: nat) {
    i < |columns| && columns[i].name == name && forall j :: 0 <= j < i ==> columns[j].name != name
  }

  lemma {:induction false} ColumnIndexIff(columns: seq<Column>, name: Bytes, i: nat)
    ensures ColumnIndex(columns, name) == Some(i) <==> FirstNamed(columns, name, i)
    ensures ColumnIndex(columns, name).None? <==> forall j :: 0 <= j < |columns| ==> columns[j].name != name
    decreases |columns|
  {
    if |columns| != 0 {
      var rest := columns[1..];
      ColumnIndexIff(rest, name, if i > 0 then i - 1 else 0);
      assert forall j :: 0 < j < |columns| ==> columns[j] == rest[j - 1];
      assert forall j :: 0 <= j < |rest| ==> rest[j] == columns[j + 1];
    }
  }

  /** The binding's value for a reference, if it has one. */
  function ValueIn(b: Binding, table: Bytes, name: Bytes): Option<Value> {
    if table != [] && table != b.alias then None else
    var i := ColumnIndex(b.columns, name);
    if i.None? || i.value >= |b.values| then None else Some(b.values[i.value])
  }

  /** All values a reference could mean. */
  function Candidates(tp: Tuple, table: Bytes, name: Bytes): seq<Value>
    decreases |tp|
  {
    if |tp| == 0 then [] else
    var v := ValueIn(tp[0], table, name);
    (if v.None? then [] else [v.value]) + Candidates(tp[1..], table, name)
  }

  /** A reference must name exactly one column of the tuple. */
  function Resolve(tp: Tuple, table: Bytes, name: Bytes): Option<Value> {
    var c := Candidates(tp, table, name);
    if |c| == 1 then Some(c[0]) else None
  }

  function LiteralValue(l: Literal): Value {
    match l
    case IntL(i) => IntV(i)
    case FloatL(f) => FloatV(f)
    case StringL(s) => TextV(s)
    case BoolL(b) => BoolV(b)
    case NullL => Null(Text)
  }

  /** 64-bit two's complement. */
  function Wrap(i: int): int64 {
    var n := i % TWO64;
    if n >= TWO63 then n - TWO64 else n
  }

  /** Division truncates toward zero. */
  function Quotient(a: int, b: int): int
    requires b != 0
  {
    var q := AbsInt(a) / AbsInt(b);
    if (a < 0) == (b < 0) then q else -q
  }

  function NegateFloat(f: bits64): bits64 { if f < TWO63 then f + TWO63 else f - TWO63 }

  function AsFloat(v: Value): bits64 { if TypeOf(v) == Float then FloatField(v) else ToFloat(IntField(v)) }

  /** Rounded double arithmetic, which is left to the caller. */
  type FloatArith = (BinOp, bits64, bits64) -> bits64

  function Arith(fa: FloatArith, op: BinOp, l: Value, r: Value): Option<Value> {
    if l.Null? || r.Null? then Some(Null(Float))
    else if TypeOf(l) == Float || TypeOf(r) == Float then
      if op == Div && Magnitude(AsFloat(r)) == 0 then None else Some(FloatV(fa(op, AsFloat(l), AsFloat(r))))
    else
      var a, b := IntField(l), IntField(r);
      match op
      case Add => Some(IntV(Wrap(a as int + b as int)))
      case Sub => Some(IntV(Wrap(a as int - b as int)))
      case Mul => Some(IntV(Wrap(a as int * b as int)))
      case Div => if b == 0 then None else Some(IntV(Wrap(Quotient(a, b))))
      case _ => None
  }

  predicate Holds2(op: BinOp, c: int) {
    match op
    case Eq => c == 0
    case Ne => c != 0
    case Lt => c < 0
    case Le => c <= 0
    case Gt => c > 0
    case Ge => c >= 0
    case _ => false
  }

  predicate IsComparison(op: BinOp) { op in {Eq, Ne, Lt, Le, Gt, Ge} }

  function CompareWith(op: BinOp, l: Value, r: Value): Value {
    if l.Null? || r.Null? then Null(Boolean) else BoolV(Holds2(op, CompareValues(l, r)))
  }

  /** None stands for the evaluation errors. */
  function Eval(fa: FloatArith, e: Expr, tp: Tuple): Option<Value>
    decreases e
  {
    match e
    case Lit(l) => Some(LiteralValue(l))
    case Ref(table, name) => Resolve(tp, table, name)
    case Unary(op, a) =>
      var v := Eval(fa, a, tp);
      if v.None? then None
      else if op == Not then Some(BoolV(!Truthy(v.value)))
      else if TypeOf(v.value) == Float then Some(FloatV(NegateFloat(FloatField(v.value))))
      else Some(IntV(Wrap(-(IntField(v.value) as int))))
    case Binary(op, a, b) =>
      var l := Eval(fa, a, tp);
      if l.None? then None
      else if op == And && !Truthy(l.value) then Some(BoolV(false))
      else if op == Or && Truthy(l.value) then Some(BoolV(true))
      else
        var r := Eval(fa, b, tp);
        if r.None? then None
        else if op == And || op == Or then Some(BoolV(Truthy(r.value)))
        else if IsComparison(op) then Some(CompareWith(op, l.value, r.value))
        else Arith(fa, op, l.value, r.value)
    case CountStar => None
  }

  /** A value made to fit a column's type: NULL and integers into FLOAT are converted, the rest must match. */
  function Coerce(v: Value, want: Type): (r: Option<Value>)
    ensures r.Some? ==> TypeOf(r.value) == want
  {
    if v.Null? then Some(Null(want))
    else if TypeOf(v) == want then Some(v)
    else if v.IntV? && want == Float then Some(FloatV(ToFloat(v.i)))
    else None
  }

  /** A row satisfies a WHERE clause; None stands for an evaluation error. */
  function Satisfies(fa: FloatArith, where: Option<Expr>, tp: Tuple): Option<bool> {
    if where.None? then Some(true) else
    var v := Eval(fa, where.value, tp);
    if v.None? then None else Some(Truthy(v.value))
  }
}
