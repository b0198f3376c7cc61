/** SQL values, how they compare, and the byte keys that indexes order them by. */
module Values {
  import opened Bytes

  const TWO52: nat := 0x10_0000_0000_0000
  const TWO63: nat := 0x8000_0000_0000_0000

  type int64 = i: int | -0x8000_0000_0000_0000 <= i < 0x8000_0000_0000_0000

  /** An IEEE 754 double as its 64 bits. */
  type bits64 = n: nat | n < TWO64

  datatype Type = Integer | Float | Text | Boolean

  datatype Value =
    | Null(t: Type)
    | IntV(i: int64)
    | FloatV(f: bits64)
    | TextV(s: Bytes)
    | BoolV(b: bool)

  function TypeOf(v: Value): Type {
    match v
    case Null(t) => t
    case IntV(_) => Integer
    case FloatV(_) => Float
    case TextV(_) => Text
    case BoolV(_) => Boolean
  }

  // ---- Doubles -------------------------------------------------------------

  const INFINITY: nat := 0x7FF0_0000_0000_0000
  const NEGATIVE_ZERO: bits64 := TWO63

  function Magnitude(f: bits64): nat { f % TWO63 }

  predicate IsNaN(f: bits64) { Magnitude(f) > INFINITY }

  /** Doubles that are not NaN compare as sign and magnitude (section 5.11 of IEEE 754-2008). */
  function Rank(f: bits64): int { if f < TWO63 then f else TWO63 - f }

  predicate FloatLess(a: bits64, b: bits64) { !IsNaN(a) && !IsNaN(b) && Rank(a) < Rank(b) }

  /** `v >= 0`. */
  predicate NonNegative(f: bits64) { !IsNaN(f) && Rank(f) >= 0 }

  function CompareFloat(a: bits64, b: bits64): int {
    if FloatLess(a, b) then -1 else if FloatLess(b, a) then 1 else 0
  }

  function Pow2(n: nat): (p: nat)
    ensures p > 0
  {
    if n == 0 then 1 else 2 * Pow2(n - 1)
  }

  /** The position of the highest bit. */
  function Log2(n: nat): (e: nat)
    requires n > 0
    ensures Pow2(e) <= n < 2 * Pow2(e)
  {
    if n == 1 then 0 else 1 + Log2(n / 2)
  }

  /** The significand of n, rounded to 53 bits with ties to even. */
  function Significand(n: nat): (q: nat)
    requires n > 0
  {
    var e := Log2(n);
    if e <= 52 then n * Pow2(52 - e)
    else
      var unit := Pow2(e - 52);
      var q, r := n / unit, n % unit;
      if 2 * r > unit || (2 * r == unit && q % 2 == 1) then q + 1 else q
  }

  lemma {:induction false} Pow2Sum(a: nat, b: nat)
    ensures Pow2(a + b) == Pow2(a) * Pow2(b)
    decreases a
  {
    if a != 0 {
      Pow2Sum(a - 1, b);
    }
  }

  lemma {:induction false} Pow2At52()
    ensures Pow2(52) == TWO52
  {
    Pow2At(4);
  }

  /** Doubling the exponent squares the power; the sizes are variables so that nothing is unrolled. */
  lemma {:induction false} Pow2At(n: nat)
    requires n == 4
    ensures Pow2(n * 13) == TWO52
  {
    assert Pow2(n) == 16;
    Pow2Sum(n, n);
    Pow2Sum(n * 2, n * 2);
    Pow2Sum(n * 4, n * 4);
    Pow2Sum(n * 8, n * 4);
    Pow2Sum(n * 12, n);
  }

  lemma {:induction false} SignificandBounds(n: nat)
    requires n > 0
    ensures TWO52 <= Significand(n) <= 2 * TWO52
  {
    Pow2At52();
    var e := Log2(n);
    if e <= 52 {
      Pow2Sum(e, 52 - e);
      Scale(Pow2(e), n, Pow2(52 - e));
    } else {
      var unit := Pow2(e - 52);
      Pow2Sum(52, e - 52);
      Divide(n, unit, TWO52);
    }
  }

  lemma {:induction false} Scale(p: nat, n: nat, k: nat)
    requires p <= n < 2 * p && k > 0
    ensures p * k <= n * k < 2 * (p * k)
  {
  }

  lemma {:induction false} Divide(n: nat, unit: nat, p: nat)
    requires unit > 0 && p * unit <= n < 2 * (p * unit)
    ensures p <= n / unit < 2 * p
  {
    var q := n / unit;
    assert n == unit * q + n % unit;
    if q < p {
      MulMonotone(unit, q + 1, p);
    }
    if q >= 2 * p {
      MulMonotone(unit, 2 * p, q);
    }
  }

  function AbsInt(i: int): nat { if i < 0 then -i else i }

  /** The magnitude of the double for n: the exponent above the significand, whose leading one adds one to it. */
  function Rounded(n: nat): nat
    requires n > 0
  {
    (Log2(n) + 1022) * TWO52 + Significand(n)
  }

  /** `float64(i)`. */
  function ToFloat(i: int64): (f: bits64)
  {
    if i == 0 then 0
    else
      var m := Rounded(AbsInt(i));
      MagnitudeInRange(AbsInt(i));
      if i < 0 then TWO63 + m else m
  }

  lemma {:induction false} Pow2Monotone(a: nat, b: nat)
    requires a <= b
    ensures Pow2(a) <= Pow2(b)
    decreases b
  {
    if a < b {
      Pow2Monotone(a, b - 1);
    }
  }

  lemma {:induction false} MagnitudeInRange(n: nat)
    requires 0 < n <= TWO63
    ensures 0 < Rounded(n) < INFINITY
  {
    SignificandBounds(n);
    Pow2At52();
    Pow2Sum(52, 12);
    assert Pow2(12) == 4096 by {
      Pow2Sum(6, 6);
      assert Pow2(6) == 64;
    }
    if Log2(n) >= 64 {
      Pow2Monotone(64, Log2(n));
      assert false;
    }
  }

  // ---- The order-preserving codecs -----------------------------------------

  /** `EncodeInt64`: the sign bit flipped, big-endian. */
  function EncodeInt64(i: int64): (b: Bytes)
    ensures |b| == 8
  {
    U64Bytes(i + TWO63)
  }

  function DecodeInt64(b: Bytes): int64
    requires |b| == 8
  {
    U64Bounded(b, 0);
    U64(b, 0) - TWO63
  }

  /** The number that `EncodeFloat64` writes. */
  function FloatCode(f: bits64): bits64 {
    if NonNegative(f) then (if f < TWO63 then f + TWO63 else f - TWO63) else TWO64 - 1 - f
  }

  function EncodeFloat64(f: bits64): (b: Bytes)
    ensures |b| == 8
  {
    U64Bytes(FloatCode(f))
  }

  function DecodeFloat64(b: Bytes): bits64
    requires |b| == 8
  {
    U64Bounded(b, 0);
    var u := U64(b, 0);
    if u >= TWO63 then u - TWO63 else TWO64 - 1 - u
  }

  lemma {:induction false} IntRoundTrip(i: int64)
    ensures DecodeInt64(EncodeInt64(i)) == i
  {
    U64RoundTrip(i + TWO63);
  }

  /** Decoding gives back the double except for negative zero and a NaN with a clear sign bit. */
  lemma {:induction false} FloatRoundTripIff(f: bits64)
    ensures DecodeFloat64(EncodeFloat64(f)) == f <==> f != NEGATIVE_ZERO && !(IsNaN(f) && f < TWO63)
  {
    U64RoundTrip(FloatCode(f));
  }

  // ---- Comparison and sort keys --------------------------------------------

  function IntField(v: Value): int64 { if v.IntV? then v.i else 0 }
  function FloatField(v: Value): bits64 { if v.FloatV? then v.f else 0 }
  function TextField(v: Value): Bytes { if v.TextV? then v.s else [] }
  function BoolField(v: Value): bool { v.BoolV? && v.b }

  /** `catalog.Compare`; a field of another type reads as that type's zero. */
  function CompareValues(a: Value, b: Value): int {
    if a.Null? && b.Null? then 0
    else if a.Null? then -1
    else if b.Null? then 1
    else match a
    case IntV(i) =>
      if b.FloatV? then CompareFloat(ToFloat(i), b.f)
      else if i < IntField(b) then -1 else if i > IntField(b) then 1 else 0
    case FloatV(f) => CompareFloat(f, if b.IntV? then ToFloat(b.i) else FloatField(b))
    case TextV(s) => Compare(s, TextField(b))
    case BoolV(x) => if x == BoolField(b) then 0 else if !x then -1 else 1
  }

  function KeyBody(v: Value): Bytes
    requires !v.Null?
  {
    match v
    case IntV(i) => EncodeInt64(i)
    case FloatV(f) => EncodeFloat64(f)
    case TextV(s) => s
    case BoolV(b) => [if b then 1 else 0]
  }

  function SortKey(v: Value): (k: Bytes)
    ensures |k| > 0
  {
    if v.Null? then [0] else [1] + KeyBody(v)
  }

  function Truthy(v: Value): bool {
    match v
    case Null(_) => false
    case IntV(i) => i != 0
    case FloatV(f) => IsNaN(f) || Rank(f) != 0
    case TextV(s) => s != []
    case BoolV(b) => b
  }

  /** Two doubles whose codes are equal although one of them is NaN. */
  predicate CodesMeet(a: bits64, b: bits64) {
    a == b || a + b == TWO63 - 1 || (a == NEGATIVE_ZERO && b == TWO64 - 1) || (b == NEGATIVE_ZERO && a == TWO64 - 1)
  }

  /** When the keys of two doubles are in the doubles' own order: NaN compares equal to everything but has one
      place among the keys, and negative zero has the lowest key. */
  predicate FloatsInOrder(a: bits64, b: bits64) {
    if IsNaN(a) || IsNaN(b) then CodesMeet(a, b)
    else a == b || ((a == NEGATIVE_ZERO ==> Rank(b) > 0) && (b == NEGATIVE_ZERO ==> Rank(a) > 0))
  }

  function Sign(i: int): int { if i < 0 then -1 else if i > 0 then 1 else 0 }

  lemma {:induction false} CodeOrderIff(a: bits64, b: bits64)
    ensures Sign(FloatCode(a) - FloatCode(b)) == CompareFloat(a, b) <==> FloatsInOrder(a, b)
  {
  }

  lemma {:induction false} CompareU64(x: nat, y: nat)
    requires x < TWO64 && y < TWO64
    ensures Compare(U64Bytes(x), U64Bytes(y)) == Sign(x - y)
  {
    U64Order(x, y);
  }

  lemma {:induction false} CompareTagged(a: Bytes, b: Bytes)
    ensures Compare([1] + a, [1] + b) == Compare(a, b)
  {
    assert ([1] + a)[1..] == a && ([1] + b)[1..] == b;
  }

  lemma {:induction false} IntKeyOrder(i: int64, j: int64)
    ensures Compare(EncodeInt64(i), EncodeInt64(j)) == Sign(i as int - j as int)
    ensures EncodeInt64(i) == EncodeInt64(j) <==> i == j
  {
    CompareU64(i + TWO63, j + TWO63);
  }

  lemma {:induction false} FloatKeyOrder(f: bits64, g: bits64)
    ensures Compare(EncodeFloat64(f), EncodeFloat64(g)) == CompareFloat(f, g) <==> FloatsInOrder(f, g)
    ensures EncodeFloat64(f) == EncodeFloat64(g) <==> FloatCode(f) == FloatCode(g)
  {
    CompareU64(FloatCode(f), FloatCode(g));
    CodeOrderIff(f, g);
  }

  /** Sort keys order values of one type as `Compare` does, NULL first; for doubles exactly when neither NaN
      nor negative zero gets in the way. */
  lemma {:induction false} SortKeyOrderIff(a: Value, b: Value)
    requires TypeOf(a) == TypeOf(b)
    ensures Compare(SortKey(a), SortKey(b)) == CompareValues(a, b) <==>
            (a.FloatV? && b.FloatV? ==> FloatsInOrder(a.f, b.f))
  {
    if !a.Null? && !b.Null? {
      CompareTagged(KeyBody(a), KeyBody(b));
      match a
      case IntV(i) => IntKeyOrder(i, b.i);
      case FloatV(f) => FloatKeyOrder(f, b.f);
      case TextV(s) =>
      case BoolV(x) => ByteOrder(if x then 1 else 0, if b.b then 1 else 0);
    } else if a.Null? && !b.Null? {
      assert Less(SortKey(a), SortKey(b));
    } else if !a.Null? {
      assert !Less(SortKey(a), SortKey(b));
    }
  }

  /** Two values that compare as equal but have different index keys. */
  predicate Confusable(a: Value, b: Value) {
    a.FloatV? && b.FloatV? && if IsNaN(a.f) || IsNaN(b.f) then !CodesMeet(a.f, b.f)
    else a.f != b.f && Rank(a.f) == Rank(b.f)
  }

  lemma {:induction false} EqualFloatKeysIff(f: bits64, g: bits64)
    ensures EncodeFloat64(f) == EncodeFloat64(g) <==> CompareFloat(f, g) == 0 && !Confusable(FloatV(f), FloatV(g))
    ensures Confusable(FloatV(f), FloatV(g)) ==> CompareFloat(f, g) == 0
  {
    FloatKeyOrder(f, g);
    EqualCodesIff(f, g);
  }

  lemma {:induction false} EqualCodesIff(f: bits64, g: bits64)
    ensures FloatCode(f) == FloatCode(g) <==> CompareFloat(f, g) == 0 && !Confusable(FloatV(f), FloatV(g))
    ensures Confusable(FloatV(f), FloatV(g)) ==> CompareFloat(f, g) == 0
  {
  }

  /** Equal in comparison is equal in the index except for confusable doubles. */
  lemma {:induction false} EqualKeysIff(a: Value, b: Value)
    requires TypeOf(a) == TypeOf(b)
    ensures SortKey(a) == SortKey(b) <==> CompareValues(a, b) == 0 && !Confusable(a, b)
    ensures Confusable(a, b) ==> CompareValues(a, b) == 0
  {
    if a.Null? != b.Null? {
      assert SortKey(a)[0] != SortKey(b)[0];
    } else if !a.Null? {
      EqualConcat([1], [1], KeyBody(a), KeyBody(b));
      EqualBodiesIff(a, b);
    }
  }

  lemma {:induction false} EqualBodiesIff(a: Value, b: Value)
    requires TypeOf(a) == TypeOf(b) && !a.Null? && !b.Null?
    ensures KeyBody(a) == KeyBody(b) <==> CompareValues(a, b) == 0 && !Confusable(a, b)
    ensures Confusable(a, b) ==> CompareValues(a, b) == 0
  {
    match a
    case IntV(i) => IntKeyOrder(i, b.i);
    case FloatV(f) => EqualFloatKeysIff(f, b.f);
    case TextV(s) =>
    case BoolV(x) => assert KeyBody(a)[0] == KeyBody(b)[0] <==> KeyBody(a) == KeyBody(b);
  }

  predicate FixedWidth(t: Type) { t != Text }

  /** For the fixed-width types one sort key is a prefix of another key with a row id only if it is that
      value's own sort key. */
  lemma {:induction false} FixedWidthPrefix(a: Value, b: Value, rest: Bytes)
    requires TypeOf(a) == TypeOf(b) && FixedWidth(TypeOf(a)) && |rest| == 8
    ensures SortKey(a) <= SortKey(b) + rest <==> SortKey(a) == SortKey(b)
  {
    var k := SortKey(b) + rest;
    assert k[0] == SortKey(b)[0];
    if a.Null? == b.Null? {
      assert |SortKey(a)| == |SortKey(b)|;
      assert k[..|SortKey(a)|] == SortKey(b);
    }
  }
}
