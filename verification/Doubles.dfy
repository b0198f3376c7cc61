/** What number a double stands for, and the double an integer is converted to. */
module Doubles {
  import opened Values

  /** The exponent of the smallest positive double is -1074. */
  const UNIT: nat := 1074

  predicate Finite(f: bits64) { Magnitude(f) < INFINITY }

  /** The number of smallest positive doubles that a magnitude amounts to (section 3.4 of IEEE 754-2008): below 2^52 it
      is subnormal, above the exponent field scales a significand with a leading one. */
  function UnitsUp(m: nat): nat {
    var e, t := m / TWO52, m % TWO52;
    if e == 0 then t else (TWO52 + t) * Pow2(e - 1)
  }

  /** The value of a finite double, times 2^1074. */
  function Units(f: bits64): int { Signed(f < TWO63, UnitsUp(Magnitude(f))) }

  function Signed(positive: bool, n: int): int { if positive then n else -n }

  /** The same for an integer. */
  function IntUnits(i: int): int { i * Pow2(UNIT) }

  function Distance(a: int, b: int): nat { AbsInt(a - b) }

  // ---- Doubles in order ----------------------------------------------------

  lemma {:induction false} UnitsNext(m: nat)
    ensures UnitsUp(m) < UnitsUp(m + 1)
  {
    var e, t := m / TWO52, m % TWO52;
    if t + 1 < TWO52 {
      assert (m + 1) / TWO52 == e && (m + 1) % TWO52 == t + 1;
      if e > 0 {
        Larger(TWO52 + t, Pow2(e - 1));
      }
    } else {
      assert (m + 1) / TWO52 == e + 1 && (m + 1) % TWO52 == 0;
      Larger(TWO52 + t, if e == 0 then 1 else Pow2(e - 1));
    }
  }

  lemma {:induction false} Larger(a: nat, p: nat)
    requires p > 0
    ensures a * p < (a + 1) * p
    ensures (a + 1) * p == a * p + p
  {
  }

  lemma {:induction false} UnitsRise(m: nat, n: nat)
    requires m < n
    ensures UnitsUp(m) < UnitsUp(n)
    decreases n
  {
    UnitsNext(n - 1);
    if m < n - 1 {
      UnitsRise(m, n - 1);
    }
  }

  /** Doubles that are not NaN are ordered by the numbers they stand for, infinity past the finite ones. */
  lemma {:induction false} RankIsUnits(f: bits64, g: bits64)
    ensures Rank(f) < Rank(g) <==> Units(f) < Units(g)
    ensures Rank(f) == Rank(g) <==> Units(f) == Units(g)
  {
    var m, n := Magnitude(f), Magnitude(g);
    assert Rank(f) == Signed(f < TWO63, m) && Rank(g) == Signed(g < TWO63, n);
    SignsCompare(f < TWO63, m, UnitsUp(m), g < TWO63, n, UnitsUp(n), UnitsUp(0));
  }

  /** Infinity is above every other number and NaN is not a number. */
  lemma {:induction false} InfinityAbove(f: bits64)
    ensures FloatLess(f, INFINITY) <==> Finite(f) || f == TWO63 + INFINITY
    ensures IsNaN(f) <==> !Finite(f) && f != INFINITY && f != TWO63 + INFINITY
  {
    if f >= TWO63 {
      assert Magnitude(f) == f - TWO63;
    }
  }

  lemma {:induction false} SignsCompare(up: bool, m: nat, a: nat, up': bool, n: nat, b: nat, zero: nat)
    requires a == UnitsUp(m) && b == UnitsUp(n) && zero == UnitsUp(0)
    ensures Signed(up, m) < Signed(up', n) <==> Signed(up, a) < Signed(up', b)
    ensures Signed(up, m) == Signed(up', n) <==> Signed(up, a) == Signed(up', b)
  {
    MagnitudesCompare(m, n);
    MagnitudesCompare(m, 0);
    MagnitudesCompare(n, 0);
    assert zero == 0;
  }

  lemma {:induction false} MagnitudesCompare(m: nat, n: nat)
    ensures UnitsUp(m) < UnitsUp(n) <==> m < n
    ensures UnitsUp(m) == UnitsUp(n) <==> m == n
  {
    if m < n {
      UnitsRise(m, n);
    } else if n < m {
      UnitsRise(n, m);
    }
  }

  // ---- The conversion ------------------------------------------------------

  /** A magnitude whose significand q lies between 2^52 and 2^53, both included. */
  lemma {:induction false} UnitsOf(e: nat, q: nat)
    requires TWO52 <= q <= 2 * TWO52
    ensures UnitsUp((e + 1022) * TWO52 + q) == q * Pow2(e + 1022)
  {
    var m := (e + 1022) * TWO52 + q;
    if q < 2 * TWO52 {
      assert m == (e + 1023) * TWO52 + (q - TWO52);
      Digits(m, e + 1023, q - TWO52);
    } else {
      Digits(m, e + 1024, 0);
      assert Pow2(e + 1023) == 2 * Pow2(e + 1022);
    }
  }

  lemma {:induction false} Digits(m: nat, e: nat, t: nat)
    requires m == e * TWO52 + t && t < TWO52
    ensures m / TWO52 == e && m % TWO52 == t
  {
  }

  /** Up to 2^53 the significand times its power of two is the integer. */
  lemma {:induction false} SmallExact(n: nat)
    requires n > 0 && Log2(n) <= 52
    ensures UnitsUp((Log2(n) + 1022) * TWO52 + Significand(n)) == IntUnits(n)
  {
    var e := Log2(n);
    SignificandBounds(n);
    UnitsOf(e, Significand(n));
    Pow2Sum(52 - e, e + 1022);
    assert 52 - e + (e + 1022) == UNIT;
    Associate(n, Pow2(52 - e), Pow2(e + 1022));
  }

  lemma {:induction false} Associate(a: int, b: int, c: int)
    ensures a * b * c == a * (b * c)
  {
  }

  /** Past that, n lies between two neighbours: the significand rounded down and that one plus one. */
  lemma {:induction false} Neighbours(n: nat, e: nat, q: nat, u: nat)
    requires n > 0 && e == Log2(n) > 52 && u == Pow2(e - 52) && q == n / u
    ensures TWO52 <= q < 2 * TWO52
    ensures UnitsUp((e + 1022) * TWO52 + q) == q * u * Pow2(UNIT)
    ensures UnitsUp((e + 1022) * TWO52 + q + 1) == (q + 1) * u * Pow2(UNIT)
  {
    Pow2At52();
    Pow2Sum(52, e - 52);
    Divide(n, u, TWO52);
    UnitsPast(e, q, u);
    UnitsPast(e, q + 1, u);
  }

  lemma {:induction false} UnitsPast(e: nat, q: nat, u: nat)
    requires e > 52 && u == Pow2(e - 52) && TWO52 <= q <= 2 * TWO52
    ensures UnitsUp((e + 1022) * TWO52 + q) == q * u * Pow2(UNIT)
  {
    UnitsOf(e, q);
    Pow2Sum(e - 52, UNIT);
    assert e - 52 + UNIT == e + 1022;
    Associate(q, u, Pow2(UNIT));
  }

  /** Between neighbours low and high, a past the one and b short of the other, against a double x not between them. */
  lemma {:induction false} Nearer(c: int, low: int, high: int, a: nat, b: nat, x: int)
    requires low + a == c == high - b && (x <= low || high <= x)
    ensures a <= b && (x == low || a < b) ==>
              Distance(low, c) <= Distance(x, c) && (Distance(low, c) == Distance(x, c) ==> x == low)
    ensures a <= b ==> Distance(low, c) <= Distance(x, c)
    ensures b <= a ==> Distance(high, c) <= Distance(x, c)
    ensures b < a && Distance(high, c) == Distance(x, c) ==> x == high
  {
  }

  /** The remainder r of u, against what is missing to u. */
  lemma {:induction false} Halves(r: nat, u: nat, k: nat)
    requires r < u && k > 0
    ensures 2 * r > u ==> (u - r) * k < r * k
    ensures 2 * r < u ==> r * k < (u - r) * k
    ensures 2 * r == u ==> r * k == (u - r) * k
  {
    if 2 * r > u {
      IntUnitsRise(u - r, r, k);
    } else if 2 * r < u {
      IntUnitsRise(r, u - r, k);
    }
  }

  lemma {:induction false} Scaled(n: int, q: nat, u: nat, r: nat, k: nat)
    requires n == q * u + r && r < u
    ensures q * u * k + r * k == n * k == (q + 1) * u * k - (u - r) * k
  {
    var p := q * u;
    assert (p + r) * k == p * k + r * k;
    assert (q + 1) * u == p + u;
    assert (p + u) * k == p * k + u * k;
    assert (u - r) * k == u * k - r * k;
  }

  /** The choice between the neighbours, by the remainder and then by the parity of q. */
  lemma {:induction false} ChoiceIsNearest(n: int, q: nat, u: nat, r: nat, k: nat, low: int, high: int, x: int)
    requires n == q * u + r && r < u && low == q * u * k && high == (q + 1) * u * k && k > 0 && (x <= low || high <= x)
    ensures var up := 2 * r > u || (2 * r == u && q % 2 == 1);
            var y, p := if up then high else low, if up then q + 1 else q;
            && Distance(y, n * k) <= Distance(x, n * k)
            && (Distance(y, n * k) == Distance(x, n * k) ==> x == y || p % 2 == 0)
  {
    Scaled(n, q, u, r, k);
    Halves(r, u, k);
    Choose(n * k, q, r, u, low, high, r * k, (u - r) * k, x);
  }

  lemma {:induction false} Choose(c: int, q: nat, r: nat, u: nat, low: int, high: int, a: nat, b: nat, x: int)
    requires low + a == c == high - b && (x <= low || high <= x)
    requires (2 * r > u ==> b < a) && (2 * r < u ==> a < b) && (2 * r == u ==> a == b)
    ensures var up := 2 * r > u || (2 * r == u && q % 2 == 1);
            var y, p := if up then high else low, if up then q + 1 else q;
            Distance(y, c) <= Distance(x, c) && (Distance(y, c) == Distance(x, c) ==> x == y || p % 2 == 0)
  {
    Nearer(c, low, high, a, b, x);
  }

  /** Every double lies outside the gap between neighbours. */
  lemma {:induction false} OutsideGap(m: nat, g: bits64)
    ensures Units(g) <= UnitsUp(m) || UnitsUp(m + 1) <= Units(g)
  {
    MagnitudesCompare(Magnitude(g), m);
    MagnitudesCompare(m + 1, Magnitude(g));
  }

  ghost predicate BestFor(m: nat, x: int, y: int) {
    && Distance(UnitsUp(m), x) <= Distance(y, x)
    && (Distance(UnitsUp(m), x) == Distance(y, x) ==> y == UnitsUp(m) || m % 2 == 0)
  }

  lemma {:induction false} RoundedIsNearest(n: nat, g: bits64)
    requires n > 0
    ensures BestFor(Rounded(n), IntUnits(n), Units(g))
  {
    if Log2(n) <= 52 {
      SmallExact(n);
    } else {
      var u := Pow2(Log2(n) - 52);
      LargeNearest(n, Log2(n), u, n / u, n % u, g);
    }
  }

  lemma {:induction false} LargeNearest(n: nat, e: nat, u: nat, q: nat, r: nat, g: bits64)
    requires n > 0 && e == Log2(n) > 52 && u == Pow2(e - 52) && q == n / u && r == n % u
    ensures BestFor(Rounded(n), IntUnits(n), Units(g))
  {
    Neighbours(n, e, q, u);
    NearestNeighbour(n, e, q, u, r, Pow2(UNIT), g);
    RoundedIs(n, e, u, q, r);
  }

  lemma {:induction false} RoundedIs(n: nat, e: nat, u: nat, q: nat, r: nat)
    requires n > 0 && e == Log2(n) > 52 && u == Pow2(e - 52) && q == n / u && r == n % u
    ensures Rounded(n) == (e + 1022) * TWO52 + if 2 * r > u || (2 * r == u && q % 2 == 1) then q + 1 else q
  {
  }

  lemma {:induction false} NearestNeighbour(n: nat, e: nat, q: nat, u: nat, r: nat, k: nat, g: bits64)
    requires u > 0 && q == n / u && r == n % u && k > 0
    requires UnitsUp((e + 1022) * TWO52 + q) == q * u * k && UnitsUp((e + 1022) * TWO52 + q + 1) == (q + 1) * u * k
    ensures var p := if 2 * r > u || (2 * r == u && q % 2 == 1) then q + 1 else q;
            BestFor((e + 1022) * TWO52 + p, n * k, Units(g))
  {
    var m := (e + 1022) * TWO52 + q;
    OutsideGap(m, g);
    assert n == q * u + r;
    ChoiceIsNearest(n, q, u, r, k, UnitsUp(m), UnitsUp(m + 1), Units(g));
    Parity(e, q);
  }

  lemma {:induction false} Parity(e: nat, q: nat)
    ensures ((e + 1022) * TWO52 + q) % 2 == q % 2
    ensures ((e + 1022) * TWO52 + q + 1) % 2 == (q + 1) % 2
  {
  }

  /** No double is nearer to the number x, and one as near is there only if f's significand is even. */
  ghost predicate NearestEven(f: bits64, x: int) {
    && Finite(f)
    && forall g: bits64 :: Finite(g) ==> NoNearer(f, g, x)
  }

  predicate NoNearer(f: bits64, g: bits64, x: int) {
    && Distance(Units(f), x) <= Distance(Units(g), x)
    && (Distance(Units(f), x) == Distance(Units(g), x) ==> Units(g) == Units(f) || f % 2 == 0)
  }

  lemma {:induction false} ToFloatParts(i: int64)
    requires i != 0
    ensures 0 < Rounded(AbsInt(i)) < INFINITY
    ensures WithSign(ToFloat(i), i > 0, Rounded(AbsInt(i)))
  {
    MagnitudeInRange(AbsInt(i));
  }

  predicate WithSign(f: bits64, positive: bool, m: nat) { m < TWO63 && f == if positive then m else TWO63 + m }

  lemma {:induction false} SignedUnits(f: bits64, positive: bool, m: nat)
    requires WithSign(f, positive, m)
    ensures Magnitude(f) == m && f % 2 == m % 2 && Units(f) == Signed(positive, UnitsUp(m))
    ensures Rank(f) == Signed(positive, m)
  {
  }

  /** The conversion rounds to the nearest double, ties to even. */
  lemma {:induction false} ToFloatNearest(i: int64)
    ensures NearestEven(ToFloat(i), IntUnits(i))
  {
    var f := ToFloat(i);
    if i == 0 {
      assert Units(f) == 0 == IntUnits(i);
    } else {
      ToFloatParts(i);
      SignedUnits(f, i > 0, Rounded(AbsInt(i)));
      forall g: bits64 | Finite(g) ensures NoNearer(f, g, IntUnits(i)) {
        NearestSigned(i, f, AbsInt(i), Rounded(AbsInt(i)), g);
      }
    }
  }

  lemma {:induction false} NearestSigned(i: int64, f: bits64, n: nat, m: nat, g: bits64)
    requires i != 0 && n == AbsInt(i) && m == Rounded(n) && WithSign(f, i > 0, m)
    ensures NoNearer(f, g, IntUnits(i))
  {
    SignedUnits(f, i > 0, m);
    if i > 0 {
      RoundedIsNearest(n, g);
    } else {
      var h := if g < TWO63 then g + TWO63 else g - TWO63;
      RoundedIsNearest(n, h);
      Opposite(g);
      NegatedProduct(n, Pow2(UNIT));
      Mirrored(f, g, m, UnitsUp(m), IntUnits(n), Units(h));
    }
  }

  lemma {:induction false} Mirrored(f: bits64, g: bits64, m: nat, y: int, x: int, z: int)
    requires f % 2 == m % 2 && Units(f) == -y && Units(g) == -z && y == UnitsUp(m) && BestFor(m, x, z)
    ensures NoNearer(f, g, -x)
  {
  }

  lemma {:induction false} NegatedProduct(a: int, b: int)
    ensures (-a) * b == -(a * b)
  {
  }

  lemma {:induction false} Opposite(g: bits64)
    ensures var h := if g < TWO63 then g + TWO63 else g - TWO63;
            Magnitude(h) == Magnitude(g) && Units(h) == -Units(g)
  {
    SignedUnits(g, g < TWO63, if g < TWO63 then g else g - TWO63);
    SignedUnits(if g < TWO63 then g + TWO63 else g - TWO63, g >= TWO63, if g < TWO63 then g else g - TWO63);
  }

  /** Up to 2^53 it is exact; past that exactly on the integers that are doubles. */
  lemma {:induction false} ToFloatExactIff(i: int64)
    ensures AbsInt(i) <= 2 * TWO52 ==> Units(ToFloat(i)) == IntUnits(i)
    ensures Units(ToFloat(i)) == IntUnits(i) <==> exists g: bits64 :: Finite(g) && Units(g) == IntUnits(i)
  {
    ToFloatNearest(i);
    if 0 < AbsInt(i) <= 2 * TWO52 {
      SmallIsDouble(i);
    }
  }

  lemma {:induction false} SmallIsDouble(i: int64)
    requires 0 < AbsInt(i) <= 2 * TWO52
    ensures Units(ToFloat(i)) == IntUnits(i)
  {
    var n := AbsInt(i);
    ToFloatParts(i);
    SignedUnits(ToFloat(i), i > 0, Rounded(n));
    if Log2(n) > 52 {
      TopExact(n, Log2(n), 53);
    } else {
      SmallExact(n);
    }
    NegatedProduct(n, Pow2(UNIT));
  }

  /** 2^53, the one integer up to there that takes 54 bits. */
  lemma {:induction false} TopExact(n: nat, e: nat, k: nat)
    requires 0 < n <= 2 * TWO52 && e == Log2(n) >= k == 53
    ensures UnitsUp(Rounded(n)) == IntUnits(n)
  {
    Pow2At52();
    assert Pow2(k) == 2 * TWO52;
    Pow2Monotone(k, e);
    LogBetween(n, e, k);
    TopSignificand(n, e, e - 52);
    Neighbours(n, e, TWO52, 2);
  }

  lemma {:induction false} TopSignificand(n: nat, e: nat, k: nat)
    requires n == 2 * TWO52 && e == Log2(n) == 53 && k == e - 52
    ensures Pow2(k) == 2 && Significand(n) == TWO52
  {
    assert Pow2(k - 1) == 1;
  }

  /** The sign is kept, and so is the order. */
  lemma {:induction false} ToFloatOrder(i: int64, j: int64)
    ensures !IsNaN(ToFloat(i)) && Sign(Rank(ToFloat(i))) == Sign(i)
    ensures i <= j ==> Rank(ToFloat(i)) <= Rank(ToFloat(j))
  {
    ToFloatSign(i);
    if i < j {
      ToFloatNearest(i);
      ToFloatNearest(j);
      IntUnitsRise(i, j, Pow2(UNIT));
      NearestOrder(ToFloat(i), ToFloat(j), IntUnits(i), IntUnits(j));
    }
  }

  lemma {:induction false} ToFloatSign(i: int64)
    ensures !IsNaN(ToFloat(i)) && Sign(Rank(ToFloat(i))) == Sign(i)
  {
    if i != 0 {
      ToFloatParts(i);
      SignedUnits(ToFloat(i), i > 0, Rounded(AbsInt(i)));
    }
  }

  lemma {:induction false} IntUnitsRise(i: int, j: int, k: int)
    requires i < j && k > 0
    ensures i * k < j * k
  {
    assert j * k - i * k == (j - i) * k;
  }

  lemma {:induction false} NearestOrder(f: bits64, g: bits64, x: int, y: int)
    requires NearestEven(f, x) && NearestEven(g, y) && x < y
    ensures Rank(f) <= Rank(g)
  {
    assert NoNearer(f, g, x) && NoNearer(g, f, y);
    RankIsUnits(g, f);
  }

  /** The conversion into a FLOAT column is not lossless: 2^53 and the next integer become one double. */
  lemma {:induction false} NeighboursMeet()
    ensures ToFloat(2 * TWO52) == ToFloat(2 * TWO52 + 1)
    ensures Units(ToFloat(2 * TWO52 + 1)) != IntUnits(2 * TWO52 + 1)
  {
    var n := 2 * TWO52;
    TopLog(n, Log2(n), 53);
    TopLog(n + 1, Log2(n + 1), 53);
    TopRounded(n, Log2(n), Log2(n) - 52);
    TopRounded(n + 1, Log2(n + 1), Log2(n + 1) - 52);
    ToFloatExactIff(n);
    IntUnitsRise(n, n + 1, Pow2(UNIT));
  }

  lemma {:induction false} TopLog(n: nat, e: nat, k: nat)
    requires 2 * TWO52 <= n <= 2 * TWO52 + 1 && e == Log2(n) && k == 53
    ensures e == k
  {
    Pow2At52();
    assert Pow2(k) == 2 * TWO52;
    LogBetween(n, e, k);
  }

  lemma {:induction false} LogBetween(n: nat, e: nat, k: nat)
    requires Pow2(k) <= n < 2 * Pow2(k) && Pow2(e) <= n < 2 * Pow2(e)
    ensures e == k
  {
    if e < k {
      Pow2Monotone(e + 1, k);
    } else if k < e {
      Pow2Monotone(k + 1, e);
    }
  }

  lemma {:induction false} TopRounded(n: nat, e: nat, k: nat)
    requires 2 * TWO52 <= n <= 2 * TWO52 + 1 && e == Log2(n) == 53 && k == e - 52
    ensures Rounded(n) == (e + 1022) * TWO52 + TWO52
  {
    assert Pow2(k - 1) == 1;
    RoundedIs(n, e, 2, TWO52, n - 2 * TWO52);
  }
}
