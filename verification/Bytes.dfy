/** Byte strings, their lexicographic order, and big-endian integers. */
module Bytes {

  type byte = b: nat | b < 256
  type Bytes = seq<byte>

  /** The strict order that `bytes.Compare` and `strings.Compare` decide. */
  predicate Less(a: Bytes, b: Bytes) {
    if |b| == 0 then false
    else if |a| == 0 then true
    else if a[0] != b[0] then a[0] < b[0]
    else Less(a[1..], b[1..])
  }

  predicate Leq(a: Bytes, b: Bytes) {
    a == b || Less(a, b)
  }

  /** `bytes.Compare`: the sign of the order between a and b. */
  function Compare(a: Bytes, b: Bytes): (c: int) {
    if a == b then 0 else if Less(a, b) then -1 else 1
  }

  lemma {:induction false} LessIrreflexive(a: Bytes)
    ensures !Less(a, a)
  {
    if |a| != 0 {
      LessIrreflexive(a[1..]);
    }
  }

  lemma {:induction false} LessTransitive(a: Bytes, b: Bytes, c: Bytes)
    requires Less(a, b) && Less(b, c)
    ensures Less(a, c)
  {
    if |a| != 0 && a[0] == b[0] == c[0] {
      LessTransitive(a[1..], b[1..], c[1..]);
    }
  }

  lemma {:induction false} LessTotal(a: Bytes, b: Bytes)
    ensures Less(a, b) || a == b || Less(b, a)
  {
    if |a| != 0 && |b| != 0 && a[0] == b[0] {
      LessTotal(a[1..], b[1..]);
      assert a == [a[0]] + a[1..] && b == [b[0]] + b[1..];
    }
  }

  lemma {:induction false} LessAsymmetric(a: Bytes, b: Bytes)
    requires Less(a, b)
    ensures !Less(b, a) && a != b
  {
    LessIrreflexive(a);
    if Less(b, a) {
      LessTransitive(a, b, a);
    }
  }

  lemma {:induction false} LeqLessTransitive(a: Bytes, b: Bytes, c: Bytes)
    requires Leq(a, b) && Less(b, c)
    ensures Less(a, c)
  {
    if a != b {
      LessTransitive(a, b, c);
    }
  }

  lemma {:induction false} LessLeqTransitive(a: Bytes, b: Bytes, c: Bytes)
    requires Less(a, b) && Leq(b, c)
    ensures Less(a, c)
  {
    if b != c {
      LessTransitive(a, b, c);
    }
  }

  lemma {:induction false} NotLess(a: Bytes, b: Bytes)
    ensures !Less(a, b) <==> Leq(b, a)
  {
    LessTotal(a, b);
    LessIrreflexive(a);
    if Less(b, a) {
      LessAsymmetric(b, a);
    }
  }

  // ---- big-endian integers -------------------------------------------------

  const TWO16: nat := 0x1_0000
  const TWO32: nat := 0x1_0000_0000
  const TWO64: nat := 0x1_0000_0000_0000_0000

  function U16(b: Bytes, at: nat): (x: nat)
    requires at + 2 <= |b|
    ensures x < TWO16
  {
    b[at] as nat * 256 + b[at + 1]
  }

  function U32(b: Bytes, at: nat): (x: nat)
    requires at + 4 <= |b|
    ensures x < TWO32
  {
    U16(b, at) * TWO16 + U16(b, at + 2)
  }

  /** The low 16 bits, as `PutUint16(uint16(x))` writes them. */
  function U16Bytes(x: nat): (b: Bytes)
    ensures |b| == 2
    ensures U16(b, 0) == x % TWO16
  {
    [(x / 256) % 256, x % 256]
  }

  function U32Bytes(x: nat): (b: Bytes)
    ensures |b| == 4
    ensures U32(b, 0) == x % TWO32
  {
    U16Bytes(x / TWO16) + U16Bytes(x)
  }

  /** Reading an integer depends only on its own bytes. */
  lemma {:induction false} U16At(a: Bytes, i: nat, b: Bytes, j: nat)
    requires i + 2 <= |a| && j + 2 <= |b| && a[i] == b[j] && a[i + 1] == b[j + 1]
    ensures U16(a, i) == U16(b, j)
  {
  }

  lemma {:induction false} U32Slice(a: Bytes, i: nat)
    requires i + 4 <= |a|
    ensures U32(a[i..i + 4], 0) == U32(a, i)
  {
  }

  function U64Bytes(x: nat): (b: Bytes)
    ensures |b| == 8
  {
    U32Bytes(x / TWO32) + U32Bytes(x)
  }

  function U64(b: Bytes, at: nat): nat
    requires at + 8 <= |b|
  {
    U32(b, at) * TWO32 + U32(b, at + 4)
  }

  lemma {:induction false} U64RoundTrip(x: nat)
    requires x < TWO64
    ensures U64(U64Bytes(x), 0) == x
  {
    var b := U64Bytes(x);
    assert b[0..4] == U32Bytes(x / TWO32) && b[4..8] == U32Bytes(x);
    U32Slice(b, 0);
    U32Slice(b, 4);
  }

  lemma {:induction false} U64Slice(a: Bytes, i: nat)
    requires i + 8 <= |a|
    ensures U64(a[i..i + 8], 0) == U64(a, i)
  {
  }

  // ---- order of encodings --------------------------------------------------

  /** Of two strings with equally long heads, the heads decide unless they are equal. */
  lemma {:induction false} LessConcat(a: Bytes, b: Bytes, c: Bytes, d: Bytes)
    requires |a| == |b|
    ensures Less(a + c, b + d) <==> Less(a, b) || (a == b && Less(c, d))
    decreases |a|
  {
    if |a| == 0 {
      assert a + c == c && b + d == d;
    } else {
      assert (a + c)[1..] == a[1..] + c && (b + d)[1..] == b[1..] + d;
      LessConcat(a[1..], b[1..], c, d);
      assert a == [a[0]] + a[1..] && b == [b[0]] + b[1..];
    }
  }

  lemma {:induction false} ByteOrder(x: byte, y: byte)
    ensures Less([x], [y]) <==> x < y
  {
    assert [x][1..] == [] && [y][1..] == [];
  }

  lemma {:induction false} U16Order(x: nat, y: nat)
    requires x < TWO16 && y < TWO16
    ensures Less(U16Bytes(x), U16Bytes(y)) <==> x < y
    ensures U16Bytes(x) == U16Bytes(y) <==> x == y
  {
    var a, b := U16Bytes(x), U16Bytes(y);
    assert U16(a, 0) == x && U16(b, 0) == y;
    ByteOrder(x % 256, y % 256);
    assert a[1..] == [x % 256] && b[1..] == [y % 256];
    assert x == a[0] as nat * 256 + a[1] && y == b[0] as nat * 256 + b[1];
  }

  lemma {:induction false} U32Order(x: nat, y: nat)
    requires x < TWO32 && y < TWO32
    ensures Less(U32Bytes(x), U32Bytes(y)) <==> x < y
    ensures U32Bytes(x) == U32Bytes(y) <==> x == y
  {
    U16Low(x);
    U16Low(y);
    U16Order(x / TWO16, y / TWO16);
    U16Order(x % TWO16, y % TWO16);
    LessConcat(U16Bytes(x / TWO16), U16Bytes(y / TWO16), U16Bytes(x), U16Bytes(y));
    EqualConcat(U16Bytes(x / TWO16), U16Bytes(y / TWO16), U16Bytes(x), U16Bytes(y));
  }

  lemma {:induction false} U16Low(x: nat)
    ensures U16Bytes(x) == U16Bytes(x % TWO16)
  {
    var h, l := x / TWO16, x % TWO16;
    assert x == 256 * (256 * h) + l;
    assert x / 256 == 256 * h + l / 256 && x % 256 == l % 256;
    assert (256 * h + l / 256) % 256 == l / 256 % 256;
  }

  lemma {:induction false} U32Low(x: nat)
    ensures U32Bytes(x) == U32Bytes(x % TWO32)
  {
    U16Low(x / TWO16);
    U16Low(x % TWO32 / TWO16);
    U16Low(x);
    U16Low(x % TWO32);
    assert x == TWO32 * (x / TWO32) + x % TWO32;
    assert x / TWO16 == TWO16 * (x / TWO32) + x % TWO32 / TWO16;
  }

  lemma {:induction false} EqualConcat(a: Bytes, b: Bytes, c: Bytes, d: Bytes)
    requires |a| == |b|
    ensures a + c == b + d <==> a == b && c == d
  {
    if a + c == b + d {
      assert (a + c)[..|a|] == a && (b + d)[..|a|] == b;
      assert (a + c)[|a|..] == c && (b + d)[|a|..] == d;
    }
  }

  /** The big-endian encoding keeps the order of the numbers. */
  lemma {:induction false} U64Order(x: nat, y: nat)
    requires x < TWO64 && y < TWO64
    ensures Less(U64Bytes(x), U64Bytes(y)) <==> x < y
    ensures U64Bytes(x) == U64Bytes(y) <==> x == y
  {
    U32Low(x);
    U32Low(y);
    U32Order(x / TWO32, y / TWO32);
    U32Order(x % TWO32, y % TWO32);
    LessConcat(U32Bytes(x / TWO32), U32Bytes(y / TWO32), U32Bytes(x), U32Bytes(y));
    EqualConcat(U32Bytes(x / TWO32), U32Bytes(y / TWO32), U32Bytes(x), U32Bytes(y));
  }

  lemma {:induction false} Assoc<T>(a: seq<T>, b: seq<T>, c: seq<T>)
    ensures a + (b + c) == (a + b) + c
  {
  }

  lemma {:induction false} MulMonotone(k: nat, x: nat, y: nat)
    requires x <= y
    ensures k * x <= k * y
  {
  }

  lemma {:induction false} U64Bounded(b: Bytes, off: nat)
    requires off + 8 <= |b|
    ensures U64(b, off) < TWO64
  {
  }
}
