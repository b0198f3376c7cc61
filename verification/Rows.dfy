/** Rows as bytes: one null flag per column, then the values that are not NULL. */
module Rows {
  import opened Bytes
  import opened Entries
  import opened Values

  type Row = seq<Value>

  /** `uint64(i)`. */
  function Unsigned(i: int64): (n: nat)
    ensures n < TWO64
  {
    if i < 0 then i + TWO64 else i
  }

  /** `int64(n)`. */
  function Signed(n: nat): int64
    requires n < TWO64
  {
    if n >= TWO63 then n - TWO64 else n
  }

  function ValueBytes(v: Value): Bytes {
    match v
    case Null(_) => []
    case IntV(i) => U64Bytes(Unsigned(i))
    case FloatV(f) => U64Bytes(f)
    case TextV(s) => U32Bytes(|s|) + s
    case BoolV(b) => [if b then 1 else 0]
  }

  function Nulls(r: Row): (b: Bytes)
    ensures |b| == |r| && forall i :: 0 <= i < |r| ==> b[i] == if r[i].Null? then 1 else 0
  {
    seq(|r|, i requires 0 <= i < |r| => if r[i].Null? then 1 else 0)
  }

  function Fields(r: Row): Bytes
    decreases |r|
  {
    if |r| == 0 then [] else ValueBytes(r[0]) + Fields(r[1..])
  }

  function RowBytes(r: Row): Bytes { Nulls(r) + Fields(r) }

  method NullFlags(r: Row) returns (nulls: Bytes)
    ensures nulls == Nulls(r)
  {
    nulls := [];
    for i := 0 to |r|
      invariant |nulls| == i && forall j :: 0 <= j < i ==> nulls[j] == if r[j].Null? then 1 else 0
    {
      nulls := nulls + [if r[i].Null? then 1 else 0];
    }
  }

  method EncodeRow(r: Row) returns (buf: Bytes)
    ensures buf == RowBytes(r)
  {
    buf := NullFlags(r);
    assert r[0..] == r;
    for i := 0 to |r|
      invariant buf + Fields(r[i..]) == RowBytes(r)
    {
      FieldsFrom(buf, r, i);
      if !r[i].Null? {
        buf := buf + ValueBytes(r[i]);
      }
    }
    assert buf + [] == buf;
  }

  lemma {:induction false} FieldsFrom(buf: Bytes, r: Row, i: nat)
    requires i < |r|
    ensures buf + Fields(r[i..]) == buf + ValueBytes(r[i]) + Fields(r[i + 1..])
    ensures r[i].Null? ==> buf + ValueBytes(r[i]) == buf
  {
    assert r[i..][1..] == r[i + 1..];
    Assoc(buf, ValueBytes(r[i]), Fields(r[i + 1..]));
  }

  datatype Field = Field(val: Value, end: nat)

  /** One column's value at an offset; None when the data end too soon. */
  function ReadField(t: Type, data: Bytes, off: nat): (f: Option<Field>)
    ensures f.Some? ==> off <= f.value.end && TypeOf(f.value.val) == t
    ensures f.Some? && f.value.val.TextV? ==> |f.value.val.s| < TWO32
  {
    match t
    case Integer =>
      if off + 8 > |data| then None else
      U64Bounded(data, off);
      Some(Field(IntV(Signed(U64(data, off))), off + 8))
    case Float =>
      if off + 8 > |data| then None else
      U64Bounded(data, off);
      Some(Field(FloatV(U64(data, off)), off + 8))
    case Text =>
      if off + 4 > |data| then None else
      var n := U32(data, off);
      if off + 4 + n > |data| then None else Some(Field(TextV(data[off + 4..off + 4 + n]), off + 4 + n))
    case Boolean =>
      if off + 1 > |data| then None else Some(Field(BoolV(data[off] == 1), off + 1))
  }

  datatype Decoding = Decoding(row: Row, off: nat)

  /** The first n columns. */
  function ReadRow(data: Bytes, types: seq<Type>, n: nat): (d: Option<Decoding>)
    requires n <= |types| <= |data|
    ensures d.Some? ==> |d.value.row| == n
    decreases n
  {
    if n == 0 then Some(Decoding([], |types|)) else
    var d := ReadRow(data, types, n - 1);
    if d.None? then None
    else if data[n - 1] == 1 then Some(Decoding(d.value.row + [Null(types[n - 1])], d.value.off))
    else
      var f := ReadField(types[n - 1], data, d.value.off);
      if f.None? then None else Some(Decoding(d.value.row + [f.value.val], f.value.end))
  }

  lemma {:induction false} DecodedTexts(data: Bytes, types: seq<Type>, n: nat)
    requires n <= |types| <= |data| && ReadRow(data, types, n).Some?
    ensures forall i :: 0 <= i < n && ReadRow(data, types, n).value.row[i].TextV? ==>
                          |ReadRow(data, types, n).value.row[i].s| < TWO32
    decreases n
  {
    if n != 0 {
      DecodedTexts(data, types, n - 1);
    }
  }

  function RowOf(data: Bytes, types: seq<Type>): Option<Row> {
    if |data| < |types| then None else
    var d := ReadRow(data, types, |types|);
    if d.None? then None else Some(d.value.row)
  }

  method DecodeRow(data: Bytes, types: seq<Type>) returns (r: Option<Row>)
    ensures r == RowOf(data, types)
  {
    if |data| < |types| {
      return None;
    }
    var out: Row := [];
    var off: nat, i := |types|, 0;
    while i < |types|
      invariant 0 <= i <= |types| <= |data|
      invariant ReadRow(data, types, i) == Some(Decoding(out, off))
    {
      if data[i] == 1 {
        out := out + [Null(types[i])];
      } else {
        var f := ReadField(types[i], data, off);
        if f.None? {
          FailsOn(data, types, i + 1, |types|);
          return None;
        }
        out := out + [f.value.val];
        off := f.value.end;
      }
      i := i + 1;
    }
    return Some(out);
  }

  lemma {:induction false} FailsOn(data: Bytes, types: seq<Type>, m: nat, n: nat)
    requires m <= n <= |types| <= |data| && ReadRow(data, types, m).None?
    ensures ReadRow(data, types, n).None?
    decreases n
  {
    if m < n {
      FailsOn(data, types, m, n - 1);
    }
  }

  predicate Typed(r: Row, types: seq<Type>) {
    |r| == |types| && forall i :: 0 <= i < |r| ==> TypeOf(r[i]) == types[i]
  }

  /** At this offset the data hold b. */
  ghost predicate Holds(data: Bytes, off: nat, b: Bytes) { off + |b| <= |data| && data[off..off + |b|] == b }

  lemma {:induction false} HoldsFirst(data: Bytes, off: nat, b: Bytes, rest: Bytes)
    requires off <= |data| && data[off..] == b + rest
    ensures Holds(data, off, b) && data[off + |b|..] == rest
  {
    var t := data[off..];
    assert t[..|b|] == b && t[|b|..] == rest;
    assert data[off..off + |b|] == t[..|b|] && data[off + |b|..] == t[|b|..];
  }

  lemma {:induction false} HoldsBoth(data: Bytes, off: nat, a: Bytes, b: Bytes)
    requires Holds(data, off, a + b)
    ensures Holds(data, off, a) && Holds(data, off + |a|, b)
  {
    var t := data[off..off + |a + b|];
    assert t[..|a|] == a && t[|a|..] == b;
    assert data[off..off + |a|] == t[..|a|] && data[off + |a|..off + |a| + |b|] == t[|a|..];
  }

  lemma {:induction false} ReadsU64(data: Bytes, off: nat, x: nat)
    requires x < TWO64 && Holds(data, off, U64Bytes(x))
    ensures off + 8 <= |data| && U64(data, off) == x
  {
    U64Slice(data, off);
    U64RoundTrip(x);
  }

  lemma {:induction false} ReadsText(data: Bytes, off: nat, s: Bytes)
    requires |s| < TWO32 && Holds(data, off, U32Bytes(|s|) + s)
    ensures off + 4 + |s| <= |data| && U32(data, off) == |s| && data[off + 4..off + 4 + |s|] == s
  {
    HoldsBoth(data, off, U32Bytes(|s|), s);
    U32Slice(data, off);
  }

  lemma {:induction false} ReadsField(v: Value, data: Bytes, off: nat)
    requires !v.Null? && (v.TextV? ==> |v.s| < TWO32) && Holds(data, off, ValueBytes(v))
    ensures ReadField(TypeOf(v), data, off) == Some(Field(v, off + |ValueBytes(v)|))
  {
    match v
    case IntV(i) => ReadsU64(data, off, Unsigned(i));
    case FloatV(f) => ReadsU64(data, off, f);
    case TextV(s) => ReadsText(data, off, s);
    case BoolV(x) => assert data[off..off + 1][0] == data[off];
  }

  lemma {:induction false} ReadRowSnoc(data: Bytes, types: seq<Type>, m: nat, row: Row, off: nat, f: Field)
    requires m < |types| <= |data| && ReadRow(data, types, m) == Some(Decoding(row, off))
    requires if data[m] == 1 then f == Field(Null(types[m]), off) else ReadField(types[m], data, off) == Some(f)
    ensures ReadRow(data, types, m + 1) == Some(Decoding(row + [f.val], f.end))
  {
  }

  lemma {:induction false} ReadsColumn(v: Value, types: seq<Type>, data: Bytes, m: nat, row: Row, off: nat)
    requires m < |types| <= |data| && TypeOf(v) == types[m] && (v.TextV? ==> |v.s| < TWO32)
    requires data[m] == (if v.Null? then 1 else 0) && Holds(data, off, ValueBytes(v))
    requires ReadRow(data, types, m) == Some(Decoding(row, off))
    ensures ReadRow(data, types, m + 1) == Some(Decoding(row + [v], off + |ValueBytes(v)|))
  {
    if !v.Null? {
      ReadsField(v, data, off);
    }
    ReadRowSnoc(data, types, m, row, off, Field(v, off + |ValueBytes(v)|));
  }

  /** The data are the row's null flags and then its fields. */
  ghost predicate Laid(r: Row, data: Bytes) {
    |r| <= |data| && data[|r|..] == Fields(r) && forall i :: 0 <= i < |r| ==> data[i] == if r[i].Null? then 1 else 0
  }

  lemma {:induction false} FieldsAt(r: Row, n: nat)
    requires n < |r|
    ensures Fields(r[n..]) == ValueBytes(r[n]) + Fields(r[n + 1..])
  {
    assert r[n..][1..] == r[n + 1..];
  }

  lemma {:induction false} PrefixSnoc<T>(s: seq<T>, n: nat)
    requires n < |s|
    ensures s[..n + 1] == s[..n] + [s[n]]
  {
  }

  /** The first n columns have been read, up to this offset, and this is what follows. */
  ghost predicate ReadTo(r: Row, types: seq<Type>, data: Bytes, n: nat, off: nat, rest: Bytes)
    requires n <= |r| == |types| <= |data|
  {
    ReadRow(data, types, n) == Some(Decoding(r[..n], off)) && off <= |data| && data[off..] == rest
  }

  lemma {:induction false} ReadsValue(v: Value, types: seq<Type>, data: Bytes, m: nat, row: Row, off: nat, rest: Bytes)
    returns (end: nat)
    requires m < |types| <= |data| && TypeOf(v) == types[m] && (v.TextV? ==> |v.s| < TWO32)
    requires data[m] == (if v.Null? then 1 else 0) && off <= |data| && data[off..] == ValueBytes(v) + rest
    requires ReadRow(data, types, m) == Some(Decoding(row, off))
    ensures ReadRow(data, types, m + 1) == Some(Decoding(row + [v], end))
    ensures end <= |data| && data[end..] == rest
  {
    HoldsFirst(data, off, ValueBytes(v), rest);
    ReadsColumn(v, types, data, m, row, off);
    end := off + |ValueBytes(v)|;
  }

  lemma {:induction false} ReadToStart(r: Row, types: seq<Type>, data: Bytes)
    requires Typed(r, types) && Laid(r, data)
    ensures ReadTo(r, types, data, 0, |r|, Fields(r[0..]))
  {
    assert r[0..] == r && r[..0] == [];
  }

  lemma {:induction false} ReadsColumns(r: Row, types: seq<Type>, data: Bytes, n: nat) returns (off: nat)
    requires Typed(r, types) && n <= |r| && Laid(r, data)
    requires forall i :: 0 <= i < |r| && r[i].TextV? ==> |r[i].s| < TWO32
    ensures ReadTo(r, types, data, n, off, Fields(r[n..]))
    decreases n
  {
    if n == 0 {
      ReadToStart(r, types, data);
      off := |r|;
    } else {
      var before := ReadsColumns(r, types, data, n - 1);
      assert data[n - 1] == (if r[n - 1].Null? then 1 else 0) && TypeOf(r[n - 1]) == types[n - 1];
      off := ReadsOneMore(r, types, data, n - 1, before);
    }
  }

  lemma {:induction false} ReadsOneMore(r: Row, types: seq<Type>, data: Bytes, n: nat, off: nat) returns (end: nat)
    requires n < |r| == |types| <= |data| && TypeOf(r[n]) == types[n] && (r[n].TextV? ==> |r[n].s| < TWO32)
    requires data[n] == (if r[n].Null? then 1 else 0) && ReadTo(r, types, data, n, off, Fields(r[n..]))
    ensures ReadTo(r, types, data, n + 1, end, Fields(r[n + 1..]))
  {
    FieldsAt(r, n);
    end := ReadsValue(r[n], types, data, n, r[..n], off, Fields(r[n + 1..]));
    PrefixSnoc(r, n);
  }

  /** A row reads back as itself exactly when every text fits its length field. */
  lemma {:induction false} RowRoundTripIff(r: Row, types: seq<Type>)
    requires Typed(r, types)
    ensures RowOf(RowBytes(r), types) == Some(r) <==> forall i :: 0 <= i < |r| && r[i].TextV? ==> |r[i].s| < TWO32
  {
    if forall i :: 0 <= i < |r| && r[i].TextV? ==> |r[i].s| < TWO32 {
      assert RowBytes(r)[|r|..] == Fields(r);
      var off := ReadsColumns(r, types, RowBytes(r), |r|);
      assert r[..|r|] == r;
    }
    if RowOf(RowBytes(r), types) == Some(r) {
      DecodedTexts(RowBytes(r), types, |r|);
    }
  }
}
