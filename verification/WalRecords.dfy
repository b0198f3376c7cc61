/** Log records and their bytes. A file that ends in a torn record reads as the
    records that are wholly in it. */
module WalRecords {
  import opened Bytes
  import opened Entries

  /** One logged mutation with its before-image. */
  datatype Op = Op(isPut: bool, target: Bytes, key: Bytes, val: Bytes, hadPrev: bool, prev: Bytes)

  datatype Record =
    | Begin(id: nat)
    | Mutation(id: nat, op: Op)
    | Commit(id: nat)
    | Rollback(id: nat)

  // ---- encodeOp and decodeOp -----------------------------------------------

  function Chunk16(b: Bytes): Bytes { U16Bytes(|b|) + b }
  function Chunk32(b: Bytes): Bytes { U32Bytes(|b|) + b }

  function EncodeOp(op: Op): Bytes {
    Chunk16(op.target) + (Chunk32(op.key) + (Chunk32(op.val) + ([if op.hadPrev then 1 else 0] + Chunk32(op.prev))))
  }

  datatype Chunk = Chunk(val: Bytes, rest: Bytes)

  function ReadChunk16(b: Bytes): Option<Chunk> {
    if |b| < 2 then None
    else
      var n := U16(b, 0);
      if |b| < 2 + n then None else Some(Chunk(b[2..2 + n], b[2 + n..]))
  }

  function ReadChunk32(b: Bytes): Option<Chunk> {
    if |b| < 4 then None
    else
      var n := U32(b, 0);
      if |b| < 4 + n then None else Some(Chunk(b[4..4 + n], b[4 + n..]))
  }

  /** `decodeOp`; the record type tells a put from a delete. */
  function DecodeOp(isPut: bool, b: Bytes): Option<Op> {
    var t := ReadChunk16(b);
    if t.None? then None else
    var k := ReadChunk32(t.value.rest);
    if k.None? then None else
    var v := ReadChunk32(k.value.rest);
    if v.None? || |v.value.rest| < 1 then None else
    var p := ReadChunk32(v.value.rest[1..]);
    if p.None? then None else
    Some(Op(isPut, t.value.val, k.value.val, v.value.val, v.value.rest[0] == 1, p.value.val))
  }

  /** The length fields can hold the lengths. */
  predicate Encodable(op: Op) {
    |op.target| < TWO16 && |op.key| < TWO32 && |op.val| < TWO32 && |op.prev| < TWO32
  }

  lemma {:induction false} ReadsChunk16(b: Bytes, rest: Bytes)
    requires |b| < TWO16
    ensures ReadChunk16(Chunk16(b) + rest) == Some(Chunk(b, rest))
  {
    var w := Chunk16(b) + rest;
    U16At(w, 0, U16Bytes(|b|), 0);
    assert w[2..2 + |b|] == b && w[2 + |b|..] == rest;
  }

  lemma {:induction false} ReadsChunk32(b: Bytes, rest: Bytes)
    requires |b| < TWO32
    ensures ReadChunk32(Chunk32(b) + rest) == Some(Chunk(b, rest))
  {
    var w := Chunk32(b) + rest;
    assert w[0..4] == U32Bytes(|b|);
    U32Slice(w, 0);
    assert w[4..4 + |b|] == b && w[4 + |b|..] == rest;
  }

  lemma {:induction false} DecodedIsEncodable(isPut: bool, b: Bytes)
    ensures DecodeOp(isPut, b).Some? ==> Encodable(DecodeOp(isPut, b).value)
  {
  }

  /** `decodeOp` inverts `encodeOp` exactly when every length fits its field. */
  lemma {:induction false} OpRoundTripIff(op: Op)
    ensures DecodeOp(op.isPut, EncodeOp(op)) == Some(op) <==> Encodable(op)
  {
    DecodedIsEncodable(op.isPut, EncodeOp(op));
    if Encodable(op) {
      var flag: Bytes := [if op.hadPrev then 1 else 0];
      var c3 := flag + Chunk32(op.prev);
      var c2 := Chunk32(op.val) + c3;
      var c1 := Chunk32(op.key) + c2;
      ReadsChunk16(op.target, c1);
      ReadsChunk32(op.key, c2);
      ReadsChunk32(op.val, c3);
      ReadsChunk32(op.prev, []);
      assert c3[1..] == Chunk32(op.prev) + [];
    }
  }

  // ---- framing -------------------------------------------------------------

  function TypeOf(r: Record): byte {
    match r
    case Begin(_) => 1
    case Mutation(_, op) => if op.isPut then 2 else 3
    case Commit(_) => 4
    case Rollback(_) => 5
  }

  function RecordBody(r: Record): Bytes {
    [TypeOf(r)] + U64Bytes(r.id) + (if r.Mutation? then EncodeOp(r.op) else [])
  }

  /** A checksum of 32 bits; which one does not matter here. */
  type Checksum = Bytes -> nat

  /** `writeRecord`: length, body, checksum. */
  function Frame(crc: Checksum, r: Record): Bytes {
    FrameBody(RecordBody(r), crc(RecordBody(r)))
  }

  function FrameBody(body: Bytes, sum: nat): (f: Bytes)
    ensures |f| == |body| + 8
  {
    U32Bytes(|body|) + body + U32Bytes(sum)
  }

  /** What `Replay` makes of a record body; None is skipped: an unknown type or an undecodable op. */
  function ParseBody(body: Bytes): Option<Record>
    requires |body| >= 9
  {
    var id, payload := U64(body, 1), body[9..];
    if body[0] == 1 then Some(Begin(id))
    else if body[0] == 2 || body[0] == 3 then
      (match DecodeOp(body[0] == 2, payload)
       case None => None
       case Some(op) => Some(Mutation(id, op)))
    else if body[0] == 4 then Some(Commit(id))
    else if body[0] == 5 then Some(Rollback(id))
    else None
  }

  datatype Reading = Stop | Got(size: nat, rec: Option<Record>)

  /** One round of the `Replay` scan. */
  function ReadFrame(crc: Checksum, b: Bytes): (r: Reading)
    ensures r.Got? ==> 0 < r.size <= |b|
  {
    if |b| < 4 then Stop
    else
      var n := U32(b, 0);
      if |b| < 4 + n + 4 then Stop
      else
        var body := b[4..4 + n];
        if crc(body) % TWO32 != U32(b, 4 + n) || n < 9 then Stop
        else Got(n + 8, ParseBody(body))
  }

  predicate Writable(r: Record) {
    r.id < TWO64 && (r.Mutation? ==> Encodable(r.op)) && |RecordBody(r)| < TWO32
  }

  lemma {:induction false} BodyParts(t: byte, id: nat, payload: Bytes)
    requires id < TWO64
    ensures var b := [t] + U64Bytes(id) + payload; |b| >= 9 && b[0] == t && U64(b, 1) == id && b[9..] == payload
  {
    var b := [t] + U64Bytes(id) + payload;
    assert b[1..9] == U64Bytes(id);
    U64Slice(b, 1);
    U64RoundTrip(id);
  }

  lemma {:induction false} BodyRoundTrip(r: Record)
    requires Writable(r)
    ensures |RecordBody(r)| >= 9 && ParseBody(RecordBody(r)) == Some(r)
  {
    if r.Mutation? {
      MutationRoundTrip(r.id, r.op);
    } else {
      BodyParts(TypeOf(r), r.id, []);
    }
  }

  lemma {:induction false} MutationRoundTrip(id: nat, op: Op)
    requires Writable(Mutation(id, op))
    ensures var b := RecordBody(Mutation(id, op)); |b| >= 9 && ParseBody(b) == Some(Mutation(id, op))
  {
    OpRoundTripIff(op);
    ParsesMutation(TypeOf(Mutation(id, op)), id, EncodeOp(op), op);
  }

  lemma {:induction false} ParsesMutation(t: byte, id: nat, payload: Bytes, op: Op)
    requires id < TWO64 && t == TypeOf(Mutation(id, op)) && DecodeOp(op.isPut, payload) == Some(op)
    ensures var b := [t] + U64Bytes(id) + payload; |b| >= 9 && ParseBody(b) == Some(Mutation(id, op))
  {
    BodyParts(t, id, payload);
  }

  lemma {:induction false} FrameParts(body: Bytes, sum: nat, rest: Bytes)
    requires |body| < TWO32
    ensures var w, n := FrameBody(body, sum) + rest, |body|;
            U32(w, 0) == n && w[4..4 + n] == body && U32(w, 4 + n) == sum % TWO32
  {
    var w, n := FrameBody(body, sum) + rest, |body|;
    assert w[0..4] == U32Bytes(n);
    U32Slice(w, 0);
    assert w[4 + n..4 + n + 4] == U32Bytes(sum);
    U32Slice(w, 4 + n);
  }

  lemma {:induction false} ReadsFrameBody(crc: Checksum, body: Bytes, rest: Bytes)
    requires 9 <= |body| < TWO32
    ensures ReadFrame(crc, FrameBody(body, crc(body)) + rest) == Got(|body| + 8, ParseBody(body))
  {
    FrameParts(body, crc(body), rest);
  }

  lemma {:induction false} TornLength(body: Bytes, sum: nat, n: nat)
    requires |body| < TWO32 && 4 <= n < |FrameBody(body, sum)|
    ensures U32(FrameBody(body, sum)[..n], 0) == |body|
  {
    var f := FrameBody(body, sum);
    assert f[..n][0..4] == U32Bytes(|body|);
    U32Slice(f[..n], 0);
  }

  /** A record that is cut short stops the scan. */
  lemma {:induction false} StopsAtTear(crc: Checksum, body: Bytes, n: nat)
    requires |body| < TWO32 && n < |FrameBody(body, crc(body))|
    ensures ReadFrame(crc, FrameBody(body, crc(body))[..n]) == Stop
  {
    if n >= 4 {
      TornLength(body, crc(body), n);
    }
  }

  // ---- files of frames -----------------------------------------------------

  /** The scan of a file, whatever reads one frame. */
  type Reader = Bytes -> Reading

  function FrameReader(crc: Checksum): Reader { b => ReadFrame(crc, b) }

  function Listed(r: Option<Record>): seq<Record> { if r.Some? then [r.value] else [] }

  function ScanWith(read: Reader, b: Bytes): seq<Record>
    decreases |b|
  {
    var r := read(b);
    if r.Stop? || !(0 < r.size <= |b|) then [] else Listed(r.rec) + ScanWith(read, b[r.size..])
  }

  /** The records `Replay` sees in a file. */
  function Scan(crc: Checksum, b: Bytes): seq<Record> { ScanWith(FrameReader(crc), b) }

  function Join(fs: seq<Bytes>): Bytes {
    if |fs| == 0 then [] else fs[0] + Join(fs[1..])
  }

  function Frames(crc: Checksum, rs: seq<Record>): (fs: seq<Bytes>)
    ensures |fs| == |rs| && forall i :: 0 <= i < |rs| ==> fs[i] == Frame(crc, rs[i])
  {
    seq(|rs|, i requires 0 <= i < |rs| => Frame(crc, rs[i]))
  }

  /** The file that a list of records is written as. */
  function FrameAll(crc: Checksum, rs: seq<Record>): Bytes { Join(Frames(crc, rs)) }

  /** The frame reads as the record, whatever follows it, and a part of it does not read at all. */
  ghost predicate Good(read: Reader, f: Bytes, r: Record) {
    && |f| > 0
    && (forall rest: Bytes :: read(f + rest) == Got(|f|, Some(r)))
    && (forall n :: 0 <= n < |f| ==> read(f[..n]) == Stop)
  }

  ghost predicate GoodAll(read: Reader, fs: seq<Bytes>, rs: seq<Record>) {
    |fs| == |rs| && forall i :: 0 <= i < |fs| ==> Good(read, fs[i], rs[i])
  }

  lemma {:induction false} FrameBodyGood(crc: Checksum, body: Bytes, r: Record)
    requires 9 <= |body| < TWO32 && ParseBody(body) == Some(r)
    ensures Good(FrameReader(crc), FrameBody(body, crc(body)), r)
  {
    var f, read := FrameBody(body, crc(body)), FrameReader(crc);
    forall rest: Bytes ensures read(f + rest) == Got(|f|, Some(r)) {
      ReadsFrameBody(crc, body, rest);
    }
    forall n | 0 <= n < |f| ensures read(f[..n]) == Stop {
      StopsAtTear(crc, body, n);
    }
  }

  /** A record as written is read back whole, and not at all when it is cut short. */
  lemma {:induction false} FrameGood(crc: Checksum, r: Record)
    requires Writable(r)
    ensures Good(FrameReader(crc), Frame(crc, r), r)
  {
    BodyRoundTrip(r);
    FrameBodyGood(crc, RecordBody(r), r);
  }

  lemma {:induction false} FramesGood(crc: Checksum, rs: seq<Record>)
    requires forall r :: r in rs ==> Writable(r)
    ensures GoodAll(FrameReader(crc), Frames(crc, rs), rs)
  {
    forall i | 0 <= i < |rs| ensures Good(FrameReader(crc), Frames(crc, rs)[i], rs[i]) {
      assert rs[i] in rs;
      FrameGood(crc, rs[i]);
    }
  }

  lemma {:induction false} ScanFirst(read: Reader, f: Bytes, r: Record, rest: Bytes)
    requires Good(read, f, r)
    ensures ScanWith(read, f + rest) == [r] + ScanWith(read, rest)
  {
    assert read(f + rest) == Got(|f|, Some(r));
    assert (f + rest)[|f|..] == rest;
  }

  lemma {:induction false} ScanTorn(read: Reader, f: Bytes, r: Record, n: nat)
    requires Good(read, f, r) && n < |f|
    ensures ScanWith(read, f[..n]) == []
  {
    assert read(f[..n]) == Stop;
  }

  /** Whole frames are read in order; then the scan goes on with what follows them. */
  lemma {:induction false} ScanJoin(read: Reader, fs: seq<Bytes>, rs: seq<Record>, tail: Bytes)
    requires GoodAll(read, fs, rs)
    ensures ScanWith(read, Join(fs) + tail) == rs + ScanWith(read, tail)
    decreases |fs|
  {
    if |fs| == 0 {
      assert Join(fs) + tail == tail;
    } else {
      var rest := Join(fs[1..]);
      assert Good(read, fs[0], rs[0]);
      ScanJoin(read, fs[1..], rs[1..], tail);
      Assoc(fs[0], rest, tail);
      ScanFirst(read, fs[0], rs[0], rest + tail);
      Assoc([rs[0]], rs[1..], ScanWith(read, tail));
      assert [rs[0]] + rs[1..] == rs;
    }
  }

  /** The number of frames wholly within the first n bytes. */
  function Whole(fs: seq<Bytes>, n: nat): (m: nat)
    ensures m <= |fs|
  {
    if |fs| == 0 || n < |fs[0]| then 0 else 1 + Whole(fs[1..], n - |fs[0]|)
  }

  /** Cutting a file cuts it into whole frames and part of one. */
  lemma {:induction false} CutFrames(fs: seq<Bytes>, n: nat)
    requires n <= |Join(fs)|
    ensures var m := Whole(fs, n); var done := Join(fs[..m]);
            && |done| <= n
            && (m == |fs| ==> Join(fs)[..n] == done)
            && (m < |fs| ==> n - |done| < |fs[m]| && Join(fs)[..n] == done + fs[m][..n - |done|])
    decreases |fs|
  {
    if |fs| != 0 {
      CutIn(fs[0], Join(fs[1..]), n);
      if n < |fs[0]| {
        assert fs[..0] == [];
      } else {
        var m := Whole(fs[1..], n - |fs[0]|);
        CutFrames(fs[1..], n - |fs[0]|);
        JoinPrefix(fs, m);
      }
    }
  }

  lemma {:induction false} JoinPrefix(fs: seq<Bytes>, m: nat)
    requires m < |fs|
    ensures Join(fs[..m + 1]) == fs[0] + Join(fs[1..][..m])
  {
    assert fs[..m + 1][1..] == fs[1..][..m];
  }

  lemma {:induction false} CutIn<T>(f: seq<T>, rest: seq<T>, n: nat)
    requires n <= |f + rest|
    ensures (f + rest)[..n] == if n < |f| then f[..n] else f + rest[..n - |f|]
  {
  }

  lemma {:induction false} GoodPrefix(read: Reader, fs: seq<Bytes>, rs: seq<Record>, m: nat)
    requires GoodAll(read, fs, rs) && m <= |fs|
    ensures GoodAll(read, fs[..m], rs[..m])
  {
    forall i | 0 <= i < m ensures Good(read, fs[..m][i], rs[..m][i]) {
      assert Good(read, fs[i], rs[i]);
    }
  }

  lemma {:induction false} TornFile(read: Reader, fs: seq<Bytes>, rs: seq<Record>, n: nat)
    requires GoodAll(read, fs, rs) && n <= |Join(fs)|
    ensures ScanWith(read, Join(fs)[..n]) == rs[..Whole(fs, n)]
  {
    var m := Whole(fs, n);
    var done := Join(fs[..m]);
    CutFrames(fs, n);
    GoodPrefix(read, fs, rs, m);
    if m == |fs| {
      ScanJoin(read, fs[..m], rs[..m], []);
      assert done + [] == done;
      NothingLeft(read);
    } else {
      ScanJoin(read, fs[..m], rs[..m], fs[m][..n - |done|]);
      ScanTorn(read, fs[m], rs[m], n - |done|);
    }
  }

  lemma {:induction false} NothingLeft(read: Reader)
    ensures ScanWith(read, []) == []
  {
  }

  /** Torn tail: any byte prefix of a log reads as exactly the records wholly inside it. */
  lemma {:induction false} TornTail(crc: Checksum, rs: seq<Record>, n: nat)
    requires forall r :: r in rs ==> Writable(r)
    requires n <= |FrameAll(crc, rs)|
    ensures Scan(crc, FrameAll(crc, rs)[..n]) == rs[..Whole(Frames(crc, rs), n)]
  {
    FramesGood(crc, rs);
    TornFile(FrameReader(crc), Frames(crc, rs), rs, n);
  }

  /** A process that stops while it appends a record leaves a file that reads as the log with or
      without that record. */
  lemma {:induction false} TornAppend(crc: Checksum, log: seq<Record>, r: Record, n: nat)
    requires Writable(r) && (forall x :: x in log ==> Writable(x)) && n <= |Frame(crc, r)|
    ensures Scan(crc, FrameAll(crc, log) + Frame(crc, r)[..n]) == if n == |Frame(crc, r)| then log + [r] else log
  {
    var read, f := FrameReader(crc), Frame(crc, r);
    FramesGood(crc, log);
    FrameGood(crc, r);
    ScanJoin(read, Frames(crc, log), log, f[..n]);
    if n < |f| {
      ScanTorn(read, f, r, n);
    } else {
      assert f[..n] == f + [];
      ScanFirst(read, f, r, []);
      NothingLeft(read);
    }
  }

  /** `Replay`'s scanning loop. */
  method ScanFile(crc: Checksum, file: Bytes) returns (rs: seq<Record>)
    ensures rs == Scan(crc, file)
  {
    rs := [];
    var rest := file;
    var r := ReadFrame(crc, rest);
    while r.Got?
      invariant r == ReadFrame(crc, rest)
      invariant Scan(crc, file) == rs + Scan(crc, rest)
      decreases |rest|
    {
      Assoc(rs, Listed(r.rec), Scan(crc, rest[r.size..]));
      rs := rs + Listed(r.rec);
      rest := rest[r.size..];
      r := ReadFrame(crc, rest);
    }
  }
}
