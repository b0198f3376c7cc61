/** What a log means, and what replaying it does to the trees. */
module Recovery {
  import opened Bytes
  import opened Entries
  import opened Pages
  import opened WalRecords

  /** A key of one tree; the target names the tree. */
  datatype Loc = Loc(target: Bytes, key: Bytes)

  /** The contents of all trees together. */
  type Data = map<Loc, Bytes>

  function At(d: Data, l: Loc): Option<Bytes> { if l in d then Some(d[l]) else None }

  /** One call of the recovery callback: a put, or a delete when there is no value. */
  datatype Write = Write(at: Loc, val: Option<Bytes>)

  /** The tree takes the write: a put is refused when its key or value is too large. */
  predicate Accepted(w: Write) {
    w.val.Some? ==> |w.at.key| <= MAX_KEY_VALUE && |w.val.value| <= MAX_KEY_VALUE
  }

  /** A tree put, or a tree delete that ignores a missing key. */
  function Apply(d: Data, w: Write): (r: Data)
    ensures forall l: Loc :: At(r, l) == if l == w.at then w.val else At(d, l)
  {
    match w.val
    case Some(v) => d[w.at := v]
    case None => d - {w.at}
  }

  lemma {:induction false} SameData(a: Data, b: Data)
    requires forall l: Loc :: At(a, l) == At(b, l)
    ensures a == b
  {
    forall l: Loc ensures l in a <==> l in b {
      assert At(a, l) == At(b, l);
    }
    forall l: Loc | l in a ensures a[l] == b[l] {
      assert At(a, l) == At(b, l);
    }
  }

  /** The writes of a list in order, up to the first one that is refused. */
  datatype Applied = Applied(data: Data, ok: bool)

  function ApplyAll(d: Data, ws: seq<Write>): Applied
    decreases |ws|
  {
    if |ws| == 0 then Applied(d, true)
    else if !Accepted(ws[0]) then Applied(d, false)
    else ApplyAll(Apply(d, ws[0]), ws[1..])
  }

  function LocOf(op: Op): Loc { Loc(op.target, op.key) }

  function Redo(op: Op): Write { Write(LocOf(op), if op.isPut then Some(op.val) else None) }

  function Before(op: Op): Option<Bytes> { if op.hadPrev then Some(op.prev) else None }

  function Undo(op: Op): Write { Write(LocOf(op), Before(op)) }

  function Redos(ops: seq<Op>): (r: seq<Write>)
    ensures |r| == |ops| && forall i :: 0 <= i < |ops| ==> r[i] == Redo(ops[i])
  {
    seq(|ops|, i requires 0 <= i < |ops| => Redo(ops[i]))
  }

  /** The most recent operation is undone first. */
  function Undos(ops: seq<Op>): (r: seq<Write>)
    ensures |r| == |ops| && forall i :: 0 <= i < |ops| ==> r[i] == Undo(ops[|ops| - 1 - i])
  {
    seq(|ops|, i requires 0 <= i < |ops| => Undo(ops[|ops| - 1 - i]))
  }

  // ---- The meaning of a log ------------------------------------------------

  predicate Oversize(op: Op) { !Accepted(Redo(op)) }

  /** What a logged operation did to the trees: an oversize put was refused. */
  function Effect(d: Data, op: Op): Data { if Oversize(op) then d else Apply(d, Redo(op)) }

  function Effects(d: Data, ops: seq<Op>): Data
    decreases |ops|
  {
    if |ops| == 0 then d else Effect(Effects(d, ops[..|ops| - 1]), ops[|ops| - 1])
  }

  /** The record carries the before-image it had to carry; only a present key is deleted. */
  predicate Imaged(d: Data, op: Op) { At(d, LocOf(op)) == Before(op) && (!op.isPut ==> op.hadPrev) }

  predicate ImagedRun(d: Data, ops: seq<Op>)
    decreases |ops|
  {
    |ops| != 0 ==> ImagedRun(d, ops[..|ops| - 1]) && Imaged(Effects(d, ops[..|ops| - 1]), ops[|ops| - 1])
  }

  /** A transaction that has begun, with its operations so far and the data it sees. */
  datatype Open = Open(id: nat, ops: seq<Op>, cur: Data)

  datatype LogState = LogState(committed: Data, open: Option<Open>, last: nat)

  function LogStep(s: LogState, r: Record): Option<LogState> {
    match r
    case Begin(id) =>
      if s.open.None? && id > s.last then Some(LogState(s.committed, Some(Open(id, [], s.committed)), id)) else None
    case Mutation(id, op) =>
      if s.open.Some? && s.open.value.id == id && Imaged(s.open.value.cur, op) then
        var o := s.open.value;
        Some(s.(open := Some(Open(id, o.ops + [op], Effect(o.cur, op)))))
      else None
    case Commit(id) =>
      if s.open.Some? && s.open.value.id == id then Some(LogState(s.open.value.cur, None, s.last)) else None
    case Rollback(id) =>
      if s.open.Some? && s.open.value.id == id then Some(s.(open := None)) else None
  }

  /** The state a serial log leads to from the data at the last checkpoint; None for a log that is
      not a serial sequence of transactions with fresh ids and right before-images. */
  function LogRun(base: Data, log: seq<Record>): Option<LogState>
    decreases |log|
  {
    if |log| == 0 then Some(LogState(base, None, 0)) else
    var s := LogRun(base, log[..|log| - 1]);
    if s.None? then None else LogStep(s.value, log[|log| - 1])
  }

  /** The operations, in log order, of the transactions in a set. */
  function OpsOf(log: seq<Record>, ids: set<nat>): seq<Op>
    decreases |log|
  {
    if |log| == 0 then [] else
    var r := log[|log| - 1];
    var pre := OpsOf(log[..|log| - 1], ids);
    if r.Mutation? && r.id in ids then pre + [r.op] else pre
  }

  function Committers(log: seq<Record>): set<nat> {
    set r <- log | r.Commit? :: r.id
  }

  function CommittedOps(log: seq<Record>): seq<Op> { OpsOf(log, Committers(log)) }

  lemma {:induction false} CommittersSnoc(log: seq<Record>, r: Record)
    ensures Committers(log + [r]) == if r.Commit? then Committers(log) + {r.id} else Committers(log)
  {
  }

  lemma {:induction false} OpsOfSnoc(log: seq<Record>, r: Record, ids: set<nat>)
    ensures OpsOf(log + [r], ids) == if r.Mutation? && r.id in ids then OpsOf(log, ids) + [r.op] else OpsOf(log, ids)
  {
    assert (log + [r])[..|log|] == log;
  }

  lemma {:induction false} LogRunSnoc(base: Data, log: seq<Record>, r: Record)
    ensures LogRun(base, log + [r]) ==
            if LogRun(base, log).None? then None else LogStep(LogRun(base, log).value, r)
  {
    assert (log + [r])[..|log|] == log;
  }

  lemma {:induction false} EffectsSnoc(d: Data, ops: seq<Op>, op: Op)
    ensures Effects(d, ops + [op]) == Effect(Effects(d, ops), op)
  {
    assert (ops + [op])[..|ops|] == ops;
  }

  lemma {:induction false} EffectsConcat(d: Data, a: seq<Op>, b: seq<Op>)
    ensures Effects(d, a + b) == Effects(Effects(d, a), b)
    decreases |b|
  {
    if |b| == 0 {
      assert a + b == a;
    } else {
      var n := |b| - 1;
      EffectsConcat(d, a, b[..n]);
      assert a + b == (a + b[..n]) + [b[n]];
      EffectsSnoc(d, a + b[..n], b[n]);
    }
  }

  lemma {:induction false} ImagedRunSnoc(d: Data, ops: seq<Op>, op: Op)
    requires ImagedRun(d, ops) && Imaged(Effects(d, ops), op)
    ensures ImagedRun(d, ops + [op])
  {
    assert (ops + [op])[..|ops|] == ops;
  }

  /** Everything a serial log's state is: the open transaction's operations are a tail of their own,
      its view is the committed data with them applied, and its id is new. */
  ghost predicate Told(base: Data, log: seq<Record>, s: LogState) {
    && (forall r :: r in log ==> r.id <= s.last)
    && Effects(base, CommittedOps(log)) == s.committed
    && (s.open.Some? ==>
          var o := s.open.value;
          && o.id == s.last && o.id !in Committers(log)
          && ImagedRun(s.committed, o.ops)
          && o.cur == Effects(s.committed, o.ops)
          && OpsOf(log, Committers(log) + {o.id}) == CommittedOps(log) + o.ops)
  }

  lemma {:induction false} UnseenOps(log: seq<Record>, ids: set<nat>, id: nat)
    requires forall r :: r in log ==> r.id != id
    ensures OpsOf(log, ids + {id}) == OpsOf(log, ids)
    decreases |log|
  {
    if |log| != 0 {
      var n := |log| - 1;
      assert log[n] in log;
      UnseenOps(log[..n], ids, id);
    }
  }

  /** The committed data of a serial log is the effect of exactly the operations of the transactions
      that have a commit record, in log order, whatever else the log holds. */
  lemma {:induction false} LogTells(base: Data, log: seq<Record>)
    requires LogRun(base, log).Some?
    ensures Told(base, log, LogRun(base, log).value)
    decreases |log|
  {
    if |log| != 0 {
      var n := |log| - 1;
      var pre, r := log[..n], log[n];
      assert log == pre + [r];
      LogTells(base, pre);
      ToldStep(base, pre, r, LogRun(base, pre).value);
    }
  }

  lemma {:induction false} ToldStep(base: Data, log: seq<Record>, r: Record, s: LogState)
    requires Told(base, log, s) && LogStep(s, r).Some?
    ensures Told(base, log + [r], LogStep(s, r).value)
  {
    match r
    case Begin(id) => ToldBegin(base, log, id, s);
    case Mutation(id, op) => ToldMutation(base, log, op, s);
    case Commit(id) => ToldCommit(base, log, s);
    case Rollback(id) =>
      CommittersSnoc(log, r);
      OpsOfSnoc(log, r, Committers(log));
  }

  lemma {:induction false} ToldBegin(base: Data, log: seq<Record>, id: nat, s: LogState)
    requires Told(base, log, s) && s.open.None? && id > s.last
    ensures Told(base, log + [Begin(id)], LogState(s.committed, Some(Open(id, [], s.committed)), id))
  {
    var r, ids := Begin(id), Committers(log);
    CommittersSnoc(log, r);
    OpsOfSnoc(log, r, ids);
    OpsOfSnoc(log, r, ids + {id});
    UnseenOps(log, ids, id);
  }

  lemma {:induction false} ToldMutation(base: Data, log: seq<Record>, op: Op, s: LogState)
    requires Told(base, log, s) && s.open.Some? && Imaged(s.open.value.cur, op)
    ensures var o := s.open.value;
            Told(base, log + [Mutation(o.id, op)], s.(open := Some(Open(o.id, o.ops + [op], Effect(o.cur, op)))))
  {
    var o, ids := s.open.value, Committers(log);
    var r := Mutation(o.id, op);
    CommittersSnoc(log, r);
    OpsOfSnoc(log, r, ids);
    OpsOfSnoc(log, r, ids + {o.id});
    EffectsSnoc(s.committed, o.ops, op);
    ImagedRunSnoc(s.committed, o.ops, op);
    Assoc(CommittedOps(log), o.ops, [op]);
  }

  lemma {:induction false} ToldCommit(base: Data, log: seq<Record>, s: LogState)
    requires Told(base, log, s) && s.open.Some?
    ensures Told(base, log + [Commit(s.open.value.id)], LogState(s.open.value.cur, None, s.last))
  {
    var o := s.open.value;
    var r := Commit(o.id);
    CommittersSnoc(log, r);
    OpsOfSnoc(log, r, Committers(log) + {o.id});
    EffectsConcat(base, CommittedOps(log), o.ops);
  }

  // ---- The scan of a log ---------------------------------------------------

  /** What the scan has collected: operations of unfinished transactions, and the redo writes. */
  datatype Scanned = Scanned(pending: map<nat, seq<Op>>, redone: seq<Write>)

  function OpsAt(m: map<nat, seq<Op>>, id: nat): seq<Op> { if id in m then m[id] else [] }

  function ScanStep(s: Scanned, r: Record): Scanned {
    match r
    case Begin(_) => s
    case Mutation(id, op) => s.(pending := s.pending[id := OpsAt(s.pending, id) + [op]])
    case Rollback(id) => s.(pending := s.pending - {id})
    case Commit(id) => Scanned(s.pending - {id}, s.redone + Redos(OpsAt(s.pending, id)))
  }

  function ScanLog(log: seq<Record>): Scanned
    decreases |log|
  {
    if |log| == 0 then Scanned(map[], []) else ScanStep(ScanLog(log[..|log| - 1]), log[|log| - 1])
  }

  function UndosOf(pending: map<nat, seq<Op>>, order: seq<nat>): seq<Write>
    decreases |order|
  {
    if |order| == 0 then []
    else UndosOf(pending, order[..|order| - 1]) + Undos(OpsAt(pending, order[|order| - 1]))
  }

  /** A list of a map's keys, each once. */
  ghost predicate Lists(order: seq<nat>, ids: set<nat>) { multiset(order) == multiset(ids) }

  lemma {:induction false} ListsKeys(order: seq<nat>, ids: set<nat>)
    requires Lists(order, ids)
    ensures |order| == |ids| && forall id :: id in order <==> id in ids
  {
    assert |multiset(order)| == |order| && |multiset(ids)| == |ids|;
    forall id ensures id in order <==> id in ids {
      assert id in multiset(order) <==> id in multiset(ids);
    }
  }

  function OpenOps(s: LogState): seq<Op> { if s.open.None? then [] else s.open.value.ops }

  /** The scan agrees with the log's state. */
  ghost predicate Collected(log: seq<Record>, s: LogState, c: Scanned) {
    && c.redone == Redos(CommittedOps(log))
    && c.pending == if OpenOps(s) == [] then map[] else map[s.open.value.id := OpenOps(s)]
  }

  /** On a serial log the scan is left with at most the one open transaction, and it has redone exactly
      the committed operations in order. */
  lemma {:induction false} SerialScan(base: Data, log: seq<Record>)
    requires LogRun(base, log).Some?
    ensures Collected(log, LogRun(base, log).value, ScanLog(log))
    decreases |log|
  {
    if |log| != 0 {
      var n := |log| - 1;
      var pre, r := log[..n], log[n];
      assert log == pre + [r];
      SerialScan(base, pre);
      LogTells(base, pre);
      CollectedStep(base, pre, r, LogRun(base, pre).value, ScanLog(pre));
    }
  }

  lemma {:induction false} CollectedStep(base: Data, log: seq<Record>, r: Record, s: LogState, c: Scanned)
    requires Told(base, log, s) && Collected(log, s, c) && LogStep(s, r).Some?
    ensures Collected(log + [r], LogStep(s, r).value, ScanStep(c, r))
  {
    CommittersSnoc(log, r);
    OpsOfSnoc(log, r, Committers(log + [r]));
    if !r.Begin? {
      PendingOpen(s, c.pending);
    }
    if r.Commit? {
      RedosConcat(CommittedOps(log), OpenOps(s));
    }
  }

  lemma {:induction false} PendingOpen(s: LogState, p: map<nat, seq<Op>>)
    requires s.open.Some?
    requires p == if OpenOps(s) == [] then map[] else map[s.open.value.id := OpenOps(s)]
    ensures OpsAt(p, s.open.value.id) == OpenOps(s)
    ensures p - {s.open.value.id} == map[]
    ensures forall ops :: p[s.open.value.id := ops] == map[s.open.value.id := ops]
  {
  }

  lemma {:induction false} RedosConcat(a: seq<Op>, b: seq<Op>)
    ensures Redos(a + b) == Redos(a) + Redos(b)
  {
  }

  /** The writes recovery makes from a serial log. */
  function RecoveryWrites(base: Data, log: seq<Record>): seq<Write>
    requires LogRun(base, log).Some?
  {
    Redos(CommittedOps(log)) + Undos(OpenOps(LogRun(base, log).value))
  }

  /** With at most one transaction pending, the order in which the map is walked cannot matter. */
  lemma {:induction false} UndoOrderIrrelevant(base: Data, log: seq<Record>, order: seq<nat>)
    requires LogRun(base, log).Some?
    requires Lists(order, ScanLog(log).pending.Keys)
    ensures ScanLog(log).redone + UndosOf(ScanLog(log).pending, order) == RecoveryWrites(base, log)
  {
    SerialScan(base, log);
    var s := LogRun(base, log).value;
    var p := ScanLog(log).pending;
    ListsKeys(order, p.Keys);
    if OpenOps(s) == [] {
      assert Undos([]) == [];
    } else {
      OneUndone(p, s.open.value.id, OpenOps(s), order);
    }
  }

  lemma {:induction false} OneUndone(p: map<nat, seq<Op>>, id: nat, ops: seq<Op>, order: seq<nat>)
    requires p == map[id := ops] && Lists(order, p.Keys)
    ensures UndosOf(p, order) == Undos(ops)
  {
    ListsKeys(order, p.Keys);
    assert p.Keys == {id};
    assert order == [id];
    assert order[..0] == [];
    assert UndosOf(p, order) == UndosOf(p, []) + Undos(p[id]);
  }

  // ---- Recovery ------------------------------------------------------------

  ghost predicate WellSized(d: Data) {
    forall l: Loc :: At(d, l).Some? ==> |l.key| <= MAX_KEY_VALUE && |At(d, l).value| <= MAX_KEY_VALUE
  }

  predicate Touches(ops: seq<Op>, l: Loc) { exists i :: 0 <= i < |ops| && LocOf(ops[i]) == l }

  /** What is known of the trees when recovery starts: away from the keys logged by committed and
      open transactions they hold the committed data. On those keys they may hold anything. */
  ghost predicate Recoverable(base: Data, log: seq<Record>, data: Data) {
    && WellSized(base)
    && LogRun(base, log).Some?
    && var s := LogRun(base, log).value;
       forall l: Loc :: !Touches(CommittedOps(log), l) && !Touches(OpenOps(s), l) ==> At(data, l) == At(s.committed, l)
  }

  lemma {:induction false} ApplyAllConcat(d: Data, a: seq<Write>, b: seq<Write>)
    ensures ApplyAll(d, a + b) == if ApplyAll(d, a).ok then ApplyAll(ApplyAll(d, a).data, b) else ApplyAll(d, a)
    decreases |a|
  {
    if |a| == 0 {
      assert a + b == b;
    } else {
      assert (a + b)[1..] == a[1..] + b;
      if Accepted(a[0]) {
        ApplyAllConcat(Apply(d, a[0]), a[1..], b);
      }
    }
  }

  lemma {:induction false} ApplyAllSnoc(d: Data, ws: seq<Write>, w: Write)
    requires ApplyAll(d, ws).ok
    ensures ApplyAll(d, ws + [w]) ==
            if Accepted(w) then Applied(Apply(ApplyAll(d, ws).data, w), true) else Applied(ApplyAll(d, ws).data, false)
  {
    ApplyAllConcat(d, ws, [w]);
  }

  /** Writes leave every other key alone, also when one of them is refused. */
  lemma {:induction false} ApplyAllFrame(d: Data, ws: seq<Write>, l: Loc)
    requires forall i :: 0 <= i < |ws| ==> ws[i].at != l
    ensures At(ApplyAll(d, ws).data, l) == At(d, l)
    decreases |ws|
  {
    if |ws| != 0 && Accepted(ws[0]) {
      ApplyAllFrame(Apply(d, ws[0]), ws[1..], l);
    }
  }

  lemma {:induction false} ApplyAllOk(d: Data, ws: seq<Write>)
    ensures ApplyAll(d, ws).ok <==> forall i :: 0 <= i < |ws| ==> Accepted(ws[i])
    decreases |ws|
  {
    if |ws| != 0 && Accepted(ws[0]) {
      ApplyAllOk(Apply(d, ws[0]), ws[1..]);
      var e := ws[1..];
      assert forall i :: 0 < i < |ws| ==> ws[i] == e[i - 1];
    }
  }

  /** Redoing operations gives a key they touch the value they gave it, whatever it held before. */
  lemma {:induction false} RedoConverges(d: Data, b: Data, ops: seq<Op>, l: Loc)
    requires forall i :: 0 <= i < |ops| ==> !Oversize(ops[i])
    ensures ApplyAll(d, Redos(ops)).ok
    ensures Touches(ops, l) || At(d, l) == At(b, l) ==> At(ApplyAll(d, Redos(ops)).data, l) == At(Effects(b, ops), l)
    decreases |ops|
  {
    if |ops| != 0 {
      var n := |ops| - 1;
      RedoConverges(d, b, ops[..n], l);
      assert Redos(ops) == Redos(ops[..n]) + [Redo(ops[n])];
      ApplyAllSnoc(d, Redos(ops[..n]), Redo(ops[n]));
      if Touches(ops, l) && LocOf(ops[n]) != l {
        var i :| 0 <= i < |ops| && LocOf(ops[i]) == l;
        assert ops[..n][i] == ops[i];
      }
    }
  }

  lemma {:induction false} EffectsFrame(d: Data, ops: seq<Op>, l: Loc)
    requires !Touches(ops, l)
    ensures At(Effects(d, ops), l) == At(d, l)
    decreases |ops|
  {
    if |ops| != 0 {
      var n := |ops| - 1;
      assert LocOf(ops[n]) != l;
      assert forall i :: 0 <= i < n ==> ops[..n][i] == ops[i];
      EffectsFrame(d, ops[..n], l);
    }
  }

  lemma {:induction false} EffectsWellSized(d: Data, ops: seq<Op>)
    requires WellSized(d)
    ensures WellSized(Effects(d, ops))
    decreases |ops|
  {
    if |ops| != 0 {
      EffectsWellSized(d, ops[..|ops| - 1]);
    }
  }

  /** Undoing an unfinished transaction gives every key it touched its value from before the
      transaction, whatever the key held, and never fails. */
  lemma {:induction false} UndoRestores(d: Data, c: Data, ops: seq<Op>, l: Loc)
    requires WellSized(c) && ImagedRun(c, ops)
    ensures ApplyAll(d, Undos(ops)).ok
    ensures At(ApplyAll(d, Undos(ops)).data, l) == if Touches(ops, l) then At(c, l) else At(d, l)
    decreases |ops|
  {
    if |ops| != 0 {
      var pre, op := ops[..|ops| - 1], ops[|ops| - 1];
      FirstUndo(c, ops, pre, op);
      UndoRestores(Apply(d, Undo(op)), c, pre, l);
      TouchesSnoc(ops, l);
      if !Touches(pre, l) {
        EffectsFrame(c, pre, l);
      }
    }
  }

  /** The last operation is undone first; its before-image is what its transaction saw. */
  lemma {:induction false} FirstUndo(c: Data, ops: seq<Op>, pre: seq<Op>, op: Op)
    requires WellSized(c) && ImagedRun(c, ops) && |ops| > 0 && pre == ops[..|ops| - 1] && op == ops[|ops| - 1]
    ensures Accepted(Undo(op)) && At(Effects(c, pre), LocOf(op)) == Undo(op).val
    ensures Undos(ops)[0] == Undo(op) && Undos(ops)[1..] == Undos(pre)
  {
    EffectsWellSized(c, pre);
    UndoIsImage(Effects(c, pre), op);
    UndosFirst(ops, pre, op);
  }

  lemma {:induction false} UndoIsImage(d: Data, op: Op)
    requires WellSized(d) && Imaged(d, op)
    ensures Accepted(Undo(op)) && At(d, LocOf(op)) == Undo(op).val
  {
    assert At(d, LocOf(op)).Some? ==> |At(d, LocOf(op)).value| <= MAX_KEY_VALUE;
  }

  lemma {:induction false} UndosFirst(ops: seq<Op>, pre: seq<Op>, op: Op)
    requires |ops| > 0 && pre == ops[..|ops| - 1] && op == ops[|ops| - 1]
    ensures Undos(ops)[0] == Undo(op) && Undos(ops)[1..] == Undos(pre)
  {
    var u, w := Undos(ops)[1..], Undos(pre);
    forall i | 0 <= i < |w| ensures u[i] == w[i] {
      assert u[i] == Undos(ops)[i + 1] == Undo(ops[|ops| - 2 - i]);
    }
  }

  lemma {:induction false} TouchesSnoc(ops: seq<Op>, l: Loc)
    requires |ops| > 0
    ensures Touches(ops, l) <==> Touches(ops[..|ops| - 1], l) || LocOf(ops[|ops| - 1]) == l
  {
    var pre := ops[..|ops| - 1];
    assert forall i :: 0 <= i < |pre| ==> pre[i] == ops[i];
  }

  ghost predicate NoOversizeCommit(log: seq<Record>) {
    forall i :: 0 <= i < |CommittedOps(log)| ==> !Oversize(CommittedOps(log)[i])
  }

  lemma {:induction false} RedoFrame(d: Data, ops: seq<Op>, l: Loc)
    requires !Touches(ops, l)
    ensures At(ApplyAll(d, Redos(ops)).data, l) == At(d, l)
  {
    forall i | 0 <= i < |ops| ensures Redos(ops)[i].at != l {
      assert LocOf(ops[i]) != l;
    }
    ApplyAllFrame(d, Redos(ops), l);
  }

  /** Recovery gives each key that a committed or open transaction logged its committed value, whatever the key held,
      and leaves every other key alone. */
  lemma {:induction false} RecoverAnyAt(base: Data, log: seq<Record>, data: Data, l: Loc)
    requires WellSized(base) && LogRun(base, log).Some? && NoOversizeCommit(log)
    ensures var r, s := ApplyAll(data, RecoveryWrites(base, log)), LogRun(base, log).value;
            && r.ok
            && At(r.data, l) == if Touches(CommittedOps(log), l) || Touches(OpenOps(s), l) then At(s.committed, l)
              else At(data, l)
  {
    LogTells(base, log);
    var s := LogRun(base, log).value;
    var w, o := CommittedOps(log), OpenOps(s);
    RedoConverges(data, base, w, l);
    if !Touches(w, l) {
      RedoFrame(data, w, l);
    }
    EffectsWellSized(base, w);
    UndoRestores(ApplyAll(data, Redos(w)).data, s.committed, o, l);
    ApplyAllConcat(data, Redos(w), Undos(o));
  }

  /** From arbitrary trees recovery is right exactly when they are recoverable: keys that only rolled-back transactions
      logged must have been restored before the crash. */
  lemma {:induction false} RecoveryRightIff(base: Data, log: seq<Record>, data: Data)
    requires WellSized(base) && LogRun(base, log).Some? && NoOversizeCommit(log)
    ensures ApplyAll(data, RecoveryWrites(base, log)).data == LogRun(base, log).value.committed <==>
            Recoverable(base, log, data)
  {
    var r, s := ApplyAll(data, RecoveryWrites(base, log)), LogRun(base, log).value;
    forall l: Loc
      ensures At(r.data, l) == if Touches(CommittedOps(log), l) || Touches(OpenOps(s), l) then At(s.committed, l)
              else At(data, l)
    {
      RecoverAnyAt(base, log, data, l);
    }
    if Recoverable(base, log, data) {
      SameData(r.data, s.committed);
    }
  }

  /** Recovery succeeds exactly when no committed operation is oversize, and then every tree holds the
      effect of exactly the committed transactions. */
  lemma {:induction false} RecoveryCorrectIff(base: Data, log: seq<Record>, data: Data)
    requires Recoverable(base, log, data)
    ensures var r := ApplyAll(data, RecoveryWrites(base, log));
            && (r.ok <==> NoOversizeCommit(log))
            && (r.ok ==> r.data == Effects(base, CommittedOps(log)))
  {
    var ws := RecoveryWrites(base, log);
    var r := ApplyAll(data, ws);
    ApplyAllOk(data, ws);
    if r.ok {
      forall i | 0 <= i < |CommittedOps(log)| ensures !Oversize(CommittedOps(log)[i]) {
        assert ws[i] == Redo(CommittedOps(log)[i]);
      }
    }
    if NoOversizeCommit(log) {
      LogTells(base, log);
      RecoverAnyAt(base, log, data, Loc([], []));
      RecoveryRightIff(base, log, data);
    }
  }

  /** A crash after any number of recovery writes, and a recovery that failed, leave the trees
      recoverable from the same log: recovery may be cut short and started again at will. */
  lemma {:induction false} RecoveryRestarts(base: Data, log: seq<Record>, data: Data, n: nat)
    requires Recoverable(base, log, data) && n <= |RecoveryWrites(base, log)|
    ensures Recoverable(base, log, ApplyAll(data, RecoveryWrites(base, log)[..n]).data)
  {
    var s := LogRun(base, log).value;
    var w, o := CommittedOps(log), OpenOps(s);
    var ws := RecoveryWrites(base, log);
    forall l: Loc | !Touches(w, l) && !Touches(o, l)
      ensures At(ApplyAll(data, ws[..n]).data, l) == At(s.committed, l)
    {
      forall i | 0 <= i < n ensures ws[..n][i].at != l {
        if i < |w| {
          assert LocOf(w[i]) != l;
        } else {
          assert LocOf(o[|o| - 1 - (i - |w|)]) != l;
        }
      }
      ApplyAllFrame(data, ws[..n], l);
    }
  }
}
