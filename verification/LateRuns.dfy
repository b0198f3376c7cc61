/** The machine as the source has it, with a checkpoint at any time. Beside the data a client takes for committed there
    is then the data a crash would leave it with; over every run, later transactions and further checkpoints included,
    recovery gives exactly the latter. */
module LateRuns {
  import opened Entries
  import opened WalRecords
  import opened Recovery
  import opened TxnMachine
  import opened TxnTheorems
  import opened LateCheckpoints

  predicate WritesTo(ws: seq<Write>, l: Loc) { exists i :: 0 <= i < |ws| && ws[i].at == l }

  /** Recovery from this log will write the key. */
  ghost predicate Covered(log: seq<Record>, l: Loc) {
    var c := ScanLog(log);
    WritesTo(c.redone, l) || exists id :: id in c.pending && Touches(c.pending[id], l)
  }

  /** A crash may leave anything under the keys that recovery will write. */
  ghost predicate LostFrom(s: Sys, left: Data) { forall l: Loc :: !Covered(s.log, l) ==> At(left, l) == At(s.data, l) }

  predicate Up(p: Phase) { !p.Down? && !p.Recovering? }

  ghost predicate LateEnabled(s: Sys, e: Event) {
    match e
    case TakeCheckpoint => Up(s.phase)
    case Crash(left) => LostFrom(s, left)
    case _ => Enabled(s, e)
  }

  ghost function LateNext(s: Sys, e: Event): Sys
    requires LateEnabled(s, e)
  {
    match e
    case TakeCheckpoint => s.(base := s.data, log := [])
    case Crash(left) => s.(data := left, phase := Down)
    case _ => Next(s, e)
  }

  /** What a client takes for committed, what it sees in its transaction, and what a crash would leave. */
  datatype Seen = Seen(abs: Abs, durable: Data)

  /** A write to the trees is durable at once where recovery does not undo or redo it. */
  ghost function Written(a: Seen, log: seq<Record>, w: Write): Seen {
    if Covered(log, w.at) then a else a.(durable := Apply(a.durable, w))
  }

  /** A checkpoint makes all that is in the trees durable, also what is not committed. */
  ghost function SeenNext(a: Seen, s: Sys, e: Event): Seen
    requires LateEnabled(s, e)
  {
    match e
    case TakeCheckpoint => a.(durable := s.data)
    case CommitTxn => Seen(AbsNext(a.abs, e), s.data)
    case FinishRollback => a.(durable := s.data)
    case ApplyLogged => if Oversize(s.phase.op) then a else Written(a, s.log, Redo(s.phase.op))
    case UndoOne => Written(a, s.log, s.phase.undo[|s.phase.undo| - 1])
    case Crash(_) => a.(abs := Abs(a.durable, None))
    case _ => a.(abs := AbsNext(a.abs, e))
  }

  // ---- The invariant -------------------------------------------------------

  /** Why the state can be recovered: its log reads like that of a state of the guarded machine, or it is in a
      transaction in which the last checkpoint fell and since then it has logged these operations. */
  datatype Why = AsIf(v: Sys) | Cut(ops: seq<Op>)

  predicate Alike(s: Sys, v: Sys) {
    v.phase == s.phase && v.data == s.data && v.nextId == s.nextId && ScanLog(v.log) == ScanLog(s.log)
  }

  ghost predicate ReadsAs(s: Sys, v: Sys) { Inv(v) && Alike(s, v) }

  ghost predicate Back(d: Data, undo: seq<Write>, c: Data) {
    Reverted(d, undo) == c && WellSized(c) && WellSized(d) && forall i :: 0 <= i < |undo| ==> Accepted(undo[i])
  }

  ghost predicate CutLog(s: Sys, id: nat, durable: Data, ops: seq<Op>) {
    0 < id <= s.nextId && s.log == Mutations(id, ops) && WellSized(durable) && ImagedRun(durable, ops)
  }

  /** The last logged operation has yet to be made, whether its record was logged before the checkpoint or after. */
  ghost predicate OpDue(d: Data, op: Op, durable: Data, ops: seq<Op>) {
    && Imaged(d, op)
    && if ops == [] then d == durable else ops[|ops| - 1] == op && d == Effects(durable, ops[..|ops| - 1])
  }

  ghost predicate CutOk(s: Sys, a: Seen, ops: seq<Op>) {
    match s.phase
    case Running(id, undo) =>
      CutLog(s, id, a.durable, ops) && Back(s.data, undo, a.abs.committed) && a.abs.view == Some(s.data)
      && s.data == Effects(a.durable, ops)
    case Logged(id, undo, op) =>
      CutLog(s, id, a.durable, ops) && Back(s.data, undo, a.abs.committed) && a.abs.view == Some(Effect(s.data, op))
      && OpDue(s.data, op, a.durable, ops)
    case Undoing(id, undo) =>
      CutLog(s, id, a.durable, ops) && Back(s.data, undo, a.abs.committed) && a.abs.view == None
      && AgreesOff(s.data, a.durable, ops)
    case _ => false
  }

  ghost predicate LateInv(s: Sys, a: Seen, why: Why) {
    match why
    case AsIf(v) => ReadsAs(s, v) && a == Seen(Abstract(v), Abstract(v).committed)
    case Cut(ops) => CutOk(s, a, ops)
  }

  // ---- Coverage ------------------------------------------------------------

  lemma {:induction false} CoveredAsIf(v: Sys, log: seq<Record>, l: Loc)
    requires LogRun(v.base, v.log).Some? && ScanLog(v.log) == ScanLog(log)
    ensures Covered(log, l) <==> Touches(CommittedOps(v.log), l) || Touches(OpenOps(LogRun(v.base, v.log).value), l)
  {
    SerialScan(v.base, v.log);
    var w, o := CommittedOps(v.log), OpenOps(LogRun(v.base, v.log).value);
    assert WritesTo(Redos(w), l) <==> Touches(w, l) by {
      if WritesTo(Redos(w), l) {
        var i :| 0 <= i < |w| && Redos(w)[i].at == l;
        assert LocOf(w[i]) == l;
      }
      if Touches(w, l) {
        var i :| 0 <= i < |w| && LocOf(w[i]) == l;
        assert Redos(w)[i].at == l;
      }
    }
    if Touches(o, l) {
      assert o != [];
      assert LogRun(v.base, v.log).value.open.value.id in ScanLog(log).pending;
    }
  }

  lemma {:induction false} CoveredCut(id: nat, ops: seq<Op>, l: Loc)
    ensures Covered(Mutations(id, ops), l) <==> Touches(ops, l)
  {
    ScanTail(id, ops);
    if Touches(ops, l) {
      assert id in ScanLog(Mutations(id, ops)).pending;
    }
  }

  // ---- Steps of a state that reads like a guarded one ----------------------

  lemma {:induction false} SameScan(a: seq<Record>, b: seq<Record>, r: Record)
    requires ScanLog(a) == ScanLog(b)
    ensures ScanLog(a + [r]) == ScanLog(b + [r])
  {
    assert (a + [r])[..|a|] == a && (b + [r])[..|b|] == b;
  }

  lemma {:induction false} AsIfStep(s: Sys, v: Sys, e: Event)
    requires ReadsAs(s, v) && Enabled(s, e) && !e.Crash? && !e.TakeCheckpoint?
    ensures Enabled(v, e) && ReadsAs(Next(s, e), Next(v, e)) && Abstract(Next(v, e)) == AbsNext(Abstract(v), e)
  {
    AlikeStep(s, v, e);
    StepRefines(v, e);
  }

  lemma {:induction false} AlikeStep(s: Sys, v: Sys, e: Event)
    requires Alike(s, v) && Enabled(s, e) && !e.Crash? && !e.TakeCheckpoint?
    ensures Enabled(v, e) && Alike(Next(s, e), Next(v, e))
  {
    match e
    case BeginTxn =>
      var n := s.nextId + 1;
      AlikeRecord(s.(nextId := n), v.(nextId := n), Begin(n), Running(n, []));
    case LogPut(l, x) => AlikeLog(s, v, OpFor(s.data, true, l, x));
    case LogDelete(l) => AlikeLog(s, v, OpFor(s.data, false, l, []));
    case CommitTxn => AlikeRecord(s, v, Commit(s.phase.id), Idle);
    case FinishRollback => AlikeRecord(s, v, Rollback(s.phase.id), Idle);
    case _ => AlikeRest(s, v, e);
  }

  lemma {:induction false} AlikeRecord(s: Sys, v: Sys, r: Record, p: Phase)
    requires Alike(s, v)
    ensures Alike(WriteRecord(s, r, p), WriteRecord(v, r, p))
  {
    SameScan(v.log, s.log, r);
  }

  lemma {:induction false} AlikeLog(s: Sys, v: Sys, op: Op)
    requires Alike(s, v) && s.phase.Running?
    ensures Alike(LogOp(s, op), LogOp(v, op))
  {
    AlikeRecord(s, v, Mutation(s.phase.id, op), Logged(s.phase.id, s.phase.undo, op));
  }

  lemma {:induction false} AlikeRest(s: Sys, v: Sys, e: Event)
    requires Alike(s, v) && Enabled(s, e)
    requires e.ApplyLogged? || e.StartRollback? || e.UndoOne? || e.StartRecovery? || e.RecoverOne? || e.FinishRecovery?
    ensures Enabled(v, e) && Alike(Next(s, e), Next(v, e))
  {
    match e
    case ApplyLogged => AlikeKept(s, v, Next(s, e), Next(v, e));
    case StartRollback => AlikeKept(s, v, Next(s, e), Next(v, e));
    case UndoOne => AlikeKept(s, v, Next(s, e), Next(v, e));
    case StartRecovery(_) => AlikeKept(s, v, Next(s, e), Next(v, e));
    case RecoverOne => AlikeKept(s, v, Next(s, e), Next(v, e));
    case FinishRecovery =>
  }

  lemma {:induction false} AlikeKept(s: Sys, v: Sys, s': Sys, v': Sys)
    requires Alike(s, v) && s'.log == s.log && v'.log == v.log
    requires s'.data == v'.data && s'.phase == v'.phase && s'.nextId == v'.nextId
    ensures Alike(s', v')
  {
  }

  /** In a guarded state the trees are written only under keys that recovery covers. */
  lemma {:induction false} AsIfCovers(s: Sys, v: Sys, l: Loc)
    requires ReadsAs(s, v)
    requires (s.phase.Logged? && l == LocOf(s.phase.op)) ||
             (s.phase.Undoing? && s.phase.undo != [] && l == s.phase.undo[|s.phase.undo| - 1].at)
    ensures Covered(s.log, l)
  {
    CoveredAsIf(v, s.log, l);
    var o := LogRun(v.base, v.log).value.open.value;
    if s.phase.Logged? {
      assert LocOf(o.ops[|o.ops| - 1]) == l;
    }
  }

  lemma {:induction false} AsIfSeen(s: Sys, v: Sys, e: Event)
    requires ReadsAs(s, v) && Enabled(s, e) && !e.Crash? && !e.TakeCheckpoint?
    ensures Enabled(v, e) && Inv(Next(v, e))
    ensures var a := Seen(Abstract(v), Abstract(v).committed);
            SeenNext(a, s, e) == Seen(Abstract(Next(v, e)), Abstract(Next(v, e)).committed)
  {
    AsIfStep(s, v, e);
    if e.ApplyLogged? {
      AsIfCovers(s, v, LocOf(s.phase.op));
    } else if e.UndoOne? {
      AsIfCovers(s, v, s.phase.undo[|s.phase.undo| - 1].at);
    }
  }

  lemma {:induction false} AsIfCrash(s: Sys, v: Sys, left: Data)
    requires ReadsAs(s, v) && LostFrom(s, left)
    ensures var w := v.(data := left, phase := Down);
            ReadsAs(s.(data := left, phase := Down), w) && Abstract(w) == Abs(Abstract(v).committed, None)
  {
    AlwaysRecoverable(v);
    forall l: Loc ensures Covered(s.log, l) || At(left, l) == At(v.data, l) {
    }
    forall l: Loc { CoveredAsIf(v, s.log, l); }
  }

  // ---- A checkpoint --------------------------------------------------------

  lemma {:induction false} CommittedWellSized(v: Sys)
    requires Inv(v)
    ensures WellSized(Abstract(v).committed)
  {
    LogTells(v.base, v.log);
    EffectsWellSized(v.base, CommittedOps(v.log));
  }

  lemma {:induction false} OpenId(base: Data, log: seq<Record>)
    requires LogRun(base, log).Some? && LogRun(base, log).value.open.Some?
    ensures LogRun(base, log).value.open.value.id > 0
    decreases |log|
  {
    var n := |log| - 1;
    if !log[n].Begin? {
      OpenId(base, log[..n]);
    }
  }

  lemma {:induction false} CutBegins(s: Sys, a: Seen, id: nat, undo: seq<Write>)
    requires 0 < id <= s.nextId && Back(s.data, undo, a.abs.committed)
    ensures var t := s.(base := s.data, log := []);
            CutLog(t, id, s.data, []) && Back(t.data, undo, a.abs.committed)
  {
    assert Mutations(id, []) == [];
  }

  /** What the trees and the undo list of a transaction of the guarded machine are. */
  lemma {:induction false} GuardedBack(v: Sys)
    requires Inv(v) && (v.phase.Running? || v.phase.Logged? || v.phase.Undoing?)
    ensures 0 < v.phase.id <= v.nextId && Back(v.data, v.phase.undo, Abstract(v).committed)
  {
    OpenId(v.base, v.log);
    CommittedWellSized(v);
    if !v.phase.Undoing? {
      DataWellSized(v);
    }
  }

  lemma {:induction false} CheckpointAsIf(s: Sys, v: Sys, a: Seen) returns (why: Why)
    requires LateInv(s, a, AsIf(v)) && Up(s.phase)
    ensures LateInv(LateNext(s, TakeCheckpoint), SeenNext(a, s, TakeCheckpoint), why)
  {
    if s.phase.Idle? {
      StepRefines(v, TakeCheckpoint);
      why := AsIf(Next(v, TakeCheckpoint));
    } else {
      GuardedBack(v);
      CutBegins(s, a, s.phase.id, s.phase.undo);
      why := Cut([]);
    }
  }

  lemma {:induction false} CheckpointCut(s: Sys, a: Seen, ops: seq<Op>)
    requires CutOk(s, a, ops)
    ensures CutOk(LateNext(s, TakeCheckpoint), SeenNext(a, s, TakeCheckpoint), [])
  {
    CutBegins(s, a, s.phase.id, s.phase.undo);
  }

  // ---- Steps of a transaction in which a checkpoint fell -------------------

  lemma {:induction false} MutationsSnoc(id: nat, ops: seq<Op>, op: Op)
    ensures Mutations(id, ops) + [Mutation(id, op)] == Mutations(id, ops + [op])
  {
  }

  lemma {:induction false} LogCut(s: Sys, a: Seen, ops: seq<Op>, op: Op)
    requires CutOk(s, a, ops) && s.phase.Running? && Imaged(s.data, op)
    ensures CutOk(LogOp(s, op), a.(abs := ViewAfter(a.abs, op)), ops + [op])
  {
    MutationsSnoc(s.phase.id, ops, op);
    ImagedRunSnoc(a.durable, ops, op);
    assert (ops + [op])[..|ops|] == ops;
  }

  lemma {:induction false} BackWith(d: Data, undo: seq<Write>, c: Data, op: Op)
    requires Back(d, undo, c) && Imaged(d, op) && !Oversize(op)
    ensures Back(Apply(d, Redo(op)), undo + [Undo(op)], c)
  {
    UndoneIsBack(d, op);
    RevertsOne(Apply(d, Redo(op)), undo, Undo(op));
    UndoIsImage(d, op);
  }

  lemma {:induction false} ApplyCut(s: Sys, a: Seen, ops: seq<Op>)
    requires CutOk(s, a, ops) && s.phase.Logged?
    ensures CutOk(LateNext(s, ApplyLogged), SeenNext(a, s, ApplyLogged), ops)
  {
    var op := s.phase.op;
    CoveredCut(s.phase.id, ops, LocOf(op));
    if ops != [] {
      assert LocOf(ops[|ops| - 1]) == LocOf(op);
    }
    if !Oversize(op) {
      BackWith(s.data, s.phase.undo, a.abs.committed, op);
    }
  }

  lemma {:induction false} RollbackCut(s: Sys, a: Seen, ops: seq<Op>)
    requires CutOk(s, a, ops) && s.phase.Running?
    ensures CutOk(LateNext(s, StartRollback), SeenNext(a, s, StartRollback), ops)
  {
    assert ops[..|ops|] == ops;
    EffectsAgreeOff(a.durable, ops, |ops|);
  }

  lemma {:induction false} ImagedElsewhere(d: Data, w: Write, ops: seq<Op>)
    requires ImagedRun(d, ops) && !Touches(ops, w.at)
    ensures ImagedRun(Apply(d, w), ops)
    ensures forall l: Loc :: l != w.at ==> At(Effects(Apply(d, w), ops), l) == At(Effects(d, ops), l)
    decreases |ops|
  {
    if |ops| != 0 {
      var n := |ops| - 1;
      assert LocOf(ops[n]) != w.at;
      assert forall i :: 0 <= i < n ==> ops[..n][i] == ops[i];
      ImagedElsewhere(d, w, ops[..n]);
    }
  }

  lemma {:induction false} UndoCut(s: Sys, a: Seen, ops: seq<Op>)
    requires CutOk(s, a, ops) && s.phase.Undoing? && s.phase.undo != []
    ensures CutOk(LateNext(s, UndoOne), SeenNext(a, s, UndoOne), ops)
  {
    var undo := s.phase.undo;
    var w := undo[|undo| - 1];
    BackLess(s.data, undo, a.abs.committed);
    CoveredCut(s.phase.id, ops, w.at);
    var durable := Written(a, s.log, w).durable;
    UndoDurable(a.durable, durable, w, ops, s.data);
    assert CutLog(LateNext(s, UndoOne), s.phase.id, durable, ops);
  }

  lemma {:induction false} BackLess(d: Data, undo: seq<Write>, c: Data)
    requires Back(d, undo, c) && undo != []
    ensures var w := undo[|undo| - 1];
            Accepted(w) && Back(Apply(d, w), undo[..|undo| - 1], c)
  {
    assert Accepted(undo[|undo| - 1]);
  }

  lemma {:induction false} UndoDurable(d: Data, d': Data, w: Write, ops: seq<Op>, data: Data)
    requires WellSized(d) && ImagedRun(d, ops) && AgreesOff(data, d, ops) && Accepted(w)
    requires d' == if Touches(ops, w.at) then d else Apply(d, w)
    ensures WellSized(d') && ImagedRun(d', ops) && AgreesOff(Apply(data, w), d', ops)
  {
    if !Touches(ops, w.at) {
      ImagedElsewhere(d, w, ops);
    }
  }

  // ---- It ends -------------------------------------------------------------

  function WithBegin(id: nat, ops: seq<Op>): seq<Record> { [Begin(id)] + Mutations(id, ops) }

  lemma {:induction false} WithBeginSnoc(id: nat, ops: seq<Op>)
    requires |ops| > 0
    ensures var n := |ops| - 1;
            && WithBegin(id, ops) == WithBegin(id, ops[..n]) + [Mutation(id, ops[n])]
            && Mutations(id, ops) == Mutations(id, ops[..n]) + [Mutation(id, ops[n])]
  {
    var n := |ops| - 1;
    assert ops[..n] + [ops[n]] == ops;
    MutationsSnoc(id, ops[..n], ops[n]);
  }

  lemma {:induction false} BeginScans(id: nat, ops: seq<Op>)
    ensures ScanLog(WithBegin(id, ops)) == ScanLog(Mutations(id, ops))
    decreases |ops|
  {
    if |ops| == 0 {
      assert WithBegin(id, ops) == [Begin(id)] && [Begin(id)][..0] == [];
    } else {
      var n := |ops| - 1;
      WithBeginSnoc(id, ops);
      BeginScans(id, ops[..n]);
      SameScan(WithBegin(id, ops[..n]), Mutations(id, ops[..n]), Mutation(id, ops[n]));
    }
  }

  lemma {:induction false} BeginRuns(base: Data, id: nat, ops: seq<Op>)
    requires id > 0 && ImagedRun(base, ops)
    ensures LogRun(base, WithBegin(id, ops)) == Some(LogState(base, Some(Open(id, ops, Effects(base, ops))), id))
    decreases |ops|
  {
    if |ops| == 0 {
      assert WithBegin(id, ops) == [Begin(id)] && [Begin(id)][..0] == [];
    } else {
      var n := |ops| - 1;
      WithBeginSnoc(id, ops);
      BeginRuns(base, id, ops[..n]);
      LogRunSnoc(base, WithBegin(id, ops[..n]), Mutation(id, ops[n]));
      assert ops[..n] + [ops[n]] == ops;
    }
  }

  lemma {:induction false} CommitCut(s: Sys, a: Seen, ops: seq<Op>)
    requires CutOk(s, a, ops) && s.phase.Running?
    ensures var v := Sys(s.data, WithBegin(s.phase.id, ops) + [Commit(s.phase.id)], a.durable, Idle, s.nextId);
            LateInv(LateNext(s, CommitTxn), SeenNext(a, s, CommitTxn), AsIf(v))
  {
    var id := s.phase.id;
    BeginRuns(a.durable, id, ops);
    BeginScans(id, ops);
    LogRunSnoc(a.durable, WithBegin(id, ops), Commit(id));
    SameScan(WithBegin(id, ops), s.log, Commit(id));
  }

  lemma {:induction false} FinishCut(s: Sys, a: Seen, ops: seq<Op>)
    requires CutOk(s, a, ops) && s.phase.Undoing? && s.phase.undo == []
    ensures var v := Sys(s.data, [], s.data, Idle, s.nextId);
            LateInv(LateNext(s, FinishRollback), SeenNext(a, s, FinishRollback), AsIf(v))
  {
    ScanEnded(s.phase.id, ops);
    RevertsNothing(s.data);
  }

  lemma {:induction false} CutAgrees(s: Sys, a: Seen, ops: seq<Op>)
    requires CutOk(s, a, ops)
    ensures CutLog(s, s.phase.id, a.durable, ops) && AgreesOff(s.data, a.durable, ops)
  {
    if s.phase.Running? {
      assert ops[..|ops|] == ops;
      EffectsAgreeOff(a.durable, ops, |ops|);
    } else if s.phase.Logged? && ops != [] {
      EffectsAgreeOff(a.durable, ops, |ops| - 1);
    }
  }

  lemma {:induction false} CutDown(durable: Data, id: nat, ops: seq<Op>, left: Data, n: nat)
    requires id > 0 && WellSized(durable) && ImagedRun(durable, ops) && AgreesOff(left, durable, ops)
    ensures var v := Sys(left, WithBegin(id, ops), durable, Down, n);
            Inv(v) && Abstract(v) == Abs(durable, None) && ScanLog(v.log) == ScanLog(Mutations(id, ops))
  {
    BeginRuns(durable, id, ops);
    BeginScans(id, ops);
  }

  lemma {:induction false} CrashCut(s: Sys, a: Seen, ops: seq<Op>, left: Data)
    requires CutOk(s, a, ops) && LostFrom(s, left)
    ensures var v := Sys(left, WithBegin(s.phase.id, ops), a.durable, Down, s.nextId);
            LateInv(LateNext(s, Crash(left)), SeenNext(a, s, Crash(left)), AsIf(v))
  {
    CutAgrees(s, a, ops);
    forall l: Loc | !Touches(ops, l) ensures At(left, l) == At(a.durable, l) {
      CoveredCut(s.phase.id, ops, l);
    }
    CutDown(a.durable, s.phase.id, ops, left, s.nextId);
  }

  // ---- Runs ----------------------------------------------------------------

  lemma {:induction false} CutStep(s: Sys, a: Seen, ops: seq<Op>, e: Event) returns (why: Why)
    requires CutOk(s, a, ops) && LateEnabled(s, e)
    ensures LateInv(LateNext(s, e), SeenNext(a, s, e), why)
  {
    why := Cut(ops);
    match e
    case LogPut(l, v) =>
      ImagedOpFor(s.data, true, l, v);
      LogCut(s, a, ops, OpFor(s.data, true, l, v));
      why := Cut(ops + [OpFor(s.data, true, l, v)]);
    case LogDelete(l) =>
      ImagedOpFor(s.data, false, l, []);
      LogCut(s, a, ops, OpFor(s.data, false, l, []));
      why := Cut(ops + [OpFor(s.data, false, l, [])]);
    case ApplyLogged => ApplyCut(s, a, ops);
    case StartRollback => RollbackCut(s, a, ops);
    case UndoOne => UndoCut(s, a, ops);
    case CommitTxn =>
      CommitCut(s, a, ops);
      why := AsIf(Sys(s.data, WithBegin(s.phase.id, ops) + [Commit(s.phase.id)], a.durable, Idle, s.nextId));
    case FinishRollback =>
      FinishCut(s, a, ops);
      why := AsIf(Sys(s.data, [], s.data, Idle, s.nextId));
    case TakeCheckpoint =>
      CheckpointCut(s, a, ops);
      why := Cut([]);
    case Crash(left) =>
      CrashCut(s, a, ops, left);
      why := AsIf(Sys(left, WithBegin(s.phase.id, ops), a.durable, Down, s.nextId));
  }

  lemma {:induction false} LateStep(s: Sys, a: Seen, why: Why, e: Event) returns (why': Why)
    requires LateInv(s, a, why) && LateEnabled(s, e)
    ensures LateInv(LateNext(s, e), SeenNext(a, s, e), why')
  {
    match why
    case Cut(ops) => why' := CutStep(s, a, ops, e);
    case AsIf(v) =>
      if e.TakeCheckpoint? {
        why' := CheckpointAsIf(s, v, a);
      } else if e.Crash? {
        AsIfCrash(s, v, e.left);
        why' := AsIf(v.(data := e.left, phase := Down));
      } else {
        AsIfStep(s, v, e);
        AsIfSeen(s, v, e);
        why' := AsIf(Next(v, e));
      }
  }

  ghost predicate LateRunsTo(s: Sys, a: Seen, es: seq<Event>, t: Sys, b: Seen)
    decreases |es|
  {
    if |es| == 0 then s == t && a == b
    else LateEnabled(s, es[0]) && LateRunsTo(LateNext(s, es[0]), SeenNext(a, s, es[0]), es[1..], t, b)
  }

  function Unseen(): Seen { Seen(Abs(map[], None), map[]) }

  lemma {:induction false} LateRunHolds(s: Sys, a: Seen, why: Why, es: seq<Event>, t: Sys, b: Seen) returns (why': Why)
    requires LateInv(s, a, why) && LateRunsTo(s, a, es, t, b)
    ensures LateInv(t, b, why')
    decreases |es|
  {
    if |es| == 0 {
      why' := why;
    } else {
      var w := LateStep(s, a, why, es[0]);
      why' := LateRunHolds(LateNext(s, es[0]), SeenNext(a, s, es[0]), w, es[1..], t, b);
    }
  }

  /** Over every run: between transactions the trees hold what the client takes for committed, which a crash would leave
      it with; in a transaction the client sees its own writes. */
  lemma {:induction false} LateRunRefines(es: seq<Event>, t: Sys, b: Seen)
    requires LateRunsTo(Created(), Unseen(), es, t, b)
    ensures exists why :: LateInv(t, b, why)
    ensures t.phase.Idle? ==> t.data == b.abs.committed == b.durable
    ensures t.phase.Running? ==> b.abs.view == Some(t.data)
  {
    CreatedOk();
    var why := LateRunHolds(Created(), Unseen(), AsIf(Created()), es, t, b);
  }

  /** From any state of any run, recovery after a crash succeeds if and only if no redone write is oversize, and gives
      exactly the durable data. */
  lemma {:induction false} LateCrashIff(es: seq<Event>, t: Sys, b: Seen, left: Data, order: seq<nat>)
    requires LateRunsTo(Created(), Unseen(), es, t, b) && LostFrom(t, left)
    requires Lists(order, ScanLog(t.log).pending.Keys)
    ensures var r := ApplyAll(left, Writes(ScanLog(t.log), order));
            && (r.ok <==> forall i :: 0 <= i < |ScanLog(t.log).redone| ==> Accepted(ScanLog(t.log).redone[i]))
            && (r.ok ==> r.data == b.durable)
  {
    CreatedOk();
    var why := LateRunHolds(Created(), Unseen(), AsIf(Created()), es, t, b);
    var why' := LateStep(t, b, why, Crash(left));
    DownRecovers(why'.v, left, t.log, order);
  }

  lemma {:induction false} DownRecovers(v: Sys, left: Data, log: seq<Record>, order: seq<nat>)
    requires Inv(v) && v.phase.Down? && v.data == left && ScanLog(v.log) == ScanLog(log)
    requires Lists(order, ScanLog(log).pending.Keys)
    ensures var r := ApplyAll(left, Writes(ScanLog(log), order));
            && (r.ok <==> forall i :: 0 <= i < |ScanLog(log).redone| ==> Accepted(ScanLog(log).redone[i]))
            && (r.ok ==> r.data == Abstract(v).committed)
  {
    UndoOrderIrrelevant(v.base, v.log, order);
    RecoveryCorrectIff(v.base, v.log, left);
    LogTells(v.base, v.log);
    SerialScan(v.base, v.log);
    var ops, ws := CommittedOps(v.log), ScanLog(log).redone;
    assert forall i :: 0 <= i < |ops| ==> (Accepted(ws[i]) <==> !Oversize(ops[i]));
  }

  /** The only step that is not a step of the atomic store is a crash that leaves other data than the committed data. */
  lemma {:induction false} LateStepRightIff(s: Sys, a: Seen, why: Why, e: Event)
    requires LateInv(s, a, why) && LateEnabled(s, e)
    ensures SeenNext(a, s, e).abs == AbsNext(a.abs, e) <==> (e.Crash? ==> a.durable == a.abs.committed)
    ensures why.AsIf? ==> a.durable == a.abs.committed
    ensures why.Cut? ==> (a.durable == a.abs.committed <==> Reverted(s.data, s.phase.undo) == a.durable)
  {
  }

  /** The guarded machine is part of this one. */
  lemma {:induction false} GuardedStep(s: Sys, e: Event)
    requires Inv(s) && Enabled(s, e)
    ensures LateEnabled(s, e) && LateNext(s, e) == Next(s, e)
  {
    if e.Crash? {
      forall l: Loc | !Covered(s.log, l) ensures At(e.left, l) == At(s.data, l) {
        CoveredAsIf(s, s.log, l);
        if LoggedKey(s.log, l) {
          LoggedIsTouched(s.base, s.log, l);
        }
      }
    }
  }

  /** Its runs are runs of this one, and there the durable data are the committed data. */
  lemma {:induction false} GuardedRuns(s: Sys, es: seq<Event>, t: Sys)
    requires Inv(s) && Runs(s, es, t)
    ensures Inv(t)
    ensures LateRunsTo(s, Seen(Abstract(s), Abstract(s).committed), es, t, Seen(Abstract(t), Abstract(t).committed))
    decreases |es|
  {
    if |es| != 0 {
      var e := es[0];
      StepRefines(s, e);
      GuardedStep(s, e);
      GuardedRuns(Next(s, e), es[1..], t);
      if !e.Crash? && !e.TakeCheckpoint? {
        AsIfSeen(s, s, e);
      }
    }
  }

  lemma {:induction false} LateRunThen(s: Sys, a: Seen, es: seq<Event>, t: Sys, b: Seen, e: Event)
    requires LateRunsTo(s, a, es, t, b) && LateEnabled(t, e)
    ensures LateRunsTo(s, a, es + [e], LateNext(t, e), SeenNext(b, t, e))
    decreases |es|
  {
    if |es| == 0 {
      assert (es + [e])[1..] == [];
    } else {
      assert (es + [e])[1..] == es[1..] + [e];
      LateRunThen(LateNext(s, es[0]), SeenNext(a, s, es[0]), es[1..], t, b, e);
    }
  }

  /** A run after which a crash leaves a value that was never committed: a put, the delete of its key, a checkpoint, and
      one write of the rollback. */
  lemma {:induction false} LateRunDiffers() returns (es: seq<Event>, t: Sys, b: Seen)
    ensures LateRunsTo(Created(), Unseen(), es, t, b)
    ensures b.abs.committed == map[] && b.durable == map[SomeLoc() := [1]]
  {
    var s := PutDeleteRuns();
    CreatedOk();
    GuardedRuns(Created(), PutDelete(), s);
    var a := Seen(Abstract(s), Abstract(s).committed);
    t, b := CheckpointThenUndo(Created(), Unseen(), PutDelete(), s, a);
    es := PutDelete() + [TakeCheckpoint] + [StartRollback] + [UndoOne];
  }

  lemma {:induction false} CheckpointThenUndo(s0: Sys, a0: Seen, es: seq<Event>, s: Sys, a: Seen)
    returns (t: Sys, b: Seen)
    requires LateRunsTo(s0, a0, es, s, a) && s.phase.Running? && s.phase.undo != []
    requires Accepted(s.phase.undo[|s.phase.undo| - 1])
    ensures LateRunsTo(s0, a0, es + [TakeCheckpoint] + [StartRollback] + [UndoOne], t, b)
    ensures b.abs.committed == a.abs.committed && b.durable == Apply(s.data, s.phase.undo[|s.phase.undo| - 1])
  {
    var s1, a1 := s.(base := s.data, log := []), a.(durable := s.data);
    LateRunThen(s0, a0, es, s, a, TakeCheckpoint);
    var s2, a2 := s1.(phase := Undoing(s.phase.id, s.phase.undo)), a1.(abs := a1.abs.(view := None));
    LateRunThen(s0, a0, es + [TakeCheckpoint], s1, a1, StartRollback);
    assert s2.log == [] && ScanLog([]) == Scanned(map[], []);
    t, b := LateNext(s2, UndoOne), SeenNext(a2, s2, UndoOne);
    LateRunThen(s0, a0, es + [TakeCheckpoint] + [StartRollback], s2, a2, UndoOne);
  }
}
