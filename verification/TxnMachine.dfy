/** Transactions, rollback, checkpoints, crashes and recovery as one state machine. Every durable write is a step
    of its own, so a crash can fall between any two of them. */
module TxnMachine {
  import opened Bytes
  import opened Entries
  import opened WalRecords
  import opened Recovery

  /** What the holder of the write lock is doing. Undo lists hold the write that reverts each mutation,
      oldest first. */
  datatype Phase =
    | Idle
    | Running(id: nat, undo: seq<Write>)
    | Logged(id: nat, undo: seq<Write>, op: Op)
    | Undoing(id: nat, undo: seq<Write>)
    | Down
    | Recovering(todo: seq<Write>)

  /** `base` is what the trees held when the log was last emptied. */
  datatype Sys = Sys(data: Data, log: seq<Record>, base: Data, phase: Phase, nextId: nat)

  datatype Event =
    | BeginTxn
    | LogPut(at: Loc, val: Bytes)
    | LogDelete(at: Loc)
    | ApplyLogged
    | CommitTxn
    | StartRollback
    | UndoOne
    | FinishRollback
    | TakeCheckpoint
    | Crash(left: Data)
    | StartRecovery(order: seq<nat>)
    | RecoverOne
    | FinishRecovery

  /** The record a mutation is logged with: its before-image is what the tree holds. */
  function OpFor(d: Data, isPut: bool, l: Loc, v: Bytes): Op {
    Op(isPut, l.target, l.key, v, l in d, if l in d then d[l] else [])
  }

  ghost predicate LoggedKey(log: seq<Record>, l: Loc) {
    exists r :: r in log && r.Mutation? && LocOf(r.op) == l && Rollback(r.id) !in log
  }

  /** A crash keeps the log. Of the keys logged by transactions not rolled back, any may be left with any
      value: the trees are not forced to disk at commit. */
  ghost predicate LeftBy(s: Sys, left: Data) {
    forall l: Loc :: !LoggedKey(s.log, l) ==> At(left, l) == At(s.data, l)
  }

  ghost predicate Enabled(s: Sys, e: Event) {
    match e
    case BeginTxn => s.phase.Idle?
    case LogPut(_, _) => s.phase.Running?
    case LogDelete(l) => s.phase.Running? && l in s.data
    case ApplyLogged => s.phase.Logged?
    case CommitTxn => s.phase.Running?
    case StartRollback => s.phase.Running?
    case UndoOne => s.phase.Undoing? && s.phase.undo != []
    case FinishRollback => s.phase.Undoing? && s.phase.undo == []
    case TakeCheckpoint => s.phase.Idle?
    case Crash(left) => LeftBy(s, left)
    case StartRecovery(order) => s.phase.Down? && Lists(order, ScanLog(s.log).pending.Keys)
    case RecoverOne => s.phase.Recovering? && s.phase.todo != []
    case FinishRecovery => s.phase.Recovering? && s.phase.todo == []
  }

  function WriteRecord(s: Sys, r: Record, p: Phase): Sys { s.(log := s.log + [r], phase := p) }

  ghost function Next(s: Sys, e: Event): Sys
    requires Enabled(s, e)
  {
    match e
    case BeginTxn =>
      WriteRecord(s.(nextId := s.nextId + 1), Begin(s.nextId + 1), Running(s.nextId + 1, []))
    case LogPut(l, v) => LogOp(s, OpFor(s.data, true, l, v))
    case LogDelete(l) => LogOp(s, OpFor(s.data, false, l, []))
    case ApplyLogged =>
      var p := s.phase;
      if Oversize(p.op) then s.(phase := Running(p.id, p.undo))
      else s.(data := Apply(s.data, Redo(p.op)), phase := Running(p.id, p.undo + [Undo(p.op)]))
    case CommitTxn => WriteRecord(s, Commit(s.phase.id), Idle)
    case StartRollback => s.(phase := Undoing(s.phase.id, s.phase.undo))
    case UndoOne =>
      var n := |s.phase.undo| - 1;
      if Accepted(s.phase.undo[n]) then
        s.(data := Apply(s.data, s.phase.undo[n]), phase := Undoing(s.phase.id, s.phase.undo[..n]))
      else s.(phase := Idle)
    case FinishRollback => WriteRecord(s, Rollback(s.phase.id), Idle)
    case TakeCheckpoint => s.(base := s.data, log := [])
    case Crash(left) => s.(data := left, phase := Down)
    case StartRecovery(order) =>
      s.(phase := Recovering(ScanLog(s.log).redone + UndosOf(ScanLog(s.log).pending, order)))
    case RecoverOne =>
      if Accepted(s.phase.todo[0]) then
        s.(data := Apply(s.data, s.phase.todo[0]), phase := Recovering(s.phase.todo[1..]))
      else s.(phase := Down)
    case FinishRecovery => Sys(s.data, [], s.data, Idle, 0)
  }

  function LogOp(s: Sys, op: Op): Sys
    requires s.phase.Running?
  {
    WriteRecord(s, Mutation(s.phase.id, op), Logged(s.phase.id, s.phase.undo, op))
  }

  // ---- The invariant -------------------------------------------------------

  function Reverted(d: Data, undo: seq<Write>): Data
    decreases |undo|
  {
    if |undo| == 0 then d else Reverted(Apply(d, undo[|undo| - 1]), undo[..|undo| - 1])
  }

  /** The undo list takes the trees back to the committed data, touching only the transaction's keys. */
  ghost predicate Reverts(d: Data, undo: seq<Write>, c: Data, ops: seq<Op>) {
    && Reverted(d, undo) == c
    && forall i :: 0 <= i < |undo| ==> Accepted(undo[i]) && Touches(ops, undo[i].at)
  }

  ghost predicate AgreesOff(d: Data, c: Data, ops: seq<Op>) {
    forall l: Loc :: !Touches(ops, l) ==> At(d, l) == At(c, l)
  }

  ghost predicate InTxn(st: LogState, s: Sys, id: nat) {
    st.open.Some? && st.open.value.id == id == st.last <= s.nextId
  }

  ghost predicate PhaseOk(s: Sys, st: LogState) {
    match s.phase
    case Idle => st.open.None? && s.data == st.committed && st.last <= s.nextId
    case Running(id, undo) =>
      InTxn(st, s, id) && s.data == st.open.value.cur && Reverts(s.data, undo, st.committed, st.open.value.ops)
    case Logged(id, undo, op) =>
      InTxn(st, s, id) && var o := st.open.value;
      && o.ops != [] && o.ops[|o.ops| - 1] == op
      && s.data == Effects(st.committed, o.ops[..|o.ops| - 1])
      && Imaged(s.data, op) && o.cur == Effect(s.data, op)
      && Reverts(s.data, undo, st.committed, o.ops)
    case Undoing(id, undo) =>
      InTxn(st, s, id) && WellSized(s.data) && AgreesOff(s.data, st.committed, st.open.value.ops)
      && Reverts(s.data, undo, st.committed, st.open.value.ops)
    case Down => Recoverable(s.base, s.log, s.data)
    case Recovering(todo) =>
      && Recoverable(s.base, s.log, s.data)
      && (forall i :: 0 <= i < |todo| ==> Touches(CommittedOps(s.log), todo[i].at) || Touches(OpenOps(st), todo[i].at))
      && (ApplyAll(s.data, todo).ok ==> ApplyAll(s.data, todo).data == st.committed)
      && (ApplyAll(s.data, todo).ok <== NoOversizeCommit(s.log))
  }

  ghost predicate Inv(s: Sys) {
    && WellSized(s.base)
    && LogRun(s.base, s.log).Some?
    && PhaseOk(s, LogRun(s.base, s.log).value)
  }

  // ---- Crash recoverability ------------------------------------------------

  lemma {:induction false} EffectsAgreeOff(c: Data, ops: seq<Op>, n: nat)
    requires n <= |ops|
    ensures AgreesOff(Effects(c, ops[..n]), c, ops)
  {
    forall l: Loc | !Touches(ops, l) ensures At(Effects(c, ops[..n]), l) == At(c, l) {
      assert forall i :: 0 <= i < n ==> LocOf(ops[..n][i]) == LocOf(ops[i]) != l;
      EffectsFrame(c, ops[..n], l);
    }
  }

  /** Whatever is being done, the trees and the log together can be recovered. */
  lemma {:induction false} AlwaysRecoverable(s: Sys)
    requires Inv(s)
    ensures Recoverable(s.base, s.log, s.data)
  {
    LogTells(s.base, s.log);
    var st := LogRun(s.base, s.log).value;
    if s.phase.Running? || s.phase.Logged? {
      var o := st.open.value;
      assert o.ops[..|o.ops|] == o.ops;
      EffectsAgreeOff(st.committed, o.ops, if s.phase.Running? then |o.ops| else |o.ops| - 1);
    }
  }

  ghost predicate Finished(log: seq<Record>, st: LogState, r: Record) {
    Commit(r.id) in log || Rollback(r.id) in log || (st.open.Some? && st.open.value.id == r.id)
  }

  /** Each transaction of a serial log has committed, has rolled back, or is the open one. */
  lemma {:induction false} AllFinished(base: Data, log: seq<Record>)
    requires LogRun(base, log).Some?
    ensures forall r :: r in log ==> Finished(log, LogRun(base, log).value, r)
    decreases |log|
  {
    if |log| != 0 {
      var n := |log| - 1;
      AllFinished(base, log[..n]);
      var st := LogRun(base, log[..n]).value;
      forall r | r in log ensures Finished(log, LogRun(base, log).value, r) {
        if r in log[..n] {
          assert Finished(log[..n], st, r);
        }
        assert log[n] in log;
      }
    }
  }

  lemma {:induction false} OpsOfTouch(log: seq<Record>, ids: set<nat>, r: Record)
    requires r in log && r.Mutation? && r.id in ids
    ensures Touches(OpsOf(log, ids), LocOf(r.op))
    decreases |log|
  {
    var n := |log| - 1;
    var ops := OpsOf(log, ids);
    if log[n] == r {
      assert LocOf(ops[|ops| - 1]) == LocOf(r.op);
    } else {
      assert r in log[..n];
      OpsOfTouch(log[..n], ids, r);
      var pre := OpsOf(log[..n], ids);
      var i :| 0 <= i < |pre| && LocOf(pre[i]) == LocOf(r.op);
      assert ops[i] == pre[i];
    }
  }

  lemma {:induction false} TouchesEither(a: seq<Op>, b: seq<Op>, l: Loc)
    ensures Touches(a + b, l) <==> Touches(a, l) || Touches(b, l)
  {
    var c := a + b;
    if Touches(a, l) {
      var i :| 0 <= i < |a| && LocOf(a[i]) == l;
      assert LocOf(c[i]) == l;
    }
    if Touches(b, l) {
      var i :| 0 <= i < |b| && LocOf(b[i]) == l;
      assert LocOf(c[|a| + i]) == l;
    }
    if Touches(c, l) {
      var i :| 0 <= i < |c| && LocOf(c[i]) == l;
      assert c[i] == if i < |a| then a[i] else b[i - |a|];
    }
  }

  /** Recovery rewrites every key whose value a crash may have lost. */
  lemma {:induction false} LoggedIsTouched(base: Data, log: seq<Record>, l: Loc)
    requires LogRun(base, log).Some? && LoggedKey(log, l)
    ensures Touches(CommittedOps(log), l) || Touches(OpenOps(LogRun(base, log).value), l)
  {
    var st := LogRun(base, log).value;
    var r :| r in log && r.Mutation? && LocOf(r.op) == l && Rollback(r.id) !in log;
    AllFinished(base, log);
    assert Finished(log, st, r);
    LogTells(base, log);
    if Commit(r.id) in log {
      assert Commit(r.id).id in Committers(log);
      OpsOfTouch(log, Committers(log), r);
    } else {
      OpsOfTouch(log, Committers(log) + {r.id}, r);
      TouchesEither(CommittedOps(log), OpenOps(st), l);
    }
  }

  lemma {:induction false} CrashRecoverable(s: Sys, left: Data)
    requires Inv(s) && LeftBy(s, left)
    ensures Recoverable(s.base, s.log, left)
  {
    AlwaysRecoverable(s);
    var st := LogRun(s.base, s.log).value;
    forall l: Loc | !Touches(CommittedOps(s.log), l) && !Touches(OpenOps(st), l)
      ensures At(left, l) == At(st.committed, l)
    {
      if LoggedKey(s.log, l) {
        LoggedIsTouched(s.base, s.log, l);
      }
      assert At(left, l) == At(s.data, l);
    }
  }

  // ---- Each step keeps the invariant ---------------------------------------

  lemma {:induction false} RevertsNothing(d: Data)
    ensures Reverted(d, []) == d
  {
  }

  lemma {:induction false} RevertsOne(d: Data, undo: seq<Write>, w: Write)
    ensures Reverted(d, undo + [w]) == Reverted(Apply(d, w), undo)
  {
    assert (undo + [w])[..|undo|] == undo;
  }

  lemma {:induction false} UndoneIsBack(d: Data, op: Op)
    requires Imaged(d, op)
    ensures Apply(Apply(d, Redo(op)), Undo(op)) == d
  {
    SameData(Apply(Apply(d, Redo(op)), Undo(op)), d);
  }

  lemma {:induction false} BeginKeeps(s: Sys)
    requires Inv(s) && s.phase.Idle?
    ensures Inv(Next(s, BeginTxn)) && Abstract(Next(s, BeginTxn)) == AbsNext(Abstract(s), BeginTxn)
  {
    var id, c := s.nextId + 1, LogRun(s.base, s.log).value.committed;
    LogRunSnoc(s.base, s.log, Begin(id));
    assert LogRun(s.base, s.log + [Begin(id)]) == Some(LogState(c, Some(Open(id, [], c)), id));
    RevertsNothing(s.data);
    assert Next(s, BeginTxn) == Sys(s.data, s.log + [Begin(id)], s.base, Running(id, []), id);
  }

  lemma {:induction false} ImagedOpFor(d: Data, isPut: bool, l: Loc, v: Bytes)
    requires isPut || l in d
    ensures Imaged(d, OpFor(d, isPut, l, v)) && LocOf(OpFor(d, isPut, l, v)) == l
  {
  }

  lemma {:induction false} LogKeeps(s: Sys, op: Op)
    requires Inv(s) && s.phase.Running? && Imaged(s.data, op)
    ensures Inv(LogOp(s, op)) && Abstract(LogOp(s, op)) == ViewAfter(Abstract(s), op)
  {
    LogRunSnoc(s.base, s.log, Mutation(s.phase.id, op));
    LogTells(s.base, s.log);
    var st := LogRun(s.base, s.log).value;
    var o := st.open.value;
    var ops := o.ops + [op];
    assert ops[..|o.ops|] == o.ops && ops[|ops| - 1] == op;
    RevertsWithMore(s.data, s.phase.undo, st.committed, o.ops, op);
  }

  lemma {:induction false} RevertsWithMore(d: Data, undo: seq<Write>, c: Data, ops: seq<Op>, op: Op)
    requires Reverts(d, undo, c, ops)
    ensures Reverts(d, undo, c, ops + [op])
  {
    forall i | 0 <= i < |undo| ensures Accepted(undo[i]) && Touches(ops + [op], undo[i].at) {
      TouchesEither(ops, [op], undo[i].at);
    }
  }

  lemma {:induction false} ApplyKeeps(s: Sys)
    requires Inv(s) && s.phase.Logged?
    ensures Inv(Next(s, ApplyLogged)) && Abstract(Next(s, ApplyLogged)) == Abstract(s)
  {
    var st := LogRun(s.base, s.log).value;
    var p, o := s.phase, st.open.value;
    if !Oversize(p.op) {
      LogTells(s.base, s.log);
      EffectsWellSized(s.base, CommittedOps(s.log));
      EffectsWellSized(st.committed, o.ops[..|o.ops| - 1]);
      UndoneIsBack(s.data, p.op);
      var d := Apply(s.data, Redo(p.op));
      RevertsOne(d, p.undo, Undo(p.op));
      UndoListed(p.undo, o.ops, p.op);
    }
  }

  lemma {:induction false} UndoListed(undo: seq<Write>, ops: seq<Op>, op: Op)
    requires forall i :: 0 <= i < |undo| ==> Accepted(undo[i]) && Touches(ops, undo[i].at)
    requires |ops| > 0 && ops[|ops| - 1] == op && Accepted(Undo(op))
    ensures var after := undo + [Undo(op)];
            forall i :: 0 <= i < |after| ==> Accepted(after[i]) && Touches(ops, after[i].at)
  {
    assert LocOf(ops[|ops| - 1]) == Undo(op).at;
  }

  lemma {:induction false} CommitKeeps(s: Sys)
    requires Inv(s) && s.phase.Running?
    ensures Inv(Next(s, CommitTxn)) && Abstract(Next(s, CommitTxn)) == AbsNext(Abstract(s), CommitTxn)
  {
    LogRunSnoc(s.base, s.log, Commit(s.phase.id));
  }

  lemma {:induction false} StartRollbackKeeps(s: Sys)
    requires Inv(s) && s.phase.Running?
    ensures Inv(Next(s, StartRollback)) && Abstract(Next(s, StartRollback)) == AbsNext(Abstract(s), StartRollback)
  {
    LogTells(s.base, s.log);
    var o := LogRun(s.base, s.log).value.open.value;
    assert o.ops[..|o.ops|] == o.ops;
    EffectsAgreeOff(LogRun(s.base, s.log).value.committed, o.ops, |o.ops|);
    EffectsWellSized(s.base, CommittedOps(s.log));
    EffectsWellSized(LogRun(s.base, s.log).value.committed, o.ops);
  }

  lemma {:induction false} UndoKeeps(s: Sys)
    requires Inv(s) && s.phase.Undoing? && s.phase.undo != []
    ensures Inv(Next(s, UndoOne)) && Abstract(Next(s, UndoOne)) == Abstract(s)
    ensures Next(s, UndoOne).phase.Undoing?
  {
    var n := |s.phase.undo| - 1;
    var w := s.phase.undo[n];
    assert Accepted(w);
  }

  lemma {:induction false} FinishRollbackKeeps(s: Sys)
    requires Inv(s) && s.phase.Undoing? && s.phase.undo == []
    ensures Inv(Next(s, FinishRollback)) && Abstract(Next(s, FinishRollback)) == Abstract(s)
  {
    LogRunSnoc(s.base, s.log, Rollback(s.phase.id));
  }

  lemma {:induction false} CheckpointKeeps(s: Sys)
    requires Inv(s) && s.phase.Idle?
    ensures Inv(Next(s, TakeCheckpoint)) && Abstract(Next(s, TakeCheckpoint)) == Abstract(s)
  {
    LogTells(s.base, s.log);
    EffectsWellSized(s.base, CommittedOps(s.log));
  }

  lemma {:induction false} CrashKeeps(s: Sys, left: Data)
    requires Inv(s) && LeftBy(s, left)
    ensures Inv(Next(s, Crash(left))) && Abstract(Next(s, Crash(left))) == AbsNext(Abstract(s), Crash(left))
  {
    CrashRecoverable(s, left);
  }

  lemma {:induction false} RecoveryTouches(w: seq<Op>, o: seq<Op>)
    ensures var todo := Redos(w) + Undos(o);
            forall i :: 0 <= i < |todo| ==> Touches(w, todo[i].at) || Touches(o, todo[i].at)
  {
    var todo := Redos(w) + Undos(o);
    forall i | 0 <= i < |todo| ensures Touches(w, todo[i].at) || Touches(o, todo[i].at) {
      if i < |w| {
        assert LocOf(w[i]) == todo[i].at;
      } else {
        assert LocOf(o[|o| - 1 - (i - |w|)]) == todo[i].at;
      }
    }
  }

  lemma {:induction false} StartRecoveryKeeps(s: Sys, order: seq<nat>)
    requires Inv(s) && Enabled(s, StartRecovery(order))
    ensures Inv(Next(s, StartRecovery(order))) && Abstract(Next(s, StartRecovery(order))) == Abstract(s)
  {
    UndoOrderIrrelevant(s.base, s.log, order);
    RecoveryCorrectIff(s.base, s.log, s.data);
    LogTells(s.base, s.log);
    RecoveryTouches(CommittedOps(s.log), OpenOps(LogRun(s.base, s.log).value));
  }

  lemma {:induction false} RecoverKeeps(s: Sys)
    requires Inv(s) && s.phase.Recovering? && s.phase.todo != []
    ensures Inv(Next(s, RecoverOne)) && Abstract(Next(s, RecoverOne)) == Abstract(s)
  {
    var todo := s.phase.todo;
    assert Touches(CommittedOps(s.log), todo[0].at) || Touches(OpenOps(LogRun(s.base, s.log).value), todo[0].at);
  }

  lemma {:induction false} FinishRecoveryKeeps(s: Sys)
    requires Inv(s) && s.phase.Recovering? && s.phase.todo == []
    ensures Inv(Next(s, FinishRecovery)) && Abstract(Next(s, FinishRecovery)) == Abstract(s)
  {
    LogTells(s.base, s.log);
    EffectsWellSized(s.base, CommittedOps(s.log));
  }

  // ---- What a client sees --------------------------------------------------

  /** The store a client may think it has: committed data, and one private view while a transaction runs. */
  datatype Abs = Abs(committed: Data, view: Option<Data>)

  function ViewAfter(a: Abs, op: Op): Abs {
    if a.view.None? then a else a.(view := Some(Effect(a.view.value, op)))
  }

  function PutView(a: Abs, l: Loc, v: Option<Bytes>): Abs {
    if a.view.None? || !Accepted(Write(l, v)) then a else a.(view := Some(Apply(a.view.value, Write(l, v))))
  }

  /** Only a commit changes the committed data; a rollback or a crash drops the view. */
  function AbsNext(a: Abs, e: Event): Abs {
    match e
    case BeginTxn => a.(view := Some(a.committed))
    case LogPut(l, v) => PutView(a, l, Some(v))
    case LogDelete(l) => PutView(a, l, None)
    case CommitTxn => if a.view.None? then a else Abs(a.view.value, None)
    case StartRollback => a.(view := None)
    case Crash(_) => a.(view := None)
    case _ => a
  }

  ghost function Abstract(s: Sys): Abs
    requires Inv(s)
  {
    var st := LogRun(s.base, s.log).value;
    Abs(st.committed, if s.phase.Running? || s.phase.Logged? then Some(st.open.value.cur) else None)
  }

  /** Every step keeps the invariant and does to the committed data what the client expects. */
  lemma {:induction false} StepRefines(s: Sys, e: Event)
    requires Inv(s) && Enabled(s, e)
    ensures Inv(Next(s, e)) && Abstract(Next(s, e)) == AbsNext(Abstract(s), e)
  {
    match e
    case BeginTxn => BeginKeeps(s);
    case LogPut(l, v) =>
      ImagedOpFor(s.data, true, l, v);
      LogKeeps(s, OpFor(s.data, true, l, v));
    case LogDelete(l) =>
      ImagedOpFor(s.data, false, l, []);
      LogKeeps(s, OpFor(s.data, false, l, []));
    case ApplyLogged => ApplyKeeps(s);
    case CommitTxn => CommitKeeps(s);
    case StartRollback => StartRollbackKeeps(s);
    case UndoOne => UndoKeeps(s);
    case FinishRollback => FinishRollbackKeeps(s);
    case TakeCheckpoint => CheckpointKeeps(s);
    case Crash(left) => CrashKeeps(s, left);
    case StartRecovery(order) => StartRecoveryKeeps(s, order);
    case RecoverOne => RecoverKeeps(s);
    case FinishRecovery => FinishRecoveryKeeps(s);
  }

  /** A run is a state and the events from there on. */
  ghost predicate Runs(s: Sys, es: seq<Event>, t: Sys)
    decreases |es|
  {
    if |es| == 0 then s == t else Enabled(s, es[0]) && Runs(Next(s, es[0]), es[1..], t)
  }

  function AbsRun(a: Abs, es: seq<Event>): Abs
    decreases |es|
  {
    if |es| == 0 then a else AbsRun(AbsNext(a, es[0]), es[1..])
  }

  function Created(): Sys { Sys(map[], [], map[], Idle, 0) }

  /** Crash atomicity: over every run of transactions, rollbacks, checkpoints, crashes and recoveries, with a crash
      after any step, what a client sees is what the transactions that reached their commit record did,
      in that order. When no transaction and no recovery is in progress the trees hold exactly that. */
  lemma {:induction false} RunRefines(s: Sys, es: seq<Event>, t: Sys)
    requires Inv(s) && Runs(s, es, t)
    ensures Inv(t) && Abstract(t) == AbsRun(Abstract(s), es)
    ensures t.phase.Idle? ==> t.data == AbsRun(Abstract(s), es).committed
    ensures t.phase.Running? ==> AbsRun(Abstract(s), es).view == Some(t.data)
    decreases |es|
  {
    if |es| != 0 {
      StepRefines(s, es[0]);
      RunRefines(Next(s, es[0]), es[1..], t);
    }
  }

  lemma {:induction false} CreatedOk()
    ensures Inv(Created()) && Abstract(Created()) == Abs(map[], None)
  {
  }

  /** From any state of any run, a crash and an uninterrupted recovery bring the store back up if and only if no
      committed operation in the log is oversize, and then with exactly the committed data. */
  lemma {:induction false} CrashThenRecoverIff(s: Sys, left: Data, order: seq<nat>)
    requires Inv(s) && LeftBy(s, left) && Lists(order, ScanLog(s.log).pending.Keys)
    ensures var r := ApplyAll(left, ScanLog(s.log).redone + UndosOf(ScanLog(s.log).pending, order));
            && (r.ok <==> NoOversizeCommit(s.log))
            && (r.ok ==> r.data == Abstract(s).committed)
  {
    CrashRecoverable(s, left);
    UndoOrderIrrelevant(s.base, s.log, order);
    RecoveryCorrectIff(s.base, s.log, left);
    LogTells(s.base, s.log);
  }
}
