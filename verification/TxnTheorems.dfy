/** Consequences for whole runs, and the two places where the code falls short of them. */
module TxnTheorems {
  import opened Bytes
  import opened Entries
  import opened Pages
  import opened WalRecords
  import opened Recovery
  import opened TxnMachine

  // ---- Serial logs ---------------------------------------------------------

  ghost predicate BeginsBefore(a: Record, b: Record) { a.Begin? && b.Begin? ==> a.id < b.id }

  lemma {:induction false} BeginsAscend(base: Data, log: seq<Record>)
    requires LogRun(base, log).Some?
    ensures forall i, j :: 0 <= i < j < |log| ==> BeginsBefore(log[i], log[j])
    decreases |log|
  {
    if |log| != 0 {
      var n := |log| - 1;
      BeginsAscend(base, log[..n]);
      LogTells(base, log[..n]);
      forall i, j | 0 <= i < j < |log| ensures BeginsBefore(log[i], log[j]) {
        assert log[i] in log[..n];
        assert j < n ==> BeginsBefore(log[..n][i], log[..n][j]);
      }
    }
  }

  /** In every state of every run the log is serial: transaction ids are distinct, each transaction but the last
      has ended, and the scan is left with at most one transaction to undo. */
  lemma {:induction false} AlwaysSerial(s: Sys, es: seq<Event>, t: Sys)
    requires Inv(s) && Runs(s, es, t)
    ensures forall i, j :: 0 <= i < j < |t.log| ==> BeginsBefore(t.log[i], t.log[j])
    ensures |ScanLog(t.log).pending| <= 1
    ensures t.phase.Idle? ==> forall r :: r in t.log ==> Commit(r.id) in t.log || Rollback(r.id) in t.log
  {
    RunRefines(s, es, t);
    BeginsAscend(t.base, t.log);
    SerialScan(t.base, t.log);
    AllFinished(t.base, t.log);
    var st := LogRun(t.base, t.log).value;
    forall r | r in t.log && t.phase.Idle? ensures Commit(r.id) in t.log || Rollback(r.id) in t.log {
      assert Finished(t.log, st, r);
    }
  }

  // ---- Oversize operations -------------------------------------------------

  ghost predicate SizedLog(log: seq<Record>) {
    forall r :: r in log && r.Mutation? ==> !Oversize(r.op)
  }

  predicate SizedEvent(e: Event) { e.LogPut? ==> Accepted(Write(e.at, Some(e.val))) }

  lemma {:induction false} SizedStep(s: Sys, e: Event)
    requires Enabled(s, e) && SizedLog(s.log) && SizedEvent(e)
    ensures SizedLog(Next(s, e).log)
  {
  }

  lemma {:induction false} SizedOps(log: seq<Record>, ids: set<nat>)
    requires SizedLog(log)
    ensures forall i :: 0 <= i < |OpsOf(log, ids)| ==> !Oversize(OpsOf(log, ids)[i])
    decreases |log|
  {
    if |log| != 0 {
      assert log[|log| - 1] in log;
      SizedOps(log[..|log| - 1], ids);
    }
  }

  /** A run that never logs an oversize put can always be recovered. */
  lemma {:induction false} SizedRunsRecover(s: Sys, es: seq<Event>, t: Sys)
    requires Inv(s) && Runs(s, es, t) && SizedLog(s.log)
    requires forall i :: 0 <= i < |es| ==> SizedEvent(es[i])
    ensures NoOversizeCommit(t.log)
    decreases |es|
  {
    if |es| == 0 {
      SizedOps(t.log, Committers(t.log));
    } else {
      StepRefines(s, es[0]);
      SizedStep(s, es[0]);
      SizedRunsRecover(Next(s, es[0]), es[1..], t);
    }
  }

  function LargeValue(): Bytes { seq(MAX_KEY_VALUE + 1, _ => 0) }

  /** A key of a table "t". */
  function SomeLoc(): Loc { Loc([84, 58, 116], [1]) }

  function LargeOp(): Op { OpFor(map[], true, SomeLoc(), LargeValue()) }

  function BlockedLog(): seq<Record> { [Begin(1), Mutation(1, LargeOp()), Commit(1)] }

  function BlockingRun(): seq<Event> { [BeginTxn, LogPut(SomeLoc(), LargeValue()), ApplyLogged, CommitTxn] }

  /** A put that the tree refuses is already in the log. If its transaction then commits, the store
      does not open again, whatever a crash leaves of the trees and however often recovery is tried. */
  lemma {:induction false} OversizeCommitBlocksOpen(left: Data)
    ensures Runs(Created(), BlockingRun(), Sys(map[], BlockedLog(), map[], Idle, 1))
    ensures LeftBy(Sys(map[], BlockedLog(), map[], Idle, 1), left) ==>
              !ApplyAll(left, ScanLog(BlockedLog()).redone + UndosOf(ScanLog(BlockedLog()).pending, [])).ok
  {
    BlockingRunRuns();
    BlockedOps(LargeOp());
    var s := Sys(map[], BlockedLog(), map[], Idle, 1);
    if LeftBy(s, left) {
      CreatedOk();
      RunRefines(Created(), BlockingRun(), s);
      SerialScan(map[], BlockedLog());
      assert ScanLog(BlockedLog()).pending == map[];
      CrashThenRecoverIff(s, left, []);
    }
  }

  lemma {:induction false} BlockingRunRuns()
    ensures Runs(Created(), BlockingRun(), Sys(map[], BlockedLog(), map[], Idle, 1))
    ensures Oversize(LargeOp())
  {
    var es, op := BlockingRun(), LargeOp();
    var s1 := Next(Created(), es[0]);
    var s2 := Next(s1, es[1]);
    var s3 := Next(s2, es[2]);
    assert s2.log == [Begin(1), Mutation(1, op)];
    assert Oversize(op);
    var s4 := Next(s3, es[3]);
    assert s4.log == BlockedLog();
    assert es[1..][1..] == es[2..] && es[2..][1..] == es[3..] && es[3..][1..] == [];
    assert Runs(s3, es[3..], s4);
    assert Runs(s2, es[2..], s4);
    assert Runs(s1, es[1..], s4);
  }

  lemma {:induction false} BlockedOps(op: Op)
    requires Oversize(op)
    ensures !NoOversizeCommit([Begin(1), Mutation(1, op), Commit(1)])
  {
    var a, b, c := Begin(1), Mutation(1, op), Commit(1);
    assert [a, b, c] == ([a] + [b]) + [c];
    CommittersSnoc([a, b], c);
    var ids := Committers([a, b, c]);
    OpsOfSnoc([a, b], c, ids);
    assert [a, b] == [a] + [b];
    OpsOfSnoc([a], b, ids);
    var ops := CommittedOps([a, b, c]);
    assert ops[|ops| - 1] == op;
  }

  // ---- A rollback whose undo writes did not reach the disk -----------------

  function RolledBack(): seq<Event> { [BeginTxn, LogPut(SomeLoc(), [2]), ApplyLogged]
    + [StartRollback, UndoOne, FinishRollback] }

  function PutLog(): seq<Record> { [Begin(1), Mutation(1, OpFor(map[], true, SomeLoc(), [2]))] }

  function RolledBackLog(): seq<Record> { PutLog() + [Rollback(1)] }

  lemma {:induction false} RunsJoin(s: Sys, a: seq<Event>, t: Sys, b: seq<Event>, u: Sys)
    requires Runs(s, a, t) && Runs(t, b, u)
    ensures Runs(s, a + b, u)
    decreases |a|
  {
    if |a| == 0 {
      assert a + b == b;
    } else {
      assert (a + b)[1..] == a[1..] + b;
      RunsJoin(Next(s, a[0]), a[1..], t, b, u);
    }
  }

  lemma {:induction false} PutRuns(es: seq<Event>)
    requires es == [BeginTxn, LogPut(SomeLoc(), [2]), ApplyLogged]
    ensures Runs(Created(), es, Sys(map[SomeLoc() := [2]], PutLog(), map[], Running(1, [Write(SomeLoc(), None)]), 1))
  {
    var s1 := Next(Created(), es[0]);
    var s2 := Next(s1, es[1]);
    var s3 := Next(s2, es[2]);
    assert s2.log == PutLog();
    assert s3.data == map[SomeLoc() := [2]] && s3.phase == Running(1, [Write(SomeLoc(), None)]);
    assert s3 == Sys(map[SomeLoc() := [2]], PutLog(), map[], Running(1, [Write(SomeLoc(), None)]), 1);
    assert es[1..][1..] == es[2..] && es[2..][1..] == [];
    assert Runs(s2, es[2..], s3);
    assert Runs(s1, es[1..], s3);
  }

  lemma {:induction false} RollbackRuns(s: Sys, l: Loc, es: seq<Event>)
    requires s.phase == Running(1, [Write(l, None)]) && es == [StartRollback, UndoOne, FinishRollback]
    ensures Runs(s, es, Sys(s.data - {l}, s.log + [Rollback(1)], s.base, Idle, s.nextId))
  {
    var s1 := Next(s, es[0]);
    assert s1.phase == Undoing(1, [Write(l, None)]);
    var s2 := Next(s1, es[1]);
    assert s2.phase == Undoing(1, []) && s2.data == s.data - {l};
    var s3 := Next(s2, es[2]);
    assert es[1..][1..] == es[2..] && es[2..][1..] == [];
    assert Runs(s2, es[2..], s3);
    assert Runs(s1, es[1..], s3);
  }

  lemma {:induction false} RolledBackRuns()
    ensures Runs(Created(), RolledBack(), Sys(map[], RolledBackLog(), map[], Idle, 1))
  {
    var a, b := [BeginTxn, LogPut(SomeLoc(), [2]), ApplyLogged], [StartRollback, UndoOne, FinishRollback];
    var s := Sys(map[SomeLoc() := [2]], PutLog(), map[], Running(1, [Write(SomeLoc(), None)]), 1);
    PutRuns(a);
    RollbackRuns(s, SomeLoc(), b);
    assert s.data - {SomeLoc()} == map[];
    RunsJoin(Created(), a, s, b, Sys(map[], RolledBackLog(), map[], Idle, 1));
  }

  /** A transaction puts a value and rolls back. If the put reached the disk and the undo write did not, the value is
      there after recovery, which writes nothing. */
  lemma {:induction false} UnrestoredValueStays()
    ensures Runs(Created(), RolledBack(), Sys(map[], RolledBackLog(), map[], Idle, 1))
    ensures LogRun(map[], RolledBackLog()).Some? && LogRun(map[], RolledBackLog()).value.committed == map[]
    ensures var left: Data := map[SomeLoc() := [2]];
            ApplyAll(left, RecoveryWrites(map[], RolledBackLog())) == Applied(left, true)
              && !Recoverable(map[], RolledBackLog(), left)
  {
    RolledBackRuns();
    var s, left: Data := Sys(map[], RolledBackLog(), map[], Idle, 1), map[SomeLoc() := [2]];
    CreatedOk();
    RunRefines(Created(), RolledBack(), s);
    NobodyCommits(s.log);
    assert RecoveryWrites(map[], s.log) == [];
    RecoveryRightIff(map[], s.log, left);
  }

  lemma {:induction false} NobodyCommits(log: seq<Record>)
    requires forall r :: r in log ==> !r.Commit?
    ensures CommittedOps(log) == []
  {
    assert Committers(log) == {};
    OpsOfNobody(log);
  }

  lemma {:induction false} OpsOfNobody(log: seq<Record>)
    ensures OpsOf(log, {}) == []
    decreases |log|
  {
    if |log| != 0 {
      OpsOfNobody(log[..|log| - 1]);
    }
  }
}
