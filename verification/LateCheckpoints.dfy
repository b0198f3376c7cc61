/** `MaybeCheckpoint` takes no lock, so it can empty the log beside an open transaction. What recovery then makes of
    that transaction: when it never ends, when it commits, and when it rolls back. */
module LateCheckpoints {
  import opened Entries
  import opened WalRecords
  import opened Recovery
  import opened TxnMachine
  import opened TxnTheorems

  /** What the transaction logs after the checkpoint; its begin record is gone. */
  function Mutations(id: nat, ops: seq<Op>): seq<Record> {
    seq(|ops|, i requires 0 <= i < |ops| => Mutation(id, ops[i]))
  }

  lemma {:induction false} ScanTail(id: nat, ops: seq<Op>)
    ensures ScanLog(Mutations(id, ops)) == Scanned(if ops == [] then map[] else map[id := ops], [])
    decreases |ops|
  {
    if |ops| != 0 {
      var n := |ops| - 1;
      ScanTail(id, ops[..n]);
      assert Mutations(id, ops)[..n] == Mutations(id, ops[..n]);
      assert ops[..n] + [ops[n]] == ops;
    }
  }

  lemma {:induction false} ScanEnded(id: nat, ops: seq<Op>)
    ensures ScanLog(Mutations(id, ops) + [Commit(id)]) == Scanned(map[], Redos(ops))
    ensures ScanLog(Mutations(id, ops) + [Rollback(id)]) == Scanned(map[], [])
  {
    ScanTail(id, ops);
    var m := Mutations(id, ops);
    assert (m + [Commit(id)])[..|m|] == m && (m + [Rollback(id)])[..|m|] == m;
    assert ScanLog(m).pending - {id} == map[];
    assert OpsAt(ScanLog(m).pending, id) == ops;
  }

  /** The writes of recovery for what the scan collected. */
  function Writes(c: Scanned, order: seq<nat>): seq<Write> { c.redone + UndosOf(c.pending, order) }

  lemma {:induction false} TailWrites(id: nat, ops: seq<Op>, order: seq<nat>)
    requires Lists(order, ScanLog(Mutations(id, ops)).pending.Keys)
    ensures Writes(ScanLog(Mutations(id, ops)), order) == Undos(ops)
  {
    ScanTail(id, ops);
    var p := ScanLog(Mutations(id, ops)).pending;
    ListsKeys(order, p.Keys);
    if ops == [] {
      assert order == [] && Undos(ops) == [];
    } else {
      assert p.Keys == {id};
      assert order == [id] && order[..0] == [];
      assert UndosOf(p, order) == UndosOf(p, []) + Undos(p[id]);
    }
  }

  lemma {:induction false} EndedWrites(id: nat, ops: seq<Op>)
    ensures Writes(ScanLog(Mutations(id, ops) + [Commit(id)]), []) == Redos(ops)
    ensures Writes(ScanLog(Mutations(id, ops) + [Rollback(id)]), []) == []
  {
    ScanEnded(id, ops);
  }

  /** Every key the transaction logged after the checkpoint goes back to what it was before that; others stay. */
  lemma {:induction false} TailUndone(d: Data, kept: Data, ops: seq<Op>, left: Data)
    requires WellSized(d) && ImagedRun(d, ops) && AgreesOff(left, kept, ops)
    ensures var r := ApplyAll(left, Undos(ops));
            r.ok && forall l: Loc :: At(r.data, l) == if Touches(ops, l) then At(d, l) else At(kept, l)
  {
    var r := ApplyAll(left, Undos(ops));
    forall l: Loc ensures r.ok && At(r.data, l) == if Touches(ops, l) then At(d, l) else At(kept, l) {
      UndoRestores(left, d, ops, l);
    }
    UndoRestores(left, d, ops, SomeLoc());
  }

  /** d on the keys that the operations touch, e elsewhere. */
  ghost function Mixed(d: Data, e: Data, ops: seq<Op>): (r: Data)
    ensures forall l: Loc :: At(r, l) == if Touches(ops, l) then At(d, l) else At(e, l)
  {
    map l | l in d.Keys + e.Keys && (if Touches(ops, l) then l in d else l in e)
      :: if Touches(ops, l) then d[l] else e[l]
  }

  /** Recovery of a transaction that logged ops after the checkpoint, at which it saw d: keys it logged go back to d,
      all others stay as the disk has them. */
  lemma {:induction false} TailRecovers(d: Data, mid: Data, id: nat, ops: seq<Op>, left: Data, order: seq<nat>)
    requires WellSized(d) && ImagedRun(d, ops) && AgreesOff(left, mid, ops)
    requires Lists(order, ScanLog(Mutations(id, ops)).pending.Keys)
    ensures ApplyAll(left, Writes(ScanLog(Mutations(id, ops)), order)) == Applied(Mixed(d, mid, ops), true)
  {
    TailWrites(id, ops, order);
    TailUndone(d, mid, ops, left);
    SameData(ApplyAll(left, Undos(ops)).data, Mixed(d, mid, ops));
  }

  // ---- The transaction never ends ------------------------------------------

  lemma {:induction false} DataWellSized(s: Sys)
    requires Inv(s) && (s.phase.Running? || s.phase.Logged?)
    ensures WellSized(s.data)
  {
    LogTells(s.base, s.log);
    EffectsWellSized(s.base, CommittedOps(s.log));
    var st := LogRun(s.base, s.log).value;
    var o := st.open.value;
    EffectsWellSized(st.committed, if s.phase.Running? then o.ops else o.ops[..|o.ops| - 1]);
  }

  /** The log is emptied between two operations; then the transaction logs ops, and the process stops with mid on the
      disk under all other keys. Recovery gives the transaction's data at the checkpoint under the keys of ops and mid
      elsewhere. That is the committed data if and only if undoing the transaction at the checkpoint gives the same. */
  lemma {:induction false} LateCheckpointIff(s: Sys, mid: Data, ops: seq<Op>, left: Data, order: seq<nat>)
    requires Inv(s) && s.phase.Running?
    requires ImagedRun(s.data, ops) && AgreesOff(left, mid, ops)
    requires Lists(order, ScanLog(Mutations(s.phase.id, ops)).pending.Keys)
    ensures var r := ApplyAll(left, Writes(ScanLog(Mutations(s.phase.id, ops)), order));
            && r == Applied(Mixed(s.data, mid, ops), true)
            && (r.data == Abstract(s).committed <==> Mixed(s.data, mid, ops) == Reverted(s.data, s.phase.undo))
  {
    DataWellSized(s);
    TailRecovers(s.data, mid, s.phase.id, ops, left, order);
  }

  /** What the undo list of the transaction is once its logged operation has been made. */
  function UndoWith(undo: seq<Write>, op: Op): seq<Write> { if Oversize(op) then undo else undo + [Undo(op)] }

  /** The log is emptied between the log record of an operation and the operation, which is then made without a record
      of it. Recovery gives what the transaction saw after it under the keys of ops, and mid elsewhere. */
  lemma {:induction false} LateCheckpointLoggedIff(s: Sys, mid: Data, ops: seq<Op>, left: Data, order: seq<nat>)
    requires Inv(s) && s.phase.Logged?
    requires ImagedRun(Effect(s.data, s.phase.op), ops) && AgreesOff(left, mid, ops)
    requires Lists(order, ScanLog(Mutations(s.phase.id, ops)).pending.Keys)
    ensures var r := ApplyAll(left, Writes(ScanLog(Mutations(s.phase.id, ops)), order));
            var after := Effect(s.data, s.phase.op);
            && r == Applied(Mixed(after, mid, ops), true)
            && (r.data == Abstract(s).committed <==>
                Mixed(after, mid, ops) == Reverted(after, UndoWith(s.phase.undo, s.phase.op)))
  {
    var after := Effect(s.data, s.phase.op);
    DataWellSized(s);
    assert WellSized(after);
    TailRecovers(after, mid, s.phase.id, ops, left, order);
    LoggedUndo(s);
  }

  lemma {:induction false} LoggedUndo(s: Sys)
    requires Inv(s) && s.phase.Logged?
    ensures Reverted(Effect(s.data, s.phase.op), UndoWith(s.phase.undo, s.phase.op)) == Abstract(s).committed
    ensures Reverted(s.data, s.phase.undo) == Abstract(s).committed
  {
    if !Oversize(s.phase.op) {
      UndoneIsBack(s.data, s.phase.op);
      RevertsOne(Apply(s.data, Redo(s.phase.op)), s.phase.undo, Undo(s.phase.op));
    }
  }

  /** The trees after the writes of an undo list from the last down to the n-th. */
  function UndoneTo(d: Data, undo: seq<Write>, n: nat): Data
    requires n <= |undo|
    decreases |undo|
  {
    if n == |undo| then d else UndoneTo(Apply(d, undo[|undo| - 1]), undo[..|undo| - 1], n)
  }

  lemma {:induction false} UndoneReverts(d: Data, undo: seq<Write>, n: nat)
    requires n <= |undo|
    ensures Reverted(UndoneTo(d, undo, n), undo[..n]) == Reverted(d, undo)
    decreases |undo|
  {
    if n == |undo| {
      assert undo[..n] == undo;
    } else {
      var m := |undo| - 1;
      UndoneReverts(Apply(d, undo[m]), undo[..m], n);
      assert undo[..m][..n] == undo[..n];
    }
  }

  /** What a checkpoint finds: the trees and the undo list of the transaction. */
  ghost predicate Finds(s: Sys, d: Data, undo: seq<Write>) {
    match s.phase
    case Running(_, u) => d == s.data && undo == u
    case Logged(_, u, op) => d == Effect(s.data, op) && undo == UndoWith(u, op)
    case Undoing(_, u) => d == s.data && undo == u
    case _ => false
  }

  lemma {:induction false} FoundReverts(s: Sys, d: Data, undo: seq<Write>)
    requires Inv(s) && Finds(s, d, undo)
    ensures Reverted(d, undo) == Abstract(s).committed
  {
    if s.phase.Logged? {
      LoggedUndo(s);
    }
  }

  /** After the checkpoint the transaction logs ops and then rolls back; the process stops when n of the undo writes
      from before the checkpoint are left. Recovery is right if and only if those n writes give what it gives. */
  lemma {:induction false} LateRollbackCutIff(s: Sys, d: Data, undo: seq<Write>, n: nat, ops: seq<Op>, left: Data,
                                              order: seq<nat>)
    requires Inv(s) && (s.phase.Running? || s.phase.Logged?) && Finds(s, d, undo) && n <= |undo|
    requires ImagedRun(d, ops) && AgreesOff(left, UndoneTo(d, undo, n), ops)
    requires Lists(order, ScanLog(Mutations(s.phase.id, ops)).pending.Keys)
    ensures var r := ApplyAll(left, Writes(ScanLog(Mutations(s.phase.id, ops)), order));
            var mid := UndoneTo(d, undo, n);
            && r == Applied(Mixed(d, mid, ops), true)
            && (r.data == Abstract(s).committed <==> Reverted(mid, undo[..n]) == Mixed(d, mid, ops))
  {
    DataWellSized(s);
    assert WellSized(d);
    TailRecovers(d, UndoneTo(d, undo, n), s.phase.id, ops, left, order);
    FoundReverts(s, d, undo);
    UndoneReverts(d, undo, n);
  }

  /** The log is emptied while the transaction is rolling back, and the process stops when n undo writes are left. There
      is nothing to recover from; the data are right if and only if those n writes would change nothing. */
  lemma {:induction false} LateCheckpointUndoingIff(s: Sys, n: nat)
    requires Inv(s) && s.phase.Undoing? && n <= |s.phase.undo|
    ensures var left := UndoneTo(s.data, s.phase.undo, n);
            var r := ApplyAll(left, Writes(ScanLog([]), []));
            r == Applied(left, true) && (r.data == Abstract(s).committed <==> Reverted(left, s.phase.undo[..n]) == left)
  {
    UndoneReverts(s.data, s.phase.undo, n);
  }

  /** The transaction logged ops after the checkpoint and n undo writes from before it are left when the process
      stops. */
  ghost predicate StopsAt(id: nat, d: Data, undo: seq<Write>, n: nat, ops: seq<Op>, left: Data, order: seq<nat>) {
    && n <= |undo| && ImagedRun(d, ops) && AgreesOff(left, UndoneTo(d, undo, n), ops)
    && Lists(order, ScanLog(Mutations(id, ops)).pending.Keys)
  }

  /** Whatever the transaction does after the checkpoint, short of committing, and wherever the process stops: the
      committed data come back. */
  ghost predicate Harmless(s: Sys, d: Data, undo: seq<Write>)
    requires Inv(s) && (s.phase.Running? || s.phase.Logged?)
  {
    forall n: nat, ops, left, order :: StopsAt(s.phase.id, d, undo, n, ops, left, order) ==>
      ApplyAll(left, Writes(ScanLog(Mutations(s.phase.id, ops)), order)).data == Abstract(s).committed
  }

  ghost predicate ChangesNothing(d: Data, undo: seq<Write>)
  { forall n: nat :: n <= |undo| ==> UndoneTo(d, undo, n) == d }

  /** A checkpoint beside an open transaction is harmless if and only if no write of its undo list would change the
      trees. */
  lemma {:induction false} HarmlessIff(s: Sys, d: Data, undo: seq<Write>)
    requires Inv(s) && (s.phase.Running? || s.phase.Logged?) && Finds(s, d, undo)
    ensures Harmless(s, d, undo) <==> ChangesNothing(d, undo)
  {
    if Harmless(s, d, undo) {
      forall n: nat | n <= |undo| ensures UndoneTo(d, undo, n) == Abstract(s).committed {
        StopsAtOnce(s, d, undo, n);
      }
      assert UndoneTo(d, undo, |undo|) == d;
    }
    if ChangesNothing(d, undo) {
      forall n: nat, ops, left, order | StopsAt(s.phase.id, d, undo, n, ops, left, order)
        ensures ApplyAll(left, Writes(ScanLog(Mutations(s.phase.id, ops)), order)).data == Abstract(s).committed
      {
        ComesBack(s, d, undo, n, ops, left, order);
      }
    }
  }

  lemma {:induction false} StopsAtOnce(s: Sys, d: Data, undo: seq<Write>, n: nat)
    requires Inv(s) && (s.phase.Running? || s.phase.Logged?) && Finds(s, d, undo) && n <= |undo| && Harmless(s, d, undo)
    ensures UndoneTo(d, undo, n) == Abstract(s).committed
  {
    var mid := UndoneTo(d, undo, n);
    ScanTail(s.phase.id, []);
    assert StopsAt(s.phase.id, d, undo, n, [], mid, []);
    LateRollbackCutIff(s, d, undo, n, [], mid, []);
    SameData(Mixed(d, mid, []), mid);
  }

  lemma {:induction false} ComesBack(s: Sys, d: Data, undo: seq<Write>, n: nat, ops: seq<Op>, left: Data,
                                     order: seq<nat>)
    requires Inv(s) && (s.phase.Running? || s.phase.Logged?) && Finds(s, d, undo) && ChangesNothing(d, undo)
    requires StopsAt(s.phase.id, d, undo, n, ops, left, order)
    ensures ApplyAll(left, Writes(ScanLog(Mutations(s.phase.id, ops)), order)).data == Abstract(s).committed
  {
    assert UndoneTo(d, undo, 0) == d;
    UndoneReverts(d, undo, 0);
    FoundReverts(s, d, undo);
    LateRollbackCutIff(s, d, undo, n, ops, left, order);
    SameData(Mixed(d, d, ops), d);
  }

  // ---- The transaction ends after all --------------------------------------

  lemma {:induction false} TailRedone(d: Data, kept: Data, ops: seq<Op>, left: Data)
    requires AgreesOff(left, kept, ops) && forall i :: 0 <= i < |ops| ==> !Oversize(ops[i])
    ensures var r := ApplyAll(left, Redos(ops));
            r.ok && forall l: Loc :: At(r.data, l) == if Touches(ops, l) then At(Effects(d, ops), l) else At(kept, l)
  {
    var r := ApplyAll(left, Redos(ops));
    forall l: Loc ensures r.ok && At(r.data, l) == if Touches(ops, l) then At(Effects(d, ops), l) else At(kept, l) {
      RedoConverges(left, d, ops, l);
      if !Touches(ops, l) {
        RedoFrame(left, ops, l);
      }
    }
    RedoConverges(left, d, ops, SomeLoc());
  }

  /** A commit after a checkpoint between two operations is safe: recovery gives all the transaction did. */
  lemma {:induction false} LateCommit(s: Sys, ops: seq<Op>, left: Data)
    requires Inv(s) && s.phase.Running?
    requires ImagedRun(s.data, ops) && AgreesOff(left, s.data, ops)
    ensures var r := ApplyAll(left, Writes(ScanLog(Mutations(s.phase.id, ops) + [Commit(s.phase.id)]), []));
            && (r.ok <==> forall i :: 0 <= i < |ops| ==> !Oversize(ops[i]))
            && (r.ok ==> r.data == Effects(s.data, ops))
  {
    EndedWrites(s.phase.id, ops);
    var r := ApplyAll(left, Redos(ops));
    RedosOk(left, ops);
    if r.ok {
      CommitRedone(s.data, ops, left);
    }
  }

  lemma {:induction false} RedosOk(left: Data, ops: seq<Op>)
    ensures ApplyAll(left, Redos(ops)).ok <==> forall i :: 0 <= i < |ops| ==> !Oversize(ops[i])
  {
    ApplyAllOk(left, Redos(ops));
    var ws := Redos(ops);
    assert forall i :: 0 <= i < |ops| ==> (Accepted(ws[i]) <==> !Oversize(ops[i]));
  }

  lemma {:induction false} CommitRedone(d: Data, ops: seq<Op>, left: Data)
    requires AgreesOff(left, d, ops) && forall i :: 0 <= i < |ops| ==> !Oversize(ops[i])
    ensures ApplyAll(left, Redos(ops)) == Applied(Effects(d, ops), true)
  {
    TailRedone(d, d, ops, left);
    var r := ApplyAll(left, Redos(ops));
    forall l: Loc ensures At(r.data, l) == At(Effects(d, ops), l) {
      if !Touches(ops, l) {
        EffectsFrame(d, ops, l);
      }
    }
    SameData(r.data, Effects(d, ops));
  }

  /** After a checkpoint between a log record and its operation, a commit keeps that operation if and only if its page
      reached the disk before the crash, a later operation logged the key again, or the operation changed nothing. */
  lemma {:induction false} LateCommitLoggedIff(s: Sys, kept: Data, ops: seq<Op>, left: Data)
    requires Inv(s) && s.phase.Logged? && (kept == s.data || kept == Effect(s.data, s.phase.op))
    requires ImagedRun(Effect(s.data, s.phase.op), ops) && AgreesOff(left, kept, ops)
    ensures var after := Effect(s.data, s.phase.op);
            var r := ApplyAll(left, Writes(ScanLog(Mutations(s.phase.id, ops) + [Commit(s.phase.id)]), []));
            && (r.ok <==> forall i :: 0 <= i < |ops| ==> !Oversize(ops[i]))
            && (r.ok ==> (r.data == Effects(after, ops) <==> kept == after || Touches(ops, LocOf(s.phase.op))))
  {
    EndedWrites(s.phase.id, ops);
    RedosOk(left, ops);
    if ApplyAll(left, Redos(ops)).ok {
      UnloggedRedoneIff(s.data, s.phase.op, kept, ops, left);
    }
  }

  lemma {:induction false} UnloggedRedoneIff(d: Data, op: Op, kept: Data, ops: seq<Op>, left: Data)
    requires (kept == d || kept == Effect(d, op)) && AgreesOff(left, kept, ops) && forall i :: 0 <= i < |ops| ==>
             !Oversize(ops[i])
    ensures ApplyAll(left, Redos(ops)).data == Effects(Effect(d, op), ops) <==>
            kept == Effect(d, op) || Touches(ops, LocOf(op))
  {
    var after := Effect(d, op);
    TailRedone(after, kept, ops, left);
    var r := ApplyAll(left, Redos(ops));
    forall l: Loc ensures !Touches(ops, l) ==> At(Effects(after, ops), l) == At(after, l) {
      if !Touches(ops, l) {
        EffectsFrame(after, ops, l);
      }
    }
    if kept == after || Touches(ops, LocOf(op)) {
      SameData(r.data, Effects(after, ops));
    } else {
      if At(kept, LocOf(op)) == At(after, LocOf(op)) {
        SameData(kept, after);
      }
      assert At(r.data, LocOf(op)) != At(Effects(after, ops), LocOf(op));
    }
  }

  /** The rollback is complete and logged, and n of the undo writes from before the checkpoint did not reach the disk.
      Recovery writes nothing; the data are right if and only if those n writes would change nothing, and so whenever
      all of them did reach it. */
  lemma {:induction false} LateRollbackIff(s: Sys, d: Data, undo: seq<Write>, n: nat, ops: seq<Op>)
    requires Inv(s) && Finds(s, d, undo) && n <= |undo|
    ensures var left := UndoneTo(d, undo, n);
            var r := ApplyAll(left, Writes(ScanLog(Mutations(s.phase.id, ops) + [Rollback(s.phase.id)]), []));
            && r == Applied(left, true)
            && (r.data == Abstract(s).committed <==> Reverted(left, undo[..n]) == left)
            && (n == 0 ==> r.data == Abstract(s).committed)
  {
    EndedWrites(s.phase.id, ops);
    FoundReverts(s, d, undo);
    UndoneReverts(d, undo, n);
  }

  // ---- Two runs ------------------------------------------------------------

  function LateRun(): seq<Event> { [BeginTxn, LogPut(SomeLoc(), [2]), ApplyLogged] }

  lemma {:induction false} LateRunRuns() returns (m: Sys, s: Sys)
    ensures Runs(Created(), LateRun()[..2], m) && m.phase.Logged? && m.phase.undo == [] && m.data == map[]
    ensures Runs(Created(), LateRun(), s) && s.phase.Running? && s.data == map[SomeLoc() := [2]]
    ensures Effect(m.data, m.phase.op) == s.data
  {
    var es := LateRun();
    var s1 := Next(Created(), es[0]);
    m := Next(s1, es[1]);
    s := Next(m, es[2]);
    assert es[1..][1..] == es[2..] && es[2..][1..] == [];
    assert Runs(m, es[2..], s);
    assert Runs(s1, es[1..], s);
    var fs := es[..2];
    assert fs[1..] == [es[1]] && fs[1..][1..] == [];
    assert Runs(m, fs[1..][1..], m);
    assert Runs(s1, fs[1..], m);
  }

  lemma {:induction false} LateRunAbstract()
    ensures AbsRun(Abs(map[], None), LateRun()).committed == map[]
  {
    var es := LateRun();
    var a1 := AbsNext(Abs(map[], None), es[0]);
    var a2 := AbsNext(a1, es[1]);
    assert es[1..][1..] == es[2..] && es[2..][1..] == [];
    assert AbsRun(a2, es[2..]) == AbsRun(AbsNext(a2, es[2]), []);
    assert AbsRun(a1, es[1..]) == AbsRun(a2, es[2..]);
  }

  /** One put, a checkpoint and a crash: the uncommitted value is there after recovery. */
  lemma {:induction false} LateCheckpointKeepsUncommitted() returns (s: Sys)
    ensures Runs(Created(), LateRun(), s) && s.phase.Running? && Inv(s) && Abstract(s).committed == map[]
    ensures ApplyAll(s.data, Writes(ScanLog([]), [])) == Applied(map[SomeLoc() := [2]], true)
  {
    var m;
    m, s := LateRunRuns();
    CreatedOk();
    LateRunAbstract();
    RunRefines(Created(), LateRun(), s);
  }

  /** The same with the checkpoint between the log record and the put, when undoing the transaction would have changed
      nothing. */
  lemma {:induction false} LateCheckpointKeepsUnlogged() returns (m: Sys)
    ensures Runs(Created(), LateRun()[..2], m) && m.phase.Logged? && Inv(m) && Abstract(m).committed == map[]
    ensures Reverted(m.data, m.phase.undo) == m.data == map[]
    ensures var left := Effect(m.data, m.phase.op);
            ApplyAll(left, Writes(ScanLog([]), [])) == Applied(map[SomeLoc() := [2]], true)
  {
    var s;
    m, s := LateRunRuns();
    CreatedOk();
    RunRefines(Created(), LateRun()[..2], m);
    FoundReverts(m, Effect(m.data, m.phase.op), UndoWith(m.phase.undo, m.phase.op));
  }

  /** There the transaction commits, and its commit record is all the log holds. If the page of the put did not reach
      the disk, the committed value is lost. */
  lemma {:induction false} LateCommitLosesUnlogged() returns (m: Sys)
    ensures Runs(Created(), LateRun()[..2], m) && m.phase.Logged? && Inv(m)
    ensures Effect(m.data, m.phase.op) == map[SomeLoc() := [2]]
    ensures ApplyAll(m.data, Writes(ScanLog([Commit(m.phase.id)]), [])) == Applied(map[], true)
  {
    m := LateCheckpointKeepsUnlogged();
    EndedWrites(m.phase.id, []);
    assert Mutations(m.phase.id, []) + [Commit(m.phase.id)] == [Commit(m.phase.id)];
  }

  /** A put and the delete of its key: undoing them changes nothing in the end, but does on the way. */
  function PutDelete(): seq<Event> { [BeginTxn, LogPut(SomeLoc(), [1]), ApplyLogged, LogDelete(SomeLoc()),
                                      ApplyLogged] }

  lemma {:induction false} PutDeleteRuns() returns (s: Sys)
    ensures Runs(Created(), PutDelete(), s) && Inv(s) && s.data == map[] && s.phase.Running? && s.nextId == 1
    ensures s.phase.undo == [Write(SomeLoc(), None), Write(SomeLoc(), Some([1]))]
    ensures Abstract(s).committed == map[] == Reverted(s.data, s.phase.undo)
  {
    var es, l := PutDelete(), SomeLoc();
    var s1 := Next(Created(), es[0]);
    var s2 := Next(s1, es[1]);
    var s3 := Next(s2, es[2]);
    assert s3.data == map[l := [1]] && s3.phase == Running(1, [Write(l, None)]);
    var s4 := Next(s3, es[3]);
    s := Next(s4, es[4]);
    assert s.data == map[] && s.phase == Running(1, [Write(l, None), Write(l, Some([1]))]);
    assert es[1..][1..] == es[2..] && es[2..][1..] == es[3..] && es[3..][1..] == es[4..] && es[4..][1..] == [];
    assert Runs(s4, es[4..], s);
    assert Runs(s3, es[3..], s);
    assert Runs(s2, es[2..], s);
    assert Runs(s1, es[1..], s);
    PutDeleteReverts(l, s.phase.undo);
    CreatedOk();
    RunRefines(Created(), es, s);
    FoundReverts(s, s.data, s.phase.undo);
  }

  lemma {:induction false} PutDeleteReverts(l: Loc, undo: seq<Write>)
    requires undo == [Write(l, None), Write(l, Some([1]))]
    ensures UndoneTo(map[], undo, 1) == map[l := [1]] && Reverted(map[], undo) == map[]
  {
    assert undo[..1] == [undo[0]] && undo[..1][..0] == [];
    assert UndoneTo(Apply(map[], undo[1]), undo[..1], 1) == map[l := [1]];
    assert Reverted(map[l := [1]], undo[..1]) == Reverted(map[], []);
  }

  /** A checkpoint after them, a rollback that is cut off after its first write, and a crash: although undoing the
      transaction at the checkpoint gives the committed data, recovery keeps a value that was never committed. */
  lemma {:induction false} CutRollbackKeepsUncommitted() returns (s: Sys)
    ensures Runs(Created(), PutDelete(), s) && Inv(s) && s.phase.Running?
    ensures Reverted(s.data, s.phase.undo) == s.data == Abstract(s).committed == map[]
    ensures |s.phase.undo| == 2
    ensures ApplyAll(UndoneTo(s.data, s.phase.undo, 1), Writes(ScanLog([]), [])) == Applied(map[SomeLoc() := [1]], true)
  {
    s := PutDeleteRuns();
    PutDeleteReverts(SomeLoc(), s.phase.undo);
  }
}
