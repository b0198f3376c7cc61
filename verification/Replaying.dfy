/** `Replay` as it runs: one pass over the log that redoes commits as it meets them, then the undo of what is left. */
module Replaying {
  import opened Bytes
  import opened Entries
  import opened WalRecords
  import opened Recovery
  import opened TxnMachine
  import opened Transactions

  method RedoAll(d: Data, ops: seq<Op>) returns (r: Applied)
    ensures r == ApplyAll(d, Redos(ops))
  {
    var data := d;
    var i := 0;
    assert Redos(ops)[0..] == Redos(ops);
    while i < |ops|
      invariant 0 <= i <= |ops|
      invariant ApplyAll(d, Redos(ops)) == ApplyAll(data, Redos(ops)[i..])
    {
      assert Redos(ops)[i..][1..] == Redos(ops)[i + 1..];
      if !Accepted(Redo(ops[i])) {
        return Applied(data, false);
      }
      data := Apply(data, Redo(ops[i]));
      i := i + 1;
    }
    return Applied(data, true);
  }

  method UndoAll(d: Data, ops: seq<Op>) returns (r: Applied)
    ensures r == ApplyAll(d, Undos(ops))
  {
    var data := d;
    var i := |ops|;
    ghost var ws := Undos(ops);
    assert ws[0..] == ws;
    while i > 0
      invariant 0 <= i <= |ops|
      invariant ApplyAll(d, ws) == ApplyAll(data, ws[|ops| - i..])
    {
      i := i - 1;
      assert ws[|ops| - i - 1..][1..] == ws[|ops| - i..] && ws[|ops| - i - 1] == Undo(ops[i]);
      if !Accepted(Undo(ops[i])) {
        return Applied(data, false);
      }
      data := Apply(data, Undo(ops[i]));
    }
    return Applied(data, true);
  }

  /** What the scan has written is the start of all it will write. */
  lemma {:induction false} RedoneGrows(log: seq<Record>, n: nat)
    requires n <= |log|
    ensures ScanLog(log[..n]).redone <= ScanLog(log).redone
    decreases |log|
  {
    if n == |log| {
      assert log[..n] == log;
    } else {
      var m := |log| - 1;
      RedoneGrows(log[..m], n);
      assert log[..m][..n] == log[..n];
    }
  }

  /** Once a write is refused, nothing after it is made. */
  lemma {:induction false} Stuck(d: Data, a: seq<Write>, b: seq<Write>)
    requires a <= b && !ApplyAll(d, a).ok
    ensures ApplyAll(d, b) == ApplyAll(d, a)
  {
    assert b == a + b[|a|..];
    ApplyAllConcat(d, a, b[|a|..]);
  }

  /** A possible result of replaying a log: the unfinished transactions may be undone in any order. */
  ghost predicate ReplayedBy(d: Data, log: seq<Record>, order: seq<nat>, r: Applied) {
    && Lists(order, ScanLog(log).pending.Keys)
    && r == ApplyAll(d, ScanLog(log).redone + UndosOf(ScanLog(log).pending, order))
  }

  method RedoCommitted(d: Data, log: seq<Record>) returns (r: Applied, pending: map<nat, seq<Op>>)
    ensures r == ApplyAll(d, ScanLog(log).redone)
    ensures r.ok ==> pending == ScanLog(log).pending
  {
    r := Applied(d, true);
    pending := map[];
    var i := 0;
    while i < |log|
      invariant 0 <= i <= |log| && r.ok
      invariant r == ApplyAll(d, ScanLog(log[..i]).redone)
      invariant pending == ScanLog(log[..i]).pending
    {
      ghost var c := ScanLog(log[..i]);
      assert log[..i + 1][..i] == log[..i];
      assert ScanLog(log[..i + 1]) == ScanStep(c, log[i]);
      match log[i] {
        case Begin(_) =>
        case Mutation(id, op) => pending := pending[id := OpsAt(pending, id) + [op]];
        case Rollback(id) => pending := pending - {id};
        case Commit(id) =>
          ApplyAllConcat(d, c.redone, Redos(OpsAt(pending, id)));
          r := RedoAll(r.data, OpsAt(pending, id));
          if !r.ok {
            RedoneGrows(log, i + 1);
            Stuck(d, ScanLog(log[..i + 1]).redone, ScanLog(log).redone);
            return;
          }
          pending := pending - {id};
      }
      i := i + 1;
    }
    assert log[..i] == log;
  }

  lemma {:induction false} SomeOrder(ids: set<nat>) returns (order: seq<nat>)
    ensures Lists(order, ids)
    decreases |ids|
  {
    if ids == {} {
      order := [];
    } else {
      var id :| id in ids;
      var rest := SomeOrder(ids - {id});
      order := rest + [id];
      assert ids == (ids - {id}) + {id};
    }
  }

  lemma {:induction false} OneMoreUndone(d: Data, redone: seq<Write>, pending: map<nat, seq<Op>>, order: seq<nat>,
                                         ids: set<nat>, id: nat)
    requires Lists(order, ids) && id in pending && id !in ids
    ensures Lists(order + [id], ids + {id})
    ensures var a := ApplyAll(d, redone + UndosOf(pending, order));
            ApplyAll(d, redone + UndosOf(pending, order + [id])) == if a.ok then ApplyAll(a.data, Undos(pending[id]))
              else a
  {
    var more := order + [id];
    assert more[..|order|] == order;
    assert multiset(more) == multiset(order) + multiset{id} == multiset(ids + {id});
    Assoc(redone, UndosOf(pending, order), Undos(pending[id]));
    ApplyAllConcat(d, redone + UndosOf(pending, order), Undos(pending[id]));
  }

  /** All that was pending has been undone but for these transactions. */
  ghost predicate UndoneBut(d: Data, log: seq<Record>, left: set<nat>, order: seq<nat>, r: Applied) {
    var c := ScanLog(log);
    left <= c.pending.Keys && Lists(order, c.pending.Keys - left)
      && r == ApplyAll(d, c.redone + UndosOf(c.pending, order))
  }

  lemma {:induction false} UndoneNext(d: Data, log: seq<Record>, left: set<nat>, order: seq<nat>, id: nat, r: Applied,
                                      r': Applied)
    requires UndoneBut(d, log, left, order, r) && r.ok && id in left
    requires r' == ApplyAll(r.data, Undos(ScanLog(log).pending[id]))
    ensures UndoneBut(d, log, left - {id}, order + [id], r')
  {
    var c := ScanLog(log);
    OneMoreUndone(d, c.redone, c.pending, order, c.pending.Keys - left, id);
    assert c.pending.Keys - (left - {id}) == (c.pending.Keys - left) + {id};
  }

  /** The second pass: what is still pending is undone, one transaction after another. */
  method UndoPending(ghost d: Data, ghost log: seq<Record>, redone: Applied, pending: map<nat, seq<Op>>)
    returns (r: Applied)
    requires redone.ok && redone == ApplyAll(d, ScanLog(log).redone) && pending == ScanLog(log).pending
    ensures exists order :: ReplayedBy(d, log, order, r)
  {
    ghost var order := [];
    var left := pending.Keys;
    r := redone;
    assert ScanLog(log).redone + [] == ScanLog(log).redone;
    while left != {}
      invariant r.ok && UndoneBut(d, log, left, order, r)
      decreases |left|
    {
      var id :| id in left;
      ghost var before := r;
      r := UndoAll(r.data, pending[id]);
      UndoneNext(d, log, left, order, id, before, r);
      left, order := left - {id}, order + [id];
      if !r.ok {
        StuckUndo(d, log, order, left, r);
        return;
      }
    }
    assert ReplayedBy(d, log, order, r);
  }

  /** The log is replayed onto the trees, up to the first write that a tree refuses. */
  method Replay(d: Data, log: seq<Record>) returns (r: Applied)
    ensures exists order :: ReplayedBy(d, log, order, r)
  {
    var pending;
    r, pending := RedoCommitted(d, log);
    if r.ok {
      r := UndoPending(d, log, r, pending);
    } else {
      ghost var c := ScanLog(log);
      ghost var order := SomeOrder(c.pending.Keys);
      Stuck(d, c.redone, c.redone + UndosOf(c.pending, order));
      assert ReplayedBy(d, log, order, r);
    }
  }

  lemma {:induction false} UndosOfConcat(p: map<nat, seq<Op>>, a: seq<nat>, b: seq<nat>)
    ensures UndosOf(p, a) <= UndosOf(p, a + b)
    decreases |b|
  {
    if |b| == 0 {
      assert a + b == a;
    } else {
      var n := |b| - 1;
      UndosOfConcat(p, a, b[..n]);
      assert (a + b)[..|a + b| - 1] == a + b[..n];
    }
  }

  lemma {:induction false} StuckUndo(d: Data, log: seq<Record>, order: seq<nat>, left: set<nat>, r: Applied)
    requires left <= ScanLog(log).pending.Keys && Lists(order, ScanLog(log).pending.Keys - left)
    requires r == ApplyAll(d, ScanLog(log).redone + UndosOf(ScanLog(log).pending, order)) && !r.ok
    ensures exists all :: ReplayedBy(d, log, all, r)
  {
    var c := ScanLog(log);
    var rest := SomeOrder(left);
    var all := order + rest;
    assert c.pending.Keys == (c.pending.Keys - left) + left;
    UndosOfConcat(c.pending, order, rest);
    Stuck(d, c.redone + UndosOf(c.pending, order), c.redone + UndosOf(c.pending, all));
    assert ReplayedBy(d, log, all, r);
  }

  // ---- Opening a store -----------------------------------------------------

  lemma {:induction false} ReplayRuns(s: Sys, t: Sys)
    requires Inv(s) && s.phase.Recovering? && ApplyAll(s.data, s.phase.todo).ok
    requires t == s.(data := ApplyAll(s.data, s.phase.todo).data, phase := Recovering([]))
    ensures exists es :: Runs(s, es, t)
    decreases |s.phase.todo|
  {
    if |s.phase.todo| == 0 {
      assert Runs(s, [], t);
    } else {
      RecoverKeeps(s);
      var u := Next(s, RecoverOne);
      ReplayRuns(u, t);
      var es :| Runs(u, es, t);
      assert ([RecoverOne] + es)[1..] == es;
      assert Runs(s, [RecoverOne] + es, t);
    }
  }

  /** Opening what a crash left behind. It succeeds exactly when no committed operation is oversize; the
      store then holds the committed data and an empty log, and got there by the recovery steps. */
  method Open(targets: set<Bytes>, disk: Data, log: seq<Record>, ghost past: Past, ghost s: Sys)
    returns (r: Option<Store>)
    requires Reached(past, s) && s.phase.Down? && s.data == disk && s.log == log
    ensures r.Some? <==> NoOversizeCommit(log)
    ensures r.Some? ==> fresh(r.value) && r.value.Valid() && !r.value.locked && r.value.targets == targets
    ensures r.Some? ==> r.value.data == r.value.Committed() == CommittedBy(past.events) && r.value.log == []
    ensures r.Some? ==> past.events <= r.value.past.events
  {
    var a := Replay(disk, log);
    ghost var order :| ReplayedBy(disk, log, order, a);
    ReplayOutcome(past, s, order, a);
    if !a.ok {
      return None;
    }
    ghost var q := OpenedBy(past, s, order, a);
    var store := new Store(targets, a.data, q);
    return Some(store);
  }

  lemma {:induction false} ReplayOutcome(past: Past, s: Sys, order: seq<nat>, a: Applied)
    requires Reached(past, s) && s.phase.Down? && ReplayedBy(s.data, s.log, order, a)
    ensures (a.ok <==> NoOversizeCommit(s.log)) && (a.ok ==> a.data == CommittedBy(past.events))
  {
    ReachedOk(past, s);
    UndoOrderIrrelevant(s.base, s.log, order);
    RecoveryCorrectIff(s.base, s.log, s.data);
    LogTells(s.base, s.log);
  }

  lemma {:induction false} ReachedOn(past: Past, s: Sys, es: seq<Event>, t: Sys) returns (q: Past)
    requires Reached(past, s) && Runs(s, es, t)
    ensures Reached(q, t) && past.events <= q.events
    decreases |es|
  {
    if |es| == 0 {
      q := past;
    } else {
      ReachedThen(past, s, es[0]);
      q := ReachedOn(Then(past, es[0], Next(s, es[0])), Next(s, es[0]), es[1..], t);
    }
  }

  lemma {:induction false} OpenedBy(past: Past, s: Sys, order: seq<nat>, a: Applied) returns (q: Past)
    requires Reached(past, s) && s.phase.Down? && ReplayedBy(s.data, s.log, order, a) && a.ok
    ensures Reached(q, Sys(a.data, [], a.data, Idle, 0)) && CommittedBy(q.events) == a.data && past.events <= q.events
  {
    ReachedOk(past, s);
    var t := OpenedState(s, order, a);
    var es :| Runs(s, es, t);
    q := ReachedOn(past, s, es, t);
    ReachedOk(q, t);
  }

  lemma {:induction false} OpenedState(s: Sys, order: seq<nat>, a: Applied) returns (t: Sys)
    requires Inv(s) && s.phase.Down? && ReplayedBy(s.data, s.log, order, a) && a.ok
    ensures t == Sys(a.data, [], a.data, Idle, 0)
    ensures exists es :: Runs(s, es, t)
  {
    var u := Next(s, StartRecovery(order));
    StartRecoveryKeeps(s, order);
    var v := u.(data := a.data, phase := Recovering([]));
    ReplayRuns(u, v);
    var es :| Runs(u, es, v);
    t := Next(v, FinishRecovery);
    RunsSnoc(u, es, v, FinishRecovery);
    assert ([StartRecovery(order)] + (es + [FinishRecovery]))[1..] == es + [FinishRecovery];
    assert Runs(s, [StartRecovery(order)] + (es + [FinishRecovery]), t);
  }
}
