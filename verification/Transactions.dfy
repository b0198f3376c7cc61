/** `Store` and `Txn`. Every durable write adds an event to the store's history, so the events a method adds name
    all its crash points. */
module Transactions {
  import opened Bytes
  import opened Entries
  import opened Pages
  import opened WalRecords
  import opened Recovery
  import opened TxnMachine

  datatype Error = UnknownTarget | TooLarge | KeyNotFound

  // ---- Histories -----------------------------------------------------------

  lemma {:induction false} RunsSnoc(s: Sys, es: seq<Event>, t: Sys, e: Event)
    requires Runs(s, es, t) && Enabled(t, e)
    ensures Runs(s, es + [e], Next(t, e))
    decreases |es|
  {
    if |es| == 0 {
      assert es + [e] == [e];
      assert Runs(Next(t, e), [], Next(t, e));
    } else {
      assert (es + [e])[1..] == es[1..] + [e];
      RunsSnoc(Next(s, es[0]), es[1..], t, e);
    }
  }

  lemma {:induction false} AbsRunSnoc(a: Abs, es: seq<Event>, e: Event)
    ensures AbsRun(a, es + [e]) == AbsNext(AbsRun(a, es), e)
    decreases |es|
  {
    if |es| == 0 {
      assert es + [e] == [e];
      assert AbsRun(AbsNext(a, e), []) == AbsNext(a, e);
    } else {
      assert (es + [e])[1..] == es[1..] + [e];
      AbsRunSnoc(AbsNext(a, es[0]), es[1..], e);
    }
  }

  /** The states a run passes through, one more than its events. */
  ghost predicate StepAt(ss: seq<Sys>, es: seq<Event>, i: nat)
    requires i < |es| && |ss| == |es| + 1
  {
    Enabled(ss[i], es[i]) && ss[i + 1] == Next(ss[i], es[i])
  }

  ghost predicate IsRun(ss: seq<Sys>, es: seq<Event>) {
    |ss| == |es| + 1 && forall i :: 0 <= i < |es| ==> StepAt(ss, es, i)
  }

  /** What a store has been through since the database was created. */
  datatype Past = Past(events: seq<Event>, states: seq<Sys>)

  /** These events lead from an empty database to s. */
  ghost predicate Reached(p: Past, s: Sys) {
    IsRun(p.states, p.events) && p.states[0] == Created() && p.states[|p.events|] == s
  }

  ghost function Then(p: Past, e: Event, s: Sys): Past { Past(p.events + [e], p.states + [s]) }

  lemma {:induction false} ReachedThen(p: Past, s: Sys, e: Event)
    requires Reached(p, s) && Enabled(s, e)
    ensures Reached(Then(p, e, Next(s, e)), Next(s, e))
  {
    var q := Then(p, e, Next(s, e));
    forall i | 0 <= i < |q.events| ensures StepAt(q.states, q.events, i) {
      if i < |p.events| {
        assert StepAt(p.states, p.events, i);
      }
    }
  }

  lemma {:induction false} RunOfStates(ss: seq<Sys>, es: seq<Event>)
    requires IsRun(ss, es)
    ensures Runs(ss[0], es, ss[|es|])
    decreases |es|
  {
    if |es| != 0 {
      assert StepAt(ss, es, 0);
      forall i | 0 <= i < |es| - 1 ensures StepAt(ss[1..], es[1..], i) {
        assert StepAt(ss, es, i + 1);
      }
      RunOfStates(ss[1..], es[1..]);
    }
  }

  /** What the transactions that committed in a history did. */
  ghost function CommittedBy(es: seq<Event>): Data { AbsRun(Abs(map[], None), es).committed }

  /** What holds in every state that can be reached. */
  lemma {:induction false} ReachedOk(p: Past, s: Sys)
    requires Reached(p, s)
    ensures Inv(s) && Abstract(s).committed == CommittedBy(p.events)
    ensures s.phase.Idle? ==> s.data == CommittedBy(p.events)
    ensures s.phase.Running? ==> AbsRun(Abs(map[], None), p.events).view == Some(s.data)
  {
    RunOfStates(p.states, p.events);
    CreatedOk();
    RunRefines(Created(), p.events, s);
  }

  lemma {:induction false} BeginReached(p: Past, s: Sys)
    requires Reached(p, s) && s.phase.Idle?
    ensures var id := s.nextId + 1;
            var t := Sys(s.data, s.log + [Begin(id)], s.base, Running(id, []), id);
            Reached(Then(p, BeginTxn, t), t) && CommittedBy(p.events + [BeginTxn]) == CommittedBy(p.events) == s.data
  {
    ReachedThen(p, s, BeginTxn);
    AbsRunSnoc(Abs(map[], None), p.events, BeginTxn);
    ReachedOk(p, s);
  }

  /** The state after logging one mutation, and after making it. */
  function LoggedState(s: Sys, op: Op): Sys
    requires s.phase.Running?
  {
    s.(log := s.log + [Mutation(s.phase.id, op)], phase := Logged(s.phase.id, s.phase.undo, op))
  }

  function Mutated(s: Sys, op: Op): Sys
    requires s.phase.Running?
  {
    var log := s.log + [Mutation(s.phase.id, op)];
    if Oversize(op) then s.(log := log)
    else s.(data := Apply(s.data, Redo(op)), log := log, phase := Running(s.phase.id, s.phase.undo + [Undo(op)]))
  }

  ghost function ThenMutated(p: Past, e: Event, s: Sys, op: Op): Past
    requires s.phase.Running?
  {
    Then(Then(p, e, LoggedState(s, op)), ApplyLogged, Mutated(s, op))
  }

  lemma {:induction false} MutationReached(p: Past, s: Sys, e: Event, op: Op)
    requires Reached(p, s) && s.phase.Running? && Enabled(s, e)
    requires (e.LogPut? && op == OpFor(s.data, true, e.at, e.val))
             || (e.LogDelete? && op == OpFor(s.data, false, e.at, []))
    ensures Reached(ThenMutated(p, e, s, op), Mutated(s, op))
    ensures ThenMutated(p, e, s, op).events == p.events + [e, ApplyLogged]
    ensures CommittedBy(p.events + [e, ApplyLogged]) == CommittedBy(p.events)
  {
    assert p.events + [e, ApplyLogged] == (p.events + [e]) + [ApplyLogged];
    ReachedThen(p, s, e);
    assert Next(s, e) == LoggedState(s, op);
    ReachedThen(Then(p, e, LoggedState(s, op)), LoggedState(s, op), ApplyLogged);
    assert Next(LoggedState(s, op), ApplyLogged) == Mutated(s, op);
    AbsRunSnoc(Abs(map[], None), p.events, e);
    AbsRunSnoc(Abs(map[], None), p.events + [e], ApplyLogged);
  }

  lemma {:induction false} CommitReached(p: Past, s: Sys)
    requires Reached(p, s) && s.phase.Running?
    ensures var t := s.(log := s.log + [Commit(s.phase.id)], phase := Idle); Reached(Then(p, CommitTxn, t), t)
    ensures CommittedBy(p.events + [CommitTxn]) == s.data
  {
    ReachedThen(p, s, CommitTxn);
    AbsRunSnoc(Abs(map[], None), p.events, CommitTxn);
    ReachedOk(p, s);
  }

  function Undoings(n: nat): seq<Event> { seq(n, _ => UndoOne) }

  function RollbackRun(n: nat): seq<Event> { [StartRollback] + Undoings(n) + [FinishRollback] }

  lemma {:induction false} StartReached(p: Past, s: Sys)
    requires Reached(p, s) && s.phase.Running?
    ensures var t := s.(phase := Undoing(s.phase.id, s.phase.undo)); Reached(Then(p, StartRollback, t), t)
    ensures CommittedBy(p.events + [StartRollback]) == CommittedBy(p.events)
  {
    ReachedThen(p, s, StartRollback);
    AbsRunSnoc(Abs(map[], None), p.events, StartRollback);
  }

  /** The state after undoing the last write that is left. */
  function Undone(s: Sys): Sys
    requires s.phase.Undoing? && s.phase.undo != []
  {
    var n := |s.phase.undo| - 1;
    s.(data := Apply(s.data, s.phase.undo[n]), phase := Undoing(s.phase.id, s.phase.undo[..n]))
  }

  lemma {:induction false} UndoReached(p: Past, s: Sys)
    requires Reached(p, s) && s.phase.Undoing? && s.phase.undo != []
    ensures Reached(Then(p, UndoOne, Undone(s)), Undone(s))
            && CommittedBy(p.events + [UndoOne]) == CommittedBy(p.events)
  {
    ReachedOk(p, s);
    UndoKeeps(s);
    ReachedThen(p, s, UndoOne);
    AbsRunSnoc(Abs(map[], None), p.events, UndoOne);
  }

  lemma {:induction false} RollbackReached(p: Past, s: Sys)
    requires Reached(p, s) && s.phase.Undoing? && s.phase.undo == []
    ensures var t := s.(log := s.log + [Rollback(s.phase.id)], phase := Idle); Reached(Then(p, FinishRollback, t), t)
    ensures s.data == CommittedBy(p.events + [FinishRollback]) == CommittedBy(p.events)
  {
    ReachedThen(p, s, FinishRollback);
    AbsRunSnoc(Abs(map[], None), p.events, FinishRollback);
    ReachedOk(Then(p, FinishRollback, Next(s, FinishRollback)), Next(s, FinishRollback));
  }

  lemma {:induction false} CheckpointReached(p: Past, s: Sys)
    requires Reached(p, s) && s.phase.Idle?
    ensures var t := s.(base := s.data, log := []); Reached(Then(p, TakeCheckpoint, t), t)
    ensures CommittedBy(p.events + [TakeCheckpoint]) == CommittedBy(p.events)
  {
    ReachedThen(p, s, TakeCheckpoint);
    AbsRunSnoc(Abs(map[], None), p.events, TakeCheckpoint);
  }

  // ---- The store -----------------------------------------------------------

  class Store {
    /** The trees the catalog knows. */
    const targets: set<Bytes>
    var locked: bool
    var nextTxnID: nat
    var data: Data
    var log: seq<Record>
    var writesSinceCheckpoint: nat
    ghost var past: Past
    ghost var state: Sys
    ghost var holder: Txn?

    ghost predicate Valid()
      reads this
    {
      && Reached(past, state)
      && state.data == data && state.log == log && state.nextId == nextTxnID
      && (locked <==> holder != null)
      && if locked then state.phase.Running? else state.phase.Idle?
    }

    /** What the committed transactions did. */
    ghost function Committed(): Data
      reads this
    {
      CommittedBy(past.events)
    }

    constructor (targets: set<Bytes>, data: Data, ghost past: Past)
      requires Reached(past, Sys(data, [], data, Idle, 0))
      ensures Valid() && !locked && this.data == data && this.targets == targets && log == [] && this.past == past
    {
      this.targets, this.data, this.past, state := targets, data, past, Sys(data, [], data, Idle, 0);
      locked, nextTxnID, log, writesSinceCheckpoint, holder := false, 0, [], 0, null;
    }

    /** The source blocks until the lock is free; the transaction starts from the committed data. */
    method Begin() returns (t: Txn)
      requires Valid() && !locked
      modifies this
      ensures fresh(t) && t.store == this && t.Valid() && !t.done && t.undo == [] && locked && holder == t
      ensures data == old(data) == Committed() == old(Committed()) && past.events == old(past.events) + [BeginTxn]
      ensures writesSinceCheckpoint == old(writesSinceCheckpoint)
    {
      BeginReached(past, state);
      locked := true;
      nextTxnID := nextTxnID + 1;
      log := log + [Record.Begin(nextTxnID)];
      state := Sys(data, log, state.base, Running(nextTxnID, []), nextTxnID);
      past := Then(past, BeginTxn, state);
      t := new Txn(this, nextTxnID);
      holder := t;
    }

    /** The log is emptied once enough writes have piled up. This takes no lock: with a transaction open it
        breaks the invariant (`LateCheckpoints.LateCheckpointIff`). */
    method MaybeCheckpoint(threshold: nat)
      requires Valid()
      modifies this`log, this`writesSinceCheckpoint, this`state, this`past
      ensures old(writesSinceCheckpoint) < threshold ==>
                log == old(log) && state == old(state) && writesSinceCheckpoint == old(writesSinceCheckpoint)
      ensures old(writesSinceCheckpoint) >= threshold ==>
                log == [] && state == old(state).(base := data, log := []) && writesSinceCheckpoint == 0
      ensures !locked ==> Valid() && Committed() == old(Committed())
    {
      if writesSinceCheckpoint < threshold {
        return;
      }
      if !locked {
        CheckpointReached(past, state);
        past := Then(past, TakeCheckpoint, state.(base := data, log := []));
      }
      log := [];
      state := state.(base := data, log := []);
      writesSinceCheckpoint := 0;
    }
  }

  class Txn {
    const store: Store
    const id: nat
    var undo: seq<Write>
    var done: bool

    /** The transaction that holds the lock is the one that is not done. */
    ghost predicate Valid()
      reads this, store
    {
      && store.Valid()
      && (!done <==> store.holder == this)
      && (!done ==> store.state.phase == Running(id, undo))
    }

    constructor (store: Store, id: nat)
      ensures this.store == store && this.id == id && undo == [] && !done
    {
      this.store, this.id, undo, done := store, id, [], false;
    }

    /** Logs the mutation, then makes it. A put that the tree refuses has been logged all the same. */
    method Put(target: Bytes, key: Bytes, val: Bytes) returns (err: Option<Error>)
      requires Valid() && !done
      modifies this`undo, store`data, store`log, store`state, store`past
      ensures Valid() && store.Committed() == old(store.Committed())
      ensures err == if target !in store.targets then Some(UnknownTarget)
                     else if |key| > MAX_KEY_VALUE || |val| > MAX_KEY_VALUE then Some(TooLarge) else None
      ensures store.data == if err.None? then old(store.data)[Loc(target, key) := val] else old(store.data)
      ensures store.past.events == if err == Some(UnknownTarget) then old(store.past.events)
                               else old(store.past.events) + [LogPut(Loc(target, key), val), ApplyLogged]
    {
      if target !in store.targets {
        return Some(UnknownTarget);
      }
      var l := Loc(target, key);
      var op := OpFor(store.data, true, l, val);
      MutationReached(store.past, store.state, LogPut(l, val), op);
      store.log := store.log + [Mutation(id, op)];
      store.past := ThenMutated(store.past, LogPut(l, val), store.state, op);
      store.state := Mutated(store.state, op);
      if |key| > MAX_KEY_VALUE || |val| > MAX_KEY_VALUE {
        return Some(TooLarge);
      }
      store.data := store.data[l := val];
      undo := undo + [Undo(op)];
      return None;
    }

    /** Only a key that is there can be deleted. */
    method Delete(target: Bytes, key: Bytes) returns (err: Option<Error>)
      requires Valid() && !done
      modifies this`undo, store`data, store`log, store`state, store`past
      ensures Valid() && store.Committed() == old(store.Committed())
      ensures err == if target !in store.targets then Some(UnknownTarget)
                     else if Loc(target, key) !in old(store.data) then Some(KeyNotFound) else None
      ensures store.data == if err.None? then old(store.data) - {Loc(target, key)} else old(store.data)
      ensures store.past.events == if err.Some? then old(store.past.events)
                               else old(store.past.events) + [LogDelete(Loc(target, key)), ApplyLogged]
    {
      if target !in store.targets {
        return Some(UnknownTarget);
      }
      var l := Loc(target, key);
      if l !in store.data {
        return Some(KeyNotFound);
      }
      var op := OpFor(store.data, false, l, []);
      MutationReached(store.past, store.state, LogDelete(l), op);
      store.log := store.log + [Mutation(id, op)];
      store.past := ThenMutated(store.past, LogDelete(l), store.state, op);
      store.state := Mutated(store.state, op);
      store.data := store.data - {l};
      undo := undo + [Undo(op)];
      return None;
    }

    /** Reads see the transaction's own writes. */
    method Get(target: Bytes, key: Bytes) returns (val: Option<Bytes>, err: Option<Error>)
      requires Valid()
      ensures err == if target !in store.targets then Some(UnknownTarget)
                     else if Loc(target, key) !in store.data then Some(KeyNotFound) else None
      ensures val == if err.None? then At(store.data, Loc(target, key)) else None
    {
      if target !in store.targets {
        return None, Some(UnknownTarget);
      }
      if Loc(target, key) !in store.data {
        return None, Some(KeyNotFound);
      }
      return Some(store.data[Loc(target, key)]), None;
    }

    /** What the transaction wrote is now the committed data; a second call does nothing. */
    method Commit()
      requires Valid()
      modifies this`done, store
      ensures Valid() && done && store.data == old(store.data)
      ensures old(done) ==> unchanged(store)
      ensures !old(done) ==>
                && !store.locked && store.Committed() == store.data
                && store.writesSinceCheckpoint == old(store.writesSinceCheckpoint) + |undo|
                && store.past.events == old(store.past.events) + [CommitTxn]
    {
      if done {
        return;
      }
      CommitReached(store.past, store.state);
      done := true;
      store.log := store.log + [Record.Commit(id)];
      store.state := store.state.(log := store.log, phase := Idle);
      store.past := Then(store.past, CommitTxn, store.state);
      store.writesSinceCheckpoint := store.writesSinceCheckpoint + |undo|;
      store.locked := false;
      store.holder := null;
    }

    /** Every tree is back at what it held when the transaction began. */
    method Rollback()
      requires Valid()
      modifies this`done, store
      ensures Valid() && done
      ensures old(done) ==> unchanged(store)
      ensures !old(done) ==>
                && !store.locked && store.data == store.Committed() == old(store.Committed())
                && store.past.events == old(store.past.events) + RollbackRun(|undo|)
    {
      if done {
        return;
      }
      done := true;
      StartReached(store.past, store.state);
      store.state := store.state.(phase := Undoing(id, undo));
      store.past := Then(store.past, StartRollback, store.state);
      UndoWrites();
      RollbackReached(store.past, store.state);
      store.log := store.log + [Record.Rollback(id)];
      store.state := store.state.(log := store.log, phase := Idle);
      store.past := Then(store.past, FinishRollback, store.state);
      store.locked := false;
      store.holder := null;
    }

    /** The undo loop, most recent write first. */
    method UndoWrites()
      requires Reached(store.past, store.state) && store.state.phase == Undoing(id, undo)
               && store.state.data == store.data
      modifies store`data, store`state, store`past
      ensures Reached(store.past, store.state) && store.Committed() == old(store.Committed())
      ensures store.state == old(store.state).(data := store.data, phase := Undoing(id, []))
      ensures store.past.events == old(store.past.events) + Undoings(|undo|)
    {
      var i := |undo|;
      assert undo[..i] == undo;
      while i > 0
        invariant 0 <= i <= |undo| && Reached(store.past, store.state) && store.Committed() == old(store.Committed())
        invariant store.state == old(store.state).(data := store.data, phase := Undoing(id, undo[..i]))
        invariant store.past.events == old(store.past.events) + Undoings(|undo| - i)
      {
        i := i - 1;
        UndoReached(store.past, store.state);
        assert undo[..i + 1][..i] == undo[..i];
        store.data := Apply(store.data, undo[i]);
        store.state := Undone(store.state);
        store.past := Then(store.past, UndoOne, store.state);
      }
      assert undo[..0] == [];
    }
  }
}
