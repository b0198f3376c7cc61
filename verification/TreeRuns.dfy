/** Whole runs of puts and deletes. */
module TreeRuns {
  import opened Bytes
  import opened Entries
  import opened Pages
  import opened Trees
  import opened TreeOps
  import opened PutSound
  import opened TreeTheorems

  datatype Op = PutOp(key: Bytes, val: Bytes) | DeleteOp(key: Bytes)

  /** A data file and the tree that a descent from its root reads. */
  datatype State = State(pages: PageMap, alloc: Alloc, tree: Tree)

  ghost predicate ValidState(s: State) {
    ValidTree(s.pages, s.tree) && AllocOk(s.pages, s.alloc)
  }

  /** One operation: s' is what the operation leaves, read from its root. */
  ghost predicate Step(s: State, op: Op, s': State)
    requires Shape(s.tree) && Sized(s.tree)
  {
    && Shape(s'.tree) && Stored(s'.pages, s'.tree)
    && match op
       case PutOp(k, v) =>
         (match Put(s.pages, s.alloc, s.tree, k, v)
          case None => s' == s
          case Some(db) => s'.pages == db.pages && s'.alloc == db.alloc && s'.tree.id == db.root)
       case DeleteOp(k) =>
         (match Delete(s.pages, s.tree, k)
          case None => s' == s
          case Some(pages) => s'.pages == pages && s'.alloc == s.alloc && s'.tree.id == s.tree.id)
  }

  /** The put does not run into one of the defects of the split functions. */
  ghost predicate Safe(s: State, op: Op)
    requires Shape(s.tree) && Sized(s.tree)
  {
    match op
    case PutOp(k, v) =>
      |k| <= MAX_KEY_VALUE && |v| <= MAX_KEY_VALUE ==>
        KeepsPages(s.pages, s.alloc, s.tree, k, v) && KeepsOrder(s.tree, k, v, None)
    case DeleteOp(_) => true
  }

  /** The same operation on the map. */
  ghost function MapStep(m: map<Bytes, Bytes>, op: Op): map<Bytes, Bytes> {
    match op
    case PutOp(k, v) => if |k| <= MAX_KEY_VALUE && |v| <= MAX_KEY_VALUE then m[k := v] else m
    case DeleteOp(k) => m - {k}
  }

  ghost function MapRun(m: map<Bytes, Bytes>, ops: seq<Op>): map<Bytes, Bytes> {
    if |ops| == 0 then m else MapStep(MapRun(m, ops[..|ops| - 1]), ops[|ops| - 1])
  }

  ghost predicate Run(states: seq<State>, ops: seq<Op>) {
    && |states| == |ops| + 1
    && (forall i :: 0 <= i < |states| ==> Shape(states[i].tree) && Sized(states[i].tree))
    && (forall i :: 0 <= i < |ops| ==> StepAt(states, ops, i))
  }

  ghost predicate StepAt(states: seq<State>, ops: seq<Op>, i: nat)
    requires |states| == |ops| + 1 && i < |ops|
  {
    Shape(states[i].tree) && Sized(states[i].tree) && Step(states[i], ops[i], states[i + 1])
  }

  ghost predicate SafeAt(states: seq<State>, ops: seq<Op>, i: nat)
    requires |states| == |ops| + 1 && i < |ops|
  {
    Shape(states[i].tree) && Sized(states[i].tree) && Safe(states[i], ops[i])
  }

  ghost predicate AllSafe(states: seq<State>, ops: seq<Op>)
    requires |states| == |ops| + 1
  {
    forall i :: 0 <= i < |ops| ==> SafeAt(states, ops, i)
  }

  lemma {:induction false} PutKeepsAlloc(pages: PageMap, a: Alloc, t: Tree, k: Bytes, v: Bytes)
    requires Puttable(t, k, v) && AllocOk(pages, a) && Stored(pages, t)
    ensures var db := Put(pages, a, t, k, v).value;
            && AllocOk(db.pages, db.alloc) && pages.Keys <= db.pages.Keys
            && forall x :: x in pages && x !in PagesOf(t) ==> db.pages[x] == pages[x]
  {
    PutRecFramed(pages, a, t, k, v);
    var o := PutRec(pages, a, t, k, v);
    if o.split.Some? {
      FreshIsFresh(o.pages, o.alloc, Put(pages, a, t, k, v).value.pages[Fresh(o.alloc)]);
    }
  }

  lemma {:induction false} PutStepRefines(s: State, k: Bytes, v: Bytes, s': State)
    requires ValidState(s) && Step(s, PutOp(k, v), s') && Safe(s, PutOp(k, v))
    requires |k| <= MAX_KEY_VALUE && |v| <= MAX_KEY_VALUE
    ensures ValidState(s') && Contents(s'.tree) == Contents(s.tree)[k := v]
  {
    var db := Put(s.pages, s.alloc, s.tree, k, v).value;
    assert exists t' :: PutMade(s.pages, s.tree, k, v, db, t') by {
      PutCorrectIff(s.pages, s.alloc, s.tree, k, v);
    }
    var t' :| PutMade(s.pages, s.tree, k, v, db, t');
    StoredUnique(db.pages, t', s'.tree);
    PutKeepsAlloc(s.pages, s.alloc, s.tree, k, v);
  }

  lemma {:induction false} DeleteStepRefines(s: State, k: Bytes, s': State)
    requires ValidState(s) && Step(s, DeleteOp(k), s')
    ensures ValidState(s') && Contents(s'.tree) == Contents(s.tree) - {k}
  {
    DeleteCorrect(s.pages, s.tree, k);
    if Delete(s.pages, s.tree, k).Some? {
      StoredUnique(s'.pages, WithLeaf(s.tree, k, Emptied(s.tree, k)), s'.tree);
      LeafForIn(s.tree, k);
      StoredPages(s.pages, s.tree, LeafFor(s.tree, k).id);
      AllocOverwrite(s.pages, s.alloc, LeafFor(s.tree, k).id, Emptied(s.tree, k));
    } else {
      assert Contents(s.tree) - {k} == Contents(s.tree);
    }
  }

  /** One step keeps the tree valid and does to the map what it should. */
  lemma {:induction false} StepRefines(s: State, op: Op, s': State)
    requires ValidState(s) && Step(s, op, s') && Safe(s, op)
    ensures ValidState(s') && Contents(s'.tree) == MapStep(Contents(s.tree), op)
  {
    match op
    case PutOp(k, v) =>
      if |k| <= MAX_KEY_VALUE && |v| <= MAX_KEY_VALUE {
        PutStepRefines(s, k, v, s');
      }
    case DeleteOp(k) =>
      DeleteStepRefines(s, k, s');
  }

  /** Safe operations never get stuck. */
  lemma {:induction false} StepExists(s: State, op: Op) returns (s': State)
    requires ValidState(s) && Safe(s, op)
    ensures Step(s, op, s')
  {
    match op
    case PutOp(k, v) =>
      if |k| <= MAX_KEY_VALUE && |v| <= MAX_KEY_VALUE {
        PutCorrectIff(s.pages, s.alloc, s.tree, k, v);
        var db := Put(s.pages, s.alloc, s.tree, k, v).value;
        var t' :| PutMade(s.pages, s.tree, k, v, db, t');
        s' := State(db.pages, db.alloc, t');
      } else {
        s' := s;
      }
    case DeleteOp(k) =>
      DeleteCorrect(s.pages, s.tree, k);
      match Delete(s.pages, s.tree, k)
      case None => s' := s;
      case Some(pages) => s' := State(pages, s.alloc, WithLeaf(s.tree, k, Emptied(s.tree, k)));
  }

  lemma {:induction false} RunShorter(states: seq<State>, ops: seq<Op>)
    requires Run(states, ops) && |ops| > 0 && AllSafe(states, ops)
    ensures Run(states[..|ops|], ops[..|ops| - 1]) && AllSafe(states[..|ops|], ops[..|ops| - 1])
  {
    var n := |ops| - 1;
    var s, o := states[..n + 1], ops[..n];
    forall i | 0 <= i < n ensures StepAt(s, o, i) && SafeAt(s, o, i) {
      assert s[i] == states[i] && s[i + 1] == states[i + 1] && o[i] == ops[i];
      assert StepAt(states, ops, i) && SafeAt(states, ops, i);
    }
  }

  /** Every run of safe operations keeps the tree valid and equal to the map updated the same way. */
  lemma {:induction false} RunRefinesMap(states: seq<State>, ops: seq<Op>)
    requires Run(states, ops) && ValidState(states[0])
    requires AllSafe(states, ops)
    ensures ValidState(states[|ops|]) && Contents(states[|ops|].tree) == MapRun(Contents(states[0].tree), ops)
    decreases |ops|
  {
    if |ops| != 0 {
      var n := |ops| - 1;
      var s, o := states[..n + 1], ops[..n];
      RunShorter(states, ops);
      RunRefinesMap(s, o);
      assert StepAt(states, ops, n) && SafeAt(states, ops, n);
      StepRefines(states[n], ops[n], states[n + 1]);
    }
  }
}
