/** States that safe operations reach from an empty tree, and a few shapes of such trees. */
module TreeReach {
  import opened Bytes
  import opened Entries
  import opened Pages
  import opened Trees
  import opened TreeOps
  import opened TreeRuns

  /** A new tree: one empty leaf. */
  ghost function EmptyState(): State {
    State(map[1 := LeafPage(EmptySlots(), 0)], Alloc([], 2), Leaf(1, LeafPage(EmptySlots(), 0)))
  }

  ghost predicate ReachedBy(states: seq<State>, ops: seq<Op>, s: State) {
    Run(states, ops) && AllSafe(states, ops) && states[0] == EmptyState() && states[|ops|] == s
  }

  ghost predicate Reachable(s: State) { exists states, ops :: ReachedBy(states, ops, s) }

  lemma {:induction false} EmptyReachable()
    ensures Reachable(EmptyState()) && ValidState(EmptyState())
  {
    var s := EmptyState();
    assert Level(s.tree, 0);
    assert ReachedBy([s], [], s);
  }

  lemma {:induction false} RunLonger(states: seq<State>, ops: seq<Op>, op: Op, s': State)
    requires Run(states, ops) && AllSafe(states, ops)
    requires Step(states[|ops|], op, s') && Safe(states[|ops|], op) && Shape(s'.tree) && Sized(s'.tree)
    ensures Run(states + [s'], ops + [op]) && AllSafe(states + [s'], ops + [op])
  {
    var ss, os := states + [s'], ops + [op];
    forall i | 0 <= i < |os| ensures StepAt(ss, os, i) && SafeAt(ss, os, i) {
      if i < |ops| {
        assert StepAt(states, ops, i) && SafeAt(states, ops, i);
        StepsAt(ss, os, i, states[i], ops[i], states[i + 1]);
      } else {
        StepsAt(ss, os, i, states[|ops|], op, s');
      }
    }
    forall i | 0 <= i < |ss| ensures Shape(ss[i].tree) && Sized(ss[i].tree) {
      assert ss[i] == if i < |states| then states[i] else s';
    }
  }

  lemma {:induction false} StepsAt(ss: seq<State>, os: seq<Op>, i: nat, s: State, op: Op, s': State)
    requires |ss| == |os| + 1 && i < |os| && ss[i] == s && os[i] == op && ss[i + 1] == s'
    requires Shape(s.tree) && Sized(s.tree) && Step(s, op, s') && Safe(s, op)
    ensures StepAt(ss, os, i) && SafeAt(ss, os, i)
  {
  }

  lemma {:induction false} ReachStep(s: State, op: Op, s': State)
    requires Reachable(s) && ValidState(s) && Step(s, op, s') && Safe(s, op)
    ensures Reachable(s') && ValidState(s')
  {
    StepRefines(s, op, s');
    var states, ops :| ReachedBy(states, ops, s);
    RunLonger(states, ops, op, s');
    assert ReachedBy(states + [s'], ops + [op], s');
  }

  // ---- one leaf ------------------------------------------------------------

  lemma {:induction false} AboveAll<V>(cells: seq<Cell<V>>, k: Bytes)
    requires Ascending(cells) && forall i :: 0 <= i < |cells| ==> Less(cells[i].key, k)
    ensures FindIndex(cells, k) == Position(|cells|, false)
  {
    LowerBoundUnique(cells, k, |cells|);
    FindIndexIsLowerBound(cells, k);
  }

  /** A put beyond the last key of a leaf that has room. */
  lemma {:induction false} LeafAppend(s: State, k: Bytes, v: Bytes) returns (s': State)
    requires Reachable(s) && ValidState(s) && s.tree.Leaf? && |k| <= MAX_KEY_VALUE && |v| <= MAX_KEY_VALUE
    requires var e := s.tree.page.entries;
             Fits(e, EntrySize(Cell(k, v))) && forall i :: 0 <= i < |e.cells| ==> Less(e.cells[i].key, k)
    ensures Reachable(s') && ValidState(s') && s'.alloc == s.alloc
    ensures var e, c := s.tree.page.entries, Cell(k, v);
            s'.tree == Leaf(s.tree.id, LeafPage(InsertAt(e, |e.cells|, c, EntrySize(c)), s.tree.page.next))
  {
    var e, c := s.tree.page.entries, Cell(k, v);
    AboveAll(e.cells, k);
    var page := LeafPage(InsertAt(e, |e.cells|, c, EntrySize(c)), s.tree.page.next);
    s' := State(s.pages[s.tree.id := page], s.alloc, Leaf(s.tree.id, page));
    ReachStep(s, PutOp(k, v), s');
  }

  /** Any ascending entries that fit one page are reached by putting them one by one. */
  lemma {:induction false} AppendsReach(cells: seq<Entry>, n: nat) returns (s: State)
    requires Ascending(cells) && Footprint(cells, EntrySize) <= CAPACITY && n <= |cells|
    requires forall i :: 0 <= i < |cells| ==> |cells[i].key| <= MAX_KEY_VALUE && |cells[i].val| <= MAX_KEY_VALUE
    ensures Reachable(s) && ValidState(s) && s.alloc == Alloc([], 2)
    ensures s.tree == Leaf(1, LeafPage(Pack(EmptySlots(), cells[..n], EntrySize), 0))
    decreases n
  {
    if n == 0 {
      s := EmptyState();
      EmptyReachable();
    } else {
      var r := AppendsReach(cells, n - 1);
      PackNext(cells, n - 1);
      s := LeafAppend(r, cells[n - 1].key, cells[n - 1].val);
    }
  }

  lemma {:induction false} PackNext(cells: seq<Entry>, m: nat)
    requires m < |cells| && Footprint(cells, EntrySize) <= CAPACITY
    ensures var p, c := Pack(EmptySlots(), cells[..m], EntrySize), cells[m];
            && p.cells == cells[..m] && Fits(p, EntrySize(c))
            && Pack(EmptySlots(), cells[..m + 1], EntrySize) == InsertAt(p, |p.cells|, c, EntrySize(c))
  {
    var pre, c, rest := cells[..m], cells[m], cells[m + 1..];
    assert cells[..m + 1] == pre + [c];
    assert Footprint(pre, EntrySize) + EntrySize(c) + SLOT <= CAPACITY by {
      assert cells == pre + ([c] + rest);
      FootprintAppend(pre, [c] + rest, EntrySize);
      FootprintAppend([c], rest, EntrySize);
    }
    PackKeepsAllIff(EmptySlots(), pre, EntrySize);
    assert EmptySlots<Bytes>().cells + pre == pre;
    PackSnoc(EmptySlots(), pre, c, EntrySize);
  }

  // ---- a root over leaves --------------------------------------------------

  /** A tree of two levels: the root's links and the leaves from left to right. */
  datatype Flat = Flat(root: PageID, links: Slots<PageID>, ids: seq<PageID>, leaves: seq<Slots<Bytes>>)

  ghost predicate FlatOk(f: Flat) {
    && |f.ids| == |f.leaves| == |f.links.cells| + 1
    && (forall j :: 0 <= j < |f.links.cells| ==> f.links.cells[j].val == f.ids[j])
    && (forall i, j :: 0 <= i < j < |f.ids| ==> f.ids[i] != f.ids[j])
    && (forall j :: 0 <= j < |f.ids| ==> f.ids[j] != f.root)
  }

  ghost function LeafAt(f: Flat, j: nat): Page
    requires FlatOk(f) && j < |f.ids|
  {
    LeafPage(f.leaves[j], if j + 1 < |f.ids| then f.ids[j + 1] else 0)
  }

  ghost function RootPage(f: Flat): Page
    requires FlatOk(f)
  {
    InternalPage(f.links, f.ids[|f.ids| - 1])
  }

  ghost function TreeOf(f: Flat): (t: Tree)
    requires FlatOk(f)
    ensures t.Node? && t.id == f.root && t.page == RootPage(f) && |t.kids| == |f.ids|
    ensures forall j :: 0 <= j < |f.ids| ==> t.kids[j] == Leaf(f.ids[j], LeafAt(f, j))
  {
    Node(f.root, RootPage(f), seq(|f.ids|, j requires 0 <= j < |f.ids| => Leaf(f.ids[j], LeafAt(f, j))))
  }

  lemma {:induction false} FlatShape(f: Flat)
    requires FlatOk(f)
    ensures Shape(TreeOf(f))
  {
    var t := TreeOf(f);
    assert RootIds(t.kids) == Children(f.links.cells, t.page.right);
  }

  ghost predicate FlatStored(pages: PageMap, f: Flat)
    requires FlatOk(f)
  {
    && f.root in pages && pages[f.root] == RootPage(f)
    && forall j :: 0 <= j < |f.ids| ==> f.ids[j] in pages && pages[f.ids[j]] == LeafAt(f, j)
  }

  lemma {:induction false} FlatStoredIff(pages: PageMap, f: Flat)
    requires FlatOk(f)
    ensures FlatStored(pages, f) <==> Stored(pages, TreeOf(f))
  {
    var t := TreeOf(f);
    forall j | 0 <= j < |f.ids| ensures Stored(pages, t.kids[j]) <==>
      f.ids[j] in pages && pages[f.ids[j]] == LeafAt(f, j)
    {
    }
  }

  function PutSlots(e: Slots<Bytes>, k: Bytes, v: Bytes): Slots<Bytes>
    requires LeafFits(e, k, v)
  {
    InsertAt(LeafWithout(e, k), FindIndex(e.cells, k).index, Cell(k, v), EntrySize(Cell(k, v)))
  }

  ghost predicate At(s: State, f: Flat) { FlatOk(f) && Reachable(s) && ValidState(s) && s.tree == TreeOf(f) }

  lemma {:induction false} LeafReplaced(pages: PageMap, f: Flat, j: nat, e: Slots<Bytes>)
    requires FlatOk(f) && FlatStored(pages, f) && j < |f.ids|
    ensures var g := f.(leaves := f.leaves[j := e]);
            FlatOk(g) && FlatStored(pages[f.ids[j] := LeafPage(e, LeafAt(f, j).next)], g)
  {
    var g := f.(leaves := f.leaves[j := e]);
    forall i | 0 <= i < |g.ids| ensures i == j || LeafAt(g, i) == LeafAt(f, i) {
    }
  }

  /** A put into a leaf that has room changes that leaf. */
  lemma {:induction false} LeafTakes(pages: PageMap, a: Alloc, t: Tree, k: Bytes, v: Bytes, e: Slots<Bytes>)
    requires t.Leaf? && Puttable(t, k, v) && LeafFits(t.page.entries, k, v) && e == PutSlots(t.page.entries, k, v)
    ensures PutRec(pages, a, t, k, v) == Outcome(pages[t.id := LeafPage(e, t.page.next)], a, None)
    ensures KeepsPages(pages, a, t, k, v) && forall lo :: KeepsOrder(t, k, v, lo)
  {
  }

  /** A put that does not split the child it goes to is a safe step. */
  lemma {:induction false} KidPutSteps(s: State, j: nat, k: Bytes, v: Bytes, s': State)
    requires s.tree.Node? && Shape(s.tree) && Sized(s.tree) && Puttable(s.tree, k, v)
    requires j == ChildIndex(s.tree.page.links.cells, k) < |s.tree.kids| && Puttable(s.tree.kids[j], k, v)
    requires PutRec(s.pages, s.alloc, s.tree.kids[j], k, v) == Outcome(s'.pages, s'.alloc, None)
    requires KeepsPages(s.pages, s.alloc, s.tree.kids[j], k, v) && forall lo :: KeepsOrder(s.tree.kids[j], k, v, lo)
    requires Shape(s'.tree) && Stored(s'.pages, s'.tree) && s'.tree.id == s.tree.id
    ensures Step(s, PutOp(k, v), s') && Safe(s, PutOp(k, v))
  {
  }

  lemma {:induction false} FlatPut(s: State, f: Flat, j: nat, k: Bytes, v: Bytes) returns (s': State)
    requires At(s, f) && j < |f.ids| && ChildIndex(f.links.cells, k) == j && LeafFits(f.leaves[j], k, v)
    requires |k| <= MAX_KEY_VALUE && |v| <= MAX_KEY_VALUE
    ensures At(s', f.(leaves := f.leaves[j := PutSlots(f.leaves[j], k, v)])) && s'.alloc == s.alloc
  {
    var e := PutSlots(f.leaves[j], k, v);
    var g := f.(leaves := f.leaves[j := e]);
    FlatStoredIff(s.pages, f);
    LeafReplaced(s.pages, f, j, e);
    var pages := s.pages[f.ids[j] := LeafPage(e, LeafAt(f, j).next)];
    FlatStoredIff(pages, g);
    FlatShape(g);
    s' := State(pages, s.alloc, TreeOf(g));
    assert s.tree.kids[j] == Leaf(f.ids[j], LeafAt(f, j));
    LeafTakes(s.pages, s.alloc, s.tree.kids[j], k, v, e);
    KidPutSteps(s, j, k, v, s');
    ReachStep(s, PutOp(k, v), s');
  }

  /** A delete takes the cell out and leaves its bytes behind. */
  lemma {:induction false} FlatDelete(s: State, f: Flat, j: nat, k: Bytes) returns (s': State)
    requires At(s, f) && j < |f.ids| && ChildIndex(f.links.cells, k) == j && FindIndex(f.leaves[j].cells, k).exact
    ensures At(s', f.(leaves := f.leaves[j := RemoveAt(f.leaves[j], FindIndex(f.leaves[j].cells, k).index)]))
            && s'.alloc == s.alloc
  {
    var e := RemoveAt(f.leaves[j], FindIndex(f.leaves[j].cells, k).index);
    var g := f.(leaves := f.leaves[j := e]);
    FlatStoredIff(s.pages, f);
    LeafReplaced(s.pages, f, j, e);
    var pages := s.pages[f.ids[j] := LeafPage(e, LeafAt(f, j).next)];
    FlatStoredIff(pages, g);
    FlatShape(g);
    s' := State(pages, s.alloc, TreeOf(g));
    assert LeafFor(s.tree, k) == Leaf(f.ids[j], LeafAt(f, j));
    assert Delete(s.pages, s.tree, k) == Some(pages);
    ReachStep(s, DeleteOp(k), s');
  }

  /** The two halves of a leaf that overflows. */
  function Halves(e: Slots<Bytes>, k: Bytes, v: Bytes): (Slots<Bytes>, Slots<Bytes>) { LeafHalves(LeafCells(e, k, v)) }

  /** The leaf overflows with other cells in it, and its halves fit. */
  ghost predicate Splits(e: Slots<Bytes>, k: Bytes, v: Bytes) {
    && |k| <= MAX_KEY_VALUE && |v| <= MAX_KEY_VALUE
    && !LeafFits(e, k, v) && LeafHalvesFit(LeafCells(e, k, v)) && |LeafWithout(e, k).cells| > 0
      && |Halves(e, k, v).1.cells| > 0
  }

  lemma {:induction false} LastSplits(pages: PageMap, a: Alloc, t: Tree, k: Bytes, v: Bytes)
    requires t.Leaf? && Puttable(t, k, v) && t.page.next == 0 && a.free == [] && Splits(t.page.entries, k, v)
    ensures var (l, r) := Halves(t.page.entries, k, v);
            PutRec(pages, a, t, k, v) ==
            Outcome(pages[t.id := LeafPage(l, a.count)][a.count := LeafPage(r, 0)], Alloc([], a.count + 1),
                    Some(Split(r.cells[0].key, a.count)))
  {
    RightHalfNonEmpty(t, k, v);
  }

  lemma {:induction false} RootPut(pages: PageMap, a: Alloc, t: Tree, k: Bytes, v: Bytes)
    requires t.Leaf? && Puttable(t, k, v) && t.page.next == 0 && a.free == [] && Splits(t.page.entries, k, v)
    ensures var (l, r) := Halves(t.page.entries, k, v);
            var root := InternalPage(Pack(EmptySlots(), [Cell(r.cells[0].key, t.id)], LinkSize), a.count);
            Put(pages, a, t, k, v) ==
            Some(Db(pages[t.id := LeafPage(l, a.count)][a.count := LeafPage(r, 0)][a.count + 1 := root],
                    Alloc([], a.count + 2), a.count + 1))
  {
    LastSplits(pages, a, t, k, v);
  }

  /** A full leaf as root splits and gets a parent. */
  lemma {:induction false} RootSplit(s: State, k: Bytes, v: Bytes) returns (s': State, f: Flat)
    requires Reachable(s) && ValidState(s) && s.tree.Leaf? && s.tree.page.next == 0 && s.alloc.free == []
    requires Splits(s.tree.page.entries, k, v)
    ensures At(s', f) && s'.alloc == Alloc([], s.alloc.count + 2)
    ensures var (l, r) := Halves(s.tree.page.entries, k, v);
            f == Flat(s.alloc.count + 1, Pack(EmptySlots(), [Cell(r.cells[0].key, s.tree.id)], LinkSize),
                      [s.tree.id, s.alloc.count], [l, r])
  {
    var (l, r) := Halves(s.tree.page.entries, k, v);
    var id, n := s.tree.id, s.alloc.count;
    var sep := Cell(r.cells[0].key, id);
    f := Flat(n + 1, Pack(EmptySlots(), [sep], LinkSize), [id, n], [l, r]);
    RootPut(s.pages, s.alloc, s.tree, k, v);
    SepShort(s.tree, k, v);
    assert s.tree.id in s.pages;
    NewRootOk(s.pages, n, id, l, r, sep);
    var pages := s.pages[id := LeafPage(l, n)][n := LeafPage(r, 0)][n + 1 := RootPage(f)];
    FlatShape(f);
    FlatStoredIff(pages, f);
    s' := State(pages, Alloc([], n + 2), TreeOf(f));
    assert Safe(s, PutOp(k, v));
    ReachStep(s, PutOp(k, v), s');
  }

  lemma {:induction false} NewRootOk(pages: PageMap, n: PageID, id: PageID, l: Slots<Bytes>, r: Slots<Bytes>, sep: Link)
    requires sep.val == id < n && |sep.key| <= MAX_KEY_VALUE
    ensures var f := Flat(n + 1, Pack(EmptySlots(), [sep], LinkSize), [id, n], [l, r]);
            FlatOk(f) && FlatStored(pages[id := LeafPage(l, n)][n := LeafPage(r, 0)][n + 1 := RootPage(f)], f)
  {
    var f := Flat(n + 1, Pack(EmptySlots(), [sep], LinkSize), [id, n], [l, r]);
    assert f.links.cells == [sep] by {
      PackKeepsAllIff(EmptySlots(), [sep], LinkSize);
    }
    assert LeafAt(f, 0) == LeafPage(l, n) && LeafAt(f, 1) == LeafPage(r, 0);
  }

  lemma {:induction false} SepShort(t: Tree, k: Bytes, v: Bytes)
    requires t.Leaf? && Puttable(t, k, v) && |Halves(t.page.entries, k, v).1.cells| > 0
    ensures |Halves(t.page.entries, k, v).1.cells[0].key| <= MAX_KEY_VALUE
  {
    var cells := LeafCells(t.page.entries, k, v);
    CellsBounded(t, k, v);
    var half := cells[|cells| / 2..];
    PackLosesNothingExtra(EmptySlots(), half, EntrySize);
    var c := Halves(t.page.entries, k, v).1.cells[0];
    assert c in half;
    assert forall x :: x in half ==> x in cells;
  }

  /** The tree once its rightmost leaf has split into l and r on page n. */
  function Grown(f: Flat, n: PageID, l: Slots<Bytes>, r: Slots<Bytes>, sep: Link): Flat
    requires |f.links.cells| < |f.leaves| && Fits(f.links, LinkSize(sep))
  {
    var j := |f.links.cells|;
    Flat(f.root, InsertAt(f.links, j, sep, LinkSize(sep)), f.ids + [n], f.leaves[j := l] + [r])
  }

  lemma {:induction false} RootLinks(f: Flat, o: Outcome, n: PageID, l: Slots<Bytes>, r: Slots<Bytes>, sep: Link)
    requires FlatOk(f) && Shape(TreeOf(f)) && sep.val == f.ids[|f.links.cells|] && Fits(f.links, LinkSize(sep))
    requires o.split == Some(Split(sep.key, n)) && FlatOk(Grown(f, n, l, r, sep))
    ensures LinkSplit(TreeOf(f), |f.links.cells|, o) ==
            Outcome(o.pages[f.root := RootPage(Grown(f, n, l, r, sep))], o.alloc, None)
  {
    var g, j := Grown(f, n, l, r, sep), |f.links.cells|;
    assert TreeOf(f).kids[j].id == f.ids[j];
    assert LinksWith(f.links.cells, j, sep.key, f.ids[j], n) == g.links.cells;
  }

  /** The rightmost leaf splits and the root has room for its new separator. */
  lemma {:induction false} FlatSplit(s: State, f: Flat, k: Bytes, v: Bytes, sep: Link) returns (s': State)
    requires At(s, f) && s.alloc.free == []
    requires var j := |f.links.cells|;
             ChildIndex(f.links.cells, k) == j && Splits(f.leaves[j], k, v)
             && sep == Cell(Halves(f.leaves[j], k, v).1.cells[0].key, f.ids[j]) && Fits(f.links, LinkSize(sep))
    ensures var (l, r) := Halves(f.leaves[|f.links.cells|], k, v);
            At(s', Grown(f, s.alloc.count, l, r, sep)) && s'.alloc == Alloc([], s.alloc.count + 1)
  {
    var j, n := |f.links.cells|, s.alloc.count;
    var (l, r) := Halves(f.leaves[j], k, v);
    var g := Grown(f, n, l, r, sep);
    FlatStoredIff(s.pages, f);
    var kid := s.tree.kids[j];
    assert kid == Leaf(f.ids[j], LeafAt(f, j));
    LastSplits(s.pages, s.alloc, kid, k, v);
    var o := PutRec(s.pages, s.alloc, kid, k, v);
    assert n !in s.pages;
    GrownOk(s.pages, f, n, l, r, sep);
    RootLinks(f, o, n, l, r, sep);
    var pages := o.pages[f.root := RootPage(g)];
    FlatShape(g);
    FlatStoredIff(pages, g);
    s' := State(pages, Alloc([], n + 1), TreeOf(g));
    SplitStep(s, f, k, v, o, s');
    ReachStep(s, PutOp(k, v), s');
  }

  lemma {:induction false} SplitStep(s: State, f: Flat, k: Bytes, v: Bytes, o: Outcome, s': State)
    requires At(s, f) && |k| <= MAX_KEY_VALUE && |v| <= MAX_KEY_VALUE
    requires var j := |f.links.cells|;
             && ChildIndex(f.links.cells, k) == j && Splits(f.leaves[j], k, v)
             && o == PutRec(s.pages, s.alloc, s.tree.kids[j], k, v) && o.split.Some?
             && Fits(f.links, LinkSize(Cell(o.split.value.key, f.ids[j])))
             && LinkSplit(s.tree, j, o) == Outcome(s'.pages, s'.alloc, None)
    requires s'.tree.id == f.root && Shape(s'.tree) && Stored(s'.pages, s'.tree)
    ensures Step(s, PutOp(k, v), s') && Safe(s, PutOp(k, v))
  {
    var j := |f.links.cells|;
    assert s.tree.kids[j] == Leaf(f.ids[j], LeafAt(f, j));
    assert PutRec(s.pages, s.alloc, s.tree, k, v) == LinkSplit(s.tree, j, o);
    assert KeepsPages(s.pages, s.alloc, s.tree.kids[j], k, v);
    assert forall lo :: KeepsOrder(s.tree.kids[j], k, v, lo);
  }

  lemma {:induction false} GrownFlat(f: Flat, n: PageID, l: Slots<Bytes>, r: Slots<Bytes>, sep: Link)
    requires FlatOk(f) && n != f.root && (forall i :: 0 <= i < |f.ids| ==> f.ids[i] != n)
    requires sep.val == f.ids[|f.links.cells|] && Fits(f.links, LinkSize(sep))
    ensures FlatOk(Grown(f, n, l, r, sep))
  {
    var g := Grown(f, n, l, r, sep);
    assert g.links.cells == f.links.cells + [sep];
  }

  lemma {:induction false} GrownOk(pages: PageMap, f: Flat, n: PageID, l: Slots<Bytes>, r: Slots<Bytes>, sep: Link)
    requires FlatOk(f) && FlatStored(pages, f) && n !in pages && sep.val == f.ids[|f.links.cells|]
             && Fits(f.links, LinkSize(sep))
    ensures var g := Grown(f, n, l, r, sep);
            FlatOk(g) && FlatStored(pages[f.ids[|f.links.cells|] := LeafPage(l, n)][n := LeafPage(r, 0)][f.root :=
              RootPage(g)], g)
  {
    var j, g := |f.links.cells|, Grown(f, n, l, r, sep);
    forall i | 0 <= i < |f.ids| ensures f.ids[i] != n {
      assert f.ids[i] in pages;
    }
    GrownFlat(f, n, l, r, sep);
    forall i | 0 <= i < |g.ids| ensures LeafAt(g, i) == if i < j then LeafAt(f, i) else if i == j then LeafPage(l, n)
      else LeafPage(r, 0) {
    }
  }
}
