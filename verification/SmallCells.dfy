/** With small cells, cutting a page by count never loses one; and small cells stay small over whole runs. */
module SmallCells {
  import opened Bytes
  import opened Entries
  import opened Pages
  import opened Trees
  import opened TreeOps
  import opened PutSound
  import opened TreeTheorems
  import opened TreeRuns

  /** Key and value of at most this many bytes together make count and byte halves agree. */
  const SMALL: nat := 150

  ghost predicate SmallPage(p: Page) {
    match p
    case LeafPage(s, _) => forall i :: 0 <= i < |s.cells| ==> |s.cells[i].key| + |s.cells[i].val| <= SMALL
    case InternalPage(s, _) => forall i :: 0 <= i < |s.cells| ==> |s.cells[i].key| <= SMALL
  }

  ghost predicate Small(t: Tree) {
    SmallPage(t.page) && (t.Node? ==> forall i :: 0 <= i < |t.kids| ==> Small(t.kids[i]))
  }

  /** No internal page overflows because its rightmost child split. */
  ghost predicate NoRightmostOverflow(pages: PageMap, a: Alloc, t: Tree, k: Bytes, v: Bytes)
    requires Puttable(t, k, v)
    decreases t
  {
    t.Node? ==>
      var i := ChildIndex(t.page.links.cells, k);
      assert |RootIds(t.kids)| == |Children(t.page.links.cells, t.page.right)|;
      var o := PutRec(pages, a, t.kids[i], k, v);
      && NoRightmostOverflow(pages, a, t.kids[i], k, v)
      && (o.split.Some? && !Fits(t.page.links, LinkSize(Cell(o.split.value.key, t.kids[i].id))) ==>
          i < |t.page.links.cells|)
  }

  lemma {:induction false} SmallLeafCells(t: Tree, k: Bytes, v: Bytes)
    requires t.Leaf? && Shape(t) && Small(t) && |k| + |v| <= SMALL
    ensures FootprintsWithin(LeafCells(t.page.entries, k, v), EntrySize, 6, 6 + SMALL)
    ensures forall i :: 0 <= i < |LeafCells(t.page.entries, k, v)| ==> |LeafCells(t.page.entries, k, v)[i].key| <= SMALL
  {
    var s := t.page.entries;
    var w, cells := LeafWithout(s, k).cells, LeafCells(s, k, v);
    assert forall c :: c in w ==> c in s.cells;
    forall i | 0 <= i < |cells| ensures |cells[i].key| + |cells[i].val| <= SMALL {
      assert cells[i] == Cell(k, v) || cells[i] in w;
    }
  }

  lemma {:induction false} SmallLeafSplits(t: Tree, k: Bytes, v: Bytes)
    requires t.Leaf? && Puttable(t, k, v) && Small(t) && |k| + |v| <= SMALL
    ensures LeafHalvesFit(LeafCells(t.page.entries, k, v))
  {
    var s, p := t.page.entries, FindIndex(t.page.entries.cells, k);
    var w, cells := LeafWithout(s, k).cells, LeafCells(s, k, v);
    assert Footprint(w, EntrySize) <= CAPACITY by {
      if p.exact {
        TotalWithout(s.cells, EntrySize, p.index);
      }
    }
    assert cells[..p.index] + cells[p.index + 1..] == w;
    SmallLeafCells(t, k, v);
    SplitByCountFits(cells, EntrySize, p.index, 6, 6 + SMALL);
  }

  lemma {:induction false} SmallLinks(links: seq<Link>, i: nat, key: Bytes, child: PageID, newRight: PageID)
    requires i <= |links| && |key| <= SMALL && forall j :: 0 <= j < |links| ==> |links[j].key| <= SMALL
    ensures var cells := LinksWith(links, i, key, child, newRight); forall j :: 0 <= j < |cells| ==>
            |cells[j].key| <= SMALL
  {
    var cells := LinksWith(links, i, key, child, newRight);
    forall j | 0 <= j < |cells| ensures |cells[j].key| <= SMALL {
      assert cells[j].key == if j < i then links[j].key else if j == i then key else links[j - 1].key;
    }
  }

  lemma {:induction false} SmallInternalSplits(page: Page, i: nat, key: Bytes, child: PageID, newRight: PageID)
    requires page.InternalPage? && SizedPage(page) && i <= |page.links.cells| && |key| <= SMALL
    requires forall j :: 0 <= j < |page.links.cells| ==> |page.links.cells[j].key| <= SMALL
    ensures var cells := LinksWith(page.links.cells, i, key, child, newRight);
            && InternalHalvesFit(cells)
            && forall j :: 0 <= j < |cells| ==> |cells[j].key| <= SMALL
  {
    var links := page.links.cells;
    var cells := LinksWith(links, i, key, child, newRight);
    SmallLinks(links, i, key, child, newRight);
    LinksWithSized(page, i, key, child, newRight);
    TotalWithout(cells, LinkSize, i);
    SplitByCountFits(cells, LinkSize, i, 8, 8 + SMALL);
    var mid := |cells| / 2;
    assert cells[mid..] == [cells[mid]] + cells[mid + 1..];
    FootprintAppend([cells[mid]], cells[mid + 1..], LinkSize);
  }

  /** With small cells, a put keeps its pages exactly when no internal page overflows at its
      rightmost child: cutting by count never loses a cell. */
  lemma {:induction false} SmallCellsKeepPages(pages: PageMap, a: Alloc, t: Tree, k: Bytes, v: Bytes)
    requires Puttable(t, k, v) && Small(t) && |k| + |v| <= SMALL
    ensures KeepsPages(pages, a, t, k, v) <==> NoRightmostOverflow(pages, a, t, k, v)
    ensures PutRec(pages, a, t, k, v).split.Some? ==> |PutRec(pages, a, t, k, v).split.value.key| <= SMALL
    decreases t
  {
    if t.Leaf? {
      SmallLeafSplits(t, k, v);
      SmallLeafCells(t, k, v);
      RightHalfNonEmpty(t, k, v);
    } else {
      var i := ChildIndex(t.page.links.cells, k);
      assert |RootIds(t.kids)| == |Children(t.page.links.cells, t.page.right)|;
      SmallCellsKeepPages(pages, a, t.kids[i], k, v);
      var o := PutRec(pages, a, t.kids[i], k, v);
      if o.split.Some? {
        SmallInternalSplits(t.page, i, o.split.value.key, t.kids[i].id, o.split.value.right);
      }
    }
  }

  // ---- small cells stay small ----------------------------------------------

  /** Every page that differs from before is small. */
  ghost predicate WritesSmall(pages: PageMap, pages': PageMap) {
    forall x :: x in pages' ==> (x in pages && pages'[x] == pages[x]) || SmallPage(pages'[x])
  }

  lemma {:induction false} PackedSmall(cells: seq<Entry>, next: PageID)
    requires forall i :: 0 <= i < |cells| ==> |cells[i].key| + |cells[i].val| <= SMALL
    ensures SmallPage(LeafPage(Pack(EmptySlots(), cells, EntrySize), next))
  {
    var p := Pack(EmptySlots(), cells, EntrySize).cells;
    PackLosesNothingExtra(EmptySlots(), cells, EntrySize);
    forall i | 0 <= i < |p| ensures |p[i].key| + |p[i].val| <= SMALL {
      assert p[i] in cells;
    }
  }

  lemma {:induction false} PackedLinksSmall(cells: seq<Link>, right: PageID)
    requires forall i :: 0 <= i < |cells| ==> |cells[i].key| <= SMALL
    ensures SmallPage(InternalPage(Pack(EmptySlots(), cells, LinkSize), right))
  {
    var p := Pack(EmptySlots(), cells, LinkSize).cells;
    PackLosesNothingExtra(EmptySlots(), cells, LinkSize);
    forall i | 0 <= i < |p| ensures |p[i].key| <= SMALL {
      assert p[i] in cells;
    }
  }

  lemma {:induction false} LeafWritesSmall(pages: PageMap, a: Alloc, t: Tree, k: Bytes, v: Bytes)
    requires t.Leaf? && Puttable(t, k, v) && Small(t) && |k| + |v| <= SMALL
    ensures WritesSmall(pages, PutLeaf(pages, a, t, k, v).pages)
  {
    var s, cells := t.page.entries, LeafCells(t.page.entries, k, v);
    SmallLeafCells(t, k, v);
    if LeafFits(s, k, v) {
      assert InsertAt(LeafWithout(s, k), FindIndex(s.cells, k).index, Cell(k, v), EntrySize(Cell(k, v))).cells == cells;
    } else {
      var mid, id := |cells| / 2, Fresh(a);
      PackedSmall(cells[..mid], id);
      PackedSmall(cells[mid..], t.page.next);
      RightHalfNonEmpty(t, k, v);
    }
  }

  lemma {:induction false} LinkWritesSmall(pages: PageMap, t: Tree, i: nat, o: Outcome)
    requires t.Node? && Shape(t) && Sized(t) && i < |t.kids| && i <= |t.page.links.cells| && SmallPage(t.page)
    requires o.split.Some? && |o.split.value.key| <= SMALL && WritesSmall(pages, o.pages)
    ensures WritesSmall(pages, LinkSplit(t, i, o).pages)
  {
    var s := o.split.value;
    var cells := LinksWith(t.page.links.cells, i, s.key, t.kids[i].id, s.right);
    SmallInternalSplits(t.page, i, s.key, t.kids[i].id, s.right);
    if Fits(t.page.links, LinkSize(Cell(s.key, t.kids[i].id))) {
      assert SmallPage(LinkSplit(t, i, o).pages[t.id]);
    } else {
      var mid := |cells| / 2;
      PackedLinksSmall(cells[..mid], cells[mid].val);
      PackedLinksSmall(cells[mid + 1..], t.page.right);
    }
  }

  lemma {:induction false} PutRecWritesSmall(pages: PageMap, a: Alloc, t: Tree, k: Bytes, v: Bytes)
    requires Puttable(t, k, v) && Small(t) && |k| + |v| <= SMALL
    ensures WritesSmall(pages, PutRec(pages, a, t, k, v).pages)
    decreases t
  {
    if t.Leaf? {
      LeafWritesSmall(pages, a, t, k, v);
    } else {
      var i := ChildIndex(t.page.links.cells, k);
      assert |RootIds(t.kids)| == |Children(t.page.links.cells, t.page.right)|;
      var o := PutRec(pages, a, t.kids[i], k, v);
      PutRecWritesSmall(pages, a, t.kids[i], k, v);
      SmallCellsKeepPages(pages, a, t.kids[i], k, v);
      if o.split.Some? {
        LinkWritesSmall(pages, t, i, o);
      }
    }
  }

  lemma {:induction false} PutWritesSmall(pages: PageMap, a: Alloc, t: Tree, k: Bytes, v: Bytes)
    requires Puttable(t, k, v) && Small(t) && |k| + |v| <= SMALL
    ensures WritesSmall(pages, Put(pages, a, t, k, v).value.pages)
  {
    PutRecWritesSmall(pages, a, t, k, v);
    SmallCellsKeepPages(pages, a, t, k, v);
    var o := PutRec(pages, a, t, k, v);
    if o.split.Some? {
      var s := o.split.value;
      PackedLinksSmall([Cell(s.key, t.id)], s.right);
    }
  }

  /** A tree is small when its pages are. */
  lemma {:induction false} SmallByPages(pages: PageMap, t: Tree)
    requires Stored(pages, t) && forall x :: x in PagesOf(t) ==> x in pages && SmallPage(pages[x])
    ensures Small(t)
  {
    if t.Node? {
      forall i | 0 <= i < |t.kids| ensures Small(t.kids[i]) {
        forall x | x in PagesOf(t.kids[i]) ensures x in PagesOf(t) {
          ForestMember(t.kids, i, x);
        }
        SmallByPages(pages, t.kids[i]);
      }
    }
  }

  lemma {:induction false} ForestMember(f: seq<Tree>, i: nat, x: PageID)
    requires i < |f| && x in PagesOf(f[i])
    ensures x in PagesOfForest(f)
    decreases |f|
  {
    if i != 0 {
      ForestMember(f[1..], i - 1, x);
    }
  }

  lemma {:induction false} PagesSmall(pages: PageMap, t: Tree, x: PageID)
    requires Stored(pages, t) && Small(t) && x in PagesOf(t)
    ensures x in pages && SmallPage(pages[x])
  {
    if t.Node? && x != t.id {
      var i := PageMember(t.kids, x);
      PagesSmall(pages, t.kids[i], x);
    }
  }

  /** A small operation keeps a small tree small. */
  ghost predicate SmallOp(op: Op) { op.PutOp? ==> |op.key| + |op.val| <= SMALL }

  lemma {:induction false} SmallStaysByWrites(pages: PageMap, t: Tree, pages': PageMap, t': Tree)
    requires Stored(pages, t) && Small(t) && Stored(pages', t') && WritesSmall(pages, pages')
    requires forall x :: x in PagesOf(t') ==> x in PagesOf(t) || x !in pages
    ensures Small(t')
  {
    forall x | x in PagesOf(t') ensures x in pages' && SmallPage(pages'[x]) {
      StoredPages(pages', t', x);
      if x in PagesOf(t) {
        PagesSmall(pages, t, x);
      }
    }
    SmallByPages(pages', t');
  }

  lemma {:induction false} SmallPut(s: State, k: Bytes, v: Bytes, s': State)
    requires ValidState(s) && Step(s, PutOp(k, v), s') && Safe(s, PutOp(k, v)) && Small(s.tree)
    requires |k| <= MAX_KEY_VALUE && |v| <= MAX_KEY_VALUE && |k| + |v| <= SMALL
    ensures Small(s'.tree)
  {
    var db := Put(s.pages, s.alloc, s.tree, k, v).value;
    PutCorrectIff(s.pages, s.alloc, s.tree, k, v);
    var t' :| PutMade(s.pages, s.tree, k, v, db, t');
    StoredUnique(db.pages, t', s'.tree);
    PutWritesSmall(s.pages, s.alloc, s.tree, k, v);
    SmallStaysByWrites(s.pages, s.tree, db.pages, t');
  }

  lemma {:induction false} SmallDelete(s: State, k: Bytes, s': State)
    requires ValidState(s) && Step(s, DeleteOp(k), s') && Small(s.tree) && Delete(s.pages, s.tree, k).Some?
    ensures Small(s'.tree)
  {
    DeleteCorrect(s.pages, s.tree, k);
    var t', l := WithLeaf(s.tree, k, Emptied(s.tree, k)), LeafFor(s.tree, k);
    StoredUnique(s'.pages, t', s'.tree);
    LeafForIn(s.tree, k);
    PagesSmall(s.pages, s.tree, l.id);
    LeafIsPage(s.pages, s.tree, k);
    assert SmallPage(Emptied(s.tree, k));
    SmallStaysByWrites(s.pages, s.tree, s'.pages, t');
  }

  lemma {:induction false} LeafIsPage(pages: PageMap, t: Tree, k: Bytes)
    requires Shape(t) && Stored(pages, t)
    ensures LeafFor(t, k).id in pages && pages[LeafFor(t, k).id] == LeafFor(t, k).page
  {
    if t.Node? {
      assert |RootIds(t.kids)| == |Children(t.page.links.cells, t.page.right)|;
      LeafIsPage(pages, t.kids[ChildIndex(t.page.links.cells, k)], k);
    }
  }

  lemma {:induction false} SmallStep(s: State, op: Op, s': State)
    requires ValidState(s) && Step(s, op, s') && Safe(s, op) && Small(s.tree) && SmallOp(op)
    ensures Small(s'.tree)
  {
    match op
    case PutOp(k, v) =>
      if |k| <= MAX_KEY_VALUE && |v| <= MAX_KEY_VALUE {
        SmallPut(s, k, v, s');
      }
    case DeleteOp(k) =>
      if Delete(s.pages, s.tree, k).Some? {
        SmallDelete(s, k, s');
      }
  }

  // ---- runs of small operations --------------------------------------------

  /** What a small operation must still avoid: an internal page overflowing at its rightmost child, and a leaf that
      overflows with nothing else alive in it. */
  ghost predicate Clear(s: State, op: Op)
    requires Shape(s.tree) && Sized(s.tree)
  {
    op.PutOp? && |op.key| <= MAX_KEY_VALUE && |op.val| <= MAX_KEY_VALUE ==>
      NoRightmostOverflow(s.pages, s.alloc, s.tree, op.key, op.val) && KeepsOrder(s.tree, op.key, op.val, None)
  }

  lemma {:induction false} ClearIsSafe(s: State, op: Op)
    requires Shape(s.tree) && Sized(s.tree) && Small(s.tree) && SmallOp(op)
    ensures Clear(s, op) <==> Safe(s, op)
  {
    if op.PutOp? && |op.key| <= MAX_KEY_VALUE && |op.val| <= MAX_KEY_VALUE {
      SmallCellsKeepPages(s.pages, s.alloc, s.tree, op.key, op.val);
    }
  }

  ghost predicate ClearAt(states: seq<State>, ops: seq<Op>, i: nat)
    requires |states| == |ops| + 1 && i < |ops|
  {
    Shape(states[i].tree) && Sized(states[i].tree) && SmallOp(ops[i]) && Clear(states[i], ops[i])
  }

  ghost predicate AllClear(states: seq<State>, ops: seq<Op>)
    requires |states| == |ops| + 1
  {
    forall i :: 0 <= i < |ops| ==> ClearAt(states, ops, i)
  }

  lemma {:induction false} SmallAt(states: seq<State>, ops: seq<Op>, i: nat)
    requires Run(states, ops) && i < |ops| && ValidState(states[i]) && Small(states[i].tree) && ClearAt(states, ops, i)
    ensures SafeAt(states, ops, i) && ValidState(states[i + 1]) && Small(states[i + 1].tree)
  {
    assert StepAt(states, ops, i);
    ClearIsSafe(states[i], ops[i]);
    StepRefines(states[i], ops[i], states[i + 1]);
    SmallStep(states[i], ops[i], states[i + 1]);
  }

  lemma {:induction false} SmallRun(states: seq<State>, ops: seq<Op>, n: nat)
    requires Run(states, ops) && ValidState(states[0]) && Small(states[0].tree) && n <= |ops| && AllClear(states, ops)
    ensures ValidState(states[n]) && Small(states[n].tree)
    decreases n
  {
    if n != 0 {
      SmallRun(states, ops, n - 1);
      assert ClearAt(states, ops, n - 1);
      SmallAt(states, ops, n - 1);
    }
  }

  /** Over every run of small operations from a small tree the tree stays valid, small and equal to the map, if no step
      runs into one of those two: cutting by count does no harm. */
  lemma {:induction false} SmallRunRefinesMap(states: seq<State>, ops: seq<Op>)
    requires Run(states, ops) && ValidState(states[0]) && Small(states[0].tree) && AllClear(states, ops)
    ensures ValidState(states[|ops|]) && Small(states[|ops|].tree)
    ensures Contents(states[|ops|].tree) == MapRun(Contents(states[0].tree), ops)
  {
    forall i | 0 <= i < |ops| ensures SafeAt(states, ops, i) {
      SmallRun(states, ops, i);
      assert ClearAt(states, ops, i);
      SmallAt(states, ops, i);
    }
    SmallRun(states, ops, |ops|);
    RunRefinesMap(states, ops);
  }
}
