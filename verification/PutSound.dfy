/** A put whose splits keep their cells grows the tree as intended. */
module PutSound {
  import opened Bytes
  import opened Entries
  import opened Pages
  import opened Trees
  import opened TreeOps

  // ---- what a put leaves alone ---------------------------------------------

  /** Only pages of t and freshly allocated pages are written. */
  ghost predicate Framed(pages: PageMap, t: Tree, o: Outcome) {
    && AllocOk(o.pages, o.alloc)
    && pages.Keys <= o.pages.Keys
    && forall x :: x in pages && x !in PagesOf(t) ==> o.pages[x] == pages[x]
  }

  ghost function NewPages(pages: PageMap, pages': PageMap): multiset<PageID> {
    multiset(pages'.Keys - pages.Keys)
  }

  lemma {:induction false} AllocOverwrite(pages: PageMap, a: Alloc, id: PageID, p: Page)
    requires AllocOk(pages, a) && id in pages
    ensures AllocOk(pages[id := p], a)
  {
  }

  lemma {:induction false} PutLeafFramed(pages: PageMap, a: Alloc, t: Tree, k: Bytes, v: Bytes)
    requires t.Leaf? && Puttable(t, k, v) && AllocOk(pages, a) && Stored(pages, t)
    ensures Framed(pages, t, PutLeaf(pages, a, t, k, v))
  {
    var o := PutLeaf(pages, a, t, k, v);
    AllocOverwrite(pages, a, t.id, o.pages[t.id]);
    if o.split.Some? {
      FreshIsFresh(pages[t.id := o.pages[t.id]], a, o.pages[Fresh(a)]);
    }
  }

  lemma {:induction false} LinkSplitFramed(pages: PageMap, t: Tree, i: nat, o: Outcome)
    requires t.Node? && Shape(t) && i < |t.kids| && o.split.Some?
    requires t.id in pages && Framed(pages, t.kids[i], o)
    ensures Framed(pages, t, LinkSplit(t, i, o))
  {
    var q := LinkSplit(t, i, o);
    MemberPages(t.kids, i);
    AllocOverwrite(o.pages, o.alloc, t.id, q.pages[t.id]);
    if q.split.Some? {
      FreshIsFresh(o.pages[t.id := q.pages[t.id]], o.alloc, q.pages[Fresh(o.alloc)]);
    }
  }

  lemma {:induction false} PutRecFramed(pages: PageMap, a: Alloc, t: Tree, k: Bytes, v: Bytes)
    requires Puttable(t, k, v) && AllocOk(pages, a) && Stored(pages, t)
    ensures Framed(pages, t, PutRec(pages, a, t, k, v))
    decreases t
  {
    if t.Leaf? {
      PutLeafFramed(pages, a, t, k, v);
    } else {
      var i := ChildIndex(t.page.links.cells, k);
      assert |RootIds(t.kids)| == |Children(t.page.links.cells, t.page.right)|;
      PutRecFramed(pages, a, t.kids[i], k, v);
      MemberPages(t.kids, i);
      var o := PutRec(pages, a, t.kids[i], k, v);
      if o.split.Some? {
        LinkSplitFramed(pages, t, i, o);
      }
    }
  }

  // ---- what a put should lead to -------------------------------------------

  /** The forest f, of one tree or of two around the promoted key, is what o left of t. */
  ghost predicate Roots(t: Tree, o: Outcome, f: seq<Tree>) {
    match o.split
    case None => |f| == 1 && f[0].id == t.id
    case Some(s) => |f| == 2 && f[0].id == t.id && f[1].id == s.right && |s.key| <= MAX_KEY_VALUE
  }

  ghost predicate Grown(pages: PageMap, t: Tree, k: Bytes, v: Bytes, o: Outcome, f: seq<Tree>)
    requires Shape(t)
  {
    && Roots(t, o, f)
    && ShapeForest(f) && StoredForest(o.pages, f) && SizedForest(f)
    && (forall h :: Level(t, h) ==> LevelForest(f, h))
    && PagesOfForest(f) == PagesOf(t) + NewPages(pages, o.pages)
    && EntriesOfForest(f) == Upsert(EntriesOf(t), k, v)
    && ChainLike(LeavesOf(t), LeavesOfForest(f))
  }

  // ---- leaves --------------------------------------------------------------

  lemma {:induction false} InsertedSized(t: Tree, k: Bytes, v: Bytes)
    requires t.Leaf? && Puttable(t, k, v) && LeafFits(t.page.entries, k, v)
    ensures SizedPage(LeafPage(InsertAt(LeafWithout(t.page.entries, k), FindIndex(t.page.entries.cells, k).index,
                                        Cell(k, v), EntrySize(Cell(k, v))), t.page.next))
  {
    var s, c, p := t.page.entries, Cell(k, v), FindIndex(t.page.entries.cells, k);
    var w := LeafWithout(s, k);
    CellsBounded(t, k, v);
    WithoutFootprint(s, k);
    UpsertFootprint(s, k, v);
    assert InsertAt(w, p.index, c, EntrySize(c)).cells == LeafCells(s, k, v);
  }

  lemma {:induction false} WithoutFootprint(s: Slots<Bytes>, k: Bytes)
    ensures var w := LeafWithout(s, k).cells;
            Footprint(w, EntrySize) + SLOT * (|s.cells| - |w|) <= Footprint(s.cells, EntrySize)
  {
    var p := FindIndex(s.cells, k);
    if p.exact {
      TotalWithout(s.cells, EntrySize, p.index);
    }
  }

  lemma {:induction false} UpsertFootprint(s: Slots<Bytes>, k: Bytes, v: Bytes)
    ensures Footprint(LeafCells(s, k, v), EntrySize) ==
            Footprint(LeafWithout(s, k).cells, EntrySize) + EntrySize(Cell(k, v)) + SLOT
  {
    var p, cells := FindIndex(s.cells, k), LeafCells(s, k, v);
    assert cells[p.index] == Cell(k, v);
    assert cells[..p.index] + cells[p.index + 1..] == LeafWithout(s, k).cells;
    TotalWithout(cells, EntrySize, p.index);
  }

  lemma {:induction false} PackedSized(cells: seq<Entry>, next: PageID)
    requires Footprint(cells, EntrySize) <= CAPACITY
    requires forall i :: 0 <= i < |cells| ==> |cells[i].key| <= MAX_KEY_VALUE && |cells[i].val| <= MAX_KEY_VALUE
    ensures SizedPage(LeafPage(Pack(EmptySlots(), cells, EntrySize), next))
    ensures Pack(EmptySlots(), cells, EntrySize).cells == cells
  {
    PackKeepsAllIff(EmptySlots(), cells, EntrySize);
    assert EmptySlots<Bytes>().cells + cells == cells;
  }

  lemma {:induction false} PackedLinksSized(cells: seq<Link>, right: PageID)
    requires Footprint(cells, LinkSize) <= CAPACITY
    requires forall i :: 0 <= i < |cells| ==> |cells[i].key| <= MAX_KEY_VALUE
    ensures SizedPage(InternalPage(Pack(EmptySlots(), cells, LinkSize), right))
    ensures Pack(EmptySlots(), cells, LinkSize).cells == cells
  {
    PackKeepsAllIff(EmptySlots(), cells, LinkSize);
    assert EmptySlots<PageID>().cells + cells == cells;
  }

  lemma {:induction false} GrowLeafInPlace(pages: PageMap, a: Alloc, t: Tree, k: Bytes, v: Bytes) returns (f: seq<Tree>)
    requires t.Leaf? && Puttable(t, k, v) && Stored(pages, t) && Ascending(t.page.entries.cells)
    requires LeafFits(t.page.entries, k, v)
    ensures f == [Leaf(t.id, PutLeaf(pages, a, t, k, v).pages[t.id])]
    ensures Grown(pages, t, k, v, PutLeaf(pages, a, t, k, v), f)
  {
    var o := PutLeaf(pages, a, t, k, v);
    var l := Leaf(t.id, o.pages[t.id]);
    f := [l];
    InsertedSized(t, k, v);
    LeafCellsAreUpsert(t.page.entries, k, v);
    SingletonForest(l);
    assert o.pages.Keys == pages.Keys;
    assert forall h :: Level(t, h) ==> Level(l, h);
  }

  /** The two leaves a split leaf becomes. */
  ghost function SplitLeaves(a: Alloc, t: Tree, k: Bytes, v: Bytes): (f: seq<Tree>)
    requires t.Leaf? && Shape(t)
    ensures |f| == 2 && ShapeForest(f) && f[0].Leaf? && f[1].Leaf?
  {
    var (left, right) := LeafHalves(LeafCells(t.page.entries, k, v));
    [Leaf(t.id, LeafPage(left, Fresh(a))), Leaf(Fresh(a), LeafPage(right, t.page.next))]
  }

  lemma {:induction false} SplitLeavesCells(a: Alloc, t: Tree, k: Bytes, v: Bytes)
    requires t.Leaf? && Puttable(t, k, v)
    requires LeafHalvesFit(LeafCells(t.page.entries, k, v))
    ensures var f, cells := SplitLeaves(a, t, k, v), LeafCells(t.page.entries, k, v);
            && f[0].page.entries.cells == cells[..|cells| / 2]
            && f[1].page.entries.cells == cells[|cells| / 2..]
            && EntriesOfForest(f) == cells
            && SizedForest(f)
  {
    var f, cells := SplitLeaves(a, t, k, v), LeafCells(t.page.entries, k, v);
    var mid := |cells| / 2;
    CellsBounded(t, k, v);
    PackedSized(cells[..mid], Fresh(a));
    PackedSized(cells[mid..], t.page.next);
    TwoTrees(f[0], f[1]);
    assert cells[..mid] + cells[mid..] == cells;
  }

  lemma {:induction false} GrowLeafSplit(pages: PageMap, a: Alloc, t: Tree, k: Bytes, v: Bytes) returns (f: seq<Tree>)
    requires t.Leaf? && Puttable(t, k, v) && Stored(pages, t) && Ascending(t.page.entries.cells)
    requires AllocOk(pages, a)
    requires !LeafFits(t.page.entries, k, v) && LeafHalvesFit(LeafCells(t.page.entries, k, v))
    ensures f == SplitLeaves(a, t, k, v)
    ensures Grown(pages, t, k, v, PutLeaf(pages, a, t, k, v), f)
  {
    f := SplitLeaves(a, t, k, v);
    var o := PutLeaf(pages, a, t, k, v);
    FreshIsFresh(pages, a, t.page);
    SplitLeavesCells(a, t, k, v);
    LeafCellsAreUpsert(t.page.entries, k, v);
    SplitLeavesRefs(a, t, k, v, f);
    SplitLeavesKey(t, k, v);
    TwoStored(pages, o.pages, f[0], f[1]);
  }

  lemma {:induction false} TwoStored(pages: PageMap, pages': PageMap, l: Tree, r: Tree)
    requires l.Leaf? && r.Leaf? && l.id in pages && r.id !in pages && pages' == pages[l.id := l.page][r.id := r.page]
    ensures StoredForest(pages', [l, r]) && NewPages(pages, pages') == multiset{r.id}
  {
    assert pages'.Keys - pages.Keys == {r.id};
  }

  /** The pages and the chain of the two leaves. */
  lemma {:induction false} SplitLeavesRefs(a: Alloc, t: Tree, k: Bytes, v: Bytes, f: seq<Tree>)
    requires t.Leaf? && Shape(t) && f == SplitLeaves(a, t, k, v) && Fresh(a) != 0
    ensures PagesOfForest(f) == multiset{t.id, Fresh(a)} && ChainLike(LeavesOf(t), LeavesOfForest(f))
            && LevelForest(f, 0)
  {
    TwoTrees(f[0], f[1]);
    assert f == [f[0], f[1]];
  }

  lemma {:induction false} SplitLeavesKey(t: Tree, k: Bytes, v: Bytes)
    requires t.Leaf? && Puttable(t, k, v) && LeafHalvesFit(LeafCells(t.page.entries, k, v))
    ensures var r := LeafHalves(LeafCells(t.page.entries, k, v)).1;
            |r.cells| > 0 && |r.cells[0].key| <= MAX_KEY_VALUE
  {
    var cells := LeafCells(t.page.entries, k, v);
    RightHalfNonEmpty(t, k, v);
    CellsBounded(t, k, v);
    PackedSized(cells[|cells| / 2..], 0);
  }

  lemma {:induction false} TwoTrees(l: Tree, r: Tree)
    ensures PagesOfForest([l, r]) == PagesOf(l) + PagesOf(r)
    ensures Shape(l) && Shape(r) ==>
              && EntriesOfForest([l, r]) == EntriesOf(l) + EntriesOf(r)
              && LeavesOfForest([l, r]) == LeavesOf(l) + LeavesOf(r)
  {
    assert [l, r] == [l] + [r];
    PagesAppend([l], [r]);
    SingletonForest(l);
    SingletonForest(r);
    if Shape(l) && Shape(r) {
      EntriesAppend([l], [r]);
      LeavesAppend([l], [r]);
    }
  }

  // ---- internal pages ------------------------------------------------------

  /** What replacing child i of t by its outcome does to the children as a whole. */
  ghost predicate KidsGrown(pages: PageMap, t: Tree, k: Bytes, v: Bytes, o: Outcome, f: seq<Tree>)
    requires t.Node? && Shape(t)
  {
    && ShapeForest(f) && StoredForest(o.pages, f) && SizedForest(f)
    && (forall h: nat :: Level(t, h + 1) ==> LevelForest(f, h))
    && PagesOfForest(f) == PagesOfForest(t.kids) + NewPages(pages, o.pages)
    && EntriesOfForest(f) == Upsert(EntriesOf(t), k, v)
    && ChainLike(LeavesOf(t), LeavesOfForest(f))
  }

  /** Subtrees other than child i are untouched by the put below child i. */
  lemma {:induction false} SiblingsStored(pages: PageMap, t: Tree, i: nat, o: Outcome, j: nat)
    requires t.Node? && Stored(pages, t) && NoSharing(PagesOf(t))
    requires i < |t.kids| && j < |t.kids| && i != j
    requires Framed(pages, t.kids[i], o)
    ensures Stored(o.pages, t.kids[j])
    ensures PagesOf(t.kids[i]) !! PagesOf(t.kids[j])
    ensures t.id !in PagesOf(t.kids[j])
  {
    KidsDisjoint(t, i, j);
    forall x | x in PagesOf(t.kids[j]) ensures x in o.pages && (x in pages ==> o.pages[x] == pages[x]) {
      StoredPages(pages, t.kids[j], x);
    }
    StoredFrame(pages, o.pages, t.kids[j]);
  }

  lemma {:induction false} KidsDisjoint(t: Tree, i: nat, j: nat)
    requires t.Node? && NoSharing(PagesOf(t))
    requires i < |t.kids| && j < |t.kids| && i != j
    ensures PagesOf(t.kids[i]) !! PagesOf(t.kids[j])
    ensures t.id !in PagesOf(t.kids[i]) && t.id !in PagesOf(t.kids[j])
  {
    forall x ensures PagesOf(t)[x] >= (if x == t.id then 1 else 0) + PagesOf(t.kids[i])[x] + PagesOf(t.kids[j])[x] {
      if i < j {
        PagesAddUp(t.kids, i, j, x);
      } else {
        PagesAddUp(t.kids, j, i, x);
      }
    }
    forall x ensures x !in PagesOf(t.kids[i]) || x !in PagesOf(t.kids[j]) {
      assert PagesOf(t)[x] >= PagesOf(t.kids[i])[x] + PagesOf(t.kids[j])[x];
    }
  }

  lemma {:induction false} KidsStored(pages: PageMap, t: Tree, i: nat, o: Outcome, g: seq<Tree>)
    requires t.Node? && Stored(pages, t) && NoSharing(PagesOf(t)) && i < |t.kids|
    requires Framed(pages, t.kids[i], o) && StoredForest(o.pages, g)
    ensures StoredForest(o.pages, Splice(t.kids, i, i + 1, g))
  {
    var f := Splice(t.kids, i, i + 1, g);
    forall m | 0 <= m < |f| ensures Stored(o.pages, f[m]) {
      if m < i {
        SiblingsStored(pages, t, i, o, m);
      } else if m < i + |g| {
        assert f[m] == g[m - i];
      } else {
        assert f[m] == t.kids[m - |g| + 1];
        SiblingsStored(pages, t, i, o, m - |g| + 1);
      }
    }
  }

  lemma {:induction false} KidsPages(pages: PageMap, t: Tree, k: Bytes, v: Bytes, i: nat, o: Outcome, g: seq<Tree>)
    requires t.Node? && Shape(t) && i < |t.kids|
    requires Grown(pages, t.kids[i], k, v, o, g)
    ensures PagesOfForest(Splice(t.kids, i, i + 1, g)) == PagesOfForest(t.kids) + NewPages(pages, o.pages)
  {
    Around(t.kids, i);
    SpliceForest(t.kids, i, g);
  }

  lemma {:induction false} KidsEntries(t: Tree, k: Bytes, v: Bytes, i: nat, g: seq<Tree>, lo: Bound, hi: Bound)
    requires t.Node? && Shape(t) && Ordered(t, lo, hi) && Within(lo, k, hi)
    requires i == ChildIndex(t.page.links.cells, k) < |t.kids|
    requires ShapeForest(g) && EntriesOfForest(g) == Upsert(EntriesOf(t.kids[i]), k, v)
    ensures ShapeForest(Splice(t.kids, i, i + 1, g))
    ensures EntriesOfForest(Splice(t.kids, i, i + 1, g)) == Upsert(EntriesOf(t), k, v)
  {
    var a, m, b := EntriesOfForest(t.kids[..i]), EntriesOf(t.kids[i]), EntriesOfForest(t.kids[i + 1..]);
    assert EntriesOf(t) == a + m + b by {
      EntriesAround(t.kids, i);
    }
    assert AllBelow(a, k) && AllAbove(b, k) by {
      ChildWithin(t, k, lo, hi);
      NeighboursApart(t.kids, Bounds(lo, t.page.links.cells, hi), i, k);
    }
    SpliceForest(t.kids, i, g);
    UpsertContext(a, m, b, k, v);
  }

  lemma {:induction false} KidsLeaves(t: Tree, i: nat, g: seq<Tree>)
    requires t.Node? && Shape(t) && i < |t.kids|
    requires ShapeForest(g) && ChainLike(LeavesOf(t.kids[i]), LeavesOfForest(g))
    ensures ShapeForest(Splice(t.kids, i, i + 1, g))
    ensures ChainLike(LeavesOf(t), LeavesOfForest(Splice(t.kids, i, i + 1, g)))
  {
    var a, m, b := LeavesOfForest(t.kids[..i]), LeavesOf(t.kids[i]), LeavesOfForest(t.kids[i + 1..]);
    assert LeavesOf(t) == a + m + b by {
      LeavesAround(t.kids, i);
    }
    SpliceForest(t.kids, i, g);
    ChainLikeContext(a, m, LeavesOfForest(g), b);
  }

  lemma {:induction false} ChildIndexBounds(links: seq<Link>, k: Bytes)
    requires Ascending(links)
    ensures var i := ChildIndex(links, k);
            (i > 0 ==> Leq(links[i - 1].key, k)) && (i < |links| ==> Less(k, links[i].key))
  {
    FindIndexIsLowerBound(links, k);
    LowerBoundSplits(links, k);
    var i := ChildIndex(links, k);
    if i < |links| && !Found(links, k) {
      assert Leq(k, links[i].key);
    }
  }

  /** Descent picks the child whose bounds hold the key. */
  lemma {:induction false} ChildWithin(t: Tree, k: Bytes, lo: Bound, hi: Bound)
    requires t.Node? && Shape(t) && Ordered(t, lo, hi) && Within(lo, k, hi)
    ensures var i, b := ChildIndex(t.page.links.cells, k), Bounds(lo, t.page.links.cells, hi);
            i < |t.kids| && Within(b[i], k, b[i + 1])
  {
    assert |RootIds(t.kids)| == |Children(t.page.links.cells, t.page.right)|;
    SeparatorsAscend(t, lo, hi);
    ChildIndexBounds(t.page.links.cells, k);
  }

  lemma {:induction false} GrowKids(pages: PageMap, t: Tree, k: Bytes, v: Bytes, i: nat, o: Outcome, g: seq<Tree>,
                                    lo: Bound, hi: Bound)
    requires t.Node? && Puttable(t, k, v) && Stored(pages, t) && NoSharing(PagesOf(t))
    requires Ordered(t, lo, hi) && Within(lo, k, hi) && i == ChildIndex(t.page.links.cells, k) < |t.kids|
    requires Framed(pages, t.kids[i], o) && Grown(pages, t.kids[i], k, v, o, g)
    ensures KidsGrown(pages, t, k, v, o, Splice(t.kids, i, i + 1, g))
  {
    var f := Splice(t.kids, i, i + 1, g);
    assert ShapeForest(f) && StoredForest(o.pages, f) && SizedForest(f) by {
      KidsStored(pages, t, i, o, g);
    }
    assert PagesOfForest(f) == PagesOfForest(t.kids) + NewPages(pages, o.pages) by {
      KidsPages(pages, t, k, v, i, o, g);
    }
    assert EntriesOfForest(f) == Upsert(EntriesOf(t), k, v) by {
      KidsEntries(t, k, v, i, g, lo, hi);
    }
    assert ChainLike(LeavesOf(t), LeavesOfForest(f)) by {
      KidsLeaves(t, i, g);
    }
    KidsLevels(t, i, g, f);
  }

  lemma {:induction false} KidsLevels(t: Tree, i: nat, g: seq<Tree>, f: seq<Tree>)
    requires t.Node? && i < |t.kids| && f == Splice(t.kids, i, i + 1, g)
    requires forall h :: Level(t.kids[i], h) ==> LevelForest(g, h)
    ensures forall h: nat :: Level(t, h + 1) ==> LevelForest(f, h)
  {
    forall h: nat | Level(t, h + 1) ensures LevelForest(f, h) {
      KidsLevel(t, i, g, h);
    }
  }

  lemma {:induction false} KidsLevel(t: Tree, i: nat, g: seq<Tree>, h: nat)
    requires t.Node? && i < |t.kids| && Level(t, h + 1) && (Level(t.kids[i], h) ==> LevelForest(g, h))
    ensures LevelForest(Splice(t.kids, i, i + 1, g), h)
  {
    assert Level(t.kids[i], h);
  }

  /** Overwriting t's own page does not disturb its children. */
  lemma {:induction false} KidsStayStored(pages: PageMap, t: Tree, k: Bytes, v: Bytes, o: Outcome, f: seq<Tree>,
                                          pages': PageMap)
    requires t.Node? && Shape(t) && NoSharing(PagesOf(t)) && t.id in pages
    requires KidsGrown(pages, t, k, v, o, f)
    requires forall x :: x in o.pages && x != t.id ==> x in pages' && pages'[x] == o.pages[x]
    ensures StoredForest(pages', f)
  {
    forall m | 0 <= m < |f| ensures Stored(pages', f[m]) {
      forall x | x in PagesOf(f[m]) ensures x in pages' && (x in o.pages ==> pages'[x] == o.pages[x]) {
        StoredPages(o.pages, f[m], x);
        MemberPages(f, m);
        if x == t.id {
          assert PagesOf(t)[x] == 1 + PagesOfForest(t.kids)[x];
          assert false;
        }
      }
      StoredFrame(o.pages, pages', f[m]);
    }
  }

  // ---- links ---------------------------------------------------------------

  /** After linking the split of child i, the pointers are the old ones with the new page after child i. */
  lemma {:induction false} ChildrenWith(links: seq<Link>, right: PageID, i: nat, key: Bytes, child: PageID,
                                        newRight: PageID)
    requires i <= |links| && Children(links, right)[i] == child
    ensures Children(LinksWith(links, i, key, child, newRight), if i < |links| then right else newRight)
         == Splice(Children(links, right), i, i + 1, [child, newRight])
  {
  }

  lemma {:induction false} ChildrenHalves(cells: seq<Link>, right: PageID, mid: nat)
    requires mid < |cells|
    ensures Children(cells[..mid], cells[mid].val) == Children(cells, right)[..mid + 1]
    ensures Children(cells[mid + 1..], right) == Children(cells, right)[mid + 1..]
  {
  }

  lemma {:induction false} RootIdsSplice(f: seq<Tree>, i: nat, g: seq<Tree>)
    requires i < |f|
    ensures RootIds(Splice(f, i, i + 1, g)) == Splice(RootIds(f), i, i + 1, RootIds(g))
  {
  }

  lemma {:induction false} RootIdsHalves(f: seq<Tree>, m: nat)
    requires m <= |f|
    ensures RootIds(f[..m]) == RootIds(f)[..m] && RootIds(f[m..]) == RootIds(f)[m..]
  {
  }

  lemma {:induction false} LinksWithSized(page: Page, i: nat, key: Bytes, child: PageID, newRight: PageID)
    requires page.InternalPage? && SizedPage(page) && i <= |page.links.cells| && |key| <= MAX_KEY_VALUE
    ensures var cells := LinksWith(page.links.cells, i, key, child, newRight);
            && |cells| == |page.links.cells| + 1
            && (forall j :: 0 <= j < |cells| ==> |cells[j].key| <= MAX_KEY_VALUE)
            && Footprint(cells, LinkSize) == Footprint(page.links.cells, LinkSize) + LinkSize(Cell(key, child)) + SLOT
  {
    var links := page.links.cells;
    var c0, cells := InsertedAt(links, i, Cell(key, child)), LinksWith(links, i, key, child, newRight);
    assert c0[..i] + c0[i + 1..] == links;
    TotalWithout(c0, LinkSize, i);
    if i < |links| {
      TotalWithout(c0, LinkSize, i + 1);
      TotalWithout(cells, LinkSize, i + 1);
      assert c0[..i + 1] + c0[i + 2..] == cells[..i + 1] + cells[i + 2..];
    }
    forall j | 0 <= j < |cells| ensures |cells[j].key| <= MAX_KEY_VALUE {
      LinkKeys(links, i, key, child, newRight, j);
    }
  }

  lemma {:induction false} LinkKeys(links: seq<Link>, i: nat, key: Bytes, child: PageID, newRight: PageID, j: nat)
    requires i <= |links| && j <= |links|
    ensures |LinksWith(links, i, key, child, newRight)| == |links| + 1
    ensures LinksWith(links, i, key, child, newRight)[j].key ==
            if j < i then links[j].key else if j == i then key else links[j - 1].key
  {
  }

  /** The kids of t after child i became g, ready to be linked. */
  lemma {:induction false} KidsPointed(t: Tree, i: nat, g: seq<Tree>, o: Outcome)
    requires t.Node? && Shape(t) && i < |t.kids| && Roots(t.kids[i], o, g)
    ensures o.split.None? ==> RootIds(Splice(t.kids, i, i + 1, g)) == Children(t.page.links.cells, t.page.right)
    ensures o.split.Some? ==>
              var s := o.split.value;
              && i <= |t.page.links.cells|
              && RootIds(Splice(t.kids, i, i + 1, g))
                 == Children(LinksWith(t.page.links.cells, i, s.key, t.kids[i].id, s.right),
                             if i < |t.page.links.cells| then t.page.right else s.right)
  {
    var links, right := t.page.links.cells, t.page.right;
    assert RootIds(t.kids)[i] == t.kids[i].id;
    RootIdsSplice(t.kids, i, g);
    match o.split
    case None =>
      assert RootIds(g) == [t.kids[i].id];
      assert Splice(RootIds(t.kids), i, i + 1, [t.kids[i].id]) == RootIds(t.kids);
    case Some(s) =>
      assert RootIds(g) == [t.kids[i].id, s.right];
      ChildrenWith(links, right, i, s.key, t.kids[i].id, s.right);
  }

  // ---- one level of a put --------------------------------------------------

  lemma {:induction false} SameLevel(t: Tree, n: Tree)
    requires t.Node? && n.Node?
    requires forall h: nat :: Level(t, h + 1) ==> LevelForest(n.kids, h)
    ensures forall h :: Level(t, h) ==> Level(n, h)
  {
    forall h: nat | Level(t, h) ensures Level(n, h) {
      var d: nat := h - 1;
      assert Level(t, d + 1) && LevelForest(n.kids, d);
    }
  }

  lemma {:induction false} RootApart(t: Tree, i: nat)
    requires t.Node? && NoSharing(PagesOf(t)) && i < |t.kids|
    ensures t.id !in PagesOf(t.kids[i])
  {
    Around(t.kids, i);
    assert PagesOf(t)[t.id] >= 1 + PagesOf(t.kids[i])[t.id];
  }

  /** The child did not split: t's page stays. */
  lemma {:induction false} GrowUnsplit(pages: PageMap, t: Tree, k: Bytes, v: Bytes, i: nat, o: Outcome, g: seq<Tree>)
    returns (f: seq<Tree>)
    requires t.Node? && Puttable(t, k, v) && Stored(pages, t) && NoSharing(PagesOf(t)) && i < |t.kids|
    requires o.split.None? && Roots(t.kids[i], o, g) && Framed(pages, t.kids[i], o)
    requires KidsGrown(pages, t, k, v, o, Splice(t.kids, i, i + 1, g))
    ensures f == [Node(t.id, t.page, Splice(t.kids, i, i + 1, g))]
    ensures Grown(pages, t, k, v, o, f)
  {
    var n := Node(t.id, t.page, Splice(t.kids, i, i + 1, g));
    f := [n];
    KidsPointed(t, i, g, o);
    SingletonForest(n);
    SameLevel(t, n);
    RootApart(t, i);
  }

  lemma {:induction false} LinkedNode(t: Tree, i: nat, o: Outcome, g: seq<Tree>, n: Tree)
    requires t.Node? && Shape(t) && Sized(t) && i < |t.kids| && o.split.Some? && Roots(t.kids[i], o, g)
    requires ShapeForest(Splice(t.kids, i, i + 1, g)) && SizedForest(Splice(t.kids, i, i + 1, g))
    requires Fits(t.page.links, LinkSize(Cell(o.split.value.key, t.kids[i].id)))
    requires n == Node(t.id, LinkSplit(t, i, o).pages[t.id], Splice(t.kids, i, i + 1, g))
    ensures Shape(n) && Sized(n)
  {
    var s := o.split.value;
    KidsPointed(t, i, g, o);
    LinksWithSized(t.page, i, s.key, t.kids[i].id, s.right);
  }

  /** The child split and its new link fits t's page. */
  lemma {:induction false} GrowLinked(pages: PageMap, t: Tree, k: Bytes, v: Bytes, i: nat, o: Outcome, g: seq<Tree>)
    returns (f: seq<Tree>)
    requires t.Node? && Puttable(t, k, v) && Stored(pages, t) && NoSharing(PagesOf(t)) && i < |t.kids|
    requires o.split.Some? && Roots(t.kids[i], o, g) && Framed(pages, t.kids[i], o)
    requires KidsGrown(pages, t, k, v, o, Splice(t.kids, i, i + 1, g))
    requires Fits(t.page.links, LinkSize(Cell(o.split.value.key, t.kids[i].id)))
    ensures f == [Node(t.id, LinkSplit(t, i, o).pages[t.id], Splice(t.kids, i, i + 1, g))]
    ensures Grown(pages, t, k, v, LinkSplit(t, i, o), f)
  {
    var q, kids := LinkSplit(t, i, o), Splice(t.kids, i, i + 1, g);
    var n := Node(t.id, q.pages[t.id], kids);
    f := [n];
    SameLevel(t, n);
    LinkedNode(t, i, o, g, n);
    assert Stored(q.pages, n) by {
      KidsStayStored(pages, t, k, v, o, kids, q.pages);
    }
    assert q.pages.Keys == o.pages.Keys;
    NodeGrown(pages, t, k, v, o, q.pages, n);
  }

  /** A node over grown children. */
  lemma {:induction false} NodeGrown(pages: PageMap, t: Tree, k: Bytes, v: Bytes, o: Outcome, pages': PageMap, n: Tree)
    requires t.Node? && Shape(t) && n.Node? && n.id == t.id && Shape(n) && KidsGrown(pages, t, k, v, o, n.kids)
    requires pages'.Keys == o.pages.Keys
    ensures PagesOfForest([n]) == PagesOf(t) + NewPages(pages, pages')
    ensures EntriesOfForest([n]) == Upsert(EntriesOf(t), k, v) && ChainLike(LeavesOf(t), LeavesOfForest([n]))
  {
    SingletonForest(n);
  }

  /** The two internal nodes that a full page becomes, given all its links and children. */
  ghost function SplitNodes(id: PageID, newId: PageID, cells: seq<Link>, right: PageID, kids: seq<Tree>): (f: seq<Tree>)
    requires |cells| > 0 && |kids| == |cells| + 1
    ensures |f| == 2 && f[0].Node? && f[1].Node? && f[0].kids + f[1].kids == kids
    ensures f[0].id == id && f[1].id == newId
  {
    var mid := |cells| / 2;
    [Node(id, InternalPage(InternalHalves(cells).0, cells[mid].val), kids[..mid + 1]),
     Node(newId, InternalPage(InternalHalves(cells).1, right), kids[mid + 1..])]
  }

  lemma {:induction false} HalfShape(id: PageID, page: Page, kids: seq<Tree>, all: seq<Tree>, m: nat, upper: bool)
    requires page.InternalPage? && ShapeForest(all) && SizedForest(all) && m <= |all| && SizedPage(page)
    requires kids == if upper then all[m..] else all[..m]
    requires Children(page.links.cells, page.right) == if upper then RootIds(all)[m..] else RootIds(all)[..m]
    ensures Shape(Node(id, page, kids)) && Sized(Node(id, page, kids))
  {
    RootIdsHalves(all, m);
  }

  lemma {:induction false} SplitNodesShape(id: PageID, newId: PageID, cells: seq<Link>, right: PageID, kids: seq<Tree>)
    requires |cells| > 0 && |kids| == |cells| + 1 && RootIds(kids) == Children(cells, right)
    requires ShapeForest(kids) && SizedForest(kids) && InternalHalvesFit(cells)
    requires forall j :: 0 <= j < |cells| ==> |cells[j].key| <= MAX_KEY_VALUE
    ensures var f := SplitNodes(id, newId, cells, right, kids);
            && ShapeForest(f) && SizedForest(f)
            && f[0].page.links.cells == cells[..|cells| / 2] && f[1].page.links.cells == cells[|cells| / 2 + 1..]
  {
    var mid := |cells| / 2;
    PackedLinksSized(cells[..mid], cells[mid].val);
    PackedLinksSized(cells[mid + 1..], right);
    ChildrenHalves(cells, right, mid);
    HalfShape(id, InternalPage(InternalHalves(cells).0, cells[mid].val), kids[..mid + 1], kids, mid + 1, false);
    HalfShape(newId, InternalPage(InternalHalves(cells).1, right), kids[mid + 1..], kids, mid + 1, true);
  }

  /** A node whose children grew, cut into two nodes. */
  lemma {:induction false} CutGrown(pages: PageMap, t: Tree, k: Bytes, v: Bytes, o: Outcome, q: Outcome, f: seq<Tree>)
    requires t.Node? && Shape(t) && NoSharing(PagesOf(t)) && t.id in pages && pages.Keys <= o.pages.Keys
    requires |f| == 2 && f[0].Node? && f[1].Node? && ShapeForest(f) && SizedForest(f)
    requires f[0].id == t.id && f[1].id !in o.pages
    requires KidsGrown(pages, t, k, v, o, f[0].kids + f[1].kids)
    requires q.pages == o.pages[t.id := f[0].page][f[1].id := f[1].page]
    requires q.split.Some? && q.split.value.right == f[1].id && |q.split.value.key| <= MAX_KEY_VALUE
    ensures Grown(pages, t, k, v, q, f)
  {
    var kids, id := f[0].kids + f[1].kids, f[1].id;
    KidsStayStored(pages, t, k, v, o, kids, q.pages);
    SplitStored(q.pages, f, kids);
    SplitContents(f, kids);
    assert q.pages.Keys == o.pages.Keys + {id};
    NewPagesStep(pages, o.pages, q.pages, id);
    SplitPages(NewPages(pages, o.pages), NewPages(pages, q.pages), t, id, f);
    CutLevel(t, f);
  }

  lemma {:induction false} CutLevel(t: Tree, f: seq<Tree>)
    requires t.Node? && |f| == 2 && f[0].Node? && f[1].Node?
    requires forall h: nat :: Level(t, h + 1) ==> LevelForest(f[0].kids + f[1].kids, h)
    ensures forall h :: Level(t, h) ==> LevelForest(f, h)
  {
    var a, b := f[0].kids, f[1].kids;
    assert forall i :: 0 <= i < |a| ==> (a + b)[i] == a[i];
    assert forall i :: 0 <= i < |b| ==> (a + b)[|a| + i] == b[i];
    forall h: nat | Level(t, h + 1) ensures LevelForest(a, h) && LevelForest(b, h) {
      assert LevelForest(a + b, h);
    }
    SameLevel(t, f[0]);
    SameLevel(t, f[1]);
  }

  /** The child split and t's page is full, but not because of its rightmost child. */
  lemma {:induction false} GrowSplit(pages: PageMap, t: Tree, k: Bytes, v: Bytes, i: nat, o: Outcome, g: seq<Tree>,
                                     cells: seq<Link>) returns (f: seq<Tree>)
    requires t.Node? && Puttable(t, k, v) && Stored(pages, t) && NoSharing(PagesOf(t)) && i < |t.kids|
    requires o.split.Some? && Roots(t.kids[i], o, g) && Framed(pages, t.kids[i], o)
    requires KidsGrown(pages, t, k, v, o, Splice(t.kids, i, i + 1, g))
    requires !Fits(t.page.links, LinkSize(Cell(o.split.value.key, t.kids[i].id)))
    requires i < |t.page.links.cells|
    requires cells == LinksWith(t.page.links.cells, i, o.split.value.key, t.kids[i].id, o.split.value.right)
    requires InternalHalvesFit(cells)
    ensures |g| == 2 && |t.kids| == |cells|
    ensures f == SplitNodes(t.id, Fresh(o.alloc), cells, t.page.right, Splice(t.kids, i, i + 1, g))
    ensures Grown(pages, t, k, v, LinkSplit(t, i, o), f)
  {
    assert |RootIds(t.kids)| == |Children(t.page.links.cells, t.page.right)|;
    var s, id := o.split.value, Fresh(o.alloc);
    var kids := Splice(t.kids, i, i + 1, g);
    f := SplitNodes(t.id, id, cells, t.page.right, kids);
    assert RootIds(kids) == Children(cells, t.page.right) by {
      KidsPointed(t, i, g, o);
    }
    LinksWithSized(t.page, i, s.key, t.kids[i].id, s.right);
    SplitNodesShape(t.id, id, cells, t.page.right, kids);
    FreshIsFresh(o.pages, o.alloc, t.page);
    CutGrown(pages, t, k, v, o, LinkSplit(t, i, o), f);
  }

  lemma {:induction false} SplitStored(pages: PageMap, f: seq<Tree>, kids: seq<Tree>)
    requires |f| == 2 && f[0].Node? && f[1].Node? && f[0].kids + f[1].kids == kids
    requires StoredForest(pages, kids)
    requires f[0].id in pages && pages[f[0].id] == f[0].page && f[1].id in pages && pages[f[1].id] == f[1].page
    ensures StoredForest(pages, f)
  {
    assert forall i :: 0 <= i < |f[0].kids| ==> f[0].kids[i] == kids[i];
    assert forall i :: 0 <= i < |f[1].kids| ==> f[1].kids[i] == kids[|f[0].kids| + i];
  }

  lemma {:induction false} SplitContents(f: seq<Tree>, kids: seq<Tree>)
    requires |f| == 2 && f[0].Node? && f[1].Node? && f[0].kids + f[1].kids == kids && ShapeForest(f)
    ensures ShapeForest(kids)
    ensures EntriesOfForest(f) == EntriesOfForest(kids) && LeavesOfForest(f) == LeavesOfForest(kids)
  {
    assert f == [f[0], f[1]];
    TwoTrees(f[0], f[1]);
    EntriesAppend(f[0].kids, f[1].kids);
    LeavesAppend(f[0].kids, f[1].kids);
  }

  lemma {:induction false} NewPagesStep(pages: PageMap, mid: PageMap, pages': PageMap, id: PageID)
    requires pages.Keys <= mid.Keys && id !in mid && pages'.Keys == mid.Keys + {id}
    ensures NewPages(pages, pages') == NewPages(pages, mid) + multiset{id}
  {
    assert pages'.Keys - pages.Keys == (mid.Keys - pages.Keys) + {id};
  }

  lemma {:induction false} SplitPages(new0: multiset<PageID>, new1: multiset<PageID>, t: Tree, id: PageID, f: seq<Tree>)
    requires t.Node? && |f| == 2 && f[0].Node? && f[1].Node? && f[0].id == t.id && f[1].id == id
    requires new1 == new0 + multiset{id}
    requires PagesOfForest(f[0].kids + f[1].kids) == PagesOfForest(t.kids) + new0
    ensures PagesOfForest(f) == PagesOf(t) + new1
  {
    PagesAppend(f[0].kids, f[1].kids);
    assert f == [f[0], f[1]];
    TwoTrees(f[0], f[1]);
    Regroup(t.id, id, PagesOfForest(f[0].kids), PagesOfForest(f[1].kids), PagesOfForest(t.kids), new0);
  }

  lemma {:induction false} Regroup(x: PageID, y: PageID, a: multiset<PageID>, b: multiset<PageID>, k: multiset<PageID>,
                                   n: multiset<PageID>)
    requires a + b == k + n
    ensures (multiset{x} + a) + (multiset{y} + b) == (multiset{x} + k) + (n + multiset{y})
  {
    forall z ensures ((multiset{x} + a) + (multiset{y} + b))[z] == ((multiset{x} + k) + (n + multiset{y}))[z] {
      assert (a + b)[z] == (k + n)[z];
    }
  }

  // ---- order ---------------------------------------------------------------

  /** The bounds of what o left of a subtree between lo and hi. */
  ghost function OutBounds(lo: Bound, o: Outcome, hi: Bound): (b: seq<Bound>)
    ensures |b| >= 2 && b[0] == lo && b[|b| - 1] == hi
  {
    match o.split
    case None => [lo, hi]
    case Some(s) => [lo, Some(s.key), hi]
  }

  lemma {:induction false} UpsertWithin(s: seq<Entry>, k: Bytes, v: Bytes, lo: Bound, hi: Bound)
    requires Ascending(s) && AllWithin(lo, s, hi) && Within(lo, k, hi)
    ensures Ascending(Upsert(s, k, v)) && AllWithin(lo, Upsert(s, k, v), hi)
  {
    UpsertAscending(s, k, v);
    UpsertMembership(s, k, v);
    var u := Upsert(s, k, v);
    forall i | 0 <= i < |u| ensures Within(lo, u[i].key, hi) {
      assert u[i] in u;
    }
  }

  lemma {:induction false} LeafInPlaceOrdered(pages: PageMap, a: Alloc, t: Tree, k: Bytes, v: Bytes, lo: Bound,
                                              hi: Bound, f: seq<Tree>)
    requires t.Leaf? && Puttable(t, k, v) && Ordered(t, lo, hi) && Within(lo, k, hi) && BoundLess(lo, hi)
    requires LeafFits(t.page.entries, k, v)
    requires f == [Leaf(t.id, PutLeaf(pages, a, t, k, v).pages[t.id])] && ShapeForest(f)
    ensures OrderedForest(f, [lo, hi])
  {
    LeafCellsAreUpsert(t.page.entries, k, v);
    UpsertWithin(t.page.entries.cells, k, v, lo, hi);
    OneOrdered(f[0], lo, hi);
  }

  /** Two leaves cut from ordered cells are ordered unless the left one has no key range. */
  lemma {:induction false} HalvesOrdered(f: seq<Tree>, cells: seq<Entry>, lo: Bound, hi: Bound)
    requires |f| == 2 && f[0].Leaf? && f[1].Leaf? && ShapeForest(f) && |cells| > 0
    requires f[0].page.entries.cells == cells[..|cells| / 2] && f[1].page.entries.cells == cells[|cells| / 2..]
    requires Ascending(cells) && AllWithin(lo, cells, hi)
    ensures var p := Some(cells[|cells| / 2].key);
            OrderedForest(f, [lo, p, hi]) <==> |cells| > 1 || BoundLess(lo, p)
  {
    var mid := |cells| / 2;
    var p := cells[mid].key;
    HalvesWithin(cells, lo, hi);
    TwoOrdered(f, lo, Some(p), hi);
    assert Within(lo, p, hi);
    if |cells| > 1 && lo.Some? {
      assert Within(lo, cells[0].key, hi);
      LeqLessTransitive(lo.value, cells[0].key, p);
    }
  }

  lemma {:induction false} LeafSplitOrdered(pages: PageMap, a: Alloc, t: Tree, k: Bytes, v: Bytes, lo: Bound, hi: Bound)
    requires t.Leaf? && Puttable(t, k, v) && Ordered(t, lo, hi) && Within(lo, k, hi)
    requires !LeafFits(t.page.entries, k, v) && LeafHalvesFit(LeafCells(t.page.entries, k, v))
    ensures OrderedForest(SplitLeaves(a, t, k, v), OutBounds(lo, PutLeaf(pages, a, t, k, v), hi)) <==>
            KeepsOrder(t, k, v, lo)
  {
    var cells := LeafCells(t.page.entries, k, v);
    assert OutBounds(lo, PutLeaf(pages, a, t, k, v), hi) == [lo, Some(cells[|cells| / 2].key), hi] by {
      RightHalfNonEmpty(t, k, v);
    }
    assert Ascending(cells) && AllWithin(lo, cells, hi) by {
      LeafCellsAreUpsert(t.page.entries, k, v);
      UpsertWithin(t.page.entries.cells, k, v, lo, hi);
    }
    SplitLeavesCells(a, t, k, v);
    HalvesOrdered(SplitLeaves(a, t, k, v), cells, lo, hi);
    KeepsLeafOrder(t, k, v, lo);
  }

  lemma {:induction false} KeepsLeafOrder(t: Tree, k: Bytes, v: Bytes, lo: Bound)
    requires t.Leaf? && Shape(t) && !LeafFits(t.page.entries, k, v)
    ensures var cells := LeafCells(t.page.entries, k, v);
            |cells| > 0 && (KeepsOrder(t, k, v, lo) <==> |cells| > 1 || BoundLess(lo, Some(cells[|cells| / 2].key)))
  {
    var cells := LeafCells(t.page.entries, k, v);
    assert |cells| == 1 ==> cells == [Cell(k, v)];
  }

  lemma {:induction false} HalvesWithin(cells: seq<Entry>, lo: Bound, hi: Bound)
    requires |cells| > 0 && Ascending(cells) && AllWithin(lo, cells, hi)
    ensures var mid := |cells| / 2;
            && Ascending(cells[..mid]) && AllWithin(lo, cells[..mid], Some(cells[mid].key))
            && Ascending(cells[mid..]) && AllWithin(Some(cells[mid].key), cells[mid..], hi)
  {
    var mid := |cells| / 2;
    forall i | 0 <= i < |cells[..mid]| ensures Within(lo, cells[..mid][i].key, Some(cells[mid].key)) {
      assert Within(lo, cells[i].key, hi);
    }
    forall i | 0 <= i < |cells[mid..]| ensures Within(Some(cells[mid].key), cells[mid..][i].key, hi) {
      assert Within(lo, cells[mid + i].key, hi);
    }
  }

  /** Replacing one subtree by a forest with the same outer bounds keeps order exactly when
      the forest is ordered. */
  lemma {:induction false} OrderedSplice(f: seq<Tree>, b: seq<Bound>, i: nat, g: seq<Tree>, c: seq<Bound>)
    requires ShapeForest(f) && ShapeForest(g) && OrderedForest(f, b) && i < |f| && |g| > 0
    requires |c| == |g| + 1 && c[0] == b[i] && c[|g|] == b[i + 1]
    ensures ShapeForest(Splice(f, i, i + 1, g))
    ensures OrderedForest(Splice(f, i, i + 1, g), Splice(b, i, i + 2, c)) <==> OrderedForest(g, c)
  {
    var f', b' := Splice(f, i, i + 1, g), Splice(b, i, i + 2, c);
    forall m | 0 <= m < |f'|
      ensures OrderedAt(f', b', m) == if i <= m < i + |g| then OrderedAt(g, c, m - i) else true
    {
      SpliceIndex(f, i, i + 1, g, m);
      SpliceIndex(b, i, i + 2, c, m);
      SpliceIndex(b, i, i + 2, c, m + 1);
      if m < i {
        assert OrderedAt(f, b, m);
      } else if i + |g| <= m {
        assert OrderedAt(f, b, m - |g| + 1);
      }
    }
    if OrderedForest(f', b') {
      forall m | 0 <= m < |g| ensures OrderedAt(g, c, m) {
        assert OrderedAt(f', b', i + m);
      }
    }
  }

  lemma {:induction false} BoundsWith(lo: Bound, links: seq<Link>, hi: Bound, i: nat, key: Bytes, child: PageID,
                                      newRight: PageID)
    requires i <= |links|
    ensures var b := Bounds(lo, links, hi);
            Bounds(lo, LinksWith(links, i, key, child, newRight), hi) ==
              Splice(b, i, i + 2, [b[i], Some(key), b[i + 1]])
  {
    var b, c := Bounds(lo, links, hi), LinksWith(links, i, key, child, newRight);
    var x, y := Bounds(lo, c, hi), Splice(b, i, i + 2, [b[i], Some(key), b[i + 1]]);
    assert |x| == |y|;
    forall j | 0 <= j < |x| ensures x[j] == y[j] {
      BoundAt(lo, c, hi, j);
      assert y[j] == if j <= i then b[j] else if j == i + 1 then Some(key) else b[j - 1];
      BoundAt(lo, links, hi, if j <= i then j else j - 1);
      assert 0 < j <= |c| ==> c[j - 1].key == if j <= i then links[j - 1].key else if j == i + 1 then key
        else links[j - 2].key;
    }
  }

  lemma {:induction false} BoundAt(lo: Bound, links: seq<Link>, hi: Bound, j: nat)
    requires j < |links| + 2
    ensures Bounds(lo, links, hi)[j] == if j == 0 then lo else if j <= |links| then Some(links[j - 1].key) else hi
  {
  }

  lemma {:induction false} BoundsHalves(lo: Bound, cells: seq<Link>, hi: Bound, mid: nat)
    requires mid < |cells|
    ensures Bounds(lo, cells[..mid], Some(cells[mid].key)) == Bounds(lo, cells, hi)[..mid + 2]
    ensures Bounds(Some(cells[mid].key), cells[mid + 1..], hi) == Bounds(lo, cells, hi)[mid + 1..]
  {
  }

  /** The children of t stay in order exactly when what replaced child i is in order. */
  lemma {:induction false} KidsOrdered(t: Tree, i: nat, o: Outcome, g: seq<Tree>, lo: Bound, hi: Bound)
    requires t.Node? && Shape(t) && Ordered(t, lo, hi) && i < |t.kids| && Roots(t.kids[i], o, g) && ShapeForest(g)
    ensures ShapeForest(Splice(t.kids, i, i + 1, g)) && i <= |t.page.links.cells|
    ensures var b := Bounds(lo, t.page.links.cells, hi);
            (OrderedForest(Splice(t.kids, i, i + 1, g), Splice(b, i, i + 2, OutBounds(b[i], o, b[i + 1])))
             <==> OrderedForest(g, OutBounds(b[i], o, b[i + 1])))
    ensures o.split.Some? ==>
              var b, s := Bounds(lo, t.page.links.cells, hi), o.split.value;
              Bounds(lo, LinksWith(t.page.links.cells, i, s.key, t.kids[i].id, s.right), hi)
              == Splice(b, i, i + 2, OutBounds(b[i], o, b[i + 1]))
    ensures o.split.None? ==>
              var b := Bounds(lo, t.page.links.cells, hi);
              b == Splice(b, i, i + 2, OutBounds(b[i], o, b[i + 1]))
  {
    var b := Bounds(lo, t.page.links.cells, hi);
    OrderedSplice(t.kids, b, i, g, OutBounds(b[i], o, b[i + 1]));
    if o.split.Some? {
      var s := o.split.value;
      BoundsWith(lo, t.page.links.cells, hi, i, s.key, t.kids[i].id, s.right);
    }
  }

  /** Cutting an ordered node at a separator keeps order, and the other way round. */
  lemma {:induction false} CutOrdered(f: seq<Tree>, cells: seq<Link>, kids: seq<Tree>, lo: Bound, hi: Bound)
    requires |cells| > 0 && |kids| == |cells| + 1 && |f| == 2 && f[0].Node? && f[1].Node?
    requires ShapeForest(f) && ShapeForest(kids)
    requires f[0].page.links.cells == cells[..|cells| / 2] && f[1].page.links.cells == cells[|cells| / 2 + 1..]
    requires f[0].kids == kids[..|cells| / 2 + 1] && f[1].kids == kids[|cells| / 2 + 1..]
    ensures OrderedForest(f, [lo, Some(cells[|cells| / 2].key), hi]) <==> OrderedForest(kids, Bounds(lo, cells, hi))
  {
    var mid, b := |cells| / 2, Bounds(lo, cells, hi);
    var p := Some(cells[mid].key);
    BoundsHalves(lo, cells, hi, mid);
    OrderedHalves(kids, b, mid + 1);
    if OrderedForest(kids, b) {
      BoundsAscend(kids, b, 0, mid + 1);
      BoundsAscend(kids, b, mid + 1, |b| - 1);
    }
    TwoOrdered(f, lo, p, hi);
  }

  lemma {:induction false} OneOrdered(t: Tree, lo: Bound, hi: Bound)
    requires Shape(t)
    ensures OrderedForest([t], [lo, hi]) <==> BoundLess(lo, hi) && Ordered(t, lo, hi)
  {
    assert OrderedAt([t], [lo, hi], 0) <==> BoundLess(lo, hi) && Ordered(t, lo, hi);
  }

  lemma {:induction false} TwoOrdered(f: seq<Tree>, lo: Bound, p: Bound, hi: Bound)
    requires |f| == 2 && ShapeForest(f)
    ensures OrderedForest(f, [lo, p, hi]) <==>
            BoundLess(lo, p) && BoundLess(p, hi) && Ordered(f[0], lo, p) && Ordered(f[1], p, hi)
  {
    var b := [lo, p, hi];
    assert OrderedAt(f, b, 0) <==> BoundLess(lo, p) && Ordered(f[0], lo, p);
    assert OrderedAt(f, b, 1) <==> BoundLess(p, hi) && Ordered(f[1], p, hi);
  }

  // ---- the whole descent ---------------------------------------------------

  /** A put that keeps its pages grows the tree below any page: the new subtrees hold the
      updated entries, use the old pages and the new ones exactly once, sit at the same depth
      and continue the leaf chain. They are ordered exactly when the put keeps order. */
  lemma {:induction false} PutRecGrows(pages: PageMap, a: Alloc, t: Tree, k: Bytes, v: Bytes, lo: Bound, hi: Bound)
    returns (f: seq<Tree>)
    requires Puttable(t, k, v) && AllocOk(pages, a) && Stored(pages, t) && NoSharing(PagesOf(t))
    requires Ordered(t, lo, hi) && Within(lo, k, hi) && BoundLess(lo, hi)
    requires KeepsPages(pages, a, t, k, v)
    ensures Grown(pages, t, k, v, PutRec(pages, a, t, k, v), f)
    ensures OrderedForest(f, OutBounds(lo, PutRec(pages, a, t, k, v), hi)) <==> KeepsOrder(t, k, v, lo)
    decreases t
  {
    if t.Leaf? {
      f := LeafGrows(pages, a, t, k, v, lo, hi);
    } else {
      var i, b := ChildIndex(t.page.links.cells, k), Bounds(lo, t.page.links.cells, hi);
      KidDescends(pages, t, k, v, lo, hi, i, b[i], b[i + 1]);
      var g := PutRecGrows(pages, a, t.kids[i], k, v, b[i], b[i + 1]);
      PutRecFramed(pages, a, t.kids[i], k, v);
      f := NodeGrows(pages, t, k, v, PutRec(pages, a, t.kids[i], k, v), g, lo, hi);
    }
  }

  /** The child on the way down meets what its parent met. */
  lemma {:induction false} KidDescends(pages: PageMap, t: Tree, k: Bytes, v: Bytes, lo: Bound, hi: Bound, i: nat,
                                       l: Bound, h: Bound)
    requires t.Node? && Puttable(t, k, v) && Stored(pages, t) && NoSharing(PagesOf(t)) && Ordered(t, lo, hi)
             && Within(lo, k, hi)
    requires var b := Bounds(lo, t.page.links.cells, hi);
             i == ChildIndex(t.page.links.cells, k) && i + 1 < |b| && l == b[i] && h == b[i + 1]
    ensures i < |t.kids| && Puttable(t.kids[i], k, v) && Stored(pages, t.kids[i]) && NoSharing(PagesOf(t.kids[i]))
    ensures Ordered(t.kids[i], l, h) && Within(l, k, h) && BoundLess(l, h)
    ensures KeepsOrder(t, k, v, lo) == KeepsOrder(t.kids[i], k, v, l)
  {
    KidReady(t, k, v, lo, hi);
    KidUnshared(t, i);
  }

  lemma {:induction false} KidReady(t: Tree, k: Bytes, v: Bytes, lo: Bound, hi: Bound)
    requires t.Node? && Puttable(t, k, v) && Ordered(t, lo, hi) && Within(lo, k, hi)
    ensures var i, b := ChildIndex(t.page.links.cells, k), Bounds(lo, t.page.links.cells, hi);
            && i < |t.kids| && Puttable(t.kids[i], k, v)
            && Ordered(t.kids[i], b[i], b[i + 1]) && Within(b[i], k, b[i + 1]) && BoundLess(b[i], b[i + 1])
            && KeepsOrder(t, k, v, lo) == KeepsOrder(t.kids[i], k, v, b[i])
  {
    var i, b := ChildIndex(t.page.links.cells, k), Bounds(lo, t.page.links.cells, hi);
    ChildWithin(t, k, lo, hi);
    assert OrderedAt(t.kids, b, i);
    assert b[i] == if i == 0 then lo else Some(t.page.links.cells[i - 1].key);
  }

  lemma {:induction false} LeafGrows(pages: PageMap, a: Alloc, t: Tree, k: Bytes, v: Bytes, lo: Bound, hi: Bound)
    returns (f: seq<Tree>)
    requires t.Leaf? && Puttable(t, k, v) && AllocOk(pages, a) && Stored(pages, t)
    requires Ordered(t, lo, hi) && Within(lo, k, hi) && BoundLess(lo, hi)
    requires KeepsPages(pages, a, t, k, v)
    ensures Grown(pages, t, k, v, PutLeaf(pages, a, t, k, v), f)
    ensures OrderedForest(f, OutBounds(lo, PutLeaf(pages, a, t, k, v), hi)) <==> KeepsOrder(t, k, v, lo)
  {
    if LeafFits(t.page.entries, k, v) {
      f := GrowLeafInPlace(pages, a, t, k, v);
      LeafInPlaceOrdered(pages, a, t, k, v, lo, hi, f);
    } else {
      f := GrowLeafSplit(pages, a, t, k, v);
      LeafSplitOrdered(pages, a, t, k, v, lo, hi);
    }
  }

  lemma {:induction false} KidUnshared(t: Tree, i: nat)
    requires t.Node? && NoSharing(PagesOf(t)) && i < |t.kids|
    ensures NoSharing(PagesOf(t.kids[i]))
  {
    MemberPages(t.kids, i);
    forall x | x in PagesOf(t.kids[i]) ensures PagesOf(t.kids[i])[x] == 1 {
      assert PagesOf(t)[x] >= PagesOf(t.kids[i])[x];
    }
  }

  /** One level up from a child that grew into g. */
  lemma {:induction false} NodeGrows(pages: PageMap, t: Tree, k: Bytes, v: Bytes, o: Outcome, g: seq<Tree>, lo: Bound,
                                     hi: Bound) returns (f: seq<Tree>)
    requires t.Node? && Puttable(t, k, v) && Stored(pages, t) && NoSharing(PagesOf(t))
    requires Ordered(t, lo, hi) && Within(lo, k, hi) && BoundLess(lo, hi)
    requires ChildIndex(t.page.links.cells, k) < |t.kids|
    requires Framed(pages, t.kids[ChildIndex(t.page.links.cells, k)], o)
    requires Grown(pages, t.kids[ChildIndex(t.page.links.cells, k)], k, v, o, g)
    requires var i := ChildIndex(t.page.links.cells, k);
             o.split.Some? && !Fits(t.page.links, LinkSize(Cell(o.split.value.key, t.kids[i].id))) ==>
               && i < |t.page.links.cells|
               && InternalHalvesFit(LinksWith(t.page.links.cells, i, o.split.value.key, t.kids[i].id,
                                              o.split.value.right))
    ensures var i, b := ChildIndex(t.page.links.cells, k), Bounds(lo, t.page.links.cells, hi);
            var q := if o.split.None? then o else LinkSplit(t, i, o);
            && Grown(pages, t, k, v, q, f)
            && (OrderedForest(f, OutBounds(lo, q, hi)) <==> OrderedForest(g, OutBounds(b[i], o, b[i + 1])))
  {
    var i := ChildIndex(t.page.links.cells, k);
    GrowKids(pages, t, k, v, ChildIndex(t.page.links.cells, k), o, g, lo, hi);
    if o.split.None? {
      f := GrowUnsplit(pages, t, k, v, i, o, g);
      UnsplitOrdered(t, i, o, g, lo, hi, f);
    } else if Fits(t.page.links, LinkSize(Cell(o.split.value.key, t.kids[i].id))) {
      f := GrowLinked(pages, t, k, v, i, o, g);
      LinkedOrdered(t, i, o, g, lo, hi, f);
    } else {
      var s := o.split.value;
      var cells := LinksWith(t.page.links.cells, i, s.key, t.kids[i].id, s.right);
      f := GrowSplit(pages, t, k, v, i, o, g, cells);
      CutAtSplitOrdered(t, i, o, g, lo, hi, f, cells);
    }
  }

  lemma {:induction false} UnsplitOrdered(t: Tree, i: nat, o: Outcome, g: seq<Tree>, lo: Bound, hi: Bound, f: seq<Tree>)
    requires t.Node? && Shape(t) && Ordered(t, lo, hi) && BoundLess(lo, hi)
    requires i < |t.kids| && Roots(t.kids[i], o, g) && ShapeForest(g) && ShapeForest(f)
    requires o.split.None? && f == [Node(t.id, t.page, Splice(t.kids, i, i + 1, g))]
    ensures i <= |t.page.links.cells|
    ensures var b := Bounds(lo, t.page.links.cells, hi);
            OrderedForest(f, OutBounds(lo, o, hi)) <==> OrderedForest(g, OutBounds(b[i], o, b[i + 1]))
  {
    KidsOrdered(t, i, o, g, lo, hi);
    OneOrdered(f[0], lo, hi);
  }

  lemma {:induction false} LinkedOrdered(t: Tree, i: nat, o: Outcome, g: seq<Tree>, lo: Bound, hi: Bound, f: seq<Tree>)
    requires t.Node? && Shape(t) && Ordered(t, lo, hi) && BoundLess(lo, hi)
    requires i < |t.kids| && Roots(t.kids[i], o, g) && ShapeForest(g) && ShapeForest(f)
    requires o.split.Some? && Fits(t.page.links, LinkSize(Cell(o.split.value.key, t.kids[i].id)))
    requires f == [Node(t.id, LinkSplit(t, i, o).pages[t.id], Splice(t.kids, i, i + 1, g))]
    ensures i <= |t.page.links.cells|
    ensures var b := Bounds(lo, t.page.links.cells, hi);
            OrderedForest(f, OutBounds(lo, LinkSplit(t, i, o), hi)) <==> OrderedForest(g, OutBounds(b[i], o, b[i + 1]))
  {
    KidsOrdered(t, i, o, g, lo, hi);
    OneOrdered(f[0], lo, hi);
  }

  lemma {:induction false} CutAtSplitOrdered(t: Tree, i: nat, o: Outcome, g: seq<Tree>, lo: Bound, hi: Bound,
                                             f: seq<Tree>, cells: seq<Link>)
    requires t.Node? && Shape(t) && Ordered(t, lo, hi)
    requires i < |t.kids| && Roots(t.kids[i], o, g) && ShapeForest(g) && ShapeForest(f)
    requires o.split.Some? && !Fits(t.page.links, LinkSize(Cell(o.split.value.key, t.kids[i].id)))
    requires i <= |t.page.links.cells| && |t.kids| == |t.page.links.cells| + 1
    requires cells == LinksWith(t.page.links.cells, i, o.split.value.key, t.kids[i].id, o.split.value.right)
    requires InternalHalvesFit(cells)
    requires f == SplitNodes(t.id, Fresh(o.alloc), cells, t.page.right, Splice(t.kids, i, i + 1, g))
    ensures var b := Bounds(lo, t.page.links.cells, hi);
            OrderedForest(f, OutBounds(lo, LinkSplit(t, i, o), hi)) <==> OrderedForest(g, OutBounds(b[i], o, b[i + 1]))
  {
    KidsOrdered(t, i, o, g, lo, hi);
    HalvesPack(cells);
    CutOrdered(f, cells, Splice(t.kids, i, i + 1, g), lo, hi);
  }

  lemma {:induction false} HalvesPack(cells: seq<Link>)
    requires |cells| > 0 && InternalHalvesFit(cells)
    ensures var mid := |cells| / 2;
            && Pack(EmptySlots(), cells[..mid], LinkSize).cells == cells[..mid]
            && Pack(EmptySlots(), cells[mid + 1..], LinkSize).cells == cells[mid + 1..]
  {
    var mid := |cells| / 2;
    PackKeepsAllIff(EmptySlots(), cells[..mid], LinkSize);
    PackKeepsAllIff(EmptySlots(), cells[mid + 1..], LinkSize);
    assert EmptySlots<PageID>().cells + cells[..mid] == cells[..mid];
    assert EmptySlots<PageID>().cells + cells[mid + 1..] == cells[mid + 1..];
  }
}
