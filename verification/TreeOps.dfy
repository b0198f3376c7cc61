/** The B+Tree operations as functions from page map to page map.

    They do what `btree.go` does, page by page, including what it does wrongly: a
    full internal page whose rightmost child split keeps its old rightmost pointer,
    and both split functions ignore cells that do not fit the half they belong to. */
module TreeOps {
  import opened Bytes
  import opened Entries
  import opened Pages
  import opened Trees

  // ---- page allocation -----------------------------------------------------

  /** The allocator state of the pager: freed pages, most recent first, and the page count. */
  datatype Alloc = Alloc(free: seq<PageID>, count: nat)

  /** Pages in use and free pages partition what was handed out, page 0 is neither. */
  ghost predicate AllocOk(pages: PageMap, a: Alloc) {
    && a.count > 0
    && (forall id :: id in pages ==> 0 < id < a.count && id !in a.free)
    && (forall i :: 0 <= i < |a.free| ==> 0 < a.free[i] < a.count)
    && (forall i, j :: 0 <= i < j < |a.free| ==> a.free[i] != a.free[j])
  }

  function Fresh(a: Alloc): PageID { if |a.free| > 0 then a.free[0] else a.count }

  function Taken(a: Alloc): Alloc { if |a.free| > 0 then Alloc(a.free[1..], a.count) else Alloc(a.free, a.count + 1) }

  lemma {:induction false} FreshIsFresh(pages: PageMap, a: Alloc, p: Page)
    requires AllocOk(pages, a)
    ensures Fresh(a) !in pages && Fresh(a) != 0
    ensures AllocOk(pages[Fresh(a) := p], Taken(a))
  {
    if |a.free| > 0 {
      var rest := a.free[1..];
      assert forall i :: 0 <= i < |rest| ==> rest[i] == a.free[i + 1];
    }
  }

  // ---- lookup --------------------------------------------------------------

  /** Which child to descend to: past a separator equal to the key. */
  function ChildIndex(links: seq<Link>, k: Bytes): (i: nat)
    ensures i <= |links|
  {
    var p := FindIndex(links, k);
    if p.exact then p.index + 1 else p.index
  }

  /** The leaf that `Get`, `Delete` and `NewCursor` descend to. */
  ghost function LeafFor(t: Tree, k: Bytes): (l: Tree)
    requires Shape(t)
    ensures l.Leaf? && Shape(l)
  {
    match t
    case Leaf(_, _) => t
    case Node(_, page, kids) =>
      var i := ChildIndex(page.links.cells, k);
      assert |RootIds(kids)| == |Children(page.links.cells, page.right)|;
      LeafFor(kids[i], k)
  }

  ghost function GetIn(t: Tree, k: Bytes): Option<Bytes>
    requires Shape(t)
  {
    var cells := LeafFor(t, k).page.entries.cells;
    var p := FindIndex(cells, k);
    if p.exact then Some(cells[p.index].val) else None
  }

  // ---- put -----------------------------------------------------------------

  datatype Split = Split(key: Bytes, right: PageID)

  datatype Outcome = Outcome(pages: PageMap, alloc: Alloc, split: Option<Split>)

  /** The leaf after dropping the old cell of k, if any, and the index for the new one. */
  function LeafWithout(s: Slots<Bytes>, k: Bytes): Slots<Bytes> {
    var p := FindIndex(s.cells, k);
    if p.exact then RemoveAt(s, p.index) else s
  }

  function LeafFits(s: Slots<Bytes>, k: Bytes, v: Bytes): bool {
    Fits(LeafWithout(s, k), EntrySize(Cell(k, v)))
  }

  /** The leaf's cells in order, the new one in its place. */
  function LeafCells(s: Slots<Bytes>, k: Bytes, v: Bytes): seq<Entry> {
    InsertedAt(LeafWithout(s, k).cells, FindIndex(s.cells, k).index, Cell(k, v))
  }

  /** The links after child i split at key into itself and newRight. */
  function LinksWith(links: seq<Link>, i: nat, key: Bytes, child: PageID, newRight: PageID): seq<Link>
    requires i <= |links|
  {
    var c := InsertedAt(links, i, Cell(key, child));
    if i < |links| then c[i + 1 := c[i + 1].(val := newRight)] else c
  }

  ghost predicate Puttable(t: Tree, k: Bytes, v: Bytes) {
    Shape(t) && Sized(t) && |k| <= MAX_KEY_VALUE && |v| <= MAX_KEY_VALUE
  }

  ghost function PutLeaf(pages: PageMap, a: Alloc, t: Tree, k: Bytes, v: Bytes): Outcome
    requires t.Leaf? && Puttable(t, k, v)
  {
    var s, c, next := t.page.entries, Cell(k, v), t.page.next;
    if LeafFits(s, k, v) then
      var page := LeafPage(InsertAt(LeafWithout(s, k), FindIndex(s.cells, k).index, c, EntrySize(c)), next);
      Outcome(pages[t.id := page], a, None)
    else
      var (left, right) := LeafHalves(LeafCells(s, k, v));
      RightHalfNonEmpty(t, k, v);
      var id := Fresh(a);
      Outcome(pages[t.id := LeafPage(left, id)][id := LeafPage(right, next)], Taken(a),
              Some(Split(right.cells[0].key, id)))
  }

  /** Link the split of child i of t into t's page, splitting that page in turn if it is full. */
  ghost function LinkSplit(t: Tree, i: nat, o: Outcome): Outcome
    requires t.Node? && Shape(t) && i < |t.kids| && o.split.Some?
  {
    assert |RootIds(t.kids)| == |Children(t.page.links.cells, t.page.right)|;
    var s, right, split := t.page.links, t.page.right, o.split.value;
    var size := LinkSize(Cell(split.key, t.kids[i].id));
    if Fits(s, size) then
      var cells := LinksWith(s.cells, i, split.key, t.kids[i].id, split.right);
      var page := InternalPage(Slots(cells, s.top - size), if i < |s.cells| then right else split.right);
      Outcome(o.pages[t.id := page], o.alloc, None)
    else
      // the rightmost pointer stays as it was, also when the rightmost child split
      var cells := LinksWith(s.cells, i, split.key, t.kids[i].id, split.right);
      var mid := |cells| / 2;
      var (l, r) := InternalHalves(cells);
      var id := Fresh(o.alloc);
      Outcome(o.pages[t.id := InternalPage(l, cells[mid].val)][id := InternalPage(r, right)],
              Taken(o.alloc), Some(Split(cells[mid].key, id)))
  }

  /** `putRec`. */
  ghost function PutRec(pages: PageMap, a: Alloc, t: Tree, k: Bytes, v: Bytes): Outcome
    requires Puttable(t, k, v)
    decreases t
  {
    match t
    case Leaf(_, _) => PutLeaf(pages, a, t, k, v)
    case Node(_, page, kids) =>
      var i := ChildIndex(page.links.cells, k);
      assert |RootIds(kids)| == |Children(page.links.cells, page.right)|;
      var o := PutRec(pages, a, kids[i], k, v);
      if o.split.None? then o else LinkSplit(t, i, o)
  }

  datatype Db = Db(pages: PageMap, alloc: Alloc, root: PageID)

  /** `Put`: None when the key or the value is too large; a split root gets a parent. */
  ghost function Put(pages: PageMap, a: Alloc, t: Tree, k: Bytes, v: Bytes): Option<Db>
    requires Shape(t) && Sized(t)
  {
    if |k| > MAX_KEY_VALUE || |v| > MAX_KEY_VALUE then None
    else
      var o := PutRec(pages, a, t, k, v);
      match o.split
      case None => Some(Db(o.pages, o.alloc, t.id))
      case Some(s) =>
        var id := Fresh(o.alloc);
        var page := InternalPage(Pack(EmptySlots(), [Cell(s.key, t.id)], LinkSize), s.right);
        Some(Db(o.pages[id := page], Taken(o.alloc), id))
  }

  // ---- delete --------------------------------------------------------------

  /** `Delete`: None when the key is absent. */
  ghost function Delete(pages: PageMap, t: Tree, k: Bytes): Option<PageMap>
    requires Shape(t)
  {
    var l := LeafFor(t, k);
    var p := FindIndex(l.page.entries.cells, k);
    if p.exact then Some(pages[l.id := LeafPage(RemoveAt(l.page.entries, p.index), l.page.next)]) else None
  }

  // ---- when a put works ----------------------------------------------------

  /** Every page the put splits can be cut by count without losing a cell, and no
      internal page overflows because its rightmost child split. */
  ghost predicate KeepsPages(pages: PageMap, a: Alloc, t: Tree, k: Bytes, v: Bytes)
    requires Puttable(t, k, v)
    decreases t
  {
    match t
    case Leaf(_, page) => LeafFits(page.entries, k, v) || LeafHalvesFit(LeafCells(page.entries, k, v))
    case Node(_, page, kids) =>
      var i := ChildIndex(page.links.cells, k);
      assert |RootIds(kids)| == |Children(page.links.cells, page.right)|;
      var o := PutRec(pages, a, kids[i], k, v);
      && KeepsPages(pages, a, kids[i], k, v)
      && (o.split.Some? && !Fits(page.links, LinkSize(Cell(o.split.value.key, kids[i].id))) ==>
            && i < |page.links.cells|
            && InternalHalvesFit(LinksWith(page.links.cells, i, o.split.value.key, kids[i].id, o.split.value.right)))
  }

  /** A leaf that overflows with no other live cell is not split at its own lower bound. */
  ghost predicate KeepsOrder(t: Tree, k: Bytes, v: Bytes, lo: Bound)
    requires Shape(t)
    decreases t
  {
    match t
    case Leaf(_, page) => LeafFits(page.entries, k, v) || |LeafWithout(page.entries, k).cells| > 0
      || BoundLess(lo, Some(k))
    case Node(_, page, kids) =>
      var i := ChildIndex(page.links.cells, k);
      assert |RootIds(kids)| == |Children(page.links.cells, page.right)|;
      KeepsOrder(kids[i], k, v, if i == 0 then lo else Some(page.links.cells[i - 1].key))
  }

  // ---- the leaf under a put ------------------------------------------------

  lemma {:induction false} RightHalfNonEmpty(t: Tree, k: Bytes, v: Bytes)
    requires t.Leaf? && Puttable(t, k, v)
    ensures |LeafHalves(LeafCells(t.page.entries, k, v)).1.cells| > 0
    ensures LeafHalves(LeafCells(t.page.entries, k, v)).1.cells[0] ==
            LeafCells(t.page.entries, k, v)[|LeafCells(t.page.entries, k, v)| / 2]
  {
    var cells := LeafCells(t.page.entries, k, v);
    var mid := |cells| / 2;
    CellsBounded(t, k, v);
    assert Fits(EmptySlots<Bytes>(), EntrySize(cells[mid]));
    var s := InsertAt(EmptySlots<Bytes>(), 0, cells[mid], EntrySize(cells[mid]));
    PackLosesNothingExtra(s, cells[mid..][1..], EntrySize);
    assert s.cells == [cells[mid]];
  }

  lemma {:induction false} CellsBounded(t: Tree, k: Bytes, v: Bytes)
    requires t.Leaf? && Puttable(t, k, v)
    ensures forall i :: 0 <= i < |LeafCells(t.page.entries, k, v)| ==>
              && |LeafCells(t.page.entries, k, v)[i].key| <= MAX_KEY_VALUE
              && |LeafCells(t.page.entries, k, v)[i].val| <= MAX_KEY_VALUE
  {
    var s := t.page.entries;
    var w, cells := LeafWithout(s, k).cells, LeafCells(s, k, v);
    assert forall i :: 0 <= i < |w| ==> w[i] in s.cells;
    assert forall i :: 0 <= i < |cells| ==> cells[i] == Cell(k, v) || cells[i] in w;
  }

  /** The new cell sits where the entries of the leaf want it. */
  lemma {:induction false} LeafCellsAreUpsert(s: Slots<Bytes>, k: Bytes, v: Bytes)
    requires Ascending(s.cells)
    ensures LeafCells(s, k, v) == Upsert(s.cells, k, v)
  {
    FindIndexIsLowerBound(s.cells, k);
  }
}
