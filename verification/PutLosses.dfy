/** A put that does not keep its pages loses a page or a key for good. */
module PutLosses {
  import opened Bytes
  import opened Entries
  import opened Pages
  import opened Trees
  import opened TreeOps
  import opened PutSound

  /** Something a tree can hold. */
  datatype Item = OfPage(id: PageID) | OfKey(key: Bytes)

  ghost predicate HasKey(s: seq<Entry>, k: Bytes) {
    exists i :: 0 <= i < |s| && s[i].key == k
  }

  ghost predicate Holds(t: Tree, x: Item)
    requires Shape(t)
  {
    match x
    case OfPage(id) => id in PagesOf(t)
    case OfKey(k) => HasKey(EntriesOf(t), k)
  }

  /** What the pages below t should hold after the put of k. */
  ghost predicate Expected(pages: PageMap, t: Tree, k: Bytes, o: Outcome, x: Item)
    requires Shape(t)
  {
    match x
    case OfPage(id) => id in PagesOf(t) || id in o.pages.Keys - pages.Keys
    case OfKey(q) => q == k || HasKey(EntriesOf(t), q)
  }

  ghost predicate IsRoot(t: Tree, o: Outcome, id: PageID) {
    id == t.id || (o.split.Some? && id == o.split.value.right)
  }

  /** No tree read from what o left of t holds x. */
  ghost predicate Lost(t: Tree, o: Outcome, x: Item) {
    forall u :: Shape(u) && Stored(o.pages, u) && IsRoot(t, o, u.id) ==> !Holds(u, x)
  }

  // ---- pointers stay within the subtree ------------------------------------

  ghost predicate Closed(pages: PageMap, s: set<PageID>) {
    forall id :: id in s ==> ClosedAt(pages, s, id)
  }

  ghost predicate ClosedAt(pages: PageMap, s: set<PageID>, id: PageID) {
    && id in pages
    && (pages[id].InternalPage? ==> forall c :: c in Children(pages[id].links.cells, pages[id].right) ==> c in s)
  }

  ghost function Span(pages: PageMap, t: Tree, o: Outcome): set<PageID> {
    PageSet(t) + (o.pages.Keys - pages.Keys)
  }

  ghost function PageSet(t: Tree): set<PageID> { set x | x in PagesOf(t) }

  lemma {:induction false} ReachStays(pages: PageMap, s: set<PageID>, u: Tree, x: PageID)
    requires Closed(pages, s) && Shape(u) && Stored(pages, u) && u.id in s && x in PagesOf(u)
    ensures x in s
  {
    assert ClosedAt(pages, s, u.id);
    if u.Node? && x != u.id {
      var i := PageMember(u.kids, x);
      assert RootIds(u.kids)[i] == u.kids[i].id;
      assert u.kids[i].id in Children(u.page.links.cells, u.page.right);
      ReachStays(pages, s, u.kids[i], x);
    }
  }

  lemma {:induction false} StoredClosed(pages: PageMap, t: Tree, x: PageID)
    requires Shape(t) && Stored(pages, t) && x in PagesOf(t)
    ensures ClosedAt(pages, PageSet(t), x)
  {
    if t.Node? {
      if x == t.id {
        forall c | c in Children(t.page.links.cells, t.page.right) ensures c in PagesOf(t) {
          var i :| 0 <= i < |t.kids| && RootIds(t.kids)[i] == c;
          MemberPages(t.kids, i);
        }
      } else {
        var i := PageMember(t.kids, x);
        MemberPages(t.kids, i);
        StoredClosed(pages, t.kids[i], x);
      }
    }
  }

  /** The promoted page is one that the put allocated. */
  lemma {:induction false} SplitIsNew(pages: PageMap, a: Alloc, t: Tree, k: Bytes, v: Bytes)
    requires Puttable(t, k, v) && AllocOk(pages, a) && Stored(pages, t)
    ensures var o := PutRec(pages, a, t, k, v);
            o.split.Some? ==> o.split.value.right in o.pages.Keys - pages.Keys
  {
    PutRecFramed(pages, a, t, k, v);
    if t.Leaf? {
      FreshIsFresh(pages, a, t.page);
    } else {
      var i := ChildIndex(t.page.links.cells, k);
      assert |RootIds(t.kids)| == |Children(t.page.links.cells, t.page.right)|;
      var o := PutRec(pages, a, t.kids[i], k, v);
      PutRecFramed(pages, a, t.kids[i], k, v);
      FreshIsFresh(o.pages, o.alloc, t.page);
    }
  }

  /** Pages written by LinkSplit. */
  ghost predicate Rewritten(t: Tree, q: Outcome, id: PageID) {
    id == t.id || (q.split.Some? && id == q.split.value.right)
  }

  lemma {:induction false} LinkSplitPointers(t: Tree, i: nat, o: Outcome, id: PageID, c: PageID)
    requires t.Node? && Shape(t) && i < |t.kids| && o.split.Some?
    requires Rewritten(t, LinkSplit(t, i, o), id) && t.id != Fresh(o.alloc)
    requires var p := LinkSplit(t, i, o).pages[id]; p.InternalPage? && c in Children(p.links.cells, p.right)
    ensures c in RootIds(t.kids) || c == o.split.value.right
  {
    var s, links, right := o.split.value, t.page.links.cells, t.page.right;
    assert |RootIds(t.kids)| == |Children(links, right)|;
    var cells := LinksWith(links, i, s.key, t.kids[i].id, s.right);
    assert RootIds(t.kids)[i] == t.kids[i].id;
    assert RootIds(t.kids)[|links|] == right;
    forall m | 0 <= m < |cells| ensures cells[m].val in RootIds(t.kids) || cells[m].val == s.right {
      if m < i {
        assert cells[m].val == Children(links, right)[m];
      } else if m > i + 1 {
        assert cells[m].val == Children(links, right)[m - 1];
      }
    }
    var p := LinkSplit(t, i, o).pages[id];
    if c != p.right {
      var l := PointerSource(p.links.cells, p.right, c);
      if !Fits(t.page.links, LinkSize(Cell(s.key, t.kids[i].id))) {
        var mid := |cells| / 2;
        PackLosesNothingExtra(EmptySlots(), cells[..mid], LinkSize);
        PackLosesNothingExtra(EmptySlots(), cells[mid + 1..], LinkSize);
      }
      assert l in cells;
    }
  }

  lemma {:induction false} PointerSource(links: seq<Link>, right: PageID, c: PageID) returns (l: Link)
    requires c in Children(links, right) && c != right
    ensures l in links && l.val == c
  {
    var m :| 0 <= m <= |links| && Children(links, right)[m] == c;
    l := links[m];
  }

  lemma {:induction false} PutRecClosed(pages: PageMap, a: Alloc, t: Tree, k: Bytes, v: Bytes)
    requires Puttable(t, k, v) && AllocOk(pages, a) && Stored(pages, t) && NoSharing(PagesOf(t))
    ensures Closed(PutRec(pages, a, t, k, v).pages, Span(pages, t, PutRec(pages, a, t, k, v)))
    decreases t
  {
    if t.Node? {
      var i := ChildIndex(t.page.links.cells, k);
      assert |RootIds(t.kids)| == |Children(t.page.links.cells, t.page.right)|;
      KidUnshared(t, i);
      PutRecClosed(pages, a, t.kids[i], k, v);
      PutRecFramed(pages, a, t.kids[i], k, v);
      SplitIsNew(pages, a, t.kids[i], k, v);
      NodeClosed(pages, t, i, PutRec(pages, a, t.kids[i], k, v));
    }
  }

  lemma {:induction false} NodeClosed(pages: PageMap, t: Tree, i: nat, o: Outcome)
    requires t.Node? && Shape(t) && Stored(pages, t) && NoSharing(PagesOf(t)) && i < |t.kids|
    requires Framed(pages, t.kids[i], o) && Closed(o.pages, Span(pages, t.kids[i], o))
    requires o.split.Some? ==> o.split.value.right in o.pages.Keys - pages.Keys
    ensures var q := if o.split.None? then o else LinkSplit(t, i, o);
            Closed(q.pages, Span(pages, t, q))
  {
    var q := if o.split.None? then o else LinkSplit(t, i, o);
    MemberPages(t.kids, i);
    if o.split.Some? {
      FreshIsFresh(o.pages, o.alloc, t.page);
    }
    RootApart(t, i);
    forall id | id in Span(pages, t, q) ensures ClosedAt(q.pages, Span(pages, t, q), id) {
      if o.split.Some? && Rewritten(t, q, id) {
        RewrittenClosed(pages, t, i, o, id);
      } else {
        UnwrittenKept(pages, t, i, o, id);
        UnwrittenClosed(pages, t, i, o, q, id);
      }
    }
  }

  lemma {:induction false} UnwrittenKept(pages: PageMap, t: Tree, i: nat, o: Outcome, id: PageID)
    requires t.Node? && Shape(t) && Stored(pages, t) && i < |t.kids| && pages.Keys <= o.pages.Keys
    requires var q := if o.split.None? then o else LinkSplit(t, i, o);
             id in Span(pages, t, q) && (o.split.None? || !Rewritten(t, q, id))
    ensures var q := if o.split.None? then o else LinkSplit(t, i, o);
            id in o.pages && id in q.pages && q.pages[id] == o.pages[id] && o.pages.Keys <= q.pages.Keys
  {
    if id in PagesOf(t) {
      StoredPages(pages, t, id);
    }
  }

  lemma {:induction false} UnwrittenClosed(pages: PageMap, t: Tree, i: nat, o: Outcome, q: Outcome, id: PageID)
    requires t.Node? && Shape(t) && Stored(pages, t) && i < |t.kids| && PagesOf(t.kids[i]) <= PagesOf(t)
    requires Framed(pages, t.kids[i], o) && Closed(o.pages, Span(pages, t.kids[i], o))
    requires id in Span(pages, t, q) && id in o.pages && id in q.pages && q.pages[id] == o.pages[id]
    requires o.pages.Keys <= q.pages.Keys
    ensures ClosedAt(q.pages, Span(pages, t, q), id)
  {
    if id in Span(pages, t.kids[i], o) {
      assert ClosedAt(o.pages, Span(pages, t.kids[i], o), id);
    } else {
      StoredClosed(pages, t, id);
      StoredPages(pages, t, id);
    }
  }

  lemma {:induction false} RewrittenClosed(pages: PageMap, t: Tree, i: nat, o: Outcome, id: PageID)
    requires t.Node? && Shape(t) && i < |t.kids| && o.split.Some?
    requires t.id in pages && pages.Keys <= o.pages.Keys && Fresh(o.alloc) !in o.pages
    requires o.split.value.right in o.pages.Keys - pages.Keys
    requires Rewritten(t, LinkSplit(t, i, o), id)
    ensures ClosedAt(LinkSplit(t, i, o).pages, Span(pages, t, LinkSplit(t, i, o)), id)
  {
    var q := LinkSplit(t, i, o);
    if q.pages[id].InternalPage? {
      forall c | c in Children(q.pages[id].links.cells, q.pages[id].right) ensures c in Span(pages, t, q) {
        LinkSplitPointers(t, i, o, id, c);
        if c in RootIds(t.kids) {
          var j :| 0 <= j < |t.kids| && RootIds(t.kids)[j] == c;
          MemberPages(t.kids, j);
        }
      }
    }
  }

  // ---- where a loss starts -------------------------------------------------

  ghost predicate AllDistinct<T>(s: seq<T>) {
    forall i, j :: 0 <= i < j < |s| ==> s[i] != s[j]
  }

  /** Packing too much drops some cell. */
  lemma {:induction false} PackDrops<V>(s: Slots<V>, cells: seq<Cell<V>>, size: Cell<V> -> nat) returns (d: nat)
    requires Room(s) >= 0 && Footprint(cells, size) > Room(s)
    requires AllDistinct(cells) && forall i :: 0 <= i < |cells| ==> cells[i] !in s.cells
    ensures d < |cells| && cells[d] !in Pack(s, cells, size).cells
    decreases |cells|
  {
    var c, rest := cells[0], cells[1..];
    assert forall i :: 0 <= i < |rest| ==> rest[i] == cells[i + 1];
    if Fits(s, size(c)) {
      d := PackDrops(InsertAt(s, |s.cells|, c, size(c)), rest, size);
      d := d + 1;
    } else {
      d := 0;
      PackLosesNothingExtra(s, rest, size);
    }
  }

  lemma {:induction false} LeafHalvesDrop(cells: seq<Entry>) returns (d: nat)
    requires Ascending(cells) && !LeafHalvesFit(cells)
    ensures d < |cells| && cells[d] !in LeafHalves(cells).0.cells && cells[d] !in LeafHalves(cells).1.cells
  {
    var mid := |cells| / 2;
    var a, b := cells[..mid], cells[mid..];
    forall i, j | 0 <= i < j < |cells| ensures cells[i] != cells[j] {
      LessIrreflexive(cells[i].key);
    }
    PackLosesNothingExtra(EmptySlots(), a, EntrySize);
    PackLosesNothingExtra(EmptySlots(), b, EntrySize);
    if Footprint(a, EntrySize) > CAPACITY {
      d := PackDrops(EmptySlots(), a, EntrySize);
      assert forall i :: 0 <= i < |b| ==> b[i] == cells[mid + i];
    } else {
      d := PackDrops(EmptySlots(), b, EntrySize);
      assert b[d] == cells[mid + d];
      d := mid + d;
    }
  }

  /** A leaf whose halves do not fit loses a key. */
  lemma {:induction false} LeafLoses(pages: PageMap, a: Alloc, t: Tree, k: Bytes, v: Bytes) returns (x: Item)
    requires t.Leaf? && Puttable(t, k, v) && Ascending(t.page.entries.cells) && Stored(pages, t) && AllocOk(pages, a)
    requires !KeepsPages(pages, a, t, k, v)
    ensures x.OfKey? && Expected(pages, t, k, PutLeaf(pages, a, t, k, v), x) && Lost(t, PutLeaf(pages, a, t, k, v), x)
  {
    var o, cells, s := PutLeaf(pages, a, t, k, v), LeafCells(t.page.entries, k, v), t.page.entries;
    LeafCellsAreUpsert(s, k, v);
    UpsertAscending(s.cells, k, v);
    UpsertMembership(s.cells, k, v);
    var d := LeafHalvesDrop(cells);
    x := OfKey(cells[d].key);
    assert cells[d] in cells;
    LeafSplitPages(pages, a, t, k, v);
    HalvesFromCells(cells);
    HalfLacks(LeafHalves(cells).0.cells, cells, d);
    HalfLacks(LeafHalves(cells).1.cells, cells, d);
    RootsLack(t, o, cells, x);
  }

  /** What a leaf split writes. */
  lemma {:induction false} LeafSplitPages(pages: PageMap, a: Alloc, t: Tree, k: Bytes, v: Bytes)
    requires t.Leaf? && Puttable(t, k, v) && Stored(pages, t) && AllocOk(pages, a) && !LeafFits(t.page.entries, k, v)
    ensures SplitPages(t, PutLeaf(pages, a, t, k, v), LeafCells(t.page.entries, k, v))
  {
    FreshIsFresh(pages, a, t.page);
  }

  ghost predicate SplitPages(t: Tree, o: Outcome, cells: seq<Entry>) {
    o.split.Some? && var r := o.split.value.right;
    && t.id in o.pages && o.pages[t.id].LeafPage? && o.pages[t.id].entries == LeafHalves(cells).0
    && r in o.pages && o.pages[r].LeafPage? && o.pages[r].entries == LeafHalves(cells).1
  }

  lemma {:induction false} RootsLack(t: Tree, o: Outcome, cells: seq<Entry>, x: Item)
    requires x.OfKey? && SplitPages(t, o, cells)
    requires !HasKey(LeafHalves(cells).0.cells, x.key) && !HasKey(LeafHalves(cells).1.cells, x.key)
    ensures Lost(t, o, x)
  {
    forall u | Shape(u) && Stored(o.pages, u) && IsRoot(t, o, u.id) ensures !Holds(u, x) {
      assert u.page == o.pages[u.id];
    }
  }

  lemma {:induction false} HalvesFromCells(cells: seq<Entry>)
    ensures forall e :: e in LeafHalves(cells).0.cells || e in LeafHalves(cells).1.cells ==> e in cells
  {
    var mid := |cells| / 2;
    PackLosesNothingExtra(EmptySlots(), cells[..mid], EntrySize);
    PackLosesNothingExtra(EmptySlots(), cells[mid..], EntrySize);
  }

  lemma {:induction false} HalfLacks(half: seq<Entry>, cells: seq<Entry>, d: nat)
    requires Ascending(cells) && d < |cells| && cells[d] !in half && forall e :: e in half ==> e in cells
    ensures !HasKey(half, cells[d].key)
  {
    forall i | 0 <= i < |half| ensures half[i].key != cells[d].key {
      assert half[i] in half;
      if half[i].key == cells[d].key {
        assert cells[d] in cells;
        KeysDistinct(cells, half[i], cells[d]);
      }
    }
  }

  // ---- a pointer that no page keeps ----------------------------------------

  /** The pages of a rewritten node keep only pointers to other children than x. */
  ghost predicate Drops(t: Tree, q: Outcome, kids: seq<Tree>, x: PageID) {
    x in RootIds(kids) && forall id :: id in q.pages && Rewritten(t, q, id) ==> DropsAt(q.pages[id], kids, x)
  }

  ghost predicate DropsAt(p: Page, kids: seq<Tree>, x: PageID) {
    p.InternalPage? && forall c :: c in Children(p.links.cells, p.right) ==> c in RootIds(kids) && c != x
  }

  /** A child that no pointer leads to is lost with its page. */
  lemma {:induction false} DroppedIsLost(t: Tree, q: Outcome, kids: seq<Tree>, x: PageID)
    requires q.split.Some? && ShapeForest(kids) && StoredForest(q.pages, kids) && NoSharing(PagesOfForest(kids))
    requires t.id !in PagesOfForest(kids) && q.split.value.right !in PagesOfForest(kids)
    requires Drops(t, q, kids, x)
    ensures Lost(t, q, OfPage(x))
  {
    var n :| 0 <= n < |kids| && RootIds(kids)[n] == x;
    MemberPages(kids, n);
    assert x in PagesOf(kids[n]);
    forall u | Shape(u) && Stored(q.pages, u) && IsRoot(t, q, u.id) ensures x !in PagesOf(u) {
      assert DropsAt(q.pages[u.id], kids, x);
      if x in PagesOfForest(u.kids) {
        DroppedNotBelow(q.pages, u, kids, n);
      }
    }
  }

  lemma {:induction false} DroppedNotBelow(pages: PageMap, u: Tree, kids: seq<Tree>, n: nat)
    requires u.Node? && Shape(u) && Stored(pages, u) && n < |kids| && kids[n].id in PagesOfForest(u.kids)
    requires ShapeForest(kids) && StoredForest(pages, kids) && NoSharing(PagesOfForest(kids))
    ensures !DropsAt(u.page, kids, kids[n].id)
  {
    var x := kids[n].id;
    var m := PageMember(u.kids, x);
    assert RootIds(u.kids)[m] == u.kids[m].id;
    if u.kids[m].id in RootIds(kids) {
      var j :| 0 <= j < |kids| && RootIds(kids)[j] == u.kids[m].id;
      StoredUnique(pages, u.kids[m], kids[j]);
      assert x in PagesOf(kids[n]);
      ForestDisjoint(kids, n, j, x);
    }
    assert u.kids[m].id in Children(u.page.links.cells, u.page.right);
  }

  lemma {:induction false} RootsDistinct(f: seq<Tree>)
    requires NoSharing(PagesOfForest(f))
    ensures AllDistinct(RootIds(f))
  {
    forall i, j | 0 <= i < j < |f| ensures f[i].id != f[j].id {
      if f[i].id == f[j].id {
        assert f[i].id in PagesOf(f[i]) && f[j].id in PagesOf(f[j]);
        ForestDisjoint(f, i, j, f[i].id);
      }
    }
  }

  /** Halves that do not fit drop the pointer to some child. */
  lemma {:induction false} PointersDiffer(cells: seq<Link>, right: PageID)
    requires AllDistinct(Children(cells, right))
    ensures forall i, j :: 0 <= i < j < |cells| ==> cells[i].val != cells[j].val
    ensures forall i :: 0 <= i < |cells| ==> cells[i].val != right
  {
    var c := Children(cells, right);
    assert forall i :: 0 <= i < |cells| ==> c[i] == cells[i].val;
    assert c[|cells|] == right;
  }

  lemma {:induction false} InternalHalvesDrop(cells: seq<Link>, right: PageID) returns (d: nat)
    requires |cells| > 0 && AllDistinct(Children(cells, right)) && !InternalHalvesFit(cells)
    ensures d < |cells|
    ensures cells[d].val !in Children(InternalHalves(cells).0.cells, cells[|cells| / 2].val)
    ensures cells[d].val !in Children(InternalHalves(cells).1.cells, right)
  {
    var mid := |cells| / 2;
    var a, b := cells[..mid], cells[mid + 1..];
    PointersDiffer(cells, right);
    assert forall i :: 0 <= i < |b| ==> b[i] == cells[mid + 1 + i];
    if Footprint(a, LinkSize) > CAPACITY {
      d := PackDrops(EmptySlots(), a, LinkSize);
    } else {
      var e := PackDrops(EmptySlots(), b, LinkSize);
      d := mid + 1 + e;
    }
    PackLosesNothingExtra(EmptySlots(), a, LinkSize);
    PackLosesNothingExtra(EmptySlots(), b, LinkSize);
    assert forall i :: 0 <= i < |a| ==> a[i] == cells[i];
    assert d != mid;
    LinkGone(InternalHalves(cells).0.cells, a, cells[mid].val, cells, d);
    LinkGone(InternalHalves(cells).1.cells, b, right, cells, d);
  }

  lemma {:induction false} LinkGone(kept: seq<Link>, half: seq<Link>, right: PageID, cells: seq<Link>, d: nat)
    requires d < |cells| && cells[d] !in kept && right != cells[d].val
    requires kept == Pack(EmptySlots(), half, LinkSize).cells && forall l :: l in half ==> l in cells
    requires forall i, j :: 0 <= i < j < |cells| ==> cells[i].val != cells[j].val
    ensures cells[d].val !in Children(kept, right)
  {
    if cells[d].val in Children(kept, right) {
      var l := PointerSource(kept, right, cells[d].val);
      PackLosesNothingExtra(EmptySlots(), half, LinkSize);
      assert false;
    }
  }

  /** A full node drops a child when its rightmost child split or when its halves do not fit. */
  lemma {:induction false} OverflowDrops(t: Tree, i: nat, o: Outcome, g: seq<Tree>) returns (x: PageID)
    requires t.Node? && Shape(t) && i < |t.kids| && Roots(t.kids[i], o, g) && o.split.Some?
    requires |t.kids| == |t.page.links.cells| + 1
    requires AllDistinct(RootIds(Splice(t.kids, i, i + 1, g)))
    requires t.id != Fresh(o.alloc)
    requires !Fits(t.page.links, LinkSize(Cell(o.split.value.key, t.kids[i].id)))
    requires i == |t.page.links.cells| ||
             !InternalHalvesFit(LinksWith(t.page.links.cells, i, o.split.value.key, t.kids[i].id, o.split.value.right))
    ensures Drops(t, LinkSplit(t, i, o), Splice(t.kids, i, i + 1, g), x)
  {
    var q, s, links, right := LinkSplit(t, i, o), o.split.value, t.page.links.cells, t.page.right;
    var kids := Splice(t.kids, i, i + 1, g);
    var cells := LinksWith(links, i, s.key, t.kids[i].id, s.right);
    KidsPointed(t, i, g, o);
    if i == |links| {
      x := s.right;
      assert kids == t.kids[..i] + g && RootIds(kids)[i + 1] == x;
      RightmostDrops(t, i, o, g);
    } else {
      var d := InternalHalvesDrop(cells, right);
      x := cells[d].val;
      assert RootIds(kids)[d] == x;
      forall id | id in q.pages && Rewritten(t, q, id) ensures DropsAt(q.pages[id], kids, x) {
        forall c | c in Children(q.pages[id].links.cells, q.pages[id].right) ensures c in RootIds(kids) {
          LinkSplitPointers(t, i, o, id, c);
          SplicedRoots(t, i, o, g, c);
        }
      }
    }
  }

  lemma {:induction false} SplicedRoots(t: Tree, i: nat, o: Outcome, g: seq<Tree>, c: PageID)
    requires t.Node? && i < |t.kids| && Roots(t.kids[i], o, g) && o.split.Some?
    requires c in RootIds(t.kids) || c == o.split.value.right
    ensures c in RootIds(Splice(t.kids, i, i + 1, g))
  {
    var kids := Splice(t.kids, i, i + 1, g);
    if c == o.split.value.right {
      assert RootIds(kids)[i + 1] == c;
    } else {
      var j :| 0 <= j < |t.kids| && RootIds(t.kids)[j] == c;
      assert RootIds(kids)[if j <= i then j else j + 1] == c;
    }
  }

  /** The page that split off the rightmost child gets no pointer. */
  lemma {:induction false} RightmostDrops(t: Tree, i: nat, o: Outcome, g: seq<Tree>)
    requires t.Node? && Shape(t) && i < |t.kids| && Roots(t.kids[i], o, g) && o.split.Some?
    requires i == |t.page.links.cells| && t.id != Fresh(o.alloc)
    requires AllDistinct(RootIds(Splice(t.kids, i, i + 1, g)))
    requires !Fits(t.page.links, LinkSize(Cell(o.split.value.key, t.kids[i].id)))
    ensures forall id :: Rewritten(t, LinkSplit(t, i, o), id) ==>
              DropsAt(LinkSplit(t, i, o).pages[id], Splice(t.kids, i, i + 1, g), o.split.value.right)
  {
    var q, s, links, right := LinkSplit(t, i, o), o.split.value, t.page.links.cells, t.page.right;
    var kids := Splice(t.kids, i, i + 1, g);
    var cells := LinksWith(links, i, s.key, t.kids[i].id, s.right);
    assert |RootIds(t.kids)| == |Children(links, right)|;
    forall j | 0 <= j < |t.kids| ensures t.kids[j].id != s.right {
      assert RootIds(kids)[j] == t.kids[j].id && RootIds(kids)[i + 1] == s.right;
    }
    assert RootIds(t.kids)[i] == right == t.kids[i].id;
    forall m | 0 <= m < |cells| ensures cells[m].val != s.right {
      assert cells[m].val == RootIds(t.kids)[m];
    }
    var mid := |cells| / 2;
    PackLosesNothingExtra(EmptySlots(), cells[..mid], LinkSize);
    PackLosesNothingExtra(EmptySlots(), cells[mid + 1..], LinkSize);
    forall id | Rewritten(t, q, id) ensures DropsAt(q.pages[id], kids, s.right) {
      var p := q.pages[id];
      forall c | c in Children(p.links.cells, p.right) ensures c in RootIds(kids) && c != s.right {
        LinkSplitPointers(t, i, o, id, c);
        SplicedRoots(t, i, o, g, c);
        if c != p.right {
          var l := PointerSource(p.links.cells, p.right, c);
        }
      }
    }
  }

  // ---- how a loss spreads --------------------------------------------------

  lemma {:induction false} EntryMember(f: seq<Tree>, i: nat, e: Entry)
    requires ShapeForest(f) && i < |f| && e in EntriesOf(f[i])
    ensures e in EntriesOfForest(f)
  {
    if i != 0 {
      EntryMember(f[1..], i - 1, e);
    }
  }

  lemma {:induction false} EntrySource(f: seq<Tree>, e: Entry) returns (i: nat)
    requires ShapeForest(f) && e in EntriesOfForest(f)
    ensures i < |f| && e in EntriesOf(f[i])
  {
    if e in EntriesOf(f[0]) {
      i := 0;
    } else {
      i := EntrySource(f[1..], e);
      i := i + 1;
    }
  }

  /** What a node holds, other than its own page, some child holds. */
  lemma {:induction false} HeldBelow(u: Tree, x: Item) returns (m: nat)
    requires u.Node? && Shape(u) && Holds(u, x) && x != OfPage(u.id)
    ensures m < |u.kids| && Holds(u.kids[m], x)
  {
    match x
    case OfPage(id) =>
      m := PageMember(u.kids, id);
    case OfKey(k) =>
      var e := EntriesOf(u);
      var j :| 0 <= j < |e| && e[j].key == k;
      m := EntrySource(u.kids, e[j]);
      var j' :| 0 <= j' < |EntriesOf(u.kids[m])| && EntriesOf(u.kids[m])[j'] == e[j];
  }

  /** What child i should hold is not held by its siblings, nor is it the node's own page. */
  lemma {:induction false} Foreign(pages: PageMap, t: Tree, k: Bytes, i: nat, o: Outcome, x: Item, lo: Bound, hi: Bound,
                                   j: nat)
    requires t.Node? && Shape(t) && Stored(pages, t) && NoSharing(PagesOf(t)) && Ordered(t, lo, hi) && Within(lo, k, hi)
    requires i == ChildIndex(t.page.links.cells, k) < |t.kids| && j < |t.kids| && i != j
    requires Expected(pages, t.kids[i], k, o, x)
    ensures !Holds(t.kids[j], x)
  {
    match x
    case OfPage(id) =>
      KidsDisjoint(t, i, j);
      if id in PagesOf(t.kids[j]) {
        StoredPages(pages, t.kids[j], id);
      }
    case OfKey(q) =>
      var b := Bounds(lo, t.page.links.cells, hi);
      ChildWithin(t, k, lo, hi);
      assert OrderedAt(t.kids, b, i);
      EntriesOrdered(t.kids[i], b[i], b[i + 1]);
      assert Within(b[i], q, b[i + 1]);
      NeighboursApart(t.kids, b, i, q);
      LessIrreflexive(q);
      var e := EntriesOf(t.kids[j]);
      forall m | 0 <= m < |e| ensures e[m].key != q {
        if j < i {
          EntryMember(t.kids[..i], j, e[m]);
          InOrder(EntriesOfForest(t.kids[..i]), e[m], q);
        } else {
          EntryMember(t.kids[i + 1..], j - i - 1, e[m]);
          InOrder(EntriesOfForest(t.kids[i + 1..]), e[m], q);
        }
      }
  }

  lemma {:induction false} InOrder(s: seq<Entry>, e: Entry, q: Bytes)
    requires e in s && (AllBelow(s, q) || AllAbove(s, q))
    ensures e.key != q
  {
    LessIrreflexive(q);
  }

  /** What child i should hold, t should hold. */
  lemma {:induction false} ExpectedUp(pages: PageMap, t: Tree, k: Bytes, i: nat, o: Outcome, x: Item)
    requires t.Node? && Shape(t) && i < |t.kids| && Expected(pages, t.kids[i], k, o, x)
    ensures Expected(pages, t, k, if o.split.None? then o else LinkSplit(t, i, o), x)
  {
    match x
    case OfPage(id) =>
      MemberPages(t.kids, i);
    case OfKey(q) =>
      if q != k {
        var s := EntriesOf(t.kids[i]);
        var j :| 0 <= j < |s| && s[j].key == q;
        EntryMember(t.kids, i, s[j]);
        var m :| 0 <= m < |EntriesOf(t)| && EntriesOf(t)[m] == s[j];
      }
  }

  /** Below child i nothing changes when t's own pages are written. */
  lemma {:induction false} BelowChild(pages: PageMap, t: Tree, i: nat, o: Outcome, q: Outcome, w: Tree)
    requires t.Node? && i < |t.kids| && t.id in pages && t.id !in PagesOf(t.kids[i])
    requires Closed(o.pages, Span(pages, t.kids[i], o))
    requires forall x :: x in o.pages && x != t.id ==> x in q.pages && q.pages[x] == o.pages[x]
    requires Shape(w) && Stored(q.pages, w) && w.id in Span(pages, t.kids[i], o)
    ensures Stored(o.pages, w)
  {
    var s := Span(pages, t.kids[i], o);
    forall id | id in s ensures ClosedAt(q.pages, s, id) {
      assert ClosedAt(o.pages, s, id);
    }
    forall x | x in PagesOf(w) ensures x in o.pages && (x in q.pages ==> o.pages[x] == q.pages[x]) {
      ReachStays(q.pages, s, w, x);
      assert ClosedAt(o.pages, s, x);
    }
    StoredFrame(q.pages, o.pages, w);
  }

  lemma {:induction false} NotAmongKids(pages: PageMap, t: Tree, i: nat, o: Outcome, q: Outcome, u: Tree, x: Item)
    requires t.Node? && Shape(t) && Stored(pages, t) && NoSharing(PagesOf(t)) && i < |t.kids|
    requires Framed(pages, t.kids[i], o) && Closed(o.pages, Span(pages, t.kids[i], o))
    requires o.split.Some? ==> o.split.value.right in o.pages.Keys - pages.Keys
    requires forall y :: y in o.pages && y != t.id ==> y in q.pages && q.pages[y] == o.pages[y]
    requires Lost(t.kids[i], o, x) && forall j :: 0 <= j < |t.kids| && j != i ==> !Holds(t.kids[j], x)
    requires Shape(u) && Stored(q.pages, u)
    requires u.id in RootIds(t.kids) || (o.split.Some? && u.id == o.split.value.right)
    ensures !Holds(u, x)
  {
    if j :| 0 <= j < |t.kids| && j != i && t.kids[j].id == u.id {
      SiblingsStored(pages, t, i, o, j);
      forall y | y in PagesOf(t.kids[j]) ensures y in q.pages && (y in o.pages ==> q.pages[y] == o.pages[y]) {
        StoredPages(o.pages, t.kids[j], y);
      }
      StoredFrame(o.pages, q.pages, t.kids[j]);
      StoredUnique(q.pages, u, t.kids[j]);
    } else {
      assert u.id == t.kids[i].id || (o.split.Some? && u.id == o.split.value.right);
      assert t.id !in PagesOf(t.kids[i]) by {
        Around(t.kids, i);
        assert PagesOf(t)[t.id] >= 1 + PagesOf(t.kids[i])[t.id];
      }
      BelowChild(pages, t, i, o, q, u);
    }
  }

  /** A loss below child i is a loss below t. */
  lemma {:induction false} LossSpreads(pages: PageMap, t: Tree, k: Bytes, i: nat, o: Outcome, x: Item, lo: Bound,
                                       hi: Bound)
    requires t.Node? && Shape(t) && Stored(pages, t) && NoSharing(PagesOf(t)) && Ordered(t, lo, hi) && Within(lo, k, hi)
    requires i == ChildIndex(t.page.links.cells, k) < |t.kids|
    requires Framed(pages, t.kids[i], o) && Closed(o.pages, Span(pages, t.kids[i], o))
    requires o.split.Some? ==> o.split.value.right in o.pages.Keys - pages.Keys
    requires Expected(pages, t.kids[i], k, o, x) && Lost(t.kids[i], o, x)
    ensures Lost(t, if o.split.None? then o else LinkSplit(t, i, o), x)
  {
    var q := if o.split.None? then o else LinkSplit(t, i, o);
    if o.split.Some? {
      FreshIsFresh(o.pages, o.alloc, t.page);
    }
    assert t.id !in PagesOf(t.kids[i]) by {
      Around(t.kids, i);
      assert PagesOf(t)[t.id] >= 1 + PagesOf(t.kids[i])[t.id];
    }
    forall j | 0 <= j < |t.kids| && j != i ensures !Holds(t.kids[j], x) {
      Foreign(pages, t, k, i, o, x, lo, hi, j);
    }
    forall u | Shape(u) && Stored(q.pages, u) && IsRoot(t, q, u.id) ensures !Holds(u, x) {
      NodeLacks(pages, t, i, o, q, u, x);
    }
  }

  /** The pages t turned into point to its old children and the page split off child i. */
  lemma {:induction false} RootPointers(pages: PageMap, t: Tree, i: nat, o: Outcome, q: Outcome, u: Tree)
    requires t.Node? && Shape(t) && Stored(pages, t) && i < |t.kids| && t.id !in PagesOf(t.kids[i])
    requires q == if o.split.None? then o else LinkSplit(t, i, o)
    requires Framed(pages, t.kids[i], o) && (o.split.Some? ==> Fresh(o.alloc) !in o.pages)
    requires Shape(u) && Stored(q.pages, u) && IsRoot(t, q, u.id)
    ensures u.Node? && (u.id == t.id || u.id !in o.pages)
    ensures forall m :: 0 <= m < |u.kids| ==>
              u.kids[m].id in RootIds(t.kids) || (o.split.Some? && u.kids[m].id == o.split.value.right)
  {
    if o.split.None? {
      assert u.page == t.page;
    }
    forall m | 0 <= m < |u.kids|
      ensures u.kids[m].id in RootIds(t.kids) || (o.split.Some? && u.kids[m].id == o.split.value.right)
    {
      var c := u.kids[m].id;
      assert RootIds(u.kids)[m] == c;
      assert c in Children(u.page.links.cells, u.page.right);
      if o.split.Some? {
        LinkSplitPointers(t, i, o, u.id, c);
      }
    }
  }

  lemma {:induction false} NodeLacks(pages: PageMap, t: Tree, i: nat, o: Outcome, q: Outcome, u: Tree, x: Item)
    requires t.Node? && Shape(t) && Stored(pages, t) && NoSharing(PagesOf(t)) && i < |t.kids|
    requires q == if o.split.None? then o else LinkSplit(t, i, o)
    requires Framed(pages, t.kids[i], o) && Closed(o.pages, Span(pages, t.kids[i], o))
    requires o.split.Some? ==> o.split.value.right in o.pages.Keys - pages.Keys && Fresh(o.alloc) !in o.pages
    requires t.id !in PagesOf(t.kids[i])
    requires x.OfPage? ==> x.id in PagesOf(t.kids[i]) || x.id in o.pages.Keys - pages.Keys
    requires Lost(t.kids[i], o, x) && forall j :: 0 <= j < |t.kids| && j != i ==> !Holds(t.kids[j], x)
    requires Shape(u) && Stored(q.pages, u) && IsRoot(t, q, u.id)
    ensures !Holds(u, x)
  {
    RootPointers(pages, t, i, o, q, u);
    if Holds(u, x) {
      assert x != OfPage(u.id) by {
        if x.OfPage? && x.id in PagesOf(t.kids[i]) {
          StoredPages(pages, t.kids[i], x.id);
        }
      }
      var m := HeldBelow(u, x);
      NotAmongKids(pages, t, i, o, q, u.kids[m], x);
    }
  }

  // ---- the whole descent ---------------------------------------------------

  lemma {:induction false} OverflowLoses(pages: PageMap, t: Tree, k: Bytes, v: Bytes, o: Outcome, g: seq<Tree>,
                                         lo: Bound, hi: Bound) returns (x: Item)
    requires t.Node? && Puttable(t, k, v) && Stored(pages, t) && NoSharing(PagesOf(t))
    requires Ordered(t, lo, hi) && Within(lo, k, hi)
    requires ChildIndex(t.page.links.cells, k) < |t.kids|
    requires Framed(pages, t.kids[ChildIndex(t.page.links.cells, k)], o)
    requires Grown(pages, t.kids[ChildIndex(t.page.links.cells, k)], k, v, o, g)
    requires var i := ChildIndex(t.page.links.cells, k);
             && o.split.Some? && !Fits(t.page.links, LinkSize(Cell(o.split.value.key, t.kids[i].id)))
             && (i == |t.page.links.cells| ||
                 !InternalHalvesFit(LinksWith(t.page.links.cells, i, o.split.value.key, t.kids[i].id,
                                              o.split.value.right)))
    ensures var q := LinkSplit(t, ChildIndex(t.page.links.cells, k), o);
            Expected(pages, t, k, q, x) && Lost(t, q, x)
  {
    var i := ChildIndex(t.page.links.cells, k);
    var q, kids := LinkSplit(t, i, o), Splice(t.kids, i, i + 1, g);
    assert |RootIds(t.kids)| == |Children(t.page.links.cells, t.page.right)|;
    GrowKids(pages, t, k, v, ChildIndex(t.page.links.cells, k), o, g, lo, hi);
    x := SplitLoses(pages, t, k, v, i, o, g, kids);
  }

  lemma {:induction false} SplitLoses(pages: PageMap, t: Tree, k: Bytes, v: Bytes, i: nat, o: Outcome, g: seq<Tree>,
                                      kids: seq<Tree>) returns (x: Item)
    requires t.Node? && Shape(t) && Stored(pages, t) && NoSharing(PagesOf(t)) && i < |t.kids|
             && |t.kids| == |t.page.links.cells| + 1
    requires kids == Splice(t.kids, i, i + 1, g) && Roots(t.kids[i], o, g) && KidsGrown(pages, t, k, v, o, kids)
    requires AllocOk(o.pages, o.alloc) && pages.Keys <= o.pages.Keys
    requires o.split.Some? && !Fits(t.page.links, LinkSize(Cell(o.split.value.key, t.kids[i].id)))
    requires i == |t.page.links.cells| ||
             !InternalHalvesFit(LinksWith(t.page.links.cells, i, o.split.value.key, t.kids[i].id, o.split.value.right))
    ensures Expected(pages, t, k, LinkSplit(t, i, o), x) && Lost(t, LinkSplit(t, i, o), x)
  {
    var q := LinkSplit(t, i, o);
    FreshIsFresh(o.pages, o.alloc, t.page);
    KidsUnshared(pages, t, o, kids);
    RootsDistinct(kids);
    var c := OverflowDrops(t, i, o, g);
    x := OfPage(c);
    KidsStayStored(pages, t, k, v, o, kids, q.pages);
    DroppedIsLost(t, q, kids, c);
    RootWasExpected(pages, t, o, kids, c);
  }

  lemma {:induction false} RootWasExpected(pages: PageMap, t: Tree, o: Outcome, kids: seq<Tree>, c: PageID)
    requires t.Node? && PagesOfForest(kids) == PagesOfForest(t.kids) + NewPages(pages, o.pages) && c in RootIds(kids)
    ensures c in PagesOf(t) || c in o.pages.Keys - pages.Keys
  {
    var n :| 0 <= n < |kids| && RootIds(kids)[n] == c;
    MemberPages(kids, n);
    assert c in PagesOf(kids[n]);
    assert c in PagesOfForest(kids);
  }

  lemma {:induction false} KidsUnshared(pages: PageMap, t: Tree, o: Outcome, kids: seq<Tree>)
    requires t.Node? && Stored(pages, t) && NoSharing(PagesOf(t)) && pages.Keys <= o.pages.Keys
             && Fresh(o.alloc) !in o.pages
    requires PagesOfForest(kids) == PagesOfForest(t.kids) + NewPages(pages, o.pages)
    ensures NoSharing(PagesOfForest(kids)) && t.id !in PagesOfForest(kids) && Fresh(o.alloc) !in PagesOfForest(kids)
  {
    forall x ensures PagesOf(t)[x] == (if x == t.id then 1 else 0) + PagesOfForest(t.kids)[x] { }
    forall x | x in PagesOfForest(t.kids) ensures x in pages && PagesOfForest(t.kids)[x] == 1 && x != t.id {
      StoredPages(pages, t, x);
      assert x in PagesOf(t);
    }
  }

  /** A put that does not keep its pages loses a page or a key below any page. */
  lemma {:induction false} PutRecLoses(pages: PageMap, a: Alloc, t: Tree, k: Bytes, v: Bytes, lo: Bound, hi: Bound)
    returns (x: Item)
    requires Puttable(t, k, v) && AllocOk(pages, a) && Stored(pages, t) && NoSharing(PagesOf(t))
    requires Ordered(t, lo, hi) && Within(lo, k, hi) && BoundLess(lo, hi)
    requires !KeepsPages(pages, a, t, k, v)
    ensures Expected(pages, t, k, PutRec(pages, a, t, k, v), x)
    ensures Lost(t, PutRec(pages, a, t, k, v), x)
    decreases t
  {
    if t.Leaf? {
      x := LeafLoses(pages, a, t, k, v);
    } else {
      var i, b := ChildIndex(t.page.links.cells, k), Bounds(lo, t.page.links.cells, hi);
      KidDescends(pages, t, k, v, lo, hi, i, b[i], b[i + 1]);
      if KeepsPages(pages, a, t.kids[i], k, v) {
        x := NodeLoses(pages, a, t, k, v, lo, hi, i, b[i], b[i + 1]);
      } else {
        x := PutRecLoses(pages, a, t.kids[i], k, v, b[i], b[i + 1]);
        LossGoesUp(pages, a, t, k, v, lo, hi, i, x);
      }
    }
  }

  /** The child keeps its pages, so the loss is in this node. */
  lemma {:induction false} NodeLoses(pages: PageMap, a: Alloc, t: Tree, k: Bytes, v: Bytes, lo: Bound, hi: Bound,
                                     i: nat, l: Bound, h: Bound)
    returns (x: Item)
    requires t.Node? && Puttable(t, k, v) && AllocOk(pages, a) && Stored(pages, t) && NoSharing(PagesOf(t))
    requires Ordered(t, lo, hi) && Within(lo, k, hi) && i == ChildIndex(t.page.links.cells, k) < |t.kids|
    requires Puttable(t.kids[i], k, v) && Stored(pages, t.kids[i]) && NoSharing(PagesOf(t.kids[i]))
    requires Ordered(t.kids[i], l, h) && Within(l, k, h) && BoundLess(l, h)
    requires KeepsPages(pages, a, t.kids[i], k, v) && !KeepsPages(pages, a, t, k, v)
    ensures Expected(pages, t, k, PutRec(pages, a, t, k, v), x) && Lost(t, PutRec(pages, a, t, k, v), x)
  {
    PutRecFramed(pages, a, t.kids[i], k, v);
    var g := PutRecGrows(pages, a, t.kids[i], k, v, l, h);
    x := OverflowLoses(pages, t, k, v, PutRec(pages, a, t.kids[i], k, v), g, lo, hi);
  }

  /** What is lost below is lost here. */
  lemma {:induction false} LossGoesUp(pages: PageMap, a: Alloc, t: Tree, k: Bytes, v: Bytes, lo: Bound, hi: Bound,
                                      i: nat, x: Item)
    requires t.Node? && Puttable(t, k, v) && AllocOk(pages, a) && Stored(pages, t) && NoSharing(PagesOf(t))
    requires Ordered(t, lo, hi) && Within(lo, k, hi) && i == ChildIndex(t.page.links.cells, k) < |t.kids|
    requires Puttable(t.kids[i], k, v) && Stored(pages, t.kids[i]) && NoSharing(PagesOf(t.kids[i]))
    requires var o := PutRec(pages, a, t.kids[i], k, v); Expected(pages, t.kids[i], k, o, x) && Lost(t.kids[i], o, x)
    ensures Expected(pages, t, k, PutRec(pages, a, t, k, v), x) && Lost(t, PutRec(pages, a, t, k, v), x)
  {
    var o := PutRec(pages, a, t.kids[i], k, v);
    PutRecFramed(pages, a, t.kids[i], k, v);
    PutRecClosed(pages, a, t.kids[i], k, v);
    SplitIsNew(pages, a, t.kids[i], k, v);
    LossSpreads(pages, t, k, i, o, x, lo, hi);
    ExpectedUp(pages, t, k, i, o, x);
  }
}
