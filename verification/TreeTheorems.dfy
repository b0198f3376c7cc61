/** The B+Tree refines a finite map: lookup, put, delete, and whole runs. */
module TreeTheorems {
  import opened Bytes
  import opened Entries
  import opened Pages
  import opened Trees
  import opened TreeOps
  import opened PutSound
  import opened PutLosses

  // ---- get -----------------------------------------------------------------

  lemma {:induction false} LeafForFinds(t: Tree, k: Bytes, lo: Bound, hi: Bound)
    requires Shape(t) && Ordered(t, lo, hi) && Within(lo, k, hi)
    ensures Ascending(LeafFor(t, k).page.entries.cells)
    ensures Lookup(EntriesOf(t), k) == Lookup(LeafFor(t, k).page.entries.cells, k)
    decreases t
  {
    if t.Node? {
      var i, b := ChildIndex(t.page.links.cells, k), Bounds(lo, t.page.links.cells, hi);
      ChildWithin(t, k, lo, hi);
      assert OrderedAt(t.kids, b, i);
      LeafForFinds(t.kids[i], k, b[i], b[i + 1]);
      EntriesAround(t.kids, i);
      NeighboursApart(t.kids, b, i, k);
      LookupContext(EntriesOfForest(t.kids[..i]), EntriesOf(t.kids[i]), EntriesOfForest(t.kids[i + 1..]), k);
    }
  }

  /** `Get` is lookup in the map. */
  lemma {:induction false} GetIsMapLookup(pages: PageMap, t: Tree, k: Bytes)
    requires ValidTree(pages, t)
    ensures GetIn(t, k) == if k in Contents(t) then Some(Contents(t)[k]) else None
  {
    LeafForFinds(t, k, None, None);
    EntriesOrdered(t, None, None);
    LookupIsMapLookup(EntriesOf(t), k);
    FindIndexIsLowerBound(LeafFor(t, k).page.entries.cells, k);
  }

  // ---- put -----------------------------------------------------------------

  /** t' is what the put of k -> v should have made of t: a valid tree at the new root,
      holding the updated map, made of the old pages and the allocated ones. */
  ghost predicate PutMade(pages: PageMap, t: Tree, k: Bytes, v: Bytes, db: Db, t': Tree)
    requires Shape(t)
  {
    && ValidTree(db.pages, t')
    && t'.id == db.root
    && Contents(t') == Contents(t)[k := v]
    && PagesOf(t') == PagesOf(t) + NewPages(pages, db.pages)
  }

  /** The tree a put leaves when nothing was lost: the subtrees f, under a new root if there are two. */
  ghost function Rooted(o: Outcome, f: seq<Tree>): Tree
    requires |f| == if o.split.None? then 1 else 2
  {
    match o.split
    case None => f[0]
    case Some(s) => Node(Fresh(o.alloc), InternalPage(Pack(EmptySlots(), [Cell(s.key, f[0].id)], LinkSize), s.right), f)
  }

  lemma {:induction false} NewRootPage(s: Split, left: PageID)
    requires |s.key| <= MAX_KEY_VALUE
    ensures Pack(EmptySlots(), [Cell(s.key, left)], LinkSize).cells == [Cell(s.key, left)]
    ensures SizedPage(InternalPage(Pack(EmptySlots(), [Cell(s.key, left)], LinkSize), s.right))
  {
    PackedLinksSized([Cell(s.key, left)], s.right);
  }

  lemma {:induction false} RootedShape(t: Tree, o: Outcome, f: seq<Tree>)
    requires Roots(t, o, f) && ShapeForest(f) && SizedForest(f)
    ensures Shape(Rooted(o, f)) && Sized(Rooted(o, f))
    ensures EntriesOf(Rooted(o, f)) == EntriesOfForest(f) && LeavesOf(Rooted(o, f)) == LeavesOfForest(f)
  {
    match o.split
    case None =>
      SingletonForest(f[0]);
      assert f == [f[0]];
    case Some(s) =>
      NewRootPage(s, t.id);
      var r := Rooted(o, f);
      assert RootIds(f) == Children(r.page.links.cells, r.page.right);
  }

  lemma {:induction false} RootedOrdered(t: Tree, o: Outcome, f: seq<Tree>)
    requires Roots(t, o, f) && ShapeForest(f) && SizedForest(f) && Shape(Rooted(o, f))
    ensures Ordered(Rooted(o, f), None, None) <==> OrderedForest(f, OutBounds(None, o, None))
  {
    match o.split
    case None =>
      OneOrdered(f[0], None, None);
      assert f == [f[0]];
    case Some(s) =>
      NewRootPage(s, t.id);
      assert Bounds(None, [Cell(s.key, t.id)], None) == [None, Some(s.key), None];
  }

  lemma {:induction false} RootedStored(pages: PageMap, a: Alloc, t: Tree, k: Bytes, v: Bytes, f: seq<Tree>)
    requires Puttable(t, k, v) && AllocOk(pages, a) && Stored(pages, t)
    requires Grown(pages, t, k, v, PutRec(pages, a, t, k, v), f)
    ensures var r, db := Rooted(PutRec(pages, a, t, k, v), f), Put(pages, a, t, k, v).value;
            && Stored(db.pages, r) && r.id == db.root
            && (var o := PutRec(pages, a, t, k, v);
                db.pages.Keys == if o.split.None? then o.pages.Keys else o.pages.Keys + {Fresh(o.alloc)})
  {
    var o, db := PutRec(pages, a, t, k, v), Put(pages, a, t, k, v).value;
    PutRecFramed(pages, a, t, k, v);
    if o.split.Some? {
      FreshIsFresh(o.pages, o.alloc, t.page);
      forall m | 0 <= m < 2 ensures Stored(db.pages, f[m]) {
        forall x | x in PagesOf(f[m]) ensures x in db.pages && (x in o.pages ==> db.pages[x] == o.pages[x]) {
          StoredPages(o.pages, f[m], x);
        }
        StoredFrame(o.pages, db.pages, f[m]);
      }
    }
  }

  lemma {:induction false} RootedPages(pages: PageMap, t: Tree, o: Outcome, f: seq<Tree>, pages': PageMap)
    requires Framed(pages, t, o) && Roots(t, o, f)
    requires PagesOfForest(f) == PagesOf(t) + NewPages(pages, o.pages)
    requires pages'.Keys == if o.split.None? then o.pages.Keys else o.pages.Keys + {Fresh(o.alloc)}
    ensures PagesOf(Rooted(o, f)) == PagesOf(t) + NewPages(pages, pages')
  {
    if o.split.None? {
      SingletonForest(f[0]);
      assert f == [f[0]];
    } else {
      var id := Fresh(o.alloc);
      FreshIsFresh(o.pages, o.alloc, t.page);
      NewPagesStep(pages, o.pages, pages', id);
      NewRootPages(PagesOf(t), NewPages(pages, o.pages), id, PagesOfForest(f));
    }
  }

  lemma {:induction false} NewRootPages(old0: multiset<PageID>, new0: multiset<PageID>, id: PageID,
                                        all: multiset<PageID>)
    requires all == old0 + new0
    ensures multiset{id} + all == old0 + (new0 + multiset{id})
  {
  }

  lemma {:induction false} UnsharedWithNew(pages: PageMap, pages': PageMap, t: Tree)
    requires Stored(pages, t) && NoSharing(PagesOf(t))
    ensures NoSharing(PagesOf(t) + NewPages(pages, pages'))
  {
    forall x | x in PagesOf(t) + NewPages(pages, pages') ensures (PagesOf(t) + NewPages(pages, pages'))[x] == 1 {
      if x in PagesOf(t) {
        StoredPages(pages, t, x);
      }
    }
  }

  lemma {:induction false} RootedChain(pages: PageMap, t: Tree, k: Bytes, v: Bytes, o: Outcome, f: seq<Tree>)
    requires ValidTree(pages, t) && Grown(pages, t, k, v, o, f)
    ensures Chain(LeavesOfForest(f), 0)
  {
    ChainContext([], LeavesOf(t), LeavesOfForest(f), [], 0) by {
      assert [] + LeavesOf(t) + [] == LeavesOf(t);
    }
    assert [] + LeavesOfForest(f) + [] == LeavesOfForest(f);
  }

  lemma {:induction false} RootedLevel(t: Tree, o: Outcome, f: seq<Tree>)
    requires Roots(t, o, f) && (exists h :: Level(t, h)) && (forall h :: Level(t, h) ==> LevelForest(f, h))
    ensures exists h :: Level(Rooted(o, f), h)
  {
    var h: nat :| Level(t, h);
    assert LevelForest(f, h);
    match o.split
    case None =>
      assert Rooted(o, f) == f[0];
      assert Level(Rooted(o, f), h);
    case Some(s) =>
      assert Level(Rooted(o, f), h + 1);
  }

  lemma {:induction false} RootedMade(pages: PageMap, t: Tree, k: Bytes, v: Bytes, o: Outcome, f: seq<Tree>, db: Db)
    requires ValidTree(pages, t) && Framed(pages, t, o) && Grown(pages, t, k, v, o, f)
    requires OrderedForest(f, OutBounds(None, o, None))
    requires db.pages.Keys == if o.split.None? then o.pages.Keys else o.pages.Keys + {Fresh(o.alloc)}
    requires Stored(db.pages, Rooted(o, f)) && Rooted(o, f).id == db.root
    ensures PutMade(pages, t, k, v, db, Rooted(o, f))
  {
    RootedShape(t, o, f);
    RootedOrdered(t, o, f);
    RootedPages(pages, t, o, f, db.pages);
    UnsharedWithNew(pages, db.pages, t);
    RootedChain(pages, t, k, v, o, f);
    RootedLevel(t, o, f);
    EntriesOrdered(t, None, None);
    UpsertRefinesMap(EntriesOf(t), k, v);
  }

  /** What a put that keeps its pages leaves behind. It is a valid tree when order is kept too. */
  lemma {:induction false} PutRooted(pages: PageMap, a: Alloc, t: Tree, k: Bytes, v: Bytes) returns (r: Tree)
    requires ValidTree(pages, t) && AllocOk(pages, a) && |k| <= MAX_KEY_VALUE && |v| <= MAX_KEY_VALUE
    requires KeepsPages(pages, a, t, k, v)
    ensures Shape(r) && Stored(Put(pages, a, t, k, v).value.pages, r) && r.id == Put(pages, a, t, k, v).value.root
    ensures KeepsOrder(t, k, v, None) ==> PutMade(pages, t, k, v, Put(pages, a, t, k, v).value, r)
    ensures Ordered(r, None, None) ==> KeepsOrder(t, k, v, None)
  {
    var o := PutRec(pages, a, t, k, v);
    var f := PutRecGrows(pages, a, t, k, v, None, None);
    r := Rooted(o, f);
    PutRecFramed(pages, a, t, k, v);
    RootedStored(pages, a, t, k, v, f);
    RootedIs(pages, t, k, v, o, f, Put(pages, a, t, k, v).value, r);
  }

  lemma {:induction false} RootedIs(pages: PageMap, t: Tree, k: Bytes, v: Bytes, o: Outcome, f: seq<Tree>, db: Db,
                                    r: Tree)
    requires ValidTree(pages, t) && Framed(pages, t, o) && Grown(pages, t, k, v, o, f) && r == Rooted(o, f)
    requires db.pages.Keys == if o.split.None? then o.pages.Keys else o.pages.Keys + {Fresh(o.alloc)}
    requires Stored(db.pages, r) && r.id == db.root
    ensures Shape(r) && (Ordered(r, None, None) <==> OrderedForest(f, OutBounds(None, o, None)))
    ensures OrderedForest(f, OutBounds(None, o, None)) ==> PutMade(pages, t, k, v, db, r)
  {
    assert Shape(r) by {
      RootedShape(t, o, f);
    }
    assert Ordered(r, None, None) <==> OrderedForest(f, OutBounds(None, o, None)) by {
      RootedOrdered(t, o, f);
    }
    if OrderedForest(f, OutBounds(None, o, None)) {
      RootedMade(pages, t, k, v, o, f, db);
    }
  }

  /** A loss below the old root shows at the new root. */
  lemma {:induction false} LossAtRoot(pages: PageMap, a: Alloc, t: Tree, k: Bytes, v: Bytes, x: Item, u: Tree)
    requires Puttable(t, k, v) && AllocOk(pages, a) && Stored(pages, t) && NoSharing(PagesOf(t))
    requires Expected(pages, t, k, PutRec(pages, a, t, k, v), x) && Lost(t, PutRec(pages, a, t, k, v), x)
    requires Shape(u) && Stored(Put(pages, a, t, k, v).value.pages, u) && u.id == Put(pages, a, t, k, v).value.root
    ensures !Holds(u, x)
  {
    var o, db := PutRec(pages, a, t, k, v), Put(pages, a, t, k, v).value;
    PutRecFramed(pages, a, t, k, v);
    if o.split.Some? && Holds(u, x) {
      FreshIsFresh(o.pages, o.alloc, t.page);
      assert x != OfPage(u.id) by {
        if x.OfPage? && x.id in PagesOf(t) {
          StoredPages(pages, t, x.id);
        }
      }
      var m := HeldBelow(u, x);
      var w := u.kids[m];
      RootChild(o, t, u, m);
      PutRecClosed(pages, a, t, k, v);
      SplitIsNew(pages, a, t, k, v);
      var s := Span(pages, t, o);
      forall id | id in s ensures ClosedAt(db.pages, s, id) {
        assert ClosedAt(o.pages, s, id);
      }
      forall y | y in PagesOf(w) ensures y in o.pages && (y in db.pages ==> o.pages[y] == db.pages[y]) {
        ReachStays(db.pages, s, w, y);
        assert ClosedAt(o.pages, s, y);
      }
      StoredFrame(db.pages, o.pages, w);
    }
  }

  /** A new root points to the old root and the page split off it. */
  lemma {:induction false} RootChild(o: Outcome, t: Tree, u: Tree, m: nat)
    requires o.split.Some? && u.Node? && Shape(u) && m < |u.kids|
    requires u.page == InternalPage(Pack(EmptySlots(), [Cell(o.split.value.key, t.id)], LinkSize), o.split.value.right)
    ensures u.kids[m].id == t.id || u.kids[m].id == o.split.value.right
  {
    assert RootIds(u.kids)[m] == u.kids[m].id;
    PackLosesNothingExtra(EmptySlots(), [Cell(o.split.value.key, t.id)], LinkSize);
    assert forall c :: c in u.page.links.cells ==> c == Cell(o.split.value.key, t.id);
    if m < |u.page.links.cells| {
      assert u.page.links.cells[m] in u.page.links.cells;
    }
  }

  /** Put updates the map and keeps every page exactly when it keeps its pages and its order. */
  lemma {:induction false} PutCorrectIff(pages: PageMap, a: Alloc, t: Tree, k: Bytes, v: Bytes)
    requires ValidTree(pages, t) && AllocOk(pages, a) && |k| <= MAX_KEY_VALUE && |v| <= MAX_KEY_VALUE
    ensures (exists t' :: PutMade(pages, t, k, v, Put(pages, a, t, k, v).value, t'))
            <==> KeepsPages(pages, a, t, k, v) && KeepsOrder(t, k, v, None)
  {
    var db := Put(pages, a, t, k, v).value;
    if KeepsPages(pages, a, t, k, v) {
      var r := PutRooted(pages, a, t, k, v);
      if t' :| PutMade(pages, t, k, v, db, t') {
        StoredUnique(db.pages, r, t');
      }
    } else {
      var x := PutRecLoses(pages, a, t, k, v, None, None);
      forall t' ensures !PutMade(pages, t, k, v, db, t') {
        if PutMade(pages, t, k, v, db, t') {
          LossAtRoot(pages, a, t, k, v, x, t');
          ExpectedAtRoot(pages, a, t, k, v, x, t');
        }
      }
    }
  }

  /** Whatever a put should have kept, the tree it should have made holds. */
  lemma {:induction false} ExpectedAtRoot(pages: PageMap, a: Alloc, t: Tree, k: Bytes, v: Bytes, x: Item, t': Tree)
    requires ValidTree(pages, t) && AllocOk(pages, a) && |k| <= MAX_KEY_VALUE && |v| <= MAX_KEY_VALUE
    requires Expected(pages, t, k, PutRec(pages, a, t, k, v), x)
    requires PutMade(pages, t, k, v, Put(pages, a, t, k, v).value, t')
    ensures Holds(t', x)
  {
    match x
    case OfPage(id) =>
    case OfKey(q) =>
      EntriesOrdered(t, None, None);
      EntriesOrdered(t', None, None);
      HasKeyIsInMap(EntriesOf(t), q);
      HasKeyIsInMap(EntriesOf(t'), q);
  }

  lemma {:induction false} HasKeyIsInMap(s: seq<Entry>, q: Bytes)
    requires Ascending(s)
    ensures HasKey(s, q) <==> q in ToMap(s)
  {
    ToMapIsMembership(s);
    if i :| 0 <= i < |s| && s[i].key == q {
      assert s[i] in s;
    }
  }

  // ---- delete --------------------------------------------------------------

  /** t with the leaf that holds k's place given another page. */
  ghost function WithLeaf(t: Tree, k: Bytes, page: Page): Tree
    requires Shape(t)
  {
    match t
    case Leaf(id, _) => Leaf(id, page)
    case Node(id, p, kids) =>
      var i := ChildIndex(p.links.cells, k);
      assert |RootIds(kids)| == |Children(p.links.cells, p.right)|;
      Node(id, p, Splice(kids, i, i + 1, [WithLeaf(kids[i], k, page)]))
  }

  /** What replacing the leaf of k by one without k keeps. */
  ghost predicate Shrunk(pages: PageMap, pages': PageMap, t: Tree, k: Bytes, t': Tree, lo: Bound, hi: Bound)
    requires Shape(t)
  {
    && Shape(t') && Stored(pages', t') && Sized(t') && t'.id == t.id
    && (forall h :: Level(t, h) ==> Level(t', h))
    && PagesOf(t') == PagesOf(t)
    && Ordered(t', lo, hi)
    && EntriesOf(t') == Remove(EntriesOf(t), k)
    && LeavesOf(t') == LeavesOf(t)
  }

  ghost predicate Deletable(t: Tree, k: Bytes)
    requires Shape(t)
  {
    FindIndex(LeafFor(t, k).page.entries.cells, k).exact
  }

  ghost function Emptied(t: Tree, k: Bytes): Page
    requires Shape(t) && Deletable(t, k)
  {
    var l := LeafFor(t, k);
    LeafPage(RemoveAt(l.page.entries, FindIndex(l.page.entries.cells, k).index), l.page.next)
  }

  lemma {:induction false} LeafForIn(t: Tree, k: Bytes)
    requires Shape(t)
    ensures LeafFor(t, k).id in PagesOf(t)
  {
    if t.Node? {
      var i := ChildIndex(t.page.links.cells, k);
      assert |RootIds(t.kids)| == |Children(t.page.links.cells, t.page.right)|;
      LeafForIn(t.kids[i], k);
      MemberPages(t.kids, i);
    }
  }

  lemma {:induction false} RemovedCells(s: Slots<Bytes>, k: Bytes, next: PageID, lo: Bound, hi: Bound)
    requires Ascending(s.cells) && AllWithin(lo, s.cells, hi) && SizedPage(LeafPage(s, next)) && Found(s.cells, k)
    ensures var r := RemoveAt(s, LowerBound(s.cells, k));
            && r.cells == Remove(s.cells, k)
            && Ascending(r.cells) && AllWithin(lo, r.cells, hi) && SizedPage(LeafPage(r, next))
  {
    var n := LowerBound(s.cells, k);
    var r := RemoveAt(s, n);
    RemoveAscending(s.cells, k);
    TotalWithout(s.cells, EntrySize, n);
    assert r.cells == Remove(s.cells, k);
    forall i | 0 <= i < |r.cells|
      ensures Within(lo, r.cells[i].key, hi)
      ensures |r.cells[i].key| <= MAX_KEY_VALUE && |r.cells[i].val| <= MAX_KEY_VALUE
    {
      assert r.cells[i] == s.cells[if i < n then i else i + 1];
    }
  }

  lemma {:induction false} LeafShrinks(pages: PageMap, t: Tree, k: Bytes, lo: Bound, hi: Bound)
    requires t.Leaf? && Shape(t) && Sized(t) && Ordered(t, lo, hi) && Stored(pages, t) && Deletable(t, k)
    ensures Shrunk(pages, pages[t.id := Emptied(t, k)], t, k, Leaf(t.id, Emptied(t, k)), lo, hi)
  {
    FindIndexIsLowerBound(t.page.entries.cells, k);
    RemovedCells(t.page.entries, k, t.page.next, lo, hi);
  }

  lemma {:induction false} DeleteShrinks(pages: PageMap, t: Tree, k: Bytes, lo: Bound, hi: Bound)
    requires Shape(t) && Sized(t) && Stored(pages, t) && NoSharing(PagesOf(t)) && Deletable(t, k)
    requires Ordered(t, lo, hi) && Within(lo, k, hi) && BoundLess(lo, hi)
    ensures Shrunk(pages, pages[LeafFor(t, k).id := Emptied(t, k)], t, k, WithLeaf(t, k, Emptied(t, k)), lo, hi)
    decreases t
  {
    if t.Leaf? {
      LeafShrinks(pages, t, k, lo, hi);
    } else {
      var i, b := ChildIndex(t.page.links.cells, k), Bounds(lo, t.page.links.cells, hi);
      KidDeletes(pages, t, k, lo, hi, i, b[i], b[i + 1]);
      DeleteShrinks(pages, t.kids[i], k, b[i], b[i + 1]);
      LeafForIn(t.kids[i], k);
      NodeShrinks(pages, pages[LeafFor(t, k).id := Emptied(t, k)], t, k,
                  WithLeaf(t.kids[i], k, Emptied(t, k)), lo, hi, LeafFor(t, k).id);
    }
  }

  lemma {:induction false} KidDeletes(pages: PageMap, t: Tree, k: Bytes, lo: Bound, hi: Bound, i: nat, l: Bound,
                                      h: Bound)
    requires t.Node? && Shape(t) && Sized(t) && Stored(pages, t) && NoSharing(PagesOf(t)) && Deletable(t, k)
    requires Ordered(t, lo, hi) && Within(lo, k, hi)
    requires var b := Bounds(lo, t.page.links.cells, hi);
             i == ChildIndex(t.page.links.cells, k) && i + 1 < |b| && l == b[i] && h == b[i + 1]
    ensures i < |t.kids| && Shape(t.kids[i]) && Sized(t.kids[i]) && Stored(pages, t.kids[i])
            && NoSharing(PagesOf(t.kids[i]))
    ensures Deletable(t.kids[i], k) && Ordered(t.kids[i], l, h) && Within(l, k, h) && BoundLess(l, h)
  {
    ChildWithin(t, k, lo, hi);
    KidUnshared(t, i);
    assert OrderedAt(t.kids, Bounds(lo, t.page.links.cells, hi), i);
  }

  lemma {:induction false} NodeShrinks(pages: PageMap, pages': PageMap, t: Tree, k: Bytes, w: Tree, lo: Bound,
                                       hi: Bound, id: PageID)
    requires t.Node? && Shape(t) && Sized(t) && Stored(pages, t) && NoSharing(PagesOf(t))
    requires Ordered(t, lo, hi) && Within(lo, k, hi) && BoundLess(lo, hi)
    requires ChildIndex(t.page.links.cells, k) < |t.kids|
    requires id in PagesOf(t.kids[ChildIndex(t.page.links.cells, k)])
    requires forall x :: x in pages && x != id ==> x in pages' && pages'[x] == pages[x]
    requires var i, b := ChildIndex(t.page.links.cells, k), Bounds(lo, t.page.links.cells, hi);
             Shrunk(pages, pages', t.kids[i], k, w, b[i], b[i + 1])
    ensures var i := ChildIndex(t.page.links.cells, k);
            Shrunk(pages, pages', t, k, Node(t.id, t.page, Splice(t.kids, i, i + 1, [w])), lo, hi)
  {
    var i := ChildIndex(t.page.links.cells, k);
    var n := Node(t.id, t.page, Splice(t.kids, i, i + 1, [w]));
    ShrunkShape(t, i, w);
    assert Stored(pages', n) by {
      ShrunkStored(pages, pages', t, i, w, id);
    }
    assert PagesOf(n) == PagesOf(t) && EntriesOf(n) == Remove(EntriesOf(t), k) && LeavesOf(n) == LeavesOf(t) by {
      ShrunkContents(t, k, i, w, lo, hi);
    }
    assert Ordered(n, lo, hi) by {
      ShrunkOrdered(t, k, i, w, lo, hi);
    }
    assert forall h :: Level(t, h) ==> Level(n, h) by {
      ShrunkLevel(t, i, w);
    }
  }

  lemma {:induction false} ShrunkShape(t: Tree, i: nat, w: Tree)
    requires t.Node? && Shape(t) && Sized(t) && i < |t.kids| && Shape(w) && Sized(w) && w.id == t.kids[i].id
    ensures Shape(Node(t.id, t.page, Splice(t.kids, i, i + 1, [w])))
            && Sized(Node(t.id, t.page, Splice(t.kids, i, i + 1, [w])))
    ensures i <= |t.page.links.cells|
  {
    var kids := Splice(t.kids, i, i + 1, [w]);
    assert |RootIds(t.kids)| == |Children(t.page.links.cells, t.page.right)|;
    assert kids == t.kids[i := w];
    assert RootIds(kids) == RootIds(t.kids);
  }

  lemma {:induction false} ShrunkLevel(t: Tree, i: nat, w: Tree)
    requires t.Node? && i < |t.kids| && forall h :: Level(t.kids[i], h) ==> Level(w, h)
    ensures forall h :: Level(t, h) ==> Level(Node(t.id, t.page, Splice(t.kids, i, i + 1, [w])), h)
  {
    assert Splice(t.kids, i, i + 1, [w]) == t.kids[i := w];
  }

  lemma {:induction false} ShrunkOrdered(t: Tree, k: Bytes, i: nat, w: Tree, lo: Bound, hi: Bound)
    requires t.Node? && Shape(t) && Ordered(t, lo, hi) && i < |t.kids| && i <= |t.page.links.cells| && Shape(w)
             && w.id == t.kids[i].id
    requires var b := Bounds(lo, t.page.links.cells, hi); Ordered(w, b[i], b[i + 1])
    ensures ShapeForest(Splice(t.kids, i, i + 1, [w]))
    ensures OrderedForest(Splice(t.kids, i, i + 1, [w]), Bounds(lo, t.page.links.cells, hi))
  {
    var b := Bounds(lo, t.page.links.cells, hi);
    assert OrderedAt(t.kids, b, i);
    OrderedSplice(t.kids, b, i, [w], [b[i], b[i + 1]]);
    OneOrdered(w, b[i], b[i + 1]);
    assert Splice(b, i, i + 2, [b[i], b[i + 1]]) == b;
  }

  lemma {:induction false} ShrunkStored(pages: PageMap, pages': PageMap, t: Tree, i: nat, w: Tree, id: PageID)
    requires t.Node? && Stored(pages, t) && NoSharing(PagesOf(t)) && i < |t.kids|
    requires id in PagesOf(t.kids[i]) && Stored(pages', w)
    requires forall x :: x in pages && x != id ==> x in pages' && pages'[x] == pages[x]
    ensures Stored(pages', Node(t.id, t.page, Splice(t.kids, i, i + 1, [w])))
  {
    var kids := Splice(t.kids, i, i + 1, [w]);
    assert kids == t.kids[i := w];
    assert t.id !in PagesOf(t.kids[i]) by {
      Around(t.kids, i);
      assert PagesOf(t)[t.id] >= 1 + PagesOf(t.kids[i])[t.id];
    }
    forall j | 0 <= j < |t.kids| && j != i ensures Stored(pages', t.kids[j]) {
      KidsDisjoint(t, i, j);
      forall x | x in PagesOf(t.kids[j]) ensures x in pages' && (x in pages ==> pages'[x] == pages[x]) {
        StoredPages(pages, t.kids[j], x);
      }
      StoredFrame(pages, pages', t.kids[j]);
    }
  }

  lemma {:induction false} ShrunkContents(t: Tree, k: Bytes, i: nat, w: Tree, lo: Bound, hi: Bound)
    requires t.Node? && Shape(t) && Ordered(t, lo, hi) && Within(lo, k, hi)
    requires i == ChildIndex(t.page.links.cells, k) < |t.kids|
    requires Shape(w) && EntriesOf(w) == Remove(EntriesOf(t.kids[i]), k) && LeavesOf(w) == LeavesOf(t.kids[i])
    requires PagesOf(w) == PagesOf(t.kids[i])
    ensures ShapeForest(Splice(t.kids, i, i + 1, [w]))
    ensures EntriesOfForest(Splice(t.kids, i, i + 1, [w])) == Remove(EntriesOf(t), k)
    ensures LeavesOfForest(Splice(t.kids, i, i + 1, [w])) == LeavesOf(t)
    ensures PagesOfForest(Splice(t.kids, i, i + 1, [w])) == PagesOfForest(t.kids)
  {
    var a, m, b := EntriesOfForest(t.kids[..i]), EntriesOf(t.kids[i]), EntriesOfForest(t.kids[i + 1..]);
    assert EntriesOf(t) == a + m + b by {
      EntriesAround(t.kids, i);
    }
    assert AllBelow(a, k) && AllAbove(b, k) by {
      ChildWithin(t, k, lo, hi);
      NeighboursApart(t.kids, Bounds(lo, t.page.links.cells, hi), i, k);
    }
    SingletonForest(w);
    SpliceForest(t.kids, i, [w]);
    assert EntriesOfForest(Splice(t.kids, i, i + 1, [w])) == Remove(EntriesOf(t), k) by {
      RemoveContext(a, m, b, k);
    }
    assert LeavesOfForest(Splice(t.kids, i, i + 1, [w])) == LeavesOf(t) by {
      LeavesAround(t.kids, i);
    }
    assert PagesOfForest(Splice(t.kids, i, i + 1, [w])) == PagesOfForest(t.kids) by {
      Around(t.kids, i);
    }
  }

  /** `Delete` drops the key from the map, and fails exactly when the key is absent. */
  lemma {:induction false} DeleteCorrect(pages: PageMap, t: Tree, k: Bytes)
    requires ValidTree(pages, t)
    ensures Delete(pages, t, k).Some? <==> k in Contents(t)
    ensures Delete(pages, t, k).Some? ==>
              var t' := WithLeaf(t, k, Emptied(t, k));
              && ValidTree(Delete(pages, t, k).value, t') && t'.id == t.id
              && Contents(t') == Contents(t) - {k} && PagesOf(t') == PagesOf(t)
  {
    GetIsMapLookup(pages, t, k);
    if Delete(pages, t, k).Some? {
      DeleteShrinks(pages, t, k, None, None);
      EntriesOrdered(t, None, None);
      RemoveRefinesMap(EntriesOf(t), k);
      var h: nat :| Level(t, h);
      assert Level(WithLeaf(t, k, Emptied(t, k)), h);
    }
  }
}
