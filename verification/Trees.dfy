/** The tree that a root page denotes, and what makes it a B+Tree.

    A tree is a mathematical reading of pages: `Stored` ties it to a page map, and
    the other predicates say what the pages must satisfy: separators bound
    subtrees, leaves are at equal depth, no page is used twice, pages respect
    their capacity, and the leaf sibling chain lists the leaves in tree order. */
module Trees {
  import opened Bytes
  import opened Entries
  import opened Pages

  type PageMap = map<PageID, Page>

  datatype Tree =
    | Leaf(id: PageID, page: Page)
    | Node(id: PageID, page: Page, kids: seq<Tree>)

  /** Child pointers of an internal page, left to right. */
  function Children(links: seq<Link>, right: PageID): (c: seq<PageID>)
    ensures |c| == |links| + 1
  {
    seq(|links| + 1, i requires 0 <= i <= |links| => if i < |links| then links[i].val else right)
  }

  function RootIds(f: seq<Tree>): (c: seq<PageID>)
    ensures |c| == |f|
  {
    seq(|f|, i requires 0 <= i < |f| => f[i].id)
  }

  // ---- structure -----------------------------------------------------------

  ghost predicate Shape(t: Tree) {
    match t
    case Leaf(_, page) => page.LeafPage?
    case Node(_, page, kids) =>
      && page.InternalPage?
      && RootIds(kids) == Children(page.links.cells, page.right)
      && forall i :: 0 <= i < |kids| ==> Shape(kids[i])
  }

  ghost predicate ShapeForest(f: seq<Tree>) {
    forall i :: 0 <= i < |f| ==> Shape(f[i])
  }

  ghost predicate Stored(pages: PageMap, t: Tree) {
    && t.id in pages
    && pages[t.id] == t.page
    && (t.Node? ==> forall i :: 0 <= i < |t.kids| ==> Stored(pages, t.kids[i]))
  }

  ghost predicate StoredForest(pages: PageMap, f: seq<Tree>) {
    forall i :: 0 <= i < |f| ==> Stored(pages, f[i])
  }

  /** All leaves are h levels down. */
  ghost predicate Level(t: Tree, h: nat) {
    match t
    case Leaf(_, _) => h == 0
    case Node(_, _, kids) => h > 0 && forall i :: 0 <= i < |kids| ==> Level(kids[i], h - 1)
  }

  ghost predicate LevelForest(f: seq<Tree>, h: nat) {
    forall i :: 0 <= i < |f| ==> Level(f[i], h)
  }

  /** The pages of a tree, with multiplicity. */
  ghost function PagesOf(t: Tree): multiset<PageID>
    decreases t, 1
  {
    match t
    case Leaf(id, _) => multiset{id}
    case Node(id, _, kids) => multiset{id} + PagesOfForest(kids)
  }

  ghost function PagesOfForest(f: seq<Tree>): multiset<PageID>
    decreases f, 0
  {
    if |f| == 0 then multiset{} else PagesOf(f[0]) + PagesOfForest(f[1..])
  }

  ghost predicate NoSharing(m: multiset<PageID>) {
    forall x :: x in m ==> m[x] == 1
  }

  // ---- contents ------------------------------------------------------------

  function EntriesOf(t: Tree): seq<Entry>
    requires Shape(t)
    decreases t, 1
  {
    match t
    case Leaf(_, page) => page.entries.cells
    case Node(_, _, kids) => EntriesOfForest(kids)
  }

  function EntriesOfForest(f: seq<Tree>): seq<Entry>
    requires ShapeForest(f)
    decreases f, 0
  {
    if |f| == 0 then [] else EntriesOf(f[0]) + EntriesOfForest(f[1..])
  }

  datatype LeafRef = LeafRef(id: PageID, next: PageID)

  /** The leaves in tree order, each with its sibling pointer. */
  function LeavesOf(t: Tree): seq<LeafRef>
    requires Shape(t)
    decreases t, 1
  {
    match t
    case Leaf(id, page) => [LeafRef(id, page.next)]
    case Node(_, _, kids) => LeavesOfForest(kids)
  }

  function LeavesOfForest(f: seq<Tree>): seq<LeafRef>
    requires ShapeForest(f)
    decreases f, 0
  {
    if |f| == 0 then [] else LeavesOf(f[0]) + LeavesOfForest(f[1..])
  }

  function Successor(l: seq<LeafRef>, i: nat, after: PageID): PageID {
    if i + 1 < |l| then l[i + 1].id else after
  }

  /** Each leaf points to the one after it, and the last one to `after`. */
  ghost predicate Chain(l: seq<LeafRef>, after: PageID) {
    forall i :: 0 <= i < |l| ==> l[i].next == Successor(l, i, after)
  }

  // ---- order ---------------------------------------------------------------

  /** None is minus infinity as a lower bound and plus infinity as an upper one. */
  type Bound = Option<Bytes>

  predicate BoundLess(lo: Bound, hi: Bound) {
    lo.None? || hi.None? || Less(lo.value, hi.value)
  }

  predicate Within(lo: Bound, k: Bytes, hi: Bound) {
    (lo.None? || Leq(lo.value, k)) && (hi.None? || Less(k, hi.value))
  }

  ghost predicate AllWithin(lo: Bound, s: seq<Entry>, hi: Bound) {
    forall i :: 0 <= i < |s| ==> Within(lo, s[i].key, hi)
  }

  function Keys(links: seq<Link>): (b: seq<Bound>)
    ensures |b| == |links|
  {
    seq(|links|, i requires 0 <= i < |links| => Some(links[i].key))
  }

  function Bounds(lo: Bound, links: seq<Link>, hi: Bound): (b: seq<Bound>)
    ensures |b| == |links| + 2
  {
    [lo] + Keys(links) + [hi]
  }

  /** Every subtree holds keys from its lower bound up to, not including, its upper bound,
      and separators are strictly ascending. */
  ghost predicate Ordered(t: Tree, lo: Bound, hi: Bound)
    requires Shape(t)
    decreases t, 2
  {
    match t
    case Leaf(_, page) => Ascending(page.entries.cells) && AllWithin(lo, page.entries.cells, hi)
    case Node(_, page, kids) => OrderedForest(kids, Bounds(lo, page.links.cells, hi))
  }

  ghost predicate OrderedForest(f: seq<Tree>, b: seq<Bound>)
    requires ShapeForest(f)
    decreases f, 1
  {
    |b| == |f| + 1 && forall i :: 0 <= i < |f| ==> OrderedAt(f, b, i)
  }

  ghost predicate OrderedAt(f: seq<Tree>, b: seq<Bound>, i: nat)
    requires ShapeForest(f) && |b| == |f| + 1 && i < |f|
    decreases f, 0
  {
    BoundLess(b[i], b[i + 1]) && Ordered(f[i], b[i], b[i + 1])
  }

  // ---- capacity ------------------------------------------------------------

  ghost predicate SizedPage(p: Page) {
    match p
    case LeafPage(s, _) =>
      && Room(s) >= 0
      && Footprint(s.cells, EntrySize) <= CAPACITY - Room(s)
      && forall i :: 0 <= i < |s.cells| ==> |s.cells[i].key| <= MAX_KEY_VALUE && |s.cells[i].val| <= MAX_KEY_VALUE
    case InternalPage(s, _) =>
      && Room(s) >= 0
      && Footprint(s.cells, LinkSize) == CAPACITY - Room(s)
      && forall i :: 0 <= i < |s.cells| ==> |s.cells[i].key| <= MAX_KEY_VALUE
  }

  ghost predicate Sized(t: Tree) {
    SizedPage(t.page) && (t.Node? ==> forall i :: 0 <= i < |t.kids| ==> Sized(t.kids[i]))
  }

  ghost predicate SizedForest(f: seq<Tree>) {
    forall i :: 0 <= i < |f| ==> Sized(f[i])
  }

  // ---- a whole tree --------------------------------------------------------

  /** t is a B+Tree stored in pages, in some uniform depth. */
  ghost predicate ValidTree(pages: PageMap, t: Tree) {
    && Shape(t)
    && Stored(pages, t)
    && (exists h :: Level(t, h))
    && NoSharing(PagesOf(t))
    && Ordered(t, None, None)
    && Sized(t)
    && Chain(LeavesOf(t), 0)
  }

  /** The finite map a tree denotes. */
  ghost function Contents(t: Tree): map<Bytes, Bytes>
    requires Shape(t)
  {
    ToMap(EntriesOf(t))
  }

  // ---- forests -------------------------------------------------------------

  lemma {:induction false} PagesAppend(f: seq<Tree>, g: seq<Tree>)
    ensures PagesOfForest(f + g) == PagesOfForest(f) + PagesOfForest(g)
  {
    if |f| == 0 {
      assert f + g == g;
    } else {
      assert (f + g)[1..] == f[1..] + g;
      PagesAppend(f[1..], g);
    }
  }

  lemma {:induction false} EntriesAppend(f: seq<Tree>, g: seq<Tree>)
    requires ShapeForest(f) && ShapeForest(g)
    ensures EntriesOfForest(f + g) == EntriesOfForest(f) + EntriesOfForest(g)
  {
    if |f| == 0 {
      assert f + g == g;
    } else {
      assert (f + g)[1..] == f[1..] + g;
      EntriesAppend(f[1..], g);
      assert EntriesOfForest(f + g) == EntriesOf(f[0]) + (EntriesOfForest(f[1..]) + EntriesOfForest(g));
    }
  }

  lemma {:induction false} LeavesAppend(f: seq<Tree>, g: seq<Tree>)
    requires ShapeForest(f) && ShapeForest(g)
    ensures LeavesOfForest(f + g) == LeavesOfForest(f) + LeavesOfForest(g)
  {
    if |f| == 0 {
      assert f + g == g;
    } else {
      assert (f + g)[1..] == f[1..] + g;
      LeavesAppend(f[1..], g);
      assert LeavesOfForest(f + g) == LeavesOf(f[0]) + (LeavesOfForest(f[1..]) + LeavesOfForest(g));
    }
  }

  lemma {:induction false} SingletonForest(t: Tree)
    ensures PagesOfForest([t]) == PagesOf(t)
    ensures Shape(t) ==> EntriesOfForest([t]) == EntriesOf(t) && LeavesOfForest([t]) == LeavesOf(t)
  {
    assert [t][1..] == [];
    if Shape(t) {
      assert EntriesOf(t) + [] == EntriesOf(t);
      assert LeavesOf(t) + [] == LeavesOf(t);
    }
  }

  lemma {:induction false} MemberPages(f: seq<Tree>, i: nat)
    requires i < |f|
    ensures PagesOf(f[i]) <= PagesOfForest(f)
  {
    if i != 0 {
      MemberPages(f[1..], i - 1);
    }
  }

  lemma {:induction false} PageMember(f: seq<Tree>, x: PageID) returns (i: nat)
    requires x in PagesOfForest(f)
    ensures i < |f| && x in PagesOf(f[i])
  {
    if x in PagesOf(f[0]) {
      i := 0;
    } else {
      i := PageMember(f[1..], x);
      i := i + 1;
    }
  }

  /** The three parts of a forest around one tree. */
  lemma {:induction false} Around(f: seq<Tree>, i: nat)
    requires i < |f|
    ensures f == f[..i] + [f[i]] + f[i + 1..]
    ensures PagesOfForest(f) == PagesOfForest(f[..i]) + PagesOf(f[i]) + PagesOfForest(f[i + 1..])
  {
    assert f == f[..i] + [f[i]] + f[i + 1..];
    PagesAppend(f[..i] + [f[i]], f[i + 1..]);
    PagesAppend(f[..i], [f[i]]);
    SingletonForest(f[i]);
  }

  /** Two trees of a forest use separate copies of a page. */
  lemma {:induction false} PagesAddUp(f: seq<Tree>, i: nat, j: nat, x: PageID)
    requires i < j < |f|
    ensures PagesOfForest(f)[x] >= PagesOf(f[i])[x] + PagesOf(f[j])[x]
  {
    if i == 0 {
      FirstAddsUp(f, j, x);
    } else {
      var rest := f[1..];
      assert rest[i - 1] == f[i] && rest[j - 1] == f[j];
      PagesAddUp(rest, i - 1, j - 1, x);
      CountPages(f, x);
    }
  }

  lemma {:induction false} FirstAddsUp(f: seq<Tree>, j: nat, x: PageID)
    requires 0 < j < |f|
    ensures PagesOfForest(f)[x] >= PagesOf(f[0])[x] + PagesOf(f[j])[x]
  {
    CountPages(f, x);
    MemberCount(f[1..], j - 1, x);
    assert f[1..][j - 1] == f[j];
  }

  lemma {:induction false} CountPages(f: seq<Tree>, x: PageID)
    requires |f| > 0
    ensures PagesOfForest(f)[x] == PagesOf(f[0])[x] + PagesOfForest(f[1..])[x]
  {
  }

  lemma {:induction false} MemberCount(f: seq<Tree>, i: nat, x: PageID)
    requires i < |f|
    ensures PagesOf(f[i])[x] <= PagesOfForest(f)[x]
  {
    CountPages(f, x);
    if i != 0 {
      MemberCount(f[1..], i - 1, x);
    }
  }

  lemma {:induction false} ForestDisjoint(f: seq<Tree>, i: nat, j: nat, x: PageID)
    requires NoSharing(PagesOfForest(f)) && i < |f| && j < |f|
    requires x in PagesOf(f[i]) && x in PagesOf(f[j])
    ensures i == j
  {
    if i < j {
      PagesAddUp(f, i, j, x);
    } else if j < i {
      PagesAddUp(f, j, i, x);
    }
  }

  lemma {:induction false} EntriesAround(f: seq<Tree>, i: nat)
    requires ShapeForest(f) && i < |f|
    ensures EntriesOfForest(f) == EntriesOfForest(f[..i]) + EntriesOf(f[i]) + EntriesOfForest(f[i + 1..])
  {
    assert f == f[..i] + [f[i]] + f[i + 1..];
    EntriesAppend(f[..i] + [f[i]], f[i + 1..]);
    EntriesAppend(f[..i], [f[i]]);
    SingletonForest(f[i]);
  }

  lemma {:induction false} LeavesAround(f: seq<Tree>, i: nat)
    requires ShapeForest(f) && i < |f|
    ensures LeavesOfForest(f) == LeavesOfForest(f[..i]) + LeavesOf(f[i]) + LeavesOfForest(f[i + 1..])
  {
    assert f == f[..i] + [f[i]] + f[i + 1..];
    LeavesAppend(f[..i] + [f[i]], f[i + 1..]);
    LeavesAppend(f[..i], [f[i]]);
    SingletonForest(f[i]);
  }

  lemma {:induction false} ThreePages(a: seq<Tree>, g: seq<Tree>, b: seq<Tree>)
    ensures PagesOfForest(a + g + b) == PagesOfForest(a) + PagesOfForest(g) + PagesOfForest(b)
  {
    PagesAppend(a + g, b);
    PagesAppend(a, g);
  }

  lemma {:induction false} ThreeEntries(a: seq<Tree>, g: seq<Tree>, b: seq<Tree>)
    requires ShapeForest(a) && ShapeForest(g) && ShapeForest(b)
    ensures ShapeForest(a + g) && ShapeForest(a + g + b)
    ensures EntriesOfForest(a + g + b) == EntriesOfForest(a) + EntriesOfForest(g) + EntriesOfForest(b)
  {
    EntriesAppend(a, g);
    EntriesAppend(a + g, b);
  }

  lemma {:induction false} ThreeLeaves(a: seq<Tree>, g: seq<Tree>, b: seq<Tree>)
    requires ShapeForest(a) && ShapeForest(g) && ShapeForest(b)
    ensures ShapeForest(a + g) && ShapeForest(a + g + b)
    ensures LeavesOfForest(a + g + b) == LeavesOfForest(a) + LeavesOfForest(g) + LeavesOfForest(b)
  {
    LeavesAppend(a, g);
    LeavesAppend(a + g, b);
  }

  /** The same three parts once the tree in the middle became the forest g. */
  lemma {:induction false} SpliceForest(f: seq<Tree>, i: nat, g: seq<Tree>)
    requires i < |f|
    ensures PagesOfForest(Splice(f, i, i + 1, g)) ==
            PagesOfForest(f[..i]) + PagesOfForest(g) + PagesOfForest(f[i + 1..])
    ensures ShapeForest(f) && ShapeForest(g) ==>
              && ShapeForest(Splice(f, i, i + 1, g))
              && EntriesOfForest(Splice(f, i, i + 1, g)) ==
                EntriesOfForest(f[..i]) + EntriesOfForest(g) + EntriesOfForest(f[i + 1..])
              && LeavesOfForest(Splice(f, i, i + 1, g)) ==
                LeavesOfForest(f[..i]) + LeavesOfForest(g) + LeavesOfForest(f[i + 1..])
  {
    ThreePages(f[..i], g, f[i + 1..]);
    if ShapeForest(f) && ShapeForest(g) {
      ThreeEntries(f[..i], g, f[i + 1..]);
      ThreeLeaves(f[..i], g, f[i + 1..]);
    }
  }

  // ---- storage -------------------------------------------------------------

  /** A tree is still stored when its own pages are unchanged. */
  lemma {:induction false} StoredFrame(pages: PageMap, pages': PageMap, t: Tree)
    requires Stored(pages, t)
    requires forall x :: x in PagesOf(t) ==> x in pages' && (x in pages ==> pages'[x] == pages[x])
    ensures Stored(pages', t)
  {
    if t.Node? {
      forall i | 0 <= i < |t.kids| ensures Stored(pages', t.kids[i]) {
        MemberPages(t.kids, i);
        StoredFrame(pages, pages', t.kids[i]);
      }
    }
  }

  lemma {:induction false} StoredPages(pages: PageMap, t: Tree, x: PageID)
    requires Stored(pages, t) && x in PagesOf(t)
    ensures x in pages
  {
    if t.Node? && x != t.id {
      var i := PageMember(t.kids, x);
      StoredPages(pages, t.kids[i], x);
    }
  }

  /** Pages determine the tree below a root page. */
  lemma {:induction false} StoredUnique(pages: PageMap, t: Tree, u: Tree)
    requires Stored(pages, t) && Stored(pages, u) && Shape(t) && Shape(u)
    requires t.id == u.id
    ensures t == u
  {
    if t.Node? {
      assert RootIds(t.kids) == RootIds(u.kids);
      forall i | 0 <= i < |t.kids| ensures t.kids[i] == u.kids[i] {
        assert RootIds(t.kids)[i] == RootIds(u.kids)[i];
        StoredUnique(pages, t.kids[i], u.kids[i]);
      }
      assert t.kids == u.kids;
    }
  }

  // ---- order ---------------------------------------------------------------

  lemma {:induction false} BoundLessTransitive(a: Bound, b: Bytes, c: Bound)
    requires BoundLess(a, Some(b)) && BoundLess(Some(b), c)
    ensures BoundLess(a, c)
  {
    if a.Some? && c.Some? {
      LessTransitive(a.value, b, c.value);
    }
  }

  lemma {:induction false} BoundsAscend(f: seq<Tree>, b: seq<Bound>, i: nat, j: nat)
    requires ShapeForest(f) && OrderedForest(f, b) && i < j < |b|
    requires forall m :: 0 < m < |b| - 1 ==> b[m].Some?
    ensures BoundLess(b[i], b[j])
    decreases j - i
  {
    assert OrderedAt(f, b, i);
    if i + 1 < j {
      BoundsAscend(f, b, i + 1, j);
      BoundLessTransitive(b[i], b[i + 1].value, b[j]);
    }
  }

  lemma {:induction false} OrderedHalves(f: seq<Tree>, b: seq<Bound>, m: nat)
    requires ShapeForest(f) && |b| == |f| + 1 && m <= |f|
    ensures OrderedForest(f, b) <==> OrderedForest(f[..m], b[..m + 1]) && OrderedForest(f[m..], b[m..])
  {
    var f0, f1, b0, b1 := f[..m], f[m..], b[..m + 1], b[m..];
    assert forall i :: 0 <= i < m ==> OrderedAt(f0, b0, i) == OrderedAt(f, b, i);
    assert forall i :: 0 <= i < |f1| ==> OrderedAt(f1, b1, i) == OrderedAt(f, b, m + i);
    if OrderedForest(f0, b0) && OrderedForest(f1, b1) {
      forall i | 0 <= i < |f| ensures OrderedAt(f, b, i) {
        if i >= m {
          assert OrderedAt(f1, b1, i - m);
        }
      }
    }
  }

  /** Separators of an ordered page are strictly ascending. */
  lemma {:induction false} SeparatorsAscend(t: Tree, lo: Bound, hi: Bound)
    requires t.Node? && Shape(t) && Ordered(t, lo, hi)
    ensures Ascending(t.page.links.cells)
  {
    var links := t.page.links.cells;
    var b := Bounds(lo, links, hi);
    forall i, j | 0 <= i < j < |links| ensures Less(links[i].key, links[j].key) {
      assert b[i + 1] == Some(links[i].key) && b[j + 1] == Some(links[j].key);
      BoundsAscend(t.kids, b, i + 1, j + 1);
    }
  }

  lemma {:induction false} EntriesOrdered(t: Tree, lo: Bound, hi: Bound)
    requires Shape(t) && Ordered(t, lo, hi)
    ensures Ascending(EntriesOf(t)) && AllWithin(lo, EntriesOf(t), hi)
    decreases t, 1
  {
    if t.Node? {
      ForestEntriesOrdered(t.kids, Bounds(lo, t.page.links.cells, hi));
    }
  }

  lemma {:induction false} ForestEntriesOrdered(f: seq<Tree>, b: seq<Bound>)
    requires ShapeForest(f) && OrderedForest(f, b) && |f| > 0
    requires forall m :: 0 < m < |b| - 1 ==> b[m].Some?
    ensures Ascending(EntriesOfForest(f)) && AllWithin(b[0], EntriesOfForest(f), b[|f|])
    decreases f, 0
  {
    assert OrderedAt(f, b, 0);
    EntriesOrdered(f[0], b[0], b[1]);
    if |f| == 1 {
      SingletonForest(f[0]);
      assert f == [f[0]];
    } else {
      OrderedHalves(f, b, 1);
      ForestEntriesOrdered(f[1..], b[1..]);
      BoundsAscend(f, b, 1, |f|);
      JoinOrdered(b[0], EntriesOf(f[0]), b[1].value, EntriesOfForest(f[1..]), b[|f|]);
    }
  }

  lemma {:induction false} JoinOrdered(lo: Bound, x: seq<Entry>, m: Bytes, y: seq<Entry>, hi: Bound)
    requires Ascending(x) && AllWithin(lo, x, Some(m)) && Ascending(y) && AllWithin(Some(m), y, hi)
    requires BoundLess(lo, Some(m)) && BoundLess(Some(m), hi)
    ensures Ascending(x + y) && AllWithin(lo, x + y, hi)
  {
    var w := x + y;
    forall i | 0 <= i < |w| ensures Within(lo, w[i].key, hi) {
      if i < |x| {
        assert Within(lo, x[i].key, Some(m));
        if hi.Some? { LessTransitive(x[i].key, m, hi.value); }
      } else {
        assert Within(Some(m), y[i - |x|].key, hi);
        if lo.Some? { LessLeqTransitive(lo.value, m, w[i].key); }
      }
    }
    forall i, j | 0 <= i < j < |w| ensures Less(w[i].key, w[j].key) {
      if i < |x| <= j {
        assert Within(lo, x[i].key, Some(m)) && Within(Some(m), y[j - |x|].key, hi);
        LessLeqTransitive(x[i].key, m, w[j].key);
      }
    }
  }

  lemma {:induction false} WithinBelow(lo: Bound, s: seq<Entry>, hi: Bytes, k: Bytes)
    requires AllWithin(lo, s, Some(hi)) && Leq(hi, k)
    ensures AllBelow(s, k)
  {
    forall i | 0 <= i < |s| ensures Less(s[i].key, k) {
      assert Within(lo, s[i].key, Some(hi));
      LessLeqTransitive(s[i].key, hi, k);
    }
  }

  lemma {:induction false} WithinAbove(lo: Bytes, s: seq<Entry>, hi: Bound, k: Bytes)
    requires AllWithin(Some(lo), s, hi) && Less(k, lo)
    ensures AllAbove(s, k)
  {
    forall i | 0 <= i < |s| ensures Less(k, s[i].key) {
      assert Within(Some(lo), s[i].key, hi);
      LessLeqTransitive(k, lo, s[i].key);
    }
  }

  /** Around the subtree whose bounds hold k, everything is below or above k. */
  lemma {:induction false} NeighboursApart(f: seq<Tree>, b: seq<Bound>, i: nat, k: Bytes)
    requires ShapeForest(f) && OrderedForest(f, b) && i < |f|
    requires forall m :: 0 < m < |b| - 1 ==> b[m].Some?
    requires Within(b[i], k, b[i + 1])
    ensures AllBelow(EntriesOfForest(f[..i]), k) && AllAbove(EntriesOfForest(f[i + 1..]), k)
  {
    if i > 0 {
      OrderedHalves(f, b, i);
      ForestEntriesOrdered(f[..i], b[..i + 1]);
      WithinBelow(b[0], EntriesOfForest(f[..i]), b[i].value, k);
    }
    if i + 1 < |f| {
      OrderedHalves(f, b, i + 1);
      ForestEntriesOrdered(f[i + 1..], b[i + 1..]);
      WithinAbove(b[i + 1].value, EntriesOfForest(f[i + 1..]), b[|f|], k);
    }
  }

  // ---- the leaf chain ------------------------------------------------------

  /** l' may stand for l inside any chain: it starts at the same leaf and leads to the same place. */
  ghost predicate ChainLike(l: seq<LeafRef>, l': seq<LeafRef>) {
    && |l| > 0 && |l'| > 0
    && l[0].id == l'[0].id
    && (Chain(l, l[|l| - 1].next) ==> Chain(l', l[|l| - 1].next))
  }

  /** A chain of two runs: the first leads to the head of the second. */
  lemma {:induction false} ChainAppend(a: seq<LeafRef>, b: seq<LeafRef>, after: PageID)
    ensures Chain(a + b, after) <==> Chain(a, if |b| > 0 then b[0].id else after) && Chain(b, after)
  {
    var w, m := a + b, if |b| > 0 then b[0].id else after;
    assert forall i :: 0 <= i < |a| ==> w[i] == a[i] && Successor(w, i, after) == Successor(a, i, m);
    assert forall i :: 0 <= i < |b| ==> w[|a| + i] == b[i] && Successor(w, |a| + i, after) == Successor(b, i, after);
  }

  lemma {:induction false} ChainContext(a: seq<LeafRef>, l: seq<LeafRef>, l': seq<LeafRef>, b: seq<LeafRef>,
                                        after: PageID)
    requires ChainLike(l, l') && Chain(a + l + b, after)
    ensures Chain(a + l' + b, after)
  {
    var e := if |b| > 0 then b[0].id else after;
    ChainAppend(a + l, b, after);
    ChainAppend(a, l, e);
    assert l[|l| - 1].next == e;
    ChainAppend(a, l', e);
    ChainAppend(a + l', b, after);
  }

  /** Replacing l by l' inside a larger run of leaves keeps it a stand-in. */
  lemma {:induction false} ChainLikeContext(a: seq<LeafRef>, l: seq<LeafRef>, l': seq<LeafRef>, b: seq<LeafRef>)
    requires ChainLike(l, l')
    ensures ChainLike(a + l + b, a + l' + b)
  {
    var w, w' := a + l + b, a + l' + b;
    if |a| > 0 {
      assert w[0] == a[0] == w'[0];
    }
    if Chain(w, w[|w| - 1].next) {
      ChainContext(a, l, l', b, w[|w| - 1].next);
    }
  }
}
