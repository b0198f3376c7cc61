/** The leaf chain lists the entries in order, so walking it from the right place
    is a range scan. */
module Cursors {
  import opened Bytes
  import opened Entries
  import opened Pages
  import opened Trees
  import opened TreeOps
  import opened PutSound
  import opened TreeTheorems

  /** The leaves of a tree, in order. */
  ghost function LeafTrees(t: Tree): (l: seq<Tree>)
    requires Shape(t)
    ensures AllLeaves(l)
    decreases t, 1
  {
    match t
    case Leaf(_, _) => [t]
    case Node(_, _, kids) => LeafTreesOfForest(kids)
  }

  ghost function LeafTreesOfForest(f: seq<Tree>): (l: seq<Tree>)
    requires ShapeForest(f)
    ensures AllLeaves(l)
    decreases f, 0
  {
    if |f| == 0 then [] else LeafTrees(f[0]) + LeafTreesOfForest(f[1..])
  }

  ghost predicate AllLeaves(l: seq<Tree>) {
    forall i :: 0 <= i < |l| ==> l[i].Leaf? && l[i].page.LeafPage?
  }

  /** The entries of consecutive leaves. */
  ghost function CellsOf(l: seq<Tree>): seq<Entry>
    requires AllLeaves(l)
  {
    if |l| == 0 then [] else l[0].page.entries.cells + CellsOf(l[1..])
  }

  lemma {:induction false} CellsAppend(l: seq<Tree>, m: seq<Tree>)
    requires AllLeaves(l) && AllLeaves(m)
    ensures CellsOf(l + m) == CellsOf(l) + CellsOf(m)
  {
    if |l| == 0 {
      assert l + m == m;
    } else {
      assert (l + m)[1..] == l[1..] + m;
      CellsAppend(l[1..], m);
      assert CellsOf(l + m) == l[0].page.entries.cells + (CellsOf(l[1..]) + CellsOf(m));
    }
  }

  /** The leaves, read along the tree, carry exactly the tree's entries and chain. */
  lemma {:induction false} LeafTreesContents(t: Tree)
    requires Shape(t)
    ensures CellsOf(LeafTrees(t)) == EntriesOf(t)
    ensures |LeavesOf(t)| == |LeafTrees(t)|
    ensures forall i :: 0 <= i < |LeafTrees(t)| ==>
            LeavesOf(t)[i] == LeafRef(LeafTrees(t)[i].id, LeafTrees(t)[i].page.next)
    decreases t, 1
  {
    match t
    case Leaf(_, page) =>
      assert CellsOf([t]) == page.entries.cells + CellsOf([t][1..]);
    case Node(_, _, kids) =>
      ForestContents(kids);
  }

  lemma {:induction false} ForestContents(f: seq<Tree>)
    requires ShapeForest(f)
    ensures CellsOf(LeafTreesOfForest(f)) == EntriesOfForest(f)
    ensures |LeavesOfForest(f)| == |LeafTreesOfForest(f)|
    ensures forall i :: 0 <= i < |LeafTreesOfForest(f)| ==>
              LeavesOfForest(f)[i] == LeafRef(LeafTreesOfForest(f)[i].id, LeafTreesOfForest(f)[i].page.next)
    decreases f, 0
  {
    if |f| != 0 {
      LeafTreesContents(f[0]);
      ForestContents(f[1..]);
      CellsAppend(LeafTrees(f[0]), LeafTreesOfForest(f[1..]));
    }
  }

  lemma {:induction false} LeafTreesStored(pages: PageMap, t: Tree)
    requires Shape(t) && Stored(pages, t)
    ensures forall i :: 0 <= i < |LeafTrees(t)| ==> Stored(pages, LeafTrees(t)[i])
    decreases t, 1
  {
    if t.Node? {
      ForestStored(pages, t.kids);
    }
  }

  lemma {:induction false} ForestStored(pages: PageMap, f: seq<Tree>)
    requires ShapeForest(f) && StoredForest(pages, f)
    ensures forall i :: 0 <= i < |LeafTreesOfForest(f)| ==> Stored(pages, LeafTreesOfForest(f)[i])
    decreases f, 0
  {
    if |f| != 0 {
      LeafTreesStored(pages, f[0]);
      ForestStored(pages, f[1..]);
    }
  }

  /** Following sibling pointers from one leaf of a valid tree visits the leaves after it. */
  lemma {:induction false} ChainVisitsLeaves(pages: PageMap, t: Tree, j: nat)
    requires ValidTree(pages, t) && j < |LeafTrees(t)|
    ensures var l := LeafTrees(t);
            && l[j].id in pages && pages[l[j].id] == l[j].page
            && l[j].page.next == if j + 1 < |l| then l[j + 1].id else 0
  {
    LeafTreesContents(t);
    LeafTreesStored(pages, t);
    assert LeavesOf(t)[j].next == Successor(LeavesOf(t), j, 0);
  }

  // ---- where a scan starts -------------------------------------------------

  lemma {:induction false} LeavesAppendTrees(f: seq<Tree>, g: seq<Tree>)
    requires ShapeForest(f) && ShapeForest(g)
    ensures LeafTreesOfForest(f + g) == LeafTreesOfForest(f) + LeafTreesOfForest(g)
  {
    if |f| == 0 {
      assert f + g == g;
    } else {
      assert (f + g)[1..] == f[1..] + g;
      LeavesAppendTrees(f[1..], g);
      assert LeafTreesOfForest(f + g) == LeafTrees(f[0]) + (LeafTreesOfForest(f[1..]) + LeafTreesOfForest(g));
    }
  }

  lemma {:induction false} LeafTreesAround(f: seq<Tree>, i: nat)
    requires ShapeForest(f) && i < |f|
    ensures LeafTreesOfForest(f) == LeafTreesOfForest(f[..i]) + LeafTrees(f[i]) + LeafTreesOfForest(f[i + 1..])
  {
    assert f == f[..i] + ([f[i]] + f[i + 1..]);
    LeavesAppendTrees(f[..i], [f[i]] + f[i + 1..]);
    LeavesAppendTrees([f[i]], f[i + 1..]);
    assert [f[i]][1..] == [];
    assert LeafTreesOfForest([f[i]]) == LeafTrees(f[i]);
  }

  /** Where descent for k ends among the leaves: everything before is below k, everything after above. */
  lemma {:induction false} LeafPosition(t: Tree, k: Bytes, lo: Bound, hi: Bound) returns (a: seq<Tree>, b: seq<Tree>)
    requires Shape(t) && Ordered(t, lo, hi) && Within(lo, k, hi)
    ensures AllLeaves(a) && AllLeaves(b)
    ensures LeafTrees(t) == a + [LeafFor(t, k)] + b
    ensures AllBelow(CellsOf(a), k) && AllAbove(CellsOf(b), k)
    decreases t
  {
    if t.Leaf? {
      a, b := [], [];
    } else {
      var i, bs := ChildIndex(t.page.links.cells, k), Bounds(lo, t.page.links.cells, hi);
      ChildWithin(t, k, lo, hi);
      assert OrderedAt(t.kids, bs, i);
      var a0, b0 := LeafPosition(t.kids[i], k, bs[i], bs[i + 1]);
      a, b := LeafTreesOfForest(t.kids[..i]) + a0, b0 + LeafTreesOfForest(t.kids[i + 1..]);
      NeighboursApart(t.kids, bs, i, k);
      PositionUp(t.kids, i, k, a0, LeafFor(t, k), b0);
    }
  }

  lemma {:induction false} PositionUp(f: seq<Tree>, i: nat, k: Bytes, a: seq<Tree>, x: Tree, b: seq<Tree>)
    requires ShapeForest(f) && i < |f| && AllLeaves(a) && AllLeaves(b) && LeafTrees(f[i]) == a + [x] + b
    requires AllBelow(CellsOf(a), k) && AllAbove(CellsOf(b), k)
    requires AllBelow(EntriesOfForest(f[..i]), k) && AllAbove(EntriesOfForest(f[i + 1..]), k)
    ensures var l, r := LeafTreesOfForest(f[..i]), LeafTreesOfForest(f[i + 1..]);
            && AllLeaves(l + a) && AllLeaves(b + r) && AllBelow(CellsOf(l + a), k) && AllAbove(CellsOf(b + r), k)
            && LeafTreesOfForest(f) == (l + a) + [x] + (b + r)
  {
    var l, r := LeafTreesOfForest(f[..i]), LeafTreesOfForest(f[i + 1..]);
    ForestContents(f[..i]);
    ForestContents(f[i + 1..]);
    BelowAppend(l, a, k);
    AboveAppend(b, r, k);
    LeafTreesAround(f, i);
    Regroup(l, a, x, b, r);
  }

  lemma {:induction false} Regroup<T>(l: seq<T>, a: seq<T>, x: T, b: seq<T>, r: seq<T>)
    ensures l + (a + [x] + b) + r == (l + a) + [x] + (b + r)
  {
  }

  lemma {:induction false} BelowAppend(l: seq<Tree>, m: seq<Tree>, k: Bytes)
    requires AllLeaves(l) && AllLeaves(m) && AllBelow(CellsOf(l), k) && AllBelow(CellsOf(m), k)
    ensures AllBelow(CellsOf(l + m), k)
  {
    CellsAppend(l, m);
  }

  lemma {:induction false} AboveAppend(l: seq<Tree>, m: seq<Tree>, k: Bytes)
    requires AllLeaves(l) && AllLeaves(m) && AllAbove(CellsOf(l), k) && AllAbove(CellsOf(m), k)
    ensures AllAbove(CellsOf(l + m), k)
  {
    CellsAppend(l, m);
  }

  /** The leaf reached by always taking the first child pointer. */
  ghost function FirstLeaf(t: Tree): (l: Tree)
    requires Shape(t)
    ensures l.Leaf? && Shape(l)
  {
    match t
    case Leaf(_, _) => t
    case Node(_, page, kids) =>
      assert |RootIds(kids)| == |Children(page.links.cells, page.right)|;
      FirstLeaf(kids[0])
  }

  lemma {:induction false} FirstLeafIsFirst(t: Tree)
    requires Shape(t)
    ensures |LeafTrees(t)| > 0 && LeafTrees(t)[0] == FirstLeaf(t)
  {
    if t.Node? {
      assert |RootIds(t.kids)| == |Children(t.page.links.cells, t.page.right)|;
      FirstLeafIsFirst(t.kids[0]);
    }
  }

  /** What a cursor at cell i of the first of these leaves still has to yield. */
  ghost function Remaining(l: seq<Tree>, i: nat): seq<Entry>
    requires AllLeaves(l) && |l| > 0 && i <= |l[0].page.entries.cells|
  {
    l[0].page.entries.cells[i..] + CellsOf(l[1..])
  }

  lemma {:induction false} EntriesAtLeaf(t: Tree, a: seq<Tree>, x: Tree, b: seq<Tree>)
    requires Shape(t) && AllLeaves(a) && x.Leaf? && x.page.LeafPage? && AllLeaves(b) && LeafTrees(t) == a + [x] + b
    ensures EntriesOf(t) == CellsOf(a) + x.page.entries.cells + CellsOf(b)
  {
    LeafTreesContents(t);
    CellsAppend(a + [x], b);
    CellsAppend(a, [x]);
    assert [x][1..] == [];
    assert CellsOf([x]) == x.page.entries.cells;
  }

  /** A cursor placed by descent and findIndex has exactly the entries from the lower bound of
      start left to yield. */
  lemma {:induction false} CursorStartsAtLowerBound(pages: PageMap, t: Tree, start: Bytes)
    returns (a: seq<Tree>, l: seq<Tree>)
    requires ValidTree(pages, t)
    ensures AllLeaves(l) && |l| > 0 && l[0] == LeafFor(t, start) && a + l == LeafTrees(t)
    ensures FindIndex(l[0].page.entries.cells, start).index <= |l[0].page.entries.cells|
    ensures Remaining(l, FindIndex(l[0].page.entries.cells, start).index) ==
            EntriesOf(t)[LowerBound(EntriesOf(t), start)..]
  {
    var b: seq<Tree>;
    a, b := LeafPosition(t, start, None, None);
    var x := LeafFor(t, start);
    l := [x] + b;
    assert a + l == a + [x] + b;
    assert l[1..] == b;
    LeafForFinds(t, start, None, None);
    FindIndexIsLowerBound(x.page.entries.cells, start);
    EntriesFrom(t, a, x, b, start);
  }

  lemma {:induction false} EntriesFrom(t: Tree, a: seq<Tree>, x: Tree, b: seq<Tree>, start: Bytes)
    requires Shape(t) && AllLeaves(a) && x.Leaf? && x.page.LeafPage? && AllLeaves(b) && LeafTrees(t) == a + [x] + b
    requires AllBelow(CellsOf(a), start) && AllAbove(CellsOf(b), start)
    ensures var s := x.page.entries.cells;
            EntriesOf(t)[LowerBound(EntriesOf(t), start)..] == s[LowerBound(s, start)..] + CellsOf(b)
  {
    EntriesAtLeaf(t, a, x, b);
    SuffixInContext(CellsOf(a), x.page.entries.cells, CellsOf(b), start);
  }

  /** These are all the entries with key at least start, in strictly ascending order. */
  lemma {:induction false} ScanIsRange(pages: PageMap, t: Tree, start: Bytes)
    requires ValidTree(pages, t)
    ensures var s := EntriesOf(t)[LowerBound(EntriesOf(t), start)..];
            && Ascending(s)
            && forall e :: e in s <==> e.key in Contents(t) && Contents(t)[e.key] == e.val && Leq(start, e.key)
  {
    var es := EntriesOf(t);
    EntriesOrdered(t, None, None);
    SuffixIsRange(es, start);
    ToMapIsMembership(es);
    forall e ensures e in es <==> e.key in ToMap(es) && ToMap(es)[e.key] == e.val {
      assert e == Cell(e.key, e.val);
    }
  }

  lemma {:induction false} SuffixInContext(a: seq<Entry>, s: seq<Entry>, b: seq<Entry>, k: Bytes)
    requires AllBelow(a, k) && AllAbove(b, k)
    ensures var w := a + s + b; w[LowerBound(w, k)..] == s[LowerBound(s, k)..] + b
  {
    LowerBoundContext(a, s, b, k);
  }

  lemma {:induction false} SuffixIsRange(s: seq<Entry>, start: Bytes)
    requires Ascending(s)
    ensures forall e :: e in s[LowerBound(s, start)..] <==> e in s && Leq(start, e.key)
  {
    var n := LowerBound(s, start);
    LowerBoundSplits(s, start);
    forall e | e in s && Leq(start, e.key) ensures e in s[n..] {
      var i :| 0 <= i < |s| && s[i] == e;
      NotLess(e.key, start);
      assert n <= i;
      assert s[n..][i - n] == e;
    }
    forall e | e in s[n..] ensures e in s && Leq(start, e.key) {
      var i :| 0 <= i < |s[n..]| && s[n..][i] == e;
      assert s[n + i] == e;
    }
  }
}
