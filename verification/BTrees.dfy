/** `BTree` and `Cursor`: the operations on the data file, page by page. */
module BTrees {
  import opened Bytes
  import opened Entries
  import opened Pages
  import opened SlottedPage
  import opened NodeBuffers
  import opened Pagers
  import opened Trees
  import opened TreeOps
  import opened PutSound
  import opened PutLosses
  import opened TreeTheorems
  import opened TreeRuns
  import opened Cursors

  class BTree {
    const pager: Pager
    var root: PageID
    /** The tree that the root page denotes. */
    ghost var tree: Tree

    ghost predicate Valid()
      reads this, pager
    {
      pager.Valid() && ValidTree(pager.Nodes(), tree) && tree.id == root
    }

    /** The finite map that the data file holds. */
    ghost function Map(): map<Bytes, Bytes>
      requires Valid()
      reads this, pager
    {
      Contents(tree)
    }

    /** `OpenBTree` at an existing root. */
    constructor Open(pager: Pager, root: PageID, ghost tree: Tree)
      requires pager.Valid() && ValidTree(pager.Nodes(), tree) && tree.id == root
      ensures this.pager == pager && this.tree == tree && Valid()
    {
      this.pager, this.root, this.tree := pager, root, tree;
    }

    /** `OpenBTree` with no root yet: an empty leaf on a fresh page. */
    constructor Create(pager: Pager)
      requires pager.Valid() && pager.pageCount < TWO32
      modifies pager
      ensures this.pager == pager && Valid() && Map() == map[]
      ensures pager.Nodes() - {root} == old(pager.Nodes()) && root !in old(pager.Nodes())
    {
      this.pager := pager;
      var id := AllocateLeaf(pager);
      root := id;
      tree := Leaf(id, LeafPage(EmptySlots(), 0));
      EmptyIsValid(pager.Nodes(), id);
    }

    static method AllocateLeaf(pager: Pager) returns (id: PageID)
      requires pager.Valid() && pager.pageCount < TWO32
      modifies pager
      ensures pager.Valid() && id !in old(pager.Nodes())
      ensures pager.Nodes() == old(pager.Nodes())[id := LeafPage(EmptySlots(), 0)]
    {
      id := pager.AllocatePage();
      var n := new Node.Empty(id, LEAF);
      var ok := pager.WritePage(id, n.buf[..]);
    }

    /** `readNode`. */
    method ReadNode(id: PageID) returns (n: Node)
      requires pager.Valid() && id in pager.Nodes()
      ensures fresh(n) && fresh(n.buf) && n.id == id && n.Valid() && n.Page() == pager.Nodes()[id]
    {
      var buf := pager.ReadPage(id);
      n := new Node.Load(id, buf.value);
    }

    /** `writeNode`. */
    method WriteNode(n: Node)
      requires pager.Valid() && n.id in pager.live && n.Valid()
      modifies pager`disk
      ensures pager.Valid()
      ensures pager.Nodes() == old(pager.Nodes())[n.id := n.Page()]
    {
      var ok := pager.WritePage(n.id, n.buf[..]);
    }

    /** Write the two halves of a split. */
    method WriteNodes(left: Node, right: Node)
      requires pager.Valid() && left.id in pager.live && right.id in pager.live && left.Valid() && right.Valid()
      modifies pager`disk
      ensures pager.Valid()
      ensures pager.Nodes() == old(pager.Nodes())[left.id := left.Page()][right.id := right.Page()]
    {
      WriteNode(left);
      WriteNode(right);
    }

    /** Write a node whose page turns the tree into t'. */
    method StoreNode(n: Node, ghost t': Tree)
      requires pager.Valid() && n.id in pager.live && n.Valid()
      requires ValidTree(pager.Nodes()[n.id := n.Page()], t') && t'.id == root
      modifies this`tree, pager`disk
      ensures Valid() && tree == t'
      ensures pager.Nodes() == old(pager.Nodes())[n.id := n.Page()]
    {
      WriteNode(n);
      tree := t';
    }

    /** The child pointer to descend to for key. */
    method ChildFor(n: Node, key: Bytes) returns (idx: nat, child: PageID)
      requires n.Valid() && n.Page().InternalPage?
      ensures idx == ChildIndex(n.Page().links.cells, key)
      ensures child == Children(n.Page().links.cells, n.Page().right)[idx]
    {
      var i, exact := n.FindIndex(key);
      idx := if exact then i + 1 else i;
      var count := n.NumCells();
      if idx >= count {
        child := n.SiblingId();
      } else {
        var _, c := n.InternalKC(idx);
        child := c;
      }
    }

    /** The descent of `Get`, `Delete` and `NewCursor`. */
    method Descend(key: Bytes) returns (n: Node)
      requires Valid()
      ensures fresh(n) && fresh(n.buf) && n.Valid() && n.Page() == LeafFor(tree, key).page
              && n.id == LeafFor(tree, key).id
      ensures n.id in pager.Nodes()
    {
      n := ReadNode(root);
      ghost var t := tree;
      while !n.IsLeaf()
        invariant fresh(n) && fresh(n.buf) && n.Valid()
        invariant Shape(t) && Stored(pager.Nodes(), t) && n.id == t.id && n.Page() == t.page
        invariant LeafFor(t, key) == LeafFor(tree, key)
        decreases t
      {
        var idx, child := ChildFor(n, key);
        assert child == RootIds(t.kids)[idx] == t.kids[idx].id;
        t := t.kids[idx];
        n := ReadNode(child);
      }
    }

    /** `Get`. */
    method Get(key: Bytes) returns (r: Option<Bytes>)
      requires Valid()
      ensures r == if key in Map() then Some(Map()[key]) else None
    {
      var n := Descend(key);
      GetIsMapLookup(pager.Nodes(), tree, key);
      var idx, exact := n.FindIndex(key);
      if exact {
        var _, v := n.LeafKV(idx);
        return Some(v);
      }
      return None;
    }

    /** `Delete`: false when the key is absent. */
    method Delete(key: Bytes) returns (ok: bool)
      requires Valid()
      modifies this`tree, pager`disk
      ensures Valid() && root == old(root)
      ensures ok <==> key in old(Map())
      ensures Map() == old(Map()) - {key}
      ensures forall x :: x in old(pager.Nodes()) && x !in PagesOf(old(tree)) ==>
              x in pager.Nodes() && pager.Nodes()[x] == old(pager.Nodes())[x]
    {
      var n := Descend(key);
      ghost var pages, t := pager.Nodes(), tree;
      var idx, exact := n.FindIndex(key);
      DeleteMisses(pages, t, key);
      if !exact {
        return false;
      }
      n.RemoveEntryAt(idx);
      DeleteHits(pages, t, key, pages[n.id := n.Page()]);
      StoreNode(n, WithLeaf(t, key, Emptied(t, key)));
      return true;
    }

    // ---- put ---------------------------------------------------------------

    /** The gathering loop of `splitLeafAndInsert`. */
    method GatherEntries(n: Node, insertIdx: nat, e: Entry) returns (cells: seq<Entry>)
      requires n.Valid() && n.Page().LeafPage? && insertIdx <= |n.Page().entries.cells|
      ensures cells == InsertedAt(n.Page().entries.cells, insertIdx, e)
    {
      ghost var all := n.Page().entries.cells;
      var count := n.NumCells();
      cells := [];
      for i := 0 to count
        invariant cells == Gathered(all, i, insertIdx, e)
      {
        var k, v := n.LeafKV(i);
        GatherStep(all, i, insertIdx, e);
        if i == insertIdx {
          cells := cells + [e];
        }
        cells := cells + [Cell(k, v)];
      }
      assert all[..count] == all;
      if insertIdx >= count {
        cells := cells + [e];
      }
    }

    /** Append an entry, or ignore it when it does not fit. */
    method AppendEntry(n: Node, e: Entry, ghost done: seq<Entry>)
      requires n.Valid() && n.Page() == LeafPage(Pack(EmptySlots(), done, EntrySize), 0) && |e.key| < TWO16
               && |e.val| < TWO16
      modifies n.buf
      ensures n.Valid() && n.Page() == LeafPage(Pack(EmptySlots(), done + [e], EntrySize), 0)
    {
      PackSnoc(EmptySlots(), done, e, EntrySize);
      var count := n.NumCells();
      var _ := n.InsertEntryAt(count, e);
    }

    /** One half of the rebuild loop of `splitLeafAndInsert`: results of the insertions are ignored. */
    method BuildLeaf(cells: seq<Entry>, id: PageID) returns (n: Node)
      requires forall i :: 0 <= i < |cells| ==> |cells[i].key| < TWO16 && |cells[i].val| < TWO16
      ensures fresh(n) && fresh(n.buf) && n.id == id && n.Valid()
      ensures n.Page() == LeafPage(Pack(EmptySlots(), cells, EntrySize), 0)
    {
      n := new Node.Empty(id, LEAF);
      for i := 0 to |cells|
        invariant n.Valid() && n.Page() == LeafPage(Pack(EmptySlots(), cells[..i], EntrySize), 0)
      {
        assert cells[..i + 1] == cells[..i] + [cells[i]];
        AppendEntry(n, cells[i], cells[..i]);
      }
      assert cells[..|cells|] == cells;
    }

    /** `splitLeafAndInsert`. */
    method SplitLeafAndInsert(n: Node, insertIdx: nat, e: Entry) returns (split: Split)
      requires pager.Valid() && n.id in pager.live && n.Valid() && n.Page().LeafPage? && pager.pageCount < TWO32
      requires insertIdx <= |n.Page().entries.cells|
      requires forall c :: c in InsertedAt(n.Page().entries.cells, insertIdx, e) ==>
               |c.key| <= MAX_KEY_VALUE && |c.val| <= MAX_KEY_VALUE
      modifies pager
      ensures pager.Valid() && old(pager.live) <= pager.live && pager.pageCount <= old(pager.pageCount) + 1
      ensures pager.Allocator() == Taken(old(pager.Allocator()))
      ensures var halves, id := LeafHalves(InsertedAt(n.Page().entries.cells, insertIdx, e)),
              Fresh(old(pager.Allocator()));
              && |halves.1.cells| > 0
              && split == Split(halves.1.cells[0].key, id)
              && pager.Nodes() == old(pager.Nodes())[n.id := LeafPage(halves.0, id)][id :=
                LeafPage(halves.1, n.Page().next)]
    {
      var cells := GatherEntries(n, insertIdx, e);
      SplitEntriesBounded(cells);
      var next := n.SiblingId();
      var rightId := pager.AllocatePage();
      var left, right := BuildLeaves(cells, n.id, rightId, next);
      WriteNodes(left, right);
      var key, _ := right.LeafKV(0);
      split := Split(key, rightId);
    }

    /** The two rebuilt leaves, linked into the sibling chain. */
    method BuildLeaves(cells: seq<Entry>, leftId: PageID, rightId: PageID, next: PageID)
      returns (left: Node, right: Node)
      requires forall i :: 0 <= i < |cells| ==> |cells[i].key| < TWO16 && |cells[i].val| < TWO16
      requires rightId < TWO32 && next < TWO32
      ensures fresh(left) && fresh(left.buf) && fresh(right) && fresh(right.buf)
      ensures left.id == leftId && right.id == rightId && left.Valid() && right.Valid()
      ensures left.Page() == LeafPage(LeafHalves(cells).0, rightId)
              && right.Page() == LeafPage(LeafHalves(cells).1, next)
    {
      var mid := |cells| / 2;
      left := BuildLeaf(cells[..mid], leftId);
      right := BuildLeaf(cells[mid..], rightId);
      right.SetSibling(next);
      left.SetSibling(rightId);
    }

    /** The gathering loop of `splitInternalAndInsert`. */
    method GatherLinks(n: Node, insertIdx: nat, l: Link) returns (cells: seq<Link>)
      requires n.Valid() && n.Page().InternalPage? && insertIdx <= |n.Page().links.cells|
      ensures cells == InsertedAt(n.Page().links.cells, insertIdx, l)
    {
      ghost var all := n.Page().links.cells;
      var count := n.NumCells();
      cells := [];
      for i := 0 to count
        invariant cells == Gathered(all, i, insertIdx, l)
      {
        var k, c := n.InternalKC(i);
        GatherStep(all, i, insertIdx, l);
        if i == insertIdx {
          cells := cells + [l];
        }
        cells := cells + [Cell(k, c)];
      }
      assert all[..count] == all;
      if insertIdx >= count {
        cells := cells + [l];
      }
    }

    /** Append a link, or ignore it when it does not fit. */
    method AppendLink(n: Node, l: Link, ghost done: seq<Link>)
      requires n.Valid() && n.Page() == InternalPage(Pack(EmptySlots(), done, LinkSize), 0) && |l.key| < TWO16
               && l.val < TWO32
      modifies n.buf
      ensures n.Valid() && n.Page() == InternalPage(Pack(EmptySlots(), done + [l], LinkSize), 0)
    {
      PackSnoc(EmptySlots(), done, l, LinkSize);
      var count := n.NumCells();
      var _ := n.InsertLinkAt(count, l);
    }

    /** A rebuild loop of `splitInternalAndInsert`: results of the insertions are ignored. */
    method BuildInternal(cells: seq<Link>, id: PageID, right: PageID) returns (n: Node)
      requires forall i :: 0 <= i < |cells| ==> |cells[i].key| < TWO16 && cells[i].val < TWO32
      requires right < TWO32
      ensures fresh(n) && fresh(n.buf) && n.id == id && n.Valid()
      ensures n.Page() == InternalPage(Pack(EmptySlots(), cells, LinkSize), right)
    {
      n := new Node.Empty(id, INTERNAL);
      for i := 0 to |cells|
        invariant n.Valid() && n.Page() == InternalPage(Pack(EmptySlots(), cells[..i], LinkSize), 0)
      {
        assert cells[..i + 1] == cells[..i] + [cells[i]];
        AppendLink(n, cells[i], cells[..i]);
      }
      assert cells[..|cells|] == cells;
      n.SetSibling(right);
    }

    /** `splitInternalAndInsert`. */
    method SplitInternalAndInsert(n: Node, insertIdx: nat, l: Link, newRightChild: PageID, insertedWasRightmost: bool)
      returns (split: Split)
      requires pager.Valid() && n.id in pager.live && n.Valid() && n.Page().InternalPage? && pager.pageCount < TWO32
      requires insertIdx <= |n.Page().links.cells| && (insertedWasRightmost <==> insertIdx == |n.Page().links.cells|)
      requires forall c :: c in LinksWith(n.Page().links.cells, insertIdx, l.key, l.val, newRightChild) ==>
               |c.key| < TWO16 && c.val < TWO32
      modifies pager
      ensures pager.Valid() && old(pager.live) <= pager.live && pager.pageCount <= old(pager.pageCount) + 1
      ensures Outcome(pager.Nodes(), pager.Allocator(), Some(split))
           == SplitOutcome(old(pager.Nodes()), old(pager.Allocator()), n.id, n.Page(), insertIdx, l, newRightChild)
    {
      var cells, oldRightmost := SplitCells(n, insertIdx, l, newRightChild, insertedWasRightmost);
      var promote := cells[|cells| / 2];
      assert promote in cells;
      var rightId := pager.AllocatePage();
      var left, right := BuildInternals(cells, n.id, rightId, oldRightmost);
      WriteNodes(left, right);
      split := Split(promote.key, rightId);
    }

    /** The links of the full page and the new one, and what becomes its rightmost pointer. */
    method SplitCells(n: Node, insertIdx: nat, l: Link, newRightChild: PageID, insertedWasRightmost: bool)
      returns (cells: seq<Link>, oldRightmost: PageID)
      requires n.Valid() && n.Page().InternalPage?
      requires insertIdx <= |n.Page().links.cells| && (insertedWasRightmost <==> insertIdx == |n.Page().links.cells|)
      ensures cells == LinksWith(n.Page().links.cells, insertIdx, l.key, l.val, newRightChild)
      ensures oldRightmost == n.Page().right < TWO32
    {
      cells := GatherLinks(n, insertIdx, l);
      oldRightmost := n.SiblingId();
      if !insertedWasRightmost {
        if insertIdx + 1 < |cells| {
          cells := cells[insertIdx + 1 := cells[insertIdx + 1].(val := newRightChild)];
        } else {
          oldRightmost := newRightChild;
        }
      }
    }

    /** The two rebuilt internal pages around the promoted link. */
    method BuildInternals(cells: seq<Link>, leftId: PageID, rightId: PageID, oldRightmost: PageID)
      returns (left: Node, right: Node)
      requires |cells| > 0 && oldRightmost < TWO32 && forall c :: c in cells ==> |c.key| < TWO16 && c.val < TWO32
      ensures fresh(left) && fresh(left.buf) && fresh(right) && fresh(right.buf)
      ensures left.id == leftId && right.id == rightId && left.Valid() && right.Valid()
      ensures left.Page() == InternalPage(InternalHalves(cells).0, cells[|cells| / 2].val)
      ensures right.Page() == InternalPage(InternalHalves(cells).1, oldRightmost)
    {
      var mid := |cells| / 2;
      assert forall i :: 0 <= i < |cells| ==> cells[i] in cells;
      left := BuildInternal(cells[..mid], leftId, cells[mid].val);
      right := BuildInternal(cells[mid + 1..], rightId, oldRightmost);
    }

    /** The leaf part of `putRec`. */
    method PutLeafNode(n: Node, key: Bytes, val: Bytes, ghost t: Tree) returns (split: Option<Split>)
      requires pager.Valid() && t.Leaf? && Puttable(t, key, val) && Stored(pager.Nodes(), t)
      requires n.Valid() && n.id == t.id && n.Page() == t.page && pager.pageCount < TWO32
      modifies pager, n.buf
      ensures pager.Valid() && old(pager.live) <= pager.live && pager.pageCount <= old(pager.pageCount) + 1
      ensures Outcome(pager.Nodes(), pager.Allocator(), split) ==
              PutLeaf(old(pager.Nodes()), old(pager.Allocator()), t, key, val)
    {
      var idx, exact := n.FindIndex(key);
      if exact {
        n.RemoveEntryAt(idx);
      }
      assert n.Page() == LeafPage(LeafWithout(t.page.entries, key), t.page.next);
      split := PlaceEntry(n, idx, key, val, t);
    }

    /** The second half: the leaf, without the key, takes the entry or splits. */
    method PlaceEntry(n: Node, idx: nat, key: Bytes, val: Bytes, ghost t: Tree) returns (split: Option<Split>)
      requires pager.Valid() && t.Leaf? && Puttable(t, key, val) && Stored(pager.Nodes(), t) && n.Valid()
               && n.id == t.id
      requires n.Page() == LeafPage(LeafWithout(t.page.entries, key), t.page.next) && pager.pageCount < TWO32
      requires idx == FindIndex(t.page.entries.cells, key).index
      modifies pager, n.buf
      ensures pager.Valid() && old(pager.live) <= pager.live && pager.pageCount <= old(pager.pageCount) + 1
      ensures Outcome(pager.Nodes(), pager.Allocator(), split) ==
              PutLeaf(old(pager.Nodes()), old(pager.Allocator()), t, key, val)
    {
      assert n.id in pager.live;
      CellsBounded(t, key, val);
      var ok := n.InsertEntryAt(idx, Cell(key, val));
      if ok {
        WriteNode(n);
        split := None;
      } else {
        EntriesBounded(LeafCells(t.page.entries, key, val));
        var s := SplitLeafAndInsert(n, idx, Cell(key, val));
        split := Some(s);
      }
    }

    /** Insert a link and redirect the pointer after it; false, and nothing changed, when there is no room. */
    method LinkInPlace(n: Node, idx: nat, l: Link, newRight: PageID) returns (ok: bool)
      requires n.Valid() && n.Page().InternalPage? && idx <= |n.Page().links.cells|
      requires |l.key| < TWO16 && l.val < TWO32 && newRight < TWO32
      modifies n.buf
      ensures n.Valid() && (ok <==> Fits(old(n.Page()).links, LinkSize(l)))
      ensures !ok ==> n.Page() == old(n.Page())
      ensures ok ==> n.Page() == LinkedPage(old(n.Page()), idx, l, newRight)
    {
      var count := n.NumCells();
      ok := n.InsertLinkAt(idx, l);
      if ok {
        if idx >= count {
          n.SetSibling(newRight);
        } else {
          n.RewriteChildAt(idx + 1, newRight);
        }
      }
    }

    /** Link a split child into its parent's page, splitting that page in turn if it is full. */
    method LinkChild(n: Node, idx: nat, child: PageID, s: Split, ghost t: Tree, ghost o: Outcome)
      returns (split: Option<Split>)
      requires pager.Valid() && t.Node? && Shape(t) && n.id == t.id && n.id in pager.live && pager.pageCount < TWO32
      requires n.Valid() && n.Page() == t.page && idx < |t.kids| && idx <= |t.page.links.cells|
               && child == t.kids[idx].id
      requires o == Outcome(pager.Nodes(), pager.Allocator(), Some(s)) && FieldsFit(t, idx, o)
      modifies pager, n.buf
      ensures pager.Valid() && old(pager.live) <= pager.live && pager.pageCount <= old(pager.pageCount) + 1
      ensures Outcome(pager.Nodes(), pager.Allocator(), split) == LinkSplit(t, idx, o)
    {
      split := LinkPage(n, idx, Cell(s.key, child), s.right);
    }

    /** The same on the page alone. */
    method LinkPage(n: Node, idx: nat, l: Link, newRight: PageID) returns (split: Option<Split>)
      requires pager.Valid() && n.id in pager.live && n.Valid() && pager.pageCount < TWO32
      requires n.Page().InternalPage? && idx <= |n.Page().links.cells| && |l.key| < TWO16 && l.val < TWO32
               && newRight < TWO32
      requires forall c :: c in LinksWith(n.Page().links.cells, idx, l.key, l.val, newRight) ==>
               |c.key| < TWO16 && c.val < TWO32
      modifies pager, n.buf
      ensures pager.Valid() && old(pager.live) <= pager.live && pager.pageCount <= old(pager.pageCount) + 1
      ensures Outcome(pager.Nodes(), pager.Allocator(), split) ==
              if Fits(old(n.Page()).links, LinkSize(l))
              then Outcome(old(pager.Nodes())[n.id := LinkedPage(old(n.Page()), idx, l, newRight)],
                           old(pager.Allocator()), None)
              else SplitOutcome(old(pager.Nodes()), old(pager.Allocator()), n.id, old(n.Page()), idx, l, newRight)
    {
      var count := n.NumCells();
      var ok := LinkInPlace(n, idx, l, newRight);
      if ok {
        WriteNode(n);
        split := None;
      } else {
        var q := SplitInternalAndInsert(n, idx, l, newRight, idx >= count);
        split := Some(q);
      }
    }

    /** `putRec`, on the subtree t of height h. */
    method PutRec(id: PageID, key: Bytes, val: Bytes, ghost t: Tree, ghost h: nat) returns (split: Option<Split>)
      requires pager.Valid() && Puttable(t, key, val) && Stored(pager.Nodes(), t) && t.id == id && Level(t, h)
      requires pager.pageCount + h < TWO32
      modifies pager
      ensures pager.Valid() && old(pager.live) <= pager.live && pager.pageCount <= old(pager.pageCount) + h + 1
      ensures Outcome(pager.Nodes(), pager.Allocator(), split)
           == TreeOps.PutRec(old(pager.Nodes()), old(pager.Allocator()), t, key, val)
      decreases t, 2
    {
      var n := ReadNode(id);
      if n.IsLeaf() {
        split := PutLeafNode(n, key, val, t);
      } else {
        split := PutChild(n, key, val, t, h);
      }
    }

    /** The internal part of `putRec`. */
    method PutChild(n: Node, key: Bytes, val: Bytes, ghost t: Tree, ghost h: nat) returns (split: Option<Split>)
      requires pager.Valid() && t.Node? && Puttable(t, key, val) && Stored(pager.Nodes(), t) && Level(t, h)
      requires n.Valid() && n.id == t.id && n.Page() == t.page && pager.pageCount + h < TWO32
      modifies pager, n.buf
      ensures pager.Valid() && old(pager.live) <= pager.live && pager.pageCount <= old(pager.pageCount) + h + 1
      ensures Outcome(pager.Nodes(), pager.Allocator(), split)
           == TreeOps.PutRec(old(pager.Nodes()), old(pager.Allocator()), t, key, val)
      decreases t, 1
    {
      var idx, child;
      idx, child, split := PutKid(n, key, val, t, h);
      if split.Some? {
        split := LinkChild(n, idx, child, split.value, t, Outcome(pager.Nodes(), pager.Allocator(), split));
      }
    }

    /** The recursive call of `putRec`. */
    method PutKid(n: Node, key: Bytes, val: Bytes, ghost t: Tree, ghost h: nat)
      returns (idx: nat, child: PageID, split: Option<Split>)
      requires pager.Valid() && t.Node? && Puttable(t, key, val) && Stored(pager.Nodes(), t) && Level(t, h)
      requires n.Valid() && n.Page() == t.page && pager.pageCount + h < TWO32
      modifies pager
      ensures pager.Valid() && old(pager.live) <= pager.live && pager.pageCount <= old(pager.pageCount) + h
              && t.id in pager.live
      ensures idx < |t.kids| && idx <= |t.page.links.cells| && child == t.kids[idx].id
      ensures var o := Outcome(pager.Nodes(), pager.Allocator(), split);
              && (o.split.Some? ==> FieldsFit(t, idx, o))
              && TreeOps.PutRec(old(pager.Nodes()), old(pager.Allocator()), t, key, val) == if o.split.None? then o
                else LinkSplit(t, idx, o)
      decreases t, 0
    {
      KidFacts(pager, t, key, val, h);
      ghost var pages, a := pager.Nodes(), pager.Allocator();
      idx, child := ChildFor(n, key);
      split := PutRec(child, key, val, t.kids[idx], h - 1);
      PutRecNode(pages, a, t, key, val, Outcome(pager.Nodes(), pager.Allocator(), split));
    }

    // ---- scans -------------------------------------------------------------

    /** The descent of `NewCursor` without a start key: always the first child. */
    method FirstNode() returns (n: Node)
      requires Valid()
      ensures fresh(n) && fresh(n.buf) && n.Valid() && n.Page() == FirstLeaf(tree).page
    {
      n := ReadNode(root);
      ghost var t := tree;
      while !n.IsLeaf()
        invariant fresh(n) && fresh(n.buf) && n.Valid()
        invariant Shape(t) && Stored(pager.Nodes(), t) && n.Page() == t.page
        invariant FirstLeaf(t) == FirstLeaf(tree)
        decreases t
      {
        var count := n.NumCells();
        var child: PageID;
        if count == 0 {
          child := n.SiblingId();
        } else {
          var _, c := n.InternalKC(0);
          child := c;
        }
        assert child == Children(t.page.links.cells, t.page.right)[0] == RootIds(t.kids)[0] == t.kids[0].id;
        t := t.kids[0];
        n := ReadNode(child);
      }
    }

    /** `NewCursor`: where a scan from startKey begins. */
    method Seek(startKey: Option<Bytes>) returns (n: Node, i: nat, ghost leaves: seq<Tree>)
      requires Valid()
      ensures fresh(n) && fresh(n.buf) && n.Valid() && AtLeaf(tree, leaves, n.Page(), i)
      ensures Remaining(leaves, i) == ScanFrom(tree, startKey)
    {
      match startKey
      case None =>
        n := FirstNode();
        i := 0;
        leaves := LeafTrees(tree);
        ScanFromStart(tree);
      case Some(k) =>
        n := Descend(k);
        var idx, exact := n.FindIndex(k);
        i := idx;
        ghost var a, l := CursorStartsAtLowerBound(pager.Nodes(), tree, k);
        leaves := l;
    }

    /** A parent for a root that split. */
    method NewRoot(s: Split)
      requires pager.Valid() && pager.pageCount < TWO32 && |s.key| < TWO16 && root < TWO32 && s.right < TWO32
      modifies this`root, pager
      ensures pager.Valid()
      ensures root == Fresh(old(pager.Allocator())) && pager.Allocator() == Taken(old(pager.Allocator()))
      ensures pager.Nodes() == old(pager.Nodes())[root :=
                                                  InternalPage(Pack(EmptySlots(), [Cell(s.key, old(root))], LinkSize),
                                                               s.right)]
    {
      var id := pager.AllocatePage();
      var n := BuildInternal([Cell(s.key, root)], id, s.right);
      WriteNode(n);
      root := id;
    }

    /** `Put`, as pages: exactly what the function `Put` says, whatever that is worth. */
    method PutPages(key: Bytes, val: Bytes)
      requires Valid() && |key| <= MAX_KEY_VALUE && |val| <= MAX_KEY_VALUE && pager.pageCount + Height(tree) + 1 < TWO32
      modifies this`root, pager
      ensures pager.Valid()
      ensures Some(Db(pager.Nodes(), pager.Allocator(), root)) ==
              TreeOps.Put(old(pager.Nodes()), old(pager.Allocator()), old(tree), key, val)
    {
      RootFacts(pager, tree, key, val);
      var split := PutRec(root, key, val, tree, Height(tree));
      if split.Some? {
        NewRoot(split.value);
      }
    }

    /** `Put`: false when the key or value is too large. It updates the map exactly when it keeps
        its pages and its order; if it does not, no valid tree with the updated map exists. */
    method Put(key: Bytes, val: Bytes) returns (ok: bool)
      requires Valid() && pager.pageCount + Height(tree) + 1 < TWO32
      modifies this, pager
      ensures pager.Valid() && (ok <==> |key| <= MAX_KEY_VALUE && |val| <= MAX_KEY_VALUE)
      ensures !ok ==> Valid() && root == old(root) && pager.Nodes() == old(pager.Nodes()) && Map() == old(Map())
      ensures ok ==>
                var good := KeepsPages(old(pager.Nodes()), old(pager.Allocator()), old(tree), key, val)
                  && KeepsOrder(old(tree), key, val, None);
                && (good ==> Valid() && Map() == old(Map())[key := val])
                && (!good ==> !exists t' :: PutMade(old(pager.Nodes()), old(tree), key, val,
                                                    Db(pager.Nodes(), pager.Allocator(), root), t'))
      ensures forall x :: x in old(pager.Nodes()) && x !in PagesOf(old(tree)) ==>
                x in pager.Nodes() && pager.Nodes()[x] == old(pager.Nodes())[x]
    {
      if |key| > MAX_KEY_VALUE || |val| > MAX_KEY_VALUE {
        return false;
      }
      PutSized(key, val);
      return true;
    }

    /** `Put` past its size check. */
    method PutSized(key: Bytes, val: Bytes)
      requires Valid() && |key| <= MAX_KEY_VALUE && |val| <= MAX_KEY_VALUE && pager.pageCount + Height(tree) + 1 < TWO32
      modifies this, pager
      ensures pager.Valid()
      ensures PutReport(old(pager.Nodes()), old(pager.Allocator()), old(tree), key, val,
                        Db(pager.Nodes(), pager.Allocator(), root), tree)
    {
      ghost var pages, a, t := pager.Nodes(), pager.Allocator(), tree;
      assert AllocOk(pages, a) by {
        pager.NodesAllocOk();
      }
      PutPages(key, val);
      tree := PutFacts(pages, a, t, key, val, Db(pager.Nodes(), pager.Allocator(), root));
    }
  }

  /** A page with room for one more link. */
  ghost function LinkedPage(p: Page, idx: nat, l: Link, newRight: PageID): Page
    requires p.InternalPage? && idx <= |p.links.cells| && Fits(p.links, LinkSize(l))
  {
    InternalPage(Slots(LinksWith(p.links.cells, idx, l.key, l.val, newRight), p.links.top - LinkSize(l)),
                 if idx < |p.links.cells| then p.right else newRight)
  }

  /** The two halves of a page without room, and what goes up. */
  ghost function SplitOutcome(pages: PageMap, a: Alloc, id: PageID, p: Page, idx: nat, l: Link,
                              newRight: PageID): Outcome
    requires p.InternalPage? && idx <= |p.links.cells|
  {
    var cells := LinksWith(p.links.cells, idx, l.key, l.val, newRight);
    var mid, halves, newId := |cells| / 2, InternalHalves(cells), Fresh(a);
    Outcome(pages[id := InternalPage(halves.0, cells[mid].val)][newId := InternalPage(halves.1, p.right)],
            Taken(a), Some(Split(cells[mid].key, newId)))
  }

  /** What a put made: the tree r if there is one; pages of other trees are as before. */
  ghost predicate PutReport(pages: PageMap, a: Alloc, t: Tree, key: Bytes, val: Bytes, db: Db, r: Tree)
    requires Puttable(t, key, val)
  {
    && (KeepsPages(pages, a, t, key, val) && KeepsOrder(t, key, val, None) ==> PutMade(pages, t, key, val, db, r))
    && (!(KeepsPages(pages, a, t, key, val) && KeepsOrder(t, key, val, None)) ==> !exists t'
        :: PutMade(pages, t, key, val, db, t'))
    && (forall x :: x in pages && x !in PagesOf(t) ==> x in db.pages && db.pages[x] == pages[x])
  }

  lemma {:induction false} PutFacts(pages: PageMap, a: Alloc, t: Tree, key: Bytes, val: Bytes, db: Db) returns (r: Tree)
    requires ValidTree(pages, t) && AllocOk(pages, a) && |key| <= MAX_KEY_VALUE && |val| <= MAX_KEY_VALUE
    requires Some(db) == TreeOps.Put(pages, a, t, key, val)
    ensures PutReport(pages, a, t, key, val, db, r)
  {
    PutCorrectIff(pages, a, t, key, val);
    PutKeepsAlloc(pages, a, t, key, val);
    r := t;
    if t' :| PutMade(pages, t, key, val, db, t') {
      r := t';
    }
  }

  /** The number of levels above the leaves. */
  ghost function Height(t: Tree): nat {
    if t.Node? && |t.kids| > 0 then 1 + Height(t.kids[0]) else 0
  }

  lemma {:induction false} HeightIsLevel(t: Tree, h: nat)
    requires Shape(t) && Level(t, h)
    ensures Height(t) == h
  {
    if t.Node? {
      assert |RootIds(t.kids)| == |Children(t.page.links.cells, t.page.right)|;
      HeightIsLevel(t.kids[0], h - 1);
    }
  }

  lemma {:induction false} RootFacts(pager: Pager, t: Tree, key: Bytes, val: Bytes)
    requires pager.Valid() && ValidTree(pager.Nodes(), t) && |key| <= MAX_KEY_VALUE && |val| <= MAX_KEY_VALUE
    ensures Puttable(t, key, val) && Stored(pager.Nodes(), t) && Level(t, Height(t)) && t.id < TWO32
    ensures var o := TreeOps.PutRec(pager.Nodes(), pager.Allocator(), t, key, val);
            o.split.Some? && o.alloc.count <= TWO32 ==> |o.split.value.key| < TWO16 && o.split.value.right < TWO32
  {
    var h: nat :| Level(t, h);
    HeightIsLevel(t, h);
    pager.NodesAllocOk();
    SplitKeyBounded(pager.Nodes(), pager.Allocator(), t, key, val);
    SplitIsNew(pager.Nodes(), pager.Allocator(), t, key, val);
    PutRecFramed(pager.Nodes(), pager.Allocator(), t, key, val);
  }

  /** leaves are the last leaves of t, page is the first of them, and i a position on it. */
  ghost predicate AtLeaf(t: Tree, leaves: seq<Tree>, page: Page, i: nat)
    requires Shape(t)
  {
    var all := LeafTrees(t);
    && 0 < |leaves| <= |all| && leaves == all[|all| - |leaves|..]
    && page == leaves[0].page && i <= |page.entries.cells|
  }

  /** The entries a scan yields: those from the start key on, or all. */
  ghost function ScanFrom(t: Tree, startKey: Option<Bytes>): seq<Entry>
    requires Shape(t)
  {
    if startKey.None? then EntriesOf(t) else EntriesOf(t)[LowerBound(EntriesOf(t), startKey.value)..]
  }

  lemma {:induction false} ScanFromStart(t: Tree)
    requires Shape(t)
    ensures AtLeaf(t, LeafTrees(t), FirstLeaf(t).page, 0)
    ensures Remaining(LeafTrees(t), 0) == EntriesOf(t)
  {
    FirstLeafIsFirst(t);
    LeafTreesContents(t);
  }

  /** A range scan along the leaf chain. */
  class Cursor {
    const t: BTree
    var n: Node
    var i: nat
    /** The leaf the cursor is on and those after it. */
    ghost var leaves: seq<Tree>

    ghost predicate Valid()
      reads this, t, t.pager, n, n.buf
    {
      t.Valid() && n.Valid() && AtLeaf(t.tree, leaves, n.Page(), i)
    }

    /** What is left to yield. */
    ghost function Rest(): seq<Entry>
      requires Valid()
      reads this, t, t.pager, n, n.buf
    {
      Remaining(leaves, i)
    }

    /** `NewCursor`. */
    constructor (t: BTree, startKey: Option<Bytes>)
      requires t.Valid()
      ensures this.t == t && fresh(n) && fresh(n.buf) && Valid() && Rest() == ScanFrom(t.tree, startKey)
    {
      this.t := t;
      var node, at, rest := t.Seek(startKey);
      n, i, leaves := node, at, rest;
    }

    /** `Next`: the next entry, skipping leaves that deletes have emptied. */
    method Next() returns (r: Option<Entry>)
      requires Valid()
      modifies this
      ensures Valid() && (n == old(n) || (fresh(n) && fresh(n.buf)))
      ensures |old(Rest())| > 0 ==> r == Some(old(Rest())[0]) && Rest() == old(Rest())[1..]
      ensures |old(Rest())| == 0 ==> r == None && Rest() == []
    {
      var more := true;
      while more
        invariant Valid() && Rest() == old(Rest()) && (n == old(n) || (fresh(n) && fresh(n.buf)))
        invariant !more ==> Rest() == []
        decreases |leaves|, more
      {
        r, more := YieldOrMove();
        if r.Some? {
          return;
        }
      }
      return None;
    }

    /** One round of the loop of `Next`. */
    method YieldOrMove() returns (r: Option<Entry>, more: bool)
      requires Valid()
      modifies this
      ensures Valid() && (n == old(n) || (fresh(n) && fresh(n.buf)))
      ensures r.Some? ==> |old(Rest())| > 0 && r.value == old(Rest())[0] && Rest() == old(Rest())[1..]
      ensures r.None? ==> Rest() == old(Rest()) && if more then |leaves| < |old(leaves)| else Rest() == []
                                                                                              && leaves == old(leaves)
    {
      var count := n.NumCells();
      if i < count {
        var e := Yield();
        return Some(e), true;
      }
      more := NextLeafNode();
      return None, more;
    }

    /** The entry under the cursor. */
    method Yield() returns (e: Entry)
      requires Valid() && i < |leaves[0].page.entries.cells|
      modifies this`i
      ensures Valid() && |old(Rest())| > 0 && e == old(Rest())[0] && Rest() == old(Rest())[1..]
    {
      var k, v := n.LeafKV(i);
      e := Cell(k, v);
      RestStep(t.tree, leaves, i);
      i := i + 1;
    }

    /** Move to the next leaf of the chain; false at its end. */
    method NextLeafNode() returns (more: bool)
      requires Valid() && i == |leaves[0].page.entries.cells|
      modifies this
      ensures Valid() && Rest() == old(Rest()) && (n == old(n) || (fresh(n) && fresh(n.buf)))
      ensures more ==> |leaves| < |old(leaves)|
      ensures !more ==> Rest() == [] && leaves == old(leaves)
    {
      NextLeaf(t.pager.Nodes(), t.tree, leaves, i);
      var next := n.SiblingId();
      if next == 0 {
        return false;
      }
      n := t.ReadNode(next);
      leaves := leaves[1..];
      i := 0;
      return true;
    }
  }

  lemma {:induction false} RestStep(t: Tree, leaves: seq<Tree>, i: nat)
    requires Shape(t) && |leaves| > 0 && AtLeaf(t, leaves, leaves[0].page, i) && i < |leaves[0].page.entries.cells|
    ensures var c := leaves[0].page.entries.cells;
            Remaining(leaves, i)[0] == c[i] && Remaining(leaves, i + 1) == Remaining(leaves, i)[1..]
  {
  }

  /** At the end of a leaf, its sibling pointer leads to the next leaf or ends the scan. */
  lemma {:induction false} NextLeaf(pages: PageMap, t: Tree, leaves: seq<Tree>, i: nat)
    requires ValidTree(pages, t) && 0 !in pages && |leaves| > 0 && AtLeaf(t, leaves, leaves[0].page, i)
             && i == |leaves[0].page.entries.cells|
    ensures leaves[0].page.next == 0 ==> Remaining(leaves, i) == []
    ensures leaves[0].page.next != 0 ==>
              && leaves[0].page.next in pages
              && AtLeaf(t, leaves[1..], pages[leaves[0].page.next], 0)
              && Remaining(leaves[1..], 0) == Remaining(leaves, i)
  {
    var all := LeafTrees(t);
    var j := |all| - |leaves|;
    ChainVisitsLeaves(pages, t, j);
    if |leaves| > 1 {
      ChainVisitsLeaves(pages, t, j + 1);
      assert leaves[1] == all[j + 1];
    }
  }

  lemma {:induction false} KidFacts(pager: Pager, t: Tree, key: Bytes, val: Bytes, h: nat)
    requires pager.Valid() && t.Node? && Puttable(t, key, val) && Stored(pager.Nodes(), t) && Level(t, h)
    ensures var i := ChildIndex(t.page.links.cells, key);
            && i < |t.kids| && i <= |t.page.links.cells| && h > 0 && t.id in pager.live
            && Children(t.page.links.cells, t.page.right)[i] == t.kids[i].id
            && Puttable(t.kids[i], key, val) && Stored(pager.Nodes(), t.kids[i]) && Level(t.kids[i], h - 1)
            && (var o := TreeOps.PutRec(pager.Nodes(), pager.Allocator(), t.kids[i], key, val);
                o.split.Some? && o.alloc.count <= TWO32 ==> FieldsFit(t, i, o))
  {
    pager.NodesAllocOk();
    PutFitsFields(pager.Nodes(), pager.Allocator(), t, key, val);
    var i := ChildIndex(t.page.links.cells, key);
    assert RootIds(t.kids)[i] == t.kids[i].id;
  }

  lemma {:induction false} PutRecNode(pages: PageMap, a: Alloc, t: Tree, key: Bytes, val: Bytes, o: Outcome)
    requires t.Node? && Puttable(t, key, val)
    requires var i := ChildIndex(t.page.links.cells, key);
             i < |t.kids| && Puttable(t.kids[i], key, val) && o == TreeOps.PutRec(pages, a, t.kids[i], key, val)
    ensures TreeOps.PutRec(pages, a, t, key, val)
         == if o.split.None? then o else LinkSplit(t, ChildIndex(t.page.links.cells, key), o)
  {
  }

  /** Keys and page ids written when the split of child i is linked into t fit their fields. */
  ghost predicate FieldsFit(t: Tree, i: nat, o: Outcome)
    requires t.Node? && Shape(t) && i < |t.kids| && i <= |t.page.links.cells| && o.split.Some?
  {
    var s := o.split.value;
    && |s.key| < TWO16 && t.kids[i].id < TWO32 && s.right < TWO32
    && forall c :: c in LinksWith(t.page.links.cells, i, s.key, t.kids[i].id, s.right) ==>
      |c.key| < TWO16 && c.val < TWO32
  }

  lemma {:induction false} PutFitsFields(pages: PageMap, a: Alloc, t: Tree, k: Bytes, v: Bytes)
    requires t.Node? && Puttable(t, k, v) && Stored(pages, t) && AllocOk(pages, a)
    ensures var i := ChildIndex(t.page.links.cells, k);
            i < |t.kids| && i <= |t.page.links.cells| && Puttable(t.kids[i], k, v)
    ensures var i := ChildIndex(t.page.links.cells, k);
            var o := TreeOps.PutRec(pages, a, t.kids[i], k, v);
            o.split.Some? && o.alloc.count <= TWO32 ==> FieldsFit(t, i, o)
  {
    var i := ChildIndex(t.page.links.cells, k);
    assert |RootIds(t.kids)| == |Children(t.page.links.cells, t.page.right)|;
    var o := TreeOps.PutRec(pages, a, t.kids[i], k, v);
    if o.split.Some? && o.alloc.count <= TWO32 {
      SplitKeyBounded(pages, a, t.kids[i], k, v);
      SplitIsNew(pages, a, t.kids[i], k, v);
      PutRecFramed(pages, a, t.kids[i], k, v);
      forall j | 0 <= j < |t.page.links.cells| ensures t.page.links.cells[j].val < TWO32 {
        assert RootIds(t.kids)[j] == t.kids[j].id;
        assert t.kids[j].id in pages && t.kids[j].id in o.pages;
      }
      assert t.kids[i].id in o.pages;
      LinksBounded(t.page, i, o.split.value.key, t.kids[i].id, o.split.value.right);
    }
  }

  lemma {:induction false} SplitKeyBounded(pages: PageMap, a: Alloc, t: Tree, k: Bytes, v: Bytes)
    requires Puttable(t, k, v)
    ensures var o := TreeOps.PutRec(pages, a, t, k, v);
            o.split.Some? ==> |o.split.value.key| <= MAX_KEY_VALUE
    decreases t
  {
    if t.Leaf? {
      CellsBounded(t, k, v);
      RightHalfNonEmpty(t, k, v);
    } else {
      var i := ChildIndex(t.page.links.cells, k);
      assert |RootIds(t.kids)| == |Children(t.page.links.cells, t.page.right)|;
      SplitKeyBounded(pages, a, t.kids[i], k, v);
      var o := TreeOps.PutRec(pages, a, t.kids[i], k, v);
      if o.split.Some? {
        LinksWithSized(t.page, i, o.split.value.key, t.kids[i].id, o.split.value.right);
      }
    }
  }

  lemma {:induction false} LinksBounded(page: Page, idx: nat, key: Bytes, child: PageID, newRight: PageID)
    requires page.InternalPage? && SizedPage(page) && idx <= |page.links.cells| && |key| <= MAX_KEY_VALUE
    requires child < TWO32 && newRight < TWO32
    requires forall i :: 0 <= i < |page.links.cells| ==> page.links.cells[i].val < TWO32
    ensures forall c :: c in LinksWith(page.links.cells, idx, key, child, newRight) ==> |c.key| < TWO16 && c.val < TWO32
  {
    var cells := LinksWith(page.links.cells, idx, key, child, newRight);
    forall i | 0 <= i < |cells| ensures |cells[i].key| < TWO16 && cells[i].val < TWO32 {
      assert cells[i].key == if i < idx then page.links.cells[i].key else if i == idx then key
        else page.links.cells[i - 1].key;
    }
  }

  lemma {:induction false} EntriesBounded(cells: seq<Entry>)
    requires forall i :: 0 <= i < |cells| ==> |cells[i].key| <= MAX_KEY_VALUE && |cells[i].val| <= MAX_KEY_VALUE
    ensures forall c :: c in cells ==> |c.key| <= MAX_KEY_VALUE && |c.val| <= MAX_KEY_VALUE
  {
  }

  lemma {:induction false} SplitEntriesBounded(cells: seq<Entry>)
    requires |cells| > 0 && forall c :: c in cells ==> |c.key| <= MAX_KEY_VALUE && |c.val| <= MAX_KEY_VALUE
    ensures forall i :: 0 <= i < |cells| ==> |cells[i].key| < TWO16 && |cells[i].val| < TWO16
    ensures |LeafHalves(cells).1.cells| > 0
  {
    var mid := |cells| / 2;
    assert forall i :: 0 <= i < |cells| ==> cells[i] in cells;
    var s := InsertAt(EmptySlots<Bytes>(), 0, cells[mid], EntrySize(cells[mid]));
    PackLosesNothingExtra(s, cells[mid..][1..], EntrySize);
  }

  /** What the gathering loops hold after i cells. */
  ghost function Gathered<T>(all: seq<T>, i: nat, idx: nat, x: T): seq<T>
    requires i <= |all|
  {
    if i <= idx then all[..i] else InsertedAt(all[..i], idx, x)
  }

  lemma {:induction false} GatherStep<T>(all: seq<T>, i: nat, idx: nat, x: T)
    requires i < |all| && idx <= |all|
    ensures Gathered(all, i + 1, idx, x) == Gathered(all, i, idx, x) + (if i == idx then [x] else []) + [all[i]]
  {
    assert all[..i + 1] == all[..i] + [all[i]];
  }

  lemma {:induction false} EmptyIsValid(pages: PageMap, id: PageID)
    requires id in pages && pages[id] == LeafPage(EmptySlots(), 0)
    ensures ValidTree(pages, Leaf(id, pages[id])) && Contents(Leaf(id, pages[id])) == map[]
  {
    assert Level(Leaf(id, pages[id]), 0);
  }

  lemma {:induction false} DeleteMisses(pages: PageMap, t: Tree, key: Bytes)
    requires ValidTree(pages, t)
    ensures Deletable(t, key) <==> key in Contents(t)
    ensures !Deletable(t, key) ==> Contents(t) == Contents(t) - {key}
  {
    DeleteCorrect(pages, t, key);
  }

  lemma {:induction false} DeleteHits(pages: PageMap, t: Tree, key: Bytes, pages': PageMap)
    requires ValidTree(pages, t) && Deletable(t, key)
    requires pages' == pages[LeafFor(t, key).id := Emptied(t, key)]
    ensures var t' := WithLeaf(t, key, Emptied(t, key));
            ValidTree(pages', t') && t'.id == t.id && Contents(t') == Contents(t) - {key}
    ensures forall x :: x in pages && x !in PagesOf(t) ==> x in pages' && pages'[x] == pages[x]
  {
    DeleteCorrect(pages, t, key);
    LeafForIn(t, key);
  }
}
