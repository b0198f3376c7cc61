/** Runs from an empty tree that end in a put that goes wrong, one for each defect. */
module TreeWitnesses {
  import opened Bytes
  import opened Entries
  import opened Pages
  import opened Trees
  import opened TreeOps
  import opened TreeTheorems
  import opened TreeRuns
  import opened SmallCells
  import opened TreeReach

  /** n copies of b. */
  function Fill(n: nat, b: byte): (s: Bytes)
    ensures |s| == n
  {
    seq(n, _ => b)
  }

  /** A state that safe operations reach and in which the put of k -> v does not make what it should. */
  ghost predicate BrokenPut(s: State, k: Bytes, v: Bytes) {
    && Reachable(s) && ValidState(s) && |k| <= MAX_KEY_VALUE && |v| <= MAX_KEY_VALUE
    && !exists t' :: PutMade(s.pages, s.tree, k, v, Put(s.pages, s.alloc, s.tree, k, v).value, t')
  }

  lemma {:induction false} Breaks(s: State, k: Bytes, v: Bytes)
    requires Reachable(s) && ValidState(s) && |k| <= MAX_KEY_VALUE && |v| <= MAX_KEY_VALUE
    requires !(KeepsPages(s.pages, s.alloc, s.tree, k, v) && KeepsOrder(s.tree, k, v, None))
    ensures BrokenPut(s, k, v)
  {
    PutCorrectIff(s.pages, s.alloc, s.tree, k, v);
  }

  // ---- halves of unequal weight --------------------------------------------

  /** Three short entries and two long ones on one leaf. */
  function UnevenCells(): seq<Entry> {
    var v := Fill(1008, 0);
    [Cell([1], []), Cell([2], []), Cell([3], []), Cell(Fill(1008, 4), v), Cell(Fill(1008, 5), v)]
  }

  lemma {:induction false} UnevenSized()
    ensures Footprint(UnevenCells(), EntrySize) == 4065
  {
    var c := UnevenCells();
    assert c == [c[0]] + ([c[1]] + ([c[2]] + ([c[3]] + [c[4]])));
    FootprintAppend([c[0]], [c[1]] + ([c[2]] + ([c[3]] + [c[4]])), EntrySize);
    FootprintAppend([c[1]], [c[2]] + ([c[3]] + [c[4]]), EntrySize);
    FootprintAppend([c[2]], [c[3]] + [c[4]], EntrySize);
    FootprintAppend([c[3]], [c[4]], EntrySize);
  }

  lemma {:induction false} UnevenOverflows(e: Slots<Bytes>, k: Bytes, v: Bytes)
    requires e.cells == UnevenCells() && Ascending(e.cells) && Room(e) == CAPACITY - 4065
    requires k == Fill(1008, 6) && v == Fill(1008, 0)
    ensures !LeafFits(e, k, v) && !LeafHalvesFit(LeafCells(e, k, v))
  {
    AboveAll(e.cells, k);
    var cells := LeafCells(e, k, v);
    assert cells == e.cells + [Cell(k, v)];
    assert cells[3..] == [e.cells[3]] + ([e.cells[4]] + [Cell(k, v)]);
    FootprintAppend([e.cells[3]], [e.cells[4]] + [Cell(k, v)], EntrySize);
    FootprintAppend([e.cells[4]], [Cell(k, v)], EntrySize);
  }

  /** Five puts; a third long entry is lost, because the right half by count does not fit a page. */
  lemma {:induction false} UnevenSplitLosesEntry() returns (s: State, k: Bytes, v: Bytes)
    ensures BrokenPut(s, k, v)
    ensures s.tree.Leaf? && !LeafFits(s.tree.page.entries, k, v) && !LeafHalvesFit(LeafCells(s.tree.page.entries, k, v))
  {
    s := UnevenReached(UnevenCells());
    k, v := Fill(1008, 6), Fill(1008, 0);
    UnevenOverflows(s.tree.page.entries, k, v);
    Breaks(s, k, v);
  }

  lemma {:induction false} UnevenReached(c: seq<Entry>) returns (s: State)
    requires c == UnevenCells()
    ensures Reachable(s) && ValidState(s) && s.tree.Leaf? && Ascending(c)
    ensures s.tree.page.entries.cells == c && Room(s.tree.page.entries) == CAPACITY - 4065
  {
    UnevenSized();
    assert Ascending(c);
    s := AppendsReach(c, |c|);
    assert c[..|c|] == c;
    PackKeepsAllIff(EmptySlots(), c, EntrySize);
  }

  // ---- a ramp of long keys -------------------------------------------------

  /** The i-th key of 1008 bytes. */
  function K(i: nat): (k: Bytes)
    requires i < 256
    ensures |k| == 1008 && k[0] == i
  {
    [i] + Fill(1007, 0)
  }

  lemma {:induction false} KLess(i: nat, j: nat)
    requires i < 256 && j < 256
    ensures Less(K(i), K(j)) <==> i < j
  {
    if i == j {
      LessIrreflexive(K(i));
    }
  }

  /** n entries from the lo-th key on, without values. */
  function Ramp(lo: nat, n: nat): (s: seq<Entry>)
    requires lo + n <= 256
    ensures |s| == n && forall i :: 0 <= i < n ==> s[i] == Cell(K(lo + i), [])
  {
    seq(n, i requires 0 <= i < n => Cell(K(lo + i), []))
  }

  lemma {:induction false} RampCells(lo: nat, n: nat)
    requires lo + n <= 256
    ensures Ascending(Ramp(lo, n)) && Footprint(Ramp(lo, n), EntrySize) == 1014 * n
    decreases n
  {
    var s := Ramp(lo, n);
    forall i, j | 0 <= i < j < n ensures Less(s[i].key, s[j].key) {
      KLess(lo + i, lo + j);
    }
    if n != 0 {
      RampCells(lo + 1, n - 1);
      assert s[1..] == Ramp(lo + 1, n - 1);
    }
  }

  /** A leaf that holds them, freshly packed. */
  function RampLeaf(lo: nat, n: nat): Slots<Bytes>
    requires lo + n <= 256 && n <= 4
  {
    Slots(Ramp(lo, n), PAGE_SIZE - 1012 * n)
  }

  lemma {:induction false} PackRamp(lo: nat, n: nat)
    requires lo + n <= 256 && n <= 4
    ensures Pack(EmptySlots(), Ramp(lo, n), EntrySize) == RampLeaf(lo, n)
  {
    RampCells(lo, n);
    PackKeepsAllIff(EmptySlots(), Ramp(lo, n), EntrySize);
  }

  lemma {:induction false} RampBelow(lo: nat, n: nat)
    requires lo + n < 256 && n <= 4
    ensures FindIndex(RampLeaf(lo, n).cells, K(lo + n)) == Position(n, false)
    ensures LeafWithout(RampLeaf(lo, n), K(lo + n)) == RampLeaf(lo, n)
    ensures LeafCells(RampLeaf(lo, n), K(lo + n), []) == Ramp(lo, n + 1)
  {
    RampAbove(lo, n);
    assert InsertedAt(Ramp(lo, n), n, Cell(K(lo + n), [])) == Ramp(lo, n + 1);
  }

  lemma {:induction false} RampAbove(lo: nat, n: nat)
    requires lo + n < 256
    ensures FindIndex(Ramp(lo, n), K(lo + n)) == Position(n, false)
  {
    var s := Ramp(lo, n);
    RampCells(lo, n);
    forall i | 0 <= i < n ensures Less(s[i].key, K(lo + n)) {
      KLess(lo + i, lo + n);
    }
    AboveAll(s, K(lo + n));
  }

  /** The next key fits a leaf of fewer than four. */
  lemma {:induction false} RampNext(lo: nat, n: nat)
    requires lo + n < 256 && n < 4
    ensures LeafFits(RampLeaf(lo, n), K(lo + n), []) && PutSlots(RampLeaf(lo, n), K(lo + n), []) == RampLeaf(lo, n + 1)
  {
    RampBelow(lo, n);
  }

  /** It splits a leaf of four in two and three. */
  lemma {:induction false} RampSplits(lo: nat, n: nat)
    requires lo + 5 <= 256 && n == 4
    ensures Splits(RampLeaf(lo, n), K(lo + n), [])
            && Halves(RampLeaf(lo, n), K(lo + n), []) == (RampLeaf(lo, n - 2), RampLeaf(lo + 2, n - 1))
  {
    RampBelow(lo, n);
    RampHalves(lo, n, Ramp(lo, n + 1));
  }

  lemma {:induction false} RampHalves(lo: nat, n: nat, cells: seq<Entry>)
    requires lo + 5 <= 256 && n == 4 && cells == Ramp(lo, n + 1)
    ensures LeafHalvesFit(cells) && LeafHalves(cells) == (RampLeaf(lo, n - 2), RampLeaf(lo + 2, n - 1))
  {
    assert |cells| / 2 == n - 2;
    RampCut(lo, n - 2, n - 1);
    PackRamp(lo, n - 2);
    PackRamp(lo + 2, n - 1);
    RampCells(lo, n - 2);
    RampCells(lo + 2, n - 1);
  }

  lemma {:induction false} RampCut(lo: nat, a: nat, b: nat)
    requires lo + a + b <= 256
    ensures Ramp(lo, a + b)[..a] == Ramp(lo, a) && Ramp(lo, a + b)[a..] == Ramp(lo + a, b)
  {
  }

  lemma {:induction false} RampLeafReached(lo: nat, n: nat) returns (s: State)
    requires lo + n <= 256 && n <= 4
    ensures Reachable(s) && ValidState(s) && s.alloc == Alloc([], 2) && s.tree == Leaf(1, LeafPage(RampLeaf(lo, n), 0))
  {
    var c := Ramp(lo, n);
    RampCells(lo, n);
    s := AppendsReach(c, n);
    assert c[..n] == c;
    PackRamp(lo, n);
  }

  // ---- the tree over the ramp ----------------------------------------------

  /** The pages of the leaves: the root takes page 3. */
  function Id(j: nat): PageID { if j < 2 then j + 1 else j + 2 }

  function Ids(n: nat): (s: seq<PageID>)
    ensures |s| == n && forall j :: 0 <= j < n ==> s[j] == Id(j)
  {
    seq(n, j requires 0 <= j < n => Id(j))
  }

  function Seps(m: nat): (s: seq<Link>)
    requires m < 100
    ensures |s| == m && forall j :: 0 <= j < m ==> s[j] == Cell(K(2 * j + 2), Id(j))
  {
    seq(m, j requires 0 <= j < m => Cell(K(2 * j + 2), Id(j)))
  }

  /** Leaves of two entries. */
  function Pairs(m: nat): (s: seq<Slots<Bytes>>)
    requires m < 100
    ensures |s| == m && forall j :: 0 <= j < m ==> s[j] == RampLeaf(2 * j, 2)
  {
    seq(m, j requires 0 <= j < m => RampLeaf(2 * j, 2))
  }

  /** m leaves of two entries and a last one of r. */
  function RampTree(m: nat, r: nat): Flat
    requires m <= 4 && r <= 4
  {
    Flat(3, Slots(Seps(m), PAGE_SIZE - 1014 * m), Ids(m + 1), Pairs(m) + [RampLeaf(2 * m, r)])
  }

  lemma {:induction false} SepsBelow(m: nat, k: nat)
    requires m <= 4 && 2 * m < k < 100
    ensures ChildIndex(Seps(m), K(k)) == m
  {
    var s := Seps(m);
    forall i, j | 0 <= i < j < m ensures Less(s[i].key, s[j].key) {
      KLess(2 * i + 2, 2 * j + 2);
    }
    forall i | 0 <= i < m ensures Less(s[i].key, K(k)) {
      KLess(2 * i + 2, k);
    }
    AboveAll(s, K(k));
  }

  lemma {:induction false} FirstTree(lo: nat, n: nat) returns (s: State)
    requires lo == 0 && n == 4
    ensures At(s, RampTree(1, n - 1)) && s.alloc == Alloc([], 4)
  {
    var r := RampLeafReached(lo, n);
    RampSplits(lo, n);
    var f;
    s, f := RootSplit(r, K(lo + n), []);
    FirstTreeIs(f, lo, n);
  }

  lemma {:induction false} FirstTreeIs(f: Flat, lo: nat, n: nat)
    requires lo == 0 && n == 4
    requires f == Flat(3, Pack(EmptySlots(), [Cell(RampLeaf(lo + 2, n - 1).cells[0].key, 1)], LinkSize), [1, 2],
                       [RampLeaf(lo, n - 2), RampLeaf(lo + 2, n - 1)])
    ensures f == RampTree(1, n - 1)
  {
    var sep := Cell(K(lo + 2), 1);
    assert Pack(EmptySlots(), [sep], LinkSize) == Slots([sep], PAGE_SIZE - 1014) by {
      PackKeepsAllIff(EmptySlots(), [sep], LinkSize);
    }
    var g := RampTree(1, n - 1);
    assert g.links.cells == [sep];
    assert g.ids == [1, 2];
    assert g.leaves == f.leaves;
  }

  lemma {:induction false} RampPut(s: State, f: Flat, m: nat, r: nat) returns (s': State)
    requires 1 <= m <= 4 && 0 < r < 4 && f == RampTree(m, r) && At(s, f)
    ensures At(s', RampTree(m, r + 1)) && s'.alloc == s.alloc
  {
    var k := 2 * m + r;
    SepsBelow(m, k);
    RampNext(2 * m, r);
    RampTreeNext(f, m, r);
    s' := FlatPut(s, f, m, K(k), []);
  }

  lemma {:induction false} RampTreeNext(f: Flat, m: nat, r: nat)
    requires 1 <= m <= 4 && 0 < r < 4 && f == RampTree(m, r)
    ensures f.leaves[m] == RampLeaf(2 * m, r)
    ensures f.(leaves := f.leaves[m := RampLeaf(2 * m, r + 1)]) == RampTree(m, r + 1)
  {
    var g := f.(leaves := f.leaves[m := RampLeaf(2 * m, r + 1)]);
    assert g.leaves == RampTree(m, r + 1).leaves;
  }

  lemma {:induction false} RampSplitsLast(s: State, m: nat, r: nat) returns (s': State)
    requires 1 <= m < 4 && r == 4 && At(s, RampTree(m, r)) && s.alloc == Alloc([], m + 3)
    ensures At(s', RampTree(m + 1, r - 1)) && s'.alloc == Alloc([], m + 4)
  {
    var f, sep := RampTree(m, r), Cell(K(2 * m + 2), Id(m));
    SepsBelow(m, 2 * m + r);
    RampSplits(2 * m, r);
    RampGrown(m, r, sep);
    s' := FlatSplit(s, f, K(2 * m + r), [], sep);
  }

  lemma {:induction false} RampGrown(m: nat, r: nat, sep: Link)
    requires 1 <= m < 4 && r == 4 && sep == Cell(K(2 * m + 2), Id(m))
    ensures Fits(RampTree(m, r).links, LinkSize(sep)) && RampTree(m, r).leaves[m] == RampLeaf(2 * m, r)
            && RampTree(m, r).ids[m] == Id(m)
    ensures Grown(RampTree(m, r), m + 3, RampLeaf(2 * m, r - 2), RampLeaf(2 * m + 2, r - 1), sep) ==
            RampTree(m + 1, r - 1)
  {
    var f, h := RampTree(m, r), RampTree(m + 1, r - 1);
    var g := Grown(f, m + 3, RampLeaf(2 * m, r - 2), RampLeaf(2 * m + 2, r - 1), sep);
    assert g.links.cells == Seps(m + 1);
    assert g.ids == Ids(m + 2);
    assert g.leaves == h.leaves;
  }

  lemma {:induction false} RampReached(m: nat, n: nat) returns (s: State)
    requires 1 <= m <= 4 && n == 4
    ensures At(s, RampTree(m, n - 1)) && s.alloc == Alloc([], m + 3)
    decreases m
  {
    if m == 1 {
      s := FirstTree(0, n);
    } else {
      var r := RampReached(m - 1, n);
      r := RampPut(r, RampTree(m - 1, n - 1), m - 1, n - 1);
      s := RampSplitsLast(r, m - 1, n);
    }
  }

  /** A put that splits the rightmost leaf under a root without room. */
  lemma {:induction false} FlatOverflows(s: State, f: Flat, k: Bytes, v: Bytes)
    requires At(s, f) && s.alloc.free == []
    requires var j := |f.links.cells|;
             ChildIndex(f.links.cells, k) == j && Splits(f.leaves[j], k, v)
             && !Fits(f.links, LinkSize(Cell(Halves(f.leaves[j], k, v).1.cells[0].key, f.ids[j])))
    ensures Puttable(s.tree, k, v) && !NoRightmostOverflow(s.pages, s.alloc, s.tree, k, v)
    ensures !KeepsPages(s.pages, s.alloc, s.tree, k, v)
  {
    var j := |f.links.cells|;
    assert s.tree.kids[j] == Leaf(f.ids[j], LeafAt(f, j));
    LastSplits(s.pages, s.alloc, s.tree.kids[j], k, v);
  }

  /** Twelve puts of ascending long keys; the thirteenth splits the rightmost leaf under the full root, and the new leaf
      is lost. */
  lemma {:induction false} RightmostOverflowLosesPage() returns (s: State, k: Bytes)
    ensures BrokenPut(s, k, []) && Puttable(s.tree, k, []) && !NoRightmostOverflow(s.pages, s.alloc, s.tree, k, [])
  {
    s, k := RampOverflows(4, 4);
  }

  lemma {:induction false} RampOverflows(m: nat, n: nat) returns (s: State, k: Bytes)
    requires m == n == 4
    ensures BrokenPut(s, k, []) && Puttable(s.tree, k, []) && !NoRightmostOverflow(s.pages, s.alloc, s.tree, k, [])
  {
    var r := RampReached(m, n);
    s := RampPut(r, RampTree(m, n - 1), m, n - 1);
    k := K(2 * m + n);
    SepsBelow(m, 2 * m + n);
    RampSplits(2 * m, n);
    var f := RampTree(m, n);
    assert f.leaves[m] == RampLeaf(2 * m, n);
    FlatOverflows(s, f, k, []);
    Breaks(s, k, []);
  }

  // ---- a leaf with one key left --------------------------------------------

  lemma {:induction false} FoundAt(cells: seq<Entry>, i: nat)
    requires Ascending(cells) && i < |cells|
    ensures FindIndex(cells, cells[i].key) == Position(i, true)
  {
    LessIrreflexive(cells[i].key);
    LowerBoundUnique(cells, cells[i].key, i);
    FindIndexIsLowerBound(cells, cells[i].key);
  }

  /** A root with one separator over two leaves. */
  ghost predicate Pair(f: Flat, sep: Bytes, e: Slots<Bytes>) {
    FlatOk(f) && |f.links.cells| == 1 && f.links.cells[0].key == sep && f.leaves[1] == e
  }

  lemma {:induction false} RightChild(links: seq<Link>, k: Bytes)
    requires |links| == 1 && !Less(k, links[0].key)
    ensures ChildIndex(links, k) == 1
  {
    if links[0].key == k {
      LessIrreflexive(k);
      LowerBoundUnique(links, k, 0);
    } else {
      LessTotal(k, links[0].key);
      LowerBoundUnique(links, k, 1);
    }
    FindIndexIsLowerBound(links, k);
  }

  /** Deleting the last entry of the right leaf leaves its bytes on the page. */
  lemma {:induction false} DropLast(s: State, f: Flat, sep: Bytes, e: Slots<Bytes>) returns (s': State, g: Flat)
    requires At(s, f) && Pair(f, sep, e) && Ascending(e.cells) && |e.cells| > 1 && e.cells[0].key == sep
    ensures At(s', g) && Pair(g, sep, Slots(e.cells[..|e.cells| - 1], e.top))
  {
    var n := |e.cells| - 1;
    LessAsymmetric(sep, e.cells[n].key);
    RightChild(f.links.cells, e.cells[n].key);
    FoundAt(e.cells, n);
    s' := FlatDelete(s, f, 1, e.cells[n].key);
    assert RemoveAt(e, n) == Slots(e.cells[..n], e.top);
    g := f.(leaves := f.leaves[1 := RemoveAt(e, n)]);
  }

  /** So does writing the only entry again. */
  lemma {:induction false} WriteAgain(s: State, f: Flat, sep: Bytes, e: Slots<Bytes>) returns (s': State, g: Flat)
    requires At(s, f) && Pair(f, sep, e) && e.cells == [Cell(sep, [])] && |sep| <= MAX_KEY_VALUE
    requires EntrySize(Cell(sep, [])) + SLOT <= e.top - HEADER
    ensures At(s', g) && Pair(g, sep, Slots(e.cells, e.top - EntrySize(Cell(sep, []))))
  {
    LessIrreflexive(sep);
    RightChild(f.links.cells, sep);
    FoundAt(e.cells, 0);
    assert LeafWithout(e, sep) == Slots([], e.top);
    s' := FlatPut(s, f, 1, sep, []);
    assert PutSlots(e, sep, []) == Slots(e.cells, e.top - EntrySize(Cell(sep, [])));
    g := f.(leaves := f.leaves[1 := PutSlots(e, sep, [])]);
  }

  /** A worn-out leaf with one entry, equal to its own lower bound. */
  lemma {:induction false} WornOut(s: State, f: Flat, sep: Bytes, e: Slots<Bytes>)
    requires At(s, f) && Pair(f, sep, e) && e.cells == [Cell(sep, [])]
    requires EntrySize(Cell(sep, [])) + SLOT > e.top - HEADER
    ensures !KeepsOrder(s.tree, sep, [], None)
  {
    LessIrreflexive(sep);
    RightChild(f.links.cells, sep);
    FoundAt(e.cells, 0);
    assert LeafWithout(e, sep) == Slots([], e.top);
    assert s.tree.kids[1] == Leaf(f.ids[1], LeafAt(f, 1));
    assert !KeepsOrder(s.tree.kids[1], sep, [], Some(sep));
  }

  /** Five puts, two deletes and an update of the key that is left; one more update splits the leaf at its own lower
      bound. */
  lemma {:induction false} WornLeafBreaksOrder() returns (s: State, k: Bytes)
    ensures BrokenPut(s, k, []) && !KeepsOrder(s.tree, k, [], None)
  {
    var f, e;
    s, f, k, e := WornReached(4);
    WornOut(s, f, k, e);
    Breaks(s, k, []);
  }

  lemma {:induction false} WornReached(n: nat) returns (s: State, f: Flat, k: Bytes, e: Slots<Bytes>)
    requires n == 4
    ensures At(s, f) && Pair(f, k, e) && e.cells == [Cell(k, [])] && |k| == 1008 && e.top == 48
  {
    f := RampTree(1, n - 1);
    k := K(n - 2);
    s := FirstTree(0, n);
    var c := Ramp(n - 2, n - 1);
    RampCells(n - 2, n - 1);
    assert f.leaves[1] == RampLeaf(n - 2, n - 1);
    assert Pair(f, k, Slots(c, 1060));
    s, f := WearDown(s, f, k, c);
    e := Slots([Cell(k, [])], 48);
  }

  lemma {:induction false} WearDown(s: State, f: Flat, k: Bytes, c: seq<Entry>) returns (s': State, g: Flat)
    requires At(s, f) && Pair(f, k, Slots(c, 1060)) && Ascending(c) && |c| == 3 && c[0] == Cell(k, []) && |k| == 1008
    ensures At(s', g) && Pair(g, k, Slots([Cell(k, [])], 48))
  {
    s', g := DropLast(s, f, k, Slots(c, 1060));
    s', g := DropLast(s', g, k, Slots(c[..2], 1060));
    assert c[..2][..1] == [Cell(k, [])];
    s', g := WriteAgain(s', g, k, Slots([Cell(k, [])], 1060));
  }
}
