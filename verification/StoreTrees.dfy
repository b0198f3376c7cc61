/** The store of the transaction layer and the trees of the data file: a map update of the one is a tree operation on
    the other, and a listing of the one is a scan of the other. */
module StoreTrees {
  import opened Bytes
  import opened Entries
  import opened Pages
  import opened Trees
  import opened TreeOps
  import opened TreeTheorems
  import opened TreeRuns
  import opened Cursors
  import BTrees
  import Recovery
  import Tables
  import RowStatements

  /** The part of the store under a target is this map. */
  ghost predicate Mirrors(d: Recovery.Data, target: Bytes, m: map<Bytes, Bytes>) {
    forall k: Bytes :: Recovery.At(d, Recovery.Loc(target, k)) == if k in m then Some(m[k]) else None
  }

  /** The data file holds a valid tree for every target, the trees share no page, and together they are the store. */
  ghost predicate Backs(pages: PageMap, trees: map<Bytes, Tree>, d: Recovery.Data) {
    AllBacked(pages, trees, d) && AllApart(trees)
  }

  ghost predicate AllBacked(pages: PageMap, trees: map<Bytes, Tree>, d: Recovery.Data) {
    forall x: Bytes :: x in trees ==> Backed(pages, trees[x], d, x)
  }

  ghost predicate Backed(pages: PageMap, t: Tree, d: Recovery.Data, x: Bytes)
  { ValidTree(pages, t) && Mirrors(d, x, Contents(t)) }

  ghost predicate AllApart(trees: map<Bytes, Tree>) {
    forall x: Bytes, y: Bytes :: x in trees && y in trees && x != y ==> NoCommonPage(trees[x], trees[y])
  }

  ghost predicate NoCommonPage(t: Tree, u: Tree) { forall p :: p in PagesOf(t) ==> p !in PagesOf(u) }

  // ---- Writes --------------------------------------------------------------

  lemma {:induction false} PutMirrors(d: Recovery.Data, target: Bytes, k: Bytes, v: Bytes, m: map<Bytes, Bytes>)
    requires Mirrors(d, target, m)
    ensures Mirrors(d[Recovery.Loc(target, k) := v], target, m[k := v])
    ensures Mirrors(d - {Recovery.Loc(target, k)}, target, m - {k})
  {
    forall j: Bytes ensures Recovery.At(d, Recovery.Loc(target, j)) == if j in m then Some(m[j]) else None {
    }
  }

  /** Trees that an operation on another tree does not touch stay valid. */
  lemma {:induction false} OthersValid(pages: PageMap, pages': PageMap, t: Tree, u: Tree)
    requires ValidTree(pages, u) && NoCommonPage(t, u)
    requires forall p :: p in pages && p !in PagesOf(t) ==> p in pages' && pages'[p] == pages[p]
    ensures ValidTree(pages', u)
  {
    forall p | p in PagesOf(u) ensures p in pages && p in pages' && pages'[p] == pages[p] {
      StoredPages(pages, u, p);
    }
    StoredFrame(pages, pages', u);
  }

  /** What a tree operation on one target must do to its tree and the pages. */
  ghost predicate Replaces(pages: PageMap, t: Tree, pages': PageMap, t': Tree) {
    && ValidTree(pages', t')
    && (forall p :: p in pages && p !in PagesOf(t) ==> p in pages' && pages'[p] == pages[p])
    && (forall p :: p in PagesOf(t') ==> p in PagesOf(t) || p !in pages)
  }

  lemma {:induction false} MirrorsFrame(d: Recovery.Data, d': Recovery.Data, target: Bytes, x: Bytes, m: map<Bytes,
                                        Bytes>)
    requires Tables.SameOutside(d, d', target) && x != target && Mirrors(d, x, m)
    ensures Mirrors(d', x, m)
  {
    forall k: Bytes ensures Recovery.At(d', Recovery.Loc(x, k)) == Recovery.At(d, Recovery.Loc(x, k)) {
    }
  }

  lemma {:induction false} TreesBacked(pages: PageMap, trees: map<Bytes, Tree>, d: Recovery.Data, target: Bytes,
                                       pages': PageMap, t': Tree, d': Recovery.Data)
    requires Backs(pages, trees, d) && target in trees && Replaces(pages, trees[target], pages', t')
    requires Backed(pages', t', d', target) && Tables.SameOutside(d, d', target)
    ensures AllBacked(pages', trees[target := t'], d')
  {
    var after := trees[target := t'];
    forall x: Bytes | x in after ensures Backed(pages', after[x], d', x) {
      if x != target {
        assert Backed(pages, trees[x], d, x) && NoCommonPage(trees[target], trees[x]);
        MirrorsFrame(d, d', target, x, Contents(trees[x]));
        OthersValid(pages, pages', trees[target], trees[x]);
      }
    }
  }

  lemma {:induction false} BackedStep(pages: PageMap, trees: map<Bytes, Tree>, d: Recovery.Data, target: Bytes,
                                      pages': PageMap, t': Tree, d': Recovery.Data)
    requires Backs(pages, trees, d) && target in trees && Replaces(pages, trees[target], pages', t')
    requires Backed(pages', t', d', target) && Tables.SameOutside(d, d', target)
    ensures Backs(pages', trees[target := t'], d')
  {
    TreesBacked(pages, trees, d, target, pages', t', d');
    var t, after := trees[target], trees[target := t'];
    forall x: Bytes, y: Bytes | x in after && y in after && x != y ensures NoCommonPage(after[x], after[y]) {
      assert NoCommonPage(trees[x], trees[y]) && NoCommonPage(trees[y], trees[x]);
      if x == target {
        assert Backed(pages, trees[y], d, y);
        StillApart(pages, t, pages', t', trees[y]);
      } else if y == target {
        assert Backed(pages, trees[x], d, x);
        StillApart(pages, t, pages', t', trees[x]);
      }
    }
  }

  lemma {:induction false} StillApart(pages: PageMap, t: Tree, pages': PageMap, t': Tree, u: Tree)
    requires Replaces(pages, t, pages', t') && ValidTree(pages, u) && NoCommonPage(t, u)
    ensures NoCommonPage(t', u) && NoCommonPage(u, t')
  {
    forall p | p in PagesOf(u) ensures p in pages && p !in PagesOf(t') {
      StoredPages(pages, u, p);
    }
  }

  /** A put of the transaction layer is a put into its tree, exactly when that put is safe. */
  lemma {:induction false} StorePutIff(pages: PageMap, a: Alloc, trees: map<Bytes, Tree>, d: Recovery.Data,
                                       target: Bytes, k: Bytes, v: Bytes)
    requires Backs(pages, trees, d) && AllocOk(pages, a) && target in trees && |k| <= MAX_KEY_VALUE
             && |v| <= MAX_KEY_VALUE
    ensures var db, t := Put(pages, a, trees[target], k, v).value, trees[target];
            (exists t' :: PutMade(pages, t, k, v, db, t')
                          && Backs(db.pages, trees[target := t'], d[Recovery.Loc(target, k) := v]))
            <==> KeepsPages(pages, a, t, k, v) && KeepsOrder(t, k, v, None)
  {
    var t := trees[target];
    assert Backed(pages, t, d, target);
    var db := Put(pages, a, t, k, v).value;
    PutCorrectIff(pages, a, t, k, v);
    PutKeepsAlloc(pages, a, t, k, v);
    if t' :| PutMade(pages, t, k, v, db, t') {
      var d' := d[Recovery.Loc(target, k) := v];
      PutMirrors(d, target, k, v, Contents(t));
      RowStatements.SameOutsidePut(d, Recovery.Loc(target, k), v);
      BackedStep(pages, trees, d, target, db.pages, t', d');
    }
  }

  lemma {:induction false} DeleteReplaces(pages: PageMap, t: Tree, k: Bytes)
    requires ValidTree(pages, t) && Delete(pages, t, k).Some?
    ensures Replaces(pages, t, Delete(pages, t, k).value, WithLeaf(t, k, Emptied(t, k)))
  {
    DeleteCorrect(pages, t, k);
    LeafForIn(t, k);
  }

  /** A delete of the transaction layer is a delete from its tree, and finds the key in one exactly when in the
      other. */
  lemma {:induction false} StoreDelete(pages: PageMap, trees: map<Bytes, Tree>, d: Recovery.Data, target: Bytes,
                                       k: Bytes)
    requires Backs(pages, trees, d) && target in trees
    ensures Delete(pages, trees[target], k).Some? <==> Recovery.Loc(target, k) in d
    ensures Delete(pages, trees[target], k).Some? ==>
              Backs(Delete(pages, trees[target], k).value,
                    trees[target := WithLeaf(trees[target], k, Emptied(trees[target], k))],
                    d - {Recovery.Loc(target, k)})
  {
    var t := trees[target];
    assert Backed(pages, t, d, target);
    DeleteCorrect(pages, t, k);
    assert Recovery.At(d, Recovery.Loc(target, k)) == if k in Contents(t) then Some(Contents(t)[k]) else None;
    if Delete(pages, t, k).Some? {
      var pages', t', d' := Delete(pages, t, k).value, WithLeaf(t, k, Emptied(t, k)), d - {Recovery.Loc(target, k)};
      DeleteReplaces(pages, t, k);
      PutMirrors(d, target, k, [], Contents(t));
      RowStatements.SameOutsidePut(d, Recovery.Loc(target, k), []);
      BackedStep(pages, trees, d, target, pages', t', d');
    }
  }

  // ---- Reads ---------------------------------------------------------------

  /** A lookup in the store is a lookup in the tree. */
  lemma {:induction false} StoreGet(pages: PageMap, trees: map<Bytes, Tree>, d: Recovery.Data, target: Bytes, k: Bytes)
    requires Backs(pages, trees, d) && target in trees
    ensures GetIn(trees[target], k) == Recovery.At(d, Recovery.Loc(target, k))
  {
    assert Backed(pages, trees[target], d, target);
    GetIsMapLookup(pages, trees[target], k);
  }

  /** What a tree cursor yields from a start key on is a listing of the store. */
  lemma {:induction false} ScanLists(pages: PageMap, trees: map<Bytes, Tree>, d: Recovery.Data, target: Bytes,
                                     start: Bytes)
    requires Backs(pages, trees, d) && target in trees
    ensures Tables.ListsFrom(d, target, start, BTrees.ScanFrom(trees[target], Some(start)))
  {
    var t := trees[target];
    assert Backed(pages, t, d, target);
    var es := BTrees.ScanFrom(t, Some(start));
    ScanIsRange(pages, t, start);
    forall i | 0 <= i < |es| ensures Leq(start, es[i].key)
      && Recovery.At(d, Recovery.Loc(target, es[i].key)) == Some(es[i].val)
    {
      assert es[i] in es;
    }
    forall k: Bytes | Leq(start, k) && Recovery.Loc(target, k) in d ensures Tables.Listed(es, k) {
      assert Recovery.At(d, Recovery.Loc(target, k)) == if k in Contents(t) then Some(Contents(t)[k]) else None;
      var e := Cell(k, Contents(t)[k]);
      assert e in es;
      var i :| 0 <= i < |es| && es[i] == e;
      assert es[i].key == k;
    }
  }

  /** A listing is determined by the store, so `RowStatements.Listing` gives what the cursor gives. */
  lemma {:induction false} ListsUnique(d: Recovery.Data, target: Bytes, start: Bytes, a: seq<Entry>, b: seq<Entry>)
    requires Tables.ListsFrom(d, target, start, a) && Tables.ListsFrom(d, target, start, b)
    ensures a == b
  {
    ListedIn(d, target, start, a, b);
    ListedIn(d, target, start, b, a);
    AscendingUnique(a, b);
  }

  lemma {:induction false} ListedIn(d: Recovery.Data, target: Bytes, start: Bytes, a: seq<Entry>, b: seq<Entry>)
    requires Tables.ListsFrom(d, target, start, a) && Tables.ListsFrom(d, target, start, b)
    ensures forall e :: e in a ==> e in b
  {
    forall e | e in a ensures e in b {
      var i :| 0 <= i < |a| && a[i] == e;
      assert Recovery.At(d, Recovery.Loc(target, a[i].key)) == Some(a[i].val);
      assert Tables.Listed(b, e.key);
      var j :| 0 <= j < |b| && b[j].key == e.key;
      assert Recovery.At(d, Recovery.Loc(target, b[j].key)) == Some(b[j].val);
      assert b[j] == e;
    }
  }

  lemma {:induction false} AscendingUnique(a: seq<Entry>, b: seq<Entry>)
    requires Ascending(a) && Ascending(b) && (forall e :: e in a ==> e in b) && (forall e :: e in b ==> e in a)
    ensures a == b
    decreases |a|
  {
    FirstIn(a);
    FirstIn(b);
    if |a| != 0 {
      SameFirst(a, b);
      var a', b' := a[1..], b[1..];
      RestIn(a, b);
      RestIn(b, a);
      AscendingUnique(a', b');
      assert a == [a[0]] + a' && b == [b[0]] + b';
    }
  }

  lemma {:induction false} FirstIn(a: seq<Entry>)
    ensures |a| != 0 ==> a[0] in a
  {
  }

  lemma {:induction false} SameFirst(a: seq<Entry>, b: seq<Entry>)
    requires Ascending(a) && Ascending(b) && |a| > 0 && |b| > 0 && a[0] in b && b[0] in a
    ensures a[0] == b[0]
  {
    var i :| 0 <= i < |b| && b[i] == a[0];
    var j :| 0 <= j < |a| && a[j] == b[0];
    if i > 0 && j > 0 {
      assert Less(b[0].key, b[i].key) && Less(a[0].key, a[j].key);
      LessAsymmetric(a[0].key, b[0].key);
    }
  }

  lemma {:induction false} RestIn(a: seq<Entry>, b: seq<Entry>)
    requires Ascending(a) && Ascending(b) && |a| > 0 && |b| > 0 && a[0] == b[0] && forall e :: e in a ==> e in b
    ensures Ascending(a[1..]) && forall e :: e in a[1..] ==> e in b[1..]
  {
    forall e | e in a[1..] ensures e in b[1..] {
      var i :| 0 <= i < |a[1..]| && a[1..][i] == e;
      assert a[i + 1] == e && Less(a[0].key, e.key);
      LessIrreflexive(a[0].key);
      assert e in b;
      var j :| 0 <= j < |b| && b[j] == e;
      assert b[1..][j - 1] == e;
    }
  }
}
