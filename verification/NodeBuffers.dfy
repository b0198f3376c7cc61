/** `node`: a page buffer rewritten in place. */
module NodeBuffers {
  import opened Bytes
  import opened Entries
  import opened Pages
  import opened SlottedPage

  /** The pointer at index j, read from any buffer. */
  ghost function Pointer(b: Bytes, j: nat): nat
    requires HEADER + SLOT * j + 2 <= |b|
  {
    U16(b, HEADER + SLOT * j)
  }

  function KeyCount(p: Page): nat {
    if p.LeafPage? then |p.entries.cells| else |p.links.cells|
  }

  function KeyOf(p: Page, i: nat): Bytes
    requires i < KeyCount(p)
  {
    if p.LeafPage? then p.entries.cells[i].key else p.links.cells[i].key
  }

  /** Binary search over the cells of a page of either kind. */
  function Search(p: Page, key: Bytes, lo: nat, hi: nat): Position
    requires lo <= hi <= KeyCount(p)
  {
    if p.LeafPage? then BinarySearch(p.entries.cells, key, lo, hi) else BinarySearch(p.links.cells, key, lo, hi)
  }

  lemma {:induction false} SearchStep(p: Page, key: Bytes, lo: nat, hi: nat, mid: nat, c: int)
    requires lo < hi <= KeyCount(p) && mid == (lo + hi) / 2 && c == Compare(KeyOf(p, mid), key)
    ensures Search(p, key, lo, hi) == if c == 0 then Position(mid, true)
                                      else if c < 0 then Search(p, key, mid + 1, hi)
                                      else Search(p, key, lo, mid)
  {
  }

  /** The search of the whole page has come down to lo..hi. */
  ghost predicate Searching(p: Page, key: Bytes, lo: nat, hi: nat) {
    lo <= hi <= KeyCount(p) && Search(p, key, lo, hi) == Search(p, key, 0, KeyCount(p))
  }

  lemma {:induction false} SearchNext(p: Page, key: Bytes, lo: nat, hi: nat, mid: nat, c: int)
    requires Searching(p, key, lo, hi) && lo < hi && mid == (lo + hi) / 2 && c == Compare(KeyOf(p, mid), key)
    ensures c == 0 ==> Search(p, key, 0, KeyCount(p)) == Position(mid, true)
    ensures c < 0 ==> Searching(p, key, mid + 1, hi)
    ensures c > 0 ==> Searching(p, key, lo, mid)
  {
    SearchStep(p, key, lo, hi, mid, c);
  }

  class Node {
    const id: PageID
    const buf: array<byte>

    ghost predicate Valid()
      reads buf
    {
      ValidPage(buf[..])
    }

    ghost function Page(): Page
      requires Valid()
      reads buf
    {
      View(buf[..])
    }

    /** `newNodeBuf`. */
    constructor Empty(id: PageID, kind: byte)
      requires kind == LEAF || kind == INTERNAL
      ensures this.id == id && fresh(buf) && Valid()
      ensures Page() == if kind == LEAF then LeafPage(EmptySlots(), 0) else InternalPage(EmptySlots(), 0)
    {
      this.id := id;
      var b := new byte[PAGE_SIZE](i => 0);
      b[0] := kind;
      b[7] := 16;
      buf := b;
      new;
      FreshView(buf[..], kind);
    }

    /** `readNode`: a buffer of its own holding the page's bytes. */
    constructor Load(id: PageID, bytes: Bytes)
      requires ValidPage(bytes)
      ensures this.id == id && fresh(buf) && buf[..] == bytes
    {
      this.id := id;
      var b := new byte[|bytes|](i requires 0 <= i < |bytes| => bytes[i]);
      buf := b;
      new;
      assert buf[..] == bytes;
    }

    function Get16(at: nat): (x: nat)
      requires at + 2 <= buf.Length
      reads buf
      ensures x == U16(buf[..], at)
    {
      buf[at] as nat * 256 + buf[at + 1]
    }

    method Set16(at: nat, x: nat)
      requires at + 2 <= buf.Length && x < TWO16
      modifies buf
      ensures buf[..] == old(buf[..])[..at] + U16Bytes(x) + old(buf[..])[at + 2..]
    {
      buf[at] := x / 256;
      buf[at + 1] := x % 256;
    }

    method Set32(at: nat, x: nat)
      requires at + 4 <= buf.Length
      modifies buf
      ensures buf[at..at + 4] == U32Bytes(x)
      ensures forall j :: 0 <= j < buf.Length && !(at <= j < at + 4) ==> buf[j] == old(buf[j])
    {
      var b := U32Bytes(x);
      buf[at], buf[at + 1], buf[at + 2], buf[at + 3] := b[0], b[1], b[2], b[3];
    }

    predicate IsLeaf()
      requires buf.Length > 0
      reads buf
    {
      buf[0] == LEAF
    }

    /** `leafKV`. */
    method LeafKV(i: nat) returns (key: Bytes, val: Bytes)
      requires Valid() && Page().LeafPage? && i < |Page().entries.cells|
      ensures Cell(key, val) == Page().entries.cells[i]
    {
      ghost var b := buf[..];
      assert CellInside(b, i);
      var off := Get16(HEADER + SLOT * i);
      var klen, vlen := Get16(off), Get16(off + 2);
      key := buf[off + 4..off + 4 + klen];
      val := buf[off + 4 + klen..off + 4 + klen + vlen];
      LeafCellAt(b, i);
    }

    /** `internalKC`. */
    method InternalKC(i: nat) returns (key: Bytes, child: PageID)
      requires Valid() && Page().InternalPage? && i < |Page().links.cells|
      ensures Cell(key, child) == Page().links.cells[i]
    {
      ghost var b := buf[..];
      assert CellInside(b, i);
      var off := Get16(HEADER + SLOT * i);
      var klen := Get16(off);
      child := Get16(off + 2) * TWO16 + Get16(off + 4);
      key := buf[off + 6..off + 6 + klen];
      LinkAt(b, i);
    }

    method KeyAt(i: nat) returns (key: Bytes)
      requires Valid() && i < KeyCount(Page())
      ensures key == KeyOf(Page(), i)
    {
      if IsLeaf() {
        var k, _ := LeafKV(i);
        key := k;
      } else {
        var k, _ := InternalKC(i);
        key := k;
      }
    }

    /** `findIndex`. */
    method FindIndex(key: Bytes) returns (idx: nat, exact: bool)
      requires Valid()
      ensures Position(idx, exact) == Search(Page(), key, 0, KeyCount(Page()))
    {
      var lo: nat, hi: nat := 0, Get16(1);
      ghost var p := Page();
      assert hi == KeyCount(p);
      while lo < hi
        invariant Searching(p, key, lo, hi)
      {
        var mid := (lo + hi) / 2;
        var k := KeyAt(mid);
        var c := Compare(k, key);
        assert c == Compare(KeyOf(p, mid), key);
        SearchNext(p, key, lo, hi, mid, c);
        if c == 0 {
          return mid, true;
        } else if c < 0 {
          lo := mid + 1;
        } else {
          hi := mid;
        }
      }
      return lo, false;
    }

    /** `sibling` and `numCells`. */
    method SiblingId() returns (id: PageID)
      requires Valid()
      ensures id < TWO32 && id == if Page().LeafPage? then Page().next else Page().right
    {
      id := Get16(3) * TWO16 + Get16(5);
    }

    method NumCells() returns (n: nat)
      requires Valid()
      ensures n == KeyCount(Page())
    {
      n := Get16(1);
    }

    /** Insert an entry into a leaf. */
    method InsertEntryAt(idx: nat, e: Entry) returns (ok: bool)
      requires Valid() && Page().LeafPage? && idx <= |Page().entries.cells| && |e.key| < TWO16 && |e.val| < TWO16
      modifies buf
      ensures Valid()
      ensures ok <==> Fits(old(Page()).entries, EntrySize(e))
      ensures Page() == if ok then LeafPage(InsertAt(old(Page()).entries, idx, e, EntrySize(e)), old(Page()).next)
              else old(Page())
    {
      ghost var b := buf[..];
      EntryRoundTrip(e);
      ok := InsertCellAt(idx, EntryBody(e));
      if ok {
        InsertedLeafView(b, buf[..], idx, e);
      }
    }

    /** Insert a link into an internal page. */
    method InsertLinkAt(idx: nat, l: Link) returns (ok: bool)
      requires Valid() && Page().InternalPage? && idx <= |Page().links.cells| && |l.key| < TWO16 && l.val < TWO32
      modifies buf
      ensures Valid()
      ensures ok <==> Fits(old(Page()).links, LinkSize(l))
      ensures Page() == if ok then InternalPage(InsertAt(old(Page()).links, idx, l, LinkSize(l)), old(Page()).right)
              else old(Page())
    {
      ghost var b := buf[..];
      LinkRoundTrip(l);
      ok := InsertCellAt(idx, LinkBody(l));
      if ok {
        InsertedInternalView(b, buf[..], idx, l);
      }
    }

    method RemoveEntryAt(idx: nat)
      requires Valid() && Page().LeafPage? && idx < |Page().entries.cells|
      modifies buf
      ensures Valid()
      ensures Page() == LeafPage(RemoveAt(old(Page()).entries, idx), old(Page()).next)
    {
      ghost var b := buf[..];
      RemoveCellAt(idx);
      RemovedView(b, buf[..], idx);
    }

    /** `setSibling`. */
    method SetSibling(sibling: PageID)
      requires Valid() && sibling < TWO32
      modifies buf
      ensures Valid()
      ensures Page() == if old(Page()).LeafPage? then LeafPage(old(Page()).entries, sibling)
              else InternalPage(old(Page()).links, sibling)
    {
      ghost var b := buf[..];
      Set32(3, sibling);
      assert Resibling(b, buf[..], sibling);
      ResiblingView(b, buf[..], sibling);
    }

    /** `rewriteChildAt`, without the page write. */
    method RewriteChildAt(idx: nat, child: PageID)
      requires Valid() && Page().InternalPage? && idx < |Page().links.cells| && child < TWO32
      modifies buf
      ensures Valid()
      ensures var s := old(Page()).links;
              Page() == InternalPage(Slots(s.cells[idx := s.cells[idx].(val := child)], s.top), old(Page()).right)
    {
      ghost var b := buf[..];
      assert CellInside(b, idx);
      var off := Get16(HEADER + SLOT * idx);
      Set32(off + 2, child);
      assert Rewritten(b, buf[..], idx, child);
      RewrittenView(b, buf[..], idx, child);
    }

    /** `insertCellAt`: false, and nothing changed, when there is no room. */
    method InsertCellAt(idx: nat, body: Bytes) returns (ok: bool)
      requires Valid() && idx <= CellCount(buf[..]) && IsBody(buf[0], body)
      modifies buf
      ensures ok <==> |body| + SLOT <= ContentTop(old(buf[..])) - HEADER - SLOT * CellCount(old(buf[..]))
      ensures !ok ==> buf[..] == old(buf[..])
      ensures ok ==> Inserted(old(buf[..]), buf[..], idx, body)
    {
      ghost var b := buf[..];
      var nc, top := Get16(1), Get16(7);
      if top - (HEADER + SLOT * nc) < |body| + SLOT {
        return false;
      }
      top := PlaceBody(body);
      ghost var m := buf[..];
      ShiftUp(idx, nc);
      AddPointer(b, m, idx, nc, body, top);
      ok := true;
    }

    /** The last two stores of `insertCellAt`: the pointer of the new cell and the count. */
    method AddPointer(ghost b: Bytes, ghost m: Bytes, idx: nat, nc: nat, ghost body: Bytes, top: nat)
      requires ValidPage(b) && idx <= nc == CellCount(b) && HEADER + SLOT * (nc + 1) <= top
      requires Placed(b, m, body, top) && Shifted(m, buf[..], idx, nc)
      modifies buf
      ensures Inserted(b, buf[..], idx, body)
    {
      ghost var w := buf[..];
      Set16(HEADER + SLOT * idx, top);
      Set16(1, nc + 1);
      InsertDone(b, m, w, buf[..], idx, body, top);
    }

    /** Copy the body below the content area and lower the content top. */
    method PlaceBody(body: Bytes) returns (top: nat)
      requires Valid() && HEADER + |body| <= ContentTop(buf[..])
      modifies buf
      ensures Placed(old(buf[..]), buf[..], body, top)
    {
      top := Get16(7) - |body|;
      forall x | 0 <= x < |body| {
        buf[top + x] := body[x];
      }
      ghost var b, m := old(buf[..]), buf[..];
      assert m[top..top + |body|] == body;
      assert forall x :: 0 <= x < PAGE_SIZE && !(top <= x < top + |body|) ==> m[x] == b[x];
      Set16(7, top);
      TopSet(b, m, buf[..], body, top);
    }

    /** The loop of `insertCellAt`: pointers from idx on move one place up. */
    method ShiftUp(idx: nat, nc: nat)
      requires idx <= nc && HEADER + SLOT * (nc + 1) <= buf.Length
      modifies buf
      ensures Shifted(old(buf[..]), buf[..], idx, nc)
    {
      ghost var b := buf[..];
      var i := nc;
      while i > idx
        invariant idx <= i <= nc && Shifted(b, buf[..], i, nc)
      {
        ghost var m := buf[..];
        var p := Get16(HEADER + SLOT * (i - 1));
        assert p == Pointer(m, i - 1);
        Set16(HEADER + SLOT * i, p);
        PointerSet(m, buf[..], i, p);
        i := i - 1;
      }
    }

    /** `removeCellAt`. */
    method RemoveCellAt(idx: nat)
      requires Valid() && idx < CellCount(buf[..])
      modifies buf
      ensures Removed(old(buf[..]), buf[..], idx)
    {
      ghost var b := buf[..];
      var nc := Get16(1);
      var i := idx;
      while i < nc - 1
        invariant idx <= i <= nc - 1
        invariant forall j :: idx <= j < i ==> Pointer(buf[..], j) == Pointer(b, j + 1)
        invariant forall j :: 0 <= j < idx || i <= j < nc ==> Pointer(buf[..], j) == Pointer(b, j)
        invariant forall x :: 0 <= x < buf.Length && !(HEADER <= x < HEADER + SLOT * nc) ==> buf[x] == b[x]
      {
        ghost var m := buf[..];
        var p := Get16(HEADER + SLOT * (i + 1));
        assert p == Pointer(m, i + 1);
        Set16(HEADER + SLOT * i, p);
        PointerSet(m, buf[..], i, p);
        i := i + 1;
      }
      ghost var m := buf[..];
      Set16(1, nc - 1);
      RemoveDone(b, m, buf[..], idx);
    }
  }

  /** Storing pointer i leaves the others and everything outside it. */
  lemma {:induction false} PointerSet(b: Bytes, c: Bytes, i: nat, p: nat)
    requires HEADER + SLOT * i + 2 <= |b| && p < TWO16
    requires c == b[..HEADER + SLOT * i] + U16Bytes(p) + b[HEADER + SLOT * i + 2..]
    ensures |c| == |b| && Pointer(c, i) == p
    ensures forall j :: 0 <= j && j != i && HEADER + SLOT * j + 2 <= |b| ==> Pointer(c, j) == Pointer(b, j)
    ensures forall x :: 0 <= x < |b| && !(HEADER + SLOT * i <= x < HEADER + SLOT * i + 2) ==> c[x] == b[x]
  {
    var at := HEADER + SLOT * i;
    U16At(c, at, U16Bytes(p), 0);
    forall j: nat | j != i && HEADER + SLOT * j + 2 <= |b| ensures Pointer(c, j) == Pointer(b, j) {
      U16At(c, HEADER + SLOT * j, b, HEADER + SLOT * j);
    }
  }

  /** The body lies below the content area and the content top is lowered; nothing else has changed. */
  ghost predicate Placed(b: Bytes, m: Bytes, body: Bytes, top: nat) {
    && |m| == |b| == PAGE_SIZE && top + |body| == ContentTop(b) <= PAGE_SIZE
    && U16(m, 7) == top && m[top..top + |body|] == body
    && (forall x :: 0 <= x < PAGE_SIZE && !(7 <= x < 9) && !(top <= x < top + |body|) ==> m[x] == b[x])
  }

  lemma {:induction false} TopSet(b: Bytes, m: Bytes, c: Bytes, body: Bytes, top: nat)
    requires |m| == |b| == PAGE_SIZE && HEADER <= top && top + |body| == ContentTop(b) <= PAGE_SIZE && top < TWO16
    requires m[top..top + |body|] == body
    requires forall x :: 0 <= x < PAGE_SIZE && !(top <= x < top + |body|) ==> m[x] == b[x]
    requires c == m[..7] + U16Bytes(top) + m[9..]
    ensures Placed(b, c, body, top)
  {
    U16At(c, 7, U16Bytes(top), 0);
    assert c[top..top + |body|] == m[top..top + |body|];
  }

  /** The pointers from idx on have moved one place up. */
  ghost predicate Shifted(m: Bytes, w: Bytes, idx: nat, nc: nat) {
    && |w| == |m| && HEADER + SLOT * (nc + 1) <= |m|
    && (forall j :: idx < j <= nc ==> Pointer(w, j) == Pointer(m, j - 1))
    && (forall j :: 0 <= j <= idx <= nc ==> Pointer(w, j) == Pointer(m, j))
    && (forall x :: 0 <= x < |m| && !(HEADER <= x < HEADER + SLOT * (nc + 1)) ==> w[x] == m[x])
  }

  /** The buffer once the body, the shifted pointers, the new pointer and the count are in. */
  lemma {:induction false} InsertDone(b: Bytes, m: Bytes, w: Bytes, c: Bytes, idx: nat, body: Bytes, top: nat)
    requires ValidPage(b) && idx <= CellCount(b) && HEADER + SLOT * (CellCount(b) + 1) <= top
    requires Placed(b, m, body, top) && Shifted(m, w, idx, CellCount(b))
    requires var v := w[..HEADER + SLOT * idx] + U16Bytes(top) + w[HEADER + SLOT * idx + 2..];
             c == v[..1] + U16Bytes(CellCount(b) + 1) + v[3..]
    ensures Inserted(b, c, idx, body)
  {
    var nc := CellCount(b);
    var v := w[..HEADER + SLOT * idx] + U16Bytes(top) + w[HEADER + SLOT * idx + 2..];
    PointerSet(w, v, idx, top);
    CountSet(v, c, nc + 1);
    InsertHeader(b, m, c, body, top);
    forall j | 0 <= j < nc ensures Pointer(m, j) == Pointer(b, j) {
      U16At(m, HEADER + SLOT * j, b, HEADER + SLOT * j);
    }
    forall j | 0 <= j < idx ensures Offset(c, j) == Offset(b, j) {
      assert Offset(c, j) == Pointer(c, j) == Pointer(v, j) == Pointer(b, j);
    }
    assert Offset(c, idx) == Pointer(c, idx) == Pointer(v, idx);
    forall j | idx < j <= nc ensures Offset(c, j) == Offset(b, j - 1) {
      assert Offset(c, j) == Pointer(c, j) == Pointer(v, j) == Pointer(m, j - 1);
    }
  }

  lemma {:induction false} InsertHeader(b: Bytes, m: Bytes, c: Bytes, body: Bytes, top: nat)
    requires ValidPage(b) && |m| == |c| == PAGE_SIZE && CellCount(c) == CellCount(b) + 1
    requires top + |body| == ContentTop(b) && HEADER + SLOT * (CellCount(b) + 1) <= top
    requires U16(m, 7) == top && m[top..top + |body|] == body
    requires forall x :: 0 <= x < PAGE_SIZE && !(7 <= x < 9) && !(top <= x < top + |body|) ==> m[x] == b[x]
    requires forall x :: 0 <= x < PAGE_SIZE && !(1 <= x < 3) && !(HEADER <= x < HEADER + SLOT * (CellCount(b) + 1)) ==>
             c[x] == m[x]
    ensures Framed(c) && c[0] == b[0] && Sibling(c) == Sibling(b) && ContentTop(c) == top
    ensures c[top..ContentTop(b)] == body
    ensures forall x :: ContentTop(b) <= x < PAGE_SIZE ==> c[x] == b[x]
  {
    U16At(c, 3, b, 3);
    U16At(c, 5, b, 5);
    U16At(c, 7, m, 7);
    assert c[top..top + |body|] == m[top..top + |body|];
  }

  /** Storing the cell count leaves everything else. */
  lemma {:induction false} CountSet(v: Bytes, c: Bytes, n: nat)
    requires |v| == PAGE_SIZE && n < TWO16 && c == v[..1] + U16Bytes(n) + v[3..]
    ensures |c| == PAGE_SIZE && CellCount(c) == n
    ensures forall x :: 0 <= x < PAGE_SIZE && !(1 <= x < 3) ==> c[x] == v[x]
    ensures forall j :: 0 <= j && HEADER + SLOT * j + 2 <= PAGE_SIZE ==> Pointer(c, j) == Pointer(v, j)
  {
    U16At(c, 1, U16Bytes(n), 0);
    forall j: nat | HEADER + SLOT * j + 2 <= PAGE_SIZE ensures Pointer(c, j) == Pointer(v, j) {
      U16At(c, HEADER + SLOT * j, v, HEADER + SLOT * j);
    }
  }

  lemma {:induction false} RemoveDone(b: Bytes, m: Bytes, c: Bytes, idx: nat)
    requires ValidPage(b) && idx < CellCount(b) && |m| == PAGE_SIZE
    requires forall j :: idx <= j < CellCount(b) - 1 ==> Pointer(m, j) == Pointer(b, j + 1)
    requires forall j :: 0 <= j < idx ==> Pointer(m, j) == Pointer(b, j)
    requires forall x :: 0 <= x < PAGE_SIZE && !(HEADER <= x < HEADER + SLOT * CellCount(b)) ==> m[x] == b[x]
    requires c == m[..1] + U16Bytes(CellCount(b) - 1) + m[3..]
    ensures Removed(b, c, idx)
  {
    CountSet(m, c, CellCount(b) - 1);
    U16At(c, 3, b, 3);
    U16At(c, 5, b, 5);
    U16At(c, 7, b, 7);
    forall j | 0 <= j < CellCount(c) ensures Offset(c, j) == Offset(b, if j < idx then j else j + 1) {
      assert Offset(c, j) == Pointer(c, j) == Pointer(m, j);
      assert Offset(b, if j < idx then j else j + 1) == Pointer(b, if j < idx then j else j + 1);
    }
  }

  lemma {:induction false} LeafCellAt(b: Bytes, i: nat)
    requires ValidPage(b) && b[0] == LEAF && i < CellCount(b)
    ensures CellInside(b, i)
    ensures var off := Offset(b, i);
            var klen, vlen := U16(b, off), U16(b, off + 2);
            View(b).entries.cells[i] == Cell(b[off + 4..off + 4 + klen], b[off + 4 + klen..off + 4 + klen + vlen])
  {
    BodiesAreBodies(b);
    var off, s := Offset(b, i), Body(b, i);
    U16At(s, 0, b, off);
    U16At(s, 2, b, off + 2);
    var n := U16(b, off);
    SliceOfSlice(b, off, |s|, 4, 4 + n);
    SliceOfSlice(b, off, |s|, 4 + n, |s|);
  }

  lemma {:induction false} SliceOfSlice(b: Bytes, off: nat, size: nat, lo: nat, hi: nat)
    requires off + size <= |b| && lo <= hi <= size
    ensures b[off..off + size][lo..hi] == b[off + lo..off + hi]
  {
    var s, x, y := b[off..off + size], b[off..off + size][lo..hi], b[off + lo..off + hi];
    forall i | 0 <= i < hi - lo ensures x[i] == y[i] {
      assert x[i] == s[lo + i] == b[off + lo + i] == y[i];
    }
  }

  lemma {:induction false} LinkAt(b: Bytes, i: nat)
    requires ValidPage(b) && b[0] == INTERNAL && i < CellCount(b)
    ensures CellInside(b, i)
    ensures var off := Offset(b, i);
            View(b).links.cells[i] == Cell(b[off + 6..off + 6 + U16(b, off)], U32(b, off + 2))
  {
    BodiesAreBodies(b);
    var off, s := Offset(b, i), Body(b, i);
    U16At(s, 2, b, off + 2);
    U16At(s, 4, b, off + 4);
  }
}
