/** The 4096-byte page layout: header, sorted cell pointer array growing up, cell
    bodies growing down from the end. */
module SlottedPage {
  import opened Bytes
  import opened Entries
  import opened Pages

  const LEAF: byte := 1
  const INTERNAL: byte := 2

  // ---- cell bodies ---------------------------------------------------------

  /** `leafCellBody`. */
  function EntryBody(e: Entry): (b: Bytes)
    ensures |b| == EntrySize(e)
  {
    U16Bytes(|e.key|) + U16Bytes(|e.val|) + e.key + e.val
  }

  /** `internalCellBody`. */
  function LinkBody(l: Link): (b: Bytes)
    ensures |b| == LinkSize(l)
  {
    U16Bytes(|l.key|) + U32Bytes(l.val) + l.key
  }

  function HeadSize(kind: byte): nat { if kind == LEAF then 4 else 6 }

  /** The length of the body at `at`, from its length fields. */
  function BodySize(b: Bytes, kind: byte, at: nat): nat
    requires at + HeadSize(kind) <= |b|
  {
    if kind == LEAF then 4 + U16(b, at) + U16(b, at + 2) else 6 + U16(b, at)
  }

  predicate IsBody(kind: byte, b: Bytes) {
    HeadSize(kind) <= |b| && BodySize(b, kind, 0) == |b|
  }

  /** `leafKV` and `internalKC` on a body. */
  function EntryOf(b: Bytes): Entry
    requires IsBody(LEAF, b)
  {
    var n := U16(b, 0);
    Cell(b[4..4 + n], b[4 + n..])
  }

  function LinkOf(b: Bytes): Link
    requires IsBody(INTERNAL, b)
  {
    Cell(b[6..], U32(b, 2))
  }

  /** Bodies round-trip as long as lengths fit 16 bits and page ids 32 bits. */
  lemma {:induction false} EntryRoundTrip(e: Entry)
    requires |e.key| < TWO16 && |e.val| < TWO16
    ensures IsBody(LEAF, EntryBody(e)) && EntryOf(EntryBody(e)) == e
  {
    var b := EntryBody(e);
    U16At(b, 0, U16Bytes(|e.key|), 0);
    U16At(b, 2, U16Bytes(|e.val|), 0);
  }

  lemma {:induction false} LinkRoundTrip(l: Link)
    requires |l.key| < TWO16 && l.val < TWO32
    ensures IsBody(INTERNAL, LinkBody(l)) && LinkOf(LinkBody(l)) == l
  {
    var b := LinkBody(l);
    U16At(b, 0, U16Bytes(|l.key|), 0);
    assert b[2..6] == U32Bytes(l.val);
    U32Slice(b, 2);
  }

  // ---- the page ------------------------------------------------------------

  function CellCount(b: Bytes): nat
    requires |b| == PAGE_SIZE
  {
    U16(b, 1)
  }

  function Sibling(b: Bytes): nat
    requires |b| == PAGE_SIZE
  {
    U32(b, 3)
  }

  function ContentTop(b: Bytes): nat
    requires |b| == PAGE_SIZE
  {
    U16(b, 7)
  }

  /** The pointer array lies below the cell content, within the page. */
  predicate Framed(b: Bytes) {
    && |b| == PAGE_SIZE
    && (b[0] == LEAF || b[0] == INTERNAL)
    && HEADER + SLOT * CellCount(b) <= ContentTop(b) <= PAGE_SIZE
  }

  function Offset(b: Bytes, i: nat): nat
    requires Framed(b) && i < CellCount(b)
  {
    U16(b, HEADER + SLOT * i)
  }

  /** Cell i has its whole body in the content area. */
  predicate CellInside(b: Bytes, i: nat)
    requires Framed(b) && i < CellCount(b)
  {
    var at := Offset(b, i);
    ContentTop(b) <= at && at + HeadSize(b[0]) <= PAGE_SIZE && at + BodySize(b, b[0], at) <= PAGE_SIZE
  }

  function CellEnd(b: Bytes, i: nat): nat
    requires Framed(b) && i < CellCount(b) && CellInside(b, i)
  {
    Offset(b, i) + BodySize(b, b[0], Offset(b, i))
  }

  function Body(b: Bytes, i: nat): Bytes
    requires Framed(b) && i < CellCount(b) && CellInside(b, i)
  {
    b[Offset(b, i)..CellEnd(b, i)]
  }

  ghost predicate Apart(b: Bytes, i: nat, j: nat)
    requires Framed(b) && i < CellCount(b) && j < CellCount(b) && CellInside(b, i) && CellInside(b, j)
  {
    CellEnd(b, i) <= Offset(b, j) || CellEnd(b, j) <= Offset(b, i)
  }

  /** A well-formed page: live bodies lie in the content area and do not overlap. */
  ghost predicate ValidPage(b: Bytes) {
    && Framed(b)
    && (forall i :: 0 <= i < CellCount(b) ==> CellInside(b, i))
    && (forall i, j :: 0 <= i < j < CellCount(b) ==> Apart(b, i, j))
  }

  ghost function Bodies(b: Bytes): (s: seq<Bytes>)
    requires ValidPage(b)
    ensures |s| == CellCount(b)
  {
    seq(CellCount(b), i requires 0 <= i < CellCount(b) => Body(b, i))
  }

  lemma {:induction false} BodyIsBody(b: Bytes, i: nat)
    requires ValidPage(b) && i < CellCount(b)
    ensures IsBody(b[0], Body(b, i))
  {
    var at, s := Offset(b, i), Body(b, i);
    U16At(s, 0, b, at);
    if b[0] == LEAF {
      U16At(s, 2, b, at + 2);
    }
  }

  function EntriesIn(s: seq<Bytes>): (c: seq<Entry>)
    requires forall i :: 0 <= i < |s| ==> IsBody(LEAF, s[i])
    ensures |c| == |s|
  {
    seq(|s|, i requires 0 <= i < |s| => EntryOf(s[i]))
  }

  function LinksIn(s: seq<Bytes>): (c: seq<Link>)
    requires forall i :: 0 <= i < |s| ==> IsBody(INTERNAL, s[i])
    ensures |c| == |s|
  {
    seq(|s|, i requires 0 <= i < |s| => LinkOf(s[i]))
  }

  /** The page that a buffer denotes. */
  ghost function View(b: Bytes): Page
    requires ValidPage(b)
  {
    BodiesAreBodies(b);
    if b[0] == LEAF then LeafPage(Slots(EntriesIn(Bodies(b)), ContentTop(b)), Sibling(b))
    else InternalPage(Slots(LinksIn(Bodies(b)), ContentTop(b)), Sibling(b))
  }

  lemma {:induction false} BodiesAreBodies(b: Bytes)
    requires ValidPage(b)
    ensures forall i :: 0 <= i < CellCount(b) ==> IsBody(b[0], Bodies(b)[i])
  {
    forall i | 0 <= i < CellCount(b) ensures IsBody(b[0], Bodies(b)[i]) {
      BodyIsBody(b, i);
    }
  }

  // ---- how changed bytes change the page -----------------------------------

  /** Cell j of c is cell i of b, moved in the pointer array but not in the content area. */
  lemma {:induction false} SameCell(b: Bytes, i: nat, c: Bytes, j: nat)
    requires Framed(b) && Framed(c) && b[0] == c[0] && i < CellCount(b) && j < CellCount(c)
    requires CellInside(b, i) && Offset(c, j) == Offset(b, i) && ContentTop(c) <= ContentTop(b)
    requires forall x :: Offset(b, i) <= x < CellEnd(b, i) ==> b[x] == c[x]
    ensures CellInside(c, j) && CellEnd(c, j) == CellEnd(b, i) && Body(c, j) == Body(b, i)
  {
    var at := Offset(b, i);
    U16At(b, at, c, at);
    if b[0] == LEAF {
      U16At(b, at + 2, c, at + 2);
    }
  }

  /** The effect of `insertCellAt` on the buffer: body below the old content, pointer shifted in. */
  ghost predicate Inserted(b: Bytes, c: Bytes, idx: nat, body: Bytes)
    requires Framed(b) && idx <= CellCount(b)
  {
    && Framed(c) && c[0] == b[0] && Sibling(c) == Sibling(b)
    && CellCount(c) == CellCount(b) + 1
    && ContentTop(c) + |body| == ContentTop(b)
    && c[ContentTop(c)..ContentTop(b)] == body
    && (forall x :: ContentTop(b) <= x < PAGE_SIZE ==> c[x] == b[x])
    && (forall j :: 0 <= j < idx ==> Offset(c, j) == Offset(b, j))
    && Offset(c, idx) == ContentTop(c)
    && (forall j :: idx < j < CellCount(c) ==> Offset(c, j) == Offset(b, j - 1))
  }

  lemma {:induction false} InsertedCell(b: Bytes, c: Bytes, idx: nat, body: Bytes)
    requires ValidPage(b) && idx <= CellCount(b) && Inserted(b, c, idx, body) && IsBody(b[0], body)
    ensures CellInside(c, idx) && Body(c, idx) == body && CellEnd(c, idx) == ContentTop(b)
  {
    var at := ContentTop(c);
    assert forall x :: 0 <= x < |body| ==> c[at + x] == body[x];
    U16At(body, 0, c, at);
    if b[0] == LEAF {
      U16At(body, 2, c, at + 2);
    }
  }

  lemma {:induction false} InsertedOthers(b: Bytes, c: Bytes, idx: nat, body: Bytes, j: nat)
    requires ValidPage(b) && idx <= CellCount(b) && Inserted(b, c, idx, body)
    requires j < CellCount(c) && j != idx
    ensures var i := if j < idx then j else j - 1;
            CellInside(c, j) && Offset(c, j) == Offset(b, i) && CellEnd(c, j) == CellEnd(b, i)
              && Body(c, j) == Body(b, i)
  {
    var i := if j < idx then j else j - 1;
    assert CellInside(b, i);
    SameCell(b, i, c, j);
  }

  lemma {:induction false} InsertedApart(b: Bytes, c: Bytes, idx: nat, body: Bytes, i: nat, j: nat)
    requires ValidPage(b) && idx <= CellCount(b) && Inserted(b, c, idx, body) && IsBody(b[0], body)
    requires i < j < CellCount(c)
    ensures CellInside(c, i) && CellInside(c, j) && Apart(c, i, j)
  {
    InsertedCell(b, c, idx, body);
    if i == idx {
      InsertedOthers(b, c, idx, body, j);
      assert CellInside(b, j - 1);
    } else if j == idx {
      InsertedOthers(b, c, idx, body, i);
      assert CellInside(b, i);
    } else {
      InsertedOthers(b, c, idx, body, i);
      InsertedOthers(b, c, idx, body, j);
      assert Apart(b, if i < idx then i else i - 1, if j < idx then j else j - 1);
    }
  }

  lemma {:induction false} InsertedValid(b: Bytes, c: Bytes, idx: nat, body: Bytes)
    requires ValidPage(b) && idx <= CellCount(b) && Inserted(b, c, idx, body) && IsBody(b[0], body)
    ensures ValidPage(c)
    ensures Bodies(c) == InsertedAt(Bodies(b), idx, body)
  {
    forall j | 0 <= j < CellCount(c)
      ensures CellInside(c, j) && Body(c, j) == InsertedAt(Bodies(b), idx, body)[j]
    {
      if j == idx {
        InsertedCell(b, c, idx, body);
      } else {
        InsertedOthers(b, c, idx, body, j);
      }
    }
    forall i, j | 0 <= i < j < CellCount(c) ensures Apart(c, i, j) {
      InsertedApart(b, c, idx, body, i, j);
    }
  }

  /** The effect of `removeCellAt`: only the pointer array and the count change. */
  ghost predicate Removed(b: Bytes, c: Bytes, idx: nat)
    requires Framed(b) && idx < CellCount(b)
  {
    && Framed(c) && c[0] == b[0] && Sibling(c) == Sibling(b)
    && CellCount(c) == CellCount(b) - 1
    && ContentTop(c) == ContentTop(b)
    && (forall x :: ContentTop(b) <= x < PAGE_SIZE ==> c[x] == b[x])
    && (forall j :: 0 <= j < CellCount(c) ==> Offset(c, j) == Offset(b, if j < idx then j else j + 1))
  }

  lemma {:induction false} RemovedCell(b: Bytes, c: Bytes, idx: nat, j: nat)
    requires ValidPage(b) && idx < CellCount(b) && Removed(b, c, idx) && j < CellCount(c)
    ensures var i := if j < idx then j else j + 1;
            CellInside(c, j) && Offset(c, j) == Offset(b, i) && CellEnd(c, j) == CellEnd(b, i)
              && Body(c, j) == Body(b, i)
  {
    var i := if j < idx then j else j + 1;
    assert CellInside(b, i);
    SameCell(b, i, c, j);
  }

  lemma {:induction false} RemovedApart(b: Bytes, c: Bytes, idx: nat, i: nat, j: nat)
    requires ValidPage(b) && idx < CellCount(b) && Removed(b, c, idx) && i < j < CellCount(c)
    ensures CellInside(c, i) && CellInside(c, j) && Apart(c, i, j)
  {
    RemovedCell(b, c, idx, i);
    RemovedCell(b, c, idx, j);
    assert Apart(b, if i < idx then i else i + 1, if j < idx then j else j + 1);
  }

  lemma {:induction false} RemovedValid(b: Bytes, c: Bytes, idx: nat)
    requires ValidPage(b) && idx < CellCount(b) && Removed(b, c, idx)
    ensures ValidPage(c)
    ensures Bodies(c) == Bodies(b)[..idx] + Bodies(b)[idx + 1..]
  {
    forall j | 0 <= j < CellCount(c) ensures CellInside(c, j)
      && Body(c, j) == (Bodies(b)[..idx] + Bodies(b)[idx + 1..])[j]
    {
      RemovedCell(b, c, idx, j);
    }
    forall i, j | 0 <= i < j < CellCount(c) ensures Apart(c, i, j) {
      RemovedApart(b, c, idx, i, j);
    }
  }

  /** The effect of `rewriteChildAt`: four bytes inside the body of cell idx. */
  ghost predicate Rewritten(b: Bytes, c: Bytes, idx: nat, child: nat)
    requires Framed(b) && idx < CellCount(b) && CellInside(b, idx) && b[0] == INTERNAL
  {
    && |c| == PAGE_SIZE
    && c[Offset(b, idx) + 2..Offset(b, idx) + 6] == U32Bytes(child)
    && forall x :: 0 <= x < PAGE_SIZE && !(Offset(b, idx) + 2 <= x < Offset(b, idx) + 6) ==> c[x] == b[x]
  }

  lemma {:induction false} RewrittenFrame(b: Bytes, c: Bytes, idx: nat, child: nat)
    requires ValidPage(b) && idx < CellCount(b) && b[0] == INTERNAL && Rewritten(b, c, idx, child)
    ensures Framed(c) && CellCount(c) == CellCount(b) && ContentTop(c) == ContentTop(b) && Sibling(c) == Sibling(b)
            && c[0] == b[0]
    ensures forall j :: 0 <= j < CellCount(b) ==> Offset(c, j) == Offset(b, j)
  {
    assert CellInside(b, idx);
    U16At(b, 1, c, 1);
    U16At(b, 3, c, 3);
    U16At(b, 5, c, 5);
    U16At(b, 7, c, 7);
    forall j | 0 <= j < CellCount(b) ensures Offset(c, j) == Offset(b, j) {
      U16At(b, HEADER + SLOT * j, c, HEADER + SLOT * j);
    }
  }

  lemma {:induction false} RewrittenCell(b: Bytes, c: Bytes, idx: nat, child: nat, j: nat)
    requires ValidPage(b) && idx < CellCount(b) && b[0] == INTERNAL && Rewritten(b, c, idx, child) && j < CellCount(b)
    requires Framed(c) && CellCount(c) == CellCount(b) && ContentTop(c) == ContentTop(b) && c[0] == b[0]
             && Offset(c, j) == Offset(b, j)
    ensures CellInside(c, j) && CellEnd(c, j) == CellEnd(b, j)
    ensures j != idx ==> Body(c, j) == Body(b, j)
    ensures j == idx ==> Body(c, j) == Body(b, j)[..2] + U32Bytes(child) + Body(b, j)[6..]
  {
    assert CellInside(b, j) && CellInside(b, idx);
    if j != idx {
      assert Apart(b, if j < idx then j else idx, if j < idx then idx else j);
      SameCell(b, j, c, j);
    } else {
      U16At(b, Offset(b, j), c, Offset(b, j));
    }
  }

  lemma {:induction false} RewrittenValid(b: Bytes, c: Bytes, idx: nat, child: nat)
    requires ValidPage(b) && idx < CellCount(b) && b[0] == INTERNAL && Rewritten(b, c, idx, child)
    ensures ValidPage(c) && CellCount(c) == CellCount(b)
    ensures var x := Bodies(b)[idx];
            |x| >= 6 && Bodies(c) == Bodies(b)[idx := x[..2] + U32Bytes(child) + x[6..]]
  {
    RewrittenFrame(b, c, idx, child);
    forall j | 0 <= j < CellCount(b)
      ensures CellInside(c, j) && CellEnd(c, j) == CellEnd(b, j)
      ensures j != idx ==> Body(c, j) == Body(b, j)
      ensures j == idx ==> Body(c, j) == Body(b, j)[..2] + U32Bytes(child) + Body(b, j)[6..]
    {
      RewrittenCell(b, c, idx, child, j);
    }
    forall i, j | 0 <= i < j < CellCount(c) ensures Apart(c, i, j) {
      assert Apart(b, i, j);
    }
    assert CellInside(b, idx);
  }

  /** The effect of `setSibling`. */
  ghost predicate Resibling(b: Bytes, c: Bytes, id: nat)
    requires |b| == PAGE_SIZE
  {
    |c| == PAGE_SIZE && c[3..7] == U32Bytes(id) && forall x :: 0 <= x < PAGE_SIZE && !(3 <= x < 7) ==> c[x] == b[x]
  }

  lemma {:induction false} ResiblingValid(b: Bytes, c: Bytes, id: nat)
    requires ValidPage(b) && Resibling(b, c, id)
    ensures ValidPage(c) && Bodies(c) == Bodies(b) && c[0] == b[0] && ContentTop(c) == ContentTop(b)
            && Sibling(c) == id % TWO32
  {
    U16At(b, 1, c, 1);
    U16At(b, 7, c, 7);
    U32Slice(c, 3);
    forall j | 0 <= j < CellCount(b)
      ensures CellInside(c, j) && Offset(c, j) == Offset(b, j) && CellEnd(c, j) == CellEnd(b, j)
              && Body(c, j) == Body(b, j)
    {
      U16At(b, HEADER + SLOT * j, c, HEADER + SLOT * j);
      assert CellInside(b, j);
      SameCell(b, j, c, j);
    }
    forall i, j | 0 <= i < j < CellCount(c) ensures Apart(c, i, j) {
      assert Apart(b, i, j);
    }
  }

  // ---- the same in terms of cells ------------------------------------------

  lemma {:induction false} EntriesInserted(s: seq<Bytes>, idx: nat, body: Bytes)
    requires (forall i :: 0 <= i < |s| ==> IsBody(LEAF, s[i])) && idx <= |s| && IsBody(LEAF, body)
    ensures var t := InsertedAt(s, idx, body);
            (forall i :: 0 <= i < |t| ==> IsBody(LEAF, t[i]))
              && EntriesIn(t) == InsertedAt(EntriesIn(s), idx, EntryOf(body))
  {
  }

  lemma {:induction false} LinksInserted(s: seq<Bytes>, idx: nat, body: Bytes)
    requires (forall i :: 0 <= i < |s| ==> IsBody(INTERNAL, s[i])) && idx <= |s| && IsBody(INTERNAL, body)
    ensures var t := InsertedAt(s, idx, body);
            (forall i :: 0 <= i < |t| ==> IsBody(INTERNAL, t[i]))
              && LinksIn(t) == InsertedAt(LinksIn(s), idx, LinkOf(body))
  {
  }

  lemma {:induction false} LinksRewritten(s: seq<Bytes>, idx: nat, child: nat)
    requires (forall i :: 0 <= i < |s| ==> IsBody(INTERNAL, s[i])) && idx < |s| && child < TWO32
    ensures |s[idx]| >= 6
    ensures var t := s[idx := s[idx][..2] + U32Bytes(child) + s[idx][6..]];
            (forall i :: 0 <= i < |t| ==> IsBody(INTERNAL, t[i]))
              && LinksIn(t) == LinksIn(s)[idx := LinkOf(s[idx]).(val := child)]
  {
    var x := s[idx];
    var y := x[..2] + U32Bytes(child) + x[6..];
    U16At(y, 0, x, 0);
    assert y[2..6] == U32Bytes(child);
    U32Slice(y, 2);
    assert y[6..] == x[6..];
  }

  lemma {:induction false} InsertedLeafView(b: Bytes, c: Bytes, idx: nat, e: Entry)
    requires ValidPage(b) && b[0] == LEAF && idx <= CellCount(b) && Inserted(b, c, idx, EntryBody(e))
    requires |e.key| < TWO16 && |e.val| < TWO16
    ensures ValidPage(c) && View(b).LeafPage? && idx <= |View(b).entries.cells| && Fits(View(b).entries, EntrySize(e))
    ensures View(c) == LeafPage(InsertAt(View(b).entries, idx, e, EntrySize(e)), View(b).next)
  {
    EntryRoundTrip(e);
    InsertedValid(b, c, idx, EntryBody(e));
    BodiesAreBodies(b);
    EntriesInserted(Bodies(b), idx, EntryBody(e));
  }

  lemma {:induction false} InsertedInternalView(b: Bytes, c: Bytes, idx: nat, l: Link)
    requires ValidPage(b) && b[0] == INTERNAL && idx <= CellCount(b) && Inserted(b, c, idx, LinkBody(l))
    requires |l.key| < TWO16 && l.val < TWO32
    ensures ValidPage(c) && View(b).InternalPage? && idx <= |View(b).links.cells| && Fits(View(b).links, LinkSize(l))
    ensures View(c) == InternalPage(InsertAt(View(b).links, idx, l, LinkSize(l)), View(b).right)
  {
    LinkRoundTrip(l);
    InsertedValid(b, c, idx, LinkBody(l));
    BodiesAreBodies(b);
    LinksInserted(Bodies(b), idx, LinkBody(l));
  }

  lemma {:induction false} RemovedView(b: Bytes, c: Bytes, idx: nat)
    requires ValidPage(b) && b[0] == LEAF && idx < CellCount(b) && Removed(b, c, idx)
    ensures ValidPage(c) && View(b).LeafPage? && idx < |View(b).entries.cells|
    ensures View(c) == LeafPage(RemoveAt(View(b).entries, idx), View(b).next)
  {
    RemovedValid(b, c, idx);
    BodiesAreBodies(b);
    BodiesAreBodies(c);
  }

  lemma {:induction false} RewrittenView(b: Bytes, c: Bytes, idx: nat, child: nat)
    requires ValidPage(b) && b[0] == INTERNAL && idx < CellCount(b) && Rewritten(b, c, idx, child) && child < TWO32
    ensures ValidPage(c) && View(b).InternalPage? && idx < |View(b).links.cells|
    ensures var s := View(b).links;
            View(c) == InternalPage(Slots(s.cells[idx := s.cells[idx].(val := child)], s.top), View(b).right)
  {
    RewrittenFrame(b, c, idx, child);
    RewrittenValid(b, c, idx, child);
    BodiesAreBodies(b);
    LinksRewritten(Bodies(b), idx, child);
  }

  lemma {:induction false} ResiblingView(b: Bytes, c: Bytes, id: nat)
    requires ValidPage(b) && Resibling(b, c, id) && id < TWO32
    ensures ValidPage(c)
    ensures View(c) == if View(b).LeafPage? then LeafPage(View(b).entries, id) else InternalPage(View(b).links, id)
  {
    ResiblingValid(b, c, id);
    BodiesAreBodies(b);
    BodiesAreBodies(c);
  }

  /** The buffer of `newNodeBuf`. */
  ghost predicate FreshBuffer(b: Bytes, kind: byte) {
    && |b| == PAGE_SIZE && b[0] == kind
    && U16(b, 1) == 0 && U32(b, 3) == 0 && U16(b, 7) == PAGE_SIZE
  }

  lemma {:induction false} FreshView(b: Bytes, kind: byte)
    requires FreshBuffer(b, kind) && (kind == LEAF || kind == INTERNAL)
    ensures ValidPage(b)
    ensures View(b) == if kind == LEAF then LeafPage(EmptySlots(), 0) else InternalPage(EmptySlots(), 0)
  {
    BodiesAreBodies(b);
  }
}
