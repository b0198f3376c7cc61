/** Slotted pages as values: a sequence of cells, the top of the cell content
    area, and the sibling pointer. `SlottedPage` shows the 4096-byte layout
    refines these operations. */
module Pages {
  import opened Bytes
  import opened Entries

  type PageID = nat
  type Link = Cell<PageID>

  const PAGE_SIZE: nat := 4096
  /** Offset of the cell pointer array, `cellPtrArrayAt`. */
  const HEADER: nat := 9
  const SLOT: nat := 2
  const CAPACITY: nat := PAGE_SIZE - HEADER
  /** `maxKeyValue`. */
  const MAX_KEY_VALUE: nat := PAGE_SIZE / 4 - 16

  function EntrySize(e: Entry): nat { 4 + |e.key| + |e.val| }
  function LinkSize(l: Link): nat { 6 + |l.key| }

  datatype Slots<V> = Slots(cells: seq<Cell<V>>, top: nat)

  datatype Page =
    | LeafPage(entries: Slots<Bytes>, next: PageID)
    | InternalPage(links: Slots<PageID>, right: PageID)

  // ---- one page ------------------------------------------------------------

  function EmptySlots<V>(): Slots<V> { Slots([], PAGE_SIZE) }

  /** `freeSpace`. */
  function Room<V>(s: Slots<V>): int { s.top - HEADER - SLOT * |s.cells| }

  predicate Fits<V>(s: Slots<V>, size: nat) { size + SLOT <= Room(s) }

  function InsertedAt<T>(s: seq<T>, i: nat, x: T): seq<T>
    requires i <= |s|
  {
    s[..i] + [x] + s[i..]
  }

  function InsertAt<V>(s: Slots<V>, i: nat, c: Cell<V>, size: nat): Slots<V>
    requires i <= |s.cells| && Fits(s, size)
  {
    Slots(InsertedAt(s.cells, i, c), s.top - size)
  }

  /** Dropping a cell gives back its pointer but not its body. */
  function RemoveAt<V>(s: Slots<V>, i: nat): Slots<V>
    requires i < |s.cells|
  {
    Slots(s.cells[..i] + s.cells[i + 1..], s.top)
  }

  /** Append the cells one by one and ignore the ones that do not fit, as the
      rebuild loops of both split functions do. */
  function Pack<V>(s: Slots<V>, cells: seq<Cell<V>>, size: Cell<V> -> nat): Slots<V>
    decreases |cells|
  {
    if |cells| == 0 then s
    else
      var c := cells[0];
      Pack(if Fits(s, size(c)) then InsertAt(s, |s.cells|, c, size(c)) else s, cells[1..], size)
  }

  /** Bytes that cells need on a page, pointers included. */
  function Footprint<V>(cells: seq<Cell<V>>, size: Cell<V> -> nat): nat {
    if |cells| == 0 then 0 else size(cells[0]) + SLOT + Footprint(cells[1..], size)
  }

  lemma {:induction false} FootprintAppend<V>(a: seq<Cell<V>>, b: seq<Cell<V>>, size: Cell<V> -> nat)
    ensures Footprint(a + b, size) == Footprint(a, size) + Footprint(b, size)
  {
    if |a| == 0 {
      assert a + b == b;
    } else {
      assert (a + b)[1..] == a[1..] + b;
      FootprintAppend(a[1..], b, size);
    }
  }

  /** Packing keeps every cell exactly when their footprint fits the free space;
      otherwise it loses some cell. */
  lemma {:induction false} PackKeepsAllIff<V>(s: Slots<V>, cells: seq<Cell<V>>, size: Cell<V> -> nat)
    ensures Footprint(cells, size) <= Room(s) ==>
              Pack(s, cells, size).cells == s.cells + cells &&
              Room(Pack(s, cells, size)) == Room(s) - Footprint(cells, size)
    ensures Room(s) >= 0 && Footprint(cells, size) > Room(s) ==> |Pack(s, cells, size).cells| < |s.cells| + |cells|
    decreases |cells|
  {
    if |cells| == 0 {
      assert s.cells + cells == s.cells;
    } else {
      var c := cells[0];
      PackLosesNothingExtra(s, cells[1..], size);
      if Fits(s, size(c)) {
        var s' := InsertAt(s, |s.cells|, c, size(c));
        PackKeepsAllIff(s', cells[1..], size);
        assert s'.cells + cells[1..] == s.cells + cells;
      }
    }
  }

  lemma {:induction false} PackSnoc<V>(s: Slots<V>, cells: seq<Cell<V>>, c: Cell<V>, size: Cell<V> -> nat)
    ensures var p := Pack(s, cells, size);
            Pack(s, cells + [c], size) == if Fits(p, size(c)) then InsertAt(p, |p.cells|, c, size(c)) else p
    decreases |cells|
  {
    if |cells| == 0 {
      assert cells + [c] == [c];
      assert [c][1..] == [];
    } else {
      var s' := if Fits(s, size(cells[0])) then InsertAt(s, |s.cells|, cells[0], size(cells[0])) else s;
      PackSnoc(s', cells[1..], c, size);
      assert (cells + [c])[1..] == cells[1..] + [c];
    }
  }

  /** Packing only ever keeps cells it was given, in order. */
  lemma {:induction false} PackLosesNothingExtra<V>(s: Slots<V>, cells: seq<Cell<V>>, size: Cell<V> -> nat)
    ensures |s.cells| <= |Pack(s, cells, size).cells| <= |s.cells| + |cells|
    ensures s.cells <= Pack(s, cells, size).cells
    ensures forall c :: c in Pack(s, cells, size).cells ==> c in s.cells || c in cells
    decreases |cells|
  {
    if |cells| != 0 {
      var c := cells[0];
      PackLosesNothingExtra(if Fits(s, size(c)) then InsertAt(s, |s.cells|, c, size(c)) else s, cells[1..], size);
    }
  }

  // ---- searching -----------------------------------------------------------

  datatype Position = Position(index: nat, exact: bool)

  /** `findIndex`: binary search, returning as soon as the key is hit. */
  function BinarySearch<V>(s: seq<Cell<V>>, k: Bytes, lo: nat, hi: nat): (p: Position)
    requires lo <= hi <= |s|
    ensures lo <= p.index <= hi
    ensures p.exact ==> p.index < hi && s[p.index].key == k
    decreases hi - lo
  {
    if lo == hi then Position(lo, false)
    else
      var mid := (lo + hi) / 2;
      var c := Compare(s[mid].key, k);
      if c == 0 then Position(mid, true)
      else if c < 0 then BinarySearch(s, k, mid + 1, hi)
      else BinarySearch(s, k, lo, mid)
  }

  function FindIndex<V>(s: seq<Cell<V>>, k: Bytes): Position {
    BinarySearch(s, k, 0, |s|)
  }

  lemma {:induction false} BinarySearchIsLowerBound<V>(s: seq<Cell<V>>, k: Bytes, lo: nat, hi: nat)
    requires Ascending(s) && lo <= LowerBound(s, k) <= hi <= |s|
    requires Found(s, k) ==> LowerBound(s, k) < hi
    ensures BinarySearch(s, k, lo, hi) == Position(LowerBound(s, k), Found(s, k))
    decreases hi - lo
  {
    var b := LowerBound(s, k);
    LessIrreflexive(k);
    if lo < hi {
      var mid := (lo + hi) / 2;
      LowerBoundSplits(s, k);
      if s[mid].key == k {
        LowerBoundUnique(s, k, mid);
      } else if Less(s[mid].key, k) {
        NotLess(s[mid].key, k);
        BinarySearchIsLowerBound(s, k, mid + 1, hi);
      } else {
        BinarySearchIsLowerBound(s, k, lo, mid);
      }
    }
  }

  /** On strictly ascending keys, `findIndex` is the lower bound. */
  lemma {:induction false} FindIndexIsLowerBound<V>(s: seq<Cell<V>>, k: Bytes)
    requires Ascending(s)
    ensures FindIndex(s, k) == Position(LowerBound(s, k), Found(s, k))
  {
    BinarySearchIsLowerBound(s, k, 0, |s|);
  }

  // ---- splitting -----------------------------------------------------------

  /** `splitLeafAndInsert`: all cells, the new one included, cut in half by count. */
  function LeafHalves(cells: seq<Entry>): (Slots<Bytes>, Slots<Bytes>) {
    var mid := |cells| / 2;
    (Pack(EmptySlots(), cells[..mid], EntrySize), Pack(EmptySlots(), cells[mid..], EntrySize))
  }

  /** `splitInternalAndInsert`: the middle link is promoted, the others are cut by count. */
  function InternalHalves(links: seq<Link>): (Slots<PageID>, Slots<PageID>) {
    var mid := |links| / 2;
    (Pack(EmptySlots(), links[..mid], LinkSize),
     Pack(EmptySlots(), if mid < |links| then links[mid + 1..] else [], LinkSize))
  }

  predicate LeafHalvesFit(cells: seq<Entry>) {
    var mid := |cells| / 2;
    Footprint(cells[..mid], EntrySize) <= CAPACITY && Footprint(cells[mid..], EntrySize) <= CAPACITY
  }

  predicate InternalHalvesFit(links: seq<Link>)
    requires |links| > 0
  {
    var mid := |links| / 2;
    Footprint(links[..mid], LinkSize) <= CAPACITY && Footprint(links[mid + 1..], LinkSize) <= CAPACITY
  }

  // ---- capacity ------------------------------------------------------------

  ghost predicate FootprintsWithin<V>(cells: seq<Cell<V>>, size: Cell<V> -> nat, lo: nat, hi: nat) {
    forall i :: 0 <= i < |cells| ==> lo <= size(cells[i]) + SLOT <= hi
  }

  lemma {:induction false} FootprintBounds<V>(cells: seq<Cell<V>>, size: Cell<V> -> nat, lo: nat, hi: nat)
    requires FootprintsWithin(cells, size, lo, hi)
    ensures lo * |cells| <= Footprint(cells, size) <= hi * |cells|
  {
    if |cells| != 0 {
      FootprintBounds(cells[1..], size, lo, hi);
      assert lo * |cells| == lo * (|cells| - 1) + lo;
      assert hi * |cells| == hi * (|cells| - 1) + hi;
    }
  }

  /** A split by count never overflows a half when footprints stay within [lo, hi]
      and enough small cells outweigh one large cell: the page that overflowed held
      all cells but the one at `at`. */
  lemma {:induction false} SplitByCountFits<V>(cells: seq<Cell<V>>, size: Cell<V> -> nat, at: nat, lo: nat, hi: nat)
    requires at < |cells| && hi > 0
    requires FootprintsWithin(cells, size, lo, hi)
    requires lo * (CAPACITY / hi) >= hi
    requires Footprint(cells[..at] + cells[at + 1..], size) <= CAPACITY
    ensures Footprint(cells[..|cells| / 2], size) <= CAPACITY
    ensures Footprint(cells[|cells| / 2..], size) <= CAPACITY
  {
    var mid := |cells| / 2;
    var a, b := cells[..mid], cells[mid..];
    FootprintBounds(a, size, lo, hi);
    FootprintBounds(b, size, lo, hi);
    TotalWithout(cells, size, at);
    assert cells == a + b;
    FootprintAppend(a, b, size);
    var q := CAPACITY / hi;
    if mid >= q {
      MulMonotone(lo, q, mid);
      MulMonotone(lo, q, |b|);
    } else {
      MulMonotone(hi, mid, q);
      MulMonotone(hi, |b|, q);
      DivBound(CAPACITY, hi);
    }
  }

  lemma {:induction false} TotalWithout<V>(cells: seq<Cell<V>>, size: Cell<V> -> nat, at: nat)
    requires at < |cells|
    ensures Footprint(cells, size) == Footprint(cells[..at] + cells[at + 1..], size) + size(cells[at]) + SLOT
  {
    var a, c, b := cells[..at], [cells[at]], cells[at + 1..];
    assert cells == a + (c + b);
    FootprintAppend(a, c + b, size);
    FootprintAppend(c, b, size);
    FootprintAppend(a, b, size);
    assert Footprint(c, size) == size(cells[at]) + SLOT;
  }

  lemma {:induction false} DivBound(x: nat, d: nat)
    requires d > 0
    ensures d * (x / d) <= x
  {
  }
}
