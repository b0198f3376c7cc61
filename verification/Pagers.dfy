/** The pager: fixed-size pages, handed out from a free list threaded through the
    freed pages or from the end of the file. */
module Pagers {
  import opened Bytes
  import opened Entries
  import opened Pages
  import opened SlottedPage
  import opened Trees
  import opened TreeOps

  /** The free list on disk: each freed page starts with the id of the next one, 0 ends it. */
  ghost predicate FreeChain(disk: map<PageID, Bytes>, head: PageID, free: seq<PageID>)
    decreases |free|
  {
    if |free| == 0 then head == 0
    else head == free[0] != 0 && head in disk && |disk[head]| == PAGE_SIZE
         && FreeChain(disk, U32(disk[head], 0), free[1..])
  }

  lemma {:induction false} FreeChainFrame(disk: map<PageID, Bytes>, disk': map<PageID, Bytes>, head: PageID,
                                          free: seq<PageID>)
    requires FreeChain(disk, head, free)
    requires forall id :: id in free && id in disk ==> id in disk' && disk'[id] == disk[id]
    ensures FreeChain(disk', head, free)
    decreases |free|
  {
    if |free| != 0 {
      FreeChainFrame(disk, disk', U32(disk[head], 0), free[1..]);
    }
  }

  lemma {:induction false} HeadLinks(disk: map<PageID, Bytes>, head: PageID, free: seq<PageID>)
    requires FreeChain(disk, head, free) && |free| > 0
    ensures head == free[0] && head in disk && |disk[head]| >= 4
    ensures U32(disk[head], 0) == if |free| > 1 then free[1] else 0
  {
    assert FreeChain(disk, U32(disk[head], 0), free[1..]);
  }

  lemma {:induction false} PushFree(disk: map<PageID, Bytes>, head: PageID, free: seq<PageID>, id: PageID, b: Bytes)
    requires FreeChain(disk, head, free) && id !in free && id != 0 && |b| == PAGE_SIZE && U32(b, 0) == head
    ensures FreeChain(disk[id := b], id, [id] + free)
  {
    FreeChainFrame(disk, disk[id := b], head, free);
    assert ([id] + free)[1..] == free;
  }

  function ZeroPage(): (b: Bytes)
    ensures |b| == PAGE_SIZE
  {
    seq(PAGE_SIZE, _ => 0)
  }

  /** A free page holds the id of the next one in its first four bytes. */
  function FreePageBytes(next: PageID): (b: Bytes)
    ensures |b| == PAGE_SIZE && U32(b, 0) == next % TWO32
  {
    var b := U32Bytes(next) + ZeroPage()[4..];
    assert b[0..4] == U32Bytes(next);
    U32Slice(b, 0);
    b
  }

  /** Live and free pages partition 1..pageCount-1. */
  ghost predicate Partition(pageCount: nat, free: seq<PageID>, live: set<PageID>) {
    && (forall id :: id in live || id in free <==> 0 < id < pageCount)
    && (forall id :: id in live ==> id !in free)
    && (forall i, j :: 0 <= i < j < |free| ==> free[i] != free[j])
  }

  ghost predicate AllOnDisk(disk: map<PageID, Bytes>, pageCount: nat) {
    forall id :: (id in disk <==> 0 < id < pageCount) && (id in disk ==> |disk[id]| == PAGE_SIZE)
  }

  /** The live pages that hold tree nodes, decoded. */
  ghost function NodesOf(disk: map<PageID, Bytes>, live: set<PageID>): PageMap {
    map id | id in live && id in disk && ValidPage(disk[id]) :: View(disk[id])
  }

  lemma {:induction false} TakeHead(pageCount: nat, free: seq<PageID>, live: set<PageID>)
    requires Partition(pageCount, free, live) && |free| > 0
    ensures Partition(pageCount, free[1..], live + {free[0]}) && 0 < free[0] < pageCount && free[0] !in live
    ensures free[0] !in free[1..]
  {
    var h, rest := free[0], free[1..];
    assert h in free && free == [h] + rest;
    assert forall i :: 0 <= i < |rest| ==> rest[i] == free[i + 1];
    forall id ensures id in free <==> id == h || id in rest {
      assert id in free <==> id in [h] + rest;
    }
  }

  lemma {:induction false} TakeEnd(pageCount: nat, live: set<PageID>)
    requires Partition(pageCount, [], live) && 0 < pageCount
    ensures Partition(pageCount + 1, [], live + {pageCount}) && pageCount !in live
  {
  }

  lemma {:induction false} GiveBack(pageCount: nat, free: seq<PageID>, live: set<PageID>, id: PageID)
    requires Partition(pageCount, free, live) && id in live
    ensures Partition(pageCount, [id] + free, live - {id}) && id !in free && id != 0
  {
    var more := [id] + free;
    forall i, j | 0 <= i < j < |more| ensures more[i] != more[j] {
      assert more[j] in free;
    }
  }

  lemma {:induction false} NodesWritten(disk: map<PageID, Bytes>, live: set<PageID>, id: PageID, b: Bytes)
    requires id in live
    ensures ValidPage(b) ==> NodesOf(disk[id := b], live) == NodesOf(disk, live)[id := View(b)]
    ensures !ValidPage(b) ==> NodesOf(disk[id := b], live) == NodesOf(disk, live) - {id}
  {
    var after, before := NodesOf(disk[id := b], live), NodesOf(disk, live);
    assert id in after <==> ValidPage(b);
    assert forall x :: x != id ==> (x in after <==> x in before);
    assert forall x :: x in after && x != id ==> after[x] == before[x];
  }

  lemma {:induction false} NodesWithZero(disk: map<PageID, Bytes>, live: set<PageID>, id: PageID)
    requires id !in live
    ensures NodesOf(disk[id := ZeroPage()], live + {id}) == NodesOf(disk, live)
  {
    ZeroIsNoNode();
  }

  lemma {:induction false} NodesWithout(disk: map<PageID, Bytes>, live: set<PageID>, id: PageID, b: Bytes)
    ensures NodesOf(disk[id := b], live - {id}) == NodesOf(disk, live) - {id}
  {
  }

  lemma {:induction false} Freed(disk: map<PageID, Bytes>, pageCount: nat, head: PageID, free: seq<PageID>,
                                 live: set<PageID>, id: PageID, b: Bytes)
    requires Partition(pageCount, free, live) && AllOnDisk(disk, pageCount) && FreeChain(disk, head, free)
    requires id in live && |b| == PAGE_SIZE && U32(b, 0) == head
    ensures var more, kept, disk' := [id] + free, live - {id}, disk[id := b];
            && Partition(pageCount, more, kept) && AllOnDisk(disk', pageCount) && FreeChain(disk', id, more)
            && NodesOf(disk', kept) == NodesOf(disk, live) - {id}
  {
    GiveBack(pageCount, free, live, id);
    NodesWithout(disk, live, id, b);
    PushFree(disk, head, free, id, b);
  }

  class Pager {
    var disk: map<PageID, Bytes>
    var pageCount: nat
    var freeList: PageID
    ghost var free: seq<PageID>
    ghost var live: set<PageID>

    /** Live and free pages partition 1..pageCount-1, and the free list is the chain of free pages. */
    ghost predicate Valid()
      reads this
    {
      && 0 < pageCount <= TWO32
      && Partition(pageCount, free, live) && AllOnDisk(disk, pageCount)
      && FreeChain(disk, freeList, free)
    }

    ghost function Allocator(): Alloc
      reads this
    {
      Alloc(free, pageCount)
    }

    ghost function Nodes(): PageMap
      reads this
    {
      NodesOf(disk, live)
    }

    lemma {:induction false} NodesAllocOk()
      requires Valid()
      ensures AllocOk(Nodes(), Allocator())
    {
      forall i | 0 <= i < |free| ensures 0 < free[i] < pageCount {
        assert free[i] in free;
      }
    }

    /** A new data file: the header page only. */
    constructor ()
      ensures Valid() && live == {} && free == [] && pageCount == 1
    {
      disk, pageCount, freeList := map[], 1, 0;
      free, live := [], {};
    }

    /** `ReadPage` fails exactly outside the file. A node's page reads as that node, and the head of the free list
        reads as the link to the rest of the list. */
    method ReadPage(id: PageID) returns (r: Option<Bytes>)
      requires Valid()
      ensures r.Some? <==> id in live || id in free
      ensures r.Some? ==> |r.value| == PAGE_SIZE
      ensures id in Nodes() ==> r.Some? && ValidPage(r.value) && View(r.value) == Nodes()[id]
      ensures |free| > 0 && id == free[0] ==> U32(r.value, 0) == if |free| > 1 then free[1] else 0
    {
      if |free| > 0 && id == free[0] {
        assert free[0] in free;
        HeadLinks(disk, freeList, free);
      }
      r := if id in disk then Some(disk[id]) else None;
    }

    /** `WritePage` refuses a buffer of the wrong size. On a live page it keeps the free list and all other nodes. */
    method WritePage(id: PageID, b: Bytes) returns (ok: bool)
      requires Valid()
      modifies this`disk
      ensures ok <==> |b| == PAGE_SIZE
      ensures disk == if ok then old(disk)[id := b] else old(disk)
      ensures !ok || id in live ==> Valid()
      ensures ok && id in live && ValidPage(b) ==> Nodes() == old(Nodes())[id := View(b)]
      ensures ok && id in live && !ValidPage(b) ==> Nodes() == old(Nodes()) - {id}
    {
      ok := |b| == PAGE_SIZE;
      if ok {
        if id in live {
          FreeChainFrame(disk, disk[id := b], freeList, free);
          NodesWritten(disk, live, id, b);
        }
        disk := disk[id := b];
      }
    }

    /** `AllocatePage`: the head of the free list, or a page at the end of the file; zeroed,
        never page 0 and never a live page. */
    method AllocatePage() returns (id: PageID)
      requires Valid() && pageCount < TWO32
      modifies this
      ensures Valid()
      ensures id != 0 && id !in old(live) && live == old(live) + {id}
      ensures id == Fresh(old(Allocator())) && Allocator() == Taken(old(Allocator()))
      ensures disk == old(disk)[id := ZeroPage()]
      ensures Nodes() == old(Nodes())
    {
      ghost var live0 := live;
      if freeList != 0 {
        TakeHead(pageCount, free, live);
        id := freeList;
        assert free[0] in free;
        var buf := ReadPage(id);
        HeadLinks(disk, freeList, free);
        freeList := U32(buf.value, 0);
        free, live := free[1..], live + {id};
      } else {
        assert free == [];
        TakeEnd(pageCount, live);
        id := pageCount;
        pageCount := pageCount + 1;
        live := live + {id};
      }
      NodesWithZero(disk, live0, id);
      FreeChainFrame(disk, disk[id := ZeroPage()], freeList, free);
      disk := disk[id := ZeroPage()];
    }

    /** `FreePage`: a live page becomes the head of the free list. */
    method FreePage(id: PageID)
      requires Valid() && id in live
      modifies this
      ensures Valid()
      ensures live == old(live) - {id} && free == [id] + old(free) && pageCount == old(pageCount)
      ensures forall x :: x in old(disk) && x != id ==> x in disk && disk[x] == old(disk)[x]
      ensures Nodes() == old(Nodes()) - {id}
    {
      var b := FreePageBytes(freeList);
      HeadInRange();
      Freed(disk, pageCount, freeList, free, live, id, b);
      disk := disk[id := b];
      freeList, free, live := id, [id] + free, live - {id};
    }

    lemma {:induction false} HeadInRange()
      requires Valid()
      ensures freeList < TWO32
    {
      if |free| != 0 {
        assert free[0] in free;
      }
    }
  }

  lemma {:induction false} ZeroIsNoNode()
    ensures !ValidPage(ZeroPage())
  {
  }
}
