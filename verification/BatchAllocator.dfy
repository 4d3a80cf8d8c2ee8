/** The allocator of GameLib/jsoncpp/src/lib_json/json_batchallocator.h.

    A pointer to objects is a batch and an index into its buffer. A block is `objectPerAllocation`
    objects in a row; while it is free, its first object's storage holds the link to the next. */
module BatchAllocator {
  import opened Common

  datatype Block = Block(batch: Batch, offset: nat)

  datatype Link = Null | To(block: Block)

  /** What the storage of one object holds. */
  datatype Cell = Content(value: int) | Next(link: Link)

  /** `BatchInfo`. */
  class Batch {
    var next: Batch?
    var used: nat
    const end: nat
    const buffer: array<Cell>

    /** `allocateBatch`. The storage is for `objectPerAllocation` times the objects of a page. */
    constructor (objectPerAllocation: nat, objectsPerPage: nat)
      ensures next == null && used == 0 && end == objectsPerPage
      ensures buffer.Length == objectPerAllocation * objectsPerPage && fresh(buffer)
    {
      next, used, end := null, 0, objectsPerPage;
      buffer := new Cell[objectPerAllocation * objectsPerPage](_ => Content(0));
    }
  }

  // ----- Arithmetic of blocks ---------------------------------------------------------------

  lemma Monotone(p: int, q: int, n: nat)
    requires p <= q
    ensures p * n <= q * n
  {
  }

  /** Different multiples of n are at least n apart. */
  lemma Apart(a: nat, b: nat, n: nat)
    requires n > 0 && a % n == 0 && b % n == 0 && a < b
    ensures a + n <= b
  {
    var p, q := a / n, b / n;
    assert a == p * n && b == q * n;
    if q <= p {
      Monotone(q, p, n);
      assert false;
    }
    Monotone(p + 1, q, n);
  }

  lemma NextMultiple(a: nat, n: nat)
    requires n > 0 && a % n == 0
    ensures (a + n) % n == 0
  {
    var p := a / n;
    assert a + n == (p + 1) * n;
    MultipleOf(p + 1, n);
  }

  lemma MultipleOf(p: nat, n: nat)
    requires n > 0
    ensures p * n % n == 0
  {
    var q, r := p * n / n, p * n % n;
    assert (p - q) * n == r;
    if p > q {
      Monotone(1, p - q, n);
    } else if p < q {
      Monotone(p - q, -1, n);
    }
  }

  /** No object belongs to two blocks of one size. */
  lemma BlocksDisjoint(a: Block, b: Block, n: nat, i: nat, j: nat)
    requires n > 0 && a.offset % n == 0 && b.offset % n == 0 && a != b && i < n && j < n
    ensures a.batch != b.batch || a.offset + i != b.offset + j
  {
    if a.offset < b.offset {
      Apart(a.offset, b.offset, n);
    } else if b.offset < a.offset {
      Apart(b.offset, a.offset, n);
    }
  }

  /** Carving goes on from the start of a page until exactly the end of the page is reached. Every block
      it reaches lies within so many objects. */
  ghost predicate StaysWithin(n: nat, page: nat, bound: nat) {
    forall j: nat :: (forall i: nat | i <= j :: Start(i, n) != page) ==> Start(j, n) + n <= bound
  }

  function Start(j: nat, n: nat): nat {
    j * n
  }

  /** Carving stays within the page, or within the storage allocated for it, or within any bound at all,
      if and only if the block size divides the page. */
  lemma PageMustDivide(n: nat, page: nat, bound: nat)
    requires n > 0 && page <= bound
    ensures StaysWithin(n, page, bound) <==> page % n == 0
  {
    hide Start;
    if page % n == 0 {
      StartIs(page / n, n, page);
      forall j: nat | forall i: nat | i <= j :: Start(i, n) != page
        ensures Start(j, n) + n <= bound
      {
        assert Start(page / n, n) == page;
        if j < page / n {
          StartIs(j, n, page);
        } else {
          assert false;
        }
      }
    } else {
      forall i: nat ensures Start(i, n) != page {
        StartIsMultiple(i, n);
      }
      StartGrows(bound, n);
      assert Start(bound, n) + n > bound;
    }
  }

  lemma StartIsMultiple(j: nat, n: nat)
    requires n > 0
    ensures Start(j, n) % n == 0
  {
    MultipleOf(j, n);
  }

  lemma StartGrows(j: nat, n: nat)
    requires n > 0
    ensures Start(j, n) >= j
  {
    Monotone(1, n, j);
    assert n * j == j * n;
  }

  /** The pages of eight items each from 255 objects, as `ValueInternalArray` asks for them. */
  lemma ItemPagesOverrun()
    ensures !StaysWithin(8, 255, 255) && !StaysWithin(8, 255, 8 * 255)
  {
    PageMustDivide(8, 255, 255);
    PageMustDivide(8, 255, 8 * 255);
  }

  lemma StartIs(j: nat, n: nat, page: nat)
    requires n > 0
    ensures j == page / n ==> Start(j, n) + page % n == page
    ensures j < page / n ==> Start(j, n) + n <= page
  {
    var q := page / n;
    assert page == q * n + page % n;
    if j < q {
      Monotone(j + 1, q, n);
    }
  }

  // ----- The allocator ----------------------------------------------------------------------

  /** A page is carved into blocks from its start, without a remainder. */
  predicate Carved(b: Batch, n: nat)
    requires n > 0
    reads b`used
  {
    b.end <= b.buffer.Length && b.used <= b.end && b.used % n == 0 && b.end % n == 0
  }

  /** A block carved from its page, given how far each page has been carved. */
  predicate IsBlock(b: Block, n: nat, carved: map<Batch, nat>)
    requires n > 0
  {
    b.batch in carved && b.offset % n == 0 && b.offset < carved[b.batch]
  }

  /** What the i-th page is linked to. */
  function Following(list: seq<Batch>, i: nat): Batch? {
    if i + 1 < |list| then list[i + 1] else null
  }

  /** The pages, as they are linked. */
  ghost predicate Linked(list: seq<Batch>)
    reads list`next
  {
    && Distinct(list)
    && (forall i | 0 <= i < |list| :: list[i].next == Following(list, i))
    && (forall i, j | 0 <= i < j < |list| :: list[i].buffer != list[j].buffer)
  }

  ghost predicate Sized(list: seq<Batch>, n: nat)
    requires n > 0
    reads list`used
  {
    forall b | b in list :: Carved(b, n)
  }

  /** Every page is full but for the current one. */
  ghost predicate FullBut(list: seq<Batch>, current: Batch?)
    reads list`used
  {
    forall b | b in list && b != current :: b.used == b.end
  }

  ghost predicate Pages(list: seq<Batch>, current: Batch, n: nat)
    requires n > 0
    reads list`next, list`used
  {
    current in list && Linked(list) && Sized(list, n) && FullBut(list, current)
  }

  ghost predicate CarvedIs(list: seq<Batch>, carved: map<Batch, nat>)
    reads list`used
  {
    && (forall b | b in list :: b in carved && carved[b] == b.used)
    && (forall b | b in carved :: b in list)
  }

  /** Every block carved is either live or free, and no block is both. */
  ghost predicate Accounted(carved: map<Batch, nat>, free: seq<Block>, live: set<Block>, n: nat)
    requires n > 0
  {
    && Distinct(free)
    && (forall b | b in live :: b !in free && IsBlock(b, n, carved))
    && (forall b | b in free :: IsBlock(b, n, carved))
    && (forall p, k: nat | p in carved && IsBlock(Block(p, k), n, carved) :: Block(p, k) in live || Block(p, k) in free)
  }

  /** What links to the i-th free block. */
  function LinkTo(free: seq<Block>, i: nat): Link {
    if i < |free| then To(free[i]) else Null
  }

  /** The first object of a free block holds this link. */
  ghost predicate Links(list: seq<Batch>, b: Block, link: Link)
    reads set p | p in list :: p.buffer
  {
    b.batch in list && b.offset < b.batch.buffer.Length && b.batch.buffer[b.offset] == Next(link)
  }

  /** The free blocks, linked through their own storage. */
  ghost predicate FreeList(list: seq<Batch>, free: seq<Block>, head: Link)
    reads set b | b in list :: b.buffer
  {
    head == LinkTo(free, 0) && forall i | 0 <= i < |free| :: Links(list, free[i], LinkTo(free, i + 1))
  }

  lemma ReleaseAccounted(carved: map<Batch, nat>, free: seq<Block>, live: set<Block>, n: nat, o: Block)
    requires n > 0 && Accounted(carved, free, live, n) && o in live
    ensures Accounted(carved, [o] + free, live - {o}, n)
  {
  }

  lemma ReuseAccounted(carved: map<Batch, nat>, free: seq<Block>, live: set<Block>, n: nat)
    requires n > 0 && Accounted(carved, free, live, n) && free != []
    ensures Accounted(carved, free[1..], live + {free[0]}, n) && free[0] !in live
  {
    forall b | b in free ensures b == free[0] || b in free[1..] {
      var i :| 0 <= i < |free| && free[i] == b;
      assert i > 0 ==> free[1..][i - 1] == b;
    }
    assert free[0] !in free[1..];
  }

  /** One more block of one page. */
  lemma CarveAccounted(carved: map<Batch, nat>, live: set<Block>, n: nat, b: Batch)
    requires n > 0 && Accounted(carved, [], live, n) && b in carved && carved[b] % n == 0
    ensures var o := Block(b, carved[b]);
      o !in live && Accounted(carved[b := carved[b] + n], [], live + {o}, n)
  {
    var o, more := Block(b, carved[b]), carved[b := carved[b] + n];
    forall p, k: nat | p in more && IsBlock(Block(p, k), n, more) ensures Block(p, k) in live + {o} {
      if p == b && k > carved[b] {
        Apart(carved[b], k, n);
      } else if Block(p, k) != o {
        assert IsBlock(Block(p, k), n, carved);
      }
    }
    assert !IsBlock(o, n, carved);
  }

  lemma PageAccounted(carved: map<Batch, nat>, live: set<Block>, n: nat, b: Batch)
    requires n > 0 && Accounted(carved, [], live, n) && b !in carved
    ensures Accounted(carved[b := 0], [], live, n)
  {
    var grown := carved[b := 0];
    assert forall p, k: nat | p in carved :: IsBlock(Block(p, k), n, grown) <==> IsBlock(Block(p, k), n, carved);
  }

  /** The block is in its page, and there is room in it for all its objects. */
  lemma BlockFits(list: seq<Batch>, carved: map<Batch, nat>, n: nat, b: Block)
    requires n > 0 && Sized(list, n) && CarvedIs(list, carved) && IsBlock(b, n, carved)
    ensures b.batch in list && b.offset + n <= b.batch.used <= b.batch.buffer.Length
  {
    Apart(b.offset, b.batch.used, n);
  }

  lemma FreePushed(list: seq<Batch>, free: seq<Block>, head: Link, o: Block)
    requires FreeList(list, free, head) && Links(list, o, head)
    ensures FreeList(list, [o] + free, To(o))
  {
    hide Links;
    var after := [o] + free;
    forall i | 0 <= i < |after| ensures Links(list, after[i], LinkTo(after, i + 1)) {
      assert LinkTo(after, i + 1) == LinkTo(free, i);
      if i > 0 {
        assert after[i] == free[i - 1];
      }
    }
  }

  lemma OneBuffer(list: seq<Batch>, a: Batch, b: Batch)
    requires Linked(list) && a in list && b in list && a.buffer == b.buffer
    ensures a == b
  {
    var i: nat :| i < |list| && list[i] == a;
    var j: nat :| j < |list| && list[j] == b;
  }

  /** The storage of a live block is no part of a free one. */
  lemma FreeApart(list: seq<Batch>, current: Batch, carved: map<Batch, nat>, free: seq<Block>, live: set<Block>,
                  n: nat, o: Block)
    requires n > 0 && Pages(list, current, n) && CarvedIs(list, carved)
    requires Accounted(carved, free, live, n) && o in live
    ensures o.batch in list && o.offset + n <= o.batch.buffer.Length && o !in free
    ensures forall i | 0 <= i < |free| && free[i].batch.buffer == o.batch.buffer ::
      free[i].offset < o.offset || o.offset + n <= free[i].offset
  {
    hide Linked, FullBut, Sized, Distinct;
    BlockFits(list, carved, n, o);
    hide CarvedIs;
    forall i | 0 <= i < |free| && free[i].batch.buffer == o.batch.buffer
      ensures free[i].offset < o.offset || o.offset + n <= free[i].offset
    {
      assert free[i] in free && o !in free;
      BlockFits(list, carved, n, free[i]);
      OneBuffer(list, free[i].batch, o.batch);
      if free[i].offset >= o.offset && free[i].offset < o.offset + n {
        BlocksDisjoint(o, free[i], n, free[i].offset - o.offset, 0);
      }
    }
  }

  ghost function Position(list: seq<Batch>, b: Batch): (i: nat)
    requires b in list
    ensures i < |list| && list[i] == b
  {
    if list[0] == b then 0 else 1 + Position(list[1..], b)
  }

  lemma PageLinked(list: seq<Batch>, b: Batch)
    requires Linked(list) && b !in list
    requires b.next == Following([b] + list, 0) && forall c | c in list :: c.buffer != b.buffer
    ensures Linked([b] + list)
  {
    var l := [b] + list;
    forall i | 0 <= i < |l| ensures l[i].next == Following(l, i) {
      if i > 0 {
        assert list[i - 1].next == Following(list, i - 1);
      }
    }
  }

  /** A new page, in front of pages that are all full. */
  lemma PageAdded(list: seq<Batch>, current: Batch, b: Batch, n: nat, carved: map<Batch, nat>)
    requires n > 0 && Pages(list, current, n) && CarvedIs(list, carved) && current.used == current.end
    requires Carved(b, n) && b.used == 0 && b !in list && Linked([b] + list)
    ensures Pages([b] + list, b, n) && CarvedIs([b] + list, carved[b := 0]) && b !in carved
  {
    hide Linked;
  }

  lemma AllFull(list: seq<Batch>, current: Batch, n: nat)
    requires n > 0 && Pages(list, current, n)
    ensures current in list && Linked(list) && current.used <= current.end
    ensures current.used == current.end ==> FullBut(list, null)
  {
    assert Carved(current, n);
  }

  lemma NoneFree(list: seq<Batch>, head: Link)
    ensures FreeList(list, [], head) <==> head == Null
  {
  }

  class BatchAllocator {
    const objectPerAllocation: nat
    const objectsPerPage: nat
    var batches: Batch
    var currentBatch: Batch?
    var freeHead: Link
    ghost var list: seq<Batch>
    ghost var free: seq<Block>
    ghost var live: set<Block>
    ghost var carved: map<Batch, nat>

    ghost predicate Valid()
      reads this, list, set b | b in list :: b.buffer
    {
      && objectPerAllocation > 0 && objectsPerPage >= 16 && objectsPerPage % objectPerAllocation == 0
      && list != [] && batches == list[0] && currentBatch != null
      && Pages(list, currentBatch, objectPerAllocation)
      && CarvedIs(list, carved) && Accounted(carved, free, live, objectPerAllocation)
      && FreeList(list, free, freeHead)
    }

    constructor (perAllocation: nat, perPage: nat)
      requires perAllocation > 0 && perPage >= 16 && perPage % perAllocation == 0
      ensures Valid() && live == {} && free == []
      ensures objectPerAllocation == perAllocation && objectsPerPage == perPage
      ensures fresh(list) && forall b | b in list :: fresh(b.buffer)
    {
      objectPerAllocation, objectsPerPage, freeHead := perAllocation, perPage, Null;
      var first := new Batch(perAllocation, 0);
      batches, currentBatch := first, first;
      list, free, live, carved := [first], [], {}, map[first := 0];
    }

    /** Looking for a page that is not full, from the current one on, when all of them are. */
    method SkipFullPages()
      requires Linked(list) && currentBatch != null && currentBatch in list
      requires FullBut(list, null)
      modifies `currentBatch
      ensures currentBatch == null
    {
      ghost var pages, at := list, Position(list, currentBatch);
      assert currentBatch.next == Following(pages, at);
      currentBatch, at := currentBatch.next, at + 1;
      while currentBatch != null && currentBatch.used == currentBatch.end
        invariant 1 <= at <= |pages| && currentBatch == Following(pages, at - 1)
        decreases |pages| - at
      {
        assert currentBatch.next == Following(pages, at);
        currentBatch, at := currentBatch.next, at + 1;
      }
    }

    /** `allocateBatch`, in front of the others. */
    method NewPage(ghost n: nat) returns (page: Batch)
      requires n > 0 && n == objectPerAllocation && objectsPerPage % n == 0
      requires Linked(list) && list != [] && batches == list[0]
      ensures fresh(page) && fresh(page.buffer) && page !in list && Linked([page] + list)
      ensures Carved(page, n) && page.used == 0 && page.end == objectsPerPage
    {
      hide Linked;
      Monotone(1, objectPerAllocation, objectsPerPage);
      page := new Batch(objectPerAllocation, objectsPerPage);
      assert page !in list;
      page.next := batches;
      PageLinked(list, page);
    }

    /** A new page becomes the current one. */
    method TurnPage()
      requires Valid() && free == [] && currentBatch.used == currentBatch.end
      modifies `batches, `currentBatch, `list, `carved
      ensures Valid() && currentBatch.used < currentBatch.end
      ensures fresh(currentBatch) && fresh(currentBatch.buffer) && list == [currentBatch] + old(list)
    {
      hide Pages, Accounted, FreeList, CarvedIs, Linked;
      ghost var full := currentBatch;
      AllFull(list, full, objectPerAllocation);
      SkipFullPages();
      var page := NewPage(objectPerAllocation);
      PageAdded(list, full, page, objectPerAllocation, carved);
      PageAccounted(carved, live, objectPerAllocation, page);
      NoneFree(list, freeHead);
      NoneFree([page] + list, freeHead);
      currentBatch, batches, list, carved := page, page, [page] + list, carved[page := 0];
    }

    /** The head of the free list. */
    method Reuse() returns (object_: Block)
      requires Valid() && free != []
      modifies `freeHead, `free, `live
      ensures Valid() && object_ == old(free[0]) && object_ !in old(live)
      ensures live == old(live) + {object_} && free == old(free[1..])
    {
      hide Accounted, Distinct, Pages, CarvedIs;
      ReuseAccounted(carved, free, live, objectPerAllocation);
      object_ := freeHead.block;
      freeHead := object_.batch.buffer[object_.offset].link;
      ghost var rest := free[1..];
      assert forall i | 0 <= i <= |rest| :: LinkTo(rest, i) == LinkTo(free, i + 1);
      live := live + {object_};
      free := rest;
    }

    /** `allocate`. */
    method Allocate() returns (object_: Block)
      requires Valid()
      modifies `batches, `currentBatch, `freeHead, `list, `free, `live, `carved, list
      ensures Valid() && object_ !in old(live) && live == old(live) + {object_}
      ensures old(free) != [] ==> object_ == old(free[0]) && free == old(free[1..]) && list == old(list)
      ensures old(free) == [] ==> free == []
      ensures list == old(list) || (fresh(list[0]) && fresh(list[0].buffer) && list[1..] == old(list))
    {
      hide Accounted, Distinct, Pages, CarvedIs;
      if freeHead != Null {
        object_ := Reuse();
        return;
      }
      if currentBatch.used == currentBatch.end {
        TurnPage();
      }
      AllFull(list, currentBatch, objectPerAllocation);
      object_ := Carve();
    }

    /** The next block of the current page. */
    method Carve() returns (object_: Block)
      requires Valid() && free == [] && currentBatch.used < currentBatch.end
      modifies currentBatch`used, `live, `carved
      ensures Valid() && object_ !in old(live) && live == old(live) + {object_}
    {
      hide FreeList, Accounted, Distinct, Linked;
      NoneFree(list, freeHead);
      ghost var n := objectPerAllocation;
      assert Carved(currentBatch, n);
      CarveAccounted(carved, live, n, currentBatch);
      Apart(currentBatch.used, currentBatch.end, n);
      NextMultiple(currentBatch.used, n);
      object_ := Block(currentBatch, currentBatch.used);
      currentBatch.used := currentBatch.used + objectPerAllocation;
      live, carved := live + {object_}, carved[currentBatch := currentBatch.used];
      NoneFree(list, freeHead);
    }

    /** What the owner of a block may do: write anything into the storage of its objects. */
    method Write(object_: Block, k: nat, c: Cell)
      requires Valid() && object_ in live && object_.offset <= k < object_.offset + objectPerAllocation
      modifies object_.batch.buffer
      ensures Valid() && k < object_.batch.buffer.Length && object_.batch.buffer[k] == c
      ensures forall j | 0 <= j < object_.batch.buffer.Length && j != k ::
        object_.batch.buffer[j] == old(object_.batch.buffer[j])
    {
      hide Pages, CarvedIs, Accounted;
      FreeApart(list, currentBatch, carved, free, live, objectPerAllocation, object_);
      assert forall b | b in list :: b as object != object_.batch.buffer;
      object_.batch.buffer[k] := c;
    }

    /** `release`. */
    method Release(object_: Block)
      requires Valid() && object_ in live
      modifies `freeHead, `free, `live, object_.batch.buffer
      ensures Valid() && live == old(live) - {object_} && free == [object_] + old(free)
      ensures forall k | 0 <= k < object_.batch.buffer.Length && k != object_.offset ::
        object_.batch.buffer[k] == old(object_.batch.buffer[k])
    {
      hide Pages, CarvedIs, Accounted, FreeList;
      Write(object_, object_.offset, Next(freeHead));
      FreeApart(list, currentBatch, carved, free, live, objectPerAllocation, object_);
      ReleaseAccounted(carved, free, live, objectPerAllocation, object_);
      FreePushed(list, free, freeHead, object_);
      freeHead, free, live := To(object_), [object_] + free, live - {object_};
    }
  }
}
