/**
 src/memory/heap/kheap.c: the kernel's allocator together with the memory it
 hands out. Memory is a cell per byte address of the heap region; a 32-bit word
 or a character occupies the cell of its first byte.
 */
module KernelHeap {
  import opened CTypes
  import opened HeapTable
  import opened HeapModel
  import H = Heap

  // Cells are compared block by block.

  ghost predicate SameInBlock(m: seq<uint32>, m': seq<uint32>, b: nat) {
    && |m| == |m'| && 4096 * (b + 1) <= |m|
    && forall c | 4096 * b <= c < 4096 * (b + 1) :: m'[c] == m[c]
  }

  ghost predicate SameOutsideBlock(m: seq<uint32>, m': seq<uint32>, b: nat) {
    && |m| == |m'|
    && forall c | 0 <= c < |m| && !(4096 * b <= c < 4096 * (b + 1)) :: m'[c] == m[c]
  }

  lemma OtherBlockSame(m: seq<uint32>, m': seq<uint32>, b: nat, other: nat)
    requires SameOutsideBlock(m, m', b) && other != b && 4096 * (other + 1) <= |m|
    ensures SameInBlock(m, m', other)
  {
    assert other < b || b < other;
  }

  ghost predicate SameOutsideBlocks(m: seq<uint32>, m': seq<uint32>, bs: set<nat>) {
    |m| == |m'| && forall c | 0 <= c < |m| && c / 4096 !in bs :: m'[c] == m[c]
  }

  lemma OneBlockChanged(m: seq<uint32>, m': seq<uint32>, d: nat)
    requires SameOutsideBlock(m, m', d)
    ensures SameOutsideBlocks(m, m', {d})
  {
    forall c | 0 <= c < |m| && c / 4096 !in {d} ensures m'[c] == m[c] {
      assert c / 4096 != d;
    }
  }

  /** `live'` is `live` with one-block allocations at the blocks `added`. */
  ghost predicate OnlyOnesAdded(live: map<nat, nat>, live': map<nat, nat>, added: set<nat>) {
    added !! live.Keys && live' == live + map b | b in added :: 1
  }

  lemma AddOne(live: map<nat, nat>, live': map<nat, nat>, added: set<nat>, b: nat)
    requires OnlyOnesAdded(live, live', added) && b !in live'
    ensures OnlyOnesAdded(live, live'[b := 1], added + {b})
  {
  }

  lemma ChangedInOneMore(m: seq<uint32>, m1: seq<uint32>, m2: seq<uint32>, bs: set<nat>, d: nat, t: nat)
    requires SameOutsideBlocks(m, m1, bs) && d in bs
    requires SameOutsideBlocks(m1, m2, {d, t}) || SameOutsideBlock(m1, m2, t)
    ensures SameOutsideBlocks(m, m2, bs + {t})
  {
    forall c | 0 <= c < |m| && c / 4096 !in bs + {t} ensures m2[c] == m[c] {
      assert c / 4096 != d && c / 4096 != t;
    }
  }

  predicate InsideMemory(m: seq<uint32>, s: uint32, a: int) {
    s <= a < s + |m|
  }

  /** The heap block that an address lies in. */
  function BlockOf(s: uint32, addr: int): nat {
    if addr >= s then (addr - s) / 4096 else 0
  }

  class Kernel {
    const heap: H.Heap
    const cells: array<uint32>

    ghost predicate Valid()
      reads this, heap, heap.entries
    {
      heap.Valid() && cells.Length == 4096 * heap.total && cells as object != heap.entries
    }

    /** Valid but for the table, which may describe nothing any more. */
    ghost predicate Shaped()
      reads this, heap, heap.entries
    {
      heap.State().Shaped() && cells.Length == 4096 * heap.total && cells as object != heap.entries
    }

    ghost function State(): HeapState
      reads this, heap, heap.entries
    {
      heap.State()
    }

    predicate Inside(addr: int)
      reads heap
    {
      heap.saddr <= addr < heap.saddr + cells.Length
    }

    function Load(addr: int): uint32
      requires Inside(addr)
      reads heap, cells
    {
      cells[addr - heap.saddr]
    }

    method Store(addr: int, val: uint32)
      requires Valid() && Inside(addr)
      modifies cells
      ensures cells[..] == old(cells[..])[addr - heap.saddr := val]
      ensures Valid() && State() == old(State())
    {
      cells[addr - heap.saddr] := val;
    }

    constructor (heap: H.Heap)
      requires heap.Valid()
      ensures this.heap == heap && Valid() && fresh(cells)
    {
      this.heap := heap;
      cells := new uint32[4096 * heap.total];
    }

    /** Every request; the heap stays valid exactly when the request was a safe one. */
    method Kmalloc(size: uint32) returns (addr: uint32)
      requires Valid()
      modifies heap.entries, heap`live
      ensures addr == MallocResult(old(State()), size) && State() == AfterMalloc(old(State()), size)
      ensures Valid() <==> SafeRequest(old(State()), size)
    {
      addr := heap.Malloc(size);
    }

    /**
     Allocates, and zeroes exactly the bytes asked for; every other cell keeps its value.
     A request that does not fit runs on behind the heap's cells, as far as there are addresses.
     */
    method Kzalloc(size: uint32) returns (addr: uint32)
      requires Valid() && (MallocResult(State(), size) == 0 || MallocResult(State(), size) + size <= 0x1_0000_0000)
      modifies heap.entries, heap`live, cells
      ensures addr == MallocResult(old(State()), size) && State() == AfterMalloc(old(State()), size)
      ensures Valid() <==> SafeRequest(old(State()), size)
      ensures addr == 0 ==> cells[..] == old(cells[..])
      ensures addr != 0 ==> forall c | 0 <= c < cells.Length ::
        cells[c] == if addr <= heap.saddr + c < addr + size then 0 else old(cells[c])
      ensures addr != 0 && SafeRequest(old(State()), size) ==>
        heap.saddr <= addr && addr + size <= heap.saddr + cells.Length
    {
      if SafeRequest(State(), size) && MallocResult(State(), size) != 0 {
        ZeroedInside(State(), size);
      }
      addr := Kmalloc(size);
      if addr != 0 {
        ZeroMemory(addr, size);
      }
    }

    /** memset with 0, over the cells of the heap's region; memory behind it is not part of the model. */
    method ZeroMemory(addr: uint32, size: nat)
      requires cells.Length == 4096 * heap.total && cells as object != heap.entries && heap.saddr <= addr
      modifies cells
      ensures State() == old(State())
      ensures forall c | 0 <= c < cells.Length ::
        cells[c] == if addr <= heap.saddr + c < addr + size then 0 else old(cells[c])
    {
      var first := addr - heap.saddr;
      for i := 0 to size
        invariant State() == old(State())
        invariant forall c | 0 <= c < cells.Length ::
          cells[c] == if first <= c < first + i then 0 else old(cells[c])
      {
        if first + i < cells.Length {
          cells[first + i] := 0;
        }
      }
    }

    /** Any address in the heap; the heap stays valid exactly when it cuts no allocation in two. */
    method Kfree(addr: uint32)
      requires Shaped() && 0 <= AddressToBlock(heap.saddr, addr) <= heap.total
      modifies heap.entries, heap`live
      ensures Shaped() && State() == AfterFree(old(State()), addr)
      ensures old(Valid()) ==>
        var b := AddressToBlock(heap.saddr, addr);
        Valid() <==> b == heap.total || Freeable(old(heap.live), heap.total, b)
    {
      heap.Free(addr);
    }

    /** A request met inside known space: a fresh allocation, with the rest of the space still free. */
    method KzallocIn(size: uint32, ghost space: nat, ghost tail: bool) returns (addr: uint32, ghost b: nat)
      requires Valid() && Space(State(), space, tail) && 1 <= BlocksFor(size) <= space
      modifies heap.entries, heap`live, cells
      ensures Valid() && Space(State(), space - BlocksFor(size), tail)
      ensures b < heap.total && b !in old(heap.live) && heap.live == old(heap.live)[b := BlocksFor(size)]
      ensures addr == BlockToAddress(heap.saddr, b)
    {
      ghost var h := State();
      AlignUpCovers(size);
      SpaceAfterMalloc(h, size, space, tail);
      MallocGives(h, size);
      b := StartBlock(h.table, heap.total, BlocksFor(size));
      addr := Kzalloc(size);
    }

    /** A request for zero bytes while the last block is free: the address of a block that nobody owns. */
    method KzallocNothing(ghost space: nat) returns (addr: uint32, ghost b: nat)
      requires Valid() && TailRoom(State(), space)
      modifies heap.entries, heap`live, cells
      ensures Valid() && State() == old(State())
      ensures b < heap.total && !Owned(heap.live, b) && b !in heap.live && addr == BlockToAddress(heap.saddr, b)
    {
      ghost var h := State();
      EmptyRequestAtTail(h, space);
      LiveIsOwned(h, StartBlock(h.table, heap.total, 0));
      b := StartBlock(h.table, heap.total, 0);
      addr := Kzalloc(0);
    }

    /** heap_free of a block that is either the first of a live allocation or nobody's. */
    method KfreeAt(addr: uint32, ghost b: nat)
      requires Valid() && Freeable(heap.live, heap.total, b) && addr == BlockToAddress(heap.saddr, b)
      modifies heap.entries, heap`live
      ensures Valid() && heap.live == old(heap.live) - {b}
    {
      AddressRoundTrip(State(), b);
      Kfree(addr);
    }

    /** The same, with known space staying free. */
    method KfreeIn(addr: uint32, ghost b: nat, ghost space: nat, ghost tail: bool)
      requires Valid() && Freeable(heap.live, heap.total, b) && addr == BlockToAddress(heap.saddr, b)
      requires Space(State(), space, tail)
      modifies heap.entries, heap`live
      ensures Valid() && heap.live == old(heap.live) - {b} && Space(State(), space, tail)
    {
      AddressRoundTrip(State(), b);
      SpaceAfterFree(State(), addr, b, space, tail);
      Kfree(addr);
    }

    /** A request of at most one block, when a block is free: a fresh one-block allocation. */
    method KmallocOne(size: uint32) returns (addr: uint32, ghost b: nat)
      requires Valid() && 1 <= size <= 4096 && State().FreeCount() > 0
      modifies heap.entries, heap`live
      ensures Valid()
      ensures b < heap.total && b !in old(heap.live) && heap.live == old(heap.live)[b := 1]
      ensures addr == BlockToAddress(heap.saddr, b)
      ensures State().FreeCount() == old(State().FreeCount()) - 1
      ensures b == old(State().FreeList())[0] && State().FreeList() == old(State().FreeList())[1..]
    {
      OneBlock(State(), size);
      b := StartBlock(State().table, heap.total, 1);
      addr := Kmalloc(size);
    }

    method KzallocOne(size: uint32) returns (addr: uint32, ghost b: nat)
      requires Valid() && 1 <= size <= 4096 && State().FreeCount() > 0
      modifies heap.entries, heap`live, cells
      ensures Valid()
      ensures b < heap.total && b !in old(heap.live) && heap.live == old(heap.live)[b := 1]
      ensures addr == BlockToAddress(heap.saddr, b)
      ensures State().FreeCount() == old(State().FreeCount()) - 1
      ensures b == old(State().FreeList())[0] && State().FreeList() == old(State().FreeList())[1..]
      ensures forall c | 0 <= c < cells.Length ::
        cells[c] == if 4096 * b <= c < 4096 * b + size then 0 else old(cells[c])
      ensures SameOutsideBlock(old(cells[..]), cells[..], b)
    {
      OneBlock(State(), size);
      b := StartBlock(State().table, heap.total, 1);
      addr := Kzalloc(size);
    }
  }

  /** What a safe request is given lies in the heap, with all the bytes asked for. */
  lemma ZeroedInside(h: HeapState, size: uint32)
    requires h.Good() && SafeRequest(h, size) && MallocResult(h, size) != 0
    requires MallocResult(h, size) + size <= 0x1_0000_0000
    ensures h.saddr <= MallocResult(h, size) && MallocResult(h, size) + size <= h.saddr + 4096 * h.total
  {
    hide AlignUp;
    hide BlocksFor;
    hide Describes;
    hide AfterMalloc;
    hide StartBlock;
    hide Fits;
    AlignUpCovers(size);
    if BlocksFor(size) == 0 {
      assert size == 0;
      EmptyRequest(h, size);
    } else {
      MallocGives(h, size);
    }
  }

  lemma OneBlock(h: HeapState, size: uint32)
    requires h.Good() && 1 <= size <= 4096 && h.FreeCount() > 0
    ensures BlocksFor(size) == 1 && SafeRequest(h, size) && Fits(h.table, h.total, 1)
    ensures var b, h' := StartBlock(h.table, h.total, 1), AfterMalloc(h, size);
      && 0 <= b < h.total && b !in h.live && h'.live == h.live[b := 1]
      && MallocResult(h, size) == BlockToAddress(h.saddr, b) > 0
      && h'.FreeCount() == h.FreeCount() - 1
      && b == h.FreeList()[0] && h'.FreeList() == h.FreeList()[1..]
  {
    FreeBlockExists(h.table, h.total, 0);
    assert AlignUp(size) == 4096;
    MallocGives(h, size);
    OneBlockTakesFirst(h.table, h.total, 0);
  }
}
