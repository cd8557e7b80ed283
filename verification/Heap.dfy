/**
 The allocator of src/memory/heap/heap.c over its in-place table. Each method is
 tied to the functions of HeapModel, where its properties are proved.
 */
module Heap {
  import opened CTypes
  import opened HeapTable
  import opened HeapModel

  class Heap {
    var saddr: uint32
    const total: nat
    // The table in its first `total` bytes, then the memory behind it.
    const entries: array<TableEntry>
    ghost var live: map<nat, nat>

    ghost function State(): HeapState
      reads this, entries
    {
      HeapState(saddr, total, entries[..], live)
    }

    ghost predicate Valid()
      reads this, entries
    {
      State().Good()
    }

    constructor (total: nat)
      ensures this.total == total && fresh(entries) && entries.Length == total + 0x10_0000
      ensures live == map[]
    {
      this.total := total;
      entries := new TableEntry[total + 0x10_0000];
      saddr := 0;
      live := map[];
    }

    /** Takes the region from ptr to end into service; -EINVARG when it is not aligned or not the table's size. */
    method Create(ptr: uint32, end: uint32) returns (res: int32)
      requires entries.Length >= total
      modifies this, entries
      ensures var fits := ptr % 4096 == 0 && end % 4096 == 0 && ToUint32(end - ptr) / 4096 == total;
        res == if fits then 0 else -EINVARG
      ensures res == 0 ==> saddr == ptr && live == map[] && forall i | 0 <= i < total :: entries[i] == FREE
      ensures forall i | total <= i < entries.Length :: entries[i] == old(entries[i])
      ensures res != 0 ==> entries[..] == old(entries[..])
      ensures res == 0 && 0 < ptr <= end && total <= 0x8_0000 && entries.Length == total + 0x10_0000 ==> Valid()
    {
      live := map[];
      if ptr % 4096 != 0 || end % 4096 != 0 {
        return -EINVARG;
      }
      saddr := ptr;
      if total != ToUint32(end - ptr) / 4096 {
        return -EINVARG;
      }
      for i := 0 to total
        invariant saddr == ptr && live == map[]
        invariant forall k | 0 <= k < i :: entries[k] == FREE
        invariant forall k | i <= k < entries.Length :: entries[k] == old(entries[k])
      {
        entries[i] := FREE;
      }
      res := 0;
    }

    /** heap_get_start_block: the first-fit scan. */
    method GetStartBlock(n: nat) returns (bs: int)
      requires total <= entries.Length
      ensures bs == StartBlock(entries[..], total, n)
    {
      ghost var t := entries[..];
      var bc := 0;
      bs := -1;
      var i := 0;
      while i < total
        invariant 0 <= i <= total
        invariant bs == -1 ==> bc == 0 && (i == 0 || !IsFree(t[i - 1]))
        invariant bs != -1 ==> 0 <= bs < i && bc == i - bs && FreeRun(t, total, bs, bc)
        invariant bs > 0 ==> !IsFree(t[bs - 1])
        invariant n >= 1 ==> bc < n && forall k | 0 <= k && k + n <= i :: !FreeRun(t, total, k, n)
      {
        if !IsFree(entries[i]) {
          bc := 0;
          bs := -1;
          i := i + 1;
          continue;
        }
        if bs == -1 {
          bs := i;
        }
        bc := bc + 1;
        if bc == n {
          assert FreeRun(t, total, bs, n);
          assert forall k | 0 <= k < bs :: !FreeRun(t, total, k, n) by { NoEarlierRun(t, total, bs, n, i); }
          return;
        }
        assert n >= 1 ==> !FreeRun(t, total, i + 1 - n, n) by {
          if n >= 1 {
            NoRunEndsHere(t, total, bs, n, i);
          }
        }
        i := i + 1;
      }
      FitsNowhere(t, total, n);
      if bs == -1 {
        return -ENOMEM;
      }
    }

    /** heap_mark_blocks_taken: FIRST on the first block, HAS_NEXT on all but the last. */
    method MarkBlocksTaken(start: nat, n: nat)
      requires start + n <= entries.Length
      modifies entries
      ensures entries[..] == Mark(old(entries[..]), start, n)
    {
      var end := start + n - 1;
      var entry := TAKEN | IS_FIRST;
      if n > 1 {
        entry := entry | HAS_NEXT;
      }
      var i := start;
      while i <= end
        invariant start <= i <= start + n
        invariant i < start + n ==> entry == ChainEntry(i - start, n)
        invariant forall k | start <= k < i :: entries[k] == ChainEntry(k - start, n)
        invariant forall k | 0 <= k < entries.Length && !(start <= k < i) :: entries[k] == old(entries[k])
      {
        entries[i] := entry;
        entry := TAKEN;
        if i != end - 1 {
          entry := entry | HAS_NEXT;
        }
        i := i + 1;
      }
    }

    /** heap_mark_blocks_free: clears entries up to and including the first without HAS_NEXT. */
    method MarkBlocksFree(start: nat)
      requires start <= total <= entries.Length
      modifies entries
      ensures entries[..] == Release(old(entries[..]), total, start)
    {
      ghost var t := entries[..];
      ghost var len := ChainLength(t, total, start);
      var i := start;
      while i < total
        invariant start <= i <= total
        invariant len == i - start + ChainLength(t, total, i)
        invariant forall k | start <= k < i :: entries[k] == FREE
        invariant forall k | 0 <= k < entries.Length && !(start <= k < i) :: entries[k] == t[k]
      {
        var entry := entries[i];
        entries[i] := FREE;
        if !HasNext(entry) {
          assert len == i + 1 - start;
          break;
        }
        i := i + 1;
      }
    }

    method Malloc(size: uint32) returns (addr: uint32)
      requires State().Shaped()
      modifies entries, `live
      ensures addr == MallocResult(old(State()), size)
      ensures State() == AfterMalloc(old(State()), size)
      ensures old(Valid()) ==> (Valid() <==> SafeRequest(old(State()), size))
    {
      ghost var h := State();
      AlignUpCovers(size);
      if h.Good() {
        MallocKeepsTableIff(h, size);
      }
      var n := AlignUp(size) / 4096;
      var start := GetStartBlock(n);
      if Fits(h.table, total, n) && n >= 1 {
        live := live[start := n];
      }
      if start < 0 {
        return 0;
      }
      AddressRoundTrip(h, start);
      addr := BlockToAddress(saddr, start);
      MarkBlocksTaken(start, n);
    }

    method Free(addr: uint32)
      requires State().Shaped() && 0 <= AddressToBlock(saddr, addr) <= total
      modifies entries, `live
      ensures State() == AfterFree(old(State()), addr)
      ensures old(Valid()) ==>
        var b := AddressToBlock(saddr, addr);
        Valid() <==> b == total || Freeable(old(live), total, b)
    {
      ghost var h := State();
      if h.Good() {
        if AddressToBlock(saddr, addr) < total {
          FreeKeepsTableIff(h, addr);
        } else {
          FreeBehindTable(h, addr);
        }
      }
      var b := AddressToBlock(saddr, addr);
      live := live - {b};
      MarkBlocksFree(b);
    }
  }

  // ----- Steps of the scan

  /** The scan stopped at its first chance: no run of n starts before bs. */
  lemma NoEarlierRun(t: seq<TableEntry>, total: nat, bs: nat, n: nat, i: nat)
    requires i < total <= |t| && n >= 1 && i == bs + n - 1
    requires bs > 0 ==> !IsFree(t[bs - 1])
    requires forall k | 0 <= k && k + n <= i :: !FreeRun(t, total, k, n)
    ensures forall k | 0 <= k < bs :: !FreeRun(t, total, k, n)
  {
  }

  lemma NoRunEndsHere(t: seq<TableEntry>, total: nat, bs: nat, n: nat, i: nat)
    requires bs <= i < total <= |t| && 1 <= i + 1 - bs && n >= 1 && i + 1 - bs < n
    requires bs > 0 ==> !IsFree(t[bs - 1])
    ensures !FreeRun(t, total, i + 1 - n, n)
  {
  }

  lemma FitsNowhere(t: seq<TableEntry>, total: nat, n: nat)
    requires total <= |t|
    requires n >= 1 ==> forall k | 0 <= k && k + n <= total :: !FreeRun(t, total, k, n)
    ensures StartBlock(t, total, n) == if TrailingRun(t, total) < total then TrailingRun(t, total) else -ENOMEM
  {
    if n >= 1 && FirstFit(t, total, n, 0) < total {
      assert false;
    }
  }
}
