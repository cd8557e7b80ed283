/**
 What the operations of src/memory/heap/heap.c do to a heap, as functions on
 heap states, and what every run of them keeps.
 */
module HeapModel {
  import opened CTypes
  import opened HeapTable

  /** The heap's address range, its table, and (ghost view) the live allocations. */
  datatype HeapState = HeapState(saddr: uint32, total: nat, table: seq<TableEntry>, live: map<nat, nat>) {

    // 0x10_0000 entries behind the table are as far as the largest request can reach.
    ghost predicate Shaped() {
      && 0 < saddr && saddr % 4096 == 0
      && total <= 0x8_0000 && saddr + 4096 * total <= 0x1_0000_0000
      && |table| == total + 0x10_0000
    }

    ghost predicate Good() {
      Shaped() && Describes(table, total, live)
    }

    ghost function FreeCount(): nat
      requires total <= |table|
    {
      FreeBlocks(table, total, 0)
    }

    /** The free blocks, in the order in which one-block requests get them. */
    ghost function FreeList(): (list: seq<nat>)
      requires total <= |table|
      ensures |list| == FreeCount()
    {
      HeapTable.FreeList(table, total, 0)
    }
  }

  datatype Op = Malloc(size: uint32) | Free(addr: uint32)

  // ----- Sizes and addresses

  /** heap_align_value_to_upper, in 32-bit unsigned arithmetic. */
  function AlignUp(val: uint32): uint32 {
    ToUint32(val + (if val % 4096 != 0 then 1 else 0) * (4096 - val % 4096))
  }

  function BlocksFor(size: uint32): nat {
    AlignUp(size) / 4096
  }

  function BlockToAddress(saddr: uint32, block: nat): int {
    saddr + 4096 * block
  }

  /** heap_address_to_block: a signed difference, divided toward zero. */
  function AddressToBlock(saddr: uint32, addr: uint32): int {
    CDiv(ToInt32(addr - saddr), 4096)
  }

  /**
   The rounded size is the least multiple of the block size that covers the
   request exactly for the requests whose rounding does not pass 2^32; above
   that it wraps to zero blocks.
   */
  lemma AlignUpCovers(size: uint32)
    ensures AlignUp(size) % 4096 == 0
    ensures (size <= AlignUp(size) < size + 4096) <==> size <= 0xFFFF_F000
    ensures size > 0xFFFF_F000 ==> BlocksFor(size) == 0
    ensures size == 0 || size > 0xFFFF_F000 <==> BlocksFor(size) == 0
    ensures BlocksFor(size) < 0x10_0000
  {
  }

  lemma AddressRoundTrip(h: HeapState, b: nat)
    requires h.Shaped() && b < h.total
    ensures 0 < BlockToAddress(h.saddr, b) < 0x1_0000_0000
    ensures BlockToAddress(h.saddr, b) % 4096 == 0
    ensures AddressToBlock(h.saddr, BlockToAddress(h.saddr, b)) == b
  {
  }

  /** Block 0 is also that of the addresses just before the heap; any other, of those inside it. */
  lemma AddressToBlockIff(h: HeapState, addr: uint32, b: nat)
    requires h.Shaped() && b < h.total
    ensures AddressToBlock(h.saddr, addr) == b <==>
      (if b == 0 then h.saddr - 4096 < addr else h.saddr + 4096 * b <= addr) && addr < h.saddr + 4096 * (b + 1)
  {
  }

  // ----- heap_malloc and heap_free

  ghost function MallocResult(h: HeapState, size: uint32): (addr: int)
    requires h.Shaped()
  {
    var s := StartBlock(h.table, h.total, BlocksFor(size));
    if s < 0 then 0 else BlockToAddress(h.saddr, s)
  }

  ghost function AfterMalloc(h: HeapState, size: uint32): HeapState
    requires h.Shaped()
  {
    var n := BlocksFor(size);
    var s := StartBlock(h.table, h.total, n);
    AlignUpCovers(size);
    h.(table := if s < 0 then h.table else Mark(h.table, s, n),
       live := if n >= 1 && Fits(h.table, h.total, n) then h.live[s := n] else h.live)
  }

  /** heap_free of an address whose block number lies in the table. */
  ghost function AfterFree(h: HeapState, addr: uint32): HeapState
    requires h.Shaped() && 0 <= AddressToBlock(h.saddr, addr) <= h.total
  {
    var b := AddressToBlock(h.saddr, addr);
    h.(table := Release(h.table, h.total, b), live := h.live - {b})
  }

  /** The address is what heap_malloc returned for some live allocation. */
  ghost predicate IsLive(h: HeapState, addr: int) {
    exists b | b in h.live :: addr == BlockToAddress(h.saddr, b)
  }

  /** The guard that heap_get_start_block lacks: a run that fits, or a taken last block. */
  ghost predicate SafeRequest(h: HeapState, size: uint32)
    requires h.Shaped()
  {
    var n := BlocksFor(size);
    n == 0 || Fits(h.table, h.total, n) || h.total == 0 || !IsFree(h.table[h.total - 1])
  }

  /** An allocation keeps the table a description of live allocations exactly when the request is safe. */
  lemma MallocKeepsTableIff(h: HeapState, size: uint32)
    requires h.Good()
    ensures (exists live :: AfterMalloc(h, size).(live := live).Good()) <==> SafeRequest(h, size)
    ensures SafeRequest(h, size) ==> AfterMalloc(h, size).Good()
  {
    hide AlignUp;
    hide BlocksFor;
    hide Describes;
    AlignUpCovers(size);
    var n := BlocksFor(size);
    var h' := AfterMalloc(h, size);
    if n == 0 {
      assert h'.table == h.table;
      assert h'.(live := h.live).Good();
    } else {
      StartBlockIsFirstFit(h.table, h.total, n);
      if Fits(h.table, h.total, n) {
        MarkDescribes(h.table, h.total, h.live, StartBlock(h.table, h.total, n), n);
        assert h'.(live := h'.live).Good();
      } else if h.total == 0 || !IsFree(h.table[h.total - 1]) {
        assert h'.(live := h.live).Good();
      } else {
        forall live ensures !h'.(live := live).Good() {
          OverrunDescribesNothing(h.table, h.total, n, live);
        }
      }
    }
  }

  /**
   What a caller gets from a safe request for at least one byte: 0 exactly when
   nothing fits, and otherwise the lowest run of free blocks that covers the
   request. It shares no block with any live allocation, no other entry of the
   table changes, and that many fewer blocks are free.
   */
  lemma MallocGives(h: HeapState, size: uint32)
    requires h.Good() && SafeRequest(h, size) && BlocksFor(size) >= 1
    ensures var n, h' := BlocksFor(size), AfterMalloc(h, size);
      if !Fits(h.table, h.total, n) then MallocResult(h, size) == 0 && h' == h
      else
        var b := StartBlock(h.table, h.total, n);
        && 0 <= b && b + n <= h.total && size <= 4096 * n
        && MallocResult(h, size) == BlockToAddress(h.saddr, b)
        && (forall k | 0 <= k < b :: !FreeRun(h.table, h.total, k, n))
        && b !in h.live && h'.live == h.live[b := n]
        && (forall r | r in h.live :: r + h.live[r] <= b || b + n <= r)
        && h'.table == Mark(h.table, b, n)
        && h'.FreeCount() == h.FreeCount() - n
  {
    AlignUpCovers(size);
    var n := BlocksFor(size);
    StartBlockIsFirstFit(h.table, h.total, n);
    if Fits(h.table, h.total, n) {
      var s := StartBlock(h.table, h.total, n);
      MarkTakes(h.table, h.total, h.live, s, n);
    }
  }

  lemma MarkTakes(t: seq<TableEntry>, total: nat, live: map<nat, nat>, s: nat, n: nat)
    requires total <= |t| && Describes(t, total, live)
    requires n >= 1 && FreeRun(t, total, s, n)
    ensures s !in live
    ensures forall r | r in live :: r + live[r] <= s || s + n <= r
    ensures FreeBlocks(Mark(t, s, n), total, 0) == FreeBlocks(t, total, 0) - n
  {
    FreeRunIsUnowned(t, total, live, s, n);
    MarkDescribes(t, total, live, s, n);
    FreeBlocksAfter(t, Mark(t, s, n), total, live, s, n);
  }

  /** Freeing a live address keeps the description and returns exactly its blocks. */
  lemma FreeGives(h: HeapState, addr: uint32)
    requires h.Good() && IsLive(h, addr)
    ensures var b, h' := AddressToBlock(h.saddr, addr), AfterFree(h, addr);
      && b in h.live && addr == BlockToAddress(h.saddr, b)
      && h'.Good() && h'.live == h.live - {b}
      && h'.FreeCount() == h.FreeCount() + h.live[b]
  {
    var b :| b in h.live && addr == BlockToAddress(h.saddr, b);
    AddressRoundTrip(h, b);
    ReleaseDescribes(h.table, h.total, h.live, b);
    var h' := AfterFree(h, addr);
    assert h'.live[b := h.live[b]] == h.live;
    FreeBlocksAfter(h'.table, h.table, h.total, h'.live, b, h.live[b]);
  }

  /** heap_free undoes heap_malloc: every byte of the table is as before. */
  lemma FreeUndoesMalloc(h: HeapState, size: uint32)
    requires h.Good() && BlocksFor(size) >= 1 && Fits(h.table, h.total, BlocksFor(size))
    ensures AfterFree(AfterMalloc(h, size), MallocResult(h, size)) == h
  {
    AlignUpCovers(size);
    var n := BlocksFor(size);
    StartBlockIsFirstFit(h.table, h.total, n);
    var s := StartBlock(h.table, h.total, n);
    AddressRoundTrip(h, s);
    MarkDescribes(h.table, h.total, h.live, s, n);
    ReleaseUndoesMark(h.table, h.total, h.live, s, n);
    assert h.live[s := n] - {s} == h.live;
  }

  /** Freeing the block takes an allocation away, or nothing at all. */
  ghost predicate Freeable(live: map<nat, nat>, total: nat, b: nat) {
    b < total && (b in live || !Owned(live, b))
  }

  lemma StillFreeable(live: map<nat, nat>, total: nat, b: nat, gone: set<nat>)
    requires Freeable(live, total, b) && b !in gone
    ensures Freeable(live - gone, total, b)
  {
    var l := live - gone;
    if Owned(l, b) {
      var r :| r in l && r <= b < r + l[r];
      assert r in live && live[r] == l[r];
    }
  }

  lemma LiveIsOwned(h: HeapState, b: nat)
    requires h.Good()
    ensures b in h.live ==> Owned(h.live, b)
  {
    if b in h.live {
      assert IsChain(h.table, b, h.live[b]);
      assert b <= b < b + h.live[b];
    }
  }

  lemma LiveIsFreeable(h: HeapState, b: nat)
    requires h.Good() && b in h.live
    ensures Freeable(h.live, h.total, b)
  {
    assert IsChain(h.table, b, h.live[b]);
  }

  /** Freeing a block that nobody owns changes nothing. */
  lemma FreeOfUnowned(h: HeapState, b: nat)
    requires h.Good() && b < h.total && !Owned(h.live, b)
    ensures 0 <= AddressToBlock(h.saddr, BlockToAddress(h.saddr, b)) <= h.total
    ensures AfterFree(h, BlockToAddress(h.saddr, b)) == h
  {
    AddressRoundTrip(h, b);
    ReleaseOfUnowned(h.table, h.total, h.live, b);
    assert b in h.live ==> Owned(h.live, b);
  }

  /**
   A free keeps the table a description of live allocations exactly when it is of an
   allocation's first block or of a block that nobody owns: anywhere else it cuts an
   allocation in two.
   */
  lemma FreeKeepsTableIff(h: HeapState, addr: uint32)
    requires h.Good() && 0 <= AddressToBlock(h.saddr, addr) < h.total
    ensures var b := AddressToBlock(h.saddr, addr);
      && ((exists live :: AfterFree(h, addr).(live := live).Good()) <==> Freeable(h.live, h.total, b))
      && (AfterFree(h, addr).Good() <==> Freeable(h.live, h.total, b))
  {
    hide Describes;
    hide Release;
    hide AddressToBlock;
    var b, h' := AddressToBlock(h.saddr, addr), AfterFree(h, addr);
    ReleaseFrees(h.table, h.total, b);
    assert h'.(live := h'.live) == h';
    if b in h.live {
      ReleaseDescribes(h.table, h.total, h.live, b);
      assert h'.(live := h'.live).Good();
    } else if !Owned(h.live, b) {
      ReleaseOfUnowned(h.table, h.total, h.live, b);
      assert h.live - {b} == h.live;
      assert h'.(live := h'.live).Good();
    } else {
      forall live ensures !h'.(live := live).Good() {
        CutDescribesNothing(h.table, h.total, h.live, b, live);
      }
      assert !h'.(live := h'.live).Good();
    }
  }

  /** A free of the address right behind the heap meets no entry. */
  lemma FreeBehindTable(h: HeapState, addr: uint32)
    requires h.Good() && AddressToBlock(h.saddr, addr) == h.total
    ensures AfterFree(h, addr) == h
  {
    assert Release(h.table, h.total, h.total) == h.table;
    assert h.total !in h.live && h.live - {h.total} == h.live;
  }

  // ----- Several frees

  predicate AllBelow(bs: seq<nat>, total: nat) {
    forall i | 0 <= i < |bs| :: bs[i] < total
  }

  /** The heap after the blocks have been freed, one after the other. */
  ghost function AfterReleases(h: HeapState, bs: seq<nat>): (h': HeapState)
    requires h.Shaped() && AllBelow(bs, h.total)
    ensures h'.Shaped() && h'.saddr == h.saddr && h'.total == h.total
  {
    if bs == [] then h
    else
      var g, b := AfterReleases(h, bs[..|bs| - 1]), bs[|bs| - 1];
      ReleaseFrees(g.table, g.total, b);
      g.(table := Release(g.table, g.total, b), live := g.live - {b})
  }

  /** Whatever was freed on the way is free at the end. */
  lemma {:induction false} ReleasedIsFree(h: HeapState, bs: seq<nat>, b: nat)
    requires h.Shaped() && AllBelow(bs, h.total) && b in bs
    ensures AfterReleases(h, bs).table[b] == FREE
  {
    hide Release;
    var init, last := bs[..|bs| - 1], bs[|bs| - 1];
    ReleaseFrees(AfterReleases(h, init).table, h.total, last);
    if b != last {
      assert b in init;
      ReleasedIsFree(h, init, b);
    }
  }

  /** As long as no allocation is cut in two, the allocations that start at the blocks freed go, and no others. */
  lemma {:induction false} ReleasesGive(h: HeapState, bs: seq<nat>)
    requires h.Good() && AllBelow(bs, h.total) && forall b | b in bs :: Freeable(h.live, h.total, b)
    ensures AfterReleases(h, bs).Good() && AfterReleases(h, bs).live == h.live - set b | b in bs
  {
    hide Describes;
    hide Freeable;
    if bs == [] {
      assert h.live - {} == h.live;
    } else {
      var init, last := bs[..|bs| - 1], bs[|bs| - 1];
      assert forall b | b in init :: b in bs;
      ReleasesGive(h, init);
      var g := AfterReleases(h, init);
      var gone := set b | b in init;
      if last !in gone {
        StillFreeable(h.live, h.total, last, gone);
      } else {
        GoneIsFreeable(h, last, gone);
      }
      OneRelease(g, last);
      GoneInTurn(h.live, bs, init, last);
    }
  }

  lemma GoneInTurn(live: map<nat, nat>, bs: seq<nat>, init: seq<nat>, last: nat)
    requires bs == init + [last]
    ensures live - (set b | b in bs) == live - (set b | b in init) - {last}
  {
    assert (set b | b in bs) == (set b | b in init) + {last};
  }

  /** Once freed, a block can be freed again. */
  lemma GoneIsFreeable(h: HeapState, b: nat, gone: set<nat>)
    requires h.Good() && Freeable(h.live, h.total, b) && b in gone
    ensures Freeable(h.live - gone, h.total, b)
  {
    var l := h.live - gone;
    forall r | r in l ensures !(r <= b < r + l[r]) {
      if b in h.live {
        assert r < b || b < r;
      } else {
        assert r in h.live && l[r] == h.live[r];
      }
    }
  }

  lemma OneRelease(h: HeapState, b: nat)
    requires h.Good() && Freeable(h.live, h.total, b)
    ensures h.(table := Release(h.table, h.total, b), live := h.live - {b}).Good()
  {
    ReleaseFrees(h.table, h.total, b);
    if b in h.live {
      ReleaseDescribes(h.table, h.total, h.live, b);
    } else {
      ReleaseOfUnowned(h.table, h.total, h.live, b);
      assert h.live - {b} == h.live;
    }
  }

  /**
   One-block allocations have been added to a heap, and a number of blocks freed, those
   allocations among them: the table is as before exactly when none of the blocks was owned
   before.
   */
  lemma ReleasesRestoreIff(h0: HeapState, h: HeapState, added: set<nat>, bs: seq<nat>)
    requires h0.Good() && h.Good() && h.total == h0.total && AllBelow(bs, h.total)
    requires added !! h0.live.Keys && h.live == h0.live + map b | b in added :: 1
    requires forall b | b in added :: b in bs
    ensures AfterReleases(h, bs).table[..h.total] == h0.table[..h.total] <==> forall b | b in bs :: !Owned(h0.live, b)
    ensures (forall b | b in bs :: !Owned(h0.live, b)) ==>
      AfterReleases(h, bs).Good() && AfterReleases(h, bs).live == h0.live
  {
    hide Describes;
    hide AfterReleases;
    var h' := AfterReleases(h, bs);
    if forall b | b in bs :: !Owned(h0.live, b) {
      forall b | b in bs ensures Freeable(h.live, h.total, b) && b !in h0.live {
        AddedFreeable(h0, h, added, b);
      }
      ReleasesGive(h, bs);
      assert h.live - (set b | b in bs) == h0.live;
      DescribedTableIsUnique(h'.table, h0.table, h.total, h0.live);
    } else {
      var b :| b in bs && Owned(h0.live, b);
      ReleasedIsFree(h, bs, b);
      FreeIffNotOwned(h0.table, h.total, h0.live, b);
      assert h'.table[..h.total][b] == FREE != h0.table[..h.total][b];
    }
  }

  lemma AddedFreeable(h0: HeapState, h: HeapState, added: set<nat>, b: nat)
    requires h0.Good() && h.Good() && h.total == h0.total && b < h.total && !Owned(h0.live, b)
    requires added !! h0.live.Keys && h.live == h0.live + map b | b in added :: 1
    ensures Freeable(h.live, h.total, b) && b !in h0.live
  {
    LiveIsOwned(h0, b);
    forall r | r in h.live ensures r == b || !(r <= b < r + h.live[r]) {
      assert r in h0.live ==> h.live[r] == h0.live[r];
    }
  }

  // ----- Whole runs

  ghost predicate Legal(h: HeapState, op: Op)
    requires h.Shaped()
  {
    match op
    case Malloc(size) => SafeRequest(h, size)
    case Free(addr) => IsLive(h, addr)
  }

  lemma LegalKeepsGood(h: HeapState, op: Op)
    requires h.Good() && Legal(h, op)
    ensures Next(h, op).Good()
  {
    match op
    case Malloc(size) => MallocKeepsTableIff(h, size);
    case Free(addr) => FreeGives(h, addr);
  }

  ghost function Next(h: HeapState, op: Op): HeapState
    requires h.Good() && Legal(h, op)
  {
    match op
    case Malloc(size) => AfterMalloc(h, size)
    case Free(addr) => FreeGives(h, addr); AfterFree(h, addr)
  }

  /** `states` are the heaps before, between and after the operations `ops`. */
  ghost predicate IsRun(states: seq<HeapState>, ops: seq<Op>) {
    && |states| == |ops| + 1
    && forall i | 0 <= i < |ops| ::
      states[i].Good() ==> Legal(states[i], ops[i]) && states[i + 1] == Next(states[i], ops[i])
  }

  /** An allocation occupies an aligned byte range inside the heap. */
  ghost predicate RegionInside(h: HeapState, b: nat)
    requires b in h.live
  {
    && BlockToAddress(h.saddr, b) % 4096 == 0
    && h.saddr <= BlockToAddress(h.saddr, b)
    && BlockToAddress(h.saddr, b) < BlockToAddress(h.saddr, b + h.live[b]) <= BlockToAddress(h.saddr, h.total)
  }

  /** The byte ranges of two allocations have nothing in common. */
  ghost predicate RegionsApart(h: HeapState, b: nat, c: nat)
    requires b in h.live && c in h.live
  {
    || BlockToAddress(h.saddr, b + h.live[b]) <= BlockToAddress(h.saddr, c)
    || BlockToAddress(h.saddr, c + h.live[c]) <= BlockToAddress(h.saddr, b)
  }

  /** The allocations of a heap occupy disjoint, aligned byte ranges inside it. */
  ghost predicate LiveRegionsSeparate(h: HeapState) {
    && (forall b | b in h.live :: RegionInside(h, b))
    && (forall b, c | b in h.live && c in h.live && b != c :: RegionsApart(h, b, c))
  }

  /**
   Whole-run safety: after any run of safe requests and frees of live addresses
   the table describes the live allocations and only those, their byte ranges are
   aligned, disjoint and inside the heap, no byte behind the table has changed,
   and free and live blocks add up to the total.
   */
  lemma {:induction false} EveryRunIsSafe(states: seq<HeapState>, ops: seq<Op>)
    requires IsRun(states, ops) && states[0].Good()
    ensures var h := states[|ops|];
      && h.Good() && h.saddr == states[0].saddr && h.total == states[0].total
      && (forall live | Describes(h.table, h.total, live) :: live == h.live)
      && LiveRegionsSeparate(h)
      && h.table[h.total..] == states[0].table[h.total..]
      && h.FreeCount() + LiveBlocks(h.live, h.total, 0) == h.total
    decreases |ops|
  {
    var k := |ops|;
    var h := states[k];
    if k > 0 {
      EveryRunIsSafe(states[..k], ops[..k - 1]);
      LegalKeepsGood(states[k - 1], ops[k - 1]);
      TailUnchanged(states[k - 1], ops[k - 1]);
    }
    forall live | Describes(h.table, h.total, live) ensures live == h.live {
      DescribesOnlyOne(h.table, h.total, live, h.live);
    }
    BlocksAddUp(h.table, h.total, h.live, 0);
    RegionsSeparate(h);
  }

  lemma TailUnchanged(h: HeapState, op: Op)
    requires h.Good() && Legal(h, op)
    ensures Next(h, op).table[h.total..] == h.table[h.total..]
  {
    assert forall b | b in h.live :: b <= h.total;
    hide AlignUp;
    hide BlocksFor;
    hide Describes;
    hide Mark;
    hide Release;
    hide StartBlock;
    match op
    case Malloc(size) =>
      var n := BlocksFor(size);
      AlignUpCovers(size);
      if n >= 1 {
        StartBlockIsFirstFit(h.table, h.total, n);
        if Fits(h.table, h.total, n) {
          MarkLeavesTail(h.table, h.total, StartBlock(h.table, h.total, n), n);
        }
      } else {
        EmptyRequest(h, size);
      }
    case Free(addr) =>
      FreeGives(h, addr);
      ReleaseLeavesTail(h.table, h.total, AddressToBlock(h.saddr, addr));
  }

  lemma MarkLeavesTail(t: seq<TableEntry>, total: nat, b: nat, n: nat)
    requires b + n <= total <= |t|
    ensures Mark(t, b, n)[total..] == t[total..]
  {
  }

  lemma ReleaseLeavesTail(t: seq<TableEntry>, total: nat, b: nat)
    requires b <= total <= |t|
    ensures Release(t, total, b)[total..] == t[total..]
  {
  }

  lemma RegionsSeparate(h: HeapState)
    requires h.Good()
    ensures LiveRegionsSeparate(h)
  {
    hide Describes;
    hide RegionInside;
    hide RegionsApart;
    forall b | b in h.live ensures RegionInside(h, b) {
      OneRegion(h, b);
    }
    forall b, c | b in h.live && c in h.live && b != c ensures RegionsApart(h, b, c) {
      TwoRegions(h, b, c);
    }
  }

  lemma OneRegion(h: HeapState, b: nat)
    requires h.Good() && b in h.live
    ensures RegionInside(h, b)
  {
    assert IsChain(h.table, b, h.live[b]);
    BlockAligned(h.saddr, b);
  }

  lemma TwoRegions(h: HeapState, b: nat, c: nat)
    requires h.Good() && b in h.live && c in h.live && b != c
    ensures RegionsApart(h, b, c)
  {
    assert b < c || c < b;
  }

  lemma BlockAligned(saddr: uint32, b: nat)
    requires saddr % 4096 == 0
    ensures BlockToAddress(saddr, b) % 4096 == 0
  {
  }

  /**
   A request that rounds to no blocks is not an allocation: the table stays, and the
   address handed out, if any, is that of a block nobody owns.
   */
  lemma EmptyRequest(h: HeapState, size: uint32)
    requires h.Good() && BlocksFor(size) == 0
    ensures AfterMalloc(h, size) == h
    ensures var a := MallocResult(h, size);
      a != 0 ==> h.saddr <= a < BlockToAddress(h.saddr, h.total) && !Owned(h.live, AddressToBlock(h.saddr, a))
  {
    hide AlignUp;
    hide BlocksFor;
    var s := StartBlock(h.table, h.total, 0);
    assert AfterMalloc(h, size).table == h.table;
    if s >= 0 {
      AddressRoundTrip(h, s);
      FreeIffNotOwned(h.table, h.total, h.live, s);
    }
  }

  /** Two requests can be given one address: an empty one, then a real one. */
  lemma EmptyRequestAliases(h: HeapState)
    requires h.Good() && h.total > 0 && h.live == map[]
    ensures MallocResult(h, 0) == MallocResult(AfterMalloc(h, 0), 1) == h.saddr
  {
    EmptyRequest(h, 0);
    forall i | 0 <= i < h.total ensures IsFree(h.table[i]) {
      FreeIffNotOwned(h.table, h.total, h.live, i);
    }
    assert FreeRun(h.table, h.total, 0, 1);
    assert TrailingRun(h.table, h.total) == 0;
  }

  /** One concrete overrun: an empty heap of two blocks, asked for three, writes the byte behind its table. */
  lemma OverrunExample()
    ensures exists h: HeapState, size: uint32 ::
      h.Good() && h.live == map[] && AfterMalloc(h, size).table[h.total] != h.table[h.total]
  {
    var t := seq(2 + 0x10_0000, i => FREE);
    var h := HeapState(0x0100_0000, 2, t, map[]);
    assert h.Good();
    assert !Fits(t, 2, 3);
    StartBlockIsFirstFit(t, 2, 3);
    assert FreeRun(t, 2, 0, 2);
    assert TrailingRun(t, 2) == 0;
    var h' := AfterMalloc(h, 12288);
    assert BlocksFor(12288) == 3;
    assert h'.table[2] == ChainEntry(2, 3);
  }

  // ----- Room for several requests

  /** A run of n free blocks exists somewhere. */
  ghost predicate Room(h: HeapState, n: nat)
    requires h.Shaped()
  {
    Fits(h.table, h.total, n)
  }

  /** Of a free run at least what was not asked for is left, wherever the request was met. */
  lemma RoomAfterMalloc(h: HeapState, size: uint32, room: nat)
    requires h.Good() && Room(h, room) && 1 <= BlocksFor(size) <= room
    ensures SafeRequest(h, size) && Fits(h.table, h.total, BlocksFor(size))
    ensures AfterMalloc(h, size).Good() && Room(AfterMalloc(h, size), room - BlocksFor(size))
  {
    hide AlignUp;
    hide BlocksFor;
    hide Describes;
    hide Mark;
    hide StartBlock;
    var n := BlocksFor(size);
    var s :| FreeRun(h.table, h.total, s, room);
    assert FreeRun(h.table, h.total, s, n);
    MallocGives(h, size);
    MallocKeepsTableIff(h, size);
    RunLeft(h.table, h.total, s, room, StartBlock(h.table, h.total, n), n);
  }

  lemma RunLeft(t: seq<TableEntry>, total: nat, s: nat, room: nat, b: nat, n: nat)
    requires total <= |t| && FreeRun(t, total, s, room) && b <= s && n <= room && b + n <= total
    ensures Fits(Mark(t, b, n), total, room - n)
  {
    var from := if b + n <= s then s else b + n;
    assert FreeRun(Mark(t, b, n), total, from, room - n);
  }

  lemma RoomAfterFree(h: HeapState, addr: uint32, room: nat)
    requires h.Good() && Room(h, room) && IsLive(h, addr)
    ensures AfterFree(h, addr).Good() && Room(AfterFree(h, addr), room)
  {
    hide Describes;
    FreeGives(h, addr);
    var s :| FreeRun(h.table, h.total, s, room);
    assert FreeRun(AfterFree(h, addr).table, h.total, s, room);
  }

  /** The table ends in a run of more than n free blocks. */
  ghost predicate TailRoom(h: HeapState, n: nat)
    requires h.Shaped()
  {
    n < h.total && FreeRun(h.table, h.total, h.total - n - 1, n + 1)
  }

  /** Room for requests of n blocks in all; with `tail`, room that leaves the table's last block free. */
  ghost predicate Space(h: HeapState, n: nat, tail: bool)
    requires h.Shaped()
  {
    Room(h, n) && (tail ==> TailRoom(h, n))
  }

  lemma SpaceAfterMalloc(h: HeapState, size: uint32, n: nat, tail: bool)
    requires h.Good() && Space(h, n, tail) && 1 <= BlocksFor(size) <= n
    ensures SafeRequest(h, size) && Fits(h.table, h.total, BlocksFor(size))
    ensures AfterMalloc(h, size).Good() && Space(AfterMalloc(h, size), n - BlocksFor(size), tail)
  {
    hide AlignUp;
    hide BlocksFor;
    hide Describes;
    hide Mark;
    hide StartBlock;
    RoomAfterMalloc(h, size, n);
    if tail {
      var k := BlocksFor(size);
      MallocGives(h, size);
      assert FreeRun(h.table, h.total, h.total - n - 1, k);
      TailLeft(h.table, h.total, n, StartBlock(h.table, h.total, k), k);
    }
  }

  lemma TailLeft(t: seq<TableEntry>, total: nat, n: nat, b: nat, k: nat)
    requires total <= |t| && n < total && FreeRun(t, total, total - n - 1, n + 1) && b + n < total && k <= n
    ensures FreeRun(Mark(t, b, k), total, total - (n - k) - 1, n - k + 1)
  {
  }

  lemma SpaceAfterFree(h: HeapState, addr: uint32, b: nat, n: nat, tail: bool)
    requires h.Good() && Space(h, n, tail) && Freeable(h.live, h.total, b) && addr == BlockToAddress(h.saddr, b)
    ensures 0 <= AddressToBlock(h.saddr, addr) <= h.total && Space(AfterFree(h, addr), n, tail)
  {
    hide Describes;
    AddressRoundTrip(h, b);
    if b in h.live {
      FreeGives(h, addr);
      RoomAfterFree(h, addr, n);
    } else {
      FreeOfUnowned(h, b);
    }
  }

  /** With the last block free, a request for zero bytes is answered with a block that nobody owns. */
  lemma EmptyRequestAtTail(h: HeapState, n: nat)
    requires h.Good() && TailRoom(h, n)
    ensures AfterMalloc(h, 0) == h && SafeRequest(h, 0)
    ensures var b := StartBlock(h.table, h.total, 0);
      0 <= b < h.total && MallocResult(h, 0) == BlockToAddress(h.saddr, b) && !Owned(h.live, b)
  {
    hide AlignUp;
    AlignUpCovers(0);
    EmptyRequest(h, 0);
    assert IsFree(h.table[h.total - 1]);
    AddressRoundTrip(h, StartBlock(h.table, h.total, 0));
  }

  /** k one-block requests use up at most k blocks of known space. */
  lemma SpaceAfterOnes(h: HeapState, h': HeapState, k: nat, n: nat, tail: bool)
    requires h.Shaped() && h'.Shaped() && h'.total == h.total && Space(h, k + n, tail)
    requires k <= |h.FreeList()| && h'.FreeList() == h.FreeList()[k..]
    ensures Space(h', n, tail)
  {
    hide HeapTable.FreeList;
    var s :| FreeRun(h.table, h.total, s, k + n);
    RunLeftInFreeList(h.table, h'.table, h.total, k, s, k + n);
    if tail {
      RunLeftInFreeList(h.table, h'.table, h.total, k, h.total - (k + n) - 1, k + n + 1);
    }
  }
}
