/**
 The block table of src/memory/heap/heap.c as a value: one byte for every
 4096-byte block, and what allocation and release do to it.

 A table `t` may be longer than `total`: the bytes from `total` on are the
 memory behind the table, which an allocation can run into.
 */
module HeapTable {
  import opened CTypes

  type TableEntry = bv8

  const FREE: TableEntry := 0x00
  const TAKEN: TableEntry := 0x01
  const IS_FIRST: TableEntry := 0x40
  const HAS_NEXT: TableEntry := 0x80

  predicate IsFree(e: TableEntry) {
    e & 0x0F == FREE
  }

  predicate HasNext(e: TableEntry) {
    e & HAS_NEXT != 0
  }

  /** Free entries are those whose lower four bits are clear, whatever the flags. */
  lemma FreeEntries(e: TableEntry)
    ensures IsFree(e) <==> e in {0x00, 0x10, 0x20, 0x30, 0x40, 0x50, 0x60, 0x70,
                                 0x80, 0x90, 0xA0, 0xB0, 0xC0, 0xD0, 0xE0, 0xF0}
  {
  }

  /** TableEntry number i of an allocation of n blocks. */
  function ChainEntry(i: nat, n: nat): TableEntry {
    TAKEN | (if i == 0 then IS_FIRST else 0) | (if i + 1 < n then HAS_NEXT else 0)
  }

  // ----- First fit

  ghost predicate FreeRun(t: seq<TableEntry>, total: nat, s: int, n: nat)
    requires total <= |t|
  {
    0 <= s && s + n <= total && forall i | s <= i < s + n :: IsFree(t[i])
  }

  ghost predicate Fits(t: seq<TableEntry>, total: nat, n: nat)
    requires total <= |t|
  {
    exists s :: FreeRun(t, total, s, n)
  }

  /** The least start of a run of n free blocks at or after i; total when there is none. */
  ghost function FirstFit(t: seq<TableEntry>, total: nat, n: nat, i: nat): (s: nat)
    requires i <= total <= |t|
    ensures i <= s <= total
    ensures s < total ==> FreeRun(t, total, s, n)
    ensures forall k | i <= k < s :: !FreeRun(t, total, k, n)
    decreases total - i
  {
    if i == total || FreeRun(t, total, i, n) then i else FirstFit(t, total, n, i + 1)
  }

  /** The start of the free run that ends the table; total when the last block is taken. */
  ghost function TrailingRun(t: seq<TableEntry>, total: nat): (s: nat)
    requires total <= |t|
    ensures s <= total
    ensures forall i | s <= i < total :: IsFree(t[i])
    ensures s == 0 || !IsFree(t[s - 1])
  {
    if total == 0 || !IsFree(t[total - 1]) then total else TrailingRun(t, total - 1)
  }

  /** The block at which heap_malloc_blocks starts marking, or -ENOMEM. */
  ghost function StartBlock(t: seq<TableEntry>, total: nat, n: nat): int
    requires total <= |t|
  {
    if n >= 1 && FirstFit(t, total, n, 0) < total then FirstFit(t, total, n, 0)
    else if TrailingRun(t, total) < total then TrailingRun(t, total)
    else -ENOMEM
  }

  lemma FitsIsFirstFit(t: seq<TableEntry>, total: nat, n: nat)
    requires total <= |t| && n >= 1
    ensures Fits(t, total, n) <==> FirstFit(t, total, n, 0) < total
  {
    if Fits(t, total, n) {
      var s :| FreeRun(t, total, s, n);
    }
  }

  /**
   First fit: whenever a run of n >= 1 free blocks exists the search returns the
   least start of one. When none does it reports -ENOMEM exactly if the table's
   last block is taken, and otherwise returns a run that is too short.
   */
  lemma StartBlockIsFirstFit(t: seq<TableEntry>, total: nat, n: nat)
    requires total <= |t| && n >= 1
    ensures var s := StartBlock(t, total, n);
      if Fits(t, total, n) then
        FreeRun(t, total, s, n) && forall k | 0 <= k < s :: !FreeRun(t, total, k, n)
      else if total == 0 || !IsFree(t[total - 1]) then
        s == -3
      else
        FreeRun(t, total, s, total - s) && 0 <= s < total < s + n
  {
    FitsIsFirstFit(t, total, n);
    var s := TrailingRun(t, total);
    if !Fits(t, total, n) && s < total {
      if s + n <= total {
        assert FreeRun(t, total, s, n);
      }
    }
  }

  // ----- Marking and releasing

  ghost function Mark(t: seq<TableEntry>, s: nat, n: nat): (m: seq<TableEntry>)
    requires s + n <= |t|
    ensures |m| == |t|
  {
    t[..s] + seq(n, i requires 0 <= i => ChainEntry(i, n)) + t[s + n..]
  }

  /** How many entries heap_mark_blocks_free clears when it starts at s. */
  ghost function ChainLength(t: seq<TableEntry>, total: nat, s: nat): (n: nat)
    requires s <= total <= |t|
    ensures s + n <= total
    ensures s < total ==> n >= 1
    decreases total - s
  {
    if s == total then 0
    else if HasNext(t[s]) then 1 + ChainLength(t, total, s + 1)
    else 1
  }

  ghost function Release(t: seq<TableEntry>, total: nat, s: nat): seq<TableEntry>
    requires s <= total <= |t|
  {
    var n := ChainLength(t, total, s);
    t[..s] + seq(n, i => FREE) + t[s + n..]
  }

  lemma {:induction false} ChainLengthOfChain(t: seq<TableEntry>, total: nat, s: nat, n: nat, i: nat)
    requires i < n && s + n <= total <= |t| && IsChain(t, s, n)
    ensures ChainLength(t, total, s + i) == n - i
    decreases n - i
  {
    if i + 1 < n {
      ChainLengthOfChain(t, total, s, n, i + 1);
    }
  }

  // ----- The live allocations

  /** The n >= 1 entries from s are flagged as one allocation. */
  predicate IsChain(t: seq<TableEntry>, s: nat, n: nat) {
    n >= 1 && s + n <= |t| && forall i | s <= i < s + n :: t[i] == ChainEntry(i - s, n)
  }

  predicate Owned(live: map<nat, nat>, i: int) {
    exists s | s in live :: s <= i < s + live[s]
  }

  /**
   The flags of the table describe exactly the allocations in `live` (first block
   to number of blocks): each one is a FIRST entry chained by HAS_NEXT to its
   last block, no two share a block, and every other entry is FREE.
   */
  ghost predicate Describes(t: seq<TableEntry>, total: nat, live: map<nat, nat>)
    requires total <= |t|
  {
    && (forall s | s in live :: s + live[s] <= total && IsChain(t, s, live[s]))
    && (forall s, s' | s in live && s' in live && s < s' :: s + live[s] <= s')
    && (forall i | 0 <= i < total :: t[i] == FREE || Owned(live, i))
  }

  /** A block that belongs to an allocation is not free. */
  lemma OwnedIsTaken(t: seq<TableEntry>, total: nat, live: map<nat, nat>, i: nat)
    requires total <= |t| && Describes(t, total, live) && Owned(live, i)
    ensures i < total && !IsFree(t[i])
  {
    var s :| s in live && s <= i < s + live[s];
    assert IsChain(t, s, live[s]);
  }

  lemma FreeIffNotOwned(t: seq<TableEntry>, total: nat, live: map<nat, nat>, i: nat)
    requires i < total <= |t| && Describes(t, total, live)
    ensures IsFree(t[i]) <==> !Owned(live, i)
    ensures IsFree(t[i]) ==> t[i] == FREE
  {
    if Owned(live, i) {
      OwnedIsTaken(t, total, live, i);
    }
  }

  /** The flags leave no choice: a table describes at most one set of allocations. */
  lemma DescribesOnlyOne(t: seq<TableEntry>, total: nat, l1: map<nat, nat>, l2: map<nat, nat>)
    requires total <= |t| && Describes(t, total, l1) && Describes(t, total, l2)
    ensures l1 == l2
  {
    forall s | s in l1 ensures s in l2 && l2[s] == l1[s] {
      DescribesSame(t, total, l1, l2, s);
    }
    forall s | s in l2 ensures s in l1 {
      DescribesSame(t, total, l2, l1, s);
    }
  }

  /** The byte of a block, by whether it is the first and whether it is the last of its allocation. */
  lemma BytesAre(t: seq<TableEntry>, total: nat, live: map<nat, nat>, i: nat)
    requires i < total <= |t| && Describes(t, total, live)
    ensures !Owned(live, i) ==> t[i] == 0x00
    ensures forall s | s in live && s <= i < s + live[s] ::
      t[i] == if i == s then (if live[s] == 1 then 0x41 else 0xC1) else if i == s + live[s] - 1 then 0x01 else 0x81
  {
    forall s | s in live && s <= i < s + live[s]
      ensures t[i] ==
        if i == s then (if live[s] == 1 then 0x41 else 0xC1) else if i == s + live[s] - 1 then 0x01 else 0x81
    {
      assert IsChain(t, s, live[s]);
    }
  }

  lemma DescribesSame(t: seq<TableEntry>, total: nat, l1: map<nat, nat>, l2: map<nat, nat>, s: nat)
    requires total <= |t| && Describes(t, total, l1) && Describes(t, total, l2)
    requires s in l1
    ensures s in l2 && l2[s] == l1[s]
  {
    assert IsChain(t, s, l1[s]);
    assert Owned(l2, s);
    var s' :| s' in l2 && s' <= s < s' + l2[s'];
    assert IsChain(t, s', l2[s']);
    assert s == s';
    ChainLengthOfChain(t, total, s, l1[s], 0);
    ChainLengthOfChain(t, total, s, l2[s], 0);
  }

  /** And the allocations determine the table, byte for byte. */
  lemma DescribedTableIsUnique(t: seq<TableEntry>, t': seq<TableEntry>, total: nat, live: map<nat, nat>)
    requires total <= |t| && total <= |t'| && Describes(t, total, live) && Describes(t', total, live)
    ensures t[..total] == t'[..total]
  {
    forall i | 0 <= i < total ensures t[i] == t'[i] {
      if Owned(live, i) {
        var s :| s in live && s <= i < s + live[s];
        assert IsChain(t, s, live[s]) && IsChain(t', s, live[s]);
      }
    }
  }

  // ----- Every step keeps the description

  lemma FreeRunIsUnowned(t: seq<TableEntry>, total: nat, live: map<nat, nat>, s: nat, n: nat)
    requires total <= |t| && Describes(t, total, live)
    requires n >= 1 && FreeRun(t, total, s, n)
    ensures forall r | r in live :: r + live[r] <= s || s + n <= r
    ensures forall i | s <= i < s + n :: t[i] == FREE
  {
    forall i | s <= i < s + n ensures t[i] == FREE && !Owned(live, i) {
      FreeIffNotOwned(t, total, live, i);
    }
    forall r | r in live ensures r + live[r] <= s || s + n <= r {
      if s <= r < s + n {
        assert Owned(live, r);
      } else if r < s < r + live[r] {
        assert Owned(live, s);
      }
    }
  }

  lemma MarkedChains(t: seq<TableEntry>, total: nat, live: map<nat, nat>, s: nat, n: nat, r: nat)
    requires total <= |t| && Describes(t, total, live)
    requires n >= 1 && s + n <= total && r in live[s := n]
    requires r == s || r + live[r] <= s || s + n <= r
    ensures r + live[s := n][r] <= total && IsChain(Mark(t, s, n), r, live[s := n][r])
  {
    assert r == s || IsChain(t, r, live[r]);
  }

  lemma MarkedIsOwned(t: seq<TableEntry>, total: nat, live: map<nat, nat>, s: nat, n: nat, i: nat)
    requires total <= |t| && Describes(t, total, live) && s + n <= total && i < total
    requires s !in live
    ensures Mark(t, s, n)[i] == FREE || Owned(live[s := n], i)
  {
    var l := live[s := n];
    if s <= i < s + n {
      assert s in l && s <= i < s + l[s];
    } else if t[i] != FREE {
      var r :| r in live && r <= i < r + live[r];
      assert r in l && r <= i < r + l[r];
    }
  }

  lemma MarkDescribes(t: seq<TableEntry>, total: nat, live: map<nat, nat>, s: nat, n: nat)
    requires total <= |t| && Describes(t, total, live)
    requires n >= 1 && FreeRun(t, total, s, n)
    ensures s !in live
    ensures Describes(Mark(t, s, n), total, live[s := n])
  {
    FreeRunIsUnowned(t, total, live, s, n);
    hide Mark;
    hide IsChain;
    hide Owned;
    var m, l := Mark(t, s, n), live[s := n];
    forall r | r in l ensures r + l[r] <= total && IsChain(m, r, l[r]) {
      MarkedChains(t, total, live, s, n, r);
    }
    forall i | 0 <= i < total ensures m[i] == FREE || Owned(l, i) {
      MarkedIsOwned(t, total, live, s, n, i);
    }
  }

  /** A release changes the entries of its own chain only. */
  lemma ReleasedElsewhere(t: seq<TableEntry>, total: nat, s: nat, n: nat)
    requires s + n <= total <= |t| && ChainLength(t, total, s) == n
    ensures var f := Release(t, total, s);
      |f| == |t| && forall i | 0 <= i < |t| :: f[i] == if s <= i < s + n then FREE else t[i]
  {
  }

  lemma ChainElsewhere(t: seq<TableEntry>, f: seq<TableEntry>, r: nat, n: nat)
    requires |f| == |t| && IsChain(t, r, n) && forall i | r <= i < r + n && i < |t| :: f[i] == t[i]
    ensures IsChain(f, r, n)
  {
    hide ChainEntry;
  }

  lemma ReleaseDescribes(t: seq<TableEntry>, total: nat, live: map<nat, nat>, s: nat)
    requires total <= |t| && Describes(t, total, live) && s in live
    ensures ChainLength(t, total, s) == live[s]
    ensures Describes(Release(t, total, s), total, live - {s})
  {
    hide ChainEntry;
    hide Release;
    var n := live[s];
    assert IsChain(t, s, n);
    ChainLengthOfChain(t, total, s, n, 0);
    ReleasedElsewhere(t, total, s, n);
    var f, l := Release(t, total, s), live - {s};
    forall r | r in l ensures r + l[r] <= total && IsChain(f, r, l[r]) {
      assert r < s || s < r;
      ChainElsewhere(t, f, r, live[r]);
    }
    forall i | 0 <= i < total ensures f[i] == FREE || Owned(l, i) {
      if !(s <= i < s + n) && t[i] != FREE {
        var r :| r in live && r <= i < r + live[r];
        assert r in l && r <= i < r + l[r];
      }
    }
  }

  lemma ReleaseOfUnowned(t: seq<TableEntry>, total: nat, live: map<nat, nat>, b: nat)
    requires b < total <= |t| && Describes(t, total, live) && !Owned(live, b)
    ensures Release(t, total, b) == t
  {
    FreeIffNotOwned(t, total, live, b);
    assert t[b] == FREE && ChainLength(t, total, b) == 1;
  }

  /** A release clears the entry it starts at, and makes no entry anything but free. */
  lemma ReleaseFrees(t: seq<TableEntry>, total: nat, b: nat)
    requires b <= total <= |t|
    ensures var f := Release(t, total, b);
      |f| == |t| && (b < total ==> f[b] == FREE) && forall i | 0 <= i < |t| :: f[i] == t[i] || f[i] == FREE
  {
  }

  /** In a table that describes allocations, an entry flagged HAS_NEXT is followed by one that is taken. */
  lemma NextIsTaken(t: seq<TableEntry>, total: nat, live: map<nat, nat>, i: nat)
    requires i + 1 < total <= |t| && Describes(t, total, live) && HasNext(t[i])
    ensures !IsFree(t[i + 1])
  {
    var s :| s in live && s <= i < s + live[s];
    assert IsChain(t, s, live[s]);
  }

  /** A release from the middle of an allocation leaves its front leading to a free block: that describes nothing. */
  lemma CutDescribesNothing(t: seq<TableEntry>, total: nat, live: map<nat, nat>, b: nat, live': map<nat, nat>)
    requires b < total <= |t| && Describes(t, total, live) && Owned(live, b) && b !in live
    ensures !Describes(Release(t, total, b), total, live')
  {
    var r :| r in live && r <= b < r + live[r];
    assert IsChain(t, r, live[r]);
    var f := Release(t, total, b);
    assert f[b - 1] == ChainEntry(b - 1 - r, live[r]) && f[b] == FREE;
    if Describes(f, total, live') {
      NextIsTaken(f, total, live', b - 1);
    }
  }

  /** Releasing what was just allocated restores every byte of the table. */
  lemma ReleaseUndoesMark(t: seq<TableEntry>, total: nat, live: map<nat, nat>, s: nat, n: nat)
    requires total <= |t| && Describes(t, total, live)
    requires n >= 1 && FreeRun(t, total, s, n)
    ensures Release(Mark(t, s, n), total, s) == t
  {
    FreeRunIsUnowned(t, total, live, s, n);
    ChainLengthOfChain(Mark(t, s, n), total, s, n, 0);
  }

  lemma NoChainLeavesTheTable(t: seq<TableEntry>, total: nat, live: map<nat, nat>)
    requires 0 < total <= |t| && Describes(t, total, live)
    ensures !HasNext(t[total - 1])
  {
    var last := total - 1;
    if t[last] != FREE {
      var s :| s in live && s <= last < s + live[s];
      assert IsChain(t, s, live[s]);
    }
  }

  /**
   A request that does not fit, on a table whose last block is free, marks past
   the end: what is left in the table describes no set of allocations.
   */
  lemma OverrunDescribesNothing(t: seq<TableEntry>, total: nat, n: nat, live: map<nat, nat>)
    requires n >= 1 && total + n <= |t|
    requires !Fits(t, total, n) && total > 0 && IsFree(t[total - 1])
    ensures !Describes(Mark(t, StartBlock(t, total, n), n), total, live)
  {
    StartBlockIsFirstFit(t, total, n);
    var s := StartBlock(t, total, n);
    var m := Mark(t, s, n);
    var last := total - 1;
    assert m[last] == ChainEntry(last - s, n);
    if Describes(m, total, live) {
      NoChainLeavesTheTable(m, total, live);
    }
  }

  // ----- Conservation

  /** The number of free blocks from block i to the end of the table. */
  function FreeBlocks(t: seq<TableEntry>, total: nat, i: nat): nat
    requires i <= total <= |t|
    decreases total - i
  {
    if i == total then 0
    else (if IsFree(t[i]) then 1 else 0) + FreeBlocks(t, total, i + 1)
  }

  /** The blocks of the allocations that start at or after block i. */
  function LiveBlocks(live: map<nat, nat>, total: nat, i: nat): nat
    requires i <= total
    decreases total - i
  {
    if i == total then 0
    else (if i in live then live[i] else 0) + LiveBlocks(live, total, i + 1)
  }

  /** Inside an allocation nothing is free and nothing starts. */
  lemma {:induction false} SkipBlocks(t: seq<TableEntry>, total: nat, live: map<nat, nat>, i: nat, j: nat)
    requires i <= j <= total <= |t|
    requires forall k | i <= k < j :: k !in live && !IsFree(t[k])
    ensures FreeBlocks(t, total, i) == FreeBlocks(t, total, j)
    ensures LiveBlocks(live, total, i) == LiveBlocks(live, total, j)
    decreases j - i
  {
    if i < j {
      SkipBlocks(t, total, live, i + 1, j);
    }
  }

  /** From any block that is not in the middle of an allocation, free and live blocks add up. */
  lemma {:induction false} BlocksAddUp(t: seq<TableEntry>, total: nat, live: map<nat, nat>, i: nat)
    requires i <= total <= |t| && Describes(t, total, live)
    requires forall s | s in live && s < i :: s + live[s] <= i
    ensures FreeBlocks(t, total, i) + LiveBlocks(live, total, i) == total - i
    decreases total - i
  {
    if i < total {
      FreeIffNotOwned(t, total, live, i);
      if i in live {
        var j := i + live[i];
        assert Owned(live, i);
        forall k | i + 1 <= k < j ensures k !in live && !IsFree(t[k]) {
          assert Owned(live, k);
          FreeIffNotOwned(t, total, live, k);
        }
        SkipBlocks(t, total, live, i + 1, j);
        BlocksAddUp(t, total, live, j);
      } else {
        assert !Owned(live, i);
        BlocksAddUp(t, total, live, i + 1);
      }
    }
  }

  lemma {:induction false} LiveBlocksAdd(live: map<nat, nat>, total: nat, s: nat, n: nat, i: nat)
    requires s < total && i <= total && s !in live
    ensures LiveBlocks(live[s := n], total, i) == LiveBlocks(live, total, i) + (if i <= s then n else 0)
    decreases total - i
  {
    if i < total {
      LiveBlocksAdd(live, total, s, n, i + 1);
    }
  }

  /** An allocation of n blocks leaves n fewer free, and releasing it gives them back. */
  lemma FreeBlocksAfter(t: seq<TableEntry>, t': seq<TableEntry>, total: nat, live: map<nat, nat>, s: nat, n: nat)
    requires total <= |t| && total <= |t'| && s < total && s !in live
    requires Describes(t, total, live) && Describes(t', total, live[s := n])
    ensures FreeBlocks(t', total, 0) == FreeBlocks(t, total, 0) - n
  {
    BlocksAddUp(t, total, live, 0);
    BlocksAddUp(t', total, live[s := n], 0);
    LiveBlocksAdd(live, total, s, n, 0);
  }

  lemma {:induction false} FreeBlockExists(t: seq<TableEntry>, total: nat, i: nat)
    requires i <= total <= |t| && FreeBlocks(t, total, i) > 0
    ensures exists k :: FreeRun(t, total, k, 1)
    decreases total - i
  {
    if IsFree(t[i]) {
      assert FreeRun(t, total, i, 1);
    } else {
      FreeBlockExists(t, total, i + 1);
    }
  }

  // ----- The order in which blocks are handed out

  /** The free blocks from block i on, lowest first. */
  function FreeList(t: seq<TableEntry>, total: nat, i: nat): (list: seq<nat>)
    requires i <= total <= |t|
    ensures |list| == FreeBlocks(t, total, i)
    ensures forall k | 0 <= k < |list| :: i <= list[k] < total && IsFree(t[list[k]])
    ensures forall j, k | 0 <= j < k < |list| :: list[j] < list[k]
    decreases total - i
  {
    if i == total then []
    else (if IsFree(t[i]) then [i] else []) + FreeList(t, total, i + 1)
  }

  lemma {:induction false} FreeListSame(t: seq<TableEntry>, t': seq<TableEntry>, total: nat, i: nat)
    requires i <= total <= |t| && total <= |t'| && t[i..total] == t'[i..total]
    ensures FreeList(t, total, i) == FreeList(t', total, i)
    decreases total - i
  {
    if i < total {
      assert t[i] == t[i..total][0] == t'[i..total][0] == t'[i];
      assert t[i + 1..total] == t[i..total][1..] == t'[i + 1..total];
      FreeListSame(t, t', total, i + 1);
    }
  }

  /** A request for one block gets the first free block, and the others stay in their order. */
  lemma {:induction false} OneBlockTakesFirst(t: seq<TableEntry>, total: nat, i: nat)
    requires i <= total <= |t| && FreeList(t, total, i) != []
    ensures var list := FreeList(t, total, i);
      && FirstFit(t, total, 1, i) == list[0]
      && FreeList(Mark(t, list[0], 1), total, i) == list[1..]
    decreases total - i
  {
    hide Mark;
    hide IsFree;
    var b := FreeList(t, total, i)[0];
    var m := Mark(t, b, 1);
    OneBlockMarked(t, b);
    if IsFree(t[i]) {
      assert FreeRun(t, total, i, 1);
      assert m[i + 1..total] == t[i + 1..total];
      FreeListSame(t, m, total, i + 1);
    } else {
      assert !FreeRun(t, total, i, 1);
      OneBlockTakesFirst(t, total, i + 1);
    }
  }

  lemma OneBlockMarked(t: seq<TableEntry>, b: nat)
    requires b < |t|
    ensures var m := Mark(t, b, 1); |m| == |t| && !IsFree(m[b]) && forall k | 0 <= k < |t| && k != b :: m[k] == t[k]
  {
  }

  lemma {:induction false} InFreeList(t: seq<TableEntry>, total: nat, i: nat, b: nat)
    requires i <= b < total <= |t| && IsFree(t[b])
    ensures b in FreeList(t, total, i)
    decreases total - i
  {
    if i < b {
      InFreeList(t, total, i + 1, b);
    }
  }

  /** In an ascending list that holds the numbers from s to b, b has b - s before it. */
  lemma {:induction false} PlaceInRun(list: seq<nat>, s: nat, b: nat, place: nat)
    requires forall i, j | 0 <= i < j < |list| :: list[i] < list[j]
    requires s <= b && forall c | s <= c <= b :: c in list
    requires place < |list| && list[place] == b
    ensures place >= b - s
    decreases b - s
  {
    if s < b {
      var c := b - 1;
      assert c in list;
      var before :| 0 <= before < |list| && list[before] == c;
      PlaceInRun(list, s, c, before);
    }
  }

  /** When the first k free blocks are taken, a free run loses at most its first k. */
  lemma RunLeftInFreeList(t: seq<TableEntry>, t': seq<TableEntry>, total: nat, k: nat, s: nat, r: nat)
    requires total <= |t| && total <= |t'| && FreeRun(t, total, s, r) && k <= r
    requires k <= |FreeList(t, total, 0)| && FreeList(t', total, 0) == FreeList(t, total, 0)[k..]
    ensures FreeRun(t', total, s + k, r - k)
  {
    hide IsFree;
    hide FreeList;
    var list := FreeList(t, total, 0);
    forall b | s <= b < s + r ensures b in list {
      InFreeList(t, total, 0, b);
    }
    forall b | s + k <= b < s + r ensures IsFree(t'[b]) {
      assert b in list;
      var place :| 0 <= place < |list| && list[place] == b;
      PlaceInRun(list, s, b, place);
      assert list[k..][place - k] == b;
    }
  }
}
