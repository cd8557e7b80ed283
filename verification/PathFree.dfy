/**
 pparser_free of src/fs/pparser.c: it walks a list over whatever memory holds, and frees
 the blocks it meets. What that does to everybody else's blocks, and when it undoes a parse.
 */
module PathFree {
  import opened CTypes
  import opened Options
  import opened HeapTable
  import opened HeapModel
  import opened KernelHeap
  import opened PathSyntax
  import opened PathParser

  // ----- Freeing a list

  /** The block number that heap_free makes of an address; one that no table has for addresses before the heap. */
  function BlockNumber(s: uint32, addr: uint32): nat {
    if AddressToBlock(s, addr) >= 0 then AddressToBlock(s, addr) else 0x10_0000
  }

  lemma BlockNumberOf(s: uint32, b: nat)
    requires b < 0x8_0000 && BlockToAddress(s, b) < 0x1_0000_0000
    ensures BlockNumber(s, BlockToAddress(s, b)) == b
  {
  }

  /** The two fields of a node lie in the heap's memory, and the second leads to `next`. */
  ghost predicate NodeReads(m: seq<uint32>, s: uint32, node: uint32, next: uint32) {
    node != 0 && InsideMemory(m, s, node) && InsideMemory(m, s, node + 4) && m[node + 4 - s] == next
  }

  /** From `part` on a walk meets these nodes, wherever in memory they are, and ends. */
  ghost predicate WalksOver(m: seq<uint32>, s: uint32, part: uint32, nodes: seq<uint32>) {
    && part == NodeOr0(nodes, 0)
    && forall i | 0 <= i < |nodes| :: StepsAt(m, s, nodes, i)
  }

  function NodeOr0(nodes: seq<uint32>, i: nat): uint32 {
    if i < |nodes| then nodes[i] else 0
  }

  ghost predicate StepsAt(m: seq<uint32>, s: uint32, nodes: seq<uint32>, i: nat)
    requires i < |nodes|
  {
    NodeReads(m, s, nodes[i], NodeOr0(nodes, i + 1))
  }

  /** The block that is freed for the name of a node. */
  function NameBlock(m: seq<uint32>, s: uint32, node: uint32): nat {
    if InsideMemory(m, s, node) then BlockNumber(s, m[node - s]) else 0x10_0000
  }

  /** The blocks freed on the way: for each node its name's and its own. */
  function Visited(m: seq<uint32>, s: uint32, nodes: seq<uint32>): (bs: seq<nat>)
    ensures |bs| == 2 * |nodes|
  {
    if nodes == [] then []
    else
      var last := nodes[|nodes| - 1];
      Visited(m, s, nodes[..|nodes| - 1]) + [NameBlock(m, s, last), BlockNumber(s, last)]
  }

  /** The walk from the root in block rb meets these nodes, and frees blocks of the heap only. */
  ghost predicate ListWalk(m: seq<uint32>, s: uint32, total: nat, rb: nat, nodes: seq<uint32>) {
    && rb < total && |m| == 4096 * total
    && WalksOver(m, s, m[4096 * rb + 4], nodes) && AllBelow(Visited(m, s, nodes), total)
  }

  lemma OneMoreRelease(h: HeapState, bs: seq<nat>, b: nat)
    requires h.Shaped() && AllBelow(bs, h.total) && b < h.total
    ensures AllBelow(bs + [b], h.total)
    ensures var g := AfterReleases(h, bs);
      AfterReleases(h, bs + [b]) == g.(table := Release(g.table, g.total, b), live := g.live - {b})
  {
    assert (bs + [b])[..|bs|] == bs;
  }

  lemma {:induction false} VisitedPrefix(m: seq<uint32>, s: uint32, nodes: seq<uint32>, i: nat)
    requires i <= |nodes|
    ensures Visited(m, s, nodes[..i]) == Visited(m, s, nodes)[..2 * i]
    decreases |nodes| - i
  {
    if i == |nodes| {
      assert nodes[..i] == nodes;
    } else {
      var init := nodes[..|nodes| - 1];
      assert nodes[..i] == init[..i];
      VisitedPrefix(m, s, init, i);
    }
  }

  lemma VisitedPair(m: seq<uint32>, s: uint32, nodes: seq<uint32>, i: nat)
    requires i < |nodes|
    ensures Visited(m, s, nodes)[2 * i] == NameBlock(m, s, nodes[i])
    ensures Visited(m, s, nodes)[2 * i + 1] == BlockNumber(s, nodes[i])
    ensures Visited(m, s, nodes[..i + 1]) ==
      Visited(m, s, nodes[..i]) + [NameBlock(m, s, nodes[i]), BlockNumber(s, nodes[i])]
  {
    hide NameBlock;
    hide BlockNumber;
    var taken := nodes[..i + 1];
    assert taken[..|taken| - 1] == nodes[..i] && taken[|taken| - 1] == nodes[i];
    VisitedPrefix(m, s, nodes, i + 1);
    var all, pairs := Visited(m, s, nodes), Visited(m, s, taken);
    assert pairs[2 * i] == all[2 * i] && pairs[2 * i + 1] == all[2 * i + 1];
  }

  lemma VisitedSoFar(m: seq<uint32>, s: uint32, total: nat, nodes: seq<uint32>, i: nat)
    requires i < |nodes| && AllBelow(Visited(m, s, nodes), total)
    ensures AllBelow(Visited(m, s, nodes[..i]), total)
    ensures NameBlock(m, s, nodes[i]) < total && BlockNumber(s, nodes[i]) < total
    ensures Visited(m, s, nodes[..i + 1]) ==
      Visited(m, s, nodes[..i]) + [NameBlock(m, s, nodes[i]), BlockNumber(s, nodes[i])]
  {
    hide Visited;
    hide NameBlock;
    hide BlockNumber;
    VisitedPrefix(m, s, nodes, i);
    VisitedPair(m, s, nodes, i);
  }

  /** pparser_free: walks from the root and frees the name and the node of each node it meets, then the root. */
  method Free(k: Kernel, root: uint32, ghost rb: nat, ghost nodes: seq<uint32>)
    requires k.Shaped() && root == BlockToAddress(k.heap.saddr, rb)
    requires ListWalk(k.cells[..], k.heap.saddr, k.heap.total, rb, nodes)
    modifies k.heap.entries, k.heap`live
    ensures k.Shaped() && AllBelow(Visited(k.cells[..], k.heap.saddr, nodes) + [rb], k.heap.total)
    ensures k.State() == AfterReleases(old(k.State()), Visited(k.cells[..], k.heap.saddr, nodes) + [rb])
  {
    hide Visited;
    hide AfterReleases;
    hide AllBelow;
    hide Release;
    ghost var h0, m, s, total, i, n := k.State(), k.cells[..], k.heap.saddr, k.heap.total, 0, |nodes|;
    ghost var all := Visited(m, s, nodes);
    NothingVisited(h0, m, s);
    assert nodes[..n] == nodes && nodes[..0] == [];
    var part := k.Load(root + 4);
    assert n > 0 ==> StepsAt(m, s, nodes, 0);
    while part != 0
      invariant 0 <= i <= n && k.Shaped()
      invariant part == NodeOr0(nodes, i) && (i < n ==> part != 0)
      invariant AllBelow(Visited(m, s, nodes[..i]), total)
      invariant k.State() == AfterReleases(h0, Visited(m, s, nodes[..i]))
      decreases n - i
    {
      assert StepsAt(m, s, nodes, i);
      ghost var bs, name, node := Visited(m, s, nodes[..i]), NameBlock(m, s, nodes[i]), BlockNumber(s, nodes[i]);
      VisitedSoFar(m, s, total, nodes, i);
      OneMoreRelease(h0, bs, name);
      OneMoreRelease(h0, bs + [name], node);
      assert bs + [name] + [node] == bs + [name, node];
      var next := k.Load(part + 4);
      NumberInTable(k.State(), k.Load(part));
      k.Kfree(k.Load(part));
      NumberInTable(k.State(), part);
      k.Kfree(part);
      part := next;
      i := i + 1;
      assert i < n ==> StepsAt(m, s, nodes, i);
    }
    OneMoreRelease(h0, all, rb);
    RootNumber(k.State(), rb);
    k.Kfree(root);
  }

  lemma NothingVisited(h: HeapState, m: seq<uint32>, s: uint32)
    requires h.Shaped()
    ensures Visited(m, s, []) == [] && AllBelow([], h.total) && AfterReleases(h, []) == h
  {
  }

  lemma NumberInTable(h: HeapState, addr: uint32)
    requires h.Shaped() && BlockNumber(h.saddr, addr) < h.total
    ensures AddressToBlock(h.saddr, addr) == BlockNumber(h.saddr, addr)
  {
  }

  lemma RootNumber(h: HeapState, b: nat)
    requires h.Shaped() && b < h.total
    ensures AddressToBlock(h.saddr, BlockToAddress(h.saddr, b)) == b
  {
    AddressRoundTrip(h, b);
  }

  // ----- Lists where a parse puts them

  /** The i-th node of a list, where a parse would put it, holds the address of the i-th name's buffer. */
  ghost predicate Named(m: seq<uint32>, s: uint32, free: seq<nat>, i: nat)
    requires 0 < i && 2 * i < |free|
  {
    InMemory(m, free[2 * i]) && m[4096 * free[2 * i]] == BlockToAddress(s, free[2 * i - 1])
  }

  /** The i-th node leads to the one behind it. */
  ghost predicate GoesOn(m: seq<uint32>, s: uint32, free: seq<nat>, i: nat)
    requires 0 < i && 2 * (i + 1) < |free|
  {
    LeadsTo(m, free[2 * i], BlockToAddress(s, free[2 * (i + 1)])) && Named(m, s, free, i + 1)
  }

  /** From node i a walk goes on, node by node, up to the last one, and ends there. */
  ghost predicate WalksTo(m: seq<uint32>, s: uint32, free: seq<nat>, i: nat, last: nat) {
    && 0 < i <= last && 2 * last < |free| && LeadsTo(m, free[2 * last], 0)
    && forall j | i <= j < last :: GoesOn(m, s, free, j)
  }

  /** Whatever memory holds behind a list of n names leads a walk to an end. */
  ghost predicate WalkEnds(m: seq<uint32>, s: uint32, free: seq<nat>, n: nat) {
    n > 0 ==> exists last :: WalksTo(m, s, free, n, last)
  }

  ghost predicate Ascending(list: seq<nat>) {
    forall i, j | 0 <= i < j < |list| :: list[i] < list[j]
  }

  // ----- What a list leaves in memory

  /** Memory m after a list of n names was built in memory m0: its links, and behind them what was there. */
  ghost predicate Leftovers(m0: seq<uint32>, m: seq<uint32>, s: uint32, free: seq<nat>, n: nat)
    requires 2 * n < |free|
  {
    && |m| == |m0|
    && (forall i | 0 < i < n :: GoesOn(m, s, free, i))
    && (n > 0 ==> InMemory(m, free[2 * n]) && LeadsTo(m, free[2 * n], m0[4096 * free[2 * n] + 4]))
    && (forall i | 2 * n < i < |free| && InMemory(m0, free[i]) :: SameInBlock(m0, m, free[i]))
  }

  lemma WhatIsLeft(m0: seq<uint32>, m: seq<uint32>, s: uint32, free: seq<nat>, bs: Blocks, drive: int,
                   names: seq<string>)
    requires Building(m0, m, s, bs, drive, names) && Placed(free, bs) && |bs.nodes| == |names| && Ascending(free)
    ensures Leftovers(m0, m, s, free, |names|)
    ensures names != [] ==> Named(m, s, free, 1)
    ensures LeadsTo(m, free[0], if names == [] then 0 else BlockToAddress(s, free[2]))
  {
    assert |m| == |m0|;
    hide Linked;
    hide Named;
    hide GoesOn;
    hide Placed;
    hide SameOutsideBlocks;
    hide Blocks.All;
    var n := |names|;
    PlacedRooms(free, bs);
    if n > 0 {
      PlacedNamed(m, s, free, bs, names, 1);
    }
    forall i | 0 < i < n ensures GoesOn(m, s, free, i) {
      PlacedGoesOn(m, s, free, bs, names, i);
    }
    forall i | 2 * n < i < |free| && InMemory(m0, free[i]) ensures SameInBlock(m0, m, free[i]) {
      NotPlaced(free, bs, i);
      BlockKept(m0, m, free[i], bs.All());
    }
  }

  lemma PlacedRooms(free: seq<nat>, bs: Blocks)
    requires Placed(free, bs)
    ensures 2 * |bs.nodes| < |free| && bs.root == free[0]
    ensures bs.nodes != [] ==> bs.nodes[0] == free[2] && bs.nodes[|bs.nodes| - 1] == free[2 * |bs.nodes|]
  {
    if bs.nodes != [] {
      assert bs.nodes[|bs.nodes| - 1] == free[2 + 2 * (|bs.nodes| - 1)];
    }
  }

  lemma PlacedNamed(m: seq<uint32>, s: uint32, free: seq<nat>, bs: Blocks, names: seq<string>, i: nat)
    requires Linked(m, s, bs, names) && Placed(free, bs) && 0 < i <= |names|
    ensures Named(m, s, free, i)
  {
    hide NameStored;
    assert NodeStored(m, s, bs, i - 1, names[i - 1]);
    assert bs.nodes[i - 1] == free[2 + 2 * (i - 1)] && bs.buffers[i - 1] == free[1 + 2 * (i - 1)];
  }

  lemma PlacedGoesOn(m: seq<uint32>, s: uint32, free: seq<nat>, bs: Blocks, names: seq<string>, i: nat)
    requires Linked(m, s, bs, names) && Placed(free, bs) && 0 < i < |names|
    ensures GoesOn(m, s, free, i)
  {
    hide Named;
    PlacedNamed(m, s, free, bs, names, i + 1);
    assert LeadsOn(m, s, bs, i - 1);
    assert bs.nodes[i - 1] == free[2 + 2 * (i - 1)] && bs.nodes[i] == free[2 + 2 * i];
  }

  lemma NotPlaced(free: seq<nat>, bs: Blocks, k: nat)
    requires Placed(free, bs) && 2 * |bs.nodes| < k < |free| && Ascending(free)
    ensures free[k] !in bs.All()
  {
  }

  lemma PlacedIsFirst(free: seq<nat>, bs: Blocks)
    requires Placed(free, bs)
    ensures bs.All() == Elements(free[..1 + 2 * |bs.nodes|])
  {
    var n := |bs.nodes|;
    var taken := free[..1 + 2 * n];
    forall b | b in taken ensures b in bs.All() {
      var j :| 0 <= j < |taken| && taken[j] == b;
      assert j > 0 && j % 2 == 1 ==> bs.buffers[(j - 1) / 2] == b;
      assert j > 0 && j % 2 == 0 ==> bs.nodes[(j - 2) / 2] == b;
    }
    forall i | 0 <= i < n ensures bs.buffers[i] in taken && bs.nodes[i] in taken {
      assert taken[1 + 2 * i] == bs.buffers[i] && taken[2 + 2 * i] == bs.nodes[i];
    }
    assert taken[0] == bs.root;
  }

  /** A walk that would have ended behind the list still does, from any of the list's nodes. */
  lemma WalksOn(m0: seq<uint32>, m: seq<uint32>, s: uint32, free: seq<nat>, n: nat, i: nat, last: nat)
    requires 2 * n < |free| && Leftovers(m0, m, s, free, n) && 0 < i
    requires if i <= n then WalksTo(m0, s, free, n, last) else WalksTo(m0, s, free, i, last)
    ensures WalksTo(m, s, free, i, last)
  {
    forall j | i <= j < last ensures GoesOn(m, s, free, j) {
      if j >= n {
        assert GoesOn(m0, s, free, j);
        assert SameInBlock(m0, m, free[2 * (j + 1)]);
        if j > n {
          assert SameInBlock(m0, m, free[2 * j]);
        }
      }
    }
    if last > n {
      assert SameInBlock(m0, m, free[2 * last]);
    }
  }

  /** So parsing never spoils the end of a walk that had one. */
  lemma WalksStillEnd(m0: seq<uint32>, m: seq<uint32>, s: uint32, free: seq<nat>, n: nat)
    requires 2 * n < |free| && Leftovers(m0, m, s, free, n) && WalkEnds(m0, s, free, n)
    ensures forall i: nat | i <= n || WalkEnds(m0, s, free, i) :: WalkEnds(m, s, free, i)
  {
    forall i: nat | i <= n || WalkEnds(m0, s, free, i) ensures WalkEnds(m, s, free, i) {
      if i > n {
        var last :| WalksTo(m0, s, free, i, last);
        WalksOn(m0, m, s, free, n, i, last);
      } else if i > 0 {
        var last :| WalksTo(m0, s, free, n, last);
        WalksOn(m0, m, s, free, n, i, last);
      }
    }
  }

  // ----- The memory of a list, without parsing

  /** The blocks of a list of n names: the first free ones, in turn. */
  function ListBlocks(free: seq<nat>, n: nat): (bs: Blocks)
    requires 2 * n < |free|
    ensures |bs.buffers| == |bs.nodes| == n
  {
    Blocks(free[0], seq(n, i requires 0 <= i < n => free[1 + 2 * i]), seq(n, i requires 0 <= i < n => free[2 + 2 * i]))
  }

  lemma PlacedIsListBlocks(free: seq<nat>, bs: Blocks)
    requires Placed(free, bs)
    ensures bs == ListBlocks(free, |bs.nodes|)
  {
  }

  lemma ListBlocksPlaced(free: seq<nat>, n: nat)
    requires 2 * n < |free| && Ascending(free)
    ensures Placed(free, ListBlocks(free, n)) && ListBlocks(free, n).Distinct()
  {
    PlacedDistinct(free, ListBlocks(free, n));
  }

  lemma PlacedDistinct(free: seq<nat>, bs: Blocks)
    requires Placed(free, bs) && Ascending(free)
    ensures bs.Distinct()
  {
    forall i | 0 <= i < |bs.nodes| ensures bs.root != bs.buffers[i] && bs.root != bs.nodes[i] {
      assert free[0] < free[1 + 2 * i] && free[0] < free[2 + 2 * i];
    }
    forall i, j | 0 <= i < |bs.nodes| && 0 <= j < |bs.nodes| ensures bs.buffers[i] != bs.nodes[j] {
      assert free[1 + 2 * i] != free[2 + 2 * j];
    }
  }

  ghost predicate CanParse(h: HeapState, path: string)
    requires h.Shaped()
  {
    '\0' !in path && PathSyntax.Parse(path).Path? && h.FreeCount() >= 1 + 2 * Turns(path[3..])
  }

  /** Memory m0 after the path has been parsed on a heap with these free blocks. */
  function MemoryAfter(m0: seq<uint32>, s: uint32, free: seq<nat>, path: string): (m: seq<uint32>)
    ensures |m| == |m0|
  {
    match PathSyntax.Parse(path)
    case Path(drive, names) =>
      if 2 * |names| < |free| then ListMemory(m0, s, ListBlocks(free, |names|), drive, names) else m0
    case Rejected => m0
    case Hangs => m0
  }

  function FirstOf(free: seq<nat>): nat {
    if free == [] then 0 else free[0]
  }

  lemma NamesAreTurns(path: string)
    requires PathSyntax.Parse(path).Path?
    ensures |PathSyntax.Parse(path).names| <= Turns(path[3..])
  {
    if PathSyntax.Parse(path).names != [] {
      OneTurnEach(path[3..]);
    }
  }

  lemma {:induction false} OneTurnEach(rest: string)
    requires PathSyntax.Names(rest).Some?
    ensures |PathSyntax.Names(rest).value| == Turns(rest)
    decreases |rest|
  {
    if rest != "" {
      var name, after := NamesStep(rest);
      OneTurnEach(after);
    }
  }

  lemma {:induction false} ListIsBuilt(m0: seq<uint32>, s: uint32, bs: Blocks, drive: int, names: seq<string>)
    requires bs.Distinct() && |bs.nodes| == |bs.buffers| == |names| && bs.root in bs.All() && 0 <= drive < 0x1_0000_0000
    requires forall b | b in bs.All() :: InMemory(m0, b) && BlockToAddress(s, b) < 0x1_0000_0000
    requires forall i | 0 <= i < |names| :: |names[i]| < MAX_PATH
    ensures Building(m0, ListMemory(m0, s, bs, drive, names), s, bs, drive, names)
    decreases |names|
  {
    hide Building;
    hide ListMemory;
    hide NodeMade;
    hide Put;
    hide Blocks.All;
    hide Blocks.Distinct;
    hide NodeAt;
    hide LeadsTo;
    hide SameOutsideBlocks;
    if names == [] {
      RootIsBuilt(m0, s, bs, drive);
    } else {
      var n := |names| - 1;
      var before, buffer, node := Blocks(bs.root, bs.buffers[..n], bs.nodes[..n]), bs.buffers[n], bs.nodes[n];
      LastIsOutside(bs, before, buffer, node);
      ListIsBuilt(m0, s, before, drive, names[..n]);
      var m1 := ListMemory(m0, s, before, drive, names[..n]);
      var m2 := NodeMade(m1, s, buffer, node, names[n]);
      NodeIsMade(m1, s, buffer, node, names[n]);
      BuildingGrows(m0, m1, m2, s, before, drive, names[..n], buffer, node, names[n]);
      ListMemoryGrows(m0, s, before, drive, names[..n], buffer, node, names[n]);
      PutInside(m2, 4096 * LinkFrom(before) + 4, BlockToAddress(s, node));
      assert names[..n] + [names[n]] == names;
    }
  }

  lemma RootIsBuilt(m0: seq<uint32>, s: uint32, bs: Blocks, drive: int)
    requires bs.buffers == [] && bs.nodes == [] && InMemory(m0, bs.root) && 0 <= drive < 0x1_0000_0000
    ensures Building(m0, ListMemory(m0, s, bs, drive, []), s, bs, drive, [])
  {
    hide Linked;
    var m := ListMemory(m0, s, bs, drive, []);
    EmptyList(m, s, bs);
    OneBlockChanged(m0, m, bs.root);
  }

  lemma LastIsOutside(bs: Blocks, before: Blocks, buffer: nat, node: nat)
    requires bs.Distinct() && bs.nodes != []
    requires var n := |bs.nodes| - 1;
      before == Blocks(bs.root, bs.buffers[..n], bs.nodes[..n]) && buffer == bs.buffers[n] && node == bs.nodes[n]
    ensures before.Distinct() && bs == before.With(buffer, node)
    ensures buffer != node && buffer !in before.All() && node !in before.All()
    ensures before.All() <= bs.All() && buffer in bs.All() && node in bs.All() && LinkFrom(before) in bs.All()
    ensures before.root in before.All()
  {
  }

  /** What parsing a path makes of memory: a list in the first free blocks, and nothing else. */
  lemma PathIsBuilt(h: HeapState, m0: seq<uint32>, path: string)
    requires h.Good() && |m0| == 4096 * h.total && CanParse(h, path)
    ensures var p, free := PathSyntax.Parse(path), h.FreeList();
      && 2 * |p.names| < |free|
      && Building(m0, MemoryAfter(m0, h.saddr, free, path), h.saddr, ListBlocks(free, |p.names|), p.drive, p.names)
  {
    hide Describes;
    hide Building;
    hide ListMemory;
    hide HeapTable.FreeList;
    var p, free := PathSyntax.Parse(path), h.FreeList();
    var n := |p.names|;
    NamesAreTurns(path);
    PartsFit(path);
    ListBlocksPlaced(free, n);
    var bs := ListBlocks(free, n);
    PlacedIsFirst(free, bs);
    forall b | b in bs.All() ensures InMemory(m0, b) && BlockToAddress(h.saddr, b) < 0x1_0000_0000 {
      var j := PlaceOf(free[..1 + 2 * n], b);
      ListedIsFree(h, j);
    }
    ListIsBuilt(m0, h.saddr, bs, p.drive, p.names);
  }

  lemma PartsFit(path: string)
    requires PathSyntax.Parse(path).Path?
    ensures 0 <= PathSyntax.Parse(path).drive <= 9
    ensures forall n | n in PathSyntax.Parse(path).names :: |n| < MAX_PATH
  {
    hide DigitValue;
    DigitRoundTrip(path[0], 0);
    if PathSyntax.Parse(path).names != [] {
      PrintParse(path);
    }
  }

  /** A block on the free list belongs to no allocation. */
  lemma ListedIsFree(h: HeapState, j: nat)
    requires h.Good() && j < |h.FreeList()|
    ensures h.FreeList()[j] < h.total && !Owned(h.live, h.FreeList()[j]) && h.FreeList()[j] !in h.live
  {
    var b := h.FreeList()[j];
    FreeIffNotOwned(h.table, h.total, h.live, b);
    LiveIsOwned(h, b);
  }

  // ----- Parsing and freeing

  /** The nodes of the list itself come first on the walk, so all its blocks are freed. */
  lemma ListIsVisited(m: seq<uint32>, s: uint32, total: nat, free: seq<nat>, n: nat, nodes: seq<uint32>)
    requires 2 * n < |free| && ListWalk(m, s, total, free[0], nodes) && total <= 0x8_0000
    requires s > 0 && s + 4096 * total <= 0x1_0000_0000 && forall j | 0 <= j <= 2 * n :: free[j] < total
    requires n > 0 ==> Named(m, s, free, 1)
    requires LeadsTo(m, free[0], if n == 0 then 0 else BlockToAddress(s, free[2]))
    requires forall i | 0 < i < n :: GoesOn(m, s, free, i)
    ensures n <= |nodes| && forall j | 0 < j <= 2 * n :: Visited(m, s, nodes)[j - 1] == free[j]
  {
    hide BlockNumber;
    hide Visited;
    var i := 0;
    while i < n
      invariant 0 <= i <= n && i <= |nodes|
      invariant i < n ==> i < |nodes| && nodes[i] == BlockToAddress(s, free[2 * (i + 1)]) && Named(m, s, free, i + 1)
      invariant forall j | 0 < j <= 2 * i :: Visited(m, s, nodes)[j - 1] == free[j]
    {
      ListNodeVisited(m, s, total, free, n, nodes, i);
      i := i + 1;
    }
  }

  lemma ListNodeVisited(m: seq<uint32>, s: uint32, total: nat, free: seq<nat>, n: nat, nodes: seq<uint32>, i: nat)
    requires 2 * n < |free| && ListWalk(m, s, total, free[0], nodes) && total <= 0x8_0000 && i < n && i < |nodes|
    requires s > 0 && s + 4096 * total <= 0x1_0000_0000 && forall j | 0 <= j <= 2 * n :: free[j] < total
    requires nodes[i] == BlockToAddress(s, free[2 * (i + 1)]) && Named(m, s, free, i + 1)
    requires i + 1 < n ==> GoesOn(m, s, free, i + 1)
    ensures i + 1 < n ==>
      i + 1 < |nodes| && nodes[i + 1] == BlockToAddress(s, free[2 * (i + 2)]) && Named(m, s, free, i + 2)
    ensures Visited(m, s, nodes)[2 * i] == free[2 * i + 1] && Visited(m, s, nodes)[2 * i + 1] == free[2 * i + 2]
  {
    hide BlockNumber;
    hide Visited;
    hide AllBelow;
    assert StepsAt(m, s, nodes, i);
    BlockNumberOf(s, free[2 * i + 1]);
    BlockNumberOf(s, free[2 * i + 2]);
    VisitedPair(m, s, nodes, i);
  }

  /** None of the blocks that the walk frees was anybody's before. */
  ghost predicate MeetsNobody(h: HeapState, m: seq<uint32>, nodes: seq<uint32>) {
    forall b | b in Visited(m, h.saddr, nodes) :: !Owned(h.live, b)
  }

  /**
   Parsing a path and freeing the result, whatever memory holds: the walk over the memory
   that the parse makes of the memory before leads on into whatever is left over there. The
   block table is byte for byte as it was exactly when that walk meets no block that
   belonged to somebody before the parse.
   */
  method ParseAndFree(k: Kernel, path: string, ghost nodes: seq<uint32>)
    requires k.Valid() && CanParse(k.State(), path)
    requires ListWalk(MemoryAfter(k.cells[..], k.heap.saddr, k.State().FreeList(), path), k.heap.saddr, k.heap.total,
                      FirstOf(k.State().FreeList()), nodes)
    modifies k.heap.entries, k.heap`live, k.cells
    ensures k.Shaped() && k.cells[..] == MemoryAfter(old(k.cells[..]), k.heap.saddr, old(k.State().FreeList()), path)
    ensures k.heap.entries[..k.heap.total] == old(k.heap.entries[..k.heap.total]) <==>
      MeetsNobody(old(k.State()), k.cells[..], nodes)
    ensures MeetsNobody(old(k.State()), k.cells[..], nodes) ==>
      k.Valid() && k.heap.live == old(k.heap.live) && k.State().FreeList() == old(k.State().FreeList())
  {
    hide Describes;
    hide Blocks.All;
    hide Terminated;
    hide EndsAfter;
    hide Building;
    hide Placed;
    hide ListMemory;
    hide ListWalk;
    hide AfterReleases;
    hide Visited;
    hide Elements;
    hide HeapTable.FreeList;
    ghost var h0, m0, s := k.State(), k.cells[..], k.heap.saddr;
    ghost var p, free := PathSyntax.Parse(path), k.State().FreeList();
    var root, hangs;
    ghost var bs;
    root, hangs, bs := PathParser.Parse(k, path);
    ghost var h := k.State();
    PlacedRooms(free, bs);
    PlacedIsListBlocks(free, bs);
    PlacedIsFirst(free, bs);
    assert k.cells[..] == MemoryAfter(m0, s, free, path);
    ListTaken(h0, h, m0, k.cells[..], bs, p.drive, p.names, nodes);
    Free(k, root, free[0], nodes);
    ghost var visited := Visited(k.cells[..], s, nodes);
    ReleasesRestoreIff(h0, h, bs.All(), visited + [free[0]]);
    ListedIsFree(h0, 0);
    if k.heap.entries[..k.heap.total] == h0.table[..h0.total] {
      SameFreeList(h0, k.State());
    }
  }

  lemma ListTaken(h0: HeapState, h: HeapState, m0: seq<uint32>, m: seq<uint32>, bs: Blocks, drive: int,
                  names: seq<string>, nodes: seq<uint32>)
    requires h0.Good() && h.Shaped() && h.total == h0.total && h.saddr == h0.saddr
    requires Building(m0, m, h.saddr, bs, drive, names) && Placed(h0.FreeList(), bs) && |bs.nodes| == |names|
    requires ListWalk(m, h.saddr, h.total, FirstOf(h0.FreeList()), nodes)
    ensures forall b | b in bs.All() :: b in Visited(m, h.saddr, nodes) + [h0.FreeList()[0]]
  {
    hide Describes;
    hide Building;
    hide ListWalk;
    hide Leftovers;
    hide Visited;
    hide Named;
    hide GoesOn;
    hide LeadsTo;
    hide Placed;
    hide Owned;
    hide Elements;
    hide Blocks.All;
    hide HeapState.FreeCount;
    hide HeapTable.FreeList;
    var free, s, n := h0.FreeList(), h.saddr, |names|;
    PlacedRooms(free, bs);
    WhatIsLeft(m0, m, s, free, bs, drive, names);
    assert forall i | 0 < i < n :: GoesOn(m, s, free, i) by { LinksLeft(m0, m, s, free, n); }
    forall j | 0 <= j <= 2 * n ensures free[j] < h.total {
      ListedIsFree(h0, j);
    }
    ListIsVisited(m, s, h.total, free, n, nodes);
    PlacedIsFirst(free, bs);
    var visited := Visited(m, s, nodes);
    forall b | b in bs.All() ensures b in visited + [free[0]] {
      var j := PlaceOf(free[..1 + 2 * n], b);
      if j > 0 {
        assert (visited + [free[0]])[j - 1] == b;
      } else {
        assert (visited + [free[0]])[|visited|] == b;
      }
    }
  }

  lemma PlaceOf(list: seq<nat>, b: nat) returns (j: nat)
    requires b in Elements(list)
    ensures j < |list| && list[j] == b
  {
    j :| 0 <= j < |list| && list[j] == b;
  }

  lemma LinksLeft(m0: seq<uint32>, m: seq<uint32>, s: uint32, free: seq<nat>, n: nat)
    requires 2 * n < |free| && Leftovers(m0, m, s, free, n)
    ensures forall i | 0 < i < n :: GoesOn(m, s, free, i)
  {
  }

  lemma SameFreeList(h: HeapState, h': HeapState)
    requires h.Shaped() && h'.Shaped() && h.total == h'.total && h.table[..h.total] == h'.table[..h.total]
    ensures h.FreeList() == h'.FreeList()
  {
    assert h.table[0..h.total] == h.table[..h.total] && h'.table[0..h.total] == h'.table[..h.total];
    FreeListSame(h.table, h'.table, h.total, 0);
  }

  // ----- Any number of paths

  ghost predicate Harmless(h: HeapState, m: seq<uint32>, nodes: seq<uint32>)
    requires h.Shaped()
  {
    ListWalk(m, h.saddr, h.total, FirstOf(h.FreeList()), nodes) && MeetsNobody(h, m, nodes)
  }

  /** Each path in turn, on the memory that the ones before it leave, makes a list whose walk meets nobody's block. */
  ghost predicate HarmlessRun(h: HeapState, m: seq<uint32>, paths: seq<string>)
    requires h.Shaped()
    decreases |paths|
  {
    paths != [] ==>
      var m1 := MemoryAfter(m, h.saddr, h.FreeList(), paths[0]);
      (exists nodes :: Harmless(h, m1, nodes)) && HarmlessRun(h, m1, paths[1..])
  }

  /**
   Paths parsed and freed one after the other, as long as no walk meets somebody's block:
   the block table is as it was.
   */
  method ParseAndFreeAll(k: Kernel, paths: seq<string>)
    requires k.Valid() && (forall p | p in paths :: CanParse(k.State(), p))
    requires HarmlessRun(k.State(), k.cells[..], paths)
    modifies k.heap.entries, k.heap`live, k.cells
    ensures k.Valid() && k.heap.live == old(k.heap.live)
    ensures k.heap.entries[..k.heap.total] == old(k.heap.entries[..k.heap.total])
  {
    hide Describes;
    hide MemoryAfter;
    hide ListWalk;
    hide HeapTable.FreeList;
    ghost var h := k.State();
    assert paths[0..] == paths;
    for i := 0 to |paths|
      invariant k.Valid() && k.heap.live == h.live && k.State().FreeList() == h.FreeList()
      invariant k.heap.entries[..k.heap.total] == old(k.heap.entries[..k.heap.total])
      invariant HarmlessRun(h, k.cells[..], paths[i..])
    {
      assert paths[i] in paths && paths[i..][0] == paths[i] && paths[i..][1..] == paths[i + 1..];
      ghost var m1 := MemoryAfter(k.cells[..], h.saddr, h.FreeList(), paths[i]);
      ghost var nodes :| Harmless(h, m1, nodes);
      ParseAndFree(k, paths[i], nodes);
    }
  }

  /** From every place where a list may end, memory leads a walk to an end. */
  ghost predicate AllWalksEnd(m: seq<uint32>, s: uint32, free: seq<nat>) {
    forall i: nat | 2 * i < |free| :: WalkEnds(m, s, free, i)
  }

  /** So it is when memory starts out empty where nodes would have their links. */
  lemma EmptyMemoryWalksEnd(m: seq<uint32>, s: uint32, free: seq<nat>)
    requires forall i: nat | 2 * i < |free| :: LeadsTo(m, free[2 * i], 0)
    ensures AllWalksEnd(m, s, free)
  {
    forall i: nat | 2 * i < |free| ensures WalkEnds(m, s, free, i) {
      if i > 0 {
        assert WalksTo(m, s, free, i, i);
      }
    }
  }

  /** A walk over nodes where lists have theirs, in the general form. */
  lemma NodesOfWalk(m: seq<uint32>, s: uint32, total: nat, free: seq<nat>, last: nat) returns (nodes: seq<uint32>)
    requires |m| == 4096 * total && total <= 0x8_0000 && s > 0 && s + 4096 * total <= 0x1_0000_0000
    requires 2 * last < |free| && forall j | 0 <= j <= 2 * last :: free[j] < total
    requires last > 0 ==> Named(m, s, free, 1) && WalksTo(m, s, free, 1, last)
    requires LeadsTo(m, free[0], if last == 0 then 0 else BlockToAddress(s, free[2]))
    ensures ListWalk(m, s, total, free[0], nodes) && Visited(m, s, nodes) == free[1..1 + 2 * last]
  {
    hide BlockNumber;
    hide NodeReads;
    hide NameBlock;
    hide Visited;
    nodes := seq(last, i requires 0 <= i < last => BlockToAddress(s, free[2 * (i + 1)]));
    forall i | 0 <= i < last
      ensures StepsAt(m, s, nodes, i)
      ensures NameBlock(m, s, nodes[i]) == free[2 * i + 1] && BlockNumber(s, nodes[i]) == free[2 * i + 2]
    {
      NodeOfWalk(m, s, total, free, last, i);
    }
    VisitedAre(m, s, nodes, free);
  }

  lemma NodeOfWalk(m: seq<uint32>, s: uint32, total: nat, free: seq<nat>, last: nat, i: nat)
    requires |m| == 4096 * total && total <= 0x8_0000 && s > 0 && s + 4096 * total <= 0x1_0000_0000
    requires 2 * last < |free| && (forall j | 0 <= j <= 2 * last :: free[j] < total) && i < last
    requires Named(m, s, free, 1) && WalksTo(m, s, free, 1, last)
    ensures var node := BlockToAddress(s, free[2 * (i + 1)]);
      && NodeReads(m, s, node, if i + 1 < last then BlockToAddress(s, free[2 * (i + 2)]) else 0)
      && NameBlock(m, s, node) == free[2 * i + 1] && BlockNumber(s, node) == free[2 * i + 2]
  {
    hide BlockNumber;
    assert i > 0 ==> GoesOn(m, s, free, i);
    assert i + 1 < last ==> GoesOn(m, s, free, i + 1);
    BlockNumberOf(s, free[2 * i + 1]);
    BlockNumberOf(s, free[2 * i + 2]);
  }

  lemma {:induction false} VisitedAre(m: seq<uint32>, s: uint32, nodes: seq<uint32>, free: seq<nat>)
    requires 2 * |nodes| < |free|
    requires forall i | 0 <= i < |nodes| ::
      NameBlock(m, s, nodes[i]) == free[2 * i + 1] && BlockNumber(s, nodes[i]) == free[2 * i + 2]
    ensures Visited(m, s, nodes) == free[1..1 + 2 * |nodes|]
  {
    hide NameBlock;
    hide BlockNumber;
    if nodes != [] {
      VisitedAre(m, s, nodes[..|nodes| - 1], free);
    }
  }

  /** Where memory behind a list leads its walk on over free blocks to an end, parsing and freeing it is harmless. */
  lemma WalkIsHarmless(h: HeapState, m0: seq<uint32>, path: string) returns (nodes: seq<uint32>)
    requires h.Good() && |m0| == 4096 * h.total && CanParse(h, path)
    requires WalkEnds(m0, h.saddr, h.FreeList(), |PathSyntax.Parse(path).names|)
    ensures Harmless(h, MemoryAfter(m0, h.saddr, h.FreeList(), path), nodes)
  {
    hide Describes;
    hide Building;
    hide MemoryAfter;
    hide Leftovers;
    hide WalksTo;
    hide ListWalk;
    hide HeapTable.FreeList;
    var p, free, s := PathSyntax.Parse(path), h.FreeList(), h.saddr;
    var n: nat, last: nat := |p.names|, |p.names|;
    var m := MemoryAfter(m0, s, free, path);
    PathIsBuilt(h, m0, path);
    ListBlocksPlaced(free, n);
    WhatIsLeft(m0, m, s, free, ListBlocks(free, n), p.drive, p.names);
    if n > 0 {
      last :| WalksTo(m0, s, free, n, last);
      WalksOn(m0, m, s, free, n, 1, last);
      WalkIsLong(m0, s, free, n, last);
    }
    forall j | 0 <= j <= 2 * last ensures free[j] < h.total && !Owned(h.live, free[j]) {
      ListedIsFree(h, j);
    }
    nodes := NodesOfWalk(m, s, h.total, free, last);
    forall b | b in Visited(m, s, nodes) ensures !Owned(h.live, b) {
      var j :| 0 <= j < 2 * last && free[1..1 + 2 * last][j] == b;
    }
  }

  lemma WalkIsLong(m: seq<uint32>, s: uint32, free: seq<nat>, n: nat, last: nat)
    requires WalksTo(m, s, free, n, last)
    ensures 0 < n <= last && 2 * last < |free|
  {
  }

  /** So on memory that leads every walk to an end, as empty memory does, every sequence of paths is harmless. */
  lemma {:induction false} EveryRunIsHarmless(h: HeapState, m: seq<uint32>, paths: seq<string>)
    requires h.Good() && |m| == 4096 * h.total && AllWalksEnd(m, h.saddr, h.FreeList())
    requires forall p | p in paths :: CanParse(h, p)
    ensures HarmlessRun(h, m, paths)
    decreases |paths|
  {
    hide Describes;
    hide Building;
    hide MemoryAfter;
    hide Leftovers;
    hide WalkEnds;
    hide Harmless;
    hide HeapTable.FreeList;
    if paths != [] {
      assert CanParse(h, paths[0]);
      var free, p := h.FreeList(), PathSyntax.Parse(paths[0]);
      var n := |p.names|;
      var m1 := MemoryAfter(m, h.saddr, free, paths[0]);
      PathIsBuilt(h, m, paths[0]);
      ListBlocksPlaced(free, n);
      var nodes := WalkIsHarmless(h, m, paths[0]);
      WhatIsLeft(m, m1, h.saddr, free, ListBlocks(free, n), p.drive, p.names);
      WalksStillEnd(m, m1, h.saddr, free, n);
      forall p | p in paths[1..] ensures CanParse(h, p) {
        assert p in paths;
      }
      EveryRunIsHarmless(h, m1, paths[1..]);
    }
  }

  /**
   A second parse finds what the first left behind. With fewer names than the first it
   makes a list that does not end: its last node still leads to a freed node of the first
   list. Otherwise it ends if it would have without the first.
   */
  method ParseAfterFree(k: Kernel, first: string, second: string, ghost nodes: seq<uint32>)
    returns (root: uint32, ghost bs: Blocks)
    requires k.Valid() && CanParse(k.State(), first) && CanParse(k.State(), second)
    requires Harmless(k.State(), MemoryAfter(k.cells[..], k.heap.saddr, k.State().FreeList(), first), nodes)
    modifies k.heap.entries, k.heap`live, k.cells
    ensures k.Valid() && root == BlockToAddress(k.heap.saddr, bs.root)
    ensures Linked(k.cells[..], k.heap.saddr, bs, PathSyntax.Parse(second).names)
    ensures var n, n' := |PathSyntax.Parse(first).names|, |PathSyntax.Parse(second).names|;
      Terminated(k.cells[..], bs) <==>
        n' == 0 || (n' >= n && EndsAfter(old(k.cells[..]), old(k.State().FreeList()), n'))
  {
    hide Describes;
    hide Parsing;
    hide Linked;
    hide Building;
    hide MemoryAfter;
    hide ListWalk;
    hide Leftovers;
    hide EndsAfter;
    hide Terminated;
    hide HeapTable.FreeList;
    ghost var h, m0 := k.State(), k.cells[..];
    ghost var free := h.FreeList();
    ghost var p, q := PathSyntax.Parse(first), PathSyntax.Parse(second);
    ParseAndFree(k, first, nodes);
    ghost var m1 := k.cells[..];
    PathIsBuilt(h, m0, first);
    ListBlocksPlaced(free, |p.names|);
    WhatIsLeft(m0, m1, h.saddr, free, ListBlocks(free, |p.names|), p.drive, p.names);
    var hangs;
    root, hangs, bs := PathParser.Parse(k, second);
    ParsingHolds(k, h.live, m1, free, bs, q.drive, q.names);
    LeftoverDecides(m0, m1, h.saddr, free, |p.names|, |q.names|);
  }

  lemma LeftoverDecides(m0: seq<uint32>, m: seq<uint32>, s: uint32, free: seq<nat>, n: nat, n': nat)
    requires 2 * n < |free| && 2 * n' < |free| && Leftovers(m0, m, s, free, n) && s > 0
    requires n' > 0 ==> InMemory(m, free[2 * n'])
    ensures EndsAfter(m, free, n') <==> n' == 0 || (n' >= n && EndsAfter(m0, free, n'))
  {
    if 0 < n' < n {
      assert GoesOn(m, s, free, n');
    } else if n' > n {
      assert SameInBlock(m0, m, free[2 * n']);
    }
  }

  /**
   Two paths, on a heap with room and empty memory where it matters: after the first, the
   second's list does not end, and a walk over it goes on into the first one's second node.
   */
  method LeftoverList(k: Kernel) returns (root: uint32, ghost bs: Blocks)
    requires k.Valid() && k.State().FreeCount() >= 5 && EndsAfter(k.cells[..], k.State().FreeList(), 2)
    modifies k.heap.entries, k.heap`live, k.cells
    ensures k.Valid() && root == BlockToAddress(k.heap.saddr, old(k.State().FreeList())[0])
    ensures !Terminated(k.cells[..], bs)
    ensures WalksTo(k.cells[..], k.heap.saddr, old(k.State().FreeList()), 1, 2)
    ensures Named(k.cells[..], k.heap.saddr, old(k.State().FreeList()), 1)
    ensures LeadsTo(k.cells[..], old(k.State().FreeList())[0],
                    BlockToAddress(k.heap.saddr, old(k.State().FreeList())[2]))
    ensures OnlyOnesAdded(old(k.heap.live), k.heap.live, Elements(old(k.State().FreeList())[..3]))
    ensures k.State().FreeList() == old(k.State().FreeList())[3..]
  {
    hide Describes;
    hide Linked;
    hide Terminated;
    hide EndsAfter;
    hide Leftovers;
    hide WalksTo;
    hide Building;
    hide Blocks.All;
    hide Elements;
    hide OnlyOnesAdded;
    hide LeadsTo;
    hide MemoryAfter;
    hide ListMemory;
    hide ListWalk;
    hide WalkEnds;
    hide HeapTable.FreeList;
    hide PathSyntax.Parse;
    hide Turns;
    ShortPaths();
    ghost var m0, s, free := k.cells[..], k.heap.saddr, k.State().FreeList();
    WalkOfTwo(m0, s, free);
    ghost var h0 := k.State();
    ghost var nodes := WalkIsHarmless(h0, m0, "0:/a/b");
    ParseAndFree(k, "0:/a/b", nodes);
    ghost var m1 := k.cells[..];
    PathIsBuilt(h0, m0, "0:/a/b");
    ListBlocksPlaced(free, 2);
    WhatIsLeft(m0, m1, s, free, ListBlocks(free, 2), 0, ["a", "b"]);
    var hangs;
    root, hangs, bs := PathParser.Parse(k, "0:/c");
    WhatIsLeft(m1, k.cells[..], s, free, bs, 0, ["c"]);
    PlacedIsFirst(free, bs);
    WalkIntoTwo(m0, m1, k.cells[..], s, free);
    NotEnded(m0, m1, s, free);
  }

  lemma NotEnded(m0: seq<uint32>, m1: seq<uint32>, s: uint32, free: seq<nat>)
    requires |free| >= 5 && Leftovers(m0, m1, s, free, 2) && s > 0
    ensures !EndsAfter(m1, free, 1)
  {
    assert GoesOn(m1, s, free, 1);
  }

  /**
   When two blocks are handed out to somebody else before that list is freed, pparser_free
   takes both away from their owner.
   */
  method LeftoverExample(k: Kernel)
    returns (ghost a: nat, ghost b: nat, ghost before: map<nat, nat>, ghost list: set<nat>)
    requires k.Valid() && k.State().FreeCount() >= 5 && EndsAfter(k.cells[..], k.State().FreeList(), 2)
    modifies k.heap.entries, k.heap`live, k.cells
    ensures before.Keys == old(k.heap.live).Keys + list + {a, b} && a != b && a !in list && b !in list
    ensures a !in old(k.heap.live) && b !in old(k.heap.live)
    ensures k.Valid() && k.heap.live == before - list - {a, b}
  {
    hide Describes;
    hide Terminated;
    hide EndsAfter;
    hide WalksTo;
    hide Named;
    hide LeadsTo;
    hide ListWalk;
    hide Elements;
    hide Freeable;
    hide AfterReleases;
    hide Visited;
    hide OnlyOnesAdded;
    hide HeapTable.FreeList;
    ghost var h0, free := k.State(), k.State().FreeList();
    var root, first, second;
    ghost var bs;
    root, bs := LeftoverList(k);
    ghost var l2 := k.heap.live;
    first, a := k.KmallocOne(1);
    second, b := k.KmallocOne(1);
    before, list := k.heap.live, Elements(free[..3]);
    FiveBlocks(free, h0.live, l2, before, a, b);
    FiveFreeable(h0, before);
    ghost var h := k.State();
    ghost var nodes := NodesOfWalk(k.cells[..], h.saddr, h.total, free, 2);
    Free(k, root, free[0], nodes);
    FiveReleased(h, free, list, {a, b});
  }

  lemma FiveReleased(h: HeapState, free: seq<nat>, list: set<nat>, others: set<nat>)
    requires h.Good() && |free| >= 5 && forall j | 0 <= j <= 4 :: Freeable(h.live, h.total, free[j])
    requires Elements(free[..5]) == list + others
    ensures var bs := free[1..5] + [free[0]];
      AllBelow(bs, h.total) && AfterReleases(h, bs).Good() && AfterReleases(h, bs).live == h.live - list - others
  {
    hide Describes;
    var bs := free[1..5] + [free[0]];
    assert bs == [free[1], free[2], free[3], free[4], free[0]];
    ReleasesGive(h, bs);
    FiveElements(free);
    TakenInTwo(h.live, list, others);
  }

  lemma FiveElements(free: seq<nat>)
    requires |free| >= 5
    ensures (set b | b in free[1..5] + [free[0]]) == Elements(free[..5])
  {
    assert free[1..5] + [free[0]] == [free[1], free[2], free[3], free[4], free[0]];
    assert free[..5] == [free[0], free[1], free[2], free[3], free[4]];
  }

  lemma TakenInTwo(live: map<nat, nat>, x: set<nat>, y: set<nat>)
    ensures live - (x + y) == live - x - y
  {
  }

  /**
   Nothing need be allocated meanwhile. Where the cell behind the list's one node holds the
   address of a block b, and b those of a block a and of nothing, parsing "0:/c" and freeing
   it at once takes a and b away from whoever they belong to.
   */
  method StrangersExample(k: Kernel, ghost a: nat, ghost b: nat)
    requires k.Valid() && k.State().FreeCount() >= 3 && a in k.heap.live && b in k.heap.live && a != b
    requires LeadsTo(k.cells[..], k.State().FreeList()[2], BlockToAddress(k.heap.saddr, b))
    requires LeadsTo(k.cells[..], b, 0) && k.cells[4096 * b] == BlockToAddress(k.heap.saddr, a)
    modifies k.heap.entries, k.heap`live, k.cells
    ensures k.Valid() && k.heap.live == old(k.heap.live) - {a, b}
  {
    hide Describes;
    hide Terminated;
    hide EndsAfter;
    hide Building;
    hide Elements;
    hide Freeable;
    hide AfterReleases;
    hide Visited;
    hide Placed;
    hide ListMemory;
    hide Leftovers;
    hide HeapTable.FreeList;
    hide PathSyntax.Parse;
    hide Turns;
    ShortPaths();
    ghost var h0, m0, s, free := k.State(), k.cells[..], k.heap.saddr, k.State().FreeList();
    var root, hangs;
    ghost var bs;
    root, hangs, bs := PathParser.Parse(k, "0:/c");
    ghost var h, m := k.State(), k.cells[..];
    PlacedRooms(free, bs);
    PlacedIsFirst(free, bs);
    WhatIsLeft(m0, m, s, free, bs, 0, ["c"]);
    StrangerKept(h0, m0, m, bs, 0, ["c"], b);
    ghost var nodes := StrangersWalk(h0, m0, m, a, b);
    Free(k, root, free[0], nodes);
    ThreeFreeable(h0, h, free, a, b);
    ReleasesGive(h, [free[1], free[2], a, b] + [free[0]]);
    StrangersGone(h0.live, h.live, free, a, b);
  }

  /** Parsing leaves other people's blocks as they are. */
  lemma StrangerKept(h: HeapState, m0: seq<uint32>, m: seq<uint32>, bs: Blocks, drive: int, names: seq<string>, b: nat)
    requires h.Good() && Building(m0, m, h.saddr, bs, drive, names) && Placed(h.FreeList(), bs)
    requires b in h.live && InMemory(m0, b)
    ensures SameInBlock(m0, m, b)
  {
    hide Describes;
    hide HeapTable.FreeList;
    var free, n := h.FreeList(), |bs.nodes|;
    PlacedIsFirst(free, bs);
    if b in bs.All() {
      var j :| 0 <= j < 1 + 2 * n && free[..1 + 2 * n][j] == b;
      ListedIsFree(h, j);
    }
    BlockKept(m0, m, b, bs.All());
  }

  lemma StrangersWalk(h: HeapState, m0: seq<uint32>, m: seq<uint32>, a: nat, b: nat) returns (nodes: seq<uint32>)
    requires h.Good() && |h.FreeList()| >= 3 && |m0| == |m| == 4096 * h.total && a in h.live && b in h.live
    requires LeadsTo(m0, h.FreeList()[2], BlockToAddress(h.saddr, b))
    requires LeadsTo(m0, b, 0) && m0[4096 * b] == BlockToAddress(h.saddr, a) && SameInBlock(m0, m, b)
    requires Leftovers(m0, m, h.saddr, h.FreeList(), 1) && Named(m, h.saddr, h.FreeList(), 1)
    requires LeadsTo(m, h.FreeList()[0], BlockToAddress(h.saddr, h.FreeList()[2]))
    ensures ListWalk(m, h.saddr, h.total, h.FreeList()[0], nodes)
    ensures Visited(m, h.saddr, nodes) == [h.FreeList()[1], h.FreeList()[2], a, b]
  {
    hide Describes;
    hide BlockNumber;
    hide HeapTable.FreeList;
    var free, s := h.FreeList(), h.saddr;
    LiveIsFreeable(h, a);
    LiveIsFreeable(h, b);
    forall j | 0 <= j < 3 ensures free[j] < h.total {
      ListedIsFree(h, j);
    }
    BlockNumberOf(s, free[1]);
    BlockNumberOf(s, free[2]);
    BlockNumberOf(s, a);
    BlockNumberOf(s, b);
    nodes := [BlockToAddress(s, free[2]), BlockToAddress(s, b)];
    assert StepsAt(m, s, nodes, 0) && StepsAt(m, s, nodes, 1);
    VisitedPair(m, s, nodes, 0);
    VisitedPair(m, s, nodes, 1);
    assert Visited(m, s, nodes) == [free[1], free[2], a, b];
  }

  lemma ThreeFreeable(h0: HeapState, h: HeapState, free: seq<nat>, a: nat, b: nat)
    requires h0.Good() && h.Good() && h.total == h0.total && free == h0.FreeList() && |free| >= 3
    requires OnlyOnesAdded(h0.live, h.live, Elements(free[..3])) && a in h0.live && b in h0.live
    ensures forall c | c in [free[1], free[2], a, b] + [free[0]] :: Freeable(h.live, h.total, c)
    ensures AllBelow([free[1], free[2], a, b] + [free[0]], h.total)
  {
    hide Describes;
    hide HeapTable.FreeList;
    assert free[..3] == [free[0], free[1], free[2]];
    LiveIsFreeable(h, a);
    LiveIsFreeable(h, b);
    LiveIsFreeable(h, free[0]);
    LiveIsFreeable(h, free[1]);
    LiveIsFreeable(h, free[2]);
  }

  lemma StrangersGone(l0: map<nat, nat>, live: map<nat, nat>, free: seq<nat>, a: nat, b: nat)
    requires |free| >= 3 && OnlyOnesAdded(l0, live, Elements(free[..3]))
    ensures live - (set c | c in [free[1], free[2], a, b] + [free[0]]) == l0 - {a, b}
  {
    assert free[..3] == [free[0], free[1], free[2]];
    assert [free[1], free[2], a, b] + [free[0]] == [free[1], free[2], a, b, free[0]];
  }

  lemma WalkOfTwo(m: seq<uint32>, s: uint32, free: seq<nat>)
    requires |free| >= 5 && EndsAfter(m, free, 2)
    ensures WalkEnds(m, s, free, 2)
  {
    assert WalksTo(m, s, free, 2, 2);
  }

  /** The list of one name leads on to the second node of the list before it. */
  lemma WalkIntoTwo(m0: seq<uint32>, m1: seq<uint32>, m: seq<uint32>, s: uint32, free: seq<nat>)
    requires |free| >= 5 && EndsAfter(m0, free, 2) && Leftovers(m0, m1, s, free, 2) && Leftovers(m1, m, s, free, 1)
    ensures WalksTo(m, s, free, 1, 2)
  {
    assert GoesOn(m1, s, free, 1);
    assert WalksTo(m1, s, free, 1, 2);
    WalksOn(m1, m, s, free, 1, 1, 2);
  }

  lemma FiveFreeable(h: HeapState, live: map<nat, nat>)
    requires h.Good() && |h.FreeList()| >= 5 && forall j | 0 <= j <= 4 :: h.FreeList()[j] in live
    ensures forall j | 0 <= j <= 4 :: Freeable(live, h.total, h.FreeList()[j])
  {
    hide Describes;
    hide HeapTable.FreeList;
    forall j | 0 <= j <= 4 ensures Freeable(live, h.total, h.FreeList()[j]) {
      ListedIsFree(h, j);
    }
  }

  lemma FiveBlocks(free: seq<nat>, l0: map<nat, nat>, l2: map<nat, nat>, l4: map<nat, nat>, a: nat, b: nat)
    requires |free| >= 5 && Ascending(free) && a == free[3..][0] && b == free[3..][1..][0]
    requires OnlyOnesAdded(l0, l2, Elements(free[..3])) && a !in l2 && b !in l2[a := 1] && l4 == l2[a := 1][b := 1]
    ensures a == free[3] && b == free[4] && l4.Keys == l0.Keys + Elements(free[..3]) + {a, b}
    ensures forall j | 0 <= j <= 4 :: free[j] in l4
    ensures Elements(free[..5]) == Elements(free[..3]) + {a, b}
    ensures a !in Elements(free[..3]) && b !in Elements(free[..3]) && a != b && a !in l0 && b !in l0
  {
    assert free[..5] == free[..3] + [a, b];
    assert free[..3] == [free[0], free[1], free[2]];
  }

  lemma ShortPaths()
    ensures PathSyntax.Parse("0:/a/b") == Path(0, ["a", "b"]) && Turns("0:/a/b"[3..]) == 2
    ensures PathSyntax.Parse("0:/c") == Path(0, ["c"]) && Turns("0:/c"[3..]) == 1
  {
    assert "0:/a/b"[3..] == "a/b" && "0:/c"[3..] == "c";
    assert NextPart("a/b") == Some(("a", "b")) by {
      NameLengthOf("a", "/b");
      assert "a" + "/b" == "a/b" && "a/b"[..1] == "a" && "a/b"[2..] == "b";
    }
    LastName("b");
    LastName("c");
  }

  lemma LastName(name: string)
    requires IsName(name)
    ensures NextPart(name) == Some((name, ""))
  {
    NameLengthOf(name, "");
    assert name + "" == name && name[..|name|] == name;
  }
}
