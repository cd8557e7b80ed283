/**
 An address space among everything else the kernel does with its heap: allocations,
 releases, stores into other allocations, and paging_set (src/memory/paging/paging.c,
 src/memory/heap/kheap.c).
 */
module AddressSpaces {
  import opened CTypes
  import opened HeapTable
  import opened HeapModel
  import opened KernelHeap
  import opened Paging

  /** The heap with its block table, and the memory it hands out. */
  datatype Machine = Machine(heap: HeapState, cells: seq<uint32>) {
    ghost predicate Good() {
      heap.Good() && |cells| == 4096 * heap.total
    }
  }

  datatype KernelOp =
    | Allocate(size: uint32)
    | AllocateZeroed(size: uint32)
    | Release(addr: uint32)
    | Write(addr: uint32, val: uint32)
    | SetPage(vaddr: uint32, val: uint32)

  /** The address lies in a live allocation that starts at none of the given blocks. */
  ghost predicate InOtherAllocation(h: HeapState, blocks: set<nat>, addr: int) {
    exists r | r in h.live && r !in blocks ::
      BlockToAddress(h.saddr, r) <= addr < BlockToAddress(h.saddr, r + h.live[r])
  }

  /** What the rest of the kernel must keep to while an address space is built from `blocks`. */
  ghost predicate IsLegal(x: Machine, op: KernelOp, blocks: set<nat>)
    requires x.Good()
  {
    match op
    case Allocate(size) => SafeRequest(x.heap, size)
    case AllocateZeroed(size) =>
      && SafeRequest(x.heap, size)
      && (MallocResult(x.heap, size) == 0 || MallocResult(x.heap, size) + size <= 0x1_0000_0000)
    case Release(addr) => exists b | b in x.heap.live && b !in blocks :: addr == BlockToAddress(x.heap.saddr, b)
    case Write(addr, val) => InOtherAllocation(x.heap, blocks, addr)
    case SetPage(vaddr, val) => vaddr % 4096 == 0 ==> vaddr < 0x8000_0000
  }

  ghost predicate IsStep(x: Machine, x': Machine, op: KernelOp, dir: uint32)
    requires x.Good()
  {
    var h, s := x.heap, x.heap.saddr;
    match op
    case Allocate(size) => x' == x.(heap := AfterMalloc(h, size))
    case AllocateZeroed(size) =>
      && x'.heap == AfterMalloc(h, size) && |x'.cells| == |x.cells|
      && var addr := MallocResult(h, size);
         forall c | 0 <= c < |x.cells| ::
           x'.cells[c] == if addr != 0 && addr <= s + c < addr + size then 0 else x.cells[c]
    case Release(addr) =>
      && 0 <= AddressToBlock(s, addr) <= h.total
      && x' == x.(heap := AfterFree(h, addr))
    case Write(addr, val) =>
      InsideMemory(x.cells, s, addr) && x' == x.(cells := x.cells[addr - s := val])
    case SetPage(vaddr, val) =>
      && (vaddr % 4096 == 0 ==> Reaches(x.cells, s, dir, vaddr))
      && x' == x.(cells := AfterSet(x.cells, s, dir, vaddr, val))
  }

  /** The address space at dir is built from live one-block allocations. */
  ghost predicate Stands(x: Machine, dir: uint32, blocks: set<nat>) {
    && x.Good() && (forall b | b in blocks :: b in x.heap.live && x.heap.live[b] == 1)
    && AddressSpace(x.cells, x.heap.saddr, dir) && BuiltFrom(x.cells, x.heap.saddr, dir, blocks)
  }

  // ----- What keeps an address space

  ghost predicate SameIn(m: seq<uint32>, m': seq<uint32>, blocks: set<nat>) {
    |m| == |m'| && forall c | 0 <= c < |m| && c / 4096 in blocks :: m'[c] == m[c]
  }

  lemma CellInBlock(s: uint32, m: seq<uint32>, a: int, o: nat)
    requires IsBlockAddress(m, s, a) && o < 4096
    ensures 0 <= a - s + o < |m| && (a - s + o) / 4096 == BlockOf(s, a)
  {
    DivUnique(a - s + o, 4096, (a - s) / 4096, o);
  }

  /** The walk reads the cells of its own blocks and no others. */
  lemma WalkReadsItsBlocks(m: seq<uint32>, m': seq<uint32>, s: uint32, dir: uint32, blocks: set<nat>)
    requires AddressSpace(m, s, dir) && BuiltFrom(m, s, dir, blocks) && SameIn(m, m', blocks)
    ensures AddressSpace(m', s, dir) && BuiltFrom(m', s, dir, blocks)
    ensures forall p | 0 <= p < PAGES :: Translate(m', s, dir, p) == Translate(m, s, dir, p)
  {
    hide BitAnd;
    hide BlockOf;
    forall i | 0 <= i < 1024 ensures TableAddress(m', s, dir, i) == TableAddress(m, s, dir, i) {
      CellInBlock(s, m, dir, 4 * i);
    }
    forall p | 0 <= p < PAGES ensures Translate(m', s, dir, p) == Translate(m, s, dir, p) {
      CellInBlock(s, m, TableAddress(m, s, dir, p / 1024), 4 * (p % 1024));
    }
  }

  /** paging_set writes a slot, and so leaves the directory as it is. */
  lemma SetKeepsBuiltFrom(m: seq<uint32>, s: uint32, dir: uint32, page: nat, val: uint32, blocks: set<nat>)
    requires AddressSpace(m, s, dir) && BuiltFrom(m, s, dir, blocks) && page < PAGES
    ensures var m' := m[Slot(m, s, dir, page) - s := val];
      AddressSpace(m', s, dir) && BuiltFrom(m', s, dir, blocks)
  {
    hide BitAnd;
    var m' := m[Slot(m, s, dir, page) - s := val];
    OverwriteSlot(m, s, dir, page, val);
    SlotsDiffer(m, s, dir, page, page);
    forall i | 0 <= i < 1024 ensures TableAddress(m', s, dir, i) == TableAddress(m, s, dir, i) {
      assert m'[dir - s + 4 * i] == m[dir - s + 4 * i];
    }
  }

  /** No cell of a live one-block allocation is zeroed by a later request. */
  lemma ZeroedElsewhere(h: HeapState, size: uint32, b: nat, c: nat)
    requires h.Good() && SafeRequest(h, size) && b in h.live && h.live[b] == 1 && c / 4096 == b
    requires MallocResult(h, size) != 0 && MallocResult(h, size) + size <= 0x1_0000_0000
    ensures !(MallocResult(h, size) <= h.saddr + c < MallocResult(h, size) + size)
  {
    hide AlignUp;
    hide BlocksFor;
    hide Describes;
    hide AfterMalloc;
    hide MallocResult;
    hide StartBlock;
    hide SafeRequest;
    hide Fits;
    hide FreeRun;
    hide Mark;
    AlignUpCovers(size);
    if BlocksFor(size) == 0 {
      EmptyRequest(h, size);
    } else {
      MallocGives(h, size);
      var n := BlocksFor(size);
      CellOutside(h.saddr, MallocResult(h, size), StartBlock(h.table, h.total, n), n, size, b, c);
    }
  }

  lemma CellOutside(s: uint32, addr: int, start: nat, n: nat, size: nat, b: nat, c: nat)
    requires addr == BlockToAddress(s, start) && size <= 4096 * n && c / 4096 == b && (b + 1 <= start || start + n <= b)
    ensures !(addr <= s + c < addr + size)
  {
  }

  lemma AllocationAdds(h: HeapState, size: uint32)
    requires h.Good() && SafeRequest(h, size)
    ensures AfterMalloc(h, size).Good()
    ensures forall b | b in h.live :: b in AfterMalloc(h, size).live && AfterMalloc(h, size).live[b] == h.live[b]
    ensures AfterMalloc(h, size).total == h.total && AfterMalloc(h, size).saddr == h.saddr
  {
    hide AlignUp;
    hide BlocksFor;
    hide Describes;
    hide StartBlock;
    hide Fits;
    MallocKeepsTableIff(h, size);
    if BlocksFor(size) >= 1 {
      MallocGives(h, size);
    }
  }

  lemma OtherAllocationCell(h: HeapState, blocks: set<nat>, addr: int, b: nat)
    requires h.Good() && InOtherAllocation(h, blocks, addr) && b in blocks && b in h.live && h.live[b] == 1
    ensures addr >= h.saddr && (addr - h.saddr) / 4096 != b
  {
    var r :| r in h.live && r !in blocks
      && BlockToAddress(h.saddr, r) <= addr < BlockToAddress(h.saddr, r + h.live[r]);
    assert b < r || r < b;
  }

  /** The address space stands where its cells and its allocations are as they were. */
  lemma StandsStill(x: Machine, x': Machine, dir: uint32, blocks: set<nat>)
    requires Stands(x, dir, blocks) && x'.Good() && x'.heap.saddr == x.heap.saddr
    requires forall b | b in blocks :: b in x'.heap.live && x'.heap.live[b] == x.heap.live[b]
    requires SameIn(x.cells, x'.cells, blocks)
    ensures Stands(x', dir, blocks) && SameTranslations(x, x', dir)
  {
    hide Describes;
    hide AddressSpace;
    hide BuiltFrom;
    WalkReadsItsBlocks(x.cells, x'.cells, x.heap.saddr, dir, blocks);
  }

  ghost predicate SameTranslations(x: Machine, x': Machine, dir: uint32)
    requires AddressSpace(x.cells, x.heap.saddr, dir) && AddressSpace(x'.cells, x'.heap.saddr, dir)
  {
    forall p | 0 <= p < PAGES :: Translate(x'.cells, x'.heap.saddr, dir, p) == Translate(x.cells, x.heap.saddr, dir, p)
  }

  lemma AllocationKeepsSpace(x: Machine, x': Machine, op: KernelOp, dir: uint32, blocks: set<nat>)
    requires op.Allocate? || op.AllocateZeroed?
    requires Stands(x, dir, blocks) && IsLegal(x, op, blocks) && IsStep(x, x', op, dir)
    ensures Stands(x', dir, blocks) && x'.heap.saddr == x.heap.saddr && SameTranslations(x, x', dir)
  {
    hide Describes;
    hide AddressSpace;
    hide BuiltFrom;
    hide SameTranslations;
    hide AfterMalloc;
    hide SafeRequest;
    hide MallocResult;
    var h := x.heap;
    AllocationAdds(h, op.size);
    if op.AllocateZeroed? {
      forall c | 0 <= c < |x.cells| && c / 4096 in blocks ensures x'.cells[c] == x.cells[c] {
        if MallocResult(h, op.size) != 0 {
          ZeroedElsewhere(h, op.size, c / 4096, c);
        }
      }
    }
    StandsStill(x, x', dir, blocks);
  }

  lemma ReleaseKeepsSpace(x: Machine, x': Machine, op: KernelOp, dir: uint32, blocks: set<nat>)
    requires op.Release?
    requires Stands(x, dir, blocks) && IsLegal(x, op, blocks) && IsStep(x, x', op, dir)
    ensures Stands(x', dir, blocks) && x'.heap.saddr == x.heap.saddr && SameTranslations(x, x', dir)
  {
    hide Describes;
    hide AddressSpace;
    hide BuiltFrom;
    hide SameTranslations;
    hide HeapTable.Release;
    FreeGives(x.heap, op.addr);
    var b :| b in x.heap.live && b !in blocks && op.addr == BlockToAddress(x.heap.saddr, b);
    assert AddressToBlock(x.heap.saddr, op.addr) == b;
    StandsStill(x, x', dir, blocks);
  }

  lemma WriteKeepsSpace(x: Machine, x': Machine, op: KernelOp, dir: uint32, blocks: set<nat>)
    requires op.Write?
    requires Stands(x, dir, blocks) && IsLegal(x, op, blocks) && IsStep(x, x', op, dir)
    ensures Stands(x', dir, blocks) && x'.heap.saddr == x.heap.saddr && SameTranslations(x, x', dir)
  {
    hide Describes;
    hide AddressSpace;
    hide BuiltFrom;
    hide SameTranslations;
    hide InOtherAllocation;
    forall c | 0 <= c < |x.cells| && c / 4096 in blocks ensures x'.cells[c] == x.cells[c] {
      OtherAllocationCell(x.heap, blocks, op.addr, c / 4096);
    }
    StandsStill(x, x', dir, blocks);
  }

  lemma SetKeepsSpace(x: Machine, x': Machine, op: KernelOp, dir: uint32, blocks: set<nat>)
    requires op.SetPage?
    requires Stands(x, dir, blocks) && IsLegal(x, op, blocks) && IsStep(x, x', op, dir)
    ensures Stands(x', dir, blocks) && x'.heap.saddr == x.heap.saddr
    ensures forall p | 0 <= p < PAGES ::
      Translate(x'.cells, x.heap.saddr, dir, p) ==
        if op.vaddr == 4096 * p then op.val else Translate(x.cells, x.heap.saddr, dir, p)
  {
    hide Describes;
    hide AddressSpace;
    hide BuiltFrom;
    hide Translate;
    hide Reaches;
    var s := x.heap.saddr;
    if op.vaddr % 4096 == 0 {
      LowSet(x.cells, s, dir, op.vaddr);
      OverwriteSlot(x.cells, s, dir, op.vaddr / 4096, op.val);
      SetKeepsBuiltFrom(x.cells, s, dir, op.vaddr / 4096, op.val, blocks);
    }
  }

  /** One step of the kernel: the address space stands, and only paging_set changes a translation. */
  lemma StepKeepsSpace(x: Machine, x': Machine, op: KernelOp, dir: uint32, blocks: set<nat>)
    requires Stands(x, dir, blocks) && IsLegal(x, op, blocks) && IsStep(x, x', op, dir)
    ensures Stands(x', dir, blocks) && x'.heap.saddr == x.heap.saddr
    ensures forall p | 0 <= p < PAGES ::
      Translate(x'.cells, x.heap.saddr, dir, p) ==
        if op.SetPage? && op.vaddr == 4096 * p then op.val else Translate(x.cells, x.heap.saddr, dir, p)
  {
    hide Describes;
    hide AddressSpace;
    hide BuiltFrom;
    hide Translate;
    hide IsLegal;
    hide IsStep;
    match op
    case Allocate(_) => AllocationKeepsSpace(x, x', op, dir, blocks);
    case AllocateZeroed(_) => AllocationKeepsSpace(x, x', op, dir, blocks);
    case Release(_) => ReleaseKeepsSpace(x, x', op, dir, blocks);
    case Write(_, _) => WriteKeepsSpace(x, x', op, dir, blocks);
    case SetPage(_, _) => SetKeepsSpace(x, x', op, dir, blocks);
  }

  /** The machine that a kernel object stands for. */
  ghost function MachineOf(k: Kernel): Machine
    reads k, k.heap, k.heap.entries, k.cells
  {
    Machine(k.State(), k.cells[..])
  }

  /** Each step is what the routine of its name does. */
  method Perform(k: Kernel, op: KernelOp, dir: uint32, ghost blocks: set<nat>)
    requires k.Valid() && Stands(MachineOf(k), dir, blocks) && IsLegal(MachineOf(k), op, blocks)
    modifies k.heap.entries, k.heap`live, k.cells
    ensures k.Valid() && IsStep(old(MachineOf(k)), MachineOf(k), op, dir)
  {
    hide Describes;
    hide AddressSpace;
    hide BuiltFrom;
    hide Translate;
    hide AfterMalloc;
    hide MallocResult;
    hide SafeRequest;
    ghost var h, m := k.State(), k.cells[..];
    match op
    case Allocate(size) =>
      var _ := k.Kmalloc(size);
    case AllocateZeroed(size) =>
      var _ := k.Kzalloc(size);
    case Release(addr) =>
      ghost var b :| b in h.live && b !in blocks && addr == BlockToAddress(h.saddr, b);
      LiveIsFreeable(h, b);
      AddressRoundTrip(h, b);
      k.Kfree(addr);
    case Write(addr, val) =>
      OtherAllocationInside(h, blocks, addr);
      k.Store(addr, val);
    case SetPage(vaddr, val) =>
      if vaddr % 4096 == 0 {
        LowSet(m, h.saddr, dir, vaddr);
      }
      var _ := Set(k, dir, vaddr, val);
  }

  lemma OtherAllocationInside(h: HeapState, blocks: set<nat>, addr: int)
    requires h.Good() && InOtherAllocation(h, blocks, addr)
    ensures h.saddr <= addr < h.saddr + 4096 * h.total
  {
    var r :| r in h.live && r !in blocks
      && BlockToAddress(h.saddr, r) <= addr < BlockToAddress(h.saddr, r + h.live[r]);
  }

  // ----- Whole runs

  /** The paging_set calls among the operations. */
  function SetsOf(ops: seq<KernelOp>): seq<SetCall> {
    if ops == [] then []
    else
      var last := ops[|ops| - 1];
      SetsOf(ops[..|ops| - 1]) + if last.SetPage? then [SetCall(last.vaddr, last.val)] else []
  }

  ghost predicate IsKernelRun(states: seq<Machine>, ops: seq<KernelOp>, dir: uint32, blocks: set<nat>) {
    && |states| == |ops| + 1
    && forall i | 0 <= i < |ops| ::
      states[i].Good() ==> IsLegal(states[i], ops[i], blocks) && IsStep(states[i], states[i + 1], ops[i], dir)
  }

  lemma LastSetOfMore(ops: seq<KernelOp>, page: nat, original: uint32)
    requires ops != []
    ensures var last := ops[|ops| - 1];
      LastSet(SetsOf(ops), page, original) ==
        if last.SetPage? && last.vaddr == 4096 * page then last.val
        else LastSet(SetsOf(ops[..|ops| - 1]), page, original)
  {
    var before, last := SetsOf(ops[..|ops| - 1]), ops[|ops| - 1];
    if last.SetPage? {
      assert SetsOf(ops) == before + [SetCall(last.vaddr, last.val)];
      assert SetsOf(ops)[..|before|] == before;
    } else {
      assert SetsOf(ops) == before;
    }
  }

  /**
   However allocations, releases, stores and paging_set calls are mixed, as long as the
   stores and releases stay with other live allocations, every page translates to the
   value last set for it, or to its entry at the start.
   */
  lemma {:induction false} EveryRunKeepsSpace(states: seq<Machine>, ops: seq<KernelOp>, dir: uint32, blocks: set<nat>)
    requires IsKernelRun(states, ops, dir, blocks) && Stands(states[0], dir, blocks)
    ensures var first, last := states[0], states[|ops|];
      && Stands(last, dir, blocks) && last.heap.saddr == first.heap.saddr
      && forall p | 0 <= p < PAGES ::
        Translate(last.cells, last.heap.saddr, dir, p) ==
          LastSet(SetsOf(ops), p, Translate(first.cells, first.heap.saddr, dir, p))
    decreases |ops|
  {
    hide AddressSpace;
    hide BuiltFrom;
    hide Translate;
    hide IsLegal;
    hide IsStep;
    hide LastSet;
    hide SetsOf;
    var n := |ops|;
    if n > 0 {
      EveryRunKeepsSpace(states[..n], ops[..n - 1], dir, blocks);
      StepKeepsSpace(states[n - 1], states[n], ops[n - 1], dir, blocks);
      forall p | 0 <= p < PAGES
        ensures Translate(states[n].cells, states[0].heap.saddr, dir, p) ==
          LastSet(SetsOf(ops), p, Translate(states[0].cells, states[0].heap.saddr, dir, p))
      {
        LastSetOfMore(ops, p, Translate(states[0].cells, states[0].heap.saddr, dir, p));
      }
    } else {
      NoSets();
    }
  }

  lemma NoSets()
    ensures SetsOf([]) == [] && forall p, e: uint32 :: LastSet([], p, e) == e
  {
  }

  /** The address space that paging_new_4gb builds stands, from the start. */
  method NewSpace(k: Kernel, flags: uint8) returns (chunk: uint32, ghost blocks: set<nat>)
    requires k.Valid() && k.State().FreeCount() >= 1026
    modifies k.heap.entries, k.heap`live, k.cells
    ensures k.Valid() && k.Inside(chunk) && Stands(Machine(k.State(), k.cells[..]), k.Load(chunk), blocks)
    ensures forall page | 0 <= page < PAGES ::
      Translate(k.cells[..], k.heap.saddr, k.Load(chunk), page) == IdentityEntry(page, flags)
  {
    hide Describes;
    hide AddressSpace;
    hide BuiltFrom;
    hide Translate;
    hide SameOutsideBlocks;
    chunk, blocks := New4Gb(k, flags);
  }
}
