/**
 src/memory/paging/paging.c: two-level page tables built from heap blocks
 (Intel SDM Vol. 3A, section 4.3, "32-Bit Paging"), and the flat map from
 pages to entries that they stand for.
 */
module Paging {
  import opened CTypes
  import opened HeapTable
  import opened HeapModel
  import opened KernelHeap

  const PAGES: nat := 0x10_0000
  const IS_WRITEABLE: nat := 2

  // ----- The walk the processor makes, over memory cells m of a heap at address s

  predicate IsBlockAddress(m: seq<uint32>, s: uint32, a: int) {
    s <= a && a + 4096 <= s + |m| && (a - s) % 4096 == 0
  }

  /** Frame address held by directory entry i: the entry with its twelve flag bits masked off. */
  function TableAddress(m: seq<uint32>, s: uint32, dir: int, i: nat): nat
    requires IsBlockAddress(m, s, dir) && i < 1024
  {
    BitAnd(m[dir - s + 4 * i], 0xfffff000)
  }

  /** The directory's 1024 entries lead to 1024 different heap blocks, none of them the directory. */
  ghost predicate AddressSpace(m: seq<uint32>, s: uint32, dir: int) {
    && IsBlockAddress(m, s, dir) && 0 < s && s + |m| <= 0x1_0000_0000
    && (forall i | 0 <= i < 1024 ::
      IsBlockAddress(m, s, TableAddress(m, s, dir, i)) && TableAddress(m, s, dir, i) != dir)
    && (forall i, j | 0 <= i < j < 1024 :: TableAddress(m, s, dir, i) != TableAddress(m, s, dir, j))
  }

  /** The directory and all the tables are among the blocks given. */
  ghost predicate BuiltFrom(m: seq<uint32>, s: uint32, dir: int, blocks: set<nat>)
    requires AddressSpace(m, s, dir)
  {
    && BlockOf(s, dir) in blocks
    && forall i | 0 <= i < 1024 :: BlockOf(s, TableAddress(m, s, dir, i)) in blocks
  }

  /** Where the entry of a page is stored. */
  ghost function Slot(m: seq<uint32>, s: uint32, dir: int, page: nat): (a: int)
    requires AddressSpace(m, s, dir) && page < PAGES
    ensures s <= a < s + |m|
  {
    TableAddress(m, s, dir, page / 1024) + 4 * (page % 1024)
  }

  ghost function Translate(m: seq<uint32>, s: uint32, dir: int, page: nat): uint32
    requires AddressSpace(m, s, dir) && page < PAGES
  {
    m[Slot(m, s, dir, page) - s]
  }

  lemma BlocksApart(m: seq<uint32>, s: uint32, a: int, b: int)
    requires IsBlockAddress(m, s, a) && IsBlockAddress(m, s, b) && a != b
    ensures a + 4096 <= b || b + 4096 <= a
  {
    var i, j := (a - s) / 4096, (b - s) / 4096;
    assert a == s + 4096 * i && b == s + 4096 * j;
  }

  /** Different pages have different slots, and no slot lies in the directory. */
  lemma SlotsDiffer(m: seq<uint32>, s: uint32, dir: int, p: nat, q: nat)
    requires AddressSpace(m, s, dir) && p < PAGES && q < PAGES
    ensures p != q ==> Slot(m, s, dir, p) != Slot(m, s, dir, q)
    ensures !(dir <= Slot(m, s, dir, p) < dir + 4096)
  {
    var i, j := p / 1024, q / 1024;
    BlocksApart(m, s, TableAddress(m, s, dir, i), dir);
    if i != j {
      assert i < j || j < i;
      BlocksApart(m, s, TableAddress(m, s, dir, i), TableAddress(m, s, dir, j));
    }
  }

  /** Overwriting one slot changes that page's translation and no other, and keeps the tables apart. */
  lemma OverwriteSlot(m: seq<uint32>, s: uint32, dir: int, page: nat, val: uint32)
    requires AddressSpace(m, s, dir) && page < PAGES
    ensures var m' := m[Slot(m, s, dir, page) - s := val];
      && AddressSpace(m', s, dir)
      && forall p | 0 <= p < PAGES ::
        Translate(m', s, dir, p) == if p == page then val else Translate(m, s, dir, p)
  {
    var m' := m[Slot(m, s, dir, page) - s := val];
    SlotsDiffer(m, s, dir, page, page);
    forall i | 0 <= i < 1024 ensures TableAddress(m', s, dir, i) == TableAddress(m, s, dir, i) {
    }
    assert AddressSpace(m', s, dir);
    forall p | 0 <= p < PAGES
      ensures Translate(m', s, dir, p) == if p == page then val else Translate(m, s, dir, p)
    {
      SlotsDiffer(m, s, dir, p, page);
    }
  }

  // ----- paging_get_indexes

  /** Directory and table index as computed, with the address taken as a signed value. */
  function Indexes(vaddr: uint32): (uint32, uint32) {
    var a := ToInt32(vaddr);
    (ToUint32(CDiv(a, 0x40_0000)), ToUint32(CDiv(CMod(a, 0x40_0000), 4096)))
  }

  /**
   For a page-aligned address the two indexes are the top ten and the middle ten
   bits exactly when the address is below 2^31; above it the signed division
   yields indexes outside the directory.
   */
  lemma IndexesRightIff(vaddr: uint32)
    requires vaddr % 4096 == 0
    ensures Indexes(vaddr) == (vaddr / 0x40_0000, vaddr % 0x40_0000 / 4096) <==> vaddr < 0x8000_0000
    ensures vaddr < 0x8000_0000 ==> Indexes(vaddr) == (vaddr / 4096 / 1024, vaddr / 4096 % 1024)
    ensures 0x8000_0000 <= vaddr <= 0xFFC0_0000 ==> Indexes(vaddr).0 >= 0xFFFF_FE00
  {
    hide Indexes;
    if vaddr < 0x8000_0000 {
      LowAddress(vaddr);
      SplitAddress(vaddr);
    } else {
      HighAddress(vaddr);
    }
  }

  lemma LowAddress(vaddr: uint32)
    requires vaddr < 0x8000_0000
    ensures Indexes(vaddr) == (vaddr / 0x40_0000, vaddr % 0x40_0000 / 4096)
  {
    assert ToInt32(vaddr) == vaddr;
    assert CMod(vaddr, 0x40_0000) == vaddr % 0x40_0000;
  }

  /** The twenty page bits split into ten and ten. */
  lemma SplitAddress(v: nat)
    ensures v / 0x40_0000 == v / 4096 / 1024
    ensures v % 0x40_0000 / 4096 == v / 4096 % 1024
  {
    var page := v / 4096;
    var d, t, low := page / 1024, page % 1024, v % 4096;
    assert v == 0x40_0000 * d + (4096 * t + low);
    DivUnique(v, 0x40_0000, d, 4096 * t + low);
    DivUnique(4096 * t + low, 4096, t, low);
  }

  lemma HighAddress(vaddr: uint32)
    requires vaddr >= 0x8000_0000
    ensures Indexes(vaddr).0 == 0 || Indexes(vaddr).0 >= 0xFFFF_FE00
    ensures vaddr <= 0xFFC0_0000 ==> Indexes(vaddr).0 != 0
    ensures vaddr / 0x40_0000 >= 512 && vaddr / 0x40_0000 < 1024
  {
    var up := 0x1_0000_0000 - vaddr;
    assert ToInt32(vaddr) == -up;
    assert CDiv(-up, 0x40_0000) == -(up / 0x40_0000);
    assert 0 <= up / 0x40_0000 <= 512;
  }

  lemma SignedRemainderIsAlignment(vaddr: uint32)
    ensures CMod(ToInt32(vaddr), 4096) == 0 <==> vaddr % 4096 == 0
  {
    if vaddr >= 0x8000_0000 {
      var up := 0x1_0000_0000 - vaddr;
      assert ToInt32(vaddr) == -up;
      assert CMod(-up, 4096) == -(up % 4096);
    }
  }

  method GetIndexes(vaddr: uint32) returns (res: int32, directoryIndex: uint32, tableIndex: uint32)
    ensures res == if vaddr % 4096 == 0 then 0 else -EINVARG
    ensures res == 0 ==> (directoryIndex, tableIndex) == Indexes(vaddr)
    ensures res == 0 && vaddr < 0x8000_0000 ==>
      directoryIndex == vaddr / 4096 / 1024 && tableIndex == vaddr / 4096 % 1024
  {
    SignedRemainderIsAlignment(vaddr);
    if CMod(ToInt32(vaddr), 4096) != 0 {
      return -EINVARG, 0, 0;
    }
    IndexesRightIff(vaddr);
    directoryIndex := ToUint32(CDiv(ToInt32(vaddr), 0x40_0000));
    tableIndex := ToUint32(CDiv(CMod(ToInt32(vaddr), 0x40_0000), 4096));
    res := 0;
  }

  // ----- paging_set

  /** Where the directory entry is read: pointer arithmetic wraps around, so a huge index lies before the directory. */
  function EntryAddress(dir: uint32, vaddr: uint32): uint32 {
    ToUint32(dir + 4 * Indexes(vaddr).0)
  }

  /** Where the value is written, in the table that the entry read leads to. */
  function TargetAddress(entry: uint32, vaddr: uint32): uint32 {
    ToUint32(BitAnd(entry, 0xfffff000) + 4 * Indexes(vaddr).1)
  }

  /** Both the entry and the target lie in the memory of the model. */
  predicate Reaches(m: seq<uint32>, s: uint32, dir: uint32, vaddr: uint32) {
    && InsideMemory(m, s, EntryAddress(dir, vaddr))
    && InsideMemory(m, s, TargetAddress(m[EntryAddress(dir, vaddr) - s], vaddr))
  }

  function Target(m: seq<uint32>, s: uint32, dir: uint32, vaddr: uint32): uint32
    requires Reaches(m, s, dir, vaddr)
  {
    TargetAddress(m[EntryAddress(dir, vaddr) - s], vaddr)
  }

  /** Memory after paging_set; a misaligned address changes nothing. */
  function AfterSet(m: seq<uint32>, s: uint32, dir: uint32, vaddr: uint32, val: uint32): seq<uint32>
    requires vaddr % 4096 == 0 ==> Reaches(m, s, dir, vaddr)
  {
    if vaddr % 4096 != 0 then m else m[Target(m, s, dir, vaddr) - s := val]
  }

  method Set(k: Kernel, dir: uint32, vaddr: uint32, val: uint32) returns (res: int32)
    requires k.Valid() && (vaddr % 4096 == 0 ==> Reaches(k.cells[..], k.heap.saddr, dir, vaddr))
    modifies k.cells
    ensures res == if vaddr % 4096 == 0 then 0 else -EINVARG
    ensures k.cells[..] == AfterSet(old(k.cells[..]), k.heap.saddr, dir, vaddr, val)
    ensures old(AddressSpace(k.cells[..], k.heap.saddr, dir)) && vaddr < 0x8000_0000 ==>
      AddressSpace(k.cells[..], k.heap.saddr, dir)
    ensures k.Valid() && k.State() == old(k.State())
  {
    hide Describes;
    hide BitAnd;
    hide Indexes;
    hide AddressSpace;
    ghost var m, s := k.cells[..], k.heap.saddr;
    var directoryIndex: int, tableIndex: int;
    res, directoryIndex, tableIndex := GetIndexes(vaddr);
    if res < 0 {
      return;
    }
    var entry := k.Load(ToUint32(dir + 4 * directoryIndex));
    var table := BitAnd(entry, 0xfffff000);
    k.Store(ToUint32(table + 4 * tableIndex), val);
    if AddressSpace(m, s, dir) && vaddr < 0x8000_0000 {
      LowSet(m, s, dir, vaddr);
      OverwriteSlot(m, s, dir, vaddr / 4096, val);
    }
  }

  /** Below 2^31 the target is the page's own slot. */
  lemma LowSet(m: seq<uint32>, s: uint32, dir: uint32, vaddr: uint32)
    requires AddressSpace(m, s, dir) && vaddr % 4096 == 0 && vaddr < 0x8000_0000
    ensures Reaches(m, s, dir, vaddr) && Target(m, s, dir, vaddr) == Slot(m, s, dir, vaddr / 4096)
  {
    hide BitAnd;
    hide Indexes;
    IndexesRightIff(vaddr);
    var i := vaddr / 4096 / 1024;
    assert EntryAddress(dir, vaddr) == dir + 4 * i;
    assert IsBlockAddress(m, s, TableAddress(m, s, dir, i));
  }

  /** The call did what it is for: the page translates to the value, every other page as before. */
  ghost predicate IsRightSet(m: seq<uint32>, m': seq<uint32>, s: uint32, dir: uint32, page: nat, val: uint32)
    requires AddressSpace(m, s, dir) && page < PAGES
  {
    && AddressSpace(m', s, dir)
    && forall p | 0 <= p < PAGES :: Translate(m', s, dir, p) == if p == page then val else Translate(m, s, dir, p)
  }

  /** A call is right for every value exactly when its target is the page's own slot. */
  lemma SetRightIff(m: seq<uint32>, s: uint32, dir: uint32, vaddr: uint32)
    requires AddressSpace(m, s, dir) && vaddr % 4096 == 0 && Reaches(m, s, dir, vaddr)
    ensures (forall val: uint32 :: IsRightSet(m, AfterSet(m, s, dir, vaddr, val), s, dir, vaddr / 4096, val))
      <==> Target(m, s, dir, vaddr) == Slot(m, s, dir, vaddr / 4096)
  {
    hide AddressSpace;
    hide IsRightSet;
    hide Translate;
    hide Indexes;
    var page, target := vaddr / 4096, Target(m, s, dir, vaddr);
    if target == Slot(m, s, dir, page) {
      forall val: uint32 ensures IsRightSet(m, AfterSet(m, s, dir, vaddr, val), s, dir, page, val) {
        OverwriteSlot(m, s, dir, page, val);
        RightBySlot(m, s, dir, page, val);
      }
    } else {
      var val := WrongValue(m, s, dir, page, target);
      assert !IsRightSet(m, AfterSet(m, s, dir, vaddr, val), s, dir, page, val);
    }
  }

  lemma RightBySlot(m: seq<uint32>, s: uint32, dir: uint32, page: nat, val: uint32)
    requires AddressSpace(m, s, dir) && page < PAGES
    ensures IsRightSet(m, m[Slot(m, s, dir, page) - s := val], s, dir, page, val)
  {
    OverwriteSlot(m, s, dir, page, val);
  }

  /** Written anywhere else, some value is not what the page then translates to. */
  lemma WrongValue(m: seq<uint32>, s: uint32, dir: uint32, page: nat, target: uint32) returns (val: uint32)
    requires AddressSpace(m, s, dir) && page < PAGES && InsideMemory(m, s, target)
    requires target != Slot(m, s, dir, page)
    ensures !IsRightSet(m, m[target - s := val], s, dir, page, val)
  {
    hide BitAnd;
    var i := page / 1024;
    if target == dir + 4 * i {
      val := 0;
      ZeroEntryLeadsNowhere();
      assert TableAddress(m[target - s := 0], s, dir, i) == 0;
    } else {
      val := if Translate(m, s, dir, page) == 0 then 1 else 0;
      assert TableAddress(m[target - s := val], s, dir, i) == TableAddress(m, s, dir, i);
    }
  }

  lemma ZeroEntryLeadsNowhere()
    ensures BitAnd(0, 0xfffff000) == 0
  {
    BitAndFrameMask(0);
  }

  // ----- Whole runs of paging_set

  datatype SetCall = SetCall(vaddr: uint32, val: uint32)

  /** No call is for an aligned address from 2^31 on. */
  ghost predicate AllLow(calls: seq<SetCall>) {
    forall c | c in calls && c.vaddr % 4096 == 0 :: c.vaddr < 0x8000_0000
  }

  /** The value last set for the page by an aligned call, or its original entry. */
  function LastSet(calls: seq<SetCall>, page: nat, original: uint32): uint32
  {
    if calls == [] then original
    else
      var c := calls[|calls| - 1];
      if c.vaddr == 4096 * page then c.val else LastSet(calls[..|calls| - 1], page, original)
  }

  /** The memories before, between and after the calls, all of which stay inside them. */
  ghost predicate IsSetRun(states: seq<seq<uint32>>, s: uint32, dir: uint32, calls: seq<SetCall>)
  {
    && |states| == |calls| + 1
    && forall i | 0 <= i < |calls| :: IsSetStep(states[i], states[i + 1], s, dir, calls[i])
  }

  ghost predicate IsSetStep(m: seq<uint32>, m': seq<uint32>, s: uint32, dir: uint32, c: SetCall) {
    && (c.vaddr % 4096 == 0 ==> Reaches(m, s, dir, c.vaddr))
    && m' == AfterSet(m, s, dir, c.vaddr, c.val)
  }

  /** The two-level walk is the flat map of last values. */
  ghost predicate WalkIs(m0: seq<uint32>, m: seq<uint32>, s: uint32, dir: uint32, calls: seq<SetCall>)
    requires AddressSpace(m0, s, dir)
  {
    && AddressSpace(m, s, dir)
    && forall p | 0 <= p < PAGES :: Translate(m, s, dir, p) == LastSet(calls, p, Translate(m0, s, dir, p))
  }

  /** After any run of calls below 2^31 the two-level walk is the flat map of last values. */
  lemma {:induction false} WalkIsLastSet(states: seq<seq<uint32>>, s: uint32, dir: uint32, calls: seq<SetCall>)
    requires IsSetRun(states, s, dir, calls) && AllLow(calls) && AddressSpace(states[0], s, dir)
    ensures WalkIs(states[0], states[|calls|], s, dir, calls)
    decreases |calls|
  {
    hide AddressSpace;
    hide Translate;
    hide Indexes;
    hide Target;
    var n := |calls|;
    if n > 0 {
      var c := calls[n - 1];
      assert IsSetStep(states[n - 1], states[n], s, dir, c);
      assert IsSetRun(states[..n], s, dir, calls[..n - 1]) by {
        forall i | 0 <= i < n - 1 ensures IsSetStep(states[..n][i], states[..n][i + 1], s, dir, calls[..n - 1][i]) {
          assert IsSetStep(states[i], states[i + 1], s, dir, calls[i]);
        }
      }
      WalkIsLastSet(states[..n], s, dir, calls[..n - 1]);
      if c.vaddr % 4096 == 0 {
        LowSet(states[n - 1], s, dir, c.vaddr);
        OverwriteSlot(states[n - 1], s, dir, c.vaddr / 4096, c.val);
      }
    }
  }

  // ----- Calls from 2^31 on

  /**
   A memory on which every call from 2^31 on goes wrong: the directory in block 1, its
   tables from block 3 on, all their entries `orig`, and before the directory words that
   are read as an entry for the first table.
   */
  function CellOf(s: uint32, orig: uint32, c: nat): uint32
    requires s <= 0x8000_0000
  {
    if c < 4096 then s + 3 * 4096
    else if c < 8192 then s + 4096 * (3 + (c - 4096) / 4)
    else orig
  }

  function Example(s: uint32, orig: uint32): (m: seq<uint32>)
    requires s <= 0x8000_0000
    ensures |m| == 4096 * 1027 && forall c | 0 <= c < |m| :: m[c] == CellOf(s, orig, c)
  {
    seq(4096 * 1027, c requires 0 <= c => CellOf(s, orig, c))
  }

  /** The first two blocks are the example's, and no page from 2^19 on has been set. */
  ghost predicate LikeExample(m: seq<uint32>, s: uint32, orig: uint32)
    requires s <= 0x8000_0000
  {
    && |m| == 4096 * 1027
    && (forall c | 0 <= c < 8192 :: m[c] == CellOf(s, orig, c))
    && (forall c | 4096 * 515 <= c < |m| :: m[c] == orig)
  }

  lemma ExampleTables(m: seq<uint32>, s: uint32, orig: uint32, dir: uint32)
    requires 0 < s <= 0x8000_0000 && s % 4096 == 0 && LikeExample(m, s, orig) && dir == s + 4096
    ensures AddressSpace(m, s, dir)
    ensures forall i | 0 <= i < 1024 :: TableAddress(m, s, dir, i) == s + 4096 * (3 + i)
    ensures forall page | 0x8_0000 <= page < PAGES :: Translate(m, s, dir, page) == orig
  {
    hide BitAnd;
    forall i | 0 <= i < 1024
      ensures TableAddress(m, s, dir, i) == s + 4096 * (3 + i) && IsBlockAddress(m, s, s + 4096 * (3 + i))
    {
      assert m[4096 + 4 * i] == s + 4096 * (3 + i);
      BitAndFrameMask(s + 4096 * (3 + i));
    }
    forall page | 0x8_0000 <= page < PAGES ensures Translate(m, s, dir, page) == orig {
      assert TableAddress(m, s, dir, page / 1024) == s + 4096 * (3 + page / 1024);
    }
  }

  /** The indexes of a high address are 0 or negative: as unsigned numbers, 2^32 less something. */
  lemma HighIndexes(vaddr: uint32)
    requires 0x8000_0000 <= vaddr && vaddr % 4096 == 0
    ensures var (i, t) := Indexes(vaddr);
      && (i == 0 || 0x1_0000_0000 - 512 <= i) && (t == 0 || 0x1_0000_0000 - 1024 < t)
  {
    var up := 0x1_0000_0000 - vaddr;
    var i, r := up / 0x40_0000, up % 0x40_0000;
    assert ToInt32(vaddr) == -up;
    assert CDiv(-up, 0x40_0000) == -i && CMod(-up, 0x40_0000) == -r;
    assert 0 <= i <= 512 && 0 <= r < 0x40_0000;
    assert CDiv(-r, 4096) == -(r / 4096);
    assert r / 4096 < 1024;
  }

  /** What the indexes of an aligned address from 2^31 on are: those of its distance to 2^32, negated. */
  lemma HighIndexesAre(vaddr: uint32)
    requires 0x8000_0000 <= vaddr && vaddr % 4096 == 0
    ensures var up := 0x1_0000_0000 - vaddr; var (i, t) := Indexes(vaddr);
      && (i + up / 0x40_0000) % 0x1_0000_0000 == 0
      && (t + up / 4096 % 1024) % 0x1_0000_0000 == 0
  {
    var up := 0x1_0000_0000 - vaddr;
    var i, r := up / 0x40_0000, up % 0x40_0000;
    SplitAddress(up);
    assert ToInt32(vaddr) == -up;
    assert CDiv(-up, 0x40_0000) == -i && CMod(-up, 0x40_0000) == -r;
    assert CDiv(-r, 4096) == -(r / 4096);
  }

  /**
   A high call reads its entry from the directory's first word or before it, and writes to
   the table's first word or before it.
   */
  lemma HighAddresses(s: uint32, vaddr: uint32)
    requires 0 < s <= 0x8000_0000 && s % 4096 == 0 && vaddr % 4096 == 0 && vaddr >= 0x8000_0000
    ensures s + 2048 <= EntryAddress(s + 4096, vaddr) <= s + 4096
    ensures s + 2 * 4096 < TargetAddress(s + 3 * 4096, vaddr) <= s + 3 * 4096
  {
    hide Indexes;
    hide BitAnd;
    HighIndexes(vaddr);
    BitAndFrameMask(s + 3 * 4096);
  }

  /** On such a memory a high call writes into block 2 or 3, and so not into the page's own slot. */
  lemma HighSet(m: seq<uint32>, s: uint32, orig: uint32, vaddr: uint32, val: uint32)
    requires 0 < s <= 0x8000_0000 && s % 4096 == 0 && LikeExample(m, s, orig)
    requires vaddr % 4096 == 0 && vaddr >= 0x8000_0000
    ensures Reaches(m, s, s + 4096, vaddr)
    ensures LikeExample(AfterSet(m, s, s + 4096, vaddr, val), s, orig)
  {
    hide Indexes;
    hide EntryAddress;
    hide TargetAddress;
    HighAddresses(s, vaddr);
    assert m[EntryAddress(s + 4096, vaddr) - s] == s + 3 * 4096;
  }

  /** The memories of a run of low calls on the example. */
  lemma {:induction false} LowRun(s: uint32, orig: uint32, calls: seq<SetCall>) returns (states: seq<seq<uint32>>)
    requires 0 < s <= 0x8000_0000 && s % 4096 == 0 && AllLow(calls)
    ensures IsSetRun(states, s, s + 4096, calls) && states[0] == Example(s, orig)
    ensures LikeExample(states[|calls|], s, orig)
    decreases |calls|
  {
    hide Indexes;
    hide BitAnd;
    var n := |calls|;
    if n == 0 {
      states := [Example(s, orig)];
    } else {
      var c := calls[n - 1];
      var before := LowRun(s, orig, calls[..n - 1]);
      ExampleTables(before[n - 1], s, orig, s + 4096);
      if c.vaddr % 4096 == 0 {
        LowSet(before[n - 1], s, s + 4096, c.vaddr);
        var page := c.vaddr / 4096;
        assert TableAddress(before[n - 1], s, s + 4096, page / 1024) == s + 4096 * (3 + page / 1024);
      }
      states := before + [AfterSet(before[n - 1], s, s + 4096, c.vaddr, c.val)];
      RunExtends(before, s, s + 4096, calls[..n - 1], c);
      assert calls[..n - 1] + [c] == calls;
    }
  }

  lemma RunExtends(states: seq<seq<uint32>>, s: uint32, dir: uint32, calls: seq<SetCall>, c: SetCall)
    requires IsSetRun(states, s, dir, calls)
    requires c.vaddr % 4096 == 0 ==> Reaches(states[|calls|], s, dir, c.vaddr)
    ensures IsSetRun(states + [AfterSet(states[|calls|], s, dir, c.vaddr, c.val)], s, dir, calls + [c])
  {
    hide Reaches;
    hide AfterSet;
    var next, all := states + [AfterSet(states[|calls|], s, dir, c.vaddr, c.val)], calls + [c];
    forall i | 0 <= i < |all| ensures IsSetStep(next[i], next[i + 1], s, dir, all[i]) {
      if i < |calls| {
        assert IsSetStep(states[i], states[i + 1], s, dir, calls[i]);
      }
    }
  }

  /** On every memory, and after each of the calls, the walk is the flat map of last values. */
  ghost predicate AlwaysWalks(calls: seq<SetCall>) {
    forall n, s: uint32, dir: uint32, states |
      0 <= n <= |calls| && IsSetRun(states, s, dir, calls[..n]) && AddressSpace(states[0], s, dir) ::
      WalkIs(states[0], states[n], s, dir, calls[..n])
  }

  /** The page tables refine the flat map, on every memory, exactly for runs of calls below 2^31. */
  lemma AlwaysWalksIff(calls: seq<SetCall>)
    ensures AlwaysWalks(calls) <==> AllLow(calls)
  {
    if AllLow(calls) {
      forall n, s: uint32, dir: uint32, states |
        0 <= n <= |calls| && IsSetRun(states, s, dir, calls[..n]) && AddressSpace(states[0], s, dir)
        ensures WalkIs(states[0], states[n], s, dir, calls[..n])
      {
        WalkIsLastSet(states, s, dir, calls[..n]);
      }
    } else {
      var n, states := BrokenRun(calls);
      assert !WalkIs(states[0], states[n], 4096, 8192, calls[..n]);
    }
  }

  lemma FirstHigh(calls: seq<SetCall>) returns (n: nat)
    requires !AllLow(calls)
    ensures n < |calls| && AllLow(calls[..n]) && calls[n].vaddr % 4096 == 0 && calls[n].vaddr >= 0x8000_0000
    decreases |calls|
  {
    var init, last := calls[..|calls| - 1], calls[|calls| - 1];
    if AllLow(init) {
      n := |init|;
      assert forall c | c in calls :: c in init || c == last;
    } else {
      n := FirstHigh(init);
      assert init[..n] == calls[..n];
    }
  }

  /** The first high call of a run breaks the walk on the example, with other entries than the value it is given. */
  lemma BrokenRun(calls: seq<SetCall>) returns (n: nat, states: seq<seq<uint32>>)
    requires !AllLow(calls)
    ensures n <= |calls| && IsSetRun(states, 4096, 8192, calls[..n]) && AddressSpace(states[0], 4096, 8192)
    ensures !WalkIs(states[0], states[n], 4096, 8192, calls[..n])
  {
    hide AddressSpace;
    hide Translate;
    hide LikeExample;
    hide Reaches;
    hide AfterSet;
    hide Example;
    var s: uint32 := 4096;
    var i := FirstHigh(calls);
    var c := calls[i];
    var orig := if c.val == 0 then 1 else 0;
    var before := LowRun(s, orig, calls[..i]);
    HighSet(before[i], s, orig, c.vaddr, c.val);
    states := before + [AfterSet(before[i], s, 8192, c.vaddr, c.val)];
    RunExtends(before, s, 8192, calls[..i], c);
    n := i + 1;
    assert calls[..i] + [c] == calls[..n];
    ExampleIsLike(s, orig);
    ExampleTables(states[0], s, orig, 8192);
    ExampleTables(states[n], s, orig, 8192);
    assert Translate(states[n], s, 8192, c.vaddr / 4096) == orig;
    assert calls[..n][|calls[..n]| - 1] == c;
  }

  lemma ExampleIsLike(s: uint32, orig: uint32)
    requires s <= 0x8000_0000
    ensures LikeExample(Example(s, orig), s, orig)
  {
  }

  // ----- paging_new_4gb

  /** The entry that maps a page to the frame with the same number. */
  function IdentityEntry(page: nat, flags: uint8): nat {
    4096 * page + flags
  }

  lemma IdentityEntryFields(page: nat, flags: uint8)
    ensures IdentityEntry(page, flags) / 4096 == page && IdentityEntry(page, flags) % 4096 == flags
  {
    DivUnique(4096 * page + flags, 4096, page, flags);
  }

  /** A directory entry for a table: its address, the flags, and the writeable bit. */
  function DirectoryEntry(table: nat, flags: uint8): nat {
    BitOr(BitOr(table, flags), IS_WRITEABLE)
  }

  lemma DirectoryEntrySum(table: uint32, flags: uint8)
    requires table % 4096 == 0
    ensures DirectoryEntry(table, flags) == table + BitOr(flags, IS_WRITEABLE)
    ensures BitOr(flags, IS_WRITEABLE) < 4096
  {
    BitOrFlags(table, 0, flags);
    BitOrFlags(table, flags, IS_WRITEABLE);
  }

  lemma DirectoryEntryHoldsTable(table: uint32, flags: uint8)
    requires table % 4096 == 0
    ensures DirectoryEntry(table, flags) < 0x1_0000_0000
    ensures BitAnd(DirectoryEntry(table, flags), 0xfffff000) == table
  {
    DirectoryEntrySum(table, flags);
    var low := BitOr(flags, IS_WRITEABLE);
    DivUnique(table + low, 4096, table / 4096, low);
    BitAndFrameMask(table + low);
  }

  /** The low twelve bits are those of the flags, and bit 1, writeable, besides. */
  predicate HasFlags(entry: uint32, flags: uint8) {
    forall k | 0 <= k < 12 :: Bit(entry % 4096, k) <==> k == 1 || Bit(flags, k)
  }

  lemma DirectoryEntryBits(table: uint32, flags: uint8)
    requires table % 4096 == 0
    ensures DirectoryEntry(table, flags) < 0x1_0000_0000 && HasFlags(DirectoryEntry(table, flags), flags)
  {
    hide BitOr;
    hide Bit;
    DirectoryEntryHoldsTable(table, flags);
    DirectoryEntrySum(table, flags);
    DivUnique(table + BitOr(flags, 2), 4096, table / 4096, BitOr(flags, 2));
    forall k | 0 <= k < 12 ensures Bit(BitOr(flags, 2), k) <==> k == 1 || Bit(flags, k) {
      BitOrBits(flags, 2, k);
      BitOfTwo(k);
    }
  }

  lemma {:induction false} BitOfTwo(k: nat)
    ensures Bit(2, k) <==> k == 1
  {
    if k > 1 {
      BitOfHalf(2, k);
      BitOfHalf(1, k - 1);
      assert 1 / 2 == 0 / Pow2(k - 2) == 0;
    } else {
      assert Pow2(0) == 1 && Pow2(1) == 2;
    }
  }

  /** The kernel's own call, for pages that are writeable, present and everybody's. */
  lemma KernelFlags(table: uint32)
    requires table % 4096 == 0
    ensures DirectoryEntry(table, 7) == table + 7
  {
    DirectoryEntrySum(table, 7);
    assert BitOr(7, 2) == 1 + 2 * BitOr(3, 1) && BitOr(3, 1) == 1 + 2 * BitOr(1, 0);
    BitOrZero(1);
  }

  /** The running 32-bit offset of the outer loop before turn i. */
  function Offset(i: nat): int32 {
    if i == 0 then 0 else ToInt32(Offset(i - 1) + 0x40_0000)
  }

  method AdvanceOffset(ghost i: nat, offset: int32) returns (next: int32)
    requires offset == Offset(i)
    ensures next == Offset(i + 1)
  {
    next := ToInt32(offset + 0x40_0000);
  }

  lemma {:induction false} OffsetWraps(i: nat)
    ensures Offset(i) == ToInt32(0x40_0000 * i)
  {
    if i > 0 {
      OffsetWraps(i - 1);
      WrapThrough(0x40_0000 * (i - 1), 1, 0x40_0000);
    }
  }

  /** Block t holds the 1024 identity entries of directory slot i. */
  ghost predicate TableFilled(m: seq<uint32>, t: nat, i: nat, flags: uint8) {
    && 4096 * (t + 1) <= |m|
    && forall e | 0 <= e < 1024 :: m[4096 * t + 4 * e] == IdentityEntry(1024 * i + e, flags)
  }

  lemma FrameAndFlags(i: nat, e: nat, flags: uint8)
    requires i < 1024 && e < 1024
    ensures BitOr(ToUint32(Offset(i) + e * 4096), flags) == IdentityEntry(1024 * i + e, flags)
    ensures IdentityEntry(1024 * i + e, flags) < 0x1_0000_0000
  {
    hide ToUint32;
    hide ToInt32;
    hide BitOr;
    OffsetWraps(i);
    UnwrapSum(0x40_0000 * i, e * 4096);
    var frame := 4096 * (1024 * i + e);
    BitOrFlags(frame, 0, flags);
  }

  /** The inner loop: entry e is (offset + e * 4096) | flags, with a 32-bit offset that wraps half way. */
  method FillTable(k: Kernel, table: uint32, ghost t: nat, ghost i: nat, offset: int32, flags: uint8)
    requires k.Valid() && i < 1024 && offset == Offset(i)
    requires table == BlockToAddress(k.heap.saddr, t) && 4096 * (t + 1) <= k.cells.Length
    modifies k.cells
    ensures TableFilled(k.cells[..], t, i, flags)
    ensures SameOutsideBlock(old(k.cells[..]), k.cells[..], t)
    ensures k.Valid() && k.State() == old(k.State())
  {
    hide Describes;
    hide BitOr;
    for e := 0 to 1024
      invariant forall j | 0 <= j < e :: k.cells[4096 * t + 4 * j] == IdentityEntry(1024 * i + j, flags)
      invariant SameOutsideBlock(old(k.cells[..]), k.cells[..], t)
      invariant k.Valid() && k.State() == old(k.State())
    {
      FrameAndFlags(i, e, flags);
      k.Store(table + 4 * e, BitOr(ToUint32(offset + e * 4096), flags));
    }
  }

  /** Directory d leads, in its first n slots, to the filled blocks `tables`. */
  ghost predicate FirstTables(m: seq<uint32>, s: uint32, d: nat, tables: seq<nat>, flags: uint8) {
    && 4096 * (d + 1) <= |m| && |tables| <= 1024 && s + |m| <= 0x1_0000_0000
    && (forall i | 0 <= i < |tables| ::
      && tables[i] != d && TableFilled(m, tables[i], i, flags)
      && m[4096 * d + 4 * i] == DirectoryEntry(BlockToAddress(s, tables[i]), flags))
    && (forall i, j | 0 <= i < j < |tables| :: tables[i] != tables[j])
  }

  lemma OneMoreCell(m: seq<uint32>, m': seq<uint32>, t: nat, d: nat, c: nat, entry: uint32)
    requires SameOutsideBlock(m, m', t) && c < 4096 && 4096 * d + c < |m|
    ensures SameOutsideBlocks(m, m'[4096 * d + c := entry], {d, t})
  {
  }

  lemma ExtendTables(m: seq<uint32>, m': seq<uint32>, s: uint32, d: nat, tables: seq<nat>, t: nat, flags: uint8)
    requires FirstTables(m, s, d, tables, flags) && |tables| < 1024
    requires SameOutsideBlock(m, m', t) && TableFilled(m', t, |tables|, flags)
    requires t != d && t !in tables && DirectoryEntry(BlockToAddress(s, t), flags) < 0x1_0000_0000
    ensures FirstTables(m'[4096 * d + 4 * |tables| := DirectoryEntry(BlockToAddress(s, t), flags)],
      s, d, tables + [t], flags)
  {
    var m2 := m'[4096 * d + 4 * |tables| := DirectoryEntry(BlockToAddress(s, t), flags)];
    var all := tables + [t];
    assert SameOutsideBlock(m', m2, d);
    OtherBlockSame(m, m', t, d);
    forall i | 0 <= i < |all|
      ensures all[i] != d && TableFilled(m2, all[i], i, flags)
      ensures m2[4096 * d + 4 * i] == DirectoryEntry(BlockToAddress(s, all[i]), flags)
    {
      OtherBlockSame(m', m2, d, all[i]);
      if i < |tables| {
        assert all[i] == tables[i] != t;
        OtherBlockSame(m, m', t, all[i]);
        KeepsFilled(m, m', all[i], i, flags);
      }
      KeepsFilled(m', m2, all[i], i, flags);
    }
  }

  lemma KeepsFilled(m: seq<uint32>, m': seq<uint32>, t: nat, i: nat, flags: uint8)
    requires TableFilled(m, t, i, flags) && SameInBlock(m, m', t)
    ensures TableFilled(m', t, i, flags)
  {
  }

  /** A fresh block, filled as the i-th table. */
  method NewTable(k: Kernel, i: nat, offset: int32, flags: uint8) returns (table: uint32, ghost t: nat)
    requires k.Valid() && k.State().FreeCount() > 0
    requires i < 1024 && offset == Offset(i)
    modifies k.heap.entries, k.heap`live, k.cells
    ensures k.Valid() && k.State().FreeCount() == old(k.State().FreeCount()) - 1
    ensures t < k.heap.total && t !in old(k.heap.live) && k.heap.live == old(k.heap.live)[t := 1]
    ensures table == BlockToAddress(k.heap.saddr, t)
    ensures TableFilled(k.cells[..], t, i, flags)
    ensures SameOutsideBlock(old(k.cells[..]), k.cells[..], t)
  {
    table, t := k.KzallocOne(4096);
    FillTable(k, table, t, i, offset, flags);
  }

  /** One turn of the outer loop: a new table block, filled, and entered into the directory. */
  method AddTable(k: Kernel, directory: uint32, i: nat, offset: int32, flags: uint8,
                  ghost d: nat, ghost tables: seq<nat>)
    returns (ghost t: nat)
    requires k.Valid() && k.State().FreeCount() > 0
    requires d in k.heap.live && directory == BlockToAddress(k.heap.saddr, d)
    requires |tables| == i < 1024 && offset == Offset(i)
    requires d < k.heap.total && FirstTables(k.cells[..], k.heap.saddr, d, tables, flags)
    requires forall b | b in tables :: b in k.heap.live
    modifies k.heap.entries, k.heap`live, k.cells
    ensures k.Valid() && k.State().FreeCount() == old(k.State().FreeCount()) - 1
    ensures t !in old(k.heap.live) && k.heap.live == old(k.heap.live)[t := 1]
    ensures FirstTables(k.cells[..], k.heap.saddr, d, tables + [t], flags)
    ensures SameOutsideBlocks(old(k.cells[..]), k.cells[..], {d, t})
  {
    hide Describes;
    hide TableFilled;
    hide FirstTables;
    hide SameOutsideBlock;
    hide SameOutsideBlocks;
    hide BitOr;
    hide BitAnd;
    hide HeapState.FreeCount;
    ghost var s, m0 := k.heap.saddr, k.cells[..];
    var table;
    table, t := NewTable(k, i, offset, flags);
    ghost var m1 := k.cells[..];
    BlockAligned(s, t);
    DirectoryEntryHoldsTable(table, flags);
    var entry: uint32 := BitOr(BitOr(table, flags), IS_WRITEABLE);
    k.Store(directory + 4 * i, entry);
    assert k.cells[..] == m1[4096 * d + 4 * i := entry];
    ExtendTables(m0, m1, s, d, tables, t, flags);
    OneMoreCell(m0, m1, t, d, 4 * i, entry);
  }

  lemma KeepsTables(m: seq<uint32>, m': seq<uint32>, s: uint32, d: nat, tables: seq<nat>, c: nat, flags: uint8)
    requires FirstTables(m, s, d, tables, flags) && SameOutsideBlock(m, m', c)
    requires c != d && c !in tables
    ensures FirstTables(m', s, d, tables, flags)
  {
    OtherBlockSame(m, m', c, d);
    forall i | 0 <= i < |tables| ensures TableFilled(m', tables[i], i, flags) {
      OtherBlockSame(m, m', c, tables[i]);
      KeepsFilled(m, m', tables[i], i, flags);
    }
  }

  lemma TableAddressIs(m: seq<uint32>, s: uint32, d: nat, tables: seq<nat>, flags: uint8, i: nat)
    requires FirstTables(m, s, d, tables, flags) && i < |tables| && s % 4096 == 0
    ensures TableAddress(m, s, BlockToAddress(s, d), i) == BlockToAddress(s, tables[i])
    ensures IsBlockAddress(m, s, BlockToAddress(s, tables[i]))
  {
    hide BitAnd;
    hide DirectoryEntry;
    hide IdentityEntry;
    assert TableFilled(m, tables[i], i, flags);
    BlockAligned(s, tables[i]);
    DirectoryEntryHoldsTable(BlockToAddress(s, tables[i]), flags);
  }

  lemma TablesAreAddressSpace(m: seq<uint32>, s: uint32, d: nat, tables: seq<nat>, flags: uint8)
    requires FirstTables(m, s, d, tables, flags) && |tables| == 1024 && 0 < s && s % 4096 == 0
    ensures AddressSpace(m, s, BlockToAddress(s, d))
  {
    forall i | 0 <= i < 1024
      ensures TableAddress(m, s, BlockToAddress(s, d), i) == BlockToAddress(s, tables[i])
      ensures IsBlockAddress(m, s, BlockToAddress(s, tables[i]))
    {
      TableAddressIs(m, s, d, tables, flags, i);
    }
  }

  /** A directory of 1024 filled tables is an address space that maps every page to itself. */
  lemma TablesMapIdentity(m: seq<uint32>, s: uint32, d: nat, tables: seq<nat>, flags: uint8)
    requires FirstTables(m, s, d, tables, flags) && |tables| == 1024 && 0 < s && s % 4096 == 0
    ensures AddressSpace(m, s, BlockToAddress(s, d))
    ensures forall page | 0 <= page < PAGES ::
      Translate(m, s, BlockToAddress(s, d), page) == IdentityEntry(page, flags)
  {
    TablesAreAddressSpace(m, s, d, tables, flags);
    forall page | 0 <= page < PAGES
      ensures Translate(m, s, BlockToAddress(s, d), page) == IdentityEntry(page, flags)
    {
      var i, e := page / 1024, page % 1024;
      TableAddressIs(m, s, d, tables, flags, i);
      assert TableFilled(m, tables[i], i, flags);
      assert Slot(m, s, BlockToAddress(s, d), page) - s == 4096 * tables[i] + 4 * e;
    }
  }

  lemma TablesBuiltFrom(m: seq<uint32>, s: uint32, d: nat, tables: seq<nat>, flags: uint8, blocks: set<nat>)
    requires FirstTables(m, s, d, tables, flags) && |tables| == 1024 && 0 < s && s % 4096 == 0
    requires d in blocks && forall b | b in tables :: b in blocks
    ensures AddressSpace(m, s, BlockToAddress(s, d)) && BuiltFrom(m, s, BlockToAddress(s, d), blocks)
  {
    hide BlockOf;
    TablesAreAddressSpace(m, s, d, tables, flags);
    BlockOfBlock(s, d);
    forall i | 0 <= i < 1024 ensures BlockOf(s, TableAddress(m, s, BlockToAddress(s, d), i)) in blocks {
      TableAddressIs(m, s, d, tables, flags, i);
      BlockOfBlock(s, tables[i]);
    }
  }

  /** All entries of a directory have their flags. */
  predicate DirectoryHasFlags(m: seq<uint32>, s: uint32, dir: int, flags: uint8)
    requires IsBlockAddress(m, s, dir)
  {
    forall i | 0 <= i < 1024 :: HasFlags(m[dir - s + 4 * i], flags)
  }

  lemma TablesHaveFlags(m: seq<uint32>, s: uint32, d: nat, tables: seq<nat>, flags: uint8)
    requires FirstTables(m, s, d, tables, flags) && |tables| == 1024 && s % 4096 == 0
    ensures IsBlockAddress(m, s, BlockToAddress(s, d)) && DirectoryHasFlags(m, s, BlockToAddress(s, d), flags)
  {
    hide HasFlags;
    hide DirectoryEntry;
    forall i | 0 <= i < 1024 ensures HasFlags(m[4096 * d + 4 * i], flags) {
      assert TableFilled(m, tables[i], i, flags);
      BlockAligned(s, tables[i]);
      DirectoryEntryBits(BlockToAddress(s, tables[i]), flags);
    }
  }

  lemma BlockOfBlock(s: uint32, b: nat)
    ensures BlockOf(s, BlockToAddress(s, b)) == b
  {
    DivUnique(4096 * b, 4096, b, 0);
  }

  lemma NoTablesYet(m: seq<uint32>, s: uint32, d: nat, flags: uint8)
    requires 4096 * (d + 1) <= |m| && s + |m| <= 0x1_0000_0000
    ensures FirstTables(m, s, d, [], flags)
  {
  }

  lemma NoneAdded(live: map<nat, nat>)
    ensures OnlyOnesAdded(live, live, {})
  {
  }

  /** The directory and its 1024 tables: 1025 fresh blocks. */
  method NewDirectory(k: Kernel, flags: uint8)
    returns (directory: uint32, ghost d: nat, ghost tables: seq<nat>, ghost blocks: set<nat>)
    requires k.Valid() && k.State().FreeCount() >= 1025
    modifies k.heap.entries, k.heap`live, k.cells
    ensures k.Valid() && k.State().FreeCount() == old(k.State().FreeCount()) - 1025
    ensures OnlyOnesAdded(old(k.heap.live), k.heap.live, blocks)
    ensures SameOutsideBlocks(old(k.cells[..]), k.cells[..], blocks)
    ensures directory == BlockToAddress(k.heap.saddr, d) && d in blocks && d < k.heap.total
    ensures |tables| == 1024 && forall b | b in tables :: b in blocks
    ensures FirstTables(k.cells[..], k.heap.saddr, d, tables, flags)
  {
    hide Describes;
    hide TableFilled;
    hide FirstTables;
    hide SameOutsideBlocks;
    hide SameOutsideBlock;
    hide OnlyOnesAdded;
    hide HeapState.FreeCount;
    hide HeapTable.FreeList;
    ghost var l0, m0, s := k.heap.live, k.cells[..], k.heap.saddr;
    directory, d := k.KzallocOne(4096);
    var offset: int32 := 0;
    tables, blocks := [], {} + {d};
    NoneAdded(l0);
    AddOne(l0, l0, {}, d);
    OneBlockChanged(m0, k.cells[..], d);
    assert {} + {d} == {d};
    NoTablesYet(k.cells[..], s, d, flags);
    for i := 0 to 1024
      invariant k.Valid() && k.State().FreeCount() == old(k.State().FreeCount()) - 1 - i
      invariant OnlyOnesAdded(l0, k.heap.live, blocks) && d in blocks && blocks <= k.heap.live.Keys
      invariant SameOutsideBlocks(m0, k.cells[..], blocks)
      invariant |tables| == i && offset == Offset(i)
      invariant forall b | b in tables :: b in blocks
      invariant FirstTables(k.cells[..], s, d, tables, flags)
    {
      ghost var l1, m1 := k.heap.live, k.cells[..];
      ghost var t := AddTable(k, directory, i, offset, flags, d, tables);
      offset := AdvanceOffset(i, offset);
      tables := tables + [t];
      AddOne(l0, l1, blocks, t);
      ChangedInOneMore(m0, m1, k.cells[..], blocks, d, t);
      blocks := blocks + {t};
    }
  }

  /**
   Builds a 4 GiB address space out of 1026 fresh heap blocks: every one of the
   2^20 pages maps to the frame with its own number and the given flags, the
   chunk holds the directory's address, all directory entries have the flags and are
   writeable, and memory in all other blocks is as it was.
   The chunk, the directory and all the tables are among the fresh blocks.
   */
  method New4Gb(k: Kernel, flags: uint8) returns (chunk: uint32, ghost blocks: set<nat>)
    requires k.Valid() && k.State().FreeCount() >= 1026
    modifies k.heap.entries, k.heap`live, k.cells
    ensures k.Valid() && k.State().FreeCount() == old(k.State().FreeCount()) - 1026
    ensures OnlyOnesAdded(old(k.heap.live), k.heap.live, blocks)
    ensures SameOutsideBlocks(old(k.cells[..]), k.cells[..], blocks)
    ensures k.Inside(chunk) && AddressSpace(k.cells[..], k.heap.saddr, k.Load(chunk))
    ensures forall page | 0 <= page < PAGES ::
      Translate(k.cells[..], k.heap.saddr, k.Load(chunk), page) == IdentityEntry(page, flags)
    ensures DirectoryHasFlags(k.cells[..], k.heap.saddr, k.Load(chunk), flags)
    ensures BuiltFrom(k.cells[..], k.heap.saddr, k.Load(chunk), blocks) && BlockOf(k.heap.saddr, chunk) in blocks
  {
    hide DirectoryHasFlags;
    hide BuiltFrom;
    hide BlockOf;
    hide Describes;
    hide FirstTables;
    hide SameOutsideBlocks;
    hide Translate;
    hide AddressSpace;
    ghost var l0, m0, s := k.heap.live, k.cells[..], k.heap.saddr;
    var directory;
    ghost var d, tables, c;
    directory, d, tables, blocks := NewDirectory(k, flags);
    ghost var l1, m1 := k.heap.live, k.cells[..];
    chunk, c := k.KzallocOne(4);
    k.Store(chunk, directory);
    AddOne(l0, l1, blocks, c);
    ChangedInOneMore(m0, m1, k.cells[..], blocks, d, c);
    KeepsTables(m1, k.cells[..], s, d, tables, c, flags);
    blocks := blocks + {c};
    TablesMapIdentity(k.cells[..], s, d, tables, flags);
    TablesHaveFlags(k.cells[..], s, d, tables, flags);
    TablesBuiltFrom(k.cells[..], s, d, tables, flags, blocks);
    BlockOfBlock(s, c);
  }
}
