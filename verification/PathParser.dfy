/**
 The parser of src/fs/pparser.c on the kernel heap: it links heap-allocated nodes and
 name buffers into a list. PathFree.dfy is about releasing it.
 */
module PathParser {
  import opened CTypes
  import opened Options
  import opened HeapTable
  import opened HeapModel
  import opened KernelHeap
  import opened PathSyntax

  function Elements(s: seq<nat>): set<nat> {
    set b | b in s
  }

  /** The heap blocks of a path list: the root's, and a name buffer and a node for each name. */
  datatype Blocks = Blocks(root: nat, buffers: seq<nat>, nodes: seq<nat>) {

    function All(): set<nat> {
      {root} + Elements(buffers) + Elements(nodes)
    }

    ghost predicate Distinct() {
      && |buffers| == |nodes| && root !in buffers && root !in nodes
      && (forall i, j | 0 <= i < |buffers| && 0 <= j < |nodes| :: buffers[i] != nodes[j])
      && (forall i, j | 0 <= i < j < |buffers| :: buffers[i] != buffers[j])
      && (forall i, j | 0 <= i < j < |nodes| :: nodes[i] != nodes[j])
    }

    function With(buffer: nat, node: nat): Blocks {
      Blocks(root, buffers + [buffer], nodes + [node])
    }
  }

  /** A list of n names takes 1 + 2n blocks. */
  lemma CountBlocks(bs: Blocks)
    requires bs.Distinct()
    ensures |bs.All()| == 1 + 2 * |bs.nodes|
  {
    CountDistinct(bs.buffers);
    CountDistinct(bs.nodes);
    assert Elements(bs.buffers) !! Elements(bs.nodes) && bs.root !in Elements(bs.buffers) + Elements(bs.nodes);
    assert bs.All() == {bs.root} + (Elements(bs.buffers) + Elements(bs.nodes));
  }

  lemma {:induction false} CountDistinct(s: seq<nat>)
    requires forall i, j | 0 <= i < j < |s| :: s[i] != s[j]
    ensures |Elements(s)| == |s|
  {
    if s != [] {
      var init, last := s[..|s| - 1], s[|s| - 1];
      CountDistinct(init);
      assert last !in init;
      assert Elements(s) == Elements(init) + {last};
    }
  }

  ghost predicate InMemory(m: seq<uint32>, b: nat) {
    4096 * (b + 1) <= |m|
  }

  /** The name and its terminating NUL stand at the front of block b, inside the 108 bytes asked for. */
  ghost predicate NameStored(m: seq<uint32>, b: nat, name: string) {
    && InMemory(m, b) && |name| < MAX_PATH
    && (forall j | 0 <= j < |name| :: m[4096 * b + j] == name[j] as int)
    && m[4096 * b + |name|] == 0
  }

  /** A node holds the address of its name buffer, and the buffer the name. */
  ghost predicate NodeAt(m: seq<uint32>, s: uint32, buffer: nat, node: nat, name: string) {
    InMemory(m, node) && m[4096 * node] == BlockToAddress(s, buffer) && NameStored(m, buffer, name)
  }

  ghost predicate NodeStored(m: seq<uint32>, s: uint32, bs: Blocks, i: nat, name: string)
    requires i < |bs.nodes| && i < |bs.buffers|
  {
    NodeAt(m, s, bs.buffers[i], bs.nodes[i], name)
  }

  /** The `next` field of the node in a block. */
  ghost predicate LeadsTo(m: seq<uint32>, node: nat, addr: int) {
    InMemory(m, node) && m[4096 * node + 4] == addr
  }

  ghost predicate LeadsOn(m: seq<uint32>, s: uint32, bs: Blocks, i: nat)
    requires i + 1 < |bs.nodes|
  {
    LeadsTo(m, bs.nodes[i], BlockToAddress(s, bs.nodes[i + 1]))
  }

  /** All nodes hold their names, and each but the last leads to the next. */
  ghost predicate Linked(m: seq<uint32>, s: uint32, bs: Blocks, names: seq<string>) {
    && bs.Distinct() && |bs.nodes| == |names|
    && (forall i | 0 <= i < |names| :: NodeStored(m, s, bs, i, names[i]))
    && (forall i | 0 <= i < |names| - 1 :: LeadsOn(m, s, bs, i))
  }

  /** The root holds the drive, and leads to the first node or to none. */
  ghost predicate RootStored(m: seq<uint32>, s: uint32, bs: Blocks, drive: int) {
    && InMemory(m, bs.root) && m[4096 * bs.root] == drive
    && LeadsTo(m, bs.root, if bs.nodes == [] then 0 else BlockToAddress(s, bs.nodes[0]))
  }

  /** The last node leads nowhere, as every walk over the list relies on. */
  ghost predicate Terminated(m: seq<uint32>, bs: Blocks) {
    bs.nodes != [] ==> LeadsTo(m, bs.nodes[|bs.nodes| - 1], 0)
  }

  lemma BlockKept(m: seq<uint32>, m': seq<uint32>, b: nat, changed: set<nat>)
    requires SameOutsideBlocks(m, m', changed) && b !in changed && InMemory(m, b)
    ensures SameInBlock(m, m', b)
  {
    forall c | 4096 * b <= c < 4096 * (b + 1) ensures m'[c] == m[c] {
      DivUnique(c, 4096, b, c - 4096 * b);
    }
  }

  lemma LinkedKept(m: seq<uint32>, m': seq<uint32>, s: uint32, bs: Blocks, names: seq<string>, changed: set<nat>)
    requires Linked(m, s, bs, names) && SameOutsideBlocks(m, m', changed) && bs.All() !! changed
    ensures Linked(m', s, bs, names)
  {
    forall i | 0 <= i < |names|
      ensures SameInBlock(m, m', bs.nodes[i]) && SameInBlock(m, m', bs.buffers[i])
    {
      assert bs.nodes[i] in bs.All() && bs.buffers[i] in bs.All();
      assert NodeStored(m, s, bs, i, names[i]);
      BlockKept(m, m', bs.nodes[i], changed);
      BlockKept(m, m', bs.buffers[i], changed);
    }
    forall i | 0 <= i < |names| ensures NodeStored(m', s, bs, i, names[i]) {
      assert NodeStored(m, s, bs, i, names[i]);
    }
    forall i | 0 <= i < |names| - 1 ensures LeadsOn(m', s, bs, i) {
      assert LeadsOn(m, s, bs, i);
    }
  }

  /** Pointing the last node somewhere leaves the list as it is. */
  lemma LastNextFree(m: seq<uint32>, s: uint32, bs: Blocks, names: seq<string>, val: uint32)
    requires Linked(m, s, bs, names) && names != []
    ensures var last := bs.nodes[|names| - 1];
      InMemory(m, last) && Linked(m[4096 * last + 4 := val], s, bs, names)
  {
    var last := bs.nodes[|names| - 1];
    assert NodeStored(m, s, bs, |names| - 1, names[|names| - 1]);
    var m' := m[4096 * last + 4 := val];
    forall i | 0 <= i < |names| ensures NodeStored(m', s, bs, i, names[i]) {
      assert NodeStored(m, s, bs, i, names[i]);
      assert bs.buffers[i] < last || last < bs.buffers[i];
    }
    forall i | 0 <= i < |names| - 1 ensures LeadsOn(m', s, bs, i) {
      assert LeadsOn(m, s, bs, i);
      assert bs.nodes[i] < last || last < bs.nodes[i];
    }
  }

  lemma DistinctExtends(bs: Blocks, buffer: nat, node: nat)
    requires bs.Distinct() && buffer != node && buffer !in bs.All() && node !in bs.All()
    ensures bs.With(buffer, node).Distinct()
    ensures bs.With(buffer, node).All() == bs.All() + {buffer, node}
  {
    assert forall b | b in bs.buffers || b in bs.nodes || b == bs.root :: b in bs.All();
    assert forall i | 0 <= i < |bs.buffers| :: bs.buffers[i] in bs.buffers;
    assert forall i | 0 <= i < |bs.nodes| :: bs.nodes[i] in bs.nodes;
  }

  /** A list with one more node, once the old last node leads to it. */
  lemma LinkedExtends(m: seq<uint32>, s: uint32, bs: Blocks, names: seq<string>, buffer: nat, node: nat, name: string)
    requires Linked(m, s, bs, names) && buffer != node && buffer !in bs.All() && node !in bs.All()
    requires NodeStored(m, s, bs.With(buffer, node), |names|, name)
    requires names != [] ==> LeadsTo(m, bs.nodes[|names| - 1], BlockToAddress(s, node))
    ensures Linked(m, s, bs.With(buffer, node), names + [name])
  {
    var bs', names' := bs.With(buffer, node), names + [name];
    DistinctExtends(bs, buffer, node);
    forall i | 0 <= i < |names'| ensures NodeStored(m, s, bs', i, names'[i]) {
      if i < |names| {
        assert NodeStored(m, s, bs, i, names[i]);
      }
    }
    forall i | 0 <= i < |names'| - 1 ensures LeadsOn(m, s, bs', i) {
      if i < |names| - 1 {
        assert LeadsOn(m, s, bs, i);
      }
    }
  }

  lemma NameKept(m: seq<uint32>, m': seq<uint32>, b: nat, name: string)
    requires NameStored(m, b, name) && SameInBlock(m, m', b)
    ensures NameStored(m', b, name)
  {
  }

  lemma TwoBlocksAdded(live: map<nat, nat>, a: nat, b: nat)
    requires a !in live && b !in live[a := 1]
    ensures OnlyOnesAdded(live, live[a := 1][b := 1], {a, b})
  {
  }

  lemma TwoBlocksChanged(m: seq<uint32>, m1: seq<uint32>, m2: seq<uint32>, a: nat, b: nat)
    requires SameOutsideBlock(m, m1, a) && SameOutsideBlock(m1, m2, b) && a != b && InMemory(m, b)
    ensures SameOutsideBlocks(m, m2, {a, b})
  {
    forall c | 0 <= c < |m| && c / 4096 !in {a, b} ensures m2[c] == m[c] {
      assert c / 4096 != a && c / 4096 != b;
    }
  }

  // ----- What parsing writes

  function Put(m: seq<uint32>, c: nat, val: int): (m': seq<uint32>)
    ensures |m'| == |m|
  {
    if c < |m| then m[c := ToUint32(val)] else m
  }

  lemma PutInside(m: seq<uint32>, c: nat, val: uint32)
    requires c < |m|
    ensures Put(m, c, val) == m[c := val]
  {
  }

  /** Memory with block b as a buffer for the name: the bytes asked for are zero but for the name's. */
  function WithName(m: seq<uint32>, b: nat, name: string): (m': seq<uint32>)
    ensures |m'| == |m|
  {
    seq(|m|, c requires 0 <= c < |m| =>
      if 4096 * b <= c < 4096 * b + |name| then name[c - 4096 * b] as int
      else if 4096 * b <= c < 4096 * b + MAX_PATH then 0
      else m[c])
  }

  /** A new node for the name, which leads to where its block's memory did. */
  function NodeMade(m: seq<uint32>, s: uint32, buffer: nat, node: nat, name: string): (m': seq<uint32>)
    ensures |m'| == |m|
  {
    Put(WithName(m, buffer, name), 4096 * node, BlockToAddress(s, buffer))
  }

  lemma NameIsStored(m: seq<uint32>, b: nat, name: string)
    requires InMemory(m, b) && |name| < MAX_PATH
    ensures NameStored(WithName(m, b, name), b, name) && SameOutsideBlock(m, WithName(m, b, name), b)
  {
  }

  lemma NodeIsMade(m: seq<uint32>, s: uint32, buffer: nat, node: nat, name: string)
    requires InMemory(m, buffer) && InMemory(m, node) && buffer != node && |name| < MAX_PATH
    requires BlockToAddress(s, buffer) < 0x1_0000_0000
    ensures var m' := NodeMade(m, s, buffer, node, name);
      && NodeAt(m', s, buffer, node, name) && LeadsTo(m', node, m[4096 * node + 4])
      && SameOutsideBlocks(m, m', {buffer, node})
  {
    hide NameStored;
    var m1, m2 := WithName(m, buffer, name), NodeMade(m, s, buffer, node, name);
    NameIsStored(m, buffer, name);
    OtherBlockSame(m, m1, buffer, node);
    OtherBlockSame(m1, m2, node, buffer);
    NameKept(m1, m2, buffer, name);
    TwoBlocksChanged(m, m1, m2, buffer, node);
  }

  /** The block whose `next` or `first` field a further node is linked from. */
  function LinkFrom(bs: Blocks): nat {
    if bs.nodes == [] then bs.root else bs.nodes[|bs.nodes| - 1]
  }

  /** Memory m0 after a list of the names has been built in the blocks bs. */
  function ListMemory(m0: seq<uint32>, s: uint32, bs: Blocks, drive: int, names: seq<string>): (m: seq<uint32>)
    requires |bs.buffers| == |bs.nodes| == |names|
    ensures |m| == |m0|
    decreases |names|
  {
    if names == [] then Put(Put(m0, 4096 * bs.root, drive), 4096 * bs.root + 4, 0)
    else
      var n := |names| - 1;
      var before := Blocks(bs.root, bs.buffers[..n], bs.nodes[..n]);
      var m := NodeMade(ListMemory(m0, s, before, drive, names[..n]), s, bs.buffers[n], bs.nodes[n], names[n]);
      Put(m, 4096 * LinkFrom(before) + 4, BlockToAddress(s, bs.nodes[n]))
  }

  lemma ListMemoryGrows(m0: seq<uint32>, s: uint32, bs: Blocks, drive: int, names: seq<string>, buffer: nat, node: nat,
                        name: string)
    requires |bs.buffers| == |bs.nodes| == |names|
    ensures ListMemory(m0, s, bs.With(buffer, node), drive, names + [name]) ==
      Put(NodeMade(ListMemory(m0, s, bs, drive, names), s, buffer, node, name), 4096 * LinkFrom(bs) + 4,
          BlockToAddress(s, node))
  {
    var n, more := |names|, bs.With(buffer, node);
    assert more.buffers[..n] == bs.buffers && more.nodes[..n] == bs.nodes && (names + [name])[..n] == names;
    assert Blocks(more.root, more.buffers[..n], more.nodes[..n]) == bs;
  }

  // ----- Parsing

  /** The copy loop: up to the next slash or the end, into a zeroed buffer. */
  method CopyName(k: Kernel, addr: uint32, path: string, i: nat, ghost b: nat) returns (next: nat)
    requires k.Valid() && b < k.heap.total && addr == BlockToAddress(k.heap.saddr, b)
    requires i <= |path| < i + MAX_PATH
    requires forall c | 4096 * b <= c < 4096 * b + MAX_PATH :: k.cells[c] == 0
    modifies k.cells
    ensures k.Valid() && k.State() == old(k.State())
    ensures next == i + NameLength(path[i..])
    ensures k.cells[..] == WithName(old(k.cells[..]), b, path[i..][..NameLength(path[i..])])
  {
    hide Describes;
    ghost var m, rest, n := k.cells[..], path[i..], NameLength(path[i..]);
    NoEarlierSlash(rest);
    next := i;
    while next < |path| && path[next] != '/'
      invariant i <= next <= i + n && i + n <= |path|
      invariant k.Valid() && k.State() == old(k.State())
      invariant forall c | 0 <= c < |m| ::
        k.cells[c] == if 4096 * b <= c < 4096 * b + (next - i) then rest[c - 4096 * b] as int else m[c]
    {
      assert next < i + n;
      k.Store(addr + (next - i), path[next] as int);
      next := next + 1;
    }
    assert next < |path| ==> path[next] == rest[next - i];
  }

  /** Copies the next name of `path`, from i on, into a fresh zeroed buffer; 0 when there is none. */
  method GetPathPart(k: Kernel, path: string, i: nat) returns (addr: uint32, next: nat, ghost b: nat)
    requires k.Valid() && i <= |path| < i + MAX_PATH
    requires NextPart(path[i..]).Some? ==> k.State().FreeCount() > 0
    modifies k.heap.entries, k.heap`live, k.cells
    ensures k.Valid()
    ensures NextPart(path[i..]) == None ==>
      addr == 0 && next == i && k.State() == old(k.State()) && k.cells[..] == old(k.cells[..])
    ensures NextPart(path[i..]).Some? ==>
      var (name, after) := NextPart(path[i..]).value;
      && addr != 0 && i < next <= |path| && path[next..] == after
      && b < k.heap.total && b !in old(k.heap.live) && k.heap.live == old(k.heap.live)[b := 1]
      && addr == BlockToAddress(k.heap.saddr, b) && k.cells[..] == WithName(old(k.cells[..]), b, name)
      && |old(k.State().FreeList())| > 0 && b == old(k.State().FreeList())[0]
      && k.State().FreeList() == old(k.State().FreeList())[1..]
  {
    hide Describes;
    ghost var m := k.cells[..];
    addr, next, b := 0, i, 0;
    if i == |path| || path[i] == '/' {
      return;
    }
    addr, b := k.KzallocOne(108);
    ghost var m1 := k.cells[..];
    next := CopyName(k, addr, path, i, b);
    ZeroedFirst(m, m1, b, NextPart(path[i..]).value.0);
    if next < |path| && path[next] == '/' {
      next := next + 1;
    }
  }

  lemma ZeroedFirst(m: seq<uint32>, m1: seq<uint32>, b: nat, name: string)
    requires |m| == |m1| && |name| < MAX_PATH
    requires forall c | 0 <= c < |m| :: m1[c] == if 4096 * b <= c < 4096 * b + MAX_PATH then 0 else m[c]
    ensures WithName(m1, b, name) == WithName(m, b, name)
  {
  }

  /** A fresh node for the next name, pointing at its buffer; its `next` field keeps what memory held. */
  method NewNode(k: Kernel, path: string, i: nat) returns (node: uint32, next: nat, ghost buffer: nat, ghost nb: nat)
    requires k.Valid() && i <= |path| < i + MAX_PATH
    requires NextPart(path[i..]).Some? ==> k.State().FreeCount() >= 2
    modifies k.heap.entries, k.heap`live, k.cells
    ensures k.Valid()
    ensures NextPart(path[i..]) == None ==>
      node == 0 && next == i && k.State() == old(k.State()) && k.cells[..] == old(k.cells[..])
    ensures NextPart(path[i..]).Some? ==>
      var (name, after) := NextPart(path[i..]).value;
      && node != 0 && i < next <= |path| && path[next..] == after
      && OnlyOnesAdded(old(k.heap.live), k.heap.live, {buffer, nb}) && buffer != nb
      && node == BlockToAddress(k.heap.saddr, nb)
      && buffer < k.heap.total && nb < k.heap.total && |name| < MAX_PATH
      && k.cells[..] == NodeMade(old(k.cells[..]), k.heap.saddr, buffer, nb, name)
      && |old(k.State().FreeList())| >= 2
      && buffer == old(k.State().FreeList())[0] && nb == old(k.State().FreeList())[1]
      && k.State().FreeList() == old(k.State().FreeList())[2..]
  {
    hide Describes;
    hide WithName;
    hide Put;
    ghost var l0 := k.heap.live;
    var name;
    name, next, buffer := GetPathPart(k, path, i);
    node, nb := 0, 0;
    if name == 0 {
      return;
    }
    node, nb := k.KmallocOne(8);
    PutInside(k.cells[..], 4096 * nb, name);
    k.Store(node, name);
    TwoBlocksAdded(l0, buffer, nb);
  }

  /** What a parse in progress has made of memory m0: a list in blocks bs and nothing else. */
  ghost predicate Building(m0: seq<uint32>, m: seq<uint32>, s: uint32, bs: Blocks, drive: int, names: seq<string>) {
    && SameOutsideBlocks(m0, m, bs.All())
    && Linked(m, s, bs, names) && RootStored(m, s, bs, drive)
    && (names != [] ==> LastNextIs(m, bs, m0))
  }

  /** The last node's `next` field holds what memory held there before. */
  ghost predicate LastNextIs(m: seq<uint32>, bs: Blocks, m0: seq<uint32>) {
    && bs.nodes != [] && InMemory(m0, bs.nodes[|bs.nodes| - 1])
    && LeadsTo(m, bs.nodes[|bs.nodes| - 1], m0[4096 * bs.nodes[|bs.nodes| - 1] + 4])
  }

  lemma RootApart(m: seq<uint32>, s: uint32, bs: Blocks, names: seq<string>)
    requires Linked(m, s, bs, names)
    ensures |bs.nodes| == |bs.buffers| == |names| && bs.Distinct() && bs.root in bs.All()
    ensures names != [] ==> bs.nodes[|names| - 1] in bs.All() && bs.nodes[|names| - 1] != bs.root
  {
    if names != [] {
      assert bs.nodes[|names| - 1] in bs.nodes;
    }
  }

  lemma NodeAtKept(m: seq<uint32>, m': seq<uint32>, s: uint32, buffer: nat, node: nat, name: string, changed: nat)
    requires NodeAt(m, s, buffer, node, name)
    requires SameOutsideBlock(m, m', changed) && changed != node && changed != buffer
    ensures NodeAt(m', s, buffer, node, name) && SameInBlock(m, m', node)
  {
    OtherBlockSame(m, m', changed, node);
    OtherBlockSame(m, m', changed, buffer);
  }

  lemma NodeStoredLast(m: seq<uint32>, s: uint32, bs: Blocks, buffer: nat, node: nat, name: string)
    requires NodeAt(m, s, buffer, node, name) && |bs.nodes| == |bs.buffers|
    ensures NodeStored(m, s, bs.With(buffer, node), |bs.nodes|, name)
  {
  }

  /** The list grows by one: new blocks filled in, then the last node (or the root) made to lead to them. */
  lemma ListGrows(m: seq<uint32>, m': seq<uint32>, s: uint32, bs: Blocks, names: seq<string>,
                  buffer: nat, node: nat, name: string)
    requires Linked(m, s, bs, names) && buffer != node && buffer !in bs.All() && node !in bs.All()
    requires SameOutsideBlocks(m, m', {buffer, node}) && NodeAt(m', s, buffer, node, name)
    requires InMemory(m, bs.root) && BlockToAddress(s, node) < 0x1_0000_0000
    ensures var from := if names == [] then bs.root else bs.nodes[|names| - 1];
      && InMemory(m', from)
      && var m2 := m'[4096 * from + 4 := BlockToAddress(s, node)];
         && Linked(m2, s, bs.With(buffer, node), names + [name])
         && SameOutsideBlocks(m, m2, bs.With(buffer, node).All())
         && SameInBlock(m', m2, node)
         && (names != [] ==> SameInBlock(m, m2, bs.root))
         && (names == [] ==> m2[4096 * bs.root] == m[4096 * bs.root])
  {
    hide NodeAt;
    hide Linked;
    RootApart(m, s, bs, names);
    var from := if names == [] then bs.root else bs.nodes[|names| - 1];
    var all := bs.All();
    LinkedKept(m, m', s, bs, names, {buffer, node});
    if names != [] {
      LastNextFree(m', s, bs, names, BlockToAddress(s, node));
    }
    BlockKept(m, m', bs.root, {buffer, node});
    var m2 := m'[4096 * from + 4 := BlockToAddress(s, node)];
    assert SameOutsideBlock(m', m2, from);
    NodeAtKept(m', m2, s, buffer, node, name, from);
    DistinctExtends(bs, buffer, node);
    NodeStoredLast(m2, s, bs, buffer, node, name);
    LinkedExtends(m2, s, bs, names, buffer, node, name);
    forall c | 0 <= c < |m| && c / 4096 !in all + {buffer, node} ensures m2[c] == m[c] {
      assert c / 4096 != from && c / 4096 !in {buffer, node};
    }
    if names != [] {
      OtherBlockSame(m', m2, from, bs.root);
    }
  }

  lemma SameLength(m: seq<uint32>, s: uint32, bs: Blocks, names: seq<string>)
    requires Linked(m, s, bs, names)
    ensures |bs.nodes| == |names| && bs.Distinct()
  {
  }

  lemma BuildingGrows(m0: seq<uint32>, m: seq<uint32>, m': seq<uint32>, s: uint32, bs: Blocks, drive: int,
                      names: seq<string>, buffer: nat, node: nat, name: string)
    requires Building(m0, m, s, bs, drive, names)
    requires buffer != node && buffer !in bs.All() && node !in bs.All()
    requires SameOutsideBlocks(m, m', {buffer, node}) && NodeAt(m', s, buffer, node, name)
    requires LeadsTo(m', node, m[4096 * node + 4]) && BlockToAddress(s, node) < 0x1_0000_0000
    ensures var from := if names == [] then bs.root else bs.nodes[|names| - 1];
      && InMemory(m', from)
      && Building(m0, m'[4096 * from + 4 := BlockToAddress(s, node)], s, bs.With(buffer, node), drive, names + [name])
  {
    hide Linked;
    hide NodeAt;
    ListGrows(m, m', s, bs, names, buffer, node, name);
    BlockKept(m0, m, node, bs.All());
    SameLength(m, s, bs, names);
  }

  /** Names already taken, in front of what the rest of the text gives. */
  function Prepend(done: seq<string>, rest: Option<seq<string>>): Option<seq<string>> {
    match rest
    case None => None
    case Some(names) => Some(done + names)
  }

  lemma OneMoreName(done: seq<string>, rest: string)
    requires NextPart(rest).Some?
    ensures var (name, after) := NextPart(rest).value;
      Prepend(done, Names(rest)) == Prepend(done + [name], Names(after))
  {
    var (name, after) := NextPart(rest).value;
    if Names(after).Some? {
      assert done + ([name] + Names(after).value) == done + [name] + Names(after).value;
    }
  }

  lemma MoreAdded(live: map<nat, nat>, l1: map<nat, nat>, l2: map<nat, nat>, bs: set<nat>, more: set<nat>)
    requires OnlyOnesAdded(live, l1, bs) && OnlyOnesAdded(l1, l2, more)
    ensures OnlyOnesAdded(live, l2, bs + more) && bs !! more
  {
    forall b | b in bs ensures b !in more {
      assert b in l1;
    }
  }

  /** The list takes the first free blocks in turn: one for the root, then a buffer and a node for each name. */
  ghost predicate Placed(free: seq<nat>, bs: Blocks) {
    && |bs.buffers| == |bs.nodes| && 1 + 2 * |bs.nodes| <= |free| && bs.root == free[0]
    && forall i | 0 <= i < |bs.nodes| :: bs.buffers[i] == free[1 + 2 * i] && bs.nodes[i] == free[2 + 2 * i]
  }

  lemma PlacedGrows(free: seq<nat>, bs: Blocks, buffer: nat, node: nat)
    requires Placed(free, bs)
    requires var left := free[1 + 2 * |bs.nodes|..]; |left| >= 2 && buffer == left[0] && node == left[1]
    ensures Placed(free, bs.With(buffer, node))
    ensures free[1 + 2 * |bs.nodes|..][2..] == free[3 + 2 * |bs.nodes|..]
  {
  }

  /** A parse in progress: the list so far, in blocks bs, is all that has been allocated and written. */
  ghost predicate Parsing(k: Kernel, l0: map<nat, nat>, m0: seq<uint32>, free: seq<nat>, bs: Blocks, drive: int,
                          names: seq<string>)
    reads k, k.heap, k.heap.entries, k.cells
  {
    && k.Valid() && OnlyOnesAdded(l0, k.heap.live, bs.All())
    && Building(m0, k.cells[..], k.heap.saddr, bs, drive, names)
    && |bs.nodes| == |bs.buffers| == |names| && Placed(free, bs) && k.State().FreeList() == free[1 + 2 * |names|..]
    && k.cells[..] == ListMemory(m0, k.heap.saddr, bs, drive, names)
  }

  /** The node a further name is appended to: the last one, or none yet. */
  ghost predicate IsLastNode(s: uint32, bs: Blocks, part: uint32) {
    part == if bs.nodes == [] then 0 else BlockToAddress(s, bs.nodes[|bs.nodes| - 1])
  }

  /**
   pparser_parse_path_part and the link to the node it makes: from the parent node,
   or for the first name, which has no parent, from the root.
   */
  method ParsePathPart(k: Kernel, root: uint32, parent: uint32, path: string, i: nat, ghost l0: map<nat, nat>,
                       ghost m0: seq<uint32>, ghost free: seq<nat>, ghost bs: Blocks, ghost drive: int,
                       ghost names: seq<string>)
    returns (node: uint32, next: nat, ghost bs': Blocks)
    requires Parsing(k, l0, m0, free, bs, drive, names) && i <= |path| < i + MAX_PATH
    requires root == BlockToAddress(k.heap.saddr, bs.root) && IsLastNode(k.heap.saddr, bs, parent)
    requires k.State().FreeCount() >= 2 * Turns(path[i..])
    modifies k.heap.entries, k.heap`live, k.cells
    ensures NextPart(path[i..]) == None ==>
      node == 0 && next == i && bs' == bs && Parsing(k, l0, m0, free, bs, drive, names)
    ensures NextPart(path[i..]).Some? ==>
      var (name, after) := NextPart(path[i..]).value;
      && i < next <= |path| && path[next..] == after
      && node != 0 && bs'.nodes != [] && IsLastNode(k.heap.saddr, bs', node) && bs'.root == bs.root
      && Parsing(k, l0, m0, free, bs', drive, names + [name])
  {
    hide Describes;
    hide Building;
    hide NodeAt;
    hide LeadsTo;
    hide OnlyOnesAdded;
    hide SameOutsideBlocks;
    hide Blocks.All;
    hide HeapState.FreeCount;
    hide HeapState.FreeList;
    hide Placed;
    hide Put;
    hide NodeMade;
    hide ListMemory;
    hide NextPart;
    hide Turns;
    ghost var l1, m1, s, rest := k.heap.live, k.cells[..], k.heap.saddr, path[i..];
    ghost var buffer, nb;
    LastNodeInside(m0, m1, s, bs, drive, names);
    if NextPart(rest).Some? {
      TakeName(names, rest);
    }
    node, next, buffer, nb := NewNode(k, path, i);
    bs' := bs;
    if node == 0 {
      return;
    }
    MoreAdded(l0, l1, k.heap.live, bs.All(), {buffer, nb});
    AddressFits(k.State(), buffer);
    NodeIsMade(m1, s, buffer, nb, NextPart(rest).value.0);
    ListMemoryGrows(m0, s, bs, drive, names, buffer, nb, NextPart(rest).value.0);
    BuildingGrows(m0, m1, k.cells[..], s, bs, drive, names, buffer, nb, NextPart(rest).value.0);
    DistinctAll(bs, buffer, nb);
    PlacedGrows(free, bs, buffer, nb);
    PutInside(k.cells[..], 4096 * LinkFrom(bs) + 4, node);
    if parent == 0 {
      k.Store(root + 4, node);
    } else {
      k.Store(parent + 4, node);
    }
    bs' := bs.With(buffer, nb);
  }

  lemma AddressFits(h: HeapState, b: nat)
    requires h.Shaped() && b < h.total
    ensures BlockToAddress(h.saddr, b) < 0x1_0000_0000
  {
  }

  lemma DistinctAll(bs: Blocks, buffer: nat, node: nat)
    ensures bs.With(buffer, node).All() == bs.All() + {buffer, node}
  {
  }

  lemma LastNodeInside(m0: seq<uint32>, m: seq<uint32>, s: uint32, bs: Blocks, drive: int, names: seq<string>)
    requires Building(m0, m, s, bs, drive, names)
    ensures InMemory(m, bs.root)
    ensures bs.nodes != [] ==> InMemory(m, bs.nodes[|bs.nodes| - 1])
  {
  }

  /**
   pparser_parse. A refused path touches nothing; an accepted one becomes the list of
   its names, in 1 + 2k fresh blocks for k names; and where the loop would never end
   the method says so. The last node's `next` field is whatever memory held there, so the
   list ends exactly when the one cell that EndsAfter names held 0 before the call.
   */
  method Parse(k: Kernel, path: string) returns (root: uint32, hangs: bool, ghost bs: Blocks)
    requires k.Valid() && '\0' !in path
    requires PathSyntax.Parse(path) != Rejected ==> k.State().FreeCount() >= 1 + 2 * Turns(path[3..])
    modifies k.heap.entries, k.heap`live, k.cells
    ensures hangs <==> PathSyntax.Parse(path) == Hangs
    ensures PathSyntax.Parse(path) == Rejected ==>
      root == 0 && k.State() == old(k.State()) && k.cells[..] == old(k.cells[..])
    ensures PathSyntax.Parse(path).Path? ==>
      && root == BlockToAddress(k.heap.saddr, bs.root)
      && Parsing(k, old(k.heap.live), old(k.cells[..]), old(k.State().FreeList()), bs,
                 PathSyntax.Parse(path).drive, PathSyntax.Parse(path).names)
      && (Terminated(k.cells[..], bs) <==>
          EndsAfter(old(k.cells[..]), old(k.State().FreeList()), |PathSyntax.Parse(path).names|))
  {
    hide Describes;
    hide Parsing;
    hide Terminated;
    hide EndsAfter;
    hide Names;
    hide Turns;
    hide NextPart;
    hide DigitValue;
    root, hangs, bs := 0, false, Blocks(0, [], []);
    if |path| > MAX_PATH || !ValidFormat(path) {
      return;
    }
    DigitRoundTrip(path[0], 0);
    var drive := DigitValue(path[0]);
    ghost var l0, m0, free, names := k.heap.live, k.cells[..], k.State().FreeList(), [];
    root, bs := CreateRoot(k, drive);
    FreeCountOf(k, l0, m0, free, bs, drive, names);
    var part, next;
    part, next, bs := ParsePathPart(k, root, 0, path, 3, l0, m0, free, bs, drive, names);
    if part == 0 {
      TerminatedIff(k, l0, m0, free, bs, drive, names);
      return;
    }
    TakeName(names, path[3..]);
    names := names + [NextPart(path[3..]).value.0];
    while next < |path|
      invariant 3 < next <= |path| && bs.nodes != []
      invariant Parsing(k, l0, m0, free, bs, drive, names)
      invariant root == BlockToAddress(k.heap.saddr, bs.root) && IsLastNode(k.heap.saddr, bs, part)
      invariant Names(path[3..]) == Prepend(names, Names(path[next..]))
      invariant |free| >= 1 + 2 * |names| + 2 * Turns(path[next..])
      decreases |path| - next
    {
      ghost var rest := path[next..];
      FreeCountOf(k, l0, m0, free, bs, drive, names);
      part, next, bs := ParsePathPart(k, root, part, path, next, l0, m0, free, bs, drive, names);
      if part == 0 {
        StuckText(rest);
        hangs := true;
        return;
      }
      TakeName(names, rest);
      names := names + [NextPart(rest).value.0];
    }
    StuckText(path[next..]);
    assert names + [] == names;
    TerminatedIff(k, l0, m0, free, bs, drive, names);
  }

  /**
   Where a list of n names will end, if it does: its last node is put into the (2n + 1)-th
   free block, and the cell of that node's `next` field holds 0.
   */
  ghost predicate EndsAfter(m: seq<uint32>, free: seq<nat>, n: nat) {
    n > 0 && 2 * n < |free| ==> LeadsTo(m, free[2 * n], 0)
  }

  /** The list ends exactly when it was going to, by the free blocks and the memory of before the parse. */
  lemma TerminatedIff(k: Kernel, l0: map<nat, nat>, m0: seq<uint32>, free: seq<nat>, bs: Blocks, drive: int,
                      names: seq<string>)
    requires Parsing(k, l0, m0, free, bs, drive, names)
    ensures Terminated(k.cells[..], bs) <==> EndsAfter(m0, free, |names|)
  {
    hide Describes;
    hide OnlyOnesAdded;
    hide Building;
    hide HeapTable.FreeList;
    hide Terminated;
    hide EndsAfter;
    LastNodePlaced(m0, k.cells[..], k.heap.saddr, free, bs, drive, names);
  }

  lemma LastNodePlaced(m0: seq<uint32>, m: seq<uint32>, s: uint32, free: seq<nat>, bs: Blocks, drive: int,
                       names: seq<string>)
    requires Building(m0, m, s, bs, drive, names) && Placed(free, bs) && |bs.nodes| == |names|
    ensures Terminated(m, bs) <==> EndsAfter(m0, free, |names|)
    ensures names != [] ==> InMemory(m0, free[2 * |names|])
  {
    hide Linked;
    if names != [] {
      assert bs.nodes[|names| - 1] == free[2 + 2 * (|names| - 1)];
    }
  }

  lemma ParsingHolds(k: Kernel, l0: map<nat, nat>, m0: seq<uint32>, free: seq<nat>, bs: Blocks, drive: int,
                     names: seq<string>)
    requires Parsing(k, l0, m0, free, bs, drive, names)
    ensures k.Valid() && Linked(k.cells[..], k.heap.saddr, bs, names) && 1 + 2 * |names| <= |free|
    ensures names != [] ==> InMemory(m0, free[2 * |names|])
  {
    hide Describes;
    hide OnlyOnesAdded;
    hide Building;
    hide HeapTable.FreeList;
    hide Linked;
    BuildingHolds(m0, k.cells[..], k.heap.saddr, bs, drive, names);
    LastNodePlaced(m0, k.cells[..], k.heap.saddr, free, bs, drive, names);
  }

  lemma BuildingHolds(m0: seq<uint32>, m: seq<uint32>, s: uint32, bs: Blocks, drive: int, names: seq<string>)
    requires Building(m0, m, s, bs, drive, names)
    ensures Linked(m, s, bs, names) && RootStored(m, s, bs, drive)
  {
  }

  lemma FreeCountOf(k: Kernel, l0: map<nat, nat>, m0: seq<uint32>, free: seq<nat>, bs: Blocks, drive: int,
                    names: seq<string>)
    requires Parsing(k, l0, m0, free, bs, drive, names)
    ensures k.Valid() && k.State().FreeCount() == |free| - 1 - 2 * |names|
  {
  }

  /** A turn takes a name from the text. */
  lemma TakeName(done: seq<string>, rest: string)
    requires NextPart(rest).Some?
    ensures var (name, after) := NextPart(rest).value;
      && Turns(rest) == 1 + Turns(after)
      && Prepend(done, Names(rest)) == Prepend(done + [name], Names(after))
    ensures Prepend([], Names(rest)) == Names(rest)
  {
    OneMoreName(done, rest);
    if Names(rest).Some? {
      assert [] + Names(rest).value == Names(rest).value;
    }
  }

  /** Without a next name the parse is over, or stays where it is for ever. */
  lemma StuckText(rest: string)
    requires NextPart(rest) == None || rest == ""
    ensures Names(rest) == if rest == "" then Some([]) else None
  {
  }

  lemma EmptyList(m: seq<uint32>, s: uint32, bs: Blocks)
    requires bs.buffers == [] && bs.nodes == []
    ensures Linked(m, s, bs, []) && bs.All() == {bs.root}
  {
  }

  /** pparser_create_root: the drive number, and no first name yet. */
  method CreateRoot(k: Kernel, drive: uint32) returns (root: uint32, ghost bs: Blocks)
    requires k.Valid() && k.State().FreeCount() > 0
    modifies k.heap.entries, k.heap`live, k.cells
    ensures bs == Blocks(bs.root, [], []) && root == BlockToAddress(k.heap.saddr, bs.root)
    ensures Parsing(k, old(k.heap.live), old(k.cells[..]), old(k.State().FreeList()), bs, drive, [])
  {
    hide Describes;
    hide Linked;
    hide SameOutsideBlocks;
    hide HeapState.FreeCount;
    hide HeapTable.FreeList;
    hide Placed;
    hide OnlyOnesAdded;
    ghost var l0, m0, f0, b := k.heap.live, k.cells[..], k.State().FreeList(), 0;
    root, b := k.KmallocOne(8);
    k.Store(root, drive);
    k.Store(root + 4, 0);
    bs := Blocks(b, [], []);
    PlacedRoot(f0, bs);
    EmptyList(k.cells[..], k.heap.saddr, bs);
    OneBlockChanged(m0, k.cells[..], b);
    FirstAdded(l0, b);
  }

  lemma FirstAdded(live: map<nat, nat>, b: nat)
    requires b !in live
    ensures OnlyOnesAdded(live, live[b := 1], {b})
  {
  }

  lemma PlacedRoot(free: seq<nat>, bs: Blocks)
    requires free != [] && bs == Blocks(free[0], [], [])
    ensures Placed(free, bs)
  {
  }

  // ----- Walking

  /** The string at the front of a block, up to its terminator. */
  method ReadName(k: Kernel, addr: uint32, ghost b: nat, ghost name: string) returns (read: string)
    requires k.Valid() && addr == BlockToAddress(k.heap.saddr, b)
    requires NameStored(k.cells[..], b, name) && '\0' !in name
    ensures read == name
  {
    NoCharacterIsNul(name);
    read := "";
    while k.Load(addr + |read|) != 0
      invariant |read| <= |name| && read == name[..|read|]
      invariant |read| < |name| ==> k.Load(addr + |read|) == name[|read|] as int && name[|read|] as int != 0
      decreases |name| - |read|
    {
      read := read + [k.Load(addr + |read|) as char];
    }
  }

  lemma NoCharacterIsNul(name: string)
    requires '\0' !in name
    ensures forall i | 0 <= i < |name| :: name[i] as int != 0
  {
    forall i | 0 <= i < |name| ensures name[i] as int != 0 {
      assert name[i] in name;
    }
  }

  /** What the walk reads at node i. */
  lemma AtNode(m: seq<uint32>, s: uint32, bs: Blocks, names: seq<string>, i: nat)
    requires Linked(m, s, bs, names) && Terminated(m, bs) && i < |names|
    ensures InMemory(m, bs.nodes[i]) && m[4096 * bs.nodes[i]] == BlockToAddress(s, bs.buffers[i])
    ensures m[4096 * bs.nodes[i] + 4] == if i + 1 < |names| then BlockToAddress(s, bs.nodes[i + 1]) else 0
    ensures NameStored(m, bs.buffers[i], names[i])
  {
    assert NodeStored(m, s, bs, i, names[i]);
    if i + 1 < |names| {
      assert LeadsOn(m, s, bs, i);
    }
  }

  /** The names on a list that ends, as a walk over its nodes meets them. */
  method ReadNames(k: Kernel, root: uint32, ghost bs: Blocks, ghost drive: int, ghost names: seq<string>)
    returns (read: seq<string>)
    requires k.Valid() && root == BlockToAddress(k.heap.saddr, bs.root)
    requires Linked(k.cells[..], k.heap.saddr, bs, names) && RootStored(k.cells[..], k.heap.saddr, bs, drive)
    requires Terminated(k.cells[..], bs) && forall n | n in names :: '\0' !in n
    ensures read == names
  {
    hide Describes;
    hide Blocks.All;
    hide Linked;
    hide Terminated;
    hide NameStored;
    ghost var m, s := k.cells[..], k.heap.saddr;
    SameLength(m, s, bs, names);
    read := [];
    var part := k.Load(root + 4);
    while part != 0
      invariant |read| <= |names| && read == names[..|read|]
      invariant part == if |read| < |names| then BlockToAddress(s, bs.nodes[|read|]) else 0
      decreases |names| - |read|
    {
      ghost var i := |read|;
      AtNode(m, s, bs, names, i);
      var name := ReadName(k, k.Load(part), bs.buffers[i], names[i]);
      read := read + [name];
      part := k.Load(part + 4);
    }
  }
}
