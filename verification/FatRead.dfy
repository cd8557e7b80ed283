/**
 The read path of src/fs/fat/fat16.c as a plan: which disk bytes a read delivers,
 cluster by cluster, and exactly when those are the bytes of the file.
 */
module FatRead {
  import opened CTypes
  import opened Options
  import opened Streamer
  import opened FatChain

  /** The bytes a read delivers before it succeeds or fails. */
  datatype ReadPlan = ReadPlan(ok: bool, sources: seq<Source>)

  /** At most one cluster is read at a time. */
  function ChunkLength(v: Volume, total: int): int
    requires v.Valid()
  {
    if total > v.ClusterBytes() then v.ClusterBytes() else total
  }

  /** fat16_read_internal_from_stream: find the cluster from the head of the chain, read a chunk, recurse. */
  function ClusterPlan(v: Volume, c: uint16, offset: nat, total: int): ReadPlan
    requires v.Valid()
    decreases total
  {
    match ChainAt(v, c, v.ClusterIndex(offset))
    case None => ReadPlan(false, [])
    case Some(x) =>
      var n := ChunkLength(v, total);
      var chunk := StreamPlan(v.ClusterPosition(x) + v.InCluster(offset), n);
      if total > n then
        var rest := ClusterPlan(v, c, offset + n, total - n);
        ReadPlan(rest.ok, chunk + rest.sources)
      else
        ReadPlan(true, chunk)
  }

  /** One turn of the recursion. */
  lemma PlanTurn(v: Volume, c: uint16, offset: nat, total: int)
    requires v.Valid()
    ensures ChainAt(v, c, v.ClusterIndex(offset)) == None ==> ClusterPlan(v, c, offset, total) == ReadPlan(false, [])
    ensures ChainAt(v, c, v.ClusterIndex(offset)).Some? ==>
      var n, x := ChunkLength(v, total), ChainAt(v, c, v.ClusterIndex(offset)).value;
      var chunk := StreamPlan(v.ClusterPosition(x) + v.InCluster(offset), n);
      && n <= total && n <= v.ClusterBytes() && (total > n ==> n >= 512)
      && ClusterPlan(v, c, offset, total) ==
        if total > n then
          var rest := ClusterPlan(v, c, offset + n, total - n);
          ReadPlan(rest.ok, chunk + rest.sources)
        else ReadPlan(true, chunk)
  {
  }

  // ----- When the bytes delivered are the file's

  /** Delivered from the place where byte `offset` of the file is. */
  predicate IsFileByte(v: Volume, c: uint16, offset: nat, source: Source)
    requires v.Valid()
  {
    match FilePosition(v, c, offset)
    case None => false
    case Some(p) => source == OnDisk(p)
  }

  /** The file has byte `offset`, and it is b. */
  predicate FileByteIs(v: Volume, c: uint16, offset: nat, b: uint8)
    requires v.Valid()
  {
    match FilePosition(v, c, offset)
    case None => false
    case Some(p) => b == v.disk.Byte(p)
  }

  /** The sources are, in order, the bytes of the file from `offset` on. */
  ghost predicate IsFileSlice(v: Volume, c: uint16, offset: nat, sources: seq<Source>)
    requires v.Valid()
  {
    forall i | 0 <= i < |sources| :: IsFileByte(v, c, offset + i, sources[i])
  }

  lemma SlicesJoin(v: Volume, c: uint16, offset: nat, p: seq<Source>, q: seq<Source>)
    requires v.Valid()
    ensures IsFileSlice(v, c, offset, p + q) <==>
      IsFileSlice(v, c, offset, p) && IsFileSlice(v, c, offset + |p|, q)
  {
    if IsFileSlice(v, c, offset, p + q) {
      forall i | 0 <= i < |p| ensures IsFileByte(v, c, offset + i, p[i]) {
        assert (p + q)[i] == p[i];
      }
      forall i | 0 <= i < |q| ensures IsFileByte(v, c, offset + |p| + i, q[i]) {
        assert (p + q)[|p| + i] == q[i];
      }
    }
    if IsFileSlice(v, c, offset, p) && IsFileSlice(v, c, offset + |p|, q) {
      forall i | 0 <= i < |p + q| ensures IsFileByte(v, c, offset + i, (p + q)[i]) {
        if i >= |p| {
          assert IsFileByte(v, c, offset + |p| + (i - |p|), q[i - |p|]);
        }
      }
    }
  }

  /** n bytes from `offset` on end in the cluster they start in. */
  predicate InsideCluster(v: Volume, offset: nat, n: int)
    requires v.Valid()
  {
    v.InCluster(offset) + n <= v.ClusterBytes()
  }

  /** The chain's next cluster after the one that holds `offset` is also the next one on the disk. */
  predicate NextClusterAdjacent(v: Volume, c: uint16, offset: nat)
    requires v.Valid()
  {
    var k := v.ClusterIndex(offset);
    ChainAt(v, c, k).Some? && ChainAt(v, c, k + 1) == Some(ChainAt(v, c, k).value + 1)
  }

  /** Every chunk of the read stays in its cluster, or runs into the cluster that the chain goes on with. */
  predicate ClusterAligned(v: Volume, c: uint16, offset: nat, total: int)
    requires v.Valid()
    decreases total
  {
    var n := ChunkLength(v, total);
    && (InsideCluster(v, offset, n) || NextClusterAdjacent(v, c, offset))
    && (total > n ==> ClusterAligned(v, c, offset + n, total - n))
  }

  /** Moving a whole cluster ahead is the next link, at the same place. */
  lemma NextCluster(v: Volume, offset: nat)
    requires v.Valid()
    ensures v.ClusterIndex(offset + v.ClusterBytes()) == v.ClusterIndex(offset) + 1
    ensures v.InCluster(offset + v.ClusterBytes()) == v.InCluster(offset)
  {
    var z := v.ClusterBytes();
    DivUnique(offset + z, z, offset / z + 1, offset % z);
  }

  /** Where the bytes that follow `offset` are: in the same cluster, or at the front of the next link. */
  lemma FilePositionAhead(v: Volume, c: uint16, offset: nat, i: nat)
    requires v.Valid() && i <= v.ClusterBytes()
    ensures var k, o, z := v.ClusterIndex(offset), v.InCluster(offset), v.ClusterBytes();
      if o + i < z then v.ClusterIndex(offset + i) == k && v.InCluster(offset + i) == o + i
      else v.ClusterIndex(offset + i) == k + 1 && v.InCluster(offset + i) == o + i - z
  {
    var k, o, z := v.ClusterIndex(offset), v.InCluster(offset), v.ClusterBytes();
    if o + i < z {
      DivUnique(offset + i, z, k, o + i);
    } else {
      DivUnique(offset + i, z, k + 1, o + i - z);
    }
  }

  lemma SamePlaceInSector(v: Volume, x: uint16, offset: nat)
    requires v.Valid()
    ensures (v.ClusterPosition(x) + v.InCluster(offset)) % 512 == offset % 512
  {
    var a: int, k, o := v.sectorsPerCluster, v.ClusterIndex(offset), v.InCluster(offset);
    assert offset == 512 * a * k + o;
    assert offset == 512 * (a * k) + o;
    DivUnique(offset, 512, a * k + o / 512, o % 512);
    var b := v.ClusterToSector(x);
    DivUnique(512 * b + o, 512, b + o / 512, o % 512);
  }

  /** A read that does not end in its first sector gives a byte that is on no disk. */
  lemma TornSector(pos: int, n: int) returns (i: nat)
    requires !SectorAligned(pos, n)
    ensures i < n && i < |StreamPlan(pos, n)| && StreamPlan(pos, n)[i] == BehindBuffer
  {
    i := 512 - pos % 512;
    StreamPlanAt(pos, n, i);
  }

  /** One chunk is a slice of the file exactly when it is sector-aligned and stays on the chain's clusters. */
  lemma ChunkRightIff(v: Volume, c: uint16, offset: nat, n: int)
    requires v.Valid() && n <= v.ClusterBytes()
    requires ChainAt(v, c, v.ClusterIndex(offset)).Some?
    ensures var x := ChainAt(v, c, v.ClusterIndex(offset)).value;
      IsFileSlice(v, c, offset, StreamPlan(v.ClusterPosition(x) + v.InCluster(offset), n))
      <==> SectorAligned(offset, n) && (InsideCluster(v, offset, n) || NextClusterAdjacent(v, c, offset))
  {
    var k, o, z := v.ClusterIndex(offset), v.InCluster(offset), v.ClusterBytes();
    hide StreamPlan;
    hide Volume.ClusterBytes;
    hide Volume.ClusterIndex;
    hide Volume.InCluster;
    hide Volume.ClusterPosition;
    var x := ChainAt(v, c, k).value;
    var pos := v.ClusterPosition(x) + o;
    var plan := StreamPlan(pos, n);
    SamePlaceInSector(v, x, offset);
    StreamPlanLength(pos, n);
    if SectorAligned(offset, n) && (InsideCluster(v, offset, n) || NextClusterAdjacent(v, c, offset)) {
      forall i | 0 <= i < |plan| ensures IsFileByte(v, c, offset + i, plan[i]) {
        StreamPlanAt(pos, n, i);
        FilePositionAhead(v, c, offset, i);
        if o + i >= z {
          NextOnDisk(v, x, x + 1);
        }
      }
    } else if !SectorAligned(offset, n) {
      var i := TornSector(pos, n);
      assert !IsFileByte(v, c, offset + i, plan[i]);
    } else {
      var i := z - o;
      StreamPlanAt(pos, n, i);
      FilePositionAhead(v, c, offset, i);
      match ChainAt(v, c, k + 1) {
        case None =>
        case Some(y) => NextOnDisk(v, x, y);
      }
      assert !IsFileByte(v, c, offset + i, plan[i]);
    }
  }

  /**
   The cluster-by-cluster read, each turn of which restarts at the head of the
   chain, delivers one flat slice of the file exactly when its first sector's
   share ends in that sector and every chunk stays on the chain's clusters.
   */
  lemma {:induction false} ReadRightIff(v: Volume, c: uint16, offset: nat, total: int)
    requires v.Valid() && ClusterPlan(v, c, offset, total).ok
    ensures IsFileSlice(v, c, offset, ClusterPlan(v, c, offset, total).sources)
      <==> SectorAligned(offset, total) && ClusterAligned(v, c, offset, total)
    decreases total
  {
    hide SectorAligned;
    hide InsideCluster;
    hide NextClusterAdjacent;
    hide IsFileSlice;
    hide StreamPlan;
    hide Volume.ClusterBytes;
    hide Volume.ClusterIndex;
    hide Volume.InCluster;
    var z := v.ClusterBytes();
    var pos := v.ClusterPosition(ChainAt(v, c, v.ClusterIndex(offset)).value) + v.InCluster(offset);
    if total > z {
      PlanSteps(v, c, offset, total);
      ChunkRightIff(v, c, offset, z);
      ReadRightIff(v, c, offset + z, total - z);
      SlicesJoin(v, c, offset, StreamPlan(pos, z), ClusterPlan(v, c, offset + z, total - z).sources);
      SectorShareKept(v, offset, total);
    } else {
      ChunkRightIff(v, c, offset, total);
    }
  }

  /** A successful read of more than a cluster is one cluster's chunk and the successful rest. */
  lemma PlanSteps(v: Volume, c: uint16, offset: nat, total: int)
    requires v.Valid() && total > v.ClusterBytes() && ClusterPlan(v, c, offset, total).ok
    ensures ChainAt(v, c, v.ClusterIndex(offset)).Some?
    ensures var z, x := v.ClusterBytes(), ChainAt(v, c, v.ClusterIndex(offset)).value;
      var chunk := StreamPlan(v.ClusterPosition(x) + v.InCluster(offset), z);
      var rest := ClusterPlan(v, c, offset + z, total - z);
      rest.ok && |chunk| == z && ClusterPlan(v, c, offset, total).sources == chunk + rest.sources
  {
    var x := ChainAt(v, c, v.ClusterIndex(offset)).value;
    StreamPlanLength(v.ClusterPosition(x) + v.InCluster(offset), v.ClusterBytes());
  }

  /** A read of more than a cluster is sector-aligned when its first cluster and the rest are. */
  lemma SectorShareKept(v: Volume, offset: nat, total: int)
    requires v.Valid() && total > v.ClusterBytes()
    ensures SectorAligned(offset, total) <==>
      SectorAligned(offset, v.ClusterBytes()) && SectorAligned(offset + v.ClusterBytes(), total - v.ClusterBytes())
  {
    var a: int := v.sectorsPerCluster;
    DivUnique(offset + 512 * a, 512, offset / 512 + a, offset % 512);
  }

  /** A byte of a file slice lies in a cluster of the file's chain: no other part of the disk matters. */
  lemma SliceStaysOnChain(v: Volume, c: uint16, offset: nat, sources: seq<Source>, i: nat)
    requires v.Valid() && IsFileSlice(v, c, offset, sources) && i < |sources|
    ensures sources[i].OnDisk?
    ensures var k := v.ClusterIndex(offset + i);
      && ChainAt(v, c, k).Some?
      && var start := v.ClusterPosition(ChainAt(v, c, k).value);
         start <= sources[i].pos < start + v.ClusterBytes()
  {
    assert IsFileByte(v, c, offset + i, sources[i]);
  }

  // ----- When a read fails, and how much it delivers

  /** The link of the chain at which the last chunk starts. */
  function LastLink(v: Volume, offset: nat, total: int): nat
    requires v.Valid()
  {
    v.ClusterIndex(offset) + (if total > 0 then v.ClusterIndex(total - 1) else 0)
  }

  lemma LastLinkSteps(v: Volume, offset: nat, total: int)
    requires v.Valid()
    ensures var z, last := v.ClusterBytes(), LastLink(v, offset, total);
      if total > z then last == LastLink(v, offset + z, total - z) && last >= v.ClusterIndex(offset)
      else last == v.ClusterIndex(offset)
  {
    if total > v.ClusterBytes() {
      NextCluster(v, offset);
      NextCluster(v, total - 1 - v.ClusterBytes());
    } else if total > 0 {
      DivUnique(total - 1, v.ClusterBytes(), 0, total - 1);
    }
  }

  /** A read fails exactly when the chain ends before the cluster in which its last chunk starts. */
  lemma {:induction false} ReadFailsIff(v: Volume, c: uint16, offset: nat, total: int)
    requires v.Valid()
    ensures ClusterPlan(v, c, offset, total).ok <==> ChainAt(v, c, LastLink(v, offset, total)).Some?
    ensures ClusterPlan(v, c, offset, total).ok ==>
      |ClusterPlan(v, c, offset, total).sources| == if total > 0 then total else 0
    ensures |ClusterPlan(v, c, offset, total).sources| <= if total > 0 then total else 0
    decreases total
  {
    hide LastLink;
    hide StreamPlan;
    hide Volume.ClusterBytes;
    hide Volume.ClusterIndex;
    hide Volume.InCluster;
    hide Volume.ClusterPosition;
    var z, k := v.ClusterBytes(), v.ClusterIndex(offset);
    LastLinkSteps(v, offset, total);
    if total > z {
      ReadFailsIff(v, c, offset + z, total - z);
    }
    if ChainAt(v, c, k) == None {
      ChainStaysEnded(v, c, k, LastLink(v, offset, total));
    } else {
      StreamPlanLength(v.ClusterPosition(ChainAt(v, c, k).value) + v.InCluster(offset), ChunkLength(v, total));
    }
  }

  // ----- What a read depends on

  /** The two volumes have the same geometry, and the same entries for the clusters of the chain before link `last`. */
  ghost predicate SameChain(v: Volume, w: Volume, c: uint16, last: nat) {
    && w == v.(disk := w.disk)
    && forall k | 0 <= k < last && ChainAt(v, c, k).Some? ::
      v.FatEntry(ChainAt(v, c, k).value) == w.FatEntry(ChainAt(v, c, k).value)
  }

  lemma {:induction false} SameChainSameWalk(v: Volume, w: Volume, c: uint16, last: nat, k: nat)
    requires SameChain(v, w, c, last) && k <= last
    ensures ChainAt(w, c, k) == ChainAt(v, c, k)
    decreases k
  {
    hide Volume.FatEntry;
    if k > 0 {
      SameChainSameWalk(v, w, c, last, k - 1);
    }
  }

  /** Which bytes a read delivers depends on the disk through the entries of the file's chain alone. */
  lemma {:induction false} PlanDependsOnChain(v: Volume, w: Volume, c: uint16, offset: nat, total: int)
    requires v.Valid() && SameChain(v, w, c, LastLink(v, offset, total))
    ensures ClusterPlan(w, c, offset, total) == ClusterPlan(v, c, offset, total)
    decreases total
  {
    hide LastLink;
    hide StreamPlan;
    hide Volume.FatEntry;
    LastLinkSteps(v, offset, total);
    SameChainSameWalk(v, w, c, LastLink(v, offset, total), v.ClusterIndex(offset));
    if total > v.ClusterBytes() {
      PlanDependsOnChain(v, w, c, offset + v.ClusterBytes(), total - v.ClusterBytes());
    }
  }

  // ----- The alignment that needs no luck

  /** The whole read ends in its sector and in its cluster, or is made of whole sectors and clusters. */
  predicate Fits(v: Volume, offset: nat, total: int)
    requires v.Valid()
  {
    SectorAligned(offset, total) && InsideCluster(v, offset, ChunkLength(v, total))
  }

  /** A read that fits is right on every chain, however its clusters are scattered. */
  lemma {:induction false} FitsIsClusterAligned(v: Volume, c: uint16, offset: nat, total: int)
    requires v.Valid() && Fits(v, offset, total)
    ensures ClusterAligned(v, c, offset, total)
    decreases total
  {
    var n := ChunkLength(v, total);
    if total > n {
      NextCluster(v, offset);
      SectorShareKept(v, offset, total);
      FitsIsClusterAligned(v, c, offset + n, total - n);
    }
  }
}
