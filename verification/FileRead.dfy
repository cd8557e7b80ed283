/**
 fat16_read's loop over items as a plan, and the item sizes for which every
 aligned read is right (src/fs/fat/fat16.c:697-717).
 */
module FileRead {
  import opened CTypes
  import opened Options
  import opened Streamer
  import opened FatChain
  import opened FatRead

  /** n items of `size` bytes each, one read after the other, up to the first that fails. */
  function ItemsPlan(v: Volume, c: uint16, offset: nat, size: nat, n: nat): ReadPlan
    requires v.Valid()
  {
    if n == 0 then ReadPlan(true, [])
    else
      var before := ItemsPlan(v, c, offset, size, n - 1);
      if !before.ok then before
      else
        var item := ClusterPlan(v, c, offset + (n - 1) * size, size);
        ReadPlan(item.ok, before.sources + item.sources)
  }

  lemma {:induction false} ItemsStayFailed(v: Volume, c: uint16, offset: nat, size: nat, i: nat, n: nat)
    requires v.Valid() && i <= n && !ItemsPlan(v, c, offset, size, i).ok
    ensures ItemsPlan(v, c, offset, size, n) == ItemsPlan(v, c, offset, size, i)
    decreases n
  {
    if i < n {
      ItemsStayFailed(v, c, offset, size, i, n - 1);
    }
  }

  lemma {:induction false} ItemsLength(v: Volume, c: uint16, offset: nat, size: nat, n: nat)
    requires v.Valid()
    ensures |ItemsPlan(v, c, offset, size, n).sources| <= n * size
    ensures ItemsPlan(v, c, offset, size, n).ok ==> |ItemsPlan(v, c, offset, size, n).sources| == n * size
    decreases n
  {
    if n > 0 {
      ItemsLength(v, c, offset, size, n - 1);
      ReadFailsIff(v, c, offset + (n - 1) * size, size);
      assert n * size == (n - 1) * size + size;
    }
  }

  /** A successful read of items is one slice of the file exactly when each item's read is. */
  lemma {:induction false} ItemsRightIff(v: Volume, c: uint16, offset: nat, size: nat, n: nat)
    requires v.Valid() && ItemsPlan(v, c, offset, size, n).ok
    ensures IsFileSlice(v, c, offset, ItemsPlan(v, c, offset, size, n).sources) <==>
      forall i | 0 <= i < n ::
        SectorAligned(offset + i * size, size) && ClusterAligned(v, c, offset + i * size, size)
    decreases n
  {
    hide SectorAligned;
    hide IsFileSlice;
    hide ClusterPlan;
    hide ClusterAligned;
    if n == 0 {
      EmptySlice(v, c, offset);
    } else {
      var at := offset + (n - 1) * size;
      var before, item := ItemsPlan(v, c, offset, size, n - 1), ClusterPlan(v, c, at, size);
      ItemsLength(v, c, offset, size, n - 1);
      ItemsRightIff(v, c, offset, size, n - 1);
      ReadRightIff(v, c, at, size);
      SlicesJoin(v, c, offset, before.sources, item.sources);
      assert SectorAligned(at, size) && ClusterAligned(v, c, at, size) <==> IsFileSlice(v, c, at, item.sources);
    }
  }

  lemma EmptySlice(v: Volume, c: uint16, offset: nat)
    requires v.Valid()
    ensures IsFileSlice(v, c, offset, [])
  {
  }

  // ----- Item sizes

  /** Sizes that tile a sector, or that are whole sectors tiling or tiled by a cluster. */
  predicate TilingSize(v: Volume, size: nat)
    requires v.Valid() && size > 0
  {
    512 % size == 0 || (size % 512 == 0 && (v.ClusterBytes() % size == 0 || size % v.ClusterBytes() == 0))
  }

  /** A multiple of `size` and the next stay between multiples of what `size` divides. */
  lemma TilesInside(z: nat, size: nat, k: nat)
    requires z > 0 && size > 0 && z % size == 0
    ensures k * size % z + size <= z
  {
    var m := z / size;
    var q, r := k / m, k % m;
    RegroupTiles(m, size, q, r);
    MulLe(r + 1, m, size);
    assert (r + 1) * size == r * size + size;
    DivUnique(k * size, z, q, r * size);
  }

  lemma RegroupTiles(m: int, size: int, q: int, r: int)
    ensures (m * q + r) * size == m * size * q + r * size
  {
  }

  /** Some multiple of `size` comes too close below the end of z when `size` does not divide it. */
  lemma TilesOver(z: nat, size: nat)
    requires 0 < size < z && z % size != 0
    ensures z / size * size % z + size > z
  {
    var k := z / size;
    assert z == size * k + z % size;
    DivUnique(k * size, z, 0, k * size);
  }

  lemma MultipleAtStart(z: nat, size: nat, k: nat)
    requires z > 0 && size % z == 0
    ensures k * size % z == 0
  {
    var m := size / z;
    assert size == z * m;
    assert k * size == z * (k * m);
    DivUnique(k * size, z, k * m, 0);
  }

  /** A read that succeeds delivers the file's bytes. */
  ghost predicate ReadsRight(v: Volume, c: uint16, offset: nat, total: nat)
    requires v.Valid()
  {
    var plan := ClusterPlan(v, c, offset, total);
    plan.ok ==> IsFileSlice(v, c, offset, plan.sources)
  }

  /** Every item at a multiple of its size is read right, from every file and whatever the disk holds. */
  ghost predicate AlwaysReadsRight(v: Volume, size: nat)
    requires v.Valid()
  {
    forall d: Disk, c: uint16, k: nat :: ReadsRight(v.(disk := d), c, k * size, size)
  }

  /** Items at multiples of their size are read right on every disk exactly for the tiling sizes. */
  lemma AlwaysReadsRightIff(v: Volume, size: nat)
    requires v.Valid() && size > 0
    ensures AlwaysReadsRight(v, size) <==> TilingSize(v, size)
  {
    if TilingSize(v, size) {
      forall d: Disk, c: uint16, k: nat ensures ReadsRight(v.(disk := d), c, k * size, size) {
        TilingSizeReadsRight(v.(disk := d), c, k, size);
      }
    } else {
      var d := OnesBehind(OnesBoot());
      BootChain(v.(disk := d), true);
      var k := MisreadItem(v.(disk := d), size);
      assert !ReadsRight(v.(disk := d), 257, k * size, size);
    }
  }

  /** The same with the boot sector left as it is, so that the volume stays one that the driver accepts. */
  ghost predicate AlwaysReadsRightBehind(v: Volume, size: nat)
    requires v.Valid()
  {
    forall d: Disk, c: uint16, k: nat | d.sectors(0) == v.disk.sectors(0) ::
      ReadsRight(v.(disk := d), c, k * size, size)
  }

  /** And it is the contents behind the boot sector that decide: on a volume with a reserved sector. */
  lemma AlwaysReadsRightBehindIff(v: Volume, size: nat)
    requires v.Valid() && size > 0 && v.reservedSectors >= 1
    ensures AlwaysReadsRightBehind(v, size) <==> TilingSize(v, size)
  {
    if TilingSize(v, size) {
      forall d: Disk, c: uint16, k: nat | d.sectors(0) == v.disk.sectors(0)
        ensures ReadsRight(v.(disk := d), c, k * size, size)
      {
        TilingSizeReadsRight(v.(disk := d), c, k, size);
      }
    } else {
      var d := OnesBehind(v.disk.sectors(0));
      BootChain(v.(disk := d), false);
      var k := MisreadItem(v.(disk := d), size);
      assert !ReadsRight(v.(disk := d), 257, k * size, size);
    }
  }

  lemma TilingSizeReadsRight(v: Volume, c: uint16, k: nat, size: nat)
    requires v.Valid() && size > 0 && TilingSize(v, size)
    ensures ReadsRight(v, c, k * size, size)
  {
    TilingSizeFits(v, size, k);
    FitsIsClusterAligned(v, c, k * size, size);
    if ClusterPlan(v, c, k * size, size).ok {
      ReadRightIff(v, c, k * size, size);
    }
  }

  /** A disk full of ones behind a boot sector. */
  function OnesBehind(boot: Sector): Disk {
    Disk(lba => if lba == 0 then boot else seq(512, i => 1))
  }

  /** A boot sector of ones with the signature that the driver asks for. */
  function OnesBoot(): Sector {
    seq(512, i => if i == 38 then 0x29 else 1)
  }

  /** With ones where the entry of cluster 257 is read, its chain never ends. */
  lemma BootChain(v: Volume, ones: bool)
    requires v.disk == OnesBehind(v.disk.sectors(0))
    requires if ones then v.disk.sectors(0) == OnesBoot() else v.reservedSectors >= 1
    ensures v.FatEntry(257) == 257
  {
    FatEntryPositionIsAligned(v, 257);
    var pos := v.FatEntryPosition(257);
    if v.reservedSectors >= 1 {
      EntryBehindBoot(v.reservedSectors);
    }
    DivUnique(pos, 512, pos / 512, 0);
    DivUnique(pos + 1, 512, pos / 512, 1);
  }

  /** 512 r * 514 is a multiple of 2^32 for no 16-bit r but 0. */
  lemma EntryBehindBoot(r: uint16)
    requires r >= 1
    ensures ToInt32(512 * r * (2 * 257)) != 0
  {
  }

  lemma {:induction false} LoopingChain(v: Volume, k: nat)
    requires v.FatEntry(257) == 257
    ensures ChainAt(v, 257, k) == Some(257)
  {
    if k > 0 {
      LoopingChain(v, k - 1);
    }
  }

  /**
   For every size that does not tile, some item of a file at cluster 257 is misread, when
   that cluster's chain never ends.
   */
  lemma MisreadItem(v: Volume, size: nat) returns (k: nat)
    requires v.Valid() && size > 0 && !TilingSize(v, size) && v.FatEntry(257) == 257
    ensures !ReadsRight(v, 257, k * size, size)
  {
    hide Volume.FatEntry;
    k := MisfittingMultiple(v, size);
    var at := k * size;
    assert !Fits(v, at, size);
    LoopingChain(v, LastLink(v, at, size));
    ReadFailsIff(v, 257, at, size);
    ReadRightIff(v, 257, at, size);
    LoopingChain(v, v.ClusterIndex(at));
    LoopingChain(v, v.ClusterIndex(at) + 1);
    assert !NextClusterAdjacent(v, 257, at);
  }

  lemma TilingSizeFits(v: Volume, size: nat, k: nat)
    requires v.Valid() && size > 0 && TilingSize(v, size)
    ensures Fits(v, k * size, size)
  {
    var z := v.ClusterBytes();
    if 512 % size == 0 {
      TilesInside(512, size, k);
      SectorTilesCluster(v, size);
      TilesInside(z, size, k);
    } else {
      MultipleAtStart(512, size, k);
      if z % size == 0 {
        TilesInside(z, size, k);
      } else {
        MultipleAtStart(z, size, k);
      }
    }
  }

  lemma SectorTilesCluster(v: Volume, size: nat)
    requires v.Valid() && size > 0 && 512 % size == 0
    ensures v.ClusterBytes() % size == 0 && size <= 512
  {
    var m, a: int := 512 / size, v.sectorsPerCluster;
    assert 512 == size * m;
    assert v.ClusterBytes() == size * (m * a);
    DivUnique(v.ClusterBytes(), size, m * a, 0);
    if size > 512 {
      DivUnique(512, size, 0, 512);
    }
  }

  lemma MisfittingMultiple(v: Volume, size: nat) returns (k: nat)
    requires v.Valid() && size > 0 && !TilingSize(v, size)
    ensures !Fits(v, k * size, size)
  {
    var z := v.ClusterBytes();
    if size < 512 {
      k := 512 / size;
      TilesOver(512, size);
    } else if size % 512 != 0 {
      k := 1;
    } else if size < z {
      k := z / size;
      DivNonnegative(z, size);
      TilesOver(z, size);
    } else {
      k := 1;
    }
  }

  // ----- The end-to-end read

  /** For a read that fits, the last link is the one that holds its last byte. */
  lemma LastLinkOfFitting(v: Volume, offset: nat, total: nat)
    requires v.Valid() && total > 0 && Fits(v, offset, total)
    ensures LastLink(v, offset, total) == v.ClusterIndex(offset + total - 1)
  {
    hide SectorAligned;
    hide Volume.ClusterBytes;
    var z := v.ClusterBytes();
    QuotientsAdd(offset, total - 1, z);
    if total <= z {
      DivUnique(total - 1, z, 0, total - 1);
    }
  }

  /** Quotients add up when the remainders leave room for each other. */
  lemma QuotientsAdd(a: nat, b: nat, z: nat)
    requires z > 0 && a % z + b % z < z
    ensures (a + b) / z == a / z + b / z
  {
    var p, q := a / z, b / z;
    assert a == z * p + a % z && b == z * q + b % z;
    assert z * p + z * q == z * (p + q);
    DivUnique(a + b, z, p + q, a % z + b % z);
  }

  /** Reading aligned items succeeds exactly when the chain reaches the last byte asked for. */
  lemma {:induction false} AlignedItemsSucceedIff(v: Volume, c: uint16, pos: nat, size: nat, n: nat)
    requires v.Valid() && size > 0 && TilingSize(v, size) && pos % size == 0 && n > 0
    ensures ItemsPlan(v, c, pos, size, n).ok <==> ChainAt(v, c, v.ClusterIndex(pos + n * size - 1)).Some?
    decreases n
  {
    hide TilingSize;
    hide Fits;
    hide LastLink;
    hide ClusterPlan;
    hide Volume.ClusterIndex;
    hide Volume.ClusterBytes;
    hide ChainAt;
    var at, end := ItemOffset(pos, size, n - 1), ItemOffset(pos, size, n) - 1;
    ItemOffsets(pos, size, n);
    AlignedItemFits(v, pos, size, n - 1);
    LastLinkOfFitting(v, at, size);
    ReadFailsIff(v, c, at, size);
    if n > 1 {
      AlignedItemsSucceedIff(v, c, pos, size, n - 1);
      LinksInOrder(v, at - 1, end);
      if ChainAt(v, c, v.ClusterIndex(at - 1)) == None {
        ChainStaysEnded(v, c, v.ClusterIndex(at - 1), v.ClusterIndex(end));
      }
    }
  }

  function ItemOffset(pos: nat, size: nat, i: nat): nat {
    pos + i * size
  }

  lemma ItemOffsets(pos: nat, size: nat, n: nat)
    requires n > 0 && size > 0
    ensures ItemOffset(pos, size, n) == ItemOffset(pos, size, n - 1) + size
    ensures n > 1 ==> ItemOffset(pos, size, n - 1) >= 1
  {
    assert n * size == (n - 1) * size + size;
    if n > 1 {
      MulLe(1, n - 1, size);
    }
  }

  /**
   For a tiling item size at a multiple of it, reading n items succeeds exactly when
   the chain reaches the last byte asked for, and then delivers, in order, exactly
   the n * size bytes of the file from the position on, however scattered the chain.
   */
  lemma AlignedItemsRight(v: Volume, c: uint16, pos: nat, size: nat, n: nat)
    requires v.Valid() && size > 0 && TilingSize(v, size) && pos % size == 0 && n > 0
    ensures var plan := ItemsPlan(v, c, pos, size, n);
      && (plan.ok <==> ChainAt(v, c, v.ClusterIndex(pos + n * size - 1)).Some?)
      && (plan.ok ==> |plan.sources| == n * size && IsFileSlice(v, c, pos, plan.sources))
  {
    hide TilingSize;
    hide SectorAligned;
    hide ClusterAligned;
    hide ItemsPlan;
    hide IsFileSlice;
    AlignedItemsSucceedIff(v, c, pos, size, n);
    ItemsLength(v, c, pos, size, n);
    if ItemsPlan(v, c, pos, size, n).ok {
      forall i | 0 <= i < n ensures SectorAligned(pos + i * size, size) && ClusterAligned(v, c, pos + i * size, size) {
        AlignedItemFits(v, pos, size, i);
        FitsIsClusterAligned(v, c, pos + i * size, size);
      }
      ItemsRightIff(v, c, pos, size, n);
    }
  }

  lemma AlignedItemFits(v: Volume, pos: nat, size: nat, i: nat)
    requires v.Valid() && size > 0 && TilingSize(v, size) && pos % size == 0
    ensures Fits(v, pos + i * size, size)
  {
    var k := pos / size + i;
    assert pos == size * (pos / size);
    assert pos + i * size == k * size;
    TilingSizeFits(v, size, k);
  }

  lemma LinksInOrder(v: Volume, a: nat, b: nat)
    requires v.Valid() && a <= b
    ensures v.ClusterIndex(a) <= v.ClusterIndex(b)
  {
    DivMonotone(a, b, v.ClusterBytes());
  }
}
