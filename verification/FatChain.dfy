/**
 The cluster chains of src/fs/fat/fat16.c: where an entry of the file allocation
 table is read from, which entries end a walk, and the walk itself (Microsoft
 "FAT: General Overview of On-Disk Format", section "FAT Data Structure").
 */
module FatChain {
  import opened CTypes
  import opened Options
  import opened Streamer
  import opened FatPosition

  lemma DivNonnegative(a: nat, z: nat)
    requires z > 0
    ensures a / z >= 0
  {
  }

  /** The parts of the boot record that reading depends on, and the sector where cluster 2 starts. */
  datatype Volume = Volume(disk: Disk, sectorsPerCluster: uint8, reservedSectors: uint16, dataSector: nat) {
    ghost predicate Valid() {
      sectorsPerCluster >= 1
    }

    function ClusterBytes(): (z: nat)
      ensures sectorsPerCluster >= 1 ==> z >= 512
    {
      512 * sectorsPerCluster
    }

    /** Which link of its chain holds a byte of a file, and where in that cluster. */
    function ClusterIndex(offset: nat): (k: nat)
      requires sectorsPerCluster >= 1
    {
      DivNonnegative(offset, ClusterBytes());
      offset / ClusterBytes()
    }

    function InCluster(offset: nat): (o: nat)
      requires sectorsPerCluster >= 1
      ensures o < ClusterBytes()
    {
      offset % ClusterBytes()
    }

    function ClusterToSector(cluster: uint16): int {
      dataSector + (cluster - 2) * sectorsPerCluster
    }

    function ClusterPosition(cluster: uint16): int {
      512 * ClusterToSector(cluster)
    }

    /** The position at which fat16_get_fat_entry reads: the table's position times the entry's offset. */
    function FatEntryPosition(cluster: uint16): int32 {
      ToInt32(512 * reservedSectors * (2 * cluster))
    }

    /** The position at which the table keeps the entry. */
    function TableEntryPosition(cluster: uint16): int {
      512 * reservedSectors + 2 * cluster
    }

    /** The 16-bit little-endian entry the code obtains. */
    function FatEntry(cluster: uint16): uint16 {
      var pos := FatEntryPosition(cluster);
      disk.Byte(pos) + 256 * disk.Byte(pos + 1)
    }
  }

  /** The entries that end a walk with -EIO: end, bad, reserved and unused markers, as tested. */
  predicate IsStop(entry: uint16) {
    entry == 0xFF8 || entry == 0xFFF || entry == 0xFF7 || entry == 0xFF0 || entry == 0xFF6 || entry == 0
  }

  /** The entry is two bytes on the disk, the lower one first. */
  lemma FatEntryBytes(v: Volume, cluster: uint16)
    ensures var p := v.FatEntryPosition(cluster);
      v.FatEntry(cluster) % 0x100 == v.disk.Byte(p) && v.FatEntry(cluster) / 0x100 == v.disk.Byte(p + 1)
  {
  }

  /** Up to 2^31 they stand 1024 bytes further on for every reserved sector and every cluster number. */
  lemma FatEntryPlace(v: Volume, cluster: uint16)
    ensures (v.FatEntryPosition(cluster) - 1024 * (v.reservedSectors * cluster)) % 0x1_0000_0000 == 0
    ensures v.reservedSectors * cluster < 0x20_0000 ==>
      v.FatEntryPosition(cluster) == 1024 * (v.reservedSectors * cluster)
  {
    var x := 1024 * (v.reservedSectors * cluster);
    assert 512 * v.reservedSectors * (2 * cluster) == x;
    assert v.FatEntryPosition(cluster) == ToInt32(x);
  }

  lemma FatEntryPositionIsAligned(v: Volume, cluster: uint16)
    ensures v.FatEntryPosition(cluster) % 512 == 0
  {
    var sector := v.reservedSectors * (2 * cluster);
    assert 512 * v.reservedSectors * (2 * cluster) == 512 * sector;
    var x := 512 * sector;
    assert x % 0x1_0000_0000 == 512 * (sector % 0x80_0000) by {
      DivUnique(x, 0x1_0000_0000, sector / 0x80_0000, 512 * (sector % 0x80_0000));
    }
  }

  /**
   The code never reads an entry where the table keeps it, except entry 0 of a volume
   without reserved sectors: for no other pair does the wrapped product meet the sum.
   */
  lemma FatEntryMissesTable(v: Volume, cluster: uint16)
    ensures v.FatEntryPosition(cluster) == v.TableEntryPosition(cluster)
      <==> v.reservedSectors == 0 && cluster == 0
  {
    ProductMeetsSumIff(v.reservedSectors, cluster);
  }

  // ----- The walk

  /** The cluster k links after c, or None when a stop marker comes first. */
  function ChainAt(v: Volume, c: uint16, k: nat): Option<uint16> {
    if k == 0 then Some(c)
    else
      match ChainAt(v, c, k - 1)
      case None => None
      case Some(x) => if IsStop(v.FatEntry(x)) then None else Some(v.FatEntry(x))
  }

  lemma {:induction false} ChainStaysEnded(v: Volume, c: uint16, j: nat, k: nat)
    requires j <= k && ChainAt(v, c, j) == None
    ensures ChainAt(v, c, k) == None
    decreases k - j
  {
    if j < k {
      ChainStaysEnded(v, c, j + 1, k);
    }
  }

  /** Walking a links and then b links is walking a + b links, so a restart from the head loses nothing. */
  lemma {:induction false} ChainComposes(v: Volume, c: uint16, a: nat, b: nat)
    ensures ChainAt(v, c, a + b) ==
      match ChainAt(v, c, a)
      case None => None
      case Some(x) => ChainAt(v, x, b)
    decreases b
  {
    if b > 0 {
      ChainComposes(v, c, a, b - 1);
    }
  }

  /** A walk of k links fails exactly when one of its first k clusters has a stop marker for an entry. */
  lemma {:induction false} ChainEndsIff(v: Volume, c: uint16, k: nat)
    ensures ChainAt(v, c, k) == None <==>
      exists j | 0 <= j < k :: ChainAt(v, c, j).Some? && IsStop(v.FatEntry(ChainAt(v, c, j).value))
    decreases k
  {
    if k > 0 {
      ChainEndsIff(v, c, k - 1);
    }
  }

  // ----- The standard's markers

  /** The entries with which a chain ends in the standard: unused, bad, and every end-of-chain value. */
  predicate IsStandardStop(entry: uint16) {
    entry == 0 || entry == 0xFFF7 || entry >= 0xFFF8
  }

  /** The code's test and the standard's differ on the 12-bit markers, which are clusters, and on the 16-bit ones. */
  predicate Mistaken(entry: uint16) {
    entry in {0xFF0, 0xFF6, 0xFF7, 0xFF8, 0xFFF} || entry >= 0xFFF7
  }

  lemma StopsAgreeIff(entry: uint16)
    ensures IsStop(entry) == IsStandardStop(entry) <==> !Mistaken(entry)
    ensures IsStandardStop(entry) <==> entry == 0 || entry > 0xFFF6
  {
  }

  /** The cluster k links after c on a walk that tests for the standard's markers. */
  function StandardChainAt(v: Volume, c: uint16, k: nat): Option<uint16> {
    if k == 0 then Some(c)
    else
      match StandardChainAt(v, c, k - 1)
      case None => None
      case Some(x) => if IsStandardStop(v.FatEntry(x)) then None else Some(v.FatEntry(x))
  }

  /** One of the first k entries that the walk meets is a mistaken one. */
  predicate MeetsMistaken(v: Volume, c: uint16, k: nat) {
    exists j | 0 <= j < k :: ChainAt(v, c, j).Some? && Mistaken(v.FatEntry(ChainAt(v, c, j).value))
  }

  /**
   The code walks the standard's chain, link by link up to link k, exactly when no entry
   it meets on the way is one on which the two tests differ.
   */
  lemma {:induction false} WalksStandardChainIff(v: Volume, c: uint16, k: nat)
    ensures (forall j | 0 <= j <= k :: ChainAt(v, c, j) == StandardChainAt(v, c, j)) <==> !MeetsMistaken(v, c, k)
    decreases k
  {
    hide Volume.FatEntry;
    hide IsStop;
    hide IsStandardStop;
    hide Mistaken;
    if k > 0 {
      WalksStandardChainIff(v, c, k - 1);
      if MeetsMistaken(v, c, k - 1) {
        var j :| 0 <= j < k - 1 && ChainAt(v, c, j).Some? && Mistaken(v.FatEntry(ChainAt(v, c, j).value));
        assert MeetsMistaken(v, c, k);
      } else {
        assert ChainAt(v, c, k - 1) == StandardChainAt(v, c, k - 1);
        if ChainAt(v, c, k - 1).Some? {
          StopsAgreeIff(v.FatEntry(ChainAt(v, c, k - 1).value));
        }
        assert MeetsMistaken(v, c, k) <==> ChainAt(v, c, k) != StandardChainAt(v, c, k);
      }
    }
  }

  /** So the standard's end-of-chain marker 0xFFFF is followed, to a cluster of that number. */
  lemma StandardEndMarkerIsFollowed(v: Volume, c: uint16)
    requires v.FatEntry(c) == 0xFFFF
    ensures ChainAt(v, c, 1) == Some(0xFFFF) && StandardChainAt(v, c, 1) == None && MeetsMistaken(v, c, 1)
  {
    assert ChainAt(v, c, 0) == Some(c) == StandardChainAt(v, c, 0);
  }

  // ----- Where a file's bytes are

  /** The disk position of byte `offset` of the file whose chain starts at c. */
  function FilePosition(v: Volume, c: uint16, offset: nat): Option<int>
    requires v.Valid()
  {
    match ChainAt(v, c, v.ClusterIndex(offset))
    case None => None
    case Some(x) => Some(v.ClusterPosition(x) + v.InCluster(offset))
  }

  /** Every cluster up to link number `last` lies at positions that an int can hold. */
  ghost predicate OnDiskUpTo(v: Volume, c: uint16, last: nat) {
    forall k | 0 <= k <= last && ChainAt(v, c, k).Some? ::
      var x := ChainAt(v, c, k).value;
      0 <= v.ClusterPosition(x) && v.ClusterPosition(x) + 2 * v.ClusterBytes() < 0x8000_0000
  }

  /** Cluster y directly follows cluster x on the disk exactly when its number does. */
  lemma NextOnDisk(v: Volume, x: uint16, y: uint16)
    requires v.Valid()
    ensures v.ClusterPosition(y) == v.ClusterPosition(x) + v.ClusterBytes() <==> y == x + 1
  {
    var z := v.ClusterBytes();
    assert v.ClusterPosition(y) - v.ClusterPosition(x) == (y - x) * z;
    assert y - x >= 2 ==> (y - x) * z >= 2 * z;
    assert y - x <= 0 ==> (y - x) * z <= 0;
  }
}
