/**
 Files as bytes on a disk: clusters whose table entries, where src/fs/fat/fat16.c reads
 them, link them into a chain, and what the driver's view of such a file is.
 */
module DiskImage {
  import opened CTypes
  import opened Options
  import opened Streamer
  import opened FatChain
  import opened FatRead

  /** The two bytes from which the code takes the table entry of a cluster spell n, the lower one first. */
  predicate TableHolds(v: Volume, cluster: uint16, n: uint16) {
    var p := ToInt32(1024 * (v.reservedSectors * cluster));
    v.disk.Byte(p) == n % 0x100 && v.disk.Byte(p + 1) == n / 0x100
  }

  predicate EndsChain(n: uint16) {
    n in {0, 0xFF0, 0xFF6, 0xFF7, 0xFF8, 0xFFF}
  }

  predicate LinkLaidOut(v: Volume, cs: seq<uint16>, i: nat)
    requires i + 1 < |cs|
  {
    TableHolds(v, cs[i], cs[i + 1]) && !EndsChain(cs[i + 1])
  }

  /** Each cluster's table entry names the next one, and the last one's ends the chain. */
  ghost predicate ChainLaidOut(v: Volume, cs: seq<uint16>) {
    && cs != []
    && (forall i | 0 <= i < |cs| - 1 :: LinkLaidOut(v, cs, i))
    && exists n :: TableHolds(v, cs[|cs| - 1], n) && EndsChain(n)
  }

  /** Byte j of the file stands in the j / z-th cluster, counted from cluster 2 at the start of the data sectors. */
  predicate ByteLaidOut(v: Volume, cs: seq<uint16>, contents: seq<uint8>, j: nat)
    requires v.Valid() && j < |contents|
  {
    var z: int := 512 * v.sectorsPerCluster;
    DivNonnegative(j, z);
    var k: int, o := j / z, j % z;
    k < |cs| && v.disk.Byte(512 * (v.dataSector + (cs[k] - 2) * v.sectorsPerCluster) + o) == contents[j]
  }

  /** The disk holds a file with these contents, up to the end of its last cluster. */
  ghost predicate LaidOut(v: Volume, cs: seq<uint16>, contents: seq<uint8>)
    requires v.Valid()
  {
    && cs != [] && ChainLaidOut(v, cs) && |contents| == 512 * v.sectorsPerCluster * |cs|
    && forall j | 0 <= j < |contents| :: ByteLaidOut(v, cs, contents, j)
  }

  lemma TableHoldsIff(v: Volume, cluster: uint16, n: uint16)
    ensures TableHolds(v, cluster, n) <==> v.FatEntry(cluster) == n
  {
    assert 512 * v.reservedSectors * (2 * cluster) == 1024 * (v.reservedSectors * cluster);
    FatEntryBytes(v, cluster);
  }

  /** The code follows the chain as it is laid out, and no further. */
  lemma {:induction false} ChainIsWalked(v: Volume, cs: seq<uint16>, k: nat)
    requires ChainLaidOut(v, cs)
    ensures ChainAt(v, cs[0], k) == if k < |cs| then Some(cs[k]) else None
    decreases k
  {
    hide Volume.FatEntry;
    hide TableHolds;
    if k > 0 {
      ChainIsWalked(v, cs, k - 1);
      if k < |cs| {
        assert LinkLaidOut(v, cs, k - 1);
        TableHoldsIff(v, cs[k - 1], cs[k]);
      } else if k == |cs| {
        var n :| TableHolds(v, cs[k - 1], n) && EndsChain(n);
        TableHoldsIff(v, cs[k - 1], n);
      }
    }
  }

  lemma QuotientBelow(j: nat, z: nat, n: nat)
    requires z > 0
    ensures j < z * n <==> j / z < n
  {
    var k := j / z;
    assert j == z * k + j % z;
    if k < n {
      MulLe(k + 1, n, z);
    } else {
      MulLe(n, k, z);
    }
  }

  /** The driver's view of the file is its contents: these bytes at these places, and none behind them. */
  lemma FileIsReadBackIff(v: Volume, cs: seq<uint16>, contents: seq<uint8>, j: nat, b: uint8)
    requires v.Valid() && LaidOut(v, cs, contents)
    ensures FileByteIs(v, cs[0], j, b) <==> j < |contents| && b == contents[j]
    ensures ChainAt(v, cs[0], v.ClusterIndex(j)).Some? <==> j < |contents|
  {
    hide ChainLaidOut;
    var z := 512 * v.sectorsPerCluster;
    ChainIsWalked(v, cs, v.ClusterIndex(j));
    QuotientBelow(j, z, |cs|);
    if j < |contents| {
      assert ByteLaidOut(v, cs, contents, j);
    }
  }

  /** Every file whose chain ends after n clusters is laid out like this. */
  lemma EveryFileIsLaidOut(v: Volume, c: uint16, n: nat) returns (cs: seq<uint16>, contents: seq<uint8>)
    requires v.Valid() && n > 0 && ChainAt(v, c, n - 1).Some? && ChainAt(v, c, n) == None
    ensures LaidOut(v, cs, contents) && |cs| == n && cs[0] == c
  {
    hide ByteLaidOut;
    hide ChainLaidOut;
    hide ByteOf;
    var z: int := 512 * v.sectorsPerCluster;
    cs := ClustersOf(v, c, n);
    assert ChainAt(v, c, 0) == Some(cs[0]);
    ClustersAreLinked(v, c, cs, n);
    MulLe(0, z, n);
    contents := seq(z * n, j requires 0 <= j => ByteOf(v, cs, j));
    forall j | 0 <= j < |contents| ensures ByteLaidOut(v, cs, contents, j) {
      assert contents[j] == ByteOf(v, cs, j);
      ByteIsLaidOut(v, cs, contents, j);
    }
  }

  lemma ClustersAreLinked(v: Volume, c: uint16, cs: seq<uint16>, n: nat)
    requires n > 0 && LinksAre(v, c, cs, n) && ChainAt(v, c, n) == None
    ensures ChainLaidOut(v, cs)
  {
    hide Volume.FatEntry;
    hide TableHolds;
    forall i | 0 <= i < n - 1 ensures LinkLaidOut(v, cs, i) {
      assert ChainAt(v, c, i) == Some(cs[i]) && ChainAt(v, c, i + 1) == Some(cs[i + 1]);
      TableHoldsIff(v, cs[i], cs[i + 1]);
    }
    assert ChainAt(v, c, n - 1) == Some(cs[n - 1]);
    TableHoldsIff(v, cs[n - 1], v.FatEntry(cs[n - 1]));
    assert EndsChain(v.FatEntry(cs[n - 1]));
  }

  lemma ByteIsLaidOut(v: Volume, cs: seq<uint16>, contents: seq<uint8>, j: nat)
    requires v.Valid() && j < |contents| && |contents| == 512 * v.sectorsPerCluster * |cs|
    requires contents[j] == ByteOf(v, cs, j)
    ensures ByteLaidOut(v, cs, contents, j)
  {
    QuotientBelow(j, 512 * v.sectorsPerCluster, |cs|);
  }

  ghost predicate LinksAre(v: Volume, c: uint16, cs: seq<uint16>, n: nat) {
    |cs| == n && forall i | 0 <= i < n :: ChainAt(v, c, i) == Some(cs[i])
  }

  lemma {:induction false} ClustersOf(v: Volume, c: uint16, n: nat) returns (cs: seq<uint16>)
    requires n > 0 && ChainAt(v, c, n - 1).Some?
    ensures LinksAre(v, c, cs, n)
    decreases n
  {
    if n == 1 {
      cs := [c];
    } else {
      ChainEndsLater(v, c, n - 2);
      cs := ClustersOf(v, c, n - 1);
      cs := cs + [ChainAt(v, c, n - 1).value];
    }
  }

  lemma ChainEndsLater(v: Volume, c: uint16, k: nat)
    ensures ChainAt(v, c, k + 1).Some? ==> ChainAt(v, c, k).Some?
  {
  }

  /** Byte j of the clusters, one after the other. */
  function ByteOf(v: Volume, cs: seq<uint16>, j: nat): uint8
    requires v.Valid()
  {
    var k := v.ClusterIndex(j);
    if k < |cs| then v.disk.Byte(v.ClusterPosition(cs[k]) + v.InCluster(j)) else 0
  }

  /** Bytes 05 00 lead from cluster 3 to cluster 5: there the file goes on. */
  lemma TwoClustersExample(v: Volume)
    requires v.Valid() && v.reservedSectors == 1 && v.disk.Byte(3072) == 5 && v.disk.Byte(3073) == 0
    ensures ChainAt(v, 3, 1) == Some(5)
    ensures FilePosition(v, 3, 512 * v.sectorsPerCluster) == Some(512 * (v.dataSector + 3 * v.sectorsPerCluster))
  {
    TableHoldsIff(v, 3, 5);
    assert ChainAt(v, 3, 0) == Some(3);
    DivUnique(v.ClusterBytes(), v.ClusterBytes(), 1, 0);
  }
}
