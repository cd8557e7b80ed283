/**
 The reading functions of src/fs/fat/fat16.c over its disk streams, tied to the
 plans of FatRead.
 */
module Fat16 {
  import opened CTypes
  import opened Options
  import opened Streamer
  import opened FatChain
  import opened FatRead

  class Fat16 {
    const volume: Volume
    const fatStream: DiskStream
    const dataStream: DiskStream
    const directoryStream: DiskStream

    ghost predicate Valid() {
      && volume.Valid()
      && fatStream != dataStream && fatStream != directoryStream && dataStream != directoryStream
      && fatStream.disk == volume.disk && dataStream.disk == volume.disk && directoryStream.disk == volume.disk
    }

    constructor (volume: Volume)
      requires volume.Valid()
      ensures this.volume == volume && Valid()
      ensures fresh(fatStream) && fresh(dataStream) && fresh(directoryStream)
    {
      this.volume := volume;
      fatStream := new DiskStream(volume.disk);
      dataStream := new DiskStream(volume.disk);
      directoryStream := new DiskStream(volume.disk);
    }

    method GetFatEntry(cluster: uint16) returns (res: int32)
      requires Valid()
      modifies fatStream
      ensures res == volume.FatEntry(cluster)
      ensures var p := volume.FatEntryPosition(cluster);
        res % 0x100 == volume.disk.Byte(p) && res / 0x100 == volume.disk.Byte(p + 1)
    {
      hide Volume.FatEntryPosition;
      var entry := new uint8[2];
      var pos := volume.FatEntryPosition(cluster);
      FatEntryPositionIsAligned(volume, cluster);
      StreamReadRightIff(pos, 2);
      var _ := fatStream.Seek(pos);
      var _ := fatStream.Read(entry, 0, 2);
      TwoBytes(volume.disk, entry[..], pos);
      var low: int, high: int := entry[0], entry[1];
      res := low + 256 * high;
    }

    /** Follows offset / cluster size links from the head of the chain. */
    method GetClusterForOffset(startingCluster: uint16, offset: nat) returns (res: int32)
      requires Valid()
      modifies fatStream
      ensures res == match ChainAt(volume, startingCluster, volume.ClusterIndex(offset))
        case Some(x) => x as int
        case None => -EIO
    {
      var cluster := startingCluster;
      var clustersAhead := volume.ClusterIndex(offset);
      for i := 0 to clustersAhead
        invariant ChainAt(volume, startingCluster, i) == Some(cluster)
      {
        var entry := GetFatEntry(cluster);
        if IsStop(entry) {
          ChainStaysEnded(volume, startingCluster, i + 1, clustersAhead);
          return -EIO;
        }
        cluster := entry;
      }
      res := cluster;
    }

    /** fat16_read_internal_from_stream on the cluster stream. */
    method ReadInternal(cluster: uint16, offset: nat, total: int32, out: array<uint8>, at: nat) returns (res: int32)
      requires Valid() && at + (if total > 0 then total else 0) <= out.Length
      requires OnDiskUpTo(volume, cluster, LastLink(volume, offset, total))
      modifies fatStream, dataStream, out
      ensures var plan := ClusterPlan(volume, cluster, offset, total);
        && res == (if plan.ok then 0 else -EIO)
        && Delivered(volume.disk, out[..], at, plan.sources)
        && SameAround(old(out[..]), out[..], at, |plan.sources|)
      decreases total
    {
      hide LastLink;
      hide StreamPlan;
      hide SameAround;
      hide Delivered;
      hide Volume.ClusterBytes;
      hide Volume.InCluster;
      hide ClusterPlan;
      hide Volume.ClusterIndex;
      hide Volume.ClusterPosition;
      ghost var was := out[..];
      NothingDelivered(volume.disk, was, at);
      PlanTurn(volume, cluster, offset, total);
      var clusterToUse := GetClusterForOffset(cluster, offset);
      if clusterToUse < 0 {
        return clusterToUse;
      }
      var startingPos := volume.ClusterPosition(clusterToUse) + volume.InCluster(offset);
      var n := ChunkLength(volume, total);
      LastLinkSteps(volume, offset, total);
      StreamPlanLength(startingPos, n);
      res := dataStream.Seek(startingPos);
      res := dataStream.Read(out, at, n);
      if total > n {
        ghost var mid := out[..];
        ghost var rest := ClusterPlan(volume, cluster, offset + n, total - n);
        res := ReadInternal(cluster, offset + n, total - n, out, at + n);
        DeliveredTwice(volume.disk, was, mid, out[..], at, StreamPlan(startingPos, n), rest.sources);
      }
    }
  }

  lemma NothingDelivered(disk: Disk, s: seq<uint8>, at: nat)
    requires at <= |s|
    ensures Delivered(disk, s, at, []) && SameAround(s, s, at, 0)
  {
  }

  lemma TwoBytes(disk: Disk, entry: seq<uint8>, pos: int)
    requires |entry| == 2 && StreamPlan(pos, 2) == Consecutive(pos, 2)
    requires Delivered(disk, entry, 0, StreamPlan(pos, 2))
    ensures entry[0] == disk.Byte(pos) && entry[1] == disk.Byte(pos + 1)
  {
    var plan := Consecutive(pos, 2);
    assert plan[0] == OnDisk(pos) && plan[1] == OnDisk(pos + 1);
    assert entry[0 + 0] == disk.Byte(pos) && entry[0 + 1] == disk.Byte(pos + 1);
  }
}
