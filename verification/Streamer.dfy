/**
 src/disk/streamer.c over an immutable disk of 512-byte sectors.

 A read is described by its plan: for each byte delivered, where it was copied
 from. The plan is what decides whether a read is right; the contents follow.
 */
module Streamer {
  import opened CTypes

  type Sector = s: seq<uint8> | |s| == 512 witness seq(512, i => 0)

  /** The sector at every block address. */
  datatype Disk = Disk(sectors: int -> Sector) {
    function Byte(pos: int): uint8 {
      sectors(pos / 512)[pos % 512]
    }
  }

  lemma ByteOfSector(d: Disk, lba: int, i: nat)
    requires i < 512
    ensures d.Byte(512 * lba + i) == d.sectors(lba)[i]
  {
  }

  /** A byte comes from a position on the disk, or from memory behind the 512-byte sector buffer. */
  datatype Source = OnDisk(pos: int) | BehindBuffer

  /** The plan of a right read: consecutive disk positions. */
  function Consecutive(pos: int, total: nat): seq<Source> {
    seq(total, i => OnDisk(pos + i))
  }

  /** One sector's copy: n bytes from place pos % 512 of the sector buffer on. */
  function SectorPlan(pos: int, n: nat): seq<Source> {
    seq(n, i requires 0 <= i => if pos % 512 + i < 512 then OnDisk(pos + i) else BehindBuffer)
  }

  /** What diskstreamer_read delivers for `total` bytes at `pos`. */
  function StreamPlan(pos: int, total: int): (plan: seq<Source>)
    decreases total
  {
    if total > 512 then SectorPlan(pos, 512) + StreamPlan(pos + 512, total - 512)
    else SectorPlan(pos, if total > 0 then total else 0)
  }

  /** The first sector's share of the read ends inside that sector. */
  predicate SectorAligned(pos: int, total: int) {
    pos % 512 + (if total >= 512 then 512 else total) <= 512
  }

  lemma NextSector(pos: int)
    ensures (pos + 512) % 512 == pos % 512
  {
  }

  /** Byte i of the result: right exactly when its place in its own sector's copy fits that sector. */
  lemma {:induction false} StreamPlanAt(pos: int, total: int, i: nat)
    requires i < total
    ensures |StreamPlan(pos, total)| == total
    ensures StreamPlan(pos, total)[i] == if pos % 512 + i % 512 < 512 then OnDisk(pos + i) else BehindBuffer
    decreases total
  {
    if total > 512 {
      var j := if i >= 512 then i - 512 else 0;
      NextSector(pos);
      NextSector(j);
      StreamPlanAt(pos + 512, total - 512, j);
      var rest := StreamPlan(pos + 512, total - 512);
      assert StreamPlan(pos, total) == SectorPlan(pos, 512) + rest;
      if i >= 512 {
        assert StreamPlan(pos, total)[i] == rest[j];
      } else {
        assert i % 512 == i;
      }
    } else if i < 512 {
      assert i % 512 == i;
    }
  }

  lemma StreamPlanLength(pos: int, total: int)
    ensures |StreamPlan(pos, total)| == if total > 0 then total else 0
  {
    if total > 0 {
      StreamPlanAt(pos, total, 0);
    }
  }

  /** A stream read delivers the consecutive bytes of the disk exactly when it is sector-aligned. */
  lemma StreamReadRightIff(pos: int, total: nat)
    ensures StreamPlan(pos, total) == Consecutive(pos, total) <==> SectorAligned(pos, total)
  {
    StreamPlanLength(pos, total);
    if SectorAligned(pos, total) {
      forall i | 0 <= i < total ensures StreamPlan(pos, total)[i] == OnDisk(pos + i) {
        StreamPlanAt(pos, total, i);
      }
    } else {
      var i := 512 - pos % 512;
      StreamPlanAt(pos, total, i);
      assert Consecutive(pos, total)[i] == OnDisk(pos + i);
    }
  }

  /** Every byte of `plan` that comes from the disk is in `out` from index `at` on. */
  ghost predicate Delivered(disk: Disk, out: seq<uint8>, at: nat, plan: seq<Source>) {
    && at + |plan| <= |out|
    && forall i | 0 <= i < |plan| && plan[i].OnDisk? :: out[at + i] == disk.Byte(plan[i].pos)
  }

  /** `out` and `was` agree outside the n places from `at`. */
  ghost predicate SameAround(was: seq<uint8>, out: seq<uint8>, at: nat, n: nat) {
    && |was| == |out|
    && forall i | 0 <= i < |out| && !(at <= i < at + n) :: out[i] == was[i]
  }

  lemma DeliveredTwice(disk: Disk, was: seq<uint8>, mid: seq<uint8>, out: seq<uint8>, at: nat,
                       p: seq<Source>, q: seq<Source>)
    requires Delivered(disk, mid, at, p) && SameAround(was, mid, at, |p|)
    requires Delivered(disk, out, at + |p|, q) && SameAround(mid, out, at + |p|, |q|)
    ensures Delivered(disk, out, at, p + q) && SameAround(was, out, at, |p + q|)
  {
    var plan := p + q;
    forall i | 0 <= i < |plan| && plan[i].OnDisk? ensures out[at + i] == disk.Byte(plan[i].pos) {
      if i < |p| {
        assert out[at + i] == mid[at + i];
      } else {
        assert plan[i] == q[i - |p|];
        assert out[at + |p| + (i - |p|)] == disk.Byte(q[i - |p|].pos);
      }
    }
  }

  class DiskStream {
    const disk: Disk
    var pos: int32

    constructor (disk: Disk)
      ensures this.disk == disk && pos == 0
    {
      this.disk := disk;
      pos := 0;
    }

    method Seek(pos: int32) returns (res: int32)
      modifies this
      ensures res == 0 && this.pos == pos
    {
      this.pos := pos;
      res := 0;
    }

    /** disk_read_block of one sector into the front of buf. */
    method ReadBlock(lba: int, buf: array<uint8>)
      requires buf.Length >= 512
      modifies buf
      ensures buf[..512] == disk.sectors(lba)
      ensures buf[512..] == old(buf[512..])
    {
      var sector := disk.sectors(lba);
      for i := 0 to 512
        invariant buf[..i] == sector[..i]
        invariant buf[512..] == old(buf[512..])
      {
        buf[i] := sector[i];
      }
    }

    /**
     The sector at the stream's position, read into a 512-byte buffer, and the copy
     out of it. The copy starts at the position's place in the sector and can run
     past the buffer's end: buf is that buffer with the memory behind it.
     */
    method CopyFromSector(out: array<uint8>, at: nat, n: int)
      requires pos >= 0 || pos % 512 == 0
      requires n <= 512 && at + (if n > 0 then n else 0) <= out.Length
      modifies out
      ensures Delivered(disk, out[..], at, SectorPlan(pos, if n > 0 then n else 0))
      ensures SameAround(old(out[..]), out[..], at, if n > 0 then n else 0)
    {
      ghost var was := out[..];
      var sector, offset := CDiv(pos, 512), CMod(pos, 512);
      assert sector == pos / 512 && offset == pos % 512;
      var buf := new uint8[1024];
      ReadBlock(sector, buf);
      assert forall j | 0 <= j < 512 :: buf[j] == disk.sectors(sector)[j] by {
        assert forall j | 0 <= j < 512 :: buf[..512][j] == buf[j];
      }
      var i := 0;
      while i < n
        invariant 0 <= i && (n >= 0 ==> i <= n) && (n < 0 ==> i == 0)
        invariant forall j | 0 <= j < 512 :: buf[j] == disk.sectors(sector)[j]
        invariant forall j | at <= j < at + i :: out[j] == buf[offset + j - at]
        invariant SameAround(was, out[..], at, i)
      {
        out[at + i] := buf[offset + i];
        i := i + 1;
      }
      if n > 0 {
        ghost var plan := SectorPlan(pos, n);
        forall j | 0 <= j < |plan| && plan[j].OnDisk? ensures out[..][at + j] == disk.Byte(plan[j].pos) {
          SameSector(pos, j);
        }
      }
    }

    method Read(out: array<uint8>, at: nat, total: int) returns (res: int32)
      requires pos >= 0 || pos % 512 == 0
      requires at + (if total > 0 then total else 0) <= out.Length
      requires -0x8000_0000 <= pos + total < 0x8000_0000
      modifies this, out
      ensures res == 0 && pos == old(pos) + total
      ensures Delivered(disk, out[..], at, StreamPlan(old(pos), total))
      ensures SameAround(old(out[..]), out[..], at, if total > 0 then total else 0)
      decreases total
    {
      ghost var start, was := pos, out[..];
      var n := if total >= 512 then 512 else total;
      CopyFromSector(out, at, n);
      pos := pos + n;
      res := 0;
      if total > 512 {
        ghost var mid := out[..];
        NextSector(start);
        StreamPlanLength(start + 512, total - 512);
        res := Read(out, at + 512, total - 512);
        DeliveredTwice(disk, was, mid, out[..], at, SectorPlan(start, 512), StreamPlan(start + 512, total - 512));
      }
    }
  }

  lemma SameSector(pos: int, j: nat)
    requires pos % 512 + j < 512
    ensures (pos + j) / 512 == pos / 512 && (pos + j) % 512 == pos % 512 + j
  {
    DivUnique(pos + j, 512, pos / 512, pos % 512 + j);
  }
}
