/**
 The entry points of src/fs/file.c that read and move in an open file, with the
 driver functions of src/fs/fat/fat16.c they lead to.
 */
module File {
  import opened CTypes
  import opened Streamer
  import opened FatChain
  import opened FatRead
  import opened FileRead
  import opened DiskImage
  import F = Fat16

  const MAX_DESCRIPTORS: nat := 512

  const SEEK_SET: uint32 := 0
  const SEEK_CUR: uint32 := 1
  const SEEK_END: uint32 := 2

  // ----- Seeking

  /** fat16_seek on a file: the result and the new position. */
  function Seek(filesize: uint32, pos: uint32, offset: uint32, whence: uint32): (int32, uint32) {
    if whence == SEEK_SET then
      if offset >= filesize then (-EIO, pos) else (0, offset)
    else if whence == SEEK_END then
      (-EUNIMP, pos)
    else if whence == SEEK_CUR then
      if ToUint32(pos + offset) >= filesize then (-EIO, pos) else (0, ToUint32(pos + offset))
    else
      (-EINVARG, pos)
  }

  /** Where fseek is asked to go: its offset is signed and reaches the driver as unsigned. */
  function Target(pos: uint32, offset: int32, whence: uint32): int {
    if whence == SEEK_CUR then pos + offset else offset
  }

  /** The call succeeds exactly when its target lies in the file, and then goes there. */
  predicate SeekIsRight(filesize: uint32, pos: uint32, offset: int32, whence: uint32) {
    var (res, pos') := Seek(filesize, pos, ToUint32(offset), whence);
    var target := Target(pos, offset, whence);
    if 0 <= target < filesize then res == 0 && pos' == target else res == -EIO && pos' == pos
  }

  predicate InFile(filesize: uint32, pos: uint32) {
    pos == 0 || pos < filesize
  }

  lemma SmallFileSeekIsRight(filesize: uint32, pos: uint32, offset: int32, whence: uint32)
    requires filesize <= 0x8000_0000 && InFile(filesize, pos) && (whence == SEEK_SET || whence == SEEK_CUR)
    ensures SeekIsRight(filesize, pos, offset, whence)
  {
    if offset < 0 {
      assert ToUint32(offset) == offset + 0x1_0000_0000;
      if whence == SEEK_CUR && pos + offset < 0 {
        assert ToUint32(pos + ToUint32(offset)) == pos + offset + 0x1_0000_0000;
      }
    }
  }

  /** Seeking is right from every position and for every signed offset exactly for files up to 2 GiB. */
  lemma SeekRightIff(filesize: uint32)
    ensures (forall pos: uint32, offset: int32, whence: uint32 ::
        InFile(filesize, pos) && (whence == SEEK_SET || whence == SEEK_CUR) ==>
        SeekIsRight(filesize, pos, offset, whence))
      <==> filesize <= 0x8000_0000
  {
    if filesize <= 0x8000_0000 {
      forall pos: uint32, offset: int32, whence: uint32 |
        InFile(filesize, pos) && (whence == SEEK_SET || whence == SEEK_CUR)
        ensures SeekIsRight(filesize, pos, offset, whence)
      {
        SmallFileSeekIsRight(filesize, pos, offset, whence);
      }
    } else {
      var pos: uint32, offset: int32 := 0, -0x8000_0000;
      assert ToUint32(offset) == 0x8000_0000;
      assert InFile(filesize, pos) && !SeekIsRight(filesize, pos, offset, SEEK_SET);
    }
  }

  /**
   What a seek does for every file and all arguments. In the modes for "from the start" (0)
   and "from here" (1) it goes to the one position in the file that is the target modulo
   2^32, and fails with -1 where there is none; mode 2 is refused with -7, any other with -2.
   */
  lemma SeekGoesTo(filesize: uint32, pos: uint32, offset: int32, whence: uint32, res: int, pos': int)
    requires (res, pos') == Seek(filesize, pos, ToUint32(offset), whence)
    ensures whence <= 1 ==>
      var target := if whence == 0 then offset as int else pos + offset;
      if exists p :: IsWrapOf(p, target, filesize) then res == 0 && IsWrapOf(pos', target, filesize)
      else res == -1 && pos' == pos
    ensures whence > 1 ==> res == (if whence == 2 then -7 else -2) && pos' == pos
  {
    hide ToUint32;
    hide IsWrapOf;
    WrapIs(offset, filesize);
    WrapIs(pos + offset, filesize);
    OffsetWraps(pos, offset);
  }

  lemma WrapIs(target: int, filesize: uint32)
    ensures (exists p :: IsWrapOf(p, target, filesize)) <==> ToUint32(target) < filesize
    ensures ToUint32(target) < filesize ==> IsWrapOf(ToUint32(target), target, filesize)
  {
    var to := ToUint32(target);
    if p :| IsWrapOf(p, target, filesize) {
      DivUnique(target, 0x1_0000_0000, -((p - target) / 0x1_0000_0000), p);
    }
    DivUnique(to - target, 0x1_0000_0000, -(target / 0x1_0000_0000), 0);
    if to < filesize {
      assert IsWrapOf(to, target, filesize);
    }
  }

  lemma OffsetWraps(pos: uint32, offset: int32)
    ensures ToUint32(pos + ToUint32(offset)) == ToUint32(pos + offset)
  {
    if offset < 0 {
      DivUnique(offset, 0x1_0000_0000, -1, offset + 0x1_0000_0000);
      DivUnique(pos + offset + 0x1_0000_0000, 0x1_0000_0000, (pos + offset) / 0x1_0000_0000 + 1,
                (pos + offset) % 0x1_0000_0000);
    }
  }

  predicate IsWrapOf(p: int, target: int, filesize: uint32) {
    0 <= p < filesize && (p - target) % 0x1_0000_0000 == 0
  }

  datatype SeekCall = SeekCall(offset: int32, whence: uint32)

  /** The position after a run of fseek calls on one file. */
  function PositionAfter(filesize: uint32, pos: uint32, calls: seq<SeekCall>): uint32
    decreases |calls|
  {
    if calls == [] then pos
    else
      var c := calls[0];
      PositionAfter(filesize, Seek(filesize, pos, ToUint32(c.offset), c.whence).1, calls[1..])
  }

  /** No run of seeks, whatever their offsets and modes, leaves the file. */
  lemma {:induction false} SeeksStayInFile(filesize: uint32, pos: uint32, calls: seq<SeekCall>)
    requires InFile(filesize, pos)
    ensures InFile(filesize, PositionAfter(filesize, pos, calls))
    decreases |calls|
  {
    if calls != [] {
      var c := calls[0];
      SeeksStayInFile(filesize, Seek(filesize, pos, ToUint32(c.offset), c.whence).1, calls[1..]);
    }
  }

  // ----- Open files

  /** Every cluster that n bytes of the file from pos on lie in is at positions that an int can hold. */
  ghost predicate ReadOnDisk(v: Volume, c: uint16, pos: nat, n: int)
    requires v.Valid()
  {
    n > 0 ==> OnDiskUpTo(v, c, v.ClusterIndex(pos + n - 1))
  }

  /** An open file or directory: the driver's descriptor with the fields of its directory entry. */
  class Descriptor {
    const isFile: bool
    const firstCluster: uint16
    const filesize: uint32
    var pos: uint32

    constructor (isFile: bool, firstCluster: uint16, filesize: uint32)
      ensures this.isFile == isFile && this.firstCluster == firstCluster && this.filesize == filesize && pos == 0
    {
      this.isFile := isFile;
      this.firstCluster := firstCluster;
      this.filesize := filesize;
      pos := 0;
    }

    method Fat16Seek(offset: uint32, whence: uint32) returns (res: int32)
      modifies this
      ensures !isFile ==> res == -EINVARG && pos == old(pos)
      ensures isFile ==> (res, pos) == Seek(filesize, old(pos), offset, whence)
    {
      res := 0;
      if !isFile {
        return -EINVARG;
      }
      if whence == SEEK_SET {
        if offset >= filesize {
          return -EIO;
        }
        pos := offset;
      } else if whence == SEEK_END {
        res := -EUNIMP;
      } else if whence == SEEK_CUR {
        if ToUint32(pos + offset) >= filesize {
          return -EIO;
        }
        pos := ToUint32(pos + offset);
      } else {
        res := -EINVARG;
      }
    }

    /** fat16_read: nmemb reads of `size` bytes; the descriptor's own position stays where it is. */
    method Fat16Read(fs: F.Fat16, size: uint32, nmemb: uint32, out: array<uint8>) returns (res: int32)
      requires fs.Valid() && size > 0
      requires pos + nmemb * size < 0x8000_0000 && nmemb * size <= out.Length
      requires ReadOnDisk(fs.volume, firstCluster, pos, nmemb * size)
      modifies fs.fatStream, fs.dataStream, out
      ensures var plan := ItemsPlan(fs.volume, firstCluster, pos, size, nmemb);
        && res == (if plan.ok then nmemb as int else -EIO)
        && Delivered(fs.volume.disk, out[..], 0, plan.sources)
        && SameAround(old(out[..]), out[..], 0, |plan.sources|)
    {
      hide Delivered;
      hide SameAround;
      hide OnDiskUpTo;
      hide ClusterPlan;
      hide LastLink;
      hide Volume.ClusterIndex;
      ghost var v, was := fs.volume, out[..];
      var offset, at: nat := pos, 0;
      res := 0;
      F.NothingDelivered(v.disk, was, 0);
      for i := 0 to nmemb
        invariant at == i * size && offset == pos + at
        invariant ItemsPlan(v, firstCluster, pos, size, i).ok
        invariant Delivered(v.disk, out[..], 0, ItemsPlan(v, firstCluster, pos, size, i).sources)
        invariant SameAround(was, out[..], 0, at)
      {
        ghost var mid, before := out[..], ItemsPlan(v, firstCluster, pos, size, i);
        ItemsLength(v, firstCluster, pos, size, i);
        ItemWithin(v, firstCluster, pos, size, nmemb, i);
        res := fs.ReadInternal(firstCluster, offset, size, out, at);
        DeliveredTwice(v.disk, was, mid, out[..], 0, before.sources,
          ClusterPlan(v, firstCluster, offset, size).sources);
        if res < 0 {
          ItemsStayFailed(v, firstCluster, pos, size, i + 1, nmemb);
          return;
        }
        at := at + size;
        offset := offset + size;
        ItemsLength(v, firstCluster, pos, size, i + 1);
      }
      ItemsLength(v, firstCluster, pos, size, nmemb);
      CountFits(nmemb, size);
      res := nmemb;
    }
  }

  /** Item i of n ends inside the whole read, on the disk and in the buffer. */
  lemma ItemWithin(v: Volume, c: uint16, pos: nat, size: nat, n: nat, i: nat)
    requires v.Valid() && size > 0 && i < n
    requires ReadOnDisk(v, c, pos, n * size)
    ensures i * size + size <= n * size && (i + 1) * size == i * size + size && 0 <= i * size
    ensures OnDiskUpTo(v, c, LastLink(v, pos + i * size, size))
  {
    MulLe(i + 1, n, size);
    LastLinkBound(v, pos + i * size, size);
    LinksInOrder(v, pos + i * size + size - 1, pos + n * size - 1);
  }

  lemma CountFits(n: nat, size: nat)
    requires size > 0
    ensures n <= n * size
  {
    MulLe(1, size, n);
  }

  lemma LastLinkBound(v: Volume, offset: nat, total: nat)
    requires v.Valid() && total > 0
    ensures LastLink(v, offset, total) <= v.ClusterIndex(offset + total - 1)
  {
    var z := v.ClusterBytes();
    var k, e := v.ClusterIndex(offset), v.ClusterIndex(total - 1);
    assert z * (k + e) == z * k + z * e <= offset + total - 1;
    DivUnique(z * (k + e), z, k + e, 0);
    DivMonotone(z * (k + e), offset + total - 1, z);
  }

  // ----- fread and fseek

  /** The file's chain reaches the cluster that byte `offset` lies in. */
  predicate ReachesByte(v: Volume, c: uint16, offset: int)
    requires v.Valid()
  {
    offset >= 0 && ChainAt(v, c, v.ClusterIndex(offset)).Some?
  }

  /** The first n bytes of `out` are the bytes of the file from pos on. */
  ghost predicate HoldsFile(v: Volume, c: uint16, pos: nat, out: seq<uint8>, n: nat)
    requires v.Valid()
  {
    n <= |out| && forall i | 0 <= i < n :: FileByteIs(v, c, pos + i, out[i])
  }

  /** For a file laid out on the disk, the buffer holds its bytes exactly when it holds these. */
  lemma HoldsContentsIff(v: Volume, cs: seq<uint16>, contents: seq<uint8>, pos: nat, out: seq<uint8>, n: nat)
    requires v.Valid() && LaidOut(v, cs, contents)
    ensures n > 0 ==>
      (HoldsFile(v, cs[0], pos, out, n) <==>
       n <= |out| && pos + n <= |contents| && out[..n] == contents[pos..pos + n])
    ensures n > 0 ==> (ReachesByte(v, cs[0], pos + n - 1) <==> pos + n <= |contents|)
  {
    hide FileByteIs;
    hide ChainLaidOut;
    hide ByteLaidOut;
    if n > 0 {
      forall i | 0 <= i < n && n <= |out|
        ensures FileByteIs(v, cs[0], pos + i, out[i]) <==> pos + i < |contents| && out[i] == contents[pos + i]
      {
        FileIsReadBackIff(v, cs, contents, pos + i, out[i]);
      }
      FileIsReadBackIff(v, cs, contents, pos + n - 1, 0);
      if n <= |out| && HoldsFile(v, cs[0], pos, out, n) {
        assert FileByteIs(v, cs[0], pos + (n - 1), out[n - 1]);
        assert out[..n] == contents[pos..pos + n];
      }
      if n <= |out| && pos + n <= |contents| && out[..n] == contents[pos..pos + n] {
        assert forall i | 0 <= i < n :: out[..n][i] == contents[pos..pos + n][i];
      }
    }
  }

  /** What a read of n bytes from pos on does, whatever file it is that starts at the cluster. */
  ghost predicate ReadsContents(v: Volume, c: uint16, pos: nat, out: seq<uint8>, n: nat, ok: bool)
    requires v.Valid()
  {
    forall cs, contents | LaidOut(v, cs, contents) && cs[0] == c ::
      (ok <==> pos + n <= |contents|) && (ok ==> n <= |out| && out[..n] == contents[pos..pos + n])
  }

  lemma HeldIsRead(v: Volume, c: uint16, pos: nat, out: seq<uint8>, n: nat, ok: bool)
    requires v.Valid() && n > 0 && (ok <==> ReachesByte(v, c, pos + n - 1)) && (ok ==> HoldsFile(v, c, pos, out, n))
    ensures ReadsContents(v, c, pos, out, n, ok)
  {
    hide HoldsFile;
    hide ReachesByte;
    hide ChainLaidOut;
    hide ByteLaidOut;
    forall cs, contents | LaidOut(v, cs, contents) && cs[0] == c
      ensures (ok <==> pos + n <= |contents|) && (ok ==> n <= |out| && out[..n] == contents[pos..pos + n])
    {
      HoldsContentsIff(v, cs, contents, pos, out, n);
    }
  }

  lemma DeliveredSlice(v: Volume, c: uint16, pos: nat, out: seq<uint8>, sources: seq<Source>)
    requires v.Valid() && Delivered(v.disk, out, 0, sources) && IsFileSlice(v, c, pos, sources)
    ensures HoldsFile(v, c, pos, out, |sources|)
  {
    forall i | 0 <= i < |sources| ensures FileByteIs(v, c, pos + i, out[i]) {
      assert IsFileByte(v, c, pos + i, sources[i]);
      assert sources[i].OnDisk? ==> out[0 + i] == v.disk.Byte(sources[i].pos);
    }
  }

  class Files {
    const fs: F.Fat16
    const descriptors: array<Descriptor?>

    constructor (fs: F.Fat16)
      ensures this.fs == fs && fresh(descriptors) && descriptors.Length == MAX_DESCRIPTORS
      ensures forall i | 0 <= i < descriptors.Length :: descriptors[i] == null
    {
      this.fs := fs;
      descriptors := new Descriptor?[MAX_DESCRIPTORS](i => null);
    }

    /** file_get_descriptor: descriptors are numbered from 1; the last slot's number is refused. */
    function GetDescriptor(fd: int32): (d: Descriptor?)
      requires descriptors.Length == MAX_DESCRIPTORS
      reads descriptors
      ensures d != null <==> 1 <= fd <= 511 && descriptors[fd - 1] != null
    {
      if fd <= 0 || fd >= MAX_DESCRIPTORS then null else descriptors[fd - 1]
    }

    method Fseek(fd: int32, offset: int32, whence: uint32) returns (res: int32)
      requires descriptors.Length == MAX_DESCRIPTORS
      modifies GetDescriptor(fd)
      ensures GetDescriptor(fd) == null ==> res == -EIO
      ensures var d := GetDescriptor(fd); d != null ==>
        if d.isFile then (res, d.pos) == Seek(d.filesize, old(d.pos), ToUint32(offset), whence)
        else res == -EINVARG && d.pos == old(d.pos)
    {
      var desc := GetDescriptor(fd);
      if desc == null {
        return -EIO;
      }
      res := desc.Fat16Seek(ToUint32(offset), whence);
    }

    /** The whole read lies at positions an int can hold, and the caller's buffer has room for it. */
    ghost predicate CanRead(d: Descriptor, size: uint32, nmemb: uint32, length: nat)
      requires fs.Valid()
      reads d
    {
      && d.pos + nmemb * size < 0x8000_0000 && nmemb * size <= length && 0 <= nmemb * size
      && ReadOnDisk(fs.volume, d.firstCluster, d.pos, nmemb * size)
    }

    /**
     fread. For a tiling item size at a multiple of it: nmemb is returned exactly when
     the chain reaches the last byte asked for, the buffer then holds the file's bytes
     from the descriptor's position on, and nothing behind them in the buffer changes.
     */
    method Fread(out: array<uint8>, size: uint32, nmemb: uint32, fd: int32) returns (res: int32)
      requires fs.Valid() && descriptors.Length == MAX_DESCRIPTORS
      requires GetDescriptor(fd) != null && size > 0 && nmemb > 0 ==>
        CanRead(GetDescriptor(fd), size, nmemb, out.Length)
      modifies fs.fatStream, fs.dataStream, out
      ensures size == 0 || nmemb == 0 || old(GetDescriptor(fd)) == null ==>
        res == -EINVARG && out[..] == old(out[..])
      ensures var d := old(GetDescriptor(fd));
        d != null && size > 0 && nmemb > 0 ==>
          var plan := ItemsPlan(fs.volume, d.firstCluster, d.pos, size, nmemb);
          && res == (if plan.ok then nmemb as int else -EIO)
          && Delivered(fs.volume.disk, out[..], 0, plan.sources)
          && SameAround(old(out[..]), out[..], 0, |plan.sources|)
      ensures var d := old(GetDescriptor(fd));
        d != null && size > 0 && nmemb > 0 && TilingSize(fs.volume, size) && d.pos % size == 0 ==>
          var n := nmemb * size;
          && (res == nmemb <==> ReachesByte(fs.volume, d.firstCluster, d.pos + n - 1))
          && (res >= 0 ==> HoldsFile(fs.volume, d.firstCluster, d.pos, out[..], n))
          && ReadsContents(fs.volume, d.firstCluster, d.pos, out[..], n, res == nmemb)
    {
      hide Delivered;
      hide IsFileSlice;
      hide HoldsFile;
      hide ReadsContents;
      hide TilingSize;
      hide Volume.ClusterIndex;
      hide ItemsPlan;
      hide OnDiskUpTo;
      if size == 0 || nmemb == 0 || fd < 1 {
        return -EINVARG;
      }
      var desc := GetDescriptor(fd);
      if desc == null {
        return -EINVARG;
      }
      res := desc.Fat16Read(fs, size, nmemb, out);
      ghost var v, c, pos := fs.volume, desc.firstCluster, desc.pos;
      ItemsLength(v, c, pos, size, nmemb);
      if TilingSize(v, size) && pos % size == 0 {
        AlignedItemsRight(v, c, pos, size, nmemb);
        ghost var plan := ItemsPlan(v, c, pos, size, nmemb);
        if plan.ok {
          DeliveredSlice(v, c, pos, out[..], plan.sources);
        }
        HeldIsRead(v, c, pos, out[..], nmemb * size, plan.ok);
      }
    }
  }
}
