/**
 How src/fs/fat/fat16.c counts the entries of a directory, loads that many, and
 looks a name up among them.
 */
module Directory {
  import opened CTypes
  import opened Options
  import opened Streamer
  import opened FatChain
  import opened FatRead
  import opened FileRead
  import opened DiskImage
  import opened DirectoryEntry
  import F = Fat16

  function Bytes(d: Disk, pos: int, n: nat): (s: seq<uint8>)
    ensures |s| == n && forall j | 0 <= j < n :: s[j] == d.Byte(pos + j)
  {
    if n == 0 then [] else Bytes(d, pos, n - 1) + [d.Byte(pos + n - 1)]
  }

  /** Entry number i of the directory that starts at pos. */
  function Slot(d: Disk, pos: int, i: nat): Entry {
    Bytes(d, pos + 32 * i, 32)
  }

  predicate IsEnd(e: Entry) {
    e[0] == 0
  }

  predicate IsDeleted(e: Entry) {
    e[0] == 0xE5
  }

  /** The number of the first end marker among the first `limit` entries from i on; `limit` when there is none. */
  function EndIndex(d: Disk, pos: int, limit: nat, i: nat): (n: nat)
    requires i <= limit
    ensures i <= n <= limit
    ensures forall k | i <= k < n :: !IsEnd(Slot(d, pos, k))
    ensures n < limit ==> IsEnd(Slot(d, pos, n))
    decreases limit - i
  {
    if i == limit || IsEnd(Slot(d, pos, i)) then i else EndIndex(d, pos, limit, i + 1)
  }

  /** The first end marker is where a marker stands and none before it. */
  lemma {:induction false} EndIndexIs(d: Disk, pos: int, limit: nat, i: nat, n: nat)
    requires i <= n < limit && IsEnd(Slot(d, pos, n)) && forall k | i <= k < n :: !IsEnd(Slot(d, pos, k))
    ensures EndIndex(d, pos, limit, i) == n
    decreases n - i
  {
    if i < n {
      EndIndexIs(d, pos, limit, i + 1, n);
    }
  }

  /** The first n entries. */
  function Slots(d: Disk, pos: int, n: nat): (es: seq<Entry>)
    ensures |es| == n
  {
    seq(n, i requires 0 <= i => Slot(d, pos, i))
  }

  /** The entries that are in use. */
  function InUse(es: seq<Entry>): seq<Entry> {
    if es == [] then []
    else InUse(es[..|es| - 1]) + (if IsDeleted(es[|es| - 1]) then [] else [es[|es| - 1]])
  }

  /** What fat16_load_fat_directory keeps of a directory: as many leading entries as are in use. */
  function Loaded(es: seq<Entry>): (loaded: seq<Entry>)
    ensures |loaded| == |InUse(es)| <= |es|
  {
    InUseBound(es);
    es[..|InUse(es)|]
  }

  lemma {:induction false} InUseBound(es: seq<Entry>)
    ensures |InUse(es)| <= |es|
    ensures forall e | e in InUse(es) :: !IsDeleted(e)
  {
    if es != [] {
      InUseBound(es[..|es| - 1]);
    }
  }

  /** Without deleted entries among the first n, those n are all in use, and lead the list. */
  lemma {:induction false} InUseOfClean(es: seq<Entry>, n: nat)
    requires n <= |es| && forall i | 0 <= i < n :: !IsDeleted(es[i])
    ensures es[..n] <= InUse(es)
    decreases |es|
  {
    if es != [] {
      var init := es[..|es| - 1];
      if n < |es| {
        assert init[..n] == es[..n];
        InUseOfClean(init, n);
      } else {
        assert init[..n - 1] == init;
        InUseOfClean(init, n - 1);
        InUseBound(init);
        assert InUse(init) == init;
        assert es == init + [es[|es| - 1]];
      }
    }
  }

  /** Counting and loading agree exactly when no deleted entry stands among the ones loaded. */
  lemma LoadedRightIff(es: seq<Entry>)
    ensures |InUse(es)| <= |es|
    ensures Loaded(es) == InUse(es) <==> forall i | 0 <= i < |InUse(es)| :: !IsDeleted(es[i])
  {
    InUseBound(es);
    var n := |InUse(es)|;
    if forall i | 0 <= i < n :: !IsDeleted(es[i]) {
      InUseOfClean(es, n);
    } else {
      var i :| 0 <= i < n && IsDeleted(es[i]);
      assert Loaded(es)[i] == es[i];
      assert InUse(es)[i] in InUse(es);
    }
  }

  /** A deleted entry before one in use: the deleted one is loaded, the other left out. */
  lemma LoadedExample(deleted: Entry, used: Entry)
    requires deleted[0] == 0xE5 && used[0] != 0xE5
    ensures InUse([deleted, used]) == [used] && Loaded([deleted, used]) == [deleted]
  {
    InUseSnoc([], deleted);
    InUseSnoc([deleted], used);
    assert [] + [deleted] == [deleted] && [deleted] + [used] == [deleted, used];
  }

  // ----- Counting

  /** How many entries from pos on lie at positions that an int can hold. */
  function EntriesFrom(pos: int): nat {
    if 0 <= pos < 0x8000_0000 then (0x7FFF_FFFF - pos) / 32 else 0
  }

  /** An end marker stands among them: counting stops before the position runs over. */
  predicate Ends(d: Disk, pos: int) {
    EndIndex(d, pos, EntriesFrom(pos), 0) < EntriesFrom(pos)
  }

  /** The entries that the count meets, one after the other on the disk. */
  function Listing(d: Disk, pos: int): seq<Entry> {
    Slots(d, pos, EndIndex(d, pos, EntriesFrom(pos), 0))
  }

  /** No entry of a directory straddles a sector. */
  lemma EntriesAreAligned(sector: nat, i: nat)
    ensures SectorAligned(512 * sector + 32 * i, 32)
  {
    var q, r := i / 16, i % 16;
    assert 512 * sector + 32 * i == 512 * (sector + q) + 32 * r;
    DivUnique(512 * sector + 32 * i, 512, sector + q, 32 * r);
  }

  lemma NoneInUse()
    ensures InUse([]) == []
  {
  }

  lemma {:induction false} InUseSnoc(es: seq<Entry>, e: Entry)
    ensures InUse(es + [e]) == InUse(es) + (if IsDeleted(e) then [] else [e])
  {
    assert (es + [e])[..|es|] == es;
  }

  lemma EntryDelivered(d: Disk, item: seq<uint8>, pos: int, i: nat)
    requires |item| == 32 && StreamPlan(pos + 32 * i, 32) == Consecutive(pos + 32 * i, 32)
    requires Delivered(d, item, 0, StreamPlan(pos + 32 * i, 32))
    ensures item == Slot(d, pos, i)
  {
    var plan := Consecutive(pos + 32 * i, 32);
    forall j | 0 <= j < 32 ensures item[j] == Slot(d, pos, i)[j] {
      assert plan[j] == OnDisk(pos + 32 * i + j);
      assert item[0 + j] == d.Byte(plan[j].pos);
    }
  }

  /** The first byte of entry i from pos on. */
  function Lead(d: Disk, pos: int, i: nat): uint8 {
    d.Byte(pos + 32 * i)
  }

  /** Entry n from pos on begins with a byte 0, and none before it does. */
  ghost predicate EndsAt(d: Disk, pos: int, n: nat) {
    Lead(d, pos, n) == 0 && forall i | 0 <= i < n :: Lead(d, pos, i) != 0
  }

  /** The numbers of the first n entries that do not begin with a byte 0xE5. */
  ghost function NotDeleted(d: Disk, pos: int, n: nat): set<nat> {
    set i: nat | i < n && Lead(d, pos, i) != 0xE5
  }

  lemma SlotLead(d: Disk, pos: int, i: nat)
    ensures Slot(d, pos, i)[0] == Lead(d, pos, i)
    ensures IsEnd(Slot(d, pos, i)) <==> Lead(d, pos, i) == 0
    ensures IsDeleted(Slot(d, pos, i)) <==> Lead(d, pos, i) == 0xE5
  {
    assert Slot(d, pos, i)[0] == d.Byte(pos + 32 * i + 0);
  }

  lemma {:induction false} EndIndexEnds(d: Disk, pos: int, limit: nat, i: nat)
    requires i <= limit && forall k | 0 <= k < i :: Lead(d, pos, k) != 0
    ensures EndIndex(d, pos, limit, i) < limit ==> EndsAt(d, pos, EndIndex(d, pos, limit, i))
    ensures EndIndex(d, pos, limit, i) == limit ==> forall k | 0 <= k < limit :: Lead(d, pos, k) != 0
    decreases limit - i
  {
    hide Slot;
    hide Lead;
    hide IsEnd;
    SlotLead(d, pos, i);
    if i < limit && Lead(d, pos, i) != 0 {
      EndIndexEnds(d, pos, limit, i + 1);
    }
  }

  /** The count ends exactly where there is such an entry at positions that an int can hold. */
  lemma EndsIff(d: Disk, pos: nat)
    ensures Ends(d, pos) <==> exists n: nat :: EndsAt(d, pos, n) && pos + 32 * n + 32 <= 0x7FFF_FFFF
  {
    hide EndIndex;
    hide Lead;
    EndIndexEnds(d, pos, EntriesFrom(pos), 0);
  }

  /** The listing ends where the first such entry stands, and its entries in use are those not deleted. */
  lemma ListingIs(d: Disk, pos: nat, n: nat)
    requires EndsAt(d, pos, n) && Ends(d, pos)
    ensures Listing(d, pos) == Slots(d, pos, n) && |InUse(Listing(d, pos))| == |NotDeleted(d, pos, n)|
  {
    hide EndIndex;
    hide Lead;
    hide InUse;
    EndIndexEnds(d, pos, EntriesFrom(pos), 0);
    InUseAreNotDeleted(d, pos, n);
  }

  lemma {:induction false} InUseAreNotDeleted(d: Disk, pos: int, n: nat)
    ensures |InUse(Slots(d, pos, n))| == |NotDeleted(d, pos, n)|
  {
    hide Lead;
    hide Slot;
    hide IsDeleted;
    if n > 0 {
      InUseAreNotDeleted(d, pos, n - 1);
      SlotLead(d, pos, n - 1);
      assert Slots(d, pos, n)[..n - 1] == Slots(d, pos, n - 1);
      assert NotDeleted(d, pos, n) == NotDeleted(d, pos, n - 1) + if Lead(d, pos, n - 1) != 0xE5 then {n - 1} else {};
    }
  }

  /** fat16_get_total_items_in_directory: the number of entries in use before the first end marker. */
  method GetTotalItems(stream: DiskStream, sector: nat) returns (total: nat)
    requires Ends(stream.disk, 512 * sector)
    modifies stream
    ensures total == |InUse(Listing(stream.disk, 512 * sector))|
    ensures forall n: nat | EndsAt(stream.disk, 512 * sector, n) :: total == |NotDeleted(stream.disk, 512 * sector, n)|
  {
    hide StreamPlan;
    hide Delivered;
    hide SectorAligned;
    hide SameAround;
    hide InUse;
    hide Bytes;
    ghost var d, pos := stream.disk, 512 * sector;
    ghost var end, n := EndIndex(d, pos, EntriesFrom(pos), 0), 0;
    var _ := stream.Seek(512 * sector);
    var item := new uint8[32];
    total := 0;
    assert Slots(d, pos, 0) == [] && InUse([]) == [] by { NoneInUse(); }
    while true
      invariant n <= end && stream.pos == pos + 32 * n
      invariant total == |InUse(Slots(d, pos, n))|
      decreases end - n
    {
      EntriesAreAligned(sector, n);
      StreamReadRightIff(stream.pos, 32);
      var _ := stream.Read(item, 0, 32);
      EntryDelivered(d, item[..], pos, n);
      if item[0] == 0 {
        break;
      }
      assert Slots(d, pos, n + 1) == Slots(d, pos, n) + [Slot(d, pos, n)];
      InUseSnoc(Slots(d, pos, n), Slot(d, pos, n));
      n := n + 1;
      if item[0] == 0xE5 {
        continue;
      }
      total := total + 1;
    }
    forall n: nat | EndsAt(d, pos, n) ensures total == |NotDeleted(d, pos, n)| {
      ListingIs(d, pos, n);
    }
  }

  // ----- Loading a subdirectory

  /** The entries that the count meets from a cluster on; it does not follow the chain. */
  function AllEntries(v: Volume, c: uint16): seq<Entry> {
    Listing(v.disk, v.ClusterPosition(c))
  }

  function Count(v: Volume, c: uint16): (n: nat)
    ensures 32 * n < 0x8000_0000
  {
    InUseBound(AllEntries(v, c));
    |InUse(AllEntries(v, c))|
  }

  /** A directory whose end is found, and whose clusters lie where an int can hold their positions. */
  ghost predicate Loadable(v: Volume, c: uint16)
    requires v.Valid()
  {
    Ends(v.disk, v.ClusterPosition(c)) && OnDiskUpTo(v, c, LastLink(v, 0, 32 * Count(v, c)))
  }

  /** Entry number i of the directory as the chain leads to it; of no interest where the chain has ended. */
  function ChainEntry(v: Volume, c: uint16, i: nat): Entry
    requires v.Valid()
  {
    match FilePosition(v, c, 32 * i)
    case None => seq(32, j => 0)
    case Some(p) => Bytes(v.disk, p, 32)
  }

  /** What fat16_load_fat_directory loads: as many entries as were counted, along the chain; None when it ends early. */
  function EntriesOnChain(v: Volume, c: uint16): Option<seq<Entry>>
    requires v.Valid()
  {
    if ChainAt(v, c, LastLink(v, 0, 32 * Count(v, c))) == None then None
    else Some(seq(Count(v, c), i requires 0 <= i => ChainEntry(v, c, i)))
  }

  /** The first n entries read from out. */
  function EntriesIn(out: seq<uint8>, n: nat): (es: seq<Entry>)
    requires 32 * n <= |out|
    ensures |es| == n
    ensures forall i | 0 <= i < n :: es[i] == out[32 * i..32 * i + 32]
  {
    if n == 0 then [] else EntriesIn(out, n - 1) + [out[32 * (n - 1)..32 * n]]
  }

  /** No entry leaves its cluster. */
  lemma EntryInCluster(v: Volume, i: nat, j: nat)
    requires v.Valid() && j < 32
    ensures v.ClusterIndex(32 * i + j) == v.ClusterIndex(32 * i)
    ensures v.InCluster(32 * i + j) == v.InCluster(32 * i) + j
  {
    var a: int := 16 * v.sectorsPerCluster;
    var k, o := i / a, i % a;
    assert 32 * i == 32 * a * k + 32 * o by {
      assert 32 * (a * k) == 32 * a * k;
    }
    DivUnique(32 * i, 32 * a, k, 32 * o);
    DivUnique(32 * i + j, 32 * a, k, 32 * o + j);
  }

  lemma ChainEntryIs(v: Volume, c: uint16, i: nat, e: seq<uint8>)
    requires v.Valid() && |e| == 32
    requires forall j | 0 <= j < 32 :: FileByteIs(v, c, 32 * i + j, e[j])
    ensures e == ChainEntry(v, c, i)
  {
    hide Volume.ClusterIndex;
    hide Volume.InCluster;
    hide Bytes;
    assert FileByteIs(v, c, 32 * i + 0, e[0]);
    forall j | 0 <= j < 32 ensures e[j] == ChainEntry(v, c, i)[j] {
      EntryInCluster(v, i, j);
      assert FileByteIs(v, c, 32 * i + j, e[j]);
    }
  }

  /** A directory is read from its first byte on, so its reads straddle nothing. */
  lemma DirectoryReadRight(v: Volume, c: uint16, n: nat, out: seq<uint8>)
    requires v.Valid() && 32 * n <= |out| && ClusterPlan(v, c, 0, 32 * n).ok
    requires Delivered(v.disk, out, 0, ClusterPlan(v, c, 0, 32 * n).sources)
    ensures forall i | 0 <= i < n :: EntriesIn(out, n)[i] == ChainEntry(v, c, i)
  {
    hide Delivered;
    hide ClusterPlan;
    hide FileByteIs;
    hide ChainEntry;
    var plan := ClusterPlan(v, c, 0, 32 * n);
    ReadsFromStart(v, c, 32 * n);
    ReadFailsIff(v, c, 0, 32 * n);
    forall i | 0 <= i < n ensures EntriesIn(out, n)[i] == ChainEntry(v, c, i) {
      var e := out[32 * i..32 * i + 32];
      forall j | 0 <= j < 32 ensures FileByteIs(v, c, 32 * i + j, e[j]) {
        ByteDelivered(v, c, plan.sources, out, 32 * i + j);
      }
      ChainEntryIs(v, c, i, e);
    }
  }

  lemma ByteDelivered(v: Volume, c: uint16, sources: seq<Source>, out: seq<uint8>, j: nat)
    requires v.Valid() && IsFileSlice(v, c, 0, sources) && Delivered(v.disk, out, 0, sources) && j < |sources|
    ensures j < |out|
    ensures FileByteIs(v, c, j, out[j])
  {
    assert IsFileByte(v, c, 0 + j, sources[j]);
    assert sources[j].OnDisk? ==> out[0 + j] == v.disk.Byte(sources[j].pos);
  }

  lemma ReadsFromStart(v: Volume, c: uint16, n: nat)
    requires v.Valid() && ClusterPlan(v, c, 0, n).ok
    ensures IsFileSlice(v, c, 0, ClusterPlan(v, c, 0, n).sources)
  {
    DivUnique(0, v.ClusterBytes(), 0, 0);
    assert Fits(v, 0, n);
    FitsIsClusterAligned(v, c, 0, n);
    ReadRightIff(v, c, 0, n);
  }

  /**
   The reading half of fat16_load_fat_directory: as many entries as were counted, read
   through the chain; -EIO when the chain ends before them.
   */
  method LoadEntries(fs: F.Fat16, cluster: uint16, total: nat) returns (res: int32, es: seq<Entry>)
    requires fs.Valid() && Loadable(fs.volume, cluster) && total == Count(fs.volume, cluster)
    modifies fs.fatStream, fs.dataStream
    ensures match EntriesOnChain(fs.volume, cluster)
      case Some(entries) => res == 0 && es == entries
      case None => res == -EIO
  {
    hide LastLink;
    hide OnDiskUpTo;
    hide ClusterPlan;
    hide Delivered;
    hide SameAround;
    hide ChainEntry;
    hide Count;
    ghost var v := fs.volume;
    es := [];
    var out := new uint8[32 * total];
    res := fs.ReadInternal(cluster, 0, 32 * total, out, 0);
    ReadFailsIff(v, cluster, 0, 32 * total);
    if res == 0 {
      DirectoryReadRight(v, cluster, total, out[..]);
      es := EntriesIn(out[..], total);
      assert es == EntriesOnChain(v, cluster).value;
    }
  }

  // ----- Where entries are counted and where they are loaded

  /** Every link of the chain up to link `last` is the next cluster on the disk. */
  predicate ConsecutiveUpTo(v: Volume, c: uint16, last: nat) {
    forall k | 0 <= k <= last :: ChainAt(v, c, k).Some? && ChainAt(v, c, k).value == c + k
  }

  /** Entry i is loaded from the place on the disk where it was counted. */
  predicate LoadedWhereCounted(v: Volume, c: uint16, i: nat)
    requires v.Valid()
  {
    FilePosition(v, c, 32 * i) == Some(v.ClusterPosition(c) + 32 * i)
  }

  /**
   The count runs along the disk, the load along the chain: they meet the same entries
   exactly when the chain keeps to the disk's order.
   */
  lemma LoadedWhereCountedIff(v: Volume, c: uint16, n: nat)
    requires v.Valid() && n > 0
    ensures (forall i | 0 <= i < n :: LoadedWhereCounted(v, c, i)) <==> ConsecutiveUpTo(v, c, LastLink(v, 0, 32 * n))
  {
    hide LoadedWhereCounted;
    hide ChainAt;
    hide LastLink;
    hide Volume.ClusterIndex;
    hide Volume.ClusterBytes;
    var last, a: int := LastLink(v, 0, 32 * n), 16 * v.sectorsPerCluster;
    LastEntryLink(v, n);
    if ConsecutiveUpTo(v, c, last) {
      forall i | 0 <= i < n ensures LoadedWhereCounted(v, c, i) {
        EntryLink(v, c, i);
        LinksInOrder(v, 32 * i, 32 * n - 1);
      }
    } else {
      var k :| 0 <= k <= last && !(ChainAt(v, c, k).Some? && ChainAt(v, c, k).value == c + k);
      EntryLink(v, c, k * a);
      FirstEntryOf(v, k, n);
      assert !LoadedWhereCounted(v, c, k * a);
    }
  }

  /** A directory whose second cluster is not the next one: its first entry there is loaded from elsewhere. */
  lemma LoadedElsewhereExample(v: Volume)
    requires v.Valid() && v.FatEntry(3) == 5
    ensures !LoadedWhereCounted(v, 3, 16 * v.sectorsPerCluster)
    ensures FilePosition(v, 3, v.ClusterBytes()) == Some(v.ClusterPosition(5))
  {
    var z := v.ClusterBytes();
    DivUnique(z, z, 1, 0);
    assert ChainAt(v, 3, 0) == Some(3) && ChainAt(v, 3, 1) == Some(5);
    assert v.ClusterPosition(5) == v.ClusterPosition(3) + 2 * z;
  }

  lemma LastEntryLink(v: Volume, n: nat)
    requires v.Valid() && n > 0
    ensures LastLink(v, 0, 32 * n) == v.ClusterIndex(32 * n - 1)
  {
    DivUnique(0, v.ClusterBytes(), 0, 0);
  }

  /** An entry's place is as far from the first cluster as the disk's order has it exactly when its link is. */
  lemma EntryLink(v: Volume, c: uint16, i: nat)
    requires v.Valid()
    ensures var x := ChainAt(v, c, v.ClusterIndex(32 * i));
      LoadedWhereCounted(v, c, i) <==> x.Some? && x.value == c + v.ClusterIndex(32 * i)
  {
    var z, k := v.ClusterBytes(), v.ClusterIndex(32 * i);
    match ChainAt(v, c, k) {
      case None =>
      case Some(x) =>
        assert 32 * i == z * k + v.InCluster(32 * i);
        assert v.ClusterPosition(x) - v.ClusterPosition(c) == z * (x - c) by {
          ClustersApart(v, c, x);
        }
        assert x - c != k ==> z * (x - c) != z * k by {
          DifferentMultiples(z, x - c, k);
        }
    }
  }

  lemma ClustersApart(v: Volume, c: uint16, x: uint16)
    ensures v.ClusterPosition(x) - v.ClusterPosition(c) == v.ClusterBytes() * (x - c)
  {
  }

  lemma DifferentMultiples(z: int, a: int, b: int)
    requires z > 0
    ensures a != b ==> z * a != z * b
  {
  }

  /** The first entry of link k, when an entry before n lies in it. */
  lemma FirstEntryOf(v: Volume, k: nat, n: nat)
    requires v.Valid() && n > 0 && k <= v.ClusterIndex(32 * n - 1)
    ensures v.ClusterIndex(32 * (k * (16 * v.sectorsPerCluster))) == k && k * (16 * v.sectorsPerCluster) < n
  {
    var a: int, z := 16 * v.sectorsPerCluster, v.ClusterBytes();
    assert z * k == 32 * (k * a);
    DivUnique(32 * (k * a), z, k, 0);
    var q := v.ClusterIndex(32 * n - 1);
    assert z * q <= 32 * n - 1;
    MulLe(k, q, z);
  }

  /** Then the directory loaded is the one listed, as far as its deleted entries let it be. */
  lemma LoadedIsListed(v: Volume, c: uint16)
    requires v.Valid() && (Count(v, c) == 0 || ConsecutiveUpTo(v, c, LastLink(v, 0, 32 * Count(v, c))))
    ensures Count(v, c) == 0 ==> EntriesOnChain(v, c) == Some([])
    ensures EntriesOnChain(v, c) == Some(Loaded(AllEntries(v, c)))
  {
    hide ChainAt;
    hide Bytes;
    var n := Count(v, c);
    InUseBound(AllEntries(v, c));
    if n == 0 {
      EmptyOnChain(v, c);
    } else {
      LoadedWhereCountedIff(v, c, n);
      forall i | 0 <= i < n ensures ChainEntry(v, c, i) == AllEntries(v, c)[i] {
        assert LoadedWhereCounted(v, c, i);
      }
      assert EntriesOnChain(v, c).value == AllEntries(v, c)[..n];
    }
  }

  lemma EmptyOnChain(v: Volume, c: uint16)
    requires v.Valid() && Count(v, c) == 0
    ensures EntriesOnChain(v, c) == Some([])
  {
    DivUnique(0, v.ClusterBytes(), 0, 0);
    assert ChainAt(v, c, 0) == Some(c) && LastLink(v, 0, 0) == 0;
    assert EntriesOnChain(v, c).value == [];
  }

  /** The entries loaded are, byte for byte, what the file has at their places. */
  lemma EntriesAreFileBytes(v: Volume, c: uint16)
    requires v.Valid() && EntriesOnChain(v, c).Some?
    ensures var es := EntriesOnChain(v, c).value;
      |es| == Count(v, c) && forall i, j | 0 <= i < |es| && 0 <= j < 32 :: FileByteIs(v, c, 32 * i + j, es[i][j])
  {
    hide FileByteIs;
    hide Count;
    hide ChainEntry;
    var es := EntriesOnChain(v, c).value;
    forall i, j | 0 <= i < |es| && 0 <= j < 32 ensures FileByteIs(v, c, 32 * i + j, es[i][j]) {
      ChainEntryBytes(v, c, |es|, i, j);
    }
  }

  lemma ChainEntryBytes(v: Volume, c: uint16, n: nat, i: nat, j: nat)
    requires v.Valid() && i < n && j < 32 && ChainAt(v, c, LastLink(v, 0, 32 * n)).Some?
    ensures FileByteIs(v, c, 32 * i + j, ChainEntry(v, c, i)[j])
  {
    hide LastLink;
    hide Volume.ClusterIndex;
    hide Volume.InCluster;
    hide Bytes;
    LastEntryLink(v, n);
    LinksInOrder(v, 32 * i, 32 * n - 1);
    if ChainAt(v, c, v.ClusterIndex(32 * i)) == None {
      ChainStaysEnded(v, c, v.ClusterIndex(32 * i), LastLink(v, 0, 32 * n));
    }
    EntryInCluster(v, i, j);
  }

  /**
   A directory laid out on the disk is loaded exactly when it has room for the entries
   counted, and then they are its bytes, 32 for each.
   */
  lemma LaidOutIsLoadedIff(v: Volume, cs: seq<uint16>, contents: seq<uint8>)
    requires v.Valid() && LaidOut(v, cs, contents)
    ensures EntriesOnChain(v, cs[0]).Some? <==> 32 * Count(v, cs[0]) <= |contents|
    ensures var es := EntriesOnChain(v, cs[0]);
      es.Some? ==> |es.value| == Count(v, cs[0]) && forall i | 0 <= i < |es.value| ::
        32 * i + 32 <= |contents| && es.value[i] == contents[32 * i..32 * i + 32]
  {
    hide ChainLaidOut;
    hide ByteLaidOut;
    hide Count;
    hide FileByteIs;
    hide EntriesOnChain;
    var n, c := Count(v, cs[0]), cs[0];
    if n == 0 {
      EmptyOnChain(v, c);
    } else {
      LastEntryLink(v, n);
      FileIsReadBackIff(v, cs, contents, 32 * n - 1, 0);
      LoadedIff(v, c);
      if 32 * n <= |contents| {
        EntriesAreFileBytes(v, c);
        var es := EntriesOnChain(v, c).value;
        forall i | 0 <= i < n ensures es[i] == contents[32 * i..32 * i + 32] {
          forall j | 0 <= j < 32 ensures es[i][j] == contents[32 * i..32 * i + 32][j] {
            FileIsReadBackIff(v, cs, contents, 32 * i + j, es[i][j]);
          }
        }
      }
    }
  }

  lemma LoadedIff(v: Volume, c: uint16)
    requires v.Valid()
    ensures EntriesOnChain(v, c).Some? <==> ChainAt(v, c, LastLink(v, 0, 32 * Count(v, c))).Some?
  {
  }

  // ----- The root directory

  lemma EntriesAreSlots(d: Disk, pos: int, n: nat, out: seq<uint8>)
    requires 32 * n <= |out| && forall j | 0 <= j < 32 * n :: out[j] == d.Byte(pos + j)
    ensures EntriesIn(out, n) == Slots(d, pos, n)
  {
    forall i | 0 <= i < n ensures EntriesIn(out, n)[i] == Slot(d, pos, i) {
      var e := out[32 * i..32 * i + 32];
      assert forall j | 0 <= j < 32 :: e[j] == out[32 * i + j];
    }
  }

  /**
   The reading of fat16_get_root_directory: one read of as many entries as were counted,
   into a buffer for rootDirEntries of them: `items` is that buffer with the memory behind it.
   */
  method LoadRoot(stream: DiskStream, sector: nat, rootDirEntries: uint16, items: array<uint8>) returns (es: seq<Entry>)
    requires Ends(stream.disk, 512 * sector) && 32 * rootDirEntries <= items.Length
    requires 32 * |InUse(Listing(stream.disk, 512 * sector))| <= items.Length
    modifies stream, items
    ensures es == Loaded(Listing(stream.disk, 512 * sector)) && es == EntriesIn(items[..], |es|)
    ensures forall n: nat | EndsAt(stream.disk, 512 * sector, n) :: |es| == |NotDeleted(stream.disk, 512 * sector, n)|
    ensures forall i, j | 0 <= i < |es| && 0 <= j < 32 :: es[i][j] == stream.disk.Byte(512 * sector + 32 * i + j)
    ensures SameAround(old(items[..]), items[..], 0, 32 * |es|)
    ensures |es| <= rootDirEntries ==> items[32 * rootDirEntries..] == old(items[32 * rootDirEntries..])
  {
    hide EndIndex;
    hide InUse;
    hide StreamPlan;
    hide SectorAligned;
    hide SameAround;
    hide Delivered;
    ghost var d, pos, was := stream.disk, 512 * sector, items[..];
    ghost var all := Listing(d, pos);
    var total := GetTotalItems(stream, sector);
    InUseBound(all);
    var _ := stream.Seek(512 * sector);
    SectorStartAligned(sector, 32 * total);
    StreamReadRightIff(pos, 32 * total);
    var _ := stream.Read(items, 0, 32 * total);
    ConsecutiveBytes(d, pos, 32 * total, items[..]);
    EntriesAreSlots(d, pos, total, items[..]);
    es := EntriesIn(items[..], total);
    assert es == all[..total];
    SlotBytes(d, pos, total);
    if total <= rootDirEntries {
      KeptBehind(was, items[..], 32 * total, 32 * rootDirEntries);
    }
  }

  lemma SlotBytes(d: Disk, pos: int, n: nat)
    ensures forall i, j | 0 <= i < n && 0 <= j < 32 :: Slots(d, pos, n)[i][j] == d.Byte(pos + 32 * i + j)
  {
  }

  lemma SectorStartAligned(sector: nat, total: nat)
    ensures SectorAligned(512 * sector, total)
  {
  }

  lemma KeptBehind(was: seq<uint8>, out: seq<uint8>, n: nat, from: nat)
    requires SameAround(was, out, 0, n) && n <= from <= |was|
    ensures from <= |out| && out[from..] == was[from..]
  {
  }

  lemma {:induction false} InUseOfBoth(a: seq<Entry>, b: seq<Entry>)
    ensures InUse(a + b) == InUse(a) + InUse(b)
    decreases |b|
  {
    if b == [] {
      assert a + b == a;
    } else {
      var init, last := b[..|b| - 1], b[|b| - 1];
      assert (a + b)[..|a + b| - 1] == a + init && (a + b)[|a + b| - 1] == last;
      InUseOfBoth(a, init);
    }
  }

  /**
   The read runs over the root directory's buffer exactly when the count ran on behind
   the directory's area, and there met more entries in use than the area has deleted ones.
   */
  lemma RootOverrunsIff(listing: seq<Entry>, rootDirEntries: nat)
    ensures |Loaded(listing)| > rootDirEntries <==>
      && |listing| > rootDirEntries
      && |InUse(listing[rootDirEntries..])| > rootDirEntries - |InUse(listing[..rootDirEntries])|
  {
    InUseBound(listing);
    if |listing| > rootDirEntries {
      assert listing == listing[..rootDirEntries] + listing[rootDirEntries..];
      InUseOfBoth(listing[..rootDirEntries], listing[rootDirEntries..]);
    }
  }

  /** A full root directory of 64 entries, as the repository's boot record has it, with an entry in use behind it. */
  lemma RootOverrunExample(listing: seq<Entry>)
    requires |listing| == 65 && forall i | 0 <= i < 65 :: listing[i][0] != 0xE5
    ensures |Loaded(listing)| > 64
  {
    InUseOfClean(listing, 65);
    InUseBound(listing);
  }

  lemma ConsecutiveBytes(d: Disk, pos: int, n: nat, out: seq<uint8>)
    requires Delivered(d, out, 0, Consecutive(pos, n))
    ensures n <= |out| && forall j | 0 <= j < n :: out[j] == d.Byte(pos + j)
  {
    var plan := Consecutive(pos, n);
    forall j | 0 <= j < n ensures out[j] == d.Byte(pos + j) {
      assert plan[j] == OnDisk(pos + j);
      assert out[0 + j] == d.Byte(plan[j].pos);
    }
  }
}
