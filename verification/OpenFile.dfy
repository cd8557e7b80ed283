/**
 From a path string to the bytes of a file: the parser of src/fs/pparser.c, the lookup of
 src/fs/fat/fat16.c and the reading of src/fs/file.c, one after the other on one heap.
 */
module OpenFile {
  import opened CTypes
  import opened HeapTable
  import opened HeapModel
  import opened KernelHeap
  import opened Streamer
  import opened FatChain
  import opened FileRead
  import opened DirectoryEntry
  import opened Lookup
  import opened PathSyntax
  import F = Fat16
  import P = PathParser
  import File

  /** The drive and names of the path; one that parses, with at least one name. */
  ghost predicate HasNames(path: string, names: seq<string>) {
    '\0' !in path && names != [] && PathSyntax.Parse(path).Path? && PathSyntax.Parse(path).names == names
  }

  /** Every item on the way can be loaded, in `space` blocks. */
  ghost predicate LookupFits(v: Volume, root: seq<Entry>, names: seq<string>, space: nat, tail: bool)
    requires v.Valid() && names != []
  {
    FindIn(root, names[0]).Some? ==>
      var e := FindIn(root, names[0]).value;
      && CanLoad(v, e, tail) && PathLoadable(v, e, names[1..], tail)
      && Cost(v, e) + PathCost(v, e, names[1..]) <= space
  }

  /** The heap has room for the parsed path, the driver's descriptor, and the items on the way. */
  ghost predicate HasRoom(h: HeapState, v: Volume, root: seq<Entry>, path: string, names: seq<string>, space: nat,
                          tail: bool)
    requires h.Shaped() && v.Valid() && HasNames(path, names)
  {
    && h.FreeCount() >= 1 + 2 * Turns(path[3..])
    && Space(h, 2 + 2 * |names| + space, tail) && LookupFits(v, root, names, space, tail)
  }

  lemma PathNames(path: string, names: seq<string>)
    requires HasNames(path, names)
    ensures forall n | n in names :: '\0' !in n
  {
    assert '\0' !in path[3..];
    NamesHaveNoNul(path[3..]);
  }

  lemma FoundFollowsNothing(v: Volume, root: seq<Entry>, names: seq<string>, e: Entry)
    requires v.Valid() && names != [] && Resolve(v, root, names) == Found(e)
    ensures !MissesBetween(v, root, names) && !EndsEarlyBetween(v, root, names)
  {
    hide MissesBetween;
    hide EndsEarlyBetween;
    hide Resolve;
    NullFollowedIff(v, root, names);
    FreedFollowedIff(v, root, names);
  }

  /** pparser_parse, and the names as the lookup will meet them on the list. */
  method ParseNames(k: Kernel, path: string, ghost names: seq<string>, ghost space: nat, ghost tail: bool)
    returns (read: seq<string>, ghost blocks: set<nat>)
    requires k.Valid() && HasNames(path, names) && k.State().FreeCount() >= 1 + 2 * Turns(path[3..])
    requires P.EndsAfter(k.cells[..], k.State().FreeList(), |names|)
    requires Space(k.State(), 1 + 2 * |names| + space, tail)
    modifies k.heap.entries, k.heap`live, k.cells
    ensures k.Valid() && read == names && Space(k.State(), space, tail)
    ensures OnlyOnesAdded(old(k.heap.live), k.heap.live, blocks) && |blocks| == 1 + 2 * |names|
  {
    hide Describes;
    hide Space;
    hide P.Building;
    hide P.Terminated;
    hide P.EndsAfter;
    hide P.Linked;
    hide P.RootStored;
    hide HeapTable.FreeList;
    hide OnlyOnesAdded;
    hide PathSyntax.Parse;
    hide PathSyntax.Names;
    hide Turns;
    hide P.Placed;
    hide SameOutsideBlocks;
    ghost var h0, m0, drive := k.State(), k.cells[..], PathSyntax.Parse(path).drive;
    PathNames(path, names);
    var list, hangs;
    ghost var bs;
    list, hangs, bs := P.Parse(k, path);
    P.ParsingHolds(k, h0.live, m0, h0.FreeList(), bs, drive, names);
    P.BuildingHolds(m0, k.cells[..], k.heap.saddr, bs, drive, names);
    SpaceAfterOnes(h0, k.State(), 1 + 2 * |names|, space, tail);
    read := P.ReadNames(k, list, bs, drive, names);
    blocks := bs.All();
    P.SameLength(k.cells[..], k.heap.saddr, bs, names);
    P.CountBlocks(bs);
  }

  /** fat16_open, for names that a descent leads to an entry: the driver's descriptor, then the entry's item. */
  method Fat16Open(k: Kernel, fs: F.Fat16, root: seq<Entry>, names: seq<string>, ghost e: Entry, ghost space: nat,
                   ghost tail: bool)
    returns (desc: File.Descriptor, item: FatItem, ghost b: nat)
    requires k.Valid() && fs.Valid() && names != [] && forall n | n in names :: '\0' !in n
    requires Resolve(fs.volume, root, names) == Found(e)
    requires Space(k.State(), 1 + space, tail) && LookupFits(fs.volume, root, names, space, tail)
    modifies k.heap.entries, k.heap`live, k.cells, fs.fatStream, fs.dataStream, fs.directoryStream
    ensures k.Valid() && fresh(desc) && desc.pos == 0
    ensures desc.isFile == !IsDirectory(e) && desc.firstCluster == FirstCluster(e) && desc.filesize == FileSize(e)
    ensures IsLoaded(fs.volume, k.heap.saddr, item, e) && b !in old(k.heap.live)
    ensures Holds(k.heap.saddr, item).Keys !! old(k.heap.live)[b := 1].Keys
    ensures k.heap.live == old(k.heap.live)[b := 1] + Holds(k.heap.saddr, item)
  {
    hide Describes;
    hide Space;
    hide CanLoad;
    hide PathLoadable;
    hide PathCost;
    hide Cost;
    hide Holds;
    hide ItemShaped;
    hide EntriesOf;
    hide NothingOwned;
    hide IsDirectory;
    hide MissesBetween;
    hide EndsEarlyBetween;
    hide Resolve;
    hide FindIn;
    FoundFollowsNothing(fs.volume, root, names, e);
    EightBytes();
    var address, found;
    address, b := k.KzallocIn(8, 1 + space, tail);
    ghost var stray;
    found, stray := GetDirectoryEntry(k, fs, root, names, space, tail);
    item := found.value;
    desc := new File.Descriptor(!IsDirectory(item.entry), FirstCluster(item.entry), FileSize(item.entry));
  }

  /**
   pparser_parse and fat16_open, for a path that a descent of first matches leads to an
   entry. What is left on the heap: the parsed path, which fopen never frees, the driver's
   descriptor, and the entry's item.
   */
  method Open(k: Kernel, fs: F.Fat16, root: seq<Entry>, path: string, ghost names: seq<string>, ghost e: Entry,
              ghost space: nat, ghost tail: bool)
    returns (desc: File.Descriptor, item: FatItem, ghost kept: map<nat, nat>, ghost blocks: set<nat>)
    requires k.Valid() && fs.Valid() && HasNames(path, names)
    requires HasRoom(k.State(), fs.volume, root, path, names, space, tail)
    requires P.EndsAfter(k.cells[..], k.State().FreeList(), |names|)
    requires exists es :: IsDescent(fs.volume, root, names, es) && es[|es| - 1] == e
    modifies k.heap.entries, k.heap`live, k.cells, fs.fatStream, fs.dataStream, fs.directoryStream
    ensures k.Valid() && fresh(desc) && desc.pos == 0
    ensures desc.isFile == !IsDirectory(e) && desc.firstCluster == FirstCluster(e) && desc.filesize == FileSize(e)
    ensures IsLoaded(fs.volume, k.heap.saddr, item, e)
    ensures OnlyOnesAdded(old(k.heap.live), kept, blocks) && |blocks| == 2 + 2 * |names|
    ensures Holds(k.heap.saddr, item).Keys !! kept.Keys && k.heap.live == kept + Holds(k.heap.saddr, item)
  {
    hide Describes;
    hide Space;
    hide LookupFits;
    hide Holds;
    hide IsLoaded;
    hide IsDirectory;
    hide IsDescent;
    hide Resolve;
    hide P.EndsAfter;
    hide HeapTable.FreeList;
    hide PathSyntax.Parse;
    hide Turns;
    hide OnlyOnesAdded;
    ghost var l0 := k.heap.live;
    FoundIffDescent(fs.volume, root, names, e);
    PathNames(path, names);
    var read;
    read, blocks := ParseNames(k, path, names, 1 + space, tail);
    ghost var l1, b := k.heap.live, 0;
    desc, item, b := Fat16Open(k, fs, root, read, e, space, tail);
    AddOne(l0, l1, blocks, b);
    assert b !in blocks by { AddedAreLive(l0, l1, blocks); }
    kept, blocks := l1[b := 1], blocks + {b};
  }

  lemma EightBytes()
    ensures BlocksFor(8) == 1
  {
  }

  lemma AddedAreLive(l0: map<nat, nat>, l1: map<nat, nat>, added: set<nat>)
    requires OnlyOnesAdded(l0, l1, added)
    ensures added <= l1.Keys
  {
  }

  /**
   From the path to the bytes. The entry found is opened and read from its start: nmemb is
   returned exactly when the entry's chain reaches the last byte asked for, and the buffer
   then holds the bytes of that entry's clusters, in order, however they are scattered.
   */
  method ReadByPath(k: Kernel, files: File.Files, root: seq<Entry>, path: string, fd: int32, out: array<uint8>,
                    size: uint32, nmemb: uint32, ghost names: seq<string>, ghost e: Entry, ghost space: nat,
                    ghost tail: bool)
    returns (res: int32)
    requires k.Valid() && files.fs.Valid() && HasNames(path, names)
    requires HasRoom(k.State(), files.fs.volume, root, path, names, space, tail)
    requires P.EndsAfter(k.cells[..], k.State().FreeList(), |names|)
    requires exists es :: IsDescent(files.fs.volume, root, names, es) && es[|es| - 1] == e
    requires files.descriptors.Length == File.MAX_DESCRIPTORS && 0 < fd < File.MAX_DESCRIPTORS
    requires size > 0 && nmemb > 0 && TilingSize(files.fs.volume, size)
    requires 0 <= nmemb * size < 0x8000_0000 && nmemb * size <= out.Length && out as object != k.heap.entries
    requires File.ReadOnDisk(files.fs.volume, FirstCluster(e), 0, nmemb * size)
    modifies k.heap.entries, k.heap`live, k.cells, files.descriptors, out
    modifies files.fs.fatStream, files.fs.dataStream, files.fs.directoryStream
    ensures files.descriptors[fd - 1] != null && files.descriptors[fd - 1].firstCluster == FirstCluster(e)
    ensures res == nmemb <==> File.ReachesByte(files.fs.volume, FirstCluster(e), nmemb * size - 1)
    ensures res >= 0 ==> File.HoldsFile(files.fs.volume, FirstCluster(e), 0, out[..], nmemb * size)
    ensures File.ReadsContents(files.fs.volume, FirstCluster(e), 0, out[..], nmemb * size, res == nmemb)
  {
    hide Describes;
    hide Space;
    hide IsDescent;
    hide HasRoom;
    hide HasNames;
    hide TilingSize;
    hide IsLoaded;
    hide Holds;
    hide IsDirectory;
    hide P.EndsAfter;
    hide File.ReadOnDisk;
    hide File.HoldsFile;
    hide File.ReadsContents;
    hide File.ReachesByte;
    hide ItemsPlan;
    hide Delivered;
    hide SameAround;
    var desc, item;
    ghost var kept, blocks;
    desc, item, kept, blocks := Open(k, files.fs, root, path, names, e, space, tail);
    files.descriptors[fd - 1] := desc;
    res := files.Fread(out, size, nmemb, fd);
  }
}
