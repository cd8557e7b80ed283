/**
 Path lookup of src/fs/fat/fat16.c: descending through loaded directories, with
 the heap allocations that each loaded item takes and gives back.
 */
module Lookup {
  import opened CTypes
  import opened Options
  import opened HeapTable
  import opened HeapModel
  import opened KernelHeap
  import opened Streamer
  import opened FatChain
  import opened FatRead
  import opened DirectoryEntry
  import opened Directory
  import opened Strings
  import opened PathSyntax
  import F = Fat16

  // ----- What a lookup finds

  /** The comparison of fat16_find_item_in_directory. */
  predicate Matches(e: Entry, name: string) {
    SameIgnoringCase(FirstChars(RenderedName(e), MAX_PATH), FirstChars(name, MAX_PATH))
  }

  /** The first entry with a matching name. */
  function FindIn(es: seq<Entry>, name: string): Option<Entry> {
    if es == [] then None
    else if Matches(es[0], name) then Some(es[0])
    else FindIn(es[1..], name)
  }

  /** The entries of a subdirectory as they are loaded; None when its chain ends before them. */
  function EntriesOf(v: Volume, e: Entry): Option<seq<Entry>>
    requires v.Valid()
  {
    EntriesOnChain(v, FirstCluster(e))
  }

  /**
   How a lookup ends: with an entry; without one, because the last name is missing or the
   first is not in the root directory; at a file where a directory was needed; by following
   a null pointer, when a name in between is missing; or by reading a directory that was
   given back to the heap when it could not be loaded.
   */
  datatype Resolution =
    | Found(entry: Entry)
    | Missing
    | FileInTheWay(file: Entry)
    | NullFollowed
    | FreedFollowed(directory: Entry)

  function ResolveFrom(v: Volume, current: Entry, rest: seq<string>): Resolution
    requires v.Valid()
    decreases |rest|
  {
    if rest == [] then Found(current)
    else if !IsDirectory(current) then FileInTheWay(current)
    else
      match EntriesOf(v, current)
      case None => FreedFollowed(current)
      case Some(es) =>
        match FindIn(es, rest[0])
        case None => if |rest| == 1 then Missing else NullFollowed
        case Some(e) => ResolveFrom(v, e, rest[1..])
  }

  function Resolve(v: Volume, root: seq<Entry>, names: seq<string>): Resolution
    requires v.Valid() && names != []
  {
    match FindIn(root, names[0])
    case None => Missing
    case Some(e) => ResolveFrom(v, e, names[1..])
  }

  // ----- The same as descents

  /** The directory e can be entered, and `found` is what a search for the name in it gives. */
  ghost predicate Finds(v: Volume, e: Entry, name: string, found: Option<Entry>)
    requires v.Valid()
  {
    IsDirectory(e) && EntriesOf(v, e).Some? && FindIn(EntriesOf(v, e).value, name) == found
  }

  /** Entry number i is the first match for name i in the directory that entry i - 1 is. */
  ghost predicate DescendsAt(v: Volume, names: seq<string>, es: seq<Entry>, i: nat)
    requires v.Valid() && 0 < i < |es| && i < |names|
  {
    Finds(v, es[i - 1], names[i], Some(es[i]))
  }

  ghost predicate IsDescent(v: Volume, root: seq<Entry>, names: seq<string>, es: seq<Entry>)
    requires v.Valid()
  {
    && |es| == |names| > 0 && FindIn(root, names[0]) == Some(es[0])
    && forall i | 0 < i < |es| :: DescendsAt(v, names, es, i)
  }

  /** A descent along the first |es| names. */
  ghost predicate Reached(v: Volume, root: seq<Entry>, names: seq<string>, es: seq<Entry>)
    requires v.Valid()
  {
    0 < |es| <= |names| && IsDescent(v, root, names[..|es|], es)
  }

  /** A name matches exactly when it is the rendered one letter by letter, and no longer or shorter. */
  lemma MatchesIff(e: Entry, name: string)
    ensures Matches(e, name) <==> SameText(RenderedName(e), name)
  {
    hide RenderedName;
    RenderedLength(e);
    SameTextUpToIff(RenderedName(e), name, 108);
  }

  lemma RenderedLength(e: Entry)
    ensures |RenderedName(e)| < 108
  {
    assert ScanLength(e, 0) <= 32 && ScanLength(e, 8) <= 24;
  }

  lemma {:induction false} FirstMatching(es: seq<Entry>, name: string)
    ensures match FindIn(es, name)
      case None => forall i | 0 <= i < |es| :: !Matches(es[i], name)
      case Some(e) =>
        exists i | 0 <= i < |es| :: es[i] == e && Matches(e, name) && forall j | 0 <= j < i :: !Matches(es[j], name)
  {
    hide Matches;
    if es != [] {
      if Matches(es[0], name) {
        assert es[0] == FindIn(es, name).value;
      } else {
        FirstMatching(es[1..], name);
        if FindIn(es[1..], name).Some? {
          var e := FindIn(es[1..], name).value;
          var i :| 0 <= i < |es[1..]| && es[1..][i] == e && forall j | 0 <= j < i :: !Matches(es[1..][j], name);
          assert es[i + 1] == e;
          forall j | 0 <= j < i + 1 ensures !Matches(es[j], name) {
            assert j > 0 ==> es[j] == es[1..][j - 1];
          }
        }
      }
    }
  }

  /** The search finds the first entry whose rendered name is the one looked for, letter by letter. */
  lemma FirstMatch(es: seq<Entry>, name: string)
    ensures match FindIn(es, name)
      case None => forall i | 0 <= i < |es| :: !SameText(RenderedName(es[i]), name)
      case Some(e) =>
        exists i | 0 <= i < |es| ::
          && es[i] == e && SameText(RenderedName(e), name)
          && forall j | 0 <= j < i :: !SameText(RenderedName(es[j]), name)
  {
    hide Matches;
    hide RenderedName;
    hide SameText;
    FirstMatching(es, name);
    forall e | e in es ensures Matches(e, name) <==> SameText(RenderedName(e), name) {
      MatchesIff(e, name);
    }
    if FindIn(es, name).Some? {
      var e := FindIn(es, name).value;
      var i :| 0 <= i < |es| && es[i] == e && Matches(e, name) && forall j | 0 <= j < i :: !Matches(es[j], name);
      assert es[i] in es;
    }
  }

  /** A longer name is not found by its first letters, and is found in either case. */
  lemma LongerNameExample(hi: Entry, hello: Entry)
    requires RenderedName(hi) == "HI.TXT" && RenderedName(hello) == "HELLO.TXT"
    ensures FindIn([hi, hello], "HELLO.TXT") == Some(hello) == FindIn([hi, hello], "hello.txt")
    ensures FindIn([hi, hello], "HE") == None
  {
    hide RenderedName;
    hide Matches;
    FindInTwo(hi, hello, "HELLO.TXT");
    FindInTwo(hi, hello, "hello.txt");
    FindInTwo(hi, hello, "HE");
  }

  lemma FindInTwo(a: Entry, b: Entry, name: string)
    ensures FindIn([a, b], name) ==
      if SameText(RenderedName(a), name) then Some(a)
      else if SameText(RenderedName(b), name) then Some(b)
      else None
  {
    hide Matches;
    hide RenderedName;
    hide SameText;
    MatchesIff(a, name);
    MatchesIff(b, name);
    assert [b][1..] == [] && FindIn([], name) == None;
    assert FindIn([b], name) == if Matches(b, name) then Some(b) else None;
    assert [a, b][1..] == [b];
  }

  lemma PrefixReached(v: Volume, root: seq<Entry>, names: seq<string>, es: seq<Entry>)
    requires v.Valid() && Reached(v, root, names, es) && |es| > 1
    ensures Reached(v, root, names, es[..|es| - 1]) && Finds(v, es[|es| - 2], names[|es| - 1], Some(es[|es| - 1]))
  {
    hide Finds;
    var n := |es| - 1;
    assert DescendsAt(v, names[..n + 1], es, n);
    forall i | 0 < i < n ensures DescendsAt(v, names[..n], es[..n], i) {
      assert DescendsAt(v, names[..n + 1], es, i);
    }
  }

  lemma ReachedExtends(v: Volume, root: seq<Entry>, names: seq<string>, es: seq<Entry>, e: Entry)
    requires v.Valid() && Reached(v, root, names, es) && |es| < |names|
    requires Finds(v, es[|es| - 1], names[|es|], Some(e))
    ensures Reached(v, root, names, es + [e])
  {
    hide Finds;
    var all, n := es + [e], |es|;
    var taken := names[..|all|];
    forall i | 0 < i < |all| ensures DescendsAt(v, taken, all, i) {
      if i < n {
        assert DescendsAt(v, names[..n], es, i);
      }
    }
  }

  /** A lookup goes down every descent there is. */
  lemma {:induction false} ReachedResolves(v: Volume, root: seq<Entry>, names: seq<string>, es: seq<Entry>)
    requires v.Valid() && Reached(v, root, names, es)
    ensures Resolve(v, root, names) == ResolveFrom(v, es[|es| - 1], names[|es|..])
    decreases |es|
  {
    hide IsDirectory;
    hide EntriesOf;
    hide FindIn;
    if |es| > 1 {
      PrefixReached(v, root, names, es);
      ReachedResolves(v, root, names, es[..|es| - 1]);
      assert names[|es| - 1..][1..] == names[|es|..];
    } else {
      assert names[..1][0] == names[0];
    }
  }

  /** The descent cannot go on: the last entry is a file, cannot be loaded, or has no match for the next name. */
  ghost predicate Ended(v: Volume, names: seq<string>, es: seq<Entry>)
    requires v.Valid() && 0 < |es| <= |names|
  {
    |es| < |names| ==>
      var e := es[|es| - 1];
      !IsDirectory(e) || EntriesOf(v, e) == None || Finds(v, e, names[|es|], None)
  }

  lemma {:induction false} DescendsToEnd(v: Volume, root: seq<Entry>, names: seq<string>, es: seq<Entry>)
    returns (all: seq<Entry>)
    requires v.Valid() && Reached(v, root, names, es)
    ensures Reached(v, root, names, all) && Ended(v, names, all)
    decreases |names| - |es|
  {
    hide IsDirectory;
    hide EntriesOf;
    hide FindIn;
    hide IsDescent;
    all := es;
    if |es| < |names| {
      var e := es[|es| - 1];
      if IsDirectory(e) && EntriesOf(v, e).Some? && FindIn(EntriesOf(v, e).value, names[|es|]).Some? {
        var next := FindIn(EntriesOf(v, e).value, names[|es|]).value;
        ReachedExtends(v, root, names, es, next);
        all := DescendsToEnd(v, root, names, es + [next]);
      }
    }
  }

  /** From the root: the longest descent, and what the lookup makes of its end. */
  lemma LongestDescent(v: Volume, root: seq<Entry>, names: seq<string>) returns (es: seq<Entry>)
    requires v.Valid() && names != [] && FindIn(root, names[0]).Some?
    ensures Reached(v, root, names, es) && Ended(v, names, es)
    ensures Resolve(v, root, names) == ResolveFrom(v, es[|es| - 1], names[|es|..])
  {
    var e := FindIn(root, names[0]).value;
    assert Reached(v, root, names, [e]);
    es := DescendsToEnd(v, root, names, [e]);
    ReachedResolves(v, root, names, es);
  }

  /** A lookup finds an entry exactly when it ends a descent: first matches, each in the directory before it. */
  lemma FoundIffDescent(v: Volume, root: seq<Entry>, names: seq<string>, e: Entry)
    requires v.Valid() && names != []
    ensures Resolve(v, root, names) == Found(e) <==>
      exists es :: IsDescent(v, root, names, es) && es[|es| - 1] == e
  {
    hide IsDirectory;
    hide EntriesOf;
    hide FindIn;
    if Resolve(v, root, names) == Found(e) {
      var es := LongestDescent(v, root, names);
      assert names[..|names|] == names;
    }
    if es :| IsDescent(v, root, names, es) && es[|es| - 1] == e {
      assert names[..|names|] == names;
      ReachedResolves(v, root, names, es);
    }
  }

  /** Some directory on the way has no match for the name after it, and that name is not the last. */
  ghost predicate MissesBetween(v: Volume, root: seq<Entry>, names: seq<string>)
    requires v.Valid()
  {
    exists es :: Reached(v, root, names, es) && |es| < |names| - 1 && Finds(v, es[|es| - 1], names[|es|], None)
  }

  /** A null pointer is followed exactly when a name between the first and the last is missing. */
  lemma NullFollowedIff(v: Volume, root: seq<Entry>, names: seq<string>)
    requires v.Valid() && names != []
    ensures Resolve(v, root, names) == NullFollowed <==> MissesBetween(v, root, names)
  {
    hide IsDirectory;
    hide EntriesOf;
    hide FindIn;
    hide IsDescent;
    if Resolve(v, root, names) == NullFollowed {
      var es := LongestDescent(v, root, names);
    }
    if MissesBetween(v, root, names) {
      var es :| Reached(v, root, names, es) && |es| < |names| - 1 && Finds(v, es[|es| - 1], names[|es|], None);
      ReachedResolves(v, root, names, es);
    }
  }

  /** A lookup ends without an entry exactly when the first name is not in the root, or only the last is missing. */
  lemma MissingIff(v: Volume, root: seq<Entry>, names: seq<string>)
    requires v.Valid() && names != []
    ensures Resolve(v, root, names) == Missing <==>
      || FindIn(root, names[0]) == None
      || exists es :: Reached(v, root, names, es) && |es| == |names| - 1 && Finds(v, es[|es| - 1], names[|es|], None)
  {
    hide IsDirectory;
    hide EntriesOf;
    hide FindIn;
    hide IsDescent;
    if Resolve(v, root, names) == Missing && FindIn(root, names[0]).Some? {
      var es := LongestDescent(v, root, names);
      assert Reached(v, root, names, es) && |es| == |names| - 1 && Finds(v, es[|es| - 1], names[|es|], None);
    }
    if es :| Reached(v, root, names, es) && |es| == |names| - 1 && Finds(v, es[|es| - 1], names[|es|], None) {
      ReachedResolves(v, root, names, es);
    }
  }

  /**
   A lookup ends at a file, whose item nobody frees, exactly when a descent reaches that
   file before the last name.
   */
  lemma FileInTheWayIff(v: Volume, root: seq<Entry>, names: seq<string>, f: Entry)
    requires v.Valid() && names != []
    ensures Resolve(v, root, names) == FileInTheWay(f) <==>
      exists es :: Reached(v, root, names, es) && |es| < |names| && es[|es| - 1] == f && !IsDirectory(f)
  {
    hide IsDirectory;
    hide EntriesOf;
    hide FindIn;
    hide IsDescent;
    if Resolve(v, root, names) == FileInTheWay(f) {
      var es := LongestDescent(v, root, names);
      assert Reached(v, root, names, es) && |es| < |names| && es[|es| - 1] == f && !IsDirectory(f);
    }
    if es :| Reached(v, root, names, es) && |es| < |names| && es[|es| - 1] == f && !IsDirectory(f) {
      ReachedResolves(v, root, names, es);
    }
  }

  /** Some directory before the last name has a chain that ends before the entries counted in it. */
  ghost predicate EndsEarlyBetween(v: Volume, root: seq<Entry>, names: seq<string>)
    requires v.Valid()
  {
    exists es :: Reached(v, root, names, es) && |es| < |names|
      && IsDirectory(es[|es| - 1]) && EntriesOf(v, es[|es| - 1]) == None
  }

  /** A directory is read after it was freed exactly when it could not be loaded and is not the last name's. */
  lemma FreedFollowedIff(v: Volume, root: seq<Entry>, names: seq<string>)
    requires v.Valid() && names != []
    ensures Resolve(v, root, names).FreedFollowed? <==> EndsEarlyBetween(v, root, names)
  {
    hide IsDirectory;
    hide EntriesOf;
    hide FindIn;
    hide IsDescent;
    if Resolve(v, root, names).FreedFollowed? {
      var es := LongestDescent(v, root, names);
    }
    if EndsEarlyBetween(v, root, names) {
      var es :| Reached(v, root, names, es) && |es| < |names|
        && IsDirectory(es[|es| - 1]) && EntriesOf(v, es[|es| - 1]) == None;
      ReachedResolves(v, root, names, es);
    }
  }

  // ----- One input for each way to fail

  /** An entry with a name of one character, no extension, and a first cluster below 256. */
  function EntryNamed(letter: uint8, attribute: uint8, cluster: uint8): Entry {
    seq(32, i requires 0 <= i =>
      if i == 0 then letter
      else if i < 11 then SPACE
      else if i == 11 then attribute
      else if i == 26 then cluster
      else 0)
  }

  lemma NameOfEntry(letter: uint8, attribute: uint8, cluster: uint8, name: string)
    requires !EndsName(letter) && name == [letter as char]
    ensures FindIn([EntryNamed(letter, attribute, cluster)], name) == Some(EntryNamed(letter, attribute, cluster))
    ensures FirstCluster(EntryNamed(letter, attribute, cluster)) == cluster
  {
    var e := EntryNamed(letter, attribute, cluster);
    assert ScanLength(e, 1) == 0 && ScanLength(e, 0) == 1;
    assert RenderedName(e) == name;
    assert Word(e, 20) == 0 && Word(e, 26) == cluster;
    BitOrZero(cluster);
  }

  lemma Attributes(cluster: uint8)
    ensures IsDirectory(EntryNamed(65, 0x10, cluster)) && !IsDirectory(EntryNamed(65, 0, cluster))
  {
    assert BitAnd(0x10, 0x10) == 2 * BitAnd(8, 8) == 4 * BitAnd(4, 4) == 8 * BitAnd(2, 2) == 16 * BitAnd(1, 1);
    assert BitAnd(0, 0x10) == 2 * BitAnd(0, 8) == 4 * BitAnd(0, 4) == 8 * BitAnd(0, 2) == 16 * BitAnd(0, 1);
  }

  /** A directory "A" whose first entry is an end marker: in "A/B/C" the name in the middle is missing. */
  lemma NullFollowedExample(v: Volume)
    requires v.Valid() && v.disk.Byte(v.ClusterPosition(2)) == 0
    ensures Resolve(v, [EntryNamed(65, 0x10, 2)], ["A", "B", "C"]) == NullFollowed
  {
    hide IsDirectory;
    hide EntryNamed;
    hide EntriesOnChain;
    NameOfEntry(65, 0x10, 2, "A");
    Attributes(2);
    var names := ["A", "B", "C"];
    assert names[1..] == ["B", "C"];
    EmptyListing(v, 2);
    EmptyOnChain(v, 2);
  }

  lemma EmptyListing(v: Volume, c: uint16)
    requires v.disk.Byte(v.ClusterPosition(c)) == 0
    ensures Count(v, c) == 0
  {
    var pos := v.ClusterPosition(c);
    assert Slot(v.disk, pos, 0)[0] == v.disk.Byte(pos + 0);
    assert AllEntries(v, c) == [];
  }

  /** A file "A" is in the way of "A/B", on every disk. */
  lemma FileInTheWayExample(v: Volume)
    requires v.Valid()
    ensures Resolve(v, [EntryNamed(65, 0, 2)], ["A", "B"]) == FileInTheWay(EntryNamed(65, 0, 2))
  {
    hide IsDirectory;
    hide EntryNamed;
    NameOfEntry(65, 0, 2, "A");
    Attributes(2);
  }

  function Filled(b: uint8): Sector {
    seq(512, i => b)
  }

  function SignedBoot(): Sector {
    seq(512, i => if i == 38 then 0x29 else 0)
  }

  /**
   A boot sector with the signature that the driver asks for, a directory of ones in
   sectors 844 to 972, and zeros.
   */
  function LongDirectorySector(lba: int): Sector {
    if lba == 0 then SignedBoot() else if 844 <= lba <= 972 then Filled(1) else Filled(0)
  }

  function LongDirectoryDisk(): Disk {
    Disk(lba => LongDirectorySector(lba))
  }

  /**
   With the geometry of the repository's own boot record, a directory at cluster 3 with one
   sector of entries more than the cluster holds, and a table entry that ends its chain: it
   is freed, then searched.
   */
  lemma FreedFollowedExample()
    ensures var v := Volume(LongDirectoryDisk(), 128, 200, 716);
      && v.disk.Byte(38) == 0x29
      && Resolve(v, [EntryNamed(65, 0x10, 3)], ["A", "B"]) == FreedFollowed(EntryNamed(65, 0x10, 3))
  {
    hide IsDirectory;
    hide EntryNamed;
    hide LongDirectoryDisk;
    hide Count;
    var v := Volume(LongDirectoryDisk(), 128, 200, 716);
    NameOfEntry(65, 0x10, 3, "A");
    Attributes(3);
    assert ["A", "B"][1..] == ["B"];
    LongDirectoryBytes(38);
    LongDirectoryCount(v);
    LongDirectoryEnds(v);
  }

  lemma LongDirectoryBytes(pos: int)
    ensures LongDirectoryDisk().Byte(pos) ==
      if pos == 38 then 0x29 else if 844 <= pos / 512 <= 972 then 1 else 0
  {
    var lba, i := pos / 512, pos % 512;
    assert pos == 512 * lba + i;
    assert LongDirectoryDisk().sectors(lba) == LongDirectorySector(lba);
  }

  lemma LongDirectoryEnds(v: Volume)
    requires v == Volume(LongDirectoryDisk(), 128, 200, 716) && Count(v, 3) == 2064
    ensures EntriesOnChain(v, 3) == None
  {
    hide LongDirectoryDisk;
    hide Count;
    assert v.FatEntryPosition(3) == 614400;
    LongDirectoryBytes(614400);
    LongDirectoryBytes(614401);
    assert v.FatEntry(3) == 0;
    assert ChainAt(v, 3, 0) == Some(3) && LastLink(v, 0, 66048) == 1 && ChainAt(v, 3, 1) == None;
  }

  lemma LongDirectoryCount(v: Volume)
    requires v == Volume(LongDirectoryDisk(), 128, 200, 716)
    ensures Count(v, 3) == 2064
  {
    hide Bytes;
    hide LongDirectoryDisk;
    var d, pos := v.disk, v.ClusterPosition(3);
    assert pos == 432128 && EntriesFrom(pos) > 2064;
    forall k | 0 <= k < 2064 ensures Slot(d, pos, k)[0] == 1 {
      LongDirectoryBytes(pos + 32 * k + 0);
    }
    LongDirectoryBytes(pos + 32 * 2064 + 0);
    assert Slot(d, pos, 2064)[0] == 0;
    EndIndexIs(d, pos, EntriesFrom(pos), 0, 2064);
    InUseOfClean(AllEntries(v, 3), 2064);
    InUseBound(AllEntries(v, 3));
  }

  // ----- Items on the heap

  datatype LoadedDirectory = LoadedDirectory(addr: uint32, items: uint32, entries: seq<Entry>)

  /** What an item leads to: nothing for a file, a loaded directory, or one that has been given back already. */
  datatype Contents = OfFile | Listed(directory: LoadedDirectory) | Freed(addr: uint32)

  /** A fat_item: its own address, its copy of the entry, and its contents. */
  datatype FatItem = FatItem(addr: uint32, copy: uint32, entry: Entry, contents: Contents)

  function BlocksOfEntries(n: nat): nat {
    if 32 * n < 0x8000_0000 then BlocksFor(32 * n) else 0
  }

  /** Just enough blocks for the entries, of 32 bytes each. */
  lemma EntriesFitBlocks(n: nat)
    requires 32 * n < 0x8000_0000
    ensures 32 * n <= 4096 * BlocksOfEntries(n) < 32 * n + 4096
  {
  }

  /** The number of entries for which room is made when a directory is loaded. */
  function CountOf(v: Volume, e: Entry): nat {
    Count(v, FirstCluster(e))
  }

  /**
   The blocks taken while an item is loaded: one for itself, one for the copy, for a
   directory one and its entries'.
   */
  function Cost(v: Volume, e: Entry): nat {
    if IsDirectory(e) then 3 + BlocksOfEntries(CountOf(v, e)) else 2
  }

  ghost function DirectoryHolds(s: uint32, d: LoadedDirectory): map<nat, nat> {
    map[BlockOf(s, d.addr) := 1]
    + if d.entries == [] then map[] else map[BlockOf(s, d.items) := BlocksOfEntries(|d.entries|)]
  }

  /** The item's allocations, first block to number of blocks. */
  ghost function Holds(s: uint32, item: FatItem): map<nat, nat> {
    map[BlockOf(s, item.addr) := 1, BlockOf(s, item.copy) := 1]
    + if item.contents.Listed? then DirectoryHolds(s, item.contents.directory) else map[]
  }

  predicate IsBlockOf(s: uint32, addr: uint32) {
    addr >= s && addr == s + 4096 * BlockOf(s, addr)
  }

  /** The addresses are those of blocks, all different; an empty directory's entries are nobody's block. */
  ghost predicate ItemShaped(s: uint32, item: FatItem) {
    && IsBlockOf(s, item.addr) && IsBlockOf(s, item.copy) && item.addr != item.copy
    && (item.contents.Listed? ==>
      var d := item.contents.directory;
      && IsBlockOf(s, d.addr) && IsBlockOf(s, d.items)
      && d.addr !in {item.addr, item.copy} && d.items !in {item.addr, item.copy, d.addr})
  }

  /** The address kept for no entries at all is still nobody's. */
  ghost predicate NothingOwned(h: HeapState, item: FatItem) {
    item.contents.Listed? && item.contents.directory.entries == [] ==>
      var b := BlockOf(h.saddr, item.contents.directory.items); b < h.total && !Owned(h.live, b)
  }

  /** The item is the entry, loaded: a directory with its entries, or freed when its chain ends early. */
  ghost predicate IsLoaded(v: Volume, s: uint32, item: FatItem, e: Entry)
    requires v.Valid()
  {
    && item.entry == e && ItemShaped(s, item)
    && (!IsDirectory(e) ==> item.contents == OfFile)
    && (IsDirectory(e) ==>
      match EntriesOf(v, e)
      case None => item.contents.Freed?
      case Some(es) => item.contents.Listed? && item.contents.directory.entries == es)
  }

  /** The entry can be loaded: a directory's end is found, and an empty one finds the heap's last block free. */
  ghost predicate CanLoad(v: Volume, e: Entry, tail: bool)
    requires v.Valid()
  {
    IsDirectory(e) ==> Loadable(v, FirstCluster(e)) && (CountOf(v, e) == 0 ==> tail)
  }

  lemma BlockOfAddress(s: uint32, addr: uint32, b: nat)
    requires addr == BlockToAddress(s, b)
    ensures BlockOf(s, addr) == b && IsBlockOf(s, addr)
  {
    DivUnique(addr - s, 4096, b, 0);
  }

  lemma SmallSizes()
    ensures BlocksFor(12) == BlocksFor(20) == BlocksFor(32) == 1
  {
  }

  lemma EntryCountFits(v: Volume, c: uint16)
    requires v.Valid()
    ensures var n := Count(v, c);
      && 32 * n < 0x8000_0000 && BlocksOfEntries(n) == BlocksFor(32 * n)
      && (n > 0 ==> BlocksOfEntries(n) >= 1) && (n == 0 ==> BlocksOfEntries(n) == 0)
    ensures EntriesOnChain(v, c).Some? ==> |EntriesOnChain(v, c).value| == Count(v, c)
    ensures Count(v, c) == 0 ==> EntriesOnChain(v, c) == Some([])
  {
    hide AlignUp;
    AlignUpCovers(32 * Count(v, c));
    if Count(v, c) == 0 {
      EmptyOnChain(v, c);
    }
  }

  lemma LoadableIsCounted(v: Volume, c: uint16)
    requires v.Valid() && Loadable(v, c)
    ensures v.ClusterToSector(c) >= 0 && Ends(v.disk, 512 * v.ClusterToSector(c))
    ensures Count(v, c) == |InUse(Listing(v.disk, 512 * v.ClusterToSector(c)))|
  {
  }

  /**
   fat16_load_fat_directory: the directory's own block, and the blocks of its entries. When
   the chain ends before the entries counted, both are freed again, and the caller is given
   the freed address all the same.
   */
  method LoadFatDirectory(k: Kernel, fs: F.Fat16, entry: Entry, ghost space: nat, ghost tail: bool)
    returns (contents: Contents, ghost b: nat, ghost bi: nat)
    requires k.Valid() && fs.Valid() && IsDirectory(entry) && CanLoad(fs.volume, entry, tail)
    requires 1 + BlocksOfEntries(CountOf(fs.volume, entry)) <= space && Space(k.State(), space, tail)
    modifies k.heap.entries, k.heap`live, k.cells, fs.fatStream, fs.dataStream, fs.directoryStream
    ensures k.Valid() && Space(k.State(), space - 1 - BlocksOfEntries(CountOf(fs.volume, entry)), tail)
    ensures match EntriesOf(fs.volume, entry)
      case None => contents.Freed? && k.heap.live == old(k.heap.live)
      case Some(es) =>
        && contents.Listed? && contents.directory.entries == es
        && contents.directory.addr == BlockToAddress(k.heap.saddr, b) && b !in old(k.heap.live)
        && contents.directory.items == BlockToAddress(k.heap.saddr, bi)
        && (es == [] ==>
          && k.heap.live == old(k.heap.live)[b := 1]
          && bi < k.heap.total && !Owned(k.heap.live, bi) && bi !in k.heap.live)
        && (es != [] ==>
          && bi !in old(k.heap.live) && b != bi
          && k.heap.live == old(k.heap.live)[b := 1][bi := BlocksOfEntries(|es|)])
  {
    hide Describes;
    hide Room;
    hide TailRoom;
    hide IsDirectory;
    hide EntriesOnChain;
    hide Loadable;
    hide Ends;
    hide InUse;
    hide Listing;
    hide Count;
    hide BlocksFor;
    ghost var v, c := fs.volume, FirstCluster(entry);
    EntryCountFits(v, c);
    SmallSizes();
    var addr, items;
    addr, b := k.KzallocIn(20, space, tail);
    LoadableIsCounted(v, c);
    var total := GetTotalItems(fs.directoryStream, fs.volume.ClusterToSector(FirstCluster(entry)));
    if total == 0 {
      items, bi := k.KzallocNothing(space - 1);
    } else {
      items, bi := k.KzallocIn(32 * total, space - 1, tail);
    }
    var res, es := LoadEntries(fs, FirstCluster(entry), total);
    if res != 0 {
      k.KfreeIn(items, bi, space - 1 - BlocksOfEntries(total), tail);
      k.KfreeIn(addr, b, space - 1 - BlocksOfEntries(total), tail);
      return Freed(addr), b, bi;
    }
    contents := Listed(LoadedDirectory(addr, items, es));
  }

  lemma ItemHolds(live: map<nat, nat>, s: uint32, item: FatItem, b0: nat, b1: nat)
    requires !item.contents.Listed? && b0 !in live && b1 !in live && b0 != b1
    requires item.addr == BlockToAddress(s, b0) && item.copy == BlockToAddress(s, b1)
    ensures ItemShaped(s, item) && Holds(s, item).Keys !! live.Keys
    ensures live[b0 := 1][b1 := 1] == live + Holds(s, item)
  {
    BlockOfAddress(s, item.addr, b0);
    BlockOfAddress(s, item.copy, b1);
  }

  lemma DirectoryItemHolds(live: map<nat, nat>, s: uint32, item: FatItem, b0: nat, b1: nat, b2: nat, b3: nat)
    requires item.contents.Listed? && b0 !in live && b1 !in live && b0 != b1
    requires b2 !in live[b0 := 1][b1 := 1]
    requires item.addr == BlockToAddress(s, b0) && item.copy == BlockToAddress(s, b1)
    requires var d := item.contents.directory; d.addr == BlockToAddress(s, b2) && d.items == BlockToAddress(s, b3)
    requires b3 !in live[b0 := 1][b1 := 1][b2 := 1]
    ensures ItemShaped(s, item) && Holds(s, item).Keys !! live.Keys && BlockOf(s, item.contents.directory.items) == b3
    ensures var n, l := |item.contents.directory.entries|, live[b0 := 1][b1 := 1][b2 := 1];
      (if n == 0 then l else l[b3 := BlocksOfEntries(n)]) == live + Holds(s, item)
  {
    BlockOfAddress(s, item.addr, b0);
    BlockOfAddress(s, item.copy, b1);
    BlockOfAddress(s, item.contents.directory.addr, b2);
    BlockOfAddress(s, item.contents.directory.items, b3);
  }

  /** fat16_new_fat_item_for_directory_item. */
  method NewFatItem(k: Kernel, fs: F.Fat16, entry: Entry, ghost space: nat, ghost tail: bool) returns (item: FatItem)
    requires k.Valid() && fs.Valid() && CanLoad(fs.volume, entry, tail)
    requires Cost(fs.volume, entry) <= space && Space(k.State(), space, tail)
    modifies k.heap.entries, k.heap`live, k.cells, fs.fatStream, fs.dataStream, fs.directoryStream
    ensures k.Valid() && Space(k.State(), space - Cost(fs.volume, entry), tail)
    ensures IsLoaded(fs.volume, k.heap.saddr, item, entry) && NothingOwned(k.State(), item)
    ensures Holds(k.heap.saddr, item).Keys !! old(k.heap.live).Keys
    ensures k.heap.live == old(k.heap.live) + Holds(k.heap.saddr, item)
  {
    hide Describes;
    hide Space;
    hide IsDirectory;
    hide EntriesOf;
    hide BlocksFor;
    hide BlocksOfEntries;
    hide Holds;
    hide ItemShaped;
    hide Count;
    SmallSizes();
    ghost var s, l0 := k.heap.saddr, k.heap.live;
    var self, copy, contents;
    ghost var b0, b1, b2, b3;
    self, b0 := k.KzallocIn(12, space, tail);
    copy, b1 := k.KzallocIn(32, space - 1, tail);
    if IsDirectory(entry) {
      contents, b2, b3 := LoadFatDirectory(k, fs, entry, space - 2, tail);
      item := FatItem(self, copy, entry, contents);
      if contents.Listed? {
        DirectoryItemHolds(l0, s, item, b0, b1, b2, b3);
      } else {
        ItemHolds(l0, s, item, b0, b1);
      }
    } else {
      item := FatItem(self, copy, entry, OfFile);
      ItemHolds(l0, s, item, b0, b1);
    }
  }

  /** The first blocks that freeing an item frees. */
  ghost function Frees(s: uint32, item: FatItem): set<nat> {
    {BlockOf(s, item.addr), BlockOf(s, item.copy)}
    + if item.contents.Listed? then
        {BlockOf(s, item.contents.directory.addr), BlockOf(s, item.contents.directory.items)}
      else {}
  }

  /** The address kept for no entries at all has since become an allocation of somebody else's. */
  ghost predicate NothingHandedOut(s: uint32, live: map<nat, nat>, item: FatItem) {
    && item.contents.Listed? && item.contents.directory.entries == []
    && BlockOf(s, item.contents.directory.items) in live
  }

  /**
   fat16_fat_item_free, of an item whose directory has not been freed before. Of an empty
   directory it also frees the address kept for its entries: that takes an allocation away
   from somebody else exactly when one has been made there since.
   */
  method FreeFatItem(k: Kernel, item: FatItem, ghost space: nat, ghost tail: bool)
    requires k.Valid() && ItemShaped(k.heap.saddr, item) && Space(k.State(), space, tail)
    requires !item.contents.Freed? && Holds(k.heap.saddr, item).Keys <= k.heap.live.Keys
    requires item.contents.Listed? ==>
      Freeable(k.heap.live, k.heap.total, BlockOf(k.heap.saddr, item.contents.directory.items))
    modifies k.heap.entries, k.heap`live
    ensures k.Valid() && Space(k.State(), space, tail)
    ensures k.heap.live == old(k.heap.live) - Frees(k.heap.saddr, item)
    ensures k.heap.live == old(k.heap.live) - Holds(k.heap.saddr, item).Keys <==>
      !NothingHandedOut(k.heap.saddr, old(k.heap.live), item)
  {
    hide Describes;
    hide Space;
    hide BlocksOfEntries;
    hide Freeable;
    hide Holds;
    ghost var s, l0 := k.heap.saddr, k.heap.live;
    FreesIsHolds(s, item, l0);
    if item.contents.Listed? {
      var d := item.contents.directory;
      k.KfreeIn(d.items, BlockOf(s, d.items), space, tail);
      LiveIsFreeable(k.State(), BlockOf(s, d.addr));
      k.KfreeIn(d.addr, BlockOf(s, d.addr), space, tail);
    }
    LiveIsFreeable(k.State(), BlockOf(s, item.copy));
    k.KfreeIn(item.copy, BlockOf(s, item.copy), space, tail);
    LiveIsFreeable(k.State(), BlockOf(s, item.addr));
    k.KfreeIn(item.addr, BlockOf(s, item.addr), space, tail);
  }

  lemma FreesIsHolds(s: uint32, item: FatItem, live: map<nat, nat>)
    requires ItemShaped(s, item) && Holds(s, item).Keys <= live.Keys
    ensures BlockOf(s, item.addr) in live && BlockOf(s, item.copy) in live
    ensures item.contents.Listed? ==> BlockOf(s, item.contents.directory.addr) in live
    ensures live - Frees(s, item) == live - Holds(s, item).Keys <==> !NothingHandedOut(s, live, item)
  {
    hide BlocksOfEntries;
    hide BlockOf;
    var own := {BlockOf(s, item.addr), BlockOf(s, item.copy)};
    if item.contents.Listed? {
      var d := item.contents.directory;
      var items := BlockOf(s, d.items);
      assert Holds(s, item).Keys == own + {BlockOf(s, d.addr)} + if d.entries == [] then {} else {items};
      assert Frees(s, item) == own + {BlockOf(s, d.addr), items};
      if d.entries != [] {
        assert Frees(s, item) == Holds(s, item).Keys;
      } else {
        assert items !in Holds(s, item).Keys;
        assert items in live ==> items in live - Holds(s, item).Keys;
        if items !in live {
          assert live - Frees(s, item) == live - Holds(s, item).Keys;
        }
      }
    } else {
      assert Frees(s, item) == Holds(s, item).Keys;
    }
  }

  // ----- Looking a path up

  lemma RenderedHasNoNul(e: Entry)
    ensures '\0' !in RenderedName(e)
  {
  }

  /** fat16_find_item_in_directory: loads the first entry with a matching name. */
  method FindItem(k: Kernel, fs: F.Fat16, es: seq<Entry>, name: string, ghost space: nat, ghost tail: bool)
    returns (item: Option<FatItem>)
    requires k.Valid() && fs.Valid() && '\0' !in name && Space(k.State(), space, tail)
    requires FindIn(es, name).Some? ==>
      CanLoad(fs.volume, FindIn(es, name).value, tail) && Cost(fs.volume, FindIn(es, name).value) <= space
    modifies k.heap.entries, k.heap`live, k.cells, fs.fatStream, fs.dataStream, fs.directoryStream
    ensures k.Valid()
    ensures FindIn(es, name) == None ==> item == None && k.State() == old(k.State())
    ensures FindIn(es, name).Some? ==>
      && item.Some? && IsLoaded(fs.volume, k.heap.saddr, item.value, FindIn(es, name).value)
      && NothingOwned(k.State(), item.value)
      && Space(k.State(), space - Cost(fs.volume, item.value.entry), tail)
      && Holds(k.heap.saddr, item.value).Keys !! old(k.heap.live).Keys
      && k.heap.live == old(k.heap.live) + Holds(k.heap.saddr, item.value)
  {
    hide Describes;
    hide Space;
    hide CanLoad;
    hide Cost;
    hide Holds;
    hide ItemShaped;
    hide NothingOwned;
    hide EntriesOf;
    hide IsDirectory;
    hide RenderedName;
    hide SameIgnoringCase;
    item := None;
    var i := 0;
    assert es[0..] == es;
    while i < |es|
      invariant 0 <= i <= |es| && FindIn(es, name) == FindIn(es[i..], name)
      invariant k.Valid() && k.State() == old(k.State()) && item == None
    {
      var tmp := RenderedName(es[i]);
      RenderedHasNoNul(es[i]);
      var r := IStrNCmp(tmp, name, MAX_PATH);
      assert es[i..][0] == es[i] && es[i..][1..] == es[i + 1..];
      if r == 0 {
        var loaded := NewFatItem(k, fs, es[i], space, tail);
        return Some(loaded);
      }
      i := i + 1;
    }
  }

  /** Every directory that the descent loads can be loaded. */
  ghost predicate PathLoadable(v: Volume, current: Entry, rest: seq<string>, tail: bool)
    requires v.Valid()
    decreases |rest|
  {
    rest != [] && IsDirectory(current) && EntriesOf(v, current).Some? ==>
      match FindIn(EntriesOf(v, current).value, rest[0])
      case None => true
      case Some(e) => CanLoad(v, e, tail) && PathLoadable(v, e, rest[1..], tail)
  }

  /** The blocks that the items still to be loaded on the descent take. */
  ghost function PathCost(v: Volume, current: Entry, rest: seq<string>): nat
    requires v.Valid()
    decreases |rest|
  {
    if rest == [] || !IsDirectory(current) || EntriesOf(v, current) == None then 0
    else
      match FindIn(EntriesOf(v, current).value, rest[0])
      case None => 0
      case Some(e) => Cost(v, e) + PathCost(v, e, rest[1..])
  }

  lemma SwapItems(l0: map<nat, nat>, cur: map<nat, nat>, tmp: map<nat, nat>, live: map<nat, nat>)
    requires cur.Keys !! l0.Keys && tmp.Keys !! (l0 + cur).Keys
    requires live == l0 + cur + tmp
    ensures live - cur.Keys == l0 + tmp && cur.Keys <= live.Keys && tmp.Keys !! l0.Keys
    ensures l0 + cur - cur.Keys == l0 && cur.Keys <= (l0 + cur).Keys
  {
  }

  /** What nobody owns is still nobody's when allocations go. */
  lemma StillNothingOwned(h: HeapState, h': HeapState, item: FatItem, gone: set<nat>)
    requires NothingOwned(h, item) && h'.saddr == h.saddr && h'.total == h.total && h'.live == h.live - gone
    ensures NothingOwned(h', item)
  {
  }

  /** One level down: the item found in the current one's directory takes its place on the heap. */
  method Descend(k: Kernel, fs: F.Fat16, current: FatItem, name: string, ghost l0: map<nat, nat>, ghost space: nat,
                 ghost tail: bool)
    returns (item: Option<FatItem>)
    requires k.Valid() && fs.Valid() && '\0' !in name && Space(k.State(), space, tail)
    requires IsLoaded(fs.volume, k.heap.saddr, current, current.entry) && current.contents.Listed?
    requires NothingOwned(k.State(), current)
    requires Holds(k.heap.saddr, current).Keys !! l0.Keys && k.heap.live == l0 + Holds(k.heap.saddr, current)
    requires var found := FindIn(current.contents.directory.entries, name);
      found.Some? ==> CanLoad(fs.volume, found.value, tail) && Cost(fs.volume, found.value) <= space
    modifies k.heap.entries, k.heap`live, k.cells, fs.fatStream, fs.dataStream, fs.directoryStream
    ensures k.Valid()
    ensures match FindIn(current.contents.directory.entries, name)
      case None => item == None && k.heap.live == l0 && Space(k.State(), space, tail)
      case Some(e) =>
        && item.Some? && IsLoaded(fs.volume, k.heap.saddr, item.value, e) && NothingOwned(k.State(), item.value)
        && Space(k.State(), space - Cost(fs.volume, e), tail)
        && Holds(k.heap.saddr, item.value).Keys !! l0.Keys
        && k.heap.live == l0 + Holds(k.heap.saddr, item.value)
  {
    hide Describes;
    hide Space;
    hide CanLoad;
    hide Cost;
    hide Holds;
    hide ItemShaped;
    hide NothingOwned;
    hide EntriesOf;
    hide FindIn;
    hide IsDirectory;
    ghost var s, cur := k.heap.saddr, Holds(k.heap.saddr, current);
    var entries := current.contents.directory.entries;
    NoMatchInNothing(name);
    item := FindItem(k, fs, entries, name, space, tail);
    if item.Some? {
      ghost var h := k.State();
      SwapItems(l0, cur, Holds(s, item.value), k.heap.live);
      NonemptyOwnsNothing(k.State(), current);
      ItemCanGo(k.State(), current);
      FreeFatItem(k, current, space - Cost(fs.volume, item.value.entry), tail);
      StillNothingOwned(h, k.State(), item.value, cur.Keys);
    } else {
      SwapItems(l0, cur, map[], l0 + cur + map[]);
      ItemCanGo(k.State(), current);
      FreeFatItem(k, current, space, tail);
    }
  }

  lemma NoMatchInNothing(name: string)
    ensures FindIn([], name) == None
  {
  }

  /** As long as nobody owns what is kept for no entries, an item can be freed, and takes nothing else away. */
  lemma ItemCanGo(h: HeapState, item: FatItem)
    requires h.Good() && NothingOwned(h, item) && item.contents.Listed? && Holds(h.saddr, item).Keys <= h.live.Keys
    ensures Freeable(h.live, h.total, BlockOf(h.saddr, item.contents.directory.items))
    ensures !NothingHandedOut(h.saddr, h.live, item)
  {
    hide Describes;
    var b := BlockOf(h.saddr, item.contents.directory.items);
    if item.contents.directory.entries == [] {
      LiveIsOwned(h, b);
    } else {
      assert b in Holds(h.saddr, item);
      LiveIsFreeable(h, b);
    }
  }

  lemma NonemptyOwnsNothing(h: HeapState, item: FatItem)
    requires item.contents.Listed? && item.contents.directory.entries != []
    ensures NothingOwned(h, item)
  {
  }

  /**
   fat16_get_directory_entry, for paths that do not lead it through a null or a freed
   pointer. The result is what the descent resolves to, and on the heap only the result's
   own allocations are left: none when a name is missing. A file met where a directory
   was needed is left allocated and returned to nobody.
   */
  method GetDirectoryEntry(k: Kernel, fs: F.Fat16, root: seq<Entry>, names: seq<string>, ghost space: nat,
                           ghost tail: bool)
    returns (item: Option<FatItem>, ghost stray: Option<FatItem>)
    requires k.Valid() && fs.Valid() && names != [] && forall n | n in names :: '\0' !in n
    requires !MissesBetween(fs.volume, root, names) && !EndsEarlyBetween(fs.volume, root, names)
    requires FindIn(root, names[0]).Some? ==>
      var e := FindIn(root, names[0]).value;
      && CanLoad(fs.volume, e, tail) && PathLoadable(fs.volume, e, names[1..], tail)
      && Cost(fs.volume, e) + PathCost(fs.volume, e, names[1..]) <= space
    requires Space(k.State(), space, tail)
    modifies k.heap.entries, k.heap`live, k.cells, fs.fatStream, fs.dataStream, fs.directoryStream
    ensures k.Valid()
    ensures match Resolve(fs.volume, root, names)
      case Found(e) =>
        && item.Some? && IsLoaded(fs.volume, k.heap.saddr, item.value, e) && NothingOwned(k.State(), item.value)
        && Holds(k.heap.saddr, item.value).Keys !! old(k.heap.live).Keys
        && k.heap.live == old(k.heap.live) + Holds(k.heap.saddr, item.value)
      case Missing => item == None && k.heap.live == old(k.heap.live)
      case FileInTheWay(f) =>
        && item == None && stray.Some? && IsLoaded(fs.volume, k.heap.saddr, stray.value, f)
        && Holds(k.heap.saddr, stray.value).Keys !! old(k.heap.live).Keys
        && k.heap.live == old(k.heap.live) + Holds(k.heap.saddr, stray.value)
      case NullFollowed => false
      case FreedFollowed(_) => false
  {
    hide Describes;
    hide Space;
    hide CanLoad;
    hide Cost;
    hide Holds;
    hide ItemShaped;
    hide NothingOwned;
    hide EntriesOf;
    hide FindIn;
    hide IsDirectory;
    hide MissesBetween;
    hide EndsEarlyBetween;
    ghost var v, s, l0, left := fs.volume, k.heap.saddr, k.heap.live, space;
    NullFollowedIff(v, root, names);
    FreedFollowedIff(v, root, names);
    stray := None;
    item := FindItem(k, fs, root, names[0], space, tail);
    if item == None {
      return;
    }
    left := left - Cost(v, item.value.entry);
    var i := 1;
    while i < |names|
      invariant 1 <= i <= |names| && k.Valid() && item.Some?
      invariant IsLoaded(v, s, item.value, item.value.entry) && NothingOwned(k.State(), item.value)
      invariant Resolve(v, root, names) == ResolveFrom(v, item.value.entry, names[i..])
      invariant PathLoadable(v, item.value.entry, names[i..], tail)
      invariant PathCost(v, item.value.entry, names[i..]) <= left && Space(k.State(), left, tail)
      invariant Holds(s, item.value).Keys !! l0.Keys && k.heap.live == l0 + Holds(s, item.value)
    {
      if item.value.contents == OfFile {
        stray := item;
        return None, stray;
      }
      assert names[i..][0] == names[i] && names[i..][1..] == names[i + 1..];
      item := Descend(k, fs, item.value, names[i], l0, left, tail);
      if item == None {
        return;
      }
      left := left - Cost(v, item.value.entry);
      i := i + 1;
    }
  }
}
