/** Appending to an existing image: loading its tables and registering its files, adding to it and closing it
    again, and the rollback of an interrupted append. */
module Appending {
  import opened Wrappers

  import opened Archives
  import opened Bits
  import opened BitFields
  import opened DataStore
  import opened Directories
  import opened Duplicates
  import opened FileBlocks
  import opened FragmentTable
  import opened Inodes
  import opened Items
  import opened MetadataBlocks
  import opened MetadataStream
  import opened Room

  const INODE_GROWTH: nat := 2 * METADATA_SIZE + 2
  const DIRECTORY_GROWTH: nat := 2 * METADATA_SIZE   // write_dir counts two bytes less than it allocates

  // ---- loading ----

  lemma SuffixStart(s: seq<byte>, b: nat, c: nat)
    requires b <= |s| && c <= |s| && s[b..] == s[c..]
    ensures b == c
  {
    assert |s[b..]| == |s| - b && |s[c..]| == |s| - c;
  }

  lemma LoadedInProgress(f: Format, s: seq<byte>, b: nat)
    requires b <= |s| && b % METADATA_SIZE == 0
    ensures InProgress(f, EncodeStream(f, s[..b]), s[b..], s)
  {
  }

  lemma BlockBehind(p: nat)
    ensures BlockStart(p) <= p && BlockStart(p) % METADATA_SIZE == 0 && p - BlockStart(p) < METADATA_SIZE
  {
  }

  /** The part of read_filesystem that reads the inode table and rebuilds table and cache. The root inode is the
      last; with `keepRoot` it stays in the stream, otherwise it is dropped, its bytes remaining in the buffer. */
  method LoadInodes(f: Format, img: seq<byte>, start: nat, end: nat, root: nat, keepRoot: bool, ghost s: seq<byte>)
    returns (ok: bool, t: MetadataTable, all: seq<byte>)
    requires f.codec.Faithful() && Holds(img, start, EncodeStream(f, s)) && end == start + |EncodeStream(f, s)|
    requires |s| >= DIR_BYTES && root == NumberOf(f, s, |s| - DIR_BYTES)
    ensures ok && fresh(t) && t.Valid() && t.f == f
    ensures t.savedStream == s && t.stream == (if keepRoot then s else s[..|s| - DIR_BYTES])
    ensures all == s
  {
    hide Holds, EncodeStream, DecodeStream, Visits, InProgress, NumberOf, BlockStart;
    ghost var p := |s| - DIR_BYTES;
    ghost var b := BlockStart(p);
    BlockBehind(p);
    var rootStart := start + root / 0x1_0000;
    var rootOffset := root % 0x1_0000;
    NumberParts(f, s, p);
    StreamRoundTrip(f, img, start, s);
    BlockIsVisited(f, img, start, s, b);
    DecodeFromBlock(f, img, start, s, b);
    var found, rootBlock;
    ok, all, found, rootBlock := ReadTable(f, img, start, end, rootStart);
    SuffixStart(s, b, rootBlock);
    var cache := all[rootBlock..rootBlock + rootOffset + DIR_BYTES];
    HoldsSlice(img, start, EncodeStream(f, s[..b]));
    var table := img[start..rootStart];
    assert cache == s[b..];
    LoadedInProgress(f, s, b);
    t := new MetadataTable.Loaded(f, INODE_GROWTH, table, cache, if keepRoot then rootOffset + DIR_BYTES else rootOffset, s);
    t.Save();
    assert s[..|s|] == s;
  }

  /** What was read holds the directory behind `offset`. */
  lemma EndOfPrefix(data: seq<byte>, s: seq<byte>, b: nat, offset: nat, size: nat)
    requires b + offset + size == |s| && |data| >= offset + size && data[..offset + size] == s[b..]
    ensures Holds(data, offset, s[b + offset..])
  {
    assert data[offset..offset + size] == data[..offset + size][offset..];
    assert s[b..][offset..] == s[b + offset..];
    HoldsSlice(data, offset, s[b + offset..]);
  }

  lemma WholePrefix(data: seq<byte>, t: seq<byte>, n: nat)
    requires data <= t && |data| >= n && |t| == n
    ensures data[..n] == t
  {
  }

  lemma SplitNumber(block: nat, offset: nat)
    requires offset < 0x1_0000
    ensures (block * 0x1_0000 + offset) / 0x1_0000 == block && (block * 0x1_0000 + offset) % 0x1_0000 == offset
  {
  }

  /** squashfs_readdir for the root directory, and the part of read_filesystem that rebuilds the directory table and
      cache from the root inode's fields. The root directory is the last in its table; its entries are wanted if it
      is to be replaced. */
  method LoadDirectories(f: Format, img: seq<byte>, start: nat, block: nat, offset: nat, size: nat, keepRoot: bool,
                         ghost s: seq<byte>, ghost runs: seq<seq<Entry>>)
    returns (ok: bool, t: MetadataTable, entries: seq<Entry>)
    requires f.codec.Faithful() && Holds(img, start, EncodeStream(f, s))
    requires size <= |s| && offset < 0x1_0000 && block * 0x1_0000 + offset == NumberOf(f, s, |s| - size)
    requires AllRuns(runs) && s[|s| - size..] == RunsBytes(f.order, runs)
    ensures ok && fresh(t) && t.Valid() && t.f == f
    ensures t.savedStream == s && t.stream == (if keepRoot then s else s[..|s| - size])
    ensures entries == if keepRoot then [] else StoredEntries(Flatten(runs))
  {
    hide Holds, EncodeStream, ReadUntil, InProgress, NumberOf, BlockStart, DecodeStream, RunsBytes, ParseRuns,
      Flatten, IsRun;
    ghost var p := |s| - size;
    ghost var b := BlockStart(p);
    BlockBehind(p);
    NumberParts(f, s, p);
    NumberPointsAt(f, img, start, s, p);
    DecodeFromBlock(f, img, start, s, b);
    SplitNumber(block, offset);
    ReadUntilPrefix(f, img, start + block, s[b..], offset + size);
    var data;
    ok, data := ReadBlocks(f, img, start + block, offset + size);
    var cache := data[..offset + size];
    HoldsSlice(img, start, EncodeStream(f, s[..b]));
    var table := img[start..start + block];
    WholePrefix(data, s[b..], offset + size);
    LoadedInProgress(f, s, b);
    t := new MetadataTable.Loaded(f, DIRECTORY_GROWTH, table, cache, if keepRoot then offset + size else offset, s);
    t.Save();
    assert s[..|s|] == s;
    entries := [];
    if !keepRoot {
      EndOfPrefix(data, s, b, offset, size);
      RunsRoundTrip(f.order, data, offset, runs);
      ok, entries := PushEntries(f.order, data, offset, offset + size);
    }
  }

  // ---- the root directory ----

  /** The fields of this inode lead to the listing that ends the directory stream, behind all others. */
  ghost predicate RootIsAt(w: World, items: seq<Item>, i: Item) {
    && items != [] && i.Listed? && i.inode.Directory? && i.inode.Storable() && i.at <= |w.listings|
    && i.inode.fileSize == |w.listings| - i.at && i.inode.offset < 0x1_0000
    && i.inode.start * 0x1_0000 + i.inode.offset == NumberOf(w.f, w.listings, i.at)
    && EndsBelow(w.f.order, items[..|items| - 1], i.at)
  }

  /** The last inode is the root's, and its fields say where its listing is. */
  lemma RootSays(w: World, items: seq<Item>, stream: seq<byte>)
    requires EndsWithListing(w.f, items, w.listings) && Narrow(w.f, w.listings, items[|items| - 1])
    requires Holding(w, items, stream)
    ensures RootIsAt(w, items, items[|items| - 1])
  {
    hide Low, RunsBytes, NumberOf, HeldStands, EncodeAll, AllWellFormed, Holds, EndsBelow, Inode.Storable;
    var n := |items| - 1;
    var place, size := NumberOf(w.f, w.listings, items[n].at), |RunsBytes(w.f.order, items[n].runs)|;
    assert ItemStands(w, items[n]);
    NumberParts(w.f, w.listings, items[n].at);
    DirectoryFieldsKeep(size, place % 0x1_0000, place / 0x1_0000);
  }

  lemma RootFields(o: Order, rootDir: Inode, bytes: seq<byte>)
    requires rootDir.Directory? && rootDir.Storable() && bytes == Encode(o, rootDir)
    ensures |bytes| == DIR_BYTES && IsLayout(DIR_LAYOUT, DIR_BYTES)
    ensures Get(o, bytes, DIR_LAYOUT[4]) == rootDir.fileSize
    ensures Get(o, bytes, DIR_LAYOUT[5]) == rootDir.offset
    ensures Get(o, bytes, DIR_LAYOUT[7]) == rootDir.start
  {
    hide Get, Fits;
    LayoutsAreSound();
    var header := Pack(o, DIR_BYTES, DIR_LAYOUT, rootDir.Values());
    assert bytes == header + [] == header;
    PackRoundTrip(o, DIR_BYTES, DIR_LAYOUT, rootDir.Values(), 4);
    PackRoundTrip(o, DIR_BYTES, DIR_LAYOUT, rootDir.Values(), 5);
    PackRoundTrip(o, DIR_BYTES, DIR_LAYOUT, rootDir.Values(), 7);
  }

  lemma DirectoryLength(o: Order, i: Inode)
    requires i.Directory? && i.Storable()
    ensures |Encode(o, i)| == DIR_BYTES
  {
  }

  /** The root inode ends the inode stream. */
  lemma RootEnds(o: Order, inodes: seq<Inode>, blockLog: nat)
    requires inodes != [] && AllWellFormed(inodes, blockLog) && inodes[|inodes| - 1].Directory?
    ensures
      var n := |inodes| - 1;
      var s := EncodeAll(o, inodes, blockLog);
      && AllWellFormed(inodes[..n], blockLog) && inodes[n].Storable() && |s| >= DIR_BYTES
      && s[..|s| - DIR_BYTES] == EncodeAll(o, inodes[..n], blockLog)
      && s[|s| - DIR_BYTES..] == Encode(o, inodes[n])
  {
    hide Encode, EncodeAll, Inode.WellFormed, Inode.Storable;
    var n := |inodes| - 1;
    assert inodes[..n] + [inodes[n]] == inodes;
    EncodeAllMore(o, inodes[..n], inodes[n], blockLog);
    DirectoryLength(o, inodes[n]);
  }

  // ---- the files of the old image ----

  /** What the walk registers, one file after the other. */
  function FilesOf(inodes: seq<Inode>, blockLog: nat): seq<Registered> {
    if inodes == [] then []
    else
      var i := inodes[|inodes| - 1];
      FilesOf(inodes[..|inodes| - 1], blockLog) + if i.File? then [RegisteredOf(i, blockLog)] else []
  }

  lemma {:induction false} FilesAmongAre(inodes: seq<Inode>, blockLog: nat, steps: seq<(nat, Seen)>)
    requires |steps| == |inodes| && forall k :: 0 <= k < |inodes| ==> steps[k].1 == Observe(inodes[k], blockLog)
    ensures FilesAmong(steps) == FilesOf(inodes, blockLog)
  {
    hide TotalStored, TailBytes;
    if inodes == [] {
    } else {
      var n := |inodes| - 1;
      FilesAmongAre(inodes[..n], blockLog, steps[..n]);
    }
  }

  lemma {:induction false} FilesOfMembers(inodes: seq<Inode>, blockLog: nat, file: Registered)
    requires file in FilesOf(inodes, blockLog)
    ensures exists k :: 0 <= k < |inodes| && inodes[k].File? && file == RegisteredOf(inodes[k], blockLog)
  {
    hide TotalStored, TailBytes;
    var n := |inodes| - 1;
    if file in FilesOf(inodes[..n], blockLog) {
      FilesOfMembers(inodes[..n], blockLog, file);
      var k :| 0 <= k < n && inodes[..n][k].File? && file == RegisteredOf(inodes[..n][k], blockLog);
      assert inodes[k] == inodes[..n][k];
    } else {
      assert inodes[n].File? && file == RegisteredOf(inodes[n], blockLog);
    }
  }

  /** If no list was too short, every file's inode describes data that is there. */
  lemma FileIsInPlace(w: World, i: Item)
    requires ItemStands(w, i) && InBounds(i) && i.inode.File? && w.bytes <= MAX_INT
    ensures InPlace(RegisteredOf(i.inode, w.blockLog), w.bytes, w.blocks)
  {
    hide Holds, TailOf, LoadBlocks, TotalStored, TailBytes, Low, Fits, Placed;
    match i {
      case Plain(_) =>
      case Held(_, _, at, _, own, list, _) =>
        FitsInt(at);
        LowOfFitting(at, 32);
        assert list == list[..|own|] + list[|own|..] && i.inode.blocks == list[..|own|];
        TotalOfConcat(list[..|own|], list[|own|..]);
    }
  }

  ghost predicate AllInPlace(files: seq<Registered>, bytes: nat, all: seq<seq<byte>>) {
    forall k :: 0 <= k < |files| ==> InPlace(files[k], bytes, all)
  }

  lemma FilesAreInPlace(w: World, items: seq<Item>, stream: seq<byte>, n: nat)
    requires Holding(w, items, stream) && AllInBounds(items) && w.bytes <= MAX_INT && n <= |items|
    ensures AllInPlace(FilesOf(InodesOf(items)[..n], w.blockLog), w.bytes, w.blocks)
  {
    hide ItemStands, InPlace, InBounds, RegisteredOf, EncodeAll, AllWellFormed, InOrder, FilesOf;
    var files := FilesOf(InodesOf(items)[..n], w.blockLog);
    forall j | 0 <= j < |files|
      ensures InPlace(files[j], w.bytes, w.blocks)
    {
      FilesOfMembers(InodesOf(items)[..n], w.blockLog, files[j]);
      var k :| 0 <= k < n && InodesOf(items)[..n][k].File? && files[j] == RegisteredOf(InodesOf(items)[..n][k], w.blockLog);
      assert InodesOf(items)[..n][k] == items[k].inode;
      FileIsInPlace(w, items[k]);
    }
  }

  /** What the duplicate index should say about a file of the old image. */
  function RecordOf(file: Registered, disk: seq<byte>, bytes: nat, all: seq<seq<byte>>): Recorded
    requires InPlace(file, bytes, all) && bytes <= |disk|
  {
    var stored, tail := StoredPart(disk, file), TailOf(all, FragmentOf(file));
    Recorded(FileInfo(|stored|, Checksum(stored), file.start, file.blocks, FragmentOf(file), Checksum(tail)), stored, tail)
  }

  /** A file with the same stored bytes and tail is in the index. */
  ghost predicate IsKnown(files: seq<Recorded>, file: Registered, disk: seq<byte>, bytes: nat, all: seq<seq<byte>>)
    requires InPlace(file, bytes, all) && bytes <= |disk|
  {
    Recurs(files, RecordOf(file, disk, bytes, all).stored, RecordOf(file, disk, bytes, all).tail)
  }

  /** The index consists of registered files, and each registered file is known in it. */
  ghost predicate Knows(files: seq<Recorded>, registered: seq<Registered>, disk: seq<byte>, bytes: nat, all: seq<seq<byte>>)
    requires AllInPlace(registered, bytes, all) && bytes <= |disk|
  {
    && (forall j :: 0 <= j < |registered| ==> IsKnown(files, registered[j], disk, bytes, all))
    && (forall k :: 0 <= k < |files| ==>
          exists j :: 0 <= j < |registered| && files[k] == RecordOf(registered[j], disk, bytes, all))
  }

  lemma StillRecurs(was: seq<Recorded>, files: seq<Recorded>, stored: seq<byte>, tail: seq<byte>)
    requires Recurs(was, stored, tail) && was <= files
    ensures Recurs(files, stored, tail)
  {
    var k :| 0 <= k < |was| && was[k].stored == stored && was[k].tail == tail;
    assert files[k] == was[k];
  }

  lemma KnowsOneMore(was: seq<Recorded>, files: seq<Recorded>, front: seq<Registered>, file: Registered,
                     disk: seq<byte>, bytes: nat, all: seq<seq<byte>>)
    requires AllInPlace(front, bytes, all) && InPlace(file, bytes, all) && bytes <= |disk|
    requires Knows(was, front, disk, bytes, all) && IsKnown(files, file, disk, bytes, all)
    requires files == was || files == was + [RecordOf(file, disk, bytes, all)]
    ensures AllInPlace(front + [file], bytes, all) && Knows(files, front + [file], disk, bytes, all)
  {
    hide InPlace, RecordOf;
    var registered := front + [file];
    forall j | 0 <= j < |registered|
      ensures IsKnown(files, registered[j], disk, bytes, all)
    {
      if j < |front| {
        assert IsKnown(was, front[j], disk, bytes, all);
        StillRecurs(was, files, RecordOf(front[j], disk, bytes, all).stored, RecordOf(front[j], disk, bytes, all).tail);
      }
    }
    forall k | 0 <= k < |files|
      ensures exists j :: 0 <= j < |registered| && files[k] == RecordOf(registered[j], disk, bytes, all)
    {
      if k < |was| {
        var j :| 0 <= j < |front| && was[k] == RecordOf(front[j], disk, bytes, all);
        assert registered[j] == front[j];
      } else {
        assert registered[|front|] == file;
      }
    }
  }

  /** What is kept of a file, as its inode and the image tell. */
  function KeepOf(file: Registered, disk: seq<byte>, bytes: nat, all: seq<seq<byte>>): Kept
    requires InPlace(file, bytes, all) && bytes <= |disk|
  {
    Kept(file.blocks, StoredPart(disk, file), TailOf(all, FragmentOf(file)))
  }

  function KeepsOf(files: seq<Registered>, disk: seq<byte>, bytes: nat, all: seq<seq<byte>>): (history: seq<Kept>)
    requires AllInPlace(files, bytes, all) && bytes <= |disk|
    ensures |history| == |files|
  {
    seq(|files|, k requires 0 <= k < |files| => KeepOf(files[k], disk, bytes, all))
  }

  lemma NothingToKnow(disk: seq<byte>, bytes: nat, all: seq<seq<byte>>)
    requires bytes <= |disk|
    ensures AllInPlace([], bytes, all) && Knows([], [], disk, bytes, all)
    ensures Indexes([], KeepsOf([], disk, bytes, all))
  {
    assert KeepsOf([], disk, bytes, all) == [];
  }

  lemma RecordIs(file: Registered, disk: seq<byte>, bytes: nat, all: seq<seq<byte>>)
    requires InPlace(file, bytes, all) && bytes <= |disk|
    ensures
      var stored, tail := StoredPart(disk, file), TailOf(all, FragmentOf(file));
      RecordOf(file, disk, bytes, all) ==
        Recorded(FileInfo(|stored|, Checksum(stored), file.start, file.blocks, FragmentOf(file), Checksum(tail)), stored, tail)
  {
    hide Checksum;
  }

  lemma IndexesOneMore(was: seq<Recorded>, files: seq<Recorded>, front: seq<Registered>, file: Registered,
                       disk: seq<byte>, bytes: nat, all: seq<seq<byte>>)
    requires AllInPlace(front, bytes, all) && InPlace(file, bytes, all) && bytes <= |disk|
    requires Indexes(was, KeepsOf(front, disk, bytes, all))
    requires
      var e := KeepOf(file, disk, bytes, all);
      files == was + if Recurs(was, e.stored, e.tail) then [] else [RecordOf(file, disk, bytes, all)]
    ensures AllInPlace(front + [file], bytes, all)
    ensures Indexes(files, KeepsOf(front + [file], disk, bytes, all))
  {
    hide InPlace, TailOf, StoredPart, Checksum, Indexes, Recurs;
    var e := KeepOf(file, disk, bytes, all);
    assert KeepsOf(front + [file], disk, bytes, all) == KeepsOf(front, disk, bytes, all) + [e];
    assert was + [] == was;
    IndexesNext(was, files, KeepsOf(front, disk, bytes, all), e);
  }

  /** add_file for each file the walk came across. */
  method RegisterFiles(data: DataWriter, registered: seq<Registered>)
    requires data.Valid() && data.files == [] && AllInPlace(registered, data.bytes, data.AllBlocks())
    modifies data`dupl, data`fragDups, data`files
    ensures data.Valid()
    ensures data.checkDuplicates ==>
      && Knows(data.files, registered, data.disk, data.bytes, data.AllBlocks())
      && Indexes(data.files, KeepsOf(registered, data.disk, data.bytes, data.AllBlocks()))
    ensures !data.checkDuplicates ==> data.files == []
  {
    hide BlocksStand, FragmentsStand, FilesStand, Indexed, InPlace, Knows, RecordOf, Recurs, Indexes, KeepsOf;
    ghost var disk, bytes, all := data.disk, data.bytes, data.AllBlocks();
    NothingToKnow(disk, bytes, all);
    assert registered[..0] == [];
    for i := 0 to |registered|
      invariant data.Valid() && data.AllBlocks() == all
      invariant AllInPlace(registered[..i], bytes, all)
      invariant data.checkDuplicates ==>
        Knows(data.files, registered[..i], disk, bytes, all) && Indexes(data.files, KeepsOf(registered[..i], disk, bytes, all))
      invariant !data.checkDuplicates ==> data.files == []
    {
      ghost var was := data.files;
      var hit := data.AddFile(registered[i]);
      assert registered[..i + 1] == registered[..i] + [registered[i]];
      if data.checkDuplicates {
        RecordIs(registered[i], disk, bytes, all);
        KnowsOneMore(was, data.files, registered[..i], registered[i], disk, bytes, all);
        IndexesOneMore(was, data.files, registered[..i], registered[i], disk, bytes, all);
      }
    }
    assert registered[..|registered|] == registered;
  }

  /** The data section of the old image, with its files in the duplicate index. */
  method LoadData(codec: Codec, blockLog: nat, plainData: bool, plainFragments: bool, noFragments: bool,
                  alwaysFragments: bool, checkDuplicates: bool, disk: seq<byte>, bytes: nat, entries: seq<FragmentEntry>,
                  registered: seq<Registered>, ghost blocks: seq<seq<byte>>)
    returns (data: DataWriter)
    requires codec.Faithful() && Pow2(blockLog) <= 0x1_0000 && bytes <= |disk|
    requires |entries| == |blocks| < INVALID_BLK && BlocksStand(codec, Pow2(blockLog), disk, bytes, entries, blocks)
    requires AllInPlace(registered, bytes, blocks + [[]])
    ensures fresh(data) && data.Valid() && data.fragmentSize == 0 && data.codec == codec && data.blockLog == blockLog
    ensures data.plainData == plainData && data.plainFragments == plainFragments && data.noFragments == noFragments
    ensures data.alwaysFragments == alwaysFragments && data.checkDuplicates == checkDuplicates
    ensures data.disk == disk && data.bytes == bytes && data.blocks == blocks
    ensures data.fragments == |entries| && data.fragmentTable[..data.fragments] == entries
    ensures if checkDuplicates then Knows(data.files, registered, disk, bytes, blocks + [[]]) else data.files == []
    ensures checkDuplicates ==> Indexes(data.files, KeepsOf(registered, disk, bytes, blocks + [[]]))
  {
    hide BlocksStand, FragmentsStand, FilesStand, Indexed, AllInPlace, Knows, Indexes, KeepOf, KeepsOf;
    data := new DataWriter.Loaded(codec, blockLog, plainData, plainFragments, noFragments, alwaysFragments,
                                  checkDuplicates, disk, bytes, entries, blocks);
    assert data.fragmentData[..data.fragmentSize] == [];
    assert data.AllBlocks() == blocks + [[]];
    RegisterFiles(data, registered);
  }

  // ---- the walk over a closed image ----

  function CountsOf(inodes: seq<Inode>): Counts {
    Counts(CountOf(inodes, {FILE_TYPE}), CountOf(inodes, {SYMLINK_TYPE}), CountOf(inodes, {BLKDEV_TYPE, CHRDEV_TYPE}),
           CountOf(inodes, {DIR_TYPE}), CountOf(inodes, {FIFO_TYPE}), CountOf(inodes, {SOCKET_TYPE}))
  }

  lemma OneMoreCounted(inodes: seq<Inode>)
    requires inodes != [] && inodes[|inodes| - 1].Directory?
    ensures var c := CountsOf(inodes[..|inodes| - 1]); CountsOf(inodes) == c.(directories := c.directories + 1)
  {
    assert inodes[|inodes| - 1].TypeCode() == DIR_TYPE;
  }

  /** The walk stays on the inodes that create_inode made: over their stream, up to the root's inode, it stops at each of
      them, sees what was created, and what it registers and counts is what there is. */
  lemma WalkOfCreated(o: Order, inodes: seq<Inode>, blockLog: nat, beyond: seq<byte>)
    requires inodes != [] && AllWellFormed(inodes, blockLog) && inodes[|inodes| - 1].Directory? && |beyond| >= REG_BYTES
    ensures
      var front := inodes[..|inodes| - 1];
      var s := EncodeAll(o, inodes, blockLog);
      && |s| >= DIR_BYTES && AllWellFormed(front, blockLog)
      && var steps := Expected(o, front, blockLog, 0);
      && Visit(o, s, 0, |s| - DIR_BYTES, blockLog, beyond) == Some(steps)
      && FilesAmong(steps) == FilesOf(front, blockLog)
      && Tally(steps).(directories := Tally(steps).directories + 1) == CountsOf(inodes)
  {
    hide Encode, EncodeAll, Expected, Visit, Inode.WellFormed, Inode.Storable, Observe, FilesOf, FilesAmong, Tally,
      Holds, StartOf;
    var n := |inodes| - 1;
    var front := inodes[..n];
    var s := EncodeAll(o, inodes, blockLog);
    RootEnds(o, inodes, blockLog);
    var stream := EncodeAll(o, front, blockLog);
    HoldsSlice(s, 0, stream);
    WalkInvertsCreation(o, front, s, 0, blockLog, beyond);
    var steps := Expected(o, front, blockLog, 0);
    forall k | 0 <= k < n
      ensures steps[k].1 == Observe(front[k], blockLog)
    {
      ExpectedAt(o, front, blockLog, 0, k);
    }
    FilesAmongAre(front, blockLog, steps);
    TallyCountsTypes(front, blockLog, steps);
    OneMoreCounted(inodes);
  }

  // ---- whole appends ----

  /** What stays of the contents if the root directory is dropped, and what its listing was. */
  function WithoutRoot(x: Contents): Contents {
    var n := |x.items| - 1;
    if n >= 0 && x.items[n].Listed? && x.items[n].at <= |x.listings|
    then x.(items := x.items[..n], listings := x.listings[..x.items[n].at]) else x
  }

  function RootListing(x: Contents): seq<Entry> {
    var n := |x.items| - 1;
    if n >= 0 && x.items[n].Listed? then StoredEntries(Flatten(x.items[n].runs)) else []
  }

  /** The duplicate index knows the files of the image. */
  ghost predicate IndexFilled(files: seq<Recorded>, blockLog: nat, disk: seq<byte>, sb: SuperBlock, x: Contents) {
    var registered := FilesOf(InodesOf(WithoutRoot(x).items), blockLog);
    && sb.inodeStart <= |disk| && AllInPlace(registered, sb.inodeStart, x.blocks + [[]])
    && Knows(files, registered, disk, sb.inodeStart, x.blocks + [[]])
  }

  /** The files of the image as they are registered, without what a dropped root directory would add. */
  ghost function PriorOf(blockLog: nat, disk: seq<byte>, sb: SuperBlock, x: Contents): seq<Kept> {
    var registered := FilesOf(InodesOf(WithoutRoot(x).items), blockLog);
    if sb.inodeStart <= |disk| && AllInPlace(registered, sb.inodeStart, x.blocks + [[]])
    then KeepsOf(registered, disk, sb.inodeStart, x.blocks + [[]]) else []
  }

  /** The walk's totals: the sizes of all files, and of the directories that lie in blocks before the root's. */
  ghost predicate TotalsAre(o: Order, blockLog: nat, x: Contents, fileTotal: nat, dirTotal: nat) {
    && x.items != [] && x.items[|x.items| - 1].inode.Directory? && AllWellFormed(InodesOf(WithoutRoot(x).items), blockLog)
    && var steps := Expected(o, InodesOf(WithoutRoot(x).items), blockLog, 0);
    && fileTotal == UncompressedFiles(steps)
    && dirTotal == UncompressedDirectories(steps, x.items[|x.items| - 1].inode.start)
  }

  /** read_filesystem and the set-up in main. Without `keepRoot` the new run builds a new root directory in
      place of the old one, whose entries are handed out; with it the old root becomes one of the entries. */
  method LoadArchive(f: Format, blockLog: nat, disk: seq<byte>, sb: SuperBlock, keepRoot: bool,
                     plainData: bool, plainFragments: bool, noFragments: bool, alwaysFragments: bool, checkDuplicates: bool,
                     beyond: seq<byte>, ghost x: Contents)
    returns (ok: bool, a: Archive, rootEntries: seq<Entry>, counts: Counts, fileTotal: nat, dirTotal: nat)
    requires Appendable(f, blockLog, disk, sb, x) && |beyond| >= REG_BYTES
    ensures ok && fresh(a) && a.Valid() && a.f == f && fresh({a.data, a.inodes, a.directories})
    ensures a.Saved() == x && a.savedDisk == disk && a.savedBytes == sb.inodeStart
    ensures a.items == (if keepRoot then x else WithoutRoot(x)).items
    ensures a.directories.stream == (if keepRoot then x else WithoutRoot(x)).listings
    ensures rootEntries == if keepRoot then [] else RootListing(x)
    ensures a.data.blockLog == blockLog && a.data.fragments == sb.fragments
    ensures a.data.plainData == plainData && a.data.plainFragments == plainFragments && a.data.noFragments == noFragments
    ensures a.data.alwaysFragments == alwaysFragments && a.data.checkDuplicates == checkDuplicates
    ensures if checkDuplicates then IndexFilled(a.data.files, blockLog, disk, sb, x) else a.data.files == []
    ensures a.prior == PriorOf(blockLog, disk, sb, x) && a.loaded == |a.items|
    ensures a.data.bytes == sb.inodeStart && a.data.fragmentSize == 0 && a.data.codec == f.codec
    ensures counts == CountsOf(InodesOf(x.items)) && TotalsAre(f.order, blockLog, x, fileTotal, dirTotal)
  {
    hide Holds, EncodeStream, Encode, EncodeAll, BlocksStand, FragmentsStand, FilesStand, Indexed, NumberOf,
      InProgress, Get, Fits, StoredEntries, Holding, ReadBack, Expected, Visit, Inode.WellFormed, Inode.Storable,
      FilesOf, Knows, AllInPlace, AllInBounds, RunsBytes, Flatten, Tally, FilesAmong, CountsOf, UncompressedFiles,
      UncompressedDirectories, EndsBelow, Narrow, Indexes, KeepOf, KeepsOf, Traces;
    ghost var n, listed := |x.items| - 1, InodesOf(x.items);
    ghost var s := EncodeAll(f.order, listed, blockLog);
    ghost var w := Around(f, blockLog, disk, sb, x);
    ghost var rootDir := listed[n];
    assert InodesOf(x.items[..n]) == listed[..n];
    RootSays(w, x.items, s);
    RootEnds(f.order, listed, blockLog);
    WalkOfCreated(f.order, listed, blockLog, beyond);
    FilesAreInPlace(w, x.items, s, n);
    HoldingFront(w, x.items, s, n, x.items[n].at);
    HoldsBound(disk, sb.inodeStart, EncodeStream(f, s));

    var read, entries := ReadFragmentTable(f, disk, sb.fragmentStart, sb.fragments);
    var inodes, all;
    ok, inodes, all := LoadInodes(f, disk, sb.inodeStart, sb.directoryStart, sb.root, keepRoot, s);
    var rootInode := all[|all| - DIR_BYTES..];
    RootFields(f.order, rootDir, rootInode);
    var size, offset := Get(f.order, rootInode, DIR_LAYOUT[4]), Get(f.order, rootInode, DIR_LAYOUT[5]);
    var block := Get(f.order, rootInode, DIR_LAYOUT[7]);
    var walked, steps, registered;
    walked, steps, counts, registered, fileTotal, dirTotal := Walk(f.order, all, |all| - DIR_BYTES, blockLog, block, beyond);
    counts := counts.(directories := counts.directories + 1);
    var data := LoadData(f.codec, blockLog, plainData, plainFragments, noFragments, alwaysFragments, checkDuplicates,
                         disk, sb.inodeStart, entries, registered, x.blocks);
    var more, directories;
    more, directories, rootEntries := LoadDirectories(f, disk, sb.directoryStart, block, offset, size, keepRoot, x.listings,
                                                      x.items[n].runs);
    ghost var items := if keepRoot then x.items else x.items[..n];
    assert w.(listings := x.listings) == w;
    a := new Archive(f, data, inodes, directories, items, x.items, PriorOf(blockLog, disk, sb, x));
  }

  // ---- what can be read from a closed image ----

  /** squashfs_readdir with the inode's fields gives the directory's entries. */
  ghost predicate IsListed(f: Format, disk: seq<byte>, sb: SuperBlock, i: Item)
    requires i.Listed? && i.inode.Directory?
  {
    Readdir(f, disk, sb.directoryStart + i.inode.start, i.inode.offset, i.inode.fileSize)
    == Some(StoredEntries(Flatten(i.runs)))
  }

  /** It gives fewer entries, or none at all. */
  ghost predicate IsCut(f: Format, disk: seq<byte>, sb: SuperBlock, i: Item)
    requires i.Listed? && i.inode.Directory?
  {
    var read := Readdir(f, disk, sb.directoryStart + i.inode.start, i.inode.offset, i.inode.fileSize);
    read.Some? ==> |read.value| < |Flatten(i.runs)|
  }

  /** Every directory whose place fits its inode is read back if its size does, and is cut if not. */
  ghost predicate ListingsRead(f: Format, disk: seq<byte>, sb: SuperBlock, x: Contents) {
    forall k :: 0 <= k < |x.items| && x.items[k].Listed? ==>
      var i := x.items[k];
      && i.inode.Directory? && AllRuns(i.runs) && i.at <= |x.listings|
      && (NumberOf(f, x.listings, i.at) / 0x1_0000 < 0x100_0000 ==>
            if Narrow(f, x.listings, i) then IsListed(f, disk, sb, i) else IsCut(f, disk, sb, i))
  }

  lemma AtLeastOnce(n: nat, m: nat)
    requires n >= 1
    ensures n * m >= m
  {
  }

  /** The 19 bits for the size lose at least 2^19. */
  lemma LongSizeIsCut(size: nat)
    requires size >= 0x8_0000
    ensures Low(size, 19) + 0x8_0000 <= size
  {
    hide Low, Pow2, Shr;
    ShiftDivides(size, 19);
    SmallPowers();
    EightBits();
    PowAdd(8, 8);
    PowAdd(16, 3);
    if Shr(size, 19) >= 1 {
      AtLeastOnce(Shr(size, 19), 0x8_0000);
    }
  }

  lemma ListingIsRead(f: Format, disk: seq<byte>, sb: SuperBlock, w: World, i: Item)
    requires f.codec.Faithful() && f == w.f && i.Listed? && ListedStands(w, i)
    requires Holds(disk, sb.directoryStart, EncodeStream(f, w.listings))
    ensures NumberOf(f, w.listings, i.at) / 0x1_0000 < 0x100_0000 ==>
      if Narrow(f, w.listings, i) then IsListed(f, disk, sb, i) else IsCut(f, disk, sb, i)
  {
    hide Holds, EncodeStream, RunsBytes, NumberOf, Low, Readdir, StoredEntries, Flatten, IsRun;
    var place, size := NumberOf(f, w.listings, i.at), |RunsBytes(f.order, i.runs)|;
    if place / 0x1_0000 < 0x100_0000 {
      NumberParts(f, w.listings, i.at);
      DirectoryFieldsKeep(if size < 0x8_0000 then size else 0, place % 0x1_0000, place / 0x1_0000);
      if size < 0x8_0000 {
        DirectoryReadsBack(f, disk, sb.directoryStart, w.listings, i.at, i.runs);
      } else {
        LongSizeIsCut(size);
        CutDirectoryFails(f, disk, sb.directoryStart, w.listings, i.at, i.runs, Low(size, 19));
      }
    }
  }

  lemma ListingsAreRead(f: Format, blockLog: nat, disk: seq<byte>, sb: SuperBlock, x: Contents)
    requires Image(f, blockLog, disk, sb, x)
    ensures ListingsRead(f, disk, sb, x)
  {
    hide BlocksStand, AllWellFormed, EncodeAll, EncodeStream, Holds, InOrder, IsListed, IsCut, Narrow, HeldStands,
      RunsBytes, NumberOf;
    var w := Around(f, blockLog, disk, sb, x);
    forall k | 0 <= k < |x.items| && x.items[k].Listed?
      ensures x.items[k].inode.Directory? && AllRuns(x.items[k].runs) && x.items[k].at <= |x.listings|
      ensures NumberOf(f, x.listings, x.items[k].at) / 0x1_0000 < 0x100_0000 ==>
        if Narrow(f, x.listings, x.items[k]) then IsListed(f, disk, sb, x.items[k]) else IsCut(f, disk, sb, x.items[k])
    {
      assert ItemStands(w, x.items[k]);
      ListingIsRead(f, disk, sb, w, x.items[k]);
    }
  }

  /** Everything in front of position `end` of the stream `was` is found under the number it had there. */
  ghost predicate NumbersStillHold(f: Format, disk: seq<byte>, sb: SuperBlock, was: seq<byte>, end: nat)
    requires end <= |was|
  {
    forall p: nat, len: nat :: p + len <= end ==>
      Resolve(f, disk, sb.inodeStart, sb.directoryStart, NumberOf(f, was, p), len) == Some(was[p..p + len])
  }

  lemma NumbersHold(f: Format, blockLog: nat, disk: seq<byte>, sb: SuperBlock, x: Contents, was: seq<byte>, end: nat)
    requires Image(f, blockLog, disk, sb, x)
    requires end <= |was| && was[..end] <= EncodeAll(f.order, InodesOf(x.items), blockLog)
    ensures NumbersStillHold(f, disk, sb, was, end)
  {
    hide Holding, BlocksStand, AllWellFormed, EncodeAll, EncodeStream, Holds, Resolve, NumberOf;
    var s := EncodeAll(f.order, InodesOf(x.items), blockLog);
    forall p: nat, len: nat | p + len <= end
      ensures Resolve(f, disk, sb.inodeStart, sb.directoryStart, NumberOf(f, was, p), len) == Some(was[p..p + len])
    {
      OldNumbersStayValid(f, was, end, s, disk, sb.inodeStart, p, len);
    }
  }

  /** The walk over the decoded inode table, whatever lies behind it, stops at each inode in turn, sees what create_inode
      was asked for, and its counters are the numbers of inodes of each type. */
  ghost predicate WalkSees(f: Format, blockLog: nat, disk: seq<byte>, sb: SuperBlock, x: Contents) {
    && AllWellFormed(InodesOf(x.items), blockLog)
    && var table := DecodeStream(f, disk, sb.inodeStart, sb.directoryStart);
    && var steps := Expected(f.order, InodesOf(x.items), blockLog, 0);
    && table.Some? && Tally(steps) == CountsOf(InodesOf(x.items))
    && forall beyond: seq<byte> :: |beyond| >= REG_BYTES ==>
         Visit(f.order, table.value, 0, |table.value|, blockLog, beyond) == Some(steps)
  }

  /** Both streams are decoded from a closed image. */
  lemma TablesDecode(f: Format, blockLog: nat, disk: seq<byte>, sb: SuperBlock, x: Contents)
    requires Image(f, blockLog, disk, sb, x)
    ensures AllWellFormed(InodesOf(x.items), blockLog)
    ensures DecodeStream(f, disk, sb.inodeStart, sb.directoryStart) == Some(EncodeAll(f.order, InodesOf(x.items), blockLog))
    ensures DecodeStream(f, disk, sb.directoryStart, sb.directoryStart + |EncodeStream(f, x.listings)|) == Some(x.listings)
  {
    hide BlocksStand, Holding, EncodeAll, Inode.WellFormed, DecodeStream, EncodeStream, Holds;
    StreamRoundTrip(f, disk, sb.inodeStart, EncodeAll(f.order, InodesOf(x.items), blockLog));
    StreamRoundTrip(f, disk, sb.directoryStart, x.listings);
  }

  lemma WalkSeesAll(f: Format, blockLog: nat, disk: seq<byte>, sb: SuperBlock, x: Contents)
    requires Image(f, blockLog, disk, sb, x)
    ensures WalkSees(f, blockLog, disk, sb, x)
  {
    hide Image, EncodeAll, Inode.WellFormed, DecodeStream, Expected, Visit, Observe, Tally, StartOf, Holds;
    TablesDecode(f, blockLog, disk, sb, x);
    var inodes := InodesOf(x.items);
    var data, steps := EncodeAll(f.order, inodes, blockLog), Expected(f.order, inodes, blockLog, 0);
    assert data[0..|data|] == data;
    HoldsSlice(data, 0, data);
    forall beyond: seq<byte> | |beyond| >= REG_BYTES
      ensures Visit(f.order, data, 0, |data|, blockLog, beyond) == Some(steps)
    {
      WalkInvertsCreation(f.order, inodes, data, 0, blockLog, beyond);
    }
    forall k | 0 <= k < |inodes|
      ensures steps[k].1 == Observe(inodes[k], blockLog)
    {
      ExpectedAt(f.order, inodes, blockLog, 0, k);
    }
    TallyCountsTypes(inodes, blockLog, steps);
  }

  /** A run that ends with a directory leaves an image that can be appended to, if the directory is not too large,
      no list was too short, and the table of fragment blocks survives. */
  lemma EndsRooted(f: Format, blockLog: nat, disk: seq<byte>, sb: SuperBlock, x: Contents)
    requires Image(f, blockLog, disk, sb, x) && EndsWithListing(f, x.items, x.listings) && |x.items| >= 2
    requires AllWellFormed(InodesOf(x.items), blockLog) && sb.root == NumberAt(f, blockLog, x.items, |x.items| - 1)
    ensures
      && Narrow(f, x.listings, x.items[|x.items| - 1]) && AllInBounds(x.items)
      && ReadBack(f, disk, sb.fragmentStart, sb.fragments) == Some(x.entries)
      ==> Appendable(f, blockLog, disk, sb, x)
  {
    hide Image, ReadBack, EncodeAll, NumberOf, Inode.WellFormed, Narrow, AllInBounds, Encode, Inode.Storable;
    RootEnds(f.order, InodesOf(x.items), blockLog);
  }

  // ---- whole runs ----

  lemma PrefixTwice(a: seq<byte>, b: seq<byte>, c: seq<byte>)
    requires a <= b <= c
    ensures a <= c
  {
  }

  /** What the closing of a run that went on from these contents shows: old numbers up to `end`, all directories, the walk,
      and the table of fragment blocks exactly if nothing is lost in it. */
  ghost predicate ShowsAll(f: Format, blockLog: nat, disk: seq<byte>, sb: SuperBlock, x: Contents, was: seq<byte>, end: nat,
                           scratch: seq<byte>)
    requires end <= |was| && |scratch| == EMPTY_STORED
  {
    && Image(f, blockLog, disk, sb, x)
    && NumbersStillHold(f, disk, sb, was, end) && ListingsRead(f, disk, sb, x) && WalkSees(f, blockLog, disk, sb, x)
    && (ReadBack(f, disk, sb.fragmentStart, sb.fragments) == Some(x.entries) <==> Survives(f.order, x.entries, scratch))
  }

  lemma ShowsImage(f: Format, blockLog: nat, disk: seq<byte>, sb: SuperBlock, x: Contents, was: seq<byte>, end: nat,
                   scratch: seq<byte>)
    requires end <= |was| && |scratch| == EMPTY_STORED && ShowsAll(f, blockLog, disk, sb, x, was, end, scratch)
    ensures Image(f, blockLog, disk, sb, x)
    ensures ReadBack(f, disk, sb.fragmentStart, sb.fragments) == Some(x.entries) <==> Survives(f.order, x.entries, scratch)
  {
    hide Image, NumbersStillHold, ListingsRead, WalkSees, ReadBack, Survives;
  }

  lemma ImageShowsAll(f: Format, blockLog: nat, disk: seq<byte>, sb: SuperBlock, x: Contents, was: seq<byte>, end: nat,
                      scratch: seq<byte>)
    requires Image(f, blockLog, disk, sb, x) && |scratch| == EMPTY_STORED
    requires end <= |was| && was[..end] <= EncodeAll(f.order, InodesOf(x.items), blockLog)
    requires ReadBack(f, disk, sb.fragmentStart, sb.fragments) == Some(x.entries) <==> Survives(f.order, x.entries, scratch)
    ensures ShowsAll(f, blockLog, disk, sb, x, was, end, scratch)
  {
    hide Image, NumbersStillHold, ListingsRead, WalkSees, ReadBack, Survives, EncodeAll;
    NumbersHold(f, blockLog, disk, sb, x, was, end);
    ListingsAreRead(f, blockLog, disk, sb, x);
    WalkSeesAll(f, blockLog, disk, sb, x);
  }

  /** Append keeps what is there, over whole runs: after any steps and the closing writes, every inode before the place
      where the new stream departs from the old still resolves under its old number, every directory is read back, old or
      new, and the table of fragment blocks is read back exactly when nothing is lost in it. If the last step made a
      directory, the image can be appended to in turn. The run succeeds exactly if the tables end below 2^32, and always
      if there is room for what the steps add at most. */
  method AppendRun(a: Archive, steps: seq<Step>, memory: nat -> nat -> nat, scratch: seq<byte>,
                   ghost before: seq<byte>, ghost rootAt: nat)
    returns (ok: bool, sb: SuperBlock)
    requires a.Valid() && a.data.fragments + |steps| + 1 < INVALID_BLK && |scratch| == EMPTY_STORED
    requires forall k :: 0 <= k < |steps| ==> steps[k].Possible()
    requires rootAt <= |before| && before[..rootAt] <= a.inodes.stream
    modifies a`items, a.data, a.inodes, a.directories
    ensures a.savedBytes <= a.data.bytes && SameBelow(a.savedDisk, a.data.disk, a.savedBytes)
    ensures |a.items| == |old(a.items)| + |steps| && a.items[..|old(a.items)|] == old(a.items)
    ensures forall k :: 0 <= k < |steps| ==> steps[k].Makes(a.items[|old(a.items)| + k])
    ensures old(a.directories.stream) <= a.directories.stream && a.data.fragments <= |a.data.fragmentTable|
    ensures a.loaded <= |a.items| && Traces(a.Storing(), a.data.checkDuplicates, a.data.files, a.prior, a.News())
    ensures AllWellFormed(InodesOf(a.items), a.data.blockLog)
    ensures ok <==> TablesFit(a.f, a.data.plainFragments, sb.inodeStart, EncodeAll(a.f.order, InodesOf(a.items), a.data.blockLog),
                              a.directories.stream, a.Present().entries, scratch)
    ensures Roomy(old(a.SizesNow()).Plus(CostOf(steps, a.data.blockLog)), old(a.data.fragments) + |steps| + 1) ==> ok
    ensures ok ==> ShowsAll(a.f, a.data.blockLog, a.data.disk, sb, a.Present(), before, rootAt, scratch)
    ensures ok && |a.items| >= 2 && steps != [] && steps[|steps| - 1].AddDirectory? ==>
      && EndsWithListing(a.f, a.items, a.directories.stream)
      && (&& Narrow(a.f, a.directories.stream, a.items[|a.items| - 1]) && AllInBounds(a.items)
          && Survives(a.f.order, a.Present().entries, scratch)
          ==> Appendable(a.f, a.data.blockLog, a.data.disk, sb, a.Present()))
  {
    hide Archive.Valid, EncodeAll, NumberOf, DecodeStream, EncodeStream, ReadBack, Survives, Image, Appendable,
      ShowsAll, Step.Makes, Step.Possible, EndsWithListing, NumberAt, AllWellFormed, Narrow, AllInBounds, SameBelow,
      TablesFit, Roomy, Traces, HeldOf, CostOf;
    ghost var front, start, limit := before[..rootAt], a.inodes.stream, a.SizesNow().Plus(CostOf(steps, a.data.blockLog));
    ghost var fragments := a.data.fragments + |steps| + 1;
    var last := a.Run(steps, memory);
    PrefixTwice(front, start, a.inodes.stream);
    a.StreamIs();
    a.IsTraced();
    ok, sb := a.Finish(last, scratch);
    ghost var x := a.Present();
    if Roomy(limit, fragments) {
      RoomyFits(a.f, a.data.plainFragments, sb.inodeStart, a.inodes.stream, a.directories.stream, x.entries, scratch, limit,
                fragments);
    }
    if ok {
      ImageShowsAll(a.f, a.data.blockLog, a.data.disk, sb, x, before, rootAt, scratch);
      if |a.items| >= 2 && steps != [] && steps[|steps| - 1].AddDirectory? {
        ShowsImage(a.f, a.data.blockLog, a.data.disk, sb, x, before, rootAt, scratch);
        EndsRooted(a.f, a.data.blockLog, a.data.disk, sb, x);
      }
    }
  }

  /** Interrupted append is a true rollback: whatever steps were done before the interrupt, the image then closed
      has the original contents. Both streams decode to the original ones, every number of the original, the root's
      among them, resolves as before, every directory and every fragment block is read back, nothing below the saved
      position has changed, and if the table of fragment blocks survives, the image can be appended to again. This succeeds
      exactly if the original tables end below 2^32, from the saved position on. */
  method InterruptedAppend(a: Archive, steps: seq<Step>, memory: nat -> nat -> nat, root: nat, scratch: seq<byte>)
    returns (ok: bool, sb: SuperBlock)
    requires a.Valid() && a.data.fragments + |steps| < INVALID_BLK && |scratch| == EMPTY_STORED
    requires forall k :: 0 <= k < |steps| ==> steps[k].Possible()
    modifies a`items, a.data, a.inodes, a.directories
    ensures a.savedBytes <= a.data.bytes && SameBelow(a.savedDisk, a.data.disk, a.savedBytes)
    ensures a.Saved() == old(a.Saved()) && sb.root == root && sb.inodeStart == a.savedBytes
    ensures ok <==> TablesFit(a.f, a.data.plainFragments, a.savedBytes, a.inodes.savedStream, a.directories.savedStream,
                              a.savedEntries, scratch)
    ensures a.inodes.savedStream == old(a.inodes.savedStream)
    ensures ok ==>
      var s, d := a.inodes.savedStream, a.directories.savedStream;
      && DecodeStream(a.f, a.data.disk, sb.inodeStart, sb.directoryStart) == Some(s)
      && DecodeStream(a.f, a.data.disk, sb.directoryStart, sb.directoryStart + |EncodeStream(a.f, d)|) == Some(d)
      && ShowsAll(a.f, a.data.blockLog, a.data.disk, sb, a.Saved(), s, |s|, scratch)
    ensures ok && Survives(a.f.order, a.savedEntries, scratch)
      && Rooted(a.f, a.data.blockLog, root, a.Saved()) && AllInBounds(a.savedItems)
      ==> Appendable(a.f, a.data.blockLog, a.data.disk, sb, a.Saved())
  {
    hide Archive.Valid, BlocksStand, FragmentsStand, FilesStand, Indexed, InProgress, SameBelow, Holding, ReadBack,
      Survives, Image, Appendable, ShowsAll, Step.Makes, Step.Possible, Rooted, AllInBounds, DecodeStream,
      EncodeStream, AllWellFormed, NumberAt, EndsWithListing, TablesFit, EncodeAll;
    ghost var x, s := a.Saved(), a.inodes.savedStream;
    a.SavedStreamIs();
    var last := a.Run(steps, memory);
    ok, sb := a.Abandon(root, scratch);
    if ok {
      TablesDecode(a.f, a.data.blockLog, a.data.disk, sb, x);
      assert s[..|s|] == s;
      ImageShowsAll(a.f, a.data.blockLog, a.data.disk, sb, x, s, |s|, scratch);
    }
  }

  // ---- from image to image ----

  /** The sizes of an image's contents. */
  ghost function SizesOf(f: Format, blockLog: nat, sb: SuperBlock, x: Contents): Sizes
    requires AllWellFormed(InodesOf(x.items), blockLog)
  {
    Sizes(|EncodeAll(f.order, InodesOf(x.items), blockLog)|, |x.listings|, sb.inodeStart)
  }

  /** What stays of an image is a front part of its inodes and of its listings. */
  lemma KeepsFront(f: Format, blockLog: nat, disk: seq<byte>, sb: SuperBlock, x: Contents, keepRoot: bool)
    requires Appendable(f, blockLog, disk, sb, x)
    ensures AllWellFormed(InodesOf(x.items), blockLog)
    ensures
      var kept := if keepRoot then x else WithoutRoot(x);
      var s := EncodeAll(f.order, InodesOf(x.items), blockLog);
      && AllWellFormed(InodesOf(kept.items), blockLog) && |s| >= DIR_BYTES && kept.listings <= x.listings
      && s[..if keepRoot then |s| else |s| - DIR_BYTES] == EncodeAll(f.order, InodesOf(kept.items), blockLog)
  {
    hide Holding, BlocksStand, BothTables, EncodeAll, Inode.WellFormed, Inode.Storable, RunsBytes, ReadBack, Narrow,
      NumberAt, Encode;
    var n := |x.items| - 1;
    RootEnds(f.order, InodesOf(x.items), blockLog);
    assert InodesOf(x.items[..n]) == InodesOf(x.items)[..n];
    var s := EncodeAll(f.order, InodesOf(x.items), blockLog);
    assert s[..|s|] == s;
  }

  /** A whole append, from image to image. Every number in front of the old root, or the root's too if the old root is kept,
      leads where it led; see AppendRun for the rest. */
  method AppendToImage(f: Format, blockLog: nat, disk: seq<byte>, sb: SuperBlock, keepRoot: bool,
                       plainData: bool, plainFragments: bool, noFragments: bool, alwaysFragments: bool, checkDuplicates: bool,
                       beyond: seq<byte>, steps: seq<Step>, memory: nat -> nat -> nat, scratch: seq<byte>, ghost x: Contents)
    returns (ok: bool, a: Archive, newSb: SuperBlock)
    requires Appendable(f, blockLog, disk, sb, x) && |beyond| >= REG_BYTES && |scratch| == EMPTY_STORED
    requires sb.fragments + |steps| + 1 < INVALID_BLK && forall k :: 0 <= k < |steps| ==> steps[k].Possible()
    ensures AllWellFormed(InodesOf(x.items), blockLog) && |EncodeAll(f.order, InodesOf(x.items), blockLog)| >= DIR_BYTES
    ensures fresh(a) && a.data.fragments <= |a.data.fragmentTable| && SameBelow(disk, a.data.disk, sb.inodeStart)
    ensures
      var kept := (if keepRoot then x else WithoutRoot(x)).items;
      && kept <= a.items && |a.items| == |kept| + |steps| && a.loaded == |kept|
      && forall k :: 0 <= k < |steps| ==> steps[k].Makes(a.items[|kept| + k])
    ensures a.prior == PriorOf(blockLog, disk, sb, x) && a.Storing() == Way(f.codec, blockLog, plainData, noFragments, alwaysFragments)
    ensures Traces(a.Storing(), checkDuplicates, a.data.files, a.prior, a.News())
    ensures AllWellFormed(InodesOf(a.items), blockLog)
    ensures ok <==> TablesFit(f, plainFragments, newSb.inodeStart, EncodeAll(f.order, InodesOf(a.items), blockLog),
                              a.directories.stream, a.Present().entries, scratch)
    ensures Roomy(SizesOf(f, blockLog, sb, x).Plus(CostOf(steps, blockLog)), sb.fragments + |steps| + 1) ==> ok
    ensures ok ==>
      var was := EncodeAll(f.order, InodesOf(x.items), blockLog);
      ShowsAll(f, blockLog, a.data.disk, newSb, a.Present(), was, if keepRoot then |was| else |was| - DIR_BYTES, scratch)
    ensures ok && |a.items| >= 2 && steps != [] && steps[|steps| - 1].AddDirectory? ==>
      && EndsWithListing(f, a.items, a.directories.stream)
      && (&& Narrow(f, a.directories.stream, a.items[|a.items| - 1]) && AllInBounds(a.items)
          && Survives(f.order, a.Present().entries, scratch)
          ==> Appendable(f, blockLog, a.data.disk, newSb, a.Present()))
  {
    hide Appendable, Archive.Valid, EncodeAll, AllWellFormed, WithoutRoot, SameBelow, Step.Makes, Step.Possible,
      TablesFit, Roomy, CostOf, ShowsAll, IndexFilled, TotalsAre, CountsOf, RootListing, PriorOf, Traces, HeldOf,
      EndsWithListing, Narrow, AllInBounds, Survives;
    KeepsFront(f, blockLog, disk, sb, x, keepRoot);
    ghost var was := EncodeAll(f.order, InodesOf(x.items), blockLog);
    ghost var end := if keepRoot then |was| else |was| - DIR_BYTES;
    var loaded, rootEntries, counts, fileTotal, dirTotal;
    loaded, a, rootEntries, counts, fileTotal, dirTotal :=
      LoadArchive(f, blockLog, disk, sb, keepRoot, plainData, plainFragments, noFragments, alwaysFragments, checkDuplicates,
                  beyond, x);
    a.StreamIs();
    ghost var now, limit, cost := a.SizesNow(), SizesOf(f, blockLog, sb, x), CostOf(steps, blockLog);
    if Roomy(limit.Plus(cost), sb.fragments + |steps| + 1) {
      LessIsRoomy(now.Plus(cost), limit.Plus(cost), sb.fragments + |steps| + 1);
    }
    ok, newSb := AppendRun(a, steps, memory, scratch, was, end);
  }

  lemma ImageFits(f: Format, blockLog: nat, disk: seq<byte>, sb: SuperBlock, x: Contents, plainFragments: bool, scratch: seq<byte>)
    requires Image(f, blockLog, disk, sb, x) && |scratch| == EMPTY_STORED
    ensures AllWellFormed(InodesOf(x.items), blockLog)
    ensures Roomy(SizesOf(f, blockLog, sb, x), sb.fragments) ==>
      TablesFit(f, plainFragments, sb.inodeStart, EncodeAll(f.order, InodesOf(x.items), blockLog), x.listings, x.entries, scratch)
  {
    hide Holding, BlocksStand, BothTables, EncodeAll, Inode.WellFormed, TablesFit, Roomy;
    if Roomy(SizesOf(f, blockLog, sb, x), sb.fragments) {
      RoomyFits(f, plainFragments, sb.inodeStart, EncodeAll(f.order, InodesOf(x.items), blockLog), x.listings, x.entries, scratch,
                SizesOf(f, blockLog, sb, x), sb.fragments);
    }
  }

  /** A whole append that is interrupted: the image is as it was, whatever was done before the interrupt, and can be appended
      to again if the table of fragment blocks survives. */
  method RollBack(f: Format, blockLog: nat, disk: seq<byte>, sb: SuperBlock, keepRoot: bool,
                  plainData: bool, plainFragments: bool, noFragments: bool, alwaysFragments: bool, checkDuplicates: bool,
                  beyond: seq<byte>, steps: seq<Step>, memory: nat -> nat -> nat, scratch: seq<byte>, ghost x: Contents)
    returns (ok: bool, a: Archive, newSb: SuperBlock)
    requires Appendable(f, blockLog, disk, sb, x) && |beyond| >= REG_BYTES && |scratch| == EMPTY_STORED
    requires sb.fragments + |steps| < INVALID_BLK && forall k :: 0 <= k < |steps| ==> steps[k].Possible()
    ensures AllWellFormed(InodesOf(x.items), blockLog)
    ensures fresh(a) && SameBelow(disk, a.data.disk, sb.inodeStart)
    ensures newSb.root == sb.root && newSb.inodeStart == sb.inodeStart
    ensures ok <==> TablesFit(f, plainFragments, sb.inodeStart, EncodeAll(f.order, InodesOf(x.items), blockLog), x.listings,
                              x.entries, scratch)
    ensures ok ==>
      var was := EncodeAll(f.order, InodesOf(x.items), blockLog);
      && DecodeStream(f, a.data.disk, newSb.inodeStart, newSb.directoryStart) == Some(was)
      && DecodeStream(f, a.data.disk, newSb.directoryStart, newSb.directoryStart + |EncodeStream(f, x.listings)|)
         == Some(x.listings)
      && ShowsAll(f, blockLog, a.data.disk, newSb, x, was, |was|, scratch)
    ensures ok && Survives(f.order, x.entries, scratch) ==> Appendable(f, blockLog, a.data.disk, newSb, x)
    ensures Roomy(SizesOf(f, blockLog, sb, x), sb.fragments) ==> ok
  {
    hide Archive.Valid, EncodeAll, AllWellFormed, WithoutRoot, SameBelow, Step.Makes, Step.Possible, TablesFit,
      ShowsAll, IndexFilled, TotalsAre, CountsOf, RootListing, PriorOf, Traces, HeldOf, Image, Rooted, AllInBounds,
      ReadBack, DecodeStream, EncodeStream, Survives, Roomy;
    ImageFits(f, blockLog, disk, sb, x, plainFragments, scratch);
    var loaded, rootEntries, counts, fileTotal, dirTotal;
    loaded, a, rootEntries, counts, fileTotal, dirTotal :=
      LoadArchive(f, blockLog, disk, sb, keepRoot, plainData, plainFragments, noFragments, alwaysFragments, checkDuplicates,
                  beyond, x);
    a.SavedStreamIs();
    ok, newSb := InterruptedAppend(a, steps, memory, sb.root, scratch);
  }
}
