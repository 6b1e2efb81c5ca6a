/** The image under construction: the steps that add to it, the closing writes, and the rollback. */
module Archives {
  import opened Wrappers

  import opened Bits
  import opened BitFields
  import opened DataStore
  import opened Directories
  import opened Duplicates
  import opened FileBlocks
  import opened FragmentTable
  import opened Inodes
  import opened Items
  import opened MetadataBlocks
  import opened MetadataStream
  import opened Room

  // ---- sizes ----

  function FileCost(content: seq<byte>, blockLog: nat): Sizes {
    Sizes(REG_BYTES + 4 * MostBlocks(|content|, blockLog), 0, ReadSize(|content|))
  }

  function DirectoryCost(entries: seq<Entry>): Sizes {
    Sizes(DIR_BYTES, ListingLimit(entries), 0)
  }

  lemma FileCosts(o: Order, inode: Inode, blocks: nat, size: nat, noFragments: bool, alwaysFragments: bool, blockLog: nat)
    requires inode.File? && inode.Storable() && |inode.blocks| == blocks
    requires blocks == WriterSplit(size, noFragments, alwaysFragments, blockLog).0
    ensures |Encode(o, inode)| <= REG_BYTES + 4 * MostBlocks(size, blockLog)
  {
    hide Encode, WriterSplit, MostBlocks, Inode.Storable;
    EncodedInodeLength(o, inode);
    SplitHasNoMore(size, noFragments, alwaysFragments, blockLog);
  }

  lemma DirectoryCosts(o: Order, inode: Inode, runs: seq<seq<Entry>>)
    requires inode.Directory? && inode.Storable() && AllRuns(runs)
    ensures |Encode(o, inode)| <= DIR_BYTES && |RunsBytes(o, runs)| <= ListingLimit(Flatten(runs))
  {
    hide Encode, Inode.Storable, RunsBytes, ListingLimit;
    EncodedInodeLength(o, inode);
    RunsAreLimited(o, runs);
  }

  // ---- steps and images ----

  /** What an append adds, one source object at a time. */
  datatype Step =
    | AddInode(inode: Inode)                                   // links, devices, pipes, sockets
    | AddFile(content: seq<byte>, c: Common, mtime: nat)
    | AddDirectory(entries: seq<Entry>, c: Common, mtime: nat)
  {
    predicate Possible() {
      match this
      case AddInode(inode) => inode.Storable() && !inode.File? && !inode.Directory?
      case AddFile(_, c, mtime) => c.InRange() && Fits(mtime, 32)
      case AddDirectory(entries, c, mtime) => AllStorable(entries) && c.InRange() && Fits(mtime, 32)
    }

    /** What it adds at most. */
    function Cost(blockLog: nat): Sizes {
      match this
      case AddInode(inode) => Sizes(InodeBytes(inode), 0, 0)
      case AddFile(content, _, _) => FileCost(content, blockLog)
      case AddDirectory(entries, _, _) => DirectoryCost(entries)
    }

    /** The inode made for this step. */
    predicate Makes(i: Item) {
      match this
      case AddInode(inode) => i == Plain(inode)
      case AddFile(content, c, mtime) =>
        i.Held? && i.content == content && i.inode.File? && i.inode.c == c && i.inode.mtime == mtime
      case AddDirectory(entries, c, mtime) =>
        i.Listed? && Flatten(i.runs) == entries && i.inode.Directory? && i.inode.c == c && i.inode.mtime == mtime
    }
  }

  function CostOf(steps: seq<Step>, blockLog: nat): Sizes {
    if steps == [] then Sizes(0, 0, 0)
    else CostOf(steps[..|steps| - 1], blockLog).Plus(steps[|steps| - 1].Cost(blockLog))
  }

  lemma NoCost(blockLog: nat)
    ensures CostOf([], blockLog) == Sizes(0, 0, 0)
  {
  }

  lemma CostOfMore(steps: seq<Step>, k: nat, blockLog: nat)
    requires k < |steps|
    ensures CostOf(steps[..k + 1], blockLog) == CostOf(steps[..k], blockLog).Plus(steps[k].Cost(blockLog))
  {
    hide Step.Cost;
    assert steps[..k + 1][..k] == steps[..k];
  }

  /** The fields of the superblock that lead to the rest. */
  datatype SuperBlock = SuperBlock(root: nat, inodeStart: nat, directoryStart: nat, fragmentStart: nat, fragments: nat)

  /** All inodes and what they stand for, the directory stream, the table of fragment blocks and their contents. */
  datatype Contents = Contents(items: seq<Item>, listings: seq<byte>, entries: seq<FragmentEntry>, blocks: seq<seq<byte>>)

  ghost predicate BothTables(f: Format, disk: seq<byte>, sb: SuperBlock, i: seq<byte>, d: seq<byte>) {
    && sb.directoryStart == sb.inodeStart + |EncodeStream(f, i)|
    && Holds(disk, sb.inodeStart, EncodeStream(f, i))
    && Holds(disk, sb.directoryStart, EncodeStream(f, d))
  }

  /** What lies in front of the tables of a closed image. */
  function Around(f: Format, blockLog: nat, disk: seq<byte>, sb: SuperBlock, x: Contents): World {
    World(f, blockLog, disk, sb.inodeStart, x.blocks + [[]], x.listings)
  }

  /** A closed image and its contents. */
  ghost predicate Image(f: Format, blockLog: nat, disk: seq<byte>, sb: SuperBlock, x: Contents) {
    && f.codec.Faithful() && Pow2(blockLog) <= 0x1_0000 && sb.inodeStart <= MAX_INT
    && |x.entries| == |x.blocks| == sb.fragments < INVALID_BLK
    && BlocksStand(f.codec, Pow2(blockLog), disk, sb.inodeStart, x.entries, x.blocks)
    && AllWellFormed(InodesOf(x.items), blockLog)
    && var stream := EncodeAll(f.order, InodesOf(x.items), blockLog);
    && Holding(Around(f, blockLog, disk, sb, x), x.items, stream)
    && BothTables(f, disk, sb, stream, x.listings)
  }

  /** The directory's size and place fit the fields of its inode. */
  predicate Narrow(f: Format, listings: seq<byte>, i: Item)
    requires i.Listed? && AllRuns(i.runs) && i.at <= |listings|
  {
    |RunsBytes(f.order, i.runs)| < 0x8_0000 && NumberOf(f, listings, i.at) / 0x1_0000 < 0x100_0000
  }

  /** The last inode created lists what was last added to the directory stream. */
  predicate EndsWithListing(f: Format, items: seq<Item>, listings: seq<byte>) {
    && items != []
    && var i := items[|items| - 1];
    && i.Listed? && AllRuns(i.runs) && i.inode.Directory? && i.inode.Storable()
    && i.at <= |listings| && listings[i.at..] == RunsBytes(f.order, i.runs)
  }

  /** The last inode is that of the root directory, and not the only one; its listing ends the directory stream,
      and is not too long or too far behind for its inode. */
  ghost predicate Rooted(f: Format, blockLog: nat, root: nat, x: Contents) {
    var n := |x.items| - 1;
    && n >= 1 && EndsWithListing(f, x.items, x.listings) && Narrow(f, x.listings, x.items[n])
    && AllWellFormed(InodesOf(x.items), blockLog) && root == NumberAt(f, blockLog, x.items, n)
  }

  /** An image that can be appended to. */
  ghost predicate Appendable(f: Format, blockLog: nat, disk: seq<byte>, sb: SuperBlock, x: Contents) {
    && Image(f, blockLog, disk, sb, x) && Rooted(f, blockLog, sb.root, x) && AllInBounds(x.items)
    && ReadBack(f, disk, sb.fragmentStart, sb.fragments) == Some(x.entries)
  }

  lemma NewFileStands(w: World, i: Item, plain: bool, data: seq<byte>, tail: seq<byte>, c: Common, mtime: nat,
                      behind: nat -> nat)
    requires w.f.codec.Faithful() && Pow2(w.blockLog) < COMPRESSED_BIT_BLOCK
    requires i.Held? && data + tail == i.content[..ReadSize(|i.content|)]
    requires Located(w.disk, w.bytes, w.blocks, i.at, i.stored, i.list, i.fr, tail)
    requires (i.own, i.stored) == StoreBlocks(w.f.codec, plain, Pow2(w.blockLog), data)
    requires i.inode == FileInode(c, mtime, i.at, i.fr, ReadSize(|i.content|), i.list, |i.own|, behind)
    requires TailBytes(ReadSize(|i.content|), i.fr.index, w.blockLog) == |tail|
    ensures ItemStands(w, i)
  {
    hide StoreBlocks, LoadBlocks, TotalStored, Holds, Placed, TailOf, FitInts, TailBytes, Low;
    var size := ReadSize(|i.content|);
    BlocksRoundTrip(w.f.codec, plain, Pow2(w.blockLog), data);
    assert i.content[..size][..|data|] == data && i.content[..size][|data|..] == tail;
    assert i.content[..size - i.fr.size] == data && i.content[size - i.fr.size..size] == tail;
    WordsOfList(i.list, |i.own|, behind);
  }

  lemma StillGenuine(codec: Codec, plain: bool, blockLog: nat, was: seq<Recorded>, files: seq<Recorded>, i: Item,
                     data: seq<byte>, tail: seq<byte>)
    requires Pow2(blockLog) < COMPRESSED_BIT_BLOCK && GenuineIndex(codec, plain, Pow2(blockLog), was)
    requires i.Held? && data + tail == i.content[..ReadSize(|i.content|)] && i.fr.size == |tail|
    requires (i.own, i.stored) == StoreBlocks(codec, plain, Pow2(blockLog), data)
    requires
      || (i.list == i.own
          && (files == was
              || exists r: Recorded :: files == was + [r] && r.info.blockList == i.list && r.stored == i.stored))
      || (files == was && exists k :: 0 <= k < |files| && Serves(files[k], i.stored, tail, i.at, i.list, i.fr))
    ensures GenuineIndex(codec, plain, Pow2(blockLog), files) && Genuine(codec, plain, blockLog, i)
  {
    hide StoreBlocks, GenuineIndex, IsListOf, Serves;
    var size := ReadSize(|i.content|);
    GenuineStays(codec, plain, Pow2(blockLog), was, files, data, i.list, i.stored, tail, i.at, i.fr);
    assert i.content[..size][..|data|] == data;
    assert i.content[..size - i.fr.size] == data;
  }

  /** The new files of a run, all stored in the same way: each was handed the list of the first file, old or new, with the
      same stored bytes and the same tail, or, if duplicates are not looked for, its own. */
  ghost predicate Traces(way: Way, check: bool, files: seq<Recorded>, prior: seq<Kept>, news: seq<Item>)
    requires forall k :: 0 <= k < |news| ==> news[k].Held?
  {
    && way.Usable()
    && (check ==> Indexes(files, prior + KeptOfAll(news)))
    && forall k :: 0 <= k < |news| ==>
         && KeptOf(news[k]) == way.Keep(news[k].content)
         && (if check then Served(prior + KeptOfAll(news), news[k].stored, KeptOf(news[k]).tail) == Some(news[k].list)
             else news[k].list == news[k].own)
  }

  lemma TracesMore(way: Way, check: bool, was: seq<Recorded>, files: seq<Recorded>, prior: seq<Kept>, news: seq<Item>, i: Item)
    requires forall k :: 0 <= k < |news| ==> news[k].Held?
    requires Traces(way, check, was, prior, news) && i.Held? && KeptOf(i) == way.Keep(i.content)
    requires check ==> Entered(was, files, KeptOf(i))
    requires
      if check && Recurs(was, i.stored, KeptOf(i).tail)
      then exists k :: 0 <= k < |was| && was[k].stored == i.stored && was[k].tail == KeptOf(i).tail
                       && was[k].info.blockList == i.list
      else i.list == i.own
    ensures Traces(way, check, files, prior, news + [i])
  {
    hide Way.Keep, Indexes, Entered, Recurs, Served, Way.Usable;
    var before, e := prior + KeptOfAll(news), KeptOf(i);
    var after := prior + KeptOfAll(news + [i]);
    assert after == before + [e];
    if check {
      IndexesNext(was, files, before, e);
      HandedIsServed(was, files, before, e, i.list);
      forall k | 0 <= k < |news|
        ensures Served(after, news[k].stored, KeptOf(news[k]).tail) == Some(news[k].list)
      {
        ServedStays(before, [e], news[k].stored, KeptOf(news[k]).tail);
      }
    }
  }

  /** What write_file says of the file it has written. */
  lemma FileIsTraced(way: Way, check: bool, was: seq<Recorded>, files: seq<Recorded>, prior: seq<Kept>, news: seq<Item>, i: Item,
                     duplicate: bool)
    requires forall k :: 0 <= k < |news| ==> news[k].Held?
    requires Traces(way, check, was, prior, news) && i.Held?
    requires
      var parts := PartsOf(i.content, way.noFragments, way.alwaysFragments, way.blockLog);
      && way.Usable() && i.fr.size == |parts.1|
      && (i.own, i.stored) == StoreBlocks(way.codec, way.plain, Pow2(way.blockLog), parts.0)
      && duplicate == (check && Recurs(was, i.stored, parts.1))
      && (duplicate ==> files == was && exists k :: 0 <= k < |was| && Serves(was[k], i.stored, parts.1, i.at, i.list, i.fr))
      && (!duplicate ==> i.list == i.own)
      && (check && !duplicate ==> exists r: Recorded ::
            files == was + [r] && r.stored == i.stored && r.tail == parts.1 && r.info.blockList == i.list)
    ensures Traces(way, check, files, prior, news + [i])
  {
    hide StoreBlocks, Recurs, Traces;
    var (data, tail) := PartsOf(i.content, way.noFragments, way.alwaysFragments, way.blockLog);
    var size := ReadSize(|i.content|);
    assert i.content[..size][|data|..] == tail;
    assert KeptOf(i).tail == tail;
    TracesMore(way, check, was, files, prior, news, i);
  }

  lemma FileIs(c: Common, mtime: nat, start: nat, fr: Fragment, size: nat, list: seq<nat>, count: nat, behind: nat -> nat)
    ensures
      var inode := FileInode(c, mtime, start, fr, size, list, count, behind);
      inode.File? && inode.c == c && inode.mtime == mtime && |inode.blocks| == count
  {
    hide Low, CopiedWords;
  }

  lemma DirectoryIs(c: Common, mtime: nat, place: nat, size: nat)
    ensures
      var inode := DirectoryInode(c, mtime, place, size);
      inode.Directory? && inode.c == c && inode.mtime == mtime
  {
    hide Low;
  }

  lemma ListingsGrow(w: World, v: World)
    requires v == w.(listings := v.listings) && w.listings <= v.listings && w.bytes <= |w.disk|
    ensures GrowsInto(w, v)
  {
    hide SameBelow, GrowsTo;
    NothingWritten(w.disk, w.bytes);
    SameGrows(w.blocks);
  }

  lemma NewListingStands(w: World, i: Item, d: seq<byte>, c: Common, mtime: nat)
    requires i.Listed? && AllRuns(i.runs) && i.at == |d| && w.listings == d + RunsBytes(w.f.order, i.runs)
    requires i.inode == DirectoryInode(c, mtime, NumberOf(w.f, w.listings, i.at), |RunsBytes(w.f.order, i.runs)|)
    ensures ItemStands(w, i)
  {
    hide RunsBytes, NumberOf, Low;
  }

  lemma DataGrows(w: World, v: World)
    requires v == w.(disk := v.disk, bytes := v.bytes, blocks := v.blocks)
    requires w.bytes <= v.bytes && SameBelow(w.disk, v.disk, w.bytes) && GrowsTo(w.blocks, v.blocks)
    ensures GrowsInto(w, v)
  {
    hide SameBelow, GrowsTo;
  }

  lemma EntriesFit(codec: Codec, blockSize: nat, disk: seq<byte>, bytes: nat, entries: seq<FragmentEntry>, blocks: seq<seq<byte>>)
    requires BlocksStand(codec, blockSize, disk, bytes, entries, blocks) && |entries| == |blocks| && bytes <= MAX_INT
    ensures FragmentTable.Storable(entries)
  {
    hide Fits, Unmangle;
    forall k | 0 <= k < |entries|
      ensures Fits(entries[k].start, 32) && Fits(entries[k].size, 32)
    {
      assert BlockOnDisk(codec, blockSize, disk, bytes, entries[k], blocks[k]);
      FitsInt(entries[k].start);
      FitsInt(entries[k].size);
    }
  }

  lemma SameBelowBound(a: seq<byte>, b: seq<byte>, n: nat)
    requires SameBelow(a, b, n)
    ensures n <= |a| && n <= |b|
  {
  }

  /** What stood when the tables were written still stands in the closed image. */
  lemma ImageIsClosed(w: World, disk: seq<byte>, sb: SuperBlock, x: Contents, stream: seq<byte>)
    requires w.f.codec.Faithful() && Pow2(w.blockLog) <= 0x1_0000
    requires Holding(w, x.items, stream) && w.blocks == x.blocks + [[]] && w.listings == x.listings
    requires |x.entries| == |x.blocks| == sb.fragments < INVALID_BLK && sb.inodeStart == w.bytes <= MAX_INT
    requires BlocksStand(w.f.codec, Pow2(w.blockLog), w.disk, w.bytes, x.entries, x.blocks)
    requires SameBelow(w.disk, disk, w.bytes) && BothTables(w.f, disk, sb, stream, x.listings)
    ensures Image(w.f, w.blockLog, disk, sb, x)
  {
    hide BlocksStand, SameBelow, BothTables, GrowsInto, GrowsTo, ItemStands, EncodeAll, AllWellFormed, InOrder;
    SameBelowBound(w.disk, disk, w.bytes);
    BlocksStillStand(w.f.codec, Pow2(w.blockLog), w.disk, w.bytes, x.entries, disk, w.bytes, x.entries, x.blocks);
    SameGrows(w.blocks);
    var v := Around(w.f, w.blockLog, disk, sb, x);
    DataGrows(w, v);
    HoldingStays(w, v, x.items, stream);
  }

  /** The positions in the fragment table's index lie inside the blocks. */
  lemma {:induction false} IndexBelow(f: Format, b: seq<byte>, at: nat, scratch: seq<byte>, k: nat)
    requires k < |WriteTable(f, b, at, scratch).1|
    ensures WriteTable(f, b, at, scratch).1[k] <= at + |WriteTable(f, b, at, scratch).0|
    decreases |b|
  {
    hide EncodeBlock, EmptyBlock;
    if |b| <= METADATA_SIZE || k == 0 {
    } else {
      var block := EncodeBlock(f, b[..METADATA_SIZE]);
      IndexBelow(f, b[METADATA_SIZE..], at + |block|, scratch, k - 1);
    }
  }

  lemma IndexFits(f: Format, b: seq<byte>, at: nat, scratch: seq<byte>)
    requires at + |WriteTable(f, b, at, scratch).0| <= MAX_INT
    ensures FitInts(WriteTable(f, b, at, scratch).1)
  {
    hide WriteTable;
    var index := WriteTable(f, b, at, scratch).1;
    forall k | 0 <= k < |index|
      ensures Fits(index[k], 32)
    {
      IndexBelow(f, b, at, scratch, k);
      FitsInt(index[k]);
    }
  }

  lemma {:induction false} BlocksShowNoFlag(f: Format, plain: bool, img: seq<byte>, index: seq<nat>)
    ensures ReadTableBlocks(f.(uncompressed := plain), img, index) == ReadTableBlocks(f, img, index)
  {
    if index == [] {
    } else {
      BlocksShowNoFlag(f, plain, img, index[1..]);
    }
  }

  /** The reader does not ask how the table was to be stored. */
  lemma ReaderSeesNoFlag(f: Format, plain: bool, img: seq<byte>, indexAt: nat, n: nat)
    ensures ReadBack(f.(uncompressed := plain), img, indexAt, n) == ReadBack(f, img, indexAt, n)
  {
    hide ReadTableBlocks, DecodeEntries, ReadInts;
    var blocks := (FRAGMENT_ENTRY_BYTES * n + METADATA_SIZE - 1) / METADATA_SIZE;
    if indexAt + 4 * blocks <= |img| {
      BlocksShowNoFlag(f, plain, img, ReadInts(f.order, img, indexAt, blocks));
    }
  }

  /** Whether the fragment blocks are compressed or not: the table is read back exactly when nothing is lost in it. */
  lemma ReadsBackHere(f: Format, plainFragments: bool, img: seq<byte>, at: nat, entries: seq<FragmentEntry>, scratch: seq<byte>)
    requires f.codec.Faithful() && FragmentTable.Storable(entries) && |scratch| == EMPTY_STORED
    requires
      var g := f.(uncompressed := plainFragments);
      FitInts(WriteTable(g, EncodeEntries(f.order, entries), at, scratch).1) && Holds(img, at, TableBytes(g, entries, at, scratch).0)
    ensures
      var g := f.(uncompressed := plainFragments);
      ReadBack(f, img, TableBytes(g, entries, at, scratch).1, |entries|) == Some(entries) <==> Survives(f.order, entries, scratch)
  {
    hide ReadBack, TableBytes, WriteTable, EncodeEntries, Survives, Holds, FitInts, FragmentTable.Storable;
    var g := f.(uncompressed := plainFragments);
    ReadsBackOrNot(g, img, at, entries, scratch);
    ReaderSeesNoFlag(f, plainFragments, img, TableBytes(g, entries, at, scratch).1, |entries|);
  }

  class Archive {
    const f: Format
    const data: DataWriter
    const inodes: MetadataTable
    const directories: MetadataTable
    var savedBytes: nat                           // sbytes
    var savedFragments: nat                       // sfragments
    ghost const prior: seq<Kept>                  // the files of the image, as they were registered
    ghost const loaded: nat                       // how many inodes there were at the start of the run
    ghost var items: seq<Item>                    // the inodes created, oldest first
    ghost var savedItems: seq<Item>
    ghost var savedDisk: seq<byte>                // the image when the append began
    ghost var savedEntries: seq<FragmentEntry>
    ghost var savedBlocks: seq<seq<byte>>

    ghost function Now(): World
      requires data.fragmentSize <= |data.fragmentData|
      reads this, data, directories
    {
      World(f, data.blockLog, data.disk, data.bytes, data.AllBlocks(), directories.stream)
    }

    ghost function Then(): World
      reads this, directories
    {
      World(f, data.blockLog, savedDisk, savedBytes, savedBlocks + [[]], directories.savedStream)
    }

    function Storing(): Way {
      Way(data.codec, data.blockLog, data.plainData, data.noFragments, data.alwaysFragments)
    }

    ghost function SizesNow(): Sizes
      reads this, data, inodes, directories
    {
      Sizes(|inodes.stream|, |directories.stream|, data.bytes + data.fragmentSize)
    }

    /** The files this run has created. */
    ghost function News(): (news: seq<Item>)
      requires loaded <= |items|
      reads this
      ensures forall k :: 0 <= k < |news| ==> news[k].Held?
    {
      HeldOf(items[loaded..])
    }

    /** The new files are traced, this one among them. */
    ghost predicate TracesWith(i: Item)
      requires loaded <= |items| && i.Held?
      reads this, data
    {
      Traces(Storing(), data.checkDuplicates, data.files, prior, News() + [i])
    }

    ghost function Present(): Contents
      requires data.fragments <= |data.fragmentTable|
      reads this, data, directories
    {
      Contents(items, directories.stream, data.fragmentTable[..data.fragments], data.blocks)
    }

    ghost function Saved(): Contents
      reads this, directories
    {
      Contents(savedItems, directories.savedStream, savedEntries, savedBlocks)
    }

    ghost predicate Valid()
      reads this, data, inodes, directories
    {
      Stands() && loaded <= |items| && Traces(Storing(), data.checkDuplicates, data.files, prior, News())
    }

    ghost predicate Stands()
      reads this, data, inodes, directories
    {
      && Assembled() && data.Valid() && inodes.Valid() && directories.Valid()
      && Holding(Now(), items, inodes.stream)
      && SavedIntact()
    }

    ghost predicate Assembled()
      reads this, inodes, directories
    {
      inodes != directories && inodes.f == f && directories.f == f && data.codec == f.codec
    }

    /** Everything a rollback returns to is still there. */
    ghost predicate SavedIntact()
      reads this, data, inodes, directories
    {
      && savedBytes <= data.bytes && SameBelow(savedDisk, data.disk, savedBytes)
      && savedFragments <= data.fragments <= |data.fragmentTable|
      && data.fragmentTable[..savedFragments] == savedEntries
      && |savedBlocks| == savedFragments < INVALID_BLK
      && BlocksStand(data.codec, data.BlockSize(), savedDisk, savedBytes, savedEntries, savedBlocks)
      && Holding(Then(), savedItems, inodes.savedStream)
    }

    /** The lists in the duplicate index are block lists of files stored as this archive stores files. */
    ghost predicate IndexIsGenuine()
      reads this, data
    {
      data.BlockSize() < COMPRESSED_BIT_BLOCK && GenuineIndex(data.codec, data.plainData, data.BlockSize(), data.files)
    }

    /** main before the first source: remember where we are. */
    constructor (f: Format, data: DataWriter, inodes: MetadataTable, directories: MetadataTable,
                 ghost items: seq<Item>, ghost savedItems: seq<Item>, ghost prior: seq<Kept>)
      requires data.checkDuplicates ==> Indexes(data.files, prior)
      requires data.Valid() && data.fragmentSize == 0 && inodes.Valid() && directories.Valid()
      requires inodes != directories && inodes.f == f && directories.f == f && data.codec == f.codec
      requires
        var w := World(f, data.blockLog, data.disk, data.bytes, data.blocks + [[]], directories.stream);
        && Holding(w, items, inodes.stream)
        && Holding(w.(listings := directories.savedStream), savedItems, inodes.savedStream)
      ensures Valid() && this.items == items && this.savedItems == savedItems
      ensures this.prior == prior && loaded == |items|
      ensures this.f == f && this.data == data && this.inodes == inodes && this.directories == directories
      ensures savedDisk == data.disk && savedBytes == data.bytes
      ensures savedBlocks == data.blocks && savedEntries == data.fragmentTable[..data.fragments]
    {
      hide Holding, FilesStand, FragmentsStand, Indexed, InProgress, BlocksStand, Indexes, Served, Way.Keep;
      this.prior, loaded := prior, |items|;
      this.f, this.data, this.inodes, this.directories := f, data, inodes, directories;
      savedBytes, savedFragments := data.bytes, data.fragments;
      savedDisk, savedEntries, savedBlocks := data.disk, data.fragmentTable[..data.fragments], data.blocks;
      this.items, this.savedItems := items, savedItems;
      new;
      NothingWritten(data.disk, data.bytes);
      BlocksStillStand(data.codec, data.BlockSize(), data.disk, data.bytes, data.fragmentTable,
                       data.disk, data.bytes, savedEntries, savedBlocks);
      assert data.fragmentData[..data.fragmentSize] == [];
      assert data.AllBlocks() == data.blocks + [[]];
      assert items[loaded..] == [];
      assert prior + [] == prior;
    }

    lemma StreamIs()
      requires Valid()
      ensures f.codec.Faithful()
      ensures AllWellFormed(InodesOf(items), data.blockLog)
      ensures inodes.stream == EncodeAll(f.order, InodesOf(items), data.blockLog)
    {
      hide BlocksStand, FragmentsStand, FilesStand, Indexed, InProgress, SameBelow, ItemStands, InOrder, EncodeAll,
        Inode.WellFormed;
    }

    lemma SavedStreamIs()
      requires Valid()
      ensures AllWellFormed(InodesOf(savedItems), data.blockLog)
      ensures inodes.savedStream == EncodeAll(f.order, InodesOf(savedItems), data.blockLog)
    {
      hide BlocksStand, FragmentsStand, FilesStand, Indexed, InProgress, SameBelow, ItemStands, InOrder, EncodeAll,
        Inode.WellFormed;
    }

    lemma IsTraced()
      requires Valid()
      ensures loaded <= |items| && Traces(Storing(), data.checkDuplicates, data.files, prior, News())
    {
      hide Stands, Traces;
    }

    /** create_inode: the inode goes to the end of the stream and gets its number. */
    method CreateInode(inode: Inode, ghost item: Item) returns (number: nat)
      requires Stands() && item.inode == inode && inode.WellFormed(data.blockLog) && ItemStands(Now(), item)
      requires loaded <= |items|
      requires Traces(Storing(), data.checkDuplicates, data.files, prior, News() + if item.Held? then [item] else [])
      requires item.Listed? ==> EndsBelow(f.order, items, item.at)
      modifies this`items, inodes
      ensures Valid() && items == old(items) + [item]
      ensures inode.Storable() && inodes.stream == old(inodes.stream) + Encode(f.order, inode)
      ensures inodes.savedStream == old(inodes.savedStream)
      ensures AllWellFormed(InodesOf(items), data.blockLog) && number == NumberAt(f, data.blockLog, items, |old(items)|)
    {
      hide Encode, Holding, NumberOf, NumberAt, Inode.WellFormed, Inode.Storable, InProgress, ItemStands, EndsBelow,
        BlocksStand, FragmentsStand, FilesStand, Indexed, SameBelow, AllWellFormed, Traces, HeldOf;
      ghost var was, stream := items, inodes.stream;
      assert (items + [item])[loaded..] == items[loaded..] + [item];
      HeldOfMore(items[loaded..], item);
      HoldingMore(Now(), items, inodes.stream, item);
      number := inodes.Append(Encode(f.order, inode));
      items := items + [item];
      AllAreWellFormed(Now(), items, inodes.stream);
      NewestNumber(Now(), was, stream, Now(), items, inodes.stream);
    }

    /** create_inode for everything but files and directories. */
    method NewInode(inode: Inode) returns (number: nat)
      requires Valid() && inode.Storable() && !inode.File? && !inode.Directory?
      modifies this`items, inodes
      ensures Valid() && items == old(items) + [Plain(inode)]
      ensures inodes.stream == old(inodes.stream) + Encode(f.order, inode) && inodes.savedStream == old(inodes.savedStream)
      ensures SizesNow().AtMost(old(SizesNow()).Plus(Sizes(InodeBytes(inode), 0, 0)))
      ensures AllWellFormed(InodesOf(items), data.blockLog) && number == NumberAt(f, data.blockLog, items, |old(items)|)
    {
      hide Encode, Holding, NumberAt, Inode.Storable, InProgress, BlocksStand, FragmentsStand, FilesStand, Indexed,
        SameBelow, AllWellFormed, Traces, HeldOf, InodeBytes;
      EncodedInodeLength(f.order, inode);
      assert News() + [] == News();
      number := CreateInode(inode, Plain(inode));
    }

    /** What the inode of a new file says: `item` is there, and its words are copied from the file's own list or, for a
        duplicate, from that of a file with the same stored bytes and the same tail. */
    ghost predicate IsNewFile(i: Item, content: seq<byte>, c: Common, mtime: nat, behind: nat -> nat)
      reads this, data
    {
      && i.Held? && i.content == content && i.inode.WellFormed(data.blockLog) && data.BlockSize() < COMPRESSED_BIT_BLOCK
      && i.inode == FileInode(c, mtime, i.at, i.fr, ReadSize(|content|), i.list, |i.own|, behind)
      && (i.own, i.stored) == StoreBlocks(data.codec, data.plainData, data.BlockSize(), data.FileParts(content).0)
      && (i.list != i.own ==>
            exists k :: 0 <= k < |data.files|
                        && Serves(data.files[k], i.stored, data.FileParts(content).1, i.at, i.list, i.fr))
    }

    /** write_file up to create_inode, and what create_inode makes of it. */
    method WriteContent(content: seq<byte>, c: Common, mtime: nat, behind: nat -> nat) returns (inode: Inode, ghost item: Item)
      requires Valid() && c.InRange() && Fits(mtime, 32) && data.fragments + 1 < INVALID_BLK
      modifies data
      ensures Stands() && data.fragments <= old(data.fragments) + 1
      ensures item.Held? && IsNewFile(item, content, c, mtime, behind) && item.inode == inode && ItemStands(Now(), item)
      ensures loaded <= |items| && TracesWith(item)
      ensures data.bytes + data.fragmentSize <= old(data.bytes + data.fragmentSize) + ReadSize(|content|)
      ensures inode.Storable() && |Encode(f.order, inode)| <= REG_BYTES + 4 * MostBlocks(|content|, data.blockLog)
      ensures old(IndexIsGenuine()) ==> IndexIsGenuine() && Genuine(f.codec, data.plainData, data.blockLog, item)
    {
      hide BlocksStand, FragmentsStand, FilesStand, Indexed, StoreBlocks, Located, SameBelow, Serves, Holding,
        InProgress, Inode.WellFormed, FileInode, WriterSplit, GrowsTo, Checksum, Fits, ItemStands,
        DataWriter.FileParts, FitInts, GenuineIndex, Genuine, Traces, HeldOf, Recurs, MostBlocks, Encode,
        Inode.Storable, ContentSplit, DueFragment;
      ghost var before, reach, was, known := data.disk, data.bytes, Now(), data.files;
      var at, list, fr, count, duplicate := data.WriteFile(content);
      SameBelowTwice(savedDisk, before, data.disk, savedBytes, reach);
      ghost var parts := data.FileParts(content);
      ghost var (own, stored) := StoreBlocks(data.codec, data.plainData, data.BlockSize(), parts.0);
      LocatedListFits(data.disk, data.bytes, data.AllBlocks(), at, stored, list, fr, parts.1);
      FileInodeIsWellFormed(c, mtime, at, fr, |content|, list, count, behind, data.noFragments, data.alwaysFragments,
                            data.blockLog);
      inode := FileInode(c, mtime, at, fr, ReadSize(|content|), list, count, behind);
      item := Held(inode, content, at, stored, own, list, fr);
      HoldingStays(was, Now(), items, inodes.stream);
      NewFileStands(Now(), item, data.plainData, parts.0, parts.1, c, mtime, behind);
      FileIsTraced(Storing(), data.checkDuplicates, known, data.files, prior, News(), item, duplicate);
      FileIs(c, mtime, at, fr, ReadSize(|content|), list, count, behind);
      FileCosts(f.order, inode, count, |content|, data.noFragments, data.alwaysFragments, data.blockLog);
      if GenuineIndex(data.codec, data.plainData, data.BlockSize(), known) {
        StillGenuine(data.codec, data.plainData, data.blockLog, known, data.files, item, parts.0, parts.1);
      }
    }

    /** write_file. The inode tells where the stored blocks and the tail of the file are; there are always as many words in
        it as the file has blocks. */
    method NewFile(content: seq<byte>, c: Common, mtime: nat, behind: nat -> nat) returns (number: nat)
      requires Valid() && c.InRange() && Fits(mtime, 32) && data.fragments + 1 < INVALID_BLK
      modifies this`items, data, inodes
      ensures Valid() && data.fragments <= old(data.fragments) + 1
      ensures SizesNow().AtMost(old(SizesNow()).Plus(FileCost(content, data.blockLog)))
      ensures |items| == |old(items)| + 1 && items[..|old(items)|] == old(items)
      ensures
        var i := items[|old(items)|];
        && IsNewFile(i, content, c, mtime, behind)
        && i.inode.Storable() && inodes.stream == old(inodes.stream) + Encode(f.order, i.inode)
        && (old(IndexIsGenuine()) ==> IndexIsGenuine() && Genuine(f.codec, data.plainData, data.blockLog, i))
      ensures inodes.savedStream == old(inodes.savedStream)
      ensures AllWellFormed(InodesOf(items), data.blockLog) && number == NumberAt(f, data.blockLog, items, |old(items)|)
    {
      hide BlocksStand, FragmentsStand, FilesStand, Indexed, Encode, StoreBlocks, SameBelow, Serves, Holding, NumberAt,
        InProgress, Inode.WellFormed, Inode.Storable, FileInode, GenuineIndex, Genuine, ItemStands, AllWellFormed,
        DataWriter.FileParts, Traces, HeldOf, MostBlocks;
      var inode, item := WriteContent(content, c, mtime, behind);
      number := CreateInode(inode, item);
    }

    /** write_dir: the listing goes to the directory table, and its place there into the inode. */
    method NewDirectory(entries: seq<Entry>, c: Common, mtime: nat) returns (number: nat)
      requires Valid() && AllStorable(entries) && c.InRange() && Fits(mtime, 32)
      modifies this`items, inodes, directories
      ensures Valid()
      ensures SizesNow().AtMost(old(SizesNow()).Plus(DirectoryCost(entries)))
      ensures inodes.savedStream == old(inodes.savedStream) && directories.savedStream == old(directories.savedStream)
      ensures |items| == |old(items)| + 1 && items[..|old(items)|] == old(items)
      ensures
        var i := items[|old(items)|];
        && i.Listed? && AllRuns(i.runs) && Flatten(i.runs) == entries && i.at == |old(directories.stream)|
        && directories.stream == old(directories.stream) + RunsBytes(f.order, i.runs)
        && i.inode == DirectoryInode(c, mtime, NumberOf(f, directories.stream, i.at), |RunsBytes(f.order, i.runs)|)
        && i.inode.Storable() && inodes.stream == old(inodes.stream) + Encode(f.order, i.inode)
      ensures AllWellFormed(InodesOf(items), data.blockLog) && number == NumberAt(f, data.blockLog, items, |old(items)|)
    {
      hide Encode, RunsBytes, ParseRuns, NumberOf, NumberAt, BlocksStand, FragmentsStand, FilesStand, Indexed,
        Holding, InProgress, SameBelow, DirectoryInode, Inode.Storable, Fits, EndsBelow, AllWellFormed, Traces,
        HeldOf, ListingLimit, Flatten;
      ghost var was, d := Now(), directories.stream;
      var listing, runs := BuildDirectory(f.order, entries);
      var place := directories.Append(listing);
      DirectoryHeaderFits(c, mtime, place, |listing|);
      var inode := DirectoryInode(c, mtime, place, |listing|);
      ghost var item := Listed(inode, |d|, runs);
      ListingsGrow(was, Now());
      AllEndBelow(was, items, inodes.stream);
      HoldingStays(was, Now(), items, inodes.stream);
      NewListingStands(Now(), item, d, c, mtime);
      DirectoryIs(c, mtime, place, |listing|);
      DirectoryCosts(f.order, inode, runs);
      assert News() + [] == News();
      number := CreateInode(inode, item);
    }

    /** Any number of steps, one inode each; `memory` is what lies behind the lists that are copied from. */
    method Run(steps: seq<Step>, memory: nat -> nat -> nat) returns (last: nat)
      requires Valid() && data.fragments + |steps| < INVALID_BLK
      requires forall k :: 0 <= k < |steps| ==> steps[k].Possible()
      modifies this`items, data, inodes, directories
      ensures Valid() && data.fragments <= old(data.fragments) + |steps|
      ensures SizesNow().AtMost(old(SizesNow()).Plus(CostOf(steps, data.blockLog)))
      ensures |items| == |old(items)| + |steps| && items[..|old(items)|] == old(items)
      ensures forall k :: 0 <= k < |steps| ==> steps[k].Makes(items[|old(items)| + k])
      ensures old(inodes.stream) <= inodes.stream && inodes.savedStream == old(inodes.savedStream)
      ensures old(directories.stream) <= directories.stream && directories.savedStream == old(directories.savedStream)
      ensures AllWellFormed(InodesOf(items), data.blockLog)
      ensures steps != [] ==> last == NumberAt(f, data.blockLog, items, |items| - 1)
      ensures steps != [] && steps[|steps| - 1].AddDirectory? ==> EndsWithListing(f, items, directories.stream)
    {
      hide NumberAt, Encode, RunsBytes, NumberOf, StoreBlocks, Flatten, Inode.WellFormed, Inode.Storable, FileInode,
        DirectoryInode, Holding, Serves, SameBelow, BlocksStand, FragmentsStand, FilesStand, Indexed, InProgress,
        Step.Possible, Step.Makes, Traces, HeldOf, Step.Cost, Archive.Valid, CostOf, EndsWithListing, AllWellFormed;
      ghost var before := |items|;
      assert steps[..0] == [];
      NoCost(data.blockLog);
      last := 0;
      StreamIs();
      for k := 0 to |steps|
        invariant Valid() && data.fragments <= old(data.fragments) + k
        invariant SizesNow().AtMost(old(SizesNow()).Plus(CostOf(steps[..k], data.blockLog)))
        invariant |items| == before + k && items[..before] == old(items)
        invariant forall j :: 0 <= j < k ==> steps[j].Makes(items[before + j])
        invariant old(inodes.stream) <= inodes.stream && inodes.savedStream == old(inodes.savedStream)
        invariant old(directories.stream) <= directories.stream && directories.savedStream == old(directories.savedStream)
        invariant AllWellFormed(InodesOf(items), data.blockLog)
        invariant k > 0 ==> last == NumberAt(f, data.blockLog, items, |items| - 1)
        invariant k > 0 && steps[k - 1].AddDirectory? ==> EndsWithListing(f, items, directories.stream)
      {
        ghost var was := items;
        CostOfMore(steps, k, data.blockLog);
        last := TakeStep(steps[k], memory(k));
        assert forall j :: 0 <= j < |was| ==> items[j] == items[..|was|][j];
        assert items[..before] == items[..|was|][..before];
      }
      assert steps[..|steps|] == steps;
    }

    /** One step. */
    method TakeStep(step: Step, behind: nat -> nat) returns (number: nat)
      requires Valid() && step.Possible() && data.fragments + 1 < INVALID_BLK
      modifies this`items, data, inodes, directories
      ensures Valid() && data.fragments <= old(data.fragments) + 1
      ensures SizesNow().AtMost(old(SizesNow()).Plus(step.Cost(data.blockLog)))
      ensures |items| == |old(items)| + 1 && items[..|old(items)|] == old(items) && step.Makes(items[|old(items)|])
      ensures old(inodes.stream) <= inodes.stream && inodes.savedStream == old(inodes.savedStream)
      ensures old(directories.stream) <= directories.stream && directories.savedStream == old(directories.savedStream)
      ensures AllWellFormed(InodesOf(items), data.blockLog)
      ensures number == NumberAt(f, data.blockLog, items, |items| - 1)
      ensures step.AddDirectory? ==> EndsWithListing(f, items, directories.stream)
    {
      hide NumberAt, Encode, RunsBytes, NumberOf, StoreBlocks, Flatten, Inode.WellFormed, Inode.Storable, Holding,
        Serves, SameBelow, BlocksStand, FragmentsStand, FilesStand, Indexed, InProgress, Common.InRange, Fits, Low,
        CopiedWords, Traces, HeldOf, FileCost, DirectoryCost, InodeBytes;
      match step {
        case AddInode(inode) => number := NewInode(inode);
        case AddFile(content, c, mtime) => number := NewFile(content, c, mtime, behind);
        case AddDirectory(entries, c, mtime) => number := NewDirectory(entries, c, mtime);
      }
    }

    /** The last of the closing writes: the table of fragment blocks, if its blocks end below 2^32. */
    method CloseFragments(scratch: seq<byte>) returns (ok: bool, start: nat)
      requires f.codec.Faithful() && |scratch| == EMPTY_STORED
      requires data.bytes <= |data.disk| && data.fragments <= |data.fragmentTable|
      modifies data`disk, data`bytes
      ensures old(data.bytes) <= data.bytes <= |data.disk| && SameBelow(old(data.disk), data.disk, old(data.bytes))
      ensures
        var entries := data.fragmentTable[..data.fragments];
        var plain := f.(uncompressed := data.plainFragments);
        var end := old(data.bytes) + |WriteTable(plain, EncodeEntries(f.order, entries), old(data.bytes), scratch).0|;
        && (ok <==> end <= MAX_INT)
        && (ok ==> start == end && data.bytes == start + 4 * ((8 * data.fragments + 8191) / 8192))
        && (ok && FragmentTable.Storable(entries) ==>
              (ReadBack(f, data.disk, start, data.fragments) == Some(entries) <==> Survives(f.order, entries, scratch)))
    {
      hide Holds, SameBelow, WriteTable, FitInts, TableBytes, EncodeEntries, WriteAt, ReadBack, FragmentTable.Storable, Survives;
      var entries := data.fragmentTable[..data.fragments];
      var plain := f.(uncompressed := data.plainFragments);
      NothingWritten(data.disk, data.bytes);
      if data.bytes + |WriteTable(plain, EncodeEntries(f.order, entries), data.bytes, scratch).0| > MAX_INT {
        return false, 0;
      }
      ghost var at := data.bytes;
      IndexFits(plain, EncodeEntries(f.order, entries), data.bytes, scratch);
      var table;
      table, start := WriteFragmentTable(plain, entries, data.bytes, scratch);
      WriteAtHolds(data.disk, data.bytes, table);
      data.disk := WriteAt(data.disk, data.bytes, table);
      data.bytes := data.bytes + |table|;
      EndOfTable(plain, entries, at, scratch);
      if FragmentTable.Storable(entries) {
        ReadsBackHere(f, data.plainFragments, data.disk, at, entries, scratch);
      }
      ok := true;
    }

    /** The closing writes: inode table, directory table, fragment table. They go behind what is in use. */
    method CloseTables(root: nat, scratch: seq<byte>) returns (ok: bool, sb: SuperBlock)
      requires Assembled() && inodes.Valid() && directories.Valid() && f.codec.Faithful() && |scratch| == EMPTY_STORED
      requires data.bytes <= |data.disk| && data.fragments <= |data.fragmentTable|
      modifies data`disk, data`bytes, inodes, directories
      ensures data.bytes <= |data.disk|
      ensures inodes.stream == old(inodes.stream) && directories.stream == old(directories.stream)
      ensures inodes.savedStream == old(inodes.savedStream) && directories.savedStream == old(directories.savedStream)
      ensures SameBelow(old(data.disk), data.disk, old(data.bytes)) && data.bytes >= old(data.bytes)
      ensures sb.root == root && sb.inodeStart == old(data.bytes)
      ensures ok <==> TablesFit(f, data.plainFragments, sb.inodeStart, inodes.stream, directories.stream,
                                data.fragmentTable[..data.fragments], scratch)
      ensures ok ==>
        && sb.fragments == data.fragments && sb.inodeStart <= MAX_INT
        && BothTables(f, data.disk, sb, old(inodes.stream), old(directories.stream))
        && data.bytes == sb.fragmentStart + 4 * ((8 * sb.fragments + 8191) / 8192)
        && sb.fragmentStart == TablesEnd(f, data.plainFragments, sb.inodeStart, inodes.stream, directories.stream,
                                         data.fragmentTable[..data.fragments], scratch)
        && var entries := data.fragmentTable[..data.fragments];
          FragmentTable.Storable(entries) ==>
            (ReadBack(f, data.disk, sb.fragmentStart, sb.fragments) == Some(entries) <==> Survives(f.order, entries, scratch))
    {
      hide EncodeStream, Holds, SameBelow, WriteTable, FitInts, TableBytes, EncodeEntries, WriteAt, InProgress, ReadBack,
        FragmentTable.Storable, Survives;
      ghost var disk0, bytes0 := data.disk, data.bytes;
      inodes.FlushAll();
      ghost var inodeTable := inodes.table[..inodes.tableBytes];
      var inodeStart := data.bytes;
      WriteAtHolds(data.disk, data.bytes, inodeTable);
      data.disk := WriteAt(data.disk, data.bytes, inodes.table[..inodes.tableBytes]);
      data.bytes := data.bytes + inodes.tableBytes;
      ghost var disk1, bytes1 := data.disk, data.bytes;

      directories.FlushAll();
      ghost var directoryTable := directories.table[..directories.tableBytes];
      var directoryStart := data.bytes;
      WriteAtHolds(data.disk, data.bytes, directoryTable);
      data.disk := WriteAt(data.disk, data.bytes, directories.table[..directories.tableBytes]);
      data.bytes := data.bytes + directories.tableBytes;
      ghost var disk2, bytes2 := data.disk, data.bytes;
      HeldStays(disk1, disk2, bytes1, bytes0, inodeTable);
      SameBelowTwice(disk0, disk1, disk2, bytes0, bytes1);

      var fragmentStart;
      ok, fragmentStart := CloseFragments(scratch);
      HeldStays(disk2, data.disk, bytes2, bytes0, inodeTable);
      HeldStays(disk2, data.disk, bytes2, bytes1, directoryTable);
      SameBelowTwice(disk0, disk2, data.disk, bytes0, bytes2);
      sb := SuperBlock(root, inodeStart, directoryStart, fragmentStart, data.fragments);
    }

    /** The end of a successful run: the last fragment block, then the tables. */
    method Finish(root: nat, scratch: seq<byte>) returns (ok: bool, sb: SuperBlock)
      requires Valid() && data.fragments + 1 < INVALID_BLK && |scratch| == EMPTY_STORED
      modifies data, inodes, directories
      ensures savedBytes <= data.bytes && SameBelow(savedDisk, data.disk, savedBytes)
      ensures data.fragments <= |data.fragmentTable|
      ensures inodes.stream == old(inodes.stream) && directories.stream == old(directories.stream)
      ensures data.fragments <= old(data.fragments) + 1 && data.files == old(data.files)
      ensures sb.root == root && sb.inodeStart == old(data.FlushedEnd()) <= old(data.bytes + data.fragmentSize)
      ensures ok <==> TablesFit(f, data.plainFragments, sb.inodeStart, inodes.stream, directories.stream,
                                Present().entries, scratch)
      ensures ok ==>
        && Image(f, data.blockLog, data.disk, sb, Present())
        && data.bytes == sb.fragmentStart + 4 * ((8 * sb.fragments + 8191) / 8192)
        && (ReadBack(f, data.disk, sb.fragmentStart, sb.fragments) == Some(Present().entries)
            <==> Survives(f.order, Present().entries, scratch))
    {
      hide EncodeStream, Holds, SameBelow, BlocksStand, FragmentsStand, FilesStand, Indexed, InProgress, Holding,
        ReadBack, FragmentTable.Storable, Survives, GrowsTo, EncodeAll, AllWellFormed, BothTables, GrowsInto,
        TablesFit, Traces;
      ghost var was, disk, bytes := Now(), data.disk, data.bytes;
      data.WriteFragment();
      SameBelowTwice(savedDisk, disk, data.disk, savedBytes, bytes);
      DataGrows(was, Now());
      HoldingStays(was, Now(), items, inodes.stream);
      assert data.fragmentData[..data.fragmentSize] == [];
      ghost var w, entries := Now(), data.fragmentTable[..data.fragments];
      assert w.blocks == data.blocks + [[]];
      NothingWritten(data.disk, data.bytes);
      BlocksStillStand(data.codec, data.BlockSize(), data.disk, data.bytes, data.fragmentTable,
                       data.disk, data.bytes, entries, data.blocks);
      ok, sb := CloseTables(root, scratch);
      SameBelowTwice(savedDisk, w.disk, data.disk, savedBytes, w.bytes);
      if ok {
        EntriesFit(data.codec, data.BlockSize(), w.disk, w.bytes, entries, data.blocks);
        ImageIsClosed(w, data.disk, sb, Present(), inodes.stream);
      }
    }

    /** restorefs, then the closing writes at label restore_filesystem. It may be called between any two steps. */
    method Abandon(root: nat, scratch: seq<byte>) returns (ok: bool, sb: SuperBlock)
      requires Valid() && |scratch| == EMPTY_STORED
      modifies data, inodes, directories
      ensures savedBytes <= data.bytes && SameBelow(savedDisk, data.disk, savedBytes)
      ensures inodes.savedStream == old(inodes.savedStream) && directories.savedStream == old(directories.savedStream)
      ensures sb.root == root && sb.inodeStart == savedBytes && data.fragments == savedFragments && data.fragmentSize == 0
      ensures ok ==> data.bytes == sb.fragmentStart + 4 * ((8 * sb.fragments + 8191) / 8192)
      ensures ok <==> TablesFit(f, data.plainFragments, savedBytes, inodes.savedStream, directories.savedStream,
                                savedEntries, scratch)
      ensures ok ==>
        && Image(f, data.blockLog, data.disk, sb, Saved())
        && (ReadBack(f, data.disk, sb.fragmentStart, sb.fragments) == Some(savedEntries)
            <==> Survives(f.order, savedEntries, scratch))
      ensures ok && Survives(f.order, savedEntries, scratch) && Rooted(f, data.blockLog, root, Saved()) && AllInBounds(savedItems)
        ==> Appendable(f, data.blockLog, data.disk, sb, Saved())
    {
      hide EncodeStream, Holds, SameBelow, BlocksStand, FragmentsStand, FilesStand, Indexed, InProgress, Holding,
        ReadBack, FragmentTable.Storable, Survives, EncodeAll, AllWellFormed, BothTables, TablesFit, Traces;
      ghost var w := Then();
      data.bytes := savedBytes;
      inodes.Restore();
      directories.Restore();
      data.fragments := savedFragments;
      data.fragmentSize := 0;
      SameBelowBound(savedDisk, data.disk, savedBytes);
      ghost var disk := data.disk;
      ok, sb := CloseTables(root, scratch);
      SameBelowTwice(savedDisk, disk, data.disk, savedBytes, savedBytes);
      if ok {
        EntriesFit(data.codec, data.BlockSize(), savedDisk, savedBytes, savedEntries, savedBlocks);
        ImageIsClosed(w, data.disk, sb, Saved(), inodes.savedStream);
      }
    }
  }
}
