/** Making whole images, new ones and by adding to existing ones, and what a reader finds in the result. */
module Images {
  import opened Wrappers

  import opened Appending
  import opened Archives
  import opened Bits
  import opened BitFields
  import opened DataStore
  import opened Directories
  import opened Duplicates
  import opened FileBlocks
  import opened FragmentTable
  import opened Inodes
  import opened Items
  import opened MetadataBlocks
  import opened MetadataStream
  import opened Room
  import opened Scanning
  import opened Trees

  // ---- whole images ----

  /** A reader's way from the superblock: the table of fragment blocks, then everything below the root. */
  function ReadImage(f: Format, blockLog: nat, disk: seq<byte>, sb: SuperBlock, depth: nat): Option<Source> {
    match ReadBack(f, disk, sb.fragmentStart, sb.fragments)
    case None => None
    case Some(entries) => ReadTree(f, blockLog, disk, sb, entries, sb.root, depth)
  }

  /** The reader finds this source, as far as an image can hold it, exactly if the condition holds; a source with files of at
      most 2^31 bytes and names of at most 256 is found as it was. */
  ghost predicate ReadsExactlyIf(f: Format, blockLog: nat, disk: seq<byte>, sb: SuperBlock, src: Source, condition: bool) {
    forall depth :: depth >= src.Height() ==>
      && (ReadImage(f, blockLog, disk, sb, depth) == Some(src.AsStored()) <==> condition)
      && (src.Ordinary() ==> (ReadImage(f, blockLog, disk, sb, depth) == Some(src) <==> condition))
  }

  /** The image holds this tree: it is read back whole if every file has its own words; where no list is foreign, only then. */
  ghost predicate HoldsTree(f: Format, blockLog: nat, disk: seq<byte>, sb: SuperBlock, x: Contents, plain: bool, node: Node,
                            src: Source) {
    forall depth :: depth >= src.Height() ==>
      && (Intact(f.order, x.items, node) ==> ReadImage(f, blockLog, disk, sb, depth) == Some(src.AsStored()))
      && (AllGenuine(f.codec, plain, blockLog, x.items) && ReadImage(f, blockLog, disk, sb, depth) == Some(src.AsStored())
          ==> Intact(f.order, x.items, node))
  }

  lemma TreeIsHeld(f: Format, blockLog: nat, disk: seq<byte>, sb: SuperBlock, x: Contents, plain: bool, node: Node, src: Source)
    requires Image(f, blockLog, disk, sb, x) && AllReachable(f, x)
    requires ReadBack(f, disk, sb.fragmentStart, sb.fragments) == Some(x.entries)
    requires AllWellFormed(InodesOf(x.items), blockLog)
    requires src.Possible() && Built(f, blockLog, x.items, node, src)
    requires node.k < |x.items| && sb.root == NumberAt(f, blockLog, x.items, node.k)
    ensures HoldsTree(f, blockLog, disk, sb, x, plain, node, src)
  {
    hide Image, AllReachable, ReadBack, AllWellFormed, Built, NumberAt, Intact, ReadTree, AllGenuine,
      Source.AsStored, Source.Possible, Source.Height;
    forall depth: nat | depth >= src.Height()
      ensures Intact(f.order, x.items, node) ==> ReadImage(f, blockLog, disk, sb, depth) == Some(src.AsStored())
      ensures AllGenuine(f.codec, plain, blockLog, x.items) && ReadImage(f, blockLog, disk, sb, depth) == Some(src.AsStored())
        ==> Intact(f.order, x.items, node)
    {
      TreeReadsBack(f, blockLog, disk, sb, x, plain, node, src, depth);
    }
  }

  lemma RootIsNarrow(f: Format, x: Contents)
    requires AllReachable(f, x) && EndsWithListing(f, x.items, x.listings) && SizeFits(f.order, x.items[|x.items| - 1])
    ensures Narrow(f, x.listings, x.items[|x.items| - 1])
  {
    hide NumberOf, RunsBytes;
  }

  /** The limits of the format are kept: the directory table is small enough, and nothing is lost in the table of fragment
      blocks. */
  ghost predicate KeepsLimits(f: Format, x: Contents, scratch: seq<byte>)
    requires |scratch| == EMPTY_STORED
  {
    AllReachable(f, x) && Survives(f.order, x.entries, scratch)
  }

  /** The root directory, which is not the only inode, is not too large. */
  predicate RootFits(o: Order, items: seq<Item>) {
    |items| >= 2 && SizeFits(o, items[|items| - 1])
  }

  // ---- what fits whatever the contents are ----

  /** An image of at most this size, with at most so many fragment blocks, keeps all limits. */
  predicate Modest(limit: Sizes, fragments: nat) {
    && Framed(limit.inodes) < 0x100_0000 && Framed(limit.listings) < 0x100_0000
    && Roomy(limit, fragments) && fragments < PER_BLOCK
  }

  lemma LessIsModest(s: Sizes, n: nat, limit: Sizes, m: nat)
    requires s.AtMost(limit) && n <= m && Modest(limit, m)
    ensures Modest(s, n)
  {
    hide Framed;
    FramedGrows(s.inodes, limit.inodes);
    FramedGrows(s.listings, limit.listings);
    FramedGrows(FRAGMENT_ENTRY_BYTES * n, FRAGMENT_ENTRY_BYTES * m);
  }

  lemma ListingsAreRuns(f: Format, blockLog: nat, disk: seq<byte>, sb: SuperBlock, x: Contents)
    requires Image(f, blockLog, disk, sb, x)
    ensures f.codec.Faithful() && |x.entries| == sb.fragments
    ensures forall k :: 0 <= k < |x.items| && x.items[k].Listed? ==>
      AllRuns(x.items[k].runs) && x.items[k].at <= |x.listings| && x.items[k].inode.Directory?
  {
    hide BlocksStand, BothTables, EncodeAll, AllWellFormed, InOrder, HeldStands, RunsBytes, NumberOf, IsRun, Holds;
    forall k | 0 <= k < |x.items| && x.items[k].Listed?
      ensures AllRuns(x.items[k].runs) && x.items[k].at <= |x.listings| && x.items[k].inode.Directory?
    {
      assert ItemStands(Around(f, blockLog, disk, sb, x), x.items[k]);
    }
  }

  lemma ModestKeepsLimits(f: Format, blockLog: nat, disk: seq<byte>, sb: SuperBlock, x: Contents, limit: Sizes, n: nat,
                          scratch: seq<byte>)
    requires Image(f, blockLog, disk, sb, x) && |scratch| == EMPTY_STORED
    requires Modest(limit, n) && |x.listings| <= limit.listings && |x.entries| <= n
    ensures KeepsLimits(f, x, scratch)
  {
    hide Image, NumberOf, Framed, Roomy, DecodeEntries, IsRun;
    ListingsAreRuns(f, blockLog, disk, sb, x);
    FramedGrows(|x.listings|, limit.listings);
    forall k | 0 <= k < |x.items| && x.items[k].Listed?
      ensures AllRuns(x.items[k].runs) && x.items[k].at <= |x.listings|
      ensures NumberOf(f, x.listings, x.items[k].at) / 0x1_0000 < 0x100_0000
    {
      NumberIsWithin(f, x.listings, x.items[k].at);
    }
  }

  lemma SmallSourceFits(f: Format, blockLog: nat, disk: seq<byte>, sb: SuperBlock, x: Contents, node: Node, src: Source)
    requires Image(f, blockLog, disk, sb, x) && AllWellFormed(InodesOf(x.items), blockLog)
    requires Built(f, blockLog, x.items, node, src) && src.SmallFolders()
    ensures SizesFit(f.order, x.items, node)
  {
    hide Image, Built, AllWellFormed, Source.SmallFolders;
    ListingsAreRuns(f, blockLog, disk, sb, x);
    SmallFoldersFit(f, blockLog, x.items, node, src);
  }

  lemma RootHasChild(f: Format, blockLog: nat, items: seq<Item>, node: Node, src: Source)
    requires AllWellFormed(InodesOf(items), blockLog) && Built(f, blockLog, items, node, src)
    requires src.Folder? && src.children != [] && node.k == |items| - 1 && SizesFit(f.order, items, node)
    ensures RootFits(f.order, items)
  {
    hide AllWellFormed, SizeFits;
    BuiltFolder(f, blockLog, items, node, src);
    BuiltChild(f, blockLog, items, node, src, 0);
  }

  /** Up to 8 MiB of inodes, 8 MiB of listings, 2 GiB of data and 1023 fragment blocks keep all limits. */
  lemma ModestInNumbers(limit: Sizes, fragments: nat)
    requires limit.inodes <= 0x80_0000 && limit.listings <= 0x80_0000 && limit.data <= 0x8000_0000 && fragments <= 1023
    ensures Modest(limit, fragments)
  {
  }

  // ---- which lists the files were handed ----

  lemma SmallBlocks(f: Format, blockLog: nat, disk: seq<byte>, sb: SuperBlock, x: Contents)
    requires Image(f, blockLog, disk, sb, x)
    ensures Pow2(blockLog) < COMPRESSED_BIT_BLOCK
  {
    hide BlocksStand, BothTables, Holding, EncodeAll, AllWellFormed, Pow2;
  }

  lemma ItemHasOwn(f: Format, blockLog: nat, disk: seq<byte>, sb: SuperBlock, x: Contents, plain: bool, i: Item)
    requires Image(f, blockLog, disk, sb, x) && i in x.items && i.Held? && Genuine(f.codec, plain, blockLog, i)
    ensures HasOwnWords(i) <==> i.list == i.own
  {
    hide BlocksStand, BothTables, EncodeAll, AllWellFormed, InOrder, HeldStands, Genuine, Pow2;
    SmallBlocks(f, blockLog, disk, sb, x);
    var k :| 0 <= k < |x.items| && x.items[k] == i;
    assert ItemStands(Around(f, blockLog, disk, sb, x), x.items[k]);
    OwnWordsAreHanded(Around(f, blockLog, disk, sb, x), plain, i);
  }

  lemma TracedIsKept(way: Way, check: bool, files: seq<Recorded>, prior: seq<Kept>, news: seq<Item>)
    requires forall k :: 0 <= k < |news| ==> news[k].Held?
    requires Traces(way, check, files, prior, news)
    ensures way.Usable() && KeptOfAll(news) == way.KeepAll(ContentsOf(news))
  {
    hide Way.Keep, KeptOf, Indexes, Served, Way.Usable;
  }

  /** For the files a run has created it is decided by their contents, and by the files of the image before, whether each has
      its own words, and whether all lists are long enough. */
  lemma ListsDecide(f: Format, blockLog: nat, disk: seq<byte>, sb: SuperBlock, x: Contents, way: Way, check: bool,
                    files: seq<Recorded>, prior: seq<Kept>, news: seq<Item>)
    requires Image(f, blockLog, disk, sb, x)
    requires forall k :: 0 <= k < |news| ==> news[k].Held? && news[k] in x.items
    requires Traces(way, check, files, prior, news)
    ensures AllGenuine(f.codec, way.plain, blockLog, x.items) ==>
      (AllHaveOwn(news) <==> !check || OwnServed(prior + KeptOfAll(news), |prior|))
    ensures AllInBounds(news) <==> !check || EnoughServed(prior + KeptOfAll(news), |prior|)
  {
    hide Image, Genuine, HasOwnWords, Way.Keep, Indexes, Served, Way.Usable;
    var history, n := prior + KeptOfAll(news), |prior|;
    forall k | 0 <= k < |news|
      ensures history[n + k] == KeptOf(news[k])
      ensures AllGenuine(f.codec, way.plain, blockLog, x.items) ==> (HasOwnWords(news[k]) <==> news[k].list == news[k].own)
    {
      if AllGenuine(f.codec, way.plain, blockLog, x.items) {
        ItemHasOwn(f, blockLog, disk, sb, x, way.plain, news[k]);
      }
    }
    if check {
      assert forall j :: n <= j < |history| ==> history[j] == KeptOf(news[j - n]);
    }
  }

  /** Every file of the image has its own words in its inode. */
  predicate AllOwn(items: seq<Item>) {
    forall k :: 0 <= k < |items| && items[k].inode.File? ==> items[k].Held? && items[k].inode.blocks == items[k].own
  }

  lemma ItemKinds(f: Format, blockLog: nat, disk: seq<byte>, sb: SuperBlock, x: Contents, i: Item)
    requires Image(f, blockLog, disk, sb, x) && i in x.items
    ensures (i.Held? ==> i.inode.File?) && (i.Listed? ==> i.inode.Directory?)
  {
    hide BlocksStand, BothTables, EncodeAll, AllWellFormed, InOrder, RunsBytes, NumberOf, LoadBlocks, Located, SaysWhere;
    var k :| 0 <= k < |x.items| && x.items[k] == i;
    assert ItemStands(Around(f, blockLog, disk, sb, x), x.items[k]);
  }

  lemma AllOwnMeans(f: Format, blockLog: nat, disk: seq<byte>, sb: SuperBlock, x: Contents, plain: bool)
    requires Image(f, blockLog, disk, sb, x) && AllGenuine(f.codec, plain, blockLog, x.items)
    ensures AllOwn(x.items) <==> AllHaveOwn(HeldOf(x.items))
  {
    hide Image, HeldOf, IsListOf, StoreBlocks;
    forall k | 0 <= k < |x.items|
      ensures x.items[k].Held? ==> x.items[k].inode.File? && x.items[k] in HeldOf(x.items)
      ensures x.items[k].inode.File? ==> x.items[k].Held?
    {
      ItemKinds(f, blockLog, disk, sb, x, x.items[k]);
      assert Genuine(f.codec, plain, blockLog, x.items[k]);
      if x.items[k].Held? {
        HeldIsAmong(x.items, k);
      }
    }
    if AllOwn(x.items) {
      forall j | 0 <= j < |HeldOf(x.items)|
        ensures HasOwnWords(HeldOf(x.items)[j])
      {
        var k :| 0 <= k < |x.items| && x.items[k] == HeldOf(x.items)[j];
      }
    }
  }

  lemma AllInBoundsMeans(items: seq<Item>)
    ensures AllInBounds(items) <==> AllInBounds(HeldOf(items))
  {
    hide HeldOf;
    forall k | 0 <= k < |items|
      ensures items[k].Held? ==> items[k] in HeldOf(items)
    {
      if items[k].Held? {
        HeldIsAmong(items, k);
      }
    }
    if AllInBounds(HeldOf(items)) {
      forall k | 0 <= k < |items|
        ensures InBounds(items[k])
      {
        if items[k].Held? {
          var j :| 0 <= j < |HeldOf(items)| && HeldOf(items)[j] == items[k];
        }
      }
    } else {
      var j :| 0 <= j < |HeldOf(items)| && !InBounds(HeldOf(items)[j]);
      var k :| 0 <= k < |items| && items[k] == HeldOf(items)[j];
    }
  }

  /** The regular files are these, stored in this way. */
  ghost predicate StoredAs(way: Way, items: seq<Item>, contents: seq<seq<byte>>) {
    && way.Usable() && AllGenuine(way.codec, way.plain, way.blockLog, items)
    && ContentsOf(HeldOf(items)) == contents && KeptOfAll(HeldOf(items)) == way.KeepAll(contents)
  }

  // ---- making an image ----

  /** A run succeeds only if the tables end below 2^32, and fails only if they do not or some inode is too far behind for a
      directory entry. */
  ghost predicate Outcome(ok: bool, f: Format, blockLog: nat, plainFragments: bool, sb: SuperBlock, x: Contents, scratch: seq<byte>)
    requires AllWellFormed(InodesOf(x.items), blockLog)
  {
    var fit := TablesFit(f, plainFragments, sb.inodeStart, EncodeAll(f.order, InodesOf(x.items), blockLog), x.listings, x.entries,
                         scratch);
    if ok then fit else !fit || SomeTooFar(f, blockLog, x.items)
  }

  /** The closed image has an inode for every node of the tree, linked by number, the root's last; its fragment table is read
      back exactly if nothing is lost in it. */
  ghost predicate IsMade(f: Format, blockLog: nat, disk: seq<byte>, sb: SuperBlock, x: Contents, node: Node, src: Source,
                         scratch: seq<byte>)
    requires |scratch| == EMPTY_STORED
  {
    && Image(f, blockLog, disk, sb, x) && AllWellFormed(InodesOf(x.items), blockLog)
    && Built(f, blockLog, x.items, node, src)
    && node.k == |x.items| - 1 && sb.root == NumberAt(f, blockLog, x.items, node.k)
    && (ReadBack(f, disk, sb.fragmentStart, sb.fragments) == Some(x.entries) <==> Survives(f.order, x.entries, scratch))
  }

  lemma MadeHolds(f: Format, blockLog: nat, disk: seq<byte>, sb: SuperBlock, x: Contents, plain: bool, node: Node, src: Source,
                  scratch: seq<byte>)
    requires |scratch| == EMPTY_STORED && IsMade(f, blockLog, disk, sb, x, node, src, scratch)
    requires src.Possible() && KeepsLimits(f, x, scratch) && EndsWithListing(f, x.items, x.listings)
    ensures HoldsTree(f, blockLog, disk, sb, x, plain, node, src)
    ensures RootFits(f.order, x.items) && AllInBounds(x.items) ==> Appendable(f, blockLog, disk, sb, x)
  {
    hide NumberAt, AllWellFormed, Built, Image, Appendable, AllInBounds, AllReachable, Survives, ReadBack, HoldsTree,
      EndsWithListing, Source.Possible;
    TreeIsHeld(f, blockLog, disk, sb, x, plain, node, src);
    if RootFits(f.order, x.items) {
      RootIsNarrow(f, x);
      EndsRooted(f, blockLog, disk, sb, x);
    }
  }

  /** main from dir_scan to the end, for a root directory that starts with the entries `first`. Whatever the tree is, the
      image is closed with an inode for every source, linked by its number. If the limits of the format are kept, the image
      holds the tree, and can be appended to if its root directory is not too large and no list was too short. The run
      succeeds unless some inode is too far behind for a directory entry, or the tables do not end below 2^32, and always if
      there is room for what the tree adds at most. */
  method MakeImage(a: Archive, src: Source, first: seq<Entry>, memory: seq<nat> -> nat -> nat, scratch: seq<byte>,
                   ghost firstNodes: seq<Node>, ghost firstKids: seq<Child>)
    returns (ok: bool, sb: SuperBlock, ghost node: Node)
    requires a.Valid() && src.Possible() && src.Folder? && a.data.fragments + src.Files() + 1 < INVALID_BLK
    requires AllWellFormed(InodesOf(a.items), a.data.blockLog) && |scratch| == EMPTY_STORED
    requires ListBuilt(a.f, a.data.blockLog, a.items, first, firstNodes, firstKids)
    requires forall j :: 0 <= j < |firstKids| ==> firstKids[j].name != [] && firstKids[j].node.Possible()
    modifies a`items, a.data, a.inodes, a.directories
    ensures a.savedBytes <= a.data.bytes && SameBelow(a.savedDisk, a.data.disk, a.savedBytes)
    ensures old(a.items) <= a.items && a.data.fragments <= |a.data.fragmentTable|
    ensures AllWellFormed(InodesOf(a.items), a.data.blockLog) && a.loaded <= |old(a.items)|
    ensures Traces(a.Storing(), a.data.checkDuplicates, a.data.files, a.prior, a.News())
    ensures Outcome(ok, a.f, a.data.blockLog, a.data.plainFragments, sb, a.Present(), scratch)
    ensures
      var limit := old(a.SizesNow()).Plus(src.Cost(a.data.blockLog)).Plus(Sizes(0, ListingLimit(first), 0));
      var n := old(a.data.fragments) + src.Files() + 1;
      && SizesOf(a.f, a.data.blockLog, sb, a.Present()).AtMost(limit) && a.data.fragments <= n
      && (Framed(limit.inodes) < 0x100_0000 && Roomy(limit, n) ==> ok)
    ensures ok ==>
      && IsMade(a.f, a.data.blockLog, a.data.disk, sb, a.Present(), node, Folder(firstKids + src.children, src.c, src.mtime),
                scratch)
      && node.Branch? && firstNodes <= node.children
      && a.News() == old(a.News()) + FilesBelowAll(a.items, node.children[|firstNodes|..])
    ensures ok && KeepsLimits(a.f, a.Present(), scratch) ==>
      && HoldsTree(a.f, a.data.blockLog, a.data.disk, sb, a.Present(), a.data.plainData, node,
                   Folder(firstKids + src.children, src.c, src.mtime))
      && (RootFits(a.f.order, a.items) && AllInBounds(a.items) ==>
            Appendable(a.f, a.data.blockLog, a.data.disk, sb, a.Present()))
    ensures old(NothingForeign(a)) ==> AllGenuine(a.f.codec, a.data.plainData, a.data.blockLog, a.items)
  {
    hide Archive.Valid, NumberAt, AllWellFormed, AllGenuine, GenuineIndex, ListBuilt, Built, SameBelow, Image,
      Appendable, AllInBounds, AllReachable, Survives, ReadBack, HoldsTree, EndsWithListing, Common.InRange, Fits,
      Source.Files, Source.FilesOfFirst, Source.Cost, ListingLimit, FilesBelowAll, Traces, HeldOf, TablesFit, Roomy,
      Framed, SomeTooFar, EncodeAll, KeepsLimits, RootFits;
    ghost var limit := a.SizesNow().Plus(src.Cost(a.data.blockLog)).Plus(Sizes(0, ListingLimit(first), 0));
    ghost var n := a.data.fragments + src.Files() + 1;
    var made, number;
    made, number, node := DirScan(a, src, first, memory, [], firstNodes, firstKids);
    a.StreamIs();
    a.IsTraced();
    ok, sb := a.Finish(number, scratch);
    ghost var x := a.Present();
    if Framed(limit.inodes) < 0x100_0000 && Roomy(limit, n) {
      RoomyFits(a.f, a.data.plainFragments, sb.inodeStart, a.inodes.stream, a.directories.stream, x.entries, scratch, limit, n);
      FramedGrows(|a.inodes.stream|, limit.inodes);
      if SomeTooFar(a.f, a.data.blockLog, a.items) {
        TooFarIsLong(a.f, a.data.blockLog, a.items);
      }
    }
    ok := ok && made;
    if ok && KeepsLimits(a.f, x, scratch) {
      MadeHolds(a.f, a.data.blockLog, a.data.disk, sb, x, a.data.plainData, node,
                Folder(firstKids + src.children, src.c, src.mtime), scratch);
    }
  }

  // ---- a new image ----

  lemma NothingHeldYet(w: World)
    requires w.listings == []
    ensures Holding(w, [], []) && Holding(w.(listings := []), [], [])
    ensures AllWellFormed(InodesOf([]), w.blockLog)
  {
    assert InodesOf([]) == [];
  }

  lemma NothingForeignYet(a: Archive)
    requires a.data.BlockSize() < COMPRESSED_BIT_BLOCK && a.data.files == [] && a.items == []
    ensures NothingForeign(a)
  {
  }

  /** Of an image that holds the tree: where no list is foreign, the reader finds the tree exactly if all directories fit and
      all files have their own words. */
  lemma HoldsExactly(f: Format, blockLog: nat, disk: seq<byte>, sb: SuperBlock, x: Contents, plain: bool, node: Node, src: Source)
    requires HoldsTree(f, blockLog, disk, sb, x, plain, node, src) && AllGenuine(f.codec, plain, blockLog, x.items)
    ensures ReadsExactlyIf(f, blockLog, disk, sb, src, SizesFit(f.order, x.items, node) && AllHaveOwn(FilesBelow(x.items, node)))
  {
    hide ReadImage, Intact, SizesFit, FilesBelow, AllGenuine, Source.Height, Source.AsStored, Source.Ordinary;
    IntactMeans(f.order, x.items, node);
    OrdinaryIsStoredWhole(src);
  }

  /** The empty archive. */
  method NewArchive(f: Format, blockLog: nat, plainData: bool, plainFragments: bool, noFragments: bool, alwaysFragments: bool,
                    checkDuplicates: bool)
    returns (a: Archive)
    requires f.codec.Faithful() && Pow2(blockLog) <= 0x1_0000
    ensures a.Valid() && fresh(a) && fresh({a.data, a.inodes, a.directories}) && a.f == f && a.items == [] && a.loaded == 0
    ensures a.Storing() == Way(f.codec, blockLog, plainData, noFragments, alwaysFragments) && a.prior == []
    ensures a.data.plainFragments == plainFragments && a.data.checkDuplicates == checkDuplicates
    ensures a.data.fragments == 0 && a.SizesNow() == Sizes(0, 0, 63) && NothingForeign(a)
  {
    hide BlocksStand, FragmentsStand, FilesStand, Indexed, InProgress, Holding, NothingForeign;
    var data := new DataWriter(f.codec, blockLog, plainData, plainFragments, noFragments, alwaysFragments, checkDuplicates,
                               Zeros(SUPER_BYTES), SUPER_BYTES);
    var inodes := new MetadataTable(f, INODE_GROWTH);
    var directories := new MetadataTable(f, DIRECTORY_GROWTH);
    NothingHeldYet(World(f, blockLog, data.disk, data.bytes, data.blocks + [[]], []));
    NothingIndexed();
    a := new Archive(f, data, inodes, directories, [], [], []);
    NothingForeignYet(a);
  }

  /** What decides about the files of a new image, in terms of the sources. */
  lemma NewListsDecide(f: Format, blockLog: nat, disk: seq<byte>, sb: SuperBlock, x: Contents, way: Way, check: bool,
                       files: seq<Recorded>, node: Node, src: Source)
    requires Image(f, blockLog, disk, sb, x) && AllWellFormed(InodesOf(x.items), blockLog)
    requires Built(f, blockLog, x.items, node, src)
    requires way.codec == f.codec && way.blockLog == blockLog && AllGenuine(f.codec, way.plain, blockLog, x.items)
    requires HeldOf(x.items) == FilesBelow(x.items, node) && Traces(way, check, files, [], HeldOf(x.items))
    ensures StoredAs(way, x.items, src.FileContents())
    ensures AllHaveOwn(FilesBelow(x.items, node)) <==> !check || Agree(way.KeepAll(src.FileContents()))
    ensures AllOwn(x.items) <==> !check || Agree(way.KeepAll(src.FileContents()))
    ensures AllInBounds(x.items) <==> !check || EnoughServed(way.KeepAll(src.FileContents()), 0)
  {
    hide Image, AllWellFormed, Built, Genuine, Traces, HeldOf, FilesBelow, Way.Keep, Way.Usable, HasOwnWords,
      InBounds, Agree, OwnServed, EnoughServed;
    var held := HeldOf(x.items);
    BuiltContents(f, blockLog, x.items, node, src);
    TracedIsKept(way, check, files, [], held);
    ListsDecide(f, blockLog, disk, sb, x, way, check, files, [], held);
    assert [] + KeptOfAll(held) == KeptOfAll(held);
    OwnMeansAgree(KeptOfAll(held));
    AllOwnMeans(f, blockLog, disk, sb, x, way.plain);
    AllInBoundsMeans(x.items);
  }

  lemma WholeNews(items: seq<Item>, children: seq<Node>)
    ensures HeldOf(items[0..]) == HeldOf(items) && HeldOf([]) == []
    ensures [] + FilesBelowAll(items, children[0..]) == FilesBelowAll(items, children)
  {
    assert items[0..] == items && children[0..] == children;
  }

  lemma NothingWellFormed(blockLog: nat)
    ensures AllWellFormed(InodesOf([]), blockLog)
  {
    assert InodesOf([]) == [];
  }

  lemma FilesBelowBranch(items: seq<Item>, node: Node)
    requires node.Branch?
    ensures FilesBelow(items, node) == FilesBelowAll(items, node.children)
  {
    hide FilesBelowAll;
  }

  /** A run without an image to append to. Within the limits of the format, the tree is recovered from the image exactly if no
      directory is too large for its inode and either duplicates are not looked for or any two files with the same stored bytes
      and the same tail have the same block list. That no directory is too large, that the limits are kept, and that the run
      succeeds can be told from the sources alone. */
  method CreateImage(f: Format, blockLog: nat, plainData: bool, plainFragments: bool, noFragments: bool, alwaysFragments: bool,
                     checkDuplicates: bool, src: Source, memory: seq<nat> -> nat -> nat, scratch: seq<byte>)
    returns (ok: bool, a: Archive, sb: SuperBlock, ghost node: Node)
    requires f.codec.Faithful() && Pow2(blockLog) <= 0x1_0000 && |scratch| == EMPTY_STORED
    requires src.Possible() && src.Folder? && src.Files() + 1 < INVALID_BLK
    ensures fresh(a) && a.data.fragments <= |a.data.fragmentTable| && AllWellFormed(InodesOf(a.items), blockLog)
    ensures Outcome(ok, f, blockLog, plainFragments, sb, a.Present(), scratch)
    ensures
      var limit := Sizes(0, 0, 63).Plus(src.Cost(blockLog));
      && SizesOf(f, blockLog, sb, a.Present()).AtMost(limit) && a.data.fragments <= src.Files() + 1
      && (Modest(limit, src.Files() + 1) ==> ok && KeepsLimits(f, a.Present(), scratch))
    ensures ok ==>
      && IsMade(f, blockLog, a.data.disk, sb, a.Present(), node, src, scratch)
      && (src.SmallFolders() ==> SizesFit(f.order, a.items, node))
      && (src.SmallFolders() && src.children != [] ==> RootFits(f.order, a.items))
    ensures ok ==>
      var way := Way(f.codec, blockLog, plainData, noFragments, alwaysFragments);
      && StoredAs(way, a.items, src.FileContents())
      && (AllOwn(a.items) <==> !checkDuplicates || Agree(way.KeepAll(src.FileContents())))
      && (AllInBounds(a.items) <==> !checkDuplicates || EnoughServed(way.KeepAll(src.FileContents()), 0))
    ensures ok && KeepsLimits(f, a.Present(), scratch) ==>
      var way := Way(f.codec, blockLog, plainData, noFragments, alwaysFragments);
      && way.Usable()
      && ReadsExactlyIf(f, blockLog, a.data.disk, sb, src,
                        SizesFit(f.order, a.items, node) && (!checkDuplicates || Agree(way.KeepAll(src.FileContents()))))
      && (RootFits(f.order, a.items) && AllInBounds(a.items) ==> Appendable(f, blockLog, a.data.disk, sb, a.Present()))
  {
    hide Archive.Valid, AllReachable, Image, Survives, ReadBack, Built, SizesFit, ReadTree, Appendable, AllInBounds,
      Source.AsStored, Source.Height, Source.Files, Source.Possible, Source.Cost, Source.FileContents,
      Source.SmallFolders, ReadImage, HoldsTree, NothingForeign, AllGenuine, ListBuilt, Traces, HeldOf, FilesBelow,
      FilesBelowAll, AllHaveOwn, Agree, EnoughServed, Way.Keep, TablesFit, SomeTooFar, EncodeAll, AllWellFormed,
      Framed, Roomy, StoredAs, AllOwn, NumberAt, KeepsLimits, RootFits, ReadsExactlyIf, Outcome;
    a := NewArchive(f, blockLog, plainData, plainFragments, noFragments, alwaysFragments, checkDuplicates);
    ghost var way := a.Storing();
    NothingWellFormed(blockLog);
    NothingListed(f, blockLog, []);
    NothingToList();
    WholeNews([], []);
    assert [] + src.children == src.children && src == Folder(src.children, src.c, src.mtime);
    ok, sb, node := MakeImage(a, src, [], memory, scratch, [], []);
    ghost var x := a.Present();
    if ok {
      WholeNews(a.items, node.children);
      FilesBelowBranch(a.items, node);
      NewListsDecide(f, blockLog, a.data.disk, sb, x, way, checkDuplicates, a.data.files, node, src);
      if src.SmallFolders() {
        SmallSourceFits(f, blockLog, a.data.disk, sb, x, node, src);
        if src.children != [] {
          RootHasChild(f, blockLog, a.items, node, src);
        }
      }
      ghost var limit := Sizes(0, 0, SUPER_BYTES).Plus(src.Cost(blockLog));
      if Modest(limit, src.Files() + 1) {
        ModestKeepsLimits(f, blockLog, a.data.disk, sb, x, limit, src.Files() + 1, scratch);
      }
      if KeepsLimits(f, x, scratch) {
        HoldsExactly(f, blockLog, a.data.disk, sb, x, plainData, node, src);
      }
    }
  }
}
