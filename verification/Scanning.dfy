/** dir_scan over a tree of sources: which inodes and listings it makes, what they take, and when it can go on. */
module Scanning {
  import opened Wrappers

  import opened Appending
  import opened Archives
  import opened Bits
  import opened BitFields
  import opened DataStore
  import opened Directories
  import opened Duplicates
  import opened FileBlocks
  import opened FragmentTable
  import opened Inodes
  import opened Items
  import opened MetadataBlocks
  import opened MetadataStream
  import opened Room
  import opened Trees

  // ---- the entries of a directory under construction ----

  /** These entries were made for these children, whose inodes are there. */
  ghost predicate ListBuilt(f: Format, blockLog: nat, items: seq<Item>, entries: seq<Entry>, nodes: seq<Node>, kids: seq<Child>)
    requires AllWellFormed(InodesOf(items), blockLog)
  {
    && |entries| == |nodes| == |kids| && AllStorable(entries)
    && forall j :: 0 <= j < |kids| ==>
         && Built(f, blockLog, items, nodes[j], kids[j].node)
         && entries[j] == EntryFor(f, blockLog, items, nodes[j], kids[j])
  }

  lemma ListBuiltStays(f: Format, blockLog: nat, items: seq<Item>, later: seq<Item>, entries: seq<Entry>, nodes: seq<Node>,
                       kids: seq<Child>)
    requires items <= later && AllWellFormed(InodesOf(later), blockLog) && AllWellFormed(InodesOf(items), blockLog)
    requires ListBuilt(f, blockLog, items, entries, nodes, kids)
    ensures ListBuilt(f, blockLog, later, entries, nodes, kids)
  {
    hide EntryFor, AllWellFormed, Entry.Storable;
    forall j | 0 <= j < |kids|
      ensures Built(f, blockLog, later, nodes[j], kids[j].node)
      ensures entries[j] == EntryFor(f, blockLog, later, nodes[j], kids[j])
    {
      BuiltStays(f, blockLog, items, later, nodes[j], kids[j].node);
      EntryForStays(f, blockLog, items, later, nodes[j], kids[j]);
    }
  }

  lemma ListBuiltMore(f: Format, blockLog: nat, items: seq<Item>, entries: seq<Entry>, nodes: seq<Node>, kids: seq<Child>,
                      node: Node, kid: Child)
    requires AllWellFormed(InodesOf(items), blockLog)
    requires ListBuilt(f, blockLog, items, entries, nodes, kids) && Built(f, blockLog, items, node, kid.node)
    requires EntryFor(f, blockLog, items, node, kid).Storable()
    ensures ListBuilt(f, blockLog, items, entries + [EntryFor(f, blockLog, items, node, kid)], nodes + [node], kids + [kid])
  {
    hide EntryFor, AllWellFormed, Entry.Storable, Built;
  }

  /** The directory that lists them. */
  lemma FolderIsBuilt(f: Format, blockLog: nat, was: seq<Item>, items: seq<Item>, entries: seq<Entry>, nodes: seq<Node>,
                      kids: seq<Child>, c: Common, mtime: nat)
    requires AllWellFormed(InodesOf(items), blockLog) && AllWellFormed(InodesOf(was), blockLog)
    requires ListBuilt(f, blockLog, was, entries, nodes, kids)
    requires |items| == |was| + 1 && items[..|was|] == was
    requires
      var i := items[|was|];
      i.Listed? && Flatten(i.runs) == entries && i.inode.Directory? && i.inode.c == c && i.inode.mtime == mtime
    ensures Built(f, blockLog, items, Branch(|was|, nodes), Folder(kids, c, mtime))
  {
    hide EntryFor, AllWellFormed, Entry.Storable, Flatten;
    ListBuiltStays(f, blockLog, was, items, entries, nodes, kids);
    forall j | 0 <= j < |kids|
      ensures nodes[j].k < |was|
    {
      assert Built(f, blockLog, was, nodes[j], kids[j].node);
    }
  }

  lemma KindFits(kind: nat)
    requires kind < 8
    ensures Fits(kind, 3)
  {
    FitsIsBound(kind, 3);
    SmallPowers();
  }

  lemma NumberHasOffset(f: Format, blockLog: nat, items: seq<Item>, k: nat)
    requires AllWellFormed(InodesOf(items), blockLog) && k < |items|
    ensures NumberAt(f, blockLog, items, k) % 0x1_0000 < METADATA_SIZE
  {
    hide NumberOf, EncodeAll, AllWellFormed;
    var inodes := InodesOf(items);
    InodeLies(f.order, inodes, k, blockLog);
    NumberParts(f, EncodeAll(f.order, inodes, blockLog), |EncodeAll(f.order, inodes[..k], blockLog)|);
  }

  lemma EntryIsStorable(f: Format, blockLog: nat, items: seq<Item>, node: Node, kid: Child)
    requires AllWellFormed(InodesOf(items), blockLog) && node.k < |items| && kid.name != []
    requires NumberAt(f, blockLog, items, node.k) / 0x1_0000 < 0x100_0000
    ensures EntryFor(f, blockLog, items, node, kid).Storable()
  {
    hide NumberAt, AllWellFormed, Fits, Low;
    NumberHasOffset(f, blockLog, items, node.k);
    var number := NumberAt(f, blockLog, items, node.k);
    DirectoryFieldsKeep(0, number % 0x1_0000, number / 0x1_0000);
    LowFits(number % 0x1_0000, 13);
    LowFits(number / 0x1_0000, 24);
    KindFits(kid.node.Kind());
  }

  lemma EntryIs(f: Format, blockLog: nat, items: seq<Item>, node: Node, kid: Child)
    requires AllWellFormed(InodesOf(items), blockLog) && node.k < |items|
    ensures EntryFor(f, blockLog, items, node, kid)
      == Entry(kid.name, NumberAt(f, blockLog, items, node.k), kid.node.Kind())
  {
    hide NumberAt, AllWellFormed, Source.Kind;
  }

  lemma BuiltHasInode(f: Format, blockLog: nat, items: seq<Item>, node: Node, src: Source)
    requires AllWellFormed(InodesOf(items), blockLog) && Built(f, blockLog, items, node, src)
    ensures node.k < |items|
  {
    hide AllWellFormed, EntryFor, Flatten;
  }

  lemma ListIsStorable(f: Format, blockLog: nat, items: seq<Item>, entries: seq<Entry>, nodes: seq<Node>, kids: seq<Child>)
    requires AllWellFormed(InodesOf(items), blockLog) && ListBuilt(f, blockLog, items, entries, nodes, kids)
    ensures AllStorable(entries)
  {
  }

  lemma NothingListed(f: Format, blockLog: nat, items: seq<Item>)
    requires AllWellFormed(InodesOf(items), blockLog)
    ensures ListBuilt(f, blockLog, items, [], [], [])
  {
    hide AllWellFormed;
  }

  lemma {:induction false} FilesGrow(src: Source, j: nat, n: nat)
    requires src.Folder? && j <= n <= |src.children|
    ensures src.FilesOfFirst(j) <= src.FilesOfFirst(n)
  {
    if j == n {
    } else {
      FilesGrow(src, j, n - 1);
    }
  }

  lemma FilesSoFar(src: Source, j: nat)
    requires src.Folder? && j < |src.children|
    ensures src.FilesOfFirst(j + 1) == src.FilesOfFirst(j) + src.children[j].node.Files() <= src.Files()
  {
    FilesGrow(src, j + 1, |src.children|);
  }

  lemma AllFiles(src: Source)
    requires src.Folder?
    ensures src.Files() == src.FilesOfFirst(|src.children|)
  {
  }

  lemma PossibleParts(src: Source)
    requires src.Folder? && src.Possible()
    ensures src.c.InRange() && Fits(src.mtime, 32)
    ensures forall j :: 0 <= j < |src.children| ==> src.children[j].name != [] && src.children[j].node.Possible()
  {
  }

  lemma ListingEnds(f: Format, items: seq<Item>, d: seq<byte>, listings: seq<byte>)
    requires items != []
    requires
      var i := items[|items| - 1];
      i.Listed? && AllRuns(i.runs) && i.inode.Directory? && i.inode.Storable() && i.at == |d|
      && listings == d + RunsBytes(f.order, i.runs)
    ensures EndsWithListing(f, items, listings)
  {
    hide RunsBytes, Inode.Storable, IsRun;
  }

  lemma LeafIsBuilt(f: Format, blockLog: nat, items: seq<Item>, k: nat, src: Source)
    requires AllWellFormed(InodesOf(items), blockLog) && k < |items| && !src.Folder?
    requires
      var i := items[k];
      match src
      case Special(inode) => i == Plain(inode)
      case Regular(content, c, mtime) =>
        i.Held? && i.content == content && i.inode.File? && i.inode.c == c && i.inode.mtime == mtime
      case Folder(_, _, _) => true
    ensures Built(f, blockLog, items, Leaf(k), src)
  {
    hide AllWellFormed;
  }

  lemma PlainIsGenuine(codec: Codec, plain: bool, blockLog: nat, inode: Inode)
    requires !inode.File?
    ensures Genuine(codec, plain, blockLog, Plain(inode))
  {
  }

  lemma ListedIsGenuine(codec: Codec, plain: bool, blockLog: nat, i: Item)
    requires i.Listed?
    ensures Genuine(codec, plain, blockLog, i)
  {
  }

  lemma OneMoreGenuine(codec: Codec, plain: bool, blockLog: nat, was: seq<Item>, items: seq<Item>)
    requires AllGenuine(codec, plain, blockLog, was) && |items| == |was| + 1 && items[..|was|] == was
    requires Genuine(codec, plain, blockLog, items[|was|])
    ensures AllGenuine(codec, plain, blockLog, items)
  {
    hide Genuine;
    forall k | 0 <= k < |items|
      ensures Genuine(codec, plain, blockLog, items[k])
    {
      if k < |was| {
        assert items[k] == was[k];
      }
    }
  }

  // ---- numbers that do not fit ----

  /** The block of some inode is too far behind for the 24 bits of a run header. */
  ghost predicate SomeTooFar(f: Format, blockLog: nat, items: seq<Item>)
    requires AllWellFormed(InodesOf(items), blockLog)
  {
    exists k :: 0 <= k < |items| && NumberAt(f, blockLog, items, k) / 0x1_0000 >= 0x100_0000
  }

  lemma IsTooFar(f: Format, blockLog: nat, items: seq<Item>, k: nat)
    requires AllWellFormed(InodesOf(items), blockLog) && k < |items|
    requires NumberAt(f, blockLog, items, k) / 0x1_0000 >= 0x100_0000
    ensures SomeTooFar(f, blockLog, items)
  {
  }

  lemma TooFarIsLong(f: Format, blockLog: nat, items: seq<Item>)
    requires f.codec.Faithful() && AllWellFormed(InodesOf(items), blockLog) && SomeTooFar(f, blockLog, items)
    ensures Framed(|EncodeAll(f.order, InodesOf(items), blockLog)|) >= 0x100_0000
  {
    hide NumberOf, EncodeAll, Inode.WellFormed, Framed;
    var k :| 0 <= k < |items| && NumberAt(f, blockLog, items, k) / 0x1_0000 >= 0x100_0000;
    var inodes := InodesOf(items);
    InodeLies(f.order, inodes, k, blockLog);
    NumberIsWithin(f, EncodeAll(f.order, inodes, blockLog), |EncodeAll(f.order, inodes[..k], blockLog)|);
  }

  // ---- what a directory takes, and which files are below it ----

  lemma {:induction false} CostGrows(src: Source, j: nat, n: nat, blockLog: nat)
    requires src.Folder? && j <= n <= |src.children|
    ensures src.CostOfFirst(j, blockLog).AtMost(src.CostOfFirst(n, blockLog))
  {
    if j == n {
    } else {
      CostGrows(src, j, n - 1, blockLog);
    }
  }

  lemma CostIsBelow(src: Source, j: nat, blockLog: nat)
    requires src.Folder? && j <= |src.children|
    ensures src.CostOfFirst(j, blockLog).AtMost(src.Cost(blockLog))
  {
    hide Source.CostOfFirst, Source.NamesOfFirst;
    CostGrows(src, j, |src.children|, blockLog);
  }

  lemma CostSoFar(src: Source, j: nat, blockLog: nat)
    requires src.Folder? && j < |src.children|
    ensures src.CostOfFirst(j + 1, blockLog) == src.CostOfFirst(j, blockLog).Plus(src.children[j].node.Cost(blockLog))
    ensures src.NamesOfFirst(j + 1)
      == src.NamesOfFirst(j) + DIR_HEADER_BYTES + DIR_ENTRY_BYTES + |CutName(src.children[j].name)|
  {
  }

  lemma CostOfAll(src: Source, blockLog: nat)
    requires src.Folder?
    ensures src.CostOfFirst(0, blockLog) == Sizes(0, 0, 0) && src.NamesOfFirst(0) == 0
    ensures src.Cost(blockLog)
      == src.CostOfFirst(|src.children|, blockLog).Plus(Sizes(DIR_BYTES, src.NamesOfFirst(|src.children|), 0))
  {
  }

  lemma LimitOfMore(entries: seq<Entry>, name: seq<byte>, number: nat, kind: nat)
    ensures ListingLimit(entries + [Entry(name, number, kind)])
      == ListingLimit(entries) + DIR_HEADER_BYTES + DIR_ENTRY_BYTES + |CutName(name)|
  {
    assert (entries + [Entry(name, number, kind)])[..|entries|] == entries;
  }

  lemma NewsThen(a: seq<Item>, b: seq<Item>, c: seq<Item>)
    ensures (a + b) + c == a + (b + c)
  {
  }

  lemma NothingToList()
    ensures ListingLimit([]) == 0
  {
  }

  lemma NewsOfMore(was: seq<Item>, items: seq<Item>, loaded: nat)
    requires |items| == |was| + 1 && items[..|was|] == was && loaded <= |was|
    ensures HeldOf(items[loaded..]) == HeldOf(was[loaded..]) + if items[|was|].Held? then [items[|was|]] else []
  {
    assert items[loaded..] == was[loaded..] + [items[|was|]];
    HeldOfMore(was[loaded..], items[|was|]);
  }

  lemma {:induction false} ListedFilesStay(f: Format, blockLog: nat, items: seq<Item>, later: seq<Item>, entries: seq<Entry>,
                                           nodes: seq<Node>, kids: seq<Child>, from: nat)
    requires items <= later && AllWellFormed(InodesOf(items), blockLog)
    requires ListBuilt(f, blockLog, items, entries, nodes, kids) && from <= |nodes|
    ensures FilesBelowAll(later, nodes[from..]) == FilesBelowAll(items, nodes[from..])
    decreases |nodes|
  {
    hide AllWellFormed, EntryFor, Entry.Storable, Built, FilesBelow;
    if from == |nodes| {
    } else {
      var n := |nodes| - 1;
      ListedFilesStay(f, blockLog, items, later, entries[..n], nodes[..n], kids[..n], from);
      FilesBelowStay(f, blockLog, items, later, nodes[n], kids[n].node);
      assert nodes[from..][..n - from] == nodes[..n][from..];
    }
  }

  lemma NothingBelow(items: seq<Item>)
    ensures FilesBelowAll(items, []) == []
  {
  }

  lemma FilesOfLeaf(items: seq<Item>, k: nat)
    requires k < |items|
    ensures FilesBelow(items, Leaf(k)) == if items[k].Held? then [items[k]] else []
  {
  }

  lemma OneMoreBelow(items: seq<Item>, nodes: seq<Node>, node: Node, from: nat)
    requires from <= |nodes|
    ensures FilesBelowAll(items, (nodes + [node])[from..]) == FilesBelowAll(items, nodes[from..]) + FilesBelow(items, node)
  {
    hide FilesBelow;
    assert (nodes + [node])[from..] == nodes[from..] + [node];
    FilesBelowConcat(items, nodes[from..], [node]);
    OneFileBelow(items, node);
  }

  // ---- dir_scan ----

  /** Every list in the index and in the inodes comes from a file stored in this way. */
  ghost predicate NothingForeign(a: Archive)
    reads a, a.data
  {
    a.IndexIsGenuine() && AllGenuine(a.f.codec, a.data.plainData, a.data.blockLog, a.items)
  }

  /** One turn of dir_scan's loop: the child's inode, and its entry behind those already made. */
  method AddChild(a: Archive, kid: Child, entries: seq<Entry>, memory: seq<nat> -> nat -> nat, path: seq<nat>,
                  ghost nodes: seq<Node>, ghost kids: seq<Child>, ghost held: seq<Item>, ghost from: nat)
    returns (ok: bool, more: seq<Entry>, ghost moreNodes: seq<Node>)
    requires a.Valid() && kid.name != [] && kid.node.Possible() && a.data.fragments + kid.node.Files() < INVALID_BLK
    requires AllWellFormed(InodesOf(a.items), a.data.blockLog)
    requires ListBuilt(a.f, a.data.blockLog, a.items, entries, nodes, kids)
    requires from <= |nodes| && a.loaded <= |a.items| && a.News() == held + FilesBelowAll(a.items, nodes[from..])
    modifies a`items, a.data, a.inodes, a.directories
    ensures a.Valid() && a.data.fragments <= old(a.data.fragments) + kid.node.Files()
    ensures old(a.items) <= a.items
    ensures a.inodes.savedStream == old(a.inodes.savedStream) && a.directories.savedStream == old(a.directories.savedStream)
    ensures AllWellFormed(InodesOf(a.items), a.data.blockLog)
    ensures a.SizesNow().AtMost(old(a.SizesNow()).Plus(kid.node.Cost(a.data.blockLog)))
    ensures !ok ==> SomeTooFar(a.f, a.data.blockLog, a.items)
    ensures ok ==> ListBuilt(a.f, a.data.blockLog, a.items, more, moreNodes, kids + [kid])
    ensures ListingLimit(more) == ListingLimit(entries) + DIR_HEADER_BYTES + DIR_ENTRY_BYTES + |CutName(kid.name)|
    ensures |moreNodes| == |nodes| + 1 && moreNodes[..|nodes|] == nodes
    ensures ok ==> a.News() == held + FilesBelowAll(a.items, moreNodes[from..])
    ensures old(NothingForeign(a)) ==> NothingForeign(a)
    decreases kid.node, 3
  {
    hide NumberAt, AllWellFormed, NothingForeign, ListBuilt, Built, Holding, BlocksStand, FragmentsStand, FilesStand,
      Indexed, InProgress, SameBelow, EntryFor, Entry.Storable, Source.Possible, Source.Kind, Traces, HeldOf,
      FilesBelow, FilesBelowAll, ListingLimit, SomeTooFar, Source.Cost, Source.CostOfFirst, Source.NamesOfFirst,
      CutName;
    ghost var was := a.items;
    var made, number, node := AddSource(a, kid.node, memory, path);
    more, moreNodes := entries + [Entry(kid.name, number, kid.node.Kind())], nodes + [node];
    LimitOfMore(entries, kid.name, number, kid.node.Kind());
    ok := made && number / 0x1_0000 < 0x100_0000;
    if made {
      BuiltHasInode(a.f, a.data.blockLog, a.items, node, kid.node);
      if !ok {
        IsTooFar(a.f, a.data.blockLog, a.items, node.k);
      }
    }
    if ok {
      ListBuiltStays(a.f, a.data.blockLog, was, a.items, entries, nodes, kids);
      EntryIsStorable(a.f, a.data.blockLog, a.items, node, kid);
      EntryIs(a.f, a.data.blockLog, a.items, node, kid);
      ListBuiltMore(a.f, a.data.blockLog, a.items, entries, nodes, kids, node, kid);
      ListedFilesStay(a.f, a.data.blockLog, was, a.items, entries, nodes, kids, from);
      OneMoreBelow(a.items, nodes, node, from);
      NewsThen(held, FilesBelowAll(a.items, nodes[from..]), FilesBelow(a.items, node));
    }
  }

  /** write_dir for these entries. */
  method WriteDirectory(a: Archive, entries: seq<Entry>, c: Common, mtime: nat, ghost nodes: seq<Node>, ghost kids: seq<Child>)
    returns (number: nat, ghost node: Node)
    requires a.Valid() && c.InRange() && Fits(mtime, 32) && AllWellFormed(InodesOf(a.items), a.data.blockLog)
    requires ListBuilt(a.f, a.data.blockLog, a.items, entries, nodes, kids)
    modifies a`items, a.inodes, a.directories
    ensures a.Valid() && old(a.items) <= a.items
    ensures a.inodes.savedStream == old(a.inodes.savedStream) && a.directories.savedStream == old(a.directories.savedStream)
    ensures AllWellFormed(InodesOf(a.items), a.data.blockLog)
    ensures Built(a.f, a.data.blockLog, a.items, node, Folder(kids, c, mtime))
    ensures number == NumberAt(a.f, a.data.blockLog, a.items, node.k)
    ensures node.k == |a.items| - 1 && EndsWithListing(a.f, a.items, a.directories.stream)
    ensures node == Branch(|old(a.items)|, nodes) && a.loaded <= |old(a.items)| && a.News() == old(a.News())
    ensures a.SizesNow().AtMost(old(a.SizesNow()).Plus(DirectoryCost(entries)))
    ensures old(NothingForeign(a)) ==> NothingForeign(a)
  {
    hide NumberAt, AllWellFormed, AllGenuine, Genuine, GenuineIndex, ListBuilt, Built, Holding, BlocksStand,
      FragmentsStand, FilesStand, Indexed, InProgress, SameBelow, EntryFor, RunsBytes, Flatten, Encode,
      DirectoryInode, Inode.Storable, Entry.Storable, EndsWithListing, Common.InRange, Fits, Traces, HeldOf,
      ListingLimit;
    ghost var was, d := a.items, a.directories.stream;
    ListIsStorable(a.f, a.data.blockLog, a.items, entries, nodes, kids);
    number := a.NewDirectory(entries, c, mtime);
    node := Branch(|was|, nodes);
    NewsOfMore(was, a.items, a.loaded);
    assert old(a.News()) + [] == old(a.News());
    DirectoryIs(c, mtime, NumberOf(a.f, a.directories.stream, |d|), |RunsBytes(a.f.order, a.items[|was|].runs)|);
    FolderIsBuilt(a.f, a.data.blockLog, was, a.items, entries, nodes, kids, c, mtime);
    ListingEnds(a.f, a.items, d, a.directories.stream);
    if old(NothingForeign(a)) {
      ListedIsGenuine(a.f.codec, a.data.plainData, a.data.blockLog, a.items[|was|]);
      OneMoreGenuine(a.f.codec, a.data.plainData, a.data.blockLog, was, a.items);
    }
  }

  /** The loop of dir_scan: make the children's inodes, and list them behind the entries that are there already. */
  method ScanChildren(a: Archive, src: Source, first: seq<Entry>, memory: seq<nat> -> nat -> nat, path: seq<nat>,
                      ghost firstNodes: seq<Node>, ghost firstKids: seq<Child>)
    returns (ok: bool, entries: seq<Entry>, ghost nodes: seq<Node>)
    requires a.Valid() && src.Possible() && src.Folder? && a.data.fragments + src.Files() < INVALID_BLK
    requires AllWellFormed(InodesOf(a.items), a.data.blockLog)
    requires ListBuilt(a.f, a.data.blockLog, a.items, first, firstNodes, firstKids)
    modifies a`items, a.data, a.inodes, a.directories
    ensures a.Valid() && a.data.fragments <= old(a.data.fragments) + src.Files()
    ensures old(a.items) <= a.items
    ensures a.inodes.savedStream == old(a.inodes.savedStream) && a.directories.savedStream == old(a.directories.savedStream)
    ensures AllWellFormed(InodesOf(a.items), a.data.blockLog)
    ensures a.SizesNow().AtMost(old(a.SizesNow()).Plus(src.CostOfFirst(|src.children|, a.data.blockLog)))
    ensures !ok ==> SomeTooFar(a.f, a.data.blockLog, a.items)
    ensures a.loaded <= |old(a.items)|
    ensures ok ==>
      && ListBuilt(a.f, a.data.blockLog, a.items, entries, nodes, firstKids + src.children)
      && ListingLimit(entries) == ListingLimit(first) + src.NamesOfFirst(|src.children|)
      && firstNodes <= nodes && a.News() == old(a.News()) + FilesBelowAll(a.items, nodes[|firstNodes|..])
    ensures old(NothingForeign(a)) ==> NothingForeign(a)
    decreases src, 0
  {
    hide NumberAt, AllWellFormed, NothingForeign, ListBuilt, Built, Holding, BlocksStand, FragmentsStand, FilesStand,
      Indexed, InProgress, SameBelow, EndsWithListing, Common.InRange, Fits, Source.Files, Source.FilesOfFirst,
      Source.Possible, Traces, HeldOf, FilesBelow, FilesBelowAll, ListingLimit, SomeTooFar, Source.Cost,
      Source.CostOfFirst, Source.NamesOfFirst, Archive.Valid;
    PossibleParts(src);
    AllFiles(src);
    a.IsTraced();
    entries, nodes := first, firstNodes;
    ghost var kids := firstKids;
    CostOfAll(src, a.data.blockLog);
    ghost var held, from := a.News(), |firstNodes|;
    assert nodes[from..] == [] && held + [] == held;
    NothingBelow(a.items);
    for j := 0 to |src.children|
      invariant a.Valid() && a.data.fragments <= old(a.data.fragments) + src.FilesOfFirst(j)
      invariant old(a.items) <= a.items
      invariant a.inodes.savedStream == old(a.inodes.savedStream) && a.directories.savedStream == old(a.directories.savedStream)
      invariant AllWellFormed(InodesOf(a.items), a.data.blockLog)
      invariant ListBuilt(a.f, a.data.blockLog, a.items, entries, nodes, kids) && kids == firstKids + src.children[..j]
      invariant old(NothingForeign(a)) ==> NothingForeign(a)
      invariant a.SizesNow().AtMost(old(a.SizesNow()).Plus(src.CostOfFirst(j, a.data.blockLog)))
      invariant ListingLimit(entries) == ListingLimit(first) + src.NamesOfFirst(j)
      invariant a.loaded <= |old(a.items)| && firstNodes <= nodes
      invariant a.News() == held + FilesBelowAll(a.items, nodes[from..])
    {
      FilesSoFar(src, j);
      CostSoFar(src, j, a.data.blockLog);
      CostGrows(src, j + 1, |src.children|, a.data.blockLog);
      ok, entries, nodes := AddChild(a, src.children[j], entries, memory, path + [j], nodes, kids, held, from);
      if !ok {
        return false, entries, nodes;
      }
      assert src.children[..j + 1] == src.children[..j] + [src.children[j]];
      kids := kids + [src.children[j]];
    }
    assert src.children[..|src.children|] == src.children;
    ok := true;
  }

  /** dir_scan: the children, and then the directory. */
  method DirScan(a: Archive, src: Source, first: seq<Entry>, memory: seq<nat> -> nat -> nat, path: seq<nat>,
                 ghost firstNodes: seq<Node>, ghost firstKids: seq<Child>)
    returns (ok: bool, number: nat, ghost node: Node)
    requires a.Valid() && src.Possible() && src.Folder? && a.data.fragments + src.Files() < INVALID_BLK
    requires AllWellFormed(InodesOf(a.items), a.data.blockLog)
    requires ListBuilt(a.f, a.data.blockLog, a.items, first, firstNodes, firstKids)
    modifies a`items, a.data, a.inodes, a.directories
    ensures a.Valid() && a.data.fragments <= old(a.data.fragments) + src.Files()
    ensures old(a.items) <= a.items
    ensures a.inodes.savedStream == old(a.inodes.savedStream) && a.directories.savedStream == old(a.directories.savedStream)
    ensures AllWellFormed(InodesOf(a.items), a.data.blockLog)
    ensures a.SizesNow().AtMost(
              old(a.SizesNow()).Plus(src.Cost(a.data.blockLog)).Plus(Sizes(0, ListingLimit(first), 0)))
    ensures !ok ==> SomeTooFar(a.f, a.data.blockLog, a.items)
    ensures a.loaded <= |old(a.items)|
    ensures ok ==>
      && node.Branch? && firstNodes <= node.children
      && a.News() == old(a.News()) + FilesBelowAll(a.items, node.children[|firstNodes|..])
    ensures ok ==>
      && Built(a.f, a.data.blockLog, a.items, node, Folder(firstKids + src.children, src.c, src.mtime))
      && number == NumberAt(a.f, a.data.blockLog, a.items, node.k)
      && node.k == |a.items| - 1 && EndsWithListing(a.f, a.items, a.directories.stream)
    ensures old(NothingForeign(a)) ==> NothingForeign(a)
    decreases src, 1
  {
    hide NumberAt, AllWellFormed, NothingForeign, ListBuilt, Built, Holding, BlocksStand, FragmentsStand, FilesStand,
      Indexed, InProgress, SameBelow, EndsWithListing, Common.InRange, Fits, Source.Files, Source.FilesOfFirst,
      Source.Possible, Traces, HeldOf, FilesBelow, FilesBelowAll, ListingLimit, SomeTooFar, Source.Cost,
      Source.CostOfFirst, Source.NamesOfFirst, Archive.Valid;
    PossibleParts(src);
    CostOfAll(src, a.data.blockLog);
    CostIsBelow(src, |src.children|, a.data.blockLog);
    node, number := Leaf(0), 0;
    ghost var nodes;
    var entries;
    ok, entries, nodes := ScanChildren(a, src, first, memory, path, firstNodes, firstKids);
    if ok {
      ghost var was := a.items;
      number, node := WriteDirectory(a, entries, src.c, src.mtime, nodes, firstKids + src.children);
      ListedFilesStay(a.f, a.data.blockLog, was, a.items, entries, nodes, firstKids + src.children, |firstNodes|);
    }
  }

  /** The switch in dir_scan's loop: the inode for one source. `memory` is what lies behind the lists that are copied from,
      for the source at `path`. Fails if a number outgrows the 24 bits that run headers have for the block. */
  method AddSource(a: Archive, src: Source, memory: seq<nat> -> nat -> nat, path: seq<nat>)
    returns (ok: bool, number: nat, ghost node: Node)
    requires a.Valid() && src.Possible() && a.data.fragments + src.Files() < INVALID_BLK
    modifies a`items, a.data, a.inodes, a.directories
    ensures a.Valid() && a.data.fragments <= old(a.data.fragments) + src.Files()
    ensures old(a.items) <= a.items
    ensures a.inodes.savedStream == old(a.inodes.savedStream) && a.directories.savedStream == old(a.directories.savedStream)
    ensures AllWellFormed(InodesOf(a.items), a.data.blockLog)
    ensures a.SizesNow().AtMost(old(a.SizesNow()).Plus(src.Cost(a.data.blockLog)))
    ensures !ok ==> SomeTooFar(a.f, a.data.blockLog, a.items)
    ensures a.loaded <= |old(a.items)|
    ensures ok ==> a.News() == old(a.News()) + FilesBelow(a.items, node)
    ensures ok ==>
      Built(a.f, a.data.blockLog, a.items, node, src) && number == NumberAt(a.f, a.data.blockLog, a.items, node.k)
    ensures old(NothingForeign(a)) ==> NothingForeign(a)
    decreases src, 2
  {
    hide NumberAt, AllWellFormed, Genuine, GenuineIndex, StoreBlocks, Serves, FileInode, DataWriter.FileParts,
      Inode.WellFormed, Inode.Storable, Encode, Holding, BlocksStand, FragmentsStand, FilesStand, Indexed, InProgress,
      SameBelow, EntryFor, Built, AllGenuine, Common.InRange, Fits, Traces, HeldOf, FilesBelowAll, SomeTooFar,
      ListingLimit, FileCost, InodeBytes, Archive.Valid;
    ghost var was, items := NothingForeign(a), a.items;
    a.StreamIs();
    a.IsTraced();
    match src {
      case Special(inode) =>
        ok, node := true, Leaf(|a.items|);
        number := a.NewInode(inode);
        NewsOfMore(items, a.items, a.loaded);
        FilesOfLeaf(a.items, |items|);
        LeafIsBuilt(a.f, a.data.blockLog, a.items, |items|, src);
        PlainIsGenuine(a.f.codec, a.data.plainData, a.data.blockLog, inode);
        if was {
          OneMoreGenuine(a.f.codec, a.data.plainData, a.data.blockLog, items, a.items);
        }
      case Regular(content, c, mtime) =>
        ok, node := true, Leaf(|a.items|);
        number := a.NewFile(content, c, mtime, memory(path));
        ghost var i := a.items[|items|];
        NewsOfMore(items, a.items, a.loaded);
        FilesOfLeaf(a.items, |items|);
        FileIs(c, mtime, i.at, i.fr, ReadSize(|content|), i.list, |i.own|, memory(path));
        LeafIsBuilt(a.f, a.data.blockLog, a.items, |items|, src);
        if was {
          OneMoreGenuine(a.f.codec, a.data.plainData, a.data.blockLog, items, a.items);
        }
      case Folder(children, _, _) =>
        NothingListed(a.f, a.data.blockLog, a.items);
        assert [] + children == children;
        ok, number, node := DirScan(a, src, [], memory, path, [], []);
        if ok {
          assert node.children[0..] == node.children;
        }
        NothingToList();
    }
  }
}
