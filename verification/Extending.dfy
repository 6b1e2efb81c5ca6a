/** Adding sources to an existing image: the old tree persists beside the new one, over any number of appends. */
module Extending {
  import opened Wrappers

  import opened Appending
  import opened Archives
  import opened Bits
  import opened BitFields
  import opened DataStore
  import opened Directories
  import opened Duplicates
  import opened FileBlocks
  import opened FragmentTable
  import opened Images
  import opened Inodes
  import opened Items
  import opened MetadataBlocks
  import opened MetadataStream
  import opened Room
  import opened Scanning
  import opened Trees

  // ---- the old tree in the new one ----

  /** The children of the old root directory, with their names as stored. */
  function KeptChildren(former: Source): seq<Child>
    requires former.Folder?
  {
    var kids := former.children;
    seq(|kids|, j requires 0 <= j < |kids| => Child(CutName(kids[j].name), kids[j].node))
  }

  lemma {:induction false} FlatRunsAreStorable(runs: seq<seq<Entry>>)
    requires AllRuns(runs)
    ensures AllStorable(Flatten(runs))
  {
    hide Entry.Storable;
    if runs == [] {
    } else {
      FlatRunsAreStorable(runs[..|runs| - 1]);
      assert IsRun(runs[|runs| - 1]);
    }
  }

  lemma StoredIsStorable(e: Entry)
    requires e.Storable()
    ensures e.Stored().Storable()
  {
    hide Fits;
  }

  lemma CutEntry(f: Format, blockLog: nat, items: seq<Item>, node: Node, kid: Child)
    requires AllWellFormed(InodesOf(items), blockLog) && node.k < |items|
    ensures EntryFor(f, blockLog, items, node, kid).Stored()
      == EntryFor(f, blockLog, items, node, Child(CutName(kid.name), kid.node))
  {
    hide NumberAt, AllWellFormed, Source.Kind;
  }

  /** The entries read from the old root directory stand for its children, without the root's own inode. */
  lemma OldEntriesAreBuilt(f: Format, blockLog: nat, items: seq<Item>, node: Node, former: Source)
    requires AllWellFormed(InodesOf(items), blockLog) && Built(f, blockLog, items, node, former)
    requires former.Folder? && node.Branch? && node.k == |items| - 1 && items[node.k].Listed? && AllRuns(items[node.k].runs)
    ensures AllWellFormed(InodesOf(items[..node.k]), blockLog)
    ensures ListBuilt(f, blockLog, items[..node.k], StoredEntries(Flatten(items[node.k].runs)), node.children, KeptChildren(former))
  {
    hide EntryFor, Entry.Storable, Flatten, NumberAt, IsRun, Inode.WellFormed, Built;
    var few, listed := items[..node.k], Flatten(items[node.k].runs);
    assert InodesOf(few) == InodesOf(items)[..node.k];
    BuiltFolder(f, blockLog, items, node, former);
    FlatRunsAreStorable(items[node.k].runs);
    forall j | 0 <= j < |former.children|
      ensures Built(f, blockLog, few, node.children[j], KeptChildren(former)[j].node) && node.children[j].k < |few|
      ensures StoredEntries(listed)[j] == EntryFor(f, blockLog, few, node.children[j], KeptChildren(former)[j])
      ensures StoredEntries(listed)[j].Storable()
    {
      BuiltChild(f, blockLog, items, node, former, j);
      BuiltEarlier(f, blockLog, items, few, node.children[j], former.children[j].node);
      EntryForStays(f, blockLog, few, items, node.children[j], former.children[j]);
      CutEntry(f, blockLog, few, node.children[j], former.children[j]);
      StoredIsStorable(listed[j]);
    }
  }

  /** The tree that an append leaves: the old root's children or the old root itself, then the new ones. */
  function Joined(former: Source, keepRoot: bool, rootName: seq<byte>, src: Source): Source
    requires former.Folder? && src.Folder?
  {
    Folder((if keepRoot then [Child(rootName, former)] else KeptChildren(former)) + src.children, src.c, src.mtime)
  }

  /** Without longer names than an image can hold, the old children stay as they are. */
  lemma JoinedKeepsAll(former: Source, keepRoot: bool, rootName: seq<byte>, src: Source)
    requires former.Folder? && src.Folder? && former.Ordinary()
    ensures
      var kept := if keepRoot then [Child(rootName, former)] else former.children;
      Joined(former, keepRoot, rootName, src) == Folder(kept + src.children, src.c, src.mtime)
    ensures src.Ordinary() && (keepRoot ==> |rootName| <= 256) ==> Joined(former, keepRoot, rootName, src).Ordinary()
  {
    hide CutName;
    forall j | 0 <= j < |former.children|
      ensures KeptChildren(former)[j] == former.children[j]
    {
      CutNameKeeps(former.children[j].name);
    }
    assert KeptChildren(former) == former.children;
  }

  /** What the new root directory starts with. */
  lemma FirstEntriesAreBuilt(f: Format, blockLog: nat, disk: seq<byte>, sb: SuperBlock, x: Contents, oldNode: Node, former: Source,
                             keepRoot: bool, rootName: seq<byte>, first: seq<Entry>, items: seq<Item>)
    returns (nodes: seq<Node>, kids: seq<Child>)
    requires Appendable(f, blockLog, disk, sb, x)
    requires AllWellFormed(InodesOf(x.items), blockLog) && Built(f, blockLog, x.items, oldNode, former)
    requires former.Folder? && former.Possible() && oldNode.k == |x.items| - 1
    requires keepRoot ==> rootName != [] && sb.root / 0x1_0000 < 0x100_0000
    requires first == if keepRoot then [Entry(rootName, sb.root, DIR_TYPE)] else RootListing(x)
    requires items == (if keepRoot then x else WithoutRoot(x)).items
    ensures kids == if keepRoot then [Child(rootName, former)] else KeptChildren(former)
    ensures AllWellFormed(InodesOf(items), blockLog) && ListBuilt(f, blockLog, items, first, nodes, kids)
    ensures forall j :: 0 <= j < |kids| ==> kids[j].name != [] && kids[j].node.Possible()
  {
    hide Image, ReadBack, Built, AllInBounds, ListBuilt, NumberAt, AllWellFormed, StoredEntries, Narrow,
      Source.Possible, Flatten, Inode.Storable, RunsBytes, EntryFor, Entry.Storable;
    BuiltFolder(f, blockLog, x.items, oldNode, former);
    PossibleParts(former);
    if keepRoot {
      var kid := Child(rootName, former);
      EntryIsStorable(f, blockLog, x.items, oldNode, kid);
      EntryIs(f, blockLog, x.items, oldNode, kid);
      NothingListed(f, blockLog, x.items);
      ListBuiltMore(f, blockLog, x.items, [], [], [], oldNode, kid);
      nodes, kids := [oldNode], [kid];
      assert [] + [oldNode] == [oldNode] && [] + [kid] == [kid] && [] + first == first;
    } else {
      OldEntriesAreBuilt(f, blockLog, x.items, oldNode, former);
      nodes, kids := oldNode.children, KeptChildren(former);
    }
  }

  ghost predicate HoldsOwn(w: World, i: Item) {
    i.Held? && HeldStands(w, i) && i.inode.blocks == i.own
  }

  /** What the walk registers for such a file is its own list with its own bytes. */
  lemma OwnFileIsGenuine(w: World, plain: bool, i: Item)
    requires HoldsOwn(w, i) && Genuine(w.f.codec, plain, w.blockLog, i) && w.bytes <= MAX_INT
    requires Pow2(w.blockLog) < COMPRESSED_BIT_BLOCK
    ensures
      var file := RegisteredOf(i.inode, w.blockLog);
      && file.start + file.fileBytes <= |w.disk|
      && IsListOf(w.f.codec, plain, Pow2(w.blockLog), file.blocks, StoredPart(w.disk, file))
  {
    hide LoadBlocks, StoreBlocks, TotalStored, TailBytes, Low, Placed, TailOf, FitInts, Fits, Pow2;
    HoldsBound(w.disk, i.at, i.stored);
    HoldsSlice(w.disk, i.at, i.stored);
    FitsInt(i.at);
    LowOfFitting(i.at, 32);
  }

  /** So the duplicate index that is filled from the image holds no foreign list. */
  lemma LoadedIsGenuine(f: Format, blockLog: nat, disk: seq<byte>, sb: SuperBlock, x: Contents, plain: bool, files: seq<Recorded>)
    requires Image(f, blockLog, disk, sb, x) && IndexFilled(files, blockLog, disk, sb, x)
    requires AllOwn(x.items) && AllGenuine(f.codec, plain, blockLog, x.items)
    ensures Pow2(blockLog) < COMPRESSED_BIT_BLOCK && GenuineIndex(f.codec, plain, Pow2(blockLog), files)
  {
    hide BlocksStand, BothTables, InOrder, EncodeAll, AllWellFormed, FilesOf, HeldStands, IsListOf, StoredPart,
      Genuine, InPlace, IsKnown, TailOf, Checksum, Pow2;
    var w, items := Around(f, blockLog, disk, sb, x), WithoutRoot(x).items;
    var registered := FilesOf(InodesOf(items), blockLog);
    forall k | 0 <= k < |files|
      ensures IsListOf(f.codec, plain, Pow2(blockLog), files[k].info.blockList, files[k].stored)
    {
      var j :| 0 <= j < |registered| && files[k] == RecordOf(registered[j], disk, sb.inodeStart, x.blocks + [[]]);
      FilesOfMembers(InodesOf(items), blockLog, registered[j]);
      var m :| 0 <= m < |items| && InodesOf(items)[m].File? && registered[j] == RegisteredOf(InodesOf(items)[m], blockLog);
      assert items[m] == x.items[m];
      assert ItemStands(w, x.items[m]);
      OwnFileIsGenuine(w, plain, x.items[m]);
    }
  }

  /** An append in the same way as the image was made starts without a foreign list. */
  lemma StartsGenuine(a: Archive, disk: seq<byte>, sb: SuperBlock, x: Contents, keepRoot: bool)
    requires Appendable(a.f, a.data.blockLog, disk, sb, x) && a.data.codec == a.f.codec
    requires a.items == (if keepRoot then x else WithoutRoot(x)).items
    requires if a.data.checkDuplicates then IndexFilled(a.data.files, a.data.blockLog, disk, sb, x) else a.data.files == []
    requires AllOwn(x.items) && AllGenuine(a.f.codec, a.data.plainData, a.data.blockLog, x.items)
    ensures NothingForeign(a)
  {
    hide Image, Rooted, ReadBack, AllInBounds, IndexFilled, Genuine, IsListOf, AllOwn, Pow2;
    SmallBlocks(a.f, a.data.blockLog, disk, sb, x);
    if a.data.checkDuplicates {
      LoadedIsGenuine(a.f, a.data.blockLog, disk, sb, x, a.data.plainData, a.data.files);
    }
    forall k | 0 <= k < |a.items|
      ensures Genuine(a.f.codec, a.data.plainData, a.data.blockLog, a.items[k])
    {
      assert a.items[k] == x.items[k];
    }
  }

  // ---- sizes and names ----

  /** What the entries that the new root directory starts with take at most. */
  function FirstNames(former: Source, keepRoot: bool, rootName: seq<byte>): nat
    requires former.Folder?
  {
    if keepRoot then DIR_HEADER_BYTES + DIR_ENTRY_BYTES + |CutName(rootName)| else former.NamesOfFirst(|former.children|)
  }

  lemma {:induction false} StoredTakeAsMuch(entries: seq<Entry>)
    ensures ListingLimit(StoredEntries(entries)) == ListingLimit(entries)
  {
    if entries == [] {
    } else {
      var n := |entries| - 1;
      StoredTakeAsMuch(entries[..n]);
      assert StoredEntries(entries)[..n] == StoredEntries(entries[..n]);
    }
  }

  lemma FirstEntriesTake(f: Format, blockLog: nat, x: Contents, oldNode: Node, former: Source, keepRoot: bool, rootName: seq<byte>,
                         root: nat)
    requires AllWellFormed(InodesOf(x.items), blockLog) && Built(f, blockLog, x.items, oldNode, former)
    requires former.Folder? && oldNode.k == |x.items| - 1
    ensures
      var first := if keepRoot then [Entry(rootName, root, DIR_TYPE)] else RootListing(x);
      ListingLimit(first) == FirstNames(former, keepRoot, rootName)
  {
    hide AllWellFormed, Flatten, StoredEntries, ListingLimit, NumberAt;
    BuiltFolder(f, blockLog, x.items, oldNode, former);
    if keepRoot {
      NothingToList();
      LimitOfMore([], rootName, root, DIR_TYPE);
      assert [] + [Entry(rootName, root, DIR_TYPE)] == [Entry(rootName, root, DIR_TYPE)];
    } else {
      var entries := Flatten(x.items[oldNode.k].runs);
      forall j | 0 <= j < |entries|
        ensures oldNode.children[j].k < |x.items|
        ensures entries[j] == EntryFor(f, blockLog, x.items, oldNode.children[j], former.children[j])
      {
        BuiltChild(f, blockLog, x.items, oldNode, former, j);
      }
      ListingOfChildren(f, blockLog, x.items, oldNode.children, former, entries, |entries|);
      assert entries[..|entries|] == entries;
      StoredTakeAsMuch(entries);
    }
  }

  lemma {:induction false} NamesOfConcat(front: seq<Child>, src: Source, whole: Source, n: nat)
    requires src.Folder? && whole.Folder? && whole.children == front + src.children && n <= |src.children|
    ensures whole.NamesOfFirst(|front| + n) == whole.NamesOfFirst(|front|) + src.NamesOfFirst(n)
  {
    if n == 0 {
    } else {
      NamesOfConcat(front, src, whole, n - 1);
    }
  }

  lemma {:induction false} NamesOfKept(former: Source, whole: Source, n: nat)
    requires former.Folder? && whole.Folder? && n <= |former.children| <= |whole.children|
    requires whole.children[..|former.children|] == KeptChildren(former)
    ensures whole.NamesOfFirst(n) == former.NamesOfFirst(n)
  {
    if n == 0 {
    } else {
      NamesOfKept(former, whole, n - 1);
      assert whole.children[n - 1] == whole.children[..|former.children|][n - 1];
    }
  }

  /** The names in the joined root directory. */
  lemma NamesOfJoined(former: Source, keepRoot: bool, rootName: seq<byte>, src: Source)
    requires former.Folder? && src.Folder?
    ensures
      var whole := Joined(former, keepRoot, rootName, src);
      whole.NamesOfFirst(|whole.children|) == FirstNames(former, keepRoot, rootName) + src.NamesOfFirst(|src.children|)
  {
    var whole := Joined(former, keepRoot, rootName, src);
    var front := if keepRoot then [Child(rootName, former)] else KeptChildren(former);
    NamesOfConcat(front, src, whole, |src.children|);
    if keepRoot {
      assert whole.NamesOfFirst(0) == 0;
      assert whole.children[0] == Child(rootName, former);
    } else {
      assert whole.children[..|former.children|] == KeptChildren(former);
      NamesOfKept(former, whole, |former.children|);
    }
  }

  lemma JoinedIsSmall(former: Source, keepRoot: bool, rootName: seq<byte>, src: Source)
    requires former.Folder? && src.Folder? && former.SmallFolders() && src.SmallFolders()
    requires FirstNames(former, keepRoot, rootName) + src.NamesOfFirst(|src.children|) < 0x8_0000
    ensures Joined(former, keepRoot, rootName, src).SmallFolders()
  {
    hide Source.NamesOfFirst;
    NamesOfJoined(former, keepRoot, rootName, src);
  }

  lemma JoinedIsPossible(former: Source, keepRoot: bool, rootName: seq<byte>, src: Source)
    requires former.Folder? && src.Folder? && former.Possible() && src.Possible() && (keepRoot ==> rootName != [])
    ensures Joined(former, keepRoot, rootName, src).Possible()
  {
    hide Common.InRange, Fits;
    PossibleParts(former);
    PossibleParts(src);
  }

  // ---- the files of the old image ----

  /** What the inode tells of a file with its own words is what was kept of it. */
  lemma KeepIsKept(w: World, i: Item)
    requires HoldsOwn(w, i) && w.bytes <= MAX_INT && w.bytes <= |w.disk|
    requires i.inode.File? && InPlace(RegisteredOf(i.inode, w.blockLog), w.bytes, w.blocks)
    ensures KeepOf(RegisteredOf(i.inode, w.blockLog), w.disk, w.bytes, w.blocks) == KeptOf(i)
  {
    hide LoadBlocks, TotalStored, TailBytes, Low, FitInts, Fits, Pow2;
    HoldsBound(w.disk, i.at, i.stored);
    HoldsSlice(w.disk, i.at, i.stored);
    FitsInt(i.at);
    LowOfFitting(i.at, 32);
  }

  lemma {:induction false} RegisteredAreHeld(w: World, items: seq<Item>, n: nat)
    requires n <= |items| && w.bytes <= MAX_INT
    requires forall k :: 0 <= k < n ==> (items[k].inode.File? <==> items[k].Held?) && (items[k].Held? ==> HoldsOwn(w, items[k]))
    ensures |FilesOf(InodesOf(items)[..n], w.blockLog)| == |HeldOf(items[..n])|
    ensures forall j :: 0 <= j < |HeldOf(items[..n])| ==>
      && HoldsOwn(w, HeldOf(items[..n])[j]) && HeldOf(items[..n])[j].inode.File?
      && FilesOf(InodesOf(items)[..n], w.blockLog)[j] == RegisteredOf(HeldOf(items[..n])[j].inode, w.blockLog)
  {
    hide HoldsOwn, RegisteredOf;
    if n == 0 {
    } else {
      RegisteredAreHeld(w, items, n - 1);
      assert InodesOf(items)[..n][..n - 1] == InodesOf(items)[..n - 1] && items[..n][..n - 1] == items[..n - 1];
      assert InodesOf(items)[..n][n - 1] == items[n - 1].inode;
    }
  }

  lemma OwnStands(f: Format, blockLog: nat, disk: seq<byte>, sb: SuperBlock, x: Contents, i: Item)
    requires Image(f, blockLog, disk, sb, x) && AllOwn(x.items) && i in x.items
    ensures i.Held? ==> i.inode.File? && HoldsOwn(Around(f, blockLog, disk, sb, x), i)
    ensures i.inode.File? ==> i.Held?
  {
    hide BlocksStand, BothTables, EncodeAll, AllWellFormed, InOrder, Located, LoadBlocks, TotalStored, SaysWhere;
    var k :| 0 <= k < |x.items| && x.items[k] == i;
    assert ItemStands(Around(f, blockLog, disk, sb, x), x.items[k]);
  }

  lemma DroppingDirectory(items: seq<Item>)
    requires items != [] && !items[|items| - 1].Held?
    ensures HeldOf(items[..|items| - 1]) == HeldOf(items)
  {
  }

  lemma ImageBound(f: Format, blockLog: nat, disk: seq<byte>, sb: SuperBlock, x: Contents)
    requires Image(f, blockLog, disk, sb, x)
    ensures sb.inodeStart <= |disk|
  {
    hide BlocksStand, Holding, EncodeAll, AllWellFormed, EncodeStream, Holds;
    HoldsBound(disk, sb.inodeStart, EncodeStream(f, EncodeAll(f.order, InodesOf(x.items), blockLog)));
  }

  lemma RootIsListed(f: Format, blockLog: nat, root: nat, x: Contents)
    requires Rooted(f, blockLog, root, x)
    ensures |x.items| >= 2 && x.items[|x.items| - 1].Listed? && x.items[|x.items| - 1].at <= |x.listings|
  {
    hide AllWellFormed, NumberAt, Narrow, RunsBytes;
  }

  /** What a run registers of an image whose files all have their own words is what was kept of them. */
  lemma PriorIsKept(f: Format, blockLog: nat, disk: seq<byte>, sb: SuperBlock, x: Contents)
    requires Appendable(f, blockLog, disk, sb, x) && AllOwn(x.items)
    ensures PriorOf(blockLog, disk, sb, x) == KeptOfAll(HeldOf(x.items))
  {
    hide BlocksStand, BothTables, Holding, EncodeAll, AllWellFormed, HoldsOwn, AllOwn, InPlace, KeepOf, KeptOf,
      Rooted, ReadBack, FilesOf, HeldOf;
    var w, n := Around(f, blockLog, disk, sb, x), |x.items| - 1;
    RootIsListed(f, blockLog, sb.root, x);
    DroppingDirectory(x.items);
    var items := WithoutRoot(x).items;
    assert items == x.items[..n] && InodesOf(items) == InodesOf(x.items)[..n];
    var registered := FilesOf(InodesOf(items), blockLog);
    FilesAreInPlace(w, x.items, EncodeAll(f.order, InodesOf(x.items), blockLog), n);
    ImageBound(f, blockLog, disk, sb, x);
    forall k | 0 <= k < n
      ensures (x.items[k].inode.File? <==> x.items[k].Held?) && (x.items[k].Held? ==> HoldsOwn(w, x.items[k]))
    {
      OwnStands(f, blockLog, disk, sb, x, x.items[k]);
    }
    RegisteredAreHeld(w, x.items, n);
    forall j | 0 <= j < |registered|
      ensures KeepOf(registered[j], disk, sb.inodeStart, x.blocks + [[]]) == KeptOf(HeldOf(items)[j])
    {
      KeepIsKept(w, HeldOf(items)[j]);
    }
  }

  // ---- which lists the new files were handed ----

  lemma NewsAreFiles(items: seq<Item>, loaded: nat)
    requires loaded <= |items|
    ensures HeldOf(items) == HeldOf(items[..loaded]) + HeldOf(items[loaded..])
    ensures forall k :: 0 <= k < |HeldOf(items[loaded..])| ==> HeldOf(items[loaded..])[k] in items
  {
    assert items == items[..loaded] + items[loaded..];
    HeldOfConcat(items[..loaded], items[loaded..]);
  }

  lemma {:induction false} AllAreAmong(items: seq<Item>, nodes: seq<Node>)
    ensures forall k :: 0 <= k < |FilesBelowAll(items, nodes)| ==> FilesBelowAll(items, nodes)[k] in items
    decreases nodes
  {
    if nodes == [] {
    } else {
      AllAreAmong(items, nodes[..|nodes| - 1]);
      IsAmong(items, nodes[|nodes| - 1]);
    }
  }

  lemma {:induction false} IsAmong(items: seq<Item>, node: Node)
    ensures forall k :: 0 <= k < |FilesBelow(items, node)| ==> FilesBelow(items, node)[k] in items
    decreases node
  {
    match node {
      case Leaf(k) =>
      case Branch(_, children) => AllAreAmong(items, children);
    }
  }

  lemma OwnAmong(items: seq<Item>, held: seq<Item>)
    requires AllOwn(items) && forall k :: 0 <= k < |held| ==> held[k] in items && (held[k].Held? ==> held[k].inode.File?)
    ensures AllHaveOwn(held)
  {
    forall k | 0 <= k < |held|
      ensures HasOwnWords(held[k])
    {
      var j :| 0 <= j < |items| && items[j] == held[k];
    }
  }

  lemma {:induction false} ContentsOfConcat(front: seq<Child>, src: Source, whole: Source, n: nat)
    requires src.Folder? && whole.Folder? && whole.children == front + src.children && n <= |src.children|
    ensures whole.ContentsOfFirst(|front| + n) == whole.ContentsOfFirst(|front|) + src.ContentsOfFirst(n)
  {
    if n == 0 {
    } else {
      ContentsOfConcat(front, src, whole, n - 1);
    }
  }

  lemma SameBehind(a: seq<Item>, b: seq<Item>, front: seq<seq<byte>>, back: seq<seq<byte>>)
    requires forall k :: 0 <= k < |a| ==> a[k].Held?
    requires forall k :: 0 <= k < |b| ==> b[k].Held?
    requires ContentsOf(a) == front && ContentsOf(a + b) == front + back
    ensures ContentsOf(b) == back
  {
    assert ContentsOf(a + b) == ContentsOf(a) + ContentsOf(b);
    assert (front + ContentsOf(b))[|front|..] == ContentsOf(b) && (front + back)[|front|..] == back;
  }

  /** The files below the new nodes of the root directory are those of the new sources. */
  lemma NewContents(f: Format, blockLog: nat, items: seq<Item>, node: Node, front: seq<Child>, src: Source, whole: Source)
    requires AllWellFormed(InodesOf(items), blockLog) && Built(f, blockLog, items, node, whole)
    requires src.Folder? && whole.Folder? && whole.children == front + src.children && node.Branch?
    ensures |node.children| == |whole.children|
    ensures ContentsOf(FilesBelowAll(items, node.children[|front|..])) == src.FileContents()
  {
    hide AllWellFormed, FilesBelowAll, Source.ContentsOfFirst;
    BuiltFolder(f, blockLog, items, node, whole);
    var n, m := |front|, |whole.children|;
    BuiltContentsOfFirst(f, blockLog, items, node, whole, n);
    BuiltContentsOfFirst(f, blockLog, items, node, whole, m);
    ContentsOfConcat(front, src, whole, |src.children|);
    assert node.children[..m] == node.children == node.children[..n] + node.children[n..];
    FilesBelowConcat(items, node.children[..n], node.children[n..]);
    SameBehind(FilesBelowAll(items, node.children[..n]), FilesBelowAll(items, node.children[n..]), whole.ContentsOfFirst(n),
               src.ContentsOfFirst(|src.children|));
  }

  lemma BoundsOfConcat(a: seq<Item>, b: seq<Item>)
    ensures AllInBounds(a + b) <==> AllInBounds(a) && AllInBounds(b)
  {
    hide InBounds;
    if AllInBounds(a + b) {
      assert forall k :: 0 <= k < |a| ==> a[k] == (a + b)[k];
      assert forall k :: 0 <= k < |b| ==> b[k] == (a + b)[|a| + k];
    }
  }

  /** What decides about the files that were added. */
  lemma AddedListsDecide(f: Format, blockLog: nat, disk: seq<byte>, sb: SuperBlock, x: Contents, way: Way, check: bool,
                         files: seq<Recorded>, prior: seq<Kept>, loaded: nat)
    requires Image(f, blockLog, disk, sb, x) && loaded <= |x.items| && AllInBounds(x.items[..loaded])
    requires Traces(way, check, files, prior, HeldOf(x.items[loaded..]))
    ensures
      var news := HeldOf(x.items[loaded..]);
      && way.Usable() && KeptOfAll(news) == way.KeepAll(ContentsOf(news))
      && (AllInBounds(x.items) <==> !check || EnoughServed(prior + KeptOfAll(news), |prior|))
      && (AllGenuine(f.codec, way.plain, blockLog, x.items) ==>
            (AllHaveOwn(news) <==> !check || OwnServed(prior + KeptOfAll(news), |prior|)))
      && (AllGenuine(f.codec, way.plain, blockLog, x.items) && AllHaveOwn(HeldOf(x.items[..loaded])) ==>
            (AllOwn(x.items) <==> AllHaveOwn(news)))
  {
    hide Image, Genuine, Traces, HeldOf, Way.Keep, Way.Usable, HasOwnWords, InBounds, OwnServed, EnoughServed;
    var news := HeldOf(x.items[loaded..]);
    NewsAreFiles(x.items, loaded);
    TracedIsKept(way, check, files, prior, news);
    ListsDecide(f, blockLog, disk, sb, x, way, check, files, prior, news);
    AllInBoundsMeans(x.items);
    AllInBoundsMeans(x.items[..loaded]);
    BoundsOfConcat(HeldOf(x.items[..loaded]), news);
    AllOwnConcat(HeldOf(x.items[..loaded]), news);
    if AllGenuine(f.codec, way.plain, blockLog, x.items) {
      AllOwnMeans(f, blockLog, disk, sb, x, way.plain);
    }
  }

  lemma HeldHaveOwn(f: Format, blockLog: nat, disk: seq<byte>, sb: SuperBlock, x: Contents, few: seq<Item>, held: seq<Item>)
    requires Image(f, blockLog, disk, sb, x) && AllOwn(x.items) && few <= x.items
    requires forall k :: 0 <= k < |held| ==> held[k] in few
    ensures AllHaveOwn(held)
  {
    hide Image, AllOwn;
    forall k | 0 <= k < |held|
      ensures held[k] in x.items && (held[k].Held? ==> held[k].inode.File?)
    {
      ItemKinds(f, blockLog, disk, sb, x, held[k]);
    }
    OwnAmong(x.items, held);
  }

  /** The files below the joined root: those listed before have their own words if those of the old image have. */
  lemma JoinedFiles(f: Format, blockLog: nat, disk: seq<byte>, sb: SuperBlock, x: Contents, was: seq<Item>, items: seq<Item>,
                    first: seq<Entry>, nodes: seq<Node>, kids: seq<Child>, node: Node)
    requires Image(f, blockLog, disk, sb, x) && AllOwn(x.items) && was <= x.items && was <= items
    requires AllWellFormed(InodesOf(was), blockLog) && ListBuilt(f, blockLog, was, first, nodes, kids)
    requires node.Branch? && nodes <= node.children
    ensures AllHaveOwn(FilesBelow(items, node)) <==> AllHaveOwn(FilesBelowAll(items, node.children[|nodes|..]))
  {
    hide Image, AllWellFormed, ListBuilt, FilesBelow, FilesBelowAll, AllHaveOwn, AllOwn;
    FilesBelowBranch(items, node);
    assert node.children == nodes + node.children[|nodes|..] && nodes[0..] == nodes;
    FilesBelowConcat(items, nodes, node.children[|nodes|..]);
    ListedFilesStay(f, blockLog, was, items, first, nodes, kids, 0);
    AllAreAmong(was, nodes);
    HeldHaveOwn(f, blockLog, disk, sb, x, was, FilesBelowAll(was, nodes));
    AllOwnConcat(FilesBelowAll(items, nodes), FilesBelowAll(items, node.children[|nodes|..]));
  }

  /** How the files of the joined image are stored. */
  lemma StoredAsBefore(way: Way, was: seq<Item>, items: seq<Item>, contents: seq<seq<byte>>, more: seq<seq<byte>>, loaded: nat)
    requires StoredAs(way, was, contents) && loaded <= |items| && HeldOf(items[..loaded]) == HeldOf(was)
    requires AllGenuine(way.codec, way.plain, way.blockLog, items)
    requires ContentsOf(HeldOf(items[loaded..])) == more && KeptOfAll(HeldOf(items[loaded..])) == way.KeepAll(more)
    ensures StoredAs(way, items, contents + more)
  {
    hide Genuine, HeldOf, Way.Keep, KeptOf, Way.Usable;
    NewsAreFiles(items, loaded);
    var a, b := HeldOf(items[..loaded]), HeldOf(items[loaded..]);
    assert KeptOfAll(a + b) == KeptOfAll(a) + KeptOfAll(b);
    assert way.KeepAll(contents + more) == way.KeepAll(contents) + way.KeepAll(more);
    assert ContentsOf(a + b) == ContentsOf(a) + ContentsOf(b);
  }

  /** The files of what stays of the image are all its files. */
  lemma KeptFiles(f: Format, blockLog: nat, disk: seq<byte>, sb: SuperBlock, x: Contents, keepRoot: bool)
    requires Appendable(f, blockLog, disk, sb, x)
    ensures
      var few := (if keepRoot then x else WithoutRoot(x)).items;
      few <= x.items && HeldOf(few) == HeldOf(x.items) && AllInBounds(few)
  {
    hide Image, ReadBack, HeldOf, InBounds, Rooted;
    RootIsListed(f, blockLog, sb.root, x);
    DroppingDirectory(x.items);
  }

  lemma FrontEncodes(f: Format, blockLog: nat, few: seq<Item>, items: seq<Item>)
    requires few <= items && AllWellFormed(InodesOf(items), blockLog) && AllWellFormed(InodesOf(few), blockLog)
    ensures EncodeAll(f.order, InodesOf(few), blockLog) <= EncodeAll(f.order, InodesOf(items), blockLog)
  {
    hide EncodeAll, Inode.WellFormed;
    var a, b := InodesOf(few), InodesOf(items);
    assert b == a + b[|a|..];
    EncodeAllConcat(f.order, a, b[|a|..], blockLog);
  }

  // ---- appending sources ----

  /** Whether the files an append has added have long enough lists, and their own, is decided by what is registered of the old
      image and by the new sources; how the old files were stored goes on if they have their own words. */
  ghost predicate ListsDecided(f: Format, blockLog: nat, disk: seq<byte>, sb: SuperBlock, x: Contents, way: Way, check: bool,
                               items: seq<Item>, src: Source) {
    var prior := PriorOf(blockLog, disk, sb, x);
    && way.Usable()
    && (AllInBounds(items) <==> !check || EnoughServed(prior + way.KeepAll(src.FileContents()), |prior|))
    && (AllOwn(x.items) && AllGenuine(f.codec, way.plain, blockLog, x.items) ==>
          && AllGenuine(f.codec, way.plain, blockLog, items)
          && (AllOwn(items) <==> !check || OwnServed(prior + way.KeepAll(src.FileContents()), |prior|)))
    && (forall contents :: StoredAs(way, x.items, contents) && AllOwn(x.items) ==>
          prior == way.KeepAll(contents) && StoredAs(way, items, contents + src.FileContents()))
  }

  lemma ListsAreDecided(f: Format, blockLog: nat, disk: seq<byte>, sb: SuperBlock, x: Contents, way: Way, check: bool,
                        newDisk: seq<byte>, newSb: SuperBlock, y: Contents, files: seq<Recorded>, loaded: nat, keepRoot: bool,
                        src: Source)
    requires Appendable(f, blockLog, disk, sb, x) && Image(f, blockLog, newDisk, newSb, y)
    requires way.codec == f.codec && way.blockLog == blockLog
    requires
      var few := (if keepRoot then x else WithoutRoot(x)).items;
      few <= y.items && loaded == |few|
    requires Traces(way, check, files, PriorOf(blockLog, disk, sb, x), HeldOf(y.items[loaded..]))
    requires ContentsOf(HeldOf(y.items[loaded..])) == src.FileContents()
    requires AllOwn(x.items) && AllGenuine(f.codec, way.plain, blockLog, x.items) ==>
      AllGenuine(f.codec, way.plain, blockLog, y.items)
    ensures ListsDecided(f, blockLog, disk, sb, x, way, check, y.items, src)
    ensures
      var prior := PriorOf(blockLog, disk, sb, x);
      AllGenuine(f.codec, way.plain, blockLog, y.items) ==>
        (AllHaveOwn(HeldOf(y.items[loaded..])) <==> !check || OwnServed(prior + way.KeepAll(src.FileContents()), |prior|))
  {
    hide Image, ReadBack, Rooted, HeldOf, InBounds, Genuine, Traces, Way.Keep, Way.Usable, HasOwnWords, OwnServed,
      EnoughServed, PriorOf, Source.FileContents, AllOwn;
    var prior, few := PriorOf(blockLog, disk, sb, x), (if keepRoot then x else WithoutRoot(x)).items;
    KeptFiles(f, blockLog, disk, sb, x, keepRoot);
    assert y.items[..loaded] == few;
    AddedListsDecide(f, blockLog, newDisk, newSb, y, way, check, files, prior, loaded);
    if AllOwn(x.items) {
      HeldHaveOwn(f, blockLog, disk, sb, x, few, HeldOf(few));
      PriorIsKept(f, blockLog, disk, sb, x);
    }
    forall contents | StoredAs(way, x.items, contents) && AllOwn(x.items)
      ensures prior == way.KeepAll(contents) && StoredAs(way, y.items, contents + src.FileContents())
    {
      StoredAsBefore(way, x.items, y.items, contents, src.FileContents(), loaded);
    }
  }

  /** The image that was made shows the old numbers, and how its files are stored. */
  lemma ExtensionShows(f: Format, blockLog: nat, disk: seq<byte>, sb: SuperBlock, x: Contents, keepRoot: bool, newDisk: seq<byte>,
                       newSb: SuperBlock, y: Contents, node: Node, whole: Source, scratch: seq<byte>)
    requires Appendable(f, blockLog, disk, sb, x) && AllWellFormed(InodesOf(x.items), blockLog) && |scratch| == EMPTY_STORED
    requires IsMade(f, blockLog, newDisk, newSb, y, node, whole, scratch)
    requires (if keepRoot then x else WithoutRoot(x)).items <= y.items
    ensures
      var was := EncodeAll(f.order, InodesOf(x.items), blockLog);
      && |was| >= DIR_BYTES
      && ShowsAll(f, blockLog, newDisk, newSb, y, was, if keepRoot then |was| else |was| - DIR_BYTES, scratch)
  {
    hide Appendable, Image, Built, AllWellFormed, EncodeAll, ReadBack, Survives, NumberAt, ShowsAll, WithoutRoot;
    KeepsFront(f, blockLog, disk, sb, x, keepRoot);
    var was, few := EncodeAll(f.order, InodesOf(x.items), blockLog), (if keepRoot then x else WithoutRoot(x)).items;
    FrontEncodes(f, blockLog, few, y.items);
    ImageShowsAll(f, blockLog, newDisk, newSb, y, was, if keepRoot then |was| else |was| - DIR_BYTES, scratch);
  }

  lemma SmallWholeFits(f: Format, blockLog: nat, disk: seq<byte>, sb: SuperBlock, y: Contents, node: Node, whole: Source,
                       scratch: seq<byte>)
    requires |scratch| == EMPTY_STORED && IsMade(f, blockLog, disk, sb, y, node, whole, scratch) && whole.Folder?
    ensures whole.SmallFolders() ==> SizesFit(f.order, y.items, node)
    ensures whole.SmallFolders() && whole.children != [] ==> RootFits(f.order, y.items)
  {
    hide Image, Built, AllWellFormed, ReadBack, Survives, NumberAt, SizesFit, RootFits, Source.SmallFolders;
    if whole.SmallFolders() {
      SmallSourceFits(f, blockLog, disk, sb, y, node, whole);
      if whole.children != [] {
        RootHasChild(f, blockLog, y.items, node, whole);
      }
    }
  }

  lemma FrontItems(f: Format, blockLog: nat, disk: seq<byte>, sb: SuperBlock, x: Contents, keepRoot: bool)
    requires Appendable(f, blockLog, disk, sb, x)
    ensures (if keepRoot then x else WithoutRoot(x)).items <= x.items
  {
    hide Image, ReadBack, Rooted, AllInBounds;
    RootIsListed(f, blockLog, sb.root, x);
  }

  /** When the joined tree is read back. */
  lemma ExtensionReads(f: Format, blockLog: nat, disk: seq<byte>, sb: SuperBlock, x: Contents, keepRoot: bool, newDisk: seq<byte>,
                       newSb: SuperBlock, y: Contents, plain: bool, first: seq<Entry>, nodes: seq<Node>, kids: seq<Child>,
                       node: Node, whole: Source)
    requires Appendable(f, blockLog, disk, sb, x) && AllOwn(x.items)
    requires
      var few := (if keepRoot then x else WithoutRoot(x)).items;
      few <= y.items && AllWellFormed(InodesOf(few), blockLog) && ListBuilt(f, blockLog, few, first, nodes, kids)
    requires node.Branch? && nodes <= node.children && AllGenuine(f.codec, plain, blockLog, y.items)
    requires HoldsTree(f, blockLog, newDisk, newSb, y, plain, node, whole)
    ensures ReadsExactlyIf(f, blockLog, newDisk, newSb, whole,
                           SizesFit(f.order, y.items, node) && AllHaveOwn(FilesBelowAll(y.items, node.children[|nodes|..])))
  {
    hide Image, ReadBack, Rooted, AllInBounds, ListBuilt, HoldsTree, AllGenuine, AllOwn, AllWellFormed, SizesFit,
      AllHaveOwn, FilesBelow, FilesBelowAll, ReadsExactlyIf, WithoutRoot;
    var few := (if keepRoot then x else WithoutRoot(x)).items;
    FrontItems(f, blockLog, disk, sb, x, keepRoot);
    JoinedFiles(f, blockLog, disk, sb, x, few, y.items, first, nodes, kids, node);
    HoldsExactly(f, blockLog, newDisk, newSb, y, plain, node, whole);
  }

  lemma NodesAreKids(f: Format, blockLog: nat, items: seq<Item>, first: seq<Entry>, nodes: seq<Node>, kids: seq<Child>)
    requires AllWellFormed(InodesOf(items), blockLog) && ListBuilt(f, blockLog, items, first, nodes, kids)
    ensures |nodes| == |kids|
  {
  }

  lemma NoNewsYet(items: seq<Item>)
    ensures HeldOf(items[|items|..]) == []
  {
  }

  /** The sizes of the joined image at most. */
  ghost function JoinedSizes(f: Format, blockLog: nat, sb: SuperBlock, x: Contents, former: Source, keepRoot: bool,
                             rootName: seq<byte>, src: Source): Sizes
    requires AllWellFormed(InodesOf(x.items), blockLog) && former.Folder?
  {
    SizesOf(f, blockLog, sb, x).Plus(src.Cost(blockLog)).Plus(Sizes(0, FirstNames(former, keepRoot, rootName), 0))
  }

  /** The new files are served their own lists, by the files of the old image and among themselves. */
  ghost predicate NewsOwnServed(blockLog: nat, disk: seq<byte>, sb: SuperBlock, x: Contents, way: Way, check: bool, src: Source) {
    var prior := PriorOf(blockLog, disk, sb, x);
    check ==> way.Usable() && OwnServed(prior + way.KeepAll(src.FileContents()), |prior|)
  }

  /** What an append has made of an image: the image of the joined tree, in which old numbers lead where they led. Within the
      limits of the format it holds the tree and can be appended to; if the old files have their own words and were stored in
      the same way, the tree is read back exactly if no directory is too large and the new files are served their own lists. */
  ghost predicate Extends(f: Format, blockLog: nat, disk: seq<byte>, sb: SuperBlock, x: Contents, way: Way, check: bool,
                          keepRoot: bool, newDisk: seq<byte>, newSb: SuperBlock, y: Contents, node: Node, whole: Source,
                          src: Source, scratch: seq<byte>)
    requires |scratch| == EMPTY_STORED && AllWellFormed(InodesOf(x.items), blockLog)
  {
    var was := EncodeAll(f.order, InodesOf(x.items), blockLog);
    && IsMade(f, blockLog, newDisk, newSb, y, node, whole, scratch) && whole.Possible()
    && (whole.SmallFolders() ==> SizesFit(f.order, y.items, node))
    && (whole.SmallFolders() && whole.Folder? && whole.children != [] ==> RootFits(f.order, y.items))
    && |was| >= DIR_BYTES
    && ShowsAll(f, blockLog, newDisk, newSb, y, was, if keepRoot then |was| else |was| - DIR_BYTES, scratch)
    && ListsDecided(f, blockLog, disk, sb, x, way, check, y.items, src)
    && (KeepsLimits(f, y, scratch) ==>
          && HoldsTree(f, blockLog, newDisk, newSb, y, way.plain, node, whole)
          && (AllOwn(x.items) && AllGenuine(f.codec, way.plain, blockLog, x.items) ==>
                ReadsExactlyIf(f, blockLog, newDisk, newSb, whole,
                               SizesFit(f.order, y.items, node) && NewsOwnServed(blockLog, disk, sb, x, way, check, src)))
          && (RootFits(f.order, y.items) && AllInBounds(y.items) ==> Appendable(f, blockLog, newDisk, newSb, y)))
  }

  lemma ModestMade(f: Format, blockLog: nat, disk: seq<byte>, sb: SuperBlock, y: Contents, node: Node, whole: Source, limit: Sizes,
                   n: nat, scratch: seq<byte>)
    requires |scratch| == EMPTY_STORED && IsMade(f, blockLog, disk, sb, y, node, whole, scratch)
    requires Modest(limit, n) && |y.listings| <= limit.listings && |y.entries| <= n
    ensures KeepsLimits(f, y, scratch)
  {
    hide Image, Built, AllWellFormed, ReadBack, Survives, NumberAt, KeepsLimits, Modest;
    ModestKeepsLimits(f, blockLog, disk, sb, y, limit, n, scratch);
  }

  lemma DecidedIsUsable(f: Format, blockLog: nat, disk: seq<byte>, sb: SuperBlock, x: Contents, way: Way, check: bool,
                        items: seq<Item>, src: Source)
    requires ListsDecided(f, blockLog, disk, sb, x, way, check, items, src)
    ensures way.Usable()
  {
  }

  lemma ExtensionConcludes(f: Format, blockLog: nat, disk: seq<byte>, sb: SuperBlock, x: Contents, way: Way, check: bool,
                           keepRoot: bool, newDisk: seq<byte>, newSb: SuperBlock, y: Contents, files: seq<Recorded>,
                           first: seq<Entry>, nodes: seq<Node>, kids: seq<Child>, node: Node, whole: Source, src: Source,
                           scratch: seq<byte>)
    requires Appendable(f, blockLog, disk, sb, x) && AllWellFormed(InodesOf(x.items), blockLog) && |scratch| == EMPTY_STORED
    requires way.codec == f.codec && way.blockLog == blockLog
    requires
      var few := (if keepRoot then x else WithoutRoot(x)).items;
      && few <= y.items && AllWellFormed(InodesOf(few), blockLog) && ListBuilt(f, blockLog, few, first, nodes, kids)
      && Traces(way, check, files, PriorOf(blockLog, disk, sb, x), HeldOf(y.items[|few|..]))
      && node.Branch? && nodes <= node.children
      && HeldOf(y.items[|few|..]) == [] + FilesBelowAll(y.items, node.children[|nodes|..])
    requires IsMade(f, blockLog, newDisk, newSb, y, node, whole, scratch) && whole.Possible()
    requires src.Folder? && whole == Folder(kids + src.children, src.c, src.mtime)
    requires AllOwn(x.items) && AllGenuine(f.codec, way.plain, blockLog, x.items) ==>
      AllGenuine(f.codec, way.plain, blockLog, y.items)
    requires KeepsLimits(f, y, scratch) ==>
      && HoldsTree(f, blockLog, newDisk, newSb, y, way.plain, node, whole)
      && (RootFits(f.order, y.items) && AllInBounds(y.items) ==> Appendable(f, blockLog, newDisk, newSb, y))
    ensures Extends(f, blockLog, disk, sb, x, way, check, keepRoot, newDisk, newSb, y, node, whole, src, scratch)
  {
    hide Image, Built, HoldsTree, Appendable, AllInBounds, ListBuilt, NumberAt, AllWellFormed, WithoutRoot,
      AllGenuine, AllOwn, EncodeAll, Source.Possible, Source.FileContents, Source.SmallFolders, SizesFit, RootFits,
      KeepsLimits, ShowsAll, ListsDecided, PriorOf, OwnServed, Traces, HeldOf, FilesBelowAll, AllHaveOwn, Way.Keep,
      ReadsExactlyIf, ReadBack, Survives;
    var few := (if keepRoot then x else WithoutRoot(x)).items;
    var news := FilesBelowAll(y.items, node.children[|nodes|..]);
    NodesAreKids(f, blockLog, few, first, nodes, kids);
    NewContents(f, blockLog, y.items, node, kids, src, whole);
    assert [] + news == news;
    ListsAreDecided(f, blockLog, disk, sb, x, way, check, newDisk, newSb, y, files, |few|, keepRoot, src);
    DecidedIsUsable(f, blockLog, disk, sb, x, way, check, y.items, src);
    ExtensionShows(f, blockLog, disk, sb, x, keepRoot, newDisk, newSb, y, node, whole, scratch);
    SmallWholeFits(f, blockLog, newDisk, newSb, y, node, whole, scratch);
    if KeepsLimits(f, y, scratch) && AllOwn(x.items) && AllGenuine(f.codec, way.plain, blockLog, x.items) {
      ExtensionReads(f, blockLog, disk, sb, x, keepRoot, newDisk, newSb, y, way.plain, first, nodes, kids, node, whole);
    }
  }

  lemma JoinedIs(former: Source, keepRoot: bool, rootName: seq<byte>, src: Source, kids: seq<Child>)
    requires former.Folder? && src.Folder? && kids == if keepRoot then [Child(rootName, former)] else KeptChildren(former)
    ensures Joined(former, keepRoot, rootName, src) == Folder(kids + src.children, src.c, src.mtime)
  {
  }

  /** Loading for an append of sources: what the new root directory starts with stands for the old tree. */
  method StartAppending(f: Format, blockLog: nat, disk: seq<byte>, sb: SuperBlock, keepRoot: bool, rootName: seq<byte>,
                        plainData: bool, plainFragments: bool, noFragments: bool, alwaysFragments: bool, checkDuplicates: bool,
                        beyond: seq<byte>, ghost x: Contents, ghost oldNode: Node, ghost former: Source)
    returns (a: Archive, first: seq<Entry>, ghost nodes: seq<Node>, ghost kids: seq<Child>)
    requires Appendable(f, blockLog, disk, sb, x) && |beyond| >= REG_BYTES
    requires AllWellFormed(InodesOf(x.items), blockLog) && Built(f, blockLog, x.items, oldNode, former)
    requires former.Folder? && former.Possible() && oldNode.k == |x.items| - 1
    requires keepRoot ==> rootName != [] && sb.root / 0x1_0000 < 0x100_0000
    ensures a.Valid() && fresh(a) && fresh({a.data, a.inodes, a.directories}) && a.f == f && a.savedDisk == disk
    ensures a.savedBytes == sb.inodeStart && a.items == (if keepRoot then x else WithoutRoot(x)).items && a.loaded == |a.items|
    ensures a.Storing() == Way(f.codec, blockLog, plainData, noFragments, alwaysFragments)
    ensures a.data.plainFragments == plainFragments && a.data.checkDuplicates == checkDuplicates
    ensures a.prior == PriorOf(blockLog, disk, sb, x) && a.data.fragments == sb.fragments && a.News() == []
    ensures AllWellFormed(InodesOf(a.items), blockLog) && ListBuilt(f, blockLog, a.items, first, nodes, kids)
    ensures kids == if keepRoot then [Child(rootName, former)] else KeptChildren(former)
    ensures forall j :: 0 <= j < |kids| ==> kids[j].name != [] && kids[j].node.Possible()
    ensures a.SizesNow().AtMost(SizesOf(f, blockLog, sb, x)) && ListingLimit(first) == FirstNames(former, keepRoot, rootName)
    ensures AllOwn(x.items) && AllGenuine(f.codec, plainData, blockLog, x.items) ==> NothingForeign(a)
  {
    hide Archive.Valid, Image, Built, Appendable, AllInBounds, SameBelow, ListBuilt, AllWellFormed, RootListing,
      WithoutRoot, CountsOf, TotalsAre, IndexFilled, AllGenuine, AllOwn, NothingForeign, EncodeAll, Source.Possible,
      PriorOf, Traces, HeldOf, ListingLimit, FirstNames;
    KeepsFront(f, blockLog, disk, sb, x, keepRoot);
    var loaded, counts, fileTotal, dirTotal;
    loaded, a, first, counts, fileTotal, dirTotal :=
      LoadArchive(f, blockLog, disk, sb, keepRoot, plainData, plainFragments, noFragments, alwaysFragments, checkDuplicates,
                  beyond, x);
    a.StreamIs();
    NoNewsYet(a.items);
    if AllOwn(x.items) && AllGenuine(f.codec, plainData, blockLog, x.items) {
      StartsGenuine(a, disk, sb, x, keepRoot);
    }
    if keepRoot {
      first := [Entry(rootName, sb.root, DIR_TYPE)];
    }
    FirstEntriesTake(f, blockLog, x, oldNode, former, keepRoot, rootName, sb.root);
    nodes, kids := FirstEntriesAreBuilt(f, blockLog, disk, sb, x, oldNode, former, keepRoot, rootName, first, a.items);
  }

  /** A run that appends to an image: the old tree persists beside the new one. The new root lists the old root's children, or
      the old root, in front of the new sources, and every number in front of the old root leads where it led. Within the limits
      of the format the joined tree is read back if no directory is too large for its inode and every file has its own words;
      if those of the old image have theirs and were stored in the same way, exactly if no directory is too large and the new
      files are served their own lists. Success and the limits can be told from the old image and the sources alone. */
  method AppendSources(f: Format, blockLog: nat, disk: seq<byte>, sb: SuperBlock, keepRoot: bool, rootName: seq<byte>,
                       plainData: bool, plainFragments: bool, noFragments: bool, alwaysFragments: bool, checkDuplicates: bool,
                       beyond: seq<byte>, src: Source, memory: seq<nat> -> nat -> nat, scratch: seq<byte>,
                       ghost x: Contents, ghost oldNode: Node, ghost former: Source)
    returns (ok: bool, a: Archive, newSb: SuperBlock, ghost node: Node)
    requires Appendable(f, blockLog, disk, sb, x) && |beyond| >= REG_BYTES && |scratch| == EMPTY_STORED
    requires AllWellFormed(InodesOf(x.items), blockLog) && Built(f, blockLog, x.items, oldNode, former)
    requires former.Folder? && former.Possible() && oldNode.k == |x.items| - 1
    requires keepRoot ==> rootName != [] && sb.root / 0x1_0000 < 0x100_0000
    requires src.Possible() && src.Folder? && sb.fragments + src.Files() + 1 < INVALID_BLK
    ensures fresh(a) && a.data.fragments <= |a.data.fragmentTable| && SameBelow(disk, a.data.disk, sb.inodeStart)
    ensures AllWellFormed(InodesOf(a.items), blockLog) && (if keepRoot then x else WithoutRoot(x)).items <= a.items
    ensures Outcome(ok, f, blockLog, plainFragments, newSb, a.Present(), scratch)
    ensures
      var limit := JoinedSizes(f, blockLog, sb, x, former, keepRoot, rootName, src);
      var n := sb.fragments + src.Files() + 1;
      && SizesOf(f, blockLog, newSb, a.Present()).AtMost(limit) && a.data.fragments <= n
      && (Modest(limit, n) ==> ok && KeepsLimits(f, a.Present(), scratch))
    ensures ok ==>
      Extends(f, blockLog, disk, sb, x, Way(f.codec, blockLog, plainData, noFragments, alwaysFragments), checkDuplicates, keepRoot,
              a.data.disk, newSb, a.Present(), node, Joined(former, keepRoot, rootName, src), src, scratch)
  {
    hide Archive.Valid, Image, Built, HoldsTree, Appendable, AllInBounds, SameBelow, ListBuilt, AllWellFormed,
      WithoutRoot, AllGenuine, AllOwn, NothingForeign, EncodeAll, Source.Files, Source.Possible, Source.Cost,
      Source.FileContents, RootFits, KeepsLimits, PriorOf, Traces, HeldOf, FilesBelowAll, Way.Keep, Outcome, Framed,
      Roomy, ListingLimit, FirstNames, Extends, IsMade, Joined, KeptChildren, ReadBack, Survives, StoredAs;
    var first;
    ghost var nodes, kids;
    a, first, nodes, kids :=
      StartAppending(f, blockLog, disk, sb, keepRoot, rootName, plainData, plainFragments, noFragments, alwaysFragments,
                     checkDuplicates, beyond, x, oldNode, former);
    ghost var few, limit := a.items, JoinedSizes(f, blockLog, sb, x, former, keepRoot, rootName, src);
    ghost var now := a.SizesNow().Plus(src.Cost(blockLog)).Plus(Sizes(0, ListingLimit(first), 0));
    ghost var n := sb.fragments + src.Files() + 1;
    if Modest(limit, n) {
      LessIsModest(now, n, limit, n);
    }
    JoinedIs(former, keepRoot, rootName, src, kids);
    ok, newSb, node := MakeImage(a, src, first, memory, scratch, nodes, kids);
    if ok {
      JoinedIsPossible(former, keepRoot, rootName, src);
      ExtensionConcludes(f, blockLog, disk, sb, x, a.Storing(), checkDuplicates, keepRoot, a.data.disk, newSb, a.Present(),
                         a.data.files, first, nodes, kids, node, Joined(former, keepRoot, rootName, src), src, scratch);
      if Modest(limit, n) {
        ModestMade(f, blockLog, a.data.disk, newSb, a.Present(), node, Joined(former, keepRoot, rootName, src), limit, n,
                   scratch);
      }
    }
  }

  // ---- any number of appends ----

  predicate AllFolders(more: seq<Source>) {
    forall k :: 0 <= k < |more| ==> more[k].Folder?
  }

  /** The tree after these appends, each adding to the root directory. */
  function JoinedAll(src: Source, more: seq<Source>): (whole: Source)
    requires src.Folder? && AllFolders(more)
    ensures whole.Folder?
  {
    if more == [] then src else Joined(JoinedAll(src, more[..|more| - 1]), false, [], more[|more| - 1])
  }

  /** The children of all these directories, in order. */
  function ChildrenOfAll(src: Source, more: seq<Source>): seq<Child>
    requires src.Folder? && AllFolders(more)
  {
    if more == [] then src.children else ChildrenOfAll(src, more[..|more| - 1]) + more[|more| - 1].children
  }

  predicate AllOrdinary(src: Source, more: seq<Source>) {
    src.Ordinary() && forall k :: 0 <= k < |more| ==> more[k].Ordinary()
  }

  lemma {:induction false} JoinedAllKeepsAll(src: Source, more: seq<Source>)
    requires src.Folder? && AllFolders(more) && AllOrdinary(src, more)
    ensures
      var last := if more == [] then src else more[|more| - 1];
      JoinedAll(src, more) == Folder(ChildrenOfAll(src, more), last.c, last.mtime) && JoinedAll(src, more).Ordinary()
  {
    hide Source.Ordinary, Joined;
    if more == [] {
    } else {
      var n := |more| - 1;
      JoinedAllKeepsAll(src, more[..n]);
      JoinedKeepsAll(JoinedAll(src, more[..n]), false, [], more[n]);
    }
  }

  function ContentsOfAll(src: Source, more: seq<Source>): seq<seq<byte>> {
    if more == [] then src.FileContents()
    else ContentsOfAll(src, more[..|more| - 1]) + more[|more| - 1].FileContents()
  }

  function SizesOfAll(src: Source, more: seq<Source>, blockLog: nat): Sizes
    requires src.Folder? && AllFolders(more)
  {
    if more == [] then Sizes(0, 0, SUPER_BYTES).Plus(src.Cost(blockLog))
    else
      var n := |more| - 1;
      SizesOfAll(src, more[..n], blockLog).Plus(more[n].Cost(blockLog))
      .Plus(Sizes(0, FirstNames(JoinedAll(src, more[..n]), false, []), 0))
  }

  function FragmentsOfAll(src: Source, more: seq<Source>): nat {
    if more == [] then src.Files() + 1 else FragmentsOfAll(src, more[..|more| - 1]) + more[|more| - 1].Files() + 1
  }

  function NamesOfAll(src: Source, more: seq<Source>): nat
    requires src.Folder? && AllFolders(more)
  {
    var whole := JoinedAll(src, more);
    whole.NamesOfFirst(|whole.children|)
  }

  lemma FirstIsAll(former: Source)
    requires former.Folder?
    ensures FirstNames(former, false, []) == former.NamesOfFirst(|former.children|)
  {
  }

  lemma NextJoined(src: Source, more: seq<Source>, k: nat, blockLog: nat)
    requires src.Folder? && AllFolders(more) && k < |more|
    ensures
      var front := JoinedAll(src, more[..k]);
      && AllFolders(more[..k]) && AllFolders(more[..k + 1])
      && JoinedAll(src, more[..k + 1]) == Joined(front, false, [], more[k])
      && ContentsOfAll(src, more[..k + 1]) == ContentsOfAll(src, more[..k]) + more[k].FileContents()
      && SizesOfAll(src, more[..k + 1], blockLog)
         == SizesOfAll(src, more[..k], blockLog).Plus(more[k].Cost(blockLog)).Plus(Sizes(0, FirstNames(front, false, []), 0))
      && FragmentsOfAll(src, more[..k + 1]) == FragmentsOfAll(src, more[..k]) + more[k].Files() + 1
      && NamesOfAll(src, more[..k]) == FirstNames(front, false, [])
      && NamesOfAll(src, more[..k + 1]) == NamesOfAll(src, more[..k]) + more[k].NamesOfFirst(|more[k].children|)
  {
    hide Joined, Source.Cost, Source.Files, Source.FileContents, Source.NamesOfFirst;
    assert more[..k + 1][..k] == more[..k];
    NamesOfJoined(JoinedAll(src, more[..k]), false, [], more[k]);
    FirstIsAll(JoinedAll(src, more[..k]));
  }

  /** Earlier images are smaller. */
  lemma {:induction false} EarlierIsSmaller(src: Source, more: seq<Source>, j: nat, k: nat, blockLog: nat)
    requires src.Folder? && AllFolders(more) && j <= k <= |more|
    ensures AllFolders(more[..j]) && AllFolders(more[..k])
    ensures SizesOfAll(src, more[..j], blockLog).AtMost(SizesOfAll(src, more[..k], blockLog))
    ensures FragmentsOfAll(src, more[..j]) <= FragmentsOfAll(src, more[..k])
    ensures NamesOfAll(src, more[..j]) <= NamesOfAll(src, more[..k])
    ensures ContentsOfAll(src, more[..j]) <= ContentsOfAll(src, more[..k])
    decreases k
  {
    hide SizesOfAll, FragmentsOfAll, NamesOfAll, JoinedAll, ContentsOfAll, Source.Cost, Source.NamesOfFirst, FirstNames;
    if j == k {
    } else {
      EarlierIsSmaller(src, more, j, k - 1, blockLog);
      NextJoined(src, more, k - 1, blockLog);
    }
  }

  lemma AgreeEarlier(way: Way, contents: seq<seq<byte>>, all: seq<seq<byte>>)
    requires way.Usable() && contents <= all && Agree(way.KeepAll(all))
    ensures Agree(way.KeepAll(contents))
  {
    hide Way.Keep;
    assert forall k :: 0 <= k < |contents| ==> way.KeepAll(all)[k] == way.KeepAll(contents)[k];
  }

  lemma AgreeServes(way: Way, contents: seq<seq<byte>>, more: seq<seq<byte>>)
    requires way.Usable() && Agree(way.KeepAll(contents + more))
    ensures OwnServed(way.KeepAll(contents) + way.KeepAll(more), |way.KeepAll(contents)|)
    ensures EnoughServed(way.KeepAll(contents) + way.KeepAll(more), |way.KeepAll(contents)|)
    ensures OwnServed(way.KeepAll(contents + more), 0) && EnoughServed(way.KeepAll(contents + more), 0)
  {
    hide Way.Keep, Served, Agree;
    assert way.KeepAll(contents + more) == way.KeepAll(contents) + way.KeepAll(more);
    OwnMeansAgree(way.KeepAll(contents + more));
    OwnIsEnough(way.KeepAll(contents + more), 0);
  }

  /** An image of this tree that can be appended to, whose files, stored in this way, all have their own words, and from which
      the tree is read back. */
  ghost predicate Ready(f: Format, blockLog: nat, way: Way, disk: seq<byte>, sb: SuperBlock, x: Contents, node: Node, src: Source,
                        contents: seq<seq<byte>>) {
    && Appendable(f, blockLog, disk, sb, x) && AllWellFormed(InodesOf(x.items), blockLog)
    && Built(f, blockLog, x.items, node, src) && node.k == |x.items| - 1 && src.Folder? && src.Possible() && src.SmallFolders()
    && AllOwn(x.items) && StoredAs(way, x.items, contents)
    && forall depth :: depth >= src.Height() ==>
         && ReadImage(f, blockLog, disk, sb, depth) == Some(src.AsStored())
         && (src.Ordinary() ==> ReadImage(f, blockLog, disk, sb, depth) == Some(src))
  }

  lemma StoredIsUsable(way: Way, items: seq<Item>, contents: seq<seq<byte>>)
    requires StoredAs(way, items, contents)
    ensures way.Usable() && AllGenuine(way.codec, way.plain, way.blockLog, items)
  {
  }

  lemma FirstIsReady(f: Format, blockLog: nat, way: Way, check: bool, disk: seq<byte>, sb: SuperBlock, x: Contents, node: Node,
                     src: Source, scratch: seq<byte>)
    requires |scratch| == EMPTY_STORED && IsMade(f, blockLog, disk, sb, x, node, src, scratch)
    requires src.Folder? && src.Possible() && src.SmallFolders() && SizesFit(f.order, x.items, node) && RootFits(f.order, x.items)
    requires StoredAs(way, x.items, src.FileContents()) && (check ==> Agree(way.KeepAll(src.FileContents())))
    requires AllOwn(x.items) <==> !check || Agree(way.KeepAll(src.FileContents()))
    requires AllInBounds(x.items) <==> !check || EnoughServed(way.KeepAll(src.FileContents()), 0)
    requires ReadsExactlyIf(f, blockLog, disk, sb, src,
                            SizesFit(f.order, x.items, node) && (!check || Agree(way.KeepAll(src.FileContents()))))
    requires RootFits(f.order, x.items) && AllInBounds(x.items) ==> Appendable(f, blockLog, disk, sb, x)
    ensures Ready(f, blockLog, way, disk, sb, x, node, src, src.FileContents())
  {
    hide Image, Built, AllWellFormed, NumberAt, ReadBack, Survives, Source.Possible, Source.SmallFolders, SizesFit,
      RootFits, Agree, OwnServed, EnoughServed, AllOwn, AllInBounds, Appendable, ReadImage, Source.Height,
      Source.AsStored, Way.Keep, StoredAs, Source.FileContents, Source.Ordinary;
    StoredIsUsable(way, x.items, src.FileContents());
    if check {
      assert src.FileContents() + [] == src.FileContents();
      AgreeServes(way, src.FileContents(), []);
    }
  }

  lemma NextIsReady(f: Format, blockLog: nat, way: Way, check: bool, disk: seq<byte>, sb: SuperBlock, x: Contents, oldNode: Node,
                    former: Source, contents: seq<seq<byte>>, newDisk: seq<byte>, newSb: SuperBlock, y: Contents, node: Node,
                    src: Source, scratch: seq<byte>)
    requires |scratch| == EMPTY_STORED && Ready(f, blockLog, way, disk, sb, x, oldNode, former, contents)
    requires way.codec == f.codec && way.blockLog == blockLog && src.Folder? && src.SmallFolders()
    requires AllWellFormed(InodesOf(x.items), blockLog)
    requires
      Extends(f, blockLog, disk, sb, x, way, check, false, newDisk, newSb, y, node, Joined(former, false, [], src), src, scratch)
    requires KeepsLimits(f, y, scratch) && former.children != []
    requires FirstNames(former, false, []) + src.NamesOfFirst(|src.children|) < 0x8_0000
    requires check ==> way.Usable() && Agree(way.KeepAll(contents + src.FileContents()))
    ensures Ready(f, blockLog, way, newDisk, newSb, y, node, Joined(former, false, [], src), contents + src.FileContents())
  {
    hide Image, Built, AllWellFormed, NumberAt, ReadBack, Survives, Source.Possible, Source.SmallFolders, SizesFit,
      RootFits, Agree, OwnServed, EnoughServed, AllOwn, AllInBounds, Appendable, ReadImage, Source.Height,
      Source.AsStored, Way.Keep, StoredAs, Source.FileContents, ShowsAll, HoldsTree, KeepsLimits, FirstNames,
      Source.NamesOfFirst, PriorOf, EncodeAll, AllGenuine, Source.Ordinary;
    var whole := Joined(former, false, [], src);
    JoinedIsSmall(former, false, [], src);
    assert whole.children[0] == KeptChildren(former)[0];
    StoredIsUsable(way, x.items, contents);
    if check {
      AgreeServes(way, contents, src.FileContents());
    }
    assert StoredAs(way, x.items, contents) && AllOwn(x.items);
  }

  lemma ReadyParts(f: Format, blockLog: nat, way: Way, disk: seq<byte>, sb: SuperBlock, x: Contents, node: Node, src: Source,
                   contents: seq<seq<byte>>)
    requires Ready(f, blockLog, way, disk, sb, x, node, src, contents)
    ensures Appendable(f, blockLog, disk, sb, x) && AllWellFormed(InodesOf(x.items), blockLog) && sb.fragments == |x.entries|
    ensures Built(f, blockLog, x.items, node, src) && node.k == |x.items| - 1 && src.Folder? && src.Possible()
    ensures src.SmallFolders()
  {
    hide Built, AllWellFormed, Source.Possible, Source.SmallFolders, AllOwn, StoredAs, ReadImage, Source.Height,
      Source.AsStored, Holding, BlocksStand, BothTables, EncodeAll, Rooted, ReadBack, AllInBounds, Source.Ordinary;
  }

  lemma ReadyIsWhole(f: Format, blockLog: nat, way: Way, disk: seq<byte>, sb: SuperBlock, x: Contents, node: Node, src: Source,
                     contents: seq<seq<byte>>)
    requires Ready(f, blockLog, way, disk, sb, x, node, src, contents) && src.Ordinary()
    ensures forall depth :: depth >= src.Height() ==> ReadImage(f, blockLog, disk, sb, depth) == Some(src)
  {
    hide Built, AllWellFormed, Source.Possible, Source.SmallFolders, AllOwn, StoredAs, ReadImage, Source.Height,
      Source.AsStored, Source.Ordinary, Appendable;
  }

  lemma FirstOfAll(src: Source, blockLog: nat)
    requires src.Folder?
    ensures SizesOfAll(src, [], blockLog) == Sizes(0, 0, SUPER_BYTES).Plus(src.Cost(blockLog))
    ensures FragmentsOfAll(src, []) == src.Files() + 1
    ensures JoinedAll(src, []) == src && ContentsOfAll(src, []) == src.FileContents()
  {
    hide Source.Cost, Source.Files, Source.FileContents;
  }

  lemma StillHasChild(former: Source, src: Source)
    requires former.Folder? && src.Folder? && former.children != []
    ensures Joined(former, false, [], src).children != []
  {
    assert Joined(former, false, [], src).children[0] == KeptChildren(former)[0];
  }

  /** A new image and any number of appends, all with the same options: if there is room for what all sources add at most, no
      directory becomes too large, and either duplicates are not looked for or any two of all files with the same stored bytes
      and the same tail have the same block list, then every run succeeds, and the last image reads back as the tree that all
      sources make together. */
  method CreateAndAppend(f: Format, blockLog: nat, plainData: bool, plainFragments: bool, noFragments: bool, alwaysFragments: bool,
                         checkDuplicates: bool, beyond: seq<byte>, src: Source, more: seq<Source>,
                         memory: nat -> seq<nat> -> nat -> nat, scratch: seq<byte>)
    returns (a: Archive, sb: SuperBlock, ghost node: Node)
    requires f.codec.Faithful() && Pow2(blockLog) <= 0x1_0000 && |scratch| == EMPTY_STORED && |beyond| >= REG_BYTES
    requires src.Folder? && src.Possible() && src.SmallFolders() && src.children != [] && AllFolders(more)
    requires forall k :: 0 <= k < |more| ==> more[k].Possible() && more[k].SmallFolders()
    requires Modest(SizesOfAll(src, more, blockLog), FragmentsOfAll(src, more)) && NamesOfAll(src, more) < 0x8_0000
    requires checkDuplicates ==>
      Agree(Way(f.codec, blockLog, plainData, noFragments, alwaysFragments).KeepAll(ContentsOfAll(src, more)))
    ensures fresh(a) && a.data.fragments <= |a.data.fragmentTable|
    ensures Ready(f, blockLog, Way(f.codec, blockLog, plainData, noFragments, alwaysFragments), a.data.disk, sb, a.Present(), node,
                  JoinedAll(src, more), ContentsOfAll(src, more))
    ensures AllOrdinary(src, more) ==>
      var last := if more == [] then src else more[|more| - 1];
      var whole := Folder(ChildrenOfAll(src, more), last.c, last.mtime);
      forall depth :: depth >= whole.Height() ==> ReadImage(f, blockLog, a.data.disk, sb, depth) == Some(whole)
  {
    hide Image, Built, AllWellFormed, NumberAt, ReadBack, Survives, Source.Possible, Source.SmallFolders, SizesFit,
      RootFits, Agree, OwnServed, EnoughServed, AllOwn, AllInBounds, Appendable, ReadImage, Source.Height,
      Source.AsStored, Way.Keep, StoredAs, Source.FileContents, Source.Files, Source.Cost, KeepsLimits, FirstNames,
      Source.NamesOfFirst, EncodeAll, SizesOfAll, FragmentsOfAll, NamesOfAll, JoinedAll, ContentsOfAll, Joined,
      IsMade, Ready, Extends, Outcome, Framed, Roomy, SameBelow, ReadsExactlyIf, WithoutRoot, Source.Ordinary,
      AllOrdinary, ChildrenOfAll;
    ghost var way := Way(f.codec, blockLog, plainData, noFragments, alwaysFragments);
    var ok;
    assert more[..0] == [] && more[..|more|] == more;
    FirstOfAll(src, blockLog);
    EarlierIsSmaller(src, more, 0, |more|, blockLog);
    ghost var most, n := SizesOfAll(src, more, blockLog), FragmentsOfAll(src, more);
    LessIsModest(SizesOfAll(src, [], blockLog), FragmentsOfAll(src, []), most, n);
    ok, a, sb, node := CreateImage(f, blockLog, plainData, plainFragments, noFragments, alwaysFragments, checkDuplicates, src,
                                   memory(0), scratch);
    if checkDuplicates {
      AgreeEarlier(way, src.FileContents(), ContentsOfAll(src, more));
    }
    FirstIsReady(f, blockLog, way, checkDuplicates, a.data.disk, sb, a.Present(), node, src, scratch);
    for k := 0 to |more|
      invariant fresh(a) && a.data.fragments <= |a.data.fragmentTable| && AllFolders(more[..k])
      invariant Ready(f, blockLog, way, a.data.disk, sb, a.Present(), node, JoinedAll(src, more[..k]),
                      ContentsOfAll(src, more[..k]))
      invariant AllWellFormed(InodesOf(a.items), blockLog)
      invariant SizesOf(f, blockLog, sb, a.Present()).AtMost(SizesOfAll(src, more[..k], blockLog))
      invariant a.data.fragments <= FragmentsOfAll(src, more[..k])
      invariant JoinedAll(src, more[..k]).children != []
    {
      ghost var former, contents := JoinedAll(src, more[..k]), ContentsOfAll(src, more[..k]);
      ghost var x, disk, was, oldNode := a.Present(), a.data.disk, sb, node;
      NextJoined(src, more, k, blockLog);
      EarlierIsSmaller(src, more, k + 1, |more|, blockLog);
      ReadyParts(f, blockLog, way, disk, was, x, oldNode, former, contents);
      LessIsModest(JoinedSizes(f, blockLog, was, x, former, false, [], more[k]), was.fragments + more[k].Files() + 1, most, n);
      ok, a, sb, node :=
        AppendSources(f, blockLog, a.data.disk, sb, false, [], plainData, plainFragments, noFragments, alwaysFragments,
                      checkDuplicates, beyond, more[k], memory(k + 1), scratch, x, oldNode, former);
      if checkDuplicates {
        AgreeEarlier(way, contents + more[k].FileContents(), ContentsOfAll(src, more));
      }
      NextIsReady(f, blockLog, way, checkDuplicates, disk, was, x, oldNode, former, contents, a.data.disk, sb, a.Present(), node,
                  more[k], scratch);
      StillHasChild(former, more[k]);
    }
    if AllOrdinary(src, more) {
      JoinedAllKeepsAll(src, more);
      ReadyIsWhole(f, blockLog, way, a.data.disk, sb, a.Present(), node, JoinedAll(src, more), ContentsOfAll(src, more));
    }
  }
}
