/** Whole file systems: the tree of sources, the inodes built for it, and a reader that follows the numbers from the
    root through inodes, listings, blocks and fragments. */
module Trees {
  import opened Wrappers

  import opened Appending
  import opened Archives
  import opened Bits
  import opened BitFields
  import opened DataStore
  import opened Directories
  import opened Duplicates
  import opened FileBlocks
  import opened FragmentTable
  import opened Inodes
  import opened Items
  import opened MetadataBlocks
  import opened MetadataStream
  import opened Room

  // ---- sources ----

  function CutName(name: seq<byte>): seq<byte> {
    if |name| > NAME_LEN then name[..NAME_LEN] else name
  }

  datatype Source =
    | Special(inode: Inode)                                        // link, device, pipe, socket
    | Regular(content: seq<byte>, c: Common, mtime: nat)
    | Folder(children: seq<Child>, c: Common, mtime: nat)
  {
    predicate Possible() {
      match this
      case Special(inode) => inode.Storable() && !inode.File? && !inode.Directory?
      case Regular(_, c, mtime) => c.InRange() && Fits(mtime, 32)
      case Folder(children, c, mtime) =>
        && c.InRange() && Fits(mtime, 32)
        && forall j :: 0 <= j < |children| ==> children[j].name != [] && children[j].node.Possible()
    }

    function Kind(): nat {
      match this
      case Special(inode) => inode.TypeCode()
      case Regular(_, _, _) => FILE_TYPE
      case Folder(_, _, _) => DIR_TYPE
    }

    /** What an image can hold of a source: names are cut at 256 bytes, files at 2 GiB. */
    function AsStored(): Source {
      match this
      case Special(_) => this
      case Regular(content, c, mtime) => Regular(content[..ReadSize(|content|)], c, mtime)
      case Folder(children, c, mtime) =>
        Folder(seq(|children|, j requires 0 <= j < |children| => Child(CutName(children[j].name), children[j].node.AsStored())),
               c, mtime)
    }

    /** No directory has more than 1993 children. */
    predicate FewChildren() {
      Folder? ==> |children| <= 1993 && forall j :: 0 <= j < |children| ==> children[j].node.FewChildren()
    }

    /** An image can hold all of it: no file is longer than 2^31 bytes, no name longer than 256. */
    predicate Ordinary() {
      match this
      case Special(_) => true
      case Regular(content, _, _) => |content| <= 0x8000_0000
      case Folder(children, _, _) =>
        forall j :: 0 <= j < |children| ==> |children[j].name| <= 256 && children[j].node.Ordinary()
    }

    /** Levels of directories. */
    function Height(): (h: nat)
      ensures h > 0
      decreases this, if Folder? then |children| + 1 else 0
    {
      1 + if Folder? then HeightOfFirst(|children|) else 0
    }

    function HeightOfFirst(n: nat): nat
      requires Folder? && n <= |children|
      decreases this, n
    {
      if n == 0 then 0
      else
        var h, last := HeightOfFirst(n - 1), children[n - 1].node.Height();
        if h > last then h else last
    }

    /** Number of regular files. */
    function Files(): nat
      decreases this, if Folder? then |children| + 1 else 0
    {
      match this
      case Special(_) => 0
      case Regular(_, _, _) => 1
      case Folder(_, _, _) => FilesOfFirst(|children|)
    }

    function FilesOfFirst(n: nat): nat
      requires Folder? && n <= |children|
      decreases this, n
    {
      if n == 0 then 0 else FilesOfFirst(n - 1) + children[n - 1].node.Files()
    }

    /** The contents of its regular files, in order. */
    function FileContents(): seq<seq<byte>>
      decreases this, if Folder? then |children| + 1 else 0
    {
      match this
      case Special(_) => []
      case Regular(content, _, _) => [content]
      case Folder(_, _, _) => ContentsOfFirst(|children|)
    }

    function ContentsOfFirst(n: nat): seq<seq<byte>>
      requires Folder? && n <= |children|
      decreases this, n
    {
      if n == 0 then [] else ContentsOfFirst(n - 1) + children[n - 1].node.FileContents()
    }

    /** What it adds to an image at most. */
    function Cost(blockLog: nat): Sizes
      decreases this, if Folder? then |children| + 1 else 0
    {
      match this
      case Special(inode) => Sizes(InodeBytes(inode), 0, 0)
      case Regular(content, _, _) => FileCost(content, blockLog)
      case Folder(_, _, _) => CostOfFirst(|children|, blockLog).Plus(Sizes(DIR_BYTES, NamesOfFirst(|children|), 0))
    }

    function CostOfFirst(n: nat, blockLog: nat): Sizes
      requires Folder? && n <= |children|
      decreases this, n
    {
      if n == 0 then Sizes(0, 0, 0) else CostOfFirst(n - 1, blockLog).Plus(children[n - 1].node.Cost(blockLog))
    }

    /** The most that the first n children take in their directory's listing. */
    function NamesOfFirst(n: nat): nat
      requires Folder? && n <= |children|
    {
      if n == 0 then 0 else NamesOfFirst(n - 1) + DIR_HEADER_BYTES + DIR_ENTRY_BYTES + |CutName(children[n - 1].name)|
    }

    /** No directory is too large for its inode. */
    predicate SmallFolders() {
      Folder? ==>
        && NamesOfFirst(|children|) < 0x8_0000
        && forall j :: 0 <= j < |children| ==> children[j].node.SmallFolders()
    }
  }

  datatype Child = Child(name: seq<byte>, node: Source)

  lemma {:induction false} HeightOfChild(src: Source, n: nat, j: nat)
    requires src.Folder? && j < n <= |src.children|
    ensures src.children[j].node.Height() <= src.HeightOfFirst(n)
  {
    if j == n - 1 {
    } else {
      HeightOfChild(src, n - 1, j);
    }
  }

  /** The type that a directory entry gives for a source. */
  lemma KindIsTypeCode(src: Source)
    requires src.Possible()
    ensures src.Kind() ==
      match src
      case Regular(_, _, _) => 2
      case Folder(_, _, _) => 1
      case Special(i) =>
        if i.Symlink? then 3 else if i.Device? then if i.isChar then 5 else 4 else if i.Ipc? && i.isSocket then 7 else 6
  {
  }

  lemma {:induction false} NamesAreLimited(src: Source, n: nat)
    requires src.Folder? && n <= |src.children|
    ensures src.NamesOfFirst(n) <= 263 * n
  {
    if n == 0 {
    } else {
      NamesAreLimited(src, n - 1);
    }
  }

  /** Directories of at most 1993 children are not too large, whatever the names. */
  lemma {:induction false} FewChildrenAreSmall(src: Source)
    requires src.FewChildren()
    ensures src.SmallFolders()
    decreases src
  {
    if src.Folder? {
      NamesAreLimited(src, |src.children|);
      forall j | 0 <= j < |src.children|
        ensures src.children[j].node.SmallFolders()
      {
        FewChildrenAreSmall(src.children[j].node);
      }
    }
  }

  lemma CutNameKeeps(name: seq<byte>)
    ensures CutName(name) == name <==> |name| <= 256
    ensures |name| > 256 ==> CutName(name) == name[..256]
  {
  }

  lemma ReadsWhole(content: seq<byte>)
    ensures content[..ReadSize(|content|)] == content <==> |content| <= 0x8000_0000
    ensures |content| > 0x8000_0000 ==> ReadSize(|content|) == 0x8000_0000
  {
    if |content| <= 0x8000_0000 {
      assert content[..|content|] == content;
    }
  }

  /** A source is stored as it is exactly if it has no file of more than 2^31 bytes and no name of more than 256. */
  lemma {:induction false} OrdinaryIsStoredWhole(src: Source)
    ensures src.AsStored() == src <==> src.Ordinary()
    decreases src
  {
    hide CutName, ReadSize;
    match src {
      case Special(_) =>
      case Regular(content, c, mtime) => ReadsWhole(content);
      case Folder(children, c, mtime) =>
        forall j | 0 <= j < |children|
          ensures src.AsStored().children[j] == children[j] <==> |children[j].name| <= 256 && children[j].node.Ordinary()
        {
          CutNameKeeps(children[j].name);
          OrdinaryIsStoredWhole(children[j].node);
        }
        if src.Ordinary() {
          assert src.AsStored().children == children;
        }
    }
  }

  // ---- what was built for a source ----

  /** Which inodes were made for the nodes of a tree. */
  datatype Node = Leaf(k: nat) | Branch(k: nat, children: seq<Node>)

  /** What add_dir is told about a child. */
  function EntryFor(f: Format, blockLog: nat, items: seq<Item>, node: Node, child: Child): Entry
    requires AllWellFormed(InodesOf(items), blockLog) && node.k < |items|
  {
    Entry(child.name, NumberAt(f, blockLog, items, node.k), child.node.Kind())
  }

  /** Each node has an inode of its kind, and a directory lists its children, which were made before it, by name,
      number and type. */
  ghost predicate Built(f: Format, blockLog: nat, items: seq<Item>, node: Node, src: Source)
    requires AllWellFormed(InodesOf(items), blockLog)
    decreases src
  {
    node.k < |items|
    && var i := items[node.k];
    match src
    case Special(inode) => node.Leaf? && i == Plain(inode)
    case Regular(content, c, mtime) =>
      node.Leaf? && i.Held? && i.content == content && i.inode.File? && i.inode.c == c && i.inode.mtime == mtime
    case Folder(children, c, mtime) =>
      && node.Branch? && i.Listed? && i.inode.Directory? && i.inode.c == c && i.inode.mtime == mtime
      && |node.children| == |children| == |Flatten(i.runs)|
      && forall j :: 0 <= j < |children| ==>
           && node.children[j].k < node.k && Built(f, blockLog, items, node.children[j], children[j].node)
           && Flatten(i.runs)[j] == EntryFor(f, blockLog, items, node.children[j], children[j])
  }

  lemma EntryForStays(f: Format, blockLog: nat, items: seq<Item>, later: seq<Item>, node: Node, child: Child)
    requires items <= later && node.k < |items| && AllWellFormed(InodesOf(later), blockLog)
    ensures AllWellFormed(InodesOf(items), blockLog)
    ensures EntryFor(f, blockLog, later, node, child) == EntryFor(f, blockLog, items, node, child)
  {
    NumberAtStays(f, blockLog, items, later, node.k);
  }

  lemma {:induction false} BuiltStays(f: Format, blockLog: nat, items: seq<Item>, later: seq<Item>, node: Node, src: Source)
    requires items <= later && AllWellFormed(InodesOf(later), blockLog)
    requires AllWellFormed(InodesOf(items), blockLog) && Built(f, blockLog, items, node, src)
    ensures Built(f, blockLog, later, node, src)
    decreases src
  {
    hide EntryFor, AllWellFormed, Flatten;
    if !src.Folder? {
    } else {
      forall j | 0 <= j < |src.children|
        ensures Built(f, blockLog, later, node.children[j], src.children[j].node)
        ensures Flatten(later[node.k].runs)[j] == EntryFor(f, blockLog, later, node.children[j], src.children[j])
      {
        BuiltStays(f, blockLog, items, later, node.children[j], src.children[j].node);
        EntryForStays(f, blockLog, items, later, node.children[j], src.children[j]);
      }
    }
  }

  /** A tree needs no inodes behind its own. */
  lemma {:induction false} BuiltEarlier(f: Format, blockLog: nat, items: seq<Item>, few: seq<Item>, node: Node, src: Source)
    requires few <= items && AllWellFormed(InodesOf(items), blockLog) && AllWellFormed(InodesOf(few), blockLog)
    requires Built(f, blockLog, items, node, src) && node.k < |few|
    ensures Built(f, blockLog, few, node, src)
    decreases src
  {
    hide EntryFor, AllWellFormed, Flatten;
    if !src.Folder? {
    } else {
      forall j | 0 <= j < |src.children|
        ensures node.children[j].k < node.k && Built(f, blockLog, few, node.children[j], src.children[j].node)
        ensures Flatten(few[node.k].runs)[j] == EntryFor(f, blockLog, few, node.children[j], src.children[j])
      {
        BuiltEarlier(f, blockLog, items, few, node.children[j], src.children[j].node);
        EntryForStays(f, blockLog, few, items, node.children[j], src.children[j]);
      }
    }
  }

  predicate SizeFits(o: Order, i: Item) {
    i.Listed? && AllRuns(i.runs) && |RunsBytes(o, i.runs)| < 0x8_0000
  }

  /** Below this node every file has its own words in its inode, and every directory a size that fits its inode. */
  predicate Intact(o: Order, items: seq<Item>, node: Node) {
    match node
    case Leaf(k) => k < |items| && (items[k].Held? ==> items[k].inode.File? && items[k].inode.blocks == items[k].own)
    case Branch(k, children) =>
      && k < |items| && SizeFits(o, items[k])
      && forall j :: 0 <= j < |children| ==> Intact(o, items, children[j])
  }

  // ---- the files below a node ----

  predicate SizesFit(o: Order, items: seq<Item>, node: Node) {
    match node
    case Leaf(k) => k < |items|
    case Branch(k, children) =>
      k < |items| && SizeFits(o, items[k]) && forall j :: 0 <= j < |children| ==> SizesFit(o, items, children[j])
  }

  /** The inodes of regular files below this node, in order. */
  function FilesBelow(items: seq<Item>, node: Node): (held: seq<Item>)
    ensures forall k :: 0 <= k < |held| ==> held[k].Held?
    decreases node
  {
    match node
    case Leaf(k) => if k < |items| && items[k].Held? then [items[k]] else []
    case Branch(_, children) => FilesBelowAll(items, children)
  }

  function FilesBelowAll(items: seq<Item>, nodes: seq<Node>): (held: seq<Item>)
    ensures forall k :: 0 <= k < |held| ==> held[k].Held?
    decreases nodes
  {
    if nodes == [] then []
    else FilesBelowAll(items, nodes[..|nodes| - 1]) + FilesBelow(items, nodes[|nodes| - 1])
  }

  predicate HasOwnWords(i: Item) {
    i.Held? ==> i.inode.File? && i.inode.blocks == i.own
  }

  predicate AllHaveOwn(items: seq<Item>) {
    forall k :: 0 <= k < |items| ==> HasOwnWords(items[k])
  }

  lemma {:induction false} FilesBelowConcat(items: seq<Item>, a: seq<Node>, b: seq<Node>)
    ensures FilesBelowAll(items, a + b) == FilesBelowAll(items, a) + FilesBelowAll(items, b)
  {
    hide FilesBelow;
    if b == [] {
      assert a + b == a;
    } else {
      var n := |b| - 1;
      assert (a + b)[..|a + b| - 1] == a + b[..n];
      FilesBelowConcat(items, a, b[..n]);
    }
  }

  lemma OneFileBelow(items: seq<Item>, node: Node)
    ensures FilesBelowAll(items, [node]) == FilesBelow(items, node)
  {
    hide FilesBelow;
    assert [node][..0] == [];
  }

  lemma AllOwnConcat(a: seq<Item>, b: seq<Item>)
    ensures AllHaveOwn(a + b) <==> AllHaveOwn(a) && AllHaveOwn(b)
  {
    hide HasOwnWords;
    if AllHaveOwn(a + b) {
      assert forall k :: 0 <= k < |a| ==> a[k] == (a + b)[k];
      assert forall k :: 0 <= k < |b| ==> b[k] == (a + b)[|a| + k];
    }
  }

  /** Intact means that all sizes fit and all files have their own words. */
  lemma {:induction false} IntactMeans(o: Order, items: seq<Item>, node: Node)
    ensures Intact(o, items, node) <==> SizesFit(o, items, node) && AllHaveOwn(FilesBelow(items, node))
    decreases node
  {
    hide RunsBytes, SizeFits;
    match node {
      case Leaf(k) =>
        if k < |items| && items[k].Held? {
          assert FilesBelow(items, node)[0] == items[k];
        }
      case Branch(k, children) => IntactMeansAll(o, items, children);
    }
  }

  lemma {:induction false} IntactMeansAll(o: Order, items: seq<Item>, nodes: seq<Node>)
    ensures (forall j :: 0 <= j < |nodes| ==> Intact(o, items, nodes[j]))
      <==> (forall j :: 0 <= j < |nodes| ==> SizesFit(o, items, nodes[j])) && AllHaveOwn(FilesBelowAll(items, nodes))
    decreases nodes
  {
    hide RunsBytes, Intact, SizesFit, FilesBelow, HasOwnWords;
    if nodes == [] {
    } else {
      var n := |nodes| - 1;
      var front, last := nodes[..n], nodes[n];
      IntactMeansAll(o, items, front);
      IntactMeans(o, items, last);
      AllOwnConcat(FilesBelowAll(items, front), FilesBelow(items, last));
      assert forall j :: 0 <= j < n ==> front[j] == nodes[j];
    }
  }

  function ContentsOf(held: seq<Item>): (contents: seq<seq<byte>>)
    requires forall k :: 0 <= k < |held| ==> held[k].Held?
    ensures |contents| == |held|
  {
    seq(|held|, k requires 0 <= k < |held| => held[k].content)
  }

  /** The files below a node are those of its source. */
  lemma {:induction false} BuiltContents(f: Format, blockLog: nat, items: seq<Item>, node: Node, src: Source)
    requires AllWellFormed(InodesOf(items), blockLog) && Built(f, blockLog, items, node, src)
    ensures ContentsOf(FilesBelow(items, node)) == src.FileContents()
    decreases src, if src.Folder? then |src.children| + 1 else 0
  {
    hide AllWellFormed, EntryFor, Flatten, FilesBelowAll;
    if !src.Folder? {
    } else {
      BuiltContentsOfFirst(f, blockLog, items, node, src, |src.children|);
      assert node.children[..|src.children|] == node.children;
    }
  }

  lemma {:induction false} BuiltContentsOfFirst(f: Format, blockLog: nat, items: seq<Item>, node: Node, src: Source, n: nat)
    requires AllWellFormed(InodesOf(items), blockLog) && src.Folder? && Built(f, blockLog, items, node, src)
    requires node.Branch? && n <= |src.children| == |node.children|
    ensures ContentsOf(FilesBelowAll(items, node.children[..n])) == src.ContentsOfFirst(n)
    decreases src, n
  {
    hide AllWellFormed, EntryFor, Flatten, FilesBelow;
    if n == 0 {
    } else {
      BuiltContentsOfFirst(f, blockLog, items, node, src, n - 1);
      BuiltContents(f, blockLog, items, node.children[n - 1], src.children[n - 1].node);
      assert node.children[..n][..n - 1] == node.children[..n - 1];
    }
  }

  /** Later inodes do not change them. */
  lemma {:induction false} FilesBelowStay(f: Format, blockLog: nat, items: seq<Item>, later: seq<Item>, node: Node, src: Source)
    requires items <= later && AllWellFormed(InodesOf(items), blockLog) && Built(f, blockLog, items, node, src)
    ensures FilesBelow(later, node) == FilesBelow(items, node)
    decreases src, if src.Folder? then |src.children| + 1 else 0
  {
    hide AllWellFormed, EntryFor, Flatten, FilesBelowAll;
    if !src.Folder? {
    } else {
      FilesBelowFirstStay(f, blockLog, items, later, node, src, |src.children|);
      assert node.children[..|src.children|] == node.children;
    }
  }

  lemma {:induction false} FilesBelowFirstStay(f: Format, blockLog: nat, items: seq<Item>, later: seq<Item>, node: Node,
                                               src: Source, n: nat)
    requires items <= later && AllWellFormed(InodesOf(items), blockLog) && src.Folder? && Built(f, blockLog, items, node, src)
    requires node.Branch? && n <= |src.children| == |node.children|
    ensures FilesBelowAll(later, node.children[..n]) == FilesBelowAll(items, node.children[..n])
    decreases src, n
  {
    hide AllWellFormed, EntryFor, Flatten, FilesBelow;
    if n == 0 {
    } else {
      FilesBelowFirstStay(f, blockLog, items, later, node, src, n - 1);
      FilesBelowStay(f, blockLog, items, later, node.children[n - 1], src.children[n - 1].node);
      assert node.children[..n][..n - 1] == node.children[..n - 1];
    }
  }

  lemma {:induction false} ListingOfChildren(f: Format, blockLog: nat, items: seq<Item>, nodes: seq<Node>, src: Source,
                                             entries: seq<Entry>, n: nat)
    requires AllWellFormed(InodesOf(items), blockLog) && src.Folder? && |entries| == |nodes| == |src.children| && n <= |entries|
    requires forall j :: 0 <= j < |entries| ==>
      nodes[j].k < |items| && entries[j] == EntryFor(f, blockLog, items, nodes[j], src.children[j])
    ensures ListingLimit(entries[..n]) == src.NamesOfFirst(n)
  {
    hide AllWellFormed, NumberAt, Source.Kind;
    if n == 0 {
    } else {
      ListingOfChildren(f, blockLog, items, nodes, src, entries, n - 1);
      assert entries[..n][..n - 1] == entries[..n - 1];
    }
  }

  /** If no directory of the source is too large, none in the image is. */
  lemma {:induction false} SmallFoldersFit(f: Format, blockLog: nat, items: seq<Item>, node: Node, src: Source)
    requires AllWellFormed(InodesOf(items), blockLog) && Built(f, blockLog, items, node, src) && src.SmallFolders()
    requires forall k :: 0 <= k < |items| && items[k].Listed? ==> AllRuns(items[k].runs)
    ensures SizesFit(f.order, items, node)
    decreases src
  {
    hide AllWellFormed, EntryFor, Flatten, RunsBytes, IsRun, ListingLimit;
    if !src.Folder? {
    } else {
      var entries := Flatten(items[node.k].runs);
      forall j | 0 <= j < |src.children|
        ensures SizesFit(f.order, items, node.children[j]) && node.children[j].k < |items|
      {
        SmallFoldersFit(f, blockLog, items, node.children[j], src.children[j].node);
      }
      ListingOfChildren(f, blockLog, items, node.children, src, entries, |entries|);
      assert entries[..|entries|] == entries;
      RunsAreLimited(f.order, items[node.k].runs);
    }
  }

  // ---- the reader ----

  /** All fields of a header. */
  function Fields(o: Order, data: seq<byte>, at: nat, bytes: nat, layout: seq<Field>): (v: seq<nat>)
    requires at + bytes <= |data| && forall k :: 0 <= k < |layout| ==> layout[k].Within(bytes)
    ensures |v| == |layout|
  {
    seq(|layout|, k requires 0 <= k < |layout| => Get(o, data[at..at + bytes], layout[k]))
  }

  function ReadFile(o: Order, data: seq<byte>, at: nat, blockLog: nat, c: Common): Option<Inode> {
    LayoutsAreSound();
    if at + REG_BYTES > |data| then None
    else
      var v := Fields(o, data, at, REG_BYTES, REG_LAYOUT);
      var n := BlockCount(v[8], v[6], blockLog);
      if at + REG_BYTES + 4 * n > |data| then None
      else Some(File(c, v[4], v[5], v[6], v[7], v[8], ReadInts(o, data, at + REG_BYTES, n)))
  }

  /** The inode at `at`. */
  function ReadInode(o: Order, data: seq<byte>, at: nat, blockLog: nat): Option<Inode> {
    LayoutsAreSound();
    if at + BASE_BYTES > |data| then None
    else
      var v := Fields(o, data, at, BASE_BYTES, BASE_LAYOUT);
      var c := Common(v[1], v[2], v[3]);
      if v[0] == FILE_TYPE then ReadFile(o, data, at, blockLog, c)
      else if v[0] == DIR_TYPE then
        if at + DIR_BYTES > |data| then None
        else
          var d := Fields(o, data, at, DIR_BYTES, DIR_LAYOUT);
          Some(Inode.Directory(c, d[4], d[5], d[6], d[7]))
      else if v[0] == SYMLINK_TYPE then
        if at + SYMLINK_BYTES > |data| then None
        else
          var n := Fields(o, data, at, SYMLINK_BYTES, SYMLINK_LAYOUT)[4];
          var first := at + SYMLINK_BYTES;
          if first + n > |data| then None else Some(Symlink(c, data[first..first + n]))
      else if v[0] == BLKDEV_TYPE || v[0] == CHRDEV_TYPE then
        if at + DEV_BYTES > |data| then None
        else Some(Device(c, v[0] == CHRDEV_TYPE, Fields(o, data, at, DEV_BYTES, DEV_LAYOUT)[4]))
      else if v[0] == FIFO_TYPE || v[0] == SOCKET_TYPE then Some(Ipc(c, v[0] == SOCKET_TYPE))
      else None
  }

  /** A header is read field by field. */
  lemma FieldsReadBack(o: Order, i: Inode, data: seq<byte>, at: nat)
    requires i.Storable() && Holds(data, at, Encode(o, i))
    ensures at + i.HeaderBytes() <= |data| && IsLayout(i.Layout(), i.HeaderBytes())
    ensures Fields(o, data, at, i.HeaderBytes(), i.Layout()) == i.Values()
  {
    hide Get, Pack, Holds, Fits;
    LayoutsAreSound();
    var header := Pack(o, i.HeaderBytes(), i.Layout(), i.Values());
    HoldsConcat(data, at, header, i.Tail(o));
    HoldsSlice(data, at, header);
    forall k | 0 <= k < |i.Layout()|
      ensures Get(o, header, i.Layout()[k]) == i.Values()[k]
    {
      PackRoundTrip(o, i.HeaderBytes(), i.Layout(), i.Values(), k);
    }
  }

  /** The part common to all types. */
  lemma BaseReadsBack(o: Order, i: Inode, data: seq<byte>, at: nat)
    requires i.Storable() && Holds(data, at, Encode(o, i))
    ensures at + BASE_BYTES <= |data| && IsLayout(BASE_LAYOUT, BASE_BYTES)
    ensures Fields(o, data, at, BASE_BYTES, BASE_LAYOUT) == [i.TypeCode(), i.c.mode, i.c.uid, i.c.guid]
  {
    hide Get, Holds, Encode, Fits, Inode.Storable;
    LayoutsAreSound();
    FieldsReadBack(o, i, data, at);
    var n := i.HeaderBytes();
    var few, all := data[at..at + BASE_BYTES], data[at..at + n];
    forall j | 0 <= j < BASE_BYTES
      ensures few[j] == all[j]
    {
    }
    forall k | 0 <= k < 4
      ensures Get(o, few, BASE_LAYOUT[k]) == i.Values()[k]
    {
      var fd := BASE_LAYOUT[k];
      assert i.Layout()[k] == fd;
      assert Fields(o, data, at, n, i.Layout())[k] == Get(o, all, fd);
      GetLocal(o, few, all, fd);
    }
  }

  lemma EncodeParts(o: Order, i: Inode)
    requires i.Storable()
    ensures IsLayout(i.Layout(), i.HeaderBytes()) && |i.Values()| == |i.Layout()|
    ensures Encode(o, i) == Pack(o, i.HeaderBytes(), i.Layout(), i.Values()) + i.Tail(o)
  {
    hide Pack, Ints, Fits, FitInts;
    LayoutsAreSound();
  }

  lemma FileReadsBack(o: Order, i: Inode, data: seq<byte>, at: nat, blockLog: nat)
    requires i.File? && i.WellFormed(blockLog) && Holds(data, at, Encode(o, i))
    ensures ReadFile(o, data, at, blockLog, i.c) == Some(i)
  {
    hide Get, Holds, Pack, Fits, InRange, Fields, ReadInts, Ints, BlockCount, FitInts, IsLayout, Encode;
    LayoutsAreSound();
    FieldsReadBack(o, i, data, at);
    EncodeParts(o, i);
    HoldsConcat(data, at, Pack(o, REG_BYTES, REG_LAYOUT, i.Values()), Ints(o, i.blocks));
    HoldsBound(data, at + REG_BYTES, Ints(o, i.blocks));
    IntsRoundTrip(o, data, at + REG_BYTES, i.blocks);
  }

  /** An inode of any type is read back whole. */
  lemma InodeReadsBack(o: Order, i: Inode, data: seq<byte>, at: nat, blockLog: nat)
    requires i.WellFormed(blockLog) && Holds(data, at, Encode(o, i))
    ensures ReadInode(o, data, at, blockLog) == Some(i)
  {
    hide Get, Holds, Pack, Fits, InRange, Fields, ReadInts, Ints, BlockCount, FitInts, IsLayout, Encode;
    LayoutsAreSound();
    FieldsReadBack(o, i, data, at);
    BaseReadsBack(o, i, data, at);
    match i {
      case File(_, _, _, _, _, _, blocks) => FileReadsBack(o, i, data, at, blockLog);
      case Directory(_, _, _, _, _) =>
      case Device(_, _, _) =>
      case Symlink(_, target) =>
        EncodeParts(o, i);
        HoldsConcat(data, at, Pack(o, SYMLINK_BYTES, SYMLINK_LAYOUT, i.Values()), target);
        HoldsSlice(data, at + SYMLINK_BYTES, target);
      case Ipc(_, _) =>
    }
  }

  /** The inode that a number leads to. */
  function InodeAt(f: Format, blockLog: nat, disk: seq<byte>, sb: SuperBlock, number: nat): Option<Inode> {
    match DecodeStream(f, disk, sb.inodeStart + number / 0x1_0000, sb.directoryStart)
    case None => None
    case Some(table) => ReadInode(f.order, table, number % 0x1_0000, blockLog)
  }

  /** A file's tail: `size` bytes of a fragment block. */
  function TailAt(f: Format, blockLog: nat, disk: seq<byte>, entries: seq<FragmentEntry>, fr: Fragment): Option<seq<byte>> {
    if fr.size == 0 then Some([])
    else if fr.index >= |entries| then None
    else
      var e := entries[fr.index];
      var stored := StoredSize(e.size, COMPRESSED_BIT_BLOCK);
      if e.start + stored > |disk| then None
      else match Unmangle(f.codec, e.size, disk[e.start..e.start + stored], COMPRESSED_BIT_BLOCK, Pow2(blockLog))
        case None => None
        case Some(block) =>
          if fr.offset + fr.size > |block| then None else Some(block[fr.offset..fr.offset + fr.size])
  }

  /** The content of a file: its blocks and its tail. */
  function FileData(f: Format, blockLog: nat, disk: seq<byte>, entries: seq<FragmentEntry>, i: Inode): Option<seq<byte>>
    requires i.File?
  {
    if i.start > |disk| then None
    else
      var front := LoadBlocks(f.codec, Pow2(blockLog), i.blocks, disk[i.start..]);
      var tail := TailAt(f, blockLog, disk, entries, FragmentOf(RegisteredOf(i, blockLog)));
      if front.None? || tail.None? then None else Some(front.value + tail.value)
  }

  function ReadChildren(f: Format, blockLog: nat, disk: seq<byte>, sb: SuperBlock, entries: seq<FragmentEntry>,
                        list: seq<Entry>, depth: nat): Option<seq<Child>>
    decreases depth, |list| + 1
  {
    if list == [] then Some([])
    else
      var first := ReadTree(f, blockLog, disk, sb, entries, list[0].inode, depth);
      var rest := ReadChildren(f, blockLog, disk, sb, entries, list[1..], depth);
      if first.None? || rest.None? || first.value.Kind() != list[0].kind then None
      else Some([Child(list[0].name, first.value)] + rest.value)
  }

  /** Everything below a number, at most `depth` levels of it. */
  function ReadTree(f: Format, blockLog: nat, disk: seq<byte>, sb: SuperBlock, entries: seq<FragmentEntry>,
                    number: nat, depth: nat): Option<Source>
    decreases depth, 0
  {
    if depth == 0 then None
    else match InodeAt(f, blockLog, disk, sb, number)
      case None => None
      case Some(i) =>
        match i
        case File(c, mtime, _, _, _, _, _) =>
          (match FileData(f, blockLog, disk, entries, i)
           case None => None
           case Some(content) => Some(Regular(content, c, mtime)))
        case Directory(c, size, offset, mtime, start) =>
          (match Readdir(f, disk, sb.directoryStart + start, offset, size)
           case None => None
           case Some(list) =>
             match ReadChildren(f, blockLog, disk, sb, entries, list, depth - 1)
             case None => None
             case Some(children) => Some(Folder(children, c, mtime)))
        case _ => Some(Special(i))
  }

  // ---- reading what was built ----

  lemma HoldsBehind(s: seq<byte>, b: nat, p: nat, part: seq<byte>)
    requires b <= p && b <= |s| && Holds(s, p, part)
    ensures Holds(s[b..], p - b, part)
  {
    HoldsSlice(s, p, part);
    assert s[b..][p - b..p - b + |part|] == s[p..p + |part|];
    HoldsSlice(s[b..], p - b, part);
  }

  /** The number of an inode leads to it. */
  lemma NumberLeadsTo(f: Format, blockLog: nat, disk: seq<byte>, sb: SuperBlock, x: Contents, k: nat)
    requires Image(f, blockLog, disk, sb, x) && k < |x.items|
    ensures AllWellFormed(InodesOf(x.items), blockLog)
    ensures InodeAt(f, blockLog, disk, sb, NumberAt(f, blockLog, x.items, k)) == Some(x.items[k].inode)
  {
    hide Holding, BlocksStand, EncodeAll, NumberOf, Inode.WellFormed, Encode, DecodeStream, EncodeStream, Holds,
      ReadInode, BlockStart;
    var inodes := InodesOf(x.items);
    var s := EncodeAll(f.order, inodes, blockLog);
    var p := |EncodeAll(f.order, inodes[..k], blockLog)|;
    InodeLies(f.order, inodes, k, blockLog);
    NumberDecodes(f, disk, sb.inodeStart, s, p);
    BlockBehind(p);
    HoldsBehind(s, BlockStart(p), p, Encode(f.order, inodes[k]));
    InodeReadsBack(f.order, inodes[k], s[BlockStart(p)..], p - BlockStart(p), blockLog);
  }

  /** A tail is read through the table of fragment blocks. */
  lemma TailReadsBack(f: Format, blockLog: nat, disk: seq<byte>, bytes: nat, entries: seq<FragmentEntry>,
                      blocks: seq<seq<byte>>, fr: Fragment)
    requires BlocksStand(f.codec, Pow2(blockLog), disk, bytes, entries, blocks) && Placed(blocks + [[]], fr)
    ensures TailAt(f, blockLog, disk, entries, fr) == Some(TailOf(blocks + [[]], fr))
  {
    hide Unmangle, StoredSize;
    if fr.size > 0 {
      assert BlockOnDisk(f.codec, Pow2(blockLog), disk, bytes, entries[fr.index], blocks[fr.index]);
    }
  }

  /** A file that was handed the list of another file is not read back by what it copies from it. */
  lemma ForeignListFails(w: World, plain: bool, i: Item, rest: seq<byte>)
    requires i.Held? && HeldStands(w, i) && Genuine(w.f.codec, plain, w.blockLog, i) && w.f.codec.Faithful()
    requires i.list != i.own
    ensures
      var data := i.content[..ReadSize(|i.content|) - i.fr.size];
      LoadBlocks(w.f.codec, Pow2(w.blockLog), i.inode.blocks, i.stored + rest) != Some(data)
  {
    hide LoadBlocks, StoreBlocks, TotalStored, Located, Low, TailBytes, Pow2;
    var codec, size := w.f.codec, Pow2(w.blockLog);
    var data := i.content[..ReadSize(|i.content|) - i.fr.size];
    var other :| StoreBlocks(codec, plain, size, other) == (i.list, i.stored);
    if |i.list| < |i.own| {
      OverreadFails(codec, plain, size, data, other, i.inode.blocks, rest);
    } else {
      assert i.inode.blocks == i.list[..|i.own|];
      CutListFails(codec, plain, size, data, other);
      LoadIgnoresRest(codec, size, i.inode.blocks, i.stored, rest);
    }
  }

  lemma OwnListIsCopied(w: World, i: Item)
    requires i.Held? && HeldStands(w, i) && i.list == i.own
    ensures i.inode.blocks == i.own
  {
    hide LoadBlocks, TotalStored, Located, Low, TailBytes, Pow2;
  }

  /** The blocks of a file are read back if the inode has the file's own words, and only then if the words are
      those of another file. */
  lemma BlocksReadBack(w: World, plain: bool, i: Item, rest: seq<byte>)
    requires i.Held? && HeldStands(w, i) && w.f.codec.Faithful() && Pow2(w.blockLog) < COMPRESSED_BIT_BLOCK
    ensures
      var data := i.content[..ReadSize(|i.content|) - i.fr.size];
      var front := LoadBlocks(w.f.codec, Pow2(w.blockLog), i.inode.blocks, i.stored + rest);
      && (i.inode.blocks == i.own ==> front == Some(data))
      && (Genuine(w.f.codec, plain, w.blockLog, i) && i.inode.blocks != i.own ==> front != Some(data))
  {
    hide LoadBlocks, TotalStored, Located, Low, TailBytes, Pow2, Genuine;
    if i.inode.blocks == i.own {
      LoadIgnoresRest(w.f.codec, Pow2(w.blockLog), i.own, i.stored, rest);
    } else if Genuine(w.f.codec, plain, w.blockLog, i) {
      if i.list == i.own {
        OwnListIsCopied(w, i);
      } else {
        ForeignListFails(w, plain, i, rest);
      }
    }
  }

  /** An inode has the file's own words exactly if the file was handed its own list. */
  lemma OwnWordsAreHanded(w: World, plain: bool, i: Item)
    requires i.Held? && HeldStands(w, i) && Genuine(w.f.codec, plain, w.blockLog, i) && w.f.codec.Faithful()
    requires Pow2(w.blockLog) < COMPRESSED_BIT_BLOCK
    ensures i.inode.File? && (i.inode.blocks == i.own <==> i.list == i.own)
  {
    hide LoadBlocks, TotalStored, Located, Low, TailBytes, Pow2, Genuine;
    if i.list == i.own {
      OwnListIsCopied(w, i);
    } else {
      BlocksReadBack(w, plain, i, []);
      ForeignListFails(w, plain, i, []);
    }
  }

  lemma SameFront(a: seq<byte>, b: seq<byte>, tail: seq<byte>)
    requires a + tail == b + tail
    ensures a == b
  {
    assert |a| == |b|;
    assert (a + tail)[..|a|] == a && (b + tail)[..|b|] == b;
  }

  /** So is its whole content. */
  lemma ContentReadsBack(f: Format, blockLog: nat, disk: seq<byte>, sb: SuperBlock, x: Contents, plain: bool, k: nat)
    requires Image(f, blockLog, disk, sb, x) && k < |x.items| && x.items[k].Held?
    ensures
      var i := x.items[k];
      && i.inode.File?
      && var read := FileData(f, blockLog, disk, x.entries, i.inode);
      && (i.inode.blocks == i.own ==> read == Some(i.content[..ReadSize(|i.content|)]))
      && (Genuine(f.codec, plain, blockLog, i) && i.inode.blocks != i.own ==> read != Some(i.content[..ReadSize(|i.content|)]))
  {
    hide BothTables, AllWellFormed, EncodeAll, InOrder, BlocksStand, LoadBlocks, TotalStored, Genuine, TailAt,
      TailBytes, FitInts, Placed, TailOf;
    var w, i, size := Around(f, blockLog, disk, sb, x), x.items[k], ReadSize(|x.items[k].content|);
    assert ItemStands(w, i);
    HoldsBound(disk, i.at, i.stored);
    var rest := disk[i.at + |i.stored|..];
    HoldsSlice(disk, i.at, i.stored);
    assert disk[i.at..] == i.stored + rest;
    FitsInt(i.at);
    LowOfFitting(i.at, 32);
    BlocksReadBack(w, plain, i, rest);
    TailReadsBack(f, blockLog, disk, sb.inodeStart, x.entries, x.blocks, i.fr);
    var data, tail := i.content[..size - i.fr.size], i.content[size - i.fr.size..size];
    assert data + tail == i.content[..size];
    var front := LoadBlocks(f.codec, Pow2(blockLog), i.inode.blocks, disk[i.at..]);
    if front.Some? && front.value + tail == i.content[..size] {
      SameFront(front.value, data, tail);
    }
  }

  /** A listing whose entries lead to the children expected. */
  lemma {:induction false} ChildrenReadBack(f: Format, blockLog: nat, disk: seq<byte>, sb: SuperBlock,
                                            entries: seq<FragmentEntry>, list: seq<Entry>, expected: seq<Child>, depth: nat)
    requires |list| == |expected|
    requires forall j :: 0 <= j < |list| ==> list[j].name == expected[j].name && list[j].kind == expected[j].node.Kind()
    requires forall j :: 0 <= j < |list| ==>
      ReadTree(f, blockLog, disk, sb, entries, list[j].inode, depth) == Some(expected[j].node)
    ensures ReadChildren(f, blockLog, disk, sb, entries, list, depth) == Some(expected)
    decreases |list|
  {
    hide ReadTree, Source.Kind;
    if list == [] {
    } else {
      ChildrenReadBack(f, blockLog, disk, sb, entries, list[1..], expected[1..], depth);
      assert ReadTree(f, blockLog, disk, sb, entries, list[0].inode, depth) == Some(expected[0].node);
      assert expected == [expected[0]] + expected[1..];
    }
  }

  /** If these children were read, then through these entries. */
  lemma {:induction false} ChildWasRead(f: Format, blockLog: nat, disk: seq<byte>, sb: SuperBlock,
                                        entries: seq<FragmentEntry>, list: seq<Entry>, read: seq<Child>, depth: nat, j: nat)
    requires ReadChildren(f, blockLog, disk, sb, entries, list, depth) == Some(read) && j < |read|
    ensures j < |list| && ReadTree(f, blockLog, disk, sb, entries, list[j].inode, depth) == Some(read[j].node)
    decreases |list|
  {
    hide ReadTree, Source.Kind;
    if j == 0 {
    } else {
      assert read[1..] == ReadChildren(f, blockLog, disk, sb, entries, list[1..], depth).value;
      ChildWasRead(f, blockLog, disk, sb, entries, list[1..], read[1..], depth, j - 1);
    }
  }

  /** The directory table is small enough for the 24 bits that an inode has for the block. */
  ghost predicate AllReachable(f: Format, x: Contents) {
    forall k :: 0 <= k < |x.items| && x.items[k].Listed? ==>
      && AllRuns(x.items[k].runs) && x.items[k].at <= |x.listings|
      && NumberOf(f, x.listings, x.items[k].at) / 0x1_0000 < 0x100_0000
  }

  /** Below the inode of this node the reader finds this source, as far as an image can hold it. */
  ghost predicate ReadsAs(f: Format, blockLog: nat, disk: seq<byte>, sb: SuperBlock, x: Contents, node: Node, depth: nat,
                          src: Source) {
    && AllWellFormed(InodesOf(x.items), blockLog) && node.k < |x.items|
    && ReadTree(f, blockLog, disk, sb, x.entries, NumberAt(f, blockLog, x.items, node.k), depth) == Some(src.AsStored())
  }

  /** What Built says of a directory, and of one child. */
  lemma BuiltFolder(f: Format, blockLog: nat, items: seq<Item>, node: Node, src: Source)
    requires AllWellFormed(InodesOf(items), blockLog) && src.Folder? && Built(f, blockLog, items, node, src)
    ensures
      var i := items[node.k];
      && node.Branch? && i.Listed? && i.inode.Directory? && i.inode.c == src.c && i.inode.mtime == src.mtime
      && |node.children| == |src.children| == |Flatten(i.runs)|
  {
    hide EntryFor, AllWellFormed, Flatten;
  }

  lemma BuiltChild(f: Format, blockLog: nat, items: seq<Item>, node: Node, src: Source, j: nat)
    requires AllWellFormed(InodesOf(items), blockLog) && src.Folder? && Built(f, blockLog, items, node, src)
    requires j < |src.children|
    ensures node.Branch? && j < |node.children| && node.children[j].k < node.k < |items|
    ensures Built(f, blockLog, items, node.children[j], src.children[j].node)
    ensures
      var i := items[node.k];
      && i.Listed? && j < |Flatten(i.runs)|
      && Flatten(i.runs)[j] == EntryFor(f, blockLog, items, node.children[j], src.children[j])
  {
    hide EntryFor, AllWellFormed, Flatten;
  }

  lemma KindStays(src: Source)
    ensures src.AsStored().Kind() == src.Kind()
  {
  }

  /** The entries of a directory, as read, and the children they should lead to. */
  lemma EntryMatches(f: Format, blockLog: nat, items: seq<Item>, node: Node, src: Source, j: nat)
    requires AllWellFormed(InodesOf(items), blockLog) && src.Folder? && Built(f, blockLog, items, node, src)
    requires j < |src.children|
    ensures node.Branch? && |node.children| == |src.children| && node.children[j].k < |items|
    ensures items[node.k].Listed? && |Flatten(items[node.k].runs)| == |src.children|
    ensures
      var e, child := StoredEntries(Flatten(items[node.k].runs))[j], src.AsStored().children[j];
      && e.name == child.name && e.kind == child.node.Kind() && child.node == src.children[j].node.AsStored()
      && e.inode == NumberAt(f, blockLog, items, node.children[j].k)
  {
    hide AllWellFormed, Flatten, NumberAt, Source.Kind;
    BuiltFolder(f, blockLog, items, node, src);
    BuiltChild(f, blockLog, items, node, src, j);
    hide Built;
    KindStays(src.children[j].node);
  }

  /** A directory is read by following its entries. */
  lemma FolderStep(f: Format, blockLog: nat, disk: seq<byte>, sb: SuperBlock, x: Contents, node: Node, src: Source, depth: nat)
    requires Image(f, blockLog, disk, sb, x) && AllReachable(f, x) && AllWellFormed(InodesOf(x.items), blockLog)
    requires src.Folder? && Built(f, blockLog, x.items, node, src) && depth > 0
    ensures node.k < |x.items| && x.items[node.k].Listed?
    ensures ReadsAs(f, blockLog, disk, sb, x, node, depth, src)
      <==> SizeFits(f.order, x.items[node.k])
           && ReadChildren(f, blockLog, disk, sb, x.entries, StoredEntries(Flatten(x.items[node.k].runs)), depth - 1)
              == Some(src.AsStored().children)
  {
    hide Image, AllWellFormed, NumberAt, Flatten, Readdir, InodeAt, ReadInode, ReadChildren, StoredEntries, NumberOf,
      RunsBytes;
    BuiltFolder(f, blockLog, x.items, node, src);
    hide Built;
    var i := x.items[node.k];
    NumberLeadsTo(f, blockLog, disk, sb, x, node.k);
    ListingsAreRead(f, blockLog, disk, sb, x);
    if SizeFits(f.order, i) {
      assert IsListed(f, disk, sb, i);
    } else {
      assert IsCut(f, disk, sb, i);
      var read := Readdir(f, disk, sb.directoryStart + i.inode.start, i.inode.offset, i.inode.fileSize);
      if read.Some? {
        AsManyChildren(f, blockLog, disk, sb, x.entries, read.value, depth - 1);
      }
    }
  }

  lemma {:induction false} AsManyChildren(f: Format, blockLog: nat, disk: seq<byte>, sb: SuperBlock,
                                          entries: seq<FragmentEntry>, list: seq<Entry>, depth: nat)
    ensures
      var read := ReadChildren(f, blockLog, disk, sb, entries, list, depth);
      read.Some? ==> |read.value| == |list|
    decreases |list|
  {
    hide ReadTree, Source.Kind;
    if list == [] {
    } else {
      AsManyChildren(f, blockLog, disk, sb, entries, list[1..], depth);
    }
  }

  lemma ReadsAsIs(f: Format, blockLog: nat, disk: seq<byte>, sb: SuperBlock, x: Contents, node: Node, depth: nat, src: Source)
    requires AllWellFormed(InodesOf(x.items), blockLog) && node.k < |x.items|
    ensures ReadsAs(f, blockLog, disk, sb, x, node, depth, src)
      <==> ReadTree(f, blockLog, disk, sb, x.entries, NumberAt(f, blockLog, x.items, node.k), depth) == Some(src.AsStored())
  {
    hide ReadTree, NumberAt, AllWellFormed, Source.AsStored;
  }

  lemma FolderStaysFolder(src: Source)
    requires src.Folder?
    ensures src.AsStored().Folder? && |src.AsStored().children| == |src.children|
  {
  }

  lemma FolderReadsBack(f: Format, blockLog: nat, disk: seq<byte>, sb: SuperBlock, x: Contents, node: Node, src: Source,
                        depth: nat)
    requires Image(f, blockLog, disk, sb, x) && AllReachable(f, x) && AllWellFormed(InodesOf(x.items), blockLog)
    requires src.Folder? && Built(f, blockLog, x.items, node, src) && depth > 0
    requires node.Branch? && |node.children| == |src.children|
    ensures node.k < |x.items|
    ensures (SizeFits(f.order, x.items[node.k])
             && forall j :: 0 <= j < |src.children| ==>
                  ReadsAs(f, blockLog, disk, sb, x, node.children[j], depth - 1, src.children[j].node))
      <==> ReadsAs(f, blockLog, disk, sb, x, node, depth, src)
  {
    hide Image, AllReachable, AllWellFormed, NumberAt, Built, Flatten, ReadChildren, ReadTree, Source.Kind,
      StoredEntries, ReadsAs, SizeFits, Source.AsStored;
    FolderStep(f, blockLog, disk, sb, x, node, src, depth);
    BuiltFolder(f, blockLog, x.items, node, src);
    FolderStaysFolder(src);
    var list, expected := StoredEntries(Flatten(x.items[node.k].runs)), src.AsStored().children;
    if ReadsAs(f, blockLog, disk, sb, x, node, depth, src) {
      forall j | 0 <= j < |src.children|
        ensures ReadsAs(f, blockLog, disk, sb, x, node.children[j], depth - 1, src.children[j].node)
      {
        EntryMatches(f, blockLog, x.items, node, src, j);
        ChildWasRead(f, blockLog, disk, sb, x.entries, list, expected, depth - 1, j);
        ReadsAsIs(f, blockLog, disk, sb, x, node.children[j], depth - 1, src.children[j].node);
      }
    } else if SizeFits(f.order, x.items[node.k]) && forall j :: 0 <= j < |src.children| ==>
                ReadsAs(f, blockLog, disk, sb, x, node.children[j], depth - 1, src.children[j].node) {
      forall j | 0 <= j < |list|
        ensures list[j].name == expected[j].name && list[j].kind == expected[j].node.Kind()
        ensures ReadTree(f, blockLog, disk, sb, x.entries, list[j].inode, depth - 1) == Some(expected[j].node)
      {
        EntryMatches(f, blockLog, x.items, node, src, j);
        ReadsAsIs(f, blockLog, disk, sb, x, node.children[j], depth - 1, src.children[j].node);
      }
      ChildrenReadBack(f, blockLog, disk, sb, x.entries, list, expected, depth - 1);
    }
  }

  /** The reader finds the source if it is intact, and, where all lists come from files stored the same way, only then. */
  ghost predicate ReadsIfIntact(f: Format, blockLog: nat, disk: seq<byte>, sb: SuperBlock, x: Contents, plain: bool, node: Node,
                             depth: nat, src: Source) {
    && (Intact(f.order, x.items, node) ==> ReadsAs(f, blockLog, disk, sb, x, node, depth, src))
    && (AllGenuine(f.codec, plain, blockLog, x.items) && ReadsAs(f, blockLog, disk, sb, x, node, depth, src)
        ==> Intact(f.order, x.items, node))
  }

  lemma LeafReadsBack(f: Format, blockLog: nat, disk: seq<byte>, sb: SuperBlock, x: Contents, plain: bool, node: Node,
                      src: Source, depth: nat)
    requires Image(f, blockLog, disk, sb, x) && AllWellFormed(InodesOf(x.items), blockLog)
    requires src.Possible() && !src.Folder? && Built(f, blockLog, x.items, node, src) && depth > 0
    ensures ReadsIfIntact(f, blockLog, disk, sb, x, plain, node, depth, src)
  {
    hide Image, AllWellFormed, NumberAt, InodeAt, Genuine, FileData, Inode.Storable;
    NumberLeadsTo(f, blockLog, disk, sb, x, node.k);
    if src.Regular? {
      ContentReadsBack(f, blockLog, disk, sb, x, plain, node.k);
    }
  }

  lemma IntactFolder(o: Order, items: seq<Item>, node: Node)
    requires node.Branch? && node.k < |items|
    ensures Intact(o, items, node)
      <==> SizeFits(o, items[node.k]) && forall j :: 0 <= j < |node.children| ==> Intact(o, items, node.children[j])
  {
  }

  lemma FolderReadsIfIntact(f: Format, blockLog: nat, disk: seq<byte>, sb: SuperBlock, x: Contents, plain: bool, node: Node,
                         src: Source, depth: nat)
    requires Image(f, blockLog, disk, sb, x) && AllReachable(f, x) && AllWellFormed(InodesOf(x.items), blockLog)
    requires src.Folder? && Built(f, blockLog, x.items, node, src) && depth > 0
    requires node.Branch? && |node.children| == |src.children|
    requires forall j :: 0 <= j < |src.children| ==>
      ReadsIfIntact(f, blockLog, disk, sb, x, plain, node.children[j], depth - 1, src.children[j].node)
    ensures ReadsIfIntact(f, blockLog, disk, sb, x, plain, node, depth, src)
  {
    hide Image, AllReachable, AllWellFormed, AllGenuine, Built, Intact, ReadsAs, SizeFits;
    FolderReadsBack(f, blockLog, disk, sb, x, node, src, depth);
    IntactFolder(f.order, x.items, node);
  }

  lemma LowerChild(src: Source, j: nat)
    requires src.Folder? && j < |src.children|
    ensures src.children[j].node.Height() < src.Height()
  {
    HeightOfChild(src, |src.children|, j);
  }

  /** The tree that was built is what a reader finds below its number: directories with their names, types and order,
      special files, and the content of every file. */
  lemma {:induction false} TreeReadsBack(f: Format, blockLog: nat, disk: seq<byte>, sb: SuperBlock, x: Contents, plain: bool,
                                         node: Node, src: Source, depth: nat)
    requires Image(f, blockLog, disk, sb, x) && AllReachable(f, x) && AllWellFormed(InodesOf(x.items), blockLog)
    requires src.Possible() && Built(f, blockLog, x.items, node, src) && depth >= src.Height()
    ensures ReadsIfIntact(f, blockLog, disk, sb, x, plain, node, depth, src)
    decreases src
  {
    hide Image, AllReachable, AllWellFormed, AllGenuine, Common.InRange, Fits, Built, Intact, ReadsAs,
      ReadsIfIntact, Source.Height, Source.HeightOfFirst, Source.AsStored, Source.Kind, Flatten;
    if src.Folder? {
      BuiltFolder(f, blockLog, x.items, node, src);
      forall j | 0 <= j < |src.children|
        ensures ReadsIfIntact(f, blockLog, disk, sb, x, plain, node.children[j], depth - 1, src.children[j].node)
      {
        LowerChild(src, j);
        BuiltChild(f, blockLog, x.items, node, src, j);
        TreeReadsBack(f, blockLog, disk, sb, x, plain, node.children[j], src.children[j].node, depth - 1);
      }
      FolderReadsIfIntact(f, blockLog, disk, sb, x, plain, node, src, depth);
    } else {
      LeafReadsBack(f, blockLog, disk, sb, x, plain, node, src, depth);
    }
  }
}
