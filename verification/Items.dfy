/** What the inodes of an image stand for, and how that persists while the image grows; the headers of files and
    directories. */
module Items {
  import opened Wrappers

  import opened Bits
  import opened BitFields
  import opened DataStore
  import opened Directories
  import opened Duplicates
  import opened FileBlocks
  import opened FragmentTable
  import opened Inodes
  import opened MetadataBlocks
  import opened MetadataStream

  // ---- what the inodes stand for ----

  /** An inode with what is known about its data. A file holds `content`: its blocks lie at `at` as the bytes
      `stored`, which its own words `own` describe; `list` are the words create_inode was handed. A directory
      lists `runs`, found at position `at` of the directory stream. */
  datatype Item =
    | Plain(inode: Inode)
    | Held(inode: Inode, content: seq<byte>, at: nat, stored: seq<byte>, own: seq<nat>, list: seq<nat>, fr: Fragment)
    | Listed(inode: Inode, at: nat, runs: seq<seq<Entry>>)

  /** What the data of inodes lies in: the part of the disk that is used, the fragment blocks with the one in
      memory last, and the directory stream. */
  datatype World = World(f: Format, blockLog: nat, disk: seq<byte>, bytes: nat, blocks: seq<seq<byte>>, listings: seq<byte>)

  ghost predicate GrowsInto(w: World, v: World) {
    && v.f == w.f && v.blockLog == w.blockLog
    && w.bytes <= v.bytes && SameBelow(w.disk, v.disk, w.bytes)
    && GrowsTo(w.blocks, v.blocks) && w.listings <= v.listings
  }

  function InodesOf(items: seq<Item>): (inodes: seq<Inode>)
    ensures |inodes| == |items|
  {
    seq(|items|, k requires 0 <= k < |items| => items[k].inode)
  }

  /** What the walk of a later append registers for a file. */
  function RegisteredOf(i: Inode, blockLog: nat): Registered
    requires i.File?
  {
    Registered(i.start, TotalStored(i.blocks), i.blocks, i.fragment, i.offset, TailBytes(i.fileSize, i.fragment, blockLog))
  }

  /** The list handed to create_inode was long enough. */
  predicate InBounds(i: Item) {
    i.Held? ==> |i.own| <= |i.list|
  }

  predicate AllInBounds(items: seq<Item>) {
    forall k :: 0 <= k < |items| ==> InBounds(items[k])
  }

  /** The inode's fields, as far as its 32 bits for the position reach. */
  predicate SaysWhere(inode: Inode, i: Item, blockLog: nat)
    requires i.Held? && inode.File?
  {
    && inode.start == Low(i.at, 32) && inode.fragment == i.fr.index && inode.offset == i.fr.offset
    && inode.fileSize == ReadSize(|i.content|) && TailBytes(inode.fileSize, i.fr.index, blockLog) == i.fr.size
    && |inode.blocks| == |i.own| && forall k :: 0 <= k < |i.own| && k < |i.list| ==> inode.blocks[k] == i.list[k]
  }

  ghost predicate HeldStands(w: World, i: Item)
    requires i.Held?
  {
    var size := ReadSize(|i.content|);
    && i.inode.File? && SaysWhere(i.inode, i, w.blockLog) && i.fr.size <= size
    && var (data, tail) := (i.content[..size - i.fr.size], i.content[size - i.fr.size..size]);
    && Located(w.disk, w.bytes, w.blocks, i.at, i.stored, i.list, i.fr, tail)
    && LoadBlocks(w.f.codec, Pow2(w.blockLog), i.own, i.stored) == Some(data) && TotalStored(i.own) == |i.stored|
  }

  /** What create_inode is told about a listing of `size` bytes whose number in the directory table is `place`. */
  function DirectoryInode(c: Common, mtime: nat, place: nat, size: nat): Inode {
    Inode.Directory(c, Low(size, 19), Low(place % 0x1_0000, 13), mtime, Low(place / 0x1_0000, 24))
  }

  ghost predicate ListedStands(w: World, i: Item)
    requires i.Listed?
  {
    && i.inode.Directory? && AllRuns(i.runs)
    && var bytes := RunsBytes(w.f.order, i.runs);
    && i.at <= |w.listings| && Holds(w.listings, i.at, bytes)
    && i.inode == DirectoryInode(i.inode.c, i.inode.mtime, NumberOf(w.f, w.listings, i.at), |bytes|)
  }

  ghost predicate ItemStands(w: World, i: Item) {
    match i
    case Plain(inode) => inode.File? ==> InPlace(RegisteredOf(inode, w.blockLog), w.bytes, w.blocks)
    case Held(_, _, _, _, _, _, _) => HeldStands(w, i)
    case Listed(_, _, _) => ListedStands(w, i)
  }

  // ---- the files among the inodes ----

  /** What was kept of a file. */
  function KeptOf(i: Item): Kept
    requires i.Held?
  {
    var size := ReadSize(|i.content|);
    Kept(i.own, i.stored, if i.fr.size <= size then i.content[size - i.fr.size..size] else [])
  }

  function HeldOf(items: seq<Item>): (held: seq<Item>)
    ensures forall k :: 0 <= k < |held| ==> held[k].Held? && held[k] in items
  {
    if items == [] then []
    else
      var n := |items| - 1;
      HeldOf(items[..n]) + if items[n].Held? then [items[n]] else []
  }

  function KeptOfAll(held: seq<Item>): (history: seq<Kept>)
    requires forall k :: 0 <= k < |held| ==> held[k].Held?
    ensures |history| == |held|
  {
    seq(|held|, k requires 0 <= k < |held| => KeptOf(held[k]))
  }

  lemma HeldOfMore(items: seq<Item>, i: Item)
    ensures HeldOf(items + [i]) == HeldOf(items) + if i.Held? then [i] else []
  {
    assert (items + [i])[..|items|] == items;
  }

  lemma {:induction false} HeldOfConcat(items: seq<Item>, more: seq<Item>)
    ensures HeldOf(items + more) == HeldOf(items) + HeldOf(more)
  {
    if more == [] {
      assert items + more == items;
    } else {
      var n := |more| - 1;
      assert (items + more)[..|items + more| - 1] == items + more[..n];
      HeldOfConcat(items, more[..n]);
    }
  }

  lemma {:induction false} HeldIsAmong(items: seq<Item>, k: nat)
    requires k < |items| && items[k].Held?
    ensures items[k] in HeldOf(items)
  {
    var n := |items| - 1;
    if k == n {
    } else {
      HeldIsAmong(items[..n], k);
    }
  }

  /** The words create_inode was handed are those that some file was stored with, and `own` are the file's own; no other
      inode is a file's. */
  ghost predicate Genuine(codec: Codec, plain: bool, blockLog: nat, i: Item) {
    && (i.Plain? ==> !i.inode.File?)
    && (i.Held? ==>
      && Pow2(blockLog) < COMPRESSED_BIT_BLOCK && i.fr.size <= ReadSize(|i.content|)
      && StoreBlocks(codec, plain, Pow2(blockLog), i.content[..ReadSize(|i.content|) - i.fr.size]) == (i.own, i.stored)
      && IsListOf(codec, plain, Pow2(blockLog), i.list, i.stored))
  }

  ghost predicate AllGenuine(codec: Codec, plain: bool, blockLog: nat, items: seq<Item>) {
    forall k :: 0 <= k < |items| ==> Genuine(codec, plain, blockLog, items[k])
  }

  /** Where a listing ends. */
  function Ends(o: Order, i: Item): nat {
    if i.Listed? && AllRuns(i.runs) then i.at + |RunsBytes(o, i.runs)| else 0
  }

  predicate EndsBelow(o: Order, items: seq<Item>, limit: nat) {
    forall k :: 0 <= k < |items| ==> Ends(o, items[k]) <= limit
  }

  /** Each listing lies behind those of the directories created before. */
  predicate InOrder(o: Order, items: seq<Item>) {
    forall k :: 0 <= k < |items| && items[k].Listed? ==> EndsBelow(o, items[..k], items[k].at)
  }

  /** The inode stream consists of these inodes, and each stands for what is said of it. */
  ghost predicate Holding(w: World, items: seq<Item>, stream: seq<byte>) {
    && AllWellFormed(InodesOf(items), w.blockLog)
    && stream == EncodeAll(w.f.order, InodesOf(items), w.blockLog)
    && (forall k :: 0 <= k < |items| ==> ItemStands(w, items[k]))
    && InOrder(w.f.order, items)
  }

  /** The number of the k-th inode. */
  function NumberAt(f: Format, blockLog: nat, items: seq<Item>, k: nat): nat
    requires AllWellFormed(InodesOf(items), blockLog) && k < |items|
  {
    var inodes := InodesOf(items);
    InodeLies(f.order, inodes, k, blockLog);
    NumberOf(f, EncodeAll(f.order, inodes, blockLog), |EncodeAll(f.order, inodes[..k], blockLog)|)
  }

  /** It does not change while inodes are added. */
  lemma NumberAtStays(f: Format, blockLog: nat, items: seq<Item>, later: seq<Item>, k: nat)
    requires items <= later && k < |items| && AllWellFormed(InodesOf(later), blockLog)
    ensures AllWellFormed(InodesOf(items), blockLog)
    ensures NumberAt(f, blockLog, later, k) == NumberAt(f, blockLog, items, k)
  {
    hide EncodeAll, NumberOf, Inode.WellFormed, Encode;
    var few, many := InodesOf(items), InodesOf(later);
    assert few == many[..|few|];
    assert many == few + many[|few|..];
    EncodeAllConcat(f.order, few, many[|few|..], blockLog);
    assert few[..k] == many[..k];
    InodeLies(f.order, few, k, blockLog);
    InodeLies(f.order, many, k, blockLog);
    var s, t, p := EncodeAll(f.order, few, blockLog), EncodeAll(f.order, many, blockLog), |EncodeAll(f.order, few[..k], blockLog)|;
    assert t[..p] == EncodeAll(f.order, few[..k], blockLog) == s[..p];
    NumberIsStable(f, s, t, p);
  }

  /** The number handed out for an inode that was just added. */
  lemma NewestNumber(w: World, was: seq<Item>, before: seq<byte>, v: World, items: seq<Item>, stream: seq<byte>)
    requires Holding(w, was, before) && Holding(v, items, stream) && w.f == v.f && w.blockLog == v.blockLog
    requires |items| == |was| + 1 && items[..|was|] == was
    ensures |before| <= |stream| && NumberAt(v.f, v.blockLog, items, |was|) == NumberOf(v.f, stream, |before|)
  {
    hide EncodeAll, NumberOf, Inode.WellFormed, ItemStands, InOrder;
    assert InodesOf(items)[..|was|] == InodesOf(was);
    InodeLies(v.f.order, InodesOf(items), |was|, v.blockLog);
  }

  lemma TailStaysPlaced(blocks: seq<seq<byte>>, later: seq<seq<byte>>, fr: Fragment)
    requires Placed(blocks, fr) && GrowsTo(blocks, later)
    ensures Placed(later, fr)
  {
  }

  lemma ListingStays(f: Format, d: seq<byte>, e: seq<byte>, at: nat, bytes: seq<byte>)
    requires d <= e && at <= |d| && Holds(d, at, bytes)
    ensures Holds(e, at, bytes) && NumberOf(f, e, at) == NumberOf(f, d, at)
  {
    hide NumberOf;
    assert d[..at] == e[..at];
    NumberIsStable(f, d, e, at);
  }

  lemma ItemStays(w: World, v: World, i: Item)
    requires ItemStands(w, i) && GrowsInto(w, v)
    ensures ItemStands(v, i)
  {
    hide Located, Holds, SameBelow, GrowsTo, RunsBytes, LoadBlocks, TotalStored, SaysWhere, NumberOf, FitInts, TailBytes,
      Placed;
    match i {
      case Plain(inode) =>
        if inode.File? {
          TailStaysPlaced(w.blocks, v.blocks, FragmentOf(RegisteredOf(inode, w.blockLog)));
        }
      case Held(_, _, _, _, _, _, _) =>
        var size := ReadSize(|i.content|);
        StaysLocated(w.disk, w.bytes, w.blocks, v.disk, v.bytes, v.blocks, i.at, i.stored, i.list, i.fr,
                     i.content[size - i.fr.size..size]);
      case Listed(_, _, _) => ListingStays(w.f, w.listings, v.listings, i.at, RunsBytes(w.f.order, i.runs));
    }
  }

  lemma SameSettings(w: World, v: World)
    requires GrowsInto(w, v)
    ensures v.f == w.f && v.blockLog == w.blockLog
  {
  }

  lemma HoldingStays(w: World, v: World, items: seq<Item>, stream: seq<byte>)
    requires Holding(w, items, stream) && GrowsInto(w, v)
    ensures Holding(v, items, stream)
  {
    hide ItemStands, GrowsInto, InOrder, EncodeAll, AllWellFormed;
    SameSettings(w, v);
    forall k | 0 <= k < |items|
      ensures ItemStands(v, items[k])
    {
      ItemStays(w, v, items[k]);
    }
  }

  lemma HoldingMore(w: World, items: seq<Item>, stream: seq<byte>, i: Item)
    requires Holding(w, items, stream) && i.inode.WellFormed(w.blockLog) && ItemStands(w, i)
    requires i.Listed? ==> EndsBelow(w.f.order, items, i.at)
    ensures i.inode.Storable() && Holding(w, items + [i], stream + Encode(w.f.order, i.inode))
  {
    hide ItemStands, EncodeAll, Encode, Inode.WellFormed, Inode.Storable, EndsBelow;
    assert InodesOf(items + [i]) == InodesOf(items) + [i.inode];
    EncodeAllMore(w.f.order, InodesOf(items), i.inode, w.blockLog);
    forall k | 0 <= k < |items + [i]| && (items + [i])[k].Listed?
      ensures EndsBelow(w.f.order, (items + [i])[..k], (items + [i])[k].at)
    {
      assert (items + [i])[..k] == items[..k];
      assert items[..|items|] == items;
    }
  }

  lemma AllAreWellFormed(w: World, items: seq<Item>, stream: seq<byte>)
    requires Holding(w, items, stream)
    ensures AllWellFormed(InodesOf(items), w.blockLog) && stream == EncodeAll(w.f.order, InodesOf(items), w.blockLog)
  {
    hide EncodeAll, ItemStands, InOrder, Inode.WellFormed;
  }

  /** Listings end within the directory stream. */
  lemma AllEndBelow(w: World, items: seq<Item>, stream: seq<byte>)
    requires Holding(w, items, stream)
    ensures EndsBelow(w.f.order, items, |w.listings|)
  {
    hide RunsBytes, NumberOf, HeldStands, InOrder, AllWellFormed, EncodeAll;
    forall k | 0 <= k < |items|
      ensures Ends(w.f.order, items[k]) <= |w.listings|
    {
      assert ItemStands(w, items[k]);
    }
  }

  lemma ItemStandsInFront(w: World, i: Item, p: nat)
    requires ItemStands(w, i) && p <= |w.listings| && Ends(w.f.order, i) <= p
    ensures ItemStands(w.(listings := w.listings[..p]), i)
  {
    hide Located, RunsBytes, LoadBlocks, TotalStored, SaysWhere, NumberOf, Placed, FitInts, TailBytes;
    if i.Listed? {
      var bytes := RunsBytes(w.f.order, i.runs);
      assert w.listings[..p][..i.at] == w.listings[..i.at];
      NumberIsStable(w.f, w.listings, w.listings[..p], i.at);
    }
  }

  /** The first items, with the part of the directory stream that they need. */
  lemma HoldingFront(w: World, items: seq<Item>, stream: seq<byte>, k: nat, p: nat)
    requires Holding(w, items, stream) && k <= |items|
    requires p <= |w.listings| && EndsBelow(w.f.order, items[..k], p)
    ensures AllWellFormed(InodesOf(items)[..k], w.blockLog)
    ensures Holding(w.(listings := w.listings[..p]), items[..k], EncodeAll(w.f.order, InodesOf(items)[..k], w.blockLog))
  {
    hide EncodeAll, Inode.WellFormed, ItemStands;
    assert InodesOf(items[..k]) == InodesOf(items)[..k];
    forall j | 0 <= j < k
      ensures ItemStands(w.(listings := w.listings[..p]), items[..k][j])
    {
      assert Ends(w.f.order, items[..k][j]) <= p;
      ItemStandsInFront(w, items[j], p);
    }
    forall j | 0 <= j < k && items[..k][j].Listed?
      ensures EndsBelow(w.f.order, items[..k][..j], items[..k][j].at)
    {
      assert items[..k][..j] == items[..j];
    }
  }

  // ---- headers ----

  lemma TypeFits(code: nat)
    requires code < 16
    ensures Fits(code, 4)
  {
    FitsIsBound(code, 4);
    assert Pow2(4) == 16;
  }

  lemma BaseFits(code: nat, c: Common)
    requires code < 16 && c.InRange()
    ensures InRange(BASE_LAYOUT, [code, c.mode, c.uid, c.guid])
  {
    hide Fits;
    TypeFits(code);
  }

  lemma IntsFit(mtime: nat, start: nat, fragment: nat, offset: nat, size: nat)
    requires Fits(mtime, 32) && fragment <= MAX_INT && offset <= MAX_INT && size <= MAX_FILE_SIZE
    ensures InRange([Field(32, 32), Field(64, 32), Field(96, 32), Field(128, 32), Field(160, 32)],
                    [mtime, Low(start, 32), fragment, offset, size])
  {
    hide Fits, Low;
    LowFits(start, 32);
    FitsInt(fragment);
    FitsInt(offset);
    FitsInt(size);
  }

  lemma InRangeConcat(a: seq<Field>, va: seq<nat>, b: seq<Field>, vb: seq<nat>)
    requires InRange(a, va) && InRange(b, vb)
    ensures InRange(a + b, va + vb)
  {
    hide Fits;
  }

  lemma FileHeaderFits(c: Common, mtime: nat, start: nat, fragment: nat, offset: nat, size: nat, words: seq<nat>)
    requires c.InRange() && Fits(mtime, 32) && fragment <= MAX_INT && offset <= MAX_INT && size <= MAX_FILE_SIZE
    ensures File(c, mtime, Low(start, 32), fragment, offset, size, words).Storable()
  {
    hide Fits, Low, InRange;
    BaseFits(FILE_TYPE, c);
    var layout := [Field(32, 32), Field(64, 32), Field(96, 32), Field(128, 32), Field(160, 32)];
    assert InRange(layout, [mtime, Low(start, 32), fragment, offset, size]) by {
      IntsFit(mtime, start, fragment, offset, size);
    }
    InRangeConcat(BASE_LAYOUT, [FILE_TYPE, c.mode, c.uid, c.guid], layout, [mtime, Low(start, 32), fragment, offset, size]);
  }

  lemma DirectoryHeaderFits(c: Common, mtime: nat, place: nat, size: nat)
    requires c.InRange() && Fits(mtime, 32)
    ensures DirectoryInode(c, mtime, place, size).Storable()
  {
    hide Fits, Low;
    LowFits(place / 0x1_0000, 24);
    LowFits(place % 0x1_0000, 13);
    LowFits(size, 19);
    assert Fits(DIR_TYPE, 4) by { TypeFits(DIR_TYPE); }
  }

  lemma SmallPowers()
    ensures Pow2(5) == 32 && Pow2(3) == 8
  {
    assert Pow2(3) == 8;
    assert Pow2(5) == 4 * Pow2(3);
  }

  /** The fields of a directory inode are wide enough for these values. */
  lemma DirectoryFieldsKeep(size: nat, offset: nat, block: nat)
    requires size < 0x8_0000 && offset < METADATA_SIZE && block < 0x100_0000
    ensures Low(size, 19) == size && Low(offset, 13) == offset && Low(block, 24) == block
  {
    hide Low, Pow2;
    FitsIsBound(size, 19);
    FitsIsBound(offset, 13);
    FitsIsBound(block, 24);
    SmallPowers();
    EightBits();
    PowAdd(8, 5);
    PowAdd(8, 8);
    PowAdd(16, 8);
    PowAdd(16, 3);
  }

  /** What create_inode is told about a file, and the `count` words it copies. */
  function FileInode(c: Common, mtime: nat, start: nat, fr: Fragment, size: nat, list: seq<nat>, count: nat,
                     behind: nat -> nat): Inode {
    File(c, mtime, Low(start, 32), fr.index, fr.offset, size, CopiedWords(list, count, behind))
  }

  /** The inode of a file is one that the walk of a later append gets past: the words are as many as it looks for. */
  lemma FileInodeIsWellFormed(c: Common, mtime: nat, start: nat, fr: Fragment, size: nat, list: seq<nat>, count: nat,
                              behind: nat -> nat, noFragments: bool, alwaysFragments: bool, blockLog: nat)
    requires c.InRange() && Fits(mtime, 32) && FitInts(list) && fr.index <= MAX_INT && fr.offset <= MAX_INT
    requires count == WriterSplit(size, noFragments, alwaysFragments, blockLog).0
    requires fr.index == INVALID_BLK <==> WriterSplit(size, noFragments, alwaysFragments, blockLog).1 == 0
    ensures FileInode(c, mtime, start, fr, ReadSize(size), list, count, behind).Storable()
    ensures FileInode(c, mtime, start, fr, ReadSize(size), list, count, behind).WellFormed(blockLog)
    ensures TailBytes(ReadSize(size), fr.index, blockLog) == WriterSplit(size, noFragments, alwaysFragments, blockLog).1
  {
    hide Inode.Storable, FitInts, WriterSplit, BlockCount, TailBytes, Fits, Low;
    CopiedWordsFit(list, count, behind);
    FileHeaderFits(c, mtime, start, fr.index, fr.offset, ReadSize(size), CopiedWords(list, count, behind));
    ReaderSplitsLikeWriter(size, noFragments, alwaysFragments, blockLog, fr.index);
  }
}
