/** The run of mkcramfs as a whole: sizes, layout, data, superblock; and the proof that a reader gets the tree back. */
module MkCramfs {
  import opened Wrappers

  import opened Bits
  import opened BitFields
  import opened CramFiles
  import opened CramInodes
  import opened CramTree
  import opened Cramfs
  import opened MetadataBlocks

  const MAX_LENGTH: nat := 4 * (OFFSET_LIMIT - 1) + (SIZE_LIMIT - 1) + SIZE_LIMIT * 4 / BLOCK

  /** What the command line and the header files fix: settings, size of the superblock and place of the root inode in
      it, bytes skipped for boot code, the image inserted in front of the directories (empty for none). */
  datatype Setup = Setup(rom: Rom, superBytes: nat, rootAt: nat, pad: nat, boot: seq<byte>) {
    predicate Aligned() {
      superBytes % 4 == 0 && pad % 4 == 0 && rootAt % 4 == 0 && rootAt + INODE_BYTES <= superBytes
    }

    /** Where the directory area starts. */
    function Start(): (n: nat)
      ensures Aligned() ==> n % 4 == 0
    {
      pad + superBytes + RoundUp4(|boot|)
    }

    /** fslen_ub before it is rounded. */
    function Estimate(top: Tree): nat {
      superBytes + (if boot == [] then 0 else |boot| + 3) + pad + DirEstimate(top) + DataEstimate(top)
    }
  }

  /** ((n - 1) | (blksize - 1)) + 1 */
  function RoundUpBlock(n: nat): (r: nat)
    ensures n <= r < n + 4096 && r % 4096 == 0
  {
    (n + BLOCK - 1) / BLOCK * BLOCK
  }

  lemma RoundUpGrows(m: nat, n: nat)
    requires m <= n
    ensures RoundUpBlock(m) <= RoundUpBlock(n)
  {
  }

  /** Everything in front of the data is within the estimate. */
  lemma StartEstimated(setup: Setup, top: Tree)
    ensures setup.pad + setup.superBytes <= setup.Start()
    ensures setup.Start() + DirEstimate(top) + DataEstimate(top) <= setup.Estimate(top)
    ensures setup.Estimate(top) ==
      setup.superBytes + (if setup.boot == [] then 0 else |setup.boot| + 3) + setup.pad + DirEstimate(top) + DataEstimate(top)
    ensures setup.Start() == setup.pad + setup.superBytes + (if setup.boot == [] then 0 else RoundUp4(|setup.boot|))
    ensures |setup.boot| <= RoundUp4(|setup.boot|)
  {
    hide DirEstimate, DataEstimate;
  }

  lemma EntrySizes(e: Tree)
    requires Storable(e)
    ensures e.Entry? && Len(e) == INODE_BYTES + RoundUp4(|e.name|)
    ensures IsDir(e.stat.mode) ==> e.stat.size == DirBytes(e.child) && DataAllowance(e) == 0
    ensures !IsDir(e.stat.mode) ==> DirEstimate(e.child) == DataEstimate(e.child) == 0
    ensures HasContent(e.stat.mode) && e.stat.size > 0 ==>
      DataAllowance(e) == (4 + ALLOWANCE) * ((e.stat.size - 1) / BLOCK + 1) + e.stat.size + 3
    ensures !HasContent(e.stat.mode) || e.stat.size == 0 ==> DataAllowance(e) == 0
  {
    hide DirBytes;
  }

  lemma SizesOf(e: Tree)
    requires e.Entry? && forall x :: x in Preorder(e) ==> Storable(x)
    ensures Len(e) == INODE_BYTES + RoundUp4(|e.name|)
    ensures DirEstimate(e) == Len(e) + DirEstimate(e.child) + DirEstimate(e.next)
    ensures DataEstimate(e) == DataAllowance(e) + DataEstimate(e.child) + DataEstimate(e.next)
    ensures forall x :: x in Preorder(e.child) ==> Storable(x)
    ensures forall x :: x in Preorder(e.next) ==> Storable(x)
    ensures |Preorder(e)| == 1 + |Preorder(e.child)| + |Preorder(e.next)|
    ensures IsDir(e.stat.mode) ==> e.stat.size == DirBytes(e.child) && DataAllowance(e) == 0
    ensures !IsDir(e.stat.mode) ==> DirEstimate(e.child) == DataEstimate(e.child) == 0
    ensures HasContent(e.stat.mode) && e.stat.size > 0 ==>
      DataAllowance(e) == (4 + ALLOWANCE) * ((e.stat.size - 1) / BLOCK + 1) + e.stat.size + 3
    ensures !HasContent(e.stat.mode) || e.stat.size == 0 ==> DataAllowance(e) == 0
  {
    hide Preorder, Storable, Len, DataAllowance, DirBytes, RoundUp4;
    PreorderIs(e);
    assert e in Preorder(e);
    forall x | x in Preorder(e.child) || x in Preorder(e.next)
      ensures Storable(x)
    {
      assert x in Preorder(e);
    }
    EntrySizes(e);
  }

  lemma ListingGrows(done: seq<Tree>, e: Tree)
    requires e.Entry?
    ensures (done + [e]) + Siblings(e.next) == done + Siblings(e)
    ensures TotalLen(done + [e]) == TotalLen(done) + Len(e)
  {
    hide TotalLen;
    TotalLenConcat(done, [e]);
    TotalLenOne(e);
  }

  lemma ListingEnds(done: seq<Tree>)
    ensures done + Siblings(Null) == done && DirEstimate(Null) == DataEstimate(Null) == 0
  {
  }

  /** The size accounting of parse_directory for one listing and all below it: the listing's own size, and the
      estimate with everything added. */
  method ParseSizes(t: Tree, estimate: nat) returns (total: nat, grown: nat)
    requires forall e :: e in Preorder(t) ==> Storable(e)
    ensures total == DirBytes(t)
    ensures grown == estimate + DirEstimate(t) + DataEstimate(t)
    decreases |Preorder(t)|
  {
    hide Storable, Siblings, Preorder, DirEstimate, DataEstimate, TotalLen;
    var entry := t;
    total, grown := 0, estimate;
    ghost var done: seq<Tree> := [];
    NoBytes();
    assert done + Siblings(entry) == Siblings(t);
    while entry.Entry?
      invariant done + Siblings(entry) == Siblings(t) && total == TotalLen(done)
      invariant grown + DirEstimate(entry) + DataEstimate(entry) == estimate + DirEstimate(t) + DataEstimate(t)
      invariant |Preorder(entry)| <= |Preorder(t)| && forall e :: e in Preorder(entry) ==> Storable(e)
      decreases entry
    {
      SizesOf(entry);
      var size := INODE_BYTES + RoundUp4(|entry.name|);
      grown := grown + size;
      if IsDir(entry.stat.mode) {
        var below: nat;
        below, grown := ParseSizes(entry.child, grown);
        assert below == entry.stat.size;
      } else if HasContent(entry.stat.mode) {
        if entry.stat.size > 0 {
          var blocks := (entry.stat.size - 1) / BLOCK + 1;
          grown := grown + (4 + ALLOWANCE) * blocks + entry.stat.size + 3;
        }
      }
      ListingGrows(done, entry);
      done := done + [entry];
      total := total + size;
      entry := entry.next;
    }
    ListingEnds(done);
  }

  // ---- the finished image ----

  lemma HoldsPrefix(img: seq<byte>, n: nat, at: nat, part: seq<byte>)
    requires Holds(img, at, part) && at + |part| <= n <= |img|
    ensures Holds(img[..n], at, part)
  {
  }

  lemma FilePrefix(rom: Rom, img: seq<byte>, n: nat, at: nat, data: seq<byte>)
    requires FileAt(rom, img, at, data) && FileEnd(rom, at, data) <= n <= |img|
    ensures FileAt(rom, img[..n], at, data)
  {
    var k := BlockCount(|data|);
    hide Holds, Packed, Piece, Block, Word32;
    forall j: nat | j < k
      ensures PointerAt(rom, img[..n], at, data, j) && PieceAt(rom, img[..n], at, data, j)
    {
      assert PointerAt(rom, img, at, data, j) && PieceAt(rom, img, at, data, j);
      PackedStep(rom, data, j);
      PackedGrows(rom, data, j + 1, k);
      HoldsPrefix(img, n, at + 4 * j, Word32(rom.order, Curr(rom, at, data, j + 1)));
      HoldsPrefix(img, n, Curr(rom, at, data, j), Piece(rom, Block(data, j)));
    }
  }

  /** One entry of a finished image is complete, in the part of the image that is written out. */
  lemma EntryCompletes(l: Layout, offs: map<nat, nat>, e: Tree, base: nat, dirEnd: nat, limit: nat, n: nat)
    requires InArea(l, e, base, dirEnd) && dirEnd <= limit <= n <= |l.img|
    requires e.Entry? && l.ChildAt(e) && FiledOne(l, offs, e, dirEnd, limit)
    ensures l.(img := l.img[..n]).Complete(e)
  {
    hide Holds, EntryBytes, FileAt, FileEnd, DirBytes, Layout.Run, Sized;
    var m := l.(img := l.img[..n]);
    HoldsPrefix(l.img, n, l.places[e.id], EntryBytes(l.rom.order, e, l.OffsetOf(e)));
    if e.data != [] {
      FilePrefix(l.rom, l.img, n, l.offsets[e.id], e.data);
    }
    assert m.EntryAt(e);
    ChildExtends(l, m, e) by { ExtendsItself(l.places); }
  }

  lemma TreeCompletes(l: Layout, offs: map<nat, nat>, top: Tree, d: seq<Tree>, base: nat, dirEnd: nat, limit: nat, n: nat)
    requires Area(l, Listing(top), base, dirEnd) && dirEnd <= limit <= n <= |l.img|
    requires forall e :: e in Listing(top) ==> e.Entry? && l.ChildAt(e)
    requires Filed(l, offs, d, dirEnd, limit) && forall e :: e in Preorder(top) ==> e in d
    ensures forall e :: e in Preorder(top) ==> l.(img := l.img[..n]).Complete(e)
  {
    hide Area, Layout.ChildAt, Layout.Complete, FiledOne, InArea;
    ListingIsPermutation(top);
    forall e | e in Preorder(top)
      ensures l.(img := l.img[..n]).Complete(e)
    {
      assert e in multiset(Preorder(top));
      assert e in multiset(Listing(top));
      AreaMember(l, Listing(top), base, dirEnd, e);
      assert FiledOne(l, offs, e, dirEnd, limit);
      EntryCompletes(l, offs, e, base, dirEnd, limit, n);
    }
  }

  /** The root inode as write_superblock stores it. */
  function RootInode(s: Stat, start: nat): (i: Inode)
    ensures i.Fits() && i.namelen == 0 && i.offset == start / 4 % 0x400_0000
    ensures FieldsFit(s) ==> Stat(i.mode, i.uid, i.gid, i.size) == s
  {
    KeptKeeps(s);
    var k := Kept(s);
    Inode(k.mode, k.uid, k.gid, k.size, 0, start / 4 % OFFSET_LIMIT)
  }

  lemma RootFields(s: Stat, start: nat)
    requires IsDir(s.mode) && s.mode < 0x1_0000 && s.size < SIZE_LIMIT && start % 4 == 0 && start < 4 * OFFSET_LIMIT
    ensures
      var i := RootInode(s, start);
      Stat(i.mode, i.uid, i.gid, i.size) == Kept(s) && 4 * i.offset == start && IsDir(i.mode) && i.size == s.size
  {
  }

  lemma RootReads(rom: Rom, img: seq<byte>, rootAt: nat, i: Inode, top: Tree, s: Stat, id: nat)
    requires rootAt + INODE_BYTES <= |img| && ReadInode(rom.order, img[rootAt..rootAt + INODE_BYTES]) == i
    requires Stat(i.mode, i.uid, i.gid, i.size) == Kept(s) && IsDir(i.mode) && i.size == DirBytes(top)
    requires ReadEntries(rom, img, 4 * i.offset, i.size, |img|) == Some(Recovered(top))
    ensures ReadRom(rom, img, rootAt) == Some(Recovered(Entry(id, [], s, [], top, Null)))
  {
    hide ReadInode, ReadEntries, DirBytes, Kept, IsDir;
    EmptyListing(top);
    assert Recovered(Entry(id, [], s, [], top, Null)) == Entry(0, [], Kept(s), [], Recovered(top), Null);
  }

  /** From the root inode on, the reader recovers the whole tree. */
  lemma RomReadsBack(l: Layout, top: Tree, s: Stat, id: nat, rootAt: nat, start: nat)
    requires l.rom.Sound() && |l.img| < 0x1_0000_0000 && start % 4 == 0 && start < 4 * OFFSET_LIMIT
    requires forall e :: e in Preorder(top) ==> l.Complete(e)
    requires l.Run(Siblings(top), start)
    requires IsDir(s.mode) && s.mode < 0x1_0000 && s.size == DirBytes(top) < SIZE_LIMIT && DirEstimate(top) <= |l.img|
    requires Holds(l.img, rootAt, InodeBytes(l.rom.order, RootInode(s, start)))
    ensures ReadRom(l.rom, l.img, rootAt) == Some(Recovered(Entry(id, [], s, [], top, Null)))
  {
    hide Layout.Complete, Layout.Run, Rom.Sound, Holds, InodeBytes, ReadInode, ReadRom, Recovered, DirBytes, Height,
      DirEstimate, Siblings, Preorder;
    var i := RootInode(s, start);
    HoldsSlice(l.img, rootAt, InodeBytes(l.rom.order, i));
    InodeRoundTrip(l.rom.order, i);
    HeightBound(top);
    ListingReadsBack(l, top, start, |l.img|);
    RootFields(s, start);
    RootReads(l.rom, l.img, rootAt, i, top, s, id);
  }

  /** An empty root directory has no listing to be found. */
  lemma EmptyRomReadsBack(l: Layout, s: Stat, id: nat, rootAt: nat, start: nat)
    requires IsDir(s.mode) && s.mode < 0x1_0000 && s.size == DirBytes(Null)
    requires Holds(l.img, rootAt, InodeBytes(l.rom.order, RootInode(s, start)))
    ensures ReadRom(l.rom, l.img, rootAt) == Some(Recovered(Entry(id, [], s, [], Null, Null)))
  {
    hide InodeBytes, ReadInode, Holds, ReadEntries;
    var i := RootInode(s, start);
    HoldsSlice(l.img, rootAt, InodeBytes(l.rom.order, i));
    InodeRoundTrip(l.rom.order, i);
    EmptyListing(Null);
  }

  /** Everything write_data needs to know after the directories are written and the duplicates found. */
  lemma ListedOnce(root: Tree, top: Tree)
    requires root.Entry? && root.child == top && root.next.Null? && Distinct(Preorder(root))
    ensures Distinct(Preorder(top)) && Distinct(Listing(top))
    ensures Preorder(root) == [root] + Preorder(top)
    ensures forall e :: e in Preorder(root) ==> e.Entry?
    ensures forall e :: e in Listing(top) <==> e in Preorder(top)
  {
    assert Preorder(root) == [root] + Preorder(top) + Preorder(root.next);
    assert Preorder(root) == [root] + Preorder(top);
    DistinctConcat([root], Preorder(top));
    PreorderHasNoNull(root);
    PreorderHasNoNull(top);
    ListingIsPermutation(top);
    PermutationIsDistinct(Preorder(top), Listing(top));
    forall e
      ensures e in Listing(top) <==> e in Preorder(top)
    {
      assert e in multiset(Listing(top)) <==> e in multiset(Preorder(top));
    }
  }

  /** The superblock, as far as the root inode goes: stored in the host's order, then converted. */
  method WriteRootInode(o: Order, image: array<byte>, at: nat, s: Stat, start: nat)
    requires at + INODE_BYTES <= image.Length
    modifies image
    ensures Holds(image[..], at, InodeBytes(o, RootInode(s, start)))
    ensures SameOutside(old(image[..]), image[..], at, at + INODE_BYTES)
  {
    hide Holds, Write, SameOutside, Native, Foreign, FixInode;
    ghost var before := image[..];
    var i := RootInode(s, start);
    NothingChanged(before, at, at + INODE_BYTES);
    Store(image, at, Native(i));
    WriteSameOutside(before, before, at, Native(i), at, at + INODE_BYTES);
    WriteHolds(before, at, Native(i));
    HoldsSlice(image[..], at, Native(i));
    if o.BigEndian? {
      ghost var mid := image[..];
      FixedInode(i);
      Store(image, at, FixInode(image[at..at + INODE_BYTES]));
      WriteSameOutside(before, mid, at, Foreign(i), at, at + INODE_BYTES);
      WriteHolds(mid, at, Foreign(i));
    }
  }

  lemma ParentIsNotFlat(top: Tree)
    requires exists e :: e in Listing(top) && e.Entry? && e.child.Entry?
    ensures !Flat(top)
  {
    hide Listing, Preorder;
    var e :| e in Listing(top) && e.Entry? && e.child.Entry?;
    ListingIsPermutation(top);
    assert e in multiset(Listing(top));
    assert e in multiset(Preorder(top));
  }

  lemma ContentIsNotFlat(root: Tree)
    requires root.Entry? && root.data == [] && root.next.Null?
    requires exists e :: e in Preorder(root) && e.Entry? && e.data != []
    ensures !Flat(root.child)
  {
    var e :| e in Preorder(root) && e.Entry? && e.data != [];
    assert Preorder(root) == [root] + Preorder(root.child) + Preorder(root.next);
    hide Preorder;
    assert e in Preorder(root.child);
  }

  lemma InPreorderOfRoot(root: Tree, e: Tree)
    requires root.Entry? && e in Preorder(root.child)
    ensures e in Preorder(root)
  {
    assert Preorder(root) == [root] + Preorder(root.child) + Preorder(root.next);
    hide Preorder;
  }

  lemma {:induction false} PreorderHasChild(t: Tree, e: Tree)
    requires e in Preorder(t) && e.Entry? && e.child.Entry?
    ensures e.child in Preorder(t)
    decreases t
  {
    assert Preorder(t) == [t] + Preorder(t.child) + Preorder(t.next);
    if e == t {
      assert Preorder(e.child) == [e.child] + Preorder(e.child.child) + Preorder(e.child.next);
      assert e.child in Preorder(t.child);
    } else if e in Preorder(t.child) {
      PreorderHasChild(t.child, e);
    } else {
      PreorderHasChild(t.next, e);
    }
  }

  /** The first entry of a directory is listed with it. */
  lemma ChildIsListed(t: Tree, e: Tree)
    requires e in Preorder(t) || e in Listing(t)
    requires e.Entry? && e.child.Entry?
    ensures e.child in Listing(t)
  {
    ListingIsPermutation(t);
    assert e in multiset(Preorder(t)) <==> e in Preorder(t);
    assert e in multiset(Listing(t)) <==> e in Listing(t);
    ListingIsPermutation(e.child);
    PreorderHasChild(t, e);
    assert e.child in multiset(Preorder(t));
    assert e.child in multiset(Listing(t));
  }

  lemma NoOffsetBehind(l: Layout, offs: map<nat, nat>, top: Tree, e: Tree, start: nat, dirEnd: nat, limit: nat)
    requires Area(l, Listing(top), start, dirEnd) && start >= 4 * OFFSET_LIMIT && start <= dirEnd
    requires e in Listing(top) && e.Entry? && l.ChildAt(e) && FiledOne(l, offs, e, dirEnd, limit) && InArea(l, e, start, dirEnd)
    ensures e.data == [] && e.child.Null?
  {
    hide Area, Holds, EntryBytes, DirBytes, Listing, FileAt, FileEnd, Siblings;
    if e.child.Entry? {
      ChildIsListed(top, e);
      AreaMember(l, Listing(top), start, dirEnd, e.child);
      InAreaMeans(l, e.child, start, dirEnd);
      InAreaMeans(l, e, start, dirEnd);
      RunTail(l, e.child, l.offsets[e.id]);
    }
  }

  /** If the directory area starts out of reach, no offset within reach leads to a listing or to a file. */
  lemma BehindIsFlat(l: Layout, offs: map<nat, nat>, top: Tree, root: Tree, start: nat, dirEnd: nat, limit: nat)
    requires Area(l, Listing(top), start, dirEnd) && start >= 4 * OFFSET_LIMIT && start <= dirEnd
    requires forall e :: e in Listing(top) ==> e.Entry? && l.ChildAt(e)
    requires Filed(l, offs, Preorder(root), dirEnd, limit)
    requires root.Entry? && root.child == top
    ensures Flat(top)
  {
    hide Area, InArea, Layout.ChildAt, FiledOne, Listing, Preorder, Storable, Layout.EntryAt;
    ListingIsPermutation(top);
    forall e | e in Preorder(top)
      ensures e.Entry? && e.data == [] && e.child.Null?
    {
      assert e in multiset(Preorder(top));
      assert e in multiset(Listing(top));
      InPreorderOfRoot(root, e);
      AreaMember(l, Listing(top), start, dirEnd, e);
      NoOffsetBehind(l, offs, top, e, start, dirEnd, limit);
    }
  }

  lemma TreeIsWritten(before: seq<byte>, laid: Layout, l: Layout, offs: map<nat, nat>, root: Tree, start: nat, dirEnd: nat,
                      limit: nat)
    requires root.Entry? && start <= dirEnd <= limit && start <= |before| && l.places == laid.places
    requires SameOutside(before, laid.img, start, dirEnd) && SameOutside(laid.img, l.img, start, limit)
    requires laid.Run(Siblings(root.child), start) && Area(l, Listing(root.child), start, dirEnd)
    requires forall e :: e in Listing(root.child) ==> e.Entry? && l.ChildAt(e)
    requires Filed(l, offs, Preorder(root), dirEnd, limit)
    ensures l.Run(Siblings(root.child), start) && |l.img| == |before| && l.img[..start] == before[..start]
    ensures start >= 4 * OFFSET_LIMIT ==> Flat(root.child)
  {
    hide Area, Layout.Run, Layout.ChildAt, Listing, Preorder, Siblings, Filed, Flat, Storable;
    ExtendsItself(l.places);
    RunExtends(laid, l, Siblings(root.child), start);
    if start >= 4 * OFFSET_LIMIT {
      BehindIsFlat(l, offs, root.child, root, start, dirEnd, limit);
    }
  }

  lemma SizesForSearch(root: Tree, top: Tree)
    requires root.Entry? && root.data == [] && root.next.Null? && root.child == top && Preorder(root) == [root] + Preorder(top)
    requires forall e :: e in Preorder(top) ==> Storable(e)
    ensures forall e :: e in Preorder(root) && e.Entry? && e.data != [] ==> e.stat.size == |e.data|
    ensures forall e :: e in Preorder(top) ==> e in Preorder(root)
    ensures DataEstimate(root) == DataEstimate(top)
    ensures |Preorder(root)| == |Preorder(top)| + 1
  {
    hide Preorder;
    forall e | e in Preorder(root) && e.Entry? && e.data != []
      ensures e.stat.size == |e.data|
    {
      assert e in Preorder(top);
      assert Storable(e);
      hide DirBytes;
    }
    assert DataEstimate(root.next) == 0 && DataAllowance(root) == 0;
  }

  lemma NothingFiled(l: Layout, offs: map<nat, nat>, dirEnd: nat)
    ensures Filed(l, offs, [], dirEnd, dirEnd) && DataEnd(l.rom, dirEnd, []) == dirEnd
  {
  }

  /** Duplicates, directories and data, behind what is reserved in front. */
  method WriteTree(b: Builder, root: Tree, start: nat) returns (ok: bool, end: nat, ghost dirEnd: nat)
    requires b.rom.Sound() && b.dirOffset == map[] && b.inodeOffset == map[] && b.same == map[] && start % 4 == 0
    requires root.Entry? && root.data == [] && root.next.Null? && Distinct(Preorder(root))
    requires forall e :: e in Preorder(root.child) ==> Storable(e)
    requires start + DirEstimate(root.child) + DataEstimate(root.child) <= b.image.Length
    modifies b, b.image
    ensures !ok ==> 4 * OFFSET_LIMIT <= start + DirEstimate(root.child) + DataEstimate(root.child) && !Flat(root.child)
    ensures ok && start >= 4 * OFFSET_LIMIT ==> Flat(root.child)
    ensures ok ==> b.image[..][..start] == old(b.image[..][..start])
    ensures ok ==> start <= dirEnd <= end <= start + DirEstimate(root.child) + DataEstimate(root.child)
    ensures ok ==> Area(b.L(), Listing(root.child), start, dirEnd) && b.L().Run(Siblings(root.child), start)
    ensures ok ==> forall e :: e in Listing(root.child) ==> e.Entry? && b.L().ChildAt(e)
    ensures ok ==> Filed(b.L(), b.offset, Preorder(root), dirEnd, end)
    ensures ok ==> dirEnd == start + DirEstimate(root.child) && end == DataEnd(b.rom, dirEnd, Preorder(root))
  {
    hide Storable, Holds, SameOutside, Distinct, Area, Filed, Layout.Run, Layout.ChildAt, Rom.Sound,
      Preorder, Listing, Siblings, DirBytes, DirEstimate, DataEstimate, Linked, FileAt, FileEnd, Flat, DataEnd;
    var top := root.child;
    ListedOnce(root, top);
    SizesForSearch(root, top);
    ghost var before := b.image[..];
    b.EliminateDoubles(root, root);
    assert b.image[..] == before;
    ok, end := b.WriteDirectoryStructure(top, start);
    dirEnd := end;
    if !ok {
      ParentIsNotFlat(top);
      return;
    }
    assert SameOutside(before, b.image[..], start, dirEnd);
    ghost var p, laid := Preorder(root), b.L();
    NothingFiled(b.L(), b.offset, dirEnd);
    assert [] + Preorder(root) + [] == p;
    ok, end := b.WriteData(root, end, p, [], [], Listing(top), start, dirEnd);
    if !ok {
      ContentIsNotFlat(root);
      return;
    }
    assert [] + Preorder(root) == p;
    TreeIsWritten(before, laid, b.L(), b.offset, root, start, dirEnd, end);
  }

  lemma FrontWritten(a: seq<byte>, b: seq<byte>, at: nat, part: seq<byte>, n: nat)
    requires SameOutside(a, b, at, at + |part|) && Holds(b, at, part) && at + |part| <= n <= |a|
    ensures b[..n] == Write(a[..n], at, part)
  {
  }

  /** The superblock lies in front of everything else, so all of it can be read back. */
  lemma Finished(l: Layout, img: seq<byte>, offs: map<nat, nat>, top: Tree, s: Stat, id: nat, p: seq<Tree>,
                 rootAt: nat, start: nat, dirEnd: nat, limit: nat, n: nat)
    requires l.rom.Sound() && |l.img| < 0x1_0000_0000 && start % 4 == 0
    requires Area(l, Listing(top), start, dirEnd) && l.Run(Siblings(top), start)
    requires forall e :: e in Listing(top) ==> e.Entry? && l.ChildAt(e)
    requires Filed(l, offs, p, dirEnd, limit) && forall e :: e in Preorder(top) ==> e in p
    requires start <= dirEnd <= limit <= n <= |l.img| && rootAt + INODE_BYTES <= start && DirEstimate(top) <= n
    requires SameOutside(l.img, img, rootAt, rootAt + INODE_BYTES)
    requires Holds(img, rootAt, InodeBytes(l.rom.order, RootInode(s, start)))
    requires IsDir(s.mode) && s.mode < 0x1_0000 && s.size == DirBytes(top) < SIZE_LIMIT
    ensures |img| == |l.img|
    ensures start < 4 * OFFSET_LIMIT || top.Null? ==>
      ReadRom(l.rom, img[..n], rootAt) == Some(Recovered(Entry(id, [], s, [], top, Null)))
  {
    hide Holds, Area, Filed, Layout.Run, Layout.ChildAt, Layout.Complete, Rom.Sound, Preorder, Listing, Siblings,
      DirBytes, DirEstimate, ReadRom, IsDir, InodeBytes, Recovered, RootInode;
    var m := l.(img := img);
    AreaKept(l, img, Listing(top), start, dirEnd, rootAt, rootAt + INODE_BYTES);
    FiledKept(l, m, offs, offs, p, rootAt, rootAt + INODE_BYTES, dirEnd, limit, limit);
    ExtendsItself(l.places);
    forall e | e in Listing(top)
      ensures e.Entry? && m.ChildAt(e)
    {
      ChildExtends(l, m, e);
    }
    TreeCompletes(m, offs, top, p, start, dirEnd, limit, n);
    var f := m.(img := img[..n]);
    RunExtends(l, f, Siblings(top), start);
    HoldsPrefix(img, n, rootAt, InodeBytes(l.rom.order, RootInode(s, start)));
    if start < 4 * OFFSET_LIMIT {
      RomReadsBack(f, top, s, id, rootAt, start);
    } else if top.Null? {
      EmptyRomReadsBack(f, s, id, rootAt, start);
    }
  }

  /** The superblock's root inode, and the part of the image that is written to the file. */
  method CloseImage(b: Builder, root: Tree, rootAt: nat, start: nat, end: nat, length: nat, ghost dirEnd: nat)
    returns (r: seq<byte>)
    requires b.rom.Sound() && b.image.Length < 0x1_0000_0000 && start % 4 == 0
    requires root.Entry? && root.name == [] && root.data == [] && root.next.Null?
    requires IsDir(root.stat.mode) && root.stat.mode < 0x1_0000 && root.stat.size == DirBytes(root.child) < SIZE_LIMIT
    requires Area(b.L(), Listing(root.child), start, dirEnd) && b.L().Run(Siblings(root.child), start)
    requires forall e :: e in Listing(root.child) ==> e.Entry? && b.L().ChildAt(e)
    requires Filed(b.L(), b.offset, Preorder(root), dirEnd, end) && forall e :: e in Preorder(root.child) ==> e in Preorder(root)
    requires start <= dirEnd <= end <= length <= b.image.Length && rootAt + INODE_BYTES <= start
    requires DirEstimate(root.child) <= length
    modifies b.image
    ensures |r| == length && (start < 4 * OFFSET_LIMIT || root.child.Null? ==> ReadRom(b.rom, r, rootAt) == Some(Recovered(root)))
    ensures r[..start] == Write(old(b.image[..])[..start], rootAt, InodeBytes(b.rom.order, RootInode(root.stat, start)))
  {
    hide Storable, Holds, SameOutside, Area, Filed, Layout.Run, Layout.ChildAt, Rom.Sound, Preorder, Listing, Siblings,
      DirBytes, DirEstimate, ReadRom, IsDir, InodeBytes, Recovered, RootInode;
    ghost var l := b.L();
    WriteRootInode(b.rom.order, b.image, rootAt, root.stat, start);
    r := b.image[..length];
    assert r == b.image[..][..length];
    Finished(l, b.image[..], b.offset, root.child, root.stat, root.id, Preorder(root), rootAt, start, dirEnd, end, length);
    FrontWritten(l.img, b.image[..], rootAt, InodeBytes(b.rom.order, RootInode(root.stat, start)), start);
    assert r[..start] == b.image[..][..start];
  }

  /** The root entry of a run. */
  function Root(mode: nat, uid: nat, gid: nat, id: nat, top: Tree): Tree {
    Entry(id, [], Stat(mode, uid, gid, DirBytes(top)), [], top, Null)
  }

  /** What mkcramfs accepts: a directory whose entries can be stored, and an estimate within its limit. */
  ghost predicate Accepts(setup: Setup, mode: nat, uid: nat, gid: nat, id: nat, top: Tree) {
    && setup.rom.Sound() && setup.Aligned() && IsDir(mode) && mode < 0x1_0000
    && Distinct(Preorder(Root(mode, uid, gid, id, top))) && (forall e :: e in Preorder(top) ==> Storable(e))
    && DirBytes(top) < 0x100_0000 && RoundUpBlock(setup.Estimate(top)) <= 285229051
  }

  /** Everything in front of the directory area: boot padding, the superblock with its root inode (its other fields are
      left zero here), the inserted image. */
  function FrontBytes(setup: Setup, s: Stat): (f: seq<byte>)
    requires setup.Aligned()
    ensures |f| == setup.Start()
  {
    Write(Zeros(setup.pad + setup.superBytes) + setup.boot + Zeros(RoundUp4(|setup.boot|) - |setup.boot|),
          setup.pad + setup.rootAt, InodeBytes(setup.rom.order, RootInode(s, setup.Start())))
  }

  lemma FrontPlaced(n: nat, at: nat, boot: seq<byte>)
    requires at + RoundUp4(|boot|) <= n
    ensures
      var front := Zeros(at) + boot + Zeros(RoundUp4(|boot|) - |boot|);
      && |front| == at + RoundUp4(|boot|)
      && Write(Zeros(n), at, boot)[..|front|] == front
      && (boot == [] ==> Zeros(n)[..|front|] == front)
  {
  }

  lemma NoPadding()
    ensures RoundUp4(0) == 0
  {
  }

  /** The part of the image in front of the directories, before the superblock is written. */
  method InsertBoot(setup: Setup, image: array<byte>) returns (start: nat)
    requires setup.Start() <= image.Length && image[..] == Zeros(image.Length)
    modifies image
    ensures start == setup.Start() <= image.Length
    ensures image[..][..start] == Zeros(setup.pad + setup.superBytes) + setup.boot + Zeros(RoundUp4(|setup.boot|) - |setup.boot|)
  {
    hide RoundUp4;
    start := setup.pad + setup.superBytes;
    FrontPlaced(image.Length, start, setup.boot);
    if setup.boot != [] {
      Store(image, start, setup.boot);
      start := start + RoundUp4(|setup.boot|);
    } else {
      NoPadding();
    }
  }

  /** main from the mapping on. */
  method WriteImage(b: Builder, setup: Setup, root: Tree) returns (r: Option<seq<byte>>)
    requires setup.rom.Sound() && setup.Aligned() && b.rom == setup.rom && b.image[..] == Zeros(b.image.Length)
    requires b.dirOffset == map[] && b.inodeOffset == map[] && b.same == map[]
    requires root.Entry? && root.name == [] && root.data == [] && root.next.Null? && IsDir(root.stat.mode)
    requires root.stat.mode < 0x1_0000 && root.stat.size == DirBytes(root.child) < SIZE_LIMIT
    requires Distinct(Preorder(root)) && forall e :: e in Preorder(root.child) ==> Storable(e)
    requires b.image.Length == RoundUpBlock(setup.Estimate(root.child)) <= MAX_LENGTH
    modifies b, b.image
    ensures r.None? ==> 4 * OFFSET_LIMIT <= setup.Estimate(root.child) && !Flat(root.child)
    ensures setup.Start() >= 4 * OFFSET_LIMIT ==> (r.Some? <==> Flat(root.child))
    ensures r.Some? ==> |r.value| <= RoundUpBlock(setup.Estimate(root.child))
    ensures r.Some? ==> |r.value| == RoundUpBlock(DataEnd(setup.rom, setup.Start() + DirEstimate(root.child), Preorder(root)))
    ensures r.Some? ==> FrontBytes(setup, root.stat) <= r.value
    ensures r.Some? && (setup.Start() < 4 * OFFSET_LIMIT || root.child.Null?) ==>
      ReadRom(setup.rom, r.value, setup.pad + setup.rootAt) == Some(Recovered(root))
  {
    hide Flat, Storable, Holds, SameOutside, Distinct, Area, Filed, Layout.Run, Layout.ChildAt, Layout.Complete,
      Rom.Sound, Preorder, Listing, Siblings, DirBytes, DirEstimate, DataEstimate, ReadRom, Linked, IsDir,
      InodeBytes, Word32, FileAt, FileEnd, RoundUpBlock, RoundUp4, Setup.Start, Setup.Estimate, Recovered, Write, DataEnd;
    StartEstimated(setup, root.child);
    var start := InsertBoot(setup, b.image);
    var ok, end, dirEnd := WriteTree(b, root, start);
    if !ok {
      return None;
    }
    RoundUpGrows(end, setup.Estimate(root.child));
    ListedOnce(root, root.child);
    var written := CloseImage(b, root, setup.pad + setup.rootAt, start, end, RoundUpBlock(end), dirEnd);
    r := Some(written);
  }

  lemma RootRecovered(mode: nat, uid: nat, gid: nat, id: nat, top: Tree)
    requires mode < 0x1_0000 && uid < 0x1_0000 && gid < 0x100 && DirBytes(top) < 0x100_0000 && AllFieldsFit(top)
    ensures Recovered(Root(mode, uid, gid, id, top)) == Entry(0, [], Stat(mode, uid, gid, DirBytes(top)), [], Erased(top), Null)
  {
    hide DirBytes;
    RecoveredIsErased(top);
    KeptKeeps(Stat(mode, uid, gid, DirBytes(top)));
  }

  /** The whole run. The image is no longer than the estimate, rounded up, and reads back, in either byte order, as the tree
      that was put in, if the directory area starts within reach of the root's offset or the root directory is empty. The
      run gives up only when the offset of another directory or of a file would not fit; behind the reach it does so exactly
      when there is such an offset. */
  method Build(setup: Setup, mode: nat, uid: nat, gid: nat, id: nat, top: Tree) returns (r: Option<seq<byte>>)
    requires Accepts(setup, mode, uid, gid, id, top)
    ensures r.None? ==> 4 * OFFSET_LIMIT <= setup.Estimate(top) && !Flat(top)
    ensures setup.Start() >= 4 * OFFSET_LIMIT ==> (r.Some? <==> Flat(top))
    ensures r.Some? ==> |r.value| <= RoundUpBlock(setup.Estimate(top))
    ensures r.Some? ==>
      |r.value| == RoundUpBlock(DataEnd(setup.rom, setup.Start() + DirEstimate(top), Preorder(Root(mode, uid, gid, id, top))))
    ensures r.Some? ==> FrontBytes(setup, Stat(mode, uid, gid, DirBytes(top))) <= r.value
    ensures r.Some? && (setup.Start() < 4 * OFFSET_LIMIT || top.Null?) ==>
      ReadRom(setup.rom, r.value, setup.pad + setup.rootAt) == Some(Recovered(Root(mode, uid, gid, id, top)))
    ensures r.Some? && (setup.Start() < 4 * OFFSET_LIMIT || top.Null?) && uid < 0x1_0000 && gid < 0x100 && AllFieldsFit(top) ==>
      ReadRom(setup.rom, r.value, setup.pad + setup.rootAt)
      == Some(Entry(0, [], Stat(mode, uid, gid, DirBytes(top)), [], Erased(top), Null))
  {
    hide DataEnd, AllFieldsFit, Erased, Flat, Storable, Distinct, Rom.Sound, Preorder, DirBytes, DirEstimate, DataEstimate, ReadRom, IsDir,
      RoundUpBlock, RoundUp4, Setup.Estimate, Recovered, FrontBytes;
    StartEstimated(setup, top);
    var estimate := setup.superBytes + (if setup.boot == [] then 0 else |setup.boot| + 3) + setup.pad;
    var total: nat;
    total, estimate := ParseSizes(top, estimate);
    assert estimate == setup.Estimate(top);
    var b := new Builder(setup.rom, RoundUpBlock(estimate));
    r := WriteImage(b, setup, Entry(id, [], Stat(mode, uid, gid, total), [], top, Null));
    if uid < 0x1_0000 && gid < 0x100 && AllFieldsFit(top) {
      RootRecovered(mode, uid, gid, id, top);
    }
  }

  // ---- behind the reach of the root's offset ----

  lemma {:induction false} ValueOfZeros(s: seq<byte>)
    requires forall i :: 0 <= i < |s| ==> s[i] == 0
    ensures Value(s) == 0 && Value(Reverse(s)) == 0
    decreases |s|
  {
    assert Reverse(s) == s;
    if s == [] {
    } else {
      ValueOfZeros(s[1..]);
    }
  }

  /** An inode with a first or a last word of zeros has no type or no name. */
  lemma ZeroWords(o: Order, raw: seq<byte>)
    requires |raw| == INODE_BYTES
    ensures (forall i :: 0 <= i < 4 ==> raw[i] == 0) ==> ReadInode(o, raw).mode == 0
    ensures (forall i :: 8 <= i < 12 ==> raw[i] == 0) ==> ReadInode(o, raw).namelen == 0
  {
    hide Value, Reverse;
    if forall i :: 0 <= i < 4 ==> raw[i] == 0 {
      ValueOfZeros(raw[0..2]);
    }
    if forall i :: 8 <= i < 12 ==> raw[i] == 0 {
      ValueOfZeros(raw[8..12]);
    }
  }

  /** Wherever the wrapped offset leads in a front without anything but the root inode, there is no inode that has both. */
  lemma NoEntryInFront(o: Order, n: nat, at: nat, i: Inode, w: nat)
    requires at % 4 == 0 && w % 4 == 0 && at + INODE_BYTES <= n && w + INODE_BYTES <= n && i.Fits() && i.namelen == 0
    ensures
      var j := ReadInode(o, Write(Zeros(n), at, InodeBytes(o, i))[w..w + INODE_BYTES]);
      j.mode == 0 || j.namelen == 0
  {
    hide InodeBytes, ReadInode;
    var front := Write(Zeros(n), at, InodeBytes(o, i));
    var raw := front[w..w + INODE_BYTES];
    ZeroWords(o, raw);
    InodeRoundTrip(o, i);
    if w == at {
      assert raw == InodeBytes(o, i);
    }
  }

  /** Such an entry is none that mkcramfs writes. */
  lemma NotWritten(rom: Rom, img: seq<byte>, at: nat, size: nat, depth: nat, t: Tree)
    requires t.Entry? && Storable(t) && size > 0 && at + INODE_BYTES <= |img|
    requires var j := ReadInode(rom.order, img[at..at + INODE_BYTES]); j.mode == 0 || j.namelen == 0
    ensures ReadEntries(rom, img, at, size, depth) != Some(Recovered(t))
  {
    hide ReadInode, ReadContent, ReadChild, DirBytes;
    var j := ReadInode(rom.order, img[at..at + INODE_BYTES]);
    if j.namelen == 0 {
      assert img[at + INODE_BYTES..at + INODE_BYTES + 4 * j.namelen] == [];
    } else {
      assert t.stat.mode % 0x1_0000 != 0;
    }
  }

  lemma RootIs(s: Stat, start: nat)
    requires IsDir(s.mode) && s.mode < 0x1_0000 && s.size < SIZE_LIMIT
    ensures
      var i := RootInode(s, start);
      IsDir(i.mode) && i.size == s.size && i.namelen == 0 && i.offset == start / 4 % OFFSET_LIMIT
  {
  }

  lemma RecoveredRoot(id: nat, s: Stat, top: Tree)
    ensures Recovered(Entry(id, [], s, [], top, Null)) == Entry(0, [], Kept(s), [], Recovered(top), Null)
  {
    hide Kept;
  }

  /** A listing that is not the one stored makes another tree. */
  lemma RootMisreads(rom: Rom, img: seq<byte>, rootAt: nat, i: Inode, top: Tree, s: Stat, id: nat)
    requires rootAt + INODE_BYTES <= |img| && ReadInode(rom.order, img[rootAt..rootAt + INODE_BYTES]) == i
    requires IsDir(i.mode) && i.size > 0
    requires ReadEntries(rom, img, 4 * i.offset, i.size, |img|) != Some(Recovered(top))
    ensures ReadRom(rom, img, rootAt) != Some(Recovered(Entry(id, [], s, [], top, Null)))
  {
    hide ReadInode, ReadEntries, Kept, IsDir;
    RecoveredRoot(id, s, top);
    hide Recovered;
  }

  lemma InPrefix(front: seq<byte>, img: seq<byte>, at: nat)
    requires front <= img && at + INODE_BYTES <= |front|
    ensures img[at..at + INODE_BYTES] == front[at..at + INODE_BYTES]
  {
  }

  lemma FrontIs(setup: Setup, s: Stat)
    requires setup.Aligned() && setup.boot == Zeros(|setup.boot|)
    ensures setup.pad + setup.rootAt + INODE_BYTES <= setup.Start()
    ensures FrontBytes(setup, s)
      == Write(Zeros(setup.Start()), setup.pad + setup.rootAt, InodeBytes(setup.rom.order, RootInode(s, setup.Start())))
  {
    hide InodeBytes, RoundUp4, Write, RootInode;
    assert Zeros(setup.pad + setup.superBytes) + setup.boot + Zeros(RoundUp4(|setup.boot|) - |setup.boot|)
        == Zeros(setup.Start());
  }

  lemma WrappedOffset(start: nat)
    requires 4 * OFFSET_LIMIT <= start < 8 * OFFSET_LIMIT && start % 4 == 0
    ensures 4 * (start / 4 % OFFSET_LIMIT) == start - 4 * OFFSET_LIMIT
  {
  }

  /** With nothing but zeros in the inserted image, the root's offset, cut to its field, leads to no entry of the tree. */
  lemma OutOfReach(setup: Setup, s: Stat, id: nat, top: Tree, img: seq<byte>)
    requires setup.Aligned() && setup.boot == Zeros(|setup.boot|) && FrontBytes(setup, s) <= img
    requires 4 * OFFSET_LIMIT <= setup.Start() < 8 * OFFSET_LIMIT
    requires IsDir(s.mode) && s.mode < 0x1_0000 && s.size == DirBytes(top) < SIZE_LIMIT && top.Entry? && Storable(top)
    ensures ReadRom(setup.rom, img, setup.pad + setup.rootAt) != Some(Recovered(Entry(id, [], s, [], top, Null)))
  {
    hide InodeBytes, ReadInode, ReadEntries, DirBytes, Storable, RoundUp4, FrontBytes, Write, Recovered, Kept, IsDir,
      Holds;
    var o, n, at := setup.rom.order, setup.Start(), setup.pad + setup.rootAt;
    var i, w := RootInode(s, n), n - 4 * OFFSET_LIMIT;
    var front := FrontBytes(setup, s);
    FrontIs(setup, s);
    WriteHolds(Zeros(n), at, InodeBytes(o, i));
    HoldsSlice(front, at, InodeBytes(o, i));
    InodeRoundTrip(o, i);
    NoEntryInFront(o, n, at, i, w);
    InPrefix(front, img, at);
    InPrefix(front, img, w);
    WrappedOffset(n);
    RootIs(s, n);
    EmptyListing(top);
    NotWritten(setup.rom, img, w, s.size, |img|, top);
    RootMisreads(setup.rom, img, at, i, top, s, id);
  }

  lemma StartBelow(setup: Setup, top: Tree)
    requires RoundUpBlock(setup.Estimate(top)) <= MAX_LENGTH
    ensures setup.Start() < 8 * OFFSET_LIMIT
  {
    StartEstimated(setup, top);
  }

  lemma SameLength(setup: Setup, other: Setup, top: Tree)
    requires other == setup.(boot := other.boot) && |other.boot| == |setup.boot|
    ensures other.Start() == setup.Start() && other.Estimate(top) == setup.Estimate(top)
  {
  }

  lemma FirstIsStorable(top: Tree)
    requires top.Entry? && forall e :: e in Preorder(top) ==> Storable(e)
    ensures Storable(top)
  {
    PreorderMembers(top);
    hide Storable, Preorder;
  }

  /** The limit is exact. Whether the directory area is within reach depends on the length of the inserted image only. If it
      is, or if the root directory is empty, Build's image reads back whatever is inserted; if not, then for some image
      of the same length, inserted instead, the run completes, as any run for such a tree does, and what it writes does
      not read back. */
  method MisreadBoot(setup: Setup, mode: nat, uid: nat, gid: nat, id: nat, top: Tree)
    returns (boot: seq<byte>, img: seq<byte>)
    requires Accepts(setup, mode, uid, gid, id, top) && Flat(top)
    requires setup.Start() >= 4 * OFFSET_LIMIT && top.Entry?
    ensures boot == Zeros(|setup.boot|)
    ensures
      var other := setup.(boot := boot);
      && Accepts(other, mode, uid, gid, id, top) && other.Start() == setup.Start()
      && FrontBytes(other, Stat(mode, uid, gid, DirBytes(top))) <= img
      && ReadRom(setup.rom, img, setup.pad + setup.rootAt) != Some(Recovered(Root(mode, uid, gid, id, top)))
  {
    hide Flat, Storable, Distinct, Preorder, DirBytes, ReadRom, Recovered, FrontBytes, Rom.Sound, IsDir, RoundUpBlock;
    boot := Zeros(|setup.boot|);
    var other := setup.(boot := boot);
    SameLength(setup, other, top);
    var r := Build(other, mode, uid, gid, id, top);
    img := r.value;
    FirstIsStorable(top);
    StartBelow(other, top);
    OutOfReach(other, Stat(mode, uid, gid, DirBytes(top)), id, top, img);
  }

  /** One FIFO behind an inserted image of 2^28 zeros. */
  function FarSetup(rom: Rom): Setup {
    Setup(rom, 76, 64, 0, Zeros(4 * OFFSET_LIMIT))
  }

  function FarTree(): Tree {
    Entry(1, [97], Stat(0x11a4, 0, 0, 0), [], Null, Null)
  }

  lemma FarIsAccepted(rom: Rom)
    requires rom.Sound()
    ensures Accepts(FarSetup(rom), 0x41ed, 0, 0, 0, FarTree()) && Flat(FarTree())
    ensures FarSetup(rom).Start() >= 4 * OFFSET_LIMIT
  {
  }

  /** A run that completes and cannot be read back: nothing in it is malformed, no offset but the root's is needed. */
  method MisreadExample(rom: Rom) returns (img: seq<byte>)
    requires rom.Sound()
    ensures Accepts(FarSetup(rom), 0x41ed, 0, 0, 0, FarTree()) && Flat(FarTree())
    ensures FrontBytes(FarSetup(rom), Stat(0x41ed, 0, 0, DirBytes(FarTree()))) <= img
    ensures ReadRom(rom, img, 64) != Some(Recovered(Root(0x41ed, 0, 0, 0, FarTree())))
  {
    FarIsAccepted(rom);
    hide ReadRom, Recovered, FrontBytes, Accepts, DirBytes;
    var boot;
    boot, img := MisreadBoot(FarSetup(rom), 0x41ed, 0, 0, 0, FarTree());
  }
}
