/** The tree mkcramfs builds, the orders in which it is traversed, the size accounting, and the reader that follows
    each directory's offset and size. */
module CramTree {
  import opened Wrappers

  import opened Bits
  import opened BitFields
  import opened CramFiles
  import opened CramInodes
  import opened MetadataBlocks

  datatype Stat = Stat(mode: nat, uid: nat, gid: nat, size: nat)

  /** struct entry: first child and next sibling. `data` is the content of a non-empty regular file or of a symbolic
      link, `id` stands for the identity of the structure. */
  datatype Tree =
    | Null
    | Entry(id: nat, name: seq<byte>, stat: Stat, data: seq<byte>, child: Tree, next: Tree)

  predicate IsDir(mode: nat) {
    mode / 0x1000 == 4
  }

  /** Regular files and symbolic links. */
  predicate HasContent(mode: nat) {
    mode / 0x1000 == 8 || mode / 0x1000 == 10
  }

  /** The types by their codes in stat.h: 4 is a directory, 8 a regular file, 10 a symbolic link. */
  lemma TypesInNumbers(mode: nat)
    ensures IsDir(mode) <==> 0x4000 <= mode < 0x5000
    ensures HasContent(mode) <==> 0x8000 <= mode < 0x9000 || 0xa000 <= mode < 0xb000
  {
  }

  // ---- orders ----

  function Siblings(t: Tree): seq<Tree> {
    if t.Null? then [] else [t] + Siblings(t.next)
  }

  function Below(t: Tree): seq<Tree>
    decreases t, 0
  {
    if t.Null? then [] else Listing(t.child) + Below(t.next)
  }

  /** The entries of the directory listing t, then those below it, directory by directory. */
  function Listing(t: Tree): seq<Tree>
    decreases t, 1
  {
    Siblings(t) + Below(t)
  }

  /** Entry, what is under it, what comes after it: the order of the search for duplicates and of the data. */
  function Preorder(t: Tree): seq<Tree> {
    if t.Null? then [] else [t] + Preorder(t.child) + Preorder(t.next)
  }

  /** No entry has anything below or behind it: no directory has entries, no file or link has content. */
  ghost predicate Flat(t: Tree) {
    forall e :: e in Preorder(t) ==> e.Entry? && e.data == [] && e.child.Null?
  }

  /** Every entry is in the listing order exactly as often as in the tree. */
  lemma {:induction false} ListingIsPermutation(t: Tree)
    ensures multiset(Listing(t)) == multiset(Preorder(t))
    ensures multiset(Siblings(t)) + multiset(Below(t)) == multiset(Preorder(t))
    decreases t
  {
    if t.Null? {
    } else {
      ListingIsPermutation(t.child);
      ListingIsPermutation(t.next);
      assert multiset([t] + Siblings(t.next)) == multiset{t} + multiset(Siblings(t.next));
      assert multiset(Listing(t.child) + Below(t.next)) == multiset(Listing(t.child)) + multiset(Below(t.next));
      assert multiset([t] + Preorder(t.child) + Preorder(t.next))
          == multiset{t} + multiset(Preorder(t.child)) + multiset(Preorder(t.next));
    }
    assert multiset(Siblings(t) + Below(t)) == multiset(Siblings(t)) + multiset(Below(t));
  }

  predicate Differ(e: Tree, f: Tree) {
    e.Entry? && f.Entry? && e.id != f.id
  }

  /** No two entries of the list are the same structure. */
  ghost predicate Distinct(s: seq<Tree>) {
    forall i, j :: 0 <= i < j < |s| ==> Differ(s[i], s[j])
  }

  lemma TwiceInSeq(s: seq<Tree>, i: nat, j: nat)
    requires i < j < |s| && s[i] == s[j]
    ensures multiset(s)[s[i]] >= 2
  {
    assert s == s[..j] + [s[j]] + s[j + 1..];
    assert s[..j][i] == s[i];
    assert s[i] in multiset(s[..j]);
  }

  lemma {:induction false} OnceInSeq(s: seq<Tree>, e: Tree)
    requires Distinct(s)
    ensures multiset(s)[e] <= 1
    decreases |s|
  {
    if s == [] {
    } else {
      var n := |s| - 1;
      OnceInSeq(s[..n], e);
      assert s == s[..n] + [s[n]];
      if s[n] == e {
        forall i | 0 <= i < n
          ensures s[..n][i] != e
        {
          assert Differ(s[i], s[n]);
        }
        assert e !in multiset(s[..n]);
      }
    }
  }

  lemma DifferentIds(s: seq<Tree>, e: Tree, f: Tree)
    requires Distinct(s) && e in s && f in s && e != f
    ensures Differ(e, f)
  {
    var p :| 0 <= p < |s| && s[p] == e;
    var q :| 0 <= q < |s| && s[q] == f;
    if p < q {
      assert Differ(s[p], s[q]);
    } else {
      assert Differ(s[q], s[p]);
    }
  }

  lemma PermutationIsDistinct(s: seq<Tree>, t: seq<Tree>)
    requires Distinct(s) && multiset(s) == multiset(t) && forall e :: e in s ==> !e.Null?
    ensures Distinct(t)
  {
    forall i, j | 0 <= i < j < |t|
      ensures Differ(t[i], t[j])
    {
      assert t[i] in multiset(t) && t[j] in multiset(t);
      assert t[i] in s && t[j] in s;
      if t[i] == t[j] {
        TwiceInSeq(t, i, j);
        OnceInSeq(s, t[i]);
        assert false;
      }
      DifferentIds(s, t[i], t[j]);
    }
  }

  lemma {:induction false} PreorderHasNoNull(t: Tree)
    ensures forall e :: e in Preorder(t) ==> !e.Null?
    decreases t
  {
    if t.Null? {
    } else {
      PreorderHasNoNull(t.child);
      PreorderHasNoNull(t.next);
    }
  }

  // ---- sizes ----

  /** A name padded to a multiple of four bytes. */
  function Len(e: Tree): (n: nat)
    ensures n % 4 == 0
  {
    if e.Null? then 0 else INODE_BYTES + RoundUp4(|e.name|)
  }

  function TotalLen(s: seq<Tree>): (n: nat)
    ensures n % 4 == 0
  {
    if s == [] then 0 else TotalLen(s[..|s| - 1]) + Len(s[|s| - 1])
  }

  /** The size of a directory: what parse_directory returns for it. */
  function DirBytes(t: Tree): nat {
    TotalLen(Siblings(t))
  }

  /** The block pointers and data of one file in the estimate of parse_directory. */
  function DataAllowance(e: Tree): (n: nat)
    ensures e.Entry? && e.data != [] ==> n == 30 * ((|e.data| + 4095) / 4096) + |e.data| + 3
  {
    if e.Null? || e.data == [] then 0
    else (4 + ALLOWANCE) * BlockCount(|e.data|) + |e.data| + 3
  }

  /** What a directory listing and all below it add to the estimate: for the directories and for the data. */
  function DirEstimate(t: Tree): nat {
    if t.Null? then 0 else Len(t) + DirEstimate(t.child) + DirEstimate(t.next)
  }

  function DataEstimate(t: Tree): nat {
    if t.Null? then 0 else DataAllowance(t) + DataEstimate(t.child) + DataEstimate(t.next)
  }

  lemma {:induction false} TotalLenConcat(s: seq<Tree>, t: seq<Tree>)
    ensures TotalLen(s + t) == TotalLen(s) + TotalLen(t)
    decreases |t|
  {
    if t == [] {
      assert s + t == s;
    } else {
      var n := |t| - 1;
      assert (s + t)[..|s + t| - 1] == s + t[..n];
      TotalLenConcat(s, t[..n]);
    }
  }

  lemma TotalLenOne(e: Tree)
    ensures TotalLen([e]) == Len(e)
  {
    assert [e][..0] == [];
  }

  lemma NoBytes()
    ensures TotalLen([]) == 0
  {
  }

  /** The estimate counts the directory area exactly. */
  lemma {:induction false} ListingBytes(t: Tree)
    ensures TotalLen(Listing(t)) == DirEstimate(t)
    ensures TotalLen(Siblings(t)) + TotalLen(Below(t)) == DirEstimate(t)
    decreases t
  {
    hide TotalLen, Len;
    if t.Null? {
      NoBytes();
    } else {
      ListingBytes(t.child);
      ListingBytes(t.next);
      TotalLenConcat([t], Siblings(t.next));
      TotalLenOne(t);
      TotalLenConcat(Listing(t.child), Below(t.next));
    }
    TotalLenConcat(Siblings(t), Below(t));
  }

  // ---- what is stored for one entry ----

  /** The types parse_directory accepts: FIFO, character device, directory, block device, file, link, socket. */
  predicate ValidType(mode: nat) {
    mode / 0x1000 in {1, 2, 4, 6, 8, 10, 12}
  }

  lemma ValidTypesInNumbers(mode: nat)
    requires mode < 0x1_0000
    ensures ValidType(mode) <==>
      || 0x1000 <= mode < 0x2000 || 0x2000 <= mode < 0x3000 || IsDir(mode) || 0x6000 <= mode < 0x7000 || HasContent(mode)
      || 0xc000 <= mode < 0xd000
  {
  }

  predicate Sized(e: Tree)
    requires e.Entry?
  {
    && e.stat.mode < 0x1_0000 && ValidType(e.stat.mode)
    && (IsDir(e.stat.mode) ==> e.stat.size == DirBytes(e.child) < SIZE_LIMIT)
    && (!IsDir(e.stat.mode) ==> e.child.Null?)
    && (HasContent(e.stat.mode) ==> e.stat.size == |e.data| < SIZE_LIMIT)
    && (!HasContent(e.stat.mode) ==> e.data == [])
  }

  /** What mkcramfs can store of an entry: names as scandir and truncation leave them, a size that matches the
      content, directories below 2^24 bytes. */
  predicate Storable(e: Tree) {
    && e.Entry?
    && 0 < |e.name| <= 252 && (forall i :: 0 <= i < |e.name| ==> e.name[i] != 0)
    && Sized(e)
  }

  /** The fields as the inode's bit fields keep them: numbers too wide lose their high bits. */
  function Kept(s: Stat): Stat {
    Stat(s.mode % 0x1_0000, s.uid % 0x1_0000, s.gid % 0x100, s.size % SIZE_LIMIT)
  }

  predicate FieldsFit(s: Stat) {
    s.mode < 0x1_0000 && s.uid < 0x1_0000 && s.gid < 0x100 && s.size < 0x100_0000
  }

  /** Numbers that fit their fields are kept; of others each field keeps what its own bits hold. */
  lemma KeptKeeps(s: Stat)
    ensures Kept(s) == s <==> FieldsFit(s)
    ensures Kept(s).mode % 0x1_0000 == s.mode % 0x1_0000 && Kept(s).mode < 0x1_0000
    ensures Kept(s).uid % 0x1_0000 == s.uid % 0x1_0000 && Kept(s).uid < 0x1_0000
    ensures Kept(s).gid % 0x100 == s.gid % 0x100 && Kept(s).gid < 0x100
    ensures Kept(s).size % 0x100_0000 == s.size % 0x100_0000 && Kept(s).size < 0x100_0000
  {
  }

  function InodeOf(e: Tree, offset: nat): (i: Inode)
    requires e.Entry? && |e.name| <= 252 && offset < 4 * OFFSET_LIMIT
    ensures i.Fits()
  {
    var s := Kept(e.stat);
    Inode(s.mode, s.uid, s.gid, s.size, RoundUp4(|e.name|) / 4, offset / 4)
  }

  function NameBytes(e: Tree): (s: seq<byte>)
    requires e.Entry?
    ensures |s| == RoundUp4(|e.name|)
  {
    e.name + Zeros(RoundUp4(|e.name|) - |e.name|)
  }

  /** Inode, name, padding. */
  function EntryBytes(o: Order, e: Tree, offset: nat): (s: seq<byte>)
    requires e.Entry? && |e.name| <= 252 && offset < 4 * OFFSET_LIMIT
    ensures |s| == Len(e)
  {
    InodeBytes(o, InodeOf(e, offset)) + NameBytes(e)
  }

  /** What a reader can recover: names, stored fields, contents and shape, but not identity. */
  function Recovered(t: Tree): Tree {
    if t.Null? then Null
    else Entry(0, t.name, Kept(t.stat), t.data, Recovered(t.child), Recovered(t.next))
  }

  /** The tree itself, but for the identities. */
  function Erased(t: Tree): Tree {
    if t.Null? then Null else t.(id := 0, child := Erased(t.child), next := Erased(t.next))
  }

  /** All numbers fit their fields. */
  predicate AllFieldsFit(t: Tree) {
    t.Entry? ==> FieldsFit(t.stat) && AllFieldsFit(t.child) && AllFieldsFit(t.next)
  }

  /** What is recovered is the tree itself exactly if all numbers fit. */
  lemma {:induction false} RecoveredIsErased(t: Tree)
    ensures Recovered(t) == Erased(t) <==> AllFieldsFit(t)
    decreases t
  {
    hide Kept, FieldsFit;
    if t.Entry? {
      KeptKeeps(t.stat);
      RecoveredIsErased(t.child);
      RecoveredIsErased(t.next);
    }
  }

  // ---- reading ----

  /** A name without its padding. */
  function Strip(s: seq<byte>): seq<byte> {
    if s != [] && s[|s| - 1] == 0 then Strip(s[..|s| - 1]) else s
  }

  lemma {:induction false} StripPadding(name: seq<byte>, n: nat)
    requires forall i :: 0 <= i < |name| ==> name[i] != 0
    ensures Strip(name + Zeros(n)) == name
    decreases n
  {
    var s := name + Zeros(n);
    if n == 0 {
      assert s == name;
    } else {
      assert s[..|s| - 1] == name + Zeros(n - 1);
      StripPadding(name, n - 1);
    }
  }

  /** The content or the listing an inode points to. */
  function ReadContent(rom: Rom, img: seq<byte>, i: Inode): Option<seq<byte>> {
    if HasContent(i.mode) && i.size > 0 then ReadFile(rom, img, 4 * i.offset, i.size) else Some([])
  }

  function ReadChild(rom: Rom, img: seq<byte>, i: Inode, depth: nat): Option<Tree>
    decreases depth, 0
  {
    if !IsDir(i.mode) || i.size == 0 then Some(Null)
    else if depth == 0 then None
    else ReadEntries(rom, img, 4 * i.offset, i.size, depth - 1)
  }

  /** A directory listing: `size` bytes of entries from `at` on, directories at most `depth` deep. */
  function ReadEntries(rom: Rom, img: seq<byte>, at: nat, size: nat, depth: nat): Option<Tree>
    decreases depth, size
  {
    if size == 0 then Some(Null)
    else if at + INODE_BYTES > |img| then None
    else
      var i := ReadInode(rom.order, img[at..at + INODE_BYTES]);
      var len := INODE_BYTES + 4 * i.namelen;
      if len > size || at + len > |img| then None
      else
        match ReadContent(rom, img, i)
        case None => None
        case Some(data) =>
          match ReadChild(rom, img, i, depth)
          case None => None
          case Some(child) =>
            match ReadEntries(rom, img, at + len, size - len, depth)
            case None => None
            case Some(next) =>
              Some(Entry(0, Strip(img[at + INODE_BYTES..at + len]), Stat(i.mode, i.uid, i.gid, i.size), data, child, next))
  }

  /** The whole file system, from the root inode on. It cannot be deeper than it has bytes. */
  function ReadRom(rom: Rom, img: seq<byte>, rootAt: nat): Option<Tree> {
    if rootAt + INODE_BYTES > |img| then None
    else
      var i := ReadInode(rom.order, img[rootAt..rootAt + INODE_BYTES]);
      match ReadChild(rom, img, i, |img| + 1)
      case None => None
      case Some(child) => Some(Entry(0, [], Stat(i.mode, i.uid, i.gid, i.size), [], child, Null))
  }

  function Height(t: Tree): nat {
    if t.Null? then 0
    else
      var c, n := (if t.child.Null? then 0 else 1 + Height(t.child)), Height(t.next);
      if c > n then c else n
  }

  lemma LenPositive(t: Tree)
    requires t.Entry?
    ensures Len(t) >= INODE_BYTES
  {
  }

  lemma {:induction false} HeightBound(t: Tree)
    ensures Height(t) <= DirEstimate(t)
    decreases t
  {
    hide Len;
    if t.Null? {
    } else {
      HeightBound(t.child);
      HeightBound(t.next);
      LenPositive(t);
    }
  }

  // ---- a finished image ----

  /** Where everything is: the image, each entry's place in the directory area, and the offset in each inode. */
  datatype Layout = Layout(rom: Rom, img: seq<byte>, places: map<nat, nat>, offsets: map<nat, nat>) {
    function OffsetOf(e: Tree): nat
      requires e.Entry?
    {
      if e.id in offsets then offsets[e.id] else 0
    }

    /** A listing in one run of bytes from `at` on. */
    ghost predicate Run(s: seq<Tree>, at: nat) {
      forall i :: 0 <= i < |s| ==> s[i].Entry? && s[i].id in places && places[s[i].id] == at + TotalLen(s[..i])
    }

    /** The entry is where it should be, with its name and its inode. */
    predicate EntryAt(e: Tree)
      requires e.Entry? && |e.name| <= 252
    {
      && e.id in places && OffsetOf(e) < 4 * OFFSET_LIMIT && OffsetOf(e) % 4 == 0
      && Holds(img, places[e.id], EntryBytes(rom.order, e, OffsetOf(e)))
    }

    /** A directory's offset leads to its listing. */
    ghost predicate ChildAt(e: Tree)
      requires e.Entry?
    {
      e.child.Entry? ==> e.id in offsets && Run(Siblings(e.child), offsets[e.id])
    }

    /** A file's offset leads to its content. */
    ghost predicate ContentAt(e: Tree)
      requires e.Entry?
    {
      e.data != [] ==> e.id in offsets && FileAt(rom, img, offsets[e.id], e.data)
                       && FileEnd(rom, offsets[e.id], e.data) <= |img|
    }

    ghost predicate Complete(e: Tree) {
      Storable(e) && EntryAt(e) && ChildAt(e) && ContentAt(e)
    }
  }

  lemma RunTail(l: Layout, t: Tree, at: nat)
    requires t.Entry? && l.Run(Siblings(t), at)
    ensures t.id in l.places && l.places[t.id] == at && l.Run(Siblings(t.next), at + Len(t))
    ensures DirBytes(t) == Len(t) + DirBytes(t.next)
  {
    hide Len, TotalLen;
    var s, rest := Siblings(t), Siblings(t.next);
    assert s[..0] == [];
    NoBytes();
    TotalLenOne(t);
    TotalLenConcat([t], rest);
    assert s[0] == t;
    forall i | 0 <= i < |rest|
      ensures rest[i].Entry? && rest[i].id in l.places && l.places[rest[i].id] == at + Len(t) + TotalLen(rest[..i])
    {
      assert s[i + 1] == rest[i];
      assert s[..i + 1] == [t] + rest[..i];
      TotalLenConcat([t], rest[..i]);
    }
  }

  lemma EntryReadsBack(l: Layout, e: Tree)
    requires Storable(e) && l.EntryAt(e)
    ensures
      var at := l.places[e.id];
      && at + Len(e) <= |l.img|
      && ReadInode(l.rom.order, l.img[at..at + INODE_BYTES]) == InodeOf(e, l.OffsetOf(e))
      && Strip(l.img[at + INODE_BYTES..at + Len(e)]) == e.name
      && INODE_BYTES + 4 * InodeOf(e, l.OffsetOf(e)).namelen == Len(e)
  {
    hide InodeBytes, ReadInode, Holds, Strip, Kept, DirBytes, RoundUp4, Inode.Fits;
    var at, off := l.places[e.id], l.OffsetOf(e);
    var bytes := EntryBytes(l.rom.order, e, off);
    HoldsSlice(l.img, at, bytes);
    InodeRoundTrip(l.rom.order, InodeOf(e, off));
    StripPadding(e.name, RoundUp4(|e.name|) - |e.name|);
    SubSlice(l.img, at, at + Len(e), 0, INODE_BYTES);
    SubSlice(l.img, at, at + Len(e), INODE_BYTES, Len(e));
    assert bytes[0..INODE_BYTES] == InodeBytes(l.rom.order, InodeOf(e, off));
    assert bytes[INODE_BYTES..Len(e)] == NameBytes(e);
  }

  lemma ContentReadsBack(l: Layout, e: Tree)
    requires l.rom.Sound() && l.Complete(e) && |l.img| < 0x1_0000_0000
    ensures ReadContent(l.rom, l.img, InodeOf(e, l.OffsetOf(e))) == Some(e.data)
  {
    hide FileAt, FileEnd, ReadFile, Rom.Sound, Holds, EntryBytes, DirBytes;
    if e.data != [] {
      FileReadsBack(l.rom, l.img, l.offsets[e.id], e.data);
    }
  }

  /** One entry of a listing, given what the reader makes of its parts. */
  lemma OneMoreEntry(rom: Rom, img: seq<byte>, t: Tree, i: Inode, at: nat, size: nat, depth: nat)
    requires t.Entry? && size > 0 && at + INODE_BYTES <= at + Len(t) <= |img| && Len(t) <= size
    requires ReadInode(rom.order, img[at..at + INODE_BYTES]) == i && INODE_BYTES + 4 * i.namelen == Len(t)
    requires Strip(img[at + INODE_BYTES..at + Len(t)]) == t.name
    requires Stat(i.mode, i.uid, i.gid, i.size) == Kept(t.stat)
    requires ReadContent(rom, img, i) == Some(t.data)
    requires ReadChild(rom, img, i, depth) == Some(Recovered(t.child))
    requires ReadEntries(rom, img, at + Len(t), size - Len(t), depth) == Some(Recovered(t.next))
    ensures ReadEntries(rom, img, at, size, depth) == Some(Recovered(t))
  {
    hide ReadInode, Strip, ReadContent, ReadChild, Len, Kept;
  }

  lemma InodeFields(e: Tree, off: nat)
    requires Storable(e) && off < 4 * OFFSET_LIMIT
    ensures
      var i := InodeOf(e, off);
      && Stat(i.mode, i.uid, i.gid, i.size) == Kept(e.stat)
      && i.mode == e.stat.mode && i.offset == off / 4
      && (IsDir(i.mode) ==> i.size == DirBytes(e.child))
      && (!IsDir(i.mode) ==> e.child.Null?)
  {
    hide DirBytes;
  }

  lemma EmptyListing(t: Tree)
    ensures DirBytes(t) == 0 <==> t.Null?
  {
    if !t.Null? {
      hide Len, TotalLen;
      TotalLenConcat([t], Siblings(t.next));
      TotalLenOne(t);
      LenPositive(t);
    }
  }

  lemma OffsetFits(l: Layout, e: Tree)
    requires l.Complete(e)
    ensures l.OffsetOf(e) < 4 * OFFSET_LIMIT && l.OffsetOf(e) % 4 == 0 && |e.name| <= 252
  {
    hide Holds, EntryBytes, DirBytes, Layout.ChildAt, Layout.ContentAt;
  }

  lemma {:induction false} ChildReads(l: Layout, t: Tree, i: Inode, depth: nat)
    requires l.rom.Sound() && |l.img| < 0x1_0000_0000 && t.Entry? && depth >= Height(t)
    requires forall e :: e in Preorder(t.child) ==> l.Complete(e)
    requires l.ChildAt(t) && l.OffsetOf(t) % 4 == 0
    requires IsDir(i.mode) ==> i.size == DirBytes(t.child)
    requires !IsDir(i.mode) ==> t.child.Null?
    requires i.offset == l.OffsetOf(t) / 4
    ensures ReadChild(l.rom, l.img, i, depth) == Some(Recovered(t.child))
    decreases t, 0
  {
    hide ReadEntries, Layout.Run, Layout.Complete, Rom.Sound, DirBytes, IsDir;
    EmptyListing(t.child);
    if t.child.Null? {
    } else {
      ListingReadsBack(l, t.child, l.offsets[t.id], depth - 1);
    }
  }

  lemma NothingToRead(rom: Rom, img: seq<byte>, at: nat, depth: nat)
    ensures ReadEntries(rom, img, at, 0, depth) == Some(Null)
  {
  }

  /** A complete listing reads back as the tree it was made from. */
  lemma {:induction false} ListingReadsBack(l: Layout, t: Tree, at: nat, depth: nat)
    requires l.rom.Sound() && |l.img| < 0x1_0000_0000 && depth >= Height(t)
    requires forall e :: e in Preorder(t) ==> l.Complete(e)
    requires l.Run(Siblings(t), at)
    ensures ReadEntries(l.rom, l.img, at, DirBytes(t), depth) == Some(Recovered(t))
    ensures AllFieldsFit(t) ==> ReadEntries(l.rom, l.img, at, DirBytes(t), depth) == Some(Erased(t))
    decreases t
  {
    hide ReadEntries, ReadChild, Layout.Run, Layout.EntryAt, Layout.ContentAt, Storable, Rom.Sound, DirBytes, Len,
      ReadContent, InodeOf, ReadInode, Strip, Kept, Siblings, Erased, AllFieldsFit;
    RecoveredIsErased(t);
    if t.Null? {
      EmptyListing(t);
      NothingToRead(l.rom, l.img, at, depth);
    } else {
      assert t in Preorder(t);
      assert l.Complete(t);
      var off := l.OffsetOf(t);
      OffsetFits(l, t);
      var i := InodeOf(t, off);
      RunTail(l, t, at);
      EntryReadsBack(l, t);
      ContentReadsBack(l, t);
      InodeFields(t, off);
      assert forall e :: e in Preorder(t.next) ==> e in Preorder(t);
      ListingReadsBack(l, t.next, at + Len(t), depth);
      ChildReads(l, t, i, depth);
      LenPositive(t);
      OneMoreEntry(l.rom, l.img, t, i, at, DirBytes(t), depth);
    }
  }
}
