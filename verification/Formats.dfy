/** The formats on disk in numbers: for every structure the place and the width of each of its fields in bits, with the
    codes and limits that the modules call by name. */
module Formats {
  import opened Bits
  import opened BitFields
  import opened DataStore
  import opened Directories
  import opened FragmentTable
  import opened Inodes
  import opened MetadataBlocks
  import opened MetadataStream

  // ---- inodes ----

  /** What every inode starts with. */
  predicate StartsWith(o: Order, head: seq<byte>, code: nat, c: Common) {
    && |head| >= 4
    && Get(o, head, Field(0, 4)) == code && Get(o, head, Field(4, 12)) == c.mode
    && Get(o, head, Field(16, 8)) == c.uid && Get(o, head, Field(24, 8)) == c.guid
  }

  lemma HeaderField(o: Order, i: Inode, k: nat)
    requires i.Storable() && k < |i.Layout()|
    ensures i.HeaderBytes() <= |Encode(o, i)| && i.Layout()[k].Within(i.HeaderBytes())
    ensures Get(o, Encode(o, i)[..i.HeaderBytes()], i.Layout()[k]) == i.Values()[k]
  {
    hide Get, Pack, Fits;
    LayoutsAreSound();
    var header := Pack(o, i.HeaderBytes(), i.Layout(), i.Values());
    PackRoundTrip(o, i.HeaderBytes(), i.Layout(), i.Values(), k);
    assert Encode(o, i)[..i.HeaderBytes()] == header;
  }

  lemma CommonFields(o: Order, i: Inode)
    requires i.Storable()
    ensures i.HeaderBytes() <= |Encode(o, i)| && StartsWith(o, Encode(o, i)[..i.HeaderBytes()], i.TypeCode(), i.c)
  {
    hide Get, Encode, Inode.Storable;
    HeaderField(o, i, 0);
    HeaderField(o, i, 1);
    HeaderField(o, i, 2);
    HeaderField(o, i, 3);
  }

  /** A directory is type 1. */
  lemma DirectoryInodeOnDisk(o: Order, i: Inode)
    requires i.Directory? && i.Storable()
    ensures
      var b := Encode(o, i);
      && |b| == 15 && StartsWith(o, b, 1, i.c)
      && Get(o, b, Field(32, 19)) == i.fileSize && Get(o, b, Field(51, 13)) == i.offset
      && Get(o, b, Field(64, 32)) == i.mtime && Get(o, b, Field(96, 24)) == i.start
  {
    hide Get, Pack, Inode.Storable;
    CommonFields(o, i);
    assert Encode(o, i)[..15] == Encode(o, i);
    HeaderField(o, i, 4);
    HeaderField(o, i, 5);
    HeaderField(o, i, 6);
    HeaderField(o, i, 7);
  }

  lemma {:induction false} WordOfList(o: Order, data: seq<byte>, at: nat, n: nat, k: nat)
    requires at + 4 * n <= |data| && k < n
    ensures INT_LAYOUT[0].Within(4)
    ensures ReadInts(o, data, at, n)[k] == Get(o, data[at + 4 * k..at + 4 * k + 4], INT_LAYOUT[0])
  {
    hide Get;
    ReadIntsStep(o, data, at, n - 1);
    if k < n - 1 {
      WordOfList(o, data, at, n - 1, k);
    }
  }

  /** A regular file is type 2; a 32-bit word for each block follows its header. */
  lemma FileInodeOnDisk(o: Order, i: Inode)
    requires i.File? && i.Storable() && FitInts(i.blocks)
    ensures
      var b := Encode(o, i);
      && |b| == 24 + 4 * |i.blocks| && StartsWith(o, b[..24], 2, i.c)
      && Get(o, b[..24], Field(32, 32)) == i.mtime && Get(o, b[..24], Field(64, 32)) == i.start
      && Get(o, b[..24], Field(96, 32)) == i.fragment && Get(o, b[..24], Field(128, 32)) == i.offset
      && Get(o, b[..24], Field(160, 32)) == i.fileSize
      && forall k :: 0 <= k < |i.blocks| ==> Get(o, b[24 + 4 * k..24 + 4 * k + 4], Field(0, 32)) == i.blocks[k]
  {
    hide Get, Pack, Inode.Storable, FitInts, Ints, ReadInts;
    CommonFields(o, i);
    HeaderField(o, i, 4);
    HeaderField(o, i, 5);
    HeaderField(o, i, 6);
    HeaderField(o, i, 7);
    HeaderField(o, i, 8);
    var b := Encode(o, i);
    IntsRoundTrip(o, b, 24, i.blocks);
    forall k | 0 <= k < |i.blocks|
      ensures Get(o, b[24 + 4 * k..24 + 4 * k + 4], Field(0, 32)) == i.blocks[k]
    {
      WordOfList(o, b, 24, |i.blocks|, k);
    }
  }

  /** A symbolic link is type 3; its target follows its header. */
  lemma SymlinkInodeOnDisk(o: Order, i: Inode)
    requires i.Symlink? && i.Storable()
    ensures
      var b := Encode(o, i);
      && |b| == 6 + |i.target| && StartsWith(o, b[..6], 3, i.c)
      && Get(o, b[..6], Field(32, 16)) == |i.target| && b[6..] == i.target
  {
    hide Get, Pack, Inode.Storable;
    CommonFields(o, i);
    HeaderField(o, i, 4);
  }

  /** A block device is type 4, a character device type 5. */
  lemma DeviceInodeOnDisk(o: Order, i: Inode)
    requires i.Device? && i.Storable()
    ensures
      var b := Encode(o, i);
      |b| == 6 && StartsWith(o, b, if i.isChar then 5 else 4, i.c) && Get(o, b, Field(32, 16)) == i.rdev
  {
    hide Get, Pack, Inode.Storable;
    CommonFields(o, i);
    assert Encode(o, i)[..6] == Encode(o, i);
    HeaderField(o, i, 4);
  }

  /** A pipe is type 6, a socket type 7. */
  lemma IpcInodeOnDisk(o: Order, i: Inode)
    requires i.Ipc? && i.Storable()
    ensures |Encode(o, i)| == 4 && StartsWith(o, Encode(o, i), if i.isSocket then 7 else 6, i.c)
  {
    hide Get, Pack, Inode.Storable;
    CommonFields(o, i);
    assert Encode(o, i)[..4] == Encode(o, i);
  }

  // ---- metadata blocks ----

  /** A block of at most 8192 bytes: a 16-bit word in the byte order of the image, 0xff if the image has markers, and the
      bytes stored. These are the library's form of the data if that is shorter and metadata is to be compressed, the word
      being their number; else the data itself, the word being its length and 0x8000. */
  lemma MetadataBlockOnDisk(f: Format, data: seq<byte>)
    requires f.codec.Faithful() && 0 < |data| <= 8192
    ensures
      var b, packed := EncodeBlock(f, data), f.codec.compress(data);
      var head := if f.checkData then 3 else 2;
      && |b| > head && (f.checkData ==> b[2] == 0xff)
      && var first: int, second: int := b[0], b[1];
      var word := if f.order.LittleEndian? then first + 256 * second else 256 * first + second;
      if !f.uncompressed && |packed| < |data| then word == |packed| && b[head..] == packed
      else word == 0x8000 + |data| && b[head..] == data
  {
    var b, packed := EncodeBlock(f, data), f.codec.compress(data);
    var small := !f.uncompressed && |packed| < |data|;
    var head := Short(f.order, if small then |packed| else 0x8000 + |data|) + (if f.checkData then [0xff] else []);
    assert b == head + if small then packed else data;
  }

  /** A table: blocks of 8192 bytes and a rest. */
  lemma TableOnDisk(f: Format, s: seq<byte>)
    ensures EncodeStream(f, s) ==
      if s == [] then []
      else if |s| <= 8192 then EncodeBlock(f, s)
      else EncodeBlock(f, s[..8192]) + EncodeStream(f, s[8192..])
  {
    StreamParts(f, s);
  }

  /** The number of an item: where its block starts in the table, and behind 16 bits where it starts in that block. */
  lemma NumberOnDisk(f: Format, s: seq<byte>, p: nat)
    requires p <= |s|
    ensures NumberOf(f, s, p) == |EncodeStream(f, s[..p - p % 8192])| * 0x1_0000 + p % 8192
  {
  }

  // ---- directories ----

  lemma FitsThreeBytes(v: nat)
    requires v < 0x100_0000
    ensures Fits(v, 24)
  {
    FitsIsBound(v, 24);
    PowAdd(8, 8);
    PowAdd(16, 8);
    assert Pow2(8) == 256;
  }

  /** The header of a run: the number of its entries less one, and the block of their inodes. */
  lemma RunHeaderOnDisk(o: Order, count: nat, startBlock: nat)
    requires count < 256 && startBlock < 0x100_0000
    ensures
      var b := HeaderBytes(o, count, startBlock);
      |b| == 4 && Get(o, b, Field(0, 8)) == count && Get(o, b, Field(8, 24)) == startBlock
  {
    hide Get, HeaderBytes, Pow2;
    FitsByte(count);
    FitsThreeBytes(startBlock);
    HeaderRoundTrip(o, count, startBlock);
  }

  /** An entry: where its inode starts in its block, its type, the length of the name less one, and the name, of which no more
      than 256 bytes are kept. */
  lemma EntryOnDisk(o: Order, e: Entry)
    requires e.Storable()
    ensures
      var b, n := Directories.EntryBytes(o, e), if |e.name| <= 256 then |e.name| else 256;
      && |b| == 3 + n && b[3..] == e.name[..n]
      && Get(o, b[..3], Field(0, 13)) == e.inode % 0x1_0000 && Get(o, b[..3], Field(13, 3)) == e.kind
      && Get(o, b[..3], Field(16, 8)) == n - 1
  {
    hide Get, Pack, Fits;
    var name := e.Stored().name;
    NameFits(name);
    EntryHeadRoundTrip(o, e.Offset(), e.kind, |name| - 1);
    var head := Pack(o, DIR_ENTRY_BYTES, DIR_ENTRY_LAYOUT, [e.Offset(), e.kind, |name| - 1]);
    assert Directories.EntryBytes(o, e) == head + name && Directories.EntryBytes(o, e)[..3] == head;
  }

  // ---- fragments ----

  /** An entry of the table of fragment blocks: where the block lies, and its size word. */
  lemma FragmentEntryOnDisk(o: Order, e: FragmentEntry)
    requires Fits(e.start, 32) && Fits(e.size, 32)
    ensures
      var b := FragmentTable.EntryBytes(o, e);
      |b| == 8 && Get(o, b, Field(0, 32)) == e.start && Get(o, b, Field(32, 32)) == e.size
  {
    hide Get, Pack, Fits;
    LayoutsAreSound();
    var values := [e.start, e.size];
    assert InRange(FRAGMENT_ENTRY_LAYOUT, values);
    PackRoundTrip(o, FRAGMENT_ENTRY_BYTES, FRAGMENT_ENTRY_LAYOUT, values, 0);
    PackRoundTrip(o, FRAGMENT_ENTRY_BYTES, FRAGMENT_ENTRY_LAYOUT, values, 1);
  }

  // ---- the superblock ----

  /** The fields of the superblock, in order: each starts where the one before it ends. */
  lemma SuperBlockOnDisk(o: Order, v: seq<nat>, k: nat)
    requires InRange(SUPER_LAYOUT, v) && k < 19
    ensures |SUPER_LAYOUT| == 19 && |Pack(o, 63, SUPER_LAYOUT, v)| == 63
    ensures
      var pos := [0, 32, 64, 96, 128, 160, 192, 224, 240, 256, 272, 288, 296, 304, 312, 344, 408, 440, 472];
      var end := if k < 18 then pos[k + 1] else 504;
      Field(pos[k], end - pos[k]).Within(63) && Get(o, Pack(o, 63, SUPER_LAYOUT, v), Field(pos[k], end - pos[k])) == v[k]
  {
    hide Get, Pack, InRange;
    SuperBlockLayoutIsSound();
    PackRoundTrip(o, 63, SUPER_LAYOUT, v, k);
  }

  // ---- checksums ----

  /** The BSD checksum: to add a byte, rotate 16 bits right by one place, add, and drop the carry. */
  lemma ChecksumOnDisk(s: seq<byte>, b: byte)
    ensures Checksum([]) == 0
    ensures
      var sum := Checksum(s);
      Checksum(s + [b]) == (sum / 2 + sum % 2 * 0x8000 + b) % 0x1_0000
  {
    assert (s + [b])[..|s|] == s;
  }
}
