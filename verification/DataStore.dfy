/** The data section: file blocks, fragment blocks shared by file tails, and the index of duplicates. */
module DataStore {
  import opened Wrappers

  import opened Bits
  import opened BitFields
  import opened FileBlocks
  import opened Inodes
  import opened MetadataBlocks

  const HASH_SIZE: nat := 0x1_0000
  const CHUNK: nat := 0x1_0000   // SQUASHFS_FILE_MAX_SIZE

  // ---- checksums ----

  /** One step of the 16-bit BSD checksum: rotate right, add a byte. */
  function ChecksumStep(sum: nat, b: byte): (r: nat)
    requires sum < HASH_SIZE
    ensures r < HASH_SIZE
  {
    ((if sum % 2 == 1 then sum / 2 + 0x8000 else sum / 2) + b) % HASH_SIZE
  }

  function Checksum(s: seq<byte>): (r: nat)
    ensures r < HASH_SIZE
  {
    if s == [] then 0 else ChecksumStep(Checksum(s[..|s| - 1]), s[|s| - 1])
  }

  lemma ChecksumOfMore(s: seq<byte>, k: nat)
    requires k < |s|
    ensures Checksum(s[..k + 1]) == ChecksumStep(Checksum(s[..k]), s[k])
  {
    hide ChecksumStep;
    assert s[..k + 1][..k] == s[..k];
  }

  lemma NoChecksum(s: seq<byte>)
    ensures Checksum(s[..0]) == 0
  {
  }

  /** get_checksum: reads the data in chunks of at most 64K; the sum is that of the whole. */
  method GetChecksum(s: seq<byte>) returns (sum: nat)
    ensures sum == Checksum(s)
  {
    hide ChecksumStep, Checksum;
    NoChecksum(s);
    sum := 0;
    var l := |s|;
    while l > 0
      invariant 0 <= l <= |s| && sum < HASH_SIZE && sum == Checksum(s[..|s| - l])
    {
      var n := if l > CHUNK then CHUNK else l;
      var at := |s| - l;
      var chunk := s[at..at + n];
      l := l - n;
      for i := 0 to n
        invariant sum < HASH_SIZE && sum == Checksum(s[..at + i])
      {
        ChecksumOfMore(s, at + i);
        assert chunk[i] == s[at + i];
        sum := ChecksumStep(sum, chunk[i]);
      }
    }
    assert s[..|s|] == s;
  }

  // ---- fragments ----

  /** struct fragment: the place of a file tail in a fragment block. */
  datatype Fragment = Fragment(index: nat, offset: nat, size: nat)

  const EMPTY_FRAGMENT := Fragment(INVALID_BLK, 0, 0)

  /** The fragment that a tail of n bytes is due when `fragments` blocks are finished and the one in memory holds `used` bytes:
      none for no tail, else the place behind what the block holds, or the start of the next block if it does not fit there. */
  function DueFragment(fragments: nat, used: nat, blockSize: nat, n: nat): Fragment {
    if n == 0 then Fragment(0xffff_ffff, 0, 0)
    else if used + n > blockSize then Fragment(fragments + 1, 0, n)
    else Fragment(fragments, used, n)
  }

  /** squashfs_fragment_entry: where a finished fragment block lies on disk. */
  datatype FragmentEntry = FragmentEntry(start: nat, size: nat)

  /** Given the contents of all fragment blocks, the last one still in memory, the fragment is a part of its block. */
  predicate Placed(blocks: seq<seq<byte>>, fr: Fragment) {
    fr.size == 0 || (fr.index < |blocks| && fr.offset + fr.size <= |blocks[fr.index]|)
  }

  function TailOf(blocks: seq<seq<byte>>, fr: Fragment): seq<byte>
    requires Placed(blocks, fr)
  {
    if fr.size == 0 then [] else blocks[fr.index][fr.offset..fr.offset + fr.size]
  }

  /** Blocks are only ever extended and added. */
  ghost predicate GrowsTo(blocks: seq<seq<byte>>, later: seq<seq<byte>>) {
    |blocks| <= |later| && forall k :: 0 <= k < |blocks| ==> blocks[k] <= later[k]
  }

  /** Fragments keep their bytes while blocks fill up and leave memory. */
  lemma TailStays(blocks: seq<seq<byte>>, later: seq<seq<byte>>, fr: Fragment)
    requires Placed(blocks, fr) && GrowsTo(blocks, later)
    ensures Placed(later, fr) && TailOf(later, fr) == TailOf(blocks, fr)
  {
  }

  /** The size word of a data block or fragment block: the length of its compressed form if that is shorter and blocks are not
      to be kept as they are, else its own length and 0x1000000. */
  function SizeWord(codec: Codec, block: seq<byte>, plain: bool): nat {
    var packed := codec.compress(block);
    if !plain && |packed| < |block| then |packed| else 0x100_0000 + |block|
  }

  lemma SizeWordOf(codec: Codec, block: seq<byte>, plain: bool)
    requires |block| < COMPRESSED_BIT_BLOCK
    ensures Mangle(codec, block, plain, COMPRESSED_BIT_BLOCK).0 == SizeWord(codec, block, plain)
  {
  }

  /** A finished fragment block can be read back from below position `bytes`. */
  predicate BlockOnDisk(codec: Codec, blockSize: nat, disk: seq<byte>, bytes: nat, e: FragmentEntry, block: seq<byte>) {
    var stored := StoredSize(e.size, COMPRESSED_BIT_BLOCK);
    && e.start + stored <= bytes <= |disk| && e.size < 2 * COMPRESSED_BIT_BLOCK && |block| <= blockSize
    && Unmangle(codec, e.size, disk[e.start..e.start + stored], COMPRESSED_BIT_BLOCK, blockSize) == Some(block)
  }

  predicate SameBelow(disk: seq<byte>, later: seq<byte>, bytes: nat) {
    bytes <= |disk| && bytes <= |later| && disk[..bytes] == later[..bytes]
  }

  lemma BlockStaysOnDisk(codec: Codec, blockSize: nat, disk: seq<byte>, later: seq<byte>, bytes: nat, more: nat,
                         e: FragmentEntry, block: seq<byte>)
    requires BlockOnDisk(codec, blockSize, disk, bytes, e, block)
    requires SameBelow(disk, later, bytes) && bytes <= more <= |later|
    ensures BlockOnDisk(codec, blockSize, later, more, e, block)
  {
    var end := e.start + StoredSize(e.size, COMPRESSED_BIT_BLOCK);
    assert disk[e.start..end] == disk[..bytes][e.start..end];
    assert later[e.start..end] == later[..bytes][e.start..end];
  }

  lemma HeldStays(disk: seq<byte>, later: seq<byte>, bytes: nat, at: nat, part: seq<byte>)
    requires SameBelow(disk, later, bytes) && at + |part| <= bytes && Holds(disk, at, part)
    ensures Holds(later, at, part)
  {
    forall i | 0 <= i < |part|
      ensures later[at + i] == part[i]
    {
      assert disk[at + i] == disk[..bytes][at + i] && later[at + i] == later[..bytes][at + i];
    }
  }

  /** write_bytes: overwrite, extending the file as needed (a gap would read as zeros). */
  function WriteAt(disk: seq<byte>, at: nat, data: seq<byte>): (r: seq<byte>)
    ensures |r| >= at + |data|
  {
    var wide := if |disk| >= at + |data| then disk else disk + Zeros(at + |data| - |disk|);
    Write(wide, at, data)
  }

  lemma WriteAtHolds(disk: seq<byte>, at: nat, data: seq<byte>)
    requires at <= |disk|
    ensures Holds(WriteAt(disk, at, data), at, data)
    ensures SameBelow(disk, WriteAt(disk, at, data), at)
  {
    var wide := if |disk| >= at + |data| then disk else disk + Zeros(at + |data| - |disk|);
    WriteHolds(wide, at, data);
  }

  // ---- the duplicate index ----

  /** struct file_info */
  datatype FileInfo = FileInfo(bytes: nat, checksum: nat, start: nat, blockList: seq<nat>,
                               fragment: Fragment, fragmentChecksum: nat)

  /** A recorded file together with its stored bytes and its tail. */
  datatype Recorded = Recorded(info: FileInfo, stored: seq<byte>, tail: seq<byte>)

  /** A recorded file with the same stored bytes and tail, whose place, block list and fragment are used instead. */
  predicate Serves(r: Recorded, stored: seq<byte>, tail: seq<byte>, start: nat, words: seq<nat>, fr: Fragment) {
    && r.stored == stored && r.tail == tail
    && r.info.start == start && r.info.blockList == words && r.info.fragment == fr
  }

  /** Some recorded file has these stored bytes and this tail. */
  predicate Recurs(files: seq<Recorded>, stored: seq<byte>, tail: seq<byte>) {
    exists k :: 0 <= k < |files| && files[k].stored == stored && files[k].tail == tail
  }

  lemma ServesAgain(r: Recorded)
    ensures Serves(r, r.stored, r.tail, r.info.start, r.info.blockList, r.info.fragment)
  {
  }

  lemma HasTwin(files: seq<Recorded>, k: nat)
    requires k < |files|
    ensures Recurs(files, files[k].stored, files[k].tail)
  {
  }

  lemma NoTwin(files: seq<Recorded>, stored: seq<byte>, tail: seq<byte>)
    requires forall k :: 0 <= k < |files| ==> files[k].stored != stored || files[k].tail != tail
    ensures !Recurs(files, stored, tail)
  {
  }

  ghost predicate Describes(r: Recorded) {
    && r.info.bytes == |r.stored| && r.info.checksum == Checksum(r.stored)
    && r.info.fragment.size == |r.tail| && r.info.fragmentChecksum == Checksum(r.tail)
  }

  /** The recorded files that belong on one hash chain, newest first: files with data blocks are filed by
      the checksum of those, the others by the checksum of their tail. */
  ghost function Chain(files: seq<Recorded>, hasBlocks: bool, sum: nat): seq<Recorded> {
    if files == [] then []
    else
      var last := files[|files| - 1];
      (if (last.stored != []) == hasBlocks && Checksum(if hasBlocks then last.stored else last.tail) == sum then [last] else [])
      + Chain(files[..|files| - 1], hasBlocks, sum)
  }

  ghost function Infos(chain: seq<Recorded>): (r: seq<FileInfo>)
    ensures |r| == |chain|
  {
    seq(|chain|, i requires 0 <= i < |chain| => chain[i].info)
  }

  lemma {:induction false} ChainMembers(files: seq<Recorded>, hasBlocks: bool, sum: nat, r: Recorded)
    ensures r in Chain(files, hasBlocks, sum)
      <==> r in files && (r.stored != []) == hasBlocks && Checksum(if hasBlocks then r.stored else r.tail) == sum
  {
    if files == [] {
    } else {
      var front := files[..|files| - 1];
      ChainMembers(front, hasBlocks, sum, r);
      assert r in files <==> r in front || r == files[|files| - 1];
    }
  }

  /** The two tables of chains hold what the history says. */
  ghost predicate Indexed(dupl: seq<seq<FileInfo>>, fragDups: seq<seq<FileInfo>>, files: seq<Recorded>) {
    && |dupl| == HASH_SIZE && |fragDups| == HASH_SIZE
    && (forall c :: 0 <= c < HASH_SIZE ==> dupl[c] == Infos(Chain(files, true, c)))
    && (forall c :: 0 <= c < HASH_SIZE ==> fragDups[c] == Infos(Chain(files, false, c)))
  }

  /** What a file adds to one chain. */
  ghost function Joining(r: Recorded, hasBlocks: bool, sum: nat): seq<FileInfo> {
    if (r.stored != []) == hasBlocks && Checksum(if hasBlocks then r.stored else r.tail) == sum then [r.info] else []
  }

  lemma ChainGrows(files: seq<Recorded>, r: Recorded, hasBlocks: bool, sum: nat)
    ensures Infos(Chain(files + [r], hasBlocks, sum)) == Joining(r, hasBlocks, sum) + Infos(Chain(files, hasBlocks, sum))
  {
    hide Checksum;
    assert (files + [r])[..|files|] == files;
  }

  lemma IndexGrows(dupl: seq<seq<FileInfo>>, fragDups: seq<seq<FileInfo>>, files: seq<Recorded>, r: Recorded)
    requires Indexed(dupl, fragDups, files) && Describes(r)
    ensures r.stored != [] ==> Indexed(dupl[r.info.checksum := [r.info] + dupl[r.info.checksum]], fragDups, files + [r])
    ensures r.stored == [] ==>
      Indexed(dupl, fragDups[r.info.fragmentChecksum := [r.info] + fragDups[r.info.fragmentChecksum]], files + [r])
  {
    hide Checksum, Chain, Infos;
    forall hasBlocks, c: nat
      ensures Infos(Chain(files + [r], hasBlocks, c)) == Joining(r, hasBlocks, c) + Infos(Chain(files, hasBlocks, c))
    {
      ChainGrows(files, r, hasBlocks, c);
    }
    assert forall c :: 0 <= c < HASH_SIZE ==> [] + dupl[c] == dupl[c] && [] + fragDups[c] == fragDups[c];
  }

  /** All recorded lists are block lists of files stored in this way. */
  ghost predicate GenuineIndex(codec: Codec, plain: bool, blockSize: nat, files: seq<Recorded>)
    requires 0 < blockSize < COMPRESSED_BIT_BLOCK
  {
    forall k :: 0 <= k < |files| ==> IsListOf(codec, plain, blockSize, files[k].info.blockList, files[k].stored)
  }

  /** A file that is stored in this way keeps the index genuine, and is itself handed a genuine list. */
  lemma GenuineStays(codec: Codec, plain: bool, blockSize: nat, was: seq<Recorded>, files: seq<Recorded>, data: seq<byte>,
                     list: seq<nat>, stored: seq<byte>, tail: seq<byte>, start: nat, fr: Fragment)
    requires 0 < blockSize < COMPRESSED_BIT_BLOCK && GenuineIndex(codec, plain, blockSize, was)
    requires StoreBlocks(codec, plain, blockSize, data).1 == stored
    requires files == was
      || (exists r: Recorded :: files == was + [r] && r.info.blockList == list && r.stored == stored)
    requires list == StoreBlocks(codec, plain, blockSize, data).0
      || (files == was && exists k :: 0 <= k < |files| && Serves(files[k], stored, tail, start, list, fr))
    ensures GenuineIndex(codec, plain, blockSize, files) && IsListOf(codec, plain, blockSize, list, stored)
  {
    hide StoreBlocks;
    if list == StoreBlocks(codec, plain, blockSize, data).0 {
      assert StoreBlocks(codec, plain, blockSize, data) == (list, stored);
    } else {
      var k :| 0 <= k < |files| && Serves(files[k], stored, tail, start, list, fr);
      assert IsListOf(codec, plain, blockSize, files[k].info.blockList, files[k].stored);
    }
  }

  // ---- what stays true while the image grows ----

  /** A file's stored bytes and its tail are where `start` and `fr` say, and `list` accounts for as many bytes as
      are stored. There is no fragment exactly if there is no tail. */
  ghost predicate Located(disk: seq<byte>, bytes: nat, all: seq<seq<byte>>, start: nat, stored: seq<byte>, list: seq<nat>,
                          fr: Fragment, tail: seq<byte>) {
    && start + |stored| <= bytes && Holds(disk, start, stored)
    && FitInts(list) && TotalStored(list) == |stored|
    && fr.size == |tail| && Placed(all, fr) && TailOf(all, fr) == tail
    && (tail == [] ==> fr == EMPTY_FRAGMENT)
  }

  ghost predicate Stands(disk: seq<byte>, bytes: nat, all: seq<seq<byte>>, r: Recorded) {
    Describes(r) && Located(disk, bytes, all, r.info.start, r.stored, r.info.blockList, r.info.fragment, r.tail)
  }

  lemma StaysLocated(disk: seq<byte>, bytes: nat, all: seq<seq<byte>>, later: seq<byte>, more: nat, grown: seq<seq<byte>>,
                     start: nat, stored: seq<byte>, list: seq<nat>, fr: Fragment, tail: seq<byte>)
    requires Located(disk, bytes, all, start, stored, list, fr, tail)
    requires SameBelow(disk, later, bytes) && bytes <= more && GrowsTo(all, grown)
    ensures Located(later, more, grown, start, stored, list, fr, tail)
  {
    hide Holds, Placed, TailOf, SameBelow, GrowsTo, FitInts, TotalStored;
    HeldStays(disk, later, bytes, start, stored);
    TailStays(all, grown, fr);
  }

  ghost predicate FilesStand(disk: seq<byte>, bytes: nat, all: seq<seq<byte>>, files: seq<Recorded>) {
    forall k :: 0 <= k < |files| ==> Stands(disk, bytes, all, files[k])
  }

  lemma FilesStillStand(disk: seq<byte>, bytes: nat, all: seq<seq<byte>>, later: seq<byte>, more: nat,
                        grown: seq<seq<byte>>, files: seq<Recorded>)
    requires FilesStand(disk, bytes, all, files)
    requires SameBelow(disk, later, bytes) && bytes <= more && GrowsTo(all, grown)
    ensures FilesStand(later, more, grown, files)
  {
    hide Located, SameBelow, GrowsTo, Describes;
    forall k | 0 <= k < |files|
      ensures Stands(later, more, grown, files[k])
    {
      var r := files[k];
      assert Stands(disk, bytes, all, r);
      StaysLocated(disk, bytes, all, later, more, grown, r.info.start, r.stored, r.info.blockList, r.info.fragment, r.tail);
    }
  }

  /** Every fragment ever issued still denotes its bytes; fragments of one block do not overlap; the last
      block only holds what lies before its end. */
  ghost predicate FragmentsStand(all: seq<seq<byte>>, issued: seq<(Fragment, seq<byte>)>) {
    && (forall k :: 0 <= k < |issued| ==>
          issued[k].0.size > 0 && Placed(all, issued[k].0) && TailOf(all, issued[k].0) == issued[k].1)
    && (forall j, k :: 0 <= j < k < |issued| && issued[j].0.index == issued[k].0.index ==>
          issued[j].0.offset + issued[j].0.size <= issued[k].0.offset)
  }

  lemma FragmentsStillStand(all: seq<seq<byte>>, grown: seq<seq<byte>>, issued: seq<(Fragment, seq<byte>)>)
    requires FragmentsStand(all, issued) && GrowsTo(all, grown)
    ensures FragmentsStand(grown, issued)
  {
    forall k | 0 <= k < |issued|
      ensures Placed(grown, issued[k].0) && TailOf(grown, issued[k].0) == issued[k].1
    {
      TailStays(all, grown, issued[k].0);
    }
  }

  /** A new fragment at the end of the last block joins the others. */
  lemma FragmentJoins(front: seq<seq<byte>>, last: seq<byte>, issued: seq<(Fragment, seq<byte>)>, data: seq<byte>)
    requires FragmentsStand(front + [last], issued) && |data| > 0
    ensures FragmentsStand(front + [last + data], issued + [(Fragment(|front|, |last|, |data|), data)])
  {
    FragmentsStillStand(front + [last], front + [last + data], issued);
  }

  /** Every finished block can be read back. */
  ghost predicate BlocksStand(codec: Codec, blockSize: nat, disk: seq<byte>, bytes: nat,
                              table: seq<FragmentEntry>, blocks: seq<seq<byte>>) {
    |blocks| <= |table| && forall k :: 0 <= k < |blocks| ==> BlockOnDisk(codec, blockSize, disk, bytes, table[k], blocks[k])
  }

  lemma BlocksStillStand(codec: Codec, blockSize: nat, disk: seq<byte>, bytes: nat, table: seq<FragmentEntry>,
                         later: seq<byte>, more: nat, table': seq<FragmentEntry>, blocks: seq<seq<byte>>)
    requires BlocksStand(codec, blockSize, disk, bytes, table, blocks)
    requires SameBelow(disk, later, bytes) && bytes <= more <= |later|
    requires |blocks| <= |table'| && table'[..|blocks|] == table[..|blocks|]
    ensures BlocksStand(codec, blockSize, later, more, table', blocks)
  {
    hide BlockOnDisk, SameBelow;
    forall k | 0 <= k < |blocks|
      ensures BlockOnDisk(codec, blockSize, later, more, table'[k], blocks[k])
    {
      assert table'[k] == table'[..|blocks|][k] == table[..|blocks|][k] == table[k];
      BlockStaysOnDisk(codec, blockSize, disk, later, bytes, more, table[k], blocks[k]);
    }
  }

  lemma BlockJoins(codec: Codec, blockSize: nat, disk: seq<byte>, bytes: nat, table: seq<FragmentEntry>,
                   blocks: seq<seq<byte>>, e: FragmentEntry, block: seq<byte>)
    requires BlocksStand(codec, blockSize, disk, bytes, table, blocks)
    requires |blocks| < |table| && table[|blocks|] == e && BlockOnDisk(codec, blockSize, disk, bytes, e, block)
    ensures BlocksStand(codec, blockSize, disk, bytes, table, blocks + [block])
  {
  }

  /** Writing a mangled block at the end of what is used puts it there for good. */
  lemma MangledBlockLands(codec: Codec, blockSize: nat, plain: bool, disk: seq<byte>, bytes: nat, block: seq<byte>)
    requires codec.Faithful() && bytes <= |disk|
    requires 0 < |block| <= blockSize < COMPRESSED_BIT_BLOCK
    ensures var (word, stored) := Mangle(codec, block, plain, COMPRESSED_BIT_BLOCK);
      && StoredSize(word, COMPRESSED_BIT_BLOCK) == |stored| <= |block|
      && SameBelow(disk, WriteAt(disk, bytes, stored), bytes)
      && BlockOnDisk(codec, blockSize, WriteAt(disk, bytes, stored), bytes + |stored|, FragmentEntry(bytes, word), block)
  {
    hide Unmangle;
    MangleRoundTrip(codec, block, plain, COMPRESSED_BIT_BLOCK, blockSize);
    var (word, stored) := Mangle(codec, block, plain, COMPRESSED_BIT_BLOCK);
    WriteAtHolds(disk, bytes, stored);
    HoldsSlice(WriteAt(disk, bytes, stored), bytes, stored);
  }

  lemma NewBlockGrows(blocks: seq<seq<byte>>, current: seq<byte>)
    ensures GrowsTo(blocks + [current], blocks + [current] + [[]])
  {
  }

  lemma LastBlockGrows(blocks: seq<seq<byte>>, current: seq<byte>, more: seq<byte>)
    ensures GrowsTo(blocks + [current], blocks + [current + more])
  {
  }

  lemma GrowsTwice(a: seq<seq<byte>>, b: seq<seq<byte>>, c: seq<seq<byte>>)
    requires GrowsTo(a, b) && GrowsTo(b, c)
    ensures GrowsTo(a, c)
  {
    forall k | 0 <= k < |a|
      ensures a[k] <= c[k]
    {
      assert a[k] <= b[k] <= c[k];
    }
  }

  const FRAG_SIZE: nat := 32768

  /** The fragment table has grown in steps of FRAG_SIZE entries. */
  predicate HasRoom(fragments: nat, size: nat) {
    fragments + (FRAG_SIZE - fragments % FRAG_SIZE) % FRAG_SIZE <= size
  }

  lemma RoomAtBoundary(fragments: nat)
    requires fragments % FRAG_SIZE == 0
    ensures HasRoom(fragments, fragments + FRAG_SIZE)
  {
  }

  lemma RoomForOneMore(fragments: nat, size: nat)
    requires HasRoom(fragments, size)
    ensures fragments <= size
    ensures fragments % FRAG_SIZE == 0 ==> HasRoom(fragments + 1, fragments + FRAG_SIZE)
    ensures fragments % FRAG_SIZE != 0 ==> fragments < size && HasRoom(fragments + 1, size)
  {
  }

  // ---- the writer ----

  function FragmentOf(file: Registered): Fragment {
    Fragment(file.fragment, file.offset, file.tail)
  }

  /** What a file's inode says lies inside the data section and the fragment blocks. */
  predicate InPlace(file: Registered, bytes: nat, all: seq<seq<byte>>) {
    && FitInts(file.blocks) && file.fileBytes == TotalStored(file.blocks)
    && file.start + file.fileBytes <= bytes
    && Placed(all, FragmentOf(file)) && (file.tail == 0 ==> FragmentOf(file) == EMPTY_FRAGMENT)
  }

  function StoredPart(disk: seq<byte>, file: Registered): seq<byte>
    requires file.start + file.fileBytes <= |disk|
  {
    disk[file.start..file.start + file.fileBytes]
  }

  lemma PlaceOfTail(codec: Codec, blockSize: nat, disk: seq<byte>, bytes: nat, table: seq<FragmentEntry>,
                    blocks: seq<seq<byte>>, current: seq<byte>, start: nat, stored: seq<byte>, list: seq<nat>,
                    fr: Fragment, tail: seq<byte>)
    requires BlocksStand(codec, blockSize, disk, bytes, table, blocks) && |current| <= blockSize
    requires Located(disk, bytes, blocks + [current], start, stored, list, fr, tail) && |blocks| < INVALID_BLK
    ensures fr.size == |tail| && (fr.index == 0xffff_ffff <==> tail == [])
    ensures fr.index <= 0xffff_ffff && fr.offset <= blockSize
  {
    hide Holds, Unmangle, FitInts, TotalStored;
    if tail != [] && fr.index < |blocks| {
      assert BlockOnDisk(codec, blockSize, disk, bytes, table[fr.index], blocks[fr.index]);
    }
  }

  function ReadSize(size: nat): nat {
    if size > MAX_FILE_SIZE then MAX_FILE_SIZE else size
  }

  /** Removing the remainder does not change the quotient. */
  lemma {:induction false} DropRemainder(v: nat, k: nat)
    ensures Low(v, k) <= v && Shr(v - Low(v, k), k) == Shr(v, k) && Low(v - Low(v, k), k) == 0
  {
    if k == 0 {
    } else {
      DropRemainder(v / 2, k - 1);
      assert (v - Low(v, k)) / 2 == v / 2 - Low(v / 2, k - 1) && (v - Low(v, k)) % 2 == 0;
    }
  }

  /** The tail is shorter than a block and is what remains after the blocks; the block count is the one for
      the rest of the file. */
  lemma SplitSizes(size: nat, noFragments: bool, alwaysFragments: bool, blockLog: nat)
    ensures var (count, tail) := WriterSplit(size, noFragments, alwaysFragments, blockLog);
      && tail <= ReadSize(size) && tail < Pow2(blockLog)
      && count == Shr(ReadSize(size) - tail + Pow2(blockLog) - 1, blockLog)
  {
    var (count, tail) := WriterSplit(size, noFragments, alwaysFragments, blockLog);
    var readSize := ReadSize(size);
    ShiftDivides(readSize, blockLog);
    DropRemainder(readSize, blockLog);
    RoundUp(readSize - tail, blockLog);
  }

  /** What write_file treats as blocks and what as tail. */
  function PartsOf(content: seq<byte>, noFragments: bool, alwaysFragments: bool, blockLog: nat): (r: (seq<byte>, seq<byte>))
    ensures |r.1| == WriterSplit(|content|, noFragments, alwaysFragments, blockLog).1
    ensures r.0 + r.1 == content[..ReadSize(|content|)]
  {
    var readSize := ReadSize(|content|);
    var tailBytes := WriterSplit(|content|, noFragments, alwaysFragments, blockLog).1;
    SplitSizes(|content|, noFragments, alwaysFragments, blockLog);
    (content[..readSize - tailBytes], content[readSize - tailBytes..readSize])
  }

  /** The first 2^31 bytes of a content, split into blocks and a tail as the options say. */
  predicate ContentSplit(content: seq<byte>, parts: (seq<byte>, seq<byte>), blockSize: nat, noFragments: bool,
                         alwaysFragments: bool, count: nat, tailBytes: nat) {
    var n := if |content| <= 0x8000_0000 then |content| else 0x8000_0000;
    && tailBytes <= n && parts.0 == content[..n - tailBytes] && parts.1 == content[n - tailBytes..n]
    && SplitAsAsked(n, blockSize, noFragments, alwaysFragments, count, tailBytes)
  }

  lemma PartsAreAsAsked(content: seq<byte>, noFragments: bool, alwaysFragments: bool, blockLog: nat)
    ensures
      var (count, tailBytes) := WriterSplit(|content|, noFragments, alwaysFragments, blockLog);
      ContentSplit(content, PartsOf(content, noFragments, alwaysFragments, blockLog), Pow2(blockLog), noFragments,
                   alwaysFragments, count, tailBytes)
  {
    hide WriterSplit, SplitAsAsked;
    WriterSplitsByOptions(|content|, noFragments, alwaysFragments, blockLog);
  }

  /** When the block in memory is complete, an empty one takes its place. */
  lemma BlockLeaves(blocks: seq<seq<byte>>, block: seq<byte>, issued: seq<(Fragment, seq<byte>)>, disk: seq<byte>, bytes: nat,
                    later: seq<byte>, more: nat, files: seq<Recorded>)
    requires FragmentsStand(blocks + [block], issued) && FilesStand(disk, bytes, blocks + [block], files)
    requires SameBelow(disk, later, bytes) && bytes <= more
    ensures FragmentsStand(blocks + [block] + [[]], issued) && FilesStand(later, more, blocks + [block] + [[]], files)
  {
    hide FragmentsStand, FilesStand, SameBelow, GrowsTo;
    NewBlockGrows(blocks, block);
    FragmentsStillStand(blocks + [block], blocks + [block] + [[]], issued);
    FilesStillStand(disk, bytes, blocks + [block], later, more, blocks + [block] + [[]], files);
  }

  lemma FileStands(disk: seq<byte>, bytes: nat, all: seq<seq<byte>>, files: seq<Recorded>, k: nat)
    requires FilesStand(disk, bytes, all, files) && k < |files|
    ensures Stands(disk, bytes, all, files[k])
  {
  }

  lemma SameGrows(all: seq<seq<byte>>)
    ensures GrowsTo(all, all)
  {
  }

  lemma SameBelowTwice(a: seq<byte>, b: seq<byte>, c: seq<byte>, m: nat, n: nat)
    requires SameBelow(a, b, m) && SameBelow(b, c, n) && m <= n
    ensures SameBelow(a, c, m)
  {
    assert b[..m] == b[..n][..m] && c[..m] == c[..n][..m];
  }

  lemma IndexEntry(dupl: seq<seq<FileInfo>>, fragDups: seq<seq<FileInfo>>, files: seq<Recorded>, hasBlocks: bool, sum: nat)
    requires Indexed(dupl, fragDups, files) && sum < HASH_SIZE
    ensures |dupl| == HASH_SIZE && |fragDups| == HASH_SIZE
    ensures (if hasBlocks then dupl[sum] else fragDups[sum]) == Infos(Chain(files, hasBlocks, sum))
  {
  }

  lemma IndexSizes(dupl: seq<seq<FileInfo>>, fragDups: seq<seq<FileInfo>>, files: seq<Recorded>)
    requires Indexed(dupl, fragDups, files)
    ensures |dupl| == HASH_SIZE && |fragDups| == HASH_SIZE
  {
  }

  lemma TailLength(blocks: seq<seq<byte>>, fr: Fragment)
    requires Placed(blocks, fr)
    ensures |TailOf(blocks, fr)| == fr.size
  {
  }

  lemma NoTail(blocks: seq<seq<byte>>)
    ensures Placed(blocks, EMPTY_FRAGMENT) && TailOf(blocks, EMPTY_FRAGMENT) == []
  {
  }

  lemma HoldsPart(img: seq<byte>, at: nat, part: seq<byte>, from: nat, n: nat)
    requires from + n <= |part| && at + |part| <= |img| && Holds(img, at, part)
    ensures img[at + from..at + from + n] == part[from..from + n]
  {
  }

  lemma NothingWritten(disk: seq<byte>, bytes: nat)
    requires bytes <= |disk|
    ensures SameBelow(disk, disk, bytes)
  {
  }

  lemma LocatedListFits(disk: seq<byte>, bytes: nat, all: seq<seq<byte>>, start: nat, stored: seq<byte>, list: seq<nat>,
                        fr: Fragment, tail: seq<byte>)
    requires Located(disk, bytes, all, start, stored, list, fr, tail)
    ensures FitInts(list) && fr.size == |tail|
  {
  }

  /** The globals of mksquashfs that concern the data section. */
  class DataWriter {
    const codec: Codec
    const blockLog: nat
    const plainData: bool          // noD
    const plainFragments: bool     // noF
    const noFragments: bool
    const alwaysFragments: bool
    const checkDuplicates: bool

    var disk: seq<byte>
    var bytes: nat
    var fragmentTable: seq<FragmentEntry>   // allocated part
    var fragments: nat
    var fragmentData: seq<byte>             // one block
    var fragmentSize: nat
    var dupl: seq<seq<FileInfo>>
    var fragDups: seq<seq<FileInfo>>

    ghost var blocks: seq<seq<byte>>              // contents of the finished fragment blocks
    ghost var issued: seq<(Fragment, seq<byte>)>  // fragments handed out, with the bytes put in
    ghost var files: seq<Recorded>                // files in the duplicate index, oldest first

    function BlockSize(): nat {
      Pow2(blockLog)
    }

    /** All fragment blocks, the one in memory last. */
    ghost function AllBlocks(): seq<seq<byte>>
      requires fragmentSize <= |fragmentData|
      reads this
    {
      blocks + [fragmentData[..fragmentSize]]
    }

    /** Where the data section ends once the block in memory is written. */
    ghost function FlushedEnd(): nat
      requires fragmentSize <= |fragmentData| && fragmentSize < COMPRESSED_BIT_BLOCK
      reads this
    {
      bytes + if fragmentSize == 0 then 0
              else |Mangle(codec, fragmentData[..fragmentSize], plainFragments, COMPRESSED_BIT_BLOCK).1|
    }

    ghost predicate ValidShape()
      reads this
    {
      && codec.Faithful() && BlockSize() <= 0x1_0000
      && bytes <= |disk|
      && fragments == |blocks| < INVALID_BLK
      && fragments <= |fragmentTable| && HasRoom(fragments, |fragmentTable|)
      && fragmentSize <= BlockSize() == |fragmentData|
    }

    ghost predicate Valid()
      reads this
    {
      && ValidShape()
      && BlocksStand(codec, BlockSize(), disk, bytes, fragmentTable, blocks)
      && FragmentsStand(AllBlocks(), issued)
      && FilesStand(disk, bytes, AllBlocks(), files)
      && Indexed(dupl, fragDups, files)
    }

    constructor (codec: Codec, blockLog: nat, plainData: bool, plainFragments: bool, noFragments: bool,
                 alwaysFragments: bool, checkDuplicates: bool, disk: seq<byte>, bytes: nat)
      requires codec.Faithful() && Pow2(blockLog) <= 0x1_0000 && bytes <= |disk|
      ensures Valid() && fragments == 0 && files == [] && issued == [] && this.bytes == bytes && this.disk == disk
      ensures blocks == [] && fragmentSize == 0
      ensures this.codec == codec && this.blockLog == blockLog
      ensures this.plainData == plainData && this.plainFragments == plainFragments && this.noFragments == noFragments
      ensures this.alwaysFragments == alwaysFragments && this.checkDuplicates == checkDuplicates
    {
      this.codec, this.blockLog, this.plainData, this.plainFragments := codec, blockLog, plainData, plainFragments;
      this.noFragments, this.alwaysFragments, this.checkDuplicates := noFragments, alwaysFragments, checkDuplicates;
      this.disk, this.bytes := disk, bytes;
      fragmentTable, fragments, fragmentData, fragmentSize := [], 0, Zeros(Pow2(blockLog)), 0;
      dupl, fragDups := seq(HASH_SIZE, _ => []), seq(HASH_SIZE, _ => []);
      blocks, issued, files := [], [], [];
    }

    /** The state main sets up to append to an image: its fragment table is loaded and its size rounded up,
        nothing is in memory yet. */
    constructor Loaded(codec: Codec, blockLog: nat, plainData: bool, plainFragments: bool, noFragments: bool,
                       alwaysFragments: bool, checkDuplicates: bool, disk: seq<byte>, bytes: nat,
                       entries: seq<FragmentEntry>, ghost blocks: seq<seq<byte>>)
      requires codec.Faithful() && Pow2(blockLog) <= 0x1_0000 && bytes <= |disk|
      requires |entries| == |blocks| < INVALID_BLK
      requires BlocksStand(codec, Pow2(blockLog), disk, bytes, entries, blocks)
      ensures Valid() && fragments == |entries| && fragmentTable[..fragments] == entries && fragmentSize == 0
      ensures files == [] && issued == [] && this.bytes == bytes && this.disk == disk && this.blocks == blocks
      ensures this.codec == codec && this.blockLog == blockLog
      ensures this.plainData == plainData && this.plainFragments == plainFragments && this.noFragments == noFragments
      ensures this.alwaysFragments == alwaysFragments && this.checkDuplicates == checkDuplicates
    {
      this.codec, this.blockLog, this.plainData, this.plainFragments := codec, blockLog, plainData, plainFragments;
      this.noFragments, this.alwaysFragments, this.checkDuplicates := noFragments, alwaysFragments, checkDuplicates;
      this.disk, this.bytes := disk, bytes;
      var room := (FRAG_SIZE - |entries| % FRAG_SIZE) % FRAG_SIZE;
      fragmentTable, fragments := entries + seq(room, _ => FragmentEntry(0, 0)), |entries|;
      fragmentData, fragmentSize := Zeros(Pow2(blockLog)), 0;
      dupl, fragDups := seq(HASH_SIZE, _ => []), seq(HASH_SIZE, _ => []);
      this.blocks, issued, files := blocks, [], [];
    }

    /** The reallocation in write_fragment: room for one more entry. */
    method GrowTable()
      requires Valid()
      modifies this`fragmentTable
      ensures Valid() && fragments < |fragmentTable| && HasRoom(fragments + 1, |fragmentTable|)
      ensures fragmentTable[..fragments] == old(fragmentTable[..fragments])
      ensures |fragmentTable| == if fragments % 32768 == 0 then fragments + 32768 else old(|fragmentTable|)
    {
      hide BlocksStand, FragmentsStand, FilesStand, Indexed, SameBelow, HasRoom;
      RoomForOneMore(fragments, |fragmentTable|);
      if fragments % FRAG_SIZE == 0 {
        fragmentTable := fragmentTable[..fragments] + seq(FRAG_SIZE, _ => FragmentEntry(0, 0));
        NothingWritten(disk, bytes);
        BlocksStillStand(codec, BlockSize(), disk, bytes, old(fragmentTable), disk, bytes, fragmentTable, blocks);
        RoomAtBoundary(fragments);
      }
    }

    /** write_fragment: compress the block in memory, write it at the end, start an empty one. */
    method WriteFragment()
      requires Valid() && fragments + 1 < INVALID_BLK
      modifies this`disk, this`bytes, this`fragmentTable, this`fragments, this`fragmentSize, this`blocks
      ensures Valid() && fragmentSize == 0
      ensures bytes == old(FlushedEnd()) <= old(bytes + fragmentSize)
      ensures bytes >= old(bytes) && SameBelow(old(disk), disk, old(bytes))
      ensures fragments >= old(fragments) && fragmentTable[..old(fragments)] == old(fragmentTable[..fragments])
      ensures fragments == old(fragments) + (if old(fragmentSize) > 0 then 1 else 0)
      ensures old(fragmentSize) == 0 ==> blocks == old(blocks)
      ensures old(fragmentSize) > 0 ==> blocks == old(AllBlocks())
      ensures GrowsTo(old(AllBlocks()), AllBlocks())
      ensures
        var block := old(fragmentData[..fragmentSize]);
        block != [] ==>
          fragmentTable[old(fragments)] == FragmentEntry(old(bytes), SizeWord(codec, block, plainFragments))
    {
      hide BlocksStand, FragmentsStand, FilesStand, Indexed, SameBelow, GrowsTo, BlockOnDisk, Mangle, StoredSize,
        WriteAt, HasRoom, SizeWord;
      if fragmentSize == 0 {
        NothingWritten(disk, bytes);
        SameGrows(AllBlocks());
        return;
      }
      NewBlockGrows(blocks, fragmentData[..fragmentSize]);
      ghost var block := fragmentData[..fragmentSize];
      GrowTable();
      ghost var was := fragmentTable;
      var (word, stored) := Mangle(codec, fragmentData[..fragmentSize], plainFragments, COMPRESSED_BIT_BLOCK);
      MangledBlockLands(codec, BlockSize(), plainFragments, disk, bytes, block);
      SizeWordOf(codec, block, plainFragments);
      fragmentTable := fragmentTable[fragments := FragmentEntry(bytes, word)];
      assert fragmentTable[..fragments] == was[..fragments];
      var compressedSize := StoredSize(word, COMPRESSED_BIT_BLOCK);
      disk := WriteAt(disk, bytes, stored);
      bytes := bytes + compressedSize;
      BlocksStillStand(codec, BlockSize(), old(disk), old(bytes), was, disk, bytes, fragmentTable, blocks);
      BlockJoins(codec, BlockSize(), disk, bytes, fragmentTable, blocks, FragmentEntry(old(bytes), word), block);
      BlockLeaves(blocks, block, issued, old(disk), old(bytes), disk, bytes, files);
      fragments := fragments + 1;
      fragmentSize := 0;
      blocks := blocks + [block];
    }

    /** Put a tail behind what the block in memory holds. */
    method PutTail(tail: seq<byte>) returns (fr: Fragment)
      requires Valid() && tail != [] && fragmentSize + |tail| <= BlockSize()
      modifies this`fragmentSize, this`fragmentData, this`issued
      ensures Valid() && fragmentSize == old(fragmentSize) + |tail|
      ensures fr.size == |tail| && Placed(AllBlocks(), fr) && TailOf(AllBlocks(), fr) == tail
      ensures GrowsTo(old(AllBlocks()), AllBlocks())
      ensures fr == Fragment(fragments, old(fragmentSize), |tail|) && issued == old(issued) + [(fr, tail)]
    {
      hide BlocksStand, FragmentsStand, FilesStand, Indexed, SameBelow, HasRoom, GrowsTo;
      ghost var all, last := AllBlocks(), fragmentData[..fragmentSize];
      fr := Fragment(fragments, fragmentSize, |tail|);
      FragmentJoins(blocks, last, issued, tail);
      fragmentData := fragmentData[..fragmentSize] + tail + fragmentData[fragmentSize + |tail|..];
      fragmentSize := fragmentSize + |tail|;
      issued := issued + [(fr, tail)];
      assert fragmentData[..fragmentSize] == last + tail;
      assert AllBlocks() == blocks + [last + tail];
      LastBlockGrows(blocks, last, tail);
      NothingWritten(disk, bytes);
      FilesStillStand(disk, bytes, all, disk, bytes, AllBlocks(), files);
    }

    /** get_and_fill_fragment: put a tail into the block in memory, writing that out first if the tail does
        not fit behind what it holds. */
    method FillFragment(tail: seq<byte>) returns (fr: Fragment)
      requires Valid() && |tail| <= BlockSize() && fragments + 1 < INVALID_BLK
      modifies this`disk, this`bytes, this`fragmentTable, this`fragments, this`fragmentSize, this`fragmentData,
               this`blocks, this`issued
      ensures Valid()
      ensures bytes >= old(bytes) && SameBelow(old(disk), disk, old(bytes))
      ensures fr == DueFragment(old(fragments), old(fragmentSize), BlockSize(), |tail|)
      ensures fragments == if tail == [] then old(fragments) else fr.index
      ensures old(fragments) <= fragments <= old(fragments) + 1
      ensures fragmentTable[..old(fragments)] == old(fragmentTable[..fragments])
      ensures fr.size == |tail| && Placed(AllBlocks(), fr) && TailOf(AllBlocks(), fr) == tail
      ensures tail == [] ==> fr == EMPTY_FRAGMENT
      ensures GrowsTo(old(AllBlocks()), AllBlocks())
      ensures bytes + fragmentSize <= old(bytes + fragmentSize) + |tail|
      ensures tail != [] ==> issued == old(issued) + [(fr, tail)]
    {
      hide BlocksStand, FragmentsStand, FilesStand, Indexed, SameBelow, HasRoom, GrowsTo, Placed, TailOf;
      NothingWritten(disk, bytes);
      SameGrows(AllBlocks());
      if |tail| == 0 {
        NoTail(AllBlocks());
        return EMPTY_FRAGMENT;
      }
      if fragmentSize + |tail| > BlockSize() {
        WriteFragment();
      }
      ghost var all := AllBlocks();
      fr := PutTail(tail);
      GrowsTwice(old(AllBlocks()), all, AllBlocks());
    }

    /** get_fragment: the bytes of a fragment, from memory or from disk. Every fragment ever issued is read
        back as it was stored, wherever its block is by now. */
    method GetFragment(fr: Fragment) returns (data: seq<byte>)
      requires Valid() && Placed(AllBlocks(), fr)
      requires fr.size == 0 ==> fr == EMPTY_FRAGMENT
      ensures data == TailOf(AllBlocks(), fr)
      ensures forall k :: 0 <= k < |issued| && issued[k].0 == fr ==> data == issued[k].1
    {
      if fr.index == fragments || fr.index == INVALID_BLK {
        data := fragmentData[fr.offset..fr.offset + fr.size];
      } else {
        var entry := fragmentTable[fr.index];
        assert BlockOnDisk(codec, BlockSize(), disk, bytes, entry, blocks[fr.index]);
        var size := StoredSize(entry.size, COMPRESSED_BIT_BLOCK);
        var buffer := disk[entry.start..entry.start + size];
        if IsCompressed(entry.size, COMPRESSED_BIT_BLOCK) {
          var plain := codec.uncompress(buffer);
          buffer := plain.value;
        }
        data := buffer[fr.offset..fr.offset + fr.size];
      }
    }

    /** The comparison loop of duplicate: the stored bytes against the disk, at most 64K at a time. */
    method SameBytes(at: nat, stored: seq<byte>) returns (same: bool)
      requires at + |stored| <= |disk|
      ensures same == Holds(disk, at, stored)
    {
      var left := |stored|;
      while left > 0
        invariant 0 <= left <= |stored| && Holds(disk, at, stored[..|stored| - left])
      {
        var n := if left > CHUNK then CHUNK else left;
        var done := |stored| - left;
        if disk[at + done..at + done + n] != stored[done..done + n] {
          if Holds(disk, at, stored) {
            HoldsPart(disk, at, stored, done, n);
          }
          return false;
        }
        HoldsSlice(disk, at + done, stored[done..done + n]);
        HoldsConcat(disk, at, stored[..done], stored[done..done + n]);
        assert stored[..done] + stored[done..done + n] == stored[..done + n];
        left := left - n;
      }
      assert stored[..|stored|] == stored;
      same := true;
    }

    /** The search of duplicate: walk one hash chain, newest first, comparing lengths, the tail's checksum,
        the stored bytes and the tail. It finds a file exactly when a plain scan of all recorded files would. */
    method FindDuplicate(stored: seq<byte>, tail: seq<byte>) returns (hit: Option<FileInfo>)
      requires Valid()
      ensures hit.Some? <==> exists k :: 0 <= k < |files| && files[k].stored == stored && files[k].tail == tail
      ensures hit.Some? ==>
        exists k :: 0 <= k < |files| && files[k].stored == stored && files[k].tail == tail && files[k].info == hit.value
    {
      hide BlocksStand, FragmentsStand, FilesStand, Chain, Checksum, Holds, Placed, TailOf, Indexed, FitInts, TotalStored;
      var checksum := GetChecksum(stored);
      var fragmentChecksum := GetChecksum(tail);
      IndexSizes(dupl, fragDups, files);
      var chain := if |stored| > 0 then dupl[checksum] else fragDups[fragmentChecksum];
      ghost var key := if stored != [] then checksum else fragmentChecksum;
      ghost var recorded := Chain(files, stored != [], key);
      IndexEntry(dupl, fragDups, files, stored != [], key);
      for i := 0 to |chain|
        invariant forall j :: 0 <= j < i ==> recorded[j].stored != stored || recorded[j].tail != tail
      {
        var info := chain[i];
        ghost var r := recorded[i];
        ChainMembers(files, stored != [], key, r);
        assert r in recorded && info == r.info;
        ghost var k :| 0 <= k < |files| && files[k] == r;
        FileStands(disk, bytes, AllBlocks(), files, k);
        if |stored| == info.bytes && |tail| == info.fragment.size && fragmentChecksum == info.fragmentChecksum {
          var same := SameBytes(info.start, stored);
          HoldsSlice(disk, info.start, stored);
          HoldsSlice(disk, info.start, r.stored);
          if same {
            var theirs: seq<byte> := [];
            TailLength(AllBlocks(), info.fragment);
            if |tail| > 0 {
              theirs := GetFragment(info.fragment);
            }
            if |tail| == 0 || tail == theirs {
              return Some(info);
            }
          }
        }
      }
      forall k | 0 <= k < |files|
        ensures files[k].stored != stored || files[k].tail != tail
      {
        ChainMembers(files, stored != [], key, files[k]);
        if files[k] in recorded {
          ghost var j :| 0 <= j < |recorded| && recorded[j] == files[k];
        }
      }
      hit := None;
    }

    /** The recording half of duplicate, together with the caller's assignment of the fragment: the new file
        becomes the head of its chain. */
    method Record(start: nat, stored: seq<byte>, words: seq<nat>, fr: Fragment, tail: seq<byte>)
      requires Valid()
      requires Located(disk, bytes, AllBlocks(), start, stored, words, fr, tail)
      modifies this`dupl, this`fragDups, this`files
      ensures Valid()
      ensures files == old(files)
        + [Recorded(FileInfo(|stored|, Checksum(stored), start, words, fr, Checksum(tail)), stored, tail)]
    {
      hide BlocksStand, FragmentsStand, Chain, Checksum, Indexed, Holds, FitInts, TotalStored, Placed, TailOf;
      var checksum := GetChecksum(stored);
      var fragmentChecksum := GetChecksum(tail);
      var info := FileInfo(|stored|, checksum, start, words, fr, fragmentChecksum);
      ghost var r := Recorded(info, stored, tail);
      IndexGrows(dupl, fragDups, files, r);
      IndexSizes(dupl, fragDups, files);
      if |stored| > 0 {
        dupl := dupl[checksum := [info] + dupl[checksum]];
      } else {
        fragDups := fragDups[fragmentChecksum := [info] + fragDups[fragmentChecksum]];
      }
      files := files + [r];
    }

    /** The block loop of write_file: `blocks` blocks, each full unless the file ends in it. */
    method MangleBlocks(data: seq<byte>, count: nat) returns (words: seq<nat>, stored: seq<byte>)
      requires codec.Faithful() && BlockSize() < COMPRESSED_BIT_BLOCK
      requires count == Shr(|data| + BlockSize() - 1, blockLog)
      ensures (words, stored) == StoreBlocks(codec, plainData, BlockSize(), data) && |words| == count
      ensures FitInts(words) && TotalStored(words) == |stored|
    {
      hide Mangle, Shr, Pow2, StoreBlocks, FitInts, LoadBlocks, TotalStored;
      words, stored := [], [];
      var at := 0;
      WordsFit(codec, plainData, BlockSize(), data);
      BlocksRoundTrip(codec, plainData, BlockSize(), data);
      BlockListLength(codec, plainData, blockLog, data);
      assert data[0..] == data;
      ghost var whole := StoreBlocks(codec, plainData, BlockSize(), data);
      assert [] + whole.0 == whole.0 && [] + whole.1 == whole.1;
      while |words| < count
        invariant 0 <= at <= |data| && |words| <= count
        invariant |StoreBlocks(codec, plainData, BlockSize(), data[at..]).0| == count - |words|
        invariant whole == (words + StoreBlocks(codec, plainData, BlockSize(), data[at..]).0,
                            stored + StoreBlocks(codec, plainData, BlockSize(), data[at..]).1)
      {
        var available := if |data| - at > BlockSize() then BlockSize() else |data| - at;
        StoreStep(codec, plainData, BlockSize(), data, at, words, stored);
        var (word, bytes) := Mangle(codec, data[at..at + available], plainData, COMPRESSED_BIT_BLOCK);
        words := words + [word];
        stored := stored + bytes;
        at := at + available;
      }
      NoBlocksLeft(codec, plainData, BlockSize(), data[at..]);
      assert words + [] == words && stored + [] == stored;
    }

    /** The writing of a file's blocks at the end of what is used. */
    method AppendBlocks(stored: seq<byte>)
      requires Valid()
      modifies this`disk, this`bytes
      ensures Valid() && bytes == old(bytes) + |stored|
      ensures Holds(disk, old(bytes), stored) && SameBelow(old(disk), disk, old(bytes))
    {
      hide BlocksStand, FragmentsStand, FilesStand, Indexed, Holds, SameBelow, HasRoom;
      WriteAtHolds(disk, bytes, stored);
      ghost var before, start := disk, bytes;
      disk := WriteAt(disk, bytes, stored);
      bytes := bytes + |stored|;
      BlocksStillStand(codec, BlockSize(), before, start, fragmentTable, disk, bytes, fragmentTable, blocks);
      SameGrows(AllBlocks());
      FilesStillStand(before, start, AllBlocks(), disk, bytes, AllBlocks(), files);
    }

    /** What write_file treats as blocks and what as tail. */
    function FileParts(content: seq<byte>): (r: (seq<byte>, seq<byte>))
      ensures |r.1| == WriterSplit(|content|, noFragments, alwaysFragments, blockLog).1
      ensures r.0 + r.1 == content[..ReadSize(|content|)]
    {
      PartsOf(content, noFragments, alwaysFragments, blockLog)
    }

    /** The case of a duplicate: nothing is written; place, list and fragment are those of a recorded file with
        the same stored bytes and the same tail. */
    method Reuse(stored: seq<byte>, tail: seq<byte>) returns (hit: Option<FileInfo>)
      requires Valid()
      ensures hit.Some? == (checkDuplicates && Recurs(files, stored, tail))
      ensures hit.Some? ==>
        && (exists k :: 0 <= k < |files|
              && Serves(files[k], stored, tail, hit.value.start, hit.value.blockList, hit.value.fragment))
        && Located(disk, bytes, AllBlocks(), hit.value.start, stored, hit.value.blockList, hit.value.fragment, tail)
    {
      hide BlocksStand, FragmentsStand, FilesStand, Indexed, Located, Serves, Recurs;
      hit := None;
      if checkDuplicates {
        hit := FindDuplicate(stored, tail);
        if hit.Some? {
          ghost var k :| 0 <= k < |files| && files[k].stored == stored && files[k].tail == tail
            && files[k].info == hit.value;
          FileStands(disk, bytes, AllBlocks(), files, k);
          ServesAgain(files[k]);
          HasTwin(files, k);
        } else {
          NoTwin(files, stored, tail);
        }
      }
    }

    /** The other case: the blocks go to the end of what is used, the tail into a fragment, and the file is recorded. */
    method Store(words: seq<nat>, stored: seq<byte>, tail: seq<byte>) returns (start: nat, fr: Fragment)
      requires Valid() && |tail| <= BlockSize() && fragments + 1 < INVALID_BLK
      requires FitInts(words) && TotalStored(words) == |stored|
      modifies this`disk, this`bytes, this`fragmentTable, this`fragments, this`fragmentSize, this`fragmentData,
               this`blocks, this`issued, this`dupl, this`fragDups, this`files
      ensures Valid()
      ensures bytes >= old(bytes) && SameBelow(old(disk), disk, old(bytes)) && GrowsTo(old(AllBlocks()), AllBlocks())
      ensures fr == DueFragment(old(fragments), old(fragmentSize), BlockSize(), |tail|)
      ensures fragments == if tail == [] then old(fragments) else fr.index
      ensures old(fragments) <= fragments <= old(fragments) + 1
      ensures fragmentTable[..old(fragments)] == old(fragmentTable[..fragments])
      ensures bytes + fragmentSize <= old(bytes + fragmentSize) + |stored| + |tail|
      ensures start == old(bytes) && Located(disk, bytes, AllBlocks(), start, stored, words, fr, tail)
      ensures files == old(files)
        + if checkDuplicates
          then [Recorded(FileInfo(|stored|, Checksum(stored), start, words, fr, Checksum(tail)), stored, tail)] else []
    {
      hide BlocksStand, FragmentsStand, FilesStand, Indexed, Holds, SameBelow, Placed, TailOf, Checksum, HasRoom, FitInts,
        TotalStored, GrowsTo;
      start := bytes;
      ghost var before := disk;
      AppendBlocks(stored);
      ghost var written := disk;
      fr := FillFragment(tail);
      HeldStays(written, disk, start + |stored|, start, stored);
      SameBelowTwice(before, written, disk, start, start + |stored|);
      if checkDuplicates {
        Record(start, stored, words, fr, tail);
      }
    }

    /** write_file up to create_inode: what the inode will say about the file's data. A file whose stored
        bytes and tail were seen before is not written again. */
    method WriteFile(content: seq<byte>)
      returns (start: nat, list: seq<nat>, fr: Fragment, count: nat, duplicate: bool)
      requires Valid() && fragments + 1 < INVALID_BLK
      modifies this`disk, this`bytes, this`fragmentTable, this`fragments, this`fragmentSize, this`fragmentData,
               this`blocks, this`issued, this`dupl, this`fragDups, this`files
      ensures Valid()
      ensures bytes >= old(bytes) && SameBelow(old(disk), disk, old(bytes)) && GrowsTo(old(AllBlocks()), AllBlocks())
      ensures old(fragments) <= fragments <= old(fragments) + 1
      ensures fragmentTable[..old(fragments)] == old(fragmentTable[..fragments])
      ensures bytes + fragmentSize <= old(bytes + fragmentSize) + ReadSize(|content|)
      ensures count == WriterSplit(|content|, noFragments, alwaysFragments, blockLog).0
      ensures ContentSplit(content, FileParts(content), BlockSize(), noFragments, alwaysFragments, count, fr.size)
      ensures fr.index == 0xffff_ffff <==> fr.size == 0
      ensures fr.index <= 0xffff_ffff && fr.offset <= BlockSize()
      ensures !duplicate ==>
        && fr == DueFragment(old(fragments), old(fragmentSize), BlockSize(), fr.size)
        && fragments == if fr.size == 0 then old(fragments) else fr.index
      ensures var (data, tail) := FileParts(content);
        var (words, stored) := StoreBlocks(codec, plainData, BlockSize(), data);
        && count == |words|
        && Located(disk, bytes, AllBlocks(), start, stored, list, fr, tail)
        && duplicate == (checkDuplicates && Recurs(old(files), stored, tail))
        && (!duplicate ==> list == words && start == old(bytes))
        && (duplicate ==> bytes == old(bytes) && disk == old(disk)
                          && exists k :: 0 <= k < |files| && Serves(files[k], stored, tail, start, list, fr))
        && files == old(files)
             + if checkDuplicates && !duplicate
               then [Recorded(FileInfo(|stored|, Checksum(stored), start, list, fr, Checksum(tail)), stored, tail)] else []
    {
      hide BlocksStand, FragmentsStand, FilesStand, Indexed, StoreBlocks, Shr, Low, Located, SameBelow, Checksum,
        HasRoom, Serves, Recurs, FitInts, TotalStored, GrowsTo, ContentSplit, DueFragment, WriterSplit;
      var readSize := ReadSize(|content|);
      var split := WriterSplit(|content|, noFragments, alwaysFragments, blockLog);
      count := split.0;
      var tailBytes := split.1;
      SplitSizes(|content|, noFragments, alwaysFragments, blockLog);
      PartsAreAsAsked(content, noFragments, alwaysFragments, blockLog);
      var data, tail := content[..readSize - tailBytes], content[readSize - tailBytes..readSize];
      assert data + tail == content[..readSize];
      assert BlockSize() < COMPRESSED_BIT_BLOCK;
      var words, stored := MangleBlocks(data, count);
      StoredIsNoLonger(codec, plainData, BlockSize(), data);
      NothingWritten(disk, bytes);
      SameGrows(AllBlocks());
      var hit := Reuse(stored, tail);
      if hit.Some? {
        start, list, fr, duplicate := hit.value.start, hit.value.blockList, hit.value.fragment, true;
      } else {
        start, fr := Store(words, stored, tail);
        list, duplicate := words, false;
      }
      PlaceOfTail(codec, BlockSize(), disk, bytes, fragmentTable, blocks, fragmentData[..fragmentSize],
                  start, stored, list, fr, tail);
    }

    /** add_file: enter a file of the image that is being appended to. */
    method AddFile(file: Registered) returns (hit: Option<FileInfo>)
      requires Valid() && InPlace(file, bytes, AllBlocks())
      modifies this`dupl, this`fragDups, this`files
      ensures Valid()
      ensures var stored := StoredPart(disk, file);
        var tail := TailOf(AllBlocks(), FragmentOf(file));
        && hit.Some? == (checkDuplicates && Recurs(old(files), stored, tail))
        && (checkDuplicates ==> Recurs(files, stored, tail))
        && files == old(files)
             + if checkDuplicates && hit.None?
               then [Recorded(FileInfo(|stored|, Checksum(stored), file.start, file.blocks, FragmentOf(file), Checksum(tail)),
                              stored, tail)] else []
    {
      hide BlocksStand, FragmentsStand, FilesStand, Indexed, Holds, Placed, TailOf, Checksum, FitInts, TotalStored,
        Recurs, Serves;
      hit := None;
      if !checkDuplicates {
        return;
      }
      var fr := FragmentOf(file);
      var tail := GetFragment(fr);
      TailLength(AllBlocks(), fr);
      var stored := StoredPart(disk, file);
      hit := Reuse(stored, tail);
      if hit.None? {
        HoldsSlice(disk, file.start, stored);
        Record(file.start, stored, file.blocks, fr, tail);
        HasTwin(files, |files| - 1);
      }
    }
  }
}
