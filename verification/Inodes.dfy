/** Inodes on disk: the header layouts, create_inode's bytes for every type, the split of a file into
    blocks and tail, and scan_inode_table's walk over the decoded table. */
module Inodes {
  import opened Wrappers

  import opened Bits
  import opened BitFields
  import opened MetadataBlocks

  const INVALID_BLK: nat := 0xffff_ffff
  const MAX_FILE_SIZE: nat := 0x8000_0000
  const DIR_TYPE: nat := 1
  const FILE_TYPE: nat := 2
  const SYMLINK_TYPE: nat := 3
  const BLKDEV_TYPE: nat := 4
  const CHRDEV_TYPE: nat := 5
  const FIFO_TYPE: nat := 6
  const SOCKET_TYPE: nat := 7

  // ---- layouts ----

  const TYPE := Field(0, 4)
  const BASE_LAYOUT := [TYPE, Field(4, 12), Field(16, 8), Field(24, 8)]
  const DEV_LAYOUT := BASE_LAYOUT + [Field(32, 16)]
  const SYMLINK_LAYOUT := BASE_LAYOUT + [Field(32, 16)]
  const REG_LAYOUT := BASE_LAYOUT + [Field(32, 32), Field(64, 32), Field(96, 32), Field(128, 32), Field(160, 32)]
  const DIR_LAYOUT := BASE_LAYOUT + [Field(32, 19), Field(51, 13), Field(64, 32), Field(96, 24)]
  const INT_LAYOUT := [Field(0, 32)]
  const BASE_BYTES: nat := 4
  const DEV_BYTES: nat := 6
  const SYMLINK_BYTES: nat := 6
  const REG_BYTES: nat := 24
  const DIR_BYTES: nat := 15

  const SUPER_LAYOUT :=
    [Field(0, 32), Field(32, 32), Field(64, 32), Field(96, 32), Field(128, 32), Field(160, 32), Field(192, 32),

     Field(224, 16), Field(240, 16), Field(256, 16), Field(272, 16), Field(288, 8), Field(296, 8), Field(304, 8),
     Field(312, 32), Field(344, 64), Field(408, 32), Field(440, 32), Field(472, 32)]
  const SUPER_BYTES: nat := 63
  const DIR_HEADER_LAYOUT := [Field(0, 8), Field(8, 24)]
  const DIR_HEADER_BYTES: nat := 4
  const DIR_ENTRY_LAYOUT := [Field(0, 13), Field(13, 3), Field(16, 8)]
  const DIR_ENTRY_BYTES: nat := 3
  const FRAGMENT_ENTRY_LAYOUT := [Field(0, 32), Field(32, 32)]
  const FRAGMENT_ENTRY_BYTES: nat := 8

  lemma SmallLayoutsAreSound()
    ensures IsLayout(INT_LAYOUT, 4)
    ensures IsLayout(DIR_HEADER_LAYOUT, DIR_HEADER_BYTES)
    ensures IsLayout(DIR_ENTRY_LAYOUT, DIR_ENTRY_BYTES)
    ensures IsLayout(FRAGMENT_ENTRY_LAYOUT, FRAGMENT_ENTRY_BYTES)
  {
  }

  lemma {:induction false} ConsecutiveIsDisjoint(layout: seq<Field>, i: nat, j: nat)
    requires i < j < |layout|
    requires forall k :: 0 <= k < |layout| - 1 ==> layout[k].pos + layout[k].bits == layout[k + 1].pos
    ensures layout[i].pos + layout[i].bits <= layout[j].pos
  {
    if j == i + 1 {
    } else {
      ConsecutiveIsDisjoint(layout, i, j - 1);
    }
  }

  lemma ConsecutiveIsLayout(layout: seq<Field>, bytes: nat)
    requires forall k :: 0 <= k < |layout| ==> layout[k].Within(bytes)
    requires forall k :: 0 <= k < |layout| - 1 ==> layout[k].pos + layout[k].bits == layout[k + 1].pos
    ensures IsLayout(layout, bytes)
  {
    forall i, j | 0 <= i < j < |layout|
      ensures layout[i].DisjointFrom(layout[j])
    {
      ConsecutiveIsDisjoint(layout, i, j);
    }
  }

  /** No two fields of any on-disk structure overlap, none leaves its structure, and each fits the
      macros' 64-bit word: the round trip of a packed header covers all of them. */
  lemma LayoutsAreSound()
    ensures IsLayout(BASE_LAYOUT, BASE_BYTES)
    ensures IsLayout(DEV_LAYOUT, DEV_BYTES)
    ensures IsLayout(SYMLINK_LAYOUT, SYMLINK_BYTES)
    ensures IsLayout(REG_LAYOUT, REG_BYTES)
    ensures IsLayout(DIR_LAYOUT, DIR_BYTES)
    ensures IsLayout(INT_LAYOUT, 4)
    ensures IsLayout(DIR_HEADER_LAYOUT, DIR_HEADER_BYTES)
    ensures IsLayout(DIR_ENTRY_LAYOUT, DIR_ENTRY_BYTES)
    ensures IsLayout(FRAGMENT_ENTRY_LAYOUT, FRAGMENT_ENTRY_BYTES)
  {
    SmallLayoutsAreSound();
    ConsecutiveIsLayout(REG_LAYOUT, REG_BYTES);
    ConsecutiveIsLayout(DIR_LAYOUT, DIR_BYTES);
  }

  lemma SuperBlockLayoutIsSound()
    ensures IsLayout(SUPER_LAYOUT, SUPER_BYTES)
  {
    ConsecutiveIsLayout(SUPER_LAYOUT, SUPER_BYTES);
  }

  // ---- inodes ----

  datatype Common = Common(mode: nat, uid: nat, guid: nat) {
    predicate InRange() {
      Fits(mode, 12) && Fits(uid, 8) && Fits(guid, 8)
    }
  }

  predicate FitInts(list: seq<nat>) {
    forall i :: 0 <= i < |list| ==> Fits(list[i], 32)
  }

  /** An array of 32-bit words. */
  function Ints(o: Order, list: seq<nat>): (b: seq<byte>)
    requires FitInts(list)
    ensures |b| == 4 * |list|
  {
    if list == [] then []
    else
      LayoutsAreSound();
      Ints(o, list[..|list| - 1]) + Pack(o, 4, INT_LAYOUT, [list[|list| - 1]])
  }

  /** scan_inode_table: number of data blocks, and length of the tail, from what the inode says. */
  function BlockCount(fileSize: nat, fragment: nat, blockLog: nat): nat {
    if fragment == INVALID_BLK then Shr(fileSize + Pow2(blockLog) - 1, blockLog) else Shr(fileSize, blockLog)
  }

  datatype Inode =
    | File(c: Common, mtime: nat, start: nat, fragment: nat, offset: nat, fileSize: nat, blocks: seq<nat>)
    | Directory(c: Common, fileSize: nat, offset: nat, mtime: nat, start: nat)
    | Device(c: Common, isChar: bool, rdev: nat)
    | Symlink(c: Common, target: seq<byte>)
    | Ipc(c: Common, isSocket: bool)
  {
    function TypeCode(): nat {
      match this
      case File(_, _, _, _, _, _, _) => FILE_TYPE
      case Directory(_, _, _, _, _) => DIR_TYPE
      case Device(_, isChar, _) => if isChar then CHRDEV_TYPE else BLKDEV_TYPE
      case Symlink(_, _) => SYMLINK_TYPE
      case Ipc(_, isSocket) => if isSocket then SOCKET_TYPE else FIFO_TYPE
    }

    /** Layout and values of the fixed header. */
    function Layout(): seq<Field> {
      match this
      case File(_, _, _, _, _, _, _) => REG_LAYOUT
      case Directory(_, _, _, _, _) => DIR_LAYOUT
      case Device(_, _, _) => DEV_LAYOUT
      case Symlink(_, _) => SYMLINK_LAYOUT
      case Ipc(_, _) => BASE_LAYOUT
    }

    function HeaderBytes(): nat {
      match this
      case File(_, _, _, _, _, _, _) => REG_BYTES
      case Directory(_, _, _, _, _) => DIR_BYTES
      case Device(_, _, _) => DEV_BYTES
      case Symlink(_, _) => SYMLINK_BYTES
      case Ipc(_, _) => BASE_BYTES
    }

    function Values(): seq<nat> {
      [TypeCode(), c.mode, c.uid, c.guid] +
      match this
      case File(_, mtime, start, fragment, offset, fileSize, _) => [mtime, start, fragment, offset, fileSize]
      case Directory(_, fileSize, offset, mtime, start) => [fileSize, offset, mtime, start]
      case Device(_, _, rdev) => [rdev]
      case Symlink(_, target) => [|target|]
      case Ipc(_, _) => []
    }

    /** What create_inode appends behind the header. */
    function Tail(o: Order): seq<byte> {
      match this
      case File(_, _, _, _, _, _, blocks) => if FitInts(blocks) then Ints(o, blocks) else []
      case Symlink(_, target) => target
      case _ => []
    }

    predicate Storable() {
      InRange(Layout(), Values())
    }

    /** The values fit their fields, and a file has as many block sizes as its reader will look for. */
    predicate WellFormed(blockLog: nat) {
      && Storable()
      && (File? ==> FitInts(blocks) && |blocks| == BlockCount(fileSize, fragment, blockLog))
    }
  }

  const MAX_INT: nat := 0xffff_ffff

  lemma EightBits()
    ensures Pow2(8) == 256
  {
  }

  lemma FitsInt(v: nat)
    ensures Fits(v, 32) <==> v <= MAX_INT
  {
    hide Pow2, Fits;
    FitsIsBound(v, 32);
    EightBits();
    PowAdd(8, 8);
    PowAdd(16, 16);
  }

  function ReadInts(o: Order, data: seq<byte>, at: nat, n: nat): (list: seq<nat>)
    requires at + 4 * n <= |data|
    ensures |list| == n
  {
    if n == 0 then []
    else ReadInts(o, data, at, n - 1) + [Get(o, data[at + 4 * (n - 1)..at + 4 * n], INT_LAYOUT[0])]
  }

  lemma NoInts(o: Order, data: seq<byte>, at: nat)
    requires at <= |data|
    ensures ReadInts(o, data, at, 0) == []
  {
  }

  lemma IntsStep(o: Order, list: seq<nat>)
    requires FitInts(list) && list != []
    ensures
      var n := |list| - 1;
      INT_LAYOUT[0].Within(4) && Ints(o, list) == Ints(o, list[..n]) + Pack(o, 4, INT_LAYOUT, [list[n]])
  {
    hide Pack, Fits;
  }

  lemma ReadIntsStep(o: Order, data: seq<byte>, at: nat, n: nat)
    requires at + 4 * (n + 1) <= |data|
    ensures INT_LAYOUT[0].Within(4)
    ensures ReadInts(o, data, at, n + 1) == ReadInts(o, data, at, n) + [Get(o, data[at + 4 * n..at + 4 * n + 4], INT_LAYOUT[0])]
  {
    hide Get;
  }

  lemma IntReadsBack(o: Order, v: nat)
    requires Fits(v, 32)
    ensures |INT_LAYOUT| == 1 && INT_LAYOUT[0].Within(4) && |Pack(o, 4, INT_LAYOUT, [v])| == 4
    ensures Get(o, Pack(o, 4, INT_LAYOUT, [v]), INT_LAYOUT[0]) == v
  {
    hide Fits, Pack, Get;
    PackRoundTrip(o, 4, INT_LAYOUT, [v], 0);
  }

  lemma {:induction false} IntsRoundTrip(o: Order, data: seq<byte>, at: nat, list: seq<nat>)
    requires FitInts(list) && Holds(data, at, Ints(o, list))
    ensures ReadInts(o, data, at, |list|) == list
  {
    hide Pack, Get, Holds, Fits, Ints, ReadInts;
    HoldsBound(data, at, Ints(o, list));
    if list == [] {
      NoInts(o, data, at);
    } else {
      var n := |list| - 1;
      IntReadsBack(o, list[n]);
      var word := Pack(o, 4, INT_LAYOUT, [list[n]]);
      IntsStep(o, list);
      HoldsConcat(data, at, Ints(o, list[..n]), word);
      IntsRoundTrip(o, data, at, list[..n]);
      HoldsSlice(data, at + 4 * n, word);
      ReadIntsStep(o, data, at, n);
      assert list[..n] + [list[n]] == list;
    }
  }

  /** The bytes create_inode puts into the inode cache. */
  function Encode(o: Order, i: Inode): seq<byte>
    requires i.Storable()
  {
    LayoutsAreSound();
    Pack(o, i.HeaderBytes(), i.Layout(), i.Values()) + i.Tail(o)
  }

  // ---- the split of a file ----

  /** write_file: number of data blocks and length of the tail for a file of `size` bytes. */
  function WriterSplit(size: nat, noFragments: bool, alwaysFragments: bool, blockLog: nat): (nat, nat) {
    var blockSize := Pow2(blockLog);
    var readSize := if size > MAX_FILE_SIZE then MAX_FILE_SIZE else size;
    if !noFragments && (readSize < blockSize || alwaysFragments)
    then (Shr(readSize, blockLog), Low(readSize, blockLog))
    else (Shr(readSize + blockSize - 1, blockLog), 0)
  }

  function TailBytes(fileSize: nat, fragment: nat, blockLog: nat): nat {
    if fragment == INVALID_BLK then 0 else Low(fileSize, blockLog)
  }

  lemma OneBlockMore(q: nat, b: nat)
    ensures (q + 1) * b == q * b + b
  {
  }

  lemma NoFullBlock(q: nat, b: nat, rest: nat)
    requires q * b + rest < b
    ensures q == 0
  {
    if q > 0 {
      OneBlockMore(q - 1, b);
      assert false;
    }
  }

  /** n bytes are split into `count` blocks of b bytes, of which only the last may be short, and a tail. Without fragments
      all is blocks; with them a file shorter than a block is all tail, and of every other file the rest behind the full
      blocks if that is always asked for, or nothing. */
  predicate SplitAsAsked(n: nat, b: nat, noFragments: bool, alwaysFragments: bool, count: nat, tail: nat) {
    && n <= count * b + tail < n + b
    && (noFragments ==> tail == 0)
    && (!noFragments && n < b ==> count == 0 && tail == n)
    && (!noFragments && alwaysFragments ==> tail < b && n == count * b + tail)
    && (!noFragments && !alwaysFragments && n >= b ==> tail == 0)
  }

  /** write_file reads at most 2^31 bytes of a file. */
  lemma WriterSplitsByOptions(size: nat, noFragments: bool, alwaysFragments: bool, blockLog: nat)
    ensures
      var n, b := if size <= 0x8000_0000 then size else 0x8000_0000, Pow2(blockLog);
      var (count, tail) := WriterSplit(size, noFragments, alwaysFragments, blockLog);
      SplitAsAsked(n, b, noFragments, alwaysFragments, count, tail)
  {
    var n, b := if size <= 0x8000_0000 then size else 0x8000_0000, Pow2(blockLog);
    hide Shr, Low, Pow2;
    ShiftDivides(n, blockLog);
    RoundUp(n, blockLog);
    OneBlockMore(Shr(n, blockLog), b);
    if n < b {
      NoFullBlock(Shr(n, blockLog), b, Low(n, blockLog));
    }
  }

  /** For every size and every fragment option, the reader derives the writer's block count and tail
      length from the file size and the fragment field, given that the fragment field is all ones
      exactly for an empty tail. */
  lemma ReaderSplitsLikeWriter(size: nat, noFragments: bool, alwaysFragments: bool, blockLog: nat, fragment: nat)
    requires (fragment == 0xffff_ffff) == (WriterSplit(size, noFragments, alwaysFragments, blockLog).1 == 0)
    ensures
      var n, b := if size <= 0x8000_0000 then size else 0x8000_0000, Pow2(blockLog);
      var count, tail := BlockCount(n, fragment, blockLog), TailBytes(n, fragment, blockLog);
      && SplitAsAsked(n, b, noFragments, alwaysFragments, count, tail)
      && (count, tail) == WriterSplit(size, noFragments, alwaysFragments, blockLog)
  {
    WriterSplitsByOptions(size, noFragments, alwaysFragments, blockLog);
    RoundUp(if size <= 0x8000_0000 then size else 0x8000_0000, blockLog);
  }

  // ---- the walk ----

  /** What the walk passes to add_file for a regular file. */
  datatype Registered = Registered(start: nat, fileBytes: nat, blocks: seq<nat>, fragment: nat, offset: nat, tail: nat)

  /** What one step of the walk learns from an inode. */
  datatype Seen =
    | SeenFile(file: Registered, fileSize: nat)
    | SeenDirectory(start: nat, dirSize: nat)
    | SeenSymlink
    | SeenDevice
    | SeenFifo
    | SeenSocket

  const COMPRESSED_BIT_BLOCK: nat := 0x100_0000

  /** The bytes that a list of size words accounts for. */
  function TotalStored(blocks: seq<nat>): nat {
    if blocks == [] then 0 else StoredSize(blocks[0], COMPRESSED_BIT_BLOCK) + TotalStored(blocks[1..])
  }

  function Observe(i: Inode, blockLog: nat): Seen {
    match i
    case File(_, _, start, fragment, offset, fileSize, blocks) =>
      SeenFile(Registered(start, TotalStored(blocks), blocks, fragment, offset,
                          TailBytes(fileSize, fragment, blockLog)), fileSize)
    case Directory(_, fileSize, _, _, start) => SeenDirectory(start, fileSize)
    case Symlink(_, _) => SeenSymlink
    case Device(_, _, _) => SeenDevice
    case Ipc(_, isSocket) => if isSocket then SeenSocket else SeenFifo
  }

  /** The n bytes at `at`; what lies behind the end of the table is arbitrary. */
  function Window(data: seq<byte>, at: nat, n: nat, beyond: seq<byte>): (w: seq<byte>)
    requires at <= |data| && n <= |beyond|
    ensures |w| == n
  {
    (data[at..] + beyond)[..n]
  }

  /** The first case of the walk's switch: `reg` is the header of a regular file. */
  function LookAtRegular(o: Order, data: seq<byte>, at: nat, blockLog: nat, reg: seq<byte>): (r: Option<(Seen, nat)>)
    requires |reg| == REG_BYTES
    ensures r.Some? ==> r.value.1 > at
  {
    LayoutsAreSound();
    var fragment := Get(o, reg, REG_LAYOUT[6]);
    var fileSize := Get(o, reg, REG_LAYOUT[8]);
    var n := BlockCount(fileSize, fragment, blockLog);
    var first := at + REG_BYTES;
    if first + 4 * n > |data| then None
    else
      var blocks := ReadInts(o, data, first, n);
      Some((SeenFile(Registered(Get(o, reg, REG_LAYOUT[5]), TotalStored(blocks), blocks, fragment,
                                Get(o, reg, REG_LAYOUT[7]), TailBytes(fileSize, fragment, blockLog)), fileSize),
            first + 4 * n))
  }

  /** The body of scan_inode_table's walk: look at the inode at `at`, say what it is and where the next
      one starts. None is an unknown type. The header is first copied as if it were a regular file's,
      which may reach behind the end of the table. */
  function Look(o: Order, data: seq<byte>, at: nat, blockLog: nat, beyond: seq<byte>): (r: Option<(Seen, nat)>)
    requires at < |data| && |beyond| >= REG_BYTES
    ensures r.Some? ==> r.value.1 > at
  {
    LayoutsAreSound();
    var reg := Window(data, at, REG_BYTES, beyond);
    var code := Get(o, reg, TYPE);
    if code == FILE_TYPE then LookAtRegular(o, data, at, blockLog, reg)
    else if code == SYMLINK_TYPE then
      Some((SeenSymlink, at + SYMLINK_BYTES + Get(o, Window(data, at, SYMLINK_BYTES, beyond), SYMLINK_LAYOUT[4])))
    else if code == DIR_TYPE then
      var dir := Window(data, at, DIR_BYTES, beyond);
      Some((SeenDirectory(Get(o, dir, DIR_LAYOUT[7]), Get(o, dir, DIR_LAYOUT[4])), at + DIR_BYTES))
    else if code == BLKDEV_TYPE || code == CHRDEV_TYPE then Some((SeenDevice, at + DEV_BYTES))
    else if code == FIFO_TYPE then Some((SeenFifo, at + BASE_BYTES))
    else if code == SOCKET_TYPE then Some((SeenSocket, at + BASE_BYTES))
    else None
  }

  /** A window that lies over a header shows that header. */
  lemma WindowShows(data: seq<byte>, at: nat, header: seq<byte>, rest: seq<byte>, n: nat, beyond: seq<byte>)
    requires Holds(data, at, header + rest) && |header| <= n <= |beyond|
    ensures Window(data, at, n, beyond)[..|header|] == header
  {
    HoldsConcat(data, at, header, rest);
  }

  lemma FieldOfHeader(o: Order, i: Inode, data: seq<byte>, at: nat, n: nat, beyond: seq<byte>, k: nat)
    requires i.Storable() && Holds(data, at, Encode(o, i))
    requires i.HeaderBytes() <= n <= |beyond| && k < |i.Layout()|
    ensures i.Layout()[k].Within(n) && Get(o, Window(data, at, n, beyond), i.Layout()[k]) == i.Values()[k]
  {
    LayoutsAreSound();
    var header := Pack(o, i.HeaderBytes(), i.Layout(), i.Values());
    WindowShows(data, at, header, i.Tail(o), n, beyond);
    PackRoundTrip(o, i.HeaderBytes(), i.Layout(), i.Values(), k);
    var window := Window(data, at, n, beyond);
    var fd := i.Layout()[k];
    assert fd.Within(|header|);
    forall j | fd.pos / 8 <= j < fd.pos / 8 + fd.Span()
      ensures window[j] == header[j]
    {
      assert window[j] == window[..|header|][j];
    }
    GetLocal(o, window, header, fd);
  }

  lemma TypeIsSeen(o: Order, i: Inode, data: seq<byte>, at: nat, beyond: seq<byte>)
    requires i.Storable() && Holds(data, at, Encode(o, i)) && |beyond| >= REG_BYTES
    ensures Get(o, Window(data, at, REG_BYTES, beyond), TYPE) == i.TypeCode()
  {
    FieldOfHeader(o, i, data, at, REG_BYTES, beyond, 0);
  }

  lemma LookAtFile(o: Order, i: Inode, data: seq<byte>, at: nat, blockLog: nat, beyond: seq<byte>)
    requires i.File? && i.WellFormed(blockLog) && Holds(data, at, Encode(o, i)) && |beyond| >= REG_BYTES
    ensures Look(o, data, at, blockLog, beyond) == Some((Observe(i, blockLog), at + |Encode(o, i)|))
  {
    hide Get, Pack, Window, ReadInts, Ints, Holds, TotalStored, BlockCount, TailBytes, Fits, InRange, IsLayout, FitInts;
    HoldsBound(data, at, Encode(o, i));
    TypeIsSeen(o, i, data, at, beyond);
    FieldOfHeader(o, i, data, at, REG_BYTES, beyond, 5);
    FieldOfHeader(o, i, data, at, REG_BYTES, beyond, 6);
    FieldOfHeader(o, i, data, at, REG_BYTES, beyond, 7);
    FieldOfHeader(o, i, data, at, REG_BYTES, beyond, 8);
    HoldsConcat(data, at, Pack(o, REG_BYTES, REG_LAYOUT, i.Values()), Ints(o, i.blocks));
    IntsRoundTrip(o, data, at + REG_BYTES, i.blocks);
  }

  /** One step of the walk inverts create_inode: at the start of any well-formed inode it recognises the
      type, recovers what add_file needs, and moves exactly to the end of the inode, whatever lies
      behind the table. */
  lemma LookInvertsEncode(o: Order, i: Inode, data: seq<byte>, at: nat, blockLog: nat, beyond: seq<byte>)
    requires i.WellFormed(blockLog) && Holds(data, at, Encode(o, i)) && |beyond| >= REG_BYTES
    ensures Look(o, data, at, blockLog, beyond) == Some((Observe(i, blockLog), at + |Encode(o, i)|))
  {
    hide Get, Pack, Window, ReadInts, Ints, Holds, TotalStored, BlockCount, TailBytes, Fits, InRange, IsLayout, FitInts;
    HoldsBound(data, at, Encode(o, i));
    TypeIsSeen(o, i, data, at, beyond);
    match i {
      case File(_, _, _, _, _, _, _) => LookAtFile(o, i, data, at, blockLog, beyond);
      case Directory(_, _, _, _, _) =>
        FieldOfHeader(o, i, data, at, DIR_BYTES, beyond, 4);
        FieldOfHeader(o, i, data, at, DIR_BYTES, beyond, 7);
      case Symlink(_, _) => FieldOfHeader(o, i, data, at, SYMLINK_BYTES, beyond, 4);
      case Device(_, _, _) =>
      case Ipc(_, _) =>
    }
  }

  /** All steps of the walk from `at` to `limit`: where each inode was found and what it was. */
  function Visit(o: Order, data: seq<byte>, at: nat, limit: nat, blockLog: nat, beyond: seq<byte>): Option<seq<(nat, Seen)>>
    requires limit <= |data| && |beyond| >= REG_BYTES
    decreases limit - at
  {
    if at >= limit then Some([])
    else
      var step := Look(o, data, at, blockLog, beyond);
      if step.None? then None
      else
        var rest := Visit(o, data, step.value.1, limit, blockLog, beyond);
        if rest.None? then None else Some([(at, step.value.0)] + rest.value)
  }

  predicate AllWellFormed(inodes: seq<Inode>, blockLog: nat) {
    forall k :: 0 <= k < |inodes| ==> inodes[k].WellFormed(blockLog)
  }

  /** The inode stream that results from creating the inodes one after the other. */
  function EncodeAll(o: Order, inodes: seq<Inode>, blockLog: nat): seq<byte>
    requires AllWellFormed(inodes, blockLog)
  {
    if inodes == [] then [] else Encode(o, inodes[0]) + EncodeAll(o, inodes[1..], blockLog)
  }

  lemma NothingEncoded(o: Order, blockLog: nat)
    ensures EncodeAll(o, [], blockLog) == []
  {
  }

  lemma FirstEncoded(o: Order, inodes: seq<Inode>, blockLog: nat)
    requires inodes != [] && AllWellFormed(inodes, blockLog)
    ensures inodes[0].Storable() && AllWellFormed(inodes[1..], blockLog)
    ensures EncodeAll(o, inodes, blockLog) == Encode(o, inodes[0]) + EncodeAll(o, inodes[1..], blockLog)
  {
    hide Encode, Inode.Storable;
  }

  lemma {:induction false} EncodeAllConcat(o: Order, a: seq<Inode>, b: seq<Inode>, blockLog: nat)
    requires AllWellFormed(a, blockLog) && AllWellFormed(b, blockLog)
    ensures AllWellFormed(a + b, blockLog)
    ensures EncodeAll(o, a + b, blockLog) == EncodeAll(o, a, blockLog) + EncodeAll(o, b, blockLog)
  {
    hide Encode, Inode.WellFormed, Inode.Storable, EncodeAll;
    if a == [] {
      assert a + b == b;
      NothingEncoded(o, blockLog);
    } else {
      var rest := a[1..];
      EncodeAllConcat(o, rest, b, blockLog);
      assert (a + b)[1..] == rest + b;
      FirstEncoded(o, a, blockLog);
      FirstEncoded(o, a + b, blockLog);
      Associates(Encode(o, a[0]), EncodeAll(o, rest, blockLog), EncodeAll(o, b, blockLog));
    }
  }

  /** Creating one more inode. */
  lemma EncodeAllMore(o: Order, inodes: seq<Inode>, i: Inode, blockLog: nat)
    requires AllWellFormed(inodes, blockLog) && i.WellFormed(blockLog)
    ensures AllWellFormed(inodes + [i], blockLog)
    ensures i.Storable() && EncodeAll(o, inodes + [i], blockLog) == EncodeAll(o, inodes, blockLog) + Encode(o, i)
  {
    hide Encode, Inode.Storable, EncodeAll;
    EncodeAllConcat(o, inodes, [i], blockLog);
    FirstEncoded(o, [i], blockLog);
    assert [i][1..] == [];
    NothingEncoded(o, blockLog);
    assert Encode(o, i) + [] == Encode(o, i);
  }

  lemma InTheMiddle(a: seq<byte>, b: seq<byte>, c: seq<byte>)
    ensures Holds(a + (b + c), |a|, b)
  {
    forall i | 0 <= i < |b|
      ensures (a + (b + c))[|a| + i] == b[i]
    {
      assert (a + (b + c))[|a| + i] == (b + c)[i];
    }
  }

  /** Inode k lies in the stream behind those before it. */
  lemma InodeLies(o: Order, inodes: seq<Inode>, k: nat, blockLog: nat)
    requires AllWellFormed(inodes, blockLog) && k < |inodes|
    ensures AllWellFormed(inodes[..k], blockLog) && inodes[k].Storable()
    ensures Holds(EncodeAll(o, inodes, blockLog), |EncodeAll(o, inodes[..k], blockLog)|, Encode(o, inodes[k]))
    ensures EncodeAll(o, inodes[..k], blockLog) <= EncodeAll(o, inodes, blockLog)
  {
    hide Encode, Inode.Storable, EncodeAll, Inode.WellFormed;
    var front, back := inodes[..k], inodes[k..];
    assert front + back == inodes;
    EncodeAllConcat(o, front, back, blockLog);
    FirstEncoded(o, back, blockLog);
    var a, b, c := EncodeAll(o, front, blockLog), Encode(o, inodes[k]), EncodeAll(o, back[1..], blockLog);
    assert EncodeAll(o, inodes, blockLog) == a + (b + c);
    InTheMiddle(a, b, c);
  }

  /** Where inode k starts in the stream. */
  function StartOf(o: Order, inodes: seq<Inode>, blockLog: nat, k: nat): nat
    requires AllWellFormed(inodes, blockLog) && k <= |inodes|
  {
    if k == 0 then 0 else |Encode(o, inodes[0])| + StartOf(o, inodes[1..], blockLog, k - 1)
  }

  /** What a walk over the stream of these inodes should see, the stream starting at `at`. */
  function Expected(o: Order, inodes: seq<Inode>, blockLog: nat, at: nat): (steps: seq<(nat, Seen)>)
    requires AllWellFormed(inodes, blockLog)
    ensures |steps| == |inodes|
  {
    if inodes == [] then []
    else [(at, Observe(inodes[0], blockLog))] + Expected(o, inodes[1..], blockLog, at + |Encode(o, inodes[0])|)
  }

  lemma {:induction false} ExpectedAt(o: Order, inodes: seq<Inode>, blockLog: nat, at: nat, k: nat)
    requires AllWellFormed(inodes, blockLog) && k < |inodes|
    ensures Expected(o, inodes, blockLog, at)[k] == (at + StartOf(o, inodes, blockLog, k), Observe(inodes[k], blockLog))
  {
    hide Encode, Observe, Inode.Storable;
    if k == 0 {
    } else {
      ExpectedAt(o, inodes[1..], blockLog, at + |Encode(o, inodes[0])|, k - 1);
    }
  }

  lemma VisitStep(o: Order, data: seq<byte>, at: nat, limit: nat, blockLog: nat, beyond: seq<byte>,
                  seen: Seen, next: nat, rest: seq<(nat, Seen)>)
    requires at < limit <= |data| && |beyond| >= REG_BYTES
    requires Look(o, data, at, blockLog, beyond) == Some((seen, next))
    requires Visit(o, data, next, limit, blockLog, beyond) == Some(rest)
    ensures Visit(o, data, at, limit, blockLog, beyond) == Some([(at, seen)] + rest)
  {
    hide Look;
  }

  lemma StreamOfNone(o: Order, data: seq<byte>, at: nat, blockLog: nat, beyond: seq<byte>)
    requires at <= |data| && |beyond| >= REG_BYTES
    ensures EncodeAll(o, [], blockLog) == [] && Expected(o, [], blockLog, at) == []
    ensures Visit(o, data, at, at, blockLog, beyond) == Some([])
  {
  }

  lemma StreamOfMore(o: Order, inodes: seq<Inode>, blockLog: nat, at: nat)
    requires AllWellFormed(inodes, blockLog) && inodes != []
    ensures EncodeAll(o, inodes, blockLog) == Encode(o, inodes[0]) + EncodeAll(o, inodes[1..], blockLog)
    ensures Expected(o, inodes, blockLog, at)
      == [(at, Observe(inodes[0], blockLog))] + Expected(o, inodes[1..], blockLog, at + |Encode(o, inodes[0])|)
  {
    hide Encode, Observe, Inode.Storable;
  }

  lemma EncodedNonEmpty(o: Order, i: Inode)
    requires i.Storable()
    ensures |Encode(o, i)| >= BASE_BYTES
  {
  }

  /** The inode walk inverts inode creation: over the stream of any well-formed inodes, of all types and
      in any order, the walk's pointer stops exactly at the start of each inode, in order, sees what
      was created, and ends at the end, whatever follows the stream. */
  lemma {:induction false} WalkInvertsCreation(o: Order, inodes: seq<Inode>, data: seq<byte>, at: nat, blockLog: nat,
                                               beyond: seq<byte>)
    requires AllWellFormed(inodes, blockLog) && |beyond| >= REG_BYTES
    requires Holds(data, at, EncodeAll(o, inodes, blockLog))
    ensures at + |EncodeAll(o, inodes, blockLog)| <= |data|
    ensures Visit(o, data, at, at + |EncodeAll(o, inodes, blockLog)|, blockLog, beyond)
      == Some(Expected(o, inodes, blockLog, at))
    decreases |inodes|
  {
    hide Look, Encode, Observe, Holds, Visit, EncodeAll, Expected, Inode.Storable;
    HoldsBound(data, at, EncodeAll(o, inodes, blockLog));
    if inodes == [] {
      StreamOfNone(o, data, at, blockLog, beyond);
    } else {
      var first, rest := Encode(o, inodes[0]), EncodeAll(o, inodes[1..], blockLog);
      var seen, later := Observe(inodes[0], blockLog), Expected(o, inodes[1..], blockLog, at + |first|);
      StreamOfMore(o, inodes, blockLog, at);
      HoldsConcat(data, at, first, rest);
      LookInvertsEncode(o, inodes[0], data, at, blockLog, beyond);
      EncodedNonEmpty(o, inodes[0]);
      WalkInvertsCreation(o, inodes[1..], data, at + |first|, blockLog, beyond);
      VisitStep(o, data, at, at + |first + rest|, blockLog, beyond, seen, at + |first|, later);
    }
  }

  // ---- the walk as a loop ----

  datatype Counts = Counts(files: nat, symlinks: nat, devices: nat, directories: nat, fifos: nat, sockets: nat)

  function Tally(steps: seq<(nat, Seen)>): Counts {
    if steps == [] then Counts(0, 0, 0, 0, 0, 0)
    else
      var c := Tally(steps[..|steps| - 1]);
      match steps[|steps| - 1].1
      case SeenFile(_, _) => c.(files := c.files + 1)
      case SeenDirectory(_, _) => c.(directories := c.directories + 1)
      case SeenSymlink => c.(symlinks := c.symlinks + 1)
      case SeenDevice => c.(devices := c.devices + 1)
      case SeenFifo => c.(fifos := c.fifos + 1)
      case SeenSocket => c.(sockets := c.sockets + 1)
  }

  function FilesAmong(steps: seq<(nat, Seen)>): seq<Registered> {
    if steps == [] then []
    else
      var rest := FilesAmong(steps[..|steps| - 1]);
      match steps[|steps| - 1].1
      case SeenFile(file, _) => rest + [file]
      case _ => rest
  }

  /** Sum of the file sizes. */
  function UncompressedFiles(steps: seq<(nat, Seen)>): nat {
    if steps == [] then 0
    else
      UncompressedFiles(steps[..|steps| - 1])
      + match steps[|steps| - 1].1
        case SeenFile(_, fileSize) => fileSize
        case _ => 0
  }

  /** Sum of the sizes of the directories in blocks before the root directory's. */
  function UncompressedDirectories(steps: seq<(nat, Seen)>, rootStart: nat): nat {
    if steps == [] then 0
    else
      UncompressedDirectories(steps[..|steps| - 1], rootStart)
      + match steps[|steps| - 1].1
        case SeenDirectory(start, size) => if start < rootStart then size else 0
        case _ => 0
  }

  function Extended(a: seq<(nat, Seen)>, b: Option<seq<(nat, Seen)>>): Option<seq<(nat, Seen)>> {
    if b.None? then None else Some(a + b.value)
  }

  lemma ExtendNothing(b: Option<seq<(nat, Seen)>>)
    ensures Extended([], b) == b
  {
    if b.Some? {
      assert [] + b.value == b.value;
    }
  }

  lemma ExtendByOne(a: seq<(nat, Seen)>, x: (nat, Seen), b: Option<seq<(nat, Seen)>>)
    ensures Extended(a, Extended([x], b)) == Extended(a + [x], b)
  {
    if b.Some? {
      assert a + ([x] + b.value) == (a + [x]) + b.value;
    }
  }

  /** scan_inode_table, second loop. */
  method Walk(o: Order, data: seq<byte>, limit: nat, blockLog: nat, rootStart: nat, beyond: seq<byte>)
    returns (ok: bool, steps: seq<(nat, Seen)>, counts: Counts, registered: seq<Registered>, fileTotal: nat, dirTotal: nat)
    requires limit <= |data| && |beyond| >= REG_BYTES
    ensures ok == Visit(o, data, 0, limit, blockLog, beyond).Some?
    ensures ok ==> steps == Visit(o, data, 0, limit, blockLog, beyond).value
    ensures counts == Tally(steps) && registered == FilesAmong(steps)
    ensures fileTotal == UncompressedFiles(steps) && dirTotal == UncompressedDirectories(steps, rootStart)
  {
    hide Look;
    var at := 0;
    ExtendNothing(Visit(o, data, 0, limit, blockLog, beyond));
    steps, counts, registered, fileTotal, dirTotal := [], Counts(0, 0, 0, 0, 0, 0), [], 0, 0;
    while at < limit
      invariant Visit(o, data, 0, limit, blockLog, beyond) == Extended(steps, Visit(o, data, at, limit, blockLog, beyond))
      invariant counts == Tally(steps) && registered == FilesAmong(steps)
      invariant fileTotal == UncompressedFiles(steps) && dirTotal == UncompressedDirectories(steps, rootStart)
      decreases limit - at
    {
      var step := Look(o, data, at, blockLog, beyond);
      if step.None? {
        return false, steps, counts, registered, fileTotal, dirTotal;
      }
      var (seen, next) := step.value;
      match seen {
        case SeenFile(file, fileSize) =>
          fileTotal := fileTotal + fileSize;
          counts := counts.(files := counts.files + 1);
          registered := registered + [file];
        case SeenSymlink => counts := counts.(symlinks := counts.symlinks + 1);
        case SeenDirectory(start, size) =>
          if start < rootStart {
            dirTotal := dirTotal + size;
          }
          counts := counts.(directories := counts.directories + 1);
        case SeenDevice => counts := counts.(devices := counts.devices + 1);
        case SeenFifo => counts := counts.(fifos := counts.fifos + 1);
        case SeenSocket => counts := counts.(sockets := counts.sockets + 1);
      }
      ExtendByOne(steps, (at, seen), Visit(o, data, next, limit, blockLog, beyond));
      assert (steps + [(at, seen)])[..|steps|] == steps;
      steps, at := steps + [(at, seen)], next;
    }
    assert steps + [] == steps;
    ok := true;
  }

  /** How many inodes have a type code. */
  function CountOf(inodes: seq<Inode>, codes: set<nat>): nat {
    if inodes == [] then 0
    else CountOf(inodes[..|inodes| - 1], codes) + if inodes[|inodes| - 1].TypeCode() in codes then 1 else 0
  }

  /** The walk's counters count the types. */
  lemma {:induction false} TallyCountsTypes(inodes: seq<Inode>, blockLog: nat, steps: seq<(nat, Seen)>)
    requires |steps| == |inodes| && forall k :: 0 <= k < |inodes| ==> steps[k].1 == Observe(inodes[k], blockLog)
    ensures Tally(steps) == Counts(CountOf(inodes, {FILE_TYPE}), CountOf(inodes, {SYMLINK_TYPE}),
      CountOf(inodes, {BLKDEV_TYPE, CHRDEV_TYPE}), CountOf(inodes, {DIR_TYPE}),
      CountOf(inodes, {FIFO_TYPE}), CountOf(inodes, {SOCKET_TYPE}))
  {
    if inodes == [] {
    } else {
      var n := |inodes| - 1;
      TallyCountsTypes(inodes[..n], blockLog, steps[..n]);
    }
  }
}
