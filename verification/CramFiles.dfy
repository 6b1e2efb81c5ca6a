/** File contents in a compressed ROM file system: end pointers, compressed blocks and holes (do_compress, is_zero),
    and the reader that follows them. */
module CramFiles {
  import opened Wrappers

  import opened Bits
  import opened BitFields
  import opened CramInodes
  import opened MetadataBlocks

  const BLOCK: nat := 4096
  const ALLOWANCE: nat := 26   // bytes by which the size estimate lets a compressed block outgrow its input

  /** The settings: compression library, byte order of the file system, whether zero blocks become holes. */
  datatype Rom = Rom(codec: Codec, order: Order, holes: bool) {
    ghost predicate Sound() {
      codec.Faithful() && forall x: seq<byte> :: |x| <= BLOCK ==> |codec.compress(x)| <= |x| + ALLOWANCE
    }
  }

  // ---- holes ----

  /** is_zero: the first four bytes one by one, the others by comparing the block with itself four bytes on. */
  predicate IsZero(s: seq<byte>) {
    var n := |s|;
    n == 0 || (s[0] == 0 && (n == 1 || (s[1] == 0 && (n == 2 || (s[2] == 0 && (n == 3 || (s[3] == 0
      && s[..n - 4] == s[4..])))))))
  }

  lemma {:induction false} ZeroFromFour(s: seq<byte>, k: nat)
    requires k < |s| && IsZero(s)
    ensures s[k] == 0
    decreases k
  {
    if k < 4 {
    } else {
      ZeroFromFour(s, k - 4);
      assert s[..|s| - 4][k - 4] == s[4..][k - 4];
    }
  }

  lemma IsZeroMeansZeros(s: seq<byte>)
    ensures IsZero(s) <==> s == Zeros(|s|)
  {
    if IsZero(s) {
      forall k | 0 <= k < |s|
        ensures s[k] == 0
      {
        ZeroFromFour(s, k);
      }
    }
  }

  // ---- the layout of one file ----

  function BlockCount(size: nat): nat {
    if size == 0 then 0 else (size - 1) / BLOCK + 1
  }

  /** Block k of a file. */
  function Block(data: seq<byte>, k: nat): (b: seq<byte>)
    requires k < BlockCount(|data|)
    ensures 0 < |b| <= BLOCK
  {
    data[k * BLOCK..if (k + 1) * BLOCK <= |data| then (k + 1) * BLOCK else |data|]
  }

  /** What is stored for a block: nothing at all for a hole. */
  function Piece(rom: Rom, b: seq<byte>): seq<byte> {
    if rom.holes && IsZero(b) then [] else rom.codec.compress(b)
  }

  /** Bytes stored for the first k blocks. */
  function Packed(rom: Rom, data: seq<byte>, k: nat): nat
    requires k <= BlockCount(|data|)
  {
    if k == 0 then 0 else Packed(rom, data, k - 1) + |Piece(rom, Block(data, k - 1))|
  }

  /** Where block k starts, which is where block k - 1 ends: the pointers come first. */
  function Curr(rom: Rom, at: nat, data: seq<byte>, k: nat): nat
    requires k <= BlockCount(|data|)
  {
    at + 4 * BlockCount(|data|) + Packed(rom, data, k)
  }

  function RoundUp4(n: nat): (r: nat)
    ensures n <= r < n + 4 && r % 4 == 0
  {
    (n + 3) / 4 * 4
  }

  function FileEnd(rom: Rom, at: nat, data: seq<byte>): nat {
    RoundUp4(Curr(rom, at, data, BlockCount(|data|)))
  }

  predicate PointerAt(rom: Rom, img: seq<byte>, at: nat, data: seq<byte>, k: nat)
    requires k < BlockCount(|data|)
  {
    Holds(img, at + 4 * k, Word32(rom.order, Curr(rom, at, data, k + 1)))
  }

  predicate PieceAt(rom: Rom, img: seq<byte>, at: nat, data: seq<byte>, k: nat)
    requires k < BlockCount(|data|)
  {
    Holds(img, Curr(rom, at, data, k), Piece(rom, Block(data, k)))
  }

  /** The image holds a file's first k blocks and their pointers. */
  ghost predicate Begun(rom: Rom, img: seq<byte>, at: nat, data: seq<byte>, k: nat)
    requires k <= BlockCount(|data|)
  {
    forall j: nat | j < k :: PointerAt(rom, img, at, data, j) && PieceAt(rom, img, at, data, j)
  }

  ghost predicate FileAt(rom: Rom, img: seq<byte>, at: nat, data: seq<byte>) {
    Begun(rom, img, at, data, BlockCount(|data|))
  }

  lemma PieceBound(rom: Rom, b: seq<byte>)
    requires rom.Sound() && |b| <= BLOCK
    ensures |Piece(rom, b)| <= |b| + ALLOWANCE
  {
  }

  lemma {:induction false} PackedBound(rom: Rom, data: seq<byte>, k: nat)
    requires rom.Sound() && k <= BlockCount(|data|)
    ensures Packed(rom, data, k) <= ALLOWANCE * k + (if k * BLOCK <= |data| then k * BLOCK else |data|)
    decreases k
  {
    if k == 0 {
    } else {
      PackedBound(rom, data, k - 1);
      PieceBound(rom, Block(data, k - 1));
    }
  }

  lemma {:induction false} PackedGrows(rom: Rom, data: seq<byte>, j: nat, k: nat)
    requires j <= k <= BlockCount(|data|)
    ensures Packed(rom, data, j) <= Packed(rom, data, k)
    decreases k
  {
    if j >= k {
    } else {
      PackedGrows(rom, data, j, k - 1);
    }
  }

  /** The allowance of the estimate covers a file. */
  lemma FileEndBound(rom: Rom, at: nat, data: seq<byte>)
    requires rom.Sound()
    ensures at <= FileEnd(rom, at, data) <= at + (4 + ALLOWANCE) * BlockCount(|data|) + |data| + 3
    ensures FileEnd(rom, at, data) % 4 == 0
  {
    PackedBound(rom, data, BlockCount(|data|));
  }

  // ---- writing ----

  method Store(image: array<byte>, at: nat, part: seq<byte>)
    requires at + |part| <= image.Length
    modifies image
    ensures image[..] == Write(old(image[..]), at, part)
  {
    forall i | 0 <= i < |part| {
      image[at + i] := part[i];
    }
    assert image[..] == Write(old(image[..]), at, part);
  }

  /** Nothing but the bytes from `from` up to `until` may differ. */
  ghost predicate SameOutside(a: seq<byte>, b: seq<byte>, from: nat, until: nat) {
    |a| == |b| && forall i :: 0 <= i < |a| && !(from <= i < until) ==> a[i] == b[i]
  }

  lemma WriteSameOutside(a: seq<byte>, b: seq<byte>, at: nat, part: seq<byte>, from: nat, until: nat)
    requires SameOutside(a, b, from, until) && from <= at && at + |part| <= until && at + |part| <= |b|
    ensures SameOutside(a, Write(b, at, part), from, until)
  {
  }

  lemma HoldsOutside(a: seq<byte>, b: seq<byte>, from: nat, until: nat, at: nat, part: seq<byte>)
    requires SameOutside(a, b, from, until) && Holds(a, at, part)
    requires at + |part| <= from || until <= at
    ensures Holds(b, at, part)
  {
  }

  lemma PackedStep(rom: Rom, data: seq<byte>, k: nat)
    requires k < BlockCount(|data|)
    ensures Packed(rom, data, k + 1) == Packed(rom, data, k) + |Piece(rom, Block(data, k))|
  {
  }

  /** A file is not disturbed by changes elsewhere. */
  lemma FileOutside(rom: Rom, a: seq<byte>, b: seq<byte>, from: nat, until: nat, at: nat, data: seq<byte>)
    requires SameOutside(a, b, from, until) && FileAt(rom, a, at, data)
    requires FileEnd(rom, at, data) <= from || until <= at
    ensures FileAt(rom, b, at, data)
  {
    var n := BlockCount(|data|);
    hide SameOutside, Holds, Packed, Piece, Block, Word32;
    forall j: nat | j < n
      ensures PointerAt(rom, b, at, data, j) && PieceAt(rom, b, at, data, j)
    {
      assert PointerAt(rom, a, at, data, j) && PieceAt(rom, a, at, data, j);
      PackedStep(rom, data, j);
      PackedGrows(rom, data, j + 1, n);
      HoldsOutside(a, b, from, until, at + 4 * j, Word32(rom.order, Curr(rom, at, data, j + 1)));
      HoldsOutside(a, b, from, until, Curr(rom, at, data, j), Piece(rom, Block(data, j)));
    }
  }

  /** One more block and its pointer. */
  lemma BlockArrives(rom: Rom, a: seq<byte>, at: nat, data: seq<byte>, k: nat)
    requires k < BlockCount(|data|) && Begun(rom, a, at, data, k) && Curr(rom, at, data, k + 1) <= |a|
    ensures
      var b := Write(a, Curr(rom, at, data, k), Piece(rom, Block(data, k)));
      Begun(rom, Write(b, at + 4 * k, Word32(rom.order, Curr(rom, at, data, k + 1))), at, data, k + 1)
  {
    hide Holds, Packed, Piece, Block, Word32, Write;
    var piece, word := Piece(rom, Block(data, k)), Word32(rom.order, Curr(rom, at, data, k + 1));
    PackedStep(rom, data, k);
    var b := Write(a, Curr(rom, at, data, k), piece);
    var c := Write(b, at + 4 * k, word);
    WriteHolds(a, Curr(rom, at, data, k), piece);
    WriteKeeps(b, at + 4 * k, word, Curr(rom, at, data, k), piece);
    WriteHolds(b, at + 4 * k, word);
    forall j: nat | j < k
      ensures PointerAt(rom, c, at, data, j) && PieceAt(rom, c, at, data, j)
    {
      assert PointerAt(rom, a, at, data, j) && PieceAt(rom, a, at, data, j);
      PackedStep(rom, data, j);
      PackedGrows(rom, data, j + 1, k);
      var p, w := Piece(rom, Block(data, j)), Word32(rom.order, Curr(rom, at, data, j + 1));
      WriteKeeps(a, Curr(rom, at, data, k), piece, at + 4 * j, w);
      WriteKeeps(b, at + 4 * k, word, at + 4 * j, w);
      WriteKeeps(a, Curr(rom, at, data, k), piece, Curr(rom, at, data, j), p);
      WriteKeeps(b, at + 4 * k, word, Curr(rom, at, data, j), p);
    }
  }

  lemma NothingYet(rom: Rom, img: seq<byte>, at: nat, data: seq<byte>)
    ensures Begun(rom, img, at, data, 0) && Packed(rom, data, 0) == 0
  {
  }

  lemma AllBlocks(rom: Rom, img: seq<byte>, at: nat, data: seq<byte>)
    requires Begun(rom, img, at, data, BlockCount(|data|))
    ensures FileAt(rom, img, at, data)
  {
  }

  lemma NothingChanged(a: seq<byte>, from: nat, until: nat)
    ensures SameOutside(a, a, from, until)
  {
  }

  lemma BlockIs(data: seq<byte>, k: nat, pos: nat, input: nat)
    requires k < BlockCount(|data|) && pos == k * BLOCK && pos < |data|
    requires input == if |data| - pos > BLOCK then BLOCK else |data| - pos
    ensures Block(data, k) == data[pos..pos + input]
  {
  }

  lemma PieceIs(rom: Rom, b: seq<byte>)
    requires rom.Sound() && |b| <= BLOCK
    ensures Piece(rom, b) == if rom.holes && IsZero(b) then [] else rom.codec.compress(b)
    ensures |rom.codec.compress(b)| <= |b| + ALLOWANCE
  {
  }

  /** do_compress */
  method DoCompress(rom: Rom, image: array<byte>, start: nat, data: seq<byte>) returns (curr: nat)
    requires rom.Sound() && |data| > 0
    requires FileEnd(rom, start, data) <= image.Length
    modifies image
    ensures curr == FileEnd(rom, start, data)
    ensures FileAt(rom, image[..], start, data)
    ensures SameOutside(old(image[..]), image[..], start, curr)
  {
    hide Holds, Packed, Piece, Block, Word32, Write, PointerAt, PieceAt, SameOutside, Begun;
    var blocks := (|data| - 1) / BLOCK + 1;
    ghost var end := FileEnd(rom, start, data);
    ghost var k := 0;
    NothingYet(rom, image[..], start, data);
    NothingChanged(image[..], start, end);
    curr := start + 4 * blocks;
    var offset, pos := start, 0;
    while pos < |data|
      invariant k <= blocks && offset == start + 4 * k && curr == Curr(rom, start, data, k)
      invariant pos == if k * BLOCK <= |data| then k * BLOCK else |data|
      invariant Begun(rom, image[..], start, data, k)
      invariant SameOutside(old(image[..]), image[..], start, end)
      decreases blocks - k
    {
      var input := if |data| - pos > BLOCK then BLOCK else |data| - pos;
      ghost var before, at := image[..], curr;
      BlockIs(data, k, pos, input);
      PackedStep(rom, data, k);
      PackedGrows(rom, data, k + 1, blocks);
      var piece: seq<byte> := [];
      PieceIs(rom, data[pos..pos + input]);
      if !(rom.holes && IsZero(data[pos..pos + input])) {
        piece := rom.codec.compress(data[pos..pos + input]);
        assert |piece| <= 2 * BLOCK;
      }
      Store(image, curr, piece);
      WriteSameOutside(old(image[..]), before, curr, piece, start, end);
      curr := curr + |piece|;
      ghost var middle := image[..];
      Store(image, offset, Word32(rom.order, curr));
      WriteSameOutside(old(image[..]), middle, offset, Word32(rom.order, curr), start, end);
      BlockArrives(rom, before, start, data, k);
      offset, pos, k := offset + 4, pos + input, k + 1;
    }
    assert k == blocks;
    curr := (curr + 3) / 4 * 4;
    AllBlocks(rom, image[..], start, data);
  }

  // ---- reading ----

  /** One block of the given length: an empty piece is a hole. */
  function ReadBlock(rom: Rom, piece: seq<byte>, input: nat): Option<seq<byte>> {
    if piece == [] then Some(Zeros(input))
    else
      match rom.codec.uncompress(piece)
      case Some(block) => if |block| == input then Some(block) else None
      case None => None
  }

  /** The blocks from one pointer on: `left` bytes of the file are still to come. */
  function ReadBlocks(rom: Rom, img: seq<byte>, ptr: nat, start: nat, left: nat): Option<seq<byte>>
    decreases left
  {
    if left == 0 then Some([])
    else if ptr + 4 > |img| then None
    else
      var end := ReadWord32(rom.order, img[ptr..ptr + 4]);
      var input := if left > BLOCK then BLOCK else left;
      if !(start <= end <= |img|) then None
      else
        match ReadBlock(rom, img[start..end], input)
        case None => None
        case Some(block) =>
          match ReadBlocks(rom, img, ptr + 4, end, left - input)
          case None => None
          case Some(rest) => Some(block + rest)
  }

  function ReadFile(rom: Rom, img: seq<byte>, at: nat, size: nat): Option<seq<byte>> {
    ReadBlocks(rom, img, at, at + 4 * BlockCount(size), size)
  }

  lemma PieceReadsBack(rom: Rom, b: seq<byte>)
    requires rom.Sound()
    ensures ReadBlock(rom, Piece(rom, b), |b|) == Some(b)
  {
    IsZeroMeansZeros(b);
    assert rom.codec.uncompress(rom.codec.compress(b)) == Some(b);
  }

  lemma PointerReadsBack(rom: Rom, img: seq<byte>, at: nat, data: seq<byte>, k: nat)
    requires k < BlockCount(|data|) && PointerAt(rom, img, at, data, k)
    requires Curr(rom, at, data, k + 1) < 0x1_0000_0000
    ensures at + 4 * k + 4 <= |img| && ReadWord32(rom.order, img[at + 4 * k..at + 4 * k + 4]) == Curr(rom, at, data, k + 1)
  {
    hide Packed, Word32, ReadWord32, Holds, Curr;
    var word := Word32(rom.order, Curr(rom, at, data, k + 1));
    HoldsSlice(img, at + 4 * k, word);
    Word32RoundTrip(rom.order, Curr(rom, at, data, k + 1));
  }

  /** The reader at one block, given what it makes of the pointer and of the piece. */
  lemma OneMoreBlock(rom: Rom, img: seq<byte>, at: nat, data: seq<byte>, k: nat)
    requires k < BlockCount(|data|) && at + 4 * k + 4 <= |img|
    requires Curr(rom, at, data, k) <= Curr(rom, at, data, k + 1) <= |img|
    requires ReadWord32(rom.order, img[at + 4 * k..at + 4 * k + 4]) == Curr(rom, at, data, k + 1)
    requires
      var b := Block(data, k);
      ReadBlock(rom, img[Curr(rom, at, data, k)..Curr(rom, at, data, k + 1)], |b|) == Some(b)
    ensures
      var b, left := Block(data, k), |data| - k * BLOCK;
      |b| <= left && ReadBlocks(rom, img, at + 4 * k, Curr(rom, at, data, k), left) ==
        match ReadBlocks(rom, img, at + 4 * k + 4, Curr(rom, at, data, k + 1), left - |b|)
        case Some(rest) => Some(b + rest)
        case None => None
  {
    hide Packed, ReadWord32, ReadBlock, Curr;
  }

  lemma PieceSlice(rom: Rom, img: seq<byte>, at: nat, data: seq<byte>, k: nat)
    requires k < BlockCount(|data|) && PieceAt(rom, img, at, data, k)
    ensures Curr(rom, at, data, k + 1) <= |img|
    ensures img[Curr(rom, at, data, k)..Curr(rom, at, data, k + 1)] == Piece(rom, Block(data, k))
  {
    HoldsSlice(img, Curr(rom, at, data, k), Piece(rom, Block(data, k)));
  }

  lemma {:induction false} BlocksReadBack(rom: Rom, img: seq<byte>, at: nat, data: seq<byte>, k: nat)
    requires rom.Sound() && FileAt(rom, img, at, data) && k <= BlockCount(|data|)
    requires FileEnd(rom, at, data) <= |img| < 0x1_0000_0000
    ensures
      var pos := if k * BLOCK <= |data| then k * BLOCK else |data|;
      ReadBlocks(rom, img, at + 4 * k, Curr(rom, at, data, k), |data| - pos) == Some(data[pos..])
    decreases BlockCount(|data|) - k
  {
    hide Packed, Word32, ReadWord32, Holds, PointerAt, PieceAt, Piece, Rom.Sound, ReadBlock, Block;
    var n := BlockCount(|data|);
    if k < n {
      var pos := k * BLOCK;
      var input := if |data| - pos > BLOCK then BLOCK else |data| - pos;
      assert PointerAt(rom, img, at, data, k) && PieceAt(rom, img, at, data, k);
      PackedStep(rom, data, k);
      PackedGrows(rom, data, k + 1, n);
      PointerReadsBack(rom, img, at, data, k);
      BlockIs(data, k, pos, input);
      PieceSlice(rom, img, at, data, k);
      PieceReadsBack(rom, Block(data, k));
      BlocksReadBack(rom, img, at, data, k + 1);
      OneMoreBlock(rom, img, at, data, k);
      assert data[pos..pos + input] + data[pos + input..] == data[pos..];
    } else {
      assert data[|data|..] == [];
    }
  }

  /** The end pointer of block k, a word in the byte order of the file system. */
  function EndOf(rom: Rom, img: seq<byte>, at: nat, k: nat): nat
    requires at + 4 * k + 4 <= |img|
  {
    ReadWord32(rom.order, img[at + 4 * k..at + 4 * k + 4])
  }

  lemma PieceByContent(rom: Rom, b: seq<byte>)
    ensures Piece(rom, b) == if rom.holes && (forall j :: 0 <= j < |b| ==> b[j] == 0) then [] else rom.codec.compress(b)
  {
    IsZeroMeansZeros(b);
  }

  lemma BlockPointer(rom: Rom, img: seq<byte>, at: nat, data: seq<byte>, k: nat)
    requires FileAt(rom, img, at, data) && FileEnd(rom, at, data) <= |img| < 0x1_0000_0000 && k < BlockCount(|data|)
    ensures at + 4 * BlockCount(|data|) <= |img| && EndOf(rom, img, at, k) == Curr(rom, at, data, k + 1) <= |img|
    ensures PieceAt(rom, img, at, data, k) && Curr(rom, at, data, k + 1) == Curr(rom, at, data, k) + |Piece(rom, Block(data, k))|
  {
    hide Piece, Holds, ReadWord32;
    assert PointerAt(rom, img, at, data, k);
    PackedGrows(rom, data, k + 1, BlockCount(|data|));
    PointerReadsBack(rom, img, at, data, k);
  }

  /** A file as it lies in the image: a pointer for each 4096 bytes of it, and behind the pointers the blocks, each up to where
      its pointer says; a block is the library's form of its 4096 bytes, or nothing for zeros if there are to be holes. */
  lemma FileOnDisk(rom: Rom, img: seq<byte>, at: nat, data: seq<byte>, k: nat)
    requires FileAt(rom, img, at, data) && FileEnd(rom, at, data) <= |img| < 0x1_0000_0000 && 4096 * k < |data|
    ensures
      var count := (|data| + 4095) / 4096;
      var block := data[4096 * k..if 4096 * (k + 1) <= |data| then 4096 * (k + 1) else |data|];
      && at + 4 * count <= |img|
      && var start := if k == 0 then at + 4 * count else EndOf(rom, img, at, k - 1);
      && start <= EndOf(rom, img, at, k) <= |img|
      && img[start..EndOf(rom, img, at, k)]
         == if rom.holes && (forall j :: 0 <= j < |block| ==> block[j] == 0) then [] else rom.codec.compress(block)
  {
    hide Piece, Holds, FileAt, ReadWord32;
    BlockPointer(rom, img, at, data, k);
    assert Packed(rom, data, 0) == 0;
    if k > 0 {
      BlockPointer(rom, img, at, data, k - 1);
    }
    PieceByContent(rom, Block(data, k));
    HoldsSlice(img, Curr(rom, at, data, k), Piece(rom, Block(data, k)));
  }

  /** Following the end pointers, holes included, gives the file back. */
  lemma FileReadsBack(rom: Rom, img: seq<byte>, at: nat, data: seq<byte>)
    requires rom.Sound() && FileAt(rom, img, at, data) && FileEnd(rom, at, data) <= |img| < 0x1_0000_0000
    ensures ReadFile(rom, img, at, |data|) == Some(data)
  {
    hide FileAt, ReadBlocks, Rom.Sound;
    BlocksReadBack(rom, img, at, data, 0);
    assert data[0..] == data;
  }
}
