/** Metadata blocks: compression of one block (mangle), its framing in a table, and the reader of
    one block (read_block) and of a run of blocks. */
module MetadataBlocks {
  import opened Wrappers

  import opened Bits
  import opened BitFields

  const METADATA_SIZE: nat := 8192
  const COMPRESSED_BIT: nat := 0x8000
  const MARKER_BYTE: byte := 0xff

  /** The compression library, known only by its contract. */
  datatype Codec = Codec(compress: seq<byte> -> seq<byte>, uncompress: seq<byte> -> Option<seq<byte>>) {
    ghost predicate Faithful() {
      forall x: seq<byte> :: |compress(x)| > 0 && uncompress(compress(x)) == Some(x)
    }
  }

  /** The settings that shape metadata: compression library, byte order, whether each block header
      carries a marker byte, and whether metadata is stored uncompressed. */
  datatype Format = Format(codec: Codec, order: Order, checkData: bool, uncompressed: bool) {
    /** Bytes between the start of a block's header and its payload. */
    function BlockOffset(): (n: nat)
      ensures 2 <= n <= 3
    {
      if checkData then 3 else 2
    }
  }

  /** mangle: the size word (with `bit` set for data kept as it is) and the bytes stored. */
  function Mangle(codec: Codec, data: seq<byte>, uncompressed: bool, bit: nat): (r: (nat, seq<byte>))
    requires |data| < bit
  {
    if uncompressed || |codec.compress(data)| >= |data|
    then (|data| + bit, data)
    else (|codec.compress(data)|, codec.compress(data))
  }

  /** SQUASHFS_COMPRESSED_SIZE and SQUASHFS_COMPRESSED_SIZE_BLOCK: the size in a size word. */
  function StoredSize(word: nat, bit: nat): nat
    requires bit > 0
  {
    var low := if word >= bit then word - bit else word;
    if low != 0 then low else bit
  }

  /** SQUASHFS_COMPRESSED and SQUASHFS_COMPRESSED_BLOCK. */
  predicate IsCompressed(word: nat, bit: nat) {
    word < bit
  }

  /** Undoing mangle: the data behind a size word and the stored bytes. */
  function Unmangle(codec: Codec, word: nat, stored: seq<byte>, bit: nat, limit: nat): (r: Option<seq<byte>>) {
    if IsCompressed(word, bit) then
      match codec.uncompress(stored)
      case Some(data) => if |data| <= limit then Some(data) else None
      case None => None
    else Some(stored)
  }

  /** Any block that was mangled is recovered, whether or not it was compressed; its size word states
      how many bytes were stored, and those are never more than went in. */
  lemma MangleRoundTrip(codec: Codec, data: seq<byte>, uncompressed: bool, bit: nat, limit: nat)
    requires codec.Faithful() && 0 < |data| < bit && |data| <= limit
    ensures var (word, stored) := Mangle(codec, data, uncompressed, bit);
      && (word, stored) == (if !uncompressed && |codec.compress(data)| < |data| then (|codec.compress(data)|, codec.compress(data))
                            else (bit + |data|, data))
      && StoredSize(word, bit) == |stored| && 0 < |stored| <= |data|
      && Unmangle(codec, word, stored, bit, limit) == Some(data)
  {
    assert codec.uncompress(codec.compress(data)) == Some(data);
  }

  /** A 16-bit word in the byte order of the image. */
  function Short(o: Order, v: nat): seq<byte>
    requires v < 0x1_0000
  {
    if o.LittleEndian? then [v % 256, v / 256] else [v / 256, v % 256]
  }

  function ReadShort(o: Order, img: seq<byte>, at: nat): nat
    requires at + 2 <= |img|
  {
    var first: int, second: int := img[at], img[at + 1];
    if o.LittleEndian? then first + 256 * second else second + 256 * first
  }

  /** One block of a table: size word, optional marker, payload. */
  function EncodeBlock(f: Format, data: seq<byte>): (b: seq<byte>)
    requires 0 < |data| <= METADATA_SIZE
    ensures |b| >= 2
  {
    var (word, stored) := Mangle(f.codec, data, f.uncompressed, COMPRESSED_BIT);
    Short(f.order, word) + (if f.checkData then [MARKER_BYTE] else []) + stored
  }

  /** read_block: the block's data and the position of the next block. */
  function ReadBlock(f: Format, img: seq<byte>, start: nat): (r: Option<(seq<byte>, nat)>)
    ensures r.Some? ==> start < r.value.1 <= |img|
  {
    if start + 2 > |img| then None
    else
      var word := ReadShort(f.order, img, start);
      var first := start + f.BlockOffset();
      var size := StoredSize(word, COMPRESSED_BIT);
      if first + size > |img| then None
      else match Unmangle(f.codec, word, img[first..first + size], COMPRESSED_BIT, METADATA_SIZE)
        case Some(data) => Some((data, first + size))
        case None => None
  }

  lemma EncodedBlockLength(f: Format, data: seq<byte>)
    requires f.codec.Faithful() && 0 < |data| <= METADATA_SIZE
    ensures |EncodeBlock(f, data)| <= METADATA_SIZE + f.BlockOffset()
  {
    MangleRoundTrip(f.codec, data, f.uncompressed, COMPRESSED_BIT, METADATA_SIZE);
  }

  /** The image holds `part` at position `at`. */
  predicate Holds(img: seq<byte>, at: nat, part: seq<byte>) {
    at + |part| <= |img| && forall i :: 0 <= i < |part| ==> img[at + i] == part[i]
  }

  lemma HoldsConcat(img: seq<byte>, at: nat, a: seq<byte>, b: seq<byte>)
    ensures Holds(img, at, a + b) <==> Holds(img, at, a) && Holds(img, at + |a|, b)
  {
    if Holds(img, at, a + b) {
      forall i | 0 <= i < |b| ensures img[at + |a| + i] == b[i] {
        assert (a + b)[|a| + i] == b[i];
      }
      forall i | 0 <= i < |a| ensures img[at + i] == a[i] {
        assert (a + b)[i] == a[i];
      }
    }
  }

  /** Overwriting part of an image. */
  function Write(img: seq<byte>, at: nat, part: seq<byte>): (r: seq<byte>)
    requires at + |part| <= |img|
    ensures |r| == |img|
  {
    img[..at] + part + img[at + |part|..]
  }

  lemma WriteHolds(img: seq<byte>, at: nat, part: seq<byte>)
    requires at + |part| <= |img|
    ensures Holds(Write(img, at, part), at, part)
  {
  }

  /** What lies beside the part written is still there. */
  lemma WriteKeeps(img: seq<byte>, at: nat, part: seq<byte>, elsewhere: nat, kept: seq<byte>)
    requires at + |part| <= |img| && Holds(img, elsewhere, kept)
    requires elsewhere + |kept| <= at || at + |part| <= elsewhere
    ensures Holds(Write(img, at, part), elsewhere, kept)
  {
  }

  lemma ExtendKeeps(img: seq<byte>, more: seq<byte>, at: nat, part: seq<byte>)
    requires Holds(img, at, part)
    ensures Holds(img + more, at, part)
  {
  }

  lemma HoldsBound(img: seq<byte>, at: nat, part: seq<byte>)
    requires Holds(img, at, part)
    ensures at + |part| <= |img|
  {
  }

  lemma Associates<T>(a: seq<T>, b: seq<T>, c: seq<T>)
    ensures (a + b) + c == a + (b + c)
  {
  }

  /** A slice of a slice. */
  lemma SubSlice(s: seq<byte>, a: nat, b: nat, lo: nat, hi: nat)
    requires a <= b <= |s| && lo <= hi <= b - a
    ensures s[a..b][lo..hi] == s[a + lo..a + hi]
  {
    forall i | 0 <= i < hi - lo
      ensures s[a..b][lo..hi][i] == s[a + lo..a + hi][i]
    {
      assert s[a..b][lo + i] == s[a + lo + i];
    }
  }

  lemma HoldsSlice(img: seq<byte>, at: nat, part: seq<byte>)
    ensures Holds(img, at, part) <==> at + |part| <= |img| && img[at..at + |part|] == part
  {
    if at + |part| <= |img| && img[at..at + |part|] == part {
      forall i | 0 <= i < |part|
        ensures img[at + i] == part[i]
      {
        assert img[at..at + |part|][i] == img[at + i];
      }
    }
  }

  /** A block is read back from wherever it lies in the image. */
  lemma BlockRoundTrip(f: Format, img: seq<byte>, start: nat, data: seq<byte>)
    requires f.codec.Faithful() && 0 < |data| <= METADATA_SIZE
    requires Holds(img, start, EncodeBlock(f, data))
    ensures ReadBlock(f, img, start) == Some((data, start + |EncodeBlock(f, data)|))
  {
    MangleRoundTrip(f.codec, data, f.uncompressed, COMPRESSED_BIT, METADATA_SIZE);
    var (word, stored) := Mangle(f.codec, data, f.uncompressed, COMPRESSED_BIT);
    var marker: seq<byte> := if f.checkData then [MARKER_BYTE] else [];
    HoldsConcat(img, start, Short(f.order, word) + marker, stored);
    HoldsConcat(img, start, Short(f.order, word), marker);
    assert img[start + 0] == Short(f.order, word)[0] && img[start + 1] == Short(f.order, word)[1];
    assert ReadShort(f.order, img, start) == word;
    var first := start + f.BlockOffset();
    assert |Short(f.order, word) + marker| == f.BlockOffset();
    assert img[first..first + |stored|] == stored;
  }

  // ---- streams ----

  /** The finished table of a metadata stream: full blocks of 8192 bytes and a rest. */
  function EncodeStream(f: Format, s: seq<byte>): seq<byte>
    decreases |s|
  {
    if s == [] then []
    else if |s| > METADATA_SIZE then
      EncodeBlock(f, s[..METADATA_SIZE]) + EncodeStream(f, s[METADATA_SIZE..])
    else EncodeBlock(f, s)
  }

  /** The reader's loop over the blocks of a table. */
  function DecodeStream(f: Format, img: seq<byte>, start: nat, end: nat): Option<seq<byte>>
    decreases end - start
  {
    if start >= end then Some([])
    else
      var block := ReadBlock(f, img, start);
      if block.None? then None
      else
        var rest := DecodeStream(f, img, block.value.1, end);
        if rest.None? then None else Some(block.value.0 + rest.value)
  }

  /** The table of a stream that starts with a full block. */
  lemma EncodeFullBlock(f: Format, s: seq<byte>)
    requires |s| >= METADATA_SIZE
    ensures EncodeStream(f, s) == EncodeBlock(f, s[..METADATA_SIZE]) + EncodeStream(f, s[METADATA_SIZE..])
  {
    if |s| == METADATA_SIZE {
      assert s[..METADATA_SIZE] == s;
    }
  }

  lemma SingleBlock(f: Format, s: seq<byte>)
    requires 0 < |s| <= METADATA_SIZE
    ensures EncodeStream(f, s) == EncodeBlock(f, s)
  {
  }

  lemma StreamParts(f: Format, s: seq<byte>)
    ensures EncodeStream(f, s) ==
      if s == [] then []
      else if |s| <= METADATA_SIZE then EncodeBlock(f, s)
      else EncodeBlock(f, s[..METADATA_SIZE]) + EncodeStream(f, s[METADATA_SIZE..])
  {
    hide EncodeBlock;
    if 0 < |s| <= METADATA_SIZE {
      SingleBlock(f, s);
    }
  }

  /** Tables are built piecewise: a prefix of whole blocks is encoded independently of what follows. */
  lemma {:induction false} EncodeConcat(f: Format, a: seq<byte>, b: seq<byte>)
    requires |a| % METADATA_SIZE == 0
    ensures EncodeStream(f, a + b) == EncodeStream(f, a) + EncodeStream(f, b)
    decreases |a|
  {
    hide EncodeStream, EncodeBlock;
    if a == [] {
      assert a + b == b;
      StreamParts(f, a);
    } else {
      var n := METADATA_SIZE;
      var head, tail := a[..n], a[n..];
      EncodeFullBlock(f, a);
      EncodeFullBlock(f, a + b);
      assert |tail| % METADATA_SIZE == 0;
      assert (a + b)[..n] == head && (a + b)[n..] == tail + b;
      EncodeConcat(f, tail, b);
      var x, y, z := EncodeBlock(f, head), EncodeStream(f, tail), EncodeStream(f, b);
      assert EncodeStream(f, a + b) == x + (y + z);
      assert EncodeStream(f, a) == x + y;
      assert x + (y + z) == (x + y) + z;
    }
  }

  lemma DecodeStep(f: Format, img: seq<byte>, start: nat, next: nat, end: nat, data: seq<byte>, rest: seq<byte>)
    requires start < end
    requires ReadBlock(f, img, start) == Some((data, next))
    requires DecodeStream(f, img, next, end) == Some(rest)
    ensures DecodeStream(f, img, start, end) == Some(data + rest)
  {
  }

  lemma LastBlockRoundTrip(f: Format, img: seq<byte>, start: nat, s: seq<byte>)
    requires f.codec.Faithful() && 0 < |s| <= METADATA_SIZE && Holds(img, start, EncodeBlock(f, s))
    ensures DecodeStream(f, img, start, start + |EncodeBlock(f, s)|) == Some(s)
  {
    BlockRoundTrip(f, img, start, s);
    var next := start + |EncodeBlock(f, s)|;
    DecodeStep(f, img, start, next, next, s, []);
    assert s + [] == s;
  }

  lemma NothingToDecode(f: Format, img: seq<byte>, start: nat)
    ensures DecodeStream(f, img, start, start) == Some([])
  {
  }

  /** The reader recovers the whole stream from its table, wherever the table lies. */
  lemma {:induction false} StreamRoundTrip(f: Format, img: seq<byte>, start: nat, s: seq<byte>)
    requires f.codec.Faithful() && Holds(img, start, EncodeStream(f, s))
    ensures DecodeStream(f, img, start, start + |EncodeStream(f, s)|) == Some(s)
    decreases |s|
  {
    hide EncodeBlock, DecodeStream, Holds, EncodeStream;
    StreamParts(f, s);
    if |s| > METADATA_SIZE {
      var head, tail := s[..METADATA_SIZE], s[METADATA_SIZE..];
      var block, rest := EncodeBlock(f, head), EncodeStream(f, tail);
      var next := start + |block|;
      HoldsConcat(img, start, block, rest);
      BlockRoundTrip(f, img, start, head);
      StreamRoundTrip(f, img, next, tail);
      assert next + |rest| == start + |EncodeStream(f, s)|;
      DecodeStep(f, img, start, next, next + |rest|, head, tail);
      assert head + tail == s;
    } else if s != [] {
      LastBlockRoundTrip(f, img, start, s);
    } else {
      NothingToDecode(f, img, start);
    }
  }
}
