/** The growing inode and directory tables: allocation in a cache, flushing of full blocks, the
    numbers handed out before their block is written, and loading and restoring for an append. */
module MetadataStream {
  import opened Wrappers

  import opened Bits
  import opened BitFields
  import opened MetadataBlocks

  /** Position of the first byte of the block that holds stream position p. */
  function BlockStart(p: nat): nat {
    p - p % METADATA_SIZE
  }

  /** MKINODE for the item at stream position p: start of its block in the finished table in the upper
      bits, offset inside the uncompressed block in the low 16. Only the blocks before p matter. */
  function NumberOf(f: Format, s: seq<byte>, p: nat): nat
    requires p <= |s|
  {
    |EncodeStream(f, s[..BlockStart(p)])| * 0x1_0000 + p % METADATA_SIZE
  }

  /** What a reader finds under a number: decode from block number >> 16 to the end of the table and
      skip number & 0xffff bytes. */
  function Resolve(f: Format, img: seq<byte>, start: nat, end: nat, number: nat, len: nat): Option<seq<byte>> {
    var offset := number % 0x1_0000;
    match DecodeStream(f, img, start + number / 0x1_0000, end)
    case None => None
    case Some(data) => if offset + len <= |data| then Some(data[offset..offset + len]) else None
  }

  lemma NumberParts(f: Format, s: seq<byte>, p: nat)
    requires p <= |s|
    ensures NumberOf(f, s, p) / 0x1_0000 == |EncodeStream(f, s[..BlockStart(p)])|
    ensures NumberOf(f, s, p) % 0x1_0000 == p % METADATA_SIZE < METADATA_SIZE
  {
  }

  /** A number depends only on the stream up to its item: nothing appended later moves it. */
  lemma NumberIsStable(f: Format, s: seq<byte>, t: seq<byte>, p: nat)
    requires p <= |s| && p <= |t| && s[..p] == t[..p]
    ensures NumberOf(f, s, p) == NumberOf(f, t, p)
  {
    var b := BlockStart(p);
    assert s[..b] == s[..p][..b] && t[..b] == t[..p][..b];
  }

  /** From a block boundary on, the table decodes to the rest of the stream. */
  lemma DecodeFromBlock(f: Format, img: seq<byte>, start: nat, s: seq<byte>, b: nat)
    requires f.codec.Faithful() && Holds(img, start, EncodeStream(f, s))
    requires b <= |s| && b % METADATA_SIZE == 0
    ensures |EncodeStream(f, s[..b])| <= |EncodeStream(f, s)|
    ensures Holds(img, start, EncodeStream(f, s[..b]))
    ensures DecodeStream(f, img, start + |EncodeStream(f, s[..b])|, start + |EncodeStream(f, s)|) == Some(s[b..])
  {
    hide EncodeStream, DecodeStream, Holds;
    var front, back := s[..b], s[b..];
    assert front + back == s;
    EncodeConcat(f, front, back);
    HoldsConcat(img, start, EncodeStream(f, front), EncodeStream(f, back));
    StreamRoundTrip(f, img, start + |EncodeStream(f, front)|, back);
  }

  lemma SliceOfSuffix(s: seq<byte>, b: nat, i: nat, len: nat)
    requires b + i + len <= |s|
    ensures s[b..][i..i + len] == s[b + i..b + i + len]
  {
  }

  lemma ResolveFrom(f: Format, img: seq<byte>, start: nat, end: nat, number: nat, data: seq<byte>, len: nat)
    requires DecodeStream(f, img, start + number / 0x1_0000, end) == Some(data)
    requires number % 0x1_0000 + len <= |data|
    ensures Resolve(f, img, start, end, number, len)
      == Some(data[number % 0x1_0000..number % 0x1_0000 + len])
  {
  }

  lemma NumberDecodes(f: Format, img: seq<byte>, start: nat, s: seq<byte>, p: nat)
    requires f.codec.Faithful() && Holds(img, start, EncodeStream(f, s)) && p <= |s|
    ensures NumberOf(f, s, p) % 0x1_0000 == p - BlockStart(p)
    ensures DecodeStream(f, img, start + NumberOf(f, s, p) / 0x1_0000, start + |EncodeStream(f, s)|)
      == Some(s[BlockStart(p)..])
  {
    hide EncodeStream, DecodeStream, Holds;
    NumberParts(f, s, p);
    DecodeFromBlock(f, img, start, s, BlockStart(p));
  }

  /** Inode numbers resolve: in the finished table, wherever it lies in the image, the number of the
      item at p finds the item's bytes, even where they straddle blocks. */
  lemma NumberResolves(f: Format, img: seq<byte>, start: nat, s: seq<byte>, p: nat, len: nat)
    requires f.codec.Faithful() && Holds(img, start, EncodeStream(f, s))
    requires p + len <= |s|
    ensures Resolve(f, img, start, start + |EncodeStream(f, s)|, NumberOf(f, s, p), len) == Some(s[p..p + len])
  {
    hide NumberOf, EncodeStream, DecodeStream, Holds, Resolve;
    var b := BlockStart(p);
    NumberDecodes(f, img, start, s, p);
    ResolveFrom(f, img, start, start + |EncodeStream(f, s)|, NumberOf(f, s, p), s[b..], len);
    SliceOfSuffix(s, b, p - b, len);
  }

  lemma SomethingEncoded(f: Format, s: seq<byte>)
    requires s != []
    ensures |EncodeStream(f, s)| > 0
  {
    hide EncodeBlock;
  }

  /** Numbers identify items: two numbers of one stream are equal only for the same position. */
  lemma NumbersAreDistinct(f: Format, s: seq<byte>, p: nat, q: nat)
    requires f.codec.Faithful() && p < q <= |s|
    ensures NumberOf(f, s, p) < NumberOf(f, s, q)
  {
    hide EncodeStream, EncodeBlock;
    var a, b := BlockStart(p), BlockStart(q);
    if a < b {
      var front, back := s[..a], s[a..b];
      assert s[..b] == front + back;
      EncodeConcat(f, front, back);
      SomethingEncoded(f, back);
    }
  }

  /** Append keeps old inode numbers valid. `old` is a finished stream that ends with the root inode and
      `s` any stream that agrees with it up to the root; every item before the root resolves, under the
      number it had, in the finished table of `s`. */
  lemma OldNumbersStayValid(f: Format, former: seq<byte>, rootAt: nat, s: seq<byte>, img: seq<byte>, start: nat, p: nat, len: nat)
    requires f.codec.Faithful() && Holds(img, start, EncodeStream(f, s))
    requires rootAt <= |former| && former[..rootAt] <= s
    requires p + len <= rootAt
    ensures Resolve(f, img, start, start + |EncodeStream(f, s)|, NumberOf(f, former, p), len) == Some(former[p..p + len])
  {
    assert s[..rootAt] == former[..rootAt];
    assert former[..p] == former[..rootAt][..p] && s[..p] == s[..rootAt][..p];
    NumberIsStable(f, former, s, p);
    NumberResolves(f, img, start, s, p, len);
    assert former[p..p + len] == former[..rootAt][p..p + len];
    assert s[p..p + len] == s[..rootAt][p..p + len];
  }

  // ---- reading a table back ----

  /** The reader's loop visits `target`. */
  predicate Visits(f: Format, img: seq<byte>, start: nat, end: nat, target: nat)
    decreases end - start
  {
    start < end
    && (start == target
        || (ReadBlock(f, img, start).Some? && Visits(f, img, ReadBlock(f, img, start).value.1, end, target)))
  }

  function Followed(a: seq<byte>, b: Option<seq<byte>>): Option<seq<byte>> {
    if b.None? then None else Some(a + b.value)
  }

  lemma FollowedTwice(a: seq<byte>, b: seq<byte>, c: Option<seq<byte>>)
    ensures Followed(a, Followed(b, c)) == Followed(a + b, c)
  {
    if c.Some? {
      assert a + (b + c.value) == (a + b) + c.value;
    }
  }

  lemma FollowsNothing(c: Option<seq<byte>>)
    ensures Followed([], c) == c
  {
    if c.Some? {
      assert [] + c.value == c.value;
    }
  }

  /** scan_inode_table, first loop: read all blocks and note where in the data the block at `target` begins. */
  method ReadTable(f: Format, img: seq<byte>, start: nat, end: nat, target: nat)
    returns (ok: bool, data: seq<byte>, found: bool, targetBlock: nat)
    ensures ok == DecodeStream(f, img, start, end).Some?
    ensures ok ==> DecodeStream(f, img, start, end) == Some(data)
    ensures ok ==> found == Visits(f, img, start, end, target)
    ensures ok && found ==> targetBlock <= |data| && DecodeStream(f, img, target, end) == Some(data[targetBlock..])
  {
    data, found, targetBlock := [], false, 0;
    var at := start;
    FollowsNothing(DecodeStream(f, img, start, end));
    while at < end
      invariant Followed(data, DecodeStream(f, img, at, end)) == DecodeStream(f, img, start, end)
      invariant Visits(f, img, start, end, target) == (found || Visits(f, img, at, end, target))
      invariant found ==> targetBlock <= |data|
      invariant found ==>
        DecodeStream(f, img, target, end) == Followed(data[targetBlock..], DecodeStream(f, img, at, end))
      decreases end - at
    {
      if at == target {
        found, targetBlock := true, |data|;
        assert data[targetBlock..] == [];
        FollowsNothing(DecodeStream(f, img, at, end));
      }
      var block := ReadBlock(f, img, at);
      if block.None? {
        return false, data, found, targetBlock;
      }
      var (bytes, next) := block.value;
      FollowedTwice(data, bytes, DecodeStream(f, img, next, end));
      if found {
        FollowedTwice(data[targetBlock..], bytes, DecodeStream(f, img, next, end));
        assert data[targetBlock..] + bytes == (data + bytes)[targetBlock..];
      }
      data, at := data + bytes, next;
    }
    assert data + [] == data;
    ok := true;
    if found {
      assert data[targetBlock..] + [] == data[targetBlock..];
    }
  }

  /** The other reading loop, of squashfs_readdir: read blocks until there are `want` bytes. */
  function ReadUntil(f: Format, img: seq<byte>, start: nat, want: nat): (r: Option<seq<byte>>)
    ensures r.Some? ==> |r.value| >= want
    decreases |img| - start
  {
    if want == 0 then Some([])
    else
      var block := ReadBlock(f, img, start);
      if block.None? then None
      else
        var data := block.value.0;
        if |data| >= want then Some(data)
        else
          var rest := ReadUntil(f, img, block.value.1, want - |data|);
          if rest.None? then None else Some(data + rest.value)
  }

  /** Applied to a table, it returns a prefix of the stream that is long enough. */
  lemma {:induction false} ReadUntilPrefix(f: Format, img: seq<byte>, start: nat, s: seq<byte>, want: nat)
    requires f.codec.Faithful() && Holds(img, start, EncodeStream(f, s)) && want <= |s|
    ensures var r := ReadUntil(f, img, start, want); r.Some? && r.value <= s && |r.value| >= want
    decreases |s|
  {
    hide EncodeBlock, Holds, ReadBlock;
    if want == 0 {
    } else {
      if |s| > METADATA_SIZE {
        var head, tail := s[..METADATA_SIZE], s[METADATA_SIZE..];
        var block := EncodeBlock(f, head);
        assert EncodeStream(f, s) == block + EncodeStream(f, tail);
        HoldsConcat(img, start, block, EncodeStream(f, tail));
        BlockRoundTrip(f, img, start, head);
        HoldsBound(img, start, block);
        if want > METADATA_SIZE {
          ReadUntilPrefix(f, img, start + |block|, tail, want - METADATA_SIZE);
          assert head + tail == s;
        }
      } else {
        BlockRoundTrip(f, img, start, s);
      }
    }
  }

  /** The block part of a number is where the rest of the stream is encoded. */
  lemma NumberPointsAt(f: Format, img: seq<byte>, start: nat, s: seq<byte>, p: nat)
    requires f.codec.Faithful() && Holds(img, start, EncodeStream(f, s)) && p <= |s|
    ensures NumberOf(f, s, p) % 0x1_0000 == p - BlockStart(p)
    ensures Holds(img, start + NumberOf(f, s, p) / 0x1_0000, EncodeStream(f, s[BlockStart(p)..]))
  {
    hide Holds, EncodeStream;
    var front, back := s[..BlockStart(p)], s[BlockStart(p)..];
    assert front + back == s;
    NumberParts(f, s, p);
    EncodeConcat(f, front, back);
    HoldsConcat(img, start, EncodeStream(f, front), EncodeStream(f, back));
  }

  /** The loop itself. */
  method ReadBlocks(f: Format, img: seq<byte>, start: nat, want: nat) returns (ok: bool, data: seq<byte>)
    ensures ok == ReadUntil(f, img, start, want).Some?
    ensures ok ==> data == ReadUntil(f, img, start, want).value
  {
    hide ReadBlock;
    data := [];
    var at := start;
    FollowsNothing(ReadUntil(f, img, start, want));
    while |data| < want
      invariant |data| < want ==> ReadUntil(f, img, start, want) == Followed(data, ReadUntil(f, img, at, want - |data|))
      invariant |data| >= want ==> ReadUntil(f, img, start, want) == Some(data)
      decreases if |data| >= want then 0 else 1, |img| - at
    {
      var block := ReadBlock(f, img, at);
      if block.None? {
        return false, data;
      }
      if |data + block.value.0| < want {
        FollowedTwice(data, block.value.0, ReadUntil(f, img, block.value.1, want - |data + block.value.0|));
      }
      data := data + block.value.0;
      at := block.value.1;
    }
    ok := true;
  }

  /** Where the number of the last item points, the reader's loop comes by, and finds the block of the item. */
  lemma {:induction false} BlockIsVisited(f: Format, img: seq<byte>, start: nat, s: seq<byte>, b: nat)
    requires f.codec.Faithful() && Holds(img, start, EncodeStream(f, s))
    requires b < |s| && b % METADATA_SIZE == 0
    ensures Visits(f, img, start, start + |EncodeStream(f, s)|, start + |EncodeStream(f, s[..b])|)
    decreases |s|
  {
    hide EncodeBlock, Holds, ReadBlock;
    if b == 0 {
    } else {
      var head, tail := s[..METADATA_SIZE], s[METADATA_SIZE..];
      var block := EncodeBlock(f, head);
      HoldsConcat(img, start, block, EncodeStream(f, tail));
      BlockRoundTrip(f, img, start, head);
      BlockIsVisited(f, img, start + |block|, tail, b - METADATA_SIZE);
      EncodeFullBlock(f, s[..b]);
      assert s[..b][..METADATA_SIZE] == head && s[..b][METADATA_SIZE..] == tail[..b - METADATA_SIZE];
    }
  }

  // ---- the writer ----

  /** The writer's state as values: `done` are the finished blocks of a stream whose last bytes,
      `pending`, are not compressed yet. */
  ghost predicate InProgress(f: Format, done: seq<byte>, pending: seq<byte>, stream: seq<byte>) {
    var flushed := |stream| - |pending|;
    && flushed >= 0 && flushed % METADATA_SIZE == 0
    && done == EncodeStream(f, stream[..flushed])
    && pending == stream[flushed..]
  }

  lemma BlockMoves(f: Format, done: seq<byte>, pending: seq<byte>, stream: seq<byte>, n: nat)
    requires InProgress(f, done, pending, stream) && 0 < n <= METADATA_SIZE && n <= |pending|
    ensures done + EncodeBlock(f, pending[..n]) == EncodeStream(f, stream[..|stream| - |pending| + n])
    ensures n == METADATA_SIZE ==> InProgress(f, done + EncodeBlock(f, pending[..n]), pending[n..], stream)
  {
    hide EncodeStream, EncodeBlock;
    var flushed := |stream| - |pending|;
    var block := stream[flushed..flushed + n];
    assert pending[..n] == block;
    assert stream[..flushed + n] == stream[..flushed] + block;
    EncodeConcat(f, stream[..flushed], block);
    SingleBlock(f, block);
    assert n == METADATA_SIZE ==> pending[n..] == stream[flushed + n..];
  }

  lemma ItemArrives(f: Format, done: seq<byte>, pending: seq<byte>, stream: seq<byte>, item: seq<byte>)
    requires InProgress(f, done, pending, stream)
    ensures InProgress(f, done, pending + item, stream + item)
    ensures |pending| < METADATA_SIZE ==> |done| * 0x1_0000 + |pending| == NumberOf(f, stream + item, |stream|)
  {
    var flushed := |stream| - |pending|;
    assert (stream + item)[..flushed] == stream[..flushed];
    assert (stream + item)[flushed..] == stream[flushed..] + item;
    if |pending| < METADATA_SIZE {
      assert BlockStart(|stream|) == flushed;
    }
  }

  lemma PendingCut(f: Format, done: seq<byte>, cache: seq<byte>, whole: seq<byte>, pending: nat)
    requires InProgress(f, done, cache, whole) && pending <= |cache|
    ensures InProgress(f, done, cache[..pending], whole[..|whole| - (|cache| - pending)])
  {
    var flushed := |whole| - |cache|;
    var kept := whole[..flushed + pending];
    assert kept[..flushed] == whole[..flushed];
    assert kept[flushed..] == whole[flushed..][..pending];
  }

  lemma AllFlushed(f: Format, done: seq<byte>, pending: seq<byte>, stream: seq<byte>)
    requires InProgress(f, done, pending, stream)
    ensures pending == [] ==> done == EncodeStream(f, stream)
  {
    assert stream[..|stream|] == stream;
  }

  /** One metadata table under construction: inode_table/data_cache, or directory_table/directory_data_cache. */
  class MetadataTable {
    const f: Format
    const growth: nat             // by how much the table's size is recorded to grow when it runs short
    var table: seq<byte>          // allocated part of the table
    var tableBytes: nat           // inode_bytes: how much of it is finished blocks
    var cache: seq<byte>          // allocated part of the cache
    var cacheBytes: nat           // cache_bytes: how much of it is pending
    var savedTableBytes: nat      // sinode_bytes
    var savedCache: seq<byte>     // sdata_cache
    ghost var stream: seq<byte>       // everything ever appended, uncompressed
    ghost var savedStream: seq<byte>  // the stream a rollback returns to

    ghost predicate Valid()
      reads this
    {
      && Usable() && SavedIntact()
      && tableBytes <= |table| && cacheBytes <= |cache|
      && InProgress(f, table[..tableBytes], cache[..cacheBytes], stream)
    }

    ghost predicate Usable() {
      f.codec.Faithful() && growth >= 2 * METADATA_SIZE
    }

    /** What restorefs needs is still there. */
    ghost predicate SavedIntact()
      reads this
    {
      && savedTableBytes <= tableBytes <= |table| && |savedCache| <= |cache|
      && InProgress(f, table[..savedTableBytes], savedCache, savedStream)
    }

    constructor (f: Format, growth: nat)
      requires f.codec.Faithful() && growth >= 2 * METADATA_SIZE
      ensures Valid() && this.f == f && this.growth == growth
      ensures stream == [] && savedStream == []
    {
      this.f, this.growth := f, growth;
      table, tableBytes, cache, cacheBytes := [], 0, [], 0;
      savedTableBytes, savedCache := 0, [];
      stream, savedStream := [], [];
    }

    /** The table as read_filesystem leaves it: the blocks before the root's, and the root's block with what
        follows; the cache may hold a root item that is not pending any more. Nothing is saved yet. */
    constructor Loaded(f: Format, growth: nat, table: seq<byte>, cache: seq<byte>, pending: nat, ghost whole: seq<byte>)
      requires f.codec.Faithful() && growth >= 2 * METADATA_SIZE
      requires pending <= |cache| && InProgress(f, table, cache, whole)
      ensures Valid() && this.f == f && this.growth == growth
      ensures stream == whole[..|whole| - (|cache| - pending)] && this.cache == cache && cacheBytes == pending
      ensures stream + cache[pending..] == whole && savedStream == []
    {
      this.f, this.growth := f, growth;
      this.table, tableBytes, this.cache, cacheBytes := table, |table|, cache, pending;
      savedTableBytes, savedCache, savedStream := 0, [], [];
      stream := whole[..|whole| - (|cache| - pending)];
      new;
      assert table[..|table|] == table;
      PendingCut(f, table, cache, whole, pending);
    }

    /** Compress one block to the end of the table, growing the table first if little room is left. */
    method EmitBlock(data: seq<byte>)
      requires Usable() && SavedIntact()
      requires 0 < |data| <= METADATA_SIZE
      modifies this`table, this`tableBytes
      ensures tableBytes <= |table|
      ensures table[..tableBytes] == old(table[..tableBytes]) + EncodeBlock(f, data)
      ensures SavedIntact()
    {
      hide InProgress;
      if |table| - tableBytes < 2 * METADATA_SIZE + 2 {
        table := table + Zeros(growth);
      }
      EncodedBlockLength(f, data);
      var block := EncodeBlock(f, data);
      table := table[..tableBytes] + block + table[tableBytes + |block|..];
      tableBytes := tableBytes + |block|;
      assert table[..tableBytes] == old(table[..tableBytes]) + block;
      assert table[..savedTableBytes] == old(table[..savedTableBytes]);
    }

    /** The loop that opens get_inode and write_dir: while a full block is pending, write it out and
        move the rest of the cache down. */
    method FlushFullBlocks()
      requires Valid()
      modifies this`table, this`tableBytes, this`cache, this`cacheBytes
      ensures Valid() && cacheBytes < METADATA_SIZE
    {
      hide InProgress, EncodeBlock;
      while cacheBytes >= METADATA_SIZE
        invariant Valid()
        decreases cacheBytes
      {
        ghost var done, pending := table[..tableBytes], cache[..cacheBytes];
        BlockMoves(f, done, pending, stream, METADATA_SIZE);
        assert cache[..METADATA_SIZE] == pending[..METADATA_SIZE];
        EmitBlock(cache[..METADATA_SIZE]);
        cache := cache[METADATA_SIZE..cacheBytes] + cache[cacheBytes - METADATA_SIZE..];
        cacheBytes := cacheBytes - METADATA_SIZE;
        assert cache[..cacheBytes] == pending[METADATA_SIZE..];
      }
    }

    /** get_inode (and the copy into directory_data_cache in write_dir): make room, put the item behind
        what is pending, and hand out its number at once. */
    method Append(item: seq<byte>) returns (number: nat)
      requires Valid()
      modifies this
      ensures Valid()
      ensures stream == old(stream) + item && savedStream == old(savedStream)
      ensures number == NumberOf(f, stream, |old(stream)|)
    {
      hide InProgress;
      FlushFullBlocks();
      ghost var pending := cache[..cacheBytes];
      var space := |cache| - cacheBytes;
      if space < |item| {
        var more := if |cache| == 0 then |item| + METADATA_SIZE - (|item| + METADATA_SIZE) % METADATA_SIZE
                    else |item| - space;
        cache := cache + Zeros(more);
      }
      number := tableBytes * 0x1_0000 + cacheBytes;
      assert cache[..cacheBytes] == pending;
      ItemArrives(f, table[..tableBytes], pending, stream, item);
      cache := cache[..cacheBytes] + item + cache[cacheBytes + |item|..];
      cacheBytes := cacheBytes + |item|;
      stream := stream + item;
      assert cache[..cacheBytes] == pending + item;
    }

    /** write_inodes, write_directories: compress everything that is pending, the last block being
        as short as need be. Afterwards the table is complete. */
    method FlushAll()
      requires Valid()
      modifies this`table, this`tableBytes, this`cacheBytes
      ensures tableBytes <= |table| && table[..tableBytes] == EncodeStream(f, stream)
      ensures SavedIntact()
    {
      hide InProgress, EncodeBlock, EncodeStream;
      var datap := 0;
      AllFlushed(f, table[..tableBytes], cache[..cacheBytes], stream);
      while cacheBytes > 0
        invariant Usable() && SavedIntact() && datap + cacheBytes <= |cache|
        invariant cacheBytes > 0 ==> InProgress(f, table[..tableBytes], cache[datap..datap + cacheBytes], stream)
        invariant cacheBytes == 0 ==> table[..tableBytes] == EncodeStream(f, stream)
        decreases cacheBytes
      {
        var avail := if cacheBytes > METADATA_SIZE then METADATA_SIZE else cacheBytes;
        ghost var done, pending := table[..tableBytes], cache[datap..datap + cacheBytes];
        BlockMoves(f, done, pending, stream, avail);
        SubSlice(cache, datap, datap + cacheBytes, 0, avail);
        SubSlice(cache, datap, datap + cacheBytes, avail, cacheBytes);
        assert pending[0..avail] == pending[..avail] && pending[avail..cacheBytes] == pending[avail..];
        EmitBlock(cache[datap..datap + avail]);
        datap := datap + avail;
        cacheBytes := cacheBytes - avail;
        assert stream[..|stream|] == stream;
      }
    }

    /** What main does to remember the state for a rollback: the whole cache buffer, not only its pending part. */
    method Save()
      requires Valid()
      modifies this`savedTableBytes, this`savedCache, this`savedStream
      ensures Valid() && savedStream == stream + cache[cacheBytes..]
    {
      savedTableBytes, savedCache := tableBytes, cache;
      savedStream := stream + cache[cacheBytes..];
      ItemArrives(f, table[..tableBytes], cache[..cacheBytes], stream, cache[cacheBytes..]);
      assert cache[..cacheBytes] + cache[cacheBytes..] == cache;
    }

    /** restorefs for this table. */
    method Restore()
      requires Usable() && SavedIntact()
      modifies this`tableBytes, this`cache, this`cacheBytes, this`stream
      ensures Valid() && stream == savedStream
    {
      cache := savedCache + cache[|savedCache|..];
      cacheBytes := |savedCache|;
      tableBytes := savedTableBytes;
      stream := savedStream;
      assert cache[..cacheBytes] == savedCache;
    }
  }
}
