/** The table of fragment blocks at the end of the image: write_fragment_table and read_fragment_table. */
module FragmentTable {
  import opened Wrappers

  import opened Bits
  import opened BitFields
  import opened MetadataBlocks
  import opened DataStore
  import opened Inodes
  import opened MetadataStream

  /** Number of table entries in one metadata block. */
  const PER_BLOCK: nat := 1024

  // ---- entries ----

  predicate Storable(entries: seq<FragmentEntry>) {
    forall k :: 0 <= k < |entries| ==> Fits(entries[k].start, 32) && Fits(entries[k].size, 32)
  }

  function EntryBytes(o: Order, e: FragmentEntry): (b: seq<byte>)
    ensures |b| == FRAGMENT_ENTRY_BYTES
  {
    LayoutsAreSound();
    Pack(o, FRAGMENT_ENTRY_BYTES, FRAGMENT_ENTRY_LAYOUT, [e.start, e.size])
  }

  function EncodeEntries(o: Order, entries: seq<FragmentEntry>): (b: seq<byte>)
    ensures |b| == FRAGMENT_ENTRY_BYTES * |entries|
  {
    if entries == [] then [] else EncodeEntries(o, entries[..|entries| - 1]) + EntryBytes(o, entries[|entries| - 1])
  }

  function ReadEntry(o: Order, b: seq<byte>): FragmentEntry
    requires |b| == FRAGMENT_ENTRY_BYTES
  {
    LayoutsAreSound();
    FragmentEntry(Get(o, b, FRAGMENT_ENTRY_LAYOUT[0]), Get(o, b, FRAGMENT_ENTRY_LAYOUT[1]))
  }

  function DecodeEntries(o: Order, b: seq<byte>, n: nat): (entries: seq<FragmentEntry>)
    requires FRAGMENT_ENTRY_BYTES * n <= |b|
    ensures |entries| == n
  {
    if n == 0 then []
    else DecodeEntries(o, b, n - 1) + [ReadEntry(o, b[FRAGMENT_ENTRY_BYTES * (n - 1)..FRAGMENT_ENTRY_BYTES * n])]
  }

  lemma EntryRoundTrip(o: Order, e: FragmentEntry)
    requires Fits(e.start, 32) && Fits(e.size, 32)
    ensures ReadEntry(o, EntryBytes(o, e)) == e
  {
    hide Get, Pack, Fits;
    LayoutsAreSound();
    assert InRange(FRAGMENT_ENTRY_LAYOUT, [e.start, e.size]);
    PackRoundTrip(o, FRAGMENT_ENTRY_BYTES, FRAGMENT_ENTRY_LAYOUT, [e.start, e.size], 0);
    PackRoundTrip(o, FRAGMENT_ENTRY_BYTES, FRAGMENT_ENTRY_LAYOUT, [e.start, e.size], 1);
  }

  lemma {:induction false} EntriesRoundTrip(o: Order, entries: seq<FragmentEntry>, b: seq<byte>)
    requires Storable(entries) && EncodeEntries(o, entries) <= b
    ensures DecodeEntries(o, b, |entries|) == entries
  {
    hide ReadEntry, EntryBytes, Fits;
    if entries == [] {
    } else {
      var n := |entries| - 1;
      EntryRoundTrip(o, entries[n]);
      EntriesRoundTrip(o, entries[..n], b);
      assert b[FRAGMENT_ENTRY_BYTES * n..FRAGMENT_ENTRY_BYTES * (n + 1)]
          == EncodeEntries(o, entries)[FRAGMENT_ENTRY_BYTES * n..FRAGMENT_ENTRY_BYTES * (n + 1)]
          == EntryBytes(o, entries[n]);
    }
  }

  // ---- blocks ----

  /** Length that the size word of an empty block stands for. */
  const EMPTY_STORED: nat := 0x8000

  /** What the writer puts down when it compresses nothing: the size word says "nothing, uncompressed",
      which reads as 0x8000 bytes, so that much of its scratch buffer follows. */
  function EmptyBlock(f: Format, scratch: seq<byte>): seq<byte> {
    Short(f.order, COMPRESSED_BIT) + (if f.checkData then [MARKER_BYTE] else []) + scratch
  }

  /** The loop of write_fragment_table: all blocks but the last are full; the last gets
      frag_bytes % 8192 bytes. Result: the bytes written from position `at` on, and the index of blocks. */
  function WriteTable(f: Format, b: seq<byte>, at: nat, scratch: seq<byte>): (seq<byte>, seq<nat>)
    decreases |b|
  {
    if b == [] then ([], [])
    else if |b| > METADATA_SIZE then
      var block := EncodeBlock(f, b[..METADATA_SIZE]);
      var (rest, index) := WriteTable(f, b[METADATA_SIZE..], at + |block|, scratch);
      (block + rest, [at] + index)
    else if |b| % METADATA_SIZE == 0 then (EmptyBlock(f, scratch), [at])
    else (EncodeBlock(f, b), [at])
  }

  /** read_fragment_table's loop: the blocks the index names. */
  function ReadTableBlocks(f: Format, img: seq<byte>, index: seq<nat>): Option<seq<byte>> {
    if index == [] then Some([])
    else
      var first := ReadBlock(f, img, index[0]);
      var rest := ReadTableBlocks(f, img, index[1..]);
      if first.None? || rest.None? then None else Some(first.value.0 + rest.value)
  }

  lemma EmptyBlockReadsScratch(f: Format, img: seq<byte>, at: nat, scratch: seq<byte>)
    requires |scratch| == EMPTY_STORED && Holds(img, at, EmptyBlock(f, scratch))
    ensures ReadBlock(f, img, at) == Some((scratch, at + f.BlockOffset() + EMPTY_STORED))
  {
    var word, marker: seq<byte> := Short(f.order, COMPRESSED_BIT), if f.checkData then [MARKER_BYTE] else [];
    HoldsConcat(img, at, word + marker, scratch);
    HoldsConcat(img, at, word, marker);
    assert img[at + 0] == word[0] && img[at + 1] == word[1];
    assert ReadShort(f.order, img, at) == COMPRESSED_BIT;
    HoldsSlice(img, at + f.BlockOffset(), scratch);
  }

  lemma WriteTableStep(f: Format, b: seq<byte>, at: nat, scratch: seq<byte>)
    ensures b == [] ==> WriteTable(f, b, at, scratch) == ([], [])
    ensures |b| > METADATA_SIZE ==>
      var block := EncodeBlock(f, b[..METADATA_SIZE]);
      var (rest, index) := WriteTable(f, b[METADATA_SIZE..], at + |block|, scratch);
      WriteTable(f, b, at, scratch) == (block + rest, [at] + index)
    ensures 0 < |b| <= METADATA_SIZE ==>
      WriteTable(f, b, at, scratch) ==
        (if |b| % METADATA_SIZE == 0 then EmptyBlock(f, scratch) else EncodeBlock(f, b), [at])
  {
    hide EncodeBlock, EmptyBlock;
  }

  /** The bytes that the blocks of a written table hold for a reader. */
  function Shown(b: seq<byte>, scratch: seq<byte>): seq<byte> {
    if b == [] || |b| % METADATA_SIZE != 0 then b else b[..|b| - METADATA_SIZE] + scratch
  }

  lemma ShownStep(b: seq<byte>, scratch: seq<byte>)
    ensures b == [] ==> Shown(b, scratch) == []
    ensures |b| > METADATA_SIZE ==> Shown(b, scratch) == b[..METADATA_SIZE] + Shown(b[METADATA_SIZE..], scratch)
    ensures 0 < |b| <= METADATA_SIZE ==> Shown(b, scratch) == (if |b| % METADATA_SIZE == 0 then scratch else b) + []
  {
    if |b| > METADATA_SIZE {
      var head, tail := b[..METADATA_SIZE], b[METADATA_SIZE..];
      assert |tail| % METADATA_SIZE == |b| % METADATA_SIZE;
      assert head + tail == b;
      if |b| % METADATA_SIZE == 0 {
        assert head + (tail[..|tail| - METADATA_SIZE] + scratch) == b[..|b| - METADATA_SIZE] + scratch;
      }
    } else if |b| == METADATA_SIZE {
      assert b[..0] + scratch == scratch + [];
    }
  }

  lemma ReadTableStep(f: Format, img: seq<byte>, at: nat, index: seq<nat>, data: seq<byte>, next: nat, rest: seq<byte>)
    requires ReadBlock(f, img, at) == Some((data, next)) && ReadTableBlocks(f, img, index) == Some(rest)
    ensures ReadTableBlocks(f, img, [at] + index) == Some(data + rest)
  {
    hide ReadBlock;
    assert ([at] + index)[1..] == index;
  }

  lemma NoTableBlocks(f: Format, img: seq<byte>)
    ensures ReadTableBlocks(f, img, []) == Some([])
  {
  }

  /** The blocks read back what was written, except that a last block that should have been full reads as the
      writer's scratch buffer. */
  lemma {:induction false} TableBlocksReadBack(f: Format, img: seq<byte>, b: seq<byte>, at: nat, scratch: seq<byte>)
    requires f.codec.Faithful() && |scratch| == EMPTY_STORED
    requires Holds(img, at, WriteTable(f, b, at, scratch).0)
    ensures ReadTableBlocks(f, img, WriteTable(f, b, at, scratch).1)
      == Some(Shown(b, scratch))
    decreases |b|
  {
    hide EncodeBlock, EmptyBlock, ReadBlock, Holds, WriteTable, ReadTableBlocks, Shown;
    WriteTableStep(f, b, at, scratch);
    ShownStep(b, scratch);
    if |b| > METADATA_SIZE {
      var head, tail := b[..METADATA_SIZE], b[METADATA_SIZE..];
      var block := EncodeBlock(f, head);
      var (rest, index) := WriteTable(f, tail, at + |block|, scratch);
      HoldsConcat(img, at, block, rest);
      BlockRoundTrip(f, img, at, head);
      TableBlocksReadBack(f, img, tail, at + |block|, scratch);
      ReadTableStep(f, img, at, index, head, at + |block|, Shown(tail, scratch));
    } else {
      NoTableBlocks(f, img);
      if b != [] {
        if |b| % METADATA_SIZE == 0 {
          EmptyBlockReadsScratch(f, img, at, scratch);
          ReadTableStep(f, img, at, [], scratch, at + f.BlockOffset() + EMPTY_STORED, []);
        } else {
          BlockRoundTrip(f, img, at, b);
          ReadTableStep(f, img, at, [], b, at + |EncodeBlock(f, b)|, []);
        }
        assert [at] + [] == [at];
      }
    }
  }

  // ---- the table as a whole ----

  /** The bytes write_fragment_table puts down from position `at` on, and the position of the index. */
  function TableBytes(f: Format, entries: seq<FragmentEntry>, at: nat, scratch: seq<byte>): (seq<byte>, nat)
    requires FitInts(WriteTable(f, EncodeEntries(f.order, entries), at, scratch).1)
  {
    var (blocks, index) := WriteTable(f, EncodeEntries(f.order, entries), at, scratch);
    (blocks + Ints(f.order, index), at + |blocks|)
  }

  /** read_fragment_table for `n` fragments. */
  function ReadBack(f: Format, img: seq<byte>, indexAt: nat, n: nat): Option<seq<FragmentEntry>> {
    var blocks := (FRAGMENT_ENTRY_BYTES * n + METADATA_SIZE - 1) / METADATA_SIZE;
    if indexAt + 4 * blocks > |img| then None
    else
      var b := ReadTableBlocks(f, img, ReadInts(f.order, img, indexAt, blocks));
      if b.None? || |b.value| < FRAGMENT_ENTRY_BYTES * n then None
      else Some(DecodeEntries(f.order, b.value, n))
  }

  lemma {:induction false} IndexLength(f: Format, b: seq<byte>, at: nat, scratch: seq<byte>)
    ensures |WriteTable(f, b, at, scratch).1| == (|b| + METADATA_SIZE - 1) / METADATA_SIZE
    decreases |b|
  {
    hide EncodeBlock, EmptyBlock;
    if |b| <= METADATA_SIZE {
    } else {
      var block := EncodeBlock(f, b[..METADATA_SIZE]);
      IndexLength(f, b[METADATA_SIZE..], at + |block|, scratch);
    }
  }

  /** What is read back from a written table, wherever it lies. */
  lemma WhatIsReadBack(f: Format, img: seq<byte>, at: nat, entries: seq<FragmentEntry>, scratch: seq<byte>)
    requires f.codec.Faithful() && |scratch| == EMPTY_STORED
    requires FitInts(WriteTable(f, EncodeEntries(f.order, entries), at, scratch).1)
    requires Holds(img, at, TableBytes(f, entries, at, scratch).0)
    ensures var stored := Shown(EncodeEntries(f.order, entries), scratch);
      && FRAGMENT_ENTRY_BYTES * |entries| <= |stored|
      && ReadBack(f, img, TableBytes(f, entries, at, scratch).1, |entries|) == Some(DecodeEntries(f.order, stored, |entries|))
  {
    hide EncodeEntries, WriteTable, ReadTableBlocks, Ints, ReadInts, DecodeEntries, Holds, FitInts;
    var b := EncodeEntries(f.order, entries);
    var (blocks, index) := WriteTable(f, b, at, scratch);
    HoldsConcat(img, at, blocks, Ints(f.order, index));
    HoldsBound(img, at + |blocks|, Ints(f.order, index));
    IndexLength(f, b, at, scratch);
    IntsRoundTrip(f.order, img, at + |blocks|, index);
    TableBlocksReadBack(f, img, b, at, scratch);
  }

  /** The table is read back correctly from every image that holds it at `at`. */
  ghost predicate ReadsBack(f: Format, at: nat, entries: seq<FragmentEntry>, scratch: seq<byte>)
    requires FitInts(WriteTable(f, EncodeEntries(f.order, entries), at, scratch).1)
  {
    var (bytes, indexAt) := TableBytes(f, entries, at, scratch);
    forall img :: Holds(img, at, bytes) ==> ReadBack(f, img, indexAt, |entries|) == Some(entries)
  }

  /** The positions in the index do not depend on the scratch buffer. */
  lemma {:induction false} IndexIgnoresScratch(f: Format, b: seq<byte>, at: nat, s: seq<byte>, t: seq<byte>)
    ensures WriteTable(f, b, at, s).1 == WriteTable(f, b, at, t).1
    decreases |b|
  {
    hide EncodeBlock, EmptyBlock;
    if |b| <= METADATA_SIZE {
    } else {
      IndexIgnoresScratch(f, b[METADATA_SIZE..], at + |EncodeBlock(f, b[..METADATA_SIZE])|, s, t);
    }
  }

  lemma PartlyFilledReadsBack(f: Format, at: nat, entries: seq<FragmentEntry>, s: seq<byte>)
    requires f.codec.Faithful() && Storable(entries) && |s| == EMPTY_STORED
    requires FitInts(WriteTable(f, EncodeEntries(f.order, entries), at, s).1)
    requires |entries| == 0 || |entries| % PER_BLOCK != 0
    ensures ReadsBack(f, at, entries, s)
  {
    hide WriteTable, EncodeEntries, DecodeEntries, FitInts, ReadBack, TableBytes, Holds;
    var b := EncodeEntries(f.order, entries);
    assert |b| == 0 || |b| % METADATA_SIZE != 0;
    EntriesRoundTrip(f.order, entries, b);
    forall img | Holds(img, at, TableBytes(f, entries, at, s).0)
      ensures ReadBack(f, img, TableBytes(f, entries, at, s).1, |entries|) == Some(entries)
    {
      WhatIsReadBack(f, img, at, entries, s);
    }
  }

  lemma TableCanLie(f: Format, at: nat, entries: seq<FragmentEntry>, s: seq<byte>) returns (img: seq<byte>)
    requires FitInts(WriteTable(f, EncodeEntries(f.order, entries), at, s).1)
    ensures Holds(img, at, TableBytes(f, entries, at, s).0)
  {
    hide WriteTable, EncodeEntries, FitInts, TableBytes;
    img := Zeros(at) + TableBytes(f, entries, at, s).0;
  }

  lemma ZerosAndOnesDiffer(o: Order)
    ensures ReadEntry(o, Zeros(FRAGMENT_ENTRY_BYTES)) != ReadEntry(o, seq(FRAGMENT_ENTRY_BYTES, _ => 1))
  {
    hide Get;
    LayoutsAreSound();
    var zeros, ones: seq<byte> := Zeros(FRAGMENT_ENTRY_BYTES), seq(FRAGMENT_ENTRY_BYTES, _ => 1);
    var fd := FRAGMENT_ENTRY_LAYOUT[0];
    var j := if o.LittleEndian? then 0 else 31;
    GetBits(o, zeros, fd, j);
    GetBits(o, ones, fd, j);
    ZeroHasNoBits(ByteBit(o, j % 8));
  }

  lemma {:induction false} DecodedAt(o: Order, b: seq<byte>, n: nat, k: nat)
    requires k < n && FRAGMENT_ENTRY_BYTES * n <= |b|
    ensures DecodeEntries(o, b, n)[k] == ReadEntry(o, b[FRAGMENT_ENTRY_BYTES * k..FRAGMENT_ENTRY_BYTES * (k + 1)])
  {
    hide ReadEntry;
    if k >= n - 1 {
    } else {
      DecodedAt(o, b, n - 1, k);
    }
  }

  /** Different bytes in an entry's place decode to different entries. */
  lemma ScratchShows(o: Order, front: seq<byte>, s: seq<byte>, t: seq<byte>, n: nat)
    requires |s| == EMPTY_STORED && |t| == EMPTY_STORED && s[..FRAGMENT_ENTRY_BYTES] == Zeros(FRAGMENT_ENTRY_BYTES)
    requires t[..FRAGMENT_ENTRY_BYTES] == seq(FRAGMENT_ENTRY_BYTES, _ => 1)
    requires n >= PER_BLOCK && |front| == FRAGMENT_ENTRY_BYTES * (n - PER_BLOCK)
    ensures DecodeEntries(o, front + s, n) != DecodeEntries(o, front + t, n)
  {
    hide DecodeEntries, ReadEntry;
    var k := n - PER_BLOCK;
    DecodedAt(o, front + s, n, k);
    DecodedAt(o, front + t, n, k);
    var at := FRAGMENT_ENTRY_BYTES * k;
    assert (front + s)[at..at + FRAGMENT_ENTRY_BYTES] == s[..FRAGMENT_ENTRY_BYTES];
    assert (front + t)[at..at + FRAGMENT_ENTRY_BYTES] == t[..FRAGMENT_ENTRY_BYTES];
    ZerosAndOnesDiffer(o);
  }

  /** Two scratch buffers that differ where the first entry of the last block should be cannot both read back. */
  lemma FullDependsOnScratch(f: Format, at: nat, entries: seq<FragmentEntry>, zeros: seq<byte>, ones: seq<byte>)
    requires f.codec.Faithful() && zeros == Zeros(EMPTY_STORED) && ones == seq(EMPTY_STORED, _ => 1)
    requires FitInts(WriteTable(f, EncodeEntries(f.order, entries), at, zeros).1)
    requires FitInts(WriteTable(f, EncodeEntries(f.order, entries), at, ones).1)
    requires |entries| != 0 && |entries| % PER_BLOCK == 0
    ensures !ReadsBack(f, at, entries, zeros) || !ReadsBack(f, at, entries, ones)
  {
    hide WriteTable, EncodeEntries, DecodeEntries, FitInts, ReadBack, TableBytes, Holds;
    var b := EncodeEntries(f.order, entries);
    assert |b| > 0 && |b| % METADATA_SIZE == 0;
    var z := TableCanLie(f, at, entries, zeros);
    var o := TableCanLie(f, at, entries, ones);
    WhatIsReadBack(f, z, at, entries, zeros);
    WhatIsReadBack(f, o, at, entries, ones);
    ScratchShows(f.order, b[..|b| - METADATA_SIZE], zeros, ones, |entries|);
  }

  /** The fragment table reads back, whatever was in the writer's scratch buffer, exactly when the number of
      fragments is not a positive multiple of 1024. */
  lemma TableReadsBackUnlessFull(f: Format, at: nat, entries: seq<FragmentEntry>)
    requires f.codec.Faithful() && Storable(entries)
    requires FitInts(WriteTable(f, EncodeEntries(f.order, entries), at, Zeros(EMPTY_STORED)).1)
    ensures forall s: seq<byte> :: FitInts(WriteTable(f, EncodeEntries(f.order, entries), at, s).1)
    ensures (forall s: seq<byte> :: |s| == EMPTY_STORED ==> ReadsBack(f, at, entries, s))
      <==> (|entries| == 0 || |entries| % 1024 != 0)
  {
    hide WriteTable, EncodeEntries, ReadsBack, FitInts;
    var b := EncodeEntries(f.order, entries);
    forall s: seq<byte>
      ensures FitInts(WriteTable(f, b, at, s).1)
    {
      IndexIgnoresScratch(f, b, at, s, Zeros(EMPTY_STORED));
    }
    if |entries| == 0 || |entries| % PER_BLOCK != 0 {
      forall s: seq<byte> | |s| == EMPTY_STORED
        ensures ReadsBack(f, at, entries, s)
      {
        PartlyFilledReadsBack(f, at, entries, s);
      }
    } else {
      FullDependsOnScratch(f, at, entries, Zeros(EMPTY_STORED), seq(EMPTY_STORED, _ => 1));
    }
  }

  /** Nothing is lost in the table: its last block is not a full one, or what the scratch buffer happens to hold
      decodes to the last 1024 entries. */
  predicate Survives(o: Order, entries: seq<FragmentEntry>, scratch: seq<byte>)
    requires |scratch| == EMPTY_STORED
  {
    var n := |entries|;
    n == 0 || n % PER_BLOCK != 0 || DecodeEntries(o, scratch, PER_BLOCK) == entries[n - PER_BLOCK..]
  }

  lemma SameEnd(entries: seq<FragmentEntry>, k: nat, end: seq<FragmentEntry>)
    requires k <= |entries|
    ensures entries[..k] + end == entries <==> end == entries[k..]
  {
    assert entries[..k] + entries[k..] == entries;
    assert (entries[..k] + end)[k..] == end;
  }

  lemma {:induction false} FirstEntries(o: Order, entries: seq<FragmentEntry>, k: nat)
    requires k <= |entries|
    ensures EncodeEntries(o, entries)[..FRAGMENT_ENTRY_BYTES * k] == EncodeEntries(o, entries[..k])
  {
    hide EntryBytes;
    if k == |entries| {
      assert entries[..k] == entries;
    } else {
      var n := |entries| - 1;
      FirstEntries(o, entries[..n], k);
      assert entries[..n][..k] == entries[..k];
    }
  }

  lemma {:induction false} DecodeIgnoresRest(o: Order, a: seq<byte>, b: seq<byte>, m: nat)
    requires |a| >= FRAGMENT_ENTRY_BYTES * m
    ensures DecodeEntries(o, a + b, m) == DecodeEntries(o, a, m)
  {
    hide ReadEntry;
    if m == 0 {
    } else {
      DecodeIgnoresRest(o, a, b, m - 1);
      var from := FRAGMENT_ENTRY_BYTES * (m - 1);
      assert (a + b)[from..from + FRAGMENT_ENTRY_BYTES] == a[from..from + FRAGMENT_ENTRY_BYTES];
    }
  }

  lemma {:induction false} DecodeConcat(o: Order, a: seq<byte>, b: seq<byte>, m: nat, n: nat)
    requires |a| == FRAGMENT_ENTRY_BYTES * m && |b| >= FRAGMENT_ENTRY_BYTES * n
    ensures DecodeEntries(o, a + b, m + n) == DecodeEntries(o, a, m) + DecodeEntries(o, b, n)
  {
    hide ReadEntry;
    if n == 0 {
      DecodeIgnoresRest(o, a, b, m);
    } else {
      DecodeConcat(o, a, b, m, n - 1);
      var from := FRAGMENT_ENTRY_BYTES * (n - 1);
      assert (a + b)[|a| + from..|a| + from + FRAGMENT_ENTRY_BYTES] == b[from..from + FRAGMENT_ENTRY_BYTES];
    }
  }

  /** In an image that holds the table it is read back exactly when nothing is lost in it. */
  lemma ReadsBackOrNot(f: Format, img: seq<byte>, at: nat, entries: seq<FragmentEntry>, scratch: seq<byte>)
    requires f.codec.Faithful() && Storable(entries) && |scratch| == EMPTY_STORED
    requires FitInts(WriteTable(f, EncodeEntries(f.order, entries), at, scratch).1)
    requires Holds(img, at, TableBytes(f, entries, at, scratch).0)
    ensures ReadBack(f, img, TableBytes(f, entries, at, scratch).1, |entries|) == Some(entries)
      <==> Survives(f.order, entries, scratch)
    ensures |entries| % 1024 != 0 ==> ReadBack(f, img, TableBytes(f, entries, at, scratch).1, |entries|) == Some(entries)
  {
    hide WriteTable, EncodeEntries, DecodeEntries, FitInts, ReadBack, TableBytes, Holds;
    var n := |entries|;
    var b := EncodeEntries(f.order, entries);
    WhatIsReadBack(f, img, at, entries, scratch);
    if n == 0 || n % PER_BLOCK != 0 {
      EntriesRoundTrip(f.order, entries, b);
      assert |b| == 0 || |b| % METADATA_SIZE != 0;
    } else {
      var k := n - PER_BLOCK;
      var front := b[..|b| - METADATA_SIZE];
      assert |b| > 0 && |b| % METADATA_SIZE == 0;
      FirstEntries(f.order, entries, k);
      EntriesRoundTrip(f.order, entries[..k], front);
      DecodeConcat(f.order, front, scratch, k, PER_BLOCK);
      SameEnd(entries, k, DecodeEntries(f.order, scratch, PER_BLOCK));
    }
  }

  /** For any one scratch buffer the table reads back exactly when nothing is lost in it. */
  lemma TableReadsBackIf(f: Format, at: nat, entries: seq<FragmentEntry>, scratch: seq<byte>)
    requires f.codec.Faithful() && Storable(entries) && |scratch| == EMPTY_STORED
    requires FitInts(WriteTable(f, EncodeEntries(f.order, entries), at, scratch).1)
    ensures ReadsBack(f, at, entries, scratch) <==> Survives(f.order, entries, scratch)
  {
    hide WriteTable, EncodeEntries, Survives, FitInts, ReadBack, TableBytes, Holds;
    forall img | Holds(img, at, TableBytes(f, entries, at, scratch).0)
      ensures ReadBack(f, img, TableBytes(f, entries, at, scratch).1, |entries|) == Some(entries)
        <==> Survives(f.order, entries, scratch)
    {
      ReadsBackOrNot(f, img, at, entries, scratch);
    }
    var img := TableCanLie(f, at, entries, scratch);
  }

  /** Where the table ends: behind an index of one word for each 8192 bytes of entries, of which each takes eight. */
  lemma EndOfTable(f: Format, entries: seq<FragmentEntry>, at: nat, scratch: seq<byte>)
    requires FitInts(WriteTable(f, EncodeEntries(f.order, entries), at, scratch).1)
    ensures
      var (bytes, indexAt) := TableBytes(f, entries, at, scratch);
      && at + |bytes| == indexAt + 4 * ((8 * |entries| + 8191) / 8192)
      && indexAt == at + |WriteTable(f, EncodeEntries(f.order, entries), at, scratch).0|
  {
    hide WriteTable, EncodeEntries, FitInts;
    IndexLength(f, EncodeEntries(f.order, entries), at, scratch);
  }

  // ---- the loops ----

  lemma EmptyTable(f: Format, at: nat, scratch: seq<byte>)
    ensures WriteTable(f, [], at, scratch) == ([], [])
  {
  }

  function Behind(a: seq<byte>, l: seq<nat>, rest: (seq<byte>, seq<nat>)): (seq<byte>, seq<nat>) {
    (a + rest.0, l + rest.1)
  }

  lemma TableOfOne(f: Format, b: seq<byte>, at: nat, scratch: seq<byte>)
    requires 0 < |b| <= METADATA_SIZE
    ensures var block := if |b| % METADATA_SIZE == 0 then EmptyBlock(f, scratch) else EncodeBlock(f, b);
      WriteTable(f, b, at, scratch) == Behind(block, [at], WriteTable(f, [], at + |block|, scratch))
  {
    var block := if |b| % METADATA_SIZE == 0 then EmptyBlock(f, scratch) else EncodeBlock(f, b);
    assert block + [] == block && [at] + [] == [at];
  }

  lemma TableOfMore(f: Format, b: seq<byte>, at: nat, scratch: seq<byte>)
    requires |b| > METADATA_SIZE
    ensures var block := EncodeBlock(f, b[..METADATA_SIZE]);
      WriteTable(f, b, at, scratch) == Behind(block, [at], WriteTable(f, b[METADATA_SIZE..], at + |block|, scratch))
  {
  }

  /** What is left of the table's bytes after i blocks. */
  function Remaining(b: seq<byte>, i: nat): seq<byte> {
    if i * METADATA_SIZE <= |b| then b[i * METADATA_SIZE..] else []
  }

  lemma RemainingEnds(b: seq<byte>, metaBlocks: nat)
    requires metaBlocks == (|b| + METADATA_SIZE - 1) / METADATA_SIZE
    ensures Remaining(b, 0) == b && Remaining(b, metaBlocks) == []
  {
  }

  lemma BlockLies(n: nat, i: nat, metaBlocks: nat)
    requires i < metaBlocks == (n + METADATA_SIZE - 1) / METADATA_SIZE
    ensures i * METADATA_SIZE + (if i == metaBlocks - 1 then n % METADATA_SIZE else METADATA_SIZE) <= n
  {
  }

  /** One round of the loop is one step of the table. */
  lemma TableStep(f: Format, b: seq<byte>, i: nat, metaBlocks: nat, avail: nat, block: seq<byte>, at: nat, scratch: seq<byte>)
    requires i < metaBlocks == (|b| + METADATA_SIZE - 1) / METADATA_SIZE
    requires avail == if i == metaBlocks - 1 then |b| % METADATA_SIZE else METADATA_SIZE
    requires i * METADATA_SIZE + avail <= |b|
    requires block == if avail == 0 then EmptyBlock(f, scratch) else EncodeBlock(f, b[i * METADATA_SIZE..i * METADATA_SIZE + avail])
    ensures WriteTable(f, Remaining(b, i), at, scratch)
      == Behind(block, [at], WriteTable(f, Remaining(b, i + 1), at + |block|, scratch))
  {
    hide EncodeBlock, EmptyBlock, WriteTable;
    var first := i * METADATA_SIZE;
    var rest := b[first..];
    if i == metaBlocks - 1 {
      assert 0 < |rest| <= METADATA_SIZE && |rest| % METADATA_SIZE == |b| % METADATA_SIZE;
      assert avail != 0 ==> b[first..first + avail] == rest;
      TableOfOne(f, rest, at, scratch);
      RemainingEnds(b, metaBlocks);
    } else {
      assert |rest| > METADATA_SIZE;
      assert rest[..METADATA_SIZE] == b[first..first + avail];
      assert rest[METADATA_SIZE..] == Remaining(b, i + 1);
      TableOfMore(f, rest, at, scratch);
    }
  }

  lemma BehindOne(a: seq<byte>, l: seq<nat>, block: seq<byte>, p: nat, rest: (seq<byte>, seq<nat>))
    ensures Behind(a, l, (block + rest.0, [p] + rest.1)) == Behind(a + block, l + [p], rest)
  {
    assert a + (block + rest.0) == (a + block) + rest.0;
    assert l + ([p] + rest.1) == (l + [p]) + rest.1;
  }

  /** write_fragment_table's first loop: the entries in the byte order of the image. */
  method WriteEntries(o: Order, entries: seq<FragmentEntry>) returns (b: seq<byte>)
    ensures b == EncodeEntries(o, entries)
  {
    hide EntryBytes;
    b := [];
    for i := 0 to |entries|
      invariant b == EncodeEntries(o, entries[..i])
    {
      assert entries[..i + 1][..i] == entries[..i];
      b := b + EntryBytes(o, entries[i]);
    }
    assert entries[..|entries|] == entries;
  }

  /** Its second: the blocks, each behind the other, and where they start. */
  method WriteBlocks(f: Format, b: seq<byte>, at: nat, scratch: seq<byte>) returns (out: seq<byte>, list: seq<nat>)
    ensures (out, list) == WriteTable(f, b, at, scratch)
  {
    hide EncodeBlock, EmptyBlock, WriteTable, Remaining;
    var metaBlocks := (|b| + METADATA_SIZE - 1) / METADATA_SIZE;
    out, list := [], [];
    ghost var whole := WriteTable(f, b, at, scratch);
    RemainingEnds(b, metaBlocks);
    assert [] + whole.0 == whole.0 && [] + whole.1 == whole.1;
    var i := 0;
    while i < metaBlocks
      invariant i <= metaBlocks
      invariant whole == Behind(out, list, WriteTable(f, Remaining(b, i), at + |out|, scratch))
    {
      BlockLies(|b|, i, metaBlocks);
      var first := i * METADATA_SIZE;
      var avail := if i == metaBlocks - 1 then |b| % METADATA_SIZE else METADATA_SIZE;
      var block := if avail == 0 then EmptyBlock(f, scratch) else EncodeBlock(f, b[first..first + avail]);
      TableStep(f, b, i, metaBlocks, avail, block, at + |out|, scratch);
      BehindOne(out, list, block, at + |out|, WriteTable(f, Remaining(b, i + 1), at + |out + block|, scratch));
      list := list + [at + |out|];
      out := out + block;
      i := i + 1;
    }
    EmptyTable(f, at + |out|, scratch);
    assert out + [] == out && list + [] == list;
  }

  /** write_fragment_table */
  method WriteFragmentTable(f: Format, entries: seq<FragmentEntry>, at: nat, scratch: seq<byte>)
    returns (out: seq<byte>, start: nat)
    requires FitInts(WriteTable(f, EncodeEntries(f.order, entries), at, scratch).1)
    ensures (out, start) == TableBytes(f, entries, at, scratch)
  {
    hide Ints, FitInts, WriteTable, EncodeEntries;
    var b := WriteEntries(f.order, entries);
    var list;
    out, list := WriteBlocks(f, b, at, scratch);
    start := at + |out|;
    out := out + Ints(f.order, list);
  }

  /** read_fragment_table */
  method ReadFragmentTable(f: Format, img: seq<byte>, indexAt: nat, n: nat) returns (ok: bool, entries: seq<FragmentEntry>)
    ensures ok == ReadBack(f, img, indexAt, n).Some?
    ensures ok ==> entries == ReadBack(f, img, indexAt, n).value
  {
    hide ReadBlock, ReadInts, ReadEntry;
    entries := [];
    var indexes := (FRAGMENT_ENTRY_BYTES * n + METADATA_SIZE - 1) / METADATA_SIZE;
    if indexAt + 4 * indexes > |img| {
      return false, entries;
    }
    var index := ReadInts(f.order, img, indexAt, indexes);
    var table: seq<byte> := [];
    assert index[0..] == index;
    FollowsNothing(ReadTableBlocks(f, img, index));
    for i := 0 to indexes
      invariant ReadTableBlocks(f, img, index) == Followed(table, ReadTableBlocks(f, img, index[i..]))
    {
      var block := ReadBlock(f, img, index[i]);
      assert index[i..][1..] == index[i + 1..];
      if block.None? {
        return false, entries;
      }
      FollowedTwice(table, block.value.0, ReadTableBlocks(f, img, index[i + 1..]));
      table := table + block.value.0;
    }
    assert index[indexes..] == [] && table + [] == table;
    if |table| < FRAGMENT_ENTRY_BYTES * n {
      return false, entries;
    }
    for i := 0 to n
      invariant entries == DecodeEntries(f.order, table, i)
    {
      entries := entries + [ReadEntry(f.order, table[FRAGMENT_ENTRY_BYTES * i..FRAGMENT_ENTRY_BYTES * (i + 1)])];
    }
    ok := true;
  }
}
