/** How much room an image takes: sizes of inodes, listings and tables, and when the tables end below 2^32. */
module Room {
  import opened Wrappers

  import opened Bits
  import opened BitFields
  import opened DataStore
  import opened Directories
  import opened FragmentTable
  import opened Inodes
  import opened MetadataBlocks
  import opened MetadataStream

  /** Bytes of the inode stream and of the directory stream; where the data ends, with what is still in memory. */
  datatype Sizes = Sizes(inodes: nat, listings: nat, data: nat) {
    function Plus(more: Sizes): Sizes {
      Sizes(inodes + more.inodes, listings + more.listings, data + more.data)
    }

    predicate AtMost(limit: Sizes) {
      inodes <= limit.inodes && listings <= limit.listings && data <= limit.data
    }
  }

  // ---- inodes and listings ----

  function InodeBytes(i: Inode): nat {
    i.HeaderBytes() + match i
      case File(_, _, _, _, _, _, blocks) => 4 * |blocks|
      case Symlink(_, target) => |target|
      case _ => 0
  }

  lemma EncodedInodeLength(o: Order, i: Inode)
    requires i.Storable()
    ensures |Encode(o, i)| <= InodeBytes(i)
  {
    hide Pack, FitInts, InRange;
    LayoutsAreSound();
  }

  /** The most blocks that a file of this size has. */
  function MostBlocks(size: nat, blockLog: nat): nat {
    Shr(ReadSize(size) + Pow2(blockLog) - 1, blockLog)
  }

  lemma SplitHasNoMore(size: nat, noFragments: bool, alwaysFragments: bool, blockLog: nat)
    ensures WriterSplit(size, noFragments, alwaysFragments, blockLog).0 <= MostBlocks(size, blockLog)
  {
    hide Shr, Low, Pow2;
    RoundUp(ReadSize(size), blockLog);
  }

  function ListingLimit(entries: seq<Entry>): nat {
    if entries == [] then 0
    else
      var n := |entries| - 1;
      ListingLimit(entries[..n]) + DIR_HEADER_BYTES + DIR_ENTRY_BYTES + |entries[n].Stored().name|
  }

  lemma {:induction false} EntriesAreLimited(o: Order, entries: seq<Entry>)
    requires AllStorable(entries)
    ensures |EntriesBytes(o, entries)| + DIR_HEADER_BYTES * |entries| == ListingLimit(entries)
  {
    hide Directories.EntryBytes, Entry.Storable, Entry.Stored;
    if entries == [] {
    } else {
      EntriesAreLimited(o, entries[..|entries| - 1]);
    }
  }

  lemma {:induction false} LimitOfConcat(a: seq<Entry>, b: seq<Entry>)
    ensures ListingLimit(a + b) == ListingLimit(a) + ListingLimit(b)
  {
    hide Entry.Stored;
    if b == [] {
      assert a + b == a;
    } else {
      var n := |b| - 1;
      assert (a + b)[..|a + b| - 1] == a + b[..n];
      LimitOfConcat(a, b[..n]);
    }
  }

  lemma RunIsLimited(o: Order, run: seq<Entry>)
    requires IsRun(run)
    ensures |RunBytes(o, run)| <= ListingLimit(run)
  {
    hide HeaderBytes, EntriesBytes, ListingLimit;
    EntriesAreLimited(o, run);
  }

  /** A listing has at most one header for each entry. */
  lemma {:induction false} RunsAreLimited(o: Order, runs: seq<seq<Entry>>)
    requires AllRuns(runs)
    ensures |RunsBytes(o, runs)| <= ListingLimit(Flatten(runs))
  {
    hide RunBytes, ListingLimit, IsRun;
    if runs == [] {
    } else {
      var n := |runs| - 1;
      RunsAreLimited(o, runs[..n]);
      RunIsLimited(o, runs[n]);
      LimitOfConcat(Flatten(runs[..n]), runs[n]);
    }
  }

  // ---- tables ----

  /** At most three bytes in front of each block. */
  function Framed(n: nat): nat {
    n + 3 * ((n + METADATA_SIZE - 1) / METADATA_SIZE)
  }

  lemma FramedGrows(m: nat, n: nat)
    requires m <= n
    ensures Framed(m) <= Framed(n)
  {
  }

  lemma BlockIsFramed(f: Format, data: seq<byte>)
    requires f.codec.Faithful() && 0 < |data| <= METADATA_SIZE
    ensures |EncodeBlock(f, data)| <= |data| + 3
  {
    MangleRoundTrip(f.codec, data, f.uncompressed, COMPRESSED_BIT, METADATA_SIZE);
  }

  lemma FramedStep(n: nat)
    ensures n > METADATA_SIZE ==> Framed(n) == METADATA_SIZE + 3 + Framed(n - METADATA_SIZE)
    ensures 0 < n <= METADATA_SIZE ==> Framed(n) == n + 3
  {
  }

  lemma {:induction false} StreamIsFramed(f: Format, s: seq<byte>)
    requires f.codec.Faithful()
    ensures |EncodeStream(f, s)| <= Framed(|s|)
    decreases |s|
  {
    hide EncodeBlock, EncodeStream, Framed;
    StreamParts(f, s);
    FramedStep(|s|);
    if s == [] {
    } else if |s| > METADATA_SIZE {
      BlockIsFramed(f, s[..METADATA_SIZE]);
      StreamIsFramed(f, s[METADATA_SIZE..]);
    } else {
      BlockIsFramed(f, s);
    }
  }

  lemma {:induction false} TableIsFramed(f: Format, b: seq<byte>, at: nat, scratch: seq<byte>)
    requires f.codec.Faithful() && |scratch| == EMPTY_STORED
    ensures |WriteTable(f, b, at, scratch).0| <= Framed(|b|) + EMPTY_STORED
    decreases |b|
  {
    hide EncodeBlock, WriteTable, Framed;
    WriteTableStep(f, b, at, scratch);
    FramedStep(|b|);
    if b == [] {
    } else if |b| > METADATA_SIZE {
      BlockIsFramed(f, b[..METADATA_SIZE]);
      TableIsFramed(f, b[METADATA_SIZE..], at + |EncodeBlock(f, b[..METADATA_SIZE])|, scratch);
    } else if |b| % METADATA_SIZE != 0 {
      BlockIsFramed(f, b);
    }
  }

  // ---- the closing writes ----

  /** Where the blocks of the fragment table end, if the tables are written from position `bytes` on. */
  function TablesEnd(f: Format, plainFragments: bool, bytes: nat, inodes: seq<byte>, listings: seq<byte>,
                     entries: seq<FragmentEntry>, scratch: seq<byte>): nat {
    var at := bytes + |EncodeStream(f, inodes)| + |EncodeStream(f, listings)|;
    at + |WriteTable(f.(uncompressed := plainFragments), EncodeEntries(f.order, entries), at, scratch).0|
  }

  /** All positions fit 32 bits. */
  predicate TablesFit(f: Format, plainFragments: bool, bytes: nat, inodes: seq<byte>, listings: seq<byte>,
                      entries: seq<FragmentEntry>, scratch: seq<byte>) {
    TablesEnd(f, plainFragments, bytes, inodes, listings, entries, scratch) <= MAX_INT
  }

  /** There is room for the tables of this much, whatever the contents. */
  predicate Roomy(s: Sizes, fragments: nat) {
    s.data + Framed(s.inodes) + Framed(s.listings) + Framed(FRAGMENT_ENTRY_BYTES * fragments) + EMPTY_STORED <= MAX_INT
  }

  /** A block of the table never starts further behind than the whole table is long. */
  lemma NumberIsWithin(f: Format, s: seq<byte>, p: nat)
    requires f.codec.Faithful() && p <= |s|
    ensures NumberOf(f, s, p) / 0x1_0000 <= Framed(|s|)
  {
    hide EncodeStream, Framed, NumberOf;
    NumberParts(f, s, p);
    StreamIsFramed(f, s[..BlockStart(p)]);
    FramedGrows(BlockStart(p), |s|);
  }

  lemma LessIsRoomy(s: Sizes, limit: Sizes, fragments: nat)
    requires s.AtMost(limit) && Roomy(limit, fragments)
    ensures Roomy(s, fragments)
  {
    hide Framed;
    FramedGrows(s.inodes, limit.inodes);
    FramedGrows(s.listings, limit.listings);
  }

  lemma RoomyFits(f: Format, plainFragments: bool, bytes: nat, inodes: seq<byte>, listings: seq<byte>,
                  entries: seq<FragmentEntry>, scratch: seq<byte>, s: Sizes, fragments: nat)
    requires f.codec.Faithful() && |scratch| == EMPTY_STORED
    requires Sizes(|inodes|, |listings|, bytes).AtMost(s) && |entries| <= fragments && Roomy(s, fragments)
    ensures TablesFit(f, plainFragments, bytes, inodes, listings, entries, scratch)
  {
    hide EncodeStream, WriteTable, EncodeEntries, Framed;
    StreamIsFramed(f, inodes);
    StreamIsFramed(f, listings);
    var at := bytes + |EncodeStream(f, inodes)| + |EncodeStream(f, listings)|;
    TableIsFramed(f.(uncompressed := plainFragments), EncodeEntries(f.order, entries), at, scratch);
    FramedGrows(|inodes|, s.inodes);
    FramedGrows(|listings|, s.listings);
    FramedGrows(FRAGMENT_ENTRY_BYTES * |entries|, FRAGMENT_ENTRY_BYTES * fragments);
  }
}
