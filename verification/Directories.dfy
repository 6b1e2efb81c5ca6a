/** Directories on disk: add_dir and the closing part of write_dir, which group entries under run
    headers in a growing buffer, and the parser of squashfs_readdir. */
module Directories {
  import opened Wrappers

  import opened Bits
  import opened BitFields
  import opened MetadataBlocks
  import opened Inodes
  import opened MetadataStream

  const NAME_LEN: nat := 256
  const RUN_LEN: nat := 256

  datatype Entry = Entry(name: seq<byte>, inode: nat, kind: nat) {
    function StartBlock(): nat {
      inode / 0x1_0000
    }

    function Offset(): nat {
      inode % 0x1_0000
    }

    /** The name as stored: names of up to 256 bytes are kept whole, longer names are cut. */
    function Stored(): (r: Entry)
      ensures |name| <= 256 ==> r == this
      ensures |name| > 256 ==> r == Entry(name[..256], inode, kind)
    {
      if |name| > NAME_LEN then this.(name := name[..NAME_LEN]) else this
    }

    /** The name is not empty and the fields of the entry and of its run header can hold the rest. */
    predicate Storable() {
      |name| >= 1 && Fits(StartBlock(), 24) && Fits(Offset(), 13) && Fits(kind, 3)
    }
  }

  // ---- bytes ----

  function HeaderBytes(o: Order, count: nat, startBlock: nat): (b: seq<byte>)
    ensures |b| == DIR_HEADER_BYTES
  {
    LayoutsAreSound();
    Pack(o, DIR_HEADER_BYTES, DIR_HEADER_LAYOUT, [count, startBlock])
  }

  function EntryBytes(o: Order, e: Entry): (b: seq<byte>)
    requires e.Storable()
    ensures |b| == DIR_ENTRY_BYTES + |e.Stored().name|
  {
    LayoutsAreSound();
    Pack(o, DIR_ENTRY_BYTES, DIR_ENTRY_LAYOUT, [e.Offset(), e.kind, |e.Stored().name| - 1]) + e.Stored().name
  }

  predicate AllStorable(entries: seq<Entry>) {
    forall k :: 0 <= k < |entries| ==> entries[k].Storable()
  }

  function EntriesBytes(o: Order, entries: seq<Entry>): seq<byte>
    requires AllStorable(entries)
  {
    if entries == [] then []
    else EntriesBytes(o, entries[..|entries| - 1]) + EntryBytes(o, entries[|entries| - 1])
  }

  /** Entries that may share a header. */
  predicate IsRun(run: seq<Entry>) {
    && 1 <= |run| <= RUN_LEN && AllStorable(run)
    && forall k :: 0 <= k < |run| ==> run[k].StartBlock() == run[0].StartBlock()
  }

  function RunBytes(o: Order, run: seq<Entry>): seq<byte>
    requires IsRun(run)
  {
    HeaderBytes(o, |run| - 1, run[0].StartBlock()) + EntriesBytes(o, run)
  }

  predicate AllRuns(runs: seq<seq<Entry>>) {
    forall k :: 0 <= k < |runs| ==> IsRun(runs[k])
  }

  function RunsBytes(o: Order, runs: seq<seq<Entry>>): seq<byte>
    requires AllRuns(runs)
  {
    if runs == [] then []
    else RunsBytes(o, runs[..|runs| - 1]) + RunBytes(o, runs[|runs| - 1])
  }

  function Flatten(runs: seq<seq<Entry>>): seq<Entry> {
    if runs == [] then [] else Flatten(runs[..|runs| - 1]) + runs[|runs| - 1]
  }

  function StoredEntries(entries: seq<Entry>): (s: seq<Entry>)
    ensures |s| == |entries|
    ensures (forall k :: 0 <= k < |entries| ==> |entries[k].name| <= 256) ==> s == entries
  {
    seq(|entries|, k requires 0 <= k < |entries| => entries[k].Stored())
  }

  // ---- the parser ----

  /** One entry at `at` under a header with this start block, and the position behind it. */
  function ParseEntry(o: Order, table: seq<byte>, at: nat, startBlock: nat): (r: Option<(Entry, nat)>)
    ensures r.Some? ==> at < r.value.1 <= |table|
  {
    if at + DIR_ENTRY_BYTES > |table| then None
    else
      LayoutsAreSound();
      var head := table[at..at + DIR_ENTRY_BYTES];
      var size := Get(o, head, DIR_ENTRY_LAYOUT[2]);
      var first := at + DIR_ENTRY_BYTES;
      if first + size + 1 > |table| then None
      else Some((Entry(table[first..first + size + 1],
                       startBlock * 0x1_0000 + Get(o, head, DIR_ENTRY_LAYOUT[0]),
                       Get(o, head, DIR_ENTRY_LAYOUT[1])),
                 first + size + 1))
  }

  /** The inner loop: `n` entries. */
  function ParseEntries(o: Order, table: seq<byte>, at: nat, n: nat, startBlock: nat): (r: Option<(seq<Entry>, nat)>)
    requires at <= |table|
    ensures r.Some? ==> at <= r.value.1 <= |table|
    ensures r.Some? && n > 0 ==> at < r.value.1
    decreases n
  {
    if n == 0 then Some(([], at))
    else
      var first := ParseEntry(o, table, at, startBlock);
      if first.None? then None
      else
        var rest := ParseEntries(o, table, first.value.1, n - 1, startBlock);
        if rest.None? then None else Some(([first.value.0] + rest.value.0, rest.value.1))
  }

  /** The outer loop of squashfs_readdir: runs until `size`. */
  function ParseRuns(o: Order, table: seq<byte>, at: nat, size: nat): Option<seq<Entry>>
    requires at <= |table|
    decreases size - at
  {
    if at >= size then Some([])
    else if at + DIR_HEADER_BYTES > |table| then None
    else
      LayoutsAreSound();
      var head := table[at..at + DIR_HEADER_BYTES];
      var run := ParseEntries(o, table, at + DIR_HEADER_BYTES, Get(o, head, DIR_HEADER_LAYOUT[0]) + 1,
                              Get(o, head, DIR_HEADER_LAYOUT[1]));
      if run.None? then None
      else
        var rest := ParseRuns(o, table, run.value.1, size);
        if rest.None? then None else Some(run.value.0 + rest.value)
  }

  // ---- the parser inverts the printer ----

  lemma HeaderRoundTrip(o: Order, count: nat, startBlock: nat)
    requires Fits(count, 8) && Fits(startBlock, 24)
    ensures DIR_HEADER_LAYOUT[0].Within(DIR_HEADER_BYTES) && DIR_HEADER_LAYOUT[1].Within(DIR_HEADER_BYTES)
    ensures Get(o, HeaderBytes(o, count, startBlock), DIR_HEADER_LAYOUT[0]) == count
    ensures Get(o, HeaderBytes(o, count, startBlock), DIR_HEADER_LAYOUT[1]) == startBlock
  {
    hide Get, Pack, Fits;
    LayoutsAreSound();
    var values := [count, startBlock];
    assert InRange(DIR_HEADER_LAYOUT, values);
    PackRoundTrip(o, DIR_HEADER_BYTES, DIR_HEADER_LAYOUT, values, 0);
    PackRoundTrip(o, DIR_HEADER_BYTES, DIR_HEADER_LAYOUT, values, 1);
  }

  lemma EntryHeadRoundTrip(o: Order, offset: nat, kind: nat, size: nat)
    requires Fits(offset, 13) && Fits(kind, 3) && Fits(size, 8)
    ensures IsLayout(DIR_ENTRY_LAYOUT, DIR_ENTRY_BYTES)
    ensures var head := Pack(o, DIR_ENTRY_BYTES, DIR_ENTRY_LAYOUT, [offset, kind, size]);
      Get(o, head, DIR_ENTRY_LAYOUT[0]) == offset && Get(o, head, DIR_ENTRY_LAYOUT[1]) == kind
      && Get(o, head, DIR_ENTRY_LAYOUT[2]) == size
  {
    hide Get, Pack, Fits;
    LayoutsAreSound();
    var values := [offset, kind, size];
    assert InRange(DIR_ENTRY_LAYOUT, values);
    PackRoundTrip(o, DIR_ENTRY_BYTES, DIR_ENTRY_LAYOUT, values, 0);
    PackRoundTrip(o, DIR_ENTRY_BYTES, DIR_ENTRY_LAYOUT, values, 1);
    PackRoundTrip(o, DIR_ENTRY_BYTES, DIR_ENTRY_LAYOUT, values, 2);
  }

  lemma NameFits(name: seq<byte>)
    requires 1 <= |name| <= NAME_LEN
    ensures Fits(|name| - 1, 8)
  {
    FitsByte(|name| - 1);
  }

  lemma EntryRoundTrip(o: Order, table: seq<byte>, at: nat, e: Entry)
    requires e.Storable() && Holds(table, at, EntryBytes(o, e))
    ensures ParseEntry(o, table, at, e.StartBlock()) == Some((e.Stored(), at + |EntryBytes(o, e)|))
    ensures |e.name| <= 256 ==> ParseEntry(o, table, at, e.inode / 0x1_0000) == Some((e, at + 3 + |e.name|))
    ensures |e.name| > 256 ==>
      ParseEntry(o, table, at, e.inode / 0x1_0000) == Some((Entry(e.name[..256], e.inode, e.kind), at + 259))
  {
    hide Get, Pack, Holds, Fits;
    var name := e.Stored().name;
    var head := Pack(o, DIR_ENTRY_BYTES, DIR_ENTRY_LAYOUT, [e.Offset(), e.kind, |name| - 1]);
    NameFits(name);
    EntryHeadRoundTrip(o, e.Offset(), e.kind, |name| - 1);
    HoldsConcat(table, at, head, name);
    HoldsSlice(table, at, head);
    HoldsSlice(table, at + DIR_ENTRY_BYTES, name);
  }

  lemma {:induction false} EntriesFromFront(o: Order, entries: seq<Entry>)
    requires AllStorable(entries) && entries != []
    ensures EntriesBytes(o, entries) == EntryBytes(o, entries[0]) + EntriesBytes(o, entries[1..])
  {
    hide EntryBytes, Entry.Storable;
    var n := |entries| - 1;
    if n == 0 {
    } else {
      EntriesFromFront(o, entries[..n]);
      assert entries[1..][..n - 1] == entries[..n][1..];
      Associates(EntryBytes(o, entries[0]), EntriesBytes(o, entries[..n][1..]), EntryBytes(o, entries[n]));
    }
  }

  lemma NoEntries(o: Order)
    ensures EntriesBytes(o, []) == []
  {
  }

  lemma {:induction false} EntriesRoundTrip(o: Order, table: seq<byte>, at: nat, entries: seq<Entry>, startBlock: nat)
    requires AllStorable(entries) && Holds(table, at, EntriesBytes(o, entries))
    requires forall k :: 0 <= k < |entries| ==> entries[k].StartBlock() == startBlock
    ensures at <= |table|
    ensures ParseEntries(o, table, at, |entries|, startBlock)
      == Some((StoredEntries(entries), at + |EntriesBytes(o, entries)|))
    decreases |entries|
  {
    hide ParseEntry, EntryBytes, Holds, EntriesBytes, Entry.Storable, Entry.Stored, Entry.StartBlock;
    HoldsBound(table, at, EntriesBytes(o, entries));
    if entries == [] {
      NoEntries(o);
    } else {
      var first, rest := entries[0], entries[1..];
      EntriesFromFront(o, entries);
      HoldsConcat(table, at, EntryBytes(o, first), EntriesBytes(o, rest));
      EntryRoundTrip(o, table, at, first);
      EntriesRoundTrip(o, table, at + |EntryBytes(o, first)|, rest, startBlock);
      assert StoredEntries(entries) == [first.Stored()] + StoredEntries(rest);
    }
  }

  lemma {:induction false} RunsFromFront(o: Order, runs: seq<seq<Entry>>)
    requires AllRuns(runs) && runs != []
    ensures RunsBytes(o, runs) == RunBytes(o, runs[0]) + RunsBytes(o, runs[1..])
    ensures Flatten(runs) == runs[0] + Flatten(runs[1..])
  {
    hide RunBytes, IsRun;
    var n := |runs| - 1;
    if n == 0 {
      assert runs[..0] == [] && runs[1..] == [];
    } else {
      RunsFromFront(o, runs[..n]);
      assert runs[1..][..n - 1] == runs[..n][1..];
      Associates(RunBytes(o, runs[0]), RunsBytes(o, runs[..n][1..]), RunBytes(o, runs[n]));
      Associates(runs[0], Flatten(runs[..n][1..]), runs[n]);
    }
  }

  lemma FitsLength(n: nat)
    requires n < RUN_LEN
    ensures Fits(n, 8)
  {
    FitsByte(n);
  }

  lemma RunStep(o: Order, table: seq<byte>, at: nat, size: nat, run: seq<Entry>, stored: seq<Entry>, rest: seq<Entry>, next: nat)
    requires IsRun(run) && Holds(table, at, RunBytes(o, run)) && next == at + |RunBytes(o, run)| <= |table| && at < size
    requires stored == StoredEntries(run)
    requires ParseRuns(o, table, next, size) == Some(rest)
    ensures at <= |table| && ParseRuns(o, table, at, size) == Some(stored + rest)
  {
    hide Get, ParseEntries, Holds, HeaderBytes, EntriesBytes, Fits;
    var header, body := HeaderBytes(o, |run| - 1, run[0].StartBlock()), EntriesBytes(o, run);
    FitsLength(|run| - 1);
    HoldsConcat(table, at, header, body);
    HoldsBound(table, at, header);
    HoldsSlice(table, at, header);
    HeaderRoundTrip(o, |run| - 1, run[0].StartBlock());
    EntriesRoundTrip(o, table, at + DIR_HEADER_BYTES, run, run[0].StartBlock());
  }

  lemma RunNonEmpty(o: Order, run: seq<Entry>)
    requires IsRun(run)
    ensures |RunBytes(o, run)| >= DIR_HEADER_BYTES
  {
  }

  lemma NoRuns(o: Order, table: seq<byte>, at: nat)
    requires at <= |table|
    ensures RunsBytes(o, []) == [] && Flatten([]) == []
    ensures ParseRuns(o, table, at, at) == Some([])
  {
  }

  /** Print and parse are inverse: a reader that starts at the first header recovers name, inode number
      and type of every entry, in order. */
  lemma {:induction false} RunsRoundTrip(o: Order, table: seq<byte>, at: nat, runs: seq<seq<Entry>>)
    requires AllRuns(runs) && Holds(table, at, RunsBytes(o, runs))
    ensures at <= |table|
    ensures ParseRuns(o, table, at, at + |RunsBytes(o, runs)|) == Some(StoredEntries(Flatten(runs)))
    decreases |runs|
  {
    hide ParseRuns, RunsBytes, RunBytes, Holds, IsRun, Flatten, Entry.Stored;
    HoldsBound(table, at, RunsBytes(o, runs));
    if runs == [] {
      NoRuns(o, table, at);
    } else {
      var first, rest := RunBytes(o, runs[0]), RunsBytes(o, runs[1..]);
      var a, b := runs[0], Flatten(runs[1..]);
      RunsFromFront(o, runs);
      RunNonEmpty(o, runs[0]);
      HoldsConcat(table, at, first, rest);
      RunsRoundTrip(o, table, at + |first|, runs[1..]);
      RunStep(o, table, at, at + |first + rest|, a, StoredEntries(a), StoredEntries(b), at + |first|);
      assert StoredEntries(a + b) == StoredEntries(a) + StoredEntries(b);
    }
  }

  // ---- the printer ----

  /** Where add_dir puts an entry: into the open run, or into a new one when that is full or belongs to
      another block of inodes. */
  function AddToRuns(runs: seq<seq<Entry>>, e: Entry): (r: seq<seq<Entry>>)
    requires AllRuns(runs)
  {
    var last := |runs| - 1;
    if runs == [] || |runs[last]| == RUN_LEN || runs[last][0].StartBlock() != e.StartBlock()
    then runs + [[e]]
    else runs[..last] + [runs[last] + [e]]
  }

  predicate Parts(run: seq<Entry>, next: seq<Entry>) {
    run != [] && next != [] && run[0].inode / 0x1_0000 != next[0].inode / 0x1_0000
  }

  /** A new header is written only behind 256 entries, or where the block of the inodes changes. */
  predicate Grouped(runs: seq<seq<Entry>>) {
    && (forall k :: 0 <= k < |runs| ==> 1 <= |runs[k]| <= 256)
    && (forall k :: 0 < k < |runs| && |runs[k - 1]| < 256 ==> Parts(runs[k - 1], runs[k]))
  }

  lemma AddToRunsAdds(runs: seq<seq<Entry>>, e: Entry)
    requires AllRuns(runs) && e.Storable()
    ensures AllRuns(AddToRuns(runs, e))
    ensures Flatten(AddToRuns(runs, e)) == Flatten(runs) + [e]
  {
    var r, last := AddToRuns(runs, e), |runs| - 1;
    if |r| > |runs| {
      assert r[..|runs|] == runs;
    } else {
      assert r[..last] == runs[..last];
      assert Flatten(runs[..last]) + (runs[last] + [e]) == (Flatten(runs[..last]) + runs[last]) + [e];
    }
  }

  lemma AddToRunsGroups(runs: seq<seq<Entry>>, e: Entry)
    requires AllRuns(runs) && Grouped(runs)
    ensures Grouped(AddToRuns(runs, e))
  {
    hide Entry.Storable;
  }

  lemma EntryLength(o: Order, e: Entry)
    requires e.Storable()
    ensures |EntryBytes(o, e)| == DIR_ENTRY_BYTES + |e.Stored().name| && |e.Stored().name| <= NAME_LEN
  {
  }

  lemma OneEntry(o: Order, e: Entry)
    requires e.Storable()
    ensures IsRun([e]) && EntriesBytes(o, [e]) == EntryBytes(o, e)
  {
    hide EntryBytes, Entry.Storable;
    assert [e][..0] == [];
    assert [] + EntryBytes(o, e) == EntryBytes(o, e);
  }

  lemma AloneInRun(e: Entry)
    requires e.Storable()
    ensures AllRuns([[e]])
  {
  }

  lemma NothingHeld(o: Order, buff: seq<byte>)
    ensures RunsBytes(o, []) == [] && Holds(buff, 0, [])
  {
  }

  lemma AddedRunIsRun(run: seq<Entry>, e: Entry)
    requires IsRun(run) && e.Storable() && |run| < RUN_LEN && run[0].StartBlock() == e.StartBlock()
    ensures IsRun(run + [e])
  {
  }

  /** struct directory */
  class DirectoryBuffer {
    const o: Order
    var buff: seq<byte>           // buff, of the allocated size
    var p: nat                    // p - buff
    var entryCount: nat
    var header: Option<nat>       // entry_count_p - buff
    var startBlock: nat
    ghost var runs: seq<seq<Entry>>

    /** Everything but the open header is in place. */
    ghost predicate Valid()
      reads this
    {
      && p < |buff| && AllRuns(runs)
      && (runs == [] ==> header == None && p == 0 && entryCount == RUN_LEN)
      && (runs != [] ==>
            var front, open := runs[..|runs| - 1], runs[|runs| - 1];
            && header == Some(|RunsBytes(o, front)|)
            && entryCount == |open| && startBlock == open[0].StartBlock()
            && Holds(buff, 0, RunsBytes(o, front))
            && Holds(buff, header.value + DIR_HEADER_BYTES, EntriesBytes(o, open))
            && p == header.value + DIR_HEADER_BYTES + |EntriesBytes(o, open)|)
    }

    /** init_dir */
    constructor (o: Order)
      ensures Valid() && runs == [] && this.o == o
    {
      this.o := o;
      buff, p, entryCount, header, startBlock := Zeros(METADATA_SIZE), 0, RUN_LEN, None, 0;
      runs := [];
    }

    /** Fill in the open run's header. */
    method CloseRun()
      requires Valid() && runs != []
      modifies this`buff
      ensures |buff| == old(|buff|)
      ensures Holds(buff, 0, RunsBytes(o, runs)) && p == |RunsBytes(o, runs)|
    {
      hide HeaderBytes, EntriesBytes, Holds, Entry.Storable;
      var at := header.value;
      ghost var front, open := runs[..|runs| - 1], runs[|runs| - 1];
      assert IsRun(open);
      var bytes := HeaderBytes(o, entryCount - 1, startBlock);
      WriteHolds(buff, at, bytes);
      WriteKeeps(buff, at, bytes, 0, RunsBytes(o, front));
      WriteKeeps(buff, at, bytes, at + DIR_HEADER_BYTES, EntriesBytes(o, open));
      buff := Write(buff, at, bytes);
      HoldsConcat(buff, at, bytes, EntriesBytes(o, open));
      HoldsConcat(buff, 0, RunsBytes(o, front), RunBytes(o, open));
    }

    /** The entry itself, behind what is there. */
    method PutEntry(e: Entry)
      requires e.Storable() && p + |EntryBytes(o, e)| < |buff|
      modifies this`buff, this`p, this`entryCount
      ensures buff == Write(old(buff), old(p), EntryBytes(o, e))
      ensures p == old(p) + |EntryBytes(o, e)| && entryCount == old(entryCount) + 1
    {
      var bytes := EntryBytes(o, e);
      buff := Write(buff, p, bytes);
      p := p + |bytes|;
      entryCount := entryCount + 1;
    }

    method AddToOpenRun(e: Entry)
      requires Valid() && e.Storable() && p + |EntryBytes(o, e)| < |buff|
      requires runs != [] && entryCount < RUN_LEN && startBlock == e.StartBlock()
      modifies this`buff, this`p, this`entryCount, this`runs
      ensures Valid() && runs == AddToRuns(old(runs), e)
    {
      hide EntryBytes, Holds, Entry.Storable, Entry.StartBlock, RunBytes;
      ghost var front, open := runs[..|runs| - 1], runs[|runs| - 1];
      ghost var body, bytes := EntriesBytes(o, open), EntryBytes(o, e);
      ghost var at := header.value + DIR_HEADER_BYTES;
      WriteHolds(buff, p, bytes);
      WriteKeeps(buff, p, bytes, 0, RunsBytes(o, front));
      WriteKeeps(buff, p, bytes, at, body);
      PutEntry(e);
      runs := front + [open + [e]];
      assert runs[..|runs| - 1] == front && (open + [e])[..|open|] == open;
      HoldsConcat(buff, at, body, bytes);
      assert EntriesBytes(o, open + [e]) == body + bytes;
      AddedRunIsRun(open, e);
    }

    method AddInNewRun(e: Entry)
      requires e.Storable() && p + DIR_HEADER_BYTES + |EntryBytes(o, e)| < |buff|
      requires AllRuns(runs) && Holds(buff, 0, RunsBytes(o, runs)) && p == |RunsBytes(o, runs)|
      modifies this
      ensures Valid() && runs == old(runs) + [[e]]
    {
      hide EntryBytes, EntriesBytes, RunsBytes, Holds, Entry.Storable, Entry.StartBlock, RunBytes;
      header := Some(p);
      startBlock, entryCount := e.StartBlock(), 0;
      p := p + DIR_HEADER_BYTES;
      ghost var bytes := EntryBytes(o, e);
      WriteHolds(buff, p, bytes);
      WriteKeeps(buff, p, bytes, 0, RunsBytes(o, runs));
      PutEntry(e);
      ghost var front := runs;
      runs := runs + [[e]];
      assert runs[..|runs| - 1] == front;
      OneEntry(o, e);
      AloneInRun(e);
    }

    /** add_dir: the buffer grows before it can overflow. */
    method Add(e: Entry)
      requires Valid() && e.Storable()
      modifies this
      ensures Valid() && runs == AddToRuns(old(runs), e)
    {
      hide EntryBytes, EntriesBytes, RunsBytes, Holds, Entry.Storable, Entry.StartBlock;
      var size := |e.Stored().name|;
      EntryLength(o, e);
      if p + DIR_ENTRY_BYTES + size + 6 >= |buff| {
        ghost var more := Zeros(METADATA_SIZE);
        if runs != [] {
          ExtendKeeps(buff, more, 0, RunsBytes(o, runs[..|runs| - 1]));
          ExtendKeeps(buff, more, header.value + DIR_HEADER_BYTES, EntriesBytes(o, runs[|runs| - 1]));
        }
        buff := buff + Zeros(METADATA_SIZE);
      }
      if entryCount == RUN_LEN || e.StartBlock() != startBlock {
        if header.Some? {
          CloseRun();
        } else {
          NothingHeld(o, buff);
        }
        AddInNewRun(e);
      } else {
        AddToOpenRun(e);
      }
    }

    /** The part of write_dir that completes the buffer and hands out its bytes. */
    method Finish() returns (bytes: seq<byte>)
      requires Valid()
      modifies this`buff
      ensures bytes == RunsBytes(o, runs)
    {
      if p > 0 {
        CloseRun();
        HoldsSlice(buff, 0, RunsBytes(o, runs));
      }
      bytes := buff[..p];
    }
  }

  lemma NothingGrouped()
    ensures Grouped([])
  {
  }

  /** add_dir for a whole list of entries, and write_dir: the parser applied to the finished bytes, wherever
      they come to lie in a table, returns exactly the entries that went in. */
  method BuildDirectory(o: Order, entries: seq<Entry>) returns (bytes: seq<byte>, ghost runs: seq<seq<Entry>>)
    requires AllStorable(entries)
    ensures AllRuns(runs) && Grouped(runs) && Flatten(runs) == entries && bytes == RunsBytes(o, runs)
    ensures forall table, at: nat :: Holds(table, at, bytes) ==>
      at <= |table| && ParseRuns(o, table, at, at + |bytes|) == Some(StoredEntries(entries))
    ensures (forall k :: 0 <= k < |entries| ==> |entries[k].name| <= 256) ==> StoredEntries(entries) == entries
  {
    hide RunsBytes, ParseRuns, IsRun, Entry.Storable, Entry.Stored, AddToRuns, Holds, Grouped;
    NothingGrouped();
    var dir := new DirectoryBuffer(o);
    for k := 0 to |entries|
      invariant dir.Valid() && dir.o == o && fresh(dir)
      invariant Grouped(dir.runs) && Flatten(dir.runs) == entries[..k]
    {
      AddToRunsAdds(dir.runs, entries[k]);
      AddToRunsGroups(dir.runs, entries[k]);
      dir.Add(entries[k]);
      assert entries[..k + 1] == entries[..k] + [entries[k]];
    }
    assert entries[..|entries|] == entries;
    bytes := dir.Finish();
    runs := dir.runs;
    forall table, at: nat | Holds(table, at, bytes)
      ensures at <= |table| && ParseRuns(o, table, at, at + |bytes|) == Some(StoredEntries(entries))
    {
      RunsRoundTrip(o, table, at, runs);
    }
  }

  // ---- a directory whose size is cut ----

  /** The most that one run takes. */
  const RUN_BYTES: nat := DIR_HEADER_BYTES + RUN_LEN * (DIR_ENTRY_BYTES + NAME_LEN)

  lemma {:induction false} EntriesSize(o: Order, entries: seq<Entry>)
    requires AllStorable(entries)
    ensures |EntriesBytes(o, entries)| <= |entries| * (DIR_ENTRY_BYTES + NAME_LEN)
  {
    hide EntryBytes, Entry.Storable;
    if entries == [] {
    } else {
      var n := |entries| - 1;
      EntriesSize(o, entries[..n]);
      EntryLength(o, entries[n]);
    }
  }

  lemma RunSize(o: Order, run: seq<Entry>)
    requires IsRun(run)
    ensures |RunBytes(o, run)| <= RUN_BYTES
  {
    hide EntriesBytes, HeaderBytes, Entry.Storable;
    EntriesSize(o, run);
  }

  /** What is parsed in part of a table is parsed in the whole. */
  lemma EntryExtends(o: Order, table: seq<byte>, whole: seq<byte>, at: nat, startBlock: nat)
    requires table <= whole && ParseEntry(o, table, at, startBlock).Some?
    ensures ParseEntry(o, whole, at, startBlock) == ParseEntry(o, table, at, startBlock)
  {
    hide Get;
    LayoutsAreSound();
    var first := at + DIR_ENTRY_BYTES;
    assert whole[at..first] == table[at..first];
    var size := Get(o, table[at..first], DIR_ENTRY_LAYOUT[2]);
    assert whole[first..first + size + 1] == table[first..first + size + 1];
  }

  lemma {:induction false} EntriesExtend(o: Order, table: seq<byte>, whole: seq<byte>, at: nat, n: nat, startBlock: nat)
    requires table <= whole && at <= |table| && ParseEntries(o, table, at, n, startBlock).Some?
    ensures ParseEntries(o, whole, at, n, startBlock) == ParseEntries(o, table, at, n, startBlock)
    decreases n
  {
    hide ParseEntry;
    if n == 0 {
    } else {
      EntryExtends(o, table, whole, at, startBlock);
      EntriesExtend(o, table, whole, ParseEntry(o, table, at, startBlock).value.1, n - 1, startBlock);
    }
  }

  lemma RunHasStartBlock(run: seq<Entry>)
    requires IsRun(run)
    ensures run[0].Storable() && Fits(run[0].StartBlock(), 24)
  {
    hide Fits;
  }

  /** The first run of a listing, if the table read so far has all of it. */
  lemma FirstRun(o: Order, table: seq<byte>, whole: seq<byte>, at: nat, limit: nat, run: seq<Entry>, parsed: seq<Entry>,
                 next: nat)
    returns (rest: seq<Entry>)
    requires table <= whole && at < limit && at <= |table| && ParseRuns(o, table, at, limit) == Some(parsed)
    requires IsRun(run) && Holds(whole, at, RunBytes(o, run)) && next == at + |RunBytes(o, run)|
    ensures next <= |table| && ParseRuns(o, table, next, limit) == Some(rest)
    ensures |parsed| == |run| + |rest|
  {
    hide Get, ParseEntries, Holds, HeaderBytes, EntriesBytes, Fits, Entry.Storable, Entry.Stored;
    var header, body := HeaderBytes(o, |run| - 1, run[0].StartBlock()), EntriesBytes(o, run);
    FitsLength(|run| - 1);
    HoldsConcat(whole, at, header, body);
    HoldsSlice(whole, at, header);
    RunHasStartBlock(run);
    HeaderRoundTrip(o, |run| - 1, run[0].StartBlock());
    assert table[at..at + DIR_HEADER_BYTES] == whole[at..at + DIR_HEADER_BYTES];
    EntriesExtend(o, table, whole, at + DIR_HEADER_BYTES, |run|, run[0].StartBlock());
    EntriesRoundTrip(o, whole, at + DIR_HEADER_BYTES, run, run[0].StartBlock());
    rest := ParseRuns(o, table, next, limit).value;
  }

  lemma NothingParsed(o: Order, table: seq<byte>, at: nat, limit: nat)
    requires at <= |table| && at >= limit
    ensures ParseRuns(o, table, at, limit) == Some([])
  {
  }

  /** A parser that is told to stop a whole run early misses entries, wherever the table it has ends. */
  lemma {:induction false} CutListing(o: Order, table: seq<byte>, whole: seq<byte>, at: nat, limit: nat, runs: seq<seq<Entry>>)
    requires table <= whole && AllRuns(runs) && runs != [] && at <= |table| && Holds(whole, at, RunsBytes(o, runs))
    requires limit + RUN_BYTES <= at + |RunsBytes(o, runs)|
    ensures ParseRuns(o, table, at, limit).Some? ==> |ParseRuns(o, table, at, limit).value| < |Flatten(runs)|
    decreases |runs|
  {
    hide ParseRuns, RunsBytes, RunBytes, Holds, Flatten, Entry.Storable;
    RunsFromFront(o, runs);
    var first, rest := RunBytes(o, runs[0]), RunsBytes(o, runs[1..]);
    RunSize(o, runs[0]);
    if at >= limit {
      NothingParsed(o, table, at, limit);
    } else if ParseRuns(o, table, at, limit).Some? {
      HoldsConcat(whole, at, first, rest);
      var more := FirstRun(o, table, whole, at, limit, runs[0], ParseRuns(o, table, at, limit).value, at + |first|);
      if runs[1..] == [] {
        NoRuns(o, table, at);
        assert false;
      } else {
        CutListing(o, table, whole, at + |first|, limit, runs[1..]);
      }
    }
  }

  // ---- reading a directory from the image ----

  /** squashfs_readdir as a whole: read the blocks that hold the directory, then parse it. */
  function Readdir(f: Format, img: seq<byte>, start: nat, offset: nat, size: nat): Option<seq<Entry>> {
    var table := ReadUntil(f, img, start, offset + size);
    if table.None? then None else ParseRuns(f.order, table.value, offset, offset + size)
  }

  lemma BlockIsBehind(p: nat)
    ensures BlockStart(p) <= p
  {
  }

  lemma ReaddirIs(f: Format, img: seq<byte>, at: nat, offset: nat, size: nat)
    requires ReadUntil(f, img, at, offset + size).Some? && offset <= |ReadUntil(f, img, at, offset + size).value|
    ensures Readdir(f, img, at, offset, size)
      == ParseRuns(f.order, ReadUntil(f, img, at, offset + size).value, offset, offset + size)
  {
  }

  lemma HoldsInPrefix(s: seq<byte>, b: nat, p: nat, part: seq<byte>, table: seq<byte>)
    requires b <= p && Holds(s, p, part) && table <= s[b..] && |table| >= p - b + |part|
    ensures Holds(table, p - b, part)
  {
    forall i | 0 <= i < |part|
      ensures table[p - b + i] == part[i]
    {
      assert s[b..][p - b + i] == s[p + i];
    }
  }

  /** Directories read back: whatever the directory stream holds before and behind, and however the
      directory is cut into blocks, reading it by the block and offset its inode records gives the
      entries that were added. */
  lemma DirectoryReadsBack(f: Format, img: seq<byte>, start: nat, s: seq<byte>, p: nat, runs: seq<seq<Entry>>)
    requires f.codec.Faithful() && Holds(img, start, EncodeStream(f, s))
    requires AllRuns(runs) && Holds(s, p, RunsBytes(f.order, runs)) && p <= |s|
    ensures var number := NumberOf(f, s, p);
      Readdir(f, img, start + number / 0x1_0000, number % 0x1_0000, |RunsBytes(f.order, runs)|)
      == Some(StoredEntries(Flatten(runs)))
  {
    hide RunsBytes, ParseRuns, IsRun, EncodeStream, ReadUntil, NumberOf, StoredEntries, Flatten, Readdir, BlockStart,
      Holds;
    var b := BlockStart(p);
    var bytes := RunsBytes(f.order, runs);
    BlockIsBehind(p);
    NumberPointsAt(f, img, start, s, p);
    HoldsBound(s, p, bytes);
    var at := start + NumberOf(f, s, p) / 0x1_0000;
    ReadUntilPrefix(f, img, at, s[b..], p - b + |bytes|);
    var table := ReadUntil(f, img, at, p - b + |bytes|).value;
    HoldsInPrefix(s, b, p, bytes, table);
    RunsRoundTrip(f.order, table, p - b, runs);
    ReaddirIs(f, img, at, p - b, |bytes|);
  }

  /** With a size that is short by a whole run, a directory reads back with entries missing, if at all. */
  lemma CutDirectoryFails(f: Format, img: seq<byte>, start: nat, s: seq<byte>, p: nat, runs: seq<seq<Entry>>, size: nat)
    requires f.codec.Faithful() && Holds(img, start, EncodeStream(f, s)) && AllRuns(runs) && p <= |s|
    requires Holds(s, p, RunsBytes(f.order, runs)) && size + RUN_BYTES <= |RunsBytes(f.order, runs)|
    ensures var number := NumberOf(f, s, p);
      var read := Readdir(f, img, start + number / 0x1_0000, number % 0x1_0000, size);
      read.Some? ==> |read.value| < |Flatten(runs)|
  {
    hide RunsBytes, ParseRuns, IsRun, EncodeStream, ReadUntil, NumberOf, Flatten, Readdir, BlockStart, Holds;
    var b, bytes := BlockStart(p), RunsBytes(f.order, runs);
    BlockIsBehind(p);
    NumberPointsAt(f, img, start, s, p);
    HoldsBound(s, p, bytes);
    var at := start + NumberOf(f, s, p) / 0x1_0000;
    ReadUntilPrefix(f, img, at, s[b..], p - b + size);
    var table := ReadUntil(f, img, at, p - b + size).value;
    HoldsInPrefix(s, b, p, bytes, s[b..]);
    if runs == [] {
      NoRuns(f.order, [], 0);
    }
    CutListing(f.order, table, s[b..], p - b, p - b + size, runs);
    ReaddirIs(f, img, at, p - b, size);
  }

  function PushedThen(a: seq<Entry>, b: Option<(seq<Entry>, nat)>): Option<(seq<Entry>, nat)> {
    if b.None? then None else Some((a + b.value.0, b.value.1))
  }

  lemma Join2None(b: Option<(seq<Entry>, nat)>)
    ensures PushedThen([], b) == b
  {
    if b.Some? {
      assert [] + b.value.0 == b.value.0;
    }
  }

  lemma Join2One(a: seq<Entry>, x: Entry, b: Option<(seq<Entry>, nat)>)
    ensures PushedThen(a, PushedThen([x], b)) == PushedThen(a + [x], b)
  {
    if b.Some? {
      assert a + ([x] + b.value.0) == (a + [x]) + b.value.0;
    }
  }

  /** The inner loop of squashfs_readdir: the entries under one header. */
  method PushRun(o: Order, table: seq<byte>, at: nat, count: nat, startBlock: nat)
    returns (ok: bool, pushed: seq<Entry>, bytes: nat)
    requires at <= |table|
    ensures ok == ParseEntries(o, table, at, count, startBlock).Some?
    ensures ok ==> ParseEntries(o, table, at, count, startBlock) == Some((pushed, bytes))
  {
    hide ParseEntry;
    var dirCount := count;
    pushed, bytes := [], at;
    Join2None(ParseEntries(o, table, at, count, startBlock));
    while dirCount > 0
      invariant bytes <= |table|
      invariant ParseEntries(o, table, at, count, startBlock)
        == PushedThen(pushed, ParseEntries(o, table, bytes, dirCount, startBlock))
    {
      var e := ParseEntry(o, table, bytes, startBlock);
      if e.None? {
        return false, pushed, bytes;
      }
      Join2One(pushed, e.value.0, ParseEntries(o, table, e.value.1, dirCount - 1, startBlock));
      pushed := pushed + [e.value.0];
      bytes := e.value.1;
      dirCount := dirCount - 1;
    }
    assert pushed + [] == pushed;
    ok := true;
  }

  function After(a: seq<Entry>, b: Option<seq<Entry>>): Option<seq<Entry>> {
    if b.None? then None else Some(a + b.value)
  }

  lemma NoneBefore(b: Option<seq<Entry>>)
    ensures After([], b) == b
  {
    if b.Some? {
      assert [] + b.value == b.value;
    }
  }

  lemma AfterRun(a: seq<Entry>, run: seq<Entry>, b: Option<seq<Entry>>)
    ensures After(a, After(run, b)) == After(a + run, b)
  {
    if b.Some? {
      assert a + (run + b.value) == (a + run) + b.value;
    }
  }

  /** The outer loop of squashfs_readdir. */
  method PushEntries(o: Order, table: seq<byte>, offset: nat, size: nat) returns (ok: bool, pushed: seq<Entry>)
    requires offset <= |table|
    ensures ok == ParseRuns(o, table, offset, size).Some?
    ensures ok ==> pushed == ParseRuns(o, table, offset, size).value
  {
    hide ParseEntries, Get;
    var bytes := offset;
    pushed := [];
    NoneBefore(ParseRuns(o, table, offset, size));
    while bytes < size
      invariant bytes <= |table|
      invariant ParseRuns(o, table, offset, size) == After(pushed, ParseRuns(o, table, bytes, size))
      decreases size - bytes
    {
      if bytes + DIR_HEADER_BYTES > |table| {
        return false, pushed;
      }
      LayoutsAreSound();
      var head := table[bytes..bytes + DIR_HEADER_BYTES];
      var more, run, next := PushRun(o, table, bytes + DIR_HEADER_BYTES,
                                     Get(o, head, DIR_HEADER_LAYOUT[0]) + 1, Get(o, head, DIR_HEADER_LAYOUT[1]));
      if !more {
        return false, pushed;
      }
      AfterRun(pushed, run, ParseRuns(o, table, next, size));
      pushed := pushed + run;
      bytes := next;
    }
    assert pushed + [] == pushed;
    ok := true;
  }
}
