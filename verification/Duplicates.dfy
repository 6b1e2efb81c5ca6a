/** Which block list a file is served: what write_file makes of a file, and what the duplicate index says about it over a
    whole run. */
module Duplicates {
  import opened Wrappers

  import opened Bits
  import opened BitFields
  import opened DataStore
  import opened FileBlocks
  import opened Inodes
  import opened MetadataBlocks

  // ---- what is kept of a file ----

  /** The size words of its blocks, the bytes stored for them, and its tail. */
  datatype Kept = Kept(words: seq<nat>, stored: seq<byte>, tail: seq<byte>)

  /** How files are stored: the library and the options of the run. */
  datatype Way = Way(codec: Codec, blockLog: nat, plain: bool, noFragments: bool, alwaysFragments: bool) {
    predicate Usable() {
      Pow2(blockLog) <= 0x1_0000
    }

    function Keep(content: seq<byte>): Kept
      requires Usable()
    {
      var (data, tail) := PartsOf(content, noFragments, alwaysFragments, blockLog);
      var (words, stored) := StoreBlocks(codec, plain, Pow2(blockLog), data);
      Kept(words, stored, tail)
    }

    function KeepAll(contents: seq<seq<byte>>): (history: seq<Kept>)
      requires Usable()
      ensures |history| == |contents|
    {
      seq(|contents|, k requires 0 <= k < |contents| => Keep(contents[k]))
    }
  }

  predicate Same(k: Kept, stored: seq<byte>, tail: seq<byte>) {
    k.stored == stored && k.tail == tail
  }

  // ---- the list that is served ----

  /** The list of the first file with these stored bytes and this tail. */
  function Served(history: seq<Kept>, stored: seq<byte>, tail: seq<byte>): Option<seq<nat>> {
    if history == [] then None
    else
      var n := |history| - 1;
      var earlier := Served(history[..n], stored, tail);
      if earlier.Some? then earlier
      else if Same(history[n], stored, tail) then Some(history[n].words) else None
  }

  lemma {:induction false} ServedWas(history: seq<Kept>, stored: seq<byte>, tail: seq<byte>) returns (k: nat)
    requires Served(history, stored, tail).Some?
    ensures k < |history| && Same(history[k], stored, tail) && Served(history, stored, tail) == Some(history[k].words)
  {
    var n := |history| - 1;
    if Served(history[..n], stored, tail).Some? {
      k := ServedWas(history[..n], stored, tail);
    } else {
      k := n;
    }
  }

  lemma {:induction false} ServedIs(history: seq<Kept>, k: nat)
    requires k < |history|
    ensures Served(history, history[k].stored, history[k].tail).Some?
  {
    var n := |history| - 1;
    if k == n {
    } else {
      ServedIs(history[..n], k);
    }
  }

  lemma ServedNext(history: seq<Kept>, e: Kept, stored: seq<byte>, tail: seq<byte>)
    ensures Served(history + [e], stored, tail)
      == if Served(history, stored, tail).Some? then Served(history, stored, tail)
         else if Same(e, stored, tail) then Some(e.words) else None
  {
    assert (history + [e])[..|history|] == history;
  }

  /** Later files do not change it. */
  lemma {:induction false} ServedStays(history: seq<Kept>, more: seq<Kept>, stored: seq<byte>, tail: seq<byte>)
    requires Served(history, stored, tail).Some?
    ensures Served(history + more, stored, tail) == Served(history, stored, tail)
  {
    if more == [] {
      assert history + more == history;
    } else {
      var n := |more| - 1;
      ServedStays(history, more[..n], stored, tail);
      ServedNext(history + more[..n], more[n], stored, tail);
      assert history + more[..n] + [more[n]] == history + more;
    }
  }

  /** The files from `from` on are served their own lists. */
  predicate OwnServed(history: seq<Kept>, from: nat) {
    forall k :: from <= k < |history| ==> Served(history, history[k].stored, history[k].tail) == Some(history[k].words)
  }

  /** The lists they are served are long enough. */
  predicate EnoughServed(history: seq<Kept>, from: nat) {
    forall k :: from <= k < |history| ==>
      var list := Served(history, history[k].stored, history[k].tail);
      list.Some? && |history[k].words| <= |list.value|
  }

  /** Any two files with the same stored bytes and the same tail have the same list. */
  predicate Agree(history: seq<Kept>) {
    forall j, k :: 0 <= j < |history| && 0 <= k < |history| && Same(history[j], history[k].stored, history[k].tail) ==>
      history[j].words == history[k].words
  }

  lemma OwnIsEnough(history: seq<Kept>, from: nat)
    requires OwnServed(history, from)
    ensures EnoughServed(history, from)
  {
  }

  lemma OwnMeansAgree(history: seq<Kept>)
    ensures OwnServed(history, 0) <==> Agree(history)
  {
    hide Served;
    if Agree(history) {
      forall k | 0 <= k < |history|
        ensures Served(history, history[k].stored, history[k].tail) == Some(history[k].words)
      {
        ServedIs(history, k);
        var j := ServedWas(history, history[k].stored, history[k].tail);
      }
    }
  }

  // ---- the index ----

  /** The duplicate index has a record for every file of the history, and it is the first with its bytes and tail. */
  ghost predicate Indexes(files: seq<Recorded>, history: seq<Kept>) {
    && (forall k :: 0 <= k < |files| ==> Served(history, files[k].stored, files[k].tail) == Some(files[k].info.blockList))
    && (forall k :: 0 <= k < |history| ==> Recurs(files, history[k].stored, history[k].tail))
  }

  /** What recording a file does to the index. */
  ghost predicate Entered(was: seq<Recorded>, files: seq<Recorded>, e: Kept) {
    if Recurs(was, e.stored, e.tail) then files == was
    else exists r: Recorded :: files == was + [r] && r.stored == e.stored && r.tail == e.tail && r.info.blockList == e.words
  }

  lemma NothingIndexed()
    ensures Indexes([], [])
  {
  }

  lemma NotServedBefore(files: seq<Recorded>, history: seq<Kept>, stored: seq<byte>, tail: seq<byte>)
    requires Indexes(files, history) && !Recurs(files, stored, tail)
    ensures Served(history, stored, tail).None?
  {
    hide Served;
    if Served(history, stored, tail).Some? {
      var k := ServedWas(history, stored, tail);
    }
  }

  lemma IndexesNext(was: seq<Recorded>, files: seq<Recorded>, history: seq<Kept>, e: Kept)
    requires Indexes(was, history) && Entered(was, files, e)
    ensures Indexes(files, history + [e])
  {
    hide Served;
    var later := history + [e];
    if !Recurs(was, e.stored, e.tail) {
      NotServedBefore(was, history, e.stored, e.tail);
      var r: Recorded :| files == was + [r] && r.stored == e.stored && r.tail == e.tail && r.info.blockList == e.words;
      assert files[|was|] == r;
    }
    forall k | 0 <= k < |files|
      ensures Served(later, files[k].stored, files[k].tail) == Some(files[k].info.blockList)
    {
      ServedNext(history, e, files[k].stored, files[k].tail);
      assert k < |was| ==> files[k] == was[k];
    }
    forall k | 0 <= k < |later|
      ensures Recurs(files, later[k].stored, later[k].tail)
    {
      if k < |history| {
        assert Recurs(was, history[k].stored, history[k].tail);
        var j :| 0 <= j < |was| && was[j].stored == history[k].stored && was[j].tail == history[k].tail;
        assert files[j] == was[j];
      }
    }
  }

  /** The list that duplicate hands out, or the file's own, is the one of the first such file. */
  lemma HandedIsServed(was: seq<Recorded>, files: seq<Recorded>, history: seq<Kept>, e: Kept, list: seq<nat>)
    requires Indexes(was, history) && Entered(was, files, e)
    requires if Recurs(was, e.stored, e.tail)
             then exists k :: 0 <= k < |was| && was[k].stored == e.stored && was[k].tail == e.tail && was[k].info.blockList == list
             else list == e.words
    ensures Served(history + [e], e.stored, e.tail) == Some(list)
  {
    hide Served;
    ServedNext(history, e, e.stored, e.tail);
    if !Recurs(was, e.stored, e.tail) {
      NotServedBefore(was, history, e.stored, e.tail);
    }
  }
}
