/** Writing files in order of priority: three tables of linked lists grown at the head (sort list, priority buckets,
    inodes written), and what a pass over the buckets and a lookup amount to. */
module SortFiles {
  import opened Wrappers

  const LISTS: nat := 65536
  const LOWEST: int := -32768

  /** An entry of the sort list (value: its priority) or of the list of files written (value: the inode). */
  datatype Record = Record(dev: nat, ino: nat, value: int) {
    predicate Is(dev: nat, ino: nat) {
      this.dev == dev && this.ino == ino
    }
  }

  /** A file waiting to be written. */
  datatype File = File(filename: string, size: nat, dev: nat, ino: nat)

  /** The same with its place in the order of arrival and its priority, neither of which the list itself keeps. */
  datatype Queued = Queued(arrival: nat, priority: int, file: File)

  function HashOf(r: Record): int {
    r.ino % LISTS
  }

  function BucketOf(q: Queued): int {
    q.priority - LOWEST
  }

  /** The list for one key: what was added under it, last first. */
  function Chain<T>(s: seq<T>, key: T -> int, k: int): seq<T> {
    if s == [] then []
    else
      var n := |s| - 1;
      (if key(s[n]) == k then [s[n]] else []) + Chain(s[..n], key, k)
  }

  lemma ChainGrows<T>(s: seq<T>, key: T -> int, x: T, k: int)
    ensures Chain(s + [x], key, k) == (if key(x) == k then [x] else []) + Chain(s, key, k)
  {
    assert (s + [x])[..|s|] == s;
  }

  // ---- lookup ----

  /** What a plain map from (device, inode) would hold: the value added last. */
  function Latest(s: seq<Record>, dev: nat, ino: nat): Option<int> {
    if s == [] then None
    else if s[|s| - 1].Is(dev, ino) then Some(s[|s| - 1].value)
    else Latest(s[..|s| - 1], dev, ino)
  }

  /** None of these records is for this file. */
  predicate NoneFor(s: seq<Record>, dev: nat, ino: nat) {
    forall k :: 0 <= k < |s| ==> s[k].dev != dev || s[k].ino != ino
  }

  /** Record k is for this file, and none behind it is. */
  predicate LastFor(s: seq<Record>, k: nat, dev: nat, ino: nat)
    requires k < |s|
  {
    s[k].dev == dev && s[k].ino == ino && NoneFor(s[k + 1..], dev, ino)
  }

  /** The value is that of the last record with both numbers, and there is none if no record has both. */
  lemma {:induction false} LatestIsLast(s: seq<Record>, dev: nat, ino: nat)
    ensures Latest(s, dev, ino).None? <==> NoneFor(s, dev, ino)
    ensures forall k :: 0 <= k < |s| && LastFor(s, k, dev, ino) ==> Latest(s, dev, ino) == Some(s[k].value)
  {
    if s == [] {
    } else {
      var n := |s| - 1;
      LatestIsLast(s[..n], dev, ino);
      forall k | 0 <= k < |s| && LastFor(s, k, dev, ino)
        ensures Latest(s, dev, ino) == Some(s[k].value)
      {
        if k < n {
          assert s[k + 1..][n - k - 1] == s[n];
          assert s[..n][k + 1..] == s[k + 1..][..n - k - 1];
          assert LastFor(s[..n], k, dev, ino);
        }
      }
      if s[n].dev != dev || s[n].ino != ino {
        assert NoneFor(s, dev, ino) <==> NoneFor(s[..n], dev, ino);
      }
    }
  }

  function FirstIn(chain: seq<Record>, dev: nat, ino: nat): Option<int> {
    if chain == [] then None
    else if chain[0].Is(dev, ino) then Some(chain[0].value)
    else FirstIn(chain[1..], dev, ino)
  }

  /** The first match on the file's own list is the one added last of all. */
  lemma {:induction false} ChainFindsLatest(s: seq<Record>, dev: nat, ino: nat)
    ensures FirstIn(Chain(s, HashOf, ino % LISTS), dev, ino) == Latest(s, dev, ino)
    decreases |s|
  {
    if s == [] {
    } else {
      var n := |s| - 1;
      ChainFindsLatest(s[..n], dev, ino);
      var rest := Chain(s[..n], HashOf, ino % LISTS);
      assert ([s[n]] + rest)[1..] == rest && [] + rest == rest;
      assert s[n].Is(dev, ino) ==> HashOf(s[n]) == ino % LISTS;
    }
  }

  /** The search loop of get_priority and get_sorted_inode. */
  method Search(chain: seq<Record>, dev: nat, ino: nat) returns (r: Option<int>)
    ensures r == FirstIn(chain, dev, ino)
  {
    var k := 0;
    while k < |chain| && !chain[k].Is(dev, ino)
      invariant k <= |chain| && FirstIn(chain, dev, ino) == FirstIn(chain[k..], dev, ino)
    {
      assert chain[k..][1..] == chain[k + 1..];
      k := k + 1;
    }
    r := if k < |chain| then Some(chain[k].value) else None;
  }

  // ---- the order of writing ----

  /** The buckets below n, one after the other. */
  function Passed(s: seq<Queued>, n: nat): seq<Queued> {
    if n == 0 then [] else Passed(s, n - 1) + Chain(s, BucketOf, n - 1)
  }

  function Files(s: seq<Queued>): (r: seq<File>)
    ensures |r| == |s|
  {
    seq(|s|, i requires 0 <= i < |s| => s[i].file)
  }

  predicate Goes(x: Queued, y: Queued) {
    x.priority < y.priority || (x.priority == y.priority && x.arrival > y.arrival)
  }

  /** Files are queued with increasing numbers and priorities that have a bucket. */
  ghost predicate Numbered(s: seq<Queued>) {
    forall i :: 0 <= i < |s| ==> s[i].arrival == i && 0 <= BucketOf(s[i]) < LISTS
  }

  lemma {:induction false} ChainMember(s: seq<Queued>, k: int, i: nat)
    requires Numbered(s) && i < |Chain(s, BucketOf, k)|
    ensures var x := Chain(s, BucketOf, k)[i]; BucketOf(x) == k && x.arrival < |s|
    decreases |s|
  {
    var n := |s| - 1;
    assert Numbered(s[..n]);
    var m := if BucketOf(s[n]) == k then 1 else 0;
    if i < m {
    } else {
      ChainMember(s[..n], k, i - m);
    }
  }

  lemma {:induction false} ChainOrdered(s: seq<Queued>, k: int, i: nat, j: nat)
    requires Numbered(s) && i < j < |Chain(s, BucketOf, k)|
    ensures Goes(Chain(s, BucketOf, k)[i], Chain(s, BucketOf, k)[j])
    decreases |s|
  {
    var n := |s| - 1;
    assert Numbered(s[..n]);
    var m := if BucketOf(s[n]) == k then 1 else 0;
    ChainMember(s[..n], k, j - m);
    if i < m {
    } else {
      ChainOrdered(s[..n], k, i - m, j - m);
    }
  }

  lemma {:induction false} PassedMember(s: seq<Queued>, n: nat, i: nat)
    requires Numbered(s) && i < |Passed(s, n)|
    ensures BucketOf(Passed(s, n)[i]) < n
    decreases n
  {
    var m := |Passed(s, n - 1)|;
    if i < m {
      PassedMember(s, n - 1, i);
    } else {
      ChainMember(s, n - 1, i - m);
    }
  }

  /** Lower priorities first, and within one priority what was queued last. */
  lemma {:induction false} PassedOrdered(s: seq<Queued>, n: nat, i: nat, j: nat)
    requires Numbered(s) && i < j < |Passed(s, n)|
    ensures Goes(Passed(s, n)[i], Passed(s, n)[j])
    decreases n
  {
    var m := |Passed(s, n - 1)|;
    if j < m {
      PassedOrdered(s, n - 1, i, j);
    } else {
      ChainMember(s, n - 1, j - m);
      if i < m {
        PassedMember(s, n - 1, i);
      } else {
        ChainOrdered(s, n - 1, i - m, j - m);
      }
    }
  }

  /** How often x is written in a pass over the buckets below n. */
  function Times(s: seq<Queued>, n: nat, x: Queued): nat {
    multiset(Passed(s, n))[x]
  }

  lemma PassedStep(s: seq<Queued>, n: nat, x: Queued)
    requires n > 0
    ensures Times(s, n, x) == Times(s, n - 1, x) + multiset(Chain(s, BucketOf, n - 1))[x]
  {
    hide Chain;
  }

  lemma NoTimes(s: seq<Queued>, x: Queued)
    ensures Times(s, 0, x) == 0
  {
  }

  lemma HeadCounts(y: Queued, c: bool, rest: seq<Queued>, x: Queued)
    ensures multiset((if c then [y] else []) + rest)[x] == (if c && x == y then 1 else 0) + multiset(rest)[x]
  {
  }

  /** How a pass changes with one more file y. */
  lemma {:induction false} PassedGrows(s: seq<Queued>, y: Queued, n: nat, x: Queued)
    ensures Times(s + [y], n, x) == Times(s, n, x) + if x == y && 0 <= BucketOf(y) < n then 1 else 0
    decreases n
  {
    hide Chain, Times;
    if n == 0 {
      NoTimes(s, x);
      NoTimes(s + [y], x);
    } else {
      PassedGrows(s, y, n - 1, x);
      PassedStep(s, n, x);
      PassedStep(s + [y], n, x);
      ChainGrows(s, BucketOf, y, n - 1);
      HeadCounts(y, BucketOf(y) == n - 1, Chain(s, BucketOf, n - 1), x);
    }
  }

  lemma {:induction false} NothingPassed(n: nat)
    ensures Passed([], n) == []
    decreases n
  {
    if n == 0 {
    } else {
      NothingPassed(n - 1);
    }
  }

  /** Every file queued is written exactly once. */
  lemma {:induction false} PassedOnce(s: seq<Queued>)
    requires Numbered(s)
    ensures multiset(Passed(s, LISTS)) == multiset(s)
    decreases |s|
  {
    hide Passed;
    if s == [] {
      NothingPassed(LISTS);
    } else {
      var n := |s| - 1;
      assert s == s[..n] + [s[n]];
      assert Numbered(s[..n]);
      PassedOnce(s[..n]);
      forall x: Queued
        ensures multiset(Passed(s, LISTS))[x] == multiset(s)[x]
      {
        PassedGrows(s[..n], s[n], LISTS, x);
      }
    }
  }

  /** The queue rearranged: every file once, lower priorities first, and of one priority what was queued last. */
  ghost predicate IsWritingOrder(order: seq<Queued>, queue: seq<Queued>, log: seq<File>) {
    && multiset(order) == multiset(queue)
    && (forall i, j :: 0 <= i < j < |order| ==>
          && order[i].priority <= order[j].priority
          && (order[i].priority == order[j].priority ==> order[i].arrival > order[j].arrival))
    && |log| == |order| && forall i :: 0 <= i < |order| ==> log[i] == order[i].file
  }

  lemma PassIsWritingOrder(queue: seq<Queued>)
    requires Numbered(queue)
    ensures IsWritingOrder(Passed(queue, LISTS), queue, Files(Passed(queue, LISTS)))
  {
    hide Passed, Numbered;
    var order := Passed(queue, LISTS);
    PassedOnce(queue);
    forall i, j | 0 <= i < j < |order|
      ensures Goes(order[i], order[j])
    {
      PassedOrdered(queue, LISTS, i, j);
    }
  }

  // ---- the program ----

  /** The list of files written, with their inodes. */
  function Written(log: seq<File>, write: (nat, File) -> int): (r: seq<Record>)
    ensures |r| == |log|
  {
    seq(|log|, k requires 0 <= k < |log| => Record(log[k].dev, log[k].ino, write(k, log[k])))
  }

  lemma OneMoreWritten(log: seq<File>, write: (nat, File) -> int, f: File)
    ensures Written(log + [f], write) == Written(log, write) + [Record(f.dev, f.ino, write(|log|, f))]
  {
  }

  lemma StartOfPass(queue: seq<Queued>, write: (nat, File) -> int)
    ensures Files(Passed(queue, 0)) == [] && Written([], write) == []
  {
  }

  lemma BucketPassed(queue: seq<Queued>, i: nat)
    ensures Files(Passed(queue, i + 1)) == Files(Passed(queue, i)) + Files(Chain(queue, BucketOf, i))
  {
    hide Chain;
  }

  /** Inserting at the head of one list keeps all lists right. */
  lemma HeadInserted(lists: seq<seq<Record>>, s: seq<Record>, r: Record, hash: nat)
    requires |lists| == LISTS && hash == r.ino % LISTS
    requires forall k :: 0 <= k < LISTS ==> lists[k] == Chain(s, HashOf, k)
    ensures var more := lists[hash := [r] + lists[hash]];
      forall k :: 0 <= k < LISTS ==> more[k] == Chain(s + [r], HashOf, k)
  {
    hide Chain;
    forall k | 0 <= k < LISTS
      ensures lists[hash := [r] + lists[hash]][k] == Chain(s + [r], HashOf, k)
    {
      ChainGrows(s, HashOf, r, k);
      assert [] + Chain(s, HashOf, k) == Chain(s, HashOf, k);
    }
  }

  lemma FileInserted(lists: seq<seq<File>>, s: seq<Queued>, q: Queued, bucket: nat)
    requires |lists| == LISTS && bucket == BucketOf(q) < LISTS
    requires forall k :: 0 <= k < LISTS ==> lists[k] == Files(Chain(s, BucketOf, k))
    ensures var more := lists[bucket := [q.file] + lists[bucket]];
      forall k :: 0 <= k < LISTS ==> more[k] == Files(Chain(s + [q], BucketOf, k))
  {
    hide Chain;
    forall k | 0 <= k < LISTS
      ensures lists[bucket := [q.file] + lists[bucket]][k] == Files(Chain(s + [q], BucketOf, k))
    {
      ChainGrows(s, BucketOf, q, k);
      assert [] + Chain(s, BucketOf, k) == Chain(s, BucketOf, k);
      assert Files([q] + Chain(s, BucketOf, k)) == [q.file] + Files(Chain(s, BucketOf, k));
    }
  }

  class Sorter {
    var sortInfo: seq<seq<Record>>
    var priorityList: seq<seq<File>>
    var sortedInode: seq<seq<Record>>
    ghost var infos: seq<Record>
    ghost var queue: seq<Queued>
    ghost var inodes: seq<Record>

    ghost predicate Valid()
      reads this
    {
      && |sortInfo| == |priorityList| == |sortedInode| == LISTS
      && (forall k :: 0 <= k < LISTS ==> sortInfo[k] == Chain(infos, HashOf, k))
      && (forall k :: 0 <= k < LISTS ==> priorityList[k] == Files(Chain(queue, BucketOf, k)))
      && (forall k :: 0 <= k < LISTS ==> sortedInode[k] == Chain(inodes, HashOf, k))
      && Numbered(queue)
    }

    constructor ()
      ensures Valid() && infos == [] && queue == [] && inodes == []
    {
      sortInfo := seq(LISTS, _ => []);
      priorityList := seq(LISTS, _ => []);
      sortedInode := seq(LISTS, _ => []);
      infos, queue, inodes := [], [], [];
    }

    /** ADD_ENTRY of add_sort_list */
    method AddSortInfo(dev: nat, ino: nat, priority: int)
      requires Valid()
      modifies this`sortInfo, this`infos
      ensures Valid() && infos == old(infos) + [Record(dev, ino, priority)]
    {
      hide Chain, HashOf, BucketOf, Numbered;
      var r, hash := Record(dev, ino, priority), ino % LISTS;
      HeadInserted(sortInfo, infos, r, hash);
      sortInfo := sortInfo[hash := [r] + sortInfo[hash]];
      infos := infos + [r];
    }

    /** get_priority: the file's own priority from the sort list, or the one it inherits. */
    method GetPriority(dev: nat, ino: nat, priority: int) returns (r: int)
      requires Valid()
      ensures r == match Latest(infos, dev, ino) case Some(own) => own case None => priority
      ensures NoneFor(infos, dev, ino) ==> r == priority
      ensures forall k :: 0 <= k < |infos| && LastFor(infos, k, dev, ino) ==> r == infos[k].value
    {
      LatestIsLast(infos, dev, ino);
      ChainFindsLatest(infos, dev, ino);
      var own := Search(sortInfo[ino % LISTS], dev, ino);
      r := if own.Some? then own.value else priority;
    }

    /** add_priority_list */
    method AddPriority(file: File, priority: int)
      requires Valid() && -32768 <= priority <= 32767
      modifies this`priorityList, this`queue
      ensures Valid() && queue == old(queue) + [Queued(|old(queue)|, priority, file)]
    {
      hide Chain, HashOf, Files;
      var bucket := priority + 32768;
      ghost var q := Queued(|queue|, priority, file);
      FileInserted(priorityList, queue, q, bucket);
      priorityList := priorityList[bucket := [file] + priorityList[bucket]];
      queue := queue + [q];
    }

    /** add_to_sorted_inode_list */
    method AddInode(inode: int, dev: nat, ino: nat)
      requires Valid()
      modifies this`sortedInode, this`inodes
      ensures Valid() && inodes == old(inodes) + [Record(dev, ino, inode)]
    {
      hide Chain, HashOf, BucketOf, Numbered;
      var r, hash := Record(dev, ino, inode), ino % LISTS;
      HeadInserted(sortedInode, inodes, r, hash);
      sortedInode := sortedInode[hash := [r] + sortedInode[hash]];
      inodes := inodes + [r];
    }

    /** get_sorted_inode: the inode of the file written last under this device and inode, 0 for none. */
    method GetSortedInode(dev: nat, ino: nat) returns (inode: int)
      requires Valid()
      ensures inode == match Latest(inodes, dev, ino) case Some(i) => i case None => 0
      ensures NoneFor(inodes, dev, ino) ==> inode == 0
      ensures forall k :: 0 <= k < |inodes| && LastFor(inodes, k, dev, ino) ==> inode == inodes[k].value
    {
      LatestIsLast(inodes, dev, ino);
      ChainFindsLatest(inodes, dev, ino);
      var found := Search(sortedInode[ino % LISTS], dev, ino);
      inode := if found.Some? then found.value else 0;
    }

    /** The pass of sort_files_and_write over the buckets; write(k, f) is the inode write_file makes for f as the k-th
        file. `log` is the order of writing, `order` the same with arrivals and priorities. */
    method WriteSorted(write: (nat, File) -> int) returns (log: seq<File>, ghost order: seq<Queued>)
      requires Valid()
      modifies this`sortedInode, this`inodes
      ensures Valid() && log == Files(Passed(queue, LISTS)) && IsWritingOrder(order, queue, log)
      ensures inodes == old(inodes) + Written(log, write)
    {
      hide Chain, HashOf, Files, Passed, Written, Numbered, IsWritingOrder;
      log := [];
      StartOfPass(queue, write);
      for i := 0 to LISTS
        invariant Valid() && log == Files(Passed(queue, i)) && inodes == old(inodes) + Written(log, write)
      {
        var entries := priorityList[i];
        ghost var before := log;
        assert entries[..0] == [] && before + [] == before;
        for k := 0 to |entries|
          invariant Valid() && log == before + entries[..k] && inodes == old(inodes) + Written(log, write)
        {
          var f := entries[k];
          AddInode(write(|log|, f), f.dev, f.ino);
          OneMoreWritten(log, write, f);
          assert old(inodes) + Written(log, write) + [Record(f.dev, f.ino, write(|log|, f))]
              == old(inodes) + Written(log + [f], write);
          assert before + entries[..k] + [f] == before + entries[..k + 1];
          log := log + [f];
        }
        assert entries[..|entries|] == entries;
        BucketPassed(queue, i);
      }
      order := Passed(queue, LISTS);
      PassIsWritingOrder(queue);
    }
  }
}
