/** mkcramfs: the directory area written with an explicit stack and patched offsets, duplicates found by a preorder
    search, data written behind the directories, all of it inside the size estimated beforehand. */
module Cramfs {
  import opened Wrappers

  import opened Bits
  import opened BitFields
  import opened CramFiles
  import opened CramInodes
  import opened CramTree
  import opened MetadataBlocks

  // ---- the stack ----

  /** The entries of a listing that are pushed: the directories that are not empty. */
  function Parents(t: Tree): seq<Tree> {
    if t.Null? then [] else (if t.child.Entry? then [t] else []) + Parents(t.next)
  }

  /** Where entry k of the stack comes from once the ends of the row, up to lo and from hi on, have been exchanged. */
  function Turned(n: nat, from: nat, lo: int, hi: int, k: nat): int {
    if k < from || lo <= k <= hi then k else n - 1 - (k - from)
  }

  /** All listings below a row of directories. */
  function BelowAll(s: seq<Tree>): seq<Tree>
    requires forall e :: e in s ==> e.Entry?
  {
    if s == [] then [] else Listing(s[0].child) + BelowAll(s[1..])
  }

  /** What is still to be written for the directories on the stack, the top one first. */
  function Pending(stack: seq<Tree>): seq<Tree>
    requires forall e :: e in stack ==> e.Entry?
  {
    if stack == [] then [] else Listing(stack[|stack| - 1].child) + Pending(stack[..|stack| - 1])
  }

  function Reversed(s: seq<Tree>): (r: seq<Tree>)
    ensures |r| == |s|
    ensures forall e :: e in r ==> e in s
  {
    seq(|s|, i requires 0 <= i < |s| => s[|s| - 1 - i])
  }

  lemma {:induction false} ParentsAreSiblings(t: Tree)
    ensures forall e :: e in Parents(t) ==> e in Siblings(t) && e.Entry? && e.child.Entry?
    ensures forall e :: e in Siblings(t) ==> e.Entry? && (e.child.Entry? ==> e in Parents(t))
    decreases t
  {
    if t.Null? {
    } else {
      ParentsAreSiblings(t.next);
    }
  }

  lemma {:induction false} BelowParents(t: Tree)
    ensures forall e :: e in Parents(t) ==> e.Entry?
    ensures Below(t) == BelowAll(Parents(t))
    decreases t
  {
    if t.Null? {
    } else {
      BelowParents(t.next);
      if t.child.Entry? {
        assert Parents(t)[1..] == Parents(t.next);
      } else {
        assert Parents(t) == Parents(t.next);
        assert Listing(t.child) == [];
      }
    }
  }

  /** Pushing a row in order and reversing it puts the first of the row on top. */
  lemma {:induction false} PendingReversed(stack: seq<Tree>, row: seq<Tree>)
    requires forall e :: e in stack + row ==> e.Entry?
    ensures forall e :: e in row ==> e in stack + row
    ensures forall e :: e in stack + Reversed(row) ==> e.Entry?
    ensures Pending(stack + Reversed(row)) == BelowAll(row) + Pending(stack)
    decreases |row|
  {
    forall e | e in row
      ensures e in stack + row
    {
    }
    forall e | e in stack
      ensures e in stack + row
    {
    }
    if row == [] {
      assert stack + Reversed(row) == stack;
    } else {
      var all := stack + Reversed(row);
      assert row[0] in row;
      forall e | e in stack + row[1..]
        ensures e in stack + row
      {
      }
      PendingReversed(stack, row[1..]);
      assert all[..|all| - 1] == stack + Reversed(row[1..]);
      assert all[|all| - 1] == row[0];
    }
  }

  lemma DistinctConcat(a: seq<Tree>, b: seq<Tree>)
    requires Distinct(a + b)
    ensures Distinct(a) && Distinct(b)
    ensures forall e, f :: e in a && f in b ==> Differ(e, f)
  {
    var s := a + b;
    forall i, j | 0 <= i < j < |a|
      ensures Differ(a[i], a[j])
    {
      assert Differ(s[i], s[j]);
    }
    forall i, j | 0 <= i < j < |b|
      ensures Differ(b[i], b[j])
    {
      assert Differ(s[|a| + i], s[|a| + j]);
    }
    forall e, f | e in a && f in b
      ensures Differ(e, f)
    {
      var i :| 0 <= i < |a| && a[i] == e;
      var j :| 0 <= j < |b| && b[j] == f;
      assert Differ(s[i], s[|a| + j]);
    }
  }

  lemma DistinctCons(t: Tree, p: seq<Tree>)
    requires Distinct(p) && forall e :: e in p ==> Differ(t, e)
    ensures Distinct([t] + p)
  {
    var s := [t] + p;
    forall i, j | 0 <= i < j < |s|
      ensures Differ(s[i], s[j])
    {
      assert s[j] == p[j - 1];
      if i > 0 {
        assert s[i] == p[i - 1];
      }
    }
  }

  lemma {:induction false} ParentsDistinct(t: Tree)
    requires Distinct(Siblings(t))
    ensures Distinct(Parents(t))
    decreases t
  {
    if t.Null? {
    } else {
      DistinctConcat([t], Siblings(t.next));
      ParentsDistinct(t.next);
      ParentsAreSiblings(t.next);
      assert t in [t];
      if t.child.Entry? {
        DistinctCons(t, Parents(t.next));
      } else {
        assert Parents(t) == Parents(t.next);
      }
    }
  }

  lemma DistinctPair(stack: seq<Tree>, r: seq<Tree>, p: seq<Tree>)
    requires r == Reversed(p) && Distinct(stack) && Distinct(p) && forall e, f :: e in stack && f in p ==> Differ(e, f)
    ensures Distinct(stack + r)
  {
    var s := stack + r;
    forall i, j | 0 <= i < j < |s|
      ensures Differ(s[i], s[j])
    {
      if j < |stack| {
        assert Differ(stack[i], stack[j]);
      } else if i < |stack| {
        assert s[i] in stack && s[j] in p;
      } else {
        var u: nat, v: nat := |p| - 1 - (j - |stack|), |p| - 1 - (i - |stack|);
        assert s[i] == p[v] && s[j] == p[u];
        assert Differ(p[u], p[v]);
      }
    }
  }

  /** The stack stays free of repetitions. */
  lemma StackDistinct(stack: seq<Tree>, t: Tree, written: seq<Tree>)
    requires Distinct(written + Siblings(t)) && Distinct(stack) && forall e :: e in stack ==> e in written
    ensures Distinct(stack + Reversed(Parents(t)))
    ensures forall e :: e in stack + Reversed(Parents(t)) ==> e in written + Siblings(t)
  {
    DistinctConcat(written, Siblings(t));
    ParentsDistinct(t);
    ParentsAreSiblings(t);
    var p := Parents(t);
    var r := Reversed(p);
    var s := stack + r;
    hide Parents, Siblings, Reversed, Distinct;
    DistinctPair(stack, r, p);
  }

  // ---- the directory area ----

  /** One entry within the area. */
  predicate InArea(l: Layout, e: Tree, base: nat, end: nat) {
    && Storable(e) && e.id in l.places && l.EntryAt(e)
    && base <= l.places[e.id] && l.places[e.id] + Len(e) <= end
  }

  predicate Before(l: Layout, e: Tree, f: Tree) {
    && e.Entry? && f.Entry? && e.id in l.places && f.id in l.places
    && l.places[e.id] + Len(e) <= l.places[f.id]
  }

  /** The entries w, one behind the other from `base` to `end`. */
  ghost predicate Area(l: Layout, w: seq<Tree>, base: nat, end: nat) {
    && (forall i :: 0 <= i < |w| ==> InArea(l, w[i], base, end))
    && (forall i, j :: 0 <= i < j < |w| ==> Before(l, w[i], w[j]))
  }

  /** The maps only grow. */
  ghost predicate Extends(a: map<nat, nat>, b: map<nat, nat>) {
    forall k :: k in a ==> k in b && b[k] == a[k]
  }

  /** An entry stays where it is while the image changes elsewhere. */
  lemma EntryKept(l: Layout, m: Layout, e: Tree, from: nat, until: nat)
    requires e.Entry? && |e.name| <= 252 && l.EntryAt(e) && m.rom == l.rom && SameOutside(l.img, m.img, from, until)
    requires l.places[e.id] + Len(e) <= from || until <= l.places[e.id]
    requires e.id in m.places && m.places[e.id] == l.places[e.id] && m.OffsetOf(e) == l.OffsetOf(e)
    ensures m.EntryAt(e)
  {
    hide Holds, SameOutside, EntryBytes, Len;
    HoldsOutside(l.img, m.img, from, until, l.places[e.id], EntryBytes(l.rom.order, e, l.OffsetOf(e)));
  }

  lemma InAreaMeans(l: Layout, e: Tree, base: nat, end: nat)
    requires InArea(l, e, base, end)
    ensures e.Entry? && |e.name| <= 252 && e.id in l.places && l.EntryAt(e) && l.OffsetOf(e) < 4 * OFFSET_LIMIT
    ensures base <= l.places[e.id] && l.places[e.id] + Len(e) <= end
  {
  }

  lemma AreaMember(l: Layout, w: seq<Tree>, base: nat, end: nat, e: Tree)
    requires Area(l, w, base, end) && e in w
    ensures InArea(l, e, base, end)
  {
    hide InArea, Before;
    var i :| 0 <= i < |w| && w[i] == e;
  }

  /** An entry that is not touched stays in the area. */
  lemma InAreaKept(l: Layout, m: Layout, e: Tree, from: nat, until: nat, base: nat, end: nat, further: nat)
    requires InArea(l, e, base, end) && m.rom == l.rom && SameOutside(l.img, m.img, from, until) && end <= further
    requires l.places[e.id] + Len(e) <= from || until <= l.places[e.id]
    requires e.id in m.places && m.places[e.id] == l.places[e.id]
    requires e.id in l.offsets <==> e.id in m.offsets
    requires e.id in l.offsets ==> m.offsets[e.id] == l.offsets[e.id]
    ensures InArea(m, e, base, further)
  {
    hide Holds, SameOutside, EntryBytes, Len, DirBytes;
    InAreaMeans(l, e, base, end);
    EntryKept(l, m, e, from, until);
  }

  lemma BeforeKept(l: Layout, m: Layout, e: Tree, f: Tree)
    requires Before(l, e, f) && Extends(l.places, m.places)
    ensures Before(m, e, f)
  {
    hide Len;
  }

  lemma LastIsAfter(m: Layout, e: Tree, f: Tree)
    requires e.Entry? && f.Entry? && e.id in m.places && f.id in m.places && m.places[e.id] + Len(e) <= m.places[f.id]
    ensures Before(m, e, f)
  {
  }

  lemma ArrivedEntry(m: Layout, e: Tree, base: nat, at: nat)
    requires Storable(e) && e.id in m.places && m.places[e.id] == at && e.id !in m.offsets && base <= at
    requires Holds(m.img, at, EntryBytes(m.rom.order, e, 0))
    ensures InArea(m, e, base, at + Len(e))
  {
    hide Holds, EntryBytes, Len, DirBytes;
  }

  lemma EntryArrives(l: Layout, img: seq<byte>, w: seq<Tree>, base: nat, end: nat, e: Tree)
    requires Area(l, w, base, end) && base <= end && e.Entry? && Storable(e)
    requires e.id !in l.places && e.id !in l.offsets
    requires SameOutside(l.img, img, end, end + Len(e)) && Holds(img, end, EntryBytes(l.rom.order, e, 0))
    ensures Area(l.(img := img, places := l.places[e.id := end]), w + [e], base, end + Len(e))
  {
    hide Holds, SameOutside, EntryBytes, Len, InArea, Before, Storable;
    var m := l.(img := img, places := l.places[e.id := end]);
    var v := w + [e];
    ArrivedEntry(m, e, base, end);
    forall i | 0 <= i < |v|
      ensures InArea(m, v[i], base, end + Len(e))
    {
      if i < |w| {
        assert v[i] == w[i];
        InAreaMeans(l, w[i], base, end);
        InAreaKept(l, m, w[i], end, end + Len(e), base, end, end + Len(e));
      }
    }
    forall i, j | 0 <= i < j < |v|
      ensures Before(m, v[i], v[j])
    {
      assert v[i] == w[i];
      InAreaMeans(l, w[i], base, end);
      if j < |w| {
        assert Before(l, w[i], w[j]) && v[j] == w[j];
        BeforeKept(l, m, w[i], w[j]);
      } else {
        LastIsAfter(m, w[i], e);
      }
    }
  }

  lemma Apart(l: Layout, e: Tree, f: Tree)
    requires Before(l, e, f)
    ensures e.Entry? && f.Entry? && e.id in l.places && f.id in l.places
    ensures l.places[e.id] + Len(e) <= l.places[f.id]
  {
  }

  lemma PatchedEntry(l: Layout, m: Layout, e: Tree, x: nat, base: nat, end: nat)
    requires InArea(l, e, base, end) && m.places == l.places
    requires e.id in m.offsets && m.offsets[e.id] == x && x < 4 * OFFSET_LIMIT && x % 4 == 0
    requires Holds(m.img, m.places[e.id], EntryBytes(m.rom.order, e, x))
    ensures InArea(m, e, base, end)
  {
    hide Holds, EntryBytes, Len, DirBytes;
  }

  /** Setting one entry's offset leaves the others, and the rest of that entry, as they are. */
  lemma OffsetArrives(l: Layout, img: seq<byte>, w: seq<Tree>, base: nat, end: nat, e: Tree, x: nat)
    requires Area(l, w, base, end) && Distinct(w) && e.Entry? && e in w && InArea(l, e, base, end)
    requires x < 4 * OFFSET_LIMIT && x % 4 == 0
    requires SameOutside(l.img, img, l.places[e.id], l.places[e.id] + Len(e))
    requires Holds(img, l.places[e.id], EntryBytes(l.rom.order, e, x))
    ensures Area(l.(img := img, offsets := l.offsets[e.id := x]), w, base, end)
  {
    hide Holds, SameOutside, EntryBytes, Len, InArea, Before;
    var m := l.(img := img, offsets := l.offsets[e.id := x]);
    InAreaMeans(l, e, base, end);
    var k :| 0 <= k < |w| && w[k] == e;
    PatchedEntry(l, m, e, x, base, end);
    forall i | 0 <= i < |w|
      ensures InArea(m, w[i], base, end)
    {
      InAreaMeans(l, w[i], base, end);
      if i < k {
        assert Differ(w[i], w[k]) && Before(l, w[i], w[k]);
        Apart(l, w[i], w[k]);
        InAreaKept(l, m, w[i], l.places[e.id], l.places[e.id] + Len(e), base, end, end);
      } else if k < i {
        assert Differ(w[k], w[i]) && Before(l, w[k], w[i]);
        Apart(l, w[k], w[i]);
        InAreaKept(l, m, w[i], l.places[e.id], l.places[e.id] + Len(e), base, end, end);
      }
    }
    forall i, j | 0 <= i < j < |w|
      ensures Before(m, w[i], w[j])
    {
      BeforeKept(l, m, w[i], w[j]);
    }
  }

  /** Writing behind or in front of the directory area does not touch it. */
  lemma AreaKept(l: Layout, img: seq<byte>, w: seq<Tree>, base: nat, end: nat, from: nat, until: nat)
    requires Area(l, w, base, end) && SameOutside(l.img, img, from, until)
    requires end <= from || until <= base
    ensures Area(l.(img := img), w, base, end)
  {
    hide Holds, SameOutside, EntryBytes, Len, InArea, Before;
    var m := l.(img := img);
    forall i | 0 <= i < |w|
      ensures InArea(m, w[i], base, end)
    {
      InAreaMeans(l, w[i], base, end);
      InAreaKept(l, m, w[i], from, until, base, end, end);
    }
    forall i, j | 0 <= i < j < |w|
      ensures Before(m, w[i], w[j])
    {
      BeforeKept(l, m, w[i], w[j]);
    }
  }

  lemma RunExtends(l: Layout, m: Layout, s: seq<Tree>, at: nat)
    requires l.Run(s, at) && Extends(l.places, m.places)
    ensures m.Run(s, at)
  {
    hide TotalLen;
  }

  lemma RunOneMore(l: Layout, m: Layout, s: seq<Tree>, e: Tree, at: nat)
    requires l.Run(s, at) && Extends(l.places, m.places)
    requires e.Entry? && e.id in m.places && m.places[e.id] == at + TotalLen(s)
    ensures m.Run(s + [e], at)
  {
    hide TotalLen;
    var v := s + [e];
    forall i | 0 <= i < |v|
      ensures v[i].Entry? && v[i].id in m.places && m.places[v[i].id] == at + TotalLen(v[..i])
    {
      if i < |s| {
        assert v[i] == s[i] && v[..i] == s[..i];
      } else {
        assert v[..i] == s;
      }
    }
  }

  lemma ChildExtends(l: Layout, m: Layout, e: Tree)
    requires e.Entry? && l.ChildAt(e) && Extends(l.places, m.places)
    requires e.id in l.offsets ==> e.id in m.offsets && m.offsets[e.id] == l.offsets[e.id]
    ensures m.ChildAt(e)
  {
    hide Layout.Run;
    if e.child.Entry? {
      RunExtends(l, m, Siblings(e.child), l.offsets[e.id]);
    }
  }

  function Ids(s: seq<Tree>): set<nat> {
    set e | e in s && e.Entry? :: e.id
  }

  // ---- duplicates ----

  /** What find_identical_file stops at: the file itself, or one with the same content. */
  predicate Matches(x: Tree, e: Tree) {
    x.Entry? && e.Entry? && (x.id == e.id || (x.data != [] && x.data == e.data))
  }

  /** The first match in a list. */
  function Find(p: seq<Tree>, e: Tree): (r: Option<Tree>)
    ensures r.Some? ==> r.value in p && Matches(r.value, e)
  {
    if p == [] then None else if Matches(p[0], e) then Some(p[0]) else Find(p[1..], e)
  }

  lemma {:induction false} FindConcat(a: seq<Tree>, b: seq<Tree>, e: Tree)
    ensures Find(a + b, e) == if Find(a, e).Some? then Find(a, e) else Find(b, e)
    decreases |a|
  {
    hide Matches;
    if a == [] {
      assert a + b == b;
    } else {
      assert (a + b)[1..] == a[1..] + b;
      FindConcat(a[1..], b, e);
    }
  }

  /** A file's `same` link is its first identical file in preorder, absent when that is the file itself. */
  predicate Linked(same: map<nat, Tree>, p: seq<Tree>, e: Tree) {
    e.Entry? && Find(p, e).Some? && Find(p, e).value.Entry?
    && if Find(p, e).value.id == e.id then e.id !in same else e.id in same && same[e.id] == Find(p, e).value
  }

  lemma {:induction false} FindFirst(p: seq<Tree>, e: Tree, r: Tree)
    requires Find(p, e) == Some(r) && e.Entry? && e.data != [] && r.Entry? && r.data == e.data && Distinct(p)
    ensures Find(p, r) == Some(r)
    decreases |p|
  {
    if Matches(p[0], e) {
    } else {
      assert [p[0]] + p[1..] == p;
      DistinctConcat([p[0]], p[1..]);
      assert p[0] in [p[0]] && r in p[1..];
      assert Differ(p[0], r);
      FindFirst(p[1..], e, r);
    }
  }

  lemma {:induction false} FindSome(p: seq<Tree>, e: Tree, x: Tree)
    requires x in p && Matches(x, e)
    ensures Find(p, e).Some?
    decreases |p|
  {
    if Matches(p[0], e) {
    } else {
      assert x in p[1..];
      FindSome(p[1..], e, x);
    }
  }

  /** The entry a link points to is not linked itself, and comes earlier in the order in which data is written. */
  lemma LinkedToFirst(same: map<nat, Tree>, p: seq<Tree>, done: seq<Tree>, e: Tree, rest: seq<Tree>)
    requires p == done + [e] + rest && Distinct(p) && e.Entry? && e.data != [] && Linked(same, p, e)
    ensures e.id in same ==>
      var r := same[e.id];
      r in done && r.Entry? && r.data == e.data && Find(p, r) == Some(r) && (Linked(same, p, r) ==> r.id !in same)
    ensures e.id !in same ==> forall x :: x in done && x.Entry? ==> x.data != e.data
  {
    DistinctConcat(done + [e], rest);
    DistinctConcat(done, [e]);
    FindConcat(done + [e], rest, e);
    FindConcat(done, [e], e);
    assert e in [e];
    if Find(done, e).Some? {
      assert Differ(Find(done, e).value, e);
    }
    if e.id in same {
      var r := same[e.id];
      assert Differ(r, e);
      FindFirst(p, e, r);
    } else {
      forall x | x in done && x.Entry?
        ensures x.data != e.data
      {
        if x.data == e.data {
          FindSome(done, e, x);
          assert false;
        }
      }
    }
  }

  // ---- data ----

  /** An entry of the list has this content. */
  predicate Stored(d: seq<Tree>, data: seq<byte>) {
    exists k :: 0 <= k < |d| && d[k].Entry? && d[k].data == data
  }

  /** Where the data ends that is written from `start` on for the entries of a list: each content once, the first time it
      comes, and nothing for an entry without content. */
  function DataEnd(rom: Rom, start: nat, d: seq<Tree>): nat {
    if d == [] then start
    else
      var n := |d| - 1;
      var end := DataEnd(rom, start, d[..n]);
      if d[n].Null? || d[n].data == [] || Stored(d[..n], d[n].data) then end else FileEnd(rom, end, d[n].data)
  }

  lemma DataEndMore(rom: Rom, start: nat, d: seq<Tree>, e: Tree)
    requires e.Entry?
    ensures
      var end := DataEnd(rom, start, d);
      DataEnd(rom, start, d + [e]) == if e.data == [] || Stored(d, e.data) then end else FileEnd(rom, end, e.data)
  {
    hide FileEnd, Stored;
    assert (d + [e])[..|d|] == d;
  }

  lemma StoredIsMember(d: seq<Tree>, data: seq<byte>)
    ensures Stored(d, data) <==> exists x :: x in d && x.Entry? && x.data == data
  {
  }

  ghost predicate FiledOne(l: Layout, offs: map<nat, nat>, e: Tree, dirEnd: nat, limit: nat) {
    e.Entry? && e.data != [] ==>
      && e.id in offs && e.id in l.offsets && l.offsets[e.id] == offs[e.id]
      && dirEnd <= offs[e.id] < 4 * OFFSET_LIMIT && offs[e.id] % 4 == 0
      && FileAt(l.rom, l.img, offs[e.id], e.data) && FileEnd(l.rom, offs[e.id], e.data) <= limit
  }

  /** The files of d are stored between dirEnd and limit, each at the offset recorded for it and in its inode. */
  ghost predicate Filed(l: Layout, offs: map<nat, nat>, d: seq<Tree>, dirEnd: nat, limit: nat) {
    forall e :: e in d ==> FiledOne(l, offs, e, dirEnd, limit)
  }

  lemma FiledOneKept(l: Layout, m: Layout, offs: map<nat, nat>, more: map<nat, nat>, e: Tree,
                     from: nat, until: nat, dirEnd: nat, limit: nat, further: nat)
    requires FiledOne(l, offs, e, dirEnd, limit) && m.rom == l.rom && SameOutside(l.img, m.img, from, until)
    requires until <= dirEnd || limit <= from
    requires limit <= further && (e.Entry? && e.id in offs ==> e.id in more && more[e.id] == offs[e.id])
    requires e.Entry? && e.id in l.offsets ==> e.id in m.offsets && m.offsets[e.id] == l.offsets[e.id]
    ensures FiledOne(m, more, e, dirEnd, further)
  {
    hide FileAt, FileEnd, SameOutside;
    if e.Entry? && e.data != [] {
      FileOutside(l.rom, l.img, m.img, from, until, offs[e.id], e.data);
    }
  }

  /** Files stay filed while the directory area, or the space behind them, changes. */
  lemma FiledKept(l: Layout, m: Layout, offs: map<nat, nat>, more: map<nat, nat>, d: seq<Tree>,
                  from: nat, until: nat, dirEnd: nat, limit: nat, further: nat)
    requires Filed(l, offs, d, dirEnd, limit) && m.rom == l.rom && SameOutside(l.img, m.img, from, until)
    requires until <= dirEnd || limit <= from
    requires limit <= further
    requires forall e :: e in d && e.Entry? && e.id in offs ==> e.id in more && more[e.id] == offs[e.id]
    requires forall e :: e in d && e.Entry? && e.id in l.offsets ==> e.id in m.offsets && m.offsets[e.id] == l.offsets[e.id]
    ensures Filed(m, more, d, dirEnd, further)
  {
    hide FiledOne, SameOutside;
    forall e | e in d
      ensures FiledOne(m, more, e, dirEnd, further)
    {
      FiledOneKept(l, m, offs, more, e, from, until, dirEnd, limit, further);
    }
  }

  lemma FiledMore(l: Layout, offs: map<nat, nat>, d: seq<Tree>, e: Tree, dirEnd: nat, limit: nat)
    requires Filed(l, offs, d, dirEnd, limit) && FiledOne(l, offs, e, dirEnd, limit)
    ensures Filed(l, offs, d + [e], dirEnd, limit)
  {
    hide FiledOne;
  }

  lemma NoChild(p: Layout, e: Tree)
    requires e.Entry? && !e.child.Entry?
    ensures p.ChildAt(e)
  {
  }

  lemma ExtendsItself(m: map<nat, nat>)
    ensures Extends(m, m)
  {
  }

  /** Directories keep their listings when the offset of an entry without children is set. */
  lemma ChildrenKept(l: Layout, m: Layout, w: seq<Tree>, e: Tree, x: nat)
    requires forall f :: f in w ==> f.Entry? && l.ChildAt(f)
    requires Distinct(w) && e in w && e.Entry? && e.child.Null?
    requires m.places == l.places && m.offsets == l.offsets[e.id := x]
    ensures forall f :: f in w ==> m.ChildAt(f)
  {
    hide Layout.ChildAt, Distinct, Extends;
    ExtendsItself(l.places);
    forall f | f in w
      ensures m.ChildAt(f)
    {
      if f == e {
        NoChild(m, f);
      } else {
        DifferentIds(w, f, e);
        ChildExtends(l, m, f);
      }
    }
  }

  // ---- the builder ----

  ghost predicate Waiting(l: Layout, w: seq<Tree>, stack: seq<Tree>) {
    Distinct(stack) && forall e :: e in stack ==> e.Entry? && e.child.Entry? && e in w && e.id !in l.offsets
  }

  /** The state of write_directory_structure between two listings: w is written, the stack says what is to come, and
      every directory written either is on the stack or has its listing. */
  ghost predicate Progress(l: Layout, w: seq<Tree>, stack: seq<Tree>, top: Tree, start: nat, end: nat) {
    && Waiting(l, w, stack)
    && Listing(top) == w + Pending(stack)
    && Area(l, w, start, end) && end == start + TotalLen(w)
    && (forall e :: e in w ==> e.Entry? && (l.ChildAt(e) || e in stack))
    && l.Run(Siblings(top), start)
    && l.places.Keys == Ids(w) && l.offsets.Keys <= Ids(w)
  }

  lemma FirstListing(l: Layout, top: Tree, start: nat)
    requires l.places == map[] && l.offsets == map[]
    requires Distinct(Listing(top)) && forall e :: e in Listing(top) ==> Storable(e)
    ensures Area(l, [], start, start) && l.places.Keys == Ids([]) && l.offsets.Keys <= Ids([])
    ensures Distinct([] + Siblings(top)) && forall e :: e in Siblings(top) ==> Storable(e)
    ensures DirBytes(top) <= DirEstimate(top)
  {
    hide Storable, TotalLen;
    DistinctConcat(Siblings(top), Below(top));
    assert [] + Siblings(top) == Siblings(top);
    forall e | e in Siblings(top)
      ensures Storable(e)
    {
      assert e in Listing(top);
    }
    ListingBytes(top);
  }

  lemma NothingIsDistinct()
    ensures Distinct([])
  {
  }

  lemma NothingPending()
    ensures Pending([]) == []
  {
  }

  /** What is pushed and reversed is on the stack. */
  lemma PushedAgain(stack: seq<Tree>, row: seq<Tree>)
    ensures forall e :: e in stack + Reversed(row) <==> e in stack || e in row
  {
    var r := Reversed(row);
    forall e | e in row
      ensures e in stack + r
    {
      var i :| 0 <= i < |row| && row[i] == e;
      assert r[|row| - 1 - i] == e;
    }
    assert forall e :: e in stack + r <==> e in stack || e in r;
  }

  lemma ProgressStarts(l: Layout, top: Tree, stack: seq<Tree>, start: nat, end: nat)
    requires Distinct(Listing(top)) && l.offsets == map[] && l.places.Keys == Ids([] + Siblings(top))
    requires stack == [] + Reversed(([] + Parents(top))[0..]) && end == start + DirBytes(top)
    requires Area(l, [] + Siblings(top), start, end) && l.Run(Siblings(top), start)
    ensures Progress(l, Siblings(top), stack, top, start, end)
  {
    hide Area, Layout.Run, TotalLen, Pending, BelowAll, Reversed, Distinct, Parents, Ids;
    assert [] + Siblings(top) == Siblings(top);
    assert ([] + Parents(top))[0..] == Parents(top);
    assert [] + Reversed(Parents(top)) == stack;
    DistinctConcat(Siblings(top), Below(top));
    NothingIsDistinct();
    StackDistinct([], top, []);
    BelowParents(top);
    ParentsAreSiblings(top);
    assert [] + Parents(top) == Parents(top);
    PendingReversed([], Parents(top));
    NothingPending();
    assert BelowAll(Parents(top)) + [] == Below(top);
    PushedAgain([], Parents(top));
  }

  lemma SameOutsideMore(a: seq<byte>, b: seq<byte>, from: nat, until: nat, limit: nat)
    requires SameOutside(a, b, from, until) && until <= limit
    ensures SameOutside(a, b, from, limit)
  {
  }

  lemma LastPending(stack: seq<Tree>)
    requires stack != [] && forall e :: e in stack ==> e.Entry?
    ensures
      var n := |stack| - 1;
      && (forall e :: e in stack[..n] ==> e.Entry?) && stack[n].Entry?
      && Pending(stack) == Listing(stack[n].child) + Pending(stack[..n])
  {
  }

  /** The directory on top of the stack: its listing is new and fits. */
  lemma NextListing(l: Layout, w: seq<Tree>, stack: seq<Tree>, top: Tree, start: nat, end: nat)
    requires Progress(l, w, stack, top, start, end) && stack != []
    requires Distinct(Listing(top)) && forall x :: x in Listing(top) ==> Storable(x)
    ensures
      var e := stack[|stack| - 1];
      && e.Entry? && e.child.Entry? && e in w && e in Listing(top) && e.id !in l.offsets && e.id in Ids(w)
      && Distinct(w) && Distinct(w + Siblings(e.child))
      && (forall x :: x in Siblings(e.child) ==> Storable(x))
      && end + DirBytes(e.child) <= start + DirEstimate(top)
      && |w| + |Siblings(e.child)| <= |Listing(top)| && |Siblings(e.child)| > 0
      && Area(l, w, start, end) && start <= end && l.places.Keys == Ids(w) && l.offsets.Keys <= Ids(w)
    ensures start % 4 == 0 ==> end % 4 == 0
  {
    hide Storable, TotalLen, Area, Layout.Run, Layout.ChildAt, Distinct, Pending;
    var n := |stack| - 1;
    var e := stack[n];
    LastPending(stack);
    var row, rest := Siblings(e.child), Below(e.child) + Pending(stack[..n]);
    assert Listing(top) == (w + row) + rest;
    DistinctConcat(w + row, rest);
    DistinctConcat(w, row);
    forall x | x in row
      ensures Storable(x)
    {
      assert x in (w + row) + rest;
    }
    ListingBytes(top);
    TotalLenConcat(w + row, rest);
    TotalLenConcat(w, row);
  }

  lemma MemberId(w: seq<Tree>, e: Tree)
    requires e in w && e.Entry?
    ensures e.id in Ids(w)
  {
  }

  lemma IdsConcat(a: seq<Tree>, b: seq<Tree>)
    ensures Ids(a + b) == Ids(a) + Ids(b)
  {
    assert forall e :: e in a + b <==> e in a || e in b;
  }

  lemma ListingIs(t: Tree)
    ensures Listing(t) == Siblings(t) + Below(t)
  {
  }

  lemma AllAssociate(a: seq<Tree>, b: seq<Tree>, c: seq<Tree>, d: seq<Tree>)
    ensures a + ((b + c) + d) == (a + b) + (c + d)
  {
  }

  lemma PendingStep(w: seq<Tree>, stack: seq<Tree>, top: Tree)
    requires stack != [] && (forall e :: e in stack ==> e.Entry?) && Listing(top) == w + Pending(stack)
    ensures
      var n := |stack| - 1;
      var next := stack[..n] + Reversed(Parents(stack[n].child));
      (forall e :: e in next ==> e.Entry?) && Listing(top) == (w + Siblings(stack[n].child)) + Pending(next)
  {
    hide Pending, BelowAll, Reversed, Parents, Siblings, Below, Listing;
    var n := |stack| - 1;
    var e, rest := stack[n], stack[..n];
    LastPending(stack);
    BelowParents(e.child);
    PushedAgain(rest, Parents(e.child));
    ListingIs(e.child);
    PendingReversed(rest, Parents(e.child));
    AllAssociate(w, Siblings(e.child), Below(e.child), Pending(rest));
  }

  lemma NewId(w: seq<Tree>, row: seq<Tree>, x: Tree)
    requires Distinct(w + row) && x in row && x.Entry?
    ensures x.id !in Ids(w)
  {
    DistinctConcat(w, row);
  }

  lemma WaitingStep(l: Layout, p: Layout, w: seq<Tree>, stack: seq<Tree>, from: nat)
    requires Waiting(l, w, stack) && stack != [] && l.offsets.Keys <= Ids(w)
    requires
      var e := stack[|stack| - 1];
      e.Entry? && Distinct(w + Siblings(e.child)) && p.offsets == l.offsets[e.id := from]
    ensures
      var n := |stack| - 1;
      Waiting(p, w + Siblings(stack[n].child), stack[..n] + Reversed(Parents(stack[n].child)))
  {
    var n := |stack| - 1;
    var e, rest := stack[n], stack[..n];
    assert rest + [e] == stack;
    DistinctConcat(rest, [e]);
    hide Distinct, Reversed, Parents, Siblings, Ids;
    StackDistinct(rest, e.child, w);
    PushedAgain(rest, Parents(e.child));
    ParentsAreSiblings(e.child);
    var next := rest + Reversed(Parents(e.child));
    forall x | x in next
      ensures x.Entry? && x.child.Entry? && x in w + Siblings(e.child) && x.id !in p.offsets
    {
      if x in rest {
        assert Differ(x, e);
      } else {
        NewId(w, Siblings(e.child), x);
        MemberId(w, e);
      }
    }
  }

  lemma SameOrDiffer(w: seq<Tree>, x: Tree, e: Tree)
    requires Distinct(w) && x in w && e in w && x != e
    ensures Differ(x, e)
  {
    DifferentIds(w, x, e);
  }

  lemma ChildArrives(p: Layout, e: Tree, from: nat)
    requires e.Entry? && e.id in p.offsets && p.offsets[e.id] == from && p.Run(Siblings(e.child), from)
    ensures p.ChildAt(e)
  {
  }

  lemma ChildrenStep(l: Layout, p: Layout, w: seq<Tree>, stack: seq<Tree>, from: nat)
    requires Waiting(l, w, stack) && stack != [] && Distinct(w + Siblings(stack[|stack| - 1].child))
    requires forall x :: x in w ==> x.Entry? && (l.ChildAt(x) || x in stack)
    requires
      var e := stack[|stack| - 1];
      && e.Entry? && p.offsets == l.offsets[e.id := from] && Extends(l.places, p.places)
      && p.Run(Siblings(e.child), from)
    ensures
      var n := |stack| - 1;
      var next := stack[..n] + Reversed(Parents(stack[n].child));
      forall x :: x in w + Siblings(stack[n].child) ==> x.Entry? && (p.ChildAt(x) || x in next)
  {
    hide Layout.Run, Distinct, Reversed, Parents, Siblings, Layout.ChildAt, Extends;
    var n := |stack| - 1;
    var e, rest := stack[n], stack[..n];
    PushedAgain(rest, Parents(e.child));
    ParentsAreSiblings(e.child);
    DistinctConcat(w, Siblings(e.child));
    forall x | x in w + Siblings(e.child)
      ensures x.Entry? && (p.ChildAt(x) || x in rest + Reversed(Parents(e.child)))
    {
      if x in w {
        if x == e {
          ChildArrives(p, e, from);
        } else if x !in rest {
          SameOrDiffer(w, x, e);
          ChildExtends(l, p, x);
        }
      } else if !x.child.Entry? {
        NoChild(p, x);
      }
    }
  }

  lemma ProgressStep(l: Layout, p: Layout, w: seq<Tree>, stack: seq<Tree>, next: seq<Tree>, top: Tree,
                     start: nat, from: nat, end: nat)
    requires Progress(l, w, stack, top, start, from) && stack != [] && Distinct(Listing(top))
    requires
      var n := |stack| - 1;
      var e := stack[n];
      && e.Entry? && e in w && Distinct(w + Siblings(e.child))
      && p.offsets == l.offsets[e.id := from] && Extends(l.places, p.places)
      && p.places.Keys == Ids(w + Siblings(e.child)) && end == from + DirBytes(e.child)
      && Area(p, w + Siblings(e.child), start, end) && p.Run(Siblings(e.child), from)
      && next == (stack[..n] + Parents(e.child))[..n] + Reversed((stack[..n] + Parents(e.child))[n..])
    ensures Progress(p, w + Siblings(stack[|stack| - 1].child), next, top, start, end)
  {
    hide Area, Layout.Run, TotalLen, Pending, BelowAll, Reversed, Distinct, Parents, Ids, Layout.ChildAt, Siblings,
      Below, Extends;
    var n := |stack| - 1;
    var e, rest := stack[n], stack[..n];
    var row := Parents(e.child);
    assert (rest + row)[..n] == rest && (rest + row)[n..] == row;
    PendingStep(w, stack, top);
    WaitingStep(l, p, w, stack, from);
    ChildrenStep(l, p, w, stack, from);
    TotalLenConcat(w, Siblings(e.child));
    RunExtends(l, p, Siblings(top), start);
    IdsConcat(w, Siblings(e.child));
    MemberId(w, e);
  }

  lemma NothingWaits(l: Layout, w: seq<Tree>, top: Tree, start: nat, end: nat, e: Tree)
    requires Progress(l, w, [], top, start, end) && e in w
    ensures e.Entry? && l.ChildAt(e)
  {
    hide Area, Layout.Run, Layout.ChildAt, TotalLen, Pending, Listing, Siblings, Waiting, Ids;
  }

  lemma ProgressMeans(l: Layout, w: seq<Tree>, top: Tree, start: nat, end: nat)
    requires Progress(l, w, [], top, start, end)
    ensures w == Listing(top) && end == start + TotalLen(w) && Area(l, w, start, end) && l.Run(Siblings(top), start)
  {
    hide Area, Layout.Run, Layout.ChildAt, TotalLen, Listing, Siblings, Waiting, Ids;
    NothingPending();
    hide Pending;
    assert w + [] == w;
  }

  lemma ProgressEnds(l: Layout, w: seq<Tree>, top: Tree, start: nat, end: nat)
    requires Progress(l, w, [], top, start, end)
    ensures w == Listing(top) && end == start + DirEstimate(top)
    ensures start % 4 == 0 ==> end % 4 == 0
    ensures Area(l, Listing(top), start, end) && l.Run(Siblings(top), start)
    ensures forall e :: e in Listing(top) ==> e.Entry? && l.ChildAt(e)
  {
    hide Progress, Area, Layout.Run, Layout.ChildAt, TotalLen, Listing, Siblings, DirEstimate;
    ProgressMeans(l, w, top, start, end);
    ListingBytes(top);
    forall e | e in w
      ensures e.Entry? && l.ChildAt(e)
    {
      NothingWaits(l, w, top, start, end, e);
    }
  }

  lemma ParentsStep(e: Tree)
    requires e.Entry?
    ensures Parents(e) == if e.child.Entry? then [e] + Parents(e.next) else Parents(e.next)
  {
  }

  lemma RowRegroup(w: seq<Tree>, done: seq<Tree>, e: Tree, more: seq<Tree>, stack: seq<Tree>, parents: seq<Tree>)
    ensures (w + done) + [e] == w + (done + [e])
    ensures (done + [e]) + more == done + ([e] + more)
    ensures (stack + [e]) + parents == stack + ([e] + parents)
  {
  }

  lemma RowStep(w: seq<Tree>, list: Tree, done: seq<Tree>, e: Tree, stack: seq<Tree>)
    requires e.Entry? && done + Siblings(e) == Siblings(list)
    ensures e in Siblings(list)
    ensures (w + done) + [e] == w + (done + [e])
    ensures (done + [e]) + Siblings(e.next) == Siblings(list)
    ensures (if e.child.Entry? then stack + [e] else stack) + Parents(e.next) == stack + Parents(e)
  {
    var here, more := Siblings(e), Siblings(e.next);
    assert here == [e] + more;
    hide Siblings, Parents;
    ParentsStep(e);
    RowRegroup(w, done, e, more, stack, Parents(e.next));
    assert (done + here)[|done|] == e;
  }

  lemma RowEnds(done: seq<Tree>, stack: seq<Tree>, e: Tree)
    requires e.Null?
    ensures done + Siblings(e) == done && stack + Parents(e) == stack
  {
  }

  lemma EmptyRun(l: Layout, at: nat)
    ensures l.Run([], at) && TotalLen([]) == 0
  {
  }

  lemma ExtendsOneMore(a: map<nat, nat>, b: map<nat, nat>, k: nat, v: nat)
    requires Extends(a, b) && k !in b
    ensures Extends(a, b[k := v]) && Extends(b, b[k := v])
  {
  }

  lemma IdsOneMore(s: seq<Tree>, e: Tree)
    requires e.Entry?
    ensures Ids(s + [e]) == Ids(s) + {e.id}
  {
    assert forall x :: x in s + [e] <==> x in s || x == e;
  }

  lemma SameOutsideWider(a: seq<byte>, b: seq<byte>, c: seq<byte>, from: nat, until: nat, low: nat, high: nat)
    requires SameOutside(a, b, from, until) && SameOutside(b, c, low, high) && from <= low && high <= until
    ensures SameOutside(a, c, from, until)
  {
  }

  /** The next entry of a listing is new, and there is room for it. */
  lemma NextEntry(w: seq<Tree>, list: Tree, done: seq<Tree>, e: Tree, start: nat)
    requires Distinct(w + Siblings(list)) && e.Entry? && done + Siblings(e) == Siblings(list)
    ensures e.id !in Ids(w + done) && e.id !in Ids(w)
    ensures TotalLen(done + [e]) == TotalLen(done) + Len(e) && TotalLen(done) + Len(e) <= DirBytes(list)
  {
    hide TotalLen, Len;
    var all, v := w + Siblings(list), w + done;
    assert all == v + Siblings(e);
    DistinctConcat(v, Siblings(e));
    assert e in Siblings(e);
    TotalLenConcat(done, [e]);
    TotalLenOne(e);
    assert Siblings(e) == [e] + Siblings(e.next);
    TotalLenConcat([e], Siblings(e.next));
    TotalLenConcat(done, Siblings(e));
  }

  lemma InodeInPlace(l: Layout, e: Tree)
    requires e.Entry? && |e.name| <= 252 && l.EntryAt(e)
    ensures l.places[e.id] + Len(e) <= |l.img| && Len(e) >= INODE_BYTES
    ensures l.img[l.places[e.id]..l.places[e.id] + INODE_BYTES] == InodeBytes(l.rom.order, InodeOf(e, l.OffsetOf(e)))
    ensures Holds(l.img, l.places[e.id] + INODE_BYTES, NameBytes(e))
  {
    hide InodeBytes, Holds;
    HoldsConcat(l.img, l.places[e.id], InodeBytes(l.rom.order, InodeOf(e, l.OffsetOf(e))), NameBytes(e));
    HoldsSlice(l.img, l.places[e.id], InodeBytes(l.rom.order, InodeOf(e, l.OffsetOf(e))));
    HoldsBound(l.img, l.places[e.id], EntryBytes(l.rom.order, e, l.OffsetOf(e)));
  }

  lemma OffsetReplaced(l: Layout, img: seq<byte>, e: Tree, x: nat, raw: seq<byte>, base: nat, end: nat)
    requires e.Entry? && |e.name| <= 252 && l.EntryAt(e) && x < 4 * OFFSET_LIMIT && x % 4 == 0
    requires l.places[e.id] + INODE_BYTES <= |l.img| && base <= l.places[e.id] && l.places[e.id] + Len(e) <= end
    requires raw == l.img[l.places[e.id]..l.places[e.id] + INODE_BYTES]
    requires img == Write(l.img, l.places[e.id], SetOffset(l.rom.order, raw, x))
    ensures SameOutside(l.img, img, l.places[e.id], l.places[e.id] + Len(e))
    ensures SameOutside(l.img, img, base, end)
    ensures Holds(img, l.places[e.id], EntryBytes(l.rom.order, e, x))
  {
    hide InodeBytes, Holds, SetOffset, Write, SameOutside, Kept, NameBytes;
    var at := l.places[e.id];
    InodeInPlace(l, e);
    var i := InodeOf(e, l.OffsetOf(e));
    OffsetIsSet(l.rom.order, i, x);
    assert i.(offset := x / 4) == InodeOf(e, x);
    var part := InodeBytes(l.rom.order, InodeOf(e, x));
    NothingChanged(l.img, at, at + Len(e));
    NothingChanged(l.img, base, end);
    WriteSameOutside(l.img, l.img, at, part, at, at + Len(e));
    WriteSameOutside(l.img, l.img, at, part, base, end);
    WriteHolds(l.img, at, part);
    WriteKeeps(l.img, at, part, at + INODE_BYTES, NameBytes(e));
    HoldsConcat(img, at, part, NameBytes(e));
  }

  lemma IdsOne(t: Tree)
    requires t.Entry?
    ensures Ids([t]) == {t.id}
  {
    assert t in [t];
  }

  lemma IdsApart(a: seq<Tree>, b: seq<Tree>)
    requires Distinct(a + b)
    ensures Ids(a) !! Ids(b)
  {
    DistinctConcat(a, b);
  }

  /** The parts of a preorder have no identity in common. */
  lemma PreorderSplits(t: Tree)
    requires t.Entry? && Distinct(Preorder(t)) && forall e :: e in Preorder(t) ==> e.Entry?
    ensures
      var a, b := Preorder(t.child), Preorder(t.next);
      && Distinct(a) && Distinct(b)
      && (forall e :: e in Preorder(t) <==> e == t || e in a || e in b)
      && Ids(Preorder(t)) == {t.id} + Ids(a) + Ids(b)
      && t.id !in Ids(a) && t.id !in Ids(b) && Ids(a) !! Ids(b)
      && (forall e :: e in a ==> e.Entry? && e.id in Ids(a)) && (forall e :: e in b ==> e.Entry? && e.id in Ids(b))
  {
    var a, b := Preorder(t.child), Preorder(t.next);
    assert Preorder(t) == [t] + a + b;
    hide Distinct, Ids, Preorder;
    DistinctConcat([t] + a, b);
    DistinctConcat([t], a);
    IdsConcat([t] + a, b);
    IdsConcat([t], a);
    IdsOne(t);
    IdsApart([t] + a, b);
    IdsApart([t], a);
    forall e | e in a
      ensures e.Entry? && e.id in Ids(a)
    {
      assert e in [t] + a + b;
      MemberId(a, e);
    }
    forall e | e in b
      ensures e.Entry? && e.id in Ids(b)
    {
      assert e in [t] + a + b;
      MemberId(b, e);
    }
  }

  /** A file to be placed has no children, and nothing placed before has its identity. */
  lemma NewFile(p: seq<Tree>, done: seq<Tree>, e: Tree, rest: seq<Tree>, w: seq<Tree>, l: Layout, base: nat, dirEnd: nat)
    requires Distinct(p) && p == done + [e] + rest && e.Entry? && e.data != [] && InArea(l, e, base, dirEnd)
    ensures e.child.Null? && forall x :: x in done ==> x.Entry? && x.id != e.id
  {
    hide Layout.EntryAt, DirBytes, Distinct;
    DistinctConcat(done + [e], rest);
    DistinctConcat(done, [e]);
    assert e in [e];
    forall x | x in done
      ensures x.Entry? && x.id != e.id
    {
      assert Differ(x, e);
    }
  }

  lemma FiledMember(l: Layout, offs: map<nat, nat>, d: seq<Tree>, e: Tree, dirEnd: nat, limit: nat)
    requires Filed(l, offs, d, dirEnd, limit) && e in d && e.Entry? && e.data != []
    ensures FiledOne(l, offs, e, dirEnd, limit)
  {
    hide FiledOne;
  }

  lemma NotFiled(l: Layout, offs: map<nat, nat>, d: seq<Tree>, e: Tree, dirEnd: nat, limit: nat)
    requires Filed(l, offs, d, dirEnd, limit) && e.Entry? && e.data == []
    ensures Filed(l, offs, d + [e], dirEnd, limit)
  {
    FiledMore(l, offs, d, e, dirEnd, limit);
  }

  lemma PreorderIs(e: Tree)
    ensures Preorder(e) == if e.Null? then [] else [e] + Preorder(e.child) + Preorder(e.next)
    ensures e.Entry? && e.child.Null? ==> Preorder(e.child) == []
  {
  }

  lemma Regroup(d: seq<Tree>, e: seq<Tree>, c: seq<Tree>, n: seq<Tree>, rest: seq<Tree>)
    ensures d + (e + c + n) + rest == d + e + (c + (n + rest))
    ensures d + (e + c + n) + rest == (d + e) + c + (n + rest)
    ensures d + (e + c + n) + rest == ((d + e) + c) + n + rest
    ensures d + (e + c + n) == ((d + e) + c) + n
  {
  }

  lemma NoAllowance(e: Tree)
    ensures e.Null? || e.data == [] ==> DataAllowance(e) == 0
  {
  }

  lemma PreorderParts(d: seq<Tree>, e: Tree, rest: seq<Tree>)
    requires e.Entry?
    ensures
      var c, n := Preorder(e.child), Preorder(e.next);
      && d + Preorder(e) + rest == d + [e] + (c + (n + rest))
      && d + Preorder(e) + rest == (d + [e]) + c + (n + rest)
      && d + Preorder(e) + rest == ((d + [e]) + c) + n + rest
      && d + Preorder(e) == ((d + [e]) + c) + n
      && |Preorder(e)| == 1 + |c| + |n|
      && (e.child.Null? ==> (d + [e]) + c == d + [e])
    ensures DataEstimate(e) == DataAllowance(e) + DataEstimate(e.child) + DataEstimate(e.next)
    ensures e.data == [] ==> DataAllowance(e) == 0
    ensures e.child.Null? ==> DataEstimate(e.child) == 0
  {
    PreorderIs(e);
    hide DataAllowance, Preorder;
    Regroup(d, [e], Preorder(e.child), Preorder(e.next), rest);
    NoAllowance(e);
  }

  lemma PreorderMembers(e: Tree)
    requires e.Entry?
    ensures e in Preorder(e)
    ensures forall x :: x in Preorder(e.child) || x in Preorder(e.next) ==> x in Preorder(e)
  {
    PreorderIs(e);
    hide Preorder;
  }

  lemma PreorderOfNull(d: seq<Tree>, rest: seq<Tree>)
    ensures d + Preorder(Null) == d
  {
  }

  lemma WriteNothing(img: seq<byte>, at: nat)
    requires at <= |img|
    ensures Write(img, at, []) == img
  {
  }

  lemma PadOneMore(img: seq<byte>, at: nat, padding: seq<byte>)
    requires at + |padding| + 1 <= |img|
    ensures Write(Write(img, at, padding), at + |padding|, [0]) == Write(img, at, padding + [0])
  {
  }

  lemma WriteAgain(img: seq<byte>, at: nat, part: seq<byte>)
    requires Holds(img, at, part)
    ensures Write(img, at, part) == img
  {
  }

  lemma EntryAssembled(o: Order, before: seq<byte>, first: seq<byte>, second: seq<byte>, third: seq<byte>, fourth: seq<byte>,
                       last: seq<byte>, at: nat, e: Tree, raw: seq<byte>, padding: seq<byte>)
    requires Storable(e) && at + Len(e) <= |before| && |raw| == INODE_BYTES
    requires padding == Zeros(RoundUp4(|e.name|) - |e.name|)
    requires first == Write(before, at, raw)
    requires second == Write(first, at + INODE_BYTES, e.name)
    requires third == Write(second, at + INODE_BYTES + |e.name|, padding)
    requires fourth == Write(third, at, Native(InodeOf(e, 0)))
    requires last == Write(fourth, at, InodeBytes(o, InodeOf(e, 0)))
    ensures SameOutside(before, last, at, at + Len(e))
    ensures Holds(last, at, EntryBytes(o, e, 0))
  {
    hide InodeBytes, Native, Holds, Write, SameOutside, InodeOf, Sized;
    var a, n := at + INODE_BYTES, at + INODE_BYTES + |e.name|;
    var i := InodeBytes(o, InodeOf(e, 0));
    NothingChanged(before, at, at + Len(e));
    WriteSameOutside(before, before, at, raw, at, at + Len(e));
    WriteSameOutside(before, first, a, e.name, at, at + Len(e));
    WriteSameOutside(before, second, n, padding, at, at + Len(e));
    WriteSameOutside(before, third, at, Native(InodeOf(e, 0)), at, at + Len(e));
    WriteSameOutside(before, fourth, at, i, at, at + Len(e));
    WriteHolds(first, a, e.name);
    WriteKeeps(second, n, padding, a, e.name);
    WriteHolds(second, n, padding);
    HoldsConcat(third, a, e.name, padding);
    WriteKeeps(third, at, Native(InodeOf(e, 0)), a, NameBytes(e));
    WriteKeeps(fourth, at, i, a, NameBytes(e));
    WriteHolds(fourth, at, i);
    HoldsConcat(last, at, i, NameBytes(e));
  }

  class Builder {
    const rom: Rom
    const image: array<byte>
    var dirOffset: map<nat, nat>         // entry->dir_offset
    var offset: map<nat, nat>            // entry->offset
    var same: map<nat, Tree>             // entry->same
    ghost var inodeOffset: map<nat, nat> // the offsets stored in inodes so far

    constructor (rom: Rom, length: nat)
      ensures this.rom == rom && fresh(image) && image[..] == Zeros(length)
      ensures dirOffset == map[] && offset == map[] && same == map[] && inodeOffset == map[]
    {
      this.rom := rom;
      image := new byte[length](_ => 0);
      dirOffset, offset, same, inodeOffset := map[], map[], map[], map[];
      new;
      assert image[..] == Zeros(length);
    }

    ghost function L(): Layout
      reads this, image
    {
      Layout(rom, image[..], dirOffset, inodeOffset)
    }

    /** The body of the inner loop of write_directory_structure: one inode, its name, the padding. */
    method PutEntry(e: Tree, at: nat)
      requires Storable(e) && at + Len(e) <= image.Length
      modifies image
      ensures SameOutside(old(image[..]), image[..], at, at + Len(e))
      ensures Holds(image[..], at, EntryBytes(rom.order, e, 0))
    {
      hide Native, Foreign, FixInode, Holds, Write, SameOutside, Sized, Inode.Fits;
      ghost var before := image[..];
      var s := Kept(e.stat);
      var len := |e.name|;
      Store(image, at, Native(Inode(s.mode, s.uid, s.gid, s.size, 0, 0)));
      ghost var first := image[..];
      Store(image, at + INODE_BYTES, e.name);
      ghost var second := image[..];
      ghost var padding: seq<byte> := [];
      assert Write(second, at + INODE_BYTES + |e.name|, []) == second by { WriteNothing(second, at + INODE_BYTES + |e.name|); }
      while len % 4 != 0
        invariant |e.name| <= len <= RoundUp4(|e.name|)
        invariant padding == Zeros(len - |e.name|)
        invariant image[..] == Write(second, at + INODE_BYTES + |e.name|, padding)
        decreases 4 * RoundUp4(|e.name|) - len
      {
        PadOneMore(second, at + INODE_BYTES + |e.name|, padding);
        Store(image, at + INODE_BYTES + len, [0]);
        padding := padding + [0];
        len := len + 1;
      }
      ghost var third := image[..];
      var i := InodeOf(e, 0);
      assert i.namelen == len / 4;
      Store(image, at, Native(Inode(s.mode, s.uid, s.gid, s.size, len / 4, 0)));
      ghost var fourth := image[..];
      WriteHolds(third, at, Native(i));
      HoldsSlice(fourth, at, Native(i));
      FixedInode(i);
      if rom.order.BigEndian? {
        Store(image, at, FixInode(image[at..at + INODE_BYTES]));
      } else {
        WriteAgain(fourth, at, Native(i));
      }
      EntryAssembled(rom.order, before, first, second, third, fourth, image[..], at, e,
        Native(Inode(s.mode, s.uid, s.gid, s.size, 0, 0)), padding);
    }

    /** set_data_offset */
    method SetDataOffset(e: Tree, x: nat, ghost w: seq<Tree>, ghost base: nat, ghost end: nat) returns (ok: bool)
      requires Area(L(), w, base, end) && Distinct(w) && e.Entry? && e in w
      modifies image, `inodeOffset
      ensures ok <==> x % 4 == 0 && x < 4 * OFFSET_LIMIT
      ensures !ok ==> image[..] == old(image[..]) && inodeOffset == old(inodeOffset)
      ensures ok ==> Area(L(), w, base, end) && inodeOffset == old(inodeOffset)[e.id := x]
      ensures ok ==> SameOutside(old(image[..]), image[..], base, end)
    {
      hide Holds, Write, SameOutside, SetOffset, InodeBytes, InArea, Area, EntryBytes, Len;
      if x % 4 != 0 || x >= 4 * OFFSET_LIMIT {
        return false;
      }
      ghost var l, before := L(), image[..];
      AreaMember(l, w, base, end, e);
      InAreaMeans(l, e, base, end);
      var at := dirOffset[e.id];
      InodeInPlace(l, e);
      var raw := image[at..at + INODE_BYTES];
      Store(image, at, SetOffset(rom.order, raw, x));
      OffsetReplaced(l, image[..], e, x, raw, base, end);
      inodeOffset := inodeOffset[e.id := x];
      OffsetArrives(l, image[..], w, base, end, e, x);
      return true;
    }

    /** The inner loop of write_directory_structure: one listing, its directories pushed. */
    method WriteListing(list: Tree, start: nat, pushed: seq<Tree>, ghost w: seq<Tree>, ghost base: nat)
      returns (end: nat, stack: seq<Tree>)
      requires Area(L(), w, base, start) && base <= start && Distinct(w + Siblings(list))
      requires dirOffset.Keys == Ids(w) && inodeOffset.Keys <= Ids(w)
      requires forall e :: e in Siblings(list) ==> Storable(e)
      requires start + DirBytes(list) <= image.Length
      modifies image, `dirOffset
      ensures end == start + DirBytes(list) && stack == pushed + Parents(list)
      ensures Area(L(), w + Siblings(list), base, end) && L().Run(Siblings(list), start)
      ensures dirOffset.Keys == Ids(w + Siblings(list)) && Extends(old(dirOffset), dirOffset)
      ensures SameOutside(old(image[..]), image[..], start, end)
    {
      hide Holds, Write, SameOutside, Storable, InArea, Area, EntryBytes, Len, TotalLen, Layout.Run, Distinct, Ids,
        Extends, Siblings, Parents;
      var entry := list;
      end, stack := start, pushed;
      ghost var done: seq<Tree> := [];
      assert w + done == w && done + Siblings(list) == Siblings(list);
      EmptyRun(L(), start);
      NothingChanged(image[..], start, start + DirBytes(list));
      ExtendsItself(dirOffset);
      while entry.Entry?
        invariant done + Siblings(entry) == Siblings(list)
        invariant end == start + TotalLen(done) && stack + Parents(entry) == pushed + Parents(list)
        invariant Area(L(), w + done, base, end) && L().Run(done, start)
        invariant dirOffset.Keys == Ids(w + done) && Extends(old(dirOffset), dirOffset)
        invariant SameOutside(old(image[..]), image[..], start, start + DirBytes(list))
        decreases entry
      {
        ghost var l := L();
        RowStep(w, list, done, entry, stack);
        NextEntry(w, list, done, entry, start);
        PutEntry(entry, end);
        ghost var mid := l.(img := image[..]);
        dirOffset := dirOffset[entry.id := end];
        SameOutsideWider(old(image[..]), l.img, image[..], start, start + DirBytes(list), end, end + Len(entry));
        EntryArrives(l, image[..], w + done, base, end, entry);
        ExtendsOneMore(old(dirOffset), l.places, entry.id, end);
        RunOneMore(l, L(), done, entry, start);
        IdsOneMore(w + done, entry);
        end := end + Len(entry);
        if entry.child.Entry? {
          stack := stack + [entry];
        }
        done := done + [entry];
        entry := entry.next;
      }
      RowEnds(done, stack, entry);
    }

    /** write_directory_structure: listing after listing, the directories of each listing on a stack, reversed in
        place, each popped directory's inode patched with the place of its own listing. */
    method WriteDirectoryStructure(top: Tree, start: nat) returns (ok: bool, end: nat)
      requires dirOffset == map[] && inodeOffset == map[] && start % 4 == 0
      requires Distinct(Listing(top)) && forall e :: e in Listing(top) ==> Storable(e)
      requires start + DirEstimate(top) <= image.Length
      modifies image, `dirOffset, `inodeOffset
      ensures !ok ==> 4 * OFFSET_LIMIT <= start + DirEstimate(top)
      ensures !ok ==> exists e :: e in Listing(top) && e.Entry? && e.child.Entry?
      ensures SameOutside(old(image[..]), image[..], start, start + DirEstimate(top))
      ensures ok ==> end == start + DirEstimate(top) && Area(L(), Listing(top), start, end)
      ensures ok ==> end % 4 == 0 && L().Run(Siblings(top), start)
      ensures ok ==> forall e :: e in Listing(top) ==> e.Entry? && L().ChildAt(e)
    {
      hide Holds, Write, SameOutside, Storable, InArea, Area, EntryBytes, Len, TotalLen, Layout.Run, Distinct, Ids,
        Extends, Layout.ChildAt, Siblings, Listing, Below, BelowAll, Pending, Parents, Reversed, DirBytes, Progress,
        DirEstimate;
      ghost var limit, w := start + DirEstimate(top), Siblings(top);
      FirstListing(L(), top, start);
      var stack: seq<Tree>;
      end, stack := WriteListing(top, start, [], [], start);
      stack := ReverseRow(stack, 0);
      ProgressStarts(L(), top, stack, start, end);
      SameOutsideMore(old(image[..]), image[..], start, end, limit);
      while stack != []
        invariant Progress(L(), w, stack, top, start, end)
        invariant SameOutside(old(image[..]), image[..], start, limit)
        decreases |Listing(top)| - |w|
      {
        ghost var l, all := L(), stack;
        var n := |stack| - 1;
        var entry := stack[n];
        stack := stack[..n];
        NextListing(l, w, all, top, start, end);
        ok := SetDataOffset(entry, end, w, start, end);
        if !ok {
          return;
        }
        ghost var before, from := image[..], end;
        SameOutsideWider(old(image[..]), l.img, before, start, limit, start, end);
        end, stack := WriteListing(entry.child, end, stack, w, start);
        stack := ReverseRow(stack, n);
        SameOutsideWider(old(image[..]), before, image[..], start, limit, from, end);
        ProgressStep(l, L(), w, all, stack, top, start, from, end);
        w := w + Siblings(entry.child);
      }
      ok := true;
      ProgressEnds(L(), w, top, start, end);
    }

    /** find_identical_file */
    method FindIdentical(orig: Tree, newfile: Tree) returns (found: bool)
      requires newfile.Entry? && newfile.data != [] && newfile.stat.size == |newfile.data|
      requires forall e :: e in Preorder(orig) && e.Entry? && e.data != [] ==> e.stat.size == |e.data|
      modifies `same
      ensures
        var r := Find(Preorder(orig), newfile);
        && found == r.Some?
        && same == if r.Some? && r.value.Entry? && r.value.id != newfile.id
                   then old(same)[newfile.id := r.value] else old(same)
    {
      if orig.Null? {
        return false;
      }
      var rest := Preorder(orig.child) + Preorder(orig.next);
      assert Preorder(orig) == [orig] + rest && Preorder(orig)[1..] == rest;
      FindConcat(Preorder(orig.child), Preorder(orig.next), newfile);
      if orig.id == newfile.id {
        return true;
      }
      if orig.stat.size == newfile.stat.size && orig.data != [] {
        if orig.data == newfile.data {
          same := same[newfile.id := orig];
          return true;
        }
      }
      found := FindIdentical(orig.child, newfile);
      if !found {
        found := FindIdentical(orig.next, newfile);
      }
    }

    /** eliminate_doubles */
    method EliminateDoubles(root: Tree, orig: Tree)
      requires Distinct(Preorder(orig)) && forall e :: e in Preorder(orig) ==> e in Preorder(root) && e.Entry? && e.id !in same
      requires forall e :: e in Preorder(root) && e.Entry? && e.data != [] ==> e.stat.size == |e.data|
      modifies `same
      ensures forall e :: e in Preorder(orig) && e.data != [] ==> Linked(same, Preorder(root), e)
      ensures forall k :: k !in Ids(Preorder(orig)) ==>
        (k in same <==> k in old(same)) && (k in same ==> same[k] == old(same)[k])
      decreases orig
    {
      hide Find, Ids, Distinct;
      if orig.Entry? {
        var p, a, b := Preorder(root), Preorder(orig.child), Preorder(orig.next);
        PreorderSplits(orig);
        if orig.stat.size > 0 && orig.data != [] {
          FindSome(p, orig, orig);
          var found := FindIdentical(root, orig);
        }
        label Linked:
        EliminateDoubles(root, orig.child);
        EliminateDoubles(root, orig.next);
      }
    }

    /** The state of write_data: the directory area is whole, the files of `done` are in place, every file to come
        has its link. */
    ghost predicate Ready(p: seq<Tree>, done: seq<Tree>, w: seq<Tree>, base: nat, dirEnd: nat, limit: nat)
      reads this, image
    {
      && Area(L(), w, base, dirEnd) && Distinct(w) && Distinct(p) && dirEnd <= limit <= image.Length
      && (forall e :: e in w ==> e.Entry? && L().ChildAt(e))
      && (forall e :: e in p && e.Entry? && e.data != [] ==> e in w && Linked(same, p, e))
      && Filed(L(), offset, done, dirEnd, limit) && limit == DataEnd(rom, dirEnd, done)
    }

    /** One file or link in write_data: at the place of its first copy, or compressed behind what is there. */
    method PlaceFile(e: Tree, start: nat, ghost p: seq<Tree>, ghost done: seq<Tree>, ghost rest: seq<Tree>,
                     ghost w: seq<Tree>, ghost base: nat, ghost dirEnd: nat)
      returns (ok: bool, end: nat)
      requires rom.Sound() && e.Entry? && e.data != [] && p == done + [e] + rest
      requires Ready(p, done, w, base, dirEnd, start) && start % 4 == 0
      requires start + DataAllowance(e) <= image.Length
      modifies image, `inodeOffset, `offset
      ensures e.child.Null?
      ensures !ok ==> 4 * OFFSET_LIMIT <= start + DataAllowance(e)
      ensures ok ==> end % 4 == 0 && start <= end <= start + DataAllowance(e)
      ensures ok ==> Ready(p, done + [e], w, base, dirEnd, end)
      ensures ok ==> SameOutside(old(image[..]), image[..], base, end)
    {
      hide SameOutside, Area, Distinct, Filed, FiledOne, Layout.ChildAt, FileAt, FileEnd, Linked, Find, Rom.Sound,
        Stored, DataEnd;
      assert e in p;
      DataEndMore(rom, dirEnd, done, e);
      StoredIsMember(done, e.data);
      AreaMember(L(), w, base, dirEnd, e);
      InAreaMeans(L(), e, base, dirEnd);
      NewFile(p, done, e, rest, w, L(), base, dirEnd);
      LinkedToFirst(same, p, done, e, rest);
      end := start;
      if e.id in same {
        FiledMember(L(), offset, done, same[e.id], dirEnd, start);
        ok := ShareCopy(e, same[e.id], start, done, w, base, dirEnd);
      } else {
        ok, end := StoreFile(e, start, done, w, base, dirEnd);
      }
    }

    /** The first branch: the offset of the first copy. */
    method ShareCopy(e: Tree, r: Tree, limit: nat, ghost done: seq<Tree>, ghost w: seq<Tree>, ghost base: nat, ghost dirEnd: nat)
      returns (ok: bool)
      requires Area(L(), w, base, dirEnd) && Distinct(w) && e.Entry? && e in w && e.child.Null? && dirEnd <= limit
      requires forall x :: x in done ==> x.Entry? && x.id != e.id
      requires forall f :: f in w ==> f.Entry? && L().ChildAt(f)
      requires Filed(L(), offset, done, dirEnd, limit)
      requires r.Entry? && r.data == e.data != [] && r in done && FiledOne(L(), offset, r, dirEnd, limit)
      modifies image, `inodeOffset, `offset
      ensures ok && Area(L(), w, base, dirEnd) && Filed(L(), offset, done + [e], dirEnd, limit)
      ensures forall f :: f in w ==> f.Entry? && L().ChildAt(f)
      ensures SameOutside(old(image[..]), image[..], base, limit)
    {
      hide SameOutside, Area, Distinct, Filed, Layout.ChildAt, FileAt, FileEnd;
      ghost var l, offs := L(), offset;
      ok := SetDataOffset(e, offset[r.id], w, base, dirEnd);
      offset := offset[e.id := offset[r.id]];
      FiledKept(l, L(), offs, offset, done, base, dirEnd, dirEnd, limit, limit);
      FiledMember(L(), offset, done, r, dirEnd, limit);
      SameOutsideMore(l.img, image[..], base, dirEnd, limit);
      assert L() == l.(img := image[..], offsets := l.offsets[e.id := offset[e.id]]);
      ChildrenKept(l, L(), w, e, offset[e.id]);
      FiledMore(L(), offset, done, e, dirEnd, limit);
    }

    /** The second branch: the file compressed behind what is there. */
    method StoreFile(e: Tree, start: nat, ghost done: seq<Tree>, ghost w: seq<Tree>, ghost base: nat, ghost dirEnd: nat)
      returns (ok: bool, end: nat)
      requires rom.Sound() && Area(L(), w, base, dirEnd) && Distinct(w) && e.Entry? && e in w && e.child.Null? && e.data != []
      requires forall x :: x in done ==> x.Entry? && x.id != e.id
      requires forall f :: f in w ==> f.Entry? && L().ChildAt(f)
      requires Filed(L(), offset, done, dirEnd, start) && base <= dirEnd <= start && start % 4 == 0
      requires start + DataAllowance(e) <= image.Length
      modifies image, `inodeOffset, `offset
      ensures !ok ==> 4 * OFFSET_LIMIT <= start
      ensures ok ==> end % 4 == 0 && start <= end <= start + DataAllowance(e) && end == FileEnd(rom, start, e.data)
      ensures ok ==> Area(L(), w, base, dirEnd) && Filed(L(), offset, done + [e], dirEnd, end)
      ensures ok ==> forall f :: f in w ==> f.Entry? && L().ChildAt(f)
      ensures ok ==> SameOutside(old(image[..]), image[..], base, end)
    {
      hide SameOutside, Area, Distinct, Filed, Layout.ChildAt, FileAt, FileEnd, Rom.Sound;
      ghost var l, offs := L(), offset;
      end := start;
      ok := SetDataOffset(e, start, w, base, dirEnd);
      if !ok {
        return;
      }
      offset := offset[e.id := start];
      ghost var mid := L();
      FileEndBound(rom, start, e.data);
      end := DoCompress(rom, image, start, e.data);
      AreaKept(mid, image[..], w, base, dirEnd, start, end);
      FiledKept(l, mid, offs, offset, done, base, dirEnd, dirEnd, start, start);
      FiledKept(mid, L(), offset, offset, done, start, end, dirEnd, start, end);
      SameOutsideMore(l.img, mid.img, base, dirEnd, end);
      SameOutsideWider(l.img, mid.img, image[..], base, end, start, end);
      assert L() == l.(img := image[..], offsets := l.offsets[e.id := start]);
      ChildrenKept(l, L(), w, e, start);
      FiledMore(L(), offset, done, e, dirEnd, end);
    }

    /** write_data: files in place, directories visited, siblings in turn. */
    method WriteData(t: Tree, start: nat, ghost p: seq<Tree>, ghost done: seq<Tree>, ghost rest: seq<Tree>,
                     ghost w: seq<Tree>, ghost base: nat, ghost dirEnd: nat)
      returns (ok: bool, end: nat)
      requires rom.Sound() && t.Entry? && p == done + Preorder(t) + rest
      requires Ready(p, done, w, base, dirEnd, start) && start % 4 == 0
      requires start + DataEstimate(t) <= image.Length
      modifies image, `inodeOffset, `offset
      ensures !ok ==> 4 * OFFSET_LIMIT <= start + DataEstimate(t)
      ensures !ok ==> exists e :: e in Preorder(t) && e.Entry? && e.data != []
      ensures ok ==> end % 4 == 0 && start <= end <= start + DataEstimate(t)
      ensures ok ==> Ready(p, done + Preorder(t), w, base, dirEnd, end)
      ensures ok ==> SameOutside(old(image[..]), image[..], base, end)
      decreases |Preorder(t)|
    {
      hide SameOutside, Area, Distinct, Filed, Layout.ChildAt, Linked, Rom.Sound, Preorder, DataEstimate,
        DataAllowance, Ready;
      var entry := t;
      ok, end := true, start;
      ghost var d := done;
      NothingChanged(image[..], base, end);
      while entry.Entry?
        invariant p == d + Preorder(entry) + rest && d + Preorder(entry) == done + Preorder(t)
        invariant Ready(p, d, w, base, dirEnd, end) && end % 4 == 0 && start <= end
        invariant end + DataEstimate(entry) <= start + DataEstimate(t)
        invariant |Preorder(entry)| <= |Preorder(t)| && forall e :: e in Preorder(entry) ==> e in Preorder(t)
        invariant SameOutside(old(image[..]), image[..], base, end)
        decreases entry
      {
        ghost var before, from, rest' := image[..], end, Preorder(entry.next) + rest;
        PreorderParts(d, entry, rest);
        PreorderMembers(entry);
        if entry.data != [] {
          ok, end := PlaceFile(entry, end, p, d, Preorder(entry.child) + rest', w, base, dirEnd);
          if !ok {
            return;
          }
          d := d + [entry];
        } else {
          d := d + [entry];
          assert d[..|d| - 1] + [entry] == d;
          ReadyStep(p, d, entry, w, base, dirEnd, end);
          if entry.child.Entry? {
            ok, end := WriteData(entry.child, end, p, d, rest', w, base, dirEnd);
            if !ok {
              return;
            }
            d := d + Preorder(entry.child);
          }
        }
        SameOutsideMore(old(image[..]), before, base, from, end);
        NothingChanged(before, base, end);
        SameOutsideWider(old(image[..]), before, image[..], base, end, base, end);
        entry := entry.next;
      }
      PreorderOfNull(d, rest);
    }

    lemma ReadyStep(p: seq<Tree>, d: seq<Tree>, e: Tree, w: seq<Tree>, base: nat, dirEnd: nat, limit: nat)
      requires d != [] && d[|d| - 1] == e && e.Entry? && e.data == [] && Ready(p, d[..|d| - 1], w, base, dirEnd, limit)
      ensures Ready(p, d, w, base, dirEnd, limit)
    {
      hide Area, Distinct, Filed, Layout.ChildAt, Linked, DataEnd;
      DataEndMore(rom, dirEnd, d[..|d| - 1], e);
      NotFiled(L(), offset, d[..|d| - 1], e, dirEnd, limit);
      assert d[..|d| - 1] + [e] == d;
    }

    /** The swaps of write_directory_structure: the entries pushed since `from`, turned round in place. */
    static method ReverseRow(stack: seq<Tree>, from: nat) returns (r: seq<Tree>)
      requires from <= |stack|
      ensures r == stack[..from] + Reversed(stack[from..])
    {
      r := stack;
      var lo, hi := from, |stack| - 1;
      while lo < hi
        invariant |r| == |stack| && from <= lo <= hi + 2 && hi - from == |stack| - 1 - lo
        invariant forall k :: 0 <= k < |r| ==> r[k] == stack[Turned(|stack|, from, lo, hi, k)]
      {
        var tmp := r[lo];
        r := r[lo := r[hi]];
        r := r[hi := tmp];
        lo, hi := lo + 1, hi - 1;
      }
      forall k | from <= k < |r|
        ensures r[k] == Reversed(stack[from..])[k - from]
      {
        assert Turned(|stack|, from, lo, hi, k) == |stack| - 1 - (k - from);
      }
      assert r == stack[..from] + Reversed(stack[from..]);
    }
  }
}
