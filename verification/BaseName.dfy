/** The base name of a source path: basename_r, a recursive descent over a shared buffer and cursor, against the
    stack of path elements it stands for. */
module BaseName {
  import opened Wrappers

  // ---- the elements of a path ----

  function SkipSlashes(t: string): (r: string)
    ensures |r| <= |t| && (r == [] || r[0] != '/')
  {
    if t != [] && t[0] == '/' then SkipSlashes(t[1..]) else t
  }

  /** Characters up to the next slash. */
  function WordLen(t: string): (n: nat)
    ensures n <= |t| && (n == |t| || t[n] == '/') && (t != [] && t[0] != '/' ==> n > 0)
    ensures forall i :: 0 <= i < n ==> t[i] != '/'
  {
    if t == [] || t[0] == '/' then 0 else 1 + WordLen(t[1..])
  }

  function Words(t: string): seq<string>
    requires t == [] || t[0] != '/'
    decreases |t|
  {
    if t == [] then [] else [t[..WordLen(t)]] + Words(SkipSlashes(t[WordLen(t)..]))
  }

  /** The elements of a path: a leading slash is one of its own. */
  function Elements(t: string): seq<string> {
    if t != [] && t[0] == '/' then ["/"] + Words(SkipSlashes(t)) else Words(t)
  }

  // ---- the stack of elements ----

  datatype Outcome = Nothing | Underflow | Name(word: string)

  function Top(stack: seq<string>): Outcome {
    if stack == [] then Nothing else Name(stack[|stack| - 1])
  }

  /** "." is dropped, ".." takes the last element away, and the end leaves the last element. */
  function Machine(list: seq<string>, stack: seq<string>): Outcome {
    if list == [] then Top(stack)
    else if list[0] == "." then Machine(list[1..], stack)
    else if list[0] == ".." then if stack == [] then Underflow else Machine(list[1..], stack[..|stack| - 1])
    else Machine(list[1..], stack + [list[0]])
  }

  // ---- the recursive descent on elements ----

  /** One call of basename_r: what it returns, and the elements it leaves for its caller. */
  function Scan(list: seq<string>): (r: (Outcome, seq<string>))
    ensures |r.1| <= |list| && (r.0.Underflow? ==> |r.1| < |list|) && (r.0.Nothing? ==> r.1 == [])
    ensures r.0 != Name("..")
    decreases |list|
  {
    if list == [] then (Nothing, [])
    else if list[0] == "." then Scan(list[1..])
    else if list[0] == ".." then (Underflow, list[1..])
    else
      var (o, rest) := Scan(list[1..]);
      if o.Nothing? then (Name(list[0]), rest)
      else if o.Underflow? then Scan(rest)
      else (o, rest)
  }

  /** What a call means for the elements before it. */
  lemma {:induction false} ScanIsMachine(list: seq<string>, stack: seq<string>)
    ensures
      var (o, rest) := Scan(list);
      Machine(list, stack) ==
        if o.Nothing? then Top(stack)
        else if o.Underflow? then if stack == [] then Underflow else Machine(rest, stack[..|stack| - 1])
        else o
    decreases |list|
  {
    if list == [] {
    } else {
      if list[0] == "." {
        ScanIsMachine(list[1..], stack);
      } else if list[0] != ".." {
        var more := stack + [list[0]];
        assert more[..|more| - 1] == stack;
        ScanIsMachine(list[1..], more);
        var (o, rest) := Scan(list[1..]);
        if o.Underflow? {
          ScanIsMachine(rest, stack);
        }
      }
    }
  }

  /** The descent finds the top of the stack of elements: nothing when the stack ends empty, ".." exactly when the path
      climbs above its start. */
  lemma ScanFindsTop(list: seq<string>)
    ensures Scan(list).0 == Machine(list, [])
  {
    ScanIsMachine(list, []);
  }

  // ---- the program ----

  /** The buffer holds the string w at p. */
  predicate StringAt(buf: seq<char>, p: nat, w: string) {
    p + |w| < |buf| && buf[p..p + |w|] == w && buf[p + |w|] == '\0' && '\0' !in w
  }

  /** The pointer returned for an outcome: null for none, else a string in the buffer. */
  predicate Answers(o: Outcome, r: Option<nat>, buf: seq<char>) {
    match o
    case Nothing => r.None?
    case Underflow => r.Some? && StringAt(buf, r.value, "..")
    case Name(word) => r.Some? && StringAt(buf, r.value, word)
  }

  /** strncmp(s, literal, n) == 0 */
  predicate StrnEqual(s: seq<char>, literal: string, n: nat)
    requires |s| >= n
    decreases n
  {
    if n == 0 then true
    else
      var c := if literal == [] then '\0' else literal[0];
      s[0] == c && (c == '\0' || StrnEqual(s[1..], literal[1..], n - 1))
  }

  lemma StrnDots(s: seq<char>, n: nat)
    requires 0 < n <= |s| && '\0' !in s[..n]
    ensures StrnEqual(s, ".", n) <==> s[..n] == "."
    ensures s[..n] != "." ==> (StrnEqual(s, "..", n) <==> s[..n] == "..")
  {
    assert s[0] == s[..n][0] && s[0] != '\0';
    if n > 1 {
      assert s[1] == s[..n][1] && s[1..][0] == s[1];
      if n > 2 {
        assert s[2] == s[..n][2] && s[1..][1..][0] == s[2];
      }
    }
    assert n == 1 ==> s[..n] == [s[0]];
    assert n == 2 ==> s[..n] == [s[0], s[1]];
  }

  lemma NotDots(list: seq<string>)
    ensures Scan(list).0 != Name("..")
  {
  }

  /** Nothing changes but the part read, from `from` to `until`. */
  ghost predicate SameBut(a: seq<char>, b: seq<char>, from: nat, until: nat) {
    |a| == |b| && forall i :: 0 <= i < |a| && (i < from || until <= i) ==> a[i] == b[i]
  }

  lemma SameAsIs(a: seq<char>, at: nat)
    ensures SameBut(a, a, at, at)
  {
  }

  lemma SameWider(a: seq<char>, b: seq<char>, c: seq<char>, from: nat, mid: nat, low: nat, until: nat)
    requires SameBut(a, b, from, mid) && (SameBut(b, c, low, until) || b == c) && from <= low && mid <= until
    ensures SameBut(a, c, from, until)
  {
  }

  lemma KeptBelow(a: seq<char>, b: seq<char>, s: nat, n: nat, from: nat, until: nat)
    requires SameBut(a, b, from, until) && s + n <= from <= |a|
    ensures |b| == |a| && a[s..s + n] == b[s..s + n]
  {
  }

  /** strcmp(s, literal) == 0 */
  predicate StrEqual(s: seq<char>, literal: string)
    decreases |s|
  {
    s != [] && if literal == [] then s[0] == '\0' else s[0] == literal[0] && StrEqual(s[1..], literal[1..])
  }

  lemma {:induction false} StringIs(buf: seq<char>, p: nat, w: string, literal: string)
    requires StringAt(buf, p, w) && '\0' !in literal
    ensures p + |w| < |buf|
    ensures StrEqual(buf[p..], literal) <==> w == literal
    decreases |w|
  {
    if w != [] {
      assert buf[p..p + |w|][0] == buf[p] == w[0];
      assert buf[p..][1..] == buf[p + 1..];
      if literal != [] && w[0] == literal[0] {
        assert buf[p + 1..p + 1 + |w[1..]|] == w[1..];
        assert '\0' !in w[1..] && '\0' !in literal[1..];
        StringIs(buf, p + 1, w[1..], literal[1..]);
        assert w == [w[0]] + w[1..] && literal == [literal[0]] + literal[1..];
      }
    } else {
      assert buf[p..][0] == '\0';
    }
  }

  lemma FirstElement(text: string, n: nat, m: nat, k: nat)
    requires text != [] && m <= k <= |text| && n <= |text| && (k == |text| || text[k] != '/')
    requires SkipSlashes(text[m..]) == text[k..]
    requires if text[0] == '/' then n == 1 && m == 0 else n == m == WordLen(text)
    ensures n > 0 && Elements(text) == [text[..n]] + Elements(text[k..])
  {
    if text[0] == '/' {
      assert text[0..] == text;
      assert text[..1] == "/";
    }
  }

  lemma ScanOne(w: string, rest: seq<string>)
    ensures
      var (o, left) := Scan(rest);
      Scan([w] + rest) ==
        if w == "." then Scan(rest)
        else if w == ".." then (Underflow, rest)
        else if o.Nothing? then (Name(w), [])
        else if o.Underflow? then Scan(left)
        else (o, left)
    ensures Scan(rest).0 != Name("..")
  {
    assert ([w] + rest)[1..] == rest;
  }

  /** A call that finds nothing has read everything. */
  lemma NothingLeft(rest: string, text: string)
    ensures Scan(Elements(rest)).0.Nothing? && Elements(text) == Scan(Elements(rest)).1 ==> text == []
  {
    if text != [] {
      assert Elements(text) != [];
    }
  }

  lemma NoElements()
    ensures Elements([]) == [] && Scan([]) == (Nothing, [])
  {
  }

  lemma {:induction false} WordEnds(t: string, n: nat)
    requires n <= |t| && (forall i :: 0 <= i < n ==> t[i] != '/') && (n == |t| || t[n] == '/')
    ensures WordLen(t) == n
    decreases n
  {
    if n == 0 {
    } else {
      WordEnds(t[1..], n - 1);
    }
  }

  lemma {:induction false} SlashesEnd(t: string, m: nat, k: nat)
    requires m <= k <= |t| && (forall i :: m <= i < k ==> t[i] == '/') && (k == |t| || t[k] != '/')
    ensures SkipSlashes(t[m..]) == t[k..]
    decreases k - m
  {
    if m >= k {
    } else {
      assert t[m..][1..] == t[m + 1..];
      SlashesEnd(t, m + 1, k);
    }
  }

  class Path {
    const buffer: array<char>
    var name: nat

    constructor (buffer: array<char>)
      ensures this.buffer == buffer && name == 0
    {
      this.buffer := buffer;
      name := 0;
    }

    /** The cursor stands in a string that ends at `end`. */
    ghost predicate Within(end: nat)
      reads this, buffer
    {
      name <= end < buffer.Length && buffer[end] == '\0' && forall i :: name <= i < end ==> buffer[i] != '\0'
    }

    ghost function Text(end: nat): string
      requires Within(end)
      reads this, buffer
    {
      buffer[name..end]
    }

    /** The first inner loop: up to the end of a word. */
    method PassWord(ghost end: nat)
      requires Within(end)
      modifies `name
      ensures Within(end) && name == old(name) + WordLen(old(Text(end)))
      ensures Text(end) == old(Text(end))[WordLen(old(Text(end)))..]
    {
      hide WordLen;
      ghost var s, text := name, Text(end);
      while buffer[name] != '\0' && buffer[name] != '/'
        invariant s <= name <= end
        invariant forall i :: 0 <= i < name - s ==> text[i] != '/'
        decreases end - name
      {
        assert text[name - s] == buffer[name];
        name := name + 1;
      }
      assert name < end ==> text[name - s] == buffer[name];
      WordEnds(text, name - s);
    }

    /** The second inner loop: over the slashes. */
    method PassSlashes(ghost end: nat)
      requires Within(end)
      modifies `name
      ensures Within(end) && old(name) <= name && buffer[name] != '/'
      ensures Text(end) == SkipSlashes(old(Text(end)))
      ensures old(buffer[name]) == '/' ==> old(name) < name
    {
      hide SkipSlashes;
      ghost var s, text := name, Text(end);
      while buffer[name] == '/'
        invariant s <= name <= end
        invariant forall i :: 0 <= i < name - s ==> text[i] == '/'
        decreases end - name
      {
        assert text[name - s] == buffer[name];
        name := name + 1;
      }
      assert name < end ==> text[name - s] == buffer[name];
      SlashesEnd(text, 0, name - s);
      assert text[0..] == text;
    }

    /** The cursor moves over one element and the slashes behind it; n keeps the length of the element, which stays 1
        for a leading slash. */
    method TakeElement(before: nat, ghost end: nat) returns (n: nat)
      requires Within(end) && buffer[name] != '\0' && (buffer[name] == '/' ==> before == 1)
      modifies `name
      ensures Within(end) && 0 < n && old(name) + n <= name && buffer[name] != '/'
      ensures old(buffer[name]) != '/' && old(name) + n == name ==> buffer[name] == '\0'
      ensures Elements(old(Text(end))) == [buffer[old(name)..old(name) + n]] + Elements(Text(end))
    {
      hide Words, Elements, WordLen, SkipSlashes;
      n := before;
      var s := name;
      ghost var text := Text(end);
      assert text[0] == buffer[name];
      if buffer[name] != '/' {
        PassWord(end);
        n := name - s;
      }
      ghost var m := name - s;
      assert text[m..] == Text(end);
      PassSlashes(end);
      assert text[..n] == buffer[s..s + n];
      FirstElement(text, n, m, name - s);
      assert text[name - s..] == Text(end);
    }

    /** s[n] = '\0' */
    method Cut(s: nat, n: nat, ghost word: string, ghost end: nat)
      requires Within(end) && 0 < n && s + n <= name && (s + n == name ==> buffer[name] == '\0')
      requires buffer[s..s + n] == word && '\0' !in word
      modifies buffer
      ensures Within(end) && StringAt(buffer[..], s, word)
      ensures SameBut(old(buffer[..]), buffer[..], s, name) && Text(end) == old(Text(end))
    {
      buffer[s + n] := '\0';
      assert buffer[s..s + n] == word;
    }

    /** basename_r: the position of the name in the buffer, where it has been cut to a string of its own. */
    method BasenameR(ghost end: nat) returns (r: Option<nat>)
      requires Within(end)
      modifies this, buffer
      ensures Within(end) && old(name) <= name
      ensures SameBut(old(buffer[..]), buffer[..], old(name), name)
      ensures Text(end) == [] || Text(end)[0] != '/'
      ensures
        var (o, rest) := Scan(Elements(old(Text(end))));
        && Elements(Text(end)) == rest
        && Answers(o, r, buffer[..])
      decreases end - name
    {
      hide Scan, Words, Elements, WordLen, SkipSlashes, StrnEqual, StrEqual, StringAt, SameBut;
      var n := 1;
      SameAsIs(buffer[..], name);
      ghost var all := Elements(Text(end));
      while true
        invariant Within(end) && old(name) <= name
        invariant SameBut(old(buffer[..]), buffer[..], old(name), name)
        invariant Scan(Elements(Text(end))) == Scan(all)
        invariant buffer[name] == '/' ==> n == 1
        decreases end - name
      {
        var s := name;
        ghost var text := Text(end);
        if buffer[name] == '\0' {
          NoElements();
          assert text == [];
          return None;
        }
        ghost var before := buffer[..];
        n := TakeElement(n, end);
        SameWider(old(buffer[..]), before, before, old(name), s, s, name);
        ghost var rest := Text(end);
        var word := buffer[s..s + n];
        assert '\0' !in word;
        StrnDots(buffer[s..], n);
        assert buffer[s..][..n] == word;
        ScanOne(word, Elements(rest));
        if StrnEqual(buffer[s..], ".", n) {
          continue;
        }
        var stop, p := buffer[name] == '\0' || StrnEqual(buffer[s..], "..", n), None;
        ghost var from := name;
        if buffer[name] == '\0' {
          assert rest == [];
          NoElements();
        }
        if !stop {
          p := BasenameR(end);
          SameWider(old(buffer[..]), before, buffer[..], old(name), from, from, name);
          KeptBelow(before, buffer[..], s, n, from, name);
          stop := p.None?;
          NothingLeft(rest, Text(end));
        }
        if stop {
          assert word == ".." ==> word[0] == buffer[s];
          ghost var uncut := buffer[..];
          Cut(s, n, word, end);
          SameWider(old(buffer[..]), uncut, buffer[..], old(name), name, s, name);
          return Some(s);
        }
        var (o, left) := Scan(Elements(rest));
        StringIs(buffer[..], p.value, if o.Name? then o.word else "..", "..");
        if StrEqual(buffer[p.value..], "..") {
          continue;
        }
        return p;
      }
    }

    /** getbase: the path made absolute in the buffer, and its base name. */
    method GetBase(pathname: string, pwd: string) returns (r: Option<nat>)
      requires '\0' !in pathname && '\0' !in pwd && |pwd| + 1 + |pathname| < buffer.Length
      modifies this, buffer
      ensures
        var path := if pathname != [] && pathname[0] == '/' then pathname else pwd + "/" + pathname;
        var o := Machine(Elements(path), []);
        && (r.Some? <==> o.Name?)
        && (r.Some? ==> StringAt(buffer[..], r.value, o.word))
    {
      hide Scan, Machine, Elements, StrEqual, StringAt;
      var path := if pathname != [] && pathname[0] == '/' then pathname else pwd + "/" + pathname;
      forall i | 0 <= i < |path| {
        buffer[i] := path[i];
      }
      buffer[|path|] := '\0';
      name := 0;
      assert Text(|path|) == path;
      ScanFindsTop(Elements(path));
      r := BasenameR(|path|);
      ghost var o := Machine(Elements(path), []);
      if r.Some? {
        StringIs(buffer[..], r.value, if o.Name? then o.word else "..", "..");
        NotDots(Elements(path));
        if StrEqual(buffer[r.value..], "..") {
          r := None;
        }
      }
    }
  }
}
