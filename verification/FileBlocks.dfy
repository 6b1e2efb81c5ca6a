/** The data blocks of a file: compressing and reading them back, the list of size words that create_inode copies,
    and what happens to a file that is given the list of another file with the same stored bytes. */
module FileBlocks {
  import opened Wrappers

  import opened Bits
  import opened BitFields
  import opened Inodes
  import opened MetadataBlocks

  // ---- file blocks ----

  /** write_file's loop over the data blocks: the block list and the bytes stored. */
  function StoreBlocks(codec: Codec, plain: bool, blockSize: nat, data: seq<byte>): (r: (seq<nat>, seq<byte>))
    requires 0 < blockSize < COMPRESSED_BIT_BLOCK
    decreases |data|
  {
    if data == [] then ([], [])
    else
      var n := if |data| > blockSize then blockSize else |data|;
      var (word, stored) := Mangle(codec, data[..n], plain, COMPRESSED_BIT_BLOCK);
      var (words, rest) := StoreBlocks(codec, plain, blockSize, data[n..]);
      ([word] + words, stored + rest)
  }

  /** Reading blocks back by a block list. Each block but the last has to be full. */
  function LoadBlocks(codec: Codec, blockSize: nat, words: seq<nat>, stored: seq<byte>): Option<seq<byte>> {
    if words == [] then Some([])
    else
      var size := StoredSize(words[0], COMPRESSED_BIT_BLOCK);
      if size > |stored| then None
      else
        var first := Unmangle(codec, words[0], stored[..size], COMPRESSED_BIT_BLOCK, blockSize);
        var rest := LoadBlocks(codec, blockSize, words[1..], stored[size..]);
        if first.None? || rest.None? || (|words| > 1 && |first.value| != blockSize) then None
        else Some(first.value + rest.value)
  }

  lemma NoBlocks(codec: Codec, plain: bool, blockSize: nat)
    requires 0 < blockSize < COMPRESSED_BIT_BLOCK
    ensures StoreBlocks(codec, plain, blockSize, []) == ([], [])
    ensures LoadBlocks(codec, blockSize, [], []) == Some([]) && TotalStored([]) == 0
  {
  }

  lemma StoreBlocksParts(codec: Codec, plain: bool, blockSize: nat, data: seq<byte>)
    requires data != [] && 0 < blockSize < COMPRESSED_BIT_BLOCK
    ensures
      var n := if |data| > blockSize then blockSize else |data|;
      var (word, first) := Mangle(codec, data[..n], plain, COMPRESSED_BIT_BLOCK);
      var (words, rest) := StoreBlocks(codec, plain, blockSize, data[n..]);
      StoreBlocks(codec, plain, blockSize, data) == ([word] + words, first + rest)
  {
    hide Mangle;
  }

  /** A file's first block is stored in the library's form, its size word being the length of that, if this is shorter and the
      run is not to keep data as it is; else as it is, its size word being its length and 0x1000000. The other blocks follow
      in the same way. */
  lemma BlocksByOptions(codec: Codec, plain: bool, blockSize: nat, data: seq<byte>)
    requires data != [] && 0 < blockSize < 0x100_0000
    ensures
      var first := if |data| > blockSize then data[..blockSize] else data;
      var packed := codec.compress(first);
      var (words, rest) := StoreBlocks(codec, plain, blockSize, data[|first|..]);
      StoreBlocks(codec, plain, blockSize, data)
      == if !plain && |packed| < |first| then ([|packed|] + words, packed + rest)
         else ([0x100_0000 + |first|] + words, first + rest)
  {
    hide StoreBlocks;
    StoreBlocksParts(codec, plain, blockSize, data);
    assert data[..|data|] == data;
  }

  lemma LoadStep(codec: Codec, blockSize: nat, word: nat, words: seq<nat>, first: seq<byte>, rest: seq<byte>,
                 block: seq<byte>)
    requires StoredSize(word, COMPRESSED_BIT_BLOCK) == |first|
    requires Unmangle(codec, word, first, COMPRESSED_BIT_BLOCK, blockSize) == Some(block)
    ensures
      var data := LoadBlocks(codec, blockSize, words, rest);
      LoadBlocks(codec, blockSize, [word] + words, first + rest)
      == if data.None? || (words != [] && |block| != blockSize) then None else Some(block + data.value)
    ensures TotalStored([word] + words) == |first| + TotalStored(words)
  {
    hide Unmangle, StoredSize;
    assert (first + rest)[..|first|] == first && (first + rest)[|first|..] == rest;
    assert ([word] + words)[1..] == words;
  }

  /** A file's own block list decodes its own stored bytes to its data. */
  lemma {:induction false} BlocksRoundTrip(codec: Codec, plain: bool, blockSize: nat, data: seq<byte>)
    requires codec.Faithful() && 0 < blockSize < COMPRESSED_BIT_BLOCK
    ensures var (words, stored) := StoreBlocks(codec, plain, blockSize, data);
      LoadBlocks(codec, blockSize, words, stored) == Some(data) && |stored| == TotalStored(words)
    decreases |data|
  {
    hide Mangle, Unmangle, StoredSize, LoadBlocks, TotalStored, StoreBlocks;
    if data == [] {
      NoBlocks(codec, plain, blockSize);
    } else {
      var n := if |data| > blockSize then blockSize else |data|;
      var (word, first) := Mangle(codec, data[..n], plain, COMPRESSED_BIT_BLOCK);
      var (words, rest) := StoreBlocks(codec, plain, blockSize, data[n..]);
      MangleRoundTrip(codec, data[..n], plain, COMPRESSED_BIT_BLOCK, blockSize);
      BlocksRoundTrip(codec, plain, blockSize, data[n..]);
      StoreBlocksParts(codec, plain, blockSize, data);
      LoadStep(codec, blockSize, word, words, first, rest, data[..n]);
      if data[n..] == [] {
        NoBlocks(codec, plain, blockSize);
      }
      assert data[..n] + data[n..] == data;
    }
  }

  lemma {:induction false} ShrOfNothing(k: nat)
    ensures Shr(0, k) == 0 && Low(0, k) == 0
  {
    if k == 0 {
    } else {
      ShrOfNothing(k - 1);
    }
  }

  lemma {:induction false} ShrOfSmall(v: nat, k: nat)
    requires v < Pow2(k)
    ensures Shr(v, k) == 0
  {
    if k == 0 {
    } else {
      ShrOfSmall(v / 2, k - 1);
    }
  }

  lemma RoundsToOne(v: nat, k: nat)
    requires 1 <= v <= Pow2(k)
    ensures Shr(v + Pow2(k) - 1, k) == 1
  {
    ShrAdd(v - 1, k);
    ShrOfSmall(v - 1, k);
  }

  /** A file has as many size words as its split into blocks says. */
  lemma {:induction false} BlockListLength(codec: Codec, plain: bool, blockLog: nat, data: seq<byte>)
    requires Pow2(blockLog) < COMPRESSED_BIT_BLOCK
    ensures |StoreBlocks(codec, plain, Pow2(blockLog), data).0| == Shr(|data| + Pow2(blockLog) - 1, blockLog)
    decreases |data|
  {
    var n := Pow2(blockLog);
    if data == [] {
      RoundUp(0, blockLog);
      ShrOfNothing(blockLog);
    } else if |data| > n {
      BlockListLength(codec, plain, blockLog, data[n..]);
      ShrAdd(|data| - 1, blockLog);
    } else {
      assert data[|data|..] == [];
      RoundsToOne(|data|, blockLog);
    }
  }

  lemma NoBlocksLeft(codec: Codec, plain: bool, blockSize: nat, data: seq<byte>)
    requires 0 < blockSize < COMPRESSED_BIT_BLOCK
    requires |StoreBlocks(codec, plain, blockSize, data).0| == 0
    ensures StoreBlocks(codec, plain, blockSize, data) == ([], [])
  {
  }

  /** Blocks never get longer. */
  lemma {:induction false} StoredIsNoLonger(codec: Codec, plain: bool, blockSize: nat, data: seq<byte>)
    requires codec.Faithful() && 0 < blockSize < COMPRESSED_BIT_BLOCK
    ensures |StoreBlocks(codec, plain, blockSize, data).1| <= |data|
    decreases |data|
  {
    hide Mangle, StoreBlocks;
    if data == [] {
      NoBlocks(codec, plain, blockSize);
    } else {
      var n := if |data| > blockSize then blockSize else |data|;
      StoreBlocksParts(codec, plain, blockSize, data);
      MangleRoundTrip(codec, data[..n], plain, COMPRESSED_BIT_BLOCK, blockSize);
      StoredIsNoLonger(codec, plain, blockSize, data[n..]);
    }
  }

  lemma StoreOneMore(word: nat, bytes: seq<byte>, ws: seq<nat>, bs: seq<byte>, words: seq<nat>, stored: seq<byte>)
    ensures words + ([word] + ws) == (words + [word]) + ws && stored + (bytes + bs) == (stored + bytes) + bs
  {
    Associates(words, [word], ws);
    Associates(stored, bytes, bs);
  }

  /** One turn of the block loop. */
  lemma StoreStep(codec: Codec, plain: bool, blockSize: nat, data: seq<byte>, at: nat, words: seq<nat>, stored: seq<byte>)
    requires 0 < blockSize < COMPRESSED_BIT_BLOCK && at <= |data|
    requires |StoreBlocks(codec, plain, blockSize, data[at..]).0| > 0
    ensures at < |data|
    ensures
      var n := if |data| - at > blockSize then blockSize else |data| - at;
      var (word, bytes) := Mangle(codec, data[at..at + n], plain, COMPRESSED_BIT_BLOCK);
      var (list, all) := StoreBlocks(codec, plain, blockSize, data[at..]);
      var (ws, bs) := StoreBlocks(codec, plain, blockSize, data[at + n..]);
      && |list| == 1 + |ws|
      && words + list == (words + [word]) + ws && stored + all == (stored + bytes) + bs
  {
    hide StoreBlocks, Mangle;
    var rest := data[at..];
    if rest == [] {
      NoBlocks(codec, plain, blockSize);
    } else {
      var n := if |rest| > blockSize then blockSize else |rest|;
      StoreBlocksParts(codec, plain, blockSize, rest);
      assert rest[..n] == data[at..at + n] && rest[n..] == data[at + n..];
      var (word, bytes) := Mangle(codec, data[at..at + n], plain, COMPRESSED_BIT_BLOCK);
      var (ws, bs) := StoreBlocks(codec, plain, blockSize, data[at + n..]);
      StoreOneMore(word, bytes, ws, bs, words, stored);
    }
  }

  // ---- size words ----

  lemma {:induction false} WordsFit(codec: Codec, plain: bool, blockSize: nat, data: seq<byte>)
    requires codec.Faithful() && 0 < blockSize < COMPRESSED_BIT_BLOCK
    ensures FitInts(StoreBlocks(codec, plain, blockSize, data).0)
    decreases |data|
  {
    hide Mangle, Fits, Unmangle, StoredSize;
    if data == [] {
    } else {
      var n := if |data| > blockSize then blockSize else |data|;
      MangleRoundTrip(codec, data[..n], plain, COMPRESSED_BIT_BLOCK, blockSize);
      FitsInt(Mangle(codec, data[..n], plain, COMPRESSED_BIT_BLOCK).0);
      WordsFit(codec, plain, blockSize, data[n..]);
    }
  }

  /** No size word stands for nothing. */
  lemma {:induction false} EveryBlockStores(words: seq<nat>)
    ensures TotalStored(words) >= |words|
  {
    if words == [] {
    } else {
      EveryBlockStores(words[1..]);
    }
  }

  lemma {:induction false} TotalOfConcat(a: seq<nat>, b: seq<nat>)
    ensures TotalStored(a + b) == TotalStored(a) + TotalStored(b)
  {
    hide StoredSize;
    if a == [] {
      assert a + b == b;
    } else {
      assert (a + b)[1..] == a[1..] + b;
      TotalOfConcat(a[1..], b);
    }
  }

  /** What lies behind the blocks does not matter. */
  lemma {:induction false} LoadIgnoresRest(codec: Codec, blockSize: nat, words: seq<nat>, stored: seq<byte>, more: seq<byte>)
    requires TotalStored(words) <= |stored|
    ensures LoadBlocks(codec, blockSize, words, stored + more) == LoadBlocks(codec, blockSize, words, stored)
  {
    hide StoredSize, Unmangle;
    if words == [] {
    } else {
      var size := StoredSize(words[0], COMPRESSED_BIT_BLOCK);
      assert (stored + more)[..size] == stored[..size];
      assert (stored + more)[size..] == stored[size..] + more;
      LoadIgnoresRest(codec, blockSize, words[1..], stored[size..], more);
    }
  }

  /** A file that starts with this block, which is full unless it is the last. */
  lemma OneBlockMore(codec: Codec, plain: bool, blockSize: nat, block: seq<byte>, a: seq<byte>, b: seq<byte>)
    requires 0 < |block| <= blockSize < COMPRESSED_BIT_BLOCK
    requires |block| < blockSize ==> a == [] && b == []
    ensures
      var (word, stored) := Mangle(codec, block, plain, COMPRESSED_BIT_BLOCK);
      && StoreBlocks(codec, plain, blockSize, block + a)
         == ([word] + StoreBlocks(codec, plain, blockSize, a).0, stored + StoreBlocks(codec, plain, blockSize, a).1)
      && StoreBlocks(codec, plain, blockSize, block + b)
         == ([word] + StoreBlocks(codec, plain, blockSize, b).0, stored + StoreBlocks(codec, plain, blockSize, b).1)
  {
    hide Mangle;
    assert (block + a)[..|block|] == block && (block + a)[|block|..] == a;
    assert (block + b)[..|block|] == block && (block + b)[|block|..] == b;
  }

  /** The first n blocks of a file are those of a shorter file. */
  lemma {:induction false} FirstBlocks(codec: Codec, plain: bool, blockSize: nat, data: seq<byte>, n: nat)
    returns (front: seq<byte>)
    requires 0 < blockSize < COMPRESSED_BIT_BLOCK
    requires n <= |StoreBlocks(codec, plain, blockSize, data).0|
    ensures StoreBlocks(codec, plain, blockSize, front).0 == StoreBlocks(codec, plain, blockSize, data).0[..n]
    ensures StoreBlocks(codec, plain, blockSize, front).1 <= StoreBlocks(codec, plain, blockSize, data).1
    decreases |data|
  {
    hide Mangle;
    if n == 0 {
      front := [];
    } else {
      var m := if |data| > blockSize then blockSize else |data|;
      var rest := FirstBlocks(codec, plain, blockSize, data[m..], n - 1);
      front := data[..m] + rest;
      OneBlockMore(codec, plain, blockSize, data[..m], rest, data[m..]);
      assert data[..m] + data[m..] == data;
    }
  }

  // ---- the list of another file ----

  function WordAt(list: seq<nat>, behind: nat -> nat, i: nat): nat {
    if i < |list| then list[i] else Low(behind(i - |list|), 32)
  }

  /** create_inode copies as many words as the file has blocks, whatever list it is handed; behind the list
      memory goes on. */
  function CopiedWords(list: seq<nat>, count: nat, behind: nat -> nat): (words: seq<nat>)
    ensures |words| == count
  {
    seq(count, i requires 0 <= i < count => WordAt(list, behind, i))
  }

  lemma CopiedWordsFit(list: seq<nat>, count: nat, behind: nat -> nat)
    requires FitInts(list)
    ensures FitInts(CopiedWords(list, count, behind))
  {
    hide Low, Fits;
    forall i: nat | i < count
      ensures Fits(WordAt(list, behind, i), 32)
    {
      if i >= |list| {
        LowFits(behind(i - |list|), 32);
      }
    }
  }

  lemma EnoughWords(list: seq<nat>, count: nat, behind: nat -> nat)
    requires count <= |list|
    ensures CopiedWords(list, count, behind) == list[..count]
  {
  }

  lemma WordsOfList(list: seq<nat>, count: nat, behind: nat -> nat)
    ensures forall k :: 0 <= k < count && k < |list| ==> CopiedWords(list, count, behind)[k] == list[k]
  {
  }

  lemma FirstWordBehind(list: seq<nat>, count: nat, behind: nat -> nat)
    requires count > |list|
    ensures CopiedWords(list, count, behind)[|list|] == Low(behind(0), 32)
  {
  }

  lemma ZeroAndOneDiffer()
    ensures Low(0, 32) != Low(1, 32)
  {
    assert Low(1, 32) == 1 % 2 + 2 * Low(0, 31);
    assert Low(0, 32) == 0 % 2 + 2 * Low(0, 31);
  }

  /** The copy stays within the list, that is, does not depend on what lies behind it, exactly when the list
      has enough words. */
  lemma CopyStaysInside(list: seq<nat>, count: nat)
    ensures (forall m: nat -> nat, n: nat -> nat :: CopiedWords(list, count, m) == CopiedWords(list, count, n))
      <==> count <= |list|
  {
    hide CopiedWords, Low;
    forall m: nat -> nat, n: nat -> nat
      ensures count <= |list| ==> CopiedWords(list, count, m) == CopiedWords(list, count, n)
    {
      if count <= |list| {
        EnoughWords(list, count, m);
        EnoughWords(list, count, n);
      }
    }
    if count > |list| {
      FirstWordBehind(list, count, _ => 0);
      FirstWordBehind(list, count, _ => 1);
      ZeroAndOneDiffer();
    }
  }

  /** A recorded file with the same stored bytes has a list of enough words exactly when it has at least as
      many blocks. */
  lemma ListIsLongEnough(codec: Codec, plain: bool, blockLog: nat, mine: seq<byte>, other: seq<byte>)
    requires Pow2(blockLog) < COMPRESSED_BIT_BLOCK
    ensures
      var list := StoreBlocks(codec, plain, Pow2(blockLog), other).0;
      var count := |StoreBlocks(codec, plain, Pow2(blockLog), mine).0|;
      (forall m: nat -> nat, n: nat -> nat :: CopiedWords(list, count, m) == CopiedWords(list, count, n))
      <==> Shr(|mine| + Pow2(blockLog) - 1, blockLog) <= Shr(|other| + Pow2(blockLog) - 1, blockLog)
  {
    BlockListLength(codec, plain, blockLog, mine);
    BlockListLength(codec, plain, blockLog, other);
    CopyStaysInside(StoreBlocks(codec, plain, Pow2(blockLog), other).0, |StoreBlocks(codec, plain, Pow2(blockLog), mine).0|);
  }

  /** A list that is cut to the number of words needed, and differs from the file's own, decodes to another file. */
  lemma CutListFails(codec: Codec, plain: bool, blockSize: nat, mine: seq<byte>, other: seq<byte>)
    requires codec.Faithful() && 0 < blockSize < COMPRESSED_BIT_BLOCK
    requires StoreBlocks(codec, plain, blockSize, mine).1 == StoreBlocks(codec, plain, blockSize, other).1
    requires |StoreBlocks(codec, plain, blockSize, mine).0| <= |StoreBlocks(codec, plain, blockSize, other).0|
    requires StoreBlocks(codec, plain, blockSize, mine).0 != StoreBlocks(codec, plain, blockSize, other).0
    ensures
      var (words, stored) := StoreBlocks(codec, plain, blockSize, mine);
      var cut := StoreBlocks(codec, plain, blockSize, other).0[..|words|];
      && TotalStored(cut) <= |stored|
      && LoadBlocks(codec, blockSize, cut, stored) != Some(mine)
  {
    hide StoreBlocks, LoadBlocks, TotalStored;
    var (words, stored) := StoreBlocks(codec, plain, blockSize, mine);
    var list := StoreBlocks(codec, plain, blockSize, other).0;
    var front := FirstBlocks(codec, plain, blockSize, other, |words|);
    var (cut, part) := StoreBlocks(codec, plain, blockSize, front);
    BlocksRoundTrip(codec, plain, blockSize, front);
    BlocksRoundTrip(codec, plain, blockSize, other);
    assert stored == part + stored[|part|..];
    LoadIgnoresRest(codec, blockSize, cut, part, stored[|part|..]);
    var dropped := list[|words|..];
    assert list == cut + dropped;
    TotalOfConcat(cut, dropped);
    EveryBlockStores(dropped);
  }

  lemma SomethingStored(codec: Codec, plain: bool, blockSize: nat, data: seq<byte>)
    requires codec.Faithful() && 0 < blockSize < COMPRESSED_BIT_BLOCK
    ensures data == [] <==> StoreBlocks(codec, plain, blockSize, data).0 == []
    ensures data == [] <==> StoreBlocks(codec, plain, blockSize, data).1 == []
  {
    hide StoreBlocks, Mangle, LoadBlocks, TotalStored;
    if data == [] {
      NoBlocks(codec, plain, blockSize);
    } else {
      StoreBlocksParts(codec, plain, blockSize, data);
      var n := if |data| > blockSize then blockSize else |data|;
      MangleRoundTrip(codec, data[..n], plain, COMPRESSED_BIT_BLOCK, blockSize);
    }
  }

  /** If both files start with the same full block, they differ behind it. */
  lemma SameFirstBlock(codec: Codec, plain: bool, blockSize: nat, mine: seq<byte>, other: seq<byte>)
    requires 0 < blockSize < COMPRESSED_BIT_BLOCK && |mine| >= blockSize && |other| >= blockSize
    requires mine[..blockSize] == other[..blockSize]
    requires StoreBlocks(codec, plain, blockSize, mine).1 == StoreBlocks(codec, plain, blockSize, other).1
    ensures
      StoreBlocks(codec, plain, blockSize, mine[blockSize..]).1 == StoreBlocks(codec, plain, blockSize, other[blockSize..]).1
  {
    hide StoreBlocks, Mangle;
    StoreBlocksParts(codec, plain, blockSize, mine);
    StoreBlocksParts(codec, plain, blockSize, other);
    var first := Mangle(codec, mine[..blockSize], plain, COMPRESSED_BIT_BLOCK).1;
    var a := StoreBlocks(codec, plain, blockSize, mine[blockSize..]).1;
    var b := StoreBlocks(codec, plain, blockSize, other[blockSize..]).1;
    assert (first + a)[|first|..] == a && (first + b)[|first|..] == b;
  }

  lemma FirstPart(n: nat, a: seq<byte>, b: seq<byte>, whole: seq<byte>)
    requires a + b == whole && |a| == n
    ensures n <= |whole| && whole[..n] == a && whole[n..] == b
  {
  }

  /** A list that is too short, and continued with any words, never decodes to the file, whatever lies behind its bytes. */
  lemma {:induction false} OverreadFails(codec: Codec, plain: bool, blockSize: nat, mine: seq<byte>, other: seq<byte>,
                                         words: seq<nat>, rest: seq<byte>)
    requires codec.Faithful() && 0 < blockSize < COMPRESSED_BIT_BLOCK
    requires StoreBlocks(codec, plain, blockSize, mine).1 == StoreBlocks(codec, plain, blockSize, other).1
    requires |StoreBlocks(codec, plain, blockSize, other).0| < |StoreBlocks(codec, plain, blockSize, mine).0| == |words|
    requires StoreBlocks(codec, plain, blockSize, other).0 <= words
    ensures LoadBlocks(codec, blockSize, words, StoreBlocks(codec, plain, blockSize, mine).1 + rest) != Some(mine)
    decreases |mine|
  {
    hide StoreBlocks, Mangle, LoadBlocks, Unmangle, StoredSize, TotalStored;
    SomethingStored(codec, plain, blockSize, mine);
    SomethingStored(codec, plain, blockSize, other);
    if other == [] {
      assert false;
    } else {
      var n := if |other| > blockSize then blockSize else |other|;
      var (word, first) := Mangle(codec, other[..n], plain, COMPRESSED_BIT_BLOCK);
      MangleRoundTrip(codec, other[..n], plain, COMPRESSED_BIT_BLOCK, blockSize);
      StoreBlocksParts(codec, plain, blockSize, other);
      var (list, behind) := StoreBlocks(codec, plain, blockSize, other[n..]);
      assert words == [word] + words[1..];
      assert (first + behind) + rest == first + (behind + rest);
      LoadStep(codec, blockSize, word, words[1..], first, behind + rest, other[..n]);
      if LoadBlocks(codec, blockSize, words, StoreBlocks(codec, plain, blockSize, mine).1 + rest) == Some(mine) {
        var later := LoadBlocks(codec, blockSize, words[1..], behind + rest).value;
        FirstPart(blockSize, other[..n], later, mine);
        SameFirstBlock(codec, plain, blockSize, mine, other);
        StoreBlocksParts(codec, plain, blockSize, mine);
        if |mine| == blockSize {
          NoBlocks(codec, plain, blockSize);
        }
        OverreadFails(codec, plain, blockSize, mine[blockSize..], other[blockSize..], words[1..], rest);
      }
    }
  }

  /** The duplicate index compares stored bytes, not block lists. A file that is served the list of another
      file with the same stored bytes is read back correctly exactly when the lists are equal, whether the
      other list is longer, and cut, or shorter, and continued with what lies behind it, and whatever is
      stored behind the bytes. */
  lemma SharedBlocksServe(codec: Codec, plain: bool, blockSize: nat, mine: seq<byte>, other: seq<byte>, behind: nat -> nat,
                          rest: seq<byte>)
    requires codec.Faithful() && 0 < blockSize < COMPRESSED_BIT_BLOCK
    requires StoreBlocks(codec, plain, blockSize, mine).1 == StoreBlocks(codec, plain, blockSize, other).1
    ensures
      var (words, stored) := StoreBlocks(codec, plain, blockSize, mine);
      var list := StoreBlocks(codec, plain, blockSize, other).0;
      LoadBlocks(codec, blockSize, CopiedWords(list, |words|, behind), stored + rest) == Some(mine) <==> words == list
  {
    hide StoreBlocks, LoadBlocks, TotalStored;
    var (words, stored) := StoreBlocks(codec, plain, blockSize, mine);
    var list := StoreBlocks(codec, plain, blockSize, other).0;
    var copy := CopiedWords(list, |words|, behind);
    if words == list {
      assert copy == words;
      BlocksRoundTrip(codec, plain, blockSize, mine);
      LoadIgnoresRest(codec, blockSize, words, stored, rest);
    } else if |list| < |words| {
      OverreadFails(codec, plain, blockSize, mine, other, copy, rest);
    } else {
      assert copy == list[..|words|];
      CutListFails(codec, plain, blockSize, mine, other);
      LoadIgnoresRest(codec, blockSize, copy, stored, rest);
    }
  }

  lemma StoreOneBlock(codec: Codec, plain: bool, blockSize: nat, data: seq<byte>)
    requires 0 < |data| <= blockSize < COMPRESSED_BIT_BLOCK
    ensures var (word, stored) := Mangle(codec, data, plain, COMPRESSED_BIT_BLOCK);
      StoreBlocks(codec, plain, blockSize, data) == ([word], stored)
  {
    assert data[..|data|] == data && data[|data|..] == [];
    var (word, stored) := Mangle(codec, data, plain, COMPRESSED_BIT_BLOCK);
    assert [word] + [] == [word] && stored + [] == stored;
  }

  /** `list` is the block list of some file that stores these bytes. */
  ghost predicate IsListOf(codec: Codec, plain: bool, blockSize: nat, list: seq<nat>, stored: seq<byte>)
    requires 0 < blockSize < COMPRESSED_BIT_BLOCK
  {
    exists other :: StoreBlocks(codec, plain, blockSize, other) == (list, stored)
  }

  // ---- two counterexamples ----

  /** A faithful library: it shortens one block of four zeros and marks the rest. */
  function SampleCodec(): Codec {
    Codec(x => if x == [0, 0, 0, 0] then [7] else [9] + x,
          y => if y == [7] then Some([0, 0, 0, 0]) else if y == [] then None else Some(y[1..]))
  }

  /** Equal stored bytes do not mean equal files: one file is four zeros, compressed to a single byte, the
      other consists of that byte and is kept as it is. Both have one block; served the list of the first,
      the second reads back wrong. */
  lemma SharedBlocksMayMislead(behind: nat -> nat, rest: seq<byte>)
    ensures SampleCodec().Faithful()
    ensures
      var (list, stored) := StoreBlocks(SampleCodec(), false, 512, [0, 0, 0, 0]);
      && stored == StoreBlocks(SampleCodec(), false, 512, [7]).1
      && |StoreBlocks(SampleCodec(), false, 512, [7]).0| == 1
      && LoadBlocks(SampleCodec(), 512, CopiedWords(list, 1, behind), stored + rest) != Some([7])
  {
    var codec := SampleCodec();
    forall x: seq<byte>
      ensures |codec.compress(x)| > 0 && codec.uncompress(codec.compress(x)) == Some(x)
    {
      if x != [0, 0, 0, 0] {
        var y: seq<byte> := [9] + x;
        assert y[0] == 9 && y[1..] == x;
      }
    }
    var zeros: seq<byte> := [0, 0, 0, 0];
    var seven: seq<byte> := [7];
    assert codec.compress(zeros) == [7];
    assert Mangle(codec, zeros, false, COMPRESSED_BIT_BLOCK) == (1, seven);
    assert |codec.compress(seven)| == 2;
    assert Mangle(codec, seven, false, COMPRESSED_BIT_BLOCK) == (1 + COMPRESSED_BIT_BLOCK, seven);
    StoreOneBlock(codec, false, 512, zeros);
    StoreOneBlock(codec, false, 512, seven);
    SharedBlocksServe(codec, false, 512, seven, zeros, behind, rest);
  }

  function Full(b: byte): (block: seq<byte>)
    ensures |block| == 512
  {
    seq(512, _ => b)
  }

  /** A faithful library that shortens three blocks: ones to a single 1, twos to a single 2, threes to 1 and 2. */
  function TripleCodec(): Codec {
    Codec(x => if x == Full(1) then [1] else if x == Full(2) then [2] else if x == Full(3) then [1, 2] else [9] + x,
          y => if y == [1] then Some(Full(1)) else if y == [2] then Some(Full(2)) else if y == [1, 2] then Some(Full(3))
               else if y == [] then None else Some(y[1..]))
  }

  lemma BlocksDiffer()
    ensures Full(1) != Full(2) && Full(1) != Full(3) && Full(2) != Full(3)
  {
    assert Full(1)[0] == 1 && Full(2)[0] == 2 && Full(3)[0] == 3;
  }

  lemma TripleCodecIsFaithful()
    ensures TripleCodec().Faithful()
  {
    var codec := TripleCodec();
    BlocksDiffer();
    forall x: seq<byte>
      ensures |codec.compress(x)| > 0 && codec.uncompress(codec.compress(x)) == Some(x)
    {
      if x != Full(1) && x != Full(2) && x != Full(3) {
        var y: seq<byte> := [9] + x;
        assert y[0] == 9 && y[1..] == x;
      }
    }
  }

  lemma TripleMangled()
    ensures Mangle(TripleCodec(), Full(1), false, COMPRESSED_BIT_BLOCK) == (1, [1])
    ensures Mangle(TripleCodec(), Full(2), false, COMPRESSED_BIT_BLOCK) == (1, [2])
    ensures Mangle(TripleCodec(), Full(3), false, COMPRESSED_BIT_BLOCK) == (2, [1, 2])
  {
    BlocksDiffer();
  }

  /** Files with equal stored bytes may have different numbers of blocks: with blocks of 512 bytes, a block of
      ones and one of twos store 1 and 2, and so does the single block of threes. Written after the threes, the
      file of two blocks takes its second word from behind the list of one word, and is never read back,
      whatever that word is; written the other way round, the threes take the first of two words and are read
      back as the ones. */
  lemma ListMayBeTooShort(behind: nat -> nat, rest: seq<byte>)
    ensures TripleCodec().Faithful()
    ensures
      var (two, stored) := StoreBlocks(TripleCodec(), false, 512, Full(1) + Full(2));
      var one := StoreBlocks(TripleCodec(), false, 512, Full(3)).0;
      && StoreBlocks(TripleCodec(), false, 512, Full(3)).1 == stored
      && CopiedWords(one, |two|, behind) == [2, Low(behind(0), 32)]
      && LoadBlocks(TripleCodec(), 512, CopiedWords(one, |two|, behind), stored + rest) != Some(Full(1) + Full(2))
      && LoadBlocks(TripleCodec(), 512, CopiedWords(two, |one|, behind), stored + rest) == Some(Full(1))
  {
    hide Low;
    var codec := TripleCodec();
    TripleCodecIsFaithful();
    TripleMangled();
    hide TripleCodec, Mangle, Unmangle;
    StoreOneBlock(codec, false, 512, Full(1));
    StoreOneBlock(codec, false, 512, Full(2));
    StoreOneBlock(codec, false, 512, Full(3));
    OneBlockMore(codec, false, 512, Full(1), Full(2), []);
    var (two, stored) := StoreBlocks(codec, false, 512, Full(1) + Full(2));
    var one := StoreBlocks(codec, false, 512, Full(3)).0;
    assert two == [1, 1] && stored == [1, 2] && one == [2];
    SharedBlocksServe(codec, false, 512, Full(1) + Full(2), Full(3), behind, rest);
    assert CopiedWords(two, |one|, behind) == [1];
    BlocksRoundTrip(codec, false, 512, Full(1));
    assert stored + rest == [1] + ([2] + rest);
    LoadIgnoresRest(codec, 512, [1], [1], [2] + rest);
  }
}
