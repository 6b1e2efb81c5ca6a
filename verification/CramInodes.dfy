/** The inode of a compressed ROM file system as mkcramfs keeps it in memory, in the byte order of its (little-endian)
    host, and as it converts it for a file system of the other byte order. */
module CramInodes {
  import opened Bits
  import opened BitFields

  const INODE_BYTES: nat := 12
  const OFFSET_LIMIT: nat := 0x400_0000   // 26 bits of offset, in units of four bytes
  const SIZE_LIMIT: nat := 0x100_0000     // 24 bits of size

  datatype Inode = Inode(mode: nat, uid: nat, gid: nat, size: nat, namelen: nat, offset: nat) {
    predicate Fits() {
      mode < 0x1_0000 && uid < 0x1_0000 && gid < 0x100 && size < SIZE_LIMIT && namelen < 64 && offset < OFFSET_LIMIT
    }
  }

  // ---- numbers as bytes ----

  /** v in n bytes, the lowest first. */
  function Digits(v: nat, n: nat): (s: seq<byte>)
    ensures |s| == n
  {
    if n == 0 then [] else [v % 256] + Digits(v / 256, n - 1)
  }

  function Value(s: seq<byte>): nat {
    if s == [] then 0 else var first: int := s[0]; first + 256 * Value(s[1..])
  }

  function Reverse(s: seq<byte>): (r: seq<byte>)
    ensures |r| == |s|
  {
    seq(|s|, i requires 0 <= i < |s| => s[|s| - 1 - i])
  }

  function Bound(n: nat): (b: nat)
    ensures b > 0
  {
    if n == 0 then 1 else 256 * Bound(n - 1)
  }

  lemma {:induction false} ValueOfDigits(v: nat, n: nat)
    requires v < Bound(n)
    ensures Value(Digits(v, n)) == v
    decreases n
  {
    if n == 0 {
    } else {
      assert v / 256 < Bound(n - 1);
      ValueOfDigits(v / 256, n - 1);
      assert Digits(v, n)[1..] == Digits(v / 256, n - 1);
    }
  }

  lemma {:induction false} DigitsOfValue(s: seq<byte>)
    ensures Digits(Value(s), |s|) == s && Value(s) < Bound(|s|)
    decreases |s|
  {
    if s == [] {
    } else {
      DigitsOfValue(s[1..]);
      var first: int := s[0];
      assert (first + 256 * Value(s[1..])) / 256 == Value(s[1..]);
      assert s == [s[0]] + s[1..];
    }
  }

  lemma ReverseTwice(s: seq<byte>)
    ensures Reverse(Reverse(s)) == s
  {
  }

  lemma Bounds()
    ensures Bound(2) == 0x1_0000 && Bound(3) == SIZE_LIMIT && Bound(4) == 0x1_0000_0000
  {
    assert Bound(1) == 256;
  }

  /** A 32-bit word in an image of the given byte order. */
  function Word32(o: Order, v: nat): (s: seq<byte>)
    ensures |s| == 4
  {
    if o.LittleEndian? then Digits(v, 4) else Reverse(Digits(v, 4))
  }

  function ReadWord32(o: Order, s: seq<byte>): nat
    requires |s| == 4
  {
    Value(if o.LittleEndian? then s else Reverse(s))
  }

  lemma Word32RoundTrip(o: Order, v: nat)
    requires v < 0x1_0000_0000
    ensures ReadWord32(o, Word32(o, v)) == v
  {
    hide Digits, Value, Reverse, Bound;
    Bounds();
    ValueOfDigits(v, 4);
    ReverseTwice(Digits(v, 4));
  }

  // ---- the inode in memory ----

  /** struct cramfs_inode as the host's compiler lays it out: three 32-bit words, fields from the low end. */
  function Native(i: Inode): (s: seq<byte>)
    ensures |s| == INODE_BYTES
  {
    Digits(i.mode, 2) + Digits(i.uid, 2) + Digits(i.size, 3) + Digits(i.gid, 1)
    + Digits(i.namelen + 64 * i.offset, 4)
  }

  /** The same structure as a compiler for a big-endian machine lays it out. */
  function Foreign(i: Inode): (s: seq<byte>)
    ensures |s| == INODE_BYTES
  {
    Reverse(Digits(i.mode, 2)) + Reverse(Digits(i.uid, 2)) + Reverse(Digits(i.size, 3)) + Digits(i.gid, 1)
    + Reverse(Digits(i.namelen * OFFSET_LIMIT + i.offset, 4))
  }

  function InodeBytes(o: Order, i: Inode): (s: seq<byte>)
    ensures |s| == INODE_BYTES
  {
    if o.LittleEndian? then Native(i) else Foreign(i)
  }

  /** Reading the structure back, on the host itself or on a big-endian machine. */
  function ReadInode(o: Order, s: seq<byte>): Inode
    requires |s| == INODE_BYTES
  {
    if o.LittleEndian? then
      var word := Value(s[8..12]);
      Inode(Value(s[0..2]), Value(s[2..4]), Value(s[7..8]), Value(s[4..7]), word % 64, word / 64)
    else
      var word := Value(Reverse(s[8..12]));
      Inode(Value(Reverse(s[0..2])), Value(Reverse(s[2..4])), Value(s[7..8]), Value(Reverse(s[4..7])),
            word / OFFSET_LIMIT, word % OFFSET_LIMIT)
  }

  lemma FiveParts(a: seq<byte>, b: seq<byte>, c: seq<byte>, d: seq<byte>, e: seq<byte>)
    requires |a| == |b| == 2 && |c| == 3 && |d| == 1 && |e| == 4
    ensures var s := a + b + c + d + e;
      |s| == 12 && s[0..2] == a && s[2..4] == b && s[4..7] == c && s[7..8] == d && s[8..12] == e
  {
  }

  lemma SplitWord(i: Inode)
    requires i.Fits()
    ensures (i.namelen + 64 * i.offset) % 64 == i.namelen && (i.namelen + 64 * i.offset) / 64 == i.offset
    ensures (i.namelen * OFFSET_LIMIT + i.offset) % OFFSET_LIMIT == i.offset
    ensures (i.namelen * OFFSET_LIMIT + i.offset) / OFFSET_LIMIT == i.namelen
  {
  }

  lemma SecondWord(i: Inode)
    requires i.Fits()
    ensures i.namelen + 64 * i.offset < 0x1_0000_0000 && i.namelen * OFFSET_LIMIT + i.offset < 0x1_0000_0000
  {
  }

  lemma OneByte()
    ensures Bound(1) == 256
  {
  }

  /** Either machine reads back what was stored for it. */
  lemma InodeRoundTrip(o: Order, i: Inode)
    requires i.Fits()
    ensures ReadInode(o, InodeBytes(o, i)) == i
  {
    hide Digits, Value, Reverse, Bound;
    Bounds();
    OneByte();
    SecondWord(i);
    var low, high := i.namelen + 64 * i.offset, i.namelen * OFFSET_LIMIT + i.offset;
    ValueOfDigits(i.mode, 2);
    ValueOfDigits(i.uid, 2);
    ValueOfDigits(i.size, 3);
    ValueOfDigits(i.gid, 1);
    ValueOfDigits(low, 4);
    ValueOfDigits(high, 4);
    SplitWord(i);
    FiveParts(Digits(i.mode, 2), Digits(i.uid, 2), Digits(i.size, 3), Digits(i.gid, 1), Digits(low, 4));
    ReverseTwice(Digits(i.mode, 2));
    ReverseTwice(Digits(i.uid, 2));
    ReverseTwice(Digits(i.size, 3));
    ReverseTwice(Digits(high, 4));
    FiveParts(Reverse(Digits(i.mode, 2)), Reverse(Digits(i.uid, 2)), Reverse(Digits(i.size, 3)), Digits(i.gid, 1),
              Reverse(Digits(high, 4)));
  }

  /** Two, three and four bytes as a number, the first the highest. */
  function Number2(a: int, b: int): int {
    0x100 * a + b
  }

  function Number3(a: int, b: int, c: int): int {
    0x1_0000 * a + 0x100 * b + c
  }

  function Number4(a: int, b: int, c: int, d: int): int {
    0x100_0000 * a + 0x1_0000 * b + 0x100 * c + d
  }

  lemma BytesOfTwo(v: nat)
    requires v < 0x1_0000
    ensures var d := Digits(v, 2); Number2(d[1], d[0]) == v && Reverse(d) == [d[1], d[0]]
  {
    assert Digits(v, 2) == [v % 256] + Digits(v / 256, 1);
  }

  lemma BytesOfThree(v: nat)
    requires v < 0x100_0000
    ensures var d := Digits(v, 3); Number3(d[2], d[1], d[0]) == v && Reverse(d) == [d[2], d[1], d[0]]
  {
    assert Digits(v, 3) == [v % 256] + Digits(v / 256, 2);
    BytesOfTwo(v / 256);
  }

  lemma BytesOfFour(v: nat)
    requires v < 0x1_0000_0000
    ensures var d := Digits(v, 4); Number4(d[3], d[2], d[1], d[0]) == v && Reverse(d) == [d[3], d[2], d[1], d[0]]
  {
    assert Digits(v, 4) == [v % 256] + Digits(v / 256, 3);
    BytesOfThree(v / 256);
  }

  lemma ByteOfOne(v: nat)
    requires v < 0x100
    ensures Digits(v, 1) == [v]
  {
    assert Digits(v, 1) == [v % 256] + Digits(v / 256, 0);
  }

  /** The inode byte by byte: 16 bits of mode and of user, 24 of size, 8 of group, and a word of which
      six bits count the words of the name and 26 the words up to the data; each number, and in the last word the first
      of its fields, begins with the low byte on a little-endian machine, with the high byte on a big-endian one. */
  lemma InodeOnDisk(o: Order, i: Inode)
    requires i.mode < 0x1_0000 && i.uid < 0x1_0000 && i.size < 0x100_0000 && i.gid < 0x100
    requires i.namelen < 64 && i.offset < 0x400_0000
    ensures |InodeBytes(o, i)| == 12
    ensures
      var s := InodeBytes(o, i);
      && s[7] == i.gid
      && if o.LittleEndian? then
           && Number2(s[1], s[0]) == i.mode && Number2(s[3], s[2]) == i.uid && Number3(s[6], s[5], s[4]) == i.size
           && Number4(s[11], s[10], s[9], s[8]) == i.namelen + 64 * i.offset
         else
           && Number2(s[0], s[1]) == i.mode && Number2(s[2], s[3]) == i.uid && Number3(s[4], s[5], s[6]) == i.size
           && Number4(s[8], s[9], s[10], s[11]) == 0x400_0000 * i.namelen + i.offset
  {
    hide Digits, Reverse, Number2, Number3, Number4;
    BytesOfTwo(i.mode);
    BytesOfTwo(i.uid);
    BytesOfThree(i.size);
    ByteOfOne(i.gid);
    BytesOfFour(i.namelen + 64 * i.offset);
    BytesOfFour(0x400_0000 * i.namelen + i.offset);
  }

  // ---- converting in place ----

  /** wswap */
  function SwapWord(x: nat): nat {
    x / 0x100_0000 + x / 0x1_0000 % 0x100 * 0x100 + x / 0x100 % 0x100 * 0x1_0000 + x % 0x100 * 0x100_0000
  }

  /** fix_inode on the bytes of one inode: the fields are read, swapped and stored again as the host's own. */
  function FixInode(raw: seq<byte>): (s: seq<byte>)
    requires |raw| == INODE_BYTES
    ensures |s| == INODE_BYTES
  {
    var i := ReadInode(LittleEndian, raw);
    Digits(i.mode / 0x100 + i.mode % 0x100 * 0x100, 2)
    + Digits(i.uid / 0x100 + i.uid % 0x100 * 0x100, 2)
    + Digits(i.size / 0x1_0000 + i.size / 0x100 % 0x100 * 0x100 + i.size % 0x100 * 0x1_0000, 3)
    + Digits(i.gid, 1)
    + Digits(SwapWord(i.offset + i.namelen * OFFSET_LIMIT), 4)
  }

  /** The offset bits of word 2 replaced: inode->offset = offset >> 2, or fix_offset. */
  function SetOffset(o: Order, raw: seq<byte>, offset: nat): (s: seq<byte>)
    requires |raw| == INODE_BYTES
    ensures |s| == INODE_BYTES
  {
    if o.LittleEndian? then Native(ReadInode(LittleEndian, raw).(offset := offset / 4))
    else
      var tmp := SwapWord(Value(raw[8..12]));
      raw[..8] + Digits(SwapWord(offset / 4 + tmp / OFFSET_LIMIT * OFFSET_LIMIT), 4)
  }

  lemma Two(v: nat)
    requires v < 0x1_0000
    ensures Digits(v / 0x100 + v % 0x100 * 0x100, 2) == Reverse(Digits(v, 2))
  {
    var w := v / 0x100 + v % 0x100 * 0x100;
    assert w % 256 == v / 256 && w / 256 == v % 256;
    assert Digits(v, 2) == [v % 256, v / 256] by {
      assert Digits(v / 256, 1) == [v / 256];
    }
    assert Digits(w, 2) == [w % 256, w / 256] by {
      assert Digits(w / 256, 1) == [w / 256];
    }
  }

  lemma ThreeDigits(v: nat)
    requires v < SIZE_LIMIT
    ensures Digits(v, 3) == [v % 256, v / 256 % 256, v / 65536]
  {
    assert Digits(v, 3) == [v % 256] + Digits(v / 256, 2);
    assert Digits(v / 256, 2) == [v / 256 % 256] + Digits(v / 256 / 256, 1);
    assert Digits(v / 256 / 256, 1) == [v / 256 / 256 % 256] + [];
    assert v / 256 / 256 == v / 65536 && v / 65536 < 256;
  }

  lemma NextDigit(x: nat, y: nat)
    requires x < 256
    ensures (x + 256 * y) % 256 == x && (x + 256 * y) / 256 == y
  {
  }

  lemma DivideInSteps(v: nat)
    ensures v / 65536 == v / 256 / 256 && v / 0x100_0000 == v / 256 / 256 / 256
  {
  }

  lemma Three(v: nat)
    requires v < SIZE_LIMIT
    ensures Digits(v / 0x1_0000 + v / 0x100 % 0x100 * 0x100 + v % 0x100 * 0x1_0000, 3) == Reverse(Digits(v, 3))
  {
    hide Digits;
    var a, b, c := v % 256, v / 256 % 256, v / 65536;
    var w2 := b + 256 * a;
    var w := c + 256 * w2;
    NextDigit(b, a);
    NextDigit(c, w2);
    DivideInSteps(v);
    DivideInSteps(w);
    ThreeDigits(v);
    ThreeDigits(w);
  }

  lemma FourDigits(v: nat)
    requires v < 0x1_0000_0000
    ensures Digits(v, 4) == [v % 256, v / 256 % 256, v / 65536 % 256, v / 0x100_0000]
  {
    assert Digits(v, 4) == [v % 256] + Digits(v / 256, 3);
    ThreeDigits(v / 256);
    assert v / 256 / 256 == v / 65536 && v / 256 / 65536 == v / 0x100_0000;
  }

  /** wswap reverses the four bytes of a word. */
  lemma SwapReverses(v: nat)
    requires v < 0x1_0000_0000
    ensures SwapWord(v) < 0x1_0000_0000 && Digits(SwapWord(v), 4) == Reverse(Digits(v, 4))
  {
    hide Digits;
    var a, b, c, d := v % 256, v / 256 % 256, v / 65536 % 256, v / 0x100_0000;
    DivideInSteps(v);
    var w3 := b + 256 * a;
    var w2 := c + 256 * w3;
    var w := d + 256 * w2;
    assert w == SwapWord(v);
    NextDigit(b, a);
    NextDigit(c, w3);
    NextDigit(d, w2);
    DivideInSteps(w);
    FourDigits(v);
    FourDigits(w);
  }

  /** fix_inode turns the host's inode into that of a big-endian machine. */
  lemma FixedInode(i: Inode)
    requires i.Fits()
    ensures FixInode(Native(i)) == Foreign(i)
  {
    hide Digits, Value, Reverse, SwapWord;
    InodeRoundTrip(LittleEndian, i);
    SecondWord(i);
    Two(i.mode);
    Two(i.uid);
    Three(i.size);
    SwapReverses(i.offset + i.namelen * OFFSET_LIMIT);
  }

  lemma ForeignParts(i: Inode)
    ensures Foreign(i)[8..12] == Reverse(Digits(i.namelen * OFFSET_LIMIT + i.offset, 4))
    ensures forall j: Inode :: j == i.(offset := j.offset) ==> Foreign(j)[..8] == Foreign(i)[..8]
  {
    hide Digits, Reverse;
  }

  lemma SwapBack(v: nat)
    requires v < 0x1_0000_0000
    ensures SwapWord(Value(Reverse(Digits(v, 4)))) == v
  {
    hide Digits, Value, SwapWord;
    var w := SwapWord(v);
    Bounds();
    SwapReverses(v);
    ValueOfDigits(w, 4);
    SwapReverses(w);
    ReverseTwice(Digits(v, 4));
    ValueOfDigits(v, 4);
    ValueOfDigits(SwapWord(w), 4);
  }

  /** Setting the offset later changes nothing but the offset, in either byte order. */
  lemma OffsetIsSet(o: Order, i: Inode, offset: nat)
    requires i.Fits() && offset < 4 * OFFSET_LIMIT
    ensures SetOffset(o, InodeBytes(o, i), offset) == InodeBytes(o, i.(offset := offset / 4))
  {
    hide Digits, Value, Reverse, SwapWord;
    var j := i.(offset := offset / 4);
    if o.LittleEndian? {
      InodeRoundTrip(o, i);
    } else {
      SecondWord(i);
      SecondWord(j);
      ForeignParts(i);
      ForeignParts(j);
      SwapBack(i.namelen * OFFSET_LIMIT + i.offset);
      SplitWord(i);
      SwapReverses(j.namelen * OFFSET_LIMIT + j.offset);
      assert Foreign(j) == Foreign(j)[..8] + Foreign(j)[8..12];
    }
  }
}
