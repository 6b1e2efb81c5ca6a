/** CRC-32 as the image tools and the network driver compute it: the table-driven loop, the bit-by-bit loop,
    and what a check of the sum is sure to notice. */
module Crc32 {
  const POLY: bv32 := 0xEDB88320   // the polynomial of section 8 of RFC 1952, reflected
  const INIT: bv32 := 0xFFFFFFFF

  // ---- the register's operations and their laws ----

  function Xor(a: bv32, b: bv32): bv32 {
    a ^ b
  }

  function Half(x: bv32): bv32 {
    x >> 1
  }

  function Twice(x: bv32): bv32 {
    x << 1
  }

  predicate Odd(x: bv32) {
    x & 1 == 1
  }

  predicate Top(x: bv32) {
    x & 0x80000000 != 0
  }

  function Unit(d: bool): bv32 {
    if d then 1 else 0
  }

  lemma XorCommutes(a: bv32, b: bv32)
    ensures Xor(a, b) == Xor(b, a)
  {
  }

  lemma XorAssociates(a: bv32, b: bv32, c: bv32)
    ensures Xor(Xor(a, b), c) == Xor(a, Xor(b, c))
  {
  }

  lemma XorUnit(a: bv32)
    ensures Xor(a, 0) == a && Xor(a, a) == 0
  {
  }

  lemma XorLaws(a: bv32, b: bv32, c: bv32)
    ensures Xor(a, b) == Xor(b, a) && Xor(Xor(a, b), c) == Xor(a, Xor(b, c))
    ensures Xor(a, 0) == a && Xor(a, a) == 0
  {
    hide Xor;
    XorCommutes(a, b);
    XorAssociates(a, b, c);
    XorUnit(a);
  }

  lemma XorCancels(a: bv32, b: bv32, c: bv32)
    requires Xor(a, c) == Xor(b, c)
    ensures a == b
  {
  }

  lemma HalfXor(a: bv32, b: bv32)
    ensures Half(Xor(a, b)) == Xor(Half(a), Half(b))
  {
  }

  lemma OddXor(a: bv32, b: bv32)
    ensures Odd(Xor(a, b)) == (Odd(a) != Odd(b))
  {
  }

  lemma HalfAndOddDetermine(a: bv32, b: bv32)
    requires Half(a) == Half(b) && Odd(a) == Odd(b)
    ensures a == b
  {
  }

  lemma UnitLaws(d: bool)
    ensures Odd(Unit(d)) == d && Half(Unit(d)) == 0
  {
  }

  lemma TwiceLaws(x: bv32)
    ensures !Odd(Twice(x)) && (!Top(x) ==> Half(Twice(x)) == x)
  {
  }

  lemma TopHalf(x: bv32)
    ensures !Top(Half(x)) && Top(Xor(Half(x), POLY))
  {
  }

  // ---- one step ----

  /** One step of the shift register. */
  function Shift(c: bv32): bv32 {
    if Odd(c) then Xor(Half(c), POLY) else Half(c)
  }

  /** The inner loop of eth_crc32: shift in one data bit. */
  function FeedBit(c: bv32, d: bool): bv32 {
    if Odd(c) != d then Xor(Half(c), POLY) else Half(c)
  }

  /** The low bit of the register can be told from the high bit of the next. */
  lemma ShiftInjective(c: bv32, d: bv32)
    requires Shift(c) == Shift(d)
    ensures c == d
  {
    hide Xor, Half, Odd, Top;
    TopHalf(c);
    TopHalf(d);
    if Odd(c) {
      XorCancels(Half(c), Half(d), POLY);
    }
    HalfAndOddDetermine(c, d);
  }

  lemma ShiftLinear(c: bv32, d: bv32)
    ensures Shift(Xor(c, d)) == Xor(Shift(c), Shift(d))
  {
    hide Xor, Half, Odd;
    HalfXor(c, d);
    OddXor(c, d);
    var x, y := Half(c), Half(d);
    XorLaws(x, y, POLY);
    XorLaws(x, POLY, y);
    XorLaws(POLY, y, x);
    XorLaws(POLY, y, POLY);
    XorLaws(x, POLY, Xor(y, POLY));
    XorLaws(Xor(y, POLY), POLY, POLY);
    XorLaws(POLY, Xor(y, POLY), y);
    XorLaws(y, POLY, POLY);
  }

  lemma FeedIsShift(c: bv32, d: bool)
    ensures FeedBit(c, d) == Shift(Xor(c, Unit(d)))
  {
    hide Xor, Half, Odd, Unit;
    HalfXor(c, Unit(d));
    OddXor(c, Unit(d));
    UnitLaws(d);
    XorLaws(Half(c), 0, 0);
  }

  lemma ShiftUndoesTwice(x: bv32)
    requires !Top(x)
    ensures Shift(Twice(x)) == x
  {
    hide Xor, Half, Odd, Twice, Top;
    TwiceLaws(x);
  }

  // ---- many bits ----

  /** n steps of the shift register. */
  function Shifts(n: nat, c: bv32): bv32
    decreases n
  {
    if n == 0 then c else Shifts(n - 1, Shift(c))
  }

  /** The register after a string of data bits. */
  function FeedBits(c: bv32, bits: seq<bool>): bv32
    decreases |bits|
  {
    if bits == [] then c else FeedBits(FeedBit(c, bits[0]), bits[1..])
  }

  /** At most 32 bits as a word, the first bit lowest. */
  function Word(bits: seq<bool>): bv32 {
    if bits == [] then 0 else Xor(Twice(Word(bits[1..])), Unit(bits[0]))
  }

  lemma {:induction false} ShiftsInjective(n: nat, c: bv32, d: bv32)
    requires Shifts(n, c) == Shifts(n, d)
    ensures c == d
    decreases n
  {
    hide Shift;
    if n == 0 {
    } else {
      ShiftsInjective(n - 1, Shift(c), Shift(d));
      ShiftInjective(c, d);
    }
  }

  lemma {:induction false} ShiftsLinear(n: nat, c: bv32, d: bv32)
    ensures Shifts(n, Xor(c, d)) == Xor(Shifts(n, c), Shifts(n, d))
    decreases n
  {
    hide Shift, Xor;
    if n == 0 {
    } else {
      ShiftLinear(c, d);
      ShiftsLinear(n - 1, Shift(c), Shift(d));
    }
  }

  /** Bit k of a word. */
  predicate BitAt(x: bv32, k: nat)
    decreases k
  {
    if k == 0 then Odd(x) else BitAt(Half(x), k - 1)
  }

  /** x has at most its n low bits set. */
  predicate FitsIn(x: bv32, n: nat)
    decreases n
  {
    if n == 0 then x == 0 else FitsIn(Half(x), n - 1)
  }

  lemma ZeroHalves()
    ensures Half(0) == 0 && !Odd(0)
  {
  }

  lemma {:induction false} NoHighBit(x: bv32, n: nat, k: nat)
    requires FitsIn(x, n) && k >= n
    ensures !BitAt(x, k)
    decreases k
  {
    hide Half, Odd;
    ZeroHalves();
    if n > 0 {
      NoHighBit(Half(x), n - 1, k - 1);
    } else if k > 0 {
      NoHighBit(Half(x), 0, k - 1);
    }
  }

  /** x >> (4 * n) */
  function DownFours(x: bv32, n: nat): bv32 {
    if n == 0 then x else DownFours(x >> 4, n - 1)
  }

  lemma FourHalves(x: bv32)
    ensures Half(Half(Half(Half(x)))) == x >> 4
  {
  }

  lemma FourBitsDown(x: bv32, k: nat)
    ensures BitAt(x, k + 4) == BitAt(x >> 4, k)
  {
    FourHalves(x);
    hide Half, Odd;
    var a, b, c := Half(x), Half(Half(x)), Half(Half(Half(x)));
    assert BitAt(x, k + 4) == BitAt(a, k + 3);
    assert BitAt(a, k + 3) == BitAt(b, k + 2);
    assert BitAt(b, k + 2) == BitAt(c, k + 1);
  }

  lemma {:induction false} FoursDown(x: bv32, n: nat, k: nat)
    ensures BitAt(x, 4 * n + k) == BitAt(DownFours(x, n), k)
    decreases n
  {
    hide Half, Odd;
    if n == 0 {
    } else {
      FourBitsDown(x, 4 * (n - 1) + k);
      FoursDown(x >> 4, n - 1, k);
    }
  }

  lemma TopNibble(x: bv32)
    ensures Odd(Half(Half(Half(x >> 28)))) == Top(x)
  {
  }

  lemma SevenFours(x: bv32)
    ensures DownFours(x, 7) == x >> 28
  {
    assert (x >> 4) >> 4 == x >> 8;
    assert (x >> 8) >> 4 == x >> 12;
    assert (x >> 12) >> 4 == x >> 16;
    assert (x >> 16) >> 4 == x >> 20;
    assert (x >> 20) >> 4 == x >> 24;
    assert (x >> 24) >> 4 == x >> 28;
    assert DownFours(x >> 24, 1) == x >> 28;
    assert DownFours(x >> 16, 3) == DownFours(x >> 20, 2) == DownFours(x >> 24, 1);
    assert DownFours(x >> 8, 5) == DownFours(x >> 12, 4) == DownFours(x >> 16, 3);
  }

  lemma TopIsBit31(x: bv32)
    ensures Top(x) == BitAt(x, 31)
  {
    hide Half, Odd, Top;
    FoursDown(x, 7, 3);
    SevenFours(x);
    TopNibble(x);
    var y := x >> 28;
    assert BitAt(y, 3) == BitAt(Half(y), 2);
    assert BitAt(Half(y), 2) == BitAt(Half(Half(y)), 1);
  }

  /** The bits of a word built from a string: the string is recovered bit by bit. */
  lemma HalveWord(w: bv32, d: bool)
    requires !Top(w)
    ensures Half(Xor(Twice(w), Unit(d))) == w && Odd(Xor(Twice(w), Unit(d))) == d
  {
    hide Xor, Half, Twice, Odd, Top, Unit;
    TwiceLaws(w);
    UnitLaws(d);
    HalfXor(Twice(w), Unit(d));
    OddXor(Twice(w), Unit(d));
    XorLaws(w, 0, 0);
  }

  lemma {:induction false} WordFits(bits: seq<bool>)
    requires |bits| <= 32
    ensures FitsIn(Word(bits), |bits|)
    ensures |bits| < 32 ==> !Top(Word(bits))
  {
    hide Xor, Half, Twice, Odd, Top, Unit;
    if bits == [] {
    } else {
      WordFits(bits[1..]);
      HalveWord(Word(bits[1..]), bits[0]);
    }
    if |bits| < 32 {
      NoHighBit(Word(bits), |bits|, 31);
      TopIsBit31(Word(bits));
    }
  }

  /** Different strings of equal length up to 32 have different words. */
  lemma {:induction false} WordInjective(u: seq<bool>, v: seq<bool>)
    requires |u| == |v| <= 32 && Word(u) == Word(v)
    ensures u == v
  {
    hide Xor, Half, Twice, Odd, Top, Unit;
    if u == [] {
    } else {
      WordFits(u[1..]);
      WordFits(v[1..]);
      HalveWord(Word(u[1..]), u[0]);
      HalveWord(Word(v[1..]), v[0]);
      WordInjective(u[1..], v[1..]);
      assert u == [u[0]] + u[1..] && v == [v[0]] + v[1..];
    }
  }

  /** Feeding up to 32 bits is xoring them into the register and shifting. */
  lemma {:induction false} FeedBitsIsXor(c: bv32, bits: seq<bool>)
    requires |bits| <= 32
    ensures FeedBits(c, bits) == Shifts(|bits|, Xor(c, Word(bits)))
    decreases |bits|
  {
    hide Shift, FeedBit, Unit, Xor, Twice, Top;
    XorLaws(c, 0, 0);
    if bits == [] {
    } else {
      var rest, w, b := bits[1..], Word(bits[1..]), Unit(bits[0]);
      FeedIsShift(c, bits[0]);
      FeedBitsIsXor(Shift(Xor(c, b)), rest);
      WordFits(rest);
      ShiftUndoesTwice(w);
      XorLaws(c, b, Twice(w));
      XorLaws(b, Twice(w), 0);
      ShiftLinear(Xor(c, b), Twice(w));
    }
  }

  lemma {:induction false} FeedConcat(c: bv32, a: seq<bool>, b: seq<bool>)
    ensures FeedBits(c, a + b) == FeedBits(FeedBits(c, a), b)
    decreases |a|
  {
    hide FeedBit;
    if a == [] {
      assert a + b == b;
    } else {
      assert (a + b)[1..] == a[1..] + b;
      FeedConcat(FeedBit(c, a[0]), a[1..], b);
    }
  }

  /** The same data keeps different registers different. */
  lemma {:induction false} FeedInjective(c: bv32, d: bv32, bits: seq<bool>)
    requires FeedBits(c, bits) == FeedBits(d, bits)
    ensures c == d
    decreases |bits|
  {
    hide Shift, FeedBit, Unit, Xor;
    if bits == [] {
    } else {
      FeedInjective(FeedBit(c, bits[0]), FeedBit(d, bits[0]), bits[1..]);
      FeedIsShift(c, bits[0]);
      FeedIsShift(d, bits[0]);
      ShiftInjective(Xor(c, Unit(bits[0])), Xor(d, Unit(bits[0])));
      XorCancels(c, d, Unit(bits[0]));
    }
  }

  /** Burst detection: two strings that differ, but only within 32 consecutive bits, never have the same sum,
      whatever the common parts and the starting value. */
  lemma BurstChangesSum(c: bv32, front: seq<bool>, u: seq<bool>, v: seq<bool>, back: seq<bool>)
    requires |u| == |v| <= 32 && u != v
    ensures FeedBits(c, front + u + back) != FeedBits(c, front + v + back)
  {
    hide FeedBits, Shifts, Xor, Word;
    var at := FeedBits(c, front);
    FeedConcat(c, front + u, back);
    FeedConcat(c, front, u);
    FeedConcat(c, front + v, back);
    FeedConcat(c, front, v);
    if FeedBits(c, front + u + back) == FeedBits(c, front + v + back) {
      FeedInjective(FeedBits(at, u), FeedBits(at, v), back);
      FeedBitsIsXor(at, u);
      FeedBitsIsXor(at, v);
      ShiftsInjective(|u|, Xor(at, Word(u)), Xor(at, Word(v)));
      XorLaws(at, Word(u), 0);
      XorLaws(at, Word(v), 0);
      XorCancels(Word(u), Word(v), at);
      WordInjective(u, v);
    }
  }

  // ---- bytes ----

  /** The eight bits of a byte, in the order they enter the register. */
  function Bits(b: bv8): (r: seq<bool>)
    ensures |r| == 8
  {
    [b & 1 != 0, b & 2 != 0, b & 4 != 0, b & 8 != 0, b & 16 != 0, b & 32 != 0, b & 64 != 0, b & 128 != 0]
  }

  function AllBits(s: seq<bv8>): (r: seq<bool>)
    ensures |r| == 8 * |s|
  {
    if s == [] then [] else Bits(s[0]) + AllBits(s[1..])
  }

  /** The sum of a byte string, from a starting value: its bits, low bit first, through the shift register. */
  function Sum(c: bv32, s: seq<bv8>): bv32 {
    FeedBits(c, AllBits(s))
  }

  lemma {:induction false} AllBitsConcat(s: seq<bv8>, t: seq<bv8>)
    ensures AllBits(s + t) == AllBits(s) + AllBits(t)
    decreases |s|
  {
    hide Bits;
    if s == [] {
      assert s + t == t;
    } else {
      assert (s + t)[1..] == s[1..] + t;
      AllBitsConcat(s[1..], t);
    }
  }

  lemma BitsInjective(a: bv8, b: bv8)
    requires Bits(a) == Bits(b)
    ensures a == b
  {
    var u, v := Bits(a), Bits(b);
    assert u[0] == v[0] && u[1] == v[1] && u[2] == v[2] && u[3] == v[3];
    assert u[4] == v[4] && u[5] == v[5] && u[6] == v[6] && u[7] == v[7];
  }

  lemma {:induction false} AllBitsInjective(s: seq<bv8>, t: seq<bv8>)
    requires |s| == |t| && AllBits(s) == AllBits(t)
    ensures s == t
    decreases |s|
  {
    hide Bits;
    if s == [] {
    } else {
      assert AllBits(s)[..8] == Bits(s[0]) && AllBits(s)[8..] == AllBits(s[1..]);
      assert AllBits(t)[..8] == Bits(t[0]) && AllBits(t)[8..] == AllBits(t[1..]);
      BitsInjective(s[0], t[0]);
      AllBitsInjective(s[1..], t[1..]);
      assert s == [s[0]] + s[1..] && t == [t[0]] + t[1..];
    }
  }

  lemma SumOfConcat(c: bv32, s: seq<bv8>, t: seq<bv8>)
    ensures Sum(c, s + t) == Sum(Sum(c, s), t)
  {
    AllBitsConcat(s, t);
    FeedConcat(c, AllBits(s), AllBits(t));
  }

  lemma SumOfOne(c: bv32, b: bv8)
    ensures Sum(c, [b]) == FeedBits(c, Bits(b))
  {
    hide Bits, FeedBits;
    assert [b][1..] == [];
    assert Bits(b) + [] == Bits(b);
  }

  // ---- the table ----

  /** The table of 256 words, sixteen to a row. */
  function Row(n: bv8): (r: seq<bv32>)
    ensures |r| == 16
  {
    if n == 0 then
      [0x00000000, 0x77073096, 0xEE0E612C, 0x990951BA, 0x076DC419, 0x706AF48F, 0xE963A535, 0x9E6495A3,
       0x0EDB8832, 0x79DCB8A4, 0xE0D5E91E, 0x97D2D988, 0x09B64C2B, 0x7EB17CBD, 0xE7B82D07, 0x90BF1D91]
    else if n == 1 then
      [0x1DB71064, 0x6AB020F2, 0xF3B97148, 0x84BE41DE, 0x1ADAD47D, 0x6DDDE4EB, 0xF4D4B551, 0x83D385C7,
       0x136C9856, 0x646BA8C0, 0xFD62F97A, 0x8A65C9EC, 0x14015C4F, 0x63066CD9, 0xFA0F3D63, 0x8D080DF5]
    else if n == 2 then
      [0x3B6E20C8, 0x4C69105E, 0xD56041E4, 0xA2677172, 0x3C03E4D1, 0x4B04D447, 0xD20D85FD, 0xA50AB56B,
       0x35B5A8FA, 0x42B2986C, 0xDBBBC9D6, 0xACBCF940, 0x32D86CE3, 0x45DF5C75, 0xDCD60DCF, 0xABD13D59]
    else if n == 3 then
      [0x26D930AC, 0x51DE003A, 0xC8D75180, 0xBFD06116, 0x21B4F4B5, 0x56B3C423, 0xCFBA9599, 0xB8BDA50F,
       0x2802B89E, 0x5F058808, 0xC60CD9B2, 0xB10BE924, 0x2F6F7C87, 0x58684C11, 0xC1611DAB, 0xB6662D3D]
    else if n == 4 then
      [0x76DC4190, 0x01DB7106, 0x98D220BC, 0xEFD5102A, 0x71B18589, 0x06B6B51F, 0x9FBFE4A5, 0xE8B8D433,
       0x7807C9A2, 0x0F00F934, 0x9609A88E, 0xE10E9818, 0x7F6A0DBB, 0x086D3D2D, 0x91646C97, 0xE6635C01]
    else if n == 5 then
      [0x6B6B51F4, 0x1C6C6162, 0x856530D8, 0xF262004E, 0x6C0695ED, 0x1B01A57B, 0x8208F4C1, 0xF50FC457,
       0x65B0D9C6, 0x12B7E950, 0x8BBEB8EA, 0xFCB9887C, 0x62DD1DDF, 0x15DA2D49, 0x8CD37CF3, 0xFBD44C65]
    else if n == 6 then
      [0x4DB26158, 0x3AB551CE, 0xA3BC0074, 0xD4BB30E2, 0x4ADFA541, 0x3DD895D7, 0xA4D1C46D, 0xD3D6F4FB,
       0x4369E96A, 0x346ED9FC, 0xAD678846, 0xDA60B8D0, 0x44042D73, 0x33031DE5, 0xAA0A4C5F, 0xDD0D7CC9]
    else if n == 7 then
      [0x5005713C, 0x270241AA, 0xBE0B1010, 0xC90C2086, 0x5768B525, 0x206F85B3, 0xB966D409, 0xCE61E49F,
       0x5EDEF90E, 0x29D9C998, 0xB0D09822, 0xC7D7A8B4, 0x59B33D17, 0x2EB40D81, 0xB7BD5C3B, 0xC0BA6CAD]
    else if n == 8 then
      [0xEDB88320, 0x9ABFB3B6, 0x03B6E20C, 0x74B1D29A, 0xEAD54739, 0x9DD277AF, 0x04DB2615, 0x73DC1683,
       0xE3630B12, 0x94643B84, 0x0D6D6A3E, 0x7A6A5AA8, 0xE40ECF0B, 0x9309FF9D, 0x0A00AE27, 0x7D079EB1]
    else if n == 9 then
      [0xF00F9344, 0x8708A3D2, 0x1E01F268, 0x6906C2FE, 0xF762575D, 0x806567CB, 0x196C3671, 0x6E6B06E7,
       0xFED41B76, 0x89D32BE0, 0x10DA7A5A, 0x67DD4ACC, 0xF9B9DF6F, 0x8EBEEFF9, 0x17B7BE43, 0x60B08ED5]
    else if n == 10 then
      [0xD6D6A3E8, 0xA1D1937E, 0x38D8C2C4, 0x4FDFF252, 0xD1BB67F1, 0xA6BC5767, 0x3FB506DD, 0x48B2364B,
       0xD80D2BDA, 0xAF0A1B4C, 0x36034AF6, 0x41047A60, 0xDF60EFC3, 0xA867DF55, 0x316E8EEF, 0x4669BE79]
    else if n == 11 then
      [0xCB61B38C, 0xBC66831A, 0x256FD2A0, 0x5268E236, 0xCC0C7795, 0xBB0B4703, 0x220216B9, 0x5505262F,
       0xC5BA3BBE, 0xB2BD0B28, 0x2BB45A92, 0x5CB36A04, 0xC2D7FFA7, 0xB5D0CF31, 0x2CD99E8B, 0x5BDEAE1D]
    else if n == 12 then
      [0x9B64C2B0, 0xEC63F226, 0x756AA39C, 0x026D930A, 0x9C0906A9, 0xEB0E363F, 0x72076785, 0x05005713,
       0x95BF4A82, 0xE2B87A14, 0x7BB12BAE, 0x0CB61B38, 0x92D28E9B, 0xE5D5BE0D, 0x7CDCEFB7, 0x0BDBDF21]
    else if n == 13 then
      [0x86D3D2D4, 0xF1D4E242, 0x68DDB3F8, 0x1FDA836E, 0x81BE16CD, 0xF6B9265B, 0x6FB077E1, 0x18B74777,
       0x88085AE6, 0xFF0F6A70, 0x66063BCA, 0x11010B5C, 0x8F659EFF, 0xF862AE69, 0x616BFFD3, 0x166CCF45]
    else if n == 14 then
      [0xA00AE278, 0xD70DD2EE, 0x4E048354, 0x3903B3C2, 0xA7672661, 0xD06016F7, 0x4969474D, 0x3E6E77DB,
       0xAED16A4A, 0xD9D65ADC, 0x40DF0B66, 0x37D83BF0, 0xA9BCAE53, 0xDEBB9EC5, 0x47B2CF7F, 0x30B5FFE9]
    else
      [0xBDBDF21C, 0xCABAC28A, 0x53B39330, 0x24B4A3A6, 0xBAD03605, 0xCDD70693, 0x54DE5729, 0x23D967BF,
       0xB3667A2E, 0xC4614AB8, 0x5D681B02, 0x2A6F2B94, 0xB40BBE37, 0xC30C8EA1, 0x5A05DF1B, 0x2D02EF8D]
  }

  function Table(x: bv8): bv32 {
    Row(x >> 4)[(x & 15) as nat]
  }

  /** Eight steps of the register, written out. */
  function Eight(c: bv32): bv32 {
    Shift(Shift(Shift(Shift(Shift(Shift(Shift(Shift(c))))))))
  }

  lemma TablePart0(x: bv8)
    requires x >> 4 == 0
    ensures Table(x) == Eight(x as bv32)
  {
    match x {
      case 0x00 => case 0x01 => case 0x02 => case 0x03 => case 0x04 => case 0x05 => case 0x06 => case 0x07 =>
      case 0x08 => case 0x09 => case 0x0A => case 0x0B => case 0x0C => case 0x0D => case 0x0E => case _ =>
    }
  }

  lemma TablePart1(x: bv8)
    requires x >> 4 == 1
    ensures Table(x) == Eight(x as bv32)
  {
    match x {
      case 0x10 => case 0x11 => case 0x12 => case 0x13 => case 0x14 => case 0x15 => case 0x16 => case 0x17 =>
      case 0x18 => case 0x19 => case 0x1A => case 0x1B => case 0x1C => case 0x1D => case 0x1E => case _ =>
    }
  }

  lemma TablePart2(x: bv8)
    requires x >> 4 == 2
    ensures Table(x) == Eight(x as bv32)
  {
    match x {
      case 0x20 => case 0x21 => case 0x22 => case 0x23 => case 0x24 => case 0x25 => case 0x26 => case 0x27 =>
      case 0x28 => case 0x29 => case 0x2A => case 0x2B => case 0x2C => case 0x2D => case 0x2E => case _ =>
    }
  }

  lemma TablePart3(x: bv8)
    requires x >> 4 == 3
    ensures Table(x) == Eight(x as bv32)
  {
    match x {
      case 0x30 => case 0x31 => case 0x32 => case 0x33 => case 0x34 => case 0x35 => case 0x36 => case 0x37 =>
      case 0x38 => case 0x39 => case 0x3A => case 0x3B => case 0x3C => case 0x3D => case 0x3E => case _ =>
    }
  }

  lemma TablePart4(x: bv8)
    requires x >> 4 == 4
    ensures Table(x) == Eight(x as bv32)
  {
    match x {
      case 0x40 => case 0x41 => case 0x42 => case 0x43 => case 0x44 => case 0x45 => case 0x46 => case 0x47 =>
      case 0x48 => case 0x49 => case 0x4A => case 0x4B => case 0x4C => case 0x4D => case 0x4E => case _ =>
    }
  }

  lemma TablePart5(x: bv8)
    requires x >> 4 == 5
    ensures Table(x) == Eight(x as bv32)
  {
    match x {
      case 0x50 => case 0x51 => case 0x52 => case 0x53 => case 0x54 => case 0x55 => case 0x56 => case 0x57 =>
      case 0x58 => case 0x59 => case 0x5A => case 0x5B => case 0x5C => case 0x5D => case 0x5E => case _ =>
    }
  }

  lemma TablePart6(x: bv8)
    requires x >> 4 == 6
    ensures Table(x) == Eight(x as bv32)
  {
    match x {
      case 0x60 => case 0x61 => case 0x62 => case 0x63 => case 0x64 => case 0x65 => case 0x66 => case 0x67 =>
      case 0x68 => case 0x69 => case 0x6A => case 0x6B => case 0x6C => case 0x6D => case 0x6E => case _ =>
    }
  }

  lemma TablePart7(x: bv8)
    requires x >> 4 == 7
    ensures Table(x) == Eight(x as bv32)
  {
    match x {
      case 0x70 => case 0x71 => case 0x72 => case 0x73 => case 0x74 => case 0x75 => case 0x76 => case 0x77 =>
      case 0x78 => case 0x79 => case 0x7A => case 0x7B => case 0x7C => case 0x7D => case 0x7E => case _ =>
    }
  }

  lemma TablePart8(x: bv8)
    requires x >> 4 == 8
    ensures Table(x) == Eight(x as bv32)
  {
    match x {
      case 0x80 => case 0x81 => case 0x82 => case 0x83 => case 0x84 => case 0x85 => case 0x86 => case 0x87 =>
      case 0x88 => case 0x89 => case 0x8A => case 0x8B => case 0x8C => case 0x8D => case 0x8E => case _ =>
    }
  }

  lemma TablePart9(x: bv8)
    requires x >> 4 == 9
    ensures Table(x) == Eight(x as bv32)
  {
    match x {
      case 0x90 => case 0x91 => case 0x92 => case 0x93 => case 0x94 => case 0x95 => case 0x96 => case 0x97 =>
      case 0x98 => case 0x99 => case 0x9A => case 0x9B => case 0x9C => case 0x9D => case 0x9E => case _ =>
    }
  }

  lemma TablePartA(x: bv8)
    requires x >> 4 == 10
    ensures Table(x) == Eight(x as bv32)
  {
    match x {
      case 0xA0 => case 0xA1 => case 0xA2 => case 0xA3 => case 0xA4 => case 0xA5 => case 0xA6 => case 0xA7 =>
      case 0xA8 => case 0xA9 => case 0xAA => case 0xAB => case 0xAC => case 0xAD => case 0xAE => case _ =>
    }
  }

  lemma TablePartB(x: bv8)
    requires x >> 4 == 11
    ensures Table(x) == Eight(x as bv32)
  {
    match x {
      case 0xB0 => case 0xB1 => case 0xB2 => case 0xB3 => case 0xB4 => case 0xB5 => case 0xB6 => case 0xB7 =>
      case 0xB8 => case 0xB9 => case 0xBA => case 0xBB => case 0xBC => case 0xBD => case 0xBE => case _ =>
    }
  }

  lemma TablePartC(x: bv8)
    requires x >> 4 == 12
    ensures Table(x) == Eight(x as bv32)
  {
    match x {
      case 0xC0 => case 0xC1 => case 0xC2 => case 0xC3 => case 0xC4 => case 0xC5 => case 0xC6 => case 0xC7 =>
      case 0xC8 => case 0xC9 => case 0xCA => case 0xCB => case 0xCC => case 0xCD => case 0xCE => case _ =>
    }
  }

  lemma TablePartD(x: bv8)
    requires x >> 4 == 13
    ensures Table(x) == Eight(x as bv32)
  {
    match x {
      case 0xD0 => case 0xD1 => case 0xD2 => case 0xD3 => case 0xD4 => case 0xD5 => case 0xD6 => case 0xD7 =>
      case 0xD8 => case 0xD9 => case 0xDA => case 0xDB => case 0xDC => case 0xDD => case 0xDE => case _ =>
    }
  }

  lemma TablePartE(x: bv8)
    requires x >> 4 == 14
    ensures Table(x) == Eight(x as bv32)
  {
    match x {
      case 0xE0 => case 0xE1 => case 0xE2 => case 0xE3 => case 0xE4 => case 0xE5 => case 0xE6 => case 0xE7 =>
      case 0xE8 => case 0xE9 => case 0xEA => case 0xEB => case 0xEC => case 0xED => case 0xEE => case _ =>
    }
  }

  lemma TablePartF(x: bv8)
    requires x >> 4 == 15
    ensures Table(x) == Eight(x as bv32)
  {
    match x {
      case 0xF0 => case 0xF1 => case 0xF2 => case 0xF3 => case 0xF4 => case 0xF5 => case 0xF6 => case 0xF7 =>
      case 0xF8 => case 0xF9 => case 0xFA => case 0xFB => case 0xFC => case 0xFD => case 0xFE => case _ =>
    }
  }

  lemma TableIsEight(x: bv8)
    ensures Table(x) == Eight(x as bv32)
  {
    hide Table, Eight;
    match x >> 4 {
      case 0 => TablePart0(x);
      case 1 => TablePart1(x);
      case 2 => TablePart2(x);
      case 3 => TablePart3(x);
      case 4 => TablePart4(x);
      case 5 => TablePart5(x);
      case 6 => TablePart6(x);
      case 7 => TablePart7(x);
      case 8 => TablePart8(x);
      case 9 => TablePart9(x);
      case 10 => TablePartA(x);
      case 11 => TablePartB(x);
      case 12 => TablePartC(x);
      case 13 => TablePartD(x);
      case 14 => TablePartE(x);
      case _ => TablePartF(x);
    }
  }

  lemma EightIsShifts(c: bv32)
    ensures Eight(c) == Shifts(8, c)
  {
    hide Shift;
    var s1 := Shift(c);
    var s2 := Shift(s1);
    var s4 := Shift(Shift(s2));
    assert Shifts(8, c) == Shifts(7, s1) == Shifts(6, s2) == Shifts(5, Shift(s2)) == Shifts(4, s4);
    assert Shifts(4, s4) == Shifts(3, Shift(s4)) == Shifts(2, Shift(Shift(s4)));
  }

  /** Every one of the 256 entries is its index after eight steps of the register. */
  lemma TableEntry(x: bv8)
    ensures Table(x) == Shifts(8, x as bv32)
  {
    hide Table, Eight, Shifts;
    TableIsEight(x);
    EightIsShifts(x as bv32);
  }

  lemma FourEven(d: bv32)
    requires d & 0xF == 0
    ensures !Odd(d) && !Odd(Half(d)) && !Odd(Half(Half(d))) && !Odd(Half(Half(Half(d))))
    ensures Half(Half(Half(Half(d)))) == d >> 4
  {
  }

  lemma FourShifts(d: bv32)
    requires d & 0xF == 0
    ensures Shift(Shift(Shift(Shift(d)))) == d >> 4
  {
    FourEven(d);
    hide Half, Odd;
  }

  lemma LowByteClear(c: bv32)
    requires c & 0xFF == 0
    ensures c & 0xF == 0 && (c >> 4) & 0xF == 0 && (c >> 4) >> 4 == c >> 8
  {
  }

  /** A word whose low byte is zero moves down eight places unchanged. */
  lemma HighBytesMoveDown(c: bv32)
    requires c & 0xFF == 0
    ensures Shifts(8, c) == c >> 8
  {
    hide Shift, Shifts;
    LowByteClear(c);
    FourShifts(c);
    FourShifts(c >> 4);
    EightIsShifts(c);
  }

  /** A word with one more bit below it. */
  function Push(d: bool, x: bv32): bv32 {
    Xor(Twice(x), Unit(d))
  }

  lemma WordOfDrop(w: seq<bool>, k: nat)
    requires k < |w|
    ensures Word(w[k..]) == Push(w[k], Word(w[k + 1..]))
  {
    hide Xor, Twice, Unit;
    assert w[k..][1..] == w[k + 1..];
  }

  lemma WordOfNothing()
    ensures Word([]) == 0
  {
  }

  lemma EightPushes(b: bv8)
    ensures var u := Bits(b);
      b as bv32 == Push(u[0], Push(u[1], Push(u[2], Push(u[3], Push(u[4], Push(u[5], Push(u[6], Push(u[7], 0))))))))
  {
  }

  lemma WordOfBits(b: bv8)
    ensures Word(Bits(b)) == b as bv32
  {
    hide Bits, Word, Push;
    EightPushes(b);
    var w := Bits(b);
    WordOfNothing();
    assert w[8..] == [] && w[0..] == w;
    WordOfDrop(w, 7);
    WordOfDrop(w, 6);
    WordOfDrop(w, 5);
    WordOfDrop(w, 4);
    WordOfDrop(w, 3);
    WordOfDrop(w, 2);
    WordOfDrop(w, 1);
    WordOfDrop(w, 0);
  }

  // ---- the loops ----

  function Down(c: bv32): bv32 {
    c >> 8
  }

  function Low(c: bv32): bv32 {
    c & 0xFF
  }

  function High(c: bv32): bv32 {
    c & 0xFFFFFF00
  }

  function Index(c: bv32, b: bv8): bv8 {
    ((c ^ b as bv32) & 0xFF) as bv8
  }

  function Widen(b: bv8): bv32 {
    b as bv32
  }

  /** One turn of the table-driven loop. */
  function TableStep(c: bv32, b: bv8): bv32 {
    Xor(Down(c), Table(Index(c, b)))
  }

  lemma IndexIsLow(c: bv32, b: bv8)
    ensures Widen(Index(c, b)) == Low(Xor(c, Widen(b)))
  {
  }

  lemma DownOfXor(c: bv32, b: bv8)
    ensures Down(Xor(c, Widen(b))) == Down(c)
  {
  }

  lemma HighAndLow(y: bv32)
    ensures y == Xor(High(y), Low(y))
  {
  }

  lemma HighMovesDown(y: bv32)
    ensures Shifts(8, High(y)) == Down(y)
  {
    hide Shifts;
    HighBytesMoveDown(High(y));
  }

  lemma TableEntryWidened(x: bv8)
    ensures Table(x) == Shifts(8, Widen(x))
  {
    hide Table, Shifts;
    TableEntry(x);
  }

  lemma WordOfBitsWidened(b: bv8)
    ensures Word(Bits(b)) == Widen(b)
  {
    hide Word, Bits;
    WordOfBits(b);
  }

  /** The table takes a byte at once: one step of it is eight bits through the shift register. */
  lemma TableStepIsEightBits(c: bv32, b: bv8)
    ensures TableStep(c, b) == FeedBits(c, Bits(b))
  {
    hide Xor, Bits, Table, Shifts, Word, FeedBits, Down, Low, High, Index, Widen;
    var y := Xor(c, Widen(b));
    WordOfBitsWidened(b);
    FeedBitsIsXor(c, Bits(b));
    HighAndLow(y);
    ShiftsLinear(8, High(y), Low(y));
    HighMovesDown(y);
    DownOfXor(c, b);
    IndexIsLow(c, b);
    TableEntryWidened(Index(c, b));
  }

  lemma SumOfOneMore(c: bv32, s: seq<bv8>, b: bv8)
    ensures Sum(c, s + [b]) == TableStep(Sum(c, s), b)
  {
    hide Sum, TableStep, Bits, FeedBits;
    SumOfConcat(c, s, [b]);
    SumOfOne(Sum(c, s), b);
    TableStepIsEightBits(Sum(c, s), b);
  }

  lemma SumOfNothing(c: bv32)
    ensures Sum(c, []) == c
  {
  }

  lemma OneMoreByte(start: bv32, s: seq<bv8>, k: nat, c: bv32, next: bv32)
    requires k < |s| && Sum(start, s[..k]) == c && next == Xor(Down(c), Eight(Index(c, s[k]) as bv32))
    ensures Sum(start, s[..k + 1]) == next
  {
    hide Sum, Eight, Table, Xor, Down, Index;
    assert s[..k + 1] == s[..k] + [s[k]];
    SumOfOneMore(start, s[..k], s[k]);
    TableIsEight(Index(c, s[k]));
  }

  /** The check value of CRC-32, the sum of the nine digits from 1 to 9, without the final complement. */
  lemma CheckValue()
    ensures Sum(0xFFFFFFFF, [0x31, 0x32, 0x33, 0x34, 0x35, 0x36, 0x37, 0x38, 0x39]) == 0x340BC6D9
  {
    hide Sum;
    var s: seq<bv8> := [0x31, 0x32, 0x33, 0x34, 0x35, 0x36, 0x37, 0x38, 0x39];
    SumOfNothing(0xFFFFFFFF);
    assert s[..0] == [];
    OneMoreByte(0xFFFFFFFF, s, 0, 0xFFFFFFFF, 0x7C231048);
    OneMoreByte(0xFFFFFFFF, s, 1, 0x7C231048, 0xB0ACBB32);
    OneMoreByte(0xFFFFFFFF, s, 2, 0xB0ACBB32, 0x77B79C2D);
    OneMoreByte(0xFFFFFFFF, s, 3, 0x77B79C2D, 0x641C1F5C);
    OneMoreByte(0xFFFFFFFF, s, 4, 0x641C1F5C, 0x340AC5E3);
    OneMoreByte(0xFFFFFFFF, s, 5, 0x340AC5E3, 0xF68D2C9E);
    OneMoreByte(0xFFFFFFFF, s, 6, 0xF68D2C9E, 0xAFFC9660);
    OneMoreByte(0xFFFFFFFF, s, 7, 0xAFFC9660, 0x651F2550);
    OneMoreByte(0xFFFFFFFF, s, 8, 0x651F2550, 0x340BC6D9);
    assert s[..9] == s;
  }

  /** The table-driven loop of the image tools computes the bit-by-bit sum. */
  method GetCrc32(data: seq<bv8>, size: nat, start: bv32) returns (crc: bv32)
    requires size <= |data|
    ensures crc == Sum(start, data[..size])
  {
    hide Sum, TableStep;
    crc := start;
    SumOfNothing(start);
    var left, at := size, 0;
    while left > 0
      invariant at + left == size
      invariant crc == Sum(start, data[..at])
    {
      left := left - 1;
      SumOfOneMore(start, data[..at], data[at]);
      assert data[..at] + [data[at]] == data[..at + 1];
      crc := TableStep(crc, data[at]);
      at := at + 1;
    }
  }

  predicate Tests(d: bv8, u: seq<bool>)
    requires |u| == 8
  {
    && u[0] == (d & 1 != 0) && u[1] == (d & 2 != 0) && u[2] == (d & 4 != 0) && u[3] == (d & 8 != 0)
    && u[4] == (d & 16 != 0) && u[5] == (d & 32 != 0) && u[6] == (d & 64 != 0) && u[7] == (d & 128 != 0)
  }

  lemma BitsTest(d: bv8)
    ensures Tests(d, Bits(d))
  {
  }

  lemma HalfTests(d: bv8)
    ensures ((d >> 1) & 1 != 0) == (d & 2 != 0) && ((d >> 1) & 2 != 0) == (d & 4 != 0)
    ensures ((d >> 1) & 4 != 0) == (d & 8 != 0) && ((d >> 1) & 8 != 0) == (d & 16 != 0)
    ensures ((d >> 1) & 16 != 0) == (d & 32 != 0) && ((d >> 1) & 32 != 0) == (d & 64 != 0)
    ensures ((d >> 1) & 64 != 0) == (d & 128 != 0)
  {
  }

  lemma TestsOfHalf(d: bv8, u: seq<bool>, v: seq<bool>)
    requires |u| == |v| == 8 && Tests(d, u) && Tests(d >> 1, v)
    ensures u[0] == (d & 1 != 0)
    ensures v[0] == u[1] && v[1] == u[2] && v[2] == u[3] && v[3] == u[4] && v[4] == u[5] && v[5] == u[6] && v[6] == u[7]
  {
    HalfTests(d);
  }

  lemma BitsOfHalf(d: bv8)
    ensures Bits(d)[0] == (d & 1 != 0)
    ensures Bits(d >> 1)[..7] == Bits(d)[1..]
  {
    hide Bits, Tests;
    BitsTest(d);
    BitsTest(d >> 1);
    TestsOfHalf(d, Bits(d), Bits(d >> 1));
  }

  lemma FeedOneMore(c: bv32, front: seq<bool>, d: bool)
    ensures FeedBits(c, front + [d]) == FeedBit(FeedBits(c, front), d)
  {
    hide FeedBit;
    FeedConcat(c, front, [d]);
    assert [d][1..] == [];
  }

  lemma LowBitsDiffer(crc: bv32, data: bv8)
    ensures Odd(Xor(crc, data as bv32)) == (Odd(crc) != (data & 1 != 0))
  {
  }

  lemma BitStep(crc: bv32, data: bv8)
    ensures Xor(Half(crc), if Odd(Xor(crc, data as bv32)) then POLY else 0) == FeedBit(crc, data & 1 != 0)
  {
    LowBitsDiffer(crc, data);
    hide Odd, Xor, Half;
    XorUnit(Half(crc));
  }

  lemma FeedNothing(c: bv32)
    ensures FeedBits(c, []) == c
  {
  }

  /** The driver's inner loop: the eight bits of one byte. */
  method FeedByte(start: bv32, b: bv8) returns (crc: bv32)
    ensures crc == FeedBits(start, Bits(b))
  {
    hide Bits, FeedBits, FeedBit, Xor, Half, Odd;
    crc := start;
    var data, bit := b, 0;
    var bits := Bits(b);
    FeedNothing(start);
    assert bits[..0] == [] && bits[0..] == bits;
    while bit < 8
      invariant 0 <= bit <= 8
      invariant Bits(data)[..8 - bit] == bits[bit..]
      invariant crc == FeedBits(start, bits[..bit])
    {
      BitStep(crc, data);
      BitsOfHalf(data);
      assert Bits(data)[0] == Bits(data)[..8 - bit][0] == bits[bit];
      FeedOneMore(start, bits[..bit], bits[bit]);
      assert bits[..bit] + [bits[bit]] == bits[..bit + 1];
      crc := Xor(Half(crc), if Odd(Xor(crc, data as bv32)) then POLY else 0);
      assert Bits(data >> 1)[..8 - (bit + 1)] == Bits(data)[..8 - bit][1..];
      bit, data := bit + 1, data >> 1;
    }
    assert bits[..8] == bits;
  }

  /** The driver's bit-by-bit sum over a whole buffer. */
  method EthCrc32(databuf: seq<bv8>) returns (crc: bv32)
    ensures crc == Sum(0xFFFFFFFF, databuf)
  {
    hide Sum, Bits, FeedBits;
    crc := INIT;
    SumOfNothing(INIT);
    var idx := 0;
    while idx < |databuf|
      invariant 0 <= idx <= |databuf|
      invariant crc == Sum(INIT, databuf[..idx])
    {
      SumOfConcat(INIT, databuf[..idx], [databuf[idx]]);
      SumOfOne(crc, databuf[idx]);
      assert databuf[..idx] + [databuf[idx]] == databuf[..idx + 1];
      crc := FeedByte(crc, databuf[idx]);
      idx := idx + 1;
    }
    assert databuf[..|databuf|] == databuf;
  }

  // ---- what a check of the sum notices ----

  /** s and t agree except, perhaps, within four consecutive bytes. */
  ghost predicate Burst(s: seq<bv8>, t: seq<bv8>, at: nat) {
    |s| == |t| && forall i :: 0 <= i < |s| && !(at <= i < at + 4) ==> s[i] == t[i]
  }

  /** Two byte strings that differ, but only within four consecutive bytes, have different sums. */
  lemma ByteBurstChangesSum(c: bv32, s: seq<bv8>, t: seq<bv8>, at: nat)
    requires Burst(s, t, at) && s != t
    ensures Sum(c, s) != Sum(c, t)
  {
    hide AllBits;
    var from := if at <= |s| then at else |s|;
    var until := if at + 4 <= |s| then at + 4 else |s|;
    var u, v := s[from..until], t[from..until];
    var front, back := s[..from], s[until..];
    assert t[..from] == front && t[until..] == back;
    assert s == front + u + back && t == front + v + back;
    AllBitsConcat(front + u, back);
    AllBitsConcat(front, u);
    AllBitsConcat(front + v, back);
    AllBitsConcat(front, v);
    if AllBits(u) == AllBits(v) {
      AllBitsInjective(u, v);
      assert false;
    }
    BurstChangesSum(c, AllBits(front), AllBits(u), AllBits(v), AllBits(back));
  }

  function Highest(x: bv32): bv8 {
    (x >> 24) as bv8
  }

  function High2(x: bv32): bv8 {
    ((x >> 16) & 0xFF) as bv8
  }

  function High3(x: bv32): bv8 {
    ((x >> 8) & 0xFF) as bv8
  }

  function Lowest(x: bv32): bv8 {
    (x & 0xFF) as bv8
  }

  /** The bytes of htonl(x) in memory. */
  function BigEndian(x: bv32): (r: seq<bv8>)
    ensures |r| == 4
  {
    [Highest(x), High2(x), High3(x), Lowest(x)]
  }

  /** Four bytes as a word, the first the highest. */
  function HighFirst(a: bv8, b: bv8, c: bv8, d: bv8): bv32 {
    (a as bv32 << 24) | (b as bv32 << 16) | (c as bv32 << 8) | d as bv32
  }

  lemma WordOfBytes(x: bv32)
    ensures HighFirst(Highest(x), High2(x), High3(x), Lowest(x)) == x
  {
  }

  lemma HighestByte(a: bv8, b: bv8, c: bv8, d: bv8)
    ensures Highest(HighFirst(a, b, c, d)) == a
  {
  }

  lemma SecondByte(a: bv8, b: bv8, c: bv8, d: bv8)
    ensures High2(HighFirst(a, b, c, d)) == b
  {
  }

  lemma ThirdByte(a: bv8, b: bv8, c: bv8, d: bv8)
    ensures High3(HighFirst(a, b, c, d)) == c
  {
  }

  lemma LowestByte(a: bv8, b: bv8, c: bv8, d: bv8)
    ensures Lowest(HighFirst(a, b, c, d)) == d
  {
  }

  lemma BytesOfWord(x: bv32, a: bv8, b: bv8, c: bv8, d: bv8)
    ensures a == Highest(x) && b == High2(x) && c == High3(x) && d == Lowest(x) <==> HighFirst(a, b, c, d) == x
  {
    hide Highest, High2, High3, Lowest, HighFirst;
    WordOfBytes(x);
    HighestByte(a, b, c, d);
    SecondByte(a, b, c, d);
    ThirdByte(a, b, c, d);
    LowestByte(a, b, c, d);
  }

  /** The bytes of htonl(x) are those that, the first taken as the highest, are x. */
  lemma BigEndianIsHighFirst(x: bv32, t: seq<bv8>)
    requires |t| == 4
    ensures t == BigEndian(x) <==> HighFirst(t[0], t[1], t[2], t[3]) == x
  {
    hide Highest, High2, High3, Lowest, HighFirst;
    var r := BigEndian(x);
    BytesOfWord(x, t[0], t[1], t[2], t[3]);
    assert t == r <==> t[0] == r[0] && t[1] == r[1] && t[2] == r[2] && t[3] == r[3];
  }

  lemma BigEndianInjective(x: bv32, y: bv32)
    requires BigEndian(x) == BigEndian(y)
    ensures x == y
  {
    hide BigEndian, HighFirst;
    BigEndianIsHighFirst(x, BigEndian(x));
    BigEndianIsHighFirst(y, BigEndian(x));
  }

  /** The protected part of an image tag and its validation token, as verifyTag compares them. */
  predicate Accepted(body: seq<bv8>, token: seq<bv8>)
    requires |token| >= 4
  {
    token[..4] == BigEndian(Sum(INIT, body))
  }

  method VerifyTag(body: seq<bv8>, token: seq<bv8>) returns (status: int)
    requires |token| >= 4
    ensures status == 0 <==> HighFirst(token[0], token[1], token[2], token[3]) == Sum(0xFFFFFFFF, body)
    ensures status == if Accepted(body, token) then 0 else -1
  {
    hide Sum, BigEndian, HighFirst;
    status := 0;
    var crc := GetCrc32(body, |body|, INIT);
    assert body[..|body|] == body;
    BigEndianIsHighFirst(crc, token[..4]);
    if BigEndian(crc) != token[..4] {
      status := -1;
    }
  }

  /** From a tag that is accepted, one whose body changed only within four consecutive bytes, or whose token changed,
      is accepted only if nothing that counts has changed. */
  lemma CorruptionIsRejected(body: seq<bv8>, token: seq<bv8>, worse: seq<bv8>, other: seq<bv8>, at: nat)
    requires |token| >= 4 && |other| >= 4 && Accepted(body, token)
    requires body == worse || (Burst(body, worse, at) && token[..4] == other[..4])
    ensures Accepted(worse, other) <==> body == worse && token[..4] == other[..4]
  {
    hide Sum, BigEndian, Burst;
    if body != worse {
      ByteBurstChangesSum(INIT, body, worse, at);
      if BigEndian(Sum(INIT, body)) == BigEndian(Sum(INIT, worse)) {
        BigEndianInjective(Sum(INIT, body), Sum(INIT, worse));
        assert false;
      }
    }
  }

  // ---- the checksum at the end of the NVRAM record ----

  const ZEROS: seq<bv8> := [0, 0, 0, 0]

  /** The record with its checksum field zeroed. */
  function Cleared(record: seq<bv8>): seq<bv8>
    requires |record| >= 4
  {
    record[..|record| - 4] + ZEROS
  }

  /** The record with the right checksum, the sum of the record with the field zeroed, big-endian. */
  function Sealed(record: seq<bv8>): seq<bv8>
    requires |record| >= 4
  {
    record[..|record| - 4] + BigEndian(Sum(INIT, Cleared(record)))
  }

  lemma FourZeros(c: bv32)
    ensures Sum(c, ZEROS) == TableStep(TableStep(TableStep(TableStep(c, 0), 0), 0), 0)
  {
    hide Sum, TableStep;
    SumOfNothing(c);
    SumOfOneMore(c, [], 0);
    SumOfOneMore(c, [0], 0);
    SumOfOneMore(c, [0, 0], 0);
    SumOfOneMore(c, [0, 0, 0], 0);
    assert [] + [0] == [0 as bv8] && [0] + [0] == [0 as bv8, 0];
    assert [0, 0] + [0] == [0 as bv8, 0, 0] && [0, 0, 0] + [0] == ZEROS;
  }

  /** nvramcrc's own loop: the last four bytes of the record are never looked at, four zeros stand for them. */
  method NvramCrc(data: seq<bv8>, size: nat, start: bv32) returns (crc: bv32)
    requires size <= |data|
    ensures size >= 4 ==> crc == Sum(start, data[..size - 4] + [0, 0, 0, 0])
    ensures size < 4 ==> crc == Sum(start, [0, 0, 0, 0])
  {
    hide Sum, TableStep;
    crc := start;
    SumOfNothing(start);
    var left, at := size, 0;
    while left > 4
      invariant at + left == size
      invariant at == 0 || left >= 4
      invariant crc == Sum(start, data[..at])
    {
      left := left - 1;
      SumOfOneMore(start, data[..at], data[at]);
      assert data[..at] + [data[at]] == data[..at + 1];
      crc := TableStep(crc, data[at]);
      at := at + 1;
    }
    FourZeros(crc);
    SumOfConcat(start, data[..at], ZEROS);
    assert size >= 4 ==> data[..at] == data[..size - 4];
    assert size < 4 ==> data[..at] + ZEROS == ZEROS;
    crc := TableStep(crc, 0);
    crc := TableStep(crc, 0);
    crc := TableStep(crc, 0);
    crc := TableStep(crc, 0);
  }

  method StoreFour(image: array<bv8>, at: nat, four: seq<bv8>)
    requires |four| == 4 && at + 4 <= image.Length
    modifies image
    ensures image[..] == old(image[..at]) + four + old(image[at + 4..])
  {
    image[at], image[at + 1], image[at + 2], image[at + 3] := four[0], four[1], four[2], four[3];
  }

  /** The end of fillInOutputBuffer: clear the field, sum the record, store the sum. */
  method EmbedChecksum(record: array<bv8>)
    requires record.Length >= 4
    modifies record
    ensures record[..] == Sealed(old(record[..]))
    ensures
      var n := record.Length - 4;
      && record[..n] == old(record[..n])
      && HighFirst(record[n], record[n + 1], record[n + 2], record[n + 3]) == Sum(0xFFFFFFFF, record[..n] + [0, 0, 0, 0])
  {
    hide Sum, BigEndian, HighFirst;
    var n := record.Length;
    StoreFour(record, n - 4, ZEROS);
    assert record[..] == Cleared(old(record[..]));
    var crc := GetCrc32(record[..], n, INIT);
    assert record[..][..n] == record[..];
    StoreFour(record, n - 4, BigEndian(crc));
    BigEndianIsHighFirst(crc, record[n - 4..]);
    assert record[..n - 4] + [0, 0, 0, 0] == Cleared(old(record[..]));
  }

  /** nvramcrc on a whole image: sum the record at its fixed place and rewrite its checksum field. */
  method RewriteChecksum(image: array<bv8>, at: nat, size: nat)
    requires 4 <= size && at + size <= image.Length
    modifies image
    ensures image[at..at + size] == Sealed(old(image[at..at + size]))
    ensures
      var n := at + size - 4;
      && image[at..n] == old(image[at..n])
      && HighFirst(image[n], image[n + 1], image[n + 2], image[n + 3]) == Sum(0xFFFFFFFF, image[at..n] + [0, 0, 0, 0])
    ensures image[..at] == old(image[..at]) && image[at + size..] == old(image[at + size..])
  {
    hide Sum, BigEndian, HighFirst;
    var record := image[at..at + size];
    assert record[..size] == record;
    var crc := NvramCrc(record, size, INIT);
    var n := at + size - 4;
    StoreFour(image, n, BigEndian(crc));
    assert image[at..n] == old(image[at..n]) == record[..size - 4];
    assert image[n..n + 4] == BigEndian(crc);
    BigEndianIsHighFirst(crc, image[n..n + 4]);
  }

  /** A sealed record stays what it is when sealed again, so the two tools agree on every record; and a record other
      than that, with four consecutive bytes before the field changed or with the field changed, is not sealed. */
  lemma SealIsFixedPoint(record: seq<bv8>, worse: seq<bv8>, at: nat)
    requires |record| >= 4 && record == Sealed(record) && |worse| == |record|
    requires
      var n := |record| - 4;
      record[..n] == worse[..n] || (Burst(record[..n], worse[..n], at) && record[n..] == worse[n..])
    ensures Sealed(Sealed(worse)) == Sealed(worse)
    ensures worse == Sealed(worse) <==> worse == record
  {
    hide Sum, BigEndian;
    var n := |record| - 4;
    assert Sealed(worse)[..n] == worse[..n];
    assert record[n..] == BigEndian(Sum(INIT, Cleared(record)));
    assert record == record[..n] + record[n..] && worse == worse[..n] + worse[n..];
    if worse == Sealed(worse) && worse[..n] != record[..n] {
      assert worse[n..] == BigEndian(Sum(INIT, Cleared(worse)));
      assert Burst(Cleared(record), Cleared(worse), at);
      assert Cleared(record)[..n] == record[..n] && Cleared(worse)[..n] == worse[..n];
      ByteBurstChangesSum(INIT, Cleared(record), Cleared(worse), at);
      BigEndianInjective(Sum(INIT, Cleared(record)), Sum(INIT, Cleared(worse)));
      assert false;
    }
  }
}
