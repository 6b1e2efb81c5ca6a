/** Packed bit-field headers in either byte order: the writer and reader forms of
    _SQUASHFS_SWAP and the field layouts of the on-disk structures. */
module BitFields {
  import opened Bits

  /** Byte order of the file system image. The swap macros run on a host of the other order:
      a little-endian host converts to and from BigEndian images, and the other way round. */
  datatype Order = LittleEndian | BigEndian

  /** A field: position of its first bit in the header and its width. */
  datatype Field = Field(pos: nat, bits: nat) {
    /** The macros assemble a field in one 64-bit word, together with the bits before it in its first byte. */
    predicate InWord() {
      bits + pos % 8 <= 64
    }

    predicate Within(bytes: nat) {
      InWord() && pos + bits <= 8 * bytes
    }

    /** Number of bytes the macro loop visits. */
    function Span(): nat {
      (bits + pos % 8 + 7) / 8
    }

    function Shift(o: Order): int {
      if o.LittleEndian? then pos % 8 else 64 - bits - pos % 8
    }

    predicate DisjointFrom(other: Field) {
      pos + bits <= other.pos || other.pos + other.bits <= pos
    }
  }

  function ByteBit(o: Order, k: nat): nat
    requires k < 8
  {
    if o.LittleEndian? then k else 7 - k
  }

  /** Bit k of an image: bytes in order, and in each byte from the low end (LittleEndian)
      or from the high end (BigEndian). */
  predicate ImageBit(o: Order, buf: seq<byte>, k: nat)
    requires k < 8 * |buf|
  {
    Bit(buf[k / 8], ByteBit(o, k % 8))
  }

  /** Bit j of a field's value, in the order in which the image holds it. */
  predicate ValueBit(o: Order, value: nat, bits: nat, j: nat)
    requires j < bits
  {
    Bit(value, if o.LittleEndian? then j else bits - 1 - j)
  }

  // ---- writing ----

  /** The 64-bit accumulator: the value moved to its place. */
  function Word(o: Order, fd: Field, value: nat): nat
    requires fd.InWord()
  {
    Low(Shl(value, fd.Shift(o)), 64)
  }

  /** The m-th byte the macro takes from the accumulator. */
  function WordByte(o: Order, word: nat, m: nat): byte
    requires m < 8
  {
    var b := Low(Shr(word, if o.LittleEndian? then 8 * m else 56 - 8 * m), 8);
    LowFits(Shr(word, if o.LittleEndian? then 8 * m else 56 - 8 * m), 8);
    FitsByte(b);
    b
  }

  function OrBytes(a: byte, b: byte): byte {
    OrByte(a, b);
    Or(a, b)
  }

  /** The buffer after SQUASHFS_SWAP(value, buf, pos, bits) of the writer. */
  function Put(o: Order, buf: seq<byte>, fd: Field, value: nat): seq<byte>
    requires fd.Within(|buf|)
  {
    seq(|buf|, i requires 0 <= i < |buf| =>
      if fd.pos / 8 <= i < fd.pos / 8 + fd.Span()
      then OrBytes(buf[i], WordByte(o, Word(o, fd, value), i - fd.pos / 8))
      else buf[i])
  }

  /** The writer's macro loop: ORs the bytes of the shifted value into the buffer. */
  method PutField(o: Order, d: array<byte>, fd: Field, value: nat)
    requires fd.Within(d.Length)
    modifies d
    ensures d[..] == Put(o, old(d[..]), fd, value)
  {
    var val := Word(o, fd, value);
    var first := fd.pos / 8;
    var bits, m := 0, 0;
    while bits < fd.bits + fd.pos % 8
      invariant bits == 8 * m && m <= fd.Span()
      invariant forall i :: 0 <= i < d.Length ==>
        d[i] == if first <= i < first + m then OrBytes(old(d[i]), WordByte(o, val, i - first)) else old(d[i])
      decreases fd.bits + fd.pos % 8 - bits
    {
      d[first + m] := OrBytes(d[first + m], WordByte(o, val, m));
      m := m + 1;
      bits := bits + 8;
    }
  }

  // ---- reading ----

  /** The accumulator after the reader has fetched m bytes starting at byte `base`. */
  function Gather(o: Order, buf: seq<byte>, base: nat, m: nat): nat
    requires m <= 8 && base + m <= |buf|
  {
    if m == 0 then 0
    else Or(Gather(o, buf, base, m - 1),
            Shl(buf[base + m - 1], if o.LittleEndian? then 8 * (m - 1) else 64 - 8 * m))
  }

  /** The field's value after SQUASHFS_SWAP(value, buf, pos, bits) of the reader; the assignment
      to a field of `bits` bits drops what the shift leaves of its neighbours. */
  function Get(o: Order, buf: seq<byte>, fd: Field): (value: nat)
    requires fd.Within(|buf|)
  {
    Low(Shr(Gather(o, buf, fd.pos / 8, fd.Span()), fd.Shift(o)), fd.bits)
  }

  /** The reader's macro loop. */
  method GetField(o: Order, p: array<byte>, fd: Field) returns (value: nat)
    requires fd.Within(p.Length)
    ensures value == Get(o, p[..], fd)
  {
    var val := 0;
    var bits, m := 0, 0;
    while bits < fd.bits + fd.pos % 8
      invariant bits == 8 * m && m <= fd.Span()
      invariant val == Gather(o, p[..], fd.pos / 8, m)
      decreases fd.bits + fd.pos % 8 - bits
    {
      m := m + 1;
      val := Or(val, Shl(p[fd.pos / 8 + m - 1], if o.LittleEndian? then 8 * (m - 1) else 64 - 8 * m));
      bits := bits + 8;
    }
    value := Low(Shr(val, fd.Shift(o)), fd.bits);
  }

  // ---- what both do to single bits ----

  lemma WordByteBit(o: Order, fd: Field, value: nat, m: nat, k: nat)
    requires fd.InWord() && Fits(value, fd.bits) && m < 8 && k < 8
    ensures var q := 8 * m + k;
      Bit(WordByte(o, Word(o, fd, value), m), ByteBit(o, k))
      == (fd.pos % 8 <= q < fd.pos % 8 + fd.bits && ValueBit(o, value, fd.bits, q - fd.pos % 8))
  {
    var q := 8 * m + k;
    var shifted := Shl(value, fd.Shift(o));
    var word := Low(shifted, 64);
    var down := if o.LittleEndian? then 8 * m else 56 - 8 * m;
    var b := ByteBit(o, k);
    BitLow(Shr(word, down), 8, b);
    BitShr(word, down, b);
    BitLow(shifted, 64, b + down);
    BitShl(value, fd.Shift(o), b + down);
    if b + down >= fd.Shift(o) && b + down - fd.Shift(o) >= fd.bits {
      FitsHasNoHighBits(value, fd.bits, b + down - fd.Shift(o));
    }
  }

  /** Writing a field adds its bits at its place and leaves every other bit of the image alone. */
  lemma PutBits(o: Order, buf: seq<byte>, fd: Field, value: nat, k: nat)
    requires fd.Within(|buf|) && Fits(value, fd.bits) && k < 8 * |buf|
    ensures ImageBit(o, Put(o, buf, fd, value), k)
      == (ImageBit(o, buf, k) || (fd.pos <= k < fd.pos + fd.bits && ValueBit(o, value, fd.bits, k - fd.pos)))
  {
    var i := k / 8;
    if fd.pos / 8 <= i < fd.pos / 8 + fd.Span() {
      var m := i - fd.pos / 8;
      WordByteBit(o, fd, value, m, k % 8);
      BitOr(buf[i], WordByte(o, Word(o, fd, value), m), ByteBit(o, k % 8));
    }
  }

  lemma {:induction false} GatherBit(o: Order, buf: seq<byte>, base: nat, m: nat, i: nat)
    requires m <= 8 && base + m <= |buf| && i < 64
    ensures Bit(Gather(o, buf, base, m), i)
      == if o.LittleEndian? then i < 8 * m && Bit(buf[base + i / 8], i % 8)
         else i >= 64 - 8 * m && Bit(buf[base + (63 - i) / 8], i % 8)
  {
    hide Bit, Or, Shl;
    if m == 0 {
      ZeroHasNoBits(i);
    } else {
      GatherBit(o, buf, base, m - 1, i);
      var shift := if o.LittleEndian? then 8 * (m - 1) else 64 - 8 * m;
      BitOr(Gather(o, buf, base, m - 1), Shl(buf[base + m - 1], shift), i);
      BitShl(buf[base + m - 1], shift, i);
      if i >= shift + 8 {
        ByteHighBits(buf[base + m - 1], i - shift);
      }
    }
  }

  /** Bit i of the value read is bit i of the accumulator moved down. */
  lemma GetBit(o: Order, buf: seq<byte>, fd: Field, i: nat)
    requires fd.Within(|buf|) && i < fd.bits
    ensures Bit(Get(o, buf, fd), i) == Bit(Gather(o, buf, fd.pos / 8, fd.Span()), i + fd.Shift(o))
  {
    var word := Gather(o, buf, fd.pos / 8, fd.Span());
    BitLow(Shr(word, fd.Shift(o)), fd.bits, i);
    BitShr(word, fd.Shift(o), i);
  }

  lemma Mirror(q: nat)
    requires q < 64
    ensures (63 - q) % 8 == 7 - q % 8 && (63 - (63 - q)) / 8 == q / 8
  {
  }

  lemma SplitIndex(h: nat, q: nat)
    ensures (8 * h + q) / 8 == h + q / 8 && (8 * h + q) % 8 == q % 8
  {
  }

  /** Reading a field yields exactly the bits of the image at its place. */
  lemma GetBits(o: Order, buf: seq<byte>, fd: Field, j: nat)
    requires fd.Within(|buf|) && j < fd.bits
    ensures ValueBit(o, Get(o, buf, fd), fd.bits, j) == ImageBit(o, buf, fd.pos + j)
  {
    var h, q := fd.pos / 8, fd.pos % 8 + j;
    assert fd.pos + j == 8 * h + q && q < 8 * fd.Span();
    var i := if o.LittleEndian? then j else fd.bits - 1 - j;
    var w := i + fd.Shift(o);
    GetBit(o, buf, fd, i);
    GatherBit(o, buf, h, fd.Span(), w);
    if o.LittleEndian? {
      assert w == q;
    } else {
      assert w == 63 - q;
      Mirror(q);
    }
    SplitIndex(h, q);
  }

  /** The value read is the only in-range number with those bits. */
  lemma GetIs(o: Order, buf: seq<byte>, fd: Field, value: nat)
    requires fd.Within(|buf|) && Fits(value, fd.bits)
    requires forall j: nat :: j < fd.bits ==> ValueBit(o, value, fd.bits, j) == ImageBit(o, buf, fd.pos + j)
    ensures Get(o, buf, fd) == value
  {
    var got := Get(o, buf, fd);
    LowFits(Shr(Gather(o, buf, fd.pos / 8, fd.Span()), fd.Shift(o)), fd.bits);
    forall i: nat
      ensures Bit(got, i) == Bit(value, i)
    {
      if i < fd.bits {
        var j := if o.LittleEndian? then i else fd.bits - 1 - i;
        GetBits(o, buf, fd, j);
        assert ValueBit(o, value, fd.bits, j) == ImageBit(o, buf, fd.pos + j);
      } else {
        FitsHasNoHighBits(got, fd.bits, i);
        FitsHasNoHighBits(value, fd.bits, i);
      }
    }
    SameBits(got, value);
  }

  lemma {:induction false} GatherLocal(o: Order, a: seq<byte>, b: seq<byte>, base: nat, m: nat)
    requires m <= 8 && base + m <= |a| && base + m <= |b|
    requires forall i :: base <= i < base + m ==> a[i] == b[i]
    ensures Gather(o, a, base, m) == Gather(o, b, base, m)
  {
    if m == 0 {
    } else {
      GatherLocal(o, a, b, base, m - 1);
    }
  }

  /** A read depends only on the bytes the field touches. */
  lemma GetLocal(o: Order, a: seq<byte>, b: seq<byte>, fd: Field)
    requires fd.Within(|a|) && fd.Within(|b|)
    requires forall i :: fd.pos / 8 <= i < fd.pos / 8 + fd.Span() ==> a[i] == b[i]
    ensures Get(o, a, fd) == Get(o, b, fd)
  {
    GatherLocal(o, a, b, fd.pos / 8, fd.Span());
  }

  // ---- whole headers ----

  /** A header layout: fields that lie inside `bytes` bytes and do not overlap. */
  predicate IsLayout(layout: seq<Field>, bytes: nat) {
    && (forall i :: 0 <= i < |layout| ==> layout[i].Within(bytes))
    && (forall i, j :: 0 <= i < j < |layout| ==> layout[i].DisjointFrom(layout[j]))
  }

  predicate InRange(layout: seq<Field>, values: seq<nat>) {
    |values| == |layout| && forall i :: 0 <= i < |layout| ==> Fits(values[i], layout[i].bits)
  }

  function Zeros(n: nat): (z: seq<byte>)
    ensures |z| == n
  {
    seq(n, _ => 0)
  }

  /** SQUASHFS_SWAP_<structure>: clear the header, then put the fields one after the other. */
  function Pack(o: Order, bytes: nat, layout: seq<Field>, values: seq<nat>): (buf: seq<byte>)
    requires |values| == |layout| && forall i :: 0 <= i < |layout| ==> layout[i].Within(bytes)
    ensures |buf| == bytes
  {
    if layout == [] then Zeros(bytes)
    else
      var n := |layout| - 1;
      Put(o, Pack(o, bytes, layout[..n], values[..n]), layout[n], values[n])
  }

  method PackHeader(o: Order, d: array<byte>, layout: seq<Field>, values: seq<nat>)
    requires |values| == |layout| && forall i :: 0 <= i < |layout| ==> layout[i].Within(d.Length)
    modifies d
    ensures d[..] == Pack(o, d.Length, layout, values)
  {
    for i := 0 to d.Length
      invariant forall j :: 0 <= j < i ==> d[j] == 0
    {
      d[i] := 0;
    }
    assert d[..] == Zeros(d.Length);
    for i := 0 to |layout|
      invariant d[..] == Pack(o, d.Length, layout[..i], values[..i])
    {
      PutField(o, d, layout[i], values[i]);
      assert layout[..i + 1][..i] == layout[..i] && values[..i + 1][..i] == values[..i];
    }
    assert layout[..|layout|] == layout && values[..|layout|] == values;
  }

  /** Field i of the layout covers bit k and its value has a one there. */
  ghost predicate SetsBit(o: Order, layout: seq<Field>, values: seq<nat>, i: nat, k: nat)
    requires i < |layout| && i < |values|
  {
    var fd := layout[i];
    fd.pos <= k < fd.pos + fd.bits && ValueBit(o, values[i], fd.bits, k - fd.pos)
  }

  lemma {:induction false} PackBits(o: Order, bytes: nat, layout: seq<Field>, values: seq<nat>, k: nat)
    requires IsLayout(layout, bytes) && InRange(layout, values) && k < 8 * bytes
    ensures ImageBit(o, Pack(o, bytes, layout, values), k)
      == exists i :: 0 <= i < |layout| && SetsBit(o, layout, values, i, k)
  {
    if layout == [] {
      ZeroHasNoBits(ByteBit(o, k % 8));
    } else {
      var n := |layout| - 1;
      var shorter := Pack(o, bytes, layout[..n], values[..n]);
      PackBits(o, bytes, layout[..n], values[..n], k);
      PutBits(o, shorter, layout[n], values[n], k);
      assert forall i :: 0 <= i < n ==> SetsBit(o, layout, values, i, k) == SetsBit(o, layout[..n], values[..n], i, k);
      assert ImageBit(o, Pack(o, bytes, layout, values), k) == (ImageBit(o, shorter, k) || SetsBit(o, layout, values, n, k));
    }
  }

  /** Only the field itself sets bits in its place. */
  lemma PackFieldBit(o: Order, bytes: nat, layout: seq<Field>, values: seq<nat>, i: nat, j: nat)
    requires IsLayout(layout, bytes) && InRange(layout, values) && i < |layout| && j < layout[i].bits
    ensures ImageBit(o, Pack(o, bytes, layout, values), layout[i].pos + j) == ValueBit(o, values[i], layout[i].bits, j)
  {
    var k := layout[i].pos + j;
    PackBits(o, bytes, layout, values, k);
    forall l | 0 <= l < |layout| && l != i
      ensures !SetsBit(o, layout, values, l, k)
    {
      assert if l < i then layout[l].DisjointFrom(layout[i]) else layout[i].DisjointFrom(layout[l]);
    }
    assert SetsBit(o, layout, values, i, k) == ValueBit(o, values[i], layout[i].bits, j);
  }

  /** Every header survives a write and a read: each field comes back with its value, whatever
      its neighbours hold, in both byte orders. */
  lemma PackRoundTrip(o: Order, bytes: nat, layout: seq<Field>, values: seq<nat>, i: nat)
    requires IsLayout(layout, bytes) && InRange(layout, values) && i < |layout|
    ensures Get(o, Pack(o, bytes, layout, values), layout[i]) == values[i]
  {
    var buf := Pack(o, bytes, layout, values);
    var fd := layout[i];
    forall j: nat | j < fd.bits
      ensures ValueBit(o, values[i], fd.bits, j) == ImageBit(o, buf, fd.pos + j)
    {
      PackFieldBit(o, bytes, layout, values, i, j);
    }
    GetIs(o, buf, fd, values[i]);
  }
}
