/** Binary numerals: the shifts, masks and ORs that the image tools apply to machine words,
    as functions on natural numbers with their effect on every single bit. */
module Bits {
  type byte = b: int | 0 <= b < 256

  /** Bit i of v, counting from the least significant. */
  function Bit(v: nat, i: nat): bool {
    if i == 0 then v % 2 == 1 else Bit(v / 2, i - 1)
  }

  /** v << k */
  function Shl(v: nat, k: nat): nat {
    if k == 0 then v else 2 * Shl(v, k - 1)
  }

  /** v >> k */
  function Shr(v: nat, k: nat): nat {
    if k == 0 then v else Shr(v / 2, k - 1)
  }

  /** The n low bits of v: what remains after assignment to an n-bit field. */
  function Low(v: nat, n: nat): nat {
    if n == 0 then 0 else v % 2 + 2 * Low(v / 2, n - 1)
  }

  /** a | b */
  function Or(a: nat, b: nat): nat
    decreases a + b
  {
    if a == 0 && b == 0 then 0
    else (if a % 2 == 1 || b % 2 == 1 then 1 else 0) + 2 * Or(a / 2, b / 2)
  }

  /** v is representable in n bits. */
  predicate Fits(v: nat, n: nat) {
    Low(v, n) == v
  }

  lemma {:induction false} ZeroHasNoBits(i: nat)
    ensures !Bit(0, i)
  {
    if i == 0 {
    } else {
      ZeroHasNoBits(i - 1);
    }
  }

  lemma {:induction false} BitShl(v: nat, k: nat, i: nat)
    ensures Bit(Shl(v, k), i) == (i >= k && Bit(v, i - k))
  {
    if k == 0 || i == 0 {
    } else {
      BitShl(v, k - 1, i - 1);
    }
  }

  lemma {:induction false} BitShr(v: nat, k: nat, i: nat)
    ensures Bit(Shr(v, k), i) == Bit(v, i + k)
  {
    if k == 0 {
    } else {
      BitShr(v / 2, k - 1, i);
    }
  }

  lemma {:induction false} BitLow(v: nat, n: nat, i: nat)
    ensures Bit(Low(v, n), i) == (i < n && Bit(v, i))
  {
    if n == 0 {
      ZeroHasNoBits(i);
    } else if i > 0 {
      BitLow(v / 2, n - 1, i - 1);
    }
  }

  lemma {:induction false} BitOr(a: nat, b: nat, i: nat)
    ensures Bit(Or(a, b), i) == (Bit(a, i) || Bit(b, i))
    decreases a + b
  {
    if a == 0 && b == 0 {
      ZeroHasNoBits(i);
    } else if i > 0 {
      BitOr(a / 2, b / 2, i - 1);
    }
  }

  /** A number is determined by its bits. */
  lemma {:induction false} SameBits(a: nat, b: nat)
    requires forall i: nat :: Bit(a, i) == Bit(b, i)
    ensures a == b
    decreases a + b
  {
    if a + b == 0 {
    } else {
      assert Bit(a, 0) == Bit(b, 0);
      forall i: nat
        ensures Bit(a / 2, i) == Bit(b / 2, i)
      {
        assert Bit(a, i + 1) == Bit(b, i + 1);
      }
      SameBits(a / 2, b / 2);
    }
  }

  lemma LowFits(v: nat, n: nat)
    ensures Fits(Low(v, n), n)
  {
    forall i: nat
      ensures Bit(Low(Low(v, n), n), i) == Bit(Low(v, n), i)
    {
      BitLow(v, n, i);
      BitLow(Low(v, n), n, i);
    }
    SameBits(Low(Low(v, n), n), Low(v, n));
  }

  lemma LowOfFitting(v: nat, n: nat)
    requires Fits(v, n)
    ensures Low(v, n) == v
  {
  }

  lemma FitsHasNoHighBits(v: nat, n: nat, i: nat)
    requires Fits(v, n) && i >= n
    ensures !Bit(v, i)
  {
    BitLow(v, n, i);
  }

  function Pow2(n: nat): (p: nat)
    ensures p >= 1
  {
    if n == 0 then 1 else 2 * Pow2(n - 1)
  }

  /** Fitting in n bits is being below 2^n. */
  lemma {:induction false} FitsIsBound(v: nat, n: nat)
    ensures Fits(v, n) <==> v < Pow2(n)
  {
    if n == 0 {
    } else {
      FitsIsBound(v / 2, n - 1);
    }
  }

  lemma DoubleFactor(a: nat, b: nat)
    ensures a * (2 * b) == 2 * (a * b)
  {
  }

  /** Shifting right divides by 2^k and the low bits are the remainder. */
  lemma {:induction false} ShiftDivides(v: nat, k: nat)
    ensures v == Shr(v, k) * Pow2(k) + Low(v, k) && Low(v, k) < Pow2(k)
  {
    LowFits(v, k);
    FitsIsBound(Low(v, k), k);
    if k == 0 {
    } else {
      ShiftDivides(v / 2, k - 1);
      DoubleFactor(Shr(v, k), Pow2(k - 1));
    }
  }

  lemma {:induction false} PowAdd(m: nat, n: nat)
    ensures Pow2(m + n) == Pow2(m) * Pow2(n)
  {
    if n == 0 {
    } else {
      PowAdd(m, n - 1);
      DoubleFactor(Pow2(m), Pow2(n - 1));
    }
  }

  lemma {:induction false} ShrAdd(v: nat, k: nat)
    ensures Shr(v + Pow2(k), k) == Shr(v, k) + 1
  {
    if k == 0 {
    } else {
      assert (v + Pow2(k)) / 2 == v / 2 + Pow2(k - 1);
      ShrAdd(v / 2, k - 1);
    }
  }

  /** Rounding up to whole multiples of 2^k adds one exactly when there is a remainder. */
  lemma {:induction false} RoundUp(v: nat, k: nat)
    ensures Shr(v + Pow2(k) - 1, k) == Shr(v, k) + if Low(v, k) == 0 then 0 else 1
  {
    if k == 0 {
    } else {
      if v % 2 == 0 {
        assert (v + Pow2(k) - 1) / 2 == v / 2 + Pow2(k - 1) - 1;
        RoundUp(v / 2, k - 1);
      } else {
        assert (v + Pow2(k) - 1) / 2 == v / 2 + Pow2(k - 1);
        ShrAdd(v / 2, k - 1);
      }
    }
  }

  lemma FitsByte(v: nat)
    ensures Fits(v, 8) <==> v < 256
  {
    FitsIsBound(v, 8);
    assert Pow2(3) == 8;
    assert Pow2(6) == 64;
    assert Pow2(8) == 256;
  }

  /** A number whose bits all lie below position 8 is a byte. */
  lemma ByteBound(v: nat)
    requires forall i: nat :: i >= 8 ==> !Bit(v, i)
    ensures v < 256
  {
    forall i: nat
      ensures Bit(Low(v, 8), i) == Bit(v, i)
    {
      BitLow(v, 8, i);
    }
    SameBits(Low(v, 8), v);
    FitsByte(v);
  }

  lemma ByteHighBits(b: byte, i: nat)
    requires i >= 8
    ensures !Bit(b, i)
  {
    FitsByte(b);
    FitsHasNoHighBits(b, 8, i);
  }

  /** OR of two bytes is a byte. */
  lemma OrByte(a: byte, b: byte)
    ensures Or(a, b) < 256
  {
    forall i: nat | i >= 8
      ensures !Bit(Or(a, b), i)
    {
      BitOr(a, b, i);
      ByteHighBits(a, i);
      ByteHighBits(b, i);
    }
    ByteBound(Or(a, b));
  }
}
