// Bit-vector primitives of BPMIR: the word constants, Ruby's bitwise
// operators on unbounded non-negative integers, and the right circular
// shift used by the MonoPoly preprocessing.
module Bits {

  /** `WORDLENGTH`: the machine word length, 64 on a 64-bit Ruby and 32
      otherwise. The filters take it as a parameter w. */
  predicate WordLength(w: nat)
  {
    w == 32 || w == 64
  }
  /** Number of pitch classes in an octave. */
  const VOCSIZE: nat := 12
  /** A 12-bit word with every bit set. */
  const ONES: nat := 4095

  function Pow2(k: nat): (r: nat)
    ensures r >= 1
  {
    if k == 0 then 1 else 2 * Pow2(k - 1)
  }

  /** Bit b of x (b = 0 is the least significant bit). */
  predicate Bit(x: nat, b: nat)
  {
    if b == 0 then x % 2 == 1 else Bit(x / 2, b - 1)
  }

  /** Ruby's `x & y` on non-negative integers. */
  function And(x: nat, y: nat): nat
  {
    if x == 0 || y == 0 then 0
    else 2 * And(x / 2, y / 2) + (if x % 2 == 1 && y % 2 == 1 then 1 else 0)
  }

  /** Ruby's `x | y` on non-negative integers. */
  function Or(x: nat, y: nat): nat
  {
    if x == 0 then y
    else if y == 0 then x
    else 2 * Or(x / 2, y / 2) + (if x % 2 == 1 || y % 2 == 1 then 1 else 0)
  }

  /** Bit b of an arbitrary Ruby integer in two's complement. */
  predicate IntBit(y: int, b: nat)
  {
    if y >= 0 then Bit(y, b) else !Bit(-y - 1, b)
  }

  /** Ruby's test `x | y == y` for a non-negative x and any integer y. */
  predicate OrEquals(x: nat, y: int)
  {
    if y >= 0 then Or(x, y) == y else And(x, -y - 1) == 0
  }

  /** Ruby's `x << s`. */
  function Shl(x: nat, s: nat): nat
  {
    if s == 0 then x else 2 * Shl(x, s - 1)
  }

  /** Ruby's `x >> s` on a non-negative x. */
  function Shr(x: nat, s: nat): nat
  {
    if s == 0 then x else Shr(x / 2, s - 1)
  }

  /** Ruby's `rcs(value, width, amount)`: the low `width - amount` bits
      shifted up by amount, or-ed with the bits from amount upwards
      shifted down, each cut to its field by `~(~0 << n) == 2 ** n - 1`. */
  function Rcs(value: nat, width: nat, amount: nat): nat
    requires amount <= width
  {
    Or(And(Shl(value, width - amount), Pow2(width) - 1),
       And(Shr(value, amount), Pow2(width - amount) - 1))
  }

  // ---------------------------------------------------------------------
  // Bit-level facts

  lemma {:induction false} AndBit(x: nat, y: nat, b: nat)
    ensures Bit(And(x, y), b) == (Bit(x, b) && Bit(y, b))
  {
    if x == 0 || y == 0 {
      ZeroBit(b);
      if x == 0 { ZeroBit'(x, b); } else { ZeroBit'(y, b); }
    } else if b > 0 {
      AndBit(x / 2, y / 2, b - 1);
    }
  }

  lemma {:induction false} OrBit(x: nat, y: nat, b: nat)
    ensures Bit(Or(x, y), b) == (Bit(x, b) || Bit(y, b))
  {
    if x == 0 {
      ZeroBit'(x, b);
    } else if y == 0 {
      ZeroBit'(y, b);
    } else if b > 0 {
      OrBit(x / 2, y / 2, b - 1);
    }
  }

  lemma {:induction false} ZeroBit(b: nat)
    ensures !Bit(0, b)
  {
    if b > 0 { ZeroBit(b - 1); }
  }

  lemma ZeroBit'(x: nat, b: nat)
    requires x == 0
    ensures !Bit(x, b)
  {
    ZeroBit(b);
  }

  /** A non-negative integer is determined by its bits. */
  lemma {:induction false} BitExt(x: nat, y: nat)
    requires forall b: nat :: Bit(x, b) == Bit(y, b)
    ensures x == y
    decreases x + y
  {
    assert Bit(x, 0) == Bit(y, 0);
    if x != 0 || y != 0 {
      forall b: nat ensures Bit(x / 2, b) == Bit(y / 2, b) {
        assert Bit(x, b + 1) == Bit(y, b + 1);
      }
      if x / 2 == x && x != 0 { assert false; }
      BitExt(x / 2, y / 2);
    }
  }

  lemma {:induction false} DoubleBit(x: nat, b: nat)
    ensures Bit(2 * x, b) == (b > 0 && Bit(x, b - 1))
  {
  }

  lemma {:induction false} Pow2Bit(k: nat, b: nat)
    ensures Bit(Pow2(k), b) == (b == k)
  {
    if k == 0 {
      if b > 0 { ZeroBit(b - 1); }
    } else if b > 0 {
      Pow2Bit(k - 1, b - 1);
    }
  }

  /** The bits of `2 ** w - 1` are exactly those below w. */
  lemma {:induction false} LowMaskBit(w: nat, b: nat)
    ensures Bit(Pow2(w) - 1, b) == (b < w)
  {
    if w == 0 {
      ZeroBit(b);
    } else if b > 0 {
      assert (Pow2(w) - 1) / 2 == Pow2(w - 1) - 1;
      LowMaskBit(w - 1, b - 1);
    }
  }

  lemma {:induction false} Pow2Monotone(a: nat, b: nat)
    requires a <= b
    ensures Pow2(a) <= Pow2(b)
    decreases b
  {
    if a < b { Pow2Monotone(a, b - 1); }
  }

  /** No bit at or above w of a number below `2 ** w` is set. */
  lemma {:induction false} HighBitsClear(x: nat, w: nat, b: nat)
    requires x < Pow2(w) && w <= b
    ensures !Bit(x, b)
  {
    if b == 0 {
      assert x == 0;
    } else if w == 0 {
      assert x == 0;
      ZeroBit(b);
    } else {
      HighBitsClear(x / 2, w - 1, b - 1);
    }
  }

  /** A non-zero number has a set bit. */
  lemma {:induction false} SomeBit(x: nat) returns (b: nat)
    requires x != 0
    ensures Bit(x, b)
    decreases x
  {
    if x % 2 == 1 {
      b := 0;
    } else {
      var c := SomeBit(x / 2);
      b := c + 1;
    }
  }

  /** Conversely, a number whose bits all lie below w is below `2 ** w`. */
  lemma {:induction false} BoundFromBits(x: nat, w: nat)
    requires forall b: nat :: Bit(x, b) ==> b < w
    ensures x < Pow2(w)
    decreases x
  {
    if x != 0 {
      var c := SomeBit(x);
      assert w >= 1;
      forall b: nat | Bit(x / 2, b) ensures b < w - 1 {
        assert Bit(x, b + 1);
      }
      BoundFromBits(x / 2, w - 1);
    }
  }

  /** Subtracting a power of two whose bit is set clears exactly that bit. */
  lemma {:induction false} SubPow2Bit(x: nat, k: nat, b: nat)
    requires Bit(x, k)
    ensures x >= Pow2(k)
    ensures Bit(x - Pow2(k), b) == (Bit(x, b) && b != k)
  {
    if k == 0 {
      assert (x - 1) / 2 == x / 2;
    } else {
      SubPow2Bit(x / 2, k - 1, if b == 0 then 0 else b - 1);
      assert (x - Pow2(k)) / 2 == x / 2 - Pow2(k - 1);
      assert (x - Pow2(k)) % 2 == x % 2;
      if b > 0 {
        SubPow2Bit(x / 2, k - 1, b - 1);
      }
    }
  }

  lemma {:induction false} ShlBit(x: nat, s: nat, b: nat)
    ensures Bit(Shl(x, s), b) == (b >= s && Bit(x, b - s))
  {
    if s > 0 {
      DoubleBit(Shl(x, s - 1), b);
      if b > 0 {
        ShlBit(x, s - 1, b - 1);
      }
    }
  }

  lemma {:induction false} ShrBit(x: nat, s: nat, b: nat)
    ensures Bit(Shr(x, s), b) == Bit(x, b + s)
  {
    if s > 0 {
      ShrBit(x / 2, s - 1, b);
    }
  }

  lemma DivUnique(x: int, d: int, q: int, r: int)
    requires d > 0 && x == q * d + r && 0 <= r < d
    ensures x / d == q
  {
    var q' := x / d;
    var r' := x % d;
    assert q * d - q' * d == r' - r;
    MulDistrib(q, q', d);
    MulBounds(q - q', d);
  }

  lemma MulDistrib(a: int, b: int, d: int)
    ensures (a - b) * d == a * d - b * d
  {
  }

  lemma MulBounds(k: int, d: int)
    requires d > 0
    ensures k >= 1 ==> k * d >= d
    ensures k <= -1 ==> k * d <= -d
  {
    if k >= 1 {
      assert k * d == (k - 1) * d + d;
      assert (k - 1) * d >= 0;
    } else if k <= -1 {
      assert k * d == (k + 1) * d - d;
      assert (k + 1) * d <= 0;
    }
  }

  // ---------------------------------------------------------------------
  // The circular shift

  /** Bit k of `rcs(v, w, a)` is bit `(k + a) mod w` of v, and no bit at or
      above w is set: the value is rotated right by a within w bits. */
  lemma {:induction false} RcsBit(v: nat, w: nat, a: nat, k: nat)
    requires a <= w
    ensures Bit(Rcs(v, w, a), k) == (k < w && Bit(v, (k + a) % w))
  {
    var hi := And(Shl(v, w - a), Pow2(w) - 1);
    var lo := And(Shr(v, a), Pow2(w - a) - 1);
    assert Bit(hi, k) == (w - a <= k < w && Bit(v, k - (w - a))) by {
      AndBit(Shl(v, w - a), Pow2(w) - 1, k);
      ShlBit(v, w - a, k);
      LowMaskBit(w, k);
    }
    assert Bit(lo, k) == (k < w - a && Bit(v, k + a)) by {
      AndBit(Shr(v, a), Pow2(w - a) - 1, k);
      ShrBit(v, a, k);
      LowMaskBit(w - a, k);
    }
    OrBit(hi, lo, k);
    if k < w {
      ModWrap(k, a, w);
    }
  }

  lemma ModWrap(k: nat, a: nat, w: nat)
    requires k < w && a <= w
    ensures (k + a) % w == if k + a < w then k + a else k + a - w
  {
    if k + a >= w {
      DivUnique(k + a, w, 1, k + a - w);
    } else {
      DivUnique(k + a, w, 0, k + a);
    }
  }

  /** `rcs(v, w, a) < 2 ** w`. */
  lemma RcsBound(v: nat, w: nat, a: nat)
    requires a <= w
    ensures Rcs(v, w, a) < Pow2(w)
  {
    forall b: nat | Bit(Rcs(v, w, a), b) ensures b < w {
      RcsBit(v, w, a, b);
    }
    BoundFromBits(Rcs(v, w, a), w);
  }

  /** Rotating right by a and then by w - a gives back any w-bit value. */
  lemma RcsRoundTrip(v: nat, w: nat, a: nat)
    requires a <= w && v < Pow2(w)
    ensures Rcs(Rcs(v, w, a), w, w - a) == v
  {
    forall k: nat ensures Bit(Rcs(Rcs(v, w, a), w, w - a), k) == Bit(v, k) {
      RcsRoundTripBit(v, w, a, k);
    }
    BitExt(Rcs(Rcs(v, w, a), w, w - a), v);
  }

  lemma RcsRoundTripBit(v: nat, w: nat, a: nat, k: nat)
    requires a <= w && v < Pow2(w)
    ensures Bit(Rcs(Rcs(v, w, a), w, w - a), k) == Bit(v, k)
  {
    var r := Rcs(v, w, a);
    RcsBit(r, w, w - a, k);
    if k < w {
      var k' := (k + (w - a)) % w;
      ModWrap(k, w - a, w);
      RcsBit(v, w, a, k');
      ModWrap(k', a, w);
    } else {
      HighBitsClear(v, w, k);
    }
  }

  /** A rotation by zero leaves any w-bit value unchanged. */
  lemma RcsZero(v: nat, w: nat)
    requires v < Pow2(w)
    ensures Rcs(v, w, 0) == v
  {
    var r := Rcs(v, w, 0);
    forall k: nat ensures Bit(r, k) == Bit(v, k) {
      RcsZeroBit(v, w, k);
    }
    BitExt(r, v);
  }

  lemma RcsZeroBit(v: nat, w: nat, k: nat)
    requires v < Pow2(w)
    ensures Bit(Rcs(v, w, 0), k) == Bit(v, k)
  {
    RcsBit(v, w, 0, k);
    if k >= w {
      HighBitsClear(v, w, k);
    } else {
      ModWrap(k, 0, w);
    }
  }

  // ---------------------------------------------------------------------
  // Consequences used by the filters

  /** `x | y == y` holds exactly when every set bit of x is set in y. */
  lemma OrEqualsBits(x: nat, y: int)
    ensures OrEquals(x, y) <==> forall b: nat :: Bit(x, b) ==> IntBit(y, b)
  {
    if y >= 0 {
      if OrEquals(x, y) {
        forall b: nat ensures Bit(x, b) ==> IntBit(y, b) { OrBit(x, y, b); }
      }
      if forall b: nat :: Bit(x, b) ==> IntBit(y, b) {
        forall b: nat ensures Bit(Or(x, y), b) == Bit(y, b) { OrBit(x, y, b); }
        BitExt(Or(x, y), y);
      }
    } else {
      var z: nat := -y - 1;
      if OrEquals(x, y) {
        forall b: nat ensures Bit(x, b) ==> IntBit(y, b) {
          AndBit(x, z, b);
          ZeroBit(b);
        }
      }
      if forall b: nat :: Bit(x, b) ==> IntBit(y, b) {
        forall b: nat ensures Bit(And(x, z), b) == Bit(0, b) {
          AndBit(x, z, b);
          ZeroBit(b);
        }
        BitExt(And(x, z), 0);
      }
    }
  }

  /** Masking with a single power of two leaves either nothing or that bit. */
  lemma AndPow2(x: nat, k: nat)
    ensures And(x, Pow2(k)) == (if Bit(x, k) then Pow2(k) else 0)
  {
    forall b: nat ensures Bit(And(x, Pow2(k)), b) == Bit(if Bit(x, k) then Pow2(k) else 0, b) {
      AndBit(x, Pow2(k), b);
      Pow2Bit(k, b);
      ZeroBit(b);
    }
    BitExt(And(x, Pow2(k)), if Bit(x, k) then Pow2(k) else 0);
  }

  /** Masking with `2 ** w - 1` keeps a value below `2 ** w`. */
  lemma AndLowMask(x: nat, y: nat, w: nat)
    requires y < Pow2(w)
    ensures And(x, y) < Pow2(w)
  {
    forall b: nat | Bit(And(x, y), b) ensures b < w {
      AndBit(x, y, b);
      if b >= w { HighBitsClear(y, w, b); }
    }
    BoundFromBits(And(x, y), w);
  }
}
