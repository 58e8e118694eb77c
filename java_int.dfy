/**
 * Java's primitive integer arithmetic, written out on Dafny's unbounded `int`.
 *
 * A Java `byte`, `short`, `int` or `long` value is the mathematical integer it
 * denotes (two's complement, sign-extended).  The operators the codec uses are
 * defined here so that the codec can be written exactly as the Java code is:
 *   `>>`  arithmetic shift right: halving k times, rounding down;
 *   `<<`  shift left: multiplication by 2^k, wrapped to 32 bits;
 *   `~`   bitwise complement: -x - 1;
 *   `&`, `|`  bitwise on two's-complement integers, defined bit by bit;
 *   `(byte)`, `(short)`, and `long` overflow: reduction modulo 2^8, 2^16, 2^64
 *   into the signed range.
 * The lemmas reduce the masks the codec uses to division and remainder.
 */
module JavaInt {

  const BYTE_MIN: int := -0x80
  const BYTE_MAX: int := 0x7F
  const SHORT_MIN: int := -0x8000
  const SHORT_MAX: int := 0x7FFF
  const INT_MIN: int := -0x8000_0000
  const INT_MAX: int := 0x7FFF_FFFF
  const LONG_MIN: int := -0x8000_0000_0000_0000
  const LONG_MAX: int := 0x7FFF_FFFF_FFFF_FFFF

  /** A Java `byte` value, sign-extended. */
  type Byte = x: int | -0x80 <= x < 0x80
  /** A Java `short` value, sign-extended. */
  type Short = x: int | -0x8000 <= x < 0x8000

  /** A Java `long` value. */
  type Long = x: int | -0x8000_0000_0000_0000 <= x < 0x8000_0000_0000_0000

  predicate IsInt(x: int) { INT_MIN <= x <= INT_MAX }
  predicate IsLong(x: int) { LONG_MIN <= x <= LONG_MAX }

  function Pow2(k: nat): (r: nat)
    ensures r >= 1
  {
    if k == 0 then 1 else 2 * Pow2(k - 1)
  }

  function Abs(x: int): nat { if x < 0 then -x else x }

  /** The Java cast `(byte) x`. */
  function ToByte(x: int): (r: Byte)
    ensures BYTE_MIN <= x <= BYTE_MAX ==> r == x
  {
    if BYTE_MIN <= x <= BYTE_MAX then x else (x + 0x80) % 0x100 - 0x80
  }

  /** The Java cast `(short) x`, and the narrowing of a compound assignment to a `short`. */
  function ToShort(x: int): (r: Short)
    ensures SHORT_MIN <= x <= SHORT_MAX ==> r == x
  {
    if SHORT_MIN <= x <= SHORT_MAX then x else (x + 0x8000) % 0x1_0000 - 0x8000
  }

  /** The value a Java `long` expression yields when the exact result is `x`. */
  function ToLong(x: int): (r: int)
    ensures IsLong(r)
    ensures IsLong(x) ==> r == x
  {
    if IsLong(x) then x
    else (x + 0x8000_0000_0000_0000) % 0x1_0000_0000_0000_0000 - 0x8000_0000_0000_0000
  }

  /** The unsigned value of a byte, Java `b & 0xFF`. */
  function UByte(b: Byte): (r: nat)
    ensures r < 0x100
    ensures b >= 0 ==> r == b
  {
    if b < 0 then b + 0x100 else b
  }

  /** A byte with bit 7 flipped, Java `(byte) (b ^ 0x80)`. */
  function FlipBit7(b: Byte): (r: Byte)
    ensures UByte(r) % 0x80 == UByte(b) % 0x80
    ensures UByte(r) / 0x80 == 1 - UByte(b) / 0x80
  {
    if b < 0 then b + 0x80 else b - 0x80
  }

  /** Java's `/` on `int` and `long`: the quotient truncated toward zero. */
  function Quot(x: int, d: int): (q: int)
    requires d > 0
    ensures x >= 0 ==> 0 <= q * d <= x < (q + 1) * d
    ensures x < 0 ==> (q - 1) * d < x <= q * d <= 0
  {
    var a := if x >= 0 then x else -x;
    var q := a / d;
    assert a == d * q + a % d;
    assert (q + 1) * d == q * d + d;
    assert (q - 1) * d == q * d - d;
    assert (-q) * d == -(q * d);
    assert (-q + 1) * d == -(q * d) + d;
    assert (-q - 1) * d == -(q * d) - d;
    if x >= 0 then q else -q
  }

  /** Java `x >> k` (arithmetic shift) for an `int` x: the shift count is
      taken modulo 32, as Java's `k & 31`. */
  function Shr(x: int, k: int): int
  {
    Halve(x, ShiftCount(k))
  }

  /** x halved k times, each time rounding toward negative infinity. */
  function Halve(x: int, k: nat): int
    decreases k
  {
    if k == 0 then x else Halve(x / 2, k - 1)
  }

  /** The value a Java `int` expression yields when the exact result is `x`. */
  function ToInt(x: int): (r: int)
    ensures IsInt(r)
    ensures IsInt(x) ==> r == x
  {
    if IsInt(x) then x else (x + 0x8000_0000) % 0x1_0000_0000 - 0x8000_0000
  }

  /** Java `x << k` for an `int` x: the shift count is taken modulo 32 and
      the bits shifted out of the 32-bit result are lost. */
  function Shl(x: int, k: int): int
  {
    ToInt(Scale(x, ShiftCount(k)))
  }

  /** x doubled k times, the value of a left shift before any bits are lost. */
  function Scale(x: int, k: nat): int
  {
    if k == 0 then x else 2 * Scale(x, k - 1)
  }

  /** The shift count Java uses for an `int` shift by k: `k & 31`. */
  function ShiftCount(k: int): (r: nat)
    ensures r < 32 && (k - r) % 32 == 0
    ensures 0 <= k < 32 ==> r == k
  {
    if 0 <= k < 32 then k else k % 32
  }

  /** Java `~x`. */
  function Not(x: int): int { -x - 1 }

  /** True when x is 0 or -1, the two integers whose bits are all equal. */
  predicate AllSame(x: int) { x == 0 || x == -1 }

  /** Bit 0 of `x & y` and of `x | y`. */
  function LowAnd(x: int, y: int): int { if x % 2 == 1 && y % 2 == 1 then 1 else 0 }
  function LowOr(x: int, y: int): int { if x % 2 == 1 || y % 2 == 1 then 1 else 0 }

  /** Java `x & y`, bit by bit on the two's-complement representations. */
  function And(x: int, y: int): int
    decreases Abs(x) + Abs(y)
  {
    if AllSame(x) && AllSame(y) then (if x == -1 && y == -1 then -1 else 0)
    else 2 * And(x / 2, y / 2) + LowAnd(x, y)
  }

  /** Java `x | y`, bit by bit on the two's-complement representations. */
  function Or(x: int, y: int): int
    decreases Abs(x) + Abs(y)
  {
    if AllSame(x) && AllSame(y) then (if x == -1 || y == -1 then -1 else 0)
    else 2 * Or(x / 2, y / 2) + LowOr(x, y)
  }

  /** Each cast keeps its argument's residue: `(short) x` differs from x by a
      multiple of 2^16, and likewise for the other widths. */
  lemma ShortResidue(x: int)
    ensures (x - ToShort(x)) % 0x1_0000 == 0
  {
  }

  lemma LongResidue(x: int)
    ensures (x - ToLong(x)) % 0x1_0000_0000_0000_0000 == 0
  {
  }

  /** Two exact results that agree modulo 2^64 give the same `long`. */
  lemma LongWrap(x: int, y: int)
    requires (x - y) % 0x1_0000_0000_0000_0000 == 0
    ensures ToLong(x) == ToLong(y)
  {
    var n, h := 0x1_0000_0000_0000_0000, 0x8000_0000_0000_0000;
    LongOffset(x);
    LongOffset(y);
    var t := (x - y) / n;
    assert x - y == n * t;
    var q, r := (y + h) / n, (y + h) % n;
    assert y + h == n * q + r;
    assert x + h == n * (q + t) + r;
    DivModUnique(x + h, n, q + t, r);
  }

  /** The `long` of x is the representative of x modulo 2^64 nearest zero,
      whether or not x already fits. */
  lemma LongOffset(x: int)
    ensures ToLong(x) == (x + 0x8000_0000_0000_0000) % 0x1_0000_0000_0000_0000 - 0x8000_0000_0000_0000
  {
    if IsLong(x) {
      DivModUnique(x + 0x8000_0000_0000_0000, 0x1_0000_0000_0000_0000, 0, x + 0x8000_0000_0000_0000);
    }
  }

  /** `(byte) x & 0xFF` is the low eight bits of x. */
  lemma ByteBits(x: int)
    ensures UByte(ToByte(x)) == x % 0x100
  {
    var r := ToByte(x);
    if BYTE_MIN <= x <= BYTE_MAX {
      if x < 0 {
        DivModUnique(x, 0x100, -1, x + 0x100);
      } else {
        DivModUnique(x, 0x100, 0, x);
      }
    } else {
      var t, q := (x + 0x80) % 0x100, (x + 0x80) / 0x100;
      assert r == t - 0x80;
      if t >= 0x80 {
        DivModUnique(x, 0x100, q, t - 0x80);
      } else {
        DivModUnique(x, 0x100, q - 1, t + 0x80);
      }
    }
  }

  // ---------------------------------------------------------------------
  // Division facts used below.

  lemma MulAtLeast(d: int, n: int)
    requires d > 0 && n >= 1
    ensures d * n >= d
  {
  }

  lemma MulMonotone(a: int, b: int, c: int)
    requires a <= b && c >= 0
    ensures a * c <= b * c
  {
  }

  lemma DoubleMul(p: int, m: int)
    ensures (2 * p) * m == 2 * (p * m)
  {
  }

  lemma DivModUnique(x: int, d: int, q: int, r: int)
    requires d > 0 && x == d * q + r && 0 <= r < d
    ensures x / d == q && x % d == r
  {
    var q', r' := x / d, x % d;
    assert x == d * q' + r';
    assert d * (q - q') == r' - r by {
      assert d * (q - q') == d * q - d * q';
    }
    if q - q' >= 1 {
      MulAtLeast(d, q - q');
    } else if q' - q >= 1 {
      MulAtLeast(d, q' - q);
    }
  }

  lemma DivHalf(x: int, k: nat)
    ensures (x / 2) / Pow2(k) == x / Pow2(k + 1)
    ensures 2 * ((x / 2) % Pow2(k)) + x % 2 == x % Pow2(k + 1)
  {
    var p := Pow2(k);
    var a, b := (x / 2) / p, (x / 2) % p;
    assert x / 2 == p * a + b;
    assert x == 2 * (x / 2) + x % 2;
    assert x == (2 * p) * a + (2 * b + x % 2);
    DivModUnique(x, 2 * p, a, 2 * b + x % 2);
  }

  lemma DivMonotone(a: int, b: int, d: int)
    requires d > 0 && a <= b
    ensures a / d <= b / d
  {
    if a / d > b / d {
      assert a == d * (a / d) + a % d;
      assert b == d * (b / d) + b % d;
      assert d * (a / d) - d * (b / d) == d * (a / d - b / d);
      MulAtLeast(d, a / d - b / d);
    }
  }

  /** Halving k times is floor division by 2^k. */
  lemma {:induction false} HalveDiv(x: int, k: nat)
    ensures Halve(x, k) == x / Pow2(k)
    decreases k
  {
    if k > 0 {
      HalveDiv(x / 2, k - 1);
      DivHalf(x, k - 1);
    }
  }

  /** `x >> k` is floor division by 2^(k & 31). */
  lemma ShrDiv(x: int, k: int)
    ensures Shr(x, k) == x / Pow2(ShiftCount(k))
  {
    HalveDiv(x, ShiftCount(k));
  }

  /** Doubling k times is multiplying by 2^k. */
  lemma {:induction false} ScaleMul(x: int, k: nat)
    ensures Scale(x, k) == x * Pow2(k)
    decreases k
  {
    if k > 0 {
      ScaleMul(x, k - 1);
      DoubleMul(Pow2(k - 1), x);
    }
  }

  lemma {:induction false} PowMonotone(i: nat, j: nat)
    requires i <= j
    ensures Pow2(i) <= Pow2(j)
    decreases j
  {
    if i < j {
      PowMonotone(i, j - 1);
    }
  }

  lemma {:induction false} PowShift(i: nat, j: nat)
    ensures Pow2(i + j) == Pow2(j) * Pow2(i)
    decreases j
  {
    if j > 0 {
      PowShift(i, j - 1);
      assert Pow2(i + j) == 2 * Pow2(i + j - 1);
      DoubleMul(Pow2(j - 1), Pow2(i));
    }
  }

  // ---------------------------------------------------------------------
  // Bitwise operators in terms of arithmetic.

  /** The recursive case equation of `And`, for every pair of arguments. */
  lemma AndStep(x: int, y: int)
    ensures And(x, y) == 2 * And(x / 2, y / 2) + LowAnd(x, y)
  {
  }

  /** The recursive case equation of `Or`, for every pair of arguments. */
  lemma OrStep(x: int, y: int)
    ensures Or(x, y) == 2 * Or(x / 2, y / 2) + LowOr(x, y)
  {
  }

  lemma {:induction false} AndZero(y: int)
    ensures And(0, y) == 0
    decreases Abs(y)
  {
    if !AllSame(y) {
      AndZero(y / 2);
    }
  }

  /** `x & y` and `x | y` together add up to `x + y`. */
  lemma {:induction false} AndPlusOr(x: int, y: int)
    ensures And(x, y) + Or(x, y) == x + y
    decreases Abs(x) + Abs(y)
  {
    if !(AllSame(x) && AllSame(y)) {
      AndPlusOr(x / 2, y / 2);
    }
  }

  /** Clearing the low bit of the mask: `x & 2m == (x >> 1 & m) << 1`. */
  lemma AndEven(x: int, m: int)
    ensures And(x, 2 * m) == 2 * And(x / 2, m)
  {
    AndStep(x, 2 * m);
    assert (2 * m) / 2 == m && (2 * m) % 2 == 0;
  }

  /** Setting the low bit of the mask: `x & (2m + 1) == (x >> 1 & m) << 1 | x & 1`. */
  lemma AndOdd(x: int, m: int)
    ensures And(x, 2 * m + 1) == 2 * And(x / 2, m) + x % 2
  {
    AndStep(x, 2 * m + 1);
    assert (2 * m + 1) / 2 == m && (2 * m + 1) % 2 == 1;
  }

  /** Masking with 2^k - 1 keeps the low k bits: `x & (2^k - 1) == x mod 2^k`. */
  lemma {:induction false} AndLowBits(x: int, k: nat)
    ensures And(x, Pow2(k) - 1) == x % Pow2(k)
    decreases k
  {
    if k == 0 {
      AndZero(x);
      AndComm(x, 0);
    } else {
      var p := Pow2(k - 1);
      AndLowStep(x, p);
      AndLowBits(x / 2, k - 1);
      DivHalf(x, k - 1);
    }
  }

  /** The mask 2p - 1 keeps bit 0 and applies the mask p - 1 to the rest. */
  lemma AndLowStep(x: int, p: int)
    ensures And(x, 2 * p - 1) == 2 * And(x / 2, p - 1) + x % 2
  {
    AndOdd(x, p - 1);
  }

  lemma {:induction false} AndComm(x: int, y: int)
    ensures And(x, y) == And(y, x)
    decreases Abs(x) + Abs(y)
  {
    if !(AllSame(x) && AllSame(y)) {
      AndComm(x / 2, y / 2);
    }
  }

  /** A mask whose low k bits are clear acts on x shifted right by k:
      `x & (m << k) == (x >> k & m) << k`. */
  lemma {:induction false} AndScaled(x: int, m: int, k: nat)
    ensures And(x, Pow2(k) * m) == Pow2(k) * And(x / Pow2(k), m)
    decreases k
  {
    if k > 0 {
      var p := Pow2(k - 1);
      var M := p * m;
      DoubleMul(p, m);
      AndEven(x, M);
      AndScaled(x / 2, m, k - 1);
      DivHalf(x, k - 1);
      DoubleMul(p, And(x / Pow2(k), m));
    }
  }

  /** Testing one bit: `x & 2^k` is 2^k when bit k of x is set and 0 otherwise. */
  lemma AndBit(x: int, k: nat)
    ensures And(x, Pow2(k)) == Pow2(k) * ((x / Pow2(k)) % 2)
  {
    AndScaled(x, 1, k);
    AndLowBits(x / Pow2(k), 1);
  }

  /** A field of k-bit-aligned high bits and a field below bit k do not overlap,
      so `|` of them is their sum. */
  lemma OrDisjoint(hi: int, lo: int, k: nat)
    requires 0 <= lo < Pow2(k)
    ensures Or(hi * Pow2(k), lo) == hi * Pow2(k) + lo
  {
    AndComm(hi * Pow2(k), lo);
    AndScaled(lo, hi, k);
    DivModUnique(lo, Pow2(k), 0, lo);
    AndZero(hi);
    AndPlusOr(hi * Pow2(k), lo);
  }
}
