/**
 * The sender's µ-law encoder, `linearToULaw` in AudioSender.java.
 *
 * It follows the µ-law tables of ITU-T G.711 (Tables 2a and 2b), bias 0x84 and
 * a magnitude clipped to 32635, and complements the code byte as G.711 does.
 * Two details are the program's own: for exponent 0 the mantissa is taken with
 * a shift of 4 (not 3), and `(short) -sample` wraps, so -32768 keeps its sign
 * bit through the whole computation.
 *
 * `Encode` is the value the Java method returns; `LinearToULaw` is the Java
 * method itself, with its exponent-search loop, proved to compute `Encode`.
 */
module ULawEncoder {
  import opened JavaInt

  const BIAS: int := 0x84
  const CLIP: int := 32635

  /** `(sample >> 8) & 0x80`: the sign field. */
  function SignField(sample: Short): int
  {
    And(Shr(sample, 8), 0x80)
  }

  /** The sample after the negation, clipping and `sample += BIAS` steps. */
  function BiasedMagnitude(sample: Short): Short
  {
    var s1 := if SignField(sample) != 0 then ToShort(-(sample as int)) else sample;
    var s2 := if s1 > CLIP then CLIP else s1;
    ToShort(s2 + BIAS)
  }

  /** The exponent the search loop stops at once it has reached exponent `e`,
      whose mask is 2^(e+7): it stops at the first set mask bit, or at 0. */
  function ExponentFrom(v: int, e: nat): (r: nat)
    requires e <= 7
    ensures r <= e
  {
    if And(v, Pow2(e + 7)) != 0 || e == 0 then e else ExponentFrom(v, e - 1)
  }

  /** The exponent of the biased value: the search starts at 7 with mask 0x4000. */
  function Exponent(v: int): (r: nat)
    ensures r <= 7
  {
    ExponentFrom(v, 7)
  }

  /** The shift that brings the mantissa bits down: 4 for exponent 0, else e + 3. */
  function MantissaShift(e: nat): nat
    requires e <= 7
  {
    if e == 0 then 4 else e + 3
  }

  /** `(sample >> shift) & 0x0F`. */
  function Mantissa(v: int, e: nat): int
    requires e <= 7
  {
    And(Shr(v, MantissaShift(e)), 0x0F)
  }

  /** The byte `linearToULaw(sample)` returns:
      `(byte) ~(sign | (exponent << 4) | mantissa)`. Read unsigned, it is the
      complement of the sign bit and the 7-bit code packed as in G.711. */
  function Encode(sample: Short): (b: Byte)
    ensures UByte(b) == 0xFF - ((if sample < 0 then 0x80 else 0) + Code(BiasedMagnitude(sample)))
  {
    var v := BiasedMagnitude(sample);
    var e := Exponent(v);
    SignFieldValue(sample);
    MantissaValue(v, e);
    PackFields(SignField(sample), e, Mantissa(v, e));
    ToByte(Not(Or(Or(SignField(sample), Shl(e, 4)), Mantissa(v, e))))
  }

  /** The uncomplemented 7-bit code `(exponent << 4) | mantissa` of a biased value. */
  function Code(v: int): (c: int)
    ensures 0 <= c <= 0x7F
  {
    MantissaValue(v, Exponent(v));
    16 * Exponent(v) + Mantissa(v, Exponent(v))
  }

  /** `linearToULaw`: the sign and biased magnitude are taken first,
      then the exponent search loop runs and the byte is packed. */
  method LinearToULaw(sample: Short) returns (b: Byte)
    ensures b == Encode(sample)
  {
    var sign, s := SignAndMagnitude(sample);
    var exponent: nat := 7;
    var expMask := 0x4000;
    assert Pow2(14) == 0x4000;
    while And(s, expMask) == 0 && exponent > 0
      invariant exponent <= 7
      invariant expMask == Pow2(exponent + 7)
      invariant ExponentFrom(s, exponent) == Exponent(s)
    {
      exponent := exponent - 1;
      MaskStep(expMask, exponent);
      expMask := Shr(expMask, 1);
    }
    assert exponent == Exponent(s);
    var shift := if exponent == 0 then 4 else exponent + 3;
    assert shift == MantissaShift(exponent);
    var mantissa := And(Shr(s, shift), 0x0F);
    b := ToByte(Not(Or(Or(sign, Shl(exponent, 4)), mantissa)));
  }

  /** `expMask >>= 1` moves the mask from exponent e + 1 down to e. */
  lemma MaskStep(mask: int, e: nat)
    requires mask == Pow2(e + 8)
    ensures Shr(mask, 1) == Pow2(e + 7)
  {
    ShrDiv(mask, 1);
    assert ShiftCount(1) == 1 && Pow2(1) == 2;
    assert Pow2(e + 8) == 2 * Pow2(e + 7);
  }

  /** The first statements of `linearToULaw`: the sign field, then the sample
      negated (wrapping) when the sign is set, clipped to CLIP, and biased. */
  method SignAndMagnitude(sample: Short) returns (sign: int, s: Short)
    ensures sign == SignField(sample) && s == BiasedMagnitude(sample)
    ensures sign == if sample < 0 then 0x80 else 0
    ensures s == if sample == SHORT_MIN then SHORT_MIN + BIAS
                 else (if Abs(sample) > CLIP then CLIP else Abs(sample)) + BIAS
  {
    SignFieldValue(sample);
    BiasedMagnitudeValue(sample);
    s := sample;
    sign := And(Shr(s, 8), 0x80);
    if sign != 0 {
      s := ToShort(-(s as int));
    }
    if s > CLIP {
      s := CLIP;
    }
    s := ToShort(s + BIAS);
  }

  // ---------------------------------------------------------------------
  // The fields in arithmetic terms.

  /** The sign field is 0x80 exactly for a negative sample, -32768 included. */
  lemma SignFieldValue(sample: Short)
    ensures SignField(sample) == if sample < 0 then 0x80 else 0
  {
    assert Pow2(8) == 0x100 by {
      assert Pow2(7) == 0x80;
    }
    ShrDiv(sample, 8);
    var z := sample / 0x100;
    HighByte(sample);
    AndBit(z, 7);
    if sample < 0 {
      DivModUnique(z, 128, -1, z + 128);
    } else {
      DivModUnique(z, 128, 0, z);
    }
  }

  /** `sample >> 8` of a short is a byte-sized value with the sample's sign. */
  lemma HighByte(sample: Short)
    ensures -0x80 <= sample / 0x100 < 0x80
    ensures sample < 0 <==> sample / 0x100 < 0
  {
    DivModUnique(SHORT_MIN, 0x100, -0x80, 0);
    DivModUnique(SHORT_MAX, 0x100, 0x7F, 0xFF);
    DivMonotone(SHORT_MIN, sample, 0x100);
    DivMonotone(sample, SHORT_MAX, 0x100);
    if sample < 0 {
      DivModUnique(-1, 0x100, -1, 0xFF);
      DivMonotone(sample, -1, 0x100);
    } else {
      DivMonotone(0, sample, 0x100);
    }
  }

  /** The biased magnitude is |sample| clipped to 32635, plus 132; for -32768,
      whose negation wraps back to -32768, it is -32768 + 132. */
  lemma BiasedMagnitudeValue(sample: Short)
    ensures BiasedMagnitude(sample) ==
      if sample == SHORT_MIN then SHORT_MIN + BIAS
      else (if Abs(sample) > CLIP then CLIP else Abs(sample)) + BIAS
  {
    SignFieldValue(sample);
    if sample == SHORT_MIN {
      assert ToShort(-(sample as int)) == SHORT_MIN by {
        DivModUnique(0x1_0000, 0x1_0000, 1, 0);
      }
    } else if sample < 0 {
      assert ToShort(-(sample as int)) == Abs(sample);
    }
  }

  /** The mantissa is the four bits of v just below the exponent's leading bit. */
  lemma MantissaValue(v: int, e: nat)
    requires e <= 7
    ensures Mantissa(v, e) == (v / Pow2(MantissaShift(e))) % 16
    ensures 0 <= Mantissa(v, e) <= 15
  {
    ShrDiv(v, MantissaShift(e));
    AndLowBits(v / Pow2(MantissaShift(e)), 4);
  }

  /** `(byte) ~(sign | (e << 4) | m)` for a sign of 0 or 0x80, a 3-bit exponent
      and a 4-bit mantissa is, read unsigned, 0xFF minus their sum. */
  lemma PackFields(sign: int, e: nat, m: int)
    requires (sign == 0 || sign == 0x80) && e <= 7 && 0 <= m <= 15
    ensures UByte(ToByte(Not(Or(Or(sign, Shl(e, 4)), m)))) == 0xFF - (sign + 16 * e + m)
  {
    var s01 := if sign == 0 then 0 else 1;
    var hi := 8 * s01 + e;
    assert Or(sign, Shl(e, 4)) == hi * 16 by {
      assert Pow2(4) == 16 && Pow2(7) == 128;
      ScaleMul(e, 4);
      assert Shl(e, 4) == 16 * e;
      OrDisjoint(s01, 16 * e, 7);
    }
    assert Or(hi * 16, m) == hi * 16 + m by {
      assert Pow2(4) == 16;
      OrDisjoint(hi, m, 4);
    }
    ComplementByte(sign + 16 * e + m);
  }

  /** `(byte) ~z` of a value 0..255, read unsigned, is 0xFF - z. */
  lemma ComplementByte(z: int)
    requires 0 <= z <= 0xFF
    ensures UByte(ToByte(Not(z))) == 0xFF - z
  {
  }

  // ---------------------------------------------------------------------
  // The exponent search.

  lemma DivOne(v: int, p: int)
    requires p > 0 && p <= v < 2 * p
    ensures v / p == 1
  {
    DivModUnique(v, p, 1, v - p);
  }

  lemma DivZero(v: int, p: int)
    requires p > 0 && 0 <= v < p
    ensures v / p == 0
  {
    DivModUnique(v, p, 0, v);
  }

  /** The mask test of the search: bit e+7 of a v below 2^(e+8) is set exactly
      when v >= 2^(e+7). */
  lemma MaskTest(v: int, e: nat)
    requires e <= 7 && 0 <= v < Pow2(e + 8)
    ensures And(v, Pow2(e + 7)) != 0 <==> v >= Pow2(e + 7)
  {
    var p := Pow2(e + 7);
    assert Pow2(e + 8) == 2 * p;
    AndBit(v, e + 7);
    if v >= p {
      DivOne(v, p);
    } else {
      DivZero(v, p);
    }
  }

  /** Below 2^(e+8), the search from exponent e stops at k or above exactly when
      v >= 2^(k+7). */
  lemma {:induction false} ExponentFromAtLeast(v: int, e: nat, k: nat)
    requires e <= 7 && 0 <= v < Pow2(e + 8) && 1 <= k <= e
    ensures ExponentFrom(v, e) >= k <==> v >= Pow2(k + 7)
    decreases e
  {
    MaskTest(v, e);
    if v >= Pow2(e + 7) {
      PowMonotone(k + 7, e + 7);
    } else if k < e {
      ExponentFromAtLeast(v, e - 1, k);
    }
  }

  /** For 0 <= v < 2^15 and 1 <= k <= 7: the exponent is at least k exactly
      when v >= 2^(k+7). */
  lemma ExponentAtLeast(v: int, k: nat)
    requires 0 <= v < 0x8000 && 1 <= k <= 7
    ensures Exponent(v) >= k <==> v >= Pow2(k + 7)
  {
    assert Pow2(15) == 0x8000;
    ExponentFromAtLeast(v, 7, k);
  }

  /** For the biased magnitude of a non-negative sample (0 <= v < 2^15), the
      exponent is 0 exactly when v < 256, and e >= 1 exactly when
      2^(e+7) <= v < 2^(e+8). */
  lemma ExponentBand(v: int, e: nat)
    requires 0 <= v < 0x8000 && e <= 7
    ensures Exponent(v) == 0 <==> v < 256
    ensures e >= 1 ==> (Exponent(v) == e <==> Pow2(e + 7) <= v < Pow2(e + 8))
  {
    ExponentAtLeast(v, 1);
    assert Pow2(8) == 256;
    if e >= 1 {
      ExponentAtLeast(v, e);
      if e < 7 {
        ExponentAtLeast(v, e + 1);
      } else {
        assert Pow2(15) == 0x8000;
      }
    }
  }

  /** The exponent never decreases as the biased magnitude grows. */
  lemma ExponentMonotone(v1: int, v2: int)
    requires 0 <= v1 <= v2 < 0x8000
    ensures Exponent(v1) <= Exponent(v2)
  {
    var e1 := Exponent(v1);
    if e1 >= 1 {
      ExponentAtLeast(v1, e1);
      ExponentAtLeast(v2, e1);
    }
  }

  /** Within its band, the mantissa is the offset of v in 16 equal steps.
      (For exponent 0 the band is [0, 256) and the step is 16.) */
  lemma MantissaInBand(v: int)
    requires 0 <= v < 0x8000
    ensures var e := Exponent(v);
      Mantissa(v, e) == v / Pow2(MantissaShift(e)) - (if e == 0 then 0 else 16)
  {
    var e := Exponent(v);
    ExponentBand(v, e);
    if e == 0 {
      MantissaLow(v);
    } else {
      MantissaHigh(v, e);
    }
  }

  /** In the band of exponent 0, below 256, the mantissa is v / 16. */
  lemma MantissaLow(v: int)
    requires 0 <= v < 0x100
    ensures Mantissa(v, 0) == v / 16
  {
    MantissaValue(v, 0);
    assert Pow2(4) == 16;
    DivMonotone(v, 255, 16);
    DivModUnique(v / 16, 16, 0, v / 16);
  }

  /** In the band of exponent e >= 1, 2^(e+7) <= v < 2^(e+8), the mantissa is
      v / 2^(e+3) - 16. */
  lemma MantissaHigh(v: int, e: nat)
    requires 1 <= e <= 7 && Pow2(e + 7) <= v < Pow2(e + 8)
    ensures Mantissa(v, e) == v / Pow2(e + 3) - 16
  {
    MantissaValue(v, e);
    var d := Pow2(e + 3);
    var q := v / d;
    assert 16 <= q < 32 by {
      assert Pow2(e + 7) == 16 * d && Pow2(e + 8) == 32 * d by {
        PowShift(e + 3, 4);
        PowShift(e + 3, 5);
        assert Pow2(4) == 16;
        assert Pow2(5) == 32;
      }
      BandQuotient(v, d);
    }
    DivModUnique(q, 16, 1, q - 16);
  }

  lemma BandQuotient(v: int, d: int)
    requires d > 0 && 16 * d <= v < 32 * d
    ensures 16 <= v / d < 32
  {
    DivModUnique(16 * d, d, 16, 0);
    DivMonotone(16 * d, v, d);
    DivMonotone(v, 32 * d - 1, d);
    DivModUnique(32 * d - 1, d, 31, d - 1);
  }

  /** The 7-bit code `(exponent << 4) | mantissa` never decreases as the biased
      magnitude grows. */
  lemma CodeMonotone(v1: int, v2: int)
    requires 0 <= v1 <= v2 < 0x8000
    ensures Code(v1) <= Code(v2)
  {
    var e1, e2 := Exponent(v1), Exponent(v2);
    MantissaValue(v1, e1);
    MantissaValue(v2, e2);
    ExponentMonotone(v1, v2);
    if e1 == e2 {
      MantissaInBand(v1);
      MantissaInBand(v2);
      DivMonotone(v1, v2, Pow2(MantissaShift(e1)));
    }
  }

  // ---------------------------------------------------------------------
  // Properties of the returned byte.

  /** Bit 7 of a Java byte is its sign. */
  lemma ByteSignBit(b: Byte)
    ensures And(b, 0x80) == 0 <==> b >= 0
    ensures b >= 0 <==> UByte(b) < 0x80
  {
    AndBit(b, 7);
    assert Pow2(7) == 0x80;
    if b < 0 {
      DivModUnique(b, 128, -1, b + 128);
    } else {
      DivModUnique(b, 128, 0, b);
    }
  }

  /** A byte is determined by its unsigned value. */
  lemma UByteInjective(a: Byte, b: Byte)
    requires UByte(a) == UByte(b)
    ensures a == b
  {
  }

  /** A byte whose unsigned value is 0x80 above another's is that byte with
      bit 7 flipped. */
  lemma FlipByUByte(a: Byte, b: Byte)
    requires UByte(b) == UByte(a) + 0x80
    ensures a == FlipBit7(b)
  {
  }

  /** Bit 7 of the byte is clear exactly for negative samples, -32768 included. */
  lemma SignBit(sample: Short)
    ensures And(Encode(sample), 0x80) == 0 <==> sample < 0
    ensures Encode(sample) >= 0 <==> sample < 0
  {
    ByteSignBit(Encode(sample));
  }

  /** A sample and its negation share exponent and mantissa: the bytes differ
      in bit 7 alone. */
  lemma Symmetric(x: int)
    requires 1 <= x <= SHORT_MAX
    ensures Encode(-x) == FlipBit7(Encode(x))
    ensures UByte(Encode(-x)) == UByte(Encode(x)) - 0x80
  {
    SameMagnitude(x);
    SignOnly(x, -x);
    FlipByUByte(Encode(-x), Encode(x));
  }

  /** Negation keeps the biased magnitude of every sample but -32768. */
  lemma SameMagnitude(x: int)
    requires 1 <= x <= SHORT_MAX
    ensures BiasedMagnitude(-x) == BiasedMagnitude(x)
  {
    BiasedMagnitudeValue(x);
    BiasedMagnitudeValue(-x);
  }

  /** Two samples of opposite sign with the same biased magnitude: their bytes
      differ by bit 7 alone. */
  lemma SignOnly(x: Short, y: Short)
    requires x >= 0 && y < 0 && BiasedMagnitude(x) == BiasedMagnitude(y)
    ensures UByte(Encode(x)) == UByte(Encode(y)) + 0x80
  {
  }

  /** Every sample from CLIP up encodes like CLIP itself, to 0x80. */
  lemma Saturates(x: Short)
    requires x >= CLIP
    ensures Encode(x) == Encode(CLIP as Short)
    ensures UByte(Encode(x)) == 0x80
  {
    TopCode(x);
    TopCode(CLIP);
    UByteInjective(Encode(x), Encode(CLIP as Short));
  }

  /** The top code is reached well before the clip: every sample from
      0x7C00 - 132 = 31612 up has exponent 7 and mantissa 15, byte 0x80. */
  lemma TopCode(x: Short)
    requires x >= 0x7C00 - BIAS
    ensures UByte(Encode(x)) == 0x80
  {
    var v := BiasedMagnitude(x);
    assert 0x7C00 <= v < 0x8000 by {
      BiasedMagnitudeValue(x);
    }
    CodeTopStep(v);
  }

  lemma CodeTopStep(v: int)
    requires 0x7C00 <= v < 0x8000
    ensures Code(v) == 0x7F
  {
    assert v / 0x400 == 31 by {
      DivModUnique(v, 0x400, 31, v - 0x7C00);
    }
    CodeTop(v);
  }

  /** The powers of two the masks of the search are made of. */
  lemma Pow2Values()
    ensures Pow2(4) == 16 && Pow2(7) == 0x80 && Pow2(8) == 0x100 && Pow2(9) == 0x200
    ensures Pow2(10) == 0x400 && Pow2(11) == 0x800 && Pow2(12) == 0x1000
    ensures Pow2(13) == 0x2000 && Pow2(14) == 0x4000 && Pow2(15) == 0x8000
  {
    assert Pow2(4) == 16;
    assert Pow2(7) == 0x80;
    assert Pow2(8) == 2 * Pow2(7);
    assert Pow2(9) == 2 * Pow2(8);
    assert Pow2(10) == 2 * Pow2(9);
    assert Pow2(11) == 2 * Pow2(10);
    assert Pow2(12) == 2 * Pow2(11);
    assert Pow2(13) == 2 * Pow2(12);
    assert Pow2(14) == 2 * Pow2(13);
    assert Pow2(15) == 2 * Pow2(14);
  }

  /** Below 256 the exponent is 0 and the code is the value's top four bits
      below bit 8. */
  lemma CodeLow(v: int)
    requires 0 <= v < 0x100
    ensures Exponent(v) == 0
    ensures Code(v) == v / 16
  {
    ExponentBand(v, 0);
    MantissaValue(v, 0);
    Pow2Values();
    DivMonotone(v, 255, 16);
    DivModUnique(v / 16, 16, 0, v / 16);
  }

  /** From 0x4000 up the exponent is 7 and the mantissa is bits 13..10. */
  lemma CodeTop(v: int)
    requires 0x4000 <= v < 0x8000
    ensures Exponent(v) == 7
    ensures Code(v) == 0x70 + (v / 0x400) % 16
  {
    Pow2Values();
    ExponentBand(v, 7);
    MantissaValue(v, 7);
  }

  /** A sample of magnitude at most 123 lands in exponent 0: its byte, read
      unsigned, is 0xFF minus the sign and (|x| + 132) / 16. */
  lemma EncodeLow(x: Short)
    requires Abs(x) <= 123
    ensures UByte(Encode(x)) == 0xFF - (if x < 0 then 0x80 else 0) - (Abs(x) + BIAS) / 16
  {
    var v := BiasedMagnitude(x);
    assert v == Abs(x) + BIAS by {
      BiasedMagnitudeValue(x);
    }
    CodeLow(v);
  }

  /** The quiet band: silence and every sample within 11 of it encode to 0xF7,
      the samples -1 to -11 to 0x77. */
  lemma QuietBand(x: Short)
    requires Abs(x) <= 11
    ensures UByte(Encode(x)) == if x < 0 then 0x77 else 0xF7
  {
    EncodeLow(x);
  }

  /** The bottom code: every sample from -32767 to -31612 encodes to 0x00. */
  lemma BottomCode(x: Short)
    requires SHORT_MIN < x <= BIAS - 0x7C00
    ensures Encode(x) == 0
  {
    NegatedTop(-x);
    ByteOfUByte(Encode(x));
  }

  lemma NegatedTop(y: Short)
    requires 0x7C00 - BIAS <= y
    ensures UByte(Encode(-y)) == 0
  {
    TopCode(y);
    Symmetric(y);
  }

  /** The extremes: -32768, whose negation wraps, encodes to 0x77, the byte
      of -1, and not to 0x00, the byte of -32767. */
  lemma EncodeExtremes()
    ensures UByte(Encode(SHORT_MAX)) == 0x80
    ensures Encode(-SHORT_MAX) == 0
    ensures Encode(SHORT_MIN) == 0x77
  {
    TopCode(SHORT_MAX);
    BottomCode(-SHORT_MAX);
    EncodeMin(SHORT_MIN);
  }

  /** -32768 encodes like -1: its wrapped biased value -32636 has no mask bit
      set, so the search ends at exponent 0 with mantissa 8. */
  lemma EncodeMin(x: Short)
    requires x == SHORT_MIN
    ensures Encode(x) == 0x77
  {
    var b := Encode(x);
    assert UByte(b) == 0x77 by {
      var v := BiasedMagnitude(x);
      assert v == SHORT_MIN + BIAS by {
        BiasedMagnitudeValue(x);
      }
      CodeMinValue(v);
    }
    ByteOfUByte(b);
  }

  /** The code of -32768 + 132: exponent 0 and mantissa 8, from
      -32636 = 16 * -2040 + 4 and -2040 = 16 * -128 + 8. */
  lemma CodeMinValue(v: int)
    requires v == SHORT_MIN + BIAS
    ensures Code(v) == 8
  {
    ExponentMinValue(v);
    MantissaValue(v, 0);
    Pow2Values();
    DivModUnique(v, 16, -2040, 4);
    DivModUnique(-2040, 16, -128, 8);
  }

  /** A byte whose unsigned value is below 0x80 is that value. */
  lemma ByteOfUByte(b: Byte)
    requires UByte(b) < 0x80
    ensures b == UByte(b)
  {
  }

  /** For -32768 + 132 (bits ...1000 0000 1000 0100) no mask bit 14..8 is set,
      so the search runs down to exponent 0. */
  lemma ExponentMinValue(v: int)
    requires v == SHORT_MIN + BIAS
    ensures Exponent(v) == 0
  {
    forall k: nat | 1 <= k <= 7
      ensures MaskBitClear(v, k)
    {
      MinBitClear(v, k);
    }
    SearchToZero(v, 7);
  }

  /** Bit k + 7 of -32768 + 132 is clear for k = 1..7: below 2^15 the value
      is a multiple of 2^(k+7) plus 132. */
  lemma MinBitClear(v: int, k: nat)
    requires v == SHORT_MIN + BIAS && 1 <= k <= 7
    ensures MaskBitClear(v, k)
  {
    var p: int, q: int := Pow2(k + 7), Pow2(8 - k);
    PowShift(k + 7, 8 - k);
    Pow2Values();
    PowMonotone(8, k + 7);
    assert v == p * -q + 132;
    DivModUnique(v, p, -q, 132);
    assert q == 2 * Pow2(7 - k);
    DivModUnique(-q, 2, -(Pow2(7 - k) as int), 0);
  }

  /** A search whose mask bits e + 7 down to 8 are all clear ends at exponent 0. */
  lemma {:induction false} SearchToZero(v: int, e: nat)
    requires e <= 7
    requires forall k: nat :: 1 <= k <= e ==> MaskBitClear(v, k)
    ensures ExponentFrom(v, e) == 0
    decreases e
  {
    if e > 0 {
      MaskClear(v, e);
      SearchToZero(v, e - 1);
    }
  }

  /** Bit e + 7 of v, the mask bit of exponent e, is clear. */
  predicate MaskBitClear(v: int, e: nat)
  {
    (v / Pow2(e + 7)) % 2 == 0
  }

  /** When the mask bit of exponent e is clear, the search moves on to e - 1. */
  lemma MaskClear(v: int, e: nat)
    requires 1 <= e <= 7 && MaskBitClear(v, e)
    ensures ExponentFrom(v, e) == ExponentFrom(v, e - 1)
  {
    assert And(v, Pow2(e + 7)) == 0 by {
      AndBit(v, e + 7);
    }
  }
}
