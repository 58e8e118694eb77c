/**
 * The receiver's µ-law decoder, `uLawToLinear` in AudioReciever.java.
 *
 * The byte is complemented as in ITU-T G.711, then split into a sign bit,
 * a 3-bit exponent e and a 4-bit mantissa m; the magnitude is
 * `(((m << 4) + 8) << (e + 3)) - 132` and the `(short)` cast truncates it to
 * 16 bits.  This formula is the program's own, not G.711's expansion.
 */
module ULawDecoder {
  import opened JavaInt

  const BIAS: int := 0x84

  /** The value `uLawToLinear(ulaw)` returns: the 16-bit truncation of the
      magnitude of the fields of the complemented byte, negated when the sign
      bit of the complemented byte is set. */
  function ULawToLinear(ulaw: Byte): (r: Short)
    ensures r == Expanded(FieldCode(ulaw))
  {
    var u := ToByte(Not(ulaw));
    Fields(ulaw);
    AssembleValue(And(u, 0x80), Shr(And(u, 0x70), 4), And(u, 0x0F), FieldCode(ulaw));
    Assemble(And(u, 0x80), Shr(And(u, 0x70), 4), And(u, 0x0F))
  }

  /** The last two statements of `uLawToLinear`: the magnitude
      `(((mantissa << 4) + 8) << (exponent + 3)) - BIAS` in `int` arithmetic,
      negated when the sign field is set, cast to `short`. */
  function Assemble(sign: int, exponent: int, mantissa: int): Short
  {
    var sample := ToInt(Shl(ToInt(Shl(mantissa, 4) + 0x08), ToInt(exponent + 3)) - BIAS);
    ToShort(if sign != 0 then ToInt(-sample) else sample)
  }

  /** The complemented byte read unsigned: the field code G.711 transmits
      inverted. */
  function FieldCode(ulaw: Byte): (c: nat)
    ensures c < 0x100
    ensures c == 0xFF - UByte(ulaw)
  {
    UByte(ToByte(Not(ulaw)))
  }

  /** The unbounded magnitude the decoder computes for exponent e and mantissa m,
      before the `(short)` cast. */
  function Magnitude(e: nat, m: nat): (r: int)
    requires e <= 7 && m <= 15
    ensures -68 <= r <= 253820
  {
    MagnitudeBounds(e, m);
    Scale(16 * m + 8, e + 3) - BIAS
  }

  /** The sample the program's expansion gives for field code c: the magnitude
      of its exponent and mantissa, negated when bit 7 is set, cast to `short`. */
  function Expanded(c: nat): Short
    requires c < 0x100
  {
    Signed(c >= 0x80, Magnitude((c / 16) % 8, c % 16))
  }

  /** A magnitude, negated when `negative`, cast to `short`. */
  function Signed(negative: bool, M: int): Short
  {
    ToShort(if negative then -M else M)
  }

  /** The field codes whose magnitude exceeds 32767, so that the cast wraps. */
  predicate Wraps(e: nat, m: nat)
  {
    (e == 5 && m >= 8) || (e == 6 && m >= 4) || (e == 7 && m >= 2)
  }

  // ---------------------------------------------------------------------
  // The decode formula.

  lemma Pow2Small()
    ensures Pow2(3) == 8 && Pow2(4) == 16 && Pow2(7) == 0x80 && Pow2(8) == 0x100
    ensures Pow2(9) == 0x200 && Pow2(10) == 0x400
  {
    assert Pow2(3) == 8;
    assert Pow2(4) == 2 * Pow2(3);
    assert Pow2(7) == 0x80;
    assert Pow2(8) == 2 * Pow2(7);
    assert Pow2(9) == 2 * Pow2(8);
    assert Pow2(10) == 2 * Pow2(9);
  }

  lemma MagnitudeBounds(e: nat, m: nat)
    requires e <= 7 && m <= 15
    ensures 8 <= Pow2(e + 3) <= 0x400
    ensures Scale(16 * m + 8, e + 3) == (16 * m + 8) * Pow2(e + 3)
    ensures 0 <= Scale(16 * m + 8, e + 3) <= 248 * 0x400
    ensures -68 <= Scale(16 * m + 8, e + 3) - BIAS <= 253820
  {
    Pow2Small();
    PowMonotone(3, e + 3);
    PowMonotone(e + 3, 10);
    var p, k := Pow2(e + 3), 16 * m + 8;
    ScaleMul(k, e + 3);
    MulMonotone(8, k, p);
    MulMonotone(k, 248, p);
    MulMonotone(p, 0x400, 248);
  }

  /** The sign, exponent and mantissa fields of the complemented byte. */
  lemma Fields(ulaw: Byte)
    ensures var u := ToByte(Not(ulaw));
      var c := FieldCode(ulaw);
      && (And(u, 0x80) != 0 <==> c >= 0x80)
      && Shr(And(u, 0x70), 4) == (c / 16) % 8
      && And(u, 0x0F) == c % 16
  {
    var u := ToByte(Not(ulaw));
    assert FieldCode(ulaw) == UByte(u);
    SignField(u);
    ExponentField(u);
    MantissaField(u);
  }

  /** `u & 0x80` is set exactly when bit 7 of the unsigned value is. */
  lemma SignField(u: Byte)
    ensures And(u, 0x80) != 0 <==> UByte(u) >= 0x80
  {
    AndBit(u, 7);
    assert Pow2(7) == 0x80;
    if u < 0 {
      DivModUnique(u, 0x80, -1, u + 0x80);
    } else {
      DivModUnique(u, 0x80, 0, u);
    }
  }

  /** `(u & 0x70) >> 4` is bits 4..6 of the unsigned value. */
  lemma ExponentField(u: Byte)
    ensures Shr(And(u, 0x70), 4) == (UByte(u) / 16) % 8
  {
    var c := UByte(u);
    var f := (c / 16) % 8;
    assert And(u, 0x70) == 16 * f by {
      assert Pow2(4) == 16;
      AndScaled(u, 7, 4);
      AndLow3(u / 16);
      SameHigh(u, c);
    }
    assert Shr(16 * f, 4) == f by {
      ShrDiv(16 * f, 4);
      assert ShiftCount(4) == 4 && Pow2(4) == 16;
      DivModUnique(16 * f, 16, f, 0);
    }
  }

  /** `u & 0x0F` is the low four bits of the unsigned value. */
  lemma MantissaField(u: Byte)
    ensures And(u, 0x0F) == UByte(u) % 16
  {
    var c := UByte(u);
    assert Pow2(4) == 16;
    AndLowBits(u, 4);
    if u < 0 {
      DivModUnique(c, 16, u / 16 + 16, u % 16);
    }
  }

  lemma AndLow3(x: int)
    ensures And(x, 7) == x % 8
  {
    AndLowBits(x, 3);
    assert Pow2(3) == 8;
  }

  /** A byte and its unsigned value have the same bits 4..6. */
  lemma SameHigh(u: Byte, c: int)
    requires c == UByte(u)
    ensures (u / 16) % 8 == (c / 16) % 8
  {
    if u < 0 {
      DivModUnique(c, 16, u / 16 + 16, u % 16);
      DivModUnique(u / 16 + 16, 8, (u / 16) / 8 + 2, (u / 16) % 8);
    }
  }

  /** Fields that agree with a field code assemble to that code's expansion. */
  lemma AssembleValue(sign: int, e: int, m: int, c: nat)
    requires c < 0x100
    requires (sign != 0 <==> c >= 0x80) && e == (c / 16) % 8 && m == c % 16
    ensures Assemble(sign, e, m) == Expanded(c)
  {
    SampleExact(m, e);
    var M := Magnitude(e, m);
    assert ToInt(-M) == -M;
  }

  /** `(((m << 4) + 8) << (e + 3)) - BIAS` evaluated in `int` arithmetic is the
      magnitude: neither shift loses a bit and nothing wraps. */
  lemma SampleExact(m: int, e: int)
    requires 0 <= e <= 7 && 0 <= m <= 15
    ensures ToInt(Shl(ToInt(Shl(m, 4) + 0x08), ToInt(e + 3)) - BIAS) == Magnitude(e, m)
  {
    var k := 16 * m + 8;
    assert Shl(m, 4) == 16 * m by {
      assert ShiftCount(4) == 4 && Pow2(4) == 16;
      ScaleMul(m, 4);
    }
    assert ToInt(k) == k;
    assert ToInt(e + 3) == e + 3 && ShiftCount(e + 3) == e + 3;
    MagnitudeBounds(e, m);
  }

  // ---------------------------------------------------------------------
  // Properties.

  /** Flipping bit 7 of the input negates the output modulo 2^16. */
  lemma SignFlip(b: Byte)
    ensures (ULawToLinear(FlipBit7(b)) + ULawToLinear(b)) % 0x1_0000 == 0
  {
    FlipCode(b);
    ExpandedFlip(FieldCode(b), FieldCode(FlipBit7(b)));
  }

  /** Flipping bit 7 of the byte flips bit 7 of its field code and keeps the rest. */
  lemma FlipCode(b: Byte)
    ensures var c, c' := FieldCode(b), FieldCode(FlipBit7(b));
      c' % 0x80 == c % 0x80 && c' / 0x80 == 1 - c / 0x80
  {
    var x, y := UByte(FlipBit7(b)), UByte(b);
    var r, yh := y % 0x80, y / 0x80;
    assert x == 0x80 * (1 - yh) + r;
    DivModUnique(0xFF - y, 0x80, 1 - yh, 0x7F - r);
    DivModUnique(0xFF - x, 0x80, yh, 0x7F - r);
  }

  /** The expansions of two field codes that differ in bit 7 alone add up to 0
      modulo 2^16. */
  lemma ExpandedFlip(c: nat, c': nat)
    requires c < 0x100 && c' < 0x100
    requires c' % 0x80 == c % 0x80 && c' / 0x80 == 1 - c / 0x80
    ensures (Expanded(c') + Expanded(c)) % 0x1_0000 == 0
  {
    var M := Magnitude((c / 16) % 8, c % 16);
    assert Magnitude((c' / 16) % 8, c' % 16) == M by {
      SameFields(c, c');
    }
    assert (c' >= 0x80) == !(c >= 0x80);
    assert Expanded(c) == Signed(c >= 0x80, M);
    assert Expanded(c') == Signed(!(c >= 0x80), M);
    NegatedShorts(M);
  }

  /** Codes that differ in bit 7 alone have the same exponent and mantissa. */
  lemma SameFields(c: nat, c': nat)
    requires c < 0x100 && c' < 0x100 && c' % 0x80 == c % 0x80
    ensures (c' / 16) % 8 == (c / 16) % 8 && c' % 16 == c % 16
  {
    DivModUnique(c, 0x80, c / 0x80, c % 0x80);
    DivModUnique(c', 0x80, c' / 0x80, c' % 0x80);
    var r := c % 0x80;
    DivModUnique(r, 16, r / 16, r % 16);
    DivModUnique(c, 16, 8 * (c / 0x80) + r / 16, r % 16);
    DivModUnique(c', 16, 8 * (c' / 0x80) + r / 16, r % 16);
    DivModUnique(8 * (c / 0x80) + r / 16, 8, c / 0x80, r / 16);
    DivModUnique(8 * (c' / 0x80) + r / 16, 8, c' / 0x80, r / 16);
  }

  /** The two signs of one magnitude add up to 0 modulo 2^16. */
  lemma NegatedShorts(x: int)
    ensures (Signed(true, x) + Signed(false, x)) % 0x1_0000 == 0
    ensures (Signed(false, x) + Signed(true, x)) % 0x1_0000 == 0
  {
    var a: int, b: int := ToShort(-x), ToShort(x);
    ShortResidue(x);
    ShortResidue(-x);
    var k1, k2 := (-x - a) / 0x1_0000, (x - b) / 0x1_0000;
    assert a + b == -0x1_0000 * (k1 + k2);
    DivModUnique(a + b, 0x1_0000, -(k1 + k2), 0);
  }

  /** The cast is exact exactly when the field code does not wrap; otherwise the
      returned value differs from the signed magnitude. */
  lemma ExactUnlessWraps(ulaw: Byte)
    ensures var c := FieldCode(ulaw);
      var e, m := (c / 16) % 8, c % 16;
      var M := Magnitude(e, m);
      (ULawToLinear(ulaw) == (if c >= 0x80 then -M else M)) <==> !Wraps(e, m)
  {
    var c := FieldCode(ulaw);
    var e, m := (c / 16) % 8, c % 16;
    WrapsIff(e, m);
  }

  /** The magnitude exceeds 32767 exactly for the wrapping field codes; it is
      never exactly 32768, so a negated magnitude fits exactly when the magnitude
      does. */
  lemma WrapsIff(e: nat, m: nat)
    requires e <= 7 && m <= 15
    ensures Magnitude(e, m) > SHORT_MAX <==> Wraps(e, m)
    ensures Magnitude(e, m) != 0x8000
  {
    if e <= 4 {
      MagnitudeLow(e, m);
    } else {
      MagnitudeHigh(e, m);
    }
  }

  /** Up to exponent 4 the magnitude is at most 248 * 2^7 - 132 = 31612. */
  lemma MagnitudeLow(e: nat, m: nat)
    requires e <= 4 && m <= 15
    ensures Magnitude(e, m) <= 31612
  {
    var p, k := Pow2(e + 3), 16 * m + 8;
    ScaleMul(k, e + 3);
    PowMonotone(e + 3, 7);
    assert Pow2(7) == 0x80;
    MulMonotone(k, 248, p);
    MulMonotone(p, 0x80, 248);
  }

  /** From exponent 5 on the magnitude is linear in m with slope 2^(e+7):
      4096 m + 1916, 8192 m + 3964 and 16384 m + 8060. */
  lemma MagnitudeHigh(e: nat, m: nat)
    requires 5 <= e <= 7 && m <= 15
    ensures e == 5 ==> Magnitude(e, m) == 4096 * m + 1916
    ensures e == 6 ==> Magnitude(e, m) == 8192 * m + 3964
    ensures e == 7 ==> Magnitude(e, m) == 16384 * m + 8060
  {
    Pow2Small();
    ScaleMul(16 * m + 8, e + 3);
  }

  /** The pinned values: 0xFF decodes to -68, 0x7F to 68, 0xF7 (the code of
      silence) to 956, and 0x80 to -8324, a wrapped 253820. */
  lemma DecodePins(b: Byte)
    ensures UByte(b) == 0xFF ==> ULawToLinear(b) == -68
    ensures UByte(b) == 0x7F ==> ULawToLinear(b) == 68
    ensures UByte(b) == 0xF7 ==> ULawToLinear(b) == 956
    ensures UByte(b) == 0x80 ==> ULawToLinear(b) == -8324
  {
    CodePins(FieldCode(b));
  }

  /** The expansions of the four pinned field codes 0, 0x80, 8 and 0x7F. */
  lemma CodePins(c: nat)
    requires c < 0x100
    ensures c == 0 ==> Expanded(c) == -68
    ensures c == 0x80 ==> Expanded(c) == 68
    ensures c == 8 ==> Expanded(c) == 956
    ensures c == 0x7F ==> Expanded(c) == -8324
  {
    if c == 0x7F {
      ExpandedTop(c);
    } else if c == 0 || c == 0x80 || c == 8 {
      ExpandedExponentZero(c);
    }
  }

  /** Field codes with exponent 0 expand to ±(128 m - 68), without wrapping. */
  lemma ExpandedExponentZero(c: nat)
    requires c < 0x100 && (c / 16) % 8 == 0
    ensures Expanded(c) == if c >= 0x80 then 68 - 128 * (c % 16) else 128 * (c % 16) - 68
  {
    var m := c % 16;
    assert Magnitude(0, m) == 128 * m - 68 by {
      Pow2Small();
      ScaleMul(16 * m + 8, 3);
    }
  }

  /** The largest positive field code, with magnitude 253820, wraps to -8324. */
  lemma ExpandedTop(c: nat)
    requires c < 0x80 && (c / 16) % 8 == 7 && c % 16 == 15
    ensures Expanded(c) == -8324
  {
    var e, m := (c / 16) % 8, c % 16;
    MagnitudeHigh(e, m);
    DivModUnique(253820 + 0x8000, 0x1_0000, 4, 24444);
  }
}
