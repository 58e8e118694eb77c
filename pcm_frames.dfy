/**
 * The two frame loops: the sender's loop that packs a 640-byte buffer of
 * 16-bit little-endian PCM into a 320-byte µ-law frame, and the receiver's
 * loop that expands a 320-byte µ-law frame back into 640 bytes of PCM.
 * A frame is 320 samples, 40 ms of 8000 Hz mono audio.
 */
module PcmFrames {
  import opened JavaInt
  import ULawEncoder
  import ULawDecoder

  /** `byte[640]`: one frame of 16-bit PCM. */
  const PCM_BYTES: nat := 640
  /** `byte[320]`: one frame of µ-law bytes. */
  const ULAW_BYTES: nat := 320

  /** A new Java byte array of length n: all zeros. */
  function Zeros(n: nat): (r: seq<Byte>)
    ensures |r| == n && forall k :: 0 <= k < n ==> r[k] == 0
  {
    seq(n, _ => 0)
  }

  /** `(short) ((hi << 8) | (lo & 0xFF))`: the sample whose high byte is hi and
      whose low byte is lo. */
  function Join(hi: Byte, lo: Byte): Short
  {
    ToShort(Or(Shl(hi, 8), And(lo, 0xFF)))
  }

  /** The sample the sender reads at index i: bytes 2i (low) and 2i + 1 (high). */
  function SampleAt(pcm: seq<Byte>, i: nat): Short
    requires 2 * i + 1 < |pcm|
  {
    Join(pcm[2 * i + 1], pcm[2 * i])
  }

  /** `(byte) s`, the low byte the receiver writes for sample s. */
  function Low(s: Short): Byte
  {
    ToByte(s)
  }

  /** `(byte) (s >> 8)`, the high byte the receiver writes for sample s. */
  function High(s: Short): Byte
  {
    ToByte(Shr(s, 8))
  }

  /** Each little-endian sample of a PCM buffer, in order, mapped to one byte
      by the codec f. */
  function PackFrame(f: Short -> Byte, pcm: seq<Byte>): (r: seq<Byte>)
    requires |pcm| % 2 == 0
    ensures |r| == |pcm| / 2
    decreases |pcm|
  {
    if |pcm| == 0 then []
    else
      var n := |pcm| - 2;
      PackFrame(f, pcm[..n]) + [f(Join(pcm[n + 1], pcm[n]))]
  }

  /** Each byte of a µ-law buffer, in order, mapped to a sample by the codec f
      and stored as its low and then its high byte. */
  function UnpackFrame(f: Byte -> Short, ulaw: seq<Byte>): (r: seq<Byte>)
    ensures |r| == 2 * |ulaw|
    decreases |ulaw|
  {
    if |ulaw| == 0 then []
    else
      var n := |ulaw| - 1;
      var s := f(ulaw[n]);
      UnpackFrame(f, ulaw[..n]) + [Low(s), High(s)]
  }

  /** The µ-law frame the sender's loop produces for a PCM buffer. */
  function EncodedFrame(pcm: seq<Byte>): seq<Byte>
    requires |pcm| % 2 == 0
  {
    PackFrame(ULawEncoder.Encode, pcm)
  }

  /** The PCM frame the receiver's loop produces for a µ-law buffer. */
  function DecodedFrame(ulaw: seq<Byte>): seq<Byte>
  {
    UnpackFrame(ULawDecoder.ULawToLinear, ulaw)
  }

  /** The sender's frame loop: `for (i = 0, j = 0; i < 320; i++, j += 2)`
      encodes sample i of `buffer` into `ulawBuffer[i]`; `buffer` is only read. */
  method EncodeFrame(buffer: array<Byte>, ulawBuffer: array<Byte>)
    requires buffer.Length == PCM_BYTES && ulawBuffer.Length == ULAW_BYTES
    modifies ulawBuffer
    ensures ulawBuffer[..] == EncodedFrame(buffer[..])
  {
    ghost var pcm := buffer[..];
    var i, j := 0, 0;
    while i < ulawBuffer.Length
      invariant 0 <= i <= ULAW_BYTES && j == 2 * i
      invariant forall k :: 0 <= k < i ==> ulawBuffer[k] == ULawEncoder.Encode(SampleAt(pcm, k))
    {
      var sample := Join(buffer[j + 1], buffer[j]);
      assert sample == SampleAt(pcm, i) by { assert buffer[j + 1] == pcm[2 * i + 1] && buffer[j] == pcm[2 * i]; }
      var b := ULawEncoder.LinearToULaw(sample);
      ulawBuffer[i] := b;
      i, j := i + 1, j + 2;
    }
    EncodedFrameIs(pcm, ulawBuffer[..]);
  }

  /** A buffer holding the encoding of every sample, in order, is the frame. */
  lemma EncodedFrameIs(pcm: seq<Byte>, ulaw: seq<Byte>)
    requires |pcm| % 2 == 0 && |ulaw| == |pcm| / 2
    requires forall k :: 0 <= k < |ulaw| ==> ulaw[k] == ULawEncoder.Encode(SampleAt(pcm, k))
    ensures ulaw == EncodedFrame(pcm)
  {
    forall k | 0 <= k < |ulaw|
      ensures ulaw[k] == EncodedFrame(pcm)[k]
    {
      PackFrameAt(ULawEncoder.Encode, pcm, k);
    }
  }

  /** The receiver's frame loop: `for (i = 0, j = 0; i < 320; i++, j += 2)`
      decodes `ulawBuffer[i]` and stores its low and high byte at j and j + 1.
      All 320 bytes are decoded, whatever part of them the last datagram filled. */
  method DecodeFrame(ulawBuffer: array<Byte>, pcmBuffer: array<Byte>)
    requires ulawBuffer.Length == ULAW_BYTES && pcmBuffer.Length == PCM_BYTES
    modifies pcmBuffer
    ensures pcmBuffer[..] == DecodedFrame(ulawBuffer[..])
  {
    ghost var ulaw := ulawBuffer[..];
    var i, j := 0, 0;
    while i < ulawBuffer.Length
      invariant 0 <= i <= ULAW_BYTES && j == 2 * i
      invariant ulawBuffer[..] == ulaw
      invariant forall k :: 0 <= k < i ==>
        pcmBuffer[2 * k] == Low(ULawDecoder.ULawToLinear(ulaw[k])) &&
        pcmBuffer[2 * k + 1] == High(ULawDecoder.ULawToLinear(ulaw[k]))
    {
      var u := ulawBuffer[i];
      assert u == ulaw[i];
      var s := ULawDecoder.ULawToLinear(u);
      pcmBuffer[j], pcmBuffer[j + 1] := Low(s), High(s);
      i, j := i + 1, j + 2;
    }
    DecodedFrameIs(ulaw, pcmBuffer[..]);
  }

  /** A buffer holding the low and high byte of every decoded byte, in order,
      is the frame. */
  lemma DecodedFrameIs(ulaw: seq<Byte>, pcm: seq<Byte>)
    requires |pcm| == 2 * |ulaw|
    requires forall k :: 0 <= k < |ulaw| ==>
      pcm[2 * k] == Low(ULawDecoder.ULawToLinear(ulaw[k])) &&
      pcm[2 * k + 1] == High(ULawDecoder.ULawToLinear(ulaw[k]))
    ensures pcm == DecodedFrame(ulaw)
  {
    forall n | 0 <= n < |pcm|
      ensures pcm[n] == DecodedFrame(ulaw)[n]
    {
      var k := n / 2;
      UnpackFrameAt(ULawDecoder.ULawToLinear, ulaw, k);
      assert n == 2 * k || n == 2 * k + 1;
    }
  }

  // ---------------------------------------------------------------------
  // Properties.

  /** The joined sample is the signed little-endian value 256 hi + (lo & 0xFF). */
  lemma JoinValue(hi: Byte, lo: Byte)
    ensures Join(hi, lo) == 0x100 * hi + UByte(lo)
  {
    assert Pow2(8) == 0x100 by {
      assert Pow2(4) == 16;
    }
    var u := UByte(lo);
    assert And(lo, 0xFF) == u by {
      AndLowBits(lo, 8);
      if lo < 0 {
        DivModUnique(lo, 0x100, -1, u);
      } else {
        DivModUnique(lo, 0x100, 0, u);
      }
    }
    assert Shl(hi, 8) == hi * 0x100 by {
      assert ShiftCount(8) == 8;
      ScaleMul(hi, 8);
    }
    OrDisjoint(hi, u, 8);
  }

  /** Splitting a sample into `(byte) s` and `(byte) (s >> 8)` and joining them
      with the sender's expression gives the sample back. */
  lemma SplitJoin(s: Short)
    ensures Join(High(s), Low(s)) == s
  {
    assert Pow2(8) == 0x100 by {
      assert Pow2(4) == 16;
    }
    assert High(s) == s / 0x100 by {
      ShrDiv(s, 8);
      assert ShiftCount(8) == 8;
      ULawEncoder.HighByte(s);
    }
    ByteBits(s);
    JoinValue(High(s), Low(s));
  }

  /** Byte i of a packed frame is the codec applied to sample i. */
  lemma {:induction false} PackFrameAt(f: Short -> Byte, pcm: seq<Byte>, i: nat)
    requires |pcm| % 2 == 0 && i < |pcm| / 2
    ensures PackFrame(f, pcm)[i] == f(SampleAt(pcm, i))
    decreases |pcm|
  {
    var n := |pcm| - 2;
    if i < n / 2 {
      PackFrameAt(f, pcm[..n], i);
    }
  }

  /** Bytes 2i and 2i + 1 of an unpacked frame are the low and the high byte of
      the codec applied to byte i. */
  lemma {:induction false} UnpackFrameAt(f: Byte -> Short, ulaw: seq<Byte>, i: nat)
    requires i < |ulaw|
    ensures UnpackFrame(f, ulaw)[2 * i] == Low(f(ulaw[i]))
    ensures UnpackFrame(f, ulaw)[2 * i + 1] == High(f(ulaw[i]))
    decreases |ulaw|
  {
    var n := |ulaw| - 1;
    if i < n {
      UnpackFrameAt(f, ulaw[..n], i);
    }
  }

  /** Byte i of the sender's frame encodes the little-endian sample at bytes
      2i and 2i + 1 of the PCM buffer. */
  lemma EncodedSampleValue(pcm: seq<Byte>, i: nat)
    requires |pcm| % 2 == 0 && i < |pcm| / 2
    ensures |EncodedFrame(pcm)| == |pcm| / 2
    ensures EncodedFrame(pcm)[i] == ULawEncoder.Encode(SampleAt(pcm, i))
    ensures SampleAt(pcm, i) == 0x100 * pcm[2 * i + 1] + UByte(pcm[2 * i])
  {
    PackFrameAt(ULawEncoder.Encode, pcm, i);
    JoinValue(pcm[2 * i + 1], pcm[2 * i]);
  }

  /** Bytes 2i and 2i + 1 of the receiver's frame are the low and the high byte
      of the decoded byte i: the low byte read unsigned is the sample modulo 256,
      the high byte is the sample divided by 256, rounded down. */
  lemma DecodedFrameAt(ulaw: seq<Byte>, i: nat)
    requires i < |ulaw|
    ensures |DecodedFrame(ulaw)| == 2 * |ulaw|
    ensures var s := ULawDecoder.ULawToLinear(ulaw[i]);
      var pcm := DecodedFrame(ulaw);
      UByte(pcm[2 * i]) == s % 0x100 && pcm[2 * i + 1] == s / 0x100
  {
    UnpackFrameAt(ULawDecoder.ULawToLinear, ulaw, i);
    SplitValue(ULawDecoder.ULawToLinear(ulaw[i]));
  }

  /** The low byte of a sample read unsigned is the sample modulo 256; the high
      byte is the sample divided by 256, rounded down. */
  lemma SplitValue(s: Short)
    ensures UByte(Low(s)) == s % 0x100 && High(s) == s / 0x100
  {
    ByteBits(s);
    assert Pow2(8) == 0x100 by {
      assert Pow2(4) == 16;
    }
    ShrDiv(s, 8);
    assert ShiftCount(8) == 8;
    ULawEncoder.HighByte(s);
  }

  /** Unpacking and reading back with the sender's expression gives the codec's
      samples. */
  lemma UnpackedSamples(f: Byte -> Short, ulaw: seq<Byte>, i: nat)
    requires i < |ulaw|
    ensures SampleAt(UnpackFrame(f, ulaw), i) == f(ulaw[i])
  {
    UnpackFrameAt(f, ulaw, i);
    SplitJoin(f(ulaw[i]));
  }

  /** End to end: sample i of the PCM the receiver plays for a frame the sender
      built from `pcm` is the decoding of the encoding of sample i of `pcm`. */
  lemma FrameToFrame(pcm: seq<Byte>, i: nat)
    requires |pcm| % 2 == 0 && i < |pcm| / 2
    ensures SampleAt(DecodedFrame(EncodedFrame(pcm)), i) ==
      ULawDecoder.ULawToLinear(ULawEncoder.Encode(SampleAt(pcm, i)))
  {
    PackFrameAt(ULawEncoder.Encode, pcm, i);
    UnpackedSamples(ULawDecoder.ULawToLinear, EncodedFrame(pcm), i);
  }
}
