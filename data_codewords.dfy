/**
 * The data bit stream of `__encodeSymbol`: the segment bit streams one after
 * the other, then the terminator, the zero bits up to a byte boundary and the
 * pad codewords 0xEC and 0x11 that fill the stream to the data capacity of the
 * symbol (sections 7.4.9 and 7.4.10 of ISO/IEC 18004:2015). The encoder
 * pads as the code does (`PadAsWritten`), whose alignment tests the length
 * modulo 16 and so can miss the byte boundary; `Pad` aligns modulo 8, as
 * the standard asks.
 */
module DataCodewords {
  import opened Bits
  import opened Wrappers
  import opened BitBuffers
  import opened Segments
  import opened CodeTables

  /** A segment as the encoder reads it: its mode and its payload bytes. */
  datatype SegmentValue = SegmentValue(mode: int, data: seq<Byte>)

  predicate ValidSegments(segs: seq<SegmentValue>) {
    forall k :: 0 <= k < |segs| ==> FitsMode(segs[k].mode, segs[k].data)
  }

  /** The sum of `getBitStreamLength` over the segments once each has seen `setVersion(version)`. */
  function StreamLength(segs: seq<SegmentValue>, version: int): int
    requires ValidSegments(segs)
  {
    if segs == [] then 0
    else
      var s := segs[|segs| - 1];
      StreamLength(segs[..|segs| - 1], version) + BitStreamLength(s.mode, |s.data|, CharCountBits(version, s.mode))
  }

  /** The bits the segments' `encode` calls append, in order. */
  function StreamBits(segs: seq<SegmentValue>, version: int): seq<bool>
    requires ValidSegments(segs)
  {
    if segs == [] then []
    else
      var s := segs[|segs| - 1];
      StreamBits(segs[..|segs| - 1], version) + SegmentBits(s.mode, s.data, CharCountBits(version, s.mode))
  }

  /** The version search compares exactly the number of bits the segments encode to. */
  lemma {:induction false} StreamBitsLength(segs: seq<SegmentValue>, version: int)
    requires ValidSegments(segs)
    ensures |StreamBits(segs, version)| == StreamLength(segs, version)
    decreases |segs|
  {
    if segs != [] {
      var s := segs[|segs| - 1];
      StreamBitsLength(segs[..|segs| - 1], version);
      SegmentBitsLength(s.mode, s.data, CharCountBits(version, s.mode));
    }
  }

  /** Version `version` at level index ec holds the segments: the test of the version search. */
  ghost predicate Fits(segs: seq<SegmentValue>, ec: nat, version: nat)
    requires ValidSegments(segs) && ec < 4 && 1 <= version <= MAX_VERSION
  {
    StreamLength(segs, version) <= 8 * Props(ec, version).dataBytes
  }

  // Padding

  const PAD_WORD: nat := 0xEC11
  const PAD_BITS: nat := 16
  const TERMINATOR_BITS: nat := 4

  /** The first n bits of the word w repeated. */
  function Cycle(w: seq<bool>, n: int): (r: seq<bool>)
    requires |w| > 0
    ensures |r| == if n > 0 then n else 0
    decreases n
  {
    if n <= 0 then [] else w[..if n < |w| then n else |w|] + Cycle(w, n - |w|)
  }

  /** The bits of the pad word 0xEC11, most significant first. */
  const PAD_PATTERN: seq<bool> :=
    [true, true, true, false, true, true, false, false, false, false, false, true, false, false, false, true]

  /** The first n bits of the pad word repeated, as the padding loop appends them. */
  function PadFill(n: int): (r: seq<bool>)
    ensures |r| == if n > 0 then n else 0
  {
    Cycle(PAD_PATTERN, n)
  }

  /** n zero bits, or none when n is not positive (`append` with numBits <= 0 is a no-op). */
  function ZeroFill(n: int): (r: seq<bool>)
    ensures |r| == if n > 0 then n else 0
  {
    if n <= 0 then [] else Zeros(n)
  }

  /** The terminator: four zero bits, added only when they fit in the data capacity. */
  function Terminated(bits: seq<bool>, dataBits: int): seq<bool> {
    if |bits| + TERMINATOR_BITS <= dataBits then bits + Zeros(TERMINATOR_BITS) else bits
  }

  /** The stream after the byte alignment step of the source, which tests the length with `& 0x0f`. */
  function AlignedAsWritten(t: seq<bool>): seq<bool> {
    if |t| % 16 != 0 then t + ZeroFill(8 - |t| % 16) else t
  }

  /** The stream after a byte alignment step that tests the length modulo 8. */
  function Aligned(t: seq<bool>): seq<bool> {
    if |t| % 8 != 0 then t + ZeroFill(8 - |t| % 8) else t
  }

  /** The whole padding of `__encodeSymbol` as written. */
  function PaddedAsWritten(bits: seq<bool>, dataBits: int): seq<bool> {
    var a := AlignedAsWritten(Terminated(bits, dataBits));
    a + PadFill(dataBits - |a|)
  }

  /** The padding with the byte alignment the standard asks for. */
  function Padded(bits: seq<bool>, dataBits: int): seq<bool> {
    var a := Aligned(Terminated(bits, dataBits));
    a + PadFill(dataBits - |a|)
  }

  /** The pad word is the byte 0xEC followed by the byte 0x11. */
  lemma PadPatternBytes()
    ensures PAD_PATTERN == ByteBits(0xEC) + ByteBits(0x11)
    ensures PAD_PATTERN == LowBits(PAD_WORD, PAD_BITS)
  {
    PadHigh();
    PadLow();
    LowBitsConcat(0xEC, 8, 0x11, 8);
    assert Shl(0xEC, 8) + 0x11 == PAD_WORD;
    assert PAD_PATTERN == PAD_PATTERN[..8] + PAD_PATTERN[8..];
  }

  lemma PadHigh()
    ensures ByteBits(0xEC) == LowBits(0xEC, 8) == PAD_PATTERN[..8]
  {
    assert LowBits(0xEC, 8) == [true, true, true, false, true, true, false, false];
  }

  lemma PadLow()
    ensures ByteBits(0x11) == LowBits(0x11, 8) == PAD_PATTERN[8..]
  {
    assert LowBits(0x11, 8) == [false, false, false, true, false, false, false, true];
  }

  /** Bit k of a repeated word is bit k mod |w| of the word. */
  lemma {:induction false} CycleAt(w: seq<bool>, n: int, k: nat)
    requires |w| == 16 && k < n
    ensures Cycle(w, n)[k] == w[k % 16]
    decreases n
  {
    var m := if n < |w| then n else |w|;
    var rest := Cycle(w, n - |w|);
    if k < m {
      SmallMod(k);
    } else {
      CycleAt(w, n - |w|, k - |w|);
      ModShift(k);
      assert Cycle(w, n)[k] == rest[k - m];
    }
  }

  lemma PadFillAt(n: int, k: nat)
    requires k < n
    ensures PadFill(n)[k] == PAD_PATTERN[k % 16]
  {
    CycleAt(PAD_PATTERN, n, k);
  }

  lemma SmallMod(k: nat)
    requires k < 16
    ensures k % 16 == k
  {
  }

  lemma ModShift(k: int)
    requires k >= 16
    ensures (k - 16) % 16 == k % 16
  {
  }

  /** The alignment of the source lands on a byte boundary only when the length mod 16 is 0..8. */
  lemma AlignedAsWrittenShape(t: seq<bool>)
    ensures |AlignedAsWritten(t)| % 8 == 0 <==> |t| % 16 <= 8
    ensures |t| % 16 > 8 ==> AlignedAsWritten(t) == t
  {
  }

  /** The corrected alignment always ends on a byte boundary and adds fewer than eight zero bits. */
  lemma AlignedShape(t: seq<bool>)
    ensures |Aligned(t)| % 8 == 0
    ensures |t| <= |Aligned(t)| < |t| + 8
    ensures Aligned(t)[..|t|] == t
    ensures forall k :: |t| <= k < |Aligned(t)| ==> !Aligned(t)[k]
  {
  }

  /** Both paddings fill a stream that fits to exactly the data capacity. */
  lemma PaddedLength(bits: seq<bool>, dataBits: int)
    requires |bits| <= dataBits && dataBits % 8 == 0
    ensures |Padded(bits, dataBits)| == dataBits
    ensures |PaddedAsWritten(bits, dataBits)| == dataBits
  {
    var t := Terminated(bits, dataBits);
    AlignFits(|t|, dataBits);
  }

  /** Rounding a length up to a byte boundary, either way, stays within a byte-aligned capacity. */
  lemma AlignFits(len: int, cap: int)
    requires 0 <= len <= cap && cap % 8 == 0
    ensures len % 8 != 0 ==> len + (8 - len % 8) <= cap
    ensures len % 16 != 0 && 8 - len % 16 > 0 ==> len + (8 - len % 16) <= cap
  {
    var q, r, c := len / 8, len % 8, cap / 8;
    assert len == 8 * q + r && cap == 8 * c;
    if r != 0 {
      assert q < c;
    }
    if len % 16 != 0 && 8 - len % 16 > 0 {
      var h, t := len / 16, len % 16;
      assert len == 8 * (2 * h) + t && t < 8;
      assert q == 2 * h && r == t;
    }
  }

  /**
   * The corrected padding keeps the stream, follows it by zero bits up to a
   * byte boundary `start`, and fills the rest with the bytes 0xEC, 0x11,
   * 0xEC, ... in turn.
   */
  lemma PaddedShape(bits: seq<bool>, dataBits: int)
    requires |bits| <= dataBits && dataBits % 8 == 0
    ensures PadLayout(Padded(bits, dataBits), bits, |Aligned(Terminated(bits, dataBits))|, dataBits)
  {
    var t := Terminated(bits, dataBits);
    var a := Aligned(t);
    AlignedPrefix(bits, dataBits, t, a);
    PaddedIs(bits, dataBits, a);
    PadShape(bits, a, PadFill(dataBits - |a|), dataBits, Padded(bits, dataBits));
  }

  /**
   * The layout of a padded stream p of the stream bits: the stream, zero
   * bits up to the byte boundary start, then the pad words up to dataBits.
   */
  ghost predicate PadLayout(p: seq<bool>, bits: seq<bool>, start: int, dataBits: int) {
    && start % 8 == 0 && |bits| <= start <= dataBits <= |p|
    && p[..|bits|] == bits
    && (forall k :: |bits| <= k < start ==> !p[k])
    && (forall k :: start <= k < dataBits ==> p[k] == PAD_PATTERN[(k - start) % 16])
  }

  /** The terminated and aligned stream keeps the stream, adds only zero bits and ends on a byte boundary within the capacity. */
  lemma AlignedPrefix(bits: seq<bool>, dataBits: int, t: seq<bool>, a: seq<bool>)
    requires |bits| <= dataBits && dataBits % 8 == 0
    requires t == Terminated(bits, dataBits) && a == Aligned(t)
    ensures |a| % 8 == 0 && |bits| <= |a| <= dataBits
    ensures a[..|bits|] == bits && forall k :: |bits| <= k < |a| ==> !a[k]
  {
    TerminatedShape(bits, dataBits);
    AlignedShape(t);
    AlignFits(|t|, dataBits);
    ZerosThrough(bits, t, a);
  }

  lemma PaddedIs(bits: seq<bool>, dataBits: int, a: seq<bool>)
    requires a == Aligned(Terminated(bits, dataBits))
    ensures Padded(bits, dataBits) == a + PadFill(dataBits - |a|)
  {
  }

  /** The terminator keeps the stream and follows it with zero bits only. */
  lemma TerminatedShape(bits: seq<bool>, dataBits: int)
    ensures var t := Terminated(bits, dataBits);
      && |bits| <= |t| && (|bits| <= dataBits ==> |t| <= dataBits)
      && t[..|bits|] == bits && (forall k :: |bits| <= k < |t| ==> !t[k])
  {
  }

  /** Zero bits after a prefix, followed by more zero bits, are zero bits after that prefix. */
  lemma ZerosThrough(bits: seq<bool>, t: seq<bool>, a: seq<bool>)
    requires |bits| <= |t| <= |a|
    requires t[..|bits|] == bits && forall k :: |bits| <= k < |t| ==> !t[k]
    requires a[..|t|] == t && forall k :: |t| <= k < |a| ==> !a[k]
    ensures a[..|bits|] == bits && forall k :: |bits| <= k < |a| ==> !a[k]
  {
    forall k | |bits| <= k < |t|
      ensures !a[k]
    {
      assert a[k] == a[..|t|][k];
    }
    assert a[..|bits|] == a[..|t|][..|bits|];
  }

  /** The pad words fill positions |a| up to the data capacity, after the aligned stream a. */
  lemma PadShape(bits: seq<bool>, a: seq<bool>, fill: seq<bool>, dataBits: int, p: seq<bool>)
    requires |bits| <= |a| <= dataBits && fill == PadFill(dataBits - |a|) && p == a + fill
    requires a[..|bits|] == bits && forall k :: |bits| <= k < |a| ==> !a[k]
    requires |a| % 8 == 0
    ensures PadLayout(p, bits, |a|, dataBits)
  {
    forall k | |a| <= k < dataBits
      ensures p[k] == PAD_PATTERN[(k - |a|) % 16]
    {
      PadFillAt(dataBits - |a|, k - |a|);
    }
    assert p[..|bits|] == a[..|bits|];
  }

  /**
   * The alignment step of the source skips the boundary when the length mod
   * 16 is 9..15: a 40-bit stream (two one-byte segments at version 1, level
   * M, 128 data bits) gets the terminator, then nothing, and its sixth byte
   * becomes 0x0E, the four terminator bits followed by the first four bits of
   * the pad byte 0xEC.
   */
  lemma UnalignedPadding(bits: seq<bool>)
    requires |bits| == 40
    ensures |AlignedAsWritten(Terminated(bits, 128))| == 44
    ensures PaddedAsWritten(bits, 128)[40..48] == ByteBits(0x0E)
  {
    var t := Terminated(bits, 128);
    assert t == bits + Zeros(TERMINATOR_BITS);
    var c := PadFill(84);
    assert PaddedAsWritten(bits, 128) == t + c;
    PadFillFront(84);
    SpanAcross(t, c, 40, 4);
    assert t[40..] == Zeros(4);
    ByteAfterZeros();
  }

  /** A pad fill of at least 16 bits opens with the pad word. */
  lemma PadFillFront(n: int)
    requires n >= 16
    ensures PadFill(n)[..16] == PAD_PATTERN
  {
  }

  /** The tail of a from i, then the first n of c, in a + c. */
  lemma SpanAcross<T>(a: seq<T>, c: seq<T>, i: nat, n: nat)
    requires i <= |a| && n <= |c|
    ensures (a + c)[i..|a| + n] == a[i..] + c[..n]
  {
  }

  lemma ByteAfterZeros()
    ensures ByteBits(0x0E) == Zeros(4) + PAD_PATTERN[..4]
  {
    assert ByteBits(0x0E) == LowBits(0x0E, 8);
    assert LowBits(0x0E, 8) == [false, false, false, false, true, true, true, false];
  }

  /** The same stream padded with the alignment tested modulo 8: a zero sixth byte, then 0xEC. */
  lemma AlignedPadding(bits: seq<bool>)
    requires |bits| == 40
    ensures |Aligned(Terminated(bits, 128))| == 48
    ensures Padded(bits, 128)[40..48] == ByteBits(0)
    ensures Padded(bits, 128)[48..56] == ByteBits(0xEC)
  {
    var t := Terminated(bits, 128);
    assert t == bits + Zeros(TERMINATOR_BITS);
    var a := Aligned(t);
    assert a == t + Zeros(4);
    assert a[40..] == Zeros(8);
    var c := PadFill(80);
    assert Padded(bits, 128) == a + c;
    AlignedBytes(a, c);
    PadFillFront(80);
    PadHigh();
    LowBitsZero(BYTE_BITS);
  }

  /** Bytes 5 and 6 of 48 aligned bits whose last eight are zero, then a fill. */
  lemma AlignedBytes(a: seq<bool>, c: seq<bool>)
    requires |a| == 48 && |c| >= 16 && a[40..] == Zeros(8)
    ensures (a + c)[40..48] == Zeros(8) && (a + c)[48..56] == c[..16][..8]
  {
    assert (a + c)[40..48] == a[40..];
  }

  /** The padding loop: `append(0xEC11, min(i, 16), 16)` while bits remain. */
  method AppendPadding(buffer: BitBuffer, dataBits: int)
    requires buffer.Valid()
    modifies buffer
    ensures buffer.Valid()
    ensures buffer.Bits() == old(buffer.Bits()) + PadFill(dataBits - |old(buffer.Bits())|)
  {
    ghost var target := buffer.Bits() + PadFill(dataBits - |buffer.Bits()|);
    var i := dataBits - buffer.GetLength();
    while i > 0
      invariant buffer.Valid()
      invariant buffer.Bits() + PadFill(i) == target
      decreases i
    {
      PadTurn(buffer, i, target);
      i := i - PAD_BITS;
    }
  }

  /** One turn of the padding loop: the pad word, cut to the i bits still missing when fewer than 16. */
  method PadTurn(buffer: BitBuffer, i: int, ghost target: seq<bool>)
    requires buffer.Valid() && i > 0 && buffer.Bits() + PadFill(i) == target
    modifies buffer
    ensures buffer.Valid() && buffer.Bits() + PadFill(i - PAD_BITS) == target
  {
    var n := if i < PAD_BITS then i else PAD_BITS;
    ghost var b0 := buffer.Bits();
    PadPatternBytes();
    buffer.Append(PAD_WORD, n, Some(PAD_BITS));
    assert buffer.Bits() == b0 + PAD_PATTERN[..n];
    PadFillStep(i, n);
    Assoc(b0, PAD_PATTERN[..n], PadFill(i - PAD_BITS));
  }

  /** The first n bits of the pad word, then the rest of the fill. */
  lemma PadFillStep(i: int, n: int)
    requires i > 0 && n == if i < PAD_BITS then i else PAD_BITS
    ensures PadFill(i) == PAD_PATTERN[..n] + PadFill(i - PAD_BITS)
  {
  }

  /** Appending four zero bits appends the terminator. */
  lemma TerminatorBits()
    ensures AppendedBits(0, TERMINATOR_BITS as int, None) == Zeros(TERMINATOR_BITS)
  {
    AppendedWord(0, TERMINATOR_BITS);
    LowBitsZero(TERMINATOR_BITS);
  }

  lemma ZeroBits(n: int)
    requires 0 < n <= 32
    ensures AppendedBits(0, n, None) == ZeroFill(n)
  {
    AppendedWord(0, n);
    LowBitsZero(n);
  }

  /** Adds the terminator when four bits remain below the capacity. */
  method AppendTerminator(buffer: BitBuffer, dataBits: int)
    requires buffer.Valid()
    modifies buffer
    ensures buffer.Valid()
    ensures buffer.Bits() == Terminated(old(buffer.Bits()), dataBits)
  {
    if buffer.GetLength() + 4 <= dataBits {
      buffer.Append(0, TERMINATOR_BITS, None);
      TerminatorBits();
    }
  }

  /** The alignment step as written: `if (len & 0x0f) append(0, 8 - (len & 0x0f))`. */
  method AlignAsWritten(buffer: BitBuffer)
    requires buffer.Valid()
    modifies buffer
    ensures buffer.Valid()
    ensures buffer.Bits() == AlignedAsWritten(old(buffer.Bits()))
  {
    var len := buffer.GetLength();
    if len % 16 != 0 {
      var n := 8 - len % 16;
      buffer.Append(0, n, None);
      if n > 0 {
        ZeroBits(n);
      }
    }
  }

  /** The alignment step tested modulo 8. */
  method Align(buffer: BitBuffer)
    requires buffer.Valid()
    modifies buffer
    ensures buffer.Valid()
    ensures buffer.Bits() == Aligned(old(buffer.Bits()))
  {
    var len := buffer.GetLength();
    if len % 8 != 0 {
      var n := 8 - len % 8;
      buffer.Append(0, n, None);
      ZeroBits(n);
    }
  }

  /** The terminator and padding of `__encodeSymbol` as written, with the `& 0x0f` alignment test. */
  method PadAsWritten(buffer: BitBuffer, dataBits: int)
    requires buffer.Valid()
    modifies buffer
    ensures buffer.Valid()
    ensures buffer.Bits() == PaddedAsWritten(old(buffer.Bits()), dataBits)
  {
    AppendTerminator(buffer, dataBits);
    AlignAsWritten(buffer);
    AppendPadding(buffer, dataBits);
  }

  /** The terminator and padding with the byte alignment tested modulo 8. */
  method Pad(buffer: BitBuffer, dataBits: int)
    requires buffer.Valid()
    modifies buffer
    ensures buffer.Valid()
    ensures buffer.Bits() == Padded(old(buffer.Bits()), dataBits)
  {
    AppendTerminator(buffer, dataBits);
    Align(buffer);
    AppendPadding(buffer, dataBits);
  }
}
