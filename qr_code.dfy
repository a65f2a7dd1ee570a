/**
 * The `qrcode.QRCode` object: the segments added so far, the error
 * correction level, and the symbol encoded from them on demand. Adding a
 * segment, clearing the segments or changing the level throws the symbol
 * away; asking for its size encodes it again.
 */
module QrCodes {
  import opened Bits
  import opened Wrappers
  import opened BitBuffers
  import opened Segments
  import opened CodeTables
  import opened DataCodewords
  import opened Gf256
  import opened Blocks
  import opened Matrix
  import opened Encoder
  import Placement
  import Capacity

  /** The level names of the `ecLevel` property. */
  predicate IsLevel(level: char) {
    level == 'L' || level == 'M' || level == 'Q' || level == 'H'
  }

  /**
   * `_applyEcLevel`: the encoder's level index of a level, which is also the
   * value of the level's two format bits (section 7.9.1 of ISO/IEC
   * 18004:2015): L is 1, M is 0, Q is 3 and H is 2.
   */
  function LevelIndex(level: char): (ec: nat)
    requires IsLevel(level)
    ensures ec < 4
  {
    match level
    case 'L' => 1
    case 'M' => 0
    case 'Q' => 3
    case _ => 2
  }

  /** Each level has its own index, so the four levels use the four indices. */
  lemma LevelIndexInjective(a: char, b: char)
    requires IsLevel(a) && IsLevel(b) && a != b
    ensures LevelIndex(a) != LevelIndex(b)
  {
  }

  /** The result of an operation that can raise an error. */
  datatype Outcome = Done | Error(message: string)

  const TOO_LONG: string := "The input data is too long to fit a single QR code symbol"
  const TOO_MANY: string := "Internal error: too many data for a single QR code symbol."

  /** The version search picks v: v holds the segments and no smaller version does. */
  ghost predicate LeastVersion(segs: seq<SegmentValue>, ec: nat, v: nat)
    requires ValidSegments(segs) && ec < 4
  {
    && 1 <= v <= MAX_VERSION && Fits(segs, ec, v)
    && forall u :: 1 <= u < v ==> !Fits(segs, ec, u)
  }

  /** Two bit patterns of n bits are the bits of the same number below 2^n. */
  lemma {:induction false} LowBitsInjective(a: nat, b: nat, n: nat)
    requires a < Pow2(n) && b < Pow2(n) && LowBits(a, n) == LowBits(b, n)
    ensures a == b
  {
    if n > 0 {
      assert LowBits(a, n)[..n - 1] == LowBits(a / 2, n - 1);
      assert LowBits(b, n)[..n - 1] == LowBits(b / 2, n - 1);
      assert LowBits(a, n)[n - 1] == (a % 2 == 1);
      assert LowBits(b, n)[n - 1] == (b % 2 == 1);
      LowBitsInjective(a / 2, b / 2, n - 1);
    }
  }

  /** A byte string is determined by its bits, so the data codewords are determined by the padded stream. */
  lemma {:induction false} BytesBitsInjective(s: seq<Byte>, t: seq<Byte>)
    requires BytesBits(s) == BytesBits(t)
    ensures s == t
    decreases |s|
  {
    assert |s| == |t|;
    if s != [] {
      var n := |s| - 1;
      BytesBitsLast(s, n);
      BytesBitsLast(t, n);
      ConcatInjective(BytesBits(s[..n]), ByteBits(s[n]), BytesBits(t[..n]), ByteBits(t[n]));
      BytesBitsInjective(s[..n], t[..n]);
      ByteBitsInjective(s[n], t[n]);
      SameLast(s, t, n);
    }
  }

  /** The bits of a byte string: those of all but its last byte, then those of its last byte. */
  lemma BytesBitsLast(s: seq<Byte>, n: nat)
    requires n + 1 == |s|
    ensures BytesBits(s) == BytesBits(s[..n]) + ByteBits(s[n])
  {
  }

  /** Equal concatenations whose first parts have the same length have equal parts. */
  lemma ConcatInjective(a: seq<bool>, b: seq<bool>, c: seq<bool>, d: seq<bool>)
    requires a + b == c + d && |a| == |c|
    ensures a == c && b == d
  {
    assert a == (a + b)[..|a|] && c == (c + d)[..|c|];
    assert b == (a + b)[|a|..] && d == (c + d)[|c|..];
  }

  /** A byte is determined by its eight bits. */
  lemma ByteBitsInjective(a: Byte, b: Byte)
    requires ByteBits(a) == ByteBits(b)
    ensures a == b
  {
    assert Pow2(BYTE_BITS) == 256;
    LowBitsInjective(a, b, BYTE_BITS);
  }

  /** Two strings of the same length that agree before position n and at n, the last, are equal. */
  lemma SameLast(s: seq<Byte>, t: seq<Byte>, n: nat)
    requires n + 1 == |s| == |t| && s[..n] == t[..n] && s[n] == t[n]
    ensures s == t
  {
    assert s == s[..n] + [s[n]] && t == t[..n] + [t[n]];
  }

  /** The mode and payload of each segment object. */
  ghost function ValuesOf(segs: seq<Segment>): (vs: seq<SegmentValue>)
    reads segs
    requires forall k :: 0 <= k < |segs| ==> segs[k].Valid()
    ensures |vs| == |segs| && ValidSegments(vs)
    ensures forall k :: 0 <= k < |segs| ==> vs[k] == SegmentValue(segs[k].mode, segs[k].data)
  {
    seq(|segs|, k reads segs requires 0 <= k < |segs| && segs[k].Valid() => SegmentValue(segs[k].mode, segs[k].data))
  }

  /**
   * The codewords of an encoding: the least version that holds the
   * segments, the data codewords of the padded bit stream, and the message
   * of interleaved data and error correction codewords.
   */
  ghost predicate EncodedAs(vs: seq<SegmentValue>, ec: nat, version: nat, codewords: seq<Byte>, message: seq<Byte>)
    requires ValidSegments(vs) && ec < 4
  {
    && LeastVersion(vs, ec, version)
    && var p := Props(ec, version);
    && |codewords| == p.dataBytes
    && BytesBits(codewords) == PaddedAsWritten(StreamBits(vs, version), 8 * p.dataBytes)
    && p.blocks >= 1 && p.ecBytes >= 1
    && message == Interleaved(codewords, p.blocks, p.ecBytes)
  }

  /** The segments of `new QRCode("a")` followed by `addSegment("b")`: two one-byte segments. */
  const TWO_LETTERS: seq<SegmentValue> := [SegmentValue(BYTE, [0x61]), SegmentValue(BYTE, [0x62])]

  /** The constructor and `addSegment` classify "a" and "b" as byte mode, and version 1 holds their 40 bits at every level. */
  lemma TwoLettersFit(ec: nat)
    requires ec < 4
    ensures [SegmentValue(ModeOf([0x61]), Payload([0x61])), SegmentValue(ModeOf([0x62]), Payload([0x62]))] == TWO_LETTERS
    ensures ValidSegments(TWO_LETTERS) && StreamLength(TWO_LETTERS, 1) == 40 && LeastVersion(TWO_LETTERS, ec, 1)
  {
    assert Payload([0x61]) == [0x61] && Payload([0x62]) == [0x62];
    assert ModeOf([0x61]) == BYTE && ModeOf([0x62]) == BYTE;
    assert ValidSegments(TWO_LETTERS);
    assert CharCountBits(1, BYTE) == 8;
    var a := [SegmentValue(BYTE, [0x61])];
    assert a[..0] == [];
    assert StreamLength(a, 1) == 20;
    assert TWO_LETTERS[..1] == a;
    PropsOk(ec, 1);
    assert Fits(TWO_LETTERS, ec, 1);
  }

  /**
   * As written, the sixth data codeword of "a" and "b" at level M is 0x0E:
   * the 44 bits of the stream and the terminator are not aligned, so the
   * pad word starts four bits into that byte. Aligned, it would be 0x00.
   */
  lemma TwoLettersAsWritten(codewords: seq<Byte>, message: seq<Byte>)
    requires ValidSegments(TWO_LETTERS) && EncodedAs(TWO_LETTERS, 0, 1, codewords, message)
    ensures codewords[5] == 0x0E
  {
    TwoLettersFit(0);
    var bits := StreamBits(TWO_LETTERS, 1);
    StreamBitsLength(TWO_LETTERS, 1);
    UnalignedPadding(bits);
    ByteAt(codewords, 5, 0x0E);
  }

  /** Byte i of a byte string is the byte whose bits are bits 8i to 8i + 7. */
  lemma ByteAt(s: seq<Byte>, i: nat, b: Byte)
    requires i < |s| && BytesBits(s)[8 * i..8 * i + 8] == ByteBits(b)
    ensures s[i] == b
  {
    forall k | 0 <= k < 8
      ensures ByteBits(s[i])[k] == ByteBits(b)[k]
    {
      Placement.BytesBitsAt(s, i, k);
      assert BytesBits(s)[8 * i + k] == BytesBits(s)[8 * i..8 * i + 8][k];
    }
    ByteBitsInjective(s[i], b);
  }

  /**
   * The outcome of `__encodeSymbol` once the version is found: the codewords
   * and the message of the segments vs at level ec, and, exactly when the
   * message fits the free cells (ok), the finished symbol sym of the best
   * mask.
   */
  ghost predicate Encodes(vs: seq<SegmentValue>, ec: nat, version: nat, codewords: seq<Byte>, message: seq<Byte>, sym: array2?<Cell>, ok: bool)
    reads sym
  {
    && ValidSegments(vs) && ec < 4
    && EncodedAs(vs, ec, version, codewords, message)
    && (ok <==> MessageFits(version, message))
    && (ok ==> sym != null && Finished(sym, version, ec, message, FirstMinimum(MaskScores(version, message))))
  }

  /**
   * `Encodes` under `layers` trivial layers of recursion. A fact stated as
   * `Sealed(2, ...)` is not unfolded where it is only carried along (the
   * object's state changes), which keeps those proofs small;
   * `SealedEncodes` opens it.
   */
  ghost predicate Sealed(layers: nat, vs: seq<SegmentValue>, ec: nat, version: nat, codewords: seq<Byte>, message: seq<Byte>, sym: array2?<Cell>, ok: bool)
    reads sym
  {
    if layers == 0 then Encodes(vs, ec, version, codewords, message, sym, ok)
    else Sealed(layers - 1, vs, ec, version, codewords, message, sym, ok)
  }

  lemma SealedEncodes(vs: seq<SegmentValue>, ec: nat, version: nat, codewords: seq<Byte>, message: seq<Byte>, sym: array2?<Cell>, ok: bool)
    ensures Sealed(2, vs, ec, version, codewords, message, sym, ok) <==> Encodes(vs, ec, version, codewords, message, sym, ok)
  {
    assert Sealed(1, vs, ec, version, codewords, message, sym, ok) == Sealed(0, vs, ec, version, codewords, message, sym, ok);
  }

  /**
   * At version 1 the message has a free cell for each of its bits, so
   * `__encodeSymbol` never raises its internal error there.
   */
  lemma VersionOneFits(vs: seq<SegmentValue>, ec: nat, codewords: seq<Byte>, message: seq<Byte>)
    requires ValidSegments(vs) && ec < 4 && EncodedAs(vs, ec, 1, codewords, message)
    ensures MessageFits(1, message)
  {
    PropsOk(ec, 1);
    Capacity.VersionOneRoom();
  }

  class QRCode {
    /** `__segments`. */
    var segments: seq<Segment>
    /** The `ecLevel` property. */
    var level: char
    /** `__ecLevel`: the level index of the property. */
    var ecLevel: nat
    /** `__symbol`: the encoded symbol, or null once it has been thrown away. */
    var symbol: array2?<Cell>
    var symbolVersion: nat
    var symbolSize: int
    /** The logarithm and anti-logarithm tables of GF(256). */
    var tables: Tables
    /** The data codewords and the final message of the last encoding. */
    ghost var codewords: seq<Byte>
    ghost var message: seq<Byte>
    /** The segment values the last encoding read. */
    ghost var encodedFrom: seq<SegmentValue>

    ghost predicate Valid()
      reads this`segments, this`level, this`ecLevel, this`tables, segments
    {
      && (forall k :: 0 <= k < |segments| ==> segments[k].Valid())
      && IsLevel(level) && ecLevel == LevelIndex(level)
      && ValidTables(tables)
    }

    /**
     * The symbol is encoded from the segments at the level. The encoding is
     * stated as `Sealed(2, ...)`, which `SealedEncodes` equates with
     * `Encodes`, so that the methods that only carry this fact across
     * changes to other fields do not unfold the whole encoding.
     */
    ghost predicate Encoded()
      reads this, segments, symbol
      requires Valid()
    {
      && symbol != null && encodedFrom == ValuesOf(segments) && symbolSize == SymbolSize(symbolVersion)
      && Sealed(2, encodedFrom, ecLevel, symbolVersion, codewords, message, symbol, true)
    }

    /**
     * The cache of `__symbol`: a symbol that has not been thrown away is the
     * encoding of the current segments at the current level.
     */
    ghost predicate Cached()
      reads this, segments, symbol
      requires Valid()
    {
      symbol != null ==> Encoded()
    }

    /**
     * `construct(str, ecLevel)`: a segment for a non-empty string, the level
     * (M when none is given), and the field tables.
     */
    constructor(str: seq<CodeUnit>, lvl: Option<char>)
      requires lvl.Some? ==> IsLevel(lvl.value)
      ensures Valid() && Cached() && symbol == null
      ensures level == (if lvl.Some? then lvl.value else 'M')
      ensures |segments| == (if str == [] then 0 else 1)
      ensures str != [] ==> ValuesOf(segments) == [SegmentValue(ModeOf(str), Payload(str))]
    {
      var l := if lvl.Some? then lvl.value else 'M';
      var t := BuildTables();
      if str != [] {
        var s := new Segment(str);
        segments := [s];
      } else {
        segments := [];
      }
      level, ecLevel, symbol, tables := l, LevelIndex(l), null, t;
    }

    /** `addSegment`: one more segment, and the symbol is thrown away. */
    method AddSegment(str: seq<CodeUnit>)
      requires Valid()
      modifies this
      ensures Valid() && Cached() && symbol == null
      ensures level == old(level) && |segments| == |old(segments)| + 1
      ensures ValuesOf(segments) == old(ValuesOf(segments)) + [SegmentValue(ModeOf(str), Payload(str))]
    {
      var s := new Segment(str);
      segments := segments + [s];
      symbol := null;
      assert ValuesOf(segments)[..|segments| - 1] == old(ValuesOf(segments));
    }

    /** `clear`: no segments, and the symbol is thrown away. */
    method Clear()
      requires Valid()
      modifies this
      ensures Valid() && Cached() && symbol == null && segments == [] && level == old(level)
    {
      segments := [];
      symbol := null;
    }

    /**
     * Setting the `ecLevel` property: a name other than L, M, Q or H fails
     * the property check and changes nothing; a new level is applied and
     * throws the symbol away; the current level changes nothing.
     */
    method SetEcLevel(lvl: char) returns (r: Outcome)
      requires Valid() && Cached()
      modifies this
      ensures Valid() && Cached() && segments == old(segments)
      ensures r.Done? <==> IsLevel(lvl)
      ensures r.Done? ==> level == lvl
      ensures r.Done? && lvl != old(level) ==> symbol == null
      ensures (r.Error? || lvl == old(level)) ==> unchanged(this)
    {
      if !IsLevel(lvl) {
        return Error("Invalid value for property ecLevel");
      }
      if lvl != level {
        level, ecLevel, symbol := lvl, LevelIndex(lvl), null;
      }
      r := Done;
    }

    /**
     * The version search of `__encodeSymbol`: the least version whose data
     * capacity holds the segments, or none.
     */
    method FindVersion() returns (ver: nat, found: bool)
      requires Valid()
      modifies segments
      ensures Valid() && ValuesOf(segments) == old(ValuesOf(segments))
      ensures found <==> exists v :: 1 <= v <= MAX_VERSION && Fits(ValuesOf(segments), ecLevel, v)
      ensures found ==> LeastVersion(ValuesOf(segments), ecLevel, ver)
      ensures found ==> forall k :: 0 <= k < |segments| ==> segments[k].charCountBits == CharCountBits(ver, segments[k].mode)
    {
      ghost var vs := ValuesOf(segments);
      ver := 1;
      while ver <= MAX_VERSION
        invariant 1 <= ver <= MAX_VERSION + 1
        invariant Valid() && ValuesOf(segments) == vs
        invariant forall u :: 1 <= u < ver ==> !Fits(vs, ecLevel, u)
      {
        var fits := TryVersion(ver);
        if fits {
          return ver, true;
        }
        ver := ver + 1;
      }
      found := false;
    }

    /** One version of the search: the segments take its widths, and their length is held against its data capacity. */
    method TryVersion(ver: nat) returns (fits: bool)
      requires Valid() && 1 <= ver <= MAX_VERSION
      modifies segments
      ensures Valid() && ValuesOf(segments) == old(ValuesOf(segments))
      ensures fits == Fits(ValuesOf(segments), ecLevel, ver)
      ensures forall k :: 0 <= k < |segments| ==> segments[k].charCountBits == CharCountBits(ver, segments[k].mode)
    {
      var len := SegmentsLength(segments, ver);
      var dataBits := 8 * Props(ecLevel, ver).dataBytes;
      fits := len <= dataBits;
    }

    /**
     * `__encodeSymbol`: the least version, the data codewords, the message
     * with its error correction codewords, and the symbol of the best mask.
     * It fails when no version holds the segments, and with the internal
     * error when placement runs out of free cells.
     */
    method EncodeSymbol() returns (r: Outcome)
      requires Valid()
      modifies this, segments
      ensures Valid() && segments == old(segments) && ValuesOf(segments) == old(ValuesOf(segments)) && level == old(level)
      ensures r.Done? ==> fresh(symbol) && Encoded()
      ensures r == Error(TOO_LONG) <==> forall v :: 1 <= v <= MAX_VERSION ==> !Fits(ValuesOf(segments), ecLevel, v)
      ensures Fits(ValuesOf(segments), ecLevel, 1) ==> r.Done?
      ensures r.Error? ==> symbol == old(symbol) && (r.message == TOO_LONG || r.message == TOO_MANY)
    {
      var ver, found := FindVersion();
      if !found {
        return Error(TOO_LONG);
      }
      r := EncodeAt(ver);
    }

    /**
     * `__encodeSymbol` once the version is found: the data codewords, the
     * message, and the symbol of the best mask, or the internal error when
     * the message does not fit the free cells.
     */
    method EncodeAt(ver: nat) returns (r: Outcome)
      requires Valid() && LeastVersion(ValuesOf(segments), ecLevel, ver)
      requires forall k :: 0 <= k < |segments| ==> segments[k].charCountBits == CharCountBits(ver, segments[k].mode)
      modifies this`symbol, this`symbolVersion, this`symbolSize, this`codewords, this`message, this`encodedFrom
      ensures symbolVersion == ver && symbolSize == SymbolSize(ver)
      ensures r.Done? ==> fresh(symbol) && Encoded()
      ensures r.Error? ==> r == Error(TOO_MANY) && symbol == old(symbol)
      ensures ver == 1 ==> r.Done?
    {
      ghost var vs := ValuesOf(segments);
      var sym, ok, data, msg := Encode(segments, vs, ecLevel, tables, ver);
      r := Store(ver, sym, ok, vs, data, msg);
    }

    /** The fields `__encodeSymbol` sets from one encoding: the version, the size and, when it fits, the symbol. */
    method Store(ver: nat, sym: array2?<Cell>, ok: bool, ghost vs: seq<SegmentValue>, ghost data: seq<Byte>, ghost msg: seq<Byte>) returns (r: Outcome)
      requires Valid() && vs == ValuesOf(segments) && (ok ==> sym != null)
      requires Sealed(2, vs, ecLevel, ver, data, msg, sym, ok)
      modifies this`symbol, this`symbolVersion, this`symbolSize, this`codewords, this`message, this`encodedFrom
      ensures symbolVersion == ver && symbolSize == SymbolSize(ver)
      ensures r.Done? == ok && (r.Done? ==> symbol == sym && Encoded())
      ensures r.Error? ==> r == Error(TOO_MANY) && symbol == old(symbol)
    {
      symbolVersion, symbolSize, codewords, message, encodedFrom := ver, 17 + 4 * ver, data, msg, vs;
      if !ok {
        return Error(TOO_MANY);
      }
      symbol := sym;
      r := Done;
    }

    /** `getSymbolSize`: the size of the symbol, encoding it first when it was thrown away. */
    method GetSymbolSize() returns (r: Result<int>)
      requires Valid() && Cached()
      modifies this, segments
      ensures Valid() && Cached() && segments == old(segments) && ValuesOf(segments) == old(ValuesOf(segments)) && level == old(level)
      ensures old(symbol) != null ==> r == Success(old(symbolSize)) && unchanged(this) && unchanged(segments)
      ensures r.Success? ==> Encoded() && r.value == SymbolSize(symbolVersion)
      ensures r.Failure? ==> old(symbol) == null && symbol == null
      ensures r == Failure(TOO_LONG) <==> forall v :: 1 <= v <= MAX_VERSION ==> !Fits(ValuesOf(segments), ecLevel, v)
      ensures r.Failure? ==> (r.error == TOO_LONG || r.error == TOO_MANY) && !Fits(ValuesOf(segments), ecLevel, 1)
    {
      if symbol == null {
        var e := EncodeSymbol();
        if e.Error? {
          return Failure(e.message);
        }
      } else {
        SealedEncodes(encodedFrom, ecLevel, symbolVersion, codewords, message, symbol, true);
      }
      r := Success(symbolSize);
    }

    /** `getImageSize`: the symbol with a four-module margin on each side, at scale pixels per module (2 for 0). */
    method GetImageSize(scale: int) returns (r: Result<int>)
      requires Valid() && Cached()
      modifies this, segments
      ensures Valid() && Cached() && segments == old(segments) && ValuesOf(segments) == old(ValuesOf(segments)) && level == old(level)
      ensures old(symbol) != null ==> r == Success(ImageSize(scale, old(symbolSize))) && unchanged(this) && unchanged(segments)
      ensures r.Success? ==> Encoded() && r.value == ImageSize(scale, SymbolSize(symbolVersion))
      ensures r.Failure? ==> old(symbol) == null && symbol == null
      ensures r == Failure(TOO_LONG) <==> forall v :: 1 <= v <= MAX_VERSION ==> !Fits(ValuesOf(segments), ecLevel, v)
      ensures r.Failure? ==> (r.error == TOO_LONG || r.error == TOO_MANY) && !Fits(ValuesOf(segments), ecLevel, 1)
    {
      var size := GetSymbolSize();
      if size.Failure? {
        return Failure(size.error);
      }
      r := Success(ImageSize(scale, size.value));
    }
  }

  /**
   * One pass of the version search: every segment takes the character
   * count widths of the version, and the sum of their bit stream lengths.
   */
  method SegmentsLength(segs: seq<Segment>, ver: nat) returns (len: int)
    requires forall k :: 0 <= k < |segs| ==> segs[k].Valid()
    modifies segs
    ensures forall k :: 0 <= k < |segs| ==> segs[k].Valid()
    ensures ValuesOf(segs) == old(ValuesOf(segs))
    ensures len == StreamLength(ValuesOf(segs), ver)
    ensures forall k :: 0 <= k < |segs| ==> segs[k].charCountBits == CharCountBits(ver, segs[k].mode)
  {
    ghost var vs := ValuesOf(segs);
    len := 0;
    var i := 0;
    while i < |segs|
      invariant Measured(segs, vs, ver, i)
      invariant len == StreamLength(vs[..i], ver)
    {
      var l := MeasureAt(segs, vs, ver, i);
      StreamLengthStep(vs, i, ver, len, len + l);
      len := len + l;
      i := i + 1;
    }
    assert vs[..i] == vs;
    assert ValuesOf(segs) == vs;
  }

  /** The segments still hold the values vs, and the first i have the widths of the version. */
  ghost predicate Measured(segs: seq<Segment>, vs: seq<SegmentValue>, ver: nat, i: nat)
    reads segs
  {
    && |vs| == |segs| && i <= |segs| && ValidSegments(vs)
    && forall k :: 0 <= k < |segs| ==>
         && segs[k].Valid() && segs[k].mode == vs[k].mode && segs[k].data == vs[k].data
         && (k < i ==> segs[k].charCountBits == CharCountBits(ver, vs[k].mode))
  }

  /** The body of the version search's inner loop: `setVersion(ver)`, then `getBitStreamLength()`. */
  method MeasureAt(segs: seq<Segment>, ghost vs: seq<SegmentValue>, ver: nat, i: nat) returns (l: int)
    requires i < |segs| && Measured(segs, vs, ver, i)
    modifies segs[i]
    ensures Measured(segs, vs, ver, i + 1)
    ensures l == BitStreamLength(vs[i].mode, |vs[i].data|, CharCountBits(ver, vs[i].mode))
  {
    var s := segs[i];
    s.SetVersion(ver);
    l := s.GetBitStreamLength(None);
  }

  /** One more segment adds its bit stream length to the sum over the segments before it. */
  lemma StreamLengthStep(vs: seq<SegmentValue>, i: nat, ver: int, before: int, after: int)
    requires ValidSegments(vs) && i < |vs|
    requires before == StreamLength(vs[..i], ver)
    requires after == before + BitStreamLength(vs[i].mode, |vs[i].data|, CharCountBits(ver, vs[i].mode))
    ensures after == StreamLength(vs[..i + 1], ver)
  {
    TakeSnoc(vs, i);
    StreamSnoc(vs[..i + 1], vs[..i], vs[i], ver);
  }

  /** One more segment's encoding extends the bit stream of the segments before it. */
  lemma StreamBitsStep(vs: seq<SegmentValue>, i: nat, ver: int, before: seq<bool>, after: seq<bool>,
                       mode: int, data: seq<Byte>, ccb: int)
    requires ValidSegments(vs) && i < |vs| && vs[i] == SegmentValue(mode, data) && ccb == CharCountBits(ver, mode)
    requires before == StreamBits(vs[..i], ver) && after == before + SegmentBits(mode, data, ccb)
    ensures after == StreamBits(vs[..i + 1], ver)
  {
    TakeSnoc(vs, i);
    StreamSnoc(vs[..i + 1], vs[..i], vs[i], ver);
  }

  /** The first i + 1 elements are the first i, then element i. */
  lemma TakeSnoc<T>(s: seq<T>, i: nat)
    requires i < |s|
    ensures s[..i + 1] == s[..i] + [s[i]]
  {
  }

  /** One segment more: the stream and its length grow by that segment's bits. */
  lemma StreamSnoc(w: seq<SegmentValue>, u: seq<SegmentValue>, s: SegmentValue, ver: int)
    requires ValidSegments(w) && w == u + [s]
    ensures ValidSegments(u) && FitsMode(s.mode, s.data)
    ensures StreamBits(w, ver) == StreamBits(u, ver) + SegmentBits(s.mode, s.data, CharCountBits(ver, s.mode))
    ensures StreamLength(w, ver) == StreamLength(u, ver) + BitStreamLength(s.mode, |s.data|, CharCountBits(ver, s.mode))
  {
    assert w[..|w| - 1] == u && w[|w| - 1] == s;
  }

  /** A capacity of n bytes holds 8n bits, which getDataArray returns as n bytes. */
  lemma ByteCount(n: nat)
    ensures (8 * n) % 8 == 0 && (8 * n + 7) / 8 == n
  {
  }

  /**
   * The block loop of `__encodeSymbol`: the error correction codewords of
   * every block, interleaved with the data codewords into the message.
   */
  method MessageOf(t: Tables, ec: nat, ver: nat, data: seq<Byte>) returns (msg: seq<Byte>)
    requires ValidTables(t) && ec < 4 && 1 <= ver <= MAX_VERSION
    ensures Props(ec, ver).blocks >= 1 && Props(ec, ver).ecBytes >= 1
    ensures msg == Interleaved(data, Props(ec, ver).blocks, Props(ec, ver).ecBytes)
  {
    var p := Props(ec, ver);
    PropsOk(ec, ver);
    msg := AssembleMessage(t, data, p.blocks, p.ecBytes);
  }

  /** What `__encodeSymbol` computes for the version it found: the codewords, the message and the symbol. */
  method Encode(segs: seq<Segment>, ghost vs: seq<SegmentValue>, ec: nat, t: Tables, ver: nat)
    returns (sym: array2?<Cell>, ok: bool, ghost data: seq<Byte>, ghost msg: seq<Byte>)
    requires forall k :: 0 <= k < |segs| ==> segs[k].Valid()
    requires vs == ValuesOf(segs) && ec < 4 && LeastVersion(vs, ec, ver) && ValidTables(t)
    requires forall k :: 0 <= k < |segs| ==> segs[k].charCountBits == CharCountBits(ver, segs[k].mode)
    ensures ok ==> sym != null && fresh(sym)
    ensures Sealed(2, vs, ec, ver, data, msg, sym, ok)
    ensures ver == 1 ==> ok
  {
    var d, m := Codewords(segs, vs, ec, t, ver);
    data, msg := d, m;
    if ver == 1 {
      VersionOneFits(vs, ec, data, msg);
    }
    sym, ok := EncodeMatrix(ver, ec, m);
    if !ok {
      sym := null;
    }
    SealedEncodes(vs, ec, ver, data, msg, sym, ok);
  }

  /** The codewords `__encodeSymbol` computes for the version it found. */
  method Codewords(segs: seq<Segment>, ghost vs: seq<SegmentValue>, ec: nat, t: Tables, ver: nat)
    returns (data: seq<Byte>, msg: seq<Byte>)
    requires forall k :: 0 <= k < |segs| ==> segs[k].Valid()
    requires vs == ValuesOf(segs) && ec < 4 && LeastVersion(vs, ec, ver) && ValidTables(t)
    requires forall k :: 0 <= k < |segs| ==> segs[k].charCountBits == CharCountBits(ver, segs[k].mode)
    ensures EncodedAs(vs, ec, ver, data, msg)
  {
    data := DataBytes(segs, vs, ver, Props(ec, ver).dataBytes);
    msg := MessageOf(t, ec, ver, data);
  }

  /** The segments' bit streams, the terminator and the padding, as n data codewords. */
  method DataBytes(segs: seq<Segment>, ghost vs: seq<SegmentValue>, ver: nat, n: nat) returns (data: seq<Byte>)
    requires forall k :: 0 <= k < |segs| ==> segs[k].Valid()
    requires vs == ValuesOf(segs) && StreamLength(vs, ver) <= 8 * n
    requires forall k :: 0 <= k < |segs| ==> segs[k].charCountBits == CharCountBits(ver, segs[k].mode)
    ensures |data| == n && BytesBits(data) == PaddedAsWritten(StreamBits(vs, ver), 8 * n)
  {
    var buffer := new BitBuffer();
    EncodeSegments(segs, vs, ver, buffer);
    StreamBitsLength(vs, ver);
    data := PaddedBytes(buffer, n);
  }

  /** The terminator and the padding up to n bytes, then `getDataArray`. */
  method PaddedBytes(buffer: BitBuffer, n: nat) returns (data: seq<Byte>)
    requires buffer.Valid() && |buffer.Bits()| <= 8 * n
    modifies buffer
    ensures |data| == n && BytesBits(data) == PaddedAsWritten(old(buffer.Bits()), 8 * n)
  {
    ghost var bits := buffer.Bits();
    ByteCount(n);
    PadAsWritten(buffer, 8 * n);
    PaddedLength(bits, 8 * n);
    data := buffer.GetDataArray();
    WholeBytes(buffer.Bits(), data, n);
  }

  /** A bit string of n whole bytes is read back exactly from the n bytes getDataArray returns. */
  lemma WholeBytes(bits: seq<bool>, data: seq<Byte>, n: nat)
    requires |bits| == 8 * n && |data| == (|bits| + 7) / 8
    requires BytesBits(data)[..|bits|] == bits
    ensures |data| == n && BytesBits(data) == bits
  {
    ByteCount(n);
    assert |BytesBits(data)| == 8 * |data|;
  }

  /** The `encode` calls of `__encodeSymbol`: each segment's bit stream, in order. */
  method EncodeSegments(segs: seq<Segment>, ghost vs: seq<SegmentValue>, ver: nat, buffer: BitBuffer)
    requires buffer.Valid() && buffer.Bits() == [] && |vs| == |segs| && ValidSegments(vs)
    requires forall k :: 0 <= k < |segs| ==> segs[k].Valid()
    requires forall k :: 0 <= k < |segs| ==> segs[k].mode == vs[k].mode && segs[k].data == vs[k].data
    requires forall k :: 0 <= k < |segs| ==> segs[k].charCountBits == CharCountBits(ver, segs[k].mode)
    modifies buffer
    ensures buffer.Valid() && buffer.Bits() == StreamBits(vs, ver)
  {
    for i := 0 to |segs|
      invariant buffer.Valid()
      invariant buffer.Bits() == StreamBits(vs[..i], ver)
    {
      EncodeNext(segs[i], vs, i, ver, buffer);
    }
    assert vs[..|segs|] == vs;
  }

  /** Segment i of the list, appended after the bits of the segments before it. */
  method EncodeNext(s: Segment, ghost vs: seq<SegmentValue>, i: nat, ver: nat, buffer: BitBuffer)
    requires buffer.Valid() && ValidSegments(vs) && i < |vs| && s.Valid()
    requires s.mode == vs[i].mode && s.data == vs[i].data && s.charCountBits == CharCountBits(ver, s.mode)
    requires buffer.Bits() == StreamBits(vs[..i], ver)
    modifies buffer
    ensures buffer.Valid() && buffer.Bits() == StreamBits(vs[..i + 1], ver)
  {
    ghost var before := buffer.Bits();
    s.Encode(buffer);
    StreamBitsStep(vs, i, ver, before, buffer.Bits(), s.mode, s.data, s.charCountBits);
  }

  /** The image side of a symbol side in modules: the margins, then the scale, 2 when it is 0. */
  function ImageSize(scale: int, size: int): int {
    (if scale == 0 then 2 else scale) * (size + 8)
  }
}
