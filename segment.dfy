/**
 * A data segment: the classification of a string into the numeric,
 * alphanumeric or byte mode, its payload bytes, the width of its character
 * count field, and its bit stream (section 7.4 of ISO/IEC 18004:2015).
 */
module Segments {
  import opened Bits
  import opened Wrappers
  import opened BitBuffers

  /** A UTF-16 code unit, what `charCodeAt` returns. */
  type CodeUnit = x: int | 0 <= x < 0x10000

  const NUMERIC: int := 0
  const ALPHANUMERIC: int := 1
  const BYTE: int := 2

  /*
   * Field widths of the bit stream. Proofs use these names rather than
   * literals so that the solver does not unfold the bit functions.
   */
  const MODE_BITS: nat := 4
  const DIGIT3_BITS: nat := 10
  const DIGIT2_BITS: nat := 7
  const DIGIT1_BITS: nat := 4
  const PAIR_BITS: nat := 11
  const SINGLE_BITS: nat := 6

  /** `__charCountBitsMap` without its unused Kanji column: rows are version tiers, columns modes. */
  const CHAR_COUNT_BITS_MAP: seq<seq<int>> := [[10, 9, 8], [12, 11, 16], [14, 13, 16]]

  /** `__alphaNumSet`: the value of an alphanumeric character, or None for any other code. */
  function AlphaNumValue(c: int): (r: Option<nat>)
    ensures r.Some? ==> r.value < 45
  {
    if 0x30 <= c < 0x3A then Some(c - 0x30)
    else if 0x41 <= c < 0x5B then Some(c - 0x41 + 10)
    else if c == 0x20 then Some(36)
    else if c == 0x24 then Some(37)
    else if c == 0x25 then Some(38)
    else if c == 0x2A then Some(39)
    else if c == 0x2B then Some(40)
    else if c == 0x2D then Some(41)
    else if c == 0x2E then Some(42)
    else if c == 0x2F then Some(43)
    else if c == 0x3A then Some(44)
    else None
  }

  /** The character of each alphanumeric value, in the order of Table 5 of ISO/IEC 18004:2015. */
  function AlphaNumChar(v: nat): (c: int)
    requires v < 45
  {
    if v < 10 then 0x30 + v
    else if v < 36 then 0x41 + (v - 10)
    else if v == 36 then 0x20
    else if v == 37 then 0x24
    else if v == 38 then 0x25
    else if v == 39 then 0x2A
    else if v == 40 then 0x2B
    else if v == 41 then 0x2D
    else if v == 42 then 0x2E
    else if v == 43 then 0x2F
    else 0x3A
  }

  /** `__alphaNumSet` holds exactly the 45 characters of the table, each with its own value. */
  lemma AlphaNumInverse(c: int, v: nat)
    requires v < 45
    ensures AlphaNumValue(c) == Some(v) <==> AlphaNumChar(v) == c
  {
  }

  predicate IsDigit(c: int) {
    0x30 <= c <= 0x39
  }

  predicate AllDigits(s: seq<int>) {
    forall k :: 0 <= k < |s| ==> IsDigit(s[k])
  }

  predicate AllAlphaNum(s: seq<int>) {
    forall k :: 0 <= k < |s| ==> AlphaNumValue(s[k]).Some?
  }

  /** Whether some code unit is above 0xFF, which makes the constructor encode the string as UTF-8. */
  predicate HasWide(s: seq<CodeUnit>) {
    exists k :: 0 <= k < |s| && s[k] > 0xFF
  }

  /** One step of the mode scan of the constructor, for a code unit of at most 0xFF. */
  function ScanStep(mode: int, c: int): int {
    if mode == BYTE then BYTE
    else if mode == NUMERIC && IsDigit(c) then NUMERIC
    else if AlphaNumValue(c).Some? then ALPHANUMERIC
    else BYTE
  }

  /** The mode the scan reaches from `mode` over the rest `s` of the string. */
  function Scan(mode: int, s: seq<CodeUnit>): int
    decreases |s|
  {
    if s == [] then mode
    else if s[0] > 0xFF then BYTE
    else Scan(ScanStep(mode, s[0]), s[1..])
  }

  /** The mode of a segment built from the string s. */
  function ModeOf(s: seq<CodeUnit>): int {
    Scan(NUMERIC, s)
  }

  /** The scan only ever moves from numeric to alphanumeric to byte. */
  lemma ScanStepMonotone(mode: int, c: int)
    requires 0 <= mode <= 2
    ensures mode <= ScanStep(mode, c) <= 2
  {
  }

  lemma {:induction false} ScanFromByte(s: seq<CodeUnit>)
    ensures Scan(BYTE, s) == BYTE
    decreases |s|
  {
    if s != [] && s[0] <= 0xFF {
      ScanFromByte(s[1..]);
    }
  }

  /** From the alphanumeric state the scan stays there exactly when every unit is alphanumeric. */
  lemma {:induction false} ScanFromAlphaNum(s: seq<CodeUnit>)
    ensures Scan(ALPHANUMERIC, s) == ALPHANUMERIC <==> AllAlphaNum(s)
    ensures Scan(ALPHANUMERIC, s) != ALPHANUMERIC ==> Scan(ALPHANUMERIC, s) == BYTE
    decreases |s|
  {
    if s != [] {
      ScanFromAlphaNum(s[1..]);
      ScanFromByte(s[1..]);
      assert forall k :: 1 <= k < |s| ==> s[1..][k - 1] == s[k];
      if AllAlphaNum(s) {
        assert AllAlphaNum(s[1..]) by {
          forall k | 0 <= k < |s[1..]| ensures AlphaNumValue(s[1..][k]).Some? {
            assert s[1..][k] == s[k + 1];
          }
        }
      }
    }
  }

  /**
   * The mode classification: numeric when every unit is a digit, alphanumeric
   * when every unit is in the alphanumeric table and some unit is not a digit,
   * byte otherwise.
   */
  lemma {:induction false} ModeClassification(s: seq<CodeUnit>)
    ensures ModeOf(s) == NUMERIC <==> AllDigits(s)
    ensures ModeOf(s) == ALPHANUMERIC <==> AllAlphaNum(s) && !AllDigits(s)
    ensures ModeOf(s) == BYTE <==> !AllAlphaNum(s)
    decreases |s|
  {
    if s != [] {
      var t := s[1..];
      assert forall k :: 0 <= k < |t| ==> t[k] == s[k + 1];
      ModeClassification(t);
      ScanFromAlphaNum(t);
      ScanFromByte(t);
      if s[0] > 0xFF {
        assert !AllAlphaNum(s);
      } else if IsDigit(s[0]) {
        assert AllDigits(s) <==> AllDigits(t);
        assert AllAlphaNum(s) <==> AllAlphaNum(t);
      } else if AlphaNumValue(s[0]).Some? {
        assert !AllDigits(s);
        assert AllAlphaNum(s) <==> AllAlphaNum(t);
      } else {
        assert !AllAlphaNum(s);
      }
    }
  }

  /*
   * UTF-8 payload (section 3 of RFC 3629). The source builds each byte as an
   * OR of a marker with a shifted, masked field of the code point; the fields
   * never overlap the markers, so the OR is written here as an addition and
   * `c >> k & 0x3F` as `(c / 2^k) % 64`.
   */

  const REPLACEMENT: seq<Byte> := [0xEF, 0xBF, 0xBD]

  /** The supplementary code point of a surrogate pair. */
  function PairCodePoint(hi: int, lo: int): (cp: int)
    requires 0xD800 <= hi < 0xDC00 && 0xDC00 <= lo < 0xE000
    ensures 0x10000 <= cp < 0x110000
  {
    (hi % 0x400) * 0x400 + lo % 0x400 + 0x10000
  }

  /** The four bytes of a supplementary code point. */
  function FourBytes(cp: int): (r: seq<Byte>)
    requires 0x10000 <= cp < 0x110000
    ensures |r| == 4
  {
    [0xF0 + cp / 0x40000, 0x80 + (cp / 0x1000) % 64, 0x80 + (cp / 64) % 64, 0x80 + cp % 64]
  }

  /**
   * The bytes the UTF-8 loop of the constructor emits for the rest s of the
   * string, when `hi` is the high surrogate held back from the previous unit.
   */
  function Utf8Rest(hi: Option<CodeUnit>, s: seq<CodeUnit>): seq<Byte>
    requires hi.Some? ==> 0xD800 <= hi.value < 0xDC00
    decreases |s|
  {
    if s == [] then []
    else
      var c := s[0];
      if hi.Some? then
        (if 0xDC00 <= c < 0xE000 then FourBytes(PairCodePoint(hi.value, c)) else REPLACEMENT)
        + Utf8Rest(None, s[1..])
      else if c < 0x80 then [c] + Utf8Rest(None, s[1..])
      else if c < 0x800 then [0xC0 + c / 64, 0x80 + c % 64] + Utf8Rest(None, s[1..])
      else if c < 0xD800 || c >= 0xE000 then
        [0xE0 + c / 0x1000, 0x80 + (c / 64) % 64, 0x80 + c % 64] + Utf8Rest(None, s[1..])
      else if c < 0xDC00 then Utf8Rest(Some(c), s[1..])
      else REPLACEMENT + Utf8Rest(None, s[1..])
  }

  /**
   * The code points the constructor means by the rest s of the string: a
   * surrogate pair is one supplementary code point, a lone low surrogate and
   * a high surrogate not followed by a low one are U+FFFD (the unit after
   * such a high surrogate is lost), and a high surrogate at the end is
   * dropped.
   */
  function Scalars(hi: Option<CodeUnit>, s: seq<CodeUnit>): seq<int>
    requires hi.Some? ==> 0xD800 <= hi.value < 0xDC00
    decreases |s|
  {
    if s == [] then []
    else if hi.None? && 0xD800 <= s[0] < 0xDC00 then Scalars(Some(s[0]), s[1..])
    else [UnitScalar(hi, s[0])] + Scalars(None, s[1..])
  }

  /** The code point that the unit c completes, after the held-back high surrogate hi if there is one. */
  function UnitScalar(hi: Option<CodeUnit>, c: CodeUnit): (cp: int)
    requires hi.Some? ==> 0xD800 <= hi.value < 0xDC00
    requires hi.None? ==> !(0xD800 <= c < 0xDC00)
    ensures 0 <= cp < 0x110000 && !(0xD800 <= cp < 0xE000)
  {
    if hi.Some? then (if 0xDC00 <= c < 0xE000 then PairCodePoint(hi.value, c) else 0xFFFD)
    else if 0xDC00 <= c < 0xE000 then 0xFFFD
    else c
  }

  predicate IsContinuation(b: Byte) {
    b / 64 == 2
  }

  /**
   * A UTF-8 decoder after section 3 of RFC 3629: each sequence must have a
   * lead byte of its length, continuation bytes 10xxxxxx, and decode to a
   * scalar value that needs exactly that length and is not a surrogate.
   */
  function DecodeUtf8(b: seq<Byte>): Option<seq<int>>
    decreases |b|
  {
    if b == [] then Some([])
    else
      var lead: int := b[0];
      var len := if lead < 0x80 then 1 else if lead / 32 == 6 then 2 else if lead / 16 == 14 then 3
                 else if lead / 8 == 30 then 4 else 0;
      if len == 0 || |b| < len then None
      else if exists k :: 1 <= k < len && !IsContinuation(b[k]) then None
      else
        var cp :=
          if len == 1 then lead
          else if len == 2 then (lead % 32) * 64 + b[1] as int % 64
          else if len == 3 then (lead % 16) * 0x1000 + (b[1] as int % 64) * 64 + b[2] as int % 64
          else (lead % 8) * 0x40000 + (b[1] as int % 64) * 0x1000 + (b[2] as int % 64) * 64 + b[3] as int % 64;
        var least := if len == 1 then 0 else if len == 2 then 0x80 else if len == 3 then 0x800 else 0x10000;
        if cp < least || cp >= 0x110000 || 0xD800 <= cp < 0xE000 then None
        else match DecodeUtf8(b[len..])
          case None => None
          case Some(rest) => Some([cp] + rest)
  }

  /** The bytes the encoder writes for one scalar value, as one function of the code point. */
  function EncodeScalar(cp: int): (r: seq<Byte>)
    requires 0 <= cp < 0x110000 && !(0xD800 <= cp < 0xE000)
  {
    if cp < 0x80 then [cp]
    else if cp < 0x800 then [0xC0 + cp / 64, 0x80 + cp % 64]
    else if cp < 0x10000 then [0xE0 + cp / 0x1000, 0x80 + (cp / 64) % 64, 0x80 + cp % 64]
    else FourBytes(cp)
  }

  /** The decoder reads a sequence of len bytes at the front of b as cp and goes on after it. */
  lemma DecodeFront(b: seq<Byte>, len: nat, cp: int, rest: seq<Byte>)
    requires 1 <= len <= 4 && |b| >= len && rest == b[len..]
    requires len == (if b[0] < 0x80 then 1 else if b[0] / 32 == 6 then 2 else if b[0] / 16 == 14 then 3
                     else if b[0] / 8 == 30 then 4 else 0)
    requires forall k :: 1 <= k < len ==> IsContinuation(b[k])
    requires cp == (if len == 1 then b[0] as int
                    else if len == 2 then (b[0] as int % 32) * 64 + b[1] as int % 64
                    else if len == 3 then (b[0] as int % 16) * 0x1000 + (b[1] as int % 64) * 64 + b[2] as int % 64
                    else (b[0] as int % 8) * 0x40000 + (b[1] as int % 64) * 0x1000 + (b[2] as int % 64) * 64
                         + b[3] as int % 64)
    requires (if len == 1 then 0 else if len == 2 then 0x80 else if len == 3 then 0x800 else 0x10000) <= cp < 0x110000
    requires !(0xD800 <= cp < 0xE000)
    requires DecodeUtf8(rest).Some?
    ensures DecodeUtf8(b) == Some([cp] + DecodeUtf8(rest).value)
  {
  }

  /** Decoding the encoding of a scalar value in front of decodable bytes yields the value first. */
  lemma DecodeScalar(cp: int, rest: seq<Byte>)
    requires 0 <= cp < 0x110000 && !(0xD800 <= cp < 0xE000)
    requires DecodeUtf8(rest).Some?
    ensures DecodeUtf8(EncodeScalar(cp) + rest) == Some([cp] + DecodeUtf8(rest).value)
  {
    var e := EncodeScalar(cp);
    var b := e + rest;
    assert b[|e|..] == rest;
    assert forall k :: 0 <= k < |e| ==> b[k] == e[k];
    if cp < 0x80 {
      assert b[0] == cp;
      DecodeFront(b, 1, cp, rest);
    } else if cp < 0x800 {
      DecodeTwo(cp, b);
    } else if cp < 0x10000 {
      DecodeThree(cp, b);
    } else {
      DecodeFour(cp, b);
    }
  }

  lemma DecodeTwo(cp: int, b: seq<Byte>)
    requires 0x80 <= cp < 0x800 && |b| >= 2
    requires b[0] == 0xC0 + cp / 64 && b[1] == 0x80 + cp % 64
    requires DecodeUtf8(b[2..]).Some?
    ensures DecodeUtf8(b) == Some([cp] + DecodeUtf8(b[2..]).value)
  {
    DecodeFront(b, 2, cp, b[2..]);
  }

  /** The fields of the three bytes of a code point in the Basic Multilingual Plane. */
  lemma ThreeFields(cp: int, a: int, m: int, l: int)
    requires 0x800 <= cp < 0x10000
    requires a == cp / 0x1000 && m == (cp / 64) % 64 && l == cp % 64
    ensures (0xE0 + a) / 32 == 7 && (0xE0 + a) / 16 == 14 && (0xE0 + a) % 16 == a
    ensures (0x80 + m) / 64 == 2 && (0x80 + m) % 64 == m && (0x80 + l) / 64 == 2 && (0x80 + l) % 64 == l
    ensures cp == a * 0x1000 + m * 64 + l
  {
    var u := cp / 64;
    assert cp == u * 64 + l;
    assert u == a * 64 + m;
  }

  lemma DecodeThree(cp: int, b: seq<Byte>)
    requires 0x800 <= cp < 0x10000 && !(0xD800 <= cp < 0xE000) && |b| >= 3
    requires b[0] == 0xE0 + cp / 0x1000 && b[1] == 0x80 + (cp / 64) % 64 && b[2] == 0x80 + cp % 64
    requires DecodeUtf8(b[3..]).Some?
    ensures DecodeUtf8(b) == Some([cp] + DecodeUtf8(b[3..]).value)
  {
    var a, m, l := cp / 0x1000, (cp / 64) % 64, cp % 64;
    ThreeFields(cp, a, m, l);
    assert b[0] as int % 16 == a && b[1] as int % 64 == m && b[2] as int % 64 == l;
    assert IsContinuation(b[1]) && IsContinuation(b[2]);
    DecodeFront(b, 3, cp, b[3..]);
  }

  /** The fields of the four bytes of a supplementary code point. */
  lemma FourFields(cp: int, a: int, h: int, m: int, l: int)
    requires 0x10000 <= cp < 0x110000
    requires a == cp / 0x40000 && h == (cp / 0x1000) % 64 && m == (cp / 64) % 64 && l == cp % 64
    ensures (0xF0 + a) / 32 == 7 && (0xF0 + a) / 16 == 15 && (0xF0 + a) / 8 == 30 && (0xF0 + a) % 8 == a
    ensures (0x80 + h) / 64 == 2 && (0x80 + h) % 64 == h
    ensures (0x80 + m) / 64 == 2 && (0x80 + m) % 64 == m && (0x80 + l) / 64 == 2 && (0x80 + l) % 64 == l
    ensures cp == a * 0x40000 + h * 0x1000 + m * 64 + l
  {
    var u := cp / 64;
    var v := u / 64;
    assert cp == u * 64 + l;
    assert u == v * 64 + m;
    assert v == cp / 0x1000;
    assert v == a * 64 + h;
  }

  lemma DecodeFour(cp: int, b: seq<Byte>)
    requires 0x10000 <= cp < 0x110000 && |b| >= 4
    requires b[0] == 0xF0 + cp / 0x40000 && b[1] == 0x80 + (cp / 0x1000) % 64
    requires b[2] == 0x80 + (cp / 64) % 64 && b[3] == 0x80 + cp % 64
    requires DecodeUtf8(b[4..]).Some?
    ensures DecodeUtf8(b) == Some([cp] + DecodeUtf8(b[4..]).value)
  {
    var a, h, m, l := cp / 0x40000, (cp / 0x1000) % 64, (cp / 64) % 64, cp % 64;
    FourFields(cp, a, h, m, l);
    assert b[0] as int % 8 == a && b[1] as int % 64 == h && b[2] as int % 64 == m && b[3] as int % 64 == l;
    assert IsContinuation(b[1]) && IsContinuation(b[2]) && IsContinuation(b[3]);
    DecodeFront(b, 4, cp, b[4..]);
  }

  /** One unit that completes a code point contributes that code point's encoding. */
  lemma Utf8Step(hi: Option<CodeUnit>, s: seq<CodeUnit>, cp: int)
    requires s != [] && (hi.Some? ==> 0xD800 <= hi.value < 0xDC00)
    requires hi.None? ==> !(0xD800 <= s[0] < 0xDC00)
    requires cp == UnitScalar(hi, s[0])
    ensures Utf8Rest(hi, s) == EncodeScalar(cp) + Utf8Rest(None, s[1..])
  {
    var c := s[0];
    if hi.Some? {
      Utf8StepHigh(hi.value, s, cp);
    } else if 0xDC00 <= c < 0xE000 {
      assert Utf8Rest(hi, s) == REPLACEMENT + Utf8Rest(None, s[1..]);
      ReplacementBytes();
    } else {
      Utf8StepPlain(s, cp);
    }
  }

  lemma Utf8StepHigh(hi: CodeUnit, s: seq<CodeUnit>, cp: int)
    requires s != [] && 0xD800 <= hi < 0xDC00
    requires cp == UnitScalar(Some(hi), s[0])
    ensures Utf8Rest(Some(hi), s) == EncodeScalar(cp) + Utf8Rest(None, s[1..])
  {
    if !(0xDC00 <= s[0] < 0xE000) {
      ReplacementBytes();
    }
  }

  lemma Utf8StepPlain(s: seq<CodeUnit>, cp: int)
    requires s != [] && !(0xD800 <= s[0] < 0xE000) && cp == s[0]
    ensures Utf8Rest(None, s) == EncodeScalar(cp) + Utf8Rest(None, s[1..])
  {
  }

  /** U+FFFD is written as the three bytes EF BF BD. */
  lemma ReplacementBytes()
    ensures EncodeScalar(0xFFFD) == REPLACEMENT
  {
  }

  /** The byte string written for the rest of a string is the UTF-8 encoding of the code points it means. */
  lemma {:induction false} Utf8RoundTrip(hi: Option<CodeUnit>, s: seq<CodeUnit>)
    requires hi.Some? ==> 0xD800 <= hi.value < 0xDC00
    ensures DecodeUtf8(Utf8Rest(hi, s)) == Some(Scalars(hi, s))
    decreases |s|
  {
    if s != [] {
      var t := s[1..];
      if hi.None? && 0xD800 <= s[0] < 0xDC00 {
        Utf8RoundTrip(Some(s[0]), t);
      } else {
        var cp := UnitScalar(hi, s[0]);
        Utf8RoundTrip(None, t);
        Utf8Step(hi, s, cp);
        DecodeScalar(cp, Utf8Rest(None, t));
      }
    }
  }

  /** The code units of a string with no unit above 0xFF, as bytes. */
  function Narrow(s: seq<CodeUnit>): (r: seq<Byte>)
    requires !HasWide(s)
    ensures |r| == |s| && forall k :: 0 <= k < |s| ==> r[k] == s[k]
  {
    seq(|s|, k requires 0 <= k < |s| => s[k])
  }

  /** The payload bytes of the segment built from s: its code units, or their UTF-8 encoding. */
  function Payload(s: seq<CodeUnit>): seq<Byte> {
    if HasWide(s) then Utf8Rest(None, s) else Narrow(s)
  }

  /** The mode scan of the constructor, with the flag that selects the UTF-8 payload. */
  method ScanMode(str: seq<CodeUnit>) returns (mode: int, unicode: bool)
    ensures mode == ModeOf(str)
    ensures unicode == HasWide(str)
  {
    mode, unicode := NUMERIC, false;
    for i := 0 to |str|
      invariant 0 <= mode <= 2 && !unicode
      invariant Scan(mode, str[i..]) == ModeOf(str)
      invariant forall k :: 0 <= k < i ==> str[k] <= 0xFF
    {
      assert str[i..] == [str[i]] + str[i + 1..];
      var c := str[i];
      if 0xFF < c {
        mode, unicode := BYTE, true;
        break;
      }
      if mode == BYTE {
        continue;
      }
      if mode == NUMERIC && IsDigit(c) {
        continue;
      }
      mode := if AlphaNumValue(c).Some? then ALPHANUMERIC else BYTE;
    }
  }

  /** The UTF-8 loop of the constructor. */
  method EncodeUtf8(str: seq<CodeUnit>) returns (data: seq<Byte>)
    ensures data == Utf8Rest(None, str)
  {
    data := [];
    var c1: Option<CodeUnit> := None;
    for i := 0 to |str|
      invariant c1.Some? ==> 0xD800 <= c1.value < 0xDC00
      invariant data + Utf8Rest(c1, str[i..]) == Utf8Rest(None, str)
    {
      assert str[i..] == [str[i]] + str[i + 1..];
      var c := str[i];
      var chunk: seq<Byte>;
      var c1' := None;
      if c1.Some? {
        if 0xDC00 <= c < 0xE000 {
          var cp := (c1.value % 0x400) * 0x400 + c % 0x400 + 0x10000;
          chunk := [0xF0 + cp / 0x40000, 0x80 + (cp / 0x1000) % 64, 0x80 + (cp / 64) % 64, 0x80 + cp % 64];
        } else {
          chunk := [0xEF, 0xBF, 0xBD];
        }
      } else if c < 0x80 {
        chunk := [c];
      } else if c < 0x800 {
        chunk := [0xC0 + c / 64, 0x80 + c % 64];
      } else if c < 0xD800 || c >= 0xE000 {
        chunk := [0xE0 + c / 0x1000, 0x80 + (c / 64) % 64, 0x80 + c % 64];
      } else if c < 0xDC00 {
        chunk := [];
        c1' := Some(c);
      } else {
        chunk := [0xEF, 0xBF, 0xBD];
      }
      assert Utf8Rest(c1, str[i..]) == chunk + Utf8Rest(c1', str[i + 1..]);
      Assoc(data, chunk, Utf8Rest(c1', str[i + 1..]));
      data, c1 := data + chunk, c1';
    }
  }

  /** The character count width for a version (rows of `__charCountBitsMap` by v <= 9, v <= 26, else). */
  function CharCountBits(version: int, mode: int): (r: int)
    requires 0 <= mode <= 2
    ensures mode == NUMERIC ==> r == (if version <= 9 then 10 else if version <= 26 then 12 else 14)
    ensures mode == ALPHANUMERIC ==> r == (if version <= 9 then 9 else if version <= 26 then 11 else 13)
    ensures mode == BYTE ==> r == (if version <= 9 then 8 else 16)
  {
    var tier := if version <= 9 then 0 else if version <= 26 then 1 else 2;
    CHAR_COUNT_BITS_MAP[tier][mode]
  }

  /** `getBitStreamLength` for n payload characters or bytes. */
  function BitStreamLength(mode: int, n: nat, charCountBits: int): int {
    var len :=
      if mode == NUMERIC then 10 * (n / 3) + (if n % 3 == 1 then 4 else if n % 3 == 2 then 7 else 0)
      else if mode == ALPHANUMERIC then 11 * (n / 2) + 6 * (n % 2)
      else 8 * n;
    len + charCountBits + 4
  }

  /** The four-bit mode indicator of Table 2 of ISO/IEC 18004:2015. */
  function ModeIndicator(mode: int): nat {
    if mode == NUMERIC then 0x1 else if mode == ALPHANUMERIC then 0x2 else 0x4
  }

  /** The decimal number the digits s[lo..hi] spell. */
  function Decimal(s: seq<Byte>, lo: nat, hi: nat): nat
    requires AllDigits(s) && lo <= hi <= |s|
    decreases hi
  {
    if lo == hi then 0 else 10 * Decimal(s, lo, hi - 1) + (s[hi - 1] - 0x30)
  }

  /** The 10-bit groups of the first n digits, n a multiple of three. */
  function NumericGroups(s: seq<Byte>, n: nat): seq<bool>
    requires AllDigits(s) && n <= |s| && n % 3 == 0
  {
    if n == 0 then [] else NumericGroups(s, n - 3) + LowBits(Decimal(s, n - 3, n), DIGIT3_BITS)
  }

  /** The numeric payload: groups of three digits in 10 bits, a final one or two digits in 4 or 7 bits. */
  function NumericBits(s: seq<Byte>): seq<bool>
    requires AllDigits(s)
  {
    var j := |s| - |s| % 3;
    NumericGroups(s, j) + (if |s| % 3 == 0 then [] else LowBits(Decimal(s, j, |s|), if |s| % 3 == 1 then DIGIT1_BITS else DIGIT2_BITS))
  }

  function AlphaNum(c: int): nat
    requires AlphaNumValue(c).Some?
  {
    AlphaNumValue(c).value
  }

  /** The values of the characters of an alphanumeric string. */
  function AlphaNumValues(s: seq<Byte>): (v: seq<nat>)
    requires AllAlphaNum(s)
    ensures |v| == |s| && forall k :: 0 <= k < |s| ==> v[k] == AlphaNum(s[k]) < 45
  {
    seq(|s|, k requires 0 <= k < |s| => AlphaNum(s[k]))
  }

  /** The number a pair of alphanumeric values stands for. */
  function PairValue(a: nat, b: nat): nat {
    45 * a + b
  }

  /** The 11-bit pairs of the first n alphanumeric values, n even. */
  function AlphaNumPairs(v: seq<nat>, n: nat): seq<bool>
    requires n <= |v| && n % 2 == 0
  {
    if n == 0 then [] else AlphaNumPairs(v, n - 2) + LowBits(PairValue(v[n - 2], v[n - 1]), PAIR_BITS)
  }

  /** The alphanumeric payload: pairs in 11 bits, a final single character in 6 bits. */
  function AlphaNumBits(s: seq<Byte>): seq<bool>
    requires AllAlphaNum(s)
  {
    var v := AlphaNumValues(s);
    var j := |v| - |v| % 2;
    AlphaNumPairs(v, j) + (if |v| % 2 == 0 then [] else LowBits(v[j], SINGLE_BITS))
  }

  /** What a segment is allowed to hold in each mode. */
  predicate FitsMode(mode: int, data: seq<Byte>) {
    && 0 <= mode <= 2
    && (mode == NUMERIC ==> AllDigits(data))
    && (mode == ALPHANUMERIC ==> AllAlphaNum(data))
  }

  function PayloadBits(mode: int, data: seq<Byte>): seq<bool>
    requires FitsMode(mode, data)
  {
    if mode == NUMERIC then NumericBits(data)
    else if mode == ALPHANUMERIC then AlphaNumBits(data)
    else BytesBits(data)
  }

  /** The bits `encode` appends: mode indicator, character count, payload. */
  function SegmentBits(mode: int, data: seq<Byte>, charCountBits: nat): seq<bool>
    requires FitsMode(mode, data)
  {
    LowBits(ModeIndicator(mode), MODE_BITS) + LowBits(|data|, charCountBits) + PayloadBits(mode, data)
  }

  lemma {:induction false} NumericGroupsLength(s: seq<Byte>, n: nat)
    requires AllDigits(s) && n <= |s| && n % 3 == 0
    ensures |NumericGroups(s, n)| == 10 * (n / 3)
  {
    if n != 0 {
      NumericGroupsLength(s, n - 3);
    }
  }

  lemma {:induction false} AlphaNumPairsLength(v: seq<nat>, n: nat)
    requires n <= |v| && n % 2 == 0
    ensures |AlphaNumPairs(v, n)| == 11 * (n / 2)
  {
    if n != 0 {
      AlphaNumPairsLength(v, n - 2);
    }
  }

  /** `getBitStreamLength` is the number of bits `encode` appends. */
  lemma SegmentBitsLength(mode: int, data: seq<Byte>, charCountBits: nat)
    requires FitsMode(mode, data)
    ensures |SegmentBits(mode, data, charCountBits)| == BitStreamLength(mode, |data|, charCountBits)
  {
    if mode == NUMERIC {
      NumericBitsLength(data);
    } else if mode == ALPHANUMERIC {
      AlphaNumBitsLength(data);
    }
  }

  /** The numeric payload takes 10 bits per three digits, and 4 or 7 for one or two left over. */
  lemma NumericBitsLength(s: seq<Byte>)
    requires AllDigits(s)
    ensures |NumericBits(s)| == 10 * (|s| / 3) + (if |s| % 3 == 1 then 4 else if |s| % 3 == 2 then 7 else 0)
  {
    var n := |s|;
    NumericGroupsLength(s, n - n % 3);
  }

  /** The alphanumeric payload takes 11 bits per pair, and 6 for a character left over. */
  lemma AlphaNumBitsLength(s: seq<Byte>)
    requires AllAlphaNum(s)
    ensures |AlphaNumBits(s)| == 11 * (|s| / 2) + 6 * (|s| % 2)
  {
    var n := |s|;
    AlphaNumPairsLength(AlphaNumValues(s), n - n % 2);
  }

  /** A group of at most three digits is below 10^(hi - lo), so its 4-, 7- or 10-bit field holds it whole. */
  lemma {:induction false} DecimalBound(s: seq<Byte>, lo: nat, hi: nat)
    requires AllDigits(s) && lo <= hi <= |s| && hi - lo <= 3
    ensures Decimal(s, lo, hi) < (if hi == lo then 1 else if hi - lo == 1 then 10 else if hi - lo == 2 then 100 else 1000)
    ensures hi - lo == 1 ==> Decimal(s, lo, hi) < Pow2(4)
    ensures hi - lo == 2 ==> Decimal(s, lo, hi) < Pow2(7)
    ensures hi - lo == 3 ==> Decimal(s, lo, hi) < Pow2(10)
    decreases hi
  {
    if lo < hi {
      DecimalBound(s, lo, hi - 1);
      assert IsDigit(s[hi - 1]);
      Pow2Mono(4, (hi - lo) * 3 + 1);
      assert Pow2(4) == 16;
      if hi - lo > 1 {
        assert Pow2(7) == 128;
        if hi - lo > 2 {
          assert Pow2(10) == 1024;
        }
      }
    }
  }

  /** A pair of alphanumeric values fits its 11-bit field and a single value its 6-bit field. */
  lemma AlphaNumBound(a: int, b: int)
    requires AlphaNumValue(a).Some? && AlphaNumValue(b).Some?
    ensures PairValue(AlphaNum(a), AlphaNum(b)) < Pow2(11)
    ensures AlphaNum(a) < Pow2(6)
  {
    assert Pow2(6) == 64;
    assert Pow2(11) == 2048;
  }

  /** Where the unfinished group of three digits starts after i digits. */
  function GroupStart(i: nat): (j: nat)
    ensures j <= i && j % 3 == 0 && i - j < 3
  {
    i - i % 3
  }

  /** The 10-bit groups the numeric loop of `encode` has appended after i digits. */
  function NumericDone(s: seq<Byte>, i: nat): seq<bool>
    requires AllDigits(s) && i <= |s|
  {
    NumericGroups(s, GroupStart(i))
  }

  /** The accumulator `sym` of the numeric loop after i digits: the digits of the unfinished group. */
  function NumericPending(s: seq<Byte>, i: nat): nat
    requires AllDigits(s) && i <= |s|
  {
    Decimal(s, GroupStart(i), i)
  }

  /** Where the unfinished group of three digits starts, one digit on. */
  lemma TripleStart(i: nat, j: nat)
    requires j == GroupStart(i)
    ensures i % 3 != 2 ==> GroupStart(i + 1) == j
    ensures i % 3 == 2 ==> GroupStart(i + 1) == i + 1 && i + 1 - j == 3
  {
  }

  /** One more digit: the value of s[lo..hi] from that of s[lo..hi - 1]. */
  lemma DecimalSnoc(s: seq<Byte>, lo: nat, i: nat, hi: nat)
    requires AllDigits(s) && lo <= i && hi == i + 1 && hi <= |s|
    ensures Decimal(s, lo, hi) == 10 * Decimal(s, lo, i) + s[i] - 0x30
  {
  }

  /** One more group: the groups of the first k digits from those of the first k - 3. */
  lemma GroupsSnoc(s: seq<Byte>, lo: nat, hi: nat)
    requires AllDigits(s) && lo == hi - 3 && 3 <= hi <= |s| && lo % 3 == 0 && hi % 3 == 0
    ensures NumericGroups(s, hi) == NumericGroups(s, lo) + LowBits(Decimal(s, lo, hi), DIGIT3_BITS)
  {
  }

  /** A turn of the numeric loop of `encode` on the first or second digit of a group: the accumulator grows by it. */
  lemma NumericGrow(s: seq<Byte>, i: nat, sym': int)
    requires AllDigits(s) && i < |s| && i % 3 != 2
    requires sym' == 10 * NumericPending(s, i) + s[i] - 0x30
    ensures NumericPending(s, i + 1) == sym' && NumericDone(s, i + 1) == NumericDone(s, i)
  {
    var j := GroupStart(i);
    TripleStart(i, j);
    DecimalSnoc(s, j, i, i + 1);
  }

  /** A turn of the numeric loop of `encode` on the third digit of a group: the group is complete. */
  lemma NumericGroupEnd(s: seq<Byte>, i: nat, sym': int)
    requires AllDigits(s) && i < |s| && i % 3 == 2
    requires sym' == 10 * NumericPending(s, i) + s[i] - 0x30
    ensures NumericPending(s, i + 1) == 0
    ensures NumericDone(s, i + 1) == NumericDone(s, i) + LowBits(sym', DIGIT3_BITS)
  {
    var lo, hi := GroupStart(i), i + 1;
    TripleStart(i, lo);
    DecimalSnoc(s, lo, i, hi);
    GroupsSnoc(s, lo, hi);
    LowBitsEq(sym', Decimal(s, lo, hi), DIGIT3_BITS);
  }

  /** After the numeric loop: the groups appended, and the last one or two digits still in the accumulator. */
  lemma NumericClose(s: seq<Byte>, sym: nat, w: nat)
    requires AllDigits(s) && sym == NumericPending(s, |s|)
    requires w == if |s| % 3 == 1 then DIGIT1_BITS else DIGIT2_BITS
    ensures |s| % 3 == 0 ==> NumericBits(s) == NumericDone(s, |s|)
    ensures |s| % 3 != 0 ==> NumericBits(s) == NumericDone(s, |s|) + LowBits(sym, w)
  {
  }

  /** The 11-bit pairs the alphanumeric loop of `encode` has appended after i characters. */
  function AlphaNumDone(v: seq<nat>, i: nat): seq<bool>
    requires i <= |v|
  {
    AlphaNumPairs(v, i - i % 2)
  }

  /** The accumulator `sym` of the alphanumeric loop after i characters: the value waiting for its pair, if any. */
  function AlphaNumPending(v: seq<nat>, i: nat): nat
    requires i <= |v|
  {
    if i % 2 == 1 then v[i - 1] else 0
  }

  /** AlphaNumDone with the start of the unfinished pair given by name. */
  lemma AlphaNumAt(v: seq<nat>, i: nat, j: nat)
    requires i <= |v| && j == i - i % 2
    ensures AlphaNumDone(v, i) == AlphaNumPairs(v, j)
  {
  }

  /** Where the unfinished pair starts, one character on. */
  lemma PairStart(i: nat)
    ensures i % 2 == 0 ==> (i + 1) % 2 == 1 && (i + 1) - (i + 1) % 2 == i
    ensures i % 2 == 1 ==> (i + 1) % 2 == 0 && (i + 1) - (i + 1) % 2 == i + 1 && i - i % 2 == i - 1
  {
  }

  /** One more pair: the pairs of the first k values from those of the first k - 2. */
  lemma PairsSnoc(v: seq<nat>, k: nat)
    requires 2 <= k <= |v| && k % 2 == 0
    ensures AlphaNumPairs(v, k) == AlphaNumPairs(v, k - 2) + LowBits(PairValue(v[k - 2], v[k - 1]), PAIR_BITS)
  {
  }

  /** A turn of the alphanumeric loop of `encode` on the first value of a pair: it waits in the accumulator. */
  lemma AlphaNumWait(v: seq<nat>, i: nat)
    requires i < |v| && i % 2 == 0
    ensures AlphaNumPending(v, i) == 0 && AlphaNumPending(v, i + 1) == v[i]
    ensures AlphaNumDone(v, i + 1) == AlphaNumDone(v, i)
  {
    PairStart(i);
    AlphaNumAt(v, i, i);
    AlphaNumAt(v, i + 1, i);
  }

  /** A turn of the alphanumeric loop of `encode` on the second value of a pair: the pair is complete. */
  lemma AlphaNumPairEnd(v: seq<nat>, i: nat, sym': int)
    requires i < |v| && i % 2 == 1 && sym' == AlphaNumPending(v, i) * 45 + v[i]
    ensures AlphaNumPending(v, i + 1) == 0
    ensures AlphaNumDone(v, i + 1) == AlphaNumDone(v, i) + LowBits(sym', PAIR_BITS)
  {
    PairStart(i);
    AlphaNumAt(v, i, i - 1);
    AlphaNumAt(v, i + 1, i + 1);
    PairsSnoc(v, i + 1);
    LowBitsEq(sym', PairValue(v[i - 1], v[i]), PAIR_BITS);
  }

  /** After the alphanumeric loop: the pairs appended, and a last unpaired value still in the accumulator. */
  lemma AlphaNumClose(s: seq<Byte>, v: seq<nat>, sym: nat)
    requires AllAlphaNum(s) && v == AlphaNumValues(s)
    requires sym == AlphaNumPending(v, |v|)
    ensures |s| % 2 == 0 ==> AlphaNumBits(s) == AlphaNumDone(v, |v|)
    ensures |s| % 2 == 1 ==> AlphaNumBits(s) == AlphaNumDone(v, |v|) + LowBits(sym, SINGLE_BITS)
  {
    if |s| % 2 == 0 {
      AlphaNumCloseEven(s, v);
    } else {
      AlphaNumCloseOdd(s, v, sym);
    }
  }

  lemma AlphaNumCloseEven(s: seq<Byte>, v: seq<nat>)
    requires AllAlphaNum(s) && v == AlphaNumValues(s) && |s| % 2 == 0
    ensures AlphaNumBits(s) == AlphaNumDone(v, |v|)
  {
    PairStart(|v|);
  }

  lemma AlphaNumCloseOdd(s: seq<Byte>, v: seq<nat>, sym: nat)
    requires AllAlphaNum(s) && v == AlphaNumValues(s) && |s| % 2 == 1
    requires sym == AlphaNumPending(v, |v|)
    ensures AlphaNumBits(s) == AlphaNumDone(v, |v|) + LowBits(sym, SINGLE_BITS)
  {
    PairStart(|v|);
  }

  /**
   * One turn of the alphanumeric loop of `encode`: the value of character i
   * joins the accumulator, and every second character the pair goes out as
   * 11 bits.
   */
  method AlphaNumTurn(buffer: BitBuffer, ghost b0: seq<bool>, d: seq<Byte>, ghost v: seq<nat>, i: nat, sym: nat)
    returns (sym'': nat)
    requires AllAlphaNum(d) && v == AlphaNumValues(d) && i < |d|
    requires buffer.Valid() && buffer.Bits() == b0 + AlphaNumDone(v, i) && sym == AlphaNumPending(v, i)
    modifies buffer
    ensures buffer.Valid() && buffer.Bits() == b0 + AlphaNumDone(v, i + 1) && sym'' == AlphaNumPending(v, i + 1)
  {
    var sym' := sym * 45 + AlphaNum(d[i]);
    if i % 2 == 1 {
      AlphaNumPairEnd(v, i, sym');
      AppendWord(buffer, sym', PAIR_BITS, b0, AlphaNumDone(v, i));
      sym'' := 0;
    } else {
      AlphaNumWait(v, i);
      sym'' := sym';
    }
  }

  /** After the alphanumeric loop of `encode`: a value left without its pair goes out as 6 bits. */
  method AlphaNumLast(buffer: BitBuffer, ghost b0: seq<bool>, d: seq<Byte>, ghost v: seq<nat>, sym: nat)
    requires AllAlphaNum(d) && v == AlphaNumValues(d)
    requires buffer.Valid() && buffer.Bits() == b0 + AlphaNumDone(v, |v|) && sym == AlphaNumPending(v, |v|)
    modifies buffer
    ensures buffer.Valid() && buffer.Bits() == b0 + AlphaNumBits(d)
  {
    AlphaNumClose(d, v, sym);
    if |d| % 2 == 1 {
      AppendWord(buffer, sym, SINGLE_BITS, b0, AlphaNumDone(v, |v|));
    }
  }

  /** Before the numeric loop of `encode`: nothing appended, nothing pending. */
  lemma NumericNone(s: seq<Byte>)
    requires AllDigits(s)
    ensures NumericDone(s, 0) == [] && NumericPending(s, 0) == 0
  {
  }

  /** Before the alphanumeric loop of `encode`: nothing appended, nothing pending. */
  lemma AlphaNumNone(v: seq<nat>)
    ensures AlphaNumDone(v, 0) == [] && AlphaNumPending(v, 0) == 0
  {
  }

  /** Before the byte loop of `encode`: nothing appended. */
  lemma BytesNone(s: seq<Byte>)
    ensures BytesBits(s[..0]) == []
  {
  }

  /** Before a loop of `encode` has appended anything, the buffer holds what it held. */
  lemma AppendNothing(b0: seq<bool>, done: seq<bool>)
    requires done == []
    ensures b0 + done == b0
  {
  }

  /** `buffer.append(val, width)` after the bits b0 + done: the width low-order bits of val follow them. */
  method AppendWord(buffer: BitBuffer, val: nat, width: int, ghost b0: seq<bool>, ghost done: seq<bool>)
    requires buffer.Valid() && 0 < width <= 32 && buffer.Bits() == b0 + done
    modifies buffer
    ensures buffer.Valid() && buffer.Bits() == b0 + (done + LowBits(val, width))
  {
    buffer.Append(val, width, None);
    AppendedWord(val, width);
    Assoc(b0, done, LowBits(val, width));
  }

  lemma BytesStep(s: seq<Byte>, i: nat)
    requires i < |s|
    ensures BytesBits(s[..i + 1]) == BytesBits(s[..i]) + LowBits(s[i], BYTE_BITS)
  {
    assert s[..i + 1] == s[..i] + [s[i]];
    BytesBitsSnoc(s[..i], s[i]);
  }

  /** A data segment (`qrcode.Segment`). */
  class Segment {
    var mode: int
    var data: seq<Byte>
    var charCountBits: int

    ghost predicate Valid()
      reads this
    {
      FitsMode(mode, data) && 0 < charCountBits <= 16
    }

    /** The constructor: mode scan, payload, and the character count width of version 1. */
    constructor(str: seq<CodeUnit>)
      ensures Valid()
      ensures mode == ModeOf(str) && data == Payload(str)
      ensures charCountBits == CharCountBits(1, mode)
    {
      var m, unicode := ScanMode(str);
      ModeClassification(str);
      var d: seq<Byte>;
      if !unicode {
        d := Narrow(str);
        assert forall k :: 0 <= k < |d| ==> d[k] == str[k];
      } else {
        d := EncodeUtf8(str);
      }
      mode, data := m, d;
      charCountBits := CharCountBits(1, m);
    }

    /** `setVersion`: picks the character count width for the version tier; nothing else changes. */
    method SetVersion(version: int)
      requires Valid()
      modifies this
      ensures Valid()
      ensures charCountBits == CharCountBits(version, mode)
      ensures mode == old(mode) && data == old(data)
    {
      charCountBits := CHAR_COUNT_BITS_MAP[if version <= 9 then 0 else if version <= 26 then 1 else 2][mode];
    }

    /** `getBitStreamLength`: a version that is given and not 0 is applied first. */
    method GetBitStreamLength(version: Option<int>) returns (len: int)
      requires Valid()
      modifies this
      ensures Valid() && mode == old(mode) && data == old(data)
      ensures charCountBits == if version.Some? && version.value != 0 then CharCountBits(version.value, mode)
                               else old(charCountBits)
      ensures len == BitStreamLength(mode, |data|, charCountBits)
    {
      if version.Some? && version.value != 0 {
        SetVersion(version.value);
      }
      var n := |data|;
      if mode == NUMERIC {
        len := 10 * (n / 3);
        if n % 3 == 1 {
          len := len + 4;
        } else if n % 3 == 2 {
          len := len + 7;
        }
      } else if mode == ALPHANUMERIC {
        len := 11 * (n / 2) + 6 * (n % 2);
      } else {
        len := 8 * n;
      }
      len := len + charCountBits + 4;
    }
 
    /** `encode`: appends the mode indicator, the character count and the payload to the buffer. */
    method Encode(buffer: BitBuffer)
      requires Valid() && buffer.Valid()
      modifies buffer
      ensures buffer.Valid()
      ensures buffer.Bits() == old(buffer.Bits()) + SegmentBits(mode, data, charCountBits)
    {
      ghost var b0 := buffer.Bits();
      var indicator := if mode == NUMERIC then 0x1 else if mode == ALPHANUMERIC then 0x2 else 0x4;
      buffer.Append(indicator, MODE_BITS, None);
      AppendedWord(indicator, MODE_BITS);
      buffer.Append(|data|, charCountBits, None);
      AppendedWord(|data|, charCountBits);
      ghost var header := LowBits(ModeIndicator(mode), MODE_BITS) + LowBits(|data|, charCountBits);
      Assoc(b0, LowBits(ModeIndicator(mode), MODE_BITS), LowBits(|data|, charCountBits));
      if mode == NUMERIC {
        EncodeNumeric(buffer);
      } else if mode == ALPHANUMERIC {
        EncodeAlphaNum(buffer);
      } else {
        EncodeBytes(buffer);
      }
      Assoc(b0, header, PayloadBits(mode, data));
    }

    /** The numeric case of `encode` after the header. */
    method EncodeNumeric(buffer: BitBuffer)
      requires buffer.Valid() && AllDigits(data)
      modifies buffer
      ensures buffer.Valid()
      ensures buffer.Bits() == old(buffer.Bits()) + NumericBits(data)
    {
      ghost var b0 := buffer.Bits();
      var d := data;
      var sym: nat := 0;
      NumericNone(d);
      AppendNothing(b0, NumericDone(d, 0));
      for i := 0 to |d|
        invariant buffer.Valid()
        invariant buffer.Bits() == b0 + NumericDone(d, i)
        invariant sym == NumericPending(d, i)
      {
        var sym' := sym * 10 + d[i] - 0x30;
        if i % 3 == 2 {
          NumericGroupEnd(d, i, sym');
          AppendWord(buffer, sym', DIGIT3_BITS, b0, NumericDone(d, i));
          sym := 0;
        } else {
          NumericGrow(d, i, sym');
          sym := sym';
        }
      }
      var r := |d| % 3;
      var w := if r == 1 then DIGIT1_BITS else DIGIT2_BITS;
      NumericClose(d, sym, w);
      if r != 0 {
        AppendWord(buffer, sym, w, b0, NumericDone(d, |d|));
      }
    }

    /** The alphanumeric case of `encode` after the header. */
    method EncodeAlphaNum(buffer: BitBuffer)
      requires buffer.Valid() && AllAlphaNum(data)
      modifies buffer
      ensures buffer.Valid()
      ensures buffer.Bits() == old(buffer.Bits()) + AlphaNumBits(data)
    {
      ghost var b0 := buffer.Bits();
      var d := data;
      ghost var v := AlphaNumValues(d);
      var sym: nat := 0;
      AlphaNumNone(v);
      AppendNothing(b0, AlphaNumDone(v, 0));
      for i := 0 to |d|
        invariant buffer.Valid()
        invariant buffer.Bits() == b0 + AlphaNumDone(v, i)
        invariant sym == AlphaNumPending(v, i)
      {
        sym := AlphaNumTurn(buffer, b0, d, v, i, sym);
      }
      AlphaNumLast(buffer, b0, d, v, sym);
    }

    /** The byte case of `encode` after the header. */
    method EncodeBytes(buffer: BitBuffer)
      requires buffer.Valid()
      modifies buffer
      ensures buffer.Valid()
      ensures buffer.Bits() == old(buffer.Bits()) + BytesBits(data)
    {
      ghost var b0 := buffer.Bits();
      var d := data;
      BytesNone(d);
      AppendNothing(b0, BytesBits(d[..0]));
      for i := 0 to |d|
        invariant buffer.Valid()
        invariant buffer.Bits() == b0 + BytesBits(d[..i])
      {
        AppendWord(buffer, d[i], BYTE_BITS, b0, BytesBits(d[..i]));
        BytesStep(d, i);
      }
      assert d[..|d|] == d;
    }
  }

  /** How `encode` as written ends: with all its bits appended, or with a TypeError after the header. */
  datatype EncodeOutcome = Encoded(bits: seq<bool>) | TypeError(partial: seq<bool>)

  /**
   * `encode` as written: the numeric and alphanumeric loops call
   * `charCodeAt` on the payload, which is an array of codes and has no such
   * method, so the first turn of either loop throws after the mode indicator
   * and the character count have been appended.
   */
  function EncodeAsWritten(mode: int, data: seq<Byte>, charCountBits: nat): (r: EncodeOutcome)
    requires FitsMode(mode, data)
    ensures r.Encoded? <==> mode == BYTE || |data| == 0
    ensures r.Encoded? ==> r.bits == SegmentBits(mode, data, charCountBits)
    ensures r.TypeError? ==> r.partial == LowBits(ModeIndicator(mode), MODE_BITS) + LowBits(|data|, charCountBits)
  {
    if mode != BYTE && |data| > 0 then
      TypeError(LowBits(ModeIndicator(mode), MODE_BITS) + LowBits(|data|, charCountBits))
    else
      Encoded(SegmentBits(mode, data, charCountBits))
  }

  /**
   * The string "12345" is numeric: `encode` as written throws on it, while
   * the intended encoding appends 4 + 10 + 17 = 31 bits.
   */
  lemma NumericStringThrows()
    ensures ModeOf([0x31, 0x32, 0x33, 0x34, 0x35]) == NUMERIC
    ensures EncodeAsWritten(NUMERIC, [0x31, 0x32, 0x33, 0x34, 0x35], CharCountBits(1, NUMERIC)).TypeError?
    ensures |SegmentBits(NUMERIC, [0x31, 0x32, 0x33, 0x34, 0x35], CharCountBits(1, NUMERIC))| == 31
  {
    var s: seq<CodeUnit> := [0x31, 0x32, 0x33, 0x34, 0x35];
    ModeClassification(s);
    assert AllDigits(s);
    SegmentBitsLength(NUMERIC, [0x31, 0x32, 0x33, 0x34, 0x35], CharCountBits(1, NUMERIC));
  }
}
