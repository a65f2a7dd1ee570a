# QR Code encoder of qx-qrcode, in Dafny

This project models the encoding core of the qooxdoo `qrcode` library:
`qrcode.QRCode`, `qrcode.Segment` and `qrcode.BitBuffer`. Given one or more
text segments and an error correction level (L, M, Q or H), the encoder does
the following:

- It picks the most compact mode for each segment: numeric, alphanumeric or
  byte. Byte mode uses Latin-1, or UTF-8 when a code unit is above 0xFF.
- It finds the least version (1 to 40) whose data capacity holds the bit
  streams.
- It appends the terminator and pads with the 0xEC 0x11 pattern.
- It splits the data codewords into blocks and computes each block's
  Reed-Solomon error correction codewords over GF(256).
- It interleaves data and error correction codewords into the final message.
- It draws the function patterns and places the message along the two-column
  zigzag, under each of the eight masks.
- It scores every candidate with the four penalty rules and keeps the first
  one with the lowest score.
- It fills in the BCH-protected format and version information.

The form of the model follows the source:

- Objects whose fields the source updates are classes:
  - `BitBuffers.BitBuffer` has the fields `data` and `bitsLeft`.
  - `Segments.Segment` has `mode`, `data` and `charCountBits`.
  - `QrCodes.QRCode` has the segments, the level and the cached symbol.
- The symbol matrix is an `array2<Cell>` indexed `[x, y]`. A cell is `Unset`
  (the source's `undefined`) or `Module(dark)`.
- Every loop of the source is a method with invariants. Each method is proved
  equal to a specification function, and the properties are proved about
  those functions.

Files, one module each:

- `bits.dfy`: shifts, masks and big-endian bit strings.
- `bit_buffer.dfy`: the bit buffer.
- `segment.dfy`: segments, mode selection, UTF-8 and segment encoding.
- `gf256.dfy`: GF(256) and the exp/log tables.
- `reed_solomon.dfy`: the generator polynomial and polynomial remainder.
- `code_tables.dfy`: `__codeProps` and `__alignPatternPositions`.
- `bch.dfy`: `__calculateSmallECCode`.
- `capacity.dfy`: the free cells of a version-1 symbol, counted.
- `data_codewords.dfy`: the terminator, alignment and padding.
- `blocks.dfy`: error correction blocks and interleaving.
- `matrix.dfy`: cells and grids.
- `patterns.dfy`: the function patterns of `__buildSymbol`.
- `placement.dfy`: masks and zigzag placement.
- `format_info.dfy`: `__fillReservedAreas`.
- `penalty.dfy`: `__calculatePenaltyScore`.
- `encoder.dfy`: the mask search.
- `qr_code.dfy`: the `QRCode` object.
- `wrappers.dfy`: `Option` and `Result`.

## Model

| member | source | states |
|---|---|---|
| Bits.MasksAreLowOnes | qrcode/source/class/qrcode/BitBuffer.js:48 | `__masks[n]` is 2^n - 1, the n low-order ones, for n up to 8 |
| BitBuffers.BitBuffer.constructor | qrcode/source/class/qrcode/BitBuffer.js:33-43 | a new buffer holds no bytes and no bits |
| BitBuffers.BitBuffer.Append | qrcode/source/class/qrcode/BitBuffer.js:68-90 | the stored bits become the old bits followed by the numBits top bits of the valLen-bit field val, most significant first; the free low bits of the last byte stay zero; a width of 0 or less appends nothing |
| BitBuffers.OrChunkIn | qrcode/source/class/qrcode/BitBuffer.js:84-88 | one pass of the append loop ORs the next min(numBits, bitsLeft) field bits into the last byte, below its bits already stored, and strictly lowers numBits; the stored bits plus the field bits still to come stay the target |
| BitBuffers.AppendedWord | qrcode/source/class/qrcode/BitBuffer.js:68-74 | without valLen, append adds exactly the numBits low-order bits of val |
| BitBuffers.AppendShifted | qrcode/source/class/qrcode/BitBuffer.js:68-90 | appending the top n bits of an L-bit field equals appending `val >> (L - n)` as an n-bit field |
| BitBuffers.AppendsJoin | qrcode/source/class/qrcode/BitBuffer.js:68-90 | two appends that split a field at any point, the second continuing with the remaining valLen, equal one append of both widths |
| BitBuffers.StoredIsPrefix | qrcode/source/class/qrcode/BitBuffer.js:98-111 | the stored bits are the first `8 * length - bitsLeft` bits of the bytes, and every later bit is zero |
| BitBuffers.BitBuffer.GetLength | qrcode/source/class/qrcode/BitBuffer.js:98-100 | `8 * data.length - bitsLeft` is the number of bits appended |
| BitBuffers.BitBuffer.GetDataArray | qrcode/source/class/qrcode/BitBuffer.js:109-111 | the array has ceil(length / 8) bytes, begins with the stored bits, and its unfilled low bits are zero |
| Segments.AlphaNumValue | qrcode/source/class/qrcode/Segment.js:26-43 | every alphanumeric character has a value below 45 |
| Segments.AlphaNumInverse | qrcode/source/class/qrcode/Segment.js:26-43 | the table is a bijection between the 45 characters and the values 0 to 44 |
| Segments.ScanStepMonotone | qrcode/source/class/qrcode/Segment.js:45-65 | one step of the mode scan never lowers the mode and never exceeds byte mode |
| Segments.ScanFromByte | qrcode/source/class/qrcode/Segment.js:56-58 | once the scan is in byte mode it stays there |
| Segments.ScanFromAlphaNum | qrcode/source/class/qrcode/Segment.js:60-64 | from alphanumeric mode the scan ends alphanumeric exactly when every remaining unit is in the set, and in byte mode otherwise |
| Segments.ModeClassification | qrcode/source/class/qrcode/Segment.js:45-65 | numeric iff all units are digits; alphanumeric iff all are in the set but not all are digits; byte iff some unit is outside the set |
| Segments.ScanMode | qrcode/source/class/qrcode/Segment.js:45-65 | the scan loop, with its early exit, returns the classified mode and whether some code unit exceeds 0xFF |
| Segments.Narrow | qrcode/source/class/qrcode/Segment.js:67-72 | without wide units the data is one byte per code unit, equal to it |
| Segments.PairCodePoint | qrcode/source/class/qrcode/Segment.js:81-83 | a surrogate pair combines to a supplementary code point, 0x10000 to 0x10FFFF |
| Segments.FourBytes | qrcode/source/class/qrcode/Segment.js:84-88 | a supplementary code point takes four bytes |
| Segments.UnitScalar | qrcode/source/class/qrcode/Segment.js:80-116 | every unit the loop encodes stands for a Unicode scalar value; a lone surrogate stands for U+FFFD |
| Segments.Utf8Step | qrcode/source/class/qrcode/Segment.js:80-116 | one loop pass that completes a code point emits exactly that code point's UTF-8 bytes |
| Segments.EncodeUtf8 | qrcode/source/class/qrcode/Segment.js:73-118 | the UTF-8 loop emits exactly the bytes of the reference encoding of the string, holding a high surrogate back for one unit |
| Segments.DecodeScalar | qrcode/source/class/qrcode/Segment.js:84-109 | the bytes emitted for a scalar value decode back to it under the decoder of RFC 3629 |
| Segments.Utf8RoundTrip | qrcode/source/class/qrcode/Segment.js:73-118 | the bytes decode under RFC 3629 to the string's code points: pairs are combined, lone surrogates become U+FFFD, the unit after an unpaired high surrogate is lost, and a trailing high surrogate is dropped |
| Segments.CharCountBits | qrcode/source/class/qrcode/Segment.js:12-16 | the character count widths: numeric 10/12/14, alphanumeric 9/11/13, byte 8/16/16 for versions up to 9, up to 26, and above |
| Segments.Segment.constructor | qrcode/source/class/qrcode/Segment.js:19-121 | the segment's mode is the classified mode, its data the Latin-1 or UTF-8 bytes, and its widths those of version 1 |
| Segments.Segment.SetVersion | qrcode/source/class/qrcode/Segment.js:129-140 | the count width becomes that of the version's tier; mode and data are unchanged |
| Segments.Segment.GetBitStreamLength | qrcode/source/class/qrcode/Segment.js:142-165 | a given non-zero version first sets the widths; the length is 4 + count width + 10 per three digits (+4/+7), 11 per pair (+6), or 8 per byte |
| Segments.SegmentBitsLength | qrcode/source/class/qrcode/Segment.js:142-219 | the bits a segment encodes to are exactly as many as getBitStreamLength predicts |
| Segments.DecimalBound | qrcode/source/class/qrcode/Segment.js:177-189 | a group of 3, 2 or 1 digits fits its 10, 7 or 4 bits |
| Segments.AlphaNumBound | qrcode/source/class/qrcode/Segment.js:197-208 | a pair value 45a + b fits 11 bits and a single value fits 6 |
| Segments.Segment.Encode | qrcode/source/class/qrcode/Segment.js:167-219 | the buffer gains the mode indicator, the character count and the mode's payload bits (corrected: reads the data bytes) |
| Segments.AppendWord | qrcode/source/class/qrcode/Segment.js:173-174 | appending a word adds exactly its width low-order bits after the bits already appended |
| Segments.Segment.EncodeNumeric | qrcode/source/class/qrcode/Segment.js:172-190 | the buffer gains the digits in groups of three as 10-bit numbers, then the rest as 4 or 7 bits |
| Segments.Segment.EncodeAlphaNum | qrcode/source/class/qrcode/Segment.js:192-209 | the buffer gains the values in pairs as 11-bit numbers 45a + b, then a last single one as 6 bits |
| Segments.AlphaNumTurn | qrcode/source/class/qrcode/Segment.js:197-203 | one pass folds character i into the pending value and emits an 11-bit pair after every second character |
| Segments.AlphaNumLast | qrcode/source/class/qrcode/Segment.js:205-207 | an odd final character is emitted in 6 bits, completing the alphanumeric payload |
| Segments.Segment.EncodeBytes | qrcode/source/class/qrcode/Segment.js:211-217 | the buffer gains every data byte as 8 bits |
| Segments.EncodeAsWritten | qrcode/source/class/qrcode/Segment.js:167-219 | as written, encode succeeds only in byte mode or on empty data; otherwise it throws after the mode and count fields |
| Segments.NumericStringThrows | qrcode/source/class/qrcode/Segment.js:178 | "12345" is numeric, encode throws on it as written, and its intended encoding has 31 bits |
| Gf256.GfOf | qrcode/source/class/qrcode/QRCode.js:66-76 | the field element of a byte converts back to that byte |
| Gf256.TableValueIsPower | qrcode/source/class/qrcode/QRCode.js:69-75 | the table loop's integer step `x <<= 1; if (x & 0x100) x ^= 0x11d` stays below 0x100 and is multiplication by x, so entry i is 2^i |
| Gf256.PowerOrder | qrcode/source/class/qrcode/QRCode.js:69-77 | 2^255 is 1 and no smaller positive power is: the generator has order 255 |
| Gf256.PowerDistinct | qrcode/source/class/qrcode/QRCode.js:70-77 | the first 255 powers are distinct, so every log entry the loop writes is written once |
| Gf256.PowerOnto | qrcode/source/class/qrcode/QRCode.js:70-77 | every nonzero element is one of the first 255 powers |
| Gf256.PowerPeriod | qrcode/source/class/qrcode/QRCode.js:79-81 | powers repeat with period 255 |
| Gf256.LogPower | qrcode/source/class/qrcode/QRCode.js:76 | the logarithm of 2^i is i for i below 255 |
| Gf256.PowersAndLogs | qrcode/source/class/qrcode/QRCode.js:66-77 | the first loop fills exp[i] with 2^i and log[n] with the logarithm of every nonzero n |
| Gf256.CopyPowers | qrcode/source/class/qrcode/QRCode.js:79-81 | the second loop extends exp to 512 entries, each the power of its index |
| Gf256.BuildTables | qrcode/source/class/qrcode/QRCode.js:58-82 | the tables are valid exp and log tables, and exp[i] equals exp[i - 255] from 255 to 511 |
| Gf256.RsMul | qrcode/source/class/qrcode/QRCode.js:814-817 | table multiplication equals field multiplication |
| Gf256.MulIsExpMul | qrcode/source/class/qrcode/QRCode.js:816 | multiplication is exp of the sum of the logarithms, 0 when either factor is 0 |
| Gf256.MulZero | qrcode/source/class/qrcode/QRCode.js:816 | a product is zero iff a factor is zero |
| Gf256.MulComm | qrcode/source/class/qrcode/QRCode.js:816 | multiplication is commutative |
| Gf256.MulAssoc | qrcode/source/class/qrcode/QRCode.js:816 | multiplication is associative |
| Gf256.MulDistrib | qrcode/source/class/qrcode/QRCode.js:816 | multiplication distributes over XOR |
| Gf256.MulOne | qrcode/source/class/qrcode/QRCode.js:816 | 1 is the unit |
| Gf256.MulTwo | qrcode/source/class/qrcode/QRCode.js:816 | multiplying by 2 is the loop's shift-and-reduce step |
| Gf256.MulPower | qrcode/source/class/qrcode/QRCode.js:816 | 2^i * 2^j is 2^(i + j) |
| Gf256.LogTable | qrcode/source/class/qrcode/QRCode.js:816 | the log table gives the logarithm of every nonzero element |
| Gf256.LogTableComplete | qrcode/source/class/qrcode/QRCode.js:67-76 | a table that maps the byte of each of the first 255 powers back to its exponent maps every nonzero byte to its logarithm |
| Gf256.LogUnique | qrcode/source/class/qrcode/QRCode.js:816 | the logarithm of a nonzero element is the only exponent below 255 that gives it |
| ReedSolomon.Generator | qrcode/source/class/qrcode/QRCode.js:857-870 | the generator of degree d has d + 1 coefficients and leading coefficient 1 |
| ReedSolomon.MulLinearInPlace | qrcode/source/class/qrcode/QRCode.js:864-866 | the inner loop multiplies the first i + 1 coefficients in place by (x + 2^i) and leaves the rest alone |
| ReedSolomon.CalculateGenerator | qrcode/source/class/qrcode/QRCode.js:857-870 | the result is the product of (x + 2^i) for i below the degree |
| ReedSolomon.EvalMulLinear | qrcode/source/class/qrcode/QRCode.js:863-867 | multiplying by (x + c) multiplies the value at z by (z + c) |
| ReedSolomon.GeneratorRoots | qrcode/source/class/qrcode/QRCode.js:857-870 | 2^0 to 2^(d-1) are roots of the generator of degree d |
| ReedSolomon.ReduceRowInPlace | qrcode/source/class/qrcode/QRCode.js:836-841 | one row adds c * p2[j] to r[i + j] for 0 < j < len2 when c = r[i] is nonzero, in place |
| ReedSolomon.ScaleAt | qrcode/source/class/qrcode/QRCode.js:838-840 | one turn of the inner loop adds c * p2[j] to entry i + j and extends the row's partial sum by that entry |
| ReedSolomon.AddAt | qrcode/source/class/qrcode/QRCode.js:839 | one entry of the remainder gains the product and no other entry changes |
| ReedSolomon.PolyMod | qrcode/source/class/qrcode/QRCode.js:829-845 | the result is the reference long division, keeping the last len2 - 1 entries |
| ReedSolomon.PolyModLength | qrcode/source/class/qrcode/QRCode.js:844 | the remainder has len2 - 1 coefficients; a constant divisor returns all of p1 |
| ReedSolomon.PolyModByConstant | qrcode/source/class/qrcode/QRCode.js:829-845 | dividing by a constant returns p1 unchanged |
| ReedSolomon.RowKeepsValue | qrcode/source/class/qrcode/QRCode.js:836-841 | at a root of a monic p2, one row keeps the value of the part not yet reduced |
| ReedSolomon.RemainderValue | qrcode/source/class/qrcode/QRCode.js:829-845 | at every root of a monic divisor the remainder takes the value of p1 |
| ReedSolomon.CodewordRoots | qrcode/source/class/qrcode/QRCode.js:529-532 | a block followed by its error correction codewords vanishes at 2^0 to 2^(d-1) |
| CodeTables.LevelMRowsOk | qrcode/source/class/qrcode/QRCode.js:92-134 | for level M and every version: data + ec * blocks is the version's codeword count, 1 <= blocks <= data, and 7 <= ec <= 30 |
| CodeTables.LevelLRowsOk | qrcode/source/class/qrcode/QRCode.js:135-177 | the same for level L |
| CodeTables.LevelHRowsOk | qrcode/source/class/qrcode/QRCode.js:178-220 | the same for level H |
| CodeTables.LevelQRowsOk | qrcode/source/class/qrcode/QRCode.js:221-263 | the same for level Q |
| CodeTables.PropsOk | qrcode/source/class/qrcode/QRCode.js:91-264 | every row of the table, by level index and version, is consistent with the symbol's capacity |
| CodeTables.AlignRowsOk | qrcode/source/class/qrcode/QRCode.js:266-306 | for versions 2 to 40, every alignment row has version / 7 + 2 entries, runs from 6 to size - 7, and rises at least 12 per step |
| Bch.AlignGenerator | qrcode/source/class/qrcode/QRCode.js:794-797 | the inner loop shifts the generator left until the doubled bound 2^(len+k+1) is no longer below r (one shift short of r's top bit when r is a power of two) |
| Bch.SmallEcCode | qrcode/source/class/qrcode/QRCode.js:788-802 | the result is data followed by len check bits, a carry-less multiple of the generator |
| Bch.CodewordUnique | qrcode/source/class/qrcode/QRCode.js:788-802 | exactly one len-bit check value makes the data a multiple of the generator |
| Bch.XorTwice | qrcode/source/class/qrcode/QRCode.js:695 | XOR with the fixed 0x5412 pattern is undone by applying it again |
| FormatInfo.FormatWord | qrcode/source/class/qrcode/QRCode.js:694-695 | the format word is 15 bits; without the pattern it is a BCH codeword of 0x537 whose five data bits are the level field and the mask |
| FormatInfo.VersionWord | qrcode/source/class/qrcode/QRCode.js:714 | the version word is 18 bits, a BCH codeword of 0x1F25 whose six data bits are the version |
| FormatInfo.FormatLayout | qrcode/source/class/qrcode/QRCode.js:696-710 | each of the 15 format bits has one cell in each of the two copies, and every format cell holds one bit |
| FormatInfo.Put | qrcode/source/class/qrcode/QRCode.js:699 | a single write changes one cell and no other |
| FormatInfo.FillFormat | qrcode/source/class/qrcode/QRCode.js:696-710 | the format loop writes bit k of the word to both of its cells and changes nothing else |
| FormatInfo.FormatPass | qrcode/source/class/qrcode/QRCode.js:697-709 | pass i writes bit i of the format word to its two cells and bit i + 7 to its two cells (one in pass 0), keeping the earlier passes' cells and every other cell |
| FormatInfo.FillVersion | qrcode/source/class/qrcode/QRCode.js:713-721 | the version loop writes bit 3j + i - (size - 11) to (i, j) and to (j, i), and changes nothing else |
| FormatInfo.VersionStep | qrcode/source/class/qrcode/QRCode.js:717-719 | one pass writes the current version bit to (i, j) and (j, i) and keeps the cells written before |
| FormatInfo.ReservedLight | qrcode/source/class/qrcode/QRCode.js:585-614 | `__buildSymbol` leaves every format and version cell light before they are filled |
| FormatInfo.FillReservedAreas | qrcode/source/class/qrcode/QRCode.js:690-723 | the format cells hold a format word of the level and mask, from version 7 the version cells hold a version word, and every other cell is unchanged |
| Patterns.FinderPattern | qrcode/source/class/qrcode/QRCode.js:735-738 | in its 7 x 7 square a module is dark except on the ring at distance 2 from the centre |
| Patterns.AlignmentPattern | qrcode/source/class/qrcode/QRCode.js:751-753 | in its 5 x 5 square a module is dark except on the ring at distance 1 from the centre |
| Patterns.CreatePattern | qrcode/source/class/qrcode/QRCode.js:766-774 | inside the n x n square at (x0, y0) every cell holds the pattern of its offset; outside it nothing changes |
| Patterns.DrawFinders | qrcode/source/class/qrcode/QRCode.js:580-582 | the three finder patterns sit at the top left, bottom left and top right corners |
| Patterns.DrawSeparators | qrcode/source/class/qrcode/QRCode.js:585-604 | the separators and the format areas beside the finders become light |
| Patterns.SeparatorsLeft | qrcode/source/class/qrcode/QRCode.js:586-594 | pass i makes the top left separator and reserved cells of index i and the bottom left separator cell (i, size - 8) light |
| Patterns.SeparatorsRight | qrcode/source/class/qrcode/QRCode.js:595-603 | pass i makes the remaining bottom left and the top right separator and reserved cells of index i light |
| Patterns.DrawVersionArea | qrcode/source/class/qrcode/QRCode.js:607-614 | from version 7 on the two 3 x 6 version areas become light |
| Patterns.VersionRow | qrcode/source/class/qrcode/QRCode.js:608-613 | one pass of the j loop makes row j of both 3 x 6 version areas light and keeps the rows before it |
| Patterns.DrawFixedModules | qrcode/source/class/qrcode/QRCode.js:617-619 | (8, 8) becomes light and (8, size - 8) dark |
| Patterns.NearIs | qrcode/source/class/qrcode/QRCode.js:624-630 | in an alignment row a coordinate is within 2 of centre k exactly when k is the first such centre |
| Patterns.CentresShape | qrcode/source/class/qrcode/QRCode.js:266-306 | every alignment row runs from 6 to size - 7 with steps of at least 12 |
| Patterns.AlignmentStep | qrcode/source/class/qrcode/QRCode.js:626-628 | one pass draws the pattern at (p[a], p[b]) exactly when that centre is still unset |
| Patterns.DrawAlignment | qrcode/source/class/qrcode/QRCode.js:622-631 | the alignment patterns are drawn at every pair of centres whose centre cell is still unset |
| Patterns.DrawTiming | qrcode/source/class/qrcode/QRCode.js:634-637 | row 6 and column 6 alternate from 8 to size - 9, dark on even coordinates |
| Patterns.DrawFunctionPatterns | qrcode/source/class/qrcode/QRCode.js:574-637 | the phases in order produce the version's template |
| Patterns.TemplateFinders | qrcode/source/class/qrcode/QRCode.js:580-637 | the three finder patterns survive every later phase |
| Patterns.TemplateDarkModule | qrcode/source/class/qrcode/QRCode.js:619 | the module at (8, size - 8) is dark in every version |
| Patterns.CornersTaken | qrcode/source/class/qrcode/QRCode.js:622-631 | the three corner centres are taken by finder patterns, so those alignment patterns are skipped |
| Patterns.CentreFree | qrcode/source/class/qrcode/QRCode.js:622-631 | every other centre is still unset when the loop reaches it |
| Patterns.TemplateAlignment | qrcode/source/class/qrcode/QRCode.js:622-637 | every alignment pattern off the finder patterns appears whole in the template |
| Placement.MaskFunction | qrcode/source/class/qrcode/QRCode.js:308-317 | mask k inverts the module exactly where its condition on (i = y, j = x) holds |
| Placement.MaskInvolution | qrcode/source/class/qrcode/QRCode.js:308-317 | applying a mask twice gives back the module |
| Placement.StepOnPath | qrcode/source/class/qrcode/QRCode.js:661-677 | a step of the zigzag walker moves to the next cell, and it leaves the matrix exactly after the last cell |
| Placement.Advance | qrcode/source/class/qrcode/QRCode.js:661-677 | the position update is that step, and it strictly shrinks the remaining walk |
| Placement.PathCoversAll | qrcode/source/class/qrcode/QRCode.js:640-678 | the zigzag visits exactly the cells off column 6 |
| Placement.PathDistinct | qrcode/source/class/qrcode/QRCode.js:640-678 | the zigzag visits no cell twice |
| Placement.PathLength | qrcode/source/class/qrcode/QRCode.js:640-678 | the zigzag is size^2 - (size - 1) cells long |
| Placement.CurrentBit | qrcode/source/class/qrcode/QRCode.js:648-658 | `(message[i] & bit) != 0` with bit = 2^e is message bit 8i + 7 - e, most significant first |
| Placement.FreeCellsExactly | qrcode/source/class/qrcode/QRCode.js:647 | the free cells are the unset cells on the path, each listed once |
| Placement.PlaceMessage | qrcode/source/class/qrcode/QRCode.js:640-678 | the loop finishes iff the message is non-empty and fits the free cells; free cell t then holds masked bit t and no other cell changes |
| Placement.WriteModule | qrcode/source/class/qrcode/QRCode.js:648 | a write goes to an unset cell not yet used and holds the masked message bit |
| Placement.Visit | qrcode/source/class/qrcode/QRCode.js:646-659 | at an unset cell the loop writes the current masked bit and moves to the next bit, finishing after the last bit of the last codeword; other cells are left alone |
| Placement.PlaceBit | qrcode/source/class/qrcode/QRCode.js:647-658 | an unset cell takes the masked current bit, so the written cells are the free cells visited so far, each with its masked message bit |
| Placement.NextBit | qrcode/source/class/qrcode/QRCode.js:649-658 | the bit mask moves one bit down, or to the top bit of the next byte; the loop ends exactly after the last bit of the last byte |
| Encoder.BuildSymbol | qrcode/source/class/qrcode/QRCode.js:574-681 | the symbol is the template with the masked message placed; it fails exactly when the message does not fit |
| Encoder.PlacedIsCandidate | qrcode/source/class/qrcode/QRCode.js:640-678 | the placement result is the candidate symbol of the mask |
| Encoder.FirstMinimum | qrcode/source/class/qrcode/QRCode.js:548-558 | the kept index has the lowest score, and every earlier index scores strictly more |
| Encoder.FirstMinimumUnique | qrcode/source/class/qrcode/QRCode.js:548-558 | that index is the only one with both properties |
| Encoder.TryMask | qrcode/source/class/qrcode/QRCode.js:550-557 | one pass keeps the first lowest-scoring candidate of the masks tried so far |
| Encoder.ChooseMask | qrcode/source/class/qrcode/QRCode.js:548-558 | the loop keeps the candidate of the first lowest-scoring mask |
| Encoder.FillChosen | qrcode/source/class/qrcode/QRCode.js:560-561 | the chosen candidate gains its format and version information |
| Encoder.EncodeMatrix | qrcode/source/class/qrcode/QRCode.js:548-561 | the symbol is the best mask's candidate with the reserved areas filled, or the internal error when the message does not fit |
| Encoder.ReservedTemplate | qrcode/source/class/qrcode/QRCode.js:585-614 | no reserved cell is free for placement |
| Encoder.CandidateBit | qrcode/source/class/qrcode/QRCode.js:640-678 | free cell t of the candidate holds message bit t under the mask |
| Encoder.ReadBack | qrcode/source/class/qrcode/QRCode.js:548-561 | in the finished symbol, unmasking free cell t gives back message bit t |
| Penalty.LineRuns | qrcode/source/class/qrcode/QRCode.js:886-905 | the run loop over one row or column scores L - 2 for every maximal run of L >= 5 |
| Penalty.LinesPenalty | qrcode/source/class/qrcode/QRCode.js:886-927 | one run loop scores every row, or every column |
| Penalty.RunsPenalty | qrcode/source/class/qrcode/QRCode.js:886-927 | the first two loops score rule 1 over rows and columns |
| Penalty.UniformLine | qrcode/source/class/qrcode/QRCode.js:886-905 | a line of one colour scores its length less 2 |
| Penalty.RunScoreInverse | qrcode/source/class/qrcode/QRCode.js:886-905 | rule 1 does not depend on which colour is which |
| Penalty.BlocksInRow | qrcode/source/class/qrcode/QRCode.js:931-940 | one row scores 3 per one-colour 2 x 2 block ending in it |
| Penalty.BlocksPenalty | qrcode/source/class/qrcode/QRCode.js:930-941 | the block loop scores 3 per one-colour 2 x 2 block |
| Penalty.MatchesAt | qrcode/source/class/qrcode/QRCode.js:950-954 | the k loop finds the 1:1:3:1:1 sequence exactly when it starts there |
| Penalty.LightRun | qrcode/source/class/qrcode/QRCode.js:957-964 | the four tests see four light modules from k on |
| Penalty.LineFinder | qrcode/source/class/qrcode/QRCode.js:949-966 | 40 for the sequence with four light modules before it, or else after it when i + 11 < size |
| Penalty.FindersAt | qrcode/source/class/qrcode/QRCode.js:947-987 | one offset scores every row and column |
| Penalty.FindersLine | qrcode/source/class/qrcode/QRCode.js:947-987 | one pass of the j loop adds the finder scores of row j and column j at offset i to those of the lines before |
| Penalty.FindersPenalty | qrcode/source/class/qrcode/QRCode.js:944-989 | the finder-like scan scores every offset from 0 to size - 7 |
| Penalty.FinderAtEdge | qrcode/source/class/qrcode/QRCode.js:961 | a sequence followed by four light modules that end at the edge, with none before it, scores nothing |
| Penalty.DarkInRow | qrcode/source/class/qrcode/QRCode.js:994-998 | the count of dark modules in one row |
| Penalty.BalancePenalty | qrcode/source/class/qrcode/QRCode.js:992-1001 | rule 4 is 10 * floor(10 * abs(1 - 2s / len)) for s dark modules out of len |
| Penalty.BalanceFree | qrcode/source/class/qrcode/QRCode.js:1000-1001 | rule 4 is zero iff the dark proportion is strictly between 45% and 55% |
| Penalty.BalanceSymmetric | qrcode/source/class/qrcode/QRCode.js:1000-1001 | rule 4 is symmetric in dark and light |
| Penalty.SwapColours | qrcode/source/class/qrcode/QRCode.js:880-1004 | swapping dark and light keeps rules 1, 2 and 4 |
| Penalty.PenaltyScore | qrcode/source/class/qrcode/QRCode.js:880-1004 | the score is the sum of the four rules |
| DataCodewords.StreamBitsLength | qrcode/source/class/qrcode/QRCode.js:479-505 | the segments' bits are as many as the version search sums |
| DataCodewords.AppendTerminator | qrcode/source/class/qrcode/QRCode.js:506-509 | four zero bits are appended only when they fit the capacity |
| DataCodewords.AlignAsWritten | qrcode/source/class/qrcode/QRCode.js:510-513 | as written: `8 - (len & 0x0f)` zero bits, nothing when that is not positive |
| DataCodewords.AlignedAsWrittenShape | qrcode/source/class/qrcode/QRCode.js:510-513 | as written, the result is byte-aligned iff len mod 16 <= 8; from 9 to 15 it is unchanged |
| DataCodewords.Align | qrcode/source/class/qrcode/QRCode.js:510-513 | corrected: zero bits up to the next byte boundary |
| DataCodewords.AlignedShape | qrcode/source/class/qrcode/QRCode.js:510-513 | corrected: the result is byte-aligned, fewer than 8 bits longer, and the added bits are zero |
| DataCodewords.PadPatternBytes | qrcode/source/class/qrcode/QRCode.js:516 | the 16-bit pad word 0xEC11 is the bytes 0xEC and 0x11 |
| DataCodewords.AppendPadding | qrcode/source/class/qrcode/QRCode.js:514-517 | the pad loop appends capacity - length bits of the repeating pad word |
| DataCodewords.PadFillAt | qrcode/source/class/qrcode/QRCode.js:514-517 | pad bit k is bit k mod 16 of 0xEC11 |
| DataCodewords.PadAsWritten | qrcode/source/class/qrcode/QRCode.js:506-517 | terminator, alignment as written, then padding |
| DataCodewords.Pad | qrcode/source/class/qrcode/QRCode.js:506-517 | terminator, byte alignment, then padding |
| DataCodewords.PaddedLength | qrcode/source/class/qrcode/QRCode.js:506-517 | both versions fill the capacity exactly |
| DataCodewords.PaddedShape | qrcode/source/class/qrcode/QRCode.js:506-517 | corrected padding keeps the stream, then zeros to a byte boundary, then whole 0xEC 0x11 bytes |
| DataCodewords.UnalignedPadding | qrcode/source/class/qrcode/QRCode.js:510-517 | as written, a 40-bit stream at 128 bits is left at 44 bits after the terminator, and byte 5 becomes 0x0E |
| DataCodewords.AlignedPadding | qrcode/source/class/qrcode/QRCode.js:510-517 | corrected, the same stream reaches 48 bits, byte 5 is 0 and byte 6 is 0xEC |
| Blocks.ShortFacts | qrcode/source/class/qrcode/QRCode.js:521-522 | between 1 and blockCnt blocks are short, and the blocks add up to the data |
| Blocks.BlockStartEnd | qrcode/source/class/qrcode/QRCode.js:528-545 | the blocks cover the data codewords exactly |
| Blocks.DataPosOwner | qrcode/source/class/qrcode/QRCode.js:535-540 | data byte j of block i goes to a message position in the data part, which maps back to block i and offset j |
| Blocks.DataOwnerInverse | qrcode/source/class/qrcode/QRCode.js:535-540 | every data position of the message is filled by exactly one block's byte |
| Blocks.EcPosOwner | qrcode/source/class/qrcode/QRCode.js:541-543 | error correction byte j of block i goes to `dataBytes + i + j * blockCnt` in the error correction part |
| Blocks.EcOwnerInverse | qrcode/source/class/qrcode/QRCode.js:541-543 | every error correction position is filled by exactly one block's byte |
| Blocks.DataBlock | qrcode/source/class/qrcode/QRCode.js:531-532 | block i has the short or long block length |
| Blocks.InterleavedData | qrcode/source/class/qrcode/QRCode.js:535-540 | the message holds every data byte at its interleaved position |
| Blocks.InterleavedEc | qrcode/source/class/qrcode/QRCode.js:541-543 | the message holds every error correction byte at its interleaved position |
| Blocks.BlockCodeword | qrcode/source/class/qrcode/QRCode.js:530-532 | each block with its error correction bytes vanishes at the generator's roots |
| Blocks.PlaceData | qrcode/source/class/qrcode/QRCode.js:535-540 | the data loop of block i fills its data positions |
| Blocks.PlaceEc | qrcode/source/class/qrcode/QRCode.js:541-543 | the error correction loop of block i fills its positions |
| Blocks.EncodeBlock | qrcode/source/class/qrcode/QRCode.js:529-545 | one pass of the block loop fills all of block i's positions |
| Blocks.BlockEc | qrcode/source/class/qrcode/QRCode.js:531-533 | the error correction codewords of block i are the remainder of its data codewords by the generator |
| Blocks.AssembleMessage | qrcode/source/class/qrcode/QRCode.js:519-546 | the block loop builds the interleaved message of data and error correction codewords |
| QrCodes.LevelIndex | qrcode/source/class/qrcode/QRCode.js:372-381 | L is 1, M is 0, Q is 3 and H is 2, all below 4 |
| QrCodes.LevelIndexInjective | qrcode/source/class/qrcode/QRCode.js:372-381 | different levels have different indices |
| QrCodes.QRCode.constructor | qrcode/source/class/qrcode/QRCode.js:44-83 | one segment for a non-empty string and none otherwise; the level given or M; no symbol |
| QrCodes.QRCode.AddSegment | qrcode/source/class/qrcode/QRCode.js:357-360 | one more segment of the string, same level, symbol discarded |
| QrCodes.QRCode.Clear | qrcode/source/class/qrcode/QRCode.js:366-369 | no segments, same level, symbol discarded |
| QrCodes.QRCode.SetEcLevel | qrcode/source/class/qrcode/QRCode.js:335 | the property accepts exactly L, M, Q and H; a new level discards the symbol; a rejected or unchanged level leaves every field unchanged; a cached symbol stays the encoding of the segments at the level |
| QrCodes.SegmentsLength | qrcode/source/class/qrcode/QRCode.js:480-484 | one pass sets every segment to the version and sums their bit stream lengths |
| QrCodes.MeasureAt | qrcode/source/class/qrcode/QRCode.js:482-483 | segment i takes the widths of the version and reports its bit stream length; the other segments keep their values |
| QrCodes.QRCode.FindVersion | qrcode/source/class/qrcode/QRCode.js:479-496 | a version is found iff some version holds the segments, and it is the least one |
| QrCodes.QRCode.TryVersion | qrcode/source/class/qrcode/QRCode.js:480-486 | one version of the search sets every segment to it and answers whether their bit stream length fits its data capacity, without changing the segments' values |
| QrCodes.EncodeSegments | qrcode/source/class/qrcode/QRCode.js:502-505 | the buffer holds the segments' bit streams in order |
| QrCodes.EncodeNext | qrcode/source/class/qrcode/QRCode.js:503-505 | one pass appends segment i, so the buffer holds the bit streams of the segments up to and including i |
| QrCodes.WholeBytes | qrcode/source/class/qrcode/QRCode.js:531-532 | a whole-byte bit string reads back exactly from the bytes getDataArray returns |
| QrCodes.BytesBitsInjective | qrcode/source/class/qrcode/QRCode.js:501-517 | the data codewords are determined by the padded bit stream |
| QrCodes.DataBytes | qrcode/source/class/qrcode/QRCode.js:501-517 | the data codewords are dataBytes bytes whose bits are the segments' stream padded as the code does it, with its mod-16 alignment test |
| QrCodes.PaddedBytes | qrcode/source/class/qrcode/QRCode.js:506-517 | after the terminator, the written alignment and the pad loop, getDataArray returns n bytes whose bits are the stream padded as written |
| QrCodes.MessageOf | qrcode/source/class/qrcode/QRCode.js:519-546 | the message is the interleaving of the data and error correction codewords of every block |
| QrCodes.Codewords | qrcode/source/class/qrcode/QRCode.js:498-546 | the codewords and message are those the least version and the stream padded as written define |
| QrCodes.TwoLettersFit | qrcode/source/class/qrcode/QRCode.js:44-54 | `new QRCode("a")` and `addSegment("b")` give two one-byte segments whose stream is 40 bits, and version 1 is the least version at every level |
| QrCodes.TwoLettersAsWritten | qrcode/source/class/qrcode/QRCode.js:498-517 | encoding those two segments at level M gives data codeword 5 the value 0x0E, where aligned padding gives 0 |
| QrCodes.VersionOneFits | qrcode/source/class/qrcode/QRCode.js:671-675 | at version 1 the message always fits the free cells, so the internal error cannot occur |
| Capacity.OpenCellsFree | qrcode/source/class/qrcode/QRCode.js:567-631 | the five rectangles of a version-1 symbol that no function pattern covers are free cells of the placement path |
| Capacity.OpenCellsCard | qrcode/source/class/qrcode/QRCode.js:567-631 | those rectangles hold 208 cells |
| Capacity.VersionOneRoom | qrcode/source/class/qrcode/QRCode.js:640-678 | a version-1 symbol has at least 8 * 26 free cells, one per bit of its codewords |
| QrCodes.Encode | qrcode/source/class/qrcode/QRCode.js:498-561 | codewords, message and, when the message fits, the finished symbol of the best mask; at version 1 it always fits |
| QrCodes.QRCode.EncodeAt | qrcode/source/class/qrcode/QRCode.js:498-561 | version and size are set; the symbol is encoded, or the internal error leaves the old one; at version 1 it always succeeds |
| QrCodes.QRCode.Store | qrcode/source/class/qrcode/QRCode.js:498-499 | version and size are those of the encoding; with a symbol that fits it becomes the stored, encoded symbol, otherwise the internal error keeps the old one |
| QrCodes.QRCode.EncodeSymbol | qrcode/source/class/qrcode/QRCode.js:471-562 | "too long" iff no version holds the segments; success leaves a symbol encoded from the segments at the level; segments that fit version 1 always succeed |
| QrCodes.QRCode.GetSymbolSize | qrcode/source/class/qrcode/QRCode.js:389-395 | a cached symbol is returned untouched with its size; otherwise the symbol is encoded; every success is the encoded symbol's 17 + 4 * version; failure is "too long" iff no version holds the segments, and never happens when version 1 holds them |
| QrCodes.QRCode.GetImageSize | qrcode/source/class/qrcode/QRCode.js:407-410 | scale (2 when 0) times the symbol size plus the two 4-module margins; a cached symbol is left untouched; failures are those of `getSymbolSize` |

## Left out

- `draw` (QRCode.js:431-465) paints the symbol on a caller-supplied canvas
  context. It is I/O and is not modelled. Only the module grid and the
  geometry `getSymbolSize` and `getImageSize` report are modelled.
- qooxdoo's class, property and `this.base` machinery is not modelled.
  The `ecLevel` property's `check` and `apply` are folded into
  `QrCodes.QRCode.SetEcLevel`. A rejected value is an `Error` outcome, where
  the library raises an exception.
- `QrCodes.QRCode.EncodeSymbol`: the internal error "too many data" is
  proved impossible only for version 1, whose free cells are counted. For
  versions 2 to 40 the model keeps the error path and does not prove that
  it is unreachable.
- Exceptions become `Outcome` or `Result` values. This covers the "too
  long" error of `__encodeSymbol` and the internal error of `__buildSymbol`.
  `getSymbolSize` and `getImageSize` pass them on as `Failure`.
- The lazy static tables are built once per class. This covers the GF(256)
  tables and `__alphaNumSet`. The model computes them where they are first
  needed: the tables in the `QRCode` constructor, and the alphanumeric set as
  a function.
- Strings are sequences of UTF-16 code units, as `charCodeAt` sees them. The
  code units are integers from 0 to 0xFFFF.
- Arrays created with holes (`Array(n)`) are modelled as zero-filled. The
  `^=` and `|=` operators read `undefined` as 0.
- `BitBuffers.BitBuffer.constructor`: the library computes a byte count from
  its `len` argument and then ignores it. The model takes no argument.
- `BitBuffers.BitBuffer.Append`: requires the field length to be at most 32
  bits. Wider fields, where `>>` in JavaScript works modulo 32, are not
  modelled. The library only appends fields of 16 bits or fewer.
- `Penalty.BalancePenalty`: computes rule 4 in exact rational arithmetic.
  The library uses double-precision floating point, so the two can differ by
  one step of ten points. For example, 250 dark modules out of 625 give 20
  exactly, but 10 in doubles, since 1 - 0.8 is just below 0.2.
- `Segments.Segment.Encode`: models the evident intent rather than the
  written code; see Findings. The written code is `Segments.EncodeAsWritten`.
- `Gf256.Log` and the field multiplication `Gf256.Mul` are ghost reference
  definitions. The program itself multiplies through the tables
  (`Gf256.RsMul`).
- The Kanji and ECI modes are not implemented by the library. The Kanji
  column of the character count table is not modelled.

## Findings

| source | as written | input that shows it | evidently intended | confidence | as-written member | corrected member |
|---|---|---|---|---|---|---|
| qrcode/source/class/qrcode/Segment.js:178 | numeric and alphanumeric `encode` call `this.__data.charCodeAt(i)` (lines 178 and 198), but `__data` is an array of numbers, so the call throws a TypeError after the mode and count fields are written | the string "12345" (numeric mode, non-empty) | read the byte `this.__data[i]` and encode the digits in 10-bit groups (31 bits for "12345") | not executed | Segments.EncodeAsWritten, Segments.NumericStringThrows | Segments.Segment.Encode, Segments.SegmentBitsLength |
| qrcode/source/class/qrcode/QRCode.js:510-513 | the byte alignment tests `len & 0x0f` and appends `8 - (len & 0x0f)` bits, which is negative (nothing appended) when len mod 16 is 9 to 15, so the pad bytes start mid-byte | `new QRCode("a")` then `addSegment("b")` at level M: two one-byte segments make 40 bits, the terminator makes 44, 44 & 15 is 12 so nothing is appended, and data codeword 5 becomes 0x0E instead of 0x00 | pad with zero bits to the next multiple of 8 (`len & 0x07`), so that the pad bytes are 0xEC and 0x11 | not executed | DataCodewords.AlignAsWritten, DataCodewords.UnalignedPadding, QrCodes.TwoLettersAsWritten | DataCodewords.Align, DataCodewords.AlignedShape, DataCodewords.AlignedPadding |
