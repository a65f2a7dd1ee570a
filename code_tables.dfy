/**
 * The symbol capacity and layout tables of the encoder: `__codeProps`, one
 * row per error correction level and version, and `__alignPatternPositions`
 * (Table 9 and Annex E of ISO/IEC 18004:2015). Each table is a lookup
 * function on the version, one case per row, in the order of the source.
 */
module CodeTables {
  /** A row of `__codeProps`: total data codewords, EC codewords per block, block count. */
  datatype CodeProps = CodeProps(dataBytes: nat, ecBytes: nat, blocks: nat)

  /** The highest version. */
  const MAX_VERSION: nat := 40

  /** The symbol size of a version: 17 + 4v modules along each side. */
  function SymbolSize(version: nat): nat {
    17 + 4 * version
  }

  /** The rows of `__codeProps` for level M (level index 0). */
  function LevelM(version: nat): CodeProps
    requires 1 <= version <= MAX_VERSION
  {
    if version <= 10 then
      if version == 1 then CodeProps(16, 10, 1)
      else if version == 2 then CodeProps(28, 16, 1)
      else if version == 3 then CodeProps(44, 26, 1)
      else if version == 4 then CodeProps(64, 18, 2)
      else if version == 5 then CodeProps(86, 24, 2)
      else if version == 6 then CodeProps(108, 16, 4)
      else if version == 7 then CodeProps(124, 18, 4)
      else if version == 8 then CodeProps(154, 22, 4)
      else if version == 9 then CodeProps(182, 22, 5)
      else CodeProps(216, 26, 5)
    else if version <= 20 then
      if version == 11 then CodeProps(254, 30, 5)
      else if version == 12 then CodeProps(290, 22, 8)
      else if version == 13 then CodeProps(334, 22, 9)
      else if version == 14 then CodeProps(365, 24, 9)
      else if version == 15 then CodeProps(415, 24, 10)
      else if version == 16 then CodeProps(453, 28, 10)
      else if version == 17 then CodeProps(507, 28, 11)
      else if version == 18 then CodeProps(563, 26, 13)
      else if version == 19 then CodeProps(627, 26, 14)
      else CodeProps(669, 26, 16)
    else if version <= 30 then
      if version == 21 then CodeProps(714, 26, 17)
      else if version == 22 then CodeProps(782, 28, 17)
      else if version == 23 then CodeProps(860, 28, 18)
      else if version == 24 then CodeProps(914, 28, 20)
      else if version == 25 then CodeProps(1000, 28, 21)
      else if version == 26 then CodeProps(1062, 28, 23)
      else if version == 27 then CodeProps(1128, 28, 25)
      else if version == 28 then CodeProps(1193, 28, 26)
      else if version == 29 then CodeProps(1267, 28, 28)
      else CodeProps(1373, 28, 29)
    else
      if version == 31 then CodeProps(1455, 28, 31)
      else if version == 32 then CodeProps(1541, 28, 33)
      else if version == 33 then CodeProps(1631, 28, 35)
      else if version == 34 then CodeProps(1725, 28, 37)
      else if version == 35 then CodeProps(1812, 28, 38)
      else if version == 36 then CodeProps(1914, 28, 40)
      else if version == 37 then CodeProps(1992, 28, 43)
      else if version == 38 then CodeProps(2102, 28, 45)
      else if version == 39 then CodeProps(2216, 28, 47)
      else CodeProps(2334, 28, 49)
  }

  /** The rows of `__codeProps` for level L (level index 1). */
  function LevelL(version: nat): CodeProps
    requires 1 <= version <= MAX_VERSION
  {
    if version <= 10 then
      if version == 1 then CodeProps(19, 7, 1)
      else if version == 2 then CodeProps(34, 10, 1)
      else if version == 3 then CodeProps(55, 15, 1)
      else if version == 4 then CodeProps(80, 20, 1)
      else if version == 5 then CodeProps(108, 26, 1)
      else if version == 6 then CodeProps(136, 18, 2)
      else if version == 7 then CodeProps(156, 20, 2)
      else if version == 8 then CodeProps(194, 24, 2)
      else if version == 9 then CodeProps(232, 30, 2)
      else CodeProps(274, 18, 4)
    else if version <= 20 then
      if version == 11 then CodeProps(324, 20, 4)
      else if version == 12 then CodeProps(370, 24, 4)
      else if version == 13 then CodeProps(428, 26, 4)
      else if version == 14 then CodeProps(461, 30, 4)
      else if version == 15 then CodeProps(523, 22, 6)
      else if version == 16 then CodeProps(589, 24, 6)
      else if version == 17 then CodeProps(647, 28, 6)
      else if version == 18 then CodeProps(721, 30, 6)
      else if version == 19 then CodeProps(795, 28, 7)
      else CodeProps(861, 28, 8)
    else if version <= 30 then
      if version == 21 then CodeProps(932, 28, 8)
      else if version == 22 then CodeProps(1006, 28, 9)
      else if version == 23 then CodeProps(1094, 30, 9)
      else if version == 24 then CodeProps(1174, 30, 10)
      else if version == 25 then CodeProps(1276, 26, 12)
      else if version == 26 then CodeProps(1370, 28, 12)
      else if version == 27 then CodeProps(1468, 30, 12)
      else if version == 28 then CodeProps(1531, 30, 13)
      else if version == 29 then CodeProps(1631, 30, 14)
      else CodeProps(1735, 30, 15)
    else
      if version == 31 then CodeProps(1843, 30, 16)
      else if version == 32 then CodeProps(1955, 30, 17)
      else if version == 33 then CodeProps(2071, 30, 18)
      else if version == 34 then CodeProps(2191, 30, 19)
      else if version == 35 then CodeProps(2306, 30, 19)
      else if version == 36 then CodeProps(2434, 30, 20)
      else if version == 37 then CodeProps(2566, 30, 21)
      else if version == 38 then CodeProps(2702, 30, 22)
      else if version == 39 then CodeProps(2812, 30, 24)
      else CodeProps(2956, 30, 25)
  }

  /** The rows of `__codeProps` for level H (level index 2). */
  function LevelH(version: nat): CodeProps
    requires 1 <= version <= MAX_VERSION
  {
    if version <= 10 then
      if version == 1 then CodeProps(9, 17, 1)
      else if version == 2 then CodeProps(16, 28, 1)
      else if version == 3 then CodeProps(26, 22, 2)
      else if version == 4 then CodeProps(36, 16, 4)
      else if version == 5 then CodeProps(46, 22, 4)
      else if version == 6 then CodeProps(60, 28, 4)
      else if version == 7 then CodeProps(66, 26, 5)
      else if version == 8 then CodeProps(86, 26, 6)
      else if version == 9 then CodeProps(100, 24, 8)
      else CodeProps(122, 28, 8)
    else if version <= 20 then
      if version == 11 then CodeProps(140, 24, 11)
      else if version == 12 then CodeProps(158, 28, 11)
      else if version == 13 then CodeProps(180, 22, 16)
      else if version == 14 then CodeProps(197, 24, 16)
      else if version == 15 then CodeProps(223, 24, 18)
      else if version == 16 then CodeProps(253, 30, 16)
      else if version == 17 then CodeProps(283, 28, 19)
      else if version == 18 then CodeProps(313, 28, 21)
      else if version == 19 then CodeProps(341, 26, 25)
      else CodeProps(385, 28, 25)
    else if version <= 30 then
      if version == 21 then CodeProps(406, 30, 25)
      else if version == 22 then CodeProps(442, 24, 34)
      else if version == 23 then CodeProps(464, 30, 30)
      else if version == 24 then CodeProps(514, 30, 32)
      else if version == 25 then CodeProps(538, 30, 35)
      else if version == 26 then CodeProps(596, 30, 37)
      else if version == 27 then CodeProps(628, 30, 40)
      else if version == 28 then CodeProps(661, 30, 42)
      else if version == 29 then CodeProps(701, 30, 45)
      else CodeProps(745, 30, 48)
    else
      if version == 31 then CodeProps(793, 30, 51)
      else if version == 32 then CodeProps(845, 30, 54)
      else if version == 33 then CodeProps(901, 30, 57)
      else if version == 34 then CodeProps(961, 30, 60)
      else if version == 35 then CodeProps(986, 30, 63)
      else if version == 36 then CodeProps(1054, 30, 66)
      else if version == 37 then CodeProps(1096, 30, 70)
      else if version == 38 then CodeProps(1142, 30, 74)
      else if version == 39 then CodeProps(1222, 30, 77)
      else CodeProps(1276, 30, 81)
  }

  /** The rows of `__codeProps` for level Q (level index 3). */
  function LevelQ(version: nat): CodeProps
    requires 1 <= version <= MAX_VERSION
  {
    if version <= 10 then
      if version == 1 then CodeProps(13, 13, 1)
      else if version == 2 then CodeProps(22, 22, 1)
      else if version == 3 then CodeProps(34, 18, 2)
      else if version == 4 then CodeProps(48, 26, 2)
      else if version == 5 then CodeProps(62, 18, 4)
      else if version == 6 then CodeProps(76, 24, 4)
      else if version == 7 then CodeProps(88, 18, 6)
      else if version == 8 then CodeProps(110, 22, 6)
      else if version == 9 then CodeProps(132, 20, 8)
      else CodeProps(154, 24, 8)
    else if version <= 20 then
      if version == 11 then CodeProps(180, 28, 8)
      else if version == 12 then CodeProps(206, 26, 10)
      else if version == 13 then CodeProps(244, 24, 12)
      else if version == 14 then CodeProps(261, 20, 16)
      else if version == 15 then CodeProps(295, 30, 12)
      else if version == 16 then CodeProps(325, 24, 17)
      else if version == 17 then CodeProps(367, 28, 16)
      else if version == 18 then CodeProps(397, 28, 18)
      else if version == 19 then CodeProps(445, 26, 21)
      else CodeProps(485, 30, 20)
    else if version <= 30 then
      if version == 21 then CodeProps(512, 28, 23)
      else if version == 22 then CodeProps(568, 30, 23)
      else if version == 23 then CodeProps(614, 30, 25)
      else if version == 24 then CodeProps(664, 30, 27)
      else if version == 25 then CodeProps(718, 30, 29)
      else if version == 26 then CodeProps(754, 28, 34)
      else if version == 27 then CodeProps(808, 30, 34)
      else if version == 28 then CodeProps(871, 30, 35)
      else if version == 29 then CodeProps(911, 30, 38)
      else CodeProps(985, 30, 40)
    else
      if version == 31 then CodeProps(1033, 30, 43)
      else if version == 32 then CodeProps(1115, 30, 45)
      else if version == 33 then CodeProps(1171, 30, 48)
      else if version == 34 then CodeProps(1231, 30, 51)
      else if version == 35 then CodeProps(1286, 30, 53)
      else if version == 36 then CodeProps(1354, 30, 56)
      else if version == 37 then CodeProps(1426, 30, 59)
      else if version == 38 then CodeProps(1502, 30, 62)
      else if version == 39 then CodeProps(1582, 30, 65)
      else CodeProps(1666, 30, 68)
  }

  /**
   * `__codeProps[ec][version - 1]`. The level index is the encoder's: 0 is M,
   * 1 is L, 2 is H and 3 is Q, the value of the two format bits for the level.
   */
  function Props(ec: nat, version: nat): CodeProps
    requires ec < 4 && 1 <= version <= MAX_VERSION
  {
    if ec == 0 then LevelM(version)
    else if ec == 1 then LevelL(version)
    else if ec == 2 then LevelH(version)
    else LevelQ(version)
  }

  /**
   * `__alignPatternPositions[version - 2]`: the row and column coordinates of
   * the alignment pattern centres of a version from 2 on.
   */
  function AlignPositions(version: nat): seq<nat>
    requires 2 <= version <= MAX_VERSION
  {
    if version <= 11 then
      if version == 2 then [6, 18]
      else if version == 3 then [6, 22]
      else if version == 4 then [6, 26]
      else if version == 5 then [6, 30]
      else if version == 6 then [6, 34]
      else if version == 7 then [6, 22, 38]
      else if version == 8 then [6, 24, 42]
      else if version == 9 then [6, 26, 46]
      else if version == 10 then [6, 28, 50]
      else [6, 30, 54]
    else if version <= 21 then
      if version == 12 then [6, 32, 58]
      else if version == 13 then [6, 34, 62]
      else if version == 14 then [6, 26, 46, 66]
      else if version == 15 then [6, 26, 48, 70]
      else if version == 16 then [6, 26, 50, 74]
      else if version == 17 then [6, 30, 54, 78]
      else if version == 18 then [6, 30, 56, 82]
      else if version == 19 then [6, 30, 58, 86]
      else if version == 20 then [6, 34, 62, 90]
      else [6, 28, 50, 72, 94]
    else if version <= 31 then
      if version == 22 then [6, 26, 50, 74, 98]
      else if version == 23 then [6, 30, 54, 78, 102]
      else if version == 24 then [6, 28, 54, 80, 106]
      else if version == 25 then [6, 32, 58, 84, 110]
      else if version == 26 then [6, 30, 58, 86, 114]
      else if version == 27 then [6, 34, 62, 90, 118]
      else if version == 28 then [6, 26, 50, 74, 98, 122]
      else if version == 29 then [6, 30, 54, 78, 102, 126]
      else if version == 30 then [6, 26, 52, 78, 104, 130]
      else [6, 30, 56, 82, 108, 134]
    else
      if version == 32 then [6, 34, 60, 86, 112, 138]
      else if version == 33 then [6, 30, 58, 86, 114, 142]
      else if version == 34 then [6, 34, 62, 90, 118, 146]
      else if version == 35 then [6, 30, 54, 78, 102, 126, 150]
      else if version == 36 then [6, 24, 50, 76, 102, 128, 154]
      else if version == 37 then [6, 28, 54, 80, 106, 132, 158]
      else if version == 38 then [6, 32, 58, 84, 110, 136, 162]
      else if version == 39 then [6, 26, 54, 82, 110, 138, 166]
      else [6, 30, 58, 86, 114, 142, 170]
  }

  /**
   * The modules of a version-v symbol left for codewords once the function
   * patterns are taken out: the whole square, less the finder patterns with
   * their separators and format areas, the timing patterns, the alignment
   * patterns and, from version 7, the two version areas.
   */
  function RawModules(v: nat): int
    requires 1 <= v <= MAX_VERSION
  {
    var n := v / 7 + 2;
    (16 * v + 128) * v + 64
      - (if v >= 2 then (25 * n - 10) * n - 55 else 0)
      - (if v >= 7 then 36 else 0)
  }

  /** The codewords a version-v symbol holds; the remaining bits are left over. */
  function TotalCodewords(v: nat): int
    requires 1 <= v <= MAX_VERSION
  {
    RawModules(v) / 8
  }

  /** What each row satisfies: it fills the symbol, and its blocks are usable. */
  ghost predicate RowOk(p: CodeProps, version: nat)
    requires 1 <= version <= MAX_VERSION
  {
    && p.dataBytes + p.ecBytes * p.blocks == TotalCodewords(version)
    && 1 <= p.blocks <= p.dataBytes
    && 7 <= p.ecBytes <= 30
  }

  lemma LevelMRows1To10()
    ensures RowOk(LevelM(1), 1) && RowOk(LevelM(2), 2) && RowOk(LevelM(3), 3) && RowOk(LevelM(4), 4) && RowOk(LevelM(5), 5)
    ensures RowOk(LevelM(6), 6) && RowOk(LevelM(7), 7) && RowOk(LevelM(8), 8) && RowOk(LevelM(9), 9) && RowOk(LevelM(10), 10)
  {
  }

  lemma LevelMRows11To20()
    ensures RowOk(LevelM(11), 11) && RowOk(LevelM(12), 12) && RowOk(LevelM(13), 13) && RowOk(LevelM(14), 14) && RowOk(LevelM(15), 15)
    ensures RowOk(LevelM(16), 16) && RowOk(LevelM(17), 17) && RowOk(LevelM(18), 18) && RowOk(LevelM(19), 19) && RowOk(LevelM(20), 20)
  {
  }

  lemma LevelMRows21To30()
    ensures RowOk(LevelM(21), 21) && RowOk(LevelM(22), 22) && RowOk(LevelM(23), 23) && RowOk(LevelM(24), 24) && RowOk(LevelM(25), 25)
    ensures RowOk(LevelM(26), 26) && RowOk(LevelM(27), 27) && RowOk(LevelM(28), 28) && RowOk(LevelM(29), 29) && RowOk(LevelM(30), 30)
  {
  }

  lemma LevelMRows31To40()
    ensures RowOk(LevelM(31), 31) && RowOk(LevelM(32), 32) && RowOk(LevelM(33), 33) && RowOk(LevelM(34), 34) && RowOk(LevelM(35), 35)
    ensures RowOk(LevelM(36), 36) && RowOk(LevelM(37), 37) && RowOk(LevelM(38), 38) && RowOk(LevelM(39), 39) && RowOk(LevelM(40), 40)
  {
  }

  /** Every row of level M. */
  lemma LevelMRowsOk()
    ensures forall v :: 1 <= v <= MAX_VERSION ==> RowOk(LevelM(v), v)
  {
    LevelMRows1To10();
    LevelMRows11To20();
    LevelMRows21To30();
    LevelMRows31To40();
    forall v | 1 <= v <= MAX_VERSION
      ensures RowOk(LevelM(v), v)
    {
      assert Versions(v);
    }
  }

  lemma LevelLRows1To10()
    ensures RowOk(LevelL(1), 1) && RowOk(LevelL(2), 2) && RowOk(LevelL(3), 3) && RowOk(LevelL(4), 4) && RowOk(LevelL(5), 5)
    ensures RowOk(LevelL(6), 6) && RowOk(LevelL(7), 7) && RowOk(LevelL(8), 8) && RowOk(LevelL(9), 9) && RowOk(LevelL(10), 10)
  {
  }

  lemma LevelLRows11To20()
    ensures RowOk(LevelL(11), 11) && RowOk(LevelL(12), 12) && RowOk(LevelL(13), 13) && RowOk(LevelL(14), 14) && RowOk(LevelL(15), 15)
    ensures RowOk(LevelL(16), 16) && RowOk(LevelL(17), 17) && RowOk(LevelL(18), 18) && RowOk(LevelL(19), 19) && RowOk(LevelL(20), 20)
  {
  }

  lemma LevelLRows21To30()
    ensures RowOk(LevelL(21), 21) && RowOk(LevelL(22), 22) && RowOk(LevelL(23), 23) && RowOk(LevelL(24), 24) && RowOk(LevelL(25), 25)
    ensures RowOk(LevelL(26), 26) && RowOk(LevelL(27), 27) && RowOk(LevelL(28), 28) && RowOk(LevelL(29), 29) && RowOk(LevelL(30), 30)
  {
  }

  lemma LevelLRows31To40()
    ensures RowOk(LevelL(31), 31) && RowOk(LevelL(32), 32) && RowOk(LevelL(33), 33) && RowOk(LevelL(34), 34) && RowOk(LevelL(35), 35)
    ensures RowOk(LevelL(36), 36) && RowOk(LevelL(37), 37) && RowOk(LevelL(38), 38) && RowOk(LevelL(39), 39) && RowOk(LevelL(40), 40)
  {
  }

  /** Every row of level L. */
  lemma LevelLRowsOk()
    ensures forall v :: 1 <= v <= MAX_VERSION ==> RowOk(LevelL(v), v)
  {
    LevelLRows1To10();
    LevelLRows11To20();
    LevelLRows21To30();
    LevelLRows31To40();
    forall v | 1 <= v <= MAX_VERSION
      ensures RowOk(LevelL(v), v)
    {
      assert Versions(v);
    }
  }

  lemma LevelHRows1To10()
    ensures RowOk(LevelH(1), 1) && RowOk(LevelH(2), 2) && RowOk(LevelH(3), 3) && RowOk(LevelH(4), 4) && RowOk(LevelH(5), 5)
    ensures RowOk(LevelH(6), 6) && RowOk(LevelH(7), 7) && RowOk(LevelH(8), 8) && RowOk(LevelH(9), 9) && RowOk(LevelH(10), 10)
  {
  }

  lemma LevelHRows11To20()
    ensures RowOk(LevelH(11), 11) && RowOk(LevelH(12), 12) && RowOk(LevelH(13), 13) && RowOk(LevelH(14), 14) && RowOk(LevelH(15), 15)
    ensures RowOk(LevelH(16), 16) && RowOk(LevelH(17), 17) && RowOk(LevelH(18), 18) && RowOk(LevelH(19), 19) && RowOk(LevelH(20), 20)
  {
  }

  lemma LevelHRows21To30()
    ensures RowOk(LevelH(21), 21) && RowOk(LevelH(22), 22) && RowOk(LevelH(23), 23) && RowOk(LevelH(24), 24) && RowOk(LevelH(25), 25)
    ensures RowOk(LevelH(26), 26) && RowOk(LevelH(27), 27) && RowOk(LevelH(28), 28) && RowOk(LevelH(29), 29) && RowOk(LevelH(30), 30)
  {
  }

  lemma LevelHRows31To40()
    ensures RowOk(LevelH(31), 31) && RowOk(LevelH(32), 32) && RowOk(LevelH(33), 33) && RowOk(LevelH(34), 34) && RowOk(LevelH(35), 35)
    ensures RowOk(LevelH(36), 36) && RowOk(LevelH(37), 37) && RowOk(LevelH(38), 38) && RowOk(LevelH(39), 39) && RowOk(LevelH(40), 40)
  {
  }

  /** Every row of level H. */
  lemma LevelHRowsOk()
    ensures forall v :: 1 <= v <= MAX_VERSION ==> RowOk(LevelH(v), v)
  {
    LevelHRows1To10();
    LevelHRows11To20();
    LevelHRows21To30();
    LevelHRows31To40();
    forall v | 1 <= v <= MAX_VERSION
      ensures RowOk(LevelH(v), v)
    {
      assert Versions(v);
    }
  }

  lemma LevelQRows1To10()
    ensures RowOk(LevelQ(1), 1) && RowOk(LevelQ(2), 2) && RowOk(LevelQ(3), 3) && RowOk(LevelQ(4), 4) && RowOk(LevelQ(5), 5)
    ensures RowOk(LevelQ(6), 6) && RowOk(LevelQ(7), 7) && RowOk(LevelQ(8), 8) && RowOk(LevelQ(9), 9) && RowOk(LevelQ(10), 10)
  {
  }

  lemma LevelQRows11To20()
    ensures RowOk(LevelQ(11), 11) && RowOk(LevelQ(12), 12) && RowOk(LevelQ(13), 13) && RowOk(LevelQ(14), 14) && RowOk(LevelQ(15), 15)
    ensures RowOk(LevelQ(16), 16) && RowOk(LevelQ(17), 17) && RowOk(LevelQ(18), 18) && RowOk(LevelQ(19), 19) && RowOk(LevelQ(20), 20)
  {
  }

  lemma LevelQRows21To30()
    ensures RowOk(LevelQ(21), 21) && RowOk(LevelQ(22), 22) && RowOk(LevelQ(23), 23) && RowOk(LevelQ(24), 24) && RowOk(LevelQ(25), 25)
    ensures RowOk(LevelQ(26), 26) && RowOk(LevelQ(27), 27) && RowOk(LevelQ(28), 28) && RowOk(LevelQ(29), 29) && RowOk(LevelQ(30), 30)
  {
  }

  lemma LevelQRows31To40()
    ensures RowOk(LevelQ(31), 31) && RowOk(LevelQ(32), 32) && RowOk(LevelQ(33), 33) && RowOk(LevelQ(34), 34) && RowOk(LevelQ(35), 35)
    ensures RowOk(LevelQ(36), 36) && RowOk(LevelQ(37), 37) && RowOk(LevelQ(38), 38) && RowOk(LevelQ(39), 39) && RowOk(LevelQ(40), 40)
  {
  }

  /** Every row of level Q. */
  lemma LevelQRowsOk()
    ensures forall v :: 1 <= v <= MAX_VERSION ==> RowOk(LevelQ(v), v)
  {
    LevelQRows1To10();
    LevelQRows11To20();
    LevelQRows21To30();
    LevelQRows31To40();
    forall v | 1 <= v <= MAX_VERSION
      ensures RowOk(LevelQ(v), v)
    {
      assert Versions(v);
    }
  }

  /** The version numbers one by one, for proofs that go through the table rows. */
  ghost predicate Versions(v: nat) {
       v == 1 || v == 2 || v == 3 || v == 4 || v == 5 || v == 6 || v == 7 || v == 8
     || v == 9 || v == 10 || v == 11 || v == 12 || v == 13 || v == 14 || v == 15 || v == 16
     || v == 17 || v == 18 || v == 19 || v == 20 || v == 21 || v == 22 || v == 23 || v == 24
     || v == 25 || v == 26 || v == 27 || v == 28 || v == 29 || v == 30 || v == 31 || v == 32
     || v == 33 || v == 34 || v == 35 || v == 36 || v == 37 || v == 38 || v == 39 || v == 40
  }

  /** The row for level index ec and version v fills the symbol, and its blocks can be split. */
  lemma PropsOk(ec: nat, version: nat)
    requires ec < 4 && 1 <= version <= MAX_VERSION
    ensures RowOk(Props(ec, version), version)
  {
    if ec == 0 {
      LevelMRowsOk();
    } else if ec == 1 {
      LevelLRowsOk();
    } else if ec == 2 {
      LevelHRowsOk();
    } else {
      LevelQRowsOk();
    }
  }

  /** The shape of an alignment row: where it starts and ends, and that it increases by at least 12 modules at each step, so that no two alignment patterns overlap. */
  ghost predicate AlignOk(version: nat)
    requires 2 <= version <= MAX_VERSION
  {
    var p := AlignPositions(version);
    && |p| == version / 7 + 2
    && p[0] == 6
    && p[|p| - 1] == SymbolSize(version) - 7
    && forall i :: 0 < i < |p| ==> p[i - 1] + 12 <= p[i]
  }

  lemma AlignRows2To11()
    ensures AlignOk(2) && AlignOk(3) && AlignOk(4) && AlignOk(5) && AlignOk(6)
    ensures AlignOk(7) && AlignOk(8) && AlignOk(9) && AlignOk(10) && AlignOk(11)
  {
  }

  lemma AlignRows12To21()
    ensures AlignOk(12) && AlignOk(13) && AlignOk(14) && AlignOk(15) && AlignOk(16)
    ensures AlignOk(17) && AlignOk(18) && AlignOk(19) && AlignOk(20) && AlignOk(21)
  {
  }

  lemma AlignRows22To31()
    ensures AlignOk(22) && AlignOk(23) && AlignOk(24) && AlignOk(25) && AlignOk(26)
    ensures AlignOk(27) && AlignOk(28) && AlignOk(29) && AlignOk(30) && AlignOk(31)
  {
  }

  lemma AlignRows32To40()
    ensures AlignOk(32) && AlignOk(33) && AlignOk(34) && AlignOk(35) && AlignOk(36)
    ensures AlignOk(37) && AlignOk(38) && AlignOk(39) && AlignOk(40)
  {
  }

  /** Every alignment row. */
  lemma AlignRowsOk()
    ensures forall v :: 2 <= v <= MAX_VERSION ==> AlignOk(v)
  {
    AlignRows2To11();
    AlignRows12To21();
    AlignRows22To31();
    AlignRows32To40();
    forall v | 2 <= v <= MAX_VERSION
      ensures AlignOk(v)
    {
      assert Versions(v);
    }
  }
}
