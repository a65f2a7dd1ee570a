/**
 * `__fillReservedAreas`: the format information (section 7.9 of ISO/IEC
 * 18004:2015) and, from version 7 on, the version information (section
 * 7.10), each a BCH codeword, written into the areas the function pattern
 * phases reserved for them.
 */
module FormatInfo {
  import opened Bits
  import opened Bch
  import opened Matrix
  import opened CodeTables
  import opened Patterns

  /** The format code generator x^10 + x^8 + x^5 + x^4 + x^2 + x + 1. */
  const FORMAT_GEN: nat := 0x537
  /** The pattern XORed onto the format codeword so that it is never all zero. */
  const FORMAT_MASK: nat := 0x5412
  /** The version code generator x^12 + x^11 + x^10 + x^9 + x^8 + x^5 + x^2 + 1. */
  const VERSION_GEN: nat := 0x1F25

  /** Bit k of w: `(code & 0x1) != 0` once code has been shifted right k times. */
  function Bit(w: nat, k: nat): bool {
    Shr(w, k) % 2 == 1
  }

  /** The powers of two the format and version codes use. */
  lemma Powers()
    ensures Pow2(3) == 8 && Pow2(10) == 1024 && Pow2(11) == 2048 && Pow2(12) == 4096 && Pow2(13) == 8192
    ensures Pow2(15) == 32768 && Pow2(18) == 262144 && Pow2(30) == 1073741824
  {
    assert Pow2(10) == 1024;
    assert Pow2(20) == 1048576;
  }

  lemma {:induction false} ShlIsMul(v: nat, k: nat)
    ensures Shl(v, k) == v * Pow2(k)
  {
    if k > 0 {
      ShlIsMul(v, k - 1);
    }
  }

  /** `(v & (1 << e)) != 0` tests bit e of v. */
  lemma {:induction false} AndBit(v: nat, e: nat)
    ensures (And(v, Pow2(e)) != 0) == Bit(v, e)
  {
    if v == 0 {
      ShrZero(e);
    } else if e > 0 {
      AndBit(v / 2, e - 1);
    }
  }

  /** Shifting right once more moves to the next bit. */
  lemma ShrNext(w: nat, i: nat)
    ensures Shr(w, i) / 2 == Shr(w, i + 1)
  {
    ShrAdd(w, i, 1);
  }

  /** The low three bits of a mask index are the index itself. */
  lemma AndSeven(mask: nat)
    requires mask < 8
    ensures And(mask, 7) == mask
  {
    assert mask == 0 || mask == 1 || mask == 2 || mask == 3 || mask == 4 || mask == 5 || mask == 6 || mask == 7;
  }

  /** A format word: 15 bits which, with the fixed pattern removed, are a codeword whose five data bits are the level field and the mask. */
  ghost predicate IsFormatWord(w: nat, ecLevel: nat, mask: nat) {
    && w < Pow2(15)
    && Shr(Xor(w, FORMAT_MASK), 10) == 8 * ecLevel + mask
    && IsMultiple(Xor(w, FORMAT_MASK), FORMAT_GEN)
  }

  /** A version word: 18 bits, a codeword whose six data bits are the version. */
  ghost predicate IsVersionWord(w: nat, version: nat) {
    w < Pow2(18) && Shr(w, 12) == version && IsMultiple(w, VERSION_GEN)
  }

  /**
   * The format word of lines 694-695: the five data bits (the two-bit level
   * field, then the mask) followed by their ten BCH check bits, XORed with
   * 0x5412. Removing the XOR gives back a codeword whose data part is the
   * level and mask.
   */
  method FormatWord(ecLevel: nat, mask: nat) returns (w: nat)
    requires ecLevel < 4 && mask < 8
    ensures IsFormatWord(w, ecLevel, mask)
  {
    Powers();
    AndSeven(mask);
    ShlIsMul(ecLevel, 3);
    OrDisjoint(ecLevel, mask, 3);
    var data := Or(Shl(ecLevel, 3), And(mask, 7));
    assert data == 8 * ecLevel + mask;
    ShlIsMul(data, 10);
    var code := SmallEcCode(data, 10, FORMAT_GEN);
    assert code < Pow2(15);
    w := Xor(code, FORMAT_MASK);
    XorBelow(code, FORMAT_MASK, 15);
    XorTwice(code, FORMAT_MASK);
  }

  /** The version word of line 708: the six version bits followed by their twelve BCH check bits. */
  method VersionWord(version: nat) returns (w: nat)
    requires 7 <= version <= MAX_VERSION
    ensures IsVersionWord(w, version)
  {
    Powers();
    ShlIsMul(version, 12);
    w := SmallEcCode(version, 12, VERSION_GEN);
  }

  // Where the format loop writes

  /** The format information cells: row 8 and column 8 beside the three finder patterns, less the timing patterns. */
  predicate FormatCell(size: int, x: int, y: int) {
    || (x == 8 && 0 <= y <= 8 && y != 6)
    || (y == 8 && 0 <= x <= 8 && x != 6)
    || (x == 8 && size - 7 <= y < size)
    || (y == 8 && size - 8 <= x < size)
  }

  /**
   * Which bit of the format word a format cell holds. The first copy runs
   * up column 8 (bits 0-5 above the timing row, then 6 and 7) and on
   * leftwards along row 8 (bits 8-14); the second copy runs leftwards
   * along row 8 from the right edge (bits 0-7) and down column 8 beside
   * the bottom left finder pattern (bits 8-14).
   */
  function FormatBitOf(size: int, x: int, y: int): int {
    if x == 8 && y <= 8 then (if y < 6 then y else y - 1)
    else if y == 8 && x <= 8 then (if x == 7 then 8 else 14 - x)
    else if x == 8 then y - size + 15
    else size - 1 - x
  }

  /** Where the first copy of the format word keeps bit k, beside the top left finder pattern. */
  function FirstCopy(k: int): (int, int) {
    if k < 6 then (8, k) else if k < 8 then (8, k + 1) else if k == 8 then (7, 8) else (14 - k, 8)
  }

  /** Where the second copy keeps bit k: beside the top right finder pattern, then beside the bottom left one. */
  function SecondCopy(size: int, k: int): (int, int) {
    if k < 8 then (size - 1 - k, 8) else (8, size - 15 + k)
  }

  /** Each of the 15 bits has one cell in each copy, and every format cell is one of them. */
  lemma FormatLayout(size: int, k: int, x: int, y: int)
    requires size >= 21 && 0 <= k < 15
    ensures FormatCell(size, FirstCopy(k).0, FirstCopy(k).1) && FormatBitOf(size, FirstCopy(k).0, FirstCopy(k).1) == k
    ensures FormatCell(size, SecondCopy(size, k).0, SecondCopy(size, k).1) && FormatBitOf(size, SecondCopy(size, k).0, SecondCopy(size, k).1) == k
    ensures FirstCopy(k) != SecondCopy(size, k)
    ensures FormatCell(size, x, y) ==> (0 <= FormatBitOf(size, x, y) < 15 &&
      ((x, y) == FirstCopy(FormatBitOf(size, x, y)) || (x, y) == SecondCopy(size, FormatBitOf(size, x, y))))
  {
  }

  /** The first pass of the format loop that writes a format cell. */
  function FormatPassOf(size: int, x: int, y: int): int {
    if x == 8 && y <= 8 then (if y == 8 then 0 else if y < 6 then y else 6)
    else if y == 8 && x <= 8 then (if x == 7 then 1 else 7 - x)
    else if x == 8 then y - size + 8
    else size - 1 - x
  }

  /** The symbol while the format loop runs: the cells of the first i passes hold their bits, the rest of g0. */
  ghost predicate FormatFilled(sym: array2<Cell>, g0: seq<seq<Cell>>, w: nat, i: int)
    reads sym
  {
    var size := sym.Length0;
    sym.Length1 == size &&
    forall a, b :: 0 <= a < size && 0 <= b < size ==>
      sym[a, b] == if FormatCell(size, a, b) && FormatPassOf(size, a, b) < i then Module(Bit(w, FormatBitOf(size, a, b))) else CellAt(g0, (a, b))
  }

  /**
   * The format loop of `__fillReservedAreas`: writes the 15-bit word w
   * twice, each format cell getting the bit its position calls for, and
   * changes no other cell.
   */
  method FillFormat(sym: array2<Cell>, w: nat)
    requires sym.Length0 == sym.Length1 >= 21
    modifies sym
    ensures forall a, b :: 0 <= a < sym.Length0 && 0 <= b < sym.Length1 ==>
      sym[a, b] == if FormatCell(sym.Length0, a, b) then Module(Bit(w, FormatBitOf(sym.Length0, a, b))) else old(sym[a, b])
  {
    var size := sym.Length0;
    ghost var g0 := Snapshot(sym);
    var code := w;
    for i := 0 to 8
      invariant code == Shr(w, i)
      invariant FormatFilled(sym, g0, w, i)
    {
      FormatPass(sym, g0, w, code, i);
      ShrNext(w, i);
      code := code / 2;
    }
  }

  /** The cells pass i of the format loop writes, and the bits they are to hold. */
  lemma PassCells(size: int, i: int, a: int, b: int)
    requires size >= 21 && 0 <= i < 8 && 0 <= a < size && 0 <= b < size
    ensures FormatCell(size, 8, i + (if i < 6 then 0 else 1)) && FormatBitOf(size, 8, i + (if i < 6 then 0 else 1)) == i
    ensures FormatPassOf(size, 8, i + (if i < 6 then 0 else 1)) <= i
    ensures FormatCell(size, 8 - i - (if i < 2 then 0 else 1), 8) && FormatBitOf(size, 8 - i - (if i < 2 then 0 else 1), 8) == i + 7
    ensures FormatPassOf(size, 8 - i - (if i < 2 then 0 else 1), 8) == i
    ensures i > 0 ==> FormatCell(size, 8, size - 8 + i) && FormatBitOf(size, 8, size - 8 + i) == i + 7 && FormatPassOf(size, 8, size - 8 + i) == i
    ensures FormatCell(size, size - i - 1, 8) && FormatBitOf(size, size - i - 1, 8) == i && FormatPassOf(size, size - i - 1, 8) == i
    ensures FormatCell(size, a, b) && FormatPassOf(size, a, b) == i ==>
      || (a == 8 && b == i + (if i < 6 then 0 else 1))
      || (a == 8 - i - (if i < 2 then 0 else 1) && b == 8)
      || (i > 0 && a == 8 && b == size - 8 + i)
      || (a == size - i - 1 && b == 8)
  {
  }

  /** One pass of the format loop: bit i and bit i + 7 of w, each to its two cells (bit 7 in pass 0 to only one). */
  method FormatPass(sym: array2<Cell>, ghost g0: seq<seq<Cell>>, w: nat, code: nat, i: int)
    requires sym.Length0 == sym.Length1 >= 21 && 0 <= i < 8 && code == Shr(w, i)
    requires FormatFilled(sym, g0, w, i)
    modifies sym
    ensures FormatFilled(sym, g0, w, i + 1)
  {
    var size := sym.Length0;
    PassBits(w, i, code);
    var low := And(code, 0x1) != 0;
    var high := And(code, 0x80) != 0;
    var y1 := i + (if i < 6 then 0 else 1);
    var x2 := 8 - i - (if i < 2 then 0 else 1);
    Put(sym, 8, y1, Module(low));
    Put(sym, x2, 8, Module(high));
    if i > 0 {
      Put(sym, 8, size - 8 + i, Module(high));
    }
    Put(sym, size - i - 1, 8, Module(low));
    forall a, b | 0 <= a < size && 0 <= b < size
      ensures sym[a, b] == if FormatCell(size, a, b) && FormatPassOf(size, a, b) < i + 1 then Module(Bit(w, FormatBitOf(size, a, b))) else CellAt(g0, (a, b))
    {
      PassUpdate(size, i, a, b, w, old(sym[a, b]), sym[a, b], CellAt(g0, (a, b)));
    }
  }

  /** Pass i reads bit i of the word with `& 0x1` and bit i + 7 with `& 0x80`. */
  lemma PassBits(w: nat, i: nat, code: nat)
    requires code == Shr(w, i)
    ensures (And(code, 0x1) != 0) == Bit(w, i) && (And(code, 0x80) != 0) == Bit(w, i + 7)
  {
    AndBit(code, 0);
    AndBit(code, 7);
    ShrAdd(w, i, 7);
  }

  /** `matrix[x + y * size] = c`: one cell written, no other changed. */
  method Put(sym: array2<Cell>, x: int, y: int, c: Cell)
    requires 0 <= x < sym.Length0 && 0 <= y < sym.Length1
    modifies sym
    ensures forall a, b :: 0 <= a < sym.Length0 && 0 <= b < sym.Length1 ==> sym[a, b] == if a == x && b == y then c else old(sym[a, b])
  {
    sym[x, y] := c;
  }

  /** A cell after pass i: written by the pass, or as before. */
  lemma PassUpdate(size: int, i: int, a: int, b: int, w: nat, before: Cell, after: Cell, orig: Cell)
    requires size >= 21 && 0 <= i < 8 && 0 <= a < size && 0 <= b < size
    requires before == if FormatCell(size, a, b) && FormatPassOf(size, a, b) < i then Module(Bit(w, FormatBitOf(size, a, b))) else orig
    requires after ==
      if a == size - i - 1 && b == 8 then Module(Bit(w, i))
      else if i > 0 && a == 8 && b == size - 8 + i then Module(Bit(w, i + 7))
      else if a == 8 - i - (if i < 2 then 0 else 1) && b == 8 then Module(Bit(w, i + 7))
      else if a == 8 && b == i + (if i < 6 then 0 else 1) then Module(Bit(w, i))
      else before
    ensures after == if FormatCell(size, a, b) && FormatPassOf(size, a, b) < i + 1 then Module(Bit(w, FormatBitOf(size, a, b))) else orig
  {
    PassCells(size, i, a, b);
  }

  // Where the version loop writes

  /** Which bit of the version word a cell of the version areas holds: three per row of the top right block, mirrored in the bottom left one. */
  function VersionIndex(size: int, x: int, y: int): int {
    if y < 6 then 3 * y + x - (size - 11) else 3 * x + y - (size - 11)
  }

  /** The symbol while the version loop runs: every cell the loop has reached holds its bit, the rest of g0. */
  ghost predicate VersionFilled(sym: array2<Cell>, g0: seq<seq<Cell>>, w: nat, jn: int, iN: int)
    reads sym
  {
    var size := sym.Length0;
    sym.Length1 == size &&
    forall a, b :: 0 <= a < size && 0 <= b < size ==>
      sym[a, b] == if VersionDone(size, jn, iN, a, b) || VersionDone(size, jn, iN, b, a) then Module(Bit(w, VersionIndex(size, a, b))) else CellAt(g0, (a, b))
  }

  /**
   * The version loop of `__fillReservedAreas`: bit k of the 18-bit word goes
   * to row k / 3 and column size - 11 + k % 3 of the top right block and to
   * the mirrored cell of the bottom left one; no other cell changes.
   */
  method FillVersion(sym: array2<Cell>, w: nat)
    requires sym.Length0 == sym.Length1 >= 21
    modifies sym
    ensures forall a, b :: 0 <= a < sym.Length0 && 0 <= b < sym.Length1 ==>
      sym[a, b] == if VersionArea(sym.Length0, a, b) then Module(Bit(w, VersionIndex(sym.Length0, a, b))) else old(sym[a, b])
  {
    var size := sym.Length0;
    ghost var g0 := Snapshot(sym);
    var code := w;
    for j := 0 to 6
      invariant code == Shr(w, 3 * j)
      invariant VersionFilled(sym, g0, w, j, size - 11)
    {
      for i := size - 11 to size - 8
        invariant code == Shr(w, 3 * j + i - (size - 11))
        invariant VersionFilled(sym, g0, w, j, i)
      {
        VersionStep(sym, g0, w, code, j, i);
        ShrNext(w, 3 * j + i - (size - 11));
        code := code / 2;
      }
    }
  }

  /** One pass of the inner version loop: bit 3j + i - (size - 11) to (i, j) and (j, i). */
  method VersionStep(sym: array2<Cell>, ghost g0: seq<seq<Cell>>, w: nat, code: nat, j: int, i: int)
    requires sym.Length0 == sym.Length1 >= 21 && 0 <= j < 6 && sym.Length0 - 11 <= i < sym.Length0 - 8
    requires code == Shr(w, 3 * j + i - (sym.Length0 - 11))
    requires VersionFilled(sym, g0, w, j, i)
    modifies sym
    ensures VersionFilled(sym, g0, w, j, i + 1)
  {
    AndBit(code, 0);
    var bit := And(code, 0x1) != 0;
    sym[i, j] := Module(bit);
    sym[j, i] := Module(bit);
  }

  /**
   * The placeholders: before the fill, the function pattern phases left every
   * format cell, and from version 7 every version cell, light, so message
   * placement passes over them.
   */
  lemma ReservedLight(version: nat, x: int, y: int)
    requires 1 <= version <= MAX_VERSION
    requires var size := SymbolSize(version);
      0 <= x < size && 0 <= y < size && (FormatCell(size, x, y) || (version >= 7 && VersionArea(size, x, y)))
    ensures Template(version, x, y) == Module(false)
  {
    if version >= 2 {
      CentresShape(version);
    }
    CornerCell(Centres(version), version, x, y);
  }

  /**
   * `__fillReservedAreas`: the format word for the level field and mask,
   * and from version 7 on the version word, written into their areas;
   * every other cell is left as it was.
   */
  method FillReservedAreas(sym: array2<Cell>, version: nat, ecLevel: nat, mask: nat)
    requires 1 <= version <= MAX_VERSION && sym.Length0 == sym.Length1 == SymbolSize(version)
    requires ecLevel < 4 && mask < 8
    modifies sym
    ensures exists fw: nat :: (IsFormatWord(fw, ecLevel, mask) &&
      forall a, b :: 0 <= a < sym.Length0 && 0 <= b < sym.Length1 && FormatCell(sym.Length0, a, b) ==>
        sym[a, b] == Module(Bit(fw, FormatBitOf(sym.Length0, a, b))))
    ensures version >= 7 ==> exists vw: nat :: (IsVersionWord(vw, version) &&
      forall a, b :: 0 <= a < sym.Length0 && 0 <= b < sym.Length1 && VersionArea(sym.Length0, a, b) ==>
        sym[a, b] == Module(Bit(vw, VersionIndex(sym.Length0, a, b))))
    ensures forall a, b :: 0 <= a < sym.Length0 && 0 <= b < sym.Length1 && !FormatCell(sym.Length0, a, b) && !(version >= 7 && VersionArea(sym.Length0, a, b)) ==>
      sym[a, b] == old(sym[a, b])
  {
    var fw := FormatWord(ecLevel, mask);
    FillFormat(sym, fw);
    if version >= 7 {
      var vw := VersionWord(version);
      FillVersion(sym, vw);
    }
  }
}
