/**
 * The function patterns `__buildSymbol` draws before placing data: finder
 * patterns with their separators, the reserved format and version areas,
 * the dark module, the alignment patterns and the timing patterns
 * (section 6.3 of ISO/IEC 18004:2015). Each phase is a method on the symbol
 * array; `Template` is the matrix they build together, stated cell by cell,
 * each phase overriding the earlier ones where the source writes later.
 */
module Patterns {
  import opened Matrix
  import opened CodeTables

  // The pattern predicates

  /** |a|, for the distance from a pattern's centre. */
  function Abs(a: int): nat {
    if a < 0 then -a else a
  }

  /** The ring of (a, b) around the centre (0, 0): the larger of |a| and |b|. */
  function Ring(a: int, b: int): nat {
    if Abs(a) < Abs(b) then Abs(b) else Abs(a)
  }

  /** `__finderPattern`: inside its 7 x 7 square, dark except on the ring at distance 2 from the centre. */
  function FinderPattern(x: int, y: int): (dark: bool)
    ensures 0 <= x < 7 && 0 <= y < 7 ==> (dark <==> Ring(x - 3, y - 3) != 2)
  {
    (x == 0 || x == 6 || y == 0 || y == 6) || (x != 1 && x != 5 && y != 1 && y != 5)
  }

  /** `__alignmentPattern`: inside its 5 x 5 square, dark except on the ring at distance 1 from the centre. */
  function AlignmentPattern(x: int, y: int): (dark: bool)
    ensures 0 <= x < 5 && 0 <= y < 5 ==> (dark <==> Ring(x - 2, y - 2) != 1)
  {
    x == 0 || x == 4 || y == 0 || y == 4 || (x == 2 && y == 2)
  }

  /** (x, y) lies in the n x n square whose top left cell is (x0, y0). */
  predicate InSquare(x: int, y: int, x0: int, y0: int, n: int) {
    x0 <= x < x0 + n && y0 <= y < y0 + n
  }

  /**
   * `__createPattern`: draws the n x n pattern with its top left cell at
   * (x0, y0), leaving every other cell as it was.
   */
  method CreatePattern(sym: array2<Cell>, pattern: (int, int) -> bool, x0: int, y0: int, n: nat)
    requires 0 <= x0 && x0 + n <= sym.Length0 && 0 <= y0 && y0 + n <= sym.Length1
    modifies sym
    ensures forall a, b :: 0 <= a < sym.Length0 && 0 <= b < sym.Length1 ==>
      sym[a, b] == if InSquare(a, b, x0, y0, n) then Module(pattern(a - x0, b - y0)) else old(sym[a, b])
  {
    for y := 0 to n
      invariant forall a, b :: 0 <= a < sym.Length0 && 0 <= b < sym.Length1 ==>
        sym[a, b] == if InSquare(a, b, x0, y0, n) && b < y0 + y then Module(pattern(a - x0, b - y0)) else old(sym[a, b])
    {
      for x := 0 to n
        invariant forall a, b :: 0 <= a < sym.Length0 && 0 <= b < sym.Length1 ==>
          sym[a, b] == if InSquare(a, b, x0, y0, n) && (b < y0 + y || (b == y0 + y && a < x0 + x)) then Module(pattern(a - x0, b - y0)) else old(sym[a, b])
      {
        sym[x0 + x, y0 + y] := Module(pattern(x, y));
      }
    }
  }

  // The matrix the phases build, cell by cell

  /** The three finder patterns, at the top left, bottom left and top right corners. */
  function FinderStage(size: int, x: int, y: int): Cell {
    if InSquare(x, y, size - 7, 0, 7) then Module(FinderPattern(x - (size - 7), y))
    else if InSquare(x, y, 0, size - 7, 7) then Module(FinderPattern(x, y - (size - 7)))
    else if InSquare(x, y, 0, 0, 7) then Module(FinderPattern(x, y))
    else Unset
  }

  /**
   * The cells the separator loop writes in its first n passes: the light
   * borders of the three finder patterns and the format information areas
   * beside them. The first five writes of each pass ...
   */
  predicate SeparatorCell(size: int, n: int, x: int, y: int) {
    SeparatorLeft(size, n, x, y) || SeparatorRight(size, n, x, y)
  }

  /** ... go beside the top left and bottom left finder patterns, ... */
  predicate SeparatorLeft(size: int, n: int, x: int, y: int) {
    || (y == 7 && 0 <= x < n) || (x == 7 && 0 <= y < n)
    || (y == 8 && 0 <= x < n) || (x == 8 && 0 <= y < n)
    || (y == size - 8 && 0 <= x < n)
  }

  /** ... and the other five beside the bottom left and top right ones. */
  predicate SeparatorRight(size: int, n: int, x: int, y: int) {
    || (x == 7 && size - n <= y < size) || (x == 8 && size - n <= y < size)
    || (y == 7 && size - n <= x < size) || (x == size - 8 && 0 <= y < n)
    || (y == 8 && size - n <= x < size)
  }

  function SeparatorStage(size: int, x: int, y: int): Cell {
    if SeparatorCell(size, 8, x, y) then Module(false) else FinderStage(size, x, y)
  }

  /** The symbol holds the cell function f. */
  ghost predicate Holds(sym: array2<Cell>, f: (int, int) -> Cell)
    reads sym
  {
    forall a, b :: 0 <= a < sym.Length0 && 0 <= b < sym.Length1 ==> sym[a, b] == f(a, b)
  }

  /** The three `__createPattern` calls for the finder patterns, on a fresh symbol. */
  method DrawFinders(sym: array2<Cell>)
    requires sym.Length0 == sym.Length1 >= 21
    requires Holds(sym, (a, b) => Unset)
    modifies sym
    ensures Holds(sym, (a, b) => FinderStage(sym.Length0, a, b))
  {
    var size := sym.Length0;
    CreatePattern(sym, FinderPattern, 0, 0, 7);
    CreatePattern(sym, FinderPattern, 0, size - 7, 7);
    CreatePattern(sym, FinderPattern, size - 7, 0, 7);
  }

  /** The separator loop: light separators and reserved format areas. */
  method DrawSeparators(sym: array2<Cell>)
    requires sym.Length0 == sym.Length1 >= 21
    requires Holds(sym, (a, b) => FinderStage(sym.Length0, a, b))
    modifies sym
    ensures Holds(sym, (a, b) => SeparatorStage(sym.Length0, a, b))
  {
    var size := sym.Length0;
    for i := 0 to 8
      invariant Holds(sym, (a, b) => SeparatorsUpTo(size, i, i, a, b))
    {
      SeparatorsLeft(sym, i);
      SeparatorsRight(sym, i);
    }
  }

  /** The symbol after the first m left writes and n right writes of the separator loop. */
  function SeparatorsUpTo(size: int, m: int, n: int, x: int, y: int): Cell {
    if SeparatorLeft(size, m, x, y) || SeparatorRight(size, n, x, y) then Module(false) else FinderStage(size, x, y)
  }

  method SeparatorsLeft(sym: array2<Cell>, i: int)
    requires sym.Length0 == sym.Length1 >= 21 && 0 <= i < 8
    requires Holds(sym, (a, b) => SeparatorsUpTo(sym.Length0, i, i, a, b))
    modifies sym
    ensures Holds(sym, (a, b) => SeparatorsUpTo(sym.Length0, i + 1, i, a, b))
  {
    var size := sym.Length0;
    sym[i, 7] := Module(false);
    sym[7, i] := Module(false);
    sym[i, 8] := Module(false);
    sym[8, i] := Module(false);
    sym[i, size - 8] := Module(false);
  }

  method SeparatorsRight(sym: array2<Cell>, i: int)
    requires sym.Length0 == sym.Length1 >= 21 && 0 <= i < 8
    requires Holds(sym, (a, b) => SeparatorsUpTo(sym.Length0, i + 1, i, a, b))
    modifies sym
    ensures Holds(sym, (a, b) => SeparatorsUpTo(sym.Length0, i + 1, i + 1, a, b))
  {
    var size := sym.Length0;
    sym[7, size - i - 1] := Module(false);
    sym[8, size - i - 1] := Module(false);
    sym[size - i - 1, 7] := Module(false);
    sym[size - 8, i] := Module(false);
    sym[size - i - 1, 8] := Module(false);
  }

  // Version information areas and the two fixed modules

  /** The two 3 x 6 version information areas of a symbol from version 7 on, beside the top right and bottom left finder patterns. */
  predicate VersionArea(size: int, x: int, y: int) {
    (size - 11 <= x < size - 8 && 0 <= y < 6) || (0 <= x < 6 && size - 11 <= y < size - 8)
  }

  /** The nested version loop has reached (i, j): every earlier row j, and row jn up to column iN. */
  predicate VersionDone(size: int, jn: int, iN: int, i: int, j: int) {
    size - 11 <= i < size - 8 && 0 <= j && (j < jn || (j == jn && i < iN))
  }

  /** The symbol while the version loop runs: each pass writes (i, j) and its mirror (j, i). */
  function VersionUpTo(size: int, jn: int, iN: int, x: int, y: int): Cell {
    if VersionDone(size, jn, iN, x, y) || VersionDone(size, jn, iN, y, x) then Module(false) else SeparatorStage(size, x, y)
  }

  function VersionStage(version: nat, x: int, y: int): Cell {
    var size := SymbolSize(version);
    if version >= 7 && VersionArea(size, x, y) then Module(false) else SeparatorStage(size, x, y)
  }

  /** Reserves the version information areas, from version 7 on. */
  method DrawVersionArea(sym: array2<Cell>, version: nat)
    requires 1 <= version && sym.Length0 == sym.Length1 == SymbolSize(version)
    requires Holds(sym, (a, b) => SeparatorStage(sym.Length0, a, b))
    modifies sym
    ensures Holds(sym, (a, b) => VersionStage(version, a, b))
  {
    var size := sym.Length0;
    if version >= 7 {
      for j := 0 to 6
        invariant Holds(sym, (a, b) => VersionUpTo(size, j, size - 11, a, b))
      {
        VersionRow(sym, j);
      }
    }
  }

  /** One pass of the outer version loop: row j of the top right area and column j of the bottom left one. */
  method VersionRow(sym: array2<Cell>, j: int)
    requires sym.Length0 == sym.Length1 >= 21 && 0 <= j < 6
    requires Holds(sym, (a, b) => VersionUpTo(sym.Length0, j, sym.Length0 - 11, a, b))
    modifies sym
    ensures Holds(sym, (a, b) => VersionUpTo(sym.Length0, j + 1, sym.Length0 - 11, a, b))
  {
    var size := sym.Length0;
    for i := size - 11 to size - 8
      invariant Holds(sym, (a, b) => VersionUpTo(size, j, i, a, b))
    {
      sym[i, j] := Module(false);
      sym[j, i] := Module(false);
    }
  }

  /** The light module (8, 8) of the format area and the dark module beside the bottom left finder pattern. */
  function FixedStage(version: nat, x: int, y: int): Cell {
    var size := SymbolSize(version);
    if x == 8 && y == 8 then Module(false)
    else if x == 8 && y == size - 8 then Module(true)
    else VersionStage(version, x, y)
  }

  method DrawFixedModules(sym: array2<Cell>, version: nat)
    requires 1 <= version && sym.Length0 == sym.Length1 == SymbolSize(version)
    requires Holds(sym, (a, b) => VersionStage(version, a, b))
    modifies sym
    ensures Holds(sym, (a, b) => FixedStage(version, a, b))
  {
    var size := sym.Length0;
    sym[8, 8] := Module(false);
    sym[8, size - 8] := Module(true);
  }

  // Alignment patterns

  /** The alignment pattern centre coordinates of a version; version 1 has none. */
  function Centres(version: nat): seq<int> {
    if 2 <= version <= MAX_VERSION then AlignPositions(version) else []
  }

  /** Consecutive coordinates at least 12 apart, as in every alignment row. */
  ghost predicate Spaced(p: seq<int>) {
    forall i :: 0 < i < |p| ==> GapAt(p, i)
  }

  /** Coordinate i lies at least 12 past coordinate i - 1. */
  ghost predicate GapAt(p: seq<int>, i: int)
    requires 0 < i < |p|
  {
    p[i - 1] + 12 <= p[i]
  }

  /** The first index k from `from` on whose coordinate p[k] is within 2 of c, and -1 if there is none. */
  function Near(p: seq<int>, c: int, from: nat): (k: int)
    requires from <= |p|
    decreases |p| - from
    ensures k == -1 || (from <= k < |p| && Abs(c - p[k]) <= 2)
    ensures k == -1 <==> forall i :: from <= i < |p| ==> Abs(c - p[i]) > 2
  {
    if from == |p| then -1
    else if Abs(c - p[from]) <= 2 then from
    else Near(p, c, from + 1)
  }

  lemma {:induction false} SpacedApart(p: seq<int>, i: int, j: int)
    requires Spaced(p) && 0 <= i < |p| && 0 <= j < |p|
    ensures i < j ==> p[i] + 12 * (j - i) <= p[j]
    decreases j - i
  {
    if i < j {
      assert GapAt(p, j);
    }
    if i < j - 1 {
      SpacedApart(p, i, j - 1);
    }
  }

  /** In a spaced row, c is within 2 of p[k] exactly when k is the index `Near` finds. */
  lemma NearIs(p: seq<int>, c: int, k: int)
    requires Spaced(p) && 0 <= k < |p|
    ensures Abs(c - p[k]) <= 2 <==> Near(p, c, 0) == k
  {
    var r := Near(p, c, 0);
    if r >= 0 {
      SpacedApart(p, r, k);
      SpacedApart(p, k, r);
    }
  }

  /** A coordinate no greater than 8 can only be near the first centre, at 6. */
  lemma NearLow(p: seq<int>, c: int)
    requires Spaced(p) && |p| >= 1 && p[0] == 6 && c <= 8
    ensures Near(p, c, 0) <= 0
  {
    var r := Near(p, c, 0);
    if r >= 0 {
      SpacedApart(p, 0, r);
    }
  }

  /** A coordinate no less than size - 11 can only be near the last centre, at size - 7: the one before it is at most size - 19. */
  lemma NearHigh(p: seq<int>, c: int, size: int)
    requires Spaced(p) && |p| >= 1 && p[|p| - 1] == size - 7 && size - 11 <= c
    ensures Near(p, c, 0) == -1 || Near(p, c, 0) == |p| - 1
  {
    var r := Near(p, c, 0);
    if r >= 0 {
      SpacedApart(p, r, |p| - 1);
    }
  }

  /** In a row that starts at 6 and ends at size - 7, every centre lies between the two, and the inner ones at least 12 further in. */
  lemma CentreInside(p: seq<int>, size: int, k: int)
    requires Spaced(p) && |p| >= 1 && p[0] == 6 && p[|p| - 1] == size - 7 && 0 <= k < |p|
    ensures 0 < k < |p| - 1 ==> 18 <= p[k] <= size - 19
    ensures 6 <= p[k] <= size - 7
  {
    SpacedApart(p, 0, k);
    SpacedApart(p, k, |p| - 1);
  }

  /** An alignment row as the tables give it: spaced, from 6 to size - 7. */
  ghost predicate RowShape(p: seq<int>, size: int) {
    Spaced(p) && |p| >= 2 && p[0] == 6 && p[|p| - 1] == size - 7
  }

  lemma CentresShape(version: nat)
    requires 2 <= version <= MAX_VERSION
    ensures RowShape(Centres(version), SymbolSize(version))
  {
    AlignRowsOk();
    assert AlignOk(version);
  }

  /**
   * The symbol while the alignment loop runs over the centre row p, on top
   * of `below`: the patterns before (a, b) in the loop's order are drawn
   * where their centre was unwritten in `below`.
   */
  function AlignUpTo(p: seq<int>, below: (int, int) -> Cell, a: int, b: int, x: int, y: int): Cell {
    var ka := Near(p, x, 0);
    var kb := Near(p, y, 0);
    if ka >= 0 && kb >= 0 && (ka < a || (ka == a && kb < b)) && below(p[ka], p[kb]) == Unset then
      Module(AlignmentPattern(x - (p[ka] - 2), y - (p[kb] - 2)))
    else
      below(x, y)
  }

  /** The alignment patterns of a version's symbol, drawn where their centre is free after the fixed modules. */
  function AlignStage(version: nat, x: int, y: int): Cell {
    AlignOver(Centres(version), version, x, y)
  }

  /** The alignment patterns at the centres of row p, on top of the fixed modules. */
  function AlignOver(p: seq<int>, version: nat, x: int, y: int): Cell {
    var ka := Near(p, x, 0);
    var kb := Near(p, y, 0);
    if ka >= 0 && kb >= 0 && FixedStage(version, p[ka], p[kb]) == Unset then
      Module(AlignmentPattern(x - (p[ka] - 2), y - (p[kb] - 2)))
    else
      FixedStage(version, x, y)
  }

  /** Draws every alignment pattern whose centre is still unwritten, leaving out the three that would cover finder patterns. */
  method DrawAlignment(sym: array2<Cell>, version: nat)
    requires 1 <= version <= MAX_VERSION && sym.Length0 == sym.Length1 == SymbolSize(version)
    requires Holds(sym, (a, b) => FixedStage(version, a, b))
    modifies sym
    ensures Holds(sym, (a, b) => AlignStage(version, a, b))
  {
    if version >= 2 {
      var p := AlignPositions(version);
      var fixed := (a, b) => FixedStage(version, a, b);
      CentresShape(version);
      for x := 0 to |p|
        invariant Holds(sym, (a, b) => AlignUpTo(p, fixed, x, 0, a, b))
      {
        for y := 0 to |p|
          invariant Holds(sym, (a, b) => AlignUpTo(p, fixed, x, y, a, b))
        {
          AlignmentStep(sym, p, fixed, x, y);
        }
      }
    }
  }

  /** Where the pattern of pass (a, b) goes: the cells whose nearest centres are p[a] and p[b]. */
  lemma AlignNext(p: seq<int>, below: (int, int) -> Cell, a: int, b: int, x: int, y: int)
    requires Spaced(p) && 0 <= a < |p| && 0 <= b < |p|
    ensures AlignUpTo(p, below, a, b + 1, x, y) ==
      if InSquare(x, y, p[a] - 2, p[b] - 2, 5) && below(p[a], p[b]) == Unset then Module(AlignmentPattern(x - (p[a] - 2), y - (p[b] - 2)))
      else AlignUpTo(p, below, a, b, x, y)
  {
    NearIs(p, x, a);
    NearIs(p, y, b);
  }

  /** One pass of the alignment loop: the pattern at (p[a], p[b]) is drawn when its centre is unwritten. */
  method AlignmentStep(sym: array2<Cell>, p: seq<int>, below: (int, int) -> Cell, a: int, b: int)
    requires RowShape(p, sym.Length0) && sym.Length0 == sym.Length1
    requires 0 <= a < |p| && 0 <= b < |p|
    requires Holds(sym, (x, y) => AlignUpTo(p, below, a, b, x, y))
    modifies sym
    ensures Holds(sym, (x, y) => AlignUpTo(p, below, a, b + 1, x, y))
  {
    CentreInside(p, sym.Length0, a);
    CentreInside(p, sym.Length0, b);
    NearIs(p, p[a], a);
    NearIs(p, p[b], b);
    assert sym[p[a], p[b]] == below(p[a], p[b]);
    if sym[p[a], p[b]] == Unset {
      CreatePattern(sym, AlignmentPattern, p[a] - 2, p[b] - 2, 5);
    }
    forall x, y | 0 <= x < sym.Length0 && 0 <= y < sym.Length1
      ensures sym[x, y] == AlignUpTo(p, below, a, b + 1, x, y)
    {
      AlignNext(p, below, a, b, x, y);
    }
  }

  // Timing patterns and the whole template

  /** The symbol while the timing loop runs on top of `below`: row 6 and column 6 alternate, dark on even coordinates, from 8 up to n. */
  function TimingUpTo(below: (int, int) -> Cell, n: int, x: int, y: int): Cell {
    if y == 6 && 8 <= x < n then Module(x % 2 == 0)
    else if x == 6 && 8 <= y < n then Module(y % 2 == 0)
    else below(x, y)
  }

  /** The function patterns of a version-v symbol, as `__buildSymbol` draws them before placing data. */
  function Template(version: nat, x: int, y: int): Cell {
    TemplateOver(Centres(version), version, x, y)
  }

  /** The timing patterns on top of the alignment patterns at the centres of row p. */
  function TemplateOver(p: seq<int>, version: nat, x: int, y: int): Cell {
    var size := SymbolSize(version);
    if y == 6 && 8 <= x < size - 8 then Module(x % 2 == 0)
    else if x == 6 && 8 <= y < size - 8 then Module(y % 2 == 0)
    else AlignOver(p, version, x, y)
  }

  method DrawTiming(sym: array2<Cell>, below: (int, int) -> Cell)
    requires sym.Length0 == sym.Length1 >= 21
    requires Holds(sym, below)
    modifies sym
    ensures Holds(sym, (a, b) => TimingUpTo(below, sym.Length0 - 8, a, b))
  {
    var size := sym.Length0;
    for i := 8 to size - 8
      invariant Holds(sym, (a, b) => TimingUpTo(below, i, a, b))
    {
      sym[i, 6] := Module(i % 2 == 0);
      sym[6, i] := Module(i % 2 == 0);
    }
  }

  /** The function pattern phases of `__buildSymbol`, in order, on a symbol with every module unwritten. */
  method DrawFunctionPatterns(sym: array2<Cell>, version: nat)
    requires 1 <= version <= MAX_VERSION && sym.Length0 == sym.Length1 == SymbolSize(version)
    requires Holds(sym, (a, b) => Unset)
    modifies sym
    ensures Holds(sym, (a, b) => Template(version, a, b))
  {
    DrawFinders(sym);
    DrawSeparators(sym);
    DrawVersionArea(sym, version);
    DrawFixedModules(sym, version);
    DrawAlignment(sym, version);
    DrawTiming(sym, (a, b) => AlignStage(version, a, b));
  }

  /** The template as a matrix of columns. */
  function TemplateGrid(version: nat): (g: seq<seq<Cell>>)
    ensures |g| == SymbolSize(version)
    ensures forall a, b :: 0 <= a < SymbolSize(version) && 0 <= b < SymbolSize(version) ==> CellAt(g, (a, b)) == Template(version, a, b)
  {
    var size := SymbolSize(version);
    seq(size, a => seq(size, b => Template(version, a, b)))
  }

  lemma TemplateSnapshot(sym: array2<Cell>, version: nat)
    requires sym.Length0 == sym.Length1 == SymbolSize(version)
    requires Holds(sym, (a, b) => Template(version, a, b))
    ensures Snapshot(sym) == TemplateGrid(version)
  {
    var g, t := Snapshot(sym), TemplateGrid(version);
    forall a | 0 <= a < |g|
      ensures g[a] == t[a]
    {
      forall b | 0 <= b < |g[a]|
        ensures g[a][b] == t[a][b]
      {
        assert CellAt(g, (a, b)) == CellAt(t, (a, b));
      }
    }
  }

  // What the template holds

  /** Coordinate k of a finder pattern at the far side: size - 7 + k. */
  function FarSide(version: nat, k: int): int {
    SymbolSize(version) - 7 + k
  }

  /** The three finder patterns survive every later phase. */
  lemma TemplateFinders(version: nat, x: int, y: int)
    requires 1 <= version <= MAX_VERSION && 0 <= x < 7 && 0 <= y < 7
    ensures && Template(version, x, y) == Module(FinderPattern(x, y))
            && Template(version, FarSide(version, x), y) == Module(FinderPattern(x, y))
            && Template(version, x, FarSide(version, y)) == Module(FinderPattern(x, y))
  {
    if version >= 2 {
      CentresShape(version);
    }
    FindersOver(Centres(version), version, x, y);
  }

  lemma FindersOver(p: seq<int>, version: nat, x: int, y: int)
    requires 1 <= version <= MAX_VERSION && (p == [] || RowShape(p, SymbolSize(version))) && 0 <= x < 7 && 0 <= y < 7
    ensures && TemplateOver(p, version, x, y) == Module(FinderPattern(x, y))
            && TemplateOver(p, version, FarSide(version, x), y) == Module(FinderPattern(x, y))
            && TemplateOver(p, version, x, FarSide(version, y)) == Module(FinderPattern(x, y))
  {
    FinderTopLeft(p, version, x, y);
    FinderTopRight(p, version, x, y);
    FinderBottomLeft(p, version, x, y);
  }

  lemma FinderTopLeft(p: seq<int>, version: nat, x: int, y: int)
    requires 1 <= version <= MAX_VERSION && (p == [] || RowShape(p, SymbolSize(version))) && 0 <= x < 7 && 0 <= y < 7
    ensures TemplateOver(p, version, x, y) == Module(FinderPattern(x, y))
  {
    FinderCells(version, x, y);
    CornerCell(p, version, x, y);
  }

  lemma FinderTopRight(p: seq<int>, version: nat, x: int, y: int)
    requires 1 <= version <= MAX_VERSION && (p == [] || RowShape(p, SymbolSize(version))) && 0 <= x < 7 && 0 <= y < 7
    ensures TemplateOver(p, version, FarSide(version, x), y) == Module(FinderPattern(x, y))
  {
    FinderCells(version, x, y);
    CornerCell(p, version, FarSide(version, x), y);
  }

  lemma FinderBottomLeft(p: seq<int>, version: nat, x: int, y: int)
    requires 1 <= version <= MAX_VERSION && (p == [] || RowShape(p, SymbolSize(version))) && 0 <= x < 7 && 0 <= y < 7
    ensures TemplateOver(p, version, x, FarSide(version, y)) == Module(FinderPattern(x, y))
  {
    FinderCells(version, x, y);
    CornerCell(p, version, x, FarSide(version, y));
  }

  /** A cell of the three corner regions off the timing lines keeps its fixed-stage value. */
  lemma CornerCell(p: seq<int>, version: nat, x: int, y: int)
    requires 1 <= version <= MAX_VERSION && (p == [] || RowShape(p, SymbolSize(version)))
    requires var size := SymbolSize(version);
      (x <= 8 || size - 11 <= x) && (y <= 8 || size - 11 <= y) && (x <= 8 || y <= 8) && OffTiming(size, x, y)
    ensures TemplateOver(p, version, x, y) == FixedStage(version, x, y)
  {
    CornerKept(p, version, x, y);
    CellKept(p, version, x, y);
  }

  /** (x, y) is not on the part of row 6 or column 6 the timing loop writes. */
  predicate OffTiming(size: int, x: int, y: int) {
    !(y == 6 && 8 <= x < size - 8) && !(x == 6 && 8 <= y < size - 8)
  }

  /** A cell off the timing lines that no alignment pattern covers keeps its fixed-stage value. */
  lemma CellKept(p: seq<int>, version: nat, x: int, y: int)
    requires OffTiming(SymbolSize(version), x, y) && NotDrawn(p, version, x, y)
    ensures TemplateOver(p, version, x, y) == FixedStage(version, x, y)
  {
  }

  /** No alignment pattern covers (x, y): it is near no centre, or only near a centre that was taken already. */
  predicate NotDrawn(p: seq<int>, version: nat, x: int, y: int) {
    var ka, kb := Near(p, x, 0), Near(p, y, 0);
    ka < 0 || kb < 0 || FixedStage(version, p[ka], p[kb]) != Unset
  }

  /** The cells in the three corner regions are near no centre but those of the corners. */
  lemma CornerKept(p: seq<int>, version: nat, x: int, y: int)
    requires 1 <= version <= MAX_VERSION && (p == [] || RowShape(p, SymbolSize(version)))
    requires var size := SymbolSize(version);
      (x <= 8 || size - 11 <= x) && (y <= 8 || size - 11 <= y) && (x <= 8 || y <= 8)
    ensures NotDrawn(p, version, x, y)
  {
    var size := SymbolSize(version);
    if p != [] {
      if x <= 8 {
        NearLow(p, x);
      } else {
        NearHigh(p, x, size);
      }
      if y <= 8 {
        NearLow(p, y);
      } else {
        NearHigh(p, y, size);
      }
      CornersTaken(version);
    }
  }

  /** The fixed-module stage has the finder patterns in the three corners. */
  lemma FinderCells(version: nat, x: int, y: int)
    requires 1 <= version <= MAX_VERSION && 0 <= x < 7 && 0 <= y < 7
    ensures var size := SymbolSize(version);
      && FixedStage(version, x, y) == Module(FinderPattern(x, y))
      && FixedStage(version, size - 7 + x, y) == Module(FinderPattern(x, y))
      && FixedStage(version, x, size - 7 + y) == Module(FinderPattern(x, y))
  {
  }

  /** The centres of the three corners are taken by finder patterns before the alignment loop. */
  lemma CornersTaken(version: nat)
    requires 1 <= version <= MAX_VERSION
    ensures var size := SymbolSize(version);
      && FixedStage(version, 6, 6) != Unset
      && FixedStage(version, 6, size - 7) != Unset
      && FixedStage(version, size - 7, 6) != Unset
  {
    FinderCells(version, 6, 6);
  }

  /** The dark module at (8, size - 8) is dark in every version. */
  lemma TemplateDarkModule(version: nat)
    requires 1 <= version <= MAX_VERSION
    ensures Template(version, 8, SymbolSize(version) - 8) == Module(true)
  {
    if version >= 2 {
      CentresShape(version);
    }
    CornerCell(Centres(version), version, 8, SymbolSize(version) - 8);
  }

  /** The pairs of centres that fall on finder patterns: the top left, bottom left and top right ends of the row. */
  predicate Corner(n: int, a: int, b: int) {
    (a == 0 && b == 0) || (a == 0 && b == n - 1) || (a == n - 1 && b == 0)
  }

  /** The centre of every alignment pattern that is not on a finder pattern is free after the fixed modules. */
  lemma CentreFree(version: nat, c: int, d: int)
    requires 1 <= version
    requires var size := SymbolSize(version);
      && (c == 6 || 18 <= c <= size - 19 || c == size - 7)
      && (d == 6 || 18 <= d <= size - 19 || d == size - 7)
      && !(c == 6 && d == 6) && !(c == 6 && d == size - 7) && !(c == size - 7 && d == 6)
    ensures FixedStage(version, c, d) == Unset
  {
  }

  /**
   * Every alignment pattern away from the finder patterns is drawn in full
   * around its centre (p[a], p[b]); the timing patterns overwrite row 6 and
   * column 6, so those cells are left out here.
   */
  lemma TemplateAlignment(version: nat, a: int, b: int, dx: int, dy: int)
    requires 2 <= version <= MAX_VERSION
    requires 0 <= a < |AlignPositions(version)| && 0 <= b < |AlignPositions(version)|
    requires !Corner(|AlignPositions(version)|, a, b)
    requires -2 <= dx <= 2 && -2 <= dy <= 2
    requires AlignPositions(version)[a] + dx != 6 && AlignPositions(version)[b] + dy != 6
    ensures var p := AlignPositions(version);
      Template(version, p[a] + dx, p[b] + dy) == Module(AlignmentPattern(dx + 2, dy + 2))
  {
    CentresShape(version);
    AlignmentOver(Centres(version), version, a, b, dx, dy);
  }

  lemma AlignmentOver(p: seq<int>, version: nat, a: int, b: int, dx: int, dy: int)
    requires 1 <= version <= MAX_VERSION && RowShape(p, SymbolSize(version))
    requires 0 <= a < |p| && 0 <= b < |p| && !Corner(|p|, a, b) && -2 <= dx <= 2 && -2 <= dy <= 2
    requires p[a] + dx != 6 && p[b] + dy != 6
    ensures TemplateOver(p, version, p[a] + dx, p[b] + dy) == Module(AlignmentPattern(dx + 2, dy + 2))
  {
    AlignmentKept(p, version, a, b, dx, dy);
    AlignDraws(p, version, a, b, p[a] + dx, p[b] + dy);
  }

  lemma AlignmentKept(p: seq<int>, version: nat, a: int, b: int, dx: int, dy: int)
    requires 1 <= version <= MAX_VERSION && RowShape(p, SymbolSize(version))
    requires 0 <= a < |p| && 0 <= b < |p| && !Corner(|p|, a, b) && -2 <= dx <= 2 && -2 <= dy <= 2
    ensures Near(p, p[a] + dx, 0) == a && Near(p, p[b] + dy, 0) == b
    ensures FixedStage(version, p[a], p[b]) == Unset
  {
    NearOffset(p, a, dx);
    NearOffset(p, b, dy);
    CentresFree(p, version, a, b);
  }

  /** Within two modules of centre a, the nearest centre is a. */
  lemma NearOffset(p: seq<int>, a: int, dx: int)
    requires Spaced(p) && 0 <= a < |p| && -2 <= dx <= 2
    ensures Near(p, p[a] + dx, 0) == a
  {
    NearIs(p, p[a] + dx, a);
  }

  lemma CentresFree(p: seq<int>, version: nat, a: int, b: int)
    requires 1 <= version <= MAX_VERSION && RowShape(p, SymbolSize(version))
    requires 0 <= a < |p| && 0 <= b < |p| && !Corner(|p|, a, b)
    ensures FixedStage(version, p[a], p[b]) == Unset
  {
    var size := SymbolSize(version);
    CentreInside(p, size, a);
    CentreInside(p, size, b);
    CentreFree(version, p[a], p[b]);
  }

  /** A cell within 2 of the centres p[a] and p[b] takes the alignment pattern when that centre is free. */
  lemma AlignDraws(p: seq<int>, version: nat, a: int, b: int, x: int, y: int)
    requires 0 <= a < |p| && 0 <= b < |p| && Near(p, x, 0) == a && Near(p, y, 0) == b
    requires FixedStage(version, p[a], p[b]) == Unset
    ensures AlignOver(p, version, x, y) == Module(AlignmentPattern(x - (p[a] - 2), y - (p[b] - 2)))
  {
  }
}
