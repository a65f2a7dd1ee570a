/**
 * Room for the message: the free cells of a symbol against the codewords of
 * its version. `__encodeSymbol` raises its internal error when placement
 * runs out of free cells, a case its comment calls impossible; for
 * version 1 the free cells are counted here and the message always fits.
 */
module Capacity {
  import opened Bits
  import opened Matrix
  import opened CodeTables
  import opened Patterns
  import opened Placement
  import opened Encoder

  /** The cells (x, y) with x0 <= x < x1 and y0 <= y < y1. */
  ghost function Rect(x0: int, x1: int, y0: int, y1: int): set<Pos> {
    set x, y | x0 <= x < x1 && y0 <= y < y1 :: (x, y)
  }

  /** The cells (x, y) of column x with y0 <= y < y1. */
  ghost function Column(x: int, y0: int, y1: int): set<Pos> {
    set y | y0 <= y < y1 :: (x, y)
  }

  lemma {:induction false} ColumnCard(x: int, y0: int, y1: int)
    requires y0 <= y1
    ensures |Column(x, y0, y1)| == y1 - y0
    decreases y1 - y0
  {
    if y0 == y1 {
      assert Column(x, y0, y1) == {};
    } else {
      ColumnCard(x, y0, y1 - 1);
      assert Column(x, y0, y1) == Column(x, y0, y1 - 1) + {(x, y1 - 1)};
    }
  }

  /** A rectangle holds its width times its height cells. */
  lemma {:induction false} RectCard(x0: int, x1: int, y0: int, y1: int)
    requires x0 <= x1 && y0 <= y1
    ensures |Rect(x0, x1, y0, y1)| == (x1 - x0) * (y1 - y0)
    decreases x1 - x0
  {
    if x0 == x1 {
      assert Rect(x0, x1, y0, y1) == {};
    } else {
      RectCard(x0, x1 - 1, y0, y1);
      ColumnCard(x1 - 1, y0, y1);
      assert Rect(x0, x1, y0, y1) == Rect(x0, x1 - 1, y0, y1) + Column(x1 - 1, y0, y1);
      assert Rect(x0, x1 - 1, y0, y1) * Column(x1 - 1, y0, y1) == {};
      assert (x1 - x0) * (y1 - y0) == (x1 - 1 - x0) * (y1 - y0) + (y1 - y0);
    }
  }

  /** A sequence has at least as many entries as it has distinct values. */
  lemma {:induction false} SeqSetCard<T>(s: seq<T>)
    ensures |set k | 0 <= k < |s| :: s[k]| <= |s|
    decreases |s|
  {
    if s != [] {
      var n := |s| - 1;
      SeqSetCard(s[..n]);
      assert (set k | 0 <= k < |s| :: s[k]) == (set k | 0 <= k < n :: s[..n][k]) + {s[n]};
    }
  }

  /** A subset has no more elements than its superset. */
  lemma {:induction false} SubsetCard<T>(a: set<T>, b: set<T>)
    requires a <= b
    ensures |a| <= |b|
    decreases |a|
  {
    if a != {} {
      var x :| x in a;
      SubsetCard(a - {x}, b - {x});
    }
  }

  /**
   * Five rectangles of a version-1 symbol that no function pattern covers:
   * above and below the horizontal timing pattern between the top finder
   * patterns, left of and beside the vertical one between the left finder
   * patterns, and the lower right quarter.
   */
  predicate OpenInVersionOne(x: int, y: int) {
    || (9 <= x < 13 && 0 <= y < 6)
    || (9 <= x < 13 && 7 <= y < 21)
    || (0 <= x < 6 && 9 <= y < 13)
    || (7 <= x < 9 && 9 <= y < 13)
    || (13 <= x < 21 && 9 <= y < 21)
  }

  /** No function pattern of version 1 covers the open rectangles. */
  lemma OpenIsUnset(x: int, y: int)
    requires OpenInVersionOne(x, y)
    ensures Template(1, x, y) == Unset
  {
  }

  /** The open rectangles of version 1 as a set of cells. */
  ghost function OpenCells(): set<Pos> {
    Rect(0, 6, 9, 13) + Rect(7, 9, 9, 13) + (Rect(9, 13, 0, 6) + Rect(9, 13, 7, 21)) + Rect(13, 21, 9, 21)
  }

  /** The cells of a rectangle lie within its bounds. */
  lemma RectBounds(x0: int, x1: int, y0: int, y1: int)
    ensures forall p :: p in Rect(x0, x1, y0, y1) ==> x0 <= p.0 < x1 && y0 <= p.1 < y1
  {
  }

  /** Two sets of cells on either side of column k or row k share no cell. */
  lemma ApartCard(a: set<Pos>, b: set<Pos>, k: int, horizontal: bool)
    requires forall p :: p in a ==> (if horizontal then p.0 else p.1) < k
    requires forall p :: p in b ==> (if horizontal then p.0 else p.1) >= k
    ensures |a + b| == |a| + |b|
  {
    assert a * b == {};
  }

  /** The open cells left of column 9: 24 + 8 of them. */
  lemma LeftCard()
    ensures |Rect(0, 6, 9, 13) + Rect(7, 9, 9, 13)| == 32
    ensures forall p :: p in Rect(0, 6, 9, 13) + Rect(7, 9, 9, 13) ==> p.0 < 9
  {
    RectCard(0, 6, 9, 13);
    RectCard(7, 9, 9, 13);
    RectBounds(0, 6, 9, 13);
    RectBounds(7, 9, 9, 13);
    ApartCard(Rect(0, 6, 9, 13), Rect(7, 9, 9, 13), 7, true);
  }

  /** The open cells of columns 9 to 12: 24 + 56 of them. */
  lemma MiddleCard()
    ensures |Rect(9, 13, 0, 6) + Rect(9, 13, 7, 21)| == 80
    ensures forall p :: p in Rect(9, 13, 0, 6) + Rect(9, 13, 7, 21) ==> 9 <= p.0 < 13
  {
    RectCard(9, 13, 0, 6);
    RectCard(9, 13, 7, 21);
    RectBounds(9, 13, 0, 6);
    RectBounds(9, 13, 7, 21);
    ApartCard(Rect(9, 13, 0, 6), Rect(9, 13, 7, 21), 7, false);
  }

  /** The open cells left of column 13: 32 + 80 of them. */
  lemma InnerCard()
    ensures |Rect(0, 6, 9, 13) + Rect(7, 9, 9, 13) + (Rect(9, 13, 0, 6) + Rect(9, 13, 7, 21))| == 112
  {
    LeftCard();
    MiddleCard();
    ApartCard(Rect(0, 6, 9, 13) + Rect(7, 9, 9, 13), Rect(9, 13, 0, 6) + Rect(9, 13, 7, 21), 9, true);
  }

  lemma InnerBounds()
    ensures forall p :: p in Rect(0, 6, 9, 13) + Rect(7, 9, 9, 13) + (Rect(9, 13, 0, 6) + Rect(9, 13, 7, 21)) ==> p.0 < 13
  {
    LeftCard();
    MiddleCard();
  }

  /** The lower right quarter adds its cells to those left of column 13. */
  lemma OuterApart()
    ensures |OpenCells()| == |Rect(0, 6, 9, 13) + Rect(7, 9, 9, 13) + (Rect(9, 13, 0, 6) + Rect(9, 13, 7, 21))| + |Rect(13, 21, 9, 21)|
  {
    InnerBounds();
    RectBounds(13, 21, 9, 21);
    ApartCard(Rect(0, 6, 9, 13) + Rect(7, 9, 9, 13) + (Rect(9, 13, 0, 6) + Rect(9, 13, 7, 21)), Rect(13, 21, 9, 21), 13, true);
  }

  /** The lower right quarter holds 8 * 12 cells. */
  lemma QuarterCard()
    ensures |Rect(13, 21, 9, 21)| == 96
  {
    RectCard(13, 21, 9, 21);
  }

  /** The open rectangles do not overlap, so they hold 32 + 80 + 96 cells. */
  lemma OpenCellsCard()
    ensures |OpenCells()| == 208
  {
    QuarterCard();
    InnerCard();
    OuterApart();
  }

  /** Every open cell is one that placement fills. */
  lemma OpenCellsFree(version: nat)
    requires version == 1
    ensures OpenCells() <= set k | 0 <= k < |FreeOf(version)| :: FreeOf(version)[k]
  {
    forall p | p in OpenCells()
      ensures p in set k | 0 <= k < |FreeOf(version)| :: FreeOf(version)[k]
    {
      OpenCellFree(version, p);
    }
  }

  lemma OpenCellFree(version: nat, p: Pos)
    requires version == 1 && p in OpenCells()
    ensures p in set k | 0 <= k < |FreeOf(version)| :: FreeOf(version)[k]
  {
    var g, size := TemplateGrid(version), SymbolSize(version);
    assert OpenInVersionOne(p.0, p.1);
    OpenIsUnset(p.0, p.1);
    assert InGrid(size, p) && CellAt(g, p) == Unset;
    FreeCellsExactly(g, size, p);
    InValues(FreeOf(version), p);
  }

  /** A member of a sequence is one of its values. */
  lemma InValues<T>(s: seq<T>, x: T)
    requires x in s
    ensures x in set k | 0 <= k < |s| :: s[k]
  {
    var k :| 0 <= k < |s| && s[k] == x;
  }


  /**
   * A version-1 symbol has a free cell for every bit of its 26 codewords,
   * so placement never runs out of cells there.
   */
  lemma VersionOneRoom()
    ensures 8 * TotalCodewords(1) <= |FreeOf(1)|
  {
    var f := FreeOf(1);
    OpenCellsCard();
    OpenCellsFree(1);
    SubsetCard(OpenCells(), set k | 0 <= k < |f| :: f[k]);
    SeqSetCard(f);
  }
}
