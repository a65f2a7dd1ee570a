/**
 * Data placement of `__buildSymbol`: the message bits, most significant bit
 * of each codeword first, are written along a zigzag path through the cells
 * the function patterns left unwritten, each bit combined with the chosen
 * data mask (sections 7.7.3 and 7.8.2 of ISO/IEC 18004:2015).
 *
 * The path runs over pairs of columns from the right edge to the left edge,
 * upwards in the rightmost pair and alternating, and within each row visits
 * the right column of the pair before the left one. Column 6 (the vertical
 * timing pattern) belongs to no pair: the path crosses it once, at (6, 0).
 */
module Placement {
  import opened Bits
  import opened Matrix

  // The data masks

  /**
   * `__maskFunctions[mask]` keeps m where its expression is non-zero;
   * this is that expression's non-zero test, for x, y >= 0.
   */
  predicate MaskKeeps(mask: int, x: nat, y: nat) {
    if mask == 0 then (x + y) % 2 != 0
    else if mask == 1 then y % 2 != 0
    else if mask == 2 then x % 3 != 0
    else if mask == 3 then (x + y) % 3 != 0
    else if mask == 4 then (y / 2 + x / 3) % 2 != 0
    else if mask == 5 then (x * y) % 2 + (x * y) % 3 != 0
    else if mask == 6 then ((x * y) % 2 + (x * y) % 3) % 2 != 0
    else ((x + y) % 2 + (x * y) % 3) % 2 != 0
  }

  /**
   * The mask conditions of Table 10 of ISO/IEC 18004:2015, on row i and
   * column j: where the condition holds the module is inverted.
   */
  predicate InvertsAt(mask: int, i: nat, j: nat) {
    match mask
    case 0 => (i + j) % 2 == 0
    case 1 => i % 2 == 0
    case 2 => j % 3 == 0
    case 3 => (i + j) % 3 == 0
    case 4 => (i / 2 + j / 3) % 2 == 0
    case 5 => (i * j) % 2 + (i * j) % 3 == 0
    case 6 => ((i * j) % 2 + (i * j) % 3) % 2 == 0
    case _ => ((i + j) % 2 + (i * j) % 3) % 2 == 0
  }

  /** `__maskFunctions[mask](m, x, y)`: the module bit m after masking, which is m inverted exactly where the standard's condition holds at row y, column x. */
  function MaskFunction(mask: int, m: bool, x: nat, y: nat): (r: bool)
    requires 0 <= mask < 8
    ensures r == (m != InvertsAt(mask, y, x))
  {
    if MaskKeeps(mask, x, y) then m else !m
  }

  /** Masking twice restores the bit, so a reader recovers the message by applying the same mask. */
  lemma MaskInvolution(mask: int, m: bool, x: nat, y: nat)
    requires 0 <= mask < 8
    ensures MaskFunction(mask, MaskFunction(mask, m, x, y), x, y) == m
  {
  }

  // The zigzag path

  /** Symbol sizes are 17 + 4 * version. */
  predicate SizeOk(size: int) {
    size >= 21 && size % 4 == 1
  }

  /** The pairs of columns, numbered from the left edge; column 6 belongs to none. */
  function Pair(x: nat): nat {
    if x >= 7 then (x - 7) / 2 + 3 else x / 2
  }

  /** The column of its pair that the path visits first in each row. */
  predicate RightColumn(x: nat) {
    if x >= 7 then x % 2 == 0 else x % 2 == 1
  }

  /** The vertical direction of the path in column x: -1 upwards, 1 downwards. */
  function DirOf(x: nat): int {
    if x == 6 || Pair(x) % 2 == 0 then 1 else -1
  }

  /** The placement loop's variables x, y and dir. */
  datatype Walker = Walker(x: int, y: int, dir: int)

  /** The walker states on the path: every cell with its column's direction, and in column 6 only (6, 0). */
  predicate OnPath(size: int, w: Walker) {
    && SizeOk(size)
    && 0 <= w.x < size && 0 <= w.y < size
    && (w.x == 6 ==> w.y == 0)
    && w.dir == DirOf(w.x)
  }

  /** The cells of the first p pairs of columns: p * 2 * size. */
  function PairCells(p: nat, size: nat): nat {
    if p == 0 then 0 else PairCells(p - 1, size) + 2 * size
  }

  /** The number of steps left before the path ends. */
  function Remaining(size: int, w: Walker): nat
    requires OnPath(size, w)
  {
    if w.x == 6 then PairCells(3, size)
    else
      var rows := if w.dir == -1 then w.y else size - 1 - w.y;
      PairCells(Pair(w.x), size) + 2 * rows + (if RightColumn(w.x) then 1 else 0) + (if w.x >= 7 then 1 else 0)
  }

  /** Where the placement loop starts: the bottom right corner, going up. */
  function Start(size: int): Walker {
    Walker(size - 1, size - 1, -1)
  }

  /**
   * One move of the placement loop: from the right column of a pair to its
   * left column, or from the left column to the right column of the next
   * row; past the top or bottom edge, the direction turns and the walker
   * moves to the next pair on the left.
   */
  function Step(size: int, w: Walker): Walker {
    if (w.x % 2 == 1) == (w.x < 6) then Walker(w.x - 1, w.y, w.dir)
    else
      var x, y := w.x + 1, w.y + w.dir;
      if y < 0 || y == size then Walker(x - (2 - (if x == 6 then 1 else 0)), y - w.dir, -w.dir)
      else Walker(x, y, w.dir)
  }

  lemma StartOnPath(size: int)
    requires SizeOk(size)
    ensures OnPath(size, Start(size))
    ensures Remaining(size, Start(size)) == PairCells(Pair(size - 1) + 1, size)
  {
    LastPair(size);
  }

  /** The rightmost pair is walked upwards. */
  lemma LastPair(size: int)
    requires SizeOk(size)
    ensures Pair(size - 1) == (size - 1) / 2 - 1
    ensures Pair(size - 1) % 2 == 1
  {
    var k := size / 4;
    assert size == 4 * k + 1;
    assert (size - 8) / 2 == 2 * k - 4;
  }

  /** Each move stays on the path and takes one step off what remains; the path ends by leaving the matrix on the left. */
  lemma StepOnPath(size: int, w: Walker)
    requires OnPath(size, w)
    ensures Remaining(size, w) > 0 ==> OnPath(size, Step(size, w)) && Remaining(size, Step(size, w)) == Remaining(size, w) - 1
    ensures Remaining(size, w) == 0 <==> Step(size, w).x < 0
  {
    if (w.x % 2 == 1) == (w.x < 6) {
      StepAcross(size, w);
    } else if 0 <= w.y + w.dir < size {
      StepUp(size, w);
    } else {
      StepTurn(size, w);
    }
  }

  /** From the right column of a pair to its left column, or from (6, 0) to (5, 0). */
  lemma StepAcross(size: int, w: Walker)
    requires OnPath(size, w) && (w.x % 2 == 1) == (w.x < 6)
    ensures Remaining(size, w) > 0
    ensures OnPath(size, Step(size, w)) && Remaining(size, Step(size, w)) == Remaining(size, w) - 1
  {
    assert Pair(w.x - 1) == Pair(w.x) || w.x == 6;
  }

  /** From the left column of a pair to the right column of the next row. */
  lemma StepUp(size: int, w: Walker)
    requires OnPath(size, w) && (w.x % 2 == 1) != (w.x < 6) && 0 <= w.y + w.dir < size
    ensures Remaining(size, w) > 0
    ensures OnPath(size, Step(size, w)) && Remaining(size, Step(size, w)) == Remaining(size, w) - 1
  {
  }

  /** Past the edge: the next pair on the left, or the end of the path after column 0. */
  lemma StepTurn(size: int, w: Walker)
    requires OnPath(size, w) && (w.x % 2 == 1) != (w.x < 6) && !(0 <= w.y + w.dir < size)
    ensures Remaining(size, w) == 0 <==> Step(size, w).x < 0
    ensures Remaining(size, w) > 0 ==> OnPath(size, Step(size, w)) && Remaining(size, Step(size, w)) == Remaining(size, w) - 1
  {
    var rows := if w.dir == -1 then w.y else size - 1 - w.y;
    assert rows == 0;
    if w.x == 0 {
    } else if w.x == 7 {
      TurnToSix(size, w);
    } else {
      TurnToPair(size, w);
    }
  }

  lemma TurnToSix(size: int, w: Walker)
    requires OnPath(size, w) && w.x == 7 && !(0 <= w.y + w.dir < size)
    ensures Remaining(size, w) > 0
    ensures OnPath(size, Step(size, w)) && Remaining(size, Step(size, w)) == Remaining(size, w) - 1
  {
    assert Pair(7) == 3 && w.dir == -1 && w.y == 0;
  }

  lemma TurnToPair(size: int, w: Walker)
    requires OnPath(size, w) && (w.x % 2 == 1) != (w.x < 6) && !(0 <= w.y + w.dir < size)
    requires w.x >= 9 || 2 <= w.x <= 5
    ensures Remaining(size, w) > 0
    ensures OnPath(size, Step(size, w)) && Remaining(size, Step(size, w)) == Remaining(size, w) - 1
  {
    var p := Pair(w.x);
    assert Pair(w.x - 1) == p - 1;
    assert PairCells(p, size) == PairCells(p - 1, size) + 2 * size;
  }

  // The path and the cells it fills

  /** The cell a walker is on. */
  function Here(w: Walker): Pos {
    (w.x, w.y)
  }

  /** The cells the path can visit: every cell but those of column 6 below its top cell. */
  predicate Visitable(size: int, p: Pos) {
    InGrid(size, p) && (p.0 == 6 ==> p.1 == 0)
  }

  /** The walker at a visitable cell. */
  function WalkerAt(p: Pos): Walker {
    Walker(p.0, p.1, if p.0 >= 0 then DirOf(p.0) else 1)
  }

  /** The cells the placement loop visits from w on, in order, until it leaves the matrix. */
  function PathFrom(size: int, w: Walker): (path: seq<Pos>)
    requires OnPath(size, w)
    ensures |path| == Remaining(size, w) + 1
    ensures forall k :: 0 <= k < |path| ==> Visitable(size, path[k])
    decreases Remaining(size, w)
  {
    if Remaining(size, w) == 0 then [Here(w)]
    else
      StepOnPath(size, w);
      [Here(w)] + PathFrom(size, Step(size, w))
  }

  /** The whole path, from the bottom right corner. */
  function FullPath(size: int): seq<Pos>
    requires SizeOk(size)
  {
    StartOnPath(size);
    PathFrom(size, Start(size))
  }

  /** The cells the path visits after w's own cell: none once w is at the last cell. */
  function PathAfter(size: int, w: Walker): (path: seq<Pos>)
    requires OnPath(size, w)
  {
    if Remaining(size, w) == 0 then []
    else
      StepOnPath(size, w);
      PathFrom(size, Step(size, w))
  }

  lemma {:induction false} PairCellsMono(a: nat, b: nat, size: nat)
    requires a < b
    ensures PairCells(a, size) + 2 * size <= PairCells(b, size)
    decreases b
  {
    if a + 1 < b {
      PairCellsMono(a, b - 1, size);
    }
  }

  lemma {:induction false} PairCellsProduct(p: nat, size: nat)
    ensures PairCells(p, size) == p * (2 * size)
  {
    if p > 0 {
      PairCellsProduct(p - 1, size);
      assert p * (2 * size) == (p - 1) * (2 * size) + 2 * size;
    }
  }

  /** Two walkers on the path with as many steps left are on the same cell. */
  lemma RemainingInjective(size: int, a: Walker, b: Walker)
    requires OnPath(size, a) && OnPath(size, b) && Remaining(size, a) == Remaining(size, b)
    ensures Here(a) == Here(b)
  {
    if a.x == 6 || b.x == 6 {
      if a.x != 6 {
        ColumnSixAlone(size, a);
      } else if b.x != 6 {
        ColumnSixAlone(size, b);
      }
    } else if Pair(a.x) < Pair(b.x) {
      PairsApart(size, a, b);
    } else if Pair(b.x) < Pair(a.x) {
      PairsApart(size, b, a);
    } else {
      SamePair(size, a, b);
    }
  }

  /** No walker outside column 6 has as many steps left as the one in it. */
  lemma ColumnSixAlone(size: int, w: Walker)
    requires OnPath(size, w) && w.x != 6
    ensures Remaining(size, w) != PairCells(3, size)
  {
    assert PairCells(3, size) == PairCells(2, size) + 2 * size;
    if Pair(w.x) > 3 {
      PairCellsMono(3, Pair(w.x), size);
    } else if Pair(w.x) < 2 {
      PairCellsMono(Pair(w.x), 2, size);
    }
  }

  /** A walker in a pair further left has fewer steps left. */
  lemma PairsApart(size: int, a: Walker, b: Walker)
    requires OnPath(size, a) && OnPath(size, b) && a.x != 6 && b.x != 6 && Pair(a.x) < Pair(b.x)
    ensures Remaining(size, a) < Remaining(size, b)
  {
    PairCellsMono(Pair(a.x), Pair(b.x), size);
  }

  /** In one pair of columns, the steps left fix the column and the row. */
  lemma SamePair(size: int, a: Walker, b: Walker)
    requires OnPath(size, a) && OnPath(size, b) && a.x != 6 && b.x != 6 && Pair(a.x) == Pair(b.x)
    requires Remaining(size, a) == Remaining(size, b)
    ensures Here(a) == Here(b)
  {
    assert (a.x >= 7) == (b.x >= 7);
    assert RightColumn(a.x) == RightColumn(b.x);
    assert a.x == b.x;
  }

  /** The path from w holds exactly the visitable cells with no more steps left than w. */
  lemma {:induction false} PathCovers(size: int, w: Walker, p: Pos)
    requires OnPath(size, w) && Visitable(size, p)
    ensures OnPath(size, WalkerAt(p))
    ensures p in PathFrom(size, w) <==> Remaining(size, WalkerAt(p)) <= Remaining(size, w)
    decreases Remaining(size, w)
  {
    assert WalkerAt(Here(w)) == w;
    if Remaining(size, WalkerAt(p)) == Remaining(size, w) {
      RemainingInjective(size, WalkerAt(p), w);
    }
    if Remaining(size, w) > 0 {
      StepOnPath(size, w);
      PathCovers(size, Step(size, w), p);
    }
  }

  /** The k-th cell of the path from w has k steps fewer left. */
  lemma {:induction false} PathRemaining(size: int, w: Walker, k: nat)
    requires OnPath(size, w) && k < |PathFrom(size, w)|
    ensures OnPath(size, WalkerAt(PathFrom(size, w)[k]))
    ensures Remaining(size, WalkerAt(PathFrom(size, w)[k])) == Remaining(size, w) - k
    decreases k
  {
    if k == 0 {
      assert WalkerAt(Here(w)) == w;
    } else {
      StepOnPath(size, w);
      PathRemaining(size, Step(size, w), k - 1);
    }
  }

  /** The zigzag visits every cell outside column 6, and the top cell of column 6. */
  lemma PathCoversAll(size: int, p: Pos)
    requires SizeOk(size)
    ensures p in FullPath(size) <==> Visitable(size, p)
  {
    var path := FullPath(size);
    if p in path {
      var k :| 0 <= k < |path| && path[k] == p;
      assert Visitable(size, path[k]);
    }
    if Visitable(size, p) {
      VisitableOnPath(size, p);
    }
  }

  lemma VisitableOnPath(size: int, p: Pos)
    requires SizeOk(size) && Visitable(size, p)
    ensures p in FullPath(size)
  {
    StartOnPath(size);
    PathCovers(size, Start(size), p);
    RemainingBelowStart(size, WalkerAt(p));
  }

  /** No walker on the path has more steps left than the one at the start. */
  lemma RemainingBelowStart(size: int, w: Walker)
    requires OnPath(size, w)
    ensures Remaining(size, w) <= Remaining(size, Start(size))
  {
    StartOnPath(size);
    LastPair(size);
    var q := if w.x == 6 then 3 else Pair(w.x);
    assert q <= Pair(size - 1);
    PairCellsMono(q, Pair(size - 1) + 1, size);
  }

  /** The zigzag visits no cell twice. */
  lemma PathDistinct(size: int, j: nat, k: nat)
    requires SizeOk(size) && j < k < |FullPath(size)|
    ensures FullPath(size)[j] != FullPath(size)[k]
  {
    StartOnPath(size);
    PathRemaining(size, Start(size), j);
    PathRemaining(size, Start(size), k);
  }

  /** The zigzag is size * size - (size - 1) cells long: all cells but the lower size - 1 of column 6. */
  lemma PathLength(size: int)
    requires SizeOk(size)
    ensures |FullPath(size)| == size * size - (size - 1)
  {
    StartOnPath(size);
    LastPair(size);
    var p := Pair(size - 1);
    StartRemaining(size, p);
    PairCellsProduct(p, size);
    CellCount(size, p, PairCells(p, size) + 2 * size);
  }

  /** From the start, the walker has every pair of columns to its left and its own pair still to go. */
  lemma StartRemaining(size: int, p: nat)
    requires SizeOk(size) && p == Pair(size - 1) && OnPath(size, Start(size))
    ensures Remaining(size, Start(size)) == PairCells(p, size) + 2 * size
  {
    assert RightColumn(size - 1) by {
      LastPair(size);
    }
  }

  lemma CellCount(size: int, p: int, r: int)
    requires size - 1 == 2 * (p + 1) && r == p * (2 * size) + 2 * size
    ensures r + 1 == size * size - (size - 1)
  {
  }

  // The message bits

  /**
   * Bit t of the message, most significant bit of each codeword first;
   * past the end of the message, 0, as an `undefined` codeword reads in `&`.
   */
  function MessageBit(msg: seq<Byte>, t: nat): bool {
    if t < 8 * |msg| then BytesBits(msg)[t] else false
  }

  /** `(b & (1 << e)) != 0` is bit 7 - e of the byte, counted from the most significant. */
  lemma {:induction false} AndPow2(v: nat, n: nat, e: nat)
    requires e < n
    ensures (And(v, Pow2(e)) != 0) == LowBits(v, n)[n - 1 - e]
    decreases e
  {
    if e == 0 {
      assert Pow2(0) == 1;
      if v != 0 {
        assert And(v, 1) == 2 * And(v / 2, 0) + (if v % 2 == 1 then 1 else 0);
      }
    } else {
      AndPow2(v / 2, n - 1, e - 1);
      if v != 0 {
        assert Pow2(e) / 2 == Pow2(e - 1) && Pow2(e) % 2 == 0;
      }
    }
  }

  /** The bits of codeword i are bits 8 * i to 8 * i + 7 of the message. */
  lemma {:induction false} BytesBitsAt(msg: seq<Byte>, i: nat, k: nat)
    requires i < |msg| && k < 8
    ensures BytesBits(msg)[8 * i + k] == ByteBits(msg[i])[k]
    decreases |msg|
  {
    var init := msg[..|msg| - 1];
    assert BytesBits(msg) == BytesBits(init) + ByteBits(msg[|msg| - 1]);
    if i < |msg| - 1 {
      BytesBitsAt(init, i, k);
    }
  }

  /** The bit the loop reads with `message[i] & bit`, `bit` being 2^e. */
  lemma CurrentBit(msg: seq<Byte>, i: nat, e: nat)
    requires e < 8
    ensures (And(if i < |msg| then msg[i] else 0, Pow2(e)) != 0) == MessageBit(msg, 8 * i + 7 - e)
  {
    if i < |msg| {
      var t := 8 * i + 7 - e;
      assert t < 8 * |msg|;
      AndPow2(msg[i], BYTE_BITS, e);
      BytesBitsAt(msg, i, 7 - e);
      assert MessageBit(msg, t) == ByteBits(msg[i])[7 - e];
    } else {
      assert And(0, Pow2(e)) == 0;
    }
  }

  // The cells placement fills

  /**
   * The cells of g that placement fills while the path goes through vs, in
   * the order it fills them: each cell of the path that g leaves unwritten,
   * on its first visit.
   */
  function FreeIn(g: seq<seq<Cell>>, vs: seq<Pos>): (f: seq<Pos>)
    ensures |f| <= |vs|
    ensures forall k :: 0 <= k < |f| ==> InGrid(|g|, f[k]) && CellAt(g, f[k]) == Unset
  {
    if vs == [] then []
    else
      var f := FreeIn(g, vs[..|vs| - 1]);
      var p := vs[|vs| - 1];
      if InGrid(|g|, p) && CellAt(g, p) == Unset && p !in f then f + [p] else f
  }

  lemma FreeInSnoc(g: seq<seq<Cell>>, vs: seq<Pos>, p: Pos)
    ensures FreeIn(g, vs + [p]) == if InGrid(|g|, p) && CellAt(g, p) == Unset && p !in FreeIn(g, vs) then FreeIn(g, vs) + [p] else FreeIn(g, vs)
  {
    assert (vs + [p])[..|vs|] == vs;
  }

  /** What is filled along a prefix of the path is a prefix of what is filled along all of it. */
  lemma {:induction false} FreeInPrefix(g: seq<seq<Cell>>, a: seq<Pos>, b: seq<Pos>)
    ensures |FreeIn(g, a)| <= |FreeIn(g, a + b)|
    ensures FreeIn(g, a + b)[..|FreeIn(g, a)|] == FreeIn(g, a)
    decreases |b|
  {
    if b != [] {
      var b' := b[..|b| - 1];
      FreeInPrefix(g, a, b');
      assert a + b == (a + b') + [b[|b| - 1]];
      FreeInSnoc(g, a + b', b[|b| - 1]);
    } else {
      assert a + b == a;
    }
  }

  /** The cells placement can fill in a matrix g, in the order it fills them. */
  function FreeCells(g: seq<seq<Cell>>, size: int): seq<Pos>
    requires SizeOk(size)
  {
    FreeIn(g, FullPath(size))
  }

  /** The cells filled along vs are the unwritten cells of g on vs. */
  lemma {:induction false} FreeInMembers(g: seq<seq<Cell>>, vs: seq<Pos>, p: Pos)
    ensures p in FreeIn(g, vs) <==> p in vs && InGrid(|g|, p) && CellAt(g, p) == Unset
    decreases |vs|
  {
    if vs != [] {
      var init := vs[..|vs| - 1];
      FreeInMembers(g, init, p);
      assert vs == init + [vs[|vs| - 1]];
    }
  }

  /** No cell is filled twice. */
  lemma {:induction false} FreeInDistinct(g: seq<seq<Cell>>, vs: seq<Pos>, j: nat, k: nat)
    requires j < k < |FreeIn(g, vs)|
    ensures FreeIn(g, vs)[j] != FreeIn(g, vs)[k]
    decreases |vs|
  {
    var init := vs[..|vs| - 1];
    var f := FreeIn(g, init);
    if k < |f| {
      FreeInDistinct(g, init, j, k);
    } else {
      assert FreeIn(g, vs)[k] !in f;
      assert FreeIn(g, vs)[j] == f[j];
    }
  }

  /**
   * Placement can fill exactly the cells of g that are unwritten and on the
   * zigzag, each one once.
   */
  lemma FreeCellsExactly(g: seq<seq<Cell>>, size: int, p: Pos)
    requires SizeOk(size) && |g| == size
    ensures p in FreeCells(g, size) <==> Visitable(size, p) && CellAt(g, p) == Unset
    ensures forall j, k :: 0 <= j < k < |FreeCells(g, size)| ==> FreeCells(g, size)[j] != FreeCells(g, size)[k]
  {
    FreeInMembers(g, FullPath(size), p);
    PathCoversAll(size, p);
    forall j, k | 0 <= j < k < |FreeCells(g, size)|
      ensures FreeCells(g, size)[j] != FreeCells(g, size)[k]
    {
      FreeInDistinct(g, FullPath(size), j, k);
    }
  }

  // The placement loop

  /** Cell f[t] holds message bit t under the mask, for every t. */
  ghost predicate Written(sym: array2<Cell>, f: seq<Pos>, msg: seq<Byte>, mask: int)
    reads sym
    requires 0 <= mask < 8
  {
    forall t :: 0 <= t < |f| ==>
      && 0 <= f[t].0 < sym.Length0 && 0 <= f[t].1 < sym.Length1
      && sym[f[t].0, f[t].1] == Module(MaskFunction(mask, MessageBit(msg, t), f[t].0, f[t].1))
  }

  /** Every cell outside f still holds what g holds. */
  ghost predicate Untouched(sym: array2<Cell>, g: seq<seq<Cell>>, f: seq<Pos>)
    reads sym
  {
    forall a, b :: 0 <= a < sym.Length0 && 0 <= b < sym.Length1 && (a, b) !in f ==> sym[a, b] == CellAt(g, (a, b))
  }

  /**
   * What a successful placement leaves in the matrix g1, from the matrix g0
   * the function patterns built: the first 8 * |msg| cells placement can
   * fill hold the message bits under the mask, and every other cell is as
   * it was, so the remainder cells stay unwritten.
   */
  ghost predicate Placed(g0: seq<seq<Cell>>, g1: seq<seq<Cell>>, size: int, msg: seq<Byte>, mask: int)
    requires SizeOk(size) && 0 <= mask < 8
  {
    var f := FreeCells(g0, size);
    && 8 * |msg| <= |f|
    && (forall t :: 0 <= t < 8 * |msg| ==> CellAt(g1, f[t]) == Module(MaskFunction(mask, MessageBit(msg, t), f[t].0, f[t].1)))
    && (forall a, b :: 0 <= a < size && 0 <= b < size && (a, b) !in f[..8 * |msg|] ==> CellAt(g1, (a, b)) == CellAt(g0, (a, b)))
  }

  /**
   * The placement loop of `__buildSymbol`. It succeeds exactly when the
   * message is not empty and fits in the cells the function patterns left
   * unwritten; otherwise the walker leaves the matrix on the left, which is
   * where the source raises its internal error.
   */
  method PlaceMessage(sym: array2<Cell>, msg: seq<Byte>, mask: int) returns (ok: bool)
    requires sym.Length0 == sym.Length1 && SizeOk(sym.Length0) && 0 <= mask < 8
    modifies sym
    ensures ok <==> 1 <= |msg| && 8 * |msg| <= |FreeCells(old(Snapshot(sym)), sym.Length0)|
    ensures ok ==> Placed(old(Snapshot(sym)), Snapshot(sym), sym.Length0, msg, mask)
  {
    var size := sym.Length0;
    ghost var g := Snapshot(sym);
    var bit: nat := 0x80;
    ghost var e: nat := 7;
    var x, y, dir := size - 1, size - 1, -1;
    var i: nat := 0;
    ghost var visited: seq<Pos> := [];
    PathStart(size, x, y, dir);
    while true
      invariant OnPath(size, Walker(x, y, dir))
      invariant visited + PathFrom(size, Walker(x, y, dir)) == FullPath(size)
      invariant e <= 7 && bit == Pow2(e)
      invariant |msg| == 0 || i < |msg|
      invariant |FreeIn(g, visited)| == 8 * i + 7 - e
      invariant Written(sym, FreeIn(g, visited), msg, mask)
      invariant Untouched(sym, g, FreeIn(g, visited))
      decreases Remaining(size, Walker(x, y, dir))
    {
      ghost var w := Walker(x, y, dir);
      var done;
      done, i, bit, e := Visit(sym, g, visited, msg, mask, x, y, i, bit, e);
      PathAdvance(size, visited, w);
      visited := visited + [(x, y)];
      if done {
        Conclude(sym, g, visited, w, msg, mask);
        return true;
      }
      x, y, dir := Advance(size, x, y, dir);
      if x < 0 {
        assert visited == FullPath(size);
        return false;
      }
    }
  }

  lemma PathStart(size: int, x: int, y: int, dir: int)
    requires SizeOk(size) && x == size - 1 && y == size - 1 && dir == -1
    ensures OnPath(size, Walker(x, y, dir))
    ensures [] + PathFrom(size, Walker(x, y, dir)) == FullPath(size)
  {
    StartOnPath(size);
    assert Start(size) == Walker(x, y, dir);
  }

  /** The loop's move, as the source writes it. */
  method Advance(size: int, x: int, y: int, dir: int) returns (x': int, y': int, dir': int)
    requires OnPath(size, Walker(x, y, dir))
    ensures Walker(x', y', dir') == Step(size, Walker(x, y, dir))
    ensures x' < 0 <==> Remaining(size, Walker(x, y, dir)) == 0
    ensures x' >= 0 ==> OnPath(size, Walker(x', y', dir')) && Remaining(size, Walker(x', y', dir')) < Remaining(size, Walker(x, y, dir))
  {
    StepOnPath(size, Walker(x, y, dir));
    x', y', dir' := x, y, dir;
    if (x' % 2 == 1) == (x' < 6) {
      x' := x' - 1;
    } else {
      x' := x' + 1;
      y' := y' + dir';
      if y' < 0 || y' == size {
        dir' := -dir';
        y' := y' + dir';
        x' := x' - (2 - (if x' == 6 then 1 else 0));
      }
    }
  }

  /** Visiting a walker state adds its cell to the visited part of the path. */
  lemma PathAdvance(size: int, visited: seq<Pos>, w: Walker)
    requires OnPath(size, w) && visited + PathFrom(size, w) == FullPath(size)
    ensures Remaining(size, w) > 0 ==> OnPath(size, Step(size, w)) && PathAfter(size, w) == PathFrom(size, Step(size, w))
    ensures (visited + [Here(w)]) + PathAfter(size, w) == FullPath(size)
  {
    if Remaining(size, w) > 0 {
      StepOnPath(size, w);
    } else {
      assert PathFrom(size, w) == [Here(w)];
    }
    assert PathFrom(size, w) == [Here(w)] + PathAfter(size, w);
    Assoc(visited, [Here(w)], PathAfter(size, w));
  }

  /**
   * The body of the placement loop at one cell: an unwritten cell receives
   * the current message bit under the mask, and the bit position moves on to
   * the next bit, `done` once the last bit of the last codeword is written.
   */
  method Visit(sym: array2<Cell>, ghost g: seq<seq<Cell>>, ghost vs: seq<Pos>, msg: seq<Byte>, mask: int,
               x: int, y: int, i: nat, bit: nat, ghost e: nat)
      returns (done: bool, i': nat, bit': nat, ghost e': nat)
    requires sym.Length0 == sym.Length1 == |g| && 0 <= mask < 8
    requires 0 <= x < sym.Length0 && 0 <= y < sym.Length1
    requires e <= 7 && bit == Pow2(e) && (|msg| == 0 || i < |msg|)
    requires |FreeIn(g, vs)| == 8 * i + 7 - e
    requires Written(sym, FreeIn(g, vs), msg, mask) && Untouched(sym, g, FreeIn(g, vs))
    modifies sym
    ensures Written(sym, FreeIn(g, vs + [(x, y)]), msg, mask) && Untouched(sym, g, FreeIn(g, vs + [(x, y)]))
    ensures done ==> 1 <= |msg| && |FreeIn(g, vs + [(x, y)])| == 8 * |msg|
    ensures !done ==> e' <= 7 && bit' == Pow2(e') && (|msg| == 0 || i' < |msg|)
    ensures !done ==> |FreeIn(g, vs + [(x, y)])| == 8 * i' + 7 - e'
  {
    FreeInSnoc(g, vs, (x, y));
    if sym[x, y] == Unset {
      done, i', bit', e' := PlaceBit(sym, g, vs, msg, mask, x, y, i, bit, e);
    } else {
      NoWrite(sym, g, FreeIn(g, vs), x, y);
      done, i', bit', e' := false, i, bit, e;
    }
  }

  /** Visit at a free module: the current bit of the message, masked, goes there. */
  method PlaceBit(sym: array2<Cell>, ghost g: seq<seq<Cell>>, ghost vs: seq<Pos>, msg: seq<Byte>, mask: int,
                  x: int, y: int, i: nat, bit: nat, ghost e: nat)
      returns (done: bool, i': nat, bit': nat, ghost e': nat)
    requires sym.Length0 == sym.Length1 == |g| && 0 <= mask < 8
    requires 0 <= x < sym.Length0 && 0 <= y < sym.Length1
    requires e <= 7 && bit == Pow2(e) && (|msg| == 0 || i < |msg|)
    requires |FreeIn(g, vs)| == 8 * i + 7 - e && sym[x, y] == Unset
    requires Written(sym, FreeIn(g, vs), msg, mask) && Untouched(sym, g, FreeIn(g, vs))
    modifies sym
    ensures Written(sym, FreeIn(g, vs + [(x, y)]), msg, mask) && Untouched(sym, g, FreeIn(g, vs + [(x, y)]))
    ensures done ==> 1 <= |msg| && |FreeIn(g, vs + [(x, y)])| == 8 * |msg|
    ensures !done ==> e' <= 7 && bit' == Pow2(e') && (|msg| == 0 || i' < |msg|)
    ensures !done ==> |FreeIn(g, vs + [(x, y)])| == 8 * i' + 7 - e'
  {
    ghost var f := FreeIn(g, vs);
    var byte := if i < |msg| then msg[i] else 0;
    CurrentBit(msg, i, e);
    WriteModule(sym, g, f, msg, mask, x, y, Module(MaskFunction(mask, And(byte, bit) != 0, x, y)));
    FreeInSnoc(g, vs, (x, y));
    done, i', bit', e' := NextBit(msg, i, bit, e);
  }

  /** The bit counters of `mapData` one bit on: the next bit of the same byte, or the top bit of the next byte. */
  method NextBit(msg: seq<Byte>, i: nat, bit: nat, ghost e: nat) returns (done: bool, i': nat, bit': nat, ghost e': nat)
    requires e <= 7 && bit == Pow2(e) && (|msg| == 0 || i < |msg|)
    ensures done <==> e == 0 && i + 1 == |msg|
    ensures done ==> 1 <= |msg| && 8 * i + 7 - e + 1 == 8 * |msg|
    ensures !done ==> e' <= 7 && bit' == Pow2(e') && (|msg| == 0 || i' < |msg|)
    ensures !done ==> 8 * i' + 7 - e' == 8 * i + 7 - e + 1
  {
    done, i', bit', e' := false, i, bit, e;
    if bit > 1 {
      bit' := bit / 2;
      e' := e - 1;
    } else {
      i' := i + 1;
      if i' == |msg| {
        done := true;
      } else {
        bit' := 0x80;
        e' := 7;
      }
    }
  }


  /** Writing message bit |f| into an unwritten cell extends f by that cell. */
  method WriteModule(sym: array2<Cell>, ghost g: seq<seq<Cell>>, ghost f: seq<Pos>, msg: seq<Byte>, mask: int,
                     x: int, y: int, v: Cell)
    requires sym.Length0 == sym.Length1 == |g| && 0 <= mask < 8
    requires 0 <= x < sym.Length0 && 0 <= y < sym.Length1 && sym[x, y] == Unset
    requires v == Module(MaskFunction(mask, MessageBit(msg, |f|), x, y))
    requires Written(sym, f, msg, mask) && Untouched(sym, g, f)
    modifies sym
    ensures (x, y) !in f && InGrid(|g|, (x, y)) && CellAt(g, (x, y)) == Unset
    ensures Written(sym, f + [(x, y)], msg, mask) && Untouched(sym, g, f + [(x, y)])
  {
    assert (x, y) !in f;
    sym[x, y] := v;
  }

  /** A cell already written is either one placement filled or one the function patterns own. */
  lemma NoWrite(sym: array2<Cell>, g: seq<seq<Cell>>, f: seq<Pos>, x: int, y: int)
    requires sym.Length0 == sym.Length1 == |g|
    requires 0 <= x < sym.Length0 && 0 <= y < sym.Length1 && sym[x, y] != Unset
    requires Untouched(sym, g, f)
    ensures !(InGrid(|g|, (x, y)) && CellAt(g, (x, y)) == Unset && (x, y) !in f)
  {
  }

  /** When the last bit is written, the placed cells are the first 8 * |msg| cells placement can fill. */
  lemma Conclude(sym: array2<Cell>, g: seq<seq<Cell>>, visited: seq<Pos>, w: Walker, msg: seq<Byte>, mask: int)
    requires sym.Length0 == sym.Length1 == |g| && SizeOk(|g|) && 0 <= mask < 8 && OnPath(|g|, w)
    requires visited + PathAfter(|g|, w) == FullPath(|g|)
    requires |FreeIn(g, visited)| == 8 * |msg|
    requires Written(sym, FreeIn(g, visited), msg, mask) && Untouched(sym, g, FreeIn(g, visited))
    ensures 8 * |msg| <= |FreeCells(g, |g|)|
    ensures Placed(g, Snapshot(sym), |g|, msg, mask)
  {
    ConcludeCells(g, visited, w);
    WrittenPlaced(sym, g, FreeIn(g, visited), msg, mask);
  }

  /** The cells filled along a prefix of the path are the first cells placement can fill. */
  lemma ConcludeCells(g: seq<seq<Cell>>, visited: seq<Pos>, w: Walker)
    requires SizeOk(|g|) && OnPath(|g|, w)
    requires visited + PathAfter(|g|, w) == FullPath(|g|)
    ensures |FreeIn(g, visited)| <= |FreeCells(g, |g|)|
    ensures FreeCells(g, |g|)[..|FreeIn(g, visited)|] == FreeIn(g, visited)
  {
    FreeInPrefix(g, visited, PathAfter(|g|, w));
  }

  /** A symbol that holds the masked message bits in the first free cells, and g elsewhere, is the placed symbol. */
  lemma WrittenPlaced(sym: array2<Cell>, g: seq<seq<Cell>>, f: seq<Pos>, msg: seq<Byte>, mask: int)
    requires sym.Length0 == sym.Length1 == |g| && SizeOk(|g|) && 0 <= mask < 8
    requires |f| == 8 * |msg| <= |FreeCells(g, |g|)| && FreeCells(g, |g|)[..|f|] == f
    requires Written(sym, f, msg, mask) && Untouched(sym, g, f)
    ensures Placed(g, Snapshot(sym), |g|, msg, mask)
  {
  }
}
