/**
 * The symbol assembly at the end of `__encodeSymbol`: one candidate symbol
 * per mask pattern (`__buildSymbol`), the choice of the candidate with the
 * lowest penalty score, and the format and version information written into
 * the chosen one (`__fillReservedAreas`).
 */
module Encoder {
  import opened Bits
  import opened Matrix
  import opened CodeTables
  import opened Patterns
  import opened Placement
  import opened Penalty
  import opened FormatInfo

  /** Every version's symbol size suits the zigzag placement. */
  lemma SymbolSizeOk(version: nat)
    requires 1 <= version
    ensures SizeOk(SymbolSize(version))
  {
    assert SymbolSize(version) == 4 * (version + 4) + 1;
  }

  /** The cells placement can fill in the function patterns of a version, in order. */
  function FreeOf(version: nat): seq<Pos>
    requires 1 <= version
  {
    SymbolSizeOk(version);
    FreeCells(TemplateGrid(version), SymbolSize(version))
  }

  /**
   * A message fits a version when placement writes all of its bits before
   * the walker leaves the matrix: otherwise `__buildSymbol` raises its
   * internal error.
   */
  predicate MessageFits(version: nat, msg: seq<Byte>)
    requires 1 <= version
  {
    1 <= |msg| && 8 * |msg| <= |FreeOf(version)|
  }

  /** Where p comes among the first n cells of f; n when it is none of them. */
  function IndexIn(f: seq<Pos>, p: Pos, n: nat): (t: nat)
    requires n <= |f|
    ensures t <= n
    ensures t < n ==> f[t] == p
    ensures t == n ==> forall k :: 0 <= k < n ==> f[k] != p
  {
    if n == 0 then 0
    else if f[n - 1] == p then n - 1
    else
      var t := IndexIn(f, p, n - 1);
      if t == n - 1 then n else t
  }

  /**
   * Module (x, y) of the candidate for a mask: the masked message bit in
   * the free cells the message reaches, the function patterns elsewhere.
   */
  function CandidateCell(version: nat, msg: seq<Byte>, mask: nat, x: nat, y: nat): Cell
    requires 1 <= version && mask < 8
  {
    var f := FreeOf(version);
    var n := if 8 * |msg| <= |f| then 8 * |msg| else |f|;
    var t := IndexIn(f, (x, y), n);
    if t < n then Module(MaskFunction(mask, MessageBit(msg, t), x, y)) else Template(version, x, y)
  }

  /** The candidate symbol for a mask, column by column. */
  function Candidate(version: nat, msg: seq<Byte>, mask: nat): (g: seq<seq<Cell>>)
    requires 1 <= version && mask < 8
    ensures |g| == SymbolSize(version)
    ensures forall a :: 0 <= a < |g| ==> |g[a]| == |g|
  {
    var size := SymbolSize(version);
    seq(size, a requires 0 <= a < size => seq(size, b requires 0 <= b < size => CandidateCell(version, msg, mask, a, b)))
  }

  /** One cell of a placement result is the candidate's. */
  lemma PlacedCell(version: nat, msg: seq<Byte>, mask: nat, g: seq<seq<Cell>>, a: nat, b: nat)
    requires 1 <= version && mask < 8 && a < SymbolSize(version) && b < SymbolSize(version)
    requires Placed(TemplateGrid(version), g, SymbolSize(version), msg, mask)
    ensures CellAt(g, (a, b)) == CandidateCell(version, msg, mask, a, b)
  {
    var f := FreeOf(version);
    var n := 8 * |msg|;
    var t := IndexIn(f, (a, b), n);
    if t == n {
      assert (a, b) !in f[..n];
    }
  }

  /**
   * Placement leaves exactly one matrix: any square matrix of the symbol's
   * size that is a placement of the message on the function patterns is
   * the candidate.
   */
  lemma PlacedIsCandidate(version: nat, msg: seq<Byte>, mask: nat, g: seq<seq<Cell>>)
    requires 1 <= version && mask < 8
    requires |g| == SymbolSize(version) && forall a :: 0 <= a < |g| ==> |g[a]| == |g|
    requires Placed(TemplateGrid(version), g, SymbolSize(version), msg, mask)
    ensures g == Candidate(version, msg, mask)
  {
    var c := Candidate(version, msg, mask);
    forall a | 0 <= a < |g|
      ensures g[a] == c[a]
    {
      forall b | 0 <= b < |g|
        ensures g[a][b] == c[a][b]
      {
        PlacedCell(version, msg, mask, g, a, b);
      }
    }
  }

  /**
   * `__buildSymbol`: the function patterns on an unwritten matrix, then the
   * message under the mask. It fails exactly when the message does not
   * fit, and otherwise builds the candidate.
   */
  method BuildSymbol(version: nat, msg: seq<Byte>, mask: nat) returns (sym: array2<Cell>, ok: bool)
    requires 1 <= version <= MAX_VERSION && mask < 8
    ensures fresh(sym) && sym.Length0 == sym.Length1 == SymbolSize(version)
    ensures ok <==> MessageFits(version, msg)
    ensures ok ==> Snapshot(sym) == Candidate(version, msg, mask)
  {
    var size := 17 + 4 * version;
    sym := new Cell[size, size]((_, _) => Unset);
    DrawFunctionPatterns(sym, version);
    TemplateSnapshot(sym, version);
    SymbolSizeOk(version);
    ok := PlaceMessage(sym, msg, mask);
    if ok {
      PlacedIsCandidate(version, msg, mask, Snapshot(sym));
    }
  }

  /** The penalty scores of the candidates of the masks below n, by mask. */
  function ScoresUpTo(version: nat, msg: seq<Byte>, n: nat): (s: seq<int>)
    requires 1 <= version && n <= 8
    ensures |s| == n
  {
    if n == 0 then []
    else ScoresUpTo(version, msg, n - 1) + [Score(Candidate(version, msg, n - 1), SymbolSize(version))]
  }

  /** The penalty score of each mask's candidate, by mask. */
  function MaskScores(version: nat, msg: seq<Byte>): (s: seq<int>)
    requires 1 <= version
    ensures |s| == 8
  {
    ScoresUpTo(version, msg, 8)
  }

  /**
   * The index the mask loop keeps: a later score replaces the kept one only
   * when it is strictly lower, so this is the first of the lowest scores.
   */
  function FirstMinimum(s: seq<int>): (m: nat)
    requires |s| > 0
    ensures m < |s|
    ensures forall i :: 0 <= i < |s| ==> s[m] <= s[i]
    ensures forall i :: 0 <= i < m ==> s[m] < s[i]
  {
    if |s| == 1 then 0
    else
      var k := FirstMinimum(s[..|s| - 1]);
      if s[|s| - 1] < s[k] then |s| - 1 else k
  }

  /** The index the loop keeps after score j, from the index m and score kept for the scores s before it. */
  lemma KeepStep(s: seq<int>, m: nat, score: int, j: int)
    requires |s| > 0 ==> m < |s| && m == FirstMinimum(s) && score == s[m]
    ensures (if |s| == 0 || j < score then |s| else m) == FirstMinimum(s + [j])
  {
    assert (s + [j])[..|s|] == s;
  }

  /** The first lowest score is the only index that is lowest and strictly below all before it. */
  lemma FirstMinimumUnique(s: seq<int>, m: nat)
    requires |s| > 0 && m < |s|
    ensures m == FirstMinimum(s) <==>
      (forall i :: 0 <= i < |s| ==> s[m] <= s[i]) && (forall i :: 0 <= i < m ==> s[m] < s[i])
  {
    var k := FirstMinimum(s);
  }

  /**
   * What the mask loop keeps after the masks below i: the candidate of the
   * first lowest score among them, its mask and its score.
   */
  ghost predicate Kept(version: nat, msg: seq<Byte>, i: nat, best: array2?<Cell>, m: nat, score: int)
    reads best
    requires 1 <= version && i <= 8
  {
    && MessageFits(version, msg) && m < i
    && m == FirstMinimum(ScoresUpTo(version, msg, i)) && score == ScoresUpTo(version, msg, i)[m]
    && best != null && best.Length0 == best.Length1 == SymbolSize(version)
    && Snapshot(best) == Candidate(version, msg, m)
  }

  /**
   * One pass of the mask loop: the candidate of mask i replaces the kept
   * one when nothing is kept yet (`score == -1`) or when its score is
   * strictly lower.
   */
  method TryMask(version: nat, msg: seq<Byte>, i: nat, best: array2?<Cell>, m: nat, score: int)
    returns (best': array2?<Cell>, m': nat, score': int, ok: bool)
    requires 1 <= version <= MAX_VERSION && i < 8
    requires i == 0 <==> score == -1
    requires i > 0 ==> Kept(version, msg, i, best, m, score)
    ensures ok <==> MessageFits(version, msg)
    ensures ok ==> Kept(version, msg, i + 1, best', m', score') && score' != -1
    ensures ok ==> (i > 0 && best' == best) || fresh(best')
  {
    var symbol, built := BuildSymbol(version, msg, i);
    if !built {
      return null, 0, -1, false;
    }
    var j := PenaltyScore(symbol);
    ok := true;
    if score == -1 || j < score {
      best', m', score' := symbol, i, j;
    } else {
      best', m', score' := best, m, score;
    }
    KeptNext(version, msg, i, best, m, score, symbol, j, best', m', score');
  }

  /** What the mask loop keeps after mask i, from what it kept before and the score j of mask i's candidate. */
  lemma KeptNext(version: nat, msg: seq<Byte>, i: nat, best: array2?<Cell>, m: nat, score: int,
                 symbol: array2<Cell>, j: int, best': array2?<Cell>, m': nat, score': int)
    requires 1 <= version <= MAX_VERSION && i < 8
    requires i == 0 <==> score == -1
    requires i > 0 ==> Kept(version, msg, i, best, m, score)
    requires MessageFits(version, msg)
    requires symbol.Length0 == symbol.Length1 == SymbolSize(version) && Snapshot(symbol) == Candidate(version, msg, i)
    requires j == Score(Snapshot(symbol), symbol.Length0)
    requires if score == -1 || j < score then best' == symbol && m' == i && score' == j
             else best' == best && m' == m && score' == score
    ensures Kept(version, msg, i + 1, best', m', score') && score' != -1
  {
    KeepStep(ScoresUpTo(version, msg, i), m, score, j);
  }

  /**
   * The mask loop of `__encodeSymbol`: a candidate per mask, keeping the
   * first one whose penalty score is lowest. The error of the first
   * candidate that does not fit ends the loop.
   */
  method ChooseMask(version: nat, msg: seq<Byte>) returns (best: array2?<Cell>, m: nat, ok: bool)
    requires 1 <= version <= MAX_VERSION
    ensures ok <==> MessageFits(version, msg)
    ensures ok ==> best != null && fresh(best) && best.Length0 == best.Length1 == SymbolSize(version)
    ensures ok ==> m == FirstMinimum(MaskScores(version, msg)) && Snapshot(best) == Candidate(version, msg, m)
  {
    best, m, ok := null, 0, true;
    var score: int := -1;
    var i: nat := 0;
    while i < 8
      invariant i <= 8
      invariant i == 0 <==> score == -1
      invariant i > 0 ==> Kept(version, msg, i, best, m, score)
      invariant i > 0 ==> fresh(best)
    {
      best, m, score, ok := TryMask(version, msg, i, best, m, score);
      if !ok {
        return;
      }
      i := i + 1;
    }
  }

  /** The cells `__fillReservedAreas` writes: the format information and, from version 7, the version information. */
  predicate Reserved(version: nat, x: int, y: int) {
    FormatCell(SymbolSize(version), x, y) || (version >= 7 && VersionArea(SymbolSize(version), x, y))
  }

  /**
   * The symbol sym is the matrix c with its reserved areas filled: c
   * everywhere but the reserved cells, which hold the format information of
   * the level and the mask in both copies and, from version 7, the version
   * information.
   */
  ghost predicate FilledOver(sym: array2<Cell>, c: seq<seq<Cell>>, version: nat, ecLevel: nat, mask: nat)
    reads sym
  {
    var size := SymbolSize(version);
    && sym.Length0 == sym.Length1 == size
    && (forall a, b :: 0 <= a < size && 0 <= b < size && !Reserved(version, a, b) ==> sym[a, b] == CellAt(c, (a, b)))
    && (exists fw: nat :: (IsFormatWord(fw, ecLevel, mask) &&
         forall a, b :: 0 <= a < size && 0 <= b < size && FormatCell(size, a, b) ==>
           sym[a, b] == Module(Bit(fw, FormatBitOf(size, a, b)))))
    && (version >= 7 ==> exists vw: nat :: (IsVersionWord(vw, version) &&
         forall a, b :: 0 <= a < size && 0 <= b < size && VersionArea(size, a, b) ==>
           sym[a, b] == Module(Bit(vw, VersionIndex(size, a, b)))))
  }

  /** The finished symbol: the candidate of the mask with its reserved areas filled. */
  ghost predicate Finished(sym: array2<Cell>, version: nat, ecLevel: nat, msg: seq<Byte>, mask: nat)
    reads sym
    requires 1 <= version && mask < 8
  {
    FilledOver(sym, Candidate(version, msg, mask), version, ecLevel, mask)
  }

  /** `__fillReservedAreas` on the chosen candidate c. */
  method FillChosen(sym: array2<Cell>, version: nat, ecLevel: nat, mask: nat, ghost c: seq<seq<Cell>>)
    requires 1 <= version <= MAX_VERSION && sym.Length0 == sym.Length1 == SymbolSize(version)
    requires ecLevel < 4 && mask < 8 && Snapshot(sym) == c
    modifies sym
    ensures FilledOver(sym, c, version, ecLevel, mask)
  {
    FillReservedAreas(sym, version, ecLevel, mask);
  }

  /**
   * The matrix part of `__encodeSymbol`: the chosen candidate with its
   * reserved areas filled, or the internal error when the message does not
   * fit.
   */
  method EncodeMatrix(version: nat, ecLevel: nat, msg: seq<Byte>) returns (sym: array2?<Cell>, ok: bool)
    requires 1 <= version <= MAX_VERSION && ecLevel < 4
    ensures ok <==> MessageFits(version, msg)
    ensures ok ==> sym != null && fresh(sym) && sym.Length0 == sym.Length1 == SymbolSize(version)
    ensures ok ==> Finished(sym, version, ecLevel, msg, FirstMinimum(MaskScores(version, msg)))
  {
    var m: nat;
    sym, m, ok := ChooseMask(version, msg);
    if ok {
      FillChosen(sym, version, ecLevel, m, Candidate(version, msg, m));
    }
  }

  /** No reserved cell is left to placement: the function patterns make each of them light. */
  lemma ReservedTemplate(version: nat, x: int, y: int)
    requires 1 <= version <= MAX_VERSION && 0 <= x < SymbolSize(version) && 0 <= y < SymbolSize(version)
    ensures Reserved(version, x, y) ==> Template(version, x, y) == Module(false)
  {
    if Reserved(version, x, y) {
      ReservedLight(version, x, y);
    }
  }

  /** Free cell t of the candidate holds message bit t under the mask. */
  lemma CandidateBit(version: nat, msg: seq<Byte>, mask: nat, t: nat)
    requires 1 <= version && mask < 8 && MessageFits(version, msg) && t < 8 * |msg|
    ensures var p := FreeOf(version)[t];
      && p.0 >= 0 && p.1 >= 0 && Template(version, p.0, p.1) == Unset
      && CandidateCell(version, msg, mask, p.0, p.1) == Module(MaskFunction(mask, MessageBit(msg, t), p.0, p.1))
  {
    var size := SymbolSize(version);
    var f := FreeOf(version);
    var p := f[t];
    SymbolSizeOk(version);
    FreeCellsExactly(TemplateGrid(version), size, p);
    var t' := IndexIn(f, p, 8 * |msg|);
    assert t' == t;
    assert CellAt(TemplateGrid(version), p) == Unset;
  }

  /**
   * The message survives in the finished symbol: a reader that takes the
   * free cells in placement order and undoes the mask reads every message
   * bit back, since the format and version areas are never free cells.
   */
  lemma ReadBack(sym: array2<Cell>, version: nat, ecLevel: nat, msg: seq<Byte>, mask: nat, t: nat)
    requires 1 <= version <= MAX_VERSION && mask < 8
    requires Finished(sym, version, ecLevel, msg, mask) && MessageFits(version, msg)
    requires t < 8 * |msg|
    ensures var p := FreeOf(version)[t];
      && 0 <= p.0 < sym.Length0 && 0 <= p.1 < sym.Length1
      && MaskFunction(mask, IsDark(sym[p.0, p.1]), p.0, p.1) == MessageBit(msg, t)
  {
    var p := FreeOf(version)[t];
    CandidateBit(version, msg, mask, t);
    ReservedTemplate(version, p.0, p.1);
    assert sym[p.0, p.1] == CellAt(Candidate(version, msg, mask), p);
    MaskInvolution(mask, MessageBit(msg, t), p.0, p.1);
  }
}
