/**
 * `__calculatePenaltyScore`: how badly a masked symbol scores against the
 * four mask evaluation rules of section 7.8.3 of ISO/IEC 18004:2015. The
 * rules read each module as dark or light; a module never written reads
 * as light, as the source's `!symbol[i]` does.
 *
 * The rules are stated here as functions of the module grid and of its
 * rows and columns; the methods run the source's loops over the symbol
 * array and are proved to compute them.
 */
module Penalty {
  import opened Matrix

  /** Module (x, y) of grid g reads dark. */
  predicate Dark(g: seq<seq<Cell>>, x: int, y: int) {
    IsDark(CellAt(g, (x, y)))
  }

  /** Row i (vertical false: the modules (k, i)) or column i (vertical true: the modules (i, k)) of a size x size grid. */
  function Line(g: seq<seq<Cell>>, size: nat, vertical: bool, i: int): (line: seq<bool>)
    ensures |line| == size
  {
    seq(size, k => if vertical then Dark(g, i, k) else Dark(g, k, i))
  }

  /** What the method loops read: module k of row or column i of the symbol. */
  function DarkAt(sym: array2<Cell>, vertical: bool, i: int, k: int): bool
    requires 0 <= i < sym.Length0 && 0 <= k < sym.Length0 && sym.Length0 == sym.Length1
    reads sym
  {
    if vertical then IsDark(sym[i, k]) else IsDark(sym[k, i])
  }

  lemma DarkAtLine(sym: array2<Cell>, vertical: bool, i: int, k: int)
    requires 0 <= i < sym.Length0 && 0 <= k < sym.Length0 && sym.Length0 == sym.Length1
    ensures DarkAt(sym, vertical, i, k) == Line(Snapshot(sym), sym.Length0, vertical, i)[k]
  {
  }

  // Rule 1: runs of five or more modules of one colour in a row or column

  /** The length of the run of equal modules that ends at e. */
  function RunLen(line: seq<bool>, e: int): nat
    requires 0 <= e < |line|
    decreases e
  {
    if e > 0 && line[e - 1] == line[e] then RunLen(line, e - 1) + 1 else 1
  }

  /** Module e is the last of its run. */
  predicate RunEnd(line: seq<bool>, e: int)
    requires 0 <= e < |line|
  {
    e == |line| - 1 || line[e] != line[e + 1]
  }

  /** A run of L modules costs L - 2 points from five on, that is 3 + (L - 5). */
  function RunWeight(len: nat): nat {
    if len >= 5 then len - 2 else 0
  }

  /** The runs that end before n, each counted once, at its last module. */
  function RunScoreUpTo(line: seq<bool>, n: int): nat
    requires 0 <= n <= |line|
    decreases n
  {
    if n == 0 then 0
    else RunScoreUpTo(line, n - 1) + (if RunEnd(line, n - 1) then RunWeight(RunLen(line, n - 1)) else 0)
  }

  /** Rule 1 on one line: the weight of every maximal run. */
  function RunScore(line: seq<bool>): nat {
    RunScoreUpTo(line, |line|)
  }

  /** The run-length loop over one row or column: counts the current run and scores it when the colour changes or the line ends. */
  method LineRuns(sym: array2<Cell>, vertical: bool, i: int) returns (score: nat)
    requires sym.Length0 == sym.Length1 >= 1 && 0 <= i < sym.Length0
    ensures score == RunScore(Line(Snapshot(sym), sym.Length0, vertical, i))
  {
    var size := sym.Length0;
    ghost var line := Line(Snapshot(sym), size, vertical, i);
    DarkAtLine(sym, vertical, i, 0);
    var c := DarkAt(sym, vertical, i, 0);
    var s := 1;
    score := 0;
    for j := 1 to size
      invariant c == line[j - 1] && s == RunLen(line, j - 1)
      invariant score == RunScoreUpTo(line, j - 1)
    {
      DarkAtLine(sym, vertical, i, j);
      var d := DarkAt(sym, vertical, i, j);
      if c == d {
        s := s + 1;
      } else {
        if s >= 5 {
          score := score + s - 2;
        }
        s := 1;
        c := d;
      }
    }
    if s >= 5 {
      score := score + s - 2;
    }
  }

  /** Rule 1 over the first n rows (or columns). */
  function LinesRuns(g: seq<seq<Cell>>, size: nat, vertical: bool, n: int): nat
    requires 0 <= n
  {
    if n == 0 then 0 else LinesRuns(g, size, vertical, n - 1) + RunScore(Line(g, size, vertical, n - 1))
  }

  /** Rule 1 over every row and every column. */
  function Runs(g: seq<seq<Cell>>, size: nat): nat {
    LinesRuns(g, size, false, size) + LinesRuns(g, size, true, size)
  }

  /** The first two loops of `__calculatePenaltyScore`: rows, then columns. */
  method RunsPenalty(sym: array2<Cell>) returns (score: nat)
    requires sym.Length0 == sym.Length1 >= 1
    ensures score == Runs(Snapshot(sym), sym.Length0)
  {
    var rows := LinesPenalty(sym, false);
    var columns := LinesPenalty(sym, true);
    score := rows + columns;
  }

  /** One of the two run loops: every row, or every column. */
  method LinesPenalty(sym: array2<Cell>, vertical: bool) returns (score: nat)
    requires sym.Length0 == sym.Length1 >= 1
    ensures score == LinesRuns(Snapshot(sym), sym.Length0, vertical, sym.Length0)
  {
    var size := sym.Length0;
    score := 0;
    for i := 0 to size
      invariant score == LinesRuns(Snapshot(sym), size, vertical, i)
    {
      score := LinesStep(sym, vertical, i, score);
    }
  }

  /** One turn of the loop of LinesPenalty: line i's runs added to the score of the lines before it. */
  method LinesStep(sym: array2<Cell>, vertical: bool, i: int, before: nat) returns (score: nat)
    requires sym.Length0 == sym.Length1 >= 1 && 0 <= i < sym.Length0
    requires before == LinesRuns(Snapshot(sym), sym.Length0, vertical, i)
    ensures score == LinesRuns(Snapshot(sym), sym.Length0, vertical, i + 1)
  {
    var r := LineRuns(sym, vertical, i);
    LinesRunsNext(Snapshot(sym), sym.Length0, vertical, i, r);
    score := before + r;
  }

  lemma LinesRunsNext(g: seq<seq<Cell>>, size: nat, vertical: bool, i: nat, r: nat)
    requires r == RunScore(Line(g, size, vertical, i))
    ensures LinesRuns(g, size, vertical, i + 1) == LinesRuns(g, size, vertical, i) + r
  {
  }

  // Rule 2: 2 x 2 blocks of one colour

  /** The 2 x 2 block whose bottom right module is (x, y) is of one colour. */
  predicate Uniform(g: seq<seq<Cell>>, x: int, y: int) {
    && Dark(g, x, y) == Dark(g, x - 1, y)
    && Dark(g, x, y) == Dark(g, x, y - 1)
    && Dark(g, x, y) == Dark(g, x - 1, y - 1)
  }

  /** Three points per one-colour block ending in row y, columns 1 to n - 1. */
  function BlockRow(g: seq<seq<Cell>>, y: int, n: int): nat
    decreases n
  {
    if n <= 1 then 0 else BlockRow(g, y, n - 1) + (if Uniform(g, n - 1, y) then 3 else 0)
  }

  /** Rule 2 over the blocks ending in rows 1 to n - 1; every block in a size x size grid when n is size. */
  function Blocks(g: seq<seq<Cell>>, size: nat, n: int): nat
    decreases n
  {
    if n <= 1 then 0 else Blocks(g, size, n - 1) + BlockRow(g, n - 1, size)
  }

  /** The block loop of `__calculatePenaltyScore`. */
  method BlocksPenalty(sym: array2<Cell>) returns (score: nat)
    requires sym.Length0 == sym.Length1 >= 1
    ensures score == Blocks(Snapshot(sym), sym.Length0, sym.Length0)
  {
    var size := sym.Length0;
    ghost var g := Snapshot(sym);
    score := 0;
    for j := 1 to size
      invariant score == Blocks(g, size, j)
    {
      var r := BlocksInRow(sym, j);
      score := score + r;
    }
  }

  /** One pass of the outer block loop: the blocks whose bottom row is j. */
  method BlocksInRow(sym: array2<Cell>, j: int) returns (score: nat)
    requires sym.Length0 == sym.Length1 && 1 <= j < sym.Length0
    ensures score == BlockRow(Snapshot(sym), j, sym.Length0)
  {
    var size := sym.Length0;
    ghost var g := Snapshot(sym);
    score := 0;
    for i := 1 to size
      invariant score == BlockRow(g, j, i)
    {
      var c := IsDark(sym[i, j]);
      if c == IsDark(sym[i - 1, j]) && c == IsDark(sym[i, j - 1]) && c == IsDark(sym[i - 1, j - 1]) {
        score := score + 3;
      }
    }
  }

  // Rule 3: the 1:1:3:1:1 dark-light pattern of a finder pattern

  /** `__penaltySequence`: dark, light, three dark, light, dark. */
  const FINDER_LIKE: seq<bool> := [true, false, true, true, true, false, true]

  /** The seven modules from i on follow the finder-like sequence. */
  predicate MatchAt(line: seq<bool>, i: int)
    requires 0 <= i && i + 7 <= |line|
  {
    forall k :: 0 <= k < 7 ==> line[i + k] == FINDER_LIKE[k]
  }

  /** Four light modules from k on. */
  predicate LightFrom(line: seq<bool>, k: int)
    requires 0 <= k && k + 4 <= |line|
  {
    forall t :: k <= t < k + 4 ==> !line[t]
  }

  /**
   * 40 points for a finder-like sequence at i with four light modules just
   * before it, or else four just after it; the second test, as written,
   * asks that i + 11 be strictly less than the line's length. Nothing where
   * the sequence does not fit.
   */
  function FinderHit(line: seq<bool>, i: int): nat {
    if 0 <= i && i + 7 <= |line| && MatchAt(line, i) && ((i >= 4 && LightFrom(line, i - 4)) || (i + 7 + 4 < |line| && LightFrom(line, i + 7))) then 40 else 0
  }

  /** The inner `k` loop: whether the sequence starts at module i of row or column j. */
  method MatchesAt(sym: array2<Cell>, vertical: bool, j: int, i: int) returns (found: bool)
    requires sym.Length0 == sym.Length1 && 0 <= j < sym.Length0 && 0 <= i && i + 7 <= sym.Length0
    ensures found == MatchAt(Line(Snapshot(sym), sym.Length0, vertical, j), i)
  {
    ghost var line := Line(Snapshot(sym), sym.Length0, vertical, j);
    var k := 0;
    while k < 7
      invariant 0 <= k <= 7
      invariant forall t :: 0 <= t < k ==> line[i + t] == FINDER_LIKE[t]
    {
      DarkAtLine(sym, vertical, j, i + k);
      if FINDER_LIKE[k] != DarkAt(sym, vertical, j, i + k) {
        break;
      }
      k := k + 1;
    }
    found := k == 7;
  }

  /** The four light modules from k on, as the source tests them one by one. */
  method LightRun(sym: array2<Cell>, vertical: bool, j: int, k: int) returns (light: bool)
    requires sym.Length0 == sym.Length1 && 0 <= j < sym.Length0 && 0 <= k && k + 4 <= sym.Length0
    ensures light == LightFrom(Line(Snapshot(sym), sym.Length0, vertical, j), k)
  {
    DarkAtLine(sym, vertical, j, k);
    DarkAtLine(sym, vertical, j, k + 1);
    DarkAtLine(sym, vertical, j, k + 2);
    DarkAtLine(sym, vertical, j, k + 3);
    light := !DarkAt(sym, vertical, j, k) && !DarkAt(sym, vertical, j, k + 1)
      && !DarkAt(sym, vertical, j, k + 2) && !DarkAt(sym, vertical, j, k + 3);
  }

  /** The score of one line of the finder scan: the match test, then the light modules before, or else after. */
  method LineFinder(sym: array2<Cell>, vertical: bool, j: int, i: int) returns (score: nat)
    requires sym.Length0 == sym.Length1 && 0 <= j < sym.Length0 && 0 <= i && i + 7 <= sym.Length0
    ensures score == FinderHit(Line(Snapshot(sym), sym.Length0, vertical, j), i)
  {
    var size := sym.Length0;
    ghost var line := Line(Snapshot(sym), size, vertical, j);
    var found := MatchesAt(sym, vertical, j, i);
    var before, after := false, false;
    if found && i >= 4 {
      before := LightRun(sym, vertical, j, i - 4);
    }
    if found && !before && i + 7 + 4 < size {
      after := LightRun(sym, vertical, j, i + 7);
    }
    score := if found && (before || after) then 40 else 0;
    FinderHitOf(line, i, found, before, after, score);
  }

  /** The three tests of the finder scan, combined as the scan combines them, give the score of rule 3. */
  lemma FinderHitOf(line: seq<bool>, i: int, found: bool, before: bool, after: bool, score: nat)
    requires 0 <= i && i + 7 <= |line| && found == MatchAt(line, i)
    requires before == (found && i >= 4 && LightFrom(line, i - 4))
    requires after == (found && !before && i + 7 + 4 < |line| && LightFrom(line, i + 7))
    requires score == if found && (before || after) then 40 else 0
    ensures score == FinderHit(line, i)
  {
  }

  /** Rule 3 at offset i, over the first n rows and the first n columns. */
  function FinderAt(g: seq<seq<Cell>>, size: nat, i: int, n: int): nat
    decreases n
  {
    if n <= 0 then 0
    else FinderAt(g, size, i, n - 1) + FinderHit(Line(g, size, false, n - 1), i) + FinderHit(Line(g, size, true, n - 1), i)
  }

  /** Rule 3 at the offsets below m, over every row and column; at every offset the sequence fits when m is size - 6. */
  function FinderUpTo(g: seq<seq<Cell>>, size: nat, m: int): nat
    decreases m
  {
    if m <= 0 then 0 else FinderUpTo(g, size, m - 1) + FinderAt(g, size, m - 1, size)
  }

  /** The finder-like scan of `__calculatePenaltyScore`: for each offset i, row j and then column j. */
  method FindersPenalty(sym: array2<Cell>) returns (score: nat)
    requires sym.Length0 == sym.Length1 >= 7
    ensures score == FinderUpTo(Snapshot(sym), sym.Length0, sym.Length0 - 6)
  {
    var size := sym.Length0;
    ghost var g := Snapshot(sym);
    score := 0;
    for i := 0 to size - 6
      invariant score == FinderUpTo(g, size, i)
    {
      var r := FindersAt(sym, i, g);
      FinderUpToNext(g, size, i, r);
      score := score + r;
    }
  }

  /** One offset more in FinderUpTo. */
  lemma FinderUpToNext(g: seq<seq<Cell>>, size: nat, i: nat, r: nat)
    requires r == FinderAt(g, size, i, size)
    ensures FinderUpTo(g, size, i + 1) == FinderUpTo(g, size, i) + r
  {
  }

  /** One pass of the outer finder loop: offset i in every row and column. */
  method FindersAt(sym: array2<Cell>, i: int, ghost g: seq<seq<Cell>>) returns (score: nat)
    requires sym.Length0 == sym.Length1 && 0 <= i && i + 7 <= sym.Length0 && g == Snapshot(sym)
    ensures score == FinderAt(g, sym.Length0, i, sym.Length0)
  {
    var size := sym.Length0;
    score := 0;
    for j := 0 to size
      invariant score == FinderAt(Snapshot(sym), size, i, j)
    {
      score := FindersLine(sym, i, j, score);
    }
  }

  /** Row j and column j at offset i, added to the score of the lines before them. */
  method FindersLine(sym: array2<Cell>, i: int, j: int, before: nat) returns (score: nat)
    requires sym.Length0 == sym.Length1 && 0 <= i && i + 7 <= sym.Length0 && 0 <= j < sym.Length0
    requires before == FinderAt(Snapshot(sym), sym.Length0, i, j)
    ensures score == FinderAt(Snapshot(sym), sym.Length0, i, j + 1)
  {
    var r := LineFinder(sym, false, j, i);
    var c := LineFinder(sym, true, j, i);
    FinderAtStep(Snapshot(sym), sym.Length0, i, j, before, r, c);
    score := before + r + c;
  }

  /** One row and one column more in FinderAt. */
  lemma FinderAtStep(g: seq<seq<Cell>>, size: nat, i: int, j: nat, before: nat, r: nat, c: nat)
    requires before == FinderAt(g, size, i, j)
    requires r == FinderHit(Line(g, size, false, j), i) && c == FinderHit(Line(g, size, true, j), i)
    ensures before + r + c == FinderAt(g, size, i, j + 1)
  {
  }

  // Rule 4: the proportion of dark modules

  /** The dark modules of row y, columns below n. */
  function DarkRow(g: seq<seq<Cell>>, y: int, n: int): nat
    decreases n
  {
    if n <= 0 then 0 else DarkRow(g, y, n - 1) + (if Dark(g, n - 1, y) then 1 else 0)
  }

  /** The dark modules of the rows below n, each of size modules. */
  function DarkCount(g: seq<seq<Cell>>, size: nat, n: int): nat
    decreases n
  {
    if n <= 0 then 0 else DarkCount(g, size, n - 1) + DarkRow(g, n - 1, size)
  }

  function Abs(v: int): nat {
    if v < 0 then -v else v
  }

  /**
   * Ten points for every full five percent by which the dark proportion
   * s / len strays from one half: floor(10 * |1 - 2s/len|) tens, here in
   * exact rational arithmetic.
   */
  function Balance(len: nat, s: nat): nat
    requires len > 0
  {
    10 * Quot(10 * Abs(len - 2 * s), len)
  }

  /** Integer division of naturals: the floor of the quotient. */
  function Quot(q: nat, d: nat): (r: nat)
    requires d > 0
    ensures r * d <= q < r * d + d
  {
    q / d
  }

  /** The dark-module count and the proportion rule of `__calculatePenaltyScore`. */
  method BalancePenalty(sym: array2<Cell>) returns (score: nat)
    requires sym.Length0 == sym.Length1 >= 1
    ensures score == Balance(sym.Length0 * sym.Length0, DarkCount(Snapshot(sym), sym.Length0, sym.Length0))
  {
    var size := sym.Length0;
    ghost var g := Snapshot(sym);
    var s := 0;
    for y := 0 to size
      invariant s == DarkCount(g, size, y)
    {
      var r := DarkInRow(sym, y);
      s := s + r;
    }
    var len := size * size;
    score := 10 * Quot(10 * Abs(len - 2 * s), len);
  }

  /** The dark modules of row y. */
  method DarkInRow(sym: array2<Cell>, y: int) returns (s: nat)
    requires sym.Length0 == sym.Length1 && 0 <= y < sym.Length0
    ensures s == DarkRow(Snapshot(sym), y, sym.Length0)
  {
    var size := sym.Length0;
    ghost var g := Snapshot(sym);
    s := 0;
    for x := 0 to size
      invariant s == DarkRow(g, y, x)
    {
      if IsDark(sym[x, y]) {
        s := s + 1;
      }
    }
  }

  /** The whole penalty score of a size x size grid: the four rules added up. */
  function Score(g: seq<seq<Cell>>, size: nat): nat
    requires size >= 7
  {
    Runs(g, size) + Blocks(g, size, size) + FinderUpTo(g, size, size - 6) + Balance(size * size, DarkCount(g, size, size))
  }

  /** `__calculatePenaltyScore`. */
  method PenaltyScore(sym: array2<Cell>) returns (score: nat)
    requires sym.Length0 == sym.Length1 >= 7
    ensures score == Score(Snapshot(sym), sym.Length0)
  {
    var runs := RunsPenalty(sym);
    var blocks := BlocksPenalty(sym);
    var finders := FindersPenalty(sym);
    var balance := BalancePenalty(sym);
    score := runs + blocks + finders + balance;
  }

  // What the rules promise

  /** A line of one colour throughout is a single run: it scores L - 2 from five modules on. */
  lemma UniformLine(line: seq<bool>)
    requires |line| >= 1 && forall k :: 0 <= k < |line| ==> line[k] == line[0]
    ensures RunScore(line) == RunWeight(|line|)
  {
    UniformRunLen(line, |line| - 1);
    UniformNoEnds(line, |line| - 1);
  }

  lemma {:induction false} UniformRunLen(line: seq<bool>, e: int)
    requires 0 <= e < |line| && forall k :: 0 <= k < |line| ==> line[k] == line[0]
    ensures RunLen(line, e) == e + 1
    decreases e
  {
    if e > 0 {
      UniformRunLen(line, e - 1);
    }
  }

  lemma {:induction false} UniformNoEnds(line: seq<bool>, n: int)
    requires 0 <= n < |line| && forall k :: 0 <= k < |line| ==> line[k] == line[0]
    ensures RunScoreUpTo(line, n) == 0
    decreases n
  {
    if n > 0 {
      UniformNoEnds(line, n - 1);
    }
  }

  /** A line with every module's colour swapped. */
  function Inverse(line: seq<bool>): (r: seq<bool>)
    ensures |r| == |line|
  {
    seq(|line|, k requires 0 <= k < |line| => !line[k])
  }

  lemma {:induction false} RunLenInverse(line: seq<bool>, e: int)
    requires 0 <= e < |line|
    ensures RunLen(Inverse(line), e) == RunLen(line, e)
    decreases e
  {
    if e > 0 {
      RunLenInverse(line, e - 1);
    }
  }

  lemma {:induction false} RunScoreUpToInverse(line: seq<bool>, n: int)
    requires 0 <= n <= |line|
    ensures RunScoreUpTo(Inverse(line), n) == RunScoreUpTo(line, n)
    decreases n
  {
    if n > 0 {
      RunScoreUpToInverse(line, n - 1);
      RunLenInverse(line, n - 1);
    }
  }

  /** Rule 1 depends on where the colour changes, not on which colour is which. */
  lemma RunScoreInverse(line: seq<bool>)
    ensures RunScore(Inverse(line)) == RunScore(line)
  {
    RunScoreUpToInverse(line, |line|);
  }

  /** g is a size x size grid. */
  ghost predicate Square(g: seq<seq<Cell>>, size: nat) {
    |g| == size && forall a :: 0 <= a < size ==> |g[a]| == size
  }

  /** The grid with dark and light swapped; a module never written becomes dark. */
  function Swapped(g: seq<seq<Cell>>): (h: seq<seq<Cell>>)
    ensures |h| == |g| && forall a :: 0 <= a < |g| ==> |h[a]| == |g[a]|
  {
    seq(|g|, a requires 0 <= a < |g| => seq(|g[a]|, b requires 0 <= b < |g[a]| => Module(!IsDark(g[a][b]))))
  }

  lemma DarkSwapped(g: seq<seq<Cell>>, size: nat, x: int, y: int)
    requires Square(g, size) && 0 <= x < size && 0 <= y < size
    ensures Dark(Swapped(g), x, y) == !Dark(g, x, y)
  {
  }

  lemma LineSwapped(g: seq<seq<Cell>>, size: nat, vertical: bool, i: int)
    requires Square(g, size) && 0 <= i < size
    ensures Line(Swapped(g), size, vertical, i) == Inverse(Line(g, size, vertical, i))
  {
    forall k | 0 <= k < size
      ensures Line(Swapped(g), size, vertical, i)[k] == Inverse(Line(g, size, vertical, i))[k]
    {
      if vertical {
        DarkSwapped(g, size, i, k);
      } else {
        DarkSwapped(g, size, k, i);
      }
    }
  }

  lemma {:induction false} LinesRunsSwapped(g: seq<seq<Cell>>, size: nat, vertical: bool, n: int)
    requires Square(g, size) && 0 <= n <= size
    ensures LinesRuns(Swapped(g), size, vertical, n) == LinesRuns(g, size, vertical, n)
  {
    forall i | 0 <= i < n
      ensures RunScore(Line(Swapped(g), size, vertical, i)) == RunScore(Line(g, size, vertical, i))
    {
      LineScoreSwapped(g, size, vertical, i);
    }
    LinesRunsSame(Swapped(g), g, size, vertical, n);
  }

  /** Two grids whose first n lines score alike have the same rule 1 total over those lines. */
  lemma {:induction false} LinesRunsSame(h: seq<seq<Cell>>, g: seq<seq<Cell>>, size: nat, vertical: bool, n: int)
    requires 0 <= n
    requires forall i :: 0 <= i < n ==> RunScore(Line(h, size, vertical, i)) == RunScore(Line(g, size, vertical, i))
    ensures LinesRuns(h, size, vertical, n) == LinesRuns(g, size, vertical, n)
  {
    if n > 0 {
      LinesRunsSame(h, g, size, vertical, n - 1);
    }
  }

  /** Swapping dark and light leaves the run score of a line as it was. */
  lemma LineScoreSwapped(g: seq<seq<Cell>>, size: nat, vertical: bool, i: int)
    requires Square(g, size) && 0 <= i < size
    ensures RunScore(Line(Swapped(g), size, vertical, i)) == RunScore(Line(g, size, vertical, i))
  {
    LineSwapped(g, size, vertical, i);
    RunScoreInverse(Line(g, size, vertical, i));
  }

  lemma {:induction false} BlockRowSwapped(g: seq<seq<Cell>>, size: nat, y: int, n: int)
    requires Square(g, size) && 1 <= y < size && n <= size
    ensures BlockRow(Swapped(g), y, n) == BlockRow(g, y, n)
    decreases n
  {
    if n > 1 {
      BlockRowSwapped(g, size, y, n - 1);
      DarkSwapped(g, size, n - 1, y);
      DarkSwapped(g, size, n - 2, y);
      DarkSwapped(g, size, n - 1, y - 1);
      DarkSwapped(g, size, n - 2, y - 1);
    }
  }

  lemma {:induction false} BlocksSwapped(g: seq<seq<Cell>>, size: nat, n: int)
    requires Square(g, size) && n <= size
    ensures Blocks(Swapped(g), size, n) == Blocks(g, size, n)
    decreases n
  {
    if n > 1 {
      BlocksSwapped(g, size, n - 1);
      BlockRowSwapped(g, size, n - 1, size);
    }
  }

  lemma {:induction false} DarkRowSwapped(g: seq<seq<Cell>>, size: nat, y: int, n: int)
    requires Square(g, size) && 0 <= y < size && 0 <= n <= size
    ensures DarkRow(Swapped(g), y, n) == n - DarkRow(g, y, n)
    decreases n
  {
    if n > 0 {
      DarkRowSwapped(g, size, y, n - 1);
      DarkSwapped(g, size, n - 1, y);
    }
  }

  lemma {:induction false} DarkCountSwapped(g: seq<seq<Cell>>, size: nat, n: int)
    requires Square(g, size) && 0 <= n <= size
    ensures DarkCount(Swapped(g), size, n) + DarkCount(g, size, n) == n * size
    decreases n
  {
    if n > 0 {
      DarkCountSwapped(g, size, n - 1);
      DarkRowSwapped(g, size, n - 1, size);
      DarkRowBound(g, n - 1, size);
      assert n * size == (n - 1) * size + size;
    }
  }

  lemma {:induction false} DarkRowBound(g: seq<seq<Cell>>, y: int, n: int)
    requires n >= 0
    ensures DarkRow(g, y, n) <= n
    decreases n
  {
    if n > 0 {
      DarkRowBound(g, y, n - 1);
    }
  }

  /** Rule 4 only asks how far the proportion is from one half, on either side. */
  lemma BalanceSymmetric(len: nat, s: nat)
    requires len > 0 && s <= len
    ensures Balance(len, len - s) == Balance(len, s)
  {
    assert Abs(len - 2 * (len - s)) == Abs(len - 2 * s);
  }

  /** Rule 4 costs nothing exactly when the dark modules make up more than 45 and less than 55 percent. */
  lemma BalanceFree(len: nat, s: nat)
    requires len > 0
    ensures Balance(len, s) == 0 <==> 9 * len < 20 * s < 11 * len
  {
    var q := 10 * Abs(len - 2 * s);
    var r := Quot(q, len);
    if q < len {
      assert r == 0 by {
        if r >= 1 {
          MulMono(r, len);
        }
      }
    }
  }

  lemma MulMono(r: nat, d: nat)
    requires r >= 1
    ensures r * d >= d
  {
  }

  /**
   * Swapping dark and light leaves rules 1, 2 and 4 unchanged: they look
   * at runs, blocks and the balance of the two colours, never at which is
   * which. (Rule 3 does tell them apart.)
   */
  lemma SwapColours(g: seq<seq<Cell>>, size: nat)
    requires Square(g, size) && size >= 1
    ensures Runs(Swapped(g), size) == Runs(g, size)
    ensures Blocks(Swapped(g), size, size) == Blocks(g, size, size)
    ensures Balance(size * size, DarkCount(Swapped(g), size, size)) == Balance(size * size, DarkCount(g, size, size))
  {
    LinesRunsSwapped(g, size, false, size);
    LinesRunsSwapped(g, size, true, size);
    BlocksSwapped(g, size, size);
    DarkCountSwapped(g, size, size);
    DarkCountBound(g, size, size);
    BalanceSymmetric(size * size, DarkCount(g, size, size));
  }

  lemma {:induction false} DarkCountBound(g: seq<seq<Cell>>, size: nat, n: int)
    requires 0 <= n
    ensures DarkCount(g, size, n) <= n * size
    decreases n
  {
    if n > 0 {
      DarkCountBound(g, size, n - 1);
      DarkRowBound(g, n - 1, size);
      assert n * size == (n - 1) * size + size;
    }
  }

  /**
   * The edge case the strict test leaves out: a finder-like sequence with
   * four light modules after it that end exactly at the edge of the symbol,
   * and none before it, scores nothing.
   */
  lemma FinderAtEdge()
    ensures var line := [true, false, true, true, true, false, true, false, false, false, false];
      MatchAt(line, 0) && LightFrom(line, 7) && FinderHit(line, 0) == 0
  {
  }
}
