/**
 * The Reed-Solomon part of the encoder: the generator polynomial of degree d,
 * the remainder of a polynomial division, and the fact that a block followed by
 * its error correction bytes is a codeword. Polynomials are coefficient
 * sequences, highest degree first, as in the encoder's arrays.
 */
module ReedSolomon {
  import opened Gf256

  /** Coefficient k of p; array entries past the end read as 0. */
  function Coef(p: seq<Gf>, k: nat): Gf {
    if k < |p| then p[k] else ZERO
  }

  /** p * (x + c). */
  ghost function MulLinear(p: seq<Gf>, c: Gf): (r: seq<Gf>)
    ensures |r| == |p| + 1
  {
    seq(|p| + 1, k requires 0 <= k <= |p| => Add(Coef(p, k), if k > 0 then Mul(p[k - 1], c) else ZERO))
  }

  /** The product of (x + 2^i) for i < d, the generator polynomial of d error correction bytes. */
  ghost function Generator(d: nat): (r: seq<Gf>)
    ensures |r| == d + 1 && r[0] == ONE
  {
    if d == 0 then [ONE] else MulLinear(Generator(d - 1), Power(d - 1))
  }

  /**
   * `__rsCalculateGenerator`: starts from the array [1] padded with undefined
   * entries (read as 0) and multiplies by (x + exp[i]) for each i < degree.
   */
  method CalculateGenerator(t: Tables, degree: nat) returns (r: seq<Gf>)
    requires ValidTables(t) && degree <= 512
    ensures r == Generator(degree)
  {
    var a := new Gf[degree + 1](_ => ZERO);
    a[0] := ONE;
    for i := 0 to degree
      invariant a[..i + 1] == Generator(i)
      invariant forall k :: i + 1 <= k <= degree ==> a[k] == ZERO
    {
      MulLinearInPlace(t, a, i, t.exp[i]);
      assert a[..i + 2] == Generator(i + 1);
    }
    r := a[..];
  }

  /**
   * The inner loop of `__rsCalculateGenerator`: `r[j + 1] ^= rsMul(r[j], c)`
   * for j from i down to 0 turns the i+1 coefficients at the front of a into
   * those of their product with (x + c).
   */
  method MulLinearInPlace(t: Tables, a: array<Gf>, i: nat, c: Gf)
    requires ValidTables(t) && i + 1 < a.Length && a[i + 1] == ZERO
    modifies a
    ensures a[..i + 2] == MulLinear(old(a[..i + 1]), c)
    ensures forall k :: i + 2 <= k < a.Length ==> a[k] == old(a[k])
  {
    ghost var a0 := a[..];
    ghost var p := a[..i + 1];
    ghost var target := MulLinear(p, c);
    var j := i;
    while j >= 0
      invariant -1 <= j <= i
      invariant a[..] == Partial(a0, target, i, j)
    {
      MulLinearTurn(t, a, i, j, c, a0, p, target);
      j := j - 1;
    }
    assert a[..i + 2] == target;
  }

  /** One turn of the inner loop: entry j + 1 of the product from entries j and j + 1 of p. */
  method MulLinearTurn(t: Tables, a: array<Gf>, i: nat, j: nat, c: Gf, ghost a0: seq<Gf>, ghost p: seq<Gf>, ghost target: seq<Gf>)
    requires ValidTables(t) && i + 2 <= |a0| && j <= i
    requires p == a0[..i + 1] && a0[i + 1] == ZERO && target == MulLinear(p, c)
    requires a[..] == Partial(a0, target, i, j)
    modifies a
    ensures a[..] == Partial(a0, target, i, j - 1)
  {
    ghost var before := a[..];
    assert a[j] == before[j] == p[j];
    assert a[j + 1] == before[j + 1] == Coef(p, j + 1);
    var m := RsMul(t, a[j], c);
    MulLinearAt(p, c, j + 1);
    var v := Add(a[j + 1], m);
    assert v == target[j + 1];
    PartialStep(a0, target, i, j);
    a[j + 1] := v;
    assert a[..] == before[j + 1 := v];
  }

  /** The generator's inner loop at j: entries j + 2 to i + 1 already hold the product. */
  ghost function Partial(a0: seq<Gf>, target: seq<Gf>, i: nat, j: int): (s: seq<Gf>)
    requires i + 2 <= |a0| && |target| == i + 2
    ensures |s| == |a0|
  {
    seq(|a0|, k requires 0 <= k < |a0| => if j + 1 < k <= i + 1 then target[k] else a0[k])
  }

  lemma PartialStep(a0: seq<Gf>, target: seq<Gf>, i: nat, j: nat)
    requires i + 2 <= |a0| && |target| == i + 2 && j <= i
    ensures Partial(a0, target, i, j)[j + 1 := target[j + 1]] == Partial(a0, target, i, j - 1)
  {
  }

  lemma MulLinearAt(p: seq<Gf>, c: Gf, k: nat)
    requires 0 < k <= |p|
    ensures MulLinear(p, c)[k] == Add(Coef(p, k), Mul(p[k - 1], c))
  {
  }

  /**
   * What `r.splice(s)` returns for a single argument s: the elements from
   * index s to the end, a negative s counting from the end (and -0 being 0).
   */
  function SpliceTail<T>(r: seq<T>, s: int): seq<T> {
    var start := if s < 0 then (if |r| + s < 0 then 0 else |r| + s) else (if s < |r| then s else |r|);
    r[start..]
  }

  /**
   * Row i of the long division: when coefficient i is nonzero, p2 scaled by
   * it is added to the coefficients from i + 1 to i + |p2| - 1 (the inner loop
   * runs j from 1, so entry i itself is left as it was).
   */
  ghost function ReduceRow(r: seq<Gf>, p2: seq<Gf>, i: nat): (r': seq<Gf>)
    ensures |r'| == |r|
  {
    if Coef(r, i) == ZERO then r else AddScaled(r, p2, i, r[i])
  }

  /** r with c * p2[k - i] added to each entry k for i < k < i + |p2|. */
  ghost function AddScaled(r: seq<Gf>, p2: seq<Gf>, i: nat, c: Gf): (r': seq<Gf>)
    ensures |r'| == |r|
  {
    seq(|r|, k requires 0 <= k < |r| => if i < k < i + |p2| then Add(r[k], Mul(p2[k - i], c)) else r[k])
  }

  /** The first n rows of the division, in order. */
  ghost function Reduced(p1: seq<Gf>, p2: seq<Gf>, n: nat): (r: seq<Gf>)
    ensures |r| == |p1|
  {
    if n == 0 then p1 else ReduceRow(Reduced(p1, p2, n - 1), p2, n - 1)
  }

  /** The number of rows the division reduces: `p1.length - p2.length + 1`, none when that is negative. */
  function Rows(p1: seq<Gf>, p2: seq<Gf>): nat {
    if |p1| + 1 < |p2| then 0 else |p1| - |p2| + 1
  }

  /** What `__rsPolyMod(p1, p2)` returns: the last |p2| - 1 entries of the reduced copy of p1. */
  ghost function PolyModOf(p1: seq<Gf>, p2: seq<Gf>): seq<Gf> {
    SpliceTail(Reduced(p1, p2, Rows(p1, p2)), 1 - |p2|)
  }

  /**
   * `__rsPolyMod`: divides a copy of p1 by p2 row by row and returns the
   * remainder; p1 itself is a sequence and is left unchanged.
   */
  method PolyMod(t: Tables, p1: seq<Gf>, p2: seq<Gf>) returns (res: seq<Gf>)
    requires ValidTables(t)
    ensures res == PolyModOf(p1, p2)
  {
    var r := new Gf[|p1|](k requires 0 <= k < |p1| => p1[k]);
    var len := Rows(p1, p2);
    for i := 0 to len
      invariant r[..] == Reduced(p1, p2, i)
    {
      ReduceRowInPlace(t, r, p2, i);
    }
    res := SpliceTail(r[..], 1 - |p2|);
  }

  /** One row of `__rsPolyMod`: `r[i + j] ^= rsMul(p2[j], c)` for 0 < j < |p2| when c = r[i] is nonzero. */
  method ReduceRowInPlace(t: Tables, r: array<Gf>, p2: seq<Gf>, i: nat)
    requires ValidTables(t) && i + |p2| <= r.Length
    modifies r
    ensures r[..] == ReduceRow(old(r[..]), p2, i)
  {
    ghost var r0 := r[..];
    if i < r.Length && r[i] != ZERO {
      var c := r[i];
      var j := 1;
      ScaledNone(r0, p2, i, c);
      while j < |p2|
        invariant 1 <= j && (j <= |p2| || j == 1)
        invariant r[..] == ScaledUpTo(r0, p2, i, c, j)
      {
        ScaleAt(t, r, p2, i, c, j, r0);
        j := j + 1;
      }
      ScaledAll(r0, p2, i, c, j);
    }
  }

  /** One turn of the inner loop: `r[i + j] ^= rsMul(p2[j], c)`. */
  method ScaleAt(t: Tables, r: array<Gf>, p2: seq<Gf>, i: nat, c: Gf, j: nat, ghost r0: seq<Gf>)
    requires ValidTables(t) && 1 <= j < |p2| && i + j < r.Length
    requires r[..] == ScaledUpTo(r0, p2, i, c, j)
    modifies r
    ensures r[..] == ScaledUpTo(r0, p2, i, c, j + 1)
  {
    var m := RsMul(t, p2[j], c);
    ghost var before := r[..];
    AddAt(r, i + j, m);
    ScaledStep(r0, p2, i, c, j, before, r[..]);
  }

  /** `r[k] ^= m`: one entry of the array takes the sum, nothing else changes. */
  method AddAt(r: array<Gf>, k: nat, m: Gf)
    requires k < r.Length
    modifies r
    ensures r[..] == old(r[..])[k := Add(old(r[k]), m)]
  {
    r[k] := Add(r[k], m);
  }

  /** r with c * p2[k - i] added to the entries i < k < i + j only: the inner loop of a row after it has reached j. */
  ghost function ScaledUpTo(r: seq<Gf>, p2: seq<Gf>, i: nat, c: Gf, j: nat): (r': seq<Gf>)
    ensures |r'| == |r|
  {
    seq(|r|, k requires 0 <= k < |r| => if i < k < i + j && k - i < |p2| then Add(r[k], Mul(p2[k - i], c)) else r[k])
  }

  /** Before the inner loop (j = 1) nothing has been added. */
  lemma ScaledNone(r: seq<Gf>, p2: seq<Gf>, i: nat, c: Gf)
    ensures ScaledUpTo(r, p2, i, c, 1) == r
  {
  }

  /** One turn of the inner loop adds c * p2[j] to entry i + j. */
  lemma ScaledStep(r: seq<Gf>, p2: seq<Gf>, i: nat, c: Gf, j: nat, before: seq<Gf>, after: seq<Gf>)
    requires 1 <= j < |p2| && i + j < |r| && before == ScaledUpTo(r, p2, i, c, j)
    requires after == before[i + j := Add(before[i + j], Mul(p2[j], c))]
    ensures after == ScaledUpTo(r, p2, i, c, j + 1)
  {
    assert before[i + j] == r[i + j];
    assert i + j - i == j;
  }

  /** Once j has reached |p2| the whole of p2, scaled, has been added. */
  lemma ScaledAll(r: seq<Gf>, p2: seq<Gf>, i: nat, c: Gf, j: nat)
    requires j >= |p2|
    ensures ScaledUpTo(r, p2, i, c, j) == AddScaled(r, p2, i, c)
  {
  }

  /** Length of the remainder: |p2| - 1 entries whenever p1 has at least that many. */
  lemma PolyModLength(p1: seq<Gf>, p2: seq<Gf>)
    requires |p2| >= 1 && |p1| >= |p2| - 1
    ensures |PolyModOf(p1, p2)| == (if |p2| == 1 then |p1| else |p2| - 1)
  {
  }

  lemma {:induction false} ReducedByConstant(p1: seq<Gf>, p2: seq<Gf>, n: nat)
    requires |p2| == 1
    ensures Reduced(p1, p2, n) == p1
  {
    if n > 0 {
      ReducedByConstant(p1, p2, n - 1);
    }
  }

  /** Dividing by a constant: no row changes the copy, and `splice(-0)` hands all of it back. */
  lemma PolyModByConstant(p1: seq<Gf>, p2: seq<Gf>)
    requires |p2| == 1
    ensures PolyModOf(p1, p2) == p1
  {
    ReducedByConstant(p1, p2, Rows(p1, p2));
  }

  // Evaluation of polynomials and the codeword property.

  /** Horner evaluation at z of the coefficients p[lo..hi]. */
  ghost function EvalRange(p: seq<Gf>, lo: nat, hi: nat, z: Gf): Gf
    requires hi <= |p|
    decreases hi
  {
    if hi <= lo then ZERO else Add(Mul(EvalRange(p, lo, hi - 1, z), z), p[hi - 1])
  }

  /** The value of the polynomial p at z. */
  ghost function Eval(p: seq<Gf>, z: Gf): Gf {
    EvalRange(p, 0, |p|, z)
  }

  lemma MulDistribRight(a: Gf, b: Gf, c: Gf)
    ensures Mul(Add(a, b), c) == Add(Mul(a, c), Mul(b, c))
  {
    MulComm(Add(a, b), c);
    MulDistrib(c, a, b);
    MulComm(a, c);
    MulComm(b, c);
  }

  lemma MulZeroLeft(a: Gf)
    ensures Mul(ZERO, a) == ZERO && Mul(a, ZERO) == ZERO
  {
    MulZero(ZERO, a);
    MulZero(a, ZERO);
  }

  /** (a + b) + (c + d) == (a + c) + (b + d). */
  lemma AddSwap(a: Gf, b: Gf, c: Gf, d: Gf)
    ensures Add(Add(a, b), Add(c, d)) == Add(Add(a, c), Add(b, d))
  {
  }

  /** Only the coefficients in the range matter. */
  lemma {:induction false} EvalRangeSame(p: seq<Gf>, q: seq<Gf>, lo: nat, hi: nat, z: Gf)
    requires hi <= |p| && hi <= |q|
    requires forall k :: lo <= k < hi ==> p[k] == q[k]
    ensures EvalRange(p, lo, hi, z) == EvalRange(q, lo, hi, z)
    decreases hi
  {
    if hi > lo {
      EvalRangeSame(p, q, lo, hi - 1, z);
    }
  }

  /** Leading zero coefficients do not change the value. */
  lemma {:induction false} EvalLeadingZeros(p: seq<Gf>, i: nat, hi: nat, z: Gf)
    requires i <= hi <= |p|
    requires forall k :: 0 <= k < i ==> p[k] == ZERO
    ensures EvalRange(p, 0, hi, z) == EvalRange(p, i, hi, z)
    decreases hi
  {
    if hi > i {
      EvalLeadingZeros(p, i, hi - 1, z);
      EvalRangeNext(p, 0, i, hi, z);
    } else if hi > 0 {
      EvalZeroRange(p, hi, z);
    }
  }

  /** Two ranges ending at hi - 1 with the same value still have the same value one coefficient on. */
  lemma EvalRangeNext(p: seq<Gf>, lo1: nat, lo2: nat, hi: nat, z: Gf)
    requires lo1 < hi && lo2 < hi && hi <= |p|
    requires EvalRange(p, lo1, hi - 1, z) == EvalRange(p, lo2, hi - 1, z)
    ensures EvalRange(p, lo1, hi, z) == EvalRange(p, lo2, hi, z)
  {
  }

  lemma {:induction false} EvalZeroRange(p: seq<Gf>, hi: nat, z: Gf)
    requires hi <= |p|
    requires forall k :: 0 <= k < hi ==> p[k] == ZERO
    ensures EvalRange(p, 0, hi, z) == ZERO
    decreases hi
  {
    if hi > 0 {
      EvalZeroRange(p, hi - 1, z);
      MulZeroLeft(z);
    }
  }

  /** A value that is zero stays zero when zero coefficients follow. */
  lemma {:induction false} EvalTrailingZeros(p: seq<Gf>, lo: nat, mid: nat, hi: nat, z: Gf)
    requires lo <= mid <= hi <= |p|
    requires EvalRange(p, lo, mid, z) == ZERO
    requires forall k :: mid <= k < hi ==> p[k] == ZERO
    ensures EvalRange(p, lo, hi, z) == ZERO
    decreases hi
  {
    if hi > mid {
      EvalTrailingZeros(p, lo, mid, hi - 1, z);
      MulZeroLeft(z);
    }
  }

  /** Evaluating a suffix is evaluating the range it came from. */
  lemma {:induction false} EvalSuffix(p: seq<Gf>, lo: nat, m: nat, z: Gf)
    requires lo + m <= |p|
    ensures EvalRange(p[lo..], 0, m, z) == EvalRange(p, lo, lo + m, z)
    decreases m
  {
    if m > 0 {
      EvalSuffix(p, lo, m - 1, z);
    }
  }

  /** Evaluation is additive. */
  lemma {:induction false} EvalAdd(a: seq<Gf>, b: seq<Gf>, s: seq<Gf>, hi: nat, z: Gf)
    requires hi <= |a| && hi <= |b| && hi <= |s|
    requires forall k :: 0 <= k < hi ==> s[k] == Add(a[k], b[k])
    ensures EvalRange(s, 0, hi, z) == Add(EvalRange(a, 0, hi, z), EvalRange(b, 0, hi, z))
    decreases hi
  {
    if hi > 0 {
      var ea, eb := EvalRange(a, 0, hi - 1, z), EvalRange(b, 0, hi - 1, z);
      EvalAdd(a, b, s, hi - 1, z);
      MulDistribRight(ea, eb, z);
      AddSwap(Mul(ea, z), Mul(eb, z), a[hi - 1], b[hi - 1]);
    }
  }

  /** Coefficients c * p2[k] placed at positions i..i + m evaluate to c times p2's first m. */
  lemma {:induction false} EvalShiftedScaled(d: seq<Gf>, p2: seq<Gf>, i: nat, m: nat, c: Gf, z: Gf)
    requires i + m <= |d| && m <= |p2|
    requires forall k :: 0 <= k < m ==> d[i + k] == Mul(p2[k], c)
    ensures EvalRange(d, i, i + m, z) == Mul(EvalRange(p2, 0, m, z), c)
    decreases m
  {
    if m == 0 {
      MulZeroLeft(c);
    } else {
      var e := EvalRange(p2, 0, m - 1, z);
      EvalShiftedScaled(d, p2, i, m - 1, c, z);
      assert d[i + (m - 1)] == Mul(p2[m - 1], c);
      MulDistribRight(Mul(e, z), p2[m - 1], c);
      MulAssoc(e, z, c);
      MulComm(z, c);
      MulAssoc(e, c, z);
    }
  }

  /**
   * Multiplying by (x + c) multiplies the value by (z + c); on a prefix of n
   * coefficients the product's last coefficient still lacks p[n].
   */
  lemma {:induction false} EvalMulLinearPrefix(p: seq<Gf>, c: Gf, z: Gf, n: nat)
    requires n <= |p|
    ensures EvalRange(MulLinear(p, c), 0, n + 1, z) == Add(Mul(EvalRange(p, 0, n, z), Add(z, c)), Coef(p, n))
    decreases n
  {
    var q := MulLinear(p, c);
    var w := Add(z, c);
    if n == 0 {
      MulZeroLeft(z);
      MulZeroLeft(w);
      assert q[0] == Add(Coef(p, 0), ZERO);
    } else {
      var e := EvalRange(p, 0, n - 1, z);
      var a := p[n - 1];
      var en := EvalRange(q, 0, n, z);
      EvalMulLinearPrefix(p, c, z, n - 1);
      assert en == Add(Mul(e, w), a);
      assert q[n] == Add(Coef(p, n), Mul(a, c));
      assert EvalRange(q, 0, n + 1, z) == Add(Mul(en, z), q[n]);
      assert EvalRange(p, 0, n, z) == Add(Mul(e, z), a);
      MulDistribRight(Mul(e, w), a, z);
      MulAssoc(e, w, z);
      MulComm(w, z);
      MulAssoc(e, z, w);
      MulDistribRight(Mul(e, z), a, w);
      MulDistrib(a, z, c);
      AddRearrange(Mul(Mul(e, z), w), Mul(a, z), Coef(p, n), Mul(a, c));
    }
  }

  /** (a + b) + (c + d) == (a + (b + d)) + c. */
  lemma AddRearrange(a: Gf, b: Gf, c: Gf, d: Gf)
    ensures Add(Add(a, b), Add(c, d)) == Add(Add(a, Add(b, d)), c)
  {
  }

  lemma EvalMulLinear(p: seq<Gf>, c: Gf, z: Gf)
    ensures Eval(MulLinear(p, c), z) == Mul(Eval(p, z), Add(z, c))
  {
    EvalMulLinearPrefix(p, c, z, |p|);
  }

  /** 2^i is a root of the generator of degree d for every i < d. */
  lemma {:induction false} GeneratorRoots(d: nat, i: nat)
    requires i < d
    ensures Eval(Generator(d), Power(i)) == ZERO
  {
    if i == d - 1 {
      LastFactorRoot(d, i);
    } else {
      GeneratorRoots(d - 1, i);
      EarlierRoot(d, i);
    }
  }

  /** 2^i is a root of the last factor x + 2^i of the generator of degree i + 1. */
  lemma LastFactorRoot(d: nat, i: nat)
    requires i == d - 1
    ensures Eval(Generator(d), Power(i)) == ZERO
  {
    var z := Power(i);
    EvalMulLinear(Generator(d - 1), z, z);
    assert Add(z, z) == ZERO;
    MulZeroLeft(Eval(Generator(d - 1), z));
  }

  /** A root of the generator of degree d - 1 stays a root after the next factor. */
  lemma EarlierRoot(d: nat, i: nat)
    requires i < d - 1 && Eval(Generator(d - 1), Power(i)) == ZERO
    ensures Eval(Generator(d), Power(i)) == ZERO
  {
    var z := Power(i);
    EvalMulLinear(Generator(d - 1), Power(d - 1), z);
    MulZeroLeft(Add(z, Power(d - 1)));
  }

  function ZeroPoly(n: nat): (r: seq<Gf>)
    ensures |r| == n && forall k :: 0 <= k < n ==> r[k] == ZERO
  {
    seq(n, _ => ZERO)
  }

  /** r with its first i coefficients replaced by 0: what is left to divide after i rows. */
  ghost function Masked(r: seq<Gf>, i: nat): (m: seq<Gf>)
    ensures |m| == |r|
  {
    seq(|r|, k requires 0 <= k < |r| => if k < i then ZERO else r[k])
  }

  /**
   * One row of the division subtracts c * x^(|r| - i - |p2|) * p2, so at a
   * root z of the monic divisor p2 the value of what is left does not change.
   */
  lemma RowKeepsValue(r: seq<Gf>, p2: seq<Gf>, i: nat, z: Gf)
    requires 1 <= |p2| && p2[0] == ONE && Eval(p2, z) == ZERO && i + |p2| <= |r|
    ensures Eval(Masked(ReduceRow(r, p2, i), i + 1), z) == Eval(Masked(r, i), z)
  {
    var r' := ReduceRow(r, p2, i);
    var m, m' := Masked(r, i), Masked(r', i + 1);
    if r[i] == ZERO {
      assert m' == m;
    } else {
      var c := r[i];
      var d := Shifted(p2, i, c, |r|);
      MulComm(ONE, c);
      MulOne(c);
      forall k | 0 <= k < |r|
        ensures m'[k] == Add(m[k], d[k])
      {
        if k < i {
          assert m'[k] == ZERO && m[k] == ZERO && d[k] == ZERO;
        } else if k == i {
          ShiftedAt(p2, i, c, |r|, k);
          assert m'[k] == ZERO && m[k] == c;
        } else if k < i + |p2| {
          assert d[k] == Mul(p2[k - i], c);
          assert r'[k] == Add(r[k], Mul(p2[k - i], c));
        } else {
          assert d[k] == ZERO && r'[k] == r[k];
        }
      }
      EvalAdd(m, d, m', |r|, z);
      ShiftedVanishes(p2, i, c, |r|, z);
    }
  }

  /** c * p2 placed at positions i..i + |p2| of n coefficients, zero elsewhere. */
  ghost function Shifted(p2: seq<Gf>, i: nat, c: Gf, n: nat): (d: seq<Gf>)
    ensures |d| == n
  {
    seq(n, k requires 0 <= k < n => if i <= k < i + |p2| then Mul(p2[k - i], c) else ZERO)
  }

  lemma ShiftedAt(p2: seq<Gf>, i: nat, c: Gf, n: nat, k: nat)
    requires i <= k < i + |p2| && k < n
    ensures Shifted(p2, i, c, n)[k] == Mul(p2[k - i], c)
  {
  }

  /** At a root of p2, c * x^j * p2 vanishes. */
  lemma ShiftedVanishes(p2: seq<Gf>, i: nat, c: Gf, n: nat, z: Gf)
    requires Eval(p2, z) == ZERO && i + |p2| <= n
    ensures Eval(Shifted(p2, i, c, n), z) == ZERO
  {
    var d := Shifted(p2, i, c, n);
    ShiftedOutside(p2, i, c, n, d);
    ShiftedMiddle(p2, i, c, n, z, d);
    ZeroOutside(d, i, i + |p2|, n, z);
  }

  /** The shifted and scaled copy of p2 evaluates to c times p2's value over its own range. */
  lemma ShiftedMiddle(p2: seq<Gf>, i: nat, c: Gf, n: nat, z: Gf, d: seq<Gf>)
    requires Eval(p2, z) == ZERO && i + |p2| <= n && d == Shifted(p2, i, c, n)
    ensures EvalRange(d, i, i + |p2|, z) == ZERO
  {
    ShiftedWithin(p2, i, c, n, d);
    EvalShiftedScaled(d, p2, i, |p2|, c, z);
    MulZeroLeft(c);
  }

  /** Zero coefficients around a range whose value is zero leave the whole value zero. */
  lemma ZeroOutside(d: seq<Gf>, lo: nat, mid: nat, hi: nat, z: Gf)
    requires lo <= mid <= hi <= |d|
    requires forall k :: 0 <= k < lo ==> d[k] == ZERO
    requires forall k :: mid <= k < hi ==> d[k] == ZERO
    requires EvalRange(d, lo, mid, z) == ZERO
    ensures EvalRange(d, 0, hi, z) == ZERO
  {
    EvalLeadingZeros(d, lo, hi, z);
    EvalTrailingZeros(d, lo, mid, hi, z);
  }

  /** c * x^i * p2 is zero below i and above i + |p2|. */
  lemma ShiftedOutside(p2: seq<Gf>, i: nat, c: Gf, n: nat, d: seq<Gf>)
    requires d == Shifted(p2, i, c, n)
    ensures forall k :: 0 <= k < i && k < n ==> d[k] == ZERO
    ensures forall k :: i + |p2| <= k < n ==> d[k] == ZERO
  {
  }

  /** Between i and i + |p2|, c * x^i * p2 holds p2's coefficients times c. */
  lemma ShiftedWithin(p2: seq<Gf>, i: nat, c: Gf, n: nat, d: seq<Gf>)
    requires i + |p2| <= n && d == Shifted(p2, i, c, n)
    ensures forall k :: 0 <= k < |p2| ==> d[i + k] == Mul(p2[k], c)
  {
    forall k | 0 <= k < |p2|
      ensures d[i + k] == Mul(p2[k], c)
    {
      ShiftedAt(p2, i, c, n, i + k);
      assert i + k - i == k;
    }
  }

  /** After n rows the part left to divide still has p1's value at every root of p2. */
  lemma {:induction false} ReducedKeepsValue(p1: seq<Gf>, p2: seq<Gf>, n: nat, z: Gf)
    requires 1 <= |p2| && p2[0] == ONE && Eval(p2, z) == ZERO && n <= Rows(p1, p2)
    ensures Eval(Masked(Reduced(p1, p2, n), n), z) == Eval(p1, z)
  {
    if n == 0 {
      assert Masked(p1, 0) == p1;
    } else {
      ReducedKeepsValue(p1, p2, n - 1, z);
      RowKeepsValue(Reduced(p1, p2, n - 1), p2, n - 1, z);
    }
  }

  /**
   * The remainder: at every root z of a monic divisor p2 of degree at least 1,
   * `__rsPolyMod(p1, p2)` has the same value as p1.
   */
  lemma RemainderValue(p1: seq<Gf>, p2: seq<Gf>, z: Gf)
    requires 2 <= |p2| && |p1| >= |p2| - 1 && p2[0] == ONE && Eval(p2, z) == ZERO
    ensures Eval(PolyModOf(p1, p2), z) == Eval(p1, z)
  {
    var rows := Rows(p1, p2);
    var r := Reduced(p1, p2, rows);
    ReducedKeepsValue(p1, p2, rows, z);
    PolyModTail(p1, p2, r, rows);
    TailValue(r, rows, z);
    MaskedValue(r, rows, z);
  }

  /** The remainder is what the rows leave after the first `rows` entries. */
  lemma PolyModTail(p1: seq<Gf>, p2: seq<Gf>, r: seq<Gf>, rows: nat)
    requires 2 <= |p2| && |p1| >= |p2| - 1 && rows == Rows(p1, p2) && r == Reduced(p1, p2, rows)
    ensures rows <= |r| && PolyModOf(p1, p2) == r[rows..]
  {
    assert |r| == |p1| && rows == |p1| - |p2| + 1;
    assert 1 - |p2| < 0 && |r| + (1 - |p2|) == rows;
  }

  /** A tail evaluates as the range it came from. */
  lemma TailValue(r: seq<Gf>, rows: nat, z: Gf)
    requires rows <= |r|
    ensures Eval(r[rows..], z) == EvalRange(r, rows, |r|, z)
  {
    EvalSuffix(r, rows, |r| - rows, z);
  }

  /** Zeroing the entries before `rows` leaves the value of the range from `rows` on. */
  lemma MaskedValue(r: seq<Gf>, rows: nat, z: Gf)
    requires rows <= |r|
    ensures EvalRange(r, rows, |r|, z) == Eval(Masked(r, rows), z)
  {
    var m := Masked(r, rows);
    EvalRangeSame(r, m, rows, |r|, z);
    EvalLeadingZeros(m, rows, |r|, z);
  }

  /** The error correction bytes of a block: the remainder of data * x^d divided by the generator. */
  ghost function EcBytes(data: seq<Gf>, d: nat): seq<Gf> {
    PolyModOf(data + ZeroPoly(d), Generator(d))
  }

  /**
   * A block followed by its d error correction bytes is a Reed-Solomon
   * codeword: it vanishes at 2^0, ..., 2^(d-1), the roots of the generator
   * (section 7.5.2 of ISO/IEC 18004:2015).
   */
  lemma CodewordRoots(data: seq<Gf>, d: nat, i: nat)
    requires i < d
    ensures |EcBytes(data, d)| == d
    ensures Eval(data + EcBytes(data, d), Power(i)) == ZERO
  {
    var z := Power(i);
    var p1 := data + ZeroPoly(d);
    var ec := EcBytes(data, d);
    PolyModLength(p1, Generator(d));
    GeneratorRoots(d, i);
    RemainderValue(p1, Generator(d), z);
    CodewordSum(data, ec, p1, z);
  }

  /** The codeword data + ec evaluates to the value of data followed by zeros, plus the value of ec. */
  lemma CodewordSum(data: seq<Gf>, ec: seq<Gf>, p1: seq<Gf>, z: Gf)
    requires p1 == data + ZeroPoly(|ec|)
    ensures Eval(data + ec, z) == Add(Eval(p1, z), Eval(ec, z))
  {
    var n, d := |data|, |ec|;
    var c := data + ec;
    var q := ZeroPoly(n) + ec;
    forall k | 0 <= k < n + d
      ensures c[k] == Add(p1[k], q[k])
    {
    }
    EvalAdd(p1, q, c, n + d, z);
    EvalLeadingZeros(q, n, n + d, z);
    assert q[n..] == ec;
    EvalSuffix(q, n, d, z);
  }

}
