/**
 * `__calculateSmallECCode`: the BCH codes that protect the format word and
 * the version word (Annexes C and D of ISO/IEC 18004:2015). Integers stand
 * for polynomials over GF(2), bit k being the coefficient of x^k, so that
 * addition is exclusive or and multiplication is the carry-less product.
 */
module Bch {
  import opened Bits

  /** `a ^ b` on naturals. */
  function Xor(a: nat, b: nat): nat
    decreases a
  {
    if a == 0 then b
    else if b == 0 then a
    else 2 * Xor(a / 2, b / 2) + (if a % 2 != b % 2 then 1 else 0)
  }

  /** The carry-less product of q and g: the product of the two GF(2) polynomials. */
  function ClMul(q: nat, g: nat): nat
    decreases q
  {
    if q == 0 then 0 else Xor(2 * ClMul(q / 2, g), if q % 2 == 1 then g else 0)
  }

  /** c is a multiple of the generator polynomial gen, that is, a codeword. */
  ghost predicate IsMultiple(c: nat, gen: nat) {
    exists q: nat :: c == ClMul(q, gen)
  }

  /** The position of the highest set bit of r, for r >= 1. */
  function Log2(r: nat): nat {
    if r < 2 then 0 else 1 + Log2(r / 2)
  }

  /**
   * What each reduction step of `__calculateSmallECCode` lowers: twice the
   * position of the top bit, plus one while r is a power of two (the one
   * case in which a step leaves the top bit in place).
   */
  function Measure(r: nat): nat {
    2 * Log2(r) + (if r == Pow2(Log2(r)) then 1 else 0)
  }

  lemma XorHalves(a: nat, b: nat)
    ensures Xor(a, b) / 2 == Xor(a / 2, b / 2)
    ensures Xor(a, b) % 2 == (if a % 2 != b % 2 then 1 else 0)
  {
  }

  lemma HalvesEq(x: nat, y: nat)
    requires x / 2 == y / 2 && x % 2 == y % 2
    ensures x == y
  {
  }

  lemma {:induction false} XorComm(a: nat, b: nat)
    ensures Xor(a, b) == Xor(b, a)
    decreases a + b
  {
    if a + b > 0 {
      XorHalves(a, b);
      XorHalves(b, a);
      XorComm(a / 2, b / 2);
      HalvesEq(Xor(a, b), Xor(b, a));
    }
  }

  lemma {:induction false} XorAssoc(a: nat, b: nat, c: nat)
    ensures Xor(Xor(a, b), c) == Xor(a, Xor(b, c))
    decreases a + b + c
  {
    if a + b + c > 0 {
      XorHalves(a, b);
      XorHalves(Xor(a, b), c);
      XorHalves(b, c);
      XorHalves(a, Xor(b, c));
      XorAssoc(a / 2, b / 2, c / 2);
      HalvesEq(Xor(Xor(a, b), c), Xor(a, Xor(b, c)));
    }
  }

  lemma {:induction false} XorSelf(a: nat)
    ensures Xor(a, a) == 0
    decreases a
  {
    if a > 0 {
      XorHalves(a, a);
      XorSelf(a / 2);
    }
  }

  lemma {:induction false} XorZeroEq(a: nat, b: nat)
    requires Xor(a, b) == 0
    ensures a == b
    decreases a + b
  {
    if a + b > 0 {
      XorHalves(a, b);
      XorZeroEq(a / 2, b / 2);
      HalvesEq(a, b);
    }
  }

  lemma XorDouble(x: nat, y: nat)
    ensures Xor(2 * x, 2 * y) == 2 * Xor(x, y)
  {
    XorHalves(2 * x, 2 * y);
    HalvesEq(Xor(2 * x, 2 * y), 2 * Xor(x, y));
  }

  /** ((p ^ q) ^ (r ^ s)) == ((p ^ r) ^ (q ^ s)). */
  lemma XorShuffle(p: nat, q: nat, r: nat, s: nat)
    ensures Xor(Xor(p, q), Xor(r, s)) == Xor(Xor(p, r), Xor(q, s))
  {
    calc {
      Xor(Xor(p, q), Xor(r, s));
      { XorAssoc(p, q, Xor(r, s)); }
      Xor(p, Xor(q, Xor(r, s)));
      { XorAssoc(q, r, s); XorComm(q, r); XorAssoc(r, q, s); }
      Xor(p, Xor(r, Xor(q, s)));
      { XorAssoc(p, r, Xor(q, s)); }
      Xor(Xor(p, r), Xor(q, s));
    }
  }

  /** The carry-less product distributes over exclusive or. */
  lemma {:induction false} ClMulDistrib(a: nat, b: nat, g: nat)
    ensures ClMul(Xor(a, b), g) == Xor(ClMul(a, g), ClMul(b, g))
    decreases a + b
  {
    var c := Xor(a, b);
    XorHalves(a, b);
    if a == 0 {
    } else if b == 0 {
      assert ClMul(0, g) == 0;
    } else {
      ClMulDistrib(a / 2, b / 2, g);
      var sa := if a % 2 == 1 then g else 0;
      var sb := if b % 2 == 1 then g else 0;
      var sc := if c % 2 == 1 then g else 0;
      assert sc == Xor(sa, sb) by {
        XorSelf(g);
      }
      var ca, cb := ClMul(a / 2, g), ClMul(b / 2, g);
      XorDouble(ca, cb);
      calc {
        ClMul(c, g);
        { ClMulStep(c, g); }
        Xor(2 * ClMul(c / 2, g), sc);
        Xor(Xor(2 * ca, 2 * cb), Xor(sa, sb));
        { XorShuffle(2 * ca, 2 * cb, sa, sb); }
        Xor(Xor(2 * ca, sa), Xor(2 * cb, sb));
      }
    }
  }

  /** The recurrence of ClMul, for every q including 0. */
  lemma ClMulStep(q: nat, g: nat)
    ensures ClMul(q, g) == Xor(2 * ClMul(q / 2, g), if q % 2 == 1 then g else 0)
  {
  }

  lemma {:induction false} ClMulPow2(k: nat, g: nat)
    ensures ClMul(Pow2(k), g) == Shl(g, k)
    decreases k
  {
    if k > 0 {
      ClMulPow2(k - 1, g);
      assert Pow2(k) / 2 == Pow2(k - 1) && Pow2(k) % 2 == 0;
    }
  }

  /** Exclusive or of two numbers below 2^n stays below 2^n. */
  lemma {:induction false} XorBelow(a: nat, b: nat, n: nat)
    requires a < Pow2(n) && b < Pow2(n)
    ensures Xor(a, b) < Pow2(n)
    decreases n
  {
    if n > 0 {
      XorHalves(a, b);
      XorBelow(a / 2, b / 2, n - 1);
    }
  }

  /** Two numbers with the same top bit t differ only below it. */
  lemma {:induction false} XorClearsTop(a: nat, b: nat, t: nat)
    requires Pow2(t) <= a < Pow2(t + 1) && Pow2(t) <= b < Pow2(t + 1)
    ensures Xor(a, b) < Pow2(t)
    decreases t
  {
    XorHalves(a, b);
    if t > 0 {
      XorClearsTop(a / 2, b / 2, t - 1);
    }
  }

  /** A number below 2^t leaves the top bit t of a in place. */
  lemma {:induction false} XorKeepsTop(a: nat, b: nat, t: nat)
    requires Pow2(t) <= a < Pow2(t + 1) && b < Pow2(t)
    ensures Pow2(t) <= Xor(a, b) < Pow2(t + 1)
    decreases t
  {
    XorHalves(a, b);
    if t > 0 {
      XorKeepsTop(a / 2, b / 2, t - 1);
    }
  }

  /** Exclusive or with bits that are all below the set bits of x << k is addition. */
  lemma {:induction false} XorDisjoint(x: nat, c: nat, k: nat)
    requires c < Pow2(k)
    ensures Xor(Shl(x, k), c) == Shl(x, k) + c
    decreases k
  {
    if k > 0 {
      XorHalves(Shl(x, k), c);
      XorDisjoint(x, c / 2, k - 1);
      HalvesEq(Xor(Shl(x, k), c), Shl(x, k) + c);
    } else {
      assert c == 0;
    }
  }

  lemma {:induction false} Log2Of(r: nat, t: nat)
    requires Pow2(t) <= r < Pow2(t + 1)
    ensures Log2(r) == t
    decreases t
  {
    if t > 0 {
      Log2Of(r / 2, t - 1);
    }
  }

  lemma {:induction false} Log2Bounds(r: nat)
    requires r >= 1
    ensures Pow2(Log2(r)) <= r < Pow2(Log2(r) + 1)
  {
    if r >= 2 {
      Log2Bounds(r / 2);
    }
  }

  lemma {:induction false} ShlBounds(g: nat, m: nat, k: nat)
    requires Pow2(m) <= g < Pow2(m + 1)
    ensures Pow2(m + k) <= Shl(g, k) < Pow2(m + k + 1)
    decreases k
  {
    if k > 0 {
      ShlBounds(g, m, k - 1);
    }
  }

  lemma {:induction false} ShlOne(k: nat)
    ensures Shl(1, k) == Pow2(k)
    decreases k
  {
    if k > 0 {
      ShlOne(k - 1);
    }
  }

  /** A number below 2^t has a smaller measure than one whose top bit is t. */
  lemma MeasureDrop(x: nat, r: nat, t: nat)
    requires x < Pow2(t) && Pow2(t) <= r < Pow2(t + 1)
    ensures Measure(x) < Measure(r)
  {
    Log2Of(r, t);
    if x >= 1 {
      Log2Bounds(x);
      if Log2(x) >= t {
        Pow2Mono(t, Log2(x));
      }
    }
  }

  lemma MeasureExact(x: nat, t: nat)
    requires Pow2(t) <= x < Pow2(t + 1)
    ensures Measure(x) == 2 * t + (if x == Pow2(t) then 1 else 0)
  {
    Log2Of(x, t);
  }

  /** The top bit t of r and g is cleared. */
  lemma ReduceClears(r: nat, g: nat, t: nat)
    requires Pow2(t) <= r < Pow2(t + 1) && Pow2(t) <= g < Pow2(t + 1)
    ensures Measure(Xor(r, g)) < Measure(r)
  {
    XorClearsTop(r, g, t);
    MeasureDrop(Xor(r, g), r, t);
  }

  /** r is the power 2^(t+1) and g lies below it: the top bit stays, r stops being a power. */
  lemma ReduceFromPower(r: nat, g: nat, t: nat)
    requires r == Pow2(t + 1) && Pow2(t) <= g < Pow2(t + 1)
    ensures Measure(Xor(r, g)) < Measure(r)
  {
    assert r == Shl(1, t + 1) by { ShlOne(t + 1); }
    XorDisjoint(1, g, t + 1);
    assert Pow2(t + 2) == 2 * r;
    MeasureExact(r, t + 1);
    MeasureExact(Xor(r, g), t + 1);
  }

  /**
   * One step of the reduction loop: g is the generator shifted k places,
   * where k is where the inner loop stops, and r ^ g has a smaller measure.
   */
  lemma ReduceStep(r: nat, gen: nat, len: nat, k: nat, g: nat)
    requires Pow2(len) <= gen < Pow2(len + 1) && g == Shl(gen, k)
    requires Pow2(len) <= r <= Pow2(len + k + 1)
    requires k == 0 || Pow2(len + k) < r
    ensures Measure(Xor(r, g)) < Measure(r)
  {
    ShlBounds(gen, len, k);
    if r < Pow2(len + k + 1) {
      ReduceClears(r, g, len + k);
    } else {
      ReduceFromPower(r, g, len + k);
    }
  }

  /** Adding the generator shifted k places adds x^k to the quotient. */
  lemma QuotientStep(d: nat, q: nat, gen: nat, k: nat, r: nat)
    requires r == Xor(d, ClMul(q, gen))
    ensures Xor(r, Shl(gen, k)) == Xor(d, ClMul(Xor(q, Pow2(k)), gen))
  {
    ClMulDistrib(q, Pow2(k), gen);
    ClMulPow2(k, gen);
    XorAssoc(d, ClMul(q, gen), Shl(gen, k));
  }

  /** Shifting back the codeword gives the data. */
  lemma {:induction false} ShrLow(d: nat, r: nat, len: nat)
    requires r < Pow2(len)
    ensures Shr(Shl(d, len) + r, len) == d
    decreases len
  {
    if len > 0 {
      assert (Shl(d, len) + r) / 2 == Shl(d, len - 1) + r / 2;
      ShrLow(d, r / 2, len - 1);
    }
  }

  /**
   * `__calculateSmallECCode(data, len, gen)`: data followed by the len-bit
   * remainder of its division by gen, a polynomial of degree len. The result
   * is a codeword: the systematic form of data in the code that gen generates.
   */
  method SmallEcCode(data: nat, len: nat, gen: nat) returns (code: nat)
    requires Pow2(len) <= gen < Pow2(len + 1)
    requires Shl(data, len) < Pow2(30)
    ensures Shl(data, len) <= code < Shl(data, len) + Pow2(len)
    ensures Shr(code, len) == data
    ensures IsMultiple(code, gen)
  {
    var r := Shl(data, len);
    var b1 := Shl(1, len);
    ShlOne(len);
    ghost var q: nat := 0;
    while r >= b1
      invariant r == Xor(Shl(data, len), ClMul(q, gen))
      decreases Measure(r)
    {
      var g, k := AlignGenerator(gen, len, b1, r);
      ReduceStep(r, gen, len, k, g);
      QuotientStep(Shl(data, len), q, gen, k, r);
      r := Xor(r, g);
      q := Xor(q, Pow2(k));
    }
    code := Or(Shl(data, len), r);
    Assemble(data, len, gen, r, q, code);
  }

  /**
   * The inner loop of `__calculateSmallECCode`: shifts the generator left
   * until the doubled bound b2 = 2^(len+k+1) is no longer below r.
   */
  method AlignGenerator(gen: nat, len: nat, b1: nat, r: nat) returns (g: nat, ghost k: nat)
    requires b1 == Pow2(len) && b1 <= r
    ensures g == Shl(gen, k)
    ensures r <= Pow2(len + k + 1)
    ensures k == 0 || Pow2(len + k) < r
  {
    g := gen;
    var b2 := Shl(b1, 1);
    k := 0;
    Pow2Succ(len);
    while b2 < r
      invariant g == Shl(gen, k) && b2 == Pow2(len + k + 1)
      invariant k == 0 || Pow2(len + k) < r
      decreases r as int - b2 as int
    {
      Pow2Succ(len + k + 1);
      g, b2 := Shl(g, 1), Shl(b2, 1);
      k := k + 1;
    }
  }

  lemma Pow2Succ(n: nat)
    ensures Pow2(n + 1) == 2 * Pow2(n)
  {
  }

  /** The result `(data << len) | r` of SmallEcCode, once r is below 2^len. */
  lemma Assemble(data: nat, len: nat, gen: nat, r: nat, q: nat, code: nat)
    requires r < Pow2(len) && r == Xor(Shl(data, len), ClMul(q, gen))
    requires code == Or(Shl(data, len), r)
    ensures Shl(data, len) <= code < Shl(data, len) + Pow2(len)
    ensures Shr(code, len) == data
    ensures IsMultiple(code, gen)
  {
    var d, c := Shl(data, len), ClMul(q, gen);
    OrDisjoint(data, r, len);
    ShrLow(data, r, len);
    XorDisjoint(data, r, len);
    XorMultiple(d, r, c, code);
  }

  /** d + r is c again when r is d + c. */
  lemma XorMultiple(d: nat, r: nat, c: nat, code: nat)
    requires r == Xor(d, c) && code == Xor(d, r)
    ensures code == c
  {
    XorTwice(c, d);
  }

  /** Adding the same polynomial twice, on either side, cancels it. */
  lemma XorTwice(a: nat, m: nat)
    ensures Xor(Xor(a, m), m) == a
    ensures Xor(m, Xor(m, a)) == a
  {
    XorAssoc(a, m, m);
    XorAssoc(m, m, a);
    XorSelf(m);
  }

  /** A non-zero multiple of a degree-m polynomial has degree m + Log2(q). */
  lemma {:induction false} ClMulTop(q: nat, g: nat, m: nat)
    requires q >= 1 && Pow2(m) <= g < Pow2(m + 1)
    ensures Pow2(m + Log2(q)) <= ClMul(q, g) < Pow2(m + Log2(q) + 1)
    decreases q
  {
    if q == 1 {
      ClMulTopOne(g, m);
    } else {
      var h := q / 2;
      ClMulTop(h, g, m);
      ClMulDouble(q, g, m, m + Log2(h));
    }
  }

  /** The base case of ClMulTop: the product by 1 is g itself. */
  lemma ClMulTopOne(g: nat, m: nat)
    requires Pow2(m) <= g < Pow2(m + 1)
    ensures Pow2(m + Log2(1)) <= ClMul(1, g) < Pow2(m + Log2(1) + 1)
  {
    ClMulOne(g);
  }

  lemma ClMulOne(g: nat)
    ensures ClMul(1, g) == g && Log2(1) == 0
  {
    assert ClMul(1, g) == Xor(0, g);
  }

  /** The inductive step of ClMulTop: doubling moves the top bit up, adding g leaves it. */
  lemma ClMulDouble(q: nat, g: nat, m: nat, t: nat)
    requires q >= 2 && Pow2(m) <= g < Pow2(m + 1) && t == m + Log2(q / 2)
    requires Pow2(t) <= ClMul(q / 2, g) < Pow2(t + 1)
    ensures Pow2(m + Log2(q)) <= ClMul(q, g) < Pow2(m + Log2(q) + 1)
  {
    var c := 2 * ClMul(q / 2, g);
    var s := if q % 2 == 1 then g else 0;
    var u := m + Log2(q);
    Log2Half(q);
    DoubleTop(ClMul(q / 2, g), t);
    Pow2Mono(m + 1, u);
    XorKeepsTop(c, s, u);
    ClMulStep(q, g);
  }

  lemma Log2Half(q: nat)
    requires q >= 2
    ensures Log2(q) == Log2(q / 2) + 1
  {
  }

  /** Doubling a number whose top bit is bit t moves that bit to t + 1. */
  lemma DoubleTop(x: nat, t: nat)
    requires Pow2(t) <= x < Pow2(t + 1)
    ensures Pow2(t + 1) <= 2 * x < Pow2(t + 2)
  {
    assert Pow2(t + 2) == 2 * Pow2(t + 1);
  }

  /**
   * The remainder is unique: two codewords that carry the same data above
   * their low len bits are equal. So SmallEcCode computes the one systematic
   * codeword for its data.
   */
  lemma CodewordUnique(data: nat, len: nat, gen: nat, r1: nat, r2: nat)
    requires Pow2(len) <= gen < Pow2(len + 1)
    requires r1 < Pow2(len) && r2 < Pow2(len)
    requires IsMultiple(Shl(data, len) + r1, gen) && IsMultiple(Shl(data, len) + r2, gen)
    ensures r1 == r2
  {
    var d := Shl(data, len);
    var q1: nat :| d + r1 == ClMul(q1, gen);
    var q2: nat :| d + r2 == ClMul(q2, gen);
    XorBelow(r1, r2, len);
    SameDataDiffer(data, len, gen, r1, r2, q1, q2);
    SmallMultiple(Xor(q1, q2), gen, len);
    ClMulDistrib(q1, q2, gen);
    XorZeroEq(r1, r2);
  }

  /** Two codewords that agree above bit len differ by the multiple (q1 ^ q2) * gen. */
  lemma SameDataDiffer(data: nat, len: nat, gen: nat, r1: nat, r2: nat, q1: nat, q2: nat)
    requires r1 < Pow2(len) && r2 < Pow2(len)
    requires Shl(data, len) + r1 == ClMul(q1, gen) && Shl(data, len) + r2 == ClMul(q2, gen)
    ensures ClMul(Xor(q1, q2), gen) == Xor(r1, r2)
  {
    var d := Shl(data, len);
    var c1, c2 := ClMul(q1, gen), ClMul(q2, gen);
    XorDisjoint(data, r1, len);
    XorDisjoint(data, r2, len);
    assert c1 == Xor(d, r1) && c2 == Xor(d, r2);
    ClMulDistrib(q1, q2, gen);
    XorCancel(d, r1, r2);
    XorEq(c1, Xor(d, r1), c2, Xor(d, r2));
  }

  lemma XorEq(a: nat, a': nat, b: nat, b': nat)
    requires a == a' && b == b'
    ensures Xor(a, b) == Xor(a', b')
  {
  }

  lemma XorCancel(d: nat, r1: nat, r2: nat)
    ensures Xor(Xor(d, r1), Xor(d, r2)) == Xor(r1, r2)
  {
    XorShuffle(d, r1, d, r2);
    XorSelf(d);
  }

  /** The only multiple of a degree-len polynomial below 2^len is 0. */
  lemma SmallMultiple(x: nat, gen: nat, len: nat)
    requires Pow2(len) <= gen < Pow2(len + 1)
    requires ClMul(x, gen) < Pow2(len)
    ensures x == 0
  {
    if x != 0 {
      ClMulTop(x, gen, len);
      Pow2Mono(len, len + Log2(x));
    }
  }
}
