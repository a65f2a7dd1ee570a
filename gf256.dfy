/**
 * The Galois field GF(2^8) of the Reed-Solomon code: polynomials over GF(2)
 * modulo x^8 + x^4 + x^3 + x^2 + 1 (0x11D), generated by 2.
 */
module Gf256 {
  import opened Bits

  /**
   * A field element by its eight coefficient bits, b7 the most significant.
   * Addition, the source's `^` on bytes, is coefficientwise.
   */
  datatype Gf = Gf(b7: bool, b6: bool, b5: bool, b4: bool, b3: bool, b2: bool, b1: bool, b0: bool)

  const ZERO: Gf := Gf(false, false, false, false, false, false, false, false)
  const ONE: Gf := Gf(false, false, false, false, false, false, false, true)

  /** `a ^ b` on two bytes. */
  function Add(a: Gf, b: Gf): Gf {
    Gf(a.b7 != b.b7, a.b6 != b.b6, a.b5 != b.b5, a.b4 != b.b4,
       a.b3 != b.b3, a.b2 != b.b2, a.b1 != b.b1, a.b0 != b.b0)
  }

  /**
   * Multiplication by 2: every coefficient moves up one place and, when one
   * leaves the byte, 0x11D is added, which clears it and adds 0x1D (bits 4, 3, 2, 0).
   */
  function Xtime(x: Gf): Gf {
    Gf(x.b6, x.b5, x.b4, x.b3 != x.b7, x.b2 != x.b7, x.b1 != x.b7, x.b0, x.b7)
  }

  /** 2^i, entry i of the anti-log table for i < 255. */
  function Power(i: nat): Gf {
    if i == 0 then ONE else Xtime(Power(i - 1))
  }

  /** The value of four coefficient bits, a the most significant. */
  function NibbleValue(a: bool, b: bool, c: bool, d: bool): (n: int)
    ensures 0 <= n < 16
  {
    (if a then 8 else 0) + (if b then 4 else 0) + (if c then 2 else 0) + (if d then 1 else 0)
  }

  /** The byte with these coefficient bits. */
  function ByteOf(g: Gf): Byte {
    16 * NibbleValue(g.b7, g.b6, g.b5, g.b4) + NibbleValue(g.b3, g.b2, g.b1, g.b0)
  }

  lemma NibbleBits(m: int)
    requires 0 <= m < 16
    ensures NibbleValue(m / 8 % 2 == 1, m / 4 % 2 == 1, m / 2 % 2 == 1, m % 2 == 1) == m
  {
  }

  lemma NibbleInjective(a: bool, b: bool, c: bool, d: bool, m: int)
    requires m == NibbleValue(a, b, c, d)
    ensures a == (m / 8 % 2 == 1) && b == (m / 4 % 2 == 1) && c == (m / 2 % 2 == 1) && d == (m % 2 == 1)
  {
  }

  /** The coefficient bits of a byte. */
  function GfOf(n: Byte): (g: Gf)
    ensures ByteOf(g) == n
  {
    var h, l := n / 16, n % 16;
    NibbleBits(h);
    NibbleBits(l);
    Gf(h / 8 % 2 == 1, h / 4 % 2 == 1, h / 2 % 2 == 1, h % 2 == 1,
       l / 8 % 2 == 1, l / 4 % 2 == 1, l / 2 % 2 == 1, l % 2 == 1)
  }

  /** A byte splits into its two nibbles. */
  lemma ByteNibbles(g: Gf)
    ensures ByteOf(g) / 16 == NibbleValue(g.b7, g.b6, g.b5, g.b4)
    ensures ByteOf(g) % 16 == NibbleValue(g.b3, g.b2, g.b1, g.b0)
  {
  }

  lemma GfOfByteOf(g: Gf)
    ensures GfOf(ByteOf(g)) == g
  {
    ByteNibbles(g);
    NibbleInjective(g.b7, g.b6, g.b5, g.b4, ByteOf(g) / 16);
    NibbleInjective(g.b3, g.b2, g.b1, g.b0, ByteOf(g) % 16);
  }

  lemma ByteOfInjective(a: Gf, b: Gf)
    requires ByteOf(a) == ByteOf(b)
    ensures a == b
  {
    GfOfByteOf(a);
    GfOfByteOf(b);
  }

  lemma ByteOfZero(g: Gf)
    ensures ByteOf(g) == 0 <==> g == ZERO
  {
  }

  /**
   * The source's table step on its integer `x`, for x < 0x100: `x <<= 1`,
   * then `x ^= 0x11d` when bit 8 is set.
   */
  function TableStep(x: bv16): bv16 {
    var y := x << 1;
    if y & 0x100 != 0 then y ^ 0x11D else y
  }

  /** The integer the table loop holds after i steps. */
  function TableValue(i: nat): bv16 {
    if i == 0 then 1 else TableStep(TableValue(i - 1))
  }

  /** The field element of an integer below 0x100. */
  function GfOfWord(x: bv16): Gf {
    Gf(x & 0x80 != 0, x & 0x40 != 0, x & 0x20 != 0, x & 0x10 != 0,
       x & 0x08 != 0, x & 0x04 != 0, x & 0x02 != 0, x & 0x01 != 0)
  }

  /** The integer step is Xtime, and stays below 0x100. */
  lemma TableStepIsXtime(x: bv16)
    requires x < 0x100
    ensures TableStep(x) < 0x100 && GfOfWord(TableStep(x)) == Xtime(GfOfWord(x))
  {
  }

  lemma WordIsOne(x: bv16)
    requires x < 0x100
    ensures GfOfWord(x) == ONE <==> x == 1
  {
  }

  lemma {:induction false} TableValueIsPower(i: nat)
    ensures TableValue(i) < 0x100 && GfOfWord(TableValue(i)) == Power(i)
  {
    if i > 0 {
      TableValueIsPower(i - 1);
      TableStepIsXtime(TableValue(i - 1));
    }
  }

  /** None of the n integers reached from x by successive table steps, x included, is 1. */
  predicate NoOneFrom(x: bv16, n: nat)
    decreases n
  {
    n == 0 || (x != 1 && NoOneFrom(TableStep(x), n - 1))
  }

  lemma {:induction false} NoOneFromTable(i: nat, n: nat, k: nat)
    requires NoOneFrom(TableValue(i), n) && i <= k < i + n
    ensures TableValue(k) != 1
    decreases n
  {
    if k > i {
      NoOneFromTable(i + 1, n - 1, k);
    }
  }

  /** Computed values of the table loop, ten steps apart. */
  lemma TableAnchors()
    ensures TableValue(10) == 0x74
    ensures TableValue(20) == 0xB4
    ensures TableValue(30) == 0x60
    ensures TableValue(40) == 0x6A
    ensures TableValue(50) == 0x05
    ensures TableValue(60) == 0xB9
    ensures TableValue(70) == 0x5E
    ensures TableValue(80) == 0xFD
    ensures TableValue(90) == 0xDF
    ensures TableValue(100) == 0x11
    ensures TableValue(110) == 0x67
    ensures TableValue(120) == 0x3B
    ensures TableValue(130) == 0x2E
    ensures TableValue(140) == 0x84
    ensures TableValue(150) == 0x55
    ensures TableValue(160) == 0xE6
    ensures TableValue(170) == 0xD7
    ensures TableValue(180) == 0x96
    ensures TableValue(190) == 0xAE
    ensures TableValue(200) == 0x1C
    ensures TableValue(210) == 0x59
    ensures TableValue(220) == 0xAC
    ensures TableValue(230) == 0xF4
    ensures TableValue(240) == 0x2C
    ensures TableValue(250) == 0x6C
    ensures TableValue(255) == 1
  {
    assert TableValue(10) == 0x74;
    assert TableValue(20) == 0xB4;
    assert TableValue(30) == 0x60;
    assert TableValue(40) == 0x6A;
    assert TableValue(50) == 0x05;
    assert TableValue(60) == 0xB9;
    assert TableValue(70) == 0x5E;
    assert TableValue(80) == 0xFD;
    assert TableValue(90) == 0xDF;
    assert TableValue(100) == 0x11;
    assert TableValue(110) == 0x67;
    assert TableValue(120) == 0x3B;
    assert TableValue(130) == 0x2E;
    assert TableValue(140) == 0x84;
    assert TableValue(150) == 0x55;
    assert TableValue(160) == 0xE6;
    assert TableValue(170) == 0xD7;
    assert TableValue(180) == 0x96;
    assert TableValue(190) == 0xAE;
    assert TableValue(200) == 0x1C;
    assert TableValue(210) == 0x59;
    assert TableValue(220) == 0xAC;
    assert TableValue(230) == 0xF4;
    assert TableValue(240) == 0x2C;
    assert TableValue(250) == 0x6C;
  }

  /** The table values between consecutive anchors, checked by stepping from each anchor. */
  lemma NoOneLow()
    ensures NoOneFrom(0x02, 9)
    ensures NoOneFrom(0x74, 10)
    ensures NoOneFrom(0xB4, 10)
    ensures NoOneFrom(0x60, 10)
    ensures NoOneFrom(0x6A, 10)
    ensures NoOneFrom(0x05, 10)
    ensures NoOneFrom(0xB9, 10)
    ensures NoOneFrom(0x5E, 10)
    ensures NoOneFrom(0xFD, 10)
    ensures NoOneFrom(0xDF, 10)
    ensures NoOneFrom(0x11, 10)
    ensures NoOneFrom(0x67, 10)
    ensures NoOneFrom(0x3B, 10)
  {
    assert NoOneFrom(0x02, 9);
    assert NoOneFrom(0x74, 10);
    assert NoOneFrom(0xB4, 10);
    assert NoOneFrom(0x60, 10);
    assert NoOneFrom(0x6A, 10);
    assert NoOneFrom(0x05, 10);
    assert NoOneFrom(0xB9, 10);
    assert NoOneFrom(0x5E, 10);
    assert NoOneFrom(0xFD, 10);
    assert NoOneFrom(0xDF, 10);
    assert NoOneFrom(0x11, 10);
    assert NoOneFrom(0x67, 10);
    assert NoOneFrom(0x3B, 10);
  }

  /** The table values between consecutive anchors, checked by stepping from each anchor. */
  lemma NoOneHigh()
    ensures NoOneFrom(0x2E, 10)
    ensures NoOneFrom(0x84, 10)
    ensures NoOneFrom(0x55, 10)
    ensures NoOneFrom(0xE6, 10)
    ensures NoOneFrom(0xD7, 10)
    ensures NoOneFrom(0x96, 10)
    ensures NoOneFrom(0xAE, 10)
    ensures NoOneFrom(0x1C, 10)
    ensures NoOneFrom(0x59, 10)
    ensures NoOneFrom(0xAC, 10)
    ensures NoOneFrom(0xF4, 10)
    ensures NoOneFrom(0x2C, 10)
    ensures NoOneFrom(0x6C, 5)
  {
    assert NoOneFrom(0x2E, 10);
    assert NoOneFrom(0x84, 10);
    assert NoOneFrom(0x55, 10);
    assert NoOneFrom(0xE6, 10);
    assert NoOneFrom(0xD7, 10);
    assert NoOneFrom(0x96, 10);
    assert NoOneFrom(0xAE, 10);
    assert NoOneFrom(0x1C, 10);
    assert NoOneFrom(0x59, 10);
    assert NoOneFrom(0xAC, 10);
    assert NoOneFrom(0xF4, 10);
    assert NoOneFrom(0x2C, 10);
    assert NoOneFrom(0x6C, 5);
  }

  /** 2 has multiplicative order 255: 2^255 = 1 and no smaller positive power is 1. */
  lemma PowerOrder(k: nat)
    requires 0 < k < 255
    ensures Power(255) == ONE && Power(k) != ONE
  {
    TableAnchors();
    NoOneLow();
    NoOneHigh();
    if k < 10 {
      NoOneFromTable(1, 9, k);
    } else if k < 20 {
      NoOneFromTable(10, 10, k);
    } else if k < 30 {
      NoOneFromTable(20, 10, k);
    } else if k < 40 {
      NoOneFromTable(30, 10, k);
    } else if k < 50 {
      NoOneFromTable(40, 10, k);
    } else if k < 60 {
      NoOneFromTable(50, 10, k);
    } else if k < 70 {
      NoOneFromTable(60, 10, k);
    } else if k < 80 {
      NoOneFromTable(70, 10, k);
    } else if k < 90 {
      NoOneFromTable(80, 10, k);
    } else if k < 100 {
      NoOneFromTable(90, 10, k);
    } else if k < 110 {
      NoOneFromTable(100, 10, k);
    } else if k < 120 {
      NoOneFromTable(110, 10, k);
    } else if k < 130 {
      NoOneFromTable(120, 10, k);
    } else if k < 140 {
      NoOneFromTable(130, 10, k);
    } else if k < 150 {
      NoOneFromTable(140, 10, k);
    } else if k < 160 {
      NoOneFromTable(150, 10, k);
    } else if k < 170 {
      NoOneFromTable(160, 10, k);
    } else if k < 180 {
      NoOneFromTable(170, 10, k);
    } else if k < 190 {
      NoOneFromTable(180, 10, k);
    } else if k < 200 {
      NoOneFromTable(190, 10, k);
    } else if k < 210 {
      NoOneFromTable(200, 10, k);
    } else if k < 220 {
      NoOneFromTable(210, 10, k);
    } else if k < 230 {
      NoOneFromTable(220, 10, k);
    } else if k < 240 {
      NoOneFromTable(230, 10, k);
    } else if k < 250 {
      NoOneFromTable(240, 10, k);
    } else {
      NoOneFromTable(250, 5, k);
    }
    TableValueIsPower(255);
    TableValueIsPower(k);
    WordIsOne(TableValue(255));
    WordIsOne(TableValue(k));
  }

  lemma XtimeInjective(a: Gf, b: Gf)
    requires Xtime(a) == Xtime(b)
    ensures a == b
  {
  }

  lemma XtimeNonZero(a: Gf)
    requires a != ZERO
    ensures Xtime(a) != ZERO
  {
  }

  /** Doubling is linear over addition. */
  lemma XtimeLinear(a: Gf, b: Gf)
    ensures Xtime(Add(a, b)) == Add(Xtime(a), Xtime(b))
  {
  }

  lemma {:induction false} PowerNonZero(i: nat)
    ensures Power(i) != ZERO
  {
    if i > 0 {
      PowerNonZero(i - 1);
      XtimeNonZero(Power(i - 1));
    }
  }

  /** Equal powers differ in exponent by a power equal to 1. */
  lemma {:induction false} PowerCancel(i: nat, j: nat)
    requires i <= j && Power(i) == Power(j)
    ensures Power(j - i) == ONE
  {
    if i > 0 {
      XtimeInjective(Power(i - 1), Power(j - 1));
      PowerCancel(i - 1, j - 1);
    }
  }

  /** The first 255 powers are pairwise distinct. */
  lemma PowerDistinct(i: nat, j: nat)
    requires i < j < 255
    ensures Power(i) != Power(j)
  {
    if Power(i) == Power(j) {
      PowerCancel(i, j);
      PowerOrder(j - i);
    }
  }

  /** The powers repeat with period 255. */
  lemma {:induction false} PowerPeriod(i: nat)
    ensures Power(i + 255) == Power(i)
  {
    if i == 0 {
      PowerOrder(1);
    } else {
      PowerPeriod(i - 1);
    }
  }

  lemma {:induction false} PowerMod(i: nat)
    ensures Power(i) == Power(i % 255)
    decreases i
  {
    if i >= 255 {
      PowerMod(i - 255);
      PowerPeriod(i - 255);
    }
  }

  /** The number of bytes, and the order of the multiplicative group. */
  const FIELD_SIZE: nat := 256
  const ORDER: nat := 255

  /** The integers 1..n-1. */
  function Range(n: nat): (r: set<int>)
    ensures forall x :: x in r <==> 1 <= x < n
    ensures |r| == if n == 0 then 0 else n - 1
  {
    if n <= 1 then {} else Range(n - 1) + {n - 1}
  }

  /** The bytes of the first n powers. */
  function Powers(n: nat): set<int> {
    set i | 0 <= i < n :: ByteOf(Power(i))
  }

  lemma {:induction false} PowersCard(n: nat)
    requires n <= 255
    ensures |Powers(n)| == n
  {
    if n > 0 {
      PowersCard(n - 1);
      assert Powers(n) == Powers(n - 1) + {ByteOf(Power(n - 1))};
      if ByteOf(Power(n - 1)) in Powers(n - 1) {
        var i :| 0 <= i < n - 1 && ByteOf(Power(i)) == ByteOf(Power(n - 1));
        ByteOfInjective(Power(i), Power(n - 1));
        PowerDistinct(i, n - 1);
      }
    } else {
      assert Powers(0) == {};
    }
  }

  lemma SubsetSameSize<T>(a: set<T>, b: set<T>)
    requires a <= b && |a| == |b|
    ensures a == b
  {
    assert b == a + (b - a);
    assert |b - a| == 0;
  }

  /** The 255 distinct nonzero powers are all of the nonzero bytes. */
  lemma PowersAreNonZero()
    ensures Powers(ORDER) == Range(FIELD_SIZE)
  {
    var p, r := Powers(ORDER), Range(FIELD_SIZE);
    PowersCard(ORDER);
    forall y | y in p
      ensures y in r
    {
      var i :| 0 <= i < ORDER && ByteOf(Power(i)) == y;
      PowerNonZero(i);
      ByteOfZero(Power(i));
    }
    SubsetSameSize(p, r);
  }

  /** 2 generates the multiplicative group: every nonzero element is a power of it. */
  lemma PowerOnto(x: Gf)
    requires x != ZERO
    ensures exists i :: 0 <= i < ORDER && Power(i) == x
  {
    PowersAreNonZero();
    ByteOfZero(x);
    assert ByteOf(x) in Range(FIELD_SIZE);
    var i :| 0 <= i < ORDER && ByteOf(Power(i)) == ByteOf(x);
    ByteOfInjective(Power(i), x);
  }

  /**
   * The discrete logarithm, what `__rs_log_tbl` holds: the exponent below 255
   * of a nonzero element. The table's entry for 0 is never read.
   */
  ghost function Log(x: Gf): (r: nat)
    requires x != ZERO
    ensures r < 255 && Power(r) == x
  {
    PowerOnto(x);
    var i :| 0 <= i < ORDER && Power(i) == x;
    i
  }

  /** `log[exp[i]] == i` for i < 255. */
  lemma LogPower(i: nat)
    requires i < 255
    ensures Power(i) != ZERO && Log(Power(i)) == i
  {
    PowerNonZero(i);
    var r := Log(Power(i));
    if r < i {
      PowerDistinct(r, i);
    } else if r > i {
      PowerDistinct(i, r);
    }
  }

  /** The byte of 2^i differs from the bytes of all smaller powers. */
  lemma PowerByteFresh(i: nat)
    requires i < 255
    ensures forall k :: 0 <= k < i ==> ByteOf(Power(k)) != ByteOf(Power(i))
  {
    forall k | 0 <= k < i
      ensures ByteOf(Power(k)) != ByteOf(Power(i))
    {
      PowerDistinct(k, i);
      if ByteOf(Power(k)) == ByteOf(Power(i)) {
        ByteOfInjective(Power(k), Power(i));
      }
    }
  }

  /** A table that maps the byte of every 2^k back to k maps each nonzero byte to its logarithm. */
  lemma LogTableComplete(logs: seq<nat>)
    requires |logs| == 256
    requires forall k :: 0 <= k < 255 ==> logs[ByteOf(Power(k))] == k
    ensures forall n :: 0 < n < 256 ==> logs[n] < 255 && Power(logs[n]) == GfOf(n)
  {
    forall n | 0 < n < 256
      ensures logs[n] < 255 && Power(logs[n]) == GfOf(n)
    {
      var g := GfOf(n);
      ByteOfZero(g);
      var e := Log(g);
      assert logs[ByteOf(Power(e))] == e;
    }
  }

  /** The anti-log and log tables, `__rs_exp_tbl` and `__rs_log_tbl`; the log table is indexed by byte. */
  datatype Tables = Tables(exp: seq<Gf>, log: seq<nat>)

  /** What the constructor leaves in the tables. */
  ghost predicate ValidTables(t: Tables) {
    && |t.exp| == 512 && |t.log| == 256
    && (forall i :: 0 <= i < 512 ==> t.exp[i] == Power(i))
    && (forall n :: 0 < n < 256 ==> t.log[n] < 255 && Power(t.log[n]) == GfOf(n))
  }

  /**
   * The constructor's table computation: `__rs_exp_tbl` holds the first 255
   * powers followed by a copy of its first 257 entries, and `__rs_log_tbl[x]`
   * the exponent of each nonzero byte x. The tables are written once and only
   * read afterwards, so the model builds them as sequences.
   */
  method BuildTables() returns (t: Tables)
    ensures ValidTables(t)
    ensures forall i :: 255 <= i < 512 ==> t.exp[i] == t.exp[i - 255]
  {
    var exp, log := PowersAndLogs();
    exp := CopyPowers(exp);
    t := Tables(exp, log);
  }

  /** The first loop: entries 0..254 of the anti-log table and the whole log table. */
  method PowersAndLogs() returns (exp: seq<Gf>, log: seq<nat>)
    ensures |exp| == 512 && |log| == 256
    ensures forall i :: 0 <= i < 255 ==> exp[i] == Power(i)
    ensures forall n :: 0 < n < 256 ==> log[n] < 255 && Power(log[n]) == GfOf(n)
  {
    exp := seq(512, _ => ZERO)[0 := ONE];
    log := seq(256, _ => 0)[1 := 0];
    var x := ONE;
    for i := 1 to 255
      invariant |exp| == 512 && |log| == 256
      invariant x == Power(i - 1)
      invariant forall k :: 0 <= k < i ==> exp[k] == Power(k)
      invariant forall k :: 0 <= k < i ==> log[ByteOf(Power(k))] == k
    {
      x := Xtime(x);
      PowerByteFresh(i);
      exp := exp[i := x];
      log := log[ByteOf(x) := i];
    }
    LogTableComplete(log);
  }

  /** The second loop: entries 255..511 repeat the table from its start. */
  method CopyPowers(exp0: seq<Gf>) returns (exp: seq<Gf>)
    requires |exp0| == 512
    requires forall i :: 0 <= i < 255 ==> exp0[i] == Power(i)
    ensures |exp| == 512
    ensures forall i :: 0 <= i < 512 ==> exp[i] == Power(i)
    ensures forall i :: 255 <= i < 512 ==> exp[i] == exp[i - 255]
  {
    exp := exp0;
    for i := 255 to 512
      invariant |exp| == 512
      invariant forall k :: 0 <= k < i ==> exp[k] == Power(k)
    {
      var j := i - 255;
      PowerPeriod(j);
      assert exp[j] == Power(j + 255);
      exp := exp[i := exp[j]];
    }
    forall k | 255 <= k < 512
      ensures exp[k] == exp[k - 255]
    {
      PowerPeriod(k - 255);
    }
  }

  /** Multiplication in the field by exponents; the product with 0 is 0. */
  ghost function ExpMul(a: Gf, b: Gf): Gf {
    if a != ZERO && b != ZERO then Power(Log(a) + Log(b)) else ZERO
  }

  /**
   * Field multiplication: ExpMul, reached through an unspecified number of
   * trivial steps so that the solver does not expand the exponent form in
   * every proof about polynomials. MulIsExpMul recovers the definition where
   * a proof needs it; elsewhere Mul is used through the laws proved below.
   */
  ghost function Mul(a: Gf, b: Gf): Gf {
    MulAt(a, b, MulDepth())
  }

  ghost function MulDepth(): nat {
    var n: nat :| n > 0; n
  }

  ghost function MulAt(a: Gf, b: Gf, n: nat): Gf
    decreases n
  {
    if n == 0 then ExpMul(a, b) else MulAt(a, b, n - 1)
  }

  lemma {:induction false} MulAtIsExpMul(a: Gf, b: Gf, n: nat)
    ensures MulAt(a, b, n) == ExpMul(a, b)
  {
    if n > 0 {
      MulAtIsExpMul(a, b, n - 1);
    }
  }

  lemma MulIsExpMul(a: Gf, b: Gf)
    ensures Mul(a, b) == ExpMul(a, b)
  {
    MulAtIsExpMul(a, b, MulDepth());
  }

  /** A product is zero exactly when a factor is. */
  lemma MulZero(a: Gf, b: Gf)
    ensures Mul(a, b) == ZERO <==> a == ZERO || b == ZERO
  {
    MulIsExpMul(a, b);
    if a != ZERO && b != ZERO {
      PowerNonZero(Log(a) + Log(b));
    }
  }

  lemma MulComm(a: Gf, b: Gf)
    ensures Mul(a, b) == Mul(b, a)
  {
    MulIsExpMul(a, b);
    MulIsExpMul(b, a);
    if a != ZERO && b != ZERO {
      assert Log(a) + Log(b) == Log(b) + Log(a);
    }
  }

  /** k doublings, that is, multiplication by 2^k. */
  function XtimeN(x: Gf, k: nat): Gf {
    if k == 0 then x else Xtime(XtimeN(x, k - 1))
  }

  lemma {:induction false} XtimeNZero(k: nat)
    ensures XtimeN(ZERO, k) == ZERO
  {
    if k > 0 {
      XtimeNZero(k - 1);
    }
  }

  lemma {:induction false} XtimeNLinear(a: Gf, b: Gf, k: nat)
    ensures XtimeN(Add(a, b), k) == Add(XtimeN(a, k), XtimeN(b, k))
  {
    if k > 0 {
      XtimeNLinear(a, b, k - 1);
      XtimeLinear(XtimeN(a, k - 1), XtimeN(b, k - 1));
    }
  }

  lemma {:induction false} XtimeNAdd(x: Gf, j: nat, k: nat)
    ensures XtimeN(XtimeN(x, j), k) == XtimeN(x, j + k)
  {
    if k > 0 {
      XtimeNAdd(x, j, k - 1);
    }
  }

  lemma {:induction false} PowerAdd(i: nat, j: nat)
    ensures Power(i + j) == XtimeN(Power(j), i)
  {
    if i > 0 {
      PowerAdd(i - 1, j);
    }
  }

  /** Multiplying by a nonzero a is log(a) doublings. */
  lemma MulSteps(a: Gf, x: Gf)
    requires a != ZERO
    ensures Mul(a, x) == XtimeN(x, Log(a))
  {
    MulIsExpMul(a, x);
    var la := Log(a);
    if x == ZERO {
      XtimeNZero(la);
      assert Mul(a, x) == ZERO;
    } else {
      var lx := Log(x);
      PowerAdd(la, lx);
      assert Mul(a, x) == Power(la + lx);
    }
  }

  /** Multiplication distributes over addition. */
  lemma MulDistrib(a: Gf, b: Gf, c: Gf)
    ensures Mul(a, Add(b, c)) == Add(Mul(a, b), Mul(a, c))
  {
    if a != ZERO {
      MulSteps(a, Add(b, c));
      MulSteps(a, b);
      MulSteps(a, c);
      XtimeNLinear(b, c, Log(a));
    } else {
      MulZero(a, Add(b, c));
      MulZero(a, b);
      MulZero(a, c);
    }
  }

  lemma MulAssoc(a: Gf, b: Gf, c: Gf)
    ensures Mul(Mul(a, b), c) == Mul(a, Mul(b, c))
  {
    if a != ZERO && b != ZERO && c != ZERO {
      var la, lc := Log(a), Log(c);
      MulComm(Mul(a, b), c);
      MulSteps(c, Mul(a, b));
      MulSteps(a, b);
      XtimeNAdd(b, la, lc);
      MulComm(b, c);
      MulSteps(c, b);
      MulSteps(a, Mul(b, c));
      XtimeNAdd(b, lc, la);
    } else {
      MulZero(a, b);
      MulZero(b, c);
      MulZero(Mul(a, b), c);
      MulZero(a, Mul(b, c));
    }
  }

  lemma MulOne(a: Gf)
    ensures Mul(a, ONE) == a
  {
    MulIsExpMul(a, ONE);
    if a != ZERO {
      LogPower(0);
    }
  }

  /** Multiplying by 2 is one doubling. */
  lemma MulTwo(a: Gf)
    ensures Mul(a, Power(1)) == Xtime(a)
  {
    MulIsExpMul(a, Power(1));
    if a != ZERO {
      LogPower(1);
    }
  }

  /** Exponents add: `rsMul(exp[i], exp[j]) == exp[i + j]`. */
  lemma MulPower(i: nat, j: nat)
    ensures Mul(Power(i), Power(j)) == Power(i + j)
  {
    MulIsExpMul(Power(i), Power(j));
    ExpMulPower(i, j);
  }

  lemma ExpMulPower(i: nat, j: nat)
    ensures ExpMul(Power(i), Power(j)) == Power(i + j)
  {
    LogOfPower(i);
    LogOfPower(j);
    PowerSumMod(i, j);
  }

  /** Every power of the generator is nonzero, and its exponent is the power's exponent modulo 255. */
  lemma LogOfPower(i: nat)
    ensures Power(i) != ZERO && Log(Power(i)) == i % 255
  {
    PowerNonZero(i);
    PowerMod(i);
    LogPower(i % 255);
  }

  /** Exponents may be added after reducing each modulo 255. */
  lemma PowerSumMod(i: nat, j: nat)
    ensures Power(i % 255 + j % 255) == Power(i + j)
  {
    PowerMod(i % 255 + j % 255);
    PowerMod(i + j);
    ModSum(i, j);
  }

  lemma ModSum(i: nat, j: nat)
    ensures (i % 255 + j % 255) % 255 == (i + j) % 255
  {
  }

  /** The exponent of a nonzero element is the only one below 255. */
  lemma LogUnique(x: Gf, e: nat)
    requires x != ZERO && e < 255 && Power(e) == x
    ensures Log(x) == e
  {
    if Log(x) < e {
      PowerDistinct(Log(x), e);
    } else if Log(x) > e {
      PowerDistinct(e, Log(x));
    }
  }

  /** The log table entry of a nonzero element is its logarithm. */
  lemma LogTable(t: Tables, a: Gf)
    requires ValidTables(t) && a != ZERO
    ensures t.log[ByteOf(a)] == Log(a)
  {
    ByteOfZero(a);
    GfOfByteOf(a);
    LogUnique(a, t.log[ByteOf(a)]);
  }

  /** `__rsMul`: `(a && b) ? exp[log[a] + log[b]] : 0`, which is field multiplication. */
  function RsMul(t: Tables, a: Gf, b: Gf): (r: Gf)
    requires ValidTables(t)
    ensures r == Mul(a, b)
  {
    MulIsExpMul(a, b);
    if a != ZERO && b != ZERO then
      LogTable(t, a);
      LogTable(t, b);
      t.exp[t.log[ByteOf(a)] + t.log[ByteOf(b)]]
    else ZERO
  }
}
