/**
 * Bit sequences, and the JavaScript bitwise operators the encoder applies to
 * non-negative integers, written out on naturals.
 */
module Bits {
  /** A byte, the element type of the bit buffer and of every codeword array. */
  type Byte = x: int | 0 <= x < 256

  /** `__masks` of BitBuffer: entry n has the n low-order bits set. */
  const MASKS: seq<Byte> := [0x00, 0x01, 0x03, 0x07, 0x0f, 0x1f, 0x3f, 0x7f, 0xff]

  function Pow2(n: nat): (r: nat)
    ensures r >= 1
  {
    if n == 0 then 1 else 2 * Pow2(n - 1)
  }

  /** `v >> k` for 0 <= v < 2^31. */
  function Shr(v: nat, k: nat): nat
    decreases k, v
  {
    if k == 0 then v else Shr(v / 2, k - 1)
  }

  /** `v << k`, for results that stay below 2^31. */
  function Shl(v: nat, k: nat): nat
    decreases k
  {
    if k == 0 then v else 2 * Shl(v, k - 1)
  }

  /** `a & b` on naturals. */
  function And(a: nat, b: nat): nat
    decreases a
  {
    if a == 0 || b == 0 then 0
    else 2 * And(a / 2, b / 2) + (if a % 2 == 1 && b % 2 == 1 then 1 else 0)
  }

  /** `a | b` on naturals. */
  function Or(a: nat, b: nat): nat
    decreases a
  {
    if a == 0 then b
    else if b == 0 then a
    else 2 * Or(a / 2, b / 2) + (if a % 2 == 1 || b % 2 == 1 then 1 else 0)
  }

  /** The n low-order bits of v, most significant first. */
  function LowBits(v: nat, n: nat): (r: seq<bool>)
    ensures |r| == n
    decreases n, v
  {
    if n == 0 then [] else LowBits(v / 2, n - 1) + [v % 2 == 1]
  }

  function Zeros(n: nat): (r: seq<bool>)
    ensures |r| == n && forall k :: 0 <= k < n ==> !r[k]
  {
    seq(n, _ => false)
  }

  /**
   * What appending the numBits most significant bits of a valLen-bit field
   * holding val contributes: bits valLen-1 down to valLen-numBits of val.
   */
  function Field(val: nat, valLen: nat, numBits: nat): (r: seq<bool>)
    requires numBits <= valLen
    ensures |r| == numBits
  {
    LowBits(val, valLen)[..numBits]
  }

  /**
   * The width of a byte. Proofs refer to this constant rather than to the
   * literal so that the solver does not unfold LowBits eight times.
   */
  const BYTE_BITS: nat := 8

  /** The eight bits of a byte, most significant first. */
  function ByteBits(b: Byte): (r: seq<bool>)
    ensures |r| == 8
  {
    LowBits(b, BYTE_BITS)
  }

  /** The bits of a byte string, first byte first. */
  function BytesBits(s: seq<Byte>): (r: seq<bool>)
    ensures |r| == 8 * |s|
  {
    if s == [] then [] else BytesBits(s[..|s| - 1]) + ByteBits(s[|s| - 1])
  }

  /** Entry n of `__masks` is 2^n - 1. */
  lemma MasksAreLowOnes(n: nat)
    requires n <= 8
    ensures MASKS[n] == Pow2(n) - 1
  {
    assert Pow2(8) == 256;
  }

  /** Shifting by a + b is shifting by a, then by b. */
  lemma {:induction false} ShlAdd(v: nat, a: nat, b: nat)
    ensures Shl(Shl(v, a), b) == Shl(v, a + b)
    decreases b
  {
    if b > 0 {
      ShlAdd(v, a, b - 1);
    }
  }

  /** Writing x followed by the n bits of c gives the bits of (x << n) + c. */
  lemma {:induction false} LowBitsConcat(x: nat, m: nat, c: nat, n: nat)
    requires c < Pow2(n)
    ensures LowBits(Shl(x, n) + c, m + n) == LowBits(x, m) + LowBits(c, n)
    decreases n
  {
    if n > 0 {
      var q := Shl(x, n - 1);
      var v := Shl(x, n) + c;
      assert v == 2 * (q + c / 2) + c % 2;
      assert v / 2 == q + c / 2 && v % 2 == c % 2;
      LowBitsConcat(x, m, c / 2, n - 1);
      calc {
        LowBits(v, m + n);
        LowBits(q + c / 2, m + (n - 1)) + [c % 2 == 1];
        (LowBits(x, m) + LowBits(c / 2, n - 1)) + [c % 2 == 1];
        LowBits(x, m) + (LowBits(c / 2, n - 1) + [c % 2 == 1]);
      }
    }
  }

  /** LowBitsConcat with the total width given by name. */
  lemma LowBitsJoin(x: nat, m: nat, c: nat, n: nat, w: nat, y: nat)
    requires c < Pow2(n) && w == m + n && y == Shl(x, n) + c
    ensures LowBits(y, w) == LowBits(x, m) + LowBits(c, n)
  {
    LowBitsConcat(x, m, c, n);
  }

  lemma {:induction false} LowBitsZero(n: nat)
    ensures LowBits(0, n) == Zeros(n)
  {
    if n > 0 {
      LowBitsZero(n - 1);
    }
  }

  /** The low m+k bits are the m bits above position k followed by the low k bits. */
  lemma {:induction false} LowBitsSplit(v: nat, m: nat, k: nat)
    ensures LowBits(v, m + k) == LowBits(Shr(v, k), m) + LowBits(v, k)
    decreases k
  {
    if k > 0 {
      var w := v / 2;
      LowBitsSplit(w, m, k - 1);
      assert LowBits(v, k) == LowBits(w, k - 1) + [v % 2 == 1];
      assert LowBits(v, m + k) == LowBits(w, m + (k - 1)) + [v % 2 == 1];
    }
  }

  lemma {:induction false} ShrAdd(v: nat, a: nat, b: nat)
    ensures Shr(Shr(v, a), b) == Shr(v, a + b)
    decreases a
  {
    if a > 0 {
      ShrAdd(v / 2, a - 1, b);
    }
  }

  /** Masking with 2^n - 1 keeps exactly the n low bits. */
  lemma {:induction false} AndLowOnes(v: nat, n: nat)
    ensures And(v, Pow2(n) - 1) < Pow2(n)
    ensures LowBits(And(v, Pow2(n) - 1), n) == LowBits(v, n)
    decreases n
  {
    if n > 0 {
      var m := Pow2(n - 1) - 1;
      assert (Pow2(n) - 1) / 2 == m && (Pow2(n) - 1) % 2 == 1;
      AndLowOnes(v / 2, n - 1);
      if v == 0 {
        LowBitsZero(n);
        LowBitsZero(n - 1);
        assert LowBits(0, n) == LowBits(0, n - 1) + [false];
      } else {
        var a := And(v, Pow2(n) - 1);
        assert a == 2 * And(v / 2, m) + v % 2;
        assert a / 2 == And(v / 2, m) && a % 2 == v % 2;
      }
    } else {
      assert And(v, 0) == 0;
    }
  }

  lemma ShrZero(k: nat)
    ensures Shr(0, k) == 0
  {
  }

  lemma ShlEq(a: nat, b: nat, s: nat)
    requires a == b
    ensures Shl(a, s) == Shl(b, s)
  {
  }

  lemma LowBitsEq(a: nat, b: nat, n: nat)
    requires a == b
    ensures LowBits(a, n) == LowBits(b, n)
  {
  }

  lemma ShlZero(k: nat)
    ensures Shl(0, k) == 0
  {
  }

  lemma ShlGe(x: nat, k: nat)
    ensures Shl(x, k) >= x
  {
  }

  /** Or-ing bits into positions that are zero is addition. */
  lemma {:induction false} OrDisjoint(x: nat, c: nat, k: nat)
    requires c < Pow2(k)
    ensures Or(Shl(x, k), c) == Shl(x, k) + c
    decreases k
  {
    if k > 0 && x != 0 && c != 0 {
      var q := Shl(x, k - 1);
      ShlGe(x, k - 1);
      OrDisjoint(x, c / 2, k - 1);
      assert (2 * q) / 2 == q && (2 * q) % 2 == 0;
      assert Or(2 * q, c) == 2 * Or(q, c / 2) + c % 2;
    } else if x == 0 {
      ShlZero(k);
    }
  }

  lemma OrDouble(x: nat, y: nat)
    ensures Or(2 * x, 2 * y) == 2 * Or(x, y)
  {
    if x != 0 && y != 0 {
      assert (2 * x) / 2 == x && (2 * y) / 2 == y;
    }
  }

  /** Shifting both operands by s shifts their OR. */
  lemma {:induction false} OrShift(a: nat, b: nat, s: nat)
    ensures Or(Shl(a, s), Shl(b, s)) == Shl(Or(a, b), s)
    decreases s
  {
    if s > 0 {
      OrShift(a, b, s - 1);
      OrDouble(Shl(a, s - 1), Shl(b, s - 1));
    }
  }

  lemma BytesBitsSnoc(s: seq<Byte>, b: Byte)
    ensures BytesBits(s + [b]) == BytesBits(s) + ByteBits(b)
  {
    assert (s + [b])[..|s|] == s;
  }

  lemma {:induction false} OrBound(a: nat, b: nat, k: nat)
    requires a < Pow2(k) && b < Pow2(k)
    ensures Or(a, b) < Pow2(k)
    decreases k
  {
    if k > 0 && a != 0 && b != 0 {
      OrBound(a / 2, b / 2, k - 1);
    }
  }

  lemma {:induction false} Pow2Mono(a: nat, b: nat)
    requires a <= b
    ensures Pow2(a) <= Pow2(b)
    decreases b
  {
    if a < b {
      Pow2Mono(a, b - 1);
    }
  }

  /** A chunk of n bits shifted left by s stays below 2^(n+s). */
  lemma {:induction false} ShiftedBound(c: nat, n: nat, s: nat)
    requires c < Pow2(n)
    ensures Shl(c, s) < Pow2(n + s)
    decreases s
  {
    if s > 0 {
      ShiftedBound(c, n, s - 1);
    }
  }

  lemma {:induction false} ShrShl(y: nat, s: nat)
    ensures Shr(Shl(y, s), s) == y
    decreases s
  {
    if s > 0 {
      ShlAdd(y, s - 1, 1);
      assert Shl(y, s) / 2 == Shl(y, s - 1);
      ShrShl(y, s - 1);
      ShrAdd(Shl(y, s), 1, s - 1);
    }
  }

  lemma Assoc<T>(a: seq<T>, b: seq<T>, c: seq<T>)
    ensures (a + b) + c == a + (b + c)
  {
  }
}
