/** The bit buffer that packs fields of any width, most significant bit first, into bytes. */
module BitBuffers {
  import opened Bits
  import opened Wrappers

  /** The k lowest bits of b are zero. */
  ghost predicate Free(b: nat, k: nat) {
    Shl(Shr(b, k), k) == b
  }

  /** The low `bitsLeft` bits of the last byte are still free, hence zero. */
  ghost predicate Packed(data: seq<Byte>, bitsLeft: int) {
    && 0 <= bitsLeft <= 7
    && (data == [] ==> bitsLeft == 0)
    && (data != [] ==> Free(data[|data| - 1], bitsLeft))
  }

  /** The bits stored in a byte array whose last byte has bitsLeft free low bits. */
  ghost function Stored(data: seq<Byte>, bitsLeft: nat): seq<bool>
    requires bitsLeft <= 8
  {
    if data == [] then []
    else BytesBits(data[..|data| - 1]) + LowBits(Shr(data[|data| - 1], bitsLeft), 8 - bitsLeft)
  }

  /** A byte whose bitsLeft low bits are free holds its upper part, then zeros. */
  lemma ByteFree(b: Byte, bitsLeft: nat)
    requires bitsLeft <= 8 && Free(b, bitsLeft)
    ensures ByteBits(b) == LowBits(Shr(b, bitsLeft), 8 - bitsLeft) + Zeros(bitsLeft)
  {
    var v := Shr(b, bitsLeft);
    LowBitsConcat(v, 8 - bitsLeft, 0, bitsLeft);
    LowBitsZero(bitsLeft);
    assert Shl(v, bitsLeft) + 0 == b;
    assert ByteBits(b) == LowBits(b, BYTE_BITS);
  }

  /** The stored bits are the array's bits with the free ones cut off. */
  lemma StoredIsPrefix(data: seq<Byte>, bitsLeft: int)
    requires Packed(data, bitsLeft)
    ensures |Stored(data, bitsLeft)| == 8 * |data| - bitsLeft
    ensures Stored(data, bitsLeft) == BytesBits(data)[..8 * |data| - bitsLeft]
    ensures forall k :: 8 * |data| - bitsLeft <= k < 8 * |data| ==> !BytesBits(data)[k]
  {
    if data != [] {
      var b := data[|data| - 1];
      var pre := data[..|data| - 1];
      var h := LowBits(Shr(b, bitsLeft), 8 - bitsLeft);
      ByteFree(b, bitsLeft);
      assert data == pre + [b];
      BytesBitsSnoc(pre, b);
      Assoc(BytesBits(pre), h, Zeros(bitsLeft));
      PrefixAndRest(BytesBits(pre) + h, Zeros(bitsLeft));
    }
  }

  lemma PrefixAndRest(a: seq<bool>, z: seq<bool>)
    ensures (a + z)[..|a|] == a
    ensures forall k :: |a| <= k < |a| + |z| ==> (a + z)[k] == z[k - |a|]
  {
  }

  /** The first chunk the loop of `append` takes from a field, and what remains of the field. */
  lemma FieldHead(val: nat, valLen: nat, numBits: nat, n: nat, c: nat, valLen': nat, numBits': nat)
    requires 1 <= n <= numBits <= valLen && n <= 8
    requires c == And(Shr(val, valLen - n), MASKS[n])
    requires valLen' == valLen - n && numBits' == numBits - n
    ensures c < Pow2(n)
    ensures Field(val, valLen, numBits) == LowBits(c, n) + Field(val, valLen', numBits')
  {
    ChunkBits(val, valLen', n, c);
    FieldSplit(val, valLen, numBits, n, valLen', numBits');
  }

  /** The chunk masked out of the field holds exactly the n bits above the remaining valLen' bits. */
  lemma ChunkBits(val: nat, valLen': nat, n: nat, c: nat)
    requires n <= 8 && c == And(Shr(val, valLen'), MASKS[n])
    ensures c < Pow2(n) && LowBits(c, n) == LowBits(Shr(val, valLen'), n)
  {
    MasksAreLowOnes(n);
    AndLowOnes(Shr(val, valLen'), n);
  }

  /** A field is its first n bits followed by the field that remains below them. */
  lemma FieldSplit(val: nat, valLen: nat, numBits: nat, n: nat, valLen': nat, numBits': nat)
    requires n <= numBits <= valLen && valLen' == valLen - n && numBits' == numBits - n
    ensures Field(val, valLen, numBits) == LowBits(Shr(val, valLen'), n) + Field(val, valLen', numBits')
  {
    LowBitsSplit(val, n, valLen');
    PrefixOfConcat(LowBits(Shr(val, valLen'), n), LowBits(val, valLen'), numBits');
  }

  lemma PrefixOfConcat<T>(a: seq<T>, b: seq<T>, m: nat)
    requires m <= |b|
    ensures (a + b)[..|a| + m] == a + b[..m]
  {
  }

  /** Or-ing a chunk of n bits shifted into the bitsLeft low bits keeps a byte a byte. */
  lemma ByteOrBound(b: Byte, bitsLeft: nat, n: nat, c: nat, s: nat)
    requires 1 <= n <= bitsLeft <= 8 && s == bitsLeft - n
    requires c < Pow2(n)
    ensures Or(b, Shl(c, s)) < 256
  {
    ShiftedBound(c, n, s);
    Pow2Mono(bitsLeft, 8);
    assert Pow2(8) == 256;
    OrBound(b, Shl(c, s), 8);
  }

  /** Or-ing a chunk of n bits into the bitsLeft free low bits of a byte is adding it there. */
  lemma ByteOrShape(b: Byte, bitsLeft: nat, n: nat, c: nat, s: nat, y: nat)
    requires 1 <= n <= bitsLeft <= 8 && s == bitsLeft - n
    requires Free(b, bitsLeft)
    requires c < Pow2(n)
    requires y == Shl(Shr(b, bitsLeft), n) + c
    ensures Or(b, Shl(c, s)) == Shl(y, s)
  {
    var v := Shr(b, bitsLeft);
    var x := Shl(v, n);
    ShlAdd(v, n, s);
    assert b == Shl(x, s);
    OrShift(x, c, s);
    OrDisjoint(v, c, n);
    ShlEq(Or(x, c), y, s);
  }

  /** The value of a byte after Or-ing a chunk of n bits into its bitsLeft free low bits. */
  lemma ByteOr(b: Byte, bitsLeft: nat, n: nat, c: nat, s: nat, y: nat)
    requires 1 <= n <= bitsLeft <= 8 && s == bitsLeft - n
    requires Free(b, bitsLeft)
    requires c < Pow2(n)
    requires y == Shl(Shr(b, bitsLeft), n) + c
    ensures Or(b, Shl(c, s)) < 256
    ensures Shr(Or(b, Shl(c, s)), s) == y
    ensures Free(Or(b, Shl(c, s)), s)
  {
    ByteOrBound(b, bitsLeft, n, c, s);
    ByteOrShape(b, bitsLeft, n, c, s, y);
    ShrShl(y, s);
  }

  /** Replacing the last byte keeps the bytes before it. */
  lemma StoredSetLast(data: seq<Byte>, idx: int, b: Byte, bitsLeft: nat)
    requires data != [] && idx == |data| - 1 && bitsLeft <= 8
    ensures Stored(data[idx := b], bitsLeft) == BytesBits(data[..idx]) + LowBits(Shr(b, bitsLeft), 8 - bitsLeft)
    ensures Stored(data, bitsLeft) == BytesBits(data[..idx]) + LowBits(Shr(data[idx], bitsLeft), 8 - bitsLeft)
  {
    assert data[idx := b][..idx] == data[..idx];
  }

  /** The stored part of a byte after Or-ing in a chunk: its old stored part, then the chunk. */
  lemma ByteOrBits(b: Byte, bitsLeft: nat, n: nat, c: nat, s: nat)
    requires 1 <= n <= bitsLeft <= 8 && s == bitsLeft - n
    requires Free(b, bitsLeft)
    requires c < Pow2(n)
    ensures Or(b, Shl(c, s)) < 256
    ensures LowBits(Shr(Or(b, Shl(c, s)), s), 8 - s) == LowBits(Shr(b, bitsLeft), 8 - bitsLeft) + LowBits(c, n)
  {
    var o, x := Or(b, Shl(c, s)), Shr(b, bitsLeft);
    var y := Shl(x, n) + c;
    ByteOr(b, bitsLeft, n, c, s, y);
    ShiftedJoin(o, s, y, x, 8 - bitsLeft, c, n);
  }

  /** The bits of o above position s, when they are x shifted by n with the chunk c below. */
  lemma ShiftedJoin(o: nat, s: nat, y: nat, x: nat, m: nat, c: nat, n: nat)
    requires Shr(o, s) == y && y == Shl(x, n) + c && c < Pow2(n) && s <= 8 && 8 - s == m + n
    ensures LowBits(Shr(o, s), 8 - s) == LowBits(x, m) + LowBits(c, n)
  {
    LowBitsJoin(x, m, c, n, 8 - s, y);
  }

  /** Or-ing a chunk into the free bits of the last byte appends the chunk to the stored bits. */
  lemma OrChunk(data: seq<Byte>, idx: int, bitsLeft: nat, n: nat, c: nat, data': seq<Byte>, bitsLeft': nat)
    requires data != [] && idx == |data| - 1 && 1 <= n <= bitsLeft <= 8
    requires Free(data[idx], bitsLeft)
    requires c < Pow2(n)
    requires bitsLeft' == bitsLeft - n
    requires Or(data[idx], Shl(c, bitsLeft')) < 256
    requires data' == data[idx := Or(data[idx], Shl(c, bitsLeft'))]
    ensures data' != [] && Free(data'[|data'| - 1], bitsLeft')
    ensures Stored(data', bitsLeft') == Stored(data, bitsLeft) + LowBits(c, n)
  {
    var b := data[idx];
    ByteOr(b, bitsLeft, n, c, bitsLeft', Shl(Shr(b, bitsLeft), n) + c);
    ByteOrBits(b, bitsLeft, n, c, bitsLeft');
    var b' := Or(b, Shl(c, bitsLeft'));
    var h := LowBits(Shr(b, bitsLeft), 8 - bitsLeft);
    var m := LowBits(c, n);
    var pre := BytesBits(data[..idx]);
    StoredSetLast(data, idx, b', bitsLeft');
    Assoc(pre, h, m);
  }

  /** Pushing a zero byte when no bit is free leaves the stored bits as they are. */
  lemma PushZero(data: seq<Byte>)
    ensures Free(0, 8)
    ensures Stored(data + [0], 8) == Stored(data, 0)
  {
    ShrZero(8);
    ShlZero(8);
    if data != [] {
      var pre := data[..|data| - 1];
      assert data == pre + [data[|data| - 1]];
      BytesBitsSnoc(pre, data[|data| - 1]);
    }
    assert (data + [0])[..|data|] == data;
  }

  /** The numBits most significant bits of a vl-bit field holding val; nothing when numBits <= 0. */
  function Pending(val: nat, vl: int, numBits: int): (r: seq<bool>)
    requires numBits > 0 ==> numBits <= vl <= 32
    ensures |r| == if numBits > 0 then numBits else 0
  {
    if numBits <= 0 then [] else Field(val, vl, numBits)
  }

  /** The loop invariant of `append`: what is stored plus what remains of the field is the target. */
  ghost predicate AppendInv(d: seq<Byte>, left: int, val: nat, vl: int, nb: int, target: seq<bool>) {
    && Packed(d, left)
    && (nb > 0 ==> nb <= vl <= 32)
    && Stored(d, left) + Pending(val, vl, nb) == target
  }

  /** A state of the loop in `append` with at least one free bit in the last byte. */
  ghost predicate AppendReady(d: seq<Byte>, left: int, val: nat, vl: int, nb: int, target: seq<bool>) {
    && d != [] && 1 <= left <= 8 && Free(d[|d| - 1], left)
    && 1 <= nb <= vl <= 32
    && Stored(d, left) + Field(val, vl, nb) == target
  }

  /** When no bit is free, `append` pushes a zero byte. */
  lemma AppendPush(d: seq<Byte>, left: int, val: nat, vl: int, nb: int, target: seq<bool>)
    requires AppendInv(d, left, val, vl, nb, target) && nb > 0
    ensures left == 0 ==> AppendReady(d + [0], 8, val, vl, nb, target)
    ensures left != 0 ==> AppendReady(d, left, val, vl, nb, target)
  {
    assert Pending(val, vl, nb) == Field(val, vl, nb);
    if left == 0 {
      PushZero(d);
      assert (d + [0])[|d|] == 0;
    }
  }

  /** The byte one turn of `append` stores is a byte. */
  lemma AppendTurnByte(b: Byte, left: int, val: nat, vl: int, n: int, c: nat, s: int)
    requires 1 <= n <= left <= 8 && n <= vl && Free(b, left)
    requires c == And(Shr(val, vl - n), MASKS[n]) && s == left - n
    ensures s >= 0 && Or(b, Shl(c, s)) < 256
  {
    ChunkBits(val, vl - n, n, c);
    ByteOrBound(b, left, n, c, s);
  }

  /**
   * One turn of the loop in `append`: Or-ing into the last byte the chunk of
   * n bits at the head of the field keeps the invariant.
   */
  lemma AppendTurn(d: seq<Byte>, idx: int, left: int, val: nat, vl: int, nb: int, n: int, c: nat, target: seq<bool>,
                   d': seq<Byte>, left': int, vl': int, nb': int)
    requires AppendReady(d, left, val, vl, nb, target) && idx == |d| - 1
    requires n == (if nb < left then nb else left) && c == And(Shr(val, vl - n), MASKS[n])
    requires left' == left - n && vl' == vl - n && nb' == nb - n
    requires Or(d[idx], Shl(c, left')) < 256 && d' == d[idx := Or(d[idx], Shl(c, left'))]
    ensures AppendInv(d', left', val, vl', nb', target)
  {
    FieldHead(val, vl, nb, n, c, vl', nb');
    OrChunk(d, idx, left, n, c, d', left');
    PendingField(val, vl', nb');
    MovedChunk(Stored(d, left), Field(val, vl, nb), Stored(d', left'), LowBits(c, n), Field(val, vl', nb'), target);
  }

  /**
   * The rest of one turn of the loop in `append`, once a bit is free: the
   * n = min(numBits, bitsLeft) bits at the head of the field are Or-ed into
   * the free low bits of the last byte, and the counters drop by n.
   */
  method OrChunkIn(d: seq<Byte>, idx: int, left: int, val: nat, vl: int, nb: int, ghost target: seq<bool>)
      returns (d': seq<Byte>, left': int, vl': int, nb': int)
    requires AppendReady(d, left, val, vl, nb, target) && idx == |d| - 1
    ensures AppendInv(d', left', val, vl', nb', target) && |d'| == |d| && 0 <= nb' < nb
  {
    var n := if nb < left then nb else left;
    var chunk, shift := And(Shr(val, vl - n), MASKS[n]), left - n;
    AppendTurnByte(d[idx], left, val, vl, n, chunk, shift);
    d' := d[idx := Or(d[idx], Shl(chunk, shift))];
    left' := shift;
    nb' := nb - n;
    vl' := vl - n;
    AppendTurn(d, idx, left, val, vl, nb, n, chunk, target, d', left', vl', nb');
  }

  /** What remains of a field, also when nothing does. */
  lemma PendingField(val: nat, vl: int, nb: int)
    requires 0 <= nb <= vl <= 32
    ensures Pending(val, vl, nb) == Field(val, vl, nb)
  {
  }

  /** Moving a chunk from the head of what remains to the end of what is stored keeps their concatenation. */
  lemma MovedChunk(stored: seq<bool>, field: seq<bool>, stored': seq<bool>, chunk: seq<bool>, rest: seq<bool>, target: seq<bool>)
    requires stored + field == target && field == chunk + rest && stored' == stored + chunk
    ensures stored' + rest == target
  {
    Assoc(stored, chunk, rest);
  }

  /** When the loop of `append` ends, the whole field is stored. */
  lemma AppendDone(d: seq<Byte>, left: int, val: nat, vl: int, nb: int, target: seq<bool>)
    requires AppendInv(d, left, val, vl, nb, target) && nb <= 0
    ensures Packed(d, left) && Stored(d, left) == target
  {
    assert Stored(d, left) + Pending(val, vl, nb) == Stored(d, left) + [];
    assert Stored(d, left) + [] == Stored(d, left);
  }

  /** What `append` demands: a positive width is at most the field length, which is at most 32. */
  predicate AppendAllowed(numBits: int, valLen: Option<int>) {
    numBits > 0 ==> numBits <= (if valLen.None? then numBits else valLen.value) <= 32
  }

  /** The bits `append(val, numBits, valLen)` adds. */
  function AppendedBits(val: nat, numBits: int, valLen: Option<int>): (r: seq<bool>)
    requires AppendAllowed(numBits, valLen)
  {
    Pending(val, if valLen.None? then numBits else valLen.value, numBits)
  }

  /** Appending a whole field of w bits appends its w low-order bits. */
  lemma AppendedWord(val: nat, w: int)
    requires 0 < w <= 32
    ensures AppendedBits(val, w, None) == LowBits(val, w)
  {
    assert LowBits(val, w)[..w] == LowBits(val, w);
  }

  /** Taking the top n bits of an L-bit field is appending `val >> (L - n)` as an n-bit field. */
  lemma AppendShifted(val: nat, n: int, L: int)
    requires 0 < n <= L <= 32
    ensures AppendedBits(val, n, Some(L)) == AppendedBits(Shr(val, L - n), n, None)
  {
    LowBitsSplit(val, n, L - n);
    AppendedWord(Shr(val, L - n), n);
    assert LowBits(val, L)[..n] == LowBits(Shr(val, L - n), n);
  }

  /**
   * Two consecutive appends from one field, the second continuing below the
   * bits the first took, equal one append of both widths.
   */
  lemma AppendsJoin(val: nat, n1: int, n2: int, L: int)
    requires 0 < n1 && 0 < n2 && n1 + n2 <= L <= 32
    ensures AppendedBits(val, n1, Some(L)) + AppendedBits(val, n2, Some(L - n1))
         == AppendedBits(val, n1 + n2, Some(L))
  {
    var hi := LowBits(Shr(val, L - n1), n1);
    var lo := LowBits(val, L - n1);
    LowBitsSplit(val, n1, L - n1);
    assert LowBits(val, L) == hi + lo;
    assert (hi + lo)[..n1] == hi;
    assert (hi + lo)[..n1 + n2] == hi + lo[..n2];
  }

  /** `qrcode.BitBuffer`: the bytes `__data` and the free low-order bits `__bitsLeft` of the last one. */
  class BitBuffer {
    var data: seq<Byte>
    var bitsLeft: int

    ghost predicate Valid()
      reads this
    {
      Packed(data, bitsLeft)
    }

    /** The bits appended so far, in order. */
    ghost function Bits(): seq<bool>
      reads this
      requires Valid()
    {
      Stored(data, bitsLeft)
    }

    constructor ()
      ensures Valid() && data == [] && bitsLeft == 0
      ensures Bits() == []
    {
      data := [];
      bitsLeft := 0;
    }

    /**
     * Appends the numBits most significant bits of a valLen-bit field holding
     * val; valLen defaults to numBits. A non-positive numBits appends nothing.
     */
    method Append(val: nat, numBits: int, valLen: Option<int>)
      requires Valid()
      requires AppendAllowed(numBits, valLen)
      modifies this
      ensures Valid()
      ensures Bits() == old(Bits()) + AppendedBits(val, numBits, valLen)
    {
      var vl := if valLen.None? then numBits else valLen.value;
      ghost var target := Stored(data, bitsLeft) + Pending(val, vl, numBits);
      // The loop works on local copies of `__data` and `__bitsLeft`.
      var d: seq<Byte>, left: int := data, bitsLeft;
      var nb := numBits;
      var idx := |d| - 1;
      while nb > 0
        invariant AppendInv(d, left, val, vl, nb, target)
        invariant idx == |d| - 1
        decreases nb
      {
        AppendPush(d, left, val, vl, nb, target);
        if left == 0 {
          d := d + [0];
          left := 8;
          idx := idx + 1;
        }
        d, left, vl, nb := OrChunkIn(d, idx, left, val, vl, nb, target);
      }
      AppendDone(d, left, val, vl, nb, target);
      data, bitsLeft := d, left;
    }

    /** getLength: the number of bits stored. */
    function GetLength(): (n: int)
      reads this
      requires Valid()
      ensures n == |Bits()|
    {
      StoredIsPrefix(data, bitsLeft);
      8 * |data| - bitsLeft
    }

    /** getDataArray: the stored bits, zero-padded to whole bytes. */
    function GetDataArray(): (r: seq<Byte>)
      reads this
      requires Valid()
      ensures |r| == (|Bits()| + 7) / 8
      ensures BytesBits(r)[..|Bits()|] == Bits()
      ensures forall k :: |Bits()| <= k < 8 * |r| ==> !BytesBits(r)[k]
    {
      StoredIsPrefix(data, bitsLeft);
      data
    }
  }
}
