/**
 * The block structure of `__encodeSymbol`: the data codewords are split into
 * blocks, each block gets its Reed-Solomon error correction codewords, and the
 * final message interleaves the data codewords block by block, then the error
 * correction codewords block by block (sections 7.5.2 and 7.6 of
 * ISO/IEC 18004:2015).
 *
 * n is the number of data codewords, b the number of blocks and e the number
 * of error correction codewords per block. The first `ShortBlocks(n, b)`
 * blocks hold n / b data codewords, the others one more.
 */
module Blocks {
  import opened Bits
  import opened Gf256
  import opened ReedSolomon

  // Block geometry

  /** `shortBlockCnt`: the number of blocks holding n / b data codewords. */
  function ShortBlocks(n: nat, b: nat): nat
    requires b >= 1
  {
    b - n % b
  }

  /** The number of data codewords of block i. */
  function BlockLen(n: nat, b: nat, i: nat): nat
    requires b >= 1
  {
    n / b + (if i < ShortBlocks(n, b) then 0 else 1)
  }

  /** `dataOffset` at block i: the data codewords of the blocks before it. */
  function BlockStart(n: nat, b: nat, i: nat): nat
    requires b >= 1
  {
    i * (n / b) + (if i < ShortBlocks(n, b) then 0 else i - ShortBlocks(n, b))
  }

  /** The short blocks and the long blocks together hold exactly the n data codewords. */
  lemma ShortFacts(n: nat, b: nat)
    requires b >= 1
    ensures 1 <= ShortBlocks(n, b) <= b
    ensures n == (n / b) * b + (b - ShortBlocks(n, b))
  {
  }

  lemma BlockStartStep(n: nat, b: nat, i: nat)
    requires b >= 1
    ensures BlockStart(n, b, i + 1) == BlockStart(n, b, i) + BlockLen(n, b, i)
  {
    var q := n / b;
    assert (i + 1) * q == i * q + q;
  }

  /** The blocks end exactly at the last data codeword. */
  lemma BlockStartEnd(n: nat, b: nat)
    requires b >= 1
    ensures BlockStart(n, b, b) == n
  {
    ShortFacts(n, b);
  }

  /** Every block lies inside the data codewords. */
  lemma BlockInside(n: nat, b: nat, i: nat)
    requires b >= 1 && i < b
    ensures BlockStart(n, b, i) + BlockLen(n, b, i) <= n
  {
    var q := n / b;
    BlockStartStep(n, b, i);
    BlockStartEnd(n, b);
    MulMono(i + 1, b, q);
  }

  lemma MulMono(x: nat, y: nat, q: nat)
    requires x <= y
    ensures x * q <= y * q
  {
  }

  // Positions in the final message

  /** The position of data codeword j of block i: `i + j * blockCnt`, or the extra codeword's slot. */
  function DataPos(n: nat, b: nat, i: nat, j: nat): int
    requires b >= 1
  {
    if j < n / b then i + j * b else i + (n / b) * b - ShortBlocks(n, b)
  }

  /** The position of error correction codeword j of block i: `dataBytes + i + j * blockCnt`. */
  function EcPos(n: nat, b: nat, i: nat, j: nat): nat {
    n + i + j * b
  }

  /** The block a data position p belongs to. */
  function DataBlockOf(n: nat, b: nat, p: nat): nat
    requires b >= 1
  {
    if p < (n / b) * b then p % b else p - (n / b) * b + ShortBlocks(n, b)
  }

  /** The index, inside its block, of the data codeword at position p. */
  function DataOffsetOf(n: nat, b: nat, p: nat): nat
    requires b >= 1
  {
    if p < (n / b) * b then p / b else n / b
  }

  lemma DivModOf(i: nat, j: nat, b: nat)
    requires i < b
    ensures (i + j * b) % b == i && (i + j * b) / b == j
  {
    DivModUnique(i + j * b, b, j, i);
  }

  /** Division with remainder is unique. */
  lemma DivModUnique(x: int, b: int, d: int, m: int)
    requires b > 0 && 0 <= m < b && x == d * b + m
    ensures x / b == d && x % b == m
  {
    var d', m' := x / b, x % b;
    assert (d - d') * b == m' - m;
    ProductSmall(d - d', b, m' - m);
  }

  lemma ProductSmall(k: int, b: int, r: int)
    requires b > 0 && k * b == r && -b < r < b
    ensures k == 0
  {
    if k > 0 {
      MulAtLeast(k, b);
    } else if k < 0 {
      MulAtLeast(-k, b);
    }
  }

  lemma {:induction false} MulAtLeast(k: int, b: int)
    requires k >= 1 && b > 0
    ensures k * b >= b
    decreases k
  {
    if k > 1 {
      MulAtLeast(k - 1, b);
      assert k * b == (k - 1) * b + b;
    }
  }

  /** A quotient below q: x < q * b gives x / b < q. */
  lemma DivBelow(x: nat, b: nat, q: nat)
    requires b >= 1 && x < q * b
    ensures x / b < q
  {
    var d := x / b;
    assert d * b <= x;
    if d >= q {
      MulMono(q, d, b);
    }
  }

  /** Data codeword j of block i sits at a data position whose owner is (i, j). */
  lemma DataPosOwner(n: nat, b: nat, i: nat, j: nat)
    requires b >= 1 && i < b && j < BlockLen(n, b, i)
    ensures 0 <= DataPos(n, b, i, j) < n
    ensures DataBlockOf(n, b, DataPos(n, b, i, j)) == i
    ensures DataOffsetOf(n, b, DataPos(n, b, i, j)) == j
  {
    var q := n / b;
    ShortFacts(n, b);
    if j < q {
      DivModOf(i, j, b);
      MulMono(j + 1, q, b);
      assert (j + 1) * b == j * b + b;
    }
  }

  /** Every data position is the position of the codeword it is owned by: the map is a bijection. */
  lemma DataOwnerInverse(n: nat, b: nat, p: nat)
    requires b >= 1 && p < n
    ensures DataBlockOf(n, b, p) < b
    ensures DataOffsetOf(n, b, p) < BlockLen(n, b, DataBlockOf(n, b, p))
    ensures DataPos(n, b, DataBlockOf(n, b, p), DataOffsetOf(n, b, p)) == p
  {
    var q := n / b;
    ShortFacts(n, b);
    if p < q * b {
      DivBelow(p, b, q);
    }
  }

  /** Error correction codeword j of block i sits at a position owned by (i, j). */
  lemma EcPosOwner(n: nat, b: nat, e: nat, i: nat, j: nat)
    requires i < b && j < e
    ensures n <= EcPos(n, b, i, j) < n + e * b
    ensures (EcPos(n, b, i, j) - n) % b == i && (EcPos(n, b, i, j) - n) / b == j
  {
    DivModOf(i, j, b);
    MulMono(j + 1, e, b);
    assert (j + 1) * b == j * b + b;
  }

  lemma EcOwnerInverse(n: nat, b: nat, e: nat, p: nat)
    requires b >= 1 && n <= p < n + e * b
    ensures (p - n) / b < e
    ensures EcPos(n, b, (p - n) % b, (p - n) / b) == p
  {
    DivBelow(p - n, b, e);
  }

  // The message

  function Gfs(s: seq<Byte>): (r: seq<Gf>)
    ensures |r| == |s|
  {
    seq(|s|, k requires 0 <= k < |s| => GfOf(s[k]))
  }

  function Bytes(s: seq<Gf>): (r: seq<Byte>)
    ensures |r| == |s|
  {
    seq(|s|, k requires 0 <= k < |s| => ByteOf(s[k]))
  }

  /** The data codewords of block i. */
  function DataBlock(data: seq<Byte>, b: nat, i: nat): (r: seq<Byte>)
    requires b >= 1 && i < b
    ensures |r| == BlockLen(|data|, b, i)
  {
    BlockInside(|data|, b, i);
    data[BlockStart(|data|, b, i)..BlockStart(|data|, b, i) + BlockLen(|data|, b, i)]
  }

  lemma EcBytesLength(data: seq<Gf>, e: nat)
    requires e >= 1
    ensures |EcBytes(data, e)| == e
  {
    PolyModLength(data + ZeroPoly(e), Generator(e));
  }

  /** The e error correction codewords of block i. */
  ghost function EcBlock(data: seq<Byte>, b: nat, e: nat, i: nat): (r: seq<Byte>)
    requires b >= 1 && e >= 1 && i < b
    ensures |r| == e
  {
    EcBytesLength(Gfs(DataBlock(data, b, i)), e);
    Bytes(EcBytes(Gfs(DataBlock(data, b, i)), e))
  }

  /** Byte p of the final message, found from the position alone. */
  ghost function MessageByte(data: seq<Byte>, b: nat, e: nat, p: nat): Byte
    requires b >= 1 && e >= 1 && p < |data| + e * b
  {
    var n := |data|;
    if p < n then
      DataOwnerInverse(n, b, p);
      DataBlock(data, b, DataBlockOf(n, b, p))[DataOffsetOf(n, b, p)]
    else
      EcOwnerInverse(n, b, e, p);
      EcBlock(data, b, e, (p - n) % b)[(p - n) / b]
  }

  /** The final message: data codewords, then error correction codewords, both interleaved. */
  ghost function Interleaved(data: seq<Byte>, b: nat, e: nat): (r: seq<Byte>)
    requires b >= 1 && e >= 1
    ensures |r| == |data| + e * b
  {
    seq(|data| + e * b, p requires 0 <= p < |data| + e * b => MessageByte(data, b, e, p))
  }

  /** Data codeword j of block i is at `i + j * blockCnt`, or at the extra slot for the last codeword of a long block. */
  lemma InterleavedData(data: seq<Byte>, b: nat, e: nat, i: nat, j: nat)
    requires b >= 1 && e >= 1 && i < b && j < BlockLen(|data|, b, i)
    ensures 0 <= DataPos(|data|, b, i, j) < |data|
    ensures Interleaved(data, b, e)[DataPos(|data|, b, i, j)] == DataBlock(data, b, i)[j]
  {
    DataPosOwner(|data|, b, i, j);
  }

  /** Error correction codeword j of block i is at `dataBytes + i + j * blockCnt`. */
  lemma InterleavedEc(data: seq<Byte>, b: nat, e: nat, i: nat, j: nat)
    requires b >= 1 && e >= 1 && i < b && j < e
    ensures |data| <= EcPos(|data|, b, i, j) < |data| + e * b
    ensures Interleaved(data, b, e)[EcPos(|data|, b, i, j)] == EcBlock(data, b, e, i)[j]
  {
    EcPosOwner(|data|, b, e, i, j);
  }

  /** Each block followed by its error correction codewords is a Reed-Solomon codeword. */
  lemma BlockCodeword(data: seq<Byte>, b: nat, e: nat, i: nat, k: nat)
    requires b >= 1 && e >= 1 && i < b && k < e
    ensures Eval(Gfs(DataBlock(data, b, i)) + EcBytes(Gfs(DataBlock(data, b, i)), e), Power(k)) == ZERO
    ensures Gfs(EcBlock(data, b, e, i)) == EcBytes(Gfs(DataBlock(data, b, i)), e)
  {
    var g := Gfs(DataBlock(data, b, i));
    CodewordRoots(g, e, k);
    var ec := EcBytes(g, e);
    forall m | 0 <= m < e
      ensures Gfs(Bytes(ec))[m] == ec[m]
    {
      GfOfByteOf(ec[m]);
    }
  }

  // The assembly loop

  /** Position p of the message is written once blocks before i, and the first jd data and je error correction codewords of block i, are. */
  ghost predicate Done(n: nat, b: nat, p: nat, i: nat, jd: nat, je: nat)
    requires b >= 1
  {
    if p < n then DataBlockOf(n, b, p) < i || (DataBlockOf(n, b, p) == i && DataOffsetOf(n, b, p) < jd)
    else (p - n) % b < i || ((p - n) % b == i && (p - n) / b < je)
  }

  /** The invariant of the block loop: every position already written holds its final byte. */
  ghost predicate Filled(final: seq<Byte>, data: seq<Byte>, b: nat, e: nat, i: nat, jd: nat, je: nat)
    requires b >= 1 && e >= 1 && |final| == |data| + e * b
  {
    forall p :: 0 <= p < |final| && Done(|data|, b, p, i, jd, je) ==> final[p] == MessageByte(data, b, e, p)
  }

  /**
   * The block loop of `__encodeSymbol`: for each block, its error correction
   * codewords from `__rsPolyMod`, then its data and error correction
   * codewords at their interleaved positions in `finalMessage`.
   */
  method AssembleMessage(t: Tables, data: seq<Byte>, b: nat, e: nat) returns (msg: seq<Byte>)
    requires ValidTables(t) && b >= 1 && 1 <= e <= 512
    ensures msg == Interleaved(data, b, e)
  {
    var n := |data|;
    var final := new Byte[n + e * b](_ => 0);
    var gen := CalculateGenerator(t, e);
    var offset := 0;
    NothingFilled(final[..], data, b, e);
    for i := 0 to b
      invariant offset == BlockStart(n, b, i)
      invariant Filled(final[..], data, b, e, i, 0, 0)
    {
      offset := EncodeBlock(t, gen, final, data, b, e, i, offset);
    }
    msg := final[..];
    AllFilled(msg, data, b, e);
  }

  /** One pass of the block loop: block i's error correction codewords, then its codewords written out. */
  method EncodeBlock(t: Tables, gen: seq<Gf>, final: array<Byte>, data: seq<Byte>, b: nat, e: nat, i: nat, offset: nat)
    returns (next: nat)
    requires ValidTables(t) && b >= 1 && 1 <= e && i < b && final.Length == |data| + e * b
    requires gen == Generator(e) && offset == BlockStart(|data|, b, i)
    requires Filled(final[..], data, b, e, i, 0, 0)
    modifies final
    ensures next == BlockStart(|data|, b, i + 1)
    ensures Filled(final[..], data, b, e, i + 1, 0, 0)
  {
    var ec := BlockEc(t, gen, data, b, e, i, offset);
    PlaceData(final, data, b, e, i, offset);
    PlaceEc(final, data, b, e, i, ec);
    BlockStartStep(|data|, b, i);
    next := offset + BlockLen(|data|, b, i);
  }

  /** The error correction codewords of block i, cut out of the data at its start. */
  method BlockEc(t: Tables, gen: seq<Gf>, data: seq<Byte>, b: nat, e: nat, i: nat, offset: nat)
    returns (ec: seq<Gf>)
    requires ValidTables(t) && b >= 1 && 1 <= e && i < b
    requires gen == Generator(e) && offset == BlockStart(|data|, b, i)
    ensures ec == EcBytes(Gfs(DataBlock(data, b, i)), e)
  {
    BlockInside(|data|, b, i);
    var block := data[offset..offset + BlockLen(|data|, b, i)];
    assert block == DataBlock(data, b, i);
    ec := PolyMod(t, Gfs(block) + ZeroPoly(e), gen);
  }

  /** Before the first block nothing is written. */
  lemma NothingFilled(final: seq<Byte>, data: seq<Byte>, b: nat, e: nat)
    requires b >= 1 && e >= 1 && |final| == |data| + e * b
    ensures Filled(final, data, b, e, 0, 0, 0)
  {
  }

  /** Once every block is written, the array holds the interleaved message. */
  lemma AllFilled(final: seq<Byte>, data: seq<Byte>, b: nat, e: nat)
    requires b >= 1 && e >= 1 && |final| == |data| + e * b
    requires Filled(final, data, b, e, b, 0, 0)
    ensures final == Interleaved(data, b, e)
  {
    var n := |data|;
    forall p | 0 <= p < |final|
      ensures final[p] == Interleaved(data, b, e)[p]
    {
      if p < n {
        DataOwnerInverse(n, b, p);
      }
      assert Done(n, b, p, b, 0, 0);
    }
  }

  /** The data part of one block: `finalMessage[i + j * blockCnt]`, then the extra codeword of a long block. */
  method PlaceData(final: array<Byte>, data: seq<Byte>, b: nat, e: nat, i: nat, offset: nat)
    requires b >= 1 && e >= 1 && i < b && final.Length == |data| + e * b
    requires offset == BlockStart(|data|, b, i)
    requires Filled(final[..], data, b, e, i, 0, 0)
    modifies final
    ensures Filled(final[..], data, b, e, i, BlockLen(|data|, b, i), 0)
  {
    var n := |data|;
    var q := n / b;
    var short := b - n % b;
    BlockInside(n, b, i);
    for j := 0 to q
      invariant Filled(final[..], data, b, e, i, j, 0)
    {
      DataPosOwner(n, b, i, j);
      ghost var before := final[..];
      final[i + j * b] := data[offset + j];
      DataStep(before, final[..], data, b, e, i, j, data[offset + j]);
    }
    if i >= short {
      DataPosOwner(n, b, i, q);
      ghost var before := final[..];
      final[i + q * b - short] := data[offset + q];
      DataStep(before, final[..], data, b, e, i, q, data[offset + q]);
    }
  }

  /** Writing data codeword j of block i extends the written positions by that one. */
  lemma DataStep(before: seq<Byte>, after: seq<Byte>, data: seq<Byte>, b: nat, e: nat, i: nat, j: nat, v: Byte)
    requires b >= 1 && e >= 1 && i < b && j < BlockLen(|data|, b, i) && |before| == |data| + e * b
    requires 0 <= DataPos(|data|, b, i, j) < |before|
    requires Filled(before, data, b, e, i, j, 0)
    requires v == DataBlock(data, b, i)[j]
    requires after == before[DataPos(|data|, b, i, j) := v]
    ensures Filled(after, data, b, e, i, j + 1, 0)
  {
    var n := |data|;
    DataPosOwner(n, b, i, j);
    forall p | 0 <= p < |after| && Done(n, b, p, i, j + 1, 0)
      ensures after[p] == MessageByte(data, b, e, p)
    {
      if p != DataPos(n, b, i, j) && p < n {
        DataOwnerInverse(n, b, p);
      }
    }
  }

  /** The error correction part of one block: `finalMessage[dataBytes + i + j * blockCnt]`. */
  method PlaceEc(final: array<Byte>, data: seq<Byte>, b: nat, e: nat, i: nat, ec: seq<Gf>)
    requires b >= 1 && e >= 1 && i < b && final.Length == |data| + e * b
    requires ec == EcBytes(Gfs(DataBlock(data, b, i)), e)
    requires Filled(final[..], data, b, e, i, BlockLen(|data|, b, i), 0)
    modifies final
    ensures Filled(final[..], data, b, e, i + 1, 0, 0)
  {
    var n := |data|;
    EcBytesLength(Gfs(DataBlock(data, b, i)), e);
    for j := 0 to e
      invariant Filled(final[..], data, b, e, i, BlockLen(n, b, i), j)
    {
      EcPosOwner(n, b, e, i, j);
      ghost var before := final[..];
      final[n + i + j * b] := ByteOf(ec[j]);
      EcStep(before, final[..], data, b, e, i, j);
    }
    BlockEnd(final[..], data, b, e, i);
  }

  /** Writing error correction codeword j of block i extends the written positions by that one. */
  lemma EcStep(before: seq<Byte>, after: seq<Byte>, data: seq<Byte>, b: nat, e: nat, i: nat, j: nat)
    requires b >= 1 && e >= 1 && i < b && j < e && |before| == |data| + e * b
    requires EcPos(|data|, b, i, j) < |before|
    requires Filled(before, data, b, e, i, BlockLen(|data|, b, i), j)
    requires after == before[EcPos(|data|, b, i, j) := EcBlock(data, b, e, i)[j]]
    ensures Filled(after, data, b, e, i, BlockLen(|data|, b, i), j + 1)
  {
    var n := |data|;
    EcPosOwner(n, b, e, i, j);
    forall p | 0 <= p < |after| && Done(n, b, p, i, BlockLen(n, b, i), j + 1)
      ensures after[p] == MessageByte(data, b, e, p)
    {
      if p != EcPos(n, b, i, j) && p >= n {
        EcOwnerInverse(n, b, e, p);
      }
    }
  }

  lemma BlockEnd(final: seq<Byte>, data: seq<Byte>, b: nat, e: nat, i: nat)
    requires b >= 1 && e >= 1 && i < b && |final| == |data| + e * b
    requires Filled(final, data, b, e, i, BlockLen(|data|, b, i), e)
    ensures Filled(final, data, b, e, i + 1, 0, 0)
  {
    var n := |data|;
    forall p | 0 <= p < |final| && Done(n, b, p, i + 1, 0, 0)
      ensures final[p] == MessageByte(data, b, e, p)
    {
      if p < n {
        DataDoneAtEnd(n, b, e, p, i);
      } else {
        EcDoneAtEnd(n, b, e, p, i);
      }
    }
  }

  /** A data byte placed by the first i + 1 blocks was placed by the first i or by the whole of block i. */
  lemma DataDoneAtEnd(n: nat, b: nat, e: nat, p: nat, i: nat)
    requires b >= 1 && p < n && Done(n, b, p, i + 1, 0, 0)
    ensures Done(n, b, p, i, BlockLen(n, b, i), e)
  {
    DataOwnerInverse(n, b, p);
  }

  /** An error-correction byte placed by the first i + 1 blocks was placed by the first i or by the whole of block i. */
  lemma EcDoneAtEnd(n: nat, b: nat, e: nat, p: nat, i: nat)
    requires b >= 1 && n <= p < n + e * b && Done(n, b, p, i + 1, 0, 0)
    ensures Done(n, b, p, i, BlockLen(n, b, i), e)
  {
    EcOwnerInverse(n, b, e, p);
    NextBlockDone((p - n) % b, (p - n) / b, i, e);
  }

  /** Done for a position in block r at offset q < e, moving from i + 1 finished blocks to i blocks and all e offsets of block i. */
  lemma NextBlockDone(r: int, q: int, i: int, e: int)
    requires r < i + 1 || (r == i + 1 && q < 0)
    requires 0 <= q < e
    ensures r < i || (r == i && q < e)
  {
  }
}
