/** From CAR bytes to tree leaves, and from leaves to a piece commitment. */
module PaddedBlocks {
  import opened Bytes
  import opened Fr32

  const CAR_2MIB_NODE_NUM := 65536
  const CAR_512B_NODE_NUM := 16
  const CAR_2MIB_CHUNK_SIZE := 2080768
  const CAR_512B_CHUNK_SIZE := 508
  const CAR_2MIB_CACHE_LAYER_START := 16
  const CAR_512B_CACHE_LAYER_START := 4

  /** Chunk size in bytes and in nodes for a CAR of the given size. */
  function CarChunkParams(carSize: nat): (nat, nat) {
    if carSize < CAR_2MIB_CHUNK_SIZE then (CAR_512B_CHUNK_SIZE, CAR_512B_NODE_NUM)
    else (CAR_2MIB_CHUNK_SIZE, CAR_2MIB_NODE_NUM)
  }

  function CarCacheLayerStart(carSize: nat): nat {
    if carSize < CAR_2MIB_CHUNK_SIZE then CAR_512B_CACHE_LAYER_START else CAR_2MIB_CACHE_LAYER_START
  }

  /** The selectors fit each other: a chunk is whole slabs, and a full one is a subtree at the cache's level. */
  lemma LayersMeet(carSize: nat)
    ensures var (size, nodes) := CarChunkParams(carSize);
      && nodes == Pow2(CarCacheLayerStart(carSize))
      && nodes % CHUNK_NODES_NUM == 0
      && size == nodes / CHUNK_NODES_NUM * SOURCE_CHUNK_SIZE
    ensures CarCacheLayerStart(carSize) == if carSize < 65536 / 4 * 127 then 4 else 16
  {
    SmallPowers();
    Pow2Add(8, 8);
  }

  // ----- blocks

  function SlabCount(n: nat): nat {
    (n + SOURCE_CHUNK_SIZE - 1) / SOURCE_CHUNK_SIZE
  }

  /** Slab j of the data: 127 bytes, fewer at the end. */
  function Slab(data: Bytes, j: nat): Bytes
    requires j < SlabCount(|data|)
  {
    data[SOURCE_CHUNK_SIZE * j..Min(SOURCE_CHUNK_SIZE * (j + 1), |data|)]
  }

  function BlockCount(n: nat): nat {
    CHUNK_NODES_NUM * SlabCount(n)
  }

  /** Block i of the data: digit i mod 4 of the number its slab spells. */
  function BlockAt(data: Bytes, i: nat): Digest
    requires i < BlockCount(|data|)
  {
    NodeOf(LE(Slab(data, i / CHUNK_NODES_NUM)), i % CHUNK_NODES_NUM)
  }

  function Blocks(data: Bytes): (b: seq<Digest>)
    ensures |b| == BlockCount(|data|)
  {
    seq(BlockCount(|data|), i requires 0 <= i < BlockCount(|data|) => BlockAt(data, i))
  }

  /** Zeros filled in at the end do not change the number a slab spells. */
  lemma ZeroFilledSlab(s: Bytes, n: nat)
    ensures LE(s + Zeros(n)) == LE(s)
  {
    LEAppend(s, Zeros(n));
    LEZeros(Zeros(n));
  }

  /** A source chunk of the zero-filled buffer spells the same number as the slab of the data. */
  lemma FilledChunk(data: Bytes, filled: Bytes, j: nat)
    requires data <= filled && |filled| == SOURCE_CHUNK_SIZE * SlabCount(|data|)
    requires forall i :: |data| <= i < |filled| ==> filled[i] == 0
    requires j < SlabCount(|data|)
    ensures LE(ChunkAt(filled, j)) == LE(Slab(data, j))
  {
    var s := Slab(data, j);
    assert ChunkAt(filled, j) == s + Zeros(SOURCE_CHUNK_SIZE - |s|);
    ZeroFilledSlab(s, SOURCE_CHUNK_SIZE - |s|);
  }

  /** One turn of the outer loop: the four nodes of a source chunk become the next four blocks. */
  method FillBlocks(chunk: SourceChunk, blocks: array<Digest>, idx: nat, ghost data: Bytes, ghost j: nat)
    returns (next: nat)
    requires j < SlabCount(|data|) && LE(chunk) == LE(Slab(data, j))
    requires blocks.Length == BlockCount(|data|) && idx == CHUNK_NODES_NUM * j
    modifies blocks
    ensures next == idx + CHUNK_NODES_NUM
    ensures forall i :: 0 <= i < idx ==> blocks[i] == old(blocks[i])
    ensures forall i :: idx <= i < next ==> blocks[i] == Blocks(data)[i]
  {
    var nodes := DataPadding(chunk);
    ghost var slab := nodes[..];
    assert slab == PaddedChunk(chunk) by {
      PaddedNode(chunk);
    }
    next := idx;
    for b := 0 to CHUNK_NODES_NUM
      invariant next == idx + b && nodes[..] == slab
      invariant forall i :: 0 <= i < idx ==> blocks[i] == old(blocks[i])
      invariant forall i :: idx <= i < next ==> blocks[i] == Blocks(data)[i]
    {
      ghost var node := slab[b * NODE_SIZE..(b + 1) * NODE_SIZE];
      assert nodes[b * NODE_SIZE..(b + 1) * NODE_SIZE] == node;
      BlockOfSlab(data, chunk, slab, j, b, next);
      blocks[next] := nodes[b * NODE_SIZE..(b + 1) * NODE_SIZE];
      next := next + 1;
    }
  }

  method NewPaddedDataBlocksFromBuffer(data: Bytes) returns (blocks: array<Digest>, sourcePaddedSize: nat)
    ensures fresh(blocks) && blocks[..] == Blocks(data)
    ensures sourcePaddedSize == NODE_SIZE * |Blocks(data)|
  {
    var buf, srcLen := data, |data|;
    var mod := srcLen % SOURCE_CHUNK_SIZE;
    if mod != 0 {
      buf := buf + Zeros(SOURCE_CHUNK_SIZE - mod);
      srcLen := |buf|;
    }
    var idx := 0;
    blocks := new Digest[srcLen * CHUNK_NODES_NUM / SOURCE_CHUNK_SIZE];
    var slabs := srcLen / SOURCE_CHUNK_SIZE;
    assert slabs == SlabCount(|data|) && srcLen == SOURCE_CHUNK_SIZE * slabs && blocks.Length == BlockCount(|data|);
    for j := 0 to slabs
      invariant idx == CHUNK_NODES_NUM * j
      invariant forall i :: 0 <= i < idx ==> blocks[i] == Blocks(data)[i]
    {
      FilledChunk(data, buf, j);
      idx := FillBlocks(ChunkAt(buf, j), blocks, idx, data, j);
    }
    assert blocks[..] == Blocks(data);
    sourcePaddedSize := slabs * SLAB_CHUNK_SIZE;
  }

  lemma PaddedNode(c: SourceChunk)
    ensures Padded(c, |c| / SOURCE_CHUNK_SIZE) == PaddedChunk(c)
  {
    assert ChunkAt(c, 0) == c;
    assert Padded(c, 1) == Padded(c, 0) + PaddedChunk(ChunkAt(c, 0));
  }

  lemma NodeOfPadded(c: SourceChunk, b: nat)
    requires b < CHUNK_NODES_NUM
    ensures PaddedChunk(c)[b * NODE_SIZE..(b + 1) * NODE_SIZE] == NodeOf(LE(c), b)
  {
  }

  lemma BlockOfSlab(data: Bytes, c: SourceChunk, slab: Bytes, j: nat, b: nat, at: nat)
    requires slab == PaddedChunk(c) && at == CHUNK_NODES_NUM * j + b
    requires j < SlabCount(|data|) && b < CHUNK_NODES_NUM && LE(c) == LE(Slab(data, j))
    ensures Same(slab[b * NODE_SIZE..(b + 1) * NODE_SIZE], Blocks(data)[at])
  {
    NodeOfPadded(c, b);
    BlockIs(data, j, b);
  }

  lemma BlockIs(data: Bytes, j: nat, b: nat)
    requires j < SlabCount(|data|) && b < CHUNK_NODES_NUM
    ensures BlockAt(data, CHUNK_NODES_NUM * j + b) == NodeOf(LE(Slab(data, j)), b)
  {
    var i := CHUNK_NODES_NUM * j + b;
    assert i / CHUNK_NODES_NUM == j && i % CHUNK_NODES_NUM == b;
  }

  // ----- a chunk of the CAR, padded on its own

  /** n slabs of the data from slab o on, fewer at the end. */
  function SlabRange(data: Bytes, o: nat, n: nat): Bytes
    requires SOURCE_CHUNK_SIZE * o <= |data|
  {
    data[SOURCE_CHUNK_SIZE * o..Min(SOURCE_CHUNK_SIZE * (o + n), |data|)]
  }

  /** Padding a range of whole slabs on its own gives the blocks it has in the whole, partial tail included. */
  lemma BlocksOfRange(data: Bytes, o: nat, n: nat)
    requires o < SlabCount(|data|)
    ensures BlockCount(|SlabRange(data, o, n)|) ==
            Min(CHUNK_NODES_NUM * n, BlockCount(|data|) - CHUNK_NODES_NUM * o)
    ensures forall i :: 0 <= i < BlockCount(|SlabRange(data, o, n)|) ==>
      BlockAt(SlabRange(data, o, n), i) == Blocks(data)[CHUNK_NODES_NUM * o + i]
  {
    var part := SlabRange(data, o, n);
    RangeCount(|data|, o, n);
    forall i | 0 <= i < BlockCount(|part|)
      ensures BlockAt(part, i) == Blocks(data)[CHUNK_NODES_NUM * o + i]
    {
      BlockOfRange(data, o, n, i);
    }
  }

  lemma BlockOfRange(data: Bytes, o: nat, n: nat, i: nat)
    requires o < SlabCount(|data|) && i < BlockCount(|SlabRange(data, o, n)|)
    ensures CHUNK_NODES_NUM * o + i < BlockCount(|data|)
    ensures BlockAt(SlabRange(data, o, n), i) == Blocks(data)[CHUNK_NODES_NUM * o + i]
  {
    var j, b := i / CHUNK_NODES_NUM, i % CHUNK_NODES_NUM;
    SlabBlockOfRange(data, o, n, j, b);
    assert i == CHUNK_NODES_NUM * j + b;
  }

  lemma SlabBlockOfRange(data: Bytes, o: nat, n: nat, j: nat, b: nat)
    requires o < SlabCount(|data|) && j < SlabCount(|SlabRange(data, o, n)|) && b < CHUNK_NODES_NUM
    ensures o + j < SlabCount(|data|)
    ensures Same(BlockAt(SlabRange(data, o, n), CHUNK_NODES_NUM * j + b), BlockAt(data, CHUNK_NODES_NUM * (o + j) + b))
  {
    SlabOfRange(data, o, n, j);
    BlockIs(SlabRange(data, o, n), j, b);
    BlockIs(data, o + j, b);
  }

  lemma SlabOfRange(data: Bytes, o: nat, n: nat, j: nat)
    requires o < SlabCount(|data|) && j < SlabCount(|SlabRange(data, o, n)|)
    ensures o + j < SlabCount(|data|) && Slab(SlabRange(data, o, n), j) == Slab(data, o + j)
  {
    RangeCount(|data|, o, n);
    var a, e := SOURCE_CHUNK_SIZE * o, Min(SOURCE_CHUNK_SIZE * (o + n), |data|);
    SliceOfSlice(data, a, e, SOURCE_CHUNK_SIZE * j, Min(SOURCE_CHUNK_SIZE * (j + 1), e - a));
  }

  lemma SliceOfSlice(s: Bytes, a: nat, e: nat, x: nat, y: nat)
    requires a <= e <= |s| && x <= y <= e - a
    ensures s[a..e][x..y] == s[a + x..a + y]
  {
    var t, u := s[a..e][x..y], s[a + x..a + y];
    assert forall k :: 0 <= k < y - x ==> t[k] == s[a..e][x + k] == s[a + x + k] == u[k];
  }

  lemma RangeCount(len: nat, o: nat, n: nat)
    requires o < SlabCount(len)
    ensures SlabCount(Min(SOURCE_CHUNK_SIZE * (o + n), len) - SOURCE_CHUNK_SIZE * o) == Min(n, SlabCount(len) - o)
  {
  }

  /** Every block is a 254-bit number. */
  lemma BlockBelowField(data: Bytes, i: nat)
    requires i < BlockCount(|data|)
    ensures LE(Blocks(data)[i]) < FIELD
  {
    NodeBelowField(LE(Slab(data, i / CHUNK_NODES_NUM)), i % CHUNK_NODES_NUM);
  }

  // ----- the blocks, one after the other

  function InARow(blocks: seq<Digest>): (b: Bytes)
    ensures |b| == NODE_SIZE * |blocks|
  {
    if |blocks| == 0 then [] else InARow(blocks[..|blocks| - 1]) + blocks[|blocks| - 1]
  }

  lemma FourInARow(a: seq<Digest>, b: seq<Digest>)
    requires |b| == 4
    ensures InARow(a + b) == InARow(a) + b[0] + b[1] + b[2] + b[3]
  {
    OneInARow(a, b[0]);
    OneInARow(a + [b[0]], b[1]);
    OneInARow(a + [b[0]] + [b[1]], b[2]);
    OneInARow(a + [b[0]] + [b[1]] + [b[2]], b[3]);
    assert a + b == a + [b[0]] + [b[1]] + [b[2]] + [b[3]];
  }

  lemma OneInARow(a: seq<Digest>, d: Digest)
    ensures InARow(a + [d]) == InARow(a) + d
  {
    assert (a + [d])[..|a|] == a;
  }

  /** The first j slabs' blocks are the zero-filled data's first j chunks, expanded. */
  lemma {:induction false} FirstBlocksArePadded(data: Bytes, filled: Bytes, j: nat)
    requires data <= filled && |filled| == SOURCE_CHUNK_SIZE * SlabCount(|data|)
    requires forall i :: |data| <= i < |filled| ==> filled[i] == 0
    requires j <= SlabCount(|data|)
    ensures InARow(Blocks(data)[..CHUNK_NODES_NUM * j]) == Padded(filled, j)
  {
    if j > 0 {
      FirstBlocksArePadded(data, filled, j - 1);
      NextBlocksArePadded(data, filled, j - 1);
    }
  }

  lemma NextBlocksArePadded(data: Bytes, filled: Bytes, k: nat)
    requires data <= filled && |filled| == SOURCE_CHUNK_SIZE * SlabCount(|data|)
    requires forall i :: |data| <= i < |filled| ==> filled[i] == 0
    requires k < SlabCount(|data|)
    requires InARow(Blocks(data)[..CHUNK_NODES_NUM * k]) == Padded(filled, k)
    ensures InARow(Blocks(data)[..CHUNK_NODES_NUM * (k + 1)]) == Padded(filled, k + 1)
  {
    var four := SlabBlocks(data, k);
    FilledChunk(data, filled, k);
    NextInARow(Blocks(data)[..CHUNK_NODES_NUM * k], four, Padded(filled, k), ChunkAt(filled, k));
    SplitPrefix(Blocks(data), CHUNK_NODES_NUM * k, CHUNK_NODES_NUM * (k + 1));
  }

  lemma SplitPrefix(s: seq<Digest>, a: nat, b: nat)
    requires a <= b <= |s|
    ensures s[..b] == s[..a] + s[a..b]
  {
  }

  lemma NextInARow(before: seq<Digest>, four: seq<Digest>, padded: Bytes, c: SourceChunk)
    requires InARow(before) == padded
    requires |four| == 4 && forall b :: 0 <= b < 4 ==> four[b] == NodeOf(LE(c), b)
    ensures InARow(before + four) == padded + PaddedChunk(c)
  {
    FourInARow(before, four);
    FourNodes(padded, c, four);
  }

  lemma FourNodes(a: Bytes, c: SourceChunk, four: seq<Digest>)
    requires |four| == 4 && forall b :: 0 <= b < 4 ==> four[b] == NodeOf(LE(c), b)
    ensures a + four[0] + four[1] + four[2] + four[3] == a + PaddedChunk(c)
  {
  }

  lemma SlabBlocks(data: Bytes, j: nat) returns (four: seq<Digest>)
    requires j < SlabCount(|data|)
    ensures four == Blocks(data)[CHUNK_NODES_NUM * j..CHUNK_NODES_NUM * (j + 1)] && |four| == 4
    ensures forall b :: 0 <= b < 4 ==> four[b] == NodeOf(LE(Slab(data, j)), b)
  {
    four := Blocks(data)[CHUNK_NODES_NUM * j..CHUNK_NODES_NUM * (j + 1)];
    forall b | 0 <= b < 4
      ensures four[b] == NodeOf(LE(Slab(data, j)), b)
    {
      BlockIs(data, j, b);
    }
  }

  /** The blocks, one after the other, are the expansion of the zero-filled data, which can be read back from them. */
  lemma BlocksArePadded(data: Bytes, filled: Bytes)
    requires data <= filled && |filled| == SOURCE_CHUNK_SIZE * SlabCount(|data|)
    requires forall i :: |data| <= i < |filled| ==> filled[i] == 0
    ensures InARow(Blocks(data)) == Padded(filled, SlabCount(|data|))
    ensures Unpadded(InARow(Blocks(data)), SlabCount(|data|)) == filled
  {
    FirstBlocksArePadded(data, filled, SlabCount(|data|));
    assert Blocks(data)[..BlockCount(|data|)] == Blocks(data);
    UnpaddedOfPadded(filled, SlabCount(|data|));
  }
}
