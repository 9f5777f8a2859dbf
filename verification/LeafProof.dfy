/**
 One leaf of a CAR, proved in two halves: inside the chunk that holds it, padded on its own, and
 from the chunk's root up through the cached upper levels of the whole CAR's tree.
 */
module LeafProof {
  import opened Bytes
  import opened Fr32
  import opened PieceTree
  import opened MerkleTree
  import opened PaddedBlocks

  /** The commitment of a CAR. */
  function CommP(h: NodeHash, car: Bytes): Digest
    requires |car| > 0
  {
    Root(h, Blocks(car))
  }

  // ----- addressing

  /** The chunk a leaf lies in. */
  function ChunkIndex(carSize: nat, leafIndex: nat): nat {
    leafIndex / CarChunkParams(carSize).1
  }

  function ChunkOffset(carSize: nat, leafIndex: nat): nat {
    ChunkIndex(carSize, leafIndex) * CarChunkParams(carSize).0
  }

  /** Where the chunk would end if it were full. */
  function ChunkEnd(carSize: nat, leafIndex: nat): nat {
    ChunkOffset(carSize, leafIndex) + CarChunkParams(carSize).0
  }

  /** The leaf's place inside its chunk. */
  function LeafInChunk(carSize: nat, leafIndex: nat): nat {
    leafIndex % CarChunkParams(carSize).1
  }

  /** The chunk's length: full, except for the last one. */
  function ChunkLength(carSize: nat, leafIndex: nat): nat {
    if ChunkOffset(carSize, leafIndex) > carSize then 0
    else Min(CarChunkParams(carSize).0, carSize - ChunkOffset(carSize, leafIndex))
  }

  /** How many nodes the chunk pads to. */
  function ChunkNodes(carSize: nat, leafIndex: nat): nat {
    BlockCount(ChunkLength(carSize, leafIndex))
  }

  /** The chunk pads to more than half of a full chunk's nodes. */
  predicate MoreThanHalf(carSize: nat, leafIndex: nat) {
    2 * ChunkNodes(carSize, leafIndex) > CarChunkParams(carSize).1
  }

  /** The chunk starts on a slab boundary, `SlabsBefore` slabs into the CAR. */
  function SlabsBefore(carSize: nat, leafIndex: nat): nat {
    ChunkIndex(carSize, leafIndex) * (CarChunkParams(carSize).1 / CHUNK_NODES_NUM)
  }

  lemma ChunkOnSlabs(carSize: nat, leafIndex: nat)
    ensures ChunkOffset(carSize, leafIndex) == SOURCE_CHUNK_SIZE * SlabsBefore(carSize, leafIndex)
    ensures ChunkIndex(carSize, leafIndex) * CarChunkParams(carSize).1 ==
            CHUNK_NODES_NUM * SlabsBefore(carSize, leafIndex)
    ensures leafIndex == CHUNK_NODES_NUM * SlabsBefore(carSize, leafIndex) + LeafInChunk(carSize, leafIndex)
  {
    var (size, nodes) := CarChunkParams(carSize);
    var slabs := nodes / CHUNK_NODES_NUM;
    assert size == SOURCE_CHUNK_SIZE * slabs && nodes == CHUNK_NODES_NUM * slabs;
    MultipleOf(ChunkIndex(carSize, leafIndex), SOURCE_CHUNK_SIZE, slabs);
    MultipleOf(ChunkIndex(carSize, leafIndex), CHUNK_NODES_NUM, slabs);
    assert leafIndex == leafIndex / nodes * nodes + leafIndex % nodes;
  }

  lemma MultipleOf(q: nat, a: nat, s: nat)
    ensures q * (a * s) == a * (q * s)
  {
  }

  /**
   Every leaf below carSize / 32 is addressed inside the CAR: the chunk's offset is below the CAR's
   size, so no product leaves the 64-bit range, and the leaf is one of the chunk's blocks even when
   the chunk is cut short by the end of the CAR.
   */
  lemma AddressInRange(carSize: U64, leafIndex: nat)
    requires leafIndex < carSize / NODE_SIZE
    ensures ChunkOffset(carSize, leafIndex) < carSize
    ensures SlabsBefore(carSize, leafIndex) < SlabCount(carSize)
    ensures LeafInChunk(carSize, leafIndex) < ChunkNodes(carSize, leafIndex)
    ensures ChunkNodes(carSize, leafIndex) ==
            Min(CarChunkParams(carSize).1, BlockCount(carSize) - CHUNK_NODES_NUM * SlabsBefore(carSize, leafIndex))
  {
    var slabs, o := SlabCount(carSize), SlabsBefore(carSize, leafIndex);
    ChunkOnSlabs(carSize, leafIndex);
    assert leafIndex < CHUNK_NODES_NUM * slabs;
    RangeCount(carSize, o, CarChunkParams(carSize).1 / CHUNK_NODES_NUM);
  }

  /** The chunk of the CAR that holds the leaf. */
  function ChunkOf(car: Bytes, leafIndex: nat): (c: Bytes)
    requires ChunkOffset(|car|, leafIndex) <= |car|
    ensures |c| == ChunkLength(|car|, leafIndex)
  {
    var o := ChunkOffset(|car|, leafIndex);
    car[o..o + ChunkLength(|car|, leafIndex)]
  }

  lemma ChunkIsSlabRange(car: Bytes, leafIndex: nat)
    requires ChunkOffset(|car|, leafIndex) <= |car|
    ensures SOURCE_CHUNK_SIZE * SlabsBefore(|car|, leafIndex) <= |car|
    ensures ChunkOf(car, leafIndex) ==
            SlabRange(car, SlabsBefore(|car|, leafIndex), CarChunkParams(|car|).1 / CHUNK_NODES_NUM)
  {
    ChunkOnSlabs(|car|, leafIndex);
  }

  /** Padding the chunk on its own gives the blocks it has in the whole CAR, the challenged leaf among them. */
  lemma ChunkBlocks(car: Bytes, leafIndex: nat)
    requires |car| < TWO_64 && leafIndex < |car| / NODE_SIZE
    ensures ChunkOffset(|car|, leafIndex) < |car|
    ensures |Blocks(ChunkOf(car, leafIndex))| == ChunkNodes(|car|, leafIndex)
    ensures forall i :: 0 <= i < ChunkNodes(|car|, leafIndex) ==>
      Blocks(ChunkOf(car, leafIndex))[i] == LeafAt(Blocks(car), CHUNK_NODES_NUM * SlabsBefore(|car|, leafIndex) + i)
  {
    AddressInRange(|car|, leafIndex);
    ChunkIsSlabRange(car, leafIndex);
    BlocksOfRange(car, SlabsBefore(|car|, leafIndex), CarChunkParams(|car|).1 / CHUNK_NODES_NUM);
  }

  lemma LeafIsBlock(car: Bytes, leafIndex: nat)
    requires |car| < TWO_64 && leafIndex < |car| / NODE_SIZE
    ensures ChunkOffset(|car|, leafIndex) < |car| && leafIndex < |Blocks(car)|
    ensures LeafInChunk(|car|, leafIndex) < |Blocks(ChunkOf(car, leafIndex))|
    ensures Blocks(ChunkOf(car, leafIndex))[LeafInChunk(|car|, leafIndex)] == Blocks(car)[leafIndex]
  {
    AddressInRange(|car|, leafIndex);
    ChunkBlocks(car, leafIndex);
    ChunkOnSlabs(|car|, leafIndex);
  }

  // ----- the halves meet

  /** Grown to the cache's level, the chunk's tree is the node of the whole tree above the chunk. */
  lemma ChunkSubtree(h: NodeHash, car: Bytes, leafIndex: nat)
    requires |car| < TWO_64 && leafIndex < |car| / NODE_SIZE
    ensures ChunkOffset(|car|, leafIndex) < |car|
    ensures Node(h, Blocks(ChunkOf(car, leafIndex)), CarCacheLayerStart(|car|), 0)
         == Node(h, Blocks(car), CarCacheLayerStart(|car|), ChunkIndex(|car|, leafIndex))
  {
    var start, q := CarCacheLayerStart(|car|), ChunkIndex(|car|, leafIndex);
    AddressInRange(|car|, leafIndex);
    ChunkBlocks(car, leafIndex);
    ChunkOnSlabs(|car|, leafIndex);
    LayersMeet(|car|);
    FirstIsMultiple(start, q);
    FirstZero(start);
    SameChunkLeaves(car, leafIndex);
    NodeOfLeaves(h, Blocks(ChunkOf(car, leafIndex)), Blocks(car), start, 0, q);
  }

  lemma SameChunkLeaves(car: Bytes, leafIndex: nat)
    requires |car| < TWO_64 && leafIndex < |car| / NODE_SIZE
    requires ChunkOffset(|car|, leafIndex) <= |car|
    ensures SameLeaves(Blocks(ChunkOf(car, leafIndex)), 0,
                       Blocks(car), CHUNK_NODES_NUM * SlabsBefore(|car|, leafIndex), CarChunkParams(|car|).1)
  {
    AddressInRange(|car|, leafIndex);
    ChunkBlocks(car, leafIndex);
  }

  /** The chunk's own tree has the depth of the cache's lowest level exactly when more than half of it is there. */
  lemma ChunkDepth(carSize: U64, leafIndex: nat)
    requires leafIndex < carSize / NODE_SIZE
    ensures 0 < ChunkNodes(carSize, leafIndex)
    ensures MoreThanHalf(carSize, leafIndex) <==>
            Depth(ChunkNodes(carSize, leafIndex)) == CarCacheLayerStart(carSize)
    ensures !MoreThanHalf(carSize, leafIndex) ==>
            Depth(ChunkNodes(carSize, leafIndex)) < CarCacheLayerStart(carSize)
  {
    var n, start := ChunkNodes(carSize, leafIndex), CarCacheLayerStart(carSize);
    AddressInRange(carSize, leafIndex);
    LayersMeet(carSize);
    if MoreThanHalf(carSize, leafIndex) {
      DepthExact(n, start);
    } else {
      DepthBounds(n);
      if Depth(n) >= start {
        Pow2Monotone(start - 1, Depth(n) - 1);
      }
    }
  }

  /** Then the chunk's commitment is a node of the cache's lowest level. */
  lemma ChunkRootIsCached(h: NodeHash, car: Bytes, leafIndex: nat)
    requires |car| < TWO_64 && leafIndex < |car| / NODE_SIZE && MoreThanHalf(|car|, leafIndex)
    ensures ChunkOffset(|car|, leafIndex) < |car| && |ChunkOf(car, leafIndex)| > 0
    ensures CommP(h, ChunkOf(car, leafIndex)) ==
            Node(h, Blocks(car), CarCacheLayerStart(|car|), ChunkIndex(|car|, leafIndex))
  {
    ChunkSubtree(h, car, leafIndex);
    ChunkBlocks(car, leafIndex);
    ChunkDepth(|car|, leafIndex);
  }

  // ----- composition

  /** Both halves of the proof of a leaf: GenProof on the chunk, GenProofFromCache, AppendProof. */
  function ProveLeaf(chunkTree: Tree, cache: LevelCache, leaf: Bytes): Result<Proof> {
    var base := chunkTree.Prove(leaf);
    var sub := cache.Prove(chunkTree.root);
    if base.Err? then base else if sub.Err? then sub else Ok(AppendProof(base.value, sub.value))
  }

  /** The stored upper levels of a CAR's tree. */
  ghost predicate IsCacheOf(h: NodeHash, cache: LevelCache, car: Bytes, indexed: nat)
  {
    |car| > 0 && IsLevelCache(h, cache, Blocks(car), CarCacheLayerStart(|car|), indexed)
  }

  /**
   Whatever chunk and leaf the proof was made for, and whichever of several equal nodes each lookup
   found: a proof that comes out folds the leaf to the commitment of the whole CAR.
   */
  lemma ComposedProofFolds(h: NodeHash, car: Bytes, cache: LevelCache, indexed: nat,
                           chunk: Bytes, chunkTree: Tree, leaf: Bytes)
    requires IsCacheOf(h, cache, car, indexed) && Depth(|Blocks(car)|) <= MAX_LAYERS
    requires IsTree(h, chunkTree, Blocks(chunk)) && chunkTree.depth <= CarCacheLayerStart(|car|)
    requires ProveLeaf(chunkTree, cache, leaf).Ok?
    ensures Verify(h, leaf, ProveLeaf(chunkTree, cache, leaf).value, CommP(h, car))
  {
    TreeProofFolds(h, chunkTree, Blocks(chunk), leaf);
    CacheProofFolds(h, cache, Blocks(car), CarCacheLayerStart(|car|), indexed, chunkTree.root);
    AppendedProofFolds(h, leaf, chunkTree.Prove(leaf).value, cache.Prove(chunkTree.root).value, CommP(h, car));
  }

  /** A chunk with more than half of its nodes, indexed by the cache, always gets its proof. */
  lemma LeafGetsProof(h: NodeHash, car: Bytes, cache: LevelCache, indexed: nat, leafIndex: nat, chunkTree: Tree)
    requires |car| < TWO_64 && leafIndex < |car| / NODE_SIZE && MoreThanHalf(|car|, leafIndex)
    requires IsCacheOf(h, cache, car, indexed) && ChunkIndex(|car|, leafIndex) < indexed
    requires ChunkOffset(|car|, leafIndex) <= |car|
    requires IsTree(h, chunkTree, Blocks(ChunkOf(car, leafIndex)))
    ensures ProveLeaf(chunkTree, cache, Blocks(car)[leafIndex]).Ok?
  {
    var start, q := CarCacheLayerStart(|car|), ChunkIndex(|car|, leafIndex);
    LeafIsBlock(car, leafIndex);
    LeafIsIndexed(h, chunkTree, Blocks(ChunkOf(car, leafIndex)), LeafInChunk(|car|, leafIndex));
    ChunkRootIsCached(h, car, leafIndex);
    NodeIsIndexed(h, cache, Blocks(car), start, indexed, q);
  }

  lemma LeafIsIndexed(h: NodeHash, t: Tree, leaves: seq<Digest>, i: nat)
    requires IsTree(h, t, leaves) && i < |leaves|
    ensures t.Prove(leaves[i]).Ok?
  {
  }

  lemma NodeIsIndexed(h: NodeHash, cache: LevelCache, leaves: seq<Digest>, start: nat, indexed: nat, q: nat)
    requires IsLevelCache(h, cache, leaves, start, indexed) && q < indexed
    ensures cache.Prove(Node(h, leaves, start, q)).Ok?
  {
    LengthIsWidth(|leaves|, start);
    LevelIsNode(h, leaves, start, q);
    assert Level(h, leaves, start)[q] in cache.leafMap;
  }

  /** The two together: the composed proof of the challenged leaf folds to the commitment of the CAR. */
  lemma ProofComposition(h: NodeHash, car: Bytes, cache: LevelCache, indexed: nat, leafIndex: nat, chunkTree: Tree)
    requires |car| < TWO_64 && leafIndex < |car| / NODE_SIZE && MoreThanHalf(|car|, leafIndex)
    requires IsCacheOf(h, cache, car, indexed) && ChunkIndex(|car|, leafIndex) < indexed
    requires Depth(|Blocks(car)|) <= MAX_LAYERS
    requires ChunkOffset(|car|, leafIndex) <= |car|
    requires IsTree(h, chunkTree, Blocks(ChunkOf(car, leafIndex)))
    ensures leafIndex < |Blocks(car)|
    ensures var r := ProveLeaf(chunkTree, cache, Blocks(car)[leafIndex]);
      r.Ok? && Verify(h, Blocks(car)[leafIndex], r.value, CommP(h, car))
  {
    LeafIsBlock(car, leafIndex);
    LeafGetsProof(h, car, cache, indexed, leafIndex, chunkTree);
    ChunkBlocks(car, leafIndex);
    ChunkDepth(|car|, leafIndex);
    ComposedProofFolds(h, car, cache, indexed, ChunkOf(car, leafIndex), chunkTree, Blocks(car)[leafIndex]);
  }
}
