/** The commitment of a CAR: its root, its piece size, the cached upper levels, and lifting it. */
module PieceCommitment {
  import opened Bytes
  import opened PieceTree
  import opened MerkleTree
  import opened PaddedBlocks
  import opened LeafProof

  // ----- rounding up to a power of two

  /** The number of binary digits of a word: 64 less its leading zeros. */
  function BitLength(n: nat): nat {
    if n == 0 then 0 else 1 + BitLength(n / 2)
  }

  lemma {:induction false} BitLengthBounds(n: nat)
    requires n > 0
    ensures BitLength(n) > 0 && Pow2(BitLength(n) - 1) <= n < Pow2(BitLength(n))
  {
    if n > 1 {
      BitLengthBounds(n / 2);
    }
  }

  /** The padded size, rounded up to a power of two; a shift by 64 leaves nothing of the word. */
  function RoundedUp(size: U64): U64 {
    if OnesCount64(size) != 1 then Word(Pow2(BitLength(size))) else size
  }

  /** Rounding the bytes of n nodes up gives the bytes of the smallest full tree over them. */
  lemma RoundedUpIsTree(n: nat)
    requires 0 < n && NODE_SIZE * n < TWO_64
    ensures RoundedUp(NODE_SIZE * n) == TreeSize(n)
  {
    var size := NODE_SIZE * n;
    PowerOfTwoTest(size);
    if OnesCount64(size) == 1 {
      var k := TrailingZeros64(size);
      assert size == Pow2(k);
      NodesOfPower(n, k);
      WordFits(size);
    } else {
      var k := BitLength(size);
      BitLengthBounds(size);
      assert Pow2(k - 1) != size by {
        PowerFits(k - 1);
      }
      NodesBetweenPowers(n, k);
    }
  }

  /** Fewer than 32 nodes' bytes is no node: an exponent of a size is at least five. */
  lemma ExponentOfSize(size: nat, k: nat)
    requires NODE_SIZE <= size <= Pow2(k)
    ensures k >= 5 && Pow2(k) == NODE_SIZE * Pow2(k - 5)
  {
    SmallPowers();
    ExponentOrder(5, k);
    Pow2Add(5, k - 5);
  }

  lemma NodesOfPower(n: nat, k: nat)
    requires n > 0 && NODE_SIZE * n == Pow2(k)
    ensures Pow2(k) == NODE_SIZE * Pow2(Depth(n))
  {
    ExponentOfSize(NODE_SIZE * n, k);
    DepthExact(n, k - 5);
  }

  lemma NodesBetweenPowers(n: nat, k: nat)
    requires n > 0 && k > 0 && Pow2(k - 1) < NODE_SIZE * n < Pow2(k)
    ensures Pow2(k) == NODE_SIZE * Pow2(Depth(n))
  {
    ExponentOfSize(NODE_SIZE * n, k);
    if k > 5 {
      Pow2Add(5, k - 6);
      SmallPowers();
    }
    DepthExact(n, k - 5);
  }

  /** As long as it fits a word, that is the least power of two that is not smaller. */
  lemma PieceSizeIsLeast(n: nat)
    requires 0 < n && NODE_SIZE * n <= 0x8000_0000_0000_0000
    ensures NODE_SIZE * n <= TreeSize(n) < 2 * (NODE_SIZE * n)
    ensures IsPowerOfTwo(TreeSize(n))
  {
    LeastPower(n, Depth(n));
    PowerOfNodes(Depth(n), Pow2(Depth(n)));
  }

  lemma LeastPower(n: nat, d: nat)
    requires n > 0 && d == Depth(n)
    ensures n <= Pow2(d) < 2 * n
  {
    DepthBounds(n);
  }

  lemma PowerOfNodes(d: nat, p: nat)
    requires p == Pow2(d) && NODE_SIZE * p < TWO_64
    ensures Word(NODE_SIZE * p) == NODE_SIZE * p && IsPowerOfTwo(NODE_SIZE * p)
  {
    SmallPowers();
    Pow2Add(5, d);
    PowerFits(5 + d);
    WordFits(NODE_SIZE * p);
  }

  // ----- the operation

  /** What making a commitment leaves behind. */
  datatype Commitment = Commitment(commP: Digest, pieceSize: nat, cache: LevelCache)

  /** The size of the smallest full tree over n nodes, in bytes, as a word. */
  function TreeSize(n: nat): U64 {
    Word(NODE_SIZE * Pow2(Depth(n)))
  }

  ghost predicate IsCommitment(c: Commitment, h: NodeHash, car: Bytes, indexed: nat)
    requires |car| > 0
  {
    c.commP == CommP(h, car) && IsCacheOf(h, c.cache, car, indexed) && c.pieceSize == TreeSize(|Blocks(car)|)
  }

  /**
   The commitment of a CAR. There is none for an empty buffer, over which no tree is built, nor for one
   whose tree does not reach the level at which its cache starts, nor when the cache cannot be stored.
   The library indexes the first `indexed` nodes of that level.
   */
  method GenCommP(sha: Sha, car: Bytes, indexed: nat, storable: bool) returns (r: Result<Commitment>)
    requires |car| < 0x8000_0000_0000_0000
    requires |car| > 0 ==> indexed <= Width(|Blocks(car)|, CarCacheLayerStart(|car|))
    ensures r.Ok? <==> storable && |car| > 0 && CarCacheLayerStart(|car|) <= Depth(|Blocks(car)|)
    ensures r.Ok? ==> IsCommitment(r.value, PieceHash(sha), car, indexed) && InField(r.value.commP)
  {
    var h := PieceHash(sha);
    var blocks, paddedPieceSize := NewPaddedDataBlocksFromBuffer(car);
    var leaves := blocks[..];
    SomeBlocks(|car|);
    var tree := NewWithPadding(h, leaves);
    if tree.Err? {
      return Err(tree.message);
    }
    PieceSizeOfCar(car);
    paddedPieceSize := RoundedUp(paddedPieceSize);
    var cacheStart := CarCacheLayerStart(|car|);
    var cache := NewLevelCache(h, leaves, cacheStart, indexed);
    if cache.Err? {
      return Err(cache.message);
    }
    if !storable {
      return Err("store to file");
    }
    r := Ok(Commitment(tree.value.root, paddedPieceSize, cache.value));
    assert IsCommitment(r.value, h, car, indexed) by {
      CommitmentMade(h, car, tree.value, cache.value, paddedPieceSize, indexed);
    }
    CommPInField(sha, car);
  }

  /** A commitment has at most 254 bits. */
  lemma CommPInField(sha: Sha, car: Bytes)
    requires |car| > 0
    ensures InField(CommP(PieceHash(sha), car))
  {
    forall k | 0 <= k < |Blocks(car)|
      ensures InField(Blocks(car)[k])
    {
      BlockBelowField(car, k);
    }
    NodeInField(sha, Blocks(car), Depth(|Blocks(car)|), 0);
  }

  lemma SomeBlocks(n: nat)
    ensures BlockCount(n) > 0 <==> n > 0
  {
  }

  lemma CommitmentMade(h: NodeHash, car: Bytes, tree: Tree, cache: LevelCache, size: nat, indexed: nat)
    requires |car| > 0 && IsTree(h, tree, Blocks(car)) && size == TreeSize(|Blocks(car)|)
    requires IsLevelCache(h, cache, Blocks(car), CarCacheLayerStart(|car|), indexed)
    ensures IsCommitment(Commitment(tree.root, size, cache), h, car, indexed)
  {
  }

  lemma PieceSizeOfCar(car: Bytes)
    requires 0 < |car| < 0x8000_0000_0000_0000
    ensures NODE_SIZE * |Blocks(car)| < TWO_64 && RoundedUp(NODE_SIZE * |Blocks(car)|) == TreeSize(|Blocks(car)|)
  {
    PaddedSizeFits(|car|);
    RoundedUpIsTree(|Blocks(car)|);
  }

  lemma PaddedSizeFits(n: nat)
    requires n < 0x8000_0000_0000_0000
    ensures NODE_SIZE * BlockCount(n) < TWO_64
  {
  }

  // ----- lifting it

  lemma NodesOfCar(n: nat)
    requires n > 0
    ensures BlockCount(n) >= 4 && Depth(BlockCount(n)) >= 2
  {
  }

  /** The root over the leaves lifts to the root over the leaves and zero leaves up to level b. */
  ghost predicate LiftsTo(h: NodeHash, tower: seq<Bytes>, root: Digest, leaves: seq<Digest>, b: nat)
    requires Depth(|leaves|) <= b <= |tower|
  {
    && |leaves| <= Pow2(b)
    && Lift(h, tower, root, Depth(|leaves|), b) == PerfectRoot(h, leaves + ZeroLeaves(Pow2(b) - |leaves|), b)
  }

  /**
   A CAR's commitment and piece size are fit for PadCommP, and lifting gives the root of the tree over
   the CAR's blocks and zero leaves up to the larger piece.
   */
  lemma CommPLifts(h: NodeHash, tower: seq<Bytes>, car: Bytes, b: nat)
    requires IsTower(h, tower) && |car| > 0
    requires Depth(|Blocks(car)|) <= b <= MAX_LAYERS
    ensures Liftable(CommP(h, car), NODE_SIZE * Pow2(Depth(|Blocks(car)|)), NODE_SIZE * Pow2(b))
    ensures LiftsTo(h, tower, CommP(h, car), Blocks(car), b)
  {
    NodesOfCar(|car|);
    PieceSizes(Depth(|Blocks(car)|), b);
    RootLifts(h, tower, Blocks(car), b);
  }

  lemma RootLifts(h: NodeHash, tower: seq<Bytes>, leaves: seq<Digest>, b: nat)
    requires IsTower(h, tower) && |leaves| > 0 && Depth(|leaves|) <= b <= MAX_LAYERS
    ensures LiftsTo(h, tower, Root(h, leaves), leaves, b)
  {
    DepthBounds(|leaves|);
    Pow2Monotone(Depth(|leaves|), b);
    LiftExtends(h, tower, leaves, Depth(|leaves|), b, Pow2(b) - |leaves|);
  }

  lemma PieceSizes(d: nat, b: nat)
    requires 2 <= d <= b <= MAX_LAYERS
    ensures IsPowerOfTwo(NODE_SIZE * Pow2(d)) && IsPowerOfTwo(NODE_SIZE * Pow2(b))
    ensures 128 <= NODE_SIZE * Pow2(d) <= NODE_SIZE * Pow2(b) <= MAX_PIECE_SIZE
  {
    LevelSize(d);
    LevelSize(b);
    Pow2Monotone(d, b);
  }

  lemma LevelSize(l: nat)
    requires 2 <= l <= MAX_LAYERS
    ensures IsPowerOfTwo(NODE_SIZE * Pow2(l)) && 128 <= NODE_SIZE * Pow2(l) <= MAX_PIECE_SIZE
  {
    SmallPowers();
    Pow2Add(5, l);
    assert NODE_SIZE * Pow2(l) == Pow2(5 + l);
    Pow2Monotone(2, l);
    LargestPower(5 + l, MAX_LAYERS + 5);
  }

  lemma LargestPower(k: nat, top: nat)
    requires k <= top == MAX_LAYERS + 5
    ensures Pow2(k) <= MAX_PIECE_SIZE
  {
    WordPowers();
    Pow2Monotone(k, top);
  }
}
