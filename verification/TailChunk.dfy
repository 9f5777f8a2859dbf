/**
 Exactly when a leaf's proof can be composed whatever the CAR holds: its chunk must pad to more
 than half of a full chunk, and the cache must index the chunk.
 */
module TailChunk {
  import opened Bytes
  import opened Fr32
  import opened PieceTree
  import opened MerkleTree
  import opened PaddedBlocks
  import opened LeafProof

  // ----- for one hash and one CAR

  /**
   Up to level d the nodes of tree a are equal only to nodes of tree b, a number of levels further up, whose
   children are equal too. Anything else is a clash of the hash.
   */
  ghost predicate NoClash(h: NodeHash, a: seq<Digest>, b: seq<Digest>, d: nat, shift: nat) {
    forall l: nat, i: nat, j: nat :: 0 < l <= d ==> ChildrenAgree(h, a, b, l, shift, i, j)
  }

  predicate ChildrenAgree(h: NodeHash, a: seq<Digest>, b: seq<Digest>, l: nat, shift: nat, i: nat, j: nat)
    requires l > 0
  {
    Node(h, a, l, i) == Node(h, b, l + shift, j) ==> EqualHalves(h, a, b, l, l + shift, i, j)
  }

  predicate EqualHalves(h: NodeHash, a: seq<Digest>, b: seq<Digest>, l: nat, m: nat, i: nat, j: nat)
    requires l > 0 && m > 0
  {
    && Node(h, a, l - 1, 2 * i) == Node(h, b, m - 1, 2 * j)
    && Node(h, a, l - 1, 2 * i + 1) == Node(h, b, m - 1, 2 * j + 1)
  }

  /** n leaves of a from i on are the nodes of one level of tree b from j on. */
  ghost predicate LeavesAreNodes(h: NodeHash, a: seq<Digest>, i: nat, b: seq<Digest>, level: nat, j: nat, n: nat) {
    forall m :: i <= m < i + n ==> LeafAt(a, m) == Node(h, b, level, m - i + j)
  }

  /** Two nodes are equal exactly when all that is under them is. */
  ghost predicate EqualExactly(h: NodeHash, a: seq<Digest>, b: seq<Digest>, l: nat, shift: nat, i: nat, j: nat) {
    Node(h, a, l, i) == Node(h, b, l + shift, j) <==>
      LeavesAreNodes(h, a, First(l, i), b, shift, First(l, j), Pow2(l))
  }

  /** That is so for all nodes, as far as there is no clash. */
  lemma {:induction false} EqualTrees(h: NodeHash, a: seq<Digest>, b: seq<Digest>, d: nat, shift: nat,
                                      l: nat, i: nat, j: nat)
    requires NoClash(h, a, b, d, shift) && l <= d
    ensures EqualExactly(h, a, b, l, shift, i, j)
    decreases l
  {
    if l > 0 {
      EqualTrees(h, a, b, d, shift, l - 1, 2 * i, 2 * j);
      EqualTrees(h, a, b, d, shift, l - 1, 2 * i + 1, 2 * j + 1);
      assert ChildrenAgree(h, a, b, l, shift, i, j);
    }
    EqualNext(h, a, b, l, shift, i, j);
  }

  lemma EqualNext(h: NodeHash, a: seq<Digest>, b: seq<Digest>, l: nat, shift: nat, i: nat, j: nat)
    requires l > 0 ==> ChildrenAgree(h, a, b, l, shift, i, j)
    requires l > 0 ==> EqualExactly(h, a, b, l - 1, shift, 2 * i, 2 * j)
    requires l > 0 ==> EqualExactly(h, a, b, l - 1, shift, 2 * i + 1, 2 * j + 1)
    ensures EqualExactly(h, a, b, l, shift, i, j)
  {
    if l > 0 {
      HalvesAreNodes(h, a, b, shift, l, i, j);
      if EqualHalves(h, a, b, l, l + shift, i, j) {
        EqualChildren(h, a, b, l, l + shift, i, j);
      }
    } else {
      assert LeavesAreNodes(h, a, i, b, shift, j, 1) <==> LeafAt(a, i) == Node(h, b, shift, j);
    }
  }

  lemma EqualChildren(h: NodeHash, a: seq<Digest>, b: seq<Digest>, l: nat, m: nat, i: nat, j: nat)
    requires l > 0 && m > 0 && EqualHalves(h, a, b, l, m, i, j)
    ensures Node(h, a, l, i) == Node(h, b, m, j)
  {
  }

  lemma HalvesAreNodes(h: NodeHash, a: seq<Digest>, b: seq<Digest>, level: nat, l: nat, i: nat, j: nat)
    requires l > 0
    ensures LeavesAreNodes(h, a, First(l, i), b, level, First(l, j), Pow2(l)) <==>
            && LeavesAreNodes(h, a, First(l - 1, 2 * i), b, level, First(l - 1, 2 * j), Pow2(l - 1))
            && LeavesAreNodes(h, a, First(l - 1, 2 * i + 1), b, level, First(l - 1, 2 * j + 1), Pow2(l - 1))
  {
    FirstNext(l - 1, 2 * i);
    FirstNext(l - 1, 2 * j);
    TwoRuns(h, a, First(l, i), b, level, First(l, j), Pow2(l - 1));
  }

  lemma TwoRuns(h: NodeHash, a: seq<Digest>, i: nat, b: seq<Digest>, level: nat, j: nat, n: nat)
    ensures LeavesAreNodes(h, a, i, b, level, j, 2 * n) <==>
            LeavesAreNodes(h, a, i, b, level, j, n) && LeavesAreNodes(h, a, i + n, b, level, j + n, n)
  {
  }

  /** Indexed node i stands, d levels up, over nodes that are the chunk's zero-extended blocks. */
  ghost predicate Repeats(h: NodeHash, chunk: seq<Digest>, all: seq<Digest>, d: nat, shift: nat, i: nat) {
    LeavesAreNodes(h, chunk, 0, all, shift, First(d, i), Pow2(d))
  }

  /** Some node that the cache indexes repeats the chunk. */
  ghost predicate Repeated(h: NodeHash, chunk: seq<Digest>, all: seq<Digest>, d: nat, shift: nat, indexed: nat) {
    exists i: nat :: i < indexed && Repeats(h, chunk, all, d, shift, i)
  }

  /** The root of the chunk's tree is found exactly when some indexed node repeats the chunk. */
  lemma RootFoundExactly(h: NodeHash, cache: LevelCache, chunk: seq<Digest>, all: seq<Digest>, tree: Tree,
                         start: nat, shift: nat, indexed: nat)
    requires IsTree(h, tree, chunk) && IsLevelCache(h, cache, all, start, indexed) && tree.depth + shift == start
    requires NoClash(h, chunk, all, tree.depth, shift)
    ensures cache.Prove(tree.root).Ok? == Repeated(h, chunk, all, tree.depth, shift, indexed)
  {
    if cache.Prove(tree.root).Ok? {
      var i := cache.leafMap[tree.root];
      LevelIsNode(h, all, start, i);
      RootRepeats(h, chunk, all, tree.depth, shift, start, i);
    }
    forall i: nat | i < indexed && Repeats(h, chunk, all, tree.depth, shift, i)
      ensures cache.Prove(tree.root).Ok?
    {
      RootRepeats(h, chunk, all, tree.depth, shift, start, i);
      NodeIsIndexed(h, cache, all, start, indexed, i);
    }
  }

  lemma RootRepeats(h: NodeHash, chunk: seq<Digest>, all: seq<Digest>, d: nat, shift: nat, start: nat, i: nat)
    requires d + shift == start && NoClash(h, chunk, all, d, shift)
    ensures (Node(h, all, start, i) == Node(h, chunk, d, 0)) == Repeats(h, chunk, all, d, shift, i)
  {
    EqualTrees(h, chunk, all, d, shift, d, 0, i);
    FirstZero(d);
  }

  /**
   Whatever the hash, and for every CAR on which it has no such clash: a leaf gets its proof exactly when
   some indexed node repeats the leaf's chunk, be it the chunk's own node or another one.
   */
  lemma ProvableUnder(h: NodeHash, car: Bytes, cache: LevelCache, indexed: nat, leafIndex: nat, tree: Tree, shift: nat)
    requires |car| < TWO_64 && leafIndex < |car| / NODE_SIZE && ChunkOffset(|car|, leafIndex) <= |car|
    requires IsCacheOf(h, cache, car, indexed) && IsTree(h, tree, Blocks(ChunkOf(car, leafIndex)))
    requires tree.depth + shift == CarCacheLayerStart(|car|)
    requires NoClash(h, Blocks(ChunkOf(car, leafIndex)), Blocks(car), tree.depth, shift)
    ensures ProveLeaf(tree, cache, LeafAt(Blocks(car), leafIndex)).Ok? ==
            Repeated(h, Blocks(ChunkOf(car, leafIndex)), Blocks(car), tree.depth, shift, indexed)
  {
    LeafIsBlock(car, leafIndex);
    LeafIsIndexed(h, tree, Blocks(ChunkOf(car, leafIndex)), LeafInChunk(|car|, leafIndex));
    RootFoundExactly(h, cache, Blocks(ChunkOf(car, leafIndex)), Blocks(car), tree, CarCacheLayerStart(|car|), shift,
                     indexed);
  }

  /** With more than half of its nodes: exactly when some indexed chunk has the same zero-extended blocks. */
  lemma ProvableWhenSame(h: NodeHash, car: Bytes, cache: LevelCache, indexed: nat, leafIndex: nat, tree: Tree)
    requires |car| < TWO_64 && leafIndex < |car| / NODE_SIZE && ChunkOffset(|car|, leafIndex) <= |car|
    requires IsCacheOf(h, cache, car, indexed) && IsTree(h, tree, Blocks(ChunkOf(car, leafIndex)))
    requires MoreThanHalf(|car|, leafIndex)
    requires NoClash(h, Blocks(ChunkOf(car, leafIndex)), Blocks(car), tree.depth, 0)
    ensures ProveLeaf(tree, cache, LeafAt(Blocks(car), leafIndex)).Ok? ==
            SomeSameChunk(Blocks(ChunkOf(car, leafIndex)), Blocks(car), |car|, indexed)
  {
    TreeDepth(car, leafIndex, tree.depth);
    ProvableUnder(h, car, cache, indexed, leafIndex, tree, 0);
    RepeatedIsSame(h, Blocks(ChunkOf(car, leafIndex)), Blocks(car), |car|, tree.depth, indexed);
  }

  /** Some chunk of the CAR that the cache indexes has the same zero-extended blocks. */
  ghost predicate SomeSameChunk(chunk: seq<Digest>, all: seq<Digest>, carSize: nat, indexed: nat) {
    exists i: nat :: i < indexed && SameChunk(chunk, all, carSize, i)
  }

  /** Chunk i of the CAR has the same zero-extended blocks. */
  ghost predicate SameChunk(chunk: seq<Digest>, all: seq<Digest>, carSize: nat, i: nat) {
    SameLeaves(chunk, 0, all, i * CarChunkParams(carSize).1, CarChunkParams(carSize).1)
  }

  lemma RepeatedIsSame(h: NodeHash, chunk: seq<Digest>, all: seq<Digest>, carSize: nat, d: nat, indexed: nat)
    requires d == CarCacheLayerStart(carSize)
    ensures Repeated(h, chunk, all, d, 0, indexed) == SomeSameChunk(chunk, all, carSize, indexed)
  {
    forall i: nat
      ensures Repeats(h, chunk, all, d, 0, i) == SameChunk(chunk, all, carSize, i)
    {
      RepeatsIsSame(h, chunk, all, carSize, d, i);
    }
  }

  lemma RepeatsIsSame(h: NodeHash, chunk: seq<Digest>, all: seq<Digest>, carSize: nat, d: nat, i: nat)
    requires d == CarCacheLayerStart(carSize)
    ensures Repeats(h, chunk, all, d, 0, i) == SameChunk(chunk, all, carSize, i)
  {
    LayersMeet(carSize);
    FirstIsMultiple(d, i);
    LeavesAsNodes(h, chunk, all, 0, First(d, i), Pow2(d));
  }

  lemma LeavesAsNodes(h: NodeHash, a: seq<Digest>, b: seq<Digest>, level: nat, j: nat, n: nat)
    requires level == 0
    ensures LeavesAreNodes(h, a, 0, b, level, j, n) <==> SameLeaves(a, 0, b, j, n)
  {
  }

  lemma TreeDepth(car: Bytes, leafIndex: nat, d: nat)
    requires |car| < TWO_64 && leafIndex < |car| / NODE_SIZE && ChunkOffset(|car|, leafIndex) <= |car|
    requires d == Depth(|Blocks(ChunkOf(car, leafIndex))|)
    ensures MoreThanHalf(|car|, leafIndex) <==> d == CarCacheLayerStart(|car|)
  {
    ChunkBlocks(car, leafIndex);
    ChunkDepth(|car|, leafIndex);
  }

  // ----- for every hash and every CAR of a size

  /** Leaf `leafIndex` of every CAR of this size gets its proof, under every hash. */
  ghost predicate AlwaysProvable(carSize: U64, leafIndex: nat, indexed: nat)
    requires leafIndex < carSize / NODE_SIZE
  {
    forall sha: Sha, car: Bytes, cache: LevelCache, chunkTree: Tree ::
      ProofSetting(PieceHash(sha), car, cache, chunkTree, carSize, leafIndex, indexed) ==>
        ProveLeaf(chunkTree, cache, LeafAt(Blocks(car), leafIndex)).Ok?
  }

  /** A CAR of the given size, its cache, and the tree of the chunk around the leaf. */
  ghost predicate ProofSetting(h: NodeHash, car: Bytes, cache: LevelCache, chunkTree: Tree,
                               carSize: U64, leafIndex: nat, indexed: nat)
  {
    && |car| == carSize && ChunkOffset(carSize, leafIndex) <= carSize
    && IsCacheOf(h, cache, car, indexed)
    && IsTree(h, chunkTree, Blocks(ChunkOf(car, leafIndex)))
  }

  // ----- a hash and a CAR that tell nodes apart

  /** A hash that passes on a mark (byte 0) from either child and counts levels (byte 1). */
  function MarkingHash(data: Bytes): Digest {
    if |data| == 64 then Marked(if data[0] != 0 then data[0] else data[32], (Val(data[1]) + 1) % 256)
    else Zeros(32)
  }

  function Marked(mark: Byte, level: nat): Digest
    requires level < 256
  {
    [mark, level as Byte] + Zeros(30)
  }

  const MARKING: Sha := data => MarkingHash(data)

  /** All zeros but for a mark in the first byte of the chunk. */
  function MarkedCar(carSize: nat, at: nat): (car: Bytes)
    ensures |car| == carSize
  {
    seq(carSize, i requires 0 <= i < carSize => if i == at then 1 else 0)
  }

  lemma MarkingCombines(l: Digest, r: Digest, a: Byte, b: Byte, level: nat)
    requires level < 255 && l == Marked(a, level) && r == Marked(b, level)
    ensures PieceHash(MARKING)(l, r) == Marked(if a != 0 then a else b, level + 1)
  {
  }

  /** Leaves that are all zero except for one marked leaf. */
  ghost predicate OneMark(leaves: seq<Digest>, at: nat) {
    forall i: nat :: LeafAt(leaves, i) == Marked(if i == at then 1 else 0, 0)
  }

  /** The mark node i of level l carries: that of the marked leaf, if it is under the node. */
  function MarkAt(at: nat, l: nat, i: nat): Byte {
    if First(l, i) <= at < First(l, i + 1) then 1 else 0
  }

  lemma MarkOfChildren(at: nat, l: nat, i: nat)
    requires l > 0
    ensures MarkAt(at, l, i) ==
            if MarkAt(at, l - 1, 2 * i) != 0 then MarkAt(at, l - 1, 2 * i) else MarkAt(at, l - 1, 2 * i + 1)
  {
    FirstNext(l - 1, 2 * i);
    FirstNext(l - 1, 2 * i + 1);
  }

  /** Node i of level l shows its level, and whether the marked leaf is under it. */
  ghost predicate ShowsMark(leaves: seq<Digest>, at: nat, l: nat, i: nat)
    requires l < 256
  {
    Node(PieceHash(MARKING), leaves, l, i) == Marked(MarkAt(at, l, i), l)
  }

  /** That is so for every node. */
  lemma {:induction false} MarkedNode(leaves: seq<Digest>, at: nat, l: nat, i: nat)
    requires OneMark(leaves, at) && l < 256
    ensures ShowsMark(leaves, at, l, i)
    decreases l
  {
    if l > 0 {
      MarkedNode(leaves, at, l - 1, 2 * i);
      MarkedNode(leaves, at, l - 1, 2 * i + 1);
    }
    MarkedNext(leaves, at, l, i);
  }

  lemma MarkedNext(leaves: seq<Digest>, at: nat, l: nat, i: nat)
    requires OneMark(leaves, at) && l < 256
    requires l > 0 ==> ShowsMark(leaves, at, l - 1, 2 * i) && ShowsMark(leaves, at, l - 1, 2 * i + 1)
    ensures ShowsMark(leaves, at, l, i)
  {
    if l > 0 {
      MarkOfChildren(at, l, i);
      NodeOfMarked(leaves, l, i, MarkAt(at, l - 1, 2 * i), MarkAt(at, l - 1, 2 * i + 1));
    } else {
      assert Node(PieceHash(MARKING), leaves, l, i) == LeafAt(leaves, i);
    }
  }

  lemma NodeOfMarked(leaves: seq<Digest>, l: nat, i: nat, left: Byte, right: Byte)
    requires 0 < l < 256
    requires Node(PieceHash(MARKING), leaves, l - 1, 2 * i) == Marked(left, l - 1)
    requires Node(PieceHash(MARKING), leaves, l - 1, 2 * i + 1) == Marked(right, l - 1)
    ensures Node(PieceHash(MARKING), leaves, l, i) == Marked(if left != 0 then left else right, l)
  {
    MarkingCombines(Marked(left, l - 1), Marked(right, l - 1), left, right, l - 1);
  }

  lemma {:induction false} DigitOfZero(k: nat)
    ensures Digit(0, k) == 0
  {
    if k > 0 {
      DigitOfZero(k - 1);
    }
  }

  lemma {:induction false} ToLEZero(len: nat)
    ensures ToLE(0, len) == Zeros(len)
  {
    if len > 0 {
      ToLEZero(len - 1);
    }
  }

  lemma ToLEOne(len: nat)
    requires len > 0
    ensures ToLE(1, len) == [1] + Zeros(len - 1)
  {
    ToLEZero(len - 1);
  }

  lemma DigitOfMark(n: nat, k: nat)
    requires n <= 1
    ensures Digit(n, k) == if n == 1 && k == 0 then 1 else 0
  {
  }

  /** The nodes of a slab that spells 0 or 1. */
  lemma NodeOfMark(n: nat, k: nat)
    requires n <= 1
    ensures NodeOf(n, k) == Marked(if n == 1 && k == 0 then 1 else 0, 0)
  {
    DigitOfMark(n, k);
    ToLEZero(NODE_SIZE);
    ToLEOne(NODE_SIZE);
  }

  lemma MarkedSlab(carSize: nat, o: nat, j: nat)
    requires o < SlabCount(carSize) && j < SlabCount(carSize)
    ensures LE(Slab(MarkedCar(carSize, SOURCE_CHUNK_SIZE * o), j)) == if j == o then 1 else 0
  {
    var s := Slab(MarkedCar(carSize, SOURCE_CHUNK_SIZE * o), j);
    if j == o {
      assert s == [1] + Zeros(|s| - 1);
      assert s[1..] == Zeros(|s| - 1);
      LEZeros(s[1..]);
    } else {
      LEZeros(s);
    }
  }

  /** The marked CAR has one marked leaf: the first of the chunk. */
  lemma MarkedBlocks(carSize: nat, o: nat)
    requires o < SlabCount(carSize)
    ensures OneMark(Blocks(MarkedCar(carSize, SOURCE_CHUNK_SIZE * o)), CHUNK_NODES_NUM * o)
  {
    var car := MarkedCar(carSize, SOURCE_CHUNK_SIZE * o);
    forall i: nat
      ensures LeafAt(Blocks(car), i) == Marked(if i == CHUNK_NODES_NUM * o then 1 else 0, 0)
    {
      if i < |Blocks(car)| {
        MarkedSlab(carSize, o, i / CHUNK_NODES_NUM);
        NodeOfMark(if i / CHUNK_NODES_NUM == o then 1 else 0, i % CHUNK_NODES_NUM);
      } else {
        assert Zeros(32) == Marked(0, 0);
      }
    }
  }

  /** Seen on its own, the chunk is marked in its first leaf. */
  lemma MarkedChunk(carSize: U64, leafIndex: nat)
    requires leafIndex < carSize / NODE_SIZE
    ensures ChunkOffset(carSize, leafIndex) < carSize
    ensures var car := MarkedCar(carSize, ChunkOffset(carSize, leafIndex));
      && OneMark(Blocks(car), CHUNK_NODES_NUM * SlabsBefore(carSize, leafIndex))
      && OneMark(Blocks(ChunkOf(car, leafIndex)), 0)
  {
    AddressInRange(carSize, leafIndex);
    ChunkOnSlabs(carSize, leafIndex);
    var offset := ChunkOffset(carSize, leafIndex);
    MarkedBlocks(carSize, SlabsBefore(carSize, leafIndex));
    var chunk := ChunkOf(MarkedCar(carSize, offset), leafIndex);
    assert chunk == MarkedCar(|chunk|, SOURCE_CHUNK_SIZE * 0);
    MarkedBlocks(|chunk|, 0);
  }

  // ----- the exact condition

  /** Two marked nodes are the same only if their levels and marks are. */
  lemma MarkedApart(a: Byte, l: nat, b: Byte, m: nat)
    requires l < 256 && m < 256 && (a != b || l != m)
    ensures Marked(a, l) != Marked(b, m)
  {
    assert Marked(a, l)[0] == a && Marked(b, m)[0] == b;
    assert Marked(a, l)[1] == l as Byte && Marked(b, m)[1] == m as Byte;
  }

  /** A mark that stands on a boundary of level start is on the left edge of every node it is under, up to there. */
  lemma MarkOnLeftEdge(at: nat, start: nat, q: nat, l: nat, j: nat)
    requires at == q * Pow2(start) && 0 < l <= start && MarkAt(at, l, j) == 1
    ensures MarkAt(at, l - 1, 2 * j) == 1
  {
    var p := Pow2(l);
    FirstIsMultiple(l, j);
    FirstNext(l, j);
    FirstNext(l - 1, 2 * j);
    Pow2Add(start - l, l);
    MulAssoc(q, Pow2(start - l), p);
    DivUnique(at, p, q * Pow2(start - l), 0);
    DivUnique(at, p, j, at - j * p);
  }

  /** So up to there a node's mark is its left child's, and its right child has none. */
  lemma ChildMarks(at: nat, start: nat, q: nat, l: nat, j: nat)
    requires at == q * Pow2(start) && 0 < l <= start
    ensures MarkAt(at, l - 1, 2 * j) == MarkAt(at, l, j) && MarkAt(at, l - 1, 2 * j + 1) == 0
  {
    MarkOfChildren(at, l, j);
    if MarkAt(at, l, j) == 1 {
      MarkOnLeftEdge(at, start, q, l, j);
    }
  }

  lemma MarkedChildren(leaves: seq<Digest>, at: nat, start: nat, q: nat, l: nat, j: nat)
    requires OneMark(leaves, at) && at == q * Pow2(start) && 0 < l <= start < 256
    ensures Node(PieceHash(MARKING), leaves, l - 1, 2 * j) == Marked(MarkAt(at, l, j), l - 1)
    ensures Node(PieceHash(MARKING), leaves, l - 1, 2 * j + 1) == Marked(0, l - 1)
  {
    MarkedNode(leaves, at, l - 1, 2 * j);
    MarkedNode(leaves, at, l - 1, 2 * j + 1);
    ChildMarks(at, start, q, l, j);
  }

  /** The marking hash has no clash on the marked CAR. */
  lemma MarkedNoClash(chunk: seq<Digest>, all: seq<Digest>, at: nat, d: nat, shift: nat, q: nat)
    requires OneMark(chunk, 0) && OneMark(all, at) && at == q * Pow2(d + shift) && d + shift < 256
    ensures NoClash(PieceHash(MARKING), chunk, all, d, shift)
  {
    forall l: nat, i: nat, j: nat | 0 < l <= d
      ensures ChildrenAgree(PieceHash(MARKING), chunk, all, l, shift, i, j)
    {
      MarkedNode(chunk, 0, l, i);
      MarkedNode(all, at, l + shift, j);
      if shift == 0 && MarkAt(0, l, i) == MarkAt(at, l, j) {
        MarkedChildren(chunk, 0, d, 0, l, i);
        MarkedChildren(all, at, d, q, l, j);
      } else {
        MarkedApart(MarkAt(0, l, i), l, MarkAt(at, l + shift, j), l + shift);
      }
    }
  }

  /** No other indexed node repeats the marked chunk. */
  lemma MarkedApartFrom(chunk: seq<Digest>, all: seq<Digest>, at: nat, d: nat, shift: nat, q: nat, i: nat)
    requires OneMark(chunk, 0) && OneMark(all, at) && at == q * Pow2(d + shift) && d + shift < 256
    requires shift == 0 ==> i < q
    ensures !Repeats(PieceHash(MARKING), chunk, all, d, shift, i)
  {
    var first := First(d, i);
    MarkedNode(all, at, shift, first);
    if shift == 0 {
      FirstIsMultiple(d, i);
      MultiplesDiffer(i, q, Pow2(d));
    }
    MarkedApart(1, 0, MarkAt(at, shift, first), shift);
    assert LeafAt(chunk, 0) == Marked(1, 0);
  }

  lemma MultiplesDiffer(i: nat, q: nat, p: nat)
    requires i < q && p > 0
    ensures i * p < q * p
  {
  }

  /** Without more than half a chunk, or without an index entry, some CAR of this size has no proof. */
  lemma SomeCarHasNoProof(carSize: U64, leafIndex: nat, indexed: nat)
    requires leafIndex < carSize / NODE_SIZE
    requires CarCacheLayerStart(carSize) <= Depth(BlockCount(carSize))
    requires indexed <= Width(BlockCount(carSize), CarCacheLayerStart(carSize))
    requires !MoreThanHalf(carSize, leafIndex) || indexed <= ChunkIndex(carSize, leafIndex)
    ensures !AlwaysProvable(carSize, leafIndex, indexed)
  {
    MarkedChunk(carSize, leafIndex);
    var car := MarkedCar(carSize, ChunkOffset(carSize, leafIndex));
    var chunk := Blocks(ChunkOf(car, leafIndex));
    LeafIsBlock(car, leafIndex);
    TreeDepth(car, leafIndex, Depth(|chunk|));
    ChunkDepthBound(car, leafIndex);
    var d, q := Depth(|chunk|), ChunkIndex(carSize, leafIndex);
    var shift := CarCacheLayerStart(carSize) - d;
    MarkPlace(carSize, leafIndex);
    MarkedNoClash(chunk, Blocks(car), CHUNK_NODES_NUM * SlabsBefore(carSize, leafIndex), d, shift, q);
    forall i: nat | i < indexed
      ensures !Repeats(PieceHash(MARKING), chunk, Blocks(car), d, shift, i)
    {
      MarkedApartFrom(chunk, Blocks(car), CHUNK_NODES_NUM * SlabsBefore(carSize, leafIndex), d, shift, q, i);
    }
    NoProofIn(carSize, leafIndex, indexed, MARKING, car, d, shift);
  }

  lemma MarkPlace(carSize: nat, leafIndex: nat)
    ensures CHUNK_NODES_NUM * SlabsBefore(carSize, leafIndex) ==
            ChunkIndex(carSize, leafIndex) * Pow2(CarCacheLayerStart(carSize))
  {
    ChunkOnSlabs(carSize, leafIndex);
    LayersMeet(carSize);
  }

  lemma ChunkDepthBound(car: Bytes, leafIndex: nat)
    requires |car| < TWO_64 && leafIndex < |car| / NODE_SIZE && ChunkOffset(|car|, leafIndex) <= |car|
    ensures Depth(|Blocks(ChunkOf(car, leafIndex))|) <= CarCacheLayerStart(|car|)
  {
    ChunkBlocks(car, leafIndex);
    ChunkDepth(|car|, leafIndex);
  }

  /** A CAR on which a hash has no clash and no indexed node repeats the chunk refutes provability. */
  lemma NoProofIn(carSize: U64, leafIndex: nat, indexed: nat, sha: Sha, car: Bytes, d: nat, shift: nat)
    requires leafIndex < carSize / NODE_SIZE && |car| == carSize
    requires ChunkOffset(carSize, leafIndex) <= carSize && |Blocks(ChunkOf(car, leafIndex))| > 0
    requires d == Depth(|Blocks(ChunkOf(car, leafIndex))|) && d + shift == CarCacheLayerStart(carSize)
    requires NoClash(PieceHash(sha), Blocks(ChunkOf(car, leafIndex)), Blocks(car), d, shift)
    requires forall i: nat :: i < indexed ==>
      !Repeats(PieceHash(sha), Blocks(ChunkOf(car, leafIndex)), Blocks(car), d, shift, i)
    requires CarCacheLayerStart(carSize) <= Depth(BlockCount(carSize))
    requires indexed <= Width(BlockCount(carSize), CarCacheLayerStart(carSize))
    ensures !AlwaysProvable(carSize, leafIndex, indexed)
  {
    var h := PieceHash(sha);
    var cache := NewLevelCache(h, Blocks(car), CarCacheLayerStart(carSize), indexed).value;
    var tree := NewWithPadding(h, Blocks(ChunkOf(car, leafIndex))).value;
    ProvableUnder(h, car, cache, indexed, leafIndex, tree, shift);
    assert ProofSetting(PieceHash(sha), car, cache, tree, carSize, leafIndex, indexed);
  }

  lemma ProvableWhenWhole(carSize: U64, leafIndex: nat, indexed: nat)
    requires leafIndex < carSize / NODE_SIZE
    requires MoreThanHalf(carSize, leafIndex) && ChunkIndex(carSize, leafIndex) < indexed
    ensures AlwaysProvable(carSize, leafIndex, indexed)
  {
    forall sha: Sha, car: Bytes, cache: LevelCache, chunkTree: Tree
      | ProofSetting(PieceHash(sha), car, cache, chunkTree, carSize, leafIndex, indexed)
      ensures ProveLeaf(chunkTree, cache, LeafAt(Blocks(car), leafIndex)).Ok?
    {
      LeafIsBlock(car, leafIndex);
      LeafGetsProof(PieceHash(sha), car, cache, indexed, leafIndex, chunkTree);
    }
  }

  /** The exact condition, for every CAR size for which a cache exists and every leaf of it. */
  lemma ProvableExactly(carSize: U64, leafIndex: nat, indexed: nat)
    requires leafIndex < carSize / NODE_SIZE
    requires CarCacheLayerStart(carSize) <= Depth(BlockCount(carSize))
    requires indexed <= Width(BlockCount(carSize), CarCacheLayerStart(carSize))
    ensures AlwaysProvable(carSize, leafIndex, indexed) <==>
            MoreThanHalf(carSize, leafIndex) && ChunkIndex(carSize, leafIndex) < indexed
  {
    if MoreThanHalf(carSize, leafIndex) && ChunkIndex(carSize, leafIndex) < indexed {
      ProvableWhenWhole(carSize, leafIndex, indexed);
    } else {
      SomeCarHasNoProof(carSize, leafIndex, indexed);
    }
  }

  /** A chunk is full exactly when the CAR has all the nodes under the chunk's node. */
  lemma FullChunk(carSize: U64, leafIndex: nat)
    requires leafIndex < carSize / NODE_SIZE
    ensures ChunkIndex(carSize, leafIndex) < BlockCount(carSize) / Pow2(CarCacheLayerStart(carSize)) <==>
            ChunkNodes(carSize, leafIndex) == CarChunkParams(carSize).1
  {
    var n, w, q := BlockCount(carSize), Pow2(CarCacheLayerStart(carSize)), ChunkIndex(carSize, leafIndex);
    AddressInRange(carSize, leafIndex);
    ChunkOnSlabs(carSize, leafIndex);
    LayersMeet(carSize);
    WholeParts(n, w, q);
  }

  lemma WholeParts(n: nat, w: nat, q: nat)
    requires w > 0
    ensures q < n / w <==> q * w + w <= n
  {
    var k := n / w;
    assert n == k * w + n % w;
    assert (q + 1) * w == q * w + w;
    if q < k {
      MulMonotone(q + 1, k, w);
    } else {
      MulMonotone(k, q, w);
    }
  }

  lemma WholePartsAreCovered(n: nat, start: nat)
    ensures n / Pow2(start) <= Width(n, start)
  {
    var k := n / Pow2(start);
    if k > 0 {
      WholeParts(n, Pow2(start), k - 1);
      FirstIsMultiple(start, k - 1);
      WidthCovers(n, start, k - 1);
    }
  }

  /** With a cache that indexes only nodes over leaves that are all there, it takes a full chunk. */
  lemma ProvableWhenFull(carSize: U64, leafIndex: nat, indexed: nat)
    requires leafIndex < carSize / NODE_SIZE
    requires CarCacheLayerStart(carSize) <= Depth(BlockCount(carSize))
    requires indexed == BlockCount(carSize) / Pow2(CarCacheLayerStart(carSize))
    ensures AlwaysProvable(carSize, leafIndex, indexed) <==>
            ChunkNodes(carSize, leafIndex) == CarChunkParams(carSize).1
  {
    FullChunk(carSize, leafIndex);
    WholePartsAreCovered(BlockCount(carSize), CarCacheLayerStart(carSize));
    FullIsMoreThanHalf(carSize, leafIndex);
    ProvableExactly(carSize, leafIndex, indexed);
  }

  lemma FullIsMoreThanHalf(carSize: nat, leafIndex: nat)
    ensures ChunkNodes(carSize, leafIndex) == CarChunkParams(carSize).1 ==> MoreThanHalf(carSize, leafIndex)
  {
  }
}
