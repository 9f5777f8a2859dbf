/**
 The commitment tree: the truncated hash, the tower of all-zero subtree roots, and PadCommP,
 which lifts a piece commitment to a larger piece without seeing the piece.
 */
module PieceTree {
  import opened Bytes
  import opened Fr32

  const MAX_LAYERS := 31
  const MAX_PIECE_SIZE := 0x10_0000_0000

  /** A 32-byte hash of byte strings: a parameter of the model. */
  type Sha = Bytes -> Digest

  /** The hash of two neighbouring nodes. */
  type NodeHash = (Bytes, Bytes) -> Digest

  /** The hash with the two top bits of the last byte cleared. */
  function NewHashFunc(sha: Sha, data: Bytes): Digest
  {
    var r := sha(data);
    r[31 := ByteAnd(r[31], 0x3F)]
  }

  /** The node hash of commitment trees: truncated, over the two nodes written one after the other. */
  function PieceHash(sha: Sha): NodeHash {
    (left: Bytes, right: Bytes) => NewHashFunc(sha, left + right)
  }

  /** Truncating cuts the hash down to its low 254 bits. */
  lemma HashIsTruncated(sha: Sha, data: Bytes)
    ensures LE(NewHashFunc(sha, data)) == LE(sha(data)) % FIELD
    ensures InField(NewHashFunc(sha, data))
  {
    var t, e := sha(data), NewHashFunc(sha, data);
    TopByteCut(t, e);
    FieldBytes(|t|);
    LowBits(LE(t[..31]), Val(t[31]), Pow2(8 * (|t| - 1)));
  }

  lemma LowBits(low: nat, top: nat, w: nat)
    requires low < w
    ensures (low + w * top) % (64 * w) == low + w * (top % 64) < 64 * w
  {
    var q, r := top / 64, top % 64;
    assert w * top == q * (64 * w) + w * r by { assert top == 64 * q + r; }
    MulMonotone(r, 63, w);
    DivUnique(low + w * top, 64 * w, q, low + w * r);
  }

  /** A number of at most 254 bits: an element of the field the proofs are about. */
  predicate InField(b: Bytes) {
    LE(b) < FIELD
  }

  lemma ZerosInField(n: nat)
    ensures InField(Zeros(n))
  {
    LEZeros(Zeros(n));
  }

  // ----- the tower

  /** Root of a tree of 2^i zero leaves. */
  function Nul(h: NodeHash, i: nat): Digest
  {
    if i == 0 then Zeros(32) else h(Nul(h, i - 1), Nul(h, i - 1))
  }

  /** The tower as it stands after initialisation; a slot that was never set is empty. */
  ghost predicate IsTower(h: NodeHash, tower: seq<Bytes>)
  {
    |tower| == MAX_LAYERS && forall i :: 0 <= i < MAX_LAYERS ==> tower[i] == Nul(h, i)
  }

  method InitStackedNulPadding(sha: Sha, tower: array<Bytes>)
    requires tower.Length == MAX_LAYERS
    modifies tower
    ensures IsTower(PieceHash(sha), tower[..])
  {
    tower[0] := Zeros(32);
    for i := 1 to tower.Length
      invariant forall j :: 0 <= j < i ==> IsNul(sha, tower[j], j)
    {
      var below := tower[i - 1];
      NulNext(sha, i, below);
      tower[i] := NewHashFunc(sha, below + below);
    }
  }

  ghost predicate IsNul(sha: Sha, entry: Bytes, i: nat) {
    entry == Nul(PieceHash(sha), i)
  }

  lemma NulNext(sha: Sha, i: nat, below: Bytes)
    requires i > 0 && IsNul(sha, below, i - 1)
    ensures IsNul(sha, NewHashFunc(sha, below + below), i)
  {
  }

  /** Every entry of the tower has 254 bits. */
  lemma TowerInField(sha: Sha, tower: seq<Bytes>)
    requires IsTower(PieceHash(sha), tower)
    ensures forall i :: 0 <= i < |tower| ==> InField(tower[i])
  {
    forall i | 0 <= i < |tower|
      ensures InField(tower[i])
    {
      NulInField(sha, i);
    }
  }

  lemma NulInField(sha: Sha, i: nat)
    ensures InField(Nul(PieceHash(sha), i))
  {
    if i == 0 {
      ZerosInField(32);
    } else {
      HashIsTruncated(sha, Nul(PieceHash(sha), i - 1) + Nul(PieceHash(sha), i - 1));
    }
  }

  // ----- the reference tree

  /** Leaf i, every missing leaf being zero. */
  function LeafAt(leaves: seq<Digest>, i: nat): Digest {
    if i < |leaves| then leaves[i] else Zeros(32)
  }

  /** Node i of level l of the tree over leaves. */
  function Node(h: NodeHash, leaves: seq<Digest>, l: nat, i: nat): Digest
    decreases l
  {
    if l == 0 then LeafAt(leaves, i)
    else h(Node(h, leaves, l - 1, 2 * i), Node(h, leaves, l - 1, 2 * i + 1))
  }

  /** Over leaves of 254 bits, every node of a tree has 254 bits. */
  lemma NodeInField(sha: Sha, leaves: seq<Digest>, l: nat, i: nat)
    requires forall k :: 0 <= k < |leaves| ==> InField(leaves[k])
    ensures InField(Node(PieceHash(sha), leaves, l, i))
  {
    if l == 0 {
      ZerosInField(32);
    } else {
      var h := PieceHash(sha);
      HashIsTruncated(sha, Node(h, leaves, l - 1, 2 * i) + Node(h, leaves, l - 1, 2 * i + 1));
    }
  }

  /** The first leaf under node i of level l. */
  function First(l: nat, i: nat): nat
    decreases l
  {
    if l == 0 then i else First(l - 1, 2 * i)
  }

  lemma {:induction false} FirstNext(l: nat, i: nat)
    ensures First(l, i + 1) == First(l, i) + Pow2(l)
    decreases l
  {
    if l > 0 {
      FirstNext(l - 1, 2 * i);
      FirstNext(l - 1, 2 * i + 1);
    }
  }

  lemma {:induction false} FirstIsMultiple(l: nat, i: nat)
    ensures First(l, i) == i * Pow2(l)
    decreases l
  {
    if l > 0 {
      FirstIsMultiple(l - 1, 2 * i);
      MulAssoc(i, 2, Pow2(l - 1));
    }
  }

  lemma {:induction false} FirstZero(l: nat)
    ensures First(l, 0) == 0
  {
    if l > 0 {
      FirstZero(l - 1);
    }
  }

  /** Root of a full binary tree over exactly 2^l leaves. */
  function PerfectRoot(h: NodeHash, leaves: seq<Digest>, l: nat): Digest
    requires |leaves| == Pow2(l)
    decreases l
  {
    if l == 0 then leaves[0]
    else
      var half := Pow2(l - 1);
      h(PerfectRoot(h, leaves[..half], l - 1), PerfectRoot(h, leaves[half..], l - 1))
  }

  function ZeroLeaves(n: nat): seq<Digest> {
    seq(n, _ => Zeros(32))
  }

  /** Subtrees past the last leaf are the tower. */
  lemma {:induction false} NodeBeyond(h: NodeHash, leaves: seq<Digest>, l: nat, i: nat)
    requires |leaves| <= First(l, i)
    ensures Node(h, leaves, l, i) == Nul(h, l)
    decreases l
  {
    if l > 0 {
      FirstNext(l - 1, 2 * i);
      NodeBeyond(h, leaves, l - 1, 2 * i);
      NodeBeyond(h, leaves, l - 1, 2 * i + 1);
    }
  }

  /** n leaves of a from i on equal n leaves of b from j on. */
  ghost predicate SameLeaves(a: seq<Digest>, i: nat, b: seq<Digest>, j: nat, n: nat) {
    forall m :: i <= m < i + n ==> LeafAt(a, m) == LeafAt(b, m - i + j)
  }

  /** A node only depends on the leaves under it. */
  lemma {:induction false} NodeOfLeaves(h: NodeHash, a: seq<Digest>, b: seq<Digest>, l: nat, i: nat, j: nat)
    requires SameLeaves(a, First(l, i), b, First(l, j), Pow2(l))
    ensures Node(h, a, l, i) == Node(h, b, l, j)
    decreases l
  {
    if l > 0 {
      SameHalves(a, b, l, i, j);
      NodeOfLeaves(h, a, b, l - 1, 2 * i, 2 * j);
      NodeOfLeaves(h, a, b, l - 1, 2 * i + 1, 2 * j + 1);
    }
  }

  lemma SameHalves(a: seq<Digest>, b: seq<Digest>, l: nat, i: nat, j: nat)
    requires l > 0 && SameLeaves(a, First(l, i), b, First(l, j), Pow2(l))
    ensures SameLeaves(a, First(l - 1, 2 * i), b, First(l - 1, 2 * j), Pow2(l - 1))
    ensures SameLeaves(a, First(l - 1, 2 * i + 1), b, First(l - 1, 2 * j + 1), Pow2(l - 1))
  {
    FirstNext(l - 1, 2 * i);
    FirstNext(l - 1, 2 * j);
  }

  /** Node 0 of level l is the root of the full tree over 2^l leaves. */
  lemma {:induction false} NodeIsPerfectRoot(h: NodeHash, leaves: seq<Digest>, l: nat)
    requires |leaves| == Pow2(l)
    ensures Node(h, leaves, l, 0) == PerfectRoot(h, leaves, l)
    decreases l
  {
    if l > 0 {
      var p := Pow2(l - 1);
      var left, right := leaves[..p], leaves[p..];
      NodeIsPerfectRoot(h, left, l - 1);
      NodeIsPerfectRoot(h, right, l - 1);
      HalfNodes(h, leaves, l, left, right);
    }
  }

  lemma HalfNodes(h: NodeHash, leaves: seq<Digest>, l: nat, left: seq<Digest>, right: seq<Digest>)
    requires l > 0 && |left| == |right| == Pow2(l - 1) && leaves == left + right
    ensures Node(h, leaves, l - 1, 0) == Node(h, left, l - 1, 0)
    ensures Node(h, leaves, l - 1, 1) == Node(h, right, l - 1, 0)
  {
    FirstZero(l - 1);
    FirstNext(l - 1, 0);
    NodeOfLeaves(h, leaves, left, l - 1, 0, 0);
    NodeOfLeaves(h, leaves, right, l - 1, 1, 0);
  }

  // ----- lifting

  /** Climbing from level a to level b, an all-zero subtree on the right at each step. */
  function Lift(h: NodeHash, tower: seq<Bytes>, node: Digest, a: nat, b: nat): Digest
    requires a <= b <= |tower|
  {
    if a == b then node else h(Lift(h, tower, node, a, b - 1), tower[b - 1])
  }

  lemma LiftInField(sha: Sha, tower: seq<Bytes>, node: Digest, a: nat, b: nat)
    requires a <= b <= |tower| && InField(node)
    ensures InField(Lift(PieceHash(sha), tower, node, a, b))
  {
    if a < b {
      HashIsTruncated(sha, Lift(PieceHash(sha), tower, node, a, b - 1) + tower[b - 1]);
    }
  }

  /** Lifting in two stages is lifting once. */
  lemma {:induction false} LiftInStages(h: NodeHash, tower: seq<Bytes>, node: Digest, a: nat, b: nat, c: nat)
    requires a <= b <= c <= |tower|
    ensures Lift(h, tower, Lift(h, tower, node, a, b), b, c) == Lift(h, tower, node, a, c)
    decreases c
  {
    if b < c {
      LiftInStages(h, tower, node, a, b, c - 1);
    }
  }

  lemma {:induction false} LiftIsNode(h: NodeHash, tower: seq<Bytes>, leaves: seq<Digest>, a: nat, b: nat)
    requires IsTower(h, tower) && a <= b <= MAX_LAYERS
    requires |leaves| <= Pow2(a)
    ensures Same(Lift(h, tower, Node(h, leaves, a, 0), a, b), Node(h, leaves, b, 0))
    decreases b
  {
    if a < b {
      LiftIsNode(h, tower, leaves, a, b - 1);
      RightIsNul(h, leaves, a, b - 1);
    }
  }

  lemma RightIsNul(h: NodeHash, leaves: seq<Digest>, a: nat, l: nat)
    requires |leaves| <= Pow2(a) && a <= l
    ensures Node(h, leaves, l, 1) == Nul(h, l)
  {
    Pow2Monotone(a, l);
    FirstZero(l);
    FirstNext(l, 0);
    NodeBeyond(h, leaves, l, 1);
  }

  lemma ExtendedRoot(h: NodeHash, leaves: seq<Digest>, b: nat, n: nat)
    requires |leaves| + n == Pow2(b)
    ensures Node(h, leaves, b, 0) == PerfectRoot(h, leaves + ZeroLeaves(n), b)
  {
    var longer := leaves + ZeroLeaves(n);
    NodeIsPerfectRoot(h, longer, b);
    NodeOfLeaves(h, leaves, longer, b, 0, 0);
  }

  /** Lifting the node over all leaves gives the root over them and zero leaves up to 2^b. */
  lemma LiftExtends(h: NodeHash, tower: seq<Bytes>, leaves: seq<Digest>, a: nat, b: nat, n: nat)
    requires IsTower(h, tower) && a <= b <= MAX_LAYERS
    requires |leaves| <= Pow2(a) && |leaves| + n == Pow2(b)
    ensures Lift(h, tower, Node(h, leaves, a, 0), a, b) == PerfectRoot(h, leaves + ZeroLeaves(n), b)
  {
    LiftIsNode(h, tower, leaves, a, b);
    ExtendedRoot(h, leaves, b, n);
  }

  /** Lifting the root of 2^a leaves gives the root of those leaves and zero leaves up to 2^b. */
  lemma LiftRebuildsExtendedTree(h: NodeHash, tower: seq<Bytes>, leaves: seq<Digest>, a: nat, b: nat)
    requires IsTower(h, tower) && a <= b <= MAX_LAYERS
    requires |leaves| == Pow2(a)
    ensures Pow2(a) <= Pow2(b)
    ensures Lift(h, tower, PerfectRoot(h, leaves, a), a, b)
         == PerfectRoot(h, leaves + ZeroLeaves(Pow2(b) - Pow2(a)), b)
  {
    Pow2Monotone(a, b);
    NodeIsPerfectRoot(h, leaves, a);
    LiftExtends(h, tower, leaves, a, b, Pow2(b) - Pow2(a));
  }

  // ----- powers of two in a machine word

  /** The number of set bits of a 64-bit word. */
  function OnesCount64(n: nat): nat {
    if n == 0 then 0 else n % 2 + OnesCount64(n / 2)
  }

  /** The number of low zero bits of a 64-bit word. */
  function TrailingZeros64(n: U64): nat {
    if n == 0 then 64 else if n % 2 == 1 then 0 else 1 + TrailingZeros64(n / 2)
  }

  lemma {:induction false} OneBit(n: U64)
    ensures OnesCount64(n) == 1 ==> n == Pow2(TrailingZeros64(n))
  {
    if n > 1 {
      if n % 2 == 0 {
        OneBit(n / 2);
      } else {
        SomeBit(n / 2);
      }
    }
  }

  lemma {:induction false} SomeBit(n: nat)
    requires n > 0
    ensures OnesCount64(n) > 0
  {
    if n > 1 {
      SomeBit(n / 2);
    }
  }

  lemma WordPowers()
    ensures Pow2(7) == 128 && Pow2(36) == MAX_PIECE_SIZE && Pow2(64) == TWO_64
  {
    SmallPowers();
    Pow2Add(8, 8); Pow2Add(16, 16); Pow2Add(32, 32); Pow2Add(32, 4);
  }

  lemma PowerFits(k: nat)
    ensures k < 64 <==> Pow2(k) < TWO_64
  {
    WordPowers();
    if k < 64 {
      Pow2Monotone(k, 64);
    } else {
      Pow2Monotone(64, k);
    }
  }

  lemma {:induction false} PowerHasOneBit(k: nat)
    requires Pow2(k) < TWO_64
    ensures OnesCount64(Pow2(k)) == 1 && TrailingZeros64(Pow2(k)) == k
  {
    if k > 0 {
      var p := Pow2(k - 1);
      PowerHasOneBit(k - 1);
      assert (2 * p) / 2 == p && (2 * p) % 2 == 0;
    }
  }

  /** Exponents are ordered as their powers are. */
  lemma ExponentOrder(a: nat, b: nat)
    requires Pow2(a) <= Pow2(b)
    ensures a <= b
  {
  }

  ghost predicate IsPowerOfTwo(n: nat) {
    exists k: nat :: k < 64 && n == Pow2(k)
  }

  lemma PowerOfTwoTest(n: U64)
    ensures OnesCount64(n) == 1 <==> IsPowerOfTwo(n)
    ensures IsPowerOfTwo(n) ==> n == Pow2(TrailingZeros64(n)) && TrailingZeros64(n) < 64
  {
    OneBit(n);
    if OnesCount64(n) == 1 {
      PowerFits(TrailingZeros64(n));
    }
    if k: nat :| k < 64 && n == Pow2(k) {
      PowerFits(k);
      PowerHasOneBit(k);
    }
  }

  lemma SmallestPiece(s: nat)
    requires 128 <= Pow2(s)
    ensures 7 <= s
  {
    WordPowers();
    if s < 7 {
      Pow2Monotone(s, 7);
    }
  }

  lemma LargestPiece(t: nat)
    requires Pow2(t) <= MAX_PIECE_SIZE
    ensures t <= 36
  {
    WordPowers();
    if t > 36 {
      Pow2Monotone(36, t);
    }
  }

  // ----- the operation

  /** What PadCommP demands of its arguments. */
  ghost predicate Liftable(commP: Bytes, source: nat, target: nat)
  {
    && |commP| == 32
    && IsPowerOfTwo(source) && IsPowerOfTwo(target)
    && 128 <= source <= target <= 0x10_0000_0000
  }

  /**
   Whatever the tower holds, the result climbs from the level of the source piece to the level of
   the target piece; the tower index never leaves its 31 entries.
   */
  method PadCommP(sha: Sha, tower: array<Bytes>, sourceCommP: Bytes, sourcePaddedSize: U64, targetPaddedSize: U64)
    returns (r: Result<Digest>)
    requires tower.Length == MAX_LAYERS
    ensures r.Ok? <==> Liftable(sourceCommP, sourcePaddedSize, targetPaddedSize)
    ensures forall a: nat, b: nat :: r.Ok? && sourcePaddedSize == 32 * Pow2(a) && targetPaddedSize == 32 * Pow2(b) ==>
      a <= b <= MAX_LAYERS && r.value == Lift(PieceHash(sha), tower[..], sourceCommP, a, b)
    ensures r.Ok? && InField(sourceCommP) ==> InField(r.value)
  {
    ghost var h := PieceHash(sha);
    PowerOfTwoTest(sourcePaddedSize);
    PowerOfTwoTest(targetPaddedSize);
    if |sourceCommP| != 32 {
      return Err("provided commP must be exactly 32 bytes long");
    }
    if OnesCount64(sourcePaddedSize) != 1 {
      return Err("source padded size is not a power of 2");
    }
    if OnesCount64(targetPaddedSize) != 1 {
      return Err("target padded size is not a power of 2");
    }
    if sourcePaddedSize > targetPaddedSize {
      return Err("source padded size larger than target padded size");
    }
    if sourcePaddedSize < 128 {
      return Err("source padded size smaller than the minimum of 128 bytes");
    }
    if targetPaddedSize > MAX_PIECE_SIZE {
      return Err("target padded size larger than Filecoin maximum");
    }
    ghost var a, b := TrailingZeros64(sourcePaddedSize) - 5, TrailingZeros64(targetPaddedSize) - 5;
    SmallestPiece(TrailingZeros64(sourcePaddedSize));
    ExponentOrder(TrailingZeros64(sourcePaddedSize), TrailingZeros64(targetPaddedSize));
    LargestPiece(TrailingZeros64(targetPaddedSize));
    LevelOfSize(sourcePaddedSize, a);
    LevelOfSize(targetPaddedSize, b);
    if sourcePaddedSize == targetPaddedSize {
      return Ok(sourceCommP);
    }
    var out: Digest := sourceCommP;
    var s, t := TrailingZeros64(sourcePaddedSize), TrailingZeros64(targetPaddedSize);
    while s < t
      invariant a + 5 <= s <= t == b + 5
      invariant out == Lift(h, tower[..], sourceCommP, a, s - 5)
    {
      out := NewHashFunc(sha, out + tower[s - 5]);
      s := s + 1;
    }
    if InField(sourceCommP) {
      LiftInField(sha, tower[..], sourceCommP, a, b);
    }
    return Ok(out);
  }

  /** A size of 2^(a+5) bytes is 2^a nodes, and no other number of nodes. */
  lemma LevelOfSize(size: nat, a: nat)
    requires size == Pow2(a + 5)
    ensures forall x: nat :: size == 32 * Pow2(x) ==> x == a
  {
    SmallPowers();
    Pow2Add(5, a);
    forall x: nat | size == 32 * Pow2(x)
      ensures x == a
    {
      ExponentOrder(x, a);
      ExponentOrder(a, x);
    }
  }
}
