/**
 Reference definitions for the Merkle library the service calls: the padded tree, proofs looked up
 by leaf value, the cache of upper levels, and appended proofs. A set path bit means that the
 node is a left child.
 */
module MerkleTree {
  import opened Bytes
  import opened PieceTree

  // ----- shape

  /** ceil(log2 n). */
  function Depth(n: nat): nat {
    if n <= 1 then 0 else 1 + Depth((n + 1) / 2)
  }

  /** How many nodes of level l stand over at least one of n leaves. */
  function Width(n: nat, l: nat): nat {
    if l == 0 then n else (Width(n, l - 1) + 1) / 2
  }

  lemma {:induction false} DepthBounds(n: nat)
    requires n > 0
    ensures n <= Pow2(Depth(n))
    ensures Depth(n) > 0 ==> Pow2(Depth(n) - 1) < n
  {
    if n > 1 {
      DepthBounds((n + 1) / 2);
    }
  }

  lemma {:induction false} DepthExact(n: nat, d: nat)
    requires n > 0 && n <= Pow2(d) && (d > 0 ==> Pow2(d - 1) < n)
    ensures Depth(n) == d
  {
    DepthBounds(n);
    if Depth(n) < d {
      Pow2Monotone(Depth(n), d - 1);
    } else if d < Depth(n) {
      Pow2Monotone(d, Depth(n) - 1);
    }
  }

  lemma {:induction false} WidthDepth(n: nat, l: nat)
    requires n > 0 && l <= Depth(n)
    ensures Width(n, l) > 0 && Depth(n) == l + Depth(Width(n, l))
    ensures l < Depth(n) <==> Width(n, l) > 1
    decreases l
  {
    if l > 0 {
      WidthDepth(n, l - 1);
    }
  }

  /** Node i of level l stands over a leaf exactly when i is below the level's width. */
  lemma {:induction false} WidthCovers(n: nat, l: nat, i: nat)
    ensures First(l, i) < n <==> i < Width(n, l)
    decreases l
  {
    if l > 0 {
      WidthCovers(n, l - 1, 2 * i);
    }
  }

  // ----- the levels the library builds

  function EvenUp(w: nat): nat {
    if w > 1 && w % 2 == 1 then w + 1 else w
  }

  /** A level with an odd number of nodes, unless it is the root, gets one nul subtree. */
  function Evened(s: seq<Digest>, nul: Digest): (r: seq<Digest>)
    ensures |r| == EvenUp(|s|)
  {
    if |s| > 1 && |s| % 2 == 1 then s + [nul] else s
  }

  /** The parents of the first n pairs of nodes. */
  function Pairs(h: NodeHash, s: seq<Digest>, n: nat): (r: seq<Digest>)
    requires 2 * n <= |s|
    ensures |r| == n
  {
    if n == 0 then [] else Pairs(h, s, n - 1) + [h(s[2 * n - 2], s[2 * n - 1])]
  }

  lemma {:induction false} PairsAt(h: NodeHash, s: seq<Digest>, n: nat, i: nat)
    requires i < n && 2 * n <= |s|
    ensures Pairs(h, s, n)[i] == h(s[2 * i], s[2 * i + 1])
  {
    if i < n - 1 {
      PairsAt(h, s, n - 1, i);
    }
  }

  function LevelLength(n: nat, l: nat): nat {
    if l == 0 then EvenUp(n) else EvenUp(LevelLength(n, l - 1) / 2)
  }

  lemma {:induction false} LengthIsWidth(n: nat, l: nat)
    requires n > 0 && l <= Depth(n)
    ensures LevelLength(n, l) == EvenUp(Width(n, l)) && Width(n, l) > 0
    ensures l < Depth(n) <==> Width(n, l) > 1
    decreases l
  {
    WidthDepth(n, l);
    if l > 0 {
      LengthIsWidth(n, l - 1);
    }
  }

  function NextLevel(h: NodeHash, below: seq<Digest>, nul: Digest): (r: seq<Digest>)
    ensures |r| == EvenUp(|below| / 2)
  {
    Evened(Pairs(h, below, |below| / 2), nul)
  }

  /** Level l as the library builds it from the level below. */
  function Level(h: NodeHash, leaves: seq<Digest>, l: nat): (r: seq<Digest>)
    ensures |r| == LevelLength(|leaves|, l)
    decreases l
  {
    if l == 0 then Evened(leaves, Nul(h, 0)) else NextLevel(h, Level(h, leaves, l - 1), Nul(h, l))
  }

  /** A level that agrees with the tree over the zero-extended leaves and stands over all of them. */
  ghost predicate Agrees(h: NodeHash, leaves: seq<Digest>, level: seq<Digest>, l: nat)
  {
    && (forall i :: 0 <= i < |level| ==> level[i] == Node(h, leaves, l, i))
    && |leaves| <= First(l, |level|)
  }

  lemma EvenBelowRoot(n: nat, l: nat)
    requires n > 0 && l < Depth(n)
    ensures LevelLength(n, l) % 2 == 0
  {
    LengthIsWidth(n, l);
  }

  /** Node i of a level is made of the nodes below it, or is the nul subtree behind the last of them. */
  lemma NextLevelAt(h: NodeHash, below: seq<Digest>, nul: Digest, i: nat)
    requires i < |NextLevel(h, below, nul)| && |below| % 2 == 0
    ensures NextLevel(h, below, nul)[i] == if 2 * i < |below| then h(below[2 * i], below[2 * i + 1]) else nul
  {
    if 2 * i < |below| {
      PairsAt(h, below, |below| / 2, i);
    }
  }

  /** An index that is not over any node of the level below is behind the last leaf. */
  lemma BehindLeaves(n: nat, l: nat, i: nat)
    requires n > 0 && 0 < l <= Depth(n) && LevelLength(n, l - 1) <= 2 * i
    ensures n <= First(l, i)
  {
    LengthIsWidth(n, l - 1);
    WidthCovers(n, l - 1, 2 * i);
  }

  /** What the library builds level by level is, node by node, the tree over the zero-extended leaves. */
  lemma {:induction false} LevelIsNode(h: NodeHash, leaves: seq<Digest>, l: nat, i: nat)
    requires |leaves| > 0 && l <= Depth(|leaves|) && i < LevelLength(|leaves|, l)
    ensures Same(Level(h, leaves, l)[i], Node(h, leaves, l, i))
    decreases l
  {
    if l > 0 {
      var below := Level(h, leaves, l - 1);
      EvenBelowRoot(|leaves|, l - 1);
      NextLevelAt(h, below, Nul(h, l), i);
      if 2 * i < |below| {
        LevelIsNode(h, leaves, l - 1, 2 * i);
        LevelIsNode(h, leaves, l - 1, 2 * i + 1);
      } else {
        BehindLeaves(|leaves|, l, i);
        NodeBeyond(h, leaves, l, i);
      }
    }
  }

  /** So every level agrees with the tree and stands over all leaves. */
  lemma LevelAgrees(h: NodeHash, leaves: seq<Digest>, l: nat)
    requires |leaves| > 0 && l <= Depth(|leaves|)
    ensures Agrees(h, leaves, Level(h, leaves, l), l)
  {
    forall i | 0 <= i < LevelLength(|leaves|, l)
      ensures Level(h, leaves, l)[i] == Node(h, leaves, l, i)
    {
      LevelIsNode(h, leaves, l, i);
    }
    LengthIsWidth(|leaves|, l);
    WidthCovers(|leaves|, l, LevelLength(|leaves|, l));
  }

  /** The root the library reports: the only node of the top level. */
  function Root(h: NodeHash, leaves: seq<Digest>): Digest
    requires |leaves| > 0
  {
    Node(h, leaves, Depth(|leaves|), 0)
  }

  lemma TopLevel(h: NodeHash, leaves: seq<Digest>)
    requires |leaves| > 0
    ensures Level(h, leaves, Depth(|leaves|)) == [Root(h, leaves)]
  {
    LengthIsWidth(|leaves|, Depth(|leaves|));
    LevelIsNode(h, leaves, Depth(|leaves|), 0);
  }

  // ----- proofs

  /** The nodes beside the path from the leaf up, and one bit a level, lowest first. */
  datatype Proof = Proof(siblings: seq<Bytes>, path: nat)

  function Fold(h: NodeHash, node: Bytes, siblings: seq<Bytes>, path: nat): Bytes
    decreases |siblings|
  {
    if |siblings| == 0 then node
    else
      var parent := if path % 2 == 1 then h(node, siblings[0]) else h(siblings[0], node);
      Fold(h, parent, siblings[1..], path / 2)
  }

  /** The lowest bit says on which side of its sibling the node is: one for the left. */
  lemma FoldOnce(h: NodeHash, node: Bytes, sibling: Bytes)
    ensures Fold(h, node, [sibling], 1) == h(node, sibling)
    ensures Fold(h, node, [sibling], 0) == h(sibling, node)
  {
  }

  predicate Verify(h: NodeHash, leaf: Bytes, proof: Proof, root: Bytes) {
    Fold(h, leaf, proof.siblings, proof.path) == root
  }

  function Beside(i: nat): nat {
    if i % 2 == 0 then i + 1 else i - 1
  }

  /** Entry i of a level; the empty string stands for an index the level does not have. */
  function EntryOf(level: seq<Digest>, i: nat): Bytes {
    if i < |level| then level[i] else []
  }

  /** The siblings of node i of the lowest of the given levels and of its ancestors. */
  function SiblingsIn(levels: seq<seq<Digest>>, i: nat): (r: seq<Bytes>)
    ensures |r| == |levels|
  {
    if |levels| == 0 then [] else [EntryOf(levels[0], Beside(i))] + SiblingsIn(levels[1..], i / 2)
  }

  function PathBits(i: nat, k: nat): (p: nat)
    ensures p < Pow2(k)
    decreases k
  {
    if k == 0 then 0 else (if i % 2 == 0 then 1 else 0) + 2 * PathBits(i / 2, k - 1)
  }

  /** The siblings, as nodes of the reference tree. */
  function SiblingNodes(h: NodeHash, leaves: seq<Digest>, l: nat, i: nat, k: nat): (r: seq<Bytes>)
    ensures |r| == k
    decreases k
  {
    if k == 0 then [] else [Node(h, leaves, l, Beside(i))] + SiblingNodes(h, leaves, l + 1, i / 2, k - 1)
  }

  lemma ParentOf(h: NodeHash, leaves: seq<Digest>, l: nat, i: nat)
    ensures Node(h, leaves, l + 1, i / 2) ==
            if i % 2 == 0 then h(Node(h, leaves, l, i), Node(h, leaves, l, Beside(i)))
            else h(Node(h, leaves, l, Beside(i)), Node(h, leaves, l, i))
  {
  }

  lemma FoldStep(h: NodeHash, node: Bytes, sibling: Bytes, rest: seq<Bytes>, left: bool, path: nat)
    ensures Fold(h, node, [sibling] + rest, (if left then 1 else 0) + 2 * path)
         == Fold(h, if left then h(node, sibling) else h(sibling, node), rest, path)
  {
    var s, p := [sibling] + rest, (if left then 1 else 0) + 2 * path;
    assert s[0] == sibling && s[1..] == rest;
    assert p % 2 == (if left then 1 else 0) && p / 2 == path;
  }

  /** Folding a node with its siblings climbs to its ancestor. */
  lemma {:induction false} FoldClimbs(h: NodeHash, leaves: seq<Digest>, l: nat, i: nat, k: nat)
    ensures Fold(h, Node(h, leaves, l, i), SiblingNodes(h, leaves, l, i, k), PathBits(i, k))
         == Node(h, leaves, l + k, Shr(i, k))
    decreases k
  {
    if k > 0 {
      ClimbOnce(h, leaves, l, i, SiblingNodes(h, leaves, l + 1, i / 2, k - 1), PathBits(i / 2, k - 1));
      FoldClimbs(h, leaves, l + 1, i / 2, k - 1);
    }
  }

  lemma ClimbOnce(h: NodeHash, leaves: seq<Digest>, l: nat, i: nat, rest: seq<Bytes>, path: nat)
    ensures Fold(h, Node(h, leaves, l, i), [Node(h, leaves, l, Beside(i))] + rest,
                 (if i % 2 == 0 then 1 else 0) + 2 * path)
         == Fold(h, Node(h, leaves, l + 1, i / 2), rest, path)
  {
    FoldStep(h, Node(h, leaves, l, i), Node(h, leaves, l, Beside(i)), rest, i % 2 == 0, path);
    ParentOf(h, leaves, l, i);
  }

  /** n levels of a tree, from level l on. */
  function Levels(h: NodeHash, leaves: seq<Digest>, l: nat, n: nat): (r: seq<seq<Digest>>)
    ensures |r| == n
    decreases n
  {
    if n == 0 then [] else [Level(h, leaves, l)] + Levels(h, leaves, l + 1, n - 1)
  }

  /** Below the root every node of a level has its sibling in the level, and its parent in the next. */
  lemma BesideInLevel(n: nat, l: nat, i: nat)
    requires n > 0 && l < Depth(n) && i < LevelLength(n, l)
    ensures Beside(i) < LevelLength(n, l) && i / 2 < LevelLength(n, l + 1)
  {
    LengthIsWidth(n, l);
    WidthDepth(n, l + 1);
    LengthIsWidth(n, l + 1);
  }

  /** The siblings the library collects are nodes of the reference tree. */
  lemma {:induction false} SiblingsAreNodes(h: NodeHash, leaves: seq<Digest>, l: nat, i: nat, k: nat)
    requires |leaves| > 0 && l + k <= Depth(|leaves|) && i < LevelLength(|leaves|, l)
    ensures SiblingsIn(Levels(h, leaves, l, k), i) == SiblingNodes(h, leaves, l, i, k)
    decreases k
  {
    if k > 0 {
      BesideInLevel(|leaves|, l, i);
      SiblingsAreNodes(h, leaves, l + 1, i / 2, k - 1);
      SiblingIsNode(h, leaves, l, i);
    }
    SiblingsNext(h, leaves, l, i, k);
  }

  lemma SiblingsNext(h: NodeHash, leaves: seq<Digest>, l: nat, i: nat, k: nat)
    requires k > 0 ==>
      SiblingsIn(Levels(h, leaves, l + 1, k - 1), i / 2) == SiblingNodes(h, leaves, l + 1, i / 2, k - 1)
    requires k > 0 ==> EntryOf(Level(h, leaves, l), Beside(i)) == Node(h, leaves, l, Beside(i))
    ensures SiblingsIn(Levels(h, leaves, l, k), i) == SiblingNodes(h, leaves, l, i, k)
  {
    if k > 0 {
      SiblingsHead(Level(h, leaves, l), Levels(h, leaves, l + 1, k - 1), i);
    }
  }

  lemma SiblingIsNode(h: NodeHash, leaves: seq<Digest>, l: nat, i: nat)
    requires |leaves| > 0 && l <= Depth(|leaves|) && Beside(i) < LevelLength(|leaves|, l)
    ensures EntryOf(Level(h, leaves, l), Beside(i)) == Node(h, leaves, l, Beside(i))
  {
    LevelIsNode(h, leaves, l, Beside(i));
  }

  lemma SiblingsHead(level: seq<Digest>, above: seq<seq<Digest>>, i: nat)
    ensures SiblingsIn([level] + above, i) == [EntryOf(level, Beside(i))] + SiblingsIn(above, i / 2)
  {
  }

  /** An ancestor that stands at the top is the root. */
  lemma {:induction false} AncestorAtTop(n: nat, l: nat, i: nat, k: nat)
    requires n > 0 && l + k == Depth(n) && i < LevelLength(n, l)
    ensures Shr(i, k) == 0
    decreases k
  {
    if k == 0 {
      LengthIsWidth(n, l);
    } else {
      BesideInLevel(n, l, i);
      AncestorAtTop(n, l + 1, i / 2, k - 1);
    }
  }

  // ----- trees and caches as the library stores them

  /** Looks nodes up by value. Where a value occurs more than once, any occurrence may be kept. */
  ghost predicate IsIndex(leafMap: map<Bytes, nat>, level: seq<Digest>, indexed: nat)
  {
    && (forall d :: d in leafMap ==> leafMap[d] < indexed && leafMap[d] < |level| && level[leafMap[d]] == d)
    && (forall i :: 0 <= i < indexed && i < |level| ==> level[i] in leafMap)
  }

  /** levels holds every level below the root. */
  datatype Tree = Tree(leafMap: map<Bytes, nat>, levels: seq<seq<Digest>>, root: Digest, depth: nat)
  {
    function Prove(leaf: Bytes): Result<Proof> {
      ProveFrom(leafMap, levels, leaf)
    }
  }

  /** The levels from start up to, but not with, the root. */
  datatype LevelCache = LevelCache(leafMap: map<Bytes, nat>, nodes: seq<seq<Digest>>, start: nat, level: nat)
  {
    function Prove(node: Bytes): Result<Proof> {
      ProveFrom(leafMap, nodes, node)
    }
  }

  function ProveFrom(leafMap: map<Bytes, nat>, levels: seq<seq<Digest>>, node: Bytes): Result<Proof> {
    if node in leafMap then
      Ok(Proof(SiblingsIn(levels, leafMap[node]), PathBits(leafMap[node], |levels|)))
    else Err("data block is not a member of the merkle tree")
  }

  ghost predicate IsTree(h: NodeHash, t: Tree, leaves: seq<Digest>)
  {
    && |leaves| > 0
    && t.depth == Depth(|leaves|)
    && t.levels == Levels(h, leaves, 0, t.depth)
    && t.root == Root(h, leaves)
    && IsIndex(t.leafMap, leaves, |leaves|)
  }

  /** A cache that finds the first `indexed` nodes of its lowest level. */
  ghost predicate IsLevelCache(h: NodeHash, c: LevelCache, leaves: seq<Digest>, start: nat, indexed: nat)
  {
    && |leaves| > 0
    && start <= Depth(|leaves|) && indexed <= Width(|leaves|, start)
    && c.start == start && c.level == Depth(|leaves|) - start
    && c.nodes == Levels(h, leaves, start, c.level)
    && IsIndex(c.leafMap, Level(h, leaves, start), indexed)
  }

  /** An index filled entry by entry, a later equal value replacing an earlier one. */
  function IndexOf(level: seq<Digest>, indexed: nat): (m: map<Bytes, nat>)
    requires indexed <= |level|
    ensures IsIndex(m, level, indexed)
  {
    if indexed == 0 then map[] else IndexOf(level, indexed - 1)[level[indexed - 1] := indexed - 1]
  }

  /** Building a tree; there is none over no leaves. */
  function NewWithPadding(h: NodeHash, leaves: seq<Digest>): (r: Result<Tree>)
    ensures r.Ok? <==> |leaves| > 0
    ensures r.Ok? ==> IsTree(h, r.value, leaves)
  {
    if |leaves| == 0 then Err("the number of data blocks must be greater than 0")
    else Ok(Tree(IndexOf(leaves, |leaves|), Levels(h, leaves, 0, Depth(|leaves|)), Root(h, leaves), Depth(|leaves|)))
  }

  /** Caching the levels of the tree over leaves from start on; the tree must reach that level. */
  function NewLevelCache(h: NodeHash, leaves: seq<Digest>, start: nat, indexed: nat): (r: Result<LevelCache>)
    requires |leaves| > 0 && indexed <= Width(|leaves|, start)
    ensures r.Ok? <==> start <= Depth(|leaves|)
    ensures r.Ok? ==> IsLevelCache(h, r.value, leaves, start, indexed)
  {
    if start > Depth(|leaves|) then Err("the level cache must start inside the tree")
    else
      LengthIsWidth(|leaves|, start);
      var level := Depth(|leaves|) - start;
      Ok(LevelCache(IndexOf(Level(h, leaves, start), indexed), Levels(h, leaves, start, level), start, level))
  }

  /** Whichever occurrence of the leaf the tree found, its proof folds to the root. */
  lemma TreeProofFolds(h: NodeHash, t: Tree, leaves: seq<Digest>, leaf: Bytes)
    requires IsTree(h, t, leaves) && t.Prove(leaf).Ok?
    ensures var p := t.Prove(leaf).value;
      && |p.siblings| == t.depth && p.path < Pow2(t.depth)
      && Verify(h, leaf, p, t.root)
  {
    var i := t.leafMap[leaf];
    EntryClimbs(h, leaves, 0, i, t.depth);
  }

  /** Whichever occurrence of the node the cache found, its proof folds to the root of the whole tree. */
  lemma CacheProofFolds(h: NodeHash, c: LevelCache, leaves: seq<Digest>, start: nat, indexed: nat, node: Bytes)
    requires IsLevelCache(h, c, leaves, start, indexed) && c.Prove(node).Ok?
    ensures var p := c.Prove(node).value;
      && |p.siblings| == c.level && p.path < Pow2(c.level)
      && Verify(h, node, p, Root(h, leaves))
  {
    var i := c.leafMap[node];
    LevelIsNode(h, leaves, start, i);
    EntryClimbs(h, leaves, start, i, c.level);
  }

  lemma EntryClimbs(h: NodeHash, leaves: seq<Digest>, l: nat, i: nat, k: nat)
    requires |leaves| > 0 && l + k == Depth(|leaves|) && i < LevelLength(|leaves|, l)
    ensures Fold(h, Node(h, leaves, l, i), SiblingsIn(Levels(h, leaves, l, k), i), PathBits(i, k)) == Root(h, leaves)
  {
    SiblingsAreNodes(h, leaves, l, i, k);
    FoldClimbs(h, leaves, l, i, k);
    AncestorAtTop(|leaves|, l, i, k);
  }

  // ----- appended proofs

  /** The sub proof goes on where the base proof ended; the path is a 32-bit word. */
  function AppendProof(base: Proof, sub: Proof): Proof {
    Proof(base.siblings + sub.siblings, (base.path + sub.path * Pow2(|base.siblings|)) % TWO_32)
  }

  lemma PathStep(p: nat, p': nat, w: nat)
    ensures (p + p' * (2 * w)) % 2 == p % 2 && (p + p' * (2 * w)) / 2 == p / 2 + p' * w
  {
    assert p' * (2 * w) == 2 * (p' * w);
  }

  lemma {:induction false} FoldAppend(h: NodeHash, node: Bytes, s: seq<Bytes>, p: nat, s': seq<Bytes>, p': nat)
    requires p < Pow2(|s|)
    ensures Fold(h, node, s + s', p + p' * Pow2(|s|)) == Fold(h, Fold(h, node, s, p), s', p')
    decreases |s|
  {
    if |s| == 0 {
      assert s + s' == s';
    } else {
      var parent := if p % 2 == 1 then h(node, s[0]) else h(s[0], node);
      FoldAppend(h, parent, s[1..], p / 2, s', p');
      assert (s + s')[0] == s[0] && (s + s')[1..] == s[1..] + s';
      PathStep(p, p', Pow2(|s| - 1));
    }
  }

  lemma PathWord()
    ensures Pow2(32) == TWO_32
  {
    SmallPowers();
    Pow2Add(8, 8);
    Pow2Add(16, 16);
  }

  lemma TwoDigits(p: nat, p': nat, w: nat, w': nat)
    requires p < w && p' < w'
    ensures p + p' * w < w' * w
  {
    MulMonotone(p' + 1, w', w);
    assert (p' + 1) * w == p' * w + w;
  }

  lemma PathFits(p: nat, p': nat, n: nat, n': nat)
    requires p < Pow2(n) && p' < Pow2(n') && n + n' <= 32
    ensures p + p' * Pow2(n) < TWO_32
  {
    TwoDigits(p, p', Pow2(n), Pow2(n'));
    Pow2Add(n', n);
    WordBound(n' + n);
  }

  lemma WordBound(n: nat)
    requires n <= 32
    ensures Pow2(n) <= TWO_32
  {
    PathWord();
    Pow2Monotone(n, 32);
  }

  lemma AppendedPath(base: Proof, sub: Proof)
    requires base.path < Pow2(|base.siblings|) && sub.path < Pow2(|sub.siblings|)
    requires |base.siblings| + |sub.siblings| <= 32
    ensures AppendProof(base, sub) ==
            Proof(base.siblings + sub.siblings, base.path + sub.path * Pow2(|base.siblings|))
  {
    PathFits(base.path, sub.path, |base.siblings|, |sub.siblings|);
    FitsWord(base.path + sub.path * Pow2(|base.siblings|));
  }

  lemma FitsWord(n: nat)
    requires n < TWO_32
    ensures n % TWO_32 == n
  {
  }

  /** A proof up to a node and a proof from that node up make a proof, as long as the path fits its word. */
  lemma AppendedProofFolds(h: NodeHash, leaf: Bytes, base: Proof, sub: Proof, root: Bytes)
    requires base.path < Pow2(|base.siblings|) && sub.path < Pow2(|sub.siblings|)
    requires |base.siblings| + |sub.siblings| <= 32
    requires Verify(h, Fold(h, leaf, base.siblings, base.path), sub, root)
    ensures Verify(h, leaf, AppendProof(base, sub), root)
  {
    AppendedPath(base, sub);
    FoldAppend(h, leaf, base.siblings, base.path, sub.siblings, sub.path);
  }
}
