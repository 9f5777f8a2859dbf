/** What the verifier's yes means: which node of which car an accepted entry is, and what is not asked. */
module Acceptance {
  import opened Bytes
  import opened ChallengeProof
  import opened CommPTable
  import opened LeafProof
  import opened MerkleTree
  import opened PaddedBlocks
  import opened PieceTree
  import opened ProofFile

  /** The index a path of k bits spells: a set bit means a left child. */
  function SpelledIndex(path: nat, k: nat): nat
    decreases k
  {
    if k == 0 then 0 else 2 * SpelledIndex(path / 2, k - 1) + if path % 2 == 1 then 0 else 1
  }

  /** The path of a leaf spells the leaf's index. */
  lemma {:induction false} PathSpellsIndex(i: nat, k: nat)
    requires i < Pow2(k)
    ensures SpelledIndex(PathBits(i, k), k) == i
    decreases k
  {
    if k > 0 {
      PathSpellsIndex(i / 2, k - 1);
    }
  }

  // ----- one step of a fold

  /** The bytes that a step of a fold hashes: an entry and the sibling beside it. */
  function Joined(x: Bytes, sibling: Bytes, path: nat): Bytes {
    if path % 2 == 1 then x + sibling else sibling + x
  }

  /** The bytes that the tree hashes into node i of level l: its two children. */
  function ChildBytes(h: NodeHash, leaves: seq<Digest>, l: nat, i: nat): (b: Bytes)
    requires l > 0
    ensures |b| == 2 * NODE_SIZE
  {
    var left, right := Node(h, leaves, l - 1, 2 * i), Node(h, leaves, l - 1, 2 * i + 1);
    left + right
  }

  /** Two nodes hash to node i of level l, but are not its children. */
  predicate Clash(h: NodeHash, leaves: seq<Digest>, l: nat, i: nat, pair: (Bytes, Bytes))
    requires l > 0
  {
    && h(pair.0, pair.1) == Node(h, leaves, l, i)
    && pair != (Node(h, leaves, l - 1, 2 * i), Node(h, leaves, l - 1, 2 * i + 1))
  }

  /** Different bytes than those of the children of node i of level l have the same hash. */
  predicate Collision(sha: Sha, leaves: seq<Digest>, l: nat, i: nat, joined: Bytes)
    requires l > 0
  {
    var children := ChildBytes(PieceHash(sha), leaves, l, i);
    joined != children && NewHashFunc(sha, joined) == NewHashFunc(sha, children)
  }

  lemma NodeIsHash(sha: Sha, leaves: seq<Digest>, l: nat, i: nat)
    requires l > 0
    ensures Node(PieceHash(sha), leaves, l, i) == NewHashFunc(sha, ChildBytes(PieceHash(sha), leaves, l, i))
  {
  }

  /**
   A clash is a collision of the truncated hash, or two parts neither of which has 32 bytes: the children's
   bytes, cut at another place.
   */
  lemma ClashIsReal(sha: Sha, leaves: seq<Digest>, l: nat, i: nat, pair: (Bytes, Bytes))
    requires l > 0 && Clash(PieceHash(sha), leaves, l, i, pair)
    ensures || Collision(sha, leaves, l, i, pair.0 + pair.1)
            || (|pair.0| != 32 && |pair.1| != 32 && pair.0 + pair.1 == ChildBytes(PieceHash(sha), leaves, l, i))
  {
    NodeIsHash(sha, leaves, l, i);
    var left: Bytes, right: Bytes :=
      Node(PieceHash(sha), leaves, l - 1, 2 * i), Node(PieceHash(sha), leaves, l - 1, 2 * i + 1);
    JoinedParts(pair.0, pair.1, left, right);
  }

  /** Parts of the same lengths are equal exactly when their joined bytes are. */
  lemma JoinedParts(a: Bytes, b: Bytes, c: Bytes, d: Bytes)
    requires |c| == |d| == 32
    ensures (|a| == 32 || |b| == 32) && a + b == c + d ==> a == c && b == d
  {
    if a + b == c + d {
      assert (a + b)[..|a|] == a && (a + b)[|a|..] == b;
      assert (c + d)[..32] == c && (c + d)[32..] == d;
    }
  }

  // ----- what a fold to the root shows

  /** The entry is the node its path spells, and the siblings are those beside its way up. */
  predicate OnTree(h: NodeHash, leaves: seq<Digest>, l: nat, x: Bytes, s: seq<Bytes>, p: nat) {
    var i := SpelledIndex(p, |s|);
    x == Node(h, leaves, l, i) && s == SiblingNodes(h, leaves, l, i, |s|)
  }

  /** Entry and first sibling are the children of the node the path spells; from there on it is the way up. */
  predicate StepsUp(h: NodeHash, leaves: seq<Digest>, l: nat, x: Bytes, s: seq<Bytes>, p: nat)
    requires |s| > 0
  {
    var i := SpelledIndex(p / 2, |s| - 1);
    && Joined(x, s[0], p) == ChildBytes(h, leaves, l + 1, i)
    && s[1..] == SiblingNodes(h, leaves, l + 1, i, |s| - 1)
  }

  /** The entry is no node: it and its sibling are the bytes of two neighbouring nodes, cut at another place. */
  predicate CutElsewhere(h: NodeHash, leaves: seq<Digest>, l: nat, x: Bytes, s: seq<Bytes>, p: nat) {
    |x| != 32 && |s| > 0 && StepsUp(h, leaves, l, x, s, p)
  }

  /** Some step of the fold is a collision: the proof shows two different inputs with the same truncated hash. */
  predicate CollisionOnPath(sha: Sha, leaves: seq<Digest>, l: nat, x: Bytes, s: seq<Bytes>, p: nat)
    decreases |s|
  {
    && |s| > 0
    && var joined := Joined(x, s[0], p);
       || Collision(sha, leaves, l + 1, SpelledIndex(p / 2, |s| - 1), joined)
       || CollisionOnPath(sha, leaves, l + 1, NewHashFunc(sha, joined), s[1..], p / 2)
  }

  lemma FoldFirst(sha: Sha, x: Bytes, s: seq<Bytes>, p: nat)
    requires |s| > 0
    ensures Fold(PieceHash(sha), x, s, p) ==
            Fold(PieceHash(sha), NewHashFunc(sha, Joined(x, s[0], p)), s[1..], p / 2)
  {
  }

  /** A 32-byte entry steps up exactly when it is a node with its siblings. */
  lemma NodeStepsUp(h: NodeHash, leaves: seq<Digest>, l: nat, x: Bytes, s: seq<Bytes>, p: nat)
    requires |s| > 0 && |x| == 32
    ensures StepsUp(h, leaves, l, x, s, p) == OnTree(h, leaves, l, x, s, p)
  {
    var j := SpelledIndex(p / 2, |s| - 1);
    var left, right := Node(h, leaves, l, 2 * j), Node(h, leaves, l, 2 * j + 1);
    SiblingsUp(h, leaves, l, s, SpelledIndex(p, |s|), j);
    if p % 2 == 1 {
      JoinedParts(x, s[0], left, right);
    } else {
      JoinedParts(s[0], x, left, right);
    }
  }

  lemma SiblingsUp(h: NodeHash, leaves: seq<Digest>, l: nat, s: seq<Bytes>, i: nat, j: nat)
    requires |s| > 0 && j == i / 2
    ensures s == SiblingNodes(h, leaves, l, i, |s|) <==>
            s[0] == Node(h, leaves, l, Beside(i)) && s[1..] == SiblingNodes(h, leaves, l + 1, j, |s| - 1)
  {
    assert s == [s[0]] + s[1..];
  }

  /** What is said of a fold in general. */
  ghost predicate Decides(sha: Sha, leaves: seq<Digest>, d: nat, l: nat, x: Bytes, s: seq<Bytes>, p: nat) {
    var h := PieceHash(sha);
    var folds := Fold(h, x, s, p) == Node(h, leaves, d, 0);
    && (OnTree(h, leaves, l, x, s, p) || CutElsewhere(h, leaves, l, x, s, p) ==> folds)
    && (folds ==>
          || OnTree(h, leaves, l, x, s, p) || CutElsewhere(h, leaves, l, x, s, p)
          || CollisionOnPath(sha, leaves, l, x, s, p))
  }

  /**
   A proof folds to the root if it is the way up from the node its path spells, or from that node's bytes
   and its sibling's cut elsewhere; and only then, unless it shows a collision.
   */
  lemma {:induction false} FoldExactly(sha: Sha, leaves: seq<Digest>, d: nat, l: nat,
                                       x: Bytes, s: seq<Bytes>, p: nat)
    requires l + |s| == d
    ensures Decides(sha, leaves, d, l, x, s, p)
    decreases |s|
  {
    if |s| > 0 {
      FoldExactly(sha, leaves, d, l + 1, NewHashFunc(sha, Joined(x, s[0], p)), s[1..], p / 2);
    }
    DecidesNext(sha, leaves, d, l, x, s, p);
  }

  lemma DecidesNext(sha: Sha, leaves: seq<Digest>, d: nat, l: nat, x: Bytes, s: seq<Bytes>, p: nat)
    requires l + |s| == d
    requires |s| > 0 ==>
      Decides(sha, leaves, d, l + 1, NewHashFunc(sha, Joined(x, s[0], p)), s[1..], p / 2)
    ensures Decides(sha, leaves, d, l, x, s, p)
  {
    if |s| > 0 {
      var h := PieceHash(sha);
      FoldFirst(sha, x, s, p);
      StepUp(sha, leaves, l, x, s, p);
      if |x| == 32 {
        NodeStepsUp(h, leaves, l, x, s, p);
      }
    }
  }

  /** The parent of an entry is on the tree exactly when the entry steps up, but for a collision. */
  lemma StepUp(sha: Sha, leaves: seq<Digest>, l: nat, x: Bytes, s: seq<Bytes>, p: nat)
    requires |s| > 0
    ensures var y := NewHashFunc(sha, Joined(x, s[0], p));
      && (StepsUp(PieceHash(sha), leaves, l, x, s, p) ==> OnTree(PieceHash(sha), leaves, l + 1, y, s[1..], p / 2))
      && (OnTree(PieceHash(sha), leaves, l + 1, y, s[1..], p / 2) ==>
            || StepsUp(PieceHash(sha), leaves, l, x, s, p)
            || Collision(sha, leaves, l + 1, SpelledIndex(p / 2, |s| - 1), Joined(x, s[0], p)))
  {
    NodeIsHash(sha, leaves, l + 1, SpelledIndex(p / 2, |s| - 1));
  }

  // ----- what an accepted entry is

  /** The entry that the fold has made of x after its first e steps. */
  function After(sha: Sha, x: Bytes, s: seq<Bytes>, p: nat, e: nat): Bytes
    requires e <= |s|
  {
    Fold(PieceHash(sha), x, s[..e], p)
  }

  /**
   The entry belongs to the tree of d levels over these leaves: it is the node its path spells, as many levels
   below the root as it has siblings, or two neighbours' bytes cut elsewhere; or, with more siblings than
   levels, the fold makes a block of it on its way.
   */
  predicate InTree(sha: Sha, leaves: seq<Digest>, d: nat, x: Bytes, s: seq<Bytes>, p: nat) {
    if |s| <= d then
      || OnTree(PieceHash(sha), leaves, d - |s|, x, s, p)
      || CutElsewhere(PieceHash(sha), leaves, d - |s|, x, s, p)
    else
      var e := |s| - d;
      OnTree(PieceHash(sha), leaves, 0, After(sha, x, s, p, e), s[e..], Shr(p, e))
  }

  /** The steps of the fold that are inside the tree show a collision. */
  predicate Collides(sha: Sha, leaves: seq<Digest>, d: nat, x: Bytes, s: seq<Bytes>, p: nat) {
    if |s| <= d then CollisionOnPath(sha, leaves, d - |s|, x, s, p)
    else
      var e := |s| - d;
      CollisionOnPath(sha, leaves, 0, After(sha, x, s, p, e), s[e..], Shr(p, e))
  }

  /** Folding in two parts. */
  lemma {:induction false} FoldParts(h: NodeHash, x: Bytes, s: seq<Bytes>, p: nat, e: nat)
    requires e <= |s|
    ensures Fold(h, x, s, p) == Fold(h, Fold(h, x, s[..e], p), s[e..], Shr(p, e))
    decreases e
  {
    if e == 0 {
      assert s[..e] == [] && s[e..] == s;
    } else {
      var parent := if p % 2 == 1 then h(x, s[0]) else h(s[0], x);
      FoldParts(h, parent, s[1..], p / 2, e - 1);
      assert s[1..][..e - 1] == s[..e][1..] && s[1..][e - 1..] == s[e..];
    }
  }

  lemma {:induction false} FoldIsNode(sha: Sha, x: Bytes, s: seq<Bytes>, p: nat)
    requires |s| > 0
    ensures |Fold(PieceHash(sha), x, s, p)| == 32
    decreases |s|
  {
    FoldFirst(sha, x, s, p);
    if |s| > 1 {
      FoldIsNode(sha, NewHashFunc(sha, Joined(x, s[0], p)), s[1..], p / 2);
    }
  }

  /** Every entry of the tree folds to the root, and, unless its proof shows a collision, no other entry does. */
  lemma InTreeExactly(sha: Sha, leaves: seq<Digest>, d: nat, x: Bytes, s: seq<Bytes>, p: nat)
    ensures InTree(sha, leaves, d, x, s, p) ==> Fold(PieceHash(sha), x, s, p) == Node(PieceHash(sha), leaves, d, 0)
    ensures Fold(PieceHash(sha), x, s, p) == Node(PieceHash(sha), leaves, d, 0) ==>
      InTree(sha, leaves, d, x, s, p) || Collides(sha, leaves, d, x, s, p)
  {
    if |s| <= d {
      FoldExactly(sha, leaves, d, d - |s|, x, s, p);
    } else {
      var e := |s| - d;
      FoldParts(PieceHash(sha), x, s, p, e);
      FoldIsNode(sha, x, s[..e], p);
      FoldExactly(sha, leaves, d, 0, After(sha, x, s, p, e), s[e..], Shr(p, e));
    }
  }

  // ----- what an accepted file is

  /** Entry k of the file belongs to the car's tree. */
  ghost predicate EntryInTree(sha: Sha, car: Bytes, file: ChallengeProofs, k: nat)
    requires HasProofs(file) && k < |file.leaves|
  {
    var proof := ProofAt(file, k);
    InTree(sha, Blocks(car), Depth(|Blocks(car)|), ParsedOrEmpty(file.leaves[k]), proof.siblings, proof.path)
  }

  /** Its proof shows two different inputs with the same hash. */
  ghost predicate EntryCollides(sha: Sha, car: Bytes, file: ChallengeProofs, k: nat)
    requires HasProofs(file) && k < |file.leaves|
  {
    var proof := ProofAt(file, k);
    Collides(sha, Blocks(car), Depth(|Blocks(car)|), ParsedOrEmpty(file.leaves[k]), proof.siblings, proof.path)
  }

  lemma EntryExactly(sha: Sha, car: Bytes, file: ChallengeProofs, k: nat, root: Bytes)
    requires HasProofs(file) && k < |file.leaves| && |car| > 0 && root == CommP(PieceHash(sha), car)
    ensures EntryInTree(sha, car, file, k) ==> Folds(PieceHash(sha), file.leaves[k], ProofsOf(file)[k], root)
    ensures Folds(PieceHash(sha), file.leaves[k], ProofsOf(file)[k], root) ==>
      EntryInTree(sha, car, file, k) || EntryCollides(sha, car, file, k)
  {
    var proof := ProofAt(file, k);
    InTreeExactly(sha, Blocks(car), Depth(|Blocks(car)|), ParsedOrEmpty(file.leaves[k]), proof.siblings, proof.path);
  }

  /** An accepted entry, whatever its length and its proof, belongs to the car its slot was challenged on. */
  lemma AcceptedIsNode(sha: Sha, disk: Disk, file: ChallengeProofs, run: Run, i: nat, car: Bytes)
    requires file.randomSeed < TWO_64 && Accepts(sha, disk, file)
    requires IsChallengeRun(run, sha, file.randomSeed, disk.table)
    requires i < |file.leaves| && i < |RootsOf(run)| && |car| > 0 && RootsOf(run)[i] == CommP(PieceHash(sha), car)
    ensures EntryInTree(sha, car, file, i) || EntryCollides(sha, car, file, i)
  {
    DecidedBy(sha, disk, file, run);
    EntryExactly(sha, car, file, i, RootsOf(run)[i]);
  }

  /** The cars behind the roots that the entries are checked against. */
  ghost predicate CarsOf(sha: Sha, run: Run, cars: seq<Bytes>) {
    && |cars| == |RootsOf(run)|
    && forall k :: 0 <= k < |cars| ==> |cars[k]| > 0 && RootsOf(run)[k] == CommP(PieceHash(sha), cars[k])
  }

  /** There is a slot for every entry, and every entry belongs to its slot's car. */
  ghost predicate EntriesInTrees(sha: Sha, file: ChallengeProofs, cars: seq<Bytes>)
    requires HasProofs(file)
  {
    |file.leaves| <= |cars| && forall k :: 0 <= k < |file.leaves| ==> EntryInTree(sha, cars[k], file, k)
  }

  /** Every file of such entries is accepted; and, when no proof in it shows a collision, no other file is. */
  lemma AcceptedExactly(sha: Sha, disk: Disk, file: ChallengeProofs, run: Run, cars: seq<Bytes>)
    requires file.randomSeed < TWO_64 && disk.Stored? && HasProofs(file)
    requires IsChallengeRun(run, sha, file.randomSeed, disk.table) && CarsOf(sha, run, cars)
    ensures EntriesInTrees(sha, file, cars) ==> Accepts(sha, disk, file)
    ensures Accepts(sha, disk, file) ==>
      || EntriesInTrees(sha, file, cars)
      || exists k :: 0 <= k < |file.leaves| && k < |cars| && EntryCollides(sha, cars[k], file, k)
  {
    DecidedBy(sha, disk, file, run);
    forall k | 0 <= k < |file.leaves| && k < |cars|
      ensures EntryInTree(sha, cars[k], file, k) ==>
        Folds(PieceHash(sha), file.leaves[k], ProofsOf(file)[k], RootsOf(run)[k])
      ensures Folds(PieceHash(sha), file.leaves[k], ProofsOf(file)[k], RootsOf(run)[k]) ==>
        EntryInTree(sha, cars[k], file, k) || EntryCollides(sha, cars[k], file, k)
    {
      EntryExactly(sha, cars[k], file, k, RootsOf(run)[k]);
    }
  }

  /**
   What a caller can ask beyond the verifier's yes: an accepted entry of 32 bytes, with one sibling a level and
   a path that spells a leaf, is that block of the car, or its proof shows a collision.
   */
  lemma AcceptedAnswers(sha: Sha, disk: Disk, file: ChallengeProofs, run: Run, i: nat, car: Bytes, leafIndex: nat)
    requires file.randomSeed < TWO_64 && Accepts(sha, disk, file)
    requires IsChallengeRun(run, sha, file.randomSeed, disk.table)
    requires i < |file.leaves| && i < |RootsOf(run)| && |car| > 0 && RootsOf(run)[i] == CommP(PieceHash(sha), car)
    requires |ParsedOrEmpty(file.leaves[i])| == 32 && |ProofAt(file, i).siblings| == Depth(|Blocks(car)|)
    requires SpelledIndex(ProofAt(file, i).path, |ProofAt(file, i).siblings|) == leafIndex < |Blocks(car)|
    ensures Same(ParsedOrEmpty(file.leaves[i]), Blocks(car)[leafIndex]) || EntryCollides(sha, car, file, i)
  {
    AcceptedIsNode(sha, disk, file, run, i, car);
    if EntryInTree(sha, car, file, i) {
      EntryIsBlock(sha, car, file, i, ProofAt(file, i), leafIndex);
    }
  }

  lemma EntryIsBlock(sha: Sha, car: Bytes, file: ChallengeProofs, i: nat, proof: Proof, leafIndex: nat)
    requires HasProofs(file) && i < |file.leaves| && EntryInTree(sha, car, file, i) && proof == ProofAt(file, i)
    requires |ParsedOrEmpty(file.leaves[i])| == 32 && |proof.siblings| == Depth(|Blocks(car)|)
    requires SpelledIndex(proof.path, |proof.siblings|) == leafIndex < |Blocks(car)|
    ensures Same(ParsedOrEmpty(file.leaves[i]), Blocks(car)[leafIndex])
  {
    InTreeIsLeaf(sha, Blocks(car), Depth(|Blocks(car)|), ParsedOrEmpty(file.leaves[i]), proof.siblings, proof.path);
  }

  lemma InTreeIsLeaf(sha: Sha, leaves: seq<Digest>, d: nat, x: Bytes, s: seq<Bytes>, p: nat)
    requires |x| == 32 && |s| == d && InTree(sha, leaves, d, x, s, p)
    ensures Same(x, LeafAt(leaves, SpelledIndex(p, |s|)))
  {
  }

  // ----- what is not asked

  /** A node of the tree over a car's blocks, inner nodes and the root included, and how many levels are above it. */
  datatype Place = Place(blocks: seq<Digest>, level: nat, index: nat, above: nat)
  {
    ghost predicate IsThere() {
      && |blocks| > 0 && level + above == Depth(|blocks|) <= MAX_LAYERS
      && index < LevelLength(|blocks|, level)
    }

    function NodeAt(h: NodeHash): Digest {
      Node(h, blocks, level, index)
    }

    /** The way from the node to the root. */
    function ProofUp(h: NodeHash): Proof {
      Proof(SiblingNodes(h, blocks, level, index, above), PathBits(index, above))
    }
  }

  lemma PlaceFolds(h: NodeHash, p: Place)
    requires p.IsThere()
    ensures Verify(h, p.NodeAt(h), p.ProofUp(h), Root(h, p.blocks)) && p.ProofUp(h).path < TWO_32
  {
    NodeClimbs(h, p.blocks, p.level, p.index, p.above);
  }

  lemma NodeClimbs(h: NodeHash, leaves: seq<Digest>, l: nat, i: nat, k: nat)
    requires |leaves| > 0 && l + k == Depth(|leaves|) <= MAX_LAYERS && i < LevelLength(|leaves|, l)
    ensures Fold(h, Node(h, leaves, l, i), SiblingNodes(h, leaves, l, i, k), PathBits(i, k)) == Root(h, leaves)
    ensures PathBits(i, k) < TWO_32
  {
    FoldClimbs(h, leaves, l, i, k);
    AncestorAtTop(|leaves|, l, i, k);
    WordBound(k);
  }

  /** The file lists these entries with these proofs. */
  ghost predicate Lists(file: ChallengeProofs, entries: seq<Bytes>, proofs: seq<Proof>) {
    && |entries| == |proofs| && IsPrinted(file, PrintedAll(entries), proofs)
    && forall k :: 0 <= k < |proofs| ==> proofs[k].path < TWO_32
  }

  /** A file is accepted if everything it lists folds to the root of its slot. */
  lemma ListedAccepted(sha: Sha, disk: Disk, file: ChallengeProofs, run: Run, entries: seq<Bytes>, proofs: seq<Proof>)
    requires file.randomSeed < TWO_64 && disk.Stored?
    requires IsChallengeRun(run, sha, file.randomSeed, disk.table)
    requires Lists(file, entries, proofs) && |entries| <= |RootsOf(run)|
    requires forall k :: 0 <= k < |entries| ==> Verify(PieceHash(sha), entries[k], proofs[k], RootsOf(run)[k])
    ensures Accepts(sha, disk, file)
  {
    ProofFileRoundTrip(file, PrintedAll(entries), proofs);
    forall k | 0 <= k < |entries|
      ensures Folds(PieceHash(sha), file.leaves[k], ProofsOf(file)[k], RootsOf(run)[k])
    {
      HexRoundTrip(entries[k]);
    }
    DecidedBy(sha, disk, file, run);
  }

  function NodesAt(h: NodeHash, places: seq<Place>): (r: seq<Bytes>)
    ensures |r| == |places|
  {
    seq(|places|, k requires 0 <= k < |places| => places[k].NodeAt(h))
  }

  function ProofsUp(h: NodeHash, places: seq<Place>): (r: seq<Proof>)
    ensures |r| == |places|
  {
    seq(|places|, k requires 0 <= k < |places| => places[k].ProofUp(h))
  }

  /** Each place is a node of the car its slot is checked against. */
  ghost predicate InSlots(h: NodeHash, places: seq<Place>, roots: seq<Bytes>) {
    && |places| <= |roots|
    && forall k :: 0 <= k < |places| ==> places[k].IsThere() && roots[k] == Root(h, places[k].blocks)
  }

  lemma PlacesFold(h: NodeHash, places: seq<Place>, roots: seq<Bytes>)
    requires InSlots(h, places, roots)
    ensures forall k :: 0 <= k < |places| ==> Verify(h, NodesAt(h, places)[k], ProofsUp(h, places)[k], roots[k])
  {
    forall k | 0 <= k < |places|
      ensures Verify(h, NodesAt(h, places)[k], ProofsUp(h, places)[k], roots[k])
    {
      PlaceFolds(h, places[k]);
    }
  }

  /**
   Which leaves were challenged is not asked, nor whether an entry is a leaf: a file that lists any nodes of
   its slots' cars is accepted.
   */
  lemma AnyNodeAccepted(sha: Sha, disk: Disk, file: ChallengeProofs, run: Run, places: seq<Place>)
    requires file.randomSeed < TWO_64 && disk.Stored?
    requires IsChallengeRun(run, sha, file.randomSeed, disk.table)
    requires InSlots(PieceHash(sha), places, RootsOf(run))
    requires Lists(file, NodesAt(PieceHash(sha), places), ProofsUp(PieceHash(sha), places))
    ensures Accepts(sha, disk, file)
  {
    var h := PieceHash(sha);
    PlacesFold(h, places, RootsOf(run));
    ListedAccepted(sha, disk, file, run, NodesAt(h, places), ProofsUp(h, places));
  }

  /** The bytes of the two children of a node, cut anywhere. */
  datatype Cut = Cut(parent: Place, at: nat)
  {
    ghost predicate IsThere() {
      parent.IsThere() && parent.level > 0 && at <= 2 * NODE_SIZE
    }

    function Entry(h: NodeHash): Bytes
      requires parent.level > 0 && at <= 2 * NODE_SIZE
    {
      ChildBytes(h, parent.blocks, parent.level, parent.index)[..at]
    }

    /** The other part, and the way from the parent up. */
    function ProofUp(h: NodeHash): Proof
      requires parent.level > 0 && at <= 2 * NODE_SIZE
    {
      var up := parent.ProofUp(h);
      Proof([ChildBytes(h, parent.blocks, parent.level, parent.index)[at..]] + up.siblings, 1 + 2 * up.path)
    }
  }

  lemma CutFolds(sha: Sha, c: Cut)
    requires c.IsThere()
    ensures var h := PieceHash(sha);
      Verify(h, c.Entry(h), c.ProofUp(h), Root(h, c.parent.blocks)) && c.ProofUp(h).path < TWO_32
  {
    CutClimbs(sha, c.parent.blocks, c.parent.level, c.parent.index, c.parent.above, c.at);
    PathOneMore(c.parent.index, c.parent.above);
  }

  lemma CutClimbs(sha: Sha, leaves: seq<Digest>, l: nat, i: nat, k: nat, at: nat)
    requires |leaves| > 0 && 0 < l && l + k == Depth(|leaves|) <= MAX_LAYERS && i < LevelLength(|leaves|, l)
    requires at <= 2 * NODE_SIZE
    ensures var h := PieceHash(sha);
      var both := ChildBytes(h, leaves, l, i);
      Same(Fold(h, both[..at], [both[at..]] + SiblingNodes(h, leaves, l, i, k), 1 + 2 * PathBits(i, k)),
           Root(h, leaves))
  {
    ParentClimbs(sha, leaves, l, i, k);
    CutStep(sha, ChildBytes(PieceHash(sha), leaves, l, i), at, SiblingNodes(PieceHash(sha), leaves, l, i, k),
            PathBits(i, k));
  }

  lemma ParentClimbs(sha: Sha, leaves: seq<Digest>, l: nat, i: nat, k: nat)
    requires |leaves| > 0 && 0 < l && l + k == Depth(|leaves|) <= MAX_LAYERS && i < LevelLength(|leaves|, l)
    ensures var h := PieceHash(sha);
      Same(Fold(h, NewHashFunc(sha, ChildBytes(h, leaves, l, i)), SiblingNodes(h, leaves, l, i, k), PathBits(i, k)),
           Root(h, leaves))
  {
    NodeClimbs(PieceHash(sha), leaves, l, i, k);
    NodeIsHash(sha, leaves, l, i);
  }

  lemma CutStep(sha: Sha, both: Bytes, at: nat, s: seq<Bytes>, p: nat)
    requires at <= |both|
    ensures Same(Fold(PieceHash(sha), both[..at], [both[at..]] + s, 1 + 2 * p),
                 Fold(PieceHash(sha), NewHashFunc(sha, both), s, p))
  {
    FoldStep(PieceHash(sha), both[..at], both[at..], s, true, p);
    assert both[..at] + both[at..] == both;
  }

  lemma PathOneMore(i: nat, k: nat)
    requires k < 32
    ensures 1 + 2 * PathBits(i, k) < TWO_32
  {
    assert PathBits(i, k) < Pow2(k);
    WordBound(k + 1);
  }

  /**
   Nor is the length of an entry asked: a file that lists part of the bytes of two neighbouring nodes, the
   rest as the first sibling, is accepted. The part may be empty.
   */
  lemma CutAccepted(sha: Sha, disk: Disk, file: ChallengeProofs, run: Run, c: Cut)
    requires file.randomSeed < TWO_64 && disk.Stored?
    requires IsChallengeRun(run, sha, file.randomSeed, disk.table) && |RootsOf(run)| > 0
    requires c.IsThere() && RootsOf(run)[0] == Root(PieceHash(sha), c.parent.blocks)
    requires Lists(file, [c.Entry(PieceHash(sha))], [c.ProofUp(PieceHash(sha))])
    ensures Accepts(sha, disk, file)
  {
    CutFolds(sha, c);
    ListedAccepted(sha, disk, file, run, [c.Entry(PieceHash(sha))], [c.ProofUp(PieceHash(sha))]);
  }

  /** A file that lists no leaves is accepted over every table that has a run: the number of leaves is not asked. */
  lemma NoLeavesAccepted(sha: Sha, disk: Disk, file: ChallengeProofs, run: Run)
    requires file.randomSeed < TWO_64 && disk.Stored? && file.leaves == []
    requires IsChallengeRun(run, sha, file.randomSeed, disk.table)
    ensures Accepts(sha, disk, file)
  {
    assert AllFold(PieceHash(sha), file.leaves, ProofsOf(file), RootsOf(run));
  }
}
