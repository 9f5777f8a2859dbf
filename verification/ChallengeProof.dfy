/**
 Answering a challenge and checking the answer: what the prover saves, when there is something to
 save, and why a verifier with the same commitment table accepts it.
 */
module ChallengeProof {
  import opened Bytes
  import opened PieceTree
  import opened MerkleTree
  import opened PaddedBlocks
  import opened LeafProof
  import opened Challenges
  import opened CommPTable
  import opened ProofFile
  import opened CarIndex
  import opened ChunkRange
  import RangeSelection

  /**
   The prover's files, found by commitment: the index of each CAR, which may be there and not be readable,
   and the cache of its tree.
   */
  datatype World = World(
    sha: Sha, env: Env, metas: map<Bytes, Mapping>, unreadable: set<Bytes>, caches: map<Bytes, LevelCache>)
  {
    function Hash(): NodeHash {
      PieceHash(sha)
    }

    function MetaFile(commP: Bytes): MetaFile {
      if commP in unreadable then Unreadable else if commP in metas then Readable(metas[commP]) else NotThere
    }

    predicate HasIndex(commP: Bytes) {
      commP in metas && commP !in unreadable
    }

    function IndexOf(commP: Bytes): LoadedIndex
      requires HasIndex(commP)
    {
      IndexIn(metas[commP])
    }
  }

  /** Offsets in index files are 64-bit words. */
  ghost predicate MetasFit(w: World) {
    forall c :: c in w.metas ==> forall v :: v in w.metas[c].mappings ==> v.dstOffset < TWO_64
  }

  /** The CAR behind a commitment, the nodes its cache finds, and its index in CAR order. */
  datatype Piece = Piece(car: Bytes, indexed: nat, all: seq<ChunkMapping>)

  /** The commitment and size in the table are those of the CAR, and so is the cache, if there is one. */
  ghost predicate Committed(w: World, commP: Bytes, carSize: nat, p: Piece) {
    && |p.car| == carSize > 0
    && commP == CommP(w.Hash(), p.car)
    && Depth(|Blocks(p.car)|) <= MAX_LAYERS
    && (commP in w.caches ==> IsCacheOf(w.Hash(), w.caches[commP], p.car, p.indexed))
  }

  /** There is an index that charts the CAR. */
  ghost predicate Charted(w: World, commP: Bytes, p: Piece) {
    && w.HasIndex(commP)
    && Charts(w.env, w.IndexOf(commP).mappings, w.IndexOf(commP).dataRoot, p.all, p.car)
  }

  /** The blocks that a range of the CAR touches can be rebuilt. */
  ghost predicate Fetchable(w: World, commP: Bytes, p: Piece, start: nat, end: nat) {
    && Charted(w, commP, p) && |p.car| <= MAX_INT64
    && Rebuildable(w.env, w.IndexOf(commP).mappings, RangeSelection.Run(p.all, start, end))
  }

  /** The chunk around the leaf can be fetched. */
  ghost predicate ChunkFetchable(w: World, commP: Bytes, carSize: nat, leafIndex: nat, p: Piece) {
    Fetchable(w, commP, p, ChunkOffset(carSize, leafIndex), ChunkEnd(carSize, leafIndex))
  }

  /** Everything needed to prove the leaf is there. */
  ghost predicate Ready(w: World, commP: Bytes, carSize: nat, leafIndex: nat, p: Piece) {
    && Committed(w, commP, carSize, p) && commP in w.caches
    && ChunkFetchable(w, commP, carSize, leafIndex, p)
    && MoreThanHalf(carSize, leafIndex) && ChunkIndex(carSize, leafIndex) < p.indexed
  }

  // ----- one leaf

  /**
   Fetches the chunk around a leaf: that chunk of the CAR, if the index charts it; and then it comes out
   exactly when the touched blocks can be rebuilt.
   */
  method FetchChunk(w: World, ms: MappingService, commP: Bytes, carSize: U64, leafIndex: nat, ghost p: Piece)
    returns (buf: Result<Bytes>)
    requires MetasFit(w) && IndexFits(ms.mappings) && leafIndex < carSize / NODE_SIZE
    modifies ms`mappings, ms`dataRoot
    ensures IndexFits(ms.mappings)
    ensures buf.Ok? ==> |buf.value| <= CarChunkParams(carSize).0
    ensures buf.Ok? && |p.car| == carSize && Charted(w, commP, p) ==> IsChunk(buf.value, p.car, leafIndex)
    ensures |p.car| == carSize <= MAX_INT64 && Charted(w, commP, p) ==>
      (buf.Ok? <==> ChunkFetchable(w, commP, carSize, leafIndex, p))
  {
    AddressInRange(carSize, leafIndex);
    var (carChunkSize, carChunkNodes) := CarChunkParams(carSize);
    var offset := leafIndex / carChunkNodes * carChunkSize;
    buf := GetChallengeChunk(w.env, ms, w.MetaFile(commP), offset, carChunkSize);
    if w.MetaFile(commP) != NotThere {
      ghost var index := LoadedIndex(ms.mappings, ms.dataRoot);
      ghost var list :| FromSelection(w.env, index, list, offset, carChunkSize, buf);
      SelectionLength(w.env, index, list, offset, carChunkSize, buf);
      if |p.car| == carSize && Charted(w, commP, p) {
        ChartedChunk(w, commP, leafIndex, p, list, offset, carChunkSize, buf);
        ChunkFetchedExactly(w, commP, carSize, leafIndex, p, list, offset, carChunkSize, buf);
      }
    }
  }

  ghost predicate IsChunk(buf: Bytes, car: Bytes, leafIndex: nat) {
    ChunkOffset(|car|, leafIndex) <= |car| && buf == ChunkOf(car, leafIndex)
  }

  lemma SelectionLength(env: Env, index: LoadedIndex, list: seq<ChunkMapping>, offset: U64, size: U64,
                        buf: Result<Bytes>)
    requires FromSelection(env, index, list, offset, size, buf)
    ensures buf.Ok? ==> |buf.value| <= size
  {
  }

  lemma ChartedChunk(w: World, commP: Bytes, leafIndex: nat, p: Piece, list: seq<ChunkMapping>,
                     offset: U64, size: U64, buf: Result<Bytes>)
    requires Charted(w, commP, p) && |p.car| < TWO_64 && leafIndex < |p.car| / NODE_SIZE
    requires offset == ChunkOffset(|p.car|, leafIndex) < |p.car| && size == CarChunkParams(|p.car|).0
    requires FromSelection(w.env, w.IndexOf(commP), list, offset, size, buf)
    ensures buf.Ok? ==> IsChunk(buf.value, p.car, leafIndex)
  {
    if buf.Ok? {
      AnswerIsSlice(w.env, w.IndexOf(commP), p.all, p.car, list, offset, size, offset + size);
    }
  }

  lemma ChunkFetchedExactly(w: World, commP: Bytes, carSize: U64, leafIndex: nat, p: Piece, list: seq<ChunkMapping>,
                            offset: U64, size: U64, buf: Result<Bytes>)
    requires Charted(w, commP, p) && |p.car| == carSize
    requires offset == ChunkOffset(carSize, leafIndex) < carSize && size == CarChunkParams(carSize).0
    requires FromSelection(w.env, w.IndexOf(commP), list, offset, size, buf)
    ensures carSize <= MAX_INT64 ==> (buf.Ok? <==> ChunkFetchable(w, commP, carSize, leafIndex, p))
  {
    if carSize <= MAX_INT64 {
      FetchedExactly(w, commP, p, list, offset, size, ChunkEnd(carSize, leafIndex), buf);
    }
  }

  lemma FetchedExactly(w: World, commP: Bytes, p: Piece, list: seq<ChunkMapping>, offset: U64, size: U64, end: nat,
                       buf: Result<Bytes>)
    requires end == offset + size
    requires Charted(w, commP, p) && offset < |p.car| <= MAX_INT64 && size <= MAX_INT64
    requires FromSelection(w.env, w.IndexOf(commP), list, offset, size, buf)
    ensures buf.Ok? <==> Fetchable(w, commP, p, offset, end)
  {
    AnswerExactly(w.env, w.IndexOf(commP), p.all, p.car, list, offset, size, end);
  }

  /** Building a tree; which of several equal leaves its index keeps is the library's choice. */
  method BuildTree(h: NodeHash, leaves: seq<Digest>) returns (r: Result<Tree>)
    ensures r.Ok? <==> |leaves| > 0
    ensures r.Ok? ==> IsTree(h, r.value, leaves)
  {
    r := NewWithPadding(h, leaves);
  }

  /** Both halves of the proof of a leaf, from the bytes fetched for its chunk. */
  method ProveInChunk(w: World, commP: Bytes, carSize: U64, leafIndex: nat, buf: Bytes, ghost p: Piece)
    returns (r: Result<(Digest, Proof)>)
    requires |buf| <= CarChunkParams(carSize).0 && leafIndex < carSize / NODE_SIZE
    ensures r.Ok? ==> LeafInChunk(carSize, leafIndex) < |Blocks(buf)|
    ensures r.Ok? ==> r.value.0 == Blocks(buf)[LeafInChunk(carSize, leafIndex)] && r.value.1.path < TWO_32
    ensures r.Ok? && Committed(w, commP, carSize, p) ==> Verify(w.Hash(), r.value.0, r.value.1, commP)
    ensures Ready(w, commP, carSize, leafIndex, p) && IsChunk(buf, p.car, leafIndex) ==> r.Ok?
  {
    var (_, carChunkNodes) := CarChunkParams(carSize);
    var padded, _ := NewPaddedDataBlocksFromBuffer(buf);
    var blocks := padded[..];
    assert IsChunk(buf, p.car, leafIndex) && |p.car| == carSize ==> leafIndex % carChunkNodes < |blocks| by {
      ChallengedIsThere(carSize, leafIndex, buf, p.car);
    }
    if leafIndex % carChunkNodes >= |blocks| {
      return Err("index out of range");
    }
    var leaf := blocks[leafIndex % carChunkNodes];
    var tree := BuildTree(w.Hash(), blocks);
    if tree.Err? || commP !in w.caches {
      return Err("no tree or no cache");
    }
    var proof := ProveLeaf(tree.value, w.caches[commP], leaf);
    if Ready(w, commP, carSize, leafIndex, p) && IsChunk(buf, p.car, leafIndex) {
      ReadyLeafGetsProof(w, commP, leafIndex, buf, p, tree.value);
    }
    if proof.Err? {
      return Err(proof.message);
    }
    if Committed(w, commP, carSize, p) {
      CommittedProofFolds(w, commP, buf, p, tree.value, leaf);
    }
    return Ok((leaf, proof.value));
  }

  lemma ChallengedIsThere(carSize: nat, leafIndex: nat, buf: Bytes, car: Bytes)
    requires carSize < TWO_64 && leafIndex < carSize / NODE_SIZE
    ensures IsChunk(buf, car, leafIndex) && |car| == carSize ==> LeafInChunk(carSize, leafIndex) < |Blocks(buf)|
  {
  }

  lemma ReadyLeafGetsProof(w: World, commP: Bytes, leafIndex: nat, buf: Bytes, p: Piece, tree: Tree)
    requires |p.car| < TWO_64 && leafIndex < |p.car| / NODE_SIZE
    requires Ready(w, commP, |p.car|, leafIndex, p) && IsChunk(buf, p.car, leafIndex)
    requires IsTree(w.Hash(), tree, Blocks(buf))
    ensures LeafInChunk(|p.car|, leafIndex) < |Blocks(buf)|
    ensures ProveLeaf(tree, w.caches[commP], Blocks(buf)[LeafInChunk(|p.car|, leafIndex)]).Ok?
  {
    LeafIsBlock(p.car, leafIndex);
    LeafGetsProof(w.Hash(), p.car, w.caches[commP], p.indexed, leafIndex, tree);
  }

  lemma CommittedProofFolds(w: World, commP: Bytes, buf: Bytes, p: Piece, tree: Tree, leaf: Bytes)
    requires Committed(w, commP, |p.car|, p) && commP in w.caches
    requires |buf| <= CarChunkParams(|p.car|).0 && IsTree(w.Hash(), tree, Blocks(buf))
    requires ProveLeaf(tree, w.caches[commP], leaf).Ok?
    ensures Verify(w.Hash(), leaf, ProveLeaf(tree, w.caches[commP], leaf).value, commP)
  {
    ChunkTreeDepth(|buf|, |p.car|);
    ComposedProofFolds(w.Hash(), p.car, w.caches[commP], p.indexed, buf, tree, leaf);
  }

  /** No chunk's tree is higher than the cache's lowest level. */
  lemma ChunkTreeDepth(n: nat, carSize: nat)
    requires 0 < BlockCount(n) && n <= CarChunkParams(carSize).0
    ensures Depth(BlockCount(n)) <= CarCacheLayerStart(carSize)
  {
    var start := CarCacheLayerStart(carSize);
    LayersMeet(carSize);
    DepthBounds(BlockCount(n));
    if Depth(BlockCount(n)) > start {
      Pow2Monotone(start, Depth(BlockCount(n)) - 1);
    }
  }

  // ----- all leaves

  /**
   What is saved for one challenged leaf: its proof folds it to the car's commitment, and it is that very leaf
   of the CAR if the index charts the CAR.
   */
  ghost predicate Proved(w: World, commP: Bytes, carSize: nat, leafIndex: nat, p: Piece, leaf: string, proof: Proof) {
    && proof.path < TWO_32
    && (Committed(w, commP, carSize, p) ==> Verify(w.Hash(), ParsedOrEmpty(leaf), proof, commP))
    && (Committed(w, commP, carSize, p) && Charted(w, commP, p) ==>
          leafIndex < |Blocks(p.car)| && leaf == ConvertToHexPrefix(Blocks(p.car)[leafIndex]))
  }

  method ProvePoint(w: World, ms: MappingService, commP: Bytes, carSize: U64, leafIndex: nat, proofs: Proofs,
                    ghost p: Piece)
    returns (r: Result<()>)
    requires MetasFit(w) && IndexFits(ms.mappings) && leafIndex < carSize / NODE_SIZE
    modifies ms`mappings, ms`dataRoot, proofs
    ensures IndexFits(ms.mappings)
    ensures Ready(w, commP, carSize, leafIndex, p) ==> r.Ok?
    ensures r.Ok? ==> exists leaf, proof ::
      && Proved(w, commP, carSize, leafIndex, p, leaf, proof)
      && proofs.leaves == old(proofs.leaves) + [leaf] && proofs.proofs == old(proofs.proofs) + [proof]
  {
    if |commP| != 32 {
      return Err("data commitment is not 32 bytes");
    }
    var buf := FetchChunk(w, ms, commP, carSize, leafIndex, p);
    if buf.Err? {
      return Err(buf.message);
    }
    var proof := ProveInChunk(w, commP, carSize, leafIndex, buf.value, p);
    if proof.Err? {
      return Err(proof.message);
    }
    var leaf := ConvertToHexPrefix(proof.value.0);
    HexRoundTrip(proof.value.0);
    if |p.car| == carSize && IsChunk(buf.value, p.car, leafIndex) {
      LeafIsBlock(p.car, leafIndex);
    }
    assert Proved(w, commP, carSize, leafIndex, p, leaf, proof.value.1);
    proofs.Append(leaf, proof.value.1);
    return Ok(());
  }

  /** The leaf and proof saved for each of the listed points. */
  ghost predicate AllProved(w: World, commPs: seq<Bytes>, sizes: seq<nat>, pieces: Bytes -> Piece,
                            points: seq<(nat, nat)>, leaves: seq<string>, proofs: seq<Proof>)
  {
    && |points| == |leaves| == |proofs|
    && forall k :: 0 <= k < |points| ==> PointProved(w, commPs, sizes, pieces, points[k], leaves[k], proofs[k])
  }

  ghost predicate PointProved(w: World, commPs: seq<Bytes>, sizes: seq<nat>, pieces: Bytes -> Piece,
                              point: (nat, nat), leaf: string, proof: Proof)
  {
    && point.0 < |commPs| && point.0 < |sizes|
    && Proved(w, commPs[point.0], sizes[point.0], point.1, pieces(commPs[point.0]), leaf, proof)
  }

  /** Everything needed to prove the point is there. */
  ghost predicate PointReady(w: World, commPs: seq<Bytes>, sizes: seq<nat>, pieces: Bytes -> Piece, point: (nat, nat))
  {
    && point.0 < |commPs| && point.0 < |sizes|
    && Ready(w, commPs[point.0], sizes[point.0], point.1, pieces(commPs[point.0]))
  }

  /** The leaves of one challenged car. */
  method ProveCar(w: World, ms: MappingService, commPs: seq<Bytes>, sizes: seq<nat>, c: CarChallenge, proofs: Proofs,
                  ghost pieces: Bytes -> Piece, ghost done: seq<(nat, nat)>)
    returns (r: Result<()>)
    requires MetasFit(w) && IndexFits(ms.mappings) && c.carIndex < |commPs| == |sizes| && sizes[c.carIndex] < TWO_64
    requires forall k :: 0 <= k < |c.leaves| ==> c.leaves[k] < sizes[c.carIndex] / NODE_SIZE
    requires AllProved(w, commPs, sizes, pieces, done, proofs.leaves, proofs.proofs)
    modifies ms`mappings, ms`dataRoot, proofs
    ensures IndexFits(ms.mappings)
    ensures r.Ok? ==> AllProved(w, commPs, sizes, pieces, done + PointsOf(c), proofs.leaves, proofs.proofs)
    ensures r.Err? ==> exists k :: 0 <= k < |PointsOf(c)| && !PointReady(w, commPs, sizes, pieces, PointsOf(c)[k])
  {
    ghost var points := PointsOf(c);
    for i := 0 to |c.leaves|
      invariant IndexFits(ms.mappings)
      invariant AllProved(w, commPs, sizes, pieces, done + points[..i], proofs.leaves, proofs.proofs)
    {
      assert points[i] == (c.carIndex, c.leaves[i]);
      assert done + points[..i + 1] == done + points[..i] + [points[i]];
      r := ProvePoint(w, ms, commPs[c.carIndex], sizes[c.carIndex], c.leaves[i], proofs, pieces(commPs[c.carIndex]));
      if r.Err? {
        assert !PointReady(w, commPs, sizes, pieces, points[i]);
        return;
      }
    }
    assert points[..|c.leaves|] == points;
    return Ok(());
  }

  // ----- the prover

  /** What one run of the prover or the verifier goes by, and the proofs made in it. */
  datatype Run = Run(commPs: seq<Bytes>, sizes: seq<nat>, cs: seq<CarChallenge>, proofs: seq<Proof>)

  ghost predicate IsChallengeRun(run: Run, sha: Sha, randomness: U64, table: Table) {
    IsCanonical(table, run.commPs, run.sizes) && AreChallenges(run.cs, sha, randomness, run.sizes)
  }

  /** There are cars to challenge, and the sampling of their leaves ends. */
  ghost predicate Challengeable(sha: Sha, randomness: U64, table: Table) {
    && table != map[]
    && forall commPs, sizes :: IsCanonical(table, commPs, sizes) ==> AllSamplable(sha, randomness, sizes)
  }

  lemma CanonicalSizes(table: Table, commPs: seq<Bytes>, sizes: seq<nat>)
    requires IsCanonical(table, commPs, sizes)
    ensures table != map[] ==> |sizes| > 0
    ensures forall i :: 0 <= i < |sizes| ==> commPs[i] in table && sizes[i] == table[commPs[i]]
  {
  }

  /** The file holds what was proved for each point of the run. */
  ghost predicate SavedBy(w: World, pieces: Bytes -> Piece, table: Table, randomness: U64,
                          file: ChallengeProofs, run: Run)
  {
    && IsChallengeRun(run, w.sha, randomness, table)
    && file.randomSeed == randomness
    && AllProved(w, run.commPs, run.sizes, pieces, Points(run.cs), file.leaves, run.proofs)
    && IsPrinted(file, file.leaves, run.proofs)
  }

  /** The entry at this place of the file is for this leaf of this car. */
  ghost predicate AnswersAt(w: World, pieces: Bytes -> Piece, table: Table, file: ChallengeProofs, run: Run,
                            at: nat, car: nat, leafIndex: nat)
  {
    && at < |file.leaves| == |run.proofs| && car < |run.commPs| && run.commPs[car] in table
    && Proved(w, run.commPs[car], table[run.commPs[car]], leafIndex, pieces(run.commPs[car]), file.leaves[at],
              run.proofs[at])
  }

  /** Every leaf of every challenge has its entry, behind those of all earlier ones, and there are no others. */
  ghost predicate AnswersAll(w: World, pieces: Bytes -> Piece, table: Table, file: ChallengeProofs, run: Run) {
    && |file.leaves| == LeafTotal(run.cs)
    && forall i, k :: 0 <= i < |run.cs| && 0 <= k < |run.cs[i].leaves| ==>
         AnswersAt(w, pieces, table, file, run, PlaceOf(run.cs, i, k), run.cs[i].carIndex, run.cs[i].leaves[k])
  }

  lemma SavedAnswersAll(w: World, pieces: Bytes -> Piece, table: Table, randomness: U64,
                        file: ChallengeProofs, run: Run)
    requires SavedBy(w, pieces, table, randomness, file, run)
    ensures AnswersAll(w, pieces, table, file, run)
  {
    PointsCount(run.cs);
    forall i, k | 0 <= i < |run.cs| && 0 <= k < |run.cs[i].leaves|
      ensures AnswersAt(w, pieces, table, file, run, PlaceOf(run.cs, i, k), run.cs[i].carIndex, run.cs[i].leaves[k])
    {
      PointAt(run.cs, i, k);
      SavedAnswersAt(w, pieces, table, randomness, file, run, PlaceOf(run.cs, i, k), run.cs[i].carIndex,
                     run.cs[i].leaves[k]);
    }
  }

  lemma SavedAnswersAt(w: World, pieces: Bytes -> Piece, table: Table, randomness: U64, file: ChallengeProofs, run: Run,
                       at: nat, car: nat, leafIndex: nat)
    requires SavedBy(w, pieces, table, randomness, file, run)
    requires at < |Points(run.cs)| && Points(run.cs)[at] == (car, leafIndex)
    ensures AnswersAt(w, pieces, table, file, run, at, car, leafIndex)
  {
    CanonicalSizes(table, run.commPs, run.sizes);
    assert PointProved(w, run.commPs, run.sizes, pieces, Points(run.cs)[at], file.leaves[at], run.proofs[at]);
  }

  /** The run lacks what it takes to prove some challenged leaf. */
  ghost predicate SomePointNotReady(w: World, pieces: Bytes -> Piece, run: Run) {
    exists k :: 0 <= k < |Points(run.cs)| && !PointReady(w, run.commPs, run.sizes, pieces, Points(run.cs)[k])
  }

  /** A point of one challenge is a point of them all. */
  lemma {:induction false} PointOfAll(cs: seq<CarChallenge>, i: nat, k: nat)
    requires i < |cs| && k < |PointsOf(cs[i])|
    ensures PointsOf(cs[i])[k] in Points(cs)
    decreases |cs|
  {
    var n := |cs| - 1;
    if i < n {
      PointOfAll(cs[..n], i, k);
    }
  }

  /**
   Proves every challenged leaf and writes the proofs down. It gives up only when some challenged car
   has too few leaves or something needed for a challenged leaf is missing.
   */
  method GenChallengeProof(w: World, ms: MappingService, disk: Disk, randomness: U64, ghost pieces: Bytes -> Piece)
    returns (r: Result<ChallengeProofs>, ghost run: Run)
    requires disk.Stored? && Challengeable(w.sha, randomness, disk.table)
    requires MetasFit(w) && IndexFits(ms.mappings) && forall c :: c in disk.table ==> disk.table[c] < TWO_64
    modifies ms`mappings, ms`dataRoot
    ensures IndexFits(ms.mappings)
    ensures r.Ok? ==> SavedBy(w, pieces, disk.table, randomness, r.value, run)
    ensures r.Ok? ==> AnswersAll(w, pieces, disk.table, r.value, run)
    ensures r.Err? && EnoughPoints(w.sha, randomness, run.sizes) ==>
      IsChallengeRun(run, w.sha, randomness, disk.table) && SomePointNotReady(w, pieces, run)
  {
    var list := LoadSortCommp(disk);
    var (commPs, carSize) := list.value;
    CanonicalSizes(disk.table, commPs, carSize);
    run := Run(commPs, carSize, [], []);
    var carChallenges := GenChallenges(w.sha, randomness, |commPs|, carSize);
    if carChallenges.Err? {
      return Err(carChallenges.message), run;
    }
    run := Run(commPs, carSize, carChallenges.value, []);
    var proofs := new Proofs();
    var done := ProveAll(w, ms, randomness, commPs, carSize, carChallenges.value, proofs, pieces);
    if done.Err? {
      return Err(done.message), run;
    }
    var file := NewChallengeProofs(randomness, proofs);
    run := Run(commPs, carSize, carChallenges.value, proofs.proofs);
    SavedAnswersAll(w, pieces, disk.table, randomness, file, run);
    return Ok(file), run;
  }

  /** The loop over the challenged cars. */
  method ProveAll(w: World, ms: MappingService, randomness: U64, commPs: seq<Bytes>, sizes: seq<nat>,
                  cs: seq<CarChallenge>, proofs: Proofs, ghost pieces: Bytes -> Piece)
    returns (r: Result<()>)
    requires MetasFit(w) && IndexFits(ms.mappings)
    requires |commPs| == |sizes| && forall i :: 0 <= i < |sizes| ==> sizes[i] < TWO_64
    requires AreChallenges(cs, w.sha, randomness, sizes)
    requires proofs.leaves == [] && proofs.proofs == []
    modifies ms`mappings, ms`dataRoot, proofs
    ensures IndexFits(ms.mappings)
    ensures r.Ok? ==> AllProved(w, commPs, sizes, pieces, Points(cs), proofs.leaves, proofs.proofs)
    ensures r.Err? ==> exists k :: 0 <= k < |Points(cs)| && !PointReady(w, commPs, sizes, pieces, Points(cs)[k])
  {
    for i := 0 to |cs|
      invariant IndexFits(ms.mappings)
      invariant AllProved(w, commPs, sizes, pieces, Points(cs[..i]), proofs.leaves, proofs.proofs)
    {
      ChallengeInRange(cs, w.sha, randomness, sizes, i);
      assert cs[..i + 1][..i] == cs[..i];
      r := ProveCar(w, ms, commPs, sizes, cs[i], proofs, pieces, Points(cs[..i]));
      if r.Err? {
        ghost var k :| 0 <= k < |PointsOf(cs[i])| && !PointReady(w, commPs, sizes, pieces, PointsOf(cs[i])[k]);
        PointOfAll(cs, i, k);
        return;
      }
    }
    assert cs[..|cs|] == cs;
    return Ok(());
  }

  // ----- the verifier

  /** The commitment every slot is checked against. */
  function RootsAt(commPs: seq<Bytes>, slots: seq<nat>): (r: seq<Bytes>)
    ensures |r| == |slots|
  {
    seq(|slots|, k requires 0 <= k < |slots| => if slots[k] < |commPs| then commPs[slots[k]] else [])
  }

  function RootsOf(run: Run): seq<Bytes> {
    RootsAt(run.commPs, Slots(run.cs))
  }

  /** Whatever order either met the table's keys and the sampled leaves in, two runs check against the same roots. */
  lemma RootsAgree(a: Run, b: Run, sha: Sha, randomness: U64, table: Table)
    requires IsChallengeRun(a, sha, randomness, table) && IsChallengeRun(b, sha, randomness, table)
    ensures RootsOf(a) == RootsOf(b)
  {
    CanonicalUnique(table, a.commPs, a.sizes, b.commPs, b.sizes);
    RunsAgree(a.cs, b.cs, sha, randomness, a.sizes);
  }

  /** A listed leaf, with its proof, folds to the root. */
  predicate Folds(h: NodeHash, leaf: string, proof: Proof, root: Bytes) {
    Verify(h, ParsedOrEmpty(leaf), proof, root)
  }

  /** There is a slot for every leaf, and every leaf folds to its slot's root. */
  ghost predicate AllFold(h: NodeHash, leaves: seq<string>, proofs: seq<Proof>, roots: seq<Bytes>)
    requires |proofs| == |leaves|
  {
    |leaves| <= |roots| && forall i :: 0 <= i < |leaves| ==> Folds(h, leaves[i], proofs[i], roots[i])
  }

  ghost predicate SomeFails(h: NodeHash, leaves: seq<string>, proofs: seq<Proof>, roots: seq<Bytes>)
    requires |proofs| == |leaves|
  {
    exists i :: 0 <= i < |leaves| && i < |roots| && !Folds(h, leaves[i], proofs[i], roots[i])
  }

  /** Every listed leaf folds to the root of the car its slot was challenged on. */
  ghost predicate Accepts(sha: Sha, disk: Disk, file: ChallengeProofs)
    requires file.randomSeed < TWO_64
  {
    && HasProofs(file) && disk.Stored?
    && exists run :: IsChallengeRun(run, sha, file.randomSeed, disk.table)
                  && AllFold(PieceHash(sha), file.leaves, ProofsOf(file), RootsOf(run))
  }

  ghost predicate Rejects(sha: Sha, disk: Disk, file: ChallengeProofs)
    requires file.randomSeed < TWO_64
  {
    && HasProofs(file) && disk.Stored?
    && exists run :: IsChallengeRun(run, sha, file.randomSeed, disk.table)
                  && SomeFails(PieceHash(sha), file.leaves, ProofsOf(file), RootsOf(run))
  }

  /** One run decides. */
  lemma DecidedBy(sha: Sha, disk: Disk, file: ChallengeProofs, run: Run)
    requires file.randomSeed < TWO_64 && HasProofs(file) && disk.Stored?
    requires IsChallengeRun(run, sha, file.randomSeed, disk.table)
    ensures Accepts(sha, disk, file) <==> AllFold(PieceHash(sha), file.leaves, ProofsOf(file), RootsOf(run))
    ensures Rejects(sha, disk, file) <==> SomeFails(PieceHash(sha), file.leaves, ProofsOf(file), RootsOf(run))
  {
    forall other: Run | IsChallengeRun(other, sha, file.randomSeed, disk.table)
      ensures RootsOf(other) == RootsOf(run)
    {
      RootsAgree(other, run, sha, file.randomSeed, disk.table);
    }
  }

  /** With too few points there is no run at all. */
  lemma NoRun(sha: Sha, randomness: U64, table: Table, commPs: seq<Bytes>, sizes: seq<nat>)
    requires IsCanonical(table, commPs, sizes) && |sizes| > 0 && !EnoughPoints(sha, randomness, sizes)
    ensures forall run: Run :: !IsChallengeRun(run, sha, randomness, table)
  {
    forall run: Run
      ensures !IsChallengeRun(run, sha, randomness, table)
    {
      if IsChallengeRun(run, sha, randomness, table) {
        CanonicalUnique(table, commPs, sizes, run.commPs, run.sizes);
        EnoughForAll(run.cs, sha, randomness, sizes);
      }
    }
  }

  /** The car index of every slot. */
  method ListSlots(cs: seq<CarChallenge>) returns (idx: seq<nat>)
    ensures idx == Slots(cs)
  {
    idx := [];
    for i := 0 to |cs|
      invariant idx == Slots(cs[..i])
    {
      assert cs[..i + 1][..i] == cs[..i];
      for j := 0 to |cs[i].leaves|
        invariant idx == Slots(cs[..i]) + seq(j, _ => cs[i].carIndex)
      {
        idx := idx + [cs[i].carIndex];
      }
    }
    assert cs[..|cs|] == cs;
  }

  /** The first n leaves have slots and fold to their roots. */
  ghost predicate FirstFold(h: NodeHash, leaves: seq<string>, proofs: seq<Proof>, roots: seq<Bytes>, n: nat)
    requires |proofs| == |leaves|
  {
    n <= |leaves| && n <= |roots| && forall k :: 0 <= k < n ==> Folds(h, leaves[k], proofs[k], roots[k])
  }

  lemma LeafFails(h: NodeHash, leaves: seq<string>, proofs: seq<Proof>, roots: seq<Bytes>, n: nat)
    requires |proofs| == |leaves| && n < |leaves| && n < |roots| && !Folds(h, leaves[n], proofs[n], roots[n])
    ensures SomeFails(h, leaves, proofs, roots) && !AllFold(h, leaves, proofs, roots)
  {
  }

  lemma NoSlotLeft(h: NodeHash, leaves: seq<string>, proofs: seq<Proof>, roots: seq<Bytes>, n: nat)
    requires |proofs| == |leaves| && n == |roots| < |leaves| && FirstFold(h, leaves, proofs, roots, n)
    ensures !SomeFails(h, leaves, proofs, roots) && !AllFold(h, leaves, proofs, roots)
  {
  }

  lemma EveryLeafFolds(h: NodeHash, leaves: seq<string>, proofs: seq<Proof>, roots: seq<Bytes>, n: nat)
    requires |proofs| == |leaves| == n && FirstFold(h, leaves, proofs, roots, n)
    ensures !SomeFails(h, leaves, proofs, roots) && AllFold(h, leaves, proofs, roots)
  {
  }

  lemma NextFolds(h: NodeHash, leaves: seq<string>, proofs: seq<Proof>, roots: seq<Bytes>, n: nat)
    requires |proofs| == |leaves| && n < |leaves| && n < |roots| && Folds(h, leaves[n], proofs[n], roots[n])
    requires FirstFold(h, leaves, proofs, roots, n)
    ensures FirstFold(h, leaves, proofs, roots, n + 1)
  {
  }

  method CheckProof(h: NodeHash, leaf: string, proof: Proof, root: Bytes) returns (rst: bool)
    ensures rst == Folds(h, leaf, proof, root)
  {
    rst := Verify(h, ParsedOrEmpty(leaf), proof, root);
  }

  /** Checks leaf after leaf; a leaf without a slot is an index out of range. */
  method CheckProofs(h: NodeHash, leaves: seq<string>, proofs: seq<Proof>, commPs: seq<Bytes>, idx: seq<nat>)
    returns (r: Result<bool>)
    requires |proofs| == |leaves| && forall k :: 0 <= k < |idx| ==> idx[k] < |commPs|
    ensures r == Ok(true) <==> AllFold(h, leaves, proofs, RootsAt(commPs, idx))
    ensures r == Ok(false) <==> SomeFails(h, leaves, proofs, RootsAt(commPs, idx))
  {
    ghost var roots := RootsAt(commPs, idx);
    for i := 0 to |leaves|
      invariant FirstFold(h, leaves, proofs, roots, i)
    {
      if i >= |idx| {
        NoSlotLeft(h, leaves, proofs, roots, i);
        return Err("index out of range");
      }
      var rst := CheckProof(h, leaves[i], proofs[i], commPs[idx[i]]);
      assert rst == Folds(h, leaves[i], proofs[i], roots[i]);
      if !rst {
        LeafFails(h, leaves, proofs, roots, i);
        return Ok(false);
      }
      NextFolds(h, leaves, proofs, roots, i);
    }
    EveryLeafFolds(h, leaves, proofs, roots, |leaves|);
    return Ok(true);
  }

  /** Exactly when every leaf of the file folds to the root its slot is challenged on does it come out true. */
  method VerifyChallengeProof(sha: Sha, disk: Disk, file: ChallengeProofs) returns (r: Result<bool>)
    requires file.randomSeed < TWO_64
    requires disk.Stored? ==> Challengeable(sha, file.randomSeed, disk.table)
    ensures r == Ok(true) <==> Accepts(sha, disk, file)
    ensures r == Ok(false) <==> Rejects(sha, disk, file)
  {
    var proofs := ReadProofs(file);
    if proofs.Err? {
      return Err(proofs.message);
    }
    var list := LoadSortCommp(disk);
    if list.None? {
      return Err("commPs is nil");
    }
    var (commPs, carSize) := list.value;
    CanonicalSizes(disk.table, commPs, carSize);
    var carChallenges := GenChallenges(sha, file.randomSeed, |commPs|, carSize);
    if carChallenges.Err? {
      NoRun(sha, file.randomSeed, disk.table, commPs, carSize);
      return Err(carChallenges.message);
    }
    var cs := carChallenges.value;
    DecidedBy(sha, disk, file, Run(commPs, carSize, cs, []));
    SlotsInRange(cs, sha, file.randomSeed, carSize);
    var idx := ListSlots(cs);
    r := CheckProofs(PieceHash(sha), file.leaves, proofs.value, commPs, idx);
  }

  lemma SlotsInRange(cs: seq<CarChallenge>, sha: Sha, randomness: U64, carSize: seq<nat>)
    requires AreChallenges(cs, sha, randomness, carSize)
    ensures forall k :: 0 <= k < |Slots(cs)| ==> Slots(cs)[k] < |carSize|
  {
    forall i | 0 <= i < |cs|
      ensures cs[i].carIndex < |carSize|
    {
      ChallengeInRange(cs, sha, randomness, carSize, i);
    }
    SlotsBelow(cs, |carSize|);
  }

  lemma {:induction false} SlotsBelow(cs: seq<CarChallenge>, carNum: nat)
    requires forall i :: 0 <= i < |cs| ==> cs[i].carIndex < carNum
    ensures forall k :: 0 <= k < |Slots(cs)| ==> Slots(cs)[k] < carNum
  {
    if |cs| > 0 {
      SlotsBelow(cs[..|cs| - 1], carNum);
    }
  }

  // ----- agreement

  /**
   Whatever a prover saves, with whatever chunks its sources gave it and in whatever order its maps
   were met, a verifier with the same commitment table accepts; and it is proofs of five leaves.
   */
  lemma SavedIsAccepted(w: World, pieces: Bytes -> Piece, table: Table, randomness: U64,
                        file: ChallengeProofs, run: Run)
    requires table != map[] && SavedBy(w, pieces, table, randomness, file, run)
    requires forall c :: c in table ==> Committed(w, c, table[c], pieces(c))
    ensures Accepts(w.sha, CommPTable.Stored(table), file)
    ensures |file.leaves| == 5
  {
    CanonicalSizes(table, run.commPs, run.sizes);
    SavedFolds(w, pieces, table, randomness, file, run);
    ChallengeBudget(run.cs, w.sha, randomness, run.sizes);
    PointsCount(run.cs);
  }

  lemma SavedFolds(w: World, pieces: Bytes -> Piece, table: Table, randomness: U64, file: ChallengeProofs, run: Run)
    requires SavedBy(w, pieces, table, randomness, file, run)
    requires forall c :: c in table ==> Committed(w, c, table[c], pieces(c))
    ensures HasProofs(file) && AllFold(PieceHash(w.sha), file.leaves, ProofsOf(file), RootsOf(run))
  {
    var points := Points(run.cs);
    CanonicalSizes(table, run.commPs, run.sizes);
    SlotsOfPoints(run.cs);
    forall i | 0 <= i < |points|
      ensures run.proofs[i].path < TWO_32
      ensures Verify(PieceHash(w.sha), ParsedOrEmpty(file.leaves[i]), run.proofs[i], RootsOf(run)[i])
    {
      assert PointProved(w, run.commPs, run.sizes, pieces, points[i], file.leaves[i], run.proofs[i]);
    }
    ProofFileRoundTrip(file, file.leaves, run.proofs);
  }
}
