# Proving CARs that are not kept

The service builds CAR files from source files, commits to each with a Filecoin piece commitment
(commP), throws the CARs away, and can later still prove random 32-byte leaves of them: it looks the
challenged chunk up in an index, rebuilds just the blocks that touch it, pads the chunk again, and joins
a proof inside the chunk to a cached proof of the chunk's root. This project models that path in Dafny
and proves that its parts fit.

Run `dafny verify dfyconfig.toml` in this directory.

| file | what it models |
|---|---|
| `Bytes.dfy` | bytes, 64-bit words, bit operations, little-endian numbers |
| `Collections.dfy` | ranging over a map in no fixed order, sorting |
| `Fr32.dfy` | the bit shuffle that spreads 127 bytes over four nodes, and its meaning and inverse |
| `PieceTree.dfy` | the truncated hash, the nul tower, the tree over zero-extended leaves, `PadCommP` |
| `MerkleTree.dfy` | the Merkle library: levels, lookup by value, level cache, appended proofs |
| `PaddedBlocks.dfy` | CAR bytes to leaves; chunk and cache parameters |
| `LeafProof.dfy` | addressing a leaf and composing the two halves of its proof |
| `TailChunk.dfy` | exactly when a leaf can be proved whatever the CAR holds |
| `PieceCommitment.dfy` | `GenCommP`, its piece size, and lifting its result |
| `Challenges.dfy` | which leaves of which cars are challenged |
| `CommPTable.dfy` | the table of commitments: canonical order, saving under a lock |
| `ProofFile.dfy` | hexadecimal proofs and reading them back |
| `CarFormat.dfy` | CAR frames, their offsets, and reading them back |
| `CarIndex.dfy` | `MappingService`: the index from CIDs to places in source and CAR |
| `CarWriter.dfy` | the recording writer and what it infers from a CAR write |
| `RangeSelection.dfy` | which blocks a byte range selects |
| `DagCodec.dfy` | node encodings as parameters; what it means that a mapping names its payload |
| `ChunkRange.dfy` | rebuilding blocks into a sparse file and reading a range of it |
| `DagBuilder.dfy` | the splitter, the builder with its lookahead, and the DAG service callbacks |
| `Rebuilding.dfy` | exactly which nodes can be rebuilt, and what every run of the builder leaves on record for it |
| `Pipeline.dfy` | write, check, save, load, query |
| `ChallengeProof.dfy` | the prover, the verifier, and why they agree |
| `Acceptance.dfy` | what the verifier's yes means, and what it does not ask |
| `EndToEnd.dfy` | from the source file to the challenge: build, record, write, save, commit, prove |

The hash, the CID of a block, the UnixFS encodings, the CAR header and `cid.Parse` are parameters; the
lemmas say what they need of them (`CollisionFree`, `LeafTypesRecover`, `ParentsDiffer`,
`LeavesAreNoParents`, `Quiet`). The
Merkle library is not part of the repository: `MerkleTree.dfy` gives it reference definitions, with the
conventions of the repository's test data (a set path bit means a left child; a level with an odd
number of nodes is completed with the nul subtree). Its lookup is by leaf value, so the model lets it
return any occurrence of an equal leaf. How many nodes of its lowest level a cache finds is a parameter
too, `indexed`: the caches in `testdata/output` leave out the node over a partial last chunk.

## What came out

- The two halves of a proof always fold to the commitment once both lookups succeed, whatever bytes the
  chunk was made from (`LeafProof.ComposedProofFolds`). So whatever the prover saves, the verifier
  accepts (`ChallengeProof.SavedIsAccepted`).
- That a leaf can be proved at all is false for some last chunks. For any hash, and every CAR on which
  that hash has no clash, a leaf gets its proof if and only if some node that the cache finds stands over
  the chunk's own zero-extended blocks (`TailChunk.ProvableUnder`); for a chunk that pads to more than half
  of its nodes, if and only if some indexed chunk, be it another one, has the same zero-extended blocks
  (`TailChunk.ProvableWhenSame`). Over all hashes and contents of a size, the chunk must pad to more than
  half of its nodes and be indexed itself (`TailChunk.ProvableExactly`), and with caches that index only
  nodes over whole chunks, as those in `testdata/output` do, it must be full (`TailChunk.ProvableWhenFull`).
- A block's recorded place is right if and only if no buffer written after its CID was taken for that
  CID (`CarWriter.PlaceIsRightExactly`).
- A range query gets an answer if and only if each block it touches can be rebuilt, whatever the other
  blocks are (`ChunkRange.AnswerExactly`), and a block can be rebuilt if and only if it is on record: its
  source range holds its payload, or it was built around children whose sizes the index has
  (`Rebuilding.RebuiltExactly`).
- For a file node the size looked up is the child's `Size` (service/mapping.go:361), and only the leaves of
  taken chunks have one: the DAG service callback leaves it at zero (service/mapping.go:126-129). So a file
  node that a run leaves in the index can be rebuilt if and only if the run, before or after the node, added
  each of its children, and added those that hold bytes as leaves of taken chunks, through the builder, the
  first time (`Rebuilding.RunRebuildsExactly`). A file node above an inner node that holds bytes
  never can (`Rebuilding.DeepFileIsLost`), three nodes are enough to get there (`Rebuilding.LoseRoot`), and
  every query that touches such a node is an error (`Pipeline.DeepFileStopsQuery`).
- The verifier's yes, exactly: a file is accepted if there is a slot for every entry and every entry belongs to
  the tree of its slot's car; and only then, unless a proof in the file shows two different inputs with the
  same truncated hash (`Acceptance.AcceptedExactly`). Belonging to the tree is less than being the challenged
  leaf. An entry is the node its path spells, as many levels below the root as it has siblings, with its true
  siblings; or, since neither entries nor siblings are asked for a length (service/proof.go:356-359,
  service/proofHelper.go:243-261), it is no node but a piece of the bytes of two neighbouring nodes, whose
  other piece is its sibling; or, with more siblings than levels, its fold makes a block on its way.
- So a file of any nodes of its slots' cars, inner nodes and roots included, is accepted whatever was
  challenged (`Acceptance.AnyNodeAccepted`), and so are a file of a cut entry, the empty one included
  (`Acceptance.CutAccepted`), and a file of no entries (`Acceptance.NoLeavesAccepted`). A caller who also asks
  for 32 bytes, one sibling a level and a path that spells the leaf has that block of the car, or a collision
  (`Acceptance.AcceptedAnswers`).
- What the recorder does from the first chunk of the source file on leaves an index from which any leaf can
  be proved whose chunk pads to more than half of its nodes and is indexed, if the blocks that the chunk
  touches are on record (`EndToEnd.BuildAndWrite`, `EndToEnd.RecordedCarIsReady`); and they are if and only if
  the run added all children of the file nodes among them, as above (`EndToEnd.BuiltOnRecord`).

## Model

| member | source | states |
|---|---|---|
| Fr32.ShuffleIsExpansion | service/proof.go:387-428 | the shifts, joins and 2-bit shims write exactly the four base-2^254 digits of the chunk read as a little-endian number |
| Fr32.DigitIsShift | service/proof.go:380-381 | digit k is (N >> 254k) mod 2^254 |
| Fr32.ShimmedNode | service/proof.go:400-410 | clearing the top two bits of a node's last byte leaves a 254-bit number, and what is cleared is exactly what the next node starts with |
| Fr32.JoinBytes | service/proof.go:405-425 | one inner loop writes each seam of two neighbouring bytes and nothing else |
| Fr32.ExpandChunk | service/proof.go:387-429 | one turn of the outer loop puts the expansion of its chunk behind what was written before |
| Fr32.DataPadding | service/proof.go:381-432 | the output is the expansion of every whole chunk in turn; a partial last chunk is ignored |
| Fr32.PaddedAt | service/proof.go:383-386 | slab j of the expansion is that of chunk j |
| Fr32.NodeBelowField | service/proof.go:380-432 | every node read as a number is the digit it carries, below 2^254 |
| Fr32.UnpaddedOfPadded | service/proof.go:381-432 | padding loses nothing: any number of whole chunks can be read back |
| PieceTree.InitStackedNulPadding | service/proof.go:621-631 | afterwards entry i is the root of 2^i zero leaves |
| PieceTree.HashIsTruncated | service/proof.go:371-378 | the hash, read as a number, is the low 254 bits of SHA-256 |
| PieceTree.TowerInField | service/proof.go:621-631 | every entry of the tower has at most 254 bits |
| PieceTree.NodeInField | service/proof.go:583-594 | so has every node of a tree over leaves that have |
| PieceTree.NodeBeyond | service/proof.go:621-631 | a subtree past the last leaf is the tower's entry for its level |
| PieceTree.PowerOfTwoTest | service/proof.go:76-81 | one set bit means a power of two below 2^64, whose exponent is the number of trailing zeros |
| PieceTree.PadCommP | service/proof.go:71-113 | succeeds exactly on 32 bytes and powers of two between 128 and the maximum in order; then it climbs from the source's level to the target's, never leaving the tower's 31 entries |
| PieceTree.LiftInField | service/proof.go:103-110 | lifting a number of 254 bits gives one |
| PieceTree.LiftInStages | service/proof.go:100-110 | lifting in two stages is lifting once |
| PieceTree.LiftIsNode | service/proof.go:103-110 | lifting the node over all leaves gives the node over all leaves of the higher tree |
| PieceTree.LiftRebuildsExtendedTree | service/proof.go:71-113 | lifting the root of 2^a leaves gives the root of these leaves and zero leaves up to 2^b |
| MerkleTree.LevelAgrees | service/proof.go:583-583 | what the library builds level by level with nul padding is the tree over the zero-extended leaves |
| MerkleTree.TopLevel | service/proof.go:583-594 | the top level is one node, the root |
| MerkleTree.NewWithPadding | service/proof.go:583-587 | there is a tree exactly over one or more leaves, and its index finds every leaf |
| MerkleTree.NewLevelCache | service/proof.go:162-167 | there is a cache exactly when the tree reaches the level it starts at |
| MerkleTree.FoldClimbs | service/proof.go:589-594 | folding a node with its siblings and path bits gives its ancestor |
| MerkleTree.FoldOnce | service/proof.go:589-594 | a set bit puts the node to the left of its sibling, a clear one to the right |
| MerkleTree.TreeProofFolds | service/proof.go:581-595 | whichever occurrence of the leaf was found, its proof folds to the root and has one sibling a level |
| MerkleTree.CacheProofFolds | service/proof.go:600-608 | whichever occurrence of the node was found in the cache, its proof folds to the root of the whole tree |
| MerkleTree.AppendedProofFolds | service/proof.go:611-616 | a proof up to a node and a proof from that node up make one proof, as long as both paths fit 32 bits |
| PaddedBlocks.LayersMeet | service/proof.go:473-490 | chunk size, chunk nodes and cache layer start fit each other for every CAR size: whole slabs, and a full subtree |
| PaddedBlocks.FillBlocks | service/proofHelper.go:71-80 | one turn of the outer loop writes the four blocks of its chunk and keeps the others |
| PaddedBlocks.NewPaddedDataBlocksFromBuffer | service/proofHelper.go:55-92 | block i is digit i mod 4 of the number slab i / 4 spells, the last slab zero-filled; the padded size is 32 bytes a block |
| PaddedBlocks.BlocksOfRange | service/proof.go:277-288 | padding a range of whole slabs on its own gives the blocks it has in the whole CAR, partial tail included |
| PaddedBlocks.BlocksArePadded | service/proofHelper.go:55-92 | the blocks, one after the other, are the expansion of the zero-filled data, which can be read back from them |
| PaddedBlocks.BlockBelowField | service/proofHelper.go:71-80 | every block is a 254-bit number |
| LeafProof.AddressInRange | service/proof.go:270-288 | for every CAR size and leaf below size / 32 the chunk starts inside the CAR, so no product overflows, and the leaf is one of the blocks of the possibly truncated chunk |
| LeafProof.LeafIsBlock | service/proof.go:284-288 | the block picked from the fetched chunk is the challenged leaf of the CAR |
| LeafProof.ChunkSubtree | service/proof.go:283-297 | grown to the cache's level, the chunk's tree is the node of the whole tree above the chunk |
| LeafProof.ChunkDepth | service/proof.go:473-490 | the chunk's own tree reaches the cache's lowest level exactly when it has more than half of the nodes, and else ends below it |
| LeafProof.ChunkRootIsCached | service/proof.go:288-297 | then the chunk's root is a node of the cache's lowest level |
| LeafProof.ComposedProofFolds | service/proof.go:283-308 | any proof that comes out folds its leaf to the commitment of the whole CAR |
| LeafProof.LeafGetsProof | service/proof.go:283-304 | with more than half of the nodes and an indexed chunk both lookups succeed |
| LeafProof.ProofComposition | service/proof.go:268-314 | both together, for every CAR and leaf |
| TailChunk.EqualTrees | service/proof.go:583-594 | without a clash, a node of one tree equals a node of another if and only if all leaves under it equal the nodes the same number of levels below the other |
| TailChunk.ProvableUnder | service/proof.go:268-314 | for every hash and every CAR without a clash: a proof comes out if and only if some indexed node, the chunk's own or another, stands over nodes that are the chunk's zero-extended blocks |
| TailChunk.ProvableWhenSame | service/proof.go:283-304 | for a chunk with more than half of its nodes: if and only if some indexed chunk of the CAR has the same zero-extended blocks, repeated data included |
| TailChunk.SomeCarHasNoProof | service/proof.go:288-299 | so for every such size there is a hash and a CAR on which it has no clash whose leaf has no proof |
| TailChunk.ProvableExactly | service/proof.go:268-314 | over every hash and every CAR of a size: a leaf always gets its proof if and only if the chunk has more than half of its nodes and is indexed |
| TailChunk.ProvableWhenFull | service/proof.go:160-169 | with a cache that indexes floor(nodes / 2^start) nodes, if and only if the chunk is full |
| PieceCommitment.RoundedUpIsTree | service/proof.go:154-158 | the rounded padded size is that of the smallest full tree over the blocks |
| PieceCommitment.PieceSizeIsLeast | service/proof.go:154-158 | which is the least power of two that is not smaller, as long as it fits a word |
| PieceCommitment.GenCommP | service/proof.go:145-175 | the root, tree size and upper levels of the tree over the padded CAR, or an error exactly when there is no tree, it does not reach the cache's level, or the cache cannot be stored |
| PieceCommitment.CommPInField | service/proof.go:152-175 | the commitment of any CAR has at most 254 bits |
| PieceCommitment.CommPLifts | service/proof.go:71-113 | a CAR's commitment and size are fit for PadCommP, and lifting gives the root over the CAR's blocks and zero leaves |
| Challenges.LeafChallengeCount | service/proof.go:448-463 | five challenges dealt out, the remainder to the first entries |
| Challenges.LeafBudget | service/proof.go:448-463 | the counts add up to five and differ by at most one |
| Challenges.CarIndexInRange | service/proof.go:520-538 | every car index is below the number of cars |
| Challenges.CarIsHashed | service/proof.go:525-537 | with more than five cars, entry i challenges the car that the first eight bytes of the hash of randomness and i, each spelled lowest byte first, name modulo the number of cars |
| Challenges.TurnPicksLeaf | service/proof.go:552-568 | each turn of the sampling picks the leaf that the hash of randomness plus the turn, wrapped, and the car index names modulo the leaves |
| Challenges.SamplingEndsExactly | service/proof.go:551-568 | the sampling can end exactly when the hash takes enough values modulo the points |
| Challenges.SampleUnique | service/proof.go:551-568 | then it ends within one cycle of the wrapping counter, with exactly the requested number of leaves |
| Challenges.GenLeafChallenge | service/proof.go:542-576 | exactly the requested number of distinct leaves below size / 32, or an error exactly when there are too few |
| Challenges.DrawsAgree | service/proof.go:570-572 | two draws pick the same leaves, in whatever order |
| Challenges.GenCarLeaves | service/proof.go:503-512 | one entry: its car and that many leaves of it |
| Challenges.GenChallenges | service/proof.go:493-516 | all entries, each drawn from the hash as the rules say, or an error exactly when some challenged car has too few leaves |
| Challenges.ChallengeIsDrawn | service/proof.go:493-576 | every entry of the challenges is the car so named, or car i of at most five, with exactly the leaves of the first turns of its sampling, or all its leaves, and its share of the five |
| Challenges.ChallengeBudget | service/proof.go:493-538 | five leaves in all, evenly dealt, on cars of the dataset; with at most five cars each car exactly once |
| Challenges.SlotsOfPoints | service/proof.go:347-354 | slot i of the verifier is the car of leaf i of the prover |
| Challenges.PointAt | service/proof.go:269-271 | leaf k of entry i is a point, behind the leaves of all earlier entries, and its slot is the entry's car |
| Challenges.PointsCount | service/proof.go:269-316 | there are as many proofs as challenged leaves |
| Challenges.RunsAgree | service/proof.go:347-354 | two runs challenge the same cars in the same slots and the same leaves of each |
| CommPTable.SortCommPSlices | service/proof.go:655-672 | the keys in strictly increasing byte order, each with its size |
| CommPTable.LessExactly | service/proof.go:662-664 | one key precedes another exactly when it is a proper prefix or smaller at the first byte where they differ |
| CommPTable.CanonicalUnique | service/proof.go:655-672 | a table has one such list, whatever order its keys were met in |
| CommPTable.LoadSortCommp | service/proof.go:437-445 | the table's list, or none if the file cannot be read |
| CommPTable.CommPFile.SaveCommP | service/proof.go:116-142 | the new entry is in and every other entry stays; a missing lock changes nothing and is the only error reported; a file that cannot be opened stays, one that cannot be written is left empty |
| CommPTable.SaveIsSixSteps | service/proof.go:127-141 | a process that takes its steps in a row does what SaveCommP does |
| CommPTable.StepKeepsTable | service/proof.go:116-142 | every step of any process keeps file and memory consistent with the completed saves |
| CommPTable.RunKeepsInv | service/proof.go:116-142 | so it is in every state of every run |
| CommPTable.NoLostSave | service/proof.go:116-142 | with the lock free, the file holds the saves of exactly the finished processes, in lock order |
| CommPTable.SavedKeys | service/proof.go:137-137 | every saved commitment is in the table |
| CommPTable.SavedEntry | service/proof.go:137-137 | with the size of the last save, in lock order, of that commitment |
| CommPTable.UnsavedEntry | service/proof.go:132-137 | an entry that nobody saves stays as it was |
| ProofFile.HexRoundTrip | utils/encode.go:9-21 | parsing printed bytes gives them back |
| ProofFile.EncodedAt | utils/encode.go:9-11 | two lower-case digits a byte, the high half first |
| ProofFile.HexValExactly | utils/encode.go:13-21 | a character has a value exactly if it is a digit of either case |
| ProofFile.DecodeExactly | utils/encode.go:13-21 | a string decodes exactly if it is digits, two for every byte, and then to those bytes |
| ProofFile.PathRoundTrip | service/proofHelper.go:253-253 | parsing a printed path gives it back, or the largest 32-bit word if it has more bits |
| ProofFile.NumberDigit | service/proofHelper.go:219-219 | digit j from the right of a printed path is that of 16^j |
| ProofFile.NumberLength | service/proofHelper.go:219-219 | and there are no leading zeros |
| ProofFile.ScanForeign | service/proofHelper.go:253-253 | a foreign character behind the digits makes the path zero |
| ProofFile.Proofs.Append | service/proofHelper.go:199-203 | leaf and proof go to the end of both lists |
| ProofFile.NewChallengeProofs | service/proofHelper.go:206-222 | seed, leaves, printed siblings and printed paths, proof by proof |
| ProofFile.ReadProofs | service/proofHelper.go:243-261 | the proofs read back, or a failure exactly when a leaf lacks siblings or path |
| ProofFile.ProofFileRoundTrip | service/proofHelper.go:206-261 | reading undoes writing for any siblings and any 32-bit paths |
| ProofFile.NewDatasetProof | service/proofHelper.go:153-164 | root and leaves printed, sizes kept |
| ProofFile.ReadDatasetProof | service/proofHelper.go:178-191 | reads back any tree that NewDatasetProof printed |
| CarFormat.FrameInCar | service/mapping.go:339-344 | the bytes from a block's offset to the next are its length, CID and data |
| CarFormat.EndOfCar | service/mapping.go:195-202 | header length plus all framed sizes is the CAR's length |
| CarFormat.UvarintReadsBack | service/mapping.go:197-201 | a reader of seven bits a byte gets back the number that was written, and what follows it |
| CarFormat.UvarintIsShortest | service/mapping.go:197-201 | no shorter encoding would hold the number |
| CarFormat.CarReadsBack | service/mapping.go:339-344 | a CAR is read back frame by frame behind its header: the same blocks with their CIDs and data |
| CarIndex.MappingService.SetCarDataRoot | service/mapping.go:68-70 | the root is set |
| CarIndex.MappingService.InsertMapping | service/mapping.go:176-185 | the first mapping of a CID stays, with its raw size; a second is an error |
| CarIndex.MappingService.UpdateMapping | service/mapping.go:187-206 | only the offset of a known CID changes, to the start of its frame |
| CarIndex.MappingService.CarWriteAfterAction | service/mapping.go:163-174 | a buffer that parses as a known CID updates it; any other changes nothing |
| CarIndex.MappingService.DagServerAction | service/mapping.go:126-129 | files a node without a source unless its CID is known |
| CarIndex.MappingService.HelperAction | service/mapping.go:143-150 | files a node with its source range unless its CID is known |
| CarIndex.MappingService.VerifyMappingsContinuity | service/mapping.go:246-258 | succeeds exactly when each mapping starts where the one before ends |
| CarIndex.ContinuousExactly | service/mapping.go:246-258 | in offsets and sizes: exactly when each mapping starts at the end of the one before, as a 64-bit word |
| CarIndex.MappingService.Select | service/mapping.go:280-290 | the mappings that pass a test, each once, in the order of the map |
| CarIndex.MappingService.SortAndVerify | service/mapping.go:291-297 | the same mappings by offset, and whether they stand side by side |
| CarIndex.MappingService.GetChunkMappings | service/mapping.go:276-298 | exactly the mappings the four-way test picks, sorted; an error exactly when they leave a gap |
| CarIndex.MappingService.GetAllChunkMappings | service/mapping.go:261-273 | all mappings, sorted; an error exactly when they leave a gap |
| CarIndex.MappingService.SaveMetaMappings | service/mapping.go:209-228 | the root and all mappings, sorted |
| CarIndex.MappingService.LoadMetaMappings | service/mapping.go:231-243 | the index is the file's mappings under their CIDs |
| CarIndex.KeyedIsLast | service/mapping.go:238-241 | a later mapping of the file replaces an earlier one of the same CID |
| CarIndex.SaveLoadRoundTrip | service/mapping.go:209-243 | loading a saved index gives it back |
| CarWriter.WrapWriter.Write | libs/writter.go:26-40 | bytes pass unchanged; only a complete write is recorded and moves the offset |
| CarWriter.WriteAll | libs/writter.go:26-40 | a run of writes up to the first failure: content, offset and index |
| CarWriter.RunRecordsLast | service/mapping.go:163-206 | a run changes nothing but the offset of a mapping, set by the last buffer that parsed as its CID |
| CarWriter.WritesAreCar | service/mapping.go:339-344 | the buffers add up to the CAR |
| CarWriter.PlaceIsRightExactly | service/mapping.go:187-206 | a block's recorded place is right exactly when no later buffer was taken for its CID |
| CarWriter.OnlyCidsIsQuiet | service/mapping.go:163-166 | distinct blocks and no other buffer that parses as a CID make a run in which that never happens |
| CarWriter.RunDescribesCar | service/mapping.go:163-206 | then every offset is the header length plus the framed sizes of all earlier blocks |
| CarWriter.WriteCar | libs/writter.go:26-40 | writing a whole CAR leaves the CAR, the writer at its end, and an index that describes it |
| RangeSelection.TouchedIsInRun | service/mapping.go:282-288 | the four-way test picks exactly the mappings whose closed range meets the closed query |
| RangeSelection.WrappedTouches | service/mapping.go:282-288 | when the end of the query has wrapped around, it picks what reaches from behind that end to its start |
| RangeSelection.SelectionIsRun | service/mapping.go:276-298 | from a tiling set the selection is one contiguous run in CAR order and passes the check, whatever the map order |
| RangeSelection.AllMappingsContinuous | service/mapping.go:261-273 | all mappings of a tiling set, sorted, are the tiling and pass the check |
| RangeSelection.RunCovers | service/mapping.go:276-298 | the run covers the query inside the mapped area |
| DagCodec.NodeTypeWillDo | service/mapping.go:391-399 | a leaf found under a CID can be rebuilt with the type on record |
| ChunkRange.GenerateNodeWithoutData | service/mapping.go:351-374 | the node around the recorded links and child sizes, or an error exactly when a child is unknown |
| ChunkRange.Rebuild | service/mapping.go:318-337 | a node from source or links, accepted exactly under its own CID |
| ChunkRange.SparseFile.Write | service/mapping.go:340-344 | writing at a position overwrites, extends, or leaves a hole of zeros |
| ChunkRange.PatchAt | service/mapping.go:340-344 | every byte of the file after a write is what was written there, what was there before, or zero |
| ChunkRange.PatchLength | service/mapping.go:340-344 | a write cuts nothing off |
| ChunkRange.GenerateChunksFromMappings | service/mapping.go:303-348 | header and listed blocks at their offsets, or an error exactly when one cannot be rebuilt or placed |
| ChunkRange.ReadRange | service/mapping.go:452-467 | the range, cut off at the file's end; an error exactly behind the end or when offset or size is no signed 64-bit position |
| ChunkRange.GetChallengeChunk | service/mapping.go:417-468 | the reply that follows from some sorted selection of the touched mappings, for any 64-bit offset and size; the index is that of the file, or, as the error of a load is ignored, the one loaded before if the file is there but cannot be read |
| ChunkRange.GapStopsAnswer | service/mapping.go:428-432 | a gap or an overlap between two selected mappings is an error |
| ChunkRange.FileHolds | service/mapping.go:303-348 | the sparse file agrees with the CAR in the header and all along the run |
| ChunkRange.AnswerIsSlice | service/mapping.go:417-468 | when the mappings tile the CAR, an answer is car[offset .. min(offset + size, length)], whatever the sources hold by now |
| ChunkRange.FileExactly | service/mapping.go:318-345 | the file comes out exactly when each listed node can be rebuilt and its place is a signed file position |
| ChunkRange.AnswerExactly | service/mapping.go:417-468 | and there is one exactly when the blocks the range touches can be rebuilt, whatever the others are |
| ChunkRange.ReplyExactly | service/mapping.go:417-468 | both for the reply itself |
| ChunkRange.DescribedCharts | service/mapping.go:331-344 | an index that describes a CAR of blocks under their own CIDs tiles it |
| DagBuilder.SliceSplitter.NextBytesWithMeta | libs/chunker.go:48-61 | the next chunk with its path, offset and size; the offset moves on by the size |
| DagBuilder.WrapDagBuilder.PrepareNext | libs/helper.go:88-98 | fetches only when nothing is waiting; never changes what is still to be delivered |
| DagBuilder.WrapDagBuilder.Done | libs/helper.go:101-109 | true exactly at the end of an unbroken file |
| DagBuilder.WrapDagBuilder.Next | libs/helper.go:112-125 | the first pending chunk with its own tag, none at the end, an error after a broken read |
| DagBuilder.WrapDagBuilder.NewLeafDataNode | libs/helper.go:50-74 | the leaf of the first pending chunk, whose tag is filed under the leaf's CID; if no leaf can be made the chunk is gone and nothing is filed |
| DagBuilder.WrapDagBuilder.Add | libs/helper.go:77-85 | a filed tag reaches the index before the DAG service's own insert, which cannot erase it |
| DagBuilder.AddedIsNamed | libs/helper.go:77-85 | what Add inserts names a source range that holds the node's payload |
| DagBuilder.InsertKeepsIndexRight | service/mapping.go:176-185 | inserting a node keeps all source ranges and sizes on record right |
| DagBuilder.Handle | libs/helper.go:50-85 | every event of builder or DAG service keeps tags and index right, and changes the index as the event says |
| DagBuilder.RunEvents | libs/helper.go:50-85 | in every run a mapping with a source path names a range with its block's payload and the sizes on record are the block's; the run's trace says how the index came about |
| DagBuilder.RunKeepsMappings | service/mapping.go:176-185 | no mapping is ever changed or lost in a run |
| DagBuilder.RunRecordsNodes | service/mapping.go:109-150 | in every run the index holds of each node what the first event that added it recorded: CID, links, type, sizes, and the tag's source if the builder added a tagged node |
| DagBuilder.RunHoldsAdded | service/mapping.go:176-185 | and it holds every node that was added |
| DagBuilder.RunSizesTagged | service/mapping.go:126-150 | in every run, a node never made of a chunk is on record with file size zero |
| DagBuilder.RunLookahead | libs/helper.go:88-125 | in every interleaving of Done and Next the chunks come in order, once each, each with its own tag |
| DagBuilder.TagsTile | libs/chunker.go:48-61 | the tags tile the source from chunkStart with no gap or overlap |
| DagBuilder.TagsNameSource | libs/chunker.go:48-61 | each tag names the source bytes that are its chunk |
| Rebuilding.ParentRebuildsExactly | service/mapping.go:351-374 | a node without a source can be rebuilt exactly when the index has every child with the size its parent was built with: file size under a file node, block size under any other |
| Rebuilding.RebuiltExactly | service/mapping.go:318-337 | a node of the index can be rebuilt exactly when its source range holds its payload or its children's sizes are on record |
| Rebuilding.FileRebuiltExactly | service/mapping.go:351-374 | a file node without a source can be rebuilt if and only if the index has each of its children, with a source for those that hold bytes |
| Rebuilding.RunSizesSourced | service/mapping.go:126-150 | in every run over named source files, a mapping with a file size has a source |
| Rebuilding.AddedIsFiled | service/mapping.go:176-185 | a child that a run adds, as the leaf of a taken chunk and first if it holds bytes, stays in the index so |
| Rebuilding.FiledIsAdded | service/mapping.go:176-185 | and the index has no child otherwise |
| Rebuilding.RunRebuildsExactly | service/mapping.go:318-337 | in every run, a file node without a source can be rebuilt from the index the run leaves if and only if the run adds each of its children, those with bytes first as leaves of taken chunks |
| Rebuilding.ZeroSizeIsFatal | service/mapping.go:358-364 | a file node with a child whose size is wrongly on record as zero cannot be rebuilt |
| Rebuilding.DeepFileIsLost | service/mapping.go:358-364 | in every run, a file node above an inner node that holds bytes cannot be rebuilt from the index the run leaves |
| Rebuilding.ThreeLevelsLost | service/mapping.go:126-129 | a leaf, an inner node and a root added in this order lose the root, for any bytes and any encoding |
| Rebuilding.LoseRoot | libs/helper.go:77-85 | the builder and the DAG service get there |
| Rebuilding.KeepRoot | libs/helper.go:50-85 | taking a chunk and adding its leaf and a node over that leaves both in the index, the leaf with the chunk's source, and both can be rebuilt |
| Pipeline.RecordedIsKnown | service/mapping.go:126-150 | the sizes the recorder keeps are those the CAR writer needs to place every block |
| Pipeline.DescribedPassCheck | service/mapping.go:246-273 | sorted, the mappings that describe a CAR are its blocks in order, pass the continuity check, start at the header's end and end at the CAR's |
| Pipeline.WriteAndCheck | service/mapping.go:261-273 | after a whole CAR is written the check succeeds and the last mapping ends at the writer's offset |
| Pipeline.SavedIndexCharts | service/mapping.go:209-243 | the index saved after a recorded CAR write, loaded again, tiles that CAR, one mapping for each block |
| Pipeline.TouchedRebuild | service/mapping.go:276-298 | the run for a range can be rebuilt exactly when the blocks it touches were on record before the write |
| Pipeline.RecordedIndexAnswers | service/mapping.go:417-468 | end to end: an answer from such an index is the CAR's bytes, and comes out exactly when the touched blocks were on record |
| Pipeline.LostBlockStopsQuery | service/mapping.go:318-337 | a query that touches a block that cannot be rebuilt is an error |
| Pipeline.DeepFileStopsQuery | service/mapping.go:358-364 | so is every query that touches a deep file node |
| ChallengeProof.FetchChunk | service/proof.go:277-281 | if the index tiles the CAR, the chunk around the leaf, exactly when the blocks that chunk touches can be rebuilt |
| ChallengeProof.ProveInChunk | service/proof.go:283-312 | the block at the leaf's place and a proof that folds to the table's commitment; never an error when everything is ready |
| ChallengeProof.ProvePoint | service/proof.go:271-315 | leaf and proof of one challenge go to the end of the proofs |
| ChallengeProof.ProveCar | service/proof.go:271-315 | all leaves of one challenged car, in order |
| ChallengeProof.GenChallengeProof | service/proof.go:258-323 | the saved file holds, for each challenged leaf of each challenged car and in that order, a folding proof for that leaf, which is the CAR's own when the index tiles the CAR; it fails only for too few points or a leaf whose own chunk is not ready |
| ChallengeProof.SavedAnswersAll | service/proof.go:269-317 | for each leaf of each challenge, and behind those of all earlier ones, a saved file has that leaf's entry, and it has no others |
| ChallengeProof.RootsAgree | service/proof.go:337-359 | two runs over one table check against the same roots, slot by slot |
| ChallengeProof.ListSlots | service/proof.go:348-354 | the car index of every slot |
| ChallengeProof.CheckProofs | service/proof.go:356-364 | true exactly when every leaf folds to its slot's root, false exactly when one does not |
| ChallengeProof.DecidedBy | service/proof.go:326-367 | acceptance does not depend on the run |
| ChallengeProof.VerifyChallengeProof | service/proof.go:326-367 | true exactly on files whose every leaf folds to the root of its slot's car |
| ChallengeProof.SavedIsAccepted | service/proof.go:258-366 | whatever the prover saves is accepted over the same table, and it is five proofs |
| Acceptance.PathSpellsIndex | service/proof.go:589-594 | the path of a leaf spells the leaf's index |
| Acceptance.ClashIsReal | service/proof.go:372-378 | two parts of any lengths that hash to a node and are not its children have a different input with the same truncated hash, or are the children's bytes cut at another place, neither part of 32 bytes |
| Acceptance.FoldExactly | service/proof.go:359-359 | a proof folds to the root if it is the way up from the node its path spells, or from that node's and its sibling's bytes cut elsewhere, and only then, unless a step of it shows a collision |
| Acceptance.InTreeExactly | service/proof.go:359-359 | the same for any number of siblings: a fold of more steps than levels makes a block on its way and goes up from there |
| Acceptance.AcceptedIsNode | service/proof.go:356-364 | an accepted entry, whatever its length and number of siblings, is the node of its slot's car that its path spells, a cut of two neighbouring nodes, or folded to a block on its way; or its proof shows a collision |
| Acceptance.AcceptedExactly | service/proof.go:326-367 | a file of such entries, not more than there are slots, is accepted, and no other file is unless a proof in it shows a collision |
| Acceptance.AcceptedAnswers | service/proof.go:356-364 | an accepted entry of 32 bytes with one sibling a level whose path spells a leaf is that block of the car, or its proof shows a collision |
| Acceptance.AnyNodeAccepted | service/proof.go:356-364 | a file that lists any nodes of its slots' cars, inner nodes included, each with the way to the root, is accepted whatever was challenged |
| Acceptance.CutAccepted | service/proof.go:356-359 | so is a file that lists a piece of two neighbouring nodes' bytes, of any length, empty included, with the other piece as first sibling |
| Acceptance.NoLeavesAccepted | service/proof.go:356-366 | a file that lists no leaves is accepted over every table that has a run |
| EndToEnd.BuildAndWrite | cmd/create.go:75-120 | building under the recorder and writing through it leaves the CAR and, saved exactly when the write succeeds, the index of a run, right in all its sources and sizes |
| EndToEnd.BuiltOnRecord | service/mapping.go:126-185 | the blocks that a range touches are on record if and only if the run added all children of each file node among them, those with bytes first as leaves of taken chunks |
| EndToEnd.IndexCharts | service/mapping.go:209-243 | the saved index of a CAR built under the recorder tiles the CAR, and a range can be fetched exactly when the blocks it touches are on record |
| EndToEnd.RecordedCarIsReady | service/proof.go:268-314 | with the index and the cache filed under the commitment, the prover never fails on a leaf whose own chunk is on record, has more than half of its nodes and is indexed, whatever the rest of the CAR is |

## Left out

- `cmd/`: flags, listing and logging hold no property of the proofs.
- SHA-256, CID, UnixFS and dag-pb encodings, `balanced.Layout`, `pack.WriteCarHeader`: parameters of the model, as said above.
- The Merkle library and `pack.WriteCarBlock`: reference definitions, since their code is not part of the repository.
- A non-zero `targetPaddedSize` (service/proofHelper.go:83-89, 94-126): it appends one block a doubling at leaf level, which is not what `PadCommP` does.
- JSON and gob encodings, temporary files, paths and file names: a file is a value or a byte sequence; writes of the proof and index files do not fail.
- The file lock: a token that one process holds at a time; a process that dies inside it is not modelled.
- Reading the commitment table while a save is in progress: `LoadSortCommp` takes no lock.
- `GenDatasetProof` and `VerifyDatasetProof` beyond printing and parsing: calls into the library.
- `SumChunkCount`, the `MappingService` singleton, its mutex and `RunInParallel`: no effect on the results.
- The mutexes of the builder: its events are taken one at a time.
- File-store leaves (`ProcessFileStore`) and the printed warnings of the callbacks: they change no result.
- Crashes are errors: division by an empty table is excluded by a precondition, an index out of range or a missing tree comes out as an error.
- ProofFile.PathRoundTrip: paths are read with the `0x` prefix the writer prints; the other prefixes and the underscores that the parser also takes read as zero here.
- CarIndex.MappingService.UpdateMapping: block lengths fit the eight bytes the varint is written to, which the source takes for granted.
- CommPTable.NoLostSave: no file operation fails in the interleavings; `SaveCommP` says what a failure does.
- PieceCommitment.GenCommP: a tree higher than the 31 levels of the nul tower is built all the same.
- LeafProof.ComposedProofFolds: trees of at most 31 levels, as many as the nul tower can pad; a path has 32 bits.
- EndToEnd.RecordedCarIsReady: takes the index and the cache as filed under the commitment, which the code does not do by itself: the cache is stored under the root in hexadecimal (service/proof.go:168) and opened under the commitment's CID (service/proof.go:294), the index is saved under the payload CID (cmd/create.go:120) and opened under the commitment's CID (service/mapping.go:419). Only a rename from outside joins them, as service/proof_test.go:140 does for the caches.
- EndToEnd.BuiltOnRecord: blocks without a source are file nodes, as the layout of one source file makes them; for other parents the recorded size is that of the child's block, which `Rebuilding.ParentRebuildsExactly` covers.
