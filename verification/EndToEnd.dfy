/** From the source file to the challenge: building, recording, writing, saving and committing to a CAR. */
module EndToEnd {
  import opened Bytes
  import opened CarFormat
  import opened CarIndex
  import opened CarWriter
  import opened ChallengeProof
  import opened ChunkRange
  import opened DagBuilder
  import opened DagCodec
  import opened LeafProof
  import opened MerkleTree
  import opened PaddedBlocks
  import opened PieceCommitment
  import opened PieceTree
  import opened Pipeline
  import opened Rebuilding

  /** The recorder's index before the CAR was written, and the buffers it was written in. */
  datatype Recording = Recording(
    m: Mappings, rawSizes: map<Cid, nat>, parse: Parser, headerBufs: seq<Bytes>, blocks: seq<Block>)
  {
    function Header(): Bytes {
      Concat(headerBufs)
    }

    function Car(): Bytes {
      CarBytes(Header(), blocks)
    }
  }

  /**
   Builds the DAG under the recorder, writes its blocks through the recording writer and, if that succeeds,
   saves the index: what is saved is the index of a run, with only the blocks' places changed since.
   */
  method BuildAndWrite(w: WrapDagBuilder, events: seq<Event>, out: WrapWriter, root: Cid,
                       headerBufs: seq<Bytes>, blocks: seq<Block>, ghost sources: Sources)
    returns (ok: bool, saved: Option<Mapping>, ghost trace: seq<Snapshot>, ghost rec: Recording)
    requires w.ms == out.ms && w.Valid() && w.TagsRight(sources)
    requires forall i :: 0 <= i < |events| ==> EventFair(w.codec, events[i])
    requires CollisionFree(w.codec) && LeafTypesRecover(w.codec)
    requires w.ms.mappings == map[] && w.ms.chunkRawSize == map[] && out.offset == 0
    modifies w, w.spl, w.spl.inner, w.ms, out`offset, out.sink
    ensures IsIndexRun(trace, events) && trace[0].mappings == map[]
    ensures TagsAlwaysRight(w.codec, w.rawLeaves, sources, trace)
    ensures rec == Recording(trace[|events|].mappings, w.ms.chunkRawSize, out.parse, headerBufs, blocks)
    ensures IndexRight(w.codec, w.rawLeaves, sources, rec.m, rec.rawSizes)
    ensures ok <==> |rec.Car()| <= old(out.sink.room)
    ensures ok ==> out.sink.content == old(out.sink.content) + rec.Car()
    ensures if ok then saved.Some? && SavedFrom(saved.value, root, rec) else saved == None
  {
    trace := RunEvents(w, events, sources);
    w.ms.SetCarDataRoot(root);
    rec := Recording(w.ms.mappings, w.ms.chunkRawSize, out.parse, headerBufs, blocks);
    WritesAreCar(headerBufs, blocks);
    ok := WriteAll(out, CarWrites(headerBufs, blocks));
    if !ok {
      return false, None, trace, rec;
    }
    var index := w.ms.SaveMetaMappings();
    saved := Some(index);
  }

  ghost predicate SavedFrom(saved: Mapping, root: Cid, rec: Recording) {
    saved.dataRoot == root && SavedAfterWriting(saved, rec.parse, rec.m, rec.rawSizes, rec.headerBufs, rec.blocks)
  }

  /** What runs leave right in the index, the CAR of its nodes, and no buffer mistaken for a CID. */
  ghost predicate WellRecorded(env: Env, rec: Recording, root: Cid) {
    && CollisionFree(env.codec)
    && IndexRight(env.codec, env.rawLeaves, env.sources, rec.m, rec.rawSizes)
    && Listed(rec.m, rec.blocks) && WellAddressed(env.codec, rec.blocks)
    && Quiet(rec.parse, rec.headerBufs, rec.blocks)
    && rec.Header() == env.codec.header(root)
  }

  /** The saved index and the cache are found under the commitment. */
  ghost predicate Filed(w: World, c: Commitment, rec: Recording) {
    && w.HasIndex(c.commP) && c.commP in w.caches && w.caches[c.commP] == c.cache
    && SavedFrom(w.metas[c.commP], w.metas[c.commP].dataRoot, rec)
    && WellRecorded(w.env, rec, w.metas[c.commP].dataRoot)
  }

  /** The blocks that the chunk around the leaf touches are on record. */
  ghost predicate ChunkOnRecord(env: Env, rec: Recording, leafIndex: nat) {
    TouchedOnRecord(env, rec.m, rec.Header(), rec.blocks, ChunkOffset(|rec.Car()|, leafIndex),
                    ChunkEnd(|rec.Car()|, leafIndex))
  }

  /** A run from an empty index left this index. */
  ghost predicate RunLeft(env: Env, rec: Recording, trace: seq<Snapshot>, events: seq<Event>) {
    && IsIndexRun(trace, events) && trace[0].mappings == map[] && trace[|events|].mappings == rec.m
    && TagsAlwaysRight(env.codec, env.rawLeaves, env.sources, trace)
    && IndexRight(env.codec, env.rawLeaves, env.sources, rec.m, rec.rawSizes)
  }

  /** The block has a source or is a file node around the given children. */
  ghost predicate LeafOrFile(env: Env, m: Mappings, c: Cid, kids: seq<(Link, nat)>)
    requires c in m
  {
    m[c].srcPath == "" ==> FileOver(env.codec, env.rawLeaves, m[c], kids)
  }

  /** The block has a source, or the run added all the given children. */
  ghost predicate SourcedOrAdded(m: Mappings, trace: seq<Snapshot>, events: seq<Event>, c: Cid, kids: seq<(Link, nat)>)
    requires c in m && |events| < |trace|
  {
    m[c].srcPath == "" ==> AllAdded(trace, events, kids)
  }

  /**
   The blocks that a range touches are on record exactly when the run added every child of each file node
   among them, the children with bytes first as leaves of taken chunks.
   */
  lemma BuiltOnRecord(env: Env, rec: Recording, trace: seq<Snapshot>, events: seq<Event>,
                      kidsOf: Cid -> seq<(Link, nat)>, start: nat, end: nat)
    requires CollisionFree(env.codec) && ParentsDiffer(env.codec) && "" !in env.sources
    requires RunLeft(env, rec, trace, events) && Listed(rec.m, rec.blocks)
    requires forall i :: 0 <= i < |rec.blocks| && Touched(rec.Header(), rec.blocks, i, start, end) ==>
      LeafOrFile(env, rec.m, rec.blocks[i].cid, kidsOf(rec.blocks[i].cid))
    ensures TouchedOnRecord(env, rec.m, rec.Header(), rec.blocks, start, end) <==>
            forall i :: 0 <= i < |rec.blocks| && Touched(rec.Header(), rec.blocks, i, start, end) ==>
              SourcedOrAdded(rec.m, trace, events, rec.blocks[i].cid, kidsOf(rec.blocks[i].cid))
  {
    forall i | 0 <= i < |rec.blocks| && Touched(rec.Header(), rec.blocks, i, start, end)
      ensures OnRecord(env, rec.m, rec.m[rec.blocks[i].cid]) ==
              SourcedOrAdded(rec.m, trace, events, rec.blocks[i].cid, kidsOf(rec.blocks[i].cid))
    {
      BlockOnRecord(env, rec, trace, events, rec.blocks[i].cid, kidsOf(rec.blocks[i].cid));
    }
  }

  lemma BlockOnRecord(env: Env, rec: Recording, trace: seq<Snapshot>, events: seq<Event>, c: Cid,
                      kids: seq<(Link, nat)>)
    requires CollisionFree(env.codec) && ParentsDiffer(env.codec) && "" !in env.sources
    requires RunLeft(env, rec, trace, events) && c in rec.m && LeafOrFile(env, rec.m, c, kids)
    ensures OnRecord(env, rec.m, rec.m[c]) == SourcedOrAdded(rec.m, trace, events, c, kids)
  {
    assert SizeKnown(env.codec, c, rec.m[c], rec.rawSizes);
    if rec.m[c].srcPath == "" {
      RebuiltExactly(env, rec.m, rec.m[c]);
      RunRebuildsExactly(env, trace, events, c, kids);
    }
  }

  /** The saved index charts the CAR, and a range can be fetched exactly when the blocks it touches are on record. */
  lemma IndexCharts(w: World, c: Commitment, rec: Recording, indexed: nat, start: nat, end: nat) returns (p: Piece)
    requires Filed(w, c, rec) && |rec.Car()| <= MAX_INT64 && start <= end
    ensures p.car == rec.Car() && p.indexed == indexed && Charted(w, c.commP, p)
    ensures Fetchable(w, c.commP, p, start, end) <==>
            TouchedOnRecord(w.env, rec.m, rec.Header(), rec.blocks, start, end)
  {
    var saved := w.metas[c.commP];
    var all := SavedCharts(w.env, saved, rec);
    ChartedRebuild(w.env, rec.m, Keyed(saved.mappings), saved.dataRoot, all, rec.blocks, start, end);
    p := Piece(rec.Car(), indexed, all);
  }

  lemma SavedCharts(env: Env, saved: Mapping, rec: Recording) returns (all: seq<ChunkMapping>)
    requires WellRecorded(env, rec, saved.dataRoot) && SavedFrom(saved, saved.dataRoot, rec)
    requires |rec.Car()| < TWO_64
    ensures OnlyMoved(rec.m, Keyed(saved.mappings))
    ensures ChartsBlocks(env, Keyed(saved.mappings), saved.dataRoot, all, rec.blocks)
  {
    RecordedIsKnown(env.codec, rec.m, rec.rawSizes, rec.blocks);
    all := SavedIndexCharts(env, saved, rec.parse, rec.m, rec.rawSizes, rec.headerBufs, rec.blocks);
  }

  /**
   A leaf of such a CAR can be proved from the saved files alone, whatever its other chunks are, if its
   own chunk is on record, pads to more than half of its nodes and is indexed: by the prover's contract
   it never fails on it.
   */
  lemma RecordedCarIsReady(w: World, c: Commitment, indexed: nat, rec: Recording, leafIndex: nat) returns (p: Piece)
    requires Filed(w, c, rec) && 0 < |rec.Car()| <= MAX_INT64
    requires IsCommitment(c, w.Hash(), rec.Car(), indexed) && Depth(|Blocks(rec.Car())|) <= MAX_LAYERS
    requires MoreThanHalf(|rec.Car()|, leafIndex) && ChunkIndex(|rec.Car()|, leafIndex) < indexed
    requires ChunkOnRecord(w.env, rec, leafIndex)
    ensures p.car == rec.Car() && Ready(w, c.commP, |rec.Car()|, leafIndex, p)
  {
    p := IndexCharts(w, c, rec, indexed, ChunkOffset(|rec.Car()|, leafIndex), ChunkEnd(|rec.Car()|, leafIndex));
    CommittedPiece(w, c, rec.Car(), p);
    assert ChunkFetchable(w, c.commP, |rec.Car()|, leafIndex, p);
  }

  lemma CommittedPiece(w: World, c: Commitment, car: Bytes, p: Piece)
    requires |car| > 0 && p.car == car && IsCommitment(c, w.Hash(), car, p.indexed)
    requires Depth(|Blocks(car)|) <= MAX_LAYERS && c.commP in w.caches && w.caches[c.commP] == c.cache
    ensures Committed(w, c.commP, |car|, p)
  {
  }
}
