/**
 From the recorder to the query: the index left behind by writing a CAR passes the continuity check and,
 once saved and loaded, answers a range query exactly when the touched blocks are on record.
 */
module Pipeline {
  import opened Bytes
  import opened Collections
  import opened CarFormat
  import opened CarIndex
  import opened CarWriter
  import opened ChunkRange
  import opened DagCodec
  import opened RangeSelection
  import opened Rebuilding

  // ----- from the recorder to the writer

  /** The blocks of a CAR are the recorded nodes, each once. */
  ghost predicate Listed(m: Mappings, blocks: seq<Block>) {
    && (forall i, j :: 0 <= i < j < |blocks| ==> blocks[i].cid != blocks[j].cid)
    && (forall i :: 0 <= i < |blocks| ==> |blocks[i].cid| > 0 && blocks[i].cid in m)
    && (forall c :: c in m ==> exists i :: 0 <= i < |blocks| && blocks[i].cid == c)
  }

  /** What the recorder keeps true of the index is what the CAR writer needs to know. */
  lemma RecordedIsKnown(codec: Codec, m: Mappings, rawSizes: map<Cid, nat>, blocks: seq<Block>)
    requires CollisionFree(codec) && SizesKnown(codec, m, rawSizes)
    requires Listed(m, blocks) && WellAddressed(codec, blocks)
    ensures Known(m, rawSizes, blocks)
  {
    forall c | c in m
      ensures m[c].cid == c
    {
      assert SizeKnown(codec, c, m[c], rawSizes);
    }
    forall i | 0 <= i < |blocks|
      ensures blocks[i].cid in rawSizes && rawSizes[blocks[i].cid] == |blocks[i].data|
      ensures m[blocks[i].cid].chunkSize == |Frame(blocks[i])|
    {
      BlockSizeKnown(codec, m, rawSizes, blocks[i]);
    }
  }

  lemma BlockSizeKnown(codec: Codec, m: Mappings, rawSizes: map<Cid, nat>, b: Block)
    requires CollisionFree(codec) && SizesKnown(codec, m, rawSizes)
    requires b.cid in m && b.cid == codec.cidOf(b.data)
    ensures b.cid in rawSizes && rawSizes[b.cid] == |b.data| && m[b.cid].chunkSize == |Frame(b)|
  {
    assert SizeKnown(codec, b.cid, m[b.cid], rawSizes);
    var x :| codec.cidOf(x) == b.cid && rawSizes[b.cid] == |x| && m[b.cid].chunkSize == LdSize(|b.cid|, |x|);
    assert x == b.data;
  }

  // ----- the continuity check after a write

  /** Sorted, the mappings that describe a CAR are its blocks in order, side by side from header to end. */
  lemma DescribedPassCheck(m: Mappings, header: Bytes, blocks: seq<Block>, ms: seq<ChunkMapping>)
    requires Describes(m, header, blocks) && |CarBytes(header, blocks)| < TWO_64
    requires Sorted(ms, BY_DST) && Distinct(ms) && Elements(ms) == m.Values
    ensures ms == InOrder(m, blocks) && Continuous(ms)
    ensures |blocks| > 0 ==> ms[0].dstOffset == |header| && EndOf(ms[|blocks| - 1]) == |CarBytes(header, blocks)|
  {
    var all := InOrder(m, blocks);
    DescribedInOrder(m, header, blocks);
    InOrderElements(m, blocks);
    PlacedTiling(all, header, blocks);
    AllMappingsContinuous(m, all, ms);
  }

  /** After a whole CAR is written the check succeeds, and the last mapping ends at the writer's offset. */
  method WriteAndCheck(w: WrapWriter, headerBufs: seq<Bytes>, blocks: seq<Block>)
    returns (ok: bool, ms: seq<ChunkMapping>, continuous: bool)
    requires w.offset == 0 && w.sink.content == []
    requires LengthsFit(w.ms.chunkRawSize)
    requires Known(w.ms.mappings, w.ms.chunkRawSize, blocks) && Quiet(w.parse, headerBufs, blocks)
    requires |CarBytes(Concat(headerBufs), blocks)| < TWO_64
    modifies w`offset, w.sink, w.ms`mappings
    ensures ok <==> |CarBytes(Concat(headerBufs), blocks)| <= old(w.sink.room)
    ensures ok ==> Describes(w.ms.mappings, Concat(headerBufs), blocks) && continuous && |ms| == |blocks|
    ensures ok && |blocks| > 0 ==> ms[0].dstOffset == |Concat(headerBufs)| && EndOf(ms[|ms| - 1]) == w.offset
  {
    ok := WriteCar(w, headerBufs, blocks);
    if !ok {
      ms, continuous := [], false;
      return;
    }
    DescribedOffsetsFit(w.ms.mappings, Concat(headerBufs), blocks);
    ms, continuous := w.ms.GetAllChunkMappings();
    DescribedPassCheck(w.ms.mappings, Concat(headerBufs), blocks, ms);
  }

  lemma DescribedOffsetsFit(m: Mappings, header: Bytes, blocks: seq<Block>)
    requires Describes(m, header, blocks) && |CarBytes(header, blocks)| < TWO_64
    ensures OwnKeys(m) && forall c :: c in m ==> m[c].dstOffset < TWO_64
  {
    forall c | c in m
      ensures m[c].dstOffset < TWO_64
    {
      var i :| 0 <= i < |blocks| && blocks[i].cid == c;
      FrameInCar(header, blocks, i);
    }
  }

  // ----- writing keeps nodes on record

  /** Only where the blocks sit has changed. */
  ghost predicate OnlyMoved(before: Mappings, after: Mappings) {
    && after.Keys == before.Keys
    && forall c :: c in before ==> after[c] == before[c].(dstOffset := after[c].dstOffset)
  }

  lemma MovedOnRecord(env: Env, before: Mappings, after: Mappings, c: Cid)
    requires OnlyMoved(before, after) && c in before
    ensures c in after.Keys
    ensures OnRecord(env, before, before[c]) <==> OnRecord(env, after, after[c])
  {
    assert c in after.Keys;
    assert OnlyMoved(after, before);
    MovedParentRecorded(env.codec, before, after, before[c], after[c]);
    MovedParentRecorded(env.codec, after, before, after[c], before[c]);
  }

  lemma MovedParentRecorded(codec: Codec, m: Mappings, m': Mappings, cm: ChunkMapping, cm': ChunkMapping)
    requires OnlyMoved(m, m') && cm' == cm.(dstOffset := cm'.dstOffset)
    ensures ParentRecorded(codec, m, cm) ==> ParentRecorded(codec, m', cm')
  {
    if ParentRecorded(codec, m, cm) {
      var kids: seq<(Link, nat)> :| BuiltAround(codec, cm, kids) && SizesRecorded(m, cm.nodeType, kids);
      forall i | 0 <= i < |kids|
        ensures SizeRecorded(m', cm'.nodeType, kids[i])
      {
        assert SizeRecorded(m, cm.nodeType, kids[i]);
        assert kids[i].0.cid in m'.Keys;
      }
      assert BuiltAround(codec, cm', kids);
    }
  }

  // ----- end to end

  /** The index that was saved after the CAR had been written through the recorder. */
  ghost predicate SavedAfterWriting(saved: Mapping, parse: Parser, m: Mappings, raw: map<Cid, nat>,
                                    headerBufs: seq<Bytes>, blocks: seq<Block>)
  {
    Elements(saved.mappings) == RecordedRun(parse, m, raw, CarWrites(headerBufs, blocks), 0).Values
  }

  /** cm is what the index has for block i, and says where its frame is. */
  ghost predicate IsBlock(m: Mappings, cm: ChunkMapping, header: Bytes, blocks: seq<Block>, i: nat)
    requires i < |blocks|
  {
    blocks[i].cid in m && cm == m[blocks[i].cid] && Places(cm, header, blocks, i)
  }

  /** The index has one mapping for each block, and charts the CAR of these blocks. */
  ghost predicate ChartsBlocks(env: Env, m: Mappings, root: Cid, all: seq<ChunkMapping>, blocks: seq<Block>) {
    && Charts(env, m, root, all, CarBytes(env.codec.header(root), blocks))
    && |all| == |blocks|
    && forall i :: 0 <= i < |all| ==> IsBlock(m, all[i], env.codec.header(root), blocks, i)
  }

  lemma DescribedChartsBlocks(env: Env, m: Mappings, root: Cid, blocks: seq<Block>)
    requires Describes(m, env.codec.header(root), blocks)
    requires WellAddressed(env.codec, blocks) && CollisionFree(env.codec)
    requires |CarBytes(env.codec.header(root), blocks)| < TWO_64
    ensures ChartsBlocks(env, m, root, InOrder(m, blocks), blocks)
  {
    DescribedCharts(env, m, root, blocks);
    DescribedInOrder(m, env.codec.header(root), blocks);
  }

  /** Loaded again, the saved index is the one that the CAR write left behind. */
  lemma SavedIsLoaded(saved: Mapping, parse: Parser, m: Mappings, raw: map<Cid, nat>,
                      headerBufs: seq<Bytes>, blocks: seq<Block>)
    requires Known(m, raw, blocks) && Quiet(parse, headerBufs, blocks)
    requires SavedAfterWriting(saved, parse, m, raw, headerBufs, blocks)
    requires |CarBytes(Concat(headerBufs), blocks)| < TWO_64
    ensures OnlyMoved(m, Keyed(saved.mappings)) && Describes(Keyed(saved.mappings), Concat(headerBufs), blocks)
  {
    RunDescribesCar(parse, m, raw, headerBufs, blocks);
    SaveLoadRoundTrip(RecordedRun(parse, m, raw, CarWrites(headerBufs, blocks), 0), saved.mappings);
  }

  /** So it charts the CAR that was written. */
  lemma SavedIndexCharts(env: Env, saved: Mapping, parse: Parser, m: Mappings, raw: map<Cid, nat>,
                         headerBufs: seq<Bytes>, blocks: seq<Block>)
    returns (all: seq<ChunkMapping>)
    requires Known(m, raw, blocks) && Quiet(parse, headerBufs, blocks)
    requires SavedAfterWriting(saved, parse, m, raw, headerBufs, blocks)
    requires Concat(headerBufs) == env.codec.header(saved.dataRoot)
    requires WellAddressed(env.codec, blocks) && CollisionFree(env.codec)
    requires |CarBytes(Concat(headerBufs), blocks)| < TWO_64
    ensures OnlyMoved(m, Keyed(saved.mappings))
    ensures ChartsBlocks(env, Keyed(saved.mappings), saved.dataRoot, all, blocks)
  {
    SavedIsLoaded(saved, parse, m, raw, headerBufs, blocks);
    DescribedChartsBlocks(env, Keyed(saved.mappings), saved.dataRoot, blocks);
    all := InOrder(Keyed(saved.mappings), blocks);
  }

  /** The run for a query can be rebuilt exactly when the touched blocks were on record before the CAR was written. */
  lemma TouchedRebuild(env: Env, m: Mappings, after: Mappings, header: Bytes, blocks: seq<Block>,
                       all: seq<ChunkMapping>, start: nat, end: nat)
    requires OnlyMoved(m, after) && Tiling(all) && start <= end
    requires |all| == |blocks| && forall i :: 0 <= i < |all| ==> IsBlock(after, all[i], header, blocks, i)
    ensures Rebuildable(env, after, Run(all, start, end)) <==> TouchedOnRecord(env, m, header, blocks, start, end)
  {
    forall i | 0 <= i < |all|
      ensures blocks[i].cid in m && (Rebuilt(env, after, all[i]).Ok? <==> OnRecord(env, m, m[blocks[i].cid]))
    {
      assert IsBlock(after, all[i], header, blocks, i) && blocks[i].cid in m.Keys;
      RebuiltExactly(env, after, all[i]);
      MovedOnRecord(env, m, after, blocks[i].cid);
    }
    forall i | 0 <= i < |all|
      ensures all[i] in Run(all, start, end) <==> Touched(header, blocks, i, start, end)
    {
      TouchedIsRun(header, blocks, after, all, start, end, i);
    }
    RunInAll(all, start, end);
  }

  lemma TouchedIsRun(header: Bytes, blocks: seq<Block>, after: Mappings, all: seq<ChunkMapping>,
                     start: nat, end: nat, i: nat)
    requires Tiling(all) && start <= end && i < |all| == |blocks|
    requires IsBlock(after, all[i], header, blocks, i)
    ensures all[i] in Run(all, start, end) <==> Touched(header, blocks, i, start, end)
  {
    TouchedElements(all, start, end);
    TouchesIsOverlap(all[i], start, end);
    assert all[i] in Run(all, start, end) <==> all[i] in Elements(Run(all, start, end));
  }

  lemma ChartedRebuild(env: Env, m: Mappings, after: Mappings, root: Cid, all: seq<ChunkMapping>, blocks: seq<Block>,
                       start: nat, end: nat)
    requires OnlyMoved(m, after) && ChartsBlocks(env, after, root, all, blocks) && start <= end
    ensures Rebuildable(env, after, Run(all, start, end)) ==
            TouchedOnRecord(env, m, env.codec.header(root), blocks, start, end)
  {
    TouchedRebuild(env, m, after, env.codec.header(root), blocks, all, start, end);
  }

  /** A CAR of known, well-addressed blocks was written through the recorder, and the index saved after that. */
  ghost predicate SavedCar(env: Env, saved: Mapping, parse: Parser, m: Mappings, raw: map<Cid, nat>,
                           headerBufs: seq<Bytes>, blocks: seq<Block>, header: Bytes)
  {
    && Known(m, raw, blocks) && Quiet(parse, headerBufs, blocks)
    && SavedAfterWriting(saved, parse, m, raw, headerBufs, blocks)
    && header == Concat(headerBufs) == env.codec.header(saved.dataRoot)
    && WellAddressed(env.codec, blocks) && CollisionFree(env.codec)
  }

  /** The saved index charts the CAR, and can rebuild a range exactly when the touched blocks were on record. */
  lemma SavedRangeRebuild(env: Env, saved: Mapping, parse: Parser, m: Mappings, raw: map<Cid, nat>,
                          headerBufs: seq<Bytes>, blocks: seq<Block>, header: Bytes, after: Mappings,
                          start: nat, end: nat)
    returns (all: seq<ChunkMapping>, rebuilds: bool)
    requires SavedCar(env, saved, parse, m, raw, headerBufs, blocks, header)
    requires |CarBytes(header, blocks)| < TWO_64 && start <= end && after == Keyed(saved.mappings)
    ensures Charts(env, after, saved.dataRoot, all, CarBytes(header, blocks))
    ensures RangeRebuilds(env, after, all, start, end, rebuilds)
    ensures rebuilds == TouchedOnRecord(env, m, header, blocks, start, end)
  {
    all := SavedIndexCharts(env, saved, parse, m, raw, headerBufs, blocks);
    ChartedRebuild(env, m, after, saved.dataRoot, all, blocks, start, end);
    rebuilds := Rebuildable(env, after, Run(all, start, end));
  }

  /**
   Write a CAR through the recorder, save the index, load it anywhere and query a range. An answer that
   comes out is that range of the CAR; and one comes out exactly when the touched blocks were on record,
   whatever the other blocks are.
   */
  lemma RecordedIndexAnswers(env: Env, saved: Mapping, parse: Parser, m: Mappings, raw: map<Cid, nat>,
                             headerBufs: seq<Bytes>, blocks: seq<Block>, header: Bytes, car: Bytes,
                             list: seq<ChunkMapping>, offset: U64, size: U64, end: nat, r: Result<Bytes>)
    requires SavedCar(env, saved, parse, m, raw, headerBufs, blocks, header) && car == CarBytes(header, blocks)
    requires offset < |car| <= MAX_INT64 && end == offset + size
    requires FromSelection(env, IndexIn(saved), list, offset, size, r)
    ensures r.Ok? ==> r.value == car[offset..Min(end, |car|)]
    ensures r.Ok? == (size <= MAX_INT64 && TouchedOnRecord(env, m, header, blocks, offset, end))
  {
    var after := Keyed(saved.mappings);
    var all, rebuilds := SavedRangeRebuild(env, saved, parse, m, raw, headerBufs, blocks, header, after, offset, end);
    ReplyExactly(env, IndexIn(saved), all, car, list, offset, size, end, r, rebuilds);
  }

  lemma InRun(all: seq<ChunkMapping>, start: nat, end: nat, i: nat)
    requires Tiling(all) && start <= end && i < |all|
    requires all[i].dstOffset <= end && start <= EndOf(all[i])
    ensures all[i] in Run(all, start, end)
  {
    TouchedElements(all, start, end);
    TouchesIsOverlap(all[i], start, end);
    assert all[i] in Elements(Run(all, start, end));
  }

  /** A query that touches a block that cannot be rebuilt, such as a deep file node, is an error. */
  lemma LostBlockStopsQuery(env: Env, index: LoadedIndex, all: seq<ChunkMapping>, car: Bytes, list: seq<ChunkMapping>,
                            offset: U64, size: U64, end: nat, i: nat)
    requires Charts(env, index.mappings, index.dataRoot, all, car)
    requires offset < |car| <= MAX_INT64 && end == offset + size && Selects(index, offset, size, list)
    requires i < |all| && all[i].dstOffset <= end && offset <= EndOf(all[i])
    requires Rebuilt(env, index.mappings, all[i]).Err?
    ensures Answer(env, index, list, offset, size).Err?
  {
    InRun(all, offset, end, i);
    AnswerExactly(env, index, all, car, list, offset, size, end);
  }

  /** Every query that touches a file node above an inner node over any bytes is an error. */
  lemma DeepFileStopsQuery(env: Env, index: LoadedIndex, all: seq<ChunkMapping>, car: Bytes, list: seq<ChunkMapping>,
                           offset: U64, size: U64, end: nat, i: nat, kids: seq<(Link, nat)>, k: nat)
    requires CollisionFree(env.codec) && ParentsDiffer(env.codec)
    requires Charts(env, index.mappings, index.dataRoot, all, car)
    requires offset < |car| <= MAX_INT64 && size <= MAX_INT64 && end == offset + size
    requires Selects(index, offset, size, list)
    requires i < |all| && all[i].dstOffset <= end && offset <= EndOf(all[i])
    requires all[i].srcPath == "" && all[i].nodeType == File && BuiltAround(env.codec, all[i], kids)
    requires k < |kids| && kids[k].1 > 0
    requires kids[k].0.cid in index.mappings ==> index.mappings[kids[k].0.cid].size == 0
    ensures Answer(env, index, list, offset, size).Err?
  {
    ZeroSizeIsFatal(env, index.mappings, all[i], kids, k);
    LostBlockStopsQuery(env, index, all, car, list, offset, size, end, i);
  }
}
