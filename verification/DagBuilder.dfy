/**
 Building the DAG from a source file: a splitter that tags each chunk with where it came from, a
 builder that looks one chunk ahead, and the callbacks that file the tags under the nodes' CIDs.
 */
module DagBuilder {
  import opened Bytes
  import opened CarFormat
  import opened CarIndex
  import opened DagCodec

  // ----- splitting

  datatype SliceMeta = SliceMeta(path: string, offset: nat, size: nat)

  datatype SplitError = NoError | EOF | Failed

  /** The chunker: it delivers its chunks, then the end of the file or a read error, over and over. */
  class Chunker {
    var chunks: seq<Bytes>
    const broken: bool

    constructor (chunks: seq<Bytes>, broken: bool)
      ensures this.chunks == chunks && this.broken == broken
    {
      this.chunks, this.broken := chunks, broken;
    }

    method NextBytes() returns (data: Option<Bytes>, err: SplitError)
      modifies this
      ensures old(|chunks|) > 0 ==> data == Some(old(chunks)[0]) && err == NoError && chunks == old(chunks)[1..]
      ensures old(|chunks|) == 0 ==> data == None && err == (if broken then Failed else EOF) && chunks == []
    {
      if |chunks| > 0 {
        data, err := Some(chunks[0]), NoError;
        chunks := chunks[1..];
      } else {
        data, err := None, if broken then Failed else EOF;
      }
    }
  }

  function SizeOf(data: Option<Bytes>): nat {
    match data
    case None => 0
    case Some(d) => |d|
  }

  class SliceSplitter {
    const inner: Chunker
    const srcPath: string
    const chunkStart: nat
    var offset: nat

    constructor (inner: Chunker, srcPath: string, chunkStart: nat)
      ensures this.inner == inner && this.srcPath == srcPath && this.chunkStart == chunkStart && offset == 0
    {
      this.inner, this.srcPath, this.chunkStart := inner, srcPath, chunkStart;
      offset := 0;
    }

    method NextBytesWithMeta() returns (data: Option<Bytes>, m: SliceMeta, err: SplitError)
      modifies this, inner
      ensures old(|inner.chunks|) > 0 ==>
        data == Some(old(inner.chunks)[0]) && err == NoError && inner.chunks == old(inner.chunks)[1..]
      ensures old(|inner.chunks|) == 0 ==>
        data == None && err == (if inner.broken then Failed else EOF) && inner.chunks == []
      ensures m == SliceMeta(srcPath, old(offset) + chunkStart, SizeOf(data))
      ensures offset == old(offset) + SizeOf(data)
    {
      data, err := inner.NextBytes();
      var size := SizeOf(data);
      m := SliceMeta(srcPath, offset + chunkStart, size);
      offset := offset + size;
    }
  }

  /** Chunks with the tags they get when the first of them starts at the given source offset. */
  function Tagged(chunks: seq<Bytes>, path: string, at: nat): (t: seq<(Bytes, SliceMeta)>)
    ensures |t| == |chunks|
  {
    if |chunks| == 0 then []
    else [(chunks[0], SliceMeta(path, at, |chunks[0]|))] + Tagged(chunks[1..], path, at + |chunks[0]|)
  }

  // ----- the builder

  class WrapDagBuilder {
    const codec: Codec
    const rawLeaves: bool
    const spl: SliceSplitter
    const ms: MappingService
    var metas: map<Cid, SliceMeta>
    var recvdErr: SplitError
    var nextData: Option<Bytes>
    var nextMeta: SliceMeta

    ghost predicate Valid()
      reads this`recvdErr, this`nextData, this`nextMeta, spl, spl.inner
    {
      && recvdErr != EOF
      && (recvdErr == Failed ==> nextData == None && spl.inner.chunks == [] && spl.inner.broken)
      && (nextData.Some? ==> nextMeta.path == spl.srcPath && nextMeta.size == |nextData.value| &&
                             nextMeta.offset + nextMeta.size == spl.offset + spl.chunkStart)
    }

    /** The chunks still to be delivered, each with its own tag. */
    ghost function Pending(): seq<(Bytes, SliceMeta)>
      reads this`nextData, this`nextMeta, spl, spl.inner
    {
      (if nextData.Some? then [(nextData.value, nextMeta)] else [])
      + Tagged(spl.inner.chunks, spl.srcPath, spl.offset + spl.chunkStart)
    }

    constructor (codec: Codec, rawLeaves: bool, spl: SliceSplitter, ms: MappingService)
      ensures this.codec == codec && this.rawLeaves == rawLeaves && this.spl == spl && this.ms == ms
      ensures Valid() && metas == map[]
      ensures Pending() == Tagged(spl.inner.chunks, spl.srcPath, spl.offset + spl.chunkStart)
    {
      this.codec, this.rawLeaves, this.spl, this.ms := codec, rawLeaves, spl, ms;
      metas, recvdErr, nextData, nextMeta := map[], NoError, None, SliceMeta("", 0, 0);
    }

    /** Idempotent: fetches a chunk only when none is waiting. */
    method PrepareNext()
      requires Valid()
      modifies this`recvdErr, this`nextData, this`nextMeta, spl, spl.inner
      ensures Valid() && Pending() == old(Pending())
      ensures nextData == None <==> Pending() == []
      ensures nextData == None ==> recvdErr == Failed || (nextMeta.size == 0 && nextMeta.path == spl.srcPath)
      ensures nextData == None ==> recvdErr == if spl.inner.broken then Failed else NoError
      ensures nextData.Some? ==> recvdErr == NoError
    {
      if nextData != None || recvdErr != NoError {
        return;
      }
      nextData, nextMeta, recvdErr := spl.NextBytesWithMeta();
      if recvdErr == EOF {
        recvdErr := NoError;
      }
    }

    /** True exactly at the end of the file; never after a read error. */
    method Done() returns (done: bool)
      requires Valid()
      modifies this`recvdErr, this`nextData, this`nextMeta, spl, spl.inner
      ensures Valid() && Pending() == old(Pending())
      ensures done <==> Pending() == [] && !spl.inner.broken
    {
      PrepareNext();
      if recvdErr != NoError {
        return false;
      }
      return nextData == None;
    }

    /** The next chunk, or none at the end of the file, or the read error. */
    method Next() returns (r: Result<Option<Bytes>>)
      requires Valid()
      modifies this`recvdErr, this`nextData, this`nextMeta, spl, spl.inner
      ensures Valid()
      ensures old(Pending()) != [] ==>
        r == Ok(Some(old(Pending())[0].0)) && nextMeta == old(Pending())[0].1 && Pending() == old(Pending())[1..]
      ensures old(Pending()) == [] ==> Pending() == []
      ensures old(Pending()) == [] && !spl.inner.broken ==>
        r == Ok(None) && nextMeta.size == 0 && nextMeta.path == spl.srcPath
      ensures old(Pending()) == [] && spl.inner.broken ==> r.Err?
    {
      PrepareNext();
      var d := nextData;
      nextData := None;
      if recvdErr != NoError {
        return Err("read error");
      }
      return Ok(d);
    }

    /** Chunks and filed tags name source ranges that hold the bytes they were made from. */
    ghost predicate TagsRight(sources: Sources)
      reads this`nextData, this`nextMeta, this`metas, spl, spl.inner
    {
      spl.srcPath in sources && AllNamed(sources, Pending()) && MetasRight(codec, rawLeaves, sources, metas)
    }

    /**
     Makes a leaf of the next chunk and files the chunk's tag under the leaf's CID. When no leaf can be
     made of it, the chunk is gone all the same.
     */
    method NewLeafDataNode(fsNodeType: NodeType, made: bool) returns (r: Result<(DagNode, nat)>)
      requires Valid()
      modifies this, spl, spl.inner
      ensures Valid()
      ensures old(Pending()) != [] ==>
        LeafTaken(LeafOf(codec, rawLeaves, fsNodeType), made, old(Pending()), old(metas), r, Pending(), metas)
      ensures old(Pending()) != [] ==> Pending() == old(Pending())[1..]
      ensures old(Pending()) != [] && made ==>
        var (data, tag) := old(Pending())[0];
        var node := LeafNode(codec, rawLeaves, fsNodeType, data);
        r == Ok((node, |data|)) && metas == old(metas)[node.cid := tag]
      ensures old(Pending()) == [] ==>
        NoLeafTaken(LeafOf(codec, rawLeaves, fsNodeType), made && !spl.inner.broken, spl.srcPath, old(metas),
                    r, Pending(), metas)
    {
      var next := Next();
      if next.Err? {
        return Err(next.message);
      }
      if !made {
        return Err("new leaf node");
      }
      var fileData := if next.value.Some? then next.value.value else [];
      var node := LeafNode(codec, rawLeaves, fsNodeType, fileData);
      metas := metas[node.cid := nextMeta];
      return Ok((node, |fileData|));
    }

    /** Adding a node: a filed tag goes to the index first, then the DAG service is told of the node. */
    method Add(node: DagNode)
      modifies ms`mappings, ms`chunkRawSize
      ensures ms.mappings == Inserted(old(ms.mappings), node.cid, AddedMapping(metas, node))
      ensures ms.chunkRawSize == RawInserted(old(ms.mappings), old(ms.chunkRawSize), node)
    {
      if node.cid in metas {
        var meta := metas[node.cid];
        ms.HelperAction(node, meta.path, meta.offset, meta.size);
      }
      ms.DagServerAction(node);
    }
  }

  /** A filed tag names the bytes of the leaf it is filed under. */
  ghost predicate MetaRight(codec: Codec, raw: bool, sources: Sources, c: Cid, m: SliceMeta) {
    exists t :: NamesPayload(codec, raw, sources, c, m.path, m.offset, m.size, t)
  }

  ghost predicate MetasRight(codec: Codec, raw: bool, sources: Sources, metas: map<Cid, SliceMeta>) {
    forall c :: c in metas ==> MetaRight(codec, raw, sources, c, metas[c])
  }

  /** Each chunk is what its tag names. */
  ghost predicate AllNamed(sources: Sources, chunks: seq<(Bytes, SliceMeta)>) {
    forall p :: p in chunks ==> ReadSource(sources, p.1.path, p.1.offset, p.1.size) == Ok(p.0)
  }

  lemma NamedTail(sources: Sources, chunks: seq<(Bytes, SliceMeta)>)
    requires AllNamed(sources, chunks)
    ensures |chunks| > 0 ==>
      && ReadSource(sources, chunks[0].1.path, chunks[0].1.offset, chunks[0].1.size) == Ok(chunks[0].0)
      && AllNamed(sources, chunks[1..])
  {
  }

  lemma TagFiled(codec: Codec, raw: bool, sources: Sources, metas: map<Cid, SliceMeta>,
                 data: Bytes, t: NodeType, m: SliceMeta)
    requires MetasRight(codec, raw, sources, metas)
    requires ReadSource(sources, m.path, m.offset, m.size) == Ok(data)
    ensures MetasRight(codec, raw, sources, metas[LeafNode(codec, raw, t, data).cid := m])
  {
    assert NamesPayload(codec, raw, sources, codec.cidOf(codec.leaf(data, t, raw)), m.path, m.offset, m.size, t);
  }

  /** The leaf around file bytes. */
  function LeafNode(codec: Codec, raw: bool, t: NodeType, data: Bytes): (node: DagNode)
    ensures IsNode(codec, node)
  {
    var bytes := codec.leaf(data, t, raw);
    DagNode(codec.cidOf(bytes), bytes, [], codec.blockSizeOf(bytes), codec.typeOf(bytes))
  }

  function LeafOf(codec: Codec, raw: bool, t: NodeType): Bytes -> DagNode {
    data => LeafNode(codec, raw, t, data)
  }

  /** The first pending chunk is taken: a leaf of it is made, and the chunk's tag filed under it. */
  ghost predicate LeafTaken(leaf: Bytes -> DagNode, made: bool,
                            pending: seq<(Bytes, SliceMeta)>, metas: map<Cid, SliceMeta>,
                            r: Result<(DagNode, nat)>, pending': seq<(Bytes, SliceMeta)>, metas': map<Cid, SliceMeta>)
    requires pending != []
  {
    var (data, tag) := pending[0];
    && pending' == pending[1..]
    && if made then r == Ok((leaf(data), |data|)) && metas' == metas[leaf(data).cid := tag]
       else r.Err? && metas' == metas
  }

  /** At the end of the file a leaf of no bytes is made; after a read error, none. */
  ghost predicate NoLeafTaken(leaf: Bytes -> DagNode, made: bool, path: string, metas: map<Cid, SliceMeta>,
                              r: Result<(DagNode, nat)>, pending': seq<(Bytes, SliceMeta)>, metas': map<Cid, SliceMeta>)
  {
    && pending' == []
    && if made then r == Ok((leaf([]), 0)) && exists at: nat :: metas' == metas[leaf([]).cid := SliceMeta(path, at, 0)]
       else r.Err? && metas' == metas
  }

  lemma LeafTakenKeepsTags(codec: Codec, raw: bool, t: NodeType, sources: Sources, made: bool,
                           pending: seq<(Bytes, SliceMeta)>, metas: map<Cid, SliceMeta>,
                           r: Result<(DagNode, nat)>, pending': seq<(Bytes, SliceMeta)>, metas': map<Cid, SliceMeta>)
    requires AllNamed(sources, pending) && MetasRight(codec, raw, sources, metas)
    requires pending != [] && LeafTaken(LeafOf(codec, raw, t), made, pending, metas, r, pending', metas')
    ensures AllNamed(sources, pending') && MetasRight(codec, raw, sources, metas') && metas.Keys <= metas'.Keys
  {
    NamedTail(sources, pending);
    TagFiled(codec, raw, sources, metas, pending[0].0, t, pending[0].1);
  }

  lemma NoLeafTakenKeepsTags(codec: Codec, raw: bool, t: NodeType, sources: Sources, made: bool, path: string,
                             metas: map<Cid, SliceMeta>, r: Result<(DagNode, nat)>,
                             pending': seq<(Bytes, SliceMeta)>, metas': map<Cid, SliceMeta>)
    requires path in sources && MetasRight(codec, raw, sources, metas)
    requires NoLeafTaken(LeafOf(codec, raw, t), made, path, metas, r, pending', metas')
    ensures AllNamed(sources, pending') && MetasRight(codec, raw, sources, metas') && metas.Keys <= metas'.Keys
  {
    if made {
      var at: nat :| metas' == metas[LeafOf(codec, raw, t)([]).cid := SliceMeta(path, at, 0)];
      TagFiled(codec, raw, sources, metas, [], t, SliceMeta(path, at, 0));
    }
  }

  /** What a first Add files: the tag of the leaf with that CID, if there is one. */
  function AddedMapping(metas: map<Cid, SliceMeta>, node: DagNode): ChunkMapping {
    if node.cid in metas then
      var meta := metas[node.cid];
      NodeAction(node).(srcPath := meta.path, srcOffset := meta.offset, size := meta.size)
    else NodeAction(node)
  }

  // ----- runs

  /** What can happen to a builder and the DAG service behind it, in any order. */
  datatype Event =
    | TestDone
    | TakeChunk
    | TakeLeaf(fsNodeType: NodeType, made: bool)
    | AddNode(node: DagNode)
    | ServiceAdd(node: DagNode)

  predicate Adds(event: Event) {
    event.AddNode? || event.ServiceAdd?
  }

  /** A node is what its CID says, whoever adds it, and its length fits the eight bytes of the varint. */
  ghost predicate EventFair(codec: Codec, event: Event) {
    Adds(event) ==> IsNode(codec, event.node) && NodeFits(event.node)
  }

  ghost predicate NodeFits(node: DagNode) {
    LengthFits(|node.rawData|, node.cid)
  }

  /** The filed tags and the index between two events. */
  datatype Snapshot = Snapshot(metas: map<Cid, SliceMeta>, mappings: Mappings)

  /** What an event that adds a node files for it, if nothing is filed yet. */
  function FiledBy(s: Snapshot, event: Event): ChunkMapping
    requires Adds(event)
  {
    if event.AddNode? then AddedMapping(s.metas, event.node) else NodeAction(event.node)
  }

  /** How an event changes tags and index. */
  ghost predicate IndexStep(s: Snapshot, event: Event, s': Snapshot) {
    if Adds(event) then s' == s.(mappings := Inserted(s.mappings, event.node.cid, FiledBy(s, event)))
    else s'.mappings == s.mappings && s.metas.Keys <= s'.metas.Keys
  }

  /** A run's tags and index, before each event and after the last. */
  ghost predicate IsIndexRun(trace: seq<Snapshot>, events: seq<Event>) {
    |trace| == |events| + 1 && forall i :: 0 <= i < |events| ==> StepAt(trace, events, i)
  }

  /** All through the run the filed tags name what they are filed under. */
  ghost predicate TagsAlwaysRight(codec: Codec, raw: bool, sources: Sources, trace: seq<Snapshot>) {
    forall k :: 0 <= k < |trace| ==> MetasRight(codec, raw, sources, trace[k].metas)
  }

  ghost predicate StepAt(trace: seq<Snapshot>, events: seq<Event>, i: nat)
    requires i < |events| == |trace| - 1
  {
    IndexStep(trace[i], events[i], trace[i + 1])
  }

  lemma InsertKeepsIndexRight(codec: Codec, raw: bool, sources: Sources, m: Mappings, rawSizes: map<Cid, nat>,
                              node: DagNode, cm: ChunkMapping)
    requires IndexRight(codec, raw, sources, m, rawSizes) && IsNode(codec, node) && NodeFits(node)
    requires cm.cid == node.cid && cm.chunkSize == LdSize(|node.cid|, |node.rawData|)
    requires cm.srcPath != "" ==>
      NamesPayload(codec, raw, sources, node.cid, cm.srcPath, cm.srcOffset, cm.size, cm.nodeType)
    ensures IndexRight(codec, raw, sources, Inserted(m, node.cid, cm), RawInserted(m, rawSizes, node))
  {
    InsertKeepsSourcesNamed(codec, raw, sources, m, node.cid, cm);
    InsertKeepsSizesKnown(codec, m, rawSizes, node, cm);
    InsertKeepsLengths(m, rawSizes, node);
  }

  lemma InsertKeepsSourcesNamed(codec: Codec, raw: bool, sources: Sources, m: Mappings, c: Cid, cm: ChunkMapping)
    requires SourcesNamed(codec, raw, sources, m)
    requires cm.srcPath != "" ==> NamesPayload(codec, raw, sources, c, cm.srcPath, cm.srcOffset, cm.size, cm.nodeType)
    ensures SourcesNamed(codec, raw, sources, Inserted(m, c, cm))
  {
  }

  lemma InsertKeepsSizesKnown(codec: Codec, m: Mappings, rawSizes: map<Cid, nat>, node: DagNode, cm: ChunkMapping)
    requires SizesKnown(codec, m, rawSizes) && IsNode(codec, node)
    requires cm.cid == node.cid && cm.chunkSize == LdSize(|node.cid|, |node.rawData|)
    ensures SizesKnown(codec, Inserted(m, node.cid, cm), RawInserted(m, rawSizes, node))
  {
    var m', rawSizes' := Inserted(m, node.cid, cm), RawInserted(m, rawSizes, node);
    forall c | c in m'
      ensures SizeKnown(codec, c, m'[c], rawSizes')
    {
      if c in m {
        assert SizeKnown(codec, c, m[c], rawSizes);
      } else {
        assert codec.cidOf(node.rawData) == c;
      }
    }
  }

  lemma InsertKeepsLengths(m: Mappings, rawSizes: map<Cid, nat>, node: DagNode)
    requires LengthsFit(rawSizes) && NodeFits(node)
    ensures LengthsFit(RawInserted(m, rawSizes, node))
  {
  }

  lemma AddedIsNamed(codec: Codec, raw: bool, sources: Sources, metas: map<Cid, SliceMeta>, node: DagNode)
    requires CollisionFree(codec) && LeafTypesRecover(codec) && IsNode(codec, node)
    requires MetasRight(codec, raw, sources, metas)
    ensures var cm := AddedMapping(metas, node);
      cm.srcPath != "" ==>
        NamesPayload(codec, raw, sources, node.cid, cm.srcPath, cm.srcOffset, cm.size, cm.nodeType)
  {
    if node.cid in metas {
      var meta := metas[node.cid];
      assert MetaRight(codec, raw, sources, node.cid, meta);
      var t :| NamesPayload(codec, raw, sources, node.cid, meta.path, meta.offset, meta.size, t);
      NodeTypeWillDo(codec, raw, sources, node, meta.path, meta.offset, meta.size, t);
    }
  }

  /** Taking a leaf keeps the tags right, and loses none. */
  method HandleLeaf(w: WrapDagBuilder, t: NodeType, made: bool, ghost sources: Sources)
    requires w.Valid() && w.TagsRight(sources)
    modifies w, w.spl, w.spl.inner
    ensures w.Valid() && w.TagsRight(sources) && old(w.metas).Keys <= w.metas.Keys
  {
    ghost var pending, metas := w.Pending(), w.metas;
    var r := w.NewLeafDataNode(t, made);
    if pending != [] {
      LeafTakenKeepsTags(w.codec, w.rawLeaves, t, sources, made, pending, metas, r, w.Pending(), w.metas);
    } else {
      NoLeafTakenKeepsTags(w.codec, w.rawLeaves, t, sources, made && !w.spl.inner.broken, w.spl.srcPath, metas, r,
                           w.Pending(), w.metas);
    }
  }

  /** Adding a node through the builder keeps the index right. */
  method HandleAdd(w: WrapDagBuilder, node: DagNode, ghost sources: Sources)
    requires IsNode(w.codec, node) && NodeFits(node) && MetasRight(w.codec, w.rawLeaves, sources, w.metas)
    requires CollisionFree(w.codec) && LeafTypesRecover(w.codec)
    requires IndexRight(w.codec, w.rawLeaves, sources, w.ms.mappings, w.ms.chunkRawSize)
    modifies w.ms`mappings, w.ms`chunkRawSize
    ensures IndexRight(w.codec, w.rawLeaves, sources, w.ms.mappings, w.ms.chunkRawSize)
    ensures w.ms.mappings == Inserted(old(w.ms.mappings), node.cid, AddedMapping(w.metas, node))
  {
    AddedIsNamed(w.codec, w.rawLeaves, sources, w.metas, node);
    InsertKeepsIndexRight(w.codec, w.rawLeaves, sources, w.ms.mappings, w.ms.chunkRawSize, node,
                          AddedMapping(w.metas, node));
    w.Add(node);
  }

  /** So does adding one through the DAG service alone. */
  method HandleServiceAdd(codec: Codec, raw: bool, ms: MappingService, node: DagNode, ghost sources: Sources)
    requires IsNode(codec, node) && NodeFits(node) && IndexRight(codec, raw, sources, ms.mappings, ms.chunkRawSize)
    modifies ms`mappings, ms`chunkRawSize
    ensures IndexRight(codec, raw, sources, ms.mappings, ms.chunkRawSize)
    ensures ms.mappings == Inserted(old(ms.mappings), node.cid, NodeAction(node))
  {
    InsertKeepsIndexRight(codec, raw, sources, ms.mappings, ms.chunkRawSize, node, NodeAction(node));
    ms.DagServerAction(node);
  }

  method HandleAdding(w: WrapDagBuilder, event: Event, ghost sources: Sources)
    requires Adds(event) && EventFair(w.codec, event) && MetasRight(w.codec, w.rawLeaves, sources, w.metas)
    requires CollisionFree(w.codec) && LeafTypesRecover(w.codec)
    requires IndexRight(w.codec, w.rawLeaves, sources, w.ms.mappings, w.ms.chunkRawSize)
    modifies w.ms`mappings, w.ms`chunkRawSize
    ensures IndexRight(w.codec, w.rawLeaves, sources, w.ms.mappings, w.ms.chunkRawSize)
    ensures IndexStep(Snapshot(w.metas, old(w.ms.mappings)), event, Snapshot(w.metas, w.ms.mappings))
  {
    if event.AddNode? {
      HandleAdd(w, event.node, sources);
    } else {
      HandleServiceAdd(w.codec, w.rawLeaves, w.ms, event.node, sources);
    }
  }

  /** Events that add nothing keep the tags right, and lose none. */
  method HandleTaking(w: WrapDagBuilder, event: Event, ghost sources: Sources)
    requires w.Valid() && w.TagsRight(sources) && !Adds(event)
    modifies w, w.spl, w.spl.inner
    ensures w.Valid() && w.TagsRight(sources) && old(w.metas).Keys <= w.metas.Keys
  {
    match event
    case TestDone =>
      var _ := w.Done();
    case TakeChunk =>
      NamedTail(sources, w.Pending());
      var _ := w.Next();
    case TakeLeaf(t, made) =>
      HandleLeaf(w, t, made, sources);
  }

  /** One event: the tags stay right, so does the index, and it changes as the event says. */
  method Handle(w: WrapDagBuilder, event: Event, ghost sources: Sources)
    requires w.Valid() && w.TagsRight(sources) && EventFair(w.codec, event)
    requires CollisionFree(w.codec) && LeafTypesRecover(w.codec)
    requires IndexRight(w.codec, w.rawLeaves, sources, w.ms.mappings, w.ms.chunkRawSize)
    modifies w, w.spl, w.spl.inner, w.ms`mappings, w.ms`chunkRawSize
    ensures w.Valid() && w.TagsRight(sources)
    ensures IndexRight(w.codec, w.rawLeaves, sources, w.ms.mappings, w.ms.chunkRawSize)
    ensures IndexStep(Snapshot(old(w.metas), old(w.ms.mappings)), event, Snapshot(w.metas, w.ms.mappings))
  {
    if Adds(event) {
      HandleAdding(w, event, sources);
    } else {
      HandleTaking(w, event, sources);
    }
  }

  /**
   In every run of builder and DAG service, whatever repeats: a mapping with a source path names a
   range that holds its block's payload, and the sizes on record are those of the block. How the index
   came about is the run's trace.
   */
  method RunEvents(w: WrapDagBuilder, events: seq<Event>, ghost sources: Sources) returns (ghost trace: seq<Snapshot>)
    requires w.Valid() && w.TagsRight(sources)
    requires forall i :: 0 <= i < |events| ==> EventFair(w.codec, events[i])
    requires CollisionFree(w.codec) && LeafTypesRecover(w.codec)
    requires IndexRight(w.codec, w.rawLeaves, sources, w.ms.mappings, w.ms.chunkRawSize)
    modifies w, w.spl, w.spl.inner, w.ms`mappings, w.ms`chunkRawSize
    ensures w.Valid() && w.TagsRight(sources)
    ensures IndexRight(w.codec, w.rawLeaves, sources, w.ms.mappings, w.ms.chunkRawSize)
    ensures IsIndexRun(trace, events) && TagsAlwaysRight(w.codec, w.rawLeaves, sources, trace)
    ensures trace[0] == Snapshot(old(w.metas), old(w.ms.mappings))
    ensures trace[|events|] == Snapshot(w.metas, w.ms.mappings)
  {
    trace := [Snapshot(w.metas, w.ms.mappings)];
    for i := 0 to |events|
      invariant w.Valid() && w.TagsRight(sources)
      invariant IndexRight(w.codec, w.rawLeaves, sources, w.ms.mappings, w.ms.chunkRawSize)
      invariant IsIndexRun(trace, events[..i]) && TagsAlwaysRight(w.codec, w.rawLeaves, sources, trace)
      invariant trace[0] == Snapshot(old(w.metas), old(w.ms.mappings))
      invariant trace[i] == Snapshot(w.metas, w.ms.mappings)
    {
      Handle(w, events[i], sources);
      RunGoesOn(trace, events, i, Snapshot(w.metas, w.ms.mappings));
      trace := trace + [Snapshot(w.metas, w.ms.mappings)];
    }
    assert events[..|events|] == events;
  }

  lemma RunGoesOn(trace: seq<Snapshot>, events: seq<Event>, i: nat, s: Snapshot)
    requires i < |events| && IsIndexRun(trace, events[..i]) && IndexStep(trace[i], events[i], s)
    ensures IsIndexRun(trace + [s], events[..i + 1])
  {
    var longer, done := trace + [s], events[..i + 1];
    forall k | 0 <= k < |done|
      ensures StepAt(longer, done, k)
    {
      assert k < i ==> StepAt(trace, events[..i], k);
    }
  }

  // ----- what runs leave behind

  /** Every mapping of the first index is in the second, unchanged. */
  ghost predicate Kept(before: Mappings, after: Mappings) {
    forall c :: c in before ==> c in after && after[c] == before[c]
  }

  /** No mapping that is there is ever changed or lost. */
  lemma {:induction false} RunKeepsMappings(trace: seq<Snapshot>, events: seq<Event>, i: nat, j: nat)
    requires IsIndexRun(trace, events) && i <= j <= |events|
    ensures Kept(trace[i].mappings, trace[j].mappings)
    decreases j
  {
    if i < j {
      RunKeepsMappings(trace, events, i, j - 1);
      assert StepAt(trace, events, j - 1);
    }
  }

  /** The mapping is what the event says of its node, with the tag's source if the builder added a tagged node. */
  ghost predicate IsRecordOf(s: Snapshot, event: Event, cm: ChunkMapping)
    requires Adds(event)
  {
    var node := event.node;
    && cm.cid == node.cid && cm.links == node.links && cm.nodeType == node.nodeType && cm.blockSize == node.blockSize
    && cm.chunkSize == |Uvarint(|node.cid| + |node.rawData|)| + |node.cid| + |node.rawData| && cm.dstOffset == 0
    && if event.AddNode? && node.cid in s.metas
       then SliceMeta(cm.srcPath, cm.srcOffset, cm.size) == s.metas[node.cid]
       else cm.srcPath == "" && cm.srcOffset == 0 && cm.size == 0
  }

  /** One of the first i events was the first to add the node, and recorded it so. */
  ghost predicate RecordedBy(trace: seq<Snapshot>, events: seq<Event>, i: nat, c: Cid, cm: ChunkMapping)
    requires i <= |events| < |trace|
  {
    exists k :: 0 <= k < i && FirstToAdd(trace[k], events[k], c) && IsRecordOf(trace[k], events[k], cm)
  }

  predicate FirstToAdd(s: Snapshot, event: Event, c: Cid) {
    Adds(event) && event.node.cid == c && c !in s.mappings
  }

  /** In every run the index holds what the first event to add each node recorded of it, and nothing else. */
  lemma {:induction false} RunRecordsNodes(trace: seq<Snapshot>, events: seq<Event>, i: nat, c: Cid)
    requires IsIndexRun(trace, events) && i <= |events| && trace[0].mappings == map[]
    requires c in trace[i].mappings
    ensures RecordedBy(trace, events, i, c, trace[i].mappings[c])
    decreases i
  {
    assert i > 0;
    assert StepAt(trace, events, i - 1);
    if c in trace[i - 1].mappings {
      RunRecordsNodes(trace, events, i - 1, c);
    } else {
      assert FirstToAdd(trace[i - 1], events[i - 1], c);
    }
  }

  /** And every node that an event adds is in the index from then on. */
  lemma RunHoldsAdded(trace: seq<Snapshot>, events: seq<Event>, k: nat, i: nat)
    requires IsIndexRun(trace, events) && k < i <= |events| && Adds(events[k])
    ensures events[k].node.cid in trace[i].mappings
  {
    assert StepAt(trace, events, k);
    RunKeepsMappings(trace, events, k + 1, i);
  }

  predicate TaggedIfSized(s: Snapshot, c: Cid)
    requires c in s.mappings
  {
    s.mappings[c].size > 0 ==> c in s.metas
  }

  /** Only nodes with a filed tag have a file size on record. */
  ghost predicate OnlyTaggedSized(s: Snapshot) {
    forall c :: c in s.mappings ==> TaggedIfSized(s, c)
  }

  /** In every run, nodes that were never made of a chunk are on record with file size zero. */
  lemma {:induction false} RunSizesTagged(trace: seq<Snapshot>, events: seq<Event>, i: nat)
    requires IsIndexRun(trace, events) && i <= |events|
    requires OnlyTaggedSized(trace[0])
    ensures OnlyTaggedSized(trace[i])
    decreases i
  {
    if i > 0 {
      RunSizesTagged(trace, events, i - 1);
      assert StepAt(trace, events, i - 1);
    }
  }

  /** How often a chunk is asked for. */
  function Takes(asks: seq<bool>): nat {
    if |asks| == 0 then 0 else Takes(asks[..|asks| - 1]) + if asks[|asks| - 1] then 1 else 0
  }

  function FirstOf<T>(pending: seq<T>): Option<T> {
    if |pending| == 0 then None else Some(pending[0])
  }

  function Behind<T>(pending: seq<T>): seq<T> {
    if |pending| == 0 then [] else pending[1..]
  }

  /** The next chunk with its own tag, if there is one. */
  method Deliver(w: WrapDagBuilder) returns (d: Option<(Bytes, SliceMeta)>)
    requires w.Valid()
    modifies w`recvdErr, w`nextData, w`nextMeta, w.spl, w.spl.inner
    ensures w.Valid()
    ensures d == FirstOf(old(w.Pending())) && w.Pending() == Behind(old(w.Pending()))
  {
    var r := w.Next();
    d := if r.Ok? && r.value.Some? then Some((r.value.value, w.nextMeta)) else None;
  }

  /** The first n of all are out, the others pending. */
  ghost predicate Delivered<T>(all: seq<T>, n: nat, out: seq<T>, pending: seq<T>) {
    n <= |all| && out == all[..n] && pending == all[n..]
  }

  lemma DeliveredNext<T>(all: seq<T>, n: nat, out: seq<T>, pending: seq<T>)
    requires Delivered(all, n, out, pending)
    ensures FirstOf(pending).Some? <==> n < |all|
    ensures n < |all| ==> Delivered(all, n + 1, out + [FirstOf(pending).value], Behind(pending))
    ensures n == |all| ==> Behind(pending) == pending
  {
  }

  /**
   Any interleaving of Done (false) and Next (true): the chunks come out in order, once each, each
   with its own tag, until there are none left.
   */
  method RunLookahead(w: WrapDagBuilder, asks: seq<bool>) returns (out: seq<(Bytes, SliceMeta)>)
    requires w.Valid()
    modifies w`recvdErr, w`nextData, w`nextMeta, w.spl, w.spl.inner
    ensures w.Valid()
    ensures Delivered(old(w.Pending()), Min(Takes(asks), |old(w.Pending())|), out, w.Pending())
  {
    out := [];
    ghost var all, n := w.Pending(), 0;
    for i := 0 to |asks|
      invariant w.Valid() && n == Min(Takes(asks[..i]), |all|)
      invariant Delivered(all, n, out, w.Pending())
    {
      assert asks[..i + 1][..i] == asks[..i];
      if asks[i] {
        DeliveredNext(all, n, out, w.Pending());
        var d := Deliver(w);
        if d.Some? {
          out, n := out + [d.value], n + 1;
        }
      } else {
        var _ := w.Done();
      }
    }
    assert asks[..|asks|] == asks;
  }

  // ----- tags tile the source

  function Flatten(chunks: seq<Bytes>): Bytes {
    if |chunks| == 0 then [] else chunks[0] + Flatten(chunks[1..])
  }

  /** The tags name consecutive ranges with no gap or overlap, from the first chunk's offset on. */
  lemma {:induction false} TagsTile(chunks: seq<Bytes>, path: string, at: nat, i: nat)
    requires i < |chunks|
    ensures var t := Tagged(chunks, path, at);
      && t[i].0 == chunks[i] && t[i].1.path == path && t[i].1.size == |chunks[i]|
      && t[i].1.offset == at + |Flatten(chunks[..i])|
      && (i > 0 ==> t[i].1.offset == t[i - 1].1.offset + t[i - 1].1.size)
    decreases |chunks|
  {
    if i > 0 {
      TagsTile(chunks[1..], path, at + |chunks[0]|, i - 1);
      assert chunks[..i][1..] == chunks[1..][..i - 1];
    }
  }

  /** Cut from a source file at chunkStart, every chunk is what its tag names. */
  lemma {:induction false} TagsNameSource(chunks: seq<Bytes>, sources: Sources, path: string, at: nat)
    requires path in sources && at + |Flatten(chunks)| <= |sources[path]|
    requires sources[path][at..at + |Flatten(chunks)|] == Flatten(chunks)
    ensures AllNamed(sources, Tagged(chunks, path, at))
  {
    if |chunks| > 0 {
      var src, first, rest := sources[path], chunks[0], Flatten(chunks[1..]);
      assert src[at..at + |first| + |rest|] == first + rest;
      CutInTwo(src, at, first, rest);
      TagsNameSource(chunks[1..], sources, path, at + |first|);
    }
  }

  lemma CutInTwo(s: Bytes, at: nat, a: Bytes, b: Bytes)
    requires at + |a| + |b| <= |s| && s[at..at + |a| + |b|] == a + b
    ensures s[at..at + |a|] == a && s[at + |a|..at + |a| + |b|] == b
  {
    var w := s[at..at + |a| + |b|];
    assert w[..|a|] == a && w[|a|..] == b;
    assert s[at..at + |a|] == w[..|a|] && s[at + |a|..at + |a| + |b|] == w[|a|..];
  }
}
