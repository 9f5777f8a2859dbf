/**
 Exactly which nodes can be rebuilt from an index, what the runs that made the index leave on record for
 that, and which nodes they always lose.
 */
module Rebuilding {
  import opened Bytes
  import opened CarFormat
  import opened CarIndex
  import opened ChunkRange
  import opened DagBuilder
  import opened DagCodec

  // ----- one node

  /** Nodes around different links or child sizes have different bytes. */
  ghost predicate ParentsDiffer(codec: Codec) {
    forall t, a, b :: codec.parent(t, a) == codec.parent(t, b) ==> a == b
  }

  function LinksOf(kids: seq<(Link, nat)>): (links: seq<Link>)
    ensures |links| == |kids|
  {
    seq(|kids|, i requires 0 <= i < |kids| => kids[i].0)
  }

  /** The mapping is of the node that was built around these children, each with its true size. */
  ghost predicate BuiltAround(codec: Codec, cm: ChunkMapping, kids: seq<(Link, nat)>) {
    cm.cid == codec.cidOf(codec.parent(cm.nodeType, kids)) && cm.links == LinksOf(kids)
  }

  /** The index knows every child, with the size its parent was built with. */
  ghost predicate SizesRecorded(m: Mappings, t: NodeType, kids: seq<(Link, nat)>) {
    forall i :: 0 <= i < |kids| ==> SizeRecorded(m, t, kids[i])
  }

  predicate SizeRecorded(m: Mappings, t: NodeType, kid: (Link, nat)) {
    kid.0.cid in m && ChildSize(t, m[kid.0.cid]) == kid.1
  }

  lemma {:induction false} ChildrenExactly(m: Mappings, t: NodeType, kids: seq<(Link, nat)>)
    ensures SizesRecorded(m, t, kids) <==> Children(m, t, LinksOf(kids)) == Ok(kids)
  {
    if |kids| > 0 {
      var n := |kids| - 1;
      var front, last := kids[..n], kids[n];
      ChildrenExactly(m, t, front);
      assert LinksOf(kids)[..n] == LinksOf(front);
      assert kids == front + [last];
      LastRecorded(m, t, kids);
    }
  }

  lemma LastRecorded(m: Mappings, t: NodeType, kids: seq<(Link, nat)>)
    requires |kids| > 0
    ensures SizesRecorded(m, t, kids) <==>
            SizesRecorded(m, t, kids[..|kids| - 1]) && SizeRecorded(m, t, kids[|kids| - 1])
  {
  }

  lemma {:induction false} ChildrenLinks(m: Mappings, t: NodeType, links: seq<Link>)
    ensures var kids := Children(m, t, links); kids.Ok? ==> LinksOf(kids.value) == links
  {
    if |links| > 0 && Children(m, t, links).Ok? {
      var n := |links| - 1;
      ChildrenLinks(m, t, links[..n]);
      assert links == links[..n] + [links[n]];
    }
  }

  /** A node without a source can be rebuilt exactly when its children's true sizes are on record. */
  lemma ParentRebuildsExactly(env: Env, m: Mappings, cm: ChunkMapping, kids: seq<(Link, nat)>)
    requires CollisionFree(env.codec) && ParentsDiffer(env.codec)
    requires cm.srcPath == "" && BuiltAround(env.codec, cm, kids)
    ensures Rebuilt(env, m, cm).Ok? <==> SizesRecorded(m, cm.nodeType, kids)
    ensures Rebuilt(env, m, cm).Ok? <==>
            forall i :: 0 <= i < |kids| ==>
              var c := kids[i].0.cid;
              c in m && kids[i].1 == if cm.nodeType == File then m[c].size else m[c].blockSize
  {
    ChildrenExactly(m, cm.nodeType, kids);
    var children := Children(m, cm.nodeType, cm.links);
    if children.Ok? && env.codec.cidOf(env.codec.parent(cm.nodeType, children.value)) == cm.cid {
      assert env.codec.parent(cm.nodeType, children.value) == env.codec.parent(cm.nodeType, kids);
    }
  }

  ghost predicate ParentRecorded(codec: Codec, m: Mappings, cm: ChunkMapping) {
    exists kids :: BuiltAround(codec, cm, kids) && SizesRecorded(m, cm.nodeType, kids)
  }

  /** The node's source range holds its payload, or it was built around children whose sizes are on record. */
  ghost predicate OnRecord(env: Env, m: Mappings, cm: ChunkMapping) {
    if cm.srcPath != "" then
      NamesPayload(env.codec, env.rawLeaves, env.sources, cm.cid, cm.srcPath, cm.srcOffset, cm.size, cm.nodeType)
    else ParentRecorded(env.codec, m, cm)
  }

  /** A node of the index can be rebuilt exactly when it is on record. */
  lemma RebuiltExactly(env: Env, m: Mappings, cm: ChunkMapping)
    requires cm.cid in m
    ensures Rebuilt(env, m, cm).Ok? <==> OnRecord(env, m, cm)
  {
    if cm.srcPath == "" {
      if Rebuilt(env, m, cm).Ok? {
        var kids := Children(m, cm.nodeType, cm.links).value;
        ChildrenLinks(m, cm.nodeType, cm.links);
        ChildrenExactly(m, cm.nodeType, kids);
        assert BuiltAround(env.codec, cm, kids);
      }
      if ParentRecorded(env.codec, m, cm) {
        var kids :| BuiltAround(env.codec, cm, kids) && SizesRecorded(m, cm.nodeType, kids);
        ChildrenExactly(m, cm.nodeType, kids);
      }
    }
  }

  // ----- one file node

  /** Only mappings with a source have a file size. */
  ghost predicate SizedSourced(m: Mappings) {
    forall c :: c in m && m[c].size > 0 ==> m[c].srcPath != ""
  }

  /** A child that is a leaf is linked with the number of bytes it holds. */
  ghost predicate LeafSized(codec: Codec, raw: bool, kid: (Link, nat)) {
    forall data, t :: codec.cidOf(codec.leaf(data, t, raw)) == kid.0.cid ==> |data| == kid.1
  }

  /** The mapping is of a file node around these children. */
  ghost predicate FileOver(codec: Codec, raw: bool, cm: ChunkMapping, kids: seq<(Link, nat)>) {
    && cm.nodeType == File && BuiltAround(codec, cm, kids)
    && forall i :: 0 <= i < |kids| ==> LeafSized(codec, raw, kids[i])
  }

  /** The child is in the index, with a source if there are file bytes under it. */
  predicate ChildFiled(m: Mappings, kid: (Link, nat)) {
    kid.0.cid in m && (kid.1 > 0 ==> m[kid.0.cid].srcPath != "")
  }

  lemma ChildSizeExactly(codec: Codec, raw: bool, sources: Sources, m: Mappings, kid: (Link, nat))
    requires SourcesNamed(codec, raw, sources, m) && SizedSourced(m) && LeafSized(codec, raw, kid)
    ensures SizeRecorded(m, File, kid) == ChildFiled(m, kid)
  {
    var c := kid.0.cid;
    if c in m && m[c].srcPath != "" {
      assert NamesPayload(codec, raw, sources, c, m[c].srcPath, m[c].srcOffset, m[c].size, m[c].nodeType);
      var data := ReadSource(sources, m[c].srcPath, m[c].srcOffset, m[c].size).value;
      assert |data| == m[c].size == kid.1;
    }
  }

  /**
   A file node without a source can be rebuilt exactly when the index has all its children, and has a
   source for each that holds file bytes.
   */
  lemma FileRebuiltExactly(env: Env, m: Mappings, cm: ChunkMapping, kids: seq<(Link, nat)>)
    requires CollisionFree(env.codec) && ParentsDiffer(env.codec)
    requires SourcesNamed(env.codec, env.rawLeaves, env.sources, m) && SizedSourced(m)
    requires cm.srcPath == "" && FileOver(env.codec, env.rawLeaves, cm, kids)
    ensures Rebuilt(env, m, cm).Ok? <==> forall i :: 0 <= i < |kids| ==> ChildFiled(m, kids[i])
  {
    ParentRebuildsExactly(env, m, cm, kids);
    forall i | 0 <= i < |kids|
      ensures SizeRecorded(m, File, kids[i]) == ChildFiled(m, kids[i])
    {
      ChildSizeExactly(env.codec, env.rawLeaves, env.sources, m, kids[i]);
    }
  }

  // ----- a range of the CAR

  /** Block i's closed range in the CAR meets the closed query range. */
  predicate Touched(header: Bytes, blocks: seq<Block>, i: nat, start: nat, end: nat)
    requires i < |blocks|
  {
    Off(header, blocks, i) <= end && start <= Off(header, blocks, i + 1)
  }

  /** Every touched block is on record. */
  ghost predicate TouchedOnRecord(env: Env, m: Mappings, header: Bytes, blocks: seq<Block>, start: nat, end: nat) {
    forall i :: 0 <= i < |blocks| && Touched(header, blocks, i, start, end) ==>
      blocks[i].cid in m && OnRecord(env, m, m[blocks[i].cid])
  }

  // ----- what a run leaves on record

  /** An event that files a tagged node files its source. */
  lemma StepFilesSource(codec: Codec, raw: bool, sources: Sources, s: Snapshot, event: Event)
    requires "" !in sources && MetasRight(codec, raw, sources, s.metas) && Adds(event)
    ensures event.AddNode? && event.node.cid in s.metas ==> FiledBy(s, event).srcPath != ""
    ensures FiledBy(s, event).size > 0 ==> FiledBy(s, event).srcPath != ""
  {
    if event.node.cid in s.metas {
      assert MetaRight(codec, raw, sources, event.node.cid, s.metas[event.node.cid]);
    }
  }

  /** In every run, only mappings with a source have a file size. */
  lemma {:induction false} RunSizesSourced(codec: Codec, raw: bool, sources: Sources, trace: seq<Snapshot>,
                                           events: seq<Event>, i: nat)
    requires IsIndexRun(trace, events) && i <= |events|
    requires "" !in sources && TagsAlwaysRight(codec, raw, sources, trace) && SizedSourced(trace[0].mappings)
    ensures SizedSourced(trace[i].mappings)
    decreases i
  {
    if i > 0 {
      RunSizesSourced(codec, raw, sources, trace, events, i - 1);
      assert StepAt(trace, events, i - 1);
      if Adds(events[i - 1]) {
        StepFilesSource(codec, raw, sources, trace[i - 1], events[i - 1]);
      }
    }
  }

  /** The event adds the child; if the child holds file bytes, as the leaf of a taken chunk and for the first time. */
  predicate AddsChild(s: Snapshot, event: Event, kid: (Link, nat)) {
    && Adds(event) && event.node.cid == kid.0.cid
    && (kid.1 > 0 ==> event.AddNode? && kid.0.cid in s.metas && kid.0.cid !in s.mappings)
  }

  /** One of the first j events of the run adds the child. */
  ghost predicate AddedBefore(trace: seq<Snapshot>, events: seq<Event>, j: nat, kid: (Link, nat))
    requires j <= |events| < |trace|
  {
    exists k :: 0 <= k < j && AddsChild(trace[k], events[k], kid)
  }

  /** The run adds every child. */
  ghost predicate AllAdded(trace: seq<Snapshot>, events: seq<Event>, kids: seq<(Link, nat)>)
    requires |events| < |trace|
  {
    forall i :: 0 <= i < |kids| ==> AddedBefore(trace, events, |events|, kids[i])
  }

  /** A child that was added stays filed. */
  lemma AddedIsFiled(codec: Codec, raw: bool, sources: Sources, trace: seq<Snapshot>, events: seq<Event>,
                     j: nat, kid: (Link, nat))
    requires IsIndexRun(trace, events) && j <= |events| && AddedBefore(trace, events, j, kid)
    requires "" !in sources && TagsAlwaysRight(codec, raw, sources, trace)
    ensures ChildFiled(trace[j].mappings, kid)
  {
    var k :| 0 <= k < j && AddsChild(trace[k], events[k], kid);
    assert StepAt(trace, events, k);
    StepFilesChild(codec, raw, sources, trace[k], events[k], trace[k + 1], kid);
    RunKeepsMappings(trace, events, k + 1, j);
  }

  lemma StepFilesChild(codec: Codec, raw: bool, sources: Sources, s: Snapshot, event: Event, s': Snapshot,
                       kid: (Link, nat))
    requires IndexStep(s, event, s') && AddsChild(s, event, kid)
    requires "" !in sources && MetasRight(codec, raw, sources, s.metas)
    ensures ChildFiled(s'.mappings, kid)
  {
    StepFilesSource(codec, raw, sources, s, event);
  }

  /** And only what was added is filed. */
  lemma {:induction false} FiledIsAdded(trace: seq<Snapshot>, events: seq<Event>, j: nat, kid: (Link, nat))
    requires IsIndexRun(trace, events) && j <= |events| && trace[0].mappings == map[]
    requires ChildFiled(trace[j].mappings, kid)
    ensures AddedBefore(trace, events, j, kid)
    decreases j
  {
    assert j > 0;
    assert StepAt(trace, events, j - 1);
    if kid.0.cid in trace[j - 1].mappings {
      FiledIsAdded(trace, events, j - 1, kid);
    } else {
      assert AddsChild(trace[j - 1], events[j - 1], kid);
    }
  }

  /**
   A file node that a run leaves in the index without a source can be rebuilt exactly when the run, at any
   time, adds each of its children, and adds those that hold file bytes first as leaves of taken chunks.
   */
  lemma RunRebuildsExactly(env: Env, trace: seq<Snapshot>, events: seq<Event>, c: Cid, kids: seq<(Link, nat)>)
    requires CollisionFree(env.codec) && ParentsDiffer(env.codec)
    requires IsIndexRun(trace, events) && trace[0].mappings == map[]
    requires "" !in env.sources && TagsAlwaysRight(env.codec, env.rawLeaves, env.sources, trace)
    requires SourcesNamed(env.codec, env.rawLeaves, env.sources, trace[|events|].mappings)
    requires c in trace[|events|].mappings && trace[|events|].mappings[c].srcPath == ""
    requires FileOver(env.codec, env.rawLeaves, trace[|events|].mappings[c], kids)
    ensures Rebuilt(env, trace[|events|].mappings, trace[|events|].mappings[c]).Ok? <==> AllAdded(trace, events, kids)
  {
    var m := trace[|events|].mappings;
    RunSizesSourced(env.codec, env.rawLeaves, env.sources, trace, events, |events|);
    FileRebuiltExactly(env, m, m[c], kids);
    forall i | 0 <= i < |kids|
      ensures ChildFiled(m, kids[i]) == AddedBefore(trace, events, |events|, kids[i])
    {
      FiledExactly(env, trace, events, kids[i]);
    }
  }

  lemma FiledExactly(env: Env, trace: seq<Snapshot>, events: seq<Event>, kid: (Link, nat))
    requires IsIndexRun(trace, events) && trace[0].mappings == map[]
    requires "" !in env.sources && TagsAlwaysRight(env.codec, env.rawLeaves, env.sources, trace)
    ensures ChildFiled(trace[|events|].mappings, kid) == AddedBefore(trace, events, |events|, kid)
  {
    if ChildFiled(trace[|events|].mappings, kid) {
      FiledIsAdded(trace, events, |events|, kid);
    } else if AddedBefore(trace, events, |events|, kid) {
      AddedIsFiled(env.codec, env.rawLeaves, env.sources, trace, events, |events|, kid);
    }
  }

  // ----- what every run loses

  /** A node can be told a leaf or a parent by its bytes. */
  ghost predicate LeavesAreNoParents(codec: Codec, raw: bool) {
    forall data, t, t', kids :: codec.leaf(data, t, raw) != codec.parent(t', kids)
  }

  /** No leaf has the CID of a parent, so no tag is filed under it. */
  lemma ParentsUntagged(codec: Codec, raw: bool, sources: Sources, metas: map<Cid, SliceMeta>,
                        t: NodeType, kids: seq<(Link, nat)>)
    requires CollisionFree(codec) && LeavesAreNoParents(codec, raw) && MetasRight(codec, raw, sources, metas)
    ensures codec.cidOf(codec.parent(t, kids)) !in metas
  {
    forall c | c in metas
      ensures c != codec.cidOf(codec.parent(t, kids))
    {
      assert MetaRight(codec, raw, sources, c, metas[c]);
      var t' :| NamesPayload(codec, raw, sources, c, metas[c].path, metas[c].offset, metas[c].size, t');
      var data := ReadSource(sources, metas[c].path, metas[c].offset, metas[c].size).value;
      assert codec.leaf(data, t', raw) != codec.parent(t, kids);
    }
  }

  /** A file node with a child whose file size is on record as zero, but is not zero, cannot be rebuilt. */
  lemma ZeroSizeIsFatal(env: Env, m: Mappings, cm: ChunkMapping, kids: seq<(Link, nat)>, i: nat)
    requires CollisionFree(env.codec) && ParentsDiffer(env.codec)
    requires cm.srcPath == "" && cm.nodeType == File && BuiltAround(env.codec, cm, kids)
    requires i < |kids| && kids[i].1 > 0
    requires kids[i].0.cid in m ==> m[kids[i].0.cid].size == 0
    ensures Rebuilt(env, m, cm).Err?
  {
    ParentRebuildsExactly(env, m, cm, kids);
    assert !SizeRecorded(m, File, kids[i]);
  }

  /**
   In every run, whatever its order: a file node above an inner node that stands over any bytes at all
   cannot be rebuilt from the index the run leaves, since that keeps no file size for inner nodes.
   */
  lemma DeepFileIsLost(env: Env, trace: seq<Snapshot>, events: seq<Event>, c: Cid, kids: seq<(Link, nat)>, i: nat,
                       t: NodeType, below: seq<(Link, nat)>)
    requires CollisionFree(env.codec) && ParentsDiffer(env.codec) && LeavesAreNoParents(env.codec, env.rawLeaves)
    requires IsIndexRun(trace, events) && OnlyTaggedSized(trace[0])
    requires MetasRight(env.codec, env.rawLeaves, env.sources, trace[|events|].metas)
    requires c in trace[|events|].mappings
    requires var cm := trace[|events|].mappings[c];
      cm.srcPath == "" && cm.nodeType == File && BuiltAround(env.codec, cm, kids)
    requires i < |kids| && kids[i].1 > 0 && kids[i].0.cid == env.codec.cidOf(env.codec.parent(t, below))
    ensures Rebuilt(env, trace[|events|].mappings, trace[|events|].mappings[c]).Err?
  {
    var s := trace[|events|];
    RunSizesTagged(trace, events, |events|);
    ParentsUntagged(env.codec, env.rawLeaves, env.sources, s.metas, t, below);
    assert kids[i].0.cid in s.mappings ==> TaggedIfSized(s, kids[i].0.cid);
    ZeroSizeIsFatal(env, s.mappings, s.mappings[c], kids, i);
  }

  // ----- such a run

  /** The node around some children. */
  function ParentNode(codec: Codec, t: NodeType, kids: seq<(Link, nat)>): (node: DagNode)
    ensures IsNode(codec, node)
  {
    var bytes := codec.parent(t, kids);
    DagNode(codec.cidOf(bytes), bytes, LinksOf(kids), codec.blockSizeOf(bytes), codec.typeOf(bytes))
  }

  /** The node around one child of the given file size. */
  function Above(codec: Codec, child: Cid, size: nat): (node: DagNode)
    ensures IsNode(codec, node)
  {
    ParentNode(codec, File, [(Link(child, "", size), size)])
  }

  /** A leaf, an inner node over it, and the root over that, added in this order. */
  function ThreeLevels(codec: Codec, raw: bool, data: Bytes): seq<Event> {
    var leaf := LeafNode(codec, raw, File, data);
    var inner := Above(codec, leaf.cid, |data|);
    [TakeLeaf(File, true), AddNode(leaf), AddNode(inner), AddNode(Above(codec, inner.cid, |data|))]
  }

  function RootOf(codec: Codec, raw: bool, data: Bytes): DagNode {
    Above(codec, Above(codec, LeafNode(codec, raw, File, data).cid, |data|).cid, |data|)
  }

  /** Nodes of different levels have different CIDs. */
  lemma LevelsDiffer(codec: Codec, raw: bool, data: Bytes)
    requires CollisionFree(codec) && ParentsDiffer(codec) && LeavesAreNoParents(codec, raw)
    ensures var leaf := LeafNode(codec, raw, File, data);
      var inner := Above(codec, leaf.cid, |data|);
      var root := Above(codec, inner.cid, |data|);
      leaf.cid != inner.cid && leaf.cid != root.cid && inner.cid != root.cid
  {
    var leaf := LeafNode(codec, raw, File, data);
    var inner := Above(codec, leaf.cid, |data|);
    var root := Above(codec, inner.cid, |data|);
    assert leaf.rawData != inner.rawData && leaf.rawData != root.rawData;
    assert [(Link(leaf.cid, "", |data|), |data|)][0] != [(Link(inner.cid, "", |data|), |data|)][0];
    assert inner.rawData != root.rawData;
  }

  /** The root is filed as the DAG service's callback sees it. */
  lemma RootIsFiled(codec: Codec, raw: bool, sources: Sources, data: Bytes, trace: seq<Snapshot>)
    requires CollisionFree(codec) && ParentsDiffer(codec) && LeavesAreNoParents(codec, raw)
    requires IsIndexRun(trace, ThreeLevels(codec, raw, data)) && trace[0].mappings == map[]
    requires MetasRight(codec, raw, sources, trace[4].metas)
    ensures var root := RootOf(codec, raw, data);
      root.cid in trace[4].mappings && trace[4].mappings[root.cid] == NodeAction(root)
  {
    var events := ThreeLevels(codec, raw, data);
    assert StepAt(trace, events, 0) && StepAt(trace, events, 1) && StepAt(trace, events, 2) && StepAt(trace, events, 3);
    LevelsDiffer(codec, raw, data);
    var inner := Above(codec, LeafNode(codec, raw, File, data).cid, |data|);
    ParentsUntagged(codec, raw, sources, trace[4].metas, File, [(Link(inner.cid, "", |data|), |data|)]);
  }

  /** After that run, over any bytes at all and under any encoding, the root cannot be rebuilt. */
  lemma ThreeLevelsLost(env: Env, data: Bytes, trace: seq<Snapshot>)
    requires CollisionFree(env.codec) && ParentsDiffer(env.codec) && LeavesAreNoParents(env.codec, env.rawLeaves)
    requires forall t, kids :: env.codec.typeOf(env.codec.parent(t, kids)) == t
    requires |data| > 0 && IsIndexRun(trace, ThreeLevels(env.codec, env.rawLeaves, data))
    requires trace[0].mappings == map[]
    requires MetasRight(env.codec, env.rawLeaves, env.sources, trace[4].metas)
    ensures var c := RootOf(env.codec, env.rawLeaves, data).cid;
      c in trace[4].mappings && Rebuilt(env, trace[4].mappings, trace[4].mappings[c]).Err?
  {
    var codec := env.codec;
    var leaf := LeafNode(codec, env.rawLeaves, File, data);
    var inner := Above(codec, leaf.cid, |data|);
    RootIsFiled(codec, env.rawLeaves, env.sources, data, trace);
    DeepFileIsLost(env, trace, ThreeLevels(codec, env.rawLeaves, data), RootOf(codec, env.rawLeaves, data).cid,
                   [(Link(inner.cid, "", |data|), |data|)], 0, File, [(Link(leaf.cid, "", |data|), |data|)]);
  }

  /** The builder and the service behind it do get there. */
  method LoseRoot(w: WrapDagBuilder, env: Env, data: Bytes)
    requires env.codec == w.codec && env.rawLeaves == w.rawLeaves
    requires CollisionFree(w.codec) && ParentsDiffer(w.codec) && LeavesAreNoParents(w.codec, w.rawLeaves)
    requires LeafTypesRecover(w.codec)
    requires forall t, kids :: w.codec.typeOf(w.codec.parent(t, kids)) == t
    requires w.Valid() && w.TagsRight(env.sources)
    requires w.ms.mappings == map[] && w.ms.chunkRawSize == map[]
    requires |data| > 0
    requires forall i :: 0 <= i < 4 ==> EventFair(w.codec, ThreeLevels(w.codec, w.rawLeaves, data)[i])
    modifies w, w.spl, w.spl.inner, w.ms`mappings, w.ms`chunkRawSize
    ensures var c := RootOf(w.codec, w.rawLeaves, data).cid;
      c in w.ms.mappings && Rebuilt(env, w.ms.mappings, w.ms.mappings[c]).Err?
  {
    ghost var trace := RunEvents(w, ThreeLevels(w.codec, w.rawLeaves, data), env.sources);
    ThreeLevelsLost(env, data, trace);
  }

  // ----- a run that loses nothing

  /** The leaf of the first chunk is in the index with the chunk's source, and can be rebuilt. */
  ghost predicate LeafKept(env: Env, m: Mappings, c: Cid, tag: SliceMeta) {
    && c in m && SliceMeta(m[c].srcPath, m[c].srcOffset, m[c].size) == tag
    && Rebuilt(env, m, m[c]).Ok?
  }

  /**
   Taking a chunk, adding its leaf and adding a node over that leaf: both can be rebuilt from the index,
   whatever the chunk holds.
   */
  method KeepRoot(w: WrapDagBuilder, env: Env, ghost chunk: (Bytes, SliceMeta))
    requires env.codec == w.codec && env.rawLeaves == w.rawLeaves && "" !in env.sources
    requires CollisionFree(w.codec) && ParentsDiffer(w.codec) && LeavesAreNoParents(w.codec, w.rawLeaves)
    requires LeafTypesRecover(w.codec)
    requires forall t, kids :: w.codec.typeOf(w.codec.parent(t, kids)) == t
    requires w.Valid() && w.TagsRight(env.sources) && w.Pending() != [] && w.Pending()[0] == chunk
    requires w.ms.mappings == map[]
    modifies w, w.spl, w.spl.inner, w.ms`mappings, w.ms`chunkRawSize
    ensures LeafKept(env, w.ms.mappings, LeafNode(w.codec, w.rawLeaves, File, chunk.0).cid, chunk.1)
    ensures var c := Above(w.codec, LeafNode(w.codec, w.rawLeaves, File, chunk.0).cid, |chunk.0|).cid;
      c in w.ms.mappings && Rebuilt(env, w.ms.mappings, w.ms.mappings[c]).Ok?
  {
    ghost var metas := w.metas;
    var leaf := w.NewLeafDataNode(File, true);
    var (node, size) := leaf.value;
    w.Add(node);
    var root := Above(w.codec, node.cid, size);
    w.Add(root);
    TwoLevelsKept(env, chunk.0, chunk.1, metas, w.metas, w.ms.mappings);
  }

  /** The index after a leaf and the node over it were added in this order. */
  function TwoLevels(metas: map<Cid, SliceMeta>, leaf: DagNode, root: DagNode): Mappings {
    Inserted(Inserted(map[], leaf.cid, AddedMapping(metas, leaf)), root.cid, AddedMapping(metas, root))
  }

  lemma TwoLevelsKept(env: Env, data: Bytes, tag: SliceMeta, metas: map<Cid, SliceMeta>, metas': map<Cid, SliceMeta>,
                      m: Mappings)
    requires CollisionFree(env.codec) && ParentsDiffer(env.codec) && LeavesAreNoParents(env.codec, env.rawLeaves)
    requires LeafTypesRecover(env.codec) && "" !in env.sources
    requires forall t, kids :: env.codec.typeOf(env.codec.parent(t, kids)) == t
    requires MetasRight(env.codec, env.rawLeaves, env.sources, metas)
    requires ReadSource(env.sources, tag.path, tag.offset, tag.size) == Ok(data)
    requires metas' == metas[LeafNode(env.codec, env.rawLeaves, File, data).cid := tag]
    requires var leaf := LeafNode(env.codec, env.rawLeaves, File, data);
      m == TwoLevels(metas', leaf, Above(env.codec, leaf.cid, |data|))
    ensures LeafKept(env, m, LeafNode(env.codec, env.rawLeaves, File, data).cid, tag)
    ensures var c := Above(env.codec, LeafNode(env.codec, env.rawLeaves, File, data).cid, |data|).cid;
      c in m && Rebuilt(env, m, m[c]).Ok?
  {
    var leaf := LeafNode(env.codec, env.rawLeaves, File, data);
    var kid := (Link(leaf.cid, "", |data|), |data|);
    var root := Above(env.codec, leaf.cid, |data|);
    TagFiled(env.codec, env.rawLeaves, env.sources, metas, data, File, tag);
    ParentsUntagged(env.codec, env.rawLeaves, env.sources, metas', File, [kid]);
    assert m[leaf.cid] == AddedMapping(metas', leaf) && m[root.cid] == NodeAction(root);
    LeafIsKept(env, leaf, tag, metas', m);
    ParentRebuildsExactly(env, m, m[root.cid], [kid]);
  }

  lemma LeafIsKept(env: Env, leaf: DagNode, tag: SliceMeta, metas: map<Cid, SliceMeta>, m: Mappings)
    requires CollisionFree(env.codec) && LeafTypesRecover(env.codec) && "" !in env.sources
    requires IsNode(env.codec, leaf) && MetasRight(env.codec, env.rawLeaves, env.sources, metas)
    requires leaf.cid in metas && metas[leaf.cid] == tag
    requires leaf.cid in m && m[leaf.cid] == AddedMapping(metas, leaf)
    ensures LeafKept(env, m, leaf.cid, tag)
  {
    assert MetaRight(env.codec, env.rawLeaves, env.sources, leaf.cid, tag);
    AddedIsNamed(env.codec, env.rawLeaves, env.sources, metas, leaf);
    RebuiltExactly(env, m, m[leaf.cid]);
  }
}
