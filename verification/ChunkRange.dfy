/**
 Answering a byte-range query on a CAR that is not kept: only the touched blocks are rebuilt, into a
 sparse file with holes, and the range is read from it.
 */
module ChunkRange {
  import opened Bytes
  import opened Collections
  import opened CarFormat
  import opened CarIndex
  import opened CarWriter
  import opened DagCodec
  import opened RangeSelection

  const MAX_INT64 := 0x7FFF_FFFF_FFFF_FFFF

  /** The source files under the source parent path, and how leaves are built. */
  datatype Env = Env(codec: Codec, rawLeaves: bool, sources: map<string, Bytes>)

  // ----- rebuilding a node

  function GenerateNodeFromSource(env: Env, m: Mappings, cm: ChunkMapping): Result<Bytes> {
    var data := ReadSource(env.sources, cm.srcPath, cm.srcOffset, cm.size);
    if data.Err? then data
    else
      var node := env.codec.leaf(data.value, cm.nodeType, env.rawLeaves);
      if env.codec.cidOf(node) !in m then Err("generate new node from source failed") else Ok(node)
  }

  /** The size a parent records for a child: file bytes under a file, block bytes otherwise. */
  function ChildSize(parentType: NodeType, child: ChunkMapping): nat {
    if parentType == File then child.size else child.blockSize
  }

  /** The links of a node with the sizes recorded for them; a link to an unknown block is an error. */
  function Children(m: Mappings, parentType: NodeType, links: seq<Link>): Result<seq<(Link, nat)>> {
    if |links| == 0 then Ok([])
    else
      var front, last := Children(m, parentType, links[..|links| - 1]), links[|links| - 1];
      if front.Err? then front
      else if last.cid !in m then Err("cant find meta")
      else Ok(front.value + [(last, ChildSize(parentType, m[last.cid]))])
  }

  method GenerateNodeWithoutData(env: Env, ms: MappingService, cm: ChunkMapping) returns (r: Result<Bytes>)
    ensures r.Ok? <==> Children(ms.mappings, cm.nodeType, cm.links).Ok?
    ensures r.Ok? ==> r.value == env.codec.parent(cm.nodeType, Children(ms.mappings, cm.nodeType, cm.links).value)
  {
    var children: seq<(Link, nat)> := [];
    for i := 0 to |cm.links|
      invariant Children(ms.mappings, cm.nodeType, cm.links[..i]) == Ok(children)
    {
      assert cm.links[..i + 1][..i] == cm.links[..i];
      if cm.links[i].cid !in ms.mappings {
        UnknownChild(ms.mappings, cm.nodeType, cm.links, i + 1);
        return Err("cant find meta");
      }
      children := children + [(cm.links[i], ChildSize(cm.nodeType, ms.mappings[cm.links[i].cid]))];
    }
    assert cm.links[..|cm.links|] == cm.links;
    return Ok(env.codec.parent(cm.nodeType, children));
  }

  lemma {:induction false} UnknownChild(m: Mappings, parentType: NodeType, links: seq<Link>, i: nat)
    requires i <= |links| && Children(m, parentType, links[..i]).Err?
    ensures Children(m, parentType, links).Err?
    decreases |links|
  {
    if i == |links| {
      assert links[..i] == links;
    } else {
      assert links[..|links| - 1][..i] == links[..i];
      UnknownChild(m, parentType, links[..|links| - 1], i);
    }
  }

  /** The bytes of a mapping's node, from its source or from its links, accepted only under its own CID. */
  function Rebuilt(env: Env, m: Mappings, cm: ChunkMapping): Result<Bytes> {
    var children := Children(m, cm.nodeType, cm.links);
    var node :=
      if cm.srcPath != "" then GenerateNodeFromSource(env, m, cm)
      else if children.Err? then Err("cant find meta")
      else Ok(env.codec.parent(cm.nodeType, children.value));
    if node.Ok? && env.codec.cidOf(node.value) != cm.cid then Err("the generated CID is not consistent") else node
  }

  method Rebuild(env: Env, ms: MappingService, cm: ChunkMapping) returns (r: Result<Bytes>)
    ensures r.Ok? <==> Rebuilt(env, ms.mappings, cm).Ok?
    ensures r.Ok? ==> r == Rebuilt(env, ms.mappings, cm)
  {
    if cm.srcPath != "" {
      r := GenerateNodeFromSource(env, ms.mappings, cm);
    } else {
      r := GenerateNodeWithoutData(env, ms, cm);
    }
    if r.Ok? && env.codec.cidOf(r.value) != cm.cid {
      r := Err("the generated CID is not consistent");
    }
  }

  // ----- the sparse file

  /** A file's bytes after data is written at a position; a gap before it reads as zeros. */
  function Patch(content: Bytes, at: nat, data: Bytes): Bytes {
    if |data| == 0 then content
    else if at > |content| then content + Zeros(at - |content|) + data
    else if at + |data| <= |content| then content[..at] + data + content[at + |data|..]
    else content[..at] + data
  }

  /** Byte k of the file after the write: what was written there, what was there before, or zero. */
  lemma PatchAt(content: Bytes, at: nat, data: Bytes, k: nat)
    requires k < |Patch(content, at, data)|
    ensures Patch(content, at, data)[k] ==
            if at <= k < at + |data| then data[k - at] else if k < |content| then content[k] else 0
  {
  }

  /** Nothing is cut off, and the file ends no further than what was written or was there before. */
  lemma PatchLength(content: Bytes, at: nat, data: Bytes)
    ensures |Patch(content, at, data)| ==
            if |data| == 0 || at + |data| <= |content| then |content| else at + |data|
  {
  }

  class SparseFile {
    var content: Bytes
    var pos: nat

    constructor ()
      ensures content == [] && pos == 0
    {
      content, pos := [], 0;
    }

    method Seek(at: nat)
      modifies this`pos
      ensures pos == at
    {
      pos := at;
    }

    method Write(data: Bytes)
      modifies this
      ensures content == Patch(old(content), old(pos), data) && pos == old(pos) + |data|
    {
      content := Patch(content, pos, data);
      pos := pos + |data|;
    }
  }

  /** The file the listed mappings build; an offset that is no file position is an error. */
  function FileOf(env: Env, m: Mappings, root: Cid, list: seq<ChunkMapping>): Result<Bytes> {
    if |list| == 0 then Ok(env.codec.header(root))
    else
      var front, last := FileOf(env, m, root, list[..|list| - 1]), list[|list| - 1];
      var node := Rebuilt(env, m, last);
      if front.Err? then front
      else if node.Err? then node
      else if last.dstOffset > MAX_INT64 then Err("negative position")
      else Ok(Patch(front.value, last.dstOffset, Frame(Block(last.cid, node.value))))
  }

  method GenerateChunksFromMappings(env: Env, ms: MappingService, list: seq<ChunkMapping>) returns (r: Result<Bytes>)
    ensures r.Ok? <==> FileOf(env, ms.mappings, ms.dataRoot, list).Ok?
    ensures r.Ok? ==> r == FileOf(env, ms.mappings, ms.dataRoot, list)
  {
    var file := new SparseFile();
    file.Write(env.codec.header(ms.dataRoot));
    assert file.content == env.codec.header(ms.dataRoot);
    for i := 0 to |list|
      invariant FileOf(env, ms.mappings, ms.dataRoot, list[..i]) == Ok(file.content)
    {
      assert list[..i + 1][..i] == list[..i];
      var node := Rebuild(env, ms, list[i]);
      if node.Err? || list[i].dstOffset > MAX_INT64 {
        FileFails(env, ms.mappings, ms.dataRoot, list, i + 1);
        return Err("cannot place the node");
      }
      file.Seek(list[i].dstOffset);
      file.Write(Frame(Block(list[i].cid, node.value)));
    }
    assert list[..|list|] == list;
    return Ok(file.content);
  }

  lemma {:induction false} FileFails(env: Env, m: Mappings, root: Cid, list: seq<ChunkMapping>, i: nat)
    requires i <= |list| && FileOf(env, m, root, list[..i]).Err?
    ensures FileOf(env, m, root, list).Err?
    decreases |list|
  {
    if i == |list| {
      assert list[..i] == list;
    } else {
      assert list[..|list| - 1][..i] == list[..i];
      FileFails(env, m, root, list[..|list| - 1], i);
    }
  }

  // ----- the query

  /** The signed 64-bit number with the same bits: positions and sizes of files are signed. */
  function Int64(n: U64): int {
    if n <= MAX_INT64 then n else n - TWO_64
  }

  /** An index as the service has it loaded. */
  datatype LoadedIndex = LoadedIndex(mappings: Mappings, dataRoot: Cid)

  function IndexIn(meta: Mapping): LoadedIndex {
    LoadedIndex(Keyed(meta.mappings), meta.dataRoot)
  }

  /** What there is under the name of an index file. */
  datatype MetaFile = NotThere | Unreadable | Readable(meta: Mapping)

  /** Mappings stand under their own CIDs, and their offsets are 64-bit words. */
  ghost predicate IndexFits(m: Mappings) {
    forall c :: c in m ==> m[c].cid == c && m[c].dstOffset < TWO_64
  }

  /** Offsets in an index file are 64-bit words. */
  ghost predicate FileFits(file: MetaFile) {
    file.Readable? ==> forall v :: v in file.meta.mappings ==> v.dstOffset < TWO_64
  }

  /** The index a query goes by: the one in the file, or, if that cannot be read, the one loaded before. */
  function IndexFor(file: MetaFile, before: LoadedIndex): LoadedIndex {
    if file.Readable? then IndexIn(file.meta) else before
  }

  /** The error of a load that fails is ignored: the query then goes by the index that was loaded before. */
  method GetChallengeChunk(env: Env, ms: MappingService, metaFile: MetaFile, offset: U64, size: U64)
    returns (r: Result<Bytes>)
    requires FileFits(metaFile) && IndexFits(ms.mappings)
    modifies ms`mappings, ms`dataRoot
    ensures IndexFits(ms.mappings)
    ensures LoadedIndex(ms.mappings, ms.dataRoot) == IndexFor(metaFile, LoadedIndex(old(ms.mappings), old(ms.dataRoot)))
    ensures metaFile.Readable? ==> ms.mappings == Keyed(metaFile.meta.mappings) && ms.dataRoot == metaFile.meta.dataRoot
    ensures !metaFile.Readable? ==> ms.mappings == old(ms.mappings) && ms.dataRoot == old(ms.dataRoot)
    ensures metaFile == NotThere ==> r.Err?
    ensures metaFile != NotThere ==>
      exists list :: FromSelection(env, LoadedIndex(ms.mappings, ms.dataRoot), list, offset, size, r)
  {
    if metaFile == NotThere {
      return Err("cant find meta file");
    }
    if metaFile.Readable? {
      ms.LoadMetaMappings(metaFile.meta);
      KeyedBounded(metaFile.meta.mappings);
    }
    r := QueryLoaded(env, ms, offset, size);
  }

  /** Answers a query from the index that is loaded. */
  method QueryLoaded(env: Env, ms: MappingService, offset: U64, size: U64) returns (r: Result<Bytes>)
    requires IndexFits(ms.mappings)
    ensures exists list :: FromSelection(env, LoadedIndex(ms.mappings, ms.dataRoot), list, offset, size, r)
  {
    ghost var index := LoadedIndex(ms.mappings, ms.dataRoot);
    var list, ok := ms.GetChunkMappings(offset, size);
    assert Selects(index, offset, size, list);
    if !ok {
      r := Err("The chunk are damaged and are not continuous.");
      assert FromSelection(env, index, list, offset, size, r);
      return;
    }
    var file := GenerateChunksFromMappings(env, ms, list);
    if file.Err? {
      assert FromSelection(env, index, list, offset, size, file);
      return file;
    }
    r := ReadRange(file.value, offset, size);
    assert FromSelection(env, index, list, offset, size, r);
  }

  /**
   Reads a range of a file, cut off at the file's end. There is no buffer for a negative size or one past
   the largest position, and no reading from a negative position.
   */
  method ReadRange(content: Bytes, offset: U64, size: U64) returns (r: Result<Bytes>)
    ensures r.Ok? <==> offset <= |content| && InFile(offset, size)
    ensures r.Ok? ==> r.value == content[offset..Min(offset + size, |content|)]
  {
    var fileSize := |content| - Int64(offset);
    var length: int := size;
    if fileSize < Int64(size) {
      length := fileSize;
    }
    if length < 0 || length > MAX_INT64 {
      return Err("makeslice: len out of range");
    }
    if Int64(offset) < 0 {
      return Err("negative offset");
    }
    return Ok(content[offset..offset + length]);
  }

  /** Offset and size of a query are file positions. */
  predicate InFile(offset: U64, size: U64) {
    offset <= MAX_INT64 && size <= MAX_INT64
  }

  lemma {:induction false} KeyedBounded(ms: seq<ChunkMapping>)
    requires forall v :: v in ms ==> v.dstOffset < TWO_64
    ensures IndexFits(Keyed(ms))
  {
    if |ms| > 0 {
      KeyedBounded(ms[..|ms| - 1]);
    }
  }

  /** What the service may have selected for a query: any sorted list of the touched mappings. */
  ghost predicate Selects(index: LoadedIndex, offset: U64, size: U64, list: seq<ChunkMapping>) {
    && Sorted(list, BY_DST) && Distinct(list)
    && Elements(list) == Passing(index.mappings, TouchTest(offset, Word(offset + size)))
  }

  /** The answer that follows from a selection. */
  ghost function Answer(env: Env, index: LoadedIndex, list: seq<ChunkMapping>, offset: U64, size: U64): Result<Bytes> {
    var file := FileOf(env, index.mappings, index.dataRoot, list);
    if !Continuous(list) then Err("not continuous")
    else if file.Err? then file
    else if |file.value| < offset || !InFile(offset, size) then Err("out of range")
    else Ok(file.value[offset..Min(offset + size, |file.value|)])
  }

  /** The reply to a query is the answer that follows from a selection, but for the words of an error. */
  ghost predicate FromSelection(env: Env, index: LoadedIndex, list: seq<ChunkMapping>, offset: U64, size: U64,
                                r: Result<Bytes>)
  {
    && Selects(index, offset, size, list)
    && var a := Answer(env, index, list, offset, size); if a.Ok? then r == a else r.Err?
  }

  /** A selection with a gap or an overlap between two neighbours gets no answer. */
  lemma GapStopsAnswer(env: Env, index: LoadedIndex, list: seq<ChunkMapping>, offset: U64, size: U64, i: nat)
    requires 0 < i < |list| && list[i].dstOffset != Word(list[i - 1].dstOffset + list[i - 1].chunkSize)
    ensures Answer(env, index, list, offset, size).Err?
  {
    ContinuousExactly(list);
  }

  // ----- the answer is a slice of the CAR

  /** However its node is rebuilt, if it is accepted then its frame is what the CAR has in its place. */
  ghost predicate Faithful(env: Env, m: Mappings, car: Bytes, cm: ChunkMapping) {
    Rebuilt(env, m, cm).Ok? ==>
      var frame := Frame(Block(cm.cid, Rebuilt(env, m, cm).value));
      && |frame| == cm.chunkSize && EndOf(cm) <= |car|
      && car[cm.dstOffset..EndOf(cm)] == frame
  }

  /** A file that agrees with the CAR in its first bytes and between two offsets, with a hole between. */
  ghost predicate Holds(content: Bytes, car: Bytes, headerLen: nat, from: nat, to: nat) {
    && headerLen <= from <= to <= |car| && headerLen <= |car|
    && |content| == (if from == to then headerLen else to)
    && content[..headerLen] == car[..headerLen]
    && (from < to ==> content[from..to] == car[from..to])
  }

  /** Writing the next piece of the CAR extends what the file agrees with. */
  lemma PatchHolds(content: Bytes, car: Bytes, headerLen: nat, from: nat, to: nat, f: Bytes)
    requires Holds(content, car, headerLen, from, to)
    requires |f| > 0 && to + |f| <= |car| && car[to..to + |f|] == f
    ensures Holds(Patch(content, to, f), car, headerLen, from, to + |f|)
  {
    var n := to + |f|;
    var after := Patch(content, to, f);
    var base := if to > |content| then content + Zeros(to - |content|) else content;
    assert |base| == to && base[..headerLen] == content[..headerLen];
    assert after == base + f by {
      assert content[..|content|] == content;
    }
    assert after[..headerLen] == base[..headerLen];
    JoinSlices(after, base, f, from, to);
    JoinSlices(car[..n], car[..to], f, from, to);
    assert car[..n][from..n] == car[from..n] && car[..to][from..to] == car[from..to];
    assert from < to ==> base == content;
  }

  lemma JoinSlices(s: Bytes, base: Bytes, f: Bytes, from: nat, to: nat)
    requires s == base + f && |base| == to && from <= to
    ensures s[from..to + |f|] == base[from..to] + f
  {
  }

  /** The file built from a run of mappings agrees with the CAR in the header and all along the run. */
  lemma {:induction false} FileHolds(env: Env, m: Mappings, root: Cid, list: seq<ChunkMapping>, car: Bytes, from: nat,
                                     content: Bytes)
    requires Tiling(list) && forall cm :: cm in list ==> Faithful(env, m, car, cm)
    requires env.codec.header(root) <= car && |env.codec.header(root)| <= from <= |car|
    requires |list| > 0 ==> list[0].dstOffset == from
    requires FileOf(env, m, root, list) == Ok(content)
    ensures Holds(content, car, |env.codec.header(root)|, from,
                  if |list| > 0 then EndOf(list[|list| - 1]) else from)
  {
    if |list| > 0 {
      var n := |list| - 1;
      var front, last := list[..n], list[n];
      TilingSlice(list, 0, n);
      assert front == list[0..n];
      var before := FileOf(env, m, root, front).value;
      FileHolds(env, m, root, front, car, from, before);
      assert n > 0 ==> Joined(list, n);
      assert Faithful(env, m, car, last);
      PatchHolds(before, car, |env.codec.header(root)|, from, last.dstOffset,
                 Frame(Block(last.cid, Rebuilt(env, m, last).value)));
    }
  }

  /** Reading a range that the agreeing parts of the file cover. */
  lemma SliceOfHolding(content: Bytes, car: Bytes, headerLen: nat, from: nat, to: nat, a: nat, b: nat)
    requires Holds(content, car, headerLen, from, to)
    requires a <= b <= |content| && (from == headerLen || from <= a || b <= headerLen)
    ensures b <= |car| && content[a..b] == car[a..b]
  {
    forall k | a <= k < b
      ensures content[k] == car[k]
    {
      if k < headerLen {
        assert content[..headerLen][k] == car[..headerLen][k];
      } else {
        assert content[from..to][k - from] == car[from..to][k - from];
      }
    }
  }

  /** A tiling from one offset to another. */
  ghost predicate Spans(all: seq<ChunkMapping>, from: nat, to: nat) {
    && Tiling(all)
    && if |all| == 0 then from == to else all[0].dstOffset == from && EndOf(all[|all| - 1]) == to
  }

  /** Mappings in CAR order that tile the CAR from the header's end to its last byte. */
  ghost predicate Charts(env: Env, m: Mappings, root: Cid, all: seq<ChunkMapping>, car: Bytes) {
    && Elements(all) == m.Values
    && env.codec.header(root) <= car
    && Spans(all, |env.codec.header(root)|, |car|)
    && forall cm :: cm in all ==> Faithful(env, m, car, cm)
  }

  /** Reading a range of the file gives what reading it of the CAR gives, each cut off at its own end. */
  ghost predicate ReadsAlike(content: Bytes, car: Bytes, start: nat, end: nat)
    requires start <= end && start <= |car|
  {
    start <= |content| && content[start..Min(end, |content|)] == car[start..Min(end, |car|)]
  }

  /** The file built for a query agrees with the CAR where the query reads it. */
  lemma QueryFile(env: Env, m: Mappings, root: Cid, all: seq<ChunkMapping>, car: Bytes,
                  start: nat, end: nat, content: Bytes)
    requires Charts(env, m, root, all, car) && start <= end && start < |car|
    requires FileOf(env, m, root, Run(all, start, end)) == Ok(content)
    ensures ReadsAlike(content, car, start, end)
  {
    LowBelowHigh(all, start, end);
    RunFile(env, m, root, all, car, |env.codec.header(root)|, Low(all, start, 0), High(all, end, 0), content);
    CoveredRun(content, car, |env.codec.header(root)|, all, start, end);
  }

  lemma CoveredRun(content: Bytes, car: Bytes, headerLen: nat, all: seq<ChunkMapping>, start: nat, end: nat)
    requires Spans(all, headerLen, |car|) && start <= end && start < |car|
    requires Low(all, start, 0) <= High(all, end, 0)
    requires Holds(content, car, headerLen, RunFrom(headerLen, all, Low(all, start, 0), High(all, end, 0)),
                   RunTo(headerLen, all, Low(all, start, 0), High(all, end, 0)))
    ensures ReadsAlike(content, car, start, end)
  {
    var lo, hi := Low(all, start, 0), High(all, end, 0);
    RunReaches(all, headerLen, |car|, start, end);
    CoveredSlice(content, car, headerLen, RunFrom(headerLen, all, lo, hi), RunTo(headerLen, all, lo, hi), start, end);
  }

  /** Where the blocks of a run start in the file; an empty run adds nothing behind the header. */
  function RunFrom(headerLen: nat, all: seq<ChunkMapping>, lo: nat, hi: nat): nat
    requires lo <= hi <= |all|
  {
    if lo < hi then all[lo].dstOffset else headerLen
  }

  function RunTo(headerLen: nat, all: seq<ChunkMapping>, lo: nat, hi: nat): nat
    requires lo <= hi <= |all|
  {
    if lo < hi then EndOf(all[hi - 1]) else headerLen
  }

  /** The run for a query reaches from before the query, or from the header, to behind it, or to the end. */
  lemma RunReaches(all: seq<ChunkMapping>, headerLen: nat, carLen: nat, start: nat, end: nat)
    requires Spans(all, headerLen, carLen) && start <= end && start < carLen
    ensures var lo, hi := Low(all, start, 0), High(all, end, 0);
      && lo <= hi
      && var from, to := RunFrom(headerLen, all, lo, hi), RunTo(headerLen, all, lo, hi);
      && (from == headerLen || from < start)
      && (end < to || to == carLen || (from == to == headerLen && end < headerLen))
  {
    var lo, hi := Low(all, start, 0), High(all, end, 0);
    RunCovers(all, start, end);
    RunEnds(all, lo, hi);
  }

  lemma RunFile(env: Env, m: Mappings, root: Cid, all: seq<ChunkMapping>, car: Bytes, headerLen: nat,
                lo: nat, hi: nat, content: Bytes)
    requires Charts(env, m, root, all, car) && headerLen == |env.codec.header(root)| && lo <= hi <= |all|
    requires FileOf(env, m, root, all[lo..hi]) == Ok(content)
    ensures Holds(content, car, headerLen, RunFrom(headerLen, all, lo, hi), RunTo(headerLen, all, lo, hi))
  {
    RunPlace(all, headerLen, |car|, lo, hi);
    SliceElements(all, lo, hi);
    FileHolds(env, m, root, all[lo..hi], car, RunFrom(headerLen, all, lo, hi), content);
  }

  lemma RunPlace(all: seq<ChunkMapping>, headerLen: nat, carLen: nat, lo: nat, hi: nat)
    requires Spans(all, headerLen, carLen) && headerLen <= carLen && lo <= hi <= |all|
    ensures Tiling(all[lo..hi]) && headerLen <= RunFrom(headerLen, all, lo, hi) <= carLen
    ensures lo < hi ==> all[lo..hi][0].dstOffset == RunFrom(headerLen, all, lo, hi)
    ensures (if lo < hi then EndOf(all[lo..hi][hi - lo - 1]) else RunFrom(headerLen, all, lo, hi)) ==
            RunTo(headerLen, all, lo, hi)
  {
    TilingSlice(all, lo, hi);
    RunEnds(all, lo, hi);
  }

  lemma SliceElements(all: seq<ChunkMapping>, lo: nat, hi: nat)
    requires lo <= hi <= |all|
    ensures forall cm :: cm in all[lo..hi] ==> cm in all
  {
  }

  /** A file that covers the query up to the end of the query or of the CAR answers it. */
  lemma CoveredSlice(content: Bytes, car: Bytes, headerLen: nat, from: nat, to: nat, start: nat, end: nat)
    requires Holds(content, car, headerLen, from, to) && start <= end && start < |car|
    requires from == headerLen || from < start
    requires end < to || to == |car| || (from == to == headerLen && end < headerLen)
    ensures ReadsAlike(content, car, start, end)
  {
    SliceOfHolding(content, car, headerLen, from, to, start, Min(end, |content|));
  }

  lemma RunEnds(all: seq<ChunkMapping>, lo: nat, hi: nat)
    requires Tiling(all) && lo <= hi <= |all|
    ensures lo < hi < |all| ==> EndOf(all[hi - 1]) == all[hi].dstOffset
    ensures lo < hi ==>
      all[0].dstOffset <= all[lo].dstOffset <= EndOf(all[hi - 1]) <= EndOf(all[|all| - 1])
  {
    if lo < hi {
      if lo > 0 {
        TilingOrder(all, 0, lo);
      }
      if lo < hi - 1 {
        TilingOrder(all, lo, hi - 1);
      }
      if hi < |all| {
        assert Joined(all, hi);
        TilingOrder(all, hi - 1, |all| - 1);
      }
    }
  }

  lemma RunInAll(all: seq<ChunkMapping>, start: nat, end: nat)
    ensures forall cm :: cm in Run(all, start, end) ==> cm in all
  {
  }

  /** What was selected is the run for the query. */
  lemma ChartedSelection(env: Env, index: LoadedIndex, all: seq<ChunkMapping>, car: Bytes, list: seq<ChunkMapping>,
                         offset: U64, size: U64, end: nat)
    requires Charts(env, index.mappings, index.dataRoot, all, car)
    requires end == offset + size && Selects(index, offset, size, list) && InFile(offset, size)
    ensures list == Run(all, offset, end) && Continuous(list)
  {
    WordFits(end);
    SelectionIsRun(index.mappings, all, offset, end, list);
  }

  /** A selection whose file comes out gets the queried range for an answer. */
  lemma AnswerFromFile(env: Env, index: LoadedIndex, all: seq<ChunkMapping>, car: Bytes, list: seq<ChunkMapping>,
                       offset: U64, size: U64, end: nat, content: Bytes)
    requires Charts(env, index.mappings, index.dataRoot, all, car)
    requires offset < |car| && end == offset + size && Selects(index, offset, size, list) && InFile(offset, size)
    requires FileOf(env, index.mappings, index.dataRoot, list) == Ok(content)
    ensures Answer(env, index, list, offset, size) == Ok(car[offset..Min(end, |car|)])
  {
    ChartedSelection(env, index, all, car, list, offset, size, end);
    QueryFile(env, index.mappings, index.dataRoot, all, car, offset, end, content);
    AnswerOf(env, index, list, offset, size, end, content);
  }

  lemma AnswerOf(env: Env, index: LoadedIndex, list: seq<ChunkMapping>, offset: U64, size: U64, end: nat,
                 content: Bytes)
    requires Continuous(list) && FileOf(env, index.mappings, index.dataRoot, list) == Ok(content)
    requires offset <= |content| && end == offset + size && InFile(offset, size)
    ensures Answer(env, index, list, offset, size) == Ok(content[offset..Min(end, |content|)])
  {
  }

  /**
   Whatever the sources hold by now and whatever was selected in which order: an answer that comes
   out is the queried range of the CAR, cut off at its end.
   */
  lemma AnswerIsSlice(env: Env, index: LoadedIndex, all: seq<ChunkMapping>, car: Bytes, list: seq<ChunkMapping>,
                      offset: U64, size: U64, end: nat)
    requires Charts(env, index.mappings, index.dataRoot, all, car)
    requires offset < |car| && end == offset + size && Selects(index, offset, size, list)
    requires Answer(env, index, list, offset, size).Ok?
    ensures Answer(env, index, list, offset, size).value == car[offset..Min(end, |car|)]
  {
    var content := FileOf(env, index.mappings, index.dataRoot, list).value;
    AnswerFromFile(env, index, all, car, list, offset, size, end, content);
  }

  /** Every listed node can be rebuilt from what is there now. */
  ghost predicate Rebuildable(env: Env, m: Mappings, list: seq<ChunkMapping>) {
    forall cm :: cm in list ==> Rebuilt(env, m, cm).Ok?
  }

  /** A range gets an answer exactly when the nodes it touches can be rebuilt, whatever the others do. */
  lemma AnswerExactly(env: Env, index: LoadedIndex, all: seq<ChunkMapping>, car: Bytes, list: seq<ChunkMapping>,
                      offset: U64, size: U64, end: nat)
    requires Charts(env, index.mappings, index.dataRoot, all, car)
    requires offset < |car| <= MAX_INT64 && end == offset + size && Selects(index, offset, size, list)
    ensures Answer(env, index, list, offset, size).Ok? <==>
            size <= MAX_INT64 && Rebuildable(env, index.mappings, Run(all, offset, end))
  {
    if size <= MAX_INT64 {
      ChartedSelection(env, index, all, car, list, offset, size, end);
      RunFileExactly(env, index.mappings, index.dataRoot, all, car, offset, end);
      var file := FileOf(env, index.mappings, index.dataRoot, list);
      if file.Ok? {
        AnswerFromFile(env, index, all, car, list, offset, size, end, file.value);
      }
    }
  }

  /** Whether the nodes that a range touches can be rebuilt. */
  ghost predicate RangeRebuilds(env: Env, m: Mappings, all: seq<ChunkMapping>, start: nat, end: nat, rebuilds: bool) {
    rebuilds == Rebuildable(env, m, Run(all, start, end))
  }

  /** Both for the reply itself, whatever was selected in which order. */
  lemma ReplyExactly(env: Env, index: LoadedIndex, all: seq<ChunkMapping>, car: Bytes, list: seq<ChunkMapping>,
                     offset: U64, size: U64, end: nat, r: Result<Bytes>, rebuilds: bool)
    requires end == offset + size
    requires Charts(env, index.mappings, index.dataRoot, all, car)
    requires offset < |car| <= MAX_INT64 && FromSelection(env, index, list, offset, size, r)
    requires RangeRebuilds(env, index.mappings, all, offset, end, rebuilds)
    ensures r.Ok? ==> r.value == car[offset..Min(end, |car|)]
    ensures r.Ok? == (size <= MAX_INT64 && rebuilds)
  {
    if r.Ok? {
      AnswerIsSlice(env, index, all, car, list, offset, size, end);
    }
    AnswerExactly(env, index, all, car, list, offset, size, end);
  }

  lemma RunFileExactly(env: Env, m: Mappings, root: Cid, all: seq<ChunkMapping>, car: Bytes, start: nat, end: nat)
    requires |car| <= MAX_INT64 && Charts(env, m, root, all, car)
    ensures FileOf(env, m, root, Run(all, start, end)).Ok? <==> Rebuildable(env, m, Run(all, start, end))
  {
    RunPlaces(env, m, root, all, car, start, end);
    FileExactly(env, m, root, Run(all, start, end));
  }

  lemma RunPlaces(env: Env, m: Mappings, root: Cid, all: seq<ChunkMapping>, car: Bytes, start: nat, end: nat)
    requires |car| <= MAX_INT64 && Charts(env, m, root, all, car)
    ensures forall cm :: cm in Run(all, start, end) && Rebuilt(env, m, cm).Ok? ==> cm.dstOffset <= MAX_INT64
  {
    RunInAll(all, start, end);
    forall cm | cm in Run(all, start, end) && Rebuilt(env, m, cm).Ok?
      ensures cm.dstOffset <= MAX_INT64
    {
      assert cm in all && Faithful(env, m, car, cm);
    }
  }

  /** A file comes out exactly when each of its nodes can be rebuilt and its place is a file position. */
  lemma {:induction false} FileExactly(env: Env, m: Mappings, root: Cid, list: seq<ChunkMapping>)
    ensures FileOf(env, m, root, list).Ok? <==>
            Rebuildable(env, m, list) && forall cm :: cm in list ==> cm.dstOffset <= 0x7FFF_FFFF_FFFF_FFFF
  {
    if |list| > 0 {
      var front, last := list[..|list| - 1], list[|list| - 1];
      FileExactly(env, m, root, front);
      assert last in list && list == front + [last];
    }
  }

  // ----- an index that describes a CAR charts it

  /** The mappings of the CAR's blocks, in CAR order. */
  function InOrder(m: Mappings, blocks: seq<Block>): (all: seq<ChunkMapping>)
    requires forall i :: 0 <= i < |blocks| ==> blocks[i].cid in m
    ensures |all| == |blocks|
  {
    seq(|blocks|, i requires 0 <= i < |blocks| => m[blocks[i].cid])
  }

  /** Mapping i says which block is block i and where its frame is. */
  ghost predicate Places(cm: ChunkMapping, header: Bytes, blocks: seq<Block>, i: nat)
    requires i < |blocks|
  {
    cm.cid == blocks[i].cid && cm.dstOffset == Off(header, blocks, i) && cm.chunkSize == |Frame(blocks[i])|
  }

  lemma DescribedInOrder(m: Mappings, header: Bytes, blocks: seq<Block>)
    requires Describes(m, header, blocks)
    ensures forall i :: 0 <= i < |blocks| ==> Places(InOrder(m, blocks)[i], header, blocks, i)
    ensures forall c :: c in m ==> m[c] in InOrder(m, blocks)
  {
    var all := InOrder(m, blocks);
    forall i | 0 <= i < |blocks|
      ensures Places(all[i], header, blocks, i)
    {
      DescribedPlace(m, header, blocks, i);
    }
    forall c | c in m
      ensures m[c] in all
    {
      DescribedIsListed(m, header, blocks, c);
    }
  }

  lemma DescribedPlace(m: Mappings, header: Bytes, blocks: seq<Block>, i: nat)
    requires Describes(m, header, blocks) && i < |blocks|
    ensures blocks[i].cid in m && Places(m[blocks[i].cid], header, blocks, i)
  {
  }

  lemma DescribedIsListed(m: Mappings, header: Bytes, blocks: seq<Block>, c: Cid)
    requires Describes(m, header, blocks) && c in m
    ensures m[c] in InOrder(m, blocks)
  {
    var i :| 0 <= i < |blocks| && blocks[i].cid == c;
    assert InOrder(m, blocks)[i] == m[c];
  }

  lemma InOrderElements(m: Mappings, blocks: seq<Block>)
    requires forall i :: 0 <= i < |blocks| ==> blocks[i].cid in m
    requires forall c :: c in m ==> m[c] in InOrder(m, blocks)
    ensures Elements(InOrder(m, blocks)) == m.Values
  {
  }

  lemma PlacedTiling(all: seq<ChunkMapping>, header: Bytes, blocks: seq<Block>)
    requires |all| == |blocks| && forall i :: 0 <= i < |all| ==> Places(all[i], header, blocks, i)
    requires |CarBytes(header, blocks)| < TWO_64
    ensures Tiling(all)
    ensures if |all| == 0 then |CarBytes(header, blocks)| == |header|
            else all[0].dstOffset == |header| && EndOf(all[|all| - 1]) == |CarBytes(header, blocks)|
  {
    EndOfCar(header, blocks);
    forall i | 0 <= i < |all|
      ensures EndOf(all[i]) == Off(header, blocks, i + 1) < TWO_64
    {
      assert Places(all[i], header, blocks, i);
      FrameInCar(header, blocks, i);
    }
    forall i | 0 < i < |all|
      ensures Joined(all, i)
    {
      assert Places(all[i], header, blocks, i) && Places(all[i - 1], header, blocks, i - 1);
    }
    assert |all| > 0 ==> Places(all[0], header, blocks, 0);
  }

  /** Every block's CID is that of its bytes. */
  ghost predicate WellAddressed(codec: Codec, blocks: seq<Block>) {
    forall i :: 0 <= i < |blocks| ==> blocks[i].cid == codec.cidOf(blocks[i].data)
  }

  /** However it was rebuilt, a node that is accepted under a block's CID is that block. */
  lemma PlacedFaithful(env: Env, m: Mappings, header: Bytes, blocks: seq<Block>, cm: ChunkMapping, i: nat)
    requires WellAddressed(env.codec, blocks) && CollisionFree(env.codec)
    requires i < |blocks| && Places(cm, header, blocks, i)
    ensures Faithful(env, m, CarBytes(header, blocks), cm)
  {
    FrameInCar(header, blocks, i);
    if Rebuilt(env, m, cm).Ok? {
      assert env.codec.cidOf(Rebuilt(env, m, cm).value) == env.codec.cidOf(blocks[i].data);
      assert Block(cm.cid, Rebuilt(env, m, cm).value) == blocks[i];
    }
  }

  /** An index that describes a CAR of well-addressed blocks charts it. */
  lemma DescribedCharts(env: Env, m: Mappings, root: Cid, blocks: seq<Block>)
    requires Describes(m, env.codec.header(root), blocks)
    requires WellAddressed(env.codec, blocks) && CollisionFree(env.codec)
    requires |CarBytes(env.codec.header(root), blocks)| < TWO_64
    ensures Charts(env, m, root, InOrder(m, blocks), CarBytes(env.codec.header(root), blocks))
  {
    var header := env.codec.header(root);
    var all, car := InOrder(m, blocks), CarBytes(header, blocks);
    DescribedInOrder(m, header, blocks);
    PlacedCharts(env, m, root, blocks, all, car);
  }

  lemma PlacedCharts(env: Env, m: Mappings, root: Cid, blocks: seq<Block>, all: seq<ChunkMapping>, car: Bytes)
    requires WellAddressed(env.codec, blocks) && CollisionFree(env.codec)
    requires car == CarBytes(env.codec.header(root), blocks) && |car| < TWO_64
    requires forall i :: 0 <= i < |blocks| ==> blocks[i].cid in m
    requires all == InOrder(m, blocks) && forall c :: c in m ==> m[c] in all
    requires forall i :: 0 <= i < |blocks| ==> Places(all[i], env.codec.header(root), blocks, i)
    ensures Charts(env, m, root, all, car)
  {
    InOrderElements(m, blocks);
    PlacedTiling(all, env.codec.header(root), blocks);
    forall cm | cm in all
      ensures Faithful(env, m, car, cm)
    {
      var i :| 0 <= i < |all| && all[i] == cm;
      PlacedFaithful(env, m, env.codec.header(root), blocks, cm, i);
    }
  }
}
