/** The node encodings the service takes from libraries, as parameters of the model. */
module DagCodec {
  import opened Bytes
  import opened CarFormat
  import opened CarIndex

  /**
   A node's CID, type and block size are functions of its bytes. leaf(data, type, raw) builds a leaf around file
   bytes, parent(type, children) a node around links, and header(root) is the header of a CAR.
   */
  datatype Codec = Codec(
    cidOf: Bytes -> Cid,
    typeOf: Bytes -> NodeType,
    blockSizeOf: Bytes -> nat,
    leaf: (Bytes, NodeType, bool) -> Bytes,
    parent: (NodeType, seq<(Link, nat)>) -> Bytes,
    header: Cid -> Bytes)

  ghost predicate CollisionFree(codec: Codec) {
    forall x, y :: codec.cidOf(x) == codec.cidOf(y) ==> x == y
  }

  /** Building a leaf again with the type read off it gives the same leaf. */
  ghost predicate LeafTypesRecover(codec: Codec) {
    forall data, t, raw :: codec.leaf(data, codec.typeOf(codec.leaf(data, t, raw)), raw) == codec.leaf(data, t, raw)
  }

  /** A node as the callbacks see it: CID and type belong to its bytes. */
  ghost predicate IsNode(codec: Codec, node: DagNode) {
    node.cid == codec.cidOf(node.rawData) && node.nodeType == codec.typeOf(node.rawData)
  }

  type Sources = map<string, Bytes>

  /** Reading a source range; a range past the end of the file is an error. */
  function ReadSource(sources: Sources, path: string, offset: nat, size: nat): Result<Bytes> {
    if path !in sources then Err("open")
    else if size == 0 then Ok([])
    else if offset + size > |sources[path]| then Err("EOF")
    else Ok(sources[path][offset..offset + size])
  }

  /** The named source range holds file bytes whose leaf, of the given type, has the CID. */
  ghost predicate NamesPayload(codec: Codec, raw: bool, sources: Sources, c: Cid,
                               path: string, offset: nat, size: nat, t: NodeType)
  {
    var data := ReadSource(sources, path, offset, size);
    data.Ok? && codec.cidOf(codec.leaf(data.value, t, raw)) == c
  }

  /** A node found under the CID of a leaf is that leaf, so its own type will do to rebuild it. */
  lemma NodeTypeWillDo(codec: Codec, raw: bool, sources: Sources, node: DagNode,
                       path: string, offset: nat, size: nat, t: NodeType)
    requires CollisionFree(codec) && LeafTypesRecover(codec) && IsNode(codec, node)
    requires NamesPayload(codec, raw, sources, node.cid, path, offset, size, t)
    ensures NamesPayload(codec, raw, sources, node.cid, path, offset, size, node.nodeType)
  {
  }

  /** Every mapping with a source path names a source range that holds the block's payload. */
  ghost predicate SourcesNamed(codec: Codec, raw: bool, sources: Sources, m: Mappings) {
    forall c :: c in m && m[c].srcPath != "" ==>
      NamesPayload(codec, raw, sources, c, m[c].srcPath, m[c].srcOffset, m[c].size, m[c].nodeType)
  }

  /** The sizes on record for a CID are those of the bytes it is the CID of. */
  ghost predicate SizeKnown(codec: Codec, c: Cid, cm: ChunkMapping, rawSizes: map<Cid, nat>) {
    && cm.cid == c && c in rawSizes
    && exists x :: codec.cidOf(x) == c && rawSizes[c] == |x| && cm.chunkSize == LdSize(|c|, |x|)
  }

  ghost predicate SizesKnown(codec: Codec, m: Mappings, rawSizes: map<Cid, nat>) {
    forall c :: c in m ==> SizeKnown(codec, c, m[c], rawSizes)
  }

  /** What every event keeps true of the index. */
  ghost predicate IndexRight(codec: Codec, raw: bool, sources: Sources, m: Mappings, rawSizes: map<Cid, nat>) {
    SourcesNamed(codec, raw, sources, m) && SizesKnown(codec, m, rawSizes) && LengthsFit(rawSizes)
  }
}
