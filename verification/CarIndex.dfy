/**
 The index from source files to the CAR: what is known of every block, where it sits in the CAR,
 and which blocks a byte range touches.
 */
module CarIndex {
  import opened Bytes
  import opened Collections
  import opened CarFormat

  datatype NodeType = RawType | Directory | File | Metadata | Symlink | HAMTShard

  datatype Link = Link(cid: Cid, name: string, size: nat)

  /** A node of the DAG, as its callbacks see it. */
  datatype DagNode = DagNode(cid: Cid, rawData: Bytes, links: seq<Link>, blockSize: nat, nodeType: NodeType)

  /** An empty srcPath marks a node that was not read from a source file. */
  datatype ChunkMapping = ChunkMapping(
    srcPath: string, srcOffset: nat, size: nat, dstOffset: nat, chunkSize: nat,
    blockSize: nat, nodeType: NodeType, cid: Cid, links: seq<Link>)
  {
    function ChunkRangeInCar(): (nat, nat) {
      (dstOffset, Word(dstOffset + chunkSize))
    }
  }

  type Mappings = map<Cid, ChunkMapping>

  /** The mapping file. */
  datatype Mapping = Mapping(dataRoot: Cid, mappings: seq<ChunkMapping>)

  const BY_DST: (ChunkMapping, ChunkMapping) -> bool := (a: ChunkMapping, b: ChunkMapping) => a.dstOffset < b.dstOffset

  function NodeAction(node: DagNode): ChunkMapping {
    ChunkMapping("", 0, 0, 0, LdSize(|node.cid|, |node.rawData|), node.blockSize, node.nodeType, node.cid, node.links)
  }

  /** The first mapping of a CID stays. */
  function Inserted<T>(m: map<Cid, T>, c: Cid, value: T): map<Cid, T> {
    if c in m then m else m[c := value]
  }

  /** The raw size of a node is filed with its first mapping. */
  function RawInserted(m: Mappings, rawSizes: map<Cid, nat>, node: DagNode): map<Cid, nat> {
    if node.cid in m then rawSizes else rawSizes[node.cid := |node.rawData|]
  }

  /** The start of a frame whose CID was written at the given offset; the subtraction wraps. */
  function FrameStart(rawSizes: map<Cid, nat>, c: Cid, offset: U64): U64 {
    if c in rawSizes then Word(offset - |Uvarint(rawSizes[c] + |c|)|) else offset
  }

  /** Every recorded block's length fits the eight bytes the varint is written to. */
  ghost predicate LengthsFit(rawSizes: map<Cid, nat>) {
    forall c :: c in rawSizes ==> LengthFits(rawSizes[c], c)
  }

  predicate LengthFits(rawSize: nat, c: Cid) {
    |Uvarint(rawSize + |c|)| <= 8
  }

  /** What one written buffer does to the index. */
  function Recorded(parse: Bytes -> Option<Cid>, m: Mappings, rawSizes: map<Cid, nat>, buf: Bytes, offset: U64)
    : Mappings
  {
    match parse(buf)
    case None => m
    case Some(c) => if c in m then m[c := m[c].(dstOffset := FrameStart(rawSizes, c, offset))] else m
  }

  /** The four-way overlap test, both ranges closed. */
  predicate Touches(m: ChunkMapping, chunkStart: nat, chunkEnd: nat) {
    var (start, end) := m.ChunkRangeInCar();
    || (chunkStart <= start && chunkEnd >= start && chunkEnd <= end)
    || (chunkStart >= start && chunkStart <= end && chunkEnd >= end)
    || (chunkStart <= start && chunkEnd >= end)
    || (chunkStart >= start && chunkEnd <= end)
  }

  predicate Adjacent(a: ChunkMapping, b: ChunkMapping) {
    b.dstOffset == Word(a.dstOffset + a.chunkSize)
  }

  /** Each mapping starts where the one before ends. */
  predicate Continuous(ms: seq<ChunkMapping>) {
    var n := |ms|;
    n <= 1 || (Adjacent(ms[n - 2], ms[n - 1]) && Continuous(ms[..n - 1]))
  }

  lemma {:induction false} BreakIsFatal(ms: seq<ChunkMapping>, i: nat)
    requires 0 < i < |ms| && !Adjacent(ms[i - 1], ms[i])
    ensures !Continuous(ms)
  {
    if i < |ms| - 1 {
      BreakIsFatal(ms[..|ms| - 1], i);
    }
  }

  /** In offsets and sizes: any gap and any overlap fails. */
  lemma {:induction false} ContinuousExactly(ms: seq<ChunkMapping>)
    ensures Continuous(ms) <==>
            forall i :: 0 < i < |ms| ==>
              ms[i].dstOffset == (ms[i - 1].dstOffset + ms[i - 1].chunkSize) % 0x1_0000_0000_0000_0000
  {
    var n := |ms|;
    if n > 1 {
      ContinuousExactly(ms[..n - 1]);
      forall i | 0 < i < n && !Adjacent(ms[i - 1], ms[i])
        ensures !Continuous(ms)
      {
        BreakIsFatal(ms, i);
      }
    }
  }

  /** The mappings of the listed CIDs that pass a test. */
  function Picked(m: Mappings, keys: seq<Cid>, test: ChunkMapping -> bool): seq<ChunkMapping>
    requires forall c :: c in keys ==> c in m
  {
    if |keys| == 0 then []
    else
      var front, last := keys[..|keys| - 1], keys[|keys| - 1];
      if test(m[last]) then Picked(m, front, test) + [m[last]] else Picked(m, front, test)
  }

  /** The mappings of all CIDs that pass a test. */
  ghost function Passing(m: Mappings, test: ChunkMapping -> bool): set<ChunkMapping> {
    set c | c in m && test(m[c]) :: m[c]
  }

  lemma {:induction false} PickedElements(m: Mappings, keys: seq<Cid>, test: ChunkMapping -> bool)
    requires forall c :: c in keys ==> c in m
    ensures forall v :: v in Picked(m, keys, test) <==> exists c :: c in keys && m[c] == v && test(v)
  {
    if |keys| > 0 {
      var front, last := keys[..|keys| - 1], keys[|keys| - 1];
      PickedElements(m, front, test);
      assert keys == front + [last];
      assert forall c :: c in keys <==> c in front || c == last;
    }
  }

  lemma {:induction false} PickedDistinct(m: Mappings, keys: seq<Cid>, test: ChunkMapping -> bool)
    requires forall c :: c in keys ==> c in m
    requires OwnKeys(m) && Distinct(keys)
    ensures Distinct(Picked(m, keys, test))
  {
    if |keys| > 0 {
      var front, last := keys[..|keys| - 1], keys[|keys| - 1];
      PickedDistinct(m, front, test);
      PickedElements(m, front, test);
      var picked := Picked(m, front, test);
      forall i | 0 <= i < |picked|
        ensures picked[i] != m[last]
      {
        assert picked[i] in picked;
        var c :| c in front && m[c] == picked[i];
        assert c != last;
      }
    }
  }

  lemma PickedAll(m: Mappings, keys: seq<Cid>, test: ChunkMapping -> bool)
    requires Elements(keys) == m.Keys
    requires forall c :: c in keys ==> c in m
    ensures Elements(Picked(m, keys, test)) == Passing(m, test)
  {
    PickedElements(m, keys, test);
    forall v
      ensures v in Picked(m, keys, test) <==> v in Passing(m, test)
    {
      if v in Passing(m, test) {
        var c :| c in m && test(m[c]) && m[c] == v;
        assert c in Elements(keys);
      }
    }
  }

  lemma PassingAll(m: Mappings)
    ensures Passing(m, _ => true) == m.Values
  {
  }

  function TouchTest(chunkStart: nat, chunkEnd: nat): ChunkMapping -> bool {
    m => Touches(m, chunkStart, chunkEnd)
  }

  ghost predicate OffsetsFit(ms: seq<ChunkMapping>) {
    forall i :: 0 <= i < |ms| ==> ms[i].dstOffset < TWO_64
  }

  class MappingService {
    var mappings: Mappings
    var chunkRawSize: map<Cid, nat>
    var dataRoot: Cid

    constructor ()
      ensures mappings == map[] && chunkRawSize == map[] && dataRoot == []
    {
      mappings, chunkRawSize, dataRoot := map[], map[], [];
    }

    method SetCarDataRoot(root: Cid)
      modifies this`dataRoot
      ensures dataRoot == root
    {
      dataRoot := root;
    }

    method InsertMapping(c: Cid, cm: ChunkMapping, rawSize: nat) returns (r: Result<()>)
      modifies this`mappings, this`chunkRawSize
      ensures r.Ok? <==> c !in old(mappings)
      ensures mappings == Inserted(old(mappings), c, cm)
      ensures r.Ok? ==> chunkRawSize == old(chunkRawSize)[c := rawSize]
      ensures r.Err? ==> chunkRawSize == old(chunkRawSize)
    {
      if c in mappings {
        return Err("meta exists");
      }
      mappings := mappings[c := cm];
      chunkRawSize := chunkRawSize[c := rawSize];
      return Ok(());
    }

    /** PutUvarint is given eight bytes: longer sums have no room. */
    method UpdateMapping(c: Cid, offset: U64) returns (r: Result<()>)
      requires c in chunkRawSize ==> LengthFits(chunkRawSize[c], c)
      modifies this`mappings
      ensures r.Ok? <==> c in old(mappings)
      ensures mappings == if c in old(mappings)
                          then old(mappings)[c := old(mappings)[c].(dstOffset := FrameStart(chunkRawSize, c, offset))]
                          else old(mappings)
      ensures c in mappings && c in chunkRawSize ==>
        mappings[c].dstOffset == (offset - |Uvarint(chunkRawSize[c] + |c|)|) % 0x1_0000_0000_0000_0000
    {
      if c !in mappings {
        return Err("meta cid does not exist");
      }
      var start := offset;
      if c in chunkRawSize {
        var sum := chunkRawSize[c] + |c|;
        var n := |Uvarint(sum)|;
        start := Word(offset - n);
      }
      mappings := mappings[c := mappings[c].(dstOffset := start)];
      return Ok(());
    }

    /** Called after every successful write to the CAR. */
    method CarWriteAfterAction(parse: Bytes -> Option<Cid>, buf: Bytes, offset: U64)
      requires LengthsFit(chunkRawSize)
      modifies this`mappings
      ensures mappings == Recorded(parse, old(mappings), chunkRawSize, buf, offset)
    {
      var c := parse(buf);
      if c.Some? && c.value in mappings {
        var _ := UpdateMapping(c.value, offset);
      }
    }

    method DagServerAction(node: DagNode)
      modifies this`mappings, this`chunkRawSize
      ensures mappings == Inserted(old(mappings), node.cid, NodeAction(node))
      ensures chunkRawSize == RawInserted(old(mappings), old(chunkRawSize), node)
    {
      var cm := NodeAction(node);
      var _ := InsertMapping(cm.cid, cm, |node.rawData|);
    }

    method HelperAction(node: DagNode, srcPath: string, offset: nat, size: nat)
      modifies this`mappings, this`chunkRawSize
      ensures mappings == Inserted(old(mappings), node.cid,
                NodeAction(node).(srcPath := srcPath, srcOffset := offset, size := size))
      ensures chunkRawSize == RawInserted(old(mappings), old(chunkRawSize), node)
    {
      var cm := NodeAction(node).(srcPath := srcPath, srcOffset := offset, size := size);
      var _ := InsertMapping(cm.cid, cm, |node.rawData|);
    }

    static method VerifyMappingsContinuity(ms: seq<ChunkMapping>) returns (ok: bool)
      requires OffsetsFit(ms)
      ensures ok <==> Continuous(ms)
    {
      var nextStart := 0;
      for i := 0 to |ms|
        invariant Continuous(ms[..i])
        invariant i > 0 ==> nextStart == Word(ms[i - 1].dstOffset + ms[i - 1].chunkSize)
      {
        if i == 0 {
          nextStart := ms[i].dstOffset;
        }
        if nextStart != ms[i].dstOffset {
          BreakIsFatal(ms, i);
          return false;
        }
        assert ms[..i + 1][..i] == ms[..i];
        nextStart := Word(nextStart + ms[i].chunkSize);
      }
      assert ms[..|ms|] == ms;
      return true;
    }

    /** The mappings that pass a test, in the order in which the map happens to be ranged over. */
    method Select(test: ChunkMapping -> bool) returns (list: seq<ChunkMapping>)
      ensures Elements(list) == Passing(mappings, test)
      ensures OwnKeys(mappings) ==> Distinct(list)
    {
      var keys := Iterate(mappings.Keys);
      forall c | c in keys ensures c in mappings {
        assert c in Elements(keys);
      }
      list := [];
      for i := 0 to |keys|
        invariant list == Picked(mappings, keys[..i], test)
      {
        assert keys[..i + 1][..i] == keys[..i];
        if test(mappings[keys[i]]) {
          list := list + [mappings[keys[i]]];
        }
      }
      assert keys[..|keys|] == keys;
      PickedAll(mappings, keys, test);
      if OwnKeys(mappings) {
        PickedDistinct(mappings, keys, test);
      }
    }

    /** Mappings by where they sit in the CAR, and whether they stand side by side. */
    method SortAndVerify(list: seq<ChunkMapping>) returns (ms: seq<ChunkMapping>, ok: bool)
      requires forall v :: v in list ==> v.dstOffset < TWO_64
      ensures Sorted(ms, BY_DST) && Elements(ms) == Elements(list)
      ensures Distinct(list) ==> Distinct(ms)
      ensures ok <==> Continuous(ms)
    {
      SortElements(list, BY_DST);
      SortSorted(list, BY_DST);
      ms := SortSlice(list, BY_DST);
      if Distinct(list) {
        SortDistinct(list, BY_DST);
      }
      forall i | 0 <= i < |ms| ensures ms[i].dstOffset < TWO_64 {
        assert ms[i] in Elements(ms);
        assert ms[i] in Elements(list);
      }
      ok := VerifyMappingsContinuity(ms);
    }

    /** The blocks a byte range touches; it is an error when they do not stand side by side. */
    method GetChunkMappings(dstOffset: U64, dstSize: U64) returns (ms: seq<ChunkMapping>, ok: bool)
      requires forall c :: c in mappings ==> mappings[c].dstOffset < TWO_64
      ensures Sorted(ms, BY_DST)
      ensures Elements(ms) == Passing(mappings, TouchTest(dstOffset, Word(dstOffset + dstSize)))
      ensures OwnKeys(mappings) ==> Distinct(ms)
      ensures ok <==> Continuous(ms)
    {
      var chunkStart, chunkEnd := dstOffset, Word(dstOffset + dstSize);
      var selected := Select(TouchTest(chunkStart, chunkEnd));
      forall v | v in selected ensures v.dstOffset < TWO_64 {
        assert v in Elements(selected);
      }
      ms, ok := SortAndVerify(selected);
    }

    method GetAllChunkMappings() returns (ms: seq<ChunkMapping>, ok: bool)
      requires forall c :: c in mappings ==> mappings[c].dstOffset < TWO_64
      ensures Sorted(ms, BY_DST) && Elements(ms) == mappings.Values
      ensures OwnKeys(mappings) ==> Distinct(ms)
      ensures ok <==> Continuous(ms)
    {
      var list := Select(_ => true);
      PassingAll(mappings);
      forall v | v in list ensures v.dstOffset < TWO_64 {
        assert v in Elements(list);
      }
      ms, ok := SortAndVerify(list);
    }

    method SaveMetaMappings() returns (m: Mapping)
      ensures m.dataRoot == dataRoot
      ensures Sorted(m.mappings, BY_DST) && Elements(m.mappings) == mappings.Values
    {
      var list := Select(_ => true);
      PassingAll(mappings);
      SortElements(list, BY_DST);
      SortSorted(list, BY_DST);
      m := Mapping(dataRoot, SortSlice(list, BY_DST));
    }

    method LoadMetaMappings(m: Mapping)
      modifies this`mappings, this`dataRoot
      ensures dataRoot == m.dataRoot && mappings == Keyed(m.mappings)
    {
      mappings := map[];
      dataRoot := m.dataRoot;
      for i := 0 to |m.mappings|
        invariant mappings == Keyed(m.mappings[..i]) && dataRoot == m.dataRoot
      {
        assert m.mappings[..i + 1][..i] == m.mappings[..i];
        mappings := mappings[m.mappings[i].cid := m.mappings[i]];
      }
      assert m.mappings[..|m.mappings|] == m.mappings;
    }
  }

  /** A list of mappings filed under their CIDs, a later one replacing an earlier one. */
  function Keyed(ms: seq<ChunkMapping>): Mappings {
    if |ms| == 0 then map[] else Keyed(ms[..|ms| - 1])[ms[|ms| - 1].cid := ms[|ms| - 1]]
  }

  /** Mapping i is the last of the list with its CID. */
  ghost predicate IsLast(ms: seq<ChunkMapping>, i: nat)
    requires i < |ms|
  {
    forall j :: i < j < |ms| ==> ms[j].cid != ms[i].cid
  }

  /** Under every CID there is the last mapping of the list that has it. */
  lemma {:induction false} KeyedIsLast(ms: seq<ChunkMapping>, i: nat)
    requires i < |ms| && IsLast(ms, i)
    ensures ms[i].cid in Keyed(ms) && Keyed(ms)[ms[i].cid] == ms[i]
    decreases |ms|
  {
    var n := |ms| - 1;
    if i < n {
      assert ms[n].cid != ms[i].cid;
      assert ms[..n][i] == ms[i] && IsLast(ms[..n], i);
      KeyedIsLast(ms[..n], i);
    }
  }

  /** Every mapping is filed under its own CID. */
  ghost predicate OwnKeys(m: Mappings) {
    forall c :: c in m ==> m[c].cid == c
  }

  lemma {:induction false} KeyedLookup(ms: seq<ChunkMapping>, m: Mappings)
    requires OwnKeys(m) && forall v :: v in ms ==> v in m.Values
    ensures Keyed(ms).Keys == set v | v in ms :: v.cid
    ensures forall c :: c in Keyed(ms) ==> c in m && Keyed(ms)[c] == m[c]
  {
    if |ms| > 0 {
      var front, last := ms[..|ms| - 1], ms[|ms| - 1];
      KeyedLookup(front, m);
      assert ms == front + [last];
      assert last in m.Values;
    }
  }

  /** Saving the index and loading it again gives the index back. */
  lemma SaveLoadRoundTrip(m: Mappings, saved: seq<ChunkMapping>)
    requires OwnKeys(m) && Elements(saved) == m.Values
    ensures Keyed(saved) == m
  {
    forall v | v in saved ensures v in m.Values {
      assert v in Elements(saved);
    }
    KeyedLookup(saved, m);
    forall c | c in m ensures c in Keyed(saved) {
      assert m[c] in Elements(saved);
      assert m[c] in saved;
    }
  }
}
