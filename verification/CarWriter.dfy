/**
 Writing a CAR through the recording writer: from the buffers that happen to parse as CIDs the index
 infers where every block sits.
 */
module CarWriter {
  import opened Bytes
  import opened CarFormat
  import opened CarIndex

  type Parser = Bytes -> Option<Cid>

  /** The destination: it takes bytes until it is full, and a write that does not fit is an error. */
  class Sink {
    var content: Bytes
    var room: nat

    constructor (capacity: nat)
      ensures content == [] && room == capacity
    {
      content, room := [], capacity;
    }

    method Write(p: Bytes) returns (n: nat, ok: bool)
      modifies this
      ensures ok <==> |p| <= old(room)
      ensures n == Min(|p|, old(room)) && content == old(content) + p[..n] && room == old(room) - n
    {
      n := Min(|p|, room);
      ok := n == |p|;
      content := content + p[..n];
      room := room - n;
    }
  }

  class WrapWriter {
    const sink: Sink
    const ms: MappingService
    const parse: Parser
    var offset: U64

    constructor (sink: Sink, ms: MappingService, parse: Parser)
      ensures this.sink == sink && this.ms == ms && this.parse == parse && offset == 0
    {
      this.sink, this.ms, this.parse := sink, ms, parse;
      offset := 0;
    }

    /** The buffer goes through unchanged; only a successful write is recorded and moves the offset. */
    method Write(p: Bytes) returns (n: nat, ok: bool)
      requires LengthsFit(ms.chunkRawSize)
      modifies this`offset, sink, ms`mappings
      ensures ok <==> |p| <= old(sink.room)
      ensures n == Min(|p|, old(sink.room))
      ensures ok ==> sink.content == old(sink.content) + p && sink.room == old(sink.room) - |p|
      ensures !ok ==> sink.content == old(sink.content) + p[..old(sink.room)] && sink.room == 0
      ensures ok ==> ms.mappings == Recorded(parse, old(ms.mappings), ms.chunkRawSize, p, old(offset))
      ensures ok ==> offset == Word(old(offset) + |p|)
      ensures !ok ==> ms.mappings == old(ms.mappings) && offset == old(offset)
    {
      n, ok := sink.Write(p);
      if ok {
        ms.CarWriteAfterAction(parse, p, offset);
        offset := Word(offset + n);
      }
    }
  }

  // ----- runs

  function Total(bufs: seq<Bytes>): nat {
    if |bufs| == 0 then 0 else Total(bufs[..|bufs| - 1]) + |bufs[|bufs| - 1]|
  }

  function Concat(bufs: seq<Bytes>): (b: Bytes)
    ensures |b| == Total(bufs)
  {
    if |bufs| == 0 then [] else Concat(bufs[..|bufs| - 1]) + bufs[|bufs| - 1]
  }

  /** The writer's offset after the buffers are written from offset `start` on. */
  function OffsetAfter(bufs: seq<Bytes>, start: U64): U64 {
    if |bufs| == 0 then start else Word(OffsetAfter(bufs[..|bufs| - 1], start) + |bufs[|bufs| - 1]|)
  }

  lemma {:induction false} OffsetIsTotal(bufs: seq<Bytes>, start: U64)
    ensures OffsetAfter(bufs, start) == Word(start + Total(bufs))
  {
    if |bufs| == 0 {
      WordFits(start);
    } else {
      OffsetIsTotal(bufs[..|bufs| - 1], start);
      WordAdd(start + Total(bufs[..|bufs| - 1]), |bufs[|bufs| - 1]|);
    }
  }

  /** The index after the buffers are written from offset `start` on. */
  function RecordedRun(parse: Parser, m: Mappings, raw: map<Cid, nat>, bufs: seq<Bytes>, start: U64): Mappings {
    if |bufs| == 0 then m
    else
      var front, last := bufs[..|bufs| - 1], bufs[|bufs| - 1];
      Recorded(parse, RecordedRun(parse, m, raw, front, start), raw, last, OffsetAfter(front, start))
  }

  /** Writing a list of buffers, up to the first failure. */
  method WriteAll(w: WrapWriter, bufs: seq<Bytes>) returns (ok: bool)
    requires LengthsFit(w.ms.chunkRawSize)
    modifies w`offset, w.sink, w.ms`mappings
    ensures ok <==> Total(bufs) <= old(w.sink.room)
    ensures ok ==> w.sink.content == old(w.sink.content) + Concat(bufs)
    ensures ok ==> w.offset == OffsetAfter(bufs, old(w.offset))
    ensures ok ==> w.ms.mappings == RecordedRun(w.parse, old(w.ms.mappings), w.ms.chunkRawSize, bufs, old(w.offset))
  {
    ghost var before := Before(w.ms.mappings, w.ms.chunkRawSize, w.offset, w.sink.content, w.sink.room);
    for i := 0 to |bufs|
      invariant Wrote(w, before, bufs[..i])
    {
      ok := WriteNext(w, bufs, i, before);
      if !ok {
        TotalMonotone(bufs, i + 1);
        return;
      }
    }
    assert bufs[..|bufs|] == bufs;
    return true;
  }

  /** Where a run started from. */
  datatype Before = Before(m: Mappings, raw: map<Cid, nat>, start: U64, content: Bytes, room: nat)

  /** The state once the listed buffers went through. */
  ghost predicate Wrote(w: WrapWriter, b: Before, bufs: seq<Bytes>)
    reads w, w.sink, w.ms
  {
    && w.sink.room == b.room - Total(bufs)
    && w.sink.content == b.content + Concat(bufs)
    && w.offset == OffsetAfter(bufs, b.start)
    && w.ms.chunkRawSize == b.raw
    && w.ms.mappings == RecordedRun(w.parse, b.m, b.raw, bufs, b.start)
  }

  method WriteNext(w: WrapWriter, bufs: seq<Bytes>, i: nat, ghost b: Before) returns (ok: bool)
    requires i < |bufs| && Wrote(w, b, bufs[..i])
    requires LengthsFit(w.ms.chunkRawSize)
    modifies w`offset, w.sink, w.ms`mappings
    ensures ok <==> Total(bufs[..i + 1]) <= b.room
    ensures ok ==> Wrote(w, b, bufs[..i + 1])
  {
    RunNext(w.parse, b.m, b.raw, bufs, b.start, i);
    GoesBehind(b.content, Concat(bufs[..i]), bufs[i]);
    var n;
    n, ok := w.Write(bufs[i]);
  }

  lemma GoesBehind(a: Bytes, b: Bytes, c: Bytes)
    ensures a + b + c == a + (b + c)
  {
  }

  /** One more buffer, in every quantity the run is measured by. */
  lemma RunNext(parse: Parser, m: Mappings, raw: map<Cid, nat>, bufs: seq<Bytes>, start: U64, i: nat)
    requires i < |bufs|
    ensures Total(bufs[..i + 1]) == Total(bufs[..i]) + |bufs[i]|
    ensures Concat(bufs[..i + 1]) == Concat(bufs[..i]) + bufs[i]
    ensures OffsetAfter(bufs[..i + 1], start) == Word(OffsetAfter(bufs[..i], start) + |bufs[i]|)
    ensures RecordedRun(parse, m, raw, bufs[..i + 1], start) ==
            Recorded(parse, RecordedRun(parse, m, raw, bufs[..i], start), raw, bufs[i], OffsetAfter(bufs[..i], start))
  {
    assert bufs[..i + 1][..i] == bufs[..i];
  }

  lemma {:induction false} TotalMonotone(bufs: seq<Bytes>, i: nat)
    requires i <= |bufs|
    ensures Total(bufs[..i]) <= Total(bufs)
    decreases |bufs|
  {
    if i < |bufs| {
      TotalMonotone(bufs[..|bufs| - 1], i);
      assert bufs[..|bufs| - 1][..i] == bufs[..i];
    } else {
      assert bufs[..i] == bufs;
    }
  }

  lemma TotalNext(bufs: seq<Bytes>, i: nat)
    requires i < |bufs|
    ensures Total(bufs[..i + 1]) == Total(bufs[..i]) + |bufs[i]|
  {
    assert bufs[..i + 1][..i] == bufs[..i];
  }

  /** The last buffer that parses as c, or -1. */
  function LastParse(parse: Parser, bufs: seq<Bytes>, c: Cid): (i: int)
    ensures -1 <= i < |bufs|
  {
    if |bufs| == 0 then -1
    else if parse(bufs[|bufs| - 1]) == Some(c) then |bufs| - 1
    else LastParse(parse, bufs[..|bufs| - 1], c)
  }

  lemma {:induction false} LastParseIs(parse: Parser, bufs: seq<Bytes>, c: Cid, i: nat)
    requires i < |bufs| && parse(bufs[i]) == Some(c)
    ensures i <= LastParse(parse, bufs, c) < |bufs|
    ensures i == LastParse(parse, bufs, c) <==> forall j :: i < j < |bufs| ==> parse(bufs[j]) != Some(c)
  {
    if i < |bufs| - 1 {
      var front := bufs[..|bufs| - 1];
      LastParseIs(parse, front, c, i);
      assert forall j :: 0 <= j < |front| ==> front[j] == bufs[j];
    }
  }

  /**
   What any run of writes does to a mapping: only its place in the CAR can change, and it is set by
   the last buffer that parsed as the mapping's CID.
   */
  lemma {:induction false} RunRecordsLast(parse: Parser, m: Mappings, raw: map<Cid, nat>, bufs: seq<Bytes>,
                                          start: U64, c: Cid)
    requires c in m
    ensures RecordedRun(parse, m, raw, bufs, start).Keys == m.Keys
    ensures var i := LastParse(parse, bufs, c);
      RecordedRun(parse, m, raw, bufs, start)[c] ==
        if i < 0 then m[c]
        else m[c].(dstOffset := FrameStart(raw, c, OffsetAfter(bufs[..i], start)))
  {
    if |bufs| > 0 {
      var front := bufs[..|bufs| - 1];
      RunRecordsLast(parse, m, raw, front, start, c);
      var i := LastParse(parse, front, c);
      assert i >= 0 ==> front[..i] == bufs[..i];
    }
  }

  // ----- a CAR

  /** The three buffers a block is written in. */
  function BlockWrites(b: Block): seq<Bytes> {
    [Uvarint(|b.cid| + |b.data|), b.cid, b.data]
  }

  /** The buffers of a CAR: those the header is written in, then three a block. */
  function CarWrites(headerBufs: seq<Bytes>, blocks: seq<Block>): (w: seq<Bytes>)
    ensures |w| == |headerBufs| + 3 * |blocks|
  {
    if |blocks| == 0 then headerBufs
    else CarWrites(headerBufs, blocks[..|blocks| - 1]) + BlockWrites(blocks[|blocks| - 1])
  }

  /** The place of block i's CID among the buffers. */
  function CidWrite(headerBufs: seq<Bytes>, i: nat): nat {
    |headerBufs| + 3 * i + 1
  }

  lemma ConcatThree(a: seq<Bytes>, x: Bytes, y: Bytes, z: Bytes)
    ensures Concat(a + [x, y, z]) == Concat(a) + x + y + z
  {
    ConcatOne(a, x);
    ConcatOne(a + [x], y);
    ConcatOne(a + [x] + [y], z);
    assert a + [x, y, z] == a + [x] + [y] + [z];
  }

  lemma ConcatOne(a: seq<Bytes>, x: Bytes)
    ensures Concat(a + [x]) == Concat(a) + x
  {
  }

  /** The buffers add up to the CAR. */
  lemma {:induction false} WritesAreCar(headerBufs: seq<Bytes>, blocks: seq<Block>)
    ensures Concat(CarWrites(headerBufs, blocks)) == CarBytes(Concat(headerBufs), blocks)
  {
    if |blocks| > 0 {
      var n := |blocks| - 1;
      WritesAreCar(headerBufs, blocks[..n]);
      var b := blocks[n];
      ConcatThree(CarWrites(headerBufs, blocks[..n]), Uvarint(|b.cid| + |b.data|), b.cid, b.data);
      FramesNext(blocks, n);
      assert blocks[..n + 1] == blocks;
      Regroup(Concat(headerBufs), Frames(blocks[..n]), Uvarint(|b.cid| + |b.data|), b.cid, b.data);
    } else {
      assert CarBytes(Concat(headerBufs), blocks) == Concat(headerBufs);
    }
  }

  lemma Regroup(h: Bytes, f: Bytes, x: Bytes, y: Bytes, z: Bytes)
    ensures (h + f) + x + y + z == h + (f + (x + y + z))
  {
  }

  lemma {:induction false} CidWriteAt(headerBufs: seq<Bytes>, blocks: seq<Block>, i: nat)
    requires i < |blocks|
    ensures CarWrites(headerBufs, blocks)[CidWrite(headerBufs, i)] == blocks[i].cid
    ensures CarWrites(headerBufs, blocks)[..CidWrite(headerBufs, i)] ==
            CarWrites(headerBufs, blocks[..i]) + [Uvarint(|blocks[i].cid| + |blocks[i].data|)]
    decreases |blocks|
  {
    var n := |blocks| - 1;
    var front := blocks[..n];
    if i < n {
      CidWriteAt(headerBufs, front, i);
      assert front[..i] == blocks[..i] && front[i] == blocks[i];
      PrefixOf(CarWrites(headerBufs, front), BlockWrites(blocks[n]), CidWrite(headerBufs, i));
    } else {
      SecondOfThree(CarWrites(headerBufs, front), BlockWrites(blocks[n]));
    }
  }

  lemma LastWrites(a: seq<Bytes>, b: seq<Bytes>, j: nat)
    requires |a| <= j < |a| + |b|
    ensures (a + b)[j] == b[j - |a|]
  {
  }

  lemma SecondOfThree(a: seq<Bytes>, b: seq<Bytes>)
    requires |b| == 3
    ensures (a + b)[|a| + 1] == b[1] && (a + b)[..|a| + 1] == a + [b[0]]
  {
  }

  lemma PrefixOf(a: seq<Bytes>, b: seq<Bytes>, i: nat)
    requires i < |a|
    ensures (a + b)[i] == a[i] && (a + b)[..i] == a[..i]
  {
  }

  /** The CID of block i is written right behind its length. */
  lemma CidOffset(headerBufs: seq<Bytes>, blocks: seq<Block>, i: nat)
    requires i < |blocks|
    ensures Total(CarWrites(headerBufs, blocks)[..CidWrite(headerBufs, i)]) ==
            Off(Concat(headerBufs), blocks, i) + |Uvarint(|blocks[i].cid| + |blocks[i].data|)|
  {
    CidWriteAt(headerBufs, blocks, i);
    var before, len := CarWrites(headerBufs, blocks[..i]), Uvarint(|blocks[i].cid| + |blocks[i].data|);
    assert (before + [len])[..|before|] == before;
    WritesAreCar(headerBufs, blocks[..i]);
    OffIsLength(Concat(headerBufs), blocks, i);
  }

  /** The blocks of a CAR, each known to the index with its size, and no others. */
  ghost predicate Known(m: Mappings, raw: map<Cid, nat>, blocks: seq<Block>) {
    && OwnKeys(m)
    && (forall i, j :: 0 <= i < j < |blocks| ==> blocks[i].cid != blocks[j].cid)
    && (forall i :: 0 <= i < |blocks| ==> |blocks[i].cid| > 0 && blocks[i].cid in m)
    && (forall c :: c in m ==> exists i :: 0 <= i < |blocks| && blocks[i].cid == c)
    && (forall i :: 0 <= i < |blocks| ==>
          && blocks[i].cid in raw && raw[blocks[i].cid] == |blocks[i].data|
          && m[blocks[i].cid].chunkSize == |Frame(blocks[i])|)
  }

  /** No buffer after block i's CID parses as that CID. */
  ghost predicate QuietAfter(parse: Parser, headerBufs: seq<Bytes>, blocks: seq<Block>, i: nat)
    requires i < |blocks|
  {
    var bufs := CarWrites(headerBufs, blocks);
    forall j :: CidWrite(headerBufs, i) < j < |bufs| ==> parse(bufs[j]) != Some(blocks[i].cid)
  }

  /**
   After a CAR is written from the start, a block's recorded place is right exactly when no later
   buffer was taken for its CID.
   */
  lemma PlaceIsRightExactly(parse: Parser, m: Mappings, raw: map<Cid, nat>, headerBufs: seq<Bytes>,
                            blocks: seq<Block>, i: nat)
    requires Known(m, raw, blocks) && i < |blocks| && parse(blocks[i].cid) == Some(blocks[i].cid)
    requires |CarBytes(Concat(headerBufs), blocks)| < TWO_64
    ensures var after := RecordedRun(parse, m, raw, CarWrites(headerBufs, blocks), 0);
      && blocks[i].cid in after
      && (after[blocks[i].cid] == m[blocks[i].cid].(dstOffset := Off(Concat(headerBufs), blocks, i))
          <==> QuietAfter(parse, headerBufs, blocks, i))
  {
    var bufs, k := CarWrites(headerBufs, blocks), CidWrite(headerBufs, i);
    var place := Off(Concat(headerBufs), blocks, i);
    CidWriteFacts(m, raw, headerBufs, blocks, i, bufs, place);
    PlaceFromRun(parse, m, raw, bufs, blocks[i].cid, k, place);
  }

  lemma CidWriteFacts(m: Mappings, raw: map<Cid, nat>, headerBufs: seq<Bytes>, blocks: seq<Block>, i: nat,
                      bufs: seq<Bytes>, place: nat)
    requires Known(m, raw, blocks) && i < |blocks| && bufs == CarWrites(headerBufs, blocks)
    requires place == Off(Concat(headerBufs), blocks, i)
    requires |CarBytes(Concat(headerBufs), blocks)| < TWO_64
    ensures var c, k := blocks[i].cid, CidWrite(headerBufs, i);
      && c in m && c in raw && |c| > 0
      && bufs[k] == c && Total(bufs) < TWO_64
      && Total(bufs[..k]) == place + |Uvarint(raw[c] + |c|)|
  {
    assert bufs[CidWrite(headerBufs, i)] == blocks[i].cid by { CidWriteAt(headerBufs, blocks, i); }
    CidOffset(headerBufs, blocks, i);
    assert Total(bufs) < TWO_64 by { WritesAreCar(headerBufs, blocks); }
  }

  /** A CID's place comes out as `place` exactly when its last parse is the buffer behind its length. */
  lemma PlaceFromRun(parse: Parser, m: Mappings, raw: map<Cid, nat>, bufs: seq<Bytes>, c: Cid, k: nat, place: nat)
    requires c in m && c in raw && |c| > 0
    requires k < |bufs| && bufs[k] == c && parse(c) == Some(c)
    requires Total(bufs[..k]) == place + |Uvarint(raw[c] + |c|)| && Total(bufs) < TWO_64
    ensures c in RecordedRun(parse, m, raw, bufs, 0)
    ensures RecordedRun(parse, m, raw, bufs, 0)[c] == m[c].(dstOffset := place)
            <==> forall j :: k < j < |bufs| ==> parse(bufs[j]) != Some(c)
  {
    LastParseIs(parse, bufs, c, k);
    var j := LastParse(parse, bufs, c);
    PlaceAfterRun(parse, m, raw, bufs, c, j);
    LaterPlaceDiffers(bufs, k, j, |Uvarint(raw[c] + |c|)|);
  }

  lemma PlaceAfterRun(parse: Parser, m: Mappings, raw: map<Cid, nat>, bufs: seq<Bytes>, c: Cid, j: nat)
    requires c in m && c in raw && j == LastParse(parse, bufs, c)
    ensures c in RecordedRun(parse, m, raw, bufs, 0)
    ensures RecordedRun(parse, m, raw, bufs, 0)[c] ==
            m[c].(dstOffset := Word(OffsetAfter(bufs[..j], 0) - |Uvarint(raw[c] + |c|)|))
  {
    RunRecordsLast(parse, m, raw, bufs, 0, c);
  }

  /** A frame start taken from buffer j is the one taken from buffer k only if j is k. */
  lemma LaterPlaceDiffers(bufs: seq<Bytes>, k: nat, j: nat, n: nat)
    requires k <= j < |bufs| && |bufs[k]| > 0
    requires n <= Total(bufs[..k]) && Total(bufs) < TWO_64
    ensures Total(bufs[..j]) < TWO_64
    ensures Word(OffsetAfter(bufs[..j], 0) - n) == Total(bufs[..k]) - n <==> j == k
  {
    OffsetIsTotal(bufs[..j], 0);
    TotalMonotone(bufs, j);
    LaterIsBehind(bufs, k, j);
    WordFits(Total(bufs[..j]));
    WordFits(Total(bufs[..j]) - n);
  }

  lemma LaterIsBehind(bufs: seq<Bytes>, k: nat, j: nat)
    requires k <= j < |bufs| && |bufs[k]| > 0
    ensures Total(bufs[..k]) <= Total(bufs[..j])
    ensures k < j ==> Total(bufs[..k]) < Total(bufs[..j])
  {
    if k < j {
      TotalNext(bufs, k);
      TotalGrows(bufs, k + 1, j);
    }
  }

  lemma TotalGrows(bufs: seq<Bytes>, i: nat, j: nat)
    requires i <= j <= |bufs|
    ensures Total(bufs[..i]) <= Total(bufs[..j])
  {
    TotalMonotone(bufs[..j], i);
    assert bufs[..j][..i] == bufs[..i];
  }

  /** The index describes the CAR: each block's mapping says where its frame is, and there are no others. */
  ghost predicate Describes(m: Mappings, header: Bytes, blocks: seq<Block>) {
    && OwnKeys(m)
    && (forall i, j :: 0 <= i < j < |blocks| ==> blocks[i].cid != blocks[j].cid)
    && (forall i :: 0 <= i < |blocks| ==> blocks[i].cid in m)
    && (forall c :: c in m ==> exists i :: 0 <= i < |blocks| && blocks[i].cid == c)
    && (forall i :: 0 <= i < |blocks| ==>
          && m[blocks[i].cid].dstOffset == Off(header, blocks, i)
          && m[blocks[i].cid].chunkSize == |Frame(blocks[i])|)
  }

  /** Every CID is recognised, and no buffer written after it is taken for it. */
  ghost predicate Quiet(parse: Parser, headerBufs: seq<Bytes>, blocks: seq<Block>) {
    forall i :: 0 <= i < |blocks| ==>
      parse(blocks[i].cid) == Some(blocks[i].cid) && QuietAfter(parse, headerBufs, blocks, i)
  }

  /** A quiet run turns what was known of the blocks into a description of the CAR, changing nothing else. */
  lemma RunDescribesCar(parse: Parser, m: Mappings, raw: map<Cid, nat>, headerBufs: seq<Bytes>, blocks: seq<Block>)
    requires Known(m, raw, blocks) && Quiet(parse, headerBufs, blocks)
    requires |CarBytes(Concat(headerBufs), blocks)| < TWO_64
    ensures var after := RecordedRun(parse, m, raw, CarWrites(headerBufs, blocks), 0);
      && Describes(after, Concat(headerBufs), blocks)
      && after.Keys == m.Keys
      && forall c :: c in m ==> after[c] == m[c].(dstOffset := after[c].dstOffset)
  {
    var after := RecordedRun(parse, m, raw, CarWrites(headerBufs, blocks), 0);
    forall i | 0 <= i < |blocks|
      ensures blocks[i].cid in after
      ensures after[blocks[i].cid] == m[blocks[i].cid].(dstOffset := Off(Concat(headerBufs), blocks, i))
    {
      PlaceIsRightExactly(parse, m, raw, headerBufs, blocks, i);
    }
    if |blocks| > 0 {
      RunRecordsLast(parse, m, raw, CarWrites(headerBufs, blocks), 0, blocks[0].cid);
    } else {
      NothingRecorded(parse, m, raw, CarWrites(headerBufs, blocks), 0);
    }
  }

  lemma {:induction false} NothingRecorded(parse: Parser, m: Mappings, raw: map<Cid, nat>, bufs: seq<Bytes>, start: U64)
    requires m == map[]
    ensures RecordedRun(parse, m, raw, bufs, start) == m
  {
    if |bufs| > 0 {
      NothingRecorded(parse, m, raw, bufs[..|bufs| - 1], start);
    }
  }

  /** Writing a whole CAR: the file is the CAR, the writer stands at its end, and the index describes it. */
  method WriteCar(w: WrapWriter, headerBufs: seq<Bytes>, blocks: seq<Block>) returns (ok: bool)
    requires w.offset == 0 && w.sink.content == []
    requires LengthsFit(w.ms.chunkRawSize)
    requires Known(w.ms.mappings, w.ms.chunkRawSize, blocks) && Quiet(w.parse, headerBufs, blocks)
    requires |CarBytes(Concat(headerBufs), blocks)| < TWO_64
    modifies w`offset, w.sink, w.ms`mappings
    ensures ok <==> |CarBytes(Concat(headerBufs), blocks)| <= old(w.sink.room)
    ensures ok ==> w.sink.content == CarBytes(Concat(headerBufs), blocks)
    ensures ok ==> w.offset == |w.sink.content| == Off(Concat(headerBufs), blocks, |blocks|)
    ensures ok ==> Describes(w.ms.mappings, Concat(headerBufs), blocks)
  {
    var bufs := CarWrites(headerBufs, blocks);
    ghost var after := RecordedRun(w.parse, w.ms.mappings, w.ms.chunkRawSize, bufs, 0);
    assert Describes(after, Concat(headerBufs), blocks) by {
      RunDescribesCar(w.parse, w.ms.mappings, w.ms.chunkRawSize, headerBufs, blocks);
    }
    ghost var car := CarBytes(Concat(headerBufs), blocks);
    RunWritesCar(headerBufs, blocks);
    ok := WriteAll(w, bufs);
    assert ok ==> w.sink.content == car && w.ms.mappings == after;
  }

  /** The buffers of a CAR leave the CAR behind, and the writer at its end. */
  lemma RunWritesCar(headerBufs: seq<Bytes>, blocks: seq<Block>)
    requires |CarBytes(Concat(headerBufs), blocks)| < TWO_64
    ensures var bufs, car := CarWrites(headerBufs, blocks), CarBytes(Concat(headerBufs), blocks);
      && Concat(bufs) == car && Total(bufs) == |car|
      && OffsetAfter(bufs, 0) == |car| == Off(Concat(headerBufs), blocks, |blocks|)
  {
    WritesAreCar(headerBufs, blocks);
    EndOfCar(Concat(headerBufs), blocks);
    OffsetWithoutWrap(CarWrites(headerBufs, blocks));
  }

  lemma OffsetWithoutWrap(bufs: seq<Bytes>)
    requires Total(bufs) < TWO_64
    ensures OffsetAfter(bufs, 0) == Total(bufs)
  {
  }

  /** No buffer but the CIDs parses as one. */
  ghost predicate OnlyCidsParse(parse: Parser, blocks: seq<Block>) {
    forall i :: 0 <= i < |blocks| ==>
      && parse(blocks[i].cid) == Some(blocks[i].cid)
      && parse(Uvarint(|blocks[i].cid| + |blocks[i].data|)) == None
      && parse(blocks[i].data) == None
  }

  /** Buffers behind block i's CID are data, lengths, and later CIDs. */
  lemma {:induction false} LaterBuffers(parse: Parser, headerBufs: seq<Bytes>, blocks: seq<Block>, i: nat, j: nat)
    requires OnlyCidsParse(parse, blocks)
    requires i < |blocks| && CidWrite(headerBufs, i) < j < |headerBufs| + 3 * |blocks|
    ensures var p := parse(CarWrites(headerBufs, blocks)[j]);
      p == None || exists k :: i < k < |blocks| && p == Some(blocks[k].cid)
    decreases |blocks|
  {
    var n := |blocks| - 1;
    var front := blocks[..n];
    if j < |headerBufs| + 3 * n {
      LaterBuffers(parse, headerBufs, front, i, j);
      PrefixOf(CarWrites(headerBufs, front), BlockWrites(blocks[n]), j);
      var p := parse(CarWrites(headerBufs, front)[j]);
      if p != None {
        var k :| i < k < |front| && p == Some(front[k].cid);
        assert p == Some(blocks[k].cid);
      }
    } else {
      LastWrites(CarWrites(headerBufs, front), BlockWrites(blocks[n]), j);
    }
  }

  /** Distinct blocks and no accidental CIDs make a quiet run. */
  lemma OnlyCidsIsQuiet(parse: Parser, headerBufs: seq<Bytes>, blocks: seq<Block>)
    requires OnlyCidsParse(parse, blocks)
    requires forall i, j :: 0 <= i < j < |blocks| ==> blocks[i].cid != blocks[j].cid
    ensures Quiet(parse, headerBufs, blocks)
  {
    forall i | 0 <= i < |blocks|
      ensures QuietAfter(parse, headerBufs, blocks, i)
    {
      forall j | CidWrite(headerBufs, i) < j < |CarWrites(headerBufs, blocks)|
        ensures parse(CarWrites(headerBufs, blocks)[j]) != Some(blocks[i].cid)
      {
        LaterBuffers(parse, headerBufs, blocks, i, j);
      }
    }
  }
}
