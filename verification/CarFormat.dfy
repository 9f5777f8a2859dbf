/** The CAR file layout: a header, then each block as length varint, CID and data. */
module CarFormat {
  import opened Bytes

  type Cid = Bytes

  datatype Block = Block(cid: Cid, data: Bytes)

  /** The multiformats unsigned varint: seven bits a byte, lowest first, the top bit set but for the last. */
  function Uvarint(n: nat): (b: Bytes)
    ensures |b| > 0
  {
    if n < 128 then [n as Byte] else [(n % 128 + 128) as Byte] + Uvarint(n / 128)
  }

  /** The reader's side: seven bits a byte up to the first byte below 128; the number and what is behind it. */
  function ReadUvarint(s: Bytes): (r: Option<(nat, Bytes)>)
    ensures r.Some? ==> |r.value.1| < |s|
  {
    if |s| == 0 then None
    else if s[0] < 128 then Some((Val(s[0]), s[1..]))
    else
      match ReadUvarint(s[1..])
      case None => None
      case Some((high, rest)) => Some((Val(s[0]) - 128 + 128 * high, rest))
  }

  /** Whatever follows it, a number that was written is read back. */
  lemma {:induction false} UvarintReadsBack(n: nat, rest: Bytes)
    ensures ReadUvarint(Uvarint(n) + rest) == Some((n, rest))
  {
    var s := Uvarint(n) + rest;
    if n < 128 {
      assert s[1..] == rest;
    } else {
      UvarintReadsBack(n / 128, rest);
      assert s[1..] == Uvarint(n / 128) + rest;
    }
  }

  /** No shorter encoding would do: k bytes hold 7k bits, and k - 1 are too few. */
  lemma {:induction false} UvarintIsShortest(n: nat)
    ensures n < Pow2(7 * |Uvarint(n)|)
    ensures |Uvarint(n)| > 1 ==> Pow2(7 * (|Uvarint(n)| - 1)) <= n
  {
    SmallPowers();
    if n >= 128 {
      var k := |Uvarint(n / 128)|;
      assert |Uvarint(n)| == k + 1;
      UvarintIsShortest(n / 128);
      Pow2Add(7, 7 * k);
      assert Pow2(7 * (k + 1)) == 128 * Pow2(7 * k);
      if k > 1 {
        Pow2Add(7, 7 * (k - 1));
        assert Pow2(7 * k) == 128 * Pow2(7 * (k - 1));
      }
    }
  }

  /** A frame's size for a CID and data of the given lengths: util.LdSize. */
  function LdSize(cidLen: nat, dataLen: nat): (n: nat)
    ensures n > cidLen + dataLen
  {
    |Uvarint(cidLen + dataLen)| + cidLen + dataLen
  }

  function Frame(b: Block): (f: Bytes)
    ensures |f| == LdSize(|b.cid|, |b.data|)
  {
    Uvarint(|b.cid| + |b.data|) + b.cid + b.data
  }

  function Frames(blocks: seq<Block>): Bytes {
    if |blocks| == 0 then [] else Frame(blocks[0]) + Frames(blocks[1..])
  }

  function CarBytes(header: Bytes, blocks: seq<Block>): Bytes {
    header + Frames(blocks)
  }

  /** Where block i starts; for i == |blocks|, where the file ends. */
  function Off(header: Bytes, blocks: seq<Block>, i: nat): nat
    requires i <= |blocks|
  {
    if i == 0 then |header| else Off(header, blocks, i - 1) + |Frame(blocks[i - 1])|
  }

  lemma {:induction false} OffIncreases(header: Bytes, blocks: seq<Block>, i: nat, j: nat)
    requires i <= j <= |blocks|
    ensures Off(header, blocks, i) + (j - i) <= Off(header, blocks, j)
    decreases j
  {
    if i < j {
      OffIncreases(header, blocks, i, j - 1);
    }
  }

  lemma {:induction false} FramesAppend(a: seq<Block>, b: seq<Block>)
    ensures Frames(a + b) == Frames(a) + Frames(b)
  {
    if |a| == 0 {
      assert a + b == b;
    } else {
      assert (a + b)[1..] == a[1..] + b;
      FramesAppend(a[1..], b);
    }
  }

  /** The bytes up to block i are the CAR of the first i blocks. */
  lemma {:induction false} OffIsLength(header: Bytes, blocks: seq<Block>, i: nat)
    requires i <= |blocks|
    ensures Off(header, blocks, i) == |CarBytes(header, blocks[..i])|
    decreases i
  {
    if i > 0 {
      OffIsLength(header, blocks, i - 1);
      FramesNext(blocks, i - 1);
    }
  }

  lemma FramesNext(blocks: seq<Block>, i: nat)
    requires i < |blocks|
    ensures Frames(blocks[..i + 1]) == Frames(blocks[..i]) + Frame(blocks[i])
  {
    assert blocks[..i + 1] == blocks[..i] + [blocks[i]];
    FramesAppend(blocks[..i], [blocks[i]]);
    assert Frames([blocks[i]]) == Frame(blocks[i]) + Frames([]);
  }

  lemma EndOfCar(header: Bytes, blocks: seq<Block>)
    ensures Off(header, blocks, |blocks|) == |CarBytes(header, blocks)|
  {
    OffIsLength(header, blocks, |blocks|);
    assert blocks[..|blocks|] == blocks;
  }

  lemma CarSplit(header: Bytes, blocks: seq<Block>, i: nat)
    requires i < |blocks|
    ensures CarBytes(header, blocks) == CarBytes(header, blocks[..i]) + Frame(blocks[i]) + Frames(blocks[i + 1..])
  {
    var before, after := blocks[..i], blocks[i + 1..];
    assert blocks == blocks[..i + 1] + after;
    FramesAppend(blocks[..i + 1], after);
    FramesNext(blocks, i);
    Associate(header, Frames(before), Frame(blocks[i]), Frames(after));
  }

  lemma Associate(a: Bytes, b: Bytes, c: Bytes, d: Bytes)
    ensures a + (b + c + d) == (a + b) + c + d
  {
  }

  lemma MiddleSlice(s: Bytes, a: Bytes, f: Bytes, b: Bytes)
    requires s == a + f + b
    ensures |a| + |f| <= |s| && s[|a|..|a| + |f|] == f
  {
  }

  /** Block i's frame stands in the CAR at its offset. */
  lemma FrameInCar(header: Bytes, blocks: seq<Block>, i: nat)
    requires i < |blocks|
    ensures Off(header, blocks, i) + |Frame(blocks[i])| == Off(header, blocks, i + 1) <= |CarBytes(header, blocks)|
    ensures CarBytes(header, blocks)[Off(header, blocks, i)..Off(header, blocks, i + 1)] == Frame(blocks[i])
  {
    CarSplit(header, blocks, i);
    OffIsLength(header, blocks, i);
    MiddleSlice(CarBytes(header, blocks), CarBytes(header, blocks[..i]), Frame(blocks[i]), Frames(blocks[i + 1..]));
  }

  // ----- reading it back

  /** Says how long the CID at the front of some bytes is. */
  type CidLength = Bytes -> nat

  /** Reads frame after frame: a length, then as many bytes, the CID's first. */
  function ReadBlocks(cidLength: CidLength, s: Bytes): Option<seq<Block>>
    decreases |s|
  {
    if |s| == 0 then Some([])
    else
      match ReadUvarint(s)
      case None => None
      case Some((n, rest)) =>
        if n > |rest| || cidLength(rest[..n]) > n then None
        else
          var k := cidLength(rest[..n]);
          match ReadBlocks(cidLength, rest[n..])
          case None => None
          case Some(blocks) => Some([Block(rest[..k], rest[k..n])] + blocks)
  }

  /** The CID of each block can be told from what follows it. */
  ghost predicate CidsTold(cidLength: CidLength, blocks: seq<Block>) {
    forall i :: 0 <= i < |blocks| ==> cidLength(blocks[i].cid + blocks[i].data) == |blocks[i].cid|
  }

  lemma FrameReadsBack(cidLength: CidLength, b: Block, s: Bytes)
    requires cidLength(b.cid + b.data) == |b.cid|
    ensures ReadBlocks(cidLength, Frame(b) + s) ==
            var r := ReadBlocks(cidLength, s); if r.None? then None else Some([b] + r.value)
  {
    var n := |b.cid| + |b.data|;
    var rest := b.cid + b.data + s;
    assert Frame(b) + s == Uvarint(n) + rest;
    UvarintReadsBack(n, rest);
    assert rest[..n] == b.cid + b.data && rest[n..] == s;
    assert rest[..|b.cid|] == b.cid && rest[|b.cid|..n] == b.data;
  }

  /** A CAR is read back block by block, behind its header. */
  lemma {:induction false} FramesReadBack(cidLength: CidLength, blocks: seq<Block>)
    requires CidsTold(cidLength, blocks)
    ensures ReadBlocks(cidLength, Frames(blocks)) == Some(blocks)
  {
    if |blocks| > 0 {
      FramesReadBack(cidLength, blocks[1..]);
      FrameReadsBack(cidLength, blocks[0], Frames(blocks[1..]));
      assert blocks == [blocks[0]] + blocks[1..];
    }
  }

  lemma CarReadsBack(cidLength: CidLength, header: Bytes, blocks: seq<Block>)
    requires CidsTold(cidLength, blocks)
    ensures CarBytes(header, blocks)[..|header|] == header
    ensures ReadBlocks(cidLength, CarBytes(header, blocks)[|header|..]) == Some(blocks)
  {
    FramesReadBack(cidLength, blocks);
    assert CarBytes(header, blocks)[|header|..] == Frames(blocks);
  }
}
