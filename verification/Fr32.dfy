/**
 The fr32 data layout: 127 source bytes (1016 bits) become four 32-byte nodes that each carry
 254 bits. DataPadding does it with a bit shuffle; the meaning is a base-2^254 expansion of the
 chunk read as a little-endian number.
 */
module Fr32 {
  import opened Bytes

  const SOURCE_CHUNK_SIZE := 127
  const SLAB_CHUNK_SIZE := 128
  const CHUNK_NODES_NUM := 4

  type SourceChunk = c: Bytes | |c| == SOURCE_CHUNK_SIZE witness Zeros(127)

  // ----- the meaning

  /** 2^254. */
  const FIELD: int := 0x4000_0000_0000_0000_0000_0000_0000_0000_0000_0000_0000_0000_0000_0000_0000_0000

  /** The k-th base-2^254 digit of n. */
  function Digit(n: nat, k: nat): (d: nat)
    ensures d < FIELD
  {
    if k == 0 then n % FIELD else Digit(n / FIELD, k - 1)
  }

  lemma FieldIsPow2()
    ensures FIELD == Pow2(254)
  {
    SmallPowers();
    Pow2Add(8, 8); Pow2Add(16, 16); Pow2Add(32, 32); Pow2Add(64, 64);
    Pow2Add(128, 64); Pow2Add(192, 32); Pow2Add(224, 16); Pow2Add(240, 8); Pow2Add(248, 6);
  }

  /** Digit k is (n >> 254k) mod 2^254. */
  lemma {:induction false} DigitIsShift(n: nat, k: nat)
    ensures Digit(n, k) == (n / Pow2(254 * k)) % Pow2(254)
    decreases k
  {
    FieldIsPow2();
    if k > 0 {
      DigitIsShift(n / FIELD, k - 1);
      assert 254 * k == 254 + 254 * (k - 1);
      Pow2Add(254, 254 * (k - 1));
      DivDiv(n, FIELD, Pow2(254 * (k - 1)));
    }
  }

  /** The node that carries digit k of a chunk whose number is n. */
  function NodeOf(n: nat, k: nat): Digest
  {
    ToLE(Digit(n, k), NODE_SIZE)
  }

  /** The 128 bytes a chunk expands to: its four digits, 32 bytes each. */
  function PaddedChunk(c: SourceChunk): (e: Bytes)
    ensures |e| == SLAB_CHUNK_SIZE
  {
    NodeOf(LE(c), 0) + NodeOf(LE(c), 1) + NodeOf(LE(c), 2) + NodeOf(LE(c), 3)
  }

  /** Source chunk j of s. */
  function ChunkAt(s: Bytes, j: nat): SourceChunk
    requires SOURCE_CHUNK_SIZE * (j + 1) <= |s|
  {
    s[SOURCE_CHUNK_SIZE * j..SOURCE_CHUNK_SIZE * (j + 1)]
  }

  /** The first n source chunks of s, expanded in turn. */
  function Padded(s: Bytes, n: nat): (e: Bytes)
    requires SOURCE_CHUNK_SIZE * n <= |s|
    ensures |e| == SLAB_CHUNK_SIZE * n
  {
    if n == 0 then [] else Padded(s, n - 1) + PaddedChunk(ChunkAt(s, n - 1))
  }

  /** Slab j of the expansion is that of chunk j. */
  lemma {:induction false} PaddedAt(s: Bytes, n: nat, j: nat)
    requires SOURCE_CHUNK_SIZE * n <= |s| && j < n
    ensures Padded(s, n)[SLAB_CHUNK_SIZE * j..SLAB_CHUNK_SIZE * (j + 1)] == PaddedChunk(ChunkAt(s, j))
    decreases n
  {
    if j < n - 1 {
      PaddedAt(s, n - 1, j);
    }
  }

  // ----- the bit shuffle

  /** (x << (8 - k)) | (y >> k): the seam between two neighbouring source bytes. */
  function Seam(x: Byte, y: Byte, k: nat): Byte
    requires k <= 8
  {
    ByteOr(Shl(x, 8 - k), ByteShr(y, k))
  }

  /** Byte i of an expanded chunk, as the shuffle writes it, before any 2-bit shim is forced. */
  function ShuffledByte(c: SourceChunk, i: nat): Byte
    requires i < SLAB_CHUNK_SIZE
  {
    if i < 32 then c[i]
    else if i < 64 then Seam(c[i], c[i - 1], 6)
    else if i < 96 then Seam(c[i], c[i - 1], 4)
    else if i < 127 then Seam(c[i], c[i - 1], 2)
    else ByteShr(c[126], 2)
  }

  /** The same with the shims: the top two bits of bytes 31, 63 and 95 are cleared. */
  function ShimmedByte(c: SourceChunk, i: nat): Byte
    requires i < SLAB_CHUNK_SIZE
  {
    if i == 31 || i == 63 || i == 95 then ByteAnd(ShuffledByte(c, i), 0x3F) else ShuffledByte(c, i)
  }

  function Shuffled(c: SourceChunk): (e: Bytes)
    ensures |e| == SLAB_CHUNK_SIZE
  {
    seq(SLAB_CHUNK_SIZE, i requires 0 <= i < SLAB_CHUNK_SIZE => ShimmedByte(c, i))
  }

  lemma SeamSum(x: Byte, y: Byte, k: nat)
    requires k <= 8
    requires LowBitsZero(Val(Shl(x, 8 - k)), 8 - k) && Shr(Shr(Val(y), k), 8 - k) == 0
    ensures Val(Seam(x, y, k)) == Val(Shl(x, 8 - k)) + Shr(Val(y), k)
  {
    OrDisjoint(Val(Shl(x, 8 - k)), Shr(Val(y), k), 8 - k);
  }

  lemma SeamTwo(x: Byte, y: Byte)
    ensures Val(Seam(x, y, 6)) == 4 * (Val(x) % 64) + Val(y) / 64
  {
    ShlValues(x);
    ShrValues(Val(y));
    ShrValues(Val(y) / 64);
    LowBitsOfMultiple(Val(x) % 64);
    SeamSum(x, y, 6);
  }

  lemma SeamFour(x: Byte, y: Byte)
    ensures Val(Seam(x, y, 4)) == 16 * (Val(x) % 16) + Val(y) / 16
  {
    ShlValues(x);
    ShrValues(Val(y));
    ShrValues(Val(y) / 16);
    LowBitsOfMultiple(Val(x) % 16);
    SeamSum(x, y, 4);
  }

  lemma SeamSix(x: Byte, y: Byte)
    ensures Val(Seam(x, y, 2)) == 64 * (Val(x) % 4) + Val(y) / 4
  {
    ShlValues(x);
    ShrValues(Val(y));
    ShrValues(Val(y) / 4);
    LowBitsOfMultiple(Val(x) % 4);
    SeamSum(x, y, 2);
  }

  // ----- the shuffle computes the digits

  /** The factor by which node k's bit stream is shifted: 4^k. */
  function Times(k: nat, x: nat): nat
    requires k < 4
  {
    if k == 0 then x else if k == 1 then 4 * x else if k == 2 then 16 * x else 64 * x
  }

  /** The bits of a byte of value v that stay in place when shifted by node k's factor. */
  function Low(k: nat, v: nat): nat
    requires k < 4
  {
    Times(k, v) % 256
  }

  /** The bits that move into the next byte. */
  function High(k: nat, v: nat): nat
    requires k < 4
  {
    Times(k, v) / 256
  }

  function CarryAt(k: nat, s: Bytes, c: nat, j: nat): nat
    requires k < 4 && j <= |s|
  {
    if j == 0 then c else High(k, Val(s[j - 1]))
  }

  /** Byte stream t is stream s multiplied by 4^k, with c shifted in at the bottom. */
  ghost predicate Shifted(k: nat, s: Bytes, t: Bytes, c: nat)
    requires k < 4
  {
    && |t| == |s|
    && forall j :: 0 <= j < |s| ==> Val(t[j]) == Low(k, Val(s[j])) + CarryAt(k, s, c, j)
  }

  lemma {:induction false} ShiftedValue(k: nat, s: Bytes, t: Bytes, c: nat)
    requires k < 4 && Shifted(k, s, t, c)
    ensures LE(t) + Pow2(8 * |s|) * CarryAt(k, s, c, |s|) == c + Times(k, LE(s))
  {
    if |s| > 0 {
      var c' := High(k, Val(s[0]));
      ShiftedTail(k, s, t, c);
      ShiftedValue(k, s[1..], t[1..], c');
      assert CarryAt(k, s[1..], c', |s| - 1) == CarryAt(k, s, c, |s|);
      Pow2Eight(|s|);
      assert Val(t[0]) == Low(k, Val(s[0])) + CarryAt(k, s, c, 0);
      ShiftedStep(k, Val(s[0]), LE(s[1..]), Val(t[0]), LE(t[1..]), c, Pow2(8 * (|s| - 1)), CarryAt(k, s, c, |s|));
    }
  }

  lemma ShiftedTail(k: nat, s: Bytes, t: Bytes, c: nat)
    requires k < 4 && |s| > 0 && Shifted(k, s, t, c)
    ensures Shifted(k, s[1..], t[1..], High(k, Val(s[0])))
  {
  }

  lemma ShiftedStep(k: nat, s0: nat, s': nat, t0: nat, t': nat, c: nat, w: nat, carry: nat)
    requires k < 4
    requires t0 == Low(k, s0) + c
    requires t' + w * carry == High(k, s0) + Times(k, s')
    ensures t0 + 256 * t' + (256 * w) * carry == c + Times(k, s0 + 256 * s')
  {
  }

  /** 31 bytes and six bits are 254 bits. */
  lemma FieldBytes(n: nat)
    requires n == 32
    ensures FIELD == 64 * Pow2(8 * (n - 1)) && 4 * FIELD == Pow2(8 * n)
  {
    FieldIsPow2();
    SmallPowers();
    Pow2Add(248, 6);
    Pow2Eight(n);
  }

  /**
   One 32-byte node: cutting the top two bits off the shifted stream leaves a 254-bit number, and
   the bits cut off are exactly the carry into the next node.
   */
  lemma ShimmedNode(k: nat, s: Bytes, t: Bytes, e: Bytes, c: nat)
    requires k < 3 && |s| == |t| == |e| == 32
    requires Shifted(k, s, t, c)
    requires e == t[31 := ByteAnd(t[31], 0x3F)]
    ensures var w := Pow2(8 * (|t| - 1));
      && LE(e) < 64 * w
      && c + Times(k, LE(s)) == LE(e) + (64 * w) * High(k + 1, Val(s[31]))
  {
    TopByteCut(t, e);
    ShiftedTopByte(k, s, t, c);
    TopBits(k, Val(s[31]), Val(s[30]));
    CutTop(LE(t[..31]), Val(t[31]), Pow2(8 * (|t| - 1)), High(k, Val(s[31])), High(k + 1, Val(s[31])));
  }

  lemma TopByteCut(t: Bytes, e: Bytes)
    requires |t| == 32 && e == t[31 := ByteAnd(t[31], 0x3F)]
    ensures var low, w := LE(t[..31]), Pow2(8 * (|t| - 1));
      && low < w
      && LE(t) == low + w * Val(t[31])
      && LE(e) == low + w * (Val(t[31]) % 64)
  {
    LELastByte(t);
    LELastByte(e);
    assert e[..31] == t[..31];
    AndSixBits(Val(t[31]));
    LEBound(t[..31]);
  }

  lemma ShiftedTopByte(k: nat, s: Bytes, t: Bytes, c: nat)
    requires k < 3 && |s| == |t| == 32
    requires Shifted(k, s, t, c)
    ensures Val(t[31]) == Low(k, Val(s[31])) + High(k, Val(s[30]))
    ensures c + Times(k, LE(s)) == LE(t) + (256 * Pow2(8 * (|t| - 1))) * High(k, Val(s[31]))
  {
    ShiftedValue(k, s, t, c);
    Pow2Eight(|s|);
    assert CarryAt(k, s, c, 31) == High(k, Val(s[30]));
  }

  /** The two bits cut off the top byte and the carry out of it are the top bits of the source byte. */
  lemma TopBits(k: nat, x: nat, y: nat)
    requires k < 3 && x < 256 && y < 256
    ensures (Low(k, x) + High(k, y)) / 64 + 4 * High(k, x) == High(k + 1, x)
  {
    LowHigh(x, 1, 4, 64);
    LowHigh(x, 2, 16, 16);
    LowHigh(x, 3, 64, 4);
    if k == 1 {
      LowHigh(y, 1, 4, 64);
      TopQuotient(x, 4, 16, y / 64);
    } else if k == 2 {
      LowHigh(y, 2, 16, 16);
      TopQuotient(x, 16, 4, y / 16);
    }
  }

  lemma TopQuotient(x: nat, d: nat, m: nat, c: nat)
    requires (d == 4 && m == 16) || (d == 16 && m == 4)
    requires c < d
    ensures (d * (x % (4 * m)) + c) / 64 + 4 * (x / (4 * m)) == x / m
  {
    var r := x % (4 * m);
    var q, s := r / m, r % m;
    assert r == m * q + s;
    DivUnique(d * r + c, 64, q, d * s + c);
    assert x == m * (4 * (x / (4 * m)) + q) + s;
    DivUnique(x, m, 4 * (x / (4 * m)) + q, s);
  }

  lemma CutTop(low: nat, top: nat, w: nat, carry: nat, next: nat)
    requires low < w && top < 256 && next == top / 64 + 4 * carry
    ensures low + w * (top % 64) < 64 * w
    ensures low + w * top + (256 * w) * carry == low + w * (top % 64) + (64 * w) * next
  {
    var cut, kept := top / 64, top % 64;
    assert w * top == w * kept + 64 * (w * cut) by { assert top == kept + 64 * cut; }
    MulMonotone(kept, 63, w);
    assert (64 * w) * next == 64 * (w * cut) + 256 * (w * carry);
    assert (256 * w) * carry == 256 * (w * carry);
  }

  /** The bits of earlier bytes that node k starts with. */
  function CarryIn(c: SourceChunk, k: nat): nat
    requires k < 4
  {
    if k == 0 then 0 else High(k, Val(c[32 * k - 1]))
  }

  /** Bytes 32k .. 32k + 31 of the shuffle, before the shim. */
  function ShuffledNode(c: SourceChunk, k: nat): (t: Bytes)
    requires k < 4
    ensures |t| == 32
  {
    seq(32, j requires 0 <= j < 32 => ShuffledByte(c, 32 * k + j))
  }

  lemma ShuffledByteValue(c: SourceChunk, k: nat, j: nat)
    requires k < 4 && j < 32 && 32 * k + j < 127
    ensures Val(ShuffledByte(c, 32 * k + j)) ==
            Low(k, Val(c[32 * k + j])) + if k == 0 then 0 else High(k, Val(c[32 * k + j - 1]))
  {
    if k > 0 {
      SeamShifts(c[32 * k + j], c[32 * k + j - 1], k);
    }
  }

  /** A seam is one byte of a stream multiplied by 4^k. */
  lemma SeamShifts(x: Byte, y: Byte, k: nat)
    requires 1 <= k < 4
    ensures Val(Seam(x, y, 8 - 2 * k)) == Low(k, Val(x)) + High(k, Val(y))
  {
    if k == 1 {
      SeamTwo(x, y);
      LowHigh(Val(x), k, 4, 64);
      LowHigh(Val(y), k, 4, 64);
    } else if k == 2 {
      SeamFour(x, y);
      LowHigh(Val(x), k, 16, 16);
      LowHigh(Val(y), k, 16, 16);
    } else {
      SeamSix(x, y);
      LowHigh(Val(x), k, 64, 4);
      LowHigh(Val(y), k, 64, 4);
    }
  }

  lemma LowHigh(v: nat, k: nat, d: nat, m: nat)
    requires (k == 1 && d == 4 && m == 64) || (k == 2 && d == 16 && m == 16) || (k == 3 && d == 64 && m == 4)
    ensures Low(k, v) == d * (v % m) && High(k, v) == v / m
  {
    TimesMod(v, d, m);
    assert Times(k, v) == v * d;
  }

  /** Each node the shuffle writes is a shifted window of the chunk. */
  lemma ShuffleShifts(c: SourceChunk, k: nat)
    requires k < 4
    ensures var n := if k < 3 then 32 else 31;
      Shifted(k, c[32 * k..32 * k + n], ShuffledNode(c, k)[..n], CarryIn(c, k))
  {
    var n := if k < 3 then 32 else 31;
    var s, t := c[32 * k..32 * k + n], ShuffledNode(c, k)[..n];
    forall j | 0 <= j < n
      ensures Val(t[j]) == Low(k, Val(s[j])) + CarryAt(k, s, CarryIn(c, k), j)
    {
      ShuffledByteValue(c, k, j);
    }
  }

  lemma ShimmedByteAt(c: SourceChunk, k: nat)
    requires k < 3
    ensures var t := ShuffledNode(c, k);
      Shuffled(c)[32 * k..32 * k + 32] == t[31 := ByteAnd(t[31], 0x3F)]
  {
    var e, t := Shuffled(c), ShuffledNode(c, k);
    var shim := t[31 := ByteAnd(t[31], 0x3F)];
    forall j | 0 <= j < 32
      ensures e[32 * k..32 * k + 32][j] == shim[j]
    {
      ShimIsLast(c, k, j);
      assert e[32 * k + j] == ShimmedByte(c, 32 * k + j) && t[j] == ShuffledByte(c, 32 * k + j);
    }
  }

  lemma ShimIsLast(c: SourceChunk, k: nat, j: nat)
    requires k < 3 && j < 32
    ensures ShimmedByte(c, 32 * k + j) ==
            if j == 31 then ByteAnd(ShuffledByte(c, 32 * k + j), 0x3F) else ShuffledByte(c, 32 * k + j)
  {
    var i := 32 * k + j;
    if k == 0 {
      assert i == j;
    } else if k == 1 {
      assert i == 32 + j;
    } else {
      assert i == 64 + j;
    }
    assert i == 31 || i == 63 || i == 95 <==> j == 31;
  }

  // ----- the nodes as numbers

  /** Node k the shuffle writes. */
  function NodeNum(c: SourceChunk, k: nat): nat
    requires k < 4
  {
    LE(Shuffled(c)[32 * k..32 * k + 32])
  }

  /** What is left of the chunk's number once the first k nodes are taken off. */
  function Rest(c: SourceChunk, k: nat): nat
    requires k < 4
  {
    CarryIn(c, k) + Times(k, LE(c[32 * k..]))
  }

  lemma NodeValue(c: SourceChunk, k: nat)
    requires k < 3
    ensures NodeNum(c, k) < FIELD
    ensures CarryIn(c, k) + Times(k, LE(c[32 * k..32 * k + 32])) == NodeNum(c, k) + FIELD * CarryIn(c, k + 1)
  {
    var s, t := c[32 * k..32 * k + 32], ShuffledNode(c, k);
    assert Shifted(k, s, t, CarryIn(c, k)) by {
      ShuffleShifts(c, k);
      assert t[..32] == t;
    }
    assert s[31] == c[32 * (k + 1) - 1];
    ShimmedByteAt(c, k);
    ShimmedField(k, s, t, Shuffled(c)[32 * k..32 * k + 32], CarryIn(c, k), CarryIn(c, k + 1));
  }

  lemma ShimmedField(k: nat, s: Bytes, t: Bytes, e: Bytes, c: nat, c': nat)
    requires k < 3 && |s| == |t| == |e| == 32
    requires Shifted(k, s, t, c) && c' == High(k + 1, Val(s[31]))
    requires e == t[31 := ByteAnd(t[31], 0x3F)]
    ensures LE(e) < FIELD && c + Times(k, LE(s)) == LE(e) + FIELD * c'
  {
    ShimmedNode(k, s, t, e, c);
    FieldBytes(|t|);
  }

  /** Taking one node off. */
  lemma NodeStep(c: SourceChunk, k: nat)
    requires k < 3
    ensures NodeNum(c, k) < FIELD
    ensures Rest(c, k) == NodeNum(c, k) + FIELD * Rest(c, k + 1)
  {
    var s, rest := c[32 * k..32 * k + 32], c[32 * (k + 1)..];
    assert c[32 * k..] == s + rest;
    LEAppend(s, rest);
    FieldBytes(|s|);
    NodeValue(c, k);
    TimesStep(k, LE(s), LE(rest));
  }

  lemma TimesStep(k: nat, x: nat, y: nat)
    requires k < 3
    ensures Times(k, x + (4 * FIELD) * y) == Times(k, x) + FIELD * Times(k + 1, y)
  {
  }

  /** The last node takes all that is left: 31 shifted bytes and the six bits that remain. */
  lemma LastNode(c: SourceChunk)
    ensures NodeNum(c, 3) == Rest(c, 3) < FIELD
  {
    var s, t := c[96..], ShuffledNode(c, 3);
    LastNodeBytes(c);
    assert s == c[32 * 3..32 * 3 + 31];
    ShuffleShifts(c, 3);
    ShiftedValue(3, s, t[..31], CarryIn(c, 3));
    LELastByte(t);
    LastByteValue(c);
    LEBound(s);
    FieldBytes(|t|);
  }

  lemma LastByteValue(c: SourceChunk)
    ensures Val(ShuffledNode(c, 3)[31]) == High(3, Val(c[126]))
  {
    ShrTwo(Val(c[126]));
    assert ShuffledNode(c, 3)[31] == ShuffledByte(c, 32 * 3 + 31);
  }

  lemma LastNodeBytes(c: SourceChunk)
    ensures Shuffled(c)[96..128] == ShuffledNode(c, 3)
  {
  }

  /** The nodes are the digits of what is left, one after the other. */
  lemma {:induction false} NodesAreDigits(c: SourceChunk, i: nat, k: nat)
    requires i + k < 4
    ensures Digit(Rest(c, i), k) == NodeNum(c, i + k)
    decreases k
  {
    if i == 3 {
      LastNode(c);
      DivUnique(Rest(c, i), FIELD, 0, NodeNum(c, i));
    } else {
      NodeStep(c, i);
      DivUnique(Rest(c, i), FIELD, Rest(c, i + 1), NodeNum(c, i));
      if k > 0 {
        NodesAreDigits(c, i + 1, k - 1);
      }
    }
  }

  lemma RestAll(c: SourceChunk)
    ensures Rest(c, 0) == LE(c)
  {
  }

  /** The bit shuffle writes exactly the base-2^254 digits of the chunk. */
  lemma ShuffleIsExpansion(c: SourceChunk)
    ensures Shuffled(c) == PaddedChunk(c)
  {
    NodeIsDigit(c, 0);
    NodeIsDigit(c, 1);
    NodeIsDigit(c, 2);
    NodeIsDigit(c, 3);
    FourPieces(Shuffled(c));
  }

  lemma NodeIsDigit(c: SourceChunk, k: nat)
    requires k < 4
    ensures Shuffled(c)[32 * k..32 * k + 32] == NodeOf(LE(c), k)
  {
    RestAll(c);
    NodesAreDigits(c, 0, k);
    ToLEOfLE(Shuffled(c)[32 * k..32 * k + 32]);
  }

  lemma FourPieces(e: Bytes)
    requires |e| == 128
    ensures e == e[32 * 0..32 * 0 + 32] + e[32 * 1..32 * 1 + 32] + e[32 * 2..32 * 2 + 32] + e[32 * 3..32 * 3 + 32]
  {
  }

  // ----- the operation

  /** One of the three inner loops: output bytes lo + 1 .. hi join the bits of neighbouring input bytes. */
  method JoinBytes(input: SourceChunk, slab: array<Byte>, base: nat, lo: nat, hi: nat, k: nat)
    requires lo <= hi < SOURCE_CHUNK_SIZE && k <= 8
    requires base + SLAB_CHUNK_SIZE <= slab.Length
    modifies slab
    ensures forall m :: lo < m <= hi ==> slab[base + m] == Seam(input[m], input[m - 1], k)
    ensures forall m :: 0 <= m < slab.Length && !(base + lo < m <= base + hi) ==> slab[m] == old(slab[m])
  {
    for i := lo to hi
      invariant forall m :: lo < m <= i ==> slab[base + m] == Seam(input[m], input[m - 1], k)
      invariant forall m :: 0 <= m < slab.Length && !(base + lo < m <= base + i) ==> slab[m] == old(slab[m])
    {
      slab[base + 1 + i] := ByteOr(Shl(input[i + 1], 8 - k), ByteShr(input[i], k));
    }
  }

  /** Bytes lo + 1 .. hi are the joined bits of neighbouring input bytes, the last of them with its shim. */
  predicate JoinedRun(input: SourceChunk, after: Bytes, base: nat, lo: nat, hi: nat, k: nat)
    requires lo < hi < SOURCE_CHUNK_SIZE && k <= 8 && base + SLAB_CHUNK_SIZE <= |after|
  {
    && (forall m :: lo < m < hi ==> after[base + m] == Seam(input[m], input[m - 1], k))
    && after[base + hi] == ByteAnd(Seam(input[hi], input[hi - 1], k), 0x3F)
  }

  /** The same, and the top two bits of the last byte are cleared. */
  method JoinAndShim(input: SourceChunk, slab: array<Byte>, base: nat, lo: nat, hi: nat, k: nat)
    requires lo < hi < SOURCE_CHUNK_SIZE && k <= 8
    requires base + SLAB_CHUNK_SIZE <= slab.Length
    modifies slab
    ensures JoinedRun(input, slab[..], base, lo, hi, k)
    ensures forall m :: 0 <= m < slab.Length && !(base + lo < m <= base + hi) ==> slab[m] == old(slab[m])
  {
    JoinBytes(input, slab, base, lo, hi, k);
    slab[base + hi] := ByteAnd(slab[base + hi], 0x3F);
  }

  /** What is not written to stays joined. */
  lemma KeptRun(input: SourceChunk, before: Bytes, after: Bytes, base: nat, lo: nat, hi: nat, k: nat)
    requires lo < hi < SOURCE_CHUNK_SIZE && k <= 8 && base + SLAB_CHUNK_SIZE <= |before| == |after|
    requires JoinedRun(input, before, base, lo, hi, k)
    requires forall m :: base + lo < m <= base + hi ==> after[m] == before[m]
    ensures JoinedRun(input, after, base, lo, hi, k)
  {
  }

  /** One turn of the outer loop: expand a chunk into the slab at base. */
  method ExpandChunk(input: SourceChunk, slab: array<Byte>, base: nat)
    requires base + SLAB_CHUNK_SIZE <= slab.Length
    modifies slab
    ensures slab[..base + SLAB_CHUNK_SIZE] == old(slab[..base]) + PaddedChunk(input)
    ensures forall m :: base + SLAB_CHUNK_SIZE <= m < slab.Length ==> slab[m] == old(slab[m])
  {
    for i := 0 to 32
      invariant forall m :: 0 <= m < i ==> slab[base + m] == input[m]
      invariant forall m :: 0 <= m < slab.Length && !(base <= m < base + i) ==> slab[m] == old(slab[m])
    {
      slab[base + i] := input[i];
    }
    slab[base + 31] := ByteAnd(slab[base + 31], 0x3F);
    JoinAndShim(input, slab, base, 31, 63, 6);
    ghost var first := slab[..];
    JoinAndShim(input, slab, base, 63, 95, 4);
    KeptRun(input, first, slab[..], base, 31, 63, 6);
    ghost var second := slab[..];
    JoinBytes(input, slab, base, 95, 126, 2);
    slab[base + 127] := ByteShr(input[126], 2);
    KeptRun(input, second, slab[..], base, 31, 63, 6);
    KeptRun(input, second, slab[..], base, 63, 95, 4);
    ChunkExpanded(old(slab[..]), slab[..], base, input);
  }

  /** Behind what was there before, the shuffled bytes are the expansion of the chunk. */
  lemma ChunkExpanded(before: Bytes, after: Bytes, base: nat, input: SourceChunk)
    requires base + SLAB_CHUNK_SIZE <= |after| == |before| && after[..base] == before[..base]
    requires forall m :: 0 <= m < 31 ==> after[base + m] == input[m]
    requires JoinedRun(input, after, base, 31, 63, 6)
    requires JoinedRun(input, after, base, 63, 95, 4)
    requires forall m :: 95 < m <= 126 ==> after[base + m] == Seam(input[m], input[m - 1], 2)
    requires after[base + 31] == ByteAnd(input[31], 0x3F) && after[base + 127] == ByteShr(input[126], 2)
    ensures after[..base + SLAB_CHUNK_SIZE] == before[..base] + PaddedChunk(input)
  {
    var e := after[base..base + SLAB_CHUNK_SIZE];
    forall m | 0 <= m < SLAB_CHUNK_SIZE
      ensures e[m] == ShimmedByte(input, m)
    {
      assert e[m] == after[base + m];
    }
    assert e == Shuffled(input);
    ShuffleIsExpansion(input);
    SplitTake(after, base, SLAB_CHUNK_SIZE);
  }

  /** Expands every whole chunk of inSlab; a partial last chunk is ignored. */
  method DataPadding(inSlab: Bytes) returns (outSlab: array<Byte>)
    ensures fresh(outSlab) && outSlab[..] == Padded(inSlab, |inSlab| / SOURCE_CHUNK_SIZE)
  {
    var chunkCount := |inSlab| / SOURCE_CHUNK_SIZE;
    outSlab := new Byte[SLAB_CHUNK_SIZE * chunkCount];
    for j := 0 to chunkCount
      invariant outSlab[..SLAB_CHUNK_SIZE * j] == Padded(inSlab, j)
    {
      var base := SLAB_CHUNK_SIZE * j;
      ExpandChunk(ChunkAt(inSlab, j), outSlab, base);
      assert outSlab[..base + SLAB_CHUNK_SIZE] == Padded(inSlab, j) + PaddedChunk(ChunkAt(inSlab, j));
    }
    assert outSlab[..SLAB_CHUNK_SIZE * chunkCount] == outSlab[..];
  }

  lemma SplitTake(s: Bytes, a: nat, n: nat)
    requires a + n <= |s|
    ensures s[..a + n] == s[..a] + s[a..a + n]
  {
  }

  // ----- the inverse

  /** The number whose first n base-2^254 digits are the nodes of slab e, from node i on. */
  function Composed(e: Bytes, i: nat): nat
    requires |e| == SLAB_CHUNK_SIZE && i <= 4
    decreases 4 - i
  {
    if i == 4 then 0 else LE(e[32 * i..32 * i + 32]) + FIELD * Composed(e, i + 1)
  }

  /** Reads four 32-byte nodes back as one 127-byte chunk. */
  function UnpaddedChunk(e: Bytes): (c: SourceChunk)
    requires |e| == SLAB_CHUNK_SIZE
  {
    ToLE(Composed(e, 0), SOURCE_CHUNK_SIZE)
  }

  /** Reads n slabs back. */
  function Unpadded(e: Bytes, n: nat): (s: Bytes)
    requires |e| == SLAB_CHUNK_SIZE * n
    ensures |s| == SOURCE_CHUNK_SIZE * n
  {
    if n == 0 then []
    else Unpadded(e[..SLAB_CHUNK_SIZE * (n - 1)], n - 1) + UnpaddedChunk(e[SLAB_CHUNK_SIZE * (n - 1)..])
  }

  lemma {:induction false} ComposedRest(c: SourceChunk, i: nat)
    requires i < 4
    ensures Composed(Shuffled(c), i) == Rest(c, i)
    decreases 4 - i
  {
    if i == 3 {
      LastNode(c);
      assert Composed(Shuffled(c), 4) == 0;
    } else {
      NodeStep(c, i);
      ComposedRest(c, i + 1);
    }
  }

  lemma UnpaddedChunkOfPadded(c: SourceChunk)
    ensures UnpaddedChunk(PaddedChunk(c)) == c
  {
    ShuffleIsExpansion(c);
    ComposedRest(c, 0);
    RestAll(c);
    ToLEOfLE(c);
  }

  /** Padding loses nothing: any number of whole chunks can be read back. */
  lemma {:induction false} UnpaddedOfPadded(s: Bytes, n: nat)
    requires |s| == SOURCE_CHUNK_SIZE * n
    ensures Unpadded(Padded(s, n), n) == s
  {
    if n > 0 {
      var m := n - 1;
      var front, last := s[..SOURCE_CHUNK_SIZE * m], s[SOURCE_CHUNK_SIZE * m..];
      UnpaddedOfPadded(front, m);
      UnpaddedWithChunk(front, last, m);
      assert s == front + last;
    }
  }

  lemma UnpaddedWithChunk(front: Bytes, last: SourceChunk, n: nat)
    requires |front| == SOURCE_CHUNK_SIZE * n
    requires Unpadded(Padded(front, n), n) == front
    ensures Unpadded(Padded(front + last, n + 1), n + 1) == front + last
  {
    PaddedPrefix(front + last, front, n);
    assert ChunkAt(front + last, n) == last;
    UnpaddedNext(Padded(front, n), PaddedChunk(last), n);
    UnpaddedChunkOfPadded(last);
  }

  lemma UnpaddedNext(e: Bytes, slab: Bytes, n: nat)
    requires |e| == SLAB_CHUNK_SIZE * n && |slab| == SLAB_CHUNK_SIZE
    ensures Unpadded(e + slab, n + 1) == Unpadded(e, n) + UnpaddedChunk(slab)
  {
  }

  lemma {:induction false} PaddedPrefix(s: Bytes, front: Bytes, n: nat)
    requires front <= s && SOURCE_CHUNK_SIZE * n <= |front|
    ensures Padded(s, n) == Padded(front, n)
  {
    if n > 0 {
      PaddedPrefix(s, front, n - 1);
      assert ChunkAt(s, n - 1) == ChunkAt(front, n - 1);
    }
  }

  /** Every node carries 254 bits. */
  lemma NodeBelowField(n: nat, k: nat)
    ensures LE(NodeOf(n, k)) == Digit(n, k) < FIELD
  {
    FieldIsPow2();
    Pow2Monotone(254, 8 * NODE_SIZE);
    LEOfToLE(Digit(n, k), NODE_SIZE);
  }
}
