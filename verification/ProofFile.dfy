/** Proofs as text: hexadecimal siblings and paths, and reading them back. */
module ProofFile {
  import opened Bytes
  import opened MerkleTree

  // ----- hexadecimal

  const HEX_DIGITS: string := "0123456789abcdef"

  function HexChar(v: nat): char
    requires v < 16
  {
    HEX_DIGITS[v]
  }

  /** The value of a hexadecimal digit of either case. */
  function HexVal(c: char): (r: Option<nat>)
    ensures r.Some? ==> r.value < 16
  {
    if '0' <= c <= '9' then Some((c - '0') as nat)
    else if 'a' <= c <= 'f' then Some((c - 'a') as nat + 10)
    else if 'A' <= c <= 'F' then Some((c - 'A') as nat + 10)
    else None
  }

  lemma HexDigit(v: nat)
    requires v < 16
    ensures HexVal(HexChar(v)) == Some(v)
  {
  }

  function EncodeToString(b: Bytes): string {
    if |b| == 0 then ""
    else [HexChar(Val(b[0]) / 16), HexChar(Val(b[0]) % 16)] + EncodeToString(b[1..])
  }

  function DecodeString(s: string): Result<Bytes> {
    if |s| == 0 then Ok([])
    else if |s| == 1 then Err("odd length hex string")
    else
      var hi, lo, rest := HexVal(s[0]), HexVal(s[1]), DecodeString(s[2..]);
      if hi == None || lo == None then Err("invalid byte")
      else if rest.Err? then rest
      else Ok([(16 * hi.value + lo.value) as Byte] + rest.value)
  }

  /** Two lower-case digits a byte, the high half first. */
  lemma {:induction false} EncodedAt(b: Bytes, i: nat)
    requires i < |b|
    ensures |EncodeToString(b)| == 2 * |b|
    ensures EncodeToString(b)[2 * i] == "0123456789abcdef"[Val(b[i]) / 16]
    ensures EncodeToString(b)[2 * i + 1] == "0123456789abcdef"[Val(b[i]) % 16]
  {
    EncodedLength(b[1..]);
    if i > 0 {
      EncodedAt(b[1..], i - 1);
    }
  }

  lemma {:induction false} EncodedLength(b: Bytes)
    ensures |EncodeToString(b)| == 2 * |b|
  {
    if |b| > 0 {
      EncodedLength(b[1..]);
    }
  }

  /** The digits of either case, and no other characters. */
  lemma HexValExactly(c: char, v: nat)
    requires v < 16
    ensures HexVal(c) == Some(v) <==> c == "0123456789abcdef"[v] || c == "0123456789ABCDEF"[v]
  {
  }

  predicate AllDigits(s: string) {
    forall i :: 0 <= i < |s| ==> HexVal(s[i]).Some?
  }

  /** A string decodes exactly when it is digits, two for every byte; and then to those bytes. */
  lemma {:induction false} DecodeExactly(s: string)
    ensures DecodeString(s).Ok? <==> |s| % 2 == 0 && AllDigits(s)
    ensures DecodeString(s).Ok? ==>
      var b := DecodeString(s).value;
      2 * |b| == |s| && forall i :: 0 <= i < |b| ==> DecodedAt(s, b, i)
  {
    if |s| >= 2 {
      DecodeExactly(s[2..]);
      DigitsTail(s);
      if DecodeString(s).Ok? {
        var b, rest := DecodeString(s).value, DecodeString(s[2..]).value;
        assert b == [b[0]] + rest;
        forall i | 0 <= i < |b|
          ensures DecodedAt(s, b, i)
        {
          assert i > 0 ==> DecodedAt(s[2..], rest, i - 1);
        }
      }
    }
  }

  predicate DecodedAt(s: string, b: Bytes, i: nat)
    requires i < |b| && 2 * |b| <= |s|
  {
    var hi, lo := HexVal(s[2 * i]), HexVal(s[2 * i + 1]);
    hi.Some? && lo.Some? && Val(b[i]) == 16 * hi.value + lo.value
  }

  lemma DigitsTail(s: string)
    requires |s| >= 2
    ensures AllDigits(s) <==> HexVal(s[0]).Some? && HexVal(s[1]).Some? && AllDigits(s[2..])
  {
    if HexVal(s[0]).Some? && HexVal(s[1]).Some? && AllDigits(s[2..]) {
      forall i | 0 <= i < |s|
        ensures HexVal(s[i]).Some?
      {
        assert i >= 2 ==> s[2..][i - 2] == s[i];
      }
    }
  }

  function ConvertToHexPrefix(hexBytes: Bytes): string {
    "0x" + EncodeToString(hexBytes)
  }

  function TrimPrefix(s: string): string {
    if |s| >= 2 && s[0] == '0' && s[1] == 'x' then s[2..] else s
  }

  function ParseHexWithPrefix(hexStr: string): Result<Bytes> {
    DecodeString(TrimPrefix(hexStr))
  }

  lemma DecodeByte(hi: nat, lo: nat, rest: string)
    requires hi < 16 && lo < 16
    ensures DecodeString([HexChar(hi), HexChar(lo)] + rest) ==
            var r := DecodeString(rest); if r.Err? then r else Ok([(16 * hi + lo) as Byte] + r.value)
  {
    HexDigit(hi);
    HexDigit(lo);
    assert ([HexChar(hi), HexChar(lo)] + rest)[2..] == rest;
  }

  lemma {:induction false} DecodeOfEncode(b: Bytes)
    ensures DecodeString(EncodeToString(b)) == Ok(b)
  {
    if |b| > 0 {
      DecodeOfEncode(b[1..]);
      DecodePrinted(b[0], EncodeToString(b[1..]), b[1..]);
      assert b == [b[0]] + b[1..];
    }
  }

  lemma DecodePrinted(b: Byte, rest: string, bs: Bytes)
    requires DecodeString(rest) == Ok(bs)
    ensures DecodeString([HexChar(Val(b) / 16), HexChar(Val(b) % 16)] + rest) == Ok([b] + bs)
  {
    var hi, lo := Val(b) / 16, Val(b) % 16;
    DecodeByte(hi, lo, rest);
    assert (16 * hi + lo) as Byte == b;
  }

  /** Printing bytes with the prefix and parsing them gives the bytes back. */
  lemma HexRoundTrip(b: Bytes)
    ensures ConvertToHexPrefix(b) == "0x" + EncodeToString(b)
    ensures ParseHexWithPrefix(ConvertToHexPrefix(b)) == Ok(b)
  {
    DecodeOfEncode(b);
    assert ConvertToHexPrefix(b)[2..] == EncodeToString(b);
  }

  // ----- paths

  /** A number in hexadecimal without leading zeros. */
  function HexNumber(n: nat): string {
    if n < 16 then [HexChar(n)] else HexNumber(n / 16) + [HexChar(n % 16)]
  }

  function FormatPath(path: nat): string {
    "0x" + HexNumber(path)
  }

  /** Reading digits from the left: the largest word on overflow, zero on a foreign character. */
  function ScanHex(s: string, acc: nat): nat {
    if |s| == 0 then acc
    else match HexVal(s[0])
      case None => 0
      case Some(d) => if 16 * acc + d >= TWO_32 then TWO_32 - 1 else ScanHex(s[1..], 16 * acc + d)
  }

  /** ParseUint(s, 0, 32) with its error ignored, for the prefix the writer uses. */
  function ParsePath(s: string): nat {
    if |s| >= 3 && s[0] == '0' && (s[1] == 'x' || s[1] == 'X') then ScanHex(s[2..], 0) else 0
  }

  /** Digits in front of rest scan to the value v. */
  predicate ScansTo(digits: string, rest: string, v: nat) {
    ScanHex(digits + rest, 0) == ScanHex(rest, v)
  }

  lemma {:induction false} ScanOfNumber(n: nat, rest: string)
    requires n < TWO_32
    ensures ScansTo(HexNumber(n), rest, n)
    decreases n
  {
    if n >= 16 {
      ScanOfNumber(n / 16, [HexChar(n % 16)] + rest);
      ScanNext(n, rest);
    } else {
      ScanDigit(n, rest, 0);
    }
  }

  lemma ScanNext(n: nat, rest: string)
    requires 16 <= n < TWO_32 && ScansTo(HexNumber(n / 16), [HexChar(n % 16)] + rest, n / 16)
    ensures ScansTo(HexNumber(n), rest, n)
  {
    LastDigit(n, n / 16, n % 16);
    ScanLonger(HexNumber(n), HexNumber(n / 16), n / 16, n % 16, n, rest);
  }

  lemma LastDigit(n: nat, q: nat, v: nat)
    requires n >= 16 && q == n / 16 && v == n % 16
    ensures n == 16 * q + v && Same(HexNumber(n), HexNumber(q) + [HexChar(v)])
  {
  }

  lemma ScanLonger(number: string, front: string, q: nat, v: nat, n: nat, rest: string)
    requires v < 16 && n == 16 * q + v < TWO_32 && Same(number, front + [HexChar(v)])
    requires ScansTo(front, [HexChar(v)] + rest, q)
    ensures ScansTo(number, rest, n)
  {
    ScanDigit(v, rest, q);
    Associate(front, [HexChar(v)], rest);
  }

  lemma Associate(a: string, b: string, c: string)
    ensures (a + b) + c == a + (b + c)
  {
  }

  lemma ScanDigit(v: nat, rest: string, acc: nat)
    requires v < 16 && 16 * acc + v < TWO_32
    ensures ScanHex([HexChar(v)] + rest, acc) == ScanHex(rest, 16 * acc + v)
  {
  }

  /** A number too large for its word is read as the largest word. */
  lemma {:induction false} ScanTooLarge(n: nat, rest: string)
    requires n >= TWO_32
    ensures ScanHex(HexNumber(n) + rest, 0) == TWO_32 - 1
    decreases n
  {
    var q, v := n / 16, n % 16;
    var digit := [HexChar(v)];
    LastDigit(n, q, v);
    Associate(HexNumber(q), digit, rest);
    if q < TWO_32 {
      ScanOfNumber(q, digit + rest);
      HexDigit(v);
    } else {
      ScanTooLarge(q, digit + rest);
    }
  }

  /** A foreign character behind digits makes it zero. */
  lemma ScanForeign(n: nat, c: char, rest: string)
    requires n < TWO_32 && HexVal(c) == None
    ensures ScanHex(HexNumber(n) + ([c] + rest), 0) == 0
  {
    ScanOfNumber(n, [c] + rest);
  }

  /** Reading a printed path gives it back, or the largest word if it has more than 32 bits. */
  lemma PathRoundTrip(path: nat)
    ensures FormatPath(path) == "0x" + HexNumber(path)
    ensures ParsePath(FormatPath(path)) == Min(path, 0xFFFF_FFFF)
  {
    if path < TWO_32 {
      ScanOfNumber(path, "");
    } else {
      ScanTooLarge(path, "");
    }
    assert FormatPath(path)[2..] == HexNumber(path) + "";
    NumberNotEmpty(path);
  }

  /** Digit j from the right is that of 16^j. */
  lemma {:induction false} NumberDigit(n: nat, j: nat)
    requires j < |HexNumber(n)|
    ensures FromRight(HexNumber(n), j) == "0123456789abcdef"[n / Pow2(4 * j) % 16]
    decreases j
  {
    if j > 0 {
      LongNumber(n, j);
      NumberDigit(n / 16, j - 1);
      HigherDigit(n, j);
    } else {
      LowestDigit(n, j);
    }
  }

  /** Character j of a string, counted from its end. */
  function FromRight(s: string, j: nat): char
    requires j < |s|
  {
    s[|s| - 1 - j]
  }

  lemma LowestDigit(n: nat, j: nat)
    requires j == 0
    ensures |HexNumber(n)| > 0 && FromRight(HexNumber(n), j) == "0123456789abcdef"[n / Pow2(4 * j) % 16]
  {
    assert Pow2(4 * j) == 1;
    assert FromRight(HexNumber(n), j) == HexChar(n % 16);
  }

  lemma LongNumber(n: nat, j: nat)
    requires 0 < j < |HexNumber(n)|
    ensures j - 1 < |HexNumber(n / 16)| && FromRight(HexNumber(n), j) == FromRight(HexNumber(n / 16), j - 1)
  {
  }

  lemma HigherDigit(n: nat, j: nat)
    requires j > 0
    ensures n / Pow2(4 * j) == n / 16 / Pow2(4 * (j - 1))
  {
    SmallPowers();
    Pow2Add(4, 4 * (j - 1));
    DivDiv(n, 16, Pow2(4 * (j - 1)));
  }

  /** There are no leading zeros. */
  lemma {:induction false} NumberLength(n: nat)
    ensures n < Pow2(4 * |HexNumber(n)|)
    ensures |HexNumber(n)| > 1 ==> Pow2(4 * (|HexNumber(n)| - 1)) <= n
  {
    SmallPowers();
    if n >= 16 {
      var k := |HexNumber(n / 16)|;
      NumberLength(n / 16);
      Pow2Add(4, 4 * k);
      assert Pow2(4 * (k + 1)) == 16 * Pow2(4 * k);
      if k > 1 {
        Pow2Add(4, 4 * (k - 1));
        assert Pow2(4 * k) == 16 * Pow2(4 * (k - 1));
      }
    }
  }

  lemma NumberNotEmpty(n: nat)
    ensures |HexNumber(n)| > 0
  {
  }

  // ----- challenge proofs

  /** The proofs of a run and the printed leaves they are for, collected one by one. */
  class Proofs {
    var leaves: seq<string>
    var proofs: seq<Proof>

    constructor ()
      ensures leaves == [] && proofs == []
    {
      leaves, proofs := [], [];
    }

    method Append(leaf: string, proof: Proof)
      modifies this
      ensures leaves == old(leaves) + [leaf] && proofs == old(proofs) + [proof]
    {
      leaves := leaves + [leaf];
      proofs := proofs + [proof];
    }
  }

  datatype ChallengeProofs = ChallengeProofs(
    randomSeed: nat, leaves: seq<string>, siblings: seq<seq<string>>, paths: seq<string>)

  function PrintedAll(bs: seq<Bytes>): (r: seq<string>)
    ensures |r| == |bs|
    ensures forall i :: 0 <= i < |bs| ==> r[i] == "0x" + EncodeToString(bs[i])
  {
    seq(|bs|, i requires 0 <= i < |bs| => ConvertToHexPrefix(bs[i]))
  }

  /** A string that does not parse reads as no bytes. */
  function ParsedOrEmpty(s: string): (b: Bytes)
    ensures ParseHexWithPrefix(s) == Ok(b) || (ParseHexWithPrefix(s).Err? && b == [])
  {
    var r := ParseHexWithPrefix(s);
    if r.Ok? then r.value else []
  }

  function ParsedAll(ss: seq<string>): (r: seq<Bytes>)
    ensures |r| == |ss|
    ensures forall i :: 0 <= i < |ss| ==> r[i] == ParsedOrEmpty(ss[i])
  {
    seq(|ss|, i requires 0 <= i < |ss| => ParsedOrEmpty(ss[i]))
  }

  lemma ParsedOfPrinted(bs: seq<Bytes>)
    ensures ParsedAll(PrintedAll(bs)) == bs
  {
    forall i | 0 <= i < |bs|
      ensures ParsedAll(PrintedAll(bs))[i] == bs[i]
    {
      HexRoundTrip(bs[i]);
    }
  }

  method PrintAll(bs: seq<Bytes>) returns (r: seq<string>)
    ensures r == PrintedAll(bs)
  {
    var strings := new string[|bs|];
    for i := 0 to |bs|
      invariant forall k :: 0 <= k < i ==> strings[k] == ConvertToHexPrefix(bs[k])
    {
      strings[i] := ConvertToHexPrefix(bs[i]);
    }
    r := strings[..];
  }

  method ParseAll(ss: seq<string>) returns (r: seq<Bytes>)
    ensures r == ParsedAll(ss)
  {
    var bytes := new Bytes[|ss|];
    for i := 0 to |ss|
      invariant forall k :: 0 <= k < i ==> bytes[k] == ParsedOrEmpty(ss[k])
    {
      bytes[i] := ParsedOrEmpty(ss[i]);
    }
    r := bytes[..];
  }

  method NewChallengeProofs(randomness: nat, proofs: Proofs) returns (c: ChallengeProofs)
    ensures c.randomSeed == randomness && IsPrinted(c, proofs.leaves, proofs.proofs)
  {
    c := ChallengeProofs(randomness, proofs.leaves, [], []);
    for i := 0 to |proofs.proofs|
      invariant c.randomSeed == randomness && c.leaves == proofs.leaves
      invariant |c.siblings| == |c.paths| == i
      invariant forall k :: 0 <= k < i ==>
        c.siblings[k] == PrintedAll(proofs.proofs[k].siblings) && c.paths[k] == FormatPath(proofs.proofs[k].path)
    {
      var siblings := PrintAll(proofs.proofs[i].siblings);
      c := c.(siblings := c.siblings + [siblings], paths := c.paths + [FormatPath(proofs.proofs[i].path)]);
    }
  }

  /** Proof i of a file, read back. */
  function ProofAt(c: ChallengeProofs, i: nat): Proof
    requires i < |c.siblings| && i < |c.paths|
  {
    Proof(ParsedAll(c.siblings[i]), ParsePath(c.paths[i]))
  }

  /** Every leaf of the file comes with siblings and a path. */
  predicate HasProofs(c: ChallengeProofs) {
    |c.leaves| <= |c.siblings| && |c.leaves| <= |c.paths|
  }

  /** The proofs of a file, read back. */
  function ProofsOf(c: ChallengeProofs): (r: seq<Proof>)
    requires HasProofs(c)
    ensures |r| == |c.leaves|
  {
    seq(|c.leaves|, i requires 0 <= i < |c.leaves| => ProofAt(c, i))
  }

  /** Reads a file's proofs; a leaf without siblings or path is an index out of range. */
  method ReadProofs(c: ChallengeProofs) returns (r: Result<seq<Proof>>)
    ensures r.Ok? <==> HasProofs(c)
    ensures r.Ok? ==> r.value == ProofsOf(c)
  {
    if !HasProofs(c) {
      return Err("index out of range");
    }
    var proofs: seq<Proof> := [];
    for i := 0 to |c.leaves|
      invariant |proofs| == i && forall k :: 0 <= k < i ==> proofs[k] == ProofAt(c, k)
    {
      var siblings := ParseAll(c.siblings[i]);
      proofs := proofs + [Proof(siblings, ParsePath(c.paths[i]))];
    }
    return Ok(proofs);
  }

  /** c is what NewChallengeProofs makes of these proofs. */
  ghost predicate IsPrinted(c: ChallengeProofs, leaves: seq<string>, proofs: seq<Proof>) {
    && c.leaves == leaves
    && |c.siblings| == |c.paths| == |proofs|
    && forall i :: 0 <= i < |proofs| ==>
         c.siblings[i] == PrintedAll(proofs[i].siblings) && c.paths[i] == FormatPath(proofs[i].path)
  }

  /** Writing proofs down and reading them back changes nothing, for any siblings and any 32-bit path. */
  lemma ProofFileRoundTrip(c: ChallengeProofs, leaves: seq<string>, proofs: seq<Proof>)
    requires |leaves| == |proofs| && IsPrinted(c, leaves, proofs)
    requires forall i :: 0 <= i < |proofs| ==> proofs[i].path < TWO_32
    ensures HasProofs(c) && ProofsOf(c) == proofs
  {
    forall i | 0 <= i < |proofs|
      ensures ProofAt(c, i) == proofs[i]
    {
      ParsedOfPrinted(proofs[i].siblings);
      PathRoundTrip(proofs[i].path);
    }
  }

  // ----- dataset proofs

  datatype DatasetMerkletree = DatasetMerkletree(root: Bytes, leaves: seq<Bytes>)

  datatype DatasetProof = DatasetProof(root: string, leafHashes: seq<string>, leafSizes: seq<nat>)

  method NewDatasetProof(proof: DatasetMerkletree, leafSizes: seq<nat>) returns (d: DatasetProof)
    ensures d == DatasetProof(ConvertToHexPrefix(proof.root), PrintedAll(proof.leaves), leafSizes)
  {
    var leafHashes := PrintAll(proof.leaves);
    d := DatasetProof(ConvertToHexPrefix(proof.root), leafHashes, leafSizes);
  }

  method ReadDatasetProof(d: DatasetProof) returns (t: DatasetMerkletree)
    ensures t == DatasetMerkletree(ParsedOrEmpty(d.root), ParsedAll(d.leafHashes))
    ensures forall tree: DatasetMerkletree ::
      d.root == ConvertToHexPrefix(tree.root) && d.leafHashes == PrintedAll(tree.leaves) ==> t == tree
  {
    var leaves := ParseAll(d.leafHashes);
    t := DatasetMerkletree(ParsedOrEmpty(d.root), leaves);
    forall tree: DatasetMerkletree | d.root == ConvertToHexPrefix(tree.root) && d.leafHashes == PrintedAll(tree.leaves)
      ensures t == tree
    {
      HexRoundTrip(tree.root);
      ParsedOfPrinted(tree.leaves);
    }
  }
}
