/** Which leaves of which cars are challenged: a function of the randomness and the commP table. */
module Challenges {
  import opened Bytes
  import opened Collections
  import opened PieceTree

  const POINTS_PER_AUDITOR := 5

  datatype CarChallenge = CarChallenge(carIndex: nat, leaves: seq<nat>)

  // ----- counts

  function CarChallengeCount(carNum: nat): nat {
    Min(carNum, POINTS_PER_AUDITOR)
  }

  /** The same for everybody, and one more for the first few. */
  function Dealt(n: nat, base: nat, extra: nat): (c: seq<nat>)
    ensures |c| == n
  {
    seq(n, i requires 0 <= i < n => base + if i < extra then 1 else 0)
  }

  /** The challenges dealt out as evenly as they go, the first entries getting the remainder. */
  function LeafCounts(n: nat): (c: seq<nat>)
    requires n > 0
    ensures |c| == n
  {
    Dealt(n, POINTS_PER_AUDITOR / n, POINTS_PER_AUDITOR % n)
  }

  lemma RemainderBelow(a: nat, n: nat)
    requires n > 0
    ensures a % n < n
  {
  }

  method LeafChallengeCount(carChallengesCount: nat) returns (leafChallengeCount: seq<nat>)
    requires carChallengesCount > 0
    ensures leafChallengeCount == LeafCounts(carChallengesCount)
    ensures |leafChallengeCount| == carChallengesCount
    ensures forall i :: 0 <= i < carChallengesCount ==>
      leafChallengeCount[i] == 5 / carChallengesCount + if i < 5 % carChallengesCount then 1 else 0
  {
    var equalDistribution := POINTS_PER_AUDITOR / carChallengesCount;
    var remainder := POINTS_PER_AUDITOR % carChallengesCount;
    RemainderBelow(POINTS_PER_AUDITOR, carChallengesCount);
    leafChallengeCount := Deal(carChallengesCount, equalDistribution, remainder);
  }

  /** Its two loops: the same for everybody, then one more for each of the first few. */
  method Deal(n: nat, base: nat, extra: nat) returns (dealt: seq<nat>)
    requires extra <= n
    ensures dealt == Dealt(n, base, extra)
  {
    var counts := new nat[n];
    for i := 0 to n
      invariant forall k :: 0 <= k < i ==> counts[k] == base
    {
      counts[i] := base;
    }
    for i := 0 to extra
      invariant forall k :: 0 <= k < n ==> counts[k] == base + if k < i then 1 else 0
    {
      counts[i] := counts[i] + 1;
    }
    dealt := counts[..];
  }

  function Sum(s: seq<nat>): nat {
    if |s| == 0 then 0 else s[0] + Sum(s[1..])
  }

  lemma {:induction false} SumOfSteps(s: seq<nat>, base: nat, extra: nat)
    requires forall i :: 0 <= i < |s| ==> s[i] == base + if i < extra then 1 else 0
    requires extra <= |s|
    ensures Sum(s) == |s| * base + extra
  {
    if |s| > 0 {
      SumOfSteps(s[1..], base, if extra > 0 then extra - 1 else 0);
      assert |s| * base == (|s| - 1) * base + base;
    }
  }

  /** However many cars are challenged, the counts add up to the auditor's points and differ by at most one. */
  lemma LeafBudget(n: nat)
    requires n > 0
    ensures Sum(LeafCounts(n)) == 5
    ensures forall i, j :: 0 <= i < n && 0 <= j < n ==> LeafCounts(n)[i] <= LeafCounts(n)[j] + 1
    ensures forall i, j :: 0 <= i < j < n ==> LeafCounts(n)[i] >= LeafCounts(n)[j]
  {
    SumOfSteps(LeafCounts(n), POINTS_PER_AUDITOR / n, POINTS_PER_AUDITOR % n);
    assert n * (POINTS_PER_AUDITOR / n) + POINTS_PER_AUDITOR % n == POINTS_PER_AUDITOR;
  }

  // ----- draws

  /** The first eight bytes of the hash of two words, as a word. */
  function HashWords(sha: Sha, a: U64, b: nat): nat {
    LE(sha(ToLE(a, 8) + ToLE(b, 8))[..8])
  }

  function GenCarChallenge(sha: Sha, randomness: U64, carChallengeIndex: nat, carChallengesCount: nat, carNum: nat): nat
    requires carNum > 0
  {
    if carChallengesCount == carNum then carChallengeIndex
    else HashWords(sha, randomness, carChallengeIndex) % carNum
  }

  /** The sampling of one car: which leaf each value of the 64-bit counter picks. */
  datatype Sampling = Sampling(sha: Sha, randomness: U64, carIndex: nat, points: nat)
  {
    function Pick(counter: U64): (leaf: nat)
      requires points > 0
      ensures leaf < points
    {
      HashWords(sha, counter, carIndex) % points
    }

    /** The counter starts at the randomness and wraps around. */
    function Counter(turn: nat): U64 {
      (randomness + turn) % TWO_64
    }

    function PickAt(turn: nat): (leaf: nat)
      requires points > 0
      ensures leaf < points
    {
      Pick(Counter(turn))
    }

    /** Every leaf that some value of the counter picks. */
    ghost function AllPicks(): set<nat>
      requires points > 0
    {
      set w: nat | w < TWO_64 :: Pick(w)
    }

    /** The leaves picked in k turns of the loop. */
    ghost function Drawn(k: nat): set<nat>
      requires points > 0
    {
      set i: nat | i < k :: PickAt(i)
    }

    lemma DrawnNext(k: nat)
      requires points > 0
      ensures Drawn(k + 1) == Drawn(k) + {PickAt(k)}
    {
    }

    lemma CounterNext(k: nat)
      ensures Counter(k + 1) == (Counter(k) + 1) % TWO_64
    {
    }

    lemma DrawnGrows(j: nat, k: nat)
      requires points > 0 && j <= k
      ensures Drawn(j) <= Drawn(k)
    {
    }

    /** One cycle of the counter draws everything there is to draw. */
    lemma DrawnCycle(k: nat)
      requires points > 0 && k == TWO_64
      ensures Drawn(k) == AllPicks()
    {
      forall w: nat | w < TWO_64
        ensures Pick(w) in Drawn(k)
      {
        var i := CounterMeets(w);
        assert PickAt(i) in Drawn(k);
      }
    }

    lemma CounterMeets(w: U64) returns (turn: nat)
      ensures turn < TWO_64 && Counter(turn) == w
    {
      turn := if w >= randomness then w - randomness else w + TWO_64 - randomness;
    }
  }

  function SamplingOf(sha: Sha, randomness: U64, carIndex: nat, carSize: nat): Sampling {
    Sampling(sha, randomness, carIndex, carSize / NODE_SIZE)
  }

  /** The hash takes enough values modulo the number of points for the sampling to end. */
  ghost predicate Samplable(s: Sampling, count: nat)
  {
    count < s.points ==> count <= |s.AllPicks()|
  }

  /** What the sampling of one car returns: the order of the leaves is that of a map iteration. */
  ghost predicate IsLeafDraw(leaves: seq<nat>, s: Sampling, count: nat)
  {
    && count <= s.points
    && |leaves| == count && Distinct(leaves)
    && (forall i :: 0 <= i < |leaves| ==> leaves[i] < s.points)
    && (count == s.points ==> leaves == seq(count, i => i))
    && (count < s.points ==> exists k: nat :: Elements(leaves) == s.Drawn(k))
  }

  /** As long as too few leaves are drawn, the counter has not come round. */
  lemma MoreToDraw(s: Sampling, count: nat, k: nat)
    requires count < s.points && Samplable(s, count)
    requires k <= TWO_64 && |s.Drawn(k)| < count
    ensures k < TWO_64
  {
    if k == TWO_64 {
      s.DrawnCycle(k);
    }
  }

  /** The sampling can end exactly when the hash takes enough values. */
  lemma SamplingEndsExactly(s: Sampling, count: nat)
    requires 0 < s.points
    ensures (exists k: nat :: |s.Drawn(k)| >= count) <==> count <= |s.AllPicks()|
  {
    s.DrawnCycle(TWO_64);
    forall k: nat
      ensures |s.Drawn(k)| <= |s.AllPicks()|
    {
      SubsetSize(s.Drawn(k), s.AllPicks());
    }
  }

  lemma SubsetSize<T>(a: set<T>, b: set<T>)
    requires a <= b
    ensures |a| <= |b|
  {
    assert |b| == |a| + |b - a|;
  }

  /** The sampling loop; it ends within one cycle of the wrapping counter. */
  method SampleUnique(s: Sampling, count: nat) returns (uniqueLeaves: set<nat>)
    requires 0 < s.points && count < s.points && Samplable(s, count)
    ensures |uniqueLeaves| == count
    ensures forall x :: x in uniqueLeaves ==> x < s.points
    ensures exists k: nat :: uniqueLeaves == s.Drawn(k)
  {
    uniqueLeaves := {};
    var counter := s.randomness;
    ghost var k: nat := 0;
    while |uniqueLeaves| < count
      invariant k <= TWO_64 && counter == s.Counter(k)
      invariant uniqueLeaves == s.Drawn(k) && |uniqueLeaves| <= count
      invariant forall x :: x in uniqueLeaves ==> x < s.points
      decreases TWO_64 - k
    {
      MoreToDraw(s, count, k);
      s.DrawnNext(k);
      s.CounterNext(k);
      OneMore(uniqueLeaves, s.Pick(counter));
      uniqueLeaves := uniqueLeaves + {s.Pick(counter)};
      counter := (counter + 1) % TWO_64;
      k := k + 1;
    }
  }

  /** Exactly the requested number of distinct leaves below the number of points, or too few points. */
  method GenLeafChallenge(s: Sampling, leafChallengeCount: nat) returns (r: Result<seq<nat>>)
    requires Samplable(s, leafChallengeCount)
    ensures r.Ok? <==> leafChallengeCount <= s.points
    ensures r.Ok? ==> IsLeafDraw(r.value, s, leafChallengeCount)
  {
    if leafChallengeCount > s.points {
      return Err("car points is less leafChallengeCount");
    }
    var leaves: seq<nat> := [];
    if leafChallengeCount == s.points {
      for i := 0 to leafChallengeCount
        invariant leaves == seq(i, k => k)
      {
        leaves := leaves + [i];
      }
    } else {
      var uniqueLeaves := SampleUnique(s, leafChallengeCount);
      leaves := Iterate(uniqueLeaves);
      forall i | 0 <= i < |leaves|
        ensures leaves[i] < s.points
      {
        assert leaves[i] in Elements(leaves);
        assert leaves[i] in uniqueLeaves;
      }
    }
    return Ok(leaves);
  }

  /** Two draws of the same car pick the same leaves, in whatever order. */
  lemma DrawsAgree(a: seq<nat>, b: seq<nat>, s: Sampling, count: nat)
    requires IsLeafDraw(a, s, count) && IsLeafDraw(b, s, count)
    ensures |a| == |b| && Elements(a) == Elements(b)
  {
    DistinctCount(a);
    DistinctCount(b);
    if count < s.points {
      var j: nat :| Elements(a) == s.Drawn(j);
      var k: nat :| Elements(b) == s.Drawn(k);
      if j <= k {
        s.DrawnGrows(j, k);
        SameSize(Elements(a), Elements(b));
      } else {
        s.DrawnGrows(k, j);
        SameSize(Elements(b), Elements(a));
      }
    }
  }

  // ----- challenges

  /** Entry i of the challenges: the car and how many of its leaves. */
  ghost predicate IsChallenge(c: CarChallenge, i: nat, sha: Sha, randomness: U64, carSize: seq<nat>)
    requires i < CarChallengeCount(|carSize|)
  {
    var n := CarChallengeCount(|carSize|);
    && c.carIndex == GenCarChallenge(sha, randomness, i, n, |carSize|)
    && c.carIndex < |carSize|
    && IsLeafDraw(c.leaves, SamplingOf(sha, randomness, c.carIndex, carSize[c.carIndex]), LeafCounts(n)[i])
  }

  ghost predicate AreChallenges(cs: seq<CarChallenge>, sha: Sha, randomness: U64, carSize: seq<nat>)
  {
    && |cs| == CarChallengeCount(|carSize|)
    && forall i :: 0 <= i < |cs| ==> IsChallenge(cs[i], i, sha, randomness, carSize)
  }

  lemma CarIndexInRange(sha: Sha, randomness: U64, i: nat, carNum: nat)
    requires i < CarChallengeCount(carNum)
    ensures GenCarChallenge(sha, randomness, i, CarChallengeCount(carNum), carNum) < carNum
  {
  }

  /** What entry i samples from. */
  function EntrySampling(i: nat, sha: Sha, randomness: U64, carSize: seq<nat>): Sampling
    requires i < CarChallengeCount(|carSize|)
  {
    var car := GenCarChallenge(sha, randomness, i, CarChallengeCount(|carSize|), |carSize|);
    CarIndexInRange(sha, randomness, i, |carSize|);
    SamplingOf(sha, randomness, car, carSize[car])
  }

  /** The sampling of every challenged car ends. */
  ghost predicate AllSamplable(sha: Sha, randomness: U64, carSize: seq<nat>)
  {
    var n := CarChallengeCount(|carSize|);
    forall i :: 0 <= i < n ==> Samplable(EntrySampling(i, sha, randomness, carSize), LeafCounts(n)[i])
  }

  /** Every challenged car has as many leaves as are asked of it. */
  ghost predicate EnoughPoints(sha: Sha, randomness: U64, carSize: seq<nat>)
  {
    var n := CarChallengeCount(|carSize|);
    forall i :: 0 <= i < n ==> LeafCounts(n)[i] <= EntrySampling(i, sha, randomness, carSize).points
  }

  method GenChallenges(sha: Sha, randomness: U64, carNum: nat, carSize: seq<nat>) returns (r: Result<seq<CarChallenge>>)
    requires carNum == |carSize| > 0 && AllSamplable(sha, randomness, carSize)
    ensures r.Ok? <==> EnoughPoints(sha, randomness, carSize)
    ensures r.Ok? ==> AreChallenges(r.value, sha, randomness, carSize)
    ensures r.Ok? && carNum <= TWO_64 ==> AreDrawn(r.value, sha, randomness, carSize)
  {
    var carChallengesCount := CarChallengeCount(carNum);
    var leafChallengeCount := LeafChallengeCount(carChallengesCount);
    var carChallenges: seq<CarChallenge> := [];
    for i := 0 to carChallengesCount
      invariant |carChallenges| == i
      invariant forall k :: 0 <= k < i ==> IsChallenge(carChallenges[k], k, sha, randomness, carSize)
    {
      var challenge := GenCarLeaves(sha, randomness, i, carSize, leafChallengeCount[i]);
      if challenge.Err? {
        return Err(challenge.message);
      }
      carChallenges := carChallenges + [challenge.value];
    }
    EnoughForAll(carChallenges, sha, randomness, carSize);
    if carNum <= TWO_64 {
      AllDrawn(carChallenges, sha, randomness, carSize);
    }
    return Ok(carChallenges);
  }

  /** One turn of the loop: the car of entry i and its leaves. */
  method GenCarLeaves(sha: Sha, randomness: U64, i: nat, carSize: seq<nat>, count: nat)
    returns (r: Result<CarChallenge>)
    requires |carSize| > 0 && i < CarChallengeCount(|carSize|)
    requires count == LeafCounts(CarChallengeCount(|carSize|))[i]
    requires Samplable(EntrySampling(i, sha, randomness, carSize), count)
    ensures r.Ok? <==> count <= EntrySampling(i, sha, randomness, carSize).points
    ensures r.Ok? ==> IsChallenge(r.value, i, sha, randomness, carSize)
  {
    var carIndex := GenCarChallenge(sha, randomness, i, CarChallengeCount(|carSize|), |carSize|);
    CarIndexInRange(sha, randomness, i, |carSize|);
    var leaves := GenLeafChallenge(SamplingOf(sha, randomness, carIndex, carSize[carIndex]), count);
    if leaves.Err? {
      return Err(leaves.message);
    }
    return Ok(CarChallenge(carIndex, leaves.value));
  }

  lemma EnoughForAll(cs: seq<CarChallenge>, sha: Sha, randomness: U64, carSize: seq<nat>)
    requires |carSize| > 0 && AreChallenges(cs, sha, randomness, carSize)
    ensures EnoughPoints(sha, randomness, carSize)
  {
    var n := CarChallengeCount(|carSize|);
    forall i | 0 <= i < n
      ensures LeafCounts(n)[i] <= EntrySampling(i, sha, randomness, carSize).points
    {
      assert IsChallenge(cs[i], i, sha, randomness, carSize);
    }
  }

  /** The number of leaves challenged in all. */
  function LeafTotal(cs: seq<CarChallenge>): nat {
    if |cs| == 0 then 0 else |cs[0].leaves| + LeafTotal(cs[1..])
  }

  lemma {:induction false} TotalIsSum(cs: seq<CarChallenge>, counts: seq<nat>)
    requires |cs| == |counts| && forall i :: 0 <= i < |cs| ==> |cs[i].leaves| == counts[i]
    ensures LeafTotal(cs) == Sum(counts)
  {
    if |cs| > 0 {
      TotalIsSum(cs[1..], counts[1..]);
    }
  }

  /**
   The challenge budget: five leaves in all, dealt out evenly, every car a car of the dataset; and
   with no more than five cars each car is challenged exactly once.
   */
  lemma ChallengeBudget(cs: seq<CarChallenge>, sha: Sha, randomness: U64, carSize: seq<nat>)
    requires |carSize| > 0 && AreChallenges(cs, sha, randomness, carSize)
    ensures LeafTotal(cs) == 5
    ensures |cs| == if |carSize| <= 5 then |carSize| else 5
    ensures forall i, j :: 0 <= i < |cs| && 0 <= j < |cs| ==> |cs[i].leaves| <= |cs[j].leaves| + 1
    ensures forall i :: 0 <= i < |cs| ==> cs[i].carIndex < |carSize|
    ensures |carSize| <= 5 ==>
      |cs| == |carSize| && forall i :: 0 <= i < |cs| ==> cs[i].carIndex == i
  {
    var counts := LeafCounts(|cs|);
    forall i | 0 <= i < |cs|
      ensures |cs[i].leaves| == counts[i] && cs[i].carIndex < |carSize|
      ensures |carSize| <= POINTS_PER_AUDITOR ==> cs[i].carIndex == i
    {
      assert IsChallenge(cs[i], i, sha, randomness, carSize);
    }
    TotalIsSum(cs, counts);
    LeafBudget(|cs|);
  }

  // ----- what is drawn, spelled out

  /** Sixteen bytes that spell two words, each lowest byte first. */
  predicate Spells(b: Bytes, x: nat, y: nat) {
    |b| == 16 && LE(b[..8]) == x && LE(b[8..]) == y
  }

  /** A draw is the first eight bytes of the hash of the bytes that spell its two words. */
  lemma DrawIsHash(sha: Sha, x: U64, y: nat, b: Bytes)
    requires Spells(b, x, y)
    ensures HashWords(sha, x, y) == LE(sha(b)[..8])
  {
    ToLEOfLE(b[..8]);
    ToLEOfLE(b[8..]);
    assert b == b[..8] + b[8..];
  }

  /** With more than five cars, entry i challenges the car that randomness and i hash to. */
  lemma CarIsHashed(sha: Sha, randomness: U64, i: nat, carNum: nat, b: Bytes)
    requires carNum > 5 && i < 5 && Spells(b, randomness, i)
    ensures CarChallengeCount(carNum) == 5
    ensures GenCarChallenge(sha, randomness, i, CarChallengeCount(carNum), carNum) == LE(sha(b)[..8]) % carNum
  {
    DrawIsHash(sha, randomness, i, b);
  }

  /** The leaf, out of so many, that counter and car index hash to. */
  ghost predicate HashedLeaf(sha: Sha, counter: nat, carIndex: nat, points: nat, leaf: nat)
    requires points > 0
  {
    exists b :: Spells(b, counter, carIndex) && leaf == LE(sha(b)[..8]) % points
  }

  lemma HashedExactly(sha: Sha, counter: U64, carIndex: U64, points: nat, leaf: nat)
    requires points > 0
    ensures HashedLeaf(sha, counter, carIndex, points, leaf) == (leaf == HashWords(sha, counter, carIndex) % points)
  {
    var b := WordsSpelled(counter, carIndex);
    DrawIsHash(sha, counter, carIndex, b);
    forall b' | Spells(b', counter, carIndex)
      ensures LE(sha(b')[..8]) == HashWords(sha, counter, carIndex)
    {
      DrawIsHash(sha, counter, carIndex, b');
    }
  }

  /** This turn of the sampling picks the leaf that randomness + turn, wrapped, and the car's index hash to. */
  ghost predicate PicksLeaf(sha: Sha, randomness: U64, carIndex: nat, points: nat, turn: nat, leaf: nat) {
    points > 0 && HashedLeaf(sha, (randomness + turn) % 0x1_0000_0000_0000_0000, carIndex, points, leaf)
  }

  lemma TurnPicksLeaf(s: Sampling, turn: nat, leaf: nat)
    requires s.points > 0 && s.carIndex < TWO_64
    ensures PicksLeaf(s.sha, s.randomness, s.carIndex, s.points, turn, leaf) <==> leaf == s.PickAt(turn)
  {
    HashedExactly(s.sha, s.Counter(turn), s.carIndex, s.points, leaf);
  }

  lemma WordsSpelled(x: U64, y: U64) returns (b: Bytes)
    ensures Spells(b, x, y)
  {
    b := ToLE(x, 8) + ToLE(y, 8);
    assert b[..8] == ToLE(x, 8) && b[8..] == ToLE(y, 8);
    EightBytes(x);
    EightBytes(y);
  }

  lemma EightBytes(x: U64)
    ensures LE(ToLE(x, 8)) == x
  {
    WordPowers();
    Word64(8);
    LEOfToLE(x, 8);
  }

  lemma Word64(n: nat)
    requires n == 8
    ensures Pow2(8 * n) == TWO_64
  {
    WordPowers();
  }

  /** The leaves are those that the first k turns pick. */
  ghost predicate ArePicked(leaves: seq<nat>, sha: Sha, randomness: U64, carIndex: nat, points: nat, k: nat) {
    forall leaf: nat :: leaf in leaves <==> PickedBy(sha, randomness, carIndex, points, k, leaf)
  }

  ghost predicate PickedBy(sha: Sha, randomness: U64, carIndex: nat, points: nat, k: nat, leaf: nat) {
    exists turn: nat :: turn < k && PicksLeaf(sha, randomness, carIndex, points, turn, leaf)
  }

  lemma DrawnLeaves(leaves: seq<nat>, s: Sampling, k: nat)
    requires s.points > 0 && s.carIndex < TWO_64 && Elements(leaves) == s.Drawn(k)
    ensures ArePicked(leaves, s.sha, s.randomness, s.carIndex, s.points, k)
  {
    forall leaf: nat
      ensures leaf in leaves <==> PickedBy(s.sha, s.randomness, s.carIndex, s.points, k, leaf)
    {
      DrawnLeaf(leaves, s, k, leaf);
    }
  }

  lemma DrawnLeaf(leaves: seq<nat>, s: Sampling, k: nat, leaf: nat)
    requires s.points > 0 && s.carIndex < TWO_64 && Elements(leaves) == s.Drawn(k)
    ensures leaf in leaves <==> PickedBy(s.sha, s.randomness, s.carIndex, s.points, k, leaf)
  {
    assert leaf in leaves <==> leaf in Elements(leaves);
    forall turn: nat
      ensures PicksLeaf(s.sha, s.randomness, s.carIndex, s.points, turn, leaf) <==> leaf == s.PickAt(turn)
    {
      TurnPicksLeaf(s, turn, leaf);
    }
  }

  /** Entry i as a reader of the rules would put it: its car, and the leaves of the car, all or as many as asked. */
  ghost predicate IsDrawn(c: CarChallenge, i: nat, sha: Sha, randomness: U64, carSize: seq<nat>) {
    c.carIndex < |carSize| && CarIsDrawn(c, i, sha, randomness, |carSize|) &&
    LeavesAreDrawn(c, sha, randomness, carSize[c.carIndex] / 32)
  }

  ghost predicate CarIsDrawn(c: CarChallenge, i: nat, sha: Sha, randomness: U64, carNum: nat)
    requires carNum > 0
  {
    if carNum <= 5 then c.carIndex == i
    else forall b :: Spells(b, randomness, i) ==> c.carIndex == LE(sha(b)[..8]) % carNum
  }

  ghost predicate LeavesAreDrawn(c: CarChallenge, sha: Sha, randomness: U64, points: nat) {
    if |c.leaves| == points then c.leaves == seq(points, k => k)
    else exists k: nat :: ArePicked(c.leaves, sha, randomness, c.carIndex, points, k)
  }

  /** Every entry of the challenges is drawn so, with its share of the five leaves. */
  lemma ChallengeIsDrawn(cs: seq<CarChallenge>, sha: Sha, randomness: U64, carSize: seq<nat>, i: nat)
    requires 0 < |carSize| <= TWO_64 && AreChallenges(cs, sha, randomness, carSize) && i < |cs|
    ensures |cs| == if |carSize| <= 5 then |carSize| else 5
    ensures IsDrawn(cs[i], i, sha, randomness, carSize) && Distinct(cs[i].leaves)
    ensures |cs[i].leaves| == 5 / |cs| + if i < 5 % |cs| then 1 else 0
  {
    var c := cs[i];
    assert IsChallenge(c, i, sha, randomness, carSize);
    forall b | |carSize| > 5 && Spells(b, randomness, i)
      ensures c.carIndex == LE(sha(b)[..8]) % |carSize|
    {
      CarIsHashed(sha, randomness, i, |carSize|, b);
    }
    DrawIsDrawn(c, SamplingOf(sha, randomness, c.carIndex, carSize[c.carIndex]), LeafCounts(|cs|)[i]);
  }

  ghost predicate AreDrawn(cs: seq<CarChallenge>, sha: Sha, randomness: U64, carSize: seq<nat>) {
    forall i :: 0 <= i < |cs| ==> IsDrawn(cs[i], i, sha, randomness, carSize)
  }

  lemma AllDrawn(cs: seq<CarChallenge>, sha: Sha, randomness: U64, carSize: seq<nat>)
    requires 0 < |carSize| <= TWO_64 && AreChallenges(cs, sha, randomness, carSize)
    ensures AreDrawn(cs, sha, randomness, carSize)
  {
    forall i | 0 <= i < |cs|
      ensures IsDrawn(cs[i], i, sha, randomness, carSize)
    {
      ChallengeIsDrawn(cs, sha, randomness, carSize, i);
    }
  }

  lemma DrawIsDrawn(c: CarChallenge, s: Sampling, count: nat)
    requires IsLeafDraw(c.leaves, s, count) && c.carIndex == s.carIndex < TWO_64
    ensures LeavesAreDrawn(c, s.sha, s.randomness, s.points)
  {
    if count < s.points {
      var k: nat :| Elements(c.leaves) == s.Drawn(k);
      DrawnLeaves(c.leaves, s, k);
    }
  }

  // ----- slots

  /** The leaves of a challenge, each with its car. */
  function PointsOf(c: CarChallenge): (p: seq<(nat, nat)>)
    ensures |p| == |c.leaves|
  {
    seq(|c.leaves|, i requires 0 <= i < |c.leaves| => (c.carIndex, c.leaves[i]))
  }

  /** Every challenged leaf with its car, in the order in which proofs are made. */
  function Points(cs: seq<CarChallenge>): seq<(nat, nat)> {
    if |cs| == 0 then [] else Points(cs[..|cs| - 1]) + PointsOf(cs[|cs| - 1])
  }

  /** The car of every proof, in proof order: each challenge's car once for each of its leaves. */
  function Slots(cs: seq<CarChallenge>): seq<nat> {
    if |cs| == 0 then []
    else Slots(cs[..|cs| - 1]) + seq(|cs[|cs| - 1].leaves|, _ => cs[|cs| - 1].carIndex)
  }

  /** The verifier's slots are the cars of the prover's points. */
  lemma {:induction false} SlotsOfPoints(cs: seq<CarChallenge>)
    ensures |Slots(cs)| == |Points(cs)|
    ensures forall k :: 0 <= k < |Slots(cs)| ==> Slots(cs)[k] == Points(cs)[k].0
  {
    if |cs| > 0 {
      SlotsOfPoints(cs[..|cs| - 1]);
    }
  }

  lemma {:induction false} TotalAppend(cs: seq<CarChallenge>, c: CarChallenge)
    ensures LeafTotal(cs + [c]) == LeafTotal(cs) + |c.leaves|
  {
    if |cs| == 0 {
      assert cs + [c] == [c];
    } else {
      assert (cs + [c])[1..] == cs[1..] + [c];
      TotalAppend(cs[1..], c);
    }
  }

  lemma {:induction false} PointsCount(cs: seq<CarChallenge>)
    ensures |Points(cs)| == LeafTotal(cs)
  {
    if |cs| > 0 {
      var n := |cs| - 1;
      PointsCount(cs[..n]);
      TotalAppend(cs[..n], cs[n]);
      assert cs == cs[..n] + [cs[n]];
    }
  }

  /** The place of leaf k of entry i among all points: behind those of all earlier entries. */
  function PlaceOf(cs: seq<CarChallenge>, i: nat, k: nat): nat
    requires i < |cs|
  {
    LeafTotal(cs[..i]) + k
  }

  /** The point there is leaf k of the entry's car, and the slot is the car. */
  lemma {:induction false} PointAt(cs: seq<CarChallenge>, i: nat, k: nat)
    requires i < |cs| && k < |cs[i].leaves|
    ensures PlaceOf(cs, i, k) < |Points(cs)| == |Slots(cs)|
    ensures Points(cs)[PlaceOf(cs, i, k)] == (cs[i].carIndex, cs[i].leaves[k])
    ensures Slots(cs)[PlaceOf(cs, i, k)] == cs[i].carIndex
    decreases |cs|
  {
    var n := |cs| - 1;
    SlotsOfPoints(cs);
    if i < n {
      PointAt(cs[..n], i, k);
      assert cs[..n][..i] == cs[..i];
    } else {
      PointsCount(cs[..n]);
    }
  }

  lemma ChallengeInRange(cs: seq<CarChallenge>, sha: Sha, randomness: U64, carSize: seq<nat>, i: nat)
    requires AreChallenges(cs, sha, randomness, carSize) && i < |cs|
    ensures cs[i].carIndex < |carSize|
    ensures forall k :: 0 <= k < |cs[i].leaves| ==> cs[i].leaves[k] < carSize[cs[i].carIndex] / NODE_SIZE
  {
  }

  /** Two runs challenge the same cars in the same slots, and the same leaves of each in some order. */
  lemma RunsAgree(a: seq<CarChallenge>, b: seq<CarChallenge>, sha: Sha, randomness: U64, carSize: seq<nat>)
    requires AreChallenges(a, sha, randomness, carSize) && AreChallenges(b, sha, randomness, carSize)
    ensures |a| == |b| && Slots(a) == Slots(b)
    ensures forall i :: 0 <= i < |a| ==>
      a[i].carIndex == b[i].carIndex && Elements(a[i].leaves) == Elements(b[i].leaves)
  {
    forall i | 0 <= i < |a|
      ensures a[i].carIndex == b[i].carIndex && |a[i].leaves| == |b[i].leaves|
      ensures Elements(a[i].leaves) == Elements(b[i].leaves)
    {
      assert IsChallenge(a[i], i, sha, randomness, carSize) && IsChallenge(b[i], i, sha, randomness, carSize);
      DrawsAgree(a[i].leaves, b[i].leaves, EntrySampling(i, sha, randomness, carSize),
                 LeafCounts(CarChallengeCount(|carSize|))[i]);
    }
    SameSlots(a, b);
  }

  lemma {:induction false} SameSlots(a: seq<CarChallenge>, b: seq<CarChallenge>)
    requires |a| == |b|
    requires forall i :: 0 <= i < |a| ==> a[i].carIndex == b[i].carIndex && |a[i].leaves| == |b[i].leaves|
    ensures Slots(a) == Slots(b)
  {
    if |a| > 0 {
      SameSlots(a[..|a| - 1], b[..|b| - 1]);
    }
  }
}
