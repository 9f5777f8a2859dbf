/** Which mappings a byte range selects from a set of mappings that tile the CAR: one run of them. */
module RangeSelection {
  import opened Bytes
  import opened Collections
  import opened CarIndex

  function EndOf(m: ChunkMapping): nat {
    m.dstOffset + m.chunkSize
  }

  /** Mapping i starts where the one before ends. */
  predicate Joined(all: seq<ChunkMapping>, i: nat)
    requires 0 < i < |all|
  {
    all[i].dstOffset == EndOf(all[i - 1])
  }

  /** Mappings in CAR order with no gap and no overlap between them. */
  ghost predicate Tiling(all: seq<ChunkMapping>) {
    && (forall i :: 0 <= i < |all| ==> all[i].chunkSize > 0 && EndOf(all[i]) < TWO_64)
    && (forall i :: 0 < i < |all| ==> Joined(all, i))
  }

  lemma {:induction false} TilingOrder(all: seq<ChunkMapping>, i: nat, j: nat)
    requires Tiling(all) && i < j < |all|
    ensures EndOf(all[i]) <= all[j].dstOffset
    decreases j
  {
    assert Joined(all, j);
    if i < j - 1 {
      TilingOrder(all, i, j - 1);
    }
  }

  /** Without wrap-around the four-way test says that two closed ranges meet. */
  lemma TouchesIsOverlap(m: ChunkMapping, chunkStart: nat, chunkEnd: nat)
    requires chunkStart <= chunkEnd && EndOf(m) < TWO_64
    ensures Touches(m, chunkStart, chunkEnd) <==> m.dstOffset <= chunkEnd && chunkStart <= EndOf(m)
  {
  }

  /** When the query's end has wrapped around, the test picks what reaches from behind that end to its start. */
  lemma WrappedTouches(m: ChunkMapping, chunkStart: nat, chunkEnd: nat)
    requires chunkEnd < chunkStart && EndOf(m) < TWO_64
    ensures Touches(m, chunkStart, chunkEnd) <==> m.dstOffset <= chunkStart && chunkEnd <= EndOf(m)
  {
  }

  /** The first mapping, from i on, that ends at or behind start. */
  function Low(all: seq<ChunkMapping>, start: nat, i: nat): (lo: nat)
    requires i <= |all|
    ensures i <= lo <= |all|
    ensures forall k :: i <= k < lo ==> EndOf(all[k]) < start
    ensures lo < |all| ==> start <= EndOf(all[lo])
    decreases |all| - i
  {
    if i == |all| || EndOf(all[i]) >= start then i else Low(all, start, i + 1)
  }

  /** The first mapping, from i on, that starts behind end. */
  function High(all: seq<ChunkMapping>, end: nat, i: nat): (hi: nat)
    requires i <= |all|
    ensures i <= hi <= |all|
    ensures forall k :: i <= k < hi ==> all[k].dstOffset <= end
    ensures hi < |all| ==> end < all[hi].dstOffset
    decreases |all| - i
  {
    if i == |all| || all[i].dstOffset > end then i else High(all, end, i + 1)
  }

  /** The run of mappings whose closed range meets the closed query range. */
  function Run(all: seq<ChunkMapping>, start: nat, end: nat): seq<ChunkMapping>
  {
    var lo, hi := Low(all, start, 0), High(all, end, 0);
    if lo <= hi then all[lo..hi] else []
  }

  lemma TouchedIsInRun(all: seq<ChunkMapping>, start: nat, end: nat, i: nat)
    requires Tiling(all) && start <= end && i < |all|
    ensures Touches(all[i], start, end) <==> Low(all, start, 0) <= i < High(all, end, 0)
  {
    var lo, hi := Low(all, start, 0), High(all, end, 0);
    TouchesIsOverlap(all[i], start, end);
    if lo < i {
      TilingOrder(all, lo, i);
    }
    if hi < i {
      TilingOrder(all, hi, i);
    }
  }

  lemma LowBelowHigh(all: seq<ChunkMapping>, start: nat, end: nat)
    requires Tiling(all) && start <= end
    ensures Low(all, start, 0) <= High(all, end, 0)
  {
  }

  lemma TilingIncreasing(all: seq<ChunkMapping>)
    requires Tiling(all)
    ensures Increasing(all, BY_DST)
  {
    forall i, j | 0 <= i < j < |all|
      ensures BY_DST(all[i], all[j])
    {
      TilingOrder(all, i, j);
    }
  }

  lemma {:induction false} TilingContinuous(all: seq<ChunkMapping>)
    requires Tiling(all)
    ensures Continuous(all)
  {
    var n := |all|;
    if n > 1 {
      TilingSlice(all, 0, n - 1);
      assert all[..n - 1] == all[0..n - 1];
      TilingContinuous(all[..n - 1]);
      assert Joined(all, n - 1);
      WordFits(EndOf(all[n - 2]));
    }
  }

  lemma TilingSlice(all: seq<ChunkMapping>, lo: nat, hi: nat)
    requires Tiling(all) && lo <= hi <= |all|
    ensures Tiling(all[lo..hi])
  {
    var s := all[lo..hi];
    forall i | 0 < i < |s|
      ensures Joined(s, i)
    {
      assert Joined(all, lo + i);
    }
  }

  /** The mappings that pass the four-way test are those of the run. */
  lemma TouchedElements(all: seq<ChunkMapping>, start: nat, end: nat)
    requires Tiling(all) && start <= end
    ensures Elements(Run(all, start, end)) == set v | v in all && Touches(v, start, end)
  {
    forall v | v in Run(all, start, end)
      ensures v in all && Touches(v, start, end)
    {
      RunIsTouched(all, start, end, v);
    }
    forall v | v in all && Touches(v, start, end)
      ensures v in Run(all, start, end)
    {
      TouchedIsListed(all, start, end, v);
    }
  }

  lemma RunIsTouched(all: seq<ChunkMapping>, start: nat, end: nat, v: ChunkMapping)
    requires Tiling(all) && start <= end && v in Run(all, start, end)
    ensures v in all && Touches(v, start, end)
  {
    var k :| 0 <= k < |Run(all, start, end)| && Run(all, start, end)[k] == v;
    TouchedIsInRun(all, start, end, Low(all, start, 0) + k);
  }

  lemma TouchedIsListed(all: seq<ChunkMapping>, start: nat, end: nat, v: ChunkMapping)
    requires Tiling(all) && start <= end && v in all && Touches(v, start, end)
    ensures v in Run(all, start, end)
  {
    var i :| 0 <= i < |all| && all[i] == v;
    TouchedIsInRun(all, start, end, i);
    LowBelowHigh(all, start, end);
    assert Run(all, start, end)[i - Low(all, start, 0)] == v;
  }

  /** A sorted list without repetition of mappings from a tiling set is determined by its elements. */
  lemma SortedFromTiling(all: seq<ChunkMapping>, ms: seq<ChunkMapping>, r: seq<ChunkMapping>)
    requires Tiling(all) && Sorted(ms, BY_DST) && Distinct(ms)
    requires Elements(ms) == Elements(r) && Elements(ms) <= Elements(all) && Tiling(r)
    ensures ms == r
  {
    forall x, y | x in ms && y in ms && x != y
      ensures BY_DST(x, y) || BY_DST(y, x)
    {
      assert x in Elements(all) && y in Elements(all);
      PlacesDiffer(all, x, y);
    }
    SortedIncreasing(ms, BY_DST);
    TilingIncreasing(r);
    IncreasingUnique(ms, r, BY_DST);
  }

  lemma PlacesDiffer(all: seq<ChunkMapping>, x: ChunkMapping, y: ChunkMapping)
    requires Tiling(all) && x in all && y in all && x != y
    ensures BY_DST(x, y) || BY_DST(y, x)
  {
    var i :| 0 <= i < |all| && all[i] == x;
    var j :| 0 <= j < |all| && all[j] == y;
    if i < j {
      TilingOrder(all, i, j);
    } else {
      TilingOrder(all, j, i);
    }
  }

  /**
   A selection from a tiling set is exactly the run of mappings whose closed range meets the query, in
   CAR order and side by side, whatever order the map was ranged over in.
   */
  lemma SelectionIsRun(m: Mappings, all: seq<ChunkMapping>, start: nat, end: nat, ms: seq<ChunkMapping>)
    requires Tiling(all) && Elements(all) == m.Values && start <= end
    requires Sorted(ms, BY_DST) && Distinct(ms) && Elements(ms) == Passing(m, TouchTest(start, end))
    ensures ms == Run(all, start, end) && Continuous(ms)
  {
    TouchedElements(all, start, end);
    PassingOfValues(m, all, start, end);
    LowBelowHigh(all, start, end);
    TilingSlice(all, Low(all, start, 0), High(all, end, 0));
    SortedFromTiling(all, ms, Run(all, start, end));
    TilingContinuous(ms);
  }

  lemma PassingOfValues(m: Mappings, all: seq<ChunkMapping>, start: nat, end: nat)
    requires Elements(all) == m.Values
    ensures Passing(m, TouchTest(start, end)) == set v | v in all && Touches(v, start, end)
  {
    forall v
      ensures v in Passing(m, TouchTest(start, end)) <==> v in all && Touches(v, start, end)
    {
      if v in all {
        assert v in Elements(all);
      }
      if v in m.Values {
        assert v in Elements(all);
      }
    }
  }

  /** All mappings of a tiling set, sorted, pass the continuity check. */
  lemma AllMappingsContinuous(m: Mappings, all: seq<ChunkMapping>, ms: seq<ChunkMapping>)
    requires Tiling(all) && Elements(all) == m.Values
    requires Sorted(ms, BY_DST) && Distinct(ms) && Elements(ms) == m.Values
    ensures ms == all && Continuous(ms)
  {
    SortedFromTiling(all, ms, all);
    TilingContinuous(all);
  }

  /**
   The run covers the query inside the mapped area: it starts no later than the query unless it starts
   with the first mapping, and ends behind the query unless it ends with the last.
   */
  lemma RunCovers(all: seq<ChunkMapping>, start: nat, end: nat)
    requires Tiling(all) && start <= end && (|all| > 0 ==> start < EndOf(all[|all| - 1]))
    ensures var lo, hi := Low(all, start, 0), High(all, end, 0);
      && lo <= hi
      && (lo == 0 || (lo < hi && all[lo].dstOffset < start))
      && (hi == |all| || end < all[hi].dstOffset)
      && (lo == hi ==> lo == 0)
  {
    var lo, hi := Low(all, start, 0), High(all, end, 0);
    LowBelowHigh(all, start, end);
    if lo > 0 && lo < |all| {
      assert EndOf(all[lo - 1]) < start && Joined(all, lo);
    }
  }
}
