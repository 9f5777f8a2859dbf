/** Sets, map iteration in no particular order, and sorting by a given order. */
module Collections {

  function Elements<T(==)>(s: seq<T>): set<T> {
    set x | x in s
  }

  ghost predicate Distinct<T>(s: seq<T>) {
    forall i, j :: 0 <= i < j < |s| ==> s[i] != s[j]
  }

  lemma {:induction false} DistinctCount<T>(s: seq<T>)
    requires Distinct(s)
    ensures |Elements(s)| == |s|
  {
    if |s| > 0 {
      DistinctCount(s[1..]);
      assert Elements(s) == {s[0]} + Elements(s[1..]);
    }
  }

  lemma SameSize<T>(a: set<T>, b: set<T>)
    requires a <= b && |a| == |b|
    ensures a == b
  {
    assert |b - a| == |b| - |a|;
  }

  lemma OneMore<T>(m: set<T>, x: T)
    ensures |m + {x}| <= |m| + 1
  {
  }

  /** Ranging over a map's keys: every key once, in an order that differs from run to run. */
  method Iterate<T(==)>(m: set<T>) returns (s: seq<T>)
    ensures Elements(s) == m && Distinct(s) && |s| == |m|
  {
    s := [];
    var rest := m;
    while rest != {}
      invariant rest <= m && Elements(s) == m - rest && Distinct(s)
      decreases |rest|
    {
      var x :| x in rest;
      assert x !in Elements(s);
      assert Elements(s + [x]) == Elements(s) + {x};
      s := s + [x];
      rest := rest - {x};
    }
    DistinctCount(s);
  }

  // ----- sorting

  /** What sort.Slice asks of its less function. */
  ghost predicate IsOrder<T(!new)>(less: (T, T) -> bool) {
    && (forall x, y :: less(x, y) ==> !less(y, x))
    && (forall x, y, z :: !less(x, y) && !less(y, z) ==> !less(x, z))
  }

  ghost predicate Sorted<T(!new)>(s: seq<T>, less: (T, T) -> bool) {
    forall i, j :: 0 <= i < j < |s| ==> !less(s[j], s[i])
  }

  function Insert<T>(x: T, s: seq<T>, less: (T, T) -> bool): (r: seq<T>)
    ensures |r| == |s| + 1
  {
    if |s| == 0 || !less(s[0], x) then [x] + s else [s[0]] + Insert(x, s[1..], less)
  }

  /** A sort that satisfies the contract of sort.Slice. */
  function SortSlice<T>(s: seq<T>, less: (T, T) -> bool): (r: seq<T>)
    ensures |r| == |s|
  {
    if |s| == 0 then [] else Insert(s[0], SortSlice(s[1..], less), less)
  }

  lemma {:induction false} InsertMultiset<T>(x: T, s: seq<T>, less: (T, T) -> bool)
    ensures multiset(Insert(x, s, less)) == multiset(s) + multiset{x}
  {
    if |s| == 0 || !less(s[0], x) {
    } else {
      InsertMultiset(x, s[1..], less);
      assert s == [s[0]] + s[1..];
    }
  }

  lemma MultisetHead<T>(s: seq<T>)
    requires |s| > 0
    ensures multiset(s) == multiset(s[1..]) + multiset{s[0]}
  {
    assert s == [s[0]] + s[1..];
  }

  /** Sorting only reorders. */
  lemma {:induction false} SortMultiset<T>(s: seq<T>, less: (T, T) -> bool)
    ensures multiset(SortSlice(s, less)) == multiset(s)
  {
    if |s| > 0 {
      var rest := s[1..];
      SortMultiset(rest, less);
      InsertMultiset(s[0], SortSlice(rest, less), less);
      MultisetHead(s);
    }
  }

  lemma SameElements<T>(a: seq<T>, b: seq<T>)
    requires multiset(a) == multiset(b)
    ensures Elements(a) == Elements(b)
  {
    forall x
      ensures x in a <==> x in b
    {
      assert x in a <==> x in multiset(a);
      assert x in b <==> x in multiset(b);
    }
  }

  lemma SortElements<T>(s: seq<T>, less: (T, T) -> bool)
    ensures Elements(SortSlice(s, less)) == Elements(s)
  {
    SortMultiset(s, less);
    SameElements(SortSlice(s, less), s);
  }

  lemma InsertElements<T>(x: T, s: seq<T>, less: (T, T) -> bool)
    ensures Elements(Insert(x, s, less)) == Elements([x] + s)
  {
    InsertMultiset(x, s, less);
    assert multiset([x] + s) == multiset{x} + multiset(s);
    SameElements(Insert(x, s, less), [x] + s);
  }

  lemma {:induction false} InsertSorted<T(!new)>(x: T, s: seq<T>, less: (T, T) -> bool)
    requires IsOrder(less) && Sorted(s, less)
    ensures Sorted(Insert(x, s, less), less)
  {
    if |s| == 0 || !less(s[0], x) {
      forall j | 0 <= j < |s| ensures !less(s[j], x) {
        if j > 0 {
          assert !less(s[j], s[0]);
        }
      }
    } else {
      InsertSorted(x, s[1..], less);
      InsertElements(x, s[1..], less);
      var r := Insert(x, s[1..], less);
      forall j | 0 <= j < |r| ensures !less(r[j], s[0]) {
        assert r[j] in Elements(r);
        assert r[j] in Elements([x] + s[1..]);
        assert r[j] == x || r[j] in s[1..];
      }
    }
  }

  lemma {:induction false} SortSorted<T(!new)>(s: seq<T>, less: (T, T) -> bool)
    requires IsOrder(less)
    ensures Sorted(SortSlice(s, less), less)
  {
    if |s| > 0 {
      SortSorted(s[1..], less);
      InsertSorted(s[0], SortSlice(s[1..], less), less);
    }
  }

  /** Strictly increasing. */
  ghost predicate Increasing<T(!new)>(s: seq<T>, less: (T, T) -> bool) {
    forall i, j :: 0 <= i < j < |s| ==> less(s[i], s[j])
  }

  /** Sorting keeps elements apart. */
  lemma SortDistinct<T>(s: seq<T>, less: (T, T) -> bool)
    requires Distinct(s)
    ensures Distinct(SortSlice(s, less))
  {
    var r := SortSlice(s, less);
    SortMultiset(s, less);
    forall i, j | 0 <= i < j < |r|
      ensures r[i] != r[j]
    {
      if r[i] == r[j] {
        TwicePresent(r, i, j);
        DistinctOnce(s, r[i]);
      }
    }
  }

  /** A sorted list of elements that the order tells apart is strictly increasing. */
  lemma SortedIncreasing<T(!new)>(s: seq<T>, less: (T, T) -> bool)
    requires Sorted(s, less) && Distinct(s)
    requires forall x, y :: x in s && y in s && x != y ==> less(x, y) || less(y, x)
    ensures Increasing(s, less)
  {
  }

  lemma TwicePresent<T>(s: seq<T>, i: nat, j: nat)
    requires i < j < |s| && s[i] == s[j]
    ensures multiset(s)[s[i]] >= 2
  {
    assert s == s[..j] + s[j..];
    assert s[..j][i] == s[i] && s[j..][0] == s[i];
    assert s[i] in multiset(s[..j]) && s[i] in multiset(s[j..]);
  }

  lemma {:induction false} DistinctOnce<T>(s: seq<T>, x: T)
    requires Distinct(s)
    ensures multiset(s)[x] <= 1
  {
    if |s| > 0 {
      DistinctOnce(s[1..], x);
      assert s == [s[0]] + s[1..];
    }
  }

  /** A strictly increasing list is determined by its elements. */
  lemma {:induction false} IncreasingUnique<T(!new)>(a: seq<T>, b: seq<T>, less: (T, T) -> bool)
    requires forall x, y :: less(x, y) ==> !less(y, x)
    requires Increasing(a, less) && Increasing(b, less)
    requires Elements(a) == Elements(b)
    ensures a == b
  {
    assert |a| > 0 ==> a[0] in Elements(a);
    assert |b| > 0 ==> b[0] in Elements(b);
    if |a| > 0 && |b| > 0 {
      FirstIsLeast(a, b, less);
      FirstIsLeast(b, a, less);
      TailElements(a, less);
      TailElements(b, less);
      IncreasingUnique(a[1..], b[1..], less);
    }
  }

  /** The first element comes before every other element of the list. */
  lemma FirstIsLeast<T(!new)>(a: seq<T>, b: seq<T>, less: (T, T) -> bool)
    requires |a| > 0 && |b| > 0 && Increasing(a, less) && Elements(a) == Elements(b)
    ensures a[0] == b[0] || less(a[0], b[0])
  {
    assert b[0] in Elements(a);
  }

  lemma TailElements<T(!new)>(s: seq<T>, less: (T, T) -> bool)
    requires |s| > 0 && Increasing(s, less)
    requires forall x, y :: less(x, y) ==> !less(y, x)
    ensures Elements(s[1..]) == Elements(s) - {s[0]}
  {
  }
}
