/**
 * The local sort of MergeSortMPI.c: `qsort` with `ascending_comparator`, used
 * by every rank on its shard and by rank 0 on the reference copy of the input.
 *
 * `qsort` is a library routine; it is described here by what it produces,
 * the ascending permutation of its input, and that result is unique, so any
 * correct sort yields the same sequence as LocalSort.
 */
module Sorting {
  import opened Bits
  import opened TwoWayMerge

  /**
   * `ascending_comparator`: `*p1 - *p2` on 32-bit `int`s.  C leaves a signed
   * overflow undefined, so the subtraction must stay inside the `int` range.
   */
  function AscendingComparator(p1: int, p2: int): (r: int)
    requires IntMin <= p1 < IntLimit && IntMin <= p2 < IntLimit
    requires IntMin <= p1 - p2 < IntLimit
    ensures IntMin <= r < IntLimit
    ensures r < 0 <==> p1 < p2
    ensures r == 0 <==> p1 == p2
    ensures r > 0 <==> p1 > p2
  {
    p1 - p2
  }

  /** The sequence `qsort` leaves behind: the input in ascending order (see LocalSortCorrect). */
  function LocalSort(s: seq<int>): (sorted: seq<int>)
    decreases |s|
  {
    if s == [] then [] else MergeBy([s[0]], LocalSort(s[1..]), Id)
  }

  /** LocalSort arranges its input in ascending order, keeping every element. */
  lemma {:induction false} LocalSortCorrect(s: seq<int>)
    ensures Sorted(LocalSort(s)) && multiset(LocalSort(s)) == multiset(s)
    decreases |s|
  {
    if s != [] {
      var rest := LocalSort(s[1..]);
      LocalSortCorrect(s[1..]);
      MergeBySorted([s[0]], rest, Id);
      MergeByPermutes([s[0]], rest, Id);
      assert s == [s[0]] + s[1..];
    }
  }

  /** Two ascending sequences with the same elements are equal. */
  lemma {:induction false} SortedUnique(a: seq<int>, b: seq<int>)
    requires Sorted(a) && Sorted(b) && multiset(a) == multiset(b)
    ensures a == b
    decreases |a|
  {
    assert |a| == |multiset(a)| == |multiset(b)| == |b|;
    if a != [] {
      SameMinimum(a, b);
      SortedTail(a);
      SortedTail(b);
      assert a == [a[0]] + a[1..] && b == [b[0]] + b[1..];
      assert multiset(a[1..]) == multiset(a) - multiset{a[0]};
      assert multiset(b[1..]) == multiset(b) - multiset{b[0]};
      SortedUnique(a[1..], b[1..]);
    }
  }

  /** Ascending non-empty sequences with the same elements start with the same (least) element. */
  lemma SameMinimum(a: seq<int>, b: seq<int>)
    requires Sorted(a) && Sorted(b) && multiset(a) == multiset(b) && a != [] && b != []
    ensures a[0] == b[0]
  {
    assert a[0] in multiset(b) && b[0] in multiset(a);
    var j :| 0 <= j < |b| && b[j] == a[0];
    var i :| 0 <= i < |a| && a[i] == b[0];
    assert j == 0 || Id(b[0]) <= Id(b[j]);
    assert i == 0 || Id(a[0]) <= Id(a[i]);
  }

  lemma SortedTail(s: seq<int>)
    requires Sorted(s) && s != []
    ensures Sorted(s[1..])
  {
    forall i, j | 0 <= i < j < |s[1..]|
      ensures Id(s[1..][i]) <= Id(s[1..][j])
    {
      assert s[1..][i] == s[i + 1] && s[1..][j] == s[j + 1];
    }
  }

  /** Every ascending arrangement of s is LocalSort(s): any correct sort agrees with it. */
  lemma SortIsUnique(s: seq<int>, t: seq<int>)
    requires Sorted(t) && multiset(t) == multiset(s)
    ensures t == LocalSort(s)
  {
    LocalSortCorrect(s);
    SortedUnique(t, LocalSort(s));
  }

  /** Sorting an ascending sequence leaves it as it is; in particular sorting twice is sorting once. */
  lemma LocalSortIdempotent(s: seq<int>)
    ensures Sorted(s) ==> LocalSort(s) == s
    ensures LocalSort(LocalSort(s)) == LocalSort(s)
  {
    if Sorted(s) {
      SortIsUnique(s, s);
    }
    LocalSortCorrect(s);
    SortIsUnique(LocalSort(s), LocalSort(s));
  }

  /**
   * `qsort(local_numbers_array, ...)`: sorts the array in place.
   */
  method SortInPlace(a: array<int>)
    modifies a
    ensures a[..] == LocalSort(old(a[..]))
  {
    var sorted := LocalSort(a[..]);
    LocalSortCorrect(a[..]);
    assert |sorted| == |multiset(sorted)| == a.Length;
    forall i | 0 <= i < a.Length {
      a[i] := sorted[i];
    }
  }
}
