/**
 * The two-way merger `merge` of MergeSortMPI.c: two ascending runs of equal
 * length `size` are merged into `merged_array[0 .. 2*size)`; on equal heads
 * the element of the first run goes first.
 *
 * MergeBy is the merge as a function on sequences, generic in the key that is
 * compared, so that the tie-break can be stated on elements tagged with the
 * run they came from; the `int` merge of the program is MergeBy with key Id.
 */
module TwoWayMerge {

  /** The key of an `int` element is the element itself. */
  function Id(x: int): (y: int)
  {
    x
  }

  /** s is ascending by key. */
  predicate SortedBy<T>(s: seq<T>, key: T -> int)
  {
    forall i, j :: 0 <= i < j < |s| ==> key(s[i]) <= key(s[j])
  }

  /** s is ascending. */
  predicate Sorted(s: seq<int>)
  {
    SortedBy(s, Id)
  }

  /**
   * The merge loop of `merge`: while both runs have elements, take the head
   * of `a` when its key is at most that of the head of `b`, otherwise the head
   * of `b`; then copy what is left of the other run.
   */
  function MergeBy<T>(a: seq<T>, b: seq<T>, key: T -> int): (m: seq<T>)
    ensures |m| == |a| + |b|
    decreases |a| + |b|
  {
    if a == [] then b
    else if b == [] then a
    else if key(a[0]) <= key(b[0]) then [a[0]] + MergeBy(a[1..], b, key)
    else [b[0]] + MergeBy(a, b[1..], key)
  }

  // ---------------------------------------------------------------------------
  // Permutation and order

  /** The merge holds exactly the elements of both runs. */
  lemma {:induction false} MergeByPermutes<T>(a: seq<T>, b: seq<T>, key: T -> int)
    ensures multiset(MergeBy(a, b, key)) == multiset(a) + multiset(b)
    decreases |a| + |b|
  {
    if a != [] && b != [] {
      if key(a[0]) <= key(b[0]) {
        var rest := MergeBy(a[1..], b, key);
        MergeByPermutes(a[1..], b, key);
        assert MergeBy(a, b, key) == [a[0]] + rest;
        assert a == [a[0]] + a[1..];
        assert multiset(a) == multiset([a[0]]) + multiset(a[1..]);
      } else {
        var rest := MergeBy(a, b[1..], key);
        MergeByPermutes(a, b[1..], key);
        assert MergeBy(a, b, key) == [b[0]] + rest;
        assert b == [b[0]] + b[1..];
        assert multiset(b) == multiset([b[0]]) + multiset(b[1..]);
      }
    }
  }

  /** Putting an element in front of an ascending run whose keys are all at least its own keeps it ascending. */
  lemma ConsSorted<T>(x: T, s: seq<T>, key: T -> int)
    requires SortedBy(s, key)
    requires forall y :: y in s ==> key(x) <= key(y)
    ensures SortedBy([x] + s, key)
  {
    forall i, j | 0 <= i < j < |[x] + s|
      ensures key(([x] + s)[i]) <= key(([x] + s)[j])
    {
      if i == 0 {
        assert ([x] + s)[j] == s[j - 1];
        assert s[j - 1] in s;
      } else {
        assert ([x] + s)[i] == s[i - 1] && ([x] + s)[j] == s[j - 1];
      }
    }
  }

  /** Merging two ascending runs gives an ascending run. */
  lemma {:induction false} MergeBySorted<T>(a: seq<T>, b: seq<T>, key: T -> int)
    requires SortedBy(a, key) && SortedBy(b, key)
    ensures SortedBy(MergeBy(a, b, key), key)
    decreases |a| + |b|
  {
    if a != [] && b != [] {
      if key(a[0]) <= key(b[0]) {
        var rest := MergeBy(a[1..], b, key);
        MergeBySorted(a[1..], b, key);
        MergeByPermutes(a[1..], b, key);
        forall y | y in rest ensures key(a[0]) <= key(y) {
          assert y in multiset(rest);
          if y in a[1..] {
            var i :| 0 <= i < |a[1..]| && a[1..][i] == y;
            assert a[i + 1] == y;
          } else {
            assert y in b;
            var j :| 0 <= j < |b| && b[j] == y;
          }
        }
        ConsSorted(a[0], rest, key);
      } else {
        var rest := MergeBy(a, b[1..], key);
        MergeBySorted(a, b[1..], key);
        MergeByPermutes(a, b[1..], key);
        forall y | y in rest ensures key(b[0]) <= key(y) {
          assert y in multiset(rest);
          if y in b[1..] {
            var j :| 0 <= j < |b[1..]| && b[1..][j] == y;
            assert b[j + 1] == y;
          } else {
            assert y in a;
            var i :| 0 <= i < |a| && a[i] == y;
          }
        }
        ConsSorted(b[0], rest, key);
      }
    }
  }

  // ---------------------------------------------------------------------------
  // Tie-break: on equal heads the first run wins

  /** An element of the merge, tagged with the run it came from. */
  datatype Tagged = Tagged(value: int, fromFirst: bool)

  function ValueOf(t: Tagged): (v: int)
  {
    t.value
  }

  /** The elements of s, each tagged as coming from the first run or not. */
  function Tag(s: seq<int>, fromFirst: bool): (t: seq<Tagged>)
    ensures |t| == |s|
    ensures forall i :: 0 <= i < |s| ==> t[i] == Tagged(s[i], fromFirst)
  {
    seq(|s|, i requires 0 <= i < |s| => Tagged(s[i], fromFirst))
  }

  /** The values of the tagged elements of t. */
  function Values(t: seq<Tagged>): (s: seq<int>)
    ensures |s| == |t|
    ensures forall i :: 0 <= i < |t| ==> s[i] == t[i].value
  {
    seq(|t|, i requires 0 <= i < |t| => t[i].value)
  }

  /** Merging tagged runs by value and dropping the tags is the `int` merge. */
  lemma {:induction false} MergeTaggedValues(a: seq<int>, b: seq<int>)
    ensures Values(MergeBy(Tag(a, true), Tag(b, false), ValueOf)) == MergeBy(a, b, Id)
    decreases |a| + |b|
  {
    var ta, tb := Tag(a, true), Tag(b, false);
    if a != [] && b != [] {
      if a[0] <= b[0] {
        assert ta[1..] == Tag(a[1..], true);
        MergeTaggedValues(a[1..], b);
        assert Values([ta[0]] + MergeBy(ta[1..], tb, ValueOf))
            == [a[0]] + Values(MergeBy(ta[1..], tb, ValueOf));
      } else {
        assert tb[1..] == Tag(b[1..], false);
        MergeTaggedValues(a, b[1..]);
        assert Values([tb[0]] + MergeBy(ta, tb[1..], ValueOf))
            == [b[0]] + Values(MergeBy(ta, tb[1..], ValueOf));
      }
    } else if a == [] {
      assert Values(tb) == b;
    } else {
      assert Values(ta) == a;
    }
  }

  /**
   * The `<=` test of `merge`: when the first run is ascending, no element of
   * the second run is placed before an equal element of the first run.
   */
  lemma MergeFavoursFirst(a: seq<int>, b: seq<int>)
    requires Sorted(a)
    ensures var m := MergeBy(Tag(a, true), Tag(b, false), ValueOf);
      forall p, q :: 0 <= p < q < |m| && m[p].value == m[q].value && m[q].fromFirst ==> m[p].fromFirst
  {
    var m := MergeBy(Tag(a, true), Tag(b, false), ValueOf);
    forall p, q | 0 <= p < q < |m| && m[p].value == m[q].value && m[q].fromFirst
      ensures m[p].fromFirst
    {
      TieBreakAt(a, b, p, q);
    }
  }

  /** One instance of MergeFavoursFirst: positions p < q holding equal values, q from the first run. */
  lemma {:induction false} TieBreakAt(a: seq<int>, b: seq<int>, p: nat, q: nat)
    requires Sorted(a)
    requires var m := MergeBy(Tag(a, true), Tag(b, false), ValueOf);
      p < q < |m| && m[p].value == m[q].value && m[q].fromFirst
    ensures MergeBy(Tag(a, true), Tag(b, false), ValueOf)[p].fromFirst
    decreases |a| + |b|
  {
    var ta, tb := Tag(a, true), Tag(b, false);
    var m := MergeBy(ta, tb, ValueOf);
    if a == [] {
      assert false;
    } else if b != [] {
      if a[0] <= b[0] {
        assert ta[1..] == Tag(a[1..], true);
        var rest := MergeBy(ta[1..], tb, ValueOf);
        assert m == [ta[0]] + rest;
        if p > 0 {
          assert m[p] == rest[p - 1] && m[q] == rest[q - 1];
          TieBreakAt(a[1..], b, p - 1, q - 1);
        }
      } else {
        assert tb[1..] == Tag(b[1..], false);
        var rest := MergeBy(ta, tb[1..], ValueOf);
        assert m == [tb[0]] + rest;
        assert m[q] == rest[q - 1];
        if p == 0 {
          // m[q] comes from the first run, so it is some a[i] >= a[0] > b[0] == m[0].value
          assert m[q] in rest;
          FirstRunLowerBound(a, b[1..], m[q]);
          assert false;
        } else {
          assert m[p] == rest[p - 1];
          TieBreakAt(a, b[1..], p - 1, q - 1);
        }
      }
    }
  }

  /** An element of the merge that came from the ascending first run is at least the head of that run. */
  lemma FirstRunLowerBound(a: seq<int>, b: seq<int>, y: Tagged)
    requires Sorted(a)
    requires y in MergeBy(Tag(a, true), Tag(b, false), ValueOf) && y.fromFirst
    ensures a != [] && a[0] <= y.value
  {
    var ta, tb := Tag(a, true), Tag(b, false);
    MergeByPermutes(ta, tb, ValueOf);
    assert y in multiset(ta) + multiset(tb);
    assert y !in tb;
    var i :| 0 <= i < |ta| && ta[i] == y;
    assert i == 0 || Id(a[0]) <= Id(a[i]);
  }

  /** One step of the merge loop, on runs read from index i of a and index j of b. */
  lemma MergeStep(a: seq<int>, b: seq<int>, i: nat, j: nat)
    requires i < |a| && j < |b|
    ensures a[i] <= b[j] ==> MergeBy(a[i..], b[j..], Id) == [a[i]] + MergeBy(a[i + 1..], b[j..], Id)
    ensures b[j] < a[i] ==> MergeBy(a[i..], b[j..], Id) == [b[j]] + MergeBy(a[i..], b[j + 1..], Id)
  {
    assert a[i..][1..] == a[i + 1..] && b[j..][1..] == b[j + 1..];
  }

  /** Dropping the head of the suffix of s from index i gives the suffix from i + 1. */
  lemma SuffixStep<T>(s: seq<T>, i: nat)
    requires i < |s|
    ensures s[i..][0] == s[i] && s[i..][1..] == s[i + 1..]
  {
  }

  /** Once one run is exhausted, the merge is the rest of the other run. */
  lemma RemainderOfMerge<T>(a: seq<T>, b: seq<T>, key: T -> int)
    requires a == [] || b == []
    ensures MergeBy(a, b, key) == a + b
  {
    if b == [] {
      assert a + b == a;
    }
  }

  // ---------------------------------------------------------------------------
  // The array procedure

  /**
   * `merge(first_half_array, second_half_array, merged_array, size)`: fills
   * `merged` (of length `2*size`, as allocated by the caller) with the merge
   * of the first `size` elements of the two inputs.
   */
  method Merge(first: array<int>, second: array<int>, merged: array<int>, size: nat)
    requires size <= first.Length && size <= second.Length && merged.Length == 2 * size
    requires merged != first && merged != second
    modifies merged
    ensures merged[..] == MergeBy(first[..size], second[..size], Id)
    ensures unchanged(first) && unchanged(second)
  {
    ghost var whole := MergeBy(first[..size], second[..size], Id);
    var ai, bi, ci := MergeWhileBothRemain(first, second, merged, size, whole);

    // The first run is used up: copy the rest of the second.
    if ai >= size {
      bi, ci := CopyRemaining(second, bi, size, merged, ci, whole);
    }

    // The second run is used up: copy the rest of the first.
    if bi >= size {
      ai, ci := CopyRemaining(first, ai, size, merged, ci, whole);
    }
  }

  /**
   * The main loop of `merge`: while both runs have elements, moves the
   * smaller head (the head of `first` on a tie) to `merged[ci]`.  On exit one
   * run is exhausted, `merged[..ci]` is the start of the merge `target`, and
   * the rest of `target` is what remains of the other run.
   */
  method MergeWhileBothRemain(first: array<int>, second: array<int>, merged: array<int>, size: nat, ghost target: seq<int>)
      returns (ai: nat, bi: nat, ci: nat)
    requires size <= first.Length && size <= second.Length && merged.Length == 2 * size
    requires merged != first && merged != second
    requires target == MergeBy(first[..size], second[..size], Id)
    modifies merged
    ensures ai <= size && bi <= size && ci == ai + bi && (ai == size || bi == size)
    ensures forall k :: 0 <= k < ci ==> merged[k] == target[k]
    ensures ai == size ==> target[ci..] == second[bi..size]
    ensures bi == size ==> target[ci..] == first[ai..size]
  {
    ghost var a, b := first[..size], second[..size];
    ai, bi, ci := 0, 0, 0;
    while ai < size && bi < size
      invariant ai <= size && bi <= size && ci == ai + bi
      invariant forall k :: 0 <= k < ci ==> merged[k] == target[k]
      invariant target[ci..] == MergeBy(a[ai..], b[bi..], Id)
    {
      MergeStep(a, b, ai, bi);
      SuffixStep(target, ci);
      if first[ai] <= second[bi] {
        merged[ci] := first[ai];
        ai := ai + 1;
      } else {
        merged[ci] := second[bi];
        bi := bi + 1;
      }
      ci := ci + 1;
    }
    RemainderOfMerge(a[ai..], b[bi..], Id);
    if ai == size {
      assert a[ai..] + b[bi..] == b[bi..] == second[bi..size];
    }
    if bi == size {
      assert a[ai..] + b[bi..] == a[ai..] == first[ai..size];
    }
  }

  /**
   * A tail loop of `merge`: copies `src[from .. n)` into the rest of `dst`,
   * from index `at` on, which completes `dst` as the sequence `target`.
   */
  method CopyRemaining(src: array<int>, from: nat, n: nat, dst: array<int>, at: nat, ghost target: seq<int>)
      returns (from': nat, at': nat)
    requires from <= n <= src.Length && dst != src
    requires |target| == dst.Length == at + (n - from)
    requires forall k :: 0 <= k < at ==> dst[k] == target[k]
    requires target[at..] == src[from..n]
    modifies dst
    ensures from' == n && at' == dst.Length
    ensures dst[..] == target
  {
    from', at' := from, at;
    while from' < n
      invariant from <= from' <= n && at' == at + (from' - from)
      invariant forall k :: 0 <= k < at' ==> dst[k] == target[k]
    {
      assert target[at'] == src[from'] by {
        assert target[at..][at' - at] == src[from..n][from' - from];
      }
      dst[at'] := src[from'];
      from', at' := from' + 1, at' + 1;
    }
  }
}
