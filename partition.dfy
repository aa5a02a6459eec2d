/**
 * How `main` in MergeSortMPI.c distributes the input: `MPI_Scatter` hands
 * rank i the i-th block of `local_numbers_array_size` consecutive elements of
 * rank 0's array.  Gather is the inverse reading: the shards laid end to end.
 */
module Partition {

  /** The shards laid end to end, in rank order. */
  function Gather(shards: seq<seq<int>>): (whole: seq<int>)
  {
    if shards == [] then [] else Gather(shards[..|shards| - 1]) + shards[|shards| - 1]
  }

  /**
   * `MPI_Scatter` of `count` blocks of `size` elements: rank i receives the
   * i-th block of consecutive elements of the input.
   */
  function Scatter(input: seq<int>, size: nat, count: nat): (shards: seq<seq<int>>)
    requires |input| == size * count
    ensures |shards| == count
    ensures forall i :: 0 <= i < count ==> |shards[i]| == size
    decreases count
  {
    if count == 0 then []
    else
      assert size * count == size * (count - 1) + size;
      var n := |input| - size;
      Scatter(input[..n], size, count - 1) + [input[n..]]
  }

  /** Where rank i's block starts in the input: `i * size`, built up one block at a time. */
  function BlockStart(size: nat, i: nat): (start: nat)
  {
    if i == 0 then 0 else BlockStart(size, i - 1) + size
  }

  lemma {:induction false} BlockStartIsProduct(size: nat, i: nat)
    ensures BlockStart(size, i) == size * i
  {
    if i > 0 {
      BlockStartIsProduct(size, i - 1);
      assert size * i == size * (i - 1) + size;
    }
  }

  /** Rank i's shard is the block of `size` elements starting at `i * size`. */
  lemma {:induction false} ScatterBlock(input: seq<int>, size: nat, count: nat, i: nat)
    requires |input| == size * count && i < count
    ensures BlockStart(size, i) + size <= |input|
    ensures Scatter(input, size, count)[i] == input[BlockStart(size, i)..BlockStart(size, i) + size]
    decreases count
  {
    BlockStartIsProduct(size, count);
    BlockStartIsProduct(size, count - 1);
    BlockStartsAscend(size, i + 1, count);
    var n := |input| - size;
    var front := Scatter(input[..n], size, count - 1);
    assert Scatter(input, size, count) == front + [input[n..]];
    if i < count - 1 {
      ScatterBlock(input[..n], size, count - 1, i);
    }
  }

  lemma {:induction false} BlockStartsAscend(size: nat, i: nat, j: nat)
    requires i <= j
    ensures BlockStart(size, i) <= BlockStart(size, j)
    decreases j - i
  {
    if i < j {
      BlockStartsAscend(size, i, j - 1);
    }
  }

  /** The elements held by the `count` consecutive ranks starting at rank `from`. */
  function Span(shards: seq<seq<int>>, from: nat, count: nat): (run: seq<int>)
    requires from + count <= |shards|
    decreases count
  {
    if count == 0 then [] else Span(shards, from, count - 1) + shards[from + count - 1]
  }

  /** Two adjacent runs of ranks hold, together, what their union holds. */
  lemma {:induction false} SpanAppend(shards: seq<seq<int>>, from: nat, m: nat, n: nat)
    requires from + m + n <= |shards|
    ensures Span(shards, from, m + n) == Span(shards, from, m) + Span(shards, from + m, n)
    decreases n
  {
    if n > 0 {
      SpanAppend(shards, from, m, n - 1);
    }
  }

  /** Shards of equal length span that length times their number. */
  lemma {:induction false} SpanLength(shards: seq<seq<int>>, size: nat, from: nat, count: nat)
    requires from + count <= |shards|
    requires forall i :: from <= i < from + count ==> |shards[i]| == size
    ensures |Span(shards, from, count)| == size * count
    decreases count
  {
    if count > 0 {
      SpanLength(shards, size, from, count - 1);
      assert size * count == size * (count - 1) + size;
    }
  }

  /** What the ranks below m hold does not depend on the ranks from m on. */
  lemma {:induction false} SpanOfPrefix(shards: seq<seq<int>>, m: nat, count: nat)
    requires count <= m <= |shards|
    ensures Span(shards[..m], 0, count) == Span(shards, 0, count)
    decreases count
  {
    if count > 0 {
      SpanOfPrefix(shards, m, count - 1);
    }
  }

  /** Gathering every shard is the span of all ranks. */
  lemma {:induction false} GatherIsSpan(shards: seq<seq<int>>)
    ensures Gather(shards) == Span(shards, 0, |shards|)
    decreases |shards|
  {
    if shards != [] {
      var n := |shards| - 1;
      GatherIsSpan(shards[..n]);
      SpanOfPrefix(shards, n, n);
    }
  }

  /** Scattering and gathering back gives the original array: no element is lost, duplicated or moved. */
  lemma {:induction false} GatherScatter(input: seq<int>, size: nat, count: nat)
    requires |input| == size * count
    ensures Gather(Scatter(input, size, count)) == input
    decreases count
  {
    if count > 0 {
      assert size * count == size * (count - 1) + size;
      var n := |input| - size;
      var shards := Scatter(input, size, count);
      assert shards[..count - 1] == Scatter(input[..n], size, count - 1);
      GatherScatter(input[..n], size, count - 1);
      assert input == input[..n] + input[n..];
    }
  }

  /** An array whose length is a multiple of the group size splits into that many equal blocks. */
  lemma ExactDivision(n: nat, count: nat)
    requires count > 0 && n % count == 0
    ensures n == (n / count) * count
  {
  }

  /** A buffer of `|s|` integers holding s: `calloc` followed by a receive or a copy into it. */
  method BufferOf(s: seq<int>) returns (a: array<int>)
    ensures fresh(a) && a[..] == s
  {
    a := new int[|s|](i requires 0 <= i < |s| => s[i]);
  }
}
