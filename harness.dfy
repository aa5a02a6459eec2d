/**
 * `main` and `compare_numbers_array` of MergeSortMPI.c: the group-size and
 * argument checks, the scatter of rank 0's array, the merge tree over all
 * ranks, and rank 0's check of the result against `qsort` of a copy of the
 * input.
 */
module Harness {
  import opened Bits
  import opened Topology
  import opened Sorting
  import opened Partition
  import opened Reduction

  /** What `main` returns. */
  datatype ExitCode = Success | CommGroupOddSize | ArgcIncorrectValue

  /**
   * `compare_numbers_array`: walks both arrays and stops at the first index
   * where they differ (the `ASSERT` macro returns there).  `at` is where the
   * walk stopped: `size` when every element matched.
   */
  method CompareNumbersArray(arr1: array<int>, arr2: array<int>, size: nat) returns (passed: bool, at: nat)
    requires size <= arr1.Length && size <= arr2.Length
    ensures passed <==> arr1[..size] == arr2[..size]
    ensures passed ==> at == size
    ensures !passed ==> at < size && arr1[at] != arr2[at] && arr1[..at] == arr2[..at]
  {
    var i: nat := 0;
    while i < size
      invariant i <= size
      invariant arr1[..i] == arr2[..i]
    {
      if arr1[i] != arr2[i] {
        assert arr1[..size][i] != arr2[..size][i];
        return false, i;
      }
      assert arr1[..i + 1] == arr1[..i] + [arr1[i]];
      assert arr2[..i + 1] == arr2[..i] + [arr2[i]];
      i := i + 1;
    }
    passed, at := true, size;
  }

  /**
   * `main` for a group of `groupSize` processes started with `argc`
   * arguments, on the array rank 0 fills: refuses a group size that is not a
   * power of two, then a wrong argument count; otherwise scatters the array,
   * runs `merge_sort` on every rank, and on rank 0 compares the merged result
   * with `qsort` of the copy.  Returns the exit code, rank 0's sorted array
   * and whether the comparison found every element equal.
   */
  method Run(groupSize: int, argc: int, input: seq<int>) returns (code: ExitCode, sorted: Option<seq<int>>, passed: bool)
    requires groupSize < IntLimit
    requires IsPowerOf2(groupSize) && argc == 2 ==> |input| % groupSize == 0
    ensures !IsPowerOf2(groupSize) ==> code == CommGroupOddSize
    ensures IsPowerOf2(groupSize) && argc != 2 ==> code == ArgcIncorrectValue
    ensures code == Success <==> IsPowerOf2(groupSize) && argc == 2
    ensures code != Success ==> sorted == None && !passed
    ensures code == Success ==> sorted == Some(LocalSort(input)) && passed
  {
    if !IsPowerOf2(groupSize) {
      return CommGroupOddSize, None, false;
    }
    if argc != 2 {
      return ArgcIncorrectValue, None, false;
    }

    var P: nat := groupSize;
    sorted, passed := SortAndCheck(P, input);
    code := Success;
  }

  /**
   * The body of `main` past its checks, for a group of P = 2^H ranks: rank 0
   * copies its array, every rank sorts its block and merges along the tree,
   * and rank 0 compares the merged array with the `qsort`ed copy.
   */
  method SortAndCheck(P: nat, input: seq<int>) returns (sorted: Option<seq<int>>, passed: bool)
    requires P < IntLimit && IsPowerOf2(P) && |input| % P == 0
    ensures sorted == Some(LocalSort(input)) && passed
  {
    // The group is 2^H ranks, H <= 30 since the group size is an `int`.
    PowerOf2Log2(P);
    var H := Log2(P);
    Pow2Int32();
    Pow2Monotonic(H, 31);

    var global := BufferOf(input);
    var copy := BufferOf(input);
    var size := |input| / P;
    ExactDivision(|input|, P);

    var shards := Scatter(global[..], size, P);
    var results := Reduce(H, shards, size, global[..]);
    TreeSortsInput(input, size, H);
    LocalSortCorrect(input);
    var merged := BufferOf(results[0].value);

    SortInPlace(copy);
    var at;
    passed, at := CompareNumbersArray(merged, copy, |input|);
    sorted := Some(merged[..]);
  }
}
