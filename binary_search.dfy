/**
 * Lower-bound binary search over a sorted array that also counts its
 * iterations. Elements are only compared with the query, so they are
 * modelled as reals without floating-point rounding.
 */
module BinarySearch {
  import opened Wrappers

  predicate Sorted(a: seq<real>)
  {
    forall i, j :: 0 <= i < j < |a| ==> a[i] <= a[j]
  }

  /** Number of binary digits of n: floor(log2 n) + 1 for n >= 1, and 0 for n == 0. */
  function BitLength(n: nat): nat
  {
    if n == 0 then 0 else 1 + BitLength(n / 2)
  }

  function Pow2(e: nat): nat
  {
    if e == 0 then 1 else 2 * Pow2(e - 1)
  }

  /** BitLength(n) - 1 is floor(log2 n): 2^(BitLength(n) - 1) <= n < 2^BitLength(n). */
  lemma {:induction false} BitLengthIsLog2(n: nat)
    requires n >= 1
    ensures Pow2(BitLength(n) - 1) <= n < Pow2(BitLength(n))
  {
    if n > 1 {
      BitLengthIsLog2(n / 2);
    }
  }

  lemma {:induction false} BitLengthMonotone(a: nat, b: nat)
    requires a <= b
    ensures BitLength(a) <= BitLength(b)
  {
    if a > 0 {
      BitLengthMonotone(a / 2, b / 2);
    }
  }

  /** In a sorted array, an element >= x makes every later element >= x. */
  lemma SortedFrom(arr: seq<real>, mid: nat, x: real)
    requires Sorted(arr) && mid < |arr| && arr[mid] >= x
    ensures forall k :: mid <= k < |arr| ==> x <= arr[k]
  {
  }

  /** In a sorted array, an element < x makes every earlier element < x. */
  lemma SortedUpTo(arr: seq<real>, mid: nat, x: real)
    requires Sorted(arr) && mid < |arr| && arr[mid] < x
    ensures forall k :: 0 <= k <= mid ==> arr[k] < x
  {
  }

  /** Either half left by the midpoint has at least one binary digit fewer than the range. */
  lemma MidpointHalves(low: int, high: int)
    requires 0 <= low <= high
    ensures var mid := (low + high) / 2;
      low <= mid <= high &&
      BitLength(mid - low) + 1 <= BitLength(high + 1 - low) &&
      BitLength(high - mid) + 1 <= BitLength(high + 1 - low)
  {
    var mid := (low + high) / 2;
    var size := high + 1 - low;
    assert mid - low == (size - 1) / 2;
    assert high - mid == size / 2;
    BitLengthMonotone((size - 1) / 2, size / 2);
  }

  /**
   * Returns the number of loop iterations and the smallest element >= x,
   * or None when every element is below x.
   */
  method FloatBinarySearch(arr: seq<real>, x: real) returns (iterations: nat, upperBound: Option<real>)
    requires Sorted(arr)
    ensures upperBound == None <==> forall k :: 0 <= k < |arr| ==> arr[k] < x
    ensures upperBound.Some? ==> upperBound.value in arr && x <= upperBound.value
    ensures upperBound.Some? ==> forall k :: 0 <= k < |arr| && x <= arr[k] ==> upperBound.value <= arr[k]
    ensures |arr| == 0 ==> iterations == 0
    ensures |arr| > 0 ==> 1 <= iterations <= BitLength(|arr|)
  {
    var low := 0;
    var high := |arr| - 1;
    iterations := 0;
    upperBound := None;
    while low <= high
      invariant 0 <= low <= high + 1 <= |arr|
      invariant forall k :: 0 <= k < low ==> arr[k] < x
      invariant forall k :: high < k < |arr| ==> x <= arr[k]
      invariant upperBound == if high + 1 < |arr| then Some(arr[high + 1]) else None
      invariant iterations + BitLength(high + 1 - low) <= BitLength(|arr|)
      invariant iterations == 0 ==> low == 0 && high == |arr| - 1
      decreases high - low
    {
      iterations := iterations + 1;
      var mid := (low + high) / 2;
      MidpointHalves(low, high);
      if arr[mid] >= x {
        SortedFrom(arr, mid, x);
        upperBound := Some(arr[mid]);
        high := mid - 1;
      } else {
        SortedUpTo(arr, mid, x);
        low := mid + 1;
      }
    }
  }
}
