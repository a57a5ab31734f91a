/** Linear and binary search over a list of integers (lab01). */
module Search {
  import opened Common

  /** Scans left to right; -1 when absent, otherwise the first index holding `target`. */
  method LinearSearch(arr: seq<int>, target: int) returns (r: int)
    ensures -1 <= r < |arr|
    ensures r == -1 <==> target !in arr
    ensures r >= 0 ==> arr[r] == target && target !in arr[..r]
  {
    var i := 0;
    while i < |arr|
      invariant 0 <= i <= |arr|
      invariant target !in arr[..i]
    {
      if arr[i] == target {
        return i;
      }
      i := i + 1;
    }
    assert arr[..i] == arr;
    return -1;
  }

  /**
   * Halves the window [left, right] until it is empty. A reported index
   * always holds `target`; on sorted input -1 means `target` is absent.
   */
  method BinarySearch(arr: seq<int>, target: int) returns (r: int)
    ensures -1 <= r < |arr|
    ensures r >= 0 ==> arr[r] == target
    ensures Sorted(arr) ==> (r == -1 <==> target !in arr)
  {
    var left, right := 0, |arr| - 1;
    while left <= right
      invariant 0 <= left <= right + 1 <= |arr|
      invariant Sorted(arr) ==> target !in arr[..left] && target !in arr[right + 1..]
    {
      var mid := (left + right) / 2;
      if arr[mid] == target {
        return mid;
      } else if arr[mid] < target {
        left := mid + 1;
      } else {
        right := mid - 1;
      }
    }
    assert arr == arr[..left] + arr[right + 1..];
    return -1;
  }
}
