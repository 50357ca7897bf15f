/**
 * The 80/20 cut both `training/data_loader.py` and `training/train.py` make,
 * and Python's slices `s[:k]` and `s[k:]`, which clamp `k` to the length.
 */
module Partition {

  /**
   * `int(n * 0.8)`: the largest integer not above four fifths of `n`. The
   * float product is exact for multiples of 5 and, for every other `n` of
   * realistic size, its rounding error is far below the distance (at least
   * 0.2) to the next integer.
   */
  function SplitIndex(n: nat): (k: nat)
    ensures 5 * k <= 4 * n < 5 * k + 5
    ensures k <= n
  {
    (4 * n) / 5
  }

  /** An empty list is cut into two empty halves; a non-empty one keeps a test item. */
  lemma SplitIndexEdges(n: nat)
    ensures n == 0 ==> SplitIndex(n) == 0
    ensures n > 0 ==> SplitIndex(n) < n
    ensures n % 5 == 0 ==> 5 * SplitIndex(n) == 4 * n
  {
  }

  /** `s[:k]`. */
  function Take<T>(s: seq<T>, k: nat): (r: seq<T>)
    ensures |r| == if k <= |s| then k else |s|
    ensures forall i :: 0 <= i < |r| ==> r[i] == s[i]
  {
    if k <= |s| then s[..k] else s
  }

  /** `s[k:]`. */
  function Drop<T>(s: seq<T>, k: nat): (r: seq<T>)
    ensures |r| == if k <= |s| then |s| - k else 0
    ensures forall i :: 0 <= i < |r| ==> r[i] == s[k + i]
  {
    if k <= |s| then s[k..] else []
  }

  /** The two slices put back together give the whole list, whatever `k` is. */
  lemma TakeDrop<T>(s: seq<T>, k: nat)
    ensures Take(s, k) + Drop(s, k) == s
  {
    if k <= |s| {
      assert s[..k] + s[k..] == s;
    }
  }
}
