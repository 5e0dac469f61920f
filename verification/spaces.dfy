/** The space boundary table of a paragraph and the `bisect_right` search the
    word skip uses to pick its target in it. */
module Spaces {

  /** `a` is in non-decreasing order: the precondition of a binary search. */
  predicate Sorted(a: seq<int>) {
    forall i, j :: 0 <= i < j < |a| ==> a[i] <= a[j]
  }

  /** `a` is in strictly increasing order. */
  predicate StrictlySorted(a: seq<int>) {
    forall i, j :: 0 <= i < j < |a| ==> a[i] < a[j]
  }

  /** The indices of `' '` in `p` at or after `i`, in ascending order. */
  function SpacesFrom(p: string, i: nat): (r: seq<int>)
    requires i <= |p|
    ensures StrictlySorted(r)
    ensures forall k :: 0 <= k < |r| ==> i <= r[k] < |p| && p[r[k]] == ' '
    ensures forall j :: i <= j < |p| && p[j] == ' ' ==> j in r
    decreases |p| - i
  {
    if i == |p| then []
    else if p[i] == ' ' then [i] + SpacesFrom(p, i + 1)
    else SpacesFrom(p, i + 1)
  }

  /** Every index of a space in `p`, ascending, followed by the sentinel `|p|`. */
  function SpaceTable(p: string): (t: seq<int>)
    ensures |t| >= 1 && t[|t| - 1] == |p|
    ensures StrictlySorted(t)
    ensures forall k :: 0 <= k < |t| - 1 ==> 0 <= t[k] < |p| && p[t[k]] == ' '
    ensures forall j :: 0 <= j < |p| && p[j] == ' ' ==> j in t
  {
    SpacesFrom(p, 0) + [|p|]
  }

  /** `bisect_right(a, x)` on a sorted list: the number of entries `<= x`,
      which is also the position of the least entry `> x` (or `|a|`). */
  function BisectRight(a: seq<int>, x: int): (i: nat)
    requires Sorted(a)
    ensures i <= |a|
    ensures forall k :: 0 <= k < i ==> a[k] <= x
    ensures forall k :: i <= k < |a| ==> x < a[k]
  {
    if |a| == 0 || x < a[0] then 0 else 1 + BisectRight(a[1..], x)
  }

  /** The binary search of Python's `bisect_right` (`lo = 0`, `hi = len(a)`,
      halve until they meet); it finds the same position as `BisectRight`. */
  method BisectSearch(a: seq<int>, x: int) returns (lo: nat)
    requires Sorted(a)
    ensures lo == BisectRight(a, x)
  {
    lo := 0;
    var hi := |a|;
    while lo < hi
      invariant lo <= hi <= |a|
      invariant forall k :: 0 <= k < lo ==> a[k] <= x
      invariant forall k :: hi <= k < |a| ==> x < a[k]
      decreases hi - lo
    {
      var mid := (lo + hi) / 2;
      if x < a[mid] {
        hi := mid;
      } else {
        lo := mid + 1;
      }
    }
    // Both positions split `a` into entries `<= x` and entries `> x`.
    ghost var b := BisectRight(a, x);
    assert lo < |a| ==> x < a[lo];
    assert b < |a| ==> x < a[b];
  }

  /** Reference definition of the word-skip target: the least position after
      `c` that holds a space, or the end of the text when there is none. */
  function NextBoundary(p: string, c: nat): (b: nat)
    requires c < |p|
    ensures c < b <= |p|
    ensures b == |p| || p[b] == ' '
    ensures forall k :: c < k < b ==> p[k] != ' '
    decreases |p| - c
  {
    if c + 1 == |p| then |p|
    else if p[c + 1] == ' ' then c + 1
    else NextBoundary(p, c + 1)
  }
}
