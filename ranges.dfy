/** The runs of integers that the tests of package ds fill their structures with. */
module Ranges {

  /** 0, 1, ..., k-1. */
  function Upto(k: nat): (u: seq<int>)
    ensures |u| == k && forall j :: 0 <= j < k ==> u[j] == j
  {
    if k == 0 then [] else Upto(k - 1) + [k - 1]
  }

  /** k-1, ..., 1, 0. */
  function Downfrom(k: nat): (d: seq<int>)
    ensures |d| == k && forall j :: 0 <= j < k ==> d[j] == k - 1 - j
  {
    if k == 0 then [] else [k - 1] + Downfrom(k - 1)
  }
}
