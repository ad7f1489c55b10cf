/** Rust's `partition_point`. */
module Partition {
  /** How many leading elements satisfy the predicate. */
  function PartitionPoint<T>(s: seq<T>, p: T -> bool): (k: nat)
    ensures k <= |s| && (forall i :: 0 <= i < k ==> p(s[i])) && (k < |s| ==> !p(s[k]))
  {
    if |s| == 0 || !p(s[0]) then 0 else 1 + PartitionPoint(s[1..], p)
  }
}
