/**
 What a bucket array of the hash table holds, and the one insert operation that the sparse and
 the dense representation both implement.
 */
module Buckets {
  import opened Bits
  import opened Common

  // Data values that the table keeps for itself: -2 and -3 as unsigned words.
  const DELETED: nat := WORD - 2
  const EMPTY: nat := WORD - 3

  datatype HTItem<K> = HTItem(data: nat, key: K)

  // One entry per bucket, None where the bucket has never been filled.
  type Contents<K> = seq<Option<HTItem<K>>>

  ghost function Empty<K>(n: nat): (c: Contents<K>)
    ensures |c| == n && forall i | 0 <= i < n :: c[i].None?
  {
    seq(n, _ => None)
  }

  /** The bucket array after inserting item at location: an occupied bucket changes only if fOverwrite. */
  ghost function Inserted<K>(c: Contents<K>, location: nat, item: HTItem<K>, fOverwrite: bool): (r: Contents<K>)
    requires location < |c|
    ensures |r| == |c|
  {
    if c[location].Some? && !fOverwrite then c else c[location := Some(item)]
  }
}
