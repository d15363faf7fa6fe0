/**
 The dense bucket array, the plain reference for the sparse one: one array slot per bucket, with
 the data value EMPTY marking the unused ones.
 */
module DenseTable {
  import opened Common
  import opened Buckets
  import SparseTable

  ghost function Seen<K>(item: HTItem<K>): Option<HTItem<K>> {
    if item.data == EMPTY then None else Some(item)
  }

  ghost function SeenAll<K>(items: seq<HTItem<K>>): (c: Contents<K>)
    ensures |c| == |items| && forall i | 0 <= i < |c| :: c[i] == Seen(items[i])
  {
    seq(|items|, i requires 0 <= i < |items| => Seen(items[i]))
  }

  class Table<K(0)> {
    const rgBuckets: array<HTItem<K>>

    ghost function Contents(): Contents<K>
      reads rgBuckets
    {
      SeenAll(rgBuckets[..])
    }

    constructor Allocate(cBuckets: nat)
      ensures fresh(rgBuckets) && Contents() == Empty<K>(cBuckets)
    {
      rgBuckets := new HTItem<K>[cBuckets];
      new;
      var left := cBuckets;
      while left > 0
        invariant left <= rgBuckets.Length
        invariant forall i | left <= i < rgBuckets.Length :: rgBuckets[i].data == EMPTY
      {
        left := left - 1;
        rgBuckets[left] := rgBuckets[left].(data := EMPTY);
      }
    }

    method IsEmpty(location: nat) returns (empty: bool)
      requires location < |Contents()|
      ensures empty == Contents()[location].None?
    {
      empty := rgBuckets[location].data == EMPTY;
    }

    /** The slot of a filled bucket. */
    method Find(location: nat) returns (r: Option<nat>)
      requires location < |Contents()|
      ensures r == if Contents()[location].Some? then Some(location) else None
    {
      var empty := IsEmpty(location);
      r := if empty then None else Some(location);
    }

    /** Stores the item as Inserted says exactly when its data cannot be mistaken for EMPTY. */
    method Insert(item: HTItem<K>, location: nat, fOverwrite: bool) returns (occupied: bool)
      requires location < |Contents()|
      modifies rgBuckets
      ensures occupied == old(Contents()[location].Some?)
      ensures Contents() == Inserted(old(Contents()), location, item, fOverwrite)
              <==> item.data != EMPTY || (occupied && !fOverwrite)
    {
      ghost var was := rgBuckets[..];
      var found := Find(location);
      occupied := found.Some?;
      if found.Some? {
        if fOverwrite {
          rgBuckets[location] := item;
        }
      } else {
        rgBuckets[location] := item;
      }
      assert rgBuckets[..] == if occupied && !fOverwrite then was else was[location := item];
      assert Contents()[location] == if occupied && !fOverwrite then Seen(was[location]) else Seen(item);
    }
  }

  datatype Insertion<K> = Insertion(item: HTItem<K>, location: nat, fOverwrite: bool)

  ghost function AfterRun<K>(c: Contents<K>, run: seq<Insertion<K>>): (r: Contents<K>)
    requires forall op | op in run :: op.location < |c|
    ensures |r| == |c|
    decreases |run|
  {
    if run == [] then c
    else
      var c' := AfterRun(c, run[..|run| - 1]);
      var op := run[|run| - 1];
      Inserted(c', op.location, op.item, op.fOverwrite)
  }

  /**
   Any run of inserts of non-EMPTY data on a sparse and a dense array with equal contents
   reports the same occupied buckets and leaves equal contents.
   */
  method RunBoth<K(0)>(sparse: SparseTable.Table<K>, dense: Table<K>, run: seq<Insertion<K>>)
    returns (fromSparse: seq<bool>, fromDense: seq<bool>)
    requires sparse.Valid() && dense.Contents() == sparse.Contents()
    requires forall op | op in run :: op.location < |dense.Contents()| && op.item.data != EMPTY
    modifies sparse.bins, dense.rgBuckets
    ensures fromSparse == fromDense
    ensures sparse.Valid() && sparse.Contents() == dense.Contents() == AfterRun(old(dense.Contents()), run)
  {
    fromSparse, fromDense := [], [];
    for i := 0 to |run|
      invariant sparse.Valid() && fromSparse == fromDense
      invariant sparse.Contents() == dense.Contents() == AfterRun(old(dense.Contents()), run[..i])
    {
      assert run[..i + 1][..i] == run[..i] && run[i] in run;
      var _, sparseOccupied := sparse.Insert(run[i].item, run[i].location, run[i].fOverwrite);
      var denseOccupied := dense.Insert(run[i].item, run[i].location, run[i].fOverwrite);
      fromSparse, fromDense := fromSparse + [sparseOccupied], fromDense + [denseOccupied];
    }
    assert run[..|run|] == run;
  }
}
