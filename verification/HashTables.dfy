/**
 The hash table: quadratic probing over a sparse bucket array whose size is a power of two, with
 deleted buckets marked rather than emptied, growing and shrinking by rehashing.
 */
module HashTables {
  import opened Bits
  import opened Common
  import opened Buckets
  import opened Probing
  import opened Lookup
  import opened SparseTable
  import Sizing

  const MIN_HASH_SIZE: nat := 512

  // Largest table whose size SparseAllocate can report, and so the most items a table can hold.
  const MAX_SIZE: nat := 0x4000_0000
  const MAX_ITEMS: nat := 0x1FFF_FFFF

  lemma MaxSizeIsPow2()
    ensures IsPow2(MAX_SIZE)
  {
    WordIsPow2();
    assert Pow2(32) == 2 * Pow2(31) && Pow2(31) == 2 * Pow2(30);
  }

  /** Two bucket-to-bucket steps over filled buckets make one step over live ones. */
  ghost predicate AdvancedLive<K>(c: Contents<K>, from: int, to: int, r: Option<BucketRef>, shape: seq<seq<nat>>)
  {
    && from < to <= |c|
    && NoneLive(c, from, to)
    && match r
       case Some(p) => 0 <= to < |c| && Live(c[to]) && Refers(shape, p) && LocationOf(shape, p) == to
       case None => to == |c|
  }

  lemma NoneFilledNoneLive<K>(table: Table<K>, start: int, stop: int)
    requires table.Valid() && WordShaped(table.Bitmaps()) && NoneBetween(table.Bitmaps(), start, stop)
    ensures NoneLive(table.Contents(), start, stop)
  {
    forall x | start < x < stop && 0 <= x < |table.Contents()|
      ensures !Live(table.Contents()[x])
    {
      FilledIsSome(table.bins[..], x);
    }
  }

  /** The loop of HashFirstBucket and HashNextBucket: moves on while the bucket is a deleted one. */
  method SkipDeleted<K>(iter: Iterator<K>, ghost start: int, first: Option<BucketRef>) returns (r: Option<BucketRef>)
    requires iter.Valid() && Advanced(iter.table.Bitmaps(), start, iter.At(), first)
    modifies iter`posGroup, iter`posOffset
    ensures iter.Valid()
    ensures AdvancedLive(iter.table.Contents(), start, iter.At(), r, iter.table.Bitmaps())
  {
    r := first;
    ghost var c, shape := iter.table.Contents(), iter.table.Bitmaps();
    NoneFilledNoneLive(iter.table, start, iter.At());
    while r.Some?
      invariant iter.Valid() && start < iter.At()
      invariant r.Some? ==> Refers(shape, r.value) && LocationOf(shape, r.value) == iter.At()
      invariant r.None? ==> iter.At() == |c|
      invariant NoneLive(c, start, iter.At())
      decreases |c| - iter.At()
    {
      var bck := iter.table.Load(r.value);
      if bck.data != DELETED {
        return;
      }
      ghost var at := iter.At();
      r := iter.NextBucket();
      NoneFilledNoneLive(iter.table, at, iter.At());
      JoinIdle(c, start, at, iter.At());
    }
  }

  method FirstLive<K>(iter: Iterator<K>, table: Table<K>) returns (r: Option<BucketRef>)
    requires table.Valid()
    modifies iter
    ensures iter.Valid() && iter.table == table
    ensures AdvancedLive(table.Contents(), -1, iter.At(), r, table.Bitmaps())
  {
    r := iter.FirstBucket(table);
    r := SkipDeleted(iter, -1, r);
  }

  method NextLive<K>(iter: Iterator<K>) returns (r: Option<BucketRef>)
    requires iter.Valid() && !iter.Exhausted()
    modifies iter`posGroup, iter`posOffset
    ensures iter.Valid()
    ensures AdvancedLive(iter.table.Contents(), old(iter.At()), iter.At(), r, iter.table.Bitmaps())
  {
    ghost var start := iter.At();
    r := iter.NextBucket();
    r := SkipDeleted(iter, start, r);
  }

  /** Rehash's inner loop: probes for the first empty bucket on the path of a new key. */
  method ProbeEmpty<K(!new)>(table: Table<K>, hash: K -> nat, key: K) returns (iBucket: nat, ghost offset: nat)
    requires table.Valid() && WellPlaced(table.Contents(), hash) && key !in MapOf(table.Contents())
    requires Lives(table.Contents()) + Deads(table.Contents()) < |table.Contents()|
    ensures var c := table.Contents();
            && offset < |c| && PathFull(c, hash(key), offset)
            && iBucket == Probe(hash(key), offset, |c|)
    ensures table.Contents()[iBucket].None?
  {
    ghost var c, h := table.Contents(), hash(key);
    var n := GROUP_SIZE * table.bins.Length;
    var i: nat := 0;
    iBucket := Reduce(hash(key), n);
    var empty := table.IsEmpty(iBucket);
    while !empty
      invariant i < n && iBucket == Probe(h, i, n)
      invariant PassedOver(c, h, key, i)
      invariant empty == c[iBucket].None?
      decreases n - i
    {
      KeyOfLiveIsMapped(c, iBucket, key);
      PassOne(c, h, key, i);
      iBucket, i := Jump(iBucket, i, n, h);
      empty := table.IsEmpty(iBucket);
    }
    offset := i;
  }

  /** Puts one item of the old table into the new one. */
  method Place<K(!new)>(table: Table<K>, hash: K -> nat, item: HTItem<K>) returns (p: BucketRef)
    requires table.Valid() && WellPlaced(table.Contents(), hash)
    requires Deads(table.Contents()) == 0 && Lives(table.Contents()) < |table.Contents()|
    requires item.key !in MapOf(table.Contents()) && item.data != DELETED
    modifies table.bins
    ensures table.Valid() && WellPlaced(table.Contents(), hash)
    ensures |table.Contents()| == old(|table.Contents()|)
    ensures Deads(table.Contents()) == 0
    ensures MapOf(table.Contents()) == old(MapOf(table.Contents()))[item.key := item.data]
    ensures Refers(table.Bitmaps(), p) && table.Contents()[LocationOf(table.Bitmaps(), p)] == Some(item)
  {
    var iBucket, offset := ProbeEmpty(table, hash, item.key);
    InsertKeeps(table.Contents(), hash, item, offset);
    CountsOfUpdate(table.Contents(), iBucket, Some(item));
    var occupied;
    p, occupied := table.Insert(item, iBucket, false);
  }

  /**
   The placement and counting invariant, which rehashing relies on and restores. The counters are
   those of the live and deleted buckets, except that each lost item counts as one more live bucket
   and one fewer deleted one: cItems can be too high, and the sum is never too low.
   */
  ghost predicate TableSound<K(!new)>(table: Table<K>, hash: K -> nat, cBuckets: nat, cItems: nat, cDeletedItems: int)
    reads table.bins
  {
    && table.Valid()
    && WellPlaced(table.Contents(), hash)
    && cBuckets == |table.Contents()| <= MAX_SIZE
    && Lives(table.Contents()) <= cItems
    && Lives(table.Contents()) + Deads(table.Contents()) <= cItems + cDeletedItems
    && cDeletedItems <= Deads(table.Contents())
  }

  ghost predicate LiveRef<K>(table: Table<K>, p: BucketRef)
    requires table.Valid()
    reads table.bins
  {
    Refers(table.Bitmaps(), p) && Live(table.Contents()[LocationOf(table.Bitmaps(), p)])
  }

  /** A pointer to a deleted bucket. */
  ghost predicate DeadRef<K>(table: Table<K>, p: BucketRef)
    requires table.Valid()
    reads table.bins
  {
    Refers(table.Bitmaps(), p) && Dead(table.Contents()[LocationOf(table.Bitmaps(), p)])
  }

  ghost function RefItem<K>(table: Table<K>, p: BucketRef): HTItem<K>
    requires table.Valid() && LiveRef(table, p)
    reads table.bins
  {
    table.Contents()[LocationOf(table.Bitmaps(), p)].value
  }

  // ----- the loop of Rehash -----

  ghost function WatchedKey<K>(table: Table<K>, bckWatch: Option<BucketRef>): set<K>
    requires table.Valid() && (bckWatch.Some? ==> LiveRef(table, bckWatch.value))
    reads table.bins
  {
    if bckWatch.Some? then {RefItem(table, bckWatch.value).key} else {}
  }

  /** Only the watched bucket holds the watched key. */
  lemma IsWatched<K>(table: Table<K>, bckWatch: Option<BucketRef>, p: BucketRef)
    requires table.Valid() && Distinct(table.Contents())
    requires LiveRef(table, p) && (bckWatch.Some? ==> LiveRef(table, bckWatch.value))
    ensures RefItem(table, p).key in WatchedKey(table, bckWatch) <==> bckWatch == Some(p)
  {
    if bckWatch.Some? { LocationInjective(table.Bitmaps(), p, bckWatch.value); }
  }

  // Where the loop stands: about to copy a bucket, done with it, or past the last one.
  datatype Stage = Before(bck: BucketRef) | After(bck: BucketRef) | Finished

  function StageOf(bck: Option<BucketRef>): Stage {
    match bck
    case Some(p) => Before(p)
    case None => Finished
  }

  /** The fixed part: the old array holds c, and the new one has room for all of it. */
  ghost predicate CopySetting<K(!new)>(table: Table<K>, tableNew: Table<K>, c: Contents<K>, skip: set<K>,
                                       bckWatch: Option<BucketRef>)
    reads table.bins, tableNew.bins
  {
    && table.Valid() && table.Contents() == c && Distinct(c)
    && tableNew.Valid() && tableNew.bins != table.bins
    && Lives(c) <= |tableNew.Contents()|
    && (bckWatch.Some? ==> LiveRef(table, bckWatch.value))
    && skip == WatchedKey(table, bckWatch)
  }

  /** In the loop: the iterator stands on bck, and the new array holds the first n buckets. */
  ghost predicate Copying<K(!new)>(table: Table<K>, iter: Iterator<K>, tableNew: Table<K>, hash: K -> nat,
                                   c: Contents<K>, skip: set<K>, bckWatch: Option<BucketRef>, stage: Stage, n: nat)
    reads iter, table, table.bins, tableNew.bins
  {
    && CopySetting(table, tableNew, c, skip, bckWatch)
    && Copied(c, n, tableNew.Contents(), hash, skip)
    && match stage
       case Before(bck) => OnLive(table, iter, bck) && iter.At() == n
       case After(bck) => OnLive(table, iter, bck) && iter.At() + 1 == n
       case Finished => n == |c|
  }

  ghost predicate OnLive<K>(table: Table<K>, iter: Iterator<K>, bck: BucketRef)
    requires table.Valid()
    reads iter, table, table.bins
  {
    && iter.table == table && iter.Valid()
    && LiveRef(table, bck)
    && iter.At() == LocationOf(table.Bitmaps(), bck)
  }

  /** One round of the loop: copies the bucket unless it is the watched one. */
  method CopyBucket<K(!new)>(table: Table<K>, iter: Iterator<K>, tableNew: Table<K>, hash: K -> nat,
                             ghost c: Contents<K>, ghost skip: set<K>, bckWatch: Option<BucketRef>,
                             bck: BucketRef, ghost n: nat)
    returns (ghost m: nat)
    requires Copying(table, iter, tableNew, hash, c, skip, bckWatch, Before(bck), n)
    modifies tableNew.bins
    ensures Copying(table, iter, tableNew, hash, c, skip, bckWatch, After(bck), m)
    ensures |tableNew.Contents()| == old(|tableNew.Contents()|)
  {
    hide BinsValid, View, Shape, WellPlaced, MapOf, Deads, Lives;
    ghost var copy := tableNew.Contents();
    m := n + 1;
    IsWatched(table, bckWatch, bck);
    if Some(bck) != bckWatch {
      var item := table.Load(bck);
      RoomToCopy(c, n, copy, hash, skip);
      var p := Place(tableNew, hash, item);
    }
    assert iter.Valid() && iter.At() == n;
    assert CopySetting(table, tableNew, c, skip, bckWatch);
    CopiedOne(c, n, m, copy, tableNew.Contents(), hash, skip);
  }

  /** The end of the round: on to the next live bucket. */
  method Advance<K(!new)>(table: Table<K>, iter: Iterator<K>, tableNew: Table<K>, ghost hash: K -> nat,
                          ghost c: Contents<K>, ghost skip: set<K>, ghost bckWatch: Option<BucketRef>,
                          ghost bck: BucketRef, ghost n: nat)
    returns (next: Option<BucketRef>, ghost m: nat)
    requires Copying(table, iter, tableNew, hash, c, skip, bckWatch, After(bck), n)
    modifies iter`posGroup, iter`posOffset
    ensures Copying(table, iter, tableNew, hash, c, skip, bckWatch, StageOf(next), m)
    ensures m >= n
  {
    ghost var copy := tableNew.Contents();
    next := NextLive(iter);
    m := iter.At();
    assert CopySetting(table, tableNew, c, skip, bckWatch);
    assert NoneLive(c, n - 1, m) && tableNew.Contents() == copy;
    CopiedIdle(c, n, m, copy, hash, skip);
  }

  /** The loop: copies every live bucket but the watched one. */
  method CopyLive<K(!new)>(table: Table<K>, iter: Iterator<K>, tableNew: Table<K>, hash: K -> nat,
                           ghost c: Contents<K>, ghost skip: set<K>, bckWatch: Option<BucketRef>)
    requires CopySetting(table, tableNew, c, skip, bckWatch)
    requires tableNew.Contents() == Buckets.Empty<K>(|tableNew.Contents()|) && IsPow2(|tableNew.Contents()|)
    modifies tableNew.bins, iter
    ensures tableNew.Valid() && |tableNew.Contents()| == old(|tableNew.Contents()|)
    ensures Copied(c, |c|, tableNew.Contents(), hash, skip)
  {
    var bck := FirstLive(iter, table);
    ghost var n: nat := iter.At();
    CopiedNothing(c, n, tableNew.Contents(), hash, skip);
    while bck.Some?
      invariant Copying(table, iter, tableNew, hash, c, skip, bckWatch, StageOf(bck), n)
      invariant tableNew.Valid() && |tableNew.Contents()| == old(|tableNew.Contents()|)
      decreases |c| - n
    {
      n := CopyBucket(table, iter, tableNew, hash, c, skip, bckWatch, bck.value, n);
      bck, n := Advance(table, iter, tableNew, hash, c, skip, bckWatch, bck.value, n);
    }
  }

  /** The end of the loop: the watched item goes in last. */
  method PlaceWatched<K(==,!new)>(table: Table<K>, tableNew: Table<K>, hash: K -> nat, bckWatch: Option<BucketRef>,
                                  ghost c: Contents<K>, ghost skip: set<K>)
    returns (bckNew: Option<BucketRef>)
    requires CopySetting(table, tableNew, c, skip, bckWatch) && Copied(c, |c|, tableNew.Contents(), hash, skip)
    modifies tableNew.bins
    ensures tableNew.Valid() && |tableNew.Contents()| == old(|tableNew.Contents()|)
    ensures WellPlaced(tableNew.Contents(), hash) && Deads(tableNew.Contents()) == 0
    ensures MapOf(tableNew.Contents()) == MapOf(c)
    ensures bckWatch.Some? ==> bckNew.Some? && LiveRef(tableNew, bckNew.value)
                               && RefItem(tableNew, bckNew.value) == old(RefItem(table, bckWatch.value))
  {
    bckNew := None;
    if bckWatch.Some? {
      var item := table.Load(bckWatch.value);
      assert Records(MapOf(c), item);
      RoomForLast(c, tableNew.Contents(), hash, item.key);
      var p := Place(tableNew, hash, item);
      bckNew := Some(p);
    } else {
      CopiedAll(c, tableNew.Contents(), hash);
    }
  }

  /** The new bucket array of Rehash, filled, and the place of the watched item in it. */
  method Rebuild<K(==,!new)>(table: Table<K>, iter: Iterator<K>, hash: K -> nat, cNewBuckets: nat,
                          bckWatch: Option<BucketRef>, ghost c: Contents<K>)
    returns (tableNew: Table<K>, cAllocated: nat, bckNew: Option<BucketRef>)
    requires table.Valid() && c == table.Contents() && Distinct(c)
    requires bckWatch.Some? ==> LiveRef(table, bckWatch.value)
    requires IsPow2(cNewBuckets) && cNewBuckets <= MAX_SIZE
    requires Lives(c) <= GROUP_SIZE * SparseGroups(cNewBuckets)
    modifies iter
    ensures fresh(tableNew) && fresh(tableNew.bins)
    ensures cAllocated == GROUP_SIZE * SparseGroups(cNewBuckets)
    ensures TableSound(tableNew, hash, cAllocated, Lives(c), 0) && Deads(tableNew.Contents()) == 0
    ensures MapOf(tableNew.Contents()) == MapOf(c)
    ensures bckWatch.Some? ==> bckNew.Some? && LiveRef(tableNew, bckNew.value)
                               && RefItem(tableNew, bckNew.value) == old(RefItem(table, bckWatch.value))
  {
    RoundedPow2(cNewBuckets);
    tableNew, cAllocated := SparseAllocate<K>(cNewBuckets);
    ghost var skip := WatchedKey(table, bckWatch);
    CopyLive(table, iter, tableNew, hash, c, skip, bckWatch);
    hide BinsValid, View, Shape, Refers, Live, MapOf, Copied, SparseGroups, IsPow2;
    bckNew := PlaceWatched(table, tableNew, hash, bckWatch, c, skip);
    MapSize(c);
    MapSize(tableNew.Contents());
  }

  // ----- the three in-place updates of the bucket array -----

  /**
   Fills the bucket that the search found for a new key. A deleted bucket is overwritten only if
   fOverwrite; otherwise nothing is written into it.
   */
  method PutNew<K(!new)>(table: Table<K>, hash: K -> nat, item: HTItem<K>, iEmpty: nat, fOverwrite: bool,
                         ghost n: nat, ghost items: nat, ghost deleted: int)
    returns (p: BucketRef, occupied: bool)
    requires TableSound(table, hash, n, items, deleted)
    requires FirstFree(table.Contents(), hash(item.key), iEmpty)
    requires item.key !in MapOf(table.Contents()) && item.data != DELETED
    modifies table.bins
    ensures TableSound(table, hash, n, items + 1, if occupied then deleted - 1 else deleted)
    ensures occupied == old(table.Contents())[iEmpty].Some?
    ensures Refers(table.Bitmaps(), p) && LocationOf(table.Bitmaps(), p) == iEmpty
    ensures fOverwrite || !occupied ==>
              && MapOf(table.Contents()) == old(MapOf(table.Contents()))[item.key := item.data]
              && LiveRef(table, p) && RefItem(table, p) == item
    ensures !fOverwrite && occupied ==> table.Contents() == old(table.Contents()) && DeadRef(table, p)
  {
    ghost var c := table.Contents();
    ghost var s :| 0 <= s < |c| && Probe(hash(item.key), s, |c|) == iEmpty && AllLive(c, hash(item.key), s);
    LiveIsFull(c, hash(item.key), s);
    InsertKeeps(c, hash, item, s);
    CountsOfUpdate(c, iEmpty, Some(item));
    p, occupied := table.Insert(item, iEmpty, fOverwrite);
  }

  /** item->data = data */
  method PutData<K(!new)>(table: Table<K>, hash: K -> nat, p: BucketRef, data: nat,
                          ghost n: nat, ghost items: nat, ghost deleted: int)
    requires TableSound(table, hash, n, items, deleted) && LiveRef(table, p) && data != DELETED
    modifies table.bins
    ensures TableSound(table, hash, n, items, deleted)
    ensures MapOf(table.Contents()) == old(MapOf(table.Contents()))[old(RefItem(table, p)).key := data]
    ensures LiveRef(table, p) && RefItem(table, p) == old(RefItem(table, p)).(data := data)
  {
    ghost var c, i := table.Contents(), LocationOf(table.Bitmaps(), p);
    var item := table.Load(p);
    ReplaceKeeps(c, hash, i, data);
    CountsOfUpdate(c, i, Some(item.(data := data)));
    table.Store(p, item.(data := data));
  }

  /** SET_BCK_DELETED */
  method PutDeleted<K(!new)>(table: Table<K>, hash: K -> nat, p: BucketRef,
                             ghost n: nat, ghost items: nat, ghost deleted: int)
    requires TableSound(table, hash, n, items, deleted) && LiveRef(table, p)
    modifies table.bins
    ensures items > 0 && TableSound(table, hash, n, items - 1, deleted + 1)
    ensures MapOf(table.Contents()) == old(MapOf(table.Contents())) - {old(RefItem(table, p)).key}
    ensures DeletedFirst(table.Contents(), hash(old(RefItem(table, p)).key))
  {
    ghost var c, i := table.Contents(), LocationOf(table.Bitmaps(), p);
    var item := table.Load(p);
    DeleteKeeps(c, hash, i);
    DeletedKeyComesFirst(c, hash, i);
    CountsOfUpdate(c, i, Some(item.(data := DELETED)));
    table.Store(p, item.(data := DELETED));
  }

  /** The occupancy test of an insert: OCCUPANCY_PCT is one half. */
  predicate HalfFull(cItems: nat, cDeletedItems: int, cBuckets: nat) {
    2 * (cItems + cDeletedItems) >= cBuckets
  }

  /**
   Lost items can take cDeletedItems below zero, which an unsigned counter shows as a huge number.
   Its only use is this sum, in which the wrap-around cancels.
   */
  lemma SumOfUnsigned(cItems: nat, cDeletedItems: int)
    requires 0 <= cItems + cDeletedItems < WORD
    ensures (cItems + ToUlong(cDeletedItems)) % WORD == cItems + cDeletedItems
  {
    var q := cDeletedItems / WORD;
    assert cItems + ToUlong(cDeletedItems) == -q * WORD + (cItems + cDeletedItems);
    ModUnique(cItems + ToUlong(cDeletedItems), WORD, -q, cItems + cDeletedItems);
  }

  /** The shrink test of a delete: fewer items than 0.4 times half of the buckets, and room to halve. */
  predicate TooSparse(cItems: nat, cBuckets: nat) {
    5 * cItems < cBuckets && cBuckets / 2 >= MIN_HASH_SIZE
  }

  /** No more buckets than MIN_HASH_SIZE or five per item. */
  ghost predicate Justified(cItems: nat, cBuckets: nat) {
    cBuckets <= MIN_HASH_SIZE || cBuckets <= 5 * cItems
  }

  /** After one delete, a table that need not shrink is still justified, and one that must is not empty. */
  lemma ShrinkTest(cItems: nat, cBuckets: nat)
    requires IsPow2(cBuckets) && Justified(cItems + 1, cBuckets)
    ensures if TooSparse(cItems, cBuckets) then 0 < cItems else Justified(cItems, cBuckets)
  {
    SmallPow2();
    assert Pow2(9) == MIN_HASH_SIZE;
    if MIN_HASH_SIZE < cBuckets { Pow2Gap(MIN_HASH_SIZE, cBuckets); }
  }

  /**
   The size that a rehash asks for: the next power of two above twice the items. Rounded to whole
   groups it leaves the table less than half full, and justified.
   */
  method SizeFor(cItems: nat) returns (n: nat)
    requires 0 < cItems <= MAX_ITEMS
    ensures IsPow2(n) && n <= MAX_SIZE && cItems <= GROUP_SIZE * SparseGroups(n)
    ensures var b := GROUP_SIZE * SparseGroups(n);
            2 * cItems < b && (b == 64 || 64 < b <= 4 * cItems) && Justified(cItems, b)
  {
    n := Sizing.NextPow2(2 * cItems);
    MaxSizeIsPow2();
    Sizing.NextPow2Bounded(2 * cItems, n, MAX_SIZE);
    RoundedPow2(n);
  }

  /** The rehash after an insert can be allocated exactly while the table holds at most MAX_ITEMS items. */
  lemma RehashFits(cItems: nat, n: nat)
    requires 0 < cItems < Sizing.HIGHEST / 4
    requires IsPow2(n) && 2 * cItems < n <= 2 * (2 * cItems)
    ensures ReportedBuckets(n) == GROUP_SIZE * SparseGroups(n) <==> cItems <= MAX_ITEMS
  {
    MaxSizeIsPow2();
    ReportedBucketsExact(n);
    if cItems <= MAX_ITEMS {
      Sizing.NextPow2Bounded(2 * cItems, n, MAX_SIZE);
    } else {
      Pow2Gap(MAX_SIZE, n);
    }
  }

  /** A new bucket array is a sound table of nothing. */
  lemma EmptyTable<K(!new)>(table: Table<K>, hash: K -> nat)
    requires table.Valid() && table.Contents() == Buckets.Empty<K>(MIN_HASH_SIZE)
    ensures TableSound(table, hash, MIN_HASH_SIZE, 0, 0) && MapOf(table.Contents()) == map[]
    ensures forall p :: !LiveRef(table, p)
  {
    CountsOfEmpty(table.Contents());
    assert IsPow2(512) by { SmallPow2(); assert 512 == Pow2(9); }
    MapIs(table.Contents(), map[]);
  }

  // What the last search left behind: an item, nothing, or a pointer that was never set.
  datatype LastFind<K> = Garbage | NoItem | ItemOf(key: K)

  class HashTable<K(==,!new)> {
    const hash: K -> nat
    var cItems: nat
    var cDeletedItems: int
    var cBuckets: nat
    var table: Table<K>
    var iter: Iterator<K>
    var posLastFind: Option<BucketRef>

    ghost predicate Sound()
      reads this, table.bins
    {
      TableSound(table, hash, cBuckets, cItems, cDeletedItems)
    }

    ghost predicate PointsToLive(p: BucketRef)
      requires table.Valid()
      reads this, table.bins
    {
      LiveRef(table, p)
    }

    /** The item behind a bucket pointer. */
    ghost function ItemAt(p: BucketRef): HTItem<K>
      requires table.Valid() && PointsToLive(p)
      reads this, table.bins
    {
      RefItem(table, p)
    }

    /** Between calls: more than half of the buckets never filled, and no more buckets than the items justify. */
    ghost predicate Valid()
      reads this, table.bins
    {
      && Sound()
      && 2 * (cItems + cDeletedItems) < cBuckets
      && GROUP_SIZE <= cBuckets && Justified(cItems, cBuckets)
    }

    /** posLastFind is NULL or points to a live item. */
    ghost predicate LastFindGood()
      requires table.Valid()
      reads this, table.bins
    {
      posLastFind.Some? ==> PointsToLive(posLastFind.value)
    }

    ghost function Map(): (m: map<K, nat>)
      requires Sound()
      reads this, table.bins
      ensures |m| <= cItems
    {
      MapSize(table.Contents());
      MapOf(table.Contents())
    }

    /** The items that were counted but not stored. */
    ghost function Losses(): nat
      requires Sound()
      reads this, table.bins
    {
      cItems - |Map()|
    }

    /** What posLastFind means. */
    ghost function LastFind(): LastFind<K>
      requires table.Valid()
      reads this, table.bins
    {
      if !LastFindGood() then Garbage
      else if posLastFind.None? then NoItem
      else ItemOf(ItemAt(posLastFind.value).key)
    }

    /**
     AllocateHashTable. It leaves posLastFind as malloc found it, and unless that happens to be
     NULL it points to no bucket of the table.
     */
    constructor (hash: K -> nat, leftover: Option<BucketRef>)
      ensures Valid() && fresh(table) && fresh(table.bins) && fresh(iter)
      ensures Map() == map[] && Losses() == 0 && this.hash == hash
      ensures cBuckets == 512 && cItems == 0 == cDeletedItems
      ensures posLastFind == leftover && (LastFindGood() <==> leftover == None)
    {
      var t, n := SparseAllocate(MIN_HASH_SIZE);
      ReportedBucketsExact(MIN_HASH_SIZE);
      this.hash := hash;
      table, cBuckets := t, n;
      cItems, cDeletedItems := 0, 0;
      posLastFind := leftover;
      iter := new Iterator(t);
      new;
      EmptyTable(table, hash);
    }

    /** ClearHashTable */
    method Clear()
      modifies this`table, this`cBuckets, this`cItems, this`cDeletedItems, this`posLastFind
      ensures Valid() && fresh(table) && fresh(table.bins)
      ensures Map() == map[] && Losses() == 0 && posLastFind == None && LastFind() == NoItem
      ensures cBuckets == 512 && cItems == 0 == cDeletedItems
    {
      ReportedBucketsExact(MIN_HASH_SIZE);
      table, cBuckets := SparseAllocate(MIN_HASH_SIZE);
      cItems, cDeletedItems, posLastFind := 0, 0, None;
      EmptyTable(table, hash);
    }

    // ----- finding -----

    /**
     The bucket of the key, if it is live; otherwise the first bucket on its path that is not live.
     The loop always ends: some bucket on the path has never been filled.
     */
    method Search(key: K) returns (item: Option<BucketRef>, iEmpty: nat)
      requires Sound() && cItems + cDeletedItems < cBuckets
      ensures item.Some? <==> key in Map()
      ensures item.Some? ==> PointsToLive(item.value) && ItemAt(item.value) == HTItem(Map()[key], key)
      ensures item.None? ==> FirstFree(table.Contents(), hash(key), iEmpty)
    {
      ghost var c, h := table.Contents(), hash(key);
      iEmpty := 0;
      var offset: nat, fFoundEmpty := 0, false;
      var iBucket := Reduce(hash(key), cBuckets);
      while true
        invariant offset < cBuckets && iBucket == Probe(h, offset, cBuckets)
        invariant PassedOver(c, h, key, offset)
        invariant if fFoundEmpty then FirstFree(c, h, iEmpty) else AllLive(c, h, offset)
        decreases cBuckets - offset
      {
        var found := table.Find(iBucket);
        if found.None? {
          EmptyProvesAbsent(c, hash, key, offset);
          if !fFoundEmpty {
            FirstFreeHere(c, h, offset);
            iEmpty := iBucket;
          }
          return None, iEmpty;
        }
        var bck := table.Load(found.value);
        if bck.data == DELETED {
          if !fFoundEmpty {
            FirstFreeHere(c, h, offset);
            iEmpty, fFoundEmpty := iBucket, true;
          }
        } else if bck.key == key {
          assert Records(MapOf(c), bck);
          return found, iEmpty;
        } else if !fFoundEmpty {
          OneMoreLive(c, h, offset);
        }
        PassOne(c, h, key, offset);
        iBucket, offset := Jump(iBucket, offset, cBuckets, h);
      }
    }

    /** Find: the search, remembering where it ended. */
    method Find(key: K) returns (item: Option<BucketRef>, iEmpty: nat)
      requires Valid()
      modifies this`posLastFind
      ensures Valid() && posLastFind == item && LastFindGood() && Map() == old(Map()) && Losses() == old(Losses())
      ensures LastFind() == if key in Map() then ItemOf(key) else NoItem
      ensures item.Some? <==> key in Map()
      ensures item.Some? ==> PointsToLive(item.value) && ItemAt(item.value) == HTItem(Map()[key], key)
      ensures item.None? ==> FirstFree(table.Contents(), hash(key), iEmpty)
    {
      hide BinsValid, View, Shape, Refers, Live, WellPlaced, Distinct, MapOf;
      posLastFind := None;
      item, iEmpty := Search(key);
      posLastFind := item;
    }

    /** HashFindLast: the item of the last search, if it found one and nothing was changed since. */
    method FindLast() returns (item: Option<BucketRef>)
      requires Valid() && LastFind() != Garbage
      ensures item.Some? ==> PointsToLive(item.value) && ItemAt(item.value).key in Map()
                             && ItemAt(item.value).data == Map()[ItemAt(item.value).key]
      ensures LastFind() == if item.Some? then ItemOf(ItemAt(item.value).key) else NoItem
    {
      item := posLastFind;
      if item.Some? { assert Records(MapOf(table.Contents()), ItemAt(item.value)); }
    }

    // ----- iterating over the live buckets -----

    /** HashFirstBucket */
    method FirstBucket() returns (r: Option<BucketRef>)
      requires Sound()
      modifies iter
      ensures iter.Valid() && iter.table == table
      ensures AdvancedLive(table.Contents(), -1, iter.At(), r, table.Bitmaps())
    {
      r := FirstLive(iter, table);
    }

    /** HashNextBucket */
    method NextBucket() returns (r: Option<BucketRef>)
      requires Sound() && iter.Valid() && iter.table == table && !iter.Exhausted()
      modifies iter`posGroup, iter`posOffset
      ensures iter.Valid()
      ensures AdvancedLive(table.Contents(), old(iter.At()), iter.At(), r, table.Bitmaps())
    {
      r := NextLive(iter);
    }

    // ----- rehashing -----

    /**
     Moves the live buckets to a new bucket array, the watched one last, so that its new place is
     known. Deleted buckets are left behind.
     */
    method Rehash(cNewBuckets: nat, bckWatch: Option<BucketRef>) returns (bckNew: Option<BucketRef>)
      requires Sound() && (bckWatch.Some? ==> PointsToLive(bckWatch.value))
      requires IsPow2(cNewBuckets) && cNewBuckets <= MAX_SIZE
      requires cItems <= GROUP_SIZE * SparseGroups(cNewBuckets)
      modifies this`table, this`cBuckets, this`cDeletedItems, iter
      ensures Sound() && fresh(table) && fresh(table.bins)
      ensures cBuckets == GROUP_SIZE * SparseGroups(cNewBuckets)
      ensures cDeletedItems == 0 == Deads(table.Contents())
      ensures Map() == old(Map())
      ensures bckWatch.Some? ==> bckNew.Some? && PointsToLive(bckNew.value)
                                 && ItemAt(bckNew.value) == old(ItemAt(bckWatch.value))
    {
      var tableNew, cAllocated;
      hide BinsValid, View, Shape, Refers, Live, MapOf, SparseGroups, IsPow2;
      tableNew, cAllocated, bckNew := Rebuild(table, iter, hash, cNewBuckets, bckWatch, table.Contents());
      table, cBuckets, cDeletedItems := tableNew, cAllocated, 0;
    }

    // ----- inserting and deleting -----

    /** Grows or cleans up a half full table; p follows its item. */
    method RehashFull(p: BucketRef) returns (item: BucketRef)
      requires Sound() && PointsToLive(p) && 0 < cItems <= MAX_ITEMS
      modifies this`table, this`cBuckets, this`cDeletedItems, iter
      ensures Valid() && Map() == old(Map())
      ensures PointsToLive(item) && ItemAt(item) == old(ItemAt(p))
      ensures fresh(table) && fresh(table.bins)
      ensures cDeletedItems == 0 == Deads(table.Contents())
      ensures 2 * cItems < cBuckets && (cBuckets == 64 || cBuckets <= 4 * cItems)
    {
      hide BinsValid, View, Shape, Refers, Live, WellPlaced, Distinct, MapOf;
      hide HalfFull, Justified, SparseGroups;
      var n := SizeFor(cItems);
      var moved := Rehash(n, Some(p));
      item := moved.value;
    }

    /**
     Puts a new key into the bucket that the search ended with, a deleted one if reused. That one is
     left as it is if fOverwrite is off: the counters change, but the item is lost. The table is
     rehashed once live and deleted buckets make up half of it.
     */
    method AddNew(key: K, data: nat, iEmpty: nat, fOverwrite: bool, ghost reused: bool) returns (item: BucketRef)
      requires Valid() && data != DELETED
      requires key !in Map() && cItems < MAX_ITEMS && FirstFree(table.Contents(), hash(key), iEmpty)
      requires reused == DeletedFirst(table.Contents(), hash(key))
      modifies this`table, this`cBuckets, this`cItems, this`cDeletedItems, table.bins, iter
      ensures Valid() && cItems == old(cItems) + 1 && 2 * (cItems + cDeletedItems) < cBuckets
      ensures var d := old(cDeletedItems) - (if reused then 1 else 0);
              if 2 * (old(cItems) + 1 + d) < old(cBuckets)
              then table == old(table) && cBuckets == old(cBuckets) && cDeletedItems == d
              else && fresh(table) && fresh(table.bins) && cDeletedItems == 0 == Deads(table.Contents())
                   && 2 * cItems < cBuckets && (cBuckets == 64 || cBuckets <= 4 * cItems)
      ensures fOverwrite || !reused ==>
                Map() == old(Map())[key := data] && PointsToLive(item) && ItemAt(item) == HTItem(data, key)
      ensures !fOverwrite && reused ==>
                table == old(table) && table.Contents() == old(table.Contents()) && DeadRef(table, item)
    {
      hide BinsValid, View, Shape, Refers, Live, WellPlaced, Distinct, MapOf, FirstFree, DeletedFirst;
      OneFirstFree(table.Contents(), hash(key), iEmpty, iEmpty);
      var occupied;
      item, occupied :=
        PutNew(table, hash, HTItem(data, key), iEmpty, fOverwrite, cBuckets, cItems, cDeletedItems);
      cItems, cDeletedItems := cItems + 1, if occupied then cDeletedItems - 1 else cDeletedItems;
      if HalfFull(cItems, cDeletedItems, cBuckets) {
        item := RehashFull(item);
      }
    }

    /**
     HashInsert, for which fOverwrite is true, and HashFindOrInsert, for which it is false. The
     last item that fits is number MAX_ITEMS.
     */
    method Insert(key: K, data: nat, fOverwrite: bool) returns (item: BucketRef, ghost reused: bool)
      requires Valid() && data != DELETED
      requires key in Map() || cItems < MAX_ITEMS
      modifies this, table.bins, iter
      ensures posLastFind == None && iter == old(iter)
      ensures Valid() && LastFindGood() && LastFind() == NoItem && 2 * (cItems + cDeletedItems) < cBuckets
      ensures reused <==> key !in old(Map()) && old(DeletedFirst(table.Contents(), hash(key)))
      ensures key in old(Map()) ==> table == old(table) && cBuckets == old(cBuckets)
                                    && cItems == old(cItems) && cDeletedItems == old(cDeletedItems)
      ensures key !in old(Map()) ==>
                var d := old(cDeletedItems) - (if reused then 1 else 0);
                && cItems == old(cItems) + 1
                && if 2 * (old(cItems) + 1 + d) < old(cBuckets)
                   then table == old(table) && cBuckets == old(cBuckets) && cDeletedItems == d
                   else && fresh(table) && fresh(table.bins) && cDeletedItems == 0 == Deads(table.Contents())
                        && 2 * cItems < cBuckets && (cBuckets == 64 || cBuckets <= 4 * cItems)
      ensures Losses() == old(Losses()) + (if reused && !fOverwrite then 1 else 0)
      ensures !(reused && !fOverwrite) ==>
                && Map() == (if key in old(Map()) && !fOverwrite then old(Map()) else old(Map())[key := data])
                && PointsToLive(item) && key in Map() && ItemAt(item) == HTItem(Map()[key], key)
      ensures reused && !fOverwrite ==>
                table == old(table) && table.Contents() == old(table.Contents()) && DeadRef(table, item)
    {
      hide BinsValid, View, Shape, Refers, Live, WellPlaced, Distinct, MapOf, FirstFree, DeletedFirst;
      reused := key !in Map() && DeletedFirst(table.Contents(), hash(key));
      var found, iEmpty := Find(key);
      posLastFind := None;
      if found.Some? {
        item := found.value;
        if fOverwrite {
          PutData(table, hash, item, data, cBuckets, cItems, cDeletedItems);
        }
      } else {
        item := AddNew(key, data, iEmpty, fOverwrite, reused);
      }
    }

    /** The rehash of a table that a delete has left too sparse. */
    method Shrink()
      requires Sound() && 0 < cItems <= MAX_ITEMS
      modifies this`table, this`cBuckets, this`cDeletedItems, iter
      ensures Valid() && Map() == old(Map()) && Losses() == old(Losses())
      ensures fresh(table) && fresh(table.bins)
      ensures cDeletedItems == 0 == Deads(table.Contents())
      ensures 2 * cItems < cBuckets && (cBuckets == 64 || cBuckets <= 4 * cItems)
    {
      hide BinsValid, View, Shape, Refers, Live, WellPlaced, Distinct, MapOf;
      hide HalfFull, TooSparse, Justified, SparseGroups, IsPow2, LiveRef;
      var n := SizeFor(cItems);
      var moved := Rehash(n, None);
    }

    /** Marks the bucket of the last find deleted. Only a table that is now too sparse is out of bounds. */
    method MarkFound(ghost key: K)
      requires Valid() && posLastFind.Some? && LastFindGood() && ItemAt(posLastFind.value).key == key
      modifies this`cItems, this`cDeletedItems, this`posLastFind, table.bins
      ensures Sound() && DeletedFirst(table.Contents(), hash(key))
      ensures key in old(Map()) && Map() == old(Map()) - {key} && Losses() == old(Losses())
      ensures posLastFind == None && cItems == old(cItems) - 1 && cDeletedItems == old(cDeletedItems) + 1
      ensures TooSparse(cItems, cBuckets) <==> 5 * cItems < cBuckets && cBuckets >= 1024
      ensures if TooSparse(cItems, cBuckets) then 0 < cItems <= MAX_ITEMS else Valid()
    {
      hide BinsValid, View, Shape, Refers, Live, Distinct, MapOf, FirstFree, DeletedFirst;
      PutDeleted(table, hash, posLastFind.value, cBuckets, cItems, cDeletedItems);
      cItems, cDeletedItems, posLastFind := cItems - 1, cDeletedItems + 1, None;
      ShrinkTest(cItems, cBuckets);
    }

    /** Marks the bucket of the last find deleted, and shrinks a table that has become too sparse. */
    method DeleteFound(ghost key: K)
      requires Valid() && posLastFind.Some? && LastFindGood() && ItemAt(posLastFind.value).key == key
      modifies this, table.bins, iter
      ensures Valid() && iter == old(iter) && posLastFind == None && cItems == old(cItems) - 1
      ensures key in old(Map()) && Map() == old(Map()) - {key} && Losses() == old(Losses())
      ensures if 5 * (old(cItems) - 1) < old(cBuckets) && old(cBuckets) >= 1024
              then && fresh(table) && fresh(table.bins) && cDeletedItems == 0 == Deads(table.Contents())
                   && 2 * cItems < cBuckets && (cBuckets == 64 || cBuckets <= 4 * cItems)
              else && table == old(table) && DeletedFirst(table.Contents(), hash(key))
                   && cBuckets == old(cBuckets) && cDeletedItems == old(cDeletedItems) + 1
    {
      hide *;
      MarkFound(key);
      if TooSparse(cItems, cBuckets) {
        Shrink();
      }
    }

    /** HashDelete: whether the key was there. */
    method Delete(key: K) returns (deleted: bool)
      requires Valid()
      modifies this, table.bins, iter
      ensures Valid() && iter == old(iter) && posLastFind == None
      ensures deleted <==> key in old(Map())
      ensures LastFind() == NoItem
      ensures Map() == old(Map()) - {key}
      ensures table == old(table) || (fresh(table) && fresh(table.bins))
      ensures 2 * (cItems + cDeletedItems) < cBuckets
      ensures deleted ==>
                && cItems == old(cItems) - 1
                && if 5 * (old(cItems) - 1) < old(cBuckets) && old(cBuckets) >= 1024
                   then && table != old(table) && cDeletedItems == 0 == Deads(table.Contents())
                        && 2 * cItems < cBuckets && (cBuckets == 64 || cBuckets <= 4 * cItems)
                   else && table == old(table) && DeletedFirst(table.Contents(), hash(key))
                        && cBuckets == old(cBuckets) && cDeletedItems == old(cDeletedItems) + 1
      ensures !deleted ==> table == old(table) && cBuckets == old(cBuckets)
                           && cItems == old(cItems) && cDeletedItems == old(cDeletedItems)
      ensures Losses() == old(Losses())
    {
      hide BinsValid, View, Shape, Refers, Live, WellPlaced, Distinct, MapOf, DeletedFirst;
      hide HalfFull, TooSparse, Lives, Deads, Justified, LiveRef, RefItem, HashTable.Losses;
      var found, iEmpty := Find(key);
      deleted := found.Some?;
      if deleted {
        DeleteFound(key);
      }
    }

    /** HashDeleteLast: deletes the item of the last successful find, if there was one. */
    method DeleteLast() returns (deleted: bool)
      requires Valid() && LastFind() != Garbage
      modifies this, table.bins, iter
      ensures Valid() && iter == old(iter) && posLastFind == None
      ensures deleted <==> old(LastFind()).ItemOf?
      ensures LastFind() == NoItem
      ensures Map() == if deleted then old(Map()) - {old(LastFind()).key} else old(Map())
      ensures cItems == (if deleted then old(cItems) - 1 else old(cItems))
      ensures table != old(table) <==> deleted && 5 * (old(cItems) - 1) < old(cBuckets) && old(cBuckets) >= 1024
      ensures Losses() == old(Losses())
      ensures table == old(table) || (fresh(table) && fresh(table.bins))
    {
      hide BinsValid, View, Shape, Refers, Live, WellPlaced, Distinct, MapOf, DeletedFirst;
      deleted := posLastFind.Some?;
      if deleted {
        DeleteFound(ItemAt(posLastFind.value).key);
      }
    }

    // ----- visiting every item -----

    /**
     The loop of a client that iterates from HashFirstBucket with HashNextBucket until NULL, as
     ClearHashTable does: it sees every live item once, in bucket order.
     */
    method AllItems() returns (items: seq<HTItem<K>>)
      requires Valid()
      modifies iter
      ensures items == LiveItems(table.Contents()) && |items| + Losses() == cItems
      ensures forall it | it in items :: Records(Map(), it)
      ensures forall k | k in Map() :: HTItem(Map()[k], k) in items
      ensures KeysDiffer(items)
    {
      LiveItemsAreMap(table.Contents());
      LiveItemsDiffer(table.Contents());
      MapSize(table.Contents());
      hide *;
      items := Collect(table, iter);
    }
  }

  /** Reads the item that the iterator stands on and moves on to the next live one. */
  method TakeItem<K(!new)>(table: Table<K>, iter: Iterator<K>, ghost c: Contents<K>, bck: BucketRef, ghost n: nat)
    returns (item: HTItem<K>, next: Option<BucketRef>, ghost m: nat)
    requires table.Valid() && c == table.Contents() && Visiting(table, iter, Some(bck), n)
    modifies iter`posGroup, iter`posOffset
    ensures Visiting(table, iter, next, m)
    ensures n < m <= |c| && LiveItems(c[..m]) == LiveItems(c[..n]) + [item]
  {
    hide LiveItems;
    item := table.Load(bck);
    next := NextLive(iter);
    m := iter.At();
    LiveItemsStep(c, n);
    LiveItemsIdle(c, n + 1, m);
  }

  /** The iterator stands on bck, which is bucket n, or has passed the last bucket. */
  ghost predicate Visiting<K>(table: Table<K>, iter: Iterator<K>, bck: Option<BucketRef>, n: nat)
    requires table.Valid()
    reads iter, table, table.bins
  {
    if bck.Some? then OnLive(table, iter, bck.value) && iter.At() == n else n == |table.Contents()|
  }

  method Collect<K(!new)>(table: Table<K>, iter: Iterator<K>) returns (items: seq<HTItem<K>>)
    requires table.Valid()
    modifies iter
    ensures items == LiveItems(table.Contents())
  {
    ghost var c := table.Contents();
    items := [];
    var bck := FirstLive(iter, table);
    ghost var n: nat := iter.At();
    LiveItemsIdle(c, 0, n);
    assert Visiting(table, iter, bck, n);
    assert items == LiveItems(c[..n]) by { assert c[..0] == []; }
    assert c[..|c|] == c;
    hide BinsValid, View, Shape, Live, LiveRef, OnLive, LiveItems;
    while bck.Some?
      invariant Visiting(table, iter, bck, n)
      invariant n <= |c| && items == LiveItems(c[..n])
      decreases |c| - n
    {
      var item;
      item, bck, n := TakeItem(table, iter, c, bck.value, n);
      items := items + [item];
    }
  }

  // ----- what inserting without overwriting does after a delete -----

  /** HashFindOrInsert of a new key counts it, and stores it exactly if the first free bucket is not a deleted one. */
  method FindOrInsertNew<K(==,!new)>(ht: HashTable<K>, key: K, data: nat)
    requires ht.Valid() && key !in ht.Map() && data != DELETED && ht.cItems < MAX_ITEMS
    modifies ht, ht.table.bins, ht.iter
    ensures ht.Valid() && ht.cItems == old(ht.cItems) + 1
    ensures ht.Map() == if old(DeletedFirst(ht.table.Contents(), ht.hash(key))) then old(ht.Map())
                        else old(ht.Map())[key := data]
  {
    hide BinsValid, View, Shape, Refers, Live, Distinct, MapOf, FirstFree, DeletedFirst, WellPlaced;
    hide HalfFull, Justified, RefItem, LiveRef, DeadRef;
    var item, reused := ht.Insert(key, data, false);
  }

  /**
   HashDelete of a key that is there and then HashFindOrInsert of the same key: the item is stored
   exactly if the delete shrank the table. Otherwise it is counted but lost.
   */
  method DeleteThenFindOrInsert<K(==,!new)>(ht: HashTable<K>, key: K, data: nat)
    requires ht.Valid() && key in ht.Map() && data != DELETED && ht.cItems <= MAX_ITEMS
    modifies ht, ht.table.bins, ht.iter
    ensures ht.Valid() && ht.cItems == old(ht.cItems)
    ensures ht.Map() == if 5 * (old(ht.cItems) - 1) < old(ht.cBuckets) && old(ht.cBuckets) >= 1024
                        then old(ht.Map())[key := data] else old(ht.Map()) - {key}
  {
    hide BinsValid, View, Shape, Refers, Live, Distinct, MapOf, FirstFree, DeletedFirst, TooSparse;
    hide HalfFull, Justified, RefItem, LiveRef, WellPlaced;
    ghost var shrunk := 5 * (ht.cItems - 1) < ht.cBuckets && ht.cBuckets >= 1024;
    ghost var m := ht.Map();
    var deleted := ht.Delete(key);
    if shrunk { NoneDeletedFirst(ht.table.Contents(), ht.hash(key)); }
    FindOrInsertNew(ht, key, data);
    assert (m - {key})[key := data] == m[key := data];
  }

  /** So on a new table, whatever the hash function, an item put, deleted and put back is lost. */
  method PutDeletePutBack<K(==,!new)>(hash: K -> nat, leftover: Option<BucketRef>, key: K, data: nat)
    returns (ht: HashTable<K>)
    requires data != DELETED
    ensures ht.Valid() && ht.cItems == 1 && ht.Map() == map[]
  {
    hide BinsValid, View, Shape, Refers, Live, Distinct, MapOf, FirstFree, DeletedFirst, WellPlaced;
    hide HalfFull, RefItem, LiveRef;
    ht := new HashTable(hash, leftover);
    var item, reused := ht.Insert(key, data, true);
    DeleteThenFindOrInsert(ht, key, data);
  }

  // ----- whole runs -----

  datatype Call<K> =
    | InsertCall(key: K, data: nat)
    | FindOrInsertCall(key: K, data: nat)
    | FindCall(key: K)
    | DeleteCall(key: K)
    | FindLastCall
    | DeleteLastCall
    | ClearCall

  // Lost is a pointer to a deleted bucket, which the client can tell by its data.
  datatype Answer<K> = Found(item: HTItem<K>) | Lost | NotFound | WasThere(there: bool) | Cleared

  // The table as its clients see it: a finite map, the last key found, and the items lost.
  datatype Model<K> = Model(items: map<K, nat>, last: LastFind<K>, losses: nat)

  /** The last search is good to ask for, and there is room to count a new key. */
  predicate Allowed<K(==)>(m: Model<K>, call: Call<K>) {
    match call
    case InsertCall(key, data) => data != DELETED && (key in m.items || |m.items| + m.losses < MAX_ITEMS)
    case FindOrInsertCall(key, data) => data != DELETED && (key in m.items || |m.items| + m.losses < MAX_ITEMS)
    case FindLastCall => m.last != Garbage
    case DeleteLastCall => m.last != Garbage
    case _ => true
  }

  /** What a finite map that remembers the last key found does on the same call, if it loses a new key or not. */
  function ModelStep<K>(m: Model<K>, call: Call<K>, lost: bool): (Model<K>, Answer<K>) {
    match call
    case InsertCall(key, data) => (m.(items := m.items[key := data], last := NoItem), Found(HTItem(data, key)))
    case FindOrInsertCall(key, data) =>
      if key in m.items then (m.(last := NoItem), Found(HTItem(m.items[key], key)))
      else if lost then (m.(last := NoItem, losses := m.losses + 1), Lost)
      else (m.(items := m.items[key := data], last := NoItem), Found(HTItem(data, key)))
    case FindCall(key) =>
      if key in m.items then (m.(last := ItemOf(key)), Found(HTItem(m.items[key], key)))
      else (m.(last := NoItem), NotFound)
    case DeleteCall(key) => (m.(items := m.items - {key}, last := NoItem), WasThere(key in m.items))
    case FindLastCall =>
      (m, if m.last.ItemOf? && m.last.key in m.items then Found(HTItem(m.items[m.last.key], m.last.key)) else NotFound)
    case DeleteLastCall =>
      if m.last.ItemOf? then (m.(items := m.items - {m.last.key}, last := NoItem), WasThere(true))
      else (m, WasThere(false))
    case ClearCall => (Model(map[], NoItem, 0), Cleared)
  }

  function ModelRun<K>(m: Model<K>, calls: seq<Call<K>>, lost: seq<bool>): (r: (Model<K>, seq<Answer<K>>))
    requires |lost| == |calls|
    ensures |r.1| == |calls|
    decreases |calls|
  {
    if calls == [] then (m, [])
    else
      var n := |calls| - 1;
      var before := ModelRun(m, calls[..n], lost[..n]);
      var step := ModelStep(before.0, calls[n], lost[n]);
      (step.0, before.1 + [step.1])
  }

  /** Each call is allowed when it is made. */
  predicate AllAllowed<K(==)>(m: Model<K>, calls: seq<Call<K>>, lost: seq<bool>)
    requires |lost| == |calls|
    decreases |calls|
  {
    if calls == [] then true
    else
      var n := |calls| - 1;
      AllAllowed(m, calls[..n], lost[..n]) && Allowed(ModelRun(m, calls[..n], lost[..n]).0, calls[n])
  }

  lemma {:induction false} AllowedAt<K>(m: Model<K>, calls: seq<Call<K>>, lost: seq<bool>, i: nat)
    requires |lost| == |calls| && AllAllowed(m, calls, lost) && i < |calls|
    ensures Allowed(ModelRun(m, calls[..i], lost[..i]).0, calls[i])
    decreases |calls|
  {
    hide ModelRun, Allowed;
    var n := |calls| - 1;
    if i < n {
      AllowedAt(m, calls[..n], lost[..n], i);
      assert calls[..n][..i] == calls[..i] && lost[..n][..i] == lost[..i];
    }
  }

  /** Only HashFindOrInsert loses items: without it a run is that of a finite map, whatever lost says. */
  lemma {:induction false} OnlyFindOrInsertLoses<K>(m: Model<K>, calls: seq<Call<K>>, lost: seq<bool>, other: seq<bool>)
    requires |lost| == |calls| == |other| && forall call | call in calls :: !call.FindOrInsertCall?
    ensures ModelRun(m, calls, lost) == ModelRun(m, calls, other)
    ensures ModelRun(m, calls, lost).0.losses <= m.losses
    ensures AllAllowed(m, calls, lost) <==> AllAllowed(m, calls, other)
    decreases |calls|
  {
    if calls != [] {
      var n := |calls| - 1;
      assert calls[n] in calls;
      OnlyFindOrInsertLoses(m, calls[..n], lost[..n], other[..n]);
    }
  }

  ghost function ModelOf<K(!new)>(ht: HashTable<K>): Model<K>
    requires ht.Valid()
    reads ht, ht.table.bins
  {
    Model(ht.Map(), ht.LastFind(), ht.Losses())
  }

  /** A search, answered from the item that the table returns. */
  method Ask<K(==,!new)>(ht: HashTable<K>, call: Call<K>) returns (answer: Answer<K>)
    requires ht.Valid() && Allowed(ModelOf(ht), call) && (call.FindCall? || call.FindLastCall?)
    modifies ht`posLastFind
    ensures ht.Valid() && (ModelOf(ht), answer) == ModelStep(old(ModelOf(ht)), call, false)
  {
    hide BinsValid, View, Shape, Live, Refers, WellPlaced, Distinct, MapOf, DeletedFirst, FirstFree;
    hide HalfFull, Justified, LiveRef;
    var p, iEmpty := None, 0;
    if call.FindCall? {
      p, iEmpty := ht.Find(call.key);
    } else {
      p := ht.FindLast();
    }
    answer := AnswerFrom(ht, p);
  }

  method AnswerFrom<K(==,!new)>(ht: HashTable<K>, p: Option<BucketRef>) returns (answer: Answer<K>)
    requires ht.Valid() && (p.Some? ==> ht.PointsToLive(p.value))
    ensures answer == if p.Some? then Found(ht.ItemAt(p.value)) else NotFound
  {
    if p.Some? {
      var item := ht.table.Load(p.value);
      answer := Found(item);
    } else {
      answer := NotFound;
    }
  }

  /** The item behind a pointer, and how a client tells that it is a deleted one. */
  method Peep<K>(table: Table<K>, p: BucketRef) returns (item: HTItem<K>)
    requires table.Valid() && (LiveRef(table, p) || DeadRef(table, p))
    ensures if item.data == DELETED then DeadRef(table, p) else LiveRef(table, p) && item == RefItem(table, p)
    ensures LiveRef(table, p) <==> !DeadRef(table, p)
  {
    item := table.Load(p);
  }

  /** An insert, answered from the item that the table returns: a deleted one says that the new one is lost. */
  method Store<K(==,!new)>(ht: HashTable<K>, call: Call<K>) returns (answer: Answer<K>)
    requires ht.Valid() && Allowed(ModelOf(ht), call) && (call.InsertCall? || call.FindOrInsertCall?)
    modifies ht, ht.table.bins, ht.iter
    ensures ht.Valid() && ht.iter == old(ht.iter)
    ensures ht.table == old(ht.table) || (fresh(ht.table) && fresh(ht.table.bins))
    ensures (ModelOf(ht), answer) == ModelStep(old(ModelOf(ht)), call, answer.Lost?)
    ensures answer.Lost? <==> call.FindOrInsertCall? && call.key !in old(ht.Map())
                              && old(DeletedFirst(ht.table.Contents(), ht.hash(call.key)))
  {
    hide BinsValid, View, Shape, Live, Refers, WellPlaced, Distinct, MapOf, DeletedFirst, FirstFree;
    hide HalfFull, Justified, LiveRef, DeadRef, RefItem, HashTable.LastFind, HashTable.LastFindGood;
    var p, reused := ht.Insert(call.key, call.data, call.InsertCall?);
    var item := Peep(ht.table, p);
    answer := if item.data == DELETED then Lost else Found(item);
  }

  /** One call on the table. */
  method Perform<K(==,!new)>(ht: HashTable<K>, call: Call<K>) returns (answer: Answer<K>)
    requires ht.Valid() && Allowed(ModelOf(ht), call)
    modifies ht, ht.table.bins, ht.iter
    ensures ht.Valid() && ht.iter == old(ht.iter)
    ensures ht.table == old(ht.table) || (fresh(ht.table) && fresh(ht.table.bins))
    ensures (ModelOf(ht), answer) == ModelStep(old(ModelOf(ht)), call, answer.Lost?)
    ensures answer.Lost? <==> call.FindOrInsertCall? && call.key !in old(ht.Map())
                              && old(DeletedFirst(ht.table.Contents(), ht.hash(call.key)))
  {
    hide BinsValid, View, Shape, Live, Refers, WellPlaced, Distinct, MapOf, DeletedFirst, TooSparse;
    hide HalfFull, Justified, LiveRef, HashTable.LastFind, HashTable.LastFindGood;
    if call.InsertCall? || call.FindOrInsertCall? {
      answer := Store(ht, call);
    } else if call.FindCall? || call.FindLastCall? {
      answer := Ask(ht, call);
    } else if call.ClearCall? {
      ht.Clear();
      answer := Cleared;
    } else {
      var there;
      if call.DeleteCall? {
        there := ht.Delete(call.key);
      } else {
        there := ht.DeleteLast();
      }
      answer := WasThere(there);
    }
  }

  lemma NoCalls<K>(m: Model<K>, calls: seq<Call<K>>, lost: seq<bool>)
    requires calls == [] && lost == []
    ensures ModelRun(m, calls, lost) == (m, [])
  {
  }

  lemma Bounds<K(!new)>(ht: HashTable<K>)
    requires ht.Valid()
    ensures ht.cItems == |ht.Map()| + ht.Losses()
    ensures 2 * (ht.cItems + ht.cDeletedItems) < ht.cBuckets
    ensures ht.cBuckets <= 512 || ht.cBuckets <= 5 * ht.cItems
  {
  }

  lemma ModelRunNext<K>(m: Model<K>, calls: seq<Call<K>>, lost: seq<bool>, i: nat, l: bool)
    requires i < |calls| && |lost| == i
    ensures var before := ModelRun(m, calls[..i], lost);
            var step := ModelStep(before.0, calls[i], l);
            ModelRun(m, calls[..i + 1], lost + [l]) == (step.0, before.1 + [step.1])
  {
    assert calls[..i + 1][..i] == calls[..i] && (lost + [l])[..i] == lost;
  }

  /**
   Any run of calls gives the answers of a finite map that remembers the last key found, except
   that a HashFindOrInsert may lose its new key, and says so. The run ends with the contents of
   that map, counts its items and the lost ones, and uses no more buckets than 512 or five per item
   counted. Each call must be allowed when it is made, whichever items have been lost.
   */
  method Run<K(==,!new)>(ht: HashTable<K>, calls: seq<Call<K>>) returns (answers: seq<Answer<K>>, lost: seq<bool>)
    requires ht.Valid()
    requires forall l: seq<bool> | |l| == |calls| :: AllAllowed(ModelOf(ht), calls, l)
    modifies ht, ht.table.bins, ht.iter
    ensures |lost| == |calls| && |answers| == |calls|
    ensures forall i | 0 <= i < |calls| :: lost[i] == answers[i].Lost?
    ensures ht.Valid() && (ModelOf(ht), answers) == ModelRun(old(ModelOf(ht)), calls, lost)
    ensures ht.cItems == |ht.Map()| + ht.Losses()
    ensures 2 * (ht.cItems + ht.cDeletedItems) < ht.cBuckets
    ensures ht.cBuckets <= 512 || ht.cBuckets <= 5 * ht.cItems
  {
    hide *;
    ghost var start := ModelOf(ht);
    answers, lost := [], [];
    NoCalls(start, calls[..0], lost);
    for i := 0 to |calls|
      invariant ht.Valid() && ht.iter == old(ht.iter)
      invariant ht.table == old(ht.table) || (fresh(ht.table) && fresh(ht.table.bins))
      invariant |lost| == i == |answers| && forall j | 0 <= j < i :: lost[j] == answers[j].Lost?
      invariant (ModelOf(ht), answers) == ModelRun(start, calls[..i], lost)
    {
      ghost var l := lost + seq(|calls| - i, _ => false);
      AllowedAt(start, calls, l, i);
      assert l[..i] == lost;
      var answer := Perform(ht, calls[i]);
      ModelRunNext(start, calls, lost, i, answer.Lost?);
      answers, lost := answers + [answer], lost + [answer.Lost?];
    }
    assert calls[..|calls|] == calls;
    Bounds(ht);
  }
}
