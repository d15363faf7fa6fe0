/**
 The sparse bucket array: groups of 64 buckets, each stored as an occupancy bitmap and a packed
 array of the filled buckets, in bucket order.
 */
module SparseTable {
  import opened Bits
  import opened Common
  import opened Bitmap
  import opened Buckets

  const LOG_LOW_BIN_SIZE: nat := 6
  const GROUP_SIZE: nat := 64
  const BM_WORDS: nat := 1

  datatype SparseBin<K> = SparseBin(binSparse: seq<HTItem<K>>, bmOccupied: Words, cOccupied: nat)
  {
    ghost predicate Valid() {
      && |bmOccupied| == BM_WORDS
      && (forall w | w in bmOccupied :: w < WORD)
      && |binSparse| == cOccupied == Rank(bmOccupied, GROUP_SIZE)
    }

    ghost function At(pos: nat): Option<HTItem<K>>
      requires Valid() && pos < GROUP_SIZE
    {
      RankMonotone(bmOccupied, pos, GROUP_SIZE);
      if Test(bmOccupied, pos) then Some(binSparse[Rank(bmOccupied, pos)]) else None
    }

    /** realloc by one, memmove the tail up by one, store the item, set the bit. */
    function WithInserted(item: HTItem<K>, pos: nat, offset: nat): SparseBin<K>
      requires |bmOccupied| == BM_WORDS && pos < GROUP_SIZE && offset <= |binSparse|
    {
      SparseBin(binSparse[..offset] + [item] + binSparse[offset..], Set(bmOccupied, pos), cOccupied + 1)
    }

    function WithItem(item: HTItem<K>, offset: nat): SparseBin<K>
      requires offset < |binSparse|
    {
      this.(binSparse := binSparse[offset := item])
    }
  }

  function EmptyBin<K>(): SparseBin<K> {
    SparseBin([], [0], 0)
  }

  lemma {:induction false} RankOfEmpty(i: nat)
    requires i <= GROUP_SIZE
    ensures Rank([0], i) == 0
  {
    if i > 0 {
      RankOfEmpty(i - 1);
      BitOfZero(i - 1);
    }
  }

  lemma BinInsert<K>(b: SparseBin<K>, item: HTItem<K>, pos: nat)
    requires b.Valid() && pos < GROUP_SIZE && !Test(b.bmOccupied, pos)
    ensures Rank(b.bmOccupied, pos) <= |b.binSparse|
    ensures var b' := b.WithInserted(item, pos, Rank(b.bmOccupied, pos));
            b'.Valid() && forall p | 0 <= p < GROUP_SIZE :: b'.At(p) == if p == pos then Some(item) else b.At(p)
  {
    var bm, bm' := b.bmOccupied, Set(b.bmOccupied, pos);
    RankMonotone(bm, pos, GROUP_SIZE);
    RankOfSet(bm, pos, GROUP_SIZE);
    SetStaysWord(bm, pos);
    var b' := b.WithInserted(item, pos, Rank(bm, pos));
    forall p | 0 <= p < GROUP_SIZE
      ensures b'.At(p) == if p == pos then Some(item) else b.At(p)
    {
      TestOfSet(bm, pos, p);
      RankOfSet(bm, pos, p);
      if p < pos { RankMonotone(bm, p, pos); } else { RankMonotone(bm, pos, p); }
      RankMonotone(bm, p, GROUP_SIZE);
    }
  }

  lemma BinWrite<K>(b: SparseBin<K>, item: HTItem<K>, pos: nat)
    requires b.Valid() && pos < GROUP_SIZE && Test(b.bmOccupied, pos)
    ensures Rank(b.bmOccupied, pos) < |b.binSparse|
    ensures var b' := b.WithItem(item, Rank(b.bmOccupied, pos));
            b'.Valid() && forall p | 0 <= p < GROUP_SIZE :: b'.At(p) == if p == pos then Some(item) else b.At(p)
  {
    var bm := b.bmOccupied;
    RankMonotone(bm, pos, GROUP_SIZE);
    var b' := b.WithItem(item, Rank(bm, pos));
    forall p | 0 <= p < GROUP_SIZE
      ensures b'.At(p) == if p == pos then Some(item) else b.At(p)
    {
      RankMonotone(bm, p, GROUP_SIZE);
      if Test(bm, p) && Rank(bm, p) == Rank(bm, pos) { SelectUnique(bm, p, pos); }
    }
  }

  // ----- the whole array of groups -----

  ghost predicate BinsValid<K>(bins: seq<SparseBin<K>>) {
    forall g | 0 <= g < |bins| :: bins[g].Valid()
  }

  ghost function BucketAt<K>(bins: seq<SparseBin<K>>, location: nat): Option<HTItem<K>>
    requires BinsValid(bins) && location < GROUP_SIZE * |bins|
  {
    bins[location / GROUP_SIZE].At(location % GROUP_SIZE)
  }

  ghost function BinView<K>(b: SparseBin<K>): (c: Contents<K>)
    requires b.Valid()
    ensures |c| == GROUP_SIZE
  {
    seq(GROUP_SIZE, pos requires 0 <= pos < GROUP_SIZE => b.At(pos))
  }

  /** The bucket array that the groups stand for, group after group. */
  ghost function View<K>(bins: seq<SparseBin<K>>): (c: Contents<K>)
    requires BinsValid(bins)
    ensures |c| == GROUP_SIZE * |bins|
  {
    if bins == [] then [] else View(bins[..|bins| - 1]) + BinView(bins[|bins| - 1])
  }

  lemma {:induction false} ViewAt<K>(bins: seq<SparseBin<K>>, i: nat)
    requires BinsValid(bins) && i < GROUP_SIZE * |bins|
    ensures View(bins)[i] == BucketAt(bins, i)
    decreases |bins|
  {
    var last := |bins| - 1;
    if i < GROUP_SIZE * last {
      ViewAt(bins[..last], i);
      assert i / GROUP_SIZE < last;
      assert bins[..last][i / GROUP_SIZE] == bins[i / GROUP_SIZE];
    } else {
      assert i / GROUP_SIZE == last;
    }
  }

  // The bitmaps alone: they decide where a pointer into a packed array points.
  ghost function Shape<K>(bins: seq<SparseBin<K>>): (s: seq<Words>)
    ensures |s| == |bins| && forall g | 0 <= g < |s| :: s[g] == bins[g].bmOccupied
  {
    seq(|bins|, g requires 0 <= g < |bins| => bins[g].bmOccupied)
  }

  // A bucket pointer: a packed array and an offset into it.
  datatype BucketRef = BucketRef(group: nat, offset: nat)

  ghost predicate Refers(shape: seq<Words>, p: BucketRef) {
    && p.group < |shape|
    && |shape[p.group]| == BM_WORDS
    && p.offset < Rank(shape[p.group], GROUP_SIZE)
  }

  ghost function LocationOf(shape: seq<Words>, p: BucketRef): (location: nat)
    requires Refers(shape, p)
    ensures location < GROUP_SIZE * |shape|
    ensures location / GROUP_SIZE == p.group
  {
    GROUP_SIZE * p.group + Select(shape[p.group], p.offset, GROUP_SIZE)
  }

  lemma RefFromRank(shape: seq<Words>, location: nat)
    requires location < GROUP_SIZE * |shape|
    requires |shape[location / GROUP_SIZE]| == BM_WORDS
    requires Test(shape[location / GROUP_SIZE], location % GROUP_SIZE)
    ensures var p := BucketRef(location / GROUP_SIZE, Rank(shape[location / GROUP_SIZE], location % GROUP_SIZE));
            Refers(shape, p) && LocationOf(shape, p) == location
  {
    RankIsIncreasingBijection(shape[location / GROUP_SIZE]);
  }

  /** Two pointers to the same bucket are the same pointer. */
  lemma LocationInjective(shape: seq<Words>, p: BucketRef, q: BucketRef)
    requires Refers(shape, p) && Refers(shape, q)
    ensures LocationOf(shape, p) == LocationOf(shape, q) <==> p == q
  {
    if LocationOf(shape, p) == LocationOf(shape, q) {
      assert p.group == q.group;
      assert Rank(shape[p.group], Select(shape[p.group], p.offset, GROUP_SIZE)) == p.offset;
    }
  }

  lemma InsertRefines<K>(bins: seq<SparseBin<K>>, location: nat, item: HTItem<K>)
    requires BinsValid(bins) && location < GROUP_SIZE * |bins|
    requires View(bins)[location].None?
    ensures var g, pos := location / GROUP_SIZE, location % GROUP_SIZE;
            && Rank(bins[g].bmOccupied, pos) <= |bins[g].binSparse|
            && var bins' := bins[g := bins[g].WithInserted(item, pos, Rank(bins[g].bmOccupied, pos))];
            && BinsValid(bins') && View(bins') == View(bins)[location := Some(item)]
            && Test(bins'[g].bmOccupied, pos)
            && Rank(bins'[g].bmOccupied, pos) == Rank(bins[g].bmOccupied, pos)
  {
    var g, pos := location / GROUP_SIZE, location % GROUP_SIZE;
    ViewAt(bins, location);
    BinInsert(bins[g], item, pos);
    TestOfSet(bins[g].bmOccupied, pos, pos);
    RankOfSet(bins[g].bmOccupied, pos, pos);
    var bins' := bins[g := bins[g].WithInserted(item, pos, Rank(bins[g].bmOccupied, pos))];
    UpdateView(bins, bins', location, item);
  }

  lemma WriteRefines<K>(bins: seq<SparseBin<K>>, p: BucketRef, item: HTItem<K>)
    requires BinsValid(bins) && Refers(Shape(bins), p)
    ensures p.offset < |bins[p.group].binSparse|
    ensures var bins' := bins[p.group := bins[p.group].WithItem(item, p.offset)];
            && BinsValid(bins') && Shape(bins') == Shape(bins)
            && View(bins') == View(bins)[LocationOf(Shape(bins), p) := Some(item)]
  {
    var location := LocationOf(Shape(bins), p);
    BinWrite(bins[p.group], item, location % GROUP_SIZE);
    var bins' := bins[p.group := bins[p.group].WithItem(item, p.offset)];
    UpdateView(bins, bins', location, item);
  }

  lemma UpdateView<K>(bins: seq<SparseBin<K>>, bins': seq<SparseBin<K>>, location: nat, item: HTItem<K>)
    requires BinsValid(bins) && BinsValid(bins') && |bins| == |bins'| && location < GROUP_SIZE * |bins|
    requires forall h | 0 <= h < |bins| && h != location / GROUP_SIZE :: bins'[h] == bins[h]
    requires var g := location / GROUP_SIZE;
             forall p | 0 <= p < GROUP_SIZE ::
               bins'[g].At(p) == if p == location % GROUP_SIZE then Some(item) else bins[g].At(p)
    ensures View(bins') == View(bins)[location := Some(item)]
  {
    forall i | 0 <= i < GROUP_SIZE * |bins|
      ensures View(bins')[i] == if i == location then Some(item) else View(bins)[i]
    {
      ViewAt(bins, i);
      ViewAt(bins', i);
      SamePlace(i, location);
    }
  }

  lemma SamePlace(i: nat, j: nat)
    ensures i == j <==> i / GROUP_SIZE == j / GROUP_SIZE && i % GROUP_SIZE == j % GROUP_SIZE
  {
  }

  // ----- allocation sizes -----

  // Largest bucket count whose rounded size still fits the `int` that SparseAllocate computes it in.
  const MAX_BUCKETS: nat := 0x7FFF_FFC0

  /** SPARSE_GROUPS */
  function SparseGroups(cBuckets: nat): nat
    requires cBuckets > 0
  {
    (cBuckets - 1) / GROUP_SIZE + 1
  }

  /** Conversion to a 32-bit `int`, and of an `int` to `ulong`. */
  function ToInt(x: int): int {
    (x + 0x8000_0000) % 0x1_0000_0000 - 0x8000_0000
  }

  function ToUlong(x: int): nat {
    x % WORD
  }

  /** The bucket count that SparseAllocate reports: both the group count and the shift are `int`. */
  function ReportedBuckets(cBuckets: nat): nat
    requires cBuckets > 0
  {
    ToUlong(ToInt(ToInt(SparseGroups(cBuckets)) * GROUP_SIZE))
  }

  /**
   For every size that a power of two can ask for, the reported bucket count is the requested one
   rounded up to whole groups exactly when the request is at most MAX_BUCKETS.
   */
  lemma ReportedBucketsExact(cBuckets: nat)
    requires 0 < cBuckets <= 0x8000_0000_0000_0000
    ensures ReportedBuckets(cBuckets) == GROUP_SIZE * SparseGroups(cBuckets) <==> cBuckets <= MAX_BUCKETS
  {
    var n := GROUP_SIZE * SparseGroups(cBuckets);
    if cBuckets <= MAX_BUCKETS {
      assert n < 0x8000_0000;
    } else {
      assert 0x8000_0000 <= n <= 0x8000_0000_0000_0000;
    }
  }

  /** At 2^31 buckets the reported count is wrong: it is 2^64 - 2^31. */
  lemma AllocationOverflows()
    ensures ReportedBuckets(0x8000_0000) == 0xFFFF_FFFF_8000_0000
  {
  }

  lemma RoundedMultiple(n: nat, q: nat)
    requires n == GROUP_SIZE * q && n > 0
    ensures GROUP_SIZE * SparseGroups(n) == n
  {
  }

  /** Rounding a power of two up to whole groups gives a power of two. */
  lemma RoundedPow2(n: nat)
    requires IsPow2(n)
    ensures n > 0 && IsPow2(GROUP_SIZE * SparseGroups(n))
    ensures GROUP_SIZE * SparseGroups(n) == if n < GROUP_SIZE then GROUP_SIZE else n
  {
    var k: nat :| n == Pow2(k);
    SmallPow2();
    if k < LOG_LOW_BIN_SIZE {
      Pow2Monotone(k + 1, LOG_LOW_BIN_SIZE);
      assert n < GROUP_SIZE && SparseGroups(n) == 1;
      assert GROUP_SIZE == Pow2(LOG_LOW_BIN_SIZE);
    } else {
      Pow2Add(LOG_LOW_BIN_SIZE, k - LOG_LOW_BIN_SIZE);
      RoundedMultiple(n, Pow2(k - LOG_LOW_BIN_SIZE));
    }
  }

  lemma EmptyBinIsValid<K>()
    ensures EmptyBin<K>().Valid()
  {
    RankOfEmpty(GROUP_SIZE);
  }

  lemma EmptyBucket<K>(bins: seq<SparseBin<K>>, i: nat)
    requires BinsValid(bins) && i < GROUP_SIZE * |bins| && bins[i / GROUP_SIZE] == EmptyBin()
    ensures View(bins)[i].None?
  {
    ViewAt(bins, i);
    BitOfZero(i % GROUP_SIZE);
  }

  lemma EmptyView<K>(bins: seq<SparseBin<K>>)
    requires forall g | 0 <= g < |bins| :: bins[g] == EmptyBin()
    ensures BinsValid(bins) && View(bins) == Buckets.Empty<K>(GROUP_SIZE * |bins|)
  {
    EmptyBinIsValid<K>();
    forall i: nat | i < |View(bins)|
      ensures View(bins)[i].None?
    {
      EmptyBucket(bins, i);
    }
  }

  // ----- the array in memory -----

  class Table<K> {
    const bins: array<SparseBin<K>>

    ghost predicate Valid()
      reads bins
    {
      BinsValid(bins[..])
    }

    ghost function Contents(): (c: Contents<K>)
      requires Valid()
      reads bins
    {
      View(bins[..])
    }

    ghost function Bitmaps(): seq<Words>
      reads bins
    {
      Shape(bins[..])
    }

    constructor (cGroups: nat)
      ensures Valid() && fresh(bins)
      ensures Contents() == Buckets.Empty<K>(GROUP_SIZE * cGroups)
    {
      bins := new SparseBin<K>[cGroups](_ => EmptyBin());
      new;
      EmptyView(bins[..]);
    }

    method IsEmpty(location: nat) returns (empty: bool)
      requires Valid() && location < |Contents()|
      ensures empty == Contents()[location].None?
    {
      ViewAt(bins[..], location);
      empty := !Test(bins[location / GROUP_SIZE].bmOccupied, location % GROUP_SIZE);
    }

    method Find(location: nat) returns (r: Option<BucketRef>)
      requires Valid() && location < |Contents()|
      ensures r.Some? == Contents()[location].Some?
      ensures r.Some? ==> Refers(Bitmaps(), r.value) && LocationOf(Bitmaps(), r.value) == location
    {
      var empty := IsEmpty(location);
      if empty {
        return None;
      }
      var offset := EntriesUpto(bins[location / GROUP_SIZE].bmOccupied, location % GROUP_SIZE);
      ViewAt(bins[..], location);
      RefFromRank(Bitmaps(), location);
      r := Some(BucketRef(location / GROUP_SIZE, offset));
    }

    /** Reading the item behind a bucket pointer. */
    method Load(p: BucketRef) returns (item: HTItem<K>)
      requires Valid() && Refers(Bitmaps(), p)
      ensures Contents()[LocationOf(Bitmaps(), p)] == Some(item)
    {
      ViewAt(bins[..], LocationOf(Bitmaps(), p));
      item := bins[p.group].binSparse[p.offset];
    }

    /** Writing the item behind a bucket pointer: no bucket moves, so all pointers stay good. */
    method Store(p: BucketRef, item: HTItem<K>)
      requires Valid() && Refers(Bitmaps(), p)
      modifies bins
      ensures Valid() && Bitmaps() == old(Bitmaps())
      ensures Contents() == old(Contents())[LocationOf(Bitmaps(), p) := Some(item)]
    {
      WriteRefines(bins[..], p, item);
      ghost var was := bins[..];
      bins[p.group] := bins[p.group].WithItem(item, p.offset);
      assert bins[..] == was[p.group := was[p.group].WithItem(item, p.offset)];
    }

    method Insert(item: HTItem<K>, location: nat, fOverwrite: bool) returns (p: BucketRef, occupied: bool)
      requires Valid() && location < |Contents()|
      modifies bins
      ensures Valid() && Contents() == Inserted(old(Contents()), location, item, fOverwrite)
      ensures occupied == old(Contents())[location].Some?
      ensures Refers(Bitmaps(), p) && LocationOf(Bitmaps(), p) == location
    {
      var found := Find(location);
      if found.Some? {
        if fOverwrite {
          Store(found.value, item);
        }
        return found.value, true;
      }
      var g, pos := location / GROUP_SIZE, location % GROUP_SIZE;
      var offset := EntriesUpto(bins[g].bmOccupied, pos);
      InsertRefines(bins[..], location, item);
      ghost var was := bins[..];
      bins[g] := bins[g].WithInserted(item, pos, offset);
      assert bins[..] == was[g := was[g].WithInserted(item, pos, offset)];
      RefFromRank(Bitmaps(), location);
      return BucketRef(g, offset), false;
    }
  }

  /**
   Allocates an empty array of cBuckets buckets, rounded up to whole groups, and reports how many
   it has: correctly exactly up to MAX_BUCKETS. The number of groups must fit its `int`.
   */
  method SparseAllocate<K>(cBuckets: nat) returns (table: Table<K>, cAllocated: nat)
    requires cBuckets > 0 && SparseGroups(cBuckets) < 0x8000_0000
    ensures fresh(table) && fresh(table.bins) && table.Valid()
    ensures table.Contents() == Buckets.Empty<K>(GROUP_SIZE * SparseGroups(cBuckets))
    ensures cAllocated == |table.Contents()| <==> cBuckets <= MAX_BUCKETS
  {
    table := new Table(ToInt(SparseGroups(cBuckets)));
    ReportedBucketsExact(cBuckets);
    cAllocated := ReportedBuckets(cBuckets);
  }

  // ----- iteration over the filled buckets -----

  class Iterator<K> {
    var posGroup: int
    var posOffset: int
    var table: Table<K>

    /** Before the first bucket, on a filled bucket, or past the end. */
    ghost predicate Valid()
      reads this, table, table.bins
    {
      && table.Valid()
      && -1 <= posGroup <= table.bins.Length
      && (posGroup == -1 <==> posOffset == -1)
      && (0 <= posGroup < table.bins.Length ==>
            0 <= posOffset && Refers(table.Bitmaps(), BucketRef(posGroup, posOffset)))
    }

    ghost predicate Exhausted()
      reads this, table, table.bins
    {
      posGroup == table.bins.Length
    }

    /** The bucket number the iterator stands on. */
    ghost function At(): (location: int)
      requires Valid()
      reads this, table, table.bins
      ensures -1 <= location <= |table.Contents()|
    {
      if posGroup == -1 then -1
      else if posGroup == table.bins.Length then |table.Contents()|
      else LocationOf(table.Bitmaps(), BucketRef(posGroup, posOffset))
    }

    constructor (t: Table<K>)
      requires t.Valid()
      ensures Valid() && At() == -1 && table == t
    {
      table := t;
      posGroup, posOffset := -1, -1;
    }

    method FirstBucket(t: Table<K>) returns (r: Option<BucketRef>)
      requires t.Valid()
      modifies this
      ensures Valid() && table == t
      ensures Advanced(table.Bitmaps(), -1, At(), r)
    {
      table := t;
      posGroup, posOffset := -1, -1;
      r := NextBucket();
    }

    /** The next filled bucket; None once, at the end. */
    method NextBucket() returns (r: Option<BucketRef>)
      requires Valid() && !Exhausted()
      modifies this`posGroup, this`posOffset
      ensures Valid()
      ensures Advanced(table.Bitmaps(), old(At()), At(), r)
    {
      ghost var start, shape := At(), table.Bitmaps();
      if posOffset != -1 {
        posOffset := posOffset + 1;
        if posOffset < table.bins[posGroup].cOccupied {
          r := Some(BucketRef(posGroup, posOffset));
          NextInGroup(shape, BucketRef(posGroup, posOffset - 1));
          return;
        }
        LastInGroup(shape, BucketRef(posGroup, posOffset - 1));
      }
      posOffset := 0;
      posGroup := posGroup + 1;
      r := NextGroup(start);
    }

    /** Skips the empty groups and enters the next one that holds a bucket. */
    method NextGroup(ghost start: int) returns (r: Option<BucketRef>)
      requires table.Valid() && 0 <= posGroup <= table.bins.Length && posOffset == 0
      requires WordShaped(table.Bitmaps()) && NoneBetween(table.Bitmaps(), start, GROUP_SIZE * posGroup)
      requires start < GROUP_SIZE * posGroup
      modifies this`posGroup
      ensures Valid()
      ensures Advanced(table.Bitmaps(), start, At(), r)
    {
      ghost var shape := table.Bitmaps();
      while posGroup < table.bins.Length
        invariant 0 <= posGroup <= table.bins.Length
        invariant start < GROUP_SIZE * posGroup && NoneBetween(shape, start, GROUP_SIZE * posGroup)
      {
        if table.bins[posGroup].cOccupied > 0 {
          FirstInGroup(shape, posGroup);
          return Some(BucketRef(posGroup, 0));
        }
        EmptyGroup(shape, posGroup);
        posGroup := posGroup + 1;
      }
      return None;
    }
  }

  ghost predicate WordShaped(shape: seq<Words>) {
    forall g | 0 <= g < |shape| :: |shape[g]| == BM_WORDS
  }

  ghost predicate Filled(shape: seq<Words>, location: int)
    requires WordShaped(shape)
  {
    0 <= location < GROUP_SIZE * |shape| && Test(shape[location / GROUP_SIZE], location % GROUP_SIZE)
  }

  /** No filled bucket strictly between the two. */
  ghost predicate NoneBetween(shape: seq<Words>, from: int, to: int)
    requires WordShaped(shape)
  {
    forall x | from < x < to :: !Filled(shape, x)
  }

  /** Iteration moved from one bucket number to the next filled one, or to the end. */
  ghost predicate Advanced(shape: seq<Words>, from: int, to: int, r: Option<BucketRef>)
  {
    && WordShaped(shape)
    && from < to
    && NoneBetween(shape, from, to)
    && match r
       case Some(p) => Refers(shape, p) && LocationOf(shape, p) == to
       case None => to == GROUP_SIZE * |shape|
  }

  lemma FilledIsSome<K>(bins: seq<SparseBin<K>>, location: nat)
    requires BinsValid(bins) && location < GROUP_SIZE * |bins|
    ensures WordShaped(Shape(bins))
    ensures Filled(Shape(bins), location) <==> View(bins)[location].Some?
  {
    ViewAt(bins, location);
    assert View(bins)[location].Some? <==> Test(bins[location / GROUP_SIZE].bmOccupied, location % GROUP_SIZE);
  }

  lemma GroupLocation(shape: seq<Words>, p: BucketRef, x: int)
    requires WordShaped(shape) && Refers(shape, p)
    requires GROUP_SIZE * p.group <= x < GROUP_SIZE * (p.group + 1)
    ensures Filled(shape, x) <==> Test(shape[p.group], x - GROUP_SIZE * p.group)
  {
  }

  lemma NextInGroup(shape: seq<Words>, p: BucketRef)
    requires WordShaped(shape) && Refers(shape, p)
    requires p.offset + 1 < Rank(shape[p.group], GROUP_SIZE)
    ensures var q := BucketRef(p.group, p.offset + 1);
            && Refers(shape, q)
            && LocationOf(shape, p) < LocationOf(shape, q)
            && NoneBetween(shape, LocationOf(shape, p), LocationOf(shape, q))
  {
    SelectNeighbours(shape[p.group], p.offset);
    forall x | LocationOf(shape, p) < x < LocationOf(shape, BucketRef(p.group, p.offset + 1))
      ensures !Filled(shape, x)
    {
      GroupLocation(shape, p, x);
    }
  }

  lemma LastInGroup(shape: seq<Words>, p: BucketRef)
    requires WordShaped(shape) && Refers(shape, p)
    requires p.offset + 1 == Rank(shape[p.group], GROUP_SIZE)
    ensures NoneBetween(shape, LocationOf(shape, p), GROUP_SIZE * (p.group + 1))
  {
    SelectNeighbours(shape[p.group], p.offset);
  }

  lemma FirstInGroup(shape: seq<Words>, g: nat)
    requires WordShaped(shape) && g < |shape| && Rank(shape[g], GROUP_SIZE) > 0
    ensures Refers(shape, BucketRef(g, 0))
    ensures NoneBetween(shape, GROUP_SIZE * g - 1, LocationOf(shape, BucketRef(g, 0)))
  {
    SelectNeighbours(shape[g], 0);
  }

  lemma EmptyGroup(shape: seq<Words>, g: nat)
    requires WordShaped(shape) && g < |shape| && Rank(shape[g], GROUP_SIZE) == 0
    ensures NoneBetween(shape, GROUP_SIZE * g - 1, GROUP_SIZE * (g + 1))
  {
    forall x | GROUP_SIZE * g <= x < GROUP_SIZE * (g + 1)
      ensures !Filled(shape, x)
    {
      RankZero(shape[g], x % GROUP_SIZE);
    }
  }
}
