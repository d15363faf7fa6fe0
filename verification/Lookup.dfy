/**
 What a bucket array means as a table: the map from the keys of its live buckets to their data,
 and the probe-path invariant that makes the first empty bucket on a key's path prove absence.
 */
module Lookup {
  import opened Bits
  import opened Common
  import opened Buckets
  import opened Probing

  ghost predicate Live<K>(b: Option<HTItem<K>>) {
    b.Some? && b.value.data != DELETED
  }

  ghost predicate Dead<K>(b: Option<HTItem<K>>) {
    b.Some? && b.value.data == DELETED
  }

  // ----- the map -----

  /** No key is live in two buckets. */
  ghost predicate Distinct<K>(c: Contents<K>) {
    forall i, j | 0 <= i < |c| && 0 <= j < |c| && Live(c[i]) && Live(c[j]) ::
      c[i].value.key == c[j].value.key ==> i == j
  }

  ghost predicate HasKey<K>(c: Contents<K>, key: K) {
    exists i :: 0 <= i < |c| && Live(c[i]) && c[i].value.key == key
  }

  ghost predicate Records<K>(m: map<K, nat>, item: HTItem<K>) {
    item.key in m && m[item.key] == item.data
  }

  ghost function MapOf<K>(c: Contents<K>): (m: map<K, nat>)
    requires Distinct(c)
    ensures forall i | 0 <= i < |c| && Live(c[i]) :: Records(m, c[i].value)
    ensures forall k | k in m :: HasKey(c, k)
  {
    map i | 0 <= i < |c| && Live(c[i]) :: c[i].value.key := c[i].value.data
  }

  /** The two properties of MapOf determine it. */
  lemma MapIs<K>(c: Contents<K>, m: map<K, nat>)
    requires Distinct(c)
    requires forall i | 0 <= i < |c| && Live(c[i]) :: Records(m, c[i].value)
    requires forall k | k in m :: HasKey(c, k)
    ensures MapOf(c) == m
  {
    forall k | k in MapOf(c) || k in m
      ensures k in MapOf(c) && k in m && MapOf(c)[k] == m[k]
    {
      assert HasKey(c, k);
      var i :| 0 <= i < |c| && Live(c[i]) && c[i].value.key == k;
      assert Records(m, c[i].value) && Records(MapOf(c), c[i].value);
    }
  }

  ghost function BucketOf<K>(c: Contents<K>, key: K): (i: nat)
    requires Distinct(c) && key in MapOf(c)
    ensures i < |c| && Live(c[i]) && c[i].value == HTItem(MapOf(c)[key], key)
  {
    assert HasKey(c, key);
    var i :| 0 <= i < |c| && Live(c[i]) && c[i].value.key == key;
    assert Records(MapOf(c), c[i].value);
    i
  }

  lemma DistinctAfterStore<K>(c: Contents<K>, i: nat, item: HTItem<K>)
    requires Distinct(c) && i < |c|
    requires item.data != DELETED ==> forall j | 0 <= j < |c| && j != i && Live(c[j]) :: c[j].value.key != item.key
    ensures Distinct(c[i := Some(item)])
  {
  }

  /** Filling a bucket that is not live with a new key adds that key; refilling one replaces its data. */
  lemma MapOfStore<K>(c: Contents<K>, i: nat, item: HTItem<K>)
    requires Distinct(c) && i < |c| && item.data != DELETED
    requires if Live(c[i]) then c[i].value.key == item.key else item.key !in MapOf(c)
    ensures Distinct(c[i := Some(item)])
    ensures MapOf(c[i := Some(item)]) == MapOf(c)[item.key := item.data]
  {
    var c', m' := c[i := Some(item)], MapOf(c)[item.key := item.data];
    forall j | 0 <= j < |c| && j != i && Live(c[j])
      ensures c[j].value.key != item.key && Records(m', c[j].value)
    {
      assert Records(MapOf(c), c[j].value);
    }
    DistinctAfterStore(c, i, item);
    forall j | 0 <= j < |c'| && Live(c'[j])
      ensures Records(m', c'[j].value)
    {
      if j != i { assert c'[j] == c[j]; }
    }
    forall k | k in m'
      ensures HasKey(c', k)
    {
      if k == item.key {
        assert Live(c'[i]);
      } else {
        var j := BucketOf(c, k);
        assert c'[j] == c[j];
      }
    }
    MapIs(c', m');
  }

  /** Marking a live bucket deleted removes its key. */
  lemma MapOfMark<K>(c: Contents<K>, i: nat)
    requires Distinct(c) && i < |c| && Live(c[i])
    ensures var c' := c[i := Some(c[i].value.(data := DELETED))];
            Distinct(c') && MapOf(c') == MapOf(c) - {c[i].value.key}
  {
    var c', m' := c[i := Some(c[i].value.(data := DELETED))], MapOf(c) - {c[i].value.key};
    DistinctAfterStore(c, i, c[i].value.(data := DELETED));
    forall j | 0 <= j < |c'| && Live(c'[j])
      ensures Records(m', c'[j].value)
    {
      assert j != i && c'[j] == c[j];
      assert Records(MapOf(c), c[j].value);
    }
    forall k | k in m'
      ensures HasKey(c', k)
    {
      var j := BucketOf(c, k);
      assert c'[j] == c[j];
    }
    MapIs(c', m');
  }

  // ----- counting buckets -----

  ghost function Lives<K>(c: Contents<K>): (n: nat)
    ensures n <= |c|
  {
    if c == [] then 0 else Lives(c[..|c| - 1]) + (if Live(c[|c| - 1]) then 1 else 0)
  }

  ghost function Deads<K>(c: Contents<K>): (n: nat)
    ensures n <= |c|
  {
    if c == [] then 0 else Deads(c[..|c| - 1]) + (if Dead(c[|c| - 1]) then 1 else 0)
  }

  lemma {:induction false} CountsOfUpdate<K>(c: Contents<K>, i: nat, b: Option<HTItem<K>>)
    requires i < |c|
    ensures Lives(c[i := b]) == Lives(c) - (if Live(c[i]) then 1 else 0) + (if Live(b) then 1 else 0)
    ensures Deads(c[i := b]) == Deads(c) - (if Dead(c[i]) then 1 else 0) + (if Dead(b) then 1 else 0)
    decreases |c|
  {
    var last := |c| - 1;
    if i < last {
      assert c[i := b][..last] == c[..last][i := b];
      CountsOfUpdate(c[..last], i, b);
    } else {
      assert c[i := b][..last] == c[..last];
    }
  }

  lemma {:induction false} CountsOfEmpty<K>(c: Contents<K>)
    requires forall i | 0 <= i < |c| :: c[i].None?
    ensures Lives(c) == 0 && Deads(c) == 0
  {
    if c != [] { CountsOfEmpty(c[..|c| - 1]); }
  }

  lemma {:induction false} LivesOfPrefix<K>(c: Contents<K>, n: nat)
    requires n <= |c|
    ensures Lives(c[..n]) <= Lives(c)
    decreases |c|
  {
    if n < |c| {
      assert c[..|c| - 1][..n] == c[..n];
      LivesOfPrefix(c[..|c| - 1], n);
    } else {
      assert c[..n] == c;
    }
  }

  lemma {:induction false} NoneDead<K>(c: Contents<K>, i: nat)
    requires i < |c| && Deads(c) == 0
    ensures !Dead(c[i])
  {
    if i < |c| - 1 { NoneDead(c[..|c| - 1], i); }
  }

  lemma {:induction false} FullCounts<K>(c: Contents<K>)
    requires forall i | 0 <= i < |c| :: c[i].Some?
    ensures Lives(c) + Deads(c) == |c|
  {
    if c != [] { FullCounts(c[..|c| - 1]); }
  }

  /** One bucket more: how a prefix of the array grows the map. */
  lemma MapOfPrefix<K>(c: Contents<K>, n: nat)
    requires Distinct(c) && n < |c|
    ensures Distinct(c[..n]) && Distinct(c[..n + 1])
    ensures Live(c[n]) ==> c[n].value.key !in MapOf(c[..n])
    ensures MapOf(c[..n + 1]) == if Live(c[n]) then MapOf(c[..n])[c[n].value.key := c[n].value.data] else MapOf(c[..n])
  {
    var p, q := c[..n], c[..n + 1];
    if Live(c[n]) && c[n].value.key in MapOf(p) {
      var j := BucketOf(p, c[n].value.key);
      assert false;
    }
    var m := if Live(c[n]) then MapOf(p)[c[n].value.key := c[n].value.data] else MapOf(p);
    forall j | 0 <= j < |q| && Live(q[j])
      ensures Records(m, q[j].value)
    {
      if j < n { assert q[j] == p[j] == c[j] && Records(MapOf(p), p[j].value); }
    }
    forall k | k in m
      ensures HasKey(q, k)
    {
      if k in MapOf(p) {
        var j := BucketOf(p, k);
        assert q[j] == p[j];
      } else {
        assert q[n] == c[n];
      }
    }
    MapIs(q, m);
  }

  /** The map has one entry per live bucket. */
  lemma {:induction false} MapSize<K>(c: Contents<K>)
    requires Distinct(c)
    ensures |MapOf(c)| == Lives(c)
    decreases |c|
  {
    if c != [] {
      var n := |c| - 1;
      MapOfPrefix(c, n);
      MapSize(c[..n]);
      assert c[..n + 1] == c;
    }
  }

  // ----- the probe-path invariant -----

  /** The first s buckets on the path of hash value h have all been filled. */
  ghost predicate PathFull<K>(c: Contents<K>, h: nat, s: nat)
    requires |c| > 0
  {
    forall j | 0 <= j < s :: c[Probe(h, j, |c|)].Some?
  }

  /** Bucket i is reached from hash value h over filled buckets only. */
  ghost predicate Reached<K>(c: Contents<K>, h: nat, i: nat)
    requires |c| > 0
  {
    exists s :: 0 <= s < |c| && Probe(h, s, |c|) == i && PathFull(c, h, s)
  }

  ghost predicate WellPlaced<K(!new)>(c: Contents<K>, hash: K -> nat) {
    && IsPow2(|c|)
    && Distinct(c)
    && forall i | 0 <= i < |c| && Live(c[i]) :: Reached(c, hash(c[i].value.key), i)
  }

  /** The first s buckets on the path are filled and none of them holds the key. */
  ghost predicate PassedOver<K>(c: Contents<K>, h: nat, key: K, s: nat)
    requires |c| > 0
  {
    PathFull(c, h, s) && forall j | 0 <= j < s :: var b := c[Probe(h, j, |c|)]; Live(b) ==> b.value.key != key
  }

  /** The first never-filled bucket on a key's path proves that the key is absent. */
  lemma EmptyProvesAbsent<K(!new)>(c: Contents<K>, hash: K -> nat, key: K, s: nat)
    requires WellPlaced(c, hash) && PassedOver(c, hash(key), key, s)
    requires c[Probe(hash(key), s, |c|)].None?
    ensures key !in MapOf(c)
  {
    if key in MapOf(c) {
      var i := BucketOf(c, key);
      assert false;
    }
  }

  /** While a bucket is left empty, every path meets an empty bucket within |c| probes. */
  lemma PathMeetsEmpty<K>(c: Contents<K>, h: nat)
    requires IsPow2(|c|) && Lives(c) + Deads(c) < |c|
    ensures !PathFull(c, h, |c|)
  {
    if PathFull(c, h, |c|) {
      forall b | 0 <= b < |c|
        ensures c[b].Some?
      {
        ProbesCover(h, |c|, b);
      }
      FullCounts(c);
    }
  }

  /** Filling any bucket keeps every path that was full. */
  lemma FillKeepsReached<K>(c: Contents<K>, i: nat, item: HTItem<K>, h: nat, b: nat)
    requires |c| > 0 && i < |c| && Reached(c, h, b)
    ensures Reached(c[i := Some(item)], h, b)
  {
    var s :| 0 <= s < |c| && Probe(h, s, |c|) == b && PathFull(c, h, s);
    assert PathFull(c[i := Some(item)], h, s);
  }

  lemma FillKeepsPlaced<K(!new)>(c: Contents<K>, hash: K -> nat, i: nat, item: HTItem<K>)
    requires WellPlaced(c, hash) && i < |c| && Distinct(c[i := Some(item)])
    requires item.data != DELETED ==> Reached(c, hash(item.key), i)
    ensures WellPlaced(c[i := Some(item)], hash)
  {
    var c' := c[i := Some(item)];
    forall b | 0 <= b < |c'| && Live(c'[b])
      ensures Reached(c', hash(c'[b].value.key), b)
    {
      FillKeepsReached(c, i, item, hash(c'[b].value.key), b);
    }
  }

  /** Filling the first reusable bucket on the path of an absent key. */
  lemma InsertKeeps<K(!new)>(c: Contents<K>, hash: K -> nat, item: HTItem<K>, s: nat)
    requires WellPlaced(c, hash) && item.key !in MapOf(c) && item.data != DELETED
    requires s < |c| && PathFull(c, hash(item.key), s)
    requires !Live(c[Probe(hash(item.key), s, |c|)])
    ensures var c' := c[Probe(hash(item.key), s, |c|) := Some(item)];
            WellPlaced(c', hash) && MapOf(c') == MapOf(c)[item.key := item.data]
  {
    var i := Probe(hash(item.key), s, |c|);
    MapOfStore(c, i, item);
    FillKeepsPlaced(c, hash, i, item);
  }

  /** Replacing the data of a live key in place. */
  lemma ReplaceKeeps<K(!new)>(c: Contents<K>, hash: K -> nat, i: nat, data: nat)
    requires WellPlaced(c, hash) && i < |c| && Live(c[i]) && data != DELETED
    ensures var c' := c[i := Some(c[i].value.(data := data))];
            WellPlaced(c', hash) && MapOf(c') == MapOf(c)[c[i].value.key := data]
  {
    MapOfStore(c, i, c[i].value.(data := data));
    FillKeepsPlaced(c, hash, i, c[i].value.(data := data));
  }

  /** Deleting marks the bucket instead of emptying it, so other keys stay reachable. */
  lemma DeleteKeeps<K(!new)>(c: Contents<K>, hash: K -> nat, i: nat)
    requires WellPlaced(c, hash) && i < |c| && Live(c[i])
    ensures var c' := c[i := Some(c[i].value.(data := DELETED))];
            WellPlaced(c', hash) && MapOf(c') == MapOf(c) - {c[i].value.key}
  {
    MapOfMark(c, i);
    FillKeepsPlaced(c, hash, i, c[i].value.(data := DELETED));
  }

  /** The first s buckets on the path of hash value h are live. */
  ghost predicate AllLive<K>(c: Contents<K>, h: nat, s: nat)
    requires |c| > 0
  {
    forall j | 0 <= j < s :: Live(c[Probe(h, j, |c|)])
  }

  /** The first bucket on the path that is not live: the one that an absent key is put into. */
  ghost predicate FirstFree<K>(c: Contents<K>, h: nat, i: nat) {
    i < |c| && !Live(c[i]) && exists s :: 0 <= s < |c| && Probe(h, s, |c|) == i && AllLive(c, h, s)
  }

  /** That bucket is a deleted one. */
  ghost predicate DeletedFirst<K>(c: Contents<K>, h: nat) {
    exists i: nat :: FirstFree(c, h, i) && c[i].Some?
  }

  lemma OneFirstFree<K>(c: Contents<K>, h: nat, i: nat, k: nat)
    requires FirstFree(c, h, i) && FirstFree(c, h, k)
    ensures i == k && (DeletedFirst(c, h) <==> c[i].Some?)
  {
    FirstFreeUnique(c, h, i, k);
    if DeletedFirst(c, h) {
      var x: nat :| FirstFree(c, h, x) && c[x].Some?;
      FirstFreeUnique(c, h, i, x);
    }
  }

  lemma FirstFreeUnique<K>(c: Contents<K>, h: nat, i: nat, k: nat)
    requires FirstFree(c, h, i) && FirstFree(c, h, k)
    ensures i == k
  {
    var s :| 0 <= s < |c| && Probe(h, s, |c|) == i && AllLive(c, h, s);
    var t :| 0 <= t < |c| && Probe(h, t, |c|) == k && AllLive(c, h, t);
  }

  /** No live bucket strictly between the two. */
  ghost predicate NoneLive<K>(c: Contents<K>, lo: int, hi: int) {
    forall x | lo < x < hi && 0 <= x < |c| :: !Live(c[x])
  }

  lemma JoinIdle<K>(c: Contents<K>, lo: int, mid: nat, hi: int)
    requires mid < |c| && !Live(c[mid]) && NoneLive(c, lo, mid) && NoneLive(c, mid, hi)
    ensures NoneLive(c, lo, hi)
  {
  }

  /** Buckets that are not live do not show in the map. */
  lemma {:induction false} SkipIdle<K>(c: Contents<K>, lo: nat, hi: nat)
    requires Distinct(c) && lo <= hi <= |c| && NoneLive(c, lo - 1, hi)
    ensures MapOf(c[..lo]) == MapOf(c[..hi]) && Lives(c[..lo]) == Lives(c[..hi])
    decreases hi
  {
    if lo < hi {
      SkipIdle(c, lo, hi - 1);
      MapOfPrefix(c, hi - 1);
      assert c[..hi][..hi - 1] == c[..hi - 1];
    }
  }

  lemma LivesOfNext<K>(c: Contents<K>, n: nat)
    requires n < |c|
    ensures Lives(c[..n + 1]) == Lives(c[..n]) + (if Live(c[n]) then 1 else 0)
    ensures Lives(c[..n + 1]) <= Lives(c)
  {
    assert c[..n + 1][..n] == c[..n];
    LivesOfPrefix(c, n + 1);
  }

  lemma KeyOfLiveIsMapped<K>(c: Contents<K>, i: nat, key: K)
    requires Distinct(c) && i < |c| && key !in MapOf(c)
    ensures Live(c[i]) ==> c[i].value.key != key
  {
    if Live(c[i]) { assert Records(MapOf(c), c[i].value); }
  }

  lemma FirstFreeHere<K>(c: Contents<K>, h: nat, s: nat)
    requires s < |c| && AllLive(c, h, s) && !Live(c[Probe(h, s, |c|)])
    ensures FirstFree(c, h, Probe(h, s, |c|))
  {
  }

  lemma OneMoreLive<K>(c: Contents<K>, h: nat, s: nat)
    requires s < |c| && AllLive(c, h, s) && Live(c[Probe(h, s, |c|)])
    ensures AllLive(c, h, s + 1)
  {
  }

  lemma LiveIsFull<K>(c: Contents<K>, h: nat, s: nat)
    requires |c| > 0 && AllLive(c, h, s)
    ensures PathFull(c, h, s)
  {
  }

  /** Passing over one more filled bucket; a path with an empty bucket is not over yet. */
  lemma PassOne<K>(c: Contents<K>, h: nat, key: K, s: nat)
    requires IsPow2(|c|) && Lives(c) + Deads(c) < |c|
    requires s < |c| && PassedOver(c, h, key, s)
    requires var b := c[Probe(h, s, |c|)]; b.Some? && (Live(b) ==> b.value.key != key)
    ensures s + 1 < |c| && PassedOver(c, h, key, s + 1)
  {
    assert PathFull(c, h, s + 1);
    PathMeetsEmpty(c, h);
  }

  // ----- copying the live buckets to a new array -----

  /** The new array holds the live buckets among the first n of c, except those with a key in skip. */
  ghost predicate Copied<K(!new)>(c: Contents<K>, n: nat, copy: Contents<K>, hash: K -> nat, skip: set<K>) {
    && n <= |c|
    && Distinct(c[..n])
    && WellPlaced(copy, hash)
    && Deads(copy) == 0
    && MapOf(copy) == MapOf(c[..n]) - skip
  }

  lemma MapSizeWithout<K>(m: map<K, nat>, skip: set<K>)
    ensures |m - skip| <= |m|
    ensures forall k | k in skip && k in m :: |m - skip| < |m|
  {
    assert (m - skip).Keys == m.Keys - skip;
    SubsetSize(m.Keys - skip, m.Keys);
    forall k | k in skip && k in m
      ensures |m - skip| < |m|
    {
      SubsetSize(m.Keys - skip, m.Keys - {k});
    }
  }

  /** There is room for one more, and its key is new. */
  lemma RoomToCopy<K(!new)>(c: Contents<K>, n: nat, copy: Contents<K>, hash: K -> nat, skip: set<K>)
    requires Distinct(c) && n < |c| && Live(c[n]) && Copied(c, n, copy, hash, skip)
    ensures Lives(copy) < Lives(c) && c[n].value.key !in MapOf(copy)
  {
    MapSizeWithout(MapOf(c[..n]), skip);
    MapSize(c[..n]);
    MapSize(copy);
    LivesOfNext(c, n);
    MapOfPrefix(c, n);
  }

  lemma MinusUpdate<K>(m: map<K, nat>, skip: set<K>, key: K, data: nat)
    requires key !in m
    ensures m[key := data] - skip == if key in skip then m - skip else (m - skip)[key := data]
  {
  }

  lemma CopiedOne<K(!new)>(c: Contents<K>, n: nat, next: nat, copy: Contents<K>, copy': Contents<K>,
                           hash: K -> nat, skip: set<K>)
    requires Distinct(c) && n < |c| && Live(c[n]) && Copied(c, n, copy, hash, skip)
    requires next == n + 1 && WellPlaced(copy', hash) && Deads(copy') == 0
    requires var item := c[n].value;
             if item.key in skip then copy' == copy else MapOf(copy') == MapOf(copy)[item.key := item.data]
    ensures Copied(c, next, copy', hash, skip)
  {
    MapOfPrefix(c, n);
    MinusUpdate(MapOf(c[..n]), skip, c[n].value.key, c[n].value.data);
  }

  lemma DistinctPrefix<K>(c: Contents<K>, n: nat)
    requires Distinct(c) && n <= |c|
    ensures Distinct(c[..n])
  {
  }

  /** Copying goes on at the next live bucket. */
  lemma CopiedIdle<K(!new)>(c: Contents<K>, n: nat, next: nat, copy: Contents<K>, hash: K -> nat, skip: set<K>)
    requires Distinct(c) && n <= next <= |c| && NoneLive(c, n - 1, next)
    requires Copied(c, n, copy, hash, skip)
    ensures Copied(c, next, copy, hash, skip)
  {
    DistinctPrefix(c, next);
    SkipIdle(c, n, next);
  }

  lemma CopiedAll<K(!new)>(c: Contents<K>, copy: Contents<K>, hash: K -> nat)
    requires Distinct(c) && Copied(c, |c|, copy, hash, {})
    ensures MapOf(copy) == MapOf(c)
  {
    assert c[..|c|] == c;
    assert MapOf(c) - {} == MapOf(c);
  }

  lemma CopiedNothing<K(!new)>(c: Contents<K>, next: nat, copy: Contents<K>, hash: K -> nat, skip: set<K>)
    requires Distinct(c) && next <= |c| && NoneLive(c, -1, next)
    requires IsPow2(|copy|) && forall i | 0 <= i < |copy| :: copy[i].None?
    ensures Copied(c, next, copy, hash, skip)
  {
    CountsOfEmpty(copy);
    SkipIdle(c, 0, next);
    MapIs(copy, map[]);
    MapIs(c[..0], map[]);
  }

  lemma MinusOne<K>(m: map<K, nat>, key: K)
    requires key in m
    ensures |m - {key}| < |m| && (m - {key})[key := m[key]] == m
  {
    MapSizeWithout(m, {key});
  }

  /** With everything else copied, the one item left out still fits. */
  lemma RoomForLast<K(!new)>(c: Contents<K>, copy: Contents<K>, hash: K -> nat, key: K)
    requires Distinct(c) && key in MapOf(c) && Copied(c, |c|, copy, hash, {key})
    ensures Lives(copy) < Lives(c) && key !in MapOf(copy)
    ensures MapOf(copy)[key := MapOf(c)[key]] == MapOf(c)
  {
    assert c[..|c|] == c;
    MinusOne(MapOf(c), key);
    MapSize(c);
    MapSize(copy);
  }

  // ----- the live items in bucket order -----

  ghost function LiveItems<K>(c: Contents<K>): (items: seq<HTItem<K>>)
    ensures |items| == Lives(c)
    decreases |c|
  {
    if c == [] then []
    else
      var rest := LiveItems(c[..|c| - 1]);
      if Live(c[|c| - 1]) then rest + [c[|c| - 1].value] else rest
  }

  lemma {:induction false} LiveItemsIdle<K>(c: Contents<K>, lo: nat, hi: nat)
    requires lo <= hi <= |c| && NoneLive(c, lo - 1, hi)
    ensures LiveItems(c[..lo]) == LiveItems(c[..hi])
    decreases hi
  {
    if lo < hi {
      LiveItemsIdle(c, lo, hi - 1);
      assert c[..hi][..hi - 1] == c[..hi - 1];
    }
  }

  lemma LiveItemsStep<K>(c: Contents<K>, n: nat)
    requires n < |c| && Live(c[n])
    ensures LiveItems(c[..n + 1]) == LiveItems(c[..n]) + [c[n].value]
  {
    assert c[..n + 1][..n] == c[..n];
  }

  /** The items are those of the map. */
  lemma {:induction false} LiveItemsAreMap<K>(c: Contents<K>)
    requires Distinct(c)
    ensures forall it | it in LiveItems(c) :: Records(MapOf(c), it)
    ensures forall k | k in MapOf(c) :: HTItem(MapOf(c)[k], k) in LiveItems(c)
    decreases |c|
  {
    if c != [] {
      var n := |c| - 1;
      MapOfPrefix(c, n);
      LiveItemsAreMap(c[..n]);
      assert c[..n + 1] == c;
    }
  }

  ghost predicate KeysDiffer<K>(items: seq<HTItem<K>>) {
    forall i, j | 0 <= i < j < |items| :: items[i].key != items[j].key
  }

  /** Each key occurs once among the items. */
  lemma {:induction false} LiveItemsDiffer<K>(c: Contents<K>)
    requires Distinct(c)
    ensures KeysDiffer(LiveItems(c))
    decreases |c|
  {
    if c != [] {
      var n := |c| - 1;
      MapOfPrefix(c, n);
      LiveItemsDiffer(c[..n]);
      LiveItemsAreMap(c[..n]);
      var rest := LiveItems(c[..n]);
      forall i | 0 <= i < |rest|
        ensures Live(c[n]) ==> rest[i].key != c[n].value.key
      {
        assert rest[i] in rest && Records(MapOf(c[..n]), rest[i]);
      }
    }
  }

  // ----- inserting without overwriting -----

  /**
   HashFindOrInsert passes fOverwrite 0 to the bucket array too. An absent key is then stored
   exactly when the bucket found for it has never been filled; a deleted bucket keeps its marker.
   */
  lemma FindOrInsertStores<K(!new)>(c: Contents<K>, hash: K -> nat, item: HTItem<K>, iEmpty: nat)
    requires WellPlaced(c, hash) && item.key !in MapOf(c) && item.data != DELETED
    requires FirstFree(c, hash(item.key), iEmpty)
    ensures var c' := Inserted(c, iEmpty, item, false);
            Distinct(c') && (MapOf(c') == MapOf(c)[item.key := item.data] <==> c[iEmpty].None?)
  {
    MapOfStore(c, iEmpty, item);
    if c[iEmpty].Some? { assert item.key !in MapOf(c); }
  }

  /** Somewhere on a path that reaches a bucket that is not live lies the first such bucket. */
  lemma {:induction false} FirstFreeUpTo<K>(c: Contents<K>, h: nat, s: nat) returns (t: nat)
    requires s < |c| && !Live(c[Probe(h, s, |c|)])
    ensures t <= s && AllLive(c, h, t) && !Live(c[Probe(h, t, |c|)])
  {
    if AllLive(c, h, s) {
      t := s;
    } else {
      var j :| 0 <= j < s && !Live(c[Probe(h, j, |c|)]);
      t := FirstFreeUpTo(c, h, j);
    }
  }

  /** Once a key has been marked deleted, the first bucket to put it back into is a deleted one. */
  lemma DeletedKeyComesFirst<K(!new)>(c: Contents<K>, hash: K -> nat, i: nat)
    requires WellPlaced(c, hash) && i < |c| && Live(c[i])
    ensures DeletedFirst(c[i := Some(c[i].value.(data := DELETED))], hash(c[i].value.key))
  {
    var c', h := c[i := Some(c[i].value.(data := DELETED))], hash(c[i].value.key);
    assert Reached(c, h, i);
    var s :| 0 <= s < |c| && Probe(h, s, |c|) == i && PathFull(c, h, s);
    var t := FirstFreeUpTo(c', h, s);
    FirstFreeHere(c', h, t);
    assert c'[Probe(h, t, |c|)].Some?;
  }

  lemma NoneDeletedFirst<K>(c: Contents<K>, h: nat)
    requires Deads(c) == 0
    ensures !DeletedFirst(c, h)
  {
    if DeletedFirst(c, h) {
      var i: nat :| FirstFree(c, h, i) && c[i].Some?;
      NoneDead(c, i);
    }
  }
}
