# A verified model of the tuple-space daemon and its libraries

Dafny models of five parts of the system, with proofs of what each is for.

* **The hash table** (`Bits`, `Bitmap`, `Buckets`, `SparseTable`, `DenseTable`, `Probing`, `Sizing`,
  `Lookup`, `HashTables`). Three layers, each proved to hide the one below: groups of 64 buckets kept as a
  bitmap and a packed array refine a plain bucket array; triangular probing over a power-of-two size with
  deleted markers makes that array a finite map; growing and shrinking keep the map. The main theorem,
  `HashTables.Run`, says that every run answers like a finite map
  that remembers the last key found, but for items that find-or-insert loses and reports, within a stated
  number of buckets.
* **The shared-memory channel** (`SharedMemory`, `Channel`). One producer and one consumer, interleaved one
  semaphore operation or copy at a time: under every schedule the items arrive whole and in order, exactly
  one of the two semaphores and the two critical sections is taken, and no run gets stuck or goes on for ever.
* **The tuple space** (`Glob`, `TupleCompare`, `TupleSpaces`). The put, read, fetch and terminate handlers on the
  queue of tuples and the queue of waiting requests: after any run nothing that is stored satisfies anything that
  waits, and no tuple is lost or handed to two takers. The pattern matcher is compared with the glob language.
* **Activation around the ring** (`Activation`). Any number of clients, masters, workers and running tokens,
  interleaved: exactly when tokens stop within one round, when the flood reaches every node, and when every
  client told to wait is answered.
* **The log buffer** (`LogBuffers`, `Numerals`). Six writers with hand-written overflow code, all proved equal to
  one append, and any sequence of them equal to one capped and marked text.

Code that works in place is modelled by classes and loops, each proved against a function on values, and the
theorems are about those functions.

## Where the code does not do what is promised

Each of these is kept as the code has it, with a lemma that gives the exact condition.

* `SparseAllocate` computes the bucket count in a 32-bit `int`: right iff at most 0x7FFFFFC0 buckets are asked
  for (`SparseTable.ReportedBucketsExact`), so a table can grow while it holds at most 2^29 - 1 items
  (`HashTables.RehashFits`).
* `HashFindOrInsert` does not write into a deleted bucket it is given, although it counts the item: an absent
  key is stored iff the first free bucket on its path was never filled (`HashTables.FindOrInsertNew`,
  `Lookup.FindOrInsertStores`). So a key deleted and put back this way is lost iff the delete did not shrink
  the table (`HashTables.DeleteThenFindOrInsert`, `HashTables.PutDeletePutBack`).
* `AllocateHashTable` does not set `posLastFind`, and `HTsmalloc` does not clear memory
  (contrib/libchash/libchash.c:234-247): on a new table `HashFindLast` and `HashDeleteLast` follow whatever
  pointer is there, which is right iff it is NULL (`HashTables.HashTable.constructor`) or after any find,
  insert, delete or clear.
* The dense array takes an item whose data is EMPTY for an empty bucket (`DenseTable.Table.Insert`).
* `_match` skips equal characters before it looks at wildcards, so it is right for all patterns iff the name
  contains no `*` (`Glob.MatchExact`).
* A put that is taken drops one further matching request (`TupleSpaces.RequestsKeptOrAnswered`).
* A node whose space is active from its configuration stops the activation token. A node is reached by every
  flood, and a waiting client answered, iff on the way from every other inactive master it comes before all
  such nodes (`Activation.ReachedInEveryRun`, `Activation.FloodIsComplete`, `Activation.EveryoneAnswered`).
* When a termination has made the space inactive at the node that sent it, an activation token goes round
  again: it is delivered more than n times iff it comes home to an inactive space
  (`Activation.OneRoundExactly`). One connect and one TsTerm can set the two tokens chasing each other without
  end (`Activation.EndlessChase`).
* A TsTerm is to deactivate the space all round the ring. Its token stops at a node that does not have the
  space or has it inactive, so it does iff every active holder comes before every such node
  (`Activation.TerminationReachesAll`).
* A worker configured active gives out its configured endpoint whether or not a master there has activated the
  space. Every endpoint given to a connecting client is that of a master with the space active iff those of the
  workers active from the start are (`Activation.RepliesGenuine`, `Activation.DirectWorkerMisleads`).
* TsTerm's last loop empties the wrong queue: it ends iff no broadcast tuple is stored
  (`TupleSpaces.ClearLoopEnds`).

Comments that the code does not follow: the increment is the sum of 1..i, not `i*(i-1)/2` (the same
sequence counted from 0 and from 1); a table shrinks below a fifth, not a quarter, of its buckets; `NextPow2`
of a word without room is 2^63, not 2^31, on a 64-bit build.

## Model

| member | source | states |
|---|---|---|
| `HashTables.Run` | contrib/libchash/libchash.c:1080-1201 | Any run of inserts, find-or-inserts, finds, deletes, finds and deletes of the last item found, and clears, each allowed when it is made, gives call by call the answers of a finite map that remembers the last key found, except that a find-or-insert may lose its new key and then returns a deleted bucket; the run ends with that map; `cItems` is its size plus the losses; `2 * (cItems + cDeletedItems) < cBuckets <= max(512, 5 * cItems)` |
| `HashTables.OnlyFindOrInsertLoses` | contrib/libchash/libchash.c:1137-1201 | A run without find-or-inserts loses nothing, so it is exactly that of a finite map |
| `HashTables.Perform` | contrib/libchash/libchash.c:1080-1338 | Each call answers as the map does; it loses an item iff it is a find-or-insert of a new key whose first free bucket is a deleted one |
| `HashTables.SumOfUnsigned` | contrib/libchash/libchash.c:1160 | Losses can take `cDeletedItems` below zero, and the unsigned sum in the occupancy test is right all the same |
| `HashTables.HashTable.constructor` | contrib/libchash/libchash.c:1224-1241 | A new table has 512 buckets, is the empty map and satisfies the invariant; `posLastFind` keeps what `malloc` left there, and is a good pointer iff that is NULL |
| `HashTables.HashTable.Clear` | contrib/libchash/libchash.c:1243-1263 | The table is the empty map again, with 512 buckets and no last find |
| `HashTables.HashTable.FindLast` | contrib/libchash/libchash.c:1290-1293 | The item of the last search, with its latest data, unless that failed or the table was changed since |
| `HashTables.HashTable.Search` | contrib/libchash/libchash.c:1080-1115 | The `while (1)` probe loop ends; it returns the bucket of the key iff the key is in the map, with its latest data; otherwise `*piEmpty` is the first bucket on the path that is not live |
| `HashTables.HashTable.Find` | contrib/libchash/libchash.c:1080-1115 | The search leaves the map alone and remembers its result in `posLastFind` |
| `HashTables.HashTable.Insert` | contrib/libchash/libchash.c:1137-1168 | After an insert the map has the new pair (or keeps the old one when not overwriting), the invariant holds again, and the pointer returned leads to the item even if the table was rehashed; without overwriting, a new key whose first free bucket is a deleted one is lost: only the counters change, and the pointer leads to that bucket. A key already there changes no counter; a new one makes the table rehash as `AddNew` says |
| `HashTables.HashTable.AddNew` | contrib/libchash/libchash.c:1152-1168 | With d deleted buckets after the put, the table keeps its array and its d deleted buckets iff `2 * (cItems + 1 + d) < cBuckets` before, and is otherwise rehashed to more than `2 * cItems` and at most `4 * cItems` buckets (or 64), none deleted; the key is stored unless its bucket is a deleted one left as it is |
| `HashTables.FindOrInsertNew` | contrib/libchash/libchash.c:1307-1311 | `HashFindOrInsert` of a new key counts it, and stores it iff the first free bucket on its path is not a deleted one |
| `HashTables.DeleteThenFindOrInsert` | contrib/libchash/libchash.c:1137-1201 | After `HashDelete` of a key, `HashFindOrInsert` of the same key stores it iff the delete shrank the table: `5 * cItems < cBuckets` after it and `cBuckets >= 1024` |
| `HashTables.PutDeletePutBack` | contrib/libchash/libchash.c:1224-1338 | On a new table, for every hash function and key: insert, delete, find-or-insert leaves a count of one and an empty map |
| `HashTables.HashTable.Delete` | contrib/libchash/libchash.c:1181-1201 | Returns 1 iff the key was there; the map loses exactly that key; the table shrinks iff then `5 * cItems < cBuckets` and `cBuckets >= 1024`, to at most `4 * cItems` buckets (or 64), and otherwise has one more deleted bucket |
| `HashTables.HashTable.DeleteFound` | contrib/libchash/libchash.c:1181-1200 | Marks the bucket of the last find, which removes its key and only its key, and shrinks the table exactly if it is too sparse |
| `HashTables.HashTable.DeleteLast` | contrib/libchash/libchash.c:1333-1338 | Deletes the item of the last successful find, if there was one, and shrinks like `Delete`, unless `posLastFind` is still what `malloc` left there |
| `HashTables.HashTable.Rehash` | contrib/libchash/libchash.c:1032-1069 | A rehash to any power of two that holds the items keeps the map, leaves no deleted buckets, and returns the new place of the watched item, which it inserts last |
| `HashTables.Rebuild` | contrib/libchash/libchash.c:1041-1069 | The new array has exactly the live items of the old one, well placed, no deleted bucket, and the watched pointer leads to the same item |
| `HashTables.PlaceWatched` | contrib/libchash/libchash.c:1047-1063 | The watched item goes in last, which completes the map and gives its place |
| `HashTables.CopyLive` | contrib/libchash/libchash.c:1046-1063 | The copying loop moves every live bucket except the watched one, skipping deleted ones |
| `HashTables.ProbeEmpty` | contrib/libchash/libchash.c:1055-1059 | The inner probe loop stops within `cBuckets` steps at an empty bucket, having passed only filled ones |
| `HashTables.Place` | contrib/libchash/libchash.c:1055-1061 | Placing an item adds its pair to the new map and keeps the probe-path invariant |
| `HashTables.SizeFor` | contrib/libchash/libchash.c:1160-1166 | The size asked for, in whole groups, is above `2 * cItems` and at most `4 * cItems`, or 64 |
| `HashTables.ShrinkTest` | contrib/libchash/libchash.c:1192-1197 | A table that a delete does not shrink is still within the space bound, and one that it shrinks has items left, so `NextPow2(0)` is never reached |
| `HashTables.RehashFits` | contrib/libchash/libchash.c:1160-1166 | The size a full table asks for can be reported by `SparseAllocate` iff the table holds at most 2^29 - 1 items |
| `HashTables.HashTable.FirstBucket` | contrib/libchash/libchash.c:1349-1358 | The first live bucket, with no live bucket before it, or NULL if there is none |
| `HashTables.HashTable.NextBucket` | contrib/libchash/libchash.c:1360-1368 | The next live bucket with no live one skipped; deleted buckets and empty groups are passed; NULL after the last |
| `HashTables.HashTable.AllItems` | contrib/libchash/libchash.c:1349-1368 | Iterating to NULL yields each live item once, in bucket order, `cItems` of them less the losses, and exactly the pairs of the map |
| `Lookup.EmptyProvesAbsent` | contrib/libchash/libchash.c:1094-1099 | The first never-filled bucket on the path of a key proves the key absent |
| `Lookup.PathMeetsEmpty` | contrib/libchash/libchash.c:1092-1114 | While one bucket is left unfilled every probe path meets an unfilled bucket within `cBuckets` probes |
| `Lookup.InsertKeeps` | contrib/libchash/libchash.c:1152-1157 | Filling the first reusable bucket on the path keeps every live key reachable and adds exactly one pair |
| `Lookup.ReplaceKeeps` | contrib/libchash/libchash.c:1146-1150 | Replacing the data of a live key in place changes that pair only and keeps all paths |
| `Lookup.DeleteKeeps` | contrib/libchash/libchash.c:1186-1188 | Marking a bucket deleted, rather than emptying it, keeps every other key reachable and removes exactly one |
| `Lookup.MapOfStore` | contrib/libchash/libchash.c:1152-1157 | No key becomes live twice, and the map gains or changes exactly the stored pair |
| `Lookup.MapOfMark` | contrib/libchash/libchash.h:164-167 | Marking a bucket with DELETED removes exactly its key from the map |
| `Lookup.MapSize` | contrib/libchash/libchash.c:1158 | The map has as many pairs as there are live buckets |
| `Lookup.LiveItemsAreMap` | contrib/libchash/libchash.c:1349-1368 | The live items in bucket order are exactly the pairs of the map |
| `Lookup.LiveItemsDiffer` | contrib/libchash/libchash.c:1349-1368 | No two live items have the same key |
| `Lookup.FindOrInsertStores` | contrib/libchash/libchash.c:1154-1157 | Without overwriting, an absent key is stored iff the bucket found for it was never filled |
| `Lookup.DeletedKeyComesFirst` | contrib/libchash/libchash.c:1186-1188 | Once a key has been marked deleted, in any table, the first free bucket on its path is a deleted one |
| `Lookup.OneFirstFree` | contrib/libchash/libchash.c:1102-1106 | There is only one first free bucket on a path |
| `Probing.ProbesDistinct` | contrib/libchash/libchash.c:862-866 | For every power-of-two size and every hash value, the first `cBuckets` probes go to distinct buckets |
| `Probing.ProbesCover` | contrib/libchash/libchash.c:862-866 | They cover every bucket, so insertion always finds room if there is any |
| `Probing.JumpIsNextProbe` | contrib/libchash/libchash.c:1112-1113 | Adding `++offset` and masking leads from probe i to probe i + 1 |
| `Probing.TriFormula` | contrib/libchash/libchash.h:142 | Probe i lies i(i + 1)/2 buckets on |
| `Probing.Reduce` | contrib/libchash/libchash.c:1019 | Masking the hash value with `cBuckets - 1` gives probe 0, its remainder modulo `cBuckets` |
| `Probing.Jump` | contrib/libchash/libchash.h:142 | JUMP with the mask, as the loops use it, steps along the probe sequence of the hash value |
| `Bits.MaskIsMod` | contrib/libchash/libchash.c:1019 | `x & (2^k - 1)` is `x mod 2^k` |
| `Sizing.NextPow2` | contrib/libchash/libchash.c:1128-1135 | The result is a power of two above x and at most 2x for 0 < x < 2^63, 0 for 0, and 2^63 from there on |
| `Sizing.NextPow2Bounded` | contrib/libchash/libchash.c:1128 | It is the least: no power of two above x is smaller |
| `Sizing.ClearLowest` | contrib/libchash/libchash.c:1132-1133 | `x & (x - 1)` is smaller and keeps the top bit, and is 0 only for a power of two |
| `Bitmap.EntriesUpto` | contrib/libchash/libchash.c:379-525 | The byte-table count over any number of words equals the number of set bits at positions 0..i-1 |
| `Bitmap.RgcCounts` | contrib/libchash/libchash.c:382-398 | Each entry of the byte table is the number of bits set in its index |
| `Bitmap.TestOfSet` | contrib/libchash/libchash.c:182-189 | Setting a bit sets that bit and no other |
| `Bitmap.RankOfSet` | contrib/libchash/libchash.c:592-621 | Setting a clear bit moves the offsets of the later positions up by one and leaves the earlier ones |
| `Bitmap.SetStaysWord` | contrib/libchash/libchash.c:182-189 | Setting a bit never leaves the range of a 64-bit word |
| `Bitmap.RankIsIncreasingBijection` | contrib/libchash/libchash.c:526-531 | The offset map is a strictly increasing bijection from the occupied positions to the packed slots, and has an inverse |
| `Bitmap.SelectNeighbours` | contrib/libchash/libchash.c:631-643 | Consecutive packed slots hold consecutive occupied positions |
| `SparseTable.BinInsert` | contrib/libchash/libchash.c:606-620 | realloc, memmove and set-bit change one bucket of the group and keep packed size, `cOccupied` and bit count equal |
| `SparseTable.BinWrite` | contrib/libchash/libchash.c:599-605 | Writing through a rank changes one bucket of the group |
| `SparseTable.InsertRefines` | contrib/libchash/libchash.c:592-621 | Inserting into an empty bucket of the grouped array is storing one bucket of the plain array |
| `SparseTable.WriteRefines` | contrib/libchash/libchash.c:599-605 | Writing through a bucket pointer is storing at its bucket number, and no bucket moves |
| `SparseTable.RefFromRank` | contrib/libchash/libchash.c:527-530 | A bucket is stored in its group at the rank of its position |
| `SparseTable.LocationInjective` | contrib/libchash/libchash.c:1053 | Two pointers lead to the same bucket iff they are equal, so comparing with `bckWatch` finds the watched item |
| `SparseTable.Table.IsEmpty` | contrib/libchash/libchash.c:570-574 | The bitmap test says whether the bucket was ever filled |
| `SparseTable.Table.Find` | contrib/libchash/libchash.c:576-581 | NULL iff the bucket was never filled, and otherwise a pointer to that bucket |
| `SparseTable.Table.Insert` | contrib/libchash/libchash.c:592-621 | The contents change as the one insert operation says (an occupied bucket only if overwriting), the report says whether the bucket was occupied, and the pointer leads to it |
| `SparseTable.SparseAllocate` | contrib/libchash/libchash.c:543-549 | An empty array of the requested size rounded up to whole groups; the size reported is right iff at most 0x7FFFFFC0 buckets are requested |
| `SparseTable.ReportedBucketsExact` | contrib/libchash/libchash.c:543-549 | The reported size, computed in a 32-bit `int`, is right iff at most 0x7FFFFFC0 buckets are requested |
| `SparseTable.AllocationOverflows` | contrib/libchash/libchash.c:548 | Requesting 2^31 buckets reports 2^64 - 2^31 |
| `SparseTable.RoundedPow2` | contrib/libchash/libchash.c:375-376 | Rounding a power of two up to whole groups gives a power of two |
| `SparseTable.Iterator.FirstBucket` | contrib/libchash/libchash.c:645-653 | The first filled bucket, none before it |
| `SparseTable.Iterator.NextBucket` | contrib/libchash/libchash.c:631-643 | The next filled bucket in increasing order, none skipped, and NULL past the last |
| `DenseTable.Table.Allocate` | contrib/libchash/libchash.c:731-744 | Every bucket of a new dense array is empty |
| `DenseTable.Table.IsEmpty` | contrib/libchash/libchash.c:753-756 | The EMPTY test says whether the bucket was filled |
| `DenseTable.Table.Find` | contrib/libchash/libchash.c:758-763 | The bucket itself iff it was filled |
| `DenseTable.Table.Insert` | contrib/libchash/libchash.c:765-782 | It inserts as the sparse array does iff nothing is written or the data is not EMPTY |
| `DenseTable.RunBoth` | contrib/libchash/libchash.c:570-782 | Any run of inserts on a sparse and a dense array reports the same and leaves equal contents |
| `SharedMemory.SendItem` | src/shared_memory/shared_memory.h:247-273 | The loop writes the chunks of the item, in order |
| `SharedMemory.RecvItem` | src/shared_memory/shared_memory.h:276-326 | Chunks copied at `i * size_per_chunk` come out as the bytes of all chunks, joined, with nothing after them |
| `SharedMemory.ChunkSizes` | src/shared_memory/shared_memory.h:253-265 | All chunks but the last hold 3999972 bytes, which makes their number the least that can hold the item; each has its index and the number of chunks |
| `SharedMemory.ChunksAreOneItem` | src/shared_memory/shared_memory.h:253-262 | All chunks of an item but the last are equally long, the last is no longer, and the count in each is right |
| `SharedMemory.BytesOfChunks` | src/shared_memory/shared_memory.h:259-265 | The first i chunks hold the first bytes of the item, and all of them the whole item |
| `SharedMemory.CutAndJoin` | src/shared_memory/shared_memory.h:247-326 | What the sender cuts the receiver joins, for every non-empty item, exact multiples of `maxlen` included |
| `Channel.ProducerKeeps` | src/shared_memory/shared_memory.h:178-204 | Every step of a write keeps the channel invariant |
| `Channel.ConsumerKeeps` | src/shared_memory/shared_memory.h:206-244 | Every step of a read keeps the channel invariant |
| `Channel.Reachable` | src/shared_memory/shared_memory.h:20-42 | The invariant holds after every schedule of the two processes |
| `Channel.Safety` | src/shared_memory/shared_memory.h:20-42 | In every reachable state r + w + (writer inside) + (reader inside) = 1, writes and reads alternate starting with a write, the segment is all zeros when it can be written and holds the next chunk when it can be read, and the items received are a prefix of the items sent, byte for byte |
| `Channel.NoDeadlock` | src/shared_memory/shared_memory.h:178-244 | Some process can step iff a chunk is still to be read; once none is, all items have arrived |
| `Channel.RunLength` | src/shared_memory/shared_memory.h:178-244 | A run is as long as the work it has done, at most 13 steps a chunk, so every run ends |
| `Channel.AbsorbEverything` | src/shared_memory/shared_memory.h:276-326 | A receiver that has taken all chunks has exactly the items sent, in order |
| `Channel.AbsorbedPrefix` | src/shared_memory/shared_memory.h:276-326 | A receiver that has taken the first chunks has the first items |
| `Glob.Match` | src/tuple_utils.h:13-34 | It terminates, and returns 0 for the names its branches accept and 1 otherwise |
| `Glob.MatchSound` | src/tuple_utils.h:13-34 | Every accepted name is in the glob language of the pattern |
| `Glob.MatchComplete` | src/tuple_utils.h:13-34 | Every name in the language is accepted if it contains no `*` |
| `Glob.MissedPattern` | src/tuple_utils.h:16-21 | For every name that contains `*` a pattern that covers it and refuses it, because equal characters are skipped before wildcards are looked at |
| `Glob.MatchExact` | src/tuple_utils.h:13-34 | The matcher decides the language of every pattern on a name iff the name contains no `*` |
| `TupleCompare.StrcmpZero` | src/tuple_utils.h:96 | `strcmp` is 0 iff the names are equal, and changes sign when they are swapped |
| `TupleCompare.ZeroIsSymmetric` | src/tuple_utils.h:67-97 | Whether two tuples match does not depend on their order |
| `TupleCompare.PatternTuple` | src/tuple_utils.h:90-96 | `!pattern` matches a plain name iff the name is in the language of the pattern; two plain names match iff equal |
| `TupleCompare.RegexTuple` | src/tuple_utils.h:84-88 | In both orders, `:pattern` matches a name other than `*` that is no regular expression, even a `!pattern`, iff the expression does |
| `TupleCompare.MatchAll` | src/tuple_utils.h:81-82 | In both orders, `*` matches every name |
| `TupleCompare.SameKind` | src/tuple_utils.h:84-96 | Two names of the same kind, both plain, both `:` or both `!`, match iff equal |
| `TupleCompare.AnonymousTuple` | src/tuple_utils.h:79-80 | If one of two tuples is anonymous they match iff their numbers are equal, and are ordered by them |
| `TupleCompare.NameOrder` | src/tuple_utils.h:96 | Names are ordered by the first character in which they differ, or by length |
| `TupleSpaces.TupleSpace.FindRequest` | src/tsd/tsd.c:456 | The earliest waiting request that the tuple satisfies |
| `TupleSpaces.TupleSpace.Put` | src/tsd/tsd.c:415-514 | The loop answers the matching requests in arrival order up to the first that takes the tuple, appends the tuple to the queue iff the last one answered is no Get or Pop, and detaches one more match after a taker |
| `TupleSpaces.TupleSpace.ReadOrGet` | src/tsd/tsd.c:757-890 | Refused iff remote on an inactive space, with no change; found iff some stored name matches, and then the earliest such tuple, removed iff a Get; otherwise the queue is unchanged and this request is appended to the waiting ones iff it blocks |
| `TupleSpaces.TupleSpace.PeekOrPop` | src/tsd/tsd.c:655-745 | A tuple is found iff one is stored; it is the oldest, a Pop leaves the others in order and a Peek leaves all; otherwise this request is appended to the waiting ones iff it blocks |
| `TupleSpaces.OnlyLastTakes` | src/tsd/tsd.c:488-489 | At most one answered request takes the tuple, and it is the last; if none does, all matching ones were answered |
| `TupleSpaces.LaterArrival` | src/tsd/tsd.c:454-511 | A later request is answered iff it matches and nobody before it took the tuple |
| `TupleSpaces.AnsweredInTurn` | src/tsd/tsd.c:454-511 | Wherever it waits, a matching request is answered right after those who waited longer, if none of them takes the tuple |
| `TupleSpaces.WithoutSplit` | src/tsd/tsd.c:456-486 | The requests that stay keep their order of arrival |
| `TupleSpaces.KeepsWaiting` | src/tsd/tsd.c:415-890 | While no matching tuple is put, a waiting request goes on waiting, whatever else happens but a termination |
| `TupleSpaces.BlockedReadIsAnswered` | src/tsd/tsd.c:839-863 | A blocking Read or Get that finds nothing waits until the first put of a tuple with a matching name, and is answered by it unless one who waited longer takes the tuple |
| `TupleSpaces.PutDivides` | src/tsd/tsd.c:452-511 | Waiting requests are those that stay, those answered, and the one detached unanswered, as multisets |
| `TupleSpaces.RequestsKeptOrAnswered` | src/tsd/tsd.c:457-463 | Every request still waits or has been answered iff no further match waited behind the taker |
| `TupleSpaces.SecondPopIsLost` | src/tsd/tsd.c:457-463 | After two blocking Pops on an empty space, one Put: the second Pop is neither answered nor kept |
| `TupleSpaces.PutKeepsSettled` | src/tsd/tsd.c:415-514 | A put leaves no stored tuple that satisfies a waiting request |
| `TupleSpaces.ReadKeepsSettled` | src/tsd/tsd.c:816-863 | A read or get leaves none either; this rests on the symmetry of matching |
| `TupleSpaces.FetchKeepsSettled` | src/tsd/tsd.c:686-716 | A peek or pop leaves none either |
| `TupleSpaces.OneTakerAtMost` | src/tsd/tsd.c:452-511 | A put hands the tuple to at most one client that takes it, and to exactly one iff it is not queued |
| `TupleSpaces.StepConserves` | src/tsd/tsd.c:415-890 | Every handler keeps: tuples put = tuples stored + copies handed to takers + tuples freed, as multisets |
| `TupleSpaces.EveryRun` | src/tsd/tsd.c:415-890 | After any run there is no missed match, and no tuple is lost or handed to two takers |
| `TupleSpaces.TupleSpace.Terminate` | src/tsd/tsd.c:1280-1306 | TsTerm tells every waiting client, in arrival order, and frees every stored tuple, up to its last loop |
| `TupleSpaces.ClearLoopEnds` | src/tsd/tsd.c:1307-1308 | The last loop, over the broadcast queue, ends iff no broadcast tuple is stored |
| `TupleSpaces.RunAll` | src/tsd/tsd.c:415-890 | The handlers themselves, on any sequence of events, reach that state and hand out those copies |
| `TupleSpaces.PopWaitsOnlyOnEmpty` | src/tsd/tsd.c:686-701 | A Pop or Peek waits only while no tuple is stored |
| `Activation.TsdElement.constructor` | src/tsd/tsd.c:229-230 | A direct or peer-to-peer space starts active, every other one inactive and not requested |
| `Activation.TsdElement.SendActivateSignal` | src/tsd/tsd.c:47-66 | The token is sent iff the space was not active yet |
| `Activation.TsdElement.Connect` | src/tsd/tsd.c:1052-1144 | The reply for every mode and request: a master accepts a master or client and becomes active, a worker gives its endpoint iff active and else makes the client wait, a peer accepts a peer, and all else is an error; the token is sent iff the space becomes active; the endpoint changes only at a master asked as master; the clients waiting grow by exactly the one told to wait |
| `Activation.TsdElement.Terminate` | src/tsd/tsd.c:73-88 | The space is inactive afterwards, and a termination token is sent iff it was active |
| `Activation.TsdElement.TermTokenNext` | src/tsd/tsd.c:1584-1616 | The space is inactive afterwards, and the token goes on iff it was active |
| `Activation.TsdElement.TokenNext` | src/tsd/tsd.c:1498-1582 | An active space stops the token; an inactive one becomes active with the endpoint of the token, answers all its waiting clients in order and relays it |
| `Activation.FloodStopsAtFirstActive` | src/tsd/tsd.c:1498-1582 | A token stops at the first active holder on its way, at most n deliveries from its sender; exactly the nodes it was delivered to change, and they become active with the endpoint of the sender |
| `Activation.FloodReachesAll` | src/tsd/tsd.c:1541-1575 | One flood reaches every holder iff each inactive one comes before each active one on the way of the token |
| `Activation.ConnectKeepsTokens` | src/tsd/tsd.c:1052-1144 | A connect keeps the token and node invariants |
| `Activation.DeliverKeepsTokens` | src/tsd/tsd.c:1498-1582 | A delivery keeps the token and node invariants |
| `Activation.ConnectKeepsTally` | src/tsd/tsd.c:1124-1133 | A client told to wait is one more waiting client |
| `Activation.DeliverKeepsTally` | src/tsd/tsd.c:1553-1569 | A waiting client that is answered no longer waits |
| `Activation.ConnectKeepsOnTheWay` | src/tsd/tsd.c:1080-1103 | A connect keeps a token on the way to an inactive node from every node that has become active |
| `Activation.DeliverKeepsOnTheWay` | src/tsd/tsd.c:1541-1575 | So does a delivery, with several tokens running, if the inactive node comes before every node active from the start |
| `Activation.EveryRun` | src/tsd/tsd.c:1052-1616 | In every reachable state, terminations included, an active worker has no pending client, and clients told to wait = clients waiting + clients answered |
| `Activation.StepKeepsTally` | src/tsd/tsd.c:1052-1616 | Every step keeps that sum |
| `Activation.OneRoundExactly` | src/tsd/tsd.c:1498-1616 | In every run, terminations included, no token is delivered more than n times iff none comes back to the node that sent it while the space is inactive there |
| `Activation.EndlessChase` | src/tsd/tsd.c:73-88 | On a ring of two, one connect, one termination and then only deliveries: for every k there is such a run with 3 + 2k deliveries of the activation token, both tokens still running |
| `Activation.TerminationStops` | src/tsd/tsd.c:1584-1616 | A termination token changes exactly the nodes it is delivered to, and stops at the first that does not have the space or has it inactive |
| `Activation.TerminationReachesAll` | src/tsd/tsd.c:68-88 | A TsTerm deactivates the space everywhere iff, on the way of its token, every other active holder comes before every node that does not have the space or has it inactive |
| `Activation.QuietlyActive` | src/tsd/tsd.c:1498-1582 | In every run without terminations nothing active becomes inactive and every token is delivered at most n times |
| `Activation.ReachedInEveryRun` | src/tsd/tsd.c:1498-1582 | An inactive node is active once the tokens have stopped, in every run without terminations in which one was sent, iff from every other inactive master it comes before every node active from the start |
| `Activation.LeftBehind` | src/tsd/tsd.c:1541-1542 | Otherwise a flood from that master, whether a client connects as master or not, stops before the node and leaves it as it is |
| `Activation.SendFirst` | src/tsd/tsd.c:1080-1103 | A client that connects to an inactive master in either way sends one token |
| `Activation.FloodIsComplete` | src/tsd/tsd.c:1498-1582 | All holders are active then, in every such run, iff every inactive node comes in time in that sense |
| `Activation.EveryoneAnswered` | src/tsd/tsd.c:1553-1569 | Every client told to wait has been answered then, in every such run, iff every inactive worker comes in time |
| `Activation.EndpointsGenuine` | src/tsd/tsd.c:1549-1550 | In every run without terminations, every active worker that was not active from the start knows the endpoint of a master with the space active |
| `Activation.WaitersAnsweredGenuinely` | src/tsd/tsd.c:1553-1567 | There, a client that was told to wait is answered with such an endpoint; only clients of inactive workers wait |
| `Activation.RepliesGenuine` | src/tsd/tsd.c:1113-1120 | In every such run every endpoint given to a connecting client is one of a master with the space active, iff every worker active from the start is configured with such an endpoint |
| `Activation.DirectWorkerMisleads` | src/tsd/tsd.c:229 | A worker configured active gives out the endpoint of a master that has not activated the space |
| `Activation.RunRing` | src/tsd/tsd.c:1052-1616 | The handlers themselves, on the elements of any ring and any run, reach exactly the states these results speak of |
| `Numerals.ReadBack` | contrib/zlog/src/buf.c:280-283 | A decimal or hexadecimal numeral reads back as its number |
| `Numerals.DigitChars` | contrib/zlog/src/buf.c:430-440 | The digits are 0 to 9 and a to f, as characters |
| `Numerals.NoLeadingZero` | contrib/zlog/src/buf.c:280-283 | It has no superfluous leading zero |
| `Numerals.LeadingZeros` | contrib/zlog/src/buf.c:326-327 | Zero padding does not change the number |
| `Numerals.NumeralLength` | contrib/zlog/src/buf.c:280-286 | A number below base^k has at most k digits |
| `Numerals.WordsFit` | contrib/zlog/src/zc_xplatform.h:13-19 | The temporary arrays are large enough for every 32-bit and 64-bit number |
| `Numerals.WriteDigits` | contrib/zlog/src/buf.c:280-283 | The digit loop, filling the array backwards, leaves exactly the numeral and never runs off its front |
| `LogBuffers.BufNew` | contrib/zlog/src/buf.c:87-138 | NULL iff the minimum is 0, a non-zero limit is below it, or the truncation string is too long; otherwise an empty buffer |
| `LogBuffers.LogBuffer.Truncate` | contrib/zlog/src/buf.c:141-152 | The length stays; the truncation string, or as much of its beginning as fits, is the end, and what was before it stays |
| `LogBuffers.LogBuffer.Resize` | contrib/zlog/src/buf.c:160-205 | Content kept; without a limit it grows by one and a half times the increment, with one by the increment if that fits, and otherwise to the limit, which returns 1 |
| `LogBuffers.LogBuffer.Append` | contrib/zlog/src/buf.c:505-545 | The one append: text added, or the capped text with the mark over its end, and 1 returned iff it did not fit |
| `LogBuffers.LogBuffer.Vprintf` | contrib/zlog/src/buf.c:207-264 | Equals appending the formatted text; -1 and nothing written if `vsnprintf` fails |
| `LogBuffers.LogBuffer.WriteCutPadded` | contrib/zlog/src/buf.c:300-316 | The zeros and digits that there is room for, marked as cut |
| `LogBuffers.LogBuffer.WriteCutLaid` | contrib/zlog/src/buf.c:591-616 | The blanks and text that there is room for, on either side, marked as cut |
| `LogBuffers.LogBuffer.AdjustAppend` | contrib/zlog/src/buf.c:548-635 | Equals appending the cut and padded text, on both sides, overflow included |
| `LogBuffers.LogBuffer.PrintPadded` | contrib/zlog/src/buf.c:285-330 | Zero padding and its overflow equal appending the padded numeral |
| `LogBuffers.LogBuffer.PrintDec32` | contrib/zlog/src/buf.c:268-331 | Equals appending the zero-padded decimal numeral |
| `LogBuffers.LogBuffer.PrintDec64` | contrib/zlog/src/buf.c:333-422 | Equals appending the zero-padded decimal numeral of a 64-bit number |
| `LogBuffers.LogBuffer.PrintHex` | contrib/zlog/src/buf.c:424-502 | Equals appending the zero-padded hexadecimal numeral |
| `LogBuffers.AdjustedShape` | contrib/zlog/src/buf.c:566-585 | The padded text has the width asked for, keeps the cut text whole on its side, and is blank elsewhere |
| `LogBuffers.PaddedReadsBack` | contrib/zlog/src/buf.c:285-294 | A zero-padded numeral is as wide as the larger of width and numeral, ends in the numeral with only the character 0 before it, and reads back as its number |
| `LogBuffers.CutLaid` | contrib/zlog/src/buf.c:593-612 | Cutting padded text by the two lengths is cutting its end off |
| `LogBuffers.OverlayTwice` | contrib/zlog/src/buf.c:141-152 | Laying the mark over a marked end changes nothing |
| `LogBuffers.RenderOneMore` | contrib/zlog/src/buf.c:505-545 | Appending to a capped text gives the capped longer text, also when it was cut before |
| `LogBuffers.AppendedShape` | contrib/zlog/src/buf.c:505-545 | An append keeps all of a text that fits in `size_max - 1`, and otherwise leaves `size_max - 1` characters that end in the beginning of the mark, with the beginning of the text before it |
| `LogBuffers.WholeRun` | contrib/zlog/src/buf.c:141-205 | Any sequence of appends gives the concatenation if it fits in `size_max - 1`, and otherwise `size_max - 1` characters: its beginning, ending in the beginning of the mark |
| `LogBuffers.WriteAll` | contrib/zlog/src/buf.c:207-635 | Any mix of the six writers on a new buffer leaves exactly that |

## Left out

- HashTables.HashTable.Insert: requires data other than DELETED, which the table keeps for itself, and room for a new key: at most 2^29 - 1 items, beyond which the 32-bit bucket count is wrong (`RehashFits` is exact).
- HashTables.Run: the calls are those of its `Call` type; iteration changes nothing and is proved call by call. A call that counts a new key must find fewer than 2^29 - 1 items counted, whichever find-or-inserts have lost theirs, and `HashFindLast` and `HashDeleteLast` must not come first on a new table; the number of calls is not bounded.
- HashTables.HashTable.DeleteLast: requires that `posLastFind` is good, which it is unless this is the first call on a new table and `malloc` left something other than NULL there.
- HashTables.HashTable.Rehash: with no watched bucket the source returns an arbitrary pointer that no caller uses; the model returns none.
- SparseTable.SparseAllocate: requires a size of at least 1 with fewer than 2^31 groups; beyond that the group count itself does not fit its `int` and nothing useful is allocated.
- SparseTable.Iterator.NextBucket: is not called again after it has returned NULL, where the source reads a group past the end.
- SharedMemory.SendItem: requires a non-empty item, as the assertion in `write_shared_memory` does.
- SharedMemory.RecvItem: takes the chunks of one item as a sender makes them; that these are what it gets is proved in `Channel`.
- LogBuffers.LogBuffer.PrintDec32: a negative width is not modelled, nor in the other two numeral printers; compared with a `size_t` it becomes a huge number and the pointer arithmetic after it is undefined. The callers pass small constants.
- LogBuffers.LogBuffer.Vprintf: takes the formatted text, or none if formatting fails; what `vsnprintf` makes of a format is not modelled.
- TupleSpaces.TupleSpace.Terminate: for a space without broadcast tuples, as the broadcast queue is left out; with one, the last loop does not end (`ClearLoopEnds`).
- Activation.FloodIsComplete: speaks of runs without TsTerm, and so do the other results about who is reached and which endpoints are given out; a termination deactivates spaces behind the flood. `EveryRun`, `OneRoundExactly`, `EndlessChase`, `TerminationReachesAll` and `RunRing` include terminations.
- Hash: the mixing of key bytes is an arbitrary function of the key; only the final mask is modelled. Keys are an arbitrary type with equality for KEY_CMP; key copying, freeing and truncation are left out.
- The occupancy and shrink tests are read as exact inequalities on integers, `2 * (cItems + cDeletedItems) >= cBuckets` and `5 * cItems < cBuckets`; rounding of `double` is not modelled.
- `HashSetDeltaGoalSize` (the goal stays 0, as `AllocateHashTable` sets it), `HashSave`, `HashLoad` and reading data back from disk; no claim on amortised cost, since deleted buckets near the threshold can force frequent rehashes.
- A packed array is a sequence that each insert replaces, as the source reallocates it; the array of groups is updated in place. Words are 64 bits and a group has 64 buckets, one bitmap word.
- A hash table without a bucket array (`table == NULL`), which `AllocateHashTable` never makes, and iteration over the dense array.
- The byte layout of the segment header (its fields are record fields), more than one producer or consumer, and failures of `malloc`, `mmap` and the semaphore calls.
- `tplregex` is an arbitrary relation of pattern and name. Strings contain no NUL character. Comparing tuples without a name or number, which reads a null pointer, is excluded.
- The check that refuses every action but TsConnect on an inactive space before a handler runs; the handlers are modelled for active and inactive spaces.
- `TsAdd` and anonymous tuples, the broadcast queue, peer-to-peer spaces, sockets, replies on the wire and memory management in the daemon.
- The upkeep of the ring: the successor of a node is the next one, the token's ttl is -1, and a sent token is delivered. Match, deposit and search tokens are left out.
- In the log buffer, failed allocations; `1.5 * increment` is the exact product rounded down; a `memset` and `memcpy` side by side are one write.
- The rest of zlog, the configuration parser, MPI and the examples.
