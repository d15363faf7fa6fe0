/**
 The channel as two processes: a producer that writes the chunks of its items, a consumer that
 reads chunks and assembles items, interleaved step by step. Each semaphore operation, each header
 field and each copy is a step of its own.
 */
module Channel {
  import opened SharedMemory

  // ----- the chunks of a list of items, and what a receiver makes of them -----

  ghost predicate Sendable(items: seq<seq<byte>>) {
    forall i | 0 <= i < |items| :: items[i] != []
  }

  ghost function AllChunks(items: seq<seq<byte>>): (cs: seq<Chunk>)
    requires Sendable(items)
    ensures forall i | 0 <= i < |cs| :: 0 < |cs[i].data| <= MAXLEN
  {
    if items == [] then [] else AllChunks(items[..|items| - 1]) + Chunks(items[|items| - 1])
  }

  // The items received so far, and the chunks of the one being received.
  datatype Inbox = Inbox(items: seq<seq<byte>>, part: seq<Chunk>)

  /** recv_item's bookkeeping: the first chunk of an item says how many chunks it has. */
  function Absorb(inbox: Inbox, c: Chunk): Inbox {
    var part := inbox.part + [c];
    if |part| >= part[0].total then Inbox(inbox.items + [Bytes(part)], []) else Inbox(inbox.items, part)
  }

  function AbsorbAll(cs: seq<Chunk>): Inbox {
    if cs == [] then Inbox([], []) else Absorb(AbsorbAll(cs[..|cs| - 1]), cs[|cs| - 1])
  }

  lemma AbsorbOneMore(cs: seq<Chunk>, c: Chunk)
    ensures AbsorbAll(cs + [c]) == Absorb(AbsorbAll(cs), c)
  {
    assert (cs + [c])[..|cs|] == cs;
  }

  /** The first chunks of an item wait in the inbox; the last one completes the item. */
  lemma {:induction false} AbsorbItem(prev: seq<Chunk>, item: seq<byte>, j: nat)
    requires item != [] && j <= ChunkCount(|item|) && AbsorbAll(prev).part == []
    ensures var out := AbsorbAll(prev).items;
            AbsorbAll(prev + Chunks(item)[..j])
            == if j == ChunkCount(|item|) then Inbox(out + [item], []) else Inbox(out, Chunks(item)[..j])
  {
    hide ChunkCount, ChunkAt, Bytes, AbsorbAll;
    var cs := Chunks(item);
    ChunkCountCovers(|item|);
    if j == 0 {
      assert prev + cs[..0] == prev;
    } else {
      var k: nat := j - 1;
      AbsorbItem(prev, item, k);
      assert prev + cs[..j] == (prev + cs[..k]) + [cs[k]];
      AbsorbOneMore(prev + cs[..k], cs[k]);
      assert cs[..k] + [cs[k]] == cs[..j];
      TotalOfChunk(item, 0);
      CutAndJoin(item);
      assert cs[..|cs|] == cs;
    }
  }

  lemma TotalOfChunk(item: seq<byte>, i: nat)
    requires item != [] && i < ChunkCount(|item|)
    ensures Chunks(item)[i].total == ChunkCount(|item|)
  {
  }

  lemma AbsorbLast(prev: seq<Chunk>, item: seq<byte>)
    requires item != [] && AbsorbAll(prev).part == []
    ensures AbsorbAll(prev + Chunks(item)) == Inbox(AbsorbAll(prev).items + [item], [])
  {
    hide ChunkCount, ChunkAt, AbsorbAll;
    var n := ChunkCount(|item|);
    AbsorbItem(prev, item, n);
    assert Chunks(item)[..n] == Chunks(item);
  }

  lemma NoChunks()
    ensures AllChunks([]) == [] && AbsorbAll([]) == Inbox([], [])
  {
  }

  lemma ChunksOfLast(items: seq<seq<byte>>)
    requires Sendable(items) && items != []
    ensures AllChunks(items) == AllChunks(items[..|items| - 1]) + Chunks(items[|items| - 1])
  {
  }

  /** A receiver of all the chunks has all the items. */
  lemma {:induction false} AbsorbEverything(items: seq<seq<byte>>)
    requires Sendable(items)
    ensures AbsorbAll(AllChunks(items)) == Inbox(items, [])
    decreases |items|
  {
    NoChunks();
    hide ChunkCount, ChunkAt, Chunks, AbsorbAll, Absorb, OneItem, Bytes, AllChunks;
    if items != [] {
      var before, last := items[..|items| - 1], items[|items| - 1];
      AbsorbEverything(before);
      AbsorbLast(AllChunks(before), last);
      ChunksOfLast(items);
      assert before + [last] == items;
    }
  }

  /** A receiver of the first chunks has the first items. */
  lemma {:induction false} AbsorbedPrefix(cs: seq<Chunk>, n: nat)
    requires n <= |cs|
    ensures AbsorbAll(cs[..n]).items <= AbsorbAll(cs).items
    decreases |cs|
  {
    if n < |cs| {
      AbsorbedPrefix(cs[..|cs| - 1], n);
      assert cs[..|cs| - 1][..n] == cs[..n];
    } else {
      assert cs[..n] == cs;
    }
  }

  // ----- the two processes -----

  datatype Segment = Segment(id: nat, len: nat, total: nat, area: seq<byte>)

  // write_shared_memory: wait, four memcpys, post.
  datatype Producer = PWait | PId | PLen | PTotal | PData | PPost
  // read_shared_memory: wait, three field reads, check and copy, clear, post.
  datatype Consumer = CWait | CId | CLen | CTotal | CData | CClear | CPost

  datatype State = State(
    r: nat, w: nat, seg: Segment,
    producer: Producer, sent: nat,
    consumer: Consumer, id: nat, len: nat, total: nat, data: seq<byte>, read: nat, inbox: Inbox)

  function Zeros(): (z: seq<byte>)
    ensures |z| == AREA
  {
    seq(AREA, _ => 0)
  }

  /** create_shared_memory: not readable, writable. */
  function Initial(): State {
    State(0, 1, Segment(0, 0, 0, Zeros()), PWait, 0, CWait, 0, 0, 0, [], 0, Inbox([], []))
  }

  predicate ProducerCan(s: State, cs: seq<Chunk>) {
    s.sent < |cs| && (s.producer.PWait? ==> s.w > 0) && (s.producer.PData? ==> |cs[s.sent].data| <= |s.seg.area|)
  }

  function ProducerStep(s: State, cs: seq<Chunk>): State
    requires ProducerCan(s, cs)
  {
    var c := cs[s.sent];
    match s.producer
    case PWait => s.(w := s.w - 1, producer := PId)
    case PId => s.(seg := s.seg.(id := c.id), producer := PLen)
    case PLen => s.(seg := s.seg.(len := |c.data|), producer := PTotal)
    case PTotal => s.(seg := s.seg.(total := c.total), producer := PData)
    case PData => s.(seg := s.seg.(area := c.data + s.seg.area[|c.data|..]), producer := PPost)
    case PPost => s.(r := s.r + 1, sent := s.sent + 1, producer := PWait)
  }

  /** A chunk length that fails the check makes read_shared_memory return without posting: no further step. */
  predicate ConsumerCan(s: State) {
    && (s.consumer.CWait? ==> s.r > 0)
    && (s.consumer.CData? ==> 0 < s.len <= MAX_BYTES && s.len <= |s.seg.area|)
  }

  function ConsumerStep(s: State): State
    requires ConsumerCan(s)
  {
    match s.consumer
    case CWait => s.(r := s.r - 1, consumer := CId)
    case CId => s.(id := s.seg.id, consumer := CLen)
    case CLen => s.(len := s.seg.len, consumer := CTotal)
    case CTotal => s.(total := s.seg.total, consumer := CData)
    case CData => s.(data := s.seg.area[..s.len], consumer := CClear)
    case CClear => s.(seg := Segment(0, 0, 0, Zeros()), consumer := CPost)
    case CPost =>
      s.(w := s.w + 1, read := s.read + 1, inbox := Absorb(s.inbox, Chunk(s.id, s.total, s.data)), consumer := CWait)
  }

  predicate Can(s: State, cs: seq<Chunk>, producerMoves: bool) {
    if producerMoves then ProducerCan(s, cs) else ConsumerCan(s)
  }

  function Step(s: State, cs: seq<Chunk>, producerMoves: bool): State
    requires Can(s, cs, producerMoves)
  {
    if producerMoves then ProducerStep(s, cs) else ConsumerStep(s)
  }

  // A run: which process moves at each step. Every schedule of enabled steps is one.
  ghost predicate IsRun(cs: seq<Chunk>, schedule: seq<bool>)
    decreases |schedule|, 0
  {
    if schedule == [] then true
    else
      var before := schedule[..|schedule| - 1];
      IsRun(cs, before) && Can(After(cs, before), cs, schedule[|schedule| - 1])
  }

  ghost function After(cs: seq<Chunk>, schedule: seq<bool>): State
    requires IsRun(cs, schedule)
    decreases |schedule|, 1
  {
    if schedule == [] then Initial()
    else Step(After(cs, schedule[..|schedule| - 1]), cs, schedule[|schedule| - 1])
  }

  // ----- the invariant -----

  function Cleared(): Segment {
    Segment(0, 0, 0, Zeros())
  }

  ghost predicate Holds(seg: Segment, c: Chunk) {
    && seg.id == c.id && seg.len == |c.data| && seg.total == c.total
    && seg.len <= |seg.area| && seg.area[..seg.len] == c.data
  }

  /** Mid-write: the fields written so far. */
  ghost predicate WrittenSoFar(s: State, c: Chunk) {
    match s.producer
    case PWait => false
    case PId => true
    case PLen => s.seg.id == c.id
    case PTotal => s.seg.id == c.id && s.seg.len == |c.data|
    case PData => s.seg.id == c.id && s.seg.len == |c.data| && s.seg.total == c.total
    case PPost => Holds(s.seg, c)
  }

  /** Mid-read: the fields read so far. */
  ghost predicate ReadSoFar(s: State, c: Chunk) {
    match s.consumer
    case CWait => false
    case CId => Holds(s.seg, c)
    case CLen => Holds(s.seg, c) && s.id == c.id
    case CTotal => Holds(s.seg, c) && s.id == c.id && s.len == |c.data|
    case CData => Holds(s.seg, c) && s.id == c.id && s.len == |c.data| && s.total == c.total
    case CClear => s.id == c.id && s.total == c.total && s.data == c.data
    case CPost => s.id == c.id && s.total == c.total && s.data == c.data && s.seg == Cleared()
  }

  // Whose turn it is: to write, writing, to read, reading.
  ghost predicate Turn(s: State, cs: seq<Chunk>)
    requires s.sent <= |cs|
  {
    if s.producer.PWait? && s.consumer.CWait? then
      || (s.w == 1 && s.r == 0 && s.sent == s.read && s.seg == Cleared())
      || (s.w == 0 && s.r == 1 && s.sent == s.read + 1 && Holds(s.seg, cs[s.read]))
    else
      && s.w == 0 && s.r == 0
      && if s.consumer.CWait? then s.sent == s.read && s.sent < |cs| && WrittenSoFar(s, cs[s.sent])
         else s.producer.PWait? && s.sent == s.read + 1 && ReadSoFar(s, cs[s.read])
  }

  ghost predicate Inv(s: State, cs: seq<Chunk>) {
    && |s.seg.area| == AREA
    && s.read <= s.sent <= |cs|
    && (s.sent == s.read || s.sent == s.read + 1)
    && Turn(s, cs)
    && s.inbox == AbsorbAll(cs[..s.read])
  }

  ghost predicate Bounded(cs: seq<Chunk>) {
    forall i | 0 <= i < |cs| :: 0 < |cs[i].data| <= MAXLEN
  }

  lemma ProducerKeeps(s: State, cs: seq<Chunk>)
    requires Inv(s, cs) && Bounded(cs) && ProducerCan(s, cs)
    ensures Inv(ProducerStep(s, cs), cs)
  {
    var c, s' := cs[s.sent], ProducerStep(s, cs);
    if s.producer.PData? { assert s'.seg.area[..|c.data|] == c.data; }
  }

  lemma ConsumerKeeps(s: State, cs: seq<Chunk>)
    requires Inv(s, cs) && Bounded(cs) && ConsumerCan(s)
    ensures Inv(ConsumerStep(s), cs)
  {
    if s.consumer.CPost? {
      assert cs[..s.read + 1][..s.read] == cs[..s.read];
      assert Chunk(s.id, s.total, s.data) == cs[s.read];
    }
  }

  /** The invariant holds in every reachable state. */
  lemma {:induction false} Reachable(cs: seq<Chunk>, schedule: seq<bool>)
    requires Bounded(cs) && IsRun(cs, schedule)
    ensures Inv(After(cs, schedule), cs)
    decreases |schedule|
  {
    if schedule != [] {
      var before, last := schedule[..|schedule| - 1], schedule[|schedule| - 1];
      Reachable(cs, before);
      if last { ProducerKeeps(After(cs, before), cs); } else { ConsumerKeeps(After(cs, before), cs); }
    } else {
      assert cs[..0] == [];
    }
  }

  // ----- what every run does -----

  function Inside(b: bool): nat {
    if b then 1 else 0
  }

  /**
   In every reachable state of a run that sends the items: exactly one of the two semaphores and
   the two critical sections is taken, writes and reads alternate starting with a write, the segment
   is all zeros when it can be written and holds the next chunk when it can be read, and the items
   received are the first ones sent, byte for byte.
   */
  lemma Safety(items: seq<seq<byte>>, schedule: seq<bool>)
    requires Sendable(items) && IsRun(AllChunks(items), schedule)
    ensures var s := After(AllChunks(items), schedule);
            && s.r + s.w + Inside(!s.producer.PWait?) + Inside(!s.consumer.CWait?) == 1
            && s.read <= s.sent <= s.read + 1
            && (s.w == 1 ==> s.read == s.sent && s.seg == Segment(0, 0, 0, Zeros()))
            && (s.r == 1 ==> s.read < s.sent && Holds(s.seg, AllChunks(items)[s.read]))
            && s.inbox.items <= items
  {
    var cs := AllChunks(items);
    Reachable(cs, schedule);
    AbsorbEverything(items);
    AbsorbedPrefix(cs, After(cs, schedule).read);
  }

  /** While a chunk is still to be read one of the two can move, and when none can all items have arrived. */
  lemma NoDeadlock(items: seq<seq<byte>>, schedule: seq<bool>)
    requires Sendable(items) && IsRun(AllChunks(items), schedule)
    ensures var cs := AllChunks(items);
            var s := After(cs, schedule);
            && (s.read < |cs| <==> ProducerCan(s, cs) || ConsumerCan(s))
            && (s.read == |cs| ==> s.inbox == Inbox(items, []))
  {
    var cs := AllChunks(items);
    Reachable(cs, schedule);
    AbsorbEverything(items);
    assert cs[..|cs|] == cs;
  }

  /** Steps taken for the chunk in hand. */
  function Phase(s: State): nat {
    match (s.producer, s.consumer)
    case (PId, _) => 1
    case (PLen, _) => 2
    case (PTotal, _) => 3
    case (PData, _) => 4
    case (PPost, _) => 5
    case (PWait, CWait) => if s.r > 0 then 6 else 0
    case (PWait, CId) => 7
    case (PWait, CLen) => 8
    case (PWait, CTotal) => 9
    case (PWait, CData) => 10
    case (PWait, CClear) => 11
    case (PWait, CPost) => 12
  }

  function Work(s: State): nat {
    13 * s.read + Phase(s)
  }

  lemma ProducerWorks(s: State, cs: seq<Chunk>)
    requires Inv(s, cs) && ProducerCan(s, cs)
    ensures Work(ProducerStep(s, cs)) == Work(s) + 1
  {
  }

  lemma ConsumerWorks(s: State, cs: seq<Chunk>)
    requires Inv(s, cs) && ConsumerCan(s)
    ensures Work(ConsumerStep(s)) == Work(s) + 1
  {
  }

  lemma WorkIsBounded(s: State, cs: seq<Chunk>)
    requires Inv(s, cs)
    ensures Work(s) <= 13 * |cs|
  {
  }

  /** Every step is one of 13 for some chunk, so no run is longer than 13 steps a chunk. */
  lemma {:induction false} RunLength(cs: seq<Chunk>, schedule: seq<bool>)
    requires Bounded(cs) && IsRun(cs, schedule)
    ensures |schedule| == Work(After(cs, schedule)) <= 13 * |cs|
    decreases |schedule|
  {
    Reachable(cs, schedule);
    WorkIsBounded(After(cs, schedule), cs);
    if schedule != [] {
      var before, last := schedule[..|schedule| - 1], schedule[|schedule| - 1];
      RunLength(cs, before);
      Reachable(cs, before);
      hide Work, Inv;
      if last { ProducerWorks(After(cs, before), cs); } else { ConsumerWorks(After(cs, before), cs); }
    }
  }
}
