/**
 The single-slot channel in shared memory: items cut into chunks by the sender, one chunk at a time
 in the segment, guarded by two semaphores, and put together again by the receiver.
 */
module SharedMemory {

  const MAX_BYTES: nat := 4000000
  // The segment less the header fields and a pointer: 4 + 2 * 8 + 8 bytes.
  const MAXLEN: nat := MAX_BYTES - 4 - 8 * 2 - 8
  // Bytes of the segment after the header.
  const AREA: nat := MAX_BYTES - 4 - 8 * 2

  type byte = x: int | 0 <= x < 256

  datatype Chunk = Chunk(id: nat, total: nat, data: seq<byte>)

  // ----- cutting an item -----

  function ChunkCount(len: nat): nat {
    var chunks := if len > MAXLEN then len / MAXLEN else 1;
    if chunks * MAXLEN < len then chunks + 1 else chunks
  }

  lemma ChunkCountCovers(len: nat)
    ensures 1 <= ChunkCount(len)
    ensures len > 0 ==> MAXLEN * (ChunkCount(len) - 1) < len
    ensures len <= MAXLEN * ChunkCount(len)
  {
  }

  /** Chunk i covers the bytes from i * MAXLEN, up to the end of the item or MAXLEN of them. */
  function ChunkAt(item: seq<byte>, i: nat): (c: Chunk)
    requires item != [] && i < ChunkCount(|item|)
    ensures 0 < |c.data| <= MAXLEN
  {
    ChunkCountCovers(|item|);
    var start := MAXLEN * i;
    var end := if i == ChunkCount(|item|) - 1 then |item| else start + MAXLEN;
    Chunk(i % 0x1_0000_0000, ChunkCount(|item|), item[start..end])
  }

  function Chunks(item: seq<byte>): (cs: seq<Chunk>)
    requires item != []
    ensures |cs| == ChunkCount(|item|)
  {
    seq(ChunkCount(|item|), i requires 0 <= i < ChunkCount(|item|) => ChunkAt(item, i))
  }

  /** In numbers: chunks are full but for the last, and each says which it is and how many there are. */
  lemma ChunkSizes(item: seq<byte>)
    requires item != []
    ensures var cs := Chunks(item);
            && 3999972 * (|cs| - 1) < |item| <= 3999972 * |cs|
            && forall i | 0 <= i < |cs| ::
                 && |cs[i].data| == (if i < |cs| - 1 then 3999972 else |item| - 3999972 * i)
                 && cs[i].id == i % 0x1_0000_0000 && cs[i].total == |cs|
  {
    ChunkCountCovers(|item|);
  }

  /** send_item: the chunks it passes to write_shared_memory, in order. */
  method SendItem(item: seq<byte>) returns (written: seq<Chunk>)
    requires item != []
    ensures written == Chunks(item)
  {
    ChunkCountCovers(|item|);
    var chunks := 1;
    if |item| > MAXLEN {
      chunks := |item| / MAXLEN;
    }
    if chunks * MAXLEN < |item| {
      chunks := chunks + 1;
    }
    written := [];
    for i := 0 to chunks
      invariant written == Chunks(item)[..i]
    {
      var ustart := MAXLEN * i;
      var ulen := if chunks == 1 then |item| else if i == chunks - 1 then |item| - MAXLEN * i else MAXLEN;
      var chunk := Chunk(i % 0x1_0000_0000, chunks, item[ustart..ustart + ulen]);
      assert chunk == ChunkAt(item, i) == Chunks(item)[i];
      written := written + [chunk];
    }
  }

  // ----- putting an item together -----

  function Bytes(cs: seq<Chunk>): seq<byte> {
    if cs == [] then [] else Bytes(cs[..|cs| - 1]) + cs[|cs| - 1].data
  }

  /** The chunks of one item: equally long but for the last, which may be shorter, and counted by the first. */
  ghost predicate OneItem(cs: seq<Chunk>) {
    && cs != [] && cs[0].total == |cs| && 0 < |cs[0].data|
    && (forall i | 0 <= i < |cs| - 1 :: |cs[i].data| == |cs[0].data|)
    && |cs[|cs| - 1].data| <= |cs[0].data|
  }

  /**
   recv_item: chunks arrive one after the other, the first one telling how many there are and how
   large the buffer must be; chunk i is copied to offset i * size_per_chunk.
   */
  method RecvItem(received: seq<Chunk>) returns (item: seq<byte>)
    requires OneItem(received)
    ensures item == Bytes(received)
  {
    var total, size := received[0].total, |received[0].data|;
    var buffer := new byte[total * size];
    Copy(buffer, 0, received[0].data);
    var i := 1;
    assert received[..0] == [] && Bytes([]) == [];
    BytesStep(received, 0);
    assert buffer[..1 * size] == Bytes(received[..1]);
    hide Bytes;
    while i < total - 1
      invariant 1 <= i <= total && (total > 1 ==> i <= total - 1)
      invariant buffer[..i * size] == Bytes(received[..i])
    {
      Fits(i, total, size);
      BytesStep(received, i);
      Copy(buffer, i * size, received[i].data);
      assert buffer[..(i + 1) * size] == Bytes(received[..i]) + received[i].data;
      i := i + 1;
    }
    if total > 1 {
      Fits(i, total, size);
      var last := |received[i].data|;
      BytesStep(received, i);
      Copy(buffer, i * size, received[i].data);
      assert received[..i + 1] == received;
      item := buffer[..(total - 1) * size + last];
    } else {
      assert received[..1] == received;
      item := buffer[..total * size];
    }
  }

  lemma Fits(i: nat, total: nat, size: nat)
    requires i < total
    ensures i * size + size <= total * size
    ensures (i + 1) * size == i * size + size
  {
    assert total * size == (i + 1) * size + (total - (i + 1)) * size;
  }

  /** memcpy */
  method Copy(buffer: array<byte>, at: nat, data: seq<byte>)
    requires at + |data| <= buffer.Length
    modifies buffer
    ensures buffer[..at] == old(buffer[..at])
    ensures buffer[at..at + |data|] == data
    ensures buffer[..at + |data|] == old(buffer[..at]) + data
  {
    forall k | 0 <= k < |data| {
      buffer[at + k] := data[k];
    }
  }

  lemma SlicesJoin(s: seq<byte>, a: nat, b: nat)
    requires a <= b <= |s|
    ensures s[..a] + s[a..b] == s[..b]
  {
  }

  lemma BytesStep(cs: seq<Chunk>, i: nat)
    requires i < |cs|
    ensures Bytes(cs[..i + 1]) == Bytes(cs[..i]) + cs[i].data
  {
    assert cs[..i + 1][..i] == cs[..i];
  }

  /** Where chunk i starts and ends. */
  lemma ChunkSpan(item: seq<byte>, i: nat)
    requires item != [] && i < ChunkCount(|item|)
    ensures MAXLEN * i < |item|
    ensures var end := if i == ChunkCount(|item|) - 1 then |item| else MAXLEN * (i + 1);
            && end <= |item| && (i < ChunkCount(|item|) - 1 ==> end < |item|)
            && ChunkAt(item, i).data == item[MAXLEN * i..end]
  {
    ChunkCountCovers(|item|);
  }

  lemma {:induction false} BytesOfChunks(item: seq<byte>, i: nat)
    requires item != [] && i <= ChunkCount(|item|)
    ensures if i == ChunkCount(|item|) then Bytes(Chunks(item)[..i]) == item
            else MAXLEN * i < |item| && Bytes(Chunks(item)[..i]) == item[..MAXLEN * i]
  {
    hide ChunkCount, ChunkAt;
    ChunkCountCovers(|item|);
    if i > 0 {
      var j: nat := i - 1;
      BytesOfChunks(item, j);
      BytesStep(Chunks(item), j);
      ChunkSpan(item, j);
      var end := if j == ChunkCount(|item|) - 1 then |item| else MAXLEN * (j + 1);
      SlicesJoin(item, MAXLEN * j, end);
      assert item[..|item|] == item;
    }
  }

  lemma ChunksAreOneItem(item: seq<byte>)
    requires item != []
    ensures OneItem(Chunks(item))
  {
    hide ChunkCount;
    var cs := Chunks(item);
    ChunkCountCovers(|item|);
    ChunkSpan(item, 0);
    forall i | 0 <= i < |cs|
      ensures cs[i].total == |cs| && (i < |cs| - 1 ==> |cs[i].data| == MAXLEN) && |cs[i].data| <= MAXLEN
    {
      ChunkSpan(item, i);
    }
  }

  /** What the sender cuts the receiver puts together, for every non-empty item, exact multiples of MAXLEN included. */
  lemma CutAndJoin(item: seq<byte>)
    requires item != []
    ensures OneItem(Chunks(item)) && Bytes(Chunks(item)) == item
  {
    hide ChunkCount, ChunkAt, OneItem, Bytes;
    var cs := Chunks(item);
    ChunksAreOneItem(item);
    BytesOfChunks(item, |cs|);
    assert cs[..|cs|] == cs;
  }
}
