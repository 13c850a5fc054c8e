/** A stream of buffers cut into chunks, each offered to the cache. */
module Streaming {
  import opened Types
  import opened RollingHash
  import opened Chunking

  // ----- the chunks of a stream ------------------------------------------------------------------

  ghost function Chunks(t: Table, buf: seq<byte>): seq<seq<byte>>
    decreases |buf|
  {
    match Cut(t, buf)
    case None => []
    case Some(n) => [buf[..n]] + Chunks(t, buf[n..])
  }

  /** What is left after the last chunk. */
  ghost function Rest(t: Table, buf: seq<byte>): seq<byte>
    decreases |buf|
  {
    match Cut(t, buf)
    case None => buf
    case Some(n) => Rest(t, buf[n..])
  }

  /** The chunks that the cache does not have; present gives its answer for the chunk at the
      start of what is left, by the length of that. */
  ghost function Missing(t: Table, buf: seq<byte>, present: (nat, seq<byte>) -> bool): seq<seq<byte>>
    decreases |buf|
  {
    match Cut(t, buf)
    case None => []
    case Some(n) => (if present(|buf|, buf[..n]) then [] else [buf[..n]]) + Missing(t, buf[n..], present)
  }

  function Concat<T>(bufs: seq<seq<T>>): seq<T> {
    if bufs == [] then [] else bufs[0] + Concat(bufs[1..])
  }

  /** No byte is lost or made up, and every size is in range. */
  lemma {:induction false} Conserved(t: Table, buf: seq<byte>)
    ensures Concat(Chunks(t, buf)) + Rest(t, buf) == buf
    ensures forall c | c in Chunks(t, buf) :: MIN_CHUNK < |c| <= MAX_CHUNK
    ensures |Rest(t, buf)| < MAX_CHUNK && Cut(t, Rest(t, buf)) == None
    decreases |buf|
  {
    var cut := Cut(t, buf);
    if cut.Some? {
      var n := cut.value;
      Conserved(t, buf[n..]);
      assert Chunks(t, buf)[1..] == Chunks(t, buf[n..]);
      assert buf == buf[..n] + buf[n..];
    }
  }

  /** Cutting a stream in two anywhere, and putting what is left of the first part before the
      second, gives the same chunks and the same rest. */
  lemma {:induction false} SplitAnywhere(t: Table, b1: seq<byte>, b2: seq<byte>)
    ensures Chunks(t, b1 + b2) == Chunks(t, b1) + Chunks(t, Rest(t, b1) + b2)
    ensures Rest(t, b1 + b2) == Rest(t, Rest(t, b1) + b2)
    decreases |b1|
  {
    var cut := Cut(t, b1);
    if cut.Some? {
      var n := cut.value;
      CutFromPrefix(t, b1, b2, MIN_CHUNK + 1);
      assert (b1 + b2)[..n] == b1[..n] && (b1 + b2)[n..] == b1[n..] + b2;
      SplitAnywhere(t, b1[n..], b2);
    }
  }

  /** The chunks of a list of buffers fed one after the other, what is retained going before
      the next buffer. */
  ghost function FedChunks(t: Table, bufs: seq<seq<byte>>): seq<seq<byte>> {
    if bufs == [] then []
    else
      var n := |bufs| - 1;
      FedChunks(t, bufs[..n]) + Chunks(t, FedRest(t, bufs[..n]) + bufs[n])
  }

  ghost function FedRest(t: Table, bufs: seq<seq<byte>>): seq<byte> {
    if bufs == [] then []
    else
      var n := |bufs| - 1;
      Rest(t, FedRest(t, bufs[..n]) + bufs[n])
  }

  lemma {:induction false} ConcatLast<T>(bufs: seq<seq<T>>)
    requires bufs != []
    ensures Concat(bufs) == Concat(bufs[..|bufs| - 1]) + bufs[|bufs| - 1]
  {
    var n := |bufs| - 1;
    if n > 0 {
      assert bufs[1..][..n - 1] == bufs[..n][1..];
      ConcatLast(bufs[1..]);
    }
  }

  /** However a stream is cut into buffers, its chunks and what is retained are the same. */
  lemma {:induction false} FedAnyhow(t: Table, bufs: seq<seq<byte>>)
    ensures FedChunks(t, bufs) == Chunks(t, Concat(bufs))
    ensures FedRest(t, bufs) == Rest(t, Concat(bufs))
  {
    if bufs != [] {
      var n := |bufs| - 1;
      FedAnyhow(t, bufs[..n]);
      ConcatLast(bufs);
      SplitAnywhere(t, Concat(bufs[..n]), bufs[n]);
    }
  }

  lemma FirstChunk(t: Table, buf: seq<byte>, before: seq<seq<byte>>)
    ensures match Cut(t, buf)
            case None => before + Chunks(t, buf) == before && Rest(t, buf) == buf
            case Some(n) => && before + Chunks(t, buf) == (before + [buf[..n]]) + Chunks(t, buf[n..])
                            && Rest(t, buf) == Rest(t, buf[n..])
  {
  }

  lemma FirstMissing(t: Table, buf: seq<byte>, present: (nat, seq<byte>) -> bool, before: seq<seq<byte>>)
    ensures match Cut(t, buf)
            case None => before + Missing(t, buf, present) == before
            case Some(n) => before + Missing(t, buf, present)
                            == (if present(|buf|, buf[..n]) then before else before + [buf[..n]])
                               + Missing(t, buf[n..], present)
  {
  }

  lemma SumMod(a: nat, b: nat)
    ensures (a % COUNT_LIMIT + b % COUNT_LIMIT) % COUNT_LIMIT == (a + b) % COUNT_LIMIT
  {
    var p, q := a / COUNT_LIMIT, b / COUNT_LIMIT;
    assert a + b == a % COUNT_LIMIT + b % COUNT_LIMIT + (p + q) * COUNT_LIMIT;
  }

  const COUNT_LIMIT := 0x1_0000_0000  // the counters are 32 bits wide

  /** struct chunk_streamer. What the cache answers to the i-th question is a parameter. */
  class ChunkStreamer {
    const chunker: Chunker
    var chunkAdded: nat
    var chunkHit: nat
    ghost var added: seq<seq<byte>>    // chunks handed to the cache
    ghost var emitted: seq<seq<byte>>  // all chunks found

    ghost predicate Valid()
      reads this, chunker, chunker.rh
    {
      && chunker.Valid() && |added| <= |emitted|
      && chunkAdded == |added| % COUNT_LIMIT && chunkHit == (|emitted| - |added|) % COUNT_LIMIT
    }

    /** chunk_streamer_init */
    constructor (t: Table)
      ensures Valid() && chunker.rh.table1 == t && chunker.retainedSize == 0 && emitted == added == []
      ensures fresh(chunker) && fresh(chunker.rh) && fresh(chunker.rh.history) && fresh(chunker.retained)
    {
      chunker := new Chunker(t);
      chunkAdded, chunkHit, added, emitted := 0, 0, [], [];
    }

    /** cache_manager_has_chunk, and cache_manager_add_chunk if it has not. */
    method Offer(chunk: seq<byte>, present: bool)
      requires Valid()
      modifies this`chunkAdded, this`chunkHit, this`added, this`emitted
      ensures Valid() && emitted == old(emitted) + [chunk]
      ensures added == if present then old(added) else old(added) + [chunk]
    {
      if present {
        chunkHit := (chunkHit + 1) % COUNT_LIMIT;
      } else {
        chunkAdded := (chunkAdded + 1) % COUNT_LIMIT;
        added := added + [chunk];
      }
      emitted := emitted + [chunk];
    }

    /** chunk_streamer_process_buffer */
    method ProcessBuffer(buffer: seq<byte>, present: (nat, seq<byte>) -> bool)
      requires Valid() && chunker.retainedSize == 0
      modifies this`chunkAdded, this`chunkHit, this`added, this`emitted
      modifies chunker`retainedSize, chunker.retained, chunker.rh`hash, chunker.rh.history
      ensures Valid() && emitted == old(emitted) + Chunks(chunker.rh.table1, buffer)
      ensures added == old(added) + Missing(chunker.rh.table1, buffer, present)
      ensures chunker.Retained() == Rest(chunker.rh.table1, buffer)
    {
      ghost var t := chunker.rh.table1;
      ghost var all, rest := emitted + Chunks(t, buffer), Rest(t, buffer);
      ghost var toAdd := added + Missing(t, buffer, present);
      var left := buffer;
      while true
        invariant Valid() && chunker.retainedSize == 0
        invariant emitted + Chunks(t, left) == all && Rest(t, left) == rest
        invariant added + Missing(t, left, present) == toAdd
        decreases |left|
      {
        var size := chunker.ChunkBuffer(left);
        FirstChunk(t, left, emitted);
        FirstMissing(t, left, present, added);
        if size.None? {
          break;
        }
        Offer(left[..size.value], present(|left|, left[..size.value]));
        left := left[size.value..];
      }
    }

    /** The counters add up to the number of chunks found. */
    lemma CountersAgree()
      requires Valid()
      ensures (chunkAdded + chunkHit) % 0x1_0000_0000 == |emitted| % 0x1_0000_0000
    {
      var a, h := |added|, |emitted| - |added|;
      SumMod(a, h);
    }

    /** chunk_streamer_flush_retained */
    method FlushRetained(buffer: array<byte>) returns (n: nat)
      requires Valid() && buffer.Length > chunker.retainedSize
      requires buffer != chunker.retained && buffer != chunker.rh.history
      modifies chunker`retainedSize, buffer
      ensures Valid() && chunker.retainedSize == 0 && n == old(chunker.retainedSize)
      ensures buffer[..] == old(chunker.Retained()) + old(buffer[n..])
    {
      n := chunker.FlushRetained(buffer);
    }
  }
}
