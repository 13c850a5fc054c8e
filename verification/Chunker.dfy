/** Cutting a stream into chunks by content. */
module Chunking {
  import opened Types
  import opened RollingHash

  const MIN_CHUNK := 2048
  const MAX_CHUNK := 24576
  const MASK: bv64 := 8191
  const TRIGGER: bv64 := 26061973 & 8191

  // ----- where the first chunk ends ------------------------------------------------------------

  /** A chunk of n bytes ends at a hit. The hash starts from the 32 bytes below the minimal
      size, and is then run over the buffer from its beginning. */
  ghost predicate Boundary(t: Table, buf: seq<byte>, n: nat)
    requires MIN_CHUNK <= n <= |buf|
  {
    HitAt(t, buf[MIN_CHUNK - WINDOW..MIN_CHUNK] + buf, n - MIN_CHUNK, MASK, TRIGGER)
  }

  /** The first of n, n + 1, ... that ends the chunk; None when the buffer ends before it. */
  ghost function CutFrom(t: Table, buf: seq<byte>, n: nat): (r: Option<nat>)
    requires MIN_CHUNK < n <= MAX_CHUNK
    ensures r.Some? ==> n <= r.value <= |buf| && r.value <= MAX_CHUNK
    ensures r.None? ==> |buf| < MAX_CHUNK
    decreases MAX_CHUNK - n
  {
    if |buf| < n then None
    else if n == MAX_CHUNK || Boundary(t, buf, n) then Some(n)
    else CutFrom(t, buf, n + 1)
  }

  /** The length of the first chunk of buf. */
  ghost function Cut(t: Table, buf: seq<byte>): (r: Option<nat>)
    ensures r.Some? ==> MIN_CHUNK < r.value <= |buf| && r.value <= MAX_CHUNK
    ensures r.None? ==> |buf| < MAX_CHUNK
  {
    CutFrom(t, buf, MIN_CHUNK + 1)
  }

  /** Whether n bytes make a chunk depends on them alone, not on what follows. */
  lemma BoundaryPrefix(t: Table, buf: seq<byte>, more: seq<byte>, n: nat)
    requires MIN_CHUNK <= n <= |buf|
    ensures Boundary(t, buf + more, n) <==> Boundary(t, buf, n)
  {
    var first := buf[MIN_CHUNK - WINDOW..MIN_CHUNK];
    assert (buf + more)[MIN_CHUNK - WINDOW..MIN_CHUNK] == first;
    var i := n - MIN_CHUNK;
    assert (first + (buf + more))[i..i + WINDOW] == (first + buf)[i..i + WINDOW];
    HitSame(t, first + (buf + more), i, first + buf, i, MASK, TRIGGER);
  }

  /** More bytes do not move a cut, and where there was none they put it behind what was there. */
  lemma {:induction false} CutFromPrefix(t: Table, buf: seq<byte>, more: seq<byte>, n: nat)
    requires MIN_CHUNK < n <= MAX_CHUNK
    ensures CutFrom(t, buf, n).Some? ==> CutFrom(t, buf + more, n) == CutFrom(t, buf, n)
    ensures CutFrom(t, buf, n).None? && n <= |buf| ==>
              CutFrom(t, buf + more, n).None? || CutFrom(t, buf + more, n).value > |buf|
    decreases MAX_CHUNK - n
  {
    if n <= |buf| {
      BoundaryPrefix(t, buf, more, n);
      if n < MAX_CHUNK {
        CutFromPrefix(t, buf, more, n + 1);
      }
    }
  }

  /** A cut is the first boundary, or the maximal size. */
  lemma {:induction false} CutFromFirst(t: Table, buf: seq<byte>, n: nat, m: nat)
    requires MIN_CHUNK < n <= m <= MAX_CHUNK && m <= |buf|
    requires forall k | n <= k < m :: !Boundary(t, buf, k)
    requires m == MAX_CHUNK || Boundary(t, buf, m)
    ensures CutFrom(t, buf, n) == Some(m)
    decreases m - n
  {
    if n < m {
      CutFromFirst(t, buf, n + 1, m);
    }
  }

  lemma {:induction false} CutFromNone(t: Table, buf: seq<byte>, n: nat)
    requires MIN_CHUNK < n <= MAX_CHUNK && |buf| < MAX_CHUNK
    requires forall k | n <= k <= |buf| :: !Boundary(t, buf, k)
    ensures CutFrom(t, buf, n) == None
    decreases MAX_CHUNK - n
  {
    if n <= |buf| {
      CutFromNone(t, buf, n + 1);
    }
  }

  // ----- two streams by hand -------------------------------------------------------------------

  /** A table of zeros but for the word v of byte 1. */
  function OneWord(v: bv64): Table {
    seq(256, i => if i == 1 then v else 0)
  }

  function ZeroBytes(n: nat): (z: seq<byte>)
    ensures |z| == n && forall i | 0 <= i < n :: z[i] == 0
  {
    seq(n, _ => 0)
  }

  /** Zeros do not enter the hash. */
  lemma {:induction false} ZerosHash(v: bv64, n: nat)
    ensures Fold(Rol1, Xor, OneWord(v), 0, ZeroBytes(n)) == 0
  {
    if n > 0 {
      assert ZeroBytes(n)[..n - 1] == ZeroBytes(n - 1);
      ZerosHash(v, n - 1);
    }
  }

  lemma ZeroWord(v: bv64)
    ensures Xor(Rol1(0), v) == v && Xor(v, 0) == v
  {
  }

  /** A 1 after zeros enters with its word. */
  lemma OneHash(v: bv64, n: nat)
    ensures Fold(Rol1, Xor, OneWord(v), 0, ZeroBytes(n) + [1]) == v
  {
    var one := ZeroBytes(n) + [1];
    assert one[..n] == ZeroBytes(n);
    ZerosHash(v, n);
    ZeroWord(v);
  }

  /** The zero that follows rotates it once. */
  lemma OneHashMoved(v: bv64, n: nat)
    ensures Fold(Rol1, Xor, OneWord(v), 0, ZeroBytes(n) + [1, 0]) == Rol1(v)
  {
    var two := ZeroBytes(n) + [1, 0];
    assert two[..n + 1] == ZeroBytes(n) + [1];
    OneHash(v, n);
    ZeroWord(Rol1(v));
  }

  /** The longest chunk's worth of zeros, with a 1 at index 100. */
  function OneAt100(): (buf: seq<byte>)
    ensures |buf| == MAX_CHUNK && buf[..100] == ZeroBytes(100) && buf[100] == 1
    ensures forall i | 100 < i < MAX_CHUNK :: buf[i] == 0
  {
    ZeroBytes(100) + [1] + ZeroBytes(MAX_CHUNK - 101)
  }

  lemma WindowHash(t: Table, buf: seq<byte>, n: nat, window: seq<byte>)
    requires MIN_CHUNK <= n <= |buf|
    requires (buf[MIN_CHUNK - WINDOW..MIN_CHUNK] + buf)[n - MIN_CHUNK..n - MIN_CHUNK + WINDOW] == window
    ensures Boundary(t, buf, n) <==> Fold(Rol1, Xor, t, 0, window) & MASK == TRIGGER
  {
    var text, h := buf[MIN_CHUNK - WINDOW..MIN_CHUNK] + buf, Fold(Rol1, Xor, t, 0, window);
    assert OpenHash(0);
    assert Hashes(t, text, n - MIN_CHUNK, h);
    HitIf(t, text, n - MIN_CHUNK, h, MASK, TRIGGER);
  }

  lemma ZeroWindow(first: seq<byte>, buf: seq<byte>, i: nat)
    requires |first| == WINDOW && i <= |buf| && forall j | 0 <= j < WINDOW :: first[j] == 0
    requires forall j | 0 <= j < i :: buf[j] == 0
    ensures (first + buf)[i..i + WINDOW] == ZeroBytes(WINDOW)
  {
    var text := first + buf;
    assert forall j | i <= j < i + WINDOW :: text[j] == 0;
  }

  /** Two bytes behind a 1 it is the low 13 bits of that byte's word, rotated once, that count. */
  lemma HitsAt2150(v: bv64)
    ensures Boundary(OneWord(v), OneAt100(), 2150) <==> v.RotateLeft(1) & 0x1FFF == 0xC95
  {
    OneHashMoved(v, 30);
    RotatesOne(v);
    WindowHash(OneWord(v), OneAt100(), 2150, ZeroBytes(30) + [1, 0]);
  }

  const WORD: bv64 := 0x8000_0000_0000_064A

  /** Rotated once, the word 2^63 + 1610 is the trigger 3221. The byte 1 at index 100 is that word,
      so the hash that is run from the start of the buffer hits two bytes behind it, and the
      chunk ends there, counted from the minimal size. */
  lemma CutAt2150()
    ensures Cut(OneWord(WORD), OneAt100()) == Some(2150)
  {
    var t, buf := OneWord(WORD), OneAt100();
    forall k | MIN_CHUNK + 1 <= k < 2150 ensures !Boundary(t, buf, k) {
      Before2150(k);
    }
    HitsAt2150(WORD);
    assert WORD.RotateLeft(1) == 3221;
    CutFromFirst(t, buf, MIN_CHUNK + 1, 2150);
  }

  lemma Before2150(k: nat)
    requires MIN_CHUNK + 1 <= k < 2150
    ensures !Boundary(OneWord(WORD), OneAt100(), k)
  {
    if k < 2149 {
      var buf, i := OneAt100(), k - MIN_CHUNK;
      ZerosHash(WORD, WINDOW);
      assert forall j | 0 <= j < 100 :: buf[j] == buf[..100][j];
      ZeroWindow(buf[MIN_CHUNK - WINDOW..MIN_CHUNK], buf, i);
      WindowHash(OneWord(WORD), buf, k, ZeroBytes(WINDOW));
    } else {
      OneHash(WORD, 31);
      WindowHash(OneWord(WORD), OneAt100(), k, ZeroBytes(31) + [1]);
    }
  }

  /** Without a hit a chunk ends at 24576 bytes. */
  lemma CutAtMax(n: nat)
    ensures Cut(OneWord(WORD), ZeroBytes(n)) == if n < 24576 then None else Some(24576)
  {
    var t, buf := OneWord(WORD), ZeroBytes(n);
    ZerosHash(WORD, WINDOW);
    forall k | MIN_CHUNK < k <= MAX_CHUNK && k <= n ensures !Boundary(t, buf, k) {
      var i := k - MIN_CHUNK;
      ZeroWindow(buf[MIN_CHUNK - WINDOW..MIN_CHUNK], buf, i);
      WindowHash(t, buf, k, ZeroBytes(WINDOW));
    }
    if n < MAX_CHUNK {
      CutFromNone(t, buf, MIN_CHUNK + 1);
    } else {
      CutFromFirst(t, buf, MIN_CHUNK + 1, MAX_CHUNK);
    }
  }

  // ----- the chunker -----------------------------------------------------------------------------

  /** struct chunker */
  class Chunker {
    const rh: RollingHash.State
    const retained: array<byte>
    var retainedSize: nat

    ghost predicate Valid()
      reads this, rh
    {
      && rh.Ready() && retained.Length == MAX_CHUNK && retainedSize < MAX_CHUNK && retained != rh.history
    }

    ghost function Retained(): seq<byte>
      requires Valid()
      reads this, rh, retained
    {
      retained[..retainedSize]
    }

    /** chunker_init */
    constructor (t: Table)
      ensures Valid() && rh.table1 == t && retainedSize == 0
      ensures fresh(rh) && fresh(rh.history) && fresh(retained)
    {
      rh := new RollingHash.State(t);
      retained := new byte[MAX_CHUNK](_ => 0);
      retainedSize := 0;
    }

    method Retain(buffer: seq<byte>)
      requires Valid() && |buffer| < MAX_CHUNK
      modifies this`retainedSize, retained
      ensures Valid() && Retained() == buffer
    {
      forall i | 0 <= i < |buffer| {
        retained[i] := buffer[i];
      }
      retainedSize := |buffer|;
    }

    /** chunker_chunk_buffer: the size of the first chunk; without one the buffer is retained. */
    method ChunkBuffer(buffer: seq<byte>) returns (size: Option<nat>)
      requires Valid() && retainedSize == 0
      modifies this`retainedSize, retained, rh`hash, rh.history
      ensures Valid() && size == Cut(rh.table1, buffer)
      ensures Retained() == if size.None? then buffer else []
    {
      if |buffer| < MIN_CHUNK {
        Retain(buffer);
        return None;
      }
      var maxLen := (if |buffer| >= MAX_CHUNK then MAX_CHUNK else |buffer|) - MIN_CHUNK;
      rh.Reset(buffer[MIN_CHUNK - WINDOW..MIN_CHUNK]);
      var hit, offset := rh.Run(buffer, maxLen, MASK, TRIGGER);
      RunCuts(rh.table1, buffer, maxLen, hit, offset);
      if hit {
        return Some(MIN_CHUNK + offset);
      }
      if maxLen == MAX_CHUNK - MIN_CHUNK {
        return Some(MAX_CHUNK);
      }
      Retain(buffer);
      return None;
    }

    /** chunker_flush_retained */
    method FlushRetained(buffer: array<byte>) returns (n: nat)
      requires Valid() && buffer.Length > retainedSize && buffer != retained && buffer != rh.history
      modifies this`retainedSize, buffer
      ensures Valid() && retainedSize == 0 && n == old(retainedSize)
      ensures buffer[..] == old(Retained()) + old(buffer[n..])
    {
      n := retainedSize;
      forall i | 0 <= i < n {
        buffer[i] := retained[i];
      }
      retainedSize := 0;
    }
  }

  /** What a run of the rolling hash says about the cut. */
  lemma RunCuts(t: Table, buf: seq<byte>, maxLen: nat, hit: bool, offset: nat)
    requires MIN_CHUNK <= |buf| && maxLen == (if |buf| >= MAX_CHUNK then MAX_CHUNK else |buf|) - MIN_CHUNK
    requires offset <= maxLen && var text := buf[MIN_CHUNK - WINDOW..MIN_CHUNK] + buf;
             && (hit ==> && 1 <= offset && HitAt(t, text, offset, MASK, TRIGGER)
                         && NoHit(t, text, offset - 1, MASK, TRIGGER))
             && (!hit ==> offset == maxLen && NoHit(t, text, maxLen, MASK, TRIGGER))
    ensures Cut(t, buf) == if hit then Some(MIN_CHUNK + offset)
                           else if maxLen == MAX_CHUNK - MIN_CHUNK then Some(MAX_CHUNK) else None
  {
    if hit {
      CutFromFirst(t, buf, MIN_CHUNK + 1, MIN_CHUNK + offset);
    } else if maxLen == MAX_CHUNK - MIN_CHUNK {
      CutFromFirst(t, buf, MIN_CHUNK + 1, MAX_CHUNK);
    } else {
      CutFromNone(t, buf, MIN_CHUNK + 1);
    }
  }
}
