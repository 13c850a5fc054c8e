/** A streaming MD5 context: however a message is cut into updates, the blocks handed to the
    scheduler are the message, padded as sections 3.1 and 3.2 of RFC 1321 demand. */
module Md5Context {
  import opened Types

  const BLOCK := 64
  const WORD_LIMIT := 0x1_0000_0000_0000_0000  // total_length is 64 bits wide

  // ----- padding ---------------------------------------------------------------------------------

  function Zeros(n: nat): (z: seq<byte>)
    ensures |z| == n && forall i | 0 <= i < n :: z[i] == 0
  {
    seq(n, _ => 0)
  }

  /** The n lowest bytes of x, lowest first. */
  function LittleEndian(x: nat, n: nat): (bs: seq<byte>)
    ensures |bs| == n
  {
    if n == 0 then [] else [(x % 256) as byte] + LittleEndian(x / 256, n - 1)
  }

  function FromLittleEndian(bs: seq<byte>): nat {
    if bs == [] then 0 else bs[0] as nat + 256 * FromLittleEndian(bs[1..])
  }

  function Pow256(n: nat): (p: nat)
    ensures p > 0
  {
    if n == 0 then 1 else 256 * Pow256(n - 1)
  }

  /** The length that the padding ends with can be read back. */
  lemma {:induction false} LittleEndianReads(x: nat, n: nat)
    requires x < Pow256(n)
    ensures FromLittleEndian(LittleEndian(x, n)) == x
  {
    if n > 0 {
      LittleEndianReads(x / 256, n - 1);
      var bs := LittleEndian(x, n);
      assert bs[1..] == LittleEndian(x / 256, n - 1);
    }
  }

  lemma FromEight(e: seq<byte>)
    requires |e| == 8
    ensures FromLittleEndian(e) ==
            e[0] as nat + 0x100 * e[1] as nat + 0x1_0000 * e[2] as nat + 0x100_0000 * e[3] as nat
            + 0x1_0000_0000 * e[4] as nat + 0x100_0000_0000 * e[5] as nat + 0x1_0000_0000_0000 * e[6] as nat
            + 0x100_0000_0000_0000 * e[7] as nat
  {
    var f := e[4..];
    assert f[0] == e[4] && f[1] == e[5] && f[2] == e[6] && f[3] == e[7];
    FromFour(f);
    FromFirstFour(e);
    HighHalf(FromLittleEndian(e), e[0] as nat, e[1] as nat, e[2] as nat, e[3] as nat,
             FromLittleEndian(f), e[4] as nat, e[5] as nat, e[6] as nat, e[7] as nat);
  }

  lemma HighHalf(x: nat, e0: nat, e1: nat, e2: nat, e3: nat, high: nat, e4: nat, e5: nat, e6: nat, e7: nat)
    requires x == e0 + 0x100 * e1 + 0x1_0000 * e2 + 0x100_0000 * e3 + 0x1_0000_0000 * high
    requires high == e4 + 0x100 * e5 + 0x1_0000 * e6 + 0x100_0000 * e7
    ensures x == e0 + 0x100 * e1 + 0x1_0000 * e2 + 0x100_0000 * e3 + 0x1_0000_0000 * e4 + 0x100_0000_0000 * e5
                 + 0x1_0000_0000_0000 * e6 + 0x100_0000_0000_0000 * e7
  {
  }

  lemma FromFour(e: seq<byte>)
    requires |e| == 4
    ensures FromLittleEndian(e) ==
            e[0] as nat + 0x100 * e[1] as nat + 0x1_0000 * e[2] as nat + 0x100_0000 * e[3] as nat
  {
    var e1, e2, e3 := e[1..], e[2..], e[3..];
    assert e1[1..] == e2 && e2[1..] == e3 && e3[1..] == [];
    assert FromLittleEndian(e3) == e[3] as nat;
    assert FromLittleEndian(e2) == e[2] as nat + 0x100 * FromLittleEndian(e3);
    assert FromLittleEndian(e1) == e[1] as nat + 0x100 * FromLittleEndian(e2);
  }

  lemma FromFirstFour(e: seq<byte>)
    requires |e| == 8
    ensures FromLittleEndian(e) == e[0] as nat + 0x100 * e[1] as nat + 0x1_0000 * e[2] as nat + 0x100_0000 * e[3] as nat
                                   + 0x1_0000_0000 * FromLittleEndian(e[4..])
  {
    var e1, e2, e3, e4 := e[1..], e[2..], e[3..], e[4..];
    assert e1[1..] == e2 && e2[1..] == e3 && e3[1..] == e4;
    assert FromLittleEndian(e3) == e[3] as nat + 0x100 * FromLittleEndian(e4);
    assert FromLittleEndian(e2) == e[2] as nat + 0x100 * FromLittleEndian(e3);
    assert FromLittleEndian(e1) == e[1] as nat + 0x100 * FromLittleEndian(e2);
  }

  /** The last 8 bytes of the padding are the length in bits, lowest byte first. */
  lemma PaddingEndsWithLength(n: nat)
    ensures var e := Padding(n)[|Padding(n)| - 8..];
            e[0] as nat + 0x100 * e[1] as nat + 0x1_0000 * e[2] as nat + 0x100_0000 * e[3] as nat
            + 0x1_0000_0000 * e[4] as nat + 0x100_0000_0000 * e[5] as nat + 0x1_0000_0000_0000 * e[6] as nat
            + 0x100_0000_0000_0000 * e[7] as nat == 8 * n % 0x1_0000_0000_0000_0000
  {
    var bits := 8 * n % WORD_LIMIT;
    assert Padding(n)[|Padding(n)| - 8..] == LittleEndian(bits, 8);
    assert Pow256(8) == WORD_LIMIT by {
      assert Pow256(2) == 0x1_0000 && Pow256(4) == 0x1_0000_0000 && Pow256(6) == 0x1_0000_0000_0000;
    }
    LittleEndianReads(bits, 8);
    FromEight(LittleEndian(bits, 8));
  }

  /** How many zero bytes come after the one bit of a message of n bytes. */
  function ZeroCount(n: nat): (z: nat)
    ensures z < BLOCK && (n + 1 + z) % BLOCK == 56
  {
    (55 - n) % 64
  }

  /** A one bit, z zero bytes and a length of 8 bytes. */
  function PadBytes(z: nat, bits: nat): (p: seq<byte>)
    ensures |p| == z + 9
  {
    [0x80] + Zeros(z) + LittleEndian(bits, 8)
  }

  /** What RFC 1321 appends to a message of n bytes: a one bit, zeros up to 8 bytes short of a
      block, and the length in bits, modulo 2^64. */
  function Padding(n: nat): (p: seq<byte>)
    ensures |p| == ZeroCount(n) + 9
  {
    PadBytes(ZeroCount(n), 8 * n % WORD_LIMIT)
  }

  /** The padding starts with 0x80, and all but its last 8 bytes are 0 from there on. */
  lemma PaddingStarts(n: nat)
    ensures Padding(n)[0] == 0x80 && forall i | 1 <= i < |Padding(n)| - 8 :: Padding(n)[i] == 0
  {
  }

  /** The zeros are the fewest that leave the length at the end of a block. */
  lemma FewestZeros(n: nat, k: nat)
    requires (n + 1 + k) % BLOCK == 56
    ensures ZeroCount(n) <= k
  {
  }

  lemma WholeBlocks(n: nat)
    ensures (n + ZeroCount(n) + 9) % BLOCK == 0
    ensures n % BLOCK + ZeroCount(n) + 9 == if n % BLOCK < 56 then BLOCK else 2 * BLOCK
  {
  }

  /** The low 6 bits, and the length in bits, survive the wrap-around of the counter. */
  lemma LengthWraps(n: nat)
    ensures n % WORD_LIMIT % BLOCK == n % BLOCK
    ensures 8 * (n % WORD_LIMIT) % WORD_LIMIT == 8 * n % WORD_LIMIT
  {
    var q, r := n / WORD_LIMIT, n % WORD_LIMIT;
    DropBlocks(r, 0x0400_0000_0000_0000 * q);
    assert n == r + BLOCK * (0x0400_0000_0000_0000 * q);
    DropWraps(8 * r, 8 * q);
    assert 8 * n == 8 * r + WORD_LIMIT * (8 * q);
  }

  lemma DropBlocks(a: nat, k: nat)
    ensures (a + BLOCK * k) % BLOCK == a % BLOCK
  {
  }

  lemma DropWraps(a: nat, k: nat)
    ensures (a + WORD_LIMIT * k) % WORD_LIMIT == a % WORD_LIMIT
  {
  }

  lemma AddWraps(a: nat, b: nat)
    ensures (a % WORD_LIMIT + b) % WORD_LIMIT == (a + b) % WORD_LIMIT
  {
  }

  /** hash_pad's sum of masked differences. */
  lemma PadEnd(total: nat)
    ensures (WORD_LIMIT - (total + 9) % WORD_LIMIT) % BLOCK == ZeroCount(total)
  {
    var q, r := (total + 9) / WORD_LIMIT, (total + 9) % WORD_LIMIT;
    assert total + 9 == r + BLOCK * (0x0400_0000_0000_0000 * q);
    DropBlocks(r, 0x0400_0000_0000_0000 * q);
    NegMod(total, r);
  }

  lemma NegMod(total: nat, r: nat)
    requires r < WORD_LIMIT && r % BLOCK == (total + 9) % BLOCK
    ensures (WORD_LIMIT - r) % BLOCK == ZeroCount(total)
  {
  }

  // ----- one context -------------------------------------------------------------------------------

  datatype Error = NoError | InvalidFlags | AlreadyProcessing | AlreadyCompleted

  const FLAG_LAST := 2     // HASH_LAST; HASH_FIRST is the lowest bit
  const FLAG_ENTIRE := 3   // HASH_ENTIRE, both

  /** What the scheduler takes: whole blocks, and at least one. */
  predicate IsJob(job: seq<byte>) {
    job != [] && |job| % BLOCK == 0
  }

  /** The message with its padding. */
  function Padded(message: seq<byte>): (p: seq<byte>)
  {
    message + Padding(|message|)
  }

  /** A condition written as a quantifier over k whose only trigger is this one is carried
      through a proof as it stands; asserting it at 0 unfolds it. */
  ghost predicate OpenContext(k: nat) {
    true
  }

  /** MD5_HASH_CTX. The message, and the blocks of it that have been made into jobs, are
      specification only; that the scheduler is handed those jobs is up to the manager. */
  class Context {
    var processing: bool  // the status bits
    var last: bool
    var complete: bool
    var error: Error
    var totalLength: nat
    var incoming: seq<byte>  // incoming_buffer and its length
    const partial: array<byte>
    var partialLength: nat
    var job: seq<byte>       // job.buffer, job.len blocks of it
    ghost var message: seq<byte>
    ghost var blocks: seq<byte>
    ghost var started: bool  // not fresh from hash_ctx_init
    ghost var closing: bool  // the message has had its LAST

    /** Holds while the context is neither with the scheduler nor in a call, and between the
        rounds of a call. */
    ghost predicate Valid()
      reads this, partial
    {
      forall k: nat {:trigger OpenContext(k)} :: OpenContext(k) ==> Holds()
    }

    ghost predicate Holds()
      reads this, partial
    {
      && partial.Length == 2 * BLOCK && partialLength < BLOCK
      && |blocks| % BLOCK == 0
      && (if complete then !last && incoming == [] && (started ==> blocks == Padded(message))
          else && totalLength == |message| % WORD_LIMIT
               && blocks + partial[..partialLength] + incoming == message
               && (partialLength == 0 || incoming == []))
      && (!processing && !complete ==> incoming == [] && !last)
      && (started ==> (closing <==> last || complete))
    }

    /** hash_ctx_init */
    constructor ()
      ensures Valid() && complete && !processing && error == NoError && fresh(partial)
      ensures !started && blocks == []
    {
      partial := new byte[2 * BLOCK](_ => 0);
      processing, last, complete, error := false, false, true, NoError;
      totalLength, incoming, partialLength, job := 0, [], 0, [];
      message, blocks, started, closing := [], [], false, false;
    }

    /** Once it is returned, a context that has had its LAST is complete, and its whole padded
        message has been made into jobs. */
    lemma Finished()
      requires Valid() && started && closing && !processing
      ensures complete && blocks == message + Padding(|message|) && |blocks| % BLOCK == 0
    {
      assert OpenContext(0);
    }

    /** Between calls the partial block holds the last bytes of the message. */
    lemma PartialLength()
      requires Valid() && !processing && !complete
      ensures partialLength == |message| % BLOCK && partialLength <= partial.Length
      ensures message == blocks + partial[..partialLength]
    {
      assert OpenContext(0);
      var k := |blocks| / BLOCK;
      assert |message| == partialLength + BLOCK * k;
      DropBlocks(partialLength, k);
      assert blocks + partial[..partialLength] + [] == blocks + partial[..partialLength];
    }

    /** A refused submission only leaves its error. */
    method Refuse(e: Error)
      requires Valid()
      modifies this`error
      ensures Valid() && error == e
    {
      assert OpenContext(0);
      error := e;
    }

    /** How many jobs of this context are still to come, at most. */
    function JobsLeft(): nat
      reads this
    {
      (if incoming != [] then 1 else 0) + (if last then 1 else 0)
    }

    /** The part of md5_ctx_mgr_submit after its checks: take in the user's buffer, and top up
        the partial block. True when that filled it, so that it is handed over. */
    method Accept(buffer: seq<byte>, flags: nat) returns (hand: bool)
      requires Valid() && !processing && flags <= FLAG_ENTIRE && (complete ==> flags % 2 == 1)
      modifies this, partial
      ensures Valid() && processing && started && !complete && error == NoError
      ensures message == (if flags % 2 == 1 then [] else old(message)) + buffer
      ensures closing <==> flags >= FLAG_LAST
      ensures blocks == (if flags % 2 == 1 then [] else old(blocks)) + if hand then job else []
      ensures hand ==> IsJob(job)
    {
      Start(flags % 2 == 1);
      AddWraps(|message|, |buffer|);
      error, started, closing := NoError, true, flags >= FLAG_LAST;
      incoming := buffer;
      processing, last, complete := true, flags >= FLAG_LAST, false;
      totalLength := (totalLength + |buffer|) % WORD_LIMIT;
      message := message + buffer;
      hand := TopUp();
    }

    /** HASH_FIRST starts a new message. */
    method Start(first: bool)
      requires Valid() && !processing && (complete ==> first)
      modifies this`totalLength, this`partialLength, this`message, this`blocks
      ensures message == if first then [] else old(message)
      ensures blocks == if first then [] else old(blocks)
      ensures partial.Length == 2 * BLOCK && partialLength < BLOCK && |blocks| % BLOCK == 0
      ensures totalLength == |message| % WORD_LIMIT && blocks + partial[..partialLength] == message
    {
      assert OpenContext(0);
      if first {
        totalLength, partialLength := 0, 0;
        message, blocks := [], [];
      } else {
        PartialLength();
      }
    }

    method TopUp() returns (hand: bool)
      requires partial.Length == 2 * BLOCK && partialLength < BLOCK && |blocks| % BLOCK == 0
      requires processing && !complete && totalLength == |message| % WORD_LIMIT && (closing <==> last)
      requires blocks + partial[..partialLength] + incoming == message
      modifies this`partialLength, this`incoming, this`job, this`blocks, partial
      ensures Valid()
      ensures blocks == old(blocks) + (if hand then job else []) && (hand ==> IsJob(job))
    {
      hand := false;
      if partialLength != 0 || |incoming| < BLOCK {
        TakeIn();
        if partialLength >= BLOCK {
          hand := true;
          HandPartial();
        }
      }
    }

    /** As much of the user's buffer as fits the partial block. */
    method TakeIn()
      requires partial.Length == 2 * BLOCK && partialLength < BLOCK
      requires blocks + partial[..partialLength] + incoming == message
      modifies this`partialLength, this`incoming, partial
      ensures partialLength <= BLOCK && (partialLength == BLOCK || incoming == [])
      ensures blocks + partial[..partialLength] + incoming == message
    {
      var copyLen := BLOCK - partialLength;
      if |incoming| < copyLen {
        copyLen := |incoming|;
      }
      if copyLen != 0 {
        Regroup(blocks, partial[..partialLength], incoming, copyLen);
        CopyIn(incoming[..copyLen]);
        incoming := incoming[copyLen..];
      }
    }

    /** The partial block is full: hand it over. */
    method HandPartial()
      requires partial.Length == 2 * BLOCK && partialLength == BLOCK && |blocks| % BLOCK == 0
      requires processing && !complete && totalLength == |message| % WORD_LIMIT && (closing <==> last)
      requires blocks + partial[..partialLength] + incoming == message
      modifies this`partialLength, this`job, this`blocks
      ensures Valid() && blocks == old(blocks) + job && IsJob(job)
    {
      BlocksAdd(|blocks|, BLOCK);
      job := partial[..BLOCK];
      blocks := blocks + job;
      partialLength := 0;
      assert blocks + partial[..0] == blocks;
      assert Holds();
    }

    /** memcpy_varlen behind what the partial block holds. */
    method CopyIn(bytes: seq<byte>)
      requires partial.Length == 2 * BLOCK && partialLength + |bytes| <= BLOCK
      modifies this`partialLength, partial
      ensures partialLength == old(partialLength) + |bytes|
      ensures partial[..partialLength] == old(partial[..partialLength]) + bytes
    {
      forall i | 0 <= i < |bytes| {
        partial[partialLength + i] := bytes[i];
      }
      partialLength := partialLength + |bytes|;
    }

    /** hash_pad: the number of blocks to hash. */
    method HashPad() returns (n: nat)
      requires partial.Length == 2 * BLOCK
      modifies partial
      ensures var i := totalLength % BLOCK;
              && 1 <= n <= 2 && i + ZeroCount(totalLength) + 9 == BLOCK * n
              && partial[..BLOCK * n]
                 == old(partial[..i]) + PadBytes(ZeroCount(totalLength), 8 * totalLength % WORD_LIMIT)
    {
      var i := totalLength % BLOCK;
      ghost var z := ZeroCount(totalLength);
      WholeBlocks(totalLength);
      forall k | i <= k < i + BLOCK {
        partial[k] := 0;
      }
      partial[i] := 0x80;
      assert partial[..i + 1 + z] == old(partial[..i]) + [0x80] + Zeros(z);
      i := i + (WORD_LIMIT - (totalLength + 9) % WORD_LIMIT) % BLOCK + 1 + 8;
      PadEnd(totalLength);
      var length := LittleEndian(8 * totalLength % WORD_LIMIT, 8);
      forall k | 0 <= k < 8 {
        partial[i - 8 + k] := length[k];
      }
      n := i / BLOCK;
      assert partial[..BLOCK * n] == old(partial[..totalLength % BLOCK]) + PadBytes(z, 8 * totalLength % WORD_LIMIT);
    }

    /** One round of md5_ctx_mgr_resubmit, for a context whose last job is done: true when it
        hands over another. */
    method Round() returns (hand: bool)
      requires Valid() && processing && started
      modifies this, partial
      ensures Valid() && started && closing == old(closing) && message == old(message) && error == old(error)
      ensures hand ==> processing && JobsLeft() < old(JobsLeft())
      ensures !hand ==> !processing
      ensures !hand ==> (complete <==> old(complete))
      ensures blocks == old(blocks) + (if hand then job else []) && (hand ==> IsJob(job))
    {
      assert OpenContext(0);
      if complete {
        processing := false;
        return false;
      }
      if partialLength == 0 && incoming != [] {
        hand := HandWhole();
        if hand {
          return;
        }
      }
      if last {
        Finish();
        return true;
      }
      processing := false;
      hand := false;
    }

    /** Hand over the whole blocks of the user's buffer and keep what is left. */
    method HandWhole() returns (hand: bool)
      requires Valid() && !complete && partialLength == 0 && incoming != []
      modifies this`partialLength, this`incoming, this`job, this`blocks, partial
      ensures Valid() && incoming == []
      ensures blocks == old(blocks) + (if hand then job else []) && (hand ==> IsJob(job))
    {
      assert OpenContext(0);
      var copyLen := |incoming| % BLOCK;
      var len := |incoming| - copyLen;
      if copyLen != 0 {
        CopyIn(incoming[len..]);
      }
      ghost var whole := incoming[..len];
      WholeAndTail(blocks, partial[..0], incoming, len);
      assert |whole| % BLOCK == 0;
      BlocksAdd(|blocks|, |whole|);
      hand := len != 0;
      if hand {
        job := incoming[..len];
      }
      incoming := [];
      blocks := blocks + whole;
      assert Holds();
    }

    /** What the invariant says once the user's buffer is used up. */
    lemma AtEnd()
      requires Valid() && incoming == [] && !complete
      ensures Holds() && blocks + partial[..partialLength] == message && totalLength % BLOCK == partialLength
      ensures ZeroCount(totalLength) == ZeroCount(|message|)
      ensures 8 * totalLength % WORD_LIMIT == 8 * |message| % WORD_LIMIT
    {
      assert OpenContext(0);
      var was, k := partial[..partialLength], |blocks| / BLOCK;
      assert blocks + was + [] == blocks + was;
      assert |message| == partialLength + BLOCK * k;
      DropBlocks(partialLength, k);
      LengthWraps(|message|);
      SameZeros(totalLength, |message|);
    }

    /** The last blocks. */
    method Finish()
      requires Valid() && last && incoming == [] && !complete && started
      modifies this`last, this`complete, this`job, this`blocks, partial
      ensures Valid() && !last && complete
      ensures blocks == old(blocks) + job && IsJob(job)
    {
      AtEnd();
      ghost var was := partial[..partialLength];
      var n := HashPad();
      PadJoins(blocks, was, message, partial[..BLOCK * n]);
      BlocksAdd(|blocks|, BLOCK * n);
      job := partial[..BLOCK * n];
      blocks := blocks + job;
      last, complete := false, true;
      assert Holds();
    }
  }

  lemma WholeAndTail(a: seq<byte>, none: seq<byte>, c: seq<byte>, n: nat)
    requires n <= |c| && none == []
    ensures a + none + c == (a + c[..n]) + c[n..] + []
    ensures n == |c| ==> a + none + c == (a + c[..n]) + none + []
  {
  }

  lemma Regroup(a: seq<byte>, b: seq<byte>, c: seq<byte>, n: nat)
    requires n <= |c|
    ensures a + b + c == a + (b + c[..n]) + c[n..]
  {
  }

  lemma BlocksAdd(a: nat, b: nat)
    requires a % BLOCK == 0 && b % BLOCK == 0
    ensures (a + b) % BLOCK == 0
  {
  }

  lemma SameZeros(a: nat, b: nat)
    requires a % BLOCK == b % BLOCK
    ensures ZeroCount(a) == ZeroCount(b)
  {
  }

  lemma PadJoins(blocks: seq<byte>, part: seq<byte>, message: seq<byte>, end: seq<byte>)
    requires blocks + part == message && end == part + Padding(|message|)
    ensures blocks + end == Padded(message)
  {
  }
}
