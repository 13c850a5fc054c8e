/** The rolling hash that finds chunk boundaries: a hash of the last 32 bytes, kept up to
    date byte by byte, is the hash of those bytes computed from scratch. */
module RollingHash {
  import opened Types

  const WINDOW := 32        // CHUNKER_WINDOW_WIDTH, the only width in use
  const MAX_WINDOW := 48    // FINGERPRINT_MAX_WINDOW

  // ----- hashing over any rotation and exclusive or ------------------------------------------------

  function RolBy<H>(rol: H -> H, h: H, n: nat): H {
    if n == 0 then h else rol(RolBy(rol, h, n - 1))
  }

  /** The hash of bs from the start value h. */
  function Fold<H>(rol: H -> H, xor: (H, H) -> H, t: seq<H>, h: H, bs: seq<byte>): H
    requires |t| == 256
  {
    if bs == [] then h
    else xor(rol(Fold(rol, xor, t, h, bs[..|bs| - 1])), t[bs[|bs| - 1] as nat])
  }

  ghost predicate Spreads<H(!new)>(rol: H -> H, xor: (H, H) -> H) {
    forall a, b :: rol(xor(a, b)) == xor(rol(a), rol(b))
  }

  ghost predicate Swaps<H(!new)>(xor: (H, H) -> H) {
    forall a, b, c :: xor(xor(a, b), c) == xor(xor(a, c), b)
  }

  ghost predicate Cancels<H(!new)>(xor: (H, H) -> H) {
    forall a, b :: xor(xor(a, b), b) == a
  }

  ghost predicate OpenLaws(k: nat) {
    true
  }

  /** What the hash needs of rotation and exclusive or; asserting the trigger at 0 unfolds it. */
  ghost predicate Laws<H(!new)>(rol: H -> H, xor: (H, H) -> H, zero: H) {
    forall k: nat {:trigger OpenLaws(k)} :: OpenLaws(k) ==>
      Spreads(rol, xor) && Swaps(xor) && Cancels(xor) && rol(zero) == zero
  }

  /** The start value enters the hash rotated once for every byte. */
  lemma {:induction false} FoldLinear<H(!new)>(rol: H -> H, xor: (H, H) -> H, zero: H, t: seq<H>, a: H, b: H,
                                                bs: seq<byte>)
    requires |t| == 256 && Laws(rol, xor, zero)
    ensures Fold(rol, xor, t, xor(a, b), bs) == xor(Fold(rol, xor, t, a, bs), RolBy(rol, b, |bs|))
  {
    assert OpenLaws(0);
    if bs != [] {
      FoldLinear(rol, xor, zero, t, a, b, bs[..|bs| - 1]);
    }
  }

  lemma {:induction false} FoldFront<H>(rol: H -> H, xor: (H, H) -> H, t: seq<H>, h: H, x: byte, bs: seq<byte>)
    requires |t| == 256
    ensures Fold(rol, xor, t, h, [x] + bs) == Fold(rol, xor, t, xor(rol(h), t[x as nat]), bs)
  {
    var all := [x] + bs;
    if bs == [] {
      assert all[..|all| - 1] == [];
    } else {
      assert all[..|all| - 1] == [x] + bs[..|bs| - 1];
      FoldFront(rol, xor, t, h, x, bs[..|bs| - 1]);
    }
  }

  /** One byte in and one byte out: what leaves the window is cancelled. */
  lemma Slide<H(!new)>(rol: H -> H, xor: (H, H) -> H, zero: H, t: seq<H>, bs: seq<byte>, c: byte)
    requires |t| == 256 && Laws(rol, xor, zero) && bs != []
    ensures Fold(rol, xor, t, zero, bs[1..] + [c]) ==
            xor(xor(rol(Fold(rol, xor, t, zero, bs)), t[c as nat]), RolBy(rol, t[bs[0] as nat], |bs|))
  {
    assert OpenLaws(0);
    var rest, out := bs[1..], t[bs[0] as nat];
    assert bs == [bs[0]] + rest;
    assert (rest + [c])[..|rest|] == rest;
    FoldFront(rol, xor, t, zero, bs[0], rest);
    FoldLinear(rol, xor, zero, t, zero, out, rest);
    assert RolBy(rol, out, |bs|) == rol(RolBy(rol, out, |rest|));
  }

  /** The hash from scratch: the table's word for each byte, rotated once for every byte that
      comes after it. */
  function FromFront<H>(rol: H -> H, xor: (H, H) -> H, zero: H, t: seq<H>, bs: seq<byte>): H
    requires |t| == 256
  {
    if bs == [] then zero
    else xor(FromFront(rol, xor, zero, t, bs[1..]), RolBy(rol, t[bs[0] as nat], |bs| - 1))
  }

  lemma {:induction false} FoldIsSum<H(!new)>(rol: H -> H, xor: (H, H) -> H, zero: H, t: seq<H>, bs: seq<byte>)
    requires |t| == 256 && Laws(rol, xor, zero)
    ensures Fold(rol, xor, t, zero, bs) == FromFront(rol, xor, zero, t, bs)
  {
    assert OpenLaws(0);
    if bs != [] {
      var rest, w := bs[1..], t[bs[0] as nat];
      FoldIsSum(rol, xor, zero, t, rest);
      assert bs == [bs[0]] + rest;
      FoldFront(rol, xor, t, zero, bs[0], rest);
      FoldLinear(rol, xor, zero, t, zero, w, rest);
    }
  }

  lemma {:induction false} RolSum<H>(rol: H -> H, h: H, a: nat, b: nat)
    ensures RolBy(rol, RolBy(rol, h, a), b) == RolBy(rol, h, a + b)
  {
    if b > 0 {
      RolSum(rol, h, a, b - 1);
    }
  }

  // ----- on 64 bits --------------------------------------------------------------------------------

  function Rol1(h: bv64): bv64 {
    (h << 1) | (h >> 63)
  }

  function Xor(a: bv64, b: bv64): bv64 {
    a ^ b
  }

  lemma BitsSpread()
    ensures Spreads(Rol1, Xor)
  {
  }

  lemma BitsCancel()
    ensures Cancels(Xor)
  {
  }

  lemma XorIs(a: bv64, b: bv64, x: bv64)
    requires x == a ^ b
    ensures Xor(a, b) == x
  {
  }

  lemma SwapBits(a: bv64, b: bv64, c: bv64, x: bv64, y: bv64, z: bv64)
    requires x == a ^ b && y == a ^ c && z == x ^ c
    ensures z == y ^ b
  {
  }

  lemma XorSwap(a: bv64, b: bv64, c: bv64)
    ensures Xor(Xor(a, b), c) == Xor(Xor(a, c), b)
  {
    var x, y := a ^ b, a ^ c;
    var z := x ^ c;
    SwapBits(a, b, c, x, y, z);
    XorIs(a, b, x);
    XorIs(a, c, y);
    XorIs(x, c, z);
    XorIs(y, b, z);
  }

  lemma BitsSwap()
    ensures Swaps(Xor)
  {
    forall a, b, c ensures Xor(Xor(a, b), c) == Xor(Xor(a, c), b) {
      XorSwap(a, b, c);
    }
  }

  lemma BitLaws()
    ensures Laws(Rol1, Xor, 0)
  {
    BitsSpread();
    BitsSwap();
    BitsCancel();
  }

  /** One step rotates by one bit. */
  lemma RotatesOne(h: bv64)
    ensures Rol1(h) == h.RotateLeft(1)
  {
  }

  /** Every bit moves up by one, and the highest to the lowest place. */
  lemma BitMoves(k: bv64)
    requires k < 64
    ensures Rol1(1 << k) == if k < 63 then 1 << (k + 1) else 1
  {
  }

  lemma Rol2(h: bv64)
    ensures RolBy(Rol1, h, 2) == (h << 2) | (h >> 62)
  {
    assert RolBy(Rol1, h, 1) == Rol1(h);
    assert RolBy(Rol1, h, 2) == Rol1(Rol1(h));
  }

  lemma Rol4(h: bv64)
    ensures RolBy(Rol1, h, 4) == (h << 4) | (h >> 60)
  {
    Rol2(h);
    Rol2(RolBy(Rol1, h, 2));
    RolSum(Rol1, h, 2, 2);
  }

  lemma Rol8(h: bv64)
    ensures RolBy(Rol1, h, 8) == (h << 8) | (h >> 56)
  {
    Rol4(h);
    Rol4(RolBy(Rol1, h, 4));
    RolSum(Rol1, h, 4, 4);
  }

  lemma Rol16(h: bv64)
    ensures RolBy(Rol1, h, 16) == (h << 16) | (h >> 48)
  {
    Rol8(h);
    Rol8(RolBy(Rol1, h, 8));
    RolSum(Rol1, h, 8, 8);
  }

  /** Swapping the halves is 32 rotations by one bit. */
  lemma Rol32(h: bv64)
    ensures RolBy(Rol1, h, WINDOW) == (h << 32) | (h >> 32)
  {
    Rol16(h);
    Rol16(RolBy(Rol1, h, 16));
    RolSum(Rol1, h, 16, 16);
  }

  type Table = t: seq<bv64> | |t| == 256 witness seq(256, _ => 0)

  ghost predicate OpenHash(k: nat) {
    true
  }

  /** h is the hash of the window that ends i bytes into the text after its first window. */
  ghost predicate Hashes(t: Table, text: seq<byte>, i: nat, h: bv64) {
    && i + WINDOW <= |text|
    && forall k: nat {:trigger OpenHash(k)} :: OpenHash(k) ==> h == Fold(Rol1, Xor, t, 0, text[i..i + WINDOW])
  }

  /** That window is a boundary. */
  ghost predicate HitAt(t: Table, text: seq<byte>, i: nat, mask: bv64, trigger: bv64)
    requires i + WINDOW <= |text|
  {
    exists h {:trigger Hashes(t, text, i, h)} :: Hashes(t, text, i, h) && h & mask == trigger
  }

  lemma HashUnique(t: Table, text: seq<byte>, i: nat, h: bv64, h': bv64)
    requires Hashes(t, text, i, h) && Hashes(t, text, i, h')
    ensures h == h'
  {
    assert OpenHash(0);
  }

  lemma HitIf(t: Table, text: seq<byte>, i: nat, h: bv64, mask: bv64, trigger: bv64)
    requires Hashes(t, text, i, h)
    ensures HitAt(t, text, i, mask, trigger) <==> h & mask == trigger
  {
    if HitAt(t, text, i, mask, trigger) {
      var h' :| Hashes(t, text, i, h') && h' & mask == trigger;
      HashUnique(t, text, i, h, h');
    }
  }

  /** A hit depends on its window only. */
  lemma HitSame(t: Table, text: seq<byte>, i: nat, text': seq<byte>, i': nat, mask: bv64, trigger: bv64)
    requires i + WINDOW <= |text| && i' + WINDOW <= |text'|
    requires text[i..i + WINDOW] == text'[i'..i' + WINDOW]
    ensures HitAt(t, text, i, mask, trigger) <==> HitAt(t, text', i', mask, trigger)
  {
    var h := Fold(Rol1, Xor, t, 0, text[i..i + WINDOW]);
    assert OpenHash(0);
    assert Hashes(t, text, i, h) && Hashes(t, text', i', h);
    HitIf(t, text, i, h, mask, trigger);
    HitIf(t, text', i', h, mask, trigger);
  }

  /** A run that goes on from its history hits where one run over the whole would. */
  lemma HitsContinue(t: Table, first: seq<byte>, b1: seq<byte>, b2: seq<byte>, i: nat, mask: bv64, trigger: bv64)
    requires |first| == WINDOW && i <= |b2|
    ensures HitAt(t, (first + b1)[|b1|..] + b2, i, mask, trigger)
            <==> HitAt(t, first + b1 + b2, |b1| + i, mask, trigger)
  {
    var text, text' := first + b1 + b2, (first + b1)[|b1|..] + b2;
    assert text == (first + b1)[..|b1|] + text';
    assert text[|b1| + i..|b1| + i + WINDOW] == text'[i..i + WINDOW];
    HitSame(t, text', i, text, |b1| + i, mask, trigger);
  }

  ghost predicate NoHit(t: Table, text: seq<byte>, n: nat, mask: bv64, trigger: bv64)
    requires n + WINDOW <= |text|
  {
    forall i | 1 <= i <= n :: !HitAt(t, text, i, mask, trigger)
  }

  lemma SlideText<H(!new)>(rol: H -> H, xor: (H, H) -> H, zero: H, t: seq<H>, text: seq<byte>, i: nat, h: H, h': H)
    requires |t| == 256 && Laws(rol, xor, zero) && i + WINDOW < |text|
    requires h == Fold(rol, xor, t, zero, text[i..i + WINDOW])
    requires h' == xor(xor(rol(h), t[text[i + WINDOW] as nat]), RolBy(rol, t[text[i] as nat], WINDOW))
    ensures h' == Fold(rol, xor, t, zero, text[i + 1..i + 1 + WINDOW])
  {
    var bs := text[i..i + WINDOW];
    assert bs[1..] + [text[i + WINDOW]] == text[i + 1..i + 1 + WINDOW];
    Slide(rol, xor, zero, t, bs, text[i + WINDOW]);
  }

  lemma Slid(t: Table, text: seq<byte>, i: nat, h: bv64, h': bv64)
    requires i + WINDOW < |text| && Hashes(t, text, i, h)
    requires h' == Xor(Xor(Rol1(h), t[text[i + WINDOW] as nat]), RolBy(Rol1, t[text[i] as nat], WINDOW))
    ensures Hashes(t, text, i + 1, h')
  {
    assert OpenHash(0);
    BitLaws();
    SlideText(Rol1, Xor, 0, t, text, i, h, h');
  }

  /** struct rh_state2 */
  class State {
    const table1: Table
    var table2: seq<bv64>
    var hash: bv64
    const history: array<byte>

    ghost predicate Ready()
      reads this
    {
      && |table2| == 256 && history.Length == MAX_WINDOW
      && forall b | 0 <= b < 256 :: table2[b] == RolBy(Rol1, table1[b], WINDOW)
    }

    ghost predicate Valid()
      reads this, history
    {
      Ready() && Hashes(table1, history[..WINDOW], 0, hash)
    }

    /** rolling_hash2_init */
    constructor (t: Table)
      ensures Ready() && table1 == t && fresh(history)
    {
      table1, hash := t, 0;
      history := new byte[MAX_WINDOW](_ => 0);
      table2 := [];
      new;
      for i := 0 to 256
        invariant |table2| == i && forall b | 0 <= b < i :: table2[b] == RolBy(Rol1, table1[b], WINDOW)
      {
        var v := Rotated(table1[i]);
        table2 := table2 + [v];
      }
    }

    static method Rotated(v: bv64) returns (r: bv64)
      ensures r == RolBy(Rol1, v, WINDOW)
    {
      Rol32(v);
      r := (v << 32) | (v >> 32);
    }

    /** rolling_hash2_reset */
    method Reset(bytes: seq<byte>)
      requires Ready() && |bytes| == WINDOW
      modifies this`hash, history
      ensures Valid() && history[..WINDOW] == bytes
    {
      var h := HashAll(bytes);
      assert OpenHash(0);
      assert bytes[0..WINDOW] == bytes;
      forall i | 0 <= i < WINDOW {
        history[i] := bytes[i];
      }
      hash := h;
      assert history[..WINDOW] == bytes;
    }

    method HashAll(bytes: seq<byte>) returns (h: bv64)
      ensures h == Fold(Rol1, Xor, table1, 0, bytes)
    {
      h := 0;
      for i := 0 to |bytes|
        invariant h == Fold(Rol1, Xor, table1, 0, bytes[..i])
      {
        assert bytes[..i + 1][..i] == bytes[..i];
        h := (h << 1) | (h >> 63);
        h := h ^ table1[bytes[i] as nat];
      }
      assert bytes[..|bytes|] == bytes;
    }

    /** hash_fn: from one window of the text to the next. */
    method HashFn(h: bv64, new': byte, old': byte, ghost text: seq<byte>, ghost i: nat) returns (h': bv64)
      requires Ready() && i + WINDOW < |text| && Hashes(table1, text, i, h)
      requires old' == text[i] && new' == text[i + WINDOW]
      ensures Hashes(table1, text, i + 1, h')
    {
      h' := Mix(h, table1[new' as nat], table2[old' as nat]);
      Slid(table1, text, i, h, h');
    }

    method Mix(h: bv64, a: bv64, b: bv64) returns (h': bv64)
      ensures h' == Xor(Xor(Rol1(h), a), b)
    {
      h' := (h << 1) | (h >> 63);
      h' := h' ^ (a ^ b);
    }

    /** The history once i bytes of the buffer have passed, for i up to the window. */
    method Shift(buffer: seq<byte>, i: nat)
      requires history.Length == MAX_WINDOW && i <= WINDOW && i <= |buffer|
      modifies history
      ensures history[..WINDOW] == (old(history[..WINDOW]) + buffer)[i..i + WINDOW]
    {
      ghost var text := history[..WINDOW] + buffer;
      forall k | 0 <= k < WINDOW - i {
        history[k] := history[k + i];
      }
      forall k | 0 <= k < i {
        history[WINDOW - i + k] := buffer[k];
      }
      assert forall k | 0 <= k < WINDOW :: history[k] == text[i + k];
    }

    /** rolling_hash2_run: the first hit within length bytes of the buffer, continuing from
        the history. */
    method Run(buffer: seq<byte>, length: nat, mask: bv64, trigger: bv64) returns (hit: bool, offset: nat)
      requires Valid() && length <= |buffer|
      modifies this`hash, history
      ensures var text := old(history[..WINDOW]) + buffer;
              && offset <= length && Valid() && history[..WINDOW] == text[offset..offset + WINDOW]
              && (hit ==> && 1 <= offset && HitAt(table1, text, offset, mask, trigger)
                          && NoHit(table1, text, offset - 1, mask, trigger))
              && (!hit ==> offset == length && NoHit(table1, text, length, mask, trigger))
    {
      ghost var text := history[..WINDOW] + buffer;
      var h;
      hit, offset, h := RunHistory(buffer, length, mask, trigger);
      if hit || offset < WINDOW {
        Shift(buffer, offset);
      } else {
        hit, offset, h := RunUntil(buffer, offset, length, h, mask, trigger, text);
        forall k | 0 <= k < WINDOW {
          history[k] := buffer[offset - WINDOW + k];
        }
        assert history[..WINDOW] == text[offset..offset + WINDOW];
      }
      hash := h;
      Moved(table1, text, history[..WINDOW], offset, h);
    }

    /** Its first loop, while bytes of the history leave the window. */
    method RunHistory(buffer: seq<byte>, length: nat, mask: bv64, trigger: bv64) returns (hit: bool, i: nat, h: bv64)
      requires Valid() && length <= |buffer|
      ensures var text := history[..WINDOW] + buffer;
              && i <= length && i <= WINDOW && Hashes(table1, text, i, h)
              && (hit ==> 1 <= i && HitAt(table1, text, i, mask, trigger) && NoHit(table1, text, i - 1, mask, trigger))
              && (!hit ==> (i == length || i == WINDOW) && NoHit(table1, text, i, mask, trigger))
    {
      ghost var text := history[..WINDOW] + buffer;
      i, h, hit := 0, hash, false;
      Moved(table1, history[..WINDOW], text, 0, h);
      while i < WINDOW
        invariant i <= WINDOW && i <= length && Hashes(table1, text, i, h) && !hit
        invariant NoHit(table1, text, i, mask, trigger)
      {
        if i == length {
          return;
        }
        h := HashFn(h, buffer[i], history[i], text, i);
        i := i + 1;
        HitIf(table1, text, i, h, mask, trigger);
        if h & mask == trigger {
          hit := true;
          return;
        }
      }
    }

    /** rolling_hash2_run_until_base from index i on, with the step past the hit that its
        caller takes. */
    method RunUntil(buffer: seq<byte>, i0: nat, length: nat, h0: bv64, mask: bv64, trigger: bv64, ghost text: seq<byte>)
      returns (hit: bool, i: nat, h: bv64)
      requires Ready() && WINDOW <= i0 <= length <= |buffer| && |text| == |buffer| + WINDOW && text[WINDOW..] == buffer
      requires Hashes(table1, text, i0, h0) && NoHit(table1, text, i0, mask, trigger)
      ensures i0 <= i <= length && Hashes(table1, text, i, h)
      ensures hit ==> i0 < i && HitAt(table1, text, i, mask, trigger) && NoHit(table1, text, i - 1, mask, trigger)
      ensures !hit ==> i == length && NoHit(table1, text, length, mask, trigger)
    {
      i, h, hit := i0, h0, false;
      while i < length
        invariant i0 <= i <= length && Hashes(table1, text, i, h) && !hit
        invariant NoHit(table1, text, i, mask, trigger)
      {
        assert text[i] == text[WINDOW..][i - WINDOW] && text[i + WINDOW] == text[WINDOW..][i];
        h := HashFn(h, buffer[i], buffer[i - WINDOW], text, i);
        i := i + 1;
        HitIf(table1, text, i, h, mask, trigger);
        if h & mask == trigger {
          hit := true;
          return;
        }
      }
    }
  }

  /** The same window elsewhere: in the history, from a text. */
  lemma Moved(t: Table, text: seq<byte>, text': seq<byte>, i: nat, h: bv64)
    requires Hashes(t, text, i, h)
    requires |text'| >= WINDOW && text'[..WINDOW] == text[i..i + WINDOW]
    ensures Hashes(t, text', 0, h)
  {
    assert OpenHash(0);
    assert text'[0..0 + WINDOW] == text'[..WINDOW];
  }
}
