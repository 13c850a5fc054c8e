/** Slab memory. A slot is one byte of the slab: a payload byte, the first byte of a
    header or directory record (which then carries the whole structure), or one of the
    bytes that follow it. Structures that overlap therefore destroy each other. */
module Slab {
  import opened Types

  datatype Slot =
    | Byte(b: byte)
    | Head(key: Checksum, free: bool, top: bool, size: nat, prev: nat)
    | Record(entry: DirEntry)
    | Rest

  /** What follows the first byte of a header or record. */
  function Tail(): (t: seq<Slot>)
    ensures |t| == ENTRY_SIZE - 1
  {
    seq(ENTRY_SIZE - 1, _ => Rest)
  }

  function Image(first: Slot): (img: seq<Slot>)
    ensures |img| == ENTRY_SIZE && img[0] == first
  {
    [first] + Tail()
  }

  function Payload(data: seq<byte>): (p: seq<Slot>)
    ensures |p| == |data|
  {
    seq(|data|, i requires 0 <= i < |data| => Byte(data[i]))
  }

  /** Memory with xs written at p. */
  function Write(mem: seq<Slot>, p: nat, xs: seq<Slot>): (r: seq<Slot>)
    requires p + |xs| <= |mem|
    ensures |r| == |mem|
  {
    seq(|mem|, i requires 0 <= i < |mem| => if p <= i < p + |xs| then xs[i - p] else mem[i])
  }

  lemma WriteReads(mem: seq<Slot>, p: nat, xs: seq<Slot>)
    requires p + |xs| <= |mem|
    ensures Write(mem, p, xs)[p..p + |xs|] == xs
  {
  }

  /** A write leaves every range beside it alone. */
  lemma WriteKeeps(mem: seq<Slot>, p: nat, xs: seq<Slot>, lo: nat, hi: nat)
    requires p + |xs| <= |mem| && lo <= hi <= |mem| && (hi <= p || p + |xs| <= lo)
    ensures Write(mem, p, xs)[lo..hi] == mem[lo..hi]
  {
  }

  /** Some conditions below are written as a quantifier over k whose only trigger is one of
      these, so that they are carried from state to state as they stand. Asserting the
      trigger at 0 unfolds them. */
  ghost predicate OpenBelow(k: nat) {
    true
  }

  /** Memory unchanged below n. */
  ghost predicate SameBelow(mem: seq<Slot>, mem': seq<Slot>, n: nat) {
    |mem| == |mem'| && n <= |mem| && forall k: nat {:trigger OpenBelow(k)} :: OpenBelow(k) ==> mem[..n] == mem'[..n]
  }

  lemma SameBelowTrans(a: seq<Slot>, b: seq<Slot>, c: seq<Slot>, m: nat, n: nat)
    requires SameBelow(a, b, m) && SameBelow(b, c, n)
    ensures SameBelow(a, c, if m <= n then m else n)
  {
    assert OpenBelow(0);
    var k := if m <= n then m else n;
    assert a[..k] == a[..m][..k] && b[..k] == b[..m][..k] && b[..k] == b[..n][..k] && c[..k] == c[..n][..k];
  }

  lemma WriteKeepsBelow(mem: seq<Slot>, p: nat, xs: seq<Slot>, n: nat)
    requires n <= p && p + |xs| <= |mem|
    ensures SameBelow(mem, Write(mem, p, xs), n)
  {
  }

  /** Memory unchanged below n is unchanged in every range below n. */
  lemma PrefixKeeps(mem: seq<Slot>, mem': seq<Slot>, n: nat, lo: nat, hi: nat)
    requires SameBelow(mem, mem', n) && lo <= hi <= n
    ensures mem[lo..hi] == mem'[lo..hi]
  {
    assert OpenBelow(0);
    assert mem[lo..hi] == mem[..n][lo..hi];
    assert mem'[lo..hi] == mem'[..n][lo..hi];
  }

  /** Memory unchanged but for p..q. */
  ghost predicate SameBut(mem: seq<Slot>, mem': seq<Slot>, p: nat, q: nat) {
    |mem| == |mem'| && p <= q <= |mem| &&
    forall k: nat {:trigger OpenBelow(k)} :: OpenBelow(k) ==> mem[..p] == mem'[..p] && mem[q..] == mem'[q..]
  }

  lemma ButKeeps(mem: seq<Slot>, mem': seq<Slot>, p: nat, q: nat, lo: nat, hi: nat)
    requires SameBut(mem, mem', p, q) && lo <= hi <= |mem| && (hi <= p || q <= lo)
    ensures mem[lo..hi] == mem'[lo..hi]
  {
    assert OpenBelow(0);
    forall i | lo <= i < hi ensures mem[i] == mem'[i] {
      if hi <= p {
        assert mem[i] == mem[..p][i] && mem'[i] == mem'[..p][i];
      } else {
        assert mem[i] == mem[q..][i - q] && mem'[i] == mem'[q..][i - q];
      }
    }
  }

  lemma WriteTwiceBut(mem: seq<Slot>, p: nat, xs: seq<Slot>, ys: seq<Slot>)
    requires p + |xs| + |ys| <= |mem|
    ensures SameBut(mem, Write(Write(mem, p, xs), p + |xs|, ys), p, p + |xs| + |ys|)
  {
  }

  method WriteSlots(slab: array<Slot>, p: nat, xs: seq<Slot>)
    requires p + |xs| <= slab.Length
    modifies slab
    ensures slab[..] == Write(old(slab[..]), p, xs)
  {
    forall i | 0 <= i < |xs| {
      slab[p + i] := xs[i];
    }
  }
}
