/** How long a chunk is certainly kept: until the bytes inserted after it have gone once
    round the slab, less the largest chunk and a few headers. */
module RingRetention {
  import opened Types
  import opened Ring
  import opened RingInvariant
  import opened RingMap
  import opened RingTheorems
  import opened RingRuns
  import opened CellParts

  /** The least offset from which next goes back to 0, while there are no more than m overflow
      records. */
  function Lap(geo: Geometry, m: nat): int {
    geo.space - geo.maxChunk - 2 * ENTRY_SIZE - RECORD_SIZE * (m + 1)
  }

  /** How far the entry e lies ahead of next, round the ring. */
  function Ahead(s: State, e: Entry, m: nat): int {
    var a := s.Boundary(s.next);
    if e.off >= a then e.off - a else Lap(s.geo, m) - a + e.off
  }

  /** An insertion of n bytes has no room for its record unless the entry below the top goes. */
  ghost predicate LacksRoom(s: State, n: nat) {
    var s0 := Rewind(s, n);
    s0.next < |s.entries| && RoomForRecord(s0, n) < RECORD_SIZE
  }

  // ----- one insertion -----------------------------------------------------------------------------

  lemma IndexOf(s: State, e: Entry) returns (q: nat)
    requires Inv(s) && e in s.entries
    ensures q < |s.entries| && s.entries[q] == e
    ensures forall i | 0 <= i <= |s.entries| :: if i <= q then s.Boundary(i) <= e.off else e.End() <= s.Boundary(i)
  {
    CoreChain(s, {});
    q :| 0 <= q < |s.entries| && s.entries[q] == e;
    forall i | 0 <= i <= |s.entries|
      ensures if i <= q then s.Boundary(i) <= e.off else e.End() <= s.Boundary(i)
    {
      if i <= q {
        BoundaryOrder(s, i, q);
      } else {
        BoundaryOrder(s, q, i);
      }
    }
  }

  /** Going back to 0 brings next no nearer. */
  lemma RewindKeepsAhead(s: State, n: nat, e: Entry, m: nat)
    requires Inv(s) && n <= s.geo.maxChunk && |s.dir.overflow| <= m && e in s.entries
    ensures Ahead(s, e, m) <= Ahead(Rewind(s, n), e, m)
  {
    var q := IndexOf(s, e);
    CoreChain(s, {});
  }

  /** What the walk evicts begins less than n bytes and two headers past next. */
  lemma VictimsAreNear(s: State, n: nat, q: nat, m: nat)
    requires Tiled(s.entries, s.top) && s.next < |s.entries| && s.next <= q < VictimEnd(s, n)
    ensures Ahead(s, s.entries[q], m) < n + 2 * ENTRY_SIZE
  {
    if q > s.next {
      BoundaryOrder(s, s.next, q);
      VictimsShortest(s, n, q);
      assert s.entries[q - 1].End() == s.entries[q].off;
    }
  }

  /** Where next stands afterwards. */
  lemma NextMoves(r: Outcome, s: State, key: Checksum, data: seq<byte>, lo: nat, hi: nat, n: nat, mid: seq<Entry>)
    requires ShapedBy(r, s, key, data, lo, hi, n, mid) && Inv(r.state)
    requires Tiled(s.entries, s.top)
    ensures r.state.Boundary(r.state.next) == s.Boundary(lo) + if r.Stored? then ENTRY_SIZE + |data| else 0
  {
    var s' := r.state;
    CoreChain(s', {});
    if lo > 0 {
      assert s'.entries[lo - 1] == s.entries[lo - 1];
      assert s'.entries[lo - 1].End() == s'.Boundary(lo);
      assert s.entries[lo - 1].End() == s.Boundary(lo);
    }
    if r.Stored? {
      assert s'.entries[lo] == mid[0];
      assert s'.entries[lo].End() == s'.Boundary(lo + 1);
    }
  }

  lemma NotEvicted(s: State, n: nat, e: Entry, q: nat, m: nat)
    requires Inv(s) && n <= s.geo.maxChunk && |s.dir.overflow| <= m && q < |s.entries| && s.entries[q] == e
    requires Ahead(s, e, m) >= n + 2 * ENTRY_SIZE
    ensures var s0 := Rewind(s, n); q < s0.next || (s0.next < |s.entries| && VictimEnd(s0, n) <= q)
  {
    var s0 := Rewind(s, n);
    CoreChain(s, {});
    RewindKeepsAhead(s, n, e, m);
    if s0.next <= q < VictimEnd(s0, n) {
      VictimsAreNear(s0, n, q, m);
    }
  }

  lemma KeptOrLast(es: seq<Entry>, entries: seq<Entry>, lo: nat, hi: nat, n: nat, mid: seq<Entry>, q: nat)
    requires Shaped(es, entries, lo, hi, n, mid) && q < |entries| && (q < lo || hi <= q)
    ensures entries[q] in es || (q == |entries| - 1 && n < |entries|)
  {
    BesideKept(es, entries, lo, hi, n, mid);
  }

  /** An entry further ahead than the new chunk and two headers stays, unless it is the one
      deleted below the top. */
  lemma Survives(s: State, key: Checksum, data: seq<byte>, r: Outcome, e: Entry, m: nat)
    requires Yields(s, key, data, r) && !r.Aborted? && |s.dir.overflow| <= m
    requires e in s.entries && Ahead(s, e, m) >= |data| + 2 * ENTRY_SIZE
    ensures e in r.state.entries || (e == s.entries[|s.entries| - 1] && LacksRoom(s, |data|))
  {
    var lo, hi, n, mid := InsertShape(s, key, data, r);
    var q := IndexOf(s, e);
    NotEvicted(s, |data|, e, q, m);
    KeptOrLast(r.state.entries, s.entries, lo, hi, n, mid, q);
  }

  /** And next comes nearer to it by the new entry at most. */
  lemma ComesNearer(s: State, key: Checksum, data: seq<byte>, r: Outcome, e: Entry, m: nat)
    requires Yields(s, key, data, r) && !r.Aborted? && |s.dir.overflow| <= m
    requires e in s.entries && Ahead(s, e, m) >= |data| + 2 * ENTRY_SIZE
    ensures Ahead(r.state, e, m) >= Ahead(s, e, m) - (|data| + ENTRY_SIZE)
  {
    InsertKeepsInv(s, key, data, r);
    CoreChain(s, {});
    var lo, hi, n, mid := InsertShape(s, key, data, r);
    NextMoves(r, s, key, data, lo, hi, n, mid);
    RewindKeepsAhead(s, |data|, e, m);
  }

  /** A chunk just stored is a whole lap ahead but for itself. */
  lemma FreshIsFar(s: State, key: Checksum, data: seq<byte>, r: Outcome, m: nat) returns (e: Entry)
    requires Yields(s, key, data, r) && r.Stored?
    ensures e in r.state.entries && e.Used? && e.key == key && e.data == data
    ensures Ahead(r.state, e, m) == Lap(s.geo, m) - ENTRY_SIZE - |data|
  {
    InsertKeepsInv(s, key, data, r);
    KeepsGeometry(s, key, data, r);
    InsertExplained(s, key, data, r);
    e := r.state.entries[r.state.next - 1];
    CoreChain(r.state, {});
    assert e.End() == r.state.Boundary(r.state.next);
  }

  // ----- runs ----------------------------------------------------------------------------------------

  /** Slab bytes taken by the chunks after chunk i; those that were there take none. */
  ghost function Spent(geo: Geometry, cs: seq<Chunk>, i: nat): nat
    decreases |cs|
  {
    if |cs| <= i + 1 then 0
    else Spent(geo, cs[..|cs| - 1], i) + SpentOn(geo, cs)
  }

  /** Slab bytes taken by the last chunk. */
  ghost function SpentOn(geo: Geometry, cs: seq<Chunk>): nat
    requires cs != []
  {
    if Skips(geo, cs) then 0 else ENTRY_SIZE + |cs[|cs| - 1].data|
  }

  ghost predicate OpenSteps(k: nat) {
    true
  }

  /** The last chunk was there already. */
  ghost predicate Skips(geo: Geometry, cs: seq<Chunk>)
    requires cs != []
  {
    forall k: nat {:trigger OpenSteps(k)} :: OpenSteps(k) ==>
      exists before :: Reaches(geo, cs[..|cs| - 1], before) && cs[|cs| - 1].key in before.dir.at
  }

  /** The chunks after chunk i take d bytes at most. */
  ghost predicate SpendsAtMost(geo: Geometry, cs: seq<Chunk>, i: nat, d: int) {
    forall k: nat {:trigger OpenSteps(k)} :: OpenSteps(k) ==> Spent(geo, cs, i) <= d
  }

  /** Every insertion after chunk i meets at most m overflow records and room for its own. */
  ghost predicate Roomy(geo: Geometry, cs: seq<Chunk>, i: nat, m: nat) {
    forall k: nat {:trigger OpenSteps(k)} :: OpenSteps(k) ==>
      forall j, s | i < j < |cs| && Reaches(geo, cs[..j], s) ::
        |s.dir.overflow| <= m && (cs[j].key !in s.dir.at ==> !LacksRoom(s, |cs[j].data|))
  }

  lemma RoomyBefore(geo: Geometry, cs: seq<Chunk>, i: nat, m: nat)
    requires Roomy(geo, cs, i, m) && cs != []
    ensures Roomy(geo, cs[..|cs| - 1], i, m)
  {
    assert OpenSteps(0);
    var n := |cs| - 1;
    assert forall j | 0 <= j <= n :: cs[..n][..j] == cs[..j];
  }

  /** Chunk i is at least so far ahead at the end of the run. */
  lemma {:induction false} StillAhead(geo: Geometry, cs: seq<Chunk>, i: nat, s: State, m: nat) returns (e: Entry)
    requires Reaches(geo, cs, s) && i < |cs| && StoredAt(geo, cs, i) && Roomy(geo, cs, i, m)
    requires Spent(geo, cs, i) <= Lap(geo, m) - |cs[i].data| - 2 * ENTRY_SIZE
    ensures IsAhead(s, cs[i], e, m, Lap(geo, m) - |cs[i].data| - ENTRY_SIZE - Spent(geo, cs, i))
    decreases |cs|
  {
    var n := |cs| - 1;
    if n == i {
      e := StoredNow(geo, cs, s, m);
    } else {
      var before, r := LastStep(geo, cs, s);
      RoomyBefore(geo, cs, i, m);
      StoredBefore(geo, cs, n, i);
      e := StillAhead(geo, cs[..n], i, before, m);
      StepAhead(geo, cs, i, before, s, e, m, Lap(geo, m) - |cs[i].data| - ENTRY_SIZE - Spent(geo, cs[..n], i));
    }
  }

  /** The entry e holds the chunk c and is at least d ahead. */
  ghost predicate IsAhead(s: State, c: Chunk, e: Entry, m: nat, d: int) {
    e in s.entries && e.Used? && e.key == c.key && e.data == c.data && Ahead(s, e, m) >= d
  }

  lemma StoredNow(geo: Geometry, cs: seq<Chunk>, s: State, m: nat) returns (e: Entry)
    requires Reaches(geo, cs, s) && cs != [] && StoredAt(geo, cs, |cs| - 1)
    ensures var c := cs[|cs| - 1]; IsAhead(s, c, e, m, Lap(geo, m) - |c.data| - ENTRY_SIZE)
  {
    var n := |cs| - 1;
    var before, r := LastStep(geo, cs, s);
    assert OpenStored(0);
    var before', r' :| Reaches(geo, cs[..n], before') && Yields(before', cs[n].key, cs[n].data, r') && r'.Stored?;
    ReachesOne(geo, cs[..n], before, before');
    OneOutcome(before, cs[n].key, cs[n].data, r, r');
    ReachesInv(geo, cs[..n], before);
    e := FreshIsFar(before, cs[n].key, cs[n].data, r, m);
  }

  lemma StepAhead(geo: Geometry, cs: seq<Chunk>, i: nat, before: State, s: State, e: Entry, m: nat, d: int)
    requires i + 1 < |cs| && Roomy(geo, cs, i, m) && Reaches(geo, cs[..|cs| - 1], before) && Reaches(geo, cs, s)
    requires IsAhead(before, cs[i], e, m, d)
    requires d >= SpentOn(geo, cs) + ENTRY_SIZE
    ensures IsAhead(s, cs[i], e, m, d - SpentOn(geo, cs))
  {
    assert OpenSteps(0);
    var before', r := LastStep(geo, cs, s);
    ReachesOne(geo, cs[..|cs| - 1], before, before');
    var c := cs[|cs| - 1];
    if c.key !in before.dir.at {
      NotSkipped(geo, cs, before);
      Survives(before, c.key, c.data, r, e, m);
      ComesNearer(before, c.key, c.data, r, e, m);
    }
  }

  lemma NotSkipped(geo: Geometry, cs: seq<Chunk>, before: State)
    requires cs != [] && Reaches(geo, cs[..|cs| - 1], before) && cs[|cs| - 1].key !in before.dir.at
    ensures !Skips(geo, cs)
  {
    assert OpenSteps(0);
    var cs' := cs[..|cs| - 1];
    forall s | Reaches(geo, cs', s) ensures s == before {
      ReachesOne(geo, cs', s, before);
    }
  }

  /** A stored chunk is still there, with its bytes, as long as the bytes inserted after it
      leave two headers of a lap less its own bytes. */
  lemma Retained(geo: Geometry, cs: seq<Chunk>, i: nat, s: State, m: nat)
    requires Reaches(geo, cs, s) && i < |cs| && StoredAt(geo, cs, i) && Roomy(geo, cs, i, m)
    requires SpendsAtMost(geo, cs, i, Lap(geo, m) - |cs[i].data| - 2 * ENTRY_SIZE)
    ensures cs[i].key in Contents(s.entries) && Contents(s.entries)[cs[i].key] == cs[i].data
  {
    assert OpenSteps(0);
    var e := StillAhead(geo, cs, i, s, m);
    ReachesInv(geo, cs, s);
    CoreKeys(s, {});
    var q := IndexOf(s, e);
    ContentsAt(s.entries, q);
  }

  // ----- calm runs -----------------------------------------------------------------------------------

  lemma CalmHasRoom(s: State, n: nat)
    requires Calm(s)
    ensures !LacksRoom(s, n)
  {
    var s0 := Rewind(s, n);
    if s0.next < |s.entries| {
      assert Without(s0, VictimEnd(s0, n)).overflow == {};
    }
  }

  lemma ReachesAccepted(geo: Geometry, cs: seq<Chunk>, s: State)
    requires Reaches(geo, cs, s)
    ensures geo.Valid() && Accepted(geo, cs)
  {
    assert OpenRun(0);
  }

  /** If no block ever has more than three of the checksums in the cell, that is so for every
      stored chunk, with no overflow records to allow for. */
  lemma CalmRetained(geo: Geometry, cs: seq<Chunk>, i: nat, s: State)
    requires Reaches(geo, cs, s) && i < |cs| && StoredAt(geo, cs, i)
    requires forall j, s' | 0 <= j <= |cs| && Reaches(geo, cs[..j], s') :: FewPerBlock(s')
    requires SpendsAtMost(geo, cs, i, geo.space - geo.maxChunk - |cs[i].data| - 180)
    ensures cs[i].key in Contents(s.entries) && Contents(s.entries)[cs[i].key] == cs[i].data
  {
    ReachesAccepted(geo, cs, s);
    CalmIsRoomy(geo, cs, i);
    Retained(geo, cs, i, s, 0);
  }

  lemma CalmIsRoomy(geo: Geometry, cs: seq<Chunk>, i: nat)
    requires geo.Valid() && Accepted(geo, cs)
    requires forall j, s' | 0 <= j <= |cs| && Reaches(geo, cs[..j], s') :: FewPerBlock(s')
    ensures Roomy(geo, cs, i, 0)
  {
    forall j, t | i < j < |cs| && Reaches(geo, cs[..j], t)
      ensures |t.dir.overflow| <= 0 && (cs[j].key !in t.dir.at ==> !LacksRoom(t, |cs[j].data|))
    {
      assert forall l | 0 <= l <= j :: cs[..j][..l] == cs[..l];
      var t' := CalmRun(geo, cs[..j]);
      ReachesOne(geo, cs[..j], t, t');
      CalmHasRoom(t, |cs[j].data|);
    }
  }
}
