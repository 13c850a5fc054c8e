/** Exactly what an insertion does, in terms of offsets and sizes: where it starts, which run of
    entries it evicts, and what the cell is afterwards. */
module RingExact {
  import opened Types
  import opened Ring
  import opened RingInvariant
  import opened RingTheorems
  import opened CellParts

  /** Where an insertion of n bytes starts: at next, or at 0 if next is the top and there is no
      room above it for the entry, another top and a record. */
  function Start(s: State, n: nat): nat {
    if s.next == |s.entries|
       && s.geo.space < s.top + 2 * ENTRY_SIZE + RECORD_SIZE * (|s.dir.overflow| + 1) + n
    then 0 else s.next
  }

  /** The run of entries from i that an insertion of n bytes evicts when it does not reach the
      top: an entry of n bytes alone, or the fewest entries with room for n bytes and the header
      of a remainder. */
  ghost predicate IsRun(s: State, i: nat, hi: nat, n: nat)
    requires i < hi <= |s.entries|
  {
    var need := s.entries[i].off + 2 * ENTRY_SIZE + n;
    if s.entries[i].Size() == n then hi == i + 1
    else && hi < |s.entries| && s.entries[hi - 1].End() >= need
         && forall k | i <= k < hi - 1 :: s.entries[k].End() < need
  }

  /** When the entry at i has not n bytes, and the last entry begins too low, the run from i
      reaches the top. */
  predicate ReachesTop(s: State, i: nat, n: nat)
    requires i < |s.entries|
  {
    var m := |s.entries|;
    s.entries[i].Size() != n && (i + 1 == m || s.entries[m - 1].off < s.entries[i].off + 2 * ENTRY_SIZE + n)
  }

  /** The new entry over the run from i to hi, and a free entry over what is left of it. */
  ghost function NewEntries(s: State, i: nat, hi: nat, key: Checksum, data: seq<byte>): seq<Entry>
    requires i < hi <= |s.entries| && IsRun(s, i, hi, |data|)
  {
    var off := s.entries[i].off;
    var end := off + ENTRY_SIZE + |data|;
    if s.entries[i].Size() == |data| then [Used(off, key, data, s.clock)]
    else [Used(off, key, data, s.clock), Free(end, s.entries[hi - 1].End() - end - ENTRY_SIZE)]
  }

  /** With next at the top and room above it the chunk becomes the entry below the top. */
  lemma AppendStep(s: State, key: Checksum, data: seq<byte>, r: Outcome)
    requires Yields(s, key, data, r) && Start(s, |data|) == |s.entries|
    ensures r == Stored(s.(entries := s.entries + [Used(s.top, key, data, s.clock)],
                           top := s.top + ENTRY_SIZE + |data|, next := s.next + 1,
                           clock := s.clock + 1, dir := s.dir.Add(key, s.top)))
  {
    assert OpenInsert(0);
    InsertUnfolds(s, key, data);
  }

  /** An entry of the same size where the insertion starts is replaced, if there is room for a record. */
  lemma SameStep(s: State, key: Checksum, data: seq<byte>, r: Outcome)
    requires Yields(s, key, data, r)
    requires var i := Rewind(s, |data|).next;
             && i < |s.entries| && s.entries[i].Used? && |s.entries[i].data| == |data|
             && RoomOver(s, s.dir.Remove({s.entries[i].key})) >= RECORD_SIZE
    ensures var i := Rewind(s, |data|).next; var e := s.entries[i];
            r == Stored(s.(entries := s.entries[i := Used(e.off, key, data, s.clock)], next := i + 1,
                           clock := s.clock + 1, dir := s.dir.Remove({e.key}).Add(key, e.off)))
  {
    assert OpenInsert(0);
    InsertUnfolds(s, key, data);
    SameAt(Rewind(s, |data|), key, data);
  }

  lemma SameAt(s: State, key: Checksum, data: seq<byte>)
    requires s.next < |s.entries| && s.entries[s.next].Used? && |s.entries[s.next].data| == |data|
    requires RoomOver(s, s.dir.Remove({s.entries[s.next].key})) >= RECORD_SIZE
    ensures var r, e := InsertAt(s, key, data), s.entries[s.next];
            && r.Stored?
            && r.state == s.(entries := s.entries[s.next := Used(e.off, key, data, s.clock)], next := s.next + 1,
                             clock := s.clock + 1, dir := s.dir.Remove({e.key}).Add(key, e.off))
  {
    var i := s.next;
    assert s.entries[i..i + 1] == [s.entries[i]];
    assert KeysOf([s.entries[i]]) == {s.entries[i].key};
    assert s.entries[..i] + [Used(s.entries[i].off, key, data, s.clock)] + s.entries[i + 1..]
           == s.entries[i := Used(s.entries[i].off, key, data, s.clock)];
  }

  /** The walk finds that run. */
  lemma RunFound(s: State, hi: nat, n: nat)
    requires s.next < hi <= |s.entries| && IsRun(s, s.next, hi, n)
    ensures VictimEnd(s, n) == hi && !Truncates(s, n)
  {
    var j := VictimEnd(s, n);
    if s.entries[s.next].Size() != n && hi < j {
      VictimsShortest(s, n, hi);
    }
  }

  lemma RunStopsBefore(s: State, n: nat)
    requires Tiled(s.entries, s.top) && s.next < |s.entries| && s.entries[s.next].Size() != n
    requires VictimEnd(s, n) < |s.entries|
    ensures s.entries[|s.entries| - 1].off >= s.entries[s.next].off + 2 * ENTRY_SIZE + n
  {
    var j := VictimEnd(s, n);
    BoundaryOrder(s, j, |s.entries| - 1);
    assert s.entries[j - 1].End() == s.entries[j].off;
  }

  /** The walk reaches the top exactly when the last entry begins too low for it to stop before. */
  lemma TruncatesIff(s: State, n: nat)
    requires Tiled(s.entries, s.top) && s.next < |s.entries|
    ensures Truncates(s, n) <==> ReachesTop(s, s.next, n)
  {
    var m, j := |s.entries|, VictimEnd(s, n);
    if s.entries[s.next].Size() != n && s.next + 1 < m {
      assert s.entries[m - 2].End() == s.entries[m - 1].off;
      if j == m {
        VictimsShortest(s, n, m - 1);
      } else {
        RunStopsBefore(s, n);
      }
    }
  }

  lemma RunPlaced(s: State, s0: State, key: Checksum, data: seq<byte>, r: Outcome, hi: nat, mid: seq<Entry>, d: Dir)
    requires Yields(s, key, data, r) && s0 == Rewind(s, |data|) && s0.next < hi <= |s.entries|
    requires hi == VictimEnd(s0, |data|) && !Truncates(s0, |data|)
    requires mid == Replacement(s0, hi, key, data) && d == Without(s0, hi)
    ensures PlacedBy(r, s0, hi, mid, key, d)
  {
    assert OpenInsert(0);
    InsertUnfolds(s, key, data);
    if s.next == |s.entries| {
      RewindPath(s, key, data);
      AtStart(s, key, data);
    }
    Placed(s0, hi, mid, key, data);
  }

  lemma StartIsRewind(s: State, n: nat)
    requires s.next <= |s.entries|
    ensures Rewind(s, n) == s.(next := Start(s, n))
  {
  }

  lemma NewIsReplacement(s: State, hi: nat, key: Checksum, data: seq<byte>)
    requires s.next < hi <= |s.entries| && IsRun(s, s.next, hi, |data|)
    ensures VictimEnd(s, |data|) == hi && !Truncates(s, |data|)
    ensures Replacement(s, hi, key, data) == NewEntries(s, s.next, hi, key, data)
  {
    RunFound(s, hi, |data|);
  }

  /** When the run ends before the top, or the entry has the size of the chunk, the new entry
      takes its place and the top stays; without room for the record the entry below the top
      goes too, or if that is the new entry itself an assertion fails. */
  lemma PlaceStep(s: State, key: Checksum, data: seq<byte>, r: Outcome, i: nat, hi: nat)
    requires Yields(s, key, data, r) && i == Start(s, |data|) < hi <= |s.entries| && IsRun(s, i, hi, |data|)
    ensures PlacedBy(r, s.(next := i), hi, NewEntries(s, i, hi, key, data), key,
                     s.dir.Remove(KeysOf(s.entries[i..hi])))
  {
    StartIsRewind(s, |data|);
    NewIsReplacement(s.(next := i), hi, key, data);
    RunPlaced(s, s.(next := i), key, data, r, hi, NewEntries(s, i, hi, key, data),
              s.dir.Remove(KeysOf(s.entries[i..hi])));
  }

  /** From 0 the run never reaches the top. */
  lemma TopNotReached(s: State, n: nat)
    requires Inv(s) && n <= s.geo.maxChunk && s.next == |s.entries| && Start(s, n) < |s.entries|
    ensures !ReachesTop(s, 0, n)
  {
    RewindLeavesTwo(s, n);
    CoreChain(s, {});
    TruncatesIff(s.(next := 0), n);
  }

  /** When the run reaches the top, the top is lowered to where it began. The new entry takes
      its place if there is room for it, another top and a record; otherwise nothing does. */
  lemma TruncateStep(s: State, key: Checksum, data: seq<byte>, r: Outcome)
    requires Yields(s, key, data, r)
    requires Start(s, |data|) < |s.entries| && ReachesTop(s, Start(s, |data|), |data|)
    ensures var i := Start(s, |data|); var off, d := s.entries[i].off, s.dir.Remove(KeysOf(s.entries[i..]));
            && r.Stored? == (off + 2 * ENTRY_SIZE + RECORD_SIZE * (|d.overflow| + 1) + |data| <= s.geo.space)
            && (r.Stored? ==>
                  r.state == s.(entries := s.entries[..i] + [Used(off, key, data, s.clock)], next := i + 1,
                                top := off + ENTRY_SIZE + |data|, dir := d.Add(key, off), clock := s.clock + 1))
            && (!r.Stored? ==>
                  r.Dropped? && r.state == s.(entries := s.entries[..i], next := i, top := off, dir := d))
  {
    if s.next == |s.entries| {
      TopNotReached(s, |data|);
    }
    CoreChain(s, {});
    TruncatesIff(s, |data|);
    assert OpenInsert(0);
    InsertUnfolds(s, key, data);
  }

  /** One of these cases is always met. */
  lemma SomeRun(s: State, n: nat) returns (hi: nat)
    requires Inv(s) && Start(s, n) < |s.entries|
    ensures ReachesTop(s, Start(s, n), n) || (Start(s, n) < hi <= |s.entries| && IsRun(s, Start(s, n), hi, n))
  {
    var s0 := s.(next := Start(s, n));
    CoreChain(s, {});
    TruncatesIff(s0, n);
    hi := VictimEnd(s0, n);
    forall k | s0.next <= k < hi - 1 && s.entries[s0.next].Size() != n
      ensures s.entries[k].End() < s.entries[s0.next].off + 2 * ENTRY_SIZE + n
    {
      VictimsShortest(s0, n, k + 1);
    }
  }
}
