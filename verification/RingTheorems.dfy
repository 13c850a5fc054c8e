/** What one insertion guarantees: the cell is a lossy map, and it forgets its oldest chunks
    first. */
module RingTheorems {
  import opened Types
  import opened Ring
  import opened RingInvariant
  import opened RingMap
  import opened CellParts

  /** Space above the top once the records of the evicted run are gone. */
  function RoomForRecord(s: State, n: nat): int
    requires s.next < |s.entries|
  {
    RoomOver(s, Without(s, VictimEnd(s, n)))
  }

  /** The new chain: the old entries before lo and in hi..n, and mid between them. */
  ghost predicate Shaped(es: seq<Entry>, entries: seq<Entry>, lo: nat, hi: nat, n: nat, mid: seq<Entry>) {
    lo <= hi <= n <= |entries| <= n + 1 && es == entries[..lo] + mid + entries[hi..n]
  }

  /** mid holds the new entry, and perhaps a remainder. */
  ghost predicate IsNew(mid: seq<Entry>, key: Checksum, data: seq<byte>, clock: nat) {
    && 1 <= |mid| <= 2 && mid[0].Used? && mid[0].key == key && mid[0].data == data && mid[0].time == clock
    && (|mid| == 2 ==> mid[1].Free?)
  }

  lemma AppendShape(s: State, key: Checksum, data: seq<byte>)
    ensures var r := Append(s, key, data); var m := |s.entries|;
            && (r.Stored? || r.Dropped?)
            && (r.Stored? ==> r.state.next == m + 1
                              && exists mid :: IsNew(mid, key, data, s.clock) && |mid| == 1
                                               && Shaped(r.state.entries, s.entries, m, m, m, mid))
            && (r.Dropped? ==> r.state.next == m && Shaped(r.state.entries, s.entries, m, m, m, []))
            && r.state.geo == s.geo
  {
    var m := |s.entries|;
    var mid := [Used(s.top, key, data, s.clock)];
    assert s.entries[..m] + mid + s.entries[m..m] == s.entries + mid;
    assert s.entries[..m] + [] + s.entries[m..m] == s.entries;
  }

  lemma TruncateShape(s: State, key: Checksum, data: seq<byte>) returns (mid: seq<Entry>)
    requires s.next < |s.entries|
    ensures var r := Append(Truncate(s), key, data); var m := |s.entries|;
            && (r.Stored? || r.Dropped?)
            && (r.Stored? ==> r.state.next == s.next + 1 && IsNew(mid, key, data, s.clock))
            && (r.Dropped? ==> r.state.next == s.next == |r.state.entries| && mid == [])
            && Shaped(r.state.entries, s.entries, s.next, m, m, mid) && r.state.geo == s.geo
  {
    var r, m := Append(Truncate(s), key, data), |s.entries|;
    mid := if r.Stored? then [Used(Truncate(s).top, key, data, s.clock)] else [];
    assert s.entries[..s.next] + mid + s.entries[m..m] == r.state.entries;
  }

  lemma PlaceShape(s: State, key: Checksum, data: seq<byte>) returns (n: nat, mid: seq<Entry>)
    requires MayEvict(s, |data|) && !Truncates(s, |data|) && key !in s.dir.at && s.geo.Accepts(data)
    requires !InsertAt(s, key, data).Aborted?
    ensures var r, j := InsertAt(s, key, data), VictimEnd(s, |data|);
            && r.Stored? && r.state.next == s.next + 1 && IsNew(mid, key, data, s.clock)
            && mid == Replacement(s, j, key, data) && Shaped(r.state.entries, s.entries, s.next, j, n, mid)
            && (n < |s.entries| ==> RoomForRecord(s, |data|) < RECORD_SIZE) && r.state.geo == s.geo
            && (j == |s.entries| ==> |mid| == 1)
  {
    var j := VictimEnd(s, |data|);
    mid := Replacement(s, j, key, data);
    Placed(s, j, mid, key, data);
    n := ShapeOfPlaced(InsertAt(s, key, data), s, j, mid, key, Without(s, j));
  }

  lemma ShapeOfPlaced(r: Outcome, s: State, j: nat, mid: seq<Entry>, key: Checksum, d: Dir) returns (n: nat)
    requires s.next < j <= |s.entries| && PlacedBy(r, s, j, mid, key, d) && !r.Aborted?
    ensures r.Stored? && r.state.next == s.next + 1 && r.state.geo == s.geo
    ensures Shaped(r.state.entries, s.entries, s.next, j, n, mid)
    ensures n < |s.entries| ==> RoomOver(s, d) < RECORD_SIZE
  {
    assert OpenPlaced(0);
    n := if RoomOver(s, d) >= RECORD_SIZE then |s.entries| else |s.entries| - 1;
  }

  /** r is an outcome that leaves the chain of s but for the run lo..hi, and perhaps the entry
      below the top. */
  ghost predicate ShapedBy(r: Outcome, s: State, key: Checksum, data: seq<byte>, lo: nat, hi: nat, n: nat,
                           mid: seq<Entry>) {
    var m := |s.entries|;
    && (r.Stored? || r.Dropped?) && r.state.geo == s.geo
    && Shaped(r.state.entries, s.entries, lo, hi, n, mid)
    && (r.Stored? ==> r.state.next == lo + 1 && IsNew(mid, key, data, s.clock))
    && (r.Dropped? ==> 0 < lo < m && mid == [] && hi == m && r.state.next == |r.state.entries|)
  }

  /** Every insertion is one; the run starts at next, or at 0, and ends where room is found. */
  lemma InsertShape(s: State, key: Checksum, data: seq<byte>, r: Outcome)
    returns (lo: nat, hi: nat, n: nat, mid: seq<Entry>)
    requires Yields(s, key, data, r) && !r.Aborted?
    ensures ShapedBy(r, s, key, data, lo, hi, n, mid)
    ensures var s0, m := Rewind(s, |data|), |s.entries|;
            && lo == s0.next && (lo == m ==> hi == m) && (lo < m ==> hi == VictimEnd(s0, |data|))
            && (n < m ==> lo < m && RoomForRecord(s0, |data|) < RECORD_SIZE)
            && (hi == m ==> |mid| <= 1)
  {
    assert OpenInsert(0);
    InsertUnfolds(s, key, data);
    var s0, m := Rewind(s, |data|), |s.entries|;
    lo, hi, n := s0.next, m, m;
    if s0.next == m {
      AppendShape(s, key, data);
      mid :| IsNew(mid, key, data, s.clock) && |mid| == 1
             && Shaped(r.state.entries, s.entries, m, m, m, mid);
    } else {
      if s.next == m {
        RewindPath(s, key, data);
        AtStart(s, key, data);
      }
      if Truncates(s0, |data|) {
        mid := TruncateShape(s0, key, data);
      } else {
        n, mid := PlaceShape(s0, key, data);
        hi := VictimEnd(s0, |data|);
      }
    }
  }

  // ----- the lossy map ---------------------------------------------------------------------------

  lemma ShapedAt(es: seq<Entry>, entries: seq<Entry>, lo: nat, hi: nat, n: nat, mid: seq<Entry>, i: nat)
    requires Shaped(es, entries, lo, hi, n, mid) && i < |es|
    ensures es[i] in entries || es[i] in mid
  {
    assert es[i] == if i < lo then entries[i] else if i < lo + |mid| then mid[i - lo] else entries[i - lo - |mid| + hi];
  }

  /** r keeps used entries of s only, and the new one if it is stored. */
  ghost predicate Explained(r: Outcome, s: State, key: Checksum, data: seq<byte>)
    requires r.Stored? || r.Dropped?
  {
    forall i | 0 <= i < |r.state.entries| && r.state.entries[i].Used? ::
      var e := r.state.entries[i];
      e in s.entries || (r.Stored? && e.key == key && e.data == data && e.time == s.clock)
  }

  lemma ShapeExplains(r: Outcome, s: State, key: Checksum, data: seq<byte>, lo: nat, hi: nat, n: nat, mid: seq<Entry>)
    requires ShapedBy(r, s, key, data, lo, hi, n, mid)
    ensures Explained(r, s, key, data)
    ensures r.Stored? ==> lo < |r.state.entries| && r.state.entries[lo] == mid[0]
  {
    forall i | 0 <= i < |r.state.entries| && r.state.entries[i].Used?
      ensures var e := r.state.entries[i];
              e in s.entries || (r.Stored? && e.key == key && e.data == data && e.time == s.clock)
    {
      ShapedAt(r.state.entries, s.entries, lo, hi, n, mid, i);
    }
    if r.Stored? {
      assert r.state.entries[lo] == mid[0];
    }
  }

  /** Every used entry afterwards was there before or is the new one; and the new one is the
      entry before next. */
  lemma InsertExplained(s: State, key: Checksum, data: seq<byte>, r: Outcome)
    requires Yields(s, key, data, r) && !r.Aborted?
    ensures Explained(r, s, key, data)
    ensures r.Stored? ==>
              var s' := r.state;
              && 0 < s'.next <= |s'.entries|
              && var e := s'.entries[s'.next - 1]; e.Used? && e.key == key && e.data == data && e.time == s.clock
  {
    var lo, hi, n, mid := InsertShape(s, key, data, r);
    ShapeExplains(r, s, key, data, lo, hi, n, mid);
  }

  /** The lossy map: an insertion adds at most its own chunk and otherwise only forgets; what
      it keeps keeps its bytes and its place in the slab. */
  lemma LossyMap(s: State, key: Checksum, data: seq<byte>, r: Outcome)
    requires Yields(s, key, data, r) && !r.Aborted?
    ensures var was, now := Contents(s.entries), Contents(r.state.entries);
            && Inv(r.state)
            && (forall k | k in now && k != key ::
                  && k in was && now[k] == was[k]
                  && k in r.state.dir.at && k in s.dir.at && r.state.dir.at[k] == s.dir.at[k])
            && (r.Stored? <==> key in now) && (r.Stored? ==> now[key] == data)
  {
    InsertKeepsInv(s, key, data, r);
    InsertExplained(s, key, data, r);
    ExplainedMap(r, s, key, data);
  }

  lemma ExplainedMap(r: Outcome, s: State, key: Checksum, data: seq<byte>)
    requires (r.Stored? || r.Dropped?) && Inv(s) && Inv(r.state) && Explained(r, s, key, data) && key !in s.dir.at
    requires r.Stored? ==> && 0 < r.state.next <= |r.state.entries|
                           && var e := r.state.entries[r.state.next - 1]; e.Used? && e.key == key && e.data == data
    ensures var was, now := Contents(s.entries), Contents(r.state.entries);
            && (forall k | k in now && k != key ::
                  && k in was && now[k] == was[k]
                  && k in r.state.dir.at && k in s.dir.at && r.state.dir.at[k] == s.dir.at[k])
            && (r.Stored? <==> key in now) && (r.Stored? ==> now[key] == data)
  {
    forall k | k in Contents(r.state.entries) && k != key
      ensures k in Contents(s.entries) && Contents(r.state.entries)[k] == Contents(s.entries)[k]
      ensures k in r.state.dir.at && k in s.dir.at && r.state.dir.at[k] == s.dir.at[k]
    {
      SurvivorKept(r, s, key, data, k);
    }
    if r.Stored? {
      StoredMaps(r.state, key, data);
    } else {
      DroppedUnmaps(r, s, key, data);
    }
  }

  lemma StoredMaps(s: State, key: Checksum, data: seq<byte>)
    requires Inv(s) && 0 < s.next <= |s.entries|
    requires var e := s.entries[s.next - 1]; e.Used? && e.key == key && e.data == data
    ensures key in Contents(s.entries) && Contents(s.entries)[key] == data
  {
    CoreKeys(s, {});
    ContentsAt(s.entries, s.next - 1);
  }

  lemma DroppedUnmaps(r: Outcome, s: State, key: Checksum, data: seq<byte>)
    requires r.Dropped? && Inv(s) && Explained(r, s, key, data) && key !in s.dir.at
    ensures key !in Contents(r.state.entries)
  {
    DroppedIsAbsent(r, s, key, data);
    if key in Contents(r.state.entries) {
      var i := ContentsFrom(r.state.entries, key);
    }
  }

  lemma DroppedIsAbsent(r: Outcome, s: State, key: Checksum, data: seq<byte>)
    requires r.Dropped? && Inv(s) && Explained(r, s, key, data) && key !in s.dir.at
    ensures forall i | 0 <= i < |r.state.entries| && r.state.entries[i].Used? :: r.state.entries[i].key != key
  {
    CoreKeys(s, {});
    forall i | 0 <= i < |r.state.entries| && r.state.entries[i].Used? ensures r.state.entries[i].key != key {
      assert r.state.entries[i].key in KeysOf(s.entries);
    }
  }

  lemma SurvivorKept(r: Outcome, s: State, key: Checksum, data: seq<byte>, k: Checksum)
    requires (r.Stored? || r.Dropped?) && Inv(s) && Inv(r.state) && Explained(r, s, key, data)
    requires k != key && k in Contents(r.state.entries)
    ensures k in Contents(s.entries) && Contents(r.state.entries)[k] == Contents(s.entries)[k]
    ensures k in r.state.dir.at && k in s.dir.at && r.state.dir.at[k] == s.dir.at[k]
  {
    var s' := r.state;
    ContentsIndexed(s);
    ContentsIndexed(s');
    var i := RecordLeads(s', k);
    var q :| 0 <= q < |s.entries| && s.entries[q] == s'.entries[i];
    CoreKeys(s, {});
    ContentsAt(s.entries, q);
  }

  // ----- first in, first out -----------------------------------------------------------------------

  lemma OrderAt(s: State, n: nat)
    requires Inv(s)
    ensures RingOrdered(s.entries, Rewind(s, n).next, s.clock)
  {
    assert OpenRing(0);
    if s.next == |s.entries| {
      RingOrderedFrom0(s.entries, s.clock);
    }
  }

  /** Whatever an insertion forgets is older than whatever it keeps, except the entry below
      the top when there is no room for a directory record. */
  lemma EvictsOldest(s: State, key: Checksum, data: seq<byte>, r: Outcome, e: Entry, f: Entry)
    requires Yields(s, key, data, r) && !r.Aborted?
    requires e in s.entries && f in s.entries && e.Used? && f.Used?
    requires e !in r.state.entries && f in r.state.entries
    ensures || e.time < f.time
            || (e == s.entries[|s.entries| - 1] && Rewind(s, |data|).next < |s.entries|
                && RoomForRecord(Rewind(s, |data|), |data|) < RECORD_SIZE)
  {
    OrderAt(s, |data|);
    var lo, hi, n, mid := InsertShape(s, key, data, r);
    ShapeEvictsOldest(r, s, key, data, lo, hi, n, mid, e, f);
  }

  lemma ShapeEvictsOldest(r: Outcome, s: State, key: Checksum, data: seq<byte>, lo: nat, hi: nat, n: nat,
                          mid: seq<Entry>, e: Entry, f: Entry)
    requires ShapedBy(r, s, key, data, lo, hi, n, mid) && RingOrdered(s.entries, lo, s.clock)
    requires e in s.entries && f in s.entries && e.Used? && f.Used?
    requires e !in r.state.entries && f in r.state.entries
    ensures e.time < f.time || (e == s.entries[|s.entries| - 1] && n < |s.entries|)
  {
    BesideKept(r.state.entries, s.entries, lo, hi, n, mid);
    var q :| 0 <= q < |s.entries| && s.entries[q] == e;
    var p := KeptAt(s, key, data, r.state.entries, lo, hi, n, mid, f);
    if q < hi {
      assert Before(lo, q, p);
    }
  }

  lemma BesideKept(es: seq<Entry>, entries: seq<Entry>, lo: nat, hi: nat, n: nat, mid: seq<Entry>)
    requires Shaped(es, entries, lo, hi, n, mid)
    ensures forall q | 0 <= q < lo || hi <= q < n :: entries[q] in es
  {
    forall q | 0 <= q < lo || hi <= q < n ensures entries[q] in es {
      assert entries[q] == es[if q < lo then q else q - hi + lo + |mid|];
    }
  }

  lemma KeptAt(s: State, key: Checksum, data: seq<byte>, es: seq<Entry>, lo: nat, hi: nat, n: nat, mid: seq<Entry>,
               f: Entry) returns (p: nat)
    requires Shaped(es, s.entries, lo, hi, n, mid) && f in es && f.Used? && f in s.entries
    requires mid == [] || IsNew(mid, key, data, s.clock)
    requires forall i | 0 <= i < |s.entries| && s.entries[i].Used? :: s.entries[i].time < s.clock
    ensures p < |s.entries| && s.entries[p] == f && (p < lo || hi <= p)
  {
    assert f !in mid;
    var old' := s.entries[..lo] + s.entries[hi..n];
    assert f in old' by {
      OldPart(es, s.entries, lo, hi, n, mid, f);
    }
    var i :| 0 <= i < |old'| && old'[i] == f;
    p := if i < lo then i else i - lo + hi;
  }

  lemma OldPart(es: seq<Entry>, entries: seq<Entry>, lo: nat, hi: nat, n: nat, mid: seq<Entry>, f: Entry)
    requires Shaped(es, entries, lo, hi, n, mid) && f in es && f !in mid
    ensures f in entries[..lo] + entries[hi..n]
  {
  }

  // ----- the eviction walk is minimal ----------------------------------------------------------------

  /** A shorter run would not hold n bytes and a remainder's header; the run does, unless it
      is everything up to the top. */
  lemma VictimsShortest(s: State, n: nat, k: nat)
    requires s.next < |s.entries| && s.next < k < VictimEnd(s, n)
    ensures s.entries[k - 1].End() < s.entries[s.next].off + 2 * ENTRY_SIZE + n
    ensures VictimEnd(s, n) < |s.entries| ==>
              s.entries[VictimEnd(s, n) - 1].End() >= s.entries[s.next].off + 2 * ENTRY_SIZE + n
  {
    RunEndMinimal(s.entries, s.next, s.next + 1, n + ENTRY_SIZE, k);
  }

  // ----- what becomes of an insertion ------------------------------------------------------------------

  /** A chunk is dropped exactly when the walk evicts everything up to the top and the lowered
      top still has no room for it. */
  lemma DroppedIff(s: State, key: Checksum, data: seq<byte>, r: Outcome)
    requires Yields(s, key, data, r)
    ensures r.Dropped? <==>
              && s.next < |s.entries| && Truncates(s, |data|)
              && Truncate(s).FreeSpace() < |data| + ENTRY_SIZE + RECORD_SIZE
  {
    assert OpenInsert(0);
    InsertUnfolds(s, key, data);
    if s.next < |s.entries| {
      if Truncates(s, |data|) {
        TruncatingKeepsInv(s, key, data);
      } else if TailHazard(s, |data|) {
        HazardAborts(s, key, data);
      } else {
        ReplacingKeepsInv(s, key, data);
      }
    } else if s.FreeSpace() < |data| + ENTRY_SIZE + RECORD_SIZE {
      RewindPath(s, key, data);
    }
  }

  /** When the run up to the top has room for the chunk and a remainder's header, the chunk
      is stored. */
  lemma EnoughIsStored(s: State, key: Checksum, data: seq<byte>, r: Outcome)
    requires Yields(s, key, data, r) && s.next < |s.entries| && Truncates(s, |data|)
    requires s.top >= s.entries[s.next].off + 2 * ENTRY_SIZE + |data|
    ensures r.Stored?
  {
    TruncateCore(s);
    DroppedIff(s, key, data, r);
    InsertKeepsInv(s, key, data, r);
  }

  /** A dropped chunk leaves next at the top, and the same insertion again stores it. */
  lemma RetryStores(s: State, key: Checksum, data: seq<byte>, r: Outcome)
    requires Yields(s, key, data, r) && r.Dropped?
    ensures Inv(r.state) && key !in r.state.dir.at && r.state.next == |r.state.entries|
    ensures forall r' | Yields(r.state, key, data, r') :: r'.Stored?
  {
    var lo, hi, n, mid := InsertShape(s, key, data, r);
    LossyMap(s, key, data, r);
    ContentsIndexed(r.state);
    forall r' | Yields(r.state, key, data, r') ensures r'.Stored? {
      AtTopStores(r.state, key, data, r');
    }
  }

  /** An insertion that starts at the top always stores its chunk. */
  lemma AtTopStores(s: State, key: Checksum, data: seq<byte>, r: Outcome)
    requires Yields(s, key, data, r) && s.next == |s.entries|
    ensures r.Stored?
  {
    assert OpenInsert(0);
    InsertUnfolds(s, key, data);
    if s.FreeSpace() < |data| + ENTRY_SIZE + RECORD_SIZE {
      RewindPath(s, key, data);
    }
  }

  // ----- bounds and counters ---------------------------------------------------------------------------

  /** The body never meets the overflow records, and every size, offset and count fits its
      bit field. */
  lemma FieldsFit(s: State)
    requires Inv(s)
    ensures s.top + ENTRY_SIZE + RECORD_SIZE * |s.dir.overflow| <= s.geo.space
    ensures |s.dir.overflow| < 0x1000
    ensures forall i | 0 <= i < |s.entries| ::
              && s.entries[i].Size() < 0x8000 && s.entries[i].off < 0x8000_0000
              && s.entries[i].End() + ENTRY_SIZE <= s.geo.space
  {
    OverflowFits(s);
    EntriesFit(s);
  }

  lemma OverflowFits(s: State)
    requires Inv(s)
    ensures |s.dir.overflow| < BLOCK_OVERFLOW_LIMIT
  {
    OverflowLow(s);
    Fewer(|s.dir.overflow|, BLOCK_OVERFLOW_LIMIT, ENTRY_SIZE + s.geo.minChunk);
  }

  lemma OverflowLow(s: State)
    requires Inv(s)
    ensures |s.dir.overflow| * (ENTRY_SIZE + s.geo.minChunk) < s.geo.space
  {
    CoreChain(s, {});
    CoreKeys(s, {});
    OverflowBound(s);
  }

  lemma EntriesFit(s: State)
    requires Inv(s)
    ensures forall i | 0 <= i < |s.entries| :: s.entries[i].Size() < SIZE_LIMIT && s.entries[i].End() <= s.top
  {
    CoreChain(s, {});
    forall i | 0 <= i < |s.entries|
      ensures s.entries[i].Size() < SIZE_LIMIT && s.entries[i].End() <= s.top
    {
      TiledOrder(s.entries, s.top, i, |s.entries|);
    }
  }

  function UsedCount(entries: seq<Entry>): nat {
    if entries == [] then 0
    else UsedCount(entries[..|entries| - 1]) + if entries[|entries| - 1].Used? then 1 else 0
  }

  lemma {:induction false} KeysCounted(entries: seq<Entry>)
    requires DistinctKeys(entries)
    ensures |KeysOf(entries)| == UsedCount(entries)
  {
    if entries == [] {
      assert KeysOf(entries) == {};
    } else {
      var n := |entries| - 1;
      KeysCounted(entries[..n]);
      KeysOfLast(entries, n + 1);
      LastKeyNew(entries);
      assert entries[..n + 1] == entries;
    }
  }

  lemma LastKeyNew(entries: seq<Entry>)
    requires DistinctKeys(entries) && |entries| > 0
    ensures var n := |entries| - 1; entries[n].Used? ==> entries[n].key !in KeysOf(entries[..n])
  {
    var n := |entries| - 1;
    forall e | e in entries[..n] && e.Used? && entries[n].Used? ensures e.key != entries[n].key {
      var i :| 0 <= i < n && entries[..n][i] == e;
      assert entries[i] == e;
    }
  }

  /** The directory has exactly one record for each used entry. */
  lemma CountExact(s: State)
    requires Inv(s)
    ensures s.dir.Count() == UsedCount(s.entries)
  {
    CoreKeys(s, {});
    KeysCounted(s.entries);
    assert s.dir.blocks + s.dir.overflow == KeysOf(s.entries);
  }

  /** The counters stay below the top offset, so they fit 32 bits. */
  lemma CountersFit(s: State)
    requires Inv(s)
    ensures TotalBytes(s.entries) + UsedCount(s.entries) <= s.top < OFFSET_LIMIT
  {
    CoreChain(s, {});
    CountedBelow(s, |s.entries|);
    assert s.entries[..|s.entries|] == s.entries;
  }

  lemma {:induction false} CountedBelow(s: State, i: nat)
    requires Tiled(s.entries, s.top) && i <= |s.entries|
    ensures TotalBytes(s.entries[..i]) + UsedCount(s.entries[..i]) <= s.Boundary(i)
  {
    if i > 0 {
      CountedBelow(s, i - 1);
      assert s.entries[..i][..i - 1] == s.entries[..i - 1];
      assert s.entries[i - 1].End() == s.Boundary(i);
    } else {
      assert s.entries[..0] == [];
    }
  }

  /** Payload bytes of the remainder, if there is one. */
  function FreeBytes(entries: seq<Entry>): nat {
    if entries == [] then 0
    else
      var last := entries[|entries| - 1];
      FreeBytes(entries[..|entries| - 1]) + if last.Free? then last.room else 0
  }

  /** Conservation: every byte below the top belongs to a header, to a payload that the byte count
      counts, or to the remainder. */
  lemma TopIsSpent(s: State)
    requires Inv(s)
    ensures s.top == ENTRY_SIZE * |s.entries| + TotalBytes(s.entries) + FreeBytes(s.entries)
    ensures UsedCount(s.entries) <= |s.entries| <= UsedCount(s.entries) + 1
  {
    CoreChain(s, {});
    SpentBelow(s, |s.entries|);
    FreeOnce(s, |s.entries|);
    assert s.entries[..|s.entries|] == s.entries;
  }

  lemma {:induction false} SpentBelow(s: State, i: nat)
    requires Tiled(s.entries, s.top) && i <= |s.entries|
    ensures s.Boundary(i) == ENTRY_SIZE * i + TotalBytes(s.entries[..i]) + FreeBytes(s.entries[..i])
  {
    if i > 0 {
      SpentBelow(s, i - 1);
      assert s.entries[..i][..i - 1] == s.entries[..i - 1];
      assert s.entries[i - 1].End() == s.Boundary(i);
    } else {
      assert s.entries[..0] == [];
    }
  }

  lemma {:induction false} FreeOnce(s: State, i: nat)
    requires Inv(s) && i <= |s.entries|
    ensures UsedCount(s.entries[..i]) <= i <= UsedCount(s.entries[..i]) + if i > s.next then 1 else 0
  {
    assert OpenRing(0);
    if i > 0 {
      FreeOnce(s, i - 1);
      assert s.entries[..i][..i - 1] == s.entries[..i - 1];
    } else {
      assert s.entries[..0] == [];
    }
  }

  // ----- the entry below the top -------------------------------------------------------------------------

  /** If the entry below the top is a remainder, there is room for a directory record. */
  ghost predicate RestHasRoom(s: State) {
    |s.entries| > 0 && s.entries[|s.entries| - 1].Free? ==> s.FreeSpace() >= RECORD_SIZE
  }

  /** Deleting the entry below the top leaves room for a further record. */
  lemma PoppedRoom(s: State, key: Checksum, data: seq<byte>)
    requires MayEvict(s, |data|) && !Truncates(s, |data|) && key !in s.dir.at && s.geo.Accepts(data)
    requires RoomForRecord(s, |data|) < RECORD_SIZE && VictimEnd(s, |data|) < |s.entries|
    requires s.geo.minChunk >= RECORD_SIZE
    ensures InsertAt(s, key, data).Stored? && InsertAt(s, key, data).state.FreeSpace() >= RECORD_SIZE
  {
    var j := VictimEnd(s, |data|);
    ReplacedIs(s, j, Replacement(s, j, key, data), key, data);
    ReplacedPops(s, key, data, Replaced(s, key, data));
  }

  lemma ReplacedPops(s: State, key: Checksum, data: seq<byte>, S: State)
    requires MayEvict(s, |data|) && !Truncates(s, |data|) && key !in s.dir.at && s.geo.Accepts(data)
    requires VictimEnd(s, |data|) < |s.entries| && s.geo.minChunk >= RECORD_SIZE
    requires S == Replaced(s, key, data) && S.FreeSpace() < RECORD_SIZE
    ensures var r := PlaceRecord(S, key, s.entries[s.next].off); r.Stored? && r.state.FreeSpace() >= RECORD_SIZE
  {
    assert OpenRing(0);
    ReplacedCore(s, key, data);
    ReplacedFields(s, key, data);
    PopRoom(S, s.next);
  }

  lemma PopRoom(s: State, p: nat)
    requires p + 1 < |s.entries| && s.entries[p].Used? && Core(s, {s.entries[p].key})
    requires s.FreeSpace() < RECORD_SIZE && s.entries[|s.entries| - 1].Used? && s.geo.minChunk >= RECORD_SIZE
    ensures var r := PlaceRecord(s, s.entries[p].key, s.entries[p].off);
            r.Stored? && r.state.FreeSpace() >= RECORD_SIZE
  {
    CoreChain(s, {s.entries[p].key});
    PlaceByPop(s, p);
  }

  lemma PlacedKeepsRoom(s: State, key: Checksum, data: seq<byte>)
    requires MayEvict(s, |data|) && !Truncates(s, |data|) && key !in s.dir.at && s.geo.Accepts(data)
    requires !InsertAt(s, key, data).Aborted? && s.geo.minChunk >= RECORD_SIZE
    ensures RestHasRoom(InsertAt(s, key, data).state)
  {
    var n, mid := PlaceShape(s, key, data);
    if n < |s.entries| {
      PoppedRoom(s, key, data);
    } else {
      var r := InsertAt(s, key, data);
      assert RestHasRoom(r.state) by {
        LastIsUsed(r.state.entries, s, VictimEnd(s, |data|), mid, key, data);
      }
    }
  }

  lemma LastIsUsed(es: seq<Entry>, s: State, j: nat, mid: seq<Entry>, key: Checksum, data: seq<byte>)
    requires Rewound(s) && s.next < |s.entries| && !Truncates(s, |data|) && j == VictimEnd(s, |data|)
    requires mid == Replacement(s, j, key, data) && Shaped(es, s.entries, s.next, j, |s.entries|, mid)
    ensures |es| > 0 && es[|es| - 1].Used?
  {
    assert OpenRing(0);
    assert es[|es| - 1] == if j < |s.entries| then s.entries[|s.entries| - 1] else mid[|mid| - 1];
  }

  /** With chunks of at least 36 bytes every insertion leaves it so. */
  lemma RestKeepsRoom(s: State, key: Checksum, data: seq<byte>, r: Outcome)
    requires Yields(s, key, data, r) && !r.Aborted? && s.geo.minChunk >= RECORD_SIZE
    ensures RestHasRoom(r.state)
  {
    assert OpenRing(0) && OpenInsert(0);
    InsertUnfolds(s, key, data);
    var s0 := Rewind(s, |data|);
    if s0.next < |s.entries| {
      if s.next == |s.entries| {
        RewindPath(s, key, data);
        AtStart(s, key, data);
      }
      if !Truncates(s0, |data|) {
        PlacedKeepsRoom(s0, key, data);
      }
    }
  }
}
