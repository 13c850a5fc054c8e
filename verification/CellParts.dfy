/** The chain while a run of entries is being replaced: which parts of it already lie in
    memory, and how they make up the chain that the replacement leaves. */
module CellParts {
  import opened Types
  import opened Ring
  import opened RingInvariant
  import opened Slab
  import opened Layout
  import opened CellLemmas

  /** The entries below next, the new entry e, the entries j..n and a top above them. */
  ghost predicate Parts(mem: seq<Slot>, s: State, j: nat, n: nat, e: Entry)
    requires s.next < j <= n <= |s.entries|
  {
    && LaidRange(mem, s.entries, 0, s.next)
    && EntryAt(mem, e, PrevSize(s.entries, s.next))
    && LaidRange(mem, s.entries, j, n)
    && TopAt(mem, s.Boundary(n), PrevSize(s.entries, n))
  }

  lemma BoundaryOrder(s: State, i: nat, j: nat)
    requires Tiled(s.entries, s.top) && i <= j <= |s.entries|
    ensures s.Boundary(i) <= s.Boundary(j)
    ensures i < j ==> s.entries[i].End() <= s.Boundary(j)
  {
    if i < j {
      TiledOrder(s.entries, s.top, i, j);
    }
  }

  lemma OpenedParts(mem: seq<Slot>, s: State, j: nat)
    requires s.next < j <= |s.entries| && Opened(mem, s)
    ensures LaidRange(mem, s.entries, 0, s.next) && LaidRange(mem, s.entries, j, |s.entries|)
    ensures TopAt(mem, s.top, PrevSize(s.entries, |s.entries|))
  {
    LaidPart(mem, s.entries, s.next + 1, |s.entries|, j, |s.entries|);
  }

  /** The run from next to j lies between the entries before and after it. */
  lemma AroundRun(s: State, j: nat)
    requires Tiled(s.entries, s.top) && s.next < j <= |s.entries|
    ensures forall i | 0 <= i < s.next :: s.entries[i].End() <= s.entries[s.next].off
    ensures forall i | j <= i < |s.entries| :: s.Boundary(j) <= s.entries[i].off
    ensures s.Boundary(j) <= s.top
  {
    forall i | 0 <= i < s.next ensures s.entries[i].End() <= s.entries[s.next].off {
      BoundaryOrder(s, i, s.next);
    }
    forall i | j <= i < |s.entries| ensures s.Boundary(j) <= s.entries[i].off {
      BoundaryOrder(s, j, i);
    }
    BoundaryOrder(s, j, |s.entries|);
  }

  /** Writing the new entry over the victims. */
  lemma ChunkOver(mem: seq<Slot>, mem': seq<Slot>, s: State, j: nat, e: Entry)
    requires Tiled(s.entries, s.top) && s.next < j <= |s.entries| && Opened(mem, s)
    requires e.off == s.entries[s.next].off && e.End() <= s.Boundary(j)
    requires EntryAt(mem', e, PrevSize(s.entries, s.next)) && SameBut(mem, mem', e.off, e.End())
    ensures Parts(mem', s, j, |s.entries|, e)
  {
    OpenedParts(mem, s, j);
    AroundRun(s, j);
    RangeBut(mem, mem', e.off, e.End(), s.entries, 0, s.next);
    RangeBut(mem, mem', e.off, e.End(), s.entries, j, |s.entries|);
    TopBut(mem, mem', e.off, e.End(), s.top, PrevSize(s.entries, |s.entries|));
  }

  /** The parts below a boundary stay while memory below it does. */
  lemma PartsBelow(mem: seq<Slot>, mem': seq<Slot>, s: State, j: nat, n: nat, n': nat, e: Entry)
    requires Tiled(s.entries, s.top) && s.next < j <= n' <= n <= |s.entries| && Parts(mem, s, j, n, e)
    requires SameBelow(mem, mem', s.Boundary(n')) && e.End() <= s.Boundary(j)
    requires TopAt(mem', s.Boundary(n'), PrevSize(s.entries, n'))
    ensures Parts(mem', s, j, n', e)
  {
    var m := s.Boundary(n');
    forall i | 0 <= i < n' ensures s.entries[i].End() <= m {
      BoundaryOrder(s, i, n');
    }
    BoundaryOrder(s, j, n');
    RangeKept(mem, mem', s.entries, 0, s.next, m);
    EntryKept(mem, mem', e, PrevSize(s.entries, s.next), m);
    LaidPart(mem, s.entries, j, n, j, n');
    RangeKept(mem, mem', s.entries, j, n', m);
  }

  // ----- the record of the new entry -----------------------------------------------------------------

  ghost predicate OpenPlaced(k: nat) {
    true
  }

  /** s' is s with the run up to j replaced by mid, the old entries from n on deleted, and
      the directory d. */
  ghost predicate IsPlaced(s': State, s: State, j: nat, mid: seq<Entry>, n: nat, d: Dir)
    requires s.next < j <= n <= |s.entries|
  {
    forall k: nat {:trigger OpenPlaced(k)} :: OpenPlaced(k) ==>
      && s'.geo == s.geo && s'.dir == d && s'.next == s.next + 1
      && s'.entries == s.entries[..s.next] + mid + s.entries[j..n] && s'.top == s.Boundary(n)
  }

  /** What placing the record makes of a replacement S of s. */
  lemma PlaceSplits(S: State, s: State, j: nat, mid: seq<Entry>, key: Checksum, off: nat)
    requires s.next < j <= |s.entries| && IsPlaced(S, s, j, mid, |s.entries|, S.dir) && |mid| > 0
    requires j == |s.entries| ==> mid[|mid| - 1].Free? || mid[|mid| - 1].key !in S.dir.at
    requires j < |s.entries| ==> s.entries[|s.entries| - 1].Used? && s.entries[|s.entries| - 1].key in S.dir.at
    ensures var m := |s.entries|; var r := PlaceRecord(S, key, off);
            && (S.FreeSpace() >= RECORD_SIZE ==> r.Stored? && IsPlaced(r.state, s, j, mid, m, S.dir.Add(key, off)))
            && (S.FreeSpace() < RECORD_SIZE && j == m ==> r.Aborted?)
            && (S.FreeSpace() < RECORD_SIZE && j < m ==>
                  r.Stored? && IsPlaced(r.state, s, j, mid, m - 1, S.dir.Remove({s.entries[m - 1].key}).Add(key, off)))
  {
    assert OpenPlaced(0);
    var m, es := |s.entries|, S.entries;
    assert s.entries[j..m] == s.entries[j..];
    if j == m {
      assert es[|es| - 1] == mid[|mid| - 1];
    } else {
      assert es[|es| - 1] == s.entries[m - 1];
      assert es[..|es| - 1] == s.entries[..s.next] + mid + s.entries[j..m - 1];
    }
  }

  lemma ReplacedIs(s: State, j: nat, mid: seq<Entry>, key: Checksum, data: seq<byte>)
    requires s.next < |s.entries| && !Truncates(s, |data|) && j == VictimEnd(s, |data|)
    requires mid == Replacement(s, j, key, data)
    ensures var S := Replaced(s, key, data);
            && IsPlaced(S, s, j, mid, |s.entries|, Without(s, j))
            && InsertAt(s, key, data) == PlaceRecord(S, key, s.entries[s.next].off)
            && S.FreeSpace() == RoomOver(s, Without(s, j)) && S.dir == Without(s, j)
  {
    assert s.entries[j..|s.entries|] == s.entries[j..];
  }

  /** The directory once the records of the run up to j are gone. */
  function Without(s: State, j: nat): Dir
    requires s.next < j <= |s.entries|
  {
    s.dir.Remove(KeysOf(s.entries[s.next..j]))
  }

  /** Space above the top with the directory d. */
  function RoomOver(s: State, d: Dir): int {
    s.geo.space - (s.top + ENTRY_SIZE + RECORD_SIZE * |d.overflow|)
  }

  /** r is the outcome of replacing the run up to j by mid in the directory d, by the room
      for its record. */
  ghost predicate PlacedBy(r: Outcome, s: State, j: nat, mid: seq<Entry>, key: Checksum, d: Dir)
    requires s.next < j <= |s.entries|
  {
    var m, off := |s.entries|, s.entries[s.next].off;
    && (RoomOver(s, d) >= RECORD_SIZE ==> r.Stored? && IsPlaced(r.state, s, j, mid, m, d.Add(key, off)))
    && (RoomOver(s, d) < RECORD_SIZE && j == m ==> r.Aborted?)
    && (RoomOver(s, d) < RECORD_SIZE && j < m ==>
          && r.Stored? && s.entries[m - 1].Used?
          && IsPlaced(r.state, s, j, mid, m - 1, d.Remove({s.entries[m - 1].key}).Add(key, off)))
  }

  /** An insertion that does not reach the top. */
  lemma Placed(s: State, j: nat, mid: seq<Entry>, key: Checksum, data: seq<byte>)
    requires MayEvict(s, |data|) && !Truncates(s, |data|) && key !in s.dir.at && s.geo.Accepts(data)
    requires j == VictimEnd(s, |data|) && mid == Replacement(s, j, key, data)
    ensures PlacedBy(InsertAt(s, key, data), s, j, mid, key, Without(s, j))
  {
    ReplacedIs(s, j, mid, key, data);
    LastRemovable(s, |data|, j, mid[0], key);
    PlaceSplits(Replaced(s, key, data), s, j, mid, key, s.entries[s.next].off);
  }

  /** The record of e may be added to the directory d: of bytes payload bytes, the entry
      below the top can go. */
  ghost predicate CanIndex(s: State, j: nat, e: Entry, key: Checksum, other: Checksum, d: Dir, bytes: int)
    requires s.next < j <= |s.entries|
  {
    var last := Last(s, j, e);
    && last.Used? && other in d.at && other != last.key && key !in d.at
    && (last.key in d.at <==> j < |s.entries|)
    && (last.key in d.at ==> bytes > |last.data|)
    && |d.overflow| + 1 < BLOCK_OVERFLOW_LIMIT
  }

  /** Payload bytes once the run up to j is evicted. */
  function BytesWithout(s: State, j: nat): int
    requires s.next < j <= |s.entries|
  {
    TotalBytes(s.entries) - TotalBytes(s.entries[s.next..j])
  }

  lemma Indexable(s: State, j: nat, e: Entry, key: Checksum, data: seq<byte>)
    requires MayEvict(s, |data|) && !Truncates(s, |data|) && j == VictimEnd(s, |data|)
    requires e.Used? && e.key == key && key !in s.dir.at && s.geo.Accepts(data)
    ensures CanIndex(s, j, e, key, SurvivorKey(s, |data|), Without(s, j), BytesWithout(s, j))
  {
    LastRemovable(s, |data|, j, e, key);
    OverflowRoomWithin(s, j, key, data);
  }

  lemma OneMore<T>(a: set<T>, k: T, b: set<T>)
    requires a <= b && k in b && k !in a
    ensures |a| + 1 <= |b|
  {
    SubsetSize(a, b - {k});
  }

  lemma Fewer(n: nat, limit: nat, x: nat)
    requires n * x < limit * x
    ensures n < limit
  {
    if n >= limit {
      MulMono(limit, n, x);
    }
  }

  /** While the record of an entry of the chain is pending, the overflow has room for it. */
  lemma OverflowRoom(s: State, key: Checksum)
    requires Core(s, {key}) && key in KeysOf(s.entries)
    ensures |s.dir.overflow| + 1 < BLOCK_OVERFLOW_LIMIT
  {
    CoreChain(s, {key});
    CoreKeys(s, {key});
    UsedBound(s, |s.entries|);
    assert s.entries[..|s.entries|] == s.entries;
    OneMore(s.dir.overflow, key, KeysOf(s.entries));
    Fewer(|KeysOf(s.entries)|, BLOCK_OVERFLOW_LIMIT, ENTRY_SIZE + s.geo.minChunk);
  }

  lemma OverflowRoomAbove(s: State, key: Checksum, data: seq<byte>)
    requires Core(s, {}) && key !in s.dir.Keys() && s.geo.Accepts(data)
    requires s.FreeSpace() >= |data| + ENTRY_SIZE
    ensures |s.dir.overflow| + 1 < BLOCK_OVERFLOW_LIMIT
  {
    AppendedCore(s, key, data);
    assert Used(s.top, key, data, s.clock) in Appended(s, key, data).entries;
    OverflowRoom(Appended(s, key, data), key);
  }

  lemma OverflowRoomWithin(s: State, j: nat, key: Checksum, data: seq<byte>)
    requires Rewound(s) && s.next < |s.entries| && !Truncates(s, |data|) && j == VictimEnd(s, |data|)
    requires key !in s.dir.Keys() && s.geo.Accepts(data)
    ensures |s.dir.Remove(KeysOf(s.entries[s.next..j])).overflow| + 1 < BLOCK_OVERFLOW_LIMIT
  {
    assert OpenRing(0);
    ReplacedCore(s, key, data);
    ReplacedFields(s, key, data);
    var S := Replaced(s, key, data);
    assert S.entries[s.next] in S.entries;
    OverflowRoom(S, key);
  }

  /** The entry below the top once the new entry is in place, and the size before it. */
  function Last(s: State, j: nat, e: Entry): Entry
    requires s.next < j <= |s.entries|
  {
    if j < |s.entries| then s.entries[|s.entries| - 1] else e
  }

  function BeforeLast(s: State, j: nat): nat
    requires s.next < j <= |s.entries|
  {
    PrevSize(s.entries, if j < |s.entries| then |s.entries| - 1 else s.next)
  }

  lemma LastLies(mem: seq<Slot>, s: State, j: nat, e: Entry)
    requires Rewound(s) && s.next < j <= |s.entries| && e.Used?
    requires j == |s.entries| ==> e.End() == s.top && s.entries[j - 1].Size() == e.Size()
    requires Parts(mem, s, j, |s.entries|, e)
    ensures var last := Last(s, j, e);
            && TopAt(mem, s.top, last.Size()) && last.Used? && last.End() == s.top
            && EntryAt(mem, last, BeforeLast(s, j))
  {
    assert OpenRing(0);
    CoreChain(s, {});
    if j < |s.entries| {
      LaidAt(mem, s.entries, j, |s.entries|, |s.entries| - 1);
      assert s.entries[|s.entries| - 1].End() == s.top;
    }
  }

  /** Its record can go, and leaves another one and bytes behind. */
  lemma LastRemovable(s: State, n: nat, j: nat, e: Entry, key: Checksum)
    requires MayEvict(s, n) && j == VictimEnd(s, n)
    requires e.Used? && e.key == key && key !in s.dir.at
    ensures var d, last, other := s.dir.Remove(KeysOf(s.entries[s.next..j])), Last(s, j, e), SurvivorKey(s, n);
            && last.Used? && other in d.at && other != last.key && key !in d.at
            && (last.key in d.at <==> j < |s.entries|)
            && (last.key in d.at ==> TotalBytes(s.entries) - TotalBytes(s.entries[s.next..j]) > |last.data|)
  {
    var p, m := Survivor(s, n), |s.entries|;
    SurvivorLives(s, n);
    KeptInDir(s, j, p);
    if j < m {
      UsedPast(s, m - 1);
      KeptInDir(s, j, m - 1);
      CoreKeys(s, {});
      BytesLeft(s.entries, s.next, j, m - 1, p);
    }
  }

  /** The new entry fits between the entries around the run. */
  lemma FitsBelow(s: State, key: Checksum, data: seq<byte>)
    requires Rewound(s) && s.next < |s.entries| && !Truncates(s, |data|) && s.geo.Accepts(data)
    ensures var j := VictimEnd(s, |data|); var e := Replacement(s, j, key, data)[0];
            && e == Used(s.entries[s.next].off, key, data, s.clock)
            && e.End() <= s.Boundary(j) <= s.top && |data| < SIZE_LIMIT
            && (s.entries[s.next].Size() == |data| ==> e.End() == s.Boundary(j))
  {
    CoreChain(s, {});
    var j := VictimEnd(s, |data|);
    BoundaryOrder(s, j, |s.entries|);
    assert s.entries[j - 1].End() == s.Boundary(j);
  }

  /** The parts once the record is placed, below a top that is where it was. */
  lemma PartsStay(mem: seq<Slot>, mem': seq<Slot>, s: State, j: nat, e: Entry)
    requires Tiled(s.entries, s.top) && s.next < j <= |s.entries| && Parts(mem, s, j, |s.entries|, e)
    requires e.End() <= s.Boundary(j) && SameBelow(mem, mem', s.top + ENTRY_SIZE)
    ensures Parts(mem', s, j, |s.entries|, e)
  {
    TopKept(mem, mem', s.top, PrevSize(s.entries, |s.entries|), s.top + ENTRY_SIZE);
    SameBelowLess(mem, mem', s.top + ENTRY_SIZE, s.top);
    PartsBelow(mem, mem', s, j, |s.entries|, |s.entries|, e);
  }

  /** And below a top that was lowered by one entry. */
  lemma PartsLowered(mem: seq<Slot>, mem': seq<Slot>, s: State, j: nat, e: Entry)
    requires Tiled(s.entries, s.top) && s.next < j < |s.entries| && Parts(mem, s, j, |s.entries|, e)
    requires e.End() <= s.Boundary(j) && SameBelow(mem, mem', s.entries[|s.entries| - 1].off)
    requires TopAt(mem', s.entries[|s.entries| - 1].off, PrevSize(s.entries, |s.entries| - 1))
    ensures Parts(mem', s, j, |s.entries| - 1, e)
  {
    PartsBelow(mem, mem', s, j, |s.entries|, |s.entries| - 1, e);
  }

  /** The payload bytes of the chain that is left. */
  lemma TotalPlaced(entries: seq<Entry>, i: nat, j: nat, mid: seq<Entry>, n: nat)
    requires i <= j <= n <= |entries| <= n + 1
    requires 1 <= |mid| <= 2 && mid[0].Used? && (|mid| == 2 ==> mid[1].Free?)
    requires n < |entries| ==> entries[n].Used?
    ensures TotalBytes(entries[..i] + mid + entries[j..n]) ==
            TotalBytes(entries) - TotalBytes(entries[i..j]) + |mid[0].data|
            - if n < |entries| then |entries[n].data| else 0
  {
    TotalSplit(entries, i, j);
    TotalConcat(entries[..i] + mid, entries[j..n]);
    TotalConcat(entries[..i], mid);
    TotalMid(mid);
    TotalFrom(entries, j, n);
  }

  lemma PlacedBytes(s': State, s: State, j: nat, mid: seq<Entry>, n: nat, d: Dir)
    requires s.next < j <= n <= |s.entries| <= n + 1 && IsPlaced(s', s, j, mid, n, d)
    requires 1 <= |mid| <= 2 && mid[0].Used? && (|mid| == 2 ==> mid[1].Free?)
    requires n < |s.entries| ==> s.entries[n].Used?
    ensures TotalBytes(s'.entries) ==
            BytesWithout(s, j) + |mid[0].data| - if n < |s.entries| then |s.entries[n].data| else 0
  {
    assert OpenPlaced(0);
    TotalPlaced(s.entries, s.next, j, mid, n);
  }

  /** The fields of the state, and where its next points. */
  lemma PlacedFields(s': State, s: State, j: nat, mid: seq<Entry>, n: nat, d: Dir)
    requires s.next < j <= n <= |s.entries| && IsPlaced(s', s, j, mid, n, d) && 1 <= |mid| <= 2
    ensures s'.geo == s.geo && s'.dir == d && s'.top == s.Boundary(n)
    ensures s'.entries == s.entries[..s.next] + mid + s.entries[j..n]
    ensures s'.Boundary(s'.next) == if |mid| == 2 then mid[1].off else s.Boundary(j)
  {
    assert OpenPlaced(0);
    if |mid| == 2 {
      assert s'.entries[s.next + 1] == mid[1];
    } else if j < n {
      assert s'.entries[s.next + 1] == s.entries[j];
    }
  }

  lemma TotalMid(mid: seq<Entry>)
    requires 1 <= |mid| <= 2 && mid[0].Used? && (|mid| == 2 ==> mid[1].Free?)
    ensures TotalBytes(mid) == |mid[0].data|
  {
    TotalOne(mid[0]);
    if |mid| == 2 {
      assert mid == [mid[0]] + [mid[1]];
      TotalConcat([mid[0]], [mid[1]]);
      TotalOne(mid[1]);
    } else {
      assert mid == [mid[0]];
    }
  }

  lemma TotalFrom(entries: seq<Entry>, j: nat, n: nat)
    requires j <= n <= |entries| <= n + 1
    requires n < |entries| ==> entries[n].Used?
    ensures TotalBytes(entries[j..]) == TotalBytes(entries[j..n]) + if n < |entries| then |entries[n].data| else 0
  {
    if n < |entries| {
      assert entries[j..] == entries[j..n] + [entries[n]];
      TotalConcat(entries[j..n], [entries[n]]);
      TotalOne(entries[n]);
    } else {
      assert entries[j..] == entries[j..n];
    }
  }

  // ----- the remainder of the run --------------------------------------------------------------------

  /** The parts, with the remainder written between the new entry and entry j. */
  ghost predicate WithRest(mem: seq<Slot>, s: State, j: nat, n: nat, e: Entry, rest: Entry)
    requires s.next < j <= n <= |s.entries|
  {
    Parts(mem, s, j, n, e) && EntryAt(mem, rest, e.Size())
  }

  lemma RestWritten(mem: seq<Slot>, s: State, j: nat, n: nat, e: Entry, rest: Entry)
    requires Tiled(s.entries, s.top) && s.next < j <= n <= |s.entries| && Parts(mem, s, j, n, e)
    requires e.off == s.entries[s.next].off && rest.Free? && rest.off == e.End() && rest.End() == s.Boundary(j)
    requires rest.End() <= |mem|
    ensures WithRest(Write(mem, rest.off, Image(HeadOf(rest, e.Size()))), s, j, n, e, rest)
  {
    PartsBeside(mem, s, j, n, e, rest.off, Image(HeadOf(rest, e.Size())));
    FreeWritten(mem, rest, e.Size());
  }

  lemma PartsBeside(mem: seq<Slot>, s: State, j: nat, n: nat, e: Entry, p: nat, xs: seq<Slot>)
    requires Tiled(s.entries, s.top) && s.next < j <= n <= |s.entries| && Parts(mem, s, j, n, e)
    requires e.off == s.entries[s.next].off && e.End() <= p && p + |xs| <= s.Boundary(j) && p + |xs| <= |mem|
    ensures Parts(Write(mem, p, xs), s, j, n, e)
  {
    forall i | 0 <= i < s.next ensures s.entries[i].End() <= p {
      BoundaryOrder(s, i, s.next);
    }
    forall i | j <= i < n ensures p + |xs| <= s.entries[i].off {
      BoundaryOrder(s, j, i);
    }
    BoundaryOrder(s, j, n);
    RangeBeside(mem, p, xs, s.entries, 0, s.next);
    RangeBeside(mem, p, xs, s.entries, j, n);
    EntryBeside(mem, p, xs, e, PrevSize(s.entries, s.next));
    TopBeside(mem, p, xs, s.Boundary(n), PrevSize(s.entries, n));
  }

  lemma FreeWritten(mem: seq<Slot>, e: Entry, prev: nat)
    requires e.Free? && e.End() <= |mem|
    ensures EntryAt(Write(mem, e.off, Image(HeadOf(e, prev))), e, prev)
  {
    var xs := Image(HeadOf(e, prev));
    WriteReads(mem, e.off, xs);
    assert Write(mem, e.off, xs)[e.off..e.off + ENTRY_SIZE][0] == Write(mem, e.off, xs)[e.off];
  }

  /** The header above the remainder: of entry j, or of the top. */
  function HeadAbove(mem: seq<Slot>, s: State, j: nat, n: nat): Slot
    requires j <= n <= |s.entries| && s.Boundary(n) < |mem|
  {
    if j < n then HeadOf(s.entries[j], PrevSize(s.entries, j)) else mem[s.Boundary(n)]
  }

  lemma AboveIsHead(mem: seq<Slot>, s: State, j: nat, n: nat, e: Entry)
    requires s.next < j <= n <= |s.entries| && Parts(mem, s, j, n, e)
    ensures HeadAt(mem, s.Boundary(j), HeadAbove(mem, s, j, n))
  {
    if j < n {
      LaidAt(mem, s.entries, j, n, j);
      EntryHead(mem, s.entries[j], PrevSize(s.entries, j));
    } else {
      assert OpenHead(0);
    }
  }

  /** Once that header names the size of the remainder, the new chain lies in memory. */
  lemma RestLinked(mem: seq<Slot>, s: State, j: nat, n: nat, e: Entry, rest: Entry)
    requires Tiled(s.entries, s.top) && s.next < j <= n <= |s.entries| && WithRest(mem, s, j, n, e, rest)
    requires e.off == s.entries[s.next].off && rest.off == e.End() && rest.End() == s.Boundary(j)
    requires s.Boundary(j) + ENTRY_SIZE <= |mem|
    ensures var h := HeadAbove(mem, s, j, n);
            && h.Head?
            && Laid(Write(mem, s.Boundary(j), Image(h.(prev := rest.Size()))),
                    s.entries[..s.next] + [e, rest] + s.entries[j..n], s.Boundary(n))
  {
    AboveIsHead(mem, s, j, n, e);
    var p, h := s.Boundary(j), HeadAbove(mem, s, j, n);
    var xs := Image(h.(prev := rest.Size()));
    var mem' := Write(mem, p, xs);
    LinkedBelow(mem, s, j, n, e, rest, p, xs);
    LinkedAbove(mem, s, j, n, e, rest.Size());
    var mid := [e, rest];
    assert MidLaid(mem', mid, PrevSize(s.entries, s.next));
    SpliceIs(s.entries, s.next, j, mid, n);
    LaidSplice(mem', s.entries[..s.next] + mid + s.entries[j..n], s.entries, s.next, j, mid, n, s.Boundary(n),
               if j < n then PrevSize(s.entries, n) else rest.Size());
  }

  lemma LinkedBelow(mem: seq<Slot>, s: State, j: nat, n: nat, e: Entry, rest: Entry, p: nat, xs: seq<Slot>)
    requires Tiled(s.entries, s.top) && s.next < j <= n <= |s.entries| && WithRest(mem, s, j, n, e, rest)
    requires e.off == s.entries[s.next].off && rest.off == e.End() && rest.End() == p && p + |xs| <= |mem|
    ensures var mem' := Write(mem, p, xs);
            && LaidRange(mem', s.entries, 0, s.next)
            && EntryAt(mem', e, PrevSize(s.entries, s.next)) && EntryAt(mem', rest, e.Size())
  {
    forall i | 0 <= i < s.next ensures s.entries[i].End() <= p {
      BoundaryOrder(s, i, s.next);
    }
    RangeBeside(mem, p, xs, s.entries, 0, s.next);
    EntryBeside(mem, p, xs, e, PrevSize(s.entries, s.next));
    EntryBeside(mem, p, xs, rest, e.Size());
  }

  lemma LinkedAbove(mem: seq<Slot>, s: State, j: nat, n: nat, e: Entry, prev: nat)
    requires Tiled(s.entries, s.top) && s.next < j <= n <= |s.entries| && Parts(mem, s, j, n, e)
    requires s.Boundary(j) + ENTRY_SIZE <= |mem|
    ensures var h := HeadAbove(mem, s, j, n);
            && h.Head?
            && var mem' := Write(mem, s.Boundary(j), Image(h.(prev := prev)));
            && (j < n ==> EntryAt(mem', s.entries[j], prev))
            && LaidRange(mem', s.entries, j + 1, n)
            && TopAt(mem', s.Boundary(n), if j < n then PrevSize(s.entries, n) else prev)
  {
    AboveIsHead(mem, s, j, n, e);
    var p, h := s.Boundary(j), HeadAbove(mem, s, j, n);
    var xs := Image(h.(prev := prev));
    PutHead(mem, p, h.(prev := prev));
    if j < n {
      Relinked(mem, s.entries[j], PrevSize(s.entries, j), prev, s, j, n);
      forall i | j + 1 <= i < n ensures p + |xs| <= s.entries[i].off {
        BoundaryOrder(s, j, i);
      }
      BoundaryOrder(s, j, n);
      LaidPart(mem, s.entries, j, n, j + 1, n);
      RangeBeside(mem, p, xs, s.entries, j + 1, n);
      TopBeside(mem, p, xs, s.Boundary(n), PrevSize(s.entries, n));
    } else {
      NoneLaid(Write(mem, p, xs), s.entries, j + 1, n);
      TopIsHead(Write(mem, p, xs), p, h.key, prev);
    }
  }

  lemma NoneLaid(mem: seq<Slot>, entries: seq<Entry>, lo: nat, hi: nat)
    requires hi <= |entries| && hi <= lo
    ensures LaidRange(mem, entries, lo, hi)
  {
  }

  lemma Relinked(mem: seq<Slot>, e: Entry, was: nat, prev: nat, s: State, j: nat, n: nat)
    requires j < n <= |s.entries| && LaidRange(mem, s.entries, j, n)
    requires e == s.entries[j] && was == PrevSize(s.entries, j)
    ensures e.End() <= |mem| && HeadOf(e, was).Head?
    ensures EntryAt(Write(mem, e.off, Image(HeadOf(e, was).(prev := prev))), e, prev)
  {
    LaidAt(mem, s.entries, j, n, j);
    assert OpenEntry(0);
    var xs := Image(HeadOf(e, was).(prev := prev));
    WriteReads(mem, e.off, xs);
    WriteKeeps(mem, e.off, xs, e.off + ENTRY_SIZE, e.End());
    assert Write(mem, e.off, xs)[e.off..e.off + ENTRY_SIZE][0] == Write(mem, e.off, xs)[e.off];
  }

  /** An entry of the same size needs no remainder. */
  lemma SameSizeLaid(mem: seq<Slot>, s: State, n: nat, e: Entry)
    requires s.next + 1 <= n <= |s.entries| && Parts(mem, s, s.next + 1, n, e) && e.Size() == s.entries[s.next].Size()
    ensures Laid(mem, s.entries[..s.next] + [e] + s.entries[s.next + 1..n], s.Boundary(n))
  {
    var j := s.next + 1;
    SpliceIs(s.entries, s.next, j, [e], n);
    assert MidLaid(mem, [e], PrevSize(s.entries, s.next));
    if j < n {
      LaidAt(mem, s.entries, j, n, j);
    }
    LaidPart(mem, s.entries, j, n, j + 1, n);
    LaidSplice(mem, s.entries[..s.next] + [e] + s.entries[j..n], s.entries, s.next, j, [e], n, s.Boundary(n),
               PrevSize(s.entries, n));
  }

  lemma SameSizeMid(s: State, key: Checksum, data: seq<byte>)
    requires Rewound(s) && s.next < |s.entries| && s.entries[s.next].Size() == |data| && s.geo.Accepts(data)
    ensures var j, e := VictimEnd(s, |data|), Used(s.entries[s.next].off, key, data, s.clock);
            && !Truncates(s, |data|) && j == s.next + 1 && Replacement(s, j, key, data) == [e]
            && e.End() == s.Boundary(j) <= s.top && |data| < SIZE_LIMIT && s.entries[j - 1].Size() == e.Size()
  {
    FitsBelow(s, key, data);
  }

  lemma SplitMid(s: State, key: Checksum, data: seq<byte>)
    requires Rewound(s) && s.next < |s.entries| && s.geo.Accepts(data)
    requires s.entries[s.next].Size() != |data| && VictimEnd(s, |data|) < |s.entries|
    ensures var j, e := VictimEnd(s, |data|), Used(s.entries[s.next].off, key, data, s.clock);
            && !Truncates(s, |data|)
            && s.entries[j - 1].End() >= e.End() + ENTRY_SIZE
            && var rest := Free(e.End(), s.entries[j - 1].End() - e.End() - ENTRY_SIZE);
               && Replacement(s, j, key, data) == [e, rest] && rest.End() == s.Boundary(j) <= s.top
               && rest.room < SIZE_LIMIT && |data| < SIZE_LIMIT
  {
    assert OpenRing(0);
    CoreChain(s, {});
    FitsBelow(s, key, data);
    VictimsBounded(s, |data|);
  }

  /** A new entry above the first n of the chain, and a top above it. */
  lemma AppendLaid(mem: seq<Slot>, entries: seq<Entry>, e: Entry)
    requires LaidRange(mem, entries, 0, |entries|) && EntryAt(mem, e, PrevSize(entries, |entries|))
    requires TopAt(mem, e.End(), e.Size())
    ensures Laid(mem, entries + [e], e.End())
  {
    var n := |entries|;
    SpliceIs(entries, n, n, [e], n);
    assert entries[..n] + [e] + entries[n..n] == entries + [e];
    assert MidLaid(mem, [e], PrevSize(entries, n));
    NoneLaid(mem, entries, n + 1, n);
    LaidSplice(mem, entries + [e], entries, n, n, [e], n, e.End(), e.Size());
  }

  /** An append writes above the chain. */
  lemma ChainKept(mem: seq<Slot>, mem': seq<Slot>, s: State)
    requires Tiled(s.entries, s.top) && Laid(mem, s.entries, s.top) && SameBelow(mem, mem', s.top)
    ensures LaidRange(mem', s.entries, 0, |s.entries|)
  {
    EndsBelowTop(s);
    RangeKept(mem, mem', s.entries, 0, |s.entries|, s.top);
  }

  /** The chain below a lowered top. */
  lemma TruncatedLaid(mem: seq<Slot>, mem': seq<Slot>, s: State)
    requires Tiled(s.entries, s.top) && s.next < |s.entries| && Opened(mem, s)
    requires SameBelow(mem, mem', s.entries[s.next].off)
    requires TopAt(mem', s.entries[s.next].off, PrevSize(s.entries, s.next))
    ensures Laid(mem', Truncate(s).entries, Truncate(s).top)
  {
    forall i | 0 <= i < s.next ensures s.entries[i].End() <= s.entries[s.next].off {
      BoundaryOrder(s, i, s.next);
    }
    RangeKept(mem, mem', s.entries, 0, s.next, s.entries[s.next].off);
    LaidPrefix(mem', s.entries, s.next, s.entries[s.next].off);
  }

  lemma TruncatedBytes(s: State)
    requires s.next < |s.entries|
    ensures TotalBytes(Truncate(s).entries) ==
            TotalBytes(s.entries) - TotalBytes(s.entries[s.next..|s.entries|])
  {
    TotalSplit(s.entries, s.next, |s.entries|);
    assert s.entries[|s.entries|..] == [];
  }

  lemma AppendedBytes(s: State, e: Entry)
    requires e.Used?
    ensures TotalBytes(s.entries + [e]) == TotalBytes(s.entries) + |e.data|
  {
    TotalConcat(s.entries, [e]);
    TotalOne(e);
  }

  /** next points at the top exactly when it is past the chain. */
  lemma NextIsTop(mem: seq<Slot>, s: State)
    requires Tiled(s.entries, s.top) && s.next <= |s.entries| && Laid(mem, s.entries, s.top)
    ensures s.Boundary(s.next) < |mem| && mem[s.Boundary(s.next)].Head?
    ensures mem[s.Boundary(s.next)].top <==> s.next == |s.entries|
  {
    if s.next < |s.entries| {
      LaidAt(mem, s.entries, 0, |s.entries|, s.next);
    }
  }

  lemma AppendRoom(s: State, key: Checksum, data: seq<byte>)
    requires Rewound(s) && key !in s.dir.at && s.geo.Accepts(data)
    ensures s.FreeSpace() >= |data| + ENTRY_SIZE + RECORD_SIZE ==> |s.dir.overflow| + 1 < BLOCK_OVERFLOW_LIMIT
  {
    if s.FreeSpace() >= |data| + ENTRY_SIZE + RECORD_SIZE {
      OverflowRoomAbove(s, key, data);
    }
  }

  lemma TruncateAbsent(s: State, key: Checksum)
    requires Rewound(s) && s.next < |s.entries| && key !in s.dir.at
    ensures Rewound(Truncate(s)) && Truncate(s).dir.at.Keys <= s.dir.at.Keys && key !in Truncate(s).dir.at
    ensures Truncate(s).dir == Without(s, |s.entries|)
  {
    TruncateKeeps(s);
    TruncateKeys(s);
    assert s.entries[s.next..] == s.entries[s.next..|s.entries|];
  }

  /** An insertion that finds no room at the top starts again at 0, where it never reaches it. */
  lemma AtStart(s: State, key: Checksum, data: seq<byte>)
    requires Rewound(s) && s.next == |s.entries| && s.geo.Accepts(data) && key !in s.dir.at
    requires s.FreeSpace() < |data| + ENTRY_SIZE + RECORD_SIZE
    ensures s.entries != [] && MayEvict(s.(next := 0), |data|) && s.(next := 0).Boundary(0) == 0
    ensures Append(s, key, data) == Dropped(s)
  {
    RewindLeavesTwo(s, |data|);
    RewoundTo0(s);
    CoreChain(s, {});
  }
}
