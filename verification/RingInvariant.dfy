/** Every insertion keeps the invariant of the ring, and aborts exactly when the tail
    hazard is met. */
module RingInvariant {
  import opened Types
  import opened Ring

  // ----- sequences of entries ----------------------------------------------------------

  lemma KeysOfConcat(a: seq<Entry>, b: seq<Entry>)
    ensures KeysOf(a + b) == KeysOf(a) + KeysOf(b)
  {
    forall k | k in KeysOf(a) + KeysOf(b) ensures k in KeysOf(a + b) {
      var e :| (e in a || e in b) && e.Used? && e.key == k;
      assert e in a + b;
    }
  }

  lemma KeysOfSplit(entries: seq<Entry>, i: nat, j: nat)
    requires i <= j <= |entries|
    ensures KeysOf(entries) == KeysOf(entries[..i]) + KeysOf(entries[i..j]) + KeysOf(entries[j..])
  {
    assert entries == entries[..i] + (entries[i..j] + entries[j..]);
    KeysOfConcat(entries[..i], entries[i..j] + entries[j..]);
    KeysOfConcat(entries[i..j], entries[j..]);
  }

  /** Distinct keys make the three parts of a split disjoint. */
  lemma KeysOfDisjoint(entries: seq<Entry>, i: nat, j: nat)
    requires i <= j <= |entries| && DistinctKeys(entries)
    ensures KeysOf(entries[i..j]) !! KeysOf(entries[..i]) + KeysOf(entries[j..])
  {
    forall k | k in KeysOf(entries[i..j]) ensures k !in KeysOf(entries[..i]) + KeysOf(entries[j..]) {
      var e :| e in entries[i..j] && e.Used? && e.key == k;
      var a :| i <= a < j && entries[a] == e;
      forall f | (f in entries[..i] || f in entries[j..]) && f.Used? ensures f.key != k {
        var b :| (0 <= b < i || j <= b < |entries|) && entries[b] == f;
        assert entries[a].key != entries[b].key;
      }
    }
  }

  lemma {:induction false} TiledOrder(entries: seq<Entry>, top: nat, i: nat, j: nat)
    requires Tiled(entries, top) && i < j <= |entries|
    ensures entries[i].End() <= if j < |entries| then entries[j].off else top
    decreases j - i
  {
    if i + 1 < j {
      TiledOrder(entries, top, i, j - 1);
      assert entries[j - 1].End() == if j < |entries| then entries[j].off else top;
    }
  }

  // ----- the directory -------------------------------------------------------------------

  lemma InBlockAdd(keys: set<Checksum>, key: Checksum, b: nat)
    requires key !in keys
    ensures |InBlock(keys + {key}, b)| == |InBlock(keys, b)| + if BlockNo(key) == b then 1 else 0
  {
    if BlockNo(key) == b {
      assert InBlock(keys + {key}, b) == InBlock(keys, b) + {key};
    } else {
      assert InBlock(keys + {key}, b) == InBlock(keys, b);
    }
  }

  lemma SubsetSize<T>(a: set<T>, b: set<T>)
    requires a <= b
    ensures |a| <= |b|
  {
    assert b == a + (b - a);
  }

  /** Removal takes the keys out of whichever level holds them. */
  lemma RemoveKeeps(dir: Dir, keys: set<Checksum>)
    requires dir.Consistent()
    ensures dir.Remove(keys).Keys() == dir.Keys() - keys
    ensures dir.Remove(keys).Consistent()
  {
  }

  lemma RemoveBounds(dir: Dir, keys: set<Checksum>)
    requires BlocksBounded(dir)
    ensures BlocksBounded(dir.Remove(keys))
    ensures |dir.Remove(keys).overflow| <= |dir.overflow|
  {
    SubsetSize(dir.Remove(keys).overflow, dir.overflow);
    forall b: nat | b < CELL_DIR_BLOCK_COUNT
      ensures |InBlock(dir.Remove(keys).blocks, b)| <= CELL_DIR_BLOCK_ENTRIES
    {
      SubsetSize(InBlock(dir.Remove(keys).blocks, b), InBlock(dir.blocks, b));
    }
  }

  lemma AddKeeps(dir: Dir, key: Checksum, off: nat)
    requires dir.Consistent() && key !in dir.Keys()
    ensures dir.Add(key, off).Keys() == dir.Keys() + {key}
    ensures dir.Add(key, off).Consistent()
  {
  }

  lemma AddBounds(dir: Dir, key: Checksum, off: nat)
    requires dir.Consistent() && key !in dir.Keys() && BlocksBounded(dir)
    ensures BlocksBounded(dir.Add(key, off))
    ensures |dir.overflow| <= |dir.Add(key, off).overflow| <= |dir.overflow| + 1
  {
    forall b: nat | b < CELL_DIR_BLOCK_COUNT
      ensures |InBlock(dir.Add(key, off).blocks, b)| <= CELL_DIR_BLOCK_ENTRIES
    {
      InBlockAdd(dir.blocks, key, b);
    }
  }

  // ----- what Core says -----------------------------------------------------------------------------

  lemma CoreChain(s: State, pending: set<Checksum>)
    requires Core(s, pending)
    ensures Tiled(s.entries, s.top) && SizesBounded(s.entries, s.geo)
  {
    assert OpenCore(0);
  }

  lemma CoreKeys(s: State, pending: set<Checksum>)
    requires Core(s, pending)
    ensures s.dir.Consistent() && s.dir.Keys() == KeysOf(s.entries) - pending
    ensures DistinctKeys(s.entries)
  {
    assert OpenCore(0);
  }

  lemma CoreDir(s: State, pending: set<Checksum>)
    requires Core(s, pending)
    ensures Indexed(s.entries, s.dir, pending) && BlocksBounded(s.dir) && DistinctKeys(s.entries)
  {
    assert OpenCore(0);
  }

  lemma CoreIntro(s: State, pending: set<Checksum>)
    requires s.geo.Valid() && s.FreeSpace() >= 0
    requires Tiled(s.entries, s.top) && DistinctKeys(s.entries) && Indexed(s.entries, s.dir, pending)
    requires SizesBounded(s.entries, s.geo) && BlocksBounded(s.dir)
    ensures Core(s, pending)
  {
  }

  // ----- one step at a time ----------------------------------------------------------------

  /** Entries that can stand where entries[i..j] stood: they fill the same bytes, and the
      only key among them is the new one. */
  ghost predicate Fits(s: State, i: nat, j: nat, mid: seq<Entry>, top': nat, key: Checksum)
    requires i <= j <= |s.entries|
  {
    && (if |mid| == 0 then j == |s.entries| && top' == s.Boundary(i)
        else mid[0].off == s.Boundary(i) && (j < |s.entries| ==> top' == s.top)
             && mid[|mid| - 1].End() == (if j < |s.entries| then s.entries[j].off else top'))
    && (forall k | 0 <= k < |mid| :: mid[k].Used? <==> k == 0)
    && (forall k {:trigger mid[k].End()} | 0 <= k < |mid| - 1 :: mid[k].End() == mid[k + 1].off)
    && (|mid| > 0 ==> mid[0].key == key)
    && SizesBounded(mid, s.geo)
  }

  /** The state with entries[i..j] replaced by mid, the top moved and their records dropped. */
  function Spliced(s: State, i: nat, j: nat, mid: seq<Entry>, top': nat): State
    requires i <= j <= |s.entries|
  {
    s.(entries := s.entries[..i] + mid + s.entries[j..], top := top',
       dir := s.dir.Remove(KeysOf(s.entries[i..j])))
  }

  lemma SpliceTiled(s: State, i: nat, j: nat, mid: seq<Entry>, top': nat, key: Checksum)
    requires i <= j <= |s.entries| && Tiled(s.entries, s.top) && Fits(s, i, j, mid, top', key)
    ensures Tiled(s.entries[..i] + mid + s.entries[j..], top')
  {
    var es := s.entries[..i] + mid + s.entries[j..];
    assert i > 0 ==> s.entries[i - 1].End() == s.Boundary(i);
    forall a | 0 <= a < |es|
      ensures es[a].End() == if a + 1 < |es| then es[a + 1].off else top'
    {
      if a < i {
        assert es[a] == s.entries[a];
      } else if a < i + |mid| {
        assert es[a] == mid[a - i];
      } else {
        assert es[a] == s.entries[a - i - |mid| + j];
      }
    }
  }

  lemma SpliceDistinct(s: State, i: nat, j: nat, mid: seq<Entry>, top': nat, key: Checksum)
    requires i <= j <= |s.entries| && DistinctKeys(s.entries) && Fits(s, i, j, mid, top', key)
    requires mid != [] ==> key !in KeysOf(s.entries)
    ensures DistinctKeys(s.entries[..i] + mid + s.entries[j..])
  {
    var es := s.entries[..i] + mid + s.entries[j..];
    forall a, b | 0 <= a < b < |es| && es[a].Used? && es[b].Used? ensures es[a].key != es[b].key {
      assert forall c | 0 <= c < |s.entries| && s.entries[c].Used? :: s.entries[c].key in KeysOf(s.entries);
      var a' := if a < i then a else a - i - |mid| + j;
      var b' := if b < i then b else b - i - |mid| + j;
      assert (a < i || a >= i + |mid|) ==> es[a] == s.entries[a'];
      assert (b < i || b >= i + |mid|) ==> es[b] == s.entries[b'];
    }
  }

  lemma SpliceKeys(s: State, i: nat, j: nat, mid: seq<Entry>, top': nat, key: Checksum, pending: set<Checksum>)
    requires i <= j <= |s.entries| && DistinctKeys(s.entries) && Fits(s, i, j, mid, top', key)
    requires mid != [] ==> key !in KeysOf(s.entries)
    requires Indexed(s.entries, s.dir, pending) && pending <= KeysOf(s.entries) - KeysOf(s.entries[i..j])
    ensures s.dir.Remove(KeysOf(s.entries[i..j])).Keys() ==
            KeysOf(s.entries[..i] + mid + s.entries[j..]) - (pending + KeysOf(mid))
    ensures KeysOf(mid) == if mid == [] then {} else {key}
  {
    KeysOfSplit(s.entries, i, j);
    KeysOfDisjoint(s.entries, i, j);
    KeysOfConcat(s.entries[..i] + mid, s.entries[j..]);
    KeysOfConcat(s.entries[..i], mid);
    RemoveKeeps(s.dir, KeysOf(s.entries[i..j]));
    assert mid != [] ==> mid[0] in mid;
  }

  lemma SpliceIndexed(s: State, i: nat, j: nat, mid: seq<Entry>, top': nat, key: Checksum, pending: set<Checksum>)
    requires i <= j <= |s.entries| && DistinctKeys(s.entries) && Fits(s, i, j, mid, top', key)
    requires mid != [] ==> key !in KeysOf(s.entries)
    requires Indexed(s.entries, s.dir, pending) && pending <= KeysOf(s.entries) - KeysOf(s.entries[i..j])
    ensures Indexed(s.entries[..i] + mid + s.entries[j..], s.dir.Remove(KeysOf(s.entries[i..j])),
                    pending + KeysOf(mid))
  {
    var es := s.entries[..i] + mid + s.entries[j..];
    var dir' := s.dir.Remove(KeysOf(s.entries[i..j]));
    SpliceKeys(s, i, j, mid, top', key, pending);
    RemoveKeeps(s.dir, KeysOf(s.entries[i..j]));
    forall a | 0 <= a < |es| && es[a].Used? && es[a].key in dir'.at
      ensures dir'.at[es[a].key] == es[a].off
    {
      assert es[a].key !in KeysOf(mid);
      assert a < i || a >= i + |mid|;
      var c := if a < i then a else a - i - |mid| + j;
      assert es[a] == s.entries[c];
    }
  }

  lemma SpliceSizes(s: State, i: nat, j: nat, mid: seq<Entry>)
    requires i <= j <= |s.entries| && SizesBounded(s.entries, s.geo) && SizesBounded(mid, s.geo)
    ensures SizesBounded(s.entries[..i] + mid + s.entries[j..], s.geo)
  {
  }

  /** Replacing a run of entries by others that fill its bytes, and dropping its records,
      leaves only the new entry's record pending and gives up no space. */
  lemma SpliceCore(s: State, i: nat, j: nat, mid: seq<Entry>, top': nat, key: Checksum, pending: set<Checksum>)
    requires i <= j <= |s.entries| && Core(s, pending) && Fits(s, i, j, mid, top', key)
    requires mid != [] ==> key !in KeysOf(s.entries)
    requires pending <= KeysOf(s.entries) - KeysOf(s.entries[i..j])
    requires s.FreeSpace() + s.top >= top'
    ensures Core(Spliced(s, i, j, mid, top'), pending + if mid == [] then {} else {key})
    ensures Spliced(s, i, j, mid, top').FreeSpace() >= s.FreeSpace() + (s.top - top')
  {
    CoreChain(s, pending);
    CoreDir(s, pending);
    SpliceTiled(s, i, j, mid, top', key);
    SpliceDistinct(s, i, j, mid, top', key);
    SpliceKeys(s, i, j, mid, top', key, pending);
    SpliceIndexed(s, i, j, mid, top', key, pending);
    SpliceSizes(s, i, j, mid);
    RemoveBounds(s.dir, KeysOf(s.entries[i..j]));
    CoreIntro(Spliced(s, i, j, mid, top'), pending + if mid == [] then {} else {key});
  }

  /** Deleting the entry below the top. */
  lemma PopCore(s: State, pending: set<Checksum>)
    requires Core(s, pending) && |s.entries| > 0 && s.entries[|s.entries| - 1].Used?
    requires s.entries[|s.entries| - 1].key !in pending && pending <= KeysOf(s.entries)
    ensures s.entries[|s.entries| - 1].key in s.dir.Keys()
    ensures Core(Pop(s), pending)
    ensures Pop(s).FreeSpace() >= s.FreeSpace() + ENTRY_SIZE + s.entries[|s.entries| - 1].Size()
  {
    CoreChain(s, pending);
    CoreKeys(s, pending);
    PopFits(s);
    var last := s.entries[|s.entries| - 1];
    DropCore(s, |s.entries| - 1, last.off, last.key, pending);
  }

  lemma DropCore(s: State, i: nat, top': nat, key: Checksum, pending: set<Checksum>)
    requires i <= |s.entries| && Core(s, pending) && Fits(s, i, |s.entries|, [], top', key)
    requires pending <= KeysOf(s.entries) - KeysOf(s.entries[i..|s.entries|]) && top' <= s.top
    ensures Core(Spliced(s, i, |s.entries|, [], top'), pending)
    ensures Spliced(s, i, |s.entries|, [], top').FreeSpace() >= s.FreeSpace() + (s.top - top')
  {
    SpliceCore(s, i, |s.entries|, [], top', key, pending);
    var none: set<Checksum> := {};
    assert pending + none == pending;
  }

  lemma PopFits(s: State)
    requires |s.entries| > 0 && s.entries[|s.entries| - 1].Used? && Tiled(s.entries, s.top)
    ensures var n := |s.entries|; var last := s.entries[n - 1];
            && Pop(s) == Spliced(s, n - 1, n, [], last.off)
            && Fits(s, n - 1, n, [], last.off, last.key)
            && last.key in KeysOf(s.entries) && KeysOf(s.entries[n - 1..n]) == {last.key}
            && s.top == last.off + ENTRY_SIZE + last.Size()
  {
    var n := |s.entries|;
    LastKey(s.entries);
    assert s.entries[n - 1] in s.entries && s.entries[n - 1].End() == s.top;
    assert s.entries[..n - 1] + [] + s.entries[n..] == s.entries[..n - 1];
  }

  lemma LastKey(entries: seq<Entry>)
    requires |entries| > 0 && entries[|entries| - 1].Used?
    ensures KeysOf(entries[|entries| - 1..|entries|]) == {entries[|entries| - 1].key}
  {
    assert entries[|entries| - 1..|entries|] == [entries[|entries| - 1]];
  }

  /** Adding the pending record. */
  lemma AddCore(s: State, p: nat)
    requires p < |s.entries| && s.entries[p].Used? && Core(s, {s.entries[p].key})
    requires s.FreeSpace() >= RECORD_SIZE
    ensures Core(s.(dir := s.dir.Add(s.entries[p].key, s.entries[p].off)), {})
    ensures s.(dir := s.dir.Add(s.entries[p].key, s.entries[p].off)).FreeSpace() >= s.FreeSpace() - RECORD_SIZE
  {
    var e := s.entries[p];
    CoreChain(s, {e.key});
    CoreDir(s, {e.key});
    AddBounds(s.dir, e.key, e.off);
    AddIndexed(s.entries, s.dir, p);
    CoreIntro(s.(dir := s.dir.Add(e.key, e.off)), {});
  }

  lemma AddIndexed(entries: seq<Entry>, dir: Dir, p: nat)
    requires p < |entries| && entries[p].Used? && DistinctKeys(entries) && Indexed(entries, dir, {entries[p].key})
    ensures Indexed(entries, dir.Add(entries[p].key, entries[p].off), {})
  {
    var e := entries[p];
    AddKeeps(dir, e.key, e.off);
    var dir' := dir.Add(e.key, e.off);
    assert e in entries;
    assert dir'.Keys() == KeysOf(entries);
    forall a | 0 <= a < |entries| && entries[a].Used? && entries[a].key in dir'.at
      ensures dir'.at[entries[a].key] == entries[a].off
    {
      assert a != p ==> entries[a].key != e.key;
    }
  }

  /** Placing the record of entry p when there is no room for it deletes the entry below the top. */
  lemma PlaceByPop(s: State, p: nat)
    requires p + 1 < |s.entries| && s.entries[p].Used? && Core(s, {s.entries[p].key})
    requires s.FreeSpace() < RECORD_SIZE && s.entries[|s.entries| - 1].Used?
    ensures s.entries[|s.entries| - 1].key in s.dir.Keys()
    ensures var s' := Pop(s).(dir := Pop(s).dir.Add(s.entries[p].key, s.entries[p].off));
            Core(s', {}) && s'.FreeSpace() >= s.entries[|s.entries| - 1].Size()
  {
    var e := s.entries[p];
    CoreKeys(s, {e.key});
    assert e.key != s.entries[|s.entries| - 1].key;
    assert e in s.entries;
    PopCore(s, {e.key});
    assert Pop(s).entries[p] == e;
    AddCore(Pop(s), p);
  }

  /** When there is no room and the entry below the top is p itself, its record is not there
      to be removed. */
  lemma PlaceAborts(s: State, p: nat)
    requires p + 1 == |s.entries| && s.entries[p].Used? && Core(s, {s.entries[p].key})
    requires s.FreeSpace() < RECORD_SIZE
    ensures PlaceRecord(s, s.entries[p].key, s.entries[p].off).Aborted?
  {
    CoreKeys(s, {s.entries[p].key});
  }

  // ----- the run that is evicted --------------------------------------------------------------

  /** The run is the shortest that has the room. */
  lemma {:induction false} RunEndMinimal(entries: seq<Entry>, i: nat, j: nat, need: nat, k: nat)
    requires i < j <= |entries| && j <= k < RunEnd(entries, i, j, need)
    ensures entries[k - 1].End() < entries[i].off + ENTRY_SIZE + need
    decreases |entries| - j
  {
    if j < k {
      RunEndMinimal(entries, i, j + 1, need, k);
    }
  }

  /** The last victim overshoots what is needed by less than a chunk and a header. */
  lemma VictimsBounded(s: State, n: nat)
    requires Tiled(s.entries, s.top) && SizesBounded(s.entries, s.geo) && FreeOnlyAt(s.entries, s.next)
    requires s.next < |s.entries| && s.entries[s.next].Size() != n
    ensures var j := VictimEnd(s, n);
            s.entries[j - 1].End() < s.entries[s.next].off + n + s.geo.maxChunk + 3 * ENTRY_SIZE
  {
    var j := VictimEnd(s, n);
    if j > s.next + 1 {
      RunEndMinimal(s.entries, s.next, s.next + 1, n + ENTRY_SIZE, j - 1);
      assert s.entries[j - 2].End() == s.entries[j - 1].off;
      assert s.entries[j - 1].Used?;
    }
  }

  lemma ReplacementFits(s: State, key: Checksum, data: seq<byte>)
    requires Tiled(s.entries, s.top) && SizesBounded(s.entries, s.geo) && FreeOnlyAt(s.entries, s.next)
    requires s.next < |s.entries| && s.geo.Accepts(data)
    requires s.entries[s.next].Size() == |data| || VictimEnd(s, |data|) < |s.entries|
    ensures var j := VictimEnd(s, |data|);
            Fits(s, s.next, j, Replacement(s, j, key, data), s.top, key)
  {
    var j := VictimEnd(s, |data|);
    assert s.entries[j - 1].End() == if j < |s.entries| then s.entries[j].off else s.top;
    if s.entries[s.next].Size() != |data| {
      VictimsBounded(s, |data|);
    }
  }

  lemma MulMono(a: nat, b: nat, x: nat)
    requires a <= b
    ensures a * x <= b * x
  {
  }

  lemma OneMoreTimes(a: nat, b: nat, x: nat)
    requires a <= b + 1
    ensures a * x <= b * x + x
  {
    MulMono(a, b + 1, x);
    assert (b + 1) * x == b * x + x;
  }

  /** The used entries below a boundary take at least a header and a minimal chunk each. */
  lemma {:induction false} UsedBound(s: State, i: nat)
    requires Tiled(s.entries, s.top) && SizesBounded(s.entries, s.geo) && i <= |s.entries|
    ensures |KeysOf(s.entries[..i])| * (ENTRY_SIZE + s.geo.minChunk) <= s.Boundary(i)
  {
    if i == 0 {
      assert KeysOf(s.entries[..0]) == {};
    } else {
      UsedBound(s, i - 1);
      var x := ENTRY_SIZE + s.geo.minChunk;
      var before := |KeysOf(s.entries[..i - 1])|;
      assert s.entries[i - 1].End() == s.Boundary(i);
      KeysOfLast(s.entries, i);
      if s.entries[i - 1].Used? {
        OneMoreTimes(|KeysOf(s.entries[..i])|, before, x);
      }
    }
  }

  lemma KeysOfLast(entries: seq<Entry>, i: nat)
    requires 0 < i <= |entries|
    ensures entries[i - 1].Used? ==> KeysOf(entries[..i]) == KeysOf(entries[..i - 1]) + {entries[i - 1].key}
    ensures entries[i - 1].Used? ==> |KeysOf(entries[..i])| <= |KeysOf(entries[..i - 1])| + 1
    ensures entries[i - 1].Free? ==> KeysOf(entries[..i]) == KeysOf(entries[..i - 1])
  {
    assert entries[..i] == entries[..i - 1] + [entries[i - 1]];
    KeysOfConcat(entries[..i - 1], [entries[i - 1]]);
    if entries[i - 1].Used? {
      assert KeysOf([entries[i - 1]]) == {entries[i - 1].key};
    }
  }

  lemma OverflowBound(s: State)
    requires Tiled(s.entries, s.top) && SizesBounded(s.entries, s.geo)
    requires s.dir.Consistent() && s.dir.Keys() == KeysOf(s.entries)
    ensures |s.dir.overflow| * (ENTRY_SIZE + s.geo.minChunk) <= s.top
  {
    UsedBound(s, |s.entries|);
    assert s.entries[..|s.entries|] == s.entries;
    SubsetSize(s.dir.overflow, s.dir.Keys());
    MulMono(|s.dir.overflow|, |KeysOf(s.entries)|, ENTRY_SIZE + s.geo.minChunk);
  }

  lemma RingOrderedFrom0(entries: seq<Entry>, clock: nat)
    requires RingOrdered(entries, |entries|, clock)
    ensures RingOrdered(entries, 0, clock)
  {
  }

  lemma RewoundTo0(s: State)
    requires Rewound(s) && s.next == |s.entries|
    ensures Rewound(s.(next := 0))
  {
    assert OpenRing(0);
    RingOrderedFrom0(s.entries, s.clock);
  }

  /** An insertion of n bytes may start at next: it leaves a survivor. */
  ghost predicate MayEvict(s: State, n: nat) {
    Rewound(s) && s.next < |s.entries| && (s.next > 0 || VictimEnd(s, n) + 1 < |s.entries|)
  }

  /** An insertion that goes back to 0 leaves at least two entries beyond what it evicts. */
  lemma RewindLeavesTwo(s: State, n: nat)
    requires Rewound(s) && s.next == |s.entries| && n <= s.geo.maxChunk
    requires s.FreeSpace() < n + ENTRY_SIZE + RECORD_SIZE
    ensures s.entries != [] && VictimEnd(s.(next := 0), n) + 1 < |s.entries|
  {
    assert OpenRing(0);
    CoreChain(s, {});
    CoreKeys(s, {});
    EmptyHasRoom(s);
    OverflowBound(s);
    TopIsHigh(s, n);
    FewVictims(s.(next := 0), n);
  }

  lemma TopIsHigh(s: State, n: nat)
    requires s.geo.Valid() && n <= s.geo.maxChunk && s.FreeSpace() < n + ENTRY_SIZE + RECORD_SIZE
    requires |s.dir.overflow| * (ENTRY_SIZE + s.geo.minChunk) <= s.top
    ensures s.top > 3 * s.geo.maxChunk + 143
  {
    MulMono(RECORD_SIZE, ENTRY_SIZE + s.geo.minChunk, |s.dir.overflow|);
  }

  lemma FewVictims(s: State, n: nat)
    requires Tiled(s.entries, s.top) && SizesBounded(s.entries, s.geo) && FreeOnlyAt(s.entries, s.next)
    requires s.next == 0 < |s.entries| && n <= s.geo.maxChunk && s.entries[0].Used?
    requires s.top > 3 * s.geo.maxChunk + 143
    ensures VictimEnd(s, n) + 1 < |s.entries|
  {
    var j := VictimEnd(s, n);
    if s.entries[0].Size() != n {
      VictimsBounded(s, n);
    }
    assert s.entries[j - 1].End() == s.Boundary(j);
    assert j < |s.entries|;
    assert s.entries[j].End() == s.Boundary(j + 1);
  }

  // ----- ring order -----------------------------------------------------------------------------

  /** The new entry becomes the youngest of the ring. */
  lemma SpliceRing(s: State, j: nat, mid: seq<Entry>, next: nat, clock: nat)
    requires s.next == next && s.clock == clock && next < j <= |s.entries|
    requires FreeOnlyAt(s.entries, next) && RingOrdered(s.entries, next, clock)
    requires 1 <= |mid| <= 2 && mid[0].Used? && mid[0].time == clock && (|mid| == 2 ==> mid[1].Free?)
    ensures FreeOnlyAt(s.entries[..next] + mid + s.entries[j..], next + 1)
    ensures RingOrdered(s.entries[..next] + mid + s.entries[j..], next + 1, clock + 1)
  {
    var es := s.entries[..next] + mid + s.entries[j..];
    forall a | 0 <= a < |es|
      ensures a < next ==> es[a] == s.entries[a]
      ensures a == next ==> es[a] == mid[0]
      ensures next < a < next + |mid| ==> es[a].Free? && a == next + 1
      ensures a >= next + |mid| ==> es[a] == s.entries[a - next - |mid| + j]
    {
    }
    forall a, b | 0 <= a < |es| && 0 <= b < |es| && Before(next + 1, a, b) && es[a].Used? && es[b].Used?
      ensures es[a].time < es[b].time
    {
      var a' := if a < next then a else a - next - |mid| + j;
      var b' := if b < next then b else b - next - |mid| + j;
      if a != next && b != next {
        assert Before(next, a', b');
      }
    }
  }

  lemma PrefixRing(entries: seq<Entry>, next: nat, clock: nat, n: nat)
    requires n <= |entries| && FreeOnlyAt(entries, next) && RingOrdered(entries, next, clock)
    ensures FreeOnlyAt(entries[..n], next) && RingOrdered(entries[..n], next, clock)
  {
    forall a, b | 0 <= a < n && 0 <= b < n && Before(next, a, b) && entries[a].Used? && entries[b].Used?
      ensures entries[..n][a].time < entries[..n][b].time
    {
    }
  }

  /** Lowering the top to next leaves a chain without a free entry, in ring order. */
  lemma TruncateRing(entries: seq<Entry>, next: nat, clock: nat)
    requires next <= |entries| && FreeOnlyAt(entries, next) && RingOrdered(entries, next, clock)
    ensures FreeOnlyAt(entries[..next], next) && RingOrdered(entries[..next], next, clock)
  {
    PrefixRing(entries, next, clock, next);
  }

  lemma AppendRing(entries: seq<Entry>, fresh': Entry, clock: nat)
    requires FreeOnlyAt(entries, |entries|) && RingOrdered(entries, |entries|, clock)
    requires fresh'.Used? && fresh'.time == clock
    ensures FreeOnlyAt(entries + [fresh'], |entries| + 1)
    ensures RingOrdered(entries + [fresh'], |entries| + 1, clock + 1)
  {
    var es := entries + [fresh'];
    forall a, b | 0 <= a < |es| && 0 <= b < |es| && Before(|entries| + 1, a, b) && es[a].Used? && es[b].Used?
      ensures es[a].time < es[b].time
    {
      assert b < |entries| ==> Before(|entries|, a, b);
    }
  }

  // ----- insertions keep the invariant -------------------------------------------------------------

  /** The appended entry in place, its record still pending. */
  function Appended(s: State, key: Checksum, data: seq<byte>): State {
    s.(entries := s.entries + [Used(s.top, key, data, s.clock)], top := s.top + ENTRY_SIZE + |data|)
  }

  lemma AppendedFits(s: State, key: Checksum, data: seq<byte>)
    requires s.geo.Accepts(data)
    ensures var n := |s.entries|; var fresh' := Used(s.top, key, data, s.clock);
            && Appended(s, key, data) == Spliced(s, n, n, [fresh'], fresh'.End())
            && Fits(s, n, n, [fresh'], fresh'.End(), key)
            && KeysOf(s.entries[n..n]) == {}
  {
    var n := |s.entries|;
    assert KeysOf(s.entries[n..n]) == {};
    assert s.dir.Remove({}) == s.dir;
    assert s.entries[..n] + [Used(s.top, key, data, s.clock)] + s.entries[n..]
           == s.entries + [Used(s.top, key, data, s.clock)];
  }

  lemma AppendedCore(s: State, key: Checksum, data: seq<byte>)
    requires Core(s, {}) && key !in s.dir.Keys() && s.geo.Accepts(data)
    requires s.FreeSpace() >= |data| + ENTRY_SIZE
    ensures Core(Appended(s, key, data), {key})
  {
    CoreKeys(s, {});
    var fresh' := Used(s.top, key, data, s.clock);
    AppendedFits(s, key, data);
    SpliceCore(s, |s.entries|, |s.entries|, [fresh'], fresh'.End(), key, {});
    assert {} + {key} == {key};
  }

  lemma AppendCore(s: State, key: Checksum, data: seq<byte>)
    requires Core(s, {}) && key !in s.dir.Keys() && s.geo.Accepts(data)
    requires s.FreeSpace() >= |data| + ENTRY_SIZE + RECORD_SIZE
    ensures Append(s, key, data).Stored? && Core(Append(s, key, data).state, {})
  {
    AppendedCore(s, key, data);
    AddCore(Appended(s, key, data), |s.entries|);
  }

  lemma RewoundIntro(s: State)
    requires Core(s, {}) && s.next <= |s.entries|
    requires FreeOnlyAt(s.entries, s.next) && RingOrdered(s.entries, s.next, s.clock)
    ensures Rewound(s)
    ensures (s.next == 0 ==> s.entries == []) ==> Inv(s)
  {
  }

  lemma AppendKeepsInv(s: State, key: Checksum, data: seq<byte>)
    requires Rewound(s) && s.next == |s.entries| && key !in s.dir.Keys() && s.geo.Accepts(data)
    requires s.FreeSpace() >= |data| + ENTRY_SIZE + RECORD_SIZE
    ensures Append(s, key, data).Stored? && Inv(Append(s, key, data).state)
  {
    assert OpenRing(0);
    AppendCore(s, key, data);
    AppendStateRing(s, key, data);
    RewoundIntro(Append(s, key, data).state);
  }

  lemma AppendStateRing(s: State, key: Checksum, data: seq<byte>)
    requires s.next == |s.entries| && s.FreeSpace() >= |data| + ENTRY_SIZE + RECORD_SIZE
    requires FreeOnlyAt(s.entries, s.next) && RingOrdered(s.entries, s.next, s.clock)
    ensures var s' := Append(s, key, data).state;
            FreeOnlyAt(s'.entries, s'.next) && RingOrdered(s'.entries, s'.next, s'.clock)
  {
    AppendRing(s.entries, Used(s.top, key, data, s.clock), s.clock);
  }

  lemma TruncateFits(s: State)
    requires s.next < |s.entries|
    ensures var n := |s.entries|; var off := s.entries[s.next].off;
            Truncate(s) == Spliced(s, s.next, n, [], off) && Fits(s, s.next, n, [], off, ZERO_CHECKSUM)
  {
    assert s.entries[..s.next] + [] + s.entries[|s.entries|..] == s.entries[..s.next];
    assert s.entries[s.next..|s.entries|] == s.entries[s.next..];
  }

  lemma TruncateCore(s: State)
    requires Core(s, {}) && s.next < |s.entries|
    ensures Core(Truncate(s), {})
    ensures Truncate(s).FreeSpace() >= s.FreeSpace() + s.top - s.entries[s.next].off
  {
    CoreChain(s, {});
    TiledOrder(s.entries, s.top, s.next, |s.entries|);
    TruncateFits(s);
    SpliceCore(s, s.next, |s.entries|, [], s.entries[s.next].off, ZERO_CHECKSUM, {});
    var none: set<Checksum> := {};
    assert none + {} == none;
  }

  lemma TruncateKeeps(s: State)
    requires Rewound(s) && s.next < |s.entries|
    ensures Rewound(Truncate(s))
  {
    assert OpenRing(0);
    TruncateCore(s);
    TruncateRing(s.entries, s.next, s.clock);
  }

  /** The state once the replacement is in place, its record still pending. */
  function Replaced(s: State, key: Checksum, data: seq<byte>): State
    requires s.next < |s.entries|
    requires s.entries[s.next].Size() == |data| || VictimEnd(s, |data|) < |s.entries|
  {
    Splice(s, VictimEnd(s, |data|), Replacement(s, VictimEnd(s, |data|), key, data))
  }

  lemma CoreIgnoresClock(s: State, pending: set<Checksum>, next: nat, clock: nat)
    requires Core(s, pending)
    ensures Core(s.(next := next, clock := clock), pending)
  {
    assert OpenCore(0);
  }

  lemma ReplacedIsSpliced(s: State, key: Checksum, data: seq<byte>)
    requires s.next < |s.entries|
    requires s.entries[s.next].Size() == |data| || VictimEnd(s, |data|) < |s.entries|
    ensures var j := VictimEnd(s, |data|);
            Replaced(s, key, data) ==
            Spliced(s, s.next, j, Replacement(s, j, key, data), s.top).(next := s.next + 1, clock := s.clock + 1)
  {
  }

  lemma ReplacedCoreVia(s: State, j: nat, mid: seq<Entry>, key: Checksum)
    requires Core(s, {}) && s.next <= j <= |s.entries| && mid != [] && Fits(s, s.next, j, mid, s.top, key)
    requires key !in s.dir.Keys()
    ensures Core(Spliced(s, s.next, j, mid, s.top).(next := s.next + 1, clock := s.clock + 1), {key})
  {
    CoreKeys(s, {});
    SpliceCore(s, s.next, j, mid, s.top, key, {});
    assert {} + {key} == {key};
    CoreIgnoresClock(Spliced(s, s.next, j, mid, s.top), {key}, s.next + 1, s.clock + 1);
  }

  lemma ReplacedCore(s: State, key: Checksum, data: seq<byte>)
    requires Core(s, {}) && FreeOnlyAt(s.entries, s.next)
    requires s.next < |s.entries| && key !in s.dir.Keys() && s.geo.Accepts(data)
    requires s.entries[s.next].Size() == |data| || VictimEnd(s, |data|) < |s.entries|
    ensures Core(Replaced(s, key, data), {key})
  {
    CoreChain(s, {});
    var j := VictimEnd(s, |data|);
    ReplacementFits(s, key, data);
    ReplacedCoreVia(s, j, Replacement(s, j, key, data), key);
    ReplacedIsSpliced(s, key, data);
  }

  lemma ReplacedRing(s: State, key: Checksum, data: seq<byte>)
    requires s.next < |s.entries| && FreeOnlyAt(s.entries, s.next) && RingOrdered(s.entries, s.next, s.clock)
    requires s.entries[s.next].Size() == |data| || VictimEnd(s, |data|) < |s.entries|
    ensures FreeOnlyAt(Replaced(s, key, data).entries, s.next + 1)
    ensures RingOrdered(Replaced(s, key, data).entries, s.next + 1, s.clock + 1)
  {
    var j := VictimEnd(s, |data|);
    SpliceRing(s, j, Replacement(s, j, key, data), s.next, s.clock);
  }

  lemma PopRing(s: State)
    requires |s.entries| > 0 && s.entries[|s.entries| - 1].Used?
    requires FreeOnlyAt(s.entries, s.next) && RingOrdered(s.entries, s.next, s.clock)
    ensures FreeOnlyAt(Pop(s).entries, s.next) && RingOrdered(Pop(s).entries, s.next, s.clock)
  {
    PrefixRing(s.entries, s.next, s.clock, |s.entries| - 1);
  }

  /** From a replacement in place to the end of the insertion. */
  lemma PlaceKeepsInv(s: State, p: nat)
    requires p < |s.entries| && s.entries[p].Used? && Core(s, {s.entries[p].key}) && s.next == p + 1
    requires FreeOnlyAt(s.entries, s.next) && RingOrdered(s.entries, s.next, s.clock)
    requires s.FreeSpace() >= RECORD_SIZE || (p + 1 < |s.entries| && s.entries[|s.entries| - 1].Used?)
    ensures var r := PlaceRecord(s, s.entries[p].key, s.entries[p].off); r.Stored? && Inv(r.state)
  {
    if s.FreeSpace() >= RECORD_SIZE {
      AddCore(s, p);
      RewoundIntro(s.(dir := s.dir.Add(s.entries[p].key, s.entries[p].off)));
    } else {
      PlaceByPop(s, p);
      PopRing(s);
      RewoundIntro(Pop(s).(dir := Pop(s).dir.Add(s.entries[p].key, s.entries[p].off)));
    }
  }

  lemma ReplacedFields(s: State, key: Checksum, data: seq<byte>)
    requires s.next < |s.entries|
    requires s.entries[s.next].Size() == |data| || VictimEnd(s, |data|) < |s.entries|
    ensures var s' := Replaced(s, key, data);
            && s.next < |s'.entries| && s'.next == s.next + 1
            && s'.entries[s.next] == Used(s.entries[s.next].off, key, data, s.clock)
            && (VictimEnd(s, |data|) == |s.entries| ==> s.next + 1 == |s'.entries|)
            && (VictimEnd(s, |data|) < |s.entries| ==>
                  s.next + 1 < |s'.entries| && s'.entries[|s'.entries| - 1] == s.entries[|s.entries| - 1])
  {
  }

  /** The insertion evicts everything from next to the top. */
  ghost predicate Truncates(s: State, n: nat)
    requires s.next < |s.entries|
  {
    s.entries[s.next].Size() != n && VictimEnd(s, n) == |s.entries|
  }

  lemma TruncatingKeepsInv(s: State, key: Checksum, data: seq<byte>)
    requires Rewound(s) && 0 < s.next < |s.entries| && key !in s.dir.Keys() && s.geo.Accepts(data)
    requires Truncates(s, |data|)
    ensures !InsertAt(s, key, data).Aborted? && Inv(InsertAt(s, key, data).state)
    ensures InsertAt(s, key, data).Dropped? <==>
              Truncate(s).FreeSpace() < |data| + ENTRY_SIZE + RECORD_SIZE
    ensures var r, i := InsertAt(s, key, data), s.next; var off := s.entries[i].off;
            && r.state.next == |r.state.entries|
            && r.state.entries == s.entries[..i] + (if r.Stored? then [Used(off, key, data, s.clock)] else [])
            && r.state.top == off + if r.Stored? then ENTRY_SIZE + |data| else 0
  {
    TruncateKeeps(s);
    TruncateKeys(s);
    var t := Truncate(s);
    if t.FreeSpace() >= |data| + ENTRY_SIZE + RECORD_SIZE {
      AppendKeepsInv(t, key, data);
    }
  }

  lemma ReplacingKeepsInv(s: State, key: Checksum, data: seq<byte>)
    requires Rewound(s) && s.next < |s.entries| && key !in s.dir.Keys() && s.geo.Accepts(data)
    requires !Truncates(s, |data|) && !TailHazard(s, |data|)
    ensures InsertAt(s, key, data).Stored? && Inv(InsertAt(s, key, data).state)
  {
    assert OpenRing(0);
    ReplacedCore(s, key, data);
    ReplacedRing(s, key, data);
    ReplacedFields(s, key, data);
    if VictimEnd(s, |data|) == |s.entries| {
      HazardSpace(s, key, data);
    }
    PlaceKeepsInv(Replaced(s, key, data), s.next);
  }

  lemma HazardAborts(s: State, key: Checksum, data: seq<byte>)
    requires Rewound(s) && s.next < |s.entries| && key !in s.dir.Keys() && s.geo.Accepts(data)
    requires TailHazard(s, |data|)
    ensures InsertAt(s, key, data).Aborted?
  {
    assert OpenRing(0);
    ReplacedCore(s, key, data);
    ReplacedFields(s, key, data);
    HazardSpace(s, key, data);
    PlaceAborts(Replaced(s, key, data), s.next);
  }

  lemma EmptyInv(geo: Geometry)
    requires geo.Valid()
    ensures Inv(Empty(geo))
  {
    var s := Empty(geo);
    assert KeysOf(s.entries) == {};
    forall b: nat ensures InBlock(s.dir.blocks, b) == {} {
    }
    CoreIntro(s, {});
  }

  // ----- the main results ------------------------------------------------------------------------

  ghost predicate OpenInsert(k: nat) {
    true
  }

  /** r is the outcome of inserting the absent checksum into s. */
  ghost predicate Yields(s: State, key: Checksum, data: seq<byte>, r: Outcome) {
    && Inv(s) && key !in s.dir.at && s.geo.Accepts(data)
    && forall k: nat {:trigger OpenInsert(k)} :: OpenInsert(k) ==> r == Insert(s, key, data)
  }

  lemma OutcomeOf(s: State, key: Checksum, data: seq<byte>) returns (r: Outcome)
    requires Inv(s) && key !in s.dir.at && s.geo.Accepts(data)
    ensures Yields(s, key, data, r)
  {
    r := Insert(s, key, data);
  }

  lemma OneOutcome(s: State, key: Checksum, data: seq<byte>, r: Outcome, r': Outcome)
    requires Yields(s, key, data, r) && Yields(s, key, data, r')
    ensures r == r'
  {
    assert OpenInsert(0);
  }

  lemma InsertUnfolds(s: State, key: Checksum, data: seq<byte>)
    requires Inv(s) && s.geo.Accepts(data)
    ensures s.entries == [] ==> s.FreeSpace() >= |data| + ENTRY_SIZE + RECORD_SIZE
    ensures Insert(s, key, data) ==
            if s.next < |s.entries| then InsertAt(s, key, data)
            else if s.FreeSpace() >= |data| + ENTRY_SIZE + RECORD_SIZE then Append(s, key, data)
            else InsertAt(s.(next := 0), key, data)
  {
    EmptyHasRoom(s);
  }

  lemma RewindPath(s: State, key: Checksum, data: seq<byte>)
    requires Rewound(s) && key !in s.dir.Keys() && s.geo.Accepts(data) && s.next == |s.entries|
    requires s.FreeSpace() < |data| + ENTRY_SIZE + RECORD_SIZE
    ensures s.entries != []
    ensures InsertAt(s.(next := 0), key, data).Stored? && Inv(InsertAt(s.(next := 0), key, data).state)
  {
    assert OpenRing(0);
    RewindLeavesTwo(s, |data|);
    RewoundTo0(s);
    NoHazardWithMoreAbove(s.(next := 0), |data|);
    ReplacingKeepsInv(s.(next := 0), key, data);
  }

  lemma NoHazardWithMoreAbove(s: State, n: nat)
    requires s.next < |s.entries| && VictimEnd(s, n) + 1 < |s.entries|
    ensures !Truncates(s, n) && !TailHazard(s, n)
  {
  }

  lemma InsertAtKeepsInv(s: State, key: Checksum, data: seq<byte>)
    requires Rewound(s) && 0 < s.next < |s.entries| && key !in s.dir.Keys() && s.geo.Accepts(data)
    ensures InsertAt(s, key, data).Aborted? <==> TailHazard(s, |data|)
    ensures !InsertAt(s, key, data).Aborted? ==> Inv(InsertAt(s, key, data).state)
  {
    if TailHazard(s, |data|) {
      HazardAborts(s, key, data);
    } else if Truncates(s, |data|) {
      TruncatingKeepsInv(s, key, data);
    } else {
      ReplacingKeepsInv(s, key, data);
    }
  }

  /** Every insertion of an absent checksum keeps the invariant, unless it aborts; and it
      aborts exactly in the tail hazard. */
  lemma InsertKeepsInv(s: State, key: Checksum, data: seq<byte>, r: Outcome)
    requires Yields(s, key, data, r)
    ensures r.Aborted? <==> TailHazard(s, |data|)
    ensures !r.Aborted? ==> Inv(r.state)
  {
    assert OpenInsert(0);
    InsertUnfolds(s, key, data);
    if s.next < |s.entries| {
      InsertAtKeepsInv(s, key, data);
    } else if s.FreeSpace() >= |data| + ENTRY_SIZE + RECORD_SIZE {
      AppendKeepsInv(s, key, data);
    } else {
      RewindPath(s, key, data);
    }
  }

  lemma TruncateKeys(s: State)
    requires Rewound(s) && s.next < |s.entries|
    ensures Truncate(s).dir.Keys() <= s.dir.Keys()
  {
    CoreKeys(s, {});
    RemoveKeeps(s.dir, KeysOf(s.entries[s.next..]));
  }

  /** Free space once an entry of the same size is replaced. */
  lemma HazardSpace(s: State, key: Checksum, data: seq<byte>)
    requires s.next < |s.entries| && VictimEnd(s, |data|) == |s.entries| && s.entries[s.next].Size() == |data|
    ensures TailHazard(s, |data|) <==> Replaced(s, key, data).FreeSpace() < RECORD_SIZE
  {
    var e := s.entries[s.next];
    assert s.entries[s.next..s.next + 1] == [e];
    assert KeysOf([e]) == if e.Used? then {e.key} else {};
    assert e.Free? ==> s.dir.overflow - {} == s.dir.overflow;
  }
}
