/** Facts about slab memory, counters and victims that the methods of the cell rest on. */
module CellLemmas {
  import opened Types
  import opened Ring
  import opened RingInvariant
  import opened Slab
  import opened Layout
  import opened CellDirectory

  // ----- counters ------------------------------------------------------------------------------

  lemma {:induction false} TotalConcat(a: seq<Entry>, b: seq<Entry>)
    ensures TotalBytes(a + b) == TotalBytes(a) + TotalBytes(b)
  {
    if b == [] {
      assert a + b == a;
    } else {
      var n := |b| - 1;
      assert (a + b)[..|a + b| - 1] == a + b[..n];
      TotalConcat(a, b[..n]);
    }
  }

  lemma TotalSplit(entries: seq<Entry>, i: nat, j: nat)
    requires i <= j <= |entries|
    ensures TotalBytes(entries) == TotalBytes(entries[..i]) + TotalBytes(entries[i..j]) + TotalBytes(entries[j..])
  {
    assert entries == entries[..i] + entries[i..j] + entries[j..];
    TotalConcat(entries[..i] + entries[i..j], entries[j..]);
    TotalConcat(entries[..i], entries[i..j]);
  }

  lemma TotalOne(e: Entry)
    ensures TotalBytes([e]) == if e.Used? then |e.data| else 0
  {
    assert [e][..0] == [];
  }

  lemma TotalHas(entries: seq<Entry>, p: nat)
    requires p < |entries| && entries[p].Used?
    ensures TotalBytes(entries) >= |entries[p].data|
  {
    TotalSplit(entries, p, p + 1);
    assert entries[p..p + 1] == [entries[p]];
    TotalOne(entries[p]);
  }

  lemma TotalNext(entries: seq<Entry>, i: nat, k: nat)
    requires i <= k < |entries|
    ensures TotalBytes(entries[i..k + 1]) ==
            TotalBytes(entries[i..k]) + if entries[k].Used? then |entries[k].data| else 0
  {
    assert entries[i..k + 1] == entries[i..k] + [entries[k]];
    TotalConcat(entries[i..k], [entries[k]]);
    TotalOne(entries[k]);
  }

  lemma KeysNext(entries: seq<Entry>, i: nat, k: nat)
    requires i <= k < |entries|
    ensures KeysOf(entries[i..k + 1]) == KeysOf(entries[i..k]) + if entries[k].Used? then {entries[k].key} else {}
  {
    assert entries[i..k + 1] == entries[i..k] + [entries[k]];
    KeysOfConcat(entries[i..k], [entries[k]]);
    assert KeysOf([entries[k]]) == if entries[k].Used? then {entries[k].key} else {};
  }

  // ----- survivors of an insertion ----------------------------------------------------------------

  /** An entry that an insertion of n bytes neither evicts nor deletes below the top. */
  function Survivor(s: State, n: nat): nat
    requires s.next < |s.entries|
  {
    if s.next > 0 then 0 else VictimEnd(s, n)
  }

  function SurvivorKey(s: State, n: nat): Checksum
    requires s.next < |s.entries|
  {
    var p := Survivor(s, n);
    if p < |s.entries| && s.entries[p].Used? then s.entries[p].key else ZERO_CHECKSUM
  }

  lemma SurvivorLives(s: State, n: nat)
    requires Rewound(s) && s.next < |s.entries|
    requires s.next > 0 || VictimEnd(s, n) + 1 < |s.entries|
    ensures var p := Survivor(s, n);
            && p + 1 < |s.entries| && (p < s.next || VictimEnd(s, n) <= p)
            && s.entries[p].Used? && |s.entries[p].data| >= 1 && s.entries[p].key in s.dir.at
  {
    assert OpenRing(0);
    CoreChain(s, {});
    CoreKeys(s, {});
    var p := Survivor(s, n);
    assert s.entries[p] in s.entries;
  }

  /** Removing a further entry k, when k and the survivor lie outside entries[i..j], leaves bytes. */
  lemma BytesLeft(entries: seq<Entry>, i: nat, j: nat, k: nat, p: nat)
    requires i <= j <= |entries| && k < |entries| && p < |entries| && p != k
    requires (k < i || j <= k) && (p < i || j <= p)
    requires entries[k].Used? && entries[p].Used? && |entries[p].data| >= 1
    ensures TotalBytes(entries) - TotalBytes(entries[i..j]) > |entries[k].data|
  {
    TotalSplit(entries, i, j);
    if k < i && p < i {
      TotalTwo(entries[..i], k, p);
    } else if j <= k && j <= p {
      TotalTwo(entries[j..], k - j, p - j);
    } else if k < i {
      TotalHas(entries[..i], k);
      TotalHas(entries[j..], p - j);
    } else {
      TotalHas(entries[..i], p);
      TotalHas(entries[j..], k - j);
    }
  }

  lemma TotalTwo(entries: seq<Entry>, a: nat, b: nat)
    requires a < |entries| && b < |entries| && a != b && entries[a].Used? && entries[b].Used?
    ensures TotalBytes(entries) >= |entries[a].data| + |entries[b].data|
  {
    var lo, hi := if a < b then a else b, if a < b then b else a;
    TotalSplit(entries, hi, hi);
    assert entries[hi..hi] == [];
    TotalHas(entries[..hi], lo);
    TotalHas(entries[hi..], 0);
  }

  // ----- memory ------------------------------------------------------------------------------------

  /** Writing below the records leaves them alone. */
  lemma RecordsBeside(mem: seq<Slot>, p: nat, xs: seq<Slot>, recs: seq<DirEntry>)
    requires RecordsLaid(mem, recs) && p + |xs| + RECORD_SIZE * |recs| <= |mem|
    ensures RecordsLaid(Write(mem, p, xs), recs)
  {
    assert OpenRecords(0);
    WriteKeeps(mem, p, xs, |mem| - RECORD_SIZE * |recs|, |mem|);
    var mem' := Write(mem, p, xs);
    var n := |mem| - RECORD_SIZE * |recs|;
    assert mem[n..] == mem[n..|mem|] && mem'[n..] == mem'[n..|mem|];
    RecordsSuffix(mem, mem', recs);
  }

  lemma SameBelowLess(a: seq<Slot>, b: seq<Slot>, m: nat, n: nat)
    requires SameBelow(a, b, m) && n <= m
    ensures SameBelow(a, b, n)
  {
    assert OpenBelow(0);
    assert a[..n] == a[..m][..n] && b[..n] == b[..m][..n];
  }

  lemma PutHead(mem: seq<Slot>, off: nat, h: Slot)
    requires h.Head? && off + ENTRY_SIZE <= |mem|
    ensures HeadAt(Write(mem, off, Image(h)), off, h)
  {
    WriteReads(mem, off, Image(h));
    assert Write(mem, off, Image(h))[off..off + ENTRY_SIZE][0] == Write(mem, off, Image(h))[off];
  }

  // ----- the memory an append leaves ------------------------------------------------------------

  /** Header h1 and a payload above it make an entry. */
  lemma EntryWritten(mem: seq<Slot>, mem': seq<Slot>, e: Entry, prev: nat)
    requires e.Used? && e.End() <= |mem| && |mem'| == |mem|
    requires mem' == Write(Write(mem, e.off, Image(HeadOf(e, prev))), e.off + ENTRY_SIZE, Payload(e.data))
    ensures EntryAt(mem', e, prev) && SameBelow(mem, mem', e.off) && SameBut(mem, mem', e.off, e.End())
  {
    WriteTwiceBut(mem, e.off, Image(HeadOf(e, prev)), Payload(e.data));
    var mem1 := Write(mem, e.off, Image(HeadOf(e, prev)));
    WriteReads(mem, e.off, Image(HeadOf(e, prev)));
    WriteKeeps(mem1, e.off + ENTRY_SIZE, Payload(e.data), e.off, e.off + ENTRY_SIZE);
    WriteReads(mem1, e.off + ENTRY_SIZE, Payload(e.data));
    assert mem'[e.off..e.off + ENTRY_SIZE][0] == mem'[e.off];
    WriteKeepsBelow(mem, e.off, Image(HeadOf(e, prev)), e.off);
    WriteKeepsBelow(mem1, e.off + ENTRY_SIZE, Payload(e.data), e.off);
    SameBelowTrans(mem, mem1, mem', e.off, e.off);
  }

  // ----- the chain while the run from next on is evicted --------------------------------------------

  /** Everything but the first victim lies in memory as the state says; of the first victim
      only the header is left, no longer marked free. */
  ghost predicate Opened(mem: seq<Slot>, s: State)
    requires s.next < |s.entries|
  {
    && LaidRange(mem, s.entries, 0, s.next)
    && LaidRange(mem, s.entries, s.next + 1, |s.entries|)
    && TopAt(mem, s.top, PrevSize(s.entries, |s.entries|))
    && HeadAt(mem, s.entries[s.next].off, OpenedHead(s))
  }

  function OpenedHead(s: State): Slot
    requires s.next < |s.entries|
  {
    var h := HeadOf(s.entries[s.next], PrevSize(s.entries, s.next));
    h.(free := false)
  }

  lemma EndsBelowTop(s: State)
    requires Tiled(s.entries, s.top)
    ensures forall i | 0 <= i < |s.entries| :: s.entries[i].End() <= s.top
  {
    forall i | 0 <= i < |s.entries| ensures s.entries[i].End() <= s.top {
      TiledOrder(s.entries, s.top, i, |s.entries|);
    }
  }

  lemma OpenedKept(mem: seq<Slot>, mem': seq<Slot>, s: State, n: nat)
    requires Tiled(s.entries, s.top) && s.next < |s.entries| && Opened(mem, s)
    requires SameBelow(mem, mem', n) && s.top + ENTRY_SIZE <= n
    ensures Opened(mem', s)
  {
    EndsBelowTop(s);
    RangeKept(mem, mem', s.entries, 0, s.next, n);
    RangeKept(mem, mem', s.entries, s.next + 1, |s.entries|, n);
    TopKept(mem, mem', s.top, PrevSize(s.entries, |s.entries|), n);
    assert s.entries[s.next].End() <= s.top;
    HeadKept(mem, mem', s.entries[s.next].off, OpenedHead(s), n);
  }

  /** Clearing the free flag of the entry at next. */
  lemma OpenFirst(mem: seq<Slot>, s: State)
    requires Tiled(s.entries, s.top) && s.next < |s.entries| && Laid(mem, s.entries, s.top)
    requires s.entries[s.next].off + ENTRY_SIZE <= |mem|
    ensures Opened(Write(mem, s.entries[s.next].off, Image(OpenedHead(s))), s)
  {
    var p := s.entries[s.next].off;
    var xs := Image(OpenedHead(s));
    EndsBelowTop(s);
    assert s.entries[s.next].End() <= s.top;
    forall i | 0 <= i < s.next ensures s.entries[i].End() <= p {
      TiledOrder(s.entries, s.top, i, s.next);
    }
    forall i | s.next < i < |s.entries| ensures p + |xs| <= s.entries[i].off {
      TiledOrder(s.entries, s.top, s.next, i);
    }
    LaidPart(mem, s.entries, 0, |s.entries|, 0, s.next);
    LaidPart(mem, s.entries, 0, |s.entries|, s.next + 1, |s.entries|);
    RangeBeside(mem, p, xs, s.entries, 0, s.next);
    RangeBeside(mem, p, xs, s.entries, s.next + 1, |s.entries|);
    TopBeside(mem, p, xs, s.top, PrevSize(s.entries, |s.entries|));
    PutHead(mem, p, OpenedHead(s));
  }

  lemma RemoveTwice(d: Dir, a: set<Checksum>, b: set<Checksum>)
    ensures d.Remove(a).Remove(b) == d.Remove(a + b)
  {
  }

  lemma RemoveNone(d: Dir)
    ensures d.Remove({}) == d
  {
  }

  /** An entry outside the run keeps its record. */
  lemma KeptInDir(s: State, j: nat, p: nat)
    requires Rewound(s) && s.next <= j <= |s.entries| && p < |s.entries| && (p < s.next || j <= p)
    requires s.entries[p].Used?
    ensures s.entries[p].key in s.dir.Remove(KeysOf(s.entries[s.next..j])).at
  {
    CoreKeys(s, {});
    KeysOfDisjoint(s.entries, s.next, j);
    assert s.entries[p] in s.entries;
    assert s.entries[p] in s.entries[..s.next] || s.entries[p] in s.entries[j..];
  }

  /** A further victim's record is still there, and the survivor's too. */
  lemma VictimInDir(s: State, n: nat, k: nat)
    requires Rewound(s) && s.next < |s.entries| && s.next <= k < VictimEnd(s, n) && s.entries[k].Used?
    requires s.next > 0 || VictimEnd(s, n) + 1 < |s.entries|
    ensures var d := s.dir.Remove(KeysOf(s.entries[s.next..k])); var other := SurvivorKey(s, n);
            && s.entries[k].key in d.at && other in d.at && other != s.entries[k].key
    ensures TotalBytes(s.entries) - TotalBytes(s.entries[s.next..k]) > |s.entries[k].data|
  {
    var p := Survivor(s, n);
    SurvivorLives(s, n);
    CoreKeys(s, {});
    KeptInDir(s, k, p);
    KeptInDir(s, k, k);
    BytesLeft(s.entries, s.next, k, k, p);
  }

  lemma LaidKept(mem: seq<Slot>, mem': seq<Slot>, s: State, n: nat)
    requires Tiled(s.entries, s.top) && Laid(mem, s.entries, s.top)
    requires SameBelow(mem, mem', n) && s.top + ENTRY_SIZE <= n
    ensures Laid(mem', s.entries, s.top)
  {
    EndsBelowTop(s);
    RangeKept(mem, mem', s.entries, 0, |s.entries|, n);
    TopKept(mem, mem', s.top, PrevSize(s.entries, |s.entries|), n);
  }

  /** What the first victim's record and bytes amount to. */
  lemma FirstRecord(s: State, n: nat)
    requires Rewound(s) && s.next < |s.entries| && (s.next > 0 || VictimEnd(s, n) + 1 < |s.entries|)
    ensures var e := s.entries[s.next]; var other := SurvivorKey(s, n);
            && other in s.dir.at
            && (e.Used? ==> e.key in s.dir.at && other != e.key && TotalBytes(s.entries) > |e.data|)
            && KeysOf(s.entries[s.next..s.next + 1]) == (if e.Used? then {e.key} else {})
            && TotalBytes(s.entries[s.next..s.next + 1]) == (if e.Used? then |e.data| else 0)
            && (e.Free? ==> s.dir.Remove({}) == s.dir)
  {
    SurvivorLives(s, n);
    var i := s.next;
    KeysNext(s.entries, i, i);
    TotalNext(s.entries, i, i);
    assert s.entries[i..i] == [];
    assert KeysOf(s.entries[i..i]) == {};
    if s.entries[i].Used? {
      VictimInDir(s, n, i);
      RemoveNone(s.dir);
    }
  }

  /** The headers that the walk reads. */
  lemma OpenedRead(mem: seq<Slot>, s: State, k: nat)
    requires s.next <= k < |s.entries| && Tiled(s.entries, s.top) && Opened(mem, s)
    ensures s.entries[k].End() <= s.top && s.top < |mem|
    ensures k == s.next ==> mem[s.entries[k].off] == OpenedHead(s)
    ensures k > s.next ==> HeadAt(mem, s.entries[k].off, HeadOf(s.entries[k], PrevSize(s.entries, k)))
    ensures s.entries[k].End() == s.Boundary(k + 1)
    ensures mem[s.top].Head? && mem[s.top].top
  {
    EndsBelowTop(s);
    assert s.entries[k].End() <= s.top;
    if k > s.next {
      LaidAt(mem, s.entries, s.next + 1, |s.entries|, k);
      EntryHead(mem, s.entries[k], PrevSize(s.entries, k));
    }
  }

  ghost predicate OpenSearch(k: nat) {
    true
  }

  /** The run of victims of an insertion of n bytes ends at j, and would if it were looked
      for from entry m. */
  ghost predicate Searching(s: State, n: nat, m: nat, j: nat)
    requires s.next < m <= |s.entries|
  {
    forall i: nat {:trigger OpenSearch(i)} :: OpenSearch(i) ==>
      MayEvict(s, n) && j == VictimEnd(s, n) == RunEnd(s.entries, s.next, m, n + ENTRY_SIZE)
  }

  /** Entry k is a further victim of an insertion of n bytes. */
  ghost predicate IsVictim(s: State, n: nat, k: nat) {
    && s.next < k < |s.entries|
    && forall i: nat {:trigger OpenSearch(i)} :: OpenSearch(i) ==> MayEvict(s, n) && k < VictimEnd(s, n)
  }

  lemma SearchStarts(s: State, n: nat)
    requires MayEvict(s, n) && s.entries[s.next].Size() != n
    ensures Searching(s, n, s.next + 1, VictimEnd(s, n))
  {
  }

  /** While the run so far is too short it goes on, or ends at the top. */
  lemma SearchOn(s: State, n: nat, m: nat, j: nat)
    requires s.next < m <= |s.entries| && Searching(s, n, m, j)
    requires s.entries[m - 1].End() < s.entries[s.next].off + 2 * ENTRY_SIZE + n
    ensures m == |s.entries| ==> j == m
    ensures m < |s.entries| ==> IsVictim(s, n, m) && Searching(s, n, m + 1, j)
  {
    assert OpenSearch(0);
  }

  lemma SearchEnds(s: State, n: nat, m: nat, j: nat)
    requires s.next < m <= |s.entries| && Searching(s, n, m, j)
    requires s.entries[m - 1].End() >= s.entries[s.next].off + 2 * ENTRY_SIZE + n
    ensures j == m
  {
    assert OpenSearch(0);
  }

  lemma BoundaryNext(s: State, k: nat)
    requires Rewound(s) && k + 1 < |s.entries|
    ensures s.entries[k].End() == s.entries[k + 1].off
    ensures s.entries[k + 1].End() == s.entries[k].End() + ENTRY_SIZE + s.entries[k + 1].Size()
  {
    CoreChain(s, {});
  }

  lemma UsedPast(s: State, k: nat)
    requires Rewound(s) && s.next < k < |s.entries|
    ensures s.entries[k].Used?
  {
    assert OpenRing(0);
  }

  lemma NextVictim(s: State, n: nat, k: nat)
    requires Rewound(s) && s.next < k < |s.entries| && k < VictimEnd(s, n)
    requires s.next > 0 || VictimEnd(s, n) + 1 < |s.entries|
    ensures s.entries[k].Used?
    ensures var d := s.dir.Remove(KeysOf(s.entries[s.next..k])); var other := SurvivorKey(s, n);
            && s.entries[k].key in d.at && other in d.at && other != s.entries[k].key
    ensures TotalBytes(s.entries) - TotalBytes(s.entries[s.next..k]) > |s.entries[k].data|
    ensures s.dir.Remove(KeysOf(s.entries[s.next..k])).Remove({s.entries[k].key})
            == s.dir.Remove(KeysOf(s.entries[s.next..k + 1]))
    ensures TotalBytes(s.entries[s.next..k + 1]) == TotalBytes(s.entries[s.next..k]) + |s.entries[k].data|
  {
    assert OpenRing(0);
    SurvivorLives(s, n);
    VictimInDir(s, n, k);
    RemoveTwice(s.dir, KeysOf(s.entries[s.next..k]), {s.entries[k].key});
    KeysNext(s.entries, s.next, k);
    TotalNext(s.entries, s.next, k);
  }
}
