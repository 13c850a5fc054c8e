/** A run that loses a chunk: nine entries that fill the slab, the last one small, are
    replaced in turn, and then only the small one lies between next and the top. */
module RingDrop {
  import opened Types
  import opened Ring
  import opened RingInvariant
  import opened RingTheorems
  import opened RingExact
  import opened RingRuns
  import opened CellParts

  const LARGE := 24576
  const SMALL := 2048
  const STRIDE := 24612
  const GEO := Geometry(199116, SMALL, LARGE)

  /** Chunk 8 is small. */
  function Length(t: nat): nat {
    if t == 8 then SMALL else LARGE
  }

  function Data(t: nat): (d: seq<byte>)
    ensures |d| == Length(t)
  {
    seq(Length(t), _ => 0)
  }

  /** Chunk t selects block t. */
  function Key(t: nat): (k: Checksum)
    requires t < 18
    ensures k[0] as nat == t && BlockNo(k) == t
  {
    seq(CHECKSUM_SIZE, i => if i == 0 || i == 17 then t as byte else 0)
  }

  function Chunks(n: nat): (cs: seq<Chunk>)
    requires n <= 18
    ensures |cs| == n && Accepted(GEO, cs)
  {
    if n == 0 then [] else Chunks(n - 1) + [Chunk(Key(n - 1), Data(n - 1))]
  }

  lemma ChunksLast(n: nat)
    requires 0 < n <= 18
    ensures Chunks(n)[..n - 1] == Chunks(n - 1) && Chunks(n)[n - 1] == Chunk(Key(n - 1), Data(n - 1))
  {
  }

  /** Which chunk lies in entry j after n chunks. */
  function Owner(n: nat, j: nat): nat {
    if j + 9 < n then j + 9 else j
  }

  function TopAfter(m: nat): nat {
    if m <= 8 then STRIDE * m else STRIDE * 8 + ENTRY_SIZE + SMALL
  }

  ghost predicate OpenAfter(k: nat) {
    true
  }

  /** The state after n chunks. */
  ghost predicate After(s: State, n: nat)
    requires n < 18
  {
    forall k: nat {:trigger OpenAfter(k)} :: OpenAfter(k) ==> IsAfter(s, n)
  }

  ghost predicate IsAfter(s: State, n: nat)
    requires n < 18
  {
    && Inv(s) && s.geo == GEO && |s.entries| == (if n <= 9 then n else 9)
    && s.top == TopAfter(|s.entries|)
    && s.next == (if n <= 9 then n else n - 9)
    && (forall j | 0 <= j < |s.entries| ::
          s.entries[j].Used? && s.entries[j].key == Key(Owner(n, j)) && |s.entries[j].data| == Length(j))
    && s.dir.overflow == {}
  }

  lemma AfterInv(s: State, n: nat)
    requires n < 18 && After(s, n)
    ensures Inv(s) && s.geo == GEO && |s.entries| == if n <= 9 then n else 9
  {
    assert OpenAfter(0);
  }

  /** The checksums there are those of the last nine chunks. */
  lemma KeyThere(s: State, n: nat, k: Checksum) returns (t: nat)
    requires n < 18 && After(s, n) && k in KeysOf(s.entries)
    ensures t < n && k == Key(t)
  {
    assert OpenAfter(0);
    var j :| 0 <= j < |s.entries| && s.entries[j].Used? && s.entries[j].key == k;
    t := Owner(n, j);
  }

  lemma Absent(s: State, n: nat)
    requires n < 18 && After(s, n)
    ensures Key(n) !in s.dir.at
  {
    AfterInv(s, n);
    CoreKeys(s, {});
    if Key(n) in s.dir.at {
      var t := KeyThere(s, n, Key(n));
    }
  }

  /** Every chunk there is alone in its block. */
  lemma NoOverflow(s: State, n: nat, gone: set<Checksum>, off: nat)
    requires n < 18 && After(s, n)
    ensures s.dir.Remove(gone).Add(Key(n), off).overflow == {}
  {
    assert OpenAfter(0);
    CoreKeys(s, {});
    NoneInBlock(s, n, s.dir.Remove(gone).blocks);
  }

  lemma NoneInBlock(s: State, n: nat, keys: set<Checksum>)
    requires n < 18 && After(s, n) && keys <= s.dir.at.Keys
    ensures InBlock(keys, BlockNo(Key(n))) == {}
  {
    AfterInv(s, n);
    CoreKeys(s, {});
    forall k | k in keys ensures BlockNo(k) != BlockNo(Key(n)) {
      var t := KeyThere(s, n, k);
    }
  }

  /** The first nine chunks go to the top. */
  lemma Fill(s: State, n: nat, r: Outcome)
    requires n < 9 && After(s, n) && Yields(s, Key(n), Data(n), r)
    ensures r.Stored? && After(r.state, n + 1)
  {
    InsertKeepsInv(s, Key(n), Data(n), r);
    RoomAbove(s, n);
    AppendStep(s, Key(n), Data(n), r);
    FilledAfter(s, n, r.state);
  }

  lemma RoomAbove(s: State, n: nat)
    requires n < 9 && After(s, n)
    ensures s.next == |s.entries| == n && s.FreeSpace() >= Length(n) + ENTRY_SIZE + RECORD_SIZE
  {
    assert OpenAfter(0);
  }

  lemma FilledAfter(s: State, n: nat, s': State)
    requires n < 9 && After(s, n) && Inv(s')
    requires s' == s.(entries := s.entries + [Used(s.top, Key(n), Data(n), s.clock)],
                      top := s.top + ENTRY_SIZE + Length(n),
                      next := n + 1, clock := s.clock + 1, dir := s.dir.Add(Key(n), s.top))
    ensures After(s', n + 1)
  {
    assert OpenAfter(0);
    NoOverflow(s, n, {}, s.top);
    assert s.dir.Remove({}) == s.dir;
  }

  /** The next eight replace the large entries from 0 on. */
  lemma Replace(s: State, n: nat, r: Outcome)
    requires 9 <= n < 17 && After(s, n) && Yields(s, Key(n), Data(n), r)
    ensures r.Stored? && After(r.state, n + 1)
  {
    InsertKeepsInv(s, Key(n), Data(n), r);
    AtNext(s, n);
    SameStep(s, Key(n), Data(n), r);
    ReplacedAfter(s, n, r.state);
  }

  lemma AtNext(s: State, n: nat)
    requires 9 <= n < 17 && After(s, n)
    ensures Rewind(s, LARGE).next == n - 9 < |s.entries|
    ensures s.entries[n - 9].Used? && s.entries[n - 9].key == Key(n - 9) && |s.entries[n - 9].data| == LARGE
    ensures RoomOver(s, s.dir.Remove({Key(n - 9)})) >= RECORD_SIZE
  {
    assert OpenAfter(0);
    assert s.dir.Remove({Key(n - 9)}).overflow == {};
  }

  lemma ReplacedAfter(s: State, n: nat, s': State)
    requires 9 <= n < 17 && After(s, n) && Inv(s') && n - 9 < |s.entries|
    requires var e := s.entries[n - 9];
             e.Used? && s' == s.(entries := s.entries[n - 9 := Used(e.off, Key(n), Data(n), s.clock)], next := n - 8,
                      clock := s.clock + 1, dir := s.dir.Remove({e.key}).Add(Key(n), e.off))
    ensures After(s', n + 1)
  {
    assert OpenAfter(0);
    NoOverflow(s, n, {Key(n - 9)}, s.entries[n - 9].off);
  }

  lemma Next(s: State, n: nat, r: Outcome)
    requires n < 17 && After(s, n) && Yields(s, Key(n), Data(n), r)
    ensures r.Stored? && After(r.state, n + 1)
  {
    if n < 9 {
      Fill(s, n, r);
    } else {
      Replace(s, n, r);
    }
  }

  lemma {:induction false} Leads(n: nat) returns (s: State)
    requires n < 18
    ensures Reaches(GEO, Chunks(n), s) && After(s, n)
  {
    if n == 0 {
      s := LeadsNowhere();
    } else {
      var before := Leads(n - 1);
      s := LeadsOn(before, n);
    }
  }

  lemma LeadsNowhere() returns (s: State)
    ensures Reaches(GEO, Chunks(0), s) && After(s, 0)
  {
    s := Empty(GEO);
    EmptyInv(GEO);
  }

  lemma LeadsOn(before: State, n: nat) returns (s: State)
    requires 0 < n < 18 && Reaches(GEO, Chunks(n - 1), before) && After(before, n - 1)
    ensures Reaches(GEO, Chunks(n), s) && After(s, n)
  {
    Absent(before, n - 1);
    AfterInv(before, n - 1);
    var r := OutcomeOf(before, Key(n - 1), Data(n - 1));
    Next(before, n - 1, r);
    s := r.state;
    ChunksLast(n);
    NextStep(GEO, Chunks(n), before, r, s);
  }

  /** Seventeen chunks of accepted sizes lead an empty cell to a state that drops the
      eighteenth: it is not there afterwards, and the chunk evicted for it is gone as well. */
  lemma DropReached() returns (s: State, r: Outcome)
    ensures Reaches(GEO, Chunks(17), s) && Yields(s, Key(17), Data(17), r)
    ensures r.Dropped? && r.state.dir == s.dir.Remove({Key(8)})
    ensures Reaches(GEO, Chunks(18), r.state) && Key(17) !in r.state.dir.at
  {
    s := Leads(17);
    Absent(s, 17);
    AfterInv(s, 17);
    r := OutcomeOf(s, Key(17), Data(17));
    Eighteenth(s, r);
    ChunksLast(18);
    NextStep(GEO, Chunks(18), s, r, r.state);
  }

  lemma Eighteenth(s: State, r: Outcome)
    requires After(s, 17) && Yields(s, Key(17), Data(17), r)
    ensures r.Dropped? && r.state.dir == s.dir.Remove({Key(8)})
  {
    CoreChain(s, {});
    SmallIsLast(s);
    DroppedIff(s, Key(17), Data(17), r);
    TruncateCore(s);
    assert OpenInsert(0);
    InsertUnfolds(s, Key(17), Data(17));
  }

  lemma SmallIsLast(s: State)
    requires After(s, 17) && Tiled(s.entries, s.top)
    ensures s.next == 8 && |s.entries| == 9 && Truncates(s, LARGE)
    ensures KeysOf(s.entries[8..]) == {Key(8)} && Truncate(s).FreeSpace() < LARGE + ENTRY_SIZE + RECORD_SIZE
  {
    assert OpenAfter(0);
    assert s.entries[8].End() == s.top;
    assert s.entries[8..] == [s.entries[8]];
    assert KeysOf([s.entries[8]]) == {s.entries[8].key};
  }
}
