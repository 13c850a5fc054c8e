/** A run that reaches the tail hazard: sixteen chunks of the largest size in a slab that
    holds eight. The last one fails an assertion in the middle of its update. */
module RingHazard {
  import opened Types
  import opened Ring
  import opened RingInvariant
  import opened RingExact
  import opened RingRuns
  import opened CellParts

  const CHUNK := 24576
  const STRIDE := 24612
  const GEO := Geometry(8 * STRIDE + 88, 2048, CHUNK)

  function Data(): (d: seq<byte>)
    ensures |d| == CHUNK
  {
    seq(CHUNK, _ => 0)
  }

  /** Chunk t selects block t, except that chunks 11 to 14 all select block 100. */
  function Block(t: nat): (b: nat)
    requires t < 16
    ensures b < 256
  {
    if 11 <= t <= 14 then 100 else t
  }

  function Key(t: nat): (k: Checksum)
    requires t < 16
    ensures k[0] as nat == t && BlockNo(k) == Block(t)
  {
    seq(CHECKSUM_SIZE, i => if i == 0 then t as byte else if i == 17 then Block(t) as byte else 0)
  }

  function Chunks(n: nat): (cs: seq<Chunk>)
    requires n <= 16
    ensures |cs| == n && Accepted(GEO, cs)
  {
    if n == 0 then [] else Chunks(n - 1) + [Chunk(Key(n - 1), Data())]
  }

  lemma ChunksLast(n: nat)
    requires 0 < n <= 16
    ensures Chunks(n)[..n - 1] == Chunks(n - 1) && Chunks(n)[n - 1] == Chunk(Key(n - 1), Data())
  {
  }

  /** Which chunk lies in entry j after n chunks. */
  function Owner(n: nat, j: nat): nat {
    if j + 8 < n then j + 8 else j
  }

  ghost predicate OpenAfter(k: nat) {
    true
  }

  /** The state after n chunks. */
  ghost predicate After(s: State, n: nat)
    requires n < 16
  {
    forall k: nat {:trigger OpenAfter(k)} :: OpenAfter(k) ==> IsAfter(s, n)
  }

  ghost predicate IsAfter(s: State, n: nat)
    requires n < 16
  {
    && Inv(s) && s.geo == GEO && |s.entries| == (if n <= 8 then n else 8)
    && s.top == STRIDE * |s.entries|
    && s.next == (if n <= 8 then n else n - 8)
    && (forall j | 0 <= j < |s.entries| ::
          s.entries[j].Used? && s.entries[j].key == Key(Owner(n, j)) && |s.entries[j].data| == CHUNK)
    && s.dir.overflow == if n <= 14 then {} else {Key(14)}
  }

  lemma AfterInv(s: State, n: nat)
    requires n < 16 && After(s, n)
    ensures Inv(s) && s.geo == GEO && |s.entries| == if n <= 8 then n else 8
  {
    assert OpenAfter(0);
  }

  /** The checksums there are those of the last eight chunks. */
  lemma KeyThere(s: State, n: nat, k: Checksum) returns (t: nat)
    requires n < 16 && After(s, n) && k in KeysOf(s.entries)
    ensures n - 8 <= t < n && k == Key(t)
  {
    assert OpenAfter(0);
    var j :| 0 <= j < |s.entries| && s.entries[j].Used? && s.entries[j].key == k;
    t := Owner(n, j);
  }

  lemma Absent(s: State, n: nat)
    requires n < 16 && After(s, n)
    ensures Key(n) !in s.dir.at
  {
    AfterInv(s, n);
    CoreKeys(s, {});
    if Key(n) in s.dir.at {
      var t := KeyThere(s, n, Key(n));
    }
  }

  /** The first eight chunks go to the top. */
  lemma Fill(s: State, n: nat, r: Outcome)
    requires n < 8 && After(s, n) && Yields(s, Key(n), Data(), r)
    ensures r.Stored? && After(r.state, n + 1)
  {
    InsertKeepsInv(s, Key(n), Data(), r);
    RoomAbove(s, n);
    AppendStep(s, Key(n), Data(), r);
    FilledAfter(s, n, r.state);
  }

  lemma RoomAbove(s: State, n: nat)
    requires n < 8 && After(s, n)
    ensures s.next == |s.entries| == n && s.FreeSpace() >= CHUNK + ENTRY_SIZE + RECORD_SIZE
  {
    assert OpenAfter(0);
  }

  lemma FilledAfter(s: State, n: nat, s': State)
    requires n < 8 && After(s, n) && Inv(s')
    requires s' == s.(entries := s.entries + [Used(s.top, Key(n), Data(), s.clock)], top := s.top + STRIDE,
                      next := n + 1, clock := s.clock + 1, dir := s.dir.Add(Key(n), s.top))
    ensures After(s', n + 1)
  {
    assert OpenAfter(0);
    CoreKeys(s, {});
    NoneInBlock(s, n, s.dir.blocks);
  }

  /** No chunk but 11 to 14 shares its block. */
  lemma NoneInBlock(s: State, n: nat, keys: set<Checksum>)
    requires n < 11 && After(s, n) && keys <= s.dir.at.Keys
    ensures InBlock(keys, BlockNo(Key(n))) == {}
  {
    AfterInv(s, n);
    CoreKeys(s, {});
    forall k | k in keys ensures BlockNo(k) != BlockNo(Key(n)) {
      var t := KeyThere(s, n, k);
    }
  }

  /** Which of the checksums there select block 100. */
  lemma InBlock100(s: State, n: nat, keys: set<Checksum>)
    requires 11 <= n < 15 && After(s, n) && keys == s.dir.at.Keys - {Key(n - 8)}
    ensures InBlock(keys, 100) == set t | 11 <= t < n :: Key(t)
  {
    assert OpenAfter(0);
    CoreKeys(s, {});
    forall k | k in InBlock(keys, 100) ensures exists t :: 11 <= t < n && k == Key(t) {
      From100(s, n, k);
    }
    forall t | 11 <= t < n ensures Key(t) in InBlock(keys, 100) {
      There100(s, n, t);
    }
  }

  lemma From100(s: State, n: nat, k: Checksum)
    requires 11 <= n < 15 && After(s, n) && k in KeysOf(s.entries) && BlockNo(k) == 100
    ensures exists t :: 11 <= t < n && k == Key(t)
  {
    var t := KeyThere(s, n, k);
  }

  lemma There100(s: State, n: nat, t: nat)
    requires 11 <= t < n < 15 && After(s, n)
    ensures Key(t) in KeysOf(s.entries) && Key(t) != Key(n - 8)
  {
    assert OpenAfter(0);
    assert s.entries[t - 8] in s.entries;
    assert Key(t)[0] != Key(n - 8)[0];
  }

  lemma CountBlock100(n: nat)
    requires 11 <= n < 15
    ensures |set t | 11 <= t < n :: Key(t)| == n - 11
  {
    var ks := set t | 11 <= t < n :: Key(t);
    assert forall t, u | 11 <= t < u < n :: Key(t)[0] != Key(u)[0];
    if n == 11 {
      assert ks == {};
    } else if n == 12 {
      assert ks == {Key(11)};
    } else if n == 13 {
      assert ks == {Key(11), Key(12)};
    } else {
      assert ks == {Key(11), Key(12), Key(13)};
    }
  }

  /** Only chunk 14 finds its block full. */
  lemma RecordPlace(s: State, n: nat, d: Dir, off: nat)
    requires 8 <= n < 15 && After(s, n) && d == s.dir.Remove({Key(n - 8)})
    ensures d.overflow == {} && d.Add(Key(n), off).overflow == if n < 14 then {} else {Key(14)}
  {
    assert OpenAfter(0);
    InItsBlock(s, n, d);
  }

  lemma InItsBlock(s: State, n: nat, d: Dir)
    requires 8 <= n < 15 && After(s, n) && d == s.dir.Remove({Key(n - 8)})
    ensures |InBlock(d.blocks, BlockNo(Key(n)))| == if n < 11 then 0 else n - 11
  {
    assert OpenAfter(0);
    CoreKeys(s, {});
    assert d.blocks == s.dir.at.Keys - {Key(n - 8)};
    if n < 11 {
      NoneInBlock(s, n, d.blocks);
    } else {
      InBlock100(s, n, d.blocks);
      CountBlock100(n);
    }
  }

  /** The next seven replace the entries from 0 on. */
  lemma Replace(s: State, n: nat, r: Outcome)
    requires 8 <= n < 15 && After(s, n) && Yields(s, Key(n), Data(), r)
    ensures r.Stored? && After(r.state, n + 1)
  {
    InsertKeepsInv(s, Key(n), Data(), r);
    AtNext(s, n);
    SameStep(s, Key(n), Data(), r);
    ReplacedAfter(s, n, r.state);
  }

  lemma AtNext(s: State, n: nat)
    requires 8 <= n < 15 && After(s, n)
    ensures Rewind(s, CHUNK).next == n - 8 < |s.entries|
    ensures s.entries[n - 8].Used? && s.entries[n - 8].key == Key(n - 8) && |s.entries[n - 8].data| == CHUNK
    ensures RoomOver(s, s.dir.Remove({Key(n - 8)})) >= RECORD_SIZE
  {
    assert OpenAfter(0);
    RecordPlace(s, n, s.dir.Remove({Key(n - 8)}), 0);
  }

  lemma ReplacedAfter(s: State, n: nat, s': State)
    requires 8 <= n < 15 && After(s, n) && Inv(s') && n - 8 < |s.entries|
    requires var e := s.entries[n - 8];
             e.Used? && s' == s.(entries := s.entries[n - 8 := Used(e.off, Key(n), Data(), s.clock)], next := n - 7,
                      clock := s.clock + 1, dir := s.dir.Remove({e.key}).Add(Key(n), e.off))
    ensures After(s', n + 1)
  {
    assert OpenAfter(0);
    RecordPlace(s, n, s.dir.Remove({Key(n - 8)}), s.entries[n - 8].off);
  }

  lemma Next(s: State, n: nat, r: Outcome)
    requires n < 15 && After(s, n) && Yields(s, Key(n), Data(), r)
    ensures r.Stored? && After(r.state, n + 1)
  {
    if n < 8 {
      Fill(s, n, r);
    } else {
      Replace(s, n, r);
    }
  }

  lemma {:induction false} Leads(n: nat) returns (s: State)
    requires n < 16
    ensures Reaches(GEO, Chunks(n), s) && After(s, n)
  {
    if n == 0 {
      s := LeadsNowhere();
    } else {
      var before := Leads(n - 1);
      s := LeadsOn(before, n);
    }
  }

  lemma LeadsNowhere() returns (s: State)
    ensures Reaches(GEO, Chunks(0), s) && After(s, 0)
  {
    s := Empty(GEO);
    EmptyInv(GEO);
  }

  lemma LeadsOn(before: State, n: nat) returns (s: State)
    requires 0 < n < 16 && Reaches(GEO, Chunks(n - 1), before) && After(before, n - 1)
    ensures Reaches(GEO, Chunks(n), s) && After(s, n)
  {
    Absent(before, n - 1);
    AfterInv(before, n - 1);
    var r := OutcomeOf(before, Key(n - 1), Data());
    Next(before, n - 1, r);
    s := r.state;
    ChunksLast(n);
    NextStep(GEO, Chunks(n), before, r, s);
  }

  /** Fifteen chunks of an accepted size lead an empty cell into the tail hazard, and adding
      a sixteenth leads nowhere. */
  lemma HazardReached() returns (s: State)
    ensures Reaches(GEO, Chunks(15), s) && TailHazard(s, CHUNK)
    ensures GEO.Valid() && Accepted(GEO, Chunks(16)) && forall s' :: !Reaches(GEO, Chunks(16), s')
  {
    assert OpenAfter(0);
    s := Leads(15);
    Absent(s, 15);
    assert Key(7)[0] != Key(14)[0];
    forall s' ensures !Reaches(GEO, Chunks(16), s') {
      Sixteenth(s, s');
    }
  }

  lemma Sixteenth(s: State, s': State)
    requires Reaches(GEO, Chunks(15), s) && Key(15) !in s.dir.at && TailHazard(s, CHUNK)
    ensures !Reaches(GEO, Chunks(16), s')
  {
    assert OpenRun(0);
    ChunksLast(16);
    assert Run(GEO, Chunks(15)) == Some(s);
    assert Run(GEO, Chunks(16)).None?;
  }
}
