/** Whole runs of a cell: any sequence of chunks added to an empty one. */
module RingRuns {
  import opened Types
  import opened Ring
  import opened RingInvariant
  import opened RingMap
  import opened RingTheorems
  import opened CellParts

  datatype Chunk = Chunk(key: Checksum, data: seq<byte>)

  /** cell_add_chunk: a chunk that is there is left alone. None when an assertion fails. */
  ghost function AddChunk(s: State, c: Chunk): (r: Option<State>)
    requires Inv(s) && s.geo.Accepts(c.data)
    ensures r.Some? ==> Inv(r.value) && r.value.geo == s.geo
    ensures r.None? <==> c.key !in s.dir.at && TailHazard(s, |c.data|)
  {
    if c.key in s.dir.at then Some(s)
    else
      var r := Insert(s, c.key, c.data);
      InsertKeepsInv(s, c.key, c.data, r);
      KeepsGeometry(s, c.key, c.data, r);
      if r.Aborted? then None else Some(r.state)
  }

  lemma KeepsGeometry(s: State, key: Checksum, data: seq<byte>, r: Outcome)
    requires Yields(s, key, data, r)
    ensures !r.Aborted? ==> r.state.geo == s.geo
  {
    if !r.Aborted? {
      var lo, hi, n, mid := InsertShape(s, key, data, r);
    }
  }

  predicate Accepted(geo: Geometry, cs: seq<Chunk>) {
    forall c | c in cs :: geo.Accepts(c.data)
  }

  /** The state after adding cs to an empty cell; None once an assertion has failed. */
  ghost function Run(geo: Geometry, cs: seq<Chunk>): (r: Option<State>)
    requires geo.Valid() && Accepted(geo, cs)
    ensures r.Some? ==> Inv(r.value) && r.value.geo == geo
  {
    if cs == [] then
      EmptyInv(geo);
      Some(Empty(geo))
    else
      var before := Run(geo, cs[..|cs| - 1]);
      if before.None? then None else AddChunk(before.value, cs[|cs| - 1])
  }

  ghost predicate OpenRun(k: nat) {
    true
  }

  /** Adding cs to an empty cell leads to s. */
  ghost predicate Reaches(geo: Geometry, cs: seq<Chunk>, s: State) {
    forall k: nat {:trigger OpenRun(k)} :: OpenRun(k) ==>
      geo.Valid() && Accepted(geo, cs) && Run(geo, cs) == Some(s)
  }

  lemma ReachesInv(geo: Geometry, cs: seq<Chunk>, s: State)
    requires Reaches(geo, cs, s)
    ensures Inv(s) && s.geo == geo
  {
    assert OpenRun(0);
  }

  lemma ReachesNone(geo: Geometry, s: State)
    requires Reaches(geo, [], s)
    ensures s == Empty(geo)
  {
    assert OpenRun(0);
  }

  /** The last step of a run: the chunk was there, or it was inserted. */
  lemma LastStep(geo: Geometry, cs: seq<Chunk>, s: State) returns (before: State, r: Outcome)
    requires Reaches(geo, cs, s) && cs != []
    ensures var n := |cs| - 1; var c := cs[n];
            && Reaches(geo, cs[..n], before) && Inv(before)
            && (c.key in before.dir.at ==> s == before)
            && (c.key !in before.dir.at ==> Yields(before, c.key, c.data, r) && !r.Aborted? && s == r.state)
  {
    assert OpenRun(0);
    var n := |cs| - 1;
    before := Run(geo, cs[..n]).value;
    r := Insert(before, cs[n].key, cs[n].data);
  }

  /** A further step. */
  lemma NextStep(geo: Geometry, cs: seq<Chunk>, before: State, r: Outcome, s: State)
    requires geo.Valid() && Accepted(geo, cs) && cs != [] && Reaches(geo, cs[..|cs| - 1], before) && Inv(before)
    requires var c := cs[|cs| - 1];
             if c.key in before.dir.at then s == before
             else Yields(before, c.key, c.data, r) && !r.Aborted? && s == r.state
    ensures Reaches(geo, cs, s)
  {
    assert OpenRun(0) && OpenInsert(0);
  }

  ghost predicate OpenStored(k: nat) {
    true
  }

  /** Chunk i of the run was stored: it was not there before, and it was not dropped. */
  ghost predicate StoredAt(geo: Geometry, cs: seq<Chunk>, i: nat)
    requires i < |cs|
  {
    forall k: nat {:trigger OpenStored(k)} :: OpenStored(k) ==>
      exists before, r :: Reaches(geo, cs[..i], before) && Yields(before, cs[i].key, cs[i].data, r) && r.Stored?
  }

  /** Chunk i is the last one that was stored under its checksum. */
  ghost predicate LastStored(geo: Geometry, cs: seq<Chunk>, i: nat) {
    && i < |cs| && StoredAt(geo, cs, i)
    && forall k: nat {:trigger OpenStored(k)} :: OpenStored(k) ==>
         forall j | i < j < |cs| && cs[j].key == cs[i].key :: !StoredAt(geo, cs, j)
  }

  lemma ReachesOne(geo: Geometry, cs: seq<Chunk>, s: State, s': State)
    requires Reaches(geo, cs, s) && Reaches(geo, cs, s')
    ensures s == s'
  {
    assert OpenRun(0);
  }

  lemma StoredBefore(geo: Geometry, cs: seq<Chunk>, n: nat, i: nat)
    requires i < n <= |cs|
    ensures StoredAt(geo, cs[..n], i) <==> StoredAt(geo, cs, i)
  {
    assert OpenStored(0);
    assert cs[..n][..i] == cs[..i];
  }

  /** A chunk whose checksum is there is not stored. */
  lemma PresentNotStored(geo: Geometry, cs: seq<Chunk>, i: nat, before: State)
    requires i < |cs| && Reaches(geo, cs[..i], before) && cs[i].key in before.dir.at
    ensures !StoredAt(geo, cs, i)
  {
    assert OpenStored(0);
    forall before', r | Reaches(geo, cs[..i], before') ensures !Yields(before', cs[i].key, cs[i].data, r) {
      ReachesOne(geo, cs[..i], before, before');
    }
  }

  /** At the end of a run the cell holds, under each checksum it has, exactly the bytes of the
      chunk that was last stored under it. */
  lemma {:induction false} HoldsLastStored(geo: Geometry, cs: seq<Chunk>, s: State, k: Checksum) returns (i: nat)
    requires Reaches(geo, cs, s) && k in Contents(s.entries)
    ensures LastStored(geo, cs, i) && cs[i] == Chunk(k, Contents(s.entries)[k])
    decreases |cs|
  {
    if cs == [] {
      ReachesNone(geo, s);
    } else {
      var n := |cs| - 1;
      var before, r := LastStep(geo, cs, s);
      if cs[n].key !in before.dir.at {
        LossyMap(before, cs[n].key, cs[n].data, r);
      }
      if cs[n].key !in before.dir.at && cs[n].key == k {
        i := n;
      } else {
        i := HoldsLastStored(geo, cs[..n], before, k);
        LastStoredOn(geo, cs, i, before, k);
      }
    }
  }

  lemma LastStoredOn(geo: Geometry, cs: seq<Chunk>, i: nat, before: State, k: Checksum)
    requires cs != [] && LastStored(geo, cs[..|cs| - 1], i) && cs[i].key == k
    requires Reaches(geo, cs[..|cs| - 1], before) && Inv(before) && k in Contents(before.entries)
    ensures LastStored(geo, cs, i)
  {
    var n := |cs| - 1;
    assert OpenStored(0);
    StoredBefore(geo, cs, n, i);
    forall j | i < j < |cs| && cs[j].key == k ensures !StoredAt(geo, cs, j) {
      if j < n {
        StoredBefore(geo, cs, n, j);
      } else {
        ContentsIndexed(before);
        PresentNotStored(geo, cs, n, before);
      }
    }
  }

  /** The state before chunk i is in the tail hazard of that chunk. */
  ghost predicate Fails(geo: Geometry, cs: seq<Chunk>, i: nat)
    requires geo.Valid() && Accepted(geo, cs)
  {
    && i < |cs|
    && var s := Run(geo, cs[..i]);
       s.Some? && cs[i].key !in s.value.dir.at && TailHazard(s.value, |cs[i].data|)
  }

  /** Fails as a property of the index. */
  ghost function FailsAt(geo: Geometry, cs: seq<Chunk>): nat -> bool
    requires geo.Valid() && Accepted(geo, cs)
  {
    (i: nat) => Fails(geo, cs, i)
  }

  /** A run fails exactly when one of its states is in the tail hazard of the next chunk. */
  lemma {:induction false} FailsIff(geo: Geometry, cs: seq<Chunk>)
    requires geo.Valid() && Accepted(geo, cs)
    ensures Run(geo, cs).None? <==> exists i: nat :: i < |cs| && FailsAt(geo, cs)(i)
  {
    if cs != [] {
      var n := |cs| - 1;
      FailsIff(geo, cs[..n]);
      FailsLast(geo, cs);
      FailsBefore(geo, cs);
      ExistsNext(FailsAt(geo, cs), FailsAt(geo, cs[..n]), n, Run(geo, cs[..n]).None?, Run(geo, cs).None?);
    }
  }

  lemma ExistsNext(P: nat -> bool, Q: nat -> bool, n: nat, before: bool, now: bool)
    requires before <==> exists i: nat :: i < n && Q(i)
    requires forall i: nat | i < n :: Q(i) <==> P(i)
    requires now <==> before || P(n)
    ensures now <==> exists i: nat :: i < n + 1 && P(i)
  {
    if before {
      var i: nat :| i < n && Q(i);
      assert P(i);
    }
  }

  lemma FailsBefore(geo: Geometry, cs: seq<Chunk>)
    requires geo.Valid() && Accepted(geo, cs) && cs != []
    ensures var n := |cs| - 1; forall i: nat | i < n :: FailsAt(geo, cs[..n])(i) <==> FailsAt(geo, cs)(i)
  {
    var n := |cs| - 1;
    forall i: nat | i < n ensures Fails(geo, cs[..n], i) <==> Fails(geo, cs, i) {
      assert cs[..n][..i] == cs[..i];
    }
  }

  lemma FailsLast(geo: Geometry, cs: seq<Chunk>)
    requires geo.Valid() && Accepted(geo, cs) && cs != []
    ensures Run(geo, cs).None? <==> Run(geo, cs[..|cs| - 1]).None? || FailsAt(geo, cs)(|cs| - 1)
  {
  }

  // ----- blocks that never overflow --------------------------------------------------------------

  /** No block is selected by more than three of the checksums in the cell. */
  ghost predicate FewPerBlock(s: State) {
    forall b: nat | b < CELL_DIR_BLOCK_COUNT :: |InBlock(s.dir.Keys(), b)| <= CELL_DIR_BLOCK_ENTRIES
  }

  /** No overflow record, and room for one. */
  predicate Calm(s: State) {
    s.dir.overflow == {} && s.FreeSpace() >= RECORD_SIZE
  }

  lemma AddStaysInBlock(d: Dir, key: Checksum, off: nat)
    requires d.Consistent() && d.overflow == {} && key !in d.Keys()
    requires |InBlock(d.Add(key, off).Keys(), BlockNo(key))| <= CELL_DIR_BLOCK_ENTRIES
    ensures d.Add(key, off).overflow == {}
  {
    assert d.Keys() == d.blocks;
    AddKeeps(d, key, off);
    InBlockAdd(d.blocks, key, BlockNo(key));
  }

  lemma AppendCalm(s: State, key: Checksum, data: seq<byte>)
    requires Rewound(s) && key !in s.dir.at && Calm(s) && Append(s, key, data).Stored?
    requires FewPerBlock(Append(s, key, data).state)
    ensures Calm(Append(s, key, data).state)
  {
    CoreKeys(s, {});
    AddStaysInBlock(s.dir, key, s.top);
  }

  lemma TruncateCalm(s: State)
    requires Rewound(s) && s.next < |s.entries| && Calm(s)
    ensures Calm(Truncate(s))
  {
    TruncateCore(s);
    CoreChain(s, {});
    BoundaryOrder(s, s.next, |s.entries|);
  }

  lemma PlaceCalm(s: State, key: Checksum, data: seq<byte>)
    requires MayEvict(s, |data|) && !Truncates(s, |data|) && key !in s.dir.at && s.geo.Accepts(data) && Calm(s)
    ensures InsertAt(s, key, data).Stored?
    ensures FewPerBlock(InsertAt(s, key, data).state) ==> Calm(InsertAt(s, key, data).state)
  {
    var j := VictimEnd(s, |data|);
    var d := Without(s, j);
    Placed(s, j, Replacement(s, j, key, data), key, data);
    assert d.overflow == {};
    CoreKeys(s, {});
    RemoveKeeps(s.dir, KeysOf(s.entries[s.next..j]));
    assert OpenPlaced(0);
    if FewPerBlock(InsertAt(s, key, data).state) {
      AddStaysInBlock(d, key, s.entries[s.next].off);
    }
  }

  /** From a calm state an insertion never fails, never deletes below the top, and stays calm
      unless it puts a fourth checksum into a block. */
  lemma CalmStep(s: State, key: Checksum, data: seq<byte>, r: Outcome)
    requires Yields(s, key, data, r) && Calm(s)
    ensures !TailHazard(s, |data|) && !r.Aborted?
    ensures FewPerBlock(r.state) ==> Calm(r.state)
  {
    assert OpenInsert(0);
    InsertKeepsInv(s, key, data, r);
    InsertUnfolds(s, key, data);
    if s.next < |s.entries| {
      CalmAt(s, key, data);
    } else if s.FreeSpace() >= |data| + ENTRY_SIZE + RECORD_SIZE {
      if FewPerBlock(Append(s, key, data).state) {
        AppendCalm(s, key, data);
      }
    } else {
      AtStart(s, key, data);
      RewindPath(s, key, data);
      RewindLeavesTwo(s, |data|);
      NoHazardWithMoreAbove(s.(next := 0), |data|);
      CalmAt(s.(next := 0), key, data);
    }
  }

  lemma CalmAt(s: State, key: Checksum, data: seq<byte>)
    requires MayEvict(s, |data|) && key !in s.dir.at && s.geo.Accepts(data) && Calm(s)
    ensures !InsertAt(s, key, data).Aborted?
    ensures FewPerBlock(InsertAt(s, key, data).state) ==> Calm(InsertAt(s, key, data).state)
  {
    if Truncates(s, |data|) {
      TruncateCalm(s);
      TruncateAbsent(s, key);
      if Append(Truncate(s), key, data).Stored? && FewPerBlock(Append(Truncate(s), key, data).state) {
        AppendCalm(Truncate(s), key, data);
      }
    } else {
      PlaceCalm(s, key, data);
    }
  }

  /** If no block ever has more than three of the checksums in the cell, a run never fails,
      and there is always room for a directory record. */
  lemma {:induction false} CalmRun(geo: Geometry, cs: seq<Chunk>) returns (s: State)
    requires geo.Valid() && Accepted(geo, cs)
    requires forall i, s' | 0 <= i <= |cs| && Reaches(geo, cs[..i], s') :: FewPerBlock(s')
    ensures Reaches(geo, cs, s) && Calm(s)
  {
    if cs == [] {
      s := Empty(geo);
    } else {
      var n := |cs| - 1;
      assert forall i | 0 <= i <= n :: cs[..n][..i] == cs[..i];
      var before := CalmRun(geo, cs[..n]);
      ReachesInv(geo, cs[..n], before);
      var r := Insert(before, cs[n].key, cs[n].data);
      s := CalmNext(geo, cs, before, r);
    }
  }

  lemma CalmNext(geo: Geometry, cs: seq<Chunk>, before: State, r: Outcome) returns (s: State)
    requires geo.Valid() && Accepted(geo, cs) && cs != [] && Reaches(geo, cs[..|cs| - 1], before)
    requires Inv(before) && Calm(before)
    requires var c := cs[|cs| - 1]; c.key !in before.dir.at ==> Yields(before, c.key, c.data, r)
    requires forall i, s' | 0 <= i <= |cs| && Reaches(geo, cs[..i], s') :: FewPerBlock(s')
    ensures Reaches(geo, cs, s) && Calm(s)
  {
    var c := cs[|cs| - 1];
    assert cs[..|cs|] == cs;
    s := before;
    if c.key !in before.dir.at {
      CalmStep(before, c.key, c.data, r);
      s := r.state;
    }
    NextStep(geo, cs, before, r, s);
    assert Reaches(geo, cs[..|cs|], s);
  }

  /** With chunks of at least 36 bytes a remainder never lies right below the top without room
      for a directory record, so what the tail hazard would replace is always a chunk. */
  lemma {:induction false} RestRun(geo: Geometry, cs: seq<Chunk>, s: State)
    requires Reaches(geo, cs, s) && geo.minChunk >= RECORD_SIZE
    ensures RestHasRoom(s)
    ensures forall n | TailHazard(s, n) :: s.entries[s.next].Used?
    decreases |cs|
  {
    if cs == [] {
      ReachesNone(geo, s);
    } else {
      var before, r := LastStep(geo, cs, s);
      RestRun(geo, cs[..|cs| - 1], before);
      ReachesInv(geo, cs[..|cs| - 1], before);
      if cs[|cs| - 1].key !in before.dir.at {
        RestKeepsRoom(before, cs[|cs| - 1].key, cs[|cs| - 1].data, r);
      }
    }
  }

  /** Bounds and counters in every state that a run reaches. */
  lemma RunBounds(geo: Geometry, cs: seq<Chunk>, s: State)
    requires Reaches(geo, cs, s)
    ensures s.top + ENTRY_SIZE + RECORD_SIZE * |s.dir.overflow| <= geo.space < 0x8000_0000
    ensures |s.dir.overflow| < 0x1000
    ensures s.dir.Count() == UsedCount(s.entries)
    ensures s.dir.Keys() == Contents(s.entries).Keys
    ensures forall i | 0 <= i < |s.entries| :: s.entries[i].Size() < 0x8000
  {
    ReachesInv(geo, cs, s);
    FieldsFit(s);
    CountExact(s);
    ContentsIndexed(s);
  }
}
