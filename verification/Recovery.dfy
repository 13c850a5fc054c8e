/** Crashes in an insertion, from the cell in memory to the cell that is mapped again. */
module Recovery {
  import opened Types
  import opened Ring
  import opened RingInvariant
  import opened CellWords
  import opened Integrity
  import opened CellStore

  /** img may be left by a crash while cell_add_chunk takes the words before to the words
      after, ws being the stores of its update; when an assertion fails, by that failure too. */
  ghost predicate CrashLeaves(before: Words, after: Words, ok: bool, ws: seq<Store>, img: Words) {
    OnlyData(ws) && if ok then Done(before, ws) == after && AddImage(before, ws, img) else FailImage(before, ws, img)
  }

  lemma DoneWasHeld(before: Words, ws: seq<Store>, s': State)
    requires OnlyData(ws) && Holds(Done(before, ws), s')
    ensures Holds(Apply(before, ws), s')
  {
    ApplyIgnoresCodes(before, ws, Entered(before).entryCode, before.exitCode);
    assert Entered(before) == before.(entryCode := Entered(before).entryCode, exitCode := before.exitCode);
    HoldsSame(Done(before, ws), Apply(before, ws), s');
  }

  lemma SomeUpdate(before: Words, after: Words)
    requires |before.blocks| == |after.blocks| && |before.slab| == |after.slab| && before.magic == after.magic
    requires after.entryCode == after.exitCode == Entered(before).entryCode
    ensures OnlyData(Difference(after)) && Done(before, Difference(after)) == after
  {
    var m := Entered(before);
    DifferenceApplied(m, after.(exitCode := m.exitCode));
    assert Difference(after.(exitCode := m.exitCode)) == Difference(after);
  }

  lemma AllRecover(before: Words, after: Words, ok: bool, s: State, key: Checksum, data: seq<byte>, r: Outcome)
    requires HoldsCell(before, s) && Yields(s, key, data, r)
    requires ok <==> !r.Aborted?
    requires ok ==> Holds(after, r.state)
    ensures forall ws, img | CrashLeaves(before, after, ok, ws, img) :: Recovers(img, s, r)
  {
    forall ws, img | CrashLeaves(before, after, ok, ws, img) ensures Recovers(img, s, r) {
      if ok {
        DoneWasHeld(before, ws, r.state);
      }
      AddRecovers(before, s, key, data, r, ws, img);
    }
  }

  /** cell_add_chunk of an absent checksum in place, with the outcome r. Whatever stores its
      update makes between its barriers, and wherever it crashes, the cell recovers; and
      there are such stores. */
  method AddRecoverably(c: Cell, key: Checksum, data: seq<byte>, ghost r: Outcome)
    returns (ok: bool, ghost before: Words, ghost after: Words)
    requires c.Valid() && Yields(c.s, key, data, r)
    modifies c, c.dir, c.dir.blocks, c.slab
    ensures before == old(c.Snapshot()) && after == c.Snapshot()
    ensures ok <==> !r.Aborted?
    ensures ok ==> c.Valid() && c.s == r.state && Done(before, Difference(after)) == after
    ensures forall ws, img | CrashLeaves(before, after, ok, ws, img) :: Recovers(img, old(c.s), r)
  {
    before := c.Snapshot();
    ghost var s := c.s;
    c.ValidHolds();
    ok, after := AddWords(c, key, data, r);
    AllRecover(before, after, ok, s, key, data, r);
  }

  method AddWords(c: Cell, key: Checksum, data: seq<byte>, ghost r: Outcome) returns (ok: bool, ghost after: Words)
    requires c.Valid() && Yields(c.s, key, data, r)
    modifies c, c.dir, c.dir.blocks, c.slab
    ensures after == c.Snapshot() && (ok <==> !r.Aborted?)
    ensures ok ==> c.Valid() && c.s == r.state && Holds(after, r.state)
    ensures ok ==> Done(old(c.Snapshot()), Difference(after)) == after
  {
    var added;
    added, ok := AddKnown(c, key, data, r);
    after := c.Snapshot();
    if ok {
      c.ValidHolds();
      SomeUpdate(old(c.Snapshot()), after);
    }
  }

  method AddKnown(c: Cell, key: Checksum, data: seq<byte>, ghost r: Outcome) returns (added: bool, ok: bool)
    requires c.Valid() && Yields(c.s, key, data, r)
    modifies c, c.dir, c.dir.blocks, c.slab
    ensures added && (ok <==> !r.Aborted?)
    ensures ok ==> && c.Valid() && c.s == r.state && c.magic == old(c.magic)
                   && c.entryCode == (old(c.entryCode) + 1) % CODE_LIMIT
  {
    assert OpenInsert(0);
    added, ok := c.AddChunk(key, data);
  }

  /** cell_init over what the crash left: a valid cell, as before, as after, or empty. */
  method ReopenCrashed(img: Words, ghost s: State, ghost r: Outcome) returns (c: Cell)
    requires Recovers(img, s, r)
    ensures c.Valid() && fresh(c)
    ensures c.s == s || (!r.Aborted? && c.s == r.state) || c.s == Empty(s.geo)
  {
    ghost var t := if HoldsCell(img, s) then s
                   else if !r.Aborted? && HoldsCell(img, r.state) then r.state else Empty(s.geo);
    c := new Cell.Mapped(img, s.geo, t);
  }
}
