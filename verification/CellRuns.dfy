/** Runs of a cell in place. */
module CellRuns {
  import opened Types
  import opened Ring
  import opened RingInvariant
  import opened RingRuns
  import opened CellStore

  /** A new cell and a list of chunks added to it: the memory is in the state that the run
      reaches, and it fails exactly when the run reaches none. */
  method AddAll(geo: Geometry, cs: seq<Chunk>) returns (c: Cell, ok: bool)
    requires geo.Valid() && Accepted(geo, cs)
    ensures ok ==> c.Valid() && Reaches(geo, cs, c.s)
    ensures !ok ==> forall s :: !Reaches(geo, cs, s)
    ensures fresh(c)
  {
    c := new Cell(geo);
    ok := true;
    var n := 0;
    while n < |cs|
      invariant n <= |cs| && ok && c.Valid() && c.s.geo == geo && Reaches(geo, cs[..n], c.s)
      invariant fresh(c) && fresh(c.slab) && fresh(c.dir) && fresh(c.dir.blocks)
    {
      ok := AddNext(c, geo, cs, n);
      if !ok {
        return;
      }
      n := n + 1;
    }
    assert cs[..n] == cs;
  }

  method AddNext(c: Cell, geo: Geometry, cs: seq<Chunk>, n: nat) returns (ok: bool)
    requires geo.Valid() && Accepted(geo, cs) && n < |cs|
    requires c.Valid() && c.s.geo == geo && Reaches(geo, cs[..n], c.s)
    modifies c, c.dir, c.dir.blocks, c.slab
    ensures ok ==> c.Valid() && c.s.geo == geo && Reaches(geo, cs[..n + 1], c.s)
    ensures !ok ==> forall s :: !Reaches(geo, cs, s)
  {
    ghost var s, r := c.s, Aborted;
    if cs[n].key !in s.dir.at {
      r := OutcomeOf(s, cs[n].key, cs[n].data);
    }
    ok := Add(c, cs[n], r);
    if ok {
      StepReaches(geo, cs, n, s, r, c.s);
    } else {
      forall t ensures !Reaches(geo, cs, t) {
        NoneReached(geo, cs, n, s, r, t);
      }
    }
  }

  /** One chunk: it is there, or it is inserted with the outcome r. */
  method Add(c: Cell, chunk: Chunk, ghost r: Outcome) returns (ok: bool)
    requires c.Valid() && c.s.geo.Accepts(chunk.data)
    requires chunk.key !in c.s.dir.at ==> Yields(c.s, chunk.key, chunk.data, r)
    modifies c, c.dir, c.dir.blocks, c.slab
    ensures ok <==> chunk.key in old(c.s).dir.at || !r.Aborted?
    ensures ok ==> c.Valid() && c.s == if chunk.key in old(c.s).dir.at then old(c.s) else r.state
  {
    assert OpenInsert(0);
    var added;
    added, ok := c.AddChunk(chunk.key, chunk.data);
  }

  lemma StepReaches(geo: Geometry, cs: seq<Chunk>, n: nat, s: State, r: Outcome, t: State)
    requires geo.Valid() && Accepted(geo, cs) && n < |cs| && Reaches(geo, cs[..n], s)
    requires var c := cs[n];
             if c.key in s.dir.at then t == s else Yields(s, c.key, c.data, r) && !r.Aborted? && t == r.state
    ensures t.geo == geo && Reaches(geo, cs[..n + 1], t)
  {
    var longer := cs[..n + 1];
    assert longer[..n] == cs[..n];
    ReachesInv(geo, cs[..n], s);
    NextStep(geo, longer, s, r, t);
    ReachesInv(geo, longer, t);
  }

  /** No state is reached once an assertion has failed. */
  lemma {:induction false} NoneReached(geo: Geometry, cs: seq<Chunk>, n: nat, s: State, r: Outcome, t: State)
    requires n < |cs| && Reaches(geo, cs[..n], s) && Yields(s, cs[n].key, cs[n].data, r) && r.Aborted?
    ensures !Reaches(geo, cs, t)
    decreases |cs|
  {
    if Reaches(geo, cs, t) {
      var before, r' := LastStep(geo, cs, t);
      var shorter := cs[..|cs| - 1];
      if n == |shorter| {
        ReachesOne(geo, shorter, s, before);
        OneOutcome(s, cs[n].key, cs[n].data, r, r');
      } else {
        assert shorter[..n] == cs[..n];
        NoneReached(geo, shorter, n, s, r, before);
      }
    }
  }
}
