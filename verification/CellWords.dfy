/** The words of a cell as they lie in its file, and what it means that they hold a state. */
module CellWords {
  import opened Types
  import opened Ring
  import opened Slab
  import opened Layout
  import opened CellDirectory

  /** The fixed header, field by field, and the slab below it. */
  datatype Words = Words(magic: nat, entryCode: nat, exitCode: nat, entryCount: int, byteCount: int,
                         top: nat, next: nat, overflowCount: nat, blocks: seq<DirBlock>, slab: seq<Slot>)

  /** cell_header_sane */
  predicate Sane(m: Words) {
    m.magic == CELL_HEADER_MAGIC && m.entryCode == m.exitCode
  }

  /** The size of a cell of this geometry. */
  ghost predicate Formed(m: Words, geo: Geometry) {
    geo.Valid() && |m.blocks| == CELL_DIR_BLOCK_COUNT && |m.slab| == geo.space
  }

  /** Blocks, counts and slab records hold the directory, recs being the overflow records. */
  ghost predicate HoldsDir(m: Words, dir: Dir, recs: seq<DirEntry>) {
    && BlocksHold(m.blocks, dir) && dir.Consistent()
    && OverflowHolds(recs, dir.overflow, dir.at) && RecordsLaid(m.slab, recs)
    && m.overflowCount == |recs| == |dir.overflow| && m.entryCount == dir.Count()
  }

  ghost predicate HoldsWith(m: Words, s: State, recs: seq<DirEntry>) {
    && |m.slab| == s.geo.space && m.top == s.top && m.next == s.Boundary(s.next)
    && HoldsDir(m, s.dir, recs) && Laid(m.slab, s.entries, s.top) && m.byteCount == TotalBytes(s.entries)
  }

  /** The image holds the state s, whatever its magic and codes. */
  ghost predicate Holds(m: Words, s: State) {
    exists recs :: HoldsWith(m, s, recs)
  }

  /** The image is that of a sane cell in the state s. */
  ghost predicate HoldsCell(m: Words, s: State) {
    Sane(m) && m.entryCode < CODE_LIMIT && Holds(m, s) && Inv(s)
  }

  lemma HeldIsFormed(m: Words, s: State)
    requires Holds(m, s) && Inv(s)
    ensures Formed(m, s.geo)
  {
  }

  lemma HoldsSame(m: Words, m': Words, s: State)
    requires Holds(m, s) && m' == m.(magic := m'.magic, entryCode := m'.entryCode, exitCode := m'.exitCode)
    ensures Holds(m', s)
  {
    var recs :| HoldsWith(m, s, recs);
    assert HoldsWith(m', s, recs);
  }

  lemma BlockKeys(blocks: seq<DirBlock>, dir: Dir, k: Checksum)
    requires BlocksHold(blocks, dir)
    ensures k in dir.blocks <==> Contains(blocks[BlockNo(k)].entries, k)
  {
    BlockAt(blocks, dir, BlockNo(k));
    FoundIffInBlocks(blocks[BlockNo(k)], k, dir.blocks, dir.at);
  }

  /** The blocks and the overflow count fix the number of records. */
  lemma CountFixed(m: Words, s: State, m': Words, s': State)
    requires Holds(m, s) && Holds(m', s') && m.blocks == m'.blocks && m.overflowCount == m'.overflowCount
    ensures s.dir.Count() == s'.dir.Count()
  {
    forall k ensures k in s.dir.blocks <==> k in s'.dir.blocks {
      BlockKeys(m.blocks, s.dir, k);
      BlockKeys(m.blocks, s'.dir, k);
    }
    assert s.dir.blocks == s'.dir.blocks;
  }

  function EmptyBlocks(): (bs: seq<DirBlock>)
    ensures |bs| == CELL_DIR_BLOCK_COUNT && forall b | 0 <= b < |bs| :: bs[b] == EMPTY_BLOCK
  {
    seq(CELL_DIR_BLOCK_COUNT, _ => EMPTY_BLOCK)
  }

  lemma EmptyDirHeld(blocks: seq<DirBlock>, slab: seq<Slot>)
    requires blocks == EmptyBlocks()
    ensures BlocksHold(blocks, EMPTY_DIR) && OverflowHolds([], {}, map[]) && RecordsLaid(slab, [])
  {
    assert forall b: nat :: InBlock({}, b) == {};
  }

  /** Cleared words and a top entry at 0 hold the empty cell. */
  lemma EmptyHeld(m: Words, geo: Geometry)
    requires Formed(m, geo) && m.blocks == EmptyBlocks() && TopAt(m.slab, 0, 0)
    requires m.entryCount == m.byteCount == m.top == m.next == m.overflowCount == 0
    ensures Holds(m, Empty(geo))
  {
    EmptyDirHeld(m.blocks, m.slab);
    var s := Empty(geo);
    assert Laid(m.slab, s.entries, s.top);
    assert HoldsWith(m, s, []);
  }
}
