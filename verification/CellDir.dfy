/** The directory of a cell: 256 blocks of three records, and the records that overflow
    their block, kept in the slab below the header and growing downward. */
module CellDirectory {
  import opened Types
  import opened Ring
  import opened Slab
  import RingInvariant

  datatype DirBlock = DirBlock(entries: seq<DirEntry>, entryCount: nat, overflowCount: nat)

  const EMPTY_BLOCK := DirBlock([ZERO_RECORD, ZERO_RECORD, ZERO_RECORD], 0, 0)

  // ----- what memory holds -------------------------------------------------------------------

  ghost predicate Contains(entries: seq<DirEntry>, key: Checksum) {
    exists i :: 0 <= i < |entries| && entries[i].inUse && entries[i].checksum == key
  }

  /** The records in use are distinct, and are those of keys. */
  ghost predicate Lists(entries: seq<DirEntry>, keys: set<Checksum>, at: map<Checksum, nat>) {
    && (forall i | 0 <= i < |entries| && entries[i].inUse ::
          && entries[i].checksum in keys && entries[i].checksum in at
          && at[entries[i].checksum] == entries[i].offset)
    && (forall i, j | 0 <= i < j < |entries| && entries[i].inUse && entries[j].inUse ::
          entries[i].checksum != entries[j].checksum)
  }

  function One(e: DirEntry): nat {
    if e.inUse then 1 else 0
  }

  /** Block b holds the records of the keys that select it, and counts them. */
  ghost predicate BlockHolds(block: DirBlock, b: nat, keys: set<Checksum>, at: map<Checksum, nat>) {
    && |block.entries| == CELL_DIR_BLOCK_ENTRIES
    && Lists(block.entries, keys, at)
    && (forall i | 0 <= i < |block.entries| && block.entries[i].inUse :: BlockNo(block.entries[i].checksum) == b)
    && (forall k | k in keys && BlockNo(k) == b :: Contains(block.entries, k))
    && block.entryCount == One(block.entries[0]) + One(block.entries[1]) + One(block.entries[2])
  }

  ghost predicate Covers(recs: seq<DirEntry>, keys: set<Checksum>) {
    forall k | k in keys :: Contains(recs, k)
  }

  ghost predicate OpenOverflow(k: nat) {
    true
  }

  ghost predicate OpenBlocks(k: nat) {
    true
  }

  ghost predicate OpenRecords(k: nat) {
    true
  }

  ghost predicate OpenDir(k: nat) {
    true
  }

  ghost predicate OverflowHolds(recs: seq<DirEntry>, keys: set<Checksum>, at: map<Checksum, nat>) {
    && |keys| == |recs|
    && forall k: nat {:trigger OpenOverflow(k)} :: OpenOverflow(k) ==>
         Lists(recs, keys, at) && Covers(recs, keys) && forall i | 0 <= i < |recs| :: recs[i].inUse
  }

  /** The overflow records in the slab, the oldest at the highest offset. */
  ghost predicate RecordsLaid(mem: seq<Slot>, recs: seq<DirEntry>) {
    && RECORD_SIZE * |recs| <= |mem|
    && forall k: nat {:trigger OpenRecords(k)} :: OpenRecords(k) ==> forall i | 0 <= i < |recs| ::
         mem[|mem| - RECORD_SIZE * (i + 1)..|mem| - RECORD_SIZE * i] == Image(Record(recs[i]))
  }

  ghost predicate BlocksHold(blocks: seq<DirBlock>, dir: Dir) {
    && |blocks| == CELL_DIR_BLOCK_COUNT
    && forall k: nat {:trigger OpenBlocks(k)} :: OpenBlocks(k) ==> forall b | 0 <= b < |blocks| ::
         BlockHolds(blocks[b], b, dir.blocks, dir.at) && blocks[b].overflowCount == |InBlock(dir.overflow, b)|
  }

  lemma BlockAt(blocks: seq<DirBlock>, dir: Dir, b: nat)
    requires BlocksHold(blocks, dir) && b < |blocks|
    ensures BlockHolds(blocks[b], b, dir.blocks, dir.at) && blocks[b].overflowCount == |InBlock(dir.overflow, b)|
  {
    assert OpenBlocks(0);
  }

  // ----- lemmas about blocks ---------------------------------------------------------------------

  function OneKey(e: DirEntry): (keys: set<Checksum>)
    ensures |keys| == One(e)
  {
    if e.inUse then {e.checksum} else {}
  }

  lemma InBlockIsKeys(block: DirBlock, b: nat, keys: set<Checksum>, at: map<Checksum, nat>)
    requires BlockHolds(block, b, keys, at)
    ensures InBlock(keys, b) == OneKey(block.entries[0]) + OneKey(block.entries[1]) + OneKey(block.entries[2])
  {
  }

  /** The entry count of a block is the number of its records. */
  lemma EntryCountIsLoad(block: DirBlock, b: nat, keys: set<Checksum>, at: map<Checksum, nat>)
    requires BlockHolds(block, b, keys, at)
    ensures block.entryCount == |InBlock(keys, b)|
  {
    InBlockIsKeys(block, b, keys, at);
    assert OneKey(block.entries[0]) !! OneKey(block.entries[1]) !! OneKey(block.entries[2]);
  }

  lemma BlockGains(block: DirBlock, b: nat, keys: set<Checksum>, at: map<Checksum, nat>, i: nat, e: DirEntry)
    requires BlockHolds(block, b, keys, at) && i < CELL_DIR_BLOCK_ENTRIES && !block.entries[i].inUse
    requires e.inUse && BlockNo(e.checksum) == b && e.checksum !in keys
    ensures BlockHolds(block.(entries := block.entries[i := e], entryCount := block.entryCount + 1),
                       b, keys + {e.checksum}, at[e.checksum := e.offset])
  {
    var es, es' := block.entries, block.entries[i := e];
    forall k | k in keys + {e.checksum} && BlockNo(k) == b ensures Contains(es', k) {
      if k == e.checksum {
        assert es'[i].checksum == k;
      } else {
        var j :| 0 <= j < |es| && es[j].inUse && es[j].checksum == k;
        assert es'[j] == es[j];
      }
    }
  }

  lemma BlockLoses(block: DirBlock, b: nat, keys: set<Checksum>, at: map<Checksum, nat>, i: nat, key: Checksum)
    requires BlockHolds(block, b, keys, at) && i < CELL_DIR_BLOCK_ENTRIES
    requires block.entries[i].inUse && block.entries[i].checksum == key
    ensures BlockHolds(block.(entries := block.entries[i := ZERO_RECORD], entryCount := block.entryCount - 1),
                       b, keys - {key}, at - {key})
  {
    var es, es' := block.entries, block.entries[i := ZERO_RECORD];
    forall k | k in keys - {key} && BlockNo(k) == b ensures Contains(es', k) {
      var j :| 0 <= j < |es| && es[j].inUse && es[j].checksum == k;
      assert es'[j] == es[j];
    }
  }

  /** Records of one block do not concern another. */
  lemma OtherBlockHolds(block: DirBlock, b: nat, keys: set<Checksum>, at: map<Checksum, nat>,
                        keys': set<Checksum>, at': map<Checksum, nat>)
    requires BlockHolds(block, b, keys, at)
    requires forall k | BlockNo(k) == b :: k in keys <==> k in keys'
    requires forall k | BlockNo(k) == b && k in at :: k in at' && at'[k] == at[k]
    ensures BlockHolds(block, b, keys', at')
  {
  }

  // ----- lemmas about the overflow -----------------------------------------------------------------

  lemma CoversGains(recs: seq<DirEntry>, keys: set<Checksum>, e: DirEntry)
    requires Covers(recs, keys) && e.inUse
    ensures Covers(recs + [e], keys + {e.checksum})
  {
    forall k | k in keys + {e.checksum} ensures Contains(recs + [e], k) {
      if k == e.checksum {
        assert (recs + [e])[|recs|] == e;
      } else {
        var j :| 0 <= j < |recs| && recs[j].inUse && recs[j].checksum == k;
        assert (recs + [e])[j] == recs[j];
      }
    }
  }

  lemma ListsGains(recs: seq<DirEntry>, keys: set<Checksum>, at: map<Checksum, nat>, e: DirEntry)
    requires Lists(recs, keys, at) && e.checksum !in keys
    ensures Lists(recs + [e], keys + {e.checksum}, at[e.checksum := e.offset])
  {
    assert forall i | 0 <= i < |recs| :: (recs + [e])[i] == recs[i];
  }

  lemma OverflowGains(recs: seq<DirEntry>, keys: set<Checksum>, at: map<Checksum, nat>, e: DirEntry)
    requires OverflowHolds(recs, keys, at) && e.inUse && e.checksum !in keys
    ensures OverflowHolds(recs + [e], keys + {e.checksum}, at[e.checksum := e.offset])
  {
    assert OpenOverflow(0);
    CoversGains(recs, keys, e);
    ListsGains(recs, keys, at, e);
  }

  /** Removal copies the newest record over the one removed. */
  function SwapRemoved(recs: seq<DirEntry>, q: nat): (r: seq<DirEntry>)
    requires q < |recs|
    ensures |r| == |recs| - 1
    ensures forall i | 0 <= i < |r| :: r[i] == recs[if i == q then |recs| - 1 else i]
  {
    recs[q := recs[|recs| - 1]][..|recs| - 1]
  }

  lemma ListsLoses(recs: seq<DirEntry>, keys: set<Checksum>, at: map<Checksum, nat>, q: nat)
    requires Lists(recs, keys, at) && q < |recs| && recs[q].inUse
    ensures Lists(SwapRemoved(recs, q), keys - {recs[q].checksum}, at - {recs[q].checksum})
  {
    forall i | 0 <= i < |recs| && recs[i].inUse && i != q
      ensures recs[i].checksum != recs[q].checksum
    {
      assert i < q || q < i;
    }
  }

  lemma CoversLoses(recs: seq<DirEntry>, keys: set<Checksum>, q: nat)
    requires Covers(recs, keys) && q < |recs|
    ensures Covers(SwapRemoved(recs, q), keys - {recs[q].checksum})
  {
    var recs' := SwapRemoved(recs, q);
    forall k | k in keys - {recs[q].checksum} ensures Contains(recs', k) {
      var j :| 0 <= j < |recs| && recs[j].inUse && recs[j].checksum == k;
      var j' := if j == |recs| - 1 then q else j;
      assert recs'[j'] == recs[j];
    }
  }

  lemma OverflowLoses(recs: seq<DirEntry>, keys: set<Checksum>, at: map<Checksum, nat>, q: nat)
    requires OverflowHolds(recs, keys, at) && q < |recs|
    ensures OverflowHolds(SwapRemoved(recs, q), keys - {recs[q].checksum}, at - {recs[q].checksum})
  {
    assert OpenOverflow(0);
    ListsLoses(recs, keys, at, q);
    CoversLoses(recs, keys, q);
  }

  /** A search of the overflow finds a key exactly when the overflow has it. */
  lemma OverflowSearch(recs: seq<DirEntry>, keys: set<Checksum>, at: map<Checksum, nat>, key: Checksum,
                       found: Option<nat>)
    requires OverflowHolds(recs, keys, at)
    requires found.None? ==> !Contains(recs, key)
    requires found.Some? ==> found.value < |recs| && recs[found.value].checksum == key
    ensures found.Some? <==> key in keys
    ensures found.Some? ==> key in at && recs[found.value] == DirEntry(key, at[key], true)
  {
    assert OpenOverflow(0);
  }

  lemma OverflowHas(recs: seq<DirEntry>, keys: set<Checksum>, at: map<Checksum, nat>, key: Checksum)
    returns (i: nat)
    requires OverflowHolds(recs, keys, at) && key in keys
    ensures key in at && i < |recs| && recs[i] == DirEntry(key, at[key], true)
  {
    assert OpenOverflow(0);
    i :| 0 <= i < |recs| && recs[i].inUse && recs[i].checksum == key;
  }

  /** The overflow does not notice a change elsewhere in the directory. */
  lemma OverflowKept(recs: seq<DirEntry>, keys: set<Checksum>, at: map<Checksum, nat>, at': map<Checksum, nat>)
    requires OverflowHolds(recs, keys, at)
    requires forall k | k in keys && k in at :: k in at' && at'[k] == at[k]
    ensures OverflowHolds(recs, keys, at')
  {
    assert OpenOverflow(0);
  }

  // ----- lemmas about the two levels ---------------------------------------------------------------

  /** Storing a record in a free slot of its block is Dir.Add. */
  lemma BlockAddHolds(blocks: seq<DirBlock>, dir: Dir, b: nat, i: nat, e: DirEntry)
    requires BlocksHold(blocks, dir) && b == BlockNo(e.checksum) && i < CELL_DIR_BLOCK_ENTRIES
    requires |blocks[b].entries| == CELL_DIR_BLOCK_ENTRIES
    requires dir.Consistent()
    requires e.inUse && e.checksum !in dir.at && !blocks[b].entries[i].inUse
    ensures dir.Add(e.checksum, e.offset)
            == Dir(dir.blocks + {e.checksum}, dir.overflow, dir.at[e.checksum := e.offset])
    ensures BlocksHold(blocks[b := blocks[b].(entries := blocks[b].entries[i := e],
                                              entryCount := blocks[b].entryCount + 1)],
                       dir.Add(e.checksum, e.offset))
  {
    assert OpenBlocks(0);
    EntryCountIsLoad(blocks[b], b, dir.blocks, dir.at);
    BlockGains(blocks[b], b, dir.blocks, dir.at, i, e);
    forall c | 0 <= c < |blocks| && c != b
      ensures BlockHolds(blocks[c], c, dir.blocks + {e.checksum}, dir.at[e.checksum := e.offset])
    {
      OtherBlockHolds(blocks[c], c, dir.blocks, dir.at, dir.blocks + {e.checksum}, dir.at[e.checksum := e.offset]);
    }
  }

  /** A change of offsets outside the blocks. */
  lemma BlockKept(block: DirBlock, b: nat, keys: set<Checksum>, at: map<Checksum, nat>, at': map<Checksum, nat>)
    requires BlockHolds(block, b, keys, at)
    requires forall k | k in keys && k in at :: k in at' && at'[k] == at[k]
    ensures BlockHolds(block, b, keys, at')
  {
  }

  /** Storing a record in the overflow, and counting it in its full block, is Dir.Add. */
  lemma OverflowAddHolds(blocks: seq<DirBlock>, dir: Dir, b: nat, e: DirEntry)
    requires BlocksHold(blocks, dir) && b == BlockNo(e.checksum)
    requires |blocks[b].entries| == CELL_DIR_BLOCK_ENTRIES
    requires dir.Consistent()
    requires e.inUse && e.checksum !in dir.at
    requires forall i | 0 <= i < CELL_DIR_BLOCK_ENTRIES :: blocks[b].entries[i].inUse
    ensures dir.Add(e.checksum, e.offset)
            == Dir(dir.blocks, dir.overflow + {e.checksum}, dir.at[e.checksum := e.offset])
    ensures BlocksHold(blocks[b := blocks[b].(overflowCount := blocks[b].overflowCount + 1)],
                       dir.Add(e.checksum, e.offset))
  {
    assert OpenBlocks(0);
    EntryCountIsLoad(blocks[b], b, dir.blocks, dir.at);
    forall c | 0 <= c < |blocks|
      ensures |InBlock(dir.overflow + {e.checksum}, c)| == |InBlock(dir.overflow, c)| + if c == b then 1 else 0
      ensures BlockHolds(blocks[c], c, dir.blocks, dir.at[e.checksum := e.offset])
    {
      RingInvariant.InBlockAdd(dir.overflow, e.checksum, c);
      BlockKept(blocks[c], c, dir.blocks, dir.at, dir.at[e.checksum := e.offset]);
    }
  }

  lemma BlockOverflowBound(blocks: seq<DirBlock>, dir: Dir, b: nat)
    requires BlocksHold(blocks, dir) && b < CELL_DIR_BLOCK_COUNT
    ensures blocks[b].overflowCount <= |dir.overflow|
  {
    assert OpenBlocks(0);
    RingInvariant.SubsetSize(InBlock(dir.overflow, b), dir.overflow);
  }

  lemma CountLess(d: Dir, key: Checksum)
    requires d.Consistent()
    ensures d.Remove({key}).Consistent()
    ensures d.Remove({key}).Count() == d.Count() - if key in d.at then 1 else 0
  {
    RingInvariant.RemoveKeeps(d, {key});
    assert key in d.at ==> key in d.blocks + d.overflow;
  }

  /** n is the number of records of a consistent directory. */
  ghost predicate Counted(d: Dir, n: nat) {
    forall k: nat {:trigger OpenDir(k)} :: OpenDir(k) ==> d.Consistent() && n == d.Count()
  }

  lemma CountedLess(d: Dir, n: nat, key: Checksum)
    requires Counted(d, n)
    ensures key in d.at ==> n > 0
    ensures Counted(d.Remove({key}), if key in d.at then n - 1 else n)
  {
    assert OpenDir(0);
    CountLess(d, key);
  }

  lemma RemoveAbsent(dir: Dir, key: Checksum)
    requires dir.Consistent() && key !in dir.at
    ensures dir.Remove({key}) == dir
  {
  }

  lemma BlockRemoveHolds(blocks: seq<DirBlock>, dir: Dir, b: nat, i: nat, key: Checksum)
    requires BlocksHold(blocks, dir) && b == BlockNo(key) && i < CELL_DIR_BLOCK_ENTRIES
    requires |blocks[b].entries| == CELL_DIR_BLOCK_ENTRIES && blocks[b].entryCount > 0
    requires blocks[b].entries[i].inUse && blocks[b].entries[i].checksum == key && key !in dir.overflow
    ensures key in dir.blocks
    ensures BlocksHold(blocks[b := blocks[b].(entries := blocks[b].entries[i := ZERO_RECORD],
                                              entryCount := blocks[b].entryCount - 1)],
                       dir.Remove({key}))
  {
    assert OpenBlocks(0);
    BlockLoses(blocks[b], b, dir.blocks, dir.at, i, key);
    assert dir.overflow - {key} == dir.overflow;
    forall c | 0 <= c < |blocks| && c != b ensures BlockHolds(blocks[c], c, dir.blocks - {key}, dir.at - {key}) {
      OtherBlockHolds(blocks[c], c, dir.blocks, dir.at, dir.blocks - {key}, dir.at - {key});
    }
  }

  lemma InBlockRemove(keys: set<Checksum>, key: Checksum, b: nat)
    requires key in keys
    ensures |InBlock(keys - {key}, b)| == |InBlock(keys, b)| - if BlockNo(key) == b then 1 else 0
  {
    if BlockNo(key) == b {
      assert InBlock(keys - {key}, b) == InBlock(keys, b) - {key};
    } else {
      assert InBlock(keys - {key}, b) == InBlock(keys, b);
    }
  }

  lemma OverflowRemoveHolds(blocks: seq<DirBlock>, dir: Dir, b: nat, key: Checksum)
    requires BlocksHold(blocks, dir) && b == BlockNo(key) && key in dir.overflow && key !in dir.blocks
    ensures blocks[b].overflowCount > 0
    ensures BlocksHold(blocks[b := blocks[b].(overflowCount := blocks[b].overflowCount - 1)], dir.Remove({key}))
  {
    assert OpenBlocks(0);
    assert dir.blocks - {key} == dir.blocks;
    forall c | 0 <= c < |blocks|
      ensures |InBlock(dir.overflow - {key}, c)| == |InBlock(dir.overflow, c)| - if c == b then 1 else 0
      ensures BlockHolds(blocks[c], c, dir.blocks, dir.at - {key})
    {
      InBlockRemove(dir.overflow, key, c);
      BlockKept(blocks[c], c, dir.blocks, dir.at, dir.at - {key});
    }
    assert key in InBlock(dir.overflow, b);
  }

  /** A block that has not overflowed has no record in the overflow: skipping the search is sound. */
  lemma NotOverflowed(blocks: seq<DirBlock>, dir: Dir, key: Checksum)
    requires BlocksHold(blocks, dir) && blocks[BlockNo(key)].overflowCount == 0
    ensures key !in dir.overflow
  {
    assert OpenBlocks(0);
    assert key in dir.overflow ==> key in InBlock(dir.overflow, BlockNo(key));
  }

  /** A block slot search finds a key exactly when the block level of the directory has it. */
  lemma FoundIffInBlocks(block: DirBlock, key: Checksum, keys: set<Checksum>, at: map<Checksum, nat>)
    requires BlockHolds(block, BlockNo(key), keys, at)
    ensures key in keys <==> Contains(block.entries, key)
  {
  }

  // ----- lemmas about the records in the slab ------------------------------------------------------

  function RecordOffset(size: nat, i: nat): nat
    requires RECORD_SIZE * (i + 1) <= size
  {
    size - RECORD_SIZE * (i + 1)
  }

  lemma RecordsGain(mem: seq<Slot>, recs: seq<DirEntry>, e: DirEntry)
    requires RecordsLaid(mem, recs) && RECORD_SIZE * (|recs| + 1) <= |mem|
    ensures RecordsLaid(Write(mem, RecordOffset(|mem|, |recs|), Image(Record(e))), recs + [e])
  {
    assert OpenRecords(0);
    var p := RecordOffset(|mem|, |recs|);
    var mem' := Write(mem, p, Image(Record(e)));
    WriteReads(mem, p, Image(Record(e)));
    forall i | 0 <= i < |recs| + 1
      ensures mem'[|mem| - RECORD_SIZE * (i + 1)..|mem| - RECORD_SIZE * i] == Image(Record((recs + [e])[i]))
    {
      if i < |recs| {
        WriteKeeps(mem, p, Image(Record(e)), |mem| - RECORD_SIZE * (i + 1), |mem| - RECORD_SIZE * i);
      }
    }
  }

  lemma RecordsSet(mem: seq<Slot>, recs: seq<DirEntry>, q: nat, e: DirEntry)
    requires RecordsLaid(mem, recs) && q < |recs|
    ensures RecordsLaid(Write(mem, RecordOffset(|mem|, q), Image(Record(e))), recs[q := e])
  {
    assert OpenRecords(0);
    var p := RecordOffset(|mem|, q);
    var mem' := Write(mem, p, Image(Record(e)));
    WriteReads(mem, p, Image(Record(e)));
    forall i | 0 <= i < |recs|
      ensures mem'[|mem| - RECORD_SIZE * (i + 1)..|mem| - RECORD_SIZE * i] == Image(Record(recs[q := e][i]))
    {
      if i != q {
        WriteKeeps(mem, p, Image(Record(e)), |mem| - RECORD_SIZE * (i + 1), |mem| - RECORD_SIZE * i);
      }
    }
  }

  lemma RecordsDrop(mem: seq<Slot>, recs: seq<DirEntry>)
    requires RecordsLaid(mem, recs) && |recs| > 0
    ensures RecordsLaid(mem, recs[..|recs| - 1])
  {
    assert OpenRecords(0);
  }

  lemma RecordRead(mem: seq<Slot>, recs: seq<DirEntry>, i: nat)
    requires RecordsLaid(mem, recs) && i < |recs|
    ensures mem[RecordOffset(|mem|, i)] == Record(recs[i])
  {
    assert OpenRecords(0);
    assert mem[|mem| - RECORD_SIZE * (i + 1)..|mem| - RECORD_SIZE * i][0] == Record(recs[i]);
  }

  /** The records lie in the top of the slab; what is below them is no concern of theirs. */
  lemma RecordsSuffix(mem: seq<Slot>, mem': seq<Slot>, recs: seq<DirEntry>)
    requires RecordsLaid(mem, recs) && |mem| == |mem'|
    requires mem[|mem| - RECORD_SIZE * |recs|..] == mem'[|mem| - RECORD_SIZE * |recs|..]
    ensures RecordsLaid(mem', recs)
  {
    assert OpenRecords(0);
    var n := |mem| - RECORD_SIZE * |recs|;
    forall i | 0 <= i < |recs|
      ensures mem'[|mem| - RECORD_SIZE * (i + 1)..|mem| - RECORD_SIZE * i] == Image(Record(recs[i]))
    {
      var lo, hi := |mem| - RECORD_SIZE * (i + 1), |mem| - RECORD_SIZE * i;
      assert mem[lo..hi] == mem[n..][lo - n..hi - n];
      assert mem'[lo..hi] == mem'[n..][lo - n..hi - n];
    }
  }

  // ----- the directory in place ----------------------------------------------------------------------

  class CellDir {
    const blocks: array<DirBlock>
    var overflowCount: nat

    ghost var dir: Dir             // what the directory maps
    ghost var recs: seq<DirEntry>  // the overflow records, the oldest first
    ghost var count: nat           // how many records there are

    /** Blocks, counts and slab records hold the directory. */
    ghost predicate Holds(slab: array<Slot>)
      reads this, blocks, slab
    {
      && BlocksHold(blocks[..], dir)
      && OverflowHolds(recs, dir.overflow, dir.at)
      && RecordsLaid(slab[..], recs)
      && overflowCount == |recs|
    }

    ghost predicate Valid(slab: array<Slot>)
      reads this, blocks, slab
    {
      && RECORD_SIZE * overflowCount <= slab.Length
      && forall k: nat {:trigger OpenDir(k)} :: OpenDir(k) ==>
           Holds(slab) && dir.Consistent() && count == dir.Count() && overflowCount == |dir.overflow|
    }

    lemma IsCounted(slab: array<Slot>)
      requires Valid(slab)
      ensures Counted(dir, count)
    {
    }

    lemma CountedValid(slab: array<Slot>)
      requires Holds(slab) && Counted(dir, count)
      ensures Valid(slab)
    {
      assert OpenDir(0);
    }

    lemma HeldValid(slab: array<Slot>)
      requires Holds(slab) && dir.Consistent() && count == dir.Count()
      ensures Valid(slab)
    {
    }

    /** A record in the blocks is in the block that byte 17 of its checksum selects. */
    lemma InSelectedBlock(slab: array<Slot>, key: Checksum) returns (i: nat)
      requires Valid(slab) && key in dir.blocks
      ensures key in dir.at && blocks.Length == 256 && i < |blocks[key[17] as nat].entries| == 3
      ensures blocks[key[17] as nat].entries[i] == DirEntry(key, dir.at[key], true)
    {
      assert OpenDir(0);
      var b := key[17] as nat;
      BlockAt(blocks[..], dir, b);
      i :| 0 <= i < |blocks[b].entries| && blocks[b].entries[i].inUse && blocks[b].entries[i].checksum == key;
    }

    /** A record in the overflow is one of the records that grow downward from the top of the slab. */
    lemma InOverflow(slab: array<Slot>, key: Checksum) returns (i: nat)
      requires Valid(slab) && key in dir.overflow
      ensures key in dir.at && i < overflowCount && 36 * (i + 1) <= slab.Length
      ensures slab[slab.Length - 36 * (i + 1)] == Record(DirEntry(key, dir.at[key], true))
    {
      assert OpenDir(0);
      i := OverflowHas(recs, dir.overflow, dir.at, key);
      RecordRead(slab[..], recs, i);
    }

    /** A block counts the overflow records whose checksums select it. */
    lemma OverflowCounted(slab: array<Slot>, b: nat)
      requires Valid(slab) && b < 256
      ensures b < blocks.Length
      ensures blocks[b].overflowCount == |set k: Checksum | k in dir.overflow && k[17] as nat == b|
    {
      assert OpenDir(0);
      BlockAt(blocks[..], dir, b);
      assert InBlock(dir.overflow, b) == set k: Checksum | k in dir.overflow && k[17] as nat == b;
    }

    /** A record goes to the overflow exactly when the block that byte 17 of its checksum selects has
        no free slot. */
    lemma OverflowsIff(slab: array<Slot>, key: Checksum, off: nat)
      requires Valid(slab) && key !in dir.at
      ensures key[17] as nat < blocks.Length && |blocks[key[17] as nat].entries| == 3
      ensures var full := forall e | e in blocks[key[17] as nat].entries :: e.inUse;
              (key in dir.Add(key, off).overflow <==> full) && (key in dir.Add(key, off).blocks <==> !full)
    {
      assert OpenDir(0);
      var b := key[17] as nat;
      BlockAt(blocks[..], dir, b);
      EntryCountIsLoad(blocks[b], b, dir.blocks, dir.at);
    }

    lemma CountTwo(slab: array<Slot>, k: Checksum, k': Checksum)
      requires Valid(slab) && k in dir.at && k' in dir.at && k != k'
      ensures count > 1
    {
      assert OpenDir(0);
      RingInvariant.SubsetSize({k, k'}, dir.blocks + dir.overflow);
    }

    lemma Counts(slab: array<Slot>)
      requires Valid(slab)
      ensures count == dir.Count() && overflowCount == |dir.overflow| && dir.Consistent()
    {
      assert OpenDir(0);
    }

    constructor ()
      ensures fresh(blocks) && blocks.Length == CELL_DIR_BLOCK_COUNT
    {
      blocks := new DirBlock[CELL_DIR_BLOCK_COUNT](_ => EMPTY_BLOCK);
      overflowCount, dir, recs, count := 0, EMPTY_DIR, [], 0;
    }

    /** The directory that lies in a file: it is there as soon as its words are mapped. */
    constructor Mapped(bs: seq<DirBlock>, overflowCount: nat, ghost dir: Dir, ghost recs: seq<DirEntry>)
      ensures fresh(blocks) && blocks[..] == bs && this.overflowCount == overflowCount
      ensures this.dir == dir && this.recs == recs && count == dir.Count()
    {
      blocks := new DirBlock[|bs|](i requires 0 <= i < |bs| => bs[i]);
      this.overflowCount, this.dir, this.recs, count := overflowCount, dir, recs, dir.Count();
    }

    /** cell_dir_init */
    method Init(slab: array<Slot>)
      requires blocks.Length == CELL_DIR_BLOCK_COUNT
      modifies this, blocks
      ensures Valid(slab) && dir == EMPTY_DIR && overflowCount == count == 0
    {
      for i := 0 to CELL_DIR_BLOCK_COUNT
        invariant forall b | 0 <= b < i :: blocks[b] == EMPTY_BLOCK
      {
        blocks[i] := EMPTY_BLOCK;
      }
      overflowCount, dir, recs, count := 0, EMPTY_DIR, [], 0;
      assert forall b: nat :: InBlock(dir.overflow, b) == {};
    }

    /** cell_dir_block_add */
    method BlockAdd(b: nat, entry: DirEntry) returns (ok: bool, ghost i: nat)
      requires b < blocks.Length && |blocks[b].entries| == CELL_DIR_BLOCK_ENTRIES
      modifies blocks
      ensures ok ==> && i < CELL_DIR_BLOCK_ENTRIES && !old(blocks[b]).entries[i].inUse
                     && blocks[..] == old(blocks[..])[b := old(blocks[b]).(
                                        entries := old(blocks[b]).entries[i := entry],
                                        entryCount := old(blocks[b]).entryCount + 1)]
      ensures !ok ==> && blocks[..] == old(blocks[..])
                      && forall k | 0 <= k < CELL_DIR_BLOCK_ENTRIES :: blocks[b].entries[k].inUse
    {
      for k := 0 to CELL_DIR_BLOCK_ENTRIES
        invariant blocks[..] == old(blocks[..])
        invariant forall l | 0 <= l < k :: blocks[b].entries[l].inUse
      {
        if !blocks[b].entries[k].inUse {
          blocks[b] := blocks[b].(entries := blocks[b].entries[k := entry], entryCount := blocks[b].entryCount + 1);
          return true, k;
        }
      }
      return false, 0;
    }

    /** cell_dir_block_find */
    method BlockFind(b: nat, key: Checksum) returns (found: Option<nat>)
      requires b < blocks.Length && |blocks[b].entries| == CELL_DIR_BLOCK_ENTRIES
      requires blocks[b].entryCount == 0 ==> forall i | 0 <= i < CELL_DIR_BLOCK_ENTRIES :: !blocks[b].entries[i].inUse
      ensures found.None? ==> !Contains(blocks[b].entries, key)
      ensures found.Some? ==> && found.value < CELL_DIR_BLOCK_ENTRIES && blocks[b].entries[found.value].inUse
                              && blocks[b].entries[found.value].checksum == key
    {
      if blocks[b].entryCount == 0 {
        return None;
      }
      for i := 0 to CELL_DIR_BLOCK_ENTRIES
        invariant forall k | 0 <= k < i :: blocks[b].entries[k].inUse ==> blocks[b].entries[k].checksum != key
      {
        if blocks[b].entries[i].inUse && blocks[b].entries[i].checksum == key {
          return Some(i);
        }
      }
      return None;
    }

    /** cell_dir_overflow_add */
    method OverflowAdd(slab: array<Slot>, entry: DirEntry)
      requires RecordsLaid(slab[..], recs) && overflowCount == |recs|
      requires RECORD_SIZE * (overflowCount + 1) <= slab.Length && overflowCount + 1 < OVERFLOW_LIMIT
      modifies this`overflowCount, this`recs, slab
      ensures RecordsLaid(slab[..], recs) && overflowCount == |recs|
      ensures recs == old(recs) + [entry]
      ensures SameBelow(old(slab[..]), slab[..], RecordOffset(slab.Length, old(overflowCount)))
    {
      ghost var mem := slab[..];
      overflowCount := (overflowCount + 1) % OVERFLOW_LIMIT;
      var p := slab.Length - overflowCount * RECORD_SIZE;
      assert p == RecordOffset(|mem|, |recs|);
      WriteSlots(slab, p, Image(Record(entry)));
      assert slab[..] == Write(mem, RecordOffset(|mem|, |recs|), Image(Record(entry)));
      RecordsGain(mem, recs, entry);
      WriteKeepsBelow(mem, p, Image(Record(entry)), p);
      recs := recs + [entry];
    }

    /** The loop of cell_dir_overflow_get_chunk and cell_dir_overflow_remove: from the
        newest record up, the index of the record of a key. */
    method OverflowFind(slab: array<Slot>, key: Checksum) returns (found: Option<nat>)
      requires RecordsLaid(slab[..], recs) && overflowCount == |recs|
      ensures found.None? ==> !Contains(recs, key)
      ensures found.Some? ==> found.value < |recs| && recs[found.value].checksum == key
    {
      var i := 0;
      while i < overflowCount
        invariant 0 <= i <= overflowCount
        invariant forall k | |recs| - i <= k < |recs| :: recs[k].checksum != key
      {
        var ptr := slab.Length - RECORD_SIZE * (overflowCount - i);
        RecordRead(slab[..], recs, |recs| - 1 - i);
        if slab[ptr].entry.checksum == key {
          return Some(overflowCount - 1 - i);
        }
        i := i + 1;
      }
      return None;
    }

    /** cell_dir_overflow_remove */
    method OverflowRemove(slab: array<Slot>, key: Checksum) returns (ok: bool, ghost i: nat)
      requires RecordsLaid(slab[..], recs) && OverflowHolds(recs, dir.overflow, dir.at) && overflowCount == |recs|
      modifies this`overflowCount, this`recs, slab
      ensures ok <==> key in dir.overflow
      ensures RecordsLaid(slab[..], recs) && overflowCount == |recs|
      ensures OverflowHolds(recs, dir.overflow - {key}, dir.at - {key})
      ensures ok ==> && i < |old(recs)| && old(recs)[i].checksum == key
                     && recs == SwapRemoved(old(recs), i)
      ensures !ok ==> recs == old(recs)
      ensures overflowCount <= old(overflowCount)
      ensures SameBelow(old(slab[..]), slab[..], slab.Length - RECORD_SIZE * old(overflowCount))
    {
      var q := OverflowFind(slab, key);
      OverflowSearch(recs, dir.overflow, dir.at, key, q);
      if q.None? {
        OverflowKept(recs, dir.overflow, dir.at, dir.at - {key});
        assert dir.overflow - {key} == dir.overflow;
        return false, 0;
      }
      OverflowLoses(recs, dir.overflow, dir.at, q.value);
      if overflowCount == 1 {
        DropNewest(slab);
      } else {
        SwapOut(slab, q.value);
      }
      return true, q.value;
    }

    /** Clear the newest record. */
    method ZeroNewest(slab: array<Slot>)
      requires RecordsLaid(slab[..], recs) && overflowCount == |recs| > 0
      modifies slab
      ensures RecordsLaid(slab[..], recs[..|recs| - 1])
      ensures SameBelow(old(slab[..]), slab[..], slab.Length - RECORD_SIZE * overflowCount)
    {
      ghost var mem := slab[..];
      ghost var n := |recs|;
      var newest := slab.Length - RECORD_SIZE * overflowCount;
      assert newest == RecordOffset(|mem|, n - 1);
      WriteSlots(slab, newest, Image(Record(ZERO_RECORD)));
      assert slab[..] == Write(mem, RecordOffset(|mem|, n - 1), Image(Record(ZERO_RECORD)));
      RecordsSet(mem, recs, n - 1, ZERO_RECORD);
      RecordsDrop(slab[..], recs[n - 1 := ZERO_RECORD]);
      assert recs[n - 1 := ZERO_RECORD][..n - 1] == recs[..n - 1];
      WriteKeepsBelow(mem, newest, Image(Record(ZERO_RECORD)), newest);
    }

    /** Clear the newest record and count it out. */
    method DropNewest(slab: array<Slot>)
      requires RecordsLaid(slab[..], recs) && overflowCount == |recs| > 0
      modifies this`overflowCount, this`recs, slab
      ensures RecordsLaid(slab[..], recs) && overflowCount == |recs| == old(|recs|) - 1
      ensures recs == old(recs[..|recs| - 1])
      ensures SameBelow(old(slab[..]), slab[..], slab.Length - RECORD_SIZE * old(overflowCount))
    {
      ZeroNewest(slab);
      overflowCount, recs := overflowCount - 1, recs[..|recs| - 1];
    }

    /** Copy the newest record over record q and drop it. */
    method SwapOut(slab: array<Slot>, q: nat)
      requires RecordsLaid(slab[..], recs) && overflowCount == |recs| && q < |recs|
      modifies this`overflowCount, this`recs, slab
      ensures RecordsLaid(slab[..], recs) && overflowCount == |recs|
      ensures recs == old(SwapRemoved(recs, q))
      ensures SameBelow(old(slab[..]), slab[..], slab.Length - RECORD_SIZE * old(overflowCount))
    {
      ghost var mem := slab[..];
      CopyNewest(slab, q);
      ghost var mem' := slab[..];
      recs := recs[q := recs[|recs| - 1]];
      DropNewest(slab);
      ghost var n := |mem| - RECORD_SIZE * old(overflowCount);
      SameBelowTrans(mem, mem', slab[..], n, n);
    }

    method CopyNewest(slab: array<Slot>, q: nat)
      requires RecordsLaid(slab[..], recs) && overflowCount == |recs| && q < |recs|
      modifies slab
      ensures RecordsLaid(slab[..], recs[q := recs[|recs| - 1]])
      ensures SameBelow(old(slab[..]), slab[..], slab.Length - RECORD_SIZE * overflowCount)
    {
      ghost var mem := slab[..];
      var newest := slab.Length - RECORD_SIZE * overflowCount;
      var ptr := slab.Length - RECORD_SIZE * (q + 1);
      RecordRead(mem, recs, |recs| - 1);
      assert slab[newest] == Record(recs[|recs| - 1]) && ptr == RecordOffset(|mem|, q);
      WriteSlots(slab, ptr, Image(slab[newest]));
      assert slab[..] == Write(mem, RecordOffset(|mem|, q), Image(Record(recs[|recs| - 1])));
      RecordsSet(mem, recs, q, recs[|recs| - 1]);
      WriteKeepsBelow(mem, ptr, Image(Record(recs[|recs| - 1])), newest);
    }

    /** cell_dir_add */
    method Add(slab: array<Slot>, entry: DirEntry)
      requires Valid(slab) && entry.inUse && entry.checksum !in dir.at
      requires RECORD_SIZE * (overflowCount + 1) <= slab.Length && overflowCount + 1 < BLOCK_OVERFLOW_LIMIT
      modifies this, blocks, slab
      ensures Valid(slab) && dir == old(dir).Add(entry.checksum, entry.offset)
      ensures overflowCount <= old(overflowCount) + 1 && count == old(count) + 1
      ensures SameBelow(old(slab[..]), slab[..], RecordOffset(slab.Length, old(overflowCount)))
    {
      assert OpenDir(0);
      RingInvariant.AddKeeps(dir, entry.checksum, entry.offset);
      AddHeld(slab, entry);
      count := count + 1;
    }

    method AddHeld(slab: array<Slot>, entry: DirEntry)
      requires Holds(slab) && entry.inUse && entry.checksum !in dir.at
      requires RECORD_SIZE * (overflowCount + 1) <= slab.Length && overflowCount + 1 < BLOCK_OVERFLOW_LIMIT
      requires dir.Consistent()
      modifies this`overflowCount, this`recs, this`dir, blocks, slab
      ensures Holds(slab) && dir == old(dir).Add(entry.checksum, entry.offset)
      ensures overflowCount <= old(overflowCount) + 1
      ensures SameBelow(old(slab[..]), slab[..], RecordOffset(slab.Length, old(overflowCount)))
    {
      var b := BlockNo(entry.checksum);
      var ok := AddToBlock(b, entry);
      if !ok {
        AddFull(slab, b, entry);
      }
      dir := dir.Add(entry.checksum, entry.offset);
    }

    /** The half of cell_dir_add for a block with a free slot. */
    method AddToBlock(b: nat, entry: DirEntry) returns (ok: bool)
      requires BlocksHold(blocks[..], dir) && OverflowHolds(recs, dir.overflow, dir.at) && dir.Consistent()
      requires entry.inUse && entry.checksum !in dir.at && b == BlockNo(entry.checksum)
      modifies blocks
      ensures var d := dir.Add(entry.checksum, entry.offset);
              ok ==> BlocksHold(blocks[..], d) && OverflowHolds(recs, d.overflow, d.at)
      ensures !ok ==> && blocks[..] == old(blocks[..]) && b < blocks.Length
                      && |blocks[b].entries| == CELL_DIR_BLOCK_ENTRIES
                      && forall k | 0 <= k < CELL_DIR_BLOCK_ENTRIES :: blocks[b].entries[k].inUse
    {
      BlockAt(blocks[..], dir, b);
      ghost var was := blocks[..];
      ghost var i;
      ok, i := BlockAdd(b, entry);
      if ok {
        BlockAddHolds(was, dir, b, i, entry);
        OverflowKept(recs, dir.overflow, dir.at, dir.at[entry.checksum := entry.offset]);
      }
    }

    /** The half of cell_dir_add for a block that is full. */
    method AddFull(slab: array<Slot>, b: nat, entry: DirEntry)
      requires Holds(slab) && entry.inUse && entry.checksum !in dir.at && dir.Consistent()
      requires b == BlockNo(entry.checksum) && b < blocks.Length && |blocks[b].entries| == CELL_DIR_BLOCK_ENTRIES
      requires forall k | 0 <= k < CELL_DIR_BLOCK_ENTRIES :: blocks[b].entries[k].inUse
      requires RECORD_SIZE * (overflowCount + 1) <= slab.Length && overflowCount + 1 < BLOCK_OVERFLOW_LIMIT
      modifies this`overflowCount, this`recs, blocks, slab
      ensures var d := dir.Add(entry.checksum, entry.offset);
              BlocksHold(blocks[..], d) && OverflowHolds(recs, d.overflow, d.at)
      ensures RecordsLaid(slab[..], recs) && overflowCount == |recs| == old(overflowCount) + 1
      ensures SameBelow(old(slab[..]), slab[..], RecordOffset(slab.Length, old(overflowCount)))
    {
      ghost var d := dir.Add(entry.checksum, entry.offset);
      OverflowAddHolds(blocks[..], dir, b, entry);
      BlockOverflowBound(blocks[..], dir, b);
      AddOverflowed(slab, b, entry, d);
    }

    /** The record of a full block goes to the overflow and is counted in its block. */
    method AddOverflowed(slab: array<Slot>, b: nat, entry: DirEntry, ghost d: Dir)
      requires OverflowHolds(recs, dir.overflow, dir.at) && RecordsLaid(slab[..], recs)
      requires overflowCount == |recs| && entry.inUse && b < blocks.Length
      requires entry.checksum !in dir.at && entry.checksum !in dir.overflow
      requires RECORD_SIZE * (overflowCount + 1) <= slab.Length && overflowCount + 1 < BLOCK_OVERFLOW_LIMIT
      requires blocks[b].overflowCount <= overflowCount
      requires BlocksHold(blocks[..][b := blocks[b].(overflowCount := blocks[b].overflowCount + 1)], d)
      modifies this`overflowCount, this`recs, blocks, slab
      ensures BlocksHold(blocks[..], d)
      ensures OverflowHolds(recs, dir.overflow + {entry.checksum}, dir.at[entry.checksum := entry.offset])
      ensures RecordsLaid(slab[..], recs)
      ensures overflowCount == |recs| == old(overflowCount) + 1
      ensures SameBelow(old(slab[..]), slab[..], RecordOffset(slab.Length, old(overflowCount)))
    {
      ghost var was := blocks[..];
      OverflowGains(recs, dir.overflow, dir.at, entry);
      OverflowAdd(slab, entry);
      assert blocks[..] == was;
      IncrementOverflow(b);
    }

    /** cell_dir_block_increment_overflow */
    method IncrementOverflow(b: nat)
      requires b < blocks.Length && blocks[b].overflowCount + 1 < BLOCK_OVERFLOW_LIMIT
      modifies blocks
      ensures blocks[..] == old(blocks[..])[b := old(blocks[b]).(overflowCount := old(blocks[b]).overflowCount + 1)]
    {
      blocks[b] := blocks[b].(overflowCount := (blocks[b].overflowCount + 1) % BLOCK_OVERFLOW_LIMIT);
    }

    /** cell_dir_block_decrement_overflow */
    method DecrementOverflow(b: nat)
      requires b < blocks.Length && blocks[b].overflowCount > 0
      modifies blocks
      ensures blocks[..] == old(blocks[..])[b := old(blocks[b]).(overflowCount := old(blocks[b]).overflowCount - 1)]
    {
      blocks[b] := blocks[b].(overflowCount := blocks[b].overflowCount - 1);
    }

    /** cell_dir_remove */
    method Remove(slab: array<Slot>, key: Checksum) returns (ok: bool)
      requires Valid(slab)
      modifies this, blocks, slab
      ensures ok <==> key in old(dir).at
      ensures Valid(slab) && dir == old(dir).Remove({key})
      ensures overflowCount <= old(overflowCount) && count == old(count) - if ok then 1 else 0
      ensures SameBelow(old(slab[..]), slab[..], slab.Length - RECORD_SIZE * old(overflowCount))
    {
      IsCounted(slab);
      CountedLess(dir, count, key);
      ok := RemoveUncounted(slab, key);
      count := count - if ok then 1 else 0;
      CountedValid(slab);
    }

    method RemoveUncounted(slab: array<Slot>, key: Checksum) returns (ok: bool)
      requires Valid(slab)
      modifies this`overflowCount, this`recs, this`dir, blocks, slab
      ensures ok <==> key in old(dir).at
      ensures Holds(slab) && dir == old(dir).Remove({key})
      ensures overflowCount <= old(overflowCount)
      ensures SameBelow(old(slab[..]), slab[..], slab.Length - RECORD_SIZE * old(overflowCount))
    {
      assert OpenDir(0);
      ok := RemoveHeld(slab, key);
    }

    method RemoveHeld(slab: array<Slot>, key: Checksum) returns (ok: bool)
      requires Holds(slab) && dir.Consistent()
      modifies this`overflowCount, this`recs, this`dir, blocks, slab
      ensures ok <==> key in old(dir).at
      ensures Holds(slab) && dir == old(dir).Remove({key})
      ensures overflowCount <= old(overflowCount)
      ensures SameBelow(old(slab[..]), slab[..], slab.Length - RECORD_SIZE * old(overflowCount))
    {
      ghost var i;
      ok, i := BlockRemove(BlockNo(key), key);
      if ok {
        OverflowKept(recs, dir.overflow, dir.at, dir.at - {key});
        assert dir.overflow - {key} == dir.overflow;
      } else {
        ok := RemoveOverflowed(slab, BlockNo(key), key);
      }
      dir := dir.Remove({key});
    }

    /** The half of cell_dir_remove that searches the overflow. */
    method RemoveOverflowed(slab: array<Slot>, b: nat, key: Checksum) returns (ok: bool)
      requires BlocksHold(blocks[..], dir) && OverflowHolds(recs, dir.overflow, dir.at) && RecordsLaid(slab[..], recs)
      requires overflowCount == |recs| && b == BlockNo(key) && key !in dir.blocks && dir.Consistent()
      modifies this`overflowCount, this`recs, blocks, slab
      ensures ok <==> key in dir.overflow
      ensures BlocksHold(blocks[..], dir.Remove({key}))
      ensures OverflowHolds(recs, dir.overflow - {key}, dir.at - {key})
      ensures RecordsLaid(slab[..], recs) && overflowCount == |recs| <= old(overflowCount)
      ensures SameBelow(old(slab[..]), slab[..], slab.Length - RECORD_SIZE * old(overflowCount))
    {
      if blocks[b].overflowCount == 0 {
        NotOverflowed(blocks[..], dir, key);
        RemoveAbsent(dir, key);
        return false;
      }
      ghost var i;
      ok, i := OverflowRemove(slab, key);
      if ok {
        RemoveCount(b, key);
      } else {
        RemoveAbsent(dir, key);
      }
    }

    /** Take a key just removed from the overflow out of the count of its block. */
    method RemoveCount(b: nat, key: Checksum)
      requires BlocksHold(blocks[..], dir) && b == BlockNo(key) && key in dir.overflow && key !in dir.blocks
      modifies blocks
      ensures BlocksHold(blocks[..], dir.Remove({key}))
    {
      OverflowRemoveHolds(blocks[..], dir, b, key);
      DecrementOverflow(b);
    }

    /** cell_dir_block_remove */
    method BlockRemove(b: nat, key: Checksum) returns (ok: bool, ghost i: nat)
      requires BlocksHold(blocks[..], dir) && b == BlockNo(key) && dir.Consistent()
      modifies blocks
      ensures ok <==> key in dir.blocks
      ensures ok ==> BlocksHold(blocks[..], dir.Remove({key}))
      ensures ok ==> && b < blocks.Length && blocks[..] == old(blocks[..])[b := blocks[b]]
                     && i < |old(blocks[b]).entries| && old(blocks[b]).entries[i].checksum == key
                     && blocks[b].entries == old(blocks[b]).entries[i := ZERO_RECORD]
                     && blocks[b].entryCount == old(blocks[b]).entryCount - 1
                     && blocks[b].overflowCount == old(blocks[b]).overflowCount
      ensures !ok ==> blocks[..] == old(blocks[..])
    {
      BlockAt(blocks[..], dir, b);
      FoundIffInBlocks(blocks[b], key, dir.blocks, dir.at);
      var found := BlockFind(b, key);
      if found.None? {
        return false, 0;
      }
      i := found.value;
      BlockRemoveHolds(blocks[..], dir, b, i, key);
      blocks[b] := blocks[b].(entries := blocks[b].entries[found.value := ZERO_RECORD],
                              entryCount := blocks[b].entryCount - 1);
      return true, i;
    }

    /** cell_dir_get_chunk */
    method Get(slab: array<Slot>, key: Checksum) returns (r: Option<DirEntry>)
      requires Valid(slab)
      ensures r == if key in dir.at then Some(DirEntry(key, dir.at[key], true)) else None
    {
      assert OpenDir(0);
      var b := BlockNo(key);
      BlockAt(blocks[..], dir, b);
      FoundIffInBlocks(blocks[b], key, dir.blocks, dir.at);
      var i := BlockFind(b, key);
      if i.Some? {
        return Some(blocks[b].entries[i.value]);
      }
      if blocks[b].overflowCount > 0 {
        var q := OverflowFind(slab, key);
        OverflowSearch(recs, dir.overflow, dir.at, key, q);
        if q.Some? {
          RecordRead(slab[..], recs, q.value);
          return Some(slab[slab.Length - RECORD_SIZE * (q.value + 1)].entry);
        }
      } else {
        NotOverflowed(blocks[..], dir, key);
      }
      return None;
    }
  }
}
