/** The cell as a value: a chain of entries reused as a ring, and the directory that
    indexes it. One insertion is a function of this value; the class Cell computes that
    function in place, and module RingTheorems says what it guarantees. */
module Ring {
  import opened Types

  /** An entry of the chain, at its slab offset. A free entry is the remainder of a run
      of evicted entries. The insertion time is specification only. */
  datatype Entry =
    | Used(off: nat, key: Checksum, data: seq<byte>, time: nat)
    | Free(off: nat, room: nat)
  {
    function Size(): nat {
      if Used? then |data| else room
    }

    function End(): nat {
      off + ENTRY_SIZE + Size()
    }
  }

  /** The directory: the checksums whose records are in the blocks, those whose records
      are in the overflow, and the slab offset each record gives. */
  datatype Dir = Dir(blocks: set<Checksum>, overflow: set<Checksum>, at: map<Checksum, nat>) {
    function Keys(): set<Checksum> {
      at.Keys
    }

    ghost predicate Consistent() {
      blocks !! overflow && at.Keys == blocks + overflow
    }

    /** The number of records. */
    function Count(): nat {
      |blocks| + |overflow|
    }

    /** A record goes to its block while the block has a free slot, else to the overflow. */
    function Add(key: Checksum, off: nat): Dir {
      if |InBlock(blocks, BlockNo(key))| < CELL_DIR_BLOCK_ENTRIES
      then Dir(blocks + {key}, overflow, at[key := off])
      else Dir(blocks, overflow + {key}, at[key := off])
    }

    function Remove(keys: set<Checksum>): Dir {
      Dir(blocks - keys, overflow - keys, at - keys)
    }
  }

  const EMPTY_DIR := Dir({}, {}, map[])

  function InBlock(keys: set<Checksum>, b: nat): set<Checksum> {
    set k | k in keys && BlockNo(k) == b
  }

  function KeysOf(entries: seq<Entry>): set<Checksum> {
    set e | e in entries && e.Used? :: e.key
  }

  /** Payload bytes of the used entries. */
  function TotalBytes(entries: seq<Entry>): nat {
    if entries == [] then 0
    else
      var last := entries[|entries| - 1];
      TotalBytes(entries[..|entries| - 1]) + if last.Used? then |last.data| else 0
  }

  /** Slab space below the fixed header, and the chunk sizes the cell is used with. */
  datatype Geometry = Geometry(space: nat, minChunk: nat, maxChunk: nat) {
    ghost predicate Valid() {
      && 1 <= minChunk <= maxChunk <= SIZE_LIMIT - ENTRY_SIZE
      && 7 * maxChunk + 394 <= space < OFFSET_LIMIT
      && space < BLOCK_OVERFLOW_LIMIT * (ENTRY_SIZE + minChunk)
    }

    predicate Accepts(data: seq<byte>) {
      minChunk <= |data| <= maxChunk
    }
  }

  /** top is the offset of the top entry, next the index of the entry that
      next_entry_offset points at; next == |entries| when that is the top. */
  datatype State = State(geo: Geometry, entries: seq<Entry>, top: nat, next: nat, dir: Dir, clock: nat) {
    /** Bytes between the top entry and the lowest overflow record. */
    function FreeSpace(): int {
      geo.space - (top + ENTRY_SIZE + RECORD_SIZE * |dir.overflow|)
    }

    /** Offset of entry i, or of the top when i is past the chain. */
    function Boundary(i: nat): nat {
      if i < |entries| then entries[i].off else top
    }
  }

  function Empty(geo: Geometry): State {
    State(geo, [], 0, 0, EMPTY_DIR, 0)
  }

  // ----- the invariant ---------------------------------------------------------------

  /** Entries tile the slab from 0 to the top. */
  ghost predicate Tiled(entries: seq<Entry>, top: nat) {
    && (if |entries| == 0 then top == 0 else entries[0].off == 0)
    && forall i {:trigger entries[i].End()} | 0 <= i < |entries| ::
         entries[i].End() == if i + 1 < |entries| then entries[i + 1].off else top
  }

  ghost predicate DistinctKeys(entries: seq<Entry>) {
    forall i, j | 0 <= i < j < |entries| && entries[i].Used? && entries[j].Used? ::
      entries[i].key != entries[j].key
  }

  /** The directory records are those of the used entries, except the pending ones. */
  ghost predicate Indexed(entries: seq<Entry>, dir: Dir, pending: set<Checksum>) {
    && dir.Consistent()
    && dir.Keys() == KeysOf(entries) - pending
    && forall i | 0 <= i < |entries| && entries[i].Used? && entries[i].key in dir.at ::
         dir.at[entries[i].key] == entries[i].off
  }

  ghost predicate SizesBounded(entries: seq<Entry>, geo: Geometry) {
    forall i | 0 <= i < |entries| ::
      if entries[i].Used? then geo.Accepts(entries[i].data)
      else entries[i].room < geo.maxChunk + ENTRY_SIZE
  }

  ghost predicate BlocksBounded(dir: Dir) {
    forall b: nat | b < CELL_DIR_BLOCK_COUNT :: |InBlock(dir.blocks, b)| <= CELL_DIR_BLOCK_ENTRIES
  }

  /** Only the entry at next may be free. */
  ghost predicate FreeOnlyAt(entries: seq<Entry>, next: nat) {
    forall i | 0 <= i < |entries| && entries[i].Free? :: i == next
  }

  /** Ring order: from next to the top, then from 0 to next. */
  predicate Before(next: nat, i: nat, j: nat) {
    if (i < next) == (j < next) then i < j else j < next
  }

  ghost predicate RingOrdered(entries: seq<Entry>, next: nat, clock: nat) {
    && (forall i | 0 <= i < |entries| && entries[i].Used? :: entries[i].time < clock)
    && (forall i, j | 0 <= i < |entries| && 0 <= j < |entries| && Before(next, i, j)
                      && entries[i].Used? && entries[j].Used? ::
          entries[i].time < entries[j].time)
  }

  /** A condition written as a quantifier over k whose only trigger is a predicate like this
      one is carried through a proof as it stands; asserting the trigger at 0 unfolds it. */
  ghost predicate OpenCore(k: nat) {
    true
  }

  /** What holds of the chain and the directory while a record is still pending. */
  ghost predicate Core(s: State, pending: set<Checksum>) {
    && s.geo.Valid()
    && s.FreeSpace() >= 0
    && forall k: nat {:trigger OpenCore(k)} :: OpenCore(k) ==>
         && Tiled(s.entries, s.top)
         && DistinctKeys(s.entries)
         && Indexed(s.entries, s.dir, pending)
         && SizesBounded(s.entries, s.geo)
         && BlocksBounded(s.dir)
  }

  ghost predicate OpenRing(k: nat) {
    true
  }

  /** The invariant in the middle of an insertion that has gone back to 0. */
  ghost predicate Rewound(s: State) {
    && Core(s, {})
    && s.next <= |s.entries|
    && forall k: nat {:trigger OpenRing(k)} :: OpenRing(k) ==>
         FreeOnlyAt(s.entries, s.next) && RingOrdered(s.entries, s.next, s.clock)
  }

  ghost predicate Inv(s: State) {
    Rewound(s) && (s.next == 0 ==> s.entries == [])
  }

  // ----- insertion -------------------------------------------------------------------

  datatype Outcome =
    | Stored(state: State)
    | Dropped(state: State)
    | Aborted  // a failed assertion in the middle of the update

  /** Where the run of entries evicted from i ends: the least j' >= j with room for need
      payload bytes in entries[i..j'], or the end of the chain. */
  function RunEnd(entries: seq<Entry>, i: nat, j: nat, need: nat): (r: nat)
    requires i < j <= |entries|
    ensures j <= r <= |entries|
    ensures r < |entries| ==> entries[r - 1].End() >= entries[i].off + ENTRY_SIZE + need
    decreases |entries| - j
  {
    if entries[j - 1].End() >= entries[i].off + ENTRY_SIZE + need || j == |entries|
    then j
    else RunEnd(entries, i, j + 1, need)
  }

  /** Delete the entry below the top, with its record, and lower the top to it. */
  function Pop(s: State): State
    requires |s.entries| > 0 && s.entries[|s.entries| - 1].Used?
  {
    var last := s.entries[|s.entries| - 1];
    s.(entries := s.entries[..|s.entries| - 1], top := last.off, dir := s.dir.Remove({last.key}))
  }

  /** Add the record for an entry already in place, making room in the overflow if need
      be by deleting the entry below the top. */
  function PlaceRecord(s: State, key: Checksum, off: nat): Outcome {
    if s.FreeSpace() >= RECORD_SIZE then
      Stored(s.(dir := s.dir.Add(key, off)))
    else if |s.entries| == 0 then
      Aborted
    else
      var last := s.entries[|s.entries| - 1];
      if last.Free? || last.key !in s.dir.Keys() then
        Aborted
      else
        Stored(Pop(s).(dir := Pop(s).dir.Add(key, off)))
  }

  /** Turn the top entry into the new entry and add a new top above it. */
  function Append(s: State, key: Checksum, data: seq<byte>): Outcome {
    if s.FreeSpace() < |data| + ENTRY_SIZE + RECORD_SIZE then
      Dropped(s.(next := |s.entries|))
    else
      Stored(s.(entries := s.entries + [Used(s.top, key, data, s.clock)],
                top := s.top + ENTRY_SIZE + |data|,
                next := |s.entries| + 1,
                dir := s.dir.Add(key, s.top),
                clock := s.clock + 1))
  }

  /** The state once entries[i..j] are replaced by mid and their records removed. */
  function Splice(s: State, j: nat, mid: seq<Entry>): State
    requires s.next <= j <= |s.entries|
  {
    s.(entries := s.entries[..s.next] + mid + s.entries[j..],
       dir := s.dir.Remove(KeysOf(s.entries[s.next..j])),
       next := s.next + 1,
       clock := s.clock + 1)
  }

  /** The state once every entry from next on is evicted and the top lowered to there. */
  function Truncate(s: State): State
    requires s.next < |s.entries|
  {
    s.(entries := s.entries[..s.next],
       top := s.entries[s.next].off,
       dir := s.dir.Remove(KeysOf(s.entries[s.next..])))
  }

  /** What takes the place of the evicted run: the new entry and the remainder, if any. */
  function Replacement(s: State, j: nat, key: Checksum, data: seq<byte>): (mid: seq<Entry>)
    requires s.next < j <= |s.entries|
    requires s.entries[s.next].Size() == |data| ||
             s.entries[j - 1].End() >= s.entries[s.next].off + 2 * ENTRY_SIZE + |data|
  {
    var fresh' := Used(s.entries[s.next].off, key, data, s.clock);
    if s.entries[s.next].Size() == |data| then [fresh']
    else [fresh', Free(fresh'.End(), s.entries[j - 1].End() - fresh'.End() - ENTRY_SIZE)]
  }

  /** End of the run that an insertion of n bytes at next evicts. */
  function VictimEnd(s: State, n: nat): (j: nat)
    requires s.next < |s.entries|
    ensures s.next < j <= |s.entries|
  {
    if s.entries[s.next].Size() == n then s.next + 1
    else RunEnd(s.entries, s.next, s.next + 1, n + ENTRY_SIZE)
  }

  /** Insert over the entries from next on. */
  function InsertAt(s: State, key: Checksum, data: seq<byte>): Outcome
    requires s.next < |s.entries|
  {
    var j := VictimEnd(s, |data|);
    if s.entries[s.next].Size() != |data| && j == |s.entries| then
      Append(Truncate(s), key, data)
    else
      PlaceRecord(Splice(s, j, Replacement(s, j, key, data)), key, s.entries[s.next].off)
  }

  /** Where an insertion of n bytes starts: next, or 0 if it stands at a top without room. */
  function Rewind(s: State, n: nat): State {
    if s.next >= |s.entries| && s.FreeSpace() < n + ENTRY_SIZE + RECORD_SIZE then s.(next := 0) else s
  }

  /** cell_body_add: the ring allocator. */
  function Insert(s: State, key: Checksum, data: seq<byte>): Outcome
    requires Inv(s) && s.geo.Accepts(data)
  {
    EmptyHasRoom(s);
    var s' := Rewind(s, |data|);
    if s'.next < |s'.entries| then InsertAt(s', key, data) else Append(s', key, data)
  }

  /** An empty cell takes any chunk at its top, so an insertion never walks an empty chain. */
  lemma EmptyHasRoom(s: State)
    requires Core(s, {})
    ensures s.entries == [] ==> s.FreeSpace() >= s.geo.maxChunk + ENTRY_SIZE + RECORD_SIZE
  {
    assert OpenCore(0);
    if s.entries == [] {
      assert KeysOf(s.entries) == {};
      assert s.dir.overflow == {};
    }
  }

  /** The one case in which an insertion of n bytes fails an assertion: it would replace an
      entry of the same size that lies right below the top, while there is no room for a
      directory record. */
  predicate TailHazard(s: State, n: nat) {
    && s.next + 1 == |s.entries|
    && s.entries[s.next].Size() == n
    && s.FreeSpace() + (if s.entries[s.next].Used? && s.entries[s.next].key in s.dir.overflow
                        then RECORD_SIZE else 0) < RECORD_SIZE
  }
}
