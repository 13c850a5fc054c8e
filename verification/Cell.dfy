/** The cell in place: headers, payloads and overflow records share one slab. Every
    method is proved against the functions of module Ring. */
module CellStore {
  import opened Types
  import opened Ring
  import opened Slab
  import opened Layout
  import opened CellDirectory
  import opened CellWords
  import opened RingInvariant
  import opened CellLemmas
  import opened CellParts
  import opened RingMap
  import opened RingTheorems

  class Cell {
    const slab: array<Slot>  // below the fixed header
    const dir: CellDir
    var magic: nat
    var entryCount: int
    var byteCount: int
    var entryCode: nat
    var exitCode: nat
    var top: nat    // top_entry_offset
    var next: nat   // next_entry_offset
    ghost var s: State

    /** Memory and fields hold the state st. */
    ghost predicate Coupled(st: State)
      reads this, slab, dir, dir.blocks
    {
      && slab.Length == st.geo.space
      && top == st.top && next == st.Boundary(st.next)
      && dir.Valid(slab) && dir.dir == st.dir
      && Laid(slab[..], st.entries, st.top)
      && entryCount == dir.count && byteCount == TotalBytes(st.entries)
    }

    ghost predicate Valid()
      reads this, slab, dir, dir.blocks
    {
      Coupled(s) && Inv(s) && magic == CELL_HEADER_MAGIC && entryCode == exitCode < CODE_LIMIT
    }

    /** The words of the cell as they would lie in its file. */
    ghost function Snapshot(): Words
      reads this, slab, dir, dir.blocks
    {
      Words(magic, entryCode, exitCode, entryCount, byteCount, top, next, dir.overflowCount, dir.blocks[..], slab[..])
    }

    /** Those words hold the state that the cell holds. */
    lemma CoupledHolds(st: State)
      requires Coupled(st)
      ensures Holds(Snapshot(), st)
    {
      assert OpenDir(0);
      assert HoldsWith(Snapshot(), st, dir.recs);
    }

    lemma ValidHolds()
      requires Valid()
      ensures HoldsCell(Snapshot(), s) && Formed(Snapshot(), s.geo)
    {
      CoupledHolds(s);
    }

    /** Where an entry lies, its header first and then its bytes; the header names the size of the
        entry before it. */
    lemma EntryInMemory(i: nat)
      requires Valid() && i < |s.entries|
      ensures var e, prev := s.entries[i], if i == 0 then 0 else s.entries[i - 1].Size();
              && e.off + 36 + e.Size() <= slab.Length
              && slab[e.off] == (if e.Used? then Head(e.key, false, false, |e.data|, prev)
                                 else Head(ZERO_CHECKSUM, true, false, e.room, prev))
              && (e.Used? ==> forall k | 0 <= k < |e.data| :: slab[e.off + 36 + k] == Byte(e.data[k]))
    {
      LaidAt(slab[..], s.entries, 0, |s.entries|, i);
      var e := s.entries[i];
      assert OpenEntry(0);
      if e.Used? {
        forall k | 0 <= k < |e.data| ensures slab[e.off + 36 + k] == Byte(e.data[k]) {
          assert slab[e.off + ENTRY_SIZE..e.End()][k] == Payload(e.data)[k];
        }
      }
    }

    /** The top entry lies where the chain ends, and next is the offset of an entry or of the top. */
    lemma TopInMemory()
      requires Valid()
      ensures top == s.top && top + 36 <= slab.Length
      ensures next == if s.next < |s.entries| then s.entries[s.next].off else s.top
      ensures slab[top].Head? && slab[top].free && slab[top].top && slab[top].size == 0
      ensures slab[top].prev == if s.entries == [] then 0 else s.entries[|s.entries| - 1].Size()
    {
    }

    /** cell_init over a slab that is mapped from a file: a sane cell is taken as it is, in the
        state it holds, and any other is cleared. */
    constructor Mapped(m: Words, ghost geo: Geometry, ghost st: State)
      requires Formed(m, geo) && (Sane(m) ==> HoldsCell(m, st))
      ensures Valid() && s == (if Sane(m) then st else Empty(geo)) && (Sane(m) ==> Snapshot() == m)
      ensures fresh(slab) && fresh(dir) && fresh(dir.blocks)
    {
      ghost var recs: seq<DirEntry> := [];
      if Sane(m) {
        recs :| HoldsWith(m, st, recs);
      }
      slab := new Slot[|m.slab|](i requires 0 <= i < |m.slab| => m.slab[i]);
      dir := new CellDir.Mapped(m.blocks, m.overflowCount, st.dir, recs);
      magic, entryCode, exitCode, entryCount, byteCount := m.magic, m.entryCode, m.exitCode, m.entryCount, m.byteCount;
      top, next := m.top, m.next;
      s := if Sane(m) then st else Empty(geo);
      new;
      assert slab[..] == m.slab;
      Reopen();
      if Sane(m) {
        dir.HeldValid(slab);
      }
    }

    /** cell_init over a zeroed slab */
    constructor (geo: Geometry)
      requires geo.Valid()
      ensures Valid() && s == Empty(geo)
      ensures fresh(slab) && fresh(dir) && fresh(dir.blocks)
    {
      slab := new Slot[geo.space](_ => Byte(0));
      dir := new CellDir();
      magic, entryCode, exitCode := 0, 0, 0;
      s := Empty(geo);
      new;
      Reopen();
    }

    /** cell_init over a slab that is there already: a cell that is not sane is cleared. */
    method Reopen()
      requires s.geo.Valid() && slab.Length == s.geo.space && dir.blocks.Length == CELL_DIR_BLOCK_COUNT
      modifies this, dir, dir.blocks, slab
      ensures if old(HeaderSane()) then
                && s == old(s) && top == old(top) && next == old(next) && magic == old(magic)
                && entryCount == old(entryCount) && byteCount == old(byteCount)
                && entryCode == old(entryCode) && exitCode == old(exitCode) && slab[..] == old(slab[..])
                && dir.overflowCount == old(dir.overflowCount) && dir.blocks[..] == old(dir.blocks[..])
                && dir.dir == old(dir.dir) && dir.recs == old(dir.recs) && dir.count == old(dir.count)
              else Valid() && s == Empty(old(s.geo))
    {
      if !HeaderSane() {
        HeaderInit();
      }
    }

    /** cell_header_sane */
    predicate HeaderSane()
      reads this
    {
      magic == CELL_HEADER_MAGIC && entryCode == exitCode
    }

    /** cell_header_init */
    method HeaderInit()
      requires s.geo.Valid() && slab.Length == s.geo.space && dir.blocks.Length == CELL_DIR_BLOCK_COUNT
      modifies this, dir, dir.blocks, slab
      ensures Valid() && s == Empty(old(s.geo))
    {
      magic, entryCount, byteCount, entryCode, exitCode := 0, 0, 0, 0, 0;
      dir.Init(slab);
      BodyInit();
      magic := CELL_HEADER_MAGIC;
      s := Empty(s.geo);
    }

    /** cell_body_init */
    method BodyInit()
      requires dir.Valid(slab) && ENTRY_SIZE + RECORD_SIZE * dir.overflowCount <= slab.Length
      requires !HeaderSane()
      modifies this`top, this`next, slab
      ensures dir.Valid(slab) && TopAt(slab[..], 0, 0) && top == next == 0
    {
      SetTop(0);
      ghost var h, mem := slab[0], slab[..];
      PutHead(old(slab[..]), 0, h);
      SetPrev(0, 0, h);
      PutHead(mem, 0, h.(prev := 0));
      TopIsHead(slab[..], 0, h.key, 0);
      ghost var mem' := slab[..];
      top, next := 0, 0;
      assert slab[..] == mem';
    }

    /** Write below the overflow records. */
    method Put(p: nat, xs: seq<Slot>)
      requires dir.Valid(slab) && p + |xs| + RECORD_SIZE * dir.overflowCount <= slab.Length
      modifies slab
      ensures dir.Valid(slab) && slab[..] == Write(old(slab[..]), p, xs)
    {
      assert OpenDir(0);
      RecordsBeside(slab[..], p, xs, dir.recs);
      WriteSlots(slab, p, xs);
    }

    /** cell_body_set_top; the checksum and previous size stay what they were. */
    method SetTop(off: nat)
      requires dir.Valid(slab) && off + ENTRY_SIZE + RECORD_SIZE * dir.overflowCount <= slab.Length
      modifies slab
      ensures dir.Valid(slab)
      ensures var was := old(slab[off]);
              slab[..] == Write(old(slab[..]), off,
                                Image(if was.Head? then was.(free := true, top := true, size := 0)
                                      else Head(ZERO_CHECKSUM, true, true, 0, 0)))
    {
      var was := slab[off];
      Put(off, Image(if was.Head? then was.(free := true, top := true, size := 0)
                     else Head(ZERO_CHECKSUM, true, true, 0, 0)));
    }

    /** Set previous_size of the header at off. */
    method SetPrev(off: nat, prev: nat, ghost h: Slot)
      requires dir.Valid(slab) && off + ENTRY_SIZE + RECORD_SIZE * dir.overflowCount <= slab.Length
      requires HeadAt(slab[..], off, h) && prev < SIZE_LIMIT
      modifies slab
      ensures dir.Valid(slab)
      ensures slab[..] == Write(old(slab[..]), off, Image(h.(prev := prev)))
    {
      assert slab[off].(prev := prev % SIZE_LIMIT) == h.(prev := prev);
      Put(off, Image(slab[off].(prev := prev % SIZE_LIMIT)));
    }

    /** cell_header_bytes_used and cell_body_free_space: the subtraction does not wrap. */
    function FreeSpace(): (n: nat)
      requires top + ENTRY_SIZE + RECORD_SIZE * dir.overflowCount <= slab.Length
      reads this, dir
      ensures n == slab.Length - (top + ENTRY_SIZE + RECORD_SIZE * dir.overflowCount)
    {
      slab.Length - (top + ENTRY_SIZE + RECORD_SIZE * dir.overflowCount)
    }

    /** cell_header_add */
    method HeaderAdd(key: Checksum, off: nat, size: nat)
      requires dir.Valid(slab) && key !in dir.dir.at && entryCount == dir.count
      requires RECORD_SIZE * (dir.overflowCount + 1) <= slab.Length && dir.overflowCount + 1 < BLOCK_OVERFLOW_LIMIT
      modifies this`entryCount, this`byteCount, dir, dir.blocks, slab
      ensures dir.Valid(slab) && dir.dir == old(dir.dir).Add(key, off)
      ensures SameBelow(old(slab[..]), slab[..], slab.Length - RECORD_SIZE * (old(dir.overflowCount) + 1))
      ensures entryCount == dir.count && byteCount == old(byteCount) + size
      ensures dir.overflowCount <= old(dir.overflowCount) + 1
    {
      var entry := DirEntry(key, off, true);
      dir.Add(slab, entry);
      ghost var mem := slab[..];
      entryCount := entryCount + 1;
      byteCount := byteCount + size;
      assert slab[..] == mem && dir.Valid(slab);
    }

    /** cell_header_remove of the entry whose header is h, at off. False when its first
        assertion fails; the other two hold. */
    method HeaderRemove(off: nat, ghost h: Slot, ghost other: Checksum) returns (ok: bool)
      requires dir.Valid(slab) && HeadAt(slab[..], off, h) && entryCount == dir.count
      requires other in dir.dir.at && other != h.key
      requires h.key in dir.dir.at ==> byteCount > h.size
      modifies this`entryCount, this`byteCount, dir, dir.blocks, slab
      ensures ok <==> h.key in old(dir.dir).at
      ensures dir.Valid(slab) && dir.dir == old(dir.dir).Remove({h.key}) && entryCount == dir.count
      ensures dir.overflowCount <= old(dir.overflowCount)
      ensures byteCount == if ok then old(byteCount) - h.size else old(byteCount)
      ensures SameBelow(old(slab[..]), slab[..], slab.Length - RECORD_SIZE * old(dir.overflowCount))
    {
      if h.key in dir.dir.at {
        dir.CountTwo(slab, h.key, other);
      }
      var size := slab[off].size;
      ok := dir.Remove(slab, slab[off].key);
      ghost var mem := slab[..];
      if ok {
        entryCount := entryCount - 1;
        assert entryCount > 0;
        byteCount := byteCount - size;
        assert byteCount > 0;
      }
      assert slab[..] == mem;
    }

    /** cell_body_write_chunk: header and payload of entry e, over the header h. */
    method WriteChunk(off: nat, key: Checksum, data: seq<byte>, ghost h: Slot, ghost e: Entry)
      requires dir.Valid(slab) && HeadAt(slab[..], off, h) && !h.top && |data| < SIZE_LIMIT
      requires e.Used? && e.off == off && e.key == key && e.data == data
      requires off + ENTRY_SIZE + |data| + RECORD_SIZE * dir.overflowCount <= slab.Length
      modifies slab
      ensures dir.Valid(slab) && EntryAt(slab[..], e, h.prev)
      ensures SameBelow(old(slab[..]), slab[..], off) && SameBut(old(slab[..]), slab[..], off, e.End())
    {
      ghost var mem := slab[..];
      assert slab[off].(key := key, size := |data| % SIZE_LIMIT, free := false) == HeadOf(e, h.prev);
      Put(off, Image(slab[off].(key := key, size := |data| % SIZE_LIMIT, free := false)));
      Put(off + ENTRY_SIZE, Payload(data));
      EntryWritten(mem, slab[..], e, h.prev);
    }

    /** The new top above an entry of n bytes. */
    method NewTop(off: nat, n: nat)
      requires dir.Valid(slab) && off + ENTRY_SIZE + RECORD_SIZE * dir.overflowCount <= slab.Length && n < SIZE_LIMIT
      modifies slab
      ensures dir.Valid(slab) && TopAt(slab[..], off, n) && SameBelow(old(slab[..]), slab[..], off)
    {
      ghost var mem := slab[..];
      SetTop(off);
      ghost var h, mem1 := slab[off], slab[..];
      PutHead(mem, off, h);
      WriteKeepsBelow(mem, off, Image(h), off);
      SetPrev(off, n, h);
      PutHead(mem1, off, h.(prev := n));
      WriteKeepsBelow(mem1, off, Image(h.(prev := n)), off);
      TopIsHead(slab[..], off, h.key, n);
      SameBelowTrans(mem, mem1, slab[..], off, off);
    }

    /** The first half of cell_body_add_top: the top entry becomes entry e. */
    method TakeTop(key: Checksum, data: seq<byte>, ghost prev: nat, ghost e: Entry)
      requires dir.Valid(slab) && TopAt(slab[..], top, prev) && |data| < SIZE_LIMIT
      requires e.Used? && e.off == top && e.key == key && e.data == data
      requires e.End() + RECORD_SIZE * dir.overflowCount <= slab.Length
      modifies slab
      ensures dir.Valid(slab) && EntryAt(slab[..], e, prev) && SameBelow(old(slab[..]), slab[..], top)
    {
      ghost var mem := slab[..];
      ghost var h := slab[top].(free := false, top := false);
      Put(top, Image(slab[top].(free := false, top := false)));
      PutHead(mem, top, h);
      WriteKeepsBelow(mem, top, Image(h), top);
      ghost var mem1 := slab[..];
      WriteChunk(top, key, data, h, e);
      SameBelowTrans(mem, mem1, slab[..], top, top);
    }

    /** cell_body_add_top: the entry before the top has size prev. */
    method AddTop(key: Checksum, data: seq<byte>, ghost prev: nat, ghost e: Entry) returns (ok: bool)
      requires dir.Valid(slab) && TopAt(slab[..], top, prev) && entryCount == dir.count
      requires top + ENTRY_SIZE + RECORD_SIZE * dir.overflowCount <= slab.Length && |data| < SIZE_LIMIT
      requires key !in dir.dir.at && e.Used? && e.off == top && e.key == key && e.data == data
      requires FreeSpace() >= |data| + ENTRY_SIZE + RECORD_SIZE ==> dir.overflowCount + 1 < BLOCK_OVERFLOW_LIMIT
      modifies this`top, this`next, this`entryCount, this`byteCount, dir, dir.blocks, slab
      ensures ok <==> old(FreeSpace()) >= |data| + ENTRY_SIZE + RECORD_SIZE
      ensures dir.Valid(slab) && entryCount == dir.count
      ensures !ok ==> && dir.dir == old(dir.dir) && top == old(top) && next == old(next)
                      && slab[..] == old(slab[..]) && byteCount == old(byteCount)
      ensures ok ==> && dir.dir == old(dir.dir).Add(key, old(top)) && top == next == e.End()
                     && EntryAt(slab[..], e, prev) && TopAt(slab[..], top, |data|)
                     && SameBelow(old(slab[..]), slab[..], old(top))
                     && byteCount == old(byteCount) + |data|
    {
      if FreeSpace() < |data| + ENTRY_SIZE + RECORD_SIZE {
        return false;
      }
      AddTopEntry(key, data, prev, e);
      ghost var mem := slab[..];
      top := top + ENTRY_SIZE + |data|;
      next := top;
      assert slab[..] == mem && top == e.End();
      return true;
    }

    /** cell_body_add_top once there is room, short of moving the offsets. */
    method AddTopEntry(key: Checksum, data: seq<byte>, ghost prev: nat, ghost e: Entry)
      requires dir.Valid(slab) && TopAt(slab[..], top, prev) && entryCount == dir.count
      requires e.End() + ENTRY_SIZE + RECORD_SIZE * (dir.overflowCount + 1) <= slab.Length && |data| < SIZE_LIMIT
      requires key !in dir.dir.at && e.Used? && e.off == top && e.key == key && e.data == data
      requires dir.overflowCount + 1 < BLOCK_OVERFLOW_LIMIT
      modifies this`entryCount, this`byteCount, dir, dir.blocks, slab
      ensures dir.Valid(slab) && entryCount == dir.count
      ensures dir.dir == old(dir.dir).Add(key, top)
      ensures EntryAt(slab[..], e, prev) && TopAt(slab[..], e.End(), |data|)
      ensures SameBelow(old(slab[..]), slab[..], top)
      ensures byteCount == old(byteCount) + |data|
    {
      ghost var mem := slab[..];
      TakeTop(key, data, prev, e);
      ghost var mem1 := slab[..];
      ghost var n := slab.Length - RECORD_SIZE * (dir.overflowCount + 1);
      HeaderAdd(key, top, |data|);
      ghost var mem2 := slab[..];
      EntryKept(mem1, mem2, e, prev, n);
      assert top + ENTRY_SIZE + |data| == e.End();
      NewTop(top + ENTRY_SIZE + |data|, |data|);
      EntryKept(mem2, slab[..], e, prev, e.End());
      SameBelowTrans(mem, mem1, mem2, top, n);
      SameBelowTrans(mem, mem2, slab[..], top, e.End());
    }

    /** The part of cell_body_add_dir_entry that deletes the entry below the top, which is
        last, before it an entry of size prev. */
    method DeleteBelowTop(ghost last: Entry, ghost prev: nat, ghost other: Checksum) returns (ok: bool)
      requires dir.Valid(slab) && entryCount == dir.count
      requires top + ENTRY_SIZE + RECORD_SIZE * dir.overflowCount <= slab.Length
      requires TopAt(slab[..], top, last.Size()) && last.Used? && last.End() == top && EntryAt(slab[..], last, prev)
      requires other in dir.dir.at && other != last.key
      requires last.key in dir.dir.at ==> byteCount > |last.data|
      modifies this`top, this`entryCount, this`byteCount, dir, dir.blocks, slab
      ensures ok <==> last.key in old(dir.dir).at
      ensures ok ==>
                && dir.Valid(slab) && dir.dir == old(dir.dir).Remove({last.key}) && entryCount == dir.count
                && top == last.off && TopAt(slab[..], top, prev) && SameBelow(old(slab[..]), slab[..], top)
                && dir.overflowCount <= old(dir.overflowCount) && byteCount == old(byteCount) - |last.data|
    {
      ghost var mem := slab[..];
      var offset := top - (slab[top].prev + ENTRY_SIZE);
      assert slab[top].prev == last.Size() && offset == last.off;
      ghost var h := HeadOf(last, prev);
      assert !slab[offset].free;
      EntryHead(mem, last, prev);
      ok := HeaderRemove(offset, h, other);
      if !ok {
        return;
      }
      SameBelowLess(mem, slab[..], slab.Length - RECORD_SIZE * old(dir.overflowCount), top);
      HeadKept(mem, slab[..], offset, h, top);
      LowerTop(offset, h, mem);
    }

    /** The entry with header h becomes the top; below the old top, memory was was. */
    method LowerTop(off: nat, ghost h: Slot, ghost was: seq<Slot>)
      requires dir.Valid(slab) && HeadAt(slab[..], off, h)
      requires off + ENTRY_SIZE + RECORD_SIZE * dir.overflowCount <= slab.Length
      requires off <= top && SameBelow(was, slab[..], top)
      modifies this`top, slab
      ensures dir.Valid(slab) && top == off && TopAt(slab[..], off, h.prev) && SameBelow(was, slab[..], off)
    {
      ghost var mem := slab[..];
      SetTop(off);
      ghost var h' := h.(free := true, top := true, size := 0);
      PutHead(mem, off, h');
      WriteKeepsBelow(mem, off, Image(h'), off);
      TopIsHead(slab[..], off, h.key, h.prev);
      SameBelowTrans(was, mem, slab[..], top, off);
      ghost var mem1 := slab[..];
      top := off;
      assert slab[..] == mem1;
    }

    /** cell_body_add_dir_entry: last is the entry below the top, before it an entry of size prev. */
    method AddDirEntry(key: Checksum, off: nat, size: nat, ghost last: Entry, ghost prev: nat,
                       ghost other: Checksum) returns (ok: bool)
      requires dir.Valid(slab) && entryCount == dir.count && key !in dir.dir.at
      requires top + ENTRY_SIZE + RECORD_SIZE * dir.overflowCount <= slab.Length
      requires dir.overflowCount + 1 < BLOCK_OVERFLOW_LIMIT
      requires FreeSpace() < RECORD_SIZE ==>
                 && TopAt(slab[..], top, last.Size()) && last.Used? && last.End() == top
                 && EntryAt(slab[..], last, prev)
                 && other in dir.dir.at && other != last.key
                 && (last.key in dir.dir.at ==> byteCount > |last.data|)
      modifies this`top, this`entryCount, this`byteCount, dir, dir.blocks, slab
      ensures ok <==> old(FreeSpace()) >= RECORD_SIZE || last.key in old(dir.dir).at
      ensures ok ==> dir.Valid(slab) && entryCount == dir.count
      ensures ok ==> top + ENTRY_SIZE + RECORD_SIZE * dir.overflowCount <= slab.Length
      ensures ok && old(FreeSpace()) >= RECORD_SIZE ==>
                && dir.dir == old(dir.dir).Add(key, off) && top == old(top)
                && SameBelow(old(slab[..]), slab[..], top + ENTRY_SIZE) && byteCount == old(byteCount) + size
      ensures ok && old(FreeSpace()) < RECORD_SIZE ==>
                && dir.dir == old(dir.dir).Remove({last.key}).Add(key, off) && top == last.off
                && SameBelow(old(slab[..]), slab[..], top) && TopAt(slab[..], top, prev)
                && byteCount == old(byteCount) - |last.data| + size
    {
      ghost var mem := slab[..];
      if FreeSpace() >= RECORD_SIZE {
        HeaderAdd(key, off, size);
        SameBelowLess(mem, slab[..], slab.Length - RECORD_SIZE * (old(dir.overflowCount) + 1), top + ENTRY_SIZE);
        return true;
      }
      ok := DeleteBelowTop(last, prev, other);
      if ok {
        assert FreeSpace() >= RECORD_SIZE;
        AddAbove(key, off, size, prev, mem);
      }
    }

    /** Add a record above the top, where there is room for it; below the top, memory was was. */
    method AddAbove(key: Checksum, off: nat, size: nat, ghost prev: nat, ghost was: seq<Slot>)
      requires dir.Valid(slab) && entryCount == dir.count && key !in dir.dir.at
      requires top + ENTRY_SIZE + RECORD_SIZE * (dir.overflowCount + 1) <= slab.Length
      requires dir.overflowCount + 1 < BLOCK_OVERFLOW_LIMIT
      requires TopAt(slab[..], top, prev) && SameBelow(was, slab[..], top)
      modifies this`entryCount, this`byteCount, dir, dir.blocks, slab
      ensures dir.Valid(slab) && entryCount == dir.count && dir.dir == old(dir.dir).Add(key, off)
      ensures TopAt(slab[..], top, prev) && SameBelow(was, slab[..], top)
      ensures byteCount == old(byteCount) + size && dir.overflowCount <= old(dir.overflowCount) + 1
    {
      ghost var mem := slab[..];
      ghost var n := slab.Length - RECORD_SIZE * (dir.overflowCount + 1);
      HeaderAdd(key, off, size);
      TopKept(mem, slab[..], top, prev, n);
      SameBelowTrans(was, mem, slab[..], top, n);
    }

    // ----- cell_body_add_offset: eviction --------------------------------------------------------------

    ghost predicate OpenEvicted(i: nat) {
      true
    }

    /** Entries next..k of st are evicted: their records are gone, and of the first only the
        header is left. */
    ghost predicate Evicted(st: State, k: nat)
      requires st.next < |st.entries|
      reads this, slab, dir, dir.blocks
    {
      && st.next <= k <= |st.entries| && next == st.entries[st.next].off && slab.Length == st.geo.space
      && forall i: nat {:trigger OpenEvicted(i)} :: OpenEvicted(i) ==> Forgotten(st, k)
    }

    ghost predicate Forgotten(st: State, k: nat)
      requires st.next <= k <= |st.entries| && st.next < |st.entries|
      reads this, slab, dir, dir.blocks
    {
      && top == st.top
      && dir.Valid(slab) && dir.dir == st.dir.Remove(KeysOf(st.entries[st.next..k])) && entryCount == dir.count
      && st.top + ENTRY_SIZE + RECORD_SIZE * dir.overflowCount <= st.geo.space
      && byteCount == TotalBytes(st.entries) - TotalBytes(st.entries[st.next..k])
      && Opened(slab[..], st)
    }

    /** The record of the first victim goes, if it has one. */
    method ForgetFirst(ghost st: State, ghost n: nat)
      requires MayEvict(st, n) && Coupled(st)
      modifies this`entryCount, this`byteCount, dir, dir.blocks, slab
      ensures dir.Valid(slab) && dir.dir == st.dir.Remove(KeysOf(st.entries[st.next..st.next + 1]))
      ensures entryCount == dir.count && st.top + ENTRY_SIZE + RECORD_SIZE * dir.overflowCount <= st.geo.space
      ensures byteCount == TotalBytes(st.entries) - TotalBytes(st.entries[st.next..st.next + 1])
      ensures Laid(slab[..], st.entries, st.top)
    {
      ghost var i := st.next;
      ghost var mem := slab[..];
      ghost var prev := PrevSize(st.entries, i);
      LaidAt(mem, st.entries, 0, |st.entries|, i);
      EntryHead(mem, st.entries[i], prev);
      FirstRecord(st, n);
      dir.Counts(slab);
      if !slab[next].free {
        var ok := HeaderRemove(next, HeadOf(st.entries[i], prev), SurvivorKey(st, n));
        assert ok;
        CoreChain(st, {});
        LaidKept(mem, slab[..], st, slab.Length - RECORD_SIZE * old(dir.overflowCount));
      }
    }

    /** The first victim: its record goes, and it is no longer marked free. */
    method EvictFirst(ghost st: State, ghost n: nat)
      requires MayEvict(st, n) && Coupled(st)
      modifies this`entryCount, this`byteCount, dir, dir.blocks, slab
      ensures Evicted(st, st.next + 1)
    {
      ForgetFirst(st, n);
      ghost var i := st.next;
      CoreChain(st, {});
      EndsBelowTop(st);
      assert st.entries[i].End() <= st.top;
      LaidAt(slab[..], st.entries, 0, |st.entries|, i);
      OpenFirst(slab[..], st);
      Put(next, Image(slab[next].(free := false)));
    }

    /** A further victim, at off: its record goes. */
    method EvictNext(off: nat, ghost st: State, ghost n: nat, ghost k: nat)
      requires MayEvict(st, n) && st.next < k < VictimEnd(st, n) && Evicted(st, k) && off == st.entries[k].off
      modifies this`entryCount, this`byteCount, dir, dir.blocks, slab
      ensures Evicted(st, k + 1)
    {
      assert OpenEvicted(0);
      ghost var mem := slab[..];
      CoreChain(st, {});
      OpenedRead(mem, st, k);
      NextVictim(st, n, k);
      var ok := HeaderRemove(off, HeadOf(st.entries[k], PrevSize(st.entries, k)), SurvivorKey(st, n));
      assert ok;
      OpenedKept(mem, slab[..], st, slab.Length - RECORD_SIZE * old(dir.overflowCount));
    }

    /** Size of the header at off, of entry k. */
    method SizeAt(off: nat, ghost st: State, ghost k: nat, ghost m: nat) returns (size: nat)
      requires st.next <= k < |st.entries| && Rewound(st) && Evicted(st, m) && off == st.entries[k].off
      ensures size == st.entries[k].Size() && off + size + ENTRY_SIZE == st.Boundary(k + 1)
    {
      assert OpenEvicted(0);
      CoreChain(st, {});
      OpenedRead(slab[..], st, k);
      size := slab[off].size;
    }

    /** cell_body_entry_free of the header of entry k. */
    method IsFree(off: nat, ghost st: State, ghost k: nat, ghost m: nat) returns (b: bool)
      requires st.next < k < |st.entries| && Rewound(st) && Evicted(st, m) && off == st.entries[k].off
      ensures b <==> st.entries[k].Free?
    {
      assert OpenEvicted(0);
      CoreChain(st, {});
      OpenedRead(slab[..], st, k);
      b := slab[off].free;
    }

    /** cell_body_entry_top of the header above entry k. */
    method IsTopAbove(off: nat, ghost st: State, ghost k: nat, ghost m: nat) returns (b: bool)
      requires st.next <= k < |st.entries| && Rewound(st) && Evicted(st, m) && off == st.Boundary(k + 1)
      ensures b <==> k + 1 == |st.entries|
    {
      assert OpenEvicted(0);
      CoreChain(st, {});
      OpenedRead(slab[..], st, k);
      if k + 1 < |st.entries| {
        OpenedRead(slab[..], st, k + 1);
      }
      b := slab[off].top;
    }

    /** A further victim at off: its record goes, if it has one. */
    method EvictAt(off: nat, ghost st: State, ghost n: nat, ghost k: nat)
      requires Rewound(st) && IsVictim(st, n, k) && Evicted(st, k) && off == st.entries[k].off
      modifies this`entryCount, this`byteCount, dir, dir.blocks, slab
      ensures Evicted(st, k + 1)
    {
      assert OpenSearch(0);
      UsedPast(st, k);
      var free := IsFree(off, st, k, k);
      if !free {
        EvictNext(off, st, n, k);
      }
    }

    /** What entries next..m of st amount to, short of a header. */
    function Room(st: State, m: nat): int
      requires st.next < m <= |st.entries|
    {
      st.entries[m - 1].End() - st.entries[st.next].off - ENTRY_SIZE
    }

    /** From the victim m - 1 at ptr to the header above it. */
    method StepOver(ptr: nat, ghost st: State, ghost m: nat) returns (ptr': nat, top: bool)
      requires Rewound(st) && st.next < m <= |st.entries| && Evicted(st, m) && ptr == st.entries[m - 1].off
      ensures ptr' == st.Boundary(m) && (top <==> m == |st.entries|)
    {
      var size := SizeAt(ptr, st, m - 1, m);
      ptr' := ptr + size + ENTRY_SIZE;
      top := IsTopAbove(ptr', st, m - 1, m);
    }

    /** One round of the loop of cell_body_add_offset, from the victim m - 1 at ptr. */
    method Advance(ptr: nat, freeSpace: nat, ghost n: nat, ghost st: State, ghost m: nat, ghost j: nat)
      returns (ptr': nat, freeSpace': nat, hitTop: bool)
      requires Rewound(st) && st.next < m <= |st.entries| && Evicted(st, m) && Searching(st, n, m, j)
      requires ptr == st.entries[m - 1].off && freeSpace == Room(st, m) < n + ENTRY_SIZE
      modifies this`entryCount, this`byteCount, dir, dir.blocks, slab
      ensures hitTop <==> m == |st.entries|
      ensures hitTop ==> j == m && Evicted(st, m)
      ensures !hitTop ==> && Evicted(st, m + 1) && Searching(st, n, m + 1, j)
                          && ptr' == st.entries[m].off && freeSpace' == Room(st, m + 1)
    {
      SearchOn(st, n, m, j);
      freeSpace' := freeSpace;
      ptr', hitTop := StepOver(ptr, st, m);
      if !hitTop {
        BoundaryNext(st, m - 1);
        EvictAt(ptr', st, n, m);
        var size := SizeAt(ptr', st, m, m + 1);
        freeSpace' := freeSpace + size + ENTRY_SIZE;
      }
    }

    /** The loop of cell_body_add_offset: evict entries from next on, up to j, until n bytes and
        a header fit, or the top is met. ptr is the last victim, freeSpace what they amount to. */
    method Walk(n: nat, ghost st: State, ghost j: nat) returns (ptr: nat, freeSpace: nat, hitTop: bool)
      requires Rewound(st) && st.next < |st.entries| && Searching(st, n, st.next + 1, j) && Evicted(st, st.next + 1)
      modifies this`entryCount, this`byteCount, dir, dir.blocks, slab
      ensures st.next < j <= |st.entries| && Evicted(st, j)
      ensures hitTop ==> j == |st.entries|
      ensures !hitTop ==> ptr == st.entries[j - 1].off && freeSpace == Room(st, j) >= n + ENTRY_SIZE
    {
      ghost var m := st.next + 1;
      ptr, hitTop := next, false;
      freeSpace := SizeAt(ptr, st, st.next, m);
      while freeSpace < n + ENTRY_SIZE
        invariant st.next < m <= |st.entries| && Evicted(st, m) && Searching(st, n, m, j)
        invariant ptr == st.entries[m - 1].off && freeSpace == Room(st, m)
        decreases |st.entries| - m
      {
        ptr, freeSpace, hitTop := Advance(ptr, freeSpace, n, st, m, j);
        if hitTop {
          assert j == m;
          return;
        }
        m := m + 1;
      }
      SearchEnds(st, n, m, j);
    }

    // ----- cell_body_add_offset: the new entry -----------------------------------------------------------

    /** Entries next..j of st are evicted, leaving the directory d and bytes payload bytes,
        and e is written over them; its record is still missing. */
    ghost predicate Written(st: State, j: nat, e: Entry, d: Dir, bytes: int)
      requires st.next < j <= |st.entries|
      reads this, slab, dir, dir.blocks
    {
      && Rewound(st) && slab.Length == st.geo.space && top == st.top && next == st.entries[st.next].off
      && dir.Valid(slab) && dir.dir == d && entryCount == dir.count && byteCount == bytes
      && st.top + ENTRY_SIZE + RECORD_SIZE * dir.overflowCount <= st.geo.space
      && e.Used? && e.End() <= st.Boundary(j)
      && (j == |st.entries| ==> e.End() == st.top && st.entries[j - 1].Size() == e.Size())
      && Parts(slab[..], st, j, |st.entries|, e)
    }

    method WriteNew(key: Checksum, data: seq<byte>, ghost st: State, ghost j: nat, ghost e: Entry)
      requires st.next < j <= |st.entries| && Evicted(st, j) && Rewound(st)
      requires e.Used? && e.off == next && e.key == key && e.data == data && e.End() <= st.Boundary(j) <= st.top
      requires |data| < SIZE_LIMIT
      requires j == |st.entries| ==> e.End() == st.top && st.entries[j - 1].Size() == e.Size()
      modifies slab
      ensures Written(st, j, e, Without(st, j), BytesWithout(st, j))
    {
      assert OpenEvicted(0);
      ghost var mem := slab[..];
      CoreChain(st, {});
      WriteChunk(next, key, data, OpenedHead(st), e);
      ChunkOver(mem, slab[..], st, j, e);
    }

    /** The record of the new entry e. */
    method IndexNew(key: Checksum, size: nat, ghost st: State, ghost j: nat, ghost e: Entry, ghost other: Checksum,
                    ghost d: Dir, ghost bytes: int) returns (ok: bool)
      requires st.next < j <= |st.entries| && Written(st, j, e, d, bytes) && CanIndex(st, j, e, key, other, d, bytes)
      modifies this`top, this`entryCount, this`byteCount, dir, dir.blocks, slab
      ensures ok <==> RoomOver(st, d) >= RECORD_SIZE || j < |st.entries|
      ensures ok ==> dir.Valid(slab) && entryCount == dir.count
      ensures ok ==> top + ENTRY_SIZE + RECORD_SIZE * dir.overflowCount <= slab.Length
      ensures ok && RoomOver(st, d) >= RECORD_SIZE ==>
                && dir.dir == d.Add(key, next) && top == st.top && byteCount == bytes + size
                && Parts(slab[..], st, j, |st.entries|, e)
      ensures ok && RoomOver(st, d) < RECORD_SIZE ==>
                && j < |st.entries| && top == st.entries[|st.entries| - 1].off
                && st.entries[|st.entries| - 1].Used?
                && dir.dir == d.Remove({st.entries[|st.entries| - 1].key}).Add(key, next)
                && byteCount == bytes - |st.entries[|st.entries| - 1].data| + size
                && Parts(slab[..], st, j, |st.entries| - 1, e)
    {
      ghost var mem := slab[..];
      LastLies(mem, st, j, e);
      CoreChain(st, {});
      dir.Counts(slab);
      assert FreeSpace() == RoomOver(st, d);
      ok := AddDirEntry(key, next, size, Last(st, j, e), BeforeLast(st, j), other);
      if ok && top == st.top {
        PartsStay(mem, slab[..], st, j, e);
      } else if ok {
        PartsLowered(mem, slab[..], st, j, e);
      }
    }

    /** The header of the remainder. */
    method PutRest(off: nat, prev: nat, room: nat, ghost st: State, ghost j: nat, ghost n: nat, ghost e: Entry)
      requires dir.Valid(slab) && st.next < j <= n <= |st.entries| && Tiled(st.entries, st.top)
      requires Parts(slab[..], st, j, n, e) && e.off == st.entries[st.next].off
      requires off == e.End() && prev == e.Size() < SIZE_LIMIT && room < SIZE_LIMIT
      requires off + ENTRY_SIZE + room == st.Boundary(j)
      requires st.Boundary(j) + RECORD_SIZE * dir.overflowCount <= slab.Length
      modifies slab
      ensures dir.Valid(slab) && WithRest(slab[..], st, j, n, e, Free(off, room))
    {
      RestWritten(slab[..], st, j, n, e, Free(off, room));
      assert HeadOf(Free(off, room), prev) == Head(ZERO_CHECKSUM, true, false, room % SIZE_LIMIT, prev % SIZE_LIMIT);
      Put(off, Image(Head(ZERO_CHECKSUM, true, false, room % SIZE_LIMIT, prev % SIZE_LIMIT)));
    }

    /** The link from the header above it. */
    method LinkRest(off: nat, room: nat, ghost st: State, ghost j: nat, ghost n: nat, ghost e: Entry, ghost rest: Entry)
      requires dir.Valid(slab) && st.next < j <= n <= |st.entries| && Tiled(st.entries, st.top)
      requires WithRest(slab[..], st, j, n, e, rest) && e.off == st.entries[st.next].off && rest.off == e.End()
      requires off == st.Boundary(j) == rest.End() && room == rest.Size() < SIZE_LIMIT
      requires st.Boundary(j) + ENTRY_SIZE + RECORD_SIZE * dir.overflowCount <= slab.Length
      modifies slab
      ensures dir.Valid(slab)
      ensures Laid(slab[..], st.entries[..st.next] + [e, rest] + st.entries[j..n], st.Boundary(n))
    {
      RestLinked(slab[..], st, j, n, e, rest);
      AboveIsHead(slab[..], st, j, n, e);
      SetPrev(off, room, HeadAbove(slab[..], st, j, n));
    }

    /** Its record, with the outcome r. */
    method IndexPlaced(key: Checksum, size: nat, ghost st: State, ghost j: nat, ghost mid: seq<Entry>,
                       ghost other: Checksum, ghost d: Dir, ghost r: Outcome) returns (ok: bool, ghost n: nat)
      requires st.next < j <= |st.entries| && 1 <= |mid| <= 2 && (|mid| == 2 ==> mid[1].Free?)
      requires Written(st, j, mid[0], d, BytesWithout(st, j)) && size == mid[0].Size()
      requires PlacedBy(r, st, j, mid, key, d) && CanIndex(st, j, mid[0], key, other, d, BytesWithout(st, j))
      modifies this`top, this`entryCount, this`byteCount, dir, dir.blocks, slab
      ensures ok <==> !r.Aborted?
      ensures ok ==> && j <= n <= |st.entries| && IsPlaced(r.state, st, j, mid, n, dir.dir)
                     && dir.Valid(slab) && entryCount == dir.count && top == st.Boundary(n)
                     && byteCount == TotalBytes(r.state.entries) && Parts(slab[..], st, j, n, mid[0])
                     && top + ENTRY_SIZE + RECORD_SIZE * dir.overflowCount <= slab.Length
    {
      n := |st.entries|;
      ok := IndexNew(key, size, st, j, mid[0], other, d, BytesWithout(st, j));
      if RoomOver(st, d) >= RECORD_SIZE {
        PlacedBytes(r.state, st, j, mid, n, dir.dir);
      } else if ok {
        n := n - 1;
        PlacedBytes(r.state, st, j, mid, n, dir.dir);
      }
    }

    /** Write the new entry over the run up to j and add its record. */
    method PlaceNew(key: Checksum, data: seq<byte>, ghost st: State, ghost j: nat, ghost mid: seq<Entry>,
                    ghost other: Checksum, ghost r: Outcome) returns (ok: bool, ghost n: nat)
      requires Rewound(st) && st.next < j <= |st.entries| && Evicted(st, j)
      requires 1 <= |mid| <= 2 && (|mid| == 2 ==> mid[1].Free?) && mid[0] == Used(next, key, data, st.clock)
      requires mid[0].End() <= st.Boundary(j) <= st.top && |data| < SIZE_LIMIT
      requires j == |st.entries| ==> mid[0].End() == st.top && st.entries[j - 1].Size() == |data|
      requires PlacedBy(r, st, j, mid, key, Without(st, j))
      requires CanIndex(st, j, mid[0], key, other, Without(st, j), BytesWithout(st, j))
      modifies this`top, this`entryCount, this`byteCount, dir, dir.blocks, slab
      ensures ok <==> !r.Aborted?
      ensures ok ==> && j <= n <= |st.entries| && IsPlaced(r.state, st, j, mid, n, dir.dir)
                     && dir.Valid(slab) && entryCount == dir.count && top == st.Boundary(n)
                     && byteCount == TotalBytes(r.state.entries) && Parts(slab[..], st, j, n, mid[0])
                     && top + ENTRY_SIZE + RECORD_SIZE * dir.overflowCount <= slab.Length
    {
      WriteNew(key, data, st, j, mid[0]);
      ok, n := IndexPlaced(key, |data|, st, j, mid, other, Without(st, j), r);
    }

    /** Everything but next_entry_offset is as in the state s'. */
    ghost predicate CoupledButNext(s': State)
      reads this, slab, dir, dir.blocks
    {
      && slab.Length == s'.geo.space && top == s'.top && dir.Valid(slab) && dir.dir == s'.dir
      && Laid(slab[..], s'.entries, s'.top)
      && entryCount == dir.count && byteCount == TotalBytes(s'.entries)
    }

    /** Step next_entry_offset over the new entry. */
    method Step(off: nat, ghost s': State)
      requires CoupledButNext(s') && off == s'.Boundary(s'.next)
      modifies this`next
      ensures Coupled(s')
    {
      ghost var mem := slab[..];
      next := off;
      assert slab[..] == mem;
    }

    /** cell_body_add_offset for a first victim of the same size. */
    method ReplaceSame(key: Checksum, data: seq<byte>, ghost st: State, ghost e: Entry, ghost other: Checksum,
                       ghost r: Outcome) returns (ok: bool)
      requires Rewound(st) && st.next < |st.entries| && Evicted(st, st.next + 1)
      requires e == Used(next, key, data, st.clock) && e.End() == st.Boundary(st.next + 1) <= st.top
      requires st.entries[st.next].Size() == |data| < SIZE_LIMIT
      requires PlacedBy(r, st, st.next + 1, [e], key, Without(st, st.next + 1))
      requires CanIndex(st, st.next + 1, e, key, other, Without(st, st.next + 1), BytesWithout(st, st.next + 1))
      modifies this`top, this`next, this`entryCount, this`byteCount, dir, dir.blocks, slab
      ensures ok <==> !r.Aborted?
      ensures ok ==> Coupled(r.state)
    {
      ghost var n;
      ok, n := PlaceNew(key, data, st, st.next + 1, [e], other, r);
      if ok {
        PlacedFields(r.state, st, st.next + 1, [e], n, dir.dir);
        SameSizeLaid(slab[..], st, n, e);
        Step(next + ENTRY_SIZE + |data|, r.state);
      }
    }

    /** cell_body_add_offset once the run up to j has room for the entry and a remainder. */
    method ReplaceSplit(key: Checksum, data: seq<byte>, room: nat, ghost st: State, ghost j: nat, ghost e: Entry,
                        ghost other: Checksum, ghost r: Outcome) returns (ok: bool)
      requires Rewound(st) && st.next < j < |st.entries| && Evicted(st, j)
      requires e == Used(next, key, data, st.clock) && e.End() + ENTRY_SIZE + room == st.Boundary(j) <= st.top
      requires |data| < SIZE_LIMIT && room < SIZE_LIMIT
      requires PlacedBy(r, st, j, [e, Free(e.End(), room)], key, Without(st, j))
      requires CanIndex(st, j, e, key, other, Without(st, j), BytesWithout(st, j))
      modifies this`top, this`next, this`entryCount, this`byteCount, dir, dir.blocks, slab
      ensures ok <==> !r.Aborted?
      ensures ok ==> Coupled(r.state)
    {
      ghost var n;
      ghost var mid := [e, Free(e.End(), room)];
      ok, n := PlaceNew(key, data, st, j, mid, other, r);
      if ok {
        PlacedFields(r.state, st, j, mid, n, dir.dir);
        CoreChain(st, {});
        var off := next + ENTRY_SIZE + |data|;
        BoundaryOrder(st, j, n);
        PutRest(off, |data|, room, st, j, n, e);
        LinkRest(off + ENTRY_SIZE + room, room, st, j, n, e, mid[1]);
        Step(off, r.state);
      }
    }

    // ----- cell_body_add ---------------------------------------------------------------------------------

    /** cell_body_add_top in the state t. */
    method AppendTop(key: Checksum, data: seq<byte>, ghost t: State) returns (ok: bool)
      requires Coupled(t) && Rewound(t) && t.next == |t.entries| && key !in t.dir.at && t.geo.Accepts(data)
      modifies this`top, this`next, this`entryCount, this`byteCount, dir, dir.blocks, slab
      ensures ok <==> Append(t, key, data).Stored?
      ensures Append(t, key, data).Stored? || Append(t, key, data).Dropped?
      ensures Coupled(Append(t, key, data).state)
    {
      ghost var mem := slab[..];
      ghost var e := Used(top, key, data, t.clock);
      ghost var prev := PrevSize(t.entries, |t.entries|);
      CoreChain(t, {});
      AppendRoom(t, key, data);
      dir.Counts(slab);
      ok := AddTop(key, data, prev, e);
      if ok {
        ChainKept(mem, slab[..], t);
        AppendLaid(slab[..], t.entries, e);
        AppendedBytes(t, e);
      }
    }

    /** cell_body_push_down_top: every entry from next on is evicted. */
    method PushDownTop(key: Checksum, data: seq<byte>, ghost st: State)
      requires Rewound(st) && st.next < |st.entries| && Evicted(st, |st.entries|)
      requires key !in st.dir.at && st.geo.Accepts(data)
      modifies this`top, this`next, this`entryCount, this`byteCount, dir, dir.blocks, slab
      ensures Coupled(Append(Truncate(st), key, data).state)
    {
      LowerToNext(st);
      TruncateAbsent(st, key);
      var ok := AppendTop(key, data, Truncate(st));
    }

    method LowerToNext(ghost st: State)
      requires Rewound(st) && st.next < |st.entries| && Evicted(st, |st.entries|)
      modifies this`top, slab
      ensures Coupled(Truncate(st))
    {
      assert OpenEvicted(0);
      ghost var mem := slab[..];
      CoreChain(st, {});
      EndsBelowTop(st);
      assert st.entries[st.next].End() <= st.top;
      LowerTop(next, OpenedHead(st), mem);
      TruncatedLaid(mem, slab[..], st);
      TruncatedBytes(st);
      assert st.entries[st.next..] == st.entries[st.next..|st.entries|];
    }

    /** cell_body_next_entry_is_top of the last victim. */
    method NextEntryIsTop(ptr: nat, ghost st: State, ghost m: nat) returns (b: bool)
      requires Rewound(st) && st.next < m <= |st.entries| && Evicted(st, m) && ptr == st.entries[m - 1].off
      ensures b <==> m == |st.entries|
    {
      var above;
      above, b := StepOver(ptr, st, m);
    }

    /** cell_body_add_offset: false when an assertion fails. */
    method AddOffset(key: Checksum, data: seq<byte>, ghost st: State) returns (ok: bool)
      requires MayEvict(st, |data|) && Coupled(st) && key !in st.dir.at && st.geo.Accepts(data)
      modifies this`top, this`next, this`entryCount, this`byteCount, dir, dir.blocks, slab
      ensures ok <==> !InsertAt(st, key, data).Aborted?
      ensures ok ==> Coupled(InsertAt(st, key, data).state)
    {
      EvictFirst(st, |data|);
      var size := SizeAt(next, st, st.next, st.next + 1);
      if size == |data| {
        ok := AddSame(key, data, st);
      } else {
        ok := AddWalking(key, data, st);
      }
    }

    method AddSame(key: Checksum, data: seq<byte>, ghost st: State) returns (ok: bool)
      requires MayEvict(st, |data|) && key !in st.dir.at && st.geo.Accepts(data)
      requires st.entries[st.next].Size() == |data| && Evicted(st, st.next + 1)
      modifies this`top, this`next, this`entryCount, this`byteCount, dir, dir.blocks, slab
      ensures ok <==> !InsertAt(st, key, data).Aborted?
      ensures ok ==> Coupled(InsertAt(st, key, data).state)
    {
      ghost var e := Used(next, key, data, st.clock);
      SameSizeMid(st, key, data);
      Placed(st, st.next + 1, [e], key, data);
      Indexable(st, st.next + 1, e, key, data);
      ok := ReplaceSame(key, data, st, e, SurvivorKey(st, |data|), InsertAt(st, key, data));
    }

    method AddWalking(key: Checksum, data: seq<byte>, ghost st: State) returns (ok: bool)
      requires MayEvict(st, |data|) && key !in st.dir.at && st.geo.Accepts(data)
      requires st.entries[st.next].Size() != |data| && Evicted(st, st.next + 1)
      modifies this`top, this`next, this`entryCount, this`byteCount, dir, dir.blocks, slab
      ensures ok <==> !InsertAt(st, key, data).Aborted?
      ensures ok ==> Coupled(InsertAt(st, key, data).state)
    {
      var freeSpace, hitTop := Clear(|data|, st);
      if hitTop {
        PushDownTop(key, data, st);
        return true;
      }
      ok := AddSplit(key, data, freeSpace, st);
    }

    /** The walk, and the check that it has not reached the top. */
    method Clear(n: nat, ghost st: State) returns (freeSpace: nat, hitTop: bool)
      requires MayEvict(st, n) && Evicted(st, st.next + 1) && st.entries[st.next].Size() != n
      modifies this`entryCount, this`byteCount, dir, dir.blocks, slab
      ensures Evicted(st, VictimEnd(st, n))
      ensures hitTop <==> VictimEnd(st, n) == |st.entries|
      ensures !hitTop ==>
                && freeSpace == st.entries[VictimEnd(st, n) - 1].End() - st.entries[st.next].off - ENTRY_SIZE
                && freeSpace >= n + ENTRY_SIZE
    {
      SearchStarts(st, n);
      var ptr;
      ptr, freeSpace, hitTop := Walk(n, st, VictimEnd(st, n));
      if !hitTop {
        hitTop := NextEntryIsTop(ptr, st, VictimEnd(st, n));
      }
    }

    method AddSplit(key: Checksum, data: seq<byte>, freeSpace: nat, ghost st: State) returns (ok: bool)
      requires MayEvict(st, |data|) && key !in st.dir.at && st.geo.Accepts(data)
      requires st.entries[st.next].Size() != |data|
      requires VictimEnd(st, |data|) < |st.entries| && Evicted(st, VictimEnd(st, |data|))
      requires freeSpace == st.entries[VictimEnd(st, |data|) - 1].End() - st.entries[st.next].off - ENTRY_SIZE
      requires freeSpace >= |data| + ENTRY_SIZE
      modifies this`top, this`next, this`entryCount, this`byteCount, dir, dir.blocks, slab
      ensures ok <==> !InsertAt(st, key, data).Aborted?
      ensures ok ==> Coupled(InsertAt(st, key, data).state)
    {
      ghost var j := VictimEnd(st, |data|);
      ghost var e := Used(next, key, data, st.clock);
      var room := freeSpace - (|data| + ENTRY_SIZE);
      SplitMid(st, key, data);
      assert room == st.entries[j - 1].End() - e.End() - ENTRY_SIZE;
      Placed(st, j, [e, Free(e.End(), room)], key, data);
      Indexable(st, j, e, key, data);
      ok := ReplaceSplit(key, data, room, st, j, e, SurvivorKey(st, |data|), InsertAt(st, key, data));
    }

    /** cell_body_add: false when an assertion fails. */
    method Add(key: Checksum, data: seq<byte>, ghost st: State) returns (ok: bool)
      requires Coupled(st) && Inv(st) && key !in st.dir.at && st.geo.Accepts(data)
      modifies this`top, this`next, this`entryCount, this`byteCount, dir, dir.blocks, slab
      ensures ok <==> !Insert(st, key, data).Aborted?
      ensures ok ==> Coupled(Insert(st, key, data).state)
    {
      InsertUnfolds(st, key, data);
      CoreChain(st, {});
      NextIsTop(slab[..], st);
      if !slab[next].top {
        ok := AddOffset(key, data, st);
        return;
      }
      ok := AppendTop(key, data, st);
      if !ok {
        AtStart(st, key, data);
        ghost var mem := slab[..];
        next := 0;
        assert slab[..] == mem;
        ok := AddOffset(key, data, st.(next := 0));
      }
    }

    // ----- cell.c ------------------------------------------------------------------------------------------

    /** cell_add_chunk: added is its result, true also for a chunk that is dropped; ok is false
        when an assertion fails on the way, which leaves the codes apart. */
    method AddChunk(key: Checksum, data: seq<byte>) returns (added: bool, ok: bool)
      requires Valid() && s.geo.Accepts(data)
      modifies this`top, this`next, this`entryCount, this`byteCount, this`entryCode, this`exitCode, this`s,
               dir, dir.blocks, slab
      ensures added <==> key !in old(s).dir.at
      ensures !added ==> ok && Valid() && s == old(s) && slab[..] == old(slab[..])
      ensures added ==> (ok <==> !Insert(old(s), key, data).Aborted?) && (ok <==> !TailHazard(old(s), |data|))
      ensures added && ok ==> Valid() && s == Insert(old(s), key, data).state
      ensures added && ok ==> entryCode == (old(entryCode) + 1) % CODE_LIMIT
      ensures !ok ==> !HeaderSane()
    {
      var entry := dir.Get(slab, key);
      if entry.Some? {
        return false, true;
      }
      ghost var r := Insert(s, key, data);
      InsertKeepsInv(s, key, data, r);
      ok := AddBracketed(key, data, s, r);
      if ok {
        Settle(r.state);
      }
      added := true;
    }

    /** The new state, in ghost. */
    ghost method Settle(s': State)
      requires Coupled(s') && Inv(s') && magic == CELL_HEADER_MAGIC && entryCode == exitCode < CODE_LIMIT
      modifies this`s
      ensures Valid() && s == s'
    {
      ghost var mem := slab[..];
      s := s';
      assert slab[..] == mem;
    }

    /** The update itself: until it is over the cell is not sane. */
    method AddWith(key: Checksum, data: seq<byte>, ghost st: State, ghost r: Outcome) returns (ok: bool)
      requires Coupled(st) && Yields(st, key, data, r)
      requires !HeaderSane()
      modifies this`top, this`next, this`entryCount, this`byteCount, dir, dir.blocks, slab
      ensures ok <==> !r.Aborted?
      ensures ok ==> Coupled(r.state)
    {
      assert OpenInsert(0);
      ok := Add(key, data, st);
    }

    /** The update between cell_ic_on_entry and cell_ic_on_exit. */
    method AddBracketed(key: Checksum, data: seq<byte>, ghost st: State, ghost r: Outcome) returns (ok: bool)
      requires Coupled(st) && Yields(st, key, data, r)
      requires entryCode == exitCode < CODE_LIMIT
      modifies this`top, this`next, this`entryCount, this`byteCount, this`entryCode, this`exitCode,
               dir, dir.blocks, slab
      ensures ok <==> !r.Aborted?
      ensures ok ==> Coupled(r.state) && exitCode == entryCode && entryCode == (old(entryCode) + 1) % CODE_LIMIT
      ensures !ok ==> entryCode != exitCode
    {
      ghost var mem := slab[..];
      entryCode := (entryCode + 1) % CODE_LIMIT;
      assert slab[..] == mem;
      ok := AddWith(key, data, st, r);
      if ok {
        ghost var mem' := slab[..];
        exitCode := entryCode;
        assert slab[..] == mem';
      }
    }

    /** cell_get_chunk: exactly the bytes that were stored, or none. */
    method GetChunk(key: Checksum) returns (chunk: Option<seq<byte>>)
      requires Valid()
      ensures chunk == if key in Contents(s.entries) then Some(Contents(s.entries)[key]) else None
    {
      ContentsIndexed(s);
      var entry := dir.Get(slab, key);
      if entry.None? {
        return None;
      }
      ghost var i := RecordLeads(s, key);
      LaidAt(slab[..], s.entries, 0, |s.entries|, i);
      var data := ReadChunk(entry.value.offset, s.entries[i], PrevSize(s.entries, i));
      return Some(data);
    }

    /** chunk_set from the entry at off. */
    method ReadChunk(off: nat, ghost e: Entry, ghost prev: nat) returns (data: seq<byte>)
      requires EntryAt(slab[..], e, prev) && e.Used? && off == e.off
      ensures data == e.data
    {
      assert OpenEntry(0);
      var size := slab[off].size;
      data := [];
      ghost var p := slab[e.off + ENTRY_SIZE..e.End()];
      for k := 0 to size
        invariant data == e.data[..k]
      {
        assert p[k] == slab[off + ENTRY_SIZE + k] && p[k] == Byte(e.data[k]);
        data := data + [slab[off + ENTRY_SIZE + k].b];
      }
    }

    /** cell_has_chunk */
    method HasChunk(key: Checksum) returns (b: bool)
      requires Valid()
      ensures b <==> key in Contents(s.entries)
    {
      ContentsIndexed(s);
      var entry := dir.Get(slab, key);
      b := entry.Some?;
    }

    /** cell_entry_count */
    method EntryCount() returns (n: int)
      requires Valid()
      ensures n == UsedCount(s.entries) < OFFSET_LIMIT
    {
      CountExact(s);
      CountersFit(s);
      dir.Counts(slab);
      n := entryCount;
    }

    /** cell_byte_count */
    method ByteCount() returns (n: int)
      requires Valid()
      ensures n == TotalBytes(s.entries) < OFFSET_LIMIT
    {
      CountersFit(s);
      n := byteCount;
    }
  }
}
