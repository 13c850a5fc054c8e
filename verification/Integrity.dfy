/** What is left of a cell after a crash. Stores reach the file in any order and any subset
    of them may be lost, but those before a barrier are all there before any after it. */
module Integrity {
  import opened Types
  import opened Ring
  import opened Slab
  import opened Layout
  import opened CellDirectory
  import opened CellWords
  import RingInvariant

  /** A store to one word of the cell. */
  datatype Store =
    | SetMagic(v: nat)
    | SetEntryCode(v: nat)
    | SetExitCode(v: nat)
    | SetEntryCount(c: int)
    | SetByteCount(c: int)
    | SetTop(v: nat)
    | SetNext(v: nat)
    | SetOverflowCount(v: nat)
    | SetBlock(b: nat, block: DirBlock)
    | SetSlot(i: nat, slot: Slot)

  function Put(m: Words, st: Store): (m': Words)
    ensures |m'.blocks| == |m.blocks| && |m'.slab| == |m.slab|
  {
    match st
    case SetMagic(v) => m.(magic := v)
    case SetEntryCode(v) => m.(entryCode := v)
    case SetExitCode(v) => m.(exitCode := v)
    case SetEntryCount(c) => m.(entryCount := c)
    case SetByteCount(c) => m.(byteCount := c)
    case SetTop(v) => m.(top := v)
    case SetNext(v) => m.(next := v)
    case SetOverflowCount(v) => m.(overflowCount := v)
    case SetBlock(b, block) => if b < |m.blocks| then m.(blocks := m.blocks[b := block]) else m
    case SetSlot(i, slot) => if i < |m.slab| then m.(slab := m.slab[i := slot]) else m
  }

  /** The image once the stores that are kept reach it, in their order. */
  function Persist(m: Words, ws: seq<Store>, kept: seq<bool>): (m': Words)
    requires |kept| == |ws|
    ensures |m'.blocks| == |m.blocks| && |m'.slab| == |m.slab|
  {
    if ws == [] then m
    else
      var n := |ws| - 1;
      var before := Persist(m, ws[..n], kept[..n]);
      if kept[n] then Put(before, ws[n]) else before
  }

  /** The image once all of them do. */
  function Apply(m: Words, ws: seq<Store>): (m': Words)
    ensures |m'.blocks| == |m.blocks| && |m'.slab| == |m.slab|
  {
    if ws == [] then m else Put(Apply(m, ws[..|ws| - 1]), ws[|ws| - 1])
  }

  /** What a crash may leave of m when the stores ws are still under way. */
  ghost predicate CrashImage(m: Words, ws: seq<Store>, img: Words) {
    exists kept :: |kept| == |ws| && img == Persist(m, ws, kept)
  }

  // ----- stores -------------------------------------------------------------------------------

  predicate IsData(st: Store) {
    !st.SetMagic? && !st.SetEntryCode? && !st.SetExitCode?
  }

  /** The stores of an update, which leave the magic and the codes alone. */
  ghost predicate OnlyData(ws: seq<Store>) {
    forall i | 0 <= i < |ws| :: IsData(ws[i])
  }

  lemma {:induction false} DataKeeps(m: Words, ws: seq<Store>, kept: seq<bool>)
    requires |kept| == |ws| && OnlyData(ws)
    ensures var img := Persist(m, ws, kept);
            img.magic == m.magic && img.entryCode == m.entryCode && img.exitCode == m.exitCode
  {
    if ws != [] {
      DataKeeps(m, ws[..|ws| - 1], kept[..|ws| - 1]);
    }
  }

  /** A crash in an update leaves the magic and the codes as they were. */
  lemma CrashKeeps(m: Words, ws: seq<Store>, img: Words)
    requires CrashImage(m, ws, img) && OnlyData(ws)
    ensures img.magic == m.magic && img.entryCode == m.entryCode && img.exitCode == m.exitCode
  {
    var kept :| |kept| == |ws| && img == Persist(m, ws, kept);
    DataKeeps(m, ws, kept);
  }

  lemma CrashOne(m: Words, st: Store, img: Words)
    requires CrashImage(m, [st], img)
    ensures img == m || img == Put(m, st)
  {
    var kept :| |kept| == 1 && img == Persist(m, [st], kept);
    assert Persist(m, [st][..0], kept[..0]) == m;
  }

  lemma {:induction false} AllKept(m: Words, ws: seq<Store>, kept: seq<bool>)
    requires |kept| == |ws| && forall i | 0 <= i < |kept| :: kept[i]
    ensures Persist(m, ws, kept) == Apply(m, ws)
  {
    if ws != [] {
      AllKept(m, ws[..|ws| - 1], kept[..|ws| - 1]);
    }
  }

  lemma CrashAll(m: Words, ws: seq<Store>)
    ensures CrashImage(m, ws, Apply(m, ws))
  {
    AllKept(m, ws, seq(|ws|, _ => true));
  }

  lemma {:induction false} NoneKept(m: Words, ws: seq<Store>, kept: seq<bool>)
    requires |kept| == |ws| && forall i | 0 <= i < |kept| :: !kept[i]
    ensures Persist(m, ws, kept) == m
  {
    if ws != [] {
      NoneKept(m, ws[..|ws| - 1], kept[..|ws| - 1]);
    }
  }

  lemma CrashNone(m: Words, ws: seq<Store>)
    ensures CrashImage(m, ws, m)
  {
    NoneKept(m, ws, seq(|ws|, _ => false));
  }

  /** Stores not yet issued are stores that did not arrive. */
  lemma {:induction false} CrashPrefix(m: Words, ws: seq<Store>, k: nat, img: Words)
    requires k <= |ws| && CrashImage(m, ws[..k], img)
    ensures CrashImage(m, ws, img)
    decreases |ws|
  {
    var n := |ws| - 1;
    if k == |ws| {
      assert ws[..k] == ws;
    } else {
      assert ws[..n][..k] == ws[..k];
      CrashPrefix(m, ws[..n], k, img);
      var kept :| |kept| == n && img == Persist(m, ws[..n], kept);
      assert (kept + [false])[..n] == kept;
      assert img == Persist(m, ws, kept + [false]);
    }
  }

  lemma ApplyOne(m: Words, ws: seq<Store>, st: Store)
    ensures Apply(m, ws + [st]) == Put(Apply(m, ws), st)
  {
    assert (ws + [st])[..|ws|] == ws;
  }

  lemma {:induction false} ApplyConcat(m: Words, a: seq<Store>, b: seq<Store>)
    ensures Apply(m, a + b) == Apply(Apply(m, a), b)
  {
    if b == [] {
      assert a + b == a;
    } else {
      var n := |b| - 1;
      assert a + b == (a + b[..n]) + [b[n]];
      ApplyOne(m, a + b[..n], b[n]);
      ApplyConcat(m, a, b[..n]);
    }
  }

  /** An update does not read the codes. */
  lemma {:induction false} ApplyIgnoresCodes(m: Words, ws: seq<Store>, entryCode: nat, exitCode: nat)
    requires OnlyData(ws)
    ensures Apply(m.(entryCode := entryCode, exitCode := exitCode), ws)
            == Apply(m, ws).(entryCode := entryCode, exitCode := exitCode)
  {
    if ws != [] {
      ApplyIgnoresCodes(m, ws[..|ws| - 1], entryCode, exitCode);
    }
  }

  // ----- blocks and slots written one after the other --------------------------------------------------

  function BlockStores(bs: seq<DirBlock>): (ws: seq<Store>)
    ensures |ws| == |bs| && forall b | 0 <= b < |bs| :: ws[b] == SetBlock(b, bs[b])
  {
    seq(|bs|, (b: nat) requires b < |bs| => SetBlock(b, bs[b]))
  }

  function SlotStores(p: nat, xs: seq<Slot>): (ws: seq<Store>)
    ensures |ws| == |xs| && forall i | 0 <= i < |xs| :: ws[i] == SetSlot(p + i, xs[i])
  {
    seq(|xs|, (i: nat) requires i < |xs| => SetSlot(p + i, xs[i]))
  }

  lemma {:induction false} BlocksApplied(m: Words, bs: seq<DirBlock>, k: nat)
    requires k <= |bs| == |m.blocks|
    ensures Apply(m, BlockStores(bs)[..k]) == m.(blocks := bs[..k] + m.blocks[k..])
  {
    if k == 0 {
      assert bs[..0] + m.blocks[0..] == m.blocks;
    } else {
      BlocksApplied(m, bs, k - 1);
      assert BlockStores(bs)[..k] == BlockStores(bs)[..k - 1] + [SetBlock(k - 1, bs[k - 1])];
      ApplyOne(m, BlockStores(bs)[..k - 1], SetBlock(k - 1, bs[k - 1]));
      assert (bs[..k - 1] + m.blocks[k - 1..])[k - 1 := bs[k - 1]] == bs[..k] + m.blocks[k..];
    }
  }

  lemma AllBlocksApplied(m: Words, bs: seq<DirBlock>)
    requires |bs| == |m.blocks|
    ensures Apply(m, BlockStores(bs)) == m.(blocks := bs)
  {
    BlocksApplied(m, bs, |bs|);
    assert BlockStores(bs)[..|bs|] == BlockStores(bs);
    assert bs[..|bs|] + m.blocks[|bs|..] == bs;
  }

  lemma {:induction false} SlotsApplied(m: Words, p: nat, xs: seq<Slot>, k: nat)
    requires k <= |xs| && p + |xs| <= |m.slab|
    ensures Apply(m, SlotStores(p, xs)[..k]) == m.(slab := Write(m.slab, p, xs[..k]))
  {
    if k == 0 {
      assert Write(m.slab, p, xs[..0]) == m.slab;
    } else {
      SlotsApplied(m, p, xs, k - 1);
      assert SlotStores(p, xs)[..k] == SlotStores(p, xs)[..k - 1] + [SetSlot(p + k - 1, xs[k - 1])];
      ApplyOne(m, SlotStores(p, xs)[..k - 1], SetSlot(p + k - 1, xs[k - 1]));
      assert Write(m.slab, p, xs[..k - 1])[p + k - 1 := xs[k - 1]] == Write(m.slab, p, xs[..k]);
    }
  }

  lemma AllSlotsApplied(m: Words, p: nat, xs: seq<Slot>)
    requires p + |xs| <= |m.slab|
    ensures Apply(m, SlotStores(p, xs)) == m.(slab := Write(m.slab, p, xs))
  {
    SlotsApplied(m, p, xs, |xs|);
    assert SlotStores(p, xs)[..|xs|] == SlotStores(p, xs) && xs[..|xs|] == xs;
  }

  function FieldStores(m: Words): (ws: seq<Store>)
    ensures OnlyData(ws)
  {
    [SetEntryCount(m.entryCount)] + [SetByteCount(m.byteCount)] + [SetTop(m.top)] + [SetNext(m.next)]
    + [SetOverflowCount(m.overflowCount)]
  }

  lemma FieldsApplied(m: Words, m': Words)
    ensures Apply(m, FieldStores(m')) == m.(entryCount := m'.entryCount, byteCount := m'.byteCount, top := m'.top,
                                            next := m'.next, overflowCount := m'.overflowCount)
  {
    var w1 := [SetEntryCount(m'.entryCount)];
    var w2 := w1 + [SetByteCount(m'.byteCount)];
    var w3 := w2 + [SetTop(m'.top)];
    var w4 := w3 + [SetNext(m'.next)];
    assert [] + w1 == w1;
    ApplyOne(m, [], SetEntryCount(m'.entryCount));
    ApplyOne(m, w1, SetByteCount(m'.byteCount));
    ApplyOne(m, w2, SetTop(m'.top));
    ApplyOne(m, w3, SetNext(m'.next));
    ApplyOne(m, w4, SetOverflowCount(m'.overflowCount));
  }

  /** Stores that turn the data of m' into any other of the same size. */
  function Difference(m': Words): (ws: seq<Store>)
    ensures OnlyData(ws)
  {
    BlockStores(m'.blocks) + SlotStores(0, m'.slab) + FieldStores(m')
  }

  /** Any two cells of the same size, magic and codes are an update apart. */
  lemma DifferenceApplied(m: Words, m': Words)
    requires |m.blocks| == |m'.blocks| && |m.slab| == |m'.slab|
    requires m'.magic == m.magic && m'.entryCode == m.entryCode && m'.exitCode == m.exitCode
    ensures Apply(m, Difference(m')) == m'
  {
    var a, b := BlockStores(m'.blocks), SlotStores(0, m'.slab);
    AllBlocksApplied(m, m'.blocks);
    AllSlotsApplied(Apply(m, a), 0, m'.slab);
    ApplyConcat(m, a, b);
    ApplyConcat(m, a + b, FieldStores(m'));
    FieldsApplied(Apply(m, a + b), m');
    assert Write(m.slab, 0, m'.slab) == m'.slab;
  }

  // ----- initialisation ----------------------------------------------------------------------------

  /** memset over the fixed header, and cell_ic_init and cell_dir_init, which clear parts of
      it again. */
  function HeaderStores(): (ws: seq<Store>) {
    [SetMagic(0)] + [SetEntryCount(0)] + [SetByteCount(0)] + [SetEntryCode(0)] + [SetExitCode(0)]
    + [SetTop(0)] + [SetNext(0)] + [SetOverflowCount(0)]
  }

  function Cleared(m: Words): Words {
    Words(0, 0, 0, 0, 0, 0, 0, 0, m.blocks, m.slab)
  }

  lemma HeaderApplied(m: Words)
    ensures Apply(m, HeaderStores()) == Cleared(m)
  {
    var w1 := [SetMagic(0)];
    var w2 := w1 + [SetEntryCount(0)];
    var w3 := w2 + [SetByteCount(0)];
    var w4 := w3 + [SetEntryCode(0)];
    var w5 := w4 + [SetExitCode(0)];
    var w6 := w5 + [SetTop(0)];
    var w7 := w6 + [SetNext(0)];
    assert [] + w1 == w1;
    ApplyOne(m, [], SetMagic(0));
    ApplyOne(m, w1, SetEntryCount(0));
    ApplyOne(m, w2, SetByteCount(0));
    ApplyOne(m, w3, SetEntryCode(0));
    ApplyOne(m, w4, SetExitCode(0));
    ApplyOne(m, w5, SetTop(0));
    ApplyOne(m, w6, SetNext(0));
    ApplyOne(m, w7, SetOverflowCount(0));
  }

  /** cell_body_set_top keeps the checksum and the previous size that are there; cell_body_init
      then clears the previous size. */
  function TopHead(was: Slot): (h: Slot)
    ensures h.Head?
  {
    if was.Head? then was.(free := true, top := true, size := 0) else Head(ZERO_CHECKSUM, true, true, 0, 0)
  }

  function BodyStores(was: Slot): (ws: seq<Store>) {
    SlotStores(0, Image(TopHead(was))) + SlotStores(0, Image(TopHead(was).(prev := 0)))
  }

  /** cell_ic_init and cell_dir_init once more. */
  function AgainStores(): (ws: seq<Store>) {
    [SetEntryCode(0)] + [SetExitCode(0)] + [SetOverflowCount(0)]
  }

  /** The stores of cell_header_init before its first barrier. */
  function InitStores(m: Words): (ws: seq<Store>)
    requires |m.slab| > 0
  {
    HeaderStores() + BlockStores(EmptyBlocks()) + AgainStores() + BlockStores(EmptyBlocks()) + BodyStores(m.slab[0])
  }

  function Initialised(m: Words): Words
    requires |m.slab| > 0
  {
    Put(Apply(m, InitStores(m)), SetMagic(CELL_HEADER_MAGIC))
  }

  lemma AgainApplied(m: Words)
    ensures Apply(m, AgainStores()) == m.(entryCode := 0, exitCode := 0, overflowCount := 0)
  {
    var w1 := [SetEntryCode(0)];
    assert [] + w1 == w1;
    ApplyOne(m, [], SetEntryCode(0));
    ApplyOne(m, w1, SetExitCode(0));
    ApplyOne(m, w1 + [SetExitCode(0)], SetOverflowCount(0));
  }

  lemma BodyApplied(m: Words, was: Slot)
    requires ENTRY_SIZE <= |m.slab|
    ensures var m' := Apply(m, BodyStores(was)); m' == m.(slab := m'.slab) && TopAt(m'.slab, 0, 0)
  {
    var h := TopHead(was);
    var a, b := SlotStores(0, Image(h)), SlotStores(0, Image(h.(prev := 0)));
    ApplyConcat(m, a, b);
    AllSlotsApplied(m, 0, Image(h));
    AllSlotsApplied(Apply(m, a), 0, Image(h.(prev := 0)));
    var mem := Write(m.slab, 0, Image(h));
    WriteReads(mem, 0, Image(h.(prev := 0)));
    assert Write(mem, 0, Image(h.(prev := 0)))[0] == h.(prev := 0);
  }

  lemma InitApplied(m: Words)
    requires |m.blocks| == CELL_DIR_BLOCK_COUNT && ENTRY_SIZE <= |m.slab|
    ensures var m' := Apply(m, InitStores(m));
            m' == Cleared(m).(blocks := EmptyBlocks(), slab := m'.slab) && TopAt(m'.slab, 0, 0)
  {
    var a, b, c, d := HeaderStores(), BlockStores(EmptyBlocks()), AgainStores(), BodyStores(m.slab[0]);
    HeaderApplied(m);
    ApplyConcat(m, a, b);
    AllBlocksApplied(Apply(m, a), EmptyBlocks());
    ApplyConcat(m, a + b, c);
    AgainApplied(Apply(m, a + b));
    ApplyConcat(m, a + b + c, b);
    AllBlocksApplied(Apply(m, a + b + c), EmptyBlocks());
    ApplyConcat(m, a + b + c + b, d);
    BodyApplied(Apply(m, a + b + c + b), m.slab[0]);
  }

  /** Initialisation makes an empty cell of whatever was there. */
  lemma InitialisedEmpty(m: Words, geo: Geometry)
    requires Formed(m, geo)
    ensures HoldsCell(Initialised(m), Empty(geo))
  {
    InitApplied(m);
    EmptyHeld(Initialised(m), geo);
    RingInvariant.EmptyInv(geo);
  }

  /** What a crash during cell_header_init may leave: before its first barrier any subset of
      the stores, after it the magic or not. */
  ghost predicate InitImage(m: Words, img: Words)
    requires |m.slab| > 0
  {
    || CrashImage(m, InitStores(m), img)
    || CrashImage(Apply(m, InitStores(m)), [SetMagic(CELL_HEADER_MAGIC)], img)
  }

  /** Every store to the magic clears it. */
  ghost predicate ClearsMagic(ws: seq<Store>) {
    forall i | 0 <= i < |ws| && ws[i].SetMagic? :: ws[i].v == 0
  }

  lemma {:induction false} OldOrZero(m: Words, ws: seq<Store>, kept: seq<bool>)
    requires |kept| == |ws| && ClearsMagic(ws)
    ensures Persist(m, ws, kept).magic == m.magic || Persist(m, ws, kept).magic == 0
  {
    if ws != [] {
      OldOrZero(m, ws[..|ws| - 1], kept[..|ws| - 1]);
    }
  }

  lemma InitClears(m: Words)
    requires |m.slab| > 0
    ensures ClearsMagic(InitStores(m))
  {
  }

  /** Keep only the stores to the codes. */
  function CodesOnly(ws: seq<Store>): (kept: seq<bool>)
    ensures |kept| == |ws|
    ensures forall i | 0 <= i < |ws| :: kept[i] <==> ws[i].SetEntryCode? || ws[i].SetExitCode?
  {
    seq(|ws|, i requires 0 <= i < |ws| => ws[i].SetEntryCode? || ws[i].SetExitCode?)
  }

  lemma {:induction false} CodesKept(m: Words, ws: seq<Store>, kept: seq<bool>)
    requires |kept| == |ws|
    requires forall i | 0 <= i < |ws| :: kept[i] <==> ws[i].SetEntryCode? || ws[i].SetExitCode?
    ensures var all := Apply(m, ws);
            Persist(m, ws, kept) == m.(entryCode := all.entryCode, exitCode := all.exitCode)
  {
    if ws != [] {
      CodesKept(m, ws[..|ws| - 1], kept[..|ws| - 1]);
    }
  }

  /** A crash before the first barrier of an initialisation leaves something that is taken for
      a sane cell exactly when the magic was valid beforehand: its codes can be cleared
      while the magic and everything else stay. */
  lemma TornInitIff(m: Words)
    requires |m.blocks| == CELL_DIR_BLOCK_COUNT && ENTRY_SIZE <= |m.slab|
    ensures (exists img :: CrashImage(m, InitStores(m), img) && Sane(img)) <==> m.magic == 26061973
    ensures CrashImage(m, InitStores(m), m.(entryCode := 0, exitCode := 0))
  {
    var ws := InitStores(m);
    InitClears(m);
    forall img | CrashImage(m, ws, img) && Sane(img) ensures m.magic == CELL_HEADER_MAGIC {
      var kept :| |kept| == |ws| && img == Persist(m, ws, kept);
      OldOrZero(m, ws, kept);
    }
    CodesKept(m, ws, CodesOnly(ws));
    InitApplied(m);
    var torn := m.(entryCode := 0, exitCode := 0);
    assert torn == Persist(m, ws, CodesOnly(ws));
    assert m.magic == CELL_HEADER_MAGIC ==> Sane(torn);
  }

  /** When the magic was not valid, whatever a crash leaves is initialised, or still has no
      valid magic. */
  lemma InitCrash(m: Words, img: Words)
    requires |m.blocks| == CELL_DIR_BLOCK_COUNT && ENTRY_SIZE <= |m.slab|
    requires m.magic != CELL_HEADER_MAGIC && InitImage(m, img)
    ensures img == Initialised(m) || img.magic != CELL_HEADER_MAGIC
    ensures |img.blocks| == |m.blocks| && |img.slab| == |m.slab|
  {
    var ws := InitStores(m);
    InitClears(m);
    if CrashImage(m, ws, img) {
      var kept :| |kept| == |ws| && img == Persist(m, ws, kept);
      OldOrZero(m, ws, kept);
    } else {
      CrashOne(Apply(m, ws), SetMagic(CELL_HEADER_MAGIC), img);
      InitApplied(m);
    }
  }

  /** A chain of reopenings, each cut short by a crash: a sane cell is left alone, any other
      is initialised again. */
  ghost predicate Reopened(images: seq<Words>) {
    |images| <= 1 ||
    (var k := |images| - 1;
     Reopened(images[..k])
     && if Sane(images[k - 1]) then images[k] == images[k - 1]
        else |images[k - 1].slab| > 0 && InitImage(images[k - 1], images[k]))
  }

  /** A file that never held a cell becomes an empty one however often that is interrupted,
      and is not taken for a cell before. */
  lemma {:induction false} FormatSurvivesCrashes(images: seq<Words>, geo: Geometry)
    requires |images| > 0 && Reopened(images) && Formed(images[0], geo) && images[0].magic != CELL_HEADER_MAGIC
    ensures var last := images[|images| - 1];
            Formed(last, geo) && (if Sane(last) then HoldsCell(last, Empty(geo)) else last.magic != CELL_HEADER_MAGIC)
  {
    var k := |images| - 1;
    if k > 0 {
      FormatSurvivesCrashes(images[..k], geo);
      if !Sane(images[k - 1]) {
        InitCrash(images[k - 1], images[k]);
        InitialisedEmpty(images[k - 1], geo);
      }
    }
  }

  // ----- an update in its bracket ----------------------------------------------------------------

  /** After cell_ic_on_entry. */
  function Entered(m: Words): Words {
    m.(entryCode := (m.entryCode + 1) % CODE_LIMIT)
  }

  /** After the update ws and cell_ic_on_exit. */
  function Done(m: Words, ws: seq<Store>): Words {
    Apply(Entered(m), ws).(exitCode := Entered(m).entryCode)
  }

  /** What a crash may leave of m while the stores ws of an update fail to complete. */
  ghost predicate FailImage(m: Words, ws: seq<Store>, img: Words) {
    CrashImage(m, [SetEntryCode(Entered(m).entryCode)], img) || CrashImage(Entered(m), ws, img)
  }

  /** What a crash may leave of m at any point of cell_add_chunk, ws being the stores between
      its two barriers. */
  ghost predicate AddImage(m: Words, ws: seq<Store>, img: Words) {
    FailImage(m, ws, img) || CrashImage(Apply(Entered(m), ws), [SetExitCode(Entered(m).entryCode)], img)
  }

  /** Nothing but the cell before the update is sane while it has not completed; also when
      entry_code wraps around. */
  lemma FailSane(m: Words, ws: seq<Store>, img: Words)
    requires Sane(m) && m.entryCode < CODE_LIMIT && OnlyData(ws) && FailImage(m, ws, img)
    ensures Sane(img) ==> img == m
    ensures |img.blocks| == |m.blocks| && |img.slab| == |m.slab|
  {
    if CrashImage(m, [SetEntryCode(Entered(m).entryCode)], img) {
      CrashOne(m, SetEntryCode(Entered(m).entryCode), img);
    } else {
      CrashKeeps(Entered(m), ws, img);
    }
  }

  /** Whatever a crash leaves is the cell before the update, the cell after it, or not sane. */
  lemma AddSane(m: Words, ws: seq<Store>, img: Words)
    requires Sane(m) && m.entryCode < CODE_LIMIT && OnlyData(ws) && AddImage(m, ws, img)
    ensures Sane(img) ==> img == m || img == Done(m, ws)
    ensures |img.blocks| == |m.blocks| && |img.slab| == |m.slab|
  {
    if FailImage(m, ws, img) {
      FailSane(m, ws, img);
    } else {
      var code := Entered(m).entryCode;
      CrashOne(Apply(Entered(m), ws), SetExitCode(code), img);
      CrashAll(Entered(m), ws);
      CrashKeeps(Entered(m), ws, Apply(Entered(m), ws));
    }
  }

  /** cell_init: what reopening makes of the words in the file. */
  function Reopen(m: Words): Words
    requires |m.slab| > 0
  {
    if Sane(m) then m else Initialised(m)
  }

  /** The reopened cell is as before an insertion, as after it, or empty. */
  ghost predicate Recovers(img: Words, s: State, r: Outcome) {
    && Formed(img, s.geo)
    && (|| HoldsCell(Reopen(img), s)
        || (!r.Aborted? && HoldsCell(Reopen(img), r.state))
        || HoldsCell(Reopen(img), Empty(s.geo)))
  }

  /** Crash atomicity: let a valid cell hold s, and crash anywhere in cell_add_chunk of an
      absent checksum, with any subset of the stores since the last barrier lost. Once it is
      reopened the cell is valid and as it was, as the insertion leaves it, or empty. An
      insertion that fails an assertion is a crash before its second barrier. */
  lemma AddRecovers(m: Words, s: State, key: Checksum, data: seq<byte>, r: Outcome, ws: seq<Store>, img: Words)
    requires HoldsCell(m, s) && RingInvariant.Yields(s, key, data, r) && OnlyData(ws)
    requires if r.Aborted? then FailImage(m, ws, img) else AddImage(m, ws, img) && Holds(Apply(m, ws), r.state)
    ensures Recovers(img, s, r)
  {
    HeldIsFormed(m, s);
    if r.Aborted? {
      FailSane(m, ws, img);
    } else {
      AddSane(m, ws, img);
      DoneHolds(m, s, ws, r.state);
      RingInvariant.InsertKeepsInv(s, key, data, r);
    }
    if !Sane(img) {
      InitialisedEmpty(img, s.geo);
    }
  }

  lemma DoneHolds(m: Words, s: State, ws: seq<Store>, s': State)
    requires HoldsCell(m, s) && OnlyData(ws) && Holds(Apply(m, ws), s')
    ensures Sane(Done(m, ws)) && Done(m, ws).entryCode < CODE_LIMIT && Holds(Done(m, ws), s')
  {
    var code := Entered(m).entryCode;
    ApplyIgnoresCodes(m, ws, code, m.exitCode);
    assert Entered(m) == m.(entryCode := code, exitCode := m.exitCode);
    CrashAll(m, ws);
    CrashKeeps(m, ws, Apply(m, ws));
    HoldsSame(Apply(m, ws), Done(m, ws), s');
  }

  // ----- two crashes ---------------------------------------------------------------------------------

  /** Keep only the stores to the entry count. */
  function CountOnly(ws: seq<Store>): (kept: seq<bool>)
    ensures |kept| == |ws| && forall i | 0 <= i < |ws| :: kept[i] <==> ws[i].SetEntryCount?
  {
    seq(|ws|, i requires 0 <= i < |ws| => ws[i].SetEntryCount?)
  }

  lemma {:induction false} CountKept(m: Words, ws: seq<Store>, kept: seq<bool>)
    requires |kept| == |ws| && forall i | 0 <= i < |ws| :: kept[i] <==> ws[i].SetEntryCount?
    ensures Persist(m, ws, kept) == m.(entryCount := Apply(m, ws).entryCount)
  {
    if ws != [] {
      CountKept(m, ws[..|ws| - 1], kept[..|ws| - 1]);
    }
  }

  /** Crash atomicity does not survive a second crash. Whenever an update changes the number
      of records, a crash in it followed by one in the reopening can leave a cell that is
      taken for sane, so that a further reopening keeps it, and that holds no state at all. */
  lemma TwoCrashes(m: Words, s: State, ws: seq<Store>, s': State) returns (img: Words, img': Words)
    requires HoldsCell(m, s) && OnlyData(ws) && Holds(Apply(m, ws), s') && s'.dir.Count() != s.dir.Count()
    ensures AddImage(m, ws, img) && !Sane(img) && |img.slab| > 0 && InitImage(img, img')
    ensures |img'.slab| > 0 && Sane(img') && Reopen(img') == img' && forall t :: !Holds(img', t)
  {
    HeldIsFormed(m, s);
    var m1 := Entered(m);
    ApplyIgnoresCodes(m, ws, m1.entryCode, m.exitCode);
    assert m1 == m.(entryCode := m1.entryCode, exitCode := m.exitCode);
    CountKept(m1, ws, CountOnly(ws));
    img := m1.(entryCount := Apply(m, ws).entryCount);
    assert img == Persist(m1, ws, CountOnly(ws));
    TornInitIff(img);
    img' := img.(entryCode := 0, exitCode := 0);
    forall t ensures !Holds(img', t) {
      if Holds(img', t) {
        CountFixed(m, s, img', t);
      }
    }
  }

  // ----- on a device ---------------------------------------------------------------------------------

  /** The words of a file, the stores on their way to it, and every image that a crash could
      have left since the device was made. */
  class Device {
    var words: Words
    ghost var durable: Words
    ghost var pending: seq<Store>
    ghost var images: iset<Words>

    ghost predicate Valid()
      reads this
    {
      words == Apply(durable, pending)
    }

    constructor (m: Words)
      ensures Valid() && words == m && durable == m && pending == [] && images == iset{m}
    {
      words, durable, pending, images := m, m, [], iset{m};
    }

    /** Issue a store; left is what a crash may leave from then on. */
    method Issue(st: Store) returns (ghost left: iset<Words>)
      requires Valid()
      modifies this
      ensures Valid() && words == Put(old(words), st)
      ensures durable == old(durable) && pending == old(pending) + [st]
      ensures left == (iset img: Words | CrashImage(durable, pending, img)) && images == old(images) + left
    {
      ApplyOne(durable, pending, st);
      words := Put(words, st);
      pending := pending + [st];
      left := iset img: Words | CrashImage(durable, pending, img);
      images := images + left;
    }

    /** __sync_synchronize */
    method Barrier() returns (ghost left: iset<Words>)
      requires Valid()
      modifies this
      ensures Valid() && words == old(words) && durable == words && pending == []
      ensures left == iset{words} && images == old(images) + left
    {
      durable, pending, left := words, [], iset{words};
      images := images + left;
    }

    /** Stores one after the other, without a barrier. */
    method IssueAll(ws: seq<Store>) returns (ghost left: iset<Words>)
      requires Valid() && pending == []
      modifies this
      ensures Valid() && durable == old(words) && pending == ws && words == Apply(old(words), ws)
      ensures images == old(images) + left
      ensures forall img :: img in left <==> ws != [] && CrashImage(old(words), ws, img)
    {
      left := iset{};
      for i := 0 to |ws|
        invariant Valid() && durable == old(words) && pending == ws[..i] && images == old(images) + left
        invariant forall img :: img in left <==> i > 0 && CrashImage(old(words), ws[..i], img)
      {
        ghost var now := Issue(ws[i]);
        assert ws[..i] + [ws[i]] == ws[..i + 1] && ws[..i + 1][..i] == ws[..i];
        forall img | img in left ensures img in now {
          CrashPrefix(old(words), ws[..i + 1], i, img);
        }
        left := left + now;
      }
      assert ws[..|ws|] == ws;
    }

    /** cell_ic_on_entry */
    method OnEntry() returns (code: nat, ghost left: iset<Words>)
      requires Valid() && pending == [] && Sane(words) && words.entryCode < CODE_LIMIT
      modifies this
      ensures Valid() && pending == [] && !Sane(words)
      ensures code == (old(words).entryCode + 1) % 0x1_0000_0000 && words == old(words).(entryCode := code)
      ensures images == old(images) + left
      ensures forall img :: img in left <==> CrashImage(old(words), [SetEntryCode(code)], img)
      ensures forall img | img in left :: img == old(words) || img == words
    {
      code := (words.entryCode + 1) % CODE_LIMIT;
      ghost var first := IssueAll([SetEntryCode(code)]);
      CrashAll(old(words), [SetEntryCode(code)]);
      assert Apply(old(words), [SetEntryCode(code)][..0]) == old(words);
      ghost var second := Barrier();
      left := first + second;
      forall img | img in left ensures img == old(words) || img == words {
        CrashOne(old(words), SetEntryCode(code), img);
      }
    }

    /** cell_ic_on_exit */
    method OnExit(code: nat) returns (ghost left: iset<Words>)
      requires Valid() && code == words.entryCode
      modifies this
      ensures Valid() && pending == [] && words == old(words).(exitCode := code)
      ensures images == old(images) + left
      ensures forall img :: img in left <==> CrashImage(old(words), [SetExitCode(code)], img)
      ensures forall img | img in left :: img == old(words) || img == words
    {
      ghost var first := Barrier();
      CrashNone(old(words), [SetExitCode(code)]);
      ghost var second := IssueAll([SetExitCode(code)]);
      CrashAll(old(words), [SetExitCode(code)]);
      assert Apply(old(words), [SetExitCode(code)][..0]) == old(words);
      ghost var third := Barrier();
      left := first + second + third;
      forall img | img in left ensures img == old(words) || img == words {
        CrashOne(old(words), SetExitCode(code), img);
      }
    }

    /** The update ws in its bracket: a crash somewhere in it leaves one of the images left,
        and whatever is sane of those is the cell before it or the cell after it. */
    method Bracketed(ws: seq<Store>) returns (ghost left: iset<Words>)
      requires Valid() && pending == [] && Sane(words) && words.entryCode < CODE_LIMIT && OnlyData(ws)
      modifies this
      ensures Valid() && pending == [] && Sane(words) && words.entryCode < CODE_LIMIT
      ensures words == Done(old(words), ws) && images == old(images) + left
      ensures forall img :: img in left <==> AddImage(old(words), ws, img)
      ensures forall img | img in left && Sane(img) :: img == old(words) || img == words
    {
      ghost var m := words;
      var code, first := OnEntry();
      ghost var second := IssueAll(ws);
      CrashAll(Entered(m), ws);
      CrashKeeps(Entered(m), ws, words);
      ghost var third := OnExit(code);
      left := first + second + third;
      CrashAll(m, [SetEntryCode(code)]);
      assert Apply(m, [SetEntryCode(code)]) == Entered(m);
      forall img | AddImage(m, ws, img) ensures Sane(img) ==> img == m || img == words {
        AddSane(m, ws, img);
      }
    }

    /** cell_add_chunk of an absent checksum, as far as the device goes: wherever it crashes,
        the cell recovers. */
    method AddChunk(ws: seq<Store>, ghost s: State, ghost key: Checksum, ghost data: seq<byte>, ghost r: Outcome)
      returns (ghost left: iset<Words>)
      requires Valid() && pending == [] && HoldsCell(words, s) && RingInvariant.Yields(s, key, data, r)
      requires !r.Aborted? && OnlyData(ws) && Holds(Apply(words, ws), r.state)
      modifies this
      ensures Valid() && pending == [] && HoldsCell(words, r.state)
      ensures images == old(images) + left && forall img :: img in left <==> AddImage(old(words), ws, img)
      ensures forall img | img in left :: Recovers(img, s, r)
    {
      ghost var m := words;
      left := Bracketed(ws);
      forall img | img in left ensures Recovers(img, s, r) {
        AddRecovers(m, s, key, data, r, ws, img);
      }
      DoneHolds(m, s, ws, r.state);
      RingInvariant.InsertKeepsInv(s, key, data, r);
    }

    /** cell_header_init */
    method HeaderInit() returns (ghost left: iset<Words>)
      requires Valid() && pending == [] && |words.slab| > 0
      modifies this
      ensures Valid() && pending == [] && words == Initialised(old(words))
      ensures images == old(images) + left && forall img :: img in left <==> InitImage(old(words), img)
    {
      ghost var m := words;
      var ws := InitStores(words);
      ghost var first := IssueAll(ws);
      ghost var second := Barrier();
      CrashAll(m, ws);
      ghost var third := IssueAll([SetMagic(CELL_HEADER_MAGIC)]);
      CrashAll(Apply(m, ws), [SetMagic(CELL_HEADER_MAGIC)]);
      assert Apply(Apply(m, ws), [SetMagic(CELL_HEADER_MAGIC)][..0]) == Apply(m, ws);
      ghost var fourth := Barrier();
      left := first + second + third + fourth;
    }

    /** cell_init */
    method Open(ghost geo: Geometry) returns (ghost left: iset<Words>)
      requires Valid() && pending == [] && Formed(words, geo)
      modifies this
      ensures Valid() && pending == [] && words == Reopen(old(words)) && Sane(words)
      ensures !Sane(old(words)) ==> HoldsCell(words, Empty(geo))
      ensures images == old(images) + left
      ensures forall img :: img in left <==> !Sane(old(words)) && InitImage(old(words), img)
    {
      left := iset{};
      if !Sane(words) {
        InitialisedEmpty(words, geo);
        left := HeaderInit();
      }
    }
  }
}
