/** How a chain of entries lies in slab memory. */
module Layout {
  import opened Types
  import opened Ring
  import opened Slab

  function HeadOf(e: Entry, prev: nat): Slot {
    if e.Used? then Head(e.key, false, false, |e.data|, prev) else Head(ZERO_CHECKSUM, true, false, e.room, prev)
  }

  ghost predicate OpenEntry(k: nat) {
    true
  }

  ghost predicate OpenHead(k: nat) {
    true
  }

  /** Entry e lies in memory, its header naming the size of the entry before it. */
  ghost predicate EntryAt(mem: seq<Slot>, e: Entry, prev: nat) {
    && e.End() <= |mem|
    && mem[e.off] == HeadOf(e, prev)
    && forall k: nat {:trigger OpenEntry(k)} :: OpenEntry(k) ==>
         && mem[e.off..e.off + ENTRY_SIZE] == Image(HeadOf(e, prev))
         && (e.Used? ==> mem[e.off + ENTRY_SIZE..e.End()] == Payload(e.data))
  }

  /** EntryAt as a property of an entry and the size before it. */
  ghost function At(mem: seq<Slot>): (Entry, nat) -> bool {
    (e: Entry, prev: nat) => EntryAt(mem, e, prev)
  }

  /** The top entry: free, of size 0, with whatever checksum it has. */
  ghost predicate TopAt(mem: seq<Slot>, top: nat, prev: nat) {
    && top + ENTRY_SIZE <= |mem|
    && mem[top].Head? && mem[top] == Head(mem[top].key, true, true, 0, prev)
    && forall k: nat {:trigger OpenHead(k)} :: OpenHead(k) ==> mem[top..top + ENTRY_SIZE] == Image(mem[top])
  }

  function PrevSize(entries: seq<Entry>, i: nat): nat
    requires i <= |entries|
  {
    if i == 0 then 0 else entries[i - 1].Size()
  }

  ghost predicate OpenLaid(k: nat) {
    true
  }

  ghost predicate LaidRange(mem: seq<Slot>, entries: seq<Entry>, lo: nat, hi: nat)
    requires hi <= |entries|
  {
    forall k: nat {:trigger OpenLaid(k)} :: OpenLaid(k) ==>
      forall i | lo <= i < hi :: At(mem)(entries[i], PrevSize(entries, i))
  }

  lemma LaidAt(mem: seq<Slot>, entries: seq<Entry>, lo: nat, hi: nat, i: nat)
    requires hi <= |entries| && LaidRange(mem, entries, lo, hi) && lo <= i < hi
    ensures EntryAt(mem, entries[i], PrevSize(entries, i))
  {
    assert OpenLaid(0);
    assert At(mem)(entries[i], PrevSize(entries, i));
  }

  lemma LaidPart(mem: seq<Slot>, entries: seq<Entry>, lo: nat, hi: nat, lo': nat, hi': nat)
    requires hi <= |entries| && LaidRange(mem, entries, lo, hi) && lo <= lo' && hi' <= hi
    ensures LaidRange(mem, entries, lo', hi')
  {
    assert OpenLaid(0);
  }

  /** Every entry lies in memory, and every header names the size of its predecessor. */
  ghost predicate Laid(mem: seq<Slot>, entries: seq<Entry>, top: nat) {
    LaidRange(mem, entries, 0, |entries|) && TopAt(mem, top, PrevSize(entries, |entries|))
  }

  // ----- entries that a change of memory leaves alone ----------------------------------------------

  lemma EntryKept(mem: seq<Slot>, mem': seq<Slot>, e: Entry, prev: nat, n: nat)
    requires EntryAt(mem, e, prev) && SameBelow(mem, mem', n) && e.End() <= n
    ensures EntryAt(mem', e, prev)
  {
    assert OpenEntry(0);
    PrefixKeeps(mem, mem', n, e.off, e.off + ENTRY_SIZE);
    assert mem'[e.off..e.off + ENTRY_SIZE][0] == mem'[e.off];
    PrefixKeeps(mem, mem', n, e.off + ENTRY_SIZE, e.End());
  }

  lemma TopKept(mem: seq<Slot>, mem': seq<Slot>, top: nat, prev: nat, n: nat)
    requires TopAt(mem, top, prev) && SameBelow(mem, mem', n) && top + ENTRY_SIZE <= n
    ensures TopAt(mem', top, prev)
  {
    assert OpenHead(0);
    PrefixKeeps(mem, mem', n, top, top + ENTRY_SIZE);
    assert mem'[top..top + ENTRY_SIZE][0] == mem'[top];
  }

  lemma RangeKept(mem: seq<Slot>, mem': seq<Slot>, entries: seq<Entry>, lo: nat, hi: nat, n: nat)
    requires hi <= |entries| && LaidRange(mem, entries, lo, hi) && SameBelow(mem, mem', n)
    requires forall i | lo <= i < hi :: entries[i].End() <= n
    ensures LaidRange(mem', entries, lo, hi)
  {
    forall i | lo <= i < hi ensures At(mem')(entries[i], PrevSize(entries, i)) {
      LaidAt(mem, entries, lo, hi, i);
      EntryKept(mem, mem', entries[i], PrevSize(entries, i), n);
    }
  }

  /** A write beside an entry leaves it alone. */
  lemma EntryBeside(mem: seq<Slot>, p: nat, xs: seq<Slot>, e: Entry, prev: nat)
    requires EntryAt(mem, e, prev) && p + |xs| <= |mem| && (e.End() <= p || p + |xs| <= e.off)
    ensures EntryAt(Write(mem, p, xs), e, prev)
  {
    assert OpenEntry(0);
    WriteKeeps(mem, p, xs, e.off, e.off + ENTRY_SIZE);
    assert Write(mem, p, xs)[e.off..e.off + ENTRY_SIZE][0] == Write(mem, p, xs)[e.off];
    WriteKeeps(mem, p, xs, e.off + ENTRY_SIZE, e.End());
  }

  lemma TopBeside(mem: seq<Slot>, p: nat, xs: seq<Slot>, top: nat, prev: nat)
    requires TopAt(mem, top, prev) && p + |xs| <= |mem| && (top + ENTRY_SIZE <= p || p + |xs| <= top)
    ensures TopAt(Write(mem, p, xs), top, prev)
  {
    assert OpenHead(0);
    WriteKeeps(mem, p, xs, top, top + ENTRY_SIZE);
    assert Write(mem, p, xs)[top..top + ENTRY_SIZE][0] == Write(mem, p, xs)[top];
  }

  lemma RangeBeside(mem: seq<Slot>, p: nat, xs: seq<Slot>, entries: seq<Entry>, lo: nat, hi: nat)
    requires hi <= |entries| && LaidRange(mem, entries, lo, hi) && p + |xs| <= |mem|
    requires forall i | lo <= i < hi :: entries[i].End() <= p || p + |xs| <= entries[i].off
    ensures LaidRange(Write(mem, p, xs), entries, lo, hi)
  {
    forall i | lo <= i < hi ensures At(Write(mem, p, xs))(entries[i], PrevSize(entries, i)) {
      LaidAt(mem, entries, lo, hi, i);
      EntryBeside(mem, p, xs, entries[i], PrevSize(entries, i));
    }
  }

  /** Nor does a change of p..q reach entries beside it. */
  lemma RangeBut(mem: seq<Slot>, mem': seq<Slot>, p: nat, q: nat, entries: seq<Entry>, lo: nat, hi: nat)
    requires hi <= |entries| && LaidRange(mem, entries, lo, hi) && SameBut(mem, mem', p, q)
    requires forall i | lo <= i < hi :: entries[i].End() <= p || q <= entries[i].off
    ensures LaidRange(mem', entries, lo, hi)
  {
    forall i | lo <= i < hi ensures At(mem')(entries[i], PrevSize(entries, i)) {
      LaidAt(mem, entries, lo, hi, i);
      EntryBut(mem, mem', p, q, entries[i], PrevSize(entries, i));
    }
  }

  lemma EntryBut(mem: seq<Slot>, mem': seq<Slot>, p: nat, q: nat, e: Entry, prev: nat)
    requires EntryAt(mem, e, prev) && SameBut(mem, mem', p, q) && (e.End() <= p || q <= e.off)
    ensures EntryAt(mem', e, prev)
  {
    assert OpenEntry(0);
    ButKeeps(mem, mem', p, q, e.off, e.off + ENTRY_SIZE);
    assert mem'[e.off..e.off + ENTRY_SIZE][0] == mem'[e.off];
    ButKeeps(mem, mem', p, q, e.off + ENTRY_SIZE, e.End());
  }

  lemma TopBut(mem: seq<Slot>, mem': seq<Slot>, p: nat, q: nat, top: nat, prev: nat)
    requires TopAt(mem, top, prev) && SameBut(mem, mem', p, q) && q <= top
    ensures TopAt(mem', top, prev)
  {
    assert OpenHead(0);
    ButKeeps(mem, mem', p, q, top, top + ENTRY_SIZE);
    assert mem'[top..top + ENTRY_SIZE][0] == mem'[top];
  }

  // ----- headers written in place ------------------------------------------------------------------

  /** A header at off, whatever it says. */
  ghost predicate HeadAt(mem: seq<Slot>, off: nat, h: Slot) {
    && h.Head? && off + ENTRY_SIZE <= |mem| && mem[off] == h
    && forall k: nat {:trigger OpenHead(k)} :: OpenHead(k) ==> mem[off..off + ENTRY_SIZE] == Image(h)
  }

  lemma EntryHead(mem: seq<Slot>, e: Entry, prev: nat)
    requires EntryAt(mem, e, prev)
    ensures HeadAt(mem, e.off, HeadOf(e, prev))
  {
    assert OpenEntry(0);
  }

  lemma HeadKept(mem: seq<Slot>, mem': seq<Slot>, off: nat, h: Slot, n: nat)
    requires HeadAt(mem, off, h) && SameBelow(mem, mem', n) && off + ENTRY_SIZE <= n
    ensures HeadAt(mem', off, h)
  {
    assert OpenHead(0);
    PrefixKeeps(mem, mem', n, off, off + ENTRY_SIZE);
    assert mem'[off..off + ENTRY_SIZE][0] == mem'[off];
  }

  lemma TopIsHead(mem: seq<Slot>, top: nat, key: Checksum, prev: nat)
    requires HeadAt(mem, top, Head(key, true, true, 0, prev))
    ensures TopAt(mem, top, prev)
  {
  }

  // ----- chains put together -------------------------------------------------------------------------

  function SpliceItem(entries: seq<Entry>, i: nat, j: nat, mid: seq<Entry>, a: nat): Entry
    requires i <= j <= |entries| && a < i + |mid| + |entries| - j
  {
    if a < i then entries[a] else if a < i + |mid| then mid[a - i] else entries[a - i - |mid| + j]
  }

  /** es is entries[..i] + mid + entries[j..n]. */
  ghost predicate IsSplice(es: seq<Entry>, entries: seq<Entry>, i: nat, j: nat, mid: seq<Entry>, n: nat)
    requires i <= j <= n <= |entries|
  {
    && |es| == i + |mid| + n - j
    && forall a {:trigger es[a]} | 0 <= a < |es| :: es[a] == SpliceItem(entries, i, j, mid, a)
  }

  function PrevAfter(prev: nat, mid: seq<Entry>, k: nat): nat
    requires k <= |mid|
  {
    if k == 0 then prev else mid[k - 1].Size()
  }

  ghost predicate MidLaid(mem: seq<Slot>, mid: seq<Entry>, prev: nat) {
    forall k | 0 <= k < |mid| :: At(mem)(mid[k], PrevAfter(prev, mid, k))
  }

  lemma SplicePrev(es: seq<Entry>, entries: seq<Entry>, i: nat, j: nat, mid: seq<Entry>, n: nat, a: nat)
    requires i <= j <= n <= |entries| && |mid| > 0 && IsSplice(es, entries, i, j, mid, n) && a <= |es|
    ensures PrevSize(es, a) == if a < i then PrevSize(entries, a)
                               else if a < i + |mid| then PrevAfter(PrevSize(entries, i), mid, a - i)
                               else if a == i + |mid| then mid[|mid| - 1].Size()
                               else PrevSize(entries, a - i - |mid| + j)
  {
    if a > 0 {
      assert es[a - 1] == SpliceItem(entries, i, j, mid, a - 1);
    }
  }

  /** A property of an entry and the size before it carries over to a splice. */
  lemma SpliceAll(P: (Entry, nat) -> bool, es: seq<Entry>, entries: seq<Entry>, i: nat, j: nat, mid: seq<Entry>, n: nat)
    requires i <= j <= n <= |entries| && |mid| > 0 && IsSplice(es, entries, i, j, mid, n)
    requires forall a | 0 <= a < i :: P(entries[a], PrevSize(entries, a))
    requires forall k | 0 <= k < |mid| :: P(mid[k], PrevAfter(PrevSize(entries, i), mid, k))
    requires j < n ==> P(entries[j], mid[|mid| - 1].Size())
    requires forall a | j < a < n :: P(entries[a], PrevSize(entries, a))
    ensures forall a | 0 <= a < |es| :: P(es[a], PrevSize(es, a))
  {
    forall a | 0 <= a < |es| ensures P(es[a], PrevSize(es, a)) {
      SplicePrev(es, entries, i, j, mid, n, a);
      assert es[a] == SpliceItem(entries, i, j, mid, a);
    }
  }

  lemma LaidIntro(mem: seq<Slot>, es: seq<Entry>, top: nat, prev: nat)
    requires LaidRange(mem, es, 0, |es|) && TopAt(mem, top, prev) && prev == PrevSize(es, |es|)
    ensures Laid(mem, es, top)
  {
  }

  /** A splice lies in memory when its parts do and the links between them are right. */
  lemma LaidSplice(mem: seq<Slot>, es: seq<Entry>, entries: seq<Entry>, i: nat, j: nat, mid: seq<Entry>, n: nat,
                   top: nat, prev: nat)
    requires i <= j <= n <= |entries| && |mid| > 0 && IsSplice(es, entries, i, j, mid, n)
    requires LaidRange(mem, entries, 0, i) && MidLaid(mem, mid, PrevSize(entries, i))
    requires j < n ==> At(mem)(entries[j], mid[|mid| - 1].Size())
    requires LaidRange(mem, entries, j + 1, n)
    requires TopAt(mem, top, prev) && prev == if j < n then entries[n - 1].Size() else mid[|mid| - 1].Size()
    ensures Laid(mem, es, top)
  {
    SpliceRange(mem, es, entries, i, j, mid, n);
    SplicePrevLast(es, entries, i, j, mid, n);
    LaidIntro(mem, es, top, prev);
  }

  lemma SplicePrevLast(es: seq<Entry>, entries: seq<Entry>, i: nat, j: nat, mid: seq<Entry>, n: nat)
    requires i <= j <= n <= |entries| && |mid| > 0 && IsSplice(es, entries, i, j, mid, n)
    ensures PrevSize(es, |es|) == if j < n then entries[n - 1].Size() else mid[|mid| - 1].Size()
  {
    SplicePrev(es, entries, i, j, mid, n, |es|);
  }

  lemma SpliceRange(mem: seq<Slot>, es: seq<Entry>, entries: seq<Entry>, i: nat, j: nat, mid: seq<Entry>, n: nat)
    requires i <= j <= n <= |entries| && |mid| > 0 && IsSplice(es, entries, i, j, mid, n)
    requires LaidRange(mem, entries, 0, i) && MidLaid(mem, mid, PrevSize(entries, i))
    requires j < n ==> At(mem)(entries[j], mid[|mid| - 1].Size())
    requires LaidRange(mem, entries, j + 1, n)
    ensures LaidRange(mem, es, 0, |es|)
  {
    assert OpenLaid(0);
    SpliceAll(At(mem), es, entries, i, j, mid, n);
  }

  lemma SpliceIs(entries: seq<Entry>, i: nat, j: nat, mid: seq<Entry>, n: nat)
    requires i <= j <= n <= |entries|
    ensures IsSplice(entries[..i] + mid + entries[j..n], entries, i, j, mid, n)
  {
  }

  lemma LaidPrefix(mem: seq<Slot>, entries: seq<Entry>, n: nat, top: nat)
    requires n <= |entries| && LaidRange(mem, entries, 0, n) && TopAt(mem, top, PrevSize(entries, n))
    ensures Laid(mem, entries[..n], top)
  {
    PrefixAll(At(mem), entries, n);
    assert PrevSize(entries[..n], n) == PrevSize(entries, n);
    LaidIntro(mem, entries[..n], top, PrevSize(entries, n));
  }

  lemma PrefixAll(P: (Entry, nat) -> bool, entries: seq<Entry>, n: nat)
    requires n <= |entries|
    ensures forall a | 0 <= a < n :: PrevSize(entries[..n], a) == PrevSize(entries, a)
    ensures (forall a | 0 <= a < n :: P(entries[a], PrevSize(entries, a))) ==>
            forall a | 0 <= a < n :: P(entries[..n][a], PrevSize(entries[..n], a))
  {
  }
}
