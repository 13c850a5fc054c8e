/** What one insertion does to the cell seen as a map from checksums to chunks. */
module RingMap {
  import opened Types
  import opened Ring
  import opened RingInvariant

  /** The chunks of a chain, by checksum. */
  function Contents(entries: seq<Entry>): map<Checksum, seq<byte>> {
    if entries == [] then map[]
    else
      var last := entries[|entries| - 1];
      var rest := Contents(entries[..|entries| - 1]);
      if last.Used? then rest[last.key := last.data] else rest
  }

  lemma {:induction false} ContentsAt(entries: seq<Entry>, i: nat)
    requires DistinctKeys(entries) && i < |entries| && entries[i].Used?
    ensures entries[i].key in Contents(entries) && Contents(entries)[entries[i].key] == entries[i].data
  {
    var n := |entries| - 1;
    if i < n {
      assert entries[..n][i] == entries[i];
      ContentsAt(entries[..n], i);
    }
  }

  lemma {:induction false} ContentsFrom(entries: seq<Entry>, k: Checksum) returns (i: nat)
    requires k in Contents(entries)
    ensures i < |entries| && entries[i].Used? && entries[i].key == k && entries[i].data == Contents(entries)[k]
  {
    var n := |entries| - 1;
    if entries[n].Used? && entries[n].key == k {
      i := n;
    } else {
      i := ContentsFrom(entries[..n], k);
    }
  }

  /** The directory records are those of the chunks, and lead to them. */
  lemma ContentsIndexed(s: State)
    requires Rewound(s)
    ensures Contents(s.entries).Keys == s.dir.at.Keys
    ensures forall i | 0 <= i < |s.entries| && s.entries[i].Used? ::
              s.entries[i].key in s.dir.at && s.dir.at[s.entries[i].key] == s.entries[i].off
  {
    CoreDir(s, {});
    CoreKeys(s, {});
    forall i | 0 <= i < |s.entries| && s.entries[i].Used?
      ensures s.entries[i].key in s.dir.at && s.entries[i].key in Contents(s.entries)
    {
      ContentsAt(s.entries, i);
      assert s.entries[i] in s.entries;
    }
    forall k | k in Contents(s.entries) ensures k in s.dir.at {
      var i := ContentsFrom(s.entries, k);
      assert s.entries[i] in s.entries;
    }
    forall k | k in s.dir.at ensures k in Contents(s.entries) {
      var i :| 0 <= i < |s.entries| && s.entries[i].Used? && s.entries[i].key == k;
    }
  }

  /** The entry that a record leads to. */
  lemma RecordLeads(s: State, k: Checksum) returns (i: nat)
    requires Rewound(s) && k in s.dir.at
    ensures i < |s.entries| && s.entries[i].Used? && s.entries[i].key == k && s.entries[i].off == s.dir.at[k]
    ensures k in Contents(s.entries) && Contents(s.entries)[k] == s.entries[i].data
  {
    ContentsIndexed(s);
    i := ContentsFrom(s.entries, k);
  }
}
