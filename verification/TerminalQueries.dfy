/**
 * Reference definitions of the registry's queries, stated on the records in
 * iteration order, and the facts about them that hold across mutations.
 */
module TerminalQueries {
  import opened Wrappers
  import opened TerminalMetadata
  import opened OrderedTable

  /**
   * The registry's table is well formed when its key order lists exactly the
   * map's keys, each once, and every record is stored under its own handle.
   */
  ghost predicate WellFormed(ks: seq<string>, meta: map<string, Metadata>)
  {
    && Distinct(ks)
    && (forall k | k in ks :: k in meta)
    && (forall k | k in meta :: k in ks)
    && (forall k | k in meta :: meta[k].handle == k)
  }

  /** The records of the table in iteration order. */
  function Values(ks: seq<string>, meta: map<string, Metadata>): (es: seq<Metadata>)
    requires forall k | k in ks :: k in meta
  {
    seq(|ks|, i requires 0 <= i < |ks| => meta[ks[i]])
  }

  /** No record carries caption c. */
  predicate CaptionUnused(es: seq<Metadata>, c: string)
  {
    forall k | 0 <= k < |es| :: es[k].caption != c
  }

  /** Some record reports child processes. */
  predicate AnyChildProcs(es: seq<Metadata>)
  {
    exists k | 0 <= k < |es| :: es[k].childProcs
  }

  /** Position of the first record with caption c, or -1. */
  function FirstCaptionIndex(es: seq<Metadata>, c: string): (r: int)
    ensures -1 <= r < |es|
    ensures r == -1 <==> CaptionUnused(es, c)
    ensures 0 <= r ==> es[r].caption == c && CaptionUnused(es[..r], c)
  {
    if es == [] then -1
    else if es[0].caption == c then 0
    else
      var t := FirstCaptionIndex(es[1..], c);
      if t == -1 then -1
      else
        assert es[..t + 1] == [es[0]] + es[1..][..t];
        t + 1
  }

  /** Handle of the first record, in iteration order, whose caption is c. */
  function FirstHandleWithCaption(es: seq<Metadata>, c: string): (r: Option<string>)
    ensures r.None? <==> CaptionUnused(es, c)
    ensures r.Some? ==> exists k | 0 <= k < |es| ::
      es[k].caption == c && es[k].handle == r.value && CaptionUnused(es[..k], c)
  {
    var i := FirstCaptionIndex(es, c);
    if i < 0 then None else Some(es[i].handle)
  }

  /**
   * The largest sequence number among the records, starting from the
   * no-terminal sentinel and folding left to right.
   */
  function MaxSequence(es: seq<Metadata>): (r: int)
    ensures r >= SEQUENCE_NO_TERMINAL
    ensures forall k | 0 <= k < |es| :: es[k].sequence <= r
    ensures r == SEQUENCE_NO_TERMINAL || exists k | 0 <= k < |es| :: es[k].sequence == r
  {
    if es == [] then SEQUENCE_NO_TERMINAL
    else
      var prev := MaxSequence(es[..|es| - 1]);
      var last := es[|es| - 1].sequence;
      assert forall k | 0 <= k < |es| - 1 :: es[..|es| - 1][k] == es[k];
      if prev < last then last else prev
  }

  /**
   * The sequence number for the next terminal: above every number in use,
   * one past the sentinel on an empty table, and otherwise one past a number
   * in use or one past the sentinel.
   */
  function NextSequence(es: seq<Metadata>): (r: int)
    ensures forall k | 0 <= k < |es| :: es[k].sequence < r
    ensures r > SEQUENCE_NO_TERMINAL
    ensures es == [] ==> r == SEQUENCE_NO_TERMINAL + 1
    ensures r == SEQUENCE_NO_TERMINAL + 1 || exists k | 0 <= k < |es| :: es[k].sequence + 1 == r
  {
    MaxSequence(es) + 1
  }

  /** Looking a present handle up in iteration order finds its own record. */
  lemma ValuesAt(ks: seq<string>, meta: map<string, Metadata>, h: string)
    requires WellFormed(ks, meta) && h in meta
    ensures 0 <= IndexOf(ks, h) < |Values(ks, meta)|
    ensures Values(ks, meta)[IndexOf(ks, h)] == meta[h]
  {
  }

  /** A put keeps the table well formed. */
  lemma PutWellFormed(ks: seq<string>, meta: map<string, Metadata>, m: Metadata)
    requires WellFormed(ks, meta)
    ensures WellFormed(PutKeys(ks, m.handle), meta[m.handle := m])
  {
  }

  /** A removal keeps the table well formed. */
  lemma RemoveWellFormed(ks: seq<string>, meta: map<string, Metadata>, h: string)
    requires WellFormed(ks, meta)
    ensures WellFormed(Without(ks, h), meta - {h})
  {
    WithoutSpec(ks, h);
  }

  /** Putting a new record appends it to the records in iteration order. */
  lemma ValuesPutNew(ks: seq<string>, meta: map<string, Metadata>, m: Metadata)
    requires WellFormed(ks, meta) && m.handle !in meta
    ensures PutKeys(ks, m.handle) == ks + [m.handle]
    ensures Values(PutKeys(ks, m.handle), meta[m.handle := m]) == Values(ks, meta) + [m]
  {
    var ks' := ks + [m.handle];
    var meta' := meta[m.handle := m];
    var l, r := Values(ks', meta'), Values(ks, meta) + [m];
    forall i | 0 <= i < |ks'| ensures l[i] == r[i] {
      if i < |ks| {
        assert ks'[i] == ks[i] && ks[i] in meta;
      }
    }
  }

  /**
   * Sequence numbers are not reserved: when a new terminal numbered
   * NextSequence is put into the table and then removed, the next number is
   * its number again.
   */
  lemma SequenceReusedAfterRemovingNewest(ks: seq<string>, meta: map<string, Metadata>, m: Metadata)
    requires WellFormed(ks, meta) && m.handle !in meta
    requires m.sequence == NextSequence(Values(ks, meta))
    ensures NextSequence(Values(PutKeys(ks, m.handle), meta[m.handle := m])) == m.sequence + 1
    ensures NextSequence(Values(Without(PutKeys(ks, m.handle), m.handle), meta[m.handle := m] - {m.handle}))
         == m.sequence
  {
    var es := Values(ks, meta);
    ValuesPutNew(ks, meta, m);
    assert (es + [m])[..|es|] == es;
    assert MaxSequence(es + [m]) == m.sequence;
    WithoutDistinctAppend(ks, m.handle);
    assert meta[m.handle := m] - {m.handle} == meta;
  }

  /** After a put of record m, its caption is in use. */
  lemma CaptionTakenAfterPut(ks: seq<string>, meta: map<string, Metadata>, m: Metadata)
    requires WellFormed(ks, meta)
    ensures WellFormed(PutKeys(ks, m.handle), meta[m.handle := m])
    ensures !CaptionUnused(Values(PutKeys(ks, m.handle), meta[m.handle := m]), m.caption)
  {
    PutWellFormed(ks, meta, m);
    PutKeysSpec(ks, m.handle);
    var ks', meta' := PutKeys(ks, m.handle), meta[m.handle := m];
    ValuesAt(ks', meta', m.handle);
  }

  /**
   * After removing handle h, a caption that no other record carried is
   * free again.
   */
  lemma CaptionFreedAfterRemove(ks: seq<string>, meta: map<string, Metadata>, h: string, c: string)
    requires WellFormed(ks, meta)
    requires forall k | k in meta && k != h :: meta[k].caption != c
    ensures WellFormed(Without(ks, h), meta - {h})
    ensures CaptionUnused(Values(Without(ks, h), meta - {h}), c)
  {
    RemoveWellFormed(ks, meta, h);
    var ks' := Without(ks, h);
    forall k | 0 <= k < |ks'| ensures Values(ks', meta - {h})[k].caption != c {
      assert ks'[k] in ks';
    }
  }

  /**
   * Changing one record's child-process flag makes the aggregate busy
   * signal that flag or-ed with the flags of all other records.
   */
  lemma BusyAfterSetChildProcs(ks: seq<string>, meta: map<string, Metadata>, h: string, flag: bool)
    requires WellFormed(ks, meta) && h in meta
    ensures WellFormed(ks, meta[h := meta[h].(childProcs := flag)])
    ensures AnyChildProcs(Values(ks, meta[h := meta[h].(childProcs := flag)]))
        <==> flag || exists k | k in meta && k != h :: meta[k].childProcs
  {
    var meta' := meta[h := meta[h].(childProcs := flag)];
    var es' := Values(ks, meta');
    ValuesAt(ks, meta', h);
    if exists k | k in meta && k != h :: meta[k].childProcs {
      var k :| k in meta && k != h && meta[k].childProcs;
      ValuesAt(ks, meta', k);
    }
    if AnyChildProcs(es') {
      var i :| 0 <= i < |es'| && es'[i].childProcs;
      assert ks[i] in meta;
    }
  }
}
