/**
 * The client-side terminal registry: an insertion-ordered table from
 * terminal handle to metadata record, the queries that scan it, the
 * mutators that replace or delete records, and the decisions about which
 * remote sessions to start.
 *
 * The collaborators the registry calls and forgets are recorded as ghost
 * logs: `started` holds every session-start request, `reaped` every handle
 * whose process was asked to be interrupted and reaped, and `busyEvents`
 * every value published on the "terminals busy" event.
 */
module Terminal {
  import opened Wrappers
  import opened TerminalMetadata
  import opened OrderedTable
  import opened TerminalQueries

  class TerminalList {
    // The LinkedHashMap: its key order and its contents.
    var keys: seq<string>
    var meta: map<string, Metadata>

    ghost var started: seq<StartRequest>
    ghost var reaped: seq<string>
    ghost var busyEvents: seq<bool>

    ghost predicate Valid()
      reads this
    {
      WellFormed(keys, meta)
    }

    /** The records in iteration order. */
    function Entries(): (es: seq<Metadata>)
      reads this
      requires Valid()
    {
      Values(keys, meta)
    }

    /** An empty registry that has not yet called any collaborator. */
    constructor ()
      ensures Valid()
      ensures keys == [] && meta == map[]
      ensures started == [] && reaped == [] && busyEvents == []
    {
      keys, meta := [], map[];
      started, reaped, busyEvents := [], [], [];
    }

    /** The record stored under handle h; None for an unknown handle. */
    function GetMetadataForHandle(h: string): (r: Option<Metadata>)
      reads this
      requires Valid()
      ensures r.Some? <==> IndexOf(keys, h) >= 0
      ensures r.Some? ==> r.value == Entries()[IndexOf(keys, h)]
    {
      if h in meta then ValuesAt(keys, meta, h); Some(meta[h]) else None
    }

    /** Number of terminals: the size of the table. */
    function TerminalCount(): (n: nat)
      reads this
      requires Valid()
      ensures n == |meta| && n == |Entries()|
    {
      DistinctCard(keys);
      assert meta.Keys == set y | y in keys;
      |keys|
    }

    /** The handles, in iteration order: each known handle exactly once. */
    function Handles(): (r: seq<string>)
      reads this
      requires Valid()
      ensures r == keys
      ensures Distinct(r) && |r| == TerminalCount()
      ensures forall h | h in r :: h in meta
      ensures forall h | h in meta :: h in r
    {
      keys
    }

    /** Zero-based position of handle h in iteration order, -1 if unknown. */
    method IndexOfTerminal(h: string) returns (r: int)
      requires Valid()
      ensures r == IndexOf(keys, h)
      ensures r == -1 <==> h !in meta
    {
      var i := 0;
      while i < |keys|
        invariant 0 <= i <= |keys|
        invariant h !in keys[..i]
      {
        if meta[keys[i]].handle == h {
          FirstOccurrence(keys, h, i);
          return i;
        }
        i := i + 1;
      }
      return -1;
    }

    /** Handle at zero-based position i, None when i is out of range. */
    method TerminalHandleAtIndex(i: int) returns (r: Option<string>)
      requires Valid()
      ensures r == HandleAt(keys, i)
      ensures r.None? <==> i < 0 || i >= TerminalCount()
    {
      var j := 0;
      while j < |keys|
        invariant 0 <= j <= |keys|
        invariant i < 0 || j <= i
      {
        if i == j {
          return Some(meta[keys[j]].handle);
        }
        j := j + 1;
      }
      return None;
    }

    /** True when no terminal carries caption c. */
    method IsCaptionAvailable(c: string) returns (b: bool)
      requires Valid()
      ensures b == CaptionUnused(Entries(), c)
    {
      var i := 0;
      while i < |keys|
        invariant 0 <= i <= |keys|
        invariant forall k | 0 <= k < i :: meta[keys[k]].caption != c
      {
        if meta[keys[i]].caption == c {
          assert Entries()[i].caption == c;
          return false;
        }
        i := i + 1;
      }
      return true;
    }

    /** Handle of the first terminal in iteration order with caption c, None if there is none. */
    method HandleForCaption(c: string) returns (r: Option<string>)
      requires Valid()
      ensures r == FirstHandleWithCaption(Entries(), c)
      ensures r.None? <==> CaptionUnused(Entries(), c)
    {
      var i := 0;
      while i < |keys|
        invariant 0 <= i <= |keys|
        invariant forall k | 0 <= k < i :: meta[keys[k]].caption != c
      {
        if meta[keys[i]].caption == c {
          ghost var es := Entries();
          assert es[i].caption == c;
          assert CaptionUnused(es[..i], c);
          ghost var f := FirstCaptionIndex(es, c);
          assert f == i;
          return Some(meta[keys[i]].handle);
        }
        i := i + 1;
      }
      return None;
    }

    /** Whether any terminal reports child processes. */
    method HaveSubprocs() returns (b: bool)
      requires Valid()
      ensures b == AnyChildProcs(Entries())
    {
      var i := 0;
      while i < |keys|
        invariant 0 <= i <= |keys|
        invariant forall k | 0 <= k < i :: !meta[keys[k]].childProcs
      {
        if meta[keys[i]].childProcs {
          assert Entries()[i].childProcs;
          return true;
        }
        i := i + 1;
      }
      return false;
    }

    /** One more than the largest sequence number in use (or than the sentinel). */
    method NextTerminalSequence() returns (r: int)
      requires Valid()
      ensures r == NextSequence(Entries())
    {
      ghost var es := Entries();
      var maxNum := SEQUENCE_NO_TERMINAL;
      var i := 0;
      while i < |keys|
        invariant 0 <= i <= |keys|
        invariant maxNum == MaxSequence(es[..i])
      {
        var s := meta[keys[i]].sequence;
        assert es[..i + 1][..i] == es[..i];
        maxNum := if maxNum >= s then maxNum else s;
        i := i + 1;
      }
      assert es[..i] == es;
      return maxNum + 1;
    }

    /** Caption of terminal h; None for an unknown handle. */
    function GetCaption(h: string): (r: Option<string>)
      reads this
      requires Valid()
      ensures r.None? <==> IndexOf(keys, h) == -1
      ensures r.Some? ==> r.value == Entries()[IndexOf(keys, h)].caption
    {
      if h in meta then ValuesAt(keys, meta, h); Some(meta[h].caption) else None
    }

    /** Whether terminal h has child processes; an unknown handle counts as busy. */
    function GetHasSubprocs(h: string): (r: bool)
      reads this
      requires Valid()
      ensures IndexOf(keys, h) == -1 ==> r
      ensures IndexOf(keys, h) >= 0 ==> r == Entries()[IndexOf(keys, h)].childProcs
    {
      if h in meta then ValuesAt(keys, meta, h); meta[h].childProcs else true
    }

    /** Auto-close policy of terminal h; the default policy for an unknown handle. */
    function AutoCloseForHandle(h: string): (r: int)
      reads this
      requires Valid()
      ensures IndexOf(keys, h) == -1 ==> r == AUTOCLOSE_DEFAULT
      ensures IndexOf(keys, h) >= 0 ==> r == Entries()[IndexOf(keys, h)].autoCloseMode
    {
      if h in meta then ValuesAt(keys, meta, h); meta[h].autoCloseMode else AUTOCLOSE_DEFAULT
    }

    /** Publish the busy signal of the current state. */
    method UpdateTerminalBusyStatus()
      requires Valid()
      modifies this
      ensures Valid()
      ensures keys == old(keys) && meta == old(meta)
      ensures started == old(started) && reaped == old(reaped)
      ensures busyEvents == old(busyEvents) + [AnyChildProcs(Entries())]
    {
      var b := HaveSubprocs();
      busyEvents := busyEvents + [b];
    }

    /**
     * Put record m under its handle: a new handle goes last, a known handle
     * has its record replaced in place. Publishes the busy signal.
     */
    method AddTerminal(m: Metadata)
      requires Valid()
      modifies this
      ensures Valid()
      ensures keys == PutKeys(old(keys), m.handle)
      ensures meta == old(meta)[m.handle := m]
      ensures started == old(started) && reaped == old(reaped)
      ensures busyEvents == old(busyEvents) + [AnyChildProcs(Entries())]
    {
      PutWellFormed(keys, meta, m);
      keys, meta := PutKeys(keys, m.handle), meta[m.handle := m];
      UpdateTerminalBusyStatus();
    }

    /** Delete terminal h if present (nothing else changes). Publishes the busy signal. */
    method RemoveTerminal(h: string)
      requires Valid()
      modifies this
      ensures Valid()
      ensures keys == Without(old(keys), h)
      ensures meta == old(meta) - {h}
      ensures started == old(started) && reaped == old(reaped)
      ensures busyEvents == old(busyEvents) + [AnyChildProcs(Entries())]
    {
      RemoveWellFormed(keys, meta, h);
      keys, meta := Without(keys, h), meta - {h};
      UpdateTerminalBusyStatus();
    }

    /**
     * Ask for every terminal's process to be interrupted and reaped, in
     * iteration order, then empty the table. Publishes the busy signal.
     */
    method TerminateAll()
      requires Valid()
      modifies this
      ensures Valid()
      ensures keys == [] && meta == map[]
      ensures reaped == old(reaped) + old(keys)
      ensures started == old(started)
      ensures busyEvents == old(busyEvents) + [false]
    {
      var i := 0;
      while i < |keys|
        invariant 0 <= i <= |keys|
        invariant Valid() && keys == old(keys) && meta == old(meta)
        invariant started == old(started) && busyEvents == old(busyEvents)
        invariant reaped == old(reaped) + keys[..i]
      {
        assert keys[..i + 1] == keys[..i] + [keys[i]];
        reaped := reaped + [meta[keys[i]].handle];
        i := i + 1;
      }
      assert keys[..i] == keys;
      keys, meta := [], map[];
      UpdateTerminalBusyStatus();
    }

    /**
     * Change the title of terminal h. Returns false, changing nothing, when
     * h is unknown or already has title t; otherwise only that record's title
     * changes.
     */
    method RetitleTerminal(h: string, t: string) returns (changed: bool)
      requires Valid()
      modifies this
      ensures Valid()
      ensures changed <==> h in old(meta) && old(meta)[h].title != t
      ensures keys == old(keys)
      ensures meta == if changed then old(meta)[h := old(meta)[h].(title := t)] else old(meta)
      ensures started == old(started) && reaped == old(reaped)
      ensures busyEvents
           == if changed then old(busyEvents) + [AnyChildProcs(Entries())] else old(busyEvents)
    {
      var current := GetMetadataForHandle(h);
      if current.None? {
        return false;
      }
      if current.value.title != t {
        AddTerminal(current.value.(title := t));
        return true;
      }
      return false;
    }

    /** Same as RetitleTerminal, for the child-process flag. */
    method SetChildProcs(h: string, childProcs: bool) returns (changed: bool)
      requires Valid()
      modifies this
      ensures Valid()
      ensures changed <==> h in old(meta) && old(meta)[h].childProcs != childProcs
      ensures keys == old(keys)
      ensures meta
           == if changed then old(meta)[h := old(meta)[h].(childProcs := childProcs)] else old(meta)
      ensures started == old(started) && reaped == old(reaped)
      ensures busyEvents
           == if changed then old(busyEvents) + [AnyChildProcs(Entries())] else old(busyEvents)
    {
      var current := GetMetadataForHandle(h);
      if current.None? {
        return false;
      }
      if current.value.childProcs != childProcs {
        AddTerminal(current.value.(childProcs := childProcs));
        return true;
      }
      return false;
    }

    /** Same as RetitleTerminal, for the working directory, without a result. */
    method SetCwd(h: string, cwd: Option<string>)
      requires Valid()
      modifies this
      ensures Valid()
      ensures keys == old(keys)
      ensures meta == if h in old(meta) && old(meta)[h].cwd != cwd
                      then old(meta)[h := old(meta)[h].(cwd := cwd)] else old(meta)
      ensures started == old(started) && reaped == old(reaped)
      ensures busyEvents == if h in old(meta) && old(meta)[h].cwd != cwd
                            then old(busyEvents) + [AnyChildProcs(Entries())] else old(busyEvents)
    {
      var current := GetMetadataForHandle(h);
      if current.None? {
        return;
      }
      if current.value.cwd != cwd {
        AddTerminal(current.value.(cwd := cwd));
      }
    }

    /**
     * Handler for a "subprocess state changed" notification: update the flag,
     * then publish the busy signal (a second time when the flag changed).
     * The last published value is the new flag or-ed with all other flags.
     */
    method OnTerminalSubprocs(h: string, childProcs: bool)
      requires Valid()
      modifies this
      ensures Valid()
      ensures keys == old(keys)
      ensures meta == if h in old(meta) && old(meta)[h].childProcs != childProcs
                      then old(meta)[h := old(meta)[h].(childProcs := childProcs)] else old(meta)
      ensures started == old(started) && reaped == old(reaped)
      ensures var b := AnyChildProcs(Entries());
              busyEvents == old(busyEvents) + (if h in old(meta) && old(meta)[h].childProcs != childProcs
                                               then [b, b] else [b])
      ensures h in old(meta) ==>
                (busyEvents[|busyEvents| - 1]
                 <==> childProcs || exists k | k in old(meta) && k != h :: old(meta)[k].childProcs)
    {
      ghost var keys0, meta0 := keys, meta;
      if h in meta {
        BusyAfterSetChildProcs(keys, meta, h, childProcs);
      }
      var _ := SetChildProcs(h, childProcs);
      UpdateTerminalBusyStatus();
      if h in meta0 {
        assert meta == meta0[h := meta0[h].(childProcs := childProcs)];
        assert busyEvents[|busyEvents| - 1] == AnyChildProcs(Values(keys0, meta));
      }
    }

    /** Handler for a "working directory changed" notification. */
    method OnTerminalCwd(h: string, cwd: Option<string>)
      requires Valid()
      modifies this
      ensures Valid()
      ensures keys == old(keys)
      ensures meta == if h in old(meta) && old(meta)[h].cwd != cwd
                      then old(meta)[h := old(meta)[h].(cwd := cwd)] else old(meta)
      ensures started == old(started) && reaped == old(reaped)
      ensures busyEvents == if h in old(meta) && old(meta)[h].cwd != cwd
                            then old(busyEvents) + [AnyChildProcs(Entries())] else old(busyEvents)
    {
      SetCwd(h, cwd);
    }

    /** Hand request req to the session starter and publish the busy signal. */
    method StartTerminal(req: StartRequest)
      requires Valid()
      modifies this
      ensures Valid()
      ensures keys == old(keys) && meta == old(meta) && reaped == old(reaped)
      ensures started == old(started) + [req]
      ensures busyEvents == old(busyEvents) + [AnyChildProcs(Entries())]
    {
      started := started + [req];
      UpdateTerminalBusyStatus();
    }

    /**
     * Request a new unnamed terminal numbered one past the largest sequence
     * in use. The table itself is not changed.
     */
    method CreateNewTerminal(blink: bool)
      requires Valid()
      modifies this
      ensures Valid()
      ensures keys == old(keys) && meta == old(meta) && reaped == old(reaped)
      ensures started == old(started) + [NewSessionRequest(NextSequence(Entries()), None, blink)]
      ensures busyEvents == old(busyEvents) + [AnyChildProcs(Entries())]
    {
      var sequence := NextTerminalSequence();
      StartTerminal(NewSessionRequest(sequence, None, blink));
    }

    /**
     * Request a new terminal with the given caption. An absent or empty
     * caption asks for an unnamed terminal; a caption already in use starts
     * nothing and returns false. The table itself is not changed.
     */
    method CreateNamedTerminal(caption: Option<string>, blink: bool) returns (ok: bool)
      requires Valid()
      modifies this
      ensures Valid()
      ensures ok <==> IsNullOrEmpty(caption) || CaptionUnused(Entries(), caption.value)
      ensures keys == old(keys) && meta == old(meta) && reaped == old(reaped)
      ensures started == old(started) +
        if !ok then []
        else [NewSessionRequest(NextSequence(Entries()), if IsNullOrEmpty(caption) then None else caption, blink)]
      ensures busyEvents == old(busyEvents) + if ok then [AnyChildProcs(Entries())] else []
    {
      if IsNullOrEmpty(caption) {
        CreateNewTerminal(blink);
        return true;
      }
      var available := IsCaptionAvailable(caption.value);
      if !available {
        return false;
      }
      var sequence := NextTerminalSequence();
      StartTerminal(NewSessionRequest(sequence, caption, blink));
      return true;
    }

    /**
     * Resume the session of a known terminal, with every field of its
     * stored record. Returns false, starting nothing, for an unknown handle.
     */
    method ReconnectTerminal(h: string, blink: bool) returns (ok: bool)
      requires Valid()
      modifies this
      ensures Valid()
      ensures ok <==> h in old(meta)
      ensures keys == old(keys) && meta == old(meta) && reaped == old(reaped)
      ensures started == old(started) + if ok then [ReconnectRequest(h, meta[h], blink)] else []
      ensures busyEvents == old(busyEvents) + if ok then [AnyChildProcs(Entries())] else []
    {
      var existing := GetMetadataForHandle(h);
      if existing.None? {
        return false;
      }
      StartTerminal(ReconnectRequest(h, existing.value, blink));
      return true;
    }
  }
}
