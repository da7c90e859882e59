# RStudio client terminal registry, in Dafny

This project models `TerminalList`, the RStudio browser client's registry of
interactive terminal sessions. The registry is an insertion-ordered table
(a Java `LinkedHashMap`) from terminal handle to an immutable metadata
record. The record holds the caption, title, sequence number, child-process
flag, dimensions, shell type, alternate-buffer flag, working directory,
auto-close policy and zombie flag. On top of the table the registry offers:

- mutators that put, remove or clear entries, and that rebuild a record with
  one field changed (title, child-process flag, working directory);
- linear-scan queries (index of a handle, handle at an index, caption
  availability, handle for a caption, "any terminal busy", next sequence
  number);
- lookups that return fixed fallback values for unknown handles;
- the decisions to ask the session starter for a new, named or resumed
  session;
- a "terminals busy" event published after every mutation.

Files:

- `Wrappers.dfy`: `Option`, used where Java returns or passes `null`.
- `TerminalMetadata.dfy`: the record as a datatype, the start request handed
  to the session starter, and the collaborators' constants
  (`SEQUENCE_NO_TERMINAL`, `AUTOCLOSE_DEFAULT`, `DEFAULT_COLS`,
  `DEFAULT_ROWS`, `SHELL_DEFAULT`). Their values are defined outside the
  registry, so they are declared without a value and the proofs hold for
  any value.
- `OrderedTable.dfy`: the key order of the `LinkedHashMap` as a sequence of
  distinct handles. It defines position lookup, re-insertion and removal,
  and proves that they are inverse or order-preserving.
- `TerminalQueries.dfy`: reference definitions of the queries, over the
  records in iteration order, and lemmas about how they change across puts
  and removals.
- `TerminalList.dfy`: the class `TerminalList`. Its fields are `keys` (the
  iteration order) and `meta` (the map). The loops of the source are `while`
  loops proved against the reference definitions. The three collaborators
  are ghost logs: `started` (session-start requests), `reaped`
  (interrupt-and-reap requests) and `busyEvents` (published busy values).

Behaviours worth noting, as the code has them:

- `getCaption` returns `null` (here `None`) for an unknown handle, as its
  Javadoc says ("null if no such handle", TerminalList.java:518-521).
- Sequence numbers can be handed out again. The next number is one past the
  largest number currently present, and the code does not try to fill gaps
  (TerminalList.java:561-565). So putting the newest terminal into the table
  and removing it again makes its number the next one again;
  `SequenceReusedAfterRemovingNewest` proves this over the table operations.
- `createNamedTerminal` only asks for a session to be started. It does not
  add a record; the record arrives later through `addTerminal`. So a second
  `createNamedTerminal` with the same caption succeeds until that happens.

## Model

| member | source | states |
|---|---|---|
| `OrderedTable.IndexOf` | src/gwt/src/org/rstudio/studio/client/workbench/views/terminal/TerminalList.java:337-355 | the result is -1 exactly when the handle is absent; otherwise the handle is at that position and does not occur before it |
| `OrderedTable.FirstOccurrence` | src/gwt/src/org/rstudio/studio/client/workbench/views/terminal/TerminalList.java:342-355 | a position holding the handle with no earlier occurrence is the index found |
| `OrderedTable.IndexHandleInverse` | src/gwt/src/org/rstudio/studio/client/workbench/views/terminal/TerminalList.java:337-374 | the handle at the index of a present handle is that handle; the handle at an index is absent exactly when the index is negative or at least the count; the index of the handle at a valid index is that index |
| `OrderedTable.IndexOfAppend` | src/gwt/src/org/rstudio/studio/client/workbench/views/terminal/TerminalList.java:628-633 | appending a key leaves the index of every earlier key unchanged |
| `OrderedTable.PutKeysSpec` | src/gwt/src/org/rstudio/studio/client/workbench/views/terminal/TerminalList.java:598-602 | a put of a new handle appends it last and raises the count by one; a put of a known handle leaves the order as it was; every present key keeps its index; keys stay distinct |
| `OrderedTable.Without` | src/gwt/src/org/rstudio/studio/client/workbench/views/terminal/TerminalList.java:304-312 | after removal the keys are exactly the old keys other than the removed handle |
| `OrderedTable.WithoutAbsent` | src/gwt/src/org/rstudio/studio/client/workbench/views/terminal/TerminalList.java:304-312 | removing an absent handle leaves the order unchanged |
| `OrderedTable.WithoutPresent` | src/gwt/src/org/rstudio/studio/client/workbench/views/terminal/TerminalList.java:304-312 | removing a present handle cuts out exactly its position; the keys before and after keep their relative order |
| `OrderedTable.WithoutDistinct` | src/gwt/src/org/rstudio/studio/client/workbench/views/terminal/TerminalList.java:304-312 | removing a handle from a key order without repetitions leaves one without repetitions |
| `OrderedTable.WithoutDistinctAppend` | src/gwt/src/org/rstudio/studio/client/workbench/views/terminal/TerminalList.java:304-312 | removing the handle just appended restores the previous key order |
| `OrderedTable.WithoutSpec` | src/gwt/src/org/rstudio/studio/client/workbench/views/terminal/TerminalList.java:304-312 | removal keeps keys distinct; it changes nothing for an absent handle and lowers the count by one for a present one |
| `OrderedTable.WithoutShiftsIndex` | src/gwt/src/org/rstudio/studio/client/workbench/views/terminal/TerminalList.java:304-312 | after a removal, keys before the removed one keep their index and keys after it move down by one |
| `OrderedTable.DistinctCard` | src/gwt/src/org/rstudio/studio/client/workbench/views/terminal/TerminalList.java:328-335 | a key order without repetitions has as many entries as distinct keys |
| `TerminalQueries.FirstCaptionIndex` | src/gwt/src/org/rstudio/studio/client/workbench/views/terminal/TerminalList.java:394-409 | -1 exactly when no record has the caption; otherwise a record with that caption, with none before it |
| `TerminalQueries.FirstHandleWithCaption` | src/gwt/src/org/rstudio/studio/client/workbench/views/terminal/TerminalList.java:394-409 | absent exactly when the caption is unused; otherwise the handle of the first record carrying the caption |
| `TerminalQueries.MaxSequence` | src/gwt/src/org/rstudio/studio/client/workbench/views/terminal/TerminalList.java:567-575 | at least the sentinel and every present sequence, and equal to the sentinel or to some present sequence |
| `TerminalQueries.NextSequence` | src/gwt/src/org/rstudio/studio/client/workbench/views/terminal/TerminalList.java:561-575 | exceeds every present sequence and the sentinel; equals sentinel + 1 on an empty table; otherwise is sentinel + 1 or one past a present sequence |
| `TerminalQueries.SequenceReusedAfterRemovingNewest` | src/gwt/src/org/rstudio/studio/client/workbench/views/terminal/TerminalList.java:561-575 | after a new terminal numbered with the next sequence is put into the table, the next sequence is one past it; after that terminal is removed again, the next sequence is its number again (numbers are not reserved) |
| `TerminalQueries.ValuesPutNew` | src/gwt/src/org/rstudio/studio/client/workbench/views/terminal/TerminalList.java:598-602 | putting a new handle appends its key last and its record last in iteration order |
| `TerminalQueries.ValuesAt` | src/gwt/src/org/rstudio/studio/client/workbench/views/terminal/TerminalList.java:425-433 | the record at a handle's index in iteration order is the record stored under that handle |
| `TerminalQueries.PutWellFormed` | src/gwt/src/org/rstudio/studio/client/workbench/views/terminal/TerminalList.java:598-602 | after a put, the key order still lists each map key exactly once and every record sits under its own handle |
| `TerminalQueries.RemoveWellFormed` | src/gwt/src/org/rstudio/studio/client/workbench/views/terminal/TerminalList.java:304-312 | after a removal, the key order still lists each map key exactly once and every record sits under its own handle |
| `TerminalQueries.CaptionTakenAfterPut` | src/gwt/src/org/rstudio/studio/client/workbench/views/terminal/TerminalList.java:376-392 | after a put of a record, its caption is no longer available, and the table stays well formed |
| `TerminalQueries.CaptionFreedAfterRemove` | src/gwt/src/org/rstudio/studio/client/workbench/views/terminal/TerminalList.java:376-392 | after removing a handle, a caption that no other record carried is available again |
| `TerminalQueries.BusyAfterSetChildProcs` | src/gwt/src/org/rstudio/studio/client/workbench/views/terminal/TerminalList.java:546-559 | after one record's child-process flag is set, "any busy" is that flag or-ed with every other record's flag |
| `Terminal.TerminalList.constructor` | src/gwt/src/org/rstudio/studio/client/workbench/views/terminal/TerminalList.java:184-189 | a new registry is empty and has called no collaborator |
| `Terminal.TerminalList.GetMetadataForHandle` | src/gwt/src/org/rstudio/studio/client/workbench/views/terminal/TerminalList.java:425-433 | None exactly for a handle whose index is -1; otherwise the record at the handle's index in iteration order |
| `Terminal.TerminalList.TerminalCount` | src/gwt/src/org/rstudio/studio/client/workbench/views/terminal/TerminalList.java:328-335 | the count is the size of the map and the number of records in iteration order |
| `Terminal.TerminalList.Handles` | src/gwt/src/org/rstudio/studio/client/workbench/views/terminal/TerminalList.java:609-613 | iteration yields the handles in the key order that puts and removals maintain (first insertion order), each known handle exactly once and nothing else |
| `Terminal.TerminalList.IndexOfTerminal` | src/gwt/src/org/rstudio/studio/client/workbench/views/terminal/TerminalList.java:337-355 | the scan returns the handle's position in iteration order, and -1 exactly when the handle is unknown |
| `Terminal.TerminalList.TerminalHandleAtIndex` | src/gwt/src/org/rstudio/studio/client/workbench/views/terminal/TerminalList.java:357-374 | the scan returns the handle at the index, and null exactly when the index is negative or at least the count |
| `Terminal.TerminalList.IsCaptionAvailable` | src/gwt/src/org/rstudio/studio/client/workbench/views/terminal/TerminalList.java:376-392 | true exactly when no record has the caption |
| `Terminal.TerminalList.HandleForCaption` | src/gwt/src/org/rstudio/studio/client/workbench/views/terminal/TerminalList.java:394-409 | the first handle in iteration order with the caption; null exactly when the caption is available |
| `Terminal.TerminalList.HaveSubprocs` | src/gwt/src/org/rstudio/studio/client/workbench/views/terminal/TerminalList.java:546-559 | true exactly when some record has child processes |
| `Terminal.TerminalList.NextTerminalSequence` | src/gwt/src/org/rstudio/studio/client/workbench/views/terminal/TerminalList.java:561-575 | the running maximum gives one past the largest present sequence, or one past the sentinel |
| `Terminal.TerminalList.GetCaption` | src/gwt/src/org/rstudio/studio/client/workbench/views/terminal/TerminalList.java:518-530 | null exactly for a handle whose index is -1; otherwise the caption of the record at the handle's index |
| `Terminal.TerminalList.GetHasSubprocs` | src/gwt/src/org/rstudio/studio/client/workbench/views/terminal/TerminalList.java:532-544 | true for an unknown handle; otherwise the child-process flag of the record at the handle's index |
| `Terminal.TerminalList.AutoCloseForHandle` | src/gwt/src/org/rstudio/studio/client/workbench/views/terminal/TerminalList.java:411-423 | the default policy for an unknown handle; otherwise the policy of the record at the handle's index |
| `Terminal.TerminalList.UpdateTerminalBusyStatus` | src/gwt/src/org/rstudio/studio/client/workbench/views/terminal/TerminalList.java:604-607 | publishes one busy value equal to "any record has child processes" of the current state; the table is unchanged |
| `Terminal.TerminalList.AddTerminal` | src/gwt/src/org/rstudio/studio/client/workbench/views/terminal/TerminalList.java:598-602 | the key order becomes the put order (new handle last, known handle in place); the map gains or replaces exactly that record; one busy value of the new state is published |
| `Terminal.TerminalList.RemoveTerminal` | src/gwt/src/org/rstudio/studio/client/workbench/views/terminal/TerminalList.java:304-312 | exactly that handle leaves the order and the map (nothing changes if absent); one busy value of the new state is published |
| `Terminal.TerminalList.TerminateAll` | src/gwt/src/org/rstudio/studio/client/workbench/views/terminal/TerminalList.java:314-326 | one interrupt-and-reap request per stored handle, in iteration order; the table ends empty; the busy value published is false |
| `Terminal.TerminalList.RetitleTerminal` | src/gwt/src/org/rstudio/studio/client/workbench/views/terminal/TerminalList.java:219-239 | returns true exactly when the handle is known and the title differs; then only that record's title changes, and its position and every other record stay; otherwise nothing changes and nothing is published |
| `Terminal.TerminalList.SetChildProcs` | src/gwt/src/org/rstudio/studio/client/workbench/views/terminal/TerminalList.java:241-273 | as for the title, for the child-process flag |
| `Terminal.TerminalList.SetCwd` | src/gwt/src/org/rstudio/studio/client/workbench/views/terminal/TerminalList.java:275-302 | as for the title, for the working directory, with no result |
| `Terminal.TerminalList.OnTerminalSubprocs` | src/gwt/src/org/rstudio/studio/client/workbench/views/terminal/TerminalList.java:615-620 | applies the flag change, then publishes once more (two events when the flag changed, one otherwise); for a known handle the last value is the new flag or-ed with all other records' flags |
| `Terminal.TerminalList.OnTerminalCwd` | src/gwt/src/org/rstudio/studio/client/workbench/views/terminal/TerminalList.java:622-626 | applies the working-directory change and nothing else |
| `Terminal.TerminalList.StartTerminal` | src/gwt/src/org/rstudio/studio/client/workbench/views/terminal/TerminalList.java:577-596 | records exactly one start request and publishes one busy value; the table is unchanged |
| `Terminal.TerminalList.CreateNewTerminal` | src/gwt/src/org/rstudio/studio/client/workbench/views/terminal/TerminalList.java:435-453 | starts one unnamed session with the next sequence number and default fields; the table is unchanged |
| `Terminal.TerminalList.CreateNamedTerminal` | src/gwt/src/org/rstudio/studio/client/workbench/views/terminal/TerminalList.java:455-488 | false, starting nothing, exactly when the caption is non-empty and in use; otherwise starts one session with the next sequence number and the caption (none if empty); never adds to the table |
| `Terminal.TerminalList.ReconnectTerminal` | src/gwt/src/org/rstudio/studio/client/workbench/views/terminal/TerminalList.java:490-516 | false, starting nothing, exactly for an unknown handle; otherwise starts one session that carries every field of the stored record |

## Left out

- `ShinyAppsAccountManagerDialog.java` and `CommitDialog.java`: widget assembly, button wiring and server calls, with no registry logic.
- The public `addTerminal(TerminalSession)` and `addTerminal(ConsoleProcessInfo)` overloads and the record constructors they use (TerminalList.java:103-134, 201-217) copy fields from types that are not part of this model. `AddTerminal` takes a record directly. The constructor's replacement of a null handle, caption or title by `""` is not modelled: those fields are plain strings.
- Creating the `TerminalSession` and calling `connect()` is remote I/O. It is recorded as one `StartRequest` in the `started` log. The constant `focus = true` argument is not recorded.
- Gin injection and event-bus registration (TerminalList.java:184-199) are framework plumbing. The constructor registers nothing, and the two notification handlers are plain methods.
- The blinking-cursor user preference is read from `UIPrefs`. Here it is a `blink` parameter of the start operations.
- Null handle or title arguments are not modelled; handles and titles are strings. The caption of `createNamedTerminal` and the working directory are `Option<string>`, because the source treats null for them specially.
- `Terminal.TerminalList.SetCwd` compares directories by value (`Option` inequality). The source compares `String` references with `!=`, so an equal directory held in a different `String` object still rebuilds the record there, and also publishes a busy event. Java reference identity cannot be expressed over values.
- `Terminal.TerminalList.NextTerminalSequence` uses unbounded integers. It does not model the 32-bit wrap-around of `maxNum + 1` when a sequence equals `Integer.MAX_VALUE`.
- `Terminal.TerminalList.Handles` returns the key order as a value. It does not return a live iterator, so modifying the table during iteration is not modelled.
- The constants' concrete values are set outside the registry (in `ConsoleProcessInfo` and `TerminalShellInfo`, which are not part of this model). The proofs hold for every value.
